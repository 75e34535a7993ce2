/** POSIX path strings as Python's `posixpath` builds them: `os.path.join`
    and `os.path.basename`. */
module PosixPath {

  /** `os.path.join(a, b)`: an absolute `b` replaces `a`; otherwise a `/` is
      inserted unless `a` is empty or already ends with one. */
  function Join(a: string, b: string): string {
    if |b| > 0 && b[0] == '/' then b
    else if a == [] || a[|a| - 1] == '/' then a + b
    else a + "/" + b
  }

  /** `os.path.join(a, *parts)`: joins left to right. */
  function JoinAll(a: string, parts: seq<string>): string
    decreases |parts|
  {
    if |parts| == 0 then a else JoinAll(Join(a, parts[0]), parts[1..])
  }

  /** A single path component, as `os.listdir` and Docker volume names give
      them: non-empty and free of `/`. */
  predicate IsSegment(s: string) {
    |s| > 0 && forall k :: 0 <= k < |s| ==> s[k] != '/'
  }

  lemma JoinAllTwo(a: string, x: string, y: string)
    ensures JoinAll(a, [x, y]) == Join(Join(a, x), y)
  {
    assert [x, y][1..] == [y] && [y][1..] == [];
    assert JoinAll(a, [x, y]) == JoinAll(Join(a, x), [y]);
  }

  lemma JoinAllThree(a: string, x: string, y: string, z: string)
    ensures JoinAll(a, [x, y, z]) == Join(Join(Join(a, x), y), z)
  {
    assert [x, y, z][1..] == [y, z] && [y, z][1..] == [z] && [z][1..] == [];
    assert JoinAll(a, [x, y, z]) == JoinAll(Join(a, x), [y, z]);
    assert JoinAll(Join(a, x), [y, z]) == JoinAll(Join(Join(a, x), y), [z]);
  }

  lemma JoinAllFour(a: string, w: string, x: string, y: string, z: string)
    ensures JoinAll(a, [w, x, y, z]) == Join(Join(Join(Join(a, w), x), y), z)
  {
    assert [w, x, y, z][1..] == [x, y, z];
    JoinAllThree(Join(a, w), x, y, z);
  }

  /** `a` as a directory prefix: unchanged when empty or ending in `/`,
      otherwise with a `/` appended. */
  function DirPrefix(a: string): (r: string)
    ensures r == [] || r[|r| - 1] == '/'
  {
    if a == [] || a[|a| - 1] == '/' then a else a + "/"
  }

  lemma JoinSegment(a: string, seg: string)
    requires IsSegment(seg)
    ensures Join(a, seg) == DirPrefix(a) + seg
  {
    assert seg[0] != '/';
  }

  /** Joining a component never yields an empty path or one ending in `/`. */
  lemma JoinSegmentEnd(a: string, seg: string)
    requires IsSegment(seg)
    ensures var j := Join(a, seg); |j| > 0 && j[|j| - 1] == seg[|seg| - 1] && j[|j| - 1] != '/'
  {
    JoinSegment(a, seg);
  }

  /** Different components joined onto the same base give different paths. */
  lemma JoinSameBase(a: string, s1: string, s2: string)
    requires IsSegment(s1) && IsSegment(s2) && Join(a, s1) == Join(a, s2)
    ensures s1 == s2
  {
    JoinSegment(a, s1);
    JoinSegment(a, s2);
    var p := DirPrefix(a);
    assert s1 == (p + s1)[|p|..] && s2 == (p + s2)[|p|..];
  }

  /** The same component joined onto different bases gives different paths,
      as long as the bases are non-empty and have no trailing `/`. */
  lemma JoinSameSegment(a1: string, a2: string, seg: string)
    requires IsSegment(seg) && Join(a1, seg) == Join(a2, seg)
    requires |a1| > 0 && a1[|a1| - 1] != '/' && |a2| > 0 && a2[|a2| - 1] != '/'
    ensures a1 == a2
  {
    JoinSegment(a1, seg);
    JoinSegment(a2, seg);
    assert |a1| == |a2|;
    assert a1 == (a1 + "/" + seg)[..|a1|] && a2 == (a2 + "/" + seg)[..|a2|];
  }

  /** Joining in two steps is joining once: `join(join(a, *p), *q) == join(a, *p, *q)`. */
  lemma {:induction false} JoinAllAppend(a: string, p: seq<string>, q: seq<string>)
    ensures JoinAll(a, p + q) == JoinAll(JoinAll(a, p), q)
    decreases |p|
  {
    if |p| > 0 {
      assert (p + q)[0] == p[0] && (p + q)[1..] == p[1..] + q;
      JoinAllAppend(Join(a, p[0]), p[1..], q);
    } else {
      assert p + q == q;
    }
  }

  /** Where the last component of `p[..i]` starts: just after the last `/`
      before index `i`, or at 0 when there is none. */
  function BaseStart(p: string, i: nat): (k: nat)
    requires i <= |p|
    ensures k <= i
    ensures forall j :: k <= j < i ==> p[j] != '/'
    ensures k == 0 || p[k - 1] == '/'
    decreases i
  {
    if i == 0 then 0 else if p[i - 1] == '/' then i else BaseStart(p, i - 1)
  }

  /** `os.path.basename(p)`: what follows the last `/` of `p`. */
  function Basename(p: string): (r: string)
    ensures |r| <= |p| && r == p[|p| - |r|..]
    ensures forall k :: 0 <= k < |r| ==> r[k] != '/'
    ensures |r| == |p| || p[|p| - |r| - 1] == '/'
  {
    p[BaseStart(p, |p|)..]
  }

  /** Nothing after a directory prefix is a `/`, so the last component starts
      right after the prefix. */
  lemma {:induction false} BaseStartAfterSlash(x: string, seg: string, j: nat)
    requires x == [] || x[|x| - 1] == '/'
    requires forall k :: 0 <= k < |seg| ==> seg[k] != '/'
    requires j <= |seg|
    ensures BaseStart(x + seg, |x| + j) == |x|
    decreases j
  {
    var p := x + seg;
    if j > 0 {
      assert p[|x| + j - 1] == seg[j - 1];
      BaseStartAfterSlash(x, seg, j - 1);
    } else if |x| > 0 {
      assert p[|x| - 1] == x[|x| - 1];
    }
  }

  /** The basename of a directory prefix followed by a segment is the segment. */
  lemma BasenameAfterSlash(x: string, seg: string)
    requires x == [] || x[|x| - 1] == '/'
    requires forall k :: 0 <= k < |seg| ==> seg[k] != '/'
    ensures Basename(x + seg) == seg
  {
    BaseStartAfterSlash(x, seg, |seg|);
    assert (x + seg)[|x|..] == seg;
  }

  /** `basename(join(parent, name)) == name` for a single component `name`,
      whatever the parent. */
  lemma BasenameOfJoin(parent: string, name: string)
    requires IsSegment(name)
    ensures Basename(Join(parent, name)) == name
  {
    JoinSegment(parent, name);
    BasenameAfterSlash(DirPrefix(parent), name);
  }

  /** A path joined with a relative name ends with the name's last character. */
  lemma JoinLast(a: string, b: string)
    requires |b| > 0 && b[0] != '/'
    ensures var j := Join(a, b); |j| > 0 && j[|j| - 1] == b[|b| - 1]
  {
  }
}
