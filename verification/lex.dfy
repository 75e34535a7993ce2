/** Python's ordering of `str` values (code point by code point, a proper
    prefix first) and `sorted(..., reverse=True)` over a list of names. Dafny's
    built-in `<` on sequences is the proper-prefix order, so the lexicographic
    order is defined here. */
module Lex {

  /** `a <= b` for Python strings. */
  predicate LexLeq(a: string, b: string)
    decreases |a|
  {
    |a| == 0 || (|b| > 0 && (a[0] < b[0] || (a[0] == b[0] && LexLeq(a[1..], b[1..]))))
  }

  /** `a < b` for Python strings. */
  predicate LexLess(a: string, b: string) {
    LexLeq(a, b) && a != b
  }

  /** The textbook definition: `a` is a proper prefix of `b`, or the strings
      first differ at an index where `a` holds the smaller character. */
  predicate DiffersFirstAt(a: string, b: string, k: nat) {
    k < |a| && k < |b| && a[..k] == b[..k] && a[k] < b[k]
  }

  lemma {:induction false} LexLessCharacterization(a: string, b: string)
    ensures LexLess(a, b) <==> (|a| < |b| && a == b[..|a|]) || exists k: nat :: DiffersFirstAt(a, b, k)
    decreases |a|
  {
    if |a| == 0 || |b| == 0 {
    } else if a[0] < b[0] {
      assert DiffersFirstAt(a, b, 0);
    } else if a[0] > b[0] {
      forall k: nat | 0 < k < |a| && k < |b| ensures a[..k] != b[..k] {
        assert a[..k][0] != b[..k][0];
      }
      assert |a| >= |b| || a != b[..|a|] by {
        if |a| < |b| { assert a[0] != b[..|a|][0]; }
      }
    } else {
      var a', b' := a[1..], b[1..];
      LexLessCharacterization(a', b');
      assert LexLess(a, b) <==> LexLess(a', b') by {
        assert a == [a[0]] + a' && b == [b[0]] + b';
      }
      assert (|a| < |b| && a == b[..|a|]) <==> (|a'| < |b'| && a' == b'[..|a'|]) by {
        if |a| < |b| && a == b[..|a|] { assert a' == a[1..] == b[..|a|][1..] == b'[..|a'|]; }
        if |a'| < |b'| && a' == b'[..|a'|] { assert a == [a[0]] + a' == b[..|a|]; }
      }
      assert (exists k: nat :: DiffersFirstAt(a, b, k)) <==> (exists k: nat :: DiffersFirstAt(a', b', k)) by {
        if exists k: nat :: DiffersFirstAt(a, b, k) {
          var k: nat :| DiffersFirstAt(a, b, k);
          assert k > 0;
          assert a'[..k - 1] == a[..k][1..] && b'[..k - 1] == b[..k][1..];
          assert DiffersFirstAt(a', b', k - 1);
        }
        if exists k: nat :: DiffersFirstAt(a', b', k) {
          var k: nat :| DiffersFirstAt(a', b', k);
          assert a[..k + 1] == [a[0]] + a'[..k] && b[..k + 1] == [b[0]] + b'[..k];
          assert DiffersFirstAt(a, b, k + 1);
        }
      }
    }
  }

  lemma {:induction false} LexLeqReflexive(a: string)
    ensures LexLeq(a, a)
    decreases |a|
  {
    if |a| > 0 { LexLeqReflexive(a[1..]); }
  }

  lemma {:induction false} LexLeqTotal(a: string, b: string)
    ensures LexLeq(a, b) || LexLeq(b, a)
    decreases |a|
  {
    if |a| > 0 && |b| > 0 && a[0] == b[0] { LexLeqTotal(a[1..], b[1..]); }
  }

  lemma {:induction false} LexLeqAntisymmetric(a: string, b: string)
    requires LexLeq(a, b) && LexLeq(b, a)
    ensures a == b
    decreases |a|
  {
    if |a| > 0 {
      LexLeqAntisymmetric(a[1..], b[1..]);
      assert a == [a[0]] + a[1..] && b == [b[0]] + b[1..];
    }
  }

  lemma {:induction false} LexLeqTransitive(a: string, b: string, c: string)
    requires LexLeq(a, b) && LexLeq(b, c)
    ensures LexLeq(a, c)
    decreases |a|
  {
    if |a| > 0 && a[0] == b[0] && b[0] == c[0] {
      LexLeqTransitive(a[1..], b[1..], c[1..]);
    }
  }

  /** Newest first: every later element is `<=` every earlier one. */
  predicate SortedDesc(s: seq<string>) {
    forall i, j :: 0 <= i < j < |s| ==> LexLeq(s[j], s[i])
  }

  /** Inserts `x` into a descending sequence, keeping it descending. */
  function Insert(x: string, s: seq<string>): (r: seq<string>)
    requires SortedDesc(s)
    ensures SortedDesc(r)
    ensures multiset(r) == multiset(s) + multiset{x}
    decreases |s|
  {
    if |s| == 0 then [x]
    else if LexLeq(s[0], x) then
      InsertFront(x, s);
      [x] + s
    else
      var tail := Insert(x, s[1..]);
      InsertBehind(x, s, tail);
      [s[0]] + tail
  }

  lemma InsertFront(x: string, s: seq<string>)
    requires SortedDesc(s) && |s| > 0 && LexLeq(s[0], x)
    ensures SortedDesc([x] + s)
  {
    forall j | 0 <= j < |s| ensures LexLeq(s[j], x) {
      if j > 0 { LexLeqTransitive(s[j], s[0], x); }
    }
  }

  lemma InsertBehind(x: string, s: seq<string>, tail: seq<string>)
    requires SortedDesc(s) && |s| > 0 && !LexLeq(s[0], x)
    requires SortedDesc(tail) && multiset(tail) == multiset(s[1..]) + multiset{x}
    ensures SortedDesc([s[0]] + tail)
    ensures multiset([s[0]] + tail) == multiset(s) + multiset{x}
  {
    assert s == [s[0]] + s[1..];
    forall j | 0 <= j < |tail| ensures LexLeq(tail[j], s[0]) {
      assert tail[j] in multiset(tail);
      if tail[j] == x {
        LexLeqTotal(s[0], x);
      } else {
        assert tail[j] in multiset(s[1..]);
        var k :| 0 <= k < |s[1..]| && s[1..][k] == tail[j];
        assert s[k + 1] == tail[j];
      }
    }
  }

  /** `sorted(s, reverse=True)`: a descending permutation of `s`. For a total
      order that permutation is unique (`SortedDescUnique`), so this is the
      list Python's sort returns. */
  function SortDesc(s: seq<string>): (r: seq<string>)
    ensures SortedDesc(r)
    ensures multiset(r) == multiset(s)
  {
    if |s| == 0 then []
    else
      assert s == [s[0]] + s[1..];
      Insert(s[0], SortDesc(s[1..]))
  }

  /** Two descending arrangements of the same multiset are the same list. */
  lemma {:induction false} SortedDescUnique(a: seq<string>, b: seq<string>)
    requires SortedDesc(a) && SortedDesc(b)
    requires multiset(a) == multiset(b)
    ensures a == b
    decreases |a|
  {
    assert |a| == |multiset(a)| == |multiset(b)| == |b|;
    if |a| > 0 {
      SameHead(a, b);
      DropHead(a);
      DropHead(b);
      SortedDescUnique(a[1..], b[1..]);
      assert a == [a[0]] + a[1..] && b == [b[0]] + b[1..];
    }
  }

  lemma SameHead(a: seq<string>, b: seq<string>)
    requires SortedDesc(a) && SortedDesc(b)
    requires multiset(a) == multiset(b) && |a| > 0 && |b| > 0
    ensures a[0] == b[0]
  {
    assert a[0] in multiset(b);
    assert b[0] in multiset(a);
    var i :| 0 <= i < |b| && b[i] == a[0];
    var j :| 0 <= j < |a| && a[j] == b[0];
    assert LexLeq(a[0], b[0]) by { if i == 0 { LexLeqReflexive(a[0]); } }
    assert LexLeq(b[0], a[0]) by { if j == 0 { LexLeqReflexive(b[0]); } }
    LexLeqAntisymmetric(a[0], b[0]);
  }

  lemma DropHead(a: seq<string>)
    requires |a| > 0
    ensures multiset(a[1..]) == multiset(a) - multiset{a[0]}
  {
    assert a == [a[0]] + a[1..];
    assert multiset(a) == multiset([a[0]]) + multiset(a[1..]);
  }
}
