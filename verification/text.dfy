/** String primitives with Python's meaning: `p in s` (substring test) and
    `str.strip()` with no argument. */
module Text {

  /** `p` occurs in `s` starting at index `i`. */
  predicate OccursAt(s: string, p: string, i: nat) {
    i + |p| <= |s| && s[i..i + |p|] == p
  }

  /** Python's `p in s` for strings. */
  function Contains(s: string, p: string): (r: bool)
    ensures r <==> exists i: nat :: i <= |s| && OccursAt(s, p, i)
    decreases |s|
  {
    if |p| > |s| then false
    else if s[..|p|] == p then
      assert OccursAt(s, p, 0);
      true
    else
      var rest := Contains(s[1..], p);
      assert rest ==> exists i: nat :: i <= |s| && OccursAt(s, p, i) by {
        if rest {
          var j: nat :| j <= |s[1..]| && OccursAt(s[1..], p, j);
          assert s[1..][j..j + |p|] == s[j + 1..j + 1 + |p|];
          assert OccursAt(s, p, j + 1);
        }
      }
      assert (exists i: nat :: i <= |s| && OccursAt(s, p, i)) ==> rest by {
        if exists i: nat :: i <= |s| && OccursAt(s, p, i) {
          var i: nat :| i <= |s| && OccursAt(s, p, i);
          assert i != 0;
          assert s[1..][i - 1..i - 1 + |p|] == s[i..i + |p|];
          assert OccursAt(s[1..], p, i - 1);
        }
      }
      rest
  }

  /** The code points for which Python's `str.isspace()` holds; these are the
      characters `str.strip()` removes. */
  predicate IsSpace(c: char) {
    var n := c as int;
    (9 <= n <= 13) || (28 <= n <= 32) || n == 0x85 || n == 0xA0 || n == 0x1680
    || (0x2000 <= n <= 0x200A) || n == 0x2028 || n == 0x2029 || n == 0x202F
    || n == 0x205F || n == 0x3000
  }

  /** `s.lstrip()`: the longest suffix of `s` that does not start with whitespace. */
  function TrimLeft(s: string): (r: string)
    ensures |r| <= |s| && r == s[|s| - |r|..]
    ensures forall k :: 0 <= k < |s| - |r| ==> IsSpace(s[k])
    ensures r == [] || !IsSpace(r[0])
    decreases |s|
  {
    if |s| > 0 && IsSpace(s[0]) then TrimLeft(s[1..]) else s
  }

  /** `s.rstrip()`: the longest prefix of `s` that does not end with whitespace. */
  function TrimRight(s: string): (r: string)
    ensures |r| <= |s| && r == s[..|r|]
    ensures forall k :: |r| <= k < |s| ==> IsSpace(s[k])
    ensures r == [] || !IsSpace(r[|r| - 1])
    decreases |s|
  {
    if |s| > 0 && IsSpace(s[|s| - 1]) then TrimRight(s[..|s| - 1]) else s
  }

  /** Only whitespace lies before index `i` and from index `j` on. */
  predicate SpaceOutside(s: string, i: nat, j: nat)
    requires i <= j <= |s|
  {
    (forall k :: 0 <= k < i ==> IsSpace(s[k])) && (forall k :: j <= k < |s| ==> IsSpace(s[k]))
  }

  /** `r` is the slice of `s` starting at `i`, with only whitespace around it. */
  predicate StrippedSlice(s: string, r: string, i: nat) {
    i + |r| <= |s| && r == s[i..i + |r|] && SpaceOutside(s, i, i + |r|)
  }

  /** `s.strip()`: `s` with leading and trailing whitespace removed. The result
      is a contiguous slice of `s` with only whitespace cut from either side. */
  function Strip(s: string): (r: string)
    ensures exists i: nat :: StrippedSlice(s, r, i)
    ensures r == [] || (!IsSpace(r[0]) && !IsSpace(r[|r| - 1]))
  {
    TrimBothSlice(s);
    TrimRight(TrimLeft(s))
  }

  lemma TrimBothSlice(s: string)
    ensures StrippedSlice(s, TrimRight(TrimLeft(s)), |s| - |TrimLeft(s)|)
    ensures var r := TrimRight(TrimLeft(s)); r == [] || !IsSpace(r[0])
  {
    var l := TrimLeft(s);
    StripSliceFacts(s, l, TrimRight(l), |s| - |l|);
  }

  /** The facts about `lstrip` and then `rstrip` that make their composition a
      stripped slice, stated without their definitions. */
  lemma StripSliceFacts(s: string, l: string, r: string, i: nat)
    requires i <= |s| && l == s[i..]
    requires forall k :: 0 <= k < i ==> IsSpace(s[k])
    requires l == [] || !IsSpace(l[0])
    requires |r| <= |l| && r == l[..|r|]
    requires forall k :: |r| <= k < |l| ==> IsSpace(l[k])
    ensures StrippedSlice(s, r, i)
    ensures r == [] || !IsSpace(r[0])
  {
    SliceOfSlice(s, l, r, i);
    TrailingSpace(s, l, r, i);
    assert SpaceOutside(s, i, i + |r|);
  }

  lemma SliceOfSlice(s: string, l: string, r: string, i: nat)
    requires i <= |s| && l == s[i..]
    requires |r| <= |l| && r == l[..|r|]
    ensures r == s[i..i + |r|]
    ensures r != [] ==> r[0] == l[0]
  {
  }

  lemma TrailingSpace(s: string, l: string, r: string, i: nat)
    requires i <= |s| && l == s[i..]
    requires |r| <= |l| && r == l[..|r|]
    requires forall k :: |r| <= k < |l| ==> IsSpace(l[k])
    ensures forall k :: i + |r| <= k < |s| ==> IsSpace(s[k])
  {
    forall k | i + |r| <= k < |s| ensures IsSpace(s[k]) {
      assert s[k] == l[k - i];
    }
  }

  /** Stripping is idempotent. */
  lemma StripIdempotent(s: string)
    ensures Strip(Strip(s)) == Strip(s)
  {
    var t := Strip(s);
    assert TrimLeft(t) == t;
    assert TrimRight(t) == t;
  }

  /** A string strips to empty exactly when it is all whitespace. */
  lemma StripEmptyIffAllSpace(s: string)
    ensures Strip(s) == [] <==> forall k :: 0 <= k < |s| ==> IsSpace(s[k])
  {
    var t := Strip(s);
    var i: nat :| StrippedSlice(s, t, i);
    assert t != [] ==> t[0] == s[i];
  }
}
