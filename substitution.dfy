/** Python's `re.sub(pattern, '', s)` for patterns that never match the
    empty string: a left-to-right scan that, at each position, deletes the
    leftmost match found there and resumes after it, and otherwise keeps one
    character and moves on. The pattern itself is a matcher: given the whole
    input and a position, it returns the length of the match starting there,
    or 0 for none. Anchors such as `^` and `$` look at the original input,
    exactly as Python's do. */
module Substitution {
  import opened Text

  type Matcher = (string, nat) -> nat

  /** The matcher finds a (non-empty) match starting at index i of s. */
  predicate MatchesAt(s: string, i: nat, m: Matcher) {
    i < |s| && 0 < m(s, i) <= |s| - i
  }

  /** The output of the substitution from index i of s on. */
  function Scan(s: string, i: nat, m: Matcher): (r: string)
    requires i <= |s|
    ensures |r| <= |s| - i
    decreases |s| - i
  {
    if i == |s| then ""
    else if MatchesAt(s, i, m) then Scan(s, i + m(s, i), m)
    else [s[i]] + Scan(s, i + 1, m)
  }

  /** `re.sub(pattern, '', s)`: the result only deletes characters of s. */
  function Substitute(s: string, m: Matcher): (r: string)
    ensures IsSubseq(r, s)
    ensures |r| <= |s|
  {
    ScanSubseq(s, 0, m);
    assert s[0..] == s;
    Scan(s, 0, m)
  }

  /** Scanning only deletes characters. */
  lemma {:induction false} ScanSubseq(s: string, i: nat, m: Matcher)
    requires i <= |s|
    ensures IsSubseq(Scan(s, i, m), s[i..])
    decreases |s| - i
  {
    if i < |s| {
      if MatchesAt(s, i, m) {
        var k := m(s, i);
        ScanSubseq(s, i + k, m);
        assert s[i..][k..] == s[i + k..];
        SubseqDrop(Scan(s, i, m), s[i..], k);
      } else {
        ScanSubseq(s, i + 1, m);
        assert s[i..][0] == s[i] && s[i..][1..] == s[i + 1..];
      }
    }
  }

  /** Positions where the matcher finds nothing are copied to the output. */
  lemma {:induction false} ScanSkip(s: string, i: nat, j: nat, m: Matcher)
    requires i <= j <= |s|
    requires forall k :: i <= k < j ==> !MatchesAt(s, k, m)
    ensures Scan(s, i, m) == s[i..j] + Scan(s, j, m)
    decreases j - i
  {
    if i < j {
      assert !MatchesAt(s, i, m);
      ScanSkip(s, i + 1, j, m);
      calc {
        Scan(s, i, m);
        [s[i]] + Scan(s, i + 1, m);
        [s[i]] + (s[i + 1..j] + Scan(s, j, m));
        ([s[i]] + s[i + 1..j]) + Scan(s, j, m);
        { assert [s[i]] + s[i + 1..j] == s[i..j]; }
        s[i..j] + Scan(s, j, m);
      }
    }
  }

  /** From a position on which the matcher finds nothing, the rest is copied. */
  lemma {:induction false} ScanTail(s: string, j: nat, m: Matcher)
    requires j <= |s|
    requires forall k :: j <= k < |s| ==> !MatchesAt(s, k, m)
    ensures Scan(s, j, m) == s[j..]
    decreases |s| - j
  {
    if j < |s| {
      assert !MatchesAt(s, j, m);
      ScanTail(s, j + 1, m);
      assert s[j..] == [s[j]] + s[j + 1..];
    }
  }

  /** A matcher that finds nothing leaves the text unchanged. */
  lemma SubstituteNoMatch(s: string, m: Matcher)
    requires forall k :: 0 <= k < |s| ==> !MatchesAt(s, k, m)
    ensures Substitute(s, m) == s
  {
    ScanTail(s, 0, m);
  }

  /** A substitution that matches exactly once deletes just that match. */
  lemma ScanSingleMatch(s: string, i: nat, m: Matcher)
    requires MatchesAt(s, i, m)
    requires forall k :: 0 <= k < i ==> !MatchesAt(s, k, m)
    requires forall k :: i + m(s, i) <= k < |s| ==> !MatchesAt(s, k, m)
    ensures Substitute(s, m) == s[..i] + s[i + m(s, i)..]
  {
    var j := i + m(s, i);
    ScanSkip(s, 0, i, m);
    ScanTail(s, j, m);
    assert Scan(s, i, m) == Scan(s, j, m);
    assert s[0..i] == s[..i];
  }
}
