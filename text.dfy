/** Character classes, the three-backtick marker, counting, concatenation and
    the subsequence relation: the string vocabulary shared by the fence
    transforms and the streaming filter. */
module Text {

  /** Python's `\w`, restricted to ASCII letters, digits and underscore. */
  predicate IsWordChar(c: char) {
    ('a' <= c <= 'z') || ('A' <= c <= 'Z') || ('0' <= c <= '9') || c == '_'
  }

  /** The class `[ \t]`. */
  predicate IsBlank(c: char) {
    c == ' ' || c == '\t'
  }

  /** The fence marker "```" starts at index i of s. */
  predicate MarkerAt(s: string, i: nat) {
    i + 3 <= |s| && s[i] == '`' && s[i + 1] == '`' && s[i + 2] == '`'
  }

  /** Python's substring test `"```" in s`: a marker starts at some index. */
  function ContainsMarker(s: string): (r: bool)
    ensures r <==> exists i: nat :: MarkerAt(s, i)
    decreases |s|
  {
    |s| >= 3 && (MarkerAt(s, 0) || (
      assert forall i: nat :: 1 <= i && MarkerAt(s, i) ==> MarkerAt(s[1..], i - 1);
      assert forall j: nat :: MarkerAt(s[1..], j) ==> MarkerAt(s, j + 1);
      ContainsMarker(s[1..])))
  }

  /** Python's `s.count("```")`: occurrences found by a left-to-right scan
      that resumes after each occurrence, so they never overlap. */
  function CountMarker(s: string): (n: nat)
    ensures 3 * n <= |s|
    decreases |s|
  {
    if |s| < 3 then 0
    else if MarkerAt(s, 0) then 1 + CountMarker(s[3..])
    else CountMarker(s[1..])
  }

  /** Python's `s.count('\n')`: the number of newline characters in s. */
  function CountNewlines(s: string): (n: nat)
    ensures n == multiset(s)['\n']
  {
    if s == "" then 0
    else
      assert s == [s[0]] + s[1..];
      (if s[0] == '\n' then 1 else 0) + CountNewlines(s[1..])
  }

  /** The text a sequence of `print(.., end="")` calls puts on the terminal. */
  function Concat(parts: seq<string>): (text: string) {
    if parts == [] then "" else Concat(parts[..|parts| - 1]) + parts[|parts| - 1]
  }

  /** a can be obtained from b by deleting characters. */
  predicate IsSubseq(a: string, b: string)
    decreases |b|
  {
    if a == [] then true
    else if b == [] then false
    else (a[0] == b[0] && IsSubseq(a[1..], b[1..])) || IsSubseq(a, b[1..])
  }

  /** s holds no backtick at all. */
  predicate NoBacktick(s: string) { forall k :: 0 <= k < |s| ==> s[k] != '`' }

  lemma NoBacktickOf(s: string)
    requires '`' !in s
    ensures NoBacktick(s)
  {
    assert forall k :: 0 <= k < |s| ==> s[k] in s;
  }

  /** `"```" in s` and `s.count("```") >= 1` agree, which makes the first
      conjunct of the source's third flush condition redundant. */
  lemma {:induction false} CountMarkerPositive(s: string)
    ensures CountMarker(s) >= 1 <==> ContainsMarker(s)
    decreases |s|
  {
    if |s| >= 3 {
      if MarkerAt(s, 0) {
      } else {
        CountMarkerPositive(s[1..]);
      }
    }
  }

  /** `s.count("```") >= 2` holds exactly when two markers start at least
      three characters apart, so that they do not overlap. */
  lemma {:induction false} CountMarkerTwo(s: string)
    ensures CountMarker(s) >= 2 <==> exists i: nat, j: nat :: i + 3 <= j && MarkerAt(s, i) && MarkerAt(s, j)
    decreases |s|
  {
    if |s| < 3 {
    } else if MarkerAt(s, 0) {
      CountMarkerPositive(s[3..]);
      if CountMarker(s) >= 2 {
        var j: nat :| MarkerAt(s[3..], j);
        assert MarkerAt(s, j + 3);
      } else {
        forall i: nat, j: nat | i + 3 <= j && MarkerAt(s, i) && MarkerAt(s, j) ensures false {
          assert MarkerAt(s[3..], j - 3);
        }
      }
    } else {
      CountMarkerTwo(s[1..]);
      if CountMarker(s) >= 2 {
        var i: nat, j: nat :| i + 3 <= j && MarkerAt(s[1..], i) && MarkerAt(s[1..], j);
        assert MarkerAt(s, i + 1) && MarkerAt(s, j + 1);
      } else {
        forall i: nat, j: nat | i + 3 <= j && MarkerAt(s, i) && MarkerAt(s, j) ensures false {
          assert i >= 1;
          assert MarkerAt(s[1..], i - 1) && MarkerAt(s[1..], j - 1);
        }
      }
    }
  }

  /** Four and five backticks count as one marker, six as two. */
  lemma CountMarkerExamples()
    ensures CountMarker("````") == 1
    ensures CountMarker("`````") == 1
    ensures CountMarker("``````") == 2
  {
    assert MarkerAt("````", 0) && "````"[3..] == "`";
    assert MarkerAt("`````", 0) && "`````"[3..] == "``";
    assert MarkerAt("``````", 0) && "``````"[3..] == "```";
    assert MarkerAt("```", 0) && "```"[3..] == "";
  }

  lemma {:induction false} ContainsMarkerAppend(a: string, b: string)
    requires ContainsMarker(a)
    ensures ContainsMarker(a + b)
    decreases |a|
  {
    if !MarkerAt(a, 0) {
      ContainsMarkerAppend(a[1..], b);
      assert (a + b)[1..] == a[1..] + b;
    }
  }

  lemma {:induction false} ContainsMarkerPrepend(a: string, b: string)
    requires ContainsMarker(b)
    ensures ContainsMarker(a + b)
    decreases |a|
  {
    if a != "" {
      ContainsMarkerPrepend(a[1..], b);
      assert (a + b)[1..] == a[1..] + b;
    } else {
      assert a + b == b;
    }
  }

  lemma {:induction false} NoBacktickNoMarker(s: string)
    requires NoBacktick(s)
    ensures !ContainsMarker(s) && CountMarker(s) == 0
    decreases |s|
  {
    if |s| >= 3 {
      NoBacktickNoMarker(s[1..]);
    }
  }

  lemma {:induction false} ConcatAppend(parts: seq<string>, last: string)
    ensures Concat(parts + [last]) == Concat(parts) + last
  {
    assert (parts + [last])[..|parts|] == parts;
  }

  lemma {:induction false} SubseqRefl(a: string)
    ensures IsSubseq(a, a)
    decreases |a|
  {
    if a != [] {
      SubseqRefl(a[1..]);
    }
  }

  /** Deleting the first k characters of b keeps every subsequence of what remains. */
  lemma {:induction false} SubseqDrop(a: string, b: string, k: nat)
    requires k <= |b|
    requires IsSubseq(a, b[k..])
    ensures IsSubseq(a, b)
    decreases k
  {
    if k > 0 {
      assert b[1..][k - 1..] == b[k..];
      SubseqDrop(a, b[1..], k - 1);
    }
  }

  lemma {:induction false} SubseqTrans(a: string, b: string, c: string)
    requires IsSubseq(a, b) && IsSubseq(b, c)
    ensures IsSubseq(a, c)
    decreases |c|
  {
    if a != [] {
      assert b != [] && c != [];
      if b[0] == c[0] && IsSubseq(b[1..], c[1..]) {
        if a[0] == b[0] && IsSubseq(a[1..], b[1..]) {
          SubseqTrans(a[1..], b[1..], c[1..]);
        } else {
          SubseqTrans(a, b[1..], c[1..]);
        }
      } else {
        SubseqTrans(a, b, c[1..]);
      }
    }
  }

  lemma {:induction false} SubseqConcat(a1: string, b1: string, a2: string, b2: string)
    requires IsSubseq(a1, b1) && IsSubseq(a2, b2)
    ensures IsSubseq(a1 + a2, b1 + b2)
    decreases |b1|
  {
    if a1 == [] {
      assert a1 + a2 == a2;
      assert (b1 + b2)[|b1|..] == b2;
      SubseqDrop(a2, b1 + b2, |b1|);
    } else {
      assert b1 != [];
      assert (a1 + a2)[0] == a1[0] && (a1 + a2)[1..] == a1[1..] + a2;
      assert (b1 + b2)[0] == b1[0] && (b1 + b2)[1..] == b1[1..] + b2;
      if a1[0] == b1[0] && IsSubseq(a1[1..], b1[1..]) {
        SubseqConcat(a1[1..], b1[1..], a2, b2);
      } else {
        SubseqConcat(a1, b1[1..], a2, b2);
      }
    }
  }

}
