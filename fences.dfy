/** The two fence-stripping transforms of `ShellOiva`: `_clean_code_blocks`,
    which the streaming filter applies to every flushed buffer, and
    `clean_response`. Each is a fixed chain of three `re.sub(.., '', ..)`
    calls; every pattern is written out below as a matcher for the scanner
    of module Substitution. */
module Fences {
  import opened Text
  import opened Substitution

  /** Length of the longest run of characters satisfying p from index j on
      (a greedy `[..]*`). */
  function Span(s: string, j: nat, p: char -> bool): (n: nat)
    requires j <= |s|
    ensures j + n <= |s|
    ensures forall k :: j <= k < j + n ==> p(s[k])
    ensures j + n == |s| || !p(s[j + n])
    decreases |s| - j
  {
    if j < |s| && p(s[j]) then 1 + Span(s, j + 1, p) else 0
  }

  /** Span is the greedy run: any run that cannot be extended is it. */
  lemma {:induction false} SpanExact(s: string, j: nat, p: char -> bool, n: nat)
    requires j + n <= |s|
    requires forall k :: j <= k < j + n ==> p(s[k])
    requires j + n == |s| || !p(s[j + n])
    ensures Span(s, j, p) == n
    decreases n
  {
    if n > 0 {
      SpanExact(s, j + 1, p, n - 1);
    }
  }

  /** `` ```[\w]*[ \t]*\n? ``: the marker, a greedy language tag, greedy
      blanks, and a newline when one follows. */
  function OpeningAt(s: string, i: nat): (n: nat)
    ensures n > 0 <==> MarkerAt(s, i)
    ensures i + n <= |s| || n == 0
  {
    if MarkerAt(s, i) then
      var word := Span(s, i + 3, IsWordChar);
      var blank := Span(s, i + 3 + word, IsBlank);
      var end := i + 3 + word + blank;
      if end < |s| && s[end] == '\n' then end + 1 - i else end - i
    else 0
  }

  /** `` \n?``` ``: the marker, together with the newline before it when there is one. */
  function ClosingAt(s: string, i: nat): (n: nat)
    ensures n > 0 ==> MarkerAt(s, i) || (MarkerAt(s, i + 1) && s[i] == '\n')
    ensures i + n <= |s| || n == 0
  {
    if i < |s| && s[i] == '\n' && MarkerAt(s, i + 1) then 4
    else if MarkerAt(s, i) then 3
    else 0
  }

  /** `` ^```$ `` with `re.MULTILINE`: the marker alone on its line; the line
      break after it is not part of the match. */
  function BareLineAt(s: string, i: nat): (n: nat)
    ensures n > 0 ==> MarkerAt(s, i)
    ensures i + n <= |s| || n == 0
  {
    if MarkerAt(s, i) && (i == 0 || s[i - 1] == '\n') && (i + 3 == |s| || s[i + 3] == '\n') then 3
    else 0
  }

  /** `` ^```\w*\n `` without `re.MULTILINE`: only at the start of the
      string, and the newline is required. */
  function LeadingFenceAt(s: string, i: nat): (n: nat)
    ensures n > 0 ==> i == 0 && MarkerAt(s, i)
    ensures i + n <= |s| || n == 0
  {
    if i == 0 && MarkerAt(s, 0) then
      var word := Span(s, 3, IsWordChar);
      if 3 + word < |s| && s[3 + word] == '\n' then 4 + word else 0
    else 0
  }

  /** `` \n```$ `` without `re.MULTILINE`: `$` holds at the end of the string
      and just before a newline that ends the string. */
  function TrailingFenceAt(s: string, i: nat): (n: nat)
    ensures n > 0 ==> MarkerAt(s, i + 1) && s[i] == '\n'
    ensures i + n <= |s| || n == 0
  {
    if i < |s| && s[i] == '\n' && MarkerAt(s, i + 1) && (i + 4 == |s| || (i + 5 == |s| && s[i + 4] == '\n')) then 4
    else 0
  }

  /** Step 1 of `_clean_code_blocks`: every marker goes, with the language
      tag, blanks and newline after it. */
  function StripOpenings(s: string): (r: string)
    ensures IsSubseq(r, s) && |r| <= |s|
    ensures !ContainsMarker(r)
    ensures !ContainsMarker(s) ==> r == s
  {
    assert MatchesEveryMarker(OpeningAt);
    MarkersDeleted(s, 0, OpeningAt);
    MarkerFreeUnchanged(s, OpeningAt);
    Substitute(s, OpeningAt)
  }

  /** Step 2 of `_clean_code_blocks`. */
  function StripClosings(s: string): (r: string)
    ensures IsSubseq(r, s) && |r| <= |s|
    ensures !ContainsMarker(s) ==> r == s
  {
    MarkerFreeUnchanged(s, ClosingAt);
    Substitute(s, ClosingAt)
  }

  /** Step 3 of `_clean_code_blocks`, and the last step of `clean_response`. */
  function StripBareLines(s: string): (r: string)
    ensures IsSubseq(r, s) && |r| <= |s|
    ensures !ContainsMarker(s) ==> r == s
  {
    MarkerFreeUnchanged(s, BareLineAt);
    Substitute(s, BareLineAt)
  }

  /** Step 1 of `clean_response`. */
  function StripLeadingFence(s: string): (r: string)
    ensures IsSubseq(r, s) && |r| <= |s|
    ensures !ContainsMarker(s) ==> r == s
  {
    MarkerFreeUnchanged(s, LeadingFenceAt);
    Substitute(s, LeadingFenceAt)
  }

  /** Step 2 of `clean_response`. */
  function StripTrailingFence(s: string): (r: string)
    ensures IsSubseq(r, s) && |r| <= |s|
    ensures !ContainsMarker(s) ==> r == s
  {
    MarkerFreeUnchanged(s, TrailingFenceAt);
    Substitute(s, TrailingFenceAt)
  }

  /** `ShellOiva._clean_code_blocks`: it only deletes, leaves no marker, and
      passes text without a marker unchanged. */
  function CleanCodeBlocks(text: string): (r: string)
    ensures IsSubseq(r, text) && |r| <= |text|
    ensures !ContainsMarker(r)
    ensures !ContainsMarker(text) ==> r == text
  {
    StripBareLines(StripClosings(StripOpenings(text)))
  }

  /** `ShellOiva.clean_response`: it only deletes, and passes text without a
      marker unchanged. */
  function CleanResponse(text: string): (r: string)
    ensures IsSubseq(r, text) && |r| <= |text|
    ensures !ContainsMarker(text) ==> r == text
  {
    var a := StripLeadingFence(text);
    var b := StripTrailingFence(a);
    SubseqTrans(b, a, text);
    SubseqTrans(StripBareLines(b), b, text);
    StripBareLines(b)
  }

  /** The matcher only ever matches where a marker starts, at i or at i + 1. */
  ghost predicate NeedsMarker(m: Matcher) {
    forall s: string, i: nat :: m(s, i) > 0 ==> MarkerAt(s, i) || MarkerAt(s, i + 1)
  }

  lemma MarkerFreeUnchanged(s: string, m: Matcher)
    requires NeedsMarker(m)
    ensures !ContainsMarker(s) ==> Substitute(s, m) == s
  {
    if !ContainsMarker(s) {
      forall k | 0 <= k < |s| ensures !MatchesAt(s, k, m) {
        assert !MarkerAt(s, k) && !MarkerAt(s, k + 1);
      }
      SubstituteNoMatch(s, m);
    }
  }

  /** The matcher matches exactly where a marker starts, within the string. */
  ghost predicate MatchesEveryMarker(m: Matcher) {
    forall s: string, i: nat :: (m(s, i) > 0 <==> MarkerAt(s, i)) && (m(s, i) == 0 || i + m(s, i) <= |s|)
  }

  /** A kept or deleted position: the output from index q starts with a
      backtick only if the input does. */
  lemma ScanFirstChar(s: string, q: nat, m: Matcher)
    requires MatchesEveryMarker(m) && q <= |s|
    ensures |Scan(s, q, m)| > 0 && Scan(s, q, m)[0] == '`' ==> q < |s| && s[q] == '`'
  {
    if q < |s| && MatchesAt(s, q, m) {
      assert MarkerAt(s, q);
    }
  }

  /** A substitution that matches every marker leaves none, since deleting a
      match never brings three backticks together. */
  lemma {:induction false} MarkersDeleted(s: string, i: nat, m: Matcher)
    requires MatchesEveryMarker(m) && i <= |s|
    ensures !ContainsMarker(Scan(s, i, m))
    decreases |s| - i
  {
    if i < |s| {
      if MatchesAt(s, i, m) {
        MarkersDeleted(s, i + m(s, i), m);
      } else {
        MarkersDeleted(s, i + 1, m);
        var t := Scan(s, i + 1, m);
        var r := [s[i]] + t;
        assert Scan(s, i, m) == r;
        assert !MarkerAt(s, i);
        // A marker at the front of r would need backticks at i, i + 1 and i + 2.
        ScanFirstChar(s, i + 1, m);
        if i + 1 < |s| && !MatchesAt(s, i + 1, m) {
          assert t == [s[i + 1]] + Scan(s, i + 2, m);
          ScanFirstChar(s, i + 2, m);
        } else if i + 1 < |s| {
          assert MarkerAt(s, i + 1);
        }
        assert !MarkerAt(r, 0);
        assert r[1..] == t;
      }
    }
  }

  /** Steps 2 and 3 of `_clean_code_blocks` never find a marker, so the
      transform is step 1 alone and leaves no marker behind. */
  lemma CleanCodeBlocksIsStripOpenings(s: string)
    ensures CleanCodeBlocks(s) == StripOpenings(s)
    ensures !ContainsMarker(CleanCodeBlocks(s))
  {
    var t := StripOpenings(s);
    MarkerFreeUnchanged(t, ClosingAt);
    MarkerFreeUnchanged(t, BareLineAt);
  }

  /** Cleaning twice is cleaning once: the first pass leaves no marker, and
      marker-free text passes unchanged. */
  lemma CleanCodeBlocksIdempotent(s: string)
    ensures CleanCodeBlocks(CleanCodeBlocks(s)) == CleanCodeBlocks(s)
  {
  }

  /** The length of an opening-fence match, given the tag and blank runs that follow the marker. */
  lemma OpeningLength(s: string, i: nat, w: nat, b: nat)
    requires MarkerAt(s, i) && i + 3 + w + b <= |s|
    requires forall k :: i + 3 <= k < i + 3 + w ==> IsWordChar(s[k])
    requires forall k :: i + 3 + w <= k < i + 3 + w + b ==> IsBlank(s[k])
    requires i + 3 + w + b == |s| || (!IsBlank(s[i + 3 + w + b]) && (b > 0 || !IsWordChar(s[i + 3 + w])))
    ensures OpeningAt(s, i) == 3 + w + b + (if i + 3 + w + b < |s| && s[i + 3 + w + b] == '\n' then 1 else 0)
  {
    OpeningSpans(s, i, w, b);
  }

  /** The tag and blank runs after a marker are the greedy ones. */
  lemma OpeningSpans(s: string, i: nat, w: nat, b: nat)
    requires i + 3 + w + b <= |s|
    requires forall k :: i + 3 <= k < i + 3 + w ==> IsWordChar(s[k])
    requires forall k :: i + 3 + w <= k < i + 3 + w + b ==> IsBlank(s[k])
    requires i + 3 + w + b == |s| || (!IsBlank(s[i + 3 + w + b]) && (b > 0 || !IsWordChar(s[i + 3 + w])))
    ensures Span(s, i + 3, IsWordChar) == w && Span(s, i + 3 + w, IsBlank) == b
  {
    if b > 0 {
      assert IsBlank(s[i + 3 + w]);
    }
    SpanExact(s, i + 3, IsWordChar, w);
    SpanExact(s, i + 3 + w, IsBlank, b);
  }

  /** Where the outer pieces of `pre + "```" + tag + blanks + post` sit. */
  lemma SingleOpeningEnds(pre: string, tag: string, blanks: string, post: string)
    ensures var s := pre + "```" + tag + blanks + post;
      var i, e := |pre|, |pre| + 3 + |tag| + |blanks|;
      e <= |s| && s[..i] == pre && MarkerAt(s, i) && s[e..] == post
  {
    var s := pre + "```" + tag + blanks + post;
    var i := |pre|;
    assert s == pre + ("```" + (tag + (blanks + post)));
    assert s[i..] == "```" + (tag + (blanks + post));
  }

  /** Where the tag and the blanks of `pre + "```" + tag + blanks + post` sit. */
  lemma SingleOpeningMiddle(pre: string, tag: string, blanks: string, post: string)
    ensures var s := pre + "```" + tag + blanks + post;
      var i, e := |pre|, |pre| + 3 + |tag| + |blanks|;
      (forall k :: i + 3 <= k < i + 3 + |tag| ==> s[k] == tag[k - i - 3]) &&
      (forall k :: i + 3 + |tag| <= k < e ==> s[k] == blanks[k - i - 3 - |tag|])
  {
    var s := pre + "```" + tag + blanks + post;
    var i := |pre|;
    assert s == (pre + "```") + (tag + (blanks + post));
    assert s[i + 3..] == tag + (blanks + post);
    assert s[i + 3 + |tag|..] == blanks + post;
  }

  /** Step 1 on a string with one marker deletes just its match. */
  lemma StripOneOpening(s: string, i: nat, rest: string)
    requires MarkerAt(s, i) && NoBacktick(s[..i])
    requires s[i + OpeningAt(s, i)..] == rest && NoBacktick(rest)
    ensures StripOpenings(s) == s[..i] + rest
  {
    var j := i + OpeningAt(s, i);
    forall k | 0 <= k < i ensures !MatchesAt(s, k, OpeningAt) {
      assert s[k] == s[..i][k];
      assert !MarkerAt(s, k);
    }
    forall k | j <= k < |s| ensures !MatchesAt(s, k, OpeningAt) {
      assert s[k] == rest[k - j];
      assert !MarkerAt(s, k);
    }
    ScanSingleMatch(s, i, OpeningAt);
  }

  /** The match of step 1 in `pre + "```" + tag + blanks + post` ends where
      post starts, or one further when post starts with a newline. */
  lemma SingleOpeningMatch(pre: string, tag: string, blanks: string, post: string)
    requires forall k :: 0 <= k < |tag| ==> IsWordChar(tag[k])
    requires forall k :: 0 <= k < |blanks| ==> IsBlank(blanks[k])
    requires post == "" || (!IsBlank(post[0]) && (blanks != "" || !IsWordChar(post[0])))
    ensures var s := pre + "```" + tag + blanks + post;
      var e := |pre| + 3 + |tag| + |blanks|;
      OpeningAt(s, |pre|) == e - |pre| + (if post != "" && post[0] == '\n' then 1 else 0)
  {
    var s := pre + "```" + tag + blanks + post;
    var i, w, b := |pre|, |tag|, |blanks|;
    var e := i + 3 + w + b;
    SingleOpeningEnds(pre, tag, blanks, post);
    SingleOpeningMiddle(pre, tag, blanks, post);
    assert e < |s| ==> s[e] == post[0];
    OpeningLength(s, i, w, b);
  }

  /** A single marker, with the language tag, blanks and newline that step 1
      takes with it, is removed and everything around it kept. The tag
      straight after the marker goes too, which is how an unpaired marker in
      prose ("Some ```text that never closes") also loses the word after it. */
  lemma StripSingleOpening(pre: string, tag: string, blanks: string, post: string)
    requires NoBacktick(pre) && NoBacktick(post)
    requires forall k :: 0 <= k < |tag| ==> IsWordChar(tag[k])
    requires forall k :: 0 <= k < |blanks| ==> IsBlank(blanks[k])
    requires post == "" || (!IsBlank(post[0]) && (blanks != "" || !IsWordChar(post[0])))
    ensures CleanCodeBlocks(pre + "```" + tag + blanks + post)
         == pre + (if post != "" && post[0] == '\n' then post[1..] else post)
  {
    var s := pre + "```" + tag + blanks + post;
    SingleOpeningStep1(pre, tag, blanks, post);
    CleanCodeBlocksIsStripOpenings(s);
  }

  lemma SingleOpeningStep1(pre: string, tag: string, blanks: string, post: string)
    requires NoBacktick(pre) && NoBacktick(post)
    requires forall k :: 0 <= k < |tag| ==> IsWordChar(tag[k])
    requires forall k :: 0 <= k < |blanks| ==> IsBlank(blanks[k])
    requires post == "" || (!IsBlank(post[0]) && (blanks != "" || !IsWordChar(post[0])))
    ensures StripOpenings(pre + "```" + tag + blanks + post)
         == pre + (if post != "" && post[0] == '\n' then post[1..] else post)
  {
    var s := pre + "```" + tag + blanks + post;
    var i, e := |pre|, |pre| + 3 + |tag| + |blanks|;
    SingleOpeningEnds(pre, tag, blanks, post);
    SingleOpeningMatch(pre, tag, blanks, post);
    var j := i + OpeningAt(s, i);
    var rest := if post != "" && post[0] == '\n' then post[1..] else post;
    assert s[j..] == rest by {
      if j > e {
        assert s[j..] == s[e..][1..];
      }
    }
    assert NoBacktick(rest) by {
      if rest != post {
        forall k | 0 <= k < |rest| ensures rest[k] != '`' {
          assert rest[k] == post[k + 1];
        }
      }
    }
    StripOneOpening(s, i, rest);
  }

  /** The post-marker part of a buffer with no backtick in it. */
  lemma NewlineThenNoBacktick(text: string)
    requires '`' !in text
    ensures NoBacktick("\n" + text)
  {
    NoBacktickOf(text);
    var post := "\n" + text;
    forall k | 0 <= k < |post| ensures post[k] != '`' {
      if k > 0 {
        assert post[k] == text[k - 1];
      }
    }
  }

  /** An opening fence line at the start is removed and the code after it kept. */
  lemma CleanOpenedCode(tag: string, code: string)
    requires forall k :: 0 <= k < |tag| ==> IsWordChar(tag[k])
    requires '`' !in code
    ensures CleanCodeBlocks("```" + tag + "\n" + code) == code
  {
    var post := "\n" + code;
    NewlineThenNoBacktick(code);
    assert NoBacktick("");
    assert post != "" && post[0] == '\n' && post[1..] == code;
    StripSingleOpening("", tag, "", post);
    assert "" + "```" + tag + "" + post == "```" + tag + "\n" + code;
  }

  lemma OpeningFenceExample()
    ensures CleanCodeBlocks("```" + "python" + "\n" + "print(1)\n") == "print(1)\n"
  {
    assert forall k :: 0 <= k < |"python"| ==> IsWordChar("python"[k]);
    CleanOpenedCode("python", "print(1)\n");
  }

  lemma UnpairedMarkerExample()
    ensures CleanCodeBlocks("Some " + "```" + "text" + " " + "that never closes") == "Some " + "that never closes"
  {
    NoBacktickOf("that never closes");
    NoBacktickOf("Some ");
    assert forall k :: 0 <= k < |"text"| ==> IsWordChar("text"[k]);
    StripSingleOpening("Some ", "text", " ", "that never closes");
  }

  /** An opening fence line: the marker, word characters, then a newline. */
  predicate IsOpeningLine(p: string) {
    |p| >= 4 && MarkerAt(p, 0) && p[|p| - 1] == '\n' &&
    forall k :: 3 <= k < |p| - 1 ==> IsWordChar(p[k])
  }

  /** If s starts with an opening fence line of length n then the leading
      matcher matches exactly those n characters. */
  lemma LeadingMatchIsLine(s: string, n: nat)
    requires 0 < n <= |s| && IsOpeningLine(s[..n])
    ensures LeadingFenceAt(s, 0) == n
  {
    var word := Span(s, 3, IsWordChar);
    assert MarkerAt(s, 0);
    forall k | 3 <= k < n - 1 ensures IsWordChar(s[k]) {
      assert s[..n][k] == s[k];
    }
    assert s[n - 1] == s[..n][n - 1] == '\n';
    assert !IsWordChar('\n');
    assert 3 + word == n - 1;
  }

  /** Line 68 removes an opening fence line only at the very start of the
      string, and does nothing when the string does not start with one. */
  lemma LeadingFenceOnlyAtStart(s: string)
    ensures (forall n :: 0 < n <= |s| ==> !IsOpeningLine(s[..n])) ==> StripLeadingFence(s) == s
    ensures forall n :: 0 < n <= |s| && IsOpeningLine(s[..n]) ==> StripLeadingFence(s) == s[n..]
  {
    var k := LeadingFenceAt(s, 0);
    assert forall j :: 0 < j < |s| ==> !MatchesAt(s, j, LeadingFenceAt);
    if k > 0 {
      var word := Span(s, 3, IsWordChar);
      assert IsOpeningLine(s[..k]);
      ScanSingleMatch(s, 0, LeadingFenceAt);
      assert StripLeadingFence(s) == s[k..] by {
        assert s[..0] + s[k..] == s[k..];
      }
      forall n | 0 < n <= |s| && IsOpeningLine(s[..n]) ensures n == k {
        LeadingMatchIsLine(s, n);
      }
    } else {
      forall n | 0 < n <= |s| && IsOpeningLine(s[..n]) ensures false {
        LeadingMatchIsLine(s, n);
      }
      SubstituteNoMatch(s, LeadingFenceAt);
    }
  }

  predicate EndsWith(s: string, suffix: string) {
    |suffix| <= |s| && s[|s| - |suffix|..] == suffix
  }

  lemma TrailingFenceAtEnd(s: string)
    requires EndsWith(s, "\n```")
    ensures StripTrailingFence(s) == s[..|s| - 4]
  {
    var j := |s| - 4;
    assert s[j..] == "\n```";
    assert s[j] == '\n' && s[j + 1] == '`' && s[j + 2] == '`' && s[j + 3] == '`';
    assert TrailingFenceAt(s, j) == 4;
    assert forall k :: 0 <= k < j ==> !MatchesAt(s, k, TrailingFenceAt);
    ScanSingleMatch(s, j, TrailingFenceAt);
    assert s[..j] + s[|s|..] == s[..j];
  }

  lemma TrailingFenceBeforeNewline(s: string)
    requires EndsWith(s, "\n```\n")
    ensures StripTrailingFence(s) == s[..|s| - 5] + "\n"
  {
    var j := |s| - 5;
    assert s[j..] == "\n```\n";
    assert s[j] == '\n' && s[j + 1] == '`' && s[j + 2] == '`' && s[j + 3] == '`' && s[j + 4] == '\n';
    assert TrailingFenceAt(s, j) == 4;
    assert forall k :: 0 <= k < j ==> !MatchesAt(s, k, TrailingFenceAt);
    assert !MatchesAt(s, |s| - 1, TrailingFenceAt);
    ScanSingleMatch(s, j, TrailingFenceAt);
    assert s[|s| - 1..] == "\n";
  }

  /** Line 70 removes a closing fence only at the end of the string or just
      before a final newline, which it keeps. */
  lemma TrailingFenceOnlyAtEnd(s: string)
    ensures EndsWith(s, "\n```") ==> StripTrailingFence(s) == s[..|s| - 4]
    ensures EndsWith(s, "\n```\n") ==> StripTrailingFence(s) == s[..|s| - 5] + "\n"
    ensures !EndsWith(s, "\n```") && !EndsWith(s, "\n```\n") ==> StripTrailingFence(s) == s
  {
    if EndsWith(s, "\n```") {
      TrailingFenceAtEnd(s);
      assert s[|s| - 1] == s[|s| - 4..][3] == '`';
      assert !EndsWith(s, "\n```\n") by {
        if |s| >= 5 {
          assert s[|s| - 5..][4] == s[|s| - 1];
        }
      }
    } else if EndsWith(s, "\n```\n") {
      TrailingFenceBeforeNewline(s);
    } else {
      forall k | 0 <= k < |s| ensures !MatchesAt(s, k, TrailingFenceAt) {
        if MatchesAt(s, k, TrailingFenceAt) {
          TrailingMatchEnds(s, k);
        }
      }
      SubstituteNoMatch(s, TrailingFenceAt);
    }
  }

  /** Wherever `\n```$` matches, the string ends with one of the two endings. */
  lemma TrailingMatchEnds(s: string, k: nat)
    requires MatchesAt(s, k, TrailingFenceAt)
    ensures EndsWith(s, "\n```") || EndsWith(s, "\n```\n")
  {
    if k + 4 == |s| {
      assert s[k..] == "\n```";
    } else {
      assert s[k..] == "\n```\n";
    }
  }

  /** `^```$` with `re.MULTILINE` removes a marker standing alone on a line,
      in text that holds no other backtick, wherever that line stands, and
      leaves the line breaks around it. */
  lemma BareLineRemoved(pre: string, post: string)
    requires NoBacktick(pre) && NoBacktick(post)
    requires pre == "" || pre[|pre| - 1] == '\n'
    requires post == "" || post[0] == '\n'
    ensures StripBareLines(pre + "```" + post) == pre + post
  {
    var s := pre + "```" + post;
    var i := |pre|;
    assert forall k :: 0 <= k < i ==> s[k] == pre[k];
    assert forall k :: i + 3 <= k < |s| ==> s[k] == post[k - i - 3];
    assert MarkerAt(s, i);
    assert BareLineAt(s, i) == 3;
    ScanSingleMatch(s, i, BareLineAt);
    assert s[..i] == pre;
    assert s[i + 3..] == post;
  }

  /** A whole answer wrapped in one fenced block, as a model asked for a
      bare command produces it, comes out of `clean_response` as its body. */
  lemma CleanResponseUnwraps(tag: string, body: string)
    requires forall k :: 0 <= k < |tag| ==> IsWordChar(tag[k])
    requires !ContainsMarker(body)
    ensures CleanResponse("```" + tag + "\n" + body + "\n```") == body
  {
    var s := "```" + tag + "\n" + body + "\n```";
    var n := |tag| + 4;
    assert s[..n] == "```" + tag + "\n";
    assert IsOpeningLine(s[..n]);
    LeadingFenceOnlyAtStart(s);
    var a := s[n..];
    assert a == body + "\n```";
    assert EndsWith(a, "\n```");
    TrailingFenceOnlyAtEnd(a);
    assert a[..|a| - 4] == body;
    MarkerFreeUnchanged(body, BareLineAt);
  }

  /** Inline backticks in the body survive the unwrapping. */
  lemma InlineBackticksExample()
    ensures CleanResponse("```" + "bash" + "\n" + "echo `date`" + "\n```") == "echo `date`"
  {
    assert forall i: nat :: !MarkerAt("echo `date`", i);
    assert forall k :: 0 <= k < |"bash"| ==> IsWordChar("bash"[k]);
    CleanResponseUnwraps("bash", "echo `date`");
  }

  lemma ShellCommandExample()
    ensures CleanResponse("```" + "bash" + "\n" + "ls -la" + "\n```") == "ls -la"
  {
    NoBacktickOf("ls -la");
    assert forall k :: 0 <= k < |"bash"| ==> IsWordChar("bash"[k]);
    CleanResponseUnwraps("bash", "ls -la");
  }
}
