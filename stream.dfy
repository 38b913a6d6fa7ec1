/** The two output loops of `ShellOiva.process_query`. The upstream
    completion stream is the input: one string per chunk, the empty string
    standing for a chunk whose delta carries no content. Each
    `print(.., end="")` becomes one element appended to the output, and the
    closing `print()` the element "\n". */
module Stream {
  import opened Text
  import opened Fences

  /** The clean-output loop's three locals: `buffer`, `buffering`, `newline_count`. */
  datatype Filter = Filter(buffer: string, buffering: bool, newlineCount: nat)

  /** The locals as the loop starts, and after every flush. */
  const Idle: Filter := Filter("", false, 0)

  /** The filter's state after some chunks, and everything printed so far. */
  datatype Progress = Progress(filter: Filter, printed: seq<string>)

  const NewlineLimit := 2
  const LengthLimit := 500
  const MarkerLimit := 2

  /** The flush condition, as the loop evaluates it on its locals. When
      `newline_count` is the buffer's newline count, it is the condition on
      the buffer's text, and its `"```" in buffer` conjunct is redundant. */
  function ShouldFlush(buffer: string, newlineCount: nat): (r: bool)
    ensures newlineCount == CountNewlines(buffer) ==> (r <==> FlushDue(buffer))
  {
    CountMarkerPositive(buffer);
    newlineCount >= NewlineLimit || |buffer| > LengthLimit ||
    (ContainsMarker(buffer) && CountMarker(buffer) >= MarkerLimit)
  }

  /** The flush condition, stated on the buffer's text alone. */
  predicate FlushDue(buffer: string) {
    CountNewlines(buffer) >= NewlineLimit || |buffer| > LengthLimit || CountMarker(buffer) >= MarkerLimit
  }

  /** One iteration of the clean-output loop: it prints at most once, and
      never a marker. */
  function Step(f: Filter, content: string): (p: Progress)
    ensures |p.printed| <= 1
    ensures forall k :: 0 <= k < |p.printed| ==> !ContainsMarker(p.printed[k])
  {
    if content == "" then Progress(f, [])
    else if ContainsMarker(content) || f.buffering then
      var buffer := f.buffer + content;
      var count := f.newlineCount + CountNewlines(content);
      if ShouldFlush(buffer, count) then Progress(Idle, [CleanCodeBlocks(buffer)])
      else Progress(Filter(buffer, true, count), [])
    else Progress(f, [content])
  }

  /** The clean-output loop over a whole stream, chunk by chunk in arrival order. */
  function Run(stream: seq<string>): (p: Progress)
    ensures |p.printed| <= |stream|
    ensures forall k :: 0 <= k < |p.printed| ==> !ContainsMarker(p.printed[k])
  {
    if stream == [] then Progress(Idle, [])
    else
      var before := Run(stream[..|stream| - 1]);
      var step := Step(before.filter, stream[|stream| - 1]);
      Progress(step.filter, before.printed + step.printed)
  }

  /** What the clean-output path prints after the loop: the cleaned leftover
      buffer, if any, then the final newline. */
  function Drain(f: Filter): (out: seq<string>)
    ensures 1 <= |out| <= 2 && out[|out| - 1] == "\n"
    ensures forall k :: 0 <= k < |out| ==> !ContainsMarker(out[k])
  {
    assert !ContainsMarker("\n");
    (if f.buffer != "" then [CleanCodeBlocks(f.buffer)] else []) + ["\n"]
  }

  /** Everything the clean-output path prints. It ends with the newline, and
      no single print call writes a marker. */
  function CleanOutput(stream: seq<string>): (out: seq<string>)
    ensures |out| > 0 && out[|out| - 1] == "\n"
    ensures forall k :: 0 <= k < |out| ==> !ContainsMarker(out[k])
  {
    var p := Run(stream);
    p.printed + Drain(p.filter)
  }

  /** The chunks that carry content, in arrival order. */
  function NonEmpty(stream: seq<string>): (kept: seq<string>)
    ensures |kept| <= |stream|
    ensures forall k :: 0 <= k < |kept| ==> kept[k] != ""
  {
    if stream == [] then []
    else NonEmpty(stream[..|stream| - 1]) + (if stream[|stream| - 1] != "" then [stream[|stream| - 1]] else [])
  }

  function RawOutput(stream: seq<string>): (out: seq<string>)
    ensures |out| > 0 && out[|out| - 1] == "\n"
  {
    NonEmpty(stream) + ["\n"]
  }

  /** The raw-output loop. */
  method RawStream(stream: seq<string>) returns (out: seq<string>)
    ensures out == RawOutput(stream)
  {
    out := [];
    for i := 0 to |stream|
      invariant out == NonEmpty(stream[..i])
    {
      assert stream[..i + 1][..i] == stream[..i];
      if stream[i] != "" {
        out := out + [stream[i]];
      }
    }
    assert stream[..|stream|] == stream;
    out := out + ["\n"];
  }

  /** The clean-output loop and what follows it. */
  method CleanStream(stream: seq<string>) returns (out: seq<string>)
    ensures out == CleanOutput(stream)
    ensures |out| > 0 && out[|out| - 1] == "\n"
  {
    var buffer := "";
    var buffering := false;
    var newlineCount: nat := 0;
    out := [];
    for i := 0 to |stream|
      invariant Run(stream[..i]) == Progress(Filter(buffer, buffering, newlineCount), out)
    {
      assert stream[..i + 1] == stream[..i] + [stream[i]];
      var content := stream[i];
      ghost var step := Step(Filter(buffer, buffering, newlineCount), content);
      RunThen(stream[..i], content, Filter(buffer, buffering, newlineCount), out, step.filter, step.printed);
      if content == "" {
        assert out + [] == out;
        continue;
      }
      if ContainsMarker(content) || buffering {
        buffering := true;
        buffer := buffer + content;
        newlineCount := newlineCount + CountNewlines(content);
        if ShouldFlush(buffer, newlineCount) {
          var cleaned := CleanCodeBlocks(buffer);
          out := out + [cleaned];
          buffer := "";
          buffering := false;
          newlineCount := 0;
        }
      } else {
        out := out + [content];
      }
    }
    assert stream[..|stream|] == stream;
    if buffer != "" {
      var cleaned := CleanCodeBlocks(buffer);
      out := out + [cleaned];
    }
    out := out + ["\n"];
  }

  /** `process_query` after the completion call, which is the stream. */
  method ProcessQuery(cleanOutput: bool, stream: seq<string>) returns (out: seq<string>)
    ensures out == if cleanOutput then CleanOutput(stream) else RawOutput(stream)
  {
    if !cleanOutput {
      out := RawStream(stream);
      return;
    }
    out := CleanStream(stream);
  }

  lemma {:induction false} NonEmptyConcat(stream: seq<string>)
    ensures Concat(NonEmpty(stream)) == Concat(stream)
  {
    if stream != [] {
      var init, last := stream[..|stream| - 1], stream[|stream| - 1];
      NonEmptyConcat(init);
      if last != "" {
        ConcatAppend(NonEmpty(init), last);
      } else {
        assert NonEmpty(stream) == NonEmpty(init);
      }
    }
  }

  /** Raw mode prints exactly the chunks' text, then one newline. */
  lemma RawOutputIdentity(stream: seq<string>)
    ensures Concat(RawOutput(stream)) == Concat(stream) + "\n"
    ensures forall k :: 0 <= k < |RawOutput(stream)| - 1 ==> RawOutput(stream)[k] != ""
    ensures RawOutput(stream)[|RawOutput(stream)| - 1] == "\n"
  {
    NonEmptyConcat(stream);
    ConcatAppend(NonEmpty(stream), "\n");
  }

  /** Chunks without content change neither the filter nor the output. */
  lemma {:induction false} EmptyChunksIgnored(stream: seq<string>)
    ensures Run(NonEmpty(stream)) == Run(stream)
    ensures CleanOutput(NonEmpty(stream)) == CleanOutput(stream)
  {
    if stream != [] {
      var init, last := stream[..|stream| - 1], stream[|stream| - 1];
      EmptyChunksIgnored(init);
      if last == "" {
        assert NonEmpty(stream) == NonEmpty(init);
        assert Run(stream).printed == Run(init).printed + [];
      } else {
        assert (NonEmpty(init) + [last])[..|NonEmpty(init)|] == NonEmpty(init);
      }
    }
  }

  /** The loop's invariant: `buffering` holds exactly when the buffer is
      non-empty, `newline_count` counts the buffer's newlines, and a pending
      buffer holds a marker and meets no flush condition. */
  predicate Consistent(f: Filter) {
    (f.buffering <==> f.buffer != "") &&
    f.newlineCount == CountNewlines(f.buffer) &&
    (f.buffering ==> ContainsMarker(f.buffer) && !FlushDue(f.buffer))
  }

  /** A chunk appended to the buffer triggers a flush exactly when the new
      buffer spans two newlines, exceeds 500 characters, or holds two markers;
      a flush prints the cleaned buffer and resets the locals. */
  lemma StepBuffers(f: Filter, content: string)
    requires Consistent(f) && content != "" && (ContainsMarker(content) || f.buffering)
    ensures var buffer := f.buffer + content;
      Step(f, content) ==
        if FlushDue(buffer) then Progress(Idle, [CleanCodeBlocks(buffer)])
        else Progress(Filter(buffer, true, CountNewlines(buffer)), [])
  {
  }

  /** While not buffering, a chunk without a marker is printed at once,
      whatever its length, and the locals are untouched. */
  lemma StepFastPath(f: Filter, content: string)
    requires Consistent(f) && !f.buffering && content != "" && !ContainsMarker(content)
    ensures f == Idle && Step(f, content) == Progress(Idle, [content])
  {
  }

  lemma StepConsistent(f: Filter, content: string)
    requires Consistent(f)
    ensures Consistent(Step(f, content).filter)
  {
    if content != "" && (ContainsMarker(content) || f.buffering) {
      StepBuffers(f, content);
      if ContainsMarker(content) {
        ContainsMarkerPrepend(f.buffer, content);
      } else {
        ContainsMarkerAppend(f.buffer, content);
      }
    }
  }

  lemma {:induction false} RunConsistent(stream: seq<string>)
    ensures Consistent(Run(stream).filter)
  {
    if stream != [] {
      RunConsistent(stream[..|stream| - 1]);
      StepConsistent(Run(stream[..|stream| - 1]).filter, stream[|stream| - 1]);
    }
  }

  /** When no single chunk contains a marker, clean mode never buffers and
      prints the same as raw mode, even if a marker is split across chunks. */
  lemma {:induction false} MarkerFreeChunksPassThrough(stream: seq<string>)
    requires forall k :: 0 <= k < |stream| ==> !ContainsMarker(stream[k])
    ensures Run(stream) == Progress(Idle, NonEmpty(stream))
    ensures CleanOutput(stream) == RawOutput(stream)
  {
    if stream != [] {
      MarkerFreeChunksPassThrough(stream[..|stream| - 1]);
    }
  }

  /** Hence clean output as a whole can contain a marker. */
  lemma SplitMarkerReachesOutput()
    ensures CleanOutput(["``", "`"]) == ["``", "`", "\n"]
    ensures ContainsMarker(Concat(CleanOutput(["``", "`"])))
  {
    var stream := ["``", "`"];
    assert !ContainsMarker(stream[0]) && !ContainsMarker(stream[1]);
    MarkerFreeChunksPassThrough(stream);
    assert stream[..1] == ["``"];
    assert Concat(["``", "`", "\n"]) == "```\n" by {
      assert ["``", "`", "\n"][..2] == ["``", "`"];
      assert ["``", "`"][..1] == ["``"];
    }
    assert MarkerAt("```\n", 0);
  }

  /** Printing the cleaned buffer instead of keeping it pending only deletes. */
  lemma FlushDeletesOnly(printed: seq<string>, full: string, input: string)
    requires IsSubseq(Concat(printed) + full, input)
    ensures IsSubseq(Concat(printed) + CleanCodeBlocks(full), input)
  {
    var text, cleaned := Concat(printed), CleanCodeBlocks(full);
    SubseqRefl(text);
    SubseqConcat(text, text, cleaned, full);
    SubseqTrans(text + cleaned, text + full, input);
  }

  /** After one chunk, the printed text followed by the pending buffer is
      the text before it followed by the old buffer and the chunk, cleaned
      when the chunk triggered a flush. */
  lemma StepText(f: Filter, printed: seq<string>, content: string)
    requires Consistent(f)
    ensures var step := Step(f, content); var full := f.buffer + content;
      Concat(printed + step.printed) + step.filter.buffer ==
        Concat(printed) + (if content != "" && (ContainsMarker(content) || f.buffering) && FlushDue(full)
                           then CleanCodeBlocks(full) else full)
  {
    var step := Step(f, content);
    var full := f.buffer + content;
    if content == "" {
      assert printed + [] == printed && full == f.buffer;
    } else if ContainsMarker(content) || f.buffering {
      StepBuffers(f, content);
      if FlushDue(full) {
        ConcatAppend(printed, CleanCodeBlocks(full));
      } else {
        assert printed + [] == printed;
      }
    } else {
      assert f.buffer == "" && full == content;
      ConcatAppend(printed, content);
    }
  }

  /** One chunk keeps "printed text + pending buffer" a subsequence of the input. */
  lemma StepDeletesOnly(p: Progress, input: string, content: string)
    requires Consistent(p.filter)
    requires IsSubseq(Concat(p.printed) + p.filter.buffer, input)
    ensures var step := Step(p.filter, content);
      IsSubseq(Concat(p.printed + step.printed) + step.filter.buffer, input + content)
  {
    var printed, full := Concat(p.printed), p.filter.buffer + content;
    SubseqRefl(content);
    SubseqConcat(printed + p.filter.buffer, input, content, content);
    assert printed + p.filter.buffer + content == printed + full;
    StepText(p.filter, p.printed, content);
    if content != "" && (ContainsMarker(content) || p.filter.buffering) && FlushDue(full) {
      FlushDeletesOnly(p.printed, full, input + content);
    }
  }

  /** The text printed so far followed by the pending buffer is obtained from
      the chunks' text by deleting characters. */
  lemma {:induction false} RunDeletesOnly(stream: seq<string>)
    ensures IsSubseq(Concat(Run(stream).printed) + Run(stream).filter.buffer, Concat(stream))
  {
    if stream == [] {
      assert Concat(Run(stream).printed) + Run(stream).filter.buffer == "";
    } else {
      var init, last := stream[..|stream| - 1], stream[|stream| - 1];
      RunDeletesOnly(init);
      RunConsistent(init);
      StepDeletesOnly(Run(init), Concat(init), last);
    }
  }

  /** The post-loop flush only deletes: what is printed by then, with the
      leftover buffer cleaned, is a subsequence of the input. */
  lemma LeftoverDeletesOnly(printed: seq<string>, buffer: string, input: string)
    requires IsSubseq(Concat(printed) + buffer, input)
    ensures IsSubseq(Concat(printed + (if buffer != "" then [CleanCodeBlocks(buffer)] else [])), input)
  {
    if buffer != "" {
      FlushDeletesOnly(printed, buffer, input);
      ConcatAppend(printed, CleanCodeBlocks(buffer));
    } else {
      assert printed + [] == printed;
      assert Concat(printed) + buffer == Concat(printed);
    }
  }

  /** Clean mode only deletes: its whole output is obtained from the chunks'
      text, followed by the final newline, by deleting characters. */
  lemma CleanOutputDeletesOnly(stream: seq<string>)
    ensures IsSubseq(Concat(CleanOutput(stream)), Concat(stream) + "\n")
  {
    var p := Run(stream);
    var input := Concat(stream);
    var flushed := p.printed + (if p.filter.buffer != "" then [CleanCodeBlocks(p.filter.buffer)] else []);
    assert IsSubseq(Concat(flushed), input) by {
      RunDeletesOnly(stream);
      LeftoverDeletesOnly(p.printed, p.filter.buffer, input);
    }
    assert CleanOutput(stream) == flushed + ["\n"];
    ConcatAppend(flushed, "\n");
    SubseqRefl("\n");
    SubseqConcat(Concat(flushed), input, "\n", "\n");
  }

  /** One more chunk is one more step from the state the earlier chunks left. */
  lemma RunThen(before: seq<string>, content: string, f: Filter, printed: seq<string>, g: Filter, out: seq<string>)
    requires Run(before) == Progress(f, printed)
    requires Step(f, content) == Progress(g, out)
    ensures Run(before + [content]) == Progress(g, printed + out)
  {
    assert (before + [content])[..|before|] == before;
  }

  /** A single line: the text ends with its only newline. */
  predicate IsOneLine(line: string) {
    line != "" && line[|line| - 1] == '\n' && '\n' !in line[..|line| - 1]
  }

  lemma OneLineNewlines(line: string)
    requires IsOneLine(line)
    ensures CountNewlines(line) == 1
  {
    var body := line[..|line| - 1];
    assert line == body + "\n";
    assert CountNewlines("\n") == 1;
  }

  /** The chunks of a fenced block as a model streams it: some prose, the
      opening fence line with a language tag, one line of code, the closing
      fence line, and a last line of prose. */
  predicate FencedBlockChunks(prose: string, tag: string, code: string, tail: string) {
    prose != "" && '`' !in prose &&
    |tag| <= 496 && (forall k :: 0 <= k < |tag| ==> IsWordChar(tag[k])) &&
    '`' !in code && IsOneLine(code) &&
    tail != "" && '`' !in tail && '\n' !in tail && |tail| <= 496
  }

  /** An opening fence line holds one marker and one newline. */
  lemma OpeningLineCounts(tag: string)
    requires forall k :: 0 <= k < |tag| ==> IsWordChar(tag[k])
    ensures var open := "```" + tag + "\n";
      ContainsMarker(open) && CountNewlines(open) == 1 && CountMarker(open) == 1
  {
    var open := "```" + tag + "\n";
    var rest := tag + "\n";
    assert open == "```" + rest;
    assert MarkerAt(open, 0) && open[3..] == rest;
    assert forall k :: 0 <= k < |tag| ==> tag[k] != '\n';
    assert '\n' !in tag;
    assert CountNewlines("```") == 0;
    assert CountNewlines("\n") == 1;
    assert NoBacktick(rest) by {
      forall k | 0 <= k < |rest| ensures rest[k] != '`' {
        if k < |tag| {
          assert rest[k] == tag[k];
        }
      }
    }
    NoBacktickNoMarker(rest);
  }

  /** A buffer holding just an opening fence line is a consistent pending state. */
  lemma OpeningLinePending(tag: string)
    requires |tag| <= 496 && forall k :: 0 <= k < |tag| ==> IsWordChar(tag[k])
    ensures var open := "```" + tag + "\n";
      Consistent(Filter(open, true, 1)) && !FlushDue(open)
  {
    OpeningLineCounts(tag);
  }

  lemma OpeningChunkBuffers(tag: string)
    requires |tag| <= 496 && forall k :: 0 <= k < |tag| ==> IsWordChar(tag[k])
    ensures var open := "```" + tag + "\n";
      Step(Idle, open) == Progress(Filter(open, true, 1), [])
  {
    var open := "```" + tag + "\n";
    OpeningLineCounts(tag);
    OpeningLinePending(tag);
    StepBuffers(Idle, open);
    assert Idle.buffer + open == open;
  }

  /** Code after an opening fence line: two newlines, and the fence cleaned away. */
  lemma OpenedCodeBuffer(tag: string, code: string)
    requires forall k :: 0 <= k < |tag| ==> IsWordChar(tag[k])
    requires '`' !in code && IsOneLine(code)
    ensures var buffer := "```" + tag + "\n" + code;
      FlushDue(buffer) && CleanCodeBlocks(buffer) == code
  {
    var open := "```" + tag + "\n";
    OpeningLineCounts(tag);
    OneLineNewlines(code);
    assert multiset(open + code) == multiset(open) + multiset(code);
    CleanOpenedCode(tag, code);
  }

  lemma CodeChunkFlushes(tag: string, code: string)
    requires |tag| <= 496 && forall k :: 0 <= k < |tag| ==> IsWordChar(tag[k])
    requires '`' !in code && IsOneLine(code)
    ensures var open := "```" + tag + "\n";
      Step(Filter(open, true, 1), code) == Progress(Idle, [code])
  {
    OpeningLinePending(tag);
    OpenedCodeBuffer(tag, code);
    StepBuffers(Filter("```" + tag + "\n", true, 1), code);
  }

  /** A closing fence line followed by a line of prose: one newline, one
      marker, and the fence cleaned away. */
  lemma ClosedTailBuffer(tail: string)
    requires '`' !in tail && '\n' !in tail && |tail| <= 496
    ensures var buffer := "```\n" + tail;
      ContainsMarker(buffer) && CountNewlines(buffer) == 1 && !FlushDue(buffer) &&
      CleanCodeBlocks(buffer) == tail
  {
    var buffer := "```\n" + tail;
    assert '\n' !in multiset(tail);
    assert multiset(buffer) == multiset("```\n") + multiset(tail);
    NewlineThenNoBacktick(tail);
    assert buffer == "```" + ("\n" + tail);
    assert MarkerAt(buffer, 0) && buffer[3..] == "\n" + tail;
    NoBacktickNoMarker("\n" + tail);
    assert CountMarker(buffer) == 1;
    CleanOpenedCode("", tail);
    assert "```" + "" + "\n" + tail == buffer;
  }

  lemma TailChunkBuffers(tail: string)
    requires tail != "" && '`' !in tail && '\n' !in tail && |tail| <= 496
    ensures Step(Filter("```\n", true, 1), tail) == Progress(Filter("```\n" + tail, true, 1), [])
    ensures Drain(Filter("```\n" + tail, true, 1)) == [tail, "\n"]
  {
    OpeningLinePending("");
    assert "```" + "" + "\n" == "```\n";
    ClosedTailBuffer(tail);
    StepBuffers(Filter("```\n", true, 1), tail);
  }

  lemma FencedBlockRunProse(prose: string)
    requires prose != "" && '`' !in prose
    ensures Run([prose]) == Progress(Idle, [prose])
  {
    NoBacktickOf(prose);
    NoBacktickNoMarker(prose);
    StepFastPath(Idle, prose);
    RunThen([], prose, Idle, [], Idle, [prose]);
    assert [] + [prose] == [prose];
  }

  lemma FencedBlockRunOpen(prose: string, tag: string)
    requires prose != "" && '`' !in prose
    requires |tag| <= 496 && forall k :: 0 <= k < |tag| ==> IsWordChar(tag[k])
    ensures Run([prose] + ["```" + tag + "\n"]) == Progress(Filter("```" + tag + "\n", true, 1), [prose])
  {
    var open := "```" + tag + "\n";
    FencedBlockRunProse(prose);
    OpeningChunkBuffers(tag);
    RunThen([prose], open, Idle, [prose], Filter(open, true, 1), []);
    assert [prose] + [] == [prose];
  }

  lemma FencedBlockRunCode(prose: string, tag: string, code: string)
    requires prose != "" && '`' !in prose
    requires |tag| <= 496 && forall k :: 0 <= k < |tag| ==> IsWordChar(tag[k])
    requires '`' !in code && IsOneLine(code)
    ensures Run([prose] + ["```" + tag + "\n"] + [code]) == Progress(Idle, [prose] + [code])
  {
    var open := "```" + tag + "\n";
    FencedBlockRunOpen(prose, tag);
    CodeChunkFlushes(tag, code);
    RunThen([prose] + [open], code, Filter(open, true, 1), [prose], Idle, [code]);
  }

  lemma ClosingStepAfter(before: seq<string>, printed: seq<string>)
    requires Run(before) == Progress(Idle, printed)
    ensures Run(before + ["```\n"]) == Progress(Filter("```\n", true, 1), printed)
  {
    OpeningChunkBuffers("");
    assert "```" + "" + "\n" == "```\n";
    RunThen(before, "```\n", Idle, printed, Filter("```\n", true, 1), []);
    assert printed + [] == printed;
  }

  lemma TailStepAfter(before: seq<string>, printed: seq<string>, tail: string)
    requires Run(before) == Progress(Filter("```\n", true, 1), printed)
    requires tail != "" && '`' !in tail && '\n' !in tail && |tail| <= 496
    ensures Run(before + [tail]) == Progress(Filter("```\n" + tail, true, 1), printed)
  {
    TailChunkBuffers(tail);
    RunThen(before, tail, Filter("```\n", true, 1), printed, Filter("```\n" + tail, true, 1), []);
    assert printed + [] == printed;
  }

  lemma FencedBlockRunClose(prose: string, tag: string, code: string)
    requires prose != "" && '`' !in prose
    requires |tag| <= 496 && forall k :: 0 <= k < |tag| ==> IsWordChar(tag[k])
    requires '`' !in code && IsOneLine(code)
    ensures Run([prose] + ["```" + tag + "\n"] + [code] + ["```\n"])
         == Progress(Filter("```\n", true, 1), [prose] + [code])
  {
    FencedBlockRunCode(prose, tag, code);
    ClosingStepAfter([prose] + ["```" + tag + "\n"] + [code], [prose] + [code]);
  }

  lemma FencedBlockRun(prose: string, tag: string, code: string, tail: string)
    requires FencedBlockChunks(prose, tag, code, tail)
    ensures Run([prose, "```" + tag + "\n", code, "```\n", tail])
         == Progress(Filter("```\n" + tail, true, 1), [prose] + [code])
  {
    var upToClose := [prose] + ["```" + tag + "\n"] + [code] + ["```\n"];
    assert upToClose + [tail] == [prose, "```" + tag + "\n", code, "```\n", tail];
    FencedBlockRunClose(prose, tag, code);
    TailStepAfter(upToClose, [prose] + [code], tail);
  }

  /** Four printed pieces put their texts on the terminal one after another. */
  lemma ConcatFour(a: string, b: string, c: string, d: string)
    ensures Concat([a, b, c, d]) == a + b + c + d
  {
    ConcatAppend([], a);
    assert [] + [a] == [a];
    ConcatAppend([a], b);
    assert [a] + [b] == [a, b];
    ConcatAppend([a, b], c);
    assert [a, b] + [c] == [a, b, c];
    ConcatAppend([a, b, c], d);
    assert [a, b, c] + [d] == [a, b, c, d];
  }

  /** A fenced block streamed chunk by chunk: the fence lines disappear, and
      the prose, the code line and the last line are printed unchanged,
      followed by the final newline. */
  lemma FencedBlockStreamed(prose: string, tag: string, code: string, tail: string)
    requires FencedBlockChunks(prose, tag, code, tail)
    ensures CleanOutput([prose, "```" + tag + "\n", code, "```\n", tail]) == [prose, code, tail, "\n"]
    ensures Concat(CleanOutput([prose, "```" + tag + "\n", code, "```\n", tail])) == prose + code + tail + "\n"
  {
    var stream := [prose, "```" + tag + "\n", code, "```\n", tail];
    assert CleanOutput(stream) == [prose] + [code] + [tail, "\n"] by {
      FencedBlockRun(prose, tag, code, tail);
      TailChunkBuffers(tail);
    }
    assert [prose] + [code] + [tail, "\n"] == [prose, code, tail, "\n"];
    ConcatFour(prose, code, tail, "\n");
  }

  /** The example of a fenced Python line between two pieces of prose: the
      terminal shows "Sure, print(1)\nDone.\n". */
  lemma FencedBlockScenario()
    ensures CleanOutput(["Sure, ", "```" + "python" + "\n", "print(1)\n", "```\n", "Done."])
         == ["Sure, ", "print(1)\n", "Done.", "\n"]
    ensures Concat(CleanOutput(["Sure, ", "```" + "python" + "\n", "print(1)\n", "```\n", "Done."]))
         == "Sure, " + "print(1)\n" + "Done." + "\n"
  {
    ScenarioChunks();
    FencedBlockStreamed("Sure, ", "python", "print(1)\n", "Done.");
  }

  lemma ScenarioChunks()
    ensures FencedBlockChunks("Sure, ", "python", "print(1)\n", "Done.")
  {
    assert forall k :: 0 <= k < |"python"| ==> IsWordChar("python"[k]);
  }
}
