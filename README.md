# shell-oiva: fence stripping and the streaming output filter

shell-oiva (`oiva.py`) sends a question to a chat-completion API and streams
the answer to the terminal. This project models what it does with that
answer:

- **raw mode**: every content delta is printed as it arrives, then one
  newline;
- **clean mode**: while nothing is buffered, deltas without a
  three-backtick marker ("```") are printed at once; a delta that has one
  starts a buffer, and every later delta joins it until a flush. The buffer
  is flushed through `_clean_code_blocks` once it spans two newlines, exceeds
  500 characters, or holds two markers. Whatever is left at the end is
  flushed the same way, then the final newline is printed;
- **`_clean_code_blocks`**: three regular-expression deletions;
- **`clean_response`**: three regular-expression deletions that unwrap a
  fenced answer.

Modules:

- `Text` (`text.dfy`): the marker, marker and newline counting, `\w`, and
  concatenation of printed pieces. It also has the subsequence relation
  used to say "only deletes".
- `Substitution` (`substitution.dfy`): Python's `re.sub(p, '', s)` for
  patterns that never match the empty string. It is a leftmost,
  non-overlapping scan driven by a matcher function. The matcher sees the
  whole original string, so `^` and `$` are decided exactly as Python
  decides them.
- `Fences` (`fences.dfy`): one matcher per pattern of lines 68, 70, 72 and
  143, 145, 147, and the two transforms built from them.
- `Stream` (`stream.dfy`): the two loops of `process_query`. Each is an
  imperative method over the sequence of deltas, proved equal to a
  chunk-by-chunk specification function.

The stream is a sequence of strings, one per chunk; "" stands for a chunk
whose delta has no content. Output is the sequence of strings handed to
`print`, one element per call; the closing `print()` is "\n".

Facts the proofs establish about the code as written:

- Step 1 of `_clean_code_blocks` (line 143) removes every marker. Removing
  its matches never brings three backticks back together. So steps 2 and 3
  (lines 145 and 147) never match anything. The transform equals step 1
  alone, leaves no marker, and is idempotent.
- The docstring of `_clean_code_blocks` (oiva.py:141) says it removes the
  code-block markers and keeps the actual content.
  For an unpaired marker the code also deletes the word and the blanks
  straight after it:
  "Some ```text that never closes" becomes "Some that never closes". The
  model follows the code (`Fences.UnpairedMarkerExample`).
- The comment opening the clean-output loop (oiva.py:97) says content is
  held back only while a code block is met, so that its markers can be
  cleaned; the evident aim is that clean output shows no marker.
  That holds for each single print call (`Stream.CleanOutput`).
  It does not hold for the terminal text as a whole: a marker split over two
  chunks, such as "``" followed by "`", is never buffered and reaches the
  terminal intact (`Stream.SplitMarkerReachesOutput`). The model follows the
  code.
- A fence pair can be split over two flushes: the newline and length tests
  can flush a buffer before its closing marker arrives, and each flush is
  cleaned on its own. The model keeps this behaviour of the code; since a
  flush removes every marker it sees, no marker of either half is printed
  (`Stream.CleanOutput`).

## Model

| member | source | states |
|---|---|---|
| `Stream.RawStream` | oiva.py:88-95 | prints every non-empty delta in arrival order, then the final newline |
| `Stream.NonEmptyConcat` | oiva.py:89-92 | skipping empty deltas does not change the printed text |
| `Stream.NonEmpty` | oiva.py:89-92 | the deltas kept by `if delta.content` are non-empty and no more than the stream holds |
| `Stream.RawOutput` | oiva.py:88-95 | raw mode's output ends with the "\n" of the closing `print()` |
| `Stream.RawOutputIdentity` | oiva.py:88-95 | raw output, joined, is exactly the stream's text followed by "\n"; every piece before the last is non-empty and the last is "\n" |
| `Stream.CleanStream` | oiva.py:97-138 | the loop with its three locals, the empty-delta `continue`, the flush test and reset, and the post-loop flush produce exactly the chunk-by-chunk specification; the last thing printed is "\n" |
| `Stream.ProcessQuery` | oiva.py:87-138 | `clean_output` selects between the clean and the raw output |
| `Stream.ShouldFlush` | oiva.py:119 | when `newline_count` counts the buffer's newlines, the test holds exactly when the buffer spans two newlines, exceeds 500 characters or holds two markers; the `"```" in buffer` conjunct adds nothing |
| `Stream.Step` | oiva.py:103-130 | one iteration prints at most once, and what it prints holds no marker |
| `Stream.Run` | oiva.py:102-130 | the loop prints at most once per delta, and no print call inside it writes a marker |
| `Stream.Drain` | oiva.py:133-138 | after the loop, at most the cleaned leftover buffer and then "\n" are printed, and neither holds a marker |
| `Stream.CleanOutput` | oiva.py:97-138 | the clean path's output ends with "\n", and no print call of it writes a marker, the post-loop flush included |
| `Stream.EmptyChunksIgnored` | oiva.py:103-105 | deltas without content change neither the filter's state nor anything printed |
| `Stream.StepFastPath` | oiva.py:110-130 | while not buffering, a delta with no marker is printed at once and the state stays idle |
| `Text.CountMarkerPositive` | oiva.py:119 | `buffer.count("```") >= 1` holds exactly when `"```" in buffer` |
| `Text.ContainsMarker` | oiva.py:110 | `"```" in s` holds exactly when a marker starts at some index of s |
| `Text.CountMarker` | oiva.py:119 | `s.count("```")` scans left to right and resumes after each marker, so three times the count is at most the length (the thresholds 1 and 2 are pinned down by `CountMarkerPositive` and `CountMarkerTwo`) |
| `Text.CountMarkerTwo` | oiva.py:119 | `buffer.count("```") >= 2` holds exactly when two markers start at least three characters apart, i.e. two non-overlapping markers |
| `Text.CountMarkerExamples` | oiva.py:119 | four and five backticks count as one marker, six as two |
| `Text.CountNewlines` | oiva.py:116 | `content.count('\n')` is the number of newline characters in the text |
| `Stream.StepBuffers` | oiva.py:110-127 | a delta that is buffered flushes exactly when the new buffer has two newlines, more than 500 characters or two markers; a flush prints the cleaned buffer and resets the locals, otherwise the buffer grows |
| `Stream.StepConsistent` | oiva.py:110-130 | one delta preserves the invariant: buffering iff the buffer is non-empty, `newline_count` counts its newlines, and a pending buffer holds a marker and meets no flush condition |
| `Stream.RunConsistent` | oiva.py:98-130 | the invariant holds after any prefix of the stream |
| `Stream.MarkerFreeChunksPassThrough` | oiva.py:110-130 | when no single delta contains a marker, clean mode never buffers and its output equals raw mode's |
| `Stream.SplitMarkerReachesOutput` | oiva.py:110 | the deltas "``" and "`" pass through unbuffered, and the terminal text contains a marker |
| `Stream.FlushDeletesOnly` | oiva.py:119-122 | a flush replaces the pending buffer with its cleaned text, which only deletes |
| `Stream.StepText` | oiva.py:103-130 | after one delta, printed text plus the pending buffer is the earlier text plus the old buffer and the delta, passed through `_clean_code_blocks` exactly when the delta triggered a flush |
| `Stream.LeftoverDeletesOnly` | oiva.py:133-135 | flushing the leftover buffer after the loop keeps the printed text a subsequence of the input |
| `Stream.StepDeletesOnly` | oiva.py:110-130 | one delta keeps "text printed so far + pending buffer" a subsequence of the stream's text |
| `Stream.RunDeletesOnly` | oiva.py:102-130 | after any prefix, printed text plus the pending buffer is obtained from the stream's text by deleting characters |
| `Stream.CleanOutputDeletesOnly` | oiva.py:97-138 | the whole clean output only deletes: it is a subsequence of the stream's text followed by "\n" |
| `Stream.RunThen` | oiva.py:102-130 | one more delta is one more loop iteration from the locals and output the earlier deltas left |
| `Stream.OpeningLinePending` | oiva.py:110-119 | a buffer holding only an opening fence line is a consistent pending state that meets no flush condition |
| `Stream.OpenedCodeBuffer` | oiva.py:116-122 | an opening fence line followed by one code line meets the two-newline flush condition, and `_clean_code_blocks` leaves only the code |
| `Stream.ClosedTailBuffer` | oiva.py:116-122 | a closing fence line followed by a line of prose holds one marker and one newline, meets no flush condition, and cleans to the prose |
| `Stream.OpeningLineCounts` | oiva.py:116-119 | an opening fence line holds one marker and one newline |
| `Stream.OpeningChunkBuffers` | oiva.py:110-119 | a delta "```tag\n" on an idle filter is buffered, with one newline and one marker counted |
| `Stream.CodeChunkFlushes` | oiva.py:116-127 | a one-line code delta after a buffered opening fence reaches two newlines; the flush prints the code without the fence |
| `Stream.ClosingStepAfter` | oiva.py:110-119 | a closing-fence delta "```\n" arriving while idle is buffered, with nothing printed |
| `Stream.TailStepAfter` | oiva.py:110-127 | a line of prose after a pending closing fence joins the buffer without a flush |
| `Stream.FencedBlockRun` | oiva.py:102-130 | after the five chunks of a fenced block, prose and code have been printed and the closing fence with the last line is pending |
| `Stream.TailChunkBuffers` | oiva.py:110-135 | a last line of prose after a buffered closing fence stays in the buffer; the post-loop flush prints it without the fence, then "\n" |
| `Stream.FencedBlockStreamed` | oiva.py:102-138 | prose, an opening fence line, one code line, a closing fence line and a last line are printed as prose, code, last line, "\n": both fence lines vanish |
| `Stream.FencedBlockScenario` | oiva.py:102-138 | "Sure, ", "```python\n", "print(1)\n", "```\n", "Done." reach the terminal as "Sure, print(1)\nDone.\n" |
| `Substitution.Scan` | oiva.py:143 | substitution output from a position on is no longer than the rest of the input |
| `Substitution.Substitute` | oiva.py:143-147 | `re.sub(p, '', s)` returns a subsequence of s, no longer than s |
| `Substitution.ScanSubseq` | oiva.py:143-147 | substitution with '' only deletes characters |
| `Substitution.ScanSkip` | oiva.py:143-147 | positions where the pattern does not match are copied to the output unchanged |
| `Substitution.ScanTail` | oiva.py:143-147 | from a position on which the pattern matches nowhere, the rest of the text is copied |
| `Substitution.SubstituteNoMatch` | oiva.py:143-147 | a pattern that matches nowhere leaves the text unchanged |
| `Substitution.ScanSingleMatch` | oiva.py:143-147 | a pattern that matches once deletes just that match |
| `Fences.Span` | oiva.py:143 | a greedy character-class star takes the longest run of matching characters |
| `Fences.SpanExact` | oiva.py:143 | a run that cannot be extended is the greedy one |
| `Fences.OpeningAt` | oiva.py:143 | the opening-fence pattern matches exactly where a marker starts |
| `Fences.ClosingAt` | oiva.py:145 | the closing-fence pattern matches only at a marker, or at a newline directly followed by a marker |
| `Fences.BareLineAt` | oiva.py:72 | `^```$` in MULTILINE mode matches only a marker |
| `Fences.LeadingFenceAt` | oiva.py:68 | `^```\w*\n` matches only at index 0 and only at a marker |
| `Fences.TrailingFenceAt` | oiva.py:70 | `\n```$` matches only at a newline directly followed by a marker |
| `Fences.StripOpenings` | oiva.py:143 | step 1 only deletes, leaves no marker, and passes text without a marker unchanged |
| `Fences.StripClosings` | oiva.py:145 | step 2 only deletes, and passes text without a marker unchanged |
| `Fences.StripBareLines` | oiva.py:147 | step 3 (and line 72) only deletes, and passes text without a marker unchanged |
| `Fences.StripLeadingFence` | oiva.py:68 | line 68 only deletes, and passes text without a marker unchanged |
| `Fences.StripTrailingFence` | oiva.py:70 | line 70 only deletes, and passes text without a marker unchanged |
| `Fences.CleanCodeBlocks` | oiva.py:140-148 | `_clean_code_blocks` only deletes (its result is a subsequence of its input), leaves no marker, and passes text without a marker unchanged |
| `Fences.CleanResponse` | oiva.py:65-73 | `clean_response` only deletes, and passes text without a marker unchanged |
| `Fences.MarkerFreeUnchanged` | oiva.py:143-147 | a pattern that needs a marker leaves text without a marker unchanged |
| `Fences.ScanFirstChar` | oiva.py:143 | for a pattern that matches exactly at markers, the output from a position starts with a backtick only if the input does there |
| `Fences.MarkersDeleted` | oiva.py:143 | a deletion whose pattern matches exactly at every marker leaves no marker: deleting matches never brings three backticks together |
| `Fences.CleanCodeBlocksIsStripOpenings` | oiva.py:140-148 | `_clean_code_blocks` equals its step 1 alone, and its result has no marker |
| `Fences.CleanCodeBlocksIdempotent` | oiva.py:140-148 | cleaning twice is the same as cleaning once |
| `Fences.OpeningSpans` | oiva.py:143 | the tag and blank runs after a marker are what the greedy `[\w]*` and `[ \t]*` take |
| `Fences.OpeningLength` | oiva.py:143 | an opening match spans the marker, the tag, the blanks, and a newline if one follows |
| `Fences.StripSingleOpening` | oiva.py:143 | a single marker is removed together with its tag, its blanks and one following newline; the rest is kept |
| `Fences.StripOneOpening` | oiva.py:143 | in a text with a single marker, step 1 deletes exactly that marker's match |
| `Fences.SingleOpeningMatch` | oiva.py:143 | the match after a marker ends after the tag and blanks, one further when a newline follows |
| `Fences.SingleOpeningStep1` | oiva.py:143 | step 1 on a marker between backtick-free text removes the marker, its tag, its blanks and one newline |
| `Fences.CleanOpenedCode` | oiva.py:140-148 | an opening fence line at the start of a buffer is removed and the code after it kept |
| `Fences.OpeningFenceExample` | oiva.py:143 | "```python\nprint(1)\n" becomes "print(1)\n" |
| `Fences.UnpairedMarkerExample` | oiva.py:143 | "Some ```text that never closes" becomes "Some that never closes" |
| `Fences.LeadingMatchIsLine` | oiva.py:68 | a string starting with an opening fence line is matched on exactly that line |
| `Fences.LeadingFenceOnlyAtStart` | oiva.py:68 | an opening fence line is removed only at the very start; a string not starting with one is unchanged |
| `Fences.TrailingFenceAtEnd` | oiva.py:70 | a final "\n```" is removed |
| `Fences.TrailingFenceBeforeNewline` | oiva.py:70 | a "\n```" just before a final newline is removed and the newline kept |
| `Fences.TrailingFenceOnlyAtEnd` | oiva.py:70 | a final "\n```" is removed; before a final newline it is removed and the newline kept; otherwise nothing changes |
| `Fences.BareLineRemoved` | oiva.py:72 | a marker alone on its line, in text that holds no other backtick, is removed wherever the line stands, and the line breaks around it stay |
| `Fences.CleanResponseUnwraps` | oiva.py:65-73 | an answer wrapped in one fenced block, whose body holds no three-backtick marker (single backticks allowed), comes out as its body |
| `Fences.InlineBackticksExample` | oiva.py:65-73 | "```bash\necho `date`\n```" becomes "echo `date`": inline backticks in the body are kept |
| `Fences.ShellCommandExample` | oiva.py:65-73 | "```bash\nls -la\n```" becomes "ls -la" |
| `Text.ContainsMarkerAppend` | oiva.py:113 | a buffer holding a marker still holds one after a delta is appended |
| `Text.ContainsMarkerPrepend` | oiva.py:113 | a delta holding a marker makes the buffer it is appended to hold one |
| `Text.NoBacktickNoMarker` | oiva.py:110 | a string without backticks holds no marker and counts none |

## Left out

- The completion call (lines 77-85) and the OpenAI client (lines 36-39): the stream of deltas is a parameter.
- The chunk objects: `chunk.choices[0].delta.content` is the string itself, with "" for a missing or empty content.
- Stream.RawStream, Stream.CleanStream, Stream.ProcessQuery: every chunk is taken to carry a choice and the stream to end normally. A chunk with an empty `choices` list (lines 90 and 103) raises IndexError, and any exception while iterating leaves `process_query` before the post-loop flush and the closing `print()` (lines 133-138), losing the pending buffer and the final newline; the model has no such path and always ends with "\n".
- The model name, system prompt and temperature (lines 43-45): they only parameterise the API call.
- Loading the configuration (lines 15-34, 47-62): file-system access, TOML parsing and `sys.exit` are I/O.
- `main` and `print_usage` (lines 8-11, 151-168): command-line handling and I/O.
- The terminal: each `print` becomes an element of the output sequence. Encoding and flushing of stdout are not modelled.
- `clean_response` is not called by `process_query`; it is modelled on its own as a transform.
- Fences.OpeningAt: `\w` is modelled as ASCII letters, digits and underscore. Python's `\w` on `str` also matches other Unicode letters and digits.
- Fences.LeadingFenceAt: the same ASCII approximation of `\w`.
