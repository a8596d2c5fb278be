# minigrep, modelled in Dafny

minigrep is a small command-line tool. It searches one text file for the
lines that contain a query string and prints them in file order. Matching is
literal by default. With `--ignore-case`, a line matches when its lowercase
form contains the lowercase query, and the line is still printed as it
appears in the file.

The core is two functions of `src/lib.rs`:

- `search(opt, content)` splits a buffer into lines with `str::lines` and
  keeps the lines that pass the test. It returns `None` when no line passes
  and `Some(lines)` otherwise.
- `run(opt)` reads the file one `read_line` at a time into a reusable
  `String` buffer. After each read it calls `search` on the buffer and prints
  whatever is returned. It clears the buffer only after a match: on `None`
  the `continue` skips `buf.clear()`, so the lines that did not match stay in
  the buffer and are searched again together with the next line.

The model proves that this quirk does not change the output. The lines `run`
prints are exactly the whole-file filter: every matching line once, in file
order, and nothing else.

Modules, one file each:

- `Seqs` (`seqs.dfy`): small sequence facts that the other proofs cite by
  name.
- `Text` (`text.dfy`): the pieces `read_line` hands out (`ChunkLen`,
  `IsChunk`, `Terminated`, and `Chunks` for a whole text) and the splitter
  `Lines`. `Lines` follows
  `str::lines`: a '\n' ends a line, a '\r' directly before that '\n' is
  dropped too, and there is no empty last line after a final '\n'. Its
  partner `Unlines` comes with both round trips.
- `Match` (`match.dfy`): substring containment (`Contains`, with the scan
  `ContainsScan` that decides it) and ASCII lowercasing (`Lower`).
- `Grep` (`grep.dfy`): `Config`, `Option`, the per-line test `IsMatch`, the
  filter `FilterLines` and `Search`. A reference definition `MatchIndices`
  lists the matching positions, and lemmas connect the two.
- `Stream` (`stream.dfy`): one `read_line` call (`ReadLine`), what a pass
  prints (`Emitted`), what it leaves in the buffer (`Kept`), and the loop
  invariant `StreamInv` with its step lemmas.
- `Run` (`run.dfy`): the imperative loop of `run` as methods. It also holds
  `ClearingLoop` and `RunClearing`, the same loop with the buffer cleared
  on every pass (see Findings).
- `Scenario` (`scenario.dfy`): three worked examples on concrete text.

## Model

| member | source | states |
|---|---|---|
| Match.Contains | src/lib.rs:57 | `str::contains` as a definition: some start position holds the query. Its contract is stated by Match.ContainsScan, Match.ContainsEmpty, Match.ContainsTooLong and Match.NotContainsSomeChar |
| Match.ContainsScan | src/lib.rs:57 | the scan answers true exactly when the query occurs as a contiguous piece of the line, which is the question `str::contains` answers |
| Match.ContainsEmpty | src/lib.rs:57 | the empty query is contained in every line |
| Match.ContainsTooLong | src/lib.rs:57 | a query longer than the line is never contained in it |
| Match.NotContainsSomeChar | src/lib.rs:57 | a line lacking any one character of the query does not contain the query |
| Match.Lower | src/lib.rs:50 | `to_lowercase`, restricted to ASCII. It keeps the length; Match.LowerIdempotent, Match.LowerCharSpec and Match.ContainsLower state the rest |
| Match.LowerCharSpec | src/lib.rs:50 | lowering a character twice is lowering it once, and the result is never an upper-case ASCII letter |
| Match.LowerIdempotent | src/lib.rs:50 | lowering a whole string twice is lowering it once |
| Match.LowerUpper | src/lib.rs:50 | lowering an ASCII-uppercased string gives the lowercase form of the original |
| Match.NoUpperLower | src/lib.rs:50 | a string with no upper-case ASCII letter is its own lowercase form |
| Match.ContainsLower | src/lib.rs:50-57 | a literal match is also a match after both line and query are lowercased |
| Text.LineOf | src/lib.rs:49 | the line `lines()` yields for one chunk. Text.LineOfSpec states its contract: the chunk is this line followed by its terminator, and the line holds no '\n' |
| Text.Lines | src/lib.rs:49 | `str::lines`. Its contract is stated by Text.LinesSpec, Text.LinesOfChunk, Text.LinesAppend, Text.LinesOfUnlines and Text.UnlinesOfLines |
| Text.ChunkLen | src/lib.rs:28 | how much of the remaining text one `read_line` consumes; Text.ChunkLenSpec states its contract |
| Text.ChunkLenSpec | src/lib.rs:28 | one `read_line` consumes up to and including the first '\n', or everything when there is none; it holds no earlier '\n' |
| Text.ChunkLenAppend | src/lib.rs:28 | the first chunk of a text that ends on a line boundary does not change when more text follows |
| Text.LineOfSpec | src/lib.rs:49 | a chunk is its line followed by the terminator `lines()` removes ("\n", "\r\n" or nothing), and the line holds no '\n' |
| Text.LinesSpec | src/lib.rs:49 | an empty buffer has no lines, any other buffer has at least one, and no line holds a '\n' |
| Text.Chunks | src/lib.rs:28 | the pieces successive `read_line` calls hand out for a whole text. Text.ChunksCut and Text.CutIsChunks state its contract |
| Text.ChunksCut | src/lib.rs:28 | the pieces `read_line` hands out join back to the text; each is a chunk, and each but the last ends with '\n' |
| Text.CutIsChunks | src/lib.rs:28 | conversely, any cut of a text into chunks in which every piece but the last ends with '\n' is exactly the cut `read_line` makes |
| Text.ChunksSnoc | src/lib.rs:28 | after a text ending with '\n', reading one more chunk adds exactly that chunk to the pieces `read_line` has cut |
| Text.ChunksStep | src/lib.rs:28 | the same for the text read up to a position and the chunk `read_line` reads next |
| Text.LinesOfChunk | src/lib.rs:28-29 | the text one `read_line` appends is exactly one line |
| Text.LinesAppend | src/lib.rs:49 | the lines of `a + b` are the lines of `a` followed by those of `b` when `a` ends on a line boundary; no line is glued across the seam |
| Text.LinesSnoc | src/lib.rs:49 | appending a '\n'-terminated line to a text on a line boundary appends that line to its lines |
| Text.MapChunkLen | src/lib.rs:28 | a character mapping that neither moves nor creates line breaks leaves where `read_line` stops unchanged |
| Text.MapLineOf | src/lib.rs:49 | mapping the characters of a chunk that way maps its line |
| Text.MapLines | src/lib.rs:49 | mapping the characters of a text that way keeps the number of its lines and maps each one |
| Text.LinesOfUnlines | src/lib.rs:49 | terminating each line with '\n' and splitting again gives the lines back, for lines without '\n' and without a trailing '\r' |
| Text.UnlinesOfLines | src/lib.rs:49 | a text that ends on a line boundary and has no '\r' directly before a '\n' is rebuilt exactly from its lines |
| Grep.IsMatch | src/lib.rs:50-57 | the per-line test of both branches. Grep.IgnoreCaseKeepsOriginalLines, Grep.IgnoreCaseLineCaseIrrelevant, Grep.IgnoreCaseQueryCaseIrrelevant, Grep.IgnoreCaseQueryUpper and Grep.IgnoreCaseContentCaseIrrelevant state its case-insensitive half |
| Grep.FilterLines | src/lib.rs:49-61 | the loop that pushes each passing line; the result is never longer than the input. Grep.FilterSound, Grep.FilterComplete, Grep.FilterEmptyIff and Grep.FilterIsMatchIndicesFrom state the rest of its contract |
| Grep.Search | src/lib.rs:44-69 | a `Some` result is never empty and never longer than the buffer's list of lines. Grep.SearchNoneIff, Grep.SearchSound and Grep.SearchSelectsMatchingLines state the rest of its contract |
| Grep.FilterSound | src/lib.rs:56-59 | every kept element is one of the lines, unchanged, and passes the test |
| Grep.FilterComplete | src/lib.rs:56-59 | every line that passes the test is kept |
| Grep.FilterEmptyIff | src/lib.rs:64-68 | the filter is empty exactly when no line passes the test |
| Grep.SearchNoneIff | src/lib.rs:64-68 | `search` returns `None` exactly when no line of the buffer passes the test, and a `Some` it returns is never empty |
| Grep.SearchSound | src/lib.rs:55-60 | a `Some` result holds a line exactly when that line is a line of the buffer and passes the test |
| Grep.MatchIndicesMatch | src/lib.rs:56-59 | every position in the reference list holds a matching line |
| Grep.MatchIndicesAscending | src/lib.rs:56-59 | the reference positions are strictly ascending, so each line appears at most once and in file order |
| Grep.MatchIndicesComplete | src/lib.rs:56-59 | every position holding a matching line is in the reference list |
| Grep.FilterIsMatchIndicesFrom | src/lib.rs:56-59 | the filter equals the lines read at the reference positions, in their order |
| Grep.SearchSelectsMatchingLines | src/lib.rs:44-69 | the result of `search` is the lines at exactly the matching positions, in ascending order, and `None` exactly when there are no such positions |
| Grep.FilterAppend | src/lib.rs:49-59 | filtering two line lists one after the other gives the filter of their concatenation |
| Grep.SearchEmptyQuery | src/lib.rs:56-68 | with an empty query `search` returns every line, and `None` only for an empty buffer |
| Grep.SearchNoNewline | src/lib.rs:49-58 | no returned line contains '\n' |
| Grep.IgnoreCaseKeepsOriginalLines | src/lib.rs:48-53 | with `ignore_case`, a line is kept exactly when its lowercase form contains the lowercase query, and what is kept is the original line |
| Grep.IgnoreCaseFindsMore | src/lib.rs:47-61 | the case-insensitive result has every line of the case-sensitive result and is at least as long |
| Grep.IgnoreCaseQueryCaseIrrelevant | src/lib.rs:50 | a case-insensitive search gives the same result for the query and for its lowercase form |
| Grep.IgnoreCaseQueryUpper | src/lib.rs:50 | a case-insensitive search gives the same result for the query and for its ASCII uppercase form |
| Grep.IgnoreCaseLineCaseIrrelevant | src/lib.rs:50 | the case-insensitive test accepts a line exactly when it accepts the line's lowercase form, and exactly when it accepts its uppercase form |
| Grep.MatchIndicesSameTest | src/lib.rs:48-53 | two line lists that pass the test alike at every position have the same matching positions |
| Grep.IgnoreCaseContentCaseIrrelevant | src/lib.rs:47-53 | lowering or uppercasing the whole content leaves the positions of the lines a case-insensitive search selects unchanged |
| Stream.ReadLine | src/lib.rs:28 | the count `read_line` returns stays within the text, and it is 0 exactly at end of file. Stream.ReadLineSpec states what the consumed text looks like |
| Stream.ReadLineSpec | src/lib.rs:28 | before end of file, what `read_line` appends is non-empty, has a '\n' only at its end, and ends with '\n' unless it reaches the end of the file |
| Stream.Emitted | src/lib.rs:29-34 | what a pass prints for a `search` result. Stream.EmittedIsFilter states that for any buffer this is the filter of its lines |
| Stream.EmittedIsFilter | src/lib.rs:29-34 | the lines printed for `search`'s result on a buffer are the filter of the buffer's lines, and nothing when the result is `None` |
| Stream.Kept | src/lib.rs:35-38 | the buffer after a pass: cleared after a match, left as it is on `None`. Stream.KeptHasNoMatch and Stream.StepOutcome state its contract |
| Stream.StepOutcome | src/lib.rs:29-38 | after a buffer of whole lines with no match, the pass prints exactly the line just read when it matches and clears the buffer; otherwise nothing is printed and the chunk is kept after the old buffer |
| Stream.AccumulatedSearch | src/lib.rs:35-38 | a kept buffer with no match changes nothing: searching it together with the next chunk gives what searching the chunk alone gives |
| Stream.BatchIsCurrentLine | src/lib.rs:28-36 | each pass prints exactly the line just read when it matches, and nothing otherwise; lines carried in the buffer are never printed again |
| Stream.KeptHasNoMatch | src/lib.rs:35-38 | the buffer left after a pass, cleared or kept, holds no match |
| Stream.StepPrints | src/lib.rs:28-38 | what one pass prints extends the filter of the lines read so far by the filter of the new line |
| Stream.StreamInvStep | src/lib.rs:28-39 | one pass of the loop keeps the invariant: printed so far equals the filter of the lines read, the buffer has no match, and before end of file both end on a line boundary |
| Stream.StreamInvDone | src/lib.rs:28-41 | at end of file the invariant gives the whole-file filter, which is what one `search` over the whole file returns |
| Stream.PassOutcome | src/lib.rs:28-39 | whichever way a pass goes, printing the matching line and clearing or keeping the chunk, the loop invariant holds again at the new position. While nothing has been printed, the buffer is everything read |
| Stream.StepKeepsUnmatched | src/lib.rs:35-38 | while nothing has been printed, the buffer holds everything read so far |
| Stream.ChunkedPrints | src/lib.rs:28-38 | searching the pieces of a text one at a time, when every piece is a chunk and every piece but the last ends with '\n', prints exactly the lines of one whole-text `search` |
| Stream.PrintsOfChunks | src/lib.rs:28-38 | in particular, searching the pieces `read_line` cuts a text into, one at a time, prints the lines of one whole-text `search` |
| Stream.ClearingStep | src/lib.rs:28-38 | with the buffer cleared on every pass, one pass keeps the invariant, searching the chunk just read alone |
| Run.PrintAll | src/lib.rs:31-33 | the lines of a batch are printed after what was printed before, all of them and in order |
| Run.PrintResult | src/lib.rs:29-35 | the `match` on `search`'s result: a `Some` batch is printed in full after what came before and `None` prints nothing. For a searched buffer, Stream.EmittedIsFilter shows this is the filter of its lines |
| Run.SearchAndPrint | src/lib.rs:29-38 | given a buffer of whole lines with no match, the pass prints the line just read exactly when that line matches, and then clears the buffer; otherwise it prints nothing and the chunk stays after the old buffer. Either way the buffer left behind holds no match |
| Run.Pass | src/lib.rs:28-38 | one read, search, print and optional clear keeps the loop invariant, and while nothing has been printed the buffer is everything read |
| Run.Run | src/lib.rs:21-42 | `run` prints exactly the filter of all the lines of the file, equal to a single whole-file `search`; when nothing matches, the buffer ends up holding the whole file |
| Run.ClearingPass | src/lib.rs:28-38 | with an unconditional clear, the buffer handed to `search` is exactly the text this `read_line` consumed, a single chunk, and it ends with '\n' unless the file ends there. What is printed is `search`'s result on that chunk, and the clearing-loop invariant holds again |
| Run.ClearingRound | src/lib.rs:28-38 | one pass with an unconditional clear also appends the chunk just read to the record of buffers searched, which stays the pieces `read_line` cut the consumed text into. The clearing-loop invariant holds again, and what is printed is `search`'s result on that chunk |
| Run.ClearingLoop | src/lib.rs:28-39 | the loop with an unconditional clear hands `search` exactly the pieces `read_line` cuts the file into, in order, and prints the whole-file filter |
| Run.RunClearing | src/lib.rs:21-42 | with an unconditional clear, the buffers handed to `search` are exactly the pieces `read_line` cuts the file into, one at a time. By Text.ChunksCut they join to the file, each is a chunk, and each but the last ends with '\n'. What is printed is `search`'s result on each of those buffers in turn, and that is the whole-file filter, the same lines as `run` prints |
| Scenario.PoemSplits | src/lib.rs:56 | "Rust:\nsafe, fast, productive.\nPick three.\nDuct Tape" splits into its four lines, the unterminated last one included |
| Scenario.DuctMatches | src/lib.rs:57 | of those four lines only "safe, fast, productive." contains "duct"; "Duct Tape" differs in case |
| Scenario.DuctExample | src/lib.rs:44-69 | a case-sensitive `search` for "duct" in that text returns exactly `Some(["safe, fast, productive."])` |
| Scenario.LowerQuery | src/lib.rs:50 | the query "ruST" lowercases to "rust" |
| Scenario.RustFirstLine | src/lib.rs:50 | with `ignore_case`, "Rust:" matches "ruST" |
| Scenario.RustSecondLine | src/lib.rs:50 | with `ignore_case`, "safe, fast, productive." does not match "ruST" |
| Scenario.RustThirdLine | src/lib.rs:50 | with `ignore_case`, "Pick three." does not match "ruST" |
| Scenario.RustFourthLine | src/lib.rs:50 | with `ignore_case`, "Trust me." matches "ruST" |
| Scenario.TrustPoemSplits | src/lib.rs:49 | "Rust:\nsafe, fast, productive.\nPick three.\nTrust me." splits into its four lines |
| Scenario.RustFilter | src/lib.rs:48-53 | filtering those four lines for "ruST" with `ignore_case` keeps "Rust:" and "Trust me.", unchanged |
| Scenario.RustExample | src/lib.rs:44-69 | a case-insensitive `search` for "ruST" in that text returns exactly `Some(["Rust:", "Trust me."])`, the lines as they appear in the file |
| Scenario.UnmatchedLinesStay | src/lib.rs:35-38 | searching "a\nb\n" for "z", the first pass keeps "a\n", so the second pass searches a buffer of two lines |

## Left out

- Argument parsing (src/lib.rs:6-19) and `main` (src/main.rs:1-11) are not modelled. The model takes a plain `Config` record. Its `file` field is carried but never read, because the file's contents are a parameter.
- `File::open` and `BufReader` (src/lib.rs:24-25) are not modelled. The contents of the file are the `text` parameter of `Run`. The open error that `?` propagates is not modelled, so `Run` has no error result.
- Read errors and invalid UTF-8, which `.unwrap()` turns into a panic (src/lib.rs:28), are not modelled. Text is a sequence of characters, not of bytes.
- Bold styling and standard output (src/lib.rs:32) are not modelled. Printing is appending to the `printed` sequence.
- Match.Lower: lowercases ASCII letters only. Rust's `to_lowercase` follows Unicode and can change a string's length. The case-insensitive lemmas are therefore proved for this lowercasing.
- Match.ContainsLower: holds only for ASCII lowercasing. With Unicode `to_lowercase` it fails. The line "ΑΣ" contains the query "Σ", but "ΑΣ" lowercases to "ας" with a final sigma, while "Σ" lowercases to "σ", which "ας" does not contain.
- Grep.IgnoreCaseQueryCaseIrrelevant: invariance of a case-insensitive search is stated for lowercasing and ASCII uppercasing of the query (Grep.IgnoreCaseQueryUpper), of a line, and of the whole content (Grep.IgnoreCaseContentCaseIrrelevant). Under Unicode uppercasing it fails. The line "ß" contains the query "ß" once both are lowercased, but the uppercase query "SS" lowercases to "ss", which "ß" does not contain. Uppercasing the content to "SS" instead drops the line for the query "ß" as well.
- Grep.IgnoreCaseFindsMore: rests on Match.ContainsLower, so it too holds only for ASCII lowercasing. With Unicode `to_lowercase`, searching the line "ΑΣ" for "Σ" keeps the line case-sensitively but drops it with `ignore_case`.
- Match.ContainsScan: tries every start position in turn. Rust uses the two-way string search algorithm. Both decide the same question, and speed is not modelled.
- `search` returns slices borrowed from the buffer. The model returns the lines as values; content and order are the same.
- Calling `search` twice on the same input gives the same answer. In a model of pure functions this holds by construction, so no lemma states it.
- A '\r' is removed only as part of a "\r\n" terminator. A lone '\r' at the very end of the text stays in the last line. This is how `str::lines` behaves in current Rust releases, whose documentation says so. Older releases also removed such a final '\r'; `Text.LineOf` follows the current behaviour.
- src/lib.rs and src/main.rs have no whole-file reading mode and no "no match" message, and read no `CASE_INSENSITIVE` environment variable. The model has none of these either.
- `query` and `file` (src/lib.rs:9-14) carry no `short` or `long` option, so structopt takes them as the positional arguments `<query> <file>`. The program has no scan of the argument list that takes the second positional as the query and the last as the file. Argument parsing is not modelled in any case (first line of this list).
- The comment at src/lib.rs:22-23 says reading line by line is meant for very large files. The loop, however, clears the buffer only after a match. The model follows the code; the clearing loop is modelled as well, under Findings.

## Findings

| source | as written | input that shows it | evidently intended | confidence | as-written member | corrected member |
|---|---|---|---|---|---|---|
| src/lib.rs:35-38 | `None => continue` jumps over `buf.clear()`, so every line read since the last match stays in the buffer and is searched again on every later pass until a match clears the buffer | the file "a\nb\n" searched for "z": the second `search` covers both lines. Any file with no matching line ends with the whole file in the buffer, and the work grows with the square of its length | the buffer is cleared on every pass, so that it holds one line, as the comment at src/lib.rs:22-23 about large files implies. The printed output is the same either way | medium, not executed | Run.Run (with Scenario.UnmatchedLinesStay) | Run.RunClearing (with Run.ClearingLoop) |

Both loops are proved to print the whole-file filter. `Run` models the code
as written. `RunClearing` states the intended property: the buffers it
searches are exactly the file's `read_line` chunks, one at a time. What it
prints is `search`'s result on each of those buffers in turn.
