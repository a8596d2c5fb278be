/** One pass of the read-search-print loop of `run`, and the invariant that
    the loop keeps: `read_line` appends one chunk of the file at a time to a
    reusable buffer, `search` is applied to the buffer, and the buffer is
    cleared only after a match. Unmatched lines stay in the buffer and are
    searched again with the next chunk, without changing what is printed. */
module Stream {
  import opened Seqs
  import opened Text
  import opened Grep

  /** One `read_line` call on a reader positioned at `pos` of `text`: the
      number of characters it appends to the buffer, which are the text up to
      and including the next '\n', or the rest of the file; zero exactly at
      end of file. */
  function ReadLine(text: string, pos: nat): (n: nat)
    requires pos <= |text|
    ensures pos + n <= |text|
    ensures n == 0 <==> pos == |text|
  {
    ChunkLen(text[pos..])
  }

  /** Before end of file, the `n` characters `read_line` appends are one
      chunk: a '\n' only at its end, and it stops at a '\n' unless it
      reaches the end of the file. */
  lemma ReadLineSpec(text: string, pos: nat, n: nat)
    requires pos < |text| && n == ReadLine(text, pos)
    ensures IsChunk(text[pos..pos + n])
    ensures pos + n == |text| || Terminated(text[pos..pos + n])
  {
    var rest := text[pos..];
    ChunkLenSpec(rest);
    assert rest[..ChunkLen(rest)] == text[pos..pos + n];
  }

  /** What printing one `search` result emits: every line of a `Some`, in
      order; nothing for `None`. */
  function Emitted(r: Option<seq<string>>): seq<string>
  {
    match r
    case None => []
    case Some(v) => v
  }

  /** What a loop prints when it hands the buffers `bufs` to `search`, one
      after the other, and prints every result. */
  function Prints(cfg: Config, bufs: seq<string>): seq<string>
  {
    if bufs == [] then []
    else Prints(cfg, bufs[..|bufs| - 1]) + Emitted(Search(cfg, bufs[|bufs| - 1]))
  }

  /** Searching the pieces of a text one at a time, when every piece but the
      last ends with '\n', prints the same lines as one `search` over the
      whole text: the filter of all its lines. */
  lemma {:induction false} ChunkedPrints(cfg: Config, bufs: seq<string>, s: string)
    requires Concat(bufs) == s
    requires forall c <- bufs :: IsChunk(c)
    requires forall k :: 0 <= k < |bufs| - 1 ==> Terminated(bufs[k])
    ensures Prints(cfg, bufs) == FilterLines(cfg, Lines(s))
    decreases |bufs|
  {
    if bufs != [] {
      var init, last := bufs[..|bufs| - 1], bufs[|bufs| - 1];
      forall c | c in init ensures IsChunk(c) {
        var k :| 0 <= k < |init| && init[k] == c;
        assert bufs[k] in bufs;
      }
      forall k | 0 <= k < |init| - 1 ensures Terminated(init[k]) {
        assert init[k] == bufs[k];
      }
      ChunkedPrints(cfg, init, Concat(init));
      if init != [] {
        assert Terminated(init[|init| - 1]) by {
          assert init[|init| - 1] == bufs[|bufs| - 2];
        }
        assert init[|init| - 1] in init;
        TerminatedAppend(Concat(init[..|init| - 1]), init[|init| - 1]);
      }
      LinesAppend(Concat(init), last);
      FilterAppend(cfg, Lines(Concat(init)), Lines(last));
      EmittedIsFilter(cfg, last);
    }
  }

  /** In particular, searching the pieces `read_line` cuts a text into, one
      at a time, prints the lines of one whole-text `search`. */
  lemma PrintsOfChunks(cfg: Config, s: string)
    ensures Prints(cfg, Chunks(s)) == FilterLines(cfg, Lines(s))
  {
    ChunksCut(s);
    ChunkedPrints(cfg, Chunks(s), s);
  }

  /** Whatever `search` returns, what gets printed is the whole filter of the
      buffer's lines. */
  lemma EmittedIsFilter(cfg: Config, content: string)
    ensures Emitted(Search(cfg, content)) == FilterLines(cfg, Lines(content))
  {
  }

  /** The quirk is invisible to `search`: a terminated buffer in which nothing
      matches contributes nothing when searched together with the next chunk. */
  lemma AccumulatedSearch(cfg: Config, buf: string, chunk: string)
    requires Terminated(buf)
    requires Search(cfg, buf) == None
    ensures Search(cfg, buf + chunk) == Search(cfg, chunk)
  {
    EmittedIsFilter(cfg, buf);
    LinesAppend(buf, chunk);
    FilterAppend(cfg, Lines(buf), Lines(chunk));
    assert [] + FilterLines(cfg, Lines(chunk)) == FilterLines(cfg, Lines(chunk));
  }

  /** What one pass of the loop prints: exactly the line just read, when it
      matches, and nothing from the unmatched lines still in the buffer. */
  lemma BatchIsCurrentLine(cfg: Config, buf: string, chunk: string)
    requires Terminated(buf)
    requires Search(cfg, buf) == None
    requires IsChunk(chunk)
    ensures Search(cfg, buf + chunk) ==
            if IsMatch(cfg, LineOf(chunk)) then Some([LineOf(chunk)]) else None
  {
    AccumulatedSearch(cfg, buf, chunk);
    LinesOfChunk(chunk);
  }

  /** The outcome of one pass in terms of the line just read: the buffer is
      cleared and that line printed exactly when it matches; otherwise
      nothing is printed and the chunk stays in the buffer after the
      unmatched lines already there. */
  lemma StepOutcome(cfg: Config, buf: string, chunk: string)
    requires Terminated(buf)
    requires Search(cfg, buf) == None
    requires IsChunk(chunk)
    ensures Emitted(Search(cfg, buf + chunk)) ==
            if IsMatch(cfg, LineOf(chunk)) then [LineOf(chunk)] else []
    ensures Kept(cfg, buf + chunk) ==
            if IsMatch(cfg, LineOf(chunk)) then [] else buf + chunk
  {
    BatchIsCurrentLine(cfg, buf, chunk);
  }

  /** The text consumed after one more `read_line` is the text consumed so far
      followed by the chunk. */
  lemma ConsumedGrows(text: string, pos: nat, n: nat)
    requires pos + n <= |text|
    ensures text[..pos + n] == text[..pos] + text[pos..pos + n]
  {
  }

  /** The buffer after the search of one pass: cleared when `search` found
      something, kept as it is (the `continue`) when it did not. */
  function Kept(cfg: Config, buf: string): string
  {
    if Search(cfg, buf).Some? then [] else buf
  }

  /** The loop invariant of `run`, at the head of the loop, after `pos`
      characters of `text` have been read: what was printed is the filter of
      the lines read so far, the buffer holds no match, and until end of file
      both the text read and the buffer end on a line boundary. */
  predicate StreamInv(cfg: Config, text: string, pos: nat, buf: string, printed: seq<string>) {
    pos <= |text| &&
    printed == FilterLines(cfg, Lines(text[..pos])) &&
    Search(cfg, buf) == None &&
    (pos < |text| ==> Terminated(text[..pos]) && Terminated(buf))
  }

  /** The invariant holds when the loop is entered. */
  lemma StreamInvInit(cfg: Config, text: string)
    ensures StreamInv(cfg, text, 0, [], [])
  {
    assert text[..0] == [];
  }

  /** A cleared or kept buffer holds no match. */
  lemma KeptHasNoMatch(cfg: Config, buf: string)
    ensures Search(cfg, Kept(cfg, buf)) == None
  {
    assert Lines([]) == [];
  }

  /** What searching the chunk just read yields extends the filter of the
      lines read so far by the filter of that chunk's line. */
  lemma ChunkPrints(cfg: Config, text: string, pos: nat, n: nat)
    requires pos + n <= |text|
    requires Terminated(text[..pos])
    ensures FilterLines(cfg, Lines(text[..pos + n])) ==
            FilterLines(cfg, Lines(text[..pos])) + Emitted(Search(cfg, text[pos..pos + n]))
  {
    LinesRead(text, pos, n);
    FilterAppend(cfg, Lines(text[..pos]), Lines(text[pos..pos + n]));
    EmittedIsFilter(cfg, text[pos..pos + n]);
  }

  /** What one pass prints extends the filter of the lines read so far by the
      filter of the line just read: unmatched lines carried in the buffer are
      not printed again. */
  lemma StepPrints(cfg: Config, text: string, pos: nat, buf: string, n: nat)
    requires pos + n <= |text|
    requires Terminated(text[..pos]) && Terminated(buf)
    requires Search(cfg, buf) == None
    ensures FilterLines(cfg, Lines(text[..pos + n])) ==
            FilterLines(cfg, Lines(text[..pos])) + Emitted(Search(cfg, buf + text[pos..pos + n]))
  {
    ChunkPrints(cfg, text, pos, n);
    AccumulatedSearch(cfg, buf, text[pos..pos + n]);
  }

  /** The lines read after one more pass are those read before followed by
      the lines of what was just read. */
  lemma LinesRead(text: string, pos: nat, n: nat)
    requires pos + n <= |text|
    requires Terminated(text[..pos])
    ensures Lines(text[..pos + n]) == Lines(text[..pos]) + Lines(text[pos..pos + n])
  {
    ConsumedGrows(text, pos, n);
    LinesAppend(text[..pos], text[pos..pos + n]);
  }

  /** Until end of file, the text read ends on a line boundary after one
      more `read_line`. */
  lemma ReadTerminated(text: string, pos: nat, n: nat)
    requires pos < |text| && n == ReadLine(text, pos)
    requires Terminated(text[..pos])
    requires pos + n < |text|
    ensures Terminated(text[..pos + n])
    ensures Terminated(text[pos..pos + n])
  {
    ReadLineSpec(text, pos, n);
    ConsumedGrows(text, pos, n);
    TerminatedAppend(text[..pos], text[pos..pos + n]);
  }

  /** Until end of file, the text read and the buffer end on a line boundary
      after one more pass. */
  lemma StepTerminated(cfg: Config, text: string, pos: nat, buf: string, n: nat)
    requires pos < |text| && n == ReadLine(text, pos)
    requires Terminated(text[..pos]) && Terminated(buf)
    requires pos + n < |text|
    ensures Terminated(text[..pos + n]) && Terminated(Kept(cfg, buf + text[pos..pos + n]))
  {
    ReadTerminated(text, pos, n);
    TerminatedAppend(buf, text[pos..pos + n]);
  }

  /** One pass of the loop keeps the invariant: read a chunk, append it to the
      buffer, search the buffer, print what it returns and clear the buffer
      only when something matched. */
  lemma StreamInvStep(cfg: Config, text: string, pos: nat, buf: string, printed: seq<string>, n: nat)
    requires StreamInv(cfg, text, pos, buf, printed)
    requires pos < |text| && n == ReadLine(text, pos)
    ensures StreamInv(cfg, text, pos + n, Kept(cfg, buf + text[pos..pos + n]),
                      printed + Emitted(Search(cfg, buf + text[pos..pos + n])))
  {
    StepPrints(cfg, text, pos, buf, n);
    KeptHasNoMatch(cfg, buf + text[pos..pos + n]);
    if pos + n < |text| {
      StepTerminated(cfg, text, pos, buf, n);
    }
  }

  /** The invariant of a loop that clears the buffer on every pass: what was
      printed is the filter of the lines read so far, and until end of file
      the text read ends on a line boundary. */
  predicate ClearingInv(cfg: Config, text: string, pos: nat, printed: seq<string>) {
    pos <= |text| &&
    printed == FilterLines(cfg, Lines(text[..pos])) &&
    (pos < |text| ==> Terminated(text[..pos]))
  }

  /** One pass of a loop that clears the buffer every time keeps its
      invariant: the chunk just read is searched alone, and what it prints
      extends the filter of the lines read so far by the filter of that
      chunk's line. */
  lemma ClearingStep(cfg: Config, text: string, pos: nat, printed: seq<string>, n: nat, printed': seq<string>)
    requires ClearingInv(cfg, text, pos, printed)
    requires pos < |text| && n == ReadLine(text, pos)
    requires printed' == printed + Emitted(Search(cfg, text[pos..pos + n]))
    ensures ClearingInv(cfg, text, pos + n, printed')
  {
    ChunkPrints(cfg, text, pos, n);
    if pos + n < |text| {
      ReadTerminated(text, pos, n);
    }
  }

  /** As long as nothing has been printed, the buffer holds everything read
      so far: `continue` never clears it. */
  lemma StepKeepsUnmatched(cfg: Config, text: string, pos: nat, buf: string, printed: seq<string>, n: nat)
    requires pos + n <= |text|
    requires printed == [] ==> buf == text[..pos]
    ensures printed + Emitted(Search(cfg, buf + text[pos..pos + n])) == [] ==>
              Kept(cfg, buf + text[pos..pos + n]) == text[..pos + n]
  {
    SearchNoneIff(cfg, buf + text[pos..pos + n]);
    ConsumedGrows(text, pos, n);
  }

  /** One pass of the loop in terms of the line just read: when the line
      matches, it is printed and the buffer cleared; when it does not,
      nothing is printed and the chunk stays in the buffer. Either way the
      invariant holds again, and while nothing has been printed the buffer
      is everything read. */
  lemma PassOutcome(cfg: Config, text: string, pos: nat, buf: string, printed: seq<string>, n: nat,
                    buf': string, printed': seq<string>)
    requires StreamInv(cfg, text, pos, buf, printed)
    requires pos < |text| && n == ReadLine(text, pos)
    requires printed == [] ==> buf == text[..pos]
    requires printed' == printed + if IsMatch(cfg, LineOf(text[pos..pos + n])) then [LineOf(text[pos..pos + n])] else []
    requires buf' == if IsMatch(cfg, LineOf(text[pos..pos + n])) then [] else buf + text[pos..pos + n]
    ensures StreamInv(cfg, text, pos + n, buf', printed')
    ensures printed' == [] ==> buf' == text[..pos + n]
  {
    StreamInvStep(cfg, text, pos, buf, printed, n);
    StepKeepsUnmatched(cfg, text, pos, buf, printed, n);
    ReadLineSpec(text, pos, n);
    StepOutcome(cfg, buf, text[pos..pos + n]);
  }

  /** At end of file the invariant says everything: the lines printed are the
      filter of all the lines of the text. */
  lemma StreamInvDone(cfg: Config, text: string, buf: string, printed: seq<string>)
    requires StreamInv(cfg, text, |text|, buf, printed)
    ensures printed == FilterLines(cfg, Lines(text))
    ensures printed == Emitted(Search(cfg, text))
  {
    assert text[..|text|] == text;
    EmittedIsFilter(cfg, text);
  }
}
