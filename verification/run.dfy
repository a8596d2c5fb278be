/** The streaming driver `run`: `read_line` appends one chunk of the file at a
    time to a reusable buffer, `search` is applied to the buffer, matches are
    printed and only then is the buffer cleared. A chunk without a match
    skips the clear, so unmatched lines stay in the buffer and are searched
    again with the next chunk. */
module Run {
  import opened Seqs
  import opened Text
  import opened Grep
  import opened Stream

  /** The inner `for res in result` loop: each line of the batch is printed,
      in order, after what was printed before. */
  method PrintAll(printed: seq<string>, batch: seq<string>) returns (out: seq<string>)
    ensures out == printed + batch
  {
    out := printed;
    for k := 0 to |batch|
      invariant out == printed + batch[..k]
    {
      out := out + [batch[k]];
    }
    assert batch[..|batch|] == batch;
  }

  /** The `match` on the result of `search`: a `Some` batch is printed in
      full, `None` prints nothing. */
  method PrintResult(printed: seq<string>, r: Option<seq<string>>) returns (out: seq<string>)
    ensures out == printed + Emitted(r)
  {
    match r {
      case Some(result) =>
        out := PrintAll(printed, result);
      case None =>
        out := printed;
        assert printed + [] == printed;
    }
  }

  /** The rest of the loop body once `read_line` has appended `chunk` to the
      buffer `buf`: search the buffer; on a match print the batch and clear
      the buffer, otherwise `continue` with the buffer as it is. As long as
      the buffer held no match before the read, what gets printed is the new
      line, when it matches, and the buffer is cleared exactly then; the
      buffer left behind holds no match. */
  method SearchAndPrint(cfg: Config, buf: string, chunk: string, printed: seq<string>)
    returns (buf': string, printed': seq<string>)
    requires Terminated(buf) && Search(cfg, buf) == None
    requires IsChunk(chunk)
    ensures printed' == printed + if IsMatch(cfg, LineOf(chunk)) then [LineOf(chunk)] else []
    ensures buf' == if IsMatch(cfg, LineOf(chunk)) then [] else buf + chunk
    ensures Search(cfg, buf') == None
  {
    var grown := buf + chunk;
    StepOutcome(cfg, buf, chunk);
    KeptHasNoMatch(cfg, grown);
    match Search(cfg, grown) {
      case Some(result) =>
        printed' := PrintAll(printed, result);
        buf' := [];
      case None =>
        buf', printed' := grown, printed;
        assert printed + [] == printed;
    }
  }

  /** One pass of the `while` loop of `run`, from the read to the optional
      clear: `read_line` appends the next chunk to the buffer, the buffer is
      searched, the result printed, and the buffer cleared only when
      something matched. */
  method Pass(cfg: Config, text: string, pos: nat, buf: string, printed: seq<string>, n: nat)
    returns (pos': nat, buf': string, printed': seq<string>)
    requires StreamInv(cfg, text, pos, buf, printed)
    requires pos < |text| && n == ReadLine(text, pos)
    requires printed == [] ==> buf == text[..pos]
    ensures StreamInv(cfg, text, pos', buf', printed')
    ensures pos' == pos + n
    ensures printed' == [] ==> buf' == text[..pos']
  {
    ReadLineSpec(text, pos, n);
    pos' := pos + n;
    assert Terminated(buf) && Search(cfg, buf) == None;
    buf', printed' := SearchAndPrint(cfg, buf, text[pos..pos + n], printed);
    PassOutcome(cfg, text, pos, buf, printed, n, buf', printed');
  }

  /** `run` on a file whose contents are `text`: the lines printed, in order,
      and what is left in the buffer at end of file. Streaming prints exactly
      what one whole-file `search` returns: every matching line once, in file
      order, and nothing else. The buffer, though, is not bounded by one line:
      when nothing in the file matches it ends up holding the whole file. */
  method Run(cfg: Config, text: string) returns (printed: seq<string>, rest: string)
    ensures printed == FilterLines(cfg, Lines(text))
    ensures printed == Emitted(Search(cfg, text))
    ensures printed == [] ==> rest == text
  {
    printed := [];
    var buf: string := [];
    var pos: nat := 0;
    StreamInvInit(cfg, text);
    while true
      invariant StreamInv(cfg, text, pos, buf, printed)
      invariant printed == [] ==> buf == text[..pos]
      decreases |text| - pos
    {
      var n := ReadLine(text, pos);
      if n == 0 {
        break;
      }
      pos, buf, printed := Pass(cfg, text, pos, buf, printed, n);
    }
    StreamInvDone(cfg, text, buf, printed);
    assert text[..pos] == text;
    rest := buf;
  }

  /** One pass of the loop with the buffer cleared whatever the search found:
      the buffer searched is exactly the chunk just read, and what is printed
      is what `search` returns for that chunk alone. */
  method ClearingPass(cfg: Config, text: string, pos: nat, printed: seq<string>, n: nat)
    returns (pos': nat, printed': seq<string>, searched: string)
    requires ClearingInv(cfg, text, pos, printed)
    requires pos < |text| && n == ReadLine(text, pos)
    ensures ClearingInv(cfg, text, pos', printed')
    ensures pos' == pos + n
    ensures searched == text[pos..pos']
    ensures IsChunk(searched)
    ensures pos' < |text| ==> Terminated(searched)
    ensures printed' == printed + Emitted(Search(cfg, searched))
  {
    ReadLineSpec(text, pos, n);
    searched := text[pos..pos + n];
    assert pos + n < |text| ==> Terminated(searched);
    printed' := PrintResult(printed, Search(cfg, searched));
    pos' := pos + n;
    ClearingStep(cfg, text, pos, printed, n, printed');
  }

  /** One pass of the clearing loop together with the record of what it
      searched: the chunk just read is appended to the buffers searched so
      far, which stay the pieces `read_line` cuts the consumed text into. */
  method ClearingRound(cfg: Config, text: string, pos: nat, printed: seq<string>, searched: seq<string>, n: nat)
    returns (pos': nat, printed': seq<string>, searched': seq<string>)
    requires ClearingInv(cfg, text, pos, printed) && searched == Chunks(text[..pos])
    requires pos < |text| && n == ReadLine(text, pos)
    ensures ClearingInv(cfg, text, pos', printed') && searched' == Chunks(text[..pos'])
    ensures pos' == pos + n
    ensures searched' == searched + [text[pos..pos']]
    ensures printed' == printed + Emitted(Search(cfg, text[pos..pos']))
  {
    var buf;
    pos', printed', buf := ClearingPass(cfg, text, pos, printed, n);
    ChunksStep(text, pos, n);
    searched' := searched + [buf];
  }

  /** The loop of `run` with `buf.clear()` on every pass, the `None` arm
      included. The buffers it hands to `search` are exactly the pieces
      `read_line` cuts the file into, in order, and it prints the
      whole-file filter. */
  method ClearingLoop(cfg: Config, text: string) returns (printed: seq<string>, searched: seq<string>)
    ensures searched == Chunks(text)
    ensures printed == FilterLines(cfg, Lines(text))
  {
    printed, searched := [], [];
    var pos: nat := 0;
    assert text[..0] == [];
    while true
      invariant ClearingInv(cfg, text, pos, printed)
      invariant searched == Chunks(text[..pos])
      decreases |text| - pos
    {
      var n := ReadLine(text, pos);
      if n == 0 {
        break;
      }
      pos, printed, searched := ClearingRound(cfg, text, pos, printed, searched, n);
    }
    assert text[..pos] == text;
  }

  /** `run` with the buffer cleared on every pass: the buffers handed to
      `search` are exactly the pieces `read_line` cuts the file into, one at
      a time, so at most one line is held at once. What is printed is what
      `search` returns for those buffers, one after the other, and that is
      the whole-file filter, the lines `run` prints. */
  method RunClearing(cfg: Config, text: string) returns (printed: seq<string>, searched: seq<string>)
    ensures searched == Chunks(text)
    ensures printed == Prints(cfg, searched)
    ensures printed == FilterLines(cfg, Lines(text))
  {
    printed, searched := ClearingLoop(cfg, text);
    PrintsOfChunks(cfg, text);
  }
}
