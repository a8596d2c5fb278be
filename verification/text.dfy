/** Strings as the line reader and the line splitter see them: the chunks
    `read_line` hands out one call at a time, and the splitting `str::lines`
    performs on a whole buffer.

    The functions carry only the contracts their callers need to be well
    formed; what they compute is stated by the lemmas after each of them, and
    the longer proofs are chains of calls to those lemmas. */
module Text {
  import opened Seqs

  /** True when `s` is empty or ends with a line feed, i.e. `s` is a whole
      number of `read_line` chunks with nothing pending. */
  predicate Terminated(s: string) {
    s == [] || s[|s| - 1] == '\n'
  }

  /** Appending a non-empty piece leaves the result terminated exactly when
      the piece is. */
  lemma TerminatedAppend(a: string, b: string)
    requires b != []
    ensures Terminated(a + b) <==> Terminated(b)
  {
  }

  /** Dropping a prefix of a terminated text leaves it terminated. */
  lemma SuffixTerminated(s: string, k: nat)
    requires Terminated(s) && k <= |s|
    ensures Terminated(s[k..])
  {
    if k < |s| {
      assert s[k..][|s| - k - 1] == s[|s| - 1];
    }
  }

  /** A piece one `read_line` call can return: non-empty, and a '\n' in it
      can only be its last character. */
  predicate IsChunk(c: string) {
    c != [] && forall j :: 0 <= j < |c| - 1 ==> c[j] != '\n'
  }

  /** The length of the piece one `read_line` call consumes from the front of
      `s`: up to and including the first '\n', or all of `s` when there is
      none. */
  function ChunkLen(s: string): (n: nat)
    ensures n <= |s|
    ensures n == 0 <==> s == []
  {
    if s == [] then 0
    else if s[0] == '\n' then 1
    else 1 + ChunkLen(s[1..])
  }

  /** The first chunk holds no '\n' before its end, and it stops at a '\n'
      unless it is all of `s`. */
  lemma {:induction false} ChunkLenSpec(s: string)
    requires s != []
    ensures IsChunk(s[..ChunkLen(s)])
    ensures ChunkLen(s) == |s| || Terminated(s[..ChunkLen(s)])
  {
    if s[0] != '\n' && |s| > 1 {
      ChunkLenSpec(s[1..]);
      assert forall j :: 1 <= j < |s| ==> s[j] == s[1..][j - 1];
    }
  }

  /** A text that is a single chunk is consumed whole. */
  lemma {:induction false} ChunkLenOfChunk(c: string)
    requires IsChunk(c)
    ensures ChunkLen(c) == |c|
  {
    if |c| > 1 {
      assert c[0] != '\n';
      assert forall j :: 0 <= j < |c| - 2 ==> c[1..][j] == c[j + 1];
      ChunkLenOfChunk(c[1..]);
    }
  }

  /** The first chunk of a text that ends on a line boundary is not changed
      by appending more text. */
  lemma {:induction false} ChunkLenAppend(a: string, b: string)
    requires a != [] && Terminated(a)
    ensures ChunkLen(a + b) == ChunkLen(a)
  {
    if a[0] != '\n' {
      assert (a + b)[1..] == a[1..] + b;
      ChunkLenAppend(a[1..], b);
    }
  }

  /** The pieces that successive `read_line` calls hand out for the whole of
      `s`, in order. */
  function Chunks(s: string): seq<string>
    decreases |s|
  {
    if s == [] then [] else [s[..ChunkLen(s)]] + Chunks(s[ChunkLen(s)..])
  }

  /** The pieces `read_line` hands out join back to the text; each is a chunk,
      and each but the last ends with '\n'. */
  lemma {:induction false} ChunksCut(s: string)
    ensures Concat(Chunks(s)) == s
    ensures forall c <- Chunks(s) :: IsChunk(c)
    ensures forall k :: 0 <= k < |Chunks(s)| - 1 ==> Terminated(Chunks(s)[k])
    decreases |s|
  {
    if s != [] {
      var n := ChunkLen(s);
      var cs := Chunks(s);
      ChunkLenSpec(s);
      ChunksCut(s[n..]);
      ConcatCons(cs);
      assert cs[0] == s[..n] && cs[1..] == Chunks(s[n..]);
      assert s[..n] + s[n..] == s;
      forall k | 0 <= k < |cs| - 1 ensures Terminated(cs[k]) {
        if k > 0 {
          assert cs[k] == Chunks(s[n..])[k - 1];
        } else {
          assert n < |s|;
        }
      }
    }
  }

  /** Conversely, any cut of `s` into chunks that all but the last end with
      '\n' is the cut `read_line` makes. */
  lemma {:induction false} CutIsChunks(ss: seq<string>, s: string)
    requires Concat(ss) == s
    requires forall c <- ss :: IsChunk(c)
    requires forall k :: 0 <= k < |ss| - 1 ==> Terminated(ss[k])
    ensures ss == Chunks(s)
    decreases |ss|
  {
    if ss != [] {
      var c, rest := ss[0], ss[1..];
      ConcatCons(ss);
      assert c in ss;
      ChunkLenOfChunk(c);
      if |ss| > 1 {
        assert Terminated(ss[0]);
        ChunkLenAppend(c, Concat(rest));
      } else {
        assert rest == [] && s == c;
      }
      assert s[..|c|] == c && s[|c|..] == Concat(rest);
      forall c' <- rest ensures IsChunk(c') {
        assert c' in ss;
      }
      forall k | 0 <= k < |rest| - 1 ensures Terminated(rest[k]) {
        assert rest[k] == ss[k + 1];
      }
      CutIsChunks(rest, Concat(rest));
    }
  }

  /** Reading one more chunk after a text that ends with '\n' adds exactly
      that chunk to the cut `read_line` makes. */
  lemma ChunksSnoc(s: string, c: string)
    requires Terminated(s) && IsChunk(c)
    ensures Chunks(s + c) == Chunks(s) + [c]
  {
    var cs := Chunks(s);
    ChunksCut(s);
    ConcatSnoc(cs, c);
    forall k | 0 <= k < |cs + [c]| - 1 ensures Terminated((cs + [c])[k]) {
      assert (cs + [c])[k] == cs[k];
      if k == |cs| - 1 {
        assert cs[k] in cs;
        TerminatedAppend(Concat(cs[..k]), cs[k]);
      }
    }
    CutIsChunks(cs + [c], s + c);
  }

  /** The same, for a text read up to `pos` and the chunk read next. */
  lemma ChunksStep(text: string, pos: nat, n: nat)
    requires pos + n <= |text|
    requires Terminated(text[..pos]) && IsChunk(text[pos..pos + n])
    ensures Chunks(text[..pos + n]) == Chunks(text[..pos]) + [text[pos..pos + n]]
  {
    assert text[..pos + n] == text[..pos] + text[pos..pos + n];
    ChunksSnoc(text[..pos], text[pos..pos + n]);
  }

  /** True when `s` ends in a carriage return. */
  predicate EndsWithCr(s: string) {
    s != [] && s[|s| - 1] == '\r'
  }

  /** The line a chunk carries: a trailing '\n' is removed and, only when it
      was, one '\r' just before it as well. An unterminated chunk is kept
      whole, '\r' included. */
  function LineOf(c: string): string
  {
    if c != [] && c[|c| - 1] == '\n' then
      var body := c[..|c| - 1];
      if EndsWithCr(body) then body[..|body| - 1] else body
    else c
  }

  /** The terminator `LineOf` removes from a chunk: "\r\n", "\n" or nothing. */
  function Terminator(c: string): string
  {
    if c == [] || !Terminated(c) then ""
    else if EndsWithCr(c[..|c| - 1]) then "\r\n"
    else "\n"
  }

  /** A chunk is its line followed by its terminator, and the line holds no
      '\n'. */
  lemma LineOfSpec(c: string)
    requires IsChunk(c)
    ensures LineOf(c) + Terminator(c) == c
    ensures '\n' !in LineOf(c)
  {
    var l := LineOf(c);
    assert forall j :: 0 <= j < |l| ==> l[j] == c[j];
  }

  /** A line without '\n' and not ending in '\r', terminated by '\n', is a
      chunk whose line is the line itself. */
  lemma LineOfTerminatedLine(l: string)
    requires '\n' !in l && !EndsWithCr(l)
    ensures IsChunk(l + "\n") && Terminated(l + "\n")
    ensures LineOf(l + "\n") == l
  {
    var c := l + "\n";
    assert c[..|c| - 1] == l;
    forall j | 0 <= j < |c| - 1 ensures c[j] != '\n' {
      assert c[j] == l[j];
    }
  }

  /** The lines of `s`, as Rust's `str::lines` yields them: chunk by chunk,
      terminators dropped, no empty element for a final '\n'. */
  function Lines(s: string): seq<string>
    decreases |s|
  {
    if s == [] then []
    else
      var n := ChunkLen(s);
      [LineOf(s[..n])] + Lines(s[n..])
  }

  /** One step of `Lines`: the line of the first chunk, then the lines of the
      rest. */
  lemma LinesCons(s: string)
    requires s != []
    ensures Lines(s) == [LineOf(s[..ChunkLen(s)])] + Lines(s[ChunkLen(s)..])
  {
  }

  /** An empty text has no lines, any other text has at least one, and no
      line holds a '\n'. */
  lemma {:induction false} LinesSpec(s: string)
    ensures Lines(s) == [] <==> s == []
    ensures forall k :: 0 <= k < |Lines(s)| ==> '\n' !in Lines(s)[k]
    decreases |s|
  {
    if s != [] {
      var n := ChunkLen(s);
      ChunkLenSpec(s);
      LineOfSpec(s[..n]);
      LinesSpec(s[n..]);
      LinesCons(s);
      var rest := Lines(s[n..]);
      forall k | 0 <= k < |Lines(s)| ensures '\n' !in Lines(s)[k] {
        if k > 0 {
          assert Lines(s)[k] == rest[k - 1];
        }
      }
    }
  }

  /** A single `read_line` chunk holds exactly one line. */
  lemma LinesOfChunk(c: string)
    requires IsChunk(c)
    ensures Lines(c) == [LineOf(c)]
  {
    ChunkLenOfChunk(c);
    LinesCons(c);
    assert c[..|c|] == c;
    assert c[|c|..] == [];
  }

  /** Splitting distributes over concatenation when the first part ends on a
      line boundary: reading `a` and then `b` yields the lines of `a` and then
      those of `b`, with no line glued across the seam. */
  lemma {:induction false} LinesAppend(a: string, b: string)
    requires Terminated(a)
    ensures Lines(a + b) == Lines(a) + Lines(b)
    decreases |a|
  {
    if a == [] {
      assert a + b == b;
    } else {
      var n := ChunkLen(a);
      ChunkLenAppend(a, b);
      SplitAppend(a, b, n);
      SuffixTerminated(a, n);
      LinesAppend(a[n..], b);
      LinesCons(a);
      LinesCons(a + b);
      AppendAssoc([LineOf(a[..n])], Lines(a[n..]), Lines(b));
    }
  }

  /** A non-empty text without '\n' is one unterminated chunk. */
  lemma ChunkWithoutNewline(c: string)
    requires c != [] && '\n' !in c
    ensures IsChunk(c)
  {
    forall j | 0 <= j < |c| - 1 ensures c[j] != '\n' {
      assert c[j] in c;
    }
  }

  /** The lines of a line terminated by '\n' are that line alone. */
  lemma LinesOfTerminatedLine(l: string)
    requires '\n' !in l && !EndsWithCr(l)
    ensures Lines(l + "\n") == [l]
    ensures Terminated(l + "\n")
  {
    LineOfTerminatedLine(l);
    LinesOfChunk(l + "\n");
  }

  /** Appending one more terminated line to a text that ends on a line
      boundary appends that line to its lines. */
  lemma LinesSnoc(s: string, l: string)
    requires Terminated(s)
    requires '\n' !in l && !EndsWithCr(l)
    ensures Lines(s + l + "\n") == Lines(s) + [l]
    ensures Terminated(s + l + "\n")
  {
    AppendAssoc(s, l, "\n");
    LinesOfTerminatedLine(l);
    LinesAppend(s, l + "\n");
    TerminatedAppend(s, l + "\n");
  }

  /** `s` with `f` applied to each character, as a case mapping applies
      character by character. */
  function MapChars(f: char -> char, s: string): string
  {
    seq(|s|, i requires 0 <= i < |s| => f(s[i]))
  }

  /** A character mapping that leaves line feeds and carriage returns where
      they are: it fixes both and maps no other character onto either. */
  predicate KeepsBreaks(f: char -> char) {
    f('\n') == '\n' && f('\r') == '\r' &&
    forall c :: c != '\n' && c != '\r' ==> f(c) != '\n' && f(c) != '\r'
  }

  /** Mapping the characters of a text by such a mapping does not move where
      `read_line` stops. */
  lemma {:induction false} MapChunkLen(f: char -> char, s: string)
    requires KeepsBreaks(f)
    ensures ChunkLen(MapChars(f, s)) == ChunkLen(s)
    decreases |s|
  {
    if s != [] {
      var m := MapChars(f, s);
      assert m[0] == f(s[0]);
      assert m[1..] == MapChars(f, s[1..]);
      MapChunkLen(f, s[1..]);
    }
  }

  /** Mapping the characters of a chunk maps its line. */
  lemma MapLineOf(f: char -> char, c: string)
    requires KeepsBreaks(f)
    ensures LineOf(MapChars(f, c)) == MapChars(f, LineOf(c))
  {
    var m := MapChars(f, c);
    if c != [] && c[|c| - 1] == '\n' {
      var body := c[..|c| - 1];
      assert m[..|m| - 1] == MapChars(f, body);
      if EndsWithCr(body) {
        assert MapChars(f, body)[..|body| - 1] == MapChars(f, body[..|body| - 1]);
      }
    } else if c != [] {
      assert m[|m| - 1] == f(c[|c| - 1]);
    }
  }

  /** Mapping the characters of a text by a mapping that keeps line breaks
      maps each of its lines and keeps their number. */
  lemma {:induction false} MapLines(f: char -> char, s: string)
    requires KeepsBreaks(f)
    ensures |Lines(MapChars(f, s))| == |Lines(s)|
    ensures forall k :: 0 <= k < |Lines(s)| ==> Lines(MapChars(f, s))[k] == MapChars(f, Lines(s)[k])
    decreases |s|
  {
    if s != [] {
      var m := MapChars(f, s);
      var n := ChunkLen(s);
      MapChunkLen(f, s);
      ChunkLenSpec(s);
      assert m[..n] == MapChars(f, s[..n]);
      assert m[n..] == MapChars(f, s[n..]);
      MapLineOf(f, s[..n]);
      MapLines(f, s[n..]);
      LinesCons(s);
      LinesCons(m);
      forall k | 0 <= k < |Lines(s)| ensures Lines(m)[k] == MapChars(f, Lines(s)[k]) {
        if k > 0 {
          assert Lines(m)[k] == Lines(m[n..])[k - 1];
          assert Lines(s)[k] == Lines(s[n..])[k - 1];
        }
      }
    }
  }

  /** Each line followed by '\n': the text whose `Lines` are `ls`. */
  function Unlines(ls: seq<string>): string
  {
    if ls == [] then [] else ls[0] + "\n" + Unlines(ls[1..])
  }

  /** One step of `Unlines`. */
  lemma UnlinesCons(l: string, ls: seq<string>)
    ensures Unlines([l] + ls) == l + "\n" + Unlines(ls)
  {
    assert ([l] + ls)[1..] == ls;
  }

  /** Round trip one way: terminating every line with '\n' and splitting again
      gives the lines back, as long as no line holds a '\n' or ends in a '\r'
      (which the splitter would take for part of a "\r\n" terminator). */
  lemma {:induction false} LinesOfUnlines(ls: seq<string>)
    requires forall k :: 0 <= k < |ls| ==> '\n' !in ls[k] && !EndsWithCr(ls[k])
    ensures Lines(Unlines(ls)) == ls
  {
    if ls != [] {
      var l := ls[0];
      LineOfTerminatedLine(l);
      LinesOfChunk(l + "\n");
      LinesAppend(l + "\n", Unlines(ls[1..]));
      LinesOfUnlines(ls[1..]);
      UnlinesCons(l, ls[1..]);
      assert ls == [l] + ls[1..];
    }
  }

  /** No '\r' stands directly before a '\n' in `s`: the splitter removes
      nothing but the '\n' terminators. */
  predicate NoCrLf(s: string) {
    forall j :: 0 <= j < |s| - 1 ==> !CrLfAt(s, j)
  }

  /** `s` holds "\r\n" starting at position `j`. */
  predicate CrLfAt(s: string, j: nat)
    requires j < |s| - 1
  {
    s[j] == '\r' && s[j + 1] == '\n'
  }

  /** A prefix of a text without "\r\n" has none either. */
  lemma NoCrLfPrefix(s: string, k: nat)
    requires NoCrLf(s) && k <= |s|
    ensures NoCrLf(s[..k])
  {
    forall j | 0 <= j < k - 1 ensures !CrLfAt(s[..k], j) {
      assert !CrLfAt(s, j);
      assert s[..k][j] == s[j] && s[..k][j + 1] == s[j + 1];
    }
  }

  /** So has a suffix. */
  lemma NoCrLfSuffix(s: string, i: nat)
    requires NoCrLf(s) && i <= |s|
    ensures NoCrLf(s[i..])
  {
    forall j | 0 <= j < |s| - i - 1 ensures !CrLfAt(s[i..], j) {
      assert !CrLfAt(s, i + j);
      assert s[i..][j] == s[i + j] && s[i..][j + 1] == s[i + j + 1];
    }
  }

  /** A terminated chunk without "\r\n" is its line followed by "\n". */
  lemma ChunkOfNoCrLf(c: string)
    requires IsChunk(c) && Terminated(c)
    requires NoCrLf(c)
    ensures LineOf(c) + "\n" == c
  {
    LineOfSpec(c);
    if |c| >= 2 {
      var j := |c| - 2;
      assert c[..|c| - 1][j] == c[j];
      assert c[j + 1] == '\n';
      assert !CrLfAt(c, j);
    }
  }

  /** Cutting the first chunk off a terminated text without "\r\n" leaves a
      terminated chunk and a terminated rest, neither with "\r\n". */
  lemma NoCrLfChunkSplit(s: string, n: nat)
    requires s != [] && Terminated(s)
    requires NoCrLf(s)
    requires n == ChunkLen(s)
    ensures IsChunk(s[..n]) && Terminated(s[..n])
    ensures NoCrLf(s[..n])
    ensures Terminated(s[n..]) && NoCrLf(s[n..])
  {
    ChunkLenSpec(s);
    assert n == |s| ==> s[..n] == s;
    SuffixTerminated(s, n);
    NoCrLfPrefix(s, n);
    NoCrLfSuffix(s, n);
  }

  /** Round trip the other way: a text made of whole lines, with no '\r'
      directly before a '\n', is rebuilt exactly from its lines. */
  lemma {:induction false} UnlinesOfLines(s: string)
    requires Terminated(s)
    requires NoCrLf(s)
    ensures Unlines(Lines(s)) == s
    decreases |s|
  {
    if s != [] {
      var n := ChunkLen(s);
      NoCrLfChunkSplit(s, n);
      ChunkOfNoCrLf(s[..n]);
      UnlinesOfLines(s[n..]);
      LinesCons(s);
      UnlinesCons(LineOf(s[..n]), Lines(s[n..]));
      assert Unlines(Lines(s)) == s[..n] + s[n..];
      assert s[..n] + s[n..] == s;
    }
  }
}
