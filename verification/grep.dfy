/** The line filter `search` of minigrep: the lines of a buffer that contain
    the query, either literally or after lowercasing both sides. */
module Grep {
  import opened Text
  import opened Match
  import opened Seqs

  /** The run configuration: the query, the path of the file to search and
      whether case is ignored. */
  datatype Config = Config(query: string, file: string, ignoreCase: bool)

  /** Rust's `Option`. */
  datatype Option<T> = None | Some(value: T)

  /** The test `search` applies to one line. With `ignoreCase` both the line
      and the query are lowercased first; otherwise the comparison is literal. */
  predicate IsMatch(cfg: Config, line: string) {
    if cfg.ignoreCase then Contains(Lower(line), Lower(cfg.query))
    else Contains(line, cfg.query)
  }

  /** The loop of `search`: walk the lines in order and push each one that
      passes `IsMatch`, unchanged. */
  function FilterLines(cfg: Config, lines: seq<string>): (r: seq<string>)
    ensures |r| <= |lines|
  {
    if lines == [] then []
    else (if IsMatch(cfg, lines[0]) then [lines[0]] else []) + FilterLines(cfg, lines[1..])
  }

  /** One step of the filter. */
  lemma FilterCons(cfg: Config, l: string, ls: seq<string>)
    ensures FilterLines(cfg, [l] + ls) ==
            (if IsMatch(cfg, l) then [l] else []) + FilterLines(cfg, ls)
  {
    assert ([l] + ls)[1..] == ls;
  }

  /** Soundness of the filter: every kept element is one of the lines, as it
      was, and passes the test. */
  lemma {:induction false} FilterSound(cfg: Config, lines: seq<string>)
    ensures forall l :: l in FilterLines(cfg, lines) ==> l in lines && IsMatch(cfg, l)
  {
    if lines != [] {
      FilterSound(cfg, lines[1..]);
      FilterCons(cfg, lines[0], lines[1..]);
      HeadTail(lines);
    }
  }

  /** Completeness of the filter: every matching line is kept. */
  lemma {:induction false} FilterComplete(cfg: Config, lines: seq<string>)
    ensures forall l :: l in lines && IsMatch(cfg, l) ==> l in FilterLines(cfg, lines)
  {
    if lines != [] {
      FilterComplete(cfg, lines[1..]);
      FilterCons(cfg, lines[0], lines[1..]);
      HeadTail(lines);
    }
  }

  /** The filter comes back empty exactly when no line passes the test. */
  lemma FilterEmptyIff(cfg: Config, lines: seq<string>)
    ensures FilterLines(cfg, lines) == [] <==> forall l :: l in lines ==> !IsMatch(cfg, l)
  {
    FilterSound(cfg, lines);
    FilterComplete(cfg, lines);
    if FilterLines(cfg, lines) != [] {
      assert FilterLines(cfg, lines)[0] in FilterLines(cfg, lines);
    }
  }

  /** `search`: the matching lines of `content`, in order, or `None` when
      there are none. */
  function Search(cfg: Config, content: string): (r: Option<seq<string>>)
    ensures r.Some? ==> r.value != [] && |r.value| <= |Lines(content)|
  {
    var v := FilterLines(cfg, Lines(content));
    if |v| > 0 then Some(v) else None
  }

  /** `search` answers `None` exactly when no line of the content passes the
      test, and a `Some` it returns is never empty. */
  lemma SearchNoneIff(cfg: Config, content: string)
    ensures Search(cfg, content).None? <==> forall l :: l in Lines(content) ==> !IsMatch(cfg, l)
    ensures Search(cfg, content).Some? ==> Search(cfg, content).value != []
  {
    FilterEmptyIff(cfg, Lines(content));
  }

  /** Soundness of `search`: every returned element is a line of the content,
      as it appears there, and passes the test; every line that passes is
      returned. */
  lemma SearchSound(cfg: Config, content: string)
    ensures Search(cfg, content).Some? ==>
              forall l :: l in Search(cfg, content).value <==> l in Lines(content) && IsMatch(cfg, l)
  {
    FilterSound(cfg, Lines(content));
    FilterComplete(cfg, Lines(content));
  }

  /** Reference definition: the positions in `lines[from..]` whose line
      matches, in ascending order. */
  function MatchIndices(cfg: Config, lines: seq<string>, from: nat): (idx: seq<nat>)
    requires from <= |lines|
    ensures forall k :: 0 <= k < |idx| ==> from <= idx[k] < |lines|
    decreases |lines| - from
  {
    if from == |lines| then []
    else if IsMatch(cfg, lines[from]) then [from] + MatchIndices(cfg, lines, from + 1)
    else MatchIndices(cfg, lines, from + 1)
  }

  /** Every reference position holds a matching line. */
  lemma {:induction false} MatchIndicesMatch(cfg: Config, lines: seq<string>, from: nat)
    requires from <= |lines|
    ensures forall k :: 0 <= k < |MatchIndices(cfg, lines, from)| ==>
              IsMatch(cfg, lines[MatchIndices(cfg, lines, from)[k]])
    decreases |lines| - from
  {
    if from < |lines| {
      var rest := MatchIndices(cfg, lines, from + 1);
      MatchIndicesMatch(cfg, lines, from + 1);
      if IsMatch(cfg, lines[from]) {
        var idx := [from] + rest;
        assert MatchIndices(cfg, lines, from) == idx;
        assert forall k :: 1 <= k < |idx| ==> idx[k] == rest[k - 1];
      } else {
        assert MatchIndices(cfg, lines, from) == rest;
      }
    }
  }

  /** The reference positions are strictly ascending. */
  lemma {:induction false} MatchIndicesAscending(cfg: Config, lines: seq<string>, from: nat)
    requires from <= |lines|
    ensures forall k :: 0 <= k < |MatchIndices(cfg, lines, from)| - 1 ==>
              MatchIndices(cfg, lines, from)[k] < MatchIndices(cfg, lines, from)[k + 1]
    decreases |lines| - from
  {
    if from < |lines| {
      var rest := MatchIndices(cfg, lines, from + 1);
      MatchIndicesAscending(cfg, lines, from + 1);
      if IsMatch(cfg, lines[from]) {
        var idx := [from] + rest;
        assert MatchIndices(cfg, lines, from) == idx;
        forall k | 0 <= k < |idx| - 1 ensures idx[k] < idx[k + 1] {
          assert idx[k + 1] == rest[k];
          if k > 0 {
            assert idx[k] == rest[k - 1];
          }
        }
      } else {
        assert MatchIndices(cfg, lines, from) == rest;
      }
    }
  }

  /** Every matching position is a reference position. */
  lemma {:induction false} MatchIndicesComplete(cfg: Config, lines: seq<string>, from: nat)
    requires from <= |lines|
    ensures forall i :: from <= i < |lines| && IsMatch(cfg, lines[i]) ==> i in MatchIndices(cfg, lines, from)
    decreases |lines| - from
  {
    if from < |lines| {
      var rest := MatchIndices(cfg, lines, from + 1);
      MatchIndicesComplete(cfg, lines, from + 1);
      if IsMatch(cfg, lines[from]) {
        assert MatchIndices(cfg, lines, from) == [from] + rest;
      } else {
        assert MatchIndices(cfg, lines, from) == rest;
      }
    }
  }

  /** The lines found at the positions `idx`, in the order of `idx`. */
  function Gather(lines: seq<string>, idx: seq<nat>): (r: seq<string>)
    requires forall k :: 0 <= k < |idx| ==> idx[k] < |lines|
    ensures |r| == |idx|
  {
    seq(|idx|, k requires 0 <= k < |idx| => lines[idx[k]])
  }

  /** Gathering at one more leading position puts that line first. */
  lemma GatherCons(lines: seq<string>, i: nat, idx: seq<nat>)
    requires i < |lines|
    requires forall k :: 0 <= k < |idx| ==> idx[k] < |lines|
    ensures Gather(lines, [i] + idx) == [lines[i]] + Gather(lines, idx)
  {
    var r := Gather(lines, [i] + idx);
    assert forall k :: 1 <= k < |r| ==> r[k] == Gather(lines, idx)[k - 1];
  }

  /** The filter keeps exactly the lines at the reference positions, in file
      order: `FilterLines(cfg, lines[from..])` is `lines` read at
      `MatchIndices(cfg, lines, from)`. */
  lemma {:induction false} FilterIsMatchIndicesFrom(cfg: Config, lines: seq<string>, from: nat)
    requires from <= |lines|
    ensures FilterLines(cfg, lines[from..]) == Gather(lines, MatchIndices(cfg, lines, from))
    decreases |lines| - from
  {
    if from == |lines| {
      assert lines[from..] == [];
    } else {
      var rest := MatchIndices(cfg, lines, from + 1);
      FilterIsMatchIndicesFrom(cfg, lines, from + 1);
      assert lines[from..] == [lines[from]] + lines[from + 1..];
      FilterCons(cfg, lines[from], lines[from + 1..]);
      if IsMatch(cfg, lines[from]) {
        GatherCons(lines, from, rest);
      }
    }
  }

  /** Completeness and order of `search` in one statement: the result holds
      the lines at exactly the matching positions, in ascending order. */
  lemma SearchSelectsMatchingLines(cfg: Config, content: string)
    ensures var ls := Lines(content);
            var idx := MatchIndices(cfg, ls, 0);
            match Search(cfg, content)
            case None => idx == []
            case Some(v) => |v| == |idx| && forall k :: 0 <= k < |v| ==> v[k] == ls[idx[k]]
  {
    var ls := Lines(content);
    FilterIsMatchIndicesFrom(cfg, ls, 0);
    assert ls[0..] == ls;
  }

  /** Filtering distributes over concatenation of line lists. */
  lemma {:induction false} FilterAppend(cfg: Config, xs: seq<string>, ys: seq<string>)
    ensures FilterLines(cfg, xs + ys) == FilterLines(cfg, xs) + FilterLines(cfg, ys)
  {
    if xs == [] {
      assert xs + ys == ys;
    } else {
      var h := if IsMatch(cfg, xs[0]) then [xs[0]] else [];
      FilterAppend(cfg, xs[1..], ys);
      ConsAppend(xs, ys);
      HeadTail(xs);
      FilterCons(cfg, xs[0], xs[1..] + ys);
      FilterCons(cfg, xs[0], xs[1..]);
      AppendAssoc(h, FilterLines(cfg, xs[1..]), FilterLines(cfg, ys));
    }
  }

  /** When every line passes, the filter is the identity. */
  lemma {:induction false} FilterAllMatch(cfg: Config, lines: seq<string>)
    requires forall l :: l in lines ==> IsMatch(cfg, l)
    ensures FilterLines(cfg, lines) == lines
  {
    if lines != [] {
      HeadTail(lines);
      FilterAllMatch(cfg, lines[1..]);
      FilterCons(cfg, lines[0], lines[1..]);
    }
  }

  /** An empty query matches every line, so `search` returns all lines, and
      `None` only for an empty buffer. */
  lemma SearchEmptyQuery(cfg: Config, content: string)
    requires cfg.query == ""
    ensures Search(cfg, content) == if content == [] then None else Some(Lines(content))
  {
    var ls := Lines(content);
    forall l | l in ls ensures IsMatch(cfg, l) {
      ContainsEmpty(l);
      ContainsEmpty(Lower(l));
    }
    FilterAllMatch(cfg, ls);
    LinesSpec(content);
  }

  /** Every returned line is free of '\n': `lines()` strips the terminators. */
  lemma SearchNoNewline(cfg: Config, content: string)
    ensures Search(cfg, content).Some? ==>
              forall l :: l in Search(cfg, content).value ==> '\n' !in l
  {
    LinesSpec(content);
    FilterSound(cfg, Lines(content));
  }

  /** With `ignoreCase` a line is kept exactly when its lowercase form holds
      the lowercase query, and the kept element is the original line. */
  lemma IgnoreCaseKeepsOriginalLines(cfg: Config, lines: seq<string>)
    requires cfg.ignoreCase
    ensures forall l :: l in FilterLines(cfg, lines) <==>
              l in lines && Contains(Lower(l), Lower(cfg.query))
  {
    FilterSound(cfg, lines);
    FilterComplete(cfg, lines);
  }

  /** Ignoring case never loses a match: the case-insensitive result has
      every line the case-sensitive result has, and at least as many lines. */
  lemma {:induction false} IgnoreCaseFindsMore(query: string, file: string, lines: seq<string>)
    ensures var exact := FilterLines(Config(query, file, false), lines);
            var folded := FilterLines(Config(query, file, true), lines);
            |exact| <= |folded| && forall l :: l in exact ==> l in folded
  {
    var cs := Config(query, file, false);
    var ci := Config(query, file, true);
    if lines != [] {
      IgnoreCaseFindsMore(query, file, lines[1..]);
      if IsMatch(cs, lines[0]) {
        ContainsLower(lines[0], query);
      }
      HeadTail(lines);
      FilterCons(cs, lines[0], lines[1..]);
      FilterCons(ci, lines[0], lines[1..]);
    }
  }

  /** Two configurations that accept the same lines filter alike. */
  lemma {:induction false} FilterSameTest(c1: Config, c2: Config, lines: seq<string>)
    requires forall l :: l in lines ==> (IsMatch(c1, l) <==> IsMatch(c2, l))
    ensures FilterLines(c1, lines) == FilterLines(c2, lines)
  {
    if lines != [] {
      HeadTail(lines);
      FilterSameTest(c1, c2, lines[1..]);
      FilterCons(c1, lines[0], lines[1..]);
      FilterCons(c2, lines[0], lines[1..]);
    }
  }

  /** A case-insensitive search does not depend on the case of the query. */
  lemma IgnoreCaseQueryCaseIrrelevant(cfg: Config, content: string)
    requires cfg.ignoreCase
    ensures Search(cfg, content) == Search(cfg.(query := Lower(cfg.query)), content)
  {
    LowerIdempotent(cfg.query);
    FilterSameTest(cfg, cfg.(query := Lower(cfg.query)), Lines(content));
  }

  /** Uppercasing the query does not change a case-insensitive search. */
  lemma IgnoreCaseQueryUpper(cfg: Config, content: string)
    requires cfg.ignoreCase
    ensures Search(cfg.(query := Upper(cfg.query)), content) == Search(cfg, content)
  {
    LowerUpper(cfg.query);
    FilterSameTest(cfg, cfg.(query := Upper(cfg.query)), Lines(content));
  }

  /** A case-insensitive test does not depend on the case of the line. */
  lemma IgnoreCaseLineCaseIrrelevant(cfg: Config, line: string)
    requires cfg.ignoreCase
    ensures IsMatch(cfg, Lower(line)) <==> IsMatch(cfg, line)
    ensures IsMatch(cfg, Upper(line)) <==> IsMatch(cfg, line)
  {
    LowerIdempotent(line);
    LowerUpper(line);
  }

  /** Two line lists of the same length whose lines pass the test alike at
      every position have the same matching positions. */
  lemma {:induction false} MatchIndicesSameTest(cfg: Config, l1: seq<string>, l2: seq<string>, from: nat)
    requires |l1| == |l2| && from <= |l1|
    requires forall k :: 0 <= k < |l1| ==> (IsMatch(cfg, l1[k]) <==> IsMatch(cfg, l2[k]))
    ensures MatchIndices(cfg, l1, from) == MatchIndices(cfg, l2, from)
    decreases |l1| - from
  {
    if from < |l1| {
      MatchIndicesSameTest(cfg, l1, l2, from + 1);
    }
  }

  /** Lowering or uppercasing the whole content does not change which lines a
      case-insensitive search selects: the matching positions are the same. */
  lemma IgnoreCaseContentCaseIrrelevant(cfg: Config, content: string)
    requires cfg.ignoreCase
    ensures MatchIndices(cfg, Lines(Lower(content)), 0) == MatchIndices(cfg, Lines(content), 0)
    ensures MatchIndices(cfg, Lines(Upper(content)), 0) == MatchIndices(cfg, Lines(content), 0)
  {
    var ls := Lines(content);
    assert Lower(content) == MapChars(LowerChar, content);
    assert Upper(content) == MapChars(UpperChar, content);
    MapLines(LowerChar, content);
    MapLines(UpperChar, content);
    forall k | 0 <= k < |ls|
      ensures IsMatch(cfg, Lines(Lower(content))[k]) <==> IsMatch(cfg, ls[k])
      ensures IsMatch(cfg, Lines(Upper(content))[k]) <==> IsMatch(cfg, ls[k])
    {
      assert MapChars(LowerChar, ls[k]) == Lower(ls[k]);
      assert MapChars(UpperChar, ls[k]) == Upper(ls[k]);
      IgnoreCaseLineCaseIrrelevant(cfg, ls[k]);
    }
    MatchIndicesSameTest(cfg, Lines(Lower(content)), ls, 0);
    MatchIndicesSameTest(cfg, Lines(Upper(content)), ls, 0);
  }
}
