/** Worked examples: the query "duct", matched case-sensitively against a
    four-line poem whose last line has no terminator; the query "ruST",
    matched case-insensitively against a variant of it; and a two-line file
    in which nothing matches, so that `run` keeps both lines in its
    buffer. */
module Scenario {
  import opened Text
  import opened Match
  import opened Grep
  import opened Stream

  /** The poem, one `read_line` chunk per piece; the last line has no '\n'. */
  const Poem: string := "Rust:" + "\n" + "safe, fast, productive." + "\n" + "Pick three." + "\n" + "Duct Tape"

  /** Its lines, as `str::lines` yields them. */
  const PoemLines: seq<string> := ["Rust:", "safe, fast, productive.", "Pick three.", "Duct Tape"]

  /** Three terminated lines followed by an unterminated one split back into
      the four lines. */
  lemma LinesOfFour(l1: string, l2: string, l3: string, l4: string)
    requires '\n' !in l1 && !EndsWithCr(l1)
    requires '\n' !in l2 && !EndsWithCr(l2)
    requires '\n' !in l3 && !EndsWithCr(l3)
    requires l4 != [] && '\n' !in l4
    ensures Lines(l1 + "\n" + l2 + "\n" + l3 + "\n" + l4) == [l1, l2, l3, l4]
  {
    var s1 := l1 + "\n";
    var s2 := s1 + l2 + "\n";
    var s3 := s2 + l3 + "\n";
    LinesOfTerminatedLine(l1);
    LinesSnoc(s1, l2);
    LinesSnoc(s2, l3);
    ChunkWithoutNewline(l4);
    LinesOfChunk(l4);
    LinesAppend(s3, l4);
  }

  /** The poem splits into its four lines, the last one kept although no '\n'
      ends it. */
  lemma PoemSplits()
    ensures Lines(Poem) == PoemLines
  {
    LinesOfFour("Rust:", "safe, fast, productive.", "Pick three.", "Duct Tape");
  }

  /** Which lines of the poem hold "duct": only the second; "Duct Tape"
      differs in case. */
  lemma DuctMatches(file: string)
    ensures !IsMatch(Config("duct", file, false), PoemLines[0])
    ensures IsMatch(Config("duct", file, false), PoemLines[1])
    ensures !IsMatch(Config("duct", file, false), PoemLines[2])
    ensures !IsMatch(Config("duct", file, false), PoemLines[3])
  {
    NotContainsSomeChar("Rust:", "duct", 0);
    assert OccursAt("safe, fast, productive.", "duct", 15);
    NotContainsSomeChar("Pick three.", "duct", 0);
    NotContainsSomeChar("Duct Tape", "duct", 0);
  }

  /** Searching the poem for "duct", case-sensitively, returns exactly the
      line "safe, fast, productive.". */
  lemma DuctExample(file: string)
    ensures Search(Config("duct", file, false), Poem) == Some(["safe, fast, productive."])
  {
    var cfg := Config("duct", file, false);
    var ls := PoemLines;
    PoemSplits();
    DuctMatches(file);
    assert ls[3..] == [ls[3]] + [];
    FilterCons(cfg, ls[3], []);
    assert FilterLines(cfg, ls[3..]) == [];
    assert ls[2..] == [ls[2]] + ls[3..];
    FilterCons(cfg, ls[2], ls[3..]);
    assert ls[1..] == [ls[1]] + ls[2..];
    FilterCons(cfg, ls[1], ls[2..]);
    assert FilterLines(cfg, ls[1..]) == [ls[1]];
    assert ls == [ls[0]] + ls[1..];
    FilterCons(cfg, ls[0], ls[1..]);
    assert FilterLines(cfg, ls) == [ls[1]];
    assert Lines(Poem) == ls;
    assert ls[1] == "safe, fast, productive.";
  }

  /** The poem with "Trust me." as its last line. */
  const TrustPoem: string := "Rust:" + "\n" + "safe, fast, productive." + "\n" + "Pick three." + "\n" + "Trust me."

  /** Its lines. */
  const TrustPoemLines: seq<string> := ["Rust:", "safe, fast, productive.", "Pick three.", "Trust me."]

  /** The query "ruST" lowercases to "rust". */
  lemma LowerQuery()
    ensures Lower("ruST") == "rust"
  {
  }

  /** "Rust:" lowercases to "rust:", which starts with "rust". */
  lemma RustFirstLine(file: string)
    ensures IsMatch(Config("ruST", file, true), "Rust:")
  {
    LowerQuery();
    assert Lower("Rust:") == "rust:";
    assert OccursAt("rust:", "rust", 0);
  }

  /** "safe, fast, productive." is already lowercase; its one 'r' is
      followed by 'o', so "rust" does not occur in it. */
  lemma RustSecondLine(file: string)
    ensures !IsMatch(Config("ruST", file, true), "safe, fast, productive.")
  {
    var line := "safe, fast, productive.";
    LowerQuery();
    NoUpperLower(line);
    forall i | 0 <= i <= |line| - 4 ensures !OccursAt(line, "rust", i) {
      assert line[i..i + 4][0] == line[i] && line[i..i + 4][1] == line[i + 1];
      if i == 13 {
        assert line[i + 1] == 'o';
      } else {
        assert line[i] != 'r';
      }
    }
  }

  /** "Pick three." lowercases to "pick three.", which has no 'u'. */
  lemma RustThirdLine(file: string)
    ensures !IsMatch(Config("ruST", file, true), "Pick three.")
  {
    LowerQuery();
    assert Lower("Pick three.") == "pick three.";
    NotContainsSomeChar("pick three.", "rust", 1);
  }

  /** "Trust me." lowercases to "trust me.", which holds "rust" from its
      second character on. */
  lemma RustFourthLine(file: string)
    ensures IsMatch(Config("ruST", file, true), "Trust me.")
  {
    LowerQuery();
    assert Lower("Trust me.") == "trust me.";
    assert OccursAt("trust me.", "rust", 1);
  }

  /** The variant splits into its four lines. */
  lemma TrustPoemSplits()
    ensures Lines(TrustPoem) == TrustPoemLines
  {
    LinesOfFour("Rust:", "safe, fast, productive.", "Pick three.", "Trust me.");
  }

  /** Filtering those lines for "ruST" with `ignore_case` keeps the first and
      the last, unchanged. */
  lemma RustFilter(file: string)
    ensures FilterLines(Config("ruST", file, true), TrustPoemLines) == ["Rust:", "Trust me."]
  {
    var cfg := Config("ruST", file, true);
    var ls := TrustPoemLines;
    RustFirstLine(file);
    RustSecondLine(file);
    RustThirdLine(file);
    RustFourthLine(file);
    assert ls[3..] == [ls[3]] + [];
    FilterCons(cfg, ls[3], []);
    assert ls[2..] == [ls[2]] + ls[3..];
    FilterCons(cfg, ls[2], ls[3..]);
    assert ls[1..] == [ls[1]] + ls[2..];
    FilterCons(cfg, ls[1], ls[2..]);
    assert FilterLines(cfg, ls[1..]) == [ls[3]];
    assert ls == [ls[0]] + ls[1..];
    FilterCons(cfg, ls[0], ls[1..]);
  }

  /** Searching that poem for "ruST" with `ignore_case` returns the first and
      the last line, as they appear in the file. */
  lemma RustExample(file: string)
    ensures Search(Config("ruST", file, true), TrustPoem) == Some(["Rust:", "Trust me."])
  {
    TrustPoemSplits();
    RustFilter(file);
  }

  /** The buffer of `run` is not bounded by one line: searching "a\nb\n"
      for "z", the first pass finds nothing and keeps "a\n", so the second
      pass searches a buffer of two lines. */
  lemma UnmatchedLinesStay(file: string)
    ensures Kept(Config("z", file, false), "a" + "\n") == "a" + "\n"
    ensures Lines(Kept(Config("z", file, false), "a" + "\n") + "b" + "\n") == ["a", "b"]
  {
    var cfg := Config("z", file, false);
    LinesOfTerminatedLine("a");
    NotContainsSomeChar("a", "z", 0);
    FilterCons(cfg, "a", []);
    assert ["a"] + [] == ["a"];
    LinesSnoc("a" + "\n", "b");
  }
}
