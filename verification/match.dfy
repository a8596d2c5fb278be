/** The tests `search` applies to a line: literal substring containment, as
    `str::contains` decides it, and the lowercasing used for case-insensitive
    matching. */
module Match {

  /** `q` occurs in `s` starting at index `i`. */
  predicate OccursAt(s: string, q: string, i: int) {
    0 <= i && i + |q| <= |s| && s[i..i + |q|] == q
  }

  /** `s` contains `q` as a contiguous piece. */
  predicate Contains(s: string, q: string) {
    exists i :: 0 <= i <= |s| - |q| && OccursAt(s, q, i)
  }

  /** Containment decided by trying every start position in turn: the answer
      of `str::contains`, computed by a plain scan. */
  method ContainsScan(s: string, q: string) returns (found: bool)
    ensures found <==> Contains(s, q)
  {
    if |q| > |s| {
      return false;
    }
    var i := 0;
    while i <= |s| - |q|
      invariant 0 <= i <= |s| - |q| + 1
      invariant forall j :: 0 <= j < i ==> !OccursAt(s, q, j)
    {
      if s[i..i + |q|] == q {
        assert OccursAt(s, q, i);
        return true;
      }
      i := i + 1;
    }
    return false;
  }

  /** The empty query is contained in every string. */
  lemma ContainsEmpty(s: string)
    ensures Contains(s, "")
  {
    assert OccursAt(s, "", 0);
  }

  /** A query longer than the line is never contained in it. */
  lemma ContainsTooLong(s: string, q: string)
    requires |q| > |s|
    ensures !Contains(s, q)
  {
  }

  /** A line lacking any one character of the query does not contain the
      query. */
  lemma NotContainsSomeChar(s: string, q: string, j: nat)
    requires j < |q| && q[j] !in s
    ensures !Contains(s, q)
  {
    forall i | 0 <= i <= |s| - |q| ensures !OccursAt(s, q, i) {
      assert s[i + j] in s;
      assert s[i..i + |q|][j] == s[i + j];
    }
  }

  /** ASCII lowercasing of one character; other characters are unchanged. */
  function LowerChar(c: char): char {
    if 'A' <= c <= 'Z' then (c as int - 'A' as int + 'a' as int) as char else c
  }

  /** Lowering a character twice is lowering it once, and the result is never
      an upper-case ASCII letter. */
  lemma LowerCharSpec(c: char)
    ensures LowerChar(LowerChar(c)) == LowerChar(c)
    ensures !('A' <= LowerChar(c) <= 'Z')
  {
  }

  /** Lowering a string with no upper-case ASCII letter leaves it as it is. */
  lemma NoUpperLower(s: string)
    requires forall c <- s :: !('A' <= c <= 'Z')
    ensures Lower(s) == s
  {
    forall i | 0 <= i < |s| ensures Lower(s)[i] == s[i] {
      assert s[i] in s;
    }
  }

  /** Character-wise lowercasing of a string. */
  function Lower(s: string): (r: string)
    ensures |r| == |s|
  {
    seq(|s|, i requires 0 <= i < |s| => LowerChar(s[i]))
  }

  /** Lowering twice is lowering once. */
  lemma LowerIdempotent(s: string)
    ensures Lower(Lower(s)) == Lower(s)
  {
    forall i | 0 <= i < |s| ensures Lower(Lower(s))[i] == Lower(s)[i] {
      LowerCharSpec(s[i]);
    }
  }

  /** Lowering commutes with taking a slice. */
  lemma LowerSlice(s: string, i: int, j: int)
    requires 0 <= i <= j <= |s|
    ensures Lower(s[i..j]) == Lower(s)[i..j]
  {
    forall k | 0 <= k < j - i ensures Lower(s[i..j])[k] == Lower(s)[i..j][k] {
      assert s[i..j][k] == s[i + k];
    }
  }

  /** ASCII uppercasing of one character; other characters are unchanged. */
  function UpperChar(c: char): char {
    if 'a' <= c <= 'z' then (c as int - 'a' as int + 'A' as int) as char else c
  }

  /** Character-wise uppercasing of a string. */
  function Upper(s: string): (r: string)
    ensures |r| == |s|
  {
    seq(|s|, i requires 0 <= i < |s| => UpperChar(s[i]))
  }

  /** Lowering an uppercased string gives the lowercase form of the original:
      uppercasing loses nothing that lowering keeps. */
  lemma LowerUpper(s: string)
    ensures Lower(Upper(s)) == Lower(s)
  {
    forall i | 0 <= i < |s| ensures Lower(Upper(s))[i] == Lower(s)[i] {
      assert Upper(s)[i] == UpperChar(s[i]);
    }
  }

  /** A case-sensitive occurrence is also a case-insensitive one, at the same
      index. */
  lemma OccursLower(s: string, q: string, i: int)
    requires OccursAt(s, q, i)
    ensures OccursAt(Lower(s), Lower(q), i)
  {
    LowerSlice(s, i, i + |q|);
  }

  /** A case-sensitive match is also a case-insensitive one. */
  lemma ContainsLower(s: string, q: string)
    requires Contains(s, q)
    ensures Contains(Lower(s), Lower(q))
  {
    var i :| OccursAt(s, q, i);
    OccursLower(s, q, i);
  }
}
