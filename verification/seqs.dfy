/** Small facts about sequences that the proofs about lines and filters cite
    by name instead of leaving the solver to rediscover them. */
module Seqs {

  /** A non-empty sequence is its head followed by its tail. */
  lemma HeadTail<T>(xs: seq<T>)
    requires xs != []
    ensures xs == [xs[0]] + xs[1..]
  {
  }

  /** The tail of a concatenation with a non-empty first part. */
  lemma ConsAppend<T>(xs: seq<T>, ys: seq<T>)
    requires xs != []
    ensures xs + ys == [xs[0]] + (xs[1..] + ys)
  {
  }

  /** Concatenation is associative. */
  lemma AppendAssoc<T>(a: seq<T>, b: seq<T>, c: seq<T>)
    ensures a + (b + c) == (a + b) + c
  {
  }

  /** Slicing a concatenation inside its first part. */
  lemma SplitAppend<T>(a: seq<T>, b: seq<T>, n: nat)
    requires n <= |a|
    ensures (a + b)[..n] == a[..n] && (a + b)[n..] == a[n..] + b
  {
  }

  /** The pieces of `ss` joined end to end. */
  function Concat<T>(ss: seq<seq<T>>): seq<T>
  {
    if ss == [] then [] else Concat(ss[..|ss| - 1]) + ss[|ss| - 1]
  }

  /** Joining one more piece appends it. */
  lemma ConcatSnoc<T>(ss: seq<seq<T>>, s: seq<T>)
    ensures Concat(ss + [s]) == Concat(ss) + s
  {
    assert (ss + [s])[..|ss|] == ss;
  }

  /** Joining pieces is the first piece followed by the join of the rest. */
  lemma {:induction false} ConcatCons<T>(ss: seq<seq<T>>)
    requires ss != []
    ensures Concat(ss) == ss[0] + Concat(ss[1..])
    decreases |ss|
  {
    if |ss| == 1 {
      assert ss[1..] == [] && ss[..0] == [];
    } else {
      var init := ss[..|ss| - 1];
      ConcatCons(init);
      assert init[0] == ss[0];
      assert ss[1..][..|ss| - 2] == init[1..];
      assert ss[1..][|ss| - 2] == ss[|ss| - 1];
      AppendAssoc(ss[0], Concat(init[1..]), ss[|ss| - 1]);
    }
  }
}
