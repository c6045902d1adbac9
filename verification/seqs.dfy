/** Small facts about sequence concatenation, kept apart so that the
    inductive proofs using them see no more sequence axioms than they need. */
module Seqs {

  lemma AppendTail<T>(xs: seq<T>, ys: seq<T>)
    requires xs != []
    ensures (xs + ys)[0] == xs[0]
    ensures (xs + ys)[1..] == xs[1..] + ys
  {
  }

  lemma AppendEmpty<T>(xs: seq<T>, ys: seq<T>)
    requires xs == []
    ensures xs + ys == ys
  {
  }

  lemma SplitAround<T>(s: seq<T>, i: int)
    requires 0 <= i < |s|
    ensures s == s[..i] + ([s[i]] + s[i + 1..])
  {
  }

  lemma SliceOfConcat<T>(a: seq<T>, m: seq<T>, b: seq<T>)
    ensures (a + (m + b))[|a| .. |a| + |m|] == m
  {
  }

  lemma AppendAssoc<T>(a: seq<T>, b: seq<T>, c: seq<T>)
    ensures (a + b) + c == a + (b + c)
  {
  }

  lemma ConsTail<T>(s: seq<T>)
    requires s != []
    ensures s == [s[0]] + s[1..]
  {
  }

  lemma SplitConcat<T>(a: seq<T>, b: seq<T>)
    ensures (a + b)[..|a|] == a
    ensures (a + b)[|a|..] == b
  {
  }

  lemma AppendNil<T>(a: seq<T>)
    ensures a + [] == a
  {
  }
}
