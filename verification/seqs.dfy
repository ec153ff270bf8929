/** Small facts about sequences that the proofs elsewhere use as single
    steps, so that no large proof has to rediscover them. */
module Seqs {
  lemma AppendAssoc<T>(a: seq<T>, b: seq<T>, c: seq<T>)
    ensures (a + b) + c == a + (b + c)
  {
  }

  lemma AppendNothing<T>(xs: seq<T>)
    ensures xs + [] == xs
  {
  }

  lemma ConsTail<T>(xs: seq<T>)
    requires |xs| > 0
    ensures [xs[0]] + xs[1..] == xs
  {
  }

  lemma TakeAll<T>(xs: seq<T>, n: nat)
    requires n == |xs|
    ensures xs[..n] == xs
  {
  }

  /** A sequence that starts with head is head followed by the rest. */
  lemma SplitAfter<T>(xs: seq<T>, head: seq<T>)
    requires |head| <= |xs| && xs[..|head|] == head
    ensures xs == head + xs[|head|..]
  {
  }

  /** Dropping a items then b items drops a + b. */
  lemma DropTwice<T>(xs: seq<T>, a: nat, b: nat, c: nat)
    requires a + b == c <= |xs|
    ensures xs[a..][b..] == xs[c..]
  {
  }

  /** Adjacent slices join. */
  lemma SliceJoin<T>(xs: seq<T>, i: nat, j: nat, k: nat)
    requires i <= j <= k <= |xs|
    ensures xs[i..j] + xs[j..k] == xs[i..k]
  {
  }

  lemma SliceJoinEnd<T>(xs: seq<T>, i: nat, j: nat)
    requires i <= j <= |xs|
    ensures xs[i..j] + xs[j..] == xs[i..]
  {
  }
}
