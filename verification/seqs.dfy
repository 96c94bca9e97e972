/** Sequence identities that several proofs lean on, stated once so that the
    larger proofs do not have to rediscover them. */
module Seqs {

  /** Regrouping concatenations. */
  lemma Assoc<T>(a: seq<T>, b: seq<T>, c: seq<T>)
    ensures (a + b) + c == a + (b + c)
  {
  }

  lemma Assoc3<T>(a: seq<T>, b: seq<T>, c: seq<T>, d: seq<T>)
    ensures (a + b + c) + d == a + (b + (c + d))
  {
  }

  /** A non-empty sequence is its head followed by its tail. */
  lemma HeadTail<T>(xs: seq<T>)
    requires |xs| > 0
    ensures [xs[0]] + xs[1..] == xs
  {
  }

  /** Dropping the head of a cons gives back the tail. */
  lemma DropHead<T>(x: T, t: seq<T>)
    ensures ([x] + t)[1..] == t
  {
  }

  /** Two conses onto the empty sequence form a two-element display. */
  lemma PairList<T>(a: T, b: T)
    ensures [a] + ([b] + []) == [a, b]
  {
  }
}
