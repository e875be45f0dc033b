/** A fact about sequences the proofs use at several places. */
module Sequences {
  /** Concatenation is associative; stated once so that larger proofs need not rediscover it. */
  lemma ConcatAssociative<T>(a: seq<T>, b: seq<T>, c: seq<T>)
    ensures a + (b + c) == (a + b) + c
  {
  }
}
