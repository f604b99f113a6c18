/** Facts about sequences that the other modules share. */
module Seqs {

  /** Concatenation regroups freely; stated once so that proofs can name the
      step instead of asking the solver to rediscover it in a large context. */
  lemma ConcatAssoc<T>(x: seq<T>, y: seq<T>, z: seq<T>)
    ensures x + (y + z) == (x + y) + z
  {
  }
}
