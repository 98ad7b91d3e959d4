/** Facts about sequence concatenation that the proofs cite explicitly, so
    that the solver does not have to rediscover them. */
module Sequences {

  lemma AppendAssoc<T>(x: seq<T>, y: seq<T>, z: seq<T>)
    ensures x + (y + z) == x + y + z
  {
  }

  lemma AppendEmpty<T>(x: seq<T>)
    ensures [] + x == x && x + [] == x
  {
  }
}
