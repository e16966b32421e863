/**
 * Two sequence identities the logging loops of the model use, stated once so
 * that a loop's proof applies them as equations.
 */
module Seqs {

  lemma AppendNil<T>(a: seq<T>)
    ensures a + [] == a
  {
  }

  lemma AppendAssoc<T>(a: seq<T>, b: seq<T>, c: seq<T>)
    ensures (a + b) + c == a + (b + c)
  {
  }
}
