/**
 * Small facts about sequence concatenation, stated once for every element
 * type. They model nothing of their own: the inductive proofs call them to
 * keep each step small for the solver.
 */
module SeqFacts {

  lemma Associate<T>(a: seq<T>, b: seq<T>, c: seq<T>)
    ensures a + b + c == a + (b + c)
  {
  }

  lemma AppendFirst<T>(a: seq<T>, xs: seq<T>)
    requires xs != []
    ensures a + [xs[0]] + xs[1..] == a + xs
  {
  }

  /** A prefix is the shorter prefix followed by its last element. */
  lemma TakeLast<T>(xs: seq<T>, n: nat)
    requires 0 < n <= |xs|
    ensures xs[..n] == xs[..n - 1] + [xs[n - 1]]
  {
  }
}
