/** Concatenations put together in another order. */
module Seqs {

  lemma Regroup<T>(a: seq<T>, b: seq<T>, c: seq<T>)
    ensures (a + b) + c == a + (b + c)
  {
  }

  lemma RegroupPairs<T>(a: seq<T>, b: seq<T>, c: seq<T>, d: seq<T>)
    ensures a + (b + c) + d == (a + b) + (c + d)
    ensures a + (b + c) + d == a + b + ([] + c + d)
  {
  }

  lemma RegroupCut<T>(a: seq<T>, k: nat, b: seq<T>)
    requires k <= |a|
    ensures a[..k] + (a[k..] + b) == a + b
    ensures k == 1 ==> [a[0]] + (a[k..] + b) == a + b
  {
  }
}
