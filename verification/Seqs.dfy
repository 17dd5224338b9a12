/** One element more and one element less. */
module Seqs {

  function InsertAt<T>(xs: seq<T>, k: nat, x: T): (r: seq<T>)
    requires k <= |xs|
    ensures |r| == |xs| + 1
    ensures forall n {:trigger r[n]} :: 0 <= n < |r| ==>
              r[n] == if n < k then xs[n] else if n == k then x else xs[n - 1]
  {
    xs[..k] + [x] + xs[k..]
  }

  function RemoveAt<T>(xs: seq<T>, k: nat): (r: seq<T>)
    requires k < |xs|
    ensures |r| == |xs| - 1
    ensures forall n {:trigger r[n]} :: 0 <= n < |r| ==> r[n] == if n < k then xs[n] else xs[n + 1]
  {
    xs[..k] + xs[k + 1..]
  }
}
