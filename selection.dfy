/**
 * Order-preserving selection: the elements of a sequence at the positions a
 * mask marks, which is what a Python list comprehension with an `if` and a
 * loop that appends under a condition both compute.
 */
module Selection {

  /** The elements `xs[i]` with `mask[i]`, in their original order. */
  function Pick<T>(xs: seq<T>, mask: seq<bool>): (ys: seq<T>)
    requires |xs| == |mask|
    ensures |ys| <= |xs|
  {
    if xs == [] then []
    else Pick(xs[..|xs| - 1], mask[..|mask| - 1]) + (if mask[|mask| - 1] then [xs[|xs| - 1]] else [])
  }

  ghost predicate Increasing(idx: seq<nat>) {
    forall k, l :: 0 <= k < l < |idx| ==> idx[k] < idx[l]
  }

  /** The marked positions of `mask`, in increasing order, each exactly once. */
  function Positions(mask: seq<bool>): (idx: seq<nat>)
    ensures Increasing(idx)
    ensures forall k :: 0 <= k < |idx| ==> idx[k] < |mask| && mask[idx[k]]
    ensures forall i :: 0 <= i < |mask| && mask[i] ==> i in idx
  {
    if mask == [] then []
    else
      var n := |mask| - 1;
      var prev := Positions(mask[..n]);
      assert forall k :: 0 <= k < |prev| ==> mask[..n][prev[k]] == mask[prev[k]];
      prev + (if mask[n] then [n] else [])
  }

  lemma PickSnoc<T>(xs: seq<T>, mask: seq<bool>, x: T, b: bool)
    requires |xs| == |mask|
    ensures Pick(xs + [x], mask + [b]) == Pick(xs, mask) + (if b then [x] else [])
  {
    assert (xs + [x])[..|xs|] == xs;
    assert (mask + [b])[..|mask|] == mask;
  }

  /** The picked elements are exactly the elements at the marked positions. */
  lemma {:induction false} PickAt<T>(xs: seq<T>, mask: seq<bool>)
    requires |xs| == |mask|
    ensures |Pick(xs, mask)| == |Positions(mask)|
    ensures forall k :: 0 <= k < |Positions(mask)| ==> Pick(xs, mask)[k] == xs[Positions(mask)[k]]
  {
    if xs != [] {
      var n := |xs| - 1;
      PickAt(xs[..n], mask[..n]);
    }
  }
}
