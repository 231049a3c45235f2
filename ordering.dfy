/**
 * The effective key comparator of the tree (SplayTree/Extensions.cs).
 *
 * Keys are integers. `IntCompareTo` is the integer `CompareTo` of the host
 * language; `CompareTo(left, right, reverse)` swaps its arguments when the
 * tree was built with the reverse flag. Every comparison in the tree goes
 * through `CompareTo`, so the order a tree keeps is the integer order on
 * `Ord(k, reverse)`: `k` itself, or `-k` when the order is reversed.
 */
module Ordering {

  /** The integer comparison of the host language: a negative, zero or positive result. */
  function IntCompareTo(a: int, b: int): (c: int)
    ensures -1 <= c <= 1
    ensures c < 0 <==> a < b
    ensures c == 0 <==> a == b
    ensures c > 0 <==> b < a
  {
    if a < b then -1 else if a == b then 0 else 1
  }

  /** Place of a key in the effective order. */
  function Ord(k: int, reverse: bool): int
  {
    if reverse then -k else k
  }

  /** The effective comparator: `right.CompareTo(left)` when reversed, `left.CompareTo(right)` otherwise. */
  function CompareTo(left: int, right: int, reverse: bool): (c: int)
    ensures c < 0 <==> Ord(left, reverse) < Ord(right, reverse)
    ensures c == 0 <==> left == right
    ensures c > 0 <==> Ord(right, reverse) < Ord(left, reverse)
  {
    if reverse then IntCompareTo(right, left) else IntCompareTo(left, right)
  }

  /** Without the flag the comparator is the key type's own comparison. */
  lemma CompareToForward(left: int, right: int)
    ensures CompareTo(left, right, false) == IntCompareTo(left, right)
  {
  }

  /** With the flag the arguments are swapped, so the order is flipped. */
  lemma CompareToReversed(left: int, right: int)
    ensures CompareTo(left, right, true) == IntCompareTo(right, left)
    ensures CompareTo(left, right, true) == -CompareTo(left, right, false)
  {
  }

  /** Equality of keys does not depend on the flag. */
  lemma CompareToZeroIndependentOfFlag(left: int, right: int)
    ensures (CompareTo(left, right, true) == 0) == (CompareTo(left, right, false) == 0)
    ensures CompareTo(left, right, true) == 0 <==> left == right
  {
  }

  /** In the reversed order a key comes first exactly when it is the larger integer. */
  lemma ReversedOrderIsDescending(a: int, b: int)
    ensures Ord(a, true) < Ord(b, true) <==> b < a
    ensures Ord(a, false) < Ord(b, false) <==> a < b
  {
  }
}
