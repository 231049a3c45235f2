/**
 * The bulk-loading helpers of SplayTree/SplayTree.cs (lines 559-705, 864-871):
 * sorting the parallel key and value lists in place, building a balanced
 * tree from a range of them or from a linked list, flattening a tree into a
 * list, and merging two sorted lists.
 *
 * The parallel `List<TKey>` / `List<TData>` arguments are arrays, since the
 * sort reorders them in place. A linked list of nodes chained through their
 * `Next` link is the sequence of its entries.
 */
module BulkLoad {
  import opened Ordering
  import opened Trees
  import opened TreeWalk

  // ---------------------------------------------------------------------
  // Building balanced trees

  /**
   * The balanced tree over `keys[start..end]` and the matching values
   * (SplayTree.cs:652-667): its in-order sequence is exactly that range of
   * pairs, and at every node the two sides differ in size by at most one.
   */
  function LoadRecursive<D>(keys: seq<int>, values: seq<D>, start: int, end: int): (r: Tree<D>)
    requires |keys| <= |values|
    requires start < end ==> 0 <= start && end <= |keys|
    ensures start < end ==> InOrder(r) == Pairs(keys, values)[start..end]
    ensures end <= start ==> r.Nil?
    ensures Balanced(r)
    decreases end - start
  {
    var size := end - start;
    if size > 0 then
      var middle := start + size / 2;
      PairsAround(keys, values, start, middle, end);
      Node(LoadRecursive(keys, values, start, middle), keys[middle], values[middle],
           LoadRecursive(keys, values, middle + 1, end))
    else Nil
  }

  /** A range of pairs is the part before a position, the pair there, and the part after it. */
  lemma PairsAround<D>(keys: seq<int>, values: seq<D>, start: int, middle: int, end: int)
    requires |keys| <= |values| && 0 <= start <= middle < end <= |keys|
    ensures Pairs(keys, values)[start..middle] + [Entry(keys[middle], values[middle])] + Pairs(keys, values)[middle + 1..end]
         == Pairs(keys, values)[start..end]
  {
    var p := Pairs(keys, values);
    assert p[start..end] == p[start..middle] + [p[middle]] + p[middle + 1..end];
  }

  /** The head of a linked list of nodes (SplayTree.cs:864-871), modelled as the entries still in it. */
  class TreeNodeList<D> {
    var head: seq<Entry<D>>

    constructor (head: seq<Entry<D>>)
      ensures this.head == head
    {
      this.head := head;
    }
  }

  /**
   * A balanced tree from the first `end - start` nodes of a linked list
   * (SplayTree.cs:588-606): it consumes exactly those nodes, and its
   * in-order sequence is them, in list order.
   */
  method SortedListToBST<D>(list: TreeNodeList<D>, start: int, end: int) returns (r: Tree<D>)
    requires end - start <= |list.head|
    modifies list
    ensures var n := if start < end then end - start else 0;
      InOrder(r) == old(list.head)[..n] && list.head == old(list.head)[n..]
    ensures Balanced(r)
    decreases end - start
  {
    var size := end - start;
    if size > 0 {
      var middle := start + size / 2;
      ghost var h0 := list.head;
      TakeAround(h0, size / 2, size);
      var left := SortedListToBST(list, start, middle);
      ghost var h1 := list.head;
      var e := list.head[0];
      list.head := list.head[1..];
      var right := SortedListToBST(list, middle + 1, end);
      r := Node(left, e.key, e.data, right);
      assert InOrder(r) == InOrder(left) + [e] + InOrder(right);
      assert InOrder(left) == h0[..size / 2] && e == h0[size / 2] && h1[1..] == h0[size / 2..][1..];
    } else {
      r := Nil;
    }
  }

  /** Taking `n` elements is taking `a` of them, the next one, and `n - a - 1` of the rest. */
  lemma TakeAround<E>(h: seq<E>, a: int, n: int)
    requires 0 <= a < n <= |h|
    ensures h[..n] == h[..a] + [h[a]] + h[a..][1..][..n - a - 1]
    ensures h[n..] == h[a..][1..][n - a - 1..]
  {
  }

  // ---------------------------------------------------------------------
  // Lists from arrays and from trees

  /** The linked list of the key and value pairs, in order (SplayTree.cs:608-619). */
  method CreateList<D>(keys: array<int>, values: array<D>) returns (list: seq<Entry<D>>)
    requires keys.Length <= values.Length
    ensures list == Pairs(keys[..], values[..keys.Length])
  {
    list := [];
    for i := 0 to keys.Length
      invariant list == Pairs(keys[..i], values[..i])
    {
      list := list + [Entry(keys[i], values[i])];
    }
    assert keys[..keys.Length] == keys[..];
  }

  /** The nodes of a tree chained in in-order (SplayTree.cs:621-650). */
  method ToList<D>(root: Tree<D>) returns (list: seq<Entry<D>>)
    ensures list == InOrder(root)
  {
    var current := root;
    var stack: seq<Tree<D>> := [];
    var done := false;
    list := [];
    while !done
      invariant !done ==> list + Pending(current, stack) == InOrder(root)
      invariant done ==> list == InOrder(root)
      invariant forall k :: 0 <= k < |stack| ==> stack[k].Node?
      decreases if done then 0 else 1, |Pending(current, stack)|, |InOrder(current)|
    {
      if current.Node? {
        PushStep(current, stack);
        stack := stack + [current];
        current := current.left;
      } else if |stack| > 0 {
        PopStep(stack);
        MoveOne(list, EntryOf(stack[|stack| - 1]), Pending(stack[|stack| - 1].right, stack[..|stack| - 1]));
        current := stack[|stack| - 1];
        stack := stack[..|stack| - 1];
        list := list + [EntryOf(current)];
        current := current.right;
      } else {
        done := true;
      }
    }
  }

  // ---------------------------------------------------------------------
  // Merging two sorted lists

  /**
   * The merge of two lists (SplayTree.cs:669-705): the head of the first list
   * goes first only when its key is strictly smaller, so on equal keys the
   * entry of the second list comes first.
   */
  function MergeSpec<D>(a: seq<Entry<D>>, b: seq<Entry<D>>, reverse: bool): (m: seq<Entry<D>>)
    ensures |m| == |a| + |b|
    decreases |a| + |b|
  {
    if a == [] then b
    else if b == [] then a
    else if Ord(a[0].key, reverse) < Ord(b[0].key, reverse) then [a[0]] + MergeSpec(a[1..], b, reverse)
    else [b[0]] + MergeSpec(a, b[1..], reverse)
  }

  /** The merge holds every entry of both lists, each as often as it occurs. */
  lemma {:induction false} MergePermutes<D>(a: seq<Entry<D>>, b: seq<Entry<D>>, reverse: bool)
    ensures multiset(MergeSpec(a, b, reverse)) == multiset(a) + multiset(b)
    ensures |MergeSpec(a, b, reverse)| == |a| + |b|
    decreases |a| + |b|
  {
    if a != [] && b != [] {
      if Ord(a[0].key, reverse) < Ord(b[0].key, reverse) {
        MergePermutes(a[1..], b, reverse);
        assert a == [a[0]] + a[1..];
      } else {
        MergePermutes(a, b[1..], reverse);
        assert b == [b[0]] + b[1..];
      }
    }
  }

  /** A bound shared by both lists holds for their merge. */
  lemma MergeAtLeast<D>(a: seq<Entry<D>>, b: seq<Entry<D>>, k: int, reverse: bool)
    requires AllAtLeast(a, k, reverse) && AllAtLeast(b, k, reverse)
    ensures AllAtLeast(MergeSpec(a, b, reverse), k, reverse)
  {
    var m := MergeSpec(a, b, reverse);
    MergePermutes(a, b, reverse);
    forall i | 0 <= i < |m| ensures Ord(k, reverse) <= Ord(m[i].key, reverse) {
      assert m[i] in multiset(a) + multiset(b);
      if m[i] in a {
        var p :| 0 <= p < |a| && a[p] == m[i];
      } else {
        assert m[i] in b;
        var p :| 0 <= p < |b| && b[p] == m[i];
      }
    }
  }

  /** Merging two sorted lists gives a sorted list. */
  lemma {:induction false} MergeSorted<D>(a: seq<Entry<D>>, b: seq<Entry<D>>, reverse: bool)
    requires Sorted(a, reverse) && Sorted(b, reverse)
    ensures Sorted(MergeSpec(a, b, reverse), reverse)
    decreases |a| + |b|
  {
    if a != [] && b != [] {
      if Ord(a[0].key, reverse) < Ord(b[0].key, reverse) {
        SortedSplit([a[0]], a[1..], reverse) by { assert a == [a[0]] + a[1..]; }
        MergeSorted(a[1..], b, reverse);
        HeadBound(a, reverse);
        HeadBound(b, reverse);
        MergeAtLeast(a[1..], b, a[0].key, reverse);
        SortedJoin([a[0]], MergeSpec(a[1..], b, reverse), a[0].key, reverse);
      } else {
        SortedSplit([b[0]], b[1..], reverse) by { assert b == [b[0]] + b[1..]; }
        MergeSorted(a, b[1..], reverse);
        HeadBound(a, reverse);
        HeadBound(b, reverse);
        MergeAtLeast(a, b[1..], b[0].key, reverse);
        SortedJoin([b[0]], MergeSpec(a, b[1..], reverse), b[0].key, reverse);
      }
    }
  }

  /** In a sorted non-empty list every entry is at least the head, and so is the tail. */
  lemma HeadBound<D>(s: seq<Entry<D>>, reverse: bool)
    requires s != [] && Sorted(s, reverse)
    ensures AllAtLeast(s, s[0].key, reverse) && AllAtLeast(s[1..], s[0].key, reverse)
  {
    forall i | 0 <= i < |s[1..]| ensures Ord(s[0].key, reverse) <= Ord(s[1..][i].key, reverse) {
      assert s[1..][i] == s[i + 1];
    }
  }

  /** Ties go to the second list: with equal head keys its head is taken first. */
  lemma MergeTieTakesSecond<D>(a: seq<Entry<D>>, b: seq<Entry<D>>, reverse: bool)
    requires a != [] && b != [] && a[0].key == b[0].key
    ensures MergeSpec(a, b, reverse) == [b[0]] + MergeSpec(a, b[1..], reverse)
  {
  }

  /** An entry of the first list goes ahead only of entries of the second with larger keys. */
  lemma MergeTieExample<D>(x: Entry<D>, y: Entry<D>, reverse: bool)
    requires x.key == y.key
    ensures MergeSpec([x], [y], reverse) == [y, x]
  {
    assert [x][1..] == [] && [y][1..] == [];
  }

  /**
   * Merge of two linked lists (SplayTree.cs:669-705): walks both lists,
   * taking from the first only when its key is strictly smaller, then
   * appends what remains.
   */
  method MergeLists<D>(l1: seq<Entry<D>>, l2: seq<Entry<D>>, reverse: bool) returns (merged: seq<Entry<D>>)
    ensures merged == MergeSpec(l1, l2, reverse)
  {
    var i, j := 0, 0;
    merged := [];
    while i < |l1| && j < |l2|
      invariant 0 <= i <= |l1| && 0 <= j <= |l2|
      invariant merged + MergeSpec(l1[i..], l2[j..], reverse) == MergeSpec(l1, l2, reverse)
      decreases |l1| - i + |l2| - j
    {
      MergeStep(l1, l2, i, j, reverse);
      if CompareTo(l1[i].key, l2[j].key, reverse) < 0 {
        MoveOne(merged, l1[i], MergeSpec(l1[i + 1..], l2[j..], reverse));
        merged := merged + [l1[i]];
        i := i + 1;
      } else {
        MoveOne(merged, l2[j], MergeSpec(l1[i..], l2[j + 1..], reverse));
        merged := merged + [l2[j]];
        j := j + 1;
      }
    }
    MergeRest(l1, l2, i, j, reverse);
    if i < |l1| {
      merged := merged + l1[i..];
    } else if j < |l2| {
      merged := merged + l2[j..];
    }
  }

  /** One step of the merge walk over the lists from positions `i` and `j` on. */
  lemma MergeStep<D>(a: seq<Entry<D>>, b: seq<Entry<D>>, i: int, j: int, reverse: bool)
    requires 0 <= i < |a| && 0 <= j < |b|
    ensures Ord(a[i].key, reverse) < Ord(b[j].key, reverse) ==>
      MergeSpec(a[i..], b[j..], reverse) == [a[i]] + MergeSpec(a[i + 1..], b[j..], reverse)
    ensures !(Ord(a[i].key, reverse) < Ord(b[j].key, reverse)) ==>
      MergeSpec(a[i..], b[j..], reverse) == [b[j]] + MergeSpec(a[i..], b[j + 1..], reverse)
  {
    assert a[i..][0] == a[i] && a[i..][1..] == a[i + 1..];
    assert b[j..][0] == b[j] && b[j..][1..] == b[j + 1..];
  }

  /** Once one list is used up, the merge of the rest is the other list's rest. */
  lemma MergeRest<D>(a: seq<Entry<D>>, b: seq<Entry<D>>, i: int, j: int, reverse: bool)
    requires 0 <= i <= |a| && 0 <= j <= |b| && (i == |a| || j == |b|)
    ensures i < |a| ==> MergeSpec(a[i..], b[j..], reverse) == a[i..]
    ensures i == |a| ==> MergeSpec(a[i..], b[j..], reverse) == b[j..]
  {
    if i == |a| {
      assert a[i..] == [];
    } else {
      assert b[j..] == [];
    }
  }

  // ---------------------------------------------------------------------
  // Sorting the parallel lists in place

  /** The pairs of positions `lo` to `hi - 1` of the two lists. */
  ghost function Zip<D>(keys: seq<int>, values: seq<D>, lo: int, hi: int): seq<Entry<D>>
    requires 0 <= lo <= hi <= |keys| && hi <= |values|
  {
    Pairs(keys[lo..hi], values[lo..hi])
  }

  /** The pairs of the whole key list, whatever the value list holds past its end. */
  lemma ZipWhole<D>(keys: seq<int>, values: seq<D>)
    requires |keys| <= |values|
    ensures Zip(keys, values, 0, |keys|) == Pairs(keys, values[..|keys|])
    ensures Pairs(keys, values) == Pairs(keys, values[..|keys|])
  {
    assert keys[0..|keys|] == keys;
  }

  /** Adjacent ranges of pairs concatenate. */
  lemma ZipSplit<D>(keys: seq<int>, values: seq<D>, lo: int, mid: int, hi: int)
    requires 0 <= lo <= mid <= hi <= |keys| && hi <= |values|
    ensures Zip(keys, values, lo, hi) == Zip(keys, values, lo, mid) + Zip(keys, values, mid, hi)
  {
  }

  /** The range of pairs depends only on the positions in the range. */
  lemma ZipSame<D>(keys: seq<int>, values: seq<D>, keys': seq<int>, values': seq<D>, lo: int, hi: int)
    requires 0 <= lo <= hi <= |keys| && hi <= |values| && hi <= |keys'| && hi <= |values'|
    requires forall k :: lo <= k < hi ==> keys'[k] == keys[k] && values'[k] == values[k]
    ensures Zip(keys', values', lo, hi) == Zip(keys, values, lo, hi)
  {
  }

  /** Swapping two positions in both lists permutes the range of pairs holding them. */
  lemma ZipSwap<D>(keys: seq<int>, values: seq<D>, lo: int, hi: int, i: int, j: int)
    requires 0 <= lo <= i < hi && lo <= j < hi && hi <= |keys| && hi <= |values|
    ensures multiset(Zip(keys[i := keys[j]][j := keys[i]], values[i := values[j]][j := values[i]], lo, hi))
         == multiset(Zip(keys, values, lo, hi))
  {
    var z := Zip(keys, values, lo, hi);
    var z' := Zip(keys[i := keys[j]][j := keys[i]], values[i := values[j]][j := values[i]], lo, hi);
    assert z' == z[i - lo := z[j - lo]][j - lo := z[i - lo]];
  }

  /** A bound on every pair of a range carries over to a permutation of it. */
  lemma BoundPermuted<D>(z: seq<Entry<D>>, z': seq<Entry<D>>, p: int, reverse: bool)
    requires multiset(z') == multiset(z)
    ensures AllAtMost(z, p, reverse) ==> AllAtMost(z', p, reverse)
    ensures AllAtLeast(z, p, reverse) ==> AllAtLeast(z', p, reverse)
  {
    forall i | 0 <= i < |z'| ensures exists q :: 0 <= q < |z| && z[q] == z'[i] {
      assert z'[i] in multiset(z);
    }
  }

  /**
   * Quicksort of both lists by key (SplayTree.cs:559-586): afterwards the key
   * and value pairs of positions `left` to `right` are sorted in the
   * effective order and are a permutation of the pairs there before; nothing
   * else changes.
   */
  method Sort<D>(keys: array<int>, values: array<D>, left: int, right: int, reverse: bool)
    requires keys as object != values as object
    requires 0 <= left <= right + 1 <= keys.Length <= values.Length
    modifies keys, values
    ensures Sorted(Zip(keys[..], values[..], left, right + 1), reverse)
    ensures multiset(Zip(keys[..], values[..], left, right + 1)) == multiset(old(Zip(keys[..], values[..], left, right + 1)))
    ensures SameOutside(keys[..], old(keys[..]), left, right) && SameOutside(values[..], old(values[..]), left, right)
    decreases right - left
  {
    if left >= right {
      return;
    }
    var j, pivot := Partition(keys, values, left, right, reverse);
    ghost var k1, v1 := keys[..], values[..];
    Sort(keys, values, left, j, reverse);
    ghost var k2, v2 := keys[..], values[..];
    Sort(keys, values, j + 1, right, reverse);
    SortedHalves(k1, v1, k2, v2, keys[..], values[..], left, j, right, pivot, reverse);
    PermutedHalves(k1, v1, k2, v2, keys[..], values[..], left, j, right);
  }

  /**
   * Hoare's partition around the key in the middle of the range
   * (SplayTree.cs:563-583): both scans stop at keys not on their side of the
   * pivot, out-of-place pairs are swapped, and the cut `j` leaves pairs at
   * most the pivot on its left and at least the pivot on its right, with both
   * sides non-empty.
   */
  method Partition<D>(keys: array<int>, values: array<D>, left: int, right: int, reverse: bool) returns (j: int, pivot: int)
    requires keys as object != values as object
    requires 0 <= left < right < keys.Length <= values.Length
    modifies keys, values
    ensures left <= j < right
    ensures PartitionedAt(keys[..], values[..], left, j, right, pivot, reverse)
    ensures multiset(Zip(keys[..], values[..], left, right + 1)) == multiset(old(Zip(keys[..], values[..], left, right + 1)))
    ensures SameOutside(keys[..], old(keys[..]), left, right) && SameOutside(values[..], old(values[..]), left, right)
  {
    ghost var K0, V0 := keys[..], values[..];
    ghost var m := (left + right) / 2;
    pivot := keys[(left + right) / 2];
    var i := left - 1;
    j := right + 1;
    ghost var first := true;
    ghost var ks, vs := K0, V0;
    while true
      invariant keys[..] == ks && values[..] == vs
      invariant left - 1 <= i < j <= right + 1
      invariant first ==> i == left - 1 && j == right + 1 && ks[m] == pivot
      invariant !first ==> left <= i && j <= right
      invariant AtMostUpTo(ks, left, i, pivot, reverse) && AtLeastFrom(ks, j, right, pivot, reverse)
      invariant multiset(Zip(ks, vs, left, right + 1)) == multiset(Zip(K0, V0, left, right + 1))
      invariant SameOutside(ks, K0, left, right) && SameOutside(vs, V0, left, right)
      decreases j - i
    {
      ghost var i0, j0 := i, j;
      i := ScanUp(keys, i + 1, if first then m else j, pivot, reverse);
      j := ScanDown(keys, j - 1, if first then m else i0, pivot, reverse);
      if i >= j {
        PartitionDone(ks, vs, left, i0, i, j, j0, right, pivot, reverse);
        break;
      }
      SwapStep(ks, vs, K0, V0, left, right, i0, i, j, j0, pivot, reverse);
      Swap(keys, values, i, j);
      ks, vs := ks[i := ks[j]][j := ks[i]], vs[i := vs[j]][j := vs[i]];
      first := false;
    }
  }

  /** No position of `ks` from `lo` to `hi` inclusive holds a key after the pivot. */
  ghost predicate AtMostUpTo(ks: seq<int>, lo: int, hi: int, pivot: int, reverse: bool)
  {
    forall k :: lo <= k <= hi && 0 <= k < |ks| ==> Ord(ks[k], reverse) <= Ord(pivot, reverse)
  }

  /** No position of `ks` from `lo` to `hi` inclusive holds a key before the pivot. */
  ghost predicate AtLeastFrom(ks: seq<int>, lo: int, hi: int, pivot: int, reverse: bool)
  {
    forall k :: lo <= k <= hi && 0 <= k < |ks| ==> Ord(pivot, reverse) <= Ord(ks[k], reverse)
  }

  /** Every position of `ks` from `lo` up to but excluding `hi` holds a key before the pivot. */
  ghost predicate BeforePivot(ks: seq<int>, lo: int, hi: int, pivot: int, reverse: bool)
  {
    forall k :: lo <= k < hi && 0 <= k < |ks| ==> Ord(ks[k], reverse) < Ord(pivot, reverse)
  }

  /** Every position of `ks` from `lo` up to but excluding `hi` holds a key after the pivot. */
  ghost predicate AfterPivot(ks: seq<int>, lo: int, hi: int, pivot: int, reverse: bool)
  {
    forall k :: lo <= k < hi && 0 <= k < |ks| ==> Ord(pivot, reverse) < Ord(ks[k], reverse)
  }

  /**
   * The state after one pair of scans: the sides settled before (up to
   * `i0`, from `j0`) and the runs the scans passed over lie on their sides
   * of the pivot, and the scans stopped at `i` and `j`.
   */
  ghost predicate Scanned(ks: seq<int>, left: int, i0: int, i: int, j: int, j0: int, right: int, pivot: int, reverse: bool)
    requires 0 <= i < |ks| && 0 <= j < |ks|
  {
    && AtMostUpTo(ks, left, i0, pivot, reverse) && BeforePivot(ks, i0 + 1, i, pivot, reverse)
    && AtLeastFrom(ks, j0, right, pivot, reverse) && AfterPivot(ks, j + 1, j0, pivot, reverse)
    && Ord(pivot, reverse) <= Ord(ks[i], reverse) && Ord(ks[j], reverse) <= Ord(pivot, reverse)
  }

  /** `s` and `s0` have the same length and agree outside positions `left` to `right`. */
  ghost predicate SameOutside<E>(s: seq<E>, s0: seq<E>, left: int, right: int)
  {
    |s| == |s0| && forall k :: 0 <= k < |s| && !(left <= k <= right) ==> s[k] == s0[k]
  }

  /** The upward scan of the partition: it stops at the first key from `from` on that is not before the pivot. */
  method ScanUp(keys: array<int>, from: int, ghost bound: int, pivot: int, reverse: bool) returns (i: int)
    requires 0 <= from <= bound < keys.Length
    requires Ord(pivot, reverse) <= Ord(keys[bound], reverse)
    ensures from <= i <= bound
    ensures BeforePivot(keys[..], from, i, pivot, reverse)
    ensures Ord(pivot, reverse) <= Ord(keys[i], reverse)
  {
    i := from;
    while CompareTo(keys[i], pivot, reverse) < 0
      invariant from <= i <= bound
      invariant BeforePivot(keys[..], from, i, pivot, reverse)
      decreases bound - i
    {
      i := i + 1;
    }
  }

  /** The downward scan of the partition: it stops at the first key from `from` down that is not after the pivot. */
  method ScanDown(keys: array<int>, from: int, ghost stopper: int, pivot: int, reverse: bool) returns (j: int)
    requires 0 <= stopper <= from < keys.Length
    requires Ord(keys[stopper], reverse) <= Ord(pivot, reverse)
    ensures stopper <= j <= from
    ensures AfterPivot(keys[..], j + 1, from + 1, pivot, reverse)
    ensures Ord(keys[j], reverse) <= Ord(pivot, reverse)
  {
    j := from;
    while CompareTo(keys[j], pivot, reverse) > 0
      invariant stopper <= j <= from
      invariant AfterPivot(keys[..], j + 1, from + 1, pivot, reverse)
      decreases j - stopper
    {
      j := j - 1;
    }
  }

  /** Exchanges the pairs at positions `i` and `j` of both lists. */
  method Swap<D>(keys: array<int>, values: array<D>, i: int, j: int)
    requires keys as object != values as object
    requires 0 <= i < keys.Length && 0 <= j < keys.Length <= values.Length
    modifies keys, values
    ensures keys[..] == old(keys[..])[i := old(keys[j])][j := old(keys[i])]
    ensures values[..] == old(values[..])[i := old(values[j])][j := old(values[i])]
  {
    keys[i], keys[j] := keys[j], keys[i];
    values[i], values[j] := values[j], values[i];
  }

  /**
   * One exchange of the partition: after the scans stopped at `i` and `j`
   * with `i < j`, swapping the two pairs extends both settled sides, keeps
   * the pairs of the range a permutation and leaves the rest alone.
   */
  lemma SwapStep<D>(ks: seq<int>, vs: seq<D>, k0: seq<int>, v0: seq<D>, left: int, right: int,
                    i0: int, i: int, j: int, j0: int, pivot: int, reverse: bool)
    requires 0 <= left <= i < j <= right < |ks| <= |vs|
    requires left - 1 <= i0 < i && j < j0 <= right + 1
    requires Scanned(ks, left, i0, i, j, j0, right, pivot, reverse)
    requires SameOutside(ks, k0, left, right) && SameOutside(vs, v0, left, right)
    requires multiset(Zip(ks, vs, left, right + 1)) == multiset(Zip(k0, v0, left, right + 1))
    ensures AtMostUpTo(ks[i := ks[j]][j := ks[i]], left, i, pivot, reverse)
    ensures AtLeastFrom(ks[i := ks[j]][j := ks[i]], j, right, pivot, reverse)
    ensures multiset(Zip(ks[i := ks[j]][j := ks[i]], vs[i := vs[j]][j := vs[i]], left, right + 1))
         == multiset(Zip(k0, v0, left, right + 1))
    ensures SameOutside(ks[i := ks[j]][j := ks[i]], k0, left, right)
    ensures SameOutside(vs[i := vs[j]][j := vs[i]], v0, left, right)
  {
    ZipSwap(ks, vs, left, right + 1, i, j);
  }

  /** The pairs from `left` to `j` are at most the pivot and those from `j + 1` to `right` at least the pivot. */
  ghost predicate PartitionedAt<D>(ks: seq<int>, vs: seq<D>, left: int, j: int, right: int, pivot: int, reverse: bool)
    requires 0 <= left <= j < right < |ks| <= |vs|
  {
    AllAtMost(Zip(ks, vs, left, j + 1), pivot, reverse) && AllAtLeast(Zip(ks, vs, j + 1, right + 1), pivot, reverse)
  }

  /** When the scans cross, the cut `j` separates the two sides of the pivot. */
  lemma PartitionDone<D>(ks: seq<int>, vs: seq<D>, left: int, i0: int, i: int, j: int, j0: int, right: int,
                         pivot: int, reverse: bool)
    requires 0 <= left <= j < right < |ks| <= |vs|
    requires j <= i && i0 < i <= right && j < j0
    requires Scanned(ks, left, i0, i, j, j0, right, pivot, reverse)
    ensures PartitionedAt(ks, vs, left, j, right, pivot, reverse)
  {
    var a, b := Zip(ks, vs, left, j + 1), Zip(ks, vs, j + 1, right + 1);
    forall k | 0 <= k < |a| ensures Ord(a[k].key, reverse) <= Ord(pivot, reverse) {
      assert a[k].key == ks[left + k];
    }
    forall k | 0 <= k < |b| ensures Ord(pivot, reverse) <= Ord(b[k].key, reverse) {
      assert b[k].key == ks[j + 1 + k];
    }
  }

  /** The two recursive sorts leave the whole range sorted. */
  lemma SortedHalves<D>(k1: seq<int>, v1: seq<D>, k2: seq<int>, v2: seq<D>, k3: seq<int>, v3: seq<D>,
                        left: int, j: int, right: int, pivot: int, reverse: bool)
    requires 0 <= left <= j < right < |k1| == |k2| == |k3| && |k1| <= |v1| == |v2| == |v3|
    requires PartitionedAt(k1, v1, left, j, right, pivot, reverse)
    requires Sorted(Zip(k2, v2, left, j + 1), reverse)
    requires multiset(Zip(k2, v2, left, j + 1)) == multiset(Zip(k1, v1, left, j + 1))
    requires SameOutside(k2, k1, left, j) && SameOutside(v2, v1, left, j)
    requires Sorted(Zip(k3, v3, j + 1, right + 1), reverse)
    requires multiset(Zip(k3, v3, j + 1, right + 1)) == multiset(Zip(k2, v2, j + 1, right + 1))
    requires SameOutside(k3, k2, j + 1, right) && SameOutside(v3, v2, j + 1, right)
    ensures Sorted(Zip(k3, v3, left, right + 1), reverse)
  {
    ZipSame(k1, v1, k2, v2, j + 1, right + 1);
    ZipSame(k2, v2, k3, v3, left, j + 1);
    var a, b := Zip(k3, v3, left, j + 1), Zip(k3, v3, j + 1, right + 1);
    BoundPermuted(Zip(k1, v1, left, j + 1), a, pivot, reverse);
    BoundPermuted(Zip(k2, v2, j + 1, right + 1), b, pivot, reverse);
    ZipSplit(k3, v3, left, j + 1, right + 1);
    SortedJoin(a, b, pivot, reverse);
  }

  /** Permutations of two adjacent ranges of pairs join into a permutation of the whole range. */
  lemma JoinPermuted<D>(k1: seq<int>, v1: seq<D>, k3: seq<int>, v3: seq<D>, left: int, mid: int, right: int)
    requires 0 <= left <= mid <= right <= |k1| == |k3| && |k1| <= |v1| == |v3|
    requires multiset(Zip(k3, v3, left, mid)) == multiset(Zip(k1, v1, left, mid))
    requires multiset(Zip(k3, v3, mid, right)) == multiset(Zip(k1, v1, mid, right))
    ensures multiset(Zip(k3, v3, left, right)) == multiset(Zip(k1, v1, left, right))
  {
    ZipSplit(k3, v3, left, mid, right);
    ZipSplit(k1, v1, left, mid, right);
  }

  /** A range of pairs permuted by one step and then left alone by the next is permuted overall. */
  lemma PermutedThenKept<D>(k1: seq<int>, v1: seq<D>, k2: seq<int>, v2: seq<D>, k3: seq<int>, v3: seq<D>,
                        lo: int, hi: int, l2: int, h2: int)
    requires 0 <= lo <= hi <= |k1| == |k2| == |k3| && |k1| <= |v1| == |v2| == |v3|
    requires (hi <= l2 || h2 < lo) && 0 <= l2 && h2 < |k1|
    requires multiset(Zip(k2, v2, lo, hi)) == multiset(Zip(k1, v1, lo, hi))
    requires SameOutside(k3, k2, l2, h2) && SameOutside(v3, v2, l2, h2)
    ensures multiset(Zip(k3, v3, lo, hi)) == multiset(Zip(k1, v1, lo, hi))
  {
    ZipSame(k2, v2, k3, v3, lo, hi);
  }

  /** A range of pairs left alone by one step and then permuted by the next is permuted overall. */
  lemma KeptThenPermuted<D>(k1: seq<int>, v1: seq<D>, k2: seq<int>, v2: seq<D>, k3: seq<int>, v3: seq<D>,
                            lo: int, hi: int, l2: int, h2: int)
    requires 0 <= lo <= hi <= |k1| == |k2| == |k3| && |k1| <= |v1| == |v2| == |v3|
    requires (hi <= l2 || h2 < lo) && 0 <= l2 && h2 < |k1|
    requires SameOutside(k2, k1, l2, h2) && SameOutside(v2, v1, l2, h2)
    requires multiset(Zip(k3, v3, lo, hi)) == multiset(Zip(k2, v2, lo, hi))
    ensures multiset(Zip(k3, v3, lo, hi)) == multiset(Zip(k1, v1, lo, hi))
  {
    ZipSame(k1, v1, k2, v2, lo, hi);
  }

  /** The two recursive sorts leave the whole range a permutation of what it was. */
  lemma PermutedHalves<D>(k1: seq<int>, v1: seq<D>, k2: seq<int>, v2: seq<D>, k3: seq<int>, v3: seq<D>,
                          left: int, j: int, right: int)
    requires 0 <= left <= j < right < |k1| == |k2| == |k3| && |k1| <= |v1| == |v2| == |v3|
    requires multiset(Zip(k2, v2, left, j + 1)) == multiset(Zip(k1, v1, left, j + 1))
    requires SameOutside(k2, k1, left, j) && SameOutside(v2, v1, left, j)
    requires multiset(Zip(k3, v3, j + 1, right + 1)) == multiset(Zip(k2, v2, j + 1, right + 1))
    requires SameOutside(k3, k2, j + 1, right) && SameOutside(v3, v2, j + 1, right)
    ensures multiset(Zip(k3, v3, left, right + 1)) == multiset(Zip(k1, v1, left, right + 1))
  {
    PermutedThenKept(k1, v1, k2, v2, k3, v3, left, j + 1, j + 1, right);
    KeptThenPermuted(k1, v1, k2, v2, k3, v3, j + 1, right + 1, left, j);
    JoinPermuted(k1, v1, k3, v3, left, j + 1, right + 1);
  }
}
