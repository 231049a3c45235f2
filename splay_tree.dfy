/**
 * The public face of the splay tree (SplayTree/SplayTree.cs:21-519): a tree
 * object keeping its root, its element count `Size` and the key-order flag
 * fixed at construction.
 *
 * The nodes are values of `Tree<D>`: a method that hands back a node in
 * the source hands back the subtree rooted there. Key order claims are made
 * for a tree whose in-order keys are sorted (`Valid`); every operation keeps
 * that, except that `Load` without presorting trusts its caller's order.
 *
 * Dafny has no expression for the default value of a type parameter, so the
 * tree fixes one value `defaultData` of the data type at construction; the
 * overloads without data (`InsertKey`, `AddKey`, `LoadKeys`) use it, as the
 * source uses `default(TData)`.
 */
module SplayTrees {
  import opened Ordering
  import opened Trees
  import opened TreeWalk
  import SplayCore
  import BulkLoad

  class SplayTree<D(0)> {
    /** The element count the tree maintains (`Size`). */
    var size: int
    var root: Tree<D>
    const reverse: bool
    /** The data that the overloads without data attach (`default(TData)`). */
    const defaultData: D

    constructor (reverseKeyOrder: bool)
      ensures root.Nil? && size == 0 && reverse == reverseKeyOrder
    {
      reverse := reverseKeyOrder;
      var d: D := *;
      defaultData := d;
      root := Nil;
      size := 0;
    }

    /** The in-order keys are sorted in the effective order of the tree. */
    ghost predicate Valid()
      reads this
    {
      Sorted(InOrder(root), reverse)
    }

    /** `IsEmpty` (SplayTree.cs:199): the tree has no nodes. */
    function IsEmpty(): (b: bool)
      reads this
      ensures b <==> InOrder(root) == []
    {
      InOrderEmpty(root);
      root.Nil?
    }

    /**
     * Insertion allowing duplicates (SplayTree.cs:43-47): the count grows by
     * one and the new pair becomes the root, with the old sequence split
     * around it.
     */
    method Insert(key: int, data: D) returns (r: Tree<D>)
      modifies this
      ensures size == old(size) + 1
      ensures r == root && root.Node? && EntryOf(root) == Entry(key, data)
      ensures InOrder(root.left) + InOrder(root.right) == old(InOrder(root))
      ensures multiset(InOrder(root)) == multiset(old(InOrder(root))) + multiset{Entry(key, data)}
      ensures old(Valid()) ==> Valid()
    {
      size := size + 1;
      root := SplayCore.Insert(key, data, root, reverse);
      r := root;
    }

    /** Insertion with the default value of the data type (SplayTree.cs:54-57). */
    method InsertKey(key: int) returns (r: Tree<D>)
      modifies this
      ensures size == old(size) + 1
      ensures r == root && root.Node? && EntryOf(root) == Entry(key, defaultData)
      ensures InOrder(root.left) + InOrder(root.right) == old(InOrder(root))
      ensures multiset(InOrder(root)) == multiset(old(InOrder(root))) + multiset{Entry(key, defaultData)}
      ensures old(Valid()) ==> Valid()
    {
      r := Insert(key, defaultData);
    }

    /**
     * Insertion unless the key is present (SplayTree.cs:65-102). On a sorted
     * tree: a present key is splayed to the root and nothing else changes;
     * an absent one is added as the new root and the count grows by one. On
     * any tree the result is one of those two outcomes.
     */
    method Add(key: int, data: D) returns (r: Tree<D>)
      modifies this
      ensures r == root && root.Node?
      ensures (InOrder(root) == old(InOrder(root)) && size == old(size))
           || (EntryOf(root) == Entry(key, data) && InOrder(root.left) + InOrder(root.right) == old(InOrder(root))
               && multiset(InOrder(root)) == multiset(old(InOrder(root))) + multiset{Entry(key, data)} && size == old(size) + 1)
      ensures old(Valid()) ==> Valid()
      ensures old(Valid()) && old(HasKey(InOrder(root), key)) ==>
        InOrder(root) == old(InOrder(root)) && size == old(size) && root.key == key
      ensures old(Valid()) && !old(HasKey(InOrder(root), key)) ==>
        EntryOf(root) == Entry(key, data) && InOrder(root.left) + InOrder(root.right) == old(InOrder(root))
        && multiset(InOrder(root)) == multiset(old(InOrder(root))) + multiset{Entry(key, data)}
        && size == old(size) + 1
    {
      ghost var before := InOrder(root);
      InOrderEmpty(root);
      var node := Node(Nil, key, data, Nil);
      if root.Nil? {
        size := size + 1;
        root := node;
        assert InOrder(root) == [Entry(key, data)];
      }
      var t := SplayCore.Splay(key, root, reverse);
      root := Added(t, key, data, reverse);
      if CompareTo(key, t.key, reverse) != 0 {
        size := size + 1;
      }
      ghost var grew := before == [] || t.key != key;
      AddOutcome(before, t, key, data, reverse, root, grew);
      assert size == old(size) + if grew then 1 else 0;
      r := root;
    }

    /** `Add` with the default value of the data type (SplayTree.cs:109-112). */
    method AddKey(key: int) returns (r: Tree<D>)
      modifies this
      ensures r == root && root.Node?
      ensures (InOrder(root) == old(InOrder(root)) && size == old(size))
           || (EntryOf(root) == Entry(key, defaultData) && InOrder(root.left) + InOrder(root.right) == old(InOrder(root))
               && multiset(InOrder(root)) == multiset(old(InOrder(root))) + multiset{Entry(key, defaultData)} && size == old(size) + 1)
      ensures old(Valid()) ==> Valid()
      ensures old(Valid()) && old(HasKey(InOrder(root), key)) ==>
        InOrder(root) == old(InOrder(root)) && size == old(size) && root.key == key
      ensures old(Valid()) && !old(HasKey(InOrder(root), key)) ==>
        EntryOf(root) == Entry(key, defaultData) && InOrder(root.left) + InOrder(root.right) == old(InOrder(root))
        && multiset(InOrder(root)) == multiset(old(InOrder(root))) + multiset{Entry(key, defaultData)}
        && size == old(size) + 1
    {
      r := Add(key, defaultData);
    }

    /**
     * Search without splaying (SplayTree.cs:165-178): the node found has the
     * key and lies in the tree, and on a sorted tree a node is found exactly
     * when the key is present.
     */
    method FindStatic(key: int) returns (r: Tree<D>)
      ensures r.Nil? || (r.key == key && Subtree(r, root))
      ensures Valid() ==> (r.Node? <==> HasKey(InOrder(root), key))
    {
      var current := root;
      ghost var sorted := Valid();
      while current.Node?
        invariant Subtree(current, root)
        invariant sorted ==> Sorted(InOrder(current), reverse)
        invariant sorted ==> (HasKey(InOrder(root), key) <==> HasKey(InOrder(current), key))
        decreases current
      {
        var cmp := CompareTo(key, current.key, reverse);
        if cmp == 0 {
          if sorted {
            InOrderNode(current);
            assert InOrder(current)[|InOrder(current.left)|].key == key;
          }
          return current;
        }
        if sorted {
          SearchStep(current, key, reverse);
        }
        SubtreeChildren(current, root);
        if cmp < 0 {
          current := current.left;
        } else {
          current := current.right;
        }
      }
      return Nil;
    }

    /**
     * Search with splaying (SplayTree.cs:183-192): the tree keeps its
     * sequence; the result is the new root when its key is the one sought,
     * and on a sorted tree that happens exactly when the key is present.
     */
    method Find(key: int) returns (r: Tree<D>)
      modifies this
      ensures InOrder(root) == old(InOrder(root)) && size == old(size)
      ensures r.Node? ==> r == root && r.key == key && HasKey(InOrder(root), key)
      ensures old(Valid()) ==> (r.Node? <==> old(HasKey(InOrder(root), key)))
    {
      if root.Node? {
        root := SplayCore.Splay(key, root, reverse);
        if CompareTo(key, root.key, reverse) != 0 {
          return Nil;
        }
        InOrderNode(root);
        assert InOrder(root)[|InOrder(root.left)|].key == key;
      }
      r := root;
    }

    /** Membership (SplayTree.cs:194-197): only a present key is reported, and on a sorted tree every present key is. */
    method Contains(key: int) returns (b: bool)
      ensures b ==> HasKey(InOrder(root), key)
      ensures Valid() ==> (b <==> HasKey(InOrder(root), key))
    {
      var node := FindStatic(key);
      b := node.Node?;
      if b {
        SubtreeHasKey(node, root);
      }
    }

    /**
     * Removal of one node of a key (SplayTree.cs:115-118): the root becomes
     * the tree `RemoveFrom` leaves.
     */
    method Remove(key: int)
      modifies this
      ensures size == old(size) || size == old(size) - 1
      ensures !old(HasKey(InOrder(root), key)) ==> InOrder(root) == old(InOrder(root)) && size == old(size)
      ensures old(Valid()) ==> Valid()
      ensures old(Valid()) && old(HasKey(InOrder(root), key)) ==>
        size == old(size) - 1 && |InOrder(root)| < old(|InOrder(root)|)
        && Without(InOrder(root), key) == Without(old(InOrder(root)), key)
      ensures old(StrictlySorted(InOrder(root), reverse)) && old(HasKey(InOrder(root), key)) ==>
        InOrder(root) == Without(old(InOrder(root)), key)
    {
      root := RemoveFrom(key, root);
    }

    /**
     * Removal from the tree `t` (SplayTree.cs:120-144): splay `t` at the
     * key; when the key reached the root, drop that root and join its left
     * subtree, splayed at the key, to its right one, and count one element
     * fewer. On a sorted tree only nodes of the key are dropped, and on a
     * tree without duplicates exactly the one.
     */
    method RemoveFrom(i: int, t: Tree<D>) returns (x: Tree<D>)
      modifies this
      ensures root == old(root)
      ensures size == old(size) || size == old(size) - 1
      ensures t.Nil? ==> x.Nil?
      ensures !HasKey(InOrder(t), i) ==> InOrder(x) == InOrder(t) && size == old(size)
      ensures Sorted(InOrder(t), reverse) ==> Sorted(InOrder(x), reverse)
      ensures Sorted(InOrder(t), reverse) && HasKey(InOrder(t), i) ==>
        size == old(size) - 1 && |InOrder(x)| < |InOrder(t)| && Without(InOrder(x), i) == Without(InOrder(t), i)
      ensures StrictlySorted(InOrder(t), reverse) && HasKey(InOrder(t), i) ==> InOrder(x) == Without(InOrder(t), i)
    {
      if t.Nil? {
        return Nil;
      }
      if StrictlySorted(InOrder(t), reverse) {
        StrictlySortedIsSorted(InOrder(t), reverse);
      }
      var s := SplayCore.Splay(i, t, reverse);
      var cmp := CompareTo(i, s.key, reverse);
      if cmp == 0 {
        if s.left.Nil? {
          x := s.right;
          RemoveNoLeft(s, i, reverse);
        } else {
          var y := SplayCore.Splay(i, s.left, reverse);
          x := Node(y.left, y.key, y.data, s.right);
          RemoveJoin(s, y, i, reverse);
        }
        size := size - 1;
        return x;
      }
      return s;
    }

    /**
     * Removal of the node with the smallest key (SplayTree.cs:150-160): the
     * leftmost node is found first and returned; the tree is then splayed at
     * its key and that key removed once.
     */
    method Pop() returns (r: Tree<D>)
      modifies this
      ensures old(root.Nil?) ==> r.Nil? && root.Nil? && size == old(size)
      ensures old(root.Node?) ==> r.Node? && EntryOf(r) == old(InOrder(root))[0]
      ensures old(Valid()) ==> Valid()
      ensures old(Valid()) && old(root.Node?) ==> AllAtLeast(old(InOrder(root)), r.key, reverse)
      ensures old(Valid()) && old(root.Node?) ==>
        size == old(size) - 1 && |InOrder(root)| < old(|InOrder(root)|)
        && Without(InOrder(root), r.key) == Without(old(InOrder(root)), r.key)
      ensures old(StrictlySorted(InOrder(root), reverse)) && old(root.Node?) ==> InOrder(root) == old(InOrder(root))[1..]
    {
      var node := root;
      if node.Nil? {
        return Nil;
      }
      ghost var rest: seq<Entry<D>> := [];
      while node.left.Node?
        invariant root == old(root) && size == old(size)
        invariant node.Node? && InOrder(root) == InOrder(node) + rest
        decreases node
      {
        LeftmostStep(node);
        Reassociate(InOrder(node.left), [EntryOf(node)] + InOrder(node.right), rest);
        rest := ([EntryOf(node)] + InOrder(node.right)) + rest;
        node := node.left;
      }
      LeftmostStep(node);
      ghost var whole := InOrder(root);
      assert whole[0] == EntryOf(node) && HasKey(whole, node.key);
      if Sorted(whole, reverse) {
        FirstBound(whole, reverse);
      }
      if StrictlySorted(whole, reverse) {
        WithoutOne([], whole[0], whole[1..], reverse) by {
          assert whole == [] + [whole[0]] + whole[1..];
        }
      }
      root := SplayCore.Splay(node.key, root, reverse);
      root := RemoveFrom(node.key, root);
      r := node;
    }

    /** Empties the tree (SplayTree.cs:463-467). */
    method Clear()
      modifies this
      ensures root.Nil? && size == 0
    {
      root := Nil;
      size := 0;
    }

    // -------------------------------------------------------------------
    // Bulk load

    /**
     * Bulk load of parallel key and value lists (SplayTree.cs:470-492). With
     * `presort` the lists are first sorted together in place. An empty tree
     * becomes the balanced tree of the pairs and its count the batch size;
     * otherwise the tree's in-order list and the batch are merged and the
     * first `Size` plus batch-size entries of the merge rebuilt into a
     * balanced tree. When the count matches the nodes, that is every entry.
     * A count above the number of nodes would make the rebuild read past
     * the end of the merged list, which the source does not guard.
     */
    method Load(keys: array<int>, values: array<D>, presort: bool)
      requires keys as object != values as object
      requires keys.Length <= values.Length
      requires root.Node? ==> size <= |InOrder(root)|
      modifies this, keys, values
      ensures presort ==> Sorted(Pairs(keys[..], values[..keys.Length]), reverse)
      ensures multiset(Pairs(keys[..], values[..keys.Length])) == multiset(old(Pairs(keys[..], values[..keys.Length])))
      ensures !presort ==> keys[..] == old(keys[..]) && values[..] == old(values[..])
      ensures old(root.Nil?) ==> InOrder(root) == Pairs(keys[..], values[..keys.Length]) && size == keys.Length
      ensures old(root.Node?) ==> size == old(size) + keys.Length
      ensures old(root.Node?) ==>
        var merged := BulkLoad.MergeSpec(old(InOrder(root)), Pairs(keys[..], values[..keys.Length]), reverse);
        InOrder(root) == merged[..if size < 0 then 0 else size]
      ensures old(root.Node?) && old(size) == old(|InOrder(root)|) ==>
        InOrder(root) == BulkLoad.MergeSpec(old(InOrder(root)), Pairs(keys[..], values[..keys.Length]), reverse)
        && size == |InOrder(root)|
      ensures Balanced(root)
      ensures Sorted(Pairs(keys[..], values[..keys.Length]), reverse) && (old(root.Nil?) || old(Valid())) ==> Valid()
    {
      var n := keys.Length;
      if presort {
        ghost var batch0 := Pairs(keys[..], values[..n]);
        BulkLoad.ZipWhole(keys[..], values[..]);
        BulkLoad.Sort(keys, values, 0, n - 1, reverse);
        BulkLoad.ZipWhole(keys[..], values[..]);
        assert multiset(Pairs(keys[..], values[..n])) == multiset(batch0);
      }
      BulkLoad.ZipWhole(keys[..], values[..]);
      if root.Nil? {
        root := BulkLoad.LoadRecursive(keys[..], values[..], 0, n);
        assert keys[..][0..n] == keys[..];
        size := n;
      } else {
        var batch := BulkLoad.CreateList(keys, values);
        MergeIn(batch);
      }
    }

    /**
     * The non-empty case of `Load` (SplayTree.cs:483-489): the tree's
     * in-order list merged with the batch list, and the first `Size` plus
     * batch-size entries of the merge rebuilt into a balanced tree. The
     * result is sorted when both inputs are, even when the count falls
     * short of the nodes.
     */
    method MergeIn(batch: seq<Entry<D>>)
      requires root.Node? && size <= |InOrder(root)|
      modifies this
      ensures size == old(size) + |batch|
      ensures InOrder(root) == BulkLoad.MergeSpec(old(InOrder(root)), batch, reverse)[..if size < 0 then 0 else size]
      ensures old(size) == old(|InOrder(root)|) ==>
        InOrder(root) == BulkLoad.MergeSpec(old(InOrder(root)), batch, reverse) && size == |InOrder(root)|
      ensures Balanced(root)
      ensures old(Valid()) && Sorted(batch, reverse) ==> Valid()
    {
      var l1 := BulkLoad.ToList(root);
      var merged := BulkLoad.MergeLists(l1, batch, reverse);
      size := size + |batch|;
      var list := new BulkLoad.TreeNodeList(merged);
      root := BulkLoad.SortedListToBST(list, 0, size);
      assert merged[..|merged|] == merged;
      if Sorted(l1, reverse) && Sorted(batch, reverse) {
        BulkLoad.MergeSorted(l1, batch, reverse);
        SortedPrefix(merged, if size < 0 then 0 else size, reverse);
      }
    }

    /**
     * Bulk load of keys alone (SplayTree.cs:494-498): `Load` with every key
     * paired with the default data value.
     */
    method LoadKeys(keys: array<int>, presort: bool)
      requires root.Node? ==> size <= |InOrder(root)|
      modifies this, keys
      ensures presort ==> forall i, j :: 0 <= i < j < keys.Length ==> Ord(keys[i], reverse) <= Ord(keys[j], reverse)
      ensures multiset(keys[..]) == multiset(old(keys[..]))
      ensures !presort ==> keys[..] == old(keys[..])
      ensures old(root.Nil?) ==> InOrder(root) == WithData(keys[..], defaultData) && size == keys.Length
      ensures old(root.Node?) ==> size == old(size) + keys.Length
      ensures old(root.Node?) ==>
        var merged := BulkLoad.MergeSpec(old(InOrder(root)), WithData(keys[..], defaultData), reverse);
        InOrder(root) == merged[..if size < 0 then 0 else size]
      ensures old(root.Node?) && old(size) == old(|InOrder(root)|) ==>
        InOrder(root) == BulkLoad.MergeSpec(old(InOrder(root)), WithData(keys[..], defaultData), reverse)
        && size == |InOrder(root)|
      ensures Balanced(root)
      ensures presort && (old(root.Nil?) || old(Valid())) ==> Valid()
    {
      var values := new D[keys.Length](_ => defaultData);
      assert forall i :: 0 <= i < keys.Length ==> values[..keys.Length][i] == defaultData;
      ghost var k0, v0 := keys[..], values[..keys.Length];
      Load(keys, values, presort);
      ghost var k1, v1 := keys[..], values[..keys.Length];
      PermutedDataPairs(k0, v0, k1, v1, defaultData);
      if presort {
        SortedPairsKeys(k1, v1, reverse);
      }
    }

    // -------------------------------------------------------------------
    // Split and update

    /**
     * The public split (SplayTree.cs:516-519): the two halves of the tree
     * around `key`, as `SplayCore.Split` makes them; the tree's own root is
     * not reassigned.
     */
    method SplitAt(key: int, position: SplayCore.SplitPosition) returns (left: Tree<D>, right: Tree<D>)
      ensures root.Nil? ==> left.Nil? && right.Nil?
      ensures Valid() && !HasKey(InOrder(root), key) ==>
        InOrder(left) + InOrder(right) == InOrder(root)
        && AllBelow(InOrder(left), key, reverse) && AllAbove(InOrder(right), key, reverse)
      ensures Valid() && HasKey(InOrder(root), key) && position == SplayCore.None ==>
        SplayCore.SplitsAround(InOrder(root), InOrder(left), key, InOrder(right))
      ensures StrictlySorted(InOrder(root), reverse) && HasKey(InOrder(root), key) && position == SplayCore.None ==>
        InOrder(left) + InOrder(right) == Without(InOrder(root), key)
      ensures Valid() && HasKey(InOrder(root), key) && position == SplayCore.Left ==>
        InOrder(left) + InOrder(right) == InOrder(root)
        && |InOrder(left)| > 0 && InOrder(left)[|InOrder(left)| - 1].key == key
      ensures Valid() && HasKey(InOrder(root), key) && position == SplayCore.Right ==>
        InOrder(left) + InOrder(right) == InOrder(root)
        && |InOrder(right)| > 0 && InOrder(right)[0].key == key
    {
      left, right := SplayCore.Split(key, root, reverse, position);
      if StrictlySorted(InOrder(root), reverse) && HasKey(InOrder(root), key) && position == SplayCore.None {
        StrictlySortedIsSorted(InOrder(root), reverse);
        var s := InOrder(root);
        WithoutOne(InOrder(left), s[|InOrder(left)|], InOrder(right), reverse);
      }
    }

    /**
     * `Update` as the source writes it (SplayTree.cs:500-513): split at
     * `key`, dropping a node of that key; insert the new pair into the half
     * its key falls in; merge the halves. A sorted tree stays sorted. The
     * contents are stated when keys are distinct or `key` is absent. The
     * count is never touched, so when `key` is absent the tree gains a node
     * the count does not record.
     */
    method UpdateAsWritten(key: int, newKey: int, newData: D)
      modifies this
      ensures size == old(size)
      ensures old(Valid()) ==> Valid()
      ensures old(UpdateFits(InOrder(root), key, reverse)) ==>
        Valid()
        && multiset(InOrder(root)) == multiset(Without(old(InOrder(root)), key)) + multiset{Entry(newKey, newData)}
        && |InOrder(root)| == old(|InOrder(root)|) + (if old(HasKey(InOrder(root), key)) then 0 else 1)
    {
      root := UpdateTree(key, newKey, newData, root, reverse);
    }

    /**
     * `Update` with the count kept (the intended behaviour of
     * SplayTree.cs:500-513): as `UpdateAsWritten`, and one more element
     * counted when `key` was absent, so a count that matched the nodes
     * still does.
     */
    method Update(key: int, newKey: int, newData: D)
      modifies this
      ensures size == old(size) || size == old(size) + 1
      ensures old(Valid()) ==> Valid()
      ensures old(Valid()) ==> size == old(size) + (if old(HasKey(InOrder(root), key)) then 0 else 1)
      ensures old(UpdateFits(InOrder(root), key, reverse)) ==>
        Valid()
        && multiset(InOrder(root)) == multiset(Without(old(InOrder(root)), key)) + multiset{Entry(newKey, newData)}
      ensures old(UpdateFits(InOrder(root), key, reverse)) && old(size) == old(|InOrder(root)|) ==> size == |InOrder(root)|
    {
      var present := Contains(key);
      UpdateAsWritten(key, newKey, newData);
      if !present {
        size := size + 1;
      }
    }

    // -------------------------------------------------------------------
    // Read-only walks

    /**
     * The range walk with a visitor that can stop it (SplayTree.cs:207-240):
     * an in-order walk over an explicit stack that ends at the first key
     * above `high`, visits the keys not below `low`, and ends right after a
     * visit for which `stop` holds. The visits are returned in order; on a
     * sorted tree they are the keys in range, up to and including the first
     * that stops the walk.
     */
    method RangeUntil(low: int, high: int, stop: Entry<D> -> bool) returns (visited: seq<Entry<D>>)
      ensures visited == RangeVisitsUntil(InOrder(root), low, high, stop, reverse)
      ensures Valid() ==>
        (|visited| <= |KeysInRange(InOrder(root), low, high, reverse)|
         && visited == KeysInRange(InOrder(root), low, high, reverse)[..|visited|])
      ensures Valid() && (visited == [] || !stop(visited[|visited| - 1])) ==>
        visited == KeysInRange(InOrder(root), low, high, reverse)
    {
      visited := WalkUntil(low, high, stop);
      RangeUntilMeaning(InOrder(root), visited, low, high, stop, reverse);
    }

    /** The stack walk of `RangeUntil` (SplayTree.cs:213-239), proved against `RangeVisitsUntil`. */
    method WalkUntil(low: int, high: int, stop: Entry<D> -> bool) returns (visited: seq<Entry<D>>)
      ensures visited == RangeVisitsUntil(InOrder(root), low, high, stop, reverse)
    {
      ghost var total := RangeVisitsUntil(InOrder(root), low, high, stop, reverse);
      var stack: seq<Tree<D>> := [];
      var node := root;
      visited := [];
      assert Pending(node, stack) == InOrder(root);
      while |stack| != 0 || node.Node?
        invariant forall k :: 0 <= k < |stack| ==> stack[k].Node?
        invariant visited + RangeVisitsUntil(Pending(node, stack), low, high, stop, reverse) == total
        decreases |Pending(node, stack)|, |InOrder(node)|
      {
        if node.Node? {
          PushStep(node, stack);
          stack := stack + [node];
          node := node.left;
        } else {
          PopStep(stack);
          node := stack[|stack| - 1];
          stack := stack[..|stack| - 1];
          ghost var rest := Pending(node.right, stack);
          RangeStep(EntryOf(node), rest, low, high, stop, reverse);
          if CompareTo(node.key, high, reverse) > 0 {
            NothingLeft(visited, [], total);
            break;
          }
          if CompareTo(node.key, low, reverse) >= 0 {
            MoveOne(visited, EntryOf(node), RangeVisitsUntil(rest, low, high, stop, reverse));
            if stop(EntryOf(node)) {
              NothingLeft(visited + [EntryOf(node)], [], total);
            }
            visited := visited + [EntryOf(node)];
            if stop(EntryOf(node)) {
              break;
            }
          }
          node := node.right;
        }
      }
      if |stack| == 0 && node.Nil? {
        NothingLeft(visited, [], total);
      }
    }

    /**
     * The range walk with a plain visitor (SplayTree.cs:248-277): the same
     * walk, without the early stop.
     */
    method Range(low: int, high: int) returns (visited: seq<Entry<D>>)
      ensures visited == RangeVisits(InOrder(root), low, high, reverse)
      ensures Valid() ==> visited == KeysInRange(InOrder(root), low, high, reverse)
    {
      ghost var total := RangeVisits(InOrder(root), low, high, reverse);
      var stack: seq<Tree<D>> := [];
      var node := root;
      visited := [];
      assert Pending(node, stack) == InOrder(root);
      while |stack| != 0 || node.Node?
        invariant forall k :: 0 <= k < |stack| ==> stack[k].Node?
        invariant visited + RangeVisits(Pending(node, stack), low, high, reverse) == total
        decreases |Pending(node, stack)|, |InOrder(node)|
      {
        if node.Node? {
          PushStep(node, stack);
          stack := stack + [node];
          node := node.left;
        } else {
          PopStep(stack);
          node := stack[|stack| - 1];
          stack := stack[..|stack| - 1];
          ghost var rest := Pending(node.right, stack);
          RangeStep(EntryOf(node), rest, low, high, e => false, reverse);
          var cmp := CompareTo(node.key, high, reverse);
          if cmp > 0 {
            break;
          } else if CompareTo(node.key, low, reverse) >= 0 {
            MoveOne(visited, EntryOf(node), RangeVisits(rest, low, high, reverse));
            visited := visited + [EntryOf(node)];
          }
          node := node.right;
        }
      }
      if Valid() {
        RangeVisitsSorted(InOrder(root), low, high, reverse);
      }
    }

    /**
     * The in-order enumerator (SplayTree.cs:285-312): the same stack walk as
     * `BulkLoad.ToList`, yielding every entry once, in order.
     */
    method Enumerate() returns (s: seq<Entry<D>>)
      ensures s == InOrder(root)
      ensures |s| == |InOrder(root)|
      ensures Valid() ==> Sorted(s, reverse)
    {
      s := BulkLoad.ToList(root);
    }

    /**
     * The leftmost node below `node`, or below the root when `node` is null
     * (SplayTree.cs:348-360): the first entry of its sequence, which on a
     * sorted tree has the least key.
     */
    method MinNode(node: Tree<D>) returns (r: Tree<D>)
      ensures var n := if node.Nil? then root else node;
        n.Nil? ==> r.Nil?
      ensures var n := if node.Nil? then root else node;
        n.Node? ==> r.Node? && r.left.Nil? && Subtree(r, n) && EntryOf(r) == InOrder(n)[0]
      ensures var n := if node.Nil? then root else node;
        n.Node? && Sorted(InOrder(n), reverse) ==> AllAtLeast(InOrder(n), r.key, reverse)
    {
      r := if node.Nil? then root else node;
      if r.Node? {
        ghost var n := r;
        ghost var rest: seq<Entry<D>> := [];
        while r.left.Node?
          invariant r.Node? && Subtree(r, n) && InOrder(n) == InOrder(r) + rest
          decreases r
        {
          LeftmostStep(r);
          SubtreeChildren(r, n);
          Reassociate(InOrder(r.left), [EntryOf(r)] + InOrder(r.right), rest);
          rest := ([EntryOf(r)] + InOrder(r.right)) + rest;
          r := r.left;
        }
        LeftmostFirst(n, r, rest, reverse);
      }
    }

    /** The rightmost node (SplayTree.cs:362-374): the last entry, with the greatest key on a sorted tree. */
    method MaxNode(node: Tree<D>) returns (r: Tree<D>)
      ensures var n := if node.Nil? then root else node;
        n.Nil? ==> r.Nil?
      ensures var n := if node.Nil? then root else node;
        n.Node? ==> r.Node? && r.right.Nil? && Subtree(r, n) && EntryOf(r) == InOrder(n)[|InOrder(n)| - 1]
      ensures var n := if node.Nil? then root else node;
        n.Node? && Sorted(InOrder(n), reverse) ==> AllAtMost(InOrder(n), r.key, reverse)
    {
      r := if node.Nil? then root else node;
      if r.Node? {
        ghost var n := r;
        InOrderEmpty(n);
        while r.right.Node?
          invariant r.Node? && Subtree(r, n) && InOrder(n) != []
          invariant InOrder(r) != [] && InOrder(n)[|InOrder(n)| - 1] == InOrder(r)[|InOrder(r)| - 1]
          decreases r
        {
          LastInRight(r);
          SubtreeChildren(r, n);
          r := r.right;
        }
        RightmostLast(n, r, reverse);
      }
    }

    /** The least key in the tree's order, or the default 0 when empty (SplayTree.cs:319-331). */
    method MinKey() returns (k: int)
      ensures root.Nil? ==> k == 0
      ensures root.Node? ==> k == InOrder(root)[0].key
      ensures root.Node? && Valid() ==> AllAtLeast(InOrder(root), k, reverse)
    {
      var node := MinNode(Nil);
      if node.Nil? {
        return 0;
      }
      return node.key;
    }

    /** The greatest key in the tree's order, or the default 0 when empty (SplayTree.cs:333-345). */
    method MaxKey() returns (k: int)
      ensures root.Nil? ==> k == 0
      ensures root.Node? ==> k == InOrder(root)[|InOrder(root)| - 1].key
      ensures root.Node? && Valid() ==> AllAtMost(InOrder(root), k, reverse)
    {
      var node := MaxNode(Nil);
      if node.Nil? {
        return 0;
      }
      return node.key;
    }

    /**
     * The node at a position of the in-order sequence (SplayTree.cs:376-404):
     * a stack walk counting visited nodes; null for a position outside the
     * sequence, negative ones included.
     */
    method At(index: int) returns (r: Tree<D>)
      ensures 0 <= index < |InOrder(root)| ==> r.Node? && EntryOf(r) == InOrder(root)[index]
      ensures !(0 <= index < |InOrder(root)|) ==> r.Nil?
    {
      var current := root;
      var stack: seq<Tree<D>> := [];
      var done := false;
      var i := 0;
      ghost var seen: seq<Entry<D>> := [];
      while !done
        invariant !done ==> seen + Pending(current, stack) == InOrder(root)
        invariant done ==> seen == InOrder(root)
        invariant forall k :: 0 <= k < |stack| ==> stack[k].Node?
        invariant i == |seen| && (index < 0 || i <= index)
        decreases if done then 0 else 1, |Pending(current, stack)|, |InOrder(current)|
      {
        if current.Node? {
          PushStep(current, stack);
          stack := stack + [current];
          current := current.left;
        } else if |stack| > 0 {
          PopStep(stack);
          current := stack[|stack| - 1];
          stack := stack[..|stack| - 1];
          MoveOne(seen, EntryOf(current), Pending(current.right, stack));
          if i == index {
            assert (seen + ([EntryOf(current)] + Pending(current.right, stack)))[|seen|] == EntryOf(current);
            return current;
          }
          i := i + 1;
          seen := seen + [EntryOf(current)];
          current := current.right;
        } else {
          done := true;
        }
      }
      return Nil;
    }

    /**
     * The in-order successor (SplayTree.cs:406-431): the leftmost node of the
     * right subtree when there is one; otherwise a search from the root for
     * the node's key, remembering the last node where it went left. For a
     * node of a tree with distinct keys that is the next entry, or null
     * after the last.
     */
    method Next(node: Tree<D>) returns (r: Tree<D>)
      requires node.Node?
      ensures node.right.Node? ==> r.Node? && EntryOf(r) == InOrder(node.right)[0]
      ensures StrictlySorted(InOrder(root), reverse) && Subtree(node, root) ==> FollowsIn(r, InOrder(root), EntryOf(node))
    {
      if node.right.Node? {
        r := MinNode(node.right);
        if StrictlySorted(InOrder(root), reverse) && Subtree(node, root) {
          FollowsIntoRight(node, root, r, reverse);
        }
        return r;
      }
      ghost var ok := StrictlySorted(InOrder(root), reverse) && Subtree(node, root);
      ghost var pre: seq<Entry<D>> := [];
      ghost var post: seq<Entry<D>> := [];
      var cur := root;
      r := Nil;
      while cur.Node?
        invariant ok ==> Subtree(node, cur) && StrictlySorted(InOrder(cur), reverse) && InOrder(root) == pre + InOrder(cur) + post
        invariant ok ==> (post == [] ==> r.Nil?) && (post != [] ==> r.Node? && EntryOf(r) == post[0])
        decreases cur
      {
        var cmp := CompareTo(node.key, cur.key, reverse);
        if cmp == 0 {
          if ok {
            FoundFollows(node, cur, r, pre, post, InOrder(root), reverse);
          }
          break;
        } else if cmp < 0 {
          if ok {
            SearchLeft(node, cur, pre, post, reverse);
          }
          post := ([EntryOf(cur)] + InOrder(cur.right)) + post;
          r := cur;
          cur := cur.left;
        } else {
          if ok {
            SearchRight(node, cur, pre, post, reverse);
          }
          pre := pre + (InOrder(cur.left) + [EntryOf(cur)]);
          cur := cur.right;
        }
      }
    }

    /** The in-order predecessor (SplayTree.cs:433-461), symmetric to `Next`. */
    method Prev(node: Tree<D>) returns (r: Tree<D>)
      requires node.Node?
      ensures node.left.Node? ==> r.Node? && EntryOf(r) == InOrder(node.left)[|InOrder(node.left)| - 1]
      ensures StrictlySorted(InOrder(root), reverse) && Subtree(node, root) ==> PrecedesIn(r, InOrder(root), EntryOf(node))
    {
      if node.left.Node? {
        r := MaxNode(node.left);
        if StrictlySorted(InOrder(root), reverse) && Subtree(node, root) {
          PrecedesFromLeft(node, root, r, reverse);
        }
        return r;
      }
      ghost var ok := StrictlySorted(InOrder(root), reverse) && Subtree(node, root);
      ghost var pre: seq<Entry<D>> := [];
      ghost var post: seq<Entry<D>> := [];
      var cur := root;
      r := Nil;
      while cur.Node?
        invariant ok ==> Subtree(node, cur) && StrictlySorted(InOrder(cur), reverse) && InOrder(root) == pre + InOrder(cur) + post
        invariant ok ==> (pre == [] ==> r.Nil?) && (pre != [] ==> r.Node? && EntryOf(r) == pre[|pre| - 1])
        decreases cur
      {
        var cmp := CompareTo(node.key, cur.key, reverse);
        if cmp == 0 {
          if ok {
            FoundPrecedes(node, cur, r, pre, post, InOrder(root), reverse);
          }
          break;
        }
        if cmp < 0 {
          if ok {
            SearchLeft(node, cur, pre, post, reverse);
          }
          post := ([EntryOf(cur)] + InOrder(cur.right)) + post;
          cur := cur.left;
        } else {
          if ok {
            SearchRight(node, cur, pre, post, reverse);
          }
          pre := pre + (InOrder(cur.left) + [EntryOf(cur)]);
          r := cur;
          cur := cur.right;
        }
      }
    }
  }

  /**
   * The node `Add` links in when the splayed root `t` has another key: the
   * new pair on top, `t` hung on the side its key falls. The sequence gains
   * exactly that pair and a sorted one stays sorted.
   */
  lemma LinkNew<D>(t: Tree<D>, key: int, data: D, whole: seq<Entry<D>>, reverse: bool, sorted: bool)
    requires t.Node? && InOrder(t) == whole && key != t.key
    requires sorted ==> Sorted(whole, reverse) && SplayCore.SplayedAt(t, key, reverse)
    ensures var r := if Ord(key, reverse) < Ord(t.key, reverse)
                     then Node(t.left, key, data, Node(Nil, t.key, t.data, t.right))
                     else Node(Node(t.left, t.key, t.data, Nil), key, data, t.right);
      && InOrder(r.left) + InOrder(r.right) == whole
      && multiset(InOrder(r)) == multiset(whole) + multiset{Entry(key, data)}
      && (sorted ==> Sorted(InOrder(r), reverse))
  {
    InOrderNode(t);
    if sorted {
      SplayCore.SplayedParts(t, key, reverse);
    }
    if Ord(key, reverse) < Ord(t.key, reverse) {
      var r := Node(t.left, key, data, Node(Nil, t.key, t.data, t.right));
      SplayCore.NewRoot(r.left, Entry(key, data), r.right, whole, reverse, sorted);
    } else {
      var r := Node(Node(t.left, t.key, t.data, Nil), key, data, t.right);
      SplayCore.NewRoot(r.left, Entry(key, data), r.right, whole, reverse, sorted);
    }
  }

  /**
   * The tree `Add` leaves after splaying `t`: `t` itself when its root has
   * the key, otherwise the new node linked above it.
   */
  function Added<D>(t: Tree<D>, key: int, data: D, reverse: bool): Tree<D>
    requires t.Node?
  {
    var cmp := CompareTo(key, t.key, reverse);
    if cmp == 0 then t
    else if cmp < 0 then Node(t.left, key, data, Node(Nil, t.key, t.data, t.right))
    else Node(Node(t.left, t.key, t.data, Nil), key, data, t.right)
  }

  /**
   * What `Add` achieves, on values: `before` is the old sequence and `t` the
   * splayed tree (of the new single node when `before` is empty). Either
   * nothing changes, or the new entry becomes the root over the old sequence.
   */
  lemma AddOutcome<D>(before: seq<Entry<D>>, t: Tree<D>, key: int, data: D, reverse: bool, r: Tree<D>, grew: bool)
    requires t.Node? && r == Added(t, key, data, reverse) && grew == (before == [] || t.key != key)
    requires before == [] ==> InOrder(t) == [Entry(key, data)]
    requires before != [] ==> InOrder(t) == before
    requires before != [] && Sorted(before, reverse) ==>
      SplayCore.SplayedAt(t, key, reverse) && (HasKey(before, key) <==> t.key == key)
    ensures r.Node? && (before == [] ==> t.key == key)
    ensures (InOrder(r) == before && !grew)
         || (EntryOf(r) == Entry(key, data) && InOrder(r.left) + InOrder(r.right) == before
             && multiset(InOrder(r)) == multiset(before) + multiset{Entry(key, data)} && grew)
    ensures Sorted(before, reverse) ==> Sorted(InOrder(r), reverse)
    ensures Sorted(before, reverse) && HasKey(before, key) ==> InOrder(r) == before && !grew && r.key == key
    ensures Sorted(before, reverse) && !HasKey(before, key) ==>
      EntryOf(r) == Entry(key, data) && InOrder(r.left) + InOrder(r.right) == before
      && multiset(InOrder(r)) == multiset(before) + multiset{Entry(key, data)} && grew
  {
    if before == [] {
      SingleEntry(t, Entry(key, data), reverse);
      assert r == t;
    } else if t.key == key {
      assert r == t;
    } else {
      LinkNew(t, key, data, before, reverse, Sorted(before, reverse));
    }
  }

  /** A tree whose sequence is one entry: that entry at the root, with nothing on either side. */
  lemma SingleEntry<D>(t: Tree<D>, e: Entry<D>, reverse: bool)
    requires t.Node? && InOrder(t) == [e]
    ensures EntryOf(t) == e && InOrder(t.left) == [] && InOrder(t.right) == []
    ensures InOrder(t.left) + InOrder(t.right) == [] && multiset(InOrder(t)) == multiset{e}
    ensures Sorted(InOrder(t), reverse)
  {
    InOrderNode(t);
  }

  /** Dropping a root of the key that has no left subtree leaves its right subtree. */
  lemma RemoveNoLeft<D>(s: Tree<D>, i: int, reverse: bool)
    requires s.Node? && s.left.Nil? && s.key == i
    ensures DroppedRoot(InOrder(s), InOrder(s.right), i, reverse)
  {
    var e, r := EntryOf(s), InOrder(s.right);
    assert InOrder(s) == [e] + r;
    assert InOrder(s)[0] == e;
    WithoutConcat([e], r, i);
    assert Without([e], i) == [] by {
      assert [e][1..] == [];
    }
    if Sorted(InOrder(s), reverse) {
      SortedSplit([e], r, reverse);
    }
    if StrictlySorted(InOrder(s), reverse) {
      WithoutOne([], e, r, reverse) by {
        assert [] + [e] + r == [e] + r;
      }
    }
  }

  /**
   * What dropping one entry of key `i` from `ts` to leave `xs` promises: the
   * key was there; on a sorted sequence the rest stays sorted, is shorter
   * and keeps every entry of another key; with distinct keys exactly the
   * one entry goes.
   */
  ghost predicate DroppedRoot<D>(ts: seq<Entry<D>>, xs: seq<Entry<D>>, i: int, reverse: bool)
  {
    && HasKey(ts, i)
    && (Sorted(ts, reverse) ==> Sorted(xs, reverse) && |xs| < |ts| && Without(xs, i) == Without(ts, i))
    && (StrictlySorted(ts, reverse) ==> xs == Without(ts, i))
  }

  /**
   * Dropping a root of the key whose left subtree, splayed at the key, is
   * `y`, by joining `y`'s parts to the right subtree.
   */
  lemma RemoveJoin<D>(s: Tree<D>, y: Tree<D>, i: int, reverse: bool)
    requires s.Node? && s.key == i && y.Node? && InOrder(y) == InOrder(s.left)
    requires Sorted(InOrder(s), reverse) ==> SplayCore.SplayedAt(s, i, reverse)
    requires Sorted(InOrder(s.left), reverse) ==> SplayCore.SplayedAt(y, i, reverse)
    ensures DroppedRoot(InOrder(s), InOrder(Node(y.left, y.key, y.data, s.right)), i, reverse)
  {
    InOrderNode(s);
    assert InOrder(s)[|InOrder(s.left)|] == EntryOf(s);
    if Sorted(InOrder(s), reverse) {
      var e, r := EntryOf(s), InOrder(s.right);
      var a, b := InOrder(y.left) + [EntryOf(y)], InOrder(y.right);
      InOrderNode(y);
      SortedParts(s, reverse);
      JoinKeepsOrder(a, b, e, r, i, reverse);
      JoinKeepsOtherKeys(a, b, e, r, i, reverse);
      if StrictlySorted(InOrder(s), reverse) {
        JoinDropsOne(a, b, e, r, i, reverse);
      }
    }
  }

  /** The pieces of a removal: `a + b` is the left part, all at most `i`, and `b` the part at least `i` that is dropped. */
  ghost predicate RemovalPieces<D>(a: seq<Entry<D>>, b: seq<Entry<D>>, e: Entry<D>, r: seq<Entry<D>>, i: int, reverse: bool)
  {
    && e.key == i && Sorted(a + b, reverse) && Sorted(r, reverse)
    && AllAtMost(a + b, i, reverse) && AllAtLeast(b, i, reverse) && AllAtLeast(r, i, reverse)
  }

  lemma JoinKeepsOrder<D>(a: seq<Entry<D>>, b: seq<Entry<D>>, e: Entry<D>, r: seq<Entry<D>>, i: int, reverse: bool)
    requires RemovalPieces(a, b, e, r, i, reverse)
    ensures Sorted(a + r, reverse)
  {
    SortedSplit(a, b, reverse);
    AllBelowConcat(a, b, i, reverse);
    SortedJoin(a, r, i, reverse);
  }

  lemma JoinKeepsOtherKeys<D>(a: seq<Entry<D>>, b: seq<Entry<D>>, e: Entry<D>, r: seq<Entry<D>>, i: int, reverse: bool)
    requires RemovalPieces(a, b, e, r, i, reverse)
    ensures Without(a + r, i) == Without((a + b) + [e] + r, i)
  {
    AllBelowConcat(a, b, i, reverse);
    forall j | 0 <= j < |b| ensures b[j].key == i {
      OrdInjective(b[j].key, i, reverse);
    }
    WithoutOnlyKey(b, i);
    assert Without([e], i) == [] by {
      assert [e][1..] == [];
    }
    WithoutConcat(a, b, i);
    WithoutConcat(a + b, [e], i);
    WithoutConcat((a + b) + [e], r, i);
    WithoutConcat(a, r, i);
  }

  lemma JoinDropsOne<D>(a: seq<Entry<D>>, b: seq<Entry<D>>, e: Entry<D>, r: seq<Entry<D>>, i: int, reverse: bool)
    requires RemovalPieces(a, b, e, r, i, reverse)
    requires StrictlySorted((a + b) + [e] + r, reverse)
    ensures a + r == Without((a + b) + [e] + r, i)
  {
    var l := a + b;
    StrictlySortedSplit(l, [e] + r, reverse) by {
      assert l + [e] + r == l + ([e] + r);
    }
    TailBelow(a, b, e, r, reverse);
    AboveAtMostEmpty(b, i, reverse);
    assert l == a;
    WithoutOne(l, e, r, reverse);
  }

  /** When all of `a + b` lies below all of `[e] + r`, so does `b` below `e`. */
  lemma TailBelow<D>(a: seq<Entry<D>>, b: seq<Entry<D>>, e: Entry<D>, r: seq<Entry<D>>, reverse: bool)
    requires KeysBelow(a + b, [e] + r, reverse)
    ensures AllBelow(b, e.key, reverse)
  {
    forall j | 0 <= j < |b| ensures Ord(b[j].key, reverse) < Ord(e.key, reverse) {
      assert b[j] == (a + b)[|a| + j] && ([e] + r)[0] == e;
    }
  }

  /** What the stopping range walk means on a sorted tree, in terms of the entries in range. */
  lemma RangeUntilMeaning<D>(s: seq<Entry<D>>, visited: seq<Entry<D>>, low: int, high: int, stop: Entry<D> -> bool, reverse: bool)
    requires visited == RangeVisitsUntil(s, low, high, stop, reverse)
    ensures Sorted(s, reverse) ==>
      (|visited| <= |KeysInRange(s, low, high, reverse)| && visited == KeysInRange(s, low, high, reverse)[..|visited|])
    ensures Sorted(s, reverse) && (visited == [] || !stop(visited[|visited| - 1])) ==>
      visited == KeysInRange(s, low, high, reverse)
  {
    RangeVisitsUntilPrefix(s, low, high, stop, reverse);
    RangeVisitsUntilShort(s, low, high, stop, reverse);
    if Sorted(s, reverse) {
      RangeVisitsSorted(s, low, high, reverse);
    }
  }

  /**
   * When an update is sure to keep the order: keys are distinct, or the key
   * being replaced is absent.
   */
  ghost predicate UpdateFits<D>(s: seq<Entry<D>>, key: int, reverse: bool)
  {
    StrictlySorted(s, reverse) || (Sorted(s, reverse) && !HasKey(s, key))
  }

  /**
   * The halves of an update: after a split at `key` of a sequence the
   * update fits, and the new entry `e` inserted into one half, the halves
   * are sorted and separated, and together they hold the old entries but
   * `key`'s one, plus `e`.
   */
  lemma UpdateJoin<D>(whole: seq<Entry<D>>, l0: seq<Entry<D>>, r0: seq<Entry<D>>, l1: seq<Entry<D>>, r1: seq<Entry<D>>,
                      key: int, e: Entry<D>, reverse: bool)
    requires UpdateFits(whole, key, reverse)
    requires !HasKey(whole, key) ==>
      l0 + r0 == whole && AllBelow(l0, key, reverse) && AllAbove(r0, key, reverse)
    requires HasKey(whole, key) ==> SplayCore.SplitsAround(whole, l0, key, r0)
    requires Ord(key, reverse) < Ord(e.key, reverse) ==>
      l1 == l0 && multiset(r1) == multiset(r0) + multiset{e} && (Sorted(r0, reverse) ==> Sorted(r1, reverse))
    requires !(Ord(key, reverse) < Ord(e.key, reverse)) ==>
      r1 == r0 && multiset(l1) == multiset(l0) + multiset{e} && (Sorted(l0, reverse) ==> Sorted(l1, reverse))
    ensures Sorted(r1, reverse) && KeysBelow(l1, r1, reverse) && Sorted(l1 + r1, reverse)
    ensures multiset(l1 + r1) == multiset(Without(whole, key)) + multiset{e}
    ensures |l1 + r1| == |whole| + (if HasKey(whole, key) then 0 else 1)
  {
    UpdateHalves(whole, l0, r0, key, reverse);
    UpdateSides(l0, r0, l1, r1, key, e, reverse);
  }

  /** A split of a sequence the update fits: sorted halves strictly on the two sides of `key`, holding all but `key`'s entry. */
  lemma UpdateHalves<D>(whole: seq<Entry<D>>, l0: seq<Entry<D>>, r0: seq<Entry<D>>, key: int, reverse: bool)
    requires UpdateFits(whole, key, reverse)
    requires !HasKey(whole, key) ==>
      l0 + r0 == whole && AllBelow(l0, key, reverse) && AllAbove(r0, key, reverse)
    requires HasKey(whole, key) ==> SplayCore.SplitsAround(whole, l0, key, r0)
    ensures Sorted(l0, reverse) && Sorted(r0, reverse)
    ensures AllBelow(l0, key, reverse) && AllAbove(r0, key, reverse)
    ensures l0 + r0 == Without(whole, key)
    ensures |whole| == |l0 + r0| + (if HasKey(whole, key) then 1 else 0)
  {
    if HasKey(whole, key) {
      var x := whole[|l0|];
      assert whole == l0 + [x] + r0;
      StrictlySortedSplit(l0 + [x], r0, reverse);
      StrictlySortedSplit(l0, [x], reverse);
      StrictlySortedIsSorted(l0, reverse);
      StrictlySortedIsSorted(r0, reverse);
      assert AllBelow(l0, key, reverse) by {
        forall i | 0 <= i < |l0| ensures Ord(l0[i].key, reverse) < Ord(key, reverse) {
          assert [x][0] == x;
        }
      }
      assert AllAbove(r0, key, reverse) by {
        forall j | 0 <= j < |r0| ensures Ord(key, reverse) < Ord(r0[j].key, reverse) {
          assert (l0 + [x])[|l0|] == x;
        }
      }
      WithoutOne(l0, x, r0, reverse);
    } else {
      SortedSplit(l0, r0, reverse);
      WithoutAbsent(whole, key);
    }
  }

  /** Inserting `e` into the half its key falls in keeps the halves sorted and separated. */
  lemma UpdateSides<D>(l0: seq<Entry<D>>, r0: seq<Entry<D>>, l1: seq<Entry<D>>, r1: seq<Entry<D>>, key: int, e: Entry<D>, reverse: bool)
    requires Sorted(l0, reverse) && Sorted(r0, reverse)
    requires AllBelow(l0, key, reverse) && AllAbove(r0, key, reverse)
    requires Ord(key, reverse) < Ord(e.key, reverse) ==>
      l1 == l0 && multiset(r1) == multiset(r0) + multiset{e} && (Sorted(r0, reverse) ==> Sorted(r1, reverse))
    requires !(Ord(key, reverse) < Ord(e.key, reverse)) ==>
      r1 == r0 && multiset(l1) == multiset(l0) + multiset{e} && (Sorted(l0, reverse) ==> Sorted(l1, reverse))
    ensures Sorted(r1, reverse) && KeysBelow(l1, r1, reverse) && Sorted(l1 + r1, reverse)
    ensures multiset(l1 + r1) == multiset(l0 + r0) + multiset{e}
    ensures |l1 + r1| == |l0 + r0| + 1
  {
    if Ord(key, reverse) < Ord(e.key, reverse) {
      GrownAbove(r1, r0, e, key, reverse);
    } else {
      GrownAtMost(l1, l0, e, key, reverse);
    }
    assert AllAtMost(l1, key, reverse);
    SeparatedByKey(l1, r1, key, reverse);
    SortedJoin(l1, r1, key, reverse);
    assert |multiset(l1 + r1)| == |l1 + r1| && |multiset(l0 + r0)| == |l0 + r0|;
  }

  /** Entries of `b` plus `e`, all above `k`, are above `k`. */
  lemma GrownAbove<D>(a: seq<Entry<D>>, b: seq<Entry<D>>, e: Entry<D>, k: int, reverse: bool)
    requires multiset(a) == multiset(b) + multiset{e}
    requires AllAbove(b, k, reverse) && Ord(k, reverse) < Ord(e.key, reverse)
    ensures AllAbove(a, k, reverse)
  {
    forall i | 0 <= i < |a| ensures Ord(k, reverse) < Ord(a[i].key, reverse) {
      assert a[i] in multiset(a);
      if a[i] != e {
        assert a[i] in multiset(b);
        var j :| 0 <= j < |b| && b[j] == a[i];
      }
    }
  }

  /** Entries of `b` plus `e`, all at most `k`, are at most `k`. */
  lemma GrownAtMost<D>(a: seq<Entry<D>>, b: seq<Entry<D>>, e: Entry<D>, k: int, reverse: bool)
    requires multiset(a) == multiset(b) + multiset{e}
    requires AllAtMost(b, k, reverse) && Ord(e.key, reverse) <= Ord(k, reverse)
    ensures AllAtMost(a, k, reverse)
  {
    forall i | 0 <= i < |a| ensures Ord(a[i].key, reverse) <= Ord(k, reverse) {
      assert a[i] in multiset(a);
      if a[i] != e {
        assert a[i] in multiset(b);
        var j :| 0 <= j < |b| && b[j] == a[i];
      }
    }
  }

  /**
   * The halves of an update on any sorted sequence: after a split at `key`
   * and the new entry `e` inserted into one half, both halves are sorted and
   * every left key comes before or with every right key, duplicates of
   * `key` included.
   */
  lemma UpdateOrder<D>(whole: seq<Entry<D>>, l0: seq<Entry<D>>, r0: seq<Entry<D>>, l1: seq<Entry<D>>, r1: seq<Entry<D>>,
                       key: int, e: Entry<D>, reverse: bool)
    requires Sorted(whole, reverse)
    requires !HasKey(whole, key) ==>
      l0 + r0 == whole && AllBelow(l0, key, reverse) && AllAbove(r0, key, reverse)
    requires HasKey(whole, key) ==>
      SplayCore.SplitsAround(whole, l0, key, r0) && AllAtMost(l0, key, reverse) && AllAtLeast(r0, key, reverse)
    requires Ord(key, reverse) < Ord(e.key, reverse) ==>
      l1 == l0 && multiset(r1) == multiset(r0) + multiset{e} && (Sorted(r0, reverse) ==> Sorted(r1, reverse))
    requires !(Ord(key, reverse) < Ord(e.key, reverse)) ==>
      r1 == r0 && multiset(l1) == multiset(l0) + multiset{e} && (Sorted(l0, reverse) ==> Sorted(l1, reverse))
    ensures Sorted(l1, reverse) && Sorted(r1, reverse) && KeysAtMost(l1, r1, reverse)
  {
    if HasKey(whole, key) {
      var x := whole[|l0|];
      assert whole == (l0 + [x]) + r0;
      SortedSplit(l0 + [x], r0, reverse);
      SortedSplit(l0, [x], reverse);
    } else {
      SortedSplit(l0, r0, reverse);
    }
    assert AllAtMost(l0, key, reverse) && AllAtLeast(r0, key, reverse);
    if Ord(key, reverse) < Ord(e.key, reverse) {
      GrownAtLeast(r1, r0, e, key, reverse);
    } else {
      GrownAtMost(l1, l0, e, key, reverse);
    }
  }

  /** Entries of `b` plus `e`, all at least `k`, are at least `k`. */
  lemma GrownAtLeast<D>(a: seq<Entry<D>>, b: seq<Entry<D>>, e: Entry<D>, k: int, reverse: bool)
    requires multiset(a) == multiset(b) + multiset{e}
    requires AllAtLeast(b, k, reverse) && Ord(k, reverse) <= Ord(e.key, reverse)
    ensures AllAtLeast(a, k, reverse)
  {
    forall i | 0 <= i < |a| ensures Ord(k, reverse) <= Ord(a[i].key, reverse) {
      assert a[i] in multiset(a);
      if a[i] != e {
        assert a[i] in multiset(b);
        var j :| 0 <= j < |b| && b[j] == a[i];
      }
    }
  }

  /** Entries at most `k` lie below entries above `k`. */
  lemma SeparatedByKey<D>(a: seq<Entry<D>>, b: seq<Entry<D>>, k: int, reverse: bool)
    requires AllAtMost(a, k, reverse) && AllAbove(b, k, reverse)
    ensures KeysBelow(a, b, reverse) && AllAtLeast(b, k, reverse)
  {
  }

  /**
   * The count `UpdateAsWritten` leaves on a fresh tree given a key it does
   * not hold: still zero, while the tree now has one node.
   */
  method UpdateOnEmptyTree() returns (counted: int, nodes: int)
    ensures counted == 0 && nodes == 1
  {
    var t := new SplayTree<int>(false);
    t.UpdateAsWritten(1, 2, 0);
    counted := t.size;
    nodes := |InOrder(t.root)|;
  }

  /** A prefix of a sorted sequence is sorted. */
  lemma SortedPrefix<D>(s: seq<Entry<D>>, n: int, reverse: bool)
    requires 0 <= n <= |s| && Sorted(s, reverse)
    ensures Sorted(s[..n], reverse)
  {
    assert s == s[..n] + s[n..];
    SortedSplit(s[..n], s[n..], reverse);
  }

  /**
   * The rewiring of `Update` (SplayTree.cs:502-512) on tree values: split
   * at `key` dropping a node of that key, insert the new pair into the half
   * its key falls in, merge the halves. A sorted tree stays sorted; the
   * contents are stated when keys are distinct or `key` is absent.
   */
  method UpdateTree<D>(key: int, newKey: int, newData: D, t: Tree<D>, reverse: bool) returns (r: Tree<D>)
    ensures Sorted(InOrder(t), reverse) ==> Sorted(InOrder(r), reverse)
    ensures UpdateFits(InOrder(t), key, reverse) ==>
      Sorted(InOrder(r), reverse)
      && multiset(InOrder(r)) == multiset(Without(InOrder(t), key)) + multiset{Entry(newKey, newData)}
      && |InOrder(r)| == |InOrder(t)| + (if HasKey(InOrder(t), key) then 0 else 1)
  {
    ghost var whole := InOrder(t);
    ghost var fits := UpdateFits(whole, key, reverse);
    if StrictlySorted(whole, reverse) {
      StrictlySortedIsSorted(whole, reverse);
    }
    var left, right := SplayCore.Split(key, t, reverse, SplayCore.None);
    ghost var l0, r0 := InOrder(left), InOrder(right);
    if CompareTo(key, newKey, reverse) < 0 {
      right := SplayCore.Insert(newKey, newData, right, reverse);
    } else {
      left := SplayCore.Insert(newKey, newData, left, reverse);
    }
    if fits {
      UpdateJoin(whole, l0, r0, InOrder(left), InOrder(right), key, Entry(newKey, newData), reverse);
    }
    if Sorted(whole, reverse) {
      UpdateOrder(whole, l0, r0, InOrder(left), InOrder(right), key, Entry(newKey, newData), reverse);
    }
    r := SplayCore.Merge(left, right, reverse);
    if fits {
      assert InOrder(r) == InOrder(left) + InOrder(right);
    }
  }
}
