# Splay tree with an optional reversed key order

This project models the splay-tree engine of `SplayTree/SplayTree.cs` and its effective comparator in `SplayTree/Extensions.cs`, and proves properties of the model in Dafny. The engine has five parts:

- a top-down splay primitive;
- the single-key operations built on it: insert, add, remove, pop, find, split, merge and update;
- read-only walks: search without splaying, membership, range queries, positional access, successor and predecessor, the extreme nodes and the in-order enumerator;
- a bulk-load subsystem: a quicksort on parallel key and value lists, a balanced build from sorted input, flattening a tree into a linked list, a merge of sorted lists, and a rebuild of a balanced tree from a list;
- the comparator: by default the key type's own comparison, and with the tree's reverse flag the same comparison with its arguments swapped.

## How the model maps to the source

- **Keys and the comparator.** Keys are integers. The comparator `Ordering.CompareTo(left, right, reverse)` orders keys by `Ord(k, reverse)`, which is `k`, or `-k` when the order is reversed. Every key-order statement in the project is about `Ord`.
- **Nodes.** A node is the value `Trees.Tree<D>`: either `Nil`, standing for a null reference, or `Node(left, key, data, right)`. The node's subtree is what the source reaches through that node. The in-order sequence of a tree is `Trees.InOrder`.
- **The tree object.** The class `SplayTrees.SplayTree<D>` holds:
  - `root`, the root subtree;
  - `size`, the source's `Size` counter;
  - `reverse`, the flag fixed at construction;
  - `defaultData`, the value that stands for `default(TData)`. It is fixed per tree, and the model does not say which value of `D` it is.
- **Validity and counts.** `Valid()` means the in-order keys are sorted in the effective order. `size` is stated separately for each operation, because the counter and the number of nodes can drift apart (see Findings).
- **Linked lists.** The lists chained through each node's `Next` link are sequences of entries. `TreeNodeList` is a class whose mutable `head` is the sequence still to be consumed.
- **The bulk-load lists.** The parallel `List<TKey>` and `List<TData>` arguments of `Load` and `Sort` are arrays sorted in place.

Every method is proved against a specification:
- `Splay`, `Split` and `Merge` are stated in terms of in-order sequences and the predicate `SplayCore.SplayedAt`.
- The walks are stated as functions on the in-order sequence: `TreeWalk.KeysInRange`, `TreeWalk.RangeVisits`, `TreeWalk.FollowsIn` and `TreeWalk.PrecedesIn`.
- The merge is stated as `BulkLoad.MergeSpec`.
- The sort is stated as a sortedness and permutation property of `BulkLoad.Zip`.

## Model

| member | source | states |
|---|---|---|
| Ordering.IntCompareTo | SplayTree/Extensions.cs:11 | the key type's comparison is negative, zero or positive exactly when the first key is smaller, equal or larger |
| Ordering.CompareTo | SplayTree/Extensions.cs:9-12 | the comparator is negative exactly when the left key comes first in the effective order, zero exactly when the keys are equal, positive exactly when the right key comes first |
| Ordering.CompareToForward | SplayTree/Extensions.cs:11 | without the flag the result is the key type's own comparison of left with right |
| Ordering.CompareToReversed | SplayTree/Extensions.cs:11 | with the flag the result is the comparison of right with left, the negation of the unreversed comparison |
| Ordering.CompareToZeroIndependentOfFlag | SplayTree/Extensions.cs:11 | in either mode the comparator says "equal" exactly when the keys are equal |
| Ordering.ReversedOrderIsDescending | SplayTree/Extensions.cs:11 | in the reversed order a key comes first exactly when it is the larger integer |
| Trees.ReversedSortedIsDescending | SplayTree/Extensions.cs:11 | a sequence sorted in the reversed order has non-increasing integer keys, and conversely |
| Trees.ReversedBounds | SplayTree/Extensions.cs:11 | in the reversed order the least key is the largest integer and the greatest key is the smallest, which with `MinKey`/`MaxKey` gives the reversed tree's extremes |
| SplayCore.Splay | SplayTree/SplayTree.cs:714-769 | the result is a node with the same in-order sequence; on a sorted tree it is splayed at the key: the root has the key exactly when the key is present; a key below every key brings the minimum, with no left child, to the root |
| SplayCore.Insert | SplayTree/SplayTree.cs:771-796 | the new pair is the root, its two subtrees together are the old sequence, the multiset gains exactly the pair, and on a sorted tree the pair sits between keys at most and at least its own and the tree stays sorted (duplicates kept) |
| SplayCore.Split | SplayTree/SplayTree.cs:799-845 | an empty tree gives two empty halves; on a sorted tree an absent key gives halves that concatenate to the tree, all left keys below it and all right keys above it; a present key with `None` gives the tree with one node of that key removed between the halves; `Left`/`Right` keep that node last in the left half or first in the right half |
| SplayCore.Merge | SplayTree/SplayTree.cs:847-858 | an empty side gives the other side unchanged; when every left key is below every key of a sorted right tree the result is the left sequence followed by the right one; when both sides are sorted and no left key is above a right key the result is sorted |
| SplayCore.HangLeft | SplayTree/SplayTree.cs:855-857 | hanging a sorted left tree whose keys are at most those of a sorted right tree in place of the right tree's left subtree gives a sorted tree |
| TreeWalk.KeysInRangeAbove | SplayTree/SplayTree.cs:223-224 | a sequence lying wholly above `high` has no entry in range |
| TreeWalk.RangeVisitsSorted | SplayTree/SplayTree.cs:207-277 | on a sorted sequence the walk that stops at the first key above `high` visits exactly the entries between `low` and `high`, in order |
| TreeWalk.RangeVisitsUntilPrefix | SplayTree/SplayTree.cs:207-240 | the visits of the stoppable walk are a prefix of the plain walk's visits, and all of them when no visit asks to stop |
| TreeWalk.RangeVisitsUntilShort | SplayTree/SplayTree.cs:228-234 | when the stoppable walk visits fewer entries, its last visit is one that asked to stop |
| BulkLoad.LoadRecursive | SplayTree/SplayTree.cs:652-667 | the tree built from `start..end` has exactly those key and value pairs in order, is empty for an empty range, and is size-balanced at every node |
| BulkLoad.TreeNodeList.constructor | SplayTree/SplayTree.cs:864-871 | the list holder starts at the given head |
| BulkLoad.SortedListToBST | SplayTree/SplayTree.cs:588-606 | the tree holds exactly the first `end - start` list entries in order, the holder's head advances past them, and the tree is size-balanced |
| BulkLoad.CreateList | SplayTree/SplayTree.cs:608-619 | the list is the key and value pairs, in array order |
| BulkLoad.ToList | SplayTree/SplayTree.cs:621-650 | the list is the tree's in-order sequence |
| BulkLoad.MergeLists | SplayTree/SplayTree.cs:669-705 | the two-pointer loop computes the merge `MergeSpec` of the two lists |
| BulkLoad.MergePermutes | SplayTree/SplayTree.cs:669-705 | the merge holds every entry of both lists exactly as often as they do |
| BulkLoad.MergeSorted | SplayTree/SplayTree.cs:669-705 | merging two sorted lists gives a sorted list |
| BulkLoad.MergeTieTakesSecond | SplayTree/SplayTree.cs:680-690 | with equal head keys the head of the second (batch) list is taken first |
| BulkLoad.MergeTieExample | SplayTree/SplayTree.cs:680-690 | merging single entries of equal key puts the batch entry ahead of the tree's entry |
| BulkLoad.Partition | SplayTree/SplayTree.cs:563-583 | Hoare's partition: the cut `j` lies in `left..right-1` and leaves pairs at most the pivot on its left and at least the pivot on its right, both sides non-empty, the pairs of the range permuted and nothing outside it changed |
| BulkLoad.Sort | SplayTree/SplayTree.cs:559-586 | afterwards the pairs of positions `left..right` are sorted in the effective order and a permutation of the pairs there before, keys and values moving together; nothing outside the range changes |
| SplayTrees.SplayTree.constructor | SplayTree/SplayTree.cs:31-34 | a new tree is empty, counts zero and keeps the given order flag |
| SplayTrees.SplayTree.IsEmpty | SplayTree/SplayTree.cs:199 | true exactly when the tree has no nodes |
| SplayTrees.SplayTree.Insert | SplayTree/SplayTree.cs:43-47 | the count grows by one, the new pair is the root, its subtrees together are the old sequence, the multiset gains exactly that pair, and sortedness is kept |
| SplayTrees.SplayTree.InsertKey | SplayTree/SplayTree.cs:54-57 | as `Insert`, with the tree's default data value: the count grows by one, the pair of the key and the default value is the root, its subtrees together are the old sequence, the multiset gains exactly that pair, and sortedness is kept |
| SplayTrees.SplayTree.Add | SplayTree/SplayTree.cs:65-102 | on a sorted tree, a present key is splayed to the root with the sequence and count unchanged; an absent key becomes the root, its subtrees together are the old sequence, the multiset gains exactly the pair and the count is one higher; on any tree the outcome is one of those two; sortedness is kept |
| SplayTrees.AddOutcome | SplayTree/SplayTree.cs:76-101 | after the splay, keeping the splayed tree or linking the new node above it yields one of the two outcomes of `Add`, the first exactly when a sorted sequence already holds the key, and keeps a sorted sequence sorted |
| SplayTrees.SplayTree.AddKey | SplayTree/SplayTree.cs:109-112 | as `Add`, with the tree's default data value, with the same two outcomes stated for the pair of the key and that value |
| SplayTrees.SplayTree.Remove | SplayTree/SplayTree.cs:115-118 | an absent key leaves the sequence and count unchanged; on a sorted tree a present key costs one count and only nodes of that key; on a tree without duplicate keys the result is the sequence without that key; sortedness is kept |
| SplayTrees.SplayTree.RemoveFrom | SplayTree/SplayTree.cs:120-144 | as `Remove`, for the tree it is given, returning the new tree and leaving the root field alone |
| SplayTrees.SplayTree.Pop | SplayTree/SplayTree.cs:150-160 | an empty tree gives null and nothing changes; otherwise the result is the first entry, whose key is the least on a sorted tree, the count drops by one, only nodes of that key go, and without duplicate keys the sequence loses exactly its first entry |
| SplayTrees.SplayTree.FindStatic | SplayTree/SplayTree.cs:165-178 | the tree is not changed; a found node has the key and lies in the tree; on a sorted tree a node is found exactly when the key is present |
| SplayTrees.SplayTree.Find | SplayTree/SplayTree.cs:183-192 | the sequence and count are kept; a result is the new root and has the key; on a sorted tree there is a result exactly when the key was present, so an empty tree or a miss gives null |
| SplayTrees.SplayTree.Contains | SplayTree/SplayTree.cs:194-197 | the tree is not changed; true only for a present key, and on a sorted tree for every present key |
| SplayTrees.SplayTree.Clear | SplayTree/SplayTree.cs:463-467 | the tree is empty and counts zero |
| SplayTrees.SplayTree.RangeUntil | SplayTree/SplayTree.cs:207-240 | the visits are those of the stoppable range walk over the in-order sequence; on a sorted tree they are a prefix of the entries between `low` and `high`, in order, and all of them unless the last visit asked to stop |
| SplayTrees.SplayTree.WalkUntil | SplayTree/SplayTree.cs:210-239 | the explicit-stack loop visits exactly what the stoppable range walk `RangeVisitsUntil` visits over the in-order sequence |
| SplayTrees.SplayTree.Range | SplayTree/SplayTree.cs:248-277 | the visits are those of the range walk; on a sorted tree they are exactly the entries between `low` and `high`, in order |
| SplayTrees.RangeUntilMeaning | SplayTree/SplayTree.cs:207-240 | on a sorted sequence the stoppable walk's visits are a prefix of the entries in range, and all of them when the last visit does not stop the walk |
| SplayTrees.SplayTree.Enumerate | SplayTree/SplayTree.cs:285-312 | the enumeration is the in-order sequence, each entry once, and it is sorted on a valid tree (descending integer keys when reversed) |
| SplayTrees.SplayTree.MinKey | SplayTree/SplayTree.cs:319-331 | the default 0 when empty, otherwise the first key, which is the least in the effective order on a sorted tree (the largest integer when reversed) |
| SplayTrees.SplayTree.MaxKey | SplayTree/SplayTree.cs:333-345 | the default 0 when empty, otherwise the last key, which is the greatest in the effective order on a sorted tree (the smallest integer when reversed) |
| SplayTrees.SplayTree.MinNode | SplayTree/SplayTree.cs:348-360 | below the given node, or the root when none is given: null when empty, else the leftmost node, which has no left child, lies in that subtree and holds its first entry, the least key on a sorted tree |
| SplayTrees.SplayTree.MaxNode | SplayTree/SplayTree.cs:362-374 | symmetric to `MinNode`: the rightmost node, holding the last entry, the greatest key on a sorted tree |
| SplayTrees.SplayTree.At | SplayTree/SplayTree.cs:376-404 | for a position inside the sequence, the node holding that entry; for any other position, negative ones included, null |
| SplayTrees.SplayTree.Next | SplayTree/SplayTree.cs:406-431 | a node with a right child gets the first entry of that subtree; for a node of a tree with distinct keys the result holds the next entry in the sequence, or is null after the last |
| SplayTrees.SplayTree.Prev | SplayTree/SplayTree.cs:433-461 | a node with a left child gets the last entry of that subtree; for a node of a tree with distinct keys the result holds the previous entry, or is null before the first |
| SplayTrees.SplayTree.Load | SplayTree/SplayTree.cs:470-492 | with `presort` the pairs are sorted in place and permuted only, otherwise the arrays are unchanged; an empty tree becomes the balanced tree of the pairs and counts their number; a non-empty tree counts the old count plus the batch and holds the first that-many entries of the merge of its sequence with the batch, which is the whole merge when the count matched the nodes; the tree is balanced, and sorted when the batch is sorted and the old tree was |
| SplayTrees.SplayTree.MergeIn | SplayTree/SplayTree.cs:483-489 | the non-empty case of `Load` on an already built batch list, with its count, content, balance and order facts |
| SplayTrees.SplayTree.LoadKeys | SplayTree/SplayTree.cs:494-498 | `Load` with every key paired with the tree's default value: with `presort` the keys end up sorted, always as a permutation of the old keys, otherwise unchanged; an empty tree ends with exactly those keys, each with the default value, and counts them; a non-empty tree counts the old count plus the keys and holds the first that-many entries of the merge with those pairs, the whole merge when the count matched the nodes; the tree is balanced, and sorted with `presort` when the old tree was |
| Trees.PermutedDataPairs | SplayTree/SplayTree.cs:496 | a permutation of pairs whose values are all one default value has that value everywhere, and permutes the keys |
| Trees.SortedPairsKeys | SplayTree/SplayTree.cs:474-475 | when the pairs are sorted, so are their keys |
| SplayTrees.SplayTree.SplitAt | SplayTree/SplayTree.cs:516-519 | the halves of the static split of the tree around the key, with its facts; on a tree without duplicate keys, `None` gives halves that together are the sequence without the key |
| SplayTrees.UpdateTree | SplayTree/SplayTree.cs:500-513 | the split, insert and merge of an update on tree values: a sorted tree stays sorted; when keys are distinct or the key is absent, the result holds the old entries with one node of the key dropped plus the new pair, and has the old length plus one when the key was absent |
| SplayTrees.UpdateOrder | SplayTree/SplayTree.cs:503-510 | after the split of a sorted tree and the insert into the side the new key belongs to, both halves are sorted and no left key is above a right key |
| SplayTrees.SplayTree.UpdateAsWritten | SplayTree/SplayTree.cs:500-513 | the update as written: the count is unchanged, a sorted tree stays sorted, and when keys are distinct or the key is absent the tree loses one node of the old key, gains the new pair, and then has one node more than before when the key was absent |
| SplayTrees.UpdateOnEmptyTree | SplayTree/SplayTree.cs:500-513 | updating a fresh tree on an absent key leaves the count at 0 while the tree holds one node |
| SplayTrees.SplayTree.Update | SplayTree/SplayTree.cs:500-513 | the corrected update: the count grows by one exactly when the key was absent from a sorted tree; a sorted tree stays sorted; when keys are distinct or the key is absent the tree loses a node of the old key and gains the new pair, and a count that matched the nodes still does |

## Left out

- Node identity and aliasing are not modelled, because nodes are values. A returned node is the subtree rooted there. The public `Split` rewires the nodes of the live tree in place, so in the source the tree afterwards holds only part of them. The model does not reflect this; `SplitAt` leaves `root` unchanged.
- Exceptions and null dereferences are preconditions, because the source does not guard them.
  - `Next` and `Prev` require a node, since the source dereferences its argument.
  - `Load` requires that a non-empty tree's count does not exceed its nodes, because the rebuild would otherwise run off the end of the merged list.
  - `Load` and `Sort` require distinct key and value arrays. The model excludes aliased arrays, since the in-place sort would behave differently on them.
- Generic keys are modelled as integers under a total order, so `default(TKey)` is 0. `default(TData)` is the tree's `defaultData`, one fixed value of `D` that the model leaves undetermined. The `IComparable` plumbing is not modelled.
- InsertKey, AddKey and LoadKeys: they use `defaultData` for `default(TData)`, so their contracts say that the data is this one value but not which value it is.
- The `Range` callbacks are pure. The `Func` visitor is a function from an entry to "stop". Neither visitor is called: both methods return, in order, the entries the visitor would be called on. Side effects in the callback are not modelled.
- `Keys`, `Values` and the non-generic enumerator (SplayTree/SplayTree.cs:280-282, 314-317) are not modelled: they only wrap the in-order enumerator, which `Enumerate` models.
- `ToString`/`PrintRow` (SplayTree/SplayTree.cs:522-555) format text and are not part of the engine.
- Amortised cost and tree height are not modelled. The size balance of `Load`'s rebuild is the property stated instead.
- Remove and RemoveFrom: exact removal of the key is stated only for trees without duplicate keys. With duplicates the contract says that the count drops by one, the sequence gets shorter and no other key changes. The second splay may then stop at another node of the same key; whether entries beyond one node are lost is not stated.
- Pop: the returned entry is the first of the sequence. With duplicate keys the node unlinked is only said to have the same key.
- Next: the successor is stated only for trees without duplicate keys, because the search from the root goes by key.
- Prev: the predecessor is stated only for trees without duplicate keys, for the same reason.
- SplitAt: removal of exactly the key under `None` is stated only for trees without duplicate keys. For sorted trees with duplicates the halves keep the key's other nodes on either side.
- Update, UpdateAsWritten and UpdateTree: the contents are stated only when keys are distinct or the replaced key is absent; sortedness is stated for every sorted tree. With duplicates of the key, both halves can hold nodes of it, and `Merge` hangs the left half in place of a left subtree it does not check; the model does not state which entries remain.
- MergeLists: ties take the batch entry first, as the code does (a strict `<`). This is the opposite of taking the tree's entry first on equal keys.
- Load: the result is sorted only when the batch is sorted, because without `presort` the source trusts its caller's order.

## Findings

| source | as written | input that shows it | evidently intended | confidence | as-written member | corrected member |
|---|---|---|---|---|---|---|
| SplayTree/SplayTree.cs:500-513 | `Update` splits out a node of `key`, inserts the new pair and merges, but never changes `Size`, so an update of an absent key adds a node that the count does not record | a fresh tree, `Update(1, 2, default)`: one node, `Size` 0 | `Size` grows by one when `key` was absent, as with `Add` | not executed | SplayTrees.UpdateOnEmptyTree | SplayTrees.SplayTree.Update |

`SplayTrees.SplayTree.UpdateAsWritten` is Update exactly as written. `SplayTrees.UpdateOnEmptyTree` shows the count falling out of step with the nodes. `SplayTrees.SplayTree.Update` adds the missing increment, and it proves that a count which matched the nodes still does.
