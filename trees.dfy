/**
 * The node shape (SplayTree/SplayTreeNode.cs) and the abstract view of a tree:
 * its in-order sequence of (key, data) entries.
 *
 * A node reference is modelled by the subtree it owns: `Nil` is the null
 * reference and `Node(left, key, data, right)` a node with its children.
 * The scratch `Next` link is not a tree edge; the linked lists it forms are
 * modelled as sequences of entries in the modules that build them.
 */
module Trees {
  import opened Ordering

  datatype Entry<D> = Entry(key: int, data: D)

  datatype Tree<D> = Nil | Node(left: Tree<D>, key: int, data: D, right: Tree<D>)

  /** The (key, data) pair held by a node. */
  function EntryOf<D>(t: Tree<D>): Entry<D>
    requires t.Node?
  {
    Entry(t.key, t.data)
  }

  /** The in-order sequence of a tree: what the enumerator yields. */
  function InOrder<D>(t: Tree<D>): seq<Entry<D>>
  {
    match t
    case Nil => []
    case Node(l, k, d, r) => InOrder(l) + [Entry(k, d)] + InOrder(r)
  }

  /** `t` is a node of `u`: `u` itself or a node below it. */
  ghost predicate Subtree<D>(t: Tree<D>, u: Tree<D>)
  {
    t == u || (u.Node? && (Subtree(t, u.left) || Subtree(t, u.right)))
  }

  /** Keys non-decreasing under the effective comparator. */
  ghost predicate Sorted<D>(s: seq<Entry<D>>, reverse: bool)
  {
    forall i, j :: 0 <= i < j < |s| ==> Ord(s[i].key, reverse) <= Ord(s[j].key, reverse)
  }

  /** Keys increasing under the effective comparator (a tree without duplicate keys). */
  ghost predicate StrictlySorted<D>(s: seq<Entry<D>>, reverse: bool)
  {
    forall i, j :: 0 <= i < j < |s| ==> Ord(s[i].key, reverse) < Ord(s[j].key, reverse)
  }

  ghost predicate AllBelow<D>(s: seq<Entry<D>>, k: int, reverse: bool)
  {
    forall i :: 0 <= i < |s| ==> Ord(s[i].key, reverse) < Ord(k, reverse)
  }

  ghost predicate AllAbove<D>(s: seq<Entry<D>>, k: int, reverse: bool)
  {
    forall i :: 0 <= i < |s| ==> Ord(k, reverse) < Ord(s[i].key, reverse)
  }

  ghost predicate AllAtMost<D>(s: seq<Entry<D>>, k: int, reverse: bool)
  {
    forall i :: 0 <= i < |s| ==> Ord(s[i].key, reverse) <= Ord(k, reverse)
  }

  ghost predicate AllAtLeast<D>(s: seq<Entry<D>>, k: int, reverse: bool)
  {
    forall i :: 0 <= i < |s| ==> Ord(k, reverse) <= Ord(s[i].key, reverse)
  }

  /** Every key of `a` comes strictly before every key of `b`. */
  ghost predicate KeysBelow<D>(a: seq<Entry<D>>, b: seq<Entry<D>>, reverse: bool)
  {
    forall i, j :: 0 <= i < |a| && 0 <= j < |b| ==> Ord(a[i].key, reverse) < Ord(b[j].key, reverse)
  }

  /** Every key of `a` comes before or with every key of `b`. */
  ghost predicate KeysAtMost<D>(a: seq<Entry<D>>, b: seq<Entry<D>>, reverse: bool)
  {
    forall i, j :: 0 <= i < |a| && 0 <= j < |b| ==> Ord(a[i].key, reverse) <= Ord(b[j].key, reverse)
  }

  ghost predicate HasKey<D>(s: seq<Entry<D>>, k: int)
  {
    exists i :: 0 <= i < |s| && s[i].key == k
  }

  /** At every node the two subtrees hold numbers of nodes that differ by at most one. */
  ghost predicate Balanced<D>(t: Tree<D>)
  {
    match t
    case Nil => true
    case Node(l, _, _, r) =>
      Balanced(l) && Balanced(r) && -1 <= |InOrder(l)| - |InOrder(r)| <= 1
  }

  /** The (key, value) pairs of two parallel lists, as far as the key list goes. */
  function Pairs<D>(keys: seq<int>, values: seq<D>): (s: seq<Entry<D>>)
    requires |keys| <= |values|
    ensures |s| == |keys|
    ensures forall i :: 0 <= i < |keys| ==> s[i] == Entry(keys[i], values[i])
  {
    seq(|keys|, i requires 0 <= i < |keys| => Entry(keys[i], values[i]))
  }

  /** Each key paired with the same data value. */
  function WithData<D>(keys: seq<int>, d: D): (s: seq<Entry<D>>)
    ensures |s| == |keys|
    ensures forall i :: 0 <= i < |keys| ==> s[i] == Entry(keys[i], d)
  {
    seq(|keys|, i requires 0 <= i < |keys| => Entry(keys[i], d))
  }

  /** The keys of a sequence of entries, in order. */
  function KeysOf<D>(s: seq<Entry<D>>): (ks: seq<int>)
    ensures |ks| == |s|
    ensures forall i :: 0 <= i < |s| ==> ks[i] == s[i].key
  {
    seq(|s|, i requires 0 <= i < |s| => s[i].key)
  }

  /** The sequence with every entry of key `k` deleted. */
  function Without<D>(s: seq<Entry<D>>, k: int): seq<Entry<D>>
  {
    if s == [] then []
    else (if s[0].key == k then [] else [s[0]]) + Without(s[1..], k)
  }

  // ---------------------------------------------------------------------
  // Facts about the abstract view

  /** Regrouping a concatenation around one element, proved where nothing else is in scope. */
  lemma Regroup<E>(a: seq<E>, l: seq<E>, e: E, r: seq<E>, b: seq<E>)
    ensures a + l + ([e] + r + b) == a + (l + [e] + r) + b
    ensures (a + l + [e]) + r + b == a + (l + [e] + r) + b
    ensures (a + l) + [e] + (r + b) == a + (l + [e] + r) + b
  {
  }

  lemma InOrderNode<D>(t: Tree<D>)
    requires t.Node?
    ensures InOrder(t) == InOrder(t.left) + [EntryOf(t)] + InOrder(t.right)
    ensures |InOrder(t)| == |InOrder(t.left)| + 1 + |InOrder(t.right)|
    ensures InOrder(t)[|InOrder(t.left)|] == EntryOf(t)
  {
  }

  /** Only the empty tree has an empty sequence. */
  lemma InOrderEmpty<D>(t: Tree<D>)
    ensures InOrder(t) == [] <==> t.Nil?
  {
  }

  /** The sequences of a node with one child missing. */
  lemma InOrderOneSided<D>(l: Tree<D>, k: int, d: D, r: Tree<D>)
    ensures InOrder(Node(Nil, k, d, r)) == [Entry(k, d)] + InOrder(r)
    ensures InOrder(Node(l, k, d, Nil)) == InOrder(l) + [Entry(k, d)]
  {
  }

  /** No entry lies both at most and above the same key. */
  lemma AboveAtMostEmpty<D>(s: seq<Entry<D>>, k: int, reverse: bool)
    ensures AllAbove(s, k, reverse) && AllAtMost(s, k, reverse) ==> s == []
    ensures AllBelow(s, k, reverse) && AllAtLeast(s, k, reverse) ==> s == []
  {
    if s != [] {
      assert Ord(k, reverse) < Ord(s[0].key, reverse) ==> !(Ord(s[0].key, reverse) <= Ord(k, reverse));
    }
  }

  /** The three parts of a sorted node are sorted and lie on the right sides of its key. */
  lemma SortedParts<D>(t: Tree<D>, reverse: bool)
    requires t.Node? && Sorted(InOrder(t), reverse)
    ensures Sorted(InOrder(t.left), reverse) && Sorted(InOrder(t.right), reverse)
    ensures AllAtMost(InOrder(t.left), t.key, reverse)
    ensures AllAtLeast(InOrder(t.right), t.key, reverse)
  {
    var l, r := InOrder(t.left), InOrder(t.right);
    var s := InOrder(t);
    assert s == l + [EntryOf(t)] + r;
    forall i | 0 <= i < |l| ensures s[i] == l[i] { }
    forall i | 0 <= i < |r| ensures s[|l| + 1 + i] == r[i] { }
    assert s[|l|] == EntryOf(t);
    forall i, j | 0 <= i < j < |r| ensures Ord(r[i].key, reverse) <= Ord(r[j].key, reverse) {
      assert s[|l| + 1 + i] == r[i] && s[|l| + 1 + j] == r[j];
    }
    forall i | 0 <= i < |r| ensures Ord(t.key, reverse) <= Ord(r[i].key, reverse) {
      assert s[|l| + 1 + i] == r[i];
    }
  }

  /** Two sorted sequences on the two sides of a key make a sorted sequence. */
  lemma SortedJoin<D>(a: seq<Entry<D>>, b: seq<Entry<D>>, k: int, reverse: bool)
    requires Sorted(a, reverse) && Sorted(b, reverse)
    requires AllAtMost(a, k, reverse) && AllAtLeast(b, k, reverse)
    ensures Sorted(a + b, reverse)
  {
    var s := a + b;
    forall i, j | 0 <= i < j < |s| ensures Ord(s[i].key, reverse) <= Ord(s[j].key, reverse) {
      if j < |a| {
        assert s[i] == a[i] && s[j] == a[j];
      } else if i >= |a| {
        assert s[i] == b[i - |a|] && s[j] == b[j - |a|];
      } else {
        assert s[i] == a[i] && s[j] == b[j - |a|];
      }
    }
  }

  /** The parts of a sorted concatenation are sorted. */
  lemma SortedSplit<D>(a: seq<Entry<D>>, b: seq<Entry<D>>, reverse: bool)
    requires Sorted(a + b, reverse)
    ensures Sorted(a, reverse) && Sorted(b, reverse)
  {
    var s := a + b;
    forall i, j | 0 <= i < j < |b| ensures Ord(b[i].key, reverse) <= Ord(b[j].key, reverse) {
      assert s[|a| + i] == b[i] && s[|a| + j] == b[j];
    }
    forall i, j | 0 <= i < j < |a| ensures Ord(a[i].key, reverse) <= Ord(a[j].key, reverse) {
      assert s[i] == a[i] && s[j] == a[j];
    }
  }

  lemma AllBelowConcat<D>(a: seq<Entry<D>>, b: seq<Entry<D>>, k: int, reverse: bool)
    ensures AllBelow(a + b, k, reverse) <==> AllBelow(a, k, reverse) && AllBelow(b, k, reverse)
    ensures AllAbove(a + b, k, reverse) <==> AllAbove(a, k, reverse) && AllAbove(b, k, reverse)
    ensures AllAtMost(a + b, k, reverse) <==> AllAtMost(a, k, reverse) && AllAtMost(b, k, reverse)
    ensures AllAtLeast(a + b, k, reverse) <==> AllAtLeast(a, k, reverse) && AllAtLeast(b, k, reverse)
  {
    var s := a + b;
    forall i | 0 <= i < |b| ensures s[|a| + i] == b[i] { }
    forall i | 0 <= i < |a| ensures s[i] == a[i] { }
  }

  lemma HasKeyConcat<D>(a: seq<Entry<D>>, b: seq<Entry<D>>, k: int)
    ensures HasKey(a + b, k) <==> HasKey(a, k) || HasKey(b, k)
  {
    var s := a + b;
    if HasKey(s, k) {
      var i :| 0 <= i < |s| && s[i].key == k;
      if i < |a| { assert a[i] == s[i]; } else { assert b[i - |a|] == s[i]; }
    }
    if HasKey(a, k) {
      var i :| 0 <= i < |a| && a[i].key == k;
      assert s[i] == a[i];
    }
    if HasKey(b, k) {
      var i :| 0 <= i < |b| && b[i].key == k;
      assert s[|a| + i] == b[i];
    }
  }

  /** A sequence whose keys all differ from `k` does not hold `k`. */
  lemma NoKeyBelowOrAbove<D>(s: seq<Entry<D>>, k: int, reverse: bool)
    requires AllBelow(s, k, reverse) || AllAbove(s, k, reverse)
    ensures !HasKey(s, k)
  {
    forall i | 0 <= i < |s| ensures s[i].key != k {
      OrdInjective(s[i].key, k, reverse);
    }
  }

  /** Ordering by `Ord` is a total order on keys: equal places mean equal keys. */
  lemma OrdInjective(a: int, b: int, reverse: bool)
    ensures Ord(a, reverse) == Ord(b, reverse) <==> a == b
  {
  }

  lemma StrictlySortedIsSorted<D>(s: seq<Entry<D>>, reverse: bool)
    requires StrictlySorted(s, reverse)
    ensures Sorted(s, reverse)
  {
  }

  lemma StrictlySortedSplit<D>(a: seq<Entry<D>>, b: seq<Entry<D>>, reverse: bool)
    requires StrictlySorted(a + b, reverse)
    ensures StrictlySorted(a, reverse) && StrictlySorted(b, reverse)
    ensures KeysBelow(a, b, reverse)
  {
    var s := a + b;
    forall i, j | 0 <= i < j < |b| ensures Ord(b[i].key, reverse) < Ord(b[j].key, reverse) {
      assert s[|a| + i] == b[i] && s[|a| + j] == b[j];
    }
    forall i, j | 0 <= i < j < |a| ensures Ord(a[i].key, reverse) < Ord(a[j].key, reverse) {
      assert s[i] == a[i] && s[j] == a[j];
    }
    forall i, j | 0 <= i < |a| && 0 <= j < |b| ensures Ord(a[i].key, reverse) < Ord(b[j].key, reverse) {
      assert s[i] == a[i] && s[|a| + j] == b[j];
    }
  }

  lemma {:induction false} WithoutConcat<D>(a: seq<Entry<D>>, b: seq<Entry<D>>, k: int)
    ensures Without(a + b, k) == Without(a, k) + Without(b, k)
  {
    if a == [] {
      assert a + b == b;
    } else {
      assert (a + b)[0] == a[0];
      assert (a + b)[1..] == a[1..] + b;
      WithoutConcat(a[1..], b, k);
    }
  }

  lemma {:induction false} WithoutAbsent<D>(s: seq<Entry<D>>, k: int)
    requires !HasKey(s, k)
    ensures Without(s, k) == s
  {
    if s != [] {
      assert s[0].key != k;
      forall i | 0 <= i < |s[1..]| ensures s[1..][i].key != k {
        assert s[1..][i] == s[i + 1];
      }
      WithoutAbsent(s[1..], k);
      assert s == [s[0]] + s[1..];
    }
  }

  /** Deleting a key from entries that all have that key leaves nothing. */
  lemma {:induction false} WithoutOnlyKey<D>(s: seq<Entry<D>>, k: int)
    requires forall j :: 0 <= j < |s| ==> s[j].key == k
    ensures Without(s, k) == []
  {
    if s != [] {
      forall j | 0 <= j < |s[1..]| ensures s[1..][j].key == k {
        assert s[1..][j] == s[j + 1];
      }
      WithoutOnlyKey(s[1..], k);
    }
  }

  /** Concatenation regrouped, proved where nothing else is in scope. */
  lemma Reassociate<E>(a: seq<E>, b: seq<E>, c: seq<E>)
    ensures (a + b) + c == a + (b + c)
  {
  }

  /** In a sequence without duplicate keys, deleting a present key deletes exactly its one entry. */
  lemma WithoutOne<D>(a: seq<Entry<D>>, x: Entry<D>, b: seq<Entry<D>>, reverse: bool)
    requires StrictlySorted(a + [x] + b, reverse)
    ensures Without(a + [x] + b, x.key) == a + b
  {
    StrictlySortedSplit(a + [x], b, reverse);
    StrictlySortedSplit(a, [x], reverse);
    assert AllBelow(a, x.key, reverse) by {
      forall i | 0 <= i < |a| ensures Ord(a[i].key, reverse) < Ord(x.key, reverse) {
        assert [x][0] == x;
      }
    }
    assert AllAbove(b, x.key, reverse) by {
      forall j | 0 <= j < |b| ensures Ord(x.key, reverse) < Ord(b[j].key, reverse) {
        assert (a + [x])[|a|] == x;
      }
    }
    NoKeyBelowOrAbove(a, x.key, reverse);
    NoKeyBelowOrAbove(b, x.key, reverse);
    WithoutConcat(a + [x], b, x.key);
    WithoutConcat(a, [x], x.key);
    WithoutAbsent(a, x.key);
    WithoutAbsent(b, x.key);
    assert Without([x], x.key) == [] by {
      assert [x][1..] == [];
    }
  }

  /** A node of a tree sits inside the tree's in-order sequence. */
  lemma {:induction false} SubtreeInOrder<D>(t: Tree<D>, u: Tree<D>) returns (a: seq<Entry<D>>, b: seq<Entry<D>>)
    requires Subtree(t, u)
    ensures InOrder(u) == a + InOrder(t) + b
  {
    if t == u {
      a, b := [], [];
    } else if Subtree(t, u.left) {
      var a', b' := SubtreeInOrder(t, u.left);
      a, b := a', b' + [EntryOf(u)] + InOrder(u.right);
    } else {
      var a', b' := SubtreeInOrder(t, u.right);
      a, b := InOrder(u.left) + [EntryOf(u)] + a', b';
    }
  }

  lemma SubtreeTrans<D>(s: Tree<D>, t: Tree<D>, u: Tree<D>)
    requires Subtree(s, t) && Subtree(t, u)
    ensures Subtree(s, u)
    decreases u
  {
    if t != u {
      if Subtree(t, u.left) { SubtreeTrans(s, t, u.left); } else { SubtreeTrans(s, t, u.right); }
    }
  }

  lemma SubtreeSize<D>(t: Tree<D>, u: Tree<D>)
    requires Subtree(t, u)
    ensures |InOrder(t)| <= |InOrder(u)|
    ensures t != u ==> |InOrder(t)| < |InOrder(u)|
    decreases u
  {
    if t != u {
      if Subtree(t, u.left) { SubtreeSize(t, u.left); } else { SubtreeSize(t, u.right); }
    }
  }

  /** The keys of the pairs of two lists are the key list. */
  lemma KeysOfPairs<D>(keys: seq<int>, values: seq<D>)
    requires |keys| <= |values|
    ensures KeysOf(Pairs(keys, values)) == keys
  {
  }

  lemma KeysOfConcat<D>(a: seq<Entry<D>>, b: seq<Entry<D>>)
    ensures KeysOf(a + b) == KeysOf(a) + KeysOf(b)
  {
  }

  /** Permuting entries permutes their keys. */
  lemma {:induction false} KeysOfPermuted<D>(a: seq<Entry<D>>, b: seq<Entry<D>>)
    requires multiset(a) == multiset(b)
    ensures multiset(KeysOf(a)) == multiset(KeysOf(b))
    decreases |a|
  {
    if a != [] {
      var x := a[0];
      assert x in multiset(b);
      var j :| 0 <= j < |b| && b[j] == x;
      var rest := b[..j] + b[j + 1..];
      DropMatching(a, b, j);
      KeysOfPermuted(a[1..], rest);
      KeysOfRestored(a, b, j);
    }
  }

  /** Putting back the head of `a` and the equal element at position `j` of `b` keeps their keys permuted. */
  lemma KeysOfRestored<D>(a: seq<Entry<D>>, b: seq<Entry<D>>, j: int)
    requires a != [] && 0 <= j < |b| && b[j] == a[0]
    requires multiset(KeysOf(a[1..])) == multiset(KeysOf(b[..j] + b[j + 1..]))
    ensures multiset(KeysOf(a)) == multiset(KeysOf(b))
  {
    var p, q1, q2 := KeysOf(a[1..]), KeysOf(b[..j]), KeysOf(b[j + 1..]);
    KeysOfAround(a, 0);
    KeysOfAround(b, j);
    assert KeysOf(a[..0]) == [];
    assert KeysOf(a) == [a[0].key] + p;
    MultisetInsert(p, q1, a[0].key, q2);
  }

  /** The keys of a sequence around one position, and with that position dropped. */
  lemma KeysOfAround<D>(s: seq<Entry<D>>, j: int)
    requires 0 <= j < |s|
    ensures KeysOf(s) == KeysOf(s[..j]) + [s[j].key] + KeysOf(s[j + 1..])
    ensures KeysOf(s[..j] + s[j + 1..]) == KeysOf(s[..j]) + KeysOf(s[j + 1..])
  {
    assert s == s[..j] + [s[j]] + s[j + 1..];
    KeysOfConcat(s[..j] + [s[j]], s[j + 1..]);
    KeysOfConcat(s[..j], [s[j]]);
    KeysOfConcat(s[..j], s[j + 1..]);
  }

  /** Equal multisets stay equal when one element is added on each side, anywhere. */
  lemma MultisetInsert<E>(p: seq<E>, q1: seq<E>, y: E, q2: seq<E>)
    requires multiset(p) == multiset(q1 + q2)
    ensures multiset([y] + p) == multiset(q1 + [y] + q2)
  {
    assert multiset(q1 + [y] + q2) == multiset(q1) + multiset([y]) + multiset(q2);
    assert multiset(q1 + q2) == multiset(q1) + multiset(q2);
  }

  /** Dropping the head of one of two permuted sequences, and an equal element of the other, leaves them permuted. */
  lemma DropMatching<E>(a: seq<E>, b: seq<E>, j: int)
    requires multiset(a) == multiset(b) && a != [] && 0 <= j < |b| && b[j] == a[0]
    ensures multiset(a[1..]) == multiset(b[..j] + b[j + 1..])
  {
    assert a == [a[0]] + a[1..];
    assert multiset(a[1..]) == multiset(a) - multiset{a[0]};
    MultisetWithout(b, j);
  }

  /** Dropping the element at one position drops one occurrence of it. */
  lemma MultisetWithout<E>(s: seq<E>, j: int)
    requires 0 <= j < |s|
    ensures multiset(s[..j] + s[j + 1..]) == multiset(s) - multiset{s[j]}
  {
    assert s == s[..j] + [s[j]] + s[j + 1..];
  }

  /** In the reversed order a sorted sequence has non-increasing integer keys. */
  lemma ReversedSortedIsDescending<D>(s: seq<Entry<D>>)
    ensures Sorted(s, true) <==> forall i, j :: 0 <= i < j < |s| ==> s[j].key <= s[i].key
  {
  }

  /** In the reversed order the least key is the largest integer and the greatest the smallest. */
  lemma ReversedBounds<D>(s: seq<Entry<D>>, k: int)
    ensures AllAtLeast(s, k, true) <==> forall i :: 0 <= i < |s| ==> s[i].key <= k
    ensures AllAtMost(s, k, true) <==> forall i :: 0 <= i < |s| ==> k <= s[i].key
  {
  }

  /** A permutation of entries that all carry `d` carries `d` throughout. */
  lemma PermutedWithData<D>(s: seq<Entry<D>>, keys: seq<int>, d: D)
    requires multiset(s) == multiset(WithData(keys, d))
    ensures forall i :: 0 <= i < |s| ==> s[i].data == d
  {
    var w := WithData(keys, d);
    forall i | 0 <= i < |s| ensures s[i].data == d {
      assert s[i] in multiset(w);
      var j :| 0 <= j < |w| && w[j] == s[i];
    }
  }

  /**
   * Pairs whose values all equal `d`, and any permutation of them, are the
   * keys paired with `d`; the permutation permutes the keys.
   */
  lemma PermutedDataPairs<D>(k0: seq<int>, v0: seq<D>, k1: seq<int>, v1: seq<D>, d: D)
    requires |k0| <= |v0| && |k1| <= |v1|
    requires forall i :: 0 <= i < |k0| ==> v0[i] == d
    requires multiset(Pairs(k1, v1)) == multiset(Pairs(k0, v0))
    ensures Pairs(k0, v0) == WithData(k0, d)
    ensures Pairs(k1, v1) == WithData(k1, d)
    ensures multiset(k1) == multiset(k0)
  {
    assert Pairs(k0, v0) == WithData(k0, d);
    PermutedWithData(Pairs(k1, v1), k0, d);
    assert Pairs(k1, v1) == WithData(k1, d);
    KeysOfPairs(k0, v0);
    KeysOfPairs(k1, v1);
    KeysOfPermuted(Pairs(k1, v1), Pairs(k0, v0));
  }

  /** The keys of sorted pairs are in order. */
  lemma SortedPairsKeys<D>(keys: seq<int>, values: seq<D>, reverse: bool)
    requires |keys| <= |values| && Sorted(Pairs(keys, values), reverse)
    ensures forall i, j :: 0 <= i < j < |keys| ==> Ord(keys[i], reverse) <= Ord(keys[j], reverse)
  {
    var p := Pairs(keys, values);
    forall i, j | 0 <= i < j < |keys| ensures Ord(keys[i], reverse) <= Ord(keys[j], reverse) {
      assert p[i].key == keys[i] && p[j].key == keys[j];
    }
  }
}
