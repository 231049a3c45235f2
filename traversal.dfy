/**
 * What the iterative walks of SplayTree/SplayTree.cs compute: the explicit
 * stack of the in-order walks (enumerator, `At`, `Range`, `ToList`), the
 * range walks' specifications, and the facts about where a node sits in the
 * in-order sequence that the successor and predecessor searches need.
 */
module TreeWalk {
  import opened Ordering
  import opened Trees

  // ---------------------------------------------------------------------
  // The explicit stack of an in-order walk

  /**
   * The entries still to come from a stack of pending nodes (top last): each
   * pending node is followed by its right subtree, then by what lies below it
   * on the stack.
   */
  function StackSeq<D>(stack: seq<Tree<D>>): seq<Entry<D>>
  {
    if stack == [] then []
    else
      var top := stack[|stack| - 1];
      (if top.Node? then [EntryOf(top)] + InOrder(top.right) else []) + StackSeq(stack[..|stack| - 1])
  }

  /** The entries a walk has still to visit: the current subtree, then what the stack holds. */
  function Pending<D>(current: Tree<D>, stack: seq<Tree<D>>): seq<Entry<D>>
  {
    InOrder(current) + StackSeq(stack)
  }

  /** Pushing the current node and going left leaves the entries to come unchanged. */
  lemma PushStep<D>(current: Tree<D>, stack: seq<Tree<D>>)
    requires current.Node?
    ensures Pending(current.left, stack + [current]) == Pending(current, stack)
    ensures |InOrder(current.left)| < |InOrder(current)|
  {
    var stack' := stack + [current];
    assert stack'[..|stack'| - 1] == stack;
    var l, e, r, s := InOrder(current.left), EntryOf(current), InOrder(current.right), StackSeq(stack);
    assert StackSeq(stack') == ([e] + r) + s;
    InOrderNode(current);
    PushRegroup(l, e, r, s);
  }

  lemma PushRegroup<E>(l: seq<E>, e: E, r: seq<E>, s: seq<E>)
    ensures l + (([e] + r) + s) == (l + [e] + r) + s
  {
  }

  /** When the current subtree is empty, popping a node yields its entry first, then its right subtree. */
  lemma PopStep<D>(stack: seq<Tree<D>>)
    requires |stack| > 0 && stack[|stack| - 1].Node?
    ensures var top := stack[|stack| - 1];
      Pending(Nil, stack) == [EntryOf(top)] + Pending(top.right, stack[..|stack| - 1])
  {
  }

  /** With nothing left, what is done is the whole. */
  lemma NothingLeft<E>(done: seq<E>, rest: seq<E>, total: seq<E>)
    requires done + rest == total && rest == []
    ensures done == total
  {
    assert done + [] == done;
  }

  /** Moving one element from the front of what is left to the end of what is done. */
  lemma MoveOne<E>(done: seq<E>, e: E, rest: seq<E>)
    ensures (done + [e]) + rest == done + ([e] + rest)
  {
  }

  // ---------------------------------------------------------------------
  // Range walks

  /** `e` lies between `low` and `high` inclusive in the effective order. */
  predicate InKeyRange<D>(e: Entry<D>, low: int, high: int, reverse: bool)
  {
    Ord(low, reverse) <= Ord(e.key, reverse) <= Ord(high, reverse)
  }

  /** The entries of `s` between `low` and `high`, in order: what a range query means. */
  function KeysInRange<D>(s: seq<Entry<D>>, low: int, high: int, reverse: bool): (r: seq<Entry<D>>)
    ensures |r| <= |s|
    ensures forall i :: 0 <= i < |r| ==> InKeyRange(r[i], low, high, reverse)
  {
    if s == [] then []
    else (if InKeyRange(s[0], low, high, reverse) then [s[0]] else []) + KeysInRange(s[1..], low, high, reverse)
  }

  /**
   * The entries a range walk visits over the in-order sequence `s`: it stops
   * at the first entry above `high` and visits the entries not below `low`.
   */
  function RangeVisits<D>(s: seq<Entry<D>>, low: int, high: int, reverse: bool): (r: seq<Entry<D>>)
    ensures |r| <= |s|
    ensures forall i :: 0 <= i < |r| ==> InKeyRange(r[i], low, high, reverse)
  {
    if s == [] then []
    else if Ord(high, reverse) < Ord(s[0].key, reverse) then []
    else (if Ord(low, reverse) <= Ord(s[0].key, reverse) then [s[0]] else []) + RangeVisits(s[1..], low, high, reverse)
  }

  /** The walk of the visitor form: as `RangeVisits`, but it also stops after a visited entry for which `stop` holds. */
  function RangeVisitsUntil<D>(s: seq<Entry<D>>, low: int, high: int, stop: Entry<D> -> bool, reverse: bool): (r: seq<Entry<D>>)
    ensures |r| <= |s|
    ensures forall i :: 0 <= i < |r| ==> InKeyRange(r[i], low, high, reverse)
    ensures forall i :: 0 <= i < |r| - 1 ==> !stop(r[i])
  {
    if s == [] then []
    else if Ord(high, reverse) < Ord(s[0].key, reverse) then []
    else if Ord(low, reverse) <= Ord(s[0].key, reverse) then
      if stop(s[0]) then [s[0]] else [s[0]] + RangeVisitsUntil(s[1..], low, high, stop, reverse)
    else RangeVisitsUntil(s[1..], low, high, stop, reverse)
  }

  /** Above `high` everywhere: nothing is in range. */
  lemma {:induction false} KeysInRangeAbove<D>(s: seq<Entry<D>>, low: int, high: int, reverse: bool)
    requires AllAbove(s, high, reverse)
    ensures KeysInRange(s, low, high, reverse) == []
  {
    if s != [] {
      assert AllAbove(s[1..], high, reverse) by {
        forall i | 0 <= i < |s[1..]| ensures Ord(high, reverse) < Ord(s[1..][i].key, reverse) {
          assert s[1..][i] == s[i + 1];
        }
      }
      KeysInRangeAbove(s[1..], low, high, reverse);
    }
  }

  /** On a sorted sequence the walk that stops early visits exactly the entries in range. */
  lemma {:induction false} RangeVisitsSorted<D>(s: seq<Entry<D>>, low: int, high: int, reverse: bool)
    requires Sorted(s, reverse)
    ensures RangeVisits(s, low, high, reverse) == KeysInRange(s, low, high, reverse)
  {
    if s != [] {
      assert s == [s[0]] + s[1..];
      SortedSplit([s[0]], s[1..], reverse);
      if Ord(high, reverse) < Ord(s[0].key, reverse) {
        assert AllAbove(s[1..], high, reverse) by {
          forall i | 0 <= i < |s[1..]| ensures Ord(high, reverse) < Ord(s[1..][i].key, reverse) {
            assert s[1..][i] == s[i + 1];
          }
        }
        KeysInRangeAbove(s[1..], low, high, reverse);
      } else {
        RangeVisitsSorted(s[1..], low, high, reverse);
      }
    }
  }

  /** The visitor walk is a prefix of the plain walk, and equal to it when no visited entry stops it. */
  lemma {:induction false} RangeVisitsUntilPrefix<D>(s: seq<Entry<D>>, low: int, high: int, stop: Entry<D> -> bool, reverse: bool)
    ensures var u, v := RangeVisitsUntil(s, low, high, stop, reverse), RangeVisits(s, low, high, reverse);
      |u| <= |v| && u == v[..|u|]
    ensures (forall i :: 0 <= i < |RangeVisits(s, low, high, reverse)| ==> !stop(RangeVisits(s, low, high, reverse)[i])) ==>
      RangeVisitsUntil(s, low, high, stop, reverse) == RangeVisits(s, low, high, reverse)
  {
    if s != [] && !(Ord(high, reverse) < Ord(s[0].key, reverse)) {
      RangeVisitsUntilPrefix(s[1..], low, high, stop, reverse);
      var u, v := RangeVisitsUntil(s, low, high, stop, reverse), RangeVisits(s, low, high, reverse);
      var u', v' := RangeVisitsUntil(s[1..], low, high, stop, reverse), RangeVisits(s[1..], low, high, reverse);
      if Ord(low, reverse) <= Ord(s[0].key, reverse) {
        assert v == [s[0]] + v';
        if !stop(s[0]) {
          assert u == [s[0]] + u';
          assert u == v[..|u|];
          if forall i :: 0 <= i < |v| ==> !stop(v[i]) {
            forall i | 0 <= i < |v'| ensures !stop(v'[i]) {
              assert v'[i] == v[i + 1];
            }
          }
        } else {
          assert v[0] == s[0] && u == [s[0]] == v[..1];
        }
      } else {
        assert u == u' && v == v';
      }
    }
  }

  /** When the visitor walk stops short of the plain walk, its last visit is one for which `stop` holds. */
  lemma {:induction false} RangeVisitsUntilShort<D>(s: seq<Entry<D>>, low: int, high: int, stop: Entry<D> -> bool, reverse: bool)
    ensures var u := RangeVisitsUntil(s, low, high, stop, reverse);
      u != RangeVisits(s, low, high, reverse) ==> |u| > 0 && stop(u[|u| - 1])
  {
    if s != [] && !(Ord(high, reverse) < Ord(s[0].key, reverse)) {
      RangeVisitsUntilShort(s[1..], low, high, stop, reverse);
      var u, v := RangeVisitsUntil(s, low, high, stop, reverse), RangeVisits(s, low, high, reverse);
      var u', v' := RangeVisitsUntil(s[1..], low, high, stop, reverse), RangeVisits(s[1..], low, high, reverse);
      if Ord(low, reverse) <= Ord(s[0].key, reverse) {
        assert v == [s[0]] + v';
        if !stop(s[0]) {
          assert u == [s[0]] + u';
          assert u != v ==> u' != v' && u[|u| - 1] == u'[|u'| - 1];
        }
      } else {
        assert u == u' && v == v';
      }
    }
  }

  // ---------------------------------------------------------------------
  // Where a node sits in the in-order sequence

  /** `r` is the node that follows the entry `e` of `s`: the next entry, or none after the last. */
  ghost predicate FollowsIn<D>(r: Tree<D>, s: seq<Entry<D>>, e: Entry<D>)
  {
    forall p :: 0 <= p < |s| && s[p] == e ==>
      (p + 1 < |s| ==> r.Node? && EntryOf(r) == s[p + 1]) && (p + 1 == |s| ==> r.Nil?)
  }

  /** `r` is the node that precedes the entry `e` of `s`: the previous entry, or none before the first. */
  ghost predicate PrecedesIn<D>(r: Tree<D>, s: seq<Entry<D>>, e: Entry<D>)
  {
    forall p :: 0 <= p < |s| && s[p] == e ==>
      (0 < p ==> r.Node? && EntryOf(r) == s[p - 1]) && (p == 0 ==> r.Nil?)
  }

  /** In a sequence without duplicate keys an entry sits at one position only. */
  lemma UniquePosition<D>(s: seq<Entry<D>>, p: int, q: int, reverse: bool)
    requires StrictlySorted(s, reverse) && 0 <= p < |s| && 0 <= q < |s|
    ensures s[p].key == s[q].key ==> p == q
  {
  }

  /** Of a node, the key of a proper descendant differs from its own when keys are distinct. */
  lemma {:induction false} DescendantKey<D>(t: Tree<D>, u: Tree<D>, reverse: bool)
    ensures StrictlySorted(InOrder(u), reverse) && Subtree(t, u) && t.Node? && t != u ==> t.key != u.key
  {
    if StrictlySorted(InOrder(u), reverse) && Subtree(t, u) && t.Node? && t != u {
      InOrderNode(u);
      InOrderNode(t);
      var a, b := SubtreeInOrder(t, if Subtree(t, u.left) then u.left else u.right);
      var s := InOrder(u);
      var l := |InOrder(u.left)|;
      var q := |a| + |InOrder(t.left)|;
      if Subtree(t, u.left) {
        assert s[q] == InOrder(u.left)[q] == EntryOf(t);
        UniquePosition(s, q, l, reverse);
      } else {
        assert s[l + 1 + q] == InOrder(u.right)[q] == EntryOf(t);
        UniquePosition(s, l + 1 + q, l, reverse);
      }
    }
  }

  /** A node of a sorted tree whose key is below the root's lies in the left subtree, and so on. */
  lemma {:induction false} DescendantSide<D>(t: Tree<D>, u: Tree<D>, reverse: bool)
    requires Sorted(InOrder(u), reverse) && Subtree(t, u) && t.Node? && u.Node?
    ensures Ord(t.key, reverse) < Ord(u.key, reverse) ==> Subtree(t, u.left)
    ensures Ord(u.key, reverse) < Ord(t.key, reverse) ==> Subtree(t, u.right)
  {
    SortedParts(u, reverse);
    if t != u {
      if Subtree(t, u.left) {
        var a, b := SubtreeInOrder(t, u.left);
        InOrderNode(t);
        assert InOrder(u.left)[|a| + |InOrder(t.left)|] == EntryOf(t);
      } else {
        var a, b := SubtreeInOrder(t, u.right);
        InOrderNode(t);
        assert InOrder(u.right)[|a| + |InOrder(t.left)|] == EntryOf(t);
      }
    }
  }

  /** The place of a node's entry in the sequence of a tree holding it. */
  lemma NodePosition<D>(t: Tree<D>, u: Tree<D>) returns (a: seq<Entry<D>>, b: seq<Entry<D>>)
    requires Subtree(t, u) && t.Node?
    ensures InOrder(u) == a + InOrder(t.left) + [EntryOf(t)] + InOrder(t.right) + b
    ensures InOrder(u)[|a| + |InOrder(t.left)|] == EntryOf(t)
  {
    a, b := SubtreeInOrder(t, u);
    InOrderNode(t);
    Regroup(a, InOrder(t.left), EntryOf(t), InOrder(t.right), b);
    assert InOrder(u) == (a + InOrder(t.left)) + [EntryOf(t)] + (InOrder(t.right) + b);
  }

  /** With distinct keys, the facts `FollowsIn` and `PrecedesIn` need only be checked at one position. */
  lemma FollowsAt<D>(r: Tree<D>, s: seq<Entry<D>>, p: int, reverse: bool)
    requires StrictlySorted(s, reverse) && 0 <= p < |s|
    requires p + 1 < |s| ==> r.Node? && EntryOf(r) == s[p + 1]
    requires p + 1 == |s| ==> r.Nil?
    ensures FollowsIn(r, s, s[p])
  {
    forall q | 0 <= q < |s| && s[q] == s[p]
      ensures (q + 1 < |s| ==> r.Node? && EntryOf(r) == s[q + 1]) && (q + 1 == |s| ==> r.Nil?)
    {
      UniquePosition(s, p, q, reverse);
    }
  }

  lemma PrecedesAt<D>(r: Tree<D>, s: seq<Entry<D>>, p: int, reverse: bool)
    requires StrictlySorted(s, reverse) && 0 <= p < |s|
    requires 0 < p ==> r.Node? && EntryOf(r) == s[p - 1]
    requires p == 0 ==> r.Nil?
    ensures PrecedesIn(r, s, s[p])
  {
    forall q | 0 <= q < |s| && s[q] == s[p]
      ensures (0 < q ==> r.Node? && EntryOf(r) == s[q - 1]) && (q == 0 ==> r.Nil?)
    {
      UniquePosition(s, p, q, reverse);
    }
  }

  /** A subsequence of a sequence with distinct keys has distinct keys. */
  lemma StrictlySortedInner<D>(a: seq<Entry<D>>, m: seq<Entry<D>>, b: seq<Entry<D>>, reverse: bool)
    requires StrictlySorted(a + m + b, reverse)
    ensures StrictlySorted(m, reverse)
  {
    StrictlySortedSplit(a + m, b, reverse);
    StrictlySortedSplit(a, m, reverse);
  }

  // ---------------------------------------------------------------------
  // Searching down a tree

  /** Both children of a node of `u` are nodes of `u` too. */
  lemma SubtreeChildren<D>(t: Tree<D>, u: Tree<D>)
    requires Subtree(t, u) && t.Node?
    ensures Subtree(t.left, u) && Subtree(t.right, u)
  {
    assert Subtree(t.left, t) && Subtree(t.right, t);
    SubtreeTrans(t.left, t, u);
    SubtreeTrans(t.right, t, u);
  }

  /** A subtree of a sorted tree is sorted. */
  lemma SortedSubtree<D>(t: Tree<D>, u: Tree<D>, reverse: bool)
    requires Subtree(t, u) && Sorted(InOrder(u), reverse)
    ensures Sorted(InOrder(t), reverse)
  {
    var a, b := SubtreeInOrder(t, u);
    SortedSplit(a + InOrder(t), b, reverse);
    SortedSplit(a, InOrder(t), reverse);
  }

  /** The key of a node of `u` is a key of `u`. */
  lemma SubtreeHasKey<D>(t: Tree<D>, u: Tree<D>)
    requires Subtree(t, u) && t.Node?
    ensures HasKey(InOrder(u), t.key)
  {
    var a, b := NodePosition(t, u);
  }

  /**
   * One step of a search by key: on a sorted node a key before the node's
   * key can only be in the left subtree, one after it only in the right.
   */
  lemma SearchStep<D>(t: Tree<D>, key: int, reverse: bool)
    requires t.Node? && Sorted(InOrder(t), reverse)
    ensures Sorted(InOrder(t.left), reverse) && Sorted(InOrder(t.right), reverse)
    ensures Ord(key, reverse) < Ord(t.key, reverse) ==> (HasKey(InOrder(t), key) <==> HasKey(InOrder(t.left), key))
    ensures Ord(t.key, reverse) < Ord(key, reverse) ==> (HasKey(InOrder(t), key) <==> HasKey(InOrder(t.right), key))
  {
    SortedParts(t, reverse);
    InOrderNode(t);
    HasKeyConcat(InOrder(t.left) + [EntryOf(t)], InOrder(t.right), key);
    HasKeyConcat(InOrder(t.left), [EntryOf(t)], key);
    if Ord(key, reverse) < Ord(t.key, reverse) {
      assert AllAbove(InOrder(t.right), key, reverse);
      NoKeyBelowOrAbove(InOrder(t.right), key, reverse);
    }
    if Ord(t.key, reverse) < Ord(key, reverse) {
      assert AllBelow(InOrder(t.left), key, reverse);
      NoKeyBelowOrAbove(InOrder(t.left), key, reverse);
    }
  }

  /** Going to the left child keeps the sequence a prefix; at the leftmost node the entry comes first. */
  lemma LeftmostStep<D>(t: Tree<D>)
    requires t.Node?
    ensures InOrder(t) == InOrder(t.left) + ([EntryOf(t)] + InOrder(t.right))
    ensures t.left.Nil? ==> InOrder(t)[0] == EntryOf(t)
  {
  }

  /** Going to the right child keeps the sequence a suffix; at the rightmost node the entry comes last. */
  lemma RightmostStep<D>(t: Tree<D>)
    requires t.Node?
    ensures InOrder(t) == (InOrder(t.left) + [EntryOf(t)]) + InOrder(t.right)
    ensures t.right.Nil? ==> InOrder(t)[|InOrder(t)| - 1] == EntryOf(t)
  {
  }

  /** The range walks take one entry at a time off the front of what is left. */
  lemma RangeStep<D>(e: Entry<D>, rest: seq<Entry<D>>, low: int, high: int, stop: Entry<D> -> bool, reverse: bool)
    ensures Ord(high, reverse) < Ord(e.key, reverse) ==>
      RangeVisitsUntil([e] + rest, low, high, stop, reverse) == [] && RangeVisits([e] + rest, low, high, reverse) == []
    ensures !(Ord(high, reverse) < Ord(e.key, reverse)) && Ord(low, reverse) <= Ord(e.key, reverse) ==>
      RangeVisits([e] + rest, low, high, reverse) == [e] + RangeVisits(rest, low, high, reverse)
      && RangeVisitsUntil([e] + rest, low, high, stop, reverse) ==
         (if stop(e) then [e] else [e] + RangeVisitsUntil(rest, low, high, stop, reverse))
    ensures !(Ord(high, reverse) < Ord(e.key, reverse)) && !(Ord(low, reverse) <= Ord(e.key, reverse)) ==>
      RangeVisits([e] + rest, low, high, reverse) == RangeVisits(rest, low, high, reverse)
      && RangeVisitsUntil([e] + rest, low, high, stop, reverse) == RangeVisitsUntil(rest, low, high, stop, reverse)
  {
    assert ([e] + rest)[0] == e && ([e] + rest)[1..] == rest;
  }

  /** The last entry of a sorted sequence is its greatest. */
  lemma LastBound<D>(s: seq<Entry<D>>, reverse: bool)
    requires s != [] && Sorted(s, reverse)
    ensures AllAtMost(s, s[|s| - 1].key, reverse)
  {
  }

  /** The first entry of a sorted sequence is its least. */
  lemma FirstBound<D>(s: seq<Entry<D>>, reverse: bool)
    requires s != [] && Sorted(s, reverse)
    ensures AllAtLeast(s, s[0].key, reverse)
  {
  }

  /**
   * One step of the successor and predecessor searches: with distinct keys,
   * a node below `cur` whose key comes before `cur`'s lies on the left, and
   * the sequence regroups so that `cur` and its right subtree follow the
   * left subtree.
   */
  lemma SearchLeft<D>(node: Tree<D>, cur: Tree<D>, pre: seq<Entry<D>>, post: seq<Entry<D>>, reverse: bool)
    requires cur.Node? && node.Node? && Subtree(node, cur) && StrictlySorted(InOrder(cur), reverse)
    requires Ord(node.key, reverse) < Ord(cur.key, reverse)
    ensures Subtree(node, cur.left) && StrictlySorted(InOrder(cur.left), reverse)
    ensures pre + InOrder(cur) + post == pre + InOrder(cur.left) + (([EntryOf(cur)] + InOrder(cur.right)) + post)
  {
    SearchSides(node, cur, reverse);
    StrictChildren(cur, reverse);
    InOrderNode(cur);
    Regroup(pre, InOrder(cur.left), EntryOf(cur), InOrder(cur.right), post);
  }

  /** With distinct keys, a node below `cur` lies on the side its key falls. */
  lemma SearchSides<D>(node: Tree<D>, cur: Tree<D>, reverse: bool)
    requires cur.Node? && node.Node? && Subtree(node, cur) && StrictlySorted(InOrder(cur), reverse)
    ensures Ord(node.key, reverse) < Ord(cur.key, reverse) ==> Subtree(node, cur.left)
    ensures Ord(cur.key, reverse) < Ord(node.key, reverse) ==> Subtree(node, cur.right)
  {
    StrictlySortedIsSorted(InOrder(cur), reverse);
    DescendantSide(node, cur, reverse);
  }

  /** Both subtrees of a node with distinct keys have distinct keys. */
  lemma StrictChildren<D>(cur: Tree<D>, reverse: bool)
    requires cur.Node? && StrictlySorted(InOrder(cur), reverse)
    ensures StrictlySorted(InOrder(cur.left), reverse) && StrictlySorted(InOrder(cur.right), reverse)
  {
    var l, e, r := InOrder(cur.left), EntryOf(cur), InOrder(cur.right);
    InOrderNode(cur);
    StrictlySortedSplit(l + [e], r, reverse);
    StrictlySortedSplit(l, [e], reverse);
  }

  lemma SearchRight<D>(node: Tree<D>, cur: Tree<D>, pre: seq<Entry<D>>, post: seq<Entry<D>>, reverse: bool)
    requires cur.Node? && node.Node? && Subtree(node, cur) && StrictlySorted(InOrder(cur), reverse)
    requires Ord(cur.key, reverse) < Ord(node.key, reverse)
    ensures Subtree(node, cur.right) && StrictlySorted(InOrder(cur.right), reverse)
    ensures pre + InOrder(cur) + post == (pre + (InOrder(cur.left) + [EntryOf(cur)])) + InOrder(cur.right) + post
  {
    SearchSides(node, cur, reverse);
    StrictChildren(cur, reverse);
    InOrderNode(cur);
    Regroup(pre, InOrder(cur.left), EntryOf(cur), InOrder(cur.right), post);
  }

  /**
   * Where the search meets a node of the key of `node` (distinct keys): it
   * is `node` itself, and when `node` has no right subtree the entry after
   * it in the whole sequence is the first one of `post`.
   */
  lemma FoundFollows<D>(node: Tree<D>, cur: Tree<D>, r: Tree<D>, pre: seq<Entry<D>>, post: seq<Entry<D>>, whole: seq<Entry<D>>, reverse: bool)
    requires StrictlySorted(whole, reverse) && whole == pre + InOrder(cur) + post
    requires cur.Node? && node.Node? && node.right.Nil? && Subtree(node, cur) && node.key == cur.key
    requires StrictlySorted(InOrder(cur), reverse)
    requires (post == [] ==> r.Nil?) && (post != [] ==> r.Node? && EntryOf(r) == post[0])
    ensures FollowsIn(r, whole, EntryOf(node))
  {
    DescendantKey(node, cur, reverse);
    assert node == cur;
    var l, e := InOrder(node.left), EntryOf(node);
    InOrderOneSided(node.left, node.key, node.data, Nil);
    var p := |pre| + |l|;
    assert whole == (pre + l) + [e] + post;
    assert whole[p] == e;
    assert p + 1 < |whole| ==> whole[p + 1] == post[0];
    FollowsAt(r, whole, p, reverse);
  }

  lemma FoundPrecedes<D>(node: Tree<D>, cur: Tree<D>, r: Tree<D>, pre: seq<Entry<D>>, post: seq<Entry<D>>, whole: seq<Entry<D>>, reverse: bool)
    requires StrictlySorted(whole, reverse) && whole == pre + InOrder(cur) + post
    requires cur.Node? && node.Node? && node.left.Nil? && Subtree(node, cur) && node.key == cur.key
    requires StrictlySorted(InOrder(cur), reverse)
    requires (pre == [] ==> r.Nil?) && (pre != [] ==> r.Node? && EntryOf(r) == pre[|pre| - 1])
    ensures PrecedesIn(r, whole, EntryOf(node))
  {
    DescendantKey(node, cur, reverse);
    assert node == cur;
    var e, rr := EntryOf(node), InOrder(node.right);
    InOrderOneSided(Nil, node.key, node.data, node.right);
    var p := |pre|;
    assert whole == pre + [e] + (rr + post);
    assert whole[p] == e;
    assert 0 < p ==> whole[p - 1] == pre[|pre| - 1];
    PrecedesAt(r, whole, p, reverse);
  }

  /** A node with a right subtree is followed by the first entry of that subtree. */
  lemma FollowsIntoRight<D>(node: Tree<D>, u: Tree<D>, r: Tree<D>, reverse: bool)
    requires StrictlySorted(InOrder(u), reverse) && Subtree(node, u) && node.Node? && node.right.Node?
    requires r.Node? && EntryOf(r) == InOrder(node.right)[0]
    ensures FollowsIn(r, InOrder(u), EntryOf(node))
  {
    var a, b := NodePosition(node, u);
    var l, e, rr := InOrder(node.left), EntryOf(node), InOrder(node.right);
    InOrderEmpty(node.right);
    var p := |a| + |l|;
    assert InOrder(u) == (a + l + [e]) + rr + b;
    assert InOrder(u)[p + 1] == rr[0];
    FollowsAt(r, InOrder(u), p, reverse);
  }

  /** A node with a left subtree is preceded by the last entry of that subtree. */
  lemma PrecedesFromLeft<D>(node: Tree<D>, u: Tree<D>, r: Tree<D>, reverse: bool)
    requires StrictlySorted(InOrder(u), reverse) && Subtree(node, u) && node.Node? && node.left.Node?
    requires r.Node? && |InOrder(node.left)| > 0 && EntryOf(r) == InOrder(node.left)[|InOrder(node.left)| - 1]
    ensures PrecedesIn(r, InOrder(u), EntryOf(node))
  {
    var a, b := NodePosition(node, u);
    var l := InOrder(node.left);
    var p := |a| + |l|;
    assert InOrder(u) == (a + l) + [EntryOf(node)] + InOrder(node.right) + b;
    assert InOrder(u)[p - 1] == l[|l| - 1];
    PrecedesAt(r, InOrder(u), p, reverse);
  }

  /** The last element of a concatenation with a non-empty end is that end's last. */
  /** The last entry of a node with a right child is the last entry of that child. */
  lemma LastInRight<D>(t: Tree<D>)
    requires t.Node? && t.right.Node?
    ensures InOrder(t) != [] && InOrder(t.right) != []
    ensures InOrder(t)[|InOrder(t)| - 1] == InOrder(t.right)[|InOrder(t.right)| - 1]
  {
    RightmostStep(t);
    InOrderEmpty(t.right);
    LastOfConcat(InOrder(t.left) + [EntryOf(t)], InOrder(t.right));
  }

  /** A node with no right child that ends the sequence of `n`: the last entry, the greatest when sorted. */
  lemma RightmostLast<D>(n: Tree<D>, r: Tree<D>, reverse: bool)
    requires r.Node? && r.right.Nil? && InOrder(n) != []
    requires InOrder(n)[|InOrder(n)| - 1] == InOrder(r)[|InOrder(r)| - 1]
    ensures EntryOf(r) == InOrder(n)[|InOrder(n)| - 1]
    ensures Sorted(InOrder(n), reverse) ==> AllAtMost(InOrder(n), r.key, reverse)
  {
    RightmostStep(r);
    if Sorted(InOrder(n), reverse) {
      LastBound(InOrder(n), reverse);
    }
  }

  /** A node with no left child starting the sequence: the first entry, the least when sorted. */
  lemma LeftmostFirst<D>(n: Tree<D>, r: Tree<D>, rest: seq<Entry<D>>, reverse: bool)
    requires r.Node? && r.left.Nil? && InOrder(n) == InOrder(r) + rest
    ensures InOrder(n) != [] && EntryOf(r) == InOrder(n)[0]
    ensures Sorted(InOrder(n), reverse) ==> AllAtLeast(InOrder(n), r.key, reverse)
  {
    LeftmostStep(r);
    if Sorted(InOrder(n), reverse) {
      FirstBound(InOrder(n), reverse);
    }
  }

  lemma LastOfConcat<E>(a: seq<E>, b: seq<E>)
    requires b != []
    ensures (a + b)[|a + b| - 1] == b[|b| - 1]
  {
  }
}
