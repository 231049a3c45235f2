/**
 * The static core of SplayTree/SplayTree.cs: the top-down splay (lines
 * 714-769) and the insert, split and merge built on it (lines 771-858).
 *
 * Node rewiring is modelled on tree values. The two accumulator chains of
 * the top-down splay (hanging off the dummy node `n` through the cursors
 * `l` and `r`) are sequences of frames: a frame is a linked node together
 * with the one child it keeps; the other child is the hole that the next
 * linked node, or finally the splayed node's own child, fills.
 */
module SplayCore {
  import opened Ordering
  import opened Trees

  /** Which half keeps the node whose key equals the split key. */
  datatype SplitPosition = None | Left | Right

  /** A node linked into an accumulator chain, with the child it keeps. */
  datatype Frame<D> = Frame(sub: Tree<D>, key: int, data: D)

  /** The left chain: each frame's right child is the next frame, the last one's is `t`. */
  function AssembleLeft<D>(ls: seq<Frame<D>>, t: Tree<D>): Tree<D>
  {
    if ls == [] then t
    else
      var f := ls[|ls| - 1];
      AssembleLeft(ls[..|ls| - 1], Node(f.sub, f.key, f.data, t))
  }

  /** The right chain: each frame's left child is the next frame, the last one's is `t`. */
  function AssembleRight<D>(rs: seq<Frame<D>>, t: Tree<D>): Tree<D>
  {
    if rs == [] then t
    else
      var f := rs[|rs| - 1];
      AssembleRight(rs[..|rs| - 1], Node(t, f.key, f.data, f.sub))
  }

  /** The entries the left chain contributes, in order. */
  function LeftSeq<D>(ls: seq<Frame<D>>): seq<Entry<D>>
  {
    if ls == [] then []
    else
      var f := ls[|ls| - 1];
      LeftSeq(ls[..|ls| - 1]) + InOrder(f.sub) + [Entry(f.key, f.data)]
  }

  /** The entries the right chain contributes, in order. */
  function RightSeq<D>(rs: seq<Frame<D>>): seq<Entry<D>>
  {
    if rs == [] then []
    else
      var f := rs[|rs| - 1];
      [Entry(f.key, f.data)] + InOrder(f.sub) + RightSeq(rs[..|rs| - 1])
  }

  lemma {:induction false} AssembleLeftInOrder<D>(ls: seq<Frame<D>>, t: Tree<D>)
    ensures InOrder(AssembleLeft(ls, t)) == LeftSeq(ls) + InOrder(t)
    decreases |ls|
  {
    if ls != [] {
      var f := ls[|ls| - 1];
      AssembleLeftInOrder(ls[..|ls| - 1], Node(f.sub, f.key, f.data, t));
    }
  }

  lemma {:induction false} AssembleRightInOrder<D>(rs: seq<Frame<D>>, t: Tree<D>)
    ensures InOrder(AssembleRight(rs, t)) == InOrder(t) + RightSeq(rs)
    decreases |rs|
  {
    if rs != [] {
      var f := rs[|rs| - 1];
      AssembleRightInOrder(rs[..|rs| - 1], Node(t, f.key, f.data, f.sub));
    }
  }

  /**
   * `r` is the result of splaying at `key`: everything left of the root is at
   * most `key`, everything right of it at least `key`, and when the root's key
   * differs from `key` no other key of the tree lies between the two.
   */
  ghost predicate SplayedAt<D>(r: Tree<D>, key: int, reverse: bool)
  {
    && r.Node?
    && AllAtMost(InOrder(r.left), key, reverse)
    && AllAtLeast(InOrder(r.right), key, reverse)
    && (Ord(key, reverse) < Ord(r.key, reverse) ==> AllBelow(InOrder(r.left), key, reverse))
    && (Ord(r.key, reverse) < Ord(key, reverse) ==> AllAbove(InOrder(r.right), key, reverse))
  }

  /** Where the top-down descent stops. */
  ghost predicate Stopped<D>(t: Tree<D>, key: int, reverse: bool)
  {
    && t.Node?
    && (t.key == key
        || (Ord(key, reverse) < Ord(t.key, reverse) && t.left.Nil?)
        || (Ord(t.key, reverse) < Ord(key, reverse) && t.right.Nil?))
  }

  /** Around an entry splayed at `key`, the key is present exactly when the entry holds it. */
  lemma PartsFind<D>(L: seq<Entry<D>>, e: Entry<D>, R: seq<Entry<D>>, key: int, reverse: bool)
    requires AllAtMost(L, e.key, reverse) && AllAtLeast(R, e.key, reverse)
    requires AllAtMost(L, key, reverse) && AllAtLeast(R, key, reverse)
    requires Ord(key, reverse) < Ord(e.key, reverse) ==> AllBelow(L, key, reverse)
    requires Ord(e.key, reverse) < Ord(key, reverse) ==> AllAbove(R, key, reverse)
    ensures HasKey(L + [e] + R, key) <==> e.key == key
  {
    var s := L + [e] + R;
    if e.key == key {
      assert s[|L|] == e;
    } else {
      forall i | 0 <= i < |s| ensures s[i].key != key {
        if i < |L| {
          assert s[i] == L[i];
        } else if i > |L| {
          assert s[i] == R[i - |L| - 1];
        }
      }
    }
  }

  /** In a splayed, sorted tree the key is present exactly when it is at the root. */
  lemma SplayedAtFinds<D>(r: Tree<D>, key: int, reverse: bool)
    requires SplayedAt(r, key, reverse) && Sorted(InOrder(r), reverse)
    ensures HasKey(InOrder(r), key) <==> r.key == key
  {
    InOrderNode(r);
    SortedParts(r, reverse);
    PartsFind(InOrder(r.left), EntryOf(r), InOrder(r.right), key, reverse);
  }

  /** Splaying at a key below every key brings the minimum to the root, with no left child. */
  lemma SplayedAtBelowAll<D>(r: Tree<D>, key: int, reverse: bool)
    requires SplayedAt(r, key, reverse)
    requires AllAbove(InOrder(r), key, reverse)
    ensures r.left.Nil?
  {
    var L := InOrder(r.left);
    InOrderNode(r);
    AllBelowConcat(L + [EntryOf(r)], InOrder(r.right), key, reverse);
    AllBelowConcat(L, [EntryOf(r)], key, reverse);
    AboveAtMostEmpty(L, key, reverse);
    InOrderEmpty(r.left);
  }

  /**
   * The state of the descent: the chains and the current node together hold
   * the original sequence `whole`, and when it is sorted the left chain lies
   * below the key and the right chain above it.
   */
  ghost predicate Descent<D>(ls: seq<Frame<D>>, t: Tree<D>, rs: seq<Frame<D>>, whole: seq<Entry<D>>, key: int, reverse: bool, sorted: bool)
  {
    && LeftSeq(ls) + InOrder(t) + RightSeq(rs) == whole
    && (sorted ==>
          Sorted(InOrder(t), reverse) && AllBelow(LeftSeq(ls), key, reverse) && AllAbove(RightSeq(rs), key, reverse))
  }

  /** A right rotation keeps the in-order sequence. */
  lemma RotateRight<D>(t: Tree<D>)
    requires t.Node? && t.left.Node?
    ensures var y := t.left;
      InOrder(Node(y.left, y.key, y.data, Node(y.right, t.key, t.data, t.right))) == InOrder(t)
  {
    var y := t.left;
    Regroup(InOrder(y.left), [], EntryOf(y), InOrder(y.right) + [EntryOf(t)], InOrder(t.right));
  }

  /** A left rotation keeps the in-order sequence. */
  lemma RotateLeft<D>(t: Tree<D>)
    requires t.Node? && t.right.Node?
    ensures var y := t.right;
      InOrder(Node(Node(t.left, t.key, t.data, y.left), y.key, y.data, y.right)) == InOrder(t)
  {
  }

  /** "Link right": the node and its right subtree move to the right chain. */
  lemma LinkRight<D>(ls: seq<Frame<D>>, t: Tree<D>, rs: seq<Frame<D>>, whole: seq<Entry<D>>, key: int, reverse: bool, sorted: bool)
    requires t.Node? && Descent(ls, t, rs, whole, key, reverse, sorted)
    requires Ord(key, reverse) < Ord(t.key, reverse)
    ensures Descent(ls, t.left, rs + [Frame(t.right, t.key, t.data)], whole, key, reverse, sorted)
    ensures |InOrder(t.left)| < |InOrder(t)|
  {
    var rs' := rs + [Frame(t.right, t.key, t.data)];
    var L, e, R := InOrder(t.left), EntryOf(t), InOrder(t.right);
    assert rs'[..|rs'| - 1] == rs;
    assert RightSeq(rs') == [e] + R + RightSeq(rs);
    InOrderNode(t);
    Regroup(LeftSeq(ls), L, e, R, RightSeq(rs));
    if sorted {
      SortedParts(t, reverse);
      AllBelowConcat([e] + R, RightSeq(rs), key, reverse);
      AllBelowConcat([e], R, key, reverse);
    }
  }

  /** "Link left": the node and its left subtree move to the left chain. */
  lemma LinkLeft<D>(ls: seq<Frame<D>>, t: Tree<D>, rs: seq<Frame<D>>, whole: seq<Entry<D>>, key: int, reverse: bool, sorted: bool)
    requires t.Node? && Descent(ls, t, rs, whole, key, reverse, sorted)
    requires Ord(t.key, reverse) < Ord(key, reverse)
    ensures Descent(ls + [Frame(t.left, t.key, t.data)], t.right, rs, whole, key, reverse, sorted)
    ensures |InOrder(t.right)| < |InOrder(t)|
  {
    var ls' := ls + [Frame(t.left, t.key, t.data)];
    var L, e, R := InOrder(t.left), EntryOf(t), InOrder(t.right);
    assert ls'[..|ls'| - 1] == ls;
    assert LeftSeq(ls') == LeftSeq(ls) + L + [e];
    InOrderNode(t);
    Regroup(LeftSeq(ls), L, e, R, RightSeq(rs));
    if sorted {
      SortedParts(t, reverse);
      AllBelowConcat(LeftSeq(ls) + L, [e], key, reverse);
      AllBelowConcat(LeftSeq(ls), L, key, reverse);
    }
  }

  /** The splayed tree from the chains and the node where the descent stopped. */
  lemma SplayFinish<D>(ls: seq<Frame<D>>, t: Tree<D>, rs: seq<Frame<D>>, whole: seq<Entry<D>>, key: int, reverse: bool, sorted: bool)
    requires Stopped(t, key, reverse) && Descent(ls, t, rs, whole, key, reverse, sorted)
    ensures var r := Node(AssembleLeft(ls, t.left), t.key, t.data, AssembleRight(rs, t.right));
      && InOrder(r) == whole
      && (sorted ==> SplayedAt(r, key, reverse))
  {
    var L, e, R := InOrder(t.left), EntryOf(t), InOrder(t.right);
    AssembleLeftInOrder(ls, t.left);
    AssembleRightInOrder(rs, t.right);
    InOrderNode(t);
    Regroup(LeftSeq(ls), L, e, R, RightSeq(rs));
    if sorted {
      SortedParts(t, reverse);
      AllBelowConcat(LeftSeq(ls), L, key, reverse);
      AllBelowConcat(R, RightSeq(rs), key, reverse);
      assert Ord(key, reverse) < Ord(t.key, reverse) ==> L == [];
      assert Ord(t.key, reverse) < Ord(key, reverse) ==> R == [];
    }
  }

  /**
   * Top-down splay (SplayTree.cs:714-769). The in-order sequence is kept;
   * on a sorted tree the result is splayed at `key`, so a present key comes
   * to the root and a key below every key brings the minimum, without a left
   * child, to the root.
   */
  method Splay<D>(key: int, root: Tree<D>, reverse: bool) returns (r: Tree<D>)
    requires root.Node?
    ensures r.Node? && InOrder(r) == InOrder(root)
    ensures Sorted(InOrder(root), reverse) ==> SplayedAt(r, key, reverse)
    ensures Sorted(InOrder(root), reverse) ==> (HasKey(InOrder(root), key) <==> r.key == key)
    ensures Sorted(InOrder(root), reverse) && AllAbove(InOrder(root), key, reverse) ==> r.left.Nil?
  {
    ghost var whole, sorted := InOrder(root), Sorted(InOrder(root), reverse);
    var t := root;
    var ls: seq<Frame<D>> := [];
    var rs: seq<Frame<D>> := [];
    while true
      invariant t.Node? && Descent(ls, t, rs, whole, key, reverse, sorted)
      decreases |InOrder(t)|
    {
      var cmp := CompareTo(key, t.key, reverse);
      if cmp < 0 {
        if t.left.Nil? { break; }
        if CompareTo(key, t.left.key, reverse) < 0 {
          var y := t.left;  // rotate right
          RotateRight(t);
          t := Node(y.left, y.key, y.data, Node(y.right, t.key, t.data, t.right));
          if t.left.Nil? { break; }
        }
        LinkRight(ls, t, rs, whole, key, reverse, sorted);
        rs := rs + [Frame(t.right, t.key, t.data)];
        t := t.left;
      } else if cmp > 0 {
        if t.right.Nil? { break; }
        if CompareTo(key, t.right.key, reverse) > 0 {
          var y := t.right;  // rotate left
          RotateLeft(t);
          t := Node(Node(t.left, t.key, t.data, y.left), y.key, y.data, y.right);
          if t.right.Nil? { break; }
        }
        LinkLeft(ls, t, rs, whole, key, reverse, sorted);
        ls := ls + [Frame(t.left, t.key, t.data)];
        t := t.right;
      } else {
        break;
      }
    }
    // assemble
    SplayFinish(ls, t, rs, whole, key, reverse, sorted);
    r := Node(AssembleLeft(ls, t.left), t.key, t.data, AssembleRight(rs, t.right));
    if sorted {
      SplayedAtFinds(r, key, reverse);
      if AllAbove(whole, key, reverse) {
        SplayedAtBelowAll(r, key, reverse);
      }
    }
  }

  /** An entry put between the keys at most and at least its own keeps a sequence sorted. */
  lemma InsertedSorted<D>(a: seq<Entry<D>>, e: Entry<D>, b: seq<Entry<D>>, reverse: bool)
    requires Sorted(a, reverse) && Sorted(b, reverse)
    requires AllAtMost(a, e.key, reverse) && AllAtLeast(b, e.key, reverse)
    ensures Sorted(a + [e] + b, reverse)
  {
    AllBelowConcat(a, [e], e.key, reverse);
    SortedJoin(a, [e], e.key, reverse);
    SortedJoin(a + [e], b, e.key, reverse);
  }

  /** A new node over two trees whose sequences make up `whole`, on the right sides of its key. */
  lemma NewRoot<D>(l: Tree<D>, e: Entry<D>, r: Tree<D>, whole: seq<Entry<D>>, reverse: bool, sorted: bool)
    requires InOrder(l) + InOrder(r) == whole
    requires sorted ==> Sorted(whole, reverse) && AllAtMost(InOrder(l), e.key, reverse) && AllAtLeast(InOrder(r), e.key, reverse)
    ensures InOrder(Node(l, e.key, e.data, r)) == InOrder(l) + [e] + InOrder(r)
    ensures multiset(InOrder(Node(l, e.key, e.data, r))) == multiset(whole) + multiset{e}
    ensures sorted ==> Sorted(InOrder(Node(l, e.key, e.data, r)), reverse)
  {
    if sorted {
      SortedSplit(InOrder(l), InOrder(r), reverse);
      InsertedSorted(InOrder(l), e, InOrder(r), reverse);
    }
  }

  /** Around an entry splayed at `key`, each side together with the entry lies on its side of `key`. */
  lemma PartsSides<D>(L: seq<Entry<D>>, e: Entry<D>, R: seq<Entry<D>>, key: int, reverse: bool)
    requires AllAtMost(L, e.key, reverse) && AllAtLeast(R, e.key, reverse)
    requires AllAtMost(L, key, reverse) && AllAtLeast(R, key, reverse)
    requires Ord(key, reverse) < Ord(e.key, reverse) ==> AllBelow(L, key, reverse)
    requires Ord(e.key, reverse) < Ord(key, reverse) ==> AllAbove(R, key, reverse)
    ensures Ord(key, reverse) < Ord(e.key, reverse) ==> AllAbove([e] + R, key, reverse)
    ensures Ord(key, reverse) <= Ord(e.key, reverse) ==> AllAtLeast([e] + R, key, reverse)
    ensures Ord(e.key, reverse) <= Ord(key, reverse) ==> AllAtMost(L + [e], key, reverse)
    ensures Ord(e.key, reverse) < Ord(key, reverse) ==> AllBelow(L + [e], key, reverse)
  {
    AllBelowConcat([e], R, key, reverse);
    AllBelowConcat(L, [e], key, reverse);
  }

  /** The two ways of cutting a splayed, sorted node next to its root, and on which side of `key` they lie. */
  lemma SplayedParts<D>(t: Tree<D>, key: int, reverse: bool)
    requires t.Node? && SplayedAt(t, key, reverse) && Sorted(InOrder(t), reverse)
    ensures InOrder(t) == InOrder(t.left) + [EntryOf(t)] + InOrder(t.right)
    ensures InOrder(Node(Nil, t.key, t.data, t.right)) == [EntryOf(t)] + InOrder(t.right)
    ensures InOrder(Node(t.left, t.key, t.data, Nil)) == InOrder(t.left) + [EntryOf(t)]
    ensures Ord(key, reverse) < Ord(t.key, reverse) ==> AllAbove([EntryOf(t)] + InOrder(t.right), key, reverse)
    ensures Ord(key, reverse) <= Ord(t.key, reverse) ==> AllAtLeast([EntryOf(t)] + InOrder(t.right), key, reverse)
    ensures Ord(t.key, reverse) <= Ord(key, reverse) ==> AllAtMost(InOrder(t.left) + [EntryOf(t)], key, reverse)
    ensures Ord(t.key, reverse) < Ord(key, reverse) ==> AllBelow(InOrder(t.left) + [EntryOf(t)], key, reverse)
  {
    InOrderNode(t);
    SortedParts(t, reverse);
    InOrderOneSided(t.left, t.key, t.data, t.right);
    PartsSides(InOrder(t.left), EntryOf(t), InOrder(t.right), key, reverse);
  }

  /**
   * Static insert (SplayTree.cs:771-796): the new node becomes the root;
   * taking it out gives back the old sequence, and on a sorted tree it sits
   * between the keys at most and at least its own, so duplicates are kept.
   */
  method Insert<D>(key: int, data: D, root: Tree<D>, reverse: bool) returns (r: Tree<D>)
    ensures r.Node? && r.key == key && r.data == data
    ensures InOrder(r.left) + InOrder(r.right) == InOrder(root)
    ensures Sorted(InOrder(root), reverse) ==>
      AllAtMost(InOrder(r.left), key, reverse) && AllAtLeast(InOrder(r.right), key, reverse)
    ensures Sorted(InOrder(root), reverse) ==> Sorted(InOrder(r), reverse)
    ensures multiset(InOrder(r)) == multiset(InOrder(root)) + multiset{Entry(key, data)}
  {
    ghost var whole, sorted := InOrder(root), Sorted(InOrder(root), reverse);
    if root.Nil? {
      return Node(Nil, key, data, Nil);
    }
    var t := Splay(key, root, reverse);
    var cmp := CompareTo(key, t.key, reverse);
    if cmp < 0 {
      r := Node(t.left, key, data, Node(Nil, t.key, t.data, t.right));
    } else {
      r := Node(Node(t.left, t.key, t.data, Nil), key, data, t.right);
    }
    InOrderNode(t);
    if sorted {
      SplayedParts(t, key, reverse);
    }
    NewRoot(r.left, Entry(key, data), r.right, whole, reverse, sorted);
  }

  /** `s` is `a`, then one entry of key `key`, then `b`. */
  ghost predicate SplitsAround<D>(s: seq<Entry<D>>, a: seq<Entry<D>>, key: int, b: seq<Entry<D>>)
  {
    |s| == |a| + 1 + |b| && s == a + [s[|a|]] + b && s[|a|].key == key
  }

  /**
   * Static split (SplayTree.cs:799-845). On a sorted tree: when the key is
   * present, `None` drops one node of that key and keeps the rest, `Left`
   * keeps it as the last of the left half, `Right` as the first of the right
   * half; when it is absent, the halves are the keys below and above it.
   */
  method Split<D>(key: int, v: Tree<D>, reverse: bool, position: SplitPosition) returns (left: Tree<D>, right: Tree<D>)
    ensures v.Nil? ==> left.Nil? && right.Nil?
    ensures Sorted(InOrder(v), reverse) && !HasKey(InOrder(v), key) ==>
      InOrder(left) + InOrder(right) == InOrder(v)
      && AllBelow(InOrder(left), key, reverse) && AllAbove(InOrder(right), key, reverse)
    ensures Sorted(InOrder(v), reverse) && HasKey(InOrder(v), key) ==>
      AllAtMost(InOrder(left), key, reverse) && AllAtLeast(InOrder(right), key, reverse)
    ensures Sorted(InOrder(v), reverse) && HasKey(InOrder(v), key) && position == None ==>
      SplitsAround(InOrder(v), InOrder(left), key, InOrder(right))
    ensures Sorted(InOrder(v), reverse) && HasKey(InOrder(v), key) && position == Left ==>
      InOrder(left) + InOrder(right) == InOrder(v)
      && |InOrder(left)| > 0 && InOrder(left)[|InOrder(left)| - 1].key == key
    ensures Sorted(InOrder(v), reverse) && HasKey(InOrder(v), key) && position == Right ==>
      InOrder(left) + InOrder(right) == InOrder(v)
      && |InOrder(right)| > 0 && InOrder(right)[0].key == key
  {
    left, right := Nil, Nil;
    if v.Node? {
      ghost var sorted := Sorted(InOrder(v), reverse);
      var t := Splay(key, v, reverse);
      var cmp := CompareTo(t.key, key, reverse);
      if cmp == 0 {
        match position {
          case Left =>
            left := Node(t.left, t.key, t.data, Nil);
            right := t.right;
          case Right =>
            left := t.left;
            right := Node(Nil, t.key, t.data, t.right);
          case None =>
            left := t.left;
            right := t.right;
        }
      } else if cmp < 0 {
        right := t.right;
        left := Node(t.left, t.key, t.data, Nil);
      } else {
        left := t.left;
        right := Node(Nil, t.key, t.data, t.right);
      }
      InOrderNode(t);
      if sorted {
        SplayedParts(t, key, reverse);
      }
    }
  }

  /**
   * Static merge (SplayTree.cs:847-858): splay the right tree at the left
   * root's key and hang the left tree under the new root. When every left key
   * is below every right key the result holds the left sequence followed by
   * the right one; overlapping halves are not rejected.
   */
  method Merge<D>(left: Tree<D>, right: Tree<D>, reverse: bool) returns (r: Tree<D>)
    ensures right.Nil? ==> r == left
    ensures left.Nil? ==> r == right
    ensures Sorted(InOrder(right), reverse) && KeysBelow(InOrder(left), InOrder(right), reverse) ==>
      InOrder(r) == InOrder(left) + InOrder(right)
    ensures Sorted(InOrder(left), reverse) && Sorted(InOrder(right), reverse) && KeysAtMost(InOrder(left), InOrder(right), reverse) ==>
      Sorted(InOrder(r), reverse)
  {
    if right.Nil? { return left; }
    if left.Nil? { return right; }
    var t := Splay(left.key, right, reverse);
    r := Node(left, t.key, t.data, t.right);
    if Sorted(InOrder(right), reverse) && KeysBelow(InOrder(left), InOrder(right), reverse) {
      InOrderNode(left);
      assert InOrder(left)[|InOrder(left.left)|].key == left.key;
      assert AllAbove(InOrder(right), left.key, reverse);
      InOrderNode(t);
    }
    if Sorted(InOrder(left), reverse) && Sorted(InOrder(right), reverse) && KeysAtMost(InOrder(left), InOrder(right), reverse) {
      HangLeft(left, t, reverse);
    }
  }

  /** Hanging a sorted tree whose keys come before or with all of `t`'s in place of `t`'s left subtree gives a sorted tree. */
  lemma HangLeft<D>(l: Tree<D>, t: Tree<D>, reverse: bool)
    requires t.Node? && Sorted(InOrder(l), reverse) && Sorted(InOrder(t), reverse)
    requires KeysAtMost(InOrder(l), InOrder(t), reverse)
    ensures Sorted(InOrder(Node(l, t.key, t.data, t.right)), reverse)
  {
    InOrderNode(t);
    SortedParts(t, reverse);
    var k := |InOrder(t.left)|;
    assert InOrder(t)[k] == EntryOf(t);
    assert AllAtMost(InOrder(l), t.key, reverse) by {
      forall i | 0 <= i < |InOrder(l)| ensures Ord(InOrder(l)[i].key, reverse) <= Ord(t.key, reverse) {
        assert Ord(InOrder(l)[i].key, reverse) <= Ord(InOrder(t)[k].key, reverse);
      }
    }
    InsertedSorted(InOrder(l), EntryOf(t), InOrder(t.right), reverse);
  }
}
