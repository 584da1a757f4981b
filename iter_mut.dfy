/**
 * `NodeIntoIterMut`: the iterator returned by `Node::iter_mut`, yielding
 * exclusive `&mut` handles to the items. A mutable slice over siblings is
 * modelled by the siblings together with their addresses in the borrowed
 * tree, and a yielded handle by the address of its leaf. The invariant
 * `Valid` says that every slice the iterator holds, in the current frame and
 * in every saved frame, really is a view of the borrowed tree at those
 * addresses, and that no two of these views overlap.
 *
 * `MutFrame` is the `Frame` of the other two iterators with the slice's
 * addresses added, so `ChainTraverse`, `ChainSize` and `ChainDepth` are
 * restated here over it with the same meaning.
 */
module IterMut {
  import opened Options
  import opened Tree
  import opened Addresses

  /** A saved state one level up: that level's unvisited mutable slice, its addresses, and its own parent. */
  datatype MutFrame<T> = MutFrame(children: seq<Node<T>>, addrs: seq<Path>, parent: Option<MutFrame<T>>)

  /** A slice is a view of `root`: sibling `i` is the subtree at `addrs[i]`. */
  ghost predicate SliceOf<T>(root: Node<T>, children: seq<Node<T>>, addrs: seq<Path>)
  {
    && |children| == |addrs|
    && forall i {:trigger NodeAt(root, addrs[i])} :: 0 <= i < |children| ==> NodeAt(root, addrs[i]) == Some(children[i])
  }

  /** Every saved slice is a view of `root`. */
  ghost predicate ChainOf<T>(root: Node<T>, p: Option<MutFrame<T>>)
    decreases p
  {
    match p
    case None => true
    case Some(f) => SliceOf(root, f.children, f.addrs) && ChainOf(root, f.parent)
  }

  /** The addresses of all the saved slices' elements, innermost frame first. */
  function ChainAddrs<T>(p: Option<MutFrame<T>>): seq<Path>
    decreases p
  {
    match p
    case None => []
    case Some(f) => f.addrs + ChainAddrs(f.parent)
  }

  /** The handles the saved frames still owe, innermost frame first. */
  function ChainHandles<T>(p: Option<MutFrame<T>>): seq<Path>
    decreases p
  {
    match p
    case None => []
    case Some(f) => ForestLeafPaths(f.addrs, f.children) + ChainHandles(f.parent)
  }

  /** The items the saved frames still owe, innermost frame first. */
  function ChainTraverse<T>(p: Option<MutFrame<T>>): seq<T>
    decreases p
  {
    match p
    case None => []
    case Some(f) => TraverseForest(f.children) + ChainTraverse(f.parent)
  }

  /** Nodes still held by the saved frames. */
  function ChainSize<T>(p: Option<MutFrame<T>>): nat
    decreases p
  {
    match p
    case None => 0
    case Some(f) => ForestSize(f.children) + ChainSize(f.parent)
  }

  /** Number of saved frames. */
  function ChainDepth<T>(p: Option<MutFrame<T>>): nat
    decreases p
  {
    match p
    case None => 0
    case Some(f) => 1 + ChainDepth(f.parent)
  }

  /** Splitting the first element off a view of `root` leaves a view of `root`, and splits what is owed. */
  lemma SplitSlice<T>(root: Node<T>, slice: seq<Node<T>>, slots: seq<Path>)
    requires SliceOf(root, slice, slots) && slice != []
    ensures SliceOf(root, slice[1..], slots[1..])
    ensures NodeAt(root, slots[0]) == Some(slice[0])
    ensures TraverseForest(slice) == Traverse(slice[0]) + TraverseForest(slice[1..])
    ensures ForestSize(slice) == Size(slice[0]) + ForestSize(slice[1..])
    ensures ForestLeafPaths(slots, slice) == Prefixed(slots[0], LeafPaths(slice[0])) + ForestLeafPaths(slots[1..], slice[1..])
  {
    forall i | 0 <= i < |slice| - 1 ensures NodeAt(root, slots[1..][i]) == Some(slice[1..][i]) {
      assert slots[1..][i] == slots[i + 1] && slice[1..][i] == slice[i + 1];
    }
  }

  /** Handing out the view at `at` leaves the other views disjoint from it and from each other. */
  lemma HandOut(at: Path, live: seq<Path>)
    requires PrefixFree([at] + live)
    ensures PrefixFree(live)
    ensures forall a :: a in live ==> Disjoint(at, a)
  {
    var all := [at] + live;
    assert all[1..] == live;
    PrefixFreeTail(all);
    forall a | a in live ensures Disjoint(at, a) {
      var m :| 0 <= m < |live| && live[m] == a;
      assert all[0] == at && all[m + 1] == a;
    }
  }

  /** The children of the branch at `at` form a view of `root` at the child addresses. */
  lemma DescendSlice<T>(root: Node<T>, at: Path, kids: seq<Node<T>>)
    requires NodeAt(root, at) == Some(Children(kids))
    ensures SliceOf(root, kids, ChildAddrs(at, |kids|))
  {
    forall i | 0 <= i < |kids| ensures NodeAt(root, ChildAddrs(at, |kids|)[i]) == Some(kids[i]) {
      ChildAt(root, at, kids, i);
    }
  }

  /**
   * Yielding the leaf at the front of the current slice: the rest is still a
   * view of `root`, the views stay disjoint, and the yielded handle leads to
   * the leaf's item and overlaps none of the views left.
   */
  lemma LeafViews<T>(root: Node<T>, slice: seq<Node<T>>, slots: seq<Path>, outer: seq<Path>, item: T)
    requires SliceOf(root, slice, slots) && PrefixFree(slots + outer)
    requires slice != [] && slice[0] == Leaf(item)
    ensures SliceOf(root, slice[1..], slots[1..])
    ensures ItemAt(root, slots[0]) == Some(item)
    ensures PrefixFree(slots[1..] + outer)
    ensures forall a :: a in slots[1..] + outer ==> Disjoint(slots[0], a)
  {
    var at, rest := slots[0], slots[1..] + outer;
    assert slots + outer == [at] + rest;
    HandOut(at, rest);
    SplitSlice(root, slice, slots);
  }

  /**
   * Writing through a handle that is disjoint from a slice's addresses leaves
   * that slice a view of the written tree: what the iterator still holds is
   * untouched by a write through what it has handed out.
   */
  lemma WriteKeepsSlice<T>(root: Node<T>, h: Path, v: T, slice: seq<Node<T>>, slots: seq<Path>)
    requires SliceOf(root, slice, slots)
    requires forall a :: a in slots ==> Disjoint(h, a)
    ensures SliceOf(SetItem(root, h, v), slice, slots)
  {
    forall i | 0 <= i < |slice| ensures NodeAt(SetItem(root, h, v), slots[i]) == Some(slice[i]) {
      SetItemElsewhere(root, h, v, slots[i]);
    }
  }

  /** The handles a slice with a leaf in front owes: that leaf's handle first, then the rest's. */
  lemma LeafOwed<T>(slice: seq<Node<T>>, slots: seq<Path>, item: T, tail: seq<Path>)
    requires |slice| == |slots| && slice != [] && slice[0] == Leaf(item)
    ensures ForestLeafPaths(slots, slice) + tail != []
    ensures (ForestLeafPaths(slots, slice) + tail)[0] == slots[0]
    ensures (ForestLeafPaths(slots, slice) + tail)[1..] == ForestLeafPaths(slots[1..], slice[1..]) + tail
  {
    var pre := Prefixed(slots[0], LeafPaths(slice[0]));
    assert pre[0] == slots[0] + [] == slots[0];
    assert pre == [slots[0]];
    assert ForestLeafPaths(slots, slice) == [slots[0]] + ForestLeafPaths(slots[1..], slice[1..]);
    DropFront(slots[0], ForestLeafPaths(slots[1..], slice[1..]), tail);
  }

  /**
   * Descending into the branch at the front of the current slice: its
   * children form a view of `root` at the child addresses, the rest of the
   * slice stays a view, and all the views stay disjoint.
   */
  lemma DescendViews<T>(root: Node<T>, slice: seq<Node<T>>, slots: seq<Path>, outer: seq<Path>, kids: seq<Node<T>>)
    requires SliceOf(root, slice, slots) && PrefixFree(slots + outer)
    requires slice != [] && slice[0] == Children(kids)
    ensures SliceOf(root, kids, ChildAddrs(slots[0], |kids|))
    ensures SliceOf(root, slice[1..], slots[1..])
    ensures PrefixFree(ChildAddrs(slots[0], |kids|) + (slots[1..] + outer))
  {
    var at := slots[0];
    SplitSlice(root, slice, slots);
    DescendSlice(root, at, kids);
    assert slots + outer == [at] + (slots[1..] + outer);
    DescendPrefixFree(at, |kids|, slots[1..] + outer);
  }

  /** The handles owed by the slice, once its front branch is opened into a frame of its own. */
  lemma DescendHandles<T>(slice: seq<Node<T>>, slots: seq<Path>, kids: seq<Node<T>>, tail: seq<Path>)
    requires |slice| == |slots| && slice != [] && slice[0] == Children(kids)
    ensures ForestLeafPaths(slots, slice) + tail
            == ForestLeafPaths(ChildAddrs(slots[0], |kids|), kids) + (ForestLeafPaths(slots[1..], slice[1..]) + tail)
  {
    DescendLeafPaths(slots[0], kids);
    Regroup(ForestLeafPaths(ChildAddrs(slots[0], |kids|), kids), ForestLeafPaths(slots[1..], slice[1..]), tail);
  }

  class NodeIntoIterMut<T> {
    var children: seq<Node<T>>
    var addrs: seq<Path>
    var parent: Option<MutFrame<T>>
    /** The tree borrowed by `iter_mut`, as it was when borrowed. */
    ghost const root: Node<T>

    /** Every view the iterator still holds: the current slice, then the saved ones. */
    ghost function LiveAddrs(): seq<Path>
      reads this
    {
      addrs + ChainAddrs(parent)
    }

    ghost predicate Valid()
      reads this
    {
      && SliceOf(root, children, addrs)
      && ChainOf(root, parent)
      && PrefixFree(LiveAddrs())
    }

    /** The items still to be reached, in order. */
    ghost function Remaining(): seq<T>
      reads this
    {
      TraverseForest(children) + ChainTraverse(parent)
    }

    /** The handles still to be yielded, in order. */
    ghost function Handles(): seq<Path>
      reads this
    {
      ForestLeafPaths(addrs, children) + ChainHandles(parent)
    }

    /** `Node::iter_mut`: one frame whose slice is the root alone, at the empty address. */
    constructor (tree: Node<T>)
      ensures root == tree && Valid()
      ensures children == [tree] && addrs == [[]] && parent == None
      ensures Remaining() == Traverse(tree)
      ensures Handles() == LeafPaths(tree)
    {
      var slice, slots: seq<Path> := [tree], [[]];
      root := tree;
      children, addrs, parent := slice, slots, None;
      SingletonForest(tree);
      forall i | 0 <= i < |LeafPaths(tree)| ensures Prefixed([], LeafPaths(tree))[i] == LeafPaths(tree)[i] {
        assert [] + LeafPaths(tree)[i] == LeafPaths(tree)[i];
      }
      assert slice[1..] == [] && slots[1..] == [];
      assert ForestLeafPaths(slots, slice) == Prefixed([], LeafPaths(tree)) + ForestLeafPaths(slots[1..], slice[1..]);
    }

    /** `Default`: an empty slice and no parent, i.e. an exhausted iterator over nothing. */
    constructor Default()
      ensures Valid()
      ensures children == [] && addrs == [] && parent == None
      ensures Remaining() == [] && Handles() == []
    {
      children, addrs, parent := [], [], None;
    }

    /**
     * Yields the handle of the next leaf of the pre-order, left-to-right walk,
     * or `None` once the walk is over. The handle leads to the item `traverse`
     * would visit next, and it is disjoint from every view the iterator keeps,
     * so the iterator can never reach that item again.
     */
    method Next() returns (r: Option<Path>)
      requires Valid()
      modifies this
      ensures Valid()
      ensures r.None? <==> old(Handles()) == []
      ensures r.Some? ==> r.value == old(Handles())[0] && Handles() == old(Handles())[1..]
      ensures r.None? <==> old(Remaining()) == []
      ensures r.Some? ==> ItemAt(root, r.value) == Some(old(Remaining())[0]) && Remaining() == old(Remaining())[1..]
      ensures r.Some? ==> forall a :: a in LiveAddrs() ==> Disjoint(r.value, a)
      ensures r.None? ==> children == [] && addrs == [] && parent == None
      ensures old(children) == [] && old(parent) == None ==> r == None && unchanged(this)
    {
      ghost var handles, items := Handles(), Remaining();
      while true
        invariant Valid()
        invariant Handles() == handles && Remaining() == items
        invariant old(children) == [] && old(parent) == None ==> unchanged(this)
        decreases ForestSize(children) + ChainSize(parent), ChainDepth(parent)
      {
        // mem::take: the slice moves out of the iterator, and every branch below
        // stores a new one before the iterator is used again
        var slice, slots := children, addrs;
        if slice == [] {
          match parent {
            case None =>
              return None;
            case Some(saved) =>
              ghost var live := LiveAddrs();
              children, addrs, parent := saved.children, saved.addrs, saved.parent;
              assert LiveAddrs() == live;
          }
        } else {
          // split_first_mut
          var first, at := slice[0], slots[0];
          match first
          case Leaf(item) =>
            LeafViews(root, slice, slots, ChainAddrs(parent), item);
            FrontLeaf(slice, item, ChainTraverse(parent));
            LeafOwed(slice, slots, item, ChainHandles(parent));
            children, addrs := slice[1..], slots[1..];
            return Some(at);
          case Children(kids) =>
            DescendViews(root, slice, slots, ChainAddrs(parent), kids);
            FrontBranch(slice, kids, ChainTraverse(parent));
            DescendHandles(slice, slots, kids, ChainHandles(parent));
            // the advanced state moves into the new frame's parent link
            var saved := MutFrame(slice[1..], slots[1..], parent);
            children, addrs, parent := kids, ChildAddrs(at, |kids|), Some(saved);
        }
      }
    }
  }
}
