/**
 * `NodeIter`: the borrowing iterator returned by `Node::iter`. Its state is a
 * slice cursor over the unvisited siblings of the current level plus a link
 * to the saved state one level up. `Next` runs the four-way state machine of
 * `next`; the source's tail call `self.next()` is the loop's next round.
 */
module Iter {
  import opened Options
  import opened Tree
  import opened Frames

  class NodeIter<T> {
    var children: seq<Node<T>>
    var parent: Option<Frame<T>>

    /** The items still to be yielded, in order. */
    ghost function Remaining(): seq<T>
      reads this
    {
      TraverseForest(children) + ChainTraverse(parent)
    }

    /** `Node::iter`: a single frame holding only the root. */
    constructor (root: Node<T>)
      ensures children == [root] && parent == None
      ensures Remaining() == Traverse(root)
    {
      children := [root];
      parent := None;
      SingletonForest(root);
    }

    /** `Default`: an exhausted iterator. */
    constructor Default()
      ensures children == [] && parent == None
      ensures Remaining() == []
    {
      children := [];
      parent := None;
    }

    /** Yields the next item of the pre-order, left-to-right walk, or `None` once the walk is over. */
    method Next() returns (r: Option<T>)
      modifies this
      ensures r.None? <==> old(Remaining()) == []
      ensures r.Some? ==> r.value == old(Remaining())[0] && Remaining() == old(Remaining())[1..]
      ensures r.None? ==> children == [] && parent == None
      ensures old(children) == [] && old(parent) == None ==> r == None && unchanged(this)
    {
      while true
        invariant Remaining() == old(Remaining())
        invariant old(children) == [] && old(parent) == None ==> unchanged(this)
        decreases ForestSize(children) + ChainSize(parent), ChainDepth(parent)
      {
        if children == [] {
          match parent
          case None =>
            return None;
          case Some(saved) =>
            // continue with the parent frame
            children, parent := saved.children, saved.parent;
        } else {
          var first := children[0];
          ghost var owed, was := ChainTraverse(parent), children;
          children := children[1..];
          match first
          case Leaf(item) =>
            FrontLeaf(was, item, owed);
            return Some(item);
          case Children(kids) =>
            FrontBranch(was, kids, owed);
            // the advanced state moves into the new frame's parent link
            var saved := Frame(children, parent);
            children, parent := kids, Some(saved);
        }
      }
    }
  }
}
