/**
 * `NodeIntoIter`: the owning iterator returned by `into_iter` on a `Node`.
 * Each level's unvisited siblings are an owned double-ended queue (here a
 * sequence whose front is removed by `pop_front`), so every node the walk
 * passes is removed from the iterator's state as it is reached.
 */
module IntoIter {
  import opened Options
  import opened Tree
  import opened Frames

  class NodeIntoIter<T> {
    var children: seq<Node<T>>
    var parent: Option<Frame<T>>

    /** The items still to be yielded, in order. */
    ghost function Remaining(): seq<T>
      reads this
    {
      TraverseForest(children) + ChainTraverse(parent)
    }

    /** `IntoIterator for Node`: a queue holding only the root, and no parent. */
    constructor (root: Node<T>)
      ensures children == [root] && parent == None
      ensures Remaining() == Traverse(root)
    {
      children := [root];
      parent := None;
      SingletonForest(root);
    }

    /** `Default`: an empty queue and no parent, i.e. an exhausted iterator. */
    constructor Default()
      ensures children == [] && parent == None
      ensures Remaining() == []
    {
      children := [];
      parent := None;
    }

    /**
     * Hands over ownership of the next item of the pre-order, left-to-right
     * walk, or returns `None` once the walk is over; the yielded leaf is no
     * longer held by the iterator.
     */
    method Next() returns (r: Option<T>)
      modifies this
      ensures r.None? <==> old(Remaining()) == []
      ensures r.Some? ==> r.value == old(Remaining())[0] && Remaining() == old(Remaining())[1..]
      ensures r.None? ==> children == [] && parent == None
      ensures old(children) == [] && old(parent) == None ==> r == None && unchanged(this)
    {
      while true
        invariant Remaining() == old(Remaining())
        invariant old(children) == [] && old(parent) == None ==> unchanged(this)
        decreases ForestSize(children) + ChainSize(parent), ChainDepth(parent)
      {
        ghost var owed := ChainTraverse(parent);
        ghost var was := children;
        // pop_front
        var front: Option<Node<T>> := None;
        if children != [] {
          front := Some(children[0]);
          children := children[1..];
        }
        match front
        case None =>
          match parent {
            case None =>
              return None;
            case Some(saved) =>
              children, parent := saved.children, saved.parent;
          }
        case Some(Leaf(item)) =>
          FrontLeaf(was, item, owed);
          return Some(item);
        case Some(Children(kids)) =>
          FrontBranch(was, kids, owed);
          var saved := Frame(children, parent);
          children, parent := kids, Some(saved);
      }
    }
  }
}
