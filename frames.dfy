/**
 * The parent chain shared by `NodeIter` and `NodeIntoIter`: each saved frame is
 * a whole iterator state one level up, i.e. the siblings that level has not
 * visited yet and that level's own parent link.
 */
module Frames {
  import opened Options
  import opened Tree

  datatype Frame<T> = Frame(children: seq<Node<T>>, parent: Option<Frame<T>>)

  /** The items the saved frames still owe, innermost frame first. */
  function ChainTraverse<T>(p: Option<Frame<T>>): seq<T>
    decreases p
  {
    match p
    case None => []
    case Some(f) => TraverseForest(f.children) + ChainTraverse(f.parent)
  }

  /** Nodes still held by the saved frames. */
  function ChainSize<T>(p: Option<Frame<T>>): nat
    decreases p
  {
    match p
    case None => 0
    case Some(f) => ForestSize(f.children) + ChainSize(f.parent)
  }

  /** Number of saved frames. */
  function ChainDepth<T>(p: Option<Frame<T>>): nat
    decreases p
  {
    match p
    case None => 0
    case Some(f) => 1 + ChainDepth(f.parent)
  }
}
