/**
 * The tree container `Node<Item>` and its recursive reference traversal,
 * `Node::traverse`, which the three iterators must agree with.
 */
module Tree {

  /** A leaf holding one item, or a branch holding an ordered, possibly empty, list of subtrees. */
  datatype Node<T> = Leaf(item: T) | Children(kids: seq<Node<T>>)

  /**
   * The items on which `traverse` calls its callback, in call order:
   * a leaf passes its own item, a branch recurses into each child in turn.
   * The callback runs at most once per node, and never for a branch itself.
   */
  function Traverse<T>(n: Node<T>): (t: seq<T>)
    ensures |t| <= Size(n)
    ensures n.Children? ==> |t| < Size(n)
    decreases n, 1
  {
    match n
    case Leaf(item) => [item]
    case Children(kids) => TraverseForest(kids)
  }

  /** The `for node in children` loop of `traverse`: each sibling's traversal, left to right. */
  function TraverseForest<T>(s: seq<Node<T>>): (t: seq<T>)
    ensures |t| <= ForestSize(s)
    decreases s, 0
  {
    if s == [] then [] else Traverse(s[0]) + TraverseForest(s[1..])
  }

  /** Number of nodes (leaves and branches) in a tree. */
  function Size<T>(n: Node<T>): nat
    decreases n, 1
  {
    match n
    case Leaf(_) => 1
    case Children(kids) => 1 + ForestSize(kids)
  }

  /** Number of nodes in a list of sibling trees. */
  function ForestSize<T>(s: seq<Node<T>>): nat
    decreases s, 0
  {
    if s == [] then 0 else Size(s[0]) + ForestSize(s[1..])
  }

  /** Traversing two runs of siblings one after the other visits the first run's items, then the second's. */
  lemma {:induction false} TraverseForestAppend<T>(a: seq<Node<T>>, b: seq<Node<T>>)
    ensures TraverseForest(a + b) == TraverseForest(a) + TraverseForest(b)
    decreases |a|
  {
    if a == [] {
      assert a + b == b;
    } else {
      assert (a + b)[0] == a[0];
      assert (a + b)[1..] == a[1..] + b;
      TraverseForestAppend(a[1..], b);
    }
  }

  /** An empty branch contributes no items and does not cut short the siblings after it. */
  lemma EmptyBranchContributesNothing<T>(before: seq<Node<T>>, after: seq<Node<T>>)
    ensures TraverseForest(before + [Children([])] + after) == TraverseForest(before + after)
  {
    TraverseForestAppend(before + [Children([])], after);
    TraverseForestAppend(before, [Children([])]);
    TraverseForestAppend(before, after);
  }

  /** A one-element list of siblings traverses exactly like its only tree. */
  lemma SingletonForest<T>(n: Node<T>)
    ensures TraverseForest([n]) == Traverse(n)
  {
    assert [n][1..] == [];
  }

  /**
   * One step of an iterator over a run of siblings `s`, followed by what the
   * saved frames still owe: with a leaf in front, that leaf's item comes
   * first and the rest of the run follows, and one node fewer is left.
   */
  lemma FrontLeaf<T>(s: seq<Node<T>>, item: T, owed: seq<T>)
    requires s != [] && s[0] == Leaf(item)
    ensures TraverseForest(s) + owed != []
    ensures (TraverseForest(s) + owed)[0] == item
    ensures (TraverseForest(s) + owed)[1..] == TraverseForest(s[1..]) + owed
    ensures ForestSize(s[1..]) < ForestSize(s)
  {
    DropFront(item, TraverseForest(s[1..]), owed);
  }

  /**
   * With a branch in front, its children's items come first, then the rest of
   * the run, then what the saved frames owe; and the branch node itself is gone.
   */
  lemma FrontBranch<T>(s: seq<Node<T>>, kids: seq<Node<T>>, owed: seq<T>)
    requires s != [] && s[0] == Children(kids)
    ensures TraverseForest(s) + owed == TraverseForest(kids) + (TraverseForest(s[1..]) + owed)
    ensures ForestSize(s) == 1 + ForestSize(kids) + ForestSize(s[1..])
  {
    Regroup(TraverseForest(kids), TraverseForest(s[1..]), owed);
  }

  /** The head and tail of a sequence with one element in front. */
  lemma DropFront<X>(x: X, rest: seq<X>, tail: seq<X>)
    ensures ([x] + rest) + tail != []
    ensures (([x] + rest) + tail)[0] == x
    ensures (([x] + rest) + tail)[1..] == rest + tail
  {
    assert ([x] + rest) + tail == [x] + (rest + tail);
  }

  /** Concatenation regrouped. */
  lemma Regroup<X>(front: seq<X>, rest: seq<X>, tail: seq<X>)
    ensures (front + rest) + tail == front + (rest + tail)
  {
  }
}
