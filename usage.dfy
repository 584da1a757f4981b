/**
 * Clients of the three iterators, as the program's own tests use them: a
 * `collect()` loop per iterator, the `for` loops over a single leaf, and the
 * six-leaf tree whose walk is 5, 4, 3, 2, 1, 0. `UpdateEach` is the loop
 * `for x in &mut tree { *x = f(*x) }`, writing through the handles the
 * mutable iterator hands out.
 */
module Usage {
  import opened Options
  import opened Tree
  import opened Addresses
  import opened Iter
  import opened IntoIter
  import opened IterMut

  /**
   * `tree.iter().collect()`, followed by one more `next()`: the items come out
   * in the order `traverse` visits them, and the drained iterator stays drained.
   */
  method CollectIter<T>(tree: Node<T>) returns (items: seq<T>, after: Option<T>)
    ensures items == Traverse(tree)
    ensures after == None
  {
    var it := new NodeIter(tree);
    items := [];
    while true
      invariant items + it.Remaining() == Traverse(tree)
      decreases |it.Remaining()|
    {
      ghost var rest := it.Remaining();
      var r := it.Next();
      match r
      case None =>
        after := it.Next();
        return;
      case Some(x) =>
        MoveFront(items, rest, Traverse(tree));
        items := items + [x];
    }
  }

  /** `tree.into_iter().collect()`, then one more `next()`: the same order, and fused. */
  method CollectOwned<T>(tree: Node<T>) returns (items: seq<T>, after: Option<T>)
    ensures items == Traverse(tree)
    ensures after == None
  {
    var it := new NodeIntoIter(tree);
    items := [];
    while true
      invariant items + it.Remaining() == Traverse(tree)
      decreases |it.Remaining()|
    {
      ghost var rest := it.Remaining();
      var r := it.Next();
      match r
      case None =>
        after := it.Next();
        return;
      case Some(x) =>
        MoveFront(items, rest, Traverse(tree));
        items := items + [x];
    }
  }

  /**
   * `tree.iter_mut().collect()`, then one more `next()`: one handle per leaf,
   * leading to the items in the order `traverse` visits them, no two handles
   * overlapping, and the drained iterator stays drained.
   */
  method CollectHandles<T>(tree: Node<T>) returns (handles: seq<Path>, after: Option<Path>)
    ensures |handles| == |Traverse(tree)|
    ensures forall i :: 0 <= i < |handles| ==> ItemAt(tree, handles[i]) == Some(Traverse(tree)[i])
    ensures PrefixFree(handles)
    ensures after == None
  {
    var it := new NodeIntoIterMut(tree);
    handles := [];
    while true
      invariant it.Valid() && it.root == tree
      invariant handles + it.Handles() == LeafPaths(tree)
      decreases |it.Handles()|
    {
      ghost var rest := it.Handles();
      var r := it.Next();
      match r
      case None =>
        after := it.Next();
        assert handles == LeafPaths(tree);
        LeafPathsItems(tree);
        LeafPathsPrefixFree(tree);
        return;
      case Some(h) =>
        MoveFront(handles, rest, LeafPaths(tree));
        handles := handles + [h];
    }
  }

  /** Moving the front of what is still owed onto what has been collected keeps the total. */
  lemma MoveFront<X>(got: seq<X>, rest: seq<X>, whole: seq<X>)
    requires got + rest == whole && rest != []
    ensures (got + [rest[0]]) + rest[1..] == whole
  {
    assert rest == [rest[0]] + rest[1..];
    assert (got + [rest[0]]) + rest[1..] == got + ([rest[0]] + rest[1..]);
  }

  /**
   * The shape of the program's test tree, with its six leaves holding
   * `a` to `f` from left to right and an empty branch after the fourth.
   */
  function TestShape<T>(a: T, b: T, c: T, d: T, e: T, f: T): Node<T>
  {
    Children([
      Leaf(a),
      Leaf(b),
      Children([Leaf(c), Leaf(d), Children([])]),
      Children([Children([Children([Leaf(e)]), Leaf(f)])])
    ])
  }

  /** The tree of the program's tests. */
  function TestTree(): Node<int>
  {
    TestShape(5, 4, 3, 2, 1, 0)
  }

  /** Two siblings traverse as the first, then the second. */
  lemma TraverseTwo<T>(a: Node<T>, b: Node<T>)
    ensures TraverseForest([a, b]) == Traverse(a) + Traverse(b)
  {
    assert [a, b][1..] == [b];
    SingletonForest(b);
  }

  /** Three or more siblings traverse as the first, then the others. */
  lemma TraverseCons<T>(a: Node<T>, rest: seq<Node<T>>)
    ensures TraverseForest([a] + rest) == Traverse(a) + TraverseForest(rest)
  {
    assert ([a] + rest)[1..] == rest;
  }

  /** The test shape's third child visits its two leaves; the empty branch after them adds nothing. */
  lemma ThirdChildTraverse<T>(c: T, d: T)
    ensures Traverse(Children([Leaf(c), Leaf(d), Children([])])) == [c, d]
  {
    var empty: Node<T> := Children([]);
    TraverseCons(Leaf(c), [Leaf(d), empty]);
    assert [Leaf(c)] + [Leaf(d), empty] == [Leaf(c), Leaf(d), empty];
    TraverseTwo(Leaf(d), empty);
  }

  /** The test shape's fourth child, three levels deep, visits `e` and then `f`. */
  lemma FourthChildTraverse<T>(e: T, f: T)
    ensures Traverse(Children([Children([Children([Leaf(e)]), Leaf(f)])])) == [e, f]
  {
    var inner := Children([Children([Leaf(e)]), Leaf(f)]);
    SingletonForest(Leaf(e));
    TraverseTwo(Children([Leaf(e)]), Leaf(f));
    SingletonForest(inner);
  }

  /** Two leaves followed by two subtrees visit the leaves' items, then each subtree's. */
  lemma TopTraverse<T>(a: T, b: T, third: Node<T>, fourth: Node<T>)
    ensures TraverseForest([Leaf(a), Leaf(b), third, fourth]) == [a, b] + Traverse(third) + Traverse(fourth)
  {
    assert [Leaf(a), Leaf(b), third, fourth] == [Leaf(a)] + ([Leaf(b)] + [third, fourth]);
    TraverseCons(Leaf(a), [Leaf(b)] + [third, fourth]);
    TraverseCons(Leaf(b), [third, fourth]);
    TraverseTwo(third, fourth);
  }

  /** The walk of the test shape visits its six leaves left to right. */
  lemma TestShapeTraverse<T>(a: T, b: T, c: T, d: T, e: T, f: T)
    ensures Traverse(TestShape(a, b, c, d, e, f)) == [a, b, c, d, e, f]
  {
    ThirdChildTraverse(c, d);
    FourthChildTraverse(e, f);
    TopTraverse(a, b, Children([Leaf(c), Leaf(d), Children([])]), Children([Children([Children([Leaf(e)]), Leaf(f)])]));
  }

  /** `test_borrowing_iter`: borrowing the test tree yields 5, 4, 3, 2, 1, 0. */
  method BorrowingIter() returns (nums: seq<int>)
    ensures nums == [5, 4, 3, 2, 1, 0]
  {
    var after;
    nums, after := CollectIter(TestTree());
    TestShapeTraverse(5, 4, 3, 2, 1, 0);
  }

  /** `test_borrowing_node_iter`: consuming the test tree yields 5, 4, 3, 2, 1, 0. */
  method BorrowingNodeIter() returns (nums: seq<int>)
    ensures nums == [5, 4, 3, 2, 1, 0]
  {
    var after;
    nums, after := CollectOwned(TestTree());
    TestShapeTraverse(5, 4, 3, 2, 1, 0);
  }

  /**
   * `test_borrowing_mut_node_iter`: the tree is declared mutable, but
   * `into_iter()` on it consumes it, so this is `NodeIntoIter` again.
   */
  method BorrowingMutNodeIter() returns (nums: seq<int>)
    ensures nums == [5, 4, 3, 2, 1, 0]
  {
    var after;
    nums, after := CollectOwned(TestTree());
    TestShapeTraverse(5, 4, 3, 2, 1, 0);
  }

  /**
   * Collecting `iter_mut` and then reading through every handle, in order:
   * the items `traverse` visits.
   */
  method ReadThroughHandles<T>(tree: Node<T>) returns (items: seq<T>)
    ensures items == Traverse(tree)
  {
    var handles, after := CollectHandles(tree);
    items := [];
    for k := 0 to |handles|
      invariant items == Traverse(tree)[..k]
    {
      items := items + [ItemAt(tree, handles[k]).value];
    }
  }

  /** The test tree through `iter_mut`: reading through the handles gives 5, 4, 3, 2, 1, 0. */
  method MutHandlesOfTestTree() returns (nums: seq<int>)
    ensures nums == [5, 4, 3, 2, 1, 0]
  {
    nums := ReadThroughHandles(TestTree());
    TestShapeTraverse(5, 4, 3, 2, 1, 0);
  }

  /** `test_borrowing_for_loop`: a leaf root yields its one item, and then the loop ends. */
  method BorrowingForLoop() returns (seen: seq<int>, after: Option<int>)
    ensures seen == [42]
    ensures after == None
  {
    var it := new NodeIter(Leaf(42));
    var first := it.Next();
    after := it.Next();
    seen := [first.value];
  }

  /** `test_borrowing_for_node_loop`: consuming a leaf root yields its one item, and then the loop ends. */
  method BorrowingForNodeLoop() returns (seen: seq<int>, after: Option<int>)
    ensures seen == [42]
    ensures after == None
  {
    var it := new NodeIntoIter(Leaf(42));
    var first := it.Next();
    after := it.Next();
    seen := [first.value];
  }

  /** `test_borrowing_mut_for_node_loop`: the one handle of a leaf root leads to its item, and then the loop ends. */
  method BorrowingMutForNodeLoop() returns (seen: seq<int>, after: Option<Path>)
    ensures seen == [42]
    ensures after == None
  {
    var tree := Leaf(42);
    var it := new NodeIntoIterMut(tree);
    var first := it.Next();
    after := it.Next();
    seen := [ItemAt(tree, first.value).value];
  }

  /**
   * `for x in &mut tree { *x = f(*x) }`: every leaf is rewritten exactly once
   * through its handle, so the result is the tree with `f` applied to every
   * item and its shape unchanged.
   */
  method UpdateEach<T>(tree: Node<T>, f: T -> T) returns (t: Node<T>)
    ensures t == MapLeaves(tree, f)
  {
    var it := new NodeIntoIterMut(tree);
    t := tree;
    ghost var done: seq<Path> := [];
    LeafPathsPrefixFree(tree);
    while true
      invariant it.Valid() && it.root == tree
      invariant done + it.Handles() == LeafPaths(tree)
      invariant Shape(t) == Shape(tree)
      invariant forall p :: ItemAt(t, p) == if p in done then ItemAt(MapLeaves(tree, f), p) else ItemAt(tree, p)
      decreases |it.Handles()|
    {
      ghost var rest := it.Handles();
      var r := it.Next();
      match r
      case None =>
        UpdatedAll(tree, f, t);
        return;
      case Some(h) =>
        FreshHandle(LeafPaths(tree), done, rest);
        MoveFront(done, rest, LeafPaths(tree));
        var v := f(ItemAt(t, h).value);
        UpdateOne(tree, f, t, done, h, v);
        t := SetItem(t, h, v);
        done := done + [h];
    }
  }

  /** A handle the mutable iterator yields has not been yielded before. */
  lemma FreshHandle(all: seq<Path>, done: seq<Path>, rest: seq<Path>)
    requires PrefixFree(all) && done + rest == all && rest != []
    ensures rest[0] !in done
  {
    assert all[|done|] == rest[0];
    forall i | 0 <= i < |done| ensures done[i] != rest[0] {
      assert all[i] == done[i];
      assert Disjoint(all[i], all[|done|]);
    }
  }

  /** Writing `f` of the old item through a fresh handle extends the rewritten part by that handle. */
  lemma UpdateOne<T>(tree: Node<T>, f: T -> T, t: Node<T>, done: seq<Path>, h: Path, v: T)
    requires Shape(t) == Shape(tree)
    requires forall p :: ItemAt(t, p) == if p in done then ItemAt(MapLeaves(tree, f), p) else ItemAt(tree, p)
    requires h !in done && ItemAt(tree, h).Some? && v == f(ItemAt(tree, h).value)
    ensures Shape(SetItem(t, h, v)) == Shape(tree)
    ensures forall p :: ItemAt(SetItem(t, h, v), p) == if p in done + [h] then ItemAt(MapLeaves(tree, f), p) else ItemAt(tree, p)
  {
    SetItemShape(t, h, v);
    forall p ensures ItemAt(SetItem(t, h, v), p) == if p in done + [h] then ItemAt(MapLeaves(tree, f), p) else ItemAt(tree, p) {
      SetItemAt(t, h, v, p);
      MapLeavesAt(tree, f, p);
    }
  }

  /** Once every leaf's handle has been written through, the tree is `tree` with `f` mapped over it. */
  lemma UpdatedAll<T>(tree: Node<T>, f: T -> T, t: Node<T>)
    requires Shape(t) == Shape(tree)
    requires forall p :: ItemAt(t, p) == if p in LeafPaths(tree) then ItemAt(MapLeaves(tree, f), p) else ItemAt(tree, p)
    ensures t == MapLeaves(tree, f)
  {
    forall p ensures ItemAt(t, p) == ItemAt(MapLeaves(tree, f), p) {
      LeafPathsComplete(tree, p);
      MapLeavesAt(tree, f, p);
    }
    MapLeavesAt(tree, f, []);
    Extensionality(t, MapLeaves(tree, f));
  }
}
