/**
 * Addresses of nodes inside a tree. A `&mut` handle yielded by the mutable
 * iterator is modelled as the address of the leaf it points to, so that
 * aliasing questions become questions about addresses: two handles alias
 * exactly when their addresses are equal, and a view over a subtree
 * overlaps a handle exactly when one address is a prefix of the other.
 */
module Addresses {
  import opened Options
  import opened Tree

  /** The child index taken at each level, from the root down. */
  type Path = seq<nat>

  /** The subtree at address `p`, if `p` leads to one. */
  function NodeAt<T>(n: Node<T>, p: Path): Option<Node<T>>
    decreases p
  {
    if p == [] then Some(n)
    else match n
      case Leaf(_) => None
      case Children(kids) => if p[0] < |kids| then NodeAt(kids[p[0]], p[1..]) else None
  }

  /** The item of the leaf at address `p`, if `p` leads to a leaf. */
  function ItemAt<T>(n: Node<T>, p: Path): Option<T>
  {
    match NodeAt(n, p)
    case Some(Leaf(x)) => Some(x)
    case _ => None
  }

  /** The tree after writing `v` through the handle `p`; if `p` addresses no leaf, nothing changes. */
  function SetItem<T>(n: Node<T>, p: Path, v: T): Node<T>
    decreases p
  {
    if p == [] then (if n.Leaf? then Leaf(v) else n)
    else match n
      case Leaf(_) => n
      case Children(kids) =>
        if p[0] < |kids| then Children(kids[p[0] := SetItem(kids[p[0]], p[1..], v)]) else n
  }

  /** The tree with `f` applied to every item and its shape kept. */
  function MapLeaves<T, U>(n: Node<T>, f: T -> U): Node<U>
    decreases n
  {
    match n
    case Leaf(x) => Leaf(f(x))
    case Children(kids) => Children(seq(|kids|, i requires 0 <= i < |kids| => MapLeaves(kids[i], f)))
  }

  /** The shape of a tree: its branching structure with every item forgotten. */
  function Shape<T>(n: Node<T>): Node<()>
    decreases n
  {
    match n
    case Leaf(_) => Leaf(())
    case Children(kids) => Children(seq(|kids|, i requires 0 <= i < |kids| => Shape(kids[i])))
  }

  /** Each address of `ps` extended below `q`. */
  function Prefixed(q: Path, ps: seq<Path>): (r: seq<Path>)
    ensures |r| == |ps|
    ensures forall i :: 0 <= i < |ps| ==> r[i] == q + ps[i]
  {
    seq(|ps|, i requires 0 <= i < |ps| => q + ps[i])
  }

  /** The addresses of the `k` children of the branch at `q`. */
  function ChildAddrs(q: Path, k: nat): (r: seq<Path>)
    ensures |r| == k
    ensures forall i :: 0 <= i < k ==> r[i] == q + [i]
  {
    seq(k, i requires 0 <= i < k => q + [i])
  }

  /** The addresses of the leaves of `n`, left to right. */
  function LeafPaths<T>(n: Node<T>): seq<Path>
    decreases n, 1
  {
    match n
    case Leaf(_) => [[]]
    case Children(kids) => ForestLeafPaths(ChildAddrs([], |kids|), kids)
  }

  /**
   * The addresses of the leaves of the siblings `s`, where sibling `i` sits at
   * `addrs[i]` (siblings without an address contribute nothing).
   */
  function ForestLeafPaths<T>(addrs: seq<Path>, s: seq<Node<T>>): seq<Path>
    decreases s, 0
  {
    if s == [] || addrs == [] then [] else Prefixed(addrs[0], LeafPaths(s[0])) + ForestLeafPaths(addrs[1..], s[1..])
  }

  /** Neither address lies inside the subtree of the other: views through them cannot overlap. */
  predicate Disjoint(p: Path, q: Path)
  {
    !(p <= q) && !(q <= p)
  }

  /** Pairwise disjoint addresses: in particular no address occurs twice. */
  ghost predicate PrefixFree(ps: seq<Path>)
  {
    forall i, j {:trigger Disjoint(ps[i], ps[j])} :: 0 <= i < |ps| && 0 <= j < |ps| && i != j ==> Disjoint(ps[i], ps[j])
  }

  // ---------------------------------------------------------------------------------------------
  // Following addresses

  /** Following `p` and then `q` is following `p + q`. */
  lemma {:induction false} NodeAtAppend<T>(n: Node<T>, p: Path, q: Path)
    requires NodeAt(n, p).Some?
    ensures NodeAt(n, p + q) == NodeAt(NodeAt(n, p).value, q)
    decreases p
  {
    if p == [] {
      assert p + q == q;
    } else {
      assert (p + q)[0] == p[0] && (p + q)[1..] == p[1..] + q;
      NodeAtAppend(n.kids[p[0]], p[1..], q);
    }
  }

  /** The children of the branch at `q` sit at `q + [i]`. */
  lemma ChildAt<T>(n: Node<T>, q: Path, kids: seq<Node<T>>, i: nat)
    requires NodeAt(n, q) == Some(Children(kids)) && i < |kids|
    ensures NodeAt(n, q + [i]) == Some(kids[i])
  {
    NodeAtAppend(n, q, [i]);
  }

  // ---------------------------------------------------------------------------------------------
  // Leaf addresses enumerate the items in traversal order

  /** The leaf addresses of `n` lead, in order, to exactly the items `traverse` visits. */
  lemma {:induction false} LeafPathsItems<T>(n: Node<T>)
    ensures |LeafPaths(n)| == |Traverse(n)|
    ensures forall i :: 0 <= i < |LeafPaths(n)| ==> ItemAt(n, LeafPaths(n)[i]) == Some(Traverse(n)[i])
    decreases n, 1
  {
    match n
    case Leaf(_) =>
    case Children(kids) =>
      var addrs := ChildAddrs([], |kids|);
      forall i | 0 <= i < |kids| ensures NodeAt(n, addrs[i]) == Some(kids[i]) {
        ChildAt(n, [], kids, i);
      }
      ForestLeafPathsItems(n, addrs, kids);
  }

  /** The same for siblings `s` sitting at `addrs` inside `root`. */
  lemma {:induction false} ForestLeafPathsItems<T>(root: Node<T>, addrs: seq<Path>, s: seq<Node<T>>)
    requires |addrs| == |s|
    requires forall i :: 0 <= i < |s| ==> NodeAt(root, addrs[i]) == Some(s[i])
    ensures |ForestLeafPaths(addrs, s)| == |TraverseForest(s)|
    ensures forall i :: 0 <= i < |ForestLeafPaths(addrs, s)| ==>
              ItemAt(root, ForestLeafPaths(addrs, s)[i]) == Some(TraverseForest(s)[i])
    decreases s, 0
  {
    if s != [] {
      var head := LeafPaths(s[0]);
      LeafPathsItems(s[0]);
      ForestLeafPathsItems(root, addrs[1..], s[1..]);
      var ps := ForestLeafPaths(addrs, s);
      var items := TraverseForest(s);
      assert ps == Prefixed(addrs[0], head) + ForestLeafPaths(addrs[1..], s[1..]);
      assert items == Traverse(s[0]) + TraverseForest(s[1..]);
      forall i | 0 <= i < |ps| ensures ItemAt(root, ps[i]) == Some(items[i]) {
        if i < |head| {
          NodeAtAppend(root, addrs[0], head[i]);
        }
      }
    }
  }

  /** Every leaf of `n` has its address in `LeafPaths(n)`, and every listed address leads to a leaf. */
  lemma {:induction false} LeafPathsComplete<T>(n: Node<T>, p: Path)
    ensures p in LeafPaths(n) <==> ItemAt(n, p).Some?
    decreases p
  {
    LeafPathsItems(n);
    if ItemAt(n, p).Some? {
      if p != [] {
        var kids := n.kids;
        LeafPathsComplete(kids[p[0]], p[1..]);
        assert p == ChildAddrs([], |kids|)[p[0]] + p[1..];
        ForestLeafPathsContains(ChildAddrs([], |kids|), kids, p[0], p[1..]);
      }
    }
  }

  /** An address inside sibling `j` appears in the leaf addresses of the siblings. */
  lemma {:induction false} ForestLeafPathsContains<T>(addrs: seq<Path>, s: seq<Node<T>>, j: nat, z: Path)
    requires |addrs| == |s| && j < |s| && z in LeafPaths(s[j])
    ensures addrs[j] + z in ForestLeafPaths(addrs, s)
    decreases j
  {
    var head := Prefixed(addrs[0], LeafPaths(s[0]));
    if j == 0 {
      var k :| 0 <= k < |LeafPaths(s[0])| && LeafPaths(s[0])[k] == z;
      assert head[k] == addrs[0] + z;
    } else {
      ForestLeafPathsContains(addrs[1..], s[1..], j - 1, z);
    }
  }

  // ---------------------------------------------------------------------------------------------
  // Leaf addresses are pairwise disjoint

  /** Extending an address keeps it disjoint from anything its origin was disjoint from. */
  lemma ExtendDisjoint(p: Path, z: Path, q: Path)
    requires Disjoint(p, q)
    ensures Disjoint(p + z, q)
  {
  }

  /** Extending two addresses by the same prefix keeps them disjoint. */
  lemma PrefixedDisjoint(q: Path, x: Path, y: Path)
    requires Disjoint(x, y)
    ensures Disjoint(q + x, q + y)
  {
    PrefixCancel(q, x, y);
    PrefixCancel(q, y, x);
  }

  /** A common prefix does not affect whether one address lies below another. */
  lemma PrefixCancel(q: Path, x: Path, y: Path)
    ensures (q + x <= q + y) == (x <= y)
  {
    if q + x <= q + y {
      assert (q + x)[|q|..] == x;
      assert (q + y)[..|q| + |x|][|q|..] == y[..|x|];
    }
  }

  /** Everything below the addresses `addrs` is disjoint from `r` when the addresses themselves are. */
  lemma {:induction false} ForestLeafPathsAvoid<T>(r: Path, addrs: seq<Path>, s: seq<Node<T>>)
    requires |addrs| == |s|
    requires forall j :: 0 <= j < |addrs| ==> Disjoint(r, addrs[j])
    ensures forall i :: 0 <= i < |ForestLeafPaths(addrs, s)| ==> Disjoint(r, ForestLeafPaths(addrs, s)[i])
    decreases s
  {
    if s != [] {
      var head := LeafPaths(s[0]);
      ForestLeafPathsAvoid(r, addrs[1..], s[1..]);
      var ps := ForestLeafPaths(addrs, s);
      assert ps == Prefixed(addrs[0], head) + ForestLeafPaths(addrs[1..], s[1..]);
      forall i | 0 <= i < |ps| ensures Disjoint(r, ps[i]) {
        if i < |head| {
          ExtendDisjoint(addrs[0], head[i], r);
        }
      }
    }
  }

  /** The leaf addresses of a tree are pairwise disjoint; in particular they are distinct. */
  lemma {:induction false} LeafPathsPrefixFree<T>(n: Node<T>)
    ensures PrefixFree(LeafPaths(n))
    decreases n, 1
  {
    match n
    case Leaf(_) =>
    case Children(kids) =>
      ChildAddrsPrefixFree([], |kids|);
      ForestLeafPathsPrefixFree(ChildAddrs([], |kids|), kids);
  }

  /** The same for siblings at pairwise disjoint addresses. */
  lemma {:induction false} ForestLeafPathsPrefixFree<T>(addrs: seq<Path>, s: seq<Node<T>>)
    requires |addrs| == |s| && PrefixFree(addrs)
    ensures PrefixFree(ForestLeafPaths(addrs, s))
    decreases s, 0
  {
    if s != [] {
      var head := LeafPaths(s[0]);
      var a := Prefixed(addrs[0], head);
      var b := ForestLeafPaths(addrs[1..], s[1..]);
      LeafPathsPrefixFree(s[0]);
      PrefixFreeTail(addrs);
      ForestLeafPathsPrefixFree(addrs[1..], s[1..]);
      forall i, j | 0 <= i < |a| && 0 <= j < |a| && i != j ensures Disjoint(a[i], a[j]) {
        PrefixedDisjoint(addrs[0], head[i], head[j]);
      }
      forall i | 0 <= i < |a| ensures forall k :: 0 <= k < |b| ==> Disjoint(a[i], b[k]) {
        forall j | 0 <= j < |addrs[1..]| ensures Disjoint(a[i], addrs[1..][j]) {
          assert Disjoint(addrs[0], addrs[j + 1]);
          ExtendDisjoint(addrs[0], head[i], addrs[j + 1]);
        }
        ForestLeafPathsAvoid(a[i], addrs[1..], s[1..]);
      }
      ConcatPrefixFree(a, b);
    }
  }

  /** The children of one branch sit at pairwise disjoint addresses. */
  lemma ChildAddrsPrefixFree(q: Path, k: nat)
    ensures PrefixFree(ChildAddrs(q, k))
  {
    var addrs := ChildAddrs(q, k);
    forall i, j | 0 <= i < k && 0 <= j < k && i != j ensures Disjoint(addrs[i], addrs[j]) {
      assert [i][0] != [j][0];
      PrefixedDisjoint(q, [i], [j]);
    }
  }

  /** Dropping the first address keeps a run pairwise disjoint. */
  lemma PrefixFreeTail(ps: seq<Path>)
    requires PrefixFree(ps) && ps != []
    ensures PrefixFree(ps[1..])
  {
    forall i, j | 0 <= i < |ps| - 1 && 0 <= j < |ps| - 1 && i != j ensures Disjoint(ps[1..][i], ps[1..][j]) {
      assert ps[1..][i] == ps[i + 1] && ps[1..][j] == ps[j + 1];
    }
  }

  /**
   * Replacing the view of a branch at `q` by views of its children keeps all
   * views pairwise disjoint: the children lie below `q`, and `q` overlapped
   * none of the other views.
   */
  lemma DescendPrefixFree(q: Path, k: nat, rest: seq<Path>)
    requires PrefixFree([q] + rest)
    ensures PrefixFree(ChildAddrs(q, k) + rest)
  {
    var live := [q] + rest;
    PrefixFreeTail(live);
    assert live[1..] == rest;
    ChildAddrsPrefixFree(q, k);
    forall i, m | 0 <= i < k && 0 <= m < |rest| ensures Disjoint(ChildAddrs(q, k)[i], rest[m]) {
      assert live[0] == q && live[m + 1] == rest[m];
      ExtendDisjoint(q, [i], rest[m]);
    }
    ConcatPrefixFree(ChildAddrs(q, k), rest);
  }

  /** Two pairwise disjoint runs of addresses, disjoint from each other, form one pairwise disjoint run. */
  lemma ConcatPrefixFree(a: seq<Path>, b: seq<Path>)
    requires PrefixFree(a) && PrefixFree(b)
    requires forall i, k :: 0 <= i < |a| && 0 <= k < |b| ==> Disjoint(a[i], b[k])
    ensures PrefixFree(a + b)
  {
    var c := a + b;
    forall i, j | 0 <= i < |c| && 0 <= j < |c| && i != j ensures Disjoint(c[i], c[j]) {
      if i < |a| && j < |a| {
      } else if i >= |a| && j >= |a| {
        assert c[i] == b[i - |a|] && c[j] == b[j - |a|];
      } else if i < |a| {
        assert c[j] == b[j - |a|];
      } else {
        assert c[i] == b[i - |a|];
      }
    }
  }

  /** Extending the leaf addresses of siblings below `q` is the same as moving the siblings below `q`. */
  lemma {:induction false} PrefixedForest<T>(q: Path, addrs: seq<Path>, s: seq<Node<T>>)
    requires |addrs| == |s|
    ensures Prefixed(q, ForestLeafPaths(addrs, s)) == ForestLeafPaths(Prefixed(q, addrs), s)
    decreases s
  {
    if s != [] {
      var head := LeafPaths(s[0]);
      PrefixedForest(q, addrs[1..], s[1..]);
      assert Prefixed(q, addrs)[1..] == Prefixed(q, addrs[1..]);
      var lhs := Prefixed(q, ForestLeafPaths(addrs, s));
      var rhs := ForestLeafPaths(Prefixed(q, addrs), s);
      assert rhs == Prefixed(q + addrs[0], head) + Prefixed(q, ForestLeafPaths(addrs[1..], s[1..]));
      assert ForestLeafPaths(addrs, s) == Prefixed(addrs[0], head) + ForestLeafPaths(addrs[1..], s[1..]);
      assert |lhs| == |rhs|;
      forall i | 0 <= i < |lhs| ensures lhs[i] == rhs[i] {
        if i < |head| {
          assert q + (addrs[0] + head[i]) == (q + addrs[0]) + head[i];
        }
      }
    }
  }

  /** The leaf addresses below the branch at `q` are those of its children at `q + [i]`. */
  lemma DescendLeafPaths<T>(q: Path, kids: seq<Node<T>>)
    ensures Prefixed(q, LeafPaths(Children(kids))) == ForestLeafPaths(ChildAddrs(q, |kids|), kids)
  {
    PrefixedForest(q, ChildAddrs([], |kids|), kids);
    assert Prefixed(q, ChildAddrs([], |kids|)) == ChildAddrs(q, |kids|) by {
      forall i | 0 <= i < |kids| ensures q + ([] + [i]) == q + [i] {
        assert [] + [i] == [i];
      }
    }
  }

  // ---------------------------------------------------------------------------------------------
  // Writing through a handle

  /** Writing through `p` changes the item at `p` only, and only if `p` addresses a leaf. */
  lemma {:induction false} SetItemAt<T>(n: Node<T>, p: Path, v: T, q: Path)
    ensures ItemAt(SetItem(n, p, v), q) == if q == p && ItemAt(n, p).Some? then Some(v) else ItemAt(n, q)
    decreases p
  {
    if p != [] && q != [] && n.Children? && p[0] < |n.kids| && q[0] < |n.kids| {
      var kids := n.kids;
      var kids' := kids[p[0] := SetItem(kids[p[0]], p[1..], v)];
      if q[0] == p[0] {
        SetItemAt(kids[p[0]], p[1..], v, q[1..]);
        assert q == p <==> q[1..] == p[1..] by {
          if q[1..] == p[1..] { assert q == [q[0]] + q[1..] && p == [p[0]] + p[1..]; }
        }
      }
    }
  }

  /** Writing through a handle never changes the shape of the tree. */
  /**
   * Writing through a handle leaves every subtree at a disjoint address as it
   * was: an exclusive `&mut` to one leaf cannot reach what another view holds.
   */
  lemma {:induction false} SetItemElsewhere<T>(n: Node<T>, p: Path, v: T, q: Path)
    requires Disjoint(p, q)
    ensures NodeAt(SetItem(n, p, v), q) == NodeAt(n, q)
    decreases p
  {
    assert p != [] && q != [];
    if n.Children? && p[0] < |n.kids| && p[0] == q[0] {
      assert p == [p[0]] + p[1..] && q == [q[0]] + q[1..];
      assert Disjoint(p[1..], q[1..]);
      SetItemElsewhere(n.kids[p[0]], p[1..], v, q[1..]);
    }
  }

  lemma {:induction false} SetItemShape<T>(n: Node<T>, p: Path, v: T)
    ensures Shape(SetItem(n, p, v)) == Shape(n)
    decreases p
  {
    if p != [] && n.Children? && p[0] < |n.kids| {
      var kids := n.kids;
      var kids' := kids[p[0] := SetItem(kids[p[0]], p[1..], v)];
      SetItemShape(kids[p[0]], p[1..], v);
      assert forall i :: 0 <= i < |kids| ==> Shape(kids'[i]) == Shape(kids[i]);
    }
  }

  /** Mapping the items keeps the shape, and the item at each address is mapped. */
  lemma {:induction false} MapLeavesAt<T, U>(n: Node<T>, f: T -> U, p: Path)
    ensures Shape(MapLeaves(n, f)) == Shape(n)
    ensures ItemAt(MapLeaves(n, f), p) == match ItemAt(n, p) case Some(x) => Some(f(x)) case None => None
    decreases n
  {
    match n
    case Leaf(_) =>
    case Children(kids) =>
      var kids' := MapLeaves(n, f).kids;
      forall i | 0 <= i < |kids| ensures Shape(kids'[i]) == Shape(kids[i]) {
        MapLeavesAt(kids[i], f, []);
      }
      if p != [] && p[0] < |kids| {
        MapLeavesAt(kids[p[0]], f, p[1..]);
      }
  }

  /** Two trees of the same shape with the same item at every address are equal. */
  lemma {:induction false} Extensionality<T>(a: Node<T>, b: Node<T>)
    requires Shape(a) == Shape(b)
    requires forall p :: ItemAt(a, p) == ItemAt(b, p)
    ensures a == b
    decreases a
  {
    match a
    case Leaf(x) =>
      assert ItemAt(a, []) == ItemAt(b, []);
    case Children(ka) =>
      var kb := b.kids;
      assert |ka| == |Shape(a).kids| == |Shape(b).kids| == |kb|;
      forall i | 0 <= i < |ka| ensures ka[i] == kb[i] {
        assert Shape(ka[i]) == Shape(a).kids[i] == Shape(b).kids[i] == Shape(kb[i]);
        forall p ensures ItemAt(ka[i], p) == ItemAt(kb[i], p) {
          var q := [i] + p;
          assert q[0] == i && q[1..] == p;
          assert ItemAt(a, q) == ItemAt(b, q);
        }
        Extensionality(ka[i], kb[i]);
      }
      assert ka == kb;
  }
}
