# Tree iterators in Dafny

This project models a small Rust program, `src/main.rs`. The program defines a
tree `Node<Item>`: a node is either a `Leaf` holding one item or `Children`
holding a vector of subtrees. The program gives the tree four ways to visit its
items, all in the same order (pre-order, left to right):

- `Node::traverse` calls a callback on each item recursively.
- `NodeIter`, returned by `iter()` and by `&tree`, yields shared references.
- `NodeIntoIter`, returned by `into_iter()` on an owned tree, yields the items themselves.
- `NodeIntoIterMut`, returned by `iter_mut()` and by `&mut tree`, yields mutable references.

Each iterator keeps two things:

- the unvisited siblings at the current level: a slice, or a `VecDeque` for the owning iterator;
- optionally, its "parent": the iterator's advanced state one level up, moved into a box by `mem::take` (which leaves an empty default behind).

`next` does four things, as follows:

- When the current level is empty, it restores the parent.
- When the front node is a leaf, it yields that leaf.
- When the front node is a branch, it saves the advanced state as the new parent and starts on the branch's children.
- In the first and last cases, it then calls itself again.

The modules:

- `Tree`: the `Node` datatype.
  - `Traverse` is the list of items `traverse` hands to its callback, in order. `TraverseForest` models the `for node in children` loop: the siblings' lists, left to right.
  - `FrontLeaf` and `FrontBranch` state what one step of an iterator does to what is still owed.
  - Lemmas show how that list splits over siblings, and that an empty `Children` adds nothing.
- `Frames`: the saved parent state shared by the two non-mutable iterators, and what the saved frames still owe.
- `Iter`, `IntoIter`: the classes `NodeIter` and `NodeIntoIter`.
  - Their fields `children` and `parent` are the Rust fields; a `seq` models a slice or a `VecDeque`.
  - `Next` is a loop whose next round stands for the tail call `self.next()`.
  - The loop ends because of a lexicographic measure: first the nodes still held by every frame, then the number of frames.
  - `Remaining()` is the ghost list of items still to come. `Next` returns its head and leaves its tail.
- `Addresses` and `IterMut`: a mutable reference into the tree is modelled as the *address* of a leaf, a `Path` of child indices from the root.
  - `NodeIntoIterMut` keeps, beside each slice, the address of every node in it.
  - Its invariant `Valid()` says three things:
    - every slice is a view of the borrowed tree at those addresses;
    - the saved frames are views as well;
    - no address the iterator still holds is a prefix of another, so no two live `&mut` views overlap.
  - `Next` yields a handle leading to exactly the item `traverse` visits next. The handle is disjoint from every view the iterator keeps, so the iterator never reaches that item again.
  - `Handles()` lists the handles still to come; it equals `LeafPaths(root)` at the start.
- `Usage`: the program's tests as methods, collecting loops that also call `next()` once after the end, and `UpdateEach`, the loop `for x in &mut tree { *x = f(*x) }`.

`test_borrowing_mut_node_iter` (lines 247-261) declares its tree `mut`. It then calls `into_iter()`, which consumes the tree. So that test exercises `NodeIntoIter`, not `NodeIntoIterMut`, and `Usage.BorrowingMutNodeIter` models it that way. `Usage.MutHandlesOfTestTree` runs the same tree through `iter_mut`.

## Model

| member | source | states |
|---|---|---|
| Tree.Traverse | src/main.rs:9-20 | the items `traverse` passes to its callback, in call order: a leaf's own item, or each child's items left to right; the callback runs at most once per node and never for a branch itself |
| Tree.TraverseForest | src/main.rs:14-18 | the `for node in children` loop: each sibling's items, left to right; at most one item per node |
| Tree.FrontLeaf | src/main.rs:62-65 | with a leaf in front of the slice, its item is the next one owed and the rest of the slice, then the saved frames, owe the remainder; one node fewer is left |
| Tree.FrontBranch | src/main.rs:66-73 | with a branch in front, its children's items come first, then the rest of the slice's, then the saved frames'; the branch node itself is used up |
| Tree.TraverseForestAppend | src/main.rs:14-18 | visiting a list of siblings one after another gives the concatenation of their item lists, however the list is split |
| Tree.EmptyBranchContributesNothing | src/main.rs:14-18 | an empty `Children` node among siblings contributes no items and does not stop the siblings after it |
| Iter.NodeIter.constructor | src/main.rs:21-26 | `iter` starts with one frame whose slice is the root alone and no parent; what remains is exactly `traverse`'s order |
| Iter.NodeIter.Default | src/main.rs:41-48 | the default iterator has an empty slice, no parent and nothing to yield |
| Iter.NodeIter.Next | src/main.rs:50-77 | yields `None` exactly when nothing remains; otherwise yields the first remaining item and leaves the rest; once empty it stays empty and unchanged (fused); the loop standing for the tail call terminates |
| IntoIter.NodeIntoIter.constructor | src/main.rs:128-141 | `into_iter` starts with a queue holding the root alone and no parent; what remains is exactly `traverse`'s order |
| IntoIter.NodeIntoIter.Default | src/main.rs:95-102 | the default iterator has an empty queue, no parent and nothing to yield |
| IntoIter.NodeIntoIter.Next | src/main.rs:104-126 | after `pop_front`, yields `None` exactly when nothing remains; otherwise yields the first remaining item and leaves the rest; fused; terminates |
| IterMut.NodeIntoIterMut.constructor | src/main.rs:28-33 | `iter_mut` starts with one slice holding the root at the empty address; the state is a valid view of the tree; the handles to come are one per leaf in order and the items to come are `traverse`'s |
| IterMut.NodeIntoIterMut.Default | src/main.rs:148-155 | the default iterator is valid and has nothing to yield |
| IterMut.NodeIntoIterMut.Next | src/main.rs:157-184 | keeps `Valid()`; yields `None` exactly when nothing remains; otherwise yields the next handle, which leads to the next item of `traverse` and is disjoint from every view still held; once empty it stays empty and unchanged (fused); terminates |
| IterMut.LeafViews | src/main.rs:169-172 | `split_first_mut` on a leaf: the handle of the first element leads to its item, the rest stays a view of the tree, and the handle overlaps none of the views left |
| IterMut.DescendViews | src/main.rs:173-177 | descending into a branch: its children are a view at the child addresses, the saved rest stays a view, and all live views stay pairwise disjoint |
| Addresses.LeafPathsItems | src/main.rs:9-20 | there is one leaf address per item `traverse` visits, and the i-th address leads to the i-th item |
| Addresses.LeafPathsComplete | src/main.rs:9-20 | an address is among the leaf addresses exactly when it leads to an item |
| Addresses.LeafPathsPrefixFree | src/main.rs:143-146 | no leaf address is a prefix of another, so the `&mut` items handed out never overlap |
| Addresses.SetItemAt | src/main.rs:157-158 | writing through a handle changes the item at that handle and no other |
| Addresses.SetItemShape | src/main.rs:157-158 | writing through a handle leaves the tree's shape unchanged |
| Addresses.SetItemElsewhere | src/main.rs:143-146 | writing through one address leaves the subtree at every disjoint address exactly as it was |
| IterMut.WriteKeepsSlice | src/main.rs:169-172 | a write through a handed-out item, disjoint from a slice's addresses, leaves that slice a view of the written tree |
| Usage.CollectIter | src/main.rs:81-87 | collecting `&tree` gives exactly `traverse`'s items in order, and a further `next()` gives `None` |
| Usage.CollectOwned | src/main.rs:128-141 | collecting the owned tree gives exactly `traverse`'s items in order, and a further `next()` gives `None` |
| Usage.CollectHandles | src/main.rs:186-193 | collecting `&mut tree` gives one handle per item, the i-th leading to `traverse`'s i-th item, no two overlapping, and a further `next()` gives `None` |
| Usage.TestShapeTraverse | src/main.rs:201-209 | a tree shaped like the tests' tree, with any six items, traverses to those items left to right: the empty branch adds nothing; for the test tree that is 5, 4, 3, 2, 1, 0 |
| Usage.BorrowingIter | src/main.rs:199-213 | `iter` over the test tree collects to 5, 4, 3, 2, 1, 0 |
| Usage.BorrowingForLoop | src/main.rs:215-222 | a `for` loop over `&Leaf(42)` sees 42 once, and the next `next()` gives `None` |
| Usage.BorrowingNodeIter | src/main.rs:223-237 | `into_iter` over the test tree collects to 5, 4, 3, 2, 1, 0 |
| Usage.BorrowingForNodeLoop | src/main.rs:239-246 | a `for` loop over the owned `Leaf(42)` sees 42 once, and the next `next()` gives `None` |
| Usage.BorrowingMutNodeIter | src/main.rs:247-261 | the mutable test tree, consumed by `into_iter`, collects to 5, 4, 3, 2, 1, 0 |
| Usage.ReadThroughHandles | src/main.rs:157-158 | reading through the handles of `iter_mut`, in the order they come, gives exactly `traverse`'s items |
| Usage.MutHandlesOfTestTree | src/main.rs:28-33 | reading through the handles `iter_mut` yields on the test tree gives 5, 4, 3, 2, 1, 0 |
| Usage.BorrowingMutForNodeLoop | src/main.rs:263-270 | a `for` loop over `&mut Leaf(42)` gets one handle, reading it gives 42, and the next `next()` gives `None` |
| Usage.UpdateEach | src/main.rs:186-193 | writing `f` of each item through the handles of `&mut tree` rewrites every leaf exactly once: the result is the tree with `f` applied to each item and the same shape |

## Left out

- `src/self-referential/main.rs` is not part of this model: it is a separate example program, not the tree iterators.
- `main` only prints a greeting.
- Lifetimes, `Box` and the `FusedIterator` marker have no Dafny counterpart. The fused behaviour the marker promises is stated in each `Next` contract instead.
- `IntoIterator for &Node` and `for &mut Node` only forward to `iter` and `iter_mut`; the `Usage` methods use those constructors directly.
- `traverse` takes a callback. The model records the sequence of items the callback receives; the callback's own effects are not modelled.
- The recursive call `self.next()` is modelled as the next round of a loop, so stack depth is not modelled.
- `mem::take` briefly leaves an empty placeholder in the iterator. Every path of `next` overwrites it before the iterator is used again, so the model does not write it.
- A `&mut It` is modelled as the address of the item in the borrowed tree, and the tree as a value. Rust's exclusive borrow becomes the proved fact that no two live addresses overlap. Aliasing through raw memory is not modelled.
- The `VecDeque` of `NodeIntoIter` is modelled as a sequence; `with_capacity` and buffer growth are not modelled.
