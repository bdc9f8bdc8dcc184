/**
 * `ft::tree_iterator`: a position in the red-black tree engine, walking the
 * nodes in order through their parent and child links only.
 *
 * An iterator holds the node it points at (`current`, `Null` for the end
 * position) and the root of the tree it belongs to. Its steps are proved
 * against the in-order sequence of the tree's shape: `++` moves to `Next`
 * and `--` to `Prev` of that sequence, where stepping from `Null` enters
 * the tree at its first or last node.
 */
module TreeIterators {
  import opened TreeShape
  import opened TreeNode
  import opened Pairs

  class TreeIterator {
    const store: NodeStore
    var current: Ptr
    var root: Ptr

    /** The iterator points into the tree of shape `s` hanging from `root`. */
    ghost predicate In(s: Shape)
      reads this, store
    {
      && Tree(store.nodes, root, s)
      && (current == Null || current in Ids(s))
      && (current == Null || current in Seq(s))
    }

    /** `tree_iterator(node, root)`. */
    constructor(store: NodeStore, node: Ptr, root: Ptr)
      ensures this.store == store && current == node && this.root == root
    {
      this.store := store;
      current := node;
      this.root := root;
    }

    /** `tree_iterator(node)`: the root is found by climbing parent links
        from `node`; a null node gives a null root. */
    constructor AtNode(store: NodeStore, node: Ptr, ghost top: Ptr, ghost s: Shape)
      requires Tree(store.nodes, top, s) && (node == Null || node in Ids(s))
      ensures this.store == store && current == node
      ensures root == if node == Null then Null else top
    {
      var n := node;
      if n != Null {
        NodeLinks(store.nodes, top, s, n);
      }
      while n != Null && store.nodes[n].parent != Null
        invariant n == Null <==> node == Null
        invariant n != Null ==> n in Ids(s) && n in store.nodes
        decreases if n == Null then 0 else Depth(s, n)
      {
        NodeLinks(store.nodes, top, s, n);
        n := store.nodes[n].parent;
        NodeLinks(store.nodes, top, s, n);
      }
      if n != Null {
        NodeLinks(store.nodes, top, s, n);
      }
      this.store := store;
      current := node;
      root := n;
    }

    /** `operator*`: the value of the node pointed at. */
    function Get(): (v: Pair)
      reads this, store
      requires current in store.nodes
      ensures v == store.nodes[current].value
    {
      store.nodes[current].value
    }

    /** `operator==` / `operator!=`: iterators are equal when they point at
        the same node. */
    function Same(other: TreeIterator): (b: bool)
      reads this, other
      ensures b <==> other.current == current
      ensures this == other ==> b
    {
      current == other.current
    }

    /** The `while (current->dirs[dir]) current = current->dirs[dir]` walk:
        down to the extreme node of the subtree on side `dir`. */
    method Slide(dir: int, ghost s: Shape)
      requires In(s) && current != Null && (dir == 0 || dir == 1)
      modifies this
      ensures root == old(root) && In(s) && current != Null
      ensures Sub(s, old(current)).Branch? && current == Edge(Seq(Sub(s, old(current))), dir)
    {
      ghost var start := current;
      ChildLink(store.nodes, root, s, current, dir);
      EdgeOf(Sub(s, start), dir);
      while Child(store.nodes[current], dir) != Null
        invariant In(s) && root == old(root)
        invariant current in Ids(s) && Sub(s, current).Branch?
        invariant Edge(Seq(Sub(s, current)), dir) == Edge(Seq(Sub(s, start)), dir)
        invariant current in store.nodes
        decreases Size(Sub(s, current))
      {
        ChildLink(store.nodes, root, s, current, dir);
        EdgeOf(Sub(s, current), dir);
        current := Child(store.nodes[current], dir);
        ChildLink(store.nodes, root, s, current, dir);
        SeqFacts(s);
      }
      ChildLink(store.nodes, root, s, current, dir);
      EdgeOf(Sub(s, current), dir);
      SeqFacts(s);
    }

    /** `_go(forward)`: one step along the in-order sequence from a node. */
    method Go(forward: bool, ghost s: Shape)
      requires In(s) && current != Null
      modifies this
      ensures root == old(root) && In(s)
      ensures current == Step(Seq(s), old(current), forward)
    {
      var dir := if forward then 1 else 0;
      ghost var x := current;
      ChildLink(store.nodes, root, s, x, dir);
      if Child(store.nodes[current], dir) != Null {
        StepDown(s, x, dir);
        current := Child(store.nodes[current], dir);
        SeqFacts(s);
        Slide(1 - dir, s);
        return;
      }
      EdgeOf(Sub(s, x), dir);
      DirInTree(store.nodes, root, s, current);
      while GetDir(store.nodes, current) == dir
        invariant Tree(store.nodes, root, s) && root == old(root)
        invariant current in Ids(s) && Sub(s, current).Branch? && ParentKnown(store.nodes, current)
        invariant x == Edge(Seq(Sub(s, current)), dir)
        decreases Depth(s, current)
      {
        ClimbStep(s, current, dir);
        current := store.nodes[current].parent;
        DirInTree(store.nodes, root, s, current);
      }
      ClimbEnd(s, current, x, dir);
      current := store.nodes[current].parent;
      SeqFacts(s);
    }

    /** One round of the climb in `_go`: `x` stays the extreme node of the
        subtree of the parent. */
    lemma {:induction false} ClimbStep(s: Shape, c: Ptr, dir: int)
      requires Tree(store.nodes, root, s) && c in Ids(s) && (dir == 0 || dir == 1)
      requires ParentKnown(store.nodes, c) && GetDir(store.nodes, c) == dir
      ensures var p := store.nodes[c].parent;
        && p in Ids(s) && Sub(s, p).Branch? && Sub(s, c).Branch?
        && Edge(Seq(Sub(s, p)), dir) == Edge(Seq(Sub(s, c)), dir)
        && Depth(s, p) < Depth(s, c)
    {
      DirInTree(store.nodes, root, s, c);
      NodeLinks(store.nodes, root, s, c);
      var p := store.nodes[c].parent;
      UpFacts(s, c);
      SubFacts(s, p);
      SubFacts(s, c);
      EdgeOf(Sub(s, p), dir);
    }

    /** Where the climb in `_go` stops, the parent is the next node, or
        `Null` past the extreme node of the whole tree. */
    lemma {:induction false} ClimbEnd(s: Shape, c: Ptr, x: Ptr, dir: int)
      requires Tree(store.nodes, root, s) && c in Ids(s) && (dir == 0 || dir == 1)
      requires ParentKnown(store.nodes, c) && GetDir(store.nodes, c) != dir
      requires Sub(s, c).Branch? && x == Edge(Seq(Sub(s, c)), dir)
      ensures x in Seq(s) && Step(Seq(s), x, dir == 1) == store.nodes[c].parent
      ensures store.nodes[c].parent == Null || store.nodes[c].parent in Ids(s)
    {
      DirInTree(store.nodes, root, s, c);
      NodeLinks(store.nodes, root, s, c);
      SubFacts(s, c);
      if c == root {
        StepOffEnd(s, x, dir);
      } else {
        StepUp(s, c, x, dir);
      }
    }

    /** `operator++()`: nothing on an empty tree; from the end position to
        the first node; otherwise to the in-order successor. */
    method Increment(ghost s: Shape)
      requires In(s)
      modifies this
      ensures root == old(root) && In(s)
      ensures current == Next(Seq(s), old(current))
    {
      if root == Null {
        EmptyTree(s);
        return;
      }
      if current == Null {
        current := root;
        Slide(0, s);
        FirstLast(s);
        return;
      }
      Go(true, s);
    }

    /** `operator--()`: the mirror image of `operator++()`. */
    method Decrement(ghost s: Shape)
      requires In(s)
      modifies this
      ensures root == old(root) && In(s)
      ensures current == Prev(Seq(s), old(current))
    {
      if root == Null {
        EmptyTree(s);
        return;
      }
      if current == Null {
        current := root;
        Slide(1, s);
        FirstLast(s);
        return;
      }
      Go(false, s);
    }

    /** `operator++(int)`: steps like `operator++()` and returns an iterator
        at the old node, found anew by climbing to the root; from the end
        position it returns the advanced iterator itself. */
    method PostIncrement(ghost s: Shape) returns (it: TreeIterator)
      requires In(s)
      modifies this
      ensures root == old(root) && In(s)
      ensures current == Next(Seq(s), old(current))
      ensures fresh(it) && it.store == store
      ensures it.current == (if old(current) == Null then current else old(current))
      ensures it.root == (if old(current) == Null && root == Null then Null else root)
    {
      if root == Null {
        EmptyTree(s);
        it := new TreeIterator(store, current, root);
        return;
      }
      it := new TreeIterator.AtNode(store, current, root, s);
      if current == Null {
        current := root;
        Slide(0, s);
        FirstLast(s);
        it := new TreeIterator(store, current, root);
        return;
      }
      Go(true, s);
    }

    /** `operator--(int)`: the mirror image of `operator++(int)`. */
    method PostDecrement(ghost s: Shape) returns (it: TreeIterator)
      requires In(s)
      modifies this
      ensures root == old(root) && In(s)
      ensures current == Prev(Seq(s), old(current))
      ensures fresh(it) && it.store == store
      ensures it.current == (if old(current) == Null then current else old(current))
      ensures it.root == (if old(current) == Null && root == Null then Null else root)
    {
      if root == Null {
        EmptyTree(s);
        it := new TreeIterator(store, current, root);
        return;
      }
      it := new TreeIterator.AtNode(store, current, root, s);
      if current == Null {
        current := root;
        Slide(1, s);
        FirstLast(s);
        it := new TreeIterator(store, current, root);
        return;
      }
      Go(false, s);
    }

    /** A tree with a null root is empty, so the only position is the end. */
    lemma {:induction false} EmptyTree(s: Shape)
      requires In(s) && root == Null
      ensures s == Leaf && current == Null && Seq(s) == []
    {
    }

    /** The extreme nodes of the whole tree are the ends of its sequence. */
    lemma {:induction false} FirstLast(s: Shape)
      requires In(s) && root != Null
      ensures Seq(s) != [] && Sub(s, root) == s
      ensures Next(Seq(s), Null) == Edge(Seq(Sub(s, root)), 0)
      ensures Prev(Seq(s), Null) == Edge(Seq(Sub(s, root)), 1)
    {
      ModelsBasics(store.nodes, root, Null, s);
      SubFacts(s, root);
    }
  }

  /** In a non-empty tree, `++` undoes `--` and `--` undoes `++`, from any
      position including the end. */
  lemma {:induction false} StepRoundTrip(h: Heap, root: Ptr, s: Shape, x: Ptr)
    requires Tree(h, root, s) && root != Null && (x == Null || x in Seq(s))
    ensures Next(Seq(s), x) == Null || Next(Seq(s), x) in Seq(s)
    ensures Prev(Seq(s), x) == Null || Prev(Seq(s), x) in Seq(s)
    ensures Prev(Seq(s), Next(Seq(s), x)) == x
    ensures Next(Seq(s), Prev(Seq(s), x)) == x
  {
    ModelsBasics(h, root, Null, s);
    SeqFacts(s);
    NextPrevRoundTrip(Seq(s), x);
  }
}
