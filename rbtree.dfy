/**
 * `ft::RedBlackTree` (RBTree.hpp): the tree engine behind `ft::map`.
 *
 * The nodes live in a `NodeStore` arena; `root` and `size` are the
 * source's fields. The ghost `shape` is the tree the records form, and the
 * tree's contents are the values along its in-order sequence. The
 * comparator is `Comp`, on keys.
 *
 * As written, `insert` never calls `_insertionRebalance`, so the colour
 * rules are not maintained; `erase` then ends in `_checkTree`'s
 * `logic_error`, which the model reports as the `LogicError` outcome.
 */
module RBTree {
  import opened Pairs
  import opened TreeShape
  import opened TreeNode
  import opened TreeOrder
  import opened TreeColour
  import opened TreeIterators
  import opened TreeRebalance
  import opened TreeEdit
  import opened TreeSearch

  /** How `erase` ends: normally, with the `logic_error` of `_checkTree`,
      or in undefined behaviour when `_deletionRebalance` reads through a
      null sibling. */
  datatype EraseOutcome = Normal | LogicError | Undefined

  class RedBlackTree {
    const store: NodeStore
    var root: Ptr
    var size: nat
    ghost var shape: Shape

    /** The records form the tree `shape` and the arena holds exactly its
        nodes; `root` may lag behind during `erase`. */
    ghost predicate Formed()
      reads this, store
    {
      store.Valid() && Tree(store.nodes, Root(shape), shape) && store.nodes.Keys == Ids(shape)
    }

    /** Formed, with `root` at the root. */
    ghost predicate Linked()
      reads this, store
    {
      Formed() && root == Root(shape)
    }

    ghost predicate Valid()
      reads this, store
    {
      Linked() && size == Size(shape)
    }

    /** Every node is red, as every node `insert` makes is. */
    ghost predicate AllRed()
      reads this, store
    {
      AllRedHeap(store.nodes)
    }

    /** `node` is the root and lacks a child: `_deleteNode` would store
        through its null parent. */
    ghost predicate RootLacksChild(node: Ptr)
      reads this, store
    {
      node == root && node in store.nodes && (store.nodes[node].left == Null || store.nodes[node].right == Null)
    }

    /** The values in iteration order. */
    ghost function Contents(): seq<Pair>
      reads this, store
    {
      Entries(store.nodes, Seq(shape))
    }

    /** The tree grew from the records `h` of shape `s` by the new node
        `node` holding `val`. */
    ghost predicate Added(h: Heap, s: Shape, node: Ptr, val: Pair)
      reads this, store
    {
      Grown(h, s, store.nodes, shape, node, val)
    }

    /** `RedBlackTree()`: empty. */
    constructor()
      ensures Valid() && fresh(store) && root == Null && size == 0 && shape == Leaf && AllRed()
    {
      store := new NodeStore();
      root := Null;
      size := 0;
      shape := Leaf;
    }

    // -------------------------------------------------------------------
    // Finding a place: `_findPlaceForInsert`
    // -------------------------------------------------------------------

    /** The loop of `_findPlaceForInsert` (lines 273-285), from `start`. */
    method Descend(val: Pair, start: Ptr) returns (r: Ptr)
      requires Linked() && (start == Null || start in Ids(shape))
      ensures r == Land(store.nodes, if start == Null then Leaf else Sub(shape, start), val.first)
    {
      ghost var goal := Land(store.nodes, if start == Null then Leaf else Sub(shape, start), val.first);
      var crsr := start;
      while crsr != Null
        invariant crsr == Null ==> goal == Null
        invariant crsr != Null ==> crsr in Ids(shape) && Land(store.nodes, Sub(shape, crsr), val.first) == goal
        decreases if crsr == Null then 0 else Size(Sub(shape, crsr))
      {
        LandStep(store.nodes, root, shape, crsr, val.first);
        if store.nodes[crsr].left != Null && Comp(val, store.nodes[crsr].value) {
          crsr := store.nodes[crsr].left;
        } else if store.nodes[crsr].right != Null && Comp(store.nodes[crsr].value, val) {
          crsr := store.nodes[crsr].right;
        } else {
          break;
        }
      }
      r := crsr;
    }

    /** `_findPlaceForInsert(val, hint)`: the hint is given up, and the
        search restarts from the root, when `val` is less than the hint's
        value or its parent's value is less than `val`. */
    method FindPlaceForInsert(val: Pair, hint: Ptr) returns (r: Ptr)
      requires Linked() && (hint == Null || hint in Ids(shape))
      ensures r == PlaceFor(store.nodes, shape, val, hint)
      decreases if hint == Null then 0 else 1
    {
      var start := hint;
      if hint != Null && hint != root {
        NodeLinks(store.nodes, root, shape, hint);
        if Comp(val, store.nodes[hint].value) {
          r := FindPlaceForInsert(val, Null);
          return;
        }
        if Comp(store.nodes[store.nodes[hint].parent].value, val) {
          r := FindPlaceForInsert(val, Null);
          return;
        }
      } else if hint == Null {
        start := root;
      }
      LandFrom(store.nodes, root, shape, start, val.first);
      r := Descend(val, start);
    }

    /** `_findPlaceForInsert` with the parent test it needs: the hint is
        also given up when `val` is not less than its parent's value. */
    method FindPlaceForInsertIntended(val: Pair, hint: Ptr) returns (r: Ptr)
      requires Linked() && (hint == Null || hint in Ids(shape))
      ensures r == PlaceForIntended(store.nodes, shape, val, hint)
      ensures Ordered(store.nodes, shape) && r != Null ==>
        r in Seq(shape) && r in store.nodes && Landed(store.nodes, Seq(shape), r, val.first)
    {
      if Ordered(store.nodes, shape) {
        PlaceIntendedLanded(store.nodes, root, shape, val, hint);
      }
      var start := hint;
      if hint != Null && hint != root {
        NodeLinks(store.nodes, root, shape, hint);
        if Comp(val, store.nodes[hint].value) || !Comp(val, store.nodes[store.nodes[hint].parent].value) {
          r := FindPlaceForInsert(val, Null);
          return;
        }
      } else if hint == Null {
        start := root;
      }
      LandFrom(store.nodes, root, shape, start, val.first);
      r := Descend(val, start);
    }

    // -------------------------------------------------------------------
    // Insertion
    // -------------------------------------------------------------------

    /** Lines 306-320 of `insert`, from the place found: a new red leaf in
        the free slot on the side of `val`, or the root of an empty tree;
        nothing when the place already holds an equivalent value. */
    method Place(val: Pair, parent: Ptr) returns (node: Ptr, inserted: bool)
      requires Valid() && (parent == Null <==> root == Null)
      requires parent != Null ==>
        && parent in Ids(shape) && parent in store.nodes
        && (Comp(val, store.nodes[parent].value) ==> store.nodes[parent].left == Null)
        && (Comp(store.nodes[parent].value, val) ==> store.nodes[parent].right == Null)
      modifies this, store
      ensures Valid()
      ensures inserted ==> size == old(size) + 1 && Added(old(store.nodes), old(shape), node, val)
      ensures !inserted ==> node == parent && parent != Null && Key(store.nodes, node) == val.first
      ensures !inserted ==> store.nodes == old(store.nodes) && shape == old(shape) && root == old(root) && size == old(size)
      ensures
        (old(Ordered(store.nodes, shape))
         && (parent != Null ==> parent in old(Seq(shape)) && old(Landed(store.nodes, Seq(shape), parent, val.first))))
        ==>
        && Ordered(store.nodes, shape)
        && (inserted <==> old(KeyAbsent(Contents(), val.first)))
        && (inserted ==> Contents() == SortedInsert(old(Contents()), val))
    {
      if parent == Null {
        node := PlaceRoot(val);
        return node, true;
      }
      SeqFacts(shape);
      if Comp(val, store.nodes[parent].value) {
        node := PlaceChild(val, parent, 0);
      } else if Comp(store.nodes[parent].value, val) {
        node := PlaceChild(val, parent, 1);
      } else {
        assert Contents()[IndexOf(Seq(shape), parent)].first == val.first;
        return parent, false;
      }
      inserted := true;
    }

    /** The new node as the root of an empty tree. */
    method PlaceRoot(val: Pair) returns (node: Ptr)
      requires Valid() && root == Null
      modifies this, store
      ensures Valid()
      ensures size == old(size) + 1 && Added(old(store.nodes), old(shape), node, val)
      ensures Ordered(store.nodes, shape) && old(KeyAbsent(Contents(), val.first))
      ensures Contents() == SortedInsert(old(Contents()), val)
    {
      ModelsBasics(store.nodes, root, Null, shape);
      ghost var h := store.nodes;
      assert shape == Leaf;
      node := store.Allocate(NewNode(val, Null, true));
      RootGrows(h, node, val);
      root := node;
      shape := Branch(Leaf, node, Leaf);
      size := size + 1;
    }

    /** The new node in the free slot `dir` of `parent`. */
    method PlaceChild(val: Pair, parent: Ptr, dir: int) returns (node: Ptr)
      requires Valid() && parent in Ids(shape) && parent in Seq(shape) && parent in store.nodes
      requires (dir == 0 || dir == 1) && Child(store.nodes[parent], dir) == Null
      modifies this, store
      ensures Valid()
      ensures size == old(size) + 1 && Added(old(store.nodes), old(shape), node, val)
      ensures
        (old(Ordered(store.nodes, shape)) && old(Landed(store.nodes, Seq(shape), parent, val.first))
         && old(Key(store.nodes, parent)) != val.first
         && dir == (if val.first < old(Key(store.nodes, parent)) then 0 else 1))
        ==>
        && Ordered(store.nodes, shape) && old(KeyAbsent(Contents(), val.first))
        && Contents() == SortedInsert(old(Contents()), val)
    {
      ghost var h, s := store.nodes, shape;
      node := AttachLeaf(val, parent, dir);
      ChildPlaced(h, root, s, parent, dir, node, val);
      assert Tree(store.nodes, root, shape);
      assert store.nodes.Keys == Ids(shape);
      assert size == Size(shape);
    }

    /** Lines 313-317 of `insert`: a new red node holding `val` hangs in
        the free slot `dir` of `parent`. */
    method AttachLeaf(val: Pair, parent: Ptr, dir: int) returns (node: Ptr)
      requires store.Valid() && parent in store.nodes && (dir == 0 || dir == 1)
      modifies this, store
      ensures store.Valid() && node != Null && node !in old(store.nodes)
      ensures store.nodes == AttachedHeap(old(store.nodes), parent, dir, node, val)
      ensures shape == Attach(old(shape), parent, dir, node)
      ensures root == old(root) && size == old(size) + 1
    {
      ghost var h := store.nodes;
      node := store.Allocate(NewNode(val, parent, true));
      store.nodes := store.nodes[parent := WithChild(store.nodes[parent], dir, node)];
      assert store.nodes == AttachedHeap(h, parent, dir, node, val);
      shape := Attach(shape, parent, dir, node);
      size := size + 1;
    }

    /** `insert(val, hint)`: as written, with the hint test of
        `_findPlaceForInsert`. Without a hint it inserts a new key at its
        sorted place and finds an existing one. */
    method Insert(val: Pair, hint: Ptr) returns (node: Ptr, inserted: bool)
      requires Valid() && (hint == Null || hint in Ids(shape))
      modifies this, store
      ensures Valid() && (old(AllRed()) ==> AllRed())
      ensures inserted ==> size == old(size) + 1 && Added(old(store.nodes), old(shape), node, val)
      ensures !inserted ==> node in Ids(shape) && Key(store.nodes, node) == val.first
      ensures !inserted ==> store.nodes == old(store.nodes) && shape == old(shape) && root == old(root) && size == old(size)
      ensures hint == Null && old(Ordered(store.nodes, shape)) ==>
        && Ordered(store.nodes, shape)
        && (inserted <==> old(KeyAbsent(Contents(), val.first)))
        && (inserted ==> Contents() == SortedInsert(old(Contents()), val))
    {
      var parent := FindPlaceForInsert(val, hint);
      PlaceStops(store.nodes, root, shape, val, hint, false);
      LandInTree(store.nodes, root, shape, val.first);
      node, inserted := Place(val, parent);
    }

    /** `insert(val, hint)` with the intended hint test: for every hint, a
        new key goes to its sorted place and an existing one is found. */
    method InsertIntended(val: Pair, hint: Ptr) returns (node: Ptr, inserted: bool)
      requires Valid() && (hint == Null || hint in Ids(shape))
      modifies this, store
      ensures Valid() && (old(AllRed()) ==> AllRed())
      ensures inserted ==> size == old(size) + 1 && Added(old(store.nodes), old(shape), node, val)
      ensures !inserted ==> node in Ids(shape) && Key(store.nodes, node) == val.first
      ensures !inserted ==> store.nodes == old(store.nodes) && shape == old(shape) && root == old(root) && size == old(size)
      ensures old(Ordered(store.nodes, shape)) ==>
        && Ordered(store.nodes, shape)
        && (inserted <==> old(KeyAbsent(Contents(), val.first)))
        && (inserted ==> Contents() == SortedInsert(old(Contents()), val))
    {
      var parent := FindPlaceForInsertIntended(val, hint);
      PlaceStops(store.nodes, root, shape, val, hint, true);
      node, inserted := Place(val, parent);
    }

    // -------------------------------------------------------------------
    // Lookup
    // -------------------------------------------------------------------

    /** `_iteratorRoutine(end)`: the leftmost node, or the rightmost one
        when `end` holds; `Null` in an empty tree. */
    method IteratorRoutine(end: bool) returns (r: Ptr)
      requires Linked()
      ensures r == if root == Null then Null else Edge(Seq(shape), if end then 1 else 0)
    {
      var dir := if end then 1 else 0;
      var cursor := root;
      if cursor == Null {
        return Null;
      }
      ModelsBasics(store.nodes, root, Null, shape);
      SubFacts(shape, root);
      while Child(store.nodes[cursor], dir) != Null
        invariant cursor in Ids(shape) && cursor in store.nodes
        invariant Sub(shape, cursor).Branch? && Edge(Seq(Sub(shape, cursor)), dir) == Edge(Seq(shape), dir)
        decreases Size(Sub(shape, cursor))
      {
        ChildLink(store.nodes, root, shape, cursor, dir);
        EdgeOf(Sub(shape, cursor), dir);
        cursor := Child(store.nodes[cursor], dir);
        ChildLink(store.nodes, root, shape, cursor, dir);
      }
      ChildLink(store.nodes, root, shape, cursor, dir);
      EdgeOf(Sub(shape, cursor), dir);
      r := cursor;
    }

    /** `begin()`: the first node in order, `Null` when empty. */
    method Begin() returns (r: Ptr)
      requires Linked()
      ensures r == Next(Seq(shape), Null)
    {
      r := IteratorRoutine(false);
      ModelsBasics(store.nodes, root, Null, shape);
    }

    /** `end()`: one step past the rightmost node, which is always the end
        position `Null`. */
    method End() returns (r: Ptr)
      requires Linked()
      ensures r == Null
    {
      var last := IteratorRoutine(true);
      ModelsBasics(store.nodes, root, Null, shape);
      SeqFacts(shape);
      if last != Null {
        StepOffEnd(shape, last, 1);
      }
      var it := new TreeIterator.AtNode(store, last, root, shape);
      it.Increment(shape);
      r := it.current;
    }

    /** `find(val)`: the node holding the key of `val`, or the end
        position. */
    method Find(val: Pair) returns (r: Ptr)
      requires Linked()
      ensures r == Null || (r in Ids(shape) && Key(store.nodes, r) == val.first)
      ensures Ordered(store.nodes, shape) ==> (r == Null <==> KeyAbsent(Contents(), val.first))
    {
      var founded := FindPlaceForInsert(val, Null);
      LandInTree(store.nodes, root, shape, val.first);
      if Ordered(store.nodes, shape) {
        LandDecides(store.nodes, root, shape, val.first);
      }
      if founded != Null && !Comp(val, store.nodes[founded].value) && !Comp(store.nodes[founded].value, val) {
        return founded;
      }
      r := End();
    }

    /** `lower_bound(key)` as written: the stop node of the descent when it
        holds the key or there is none; otherwise the node after it. */
    method LowerBound(key: Pair) returns (r: Ptr)
      requires Linked()
      ensures var f := Land(store.nodes, shape, key.first);
        && (f == Null || f in Seq(shape))
        && r == if f == Null || Key(store.nodes, f) == key.first then f else Next(Seq(shape), f)
    {
      var founded := FindPlaceForInsert(key, Null);
      LandInTree(store.nodes, root, shape, key.first);
      if founded == Null || (!Comp(store.nodes[founded].value, key) && !Comp(key, store.nodes[founded].value)) {
        return founded;
      }
      r := Step(founded);
    }

    /** `lower_bound(key)` with the intended test: the stop node is kept
        when its key is not less than `key`. In an ordered tree this is the
        first node whose key is not less than `key`. */
    method LowerBoundIntended(key: Pair) returns (r: Ptr)
      requires Linked()
      ensures Ordered(store.nodes, shape) ==> r == FirstAtLeast(store.nodes, Seq(shape), key.first)
      ensures r == Null || r in Seq(shape)
    {
      var founded := FindPlaceForInsert(key, Null);
      LandInTree(store.nodes, root, shape, key.first);
      if Ordered(store.nodes, shape) {
        LowerBoundSpec(store.nodes, root, shape, key.first);
      }
      if founded == Null || !Comp(store.nodes[founded].value, key) {
        return founded;
      }
      r := Step(founded);
    }

    /** `upper_bound(key)` as written, over `lower_bound` as written: one
        step further when the lower bound holds the key. */
    method UpperBound(key: Pair) returns (r: Ptr)
      requires Linked()
      ensures var f := Land(store.nodes, shape, key.first); f == Null || f in Seq(shape)
      ensures var f := Land(store.nodes, shape, key.first);
        var lb := if f == Null || Key(store.nodes, f) == key.first then f else Next(Seq(shape), f);
        r == if lb != Null && Key(store.nodes, lb) == key.first then Next(Seq(shape), lb) else lb
    {
      var it := LowerBound(key);
      var e := End();
      LandInTree(store.nodes, root, shape, key.first);
      SeqFacts(shape);
      if it != e && !Comp(store.nodes[it].value, key) && !Comp(key, store.nodes[it].value) {
        r := Step(it);
        return;
      }
      r := it;
    }

    /** `upper_bound(key)` over the intended `lower_bound`: in an ordered
        tree, the first node whose key is greater than `key`. */
    method UpperBoundIntended(key: Pair) returns (r: Ptr)
      requires Linked()
      ensures Ordered(store.nodes, shape) ==> r == FirstAbove(store.nodes, Seq(shape), key.first)
    {
      var it := LowerBoundIntended(key);
      var e := End();
      ModelsBasics(store.nodes, root, Null, shape);
      SeqFacts(shape);
      if Ordered(store.nodes, shape) {
        UpperBoundSpec(store.nodes, Seq(shape), key.first);
      }
      if it != e {
        NodeLinks(store.nodes, root, shape, it);
      }
      if it != e && !Comp(store.nodes[it].value, key) && !Comp(key, store.nodes[it].value) {
        r := Step(it);
        return;
      }
      r := it;
    }

    /** `++iterator(x)`: an iterator built at a node of the tree, advanced
        once. */
    method Step(x: Ptr) returns (r: Ptr)
      requires Linked() && x in Seq(shape)
      ensures r == Next(Seq(shape), x)
    {
      ModelsBasics(store.nodes, root, Null, shape);
      SeqFacts(shape);
      var it := new TreeIterator.AtNode(store, x, root, shape);
      it.Increment(shape);
      r := it.current;
    }

    // -------------------------------------------------------------------
    // Deletion
    // -------------------------------------------------------------------

    /** `_updateRoot()`: climbs from `root` to the node without a parent. */
    method UpdateRoot()
      requires Formed() && (root == Null ==> shape == Leaf) && (root != Null ==> root in Ids(shape))
      modifies this
      ensures Linked() && shape == old(shape) && size == old(size)
    {
      if root == Null {
        return;
      }
      while store.nodes[root].parent != Null
        invariant Formed() && shape == old(shape) && size == old(size)
        invariant root in Ids(shape) && root in store.nodes
        decreases Depth(shape, root)
      {
        NodeLinks(store.nodes, Root(shape), shape, root);
        root := store.nodes[root].parent;
        NodeLinks(store.nodes, Root(shape), shape, root);
      }
      NodeLinks(store.nodes, Root(shape), shape, root);
    }

    /** `_replaceNode(src, dst)` with a non-null `src`: `src` takes the
        links of `dst`, whose record is then released. */
    method ReplaceNode(src: Ptr, dst: Ptr)
      requires store.Valid() && Stealable(store.nodes, src, dst) && dst in store.nodes
      modifies store
      ensures store.Valid() && store.nodes == StolenHeap(old(store.nodes), src, dst) - {dst}
    {
      store.StealLinks(src, dst);
      store.Deallocate(dst);
    }

    /** `_internalDeletionHandler(node)`: a node with two children swaps
        places with its in-order predecessor `cursor`, which in turn is
        replaced by a fresh black `dummy`; `node` is released and `dummy`,
        now holding at most one child, is returned for deletion. A node
        with at most one child is returned as it is. Either way taking the
        returned node out of the in-order sequence is taking `node` out of
        the old one, and every other node keeps its value. */
    method InternalDeletionHandler(node: Ptr) returns (r: Ptr)
      requires Formed() && node in Ids(shape)
      modifies this, store
      ensures Formed() && root == old(root) && size == old(size)
      ensures node in old(Seq(shape)) && r in Seq(shape) && r in Ids(shape)
      ensures Ids(shape) == old(Ids(shape)) - {node} + {r} && (r == node || r !in old(store.nodes))
      ensures RemoveAt(Seq(shape), IndexOf(Seq(shape), r)) == RemoveAt(old(Seq(shape)), IndexOf(old(Seq(shape)), node))
      ensures ValuesFrom(old(store.nodes), store.nodes, r)
      ensures store.nodes[r].left == Null || store.nodes[r].right == Null
      ensures old(store.nodes[node].left == Null || store.nodes[node].right == Null) ==>
        r == node && store.nodes == old(store.nodes) && shape == old(shape)
      ensures old(store.nodes[node].left != Null && store.nodes[node].right != Null) ==>
        r != node && store.nodes[r].parent != Null
      ensures AllRedHeap(old(store.nodes)) ==> AllRedHeap(store.nodes)
    {
      ghost var h, s := store.nodes, shape;
      NodeLinks(h, Root(s), s, node);
      InSeq(s, node);
      if store.nodes[node].left == Null || store.nodes[node].right == Null {
        return node;
      }
      var cursor := Predecessor(node);
      r := SwapWithPredecessor(node, cursor);
      SwapFacts(h, s, node, cursor, r);
      SwapColours(h, node, cursor, r);
    }

    /** Lines 236-241 of `_internalDeletionHandler`: a fresh `dummy` takes
        the links of the predecessor `cursor`, `cursor` those of `node`, and
        `node` is released. */
    method SwapWithPredecessor(node: Ptr, cursor: Ptr) returns (dummy: Ptr)
      requires Formed() && node in Ids(shape) && cursor in Ids(shape) && cursor in store.nodes
      requires store.nodes[cursor].right == Null && store.nodes[cursor].parent != Null
      requires Depth(shape, cursor) > Depth(shape, node)
      modifies this, store
      ensures root == old(root) && size == old(size) && store.Valid()
      ensures dummy != Null && dummy !in old(store.nodes)
      ensures Swappable(old(store.nodes), node, cursor, dummy)
      ensures store.nodes == SwappedHeap(old(store.nodes), node, cursor, dummy)
      ensures shape == Relabel(Relabel(old(shape), cursor, dummy), node, cursor)
    {
      ghost var h, s := store.nodes, shape;
      dummy := store.Allocate(DefaultNode());
      SwapRecords(h, s, node, cursor, dummy);
      store.StealLinks(dummy, cursor);
      shape := Relabel(s, cursor, dummy);
      ReplaceNode(cursor, node);
      shape := Relabel(shape, node, cursor);
    }

    /** The loop of lines 233-235: from the left child of a node with two
        children, down the right links to the node's in-order predecessor. */
    method Predecessor(node: Ptr) returns (cursor: Ptr)
      requires Formed() && node in Ids(shape) && node in store.nodes
      requires store.nodes[node].left != Null && store.nodes[node].right != Null
      ensures node in Seq(shape) && cursor != Null && cursor == Prev(Seq(shape), node)
      ensures cursor in Ids(shape) && cursor in store.nodes && store.nodes[cursor].right == Null
      ensures store.nodes[cursor].parent != Null && Depth(shape, cursor) > Depth(shape, node)
    {
      ghost var h, s := store.nodes, shape;
      cursor := store.nodes[node].left;
      ChildLink(h, Root(s), s, node, 0);
      NodeLinks(h, Root(s), s, cursor);
      while store.nodes[cursor].right != Null
        invariant cursor in Ids(s) && cursor in h && h[cursor].parent != Null
        invariant Depth(s, cursor) > Depth(s, node)
        invariant Sub(s, cursor).Branch? && Seq(Sub(s, cursor)) != [] && Seq(LeftOf(Sub(s, node))) != []
        invariant Edge(Seq(Sub(s, cursor)), 1) == Edge(Seq(LeftOf(Sub(s, node))), 1)
        decreases Size(Sub(s, cursor))
      {
        ChildLink(h, Root(s), s, cursor, 1);
        EdgeOf(Sub(s, cursor), 1);
        var right := store.nodes[cursor].right;
        NodeLinks(h, Root(s), s, right);
        cursor := right;
      }
      ChildLink(h, Root(s), s, cursor, 1);
      EdgeOf(Sub(s, cursor), 1);
      StepDown(s, node, 0);
    }

    /** `_deleteNode(node)` on a node below the root with at most one
        child: the child, if any, takes its slot and its colour. */
    method DeleteNode(node: Ptr)
      requires Formed() && node in Ids(shape) && node != Root(shape)
      requires node in store.nodes && (store.nodes[node].left == Null || store.nodes[node].right == Null)
      modifies this, store
      ensures Formed() && root == old(root) && size == old(size)
      ensures old(Deletable(store.nodes, node)) && store.nodes == DeletedHeap(old(store.nodes), node)
      ensures shape == Splice(old(shape), node)
      ensures node in old(Seq(shape)) && Seq(shape) == RemoveAt(old(Seq(shape)), IndexOf(old(Seq(shape)), node))
      ensures Ids(shape) == old(Ids(shape)) - {node}
      ensures ValuesFrom(old(store.nodes), store.nodes, node)
      ensures AllRedHeap(old(store.nodes)) ==> AllRedHeap(store.nodes)
    {
      ghost var h, s := store.nodes, shape;
      DeletePreserves(h, Root(s), s, node);
      ChildLink(h, Root(s), s, node, 0);
      ChildLink(h, Root(s), s, node, 1);
      SplicedSequence(s, node);
      var child := GetChild(store.nodes[node]);
      var p := store.nodes[node].parent;
      var dir := GetDir(store.nodes, node);
      store.nodes := store.nodes[p := WithChild(store.nodes[p], dir, child)];
      if child != Null {
        store.nodes := store.nodes[child := store.nodes[child].(parent := p, red := store.nodes[node].red)];
      }
      assert store.nodes == LinkedOut(h, node);
      store.Deallocate(node);
      shape := Splice(s, node);
      NodeLinks(h, Root(s), s, node);
      DeletedColours(h, node);
    }

    /** `erase(node)`. When `node` is the root, `root` first moves to one
        of its children; then the node is handed to
        `_internalDeletionHandler`, a black leaf gets `_deletionRebalance`,
        and the node handed back is deleted. After `_updateRoot`, the
        colour check decides: `Normal` when the colour rules hold, and
        `LogicError` (with `size` not decremented) when they do not. When
        the rebalance meets a null sibling the behaviour is `Undefined`.
        Otherwise the node's entry is gone and every other entry stays, in
        order. Erasing the root while it has fewer than two children is
        `Undefined` too: `_deleteNode` then stores through a null parent. */
    method Erase(node: Ptr) returns (outcome: EraseOutcome)
      requires Valid() && node in Ids(shape)
      modifies this, store
      ensures outcome != Undefined ==>
        && Linked() && node in old(Seq(shape))
        && Seq(shape) == RemoveAt(old(Seq(shape)), IndexOf(old(Seq(shape)), node))
        && Contents() == RemoveAt(old(Contents()), IndexOf(old(Seq(shape)), node))
        && Ids(shape) == old(Ids(shape)) - {node}
      ensures outcome == Normal <==> outcome != Undefined && RedBlack(store.nodes, shape)
      ensures outcome == Normal ==> Valid() && size == old(size) - 1
      ensures outcome == LogicError ==> size == old(size)
      ensures old(RootLacksChild(node)) ==> outcome == Undefined
      ensures old(AllRed()) ==>
        && (outcome == Undefined <==> old(RootLacksChild(node)))
        && (outcome != Undefined ==> AllRed() && (outcome == Normal <==> old(size) <= 2))
    {
      NodeLinks(store.nodes, root, shape, node);
      if node == root {
        root := store.nodes[node].left;
        if store.nodes[node].left == Null {
          root := store.nodes[node].right;
        }
      }
      assert root == Null || (root in Ids(shape) && root != node);
      var defined := Remove(node);
      if !defined {
        return Undefined;
      }
      UpdateRoot();
      if old(AllRed()) {
        AllRedVerdict(store.nodes, shape);
      }
      var ok := CheckTree();
      if !ok {
        return LogicError;
      }
      size := size - 1;
      outcome := Normal;
    }

    /** Lines 396-403 of `erase`: `_internalDeletionHandler`, the rebalance
        of a black leaf, and `_deleteNode`. Unless the rebalance is
        undefined, the entry of `node` leaves the in-order sequence and
        every other entry stays. */
    method Remove(node: Ptr) returns (defined: bool)
      requires Formed() && node in Ids(shape)
      modifies this, store
      ensures root == old(root) && size == old(size)
      ensures old(node == Root(shape) && (store.nodes[node].left == Null || store.nodes[node].right == Null)) ==>
        !defined
      ensures AllRedHeap(old(store.nodes)) ==>
        && (defined <==> !old(node == Root(shape) && (store.nodes[node].left == Null || store.nodes[node].right == Null)))
        && (defined ==> AllRedHeap(store.nodes))
      ensures defined ==>
        && Formed() && node in old(Seq(shape))
        && Seq(shape) == RemoveAt(old(Seq(shape)), IndexOf(old(Seq(shape)), node))
        && Contents() == RemoveAt(old(Contents()), IndexOf(old(Seq(shape)), node))
        && Ids(shape) == old(Ids(shape)) - {node} && Size(shape) + 1 == old(Size(shape))
    {
      ghost var h0, s0 := store.nodes, shape;
      NodeLinks(h0, Root(s0), s0, node);
      InSeq(s0, node);
      ghost var q0, i0 := Seq(s0), IndexOf(Seq(s0), node);
      var r := InternalDeletionHandler(node);
      ghost var h1, s1 := store.nodes, shape;
      var child := GetChild(store.nodes[r]);
      if !store.nodes[r].red && child == Null {
        NodeLinks(store.nodes, Root(shape), shape, r);
        var ok, s' := DeletionRebalance(store, r, shape);
        if !ok {
          return false;
        }
        SubFacts(shape, r);
        shape := s';
      }
      ghost var h2, s2 := store.nodes, shape;
      NodeLinks(h2, Root(s2), s2, r);
      if store.nodes[r].parent == Null {
        // `_deleteNode` stores through the null parent of the root
        return false;
      }
      DeleteNode(r);
      ghost var h3, s3 := store.nodes, shape;
      ErasedEntries(h0, h1, h2, h3, q0, i0, Seq(s1), s3, r);
      SeqSize(s0);
      SeqSize(s3);
      defined := true;
    }

    /** `clear()`: releases every node, children first, and leaves the
        tree empty. */
    method Clear()
      requires Valid()
      modifies this, store
      ensures Valid() && root == Null && size == 0 && shape == Leaf && store.nodes == map[] && AllRed()
    {
      if root == Null {
        ModelsBasics(store.nodes, root, Null, shape);
        return;
      }
      ModelsBasics(store.nodes, root, Null, shape);
      ClearFrom(root, shape, Null);
      root := Null;
      size := 0;
      shape := Leaf;
    }

    /** `clear(start)` below the top call: releases the subtree of `start`. */
    method ClearFrom(start: Ptr, ghost t: Shape, ghost par: Ptr)
      requires store.Valid() && Models(store.nodes, start, par, t) && Distinct(t) && start != Null
      modifies store
      ensures store.Valid() && store.nodes == old(store.nodes) - Ids(t)
      decreases t
    {
      ghost var h := store.nodes;
      ModelsBasics(h, start, par, t);
      var left := store.nodes[start].left;
      var right := store.nodes[start].right;
      if left != Null {
        ClearFrom(left, t.left, start);
        ModelsSame(h, store.nodes, right, start, t.right);
      }
      if right != Null {
        ClearFrom(right, t.right, start);
      }
      store.Deallocate(start);
    }

    // -------------------------------------------------------------------
    // The colour check: `_checkBranches` and `_checkTree`
    // -------------------------------------------------------------------

    /** `_checkBranches(start, ref_height, cur_height)`; `false` is the
        `logic_error` it throws. It passes exactly when no red node below
        `start` has a red parent and every path down to a null link meets
        `ref_height - cur_height` black links. */
    method CheckBranches(start: Ptr, refHeight: int, curHeight: int, ghost t: Shape, ghost par: Ptr)
      returns (ok: bool)
      requires store.Valid() && Models(store.nodes, start, par, t) && (par == Null || par in store.nodes)
      ensures ok <==> RedRedFree(store.nodes, t, Red(store.nodes, par)) && Balanced(store.nodes, t)
                      && curHeight + BlackHeight(store.nodes, t) == refHeight
      decreases t
    {
      if start != Null && store.nodes[start].red && store.nodes[start].parent != Null
         && store.nodes[store.nodes[start].parent].red {
        return false;
      }
      var cur := curHeight + if start == Null || !store.nodes[start].red then 1 else 0;
      if start == Null {
        return cur == refHeight;
      }
      ok := CheckBranches(store.nodes[start].left, refHeight, cur, t.left, start);
      if !ok {
        return false;
      }
      ok := CheckBranches(store.nodes[start].right, refHeight, cur, t.right, start);
    }

    /** `_checkTree()`: counts the black links down the leftmost path and
        checks every branch against that count. It passes exactly when the
        tree keeps both colour rules. */
    method CheckTree() returns (ok: bool)
      requires Linked()
      ensures ok <==> RedBlack(store.nodes, shape)
    {
      if root == Null {
        ModelsBasics(store.nodes, root, Null, shape);
        return true;
      }
      var cursor := root;
      var height := 1;
      ghost var t, par := shape, Null;
      while cursor != Null
        invariant Models(store.nodes, cursor, par, t)
        invariant height + BlackHeight(store.nodes, t) == 1 + BlackHeight(store.nodes, shape)
        decreases t
      {
        height := height + if !store.nodes[cursor].red then 1 else 0;
        t, par := t.left, cursor;
        cursor := store.nodes[cursor].left;
      }
      ok := CheckBranches(root, height, 0, shape, Null);
    }
  }

  /** What `_deleteNode(x)` reads: `x`, its parent and its child. */
  ghost predicate Deletable(h: Heap, x: Ptr) {
    x in h && h[x].parent != Null && h[x].parent in h && (GetChild(h[x]) != Null ==> GetChild(h[x]) in h)
  }

  /** Every node of `h'` other than `r` was a node of `h` and holds the
      same value. */
  ghost predicate ValuesFrom(h: Heap, h': Heap, r: Ptr) {
    forall q :: q in h' && q != r ==> q in h && h'[q].value == h[q].value
  }

  /** The in-order sequence around the swap of `_internalDeletionHandler`:
      `cursor` precedes `node`; after `dummy` takes the place of `cursor`
      and `cursor` that of `node`, the sequence reads `dummy, cursor` where
      it read `cursor, node`. */
  lemma {:induction false} SwapSequence(s: Shape, node: Ptr, cursor: Ptr, dummy: Ptr)
    requires Distinct(s) && node != Null && node in Ids(s) && node in Seq(s) && cursor != Null && Prev(Seq(s), node) == cursor
    requires cursor in Ids(s) && dummy != Null && dummy !in Ids(s) && dummy !in Seq(s)
    ensures node in Ids(Relabel(s, cursor, dummy)) && cursor !in Ids(Relabel(s, cursor, dummy))
    ensures Distinct(Relabel(s, cursor, dummy))
    ensures var s2 := Relabel(Relabel(s, cursor, dummy), node, cursor);
      && Distinct(s2) && Ids(s2) == Ids(s) - {node} + {dummy} && dummy in Seq(s2)
      && RemoveAt(Seq(s2), IndexOf(Seq(s2), dummy)) == RemoveAt(Seq(s), IndexOf(Seq(s), node))
  {
    var q0 := Seq(s);
    var k := IndexOf(q0, node);
    assert Prev(q0, node) == if k > 0 then q0[k - 1] else Null;
    var a, b := RelabelFacts(s, cursor, dummy);
    SamePosition(s, a, cursor, b, k - 1);
    var s1 := Relabel(s, cursor, dummy);
    assert Seq(s1)[k] == node;
    var a', b' := RelabelFacts(s1, node, cursor);
    SamePosition(s1, a', node, b', k);
    var s2 := Relabel(s1, node, cursor);
    FinalSeq(q0, Seq(s1), Seq(s2), k, a, b, a', b', cursor, node, dummy);
  }

  /** In a tree, a node's position is that of any split around it. */
  lemma {:induction false} SamePosition(s: Shape, a: seq<Ptr>, x: Ptr, b: seq<Ptr>, j: int)
    requires Distinct(s) && Seq(s) == a + [x] + b && 0 <= j < |Seq(s)| && Seq(s)[j] == x
    ensures |a| == j
  {
    SeqFacts(s);
    assert Seq(s)[|a|] == x;
  }

  /** The position arithmetic of `SwapSequence`. */
  lemma {:induction false} FinalSeq(q0: seq<Ptr>, q1: seq<Ptr>, q2: seq<Ptr>, k: int, a: seq<Ptr>, b: seq<Ptr>,
                 a': seq<Ptr>, b': seq<Ptr>, cursor: Ptr, node: Ptr, dummy: Ptr)
    requires 0 < k < |q0| && q0[k] == node && dummy !in q0
    requires q0 == a + [cursor] + b && q1 == a + [dummy] + b && |a| == k - 1
    requires q1 == a' + [node] + b' && q2 == a' + [cursor] + b' && |a'| == k
    ensures dummy in q2 && IndexOf(q2, dummy) == k - 1
    ensures RemoveAt(q2, k - 1) == RemoveAt(q0, k)
  {
    assert q1[k - 1] == dummy && q2[k - 1] == q1[k - 1];
    assert q2[..k - 1] == a'[..k - 1] == q1[..k - 1];
    assert q1[..k - 1] == a == q0[..k - 1];
    var r2, r0 := RemoveAt(q2, k - 1), RemoveAt(q0, k);
    forall j | 0 <= j < |r0| ensures r2[j] == r0[j] {
      if j >= k {
        assert r2[j] == q1[j + 1];
      }
    }
  }

  /** The records after a fresh default `dummy` steals the links of
      `cursor`, `cursor` those of `node`, and `node` is released. */
  ghost function SwappedHeap(h: Heap, node: Ptr, cursor: Ptr, dummy: Ptr): Heap
    requires Swappable(h, node, cursor, dummy)
  {
    StolenHeap(StolenHeap(h[dummy := DefaultNode()], dummy, cursor), cursor, node) - {node}
  }

  /** After the swap `dummy` has the colour of `cursor`, `cursor` that of
      `node`, and every other node its own. */
  lemma {:induction false} SwapColours(h: Heap, node: Ptr, cursor: Ptr, dummy: Ptr)
    requires Swappable(h, node, cursor, dummy) && node in h && cursor in h && dummy !in h
    ensures var h2 := SwappedHeap(h, node, cursor, dummy);
      && (dummy in h2 ==> h2[dummy].red == h[cursor].red)
      && (cursor in h2 ==> h2[cursor].red == h[node].red)
      && (forall q :: q in h2 && q != dummy && q != cursor ==> q in h && h2[q].red == h[q].red)
  {
    var h0 := h[dummy := DefaultNode()];
    StolenColours(h0, dummy, cursor);
    StolenColours(StolenHeap(h0, dummy, cursor), cursor, node);
  }

  ghost predicate Swappable(h: Heap, node: Ptr, cursor: Ptr, dummy: Ptr) {
    && Stealable(h[dummy := DefaultNode()], dummy, cursor)
    && Stealable(StolenHeap(h[dummy := DefaultNode()], dummy, cursor), cursor, node)
  }

  /** What `_internalDeletionHandler` promises of a node with two children,
      stated on the records and shape of the tree before and after. */
  lemma {:induction false} SwapFacts(h: Heap, s: Shape, node: Ptr, cursor: Ptr, dummy: Ptr)
    requires Tree(h, Root(s), s) && h.Keys == Ids(s) && node in Ids(s) && node in h
    requires h[node].left != Null && h[node].right != Null
    requires node in Seq(s) && cursor != Null && cursor == Prev(Seq(s), node)
    requires cursor in Ids(s) && cursor in h && h[cursor].right == Null && h[cursor].parent != Null
    requires Depth(s, cursor) > Depth(s, node)
    requires dummy != Null && dummy !in h
    ensures Swappable(h, node, cursor, dummy)
    ensures var h2, s2 := SwappedHeap(h, node, cursor, dummy), Relabel(Relabel(s, cursor, dummy), node, cursor);
      && Tree(h2, Root(s2), s2) && h2.Keys == Ids(s2)
      && dummy in Seq(s2) && dummy in Ids(s2) && Ids(s2) == Ids(s) - {node} + {dummy}
      && RemoveAt(Seq(s2), IndexOf(Seq(s2), dummy)) == RemoveAt(Seq(s), IndexOf(Seq(s), node))
      && ValuesFrom(h, h2, dummy)
      && h2[dummy].right == Null && h2[dummy].parent != Null
  {
    SwapRecords(h, s, node, cursor, dummy);
    NodeLinks(h, Root(s), s, node);
    InSeq(s, dummy);
    SwapSequence(s, node, cursor, dummy);
  }

  /** The records after `dummy->stealLinks(cursor)`, `cursor->stealLinks(node)`
      and the release of `node`, when `cursor` is a node without right child
      deeper than `node`: a tree with `dummy` in place of `cursor` and
      `cursor` in place of `node`, where `dummy` has a parent and no right
      child, and every old node keeps its value. */
  lemma {:induction false} SwapRecords(h: Heap, s: Shape, node: Ptr, cursor: Ptr, dummy: Ptr)
    requires Tree(h, Root(s), s) && node in Ids(s) && cursor in Ids(s) && cursor in h
    requires h[cursor].right == Null && h[cursor].parent != Null && Depth(s, cursor) > Depth(s, node)
    requires dummy != Null && dummy !in h
    ensures Swappable(h, node, cursor, dummy)
    ensures var h2 := SwappedHeap(h, node, cursor, dummy);
      var s2 := Relabel(Relabel(s, cursor, dummy), node, cursor);
      && Tree(h2, Root(s2), s2) && h2.Keys == h.Keys - {node} + {dummy}
      && h2[dummy].right == Null && h2[dummy].parent != Null
      && ValuesFrom(h, h2, dummy)
  {
    NodeLinks(h, Root(s), s, node);
    FirstSteal(h, s, node, cursor, dummy);
    var h1 := StolenHeap(h[dummy := DefaultNode()], dummy, cursor);
    SecondSteal(h1, Relabel(s, cursor, dummy), node, cursor, dummy);
    ValuesCompose(h, h1, StolenHeap(h1, cursor, node) - {node}, dummy);
  }

  lemma {:induction false} ValuesCompose(h: Heap, h1: Heap, h2: Heap, r: Ptr)
    requires ValuesFrom(h, h1, r) && ValuesFrom(h1, h2, r)
    ensures ValuesFrom(h, h2, r)
  {
  }

  /** `dummy->stealLinks(cursor)` on a fresh `dummy`. */
  lemma {:induction false} FirstSteal(h: Heap, s: Shape, node: Ptr, cursor: Ptr, dummy: Ptr)
    requires Tree(h, Root(s), s) && node in Ids(s) && cursor in Ids(s) && cursor in h
    requires h[cursor].right == Null && h[cursor].parent != Null && Depth(s, cursor) > Depth(s, node)
    requires dummy != Null && dummy !in h
    ensures Stealable(h[dummy := DefaultNode()], dummy, cursor)
    ensures var h1, s1 := StolenHeap(h[dummy := DefaultNode()], dummy, cursor), Relabel(s, cursor, dummy);
      && Tree(h1, Root(s1), s1) && h1.Keys == h.Keys + {dummy}
      && node in Ids(s1) && dummy in Ids(s1) && cursor !in Ids(s1) && cursor in h1 && node != dummy
      && h1[dummy].right == Null && h1[dummy].parent != Null
      && node in h && node in h1 && h1[node].parent == h[node].parent
      && ValuesFrom(h, h1, dummy)
  {
    var root := Root(s);
    NodeLinks(h, root, s, node);
    NodeLinks(h, root, s, cursor);
    var h0 := h[dummy := DefaultNode()];
    Unlinked(h, h0, root, s);
    StealPreserves(h0, root, s, dummy, cursor);
    StealLinksDetail(h0, root, s, dummy, cursor);
    var a, b := RelabelFacts(s, cursor, dummy);
  }

  /** `cursor->stealLinks(node)` and the release of `node`, when `node`
      does not hang from `dummy`. */
  lemma {:induction false} SecondSteal(h1: Heap, s1: Shape, node: Ptr, cursor: Ptr, dummy: Ptr)
    requires Tree(h1, Root(s1), s1) && node in Ids(s1) && dummy in Ids(s1) && node != dummy
    requires cursor != Null && cursor in h1 && cursor !in Ids(s1)
    requires dummy in h1 && h1[dummy].right == Null && h1[dummy].parent != Null
    requires node in h1 && h1[node].parent != dummy
    ensures Stealable(h1, cursor, node)
    ensures var h2, s2 := StolenHeap(h1, cursor, node) - {node}, Relabel(s1, node, cursor);
      && Tree(h2, Root(s2), s2) && h2.Keys == h1.Keys - {node}
      && h2[dummy].right == Null && h2[dummy].parent != Null
      && ValuesFrom(h1, h2, dummy)
  {
    NodeLinks(h1, Root(s1), s1, dummy);
    StealPreserves(h1, Root(s1), s1, cursor, node);
    StealLinksDetail(h1, Root(s1), s1, cursor, node);
    var h2 := StolenHeap(h1, cursor, node);
    var s2 := Relabel(s1, node, cursor);
    var a, b := RelabelFacts(s1, node, cursor);
    Unlinked(h2, h2 - {node}, Root(s2), s2);
  }

  /** A node with at most one child cut out of the in-order sequence. */
  lemma {:induction false} SplicedSequence(s: Shape, x: Ptr)
    requires Distinct(s) && x in Ids(s) && (LeftOf(Sub(s, x)).Leaf? || RightOf(Sub(s, x)).Leaf?)
    ensures x in Seq(s) && Seq(Splice(s, x)) == RemoveAt(Seq(s), IndexOf(Seq(s), x))
    ensures Ids(Splice(s, x)) == Ids(s) - {x}
  {
    var a, b := SpliceFacts(s, x);
    SeqFacts(s);
    IndexOfSplit(a, x, b);
    RemoveSplit(a, x, b);
  }

  /** The entries left by `erase`: the sequence lost the erased position,
      and every node still in it holds the value it held before. */
  lemma {:induction false} ErasedEntries(h0: Heap, h1: Heap, h2: Heap, h3: Heap, q0: seq<Ptr>, i0: int,
                      q1: seq<Ptr>, s3: Shape, r: Ptr)
    requires 0 <= i0 < |q0| && r in q1 && RemoveAt(q1, IndexOf(q1, r)) == RemoveAt(q0, i0)
    requires Seq(s3) == RemoveAt(q1, IndexOf(q1, r))
    requires ValuesFrom(h0, h1, r) && SameValues(h1, h2) && ValuesFrom(h2, h3, r)
    requires Ids(s3) <= h3.Keys && r !in Ids(s3)
    ensures Seq(s3) == RemoveAt(q0, i0)
    ensures Entries(h3, Seq(s3)) == RemoveAt(Entries(h0, q0), i0)
  {
    var q3 := Seq(s3);
    SeqFacts(s3);
    forall i | 0 <= i < |q3| ensures Value(h3, q3[i]) == Value(h0, q3[i]) {
      assert q3[i] in q3;
    }
    EntriesSame(h0, h3, q3);
    EntriesRemove(h0, h0, q0, i0);
  }

  /** The records `h'` of shape `s'` are those of `h` and `s` with the new
      node `node` holding `val`: red, in the in-order sequence, and removing
      it gives back the old sequence and values. Old nodes keep their values
      and colours. */
  ghost predicate Grown(h: Heap, s: Shape, h': Heap, s': Shape, node: Ptr, val: Pair) {
    && node !in h && node in h' && node in Seq(s') && Ids(s') == Ids(s) + {node}
    && h'[node].value == val && h'[node].red
    && RemoveAt(Seq(s'), IndexOf(Seq(s'), node)) == Seq(s)
    && Entries(h', Seq(s'))[IndexOf(Seq(s'), node)] == val
    && RemoveAt(Entries(h', Seq(s')), IndexOf(Seq(s'), node)) == Entries(h, Seq(s))
    && (forall q :: q in h ==> q in h' && h'[q].value == h[q].value && h'[q].red == h[q].red)
  }

  /** A new root in an empty arena. */
  lemma {:induction false} RootGrows(h: Heap, n: Ptr, v: Pair)
    requires h.Keys == {} && n != Null
    ensures var h', s' := h[n := NewNode(v, Null, true)], Branch(Leaf, n, Leaf);
      && Tree(h', n, s') && h'.Keys == Ids(s') && Grown(h, Leaf, h', s', n, v)
      && Ordered(h', s') && Entries(h', Seq(s')) == SortedInsert(Entries(h, Seq(Leaf)), v)
  {
    var h', s' := h[n := NewNode(v, Null, true)], Branch(Leaf, n, Leaf);
    SingletonFacts(n);
    assert Entries(h', Seq(s')) == [v];
    assert RemoveAt([n], 0) == [];
    assert RemoveAt([v], 0) == [];
  }

  /** The records and shape after a new leaf `n` holding `v` hangs in the
      free slot `dir` of `p`; when `p` is where the search for `v` lands,
      on the side of `v`, the entries stay sorted with `v` in place. */
  lemma {:induction false} ChildPlaced(h: Heap, root: Ptr, s: Shape, p: Ptr, dir: int, n: Ptr, v: Pair)
    requires Tree(h, root, s) && h.Keys == Ids(s) && p in Ids(s) && p in Seq(s) && p in h
    requires (dir == 0 || dir == 1) && Child(h[p], dir) == Null && n != Null && n !in h
    ensures var h', s' := AttachedHeap(h, p, dir, n, v), Attach(s, p, dir, n);
      && Tree(h', root, s') && h'.Keys == Ids(s') && Size(s') == Size(s) + 1
      && Grown(h, s, h', s', n, v)
      && (Ordered(h, s) && Landed(h, Seq(s), p, v.first) && Key(h, p) != v.first
          && dir == (if v.first < Key(h, p) then 0 else 1)
          ==>
          Ordered(h', s') && KeyAbsent(Entries(h, Seq(s)), v.first)
          && Entries(h', Seq(s')) == SortedInsert(Entries(h, Seq(s)), v))
  {
    AttachGrows(h, root, s, p, dir, n, v);
    if Ordered(h, s) && Landed(h, Seq(s), p, v.first) && Key(h, p) != v.first
       && dir == (if v.first < Key(h, p) then 0 else 1) {
      InsertSorted(h, root, s, v, p, n);
    }
  }

  /** A new leaf in the free slot `dir` of `p`. */
  lemma {:induction false} AttachGrows(h: Heap, root: Ptr, s: Shape, p: Ptr, dir: int, n: Ptr, v: Pair)
    requires Tree(h, root, s) && p in Ids(s) && p in Seq(s) && p in h && (dir == 0 || dir == 1)
    requires Child(h[p], dir) == Null && n != Null && n !in h
    ensures Tree(AttachedHeap(h, p, dir, n, v), root, Attach(s, p, dir, n))
    ensures Ids(Attach(s, p, dir, n)) == Ids(s) + {n} && Size(Attach(s, p, dir, n)) == Size(s) + 1
    ensures Grown(h, s, AttachedHeap(h, p, dir, n, v), Attach(s, p, dir, n), n, v)
  {
    AttachPreserves(h, root, s, p, dir, n, v);
    AttachInOrder(h, root, s, p, dir, n, v);
    SeqSize(s);
    SeqSize(Attach(s, p, dir, n));
  }

}
