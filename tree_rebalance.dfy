/**
 * `_insertionRebalance` and `_deletionRebalance` (RBTree.hpp), the two
 * recolouring and rotating walks of the engine. Both are static in the
 * source and work on nodes alone, so here they are methods on the node
 * store. Each is proved to rearrange the tree without losing, adding or
 * reordering a node and without touching a value.
 */
module TreeRebalance {
  import opened TreeShape
  import opened TreeNode
  import opened TreeColour

  /** The records of the nodes in `ids` are the same in `h` and `h'`. */
  ghost predicate Kept(h: Heap, h': Heap, ids: set<Ptr>) {
    forall q :: q in ids ==> q in h && q in h' && h'[q] == h[q]
  }

  /** The same nodes hold the same values; links and colours may differ. */
  ghost predicate SameValues(h: Heap, h': Heap) {
    h'.Keys == h.Keys && forall q :: q in h ==> h'[q].value == h[q].value
  }

  /** Only the colours of the nodes in `ids` may differ; every link and
      value stays. */
  ghost predicate Recoloured(h: Heap, h': Heap, ids: set<Ptr>) {
    && h'.Keys == h.Keys
    && forall q :: q in h ==>
      && h'[q].left == h[q].left && h'[q].right == h[q].right && h'[q].parent == h[q].parent
      && h'[q].value == h[q].value && (q !in ids ==> h'[q].red == h[q].red)
  }

  /** Every node outside `ids` keeps its colour. */
  ghost predicate ColoursKept(h: Heap, h': Heap, ids: set<Ptr>) {
    forall q :: q in h && q !in ids ==> q in h' && h'[q].red == h[q].red
  }

  lemma {:induction false} SameValuesTrans(h0: Heap, h1: Heap, h2: Heap)
    requires SameValues(h0, h1) && SameValues(h1, h2)
    ensures SameValues(h0, h2)
  {
  }

  lemma {:induction false} KeptTrans(h0: Heap, h1: Heap, h2: Heap, a: set<Ptr>, b: set<Ptr>)
    requires Kept(h0, h1, a) && Kept(h1, h2, b) && a <= b
    ensures Kept(h0, h2, a)
  {
  }

  /** A recolouring keeps the tree and the values, and the records of
      every node other than the recoloured one. */
  lemma {:induction false} PaintStep(h: Heap, root: Ptr, s: Shape, y: Ptr, red: bool, ids: set<Ptr>)
    requires Tree(h, root, s) && y in Ids(s) && ids <= Ids(s) && y !in ids
    ensures y in h && Tree(Painted(h, y, red), root, s)
    ensures SameValues(h, Painted(h, y, red)) && Kept(h, Painted(h, y, red), ids)
  {
    NodeLinks(h, root, s, y);
    PaintKeepsTree(h, root, s, y, red);
  }

  // ---------------------------------------------------------------------
  // The neighbourhood of a node during a deletion rebalance
  // ---------------------------------------------------------------------

  /** A non-root node of a tree, its parent and its sibling. */
  lemma {:induction false} SiblingSite(h: Heap, root: Ptr, s: Shape, x: Ptr)
    requires Tree(h, root, s) && x in Ids(s) && x != root
    ensures ParentKnown(h, x) && GetSibling(h, x).Ok? && (GetDir(h, x) == 0 || GetDir(h, x) == 1)
    ensures h[x].parent in Ids(s) && h[x].parent in h && Up(s, x) == h[x].parent
    ensures Ids(Sub(s, x)) <= Ids(Sub(s, h[x].parent)) && h[x].parent !in Ids(Sub(s, x))
    ensures Depth(s, h[x].parent) + 1 == Depth(s, x) && Null !in Ids(s) && Ids(s) <= h.Keys
    ensures h[h[x].parent].parent !in Ids(Sub(s, x))
    ensures Ids(Sub(s, x)) <= Ids(s) && x in Ids(Sub(s, x))
    ensures var sib := GetSibling(h, x).value;
      sib != Null ==>
        && sib in Ids(s) && sib != root && sib != x && sib in h && h[sib].parent == h[x].parent
        && sib !in Ids(Sub(s, x))
        && Up(s, sib) == Up(s, x)
        && Ids(Sub(s, x)) !! Ids(Sub(s, sib))
        && (h[sib].left != Null ==> h[sib].left in h)
        && (h[sib].right != Null ==> h[sib].right in h)
  {
    var z, g, t := RotationSite(h, root, s, x);
    SiblingInTree(h, root, s, x);
    DirInTree(h, root, s, x);
    NodeLinks(h, root, s, x);
    NodeLinks(h, root, s, z);
    SubFacts(s, x);
    ChildIds(t);
    var sib := GetSibling(h, x).value;
    if sib != Null {
      NodeLinks(h, root, s, sib);
      SubFacts(s, sib);
      assert Distinct(t);
    }
  }

  /** The sibling's child on the side of `x` (`closest` in the source). */
  lemma {:induction false} NephewSite(h: Heap, root: Ptr, s: Shape, x: Ptr)
    requires Tree(h, root, s) && x in Ids(s) && x != root
    requires ParentKnown(h, x) && GetSibling(h, x).Ok? && GetSibling(h, x).value != Null
    requires GetSibling(h, x).value in h
    ensures var sib := GetSibling(h, x).value; var c := Child(h[sib], GetDir(h, x));
      c != Null ==>
        && c in Ids(s) && c != root && c in h && h[c].parent == sib
        && Ids(Sub(s, x)) !! Ids(Sub(s, c)) && c !in Ids(Sub(s, x))
  {
    SiblingSite(h, root, s, x);
    var sib := GetSibling(h, x).value;
    var d := GetDir(h, x);
    ChildLink(h, root, s, sib, d);
    var c := Child(h[sib], d);
    if c != Null {
      ChildIds(Sub(s, sib));
      NodeLinks(h, root, s, c);
      SubFacts(s, c);
    }
  }

  /** A rotation away from the subtree of `x` leaves its records alone. */
  lemma {:induction false} RotateKeeps(h: Heap, root: Ptr, s: Shape, y: Ptr, x: Ptr)
    requires Tree(h, root, s) && y in Ids(s) && y != root && x in Ids(s)
    requires Ids(Sub(s, x)) !! Ids(Sub(s, y))
    requires y in h && h[y].parent in h
    requires h[y].parent !in Ids(Sub(s, x)) && h[h[y].parent].parent !in Ids(Sub(s, x))
    ensures Rotatable(h, y) && Kept(h, RotatedHeap(h, y), Ids(Sub(s, x)))
  {
    var z, g, t := RotationSite(h, root, s, y);
    RotatedHeapRecords(h, y);
    NodeLinks(h, root, s, y);
    SubFacts(s, y);
    SubFacts(s, x);
    ChildIds(Sub(s, y));
    var b := Child(h[y], 1 - GetDir(h, y));
    if b != Null {
      SubFacts(s, b);
    }
  }

  /** `sibling->getOnSurface()` rewires the parent, so afterwards the
      parent's pointer is read again; this is where it then points. */
  lemma {:induction false} RotateLinks(h: Heap, root: Ptr, s: Shape, y: Ptr)
    requires Tree(h, root, s) && y in Ids(s) && y != root
    ensures Rotatable(h, y)
    ensures RotatedHeap(h, y)[y].parent == h[h[y].parent].parent
    ensures RotatedHeap(h, y)[h[y].parent].parent == y
  {
    var z, g, t := RotationSite(h, root, s, y);
    RotatedHeapRecords(h, y);
  }

  /** After `closest->getOnSurface()` the nephew is the new sibling of `x`. */
  lemma {:induction false} NephewRises(h: Heap, root: Ptr, s: Shape, x: Ptr, c: Ptr)
    requires Tree(h, root, s) && x in Ids(s) && x != root
    requires ParentKnown(h, x) && GetSibling(h, x).Ok? && GetSibling(h, x).value != Null
    requires GetSibling(h, x).value in h && c == Child(h[GetSibling(h, x).value], GetDir(h, x)) && c != Null
    ensures c in Ids(s) && c != root && Rotatable(h, c)
    ensures ParentKnown(RotatedHeap(h, c), x) && RotatedHeap(h, c)[x] == h[x]
    ensures GetSibling(RotatedHeap(h, c), x) == Ok(c)
  {
    SiblingSite(h, root, s, x);
    NephewSite(h, root, s, x);
    var z, g, t := RotationSite(h, root, s, c);
    RotatedHeapRecords(h, c);
    NodeLinks(h, root, s, c);
    SubFacts(s, c);
    SubFacts(s, x);
    ChildIds(Sub(s, c));
    var b := Child(h[c], 1 - GetDir(h, c));
    if b != Null {
      SubFacts(s, b);
    }
  }

  /** The shape after the subtree of `x` is regained from the records
      that were kept. */
  lemma {:induction false} SubKept(h: Heap, h': Heap, root: Ptr, root': Ptr, s: Shape, s': Shape, x: Ptr)
    requires Tree(h, root, s) && Tree(h', root', s') && x in Ids(s) && x in Ids(s')
    requires Kept(h, h', Ids(Sub(s, x)))
    ensures Sub(s', x) == Sub(s, x)
  {
    NodeLinks(h, root, s, x);
    NodeLinks(h', root', s', x);
    SubFacts(s, x);
    SubFacts(s', x);
    ModelsSame(h, h', x, h[x].parent, Sub(s, x));
    ModelsUnique(h', x, h[x].parent, h'[x].parent, Sub(s, x), Sub(s', x));
  }

  /** Rotating the sibling above the parent moves `x` one level down. */
  lemma {:induction false} SiblingRotationDepth(s: Shape, x: Ptr, y: Ptr)
    requires Distinct(s) && x in Ids(s) && y in Ids(s) && x != y
    requires x != Root(s) && y != Root(s) && Up(s, y) == Up(s, x)
    ensures Depth(Rotate(s, y), x) == Depth(s, x) + 1
  {
    var u := Up(s, x);
    UpFacts(s, x);
    UpFacts(s, y);
    SubFacts(s, x);
    SubFacts(s, y);
    SubFacts(s, u);
    var t := Sub(s, u);
    var t' := RotateLocal(t, y);
    RotateLocalFacts(t, y);
    ReplaceAtIds(s, u, t');
    ChildIds(t);
    ReplaceAtDepth(s, u, t', x);
    if LeftOf(t) == Sub(s, x) {
      LocalDepthLeft(t.left, u, t.right.left, y, t.right.right, x);
    } else {
      LocalDepthRight(t.left.left, y, t.left.right, u, t.right, x);
    }
  }

  lemma {:induction false} LocalDepthLeft(a: Shape, u: Ptr, bl: Shape, y: Ptr, br: Shape, x: Ptr)
    requires Distinct(Branch(a, u, Branch(bl, y, br))) && a.Branch? && a.id == x
    ensures RotateLocal(Branch(a, u, Branch(bl, y, br)), y) == Branch(Branch(a, u, bl), y, br)
    ensures x in Ids(Branch(a, u, bl)) && Depth(Branch(Branch(a, u, bl), y, br), x) == 2
  {
    assert x in Ids(a) && Depth(a, x) == 0;
    assert x != y && x != u;
  }

  lemma {:induction false} LocalDepthRight(al: Shape, y: Ptr, ar: Shape, u: Ptr, b: Shape, x: Ptr)
    requires Distinct(Branch(Branch(al, y, ar), u, b)) && b.Branch? && b.id == x
    ensures RotateLocal(Branch(Branch(al, y, ar), u, b), y) == Branch(al, y, Branch(ar, u, b))
    ensures x in Ids(Branch(ar, u, b)) && Depth(Branch(al, y, Branch(ar, u, b)), x) == 2
  {
    assert x in Ids(b) && Depth(b, x) == 0;
    assert x != y && x != u && x !in Ids(al) && x !in Ids(ar);
  }

  // ---------------------------------------------------------------------
  // _deletionRebalance
  // ---------------------------------------------------------------------

  /** What each recursive call of `_deletionRebalance` gives up: a climb to
      a black parent lowers the depth; a rotation of a red sibling makes
      the parent red and moves the start one level down, after which the
      walk ends within one more round. */
  ghost function DeletionMeasure(h: Heap, s: Shape, x: Ptr): nat {
    if x !in h || h[x].parent == Null then 0
    else if Red(h, h[x].parent) then (if Depth(s, x) < Size(s) then Size(s) - Depth(s, x) else 0)
    else Size(s) + Depth(s, x)
  }

  /** `_deletionRebalance(start)`, run before a black leaf is cut out.
      `defined` is false when the source reads through a null sibling;
      the walk then stops there. Whatever path it takes, the shape it
      leaves is a tree holding the same nodes in the same order, the
      values stay, and nothing below `start` is touched. */
  method DeletionRebalance(store: NodeStore, start: Ptr, ghost s: Shape)
    returns (defined: bool, ghost s': Shape)
    requires Tree(store.nodes, Root(s), s) && start in Ids(s)
    modifies store
    ensures Tree(store.nodes, Root(s'), s') && Seq(s') == Seq(s) && Ids(s') == Ids(s)
    ensures SameValues(old(store.nodes), store.nodes) && store.next == old(store.next)
    ensures Kept(old(store.nodes), store.nodes, Ids(Sub(s, start)))
    ensures start in old(store.nodes) && old(store.nodes[start].parent) == Null ==>
      defined && s' == s && store.nodes == old(store.nodes)
    decreases DeletionMeasure(store.nodes, s, start)
  {
    ghost var h0 := store.nodes;
    NodeLinks(h0, Root(s), s, start);
    if store.nodes[start].parent == Null {
      return true, s;
    }
    SiblingSite(h0, Root(s), s, start);
    ghost var below := Ids(Sub(s, start));
    var sibling := GetSibling(store.nodes, start).value;
    if sibling == Null {
      return false, s;
    }
    var p := store.nodes[start].parent;
    DepthBound(s, start);
    if !store.nodes[sibling].red && AllChildrenBlack(store.nodes, sibling) {
      PaintStep(h0, Root(s), s, sibling, true, below);
      store.nodes := Painted(store.nodes, sibling, true);
      ghost var h1 := store.nodes;
      if !store.nodes[p].red {
        ClimbDecreases(h0, h1, s, start, p);
        defined, s' := DeletionRebalance(store, p, s);
        KeptTrans(h0, h1, store.nodes, below, Ids(Sub(s, p)));
        SameValuesTrans(h0, h1, store.nodes);
      } else {
        PaintStep(h1, Root(s), s, p, false, below);
        store.nodes := Painted(store.nodes, p, false);
        KeptTrans(h0, h1, store.nodes, below, below);
        SameValuesTrans(h0, h1, store.nodes);
        defined, s' := true, s;
      }
    } else if !store.nodes[sibling].red {
      s' := BlackSiblingRotations(store, start, sibling, s);
      defined := true;
    } else {
      ghost var h1 := store.nodes;
      var s1 := RedSiblingRotation(store, start, sibling, s);
      ghost var h2 := store.nodes;
      defined, s' := DeletionRebalance(store, start, s1);
      KeptTrans(h0, h2, store.nodes, below, below);
      SameValuesTrans(h0, h2, store.nodes);
    }
  }

  /** The non-recursive case of `_deletionRebalance` (lines 138-152): a black
      sibling with a red child. A red nephew on the side of `start` is
      first lifted above the sibling and blackened; then the sibling rises
      above the parent, takes the parent's colour, and the parent turns
      black. */
  method BlackSiblingRotations(store: NodeStore, start: Ptr, sibling: Ptr, ghost s: Shape)
    returns (ghost s': Shape)
    requires Tree(store.nodes, Root(s), s) && start in Ids(s) && start != Root(s)
    requires ParentKnown(store.nodes, start) && GetSibling(store.nodes, start) == Ok(sibling)
    requires sibling != Null && sibling in store.nodes
    modifies store
    ensures Tree(store.nodes, Root(s'), s') && Seq(s') == Seq(s) && Ids(s') == Ids(s)
    ensures SameValues(old(store.nodes), store.nodes) && store.next == old(store.next)
    ensures Kept(old(store.nodes), store.nodes, Ids(Sub(s, start)))
    ensures var p := old(store.nodes[start].parent);
      var c := old(Child(store.nodes[sibling], GetDir(store.nodes, start)));
      var top := if c != Null && old(Red(store.nodes, c)) then c else sibling;
      && top in store.nodes && p in store.nodes
      && store.nodes[p].parent == top && store.nodes[top].parent == old(store.nodes[p].parent)
      && store.nodes[start].parent == p
      && store.nodes[top].red == old(store.nodes[p].red) && !store.nodes[p].red
      && ColoursKept(old(store.nodes), store.nodes, {top, p})
    ensures var p := old(store.nodes[start].parent);
      var c := old(Child(store.nodes[sibling], GetDir(store.nodes, start)));
      !(c != Null && old(Red(store.nodes, c))) ==>
        && Rotatable(old(store.nodes), sibling) && s' == Rotate(s, sibling)
        && store.nodes == Painted(Painted(RotatedHeap(old(store.nodes), sibling), sibling, old(store.nodes[p].red)), p, false)
  {
    ghost var h0 := store.nodes;
    ghost var below := Ids(Sub(s, start));
    SiblingSite(h0, Root(s), s, start);
    var sib := sibling;
    var closest := Child(store.nodes[sib], GetDir(store.nodes, start));
    ghost var s1 := s;
    if closest != Null && store.nodes[closest].red {
      NodeLinks(h0, Root(s), s, sib);
      NodeLinks(h0, Root(s), s, closest);
      s1 := LiftNephew(store, start, closest, s);
      sib := closest;
    }
    ghost var h2 := store.nodes;
    ghost var p := h0[start].parent;
    assert h2[start] == h0[start];
    assert p in h2 && h2[p].parent == h0[p].parent && h2[p].red == h0[p].red;
    SiblingAgain(h0, h2, s, s1, start, sib);
    s' := LiftSibling(store, start, sib, s1);
    KeptTrans(h0, h2, store.nodes, below, below);
    SameValuesTrans(h0, h2, store.nodes);
  }

  /** `BlackSiblingRotations` with the far nephew turned black as well,
      the repair the far-nephew case needs (`TreeColour.FarNephewRepair`).
      A rotation keeps every colour, so the far nephew is painted before
      the sibling rises; in the near-nephew case the new far child is the
      old sibling, already black, and nothing more is painted. */
  method BlackSiblingRotationsIntended(store: NodeStore, start: Ptr, sibling: Ptr, ghost s: Shape)
    returns (ghost s': Shape)
    requires Tree(store.nodes, Root(s), s) && start in Ids(s) && start != Root(s)
    requires ParentKnown(store.nodes, start) && GetSibling(store.nodes, start) == Ok(sibling)
    requires sibling != Null && sibling in store.nodes
    modifies store
    ensures Tree(store.nodes, Root(s'), s') && Seq(s') == Seq(s) && Ids(s') == Ids(s)
    ensures SameValues(old(store.nodes), store.nodes) && store.next == old(store.next)
    ensures Kept(old(store.nodes), store.nodes, Ids(Sub(s, start)))
    ensures var p := old(store.nodes[start].parent);
      var c := old(Child(store.nodes[sibling], GetDir(store.nodes, start)));
      var f := old(Child(store.nodes[sibling], 1 - GetDir(store.nodes, start)));
      var near := c != Null && old(Red(store.nodes, c));
      var top := if near then c else sibling;
      && top in store.nodes && p in store.nodes
      && store.nodes[p].parent == top && store.nodes[top].parent == old(store.nodes[p].parent)
      && store.nodes[start].parent == p
      && store.nodes[top].red == old(store.nodes[p].red) && !store.nodes[p].red
      && (!near && f != Null ==> !Red(store.nodes, f))
      && ColoursKept(old(store.nodes), store.nodes, if near then {top, p} else {top, p, f})
  {
    ghost var h0 := store.nodes;
    ghost var below := Ids(Sub(s, start));
    NodeLinks(h0, Root(s), s, start);
    BlackenFarNephew(store, start, sibling, s);
    ghost var h1 := store.nodes;
    s' := BlackSiblingRotations(store, start, sibling, s);
    FarNephewKept(h0, h1, store.nodes, start, sibling);
    KeptTrans(h0, h1, store.nodes, below, below);
    SameValuesTrans(h0, h1, store.nodes);
  }

  /** The colours and links `BlackSiblingRotationsIntended` promises, from
      those of its repaint (`h0` to `h1`) and its rotations (`h1` to `h2`). */
  lemma {:induction false} FarNephewKept(h0: Heap, h1: Heap, h2: Heap, start: Ptr, sibling: Ptr)
    requires ParentKnown(h0, start) && h0[start].parent != Null && sibling in h0
    requires ParentKnown(h1, start) && sibling in h1
    requires var p := h0[start].parent;
      p in h1 && h1[p] == h0[p] && h1[sibling] == h0[sibling]
    requires var d := GetDir(h0, start);
      var c := Child(h0[sibling], d);
      var f := Child(h0[sibling], 1 - d);
      && GetDir(h1, start) == d
      && (f != Null ==> f in h0 && f != sibling && f != h0[start].parent)
      && (c != Null ==> c in h1 && Red(h1, c) == Red(h0, c))
      && h1 == if !(c != Null && Red(h0, c)) && f != Null then Painted(h0, f, false) else h0
    requires var p := h1[start].parent;
      var c := Child(h1[sibling], GetDir(h1, start));
      var top := if c != Null && Red(h1, c) then c else sibling;
      && top in h2 && p in h2 && p in h1 && start in h2
      && h2[p].parent == top && h2[top].parent == h1[p].parent
      && h2[start].parent == p
      && h2[top].red == h1[p].red && !h2[p].red
      && ColoursKept(h1, h2, {top, p})
    ensures var p := h0[start].parent;
      var c := Child(h0[sibling], GetDir(h0, start));
      var f := Child(h0[sibling], 1 - GetDir(h0, start));
      var near := c != Null && Red(h0, c);
      var top := if near then c else sibling;
      && top in h2 && p in h2 && start in h2
      && h2[p].parent == top && h2[top].parent == h0[p].parent
      && h2[start].parent == p
      && h2[top].red == h0[p].red && !h2[p].red
      && (!near && f != Null ==> !Red(h2, f))
      && ColoursKept(h0, h2, if near then {top, p} else {top, p, f})
  {
    var p := h0[start].parent;
    var c := Child(h0[sibling], GetDir(h0, start));
    var f := Child(h0[sibling], 1 - GetDir(h0, start));
    var near := c != Null && Red(h0, c);
    assert h1[start].parent == p;
    if !near && f != Null {
      assert f !in {sibling, p} && !Red(h1, f);
    }
  }

  /** The repaint `BlackSiblingRotationsIntended` adds: when the nephew
      nearest to `start` is not red, the far one, if any, turns black. */
  method BlackenFarNephew(store: NodeStore, start: Ptr, sibling: Ptr, ghost s: Shape)
    requires Tree(store.nodes, Root(s), s) && start in Ids(s) && start != Root(s)
    requires ParentKnown(store.nodes, start) && GetSibling(store.nodes, start) == Ok(sibling)
    requires sibling != Null && sibling in store.nodes
    modifies store
    ensures Tree(store.nodes, Root(s), s) && SameValues(old(store.nodes), store.nodes) && store.next == old(store.next)
    ensures Kept(old(store.nodes), store.nodes, Ids(Sub(s, start)))
    ensures ParentKnown(store.nodes, start) && GetSibling(store.nodes, start) == Ok(sibling) && sibling in store.nodes
    ensures var p := old(store.nodes[start].parent);
      p in store.nodes && store.nodes[p] == old(store.nodes[p]) && store.nodes[sibling] == old(store.nodes[sibling])
    ensures var d := old(GetDir(store.nodes, start));
      var c := old(Child(store.nodes[sibling], d));
      var f := old(Child(store.nodes[sibling], 1 - d));
      && GetDir(store.nodes, start) == d
      && (f != Null ==> f in old(store.nodes) && f != sibling && f != old(store.nodes[start].parent))
      && (c != Null ==> c in store.nodes && Red(store.nodes, c) == old(Red(store.nodes, c)))
      && store.nodes == if !(c != Null && old(Red(store.nodes, c))) && f != Null then Painted(old(store.nodes), f, false) else old(store.nodes)
  {
    ghost var h0 := store.nodes;
    ghost var below := Ids(Sub(s, start));
    SiblingSite(h0, Root(s), s, start);
    NodeLinks(h0, Root(s), s, sibling);
    var d := GetDir(store.nodes, start);
    var closest := Child(store.nodes[sibling], d);
    var far := Child(store.nodes[sibling], 1 - d);
    if !(closest != Null && store.nodes[closest].red) && far != Null {
      assert far in Ids(Sub(s, sibling)) && far != start && far != sibling;
      assert far != h0[start].parent;
      PaintStep(h0, Root(s), s, far, false, below);
      store.nodes := Painted(store.nodes, far, false);
      assert store.nodes[start] == h0[start] && store.nodes[sibling] == h0[sibling];
      assert GetSibling(store.nodes, start) == GetSibling(h0, start);
    }
  }

  /** Lines 142-147: `closest->getOnSurface(); closest->red = false;`
      after which `closest` is the sibling of `start`. */
  method LiftNephew(store: NodeStore, start: Ptr, closest: Ptr, ghost s: Shape)
    returns (ghost s': Shape)
    requires Tree(store.nodes, Root(s), s) && start in Ids(s) && start != Root(s)
    requires ParentKnown(store.nodes, start) && GetSibling(store.nodes, start).Ok?
    requires GetSibling(store.nodes, start).value != Null && GetSibling(store.nodes, start).value in store.nodes
    requires closest == Child(store.nodes[GetSibling(store.nodes, start).value], GetDir(store.nodes, start))
    requires closest != Null
    modifies store
    ensures Tree(store.nodes, Root(s'), s') && Seq(s') == Seq(s) && Ids(s') == Ids(s)
    ensures SameValues(old(store.nodes), store.nodes) && store.next == old(store.next)
    ensures Kept(old(store.nodes), store.nodes, Ids(Sub(s, start)))
    ensures ParentKnown(store.nodes, start) && GetSibling(store.nodes, start) == Ok(closest)
    ensures var sib := old(GetSibling(store.nodes, start).value);
      && Rotatable(old(store.nodes), closest)
      && store.nodes == Painted(RotatedHeap(old(store.nodes), closest), closest, false)
      && closest in store.nodes && sib in store.nodes
      && store.nodes[sib].parent == closest && store.nodes[closest].parent == old(store.nodes[start].parent)
      && !Red(store.nodes, closest) && ColoursKept(old(store.nodes), store.nodes, {closest})
    ensures var p := old(store.nodes[start].parent);
      p in store.nodes && store.nodes[p].parent == old(store.nodes[p].parent)
  {
    ghost var h0 := store.nodes;
    ghost var below := Ids(Sub(s, start));
    SiblingSite(h0, Root(s), s, start);
    NephewSite(h0, Root(s), s, start);
    NephewRises(h0, Root(s), s, start, closest);
    var _, _, _ := RotationSite(h0, Root(s), s, closest);
    RotatedHeapRecords(h0, closest);
    RotateLinks(h0, Root(s), s, closest);
    RotatedColours(h0, closest);
    RotateKeeps(h0, Root(s), s, closest, start);
    RotatePreserves(h0, Root(s), s, closest);
    var _ := store.GetOnSurface(closest);
    s' := Rotate(s, closest);
    ghost var hr := store.nodes;
    ghost var p := hr[start].parent;
    PaintStep(hr, Root(s'), s', closest, false, below);
    store.nodes := Painted(store.nodes, closest, false);
    KeptTrans(h0, hr, store.nodes, below, below);
    SameValuesTrans(h0, hr, store.nodes);
    assert store.nodes[start] == hr[start] && store.nodes[p] == hr[p];
  }

  /** Lines 149-151: `sibling->getOnSurface()`, then the sibling takes the
      colour of the parent of `start` and that parent turns black. */
  method LiftSibling(store: NodeStore, start: Ptr, sib: Ptr, ghost s: Shape)
    returns (ghost s': Shape)
    requires Tree(store.nodes, Root(s), s) && start in Ids(s) && start != Root(s)
    requires sib in Ids(s) && sib != Root(s) && sib in store.nodes && store.nodes[sib].parent in store.nodes
    requires Ids(Sub(s, start)) !! Ids(Sub(s, sib)) && start in store.nodes
    requires store.nodes[start].parent == store.nodes[sib].parent
    requires store.nodes[sib].parent !in Ids(Sub(s, start))
    requires store.nodes[store.nodes[sib].parent].parent !in Ids(Sub(s, start))
    modifies store
    ensures Tree(store.nodes, Root(s'), s') && Seq(s') == Seq(s) && Ids(s') == Ids(s)
    ensures SameValues(old(store.nodes), store.nodes) && store.next == old(store.next)
    ensures Kept(old(store.nodes), store.nodes, Ids(Sub(s, start)))
    ensures var p := old(store.nodes[sib].parent);
      && Rotatable(old(store.nodes), sib) && s' == Rotate(s, sib)
      && store.nodes == Painted(Painted(RotatedHeap(old(store.nodes), sib), sib, old(store.nodes[p].red)), p, false)
      && store.nodes[p].parent == sib && store.nodes[sib].parent == old(store.nodes[p].parent)
      && store.nodes[start].parent == p
      && store.nodes[sib].red == old(store.nodes[p].red) && !store.nodes[p].red
      && ColoursKept(old(store.nodes), store.nodes, {sib, p})
  {
    ghost var h0 := store.nodes;
    ghost var below := Ids(Sub(s, start));
    SubFacts(s, start);
    SubFacts(s, sib);
    NodeLinks(h0, Root(s), s, sib);
    RotateLinks(h0, Root(s), s, sib);
    RotatedColours(h0, sib);
    RotateKeeps(h0, Root(s), s, sib, start);
    RotatePreserves(h0, Root(s), s, sib);
    var _ := store.GetOnSurface(sib);
    s' := Rotate(s, sib);
    ghost var h3 := store.nodes;
    ghost var p := h0[sib].parent;
    assert h3[start] == h0[start];
    NodeLinks(h3, Root(s'), s', start);
    assert p in Ids(s') && p !in below;
    assert sib != p && h3[start].parent == p && h3[p].red == h0[p].red;
    PaintStep(h3, Root(s'), s', sib, store.nodes[store.nodes[start].parent].red, below);
    store.nodes := Painted(store.nodes, sib, store.nodes[store.nodes[start].parent].red);
    ghost var h4 := store.nodes;
    KeptTrans(h0, h3, h4, below, below);
    SameValuesTrans(h0, h3, h4);
    PaintStep(h4, Root(s'), s', p, false, below);
    store.nodes := Painted(store.nodes, store.nodes[start].parent, false);
    KeptTrans(h0, h4, store.nodes, below, below);
    SameValuesTrans(h0, h4, store.nodes);
  }

  /** The red-sibling case of `_deletionRebalance` (lines 153-158) up to its
      recursive call: the sibling rises above the parent and turns black,
      the parent turns red. `start` keeps its subtree and sinks one level,
      so the measure falls. */
  method RedSiblingRotation(store: NodeStore, start: Ptr, sibling: Ptr, ghost s: Shape)
    returns (ghost s': Shape)
    requires Tree(store.nodes, Root(s), s) && start in Ids(s) && start != Root(s)
    requires ParentKnown(store.nodes, start) && GetSibling(store.nodes, start) == Ok(sibling)
    requires sibling != Null && sibling in store.nodes && store.nodes[sibling].red
    modifies store
    ensures Tree(store.nodes, Root(s'), s') && Seq(s') == Seq(s) && Ids(s') == Ids(s)
    ensures SameValues(old(store.nodes), store.nodes) && store.next == old(store.next)
    ensures Kept(old(store.nodes), store.nodes, Ids(Sub(s, start)))
    ensures start in Ids(s') && Sub(s', start) == Sub(s, start)
    ensures DeletionMeasure(store.nodes, s', start) < DeletionMeasure(old(store.nodes), s, start)
    ensures var p := old(store.nodes[start].parent);
      && p in store.nodes
      && store.nodes[p].parent == sibling && store.nodes[sibling].parent == old(store.nodes[p].parent)
      && store.nodes[start].parent == p
      && !Red(store.nodes, sibling) && Red(store.nodes, p)
      && ColoursKept(old(store.nodes), store.nodes, {sibling, p})
  {
    ghost var h0 := store.nodes;
    SiblingSite(h0, Root(s), s, start);
    ghost var below := Ids(Sub(s, start));
    var p := store.nodes[start].parent;
    SiblingRotationDepth(s, start, sibling);
    RotateLinks(h0, Root(s), s, sibling);
    RotatedColours(h0, sibling);
    RotateKeeps(h0, Root(s), s, sibling, start);
    RotatePreserves(h0, Root(s), s, sibling);
    var _ := store.GetOnSurface(sibling);
    s' := Rotate(s, sibling);
    ghost var h1 := store.nodes;
    assert h1[start] == h0[start];
    PaintStep(h1, Root(s'), s', sibling, false, below);
    store.nodes := Painted(store.nodes, sibling, false);
    ghost var h2 := store.nodes;
    PaintStep(h2, Root(s'), s', p, true, below);
    store.nodes := Painted(store.nodes, store.nodes[start].parent, true);
    ghost var h3 := store.nodes;
    KeptTrans(h0, h1, h2, below, below);
    KeptTrans(h0, h2, h3, below, below);
    SameValuesTrans(h0, h1, h2);
    SameValuesTrans(h0, h2, h3);
    SubKept(h0, h3, Root(s), Root(s'), s, s', start);
    RedSiblingDecreases(h0, h3, s, s', start, p);
  }

  /** Climbing from `x` to its black parent lowers the measure. */
  lemma {:induction false} ClimbDecreases(h0: Heap, h1: Heap, s: Shape, x: Ptr, p: Ptr)
    requires Tree(h1, Root(s), s) && x in Ids(s) && x in h0 && x in h1 && h1[x] == h0[x]
    requires p == h0[x].parent && p != Null && p in h0 && p in h1 && h1[p].red == h0[p].red && !h0[p].red
    ensures DeletionMeasure(h1, s, p) < DeletionMeasure(h0, s, x)
  {
    NodeLinks(h1, Root(s), s, x);
  }

  /** Rotating the red sibling makes the parent red and `x` one level
      deeper, which lowers the measure. */
  lemma {:induction false} RedSiblingDecreases(h0: Heap, h3: Heap, s: Shape, s1: Shape, x: Ptr, p: Ptr)
    requires Distinct(s) && x in Ids(s) && Seq(s1) == Seq(s) && Depth(s1, x) == Depth(s, x) + 1
    requires x in h0 && x in h3 && h3[x] == h0[x] && p == h0[x].parent && p != Null && Red(h3, p)
    ensures DeletionMeasure(h3, s1, x) < DeletionMeasure(h0, s, x)
  {
    DepthBound(s, x);
    SeqFacts(s);
    SeqFacts(s1);
  }

  /** The node the second sibling rotation lifts is the sibling of `x` in
      the (possibly once rotated) tree. */
  lemma {:induction false} SiblingAgain(h0: Heap, h2: Heap, s: Shape, s1: Shape, x: Ptr, sib: Ptr)
    requires Tree(h0, Root(s), s) && Tree(h2, Root(s1), s1) && x in Ids(s) && x != Root(s)
    requires Ids(s1) == Ids(s) && Kept(h0, h2, Ids(Sub(s, x)))
    requires ParentKnown(h2, x) && GetSibling(h2, x) == Ok(sib) && sib != Null
    ensures x != Root(s1) && Sub(s1, x) == Sub(s, x)
    ensures sib in Ids(s1) && sib != Root(s1) && sib in h2 && h2[sib].parent in h2
    ensures Ids(Sub(s1, x)) !! Ids(Sub(s1, sib)) && x in h2 && h2[x].parent == h2[sib].parent
    ensures h2[sib].parent !in Ids(Sub(s1, x)) && h2[h2[sib].parent].parent !in Ids(Sub(s1, x))
  {
    NodeLinks(h0, Root(s), s, x);
    SubFacts(s, x);
    NodeLinks(h2, Root(s1), s1, x);
    SubKept(h0, h2, Root(s), Root(s1), s, s1, x);
    SiblingSite(h2, Root(s1), s1, x);
  }

  // ---------------------------------------------------------------------
  // _insertionRebalance
  // ---------------------------------------------------------------------

  /** A rotation of a non-root node keeps the tree, its order and the values. */
  lemma {:induction false} RotateStep(h: Heap, root: Ptr, s: Shape, y: Ptr)
    requires Tree(h, root, s) && y in Ids(s) && y != root
    ensures Rotatable(h, y) && Tree(RotatedHeap(h, y), Root(Rotate(s, y)), Rotate(s, y))
    ensures Seq(Rotate(s, y)) == Seq(s) && Ids(Rotate(s, y)) == Ids(s)
    ensures SameValues(h, RotatedHeap(h, y))
    ensures Root(Rotate(s, y)) == if h[y].parent == root then y else root
  {
    RotatePreserves(h, root, s, y);
  }

  /** `_insertionRebalance(start)` (lines 87-120), called on a red node that
      may sit below a red parent. The four cases of the source are kept:
      the root turns black; a red root parent turns black; a black or
      missing uncle means one or two rotations and a recolouring; a red
      uncle means a recolouring and a new round two levels up. Whatever
      the path, the nodes, their order and their values stay. */
  method InsertionRebalance(store: NodeStore, start: Ptr, ghost s: Shape) returns (ghost s': Shape)
    requires Tree(store.nodes, Root(s), s) && start in Ids(s)
    modifies store
    ensures Tree(store.nodes, Root(s'), s') && Seq(s') == Seq(s) && Ids(s') == Ids(s)
    ensures SameValues(old(store.nodes), store.nodes) && store.next == old(store.next)
    ensures old(start in store.nodes && store.nodes[start].parent == Null) ==>
      s' == s && store.nodes == Painted(old(store.nodes), start, false)
    ensures old(start in store.nodes && store.nodes[start].parent != Null && store.nodes[start].parent in store.nodes) ==>
      var p := old(store.nodes[start].parent);
      && (old(store.nodes[p].red && store.nodes[p].parent == Null) ==> s' == s && store.nodes == Painted(old(store.nodes), p, false))
      && (old(!store.nodes[p].red) ==> s' == s && store.nodes == old(store.nodes))
    decreases Depth(s, start)
  {
    ghost var h0 := store.nodes;
    NodeLinks(h0, Root(s), s, start);
    if store.nodes[start].parent != Null {
      NodeLinks(h0, Root(s), s, store.nodes[start].parent);
    }
    var uncle := GetUncle(store.nodes, start);
    var p := store.nodes[start].parent;
    if p != Null && store.nodes[p].parent != Null {
      UncleInTree(h0, Root(s), s, start);
      SiblingSite(h0, Root(s), s, p);
    }
    if p == Null {
      PaintStep(h0, Root(s), s, start, false, {});
      store.nodes := Painted(store.nodes, start, false);
      s' := s;
    } else if store.nodes[p].red && store.nodes[p].parent == Null {
      PaintStep(h0, Root(s), s, p, false, {});
      store.nodes := Painted(store.nodes, p, false);
      s' := s;
    } else if store.nodes[p].red && (uncle == Null || !store.nodes[uncle].red) {
      s' := RotateUp(store, start, s);
    } else if store.nodes[p].red {
      var g := store.nodes[p].parent;
      RecolourUncle(store, start, s);
      ghost var h3 := store.nodes;
      assert Depth(s, g) + 2 == Depth(s, start);
      s' := InsertionRebalance(store, g, s);
      SameValuesTrans(h0, h3, store.nodes);
    } else {
      s' := s;
    }
  }

  /** Lines 113-117 up to the recursive call: with a red uncle, the parent
      and the uncle turn black and the grandparent red; nothing else
      changes. */
  method RecolourUncle(store: NodeStore, start: Ptr, ghost s: Shape)
    requires Tree(store.nodes, Root(s), s) && start in Ids(s) && GrandparentKnown(store.nodes, start)
    requires store.nodes[start].parent != Null && store.nodes[store.nodes[start].parent].parent != Null
    requires GetUncle(store.nodes, start) != Null && Red(store.nodes, GetUncle(store.nodes, start))
    modifies store
    ensures Tree(store.nodes, Root(s), s)
    ensures SameValues(old(store.nodes), store.nodes) && store.next == old(store.next)
    ensures var p := old(store.nodes[start].parent); var g := old(store.nodes[p].parent);
      var u := old(GetUncle(store.nodes, start));
      && Recoloured(old(store.nodes), store.nodes, {p, u, g})
      && !Red(store.nodes, p) && !Red(store.nodes, u) && Red(store.nodes, g)
  {
    ghost var h0 := store.nodes;
    NodeLinks(h0, Root(s), s, start);
    var p := store.nodes[start].parent;
    NodeLinks(h0, Root(s), s, p);
    UncleInTree(h0, Root(s), s, start);
    SiblingSite(h0, Root(s), s, p);
    var uncle := GetUncle(store.nodes, start);
    var g := store.nodes[p].parent;
    PaintStep(h0, Root(s), s, p, false, {});
    store.nodes := Painted(store.nodes, p, false);
    ghost var h1 := store.nodes;
    PaintStep(h1, Root(s), s, uncle, false, {});
    store.nodes := Painted(store.nodes, uncle, false);
    ghost var h2 := store.nodes;
    PaintStep(h2, Root(s), s, g, true, {});
    store.nodes := Painted(store.nodes, g, true);
    SameValuesTrans(h0, h1, h2);
    SameValuesTrans(h0, h2, store.nodes);
  }

  /** Lines 95-112: the red parent has a black or missing uncle. An inner
      grandchild first rises above its parent (and the old parent becomes
      `start`); then the parent of `start` rises above the grandparent,
      turns black, and its two children turn red. So the node that takes
      the grandparent's place is the parent of an outer `start` and `start`
      itself otherwise; it turns black, and the other of the two and the
      old grandparent hang below it, red. */
  method RotateUp(store: NodeStore, start: Ptr, ghost s: Shape) returns (ghost s': Shape)
    requires Tree(store.nodes, Root(s), s) && start in Ids(s) && GrandparentKnown(store.nodes, start)
    requires store.nodes[start].parent != Null && store.nodes[store.nodes[start].parent].parent != Null
    modifies store
    ensures Tree(store.nodes, Root(s'), s') && Seq(s') == Seq(s) && Ids(s') == Ids(s)
    ensures SameValues(old(store.nodes), store.nodes) && store.next == old(store.next)
    ensures var p := old(store.nodes[start].parent); var g := old(store.nodes[p].parent);
      var outer := old(GetDir(store.nodes, start) == GetDir(store.nodes, p));
      var top, other := (if outer then p else start), (if outer then start else p);
      && old(g in store.nodes) && top in store.nodes && other in store.nodes && g in store.nodes
      && store.nodes[top].parent == old(store.nodes[g].parent)
      && store.nodes[other].parent == top && store.nodes[g].parent == top
      && !Red(store.nodes, top) && Red(store.nodes, other) && Red(store.nodes, g)
      && ColoursKept(old(store.nodes), store.nodes, {start, p, g})
  {
    ghost var h0 := store.nodes;
    NodeLinks(h0, Root(s), s, start);
    var p := store.nodes[start].parent;
    NodeLinks(h0, Root(s), s, p);
    ghost var g := h0[p].parent;
    OuterGrandchildInTree(h0, Root(s), s, start);
    var outer := store.IsOuterGrandchild(start);
    var st := start;
    ghost var s1 := s;
    if !outer.value {
      InnerRises(h0, Root(s), s, start);
      RotateStep(h0, Root(s), s, start);
      var _ := store.GetOnSurface(start);
      s1 := Rotate(s, start);
      st := p;
    }
    ghost var h1 := store.nodes;
    assert st in Ids(s1) && st in h1 && h1[st].parent != Null && h1[st].parent != Root(s1);
    s' := LiftParent(store, st, s1);
    SameValuesTrans(h0, h1, store.nodes);
  }

  /** `start->getOnSurface()` on an inner grandchild: it takes its parent's
      place below the grandparent, its old parent hangs below it on the
      same side, so that old parent is now an outer grandchild, and no
      colour changes. */
  lemma {:induction false} InnerRises(h: Heap, root: Ptr, s: Shape, x: Ptr)
    requires Tree(h, root, s) && x in Ids(s) && x in h && x != root && h[x].parent != root
    requires GrandparentKnown(h, x) && h[x].parent != Null && GetDir(h, x) != GetDir(h, h[x].parent)
    ensures Rotatable(h, x)
    ensures var p := h[x].parent; var g := h[p].parent; var h' := RotatedHeap(h, x);
      && p in h' && x in h' && g in h && g in h'
      && h'[p].parent == x && h'[x].parent == g && h'[g].parent == h[g].parent
      && GrandparentKnown(h', p) && GetDir(h', p) == GetDir(h', x)
      && (forall q :: q in h ==> h'[q].red == h[q].red)
  {
    var z, g, t := RotationSite(h, root, s, x);
    NodeLinks(h, root, s, x);
    NodeLinks(h, root, s, z);
    RotatedHeapRecords(h, x);
    RotatedColours(h, x);
    var i := GetDir(h, x);
    var h' := RotatedHeap(h, x);
    assert Child(h'[x], 1 - i) == z;
    assert Child(h'[x], i) == Child(h[x], i) && Child(h[x], i) != z;
    NodeLinks(h, root, s, g);
  }

  /** Lines 105-111 on an outer `start`: its parent `q` rises above the
      grandparent `g`, turns black, and `start` and `g` hang below it, red. */
  method LiftParent(store: NodeStore, start: Ptr, ghost s: Shape) returns (ghost s': Shape)
    requires Tree(store.nodes, Root(s), s) && start in Ids(s) && GrandparentKnown(store.nodes, start)
    requires store.nodes[start].parent != Null && store.nodes[start].parent != Root(s)
    requires GetDir(store.nodes, start) == GetDir(store.nodes, store.nodes[start].parent)
    modifies store
    ensures Tree(store.nodes, Root(s'), s') && Seq(s') == Seq(s) && Ids(s') == Ids(s)
    ensures SameValues(old(store.nodes), store.nodes) && store.next == old(store.next)
    ensures var q := old(store.nodes[start].parent); var g := old(store.nodes[q].parent);
      && old(g in store.nodes) && q in store.nodes && start in store.nodes && g in store.nodes
      && store.nodes[q].parent == old(store.nodes[g].parent)
      && store.nodes[start].parent == q && store.nodes[g].parent == q
      && !Red(store.nodes, q) && Red(store.nodes, start) && Red(store.nodes, g)
      && ColoursKept(old(store.nodes), store.nodes, {q, start, g})
  {
    ghost var h0 := store.nodes;
    NodeLinks(h0, Root(s), s, start);
    var q := store.nodes[start].parent;
    NodeLinks(h0, Root(s), s, q);
    assert q != start;
    var z, g, t := RotationSite(h0, Root(s), s, q);
    RotatedHeapRecords(h0, q);
    RotatedColours(h0, q);
    RotateStep(h0, Root(s), s, q);
    var _ := store.GetOnSurface(q);
    s' := Rotate(s, q);
    ghost var h1 := store.nodes;
    ghost var i := GetDir(h0, q);
    assert Child(h0[q], i) == start;
    NodeLinks(h0, Root(s), s, z);
    if g != Null {
      NodeLinks(h0, Root(s), s, g);
    }
    assert start != z && start != g && start != Child(h0[q], 1 - i);
    assert h1[start] == h0[start];
    assert Child(h1[q], i) == start && Child(h1[q], 1 - i) == z;
    assert start != Root(s');
    NodeLinks(h1, Root(s'), s', start);
    PaintFamily(store, store.nodes[start].parent, s');
    SameValuesTrans(h0, h1, store.nodes);
  }

  /** Lines 106-111: `top` turns black and its children red. */
  method PaintFamily(store: NodeStore, top: Ptr, ghost s: Shape)
    requires Tree(store.nodes, Root(s), s) && top in Ids(s) && top in store.nodes
    modifies store
    ensures Tree(store.nodes, Root(s), s)
    ensures SameValues(old(store.nodes), store.nodes) && store.next == old(store.next)
    ensures var l, r := old(store.nodes[top].left), old(store.nodes[top].right);
      && Recoloured(old(store.nodes), store.nodes, {top, l, r})
      && !Red(store.nodes, top)
      && (l != Null ==> Red(store.nodes, l)) && (r != Null ==> Red(store.nodes, r))
  {
    ghost var h1 := store.nodes;
    NodeLinks(h1, Root(s), s, top);
    PaintStep(h1, Root(s), s, top, false, {});
    store.nodes := Painted(store.nodes, top, false);
    ghost var h2 := store.nodes;
    if store.nodes[top].left != Null {
      PaintStep(h2, Root(s), s, store.nodes[top].left, true, {});
      store.nodes := Painted(store.nodes, store.nodes[top].left, true);
    }
    ghost var h3 := store.nodes;
    SameValuesTrans(h1, h2, h3);
    if store.nodes[top].right != Null {
      PaintStep(h3, Root(s), s, store.nodes[top].right, true, {});
      store.nodes := Painted(store.nodes, store.nodes[top].right, true);
    }
    SameValuesTrans(h1, h3, store.nodes);
  }
}
