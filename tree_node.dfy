/**
 * `ft::TreeNode`: the node records of the red-black tree engine.
 *
 * Nodes live in an arena, a map from indices to records, held by a
 * `NodeStore`; a pointer is an arena index and `Null` is the null
 * pointer. Allocation hands out indices never used before. The node's
 * `dirs[2]` array (the addresses of its two child slots) is modelled by
 * `Child(n, dir)` / `WithChild(n, dir, c)` with `dir` 0 for the left slot
 * and 1 for the right one.
 *
 * `Models(h, p, par, s)` says that the records reachable from `p` form
 * exactly the shape `s`, every record pointing back to its parent
 * (`par` at the top). The two in-place operations of a node,
 * `getOnSurface` (a rotation) and `stealLinks` (taking another node's
 * place), are given as the sequence of writes the source performs,
 * and proved to perform the corresponding shape operation.
 */
module TreeNode {
  import opened TreeShape
  import opened Pairs

  datatype Node = Node(value: Pair, red: bool, left: Ptr, right: Ptr, parent: Ptr)

  type Heap = map<Ptr, Node>

  /** How a node query that `throw`s `std::range_error` ends. */
  datatype Checked<T> = Ok(value: T) | RangeError

  function Child(n: Node, dir: int): Ptr {
    if dir == 0 then n.left else n.right
  }

  function WithChild(n: Node, dir: int, c: Ptr): (m: Node)
    requires dir == 0 || dir == 1
    ensures Child(m, dir) == c && Child(m, 1 - dir) == Child(n, 1 - dir)
    ensures m.value == n.value && m.red == n.red && m.parent == n.parent
  {
    if dir == 0 then n.(left := c) else n.(right := c)
  }

  /** `TreeNode()`: a black node with value-initialised contents and no
      children. Its parent pointer is left indeterminate by the source; the
      model sets it to `Null`, and every use overwrites it. */
  function DefaultNode(): (n: Node)
    ensures !n.red && n.left == Null && n.right == Null && n.value == DefaultPair()
  {
    Node(DefaultPair(), false, Null, Null, Null)
  }

  /** `TreeNode(value, parent, red = true)`: a childless node below `parent`. */
  function NewNode(value: Pair, parent: Ptr, red: bool): (n: Node)
    ensures n.value == value && n.parent == parent && n.red == red
    ensures n.left == Null && n.right == Null
  {
    Node(value, red, Null, Null, parent)
  }

  // ---------------------------------------------------------------------
  // Queries
  // ---------------------------------------------------------------------

  ghost predicate ParentKnown(h: Heap, x: Ptr) {
    x in h && (h[x].parent != Null ==> h[x].parent in h)
  }

  /** `getDir()`: -1 without a parent, 0 in the parent's left slot, else 1. */
  function GetDir(h: Heap, x: Ptr): (d: int)
    requires ParentKnown(h, x)
    ensures -1 <= d <= 1
    ensures d == -1 <==> h[x].parent == Null
    ensures d == 0 <==> h[x].parent != Null && h[h[x].parent].left == x
    ensures d == 1 <==> h[x].parent != Null && h[h[x].parent].left != x
  {
    var p := h[x].parent;
    if p == Null then -1 else if h[p].left == x then 0 else 1
  }

  /** `getChild()`: the left child when there is one, else the right one. */
  function GetChild(n: Node): (c: Ptr)
    ensures c == Null <==> n.left == Null && n.right == Null
    ensures c == n.left || c == n.right
    ensures n.left != Null ==> c == n.left
  {
    if n.left != Null then n.left else n.right
  }

  /** `getSibling()`: the parent's other child; `range_error` at the top. */
  function GetSibling(h: Heap, x: Ptr): (r: Checked<Ptr>)
    requires ParentKnown(h, x)
    ensures r.RangeError? <==> h[x].parent == Null
  {
    if h[x].parent == Null then RangeError
    else Ok(Child(h[h[x].parent], 1 - GetDir(h, x)))
  }

  ghost predicate GrandparentKnown(h: Heap, x: Ptr) {
    ParentKnown(h, x) && (h[x].parent != Null ==> ParentKnown(h, h[x].parent))
  }

  /** `getUncle()`: the parent's sibling, or `Null` without a grandparent. */
  function GetUncle(h: Heap, x: Ptr): (u: Ptr)
    requires GrandparentKnown(h, x)
    ensures h[x].parent == Null || h[h[x].parent].parent == Null ==> u == Null
    ensures h[x].parent != Null && h[h[x].parent].parent != Null ==>
              GetSibling(h, h[x].parent) == Ok(u)
  {
    var p := h[x].parent;
    if p == Null || h[p].parent == Null then Null
    else Child(h[h[p].parent], 1 - GetDir(h, p))
  }

  /** `allChildrensBlack()`: every existing child is black. */
  function AllChildrenBlack(h: Heap, x: Ptr): (b: bool)
    requires x in h
    requires h[x].left != Null ==> h[x].left in h
    requires h[x].right != Null ==> h[x].right in h
    ensures b <==> forall dir :: 0 <= dir < 2 && Child(h[x], dir) != Null ==> !h[Child(h[x], dir)].red
  {
    assert Child(h[x], 0) == h[x].left && Child(h[x], 1) == h[x].right;
    (h[x].left == Null || !h[h[x].left].red) && (h[x].right == Null || !h[h[x].right].red)
  }

  // ---------------------------------------------------------------------
  // The heap/shape correspondence
  // ---------------------------------------------------------------------

  ghost predicate Models(h: Heap, p: Ptr, par: Ptr, s: Shape)
    decreases s
  {
    match s
    case Leaf => p == Null
    case Branch(l, x, r) =>
      p == x && x in h && h[x].parent == par
      && Models(h, h[x].left, x, l) && Models(h, h[x].right, x, r)
  }

  /** A whole tree: the shape hangs from `root`, which has no parent. */
  ghost predicate Tree(h: Heap, root: Ptr, s: Shape) {
    Models(h, root, Null, s) && Distinct(s)
  }

  lemma {:induction false} ModelsBasics(h: Heap, p: Ptr, par: Ptr, s: Shape)
    requires Models(h, p, par, s)
    ensures Root(s) == p && Ids(s) <= h.Keys
    decreases s
  {
    match s
    case Leaf =>
    case Branch(l, x, r) =>
      ModelsBasics(h, h[x].left, x, l);
      ModelsBasics(h, h[x].right, x, r);
  }

  /** Links outside the subtree do not matter; the parent link of its root
      may be redirected. */
  lemma {:induction false} ModelsFrame(h: Heap, h': Heap, p: Ptr, par: Ptr, par': Ptr, s: Shape)
    requires Models(h, p, par, s) && Distinct(s)
    requires forall q :: q in Ids(s) ==> q in h && q in h' && h'[q].left == h[q].left && h'[q].right == h[q].right
    requires forall q :: q in Ids(s) && q != p ==> q in h && q in h' && h'[q].parent == h[q].parent
    requires p != Null ==> p in h' && h'[p].parent == par'
    ensures Models(h', p, par', s)
    decreases s
  {
    match s
    case Leaf =>
    case Branch(l, x, r) =>
      ModelsBasics(h, h[x].left, x, l);
      ModelsBasics(h, h[x].right, x, r);
      ModelsFrame(h, h', h[x].left, x, x, l);
      ModelsFrame(h, h', h[x].right, x, x, r);
  }

  /** The records determine the shape. */
  lemma {:induction false} ModelsUnique(h: Heap, p: Ptr, par1: Ptr, par2: Ptr, s1: Shape, s2: Shape)
    requires Models(h, p, par1, s1) && Models(h, p, par2, s2) && Distinct(s1) && Distinct(s2)
    ensures s1 == s2
    decreases s1
  {
    match s1
    case Leaf =>
    case Branch(l, x, r) =>
      ModelsUnique(h, h[x].left, x, x, l, s2.left);
      ModelsUnique(h, h[x].right, x, x, r, s2.right);
  }

  /** Every subtree is modelled by the records from its root down. */
  lemma {:induction false} SubModels(h: Heap, p: Ptr, par: Ptr, s: Shape, x: Ptr)
    requires Models(h, p, par, s) && Distinct(s) && x in Ids(s)
    ensures x in h && Models(h, x, h[x].parent, Sub(s, x))
    ensures h[x].parent == if x == Root(s) then par else Up(s, x)
    decreases s
  {
    match s
    case Branch(l, y, r) =>
      if y == x {
      } else if x in Ids(l) {
        SubModels(h, h[y].left, y, l, x);
        ModelsBasics(h, h[y].left, y, l);
      } else {
        SubModels(h, h[y].right, y, r, x);
        ModelsBasics(h, h[y].right, y, r);
      }
  }

  /** Everything the records of a tree say about one of its nodes. */
  lemma {:induction false} NodeLinks(h: Heap, root: Ptr, s: Shape, x: Ptr)
    requires Tree(h, root, s) && x in Ids(s)
    ensures x in h && Sub(s, x) == Branch(LeftOf(Sub(s, x)), x, RightOf(Sub(s, x)))
    ensures Models(h, x, h[x].parent, Sub(s, x))
    ensures h[x].parent == Up(s, x)
    ensures h[x].parent == Null <==> x == root
    ensures h[x].parent != Null ==>
      h[x].parent in Ids(s) && h[x].parent in h
      && Child(h[h[x].parent], GetDir(h, x)) == x
      && Depth(s, h[x].parent) + 1 == Depth(s, x)
    ensures h[x].left == Root(LeftOf(Sub(s, x))) && h[x].right == Root(RightOf(Sub(s, x)))
    ensures h[x].left != Null ==>
      h[x].left in Ids(s) && h[x].left in h
      && Sub(s, h[x].left) == LeftOf(Sub(s, x)) && h[h[x].left].parent == x
    ensures h[x].right != Null ==>
      h[x].right in Ids(s) && h[x].right in h
      && Sub(s, h[x].right) == RightOf(Sub(s, x)) && h[h[x].right].parent == x
    ensures h[x].left != Null ==> h[x].left != h[x].right && h[x].left != x
    ensures h[x].right != Null ==> h[x].right != x
    ensures Null !in Ids(s) && Ids(s) <= h.Keys
  {
    ModelsBasics(h, root, Null, s);
    SeqFacts(s);
    SubFacts(s, x);
    SubModels(h, root, Null, s, x);
    SubChildren(s, x);
    UpOfRoot(s);
    var t := Sub(s, x);
    ChildIds(t);
    if x != root {
      UpFacts(s, x);
      SubFacts(s, Up(s, x));
      SubModels(h, root, Null, s, Up(s, x));
    }
    ModelsBasics(h, h[x].left, x, t.left);
    ModelsBasics(h, h[x].right, x, t.right);
    if h[x].left != Null {
      SubModels(h, root, Null, s, h[x].left);
    }
    if h[x].right != Null {
      SubModels(h, root, Null, s, h[x].right);
    }
  }

  lemma {:induction false} UpOfRoot(s: Shape)
    requires Distinct(s) && s.Branch?
    ensures Up(s, Root(s)) == Null
  {
    UpAbsent(s.left, s.id);
    UpAbsent(s.right, s.id);
  }

  lemma {:induction false} UpAbsent(s: Shape, x: Ptr)
    requires x !in Ids(s)
    ensures Up(s, x) == Null
  {
    match s
    case Leaf =>
    case Branch(l, y, r) =>
      UpAbsent(r, x);
  }

  /** Replacing one subtree: when the new records model the new subtree below
      the old parent, leave everything else alone and repoint the parent's
      slot, the whole tree is modelled with that subtree replaced. */
  lemma {:induction false} ReplaceModels(h: Heap, h': Heap, p: Ptr, par: Ptr, s: Shape, x: Ptr, t: Shape)
    requires ReplaceReady(h, h', p, par, s, x, t)
    ensures Models(h', Root(ReplaceAt(s, x, t)), par, ReplaceAt(s, x, t))
    decreases s, 1
  {
    SubModels(h, p, par, s, x);
    if x != Root(s) {
      if x in Ids(s.left) {
        ReplaceModelsLeft(h, h', p, par, s, x, t);
      } else {
        ReplaceModelsRight(h, h', p, par, s, x, t);
      }
    }
  }

  ghost predicate ReplaceReady(h: Heap, h': Heap, p: Ptr, par: Ptr, s: Shape, x: Ptr, t: Shape) {
    && Models(h, p, par, s) && Distinct(s) && x in Ids(s)
    && Ids(t) !! (Ids(s) - Ids(Sub(s, x)))
    && x in h && Models(h', Root(t), h[x].parent, t)
    && (forall q :: q in Ids(s) - Ids(Sub(s, x)) && q != Up(s, x) ==>
          q in h && q in h' && h'[q].left == h[q].left && h'[q].right == h[q].right && h'[q].parent == h[q].parent)
    && (x != Root(s) ==> var u := Up(s, x);
          u in h && u in h' && h'[u].parent == h[u].parent
          && (if h[u].left == x then h'[u].left == Root(t) && h'[u].right == h[u].right
              else h'[u].right == Root(t) && h'[u].left == h[u].left))
  }

  lemma {:induction false} ReplaceModelsLeft(h: Heap, h': Heap, p: Ptr, par: Ptr, s: Shape, x: Ptr, t: Shape)
    requires ReplaceReady(h, h', p, par, s, x, t)
    requires x != Root(s) && x in Ids(s.left)
    ensures Models(h', Root(ReplaceAt(s, x, t)), par, ReplaceAt(s, x, t))
    decreases s, 0
  {
    var l, y, r := s.left, s.id, s.right;
    ModelsBasics(h, h[y].left, y, l);
    ModelsBasics(h, h[y].right, y, r);
    SubFacts(l, x);
    ReplaceAtIds(l, x, t);
    assert Ids(Sub(s, x)) <= Ids(l);
    if x == Root(l) {
      assert Up(s, x) == y;
    } else {
      assert Up(l, x) == Up(s, x);
      UpFacts(l, x);
      ReplaceModels(h, h', h[y].left, y, l, x, t);
    }
    ModelsFrame(h, h', h[y].right, y, y, r);
  }

  lemma {:induction false} ReplaceModelsRight(h: Heap, h': Heap, p: Ptr, par: Ptr, s: Shape, x: Ptr, t: Shape)
    requires ReplaceReady(h, h', p, par, s, x, t)
    requires x != Root(s) && x !in Ids(s.left)
    ensures Models(h', Root(ReplaceAt(s, x, t)), par, ReplaceAt(s, x, t))
    decreases s, 0
  {
    var l, y, r := s.left, s.id, s.right;
    ModelsBasics(h, h[y].left, y, l);
    ModelsBasics(h, h[y].right, y, r);
    SubFacts(r, x);
    ReplaceAtIds(r, x, t);
    assert Ids(Sub(s, x)) <= Ids(r);
    if x == Root(r) {
      assert Up(s, x) == y;
    } else {
      assert Up(r, x) == Up(s, x);
      UpFacts(r, x);
      ReplaceModels(h, h', h[y].right, y, r, x, t);
    }
    ModelsFrame(h, h', h[y].left, y, y, l);
  }

  // ---------------------------------------------------------------------
  // What the queries mean inside a tree
  // ---------------------------------------------------------------------

  /** `getDir()` tells on which side of its parent a node hangs. */
  lemma {:induction false} DirInTree(h: Heap, root: Ptr, s: Shape, x: Ptr)
    requires Tree(h, root, s) && x in Ids(s)
    ensures ParentKnown(h, x)
    ensures GetDir(h, x) == -1 <==> x == root
    ensures GetDir(h, x) == 0 <==> x != root && LeftOf(Sub(s, Up(s, x))) == Sub(s, x)
    ensures GetDir(h, x) == 1 <==> x != root && RightOf(Sub(s, Up(s, x))) == Sub(s, x)
  {
    NodeLinks(h, root, s, x);
    if x != root {
      var u := Up(s, x);
      UpFacts(s, x);
      NodeLinks(h, root, s, u);
      SubFacts(s, x);
      SubFacts(s, u);
      var t := Sub(s, u);
      ChildIds(t);
      if LeftOf(t) == Sub(s, x) {
        assert x in Ids(LeftOf(t));
        assert x !in Ids(RightOf(t));
      } else {
        assert x in Ids(RightOf(t));
        assert x !in Ids(LeftOf(t));
      }
    }
  }

  /** `getSibling()` is the root of the other subtree below the parent. */
  lemma {:induction false} SiblingInTree(h: Heap, root: Ptr, s: Shape, x: Ptr)
    requires Tree(h, root, s) && x in Ids(s) && x != root
    ensures ParentKnown(h, x) && GetSibling(h, x).Ok?
    ensures var u := Up(s, x); var t := Sub(s, u); var sib := GetSibling(h, x).value;
      && sib == Root(if GetDir(h, x) == 0 then RightOf(t) else LeftOf(t))
      && sib != x
      && (sib != Null ==> sib in Ids(s) && Up(s, sib) == u && Sub(s, sib) != Sub(s, x))
  {
    DirInTree(h, root, s, x);
    NodeLinks(h, root, s, x);
    var u := Up(s, x);
    UpFacts(s, x);
    NodeLinks(h, root, s, u);
    SubChildren(s, u);
    SubFacts(s, u);
    SubFacts(s, x);
    var t := Sub(s, u);
    ChildIds(t);
    assert Distinct(t);
  }

  /** `getUncle()` is the parent's sibling. */
  lemma {:induction false} UncleInTree(h: Heap, root: Ptr, s: Shape, x: Ptr)
    requires Tree(h, root, s) && x in Ids(s) && x in h && x != root && h[x].parent != root
    ensures GrandparentKnown(h, x)
    ensures h[x].parent != Null && h[x].parent in Ids(s) && h[x].parent != root
    ensures GetSibling(h, h[x].parent) == Ok(GetUncle(h, x))
  {
    NodeLinks(h, root, s, x);
    NodeLinks(h, root, s, h[x].parent);
  }

  /** The child link on side `dir` of a tree node leads to the root of
      that side of its subtree. */
  lemma {:induction false} ChildLink(h: Heap, root: Ptr, s: Shape, x: Ptr, dir: int)
    requires Tree(h, root, s) && x in Ids(s) && (dir == 0 || dir == 1)
    ensures x in h && Sub(s, x).Branch? && Sub(s, x).id == x && Child(h[x], dir) == Root(Side(Sub(s, x), dir))
    ensures Child(h[x], dir) == Null <==> Side(Sub(s, x), dir).Leaf?
    ensures Child(h[x], dir) != Null ==>
      Child(h[x], dir) in Ids(s) && Sub(s, Child(h[x], dir)) == Side(Sub(s, x), dir)
      && Size(Sub(s, Child(h[x], dir))) < Size(Sub(s, x))
      && Child(h[x], dir) in h && h[Child(h[x], dir)].parent == x
  {
    NodeLinks(h, root, s, x);
    ChildIds(Sub(s, x));
    ModelsBasics(h, root, Null, s);
    SubFacts(s, x);
    if dir == 0 {
      assert Child(h[x], dir) == h[x].left && Side(Sub(s, x), dir) == LeftOf(Sub(s, x));
    } else {
      assert Child(h[x], dir) == h[x].right && Side(Sub(s, x), dir) == RightOf(Sub(s, x));
    }
  }

  // ---------------------------------------------------------------------
  // getOnSurface
  // ---------------------------------------------------------------------

  /** The heap has every record a rotation of `x` above its parent reads. */
  ghost predicate Rotatable(h: Heap, x: Ptr) {
    && ParentKnown(h, x) && h[x].parent != Null
    && var p := h[x].parent;
    && var b := Child(h[x], 1 - GetDir(h, x));
    && (b != Null ==> b in h)
    && (h[p].parent != Null ==> h[p].parent in h)
  }

  /** The records after `getOnSurface()`, written by the source's own
      sequence of stores (lines 98-113). */
  function RotatedHeap(h: Heap, x: Ptr): (h': Heap)
    requires Rotatable(h, x)
    ensures h'.Keys == h.Keys
  {
    var p := h[x].parent;
    var i := GetDir(h, x);
    var b := Child(h[x], 1 - i);
    var h1 := h[p := WithChild(h[p], i, b)];
    var h2 := if b != Null then h1[b := h1[b].(parent := p)] else h1;
    var h3 := h2[x := WithChild(h2[x], 1 - i, p)];
    var h4 := h3[x := h3[x].(parent := h3[p].parent)];
    var up := Child(h4[x], 1 - i);
    var h5 := h4[up := h4[up].(parent := x)];
    var g := h5[x].parent;
    if g == Null then h5
    else
      var j := if Child(h5[g], i) != Child(h5[x], 1 - i) then 1 - i else i;
      h5[g := WithChild(h5[g], j, x)]
  }

  /** When the nodes involved are distinct, as they are in a tree, the
      rotation rewrites four records and no others. */
  lemma {:induction false} RotatedHeapRecords(h: Heap, x: Ptr)
    requires Rotatable(h, x)
    requires var p := h[x].parent; var i := GetDir(h, x);
      var b := Child(h[x], 1 - i); var g := h[p].parent;
      && p != x && b != x && b != p && g != x && g != p && (b != Null ==> b != g)
      && (g != Null ==> h[g].left == p || h[g].right == p)
      && (g != Null ==> h[g].left != h[g].right)
    ensures var p := h[x].parent; var i := GetDir(h, x);
      var b := Child(h[x], 1 - i); var g := h[p].parent; var h' := RotatedHeap(h, x);
      && h'[x] == WithChild(h[x], 1 - i, p).(parent := g)
      && h'[p] == WithChild(h[p], i, b).(parent := x)
      && (b != Null ==> h'[b] == h[b].(parent := p))
      && (g != Null ==> h'[g] == WithChild(h[g], if h[g].left == p then 0 else 1, x))
      && (forall q :: q in h && q != x && q != p && q != b && q != g ==> h'[q] == h[q])
  {
  }

  /** A rotation moves links only: every node keeps its colour. */
  lemma {:induction false} RotatedColours(h: Heap, x: Ptr)
    requires Rotatable(h, x)
    ensures forall q :: q in h ==> RotatedHeap(h, x)[q].red == h[q].red
  {
  }

  /** `getOnSurface()` on a non-root node of a tree performs the rotation
      `Rotate` of its shape: the in-order sequence, the node set, the values
      and the colours all stay as they were. */
  lemma {:induction false} RotatePreserves(h: Heap, root: Ptr, s: Shape, y: Ptr)
    requires Tree(h, root, s) && y in Ids(s) && y != root
    ensures Rotatable(h, y)
    ensures Tree(RotatedHeap(h, y), Root(Rotate(s, y)), Rotate(s, y))
    ensures Seq(Rotate(s, y)) == Seq(s) && Ids(Rotate(s, y)) == Ids(s)
    ensures Root(Rotate(s, y)) == if h[y].parent == root then y else root
    ensures forall q :: q in h ==>
      RotatedHeap(h, y)[q].value == h[q].value && RotatedHeap(h, y)[q].red == h[q].red
  {
    RotatedModels(h, root, s, y);
    ModelsBasics(h, root, Null, s);
    RotateFacts(s, y);
    RotatedHeapKeeps(h, y);
  }

  /** The records after the rotation model the rotated shape. */
  lemma {:induction false} RotatedModels(h: Heap, root: Ptr, s: Shape, y: Ptr)
    requires Tree(h, root, s) && y in Ids(s) && y != root
    ensures Rotatable(h, y)
    ensures Models(RotatedHeap(h, y), Root(Rotate(s, y)), Null, Rotate(s, y))
    ensures Root(Rotate(s, y)) == if h[y].parent == root then y else root
  {
    var z, g, t := RotationSite(h, root, s, y);
    RotatedHeapRecords(h, y);
    var h' := RotatedHeap(h, y);
    var t' := RotateLocal(t, y);
    var b := Child(h[y], 1 - GetDir(h, y));
    if GetDir(h, y) == 0 {
      SameOutside(h, h', y, z, g, t.left.left, t.left.right, t.right);
      RotateLeftChildModels(h, h', y, z, g, t.left.left, t.left.right, t.right);
    } else {
      SameOutside(h, h', y, z, g, t.right.right, t.right.left, t.left);
      RotateRightChildModels(h, h', y, z, g, t.left, t.right.left, t.right.right);
    }
    RotateLocalFacts(t, y);
    RotateReplace(h, h', root, s, y, z, g, b, t, t');
    ModelsBasics(h, root, Null, s);
    ReplaceAtIds(s, z, t');
  }

  /** A rotation moves links only: values and colours stay. */
  lemma {:induction false} RotatedHeapKeeps(h: Heap, x: Ptr)
    requires Rotatable(h, x)
    ensures forall q :: q in h ==>
      RotatedHeap(h, x)[q].value == h[q].value && RotatedHeap(h, x)[q].red == h[q].red
  {
  }

  /** The neighbourhood of a rotation inside a tree. */
  lemma {:induction false} RotationSite(h: Heap, root: Ptr, s: Shape, y: Ptr) returns (z: Ptr, g: Ptr, t: Shape)
    requires Tree(h, root, s) && y in Ids(s) && y != root
    ensures Rotatable(h, y) && Null !in Ids(s) && Ids(s) <= h.Keys
    ensures z == h[y].parent && z == Up(s, y) && z in Ids(s) && g == h[z].parent && t == Sub(s, z)
    ensures g == Null <==> z == root
    ensures g != Null ==> g == Up(s, z) && g in Ids(s)
    ensures Models(h, z, g, t) && Distinct(t) && t.Branch? && t.id == z && g !in Ids(t) && Ids(t) <= h.Keys && Null !in Ids(t)
    ensures GetDir(h, y) == 0 || GetDir(h, y) == 1
    ensures GetDir(h, y) == 0 ==> t.left.Branch? && t.left.id == y && h[y].right == Root(t.left.right)
    ensures GetDir(h, y) == 1 ==>
      t.right.Branch? && t.right.id == y && h[y].left == Root(t.right.left) && !(t.left.Branch? && t.left.id == y)
    ensures var b := Child(h[y], 1 - GetDir(h, y));
      && z != y && b != y && b != z && g != y && g != z && (b != Null ==> b != g && b in Ids(t))
      && (g != Null ==> h[g].left == z || h[g].right == z)
      && (g != Null ==> h[g].left != h[g].right)
  {
    NodeLinks(h, root, s, y);
    DirInTree(h, root, s, y);
    z := h[y].parent;
    NodeLinks(h, root, s, z);
    UpFacts(s, y);
    t := Sub(s, z);
    g := h[z].parent;
    SubFacts(s, z);
    SubFacts(s, y);
    ChildIds(t);
    ChildIds(Sub(s, y));
    if g != Null {
      UpFacts(s, z);
      SubFacts(s, g);
      ChildIds(Sub(s, g));
      NodeLinks(h, root, s, g);
    }
    var b := Child(h[y], 1 - GetDir(h, y));
    if b != Null {
      NodeLinks(h, root, s, b);
    }
  }

  /** The rotated records, put back in the surrounding tree. */
  lemma {:induction false} RotateReplace(h: Heap, h': Heap, root: Ptr, s: Shape, y: Ptr, z: Ptr, g: Ptr, b: Ptr, t: Shape, t': Shape)
    requires Tree(h, root, s) && Ids(s) <= h.Keys && Null !in Ids(s) && h'.Keys == h.Keys
    requires z in Ids(s) && t == Sub(s, z) && g == h[z].parent
    requires g == Null <==> z == root
    requires g != Null ==> g == Up(s, z) && g in Ids(s)
    requires y in Ids(t) && (b == Null || b in Ids(t))
    requires Ids(t') == Ids(t) && Distinct(t') && Root(t') == y
    requires Models(h', y, g, t')
    requires forall q :: q in h && q != y && q != z && q != b && q != g ==> h'[q] == h[q]
    requires g != Null ==> h'[g] == WithChild(h[g], if h[g].left == z then 0 else 1, y)
    ensures Models(h', Root(ReplaceAt(s, z, t')), Null, ReplaceAt(s, z, t'))
  {
    ModelsBasics(h, root, Null, s);
    SubFacts(s, z);
    forall q | q in Ids(s) - Ids(t) && q != Up(s, z)
      ensures q in h && q in h' && h'[q] == h[q]
    {
    }
    assert g != Null ==> h'[g].parent == h[g].parent;
    assert ReplaceReady(h, h', root, Null, s, z, t');
    ReplaceModels(h, h', root, Null, s, z, t');
  }

  lemma {:induction false} RotateLeftChildModels(h: Heap, h': Heap, y: Ptr, z: Ptr, g: Ptr, a: Shape, b: Shape, c: Shape)
    requires Models(h, z, g, Branch(Branch(a, y, b), z, c)) && Distinct(Branch(Branch(a, y, b), z, c))
    requires g !in Ids(Branch(Branch(a, y, b), z, c))
    requires Ids(Branch(Branch(a, y, b), z, c)) <= h.Keys && h'.Keys == h.Keys
    requires h'[y] == h[y].(right := z, parent := g)
    requires h'[z] == h[z].(left := Root(b), parent := y)
    requires Root(b) != Null ==> Root(b) in h && h'[Root(b)] == h[Root(b)].(parent := z)
    requires forall q :: q in Ids(a) ==> q in h && q in h' && h'[q] == h[q]
    requires forall q :: q in Ids(c) ==> q in h && q in h' && h'[q] == h[q]
    requires forall q :: q in Ids(b) && q != Root(b) ==> q in h && q in h' && h'[q] == h[q]
    ensures Models(h', y, g, Branch(a, y, Branch(b, z, c)))
  {
    ModelsBasics(h, h[y].left, y, a);
    ModelsBasics(h, h[y].right, y, b);
    ModelsBasics(h, h[z].right, z, c);
    ModelsSame(h, h', h[y].left, y, a);
    ModelsReparent(h, h', h[y].right, y, z, b);
    ModelsSame(h, h', h[z].right, z, c);
  }

  lemma {:induction false} RotateRightChildModels(h: Heap, h': Heap, y: Ptr, z: Ptr, g: Ptr, c: Shape, b: Shape, a: Shape)
    requires Models(h, z, g, Branch(c, z, Branch(b, y, a))) && Distinct(Branch(c, z, Branch(b, y, a)))
    requires g !in Ids(Branch(c, z, Branch(b, y, a)))
    requires Ids(Branch(c, z, Branch(b, y, a))) <= h.Keys && h'.Keys == h.Keys
    requires h'[y] == h[y].(left := z, parent := g)
    requires h'[z] == h[z].(right := Root(b), parent := y)
    requires Root(b) != Null ==> Root(b) in h && h'[Root(b)] == h[Root(b)].(parent := z)
    requires forall q :: q in Ids(a) ==> q in h && q in h' && h'[q] == h[q]
    requires forall q :: q in Ids(c) ==> q in h && q in h' && h'[q] == h[q]
    requires forall q :: q in Ids(b) && q != Root(b) ==> q in h && q in h' && h'[q] == h[q]
    ensures Models(h', y, g, Branch(Branch(c, z, b), y, a))
  {
    ModelsBasics(h, h[y].right, y, a);
    ModelsBasics(h, h[y].left, y, b);
    ModelsBasics(h, h[z].left, z, c);
    ModelsSame(h, h', h[y].right, y, a);
    ModelsReparent(h, h', h[y].left, y, z, b);
    ModelsSame(h, h', h[z].left, z, c);
  }

  /** Below a rotation, the records of the outer subtrees `a` and `c` and
      all but the root of the middle one `b` are untouched. */
  lemma {:induction false} SameOutside(h: Heap, h': Heap, y: Ptr, z: Ptr, g: Ptr, a: Shape, b: Shape, c: Shape)
    requires Ids(a) <= h.Keys && Ids(b) <= h.Keys && Ids(c) <= h.Keys && h'.Keys == h.Keys
    requires y !in Ids(a) && z !in Ids(a) && g !in Ids(a) && Null !in Ids(a)
    requires y !in Ids(b) && z !in Ids(b) && g !in Ids(b)
    requires y !in Ids(c) && z !in Ids(c) && g !in Ids(c) && Null !in Ids(c)
    requires Ids(a) !! Ids(b) && Ids(b) !! Ids(c)
    requires forall q :: q in h && q != y && q != z && q != Root(b) && q != g ==> h'[q] == h[q]
    ensures forall q :: q in Ids(a) ==> q in h && q in h' && h'[q] == h[q]
    ensures forall q :: q in Ids(c) ==> q in h && q in h' && h'[q] == h[q]
    ensures forall q :: q in Ids(b) && q != Root(b) ==> q in h && q in h' && h'[q] == h[q]
  {
    assert Root(b) != Null ==> Root(b) in Ids(b);
  }

  /** A subtree whose records are all unchanged is still modelled. */
  lemma {:induction false} ModelsSame(h: Heap, h': Heap, p: Ptr, par: Ptr, s: Shape)
    requires Models(h, p, par, s)
    requires forall q :: q in Ids(s) ==> q in h && q in h' && h'[q] == h[q]
    ensures Models(h', p, par, s)
    decreases s
  {
    match s
    case Leaf =>
    case Branch(l, x, r) =>
      ModelsSame(h, h', h[x].left, x, l);
      ModelsSame(h, h', h[x].right, x, r);
  }

  /** A subtree whose root alone now points to another parent. */
  lemma {:induction false} ModelsReparent(h: Heap, h': Heap, p: Ptr, par: Ptr, par': Ptr, s: Shape)
    requires Models(h, p, par, s) && Distinct(s)
    requires p != Null ==> p in h' && h'[p] == h[p].(parent := par')
    requires forall q :: q in Ids(s) && q != p ==> q in h && q in h' && h'[q] == h[q]
    ensures Models(h', p, par', s)
  {
    match s
    case Leaf =>
    case Branch(l, x, r) =>
      ModelsSame(h, h', h[x].left, x, l);
      ModelsSame(h, h', h[x].right, x, r);
  }

  // ---------------------------------------------------------------------
  // stealLinks
  // ---------------------------------------------------------------------

  /** The heap has every record `dst.stealLinks(src)` reads. */
  ghost predicate Stealable(h: Heap, dst: Ptr, src: Ptr) {
    && dst in h && ParentKnown(h, src)
    && (h[src].left != Null ==> h[src].left in h)
    && (h[src].right != Null ==> h[src].right in h)
  }

  /** The records after `dst.stealLinks(src)`, by the source's own sequence
      of stores (lines 119-129): `dst` takes `src`'s links and colour but
      keeps its own value. */
  function StolenHeap(h: Heap, dst: Ptr, src: Ptr): (h': Heap)
    requires Stealable(h, dst, src)
    ensures h'.Keys == h.Keys
  {
    var n := h[dst].(parent := h[src].parent, left := h[src].left, right := h[src].right, red := h[src].red);
    var h1 := h[dst := n];
    var l := h1[dst].left;
    var h2 := if l != Null then h1[l := h1[l].(parent := dst)] else h1;
    var r := h2[dst].right;
    var h3 := if r != Null then h2[r := h2[r].(parent := dst)] else h2;
    var p := h3[dst].parent;
    if p == Null || h3[src].parent == Null || h3[src].parent !in h3 then h3
    else h3[p := WithChild(h3[p], if GetDir(h3, src) == 0 then 0 else 1, dst)]
  }

  /** `stealLinks` gives `dst` the colour of `src` and recolours no other
      node. */
  lemma {:induction false} StolenColours(h: Heap, dst: Ptr, src: Ptr)
    requires Stealable(h, dst, src)
    ensures StolenHeap(h, dst, src)[dst].red == h[src].red
    ensures forall q :: q in h && q != dst ==> StolenHeap(h, dst, src)[q].red == h[q].red
  {
  }

  /** With distinct nodes, `stealLinks` rewrites `dst` and the three
      neighbours of `src`, and nothing else. */
  lemma {:induction false} StolenHeapRecords(h: Heap, dst: Ptr, src: Ptr)
    requires Stealable(h, dst, src)
    requires var n := h[src]; var l, r, p := n.left, n.right, n.parent;
      && dst != src && dst != l && dst != r && dst != p
      && src != l && src != r && src != p
      && (l != Null ==> l != r && l != p) && (r != Null ==> r != p)
    ensures var n := h[src]; var l, r, p := n.left, n.right, n.parent; var h' := StolenHeap(h, dst, src);
      && h'[dst] == h[dst].(parent := p, left := l, right := r, red := n.red)
      && (l != Null ==> h'[l] == h[l].(parent := dst))
      && (r != Null ==> h'[r] == h[r].(parent := dst))
      && (p != Null ==> h'[p] == WithChild(h[p], if h[p].left == src then 0 else 1, dst))
      && (forall q :: q in h && q != dst && q != l && q != r && q != p ==> h'[q] == h[q])
  {
  }

  /** `dst.stealLinks(src)` with a fresh `dst` puts `dst` in `src`'s place:
      the shape is relabelled, `src` becomes unreachable, `dst` takes `src`'s
      colour and every value stays with its node. */
  lemma {:induction false} StealPreserves(h: Heap, root: Ptr, s: Shape, dst: Ptr, src: Ptr)
    requires Tree(h, root, s) && src in Ids(s) && dst in h && dst != Null && dst !in Ids(s)
    ensures Stealable(h, dst, src)
    ensures Tree(StolenHeap(h, dst, src), Root(Relabel(s, src, dst)), Relabel(s, src, dst))
    ensures var h' := StolenHeap(h, dst, src);
      && h'[dst].value == h[dst].value && h'[dst].red == h[src].red
      && (forall q :: q in h && q != dst ==> h'[q].value == h[q].value && h'[q].red == h[q].red)
      && (forall q :: q in h && q != dst && q != h[src].left && q != h[src].right && q != h[src].parent ==> h'[q] == h[q])
  {
    var t := StealSite(h, root, s, dst, src);
    StolenHeapRecords(h, dst, src);
    StolenHeapKeeps(h, dst, src);
    var h' := StolenHeap(h, dst, src);
    var n := h[src];
    ChildrenSame(h, h', dst, n.parent, t.left, t.right);
    StealLocal(h, h', src, dst, n.parent, t.left, t.right);
    var t' := Branch(t.left, dst, t.right);
    var a, b := RelabelFacts(s, src, dst);
    ReplaceAtIds(s, src, t');
    StealReplace(h, h', root, s, src, dst, n.left, n.right, t, t');
  }

  /** The neighbourhood of `src` inside a tree. */
  lemma {:induction false} StealSite(h: Heap, root: Ptr, s: Shape, dst: Ptr, src: Ptr) returns (t: Shape)
    requires Tree(h, root, s) && src in Ids(s) && dst in h && dst != Null && dst !in Ids(s)
    ensures Stealable(h, dst, src) && Null !in Ids(s) && Ids(s) <= h.Keys
    ensures t == Sub(s, src) && t.Branch? && t.id == src && Distinct(t) && Ids(t) <= Ids(s)
    ensures Models(h, h[src].left, src, t.left) && Models(h, h[src].right, src, t.right)
    ensures h[src].left == Root(t.left) && h[src].right == Root(t.right)
    ensures h[src].parent == Null <==> src == root
    ensures h[src].parent != Null ==> h[src].parent == Up(s, src) && h[src].parent in Ids(s) && h[src].parent !in Ids(t)
    ensures var n := h[src]; var l, r, p := n.left, n.right, n.parent;
      && dst != src && dst != l && dst != r && dst != p
      && src != l && src != r && src != p
      && (l != Null ==> l != r && l != p) && (r != Null ==> r != p)
  {
    NodeLinks(h, root, s, src);
    var n := h[src];
    t := Sub(s, src);
    SubFacts(s, src);
    ChildIds(t);
    if n.parent != Null {
      NodeLinks(h, root, s, n.parent);
      UpFacts(s, src);
      SubFacts(s, n.parent);
      ChildIds(Sub(s, n.parent));
    }
    if n.left != Null {
      NodeLinks(h, root, s, n.left);
    }
    if n.right != Null {
      NodeLinks(h, root, s, n.right);
    }
  }

  /** `dst`, holding `src`'s links, heads `src`'s two subtrees. */
  lemma {:induction false} StealLocal(h: Heap, h': Heap, src: Ptr, dst: Ptr, p: Ptr, a: Shape, b: Shape)
    requires Models(h, Root(a), src, a) && Models(h, Root(b), src, b) && Distinct(a) && Distinct(b)
    requires dst in h' && h'[dst].parent == p && h'[dst].left == Root(a) && h'[dst].right == Root(b)
    requires Root(a) != Null ==> Root(a) in h && Root(a) in h' && h'[Root(a)] == h[Root(a)].(parent := dst)
    requires Root(b) != Null ==> Root(b) in h && Root(b) in h' && h'[Root(b)] == h[Root(b)].(parent := dst)
    requires forall q :: q in Ids(a) && q != Root(a) ==> q in h && q in h' && h'[q] == h[q]
    requires forall q :: q in Ids(b) && q != Root(b) ==> q in h && q in h' && h'[q] == h[q]
    ensures Models(h', dst, p, Branch(a, dst, b))
  {
    ModelsReparent(h, h', Root(a), src, dst, a);
    ModelsReparent(h, h', Root(b), src, dst, b);
  }

  /** Below `dst`, only the roots of the two subtrees change. */
  lemma {:induction false} ChildrenSame(h: Heap, h': Heap, dst: Ptr, p: Ptr, a: Shape, b: Shape)
    requires Ids(a) + Ids(b) <= h.Keys && h'.Keys == h.Keys && Ids(a) !! Ids(b)
    requires dst !in Ids(a) && p !in Ids(a) && dst !in Ids(b) && p !in Ids(b)
    requires Null !in Ids(a) && Null !in Ids(b)
    requires forall q :: q in h && q != dst && q != Root(a) && q != Root(b) && q != p ==> h'[q] == h[q]
    ensures forall q :: q in Ids(a) && q != Root(a) ==> q in h && q in h' && h'[q] == h[q]
    ensures forall q :: q in Ids(b) && q != Root(b) ==> q in h && q in h' && h'[q] == h[q]
  {
    assert Root(a) != Null ==> Root(a) in Ids(a);
    assert Root(b) != Null ==> Root(b) in Ids(b);
  }

  /** The relabelled records, put back in the surrounding tree. */
  lemma {:induction false} StealReplace(h: Heap, h': Heap, root: Ptr, s: Shape, src: Ptr, dst: Ptr, l: Ptr, r: Ptr, t: Shape, t': Shape)
    requires Tree(h, root, s) && Ids(s) <= h.Keys && Null !in Ids(s) && h'.Keys == h.Keys
    requires src in Ids(s) && t == Sub(s, src)
    requires h[src].parent == Null <==> src == root
    requires h[src].parent != Null ==> h[src].parent == Up(s, src) && h[src].parent in Ids(s)
    requires (l == Null || l in Ids(t)) && (r == Null || r in Ids(t)) && dst !in Ids(s)
    requires Ids(t') !! (Ids(s) - Ids(t)) && Root(t') == dst
    requires Models(h', dst, h[src].parent, t')
    requires forall q :: q in h && q != dst && q != l && q != r && q != h[src].parent ==> h'[q] == h[q]
    requires h[src].parent != Null ==>
      h'[h[src].parent] == WithChild(h[h[src].parent], if h[h[src].parent].left == src then 0 else 1, dst)
    ensures Models(h', Root(ReplaceAt(s, src, t')), Null, ReplaceAt(s, src, t'))
  {
    ModelsBasics(h, root, Null, s);
    SubFacts(s, src);
    var p := h[src].parent;
    forall q | q in Ids(s) - Ids(t) && q != Up(s, src)
      ensures q in h && q in h' && h'[q] == h[q]
    {
    }
    assert p != Null ==> h'[p].parent == h[p].parent;
    assert ReplaceReady(h, h', root, Null, s, src, t');
    ReplaceModels(h, h', root, Null, s, src, t');
  }

  /** `stealLinks` gives `dst` the colour of `src`; it moves no value and
      recolours nothing else. */
  lemma {:induction false} StolenHeapKeeps(h: Heap, dst: Ptr, src: Ptr)
    requires Stealable(h, dst, src)
    ensures var h' := StolenHeap(h, dst, src);
      && h'[dst].value == h[dst].value && h'[dst].red == h[src].red
      && (forall q :: q in h && q != dst ==> h'[q].value == h[q].value && h'[q].red == h[q].red)
  {
  }

  // ---------------------------------------------------------------------
  // The node arena
  // ---------------------------------------------------------------------

  /** The allocator and the nodes it has handed out. Indices are never
      reused, so a fresh node never aliases a live one. */
  class NodeStore {
    var nodes: Heap
    var next: Ptr

    ghost predicate Valid()
      reads this
    {
      0 <= next && forall q :: q in nodes ==> 0 <= q < next
    }

    constructor()
      ensures Valid() && nodes == map[]
    {
      nodes := map[];
      next := 0;
    }

    /** `allocator.allocate(1)` followed by `allocator.construct(p, n)`. */
    method Allocate(n: Node) returns (p: Ptr)
      requires Valid()
      modifies this
      ensures Valid() && p != Null && p !in old(nodes) && nodes == old(nodes)[p := n]
    {
      p := next;
      nodes := nodes[p := n];
      next := next + 1;
    }

    /** `allocator.destroy(p)` followed by `allocator.deallocate(p, 1)`. */
    method Deallocate(p: Ptr)
      requires Valid() && p in nodes
      modifies this
      ensures Valid() && nodes == old(nodes) - {p}
    {
      nodes := nodes - {p};
    }

    /** `getOnSurface()`: `x` rises above its parent; `range_error` when it
        has none, and then nothing changes. */
    method GetOnSurface(x: Ptr) returns (ok: bool)
      requires x in nodes && (nodes[x].parent != Null ==> Rotatable(nodes, x))
      modifies this
      ensures ok <==> old(nodes[x].parent) != Null
      ensures nodes == if ok then RotatedHeap(old(nodes), x) else old(nodes)
      ensures next == old(next)
    {
      var p := nodes[x].parent;
      if p == Null {
        return false;
      }
      var i := GetDir(nodes, x);
      var b := Child(nodes[x], 1 - i);
      nodes := nodes[p := WithChild(nodes[p], i, b)];
      if b != Null {
        nodes := nodes[b := nodes[b].(parent := p)];
      }
      nodes := nodes[x := WithChild(nodes[x], 1 - i, p)];
      nodes := nodes[x := nodes[x].(parent := nodes[p].parent)];
      var up := Child(nodes[x], 1 - i);
      nodes := nodes[up := nodes[up].(parent := x)];
      var g := nodes[x].parent;
      if g == Null {
        return true;
      }
      if Child(nodes[g], i) != Child(nodes[x], 1 - i) {
        i := 1 - i;
      }
      nodes := nodes[g := WithChild(nodes[g], i, x)];
      return true;
    }

    /** `dst.stealLinks(src)`. */
    method StealLinks(dst: Ptr, src: Ptr)
      requires Stealable(nodes, dst, src)
      modifies this
      ensures nodes == StolenHeap(old(nodes), dst, src)
      ensures next == old(next)
    {
      var n := nodes[dst].(parent := nodes[src].parent, left := nodes[src].left,
                           right := nodes[src].right, red := nodes[src].red);
      nodes := nodes[dst := n];
      var l := nodes[dst].left;
      if l != Null {
        nodes := nodes[l := nodes[l].(parent := dst)];
      }
      var r := nodes[dst].right;
      if r != Null {
        nodes := nodes[r := nodes[r].(parent := dst)];
      }
      var p := nodes[dst].parent;
      if p != Null && nodes[src].parent != Null && nodes[src].parent in nodes {
        nodes := nodes[p := WithChild(nodes[p], if GetDir(nodes, src) == 0 then 0 else 1, dst)];
      }
    }

    /** `isOuterGrandchild()`: whether `x` hangs on the same side of its
        parent as the parent of its grandparent; `range_error` without a
        grandparent. */
    method IsOuterGrandchild(x: Ptr) returns (r: Checked<bool>)
      requires GrandparentKnown(nodes, x)
      ensures r.RangeError? <==> nodes[x].parent == Null || nodes[nodes[x].parent].parent == Null
      ensures r.Ok? ==> var p := nodes[x].parent; var g := nodes[p].parent;
        (r.value <==> exists i :: 0 <= i < 2 && Child(nodes[g], i) == p && Child(nodes[p], i) == x)
    {
      var p := nodes[x].parent;
      if p == Null || nodes[p].parent == Null {
        return RangeError;
      }
      var g := nodes[p].parent;
      for i := 0 to 2
        invariant forall k :: 0 <= k < i ==> !(Child(nodes[g], k) == p && Child(nodes[p], k) == x)
      {
        if Child(nodes[g], i) == p && Child(nodes[p], i) == x {
          return Ok(true);
        }
      }
      return Ok(false);
    }
  }

  /** Inside a tree, a node is an outer grandchild exactly when it and its
      parent hang on the same side. */
  lemma {:induction false} OuterGrandchildInTree(h: Heap, root: Ptr, s: Shape, x: Ptr)
    requires Tree(h, root, s) && x in Ids(s) && x in h && x != root && h[x].parent != root
    ensures GrandparentKnown(h, x)
    ensures h[x].parent != Null && h[h[x].parent].parent != Null
    ensures var p := h[x].parent; var g := h[p].parent;
      (exists i :: 0 <= i < 2 && Child(h[g], i) == p && Child(h[p], i) == x)
      <==> GetDir(h, x) == GetDir(h, p)
  {
    NodeLinks(h, root, s, x);
    var p := h[x].parent;
    NodeLinks(h, root, s, p);
    var g := h[p].parent;
    NodeLinks(h, root, s, g);
    var dx, dp := GetDir(h, x), GetDir(h, p);
    assert Child(h[g], dp) == p && Child(h[p], dx) == x;
    if dx == dp {
      assert 0 <= dx < 2;
    }
  }
}
