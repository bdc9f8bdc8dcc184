/**
 * The colouring rules of a red-black tree, and recolouring one node.
 *
 * `RedRedFree` is the rule that a red node never hangs below a red one;
 * `Balanced` is the rule that every path from a node down to a null link
 * meets the same number of black links, counting the null link itself as
 * black (`BlackHeight` counts along the leftmost path). These are the two
 * facts `_checkTree` tests.
 */
module TreeColour {
  import opened TreeShape
  import opened TreeNode

  predicate Red(h: Heap, x: Ptr) {
    x in h && h[x].red
  }

  /** No red node of `t` has a red parent; `parentRed` is the colour of the
      node `t` hangs from. */
  ghost predicate RedRedFree(h: Heap, t: Shape, parentRed: bool) {
    match t
    case Leaf => true
    case Branch(l, x, r) =>
      !(Red(h, x) && parentRed) && RedRedFree(h, l, Red(h, x)) && RedRedFree(h, r, Red(h, x))
  }

  /** Black links met from the root of `t` down its leftmost path, the
      final null link included. */
  ghost function BlackHeight(h: Heap, t: Shape): nat {
    match t
    case Leaf => 1
    case Branch(l, x, _) => (if Red(h, x) then 0 else 1) + BlackHeight(h, l)
  }

  /** Every node's two sides have equal black heights. */
  ghost predicate Balanced(h: Heap, t: Shape) {
    match t
    case Leaf => true
    case Branch(l, _, r) => BlackHeight(h, l) == BlackHeight(h, r) && Balanced(h, l) && Balanced(h, r)
  }

  ghost predicate RedBlack(h: Heap, s: Shape) {
    RedRedFree(h, s, false) && Balanced(h, s)
  }

  /** Every record is red, as `insert` leaves them. */
  ghost predicate AllRedHeap(h: Heap) {
    forall q :: q in h ==> h[q].red
  }

  /** With all nodes red, the colour rules hold exactly for the trees of
      at most one node. */
  lemma {:induction false} AllRedVerdict(h: Heap, s: Shape)
    requires forall q :: q in Ids(s) ==> Red(h, q)
    ensures RedBlack(h, s) <==> Size(s) <= 1
  {
    if Size(s) >= 2 {
      var l, x, r := s.left, s.id, s.right;
      ChildIds(s);
      if l.Branch? {
        assert Red(h, l.id) && Red(h, x);
        assert !RedRedFree(h, l, true);
      } else {
        assert r.Branch?;
        assert Red(h, r.id) && Red(h, x);
        assert !RedRedFree(h, r, true);
      }
    } else if s.Branch? {
      assert Size(s.left) == 0 && Size(s.right) == 0;
      assert s.left.Leaf? && s.right.Leaf?;
      assert RedRedFree(h, s, false) && Balanced(h, s);
    }
  }

  /** With balanced sides, every path from the root to a null link meets
      `BlackHeight` black links. */
  lemma {:induction false} BalancedPaths(h: Heap, t: Shape, path: seq<bool>)
    requires Balanced(h, t)
    ensures PathBlacks(h, t, path) == BlackHeight(h, t)
    decreases t
  {
    match t
    case Leaf =>
    case Branch(l, x, r) =>
      if path != [] {
        BalancedPaths(h, if path[0] then r else l, path[1..]);
      } else {
        BalancedPaths(h, l, path);
      }
  }

  /** The converse: when every path from the root meets as many black links
      as the leftmost one, every node's two sides are balanced. */
  lemma {:induction false} UniformPathsBalanced(h: Heap, t: Shape)
    requires forall path :: PathBlacks(h, t, path) == PathBlacks(h, t, [])
    ensures Balanced(h, t)
    decreases t
  {
    match t
    case Leaf =>
    case Branch(l, x, r) =>
      forall p ensures PathBlacks(h, l, p) == PathBlacks(h, l, []) && PathBlacks(h, r, p) == PathBlacks(h, l, []) {
        assert ([false] + p)[1..] == p && ([true] + p)[1..] == p;
        assert PathBlacks(h, t, [false] + p) == PathBlacks(h, t, []);
        assert PathBlacks(h, t, [true] + p) == PathBlacks(h, t, []);
      }
      UniformPathsBalanced(h, l);
      UniformPathsBalanced(h, r);
      LeftmostPath(h, l);
      LeftmostPath(h, r);
  }

  /** `BlackHeight` is the count along the exhausted path. */
  lemma {:induction false} LeftmostPath(h: Heap, t: Shape)
    ensures PathBlacks(h, t, []) == BlackHeight(h, t)
    decreases t
  {
    match t
    case Leaf =>
    case Branch(l, x, r) => LeftmostPath(h, l);
  }

  /** Black links met following `path` (`true` for right) from the root of
      `t` until a null link, the null link included; an exhausted path
      keeps to the left. */
  ghost function PathBlacks(h: Heap, t: Shape, path: seq<bool>): nat {
    match t
    case Leaf => 1
    case Branch(l, x, r) =>
      (if Red(h, x) then 0 else 1)
      + (if path == [] then PathBlacks(h, l, path)
         else PathBlacks(h, if path[0] then r else l, path[1..]))
  }

  /** Colours outside `t` do not matter to its colour rules. */
  lemma {:induction false} ColourFrame(h: Heap, h': Heap, t: Shape)
    requires forall q :: q in Ids(t) ==> Red(h', q) == Red(h, q)
    ensures BlackHeight(h', t) == BlackHeight(h, t) && Balanced(h', t) == Balanced(h, t)
    ensures forall pr :: RedRedFree(h', t, pr) == RedRedFree(h, t, pr)
    decreases t
  {
    match t
    case Leaf =>
    case Branch(l, x, r) =>
      ColourFrame(h, h', l);
      ColourFrame(h, h', r);
  }

  /** The far-nephew case of the deletion rebalance as written: `a` is the
      side of the deleted node, one black short of the black sibling `y`,
      whose far child `f` is red. Once `y` has risen above the parent `p`,
      taken its colour and `p` has turned black, `f` is still red, and the
      far side of the risen subtree is one black short of its near side. */
  lemma {:induction false} FarNephewShortfall(h: Heap, a: Shape, p: Ptr, c: Shape, y: Ptr, f: Shape)
    requires Distinct(Branch(a, p, Branch(c, y, f))) && p in h && y in h
    requires Balanced(h, a) && Balanced(h, Branch(c, y, f)) && !Red(h, y)
    requires f.Branch? && Red(h, f.id)
    requires BlackHeight(h, a) + 1 == BlackHeight(h, Branch(c, y, f))
    ensures var h' := Painted(Painted(h, y, Red(h, p)), p, false);
      BlackHeight(h', Branch(a, p, c)) == BlackHeight(h', f) + 1
    ensures !Balanced(Painted(Painted(h, y, Red(h, p)), p, false), Branch(Branch(a, p, c), y, f))
  {
    var h' := Painted(Painted(h, y, Red(h, p)), p, false);
    ColourFrame(h, h', a);
    ColourFrame(h, h', c);
    ColourFrame(h, h', f);
  }

  /** The same case with the far nephew also turned black: the risen
      subtree keeps the colour rules and the black height the parent's
      subtree had before `a` fell short. */
  lemma {:induction false} FarNephewRepair(h: Heap, a: Shape, p: Ptr, c: Shape, y: Ptr, f: Shape, pr: bool)
    requires Distinct(Branch(a, p, Branch(c, y, f))) && p in h && y in h
    requires Balanced(h, a) && Balanced(h, Branch(c, y, f)) && !Red(h, y)
    requires f.Branch? && f.id in h && Red(h, f.id)
    requires BlackHeight(h, a) + 1 == BlackHeight(h, Branch(c, y, f))
    requires RedRedFree(h, Branch(a, p, Branch(c, y, f)), pr)
    ensures var h' := Painted(Painted(Painted(h, y, Red(h, p)), p, false), f.id, false);
      var t' := Branch(Branch(a, p, c), y, f);
      && RedRedFree(h', t', pr) && Balanced(h', t')
      && BlackHeight(h', t') == BlackHeight(h, Branch(c, y, f)) + (if Red(h, p) then 0 else 1)
  {
    var h' := Painted(Painted(Painted(h, y, Red(h, p)), p, false), f.id, false);
    ColourFrame(h, h', a);
    ColourFrame(h, h', c);
    assert Distinct(Branch(c, y, f)) && Distinct(f);
    ColourFrame(h, h', f.left);
    ColourFrame(h, h', f.right);
    assert RedRedFree(h, Branch(c, y, f), Red(h, p)) && RedRedFree(h, f, false);
    RedRedRelax(h, a, Red(h, p));
    RedRedRelax(h, f.left, true);
    RedRedRelax(h, f.right, true);
  }

  /** The rule below a node does not depend on a black parent. */
  lemma {:induction false} RedRedRelax(h: Heap, t: Shape, pr: bool)
    requires RedRedFree(h, t, pr)
    ensures RedRedFree(h, t, false)
  {
    match t
    case Leaf =>
    case Branch(l, x, r) =>
  }

  /** The records after `x->red = red`. */
  function Painted(h: Heap, x: Ptr, red: bool): (h': Heap)
    requires x in h
    ensures h'.Keys == h.Keys && h'[x].red == red
    ensures forall q :: q in h && q != x ==> h'[q] == h[q]
  {
    h[x := h[x].(red := red)]
  }

  /** Recolouring moves no link and no value. */
  lemma {:induction false} PaintKeepsTree(h: Heap, root: Ptr, s: Shape, x: Ptr, red: bool)
    requires Tree(h, root, s) && x in h
    ensures Tree(Painted(h, x, red), root, s)
    ensures forall q :: q in h ==> Painted(h, x, red)[q].value == h[q].value
  {
    ModelsBasics(h, root, Null, s);
    ModelsFrame(h, Painted(h, x, red), root, Null, Null, s);
  }
}
