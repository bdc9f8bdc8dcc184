/**
 * Abstract shapes of the tree engine's node graph.
 *
 * A `Shape` records which node (by arena index) sits where, and nothing
 * else: no values, no colours. The node-level and tree-level modules tie
 * their arena of node records to a shape (`TreeNode.Models`) and state
 * every structural operation of the engine as an operation on shapes:
 * a rotation, a splice, a leaf attachment, or one node taking another's
 * place. The in-order sequence of node indices, `Seq`, is what the
 * iterator walks and what rotations must not change.
 */
module TreeShape {

  /** An arena index; `Null` plays the role of the null pointer. */
  type Ptr = int
  const Null: Ptr := -1

  datatype Shape = Leaf | Branch(left: Shape, id: Ptr, right: Shape)

  function Root(s: Shape): Ptr {
    if s.Leaf? then Null else s.id
  }

  function Ids(s: Shape): set<Ptr> {
    match s
    case Leaf => {}
    case Branch(l, x, r) => Ids(l) + {x} + Ids(r)
  }

  function Size(s: Shape): nat {
    match s
    case Leaf => 0
    case Branch(l, _, r) => Size(l) + 1 + Size(r)
  }

  /** The in-order sequence of node indices. */
  function Seq(s: Shape): seq<Ptr> {
    match s
    case Leaf => []
    case Branch(l, x, r) => Seq(l) + [x] + Seq(r)
  }

  function LeftOf(t: Shape): Shape {
    if t.Leaf? then Leaf else t.left
  }

  function RightOf(t: Shape): Shape {
    if t.Leaf? then Leaf else t.right
  }

  /** Every node occurs once, and no node is `Null`. */
  ghost predicate Distinct(s: Shape) {
    match s
    case Leaf => true
    case Branch(l, x, r) =>
      x != Null && x !in Ids(l) && x !in Ids(r) && Ids(l) !! Ids(r) && Distinct(l) && Distinct(r)
  }

  predicate NoDup(q: seq<Ptr>) {
    forall i, j :: 0 <= i < j < |q| ==> q[i] != q[j]
  }

  /** The subtree whose root is `x` (a leaf when `x` is absent). */
  function Sub(s: Shape, x: Ptr): Shape {
    match s
    case Leaf => Leaf
    case Branch(l, y, r) =>
      if y == x then s else if x in Ids(l) then Sub(l, x) else Sub(r, x)
  }

  /** The node whose child `x` is, or `Null` for the root. */
  function Up(s: Shape, x: Ptr): Ptr {
    match s
    case Leaf => Null
    case Branch(l, y, r) =>
      if (l.Branch? && l.id == x) || (r.Branch? && r.id == x) then y
      else if x in Ids(l) then Up(l, x)
      else Up(r, x)
  }

  /** The number of links between the root and `x`. */
  function Depth(s: Shape, x: Ptr): nat {
    match s
    case Leaf => 0
    case Branch(l, y, r) =>
      if y == x then 0 else if x in Ids(l) then 1 + Depth(l, x) else 1 + Depth(r, x)
  }

  /** `s` with the subtree rooted at `x` replaced by `t`. */
  function ReplaceAt(s: Shape, x: Ptr, t: Shape): Shape {
    match s
    case Leaf => Leaf
    case Branch(l, y, r) =>
      if y == x then t
      else if x in Ids(l) then Branch(ReplaceAt(l, x, t), y, r)
      else if x in Ids(r) then Branch(l, y, ReplaceAt(r, x, t))
      else s
  }

  // ---------------------------------------------------------------------
  // The local transformations of the engine, each applied at one subtree
  // ---------------------------------------------------------------------

  /** Child `y` of the subtree root rises above it: a right rotation when `y`
      is the left child, a left rotation when it is the right child. */
  function RotateLocal(t: Shape, y: Ptr): Shape {
    match t
    case Leaf => Leaf
    case Branch(l, z, r) =>
      if l.Branch? && l.id == y then Branch(l.left, y, Branch(l.right, z, r))
      else if r.Branch? && r.id == y then Branch(Branch(l, z, r.left), y, r.right)
      else t
  }

  /** The rotation performed by `getOnSurface` on node `y`. */
  function Rotate(s: Shape, y: Ptr): Shape {
    ReplaceAt(s, Up(s, y), RotateLocal(Sub(s, Up(s, y)), y))
  }

  /** Node `dst` takes the place of node `src` (the splice of `stealLinks`). */
  function Relabel(s: Shape, src: Ptr, dst: Ptr): Shape {
    var t := Sub(s, src);
    ReplaceAt(s, src, Branch(LeftOf(t), dst, RightOf(t)))
  }

  /** Node `x` is cut out and its child subtree (left if present) moves up. */
  function Splice(s: Shape, x: Ptr): Shape {
    var t := Sub(s, x);
    ReplaceAt(s, x, if LeftOf(t).Leaf? then RightOf(t) else LeftOf(t))
  }

  /** A new leaf node `n` hangs below `d`, on the left when `dir == 0`. */
  function Attach(s: Shape, d: Ptr, dir: int, n: Ptr): Shape {
    var t := Sub(s, d);
    var leaf := Branch(Leaf, n, Leaf);
    ReplaceAt(s, d, if dir == 0 then Branch(leaf, d, RightOf(t)) else Branch(LeftOf(t), d, leaf))
  }

  // ---------------------------------------------------------------------
  // Positions in an in-order sequence; `Null` is the past-the-end position
  // ---------------------------------------------------------------------

  function IndexOf(q: seq<Ptr>, x: Ptr): (k: nat)
    requires x in q
    ensures k < |q| && q[k] == x && x !in q[..k]
  {
    if q[0] == x then 0 else 1 + IndexOf(q[1..], x)
  }

  /** In-order successor of `x`; from `Null` it is the first node. */
  function Next(q: seq<Ptr>, x: Ptr): (r: Ptr)
    requires x == Null || x in q
    ensures r == Null || r in q
  {
    if x == Null then (if q == [] then Null else q[0])
    else if IndexOf(q, x) + 1 < |q| then q[IndexOf(q, x) + 1]
    else Null
  }

  /** In-order predecessor of `x`; from `Null` it is the last node. */
  function Prev(q: seq<Ptr>, x: Ptr): (r: Ptr)
    requires x == Null || x in q
    ensures r == Null || r in q
  {
    if x == Null then (if q == [] then Null else q[|q| - 1])
    else if IndexOf(q, x) > 0 then q[IndexOf(q, x) - 1]
    else Null
  }

  // ---------------------------------------------------------------------
  // Lemmas
  // ---------------------------------------------------------------------

  lemma {:induction false} SeqFacts(s: Shape)
    ensures |Seq(s)| == Size(s)
    ensures forall x :: x in Seq(s) <==> x in Ids(s)
    ensures Distinct(s) ==> NoDup(Seq(s)) && Null !in Ids(s)
  {
    match s
    case Leaf =>
    case Branch(l, y, r) =>
      SeqFacts(l);
      SeqFacts(r);
      if Distinct(s) {
        var q := Seq(s);
        forall i, j | 0 <= i < j < |q| ensures q[i] != q[j] {
          if j < |Seq(l)| || i > |Seq(l)| {
          } else if i < |Seq(l)| && j > |Seq(l)| {
            assert q[i] in Ids(l) && q[j] in Ids(r);
          } else if i == |Seq(l)| {
            assert q[j] in Ids(r);
          } else {
            assert q[i] in Ids(l);
          }
        }
      }
  }

  /** The nodes of the in-order sequence are the nodes of the shape. */
  lemma {:induction false} InSeq(s: Shape, x: Ptr)
    ensures x in Seq(s) <==> x in Ids(s)
  {
    SeqFacts(s);
  }

  lemma {:induction false} SeqSize(s: Shape)
    ensures |Seq(s)| == Size(s)
  {
    match s
    case Leaf =>
    case Branch(l, _, r) =>
      SeqSize(l);
      SeqSize(r);
  }

  lemma {:induction false} IndexOfNoDup(q: seq<Ptr>, k: int)
    requires NoDup(q) && 0 <= k < |q|
    ensures IndexOf(q, q[k]) == k
  {
    if k > 0 {
      assert q[0] != q[k];
      assert q[1..][k - 1] == q[k];
      IndexOfNoDup(q[1..], k - 1);
    }
  }

  /** Stepping forward and then back (or back and then forward) from any
      position of a non-empty in-order sequence returns to it. */
  lemma {:induction false} NextPrevRoundTrip(q: seq<Ptr>, x: Ptr)
    requires NoDup(q) && Null !in q && q != []
    requires x == Null || x in q
    ensures Next(q, x) == Null || Next(q, x) in q
    ensures Prev(q, x) == Null || Prev(q, x) in q
    ensures Prev(q, Next(q, x)) == x
    ensures Next(q, Prev(q, x)) == x
  {
    if x == Null {
      IndexOfNoDup(q, 0);
      IndexOfNoDup(q, |q| - 1);
    } else {
      var k := IndexOf(q, x);
      if k + 1 < |q| {
        IndexOfNoDup(q, k + 1);
      }
      if k > 0 {
        IndexOfNoDup(q, k - 1);
      }
    }
  }

  lemma {:induction false} SubFacts(s: Shape, x: Ptr)
    requires Distinct(s) && x in Ids(s)
    ensures Sub(s, x).Branch? && Sub(s, x).id == x
    ensures Ids(Sub(s, x)) <= Ids(s) && Distinct(Sub(s, x))
    ensures x == Root(s) ==> Sub(s, x) == s
  {
    match s
    case Branch(l, y, r) =>
      if y == x {
      } else if x in Ids(l) {
        SubFacts(l, x);
      } else {
        SubFacts(r, x);
      }
  }

  /** The children of a node's subtree are the subtrees of its children. */
  lemma {:induction false} SubChildren(s: Shape, x: Ptr)
    requires Distinct(s) && x in Ids(s)
    ensures var c := LeftOf(Sub(s, x));
      c.Branch? ==> Sub(s, c.id) == c && Up(s, c.id) == x && Depth(s, c.id) == Depth(s, x) + 1
    ensures var c := RightOf(Sub(s, x));
      c.Branch? ==> Sub(s, c.id) == c && Up(s, c.id) == x && Depth(s, c.id) == Depth(s, x) + 1
  {
    match s
    case Branch(l, y, r) =>
      if y == x {
        if l.Branch? {
          SubFacts(l, l.id);
        }
        if r.Branch? {
          SubFacts(r, r.id);
        }
      } else if x in Ids(l) {
        SubChildren(l, x);
        SubFacts(l, x);
        ChildIds(Sub(l, x));
      } else {
        SubChildren(r, x);
        SubFacts(r, x);
        ChildIds(Sub(r, x));
      }
  }

  lemma {:induction false} SingletonFacts(n: Ptr)
    ensures Seq(Branch(Leaf, n, Leaf)) == [n] && Ids(Branch(Leaf, n, Leaf)) == {n}
    ensures n != Null ==> Distinct(Branch(Leaf, n, Leaf))
  {
    assert Ids(Branch(Leaf, n, Leaf)) == Ids(Leaf) + {n} + Ids(Leaf);
  }

  lemma {:induction false} ChildIds(t: Shape)
    ensures LeftOf(t).Branch? ==> LeftOf(t).id in Ids(t)
    ensures RightOf(t).Branch? ==> RightOf(t).id in Ids(t)
    ensures Ids(LeftOf(t)) <= Ids(t) && Ids(RightOf(t)) <= Ids(t)
  {
  }

  /** Every node but the root hangs below its `Up` node, one level higher. */
  lemma {:induction false} UpFacts(s: Shape, x: Ptr)
    requires Distinct(s) && x in Ids(s) && x != Root(s)
    ensures Up(s, x) in Ids(s)
    ensures LeftOf(Sub(s, Up(s, x))) == Sub(s, x) || RightOf(Sub(s, Up(s, x))) == Sub(s, x)
    ensures Depth(s, Up(s, x)) + 1 == Depth(s, x)
  {
    match s
    case Branch(l, y, r) =>
      if l.Branch? && l.id == x {
        SubFacts(l, x);
      } else if r.Branch? && r.id == x {
        SubFacts(r, x);
      } else if x in Ids(l) {
        UpFacts(l, x);
      } else {
        UpFacts(r, x);
      }
  }

  lemma {:induction false} DepthBound(s: Shape, x: Ptr)
    requires Distinct(s) && x in Ids(s)
    ensures Depth(s, x) < Size(s)
  {
    match s
    case Branch(l, y, r) =>
      if y != x {
        if x in Ids(l) {
          DepthBound(l, x);
        } else {
          DepthBound(r, x);
        }
      }
  }

  /** A subtree occupies one contiguous stretch of the in-order sequence,
      and replacing it replaces exactly that stretch. */
  lemma {:induction false} Contiguous(s: Shape, x: Ptr, t: Shape)
    returns (a: seq<Ptr>, b: seq<Ptr>)
    requires x in Ids(s)
    ensures Seq(s) == a + Seq(Sub(s, x)) + b
    ensures Seq(ReplaceAt(s, x, t)) == a + Seq(t) + b
  {
    match s
    case Branch(l, y, r) =>
      if y == x {
        a, b := [], [];
      } else if x in Ids(l) {
        var a', b' := Contiguous(l, x, t);
        a, b := a', b' + [y] + Seq(r);
        ContiguousStep(a', Seq(Sub(l, x)), b', [y] + Seq(r));
        ContiguousStep(a', Seq(t), b', [y] + Seq(r));
      } else {
        var a', b' := Contiguous(r, x, t);
        a, b := Seq(l) + [y] + a', b';
        ContiguousStep(Seq(l) + [y], a', Seq(Sub(r, x)), b');
        ContiguousStep(Seq(l) + [y], a', Seq(t), b');
      }
  }

  lemma {:induction false} ContiguousStep(p: seq<Ptr>, q: seq<Ptr>, u: seq<Ptr>, v: seq<Ptr>)
    ensures (p + q + u) + v == p + q + (u + v)
    ensures p + (q + u + v) == (p + q) + u + v
  {
  }

  lemma {:induction false} ReplaceAtIds(s: Shape, x: Ptr, t: Shape)
    requires Distinct(s) && x in Ids(s)
    ensures Ids(ReplaceAt(s, x, t)) == (Ids(s) - Ids(Sub(s, x))) + Ids(t)
    ensures Distinct(t) && Ids(t) !! (Ids(s) - Ids(Sub(s, x))) ==> Distinct(ReplaceAt(s, x, t))
    ensures x == Root(s) ==> ReplaceAt(s, x, t) == t
    ensures x != Root(s) ==> Root(ReplaceAt(s, x, t)) == Root(s)
  {
    match s
    case Branch(l, y, r) =>
      if y == x {
      } else if x in Ids(l) {
        ReplaceAtIds(l, x, t);
        SubFacts(l, x);
      } else {
        ReplaceAtIds(r, x, t);
        SubFacts(r, x);
      }
  }

  /** Below the replaced subtree's root, depths grow by the depth of that root. */
  lemma {:induction false} ReplaceAtDepth(s: Shape, x: Ptr, t: Shape, q: Ptr)
    requires Distinct(s) && x in Ids(s) && q in Ids(t)
    requires Distinct(t) && Ids(t) !! (Ids(s) - Ids(Sub(s, x)))
    ensures q in Ids(ReplaceAt(s, x, t))
    ensures Depth(ReplaceAt(s, x, t), q) == Depth(s, x) + Depth(t, q)
  {
    ReplaceAtIds(s, x, t);
    match s
    case Branch(l, y, r) =>
      if y == x {
      } else if x in Ids(l) {
        SubFacts(l, x);
        ReplaceAtDepth(l, x, t, q);
        ReplaceAtIds(l, x, t);
      } else {
        SubFacts(r, x);
        ReplaceAtDepth(r, x, t, q);
        ReplaceAtIds(r, x, t);
      }
  }

  /** Depth within a subtree adds to the depth of that subtree's root. */
  lemma {:induction false} SubDepth(s: Shape, x: Ptr, q: Ptr)
    requires Distinct(s) && x in Ids(s) && q in Ids(Sub(s, x))
    ensures q in Ids(s) && Depth(s, q) == Depth(s, x) + Depth(Sub(s, x), q)
  {
    SubFacts(s, x);
    match s
    case Branch(l, y, r) =>
      if y == x {
      } else if x in Ids(l) {
        SubFacts(l, x);
        SubDepth(l, x, q);
      } else {
        SubFacts(r, x);
        SubDepth(r, x, q);
      }
  }

  /** A local rotation keeps the in-order sequence and the node set. */
  lemma {:induction false} RotateLocalFacts(t: Shape, y: Ptr)
    ensures Seq(RotateLocal(t, y)) == Seq(t)
    ensures Ids(RotateLocal(t, y)) == Ids(t)
    ensures Distinct(t) ==> Distinct(RotateLocal(t, y))
  {
    match t
    case Leaf =>
    case Branch(l, z, r) =>
      if l.Branch? && l.id == y {
        RotateRightwards(l.left, y, l.right, z, r);
      } else if r.Branch? && r.id == y {
        RotateRightwards(l, z, r.left, y, r.right);
      }
  }

  /** The two sides of one rotation, `((a y b) z c)` and `(a y (b z c))`. */
  lemma {:induction false} RotateRightwards(a: Shape, y: Ptr, b: Shape, z: Ptr, c: Shape)
    ensures Seq(Branch(Branch(a, y, b), z, c)) == Seq(Branch(a, y, Branch(b, z, c)))
    ensures Ids(Branch(Branch(a, y, b), z, c)) == Ids(Branch(a, y, Branch(b, z, c)))
    ensures Distinct(Branch(Branch(a, y, b), z, c)) <==> Distinct(Branch(a, y, Branch(b, z, c)))
  {
    var p, q, m, r, u := Seq(a), [y], Seq(b), [z], Seq(c);
    assert (p + q + m) + r + u == p + q + (m + r + u);
  }

  /** A rotation keeps the in-order sequence, the node set and distinctness. */
  lemma {:induction false} RotateFacts(s: Shape, y: Ptr)
    requires Distinct(s) && y in Ids(s) && y != Root(s)
    ensures Seq(Rotate(s, y)) == Seq(s)
    ensures Ids(Rotate(s, y)) == Ids(s)
    ensures Distinct(Rotate(s, y))
  {
    var z := Up(s, y);
    UpFacts(s, y);
    SubFacts(s, z);
    var t := Sub(s, z);
    RotateLocalFacts(t, y);
    var a, b := Contiguous(s, z, RotateLocal(t, y));
    ReplaceAtIds(s, z, RotateLocal(t, y));
  }

  /** Relabelling replaces one index of the in-order sequence. */
  lemma {:induction false} RelabelFacts(s: Shape, src: Ptr, dst: Ptr) returns (a: seq<Ptr>, b: seq<Ptr>)
    requires Distinct(s) && src in Ids(s) && dst != Null && dst !in Ids(s)
    ensures Seq(s) == a + [src] + b && Seq(Relabel(s, src, dst)) == a + [dst] + b
    ensures Ids(Relabel(s, src, dst)) == Ids(s) - {src} + {dst}
    ensures Distinct(Relabel(s, src, dst))
    ensures Root(Relabel(s, src, dst)) == if src == Root(s) then dst else Root(s)
  {
    SubFacts(s, src);
    var t := Sub(s, src);
    var t' := Branch(t.left, dst, t.right);
    assert Distinct(t') && Ids(t') == Ids(t) - {src} + {dst};
    assert Relabel(s, src, dst) == ReplaceAt(s, src, t');
    a, b := RelabelSeq(s, src, t, t', dst);
    ReplaceAtIds(s, src, t');
  }

  lemma {:induction false} RelabelSeq(s: Shape, src: Ptr, t: Shape, t': Shape, dst: Ptr) returns (a: seq<Ptr>, b: seq<Ptr>)
    requires src in Ids(s) && t == Sub(s, src) && t.Branch? && t.id == src
    requires t' == Branch(t.left, dst, t.right)
    ensures Seq(s) == a + [src] + b && Seq(ReplaceAt(s, src, t')) == a + [dst] + b
  {
    var a', b' := Contiguous(s, src, t');
    a, b := a' + Seq(t.left), Seq(t.right) + b';
    Regroup(a', Seq(t.left), [src], Seq(t.right), b');
    Regroup(a', Seq(t.left), [dst], Seq(t.right), b');
  }

  lemma {:induction false} SpliceFacts(s: Shape, x: Ptr) returns (a: seq<Ptr>, b: seq<Ptr>)
    requires Distinct(s) && x in Ids(s)
    requires LeftOf(Sub(s, x)).Leaf? || RightOf(Sub(s, x)).Leaf?
    ensures Seq(s) == a + [x] + b && Seq(Splice(s, x)) == a + b
    ensures Ids(Splice(s, x)) == Ids(s) - {x}
    ensures Distinct(Splice(s, x))
  {
    SubFacts(s, x);
    var t := Sub(s, x);
    var c := if t.left.Leaf? then t.right else t.left;
    assert Distinct(c) && Ids(c) == Ids(t) - {x};
    assert Splice(s, x) == ReplaceAt(s, x, c);
    a, b := SpliceSeq(s, x, t, c);
    ReplaceAtIds(s, x, c);
  }

  lemma {:induction false} SpliceSeq(s: Shape, x: Ptr, t: Shape, c: Shape) returns (a: seq<Ptr>, b: seq<Ptr>)
    requires x in Ids(s) && t == Sub(s, x) && t.Branch? && t.id == x
    requires c == if t.left.Leaf? then t.right else t.left
    requires t.left.Leaf? || t.right.Leaf?
    ensures Seq(s) == a + [x] + b && Seq(ReplaceAt(s, x, c)) == a + b
  {
    var a', b' := Contiguous(s, x, c);
    if t.left.Leaf? {
      a, b := a', Seq(t.right) + b';
      Regroup(a', [], [x], Seq(t.right), b');
    } else {
      a, b := a' + Seq(t.left), b';
      Regroup(a', Seq(t.left), [x], [], b');
    }
  }

  lemma {:induction false} AttachLocal(t: Shape, d: Ptr, dir: int, n: Ptr) returns (t': Shape)
    requires Distinct(t) && t.Branch? && t.id == d && n != Null && n !in Ids(t)
    requires dir == 0 ==> t.left.Leaf?
    requires dir != 0 ==> t.right.Leaf?
    ensures t' == if dir == 0 then Branch(Branch(Leaf, n, Leaf), d, t.right)
                  else Branch(t.left, d, Branch(Leaf, n, Leaf))
    ensures Seq(t') == if dir == 0 then [n, d] + Seq(t.right) else Seq(t.left) + [d, n]
    ensures Ids(t') == Ids(t) + {n} && Distinct(t')
  {
    SingletonFacts(n);
    if dir == 0 {
      t' := Branch(Branch(Leaf, n, Leaf), d, t.right);
    } else {
      t' := Branch(t.left, d, Branch(Leaf, n, Leaf));
    }
  }

  lemma {:induction false} AttachFacts(s: Shape, d: Ptr, dir: int, n: Ptr) returns (a: seq<Ptr>, b: seq<Ptr>)
    requires Distinct(s) && d in Ids(s) && n != Null && n !in Ids(s)
    requires dir == 0 ==> LeftOf(Sub(s, d)).Leaf?
    requires dir != 0 ==> RightOf(Sub(s, d)).Leaf?
    ensures Seq(s) == a + [d] + b
    ensures Seq(Attach(s, d, dir, n)) == if dir == 0 then a + [n, d] + b else a + [d, n] + b
    ensures Ids(Attach(s, d, dir, n)) == Ids(s) + {n}
    ensures Distinct(Attach(s, d, dir, n))
  {
    SubFacts(s, d);
    var t := Sub(s, d);
    var t' := AttachLocal(t, d, dir, n);
    assert Attach(s, d, dir, n) == ReplaceAt(s, d, t');
    a, b := AttachSeq(s, d, t, t', dir, n);
    ReplaceAtIds(s, d, t');
  }

  lemma {:induction false} AttachSeq(s: Shape, d: Ptr, t: Shape, t': Shape, dir: int, n: Ptr) returns (a: seq<Ptr>, b: seq<Ptr>)
    requires d in Ids(s) && t == Sub(s, d) && t.Branch? && t.id == d
    requires dir == 0 ==> t.left.Leaf? && Seq(t') == [n, d] + Seq(t.right)
    requires dir != 0 ==> t.right.Leaf? && Seq(t') == Seq(t.left) + [d, n]
    ensures Seq(s) == a + [d] + b
    ensures Seq(ReplaceAt(s, d, t')) == if dir == 0 then a + [n, d] + b else a + [d, n] + b
  {
    var a', b' := Contiguous(s, d, t');
    a, b := a' + Seq(t.left), Seq(t.right) + b';
    Regroup(a', Seq(t.left), [d], Seq(t.right), b');
    if dir == 0 {
      Regroup(a', [], [n, d], Seq(t.right), b');
    } else {
      Regroup(a', Seq(t.left), [d, n], [], b');
    }
  }

  lemma {:induction false} Regroup(p: seq<Ptr>, q: seq<Ptr>, m: seq<Ptr>, r: seq<Ptr>, u: seq<Ptr>)
    ensures p + (q + m + r) + u == (p + q) + m + (r + u)
  {
  }

  /** In a sequence without repetitions, the position of an element is
      determined by any decomposition around it. */
  lemma {:induction false} IndexOfSplit(a: seq<Ptr>, x: Ptr, b: seq<Ptr>)
    requires NoDup(a + [x] + b)
    ensures IndexOf(a + [x] + b, x) == |a|
  {
    IndexOfNoDup(a + [x] + b, |a|);
  }

  // ---------------------------------------------------------------------
  // In-order neighbours, seen from the links
  // ---------------------------------------------------------------------

  /** The child subtree on side `dir` (0 left, 1 right). */
  function Side(t: Shape, dir: int): Shape {
    if dir == 0 then LeftOf(t) else RightOf(t)
  }

  /** The first (`dir` 0) or last (`dir` 1) element of a sequence. */
  function Edge(q: seq<Ptr>, dir: int): Ptr
    requires q != []
  {
    if dir == 0 then q[0] else q[|q| - 1]
  }

  /** One step along the in-order sequence: forward is `Next`, backward `Prev`. */
  function Step(q: seq<Ptr>, x: Ptr, forward: bool): Ptr
    requires x == Null || x in q
  {
    if forward then Next(q, x) else Prev(q, x)
  }

  /** The extreme node of a subtree on side `dir` is its own root when that
      side is empty, and otherwise the extreme node of that side. */
  lemma {:induction false} EdgeOf(t: Shape, dir: int)
    requires t.Branch? && (dir == 0 || dir == 1)
    ensures Seq(t) != []
    ensures Side(t, dir).Leaf? ==> Edge(Seq(t), dir) == t.id
    ensures Side(t, dir).Branch? ==> Seq(Side(t, dir)) != [] && Edge(Seq(t), dir) == Edge(Seq(Side(t, dir)), dir)
  {
    SeqFacts(Side(t, dir));
    assert Seq(t) == Seq(t.left) + [t.id] + Seq(t.right);
  }

  /** The neighbours of `x` in a sequence without repetitions. */
  lemma {:induction false} NeighboursInSplit(u: seq<Ptr>, x: Ptr, v: seq<Ptr>)
    requires NoDup(u + [x] + v) && x != Null
    ensures x in u + [x] + v
    ensures Next(u + [x] + v, x) == if v == [] then Null else v[0]
    ensures Prev(u + [x] + v, x) == if u == [] then Null else u[|u| - 1]
  {
    var q := u + [x] + v;
    assert q[|u|] == x;
    IndexOfSplit(u, x, v);
    var k := IndexOf(q, x);
    assert k == |u|;
    if v != [] {
      assert q[k + 1] == v[0];
    }
    if u != [] {
      assert q[k - 1] == u[|u| - 1];
    }
  }

  /** A non-empty sequence split at either end. */
  lemma {:induction false} EdgeSplit(q: seq<Ptr>)
    requires q != []
    ensures q == q[..|q| - 1] + [Edge(q, 1)]
    ensures q == [Edge(q, 0)] + q[1..]
  {
  }

  lemma {:induction false} StepDownForward(q: seq<Ptr>, u: seq<Ptr>, x: Ptr, r: seq<Ptr>, b: seq<Ptr>)
    requires q == u + [x] + (r + b) && NoDup(q) && x != Null && r != []
    ensures x in q && Next(q, x) == Edge(r, 0)
  {
    NeighboursInSplit(u, x, r + b);
    assert (r + b)[0] == r[0];
  }

  lemma {:induction false} StepDownBackward(q: seq<Ptr>, a: seq<Ptr>, l: seq<Ptr>, x: Ptr, v: seq<Ptr>)
    requires q == (a + l) + [x] + v && NoDup(q) && x != Null && l != []
    ensures x in q && Prev(q, x) == Edge(l, 1)
  {
    NeighboursInSplit(a + l, x, v);
    assert (a + l)[|a + l| - 1] == l[|l| - 1];
  }

  lemma {:induction false} StepUpForward(q: seq<Ptr>, a: seq<Ptr>, w: seq<Ptr>, p: Ptr, v: seq<Ptr>, x: Ptr)
    requires q == (a + w) + [p] + v && NoDup(q) && w != [] && x == Edge(w, 1) && x != Null
    ensures x in q && Next(q, x) == p
  {
    EdgeSplit(w);
    var w' := w[..|w| - 1];
    assert q == (a + w') + [x] + ([p] + v);
    NeighboursInSplit(a + w', x, [p] + v);
  }

  lemma {:induction false} StepUpBackward(q: seq<Ptr>, u: seq<Ptr>, p: Ptr, w: seq<Ptr>, b: seq<Ptr>, x: Ptr)
    requires q == u + [p] + (w + b) && NoDup(q) && w != [] && x == Edge(w, 0) && x != Null
    ensures x in q && Prev(q, x) == p
  {
    EdgeSplit(w);
    var w' := w[1..];
    assert q == (u + [p]) + [x] + (w' + b);
    NeighboursInSplit(u + [p], x, w' + b);
  }

  /** The whole in-order sequence around a node `x`: what precedes its
      subtree, its two sides, and what follows. */
  lemma {:induction false} AroundNode(s: Shape, x: Ptr) returns (a: seq<Ptr>, b: seq<Ptr>)
    requires Distinct(s) && x in Ids(s)
    ensures Seq(s) == a + Seq(Sub(s, x)) + b
    ensures Seq(s) == (a + Seq(LeftOf(Sub(s, x)))) + [x] + (Seq(RightOf(Sub(s, x))) + b)
    ensures NoDup(Seq(s)) && Null !in Seq(s) && x != Null
  {
    SubFacts(s, x);
    SeqFacts(s);
    a, b := Contiguous(s, x, Sub(s, x));
    var t := Sub(s, x);
    Regroup(a, Seq(t.left), [x], Seq(t.right), b);
  }

  /** With a subtree on side `dir`, the step from `x` in that direction is the
      extreme node of that subtree on the other side. */
  lemma {:induction false} StepDown(s: Shape, x: Ptr, dir: int)
    requires Distinct(s) && x in Ids(s) && (dir == 0 || dir == 1)
    requires Side(Sub(s, x), dir).Branch?
    ensures x in Seq(s) && Seq(Side(Sub(s, x), dir)) != []
    ensures Step(Seq(s), x, dir == 1) == Edge(Seq(Side(Sub(s, x), dir)), 1 - dir)
  {
    var a, b := AroundNode(s, x);
    var t := Sub(s, x);
    SeqFacts(Side(t, dir));
    if dir == 0 {
      StepDownBackward(Seq(s), a, Seq(LeftOf(t)), x, Seq(RightOf(t)) + b);
    } else {
      StepDownForward(Seq(s), a + Seq(LeftOf(t)), x, Seq(RightOf(t)), b);
    }
  }

  /** When `x` is the extreme node on side `dir` of the subtree of `c`, and
      `c` hangs on the other side of its parent, the step from `x` in
      direction `dir` is that parent. */
  lemma {:induction false} StepUp(s: Shape, c: Ptr, x: Ptr, dir: int)
    requires Distinct(s) && c in Ids(s) && c != Root(s) && (dir == 0 || dir == 1)
    requires Sub(s, c).Branch? && Side(Sub(s, Up(s, c)), 1 - dir) == Sub(s, c)
    requires x == Edge(Seq(Sub(s, c)), dir)
    ensures x in Seq(s) && Step(Seq(s), x, dir == 1) == Up(s, c)
  {
    UpFacts(s, c);
    var p := Up(s, c);
    var a, b := AroundNode(s, p);
    var t := Sub(s, p);
    SeqFacts(s);
    SubFacts(s, c);
    assert x in Seq(Sub(s, c));
    SeqFacts(Sub(s, c));
    assert x in Ids(s);
    if dir == 1 {
      StepUpForward(Seq(s), a, Seq(LeftOf(t)), p, Seq(RightOf(t)) + b, x);
    } else {
      StepUpBackward(Seq(s), a + Seq(LeftOf(t)), p, Seq(RightOf(t)), b, x);
    }
  }

  /** The extreme node of the whole tree has no step beyond it. */
  lemma {:induction false} StepOffEnd(s: Shape, x: Ptr, dir: int)
    requires Distinct(s) && s.Branch? && (dir == 0 || dir == 1)
    requires x == Edge(Seq(s), dir)
    ensures x in Seq(s) && Step(Seq(s), x, dir == 1) == Null
  {
    SeqFacts(s);
    EdgeStepNull(Seq(s), dir);
  }

  lemma {:induction false} EdgeStepNull(q: seq<Ptr>, dir: int)
    requires NoDup(q) && q != [] && Null !in q && (dir == 0 || dir == 1)
    ensures Edge(q, dir) in q && Step(q, Edge(q, dir), dir == 1) == Null
  {
    var x := Edge(q, dir);
    if dir == 1 {
      var u := q[..|q| - 1];
      assert q == u + [x] + [];
      NeighboursInSplit(u, x, []);
    } else {
      var v := q[1..];
      assert q == [] + [x] + v;
      NeighboursInSplit([], x, v);
    }
  }
}
