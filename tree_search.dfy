/**
 * What the searches of the tree engine find: the stop node of
 * `_findPlaceForInsert` (with and without a hint), and what `find`,
 * `insert`, `lower_bound` and `upper_bound` make of it in an ordered tree.
 */
module TreeSearch {
  import opened Pairs
  import opened TreeShape
  import opened TreeNode
  import opened TreeOrder
  import opened TreeEdit

  /** Where `_findPlaceForInsert(v, hint)` stops, as written: a hint other
      than the root is given up when `v` is less than the hint's value or
      greater than its parent's; otherwise the descent starts at the hint,
      or at the root when there is none. */
  function PlaceFor(h: Heap, s: Shape, v: Pair, hint: Ptr): (p: Ptr)
    ensures p == Land(h, s, v.first) || (hint != Null && p == Land(h, Sub(s, hint), v.first))
    ensures hint != Null && hint != Root(s) && hint in h && Comp(v, Value(h, hint)) ==> p == Land(h, s, v.first)
  {
    if hint != Null && hint != Root(s) && hint in h
       && (Comp(v, Value(h, hint)) || Comp(Value(h, h[hint].parent), v))
    then Land(h, s, v.first)
    else Land(h, if hint == Null then s else Sub(s, hint), v.first)
  }

  /** The same with the parent test strict: the hint is also given up when
      `v` is not less than its parent's value. */
  function PlaceForIntended(h: Heap, s: Shape, v: Pair, hint: Ptr): (p: Ptr)
    ensures p == Land(h, s, v.first) || (hint != Null && p == Land(h, Sub(s, hint), v.first))
    ensures hint != Null && hint != Root(s) && hint in h && !Comp(v, Value(h, h[hint].parent)) ==> p == Land(h, s, v.first)
  {
    if hint != Null && hint != Root(s) && hint in h
       && (Comp(v, Value(h, hint)) || !Comp(v, Value(h, h[hint].parent)))
    then Land(h, s, v.first)
    else Land(h, if hint == Null then s else Sub(s, hint), v.first)
  }

  /** The descent stops at a node of the subtree it walks, on the empty
      tree only at `Null`, and at a node whose slot on the side of `k`
      is free unless the node holds `k`. */
  lemma {:induction false} LandStops(h: Heap, t: Shape, par: Ptr, k: int)
    requires Models(h, Root(t), par, t) && Distinct(t)
    ensures Land(h, t, k) == Null <==> t.Leaf?
    ensures t.Branch? ==>
      && Land(h, t, k) in Ids(t) && Land(h, t, k) in h
      && (k < Key(h, Land(h, t, k)) ==> h[Land(h, t, k)].left == Null)
      && (Key(h, Land(h, t, k)) < k ==> h[Land(h, t, k)].right == Null)
    decreases t
  {
    match t
    case Leaf =>
    case Branch(l, x, r) =>
      ModelsBasics(h, h[x].left, x, l);
      ModelsBasics(h, h[x].right, x, r);
      if l.Branch? && k < Key(h, x) {
        LandStops(h, l, x, k);
      } else if r.Branch? && Key(h, x) < k {
        LandStops(h, r, x, k);
      }
  }

  /** The stop node of `_findPlaceForInsert`, with or without a hint, is
      `Null` exactly on the empty tree and otherwise a node of the tree
      whose slot on the side of the value is free unless its key is the
      value's. */
  lemma {:induction false} PlaceStops(h: Heap, root: Ptr, s: Shape, v: Pair, hint: Ptr, intended: bool)
    requires Tree(h, root, s) && (hint == Null || hint in Ids(s))
    ensures var p := if intended then PlaceForIntended(h, s, v, hint) else PlaceFor(h, s, v, hint);
      && (p == Null <==> root == Null)
      && (p != Null ==>
            && p in Ids(s) && p in h
            && (Comp(v, Value(h, p)) ==> h[p].left == Null)
            && (Comp(Value(h, p), v) ==> h[p].right == Null))
  {
    ModelsBasics(h, root, Null, s);
    LandStops(h, s, Null, v.first);
    if hint != Null {
      SubModels(h, root, Null, s, hint);
      SubFacts(s, hint);
      LandStops(h, Sub(s, hint), h[hint].parent, v.first);
    }
  }

  /** One step of the descent of `_findPlaceForInsert` from node `x`. */
  lemma {:induction false} LandStep(h: Heap, root: Ptr, s: Shape, x: Ptr, k: int)
    requires Tree(h, root, s) && x in Ids(s)
    ensures x in h
    ensures Land(h, Sub(s, x), k) ==
      if h[x].left != Null && k < Key(h, x) then Land(h, Sub(s, h[x].left), k)
      else if h[x].right != Null && Key(h, x) < k then Land(h, Sub(s, h[x].right), k)
      else x
    ensures h[x].left != Null ==> h[x].left in Ids(s) && Size(Sub(s, h[x].left)) < Size(Sub(s, x))
    ensures h[x].right != Null ==> h[x].right in Ids(s) && Size(Sub(s, h[x].right)) < Size(Sub(s, x))
  {
    ChildLink(h, root, s, x, 0);
    ChildLink(h, root, s, x, 1);
  }

  /** The descent from the root, or from the subtree of a node, of a tree. */
  lemma {:induction false} LandFrom(h: Heap, root: Ptr, s: Shape, start: Ptr, k: int)
    requires Tree(h, root, s) && (start == Null || start in Ids(s))
    ensures start == root ==> Land(h, if start == Null then Leaf else Sub(s, start), k) == Land(h, s, k)
  {
    ModelsBasics(h, root, Null, s);
    if start != Null {
      SubFacts(s, start);
    }
  }

  /** Where the new leaf sits in the in-order sequence: taking it out gives
      back the old sequence and the old entries, and its entry is `v`. */
  lemma {:induction false} AttachInOrder(h: Heap, root: Ptr, s: Shape, p: Ptr, dir: int, n: Ptr, v: Pair)
    requires Tree(h, root, s) && p in Seq(s) && p in h && (dir == 0 || dir == 1)
    requires Child(h[p], dir) == Null && n != Null && n !in h
    ensures var h', q' := AttachedHeap(h, p, dir, n, v), Seq(Attach(s, p, dir, n));
      && n in q' && RemoveAt(q', IndexOf(q', n)) == Seq(s)
      && Entries(h', q')[IndexOf(q', n)] == v
      && RemoveAt(Entries(h', q'), IndexOf(q', n)) == Entries(h, Seq(s))
  {
    var a, b := InsertionSplit(h, root, s, p, dir, n);
    InsertRegroup(a, n, p, b);
    if dir == 0 {
      InsertedEntry(h, p, dir, n, v, Seq(s), a, [p] + b);
    } else {
      InsertedEntry(h, p, dir, n, v, Seq(s), a + [p], b);
    }
  }

  /** The same on the in-order sequence, with the new node between `u`
      and `w`. */
  lemma {:induction false} InsertedEntry(h: Heap, p: Ptr, dir: int, n: Ptr, v: Pair, q: seq<Ptr>, u: seq<Ptr>, w: seq<Ptr>)
    requires p in h && (dir == 0 || dir == 1) && q == u + w && n !in q && (forall x :: x in q ==> x in h)
    ensures var h', q' := AttachedHeap(h, p, dir, n, v), u + [n] + w;
      && n in q' && RemoveAt(q', IndexOf(q', n)) == q
      && Entries(h', q')[IndexOf(q', n)] == v
      && RemoveAt(Entries(h', q'), IndexOf(q', n)) == Entries(h, q)
  {
    var q' := u + [n] + w;
    IndexOfFirst(u, n, w);
    RemoveSplit(u, n, w);
    var h' := AttachedHeap(h, p, dir, n, v);
    forall j | 0 <= j < |q'| && j != |u| ensures Value(h, q'[j]) == Value(h', q'[j]) {
      if j < |u| {
        assert q'[j] == q[j];
      } else {
        assert q'[j] == q[j - 1];
      }
    }
    EntriesRemove(h', h, q', |u|);
  }

  /** The first occurrence of an element that the prefix lacks. */
  lemma {:induction false} IndexOfFirst(u: seq<Ptr>, x: Ptr, w: seq<Ptr>)
    requires x !in u
    ensures x in u + [x] + w && IndexOf(u + [x] + w, x) == |u|
  {
    if u != [] {
      assert (u + [x] + w)[1..] == u[1..] + [x] + w;
      IndexOfFirst(u[1..], x, w);
    }
  }

  // ---------------------------------------------------------------------
  // In an ordered tree
  // ---------------------------------------------------------------------

  /** In an ordered tree the descent finds the key when the tree holds it:
      the stop node holds `k` exactly when some entry does. */
  lemma {:induction false} LandDecides(h: Heap, root: Ptr, s: Shape, k: int)
    requires Tree(h, root, s) && Ordered(h, s)
    ensures var x := Land(h, s, k);
      KeyAbsent(Entries(h, Seq(s)), k) <==> x == Null || Key(h, x) != k
  {
    LandInTree(h, root, s, k);
    ModelsBasics(h, root, Null, s);
    SeqFacts(s);
    var q := Seq(s);
    var x := Land(h, s, k);
    if x != Null {
      var j := IndexOf(q, x);
      if Key(h, x) == k {
        assert Entries(h, q)[j].first == k;
      } else {
        LandedGap(h, q, x, k);
      }
    }
  }

  /** Beside a stop node that does not hold the key, the key falls in a gap
      of the sorted sequence. */
  lemma {:induction false} LandedGap(h: Heap, q: seq<Ptr>, x: Ptr, k: int)
    requires x in q && x in h && Landed(h, q, x, k) && Key(h, x) != k && Sorted(Entries(h, q))
    ensures KeyAbsent(Entries(h, q), k)
  {
    var j := IndexOf(q, x);
    if k < Key(h, x) {
      AbsentInGap(h, q, j, k);
    } else {
      AbsentInGap(h, q, j + 1, k);
    }
  }

  /** A new leaf hung below a stop node of the descent for its key, on the
      side of that key, lands the value at its sorted position. */
  lemma {:induction false} InsertSorted(h: Heap, root: Ptr, s: Shape, v: Pair, p: Ptr, n: Ptr)
    requires Tree(h, root, s) && Ordered(h, s) && p in Seq(s) && p in h
    requires Landed(h, Seq(s), p, v.first) && Key(h, p) != v.first
    requires n != Null && n !in h
    ensures var dir := if v.first < Key(h, p) then 0 else 1;
      && p in Ids(s) && Child(h[p], dir) == Null
      && Entries(AttachedHeap(h, p, dir, n, v), Seq(Attach(s, p, dir, n))) == SortedInsert(Entries(h, Seq(s)), v)
      && Sorted(SortedInsert(Entries(h, Seq(s)), v))
      && KeyAbsent(Entries(h, Seq(s)), v.first)
  {
    var dir := if v.first < Key(h, p) then 0 else 1;
    var a, b := InsertionSplit(h, root, s, p, dir, n);
    IndexOfSplit(a, p, b);
    var u, w := InsertionGap(h, Seq(s), a, b, p, dir, n, v.first);
    InsertAt(h, Seq(s), u, w, p, dir, n, v);
    LandedGap(h, Seq(s), p, v.first);
  }

  /** The in-order sequence split where the new node goes: after its
      neighbour below and before its neighbour above. */
  lemma {:induction false} InsertionGap(h: Heap, q: seq<Ptr>, a: seq<Ptr>, b: seq<Ptr>, p: Ptr, dir: int, n: Ptr, k: int)
    returns (u: seq<Ptr>, w: seq<Ptr>)
    requires q == a + [p] + b && p in q && IndexOf(q, p) == |a| && p in h
    requires Landed(h, q, p, k) && Key(h, p) != k
    requires dir == if k < Key(h, p) then 0 else 1
    ensures q == u + w && (if dir == 0 then a + [n, p] + b else a + [p, n] + b) == u + [n] + w
    ensures u == [] || Key(h, u[|u| - 1]) < k
    ensures w == [] || k < Key(h, w[0])
  {
    var j := |a|;
    InsertRegroup(a, n, p, b);
    if dir == 0 {
      u, w := a, [p] + b;
      if a != [] {
        assert a[|a| - 1] == q[j - 1];
      }
    } else {
      u, w := a + [p], b;
      if b != [] {
        assert b[0] == q[j + 1];
      }
    }
  }

  lemma {:induction false} InsertRegroup(a: seq<Ptr>, n: Ptr, p: Ptr, b: seq<Ptr>)
    ensures a + [n, p] + b == a + [n] + ([p] + b)
    ensures a + [p, n] + b == (a + [p]) + [n] + b
    ensures a + [p] + b == a + ([p] + b) == (a + [p]) + b
  {
  }

  /** The new node between `u` and `w`, where its key belongs. */
  lemma {:induction false} InsertAt(h: Heap, q: seq<Ptr>, u: seq<Ptr>, w: seq<Ptr>, p: Ptr, dir: int, n: Ptr, v: Pair)
    requires q == u + w && n !in q && p in h && (dir == 0 || dir == 1) && (forall x :: x in q ==> x in h)
    requires Sorted(Entries(h, q))
    requires u == [] || Key(h, u[|u| - 1]) < v.first
    requires w == [] || v.first < Key(h, w[0])
    ensures Entries(AttachedHeap(h, p, dir, n, v), u + [n] + w) == SortedInsert(Entries(h, q), v)
    ensures Sorted(SortedInsert(Entries(h, q), v))
  {
    EntriesAttached(h, q, u, w, p, dir, n, v);
    var eu, ew := Entries(h, u), Entries(h, w);
    assert eu == [] || eu[|eu| - 1].first < v.first;
    assert ew == [] || v.first < ew[0].first;
    InsertBetweenSorted(eu, ew, v);
    SortedInsertBetween(eu, ew, v);
  }

  /** The split of the in-order sequence around the stop node where the new
      leaf goes. */
  lemma {:induction false} InsertionSplit(h: Heap, root: Ptr, s: Shape, p: Ptr, dir: int, n: Ptr) returns (a: seq<Ptr>, b: seq<Ptr>)
    requires Tree(h, root, s) && p in Seq(s) && p in h && (dir == 0 || dir == 1)
    requires Child(h[p], dir) == Null && n != Null && n !in h
    ensures p in Ids(s) && Seq(s) == a + [p] + b && NoDup(Seq(s)) && n !in Seq(s)
    ensures Seq(Attach(s, p, dir, n)) == if dir == 0 then a + [n, p] + b else a + [p, n] + b
    ensures forall q :: q in Seq(s) ==> q in h
  {
    SeqFacts(s);
    NodeLinks(h, root, s, p);
    SubFacts(s, p);
    ChildIds(Sub(s, p));
    a, b := AttachFacts(s, p, dir, n);
  }

  /** The entries of the sequence with the new node between `u` and `w`. */
  lemma {:induction false} EntriesAttached(h: Heap, q: seq<Ptr>, u: seq<Ptr>, w: seq<Ptr>, p: Ptr, dir: int, n: Ptr, v: Pair)
    requires p in h && (dir == 0 || dir == 1) && n !in q && q == u + w
    requires forall x :: x in q ==> x in h
    ensures Entries(AttachedHeap(h, p, dir, n, v), u + [n] + w) == Entries(h, u) + [v] + Entries(h, w)
    ensures Entries(h, q) == Entries(h, u) + Entries(h, w)
  {
    var h' := AttachedHeap(h, p, dir, n, v);
    forall i | 0 <= i < |q| ensures Value(h', q[i]) == Value(h, q[i]) {
      assert q[i] in q;
    }
    forall i | 0 <= i < |u| ensures Value(h', u[i]) == Value(h, u[i]) {
      assert u[i] == q[i];
    }
    forall i | 0 <= i < |w| ensures Value(h', w[i]) == Value(h, w[i]) {
      assert w[i] == q[|u| + i];
    }
    EntriesSame(h, h', u);
    EntriesSame(h, h', w);
    EntriesConcat(h', u + [n], w);
    EntriesConcat(h', u, [n]);
    EntriesConcat(h, u, w);
  }

  /** The reference lower bound sits at a position with all keys before it
      below `k` and the key at it at least `k`. */
  lemma {:induction false} FirstAtLeastIndex(h: Heap, q: seq<Ptr>, k: int) returns (j: int)
    ensures 0 <= j <= |q| && FirstAtLeast(h, q, k) == (if j == |q| then Null else q[j])
    ensures forall i :: 0 <= i < j ==> Key(h, q[i]) < k
    ensures j < |q| ==> Key(h, q[j]) >= k
  {
    if q == [] {
      j := 0;
    } else if Key(h, q[0]) >= k {
      j := 0;
    } else {
      var j' := FirstAtLeastIndex(h, q[1..], k);
      j := j' + 1;
    }
  }

  /** `lower_bound` in an ordered tree: the stop node when its key is not
      less than `k`, otherwise the node after it. */
  lemma {:induction false} LowerBoundSpec(h: Heap, root: Ptr, s: Shape, k: int)
    requires Tree(h, root, s) && Ordered(h, s)
    ensures var x := Land(h, s, k);
      && (x == Null || x in Seq(s))
      && FirstAtLeast(h, Seq(s), k) == if x == Null || Key(h, x) >= k then x else Next(Seq(s), x)
  {
    LandInTree(h, root, s, k);
    ModelsBasics(h, root, Null, s);
    SeqFacts(s);
    var q := Seq(s);
    var x := Land(h, s, k);
    if x != Null {
      var j := IndexOf(q, x);
      IndexOfNoDup(q, j);
      if Key(h, x) >= k {
        if j > 0 {
          assert Entries(h, q)[j - 1].first < Entries(h, q)[j].first;
        }
        FirstAtLeastAt(h, q, j, k);
      } else {
        FirstAtLeastAt(h, q, j + 1, k);
      }
    } else {
      FirstAtLeastAt(h, q, 0, k);
    }
  }

  /** `upper_bound` from `lower_bound` in a sorted sequence: one step
      further when the lower bound holds `k` itself. */
  lemma {:induction false} UpperBoundSpec(h: Heap, q: seq<Ptr>, k: int)
    requires Sorted(Entries(h, q)) && NoDup(q) && Null !in q
    ensures var lb := FirstAtLeast(h, q, k);
      FirstAbove(h, q, k) == if lb != Null && Key(h, lb) == k then Next(q, lb) else lb
  {
    var j := FirstAtLeastIndex(h, q, k);
    var es := Entries(h, q);
    if j == |q| {
      FirstAboveAt(h, q, j, k);
    } else {
      IndexOfNoDup(q, j);
      if Key(h, q[j]) == k {
        if j + 1 < |q| {
          assert es[j].first < es[j + 1].first;
        }
        FirstAboveAt(h, q, j + 1, k);
      } else {
        FirstAboveAt(h, q, j, k);
      }
    }
  }

  /** A hint that the strict test keeps is a left child whose subtree's
      stretch of the ordered sequence brackets the key, so the descent
      from it stops where the descent from the root could. */
  lemma {:induction false} HintWindow(h: Heap, root: Ptr, s: Shape, hint: Ptr, k: int)
    requires Tree(h, root, s) && Ordered(h, s) && hint in Ids(s) && hint != root && hint in h
    requires h[hint].parent in h && Key(h, hint) <= k < Key(h, h[hint].parent)
    ensures var x := Land(h, Sub(s, hint), k);
      x in Seq(s) && x in h && Landed(h, Seq(s), x, k)
  {
    var lo, hi, i := HintStretch(h, root, s, hint);
    var q := Seq(s);
    var es := Entries(h, q);
    if GetDir(h, hint) == 1 {
      assert false;
    }
    if lo > 0 && i > 0 {
      assert es[lo - 1].first < es[lo + i].first;
    }
    LandWindow(h, q, Sub(s, hint), h[hint].parent, lo, hi, k);
  }

  /** The stretch of the in-order sequence that the subtree of a non-root
      node occupies, with its parent just after it when it is a left child
      and just before it when it is a right child. */
  lemma {:induction false} HintStretch(h: Heap, root: Ptr, s: Shape, x: Ptr) returns (lo: int, hi: int, i: int)
    requires Tree(h, root, s) && x in Ids(s) && x != root
    ensures x in h && h[x].parent != Null && ParentKnown(h, x) && (GetDir(h, x) == 0 || GetDir(h, x) == 1)
    ensures Models(h, Root(Sub(s, x)), h[x].parent, Sub(s, x)) && Distinct(Sub(s, x)) && NoDup(Seq(s))
    ensures 0 <= lo <= lo + i < hi == lo + |Seq(Sub(s, x))| <= |Seq(s)|
    ensures Seq(s)[lo..hi] == Seq(Sub(s, x)) && Seq(s)[lo + i] == x
    ensures GetDir(h, x) == 0 ==> hi < |Seq(s)| && Seq(s)[hi] == h[x].parent
    ensures GetDir(h, x) == 1 ==> lo > 0 && Seq(s)[lo - 1] == h[x].parent
  {
    NodeLinks(h, root, s, x);
    DirInTree(h, root, s, x);
    SubFacts(s, x);
    SeqFacts(s);
    UpFacts(s, x);
    if GetDir(h, x) == 0 {
      lo, hi, i := LeftChildStretch(s, x);
    } else {
      lo, hi, i := RightChildStretch(s, x);
    }
  }

  /** The stretch of a left child on the shape alone. */
  lemma {:induction false} LeftChildStretch(s: Shape, x: Ptr) returns (lo: int, hi: int, i: int)
    requires Distinct(s) && x in Ids(s) && x != Root(s)
    requires LeftOf(Sub(s, Up(s, x))) == Sub(s, x)
    ensures 0 <= lo <= lo + i < hi == lo + |Seq(Sub(s, x))| < |Seq(s)|
    ensures Seq(s)[lo..hi] == Seq(Sub(s, x)) && Seq(s)[lo + i] == x && Seq(s)[hi] == Up(s, x)
  {
    var p := Up(s, x);
    UpFacts(s, x);
    var a, l, r, b := Around(s, p);
    var u := Sub(s, x);
    SubFacts(s, x);
    RootInSeq(u);
    lo, hi, i := LeftStretch(Seq(s), a, Seq(l), p, Seq(r) + b, x);
  }

  /** The stretch of a right child on the shape alone. */
  lemma {:induction false} RightChildStretch(s: Shape, x: Ptr) returns (lo: int, hi: int, i: int)
    requires Distinct(s) && x in Ids(s) && x != Root(s)
    requires RightOf(Sub(s, Up(s, x))) == Sub(s, x)
    ensures 0 < lo <= lo + i < hi == lo + |Seq(Sub(s, x))| <= |Seq(s)|
    ensures Seq(s)[lo..hi] == Seq(Sub(s, x)) && Seq(s)[lo + i] == x && Seq(s)[lo - 1] == Up(s, x)
  {
    var p := Up(s, x);
    UpFacts(s, x);
    var a, l, r, b := Around(s, p);
    var u := Sub(s, x);
    SubFacts(s, x);
    RootInSeq(u);
    lo, hi, i := RightStretch(Seq(s), a + Seq(l), p, Seq(r), b, x);
  }

  /** The in-order sequence around the parent of a non-root node. */
  lemma {:induction false} Around(s: Shape, p: Ptr) returns (a: seq<Ptr>, l: Shape, r: Shape, b: seq<Ptr>)
    requires Distinct(s) && p in Ids(s)
    ensures l == LeftOf(Sub(s, p)) && r == RightOf(Sub(s, p))
    ensures Seq(s) == (a + Seq(l)) + [p] + (Seq(r) + b)
  {
    SubFacts(s, p);
    var c, d := Contiguous(s, p, Leaf);
    a, b := c, d;
    var t := Sub(s, p);
    l, r := LeftOf(t), RightOf(t);
    assert Seq(t) == Seq(l) + [p] + Seq(r);
    Regroup(a, Seq(l), [p], Seq(r), b);
  }

  lemma {:induction false} RootInSeq(u: Shape)
    requires u.Branch?
    ensures u.id in Seq(u) && Seq(u)[|Seq(u.left)|] == u.id
  {
  }

  lemma {:induction false} LeftStretch(q: seq<Ptr>, a: seq<Ptr>, m: seq<Ptr>, p: Ptr, c: seq<Ptr>, x: Ptr) returns (lo: int, hi: int, i: int)
    requires q == (a + m) + [p] + c && x in m
    ensures 0 <= lo <= lo + i < hi == lo + |m| < |q| && q[lo..hi] == m && q[lo + i] == x && q[hi] == p
  {
    lo, hi, i := |a|, |a| + |m|, IndexOf(m, x);
    assert q == a + m + ([p] + c);
    Window(a, m, [p] + c);
  }

  lemma {:induction false} RightStretch(q: seq<Ptr>, c: seq<Ptr>, p: Ptr, m: seq<Ptr>, b: seq<Ptr>, x: Ptr) returns (lo: int, hi: int, i: int)
    requires q == c + [p] + (m + b) && x in m
    ensures 0 < lo <= lo + i < hi == lo + |m| <= |q| && q[lo..hi] == m && q[lo + i] == x && q[lo - 1] == p
  {
    lo, hi, i := |c| + 1, |c| + 1 + |m|, IndexOf(m, x);
    assert q == (c + [p]) + m + b;
    Window(c + [p], m, b);
  }

  /** The middle stretch of a concatenation, and its neighbours. */
  lemma {:induction false} Window(a: seq<Ptr>, m: seq<Ptr>, b: seq<Ptr>)
    ensures (a + m + b)[|a|..|a| + |m|] == m
    ensures b != [] ==> (a + m + b)[|a| + |m|] == b[0]
    ensures a != [] ==> (a + m + b)[|a| - 1] == a[|a| - 1]
    ensures a + m + b == a + (m + b)
  {
  }

  /** With the strict test, the hinted descent in an ordered tree stops
      where a descent for the key may stop. */
  lemma {:induction false} PlaceIntendedLanded(h: Heap, root: Ptr, s: Shape, v: Pair, hint: Ptr)
    requires Tree(h, root, s) && Ordered(h, s) && (hint == Null || hint in Ids(s))
    ensures var x := PlaceForIntended(h, s, v, hint);
      x != Null ==> x in Seq(s) && x in h && Landed(h, Seq(s), x, v.first)
  {
    LandInTree(h, root, s, v.first);
    ModelsBasics(h, root, Null, s);
    if hint != Null && hint != root {
      NodeLinks(h, root, s, hint);
      if !(Comp(v, Value(h, hint)) || !Comp(v, Value(h, h[hint].parent))) {
        HintWindow(h, root, s, hint, v.first);
      }
    } else if hint == root && hint != Null {
      SubFacts(s, hint);
    }
  }

  // ---------------------------------------------------------------------
  // What is wrong as written
  // ---------------------------------------------------------------------

  /** One ordered tree: the node with key 5 at the root, the node with key
      3 as its left child. */
  function SampleHeap(): Heap {
    map[0 := Node(Pair(5, 0), true, 1, Null, Null), 1 := Node(Pair(3, 0), true, Null, Null, 0)]
  }

  function SampleShape(): Shape {
    Branch(Branch(Leaf, 1, Leaf), 0, Leaf)
  }

  /** `lower_bound(3)` on the one-node tree {5}: the descent stops at the
      node, which is greater than the key, and the source steps past it to
      the end, while the first node not less than 3 is that very node.
      `upper_bound(3)`, built on it, then also answers the end, while the
      first node greater than 3 is that node too. */
  lemma {:induction false} LowerBoundSkipsLandedNode()
    ensures var h := map[0 := Node(Pair(5, 0), true, Null, Null, Null)];
      var s := Branch(Leaf, 0, Leaf);
      && Tree(h, 0, s) && Ordered(h, s)
      && Land(h, s, 3) == 0 && Key(h, 0) != 3 && Next(Seq(s), 0) == Null
      && FirstAtLeast(h, Seq(s), 3) == 0 && FirstAbove(h, Seq(s), 3) == 0
  {
    var h := map[0 := Node(Pair(5, 0), true, Null, Null, Null)];
    var s := Branch(Leaf, 0, Leaf);
    assert Seq(s) == [0];
    assert Entries(h, Seq(s)) == [Pair(5, 0)];
  }

  /** Inserting the value (5, 7) with the left child 3 as hint: the hint is
      kept because 5 is not greater than its parent's 5, the descent stops
      at node 1, and the new node goes to its right, next to the existing
      key 5. The intended test gives up the hint and finds the root, which
      already holds the key. */
  lemma {:induction false} HintedInsertDuplicates()
    ensures var h, s, v := SampleHeap(), SampleShape(), Pair(5, 7);
      && Tree(h, 0, s) && Ordered(h, s)
      && PlaceFor(h, s, v, 1) == 1 && Comp(Value(h, 1), v) && h[1].right == Null
      && Entries(AttachedHeap(h, 1, 1, 2, v), Seq(Attach(s, 1, 1, 2))) == [Pair(3, 0), Pair(5, 7), Pair(5, 0)]
      && !Sorted(Entries(AttachedHeap(h, 1, 1, 2, v), Seq(Attach(s, 1, 1, 2))))
      && PlaceForIntended(h, s, v, 1) == 0 && Key(h, 0) == v.first
  {
    var h, s, v := SampleHeap(), SampleShape(), Pair(5, 7);
    assert Seq(s) == [1, 0];
    assert Entries(h, [1, 0]) == [Pair(3, 0), Pair(5, 0)];
    var s' := Attach(s, 1, 1, 2);
    assert s' == Branch(Branch(Leaf, 1, Branch(Leaf, 2, Leaf)), 0, Leaf);
    assert Seq(s') == [1, 2, 0];
    var es := Entries(AttachedHeap(h, 1, 1, 2, v), [1, 2, 0]);
    assert es == [Pair(3, 0), Pair(5, 7), Pair(5, 0)];
    assert es[1].first == es[2].first;
  }
}
