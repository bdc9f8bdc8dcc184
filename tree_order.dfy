/**
 * The order in which the red-black tree engine keeps its values.
 *
 * The engine compares values with its comparator only. The model's
 * element type is `Pair` and its comparator is `<` on `first`, the one
 * `ft::map` installs (`value_compare`), so two values are equivalent
 * exactly when their `first` members agree. The values of a tree, read
 * along its in-order sequence of nodes, are its `Entries`; a tree is
 * ordered when those are strictly increasing by `first`.
 *
 * `Land` is the descent of `_findPlaceForInsert`, stated on shapes; the
 * lemmas below say where it lands, and what `lower_bound`,
 * `upper_bound` and `insert` then get out of it.
 */
module TreeOrder {
  import opened TreeShape
  import opened TreeNode
  import opened Pairs

  /** The tree's comparator: `comp(a, b)` is `a.first < b.first`. */
  predicate Comp(a: Pair, b: Pair) {
    a.first < b.first
  }

  /** Neither value is less than the other. */
  predicate Equivalent(a: Pair, b: Pair) {
    !Comp(a, b) && !Comp(b, a)
  }

  function Value(h: Heap, x: Ptr): Pair {
    if x in h then h[x].value else DefaultPair()
  }

  function Key(h: Heap, x: Ptr): int {
    Value(h, x).first
  }

  /** The values found along a sequence of nodes. */
  function Entries(h: Heap, q: seq<Ptr>): (es: seq<Pair>)
    ensures |es| == |q| && forall i :: 0 <= i < |q| ==> es[i] == Value(h, q[i])
  {
    seq(|q|, i requires 0 <= i < |q| => Value(h, q[i]))
  }

  /** Strictly increasing by `first`: no two entries are equivalent. */
  ghost predicate Sorted(es: seq<Pair>) {
    forall i, j :: 0 <= i < j < |es| ==> es[i].first < es[j].first
  }

  /** The values of the tree of shape `s`, in order, are sorted. */
  ghost predicate Ordered(h: Heap, s: Shape) {
    Sorted(Entries(h, Seq(s)))
  }

  /** No entry is equivalent to a value with key `k`. */
  ghost predicate KeyAbsent(es: seq<Pair>, k: int) {
    forall i :: 0 <= i < |es| ==> es[i].first != k
  }

  /** Reference definition: `v` inserted in front of the first entry with a
      greater key. */
  function SortedInsert(es: seq<Pair>, v: Pair): seq<Pair> {
    if es == [] then [v]
    else if v.first < es[0].first then [v] + es
    else [es[0]] + SortedInsert(es[1..], v)
  }

  /** The sequence with the element at position `i` removed. */
  function RemoveAt<T>(q: seq<T>, i: int): (r: seq<T>)
    requires 0 <= i < |q|
    ensures |r| == |q| - 1
    ensures forall j :: 0 <= j < i ==> r[j] == q[j]
    ensures forall j :: i <= j < |r| ==> r[j] == q[j + 1]
  {
    q[..i] + q[i + 1..]
  }

  // ---------------------------------------------------------------------
  // The descent of `_findPlaceForInsert`
  // ---------------------------------------------------------------------

  /** From the root of `t`, go left while there is a left child and the key
      is less than the node's, right while there is a right child and the
      node's key is less, and stop otherwise. */
  function Land(h: Heap, t: Shape, k: int): Ptr {
    match t
    case Leaf => Null
    case Branch(l, x, r) =>
      if l.Branch? && k < Key(h, x) then Land(h, l, k)
      else if r.Branch? && Key(h, x) < k then Land(h, r, k)
      else x
  }

  /** Where a descent for key `k` may stop: at a node with that key, or at a
      node that has a free slot on the side where `k` belongs and whose
      in-order neighbour on that side lies beyond `k`. */
  ghost predicate Landed(h: Heap, q: seq<Ptr>, x: Ptr, k: int)
    requires x in q && x in h
  {
    var j := IndexOf(q, x);
    || Key(h, x) == k
    || (k < Key(h, x) && h[x].left == Null && (j == 0 || Key(h, q[j - 1]) < k))
    || (Key(h, x) < k && h[x].right == Null && (j + 1 == |q| || Key(h, q[j + 1]) > k))
  }

  /** The stretch `q[lo..hi]` is split around one element. */
  lemma {:induction false} SliceParts(q: seq<Ptr>, lo: int, u: seq<Ptr>, x: Ptr, v: seq<Ptr>)
    requires 0 <= lo && lo + |u| + 1 + |v| <= |q|
    requires q[lo..lo + |u| + 1 + |v|] == u + [x] + v
    ensures q[lo..lo + |u|] == u && q[lo + |u|] == x
    ensures q[lo + |u| + 1..lo + |u| + 1 + |v|] == v
  {
    var w := q[lo..lo + |u| + 1 + |v|];
    assert w[..|u|] == u && w[|u|] == x && w[|u| + 1..] == v;
    assert q[lo..lo + |u|] == w[..|u|];
    assert q[lo + |u| + 1..lo + |u| + 1 + |v|] == w[|u| + 1..];
  }

  /** The descent inside a subtree that occupies `q[lo..hi]` of the whole
      in-order sequence, where the key lies above the element just before
      that stretch and below the element just after it, lands as `Landed`
      says. */
  lemma {:induction false} LandWindow(h: Heap, q: seq<Ptr>, t: Shape, par: Ptr, lo: int, hi: int, k: int)
    requires Models(h, Root(t), par, t) && Distinct(t) && NoDup(q)
    requires 0 <= lo && hi == lo + |Seq(t)| && hi <= |q| && q[lo..hi] == Seq(t)
    requires lo == 0 || Key(h, q[lo - 1]) < k
    requires hi == |q| || Key(h, q[hi]) > k
    ensures Land(h, t, k) == Null <==> t.Leaf?
    ensures t.Branch? ==>
      Land(h, t, k) in Ids(t) && Land(h, t, k) in q && Land(h, t, k) in h && Landed(h, q, Land(h, t, k), k)
    decreases t, 1
  {
    if t.Branch? {
      var j := WindowSplit(h, q, t, par, lo, hi);
      var l, x, r := t.left, t.id, t.right;
      if l.Branch? && k < Key(h, x) {
        LandLeft(h, q, t, par, lo, hi, j, k);
      } else if r.Branch? && Key(h, x) < k {
        LandRight(h, q, t, par, lo, hi, j, k);
      } else {
        assert Land(h, t, k) == x;
        LandHere(h, q, x, j, k, lo, hi);
      }
    }
  }

  lemma {:induction false} LandLeft(h: Heap, q: seq<Ptr>, t: Shape, par: Ptr, lo: int, hi: int, j: int, k: int)
    requires t.Branch? && t.left.Branch? && k < Key(h, t.id) && NoDup(q)
    requires Models(h, Root(t.left), t.id, t.left) && Distinct(t.left) && Ids(t.left) <= Ids(t)
    requires 0 <= lo && j == lo + |Seq(t.left)| && j < |q| && q[lo..j] == Seq(t.left) && q[j] == t.id
    requires lo == 0 || Key(h, q[lo - 1]) < k
    ensures Land(h, t, k) == Land(h, t.left, k) && Land(h, t, k) != Null
    ensures Land(h, t, k) in Ids(t) && Land(h, t, k) in q && Land(h, t, k) in h && Landed(h, q, Land(h, t, k), k)
    decreases t, 0
  {
    LandWindow(h, q, t.left, t.id, lo, j, k);
  }

  lemma {:induction false} LandRight(h: Heap, q: seq<Ptr>, t: Shape, par: Ptr, lo: int, hi: int, j: int, k: int)
    requires t.Branch? && t.right.Branch? && !(t.left.Branch? && k < Key(h, t.id)) && Key(h, t.id) < k && NoDup(q)
    requires Models(h, Root(t.right), t.id, t.right) && Distinct(t.right) && Ids(t.right) <= Ids(t)
    requires 0 <= j && hi == j + 1 + |Seq(t.right)| && hi <= |q| && q[j + 1..hi] == Seq(t.right) && q[j] == t.id
    requires hi == |q| || Key(h, q[hi]) > k
    ensures Land(h, t, k) == Land(h, t.right, k) && Land(h, t, k) != Null
    ensures Land(h, t, k) in Ids(t) && Land(h, t, k) in q && Land(h, t, k) in h && Landed(h, q, Land(h, t, k), k)
    decreases t, 0
  {
    LandWindow(h, q, t.right, t.id, j + 1, hi, k);
  }

  /** A subtree's stretch of the in-order sequence, split at its root. */
  lemma {:induction false} WindowSplit(h: Heap, q: seq<Ptr>, t: Shape, par: Ptr, lo: int, hi: int) returns (j: int)
    requires Models(h, Root(t), par, t) && Distinct(t) && NoDup(q) && t.Branch?
    requires 0 <= lo && hi == lo + |Seq(t)| && hi <= |q| && q[lo..hi] == Seq(t)
    ensures j == lo + |Seq(t.left)| && j < hi && hi == j + 1 + |Seq(t.right)|
    ensures q[lo..j] == Seq(t.left) && q[j] == t.id && q[j + 1..hi] == Seq(t.right)
    ensures IndexOf(q, t.id) == j && t.id in h
    ensures Models(h, Root(t.left), t.id, t.left) && Distinct(t.left)
    ensures Models(h, Root(t.right), t.id, t.right) && Distinct(t.right)
    ensures h[t.id].left == Root(t.left) && h[t.id].right == Root(t.right)
    ensures Ids(t.left) <= Ids(t) && Ids(t.right) <= Ids(t)
  {
    var x := t.id;
    SliceParts(q, lo, Seq(t.left), x, Seq(t.right));
    j := lo + |Seq(t.left)|;
    IndexOfNoDup(q, j);
    ModelsBasics(h, h[x].left, x, t.left);
    ModelsBasics(h, h[x].right, x, t.right);
  }

  /** Where the descent stops, the node has landed. */
  lemma {:induction false} LandHere(h: Heap, q: seq<Ptr>, x: Ptr, j: int, k: int, lo: int, hi: int)
    requires 0 <= lo <= j < hi <= |q| && q[j] == x && IndexOf(q, x) == j && x in h
    requires lo == 0 || Key(h, q[lo - 1]) < k
    requires hi == |q| || Key(h, q[hi]) > k
    requires !(h[x].left != Null && k < Key(h, x)) && !(h[x].right != Null && Key(h, x) < k)
    requires h[x].left == Null ==> j == lo
    requires h[x].right == Null ==> j + 1 == hi
    ensures x in q && Landed(h, q, x, k)
  {
  }

  /** The descent from the root of a whole tree: it finds `Null` exactly in
      the empty tree, and otherwise lands as `Landed` says. */
  lemma {:induction false} LandInTree(h: Heap, root: Ptr, s: Shape, k: int)
    requires Tree(h, root, s)
    ensures Land(h, s, k) == Null <==> root == Null
    ensures root != Null ==>
      Land(h, s, k) in Ids(s) && Land(h, s, k) in Seq(s) && Land(h, s, k) in h
      && Landed(h, Seq(s), Land(h, s, k), k)
  {
    ModelsBasics(h, root, Null, s);
    SeqFacts(s);
    assert Seq(s)[0..|Seq(s)|] == Seq(s);
    LandWindow(h, Seq(s), s, Null, 0, |Seq(s)|, k);
  }

  // ---------------------------------------------------------------------
  // Bounds in a sorted sequence
  // ---------------------------------------------------------------------

  /** Reference `lower_bound`: the first node whose key is not less than `k`,
      or `Null`. */
  function FirstAtLeast(h: Heap, q: seq<Ptr>, k: int): (r: Ptr)
    ensures r == Null || r in q
  {
    if q == [] then Null else if Key(h, q[0]) >= k then q[0] else FirstAtLeast(h, q[1..], k)
  }

  /** Reference `upper_bound`: the first node whose key is greater than `k`,
      or `Null`. */
  function FirstAbove(h: Heap, q: seq<Ptr>, k: int): (r: Ptr)
    ensures r == Null || r in q
  {
    if q == [] then Null else if Key(h, q[0]) > k then q[0] else FirstAbove(h, q[1..], k)
  }

  /** In a sorted sequence, a position `j` with all keys before it below `k`
      and the key at it at least `k` is the lower bound. */
  lemma {:induction false} FirstAtLeastAt(h: Heap, q: seq<Ptr>, j: int, k: int)
    requires Sorted(Entries(h, q)) && 0 <= j <= |q|
    requires j == 0 || Key(h, q[j - 1]) < k
    requires j == |q| || Key(h, q[j]) >= k
    ensures FirstAtLeast(h, q, k) == if j == |q| then Null else q[j]
  {
    if q != [] {
      if j == 0 {
      } else {
        assert Entries(h, q)[0].first <= Entries(h, q)[j - 1].first;
        assert Entries(h, q[1..]) == Entries(h, q)[1..];
        FirstAtLeastAt(h, q[1..], j - 1, k);
      }
    }
  }

  /** In a sorted sequence, a position `j` with all keys before it at most
      `k` and the key at it above `k` is the upper bound. */
  lemma {:induction false} FirstAboveAt(h: Heap, q: seq<Ptr>, j: int, k: int)
    requires Sorted(Entries(h, q)) && 0 <= j <= |q|
    requires j == 0 || Key(h, q[j - 1]) <= k
    requires j == |q| || Key(h, q[j]) > k
    ensures FirstAbove(h, q, k) == if j == |q| then Null else q[j]
  {
    if q != [] {
      if j == 0 {
      } else {
        assert Entries(h, q)[0].first <= Entries(h, q)[j - 1].first;
        assert Entries(h, q[1..]) == Entries(h, q)[1..];
        FirstAboveAt(h, q[1..], j - 1, k);
      }
    }
  }

  /** In a sorted sequence no key occurs in a gap between two neighbours
      that `k` lies strictly between. */
  lemma {:induction false} AbsentInGap(h: Heap, q: seq<Ptr>, j: int, k: int)
    requires Sorted(Entries(h, q)) && 0 <= j <= |q|
    requires j == 0 || Key(h, q[j - 1]) < k
    requires j == |q| || Key(h, q[j]) > k
    ensures KeyAbsent(Entries(h, q), k)
  {
    var es := Entries(h, q);
    forall i | 0 <= i < |es| ensures es[i].first != k {
      if i < j - 1 {
        assert es[i].first < es[j - 1].first;
      } else if i > j {
        assert es[j].first < es[i].first;
      }
    }
  }

  // ---------------------------------------------------------------------
  // Sorted insertion and removal
  // ---------------------------------------------------------------------

  lemma {:induction false} Split<T>(q: seq<T>, j: int)
    requires 0 <= j <= |q|
    ensures q == q[..j] + q[j..]
  {
  }

  /** When `v` falls between `u` and `w`, the reference insertion puts it
      exactly there. */
  lemma {:induction false} SortedInsertBetween(u: seq<Pair>, w: seq<Pair>, v: Pair)
    requires forall i :: 0 <= i < |u| ==> u[i].first < v.first
    requires w == [] || v.first < w[0].first
    ensures SortedInsert(u + w, v) == u + [v] + w
  {
    if u == [] {
      assert u + w == w;
    } else {
      assert (u + w)[0] == u[0] && (u + w)[1..] == u[1..] + w;
      SortedInsertBetween(u[1..], w, v);
      assert u == [u[0]] + u[1..];
    }
  }

  /** Inserting a new key where it belongs keeps the entries sorted, and the
      key occurs nowhere else. */
  lemma {:induction false} InsertBetweenSorted(u: seq<Pair>, w: seq<Pair>, v: Pair)
    requires Sorted(u + w)
    requires u == [] || u[|u| - 1].first < v.first
    requires w == [] || v.first < w[0].first
    ensures forall i :: 0 <= i < |u| ==> u[i].first < v.first
    ensures Sorted(u + [v] + w)
    ensures KeyAbsent(u + w, v.first)
  {
    forall i | 0 <= i < |u| ensures u[i].first < v.first {
      assert (u + w)[i] == u[i] && (u + w)[|u| - 1] == u[|u| - 1];
    }
    forall i | 0 <= i < |w| ensures v.first < w[i].first {
      assert (u + w)[|u|] == w[0] && (u + w)[|u| + i] == w[i];
    }
    var e := u + [v] + w;
    forall i, j | 0 <= i < j < |e| ensures e[i].first < e[j].first {
      if j < |u| {
        assert (u + w)[i] == e[i] && (u + w)[j] == e[j];
      } else if i > |u| {
        assert (u + w)[i - 1] == e[i] && (u + w)[j - 1] == e[j];
      } else if i < |u| && j > |u| {
        assert (u + w)[i] == e[i] && (u + w)[j - 1] == e[j];
      } else if i < |u| && j == |u| {
      } else {
        assert e[j] == w[j - |u| - 1];
      }
    }
  }

  /** Removing an entry keeps the entries sorted. */
  lemma {:induction false} RemoveKeepsSorted(es: seq<Pair>, i: int)
    requires Sorted(es) && 0 <= i < |es|
    ensures Sorted(RemoveAt(es, i))
  {
    var r := RemoveAt(es, i);
    forall a, b | 0 <= a < b < |r| ensures r[a].first < r[b].first {
      var a', b' := if a < i then a else a + 1, if b < i then b else b + 1;
      assert r[a] == es[a'] && r[b] == es[b'];
    }
  }

  lemma {:induction false} EntriesConcat(h: Heap, u: seq<Ptr>, v: seq<Ptr>)
    ensures Entries(h, u + v) == Entries(h, u) + Entries(h, v)
  {
  }

  /** The entries read through a heap whose values agree on the nodes. */
  lemma {:induction false} EntriesSame(h: Heap, h': Heap, q: seq<Ptr>)
    requires forall i :: 0 <= i < |q| ==> Value(h', q[i]) == Value(h, q[i])
    ensures Entries(h', q) == Entries(h, q)
  {
  }
}
