/**
 * The structural edits the tree engine makes outside the rebalance walks:
 * hanging a new leaf below a node (`insert`), cutting out a node that has
 * at most one child (`_deleteNode`), and dropping a record no longer
 * linked from the tree (the deallocations of `_internalDeletionHandler`).
 * Each is stated on records and proved to be the matching shape edit of
 * `TreeShape`.
 */
module TreeEdit {
  import opened TreeShape
  import opened TreeNode
  import opened TreeOrder
  import opened Pairs

  // ---------------------------------------------------------------------
  // Attaching a new leaf
  // ---------------------------------------------------------------------

  /** The records after `*insertion_side = allocate(1)` and
      `construct(*insertion_side, Node(val, parent))`: a new red leaf `n`
      holding `v` in slot `dir` of `p`. */
  function AttachedHeap(h: Heap, p: Ptr, dir: int, n: Ptr, v: Pair): (h': Heap)
    requires p in h && (dir == 0 || dir == 1)
    ensures h'.Keys == h.Keys + {n}
  {
    var h1 := h[n := NewNode(v, p, true)];
    h1[p := WithChild(h1[p], dir, n)]
  }

  /** A new leaf in a free slot is the shape edit `Attach`; every old node
      keeps its value. */
  lemma {:induction false} AttachPreserves(h: Heap, root: Ptr, s: Shape, p: Ptr, dir: int, n: Ptr, v: Pair)
    requires Tree(h, root, s) && p in Ids(s) && (dir == 0 || dir == 1)
    requires n != Null && n !in h && p in h && Child(h[p], dir) == Null
    ensures p in h && Side(Sub(s, p), dir).Leaf?
    ensures Tree(AttachedHeap(h, p, dir, n, v), root, Attach(s, p, dir, n))
    ensures Ids(Attach(s, p, dir, n)) == Ids(s) + {n}
    ensures forall q :: q in h ==> AttachedHeap(h, p, dir, n, v)[q].value == h[q].value
    ensures AttachedHeap(h, p, dir, n, v)[n].value == v && AttachedHeap(h, p, dir, n, v)[n].red
  {
    NodeLinks(h, root, s, p);
    ChildLink(h, root, s, p, dir);
    var h' := AttachedHeap(h, p, dir, n, v);
    var t' := AttachSite(h, root, s, p, dir, n, v);
    var a, b := AttachFacts(s, p, dir, n);
    assert Attach(s, p, dir, n) == ReplaceAt(s, p, t');
    ReplaceModels(h, h', root, Null, s, p, t');
    ReplaceAtIds(s, p, t');
    ModelsBasics(h, root, Null, s);
  }

  /** The subtree of `p` with the new leaf, and what replacing the old
      one needs. */
  lemma {:induction false} AttachSite(h: Heap, root: Ptr, s: Shape, p: Ptr, dir: int, n: Ptr, v: Pair) returns (t': Shape)
    requires Tree(h, root, s) && p in Ids(s) && (dir == 0 || dir == 1)
    requires n != Null && n !in h && p in h && Child(h[p], dir) == Null
    ensures t' == if dir == 0 then Branch(Branch(Leaf, n, Leaf), p, RightOf(Sub(s, p)))
                  else Branch(LeftOf(Sub(s, p)), p, Branch(Leaf, n, Leaf))
    ensures ReplaceReady(h, AttachedHeap(h, p, dir, n, v), root, Null, s, p, t')
  {
    NodeLinks(h, root, s, p);
    ChildLink(h, root, s, p, dir);
    var h' := AttachedHeap(h, p, dir, n, v);
    var t := Sub(s, p);
    var leaf := Branch(Leaf, n, Leaf);
    t' := if dir == 0 then Branch(leaf, p, RightOf(t)) else Branch(LeftOf(t), p, leaf);
    SubFacts(s, p);
    SingletonFacts(n);
    AttachLocalModels(h, h', p, dir, n, v, t, t');
    if p != root {
      UpFacts(s, p);
      NodeLinks(h, root, s, Up(s, p));
      SubFacts(s, Up(s, p));
    }
    ModelsBasics(h, root, Null, s);
  }

  lemma {:induction false} AttachLocalModels(h: Heap, h': Heap, p: Ptr, dir: int, n: Ptr, v: Pair, t: Shape, t': Shape)
    requires t.Branch? && t.id == p && p in h && Models(h, p, h[p].parent, t) && Distinct(t)
    requires (dir == 0 || dir == 1) && n != Null && n !in h && Side(t, dir).Leaf?
    requires h' == AttachedHeap(h, p, dir, n, v)
    requires t' == if dir == 0 then Branch(Branch(Leaf, n, Leaf), p, RightOf(t)) else Branch(LeftOf(t), p, Branch(Leaf, n, Leaf))
    ensures Models(h', p, h[p].parent, t')
  {
    var other := Side(t, 1 - dir);
    ModelsBasics(h, Child(h[p], 1 - dir), p, other);
    ModelsSame(h, h', Child(h[p], 1 - dir), p, other);
  }

  // ---------------------------------------------------------------------
  // Cutting out a node with at most one child
  // ---------------------------------------------------------------------

  /** The records after `_deleteNode(x)`: the parent's slot takes the
      child, which takes `x`'s parent and colour, and `x` is gone. */
  function DeletedHeap(h: Heap, x: Ptr): (h': Heap)
    requires x in h && h[x].parent != Null && h[x].parent in h
    requires GetChild(h[x]) != Null ==> GetChild(h[x]) in h
    ensures h'.Keys == h.Keys - {x}
  {
    LinkedOut(h, x) - {x}
  }

  /** `_deleteNode` gives the child the colour of `x` and recolours no
      other node. */
  lemma {:induction false} DeletedColours(h: Heap, x: Ptr)
    requires x in h && h[x].parent != Null && h[x].parent in h
    requires GetChild(h[x]) != Null ==> GetChild(h[x]) in h
    requires h[x].parent != x && GetChild(h[x]) != x
    ensures var c := GetChild(h[x]);
      && (c != Null ==> DeletedHeap(h, x)[c].red == h[x].red)
      && (forall q :: q in h && q != x && q != c ==> DeletedHeap(h, x)[q].red == h[q].red)
  {
  }

  /** The same stores, before `x` is deallocated. */
  function LinkedOut(h: Heap, x: Ptr): (h': Heap)
    requires x in h && h[x].parent != Null && h[x].parent in h
    requires GetChild(h[x]) != Null ==> GetChild(h[x]) in h
    ensures h'.Keys == h.Keys
  {
    var c := GetChild(h[x]);
    var p := h[x].parent;
    var h1 := h[p := WithChild(h[p], GetDir(h, x), c)];
    if c != Null then h1[c := h1[c].(parent := h1[x].parent, red := h1[x].red)] else h1
  }

  /** `_deleteNode` on a non-root node with at most one child is the shape
      edit `Splice`; the other nodes keep their values. */
  lemma {:induction false} DeletePreserves(h: Heap, root: Ptr, s: Shape, x: Ptr)
    requires Tree(h, root, s) && x in Ids(s) && x != root
    requires x in h && (h[x].left == Null || h[x].right == Null)
    ensures h[x].parent != Null && h[x].parent in h && (GetChild(h[x]) != Null ==> GetChild(h[x]) in h)
    ensures Tree(DeletedHeap(h, x), root, Splice(s, x))
    ensures forall q :: q in h && q != x ==> DeletedHeap(h, x)[q].value == h[q].value
  {
    var cs := DeleteSite(h, root, s, x);
    SpliceModels(h, root, s, x, cs);
    var sp := Splice(s, x);
    var a, b := SpliceFacts(s, x);
    Unlinked(LinkedOut(h, x), DeletedHeap(h, x), root, sp);
    LinkedOutValues(h, x);
  }

  lemma {:induction false} SpliceModels(h: Heap, root: Ptr, s: Shape, x: Ptr, cs: Shape)
    requires Tree(h, root, s) && x in Ids(s) && x != root && x in h && h[x].parent != Null && h[x].parent in h
    requires GetChild(h[x]) != Null ==> GetChild(h[x]) in h
    requires cs == if LeftOf(Sub(s, x)).Leaf? then RightOf(Sub(s, x)) else LeftOf(Sub(s, x))
    requires ReplaceReady(h, LinkedOut(h, x), root, Null, s, x, cs)
    ensures Models(LinkedOut(h, x), root, Null, Splice(s, x))
  {
    assert Splice(s, x) == ReplaceAt(s, x, cs);
    ReplaceAtIds(s, x, cs);
    ModelsBasics(h, root, Null, s);
    ReplaceModels(h, LinkedOut(h, x), root, Null, s, x, cs);
  }

  lemma {:induction false} LinkedOutValues(h: Heap, x: Ptr)
    requires x in h && h[x].parent != Null && h[x].parent in h
    requires GetChild(h[x]) != Null ==> GetChild(h[x]) in h
    ensures forall q :: q in h && q != x ==> DeletedHeap(h, x)[q].value == h[q].value
  {
  }

  /** The neighbourhood of the node `_deleteNode` cuts out: the subtree
      `cs` of its only child moves up into its place. */
  lemma {:induction false} DeleteSite(h: Heap, root: Ptr, s: Shape, x: Ptr) returns (cs: Shape)
    requires Tree(h, root, s) && x in Ids(s) && x != root
    requires x in h && (h[x].left == Null || h[x].right == Null)
    ensures h[x].parent != Null && h[x].parent in h && (GetChild(h[x]) != Null ==> GetChild(h[x]) in h)
    ensures LeftOf(Sub(s, x)).Leaf? || RightOf(Sub(s, x)).Leaf?
    ensures cs == if LeftOf(Sub(s, x)).Leaf? then RightOf(Sub(s, x)) else LeftOf(Sub(s, x))
    ensures ReplaceReady(h, LinkedOut(h, x), root, Null, s, x, cs)
  {
    NodeLinks(h, root, s, x);
    SubFacts(s, x);
    ChildIds(Sub(s, x));
    var t := Sub(s, x);
    cs := if LeftOf(t).Leaf? then RightOf(t) else LeftOf(t);
    var c := GetChild(h[x]);
    var p := h[x].parent;
    UpFacts(s, x);
    assert p !in Ids(t) by {
      if p in Ids(t) {
        SubDepth(s, x, p);
      }
    }
    var h2 := LinkedOut(h, x);
    assert Root(cs) == c;
    ChildModels(h, h2, x, p, t, cs);
    NodeLinks(h, root, s, p);
    SubFacts(s, p);
    LinkedOutRecords(h, x, Ids(s) - Ids(t));
  }

  lemma {:induction false} ChildModels(h: Heap, h2: Heap, x: Ptr, p: Ptr, t: Shape, cs: Shape)
    requires x in h && h[x].parent == p && p != Null && p in h && Models(h, x, p, t) && Distinct(t)
    requires t.Branch? && (t.left.Leaf? || t.right.Leaf?)
    requires cs == if LeftOf(t).Leaf? then RightOf(t) else LeftOf(t)
    requires p !in Ids(t) && (GetChild(h[x]) != Null ==> GetChild(h[x]) in h)
    requires h2 == LinkedOut(h, x)
    ensures Models(h2, Root(cs), p, cs)
  {
    var c := GetChild(h[x]);
    assert Models(h, c, x, cs);
    ModelsBasics(h, c, x, cs);
    ModelsFrame(h, h2, c, x, p, cs);
  }

  lemma {:induction false} LinkedOutRecords(h: Heap, x: Ptr, outside: set<Ptr>)
    requires x in h && h[x].parent != Null && h[x].parent in h
    requires GetChild(h[x]) != Null ==> GetChild(h[x]) in h
    requires x !in outside && GetChild(h[x]) !in outside
    requires x != h[x].parent && GetChild(h[x]) != h[x].parent
    ensures var p := h[x].parent; var h2 := LinkedOut(h, x);
      && h2[p].parent == h[p].parent
      && (if h[p].left == x then h2[p].left == GetChild(h[x]) && h2[p].right == h[p].right
          else h2[p].right == GetChild(h[x]) && h2[p].left == h[p].left)
      && forall q :: q in outside && q in h && q != p ==> h2[q] == h[q]
  {
  }

  // ---------------------------------------------------------------------
  // stealLinks, record by record
  // ---------------------------------------------------------------------

  /** What `dst.stealLinks(src)` does to the links of single records:
      `dst` takes all of `src`'s links, only `src`'s parent has a child
      slot rewritten, and only `src`'s children have their parent pointer
      changed, to `dst`. */
  lemma {:induction false} StealLinksDetail(h: Heap, root: Ptr, s: Shape, dst: Ptr, src: Ptr)
    requires Tree(h, root, s) && src in Ids(s) && dst in h && dst != Null && dst !in Ids(s)
    ensures Stealable(h, dst, src)
    ensures var h' := StolenHeap(h, dst, src);
      && h'[dst].left == h[src].left && h'[dst].right == h[src].right && h'[dst].parent == h[src].parent
      && (forall q :: q in h && q != dst && q != h[src].parent ==> h'[q].left == h[q].left && h'[q].right == h[q].right)
      && (forall q :: q in h && q != dst && h'[q].parent != h[q].parent ==>
            h'[q].parent == dst && (q == h[src].left || q == h[src].right))
  {
    var t := StealSite(h, root, s, dst, src);
    StolenHeapRecords(h, dst, src);
  }

  // ---------------------------------------------------------------------
  // Records outside the tree
  // ---------------------------------------------------------------------

  /** A record the tree does not reach may be added or dropped. */
  lemma {:induction false} Unlinked(h: Heap, h': Heap, root: Ptr, s: Shape)
    requires Tree(h, root, s)
    requires forall q :: q in h && q in Ids(s) ==> q in h' && h'[q] == h[q]
    ensures Tree(h', root, s)
  {
    ModelsBasics(h, root, Null, s);
    ModelsSame(h, h', root, Null, s);
  }

  // ---------------------------------------------------------------------
  // Sequences
  // ---------------------------------------------------------------------

  /** In a sequence without repetitions, the parts around an element are
      determined by that element. */
  lemma {:induction false} SplitUnique(a: seq<Ptr>, x: Ptr, b: seq<Ptr>, c: seq<Ptr>, d: seq<Ptr>)
    requires NoDup(a + [x] + b) && a + [x] + b == c + [x] + d
    ensures a == c && b == d
  {
    IndexOfSplit(a, x, b);
    IndexOfSplit(c, x, d);
    var q := a + [x] + b;
    assert a == q[..|a|] && c == q[..|c|];
    assert b == q[|a| + 1..] && d == q[|c| + 1..];
  }

  lemma {:induction false} RemoveSplit<T>(a: seq<T>, x: T, b: seq<T>)
    ensures RemoveAt(a + [x] + b, |a|) == a + b
  {
    var q := a + [x] + b;
    assert q[..|a|] == a && q[|a| + 1..] == b;
  }

  /** Entries read along a shortened sequence, through records whose values
      are the old ones, are the old entries shortened the same way. */
  lemma {:induction false} EntriesRemove(h: Heap, h': Heap, q: seq<Ptr>, i: int)
    requires 0 <= i < |q|
    requires forall j :: 0 <= j < |q| && j != i ==> Value(h', q[j]) == Value(h, q[j])
    ensures Entries(h', RemoveAt(q, i)) == RemoveAt(Entries(h, q), i)
  {
  }
}
