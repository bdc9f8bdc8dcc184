/**
 * `ft::map` (map.hpp) over the red-black tree engine, with integer keys
 * and mapped values. An iterator is the tree node it stands at; the end
 * position is `Null`.
 *
 * Every operation hands its work to the tree. The guarantees about keys
 * (found exactly when present, no duplicates, entries in key order) hold
 * when the entries are sorted by key, which every operation but the hinted
 * insert preserves; the hinted insert can break it, as written.
 */
module Maps {
  import opened Pairs
  import opened Lookups
  import opened TreeShape
  import opened TreeNode
  import opened TreeOrder
  import opened TreeSearch
  import opened RBTree

  /** `value_compare`: two entries compared by key with `std::less`. */
  function ValueCompare(l: Pair, r: Pair): (b: bool)
    ensures b == Comp(l, r) && (b ==> !Comp(r, l))
  {
    l.first < r.first
  }

  /** `value_compare` is the comparator the tree runs on, and it is a strict
      weak order: irreflexive, transitive, and with transitive
      equivalence. */
  lemma {:induction false} ValueCompareIsStrictWeak(a: Pair, b: Pair, c: Pair)
    ensures ValueCompare(a, b) == Comp(a, b)
    ensures !ValueCompare(a, a)
    ensures ValueCompare(a, b) && ValueCompare(b, c) ==> ValueCompare(a, c)
    ensures Equivalent(a, b) && Equivalent(b, c) ==> Equivalent(a, c)
  {
  }

  /** Whether some entry has key `k`. */
  ghost predicate HasKey(es: seq<Pair>, k: int) {
    !KeyAbsent(es, k)
  }

  /** Reference definition of `insert` of one value: added at its place
      when its key is new, ignored otherwise. */
  ghost function InsertOne(es: seq<Pair>, v: Pair): seq<Pair> {
    if KeyAbsent(es, v.first) then SortedInsert(es, v) else es
  }

  /** Reference definition of `insert(first, last)`: the values inserted
      one after the other, in order. */
  ghost function InsertedAll(es: seq<Pair>, vals: seq<Pair>): seq<Pair>
    decreases |vals|
  {
    if vals == [] then es else InsertOne(InsertedAll(es, vals[..|vals| - 1]), vals[|vals| - 1])
  }

  class Map {
    const tree: RedBlackTree

    ghost predicate Valid()
      reads tree, tree.store
    {
      tree.Valid()
    }

    /** The entries in iteration order. */
    ghost function Contents(): seq<Pair>
      reads tree, tree.store
    {
      tree.Contents()
    }

    /** The entries are sorted by key, so no key occurs twice. */
    ghost predicate KeysSorted()
      reads tree, tree.store
    {
      Sorted(Contents())
    }

    /** `map()`: empty. */
    constructor()
      ensures Valid() && Contents() == [] && KeysSorted() && tree.AllRed() && fresh(tree) && fresh(tree.store)
    {
      tree := new RedBlackTree();
      new;
      assert Contents() == [];
    }

    /** `empty()`: the tree's size is zero. */
    method Empty() returns (b: bool)
      requires Valid()
      ensures b <==> Contents() == []
    {
      SeqSize(tree.shape);
      b := tree.size == 0;
    }

    /** `size()`: the tree's size, which counts the entries. */
    method Size() returns (n: nat)
      requires Valid()
      ensures n == |Contents()|
    {
      SeqSize(tree.shape);
      n := tree.size;
    }

    /** `begin()`: the first entry, or the end position when empty. */
    method Begin() returns (r: Ptr)
      requires Valid()
      ensures r == Null <==> Contents() == []
      ensures r != Null ==> r == Seq(tree.shape)[0] && Value(tree.store.nodes, r) == Contents()[0]
    {
      r := tree.Begin();
      SeqFacts(tree.shape);
    }

    /** `end()`: the position past the last entry. */
    method End() returns (r: Ptr)
      requires Valid()
      ensures r == Null
    {
      r := tree.End();
    }

    /** `find(key)`: the tree's `find` with the value `(key, mapped())`; a
        node holding `key`, or the end position. With sorted keys the end
        position means the key is absent. */
    method Find(key: int) returns (r: Ptr)
      requires Valid()
      ensures r == Null || (r in Ids(tree.shape) && Key(tree.store.nodes, r) == key)
      ensures KeysSorted() ==> (r == Null <==> !HasKey(Contents(), key))
    {
      r := tree.Find(Pair(key, 0));
    }

    /** `count(key)`: 1 when `find` succeeds, 0 otherwise. */
    method Count(key: int) returns (n: nat)
      requires Valid()
      ensures n <= 1
      ensures KeysSorted() ==> (n == 1 <==> HasKey(Contents(), key))
    {
      var r := Find(key);
      var e := End();
      n := if r != e then 1 else 0;
    }

    /** `at(key)`: the mapped value of the entry `find` returns, or
        `out_of_range` at the end position. */
    method At(key: int) returns (res: Lookup<int>)
      requires Valid()
      ensures res.Found? ==> Pair(key, res.value) in Contents()
      ensures KeysSorted() ==> (res.OutOfRange? <==> !HasKey(Contents(), key))
    {
      var r := Find(key);
      var e := End();
      if r == e {
        return OutOfRange;
      }
      EntryOfNode(tree.store.nodes, tree.shape, r);
      res := Found(tree.store.nodes[r].value.second);
    }

    /** `operator[](key)`: the mapped value of the entry with `key`; when
        `find` misses, `(key, mapped())` is inserted first and its mapped
        value, 0, is returned. */
    method Index(key: int) returns (value: int)
      requires Valid()
      modifies tree, tree.store
      ensures Valid() && (old(tree.AllRed()) ==> tree.AllRed())
      ensures Pair(key, value) in Contents()
      ensures old(KeysSorted()) ==>
        && KeysSorted()
        && (old(HasKey(Contents(), key)) ==> Contents() == old(Contents()))
        && (!old(HasKey(Contents(), key)) ==> value == 0 && Contents() == SortedInsert(old(Contents()), Pair(key, 0)))
    {
      var r := Find(key);
      if r != Null {
        EntryOfNode(tree.store.nodes, tree.shape, r);
        return tree.store.nodes[r].value.second;
      }
      var node, inserted := tree.Insert(Pair(key, 0), Null);
      EntryOfNode(tree.store.nodes, tree.shape, node);
      if inserted {
        ModelsBasics(tree.store.nodes, tree.root, Null, tree.shape);
      }
      value := tree.store.nodes[node].value.second;
    }

    /** `insert(val)`: the tree's insert without a hint. With sorted keys,
        the value is added at its place exactly when its key is new. */
    method Insert(val: Pair) returns (node: Ptr, inserted: bool)
      requires Valid()
      modifies tree, tree.store
      ensures Valid() && node in Ids(tree.shape) && Key(tree.store.nodes, node) == val.first
      ensures old(tree.AllRed()) ==> tree.AllRed()
      ensures !inserted ==> Contents() == old(Contents())
      ensures old(KeysSorted()) ==>
        && KeysSorted()
        && (inserted <==> !old(HasKey(Contents(), val.first)))
        && Contents() == InsertOne(old(Contents()), val)
    {
      node, inserted := tree.Insert(val, Null);
      if inserted {
        ModelsBasics(tree.store.nodes, tree.root, Null, tree.shape);
      }
    }

    /** `insert(position, val)`: the tree's insert with the position as
        hint, which as written can add a second entry with the key. */
    method InsertHint(position: Ptr, val: Pair) returns (node: Ptr)
      requires Valid() && (position == Null || position in Ids(tree.shape))
      modifies tree, tree.store
      ensures Valid() && node in Ids(tree.shape) && Key(tree.store.nodes, node) == val.first
      ensures old(tree.AllRed()) ==> tree.AllRed()
    {
      var inserted;
      node, inserted := tree.Insert(val, position);
      if inserted {
        ModelsBasics(tree.store.nodes, tree.root, Null, tree.shape);
      }
    }

    /** `insert(first, last)`: each value of the range inserted in turn. */
    method InsertAll(vals: seq<Pair>)
      requires Valid()
      modifies tree, tree.store
      ensures Valid() && (old(tree.AllRed()) ==> tree.AllRed())
      ensures old(KeysSorted()) ==> KeysSorted() && Contents() == InsertedAll(old(Contents()), vals)
    {
      ghost var es := Contents();
      var i := 0;
      while i < |vals|
        invariant 0 <= i <= |vals| && Valid() && (old(tree.AllRed()) ==> tree.AllRed())
        invariant old(KeysSorted()) ==> KeysSorted() && Contents() == InsertedAll(es, vals[..i])
      {
        var node, inserted := Insert(vals[i]);
        assert vals[..i + 1][..i] == vals[..i];
        i := i + 1;
      }
      assert vals[..i] == vals;
    }

    /** `erase(position)`: the tree's erase of the node. */
    method EraseAt(position: Ptr) returns (outcome: EraseOutcome)
      requires Valid() && position in Ids(tree.shape)
      modifies tree, tree.store
      ensures outcome == Normal ==> Valid()
      ensures outcome != Undefined ==>
        position in old(Seq(tree.shape))
        && Contents() == RemoveAt(old(Contents()), IndexOf(old(Seq(tree.shape)), position))
      ensures old(tree.AllRed()) ==>
        && (outcome == Undefined <==> old(tree.RootLacksChild(position)))
        && (outcome != Undefined ==> tree.AllRed() && (outcome == Normal <==> |old(Contents())| <= 2))
    {
      SeqSize(tree.shape);
      outcome := tree.Erase(position);
    }

    /** `erase(key)`: 0 when `find` misses; otherwise the found node is
        erased and the answer is 1. With sorted keys the key is then gone
        and every other entry stays in order. */
    method EraseKey(key: int) returns (n: nat, outcome: EraseOutcome)
      requires Valid()
      modifies tree, tree.store
      ensures n <= 1
      ensures n == 0 ==> outcome == Normal && Contents() == old(Contents()) && Valid()
      ensures outcome == Normal ==> Valid()
      ensures old(KeysSorted()) ==> (n == 1 <==> old(HasKey(Contents(), key)))
      ensures old(KeysSorted()) && outcome != Undefined ==>
        && Sorted(Contents()) && !HasKey(Contents(), key)
        && (n == 1 ==> |Contents()| + 1 == |old(Contents())|)
        && (forall e :: e in old(Contents()) && e.first != key ==> e in Contents())
      ensures old(KeysSorted() && tree.AllRed()) ==>
        && (outcome == Undefined <==> old(Key(tree.store.nodes, tree.root) == key && tree.RootLacksChild(tree.root)))
        && (outcome != Undefined ==> tree.AllRed())
        && (n == 1 && outcome != Undefined ==> (outcome == Normal <==> |old(Contents())| <= 2))
    {
      var found := Find(key);
      var e := End();
      ModelsBasics(tree.store.nodes, tree.root, Null, tree.shape);
      if tree.root != Null {
        EntryOfNode(tree.store.nodes, tree.shape, tree.root);
      }
      if found == e {
        return 0, Normal;
      }
      ghost var es := Contents();
      EntryOfNode(tree.store.nodes, tree.shape, found);
      if KeysSorted() && tree.root != Null && Key(tree.store.nodes, tree.root) == key {
        KeyNamesOneNode(tree.store.nodes, Seq(tree.shape), found, tree.root);
      }
      ghost var i := IndexOf(Seq(tree.shape), found);
      SeqSize(tree.shape);
      outcome := tree.Erase(found);
      n := 1;
      if old(KeysSorted()) && outcome != Undefined {
        RemoveKey(es, i);
      }
    }

    /** `clear()`: the tree's clear. */
    method Clear()
      requires Valid()
      modifies tree, tree.store
      ensures Valid() && Contents() == [] && tree.AllRed()
    {
      tree.Clear();
    }

    /** `lower_bound(key)` as written: the tree's `lower_bound`. */
    method LowerBound(key: int) returns (r: Ptr)
      requires Valid()
      ensures var f := Land(tree.store.nodes, tree.shape, key);
        && (f == Null || f in Seq(tree.shape))
        && r == if f == Null || Key(tree.store.nodes, f) == key then f else Next(Seq(tree.shape), f)
    {
      r := tree.LowerBound(Pair(key, 0));
    }

    /** `upper_bound(key)` as written: the tree's `upper_bound`. */
    method UpperBound(key: int) returns (r: Ptr)
      requires Valid()
      ensures var f := Land(tree.store.nodes, tree.shape, key); f == Null || f in Seq(tree.shape)
      ensures var f := Land(tree.store.nodes, tree.shape, key);
        var lb := if f == Null || Key(tree.store.nodes, f) == key then f else Next(Seq(tree.shape), f);
        r == if lb != Null && Key(tree.store.nodes, lb) == key then Next(Seq(tree.shape), lb) else lb
    {
      r := tree.UpperBound(Pair(key, 0));
    }

    /** `equal_range(key)` as written: the two bounds as written. */
    method EqualRange(key: int) returns (lo: Ptr, hi: Ptr)
      requires Valid()
      ensures var f := Land(tree.store.nodes, tree.shape, key);
        && (f == Null || f in Seq(tree.shape))
        && lo == (if f == Null || Key(tree.store.nodes, f) == key then f else Next(Seq(tree.shape), f))
        && hi == if lo != Null && Key(tree.store.nodes, lo) == key then Next(Seq(tree.shape), lo) else lo
    {
      lo := LowerBound(key);
      hi := UpperBound(key);
    }

    /** `equal_range(key)` over the intended bounds: with sorted keys, the
        first entry not below `key` and the first above it, which enclose
        the one entry with `key` or nothing. */
    method EqualRangeIntended(key: int) returns (lo: Ptr, hi: Ptr)
      requires Valid()
      ensures KeysSorted() ==>
        && lo == FirstAtLeast(tree.store.nodes, Seq(tree.shape), key)
        && hi == FirstAbove(tree.store.nodes, Seq(tree.shape), key)
        && (lo == hi <==> !HasKey(Contents(), key))
        && (HasKey(Contents(), key) ==>
              lo != Null && Key(tree.store.nodes, lo) == key && hi == Next(Seq(tree.shape), lo))
    {
      lo := tree.LowerBoundIntended(Pair(key, 0));
      hi := tree.UpperBoundIntended(Pair(key, 0));
      if KeysSorted() {
        ModelsBasics(tree.store.nodes, tree.root, Null, tree.shape);
        SeqFacts(tree.shape);
        EqualRangeSpan(tree.store.nodes, Seq(tree.shape), key);
      }
    }
  }

  /** The value of a tree node is an entry of the tree. */
  lemma {:induction false} EntryOfNode(h: Heap, s: Shape, x: Ptr)
    requires x in Ids(s)
    ensures x in Seq(s) && Value(h, x) in Entries(h, Seq(s))
    ensures Entries(h, Seq(s))[IndexOf(Seq(s), x)] == Value(h, x)
  {
    InSeq(s, x);
  }

  /** With sorted keys, a key names at most one node. */
  lemma {:induction false} KeyNamesOneNode(h: Heap, q: seq<Ptr>, x: Ptr, y: Ptr)
    requires Sorted(Entries(h, q)) && x in q && y in q && Key(h, x) == Key(h, y)
    ensures x == y
  {
    var i, j := IndexOf(q, x), IndexOf(q, y);
    assert Entries(h, q)[i].first == Key(h, x) && Entries(h, q)[j].first == Key(h, y);
  }

  /** In sorted entries, removing the entry at `i` removes its key and keeps
      the entries with other keys. */
  lemma {:induction false} RemoveKey(es: seq<Pair>, i: int)
    requires Sorted(es) && 0 <= i < |es|
    ensures Sorted(RemoveAt(es, i)) && !HasKey(RemoveAt(es, i), es[i].first)
    ensures forall e :: e in es && e.first != es[i].first ==> e in RemoveAt(es, i)
  {
    RemoveKeepsSorted(es, i);
    var r := RemoveAt(es, i);
    forall j | 0 <= j < |r| ensures r[j].first != es[i].first {
      if j < i {
        assert r[j] == es[j];
      } else {
        assert r[j] == es[j + 1];
      }
    }
    forall e | e in es && e.first != es[i].first ensures e in r {
      var j :| 0 <= j < |es| && es[j] == e;
      if j < i {
        assert r[j] == e;
      } else {
        assert r[j - 1] == e;
      }
    }
  }

  /** With sorted keys, the reference bounds are equal exactly when no
      entry has the key, and otherwise enclose just the entry with it. */
  lemma {:induction false} EqualRangeSpan(h: Heap, q: seq<Ptr>, k: int)
    requires Sorted(Entries(h, q)) && NoDup(q) && Null !in q
    ensures var lo, hi := FirstAtLeast(h, q, k), FirstAbove(h, q, k);
      && (lo == hi <==> !HasKey(Entries(h, q), k))
      && (HasKey(Entries(h, q), k) ==> lo != Null && Key(h, lo) == k && hi == Next(q, lo))
  {
    var j := FirstAtLeastIndex(h, q, k);
    UpperBoundSpec(h, q, k);
    PresentAt(h, q, k, j);
    if j < |q| {
      IndexOfNoDup(q, j);
      if j + 1 < |q| {
        assert q[j] != q[j + 1];
      }
    }
  }

  /** In sorted entries the key is present exactly at the lower bound's
      position. */
  lemma {:induction false} PresentAt(h: Heap, q: seq<Ptr>, k: int, j: int)
    requires Sorted(Entries(h, q)) && 0 <= j <= |q|
    requires forall i :: 0 <= i < j ==> Key(h, q[i]) < k
    requires j < |q| ==> Key(h, q[j]) >= k
    ensures HasKey(Entries(h, q), k) <==> j < |q| && Key(h, q[j]) == k
  {
    var es := Entries(h, q);
    if HasKey(es, k) {
      var i :| 0 <= i < |es| && es[i].first == k;
      if i > j {
        assert es[j].first < es[i].first;
      }
    } else if j < |q| {
      assert es[j].first != k;
    }
  }

  // ---------------------------------------------------------------------
  // The reference insertion
  // ---------------------------------------------------------------------

  /** `SortedInsert` adds `v` and nothing else. */
  lemma {:induction false} SortedInsertElems(es: seq<Pair>, v: Pair)
    ensures forall e :: e in SortedInsert(es, v) <==> e in es || e == v
    ensures |SortedInsert(es, v)| == |es| + 1
  {
    if es != [] && !(v.first < es[0].first) {
      SortedInsertElems(es[1..], v);
      assert es == [es[0]] + es[1..];
    }
  }

  /** Inserting a new key keeps the entries sorted. */
  lemma {:induction false} SortedInsertSorted(es: seq<Pair>, v: Pair)
    requires Sorted(es) && KeyAbsent(es, v.first)
    ensures Sorted(SortedInsert(es, v))
  {
    if es == [] {
    } else if v.first < es[0].first {
      var r := [v] + es;
      forall i, j | 0 <= i < j < |r| ensures r[i].first < r[j].first {
        if i > 0 && j > 1 {
          assert r[i] == es[i - 1] && r[j] == es[j - 1];
        } else if i == 0 && j > 1 {
          assert es[0].first < es[j - 1].first;
        }
      }
    } else {
      assert es[0].first < v.first;
      var t := es[1..];
      assert Sorted(t) && KeyAbsent(t, v.first) by {
        assert forall i :: 0 <= i < |t| ==> t[i] == es[i + 1];
      }
      SortedInsertSorted(t, v);
      SortedInsertElems(t, v);
      var s := SortedInsert(t, v);
      var r := [es[0]] + s;
      forall i, j | 0 <= i < j < |r| ensures r[i].first < r[j].first {
        if i == 0 {
          assert r[j] in s;
          if r[j] != v {
            var m :| 0 <= m < |t| && t[m] == r[j];
            assert es[m + 1] == r[j];
          }
        } else {
          assert r[i] == s[i - 1] && r[j] == s[j - 1];
        }
      }
    }
  }

  /** Inserting one value keeps sorted entries sorted, and a key is
      present afterwards exactly when it was before or the value has it. */
  lemma {:induction false} InsertOneFacts(es: seq<Pair>, v: Pair, k: int)
    requires Sorted(es)
    ensures Sorted(InsertOne(es, v))
    ensures HasKey(InsertOne(es, v), k) <==> HasKey(es, k) || v.first == k
  {
    if KeyAbsent(es, v.first) {
      SortedInsertSorted(es, v);
      SortedInsertElems(es, v);
      var next := SortedInsert(es, v);
      if HasKey(next, k) {
        var m :| 0 <= m < |next| && next[m].first == k;
        assert next[m] in next;
      }
      if HasKey(es, k) {
        var m :| 0 <= m < |es| && es[m].first == k;
        assert es[m] in next;
      }
      if v.first == k {
        assert v in next;
      }
    }
  }

  /** The reference insertion of a range keeps sorted entries sorted, and
      a key is present afterwards exactly when it was before or some value
      of the range has it. */
  lemma {:induction false} InsertedAllFacts(es: seq<Pair>, vals: seq<Pair>, k: int)
    requires Sorted(es)
    ensures Sorted(InsertedAll(es, vals))
    ensures HasKey(InsertedAll(es, vals), k) <==>
      HasKey(es, k) || exists i :: 0 <= i < |vals| && vals[i].first == k
    decreases |vals|
  {
    if vals != [] {
      var init, v := vals[..|vals| - 1], vals[|vals| - 1];
      InsertedAllFacts(es, init, k);
      InsertOneFacts(InsertedAll(es, init), v, k);
      if exists i :: 0 <= i < |init| && init[i].first == k {
        var i :| 0 <= i < |init| && init[i].first == k;
        assert vals[i] == init[i];
      }
      if exists i :: 0 <= i < |vals| && vals[i].first == k {
        var i :| 0 <= i < |vals| && vals[i].first == k;
        if i < |init| {
          assert init[i] == vals[i];
        }
      }
    }
  }
}
