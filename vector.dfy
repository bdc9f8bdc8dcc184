/**
 * `ft::vector` (vector.hpp) of `int`: a buffer `values` whose length is the
 * capacity, of which the first `size` slots hold the elements. Positions
 * (the source's iterators) are indices into the buffer.
 */
module Vectors {
  import opened Lookups
  import Algorithm
  import ReverseIterators

  /** `n` copies of `v`. */
  function Repeat(v: int, n: nat): (r: seq<int>)
    ensures |r| == n && forall i :: 0 <= i < n ==> r[i] == v
  {
    seq(n, _ => v)
  }

  function Max(a: nat, b: nat): nat {
    if a < b then b else a
  }

  /** The capacity `push_back` asks for on a full buffer: double the
      size, and 1 for an empty vector. */
  function PushCapacity(size: nat, capacity: nat): (c: nat)
    ensures size <= capacity ==> c > size
    ensures c >= capacity && (c != capacity ==> c == Max(1, 2 * capacity))
  {
    if size == capacity then size * 2 + (if size == 0 then 1 else 0) else capacity
  }

  /** The capacity `_insertion_routine` asks for before making room for
      `n` elements: exactly enough when doubling would not do, double when
      the buffer is too small, the old one otherwise. */
  function InsertCapacity(size: nat, capacity: nat, n: nat): (c: nat)
    ensures c >= size + n && c >= capacity
    ensures c != capacity ==> c == Max(size + n, 2 * capacity)
  {
    if size + n > capacity * 2 then size + n
    else if capacity < size + n then capacity * 2
    else capacity
  }

  class Vector {
    var values: array<int>
    var size: nat

    ghost predicate Valid()
      reads this
    {
      size <= values.Length
    }

    /** The elements, first to last. */
    function Elements(): (e: seq<int>)
      reads this, values
      requires Valid()
      ensures |e| == size
    {
      values[..size]
    }

    /** `capacity()`. */
    function Capacity(): nat
      reads this
    {
      values.Length
    }

    /** `vector()`: no elements and no buffer. */
    constructor()
      ensures Valid() && Elements() == [] && Capacity() == 0 && fresh(values)
    {
      values := new int[0];
      size := 0;
    }

    /** `vector(n, val)`: `n` copies of `val` in a buffer of exactly `n`. */
    constructor Filled(n: nat, val: int)
      ensures Valid() && Elements() == Repeat(val, n) && Capacity() == n && fresh(values)
    {
      var a := new int[n];
      var i := 0;
      while i < n
        invariant 0 <= i <= n
        invariant forall j :: 0 <= j < i ==> a[j] == val
      {
        a[i] := val;
        i := i + 1;
      }
      values := a;
      size := n;
      new;
      assert values[..size] == Repeat(val, n);
    }

    /** `_reallocWithCapacity(c)`: the elements copied into a new buffer of
        capacity `c`. */
    method ReallocWithCapacity(newCapacity: nat)
      requires Valid() && size <= newCapacity
      modifies this
      ensures Valid() && fresh(values) && Capacity() == newCapacity
      ensures size == old(size) && Elements() == old(Elements())
    {
      var buffer := new int[newCapacity];
      CopyInto(values, buffer, size);
      values := buffer;
    }

    /** `reserve(n)`: a new buffer of exactly `n` when `n` exceeds the
        capacity; nothing otherwise. */
    method Reserve(n: nat)
      requires Valid()
      modifies this
      ensures Valid() && size == old(size) && Elements() == old(Elements())
      ensures Capacity() == Max(n, old(Capacity()))
      ensures n <= old(Capacity()) ==> values == old(values)
      ensures n > old(Capacity()) ==> fresh(values)
    {
      if n <= values.Length {
        return;
      }
      ReallocWithCapacity(n);
    }

    /** `shrink_to_fit()`: a buffer of exactly the size. */
    method ShrinkToFit()
      requires Valid()
      modifies this
      ensures Valid() && Elements() == old(Elements()) && Capacity() == size
      ensures old(size == Capacity()) ==> values == old(values)
      ensures old(size != Capacity()) ==> fresh(values)
    {
      if size == values.Length {
        return;
      }
      ReallocWithCapacity(size);
    }

    /** `resize(n, val)`: truncated to `n`, or grown to `n` by copies of
        `val` after reserving `n`. */
    method Resize(n: nat, val: int)
      requires Valid()
      modifies this, values
      ensures Valid() && size == n
      ensures Elements() == if n <= old(size) then old(Elements())[..n] else old(Elements()) + Repeat(val, n - old(size))
      ensures Capacity() == if n <= old(size) then old(Capacity()) else Max(n, old(Capacity()))
    {
      if n <= size {
        size := n;
        return;
      }
      ghost var e := Elements();
      Reserve(n);
      while size < n
        invariant Valid() && old(size) <= size <= n && n <= Capacity()
        invariant Capacity() == Max(n, old(Capacity()))
        invariant values == old(values) || fresh(values)
        invariant Elements() == e + Repeat(val, size - old(size))
      {
        values[size] := val;
        size := size + 1;
      }
    }

    /** `size()`. */
    method Size() returns (n: nat)
      requires Valid()
      ensures n == |Elements()|
    {
      n := size;
    }

    /** `empty()`. */
    method Empty() returns (b: bool)
      requires Valid()
      ensures b <==> Elements() == []
    {
      b := size == 0;
    }

    /** `end()` as an index: the position after the last element (the
        source answers `begin()` for an empty vector, which is the same
        position). */
    method End() returns (r: nat)
      requires Valid()
      ensures r == |Elements()|
    {
      if size == 0 {
        return 0;
      }
      r := size;
    }

    /** `rbegin()`: the reverse iterator over `end()`, whose dereference
        is the last element. */
    method RBegin() returns (r: ReverseIterators.Reverse)
      requires Valid()
      ensures r.current == |Elements()|
      ensures Elements() != [] ==> ReverseIterators.Deref(r, Elements()) == Elements()[|Elements()| - 1]
    {
      var e := End();
      r := ReverseIterators.Reverse(e);
    }

    /** `at(n)`: the element at `n`, or `out_of_range` unless `n < size()`. */
    method At(n: nat) returns (r: Lookup<int>)
      requires Valid()
      ensures r.Found? <==> n < |Elements()|
      ensures r.Found? ==> r.value == Elements()[n]
    {
      if !(n < size) {
        return OutOfRange;
      }
      r := Found(values[n]);
    }

    /** `operator[](n)`: unchecked; a position among the elements is the
        caller's obligation. */
    method Get(n: nat) returns (r: int)
      requires Valid() && n < |Elements()|
      ensures r == Elements()[n]
    {
      r := values[n];
    }

    /** `front()` of a non-empty vector. */
    method Front() returns (r: int)
      requires Valid() && Elements() != []
      ensures r == Elements()[0]
    {
      r := values[0];
    }

    /** `back()` of a non-empty vector. */
    method Back() returns (r: int)
      requires Valid() && Elements() != []
      ensures r == Elements()[|Elements()| - 1]
    {
      r := values[size - 1];
    }

    /** `push_back(val)`: on a full buffer the capacity first grows as
        `PushCapacity` says; then `val` is stored after the last element. */
    method PushBack(val: int)
      requires Valid()
      modifies this, values
      ensures Valid() && Elements() == old(Elements()) + [val]
      ensures Capacity() == PushCapacity(old(size), old(Capacity()))
      ensures values == old(values) || fresh(values)
    {
      if size == values.Length {
        Reserve(size * 2 + (if size == 0 then 1 else 0));
      }
      values[size] := val;
      size := size + 1;
    }

    /** `pop_back()`: the last element dropped; nothing on an empty vector. */
    method PopBack()
      requires Valid()
      modifies this
      ensures Valid() && values == old(values)
      ensures Elements() == if old(size) == 0 then [] else old(Elements())[..old(size) - 1]
    {
      if size == 0 {
        return;
      }
      size := size - 1;
    }

    /** The capacity step of `_insertion_routine`: growth to
        `InsertCapacity`, which holds the `n` new elements. */
    method GrowForInsert(n: nat)
      requires Valid()
      modifies this
      ensures Valid() && size == old(size) && Elements() == old(Elements())
      ensures Capacity() == InsertCapacity(old(size), old(Capacity()), n) >= size + n
      ensures values == old(values) || fresh(values)
    {
      if size + n > values.Length * 2 {
        Reserve(size + n);
      } else if values.Length < size + n {
        Reserve(values.Length * 2);
      }
    }

    /** `_insertion_routine(position, n)` as written. The capacity grows as
        `InsertCapacity` says; then the last `n` elements are copied into
        the `n` slots after the end, and the elements from `position` on
        are moved up by `n`, leaving a gap of `n` slots at `position`.
        Both copies read `n` slots below the slot they write, starting at
        the end: when `n` exceeds the size that read falls before the
        buffer, and for an empty vector even inserting nothing writes the
        slot before it. Then `defined` is false and the routine stops at
        that step. */
    method InsertionRoutine(position: nat, n: nat) returns (r: nat, defined: bool)
      requires Valid() && position <= size
      modifies this, values
      ensures Valid() && Capacity() == InsertCapacity(old(size), old(Capacity()), n)
      ensures values == old(values) || fresh(values)
      ensures defined <==> 0 < old(size) && n <= old(size)
      ensures !defined ==> Elements() == old(Elements())
      ensures defined ==>
        && r == position && size == old(size) + n
        && Elements()[..position] == old(Elements())[..position]
        && Elements()[position + n..] == old(Elements())[position..]
    {
      GrowForInsert(n);
      if size == 0 || n > size {
        return position, false;
      }
      OpenGapAsWritten(values, size, position, n);
      size := size + n;
      assert Elements()[..position] == values[..position];
      assert Elements()[position + n..] == values[position + n..size];
      r, defined := position, true;
    }

    /** `_insertion_routine(position, n)` as evidently intended: the same
        capacity policy, then only the elements from `position` on are
        moved up by `n`, so every size and every count is handled. */
    method InsertionRoutineIntended(position: nat, n: nat) returns (r: nat)
      requires Valid() && position <= size
      modifies this, values
      ensures Valid() && Capacity() == InsertCapacity(old(size), old(Capacity()), n)
      ensures values == old(values) || fresh(values)
      ensures r == position && size == old(size) + n
      ensures Elements()[..position] == old(Elements())[..position]
      ensures Elements()[position + n..] == old(Elements())[position..]
    {
      GrowForInsert(n);
      OpenGap(values, size, position, n);
      size := size + n;
      assert Elements()[..position] == values[..position];
      assert Elements()[position + n..] == values[position + n..size];
      r := position;
    }

    /** Stores `n` copies of `val` from `position` on. */
    method Fill(position: nat, n: nat, val: int)
      requires Valid() && position + n <= size
      modifies values
      ensures Valid() && size == old(size)
      ensures Elements() == old(Elements())[..position] + Repeat(val, n) + old(Elements())[position + n..]
    {
      FillSlots(values, position, n, val);
    }

    /** `insert(position, val)` as written: defined for a non-empty vector
        only, where `val` then stands at `position`. */
    method Insert(position: nat, val: int) returns (r: nat, defined: bool)
      requires Valid() && position <= size
      modifies this, values
      ensures Valid()
      ensures defined <==> old(size) > 0
      ensures defined ==> r == position && Elements() == old(Elements())[..position] + [val] + old(Elements())[position..]
    {
      ghost var e := Elements();
      r, defined := InsertionRoutine(position, 1);
      if defined {
        Fill(position, 1, val);
        ghost var f := Elements();
        assert f == f[..position] + f[position..position + 1] + f[position + 1..];
      }
    }

    /** `insert(position, n, val)` as written: defined when the vector is
        non-empty and holds at least `n` elements. */
    method InsertN(position: nat, n: nat, val: int) returns (defined: bool)
      requires Valid() && position <= size
      modifies this, values
      ensures Valid()
      ensures defined <==> 0 < old(size) && n <= old(size)
      ensures defined ==> Elements() == old(Elements())[..position] + Repeat(val, n) + old(Elements())[position..]
    {
      var p;
      p, defined := InsertionRoutine(position, n);
      if defined {
        Fill(p, n, val);
      }
    }

    /** `insert(position, n, val)` over the intended routine: `n` copies of
        `val` at `position`, for every size and count. */
    method InsertNIntended(position: nat, n: nat, val: int)
      requires Valid() && position <= size
      modifies this, values
      ensures Valid()
      ensures Elements() == old(Elements())[..position] + Repeat(val, n) + old(Elements())[position..]
    {
      var p := InsertionRoutineIntended(position, n);
      Fill(p, n, val);
    }

    /** `erase(first, last)`: the elements from `last` on moved down to
        `first`; the answer is `first`. */
    method Erase(first: nat, last: nat) returns (r: nat)
      requires Valid() && first <= last <= size
      modifies this, values
      ensures Valid() && values == old(values) && r == first
      ensures Elements() == old(Elements())[..first] + old(Elements())[last..]
    {
      ShiftDown(values, size, first, last);
      size := size - (last - first);
      r := first;
    }

    /** `erase(position)`: `erase(position, position + 1)`. */
    method EraseAt(position: nat) returns (r: nat)
      requires Valid() && position < size
      modifies this, values
      ensures Valid() && values == old(values) && r == position
      ensures Elements() == old(Elements())[..position] + old(Elements())[position + 1..]
    {
      r := Erase(position, position + 1);
    }

    /** `assign(n, val)` as written: after reserving `n`, the first `n`
        slots get `val`; then a loop runs from slot `n` until it meets
        `end()`, which it never does when `n` exceeds the old size
        (`defined` is false there). */
    method AssignN(n: nat, val: int) returns (defined: bool)
      requires Valid()
      modifies this, values
      ensures Valid() && Capacity() == Max(n, old(Capacity()))
      ensures defined <==> n <= old(size)
      ensures defined ==> Elements() == Repeat(val, n)
    {
      Reserve(n);
      var i := 0;
      while i < n
        invariant 0 <= i <= n <= Capacity() && Valid() && size == old(size)
        invariant Capacity() == Max(n, old(Capacity()))
        invariant values == old(values) || fresh(values)
        invariant forall j :: 0 <= j < i ==> values[j] == val
      {
        values[i] := val;
        i := i + 1;
      }
      if n > size {
        return false;
      }
      size := n;
      assert Elements() == Repeat(val, n);
      defined := true;
    }

    /** `assign(n, val)` as evidently intended: `n` copies of `val`. */
    method AssignNIntended(n: nat, val: int)
      requires Valid()
      modifies this, values
      ensures Valid() && Capacity() == Max(n, old(Capacity()))
      ensures Elements() == Repeat(val, n)
    {
      Reserve(n);
      var i := 0;
      while i < n
        invariant 0 <= i <= n <= Capacity() && Valid()
        invariant Capacity() == Max(n, old(Capacity()))
        invariant values == old(values) || fresh(values)
        invariant forall j :: 0 <= j < i ==> values[j] == val
      {
        values[i] := val;
        i := i + 1;
      }
      size := n;
      assert Elements() == Repeat(val, n);
    }

    /** `operator=(rhd)`: a buffer of `rhd`'s capacity (a new one when the
        capacities differ), `rhd`'s elements, and default values after
        them. Two distinct vectors never share a buffer. */
    method Assign(rhd: Vector)
      requires Valid() && rhd.Valid() && (rhd != this ==> rhd.values != values)
      modifies this, values
      ensures Valid() && Elements() == old(rhd.Elements()) && Capacity() == old(rhd.Capacity())
      ensures forall j :: size <= j < Capacity() ==> values[j] == 0
      ensures values == old(values) || fresh(values)
    {
      ghost var e := rhd.Elements();
      ghost var c := rhd.values.Length;
      if values.Length != rhd.values.Length {
        values := new int[rhd.values.Length];
      }
      size := rhd.size;
      var i := 0;
      while i < size
        invariant 0 <= i <= size == |e| <= values.Length == rhd.values.Length == c
        invariant values == old(values) || fresh(values)
        invariant forall j :: 0 <= j < i ==> values[j] == e[j]
        invariant forall j :: i <= j < size ==> rhd.values[j] == e[j]
      {
        values[i] := rhd.values[i];
        i := i + 1;
      }
      while i < values.Length
        invariant size <= i <= values.Length == c && size == |e|
        invariant values == old(values) || fresh(values)
        invariant forall j :: 0 <= j < size ==> values[j] == e[j]
        invariant forall j :: size <= j < i ==> values[j] == 0
      {
        values[i] := 0;
        i := i + 1;
      }
      assert Elements() == e;
    }

    /** `swap(src)`: buffers, sizes and capacities exchanged. */
    method Swap(src: Vector)
      requires Valid() && src.Valid()
      modifies this, src
      ensures Valid() && src.Valid()
      ensures Elements() == old(src.Elements()) && src.Elements() == old(Elements())
      ensures Capacity() == old(src.Capacity()) && src.Capacity() == old(Capacity())
    {
      var buf, sizeBuf := src.values, src.size;
      src.values, src.size := values, size;
      values, size := buf, sizeBuf;
    }

    /** `clear()`: no elements; the buffer is kept. */
    method Clear()
      requires Valid()
      modifies this
      ensures Valid() && Elements() == [] && values == old(values)
    {
      size := 0;
    }
  }

  // ---------------------------------------------------------------------
  // The loops over the buffer
  // ---------------------------------------------------------------------

  /** The copy loop of `_reallocWithCapacity`: the first `n` slots of `src`
      into `dst`. */
  method CopyInto(src: array<int>, dst: array<int>, n: nat)
    requires n <= src.Length && n <= dst.Length && src != dst
    modifies dst
    ensures dst[..n] == src[..n]
  {
    var i := 0;
    while i < n
      invariant 0 <= i <= n
      invariant forall j :: 0 <= j < i ==> dst[j] == src[j]
    {
      dst[i] := src[i];
      i := i + 1;
    }
    assert dst[..n] == src[..n];
  }

  /** The two copy loops of `_insertion_routine` over the `s` elements of
      `a`, as written: the slots from `s + n - 1` down to `s` get the slot
      `n` below them, then so do the slots from `s - 1` down to
      `position + n`. Every read stays in the buffer only when `n <= s`,
      and the write after the first loop only when `s > 0`. Afterwards
      the elements from `position` on stand `n` slots higher. */
  method OpenGapAsWritten(a: array<int>, s: nat, position: nat, n: nat)
    requires 0 < s && n <= s && position <= s && s + n <= a.Length
    modifies a
    ensures a[..position] == old(a[..position])
    ensures a[position + n..s + n] == old(a[position..s])
  {
    ghost var e := a[..];
    var last := DuplicateTail(a, s, n);
    MoveMiddleUp(a, s, position, n, last);
    assert a[..position] == e[..position];
    assert a[position + n..s + n] == e[position..s];
  }

  /** The first loop of `_insertion_routine` and the `construct` after it:
      from slot `s + n - 1` down, each slot gets the slot `n` below it; the
      last write is at `s`, or at `s - 1` when `n` is 0. That slot is the
      answer. */
  method DuplicateTail(a: array<int>, s: nat, n: nat) returns (last: int)
    requires 0 < s && n <= s && s + n <= a.Length
    modifies a
    ensures last == if n > 0 then s else s - 1
    ensures forall i :: 0 <= i < s ==> a[i] == old(a[i])
    ensures forall i :: s <= i < s + n ==> a[i] == old(a[i - n])
  {
    last := s + n - 1;
    while last > s
      invariant (if n > 0 then s else s - 1) <= last < s + n
      invariant forall i :: 0 <= i < s ==> a[i] == old(a[i])
      invariant forall i :: last < i < s + n ==> a[i] == old(a[i - n])
    {
      a[last] := a[last - n];
      last := last - 1;
    }
    a[last] := a[last - n];
  }

  /** The second loop of `_insertion_routine`: from the slot below `start`
      down to `position + n`, each slot gets the slot `n` below it, which no
      earlier step of the loop has written. */
  method MoveMiddleUp(a: array<int>, s: nat, position: nat, n: nat, start: int)
    requires 0 < s && n <= s && position <= s && s + n <= a.Length
    requires start == if n > 0 then s else s - 1
    modifies a
    ensures forall i :: 0 <= i < s + n ==>
      a[i] == if position + n <= i < s then old(a[i - n]) else old(a[i])
  {
    var last := start - 1;
    while last > position + n - 1
      invariant -1 <= last < s
      invariant forall i :: 0 <= i < s + n ==>
        a[i] == if last < i && position + n <= i < s then old(a[i - n]) else old(a[i])
    {
      a[last] := a[last - n];
      last := last - 1;
    }
  }

  /** The intended shift: the slots from `s + n - 1` down to `position + n`
      get the slot `n` below them, which is never below `position`. */
  method OpenGap(a: array<int>, s: nat, position: nat, n: nat)
    requires position <= s && s + n <= a.Length
    modifies a
    ensures a[..position] == old(a[..position])
    ensures a[position + n..s + n] == old(a[position..s])
  {
    ghost var e := a[..];
    var last := s + n;
    while last > position + n
      invariant position + n <= last <= s + n
      invariant forall i :: 0 <= i < last - n ==> a[i] == e[i]
      invariant forall i :: last <= i < s + n ==> a[i] == e[i - n]
    {
      last := last - 1;
      a[last] := a[last - n];
    }
    assert a[..position] == e[..position];
    assert a[position + n..s + n] == e[position..s];
  }

  /** The fill loops of `insert`: `n` copies of `val` from slot `from`. */
  method FillSlots(a: array<int>, from: nat, n: nat, val: int)
    requires from + n <= a.Length
    modifies a
    ensures a[..] == old(a[..from]) + Repeat(val, n) + old(a[from + n..])
  {
    ghost var e := a[..];
    var i := 0;
    while i < n
      invariant 0 <= i <= n
      invariant forall j :: 0 <= j < a.Length ==> a[j] == if from <= j < from + i then val else e[j]
    {
      a[from + i] := val;
      i := i + 1;
    }
    assert a[..] == e[..from] + Repeat(val, n) + e[from + n..];
  }

  /** The copy loop of `erase(first, last)` over the `s` elements of `a`:
      the elements from `last` on moved down to `first`. */
  method ShiftDown(a: array<int>, s: nat, first: nat, last: nat)
    requires first <= last <= s <= a.Length
    modifies a
    ensures a[..s - (last - first)] == old(a[..first]) + old(a[last..s])
  {
    ghost var e := a[..];
    var n := last - first;
    var f, l := first, last;
    while l != s
      invariant first <= f <= l <= s && l - f == n
      invariant forall i :: 0 <= i < first ==> a[i] == e[i]
      invariant forall i :: first <= i < f ==> a[i] == e[i + n]
      invariant forall i :: l <= i < s ==> a[i] == e[i]
      decreases s - l
    {
      a[f] := a[l];
      f, l := f + 1, l + 1;
    }
    assert a[..s - n] == e[..first] + e[last..s];
  }

  // ---------------------------------------------------------------------
  // The comparison operators
  // ---------------------------------------------------------------------

  /** `operator==`: equal sizes, then `ft::equal` over the elements. */
  method Equal(lhd: Vector, rhd: Vector) returns (r: bool)
    requires lhd.Valid() && rhd.Valid()
    ensures r <==> lhd.Elements() == rhd.Elements()
  {
    if lhd.size != rhd.size {
      return false;
    }
    r := Algorithm.Equal(lhd.Elements(), rhd.Elements());
  }

  /** `operator!=`: the negation of `==`. */
  method NotEqual(lhd: Vector, rhd: Vector) returns (r: bool)
    requires lhd.Valid() && rhd.Valid()
    ensures r <==> lhd.Elements() != rhd.Elements()
  {
    var eq := Equal(lhd, rhd);
    r := !eq;
  }

  /** `operator<`: `ft::lexicographical_compare` over the elements. */
  method Less(lhd: Vector, rhd: Vector) returns (r: bool)
    requires lhd.Valid() && rhd.Valid()
    ensures r == Algorithm.LexLess(lhd.Elements(), rhd.Elements())
  {
    r := Algorithm.LexicographicalCompare(lhd.Elements(), rhd.Elements());
  }

  /** `operator>`: `rhd < lhd`. */
  method Greater(lhd: Vector, rhd: Vector) returns (r: bool)
    requires lhd.Valid() && rhd.Valid()
    ensures r == Algorithm.LexLess(rhd.Elements(), lhd.Elements())
  {
    r := Less(rhd, lhd);
  }

  /** `operator<=` as written: `!(rhd > lhd)`, which is `!(lhd < rhd)`. */
  method LessEqual(lhd: Vector, rhd: Vector) returns (r: bool)
    requires lhd.Valid() && rhd.Valid()
    ensures r == !Algorithm.LexLess(lhd.Elements(), rhd.Elements())
  {
    var g := Greater(rhd, lhd);
    r := !g;
  }

  /** `operator>=` as written: `!(lhd > rhd)`, which is `!(rhd < lhd)`. */
  method GreaterEqual(lhd: Vector, rhd: Vector) returns (r: bool)
    requires lhd.Valid() && rhd.Valid()
    ensures r == !Algorithm.LexLess(rhd.Elements(), lhd.Elements())
  {
    var g := Greater(lhd, rhd);
    r := !g;
  }

  /** As written, `[1] <= [2]` is false and `[2] >= [1]` is false: the two
      operators answer each other's question. */
  lemma {:induction false} SwappedOrderCounterexample()
    ensures !Algorithm.LexLess([2], [1]) && Algorithm.LexLess([1], [2])
  {
  }

  /** `operator<=` as evidently intended: `!(lhd > rhd)`, that is, less
      or equal. */
  method LessEqualIntended(lhd: Vector, rhd: Vector) returns (r: bool)
    requires lhd.Valid() && rhd.Valid()
    ensures r <==> Algorithm.LexLess(lhd.Elements(), rhd.Elements()) || lhd.Elements() == rhd.Elements()
  {
    var g := Greater(lhd, rhd);
    r := !g;
    Algorithm.LexLessIsStrictTotal(lhd.Elements(), rhd.Elements());
  }

  /** `operator>=` as evidently intended: `!(lhd < rhd)`, that is,
      greater or equal. */
  method GreaterEqualIntended(lhd: Vector, rhd: Vector) returns (r: bool)
    requires lhd.Valid() && rhd.Valid()
    ensures r <==> Algorithm.LexLess(rhd.Elements(), lhd.Elements()) || lhd.Elements() == rhd.Elements()
  {
    var l := Less(lhd, rhd);
    r := !l;
    Algorithm.LexLessIsStrictTotal(lhd.Elements(), rhd.Elements());
  }
}
