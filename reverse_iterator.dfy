/**
 * `ft::reverse_iterator` (reverse_iterator.hpp) over a random-access
 * position, an index into a sequence `q`. The reverse iterator keeps the
 * base position `current` and stands for the element just before it.
 */
module ReverseIterators {
  /** A reverse iterator's value: its base position. */
  datatype Reverse = Reverse(current: int)

  /** `base()`: the position that determines the reverse iterator. */
  function Base(r: Reverse): (b: int)
    ensures Reverse(b) == r
  {
    r.current
  }

  /** `operator+(n)`: a reverse iterator over `base - n`. */
  function Plus(r: Reverse, n: int): (p: Reverse)
    ensures Base(p) + n == Base(r)
  {
    Reverse(r.current - n)
  }

  /** `operator-(n)`: a reverse iterator over `base + n`. */
  function Minus(r: Reverse, n: int): (m: Reverse)
    ensures Base(m) - n == Base(r)
  {
    Reverse(r.current + n)
  }

  /** `operator*`: through a copy of the base moved back by one, the element
      one before the base. */
  function Deref(r: Reverse, q: seq<int>): (v: int)
    requires 0 < r.current <= |q|
    ensures v == q[Base(r) - 1]
  {
    var buf := r.current - 1;
    q[buf]
  }

  /** `operator[](n)`: `*(*this + n)`. */
  function Index(r: Reverse, n: int, q: seq<int>): (v: int)
    requires 0 < r.current - n <= |q|
    ensures v == q[Base(r) - n - 1]
  {
    Deref(Plus(r, n), q)
  }

  /** The free `operator+(n, rhd)`: a reverse iterator over
      `rhd.base() - n`. */
  function PlusFront(n: int, rhd: Reverse): (p: Reverse)
    ensures p == Plus(rhd, n)
  {
    Reverse(Base(rhd) - n)
  }

  /** The free `operator-(lhd, rhd)`: `rhd.base() - lhd.base()`, the
      number of steps from `rhd` to `lhd`. */
  function Difference(lhd: Reverse, rhd: Reverse): (d: int)
    ensures Plus(rhd, d) == lhd
  {
    Base(rhd) - Base(lhd)
  }

  function Equal(lhd: Reverse, rhd: Reverse): (b: bool)
    ensures b <==> lhd == rhd
  {
    Base(rhd) == Base(lhd)
  }

  function NotEqual(lhd: Reverse, rhd: Reverse): (b: bool)
    ensures b <==> lhd != rhd
  {
    Base(rhd) != Base(lhd)
  }

  /** `operator<=`: the bases compared the other way round. */
  function LessEqual(lhd: Reverse, rhd: Reverse): (b: bool)
    ensures b <==> Less(lhd, rhd) || Equal(lhd, rhd)
  {
    Base(rhd) <= Base(lhd)
  }

  function GreaterEqual(lhd: Reverse, rhd: Reverse): (b: bool)
    ensures b <==> Greater(lhd, rhd) || Equal(lhd, rhd)
  {
    Base(rhd) >= Base(lhd)
  }

  function Greater(lhd: Reverse, rhd: Reverse): (b: bool)
    ensures b <==> Less(rhd, lhd)
  {
    Base(rhd) > Base(lhd)
  }

  /** `operator<`: `lhd` comes first exactly when the difference
      `rhd - lhd` is positive. */
  function Less(lhd: Reverse, rhd: Reverse): (b: bool)
    ensures b <==> Difference(rhd, lhd) > 0
  {
    Base(rhd) < Base(lhd)
  }

  /** `rbegin()` of a sequence: the reverse iterator over its end, which
      reads the last element. */
  function RBegin(q: seq<int>): (r: Reverse)
    ensures Base(r) == |q| && (q != [] ==> Deref(r, q) == q[|q| - 1])
  {
    Reverse(|q|)
  }

  /** `rend()` of a sequence: the reverse iterator over its beginning,
      as many steps after `rbegin()` as the sequence is long. */
  function REnd(q: seq<int>): (r: Reverse)
    ensures Base(r) == 0 && Difference(r, RBegin(q)) == |q|
  {
    Reverse(0)
  }

  /** Dereferencing `r + n` (and so `r[n]`) reads `n + 1` positions before
      the base. */
  lemma {:induction false} IndexReadsBeforeBase(r: Reverse, n: int, q: seq<int>)
    requires 0 < r.current - n <= |q|
    ensures Index(r, n, q) == Deref(Plus(r, n), q) == q[Base(r) - n - 1]
  {
  }

  /** `+` and `-` undo each other and compose; the free `+` is the member
      `+`; the difference of `r + n` and `r` is `n`. */
  lemma {:induction false} Arithmetic(r: Reverse, m: int, n: int)
    ensures Minus(Plus(r, n), n) == r && Plus(Minus(r, n), n) == r
    ensures Plus(Plus(r, m), n) == Plus(r, m + n)
    ensures PlusFront(n, r) == Plus(r, n)
    ensures Difference(Plus(r, n), r) == n
    ensures Difference(r, Plus(r, n)) == -n
  {
  }

  /** The comparisons agree with the difference: `lhd < rhd` exactly when
      `rhd - lhd` is positive, and so on; together they form a total order
      on reverse iterators. */
  lemma {:induction false} OrderFromDifference(lhd: Reverse, rhd: Reverse)
    ensures Less(lhd, rhd) <==> Difference(rhd, lhd) > 0
    ensures Equal(lhd, rhd) <==> Difference(rhd, lhd) == 0
    ensures Equal(lhd, rhd) <==> lhd == rhd
    ensures NotEqual(lhd, rhd) <==> !Equal(lhd, rhd)
    ensures Greater(lhd, rhd) <==> Less(rhd, lhd)
    ensures LessEqual(lhd, rhd) <==> Less(lhd, rhd) || Equal(lhd, rhd)
    ensures GreaterEqual(lhd, rhd) <==> Greater(lhd, rhd) || Equal(lhd, rhd)
    ensures Less(lhd, rhd) || Equal(lhd, rhd) || Greater(lhd, rhd)
    ensures Less(lhd, Plus(lhd, 1))
  {
  }

  /** The sequence in reverse order. */
  function Reversed(q: seq<int>): seq<int> {
    if q == [] then [] else [q[|q| - 1]] + Reversed(q[..|q| - 1])
  }

  /** The elements a loop reads by dereferencing `r` and stepping it with
      `++`, `steps` times. */
  function Visit(q: seq<int>, r: Reverse, steps: nat): (v: seq<int>)
    requires steps <= r.current <= |q|
    ensures |v| == steps
    decreases steps
  {
    if steps == 0 then [] else [Deref(r, q)] + Visit(q, Plus(r, 1), steps - 1)
  }

  /** From `rbegin()` up to `rend()`, a reverse iterator reads the
      sequence backwards: the elements before base `j`, last first. */
  lemma {:induction false} VisitReverses(q: seq<int>, j: nat)
    requires j <= |q|
    ensures Visit(q, Reverse(j), j) == Reversed(q[..j])
    ensures j == |q| ==> Visit(q, RBegin(q), |q|) == Reversed(q) && Plus(RBegin(q), |q|) == REnd(q)
    ensures j == |q| ==> Difference(REnd(q), RBegin(q)) == |q|
    ensures j == |q| > 0 ==> Deref(RBegin(q), q) == q[|q| - 1]
  {
    if j > 0 {
      VisitReverses(q, j - 1);
      assert q[..j][..j - 1] == q[..j - 1];
    }
    if j == |q| {
      assert q[..j] == q;
    }
  }

  /**
   * A reverse iterator object, for the members `++`, `--`, `+=` and `-=`
   * that move its base in place.
   */
  class ReverseIterator {
    var current: int

    function Value(): Reverse
      reads this
    {
      Reverse(current)
    }

    /** `reverse_iterator(it)`: over base `it`. */
    constructor(it: int)
      ensures Value() == Reverse(it)
    {
      current := it;
    }

    /** Prefix `++`: the base moves back by one, to the element before. */
    method Increment()
      modifies this
      ensures Value() == Plus(old(Value()), 1)
    {
      current := current - 1;
    }

    /** Postfix `++`: as prefix `++`, answering the state before. */
    method PostIncrement() returns (prior: Reverse)
      modifies this
      ensures prior == old(Value()) && Value() == Plus(prior, 1)
    {
      prior := Value();
      current := current - 1;
    }

    /** Prefix `--`: the base moves forward by one. */
    method Decrement()
      modifies this
      ensures Value() == Minus(old(Value()), 1)
    {
      current := current + 1;
    }

    /** Postfix `--`: as prefix `--`, answering the state before. */
    method PostDecrement() returns (prior: Reverse)
      modifies this
      ensures prior == old(Value()) && Value() == Minus(prior, 1)
    {
      prior := Value();
      current := current + 1;
    }

    /** `operator+=(n)`: the base moves back by `n`. */
    method PlusAssign(n: int)
      modifies this
      ensures Value() == Plus(old(Value()), n)
    {
      current := current - n;
    }

    /** `operator-=(n)`: the base moves forward by `n`. */
    method MinusAssign(n: int)
      modifies this
      ensures Value() == Minus(old(Value()), n)
    {
      current := current + n;
    }
  }
}
