/**
 * `ft::pair`, instantiated with two integers.
 *
 * The comparison operators are modelled as written: `operator<` reads
 * "first is smaller, or the firsts are not ordered and the seconds are
 * equal", which holds for two equal pairs, so `<` is not a strict order
 * and `<=` fails on equal pairs. `LexLess` is the lexicographic order the
 * operator evidently means; its properties are proved below.
 */
module Pairs {

  datatype Pair = Pair(first: int, second: int)

  /** `pair()`: both members value-initialised. */
  function DefaultPair(): (p: Pair)
    ensures p.first == 0 && p.second == 0
  {
    Pair(0, 0)
  }

  /** `make_pair(first, second)`. */
  function MakePair(first: int, second: int): (p: Pair)
    ensures p.first == first && p.second == second
  {
    Pair(first, second)
  }

  /** `operator==`: member-wise equality. */
  function Equal(l: Pair, r: Pair): (b: bool)
    ensures b <==> l == r
  {
    l.first == r.first && l.second == r.second
  }

  /** `operator!=`. */
  function NotEqual(l: Pair, r: Pair): (b: bool)
    ensures b <==> l != r
  {
    !Equal(l, r)
  }

  /** `operator<`, as written: it holds exactly when `first` is smaller or
      the pairs are identical. */
  function Less(l: Pair, r: Pair): (b: bool)
    ensures b <==> l.first < r.first || l == r
  {
    l.first < r.first || (!(l.first > r.first) && l.second == r.second)
  }

  /** `operator<=`: `!(r < l)`, so `first` is not larger and the pairs
      differ. */
  function LessEqual(l: Pair, r: Pair): (b: bool)
    ensures b <==> l.first <= r.first && l != r
  {
    !Less(r, l)
  }

  /** `operator>`: `r < l`, so `first` is larger or the pairs are
      identical. */
  function Greater(l: Pair, r: Pair): (b: bool)
    ensures b <==> r.first < l.first || l == r
  {
    Less(r, l)
  }

  /** `operator>=`: `!(l < r)`, so `first` is not smaller and the pairs
      differ. */
  function GreaterEqual(l: Pair, r: Pair): (b: bool)
    ensures b <==> r.first <= l.first && l != r
  {
    !Less(l, r)
  }

  /** The order `operator<` evidently means: by `first`, then by `second`. */
  predicate LexLess(l: Pair, r: Pair) {
    l.first < r.first || (!(r.first < l.first) && l.second < r.second)
  }

  /** `operator==` is the datatype's own equality, and `!=` its negation. */
  lemma {:induction false} EqualIsIdentity(l: Pair, r: Pair)
    ensures Equal(l, r) <==> l == r
    ensures NotEqual(l, r) <==> l != r
  {
  }

  /** As written, `operator<` holds for every pair against itself, so
      `operator<=` fails for it and `operator>=` does too. */
  lemma {:induction false} LessIsReflexive(p: Pair)
    ensures Less(p, p)
    ensures !LessEqual(p, p) && !GreaterEqual(p, p)
  {
  }

  /** The smallest witness: `(1, 1) < (1, 1)` under the operator as written. */
  lemma {:induction false} LessCounterexample()
    ensures Less(Pair(1, 1), Pair(1, 1)) && !LexLess(Pair(1, 1), Pair(1, 1))
  {
  }

  /** Where the seconds differ, the operator as written agrees with the
      lexicographic order only when the firsts differ. */
  lemma {:induction false} LessAgreesOffDiagonal(l: Pair, r: Pair)
    requires l.first != r.first
    ensures Less(l, r) == LexLess(l, r)
  {
  }

  /** The lexicographic order is a strict total order on pairs. */
  lemma {:induction false} LexLessIsStrictTotal(a: Pair, b: Pair, c: Pair)
    ensures !LexLess(a, a)
    ensures LexLess(a, b) ==> !LexLess(b, a)
    ensures LexLess(a, b) && LexLess(b, c) ==> LexLess(a, c)
    ensures a == b || LexLess(a, b) || LexLess(b, a)
  {
  }

  /**
   * A pair object whose members `operator=` and `swap` overwrite in place.
   */
  class PairObject {
    var first: int
    var second: int

    function Value(): Pair
      reads this
    {
      Pair(first, second)
    }

    /** `pair(first, second)`. */
    constructor(first: int, second: int)
      ensures Value() == Pair(first, second)
    {
      this.first := first;
      this.second := second;
    }

    /** `operator=`: both members copied from `rhd`. */
    method Assign(rhd: Pair)
      modifies this
      ensures Value() == rhd
    {
      first := rhd.first;
      second := rhd.second;
    }

    /** `swap(other)`: through a temporary copy of `other`. */
    method Swap(other: PairObject)
      modifies this, other
      ensures Value() == old(other.Value())
      ensures other.Value() == old(Value())
    {
      var buf := other.Value();
      other.Assign(Value());
      Assign(buf);
    }
  }
}
