/**
 * `ft::equal` and `ft::lexicographical_compare` over integer ranges.
 *
 * An iterator range is modelled as the sequence it spans. The second
 * range of `equal` is read for as many elements as the first holds,
 * so the caller must supply at least that many.
 */
module Algorithm {

  /** Whether `a` is a prefix of `b` under `pred`, element by element. */
  ghost predicate PairwiseAll(a: seq<int>, b: seq<int>, pred: (int, int) -> bool)
    requires |a| <= |b|
  {
    forall i :: 0 <= i < |a| ==> pred(a[i], b[i])
  }

  /** `equal(first1, last, first2)`: walks the first range, comparing with `!=`. */
  method Equal(a: seq<int>, b: seq<int>) returns (r: bool)
    requires |a| <= |b|
    ensures r <==> a == b[..|a|]
  {
    var i := 0;
    while i < |a|
      invariant 0 <= i <= |a|
      invariant a[..i] == b[..i]
    {
      if a[i] != b[i] {
        assert a[i] == a[..|a|][i] && b[i] == b[..|a|][i];
        return false;
      }
      assert a[..i + 1] == a[..i] + [a[i]] && b[..i + 1] == b[..i] + [b[i]];
      i := i + 1;
    }
    assert a[..i] == a;
    return true;
  }

  /** `equal(first1, last, first2, pred)`: stops at the first pair `pred` rejects. */
  method EqualBy(a: seq<int>, b: seq<int>, pred: (int, int) -> bool) returns (r: bool)
    requires |a| <= |b|
    ensures r <==> PairwiseAll(a, b, pred)
  {
    var i := 0;
    while i < |a|
      invariant 0 <= i <= |a|
      invariant forall k :: 0 <= k < i ==> pred(a[k], b[k])
    {
      if !pred(a[i], b[i]) {
        return false;
      }
      i := i + 1;
    }
    return true;
  }

  /** Lexicographic "less than" of two integer sequences. */
  function LexLess(a: seq<int>, b: seq<int>): bool {
    if a == [] then b != []
    else if b == [] then false
    else a[0] < b[0] || (a[0] == b[0] && LexLess(a[1..], b[1..]))
  }

  /** `lexicographical_compare(first1, last1, first2, last2)` with `<`. */
  method LexicographicalCompare(a: seq<int>, b: seq<int>) returns (r: bool)
    ensures r == LexLess(a, b)
  {
    var i := 0;
    while i < |a|
      invariant 0 <= i <= |a| && i <= |b|
      invariant a[..i] == b[..i]
      invariant LexLess(a, b) == LexLess(a[i..], b[i..])
    {
      if i == |b| || b[i] < a[i] {
        return false;
      }
      if a[i] < b[i] {
        return true;
      }
      assert a[i..][1..] == a[i + 1..] && b[i..][1..] == b[i + 1..];
      assert a[..i + 1] == a[..i] + [a[i]] && b[..i + 1] == b[..i] + [b[i]];
      i := i + 1;
    }
    return i != |b|;
  }

  /** What the comparator overload answers as written: its loop body returns
      in the first round whatever `comp` says of the first elements. */
  function FirstRoundVerdict(a: seq<int>, b: seq<int>, comp: (int, int) -> bool): bool {
    if a == [] then b != [] else b != [] && !comp(a[0], b[0])
  }

  /** `lexicographical_compare(first1, last1, first2, last2, comp)`, as written:
      `i` walks the first range and `j` the second. The second test is the
      negation of the first, so every round returns and the walk never
      passes its first element (the invariant `i == 0`). */
  method LexicographicalCompareBy(a: seq<int>, b: seq<int>, comp: (int, int) -> bool)
    returns (r: bool)
    ensures r == FirstRoundVerdict(a, b, comp)
  {
    var j := 0;
    for i := 0 to |a|
      invariant i == 0 && j == i
    {
      if j == |b| || comp(a[i], b[j]) {
        return false;
      }
      if !comp(a[i], b[j]) {
        return true;
      }
      j := j + 1;
    }
    return j != |b|;
  }

  /** The overload as written disagrees with the comparison it is named for:
      with `<` as the comparator, `[1]` is not reported less than `[2]`. */
  lemma {:induction false} CompareByCounterexample()
    ensures !FirstRoundVerdict([1], [2], (x: int, y: int) => x < y)
    ensures LexLess([1], [2])
  {
  }

  /** Lexicographic order under a comparator, the way the `<` overload walks. */
  function LexLessBy(a: seq<int>, b: seq<int>, comp: (int, int) -> bool): bool {
    if a == [] then b != []
    else if b == [] || comp(b[0], a[0]) then false
    else comp(a[0], b[0]) || LexLessBy(a[1..], b[1..], comp)
  }

  /** The comparator overload as evidently intended: the loop of the `<`
      overload with `comp` in place of `<`. */
  method LexicographicalCompareByIntended(a: seq<int>, b: seq<int>, comp: (int, int) -> bool)
    returns (r: bool)
    ensures r == LexLessBy(a, b, comp)
  {
    var i := 0;
    while i < |a|
      invariant 0 <= i <= |a| && i <= |b|
      invariant LexLessBy(a, b, comp) == LexLessBy(a[i..], b[i..], comp)
    {
      if i == |b| || comp(b[i], a[i]) {
        return false;
      }
      if comp(a[i], b[i]) {
        return true;
      }
      assert a[i..][1..] == a[i + 1..] && b[i..][1..] == b[i + 1..];
      i := i + 1;
    }
    return i != |b|;
  }

  /** With `<` as the comparator, the intended overload is the plain one. */
  lemma {:induction false} LexLessByLess(a: seq<int>, b: seq<int>)
    ensures LexLessBy(a, b, (x: int, y: int) => x < y) == LexLess(a, b)
  {
    if a != [] && b != [] {
      LexLessByLess(a[1..], b[1..]);
    }
  }

  /** Lexicographic "less than" is irreflexive and asymmetric, and exactly one
      of `a < b`, `a == b`, `b < a` holds. */
  lemma {:induction false} LexLessIsStrictTotal(a: seq<int>, b: seq<int>)
    ensures !LexLess(a, a)
    ensures LexLess(a, b) ==> !LexLess(b, a)
    ensures a == b || LexLess(a, b) || LexLess(b, a)
  {
    if a != [] && b != [] {
      LexLessIsStrictTotal(a[1..], b[1..]);
      if a[0] == b[0] && a[1..] == b[1..] {
        assert a == [a[0]] + a[1..] && b == [b[0]] + b[1..];
      }
    } else if a != [] {
      LexLessIsStrictTotal(a[1..], a[1..]);
    }
  }

  /** Lexicographic "less than" is transitive. */
  lemma {:induction false} LexLessTransitive(a: seq<int>, b: seq<int>, c: seq<int>)
    requires LexLess(a, b) && LexLess(b, c)
    ensures LexLess(a, c)
  {
    if a != [] && b != [] && c != [] && a[0] == b[0] && b[0] == c[0] {
      LexLessTransitive(a[1..], b[1..], c[1..]);
    }
  }
}
