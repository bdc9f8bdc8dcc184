/**
 * `ft::stack` (stack.hpp) over its default container, the vector: the top
 * of the stack is the vector's last element.
 */
module Stacks {
  import Algorithm
  import opened Vectors

  class Stack {
    /** The underlying container `c`. */
    const c: Vector

    ghost predicate Valid()
      reads this, c
    {
      c.Valid()
    }

    /** The elements from the bottom to the top. */
    ghost function Contents(): seq<int>
      reads this, c, c.values
      requires Valid()
    {
      c.Elements()
    }

    /** `stack(ctnr)`: a copy of the container. */
    constructor(ctnr: Vector)
      requires ctnr.Valid()
      ensures Valid() && Contents() == ctnr.Elements() && fresh(c) && fresh(c.values)
    {
      var copy := new Vector();
      copy.Assign(ctnr);
      c := copy;
    }

    /** `empty()`: the container's. */
    method Empty() returns (b: bool)
      requires Valid()
      ensures b <==> Contents() == []
    {
      b := c.Empty();
    }

    /** `size()`: the container's. */
    method Size() returns (n: nat)
      requires Valid()
      ensures n == |Contents()|
    {
      n := c.Size();
    }

    /** `top()`: the container's `back()`, the element pushed last. */
    method Top() returns (r: int)
      requires Valid() && Contents() != []
      ensures r == Contents()[|Contents()| - 1]
    {
      r := c.Back();
    }

    /** `push(val)`: the container's `push_back`. */
    method Push(val: int)
      requires Valid()
      modifies c, c.values
      ensures Valid() && Contents() == old(Contents()) + [val]
    {
      c.PushBack(val);
    }

    /** `pop()`: the container's `pop_back`; nothing on an empty stack. */
    method Pop()
      requires Valid()
      modifies c
      ensures Valid()
      ensures Contents() == if old(Contents()) == [] then [] else old(Contents())[..|old(Contents())| - 1]
    {
      c.PopBack();
    }

    /** `swap(ref)`: the two containers' `swap`. */
    method Swap(other: Stack)
      requires Valid() && other.Valid()
      modifies c, other.c
      ensures Valid() && other.Valid()
      ensures Contents() == old(other.Contents()) && other.Contents() == old(Contents())
    {
      c.Swap(other.c);
    }
  }

  // ---------------------------------------------------------------------
  // The comparison operators, delegated to the containers'
  // ---------------------------------------------------------------------

  /** `operator==`: the containers' `==`. */
  method Equal(lhd: Stack, rhd: Stack) returns (r: bool)
    requires lhd.Valid() && rhd.Valid()
    ensures r <==> lhd.Contents() == rhd.Contents()
  {
    r := Vectors.Equal(lhd.c, rhd.c);
  }

  /** `operator!=`: the negation of the containers' `==`. */
  method NotEqual(lhd: Stack, rhd: Stack) returns (r: bool)
    requires lhd.Valid() && rhd.Valid()
    ensures r <==> lhd.Contents() != rhd.Contents()
  {
    var eq := Vectors.Equal(lhd.c, rhd.c);
    r := !eq;
  }

  /** `operator<`: the containers' `<`, lexicographic order from the
      bottom. */
  method Less(lhd: Stack, rhd: Stack) returns (r: bool)
    requires lhd.Valid() && rhd.Valid()
    ensures r == Algorithm.LexLess(lhd.Contents(), rhd.Contents())
  {
    r := Vectors.Less(lhd.c, rhd.c);
  }

  /** `operator<=`: `!(rhd.c < lhd.c)`, which is less or equal. */
  method LessEqual(lhd: Stack, rhd: Stack) returns (r: bool)
    requires lhd.Valid() && rhd.Valid()
    ensures r <==> Algorithm.LexLess(lhd.Contents(), rhd.Contents()) || lhd.Contents() == rhd.Contents()
  {
    var l := Vectors.Less(rhd.c, lhd.c);
    r := !l;
    Algorithm.LexLessIsStrictTotal(lhd.Contents(), rhd.Contents());
  }

  /** `operator>`: `rhd.c < lhd.c`. */
  method Greater(lhd: Stack, rhd: Stack) returns (r: bool)
    requires lhd.Valid() && rhd.Valid()
    ensures r == Algorithm.LexLess(rhd.Contents(), lhd.Contents())
  {
    r := Vectors.Less(rhd.c, lhd.c);
  }

  /** `operator>=`: `!(lhd.c < rhd.c)`, which is greater or equal. */
  method GreaterEqual(lhd: Stack, rhd: Stack) returns (r: bool)
    requires lhd.Valid() && rhd.Valid()
    ensures r <==> Algorithm.LexLess(rhd.Contents(), lhd.Contents()) || lhd.Contents() == rhd.Contents()
  {
    var l := Vectors.Less(lhd.c, rhd.c);
    r := !l;
    Algorithm.LexLessIsStrictTotal(lhd.Contents(), rhd.Contents());
  }
}
