/** The two infinite streams of src/main.rs, `integers()` (1, 2, 3, ...) and
    `squares()` (1, 4, 9, ...), given element by element, and the finite
    prefix `squares().take_while(|&x| x <= bound).collect()` that the graph
    builder uses as its table of squares. Integers are unbounded here: the
    `usize` range ends long after any prefix that is taken. */
module Squares {

  /** The n-th element (counting from 0) of `integers()`, the range that starts at 1. */
  function Integer(n: nat): (r: nat)
    ensures r >= 1
    ensures n < r
  {
    n + 1
  }

  /** `integers().take(n).collect()`: the first n elements of `integers()`. */
  function TakeIntegers(n: nat): (r: seq<nat>)
    ensures |r| == n
  {
    if n == 0 then [] else TakeIntegers(n - 1) + [Integer(n - 1)]
  }

  /** `integers().take(n)` yields exactly 1, 2, ..., n. */
  lemma {:induction false} TakeIntegersExact(n: nat)
    ensures forall k :: 0 <= k < n ==> TakeIntegers(n)[k] == k + 1
  {
    if n > 0 {
      TakeIntegersExact(n - 1);
    }
  }

  /** The n-th element of `squares()`: the n-th integer multiplied by itself. */
  function Square(n: nat): (r: nat)
    ensures r >= Integer(n)
  {
    var k := Integer(n);
    assert k * k >= k * 1;
    k * k
  }

  /** x is a perfect square with a root of at least 1, i.e. x occurs in `squares()`. */
  ghost predicate IsSquare(x: int) {
    exists n: nat :: Square(n) == x
  }

  /** Consecutive elements of `squares()` differ by 2n + 3. */
  lemma SquareStep(n: nat)
    ensures Square(n + 1) == Square(n) + 2 * n + 3
  {
    assert (n + 2) * (n + 2) == (n + 1) * (n + 1) + 2 * n + 3;
  }

  /** `squares()` is strictly ascending. */
  lemma {:induction false} SquareStrictlyIncreasing(m: nat, n: nat)
    requires m < n
    ensures Square(m) < Square(n)
  {
    SquareStep(n - 1);
    if m < n - 1 {
      SquareStrictlyIncreasing(m, n - 1);
    }
  }

  /** `squares().skip(n).take_while(|&x| x <= bound).collect()`: the squares from
      stream position n on, up to the first one that exceeds the bound. */
  function TakeSquaresFrom(n: nat, bound: int): (r: seq<nat>)
    decreases bound - n
  {
    if Square(n) <= bound then [Square(n)] + TakeSquaresFrom(n + 1, bound) else []
  }

  /** `squares().take_while(|&x| x <= bound).collect()` (src/main.rs:17). */
  function SquaresUpTo(bound: int): seq<nat> {
    TakeSquaresFrom(0, bound)
  }

  /** The collected prefix holds exactly the stream elements from position n
      on that are within the bound, in stream order, and stops at the first
      one beyond it. */
  lemma {:induction false} TakeSquaresFromExact(n: nat, bound: int)
    ensures forall i :: 0 <= i < |TakeSquaresFrom(n, bound)| ==>
      TakeSquaresFrom(n, bound)[i] == Square(n + i) && Square(n + i) <= bound
    ensures Square(n + |TakeSquaresFrom(n, bound)|) > bound
    decreases bound - n
  {
    var r := TakeSquaresFrom(n, bound);
    if Square(n) <= bound {
      var rest := TakeSquaresFrom(n + 1, bound);
      TakeSquaresFromExact(n + 1, bound);
      assert r == [Square(n)] + rest;
      forall i | 0 <= i < |r| ensures r[i] == Square(n + i) && Square(n + i) <= bound {
        if i > 0 {
          assert r[i] == rest[i - 1] && n + 1 + (i - 1) == n + i;
        }
      }
      assert n + 1 + |rest| == n + |r|;
    } else {
      assert r == [];
    }
  }

  /** The table of squares is the first |SquaresUpTo(bound)| elements of
      `squares()`, all within the bound, and the next square exceeds it. */
  lemma SquaresUpToExact(bound: int)
    ensures forall i :: 0 <= i < |SquaresUpTo(bound)| ==>
      SquaresUpTo(bound)[i] == Square(i) && Square(i) <= bound
    ensures Square(|SquaresUpTo(bound)|) > bound
  {
    var s := SquaresUpTo(bound);
    TakeSquaresFromExact(0, bound);
    forall i | 0 <= i < |s| ensures s[i] == Square(i) && Square(i) <= bound {
      assert 0 + i == i;
    }
    assert 0 + |s| == |s|;
  }

  /** The table is strictly ascending and never holds 0 (the stream starts at 1*1). */
  lemma SquaresUpToAscending(bound: int)
    ensures forall p, q :: 0 <= p < q < |SquaresUpTo(bound)| ==>
      SquaresUpTo(bound)[p] < SquaresUpTo(bound)[q]
    ensures 0 !in SquaresUpTo(bound)
  {
    SquaresUpToExact(bound);
    forall p, q | 0 <= p < q < |SquaresUpTo(bound)|
      ensures SquaresUpTo(bound)[p] < SquaresUpTo(bound)[q]
    {
      SquareStrictlyIncreasing(p, q);
    }
  }

  /** x is in the table of squares iff it is a perfect square (of a root of at
      least 1) and does not exceed the bound. */
  lemma SquaresUpToMembership(bound: int, x: int)
    ensures x in SquaresUpTo(bound) <==> IsSquare(x) && x <= bound
  {
    var s := SquaresUpTo(bound);
    SquaresUpToExact(bound);
    if IsSquare(x) && x <= bound {
      var n: nat :| Square(n) == x;
      if n >= |s| {
        if n > |s| {
          SquareStrictlyIncreasing(|s|, n);
        }
        assert false;
      }
      assert s[n] == x;
    }
    if x in s {
      var i :| 0 <= i < |s| && s[i] == x;
      assert Square(i) == x;
    }
  }

  /** s holds exactly the perfect squares that do not exceed the bound. */
  ghost predicate IsSquareTable(s: seq<nat>, bound: int) {
    forall x :: x in s <==> IsSquare(x) && x <= bound
  }

  /** The collected prefix is such a table. */
  lemma SquaresUpToIsTable(bound: int)
    ensures IsSquareTable(SquaresUpTo(bound), bound)
  {
    forall x ensures x in SquaresUpTo(bound) <==> IsSquare(x) && x <= bound {
      SquaresUpToMembership(bound, x);
    }
  }

  /** A larger bound only extends the table: the table for the smaller bound is
      a prefix of the table for the larger one. */
  lemma SquaresUpToGrows(bound: int, bound': int)
    requires bound <= bound'
    ensures SquaresUpTo(bound) <= SquaresUpTo(bound')
  {
    var s, s' := SquaresUpTo(bound), SquaresUpTo(bound');
    SquaresUpToExact(bound);
    SquaresUpToExact(bound');
    if |s'| < |s| {
      assert false;
    }
    assert s == s'[..|s|];
  }
}
