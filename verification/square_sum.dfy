/** `square_sum_graph(limit)` (src/main.rs:16-30): the graph on the integers
    1..limit in which i and j are joined when i + j is a perfect square.
    Integer i is node i - 1. For every i the builder visits j = 1..i, so a
    pair is considered once, with j <= i, and i joins itself when 2i is a
    square; the table of squares stops at 2 * limit - 1, so the last node
    never joins itself. */
module SquareSum {
  import opened Squares
  import opened Graphs

  /** The edges the inner loop adds for integer i after visiting j = 1..m:
      (i - 1, j - 1) with weight 1 for each j whose sum with i is in s. */
  function RowEdges(s: seq<nat>, i: nat, m: nat): seq<Edge>
    requires 1 <= i
  {
    if m == 0 then []
    else RowEdges(s, i, m - 1) + (if i + m in s then [Edge(i - 1, m - 1, 1)] else [])
  }

  /** The edges the outer loop has added after visiting i = 1..n. */
  function GraphEdges(s: seq<nat>, n: nat): seq<Edge> {
    if n == 0 then [] else GraphEdges(s, n - 1) + RowEdges(s, n, n)
  }

  /** The largest sum the builder's table of squares admits. */
  function SquareBound(limit: nat): int {
    2 * limit - 1
  }

  /** The edge list of `square_sum_graph(limit)`, in the order it is built. */
  function SquareSumEdges(limit: nat): seq<Edge>
    requires 1 <= limit
  {
    GraphEdges(SquaresUpTo(SquareBound(limit)), limit)
  }

  /** e joins the integers e.a + 1 and e.b + 1, and those sum to a square
      within the builder's bound; the larger integer is at most limit. */
  ghost predicate SquareSumEdge(limit: nat, e: Edge) {
    e.weight == 1 && e.b <= e.a < limit &&
    IsSquare(e.a + e.b + 2) && e.a + e.b + 2 <= SquareBound(limit)
  }

  /** Edge e comes before edge f in the order (larger endpoint, smaller endpoint). */
  predicate Precedes(e: Edge, f: Edge) {
    e.a < f.a || (e.a == f.a && e.b < f.b)
  }

  /** Edges listed strictly in the order of Precedes. */
  predicate Ordered(es: seq<Edge>) {
    forall p, q :: 0 <= p < q < |es| ==> Precedes(es[p], es[q])
  }

  /** e and f join the same two nodes, read either way round. */
  predicate SameEndpoints(e: Edge, f: Edge) {
    (e.a == f.a && e.b == f.b) || (e.a == f.b && e.b == f.a)
  }

  /** No two nodes are joined by more than one edge. */
  predicate NoParallelEdges(es: seq<Edge>) {
    forall p, q :: 0 <= p < q < |es| ==> !SameEndpoints(es[p], es[q])
  }

  /** `square_sum_graph(limit)`. `limit * 2 - 1` underflows `usize` for
      limit 0, so limit must be at least 1. */
  method SquareSumGraph(limit: nat) returns (g: Graph)
    requires 1 <= limit
    ensures g.Valid()
    ensures |g.nodes| == limit
    ensures forall k :: 0 <= k < limit ==> g.nodes[k] == Integer(k)
    ensures g.edges == SquareSumEdges(limit)
  {
    var s := SquaresUpTo(SquareBound(limit));
    g := new Graph();
    for i := 1 to limit + 1
      invariant g.nodes == TakeIntegers(i - 1)
      invariant g.edges == GraphEdges(s, i - 1)
    {
      var _ := g.AddNode(i);
      ghost var done := g.edges;
      for j := 1 to i + 1
        invariant g.nodes == TakeIntegers(i)
        invariant g.edges == done + RowEdges(s, i, j - 1)
      {
        if i + j in s {
          var _ := g.AddEdge(i - 1, j - 1, 1);
        }
        assert RowEdges(s, i, j) == RowEdges(s, i, j - 1) + (if i + j in s then [Edge(i - 1, j - 1, 1)] else []);
      }
    }
    TakeIntegersExact(limit);
    SquareSumEdgesWithinNodes(limit);
  }

  /** An edge of row i joins i to some j <= m whose sum with i is in s. */
  lemma {:induction false} RowEdgesMembership(s: seq<nat>, i: nat, m: nat, e: Edge)
    requires 1 <= i
    ensures e in RowEdges(s, i, m) <==>
      e.weight == 1 && e.a == i - 1 && e.b < m && e.a + e.b + 2 in s
  {
    if m > 0 {
      var last := Edge(i - 1, m - 1, 1);
      RowEdgesMembership(s, i, m - 1, e);
      assert last.a + last.b + 2 == i + m;
      if e == last {
      } else {
        assert e in RowEdges(s, i, m) <==> e in RowEdges(s, i, m - 1);
      }
    }
  }

  /** The edges of one row are listed with their smaller endpoint ascending. */
  lemma {:induction false} RowEdgesOrdered(s: seq<nat>, i: nat, m: nat)
    requires 1 <= i
    ensures Ordered(RowEdges(s, i, m))
    ensures forall e :: e in RowEdges(s, i, m) ==> e.a == i - 1 && e.b < m
  {
    if m > 0 {
      RowEdgesOrdered(s, i, m - 1);
    }
  }

  /** An edge built from table s over the integers 1..n joins integers
      j <= i <= n whose sum is in s. */
  lemma {:induction false} GraphEdgesMembership(s: seq<nat>, n: nat, e: Edge)
    ensures e in GraphEdges(s, n) <==>
      e.weight == 1 && e.b <= e.a < n && e.a + e.b + 2 in s
  {
    if n > 0 {
      GraphEdgesMembership(s, n - 1, e);
      RowEdgesMembership(s, n, n, e);
    }
  }

  /** The edges are listed row by row, and within a row by smaller endpoint. */
  lemma {:induction false} GraphEdgesOrdered(s: seq<nat>, n: nat)
    ensures Ordered(GraphEdges(s, n))
    ensures forall e :: e in GraphEdges(s, n) ==> e.b <= e.a < n
  {
    if n > 0 {
      var prev, row := GraphEdges(s, n - 1), RowEdges(s, n, n);
      GraphEdgesOrdered(s, n - 1);
      RowEdgesOrdered(s, n, n);
      var es := prev + row;
      forall p, q | 0 <= p < q < |es| ensures Precedes(es[p], es[q]) {
        if q < |prev| {
        } else if p < |prev| {
          assert es[p] in prev && es[q] in row;
        } else {
          assert es[p] == row[p - |prev|] && es[q] == row[q - |prev|];
        }
      }
    }
  }

  /** With a table holding exactly the squares up to a bound, an edge over
      1..n joins integers j <= i <= n whose sum is a square within the bound. */
  lemma TableEdgesMembership(s: seq<nat>, bound: int, n: nat, e: Edge)
    requires IsSquareTable(s, bound)
    ensures e in GraphEdges(s, n) <==>
      e.weight == 1 && e.b <= e.a < n && IsSquare(e.a + e.b + 2) && e.a + e.b + 2 <= bound
  {
    GraphEdgesMembership(s, n, e);
    assert e.a + e.b + 2 in s <==> IsSquare(e.a + e.b + 2) && e.a + e.b + 2 <= bound;
  }

  /** The square-sum rule: `square_sum_graph(limit)` has an edge e iff e has
      weight 1 and joins integers j <= i <= limit whose sum is a perfect
      square no larger than 2 * limit - 1. In particular both endpoints are
      nodes of the graph. */
  lemma SquareSumEdgesMembership(limit: nat, e: Edge)
    requires 1 <= limit
    ensures e in SquareSumEdges(limit) <==> SquareSumEdge(limit, e)
  {
    SquaresUpToIsTable(SquareBound(limit));
    TableEdgesMembership(SquaresUpTo(SquareBound(limit)), SquareBound(limit), limit, e);
  }

  /** Every edge joins two of the limit nodes. */
  lemma SquareSumEdgesWithinNodes(limit: nat)
    requires 1 <= limit
    ensures forall e :: e in SquareSumEdges(limit) ==> e.a < limit && e.b < limit
  {
    forall e | e in SquareSumEdges(limit) ensures e.a < limit && e.b < limit {
      SquareSumEdgesMembership(limit, e);
    }
  }

  /** Edges appear ordered by the larger integer, then by the smaller, and
      so no pair of nodes is joined twice. */
  lemma SquareSumEdgesOrdered(limit: nat)
    requires 1 <= limit
    ensures Ordered(SquareSumEdges(limit))
    ensures NoParallelEdges(SquareSumEdges(limit))
  {
    var es := SquareSumEdges(limit);
    GraphEdgesOrdered(SquaresUpTo(SquareBound(limit)), limit);
    forall p, q | 0 <= p < q < |es| ensures !SameEndpoints(es[p], es[q]) {
      assert es[p] in es && es[q] in es;
      assert Precedes(es[p], es[q]);
    }
  }

  /** Integer k + 1 is joined to itself iff 2(k + 1) is a perfect square no
      larger than 2 * limit - 1; so the last node, integer limit, never is. */
  lemma SquareSumSelfLoops(limit: nat, k: nat)
    requires 1 <= limit
    ensures Edge(k, k, 1) in SquareSumEdges(limit) <==>
      IsSquare(2 * k + 2) && 2 * k + 2 <= SquareBound(limit)
    ensures forall e :: e in SquareSumEdges(limit) && e.a == e.b ==> e.a < limit - 1
  {
    SquareSumEdgesMembership(limit, Edge(k, k, 1));
    forall e | e in SquareSumEdges(limit) && e.a == e.b ensures e.a < limit - 1 {
      SquareSumEdgesMembership(limit, e);
    }
  }

  /** Integer 2 joins itself (2 + 2 = 4) once limit is at least 3, and
      integer 8 joins itself (8 + 8 = 16) once limit is at least 9. */
  lemma SquareSumSelfLoopExamples(limit: nat)
    requires 1 <= limit
    ensures 3 <= limit ==> Edge(1, 1, 1) in SquareSumEdges(limit)
    ensures 9 <= limit ==> Edge(7, 7, 1) in SquareSumEdges(limit)
    ensures limit < 3 ==> Edge(1, 1, 1) !in SquareSumEdges(limit)
  {
    assert Square(1) == 4 && Square(3) == 16;
    SquareSumEdgesMembership(limit, Edge(1, 1, 1));
    SquareSumEdgesMembership(limit, Edge(7, 7, 1));
  }

  /** Tables that agree on the sums i + 1..i + m give the same row. */
  lemma {:induction false} RowEdgesAgree(s: seq<nat>, s': seq<nat>, i: nat, m: nat)
    requires 1 <= i
    requires forall x :: i < x <= i + m ==> (x in s <==> x in s')
    ensures RowEdges(s, i, m) == RowEdges(s', i, m)
  {
    if m > 0 {
      RowEdgesAgree(s, s', i, m - 1);
    }
  }

  /** Tables that agree on every sum up to 2n give the same edges over 1..n. */
  lemma {:induction false} GraphEdgesAgree(s: seq<nat>, s': seq<nat>, n: nat)
    requires forall x :: x <= 2 * n ==> (x in s <==> x in s')
    ensures GraphEdges(s, n) == GraphEdges(s', n)
  {
    if n > 0 {
      GraphEdgesAgree(s, s', n - 1);
      RowEdgesAgree(s, s', n, n);
    }
  }

  /** A table that agrees with s on every sum up to 2n - 1, and may in
      addition hold 2n, gives the edges from s over 1..n, followed by the
      self-loop of integer n when 2n is in the new table. */
  lemma GraphEdgesExtendTable(s: seq<nat>, s': seq<nat>, n: nat)
    requires 1 <= n
    requires forall x :: x <= 2 * n - 1 ==> (x in s <==> x in s')
    requires 2 * n !in s
    ensures GraphEdges(s', n) == GraphEdges(s, n) +
      (if 2 * n in s' then [Edge(n - 1, n - 1, 1)] else [])
    ensures GraphEdges(s, n) <= GraphEdges(s', n)
  {
    var selfLoop := if 2 * n in s' then [Edge(n - 1, n - 1, 1)] else [];
    var before := GraphEdges(s, n - 1) + RowEdges(s, n, n - 1);
    assert GraphEdges(s, n) == before;
    assert GraphEdges(s', n) == before + selfLoop by {
      GraphEdgesAgree(s, s', n - 1);
      RowEdgesAgree(s, s', n, n - 1);
      assert RowEdges(s', n, n) == RowEdges(s', n, n - 1) + selfLoop;
    }
    assert (before + selfLoop)[..|before|] == before;
  }

  /** Growing the limit by one only appends: the edges for limit are a prefix
      of the edges for limit + 1 (the new ones are the self-loop of integer
      limit, when 2 * limit is a square, and the row of integer limit + 1),
      so every edge of the smaller graph is in the larger one. */
  lemma SquareSumEdgesGrow(limit: nat)
    requires 1 <= limit
    ensures SquareSumEdges(limit) <= SquareSumEdges(limit + 1)
    ensures forall e :: e in SquareSumEdges(limit) ==> e in SquareSumEdges(limit + 1)
  {
    var b, b' := SquareBound(limit), SquareBound(limit + 1);
    var s, s' := SquaresUpTo(b), SquaresUpTo(b');
    var small, large := SquareSumEdges(limit), SquareSumEdges(limit + 1);
    ghost var grown := GraphEdges(s', limit);
    assert small <= grown by {
      SquaresUpToIsTable(b);
      SquaresUpToIsTable(b');
      GraphEdgesExtendTable(s, s', limit);
    }
    assert large == grown + RowEdges(s', limit + 1, limit + 1);
    assert large[..|small|] == small;
  }

  /** For limit 4 the table of squares is [1, 4] and the graph has two edges:
      the self-loop of integer 2 and the edge joining 3 and 1; integer 4 is
      joined to nothing. */
  lemma SquareSumEdgesOfFour()
    ensures SquaresUpTo(SquareBound(4)) == [1, 4]
    ensures SquareSumEdges(4) == [Edge(1, 1, 1), Edge(2, 0, 1)]
  {
    assert Square(0) == 1 && Square(1) == 4 && Square(2) == 9;
    assert SquaresUpTo(7) == [1, 4];
  }
}
