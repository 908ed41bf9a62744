# square-sum graph builder, modelled in Dafny

The square-sum problem asks whether the integers 1..N can be put in a row
so that every two neighbours add up to a perfect square. The program treats
this as a graph problem: one node per integer and an edge between two
integers whose sum is a square. This project models the graph builder of
`src/main.rs`:

- `integers()` and `squares()`, the infinite streams 1, 2, 3, ... and
  1, 4, 9, ...;
- the table `s` of squares, `squares().take_while(|&x| x <= limit*2 - 1)`;
- `square_sum_graph(limit)`, which appends the nodes 1..limit one by one
  and, after appending node i, scans j = 1..i and adds the edge
  (i - 1, j - 1) with weight 1 whenever i + j is in `s`.

Files:

- `squares.dfy` (module `Squares`): the streams as functions of the
  position, `TakeIntegers` for `integers().take(n)`, `SquaresUpTo` for the
  `take_while` prefix, and what is proved about them.
- `graphs.dfy` (module `Graphs`): the part of `petgraph::Graph` the builder
  uses, a class whose node weights and edges are sequences that
  `AddNode`/`AddEdge` append to.
- `square_sum.dfy` (module `SquareSum`): the builder as a method with the
  two nested loops, the edge list it builds as a function
  (`SquareSumEdges`), and the lemmas about that edge list.

Two behaviours of the code are modelled as written. The inner loop is
`integers().take(i)`, so j runs up to and including i, and integer i is
joined to itself whenever 2i is a square (2, 8, 18, ...). The table of
squares stops at `2*limit - 1`, so integer `limit` is never joined to
itself, even when 2 * limit is a square. The graph is sometimes described
as having edges only between distinct integers; the code does not work that
way, and the model follows the code. The method `SquareSumGraph` is proved
to build exactly `SquareSumEdges(limit)`. The lemmas then describe that
edge list: it holds exactly the square-sum pairs, in row order, with no
pair twice. It only grows as the limit grows.

## Model

| member | source | states |
|---|---|---|
| `Squares.Integer` | src/main.rs:8-10 | every element of `integers()` is at least 1, and the element at position n is larger than n |
| `Squares.Square` | src/main.rs:12-14 | the element of `squares()` at position n is at least the integer at position n, so squares never fall below their roots |
| `Squares.SquareStrictlyIncreasing` | src/main.rs:12-14 | `squares()` is strictly ascending |
| `Squares.TakeIntegers` | src/main.rs:19 | `integers().take(n)` yields n elements |
| `Squares.TakeIntegersExact` | src/main.rs:19-21 | `integers().take(n)` yields exactly 1, 2, ..., n in order |
| `Squares.TakeSquaresFromExact` | src/main.rs:17 | the `take_while` prefix from stream position n holds the consecutive squares from n on, each within the bound, and the first square it leaves out exceeds the bound |
| `Squares.SquaresUpToExact` | src/main.rs:17 | the table `s` is the first squares of the stream in order, all at most `limit*2 - 1`, and the next square exceeds that |
| `Squares.SquaresUpToAscending` | src/main.rs:17 | the table is strictly ascending and never holds 0 |
| `Squares.SquaresUpToMembership` | src/main.rs:17 | x is in the table iff x is a perfect square of a root of at least 1 and x is at most the bound |
| `Squares.SquaresUpToIsTable` | src/main.rs:17 | the table holds exactly the perfect squares within the bound, and nothing else |
| `Squares.SquaresUpToGrows` | src/main.rs:17 | a larger bound only extends the table: the smaller table is a prefix of the larger |
| `Graphs.Graph.constructor` | src/main.rs:18 | the default graph has no nodes and no edges |
| `Graphs.Graph.AddNode` | src/main.rs:20 | `add_node` appends one node with the given weight, returns its index and leaves the edges alone |
| `Graphs.Graph.AddEdge` | src/main.rs:23-25 | `add_edge` needs both endpoints to exist, appends the edge, even if one with the same endpoints is present, returns its index and leaves the nodes alone |
| `SquareSum.SquareSumGraph` | src/main.rs:16-30 | for limit at least 1, the graph has exactly limit nodes; the node at index k carries weight k + 1; every edge joins existing nodes; the edge list is `SquareSumEdges(limit)`, in the order the loops add it |
| `SquareSum.RowEdgesMembership` | src/main.rs:21-26 | the inner loop for integer i adds edge e iff e has weight 1, e joins i - 1 to some j - 1 with j already visited, and i + j is in the table |
| `SquareSum.RowEdgesOrdered` | src/main.rs:21-26 | the inner loop adds its edges with j ascending, all starting at node i - 1 |
| `SquareSum.GraphEdgesMembership` | src/main.rs:19-28 | after integers 1..n the graph has edge e iff e has weight 1, joins j - 1 to i - 1 with j <= i <= n, and i + j is in the table |
| `SquareSum.GraphEdgesOrdered` | src/main.rs:19-28 | the edges are listed by larger endpoint, then smaller endpoint, strictly ascending, and the smaller endpoint never exceeds the larger |
| `SquareSum.TableEdgesMembership` | src/main.rs:17-28 | with a table of exactly the squares up to a bound, the edges over 1..n are exactly the pairs j <= i <= n whose sum is a square within the bound |
| `SquareSum.SquareSumEdgesMembership` | src/main.rs:16-30 | `square_sum_graph(limit)` has edge e iff e has weight 1 and joins j - 1 to i - 1 with 1 <= j <= i <= limit, where i + j is a perfect square of at most `limit*2 - 1` |
| `SquareSum.SquareSumEdgesWithinNodes` | src/main.rs:19-25 | both endpoints of every edge are below limit, i.e. nodes of the graph |
| `SquareSum.SquareSumEdgesOrdered` | src/main.rs:19-22 | edges appear ordered by i ascending, then j ascending, and no two edges join the same two nodes, read either way round |
| `SquareSum.SquareSumSelfLoops` | src/main.rs:17-22 | integer k + 1 has a self-loop iff 2(k + 1) is a perfect square of at most `limit*2 - 1`; the last node, integer limit, never has one |
| `SquareSum.SquareSumSelfLoopExamples` | src/main.rs:17-22 | integer 2 has a self-loop exactly when limit is at least 3, and integer 8 has one when limit is at least 9 |
| `SquareSum.RowEdgesAgree` | src/main.rs:21-22 | the inner loop's edges depend on the table only through the sums it tests |
| `SquareSum.GraphEdgesAgree` | src/main.rs:19-22 | the edges over 1..n depend on the table only through the sums up to 2n |
| `SquareSum.GraphEdgesExtendTable` | src/main.rs:17-28 | adding 2n to the table, and changing nothing below it, only appends the self-loop of integer n to the edges over 1..n |
| `SquareSum.SquareSumEdgesGrow` | src/main.rs:17-28 | the edge list for limit is a prefix of the one for limit + 1, so every edge survives when the limit grows |
| `SquareSum.SquareSumEdgesOfFour` | src/main.rs:16-30 | for limit 4 the table is [1, 4] and the edges are exactly the self-loop of 2 and the edge joining 3 and 1 |

## Left out

- `main` (src/main.rs:3-6) only calls the builder with 100 and drops the result; its print is commented out.
- The storage inside `petgraph::Graph` (adjacency lists, `NodeIndex`/`EdgeIndex` types, the `Undirected` marker) is a foreign library. It is modelled as two sequences that `AddNode` and `AddEdge` append to; a `NodeIndex` is a position in the node sequence.
- The `TODO use with_capacity` on src/main.rs:18 is a preallocation hint with no effect on the result.
- `Vec::contains` on src/main.rs:22 is modelled as sequence membership.
- Machine integers: `integers()` ends at `usize::MAX` and `x*x` and `i + j` could overflow `usize`; the model uses unbounded integers. The only overflow kept is the underflow of `limit*2 - 1` for limit 0, modelled as the precondition `1 <= limit` of `SquareSumGraph` and `SquareSumEdges`.
- Edge weights are modelled as the `Byte` type (0..255) for Rust's `u8`; node weights are unbounded naturals.
- The Hamiltonian-path search, the path enumerator, the "magic" path classification, the growth driver and the command-line interface are not part of this model: none of them is in `src/main.rs`.
