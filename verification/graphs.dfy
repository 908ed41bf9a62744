/** The part of `petgraph::Graph<usize, u8, Undirected, usize>` that the
    square-sum builder uses: a graph that is only ever appended to. Nodes are
    numbered by insertion order (a `NodeIndex` is a position in `nodes`) and
    carry a `usize` weight; edges are kept in insertion order as endpoint
    pairs with a `u8` weight. The graph is undirected, so an edge (a, b) joins
    a and b whichever way round it was added. */
module Graphs {

  /** Rust's `u8`, the type of an edge weight. */
  newtype Byte = x: int | 0 <= x < 0x100

  /** An undirected edge between the nodes at positions a and b. */
  datatype Edge = Edge(a: nat, b: nat, weight: Byte)

  class Graph {
    /** Node weights, indexed by node index. */
    var nodes: seq<nat>
    /** Edges in the order they were added. */
    var edges: seq<Edge>

    /** Every edge joins two nodes that exist. */
    ghost predicate Valid()
      reads this
    {
      forall e :: e in edges ==> e.a < |nodes| && e.b < |nodes|
    }

    /** `Graph::default()`: no nodes, no edges. */
    constructor ()
      ensures nodes == [] && edges == []
    {
      nodes := [];
      edges := [];
    }

    /** `add_node(weight)`: appends a node and returns its index. */
    method AddNode(weight: nat) returns (ix: nat)
      modifies this
      ensures ix == |old(nodes)|
      ensures nodes == old(nodes) + [weight] && edges == old(edges)
    {
      ix := |nodes|;
      nodes := nodes + [weight];
    }

    /** `add_edge(a, b, weight)`: appends an edge and returns its index. Both
        endpoints must already be nodes (petgraph panics otherwise); an edge
        that is already present is added again, not merged. */
    method AddEdge(a: nat, b: nat, weight: Byte) returns (ix: nat)
      requires a < |nodes| && b < |nodes|
      modifies this
      ensures ix == |old(edges)|
      ensures edges == old(edges) + [Edge(a, b, weight)] && nodes == old(nodes)
    {
      ix := |edges|;
      edges := edges + [Edge(a, b, weight)];
    }
  }
}
