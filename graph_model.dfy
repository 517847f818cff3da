/** The weighted undirected graph the Max-Cut solvers read: the node list
    `list(G.nodes())` in insertion order and the edge list `G.edges()`, each
    edge carrying its `weight` attribute. */
module GraphModel {

  /** Vertices are opaque hashable identifiers; the model uses integers. */
  type Vertex = int

  /** The undirected edge {u, v} with weight w (the default weight is 1). */
  datatype Edge = Edge(u: Vertex, v: Vertex, w: int)

  datatype Graph = Graph(nodes: seq<Vertex>, edges: seq<Edge>)

  /** The default weight `add_edge` gives an edge. */
  const DefaultWeight: int := 1

  /** `set(nodes)` */
  function NodeSet(nodes: seq<Vertex>): set<Vertex>
  {
    set x | x in nodes
  }

  lemma NodeSetAppend(nodes: seq<Vertex>, x: Vertex)
    ensures NodeSet(nodes + [x]) == NodeSet(nodes) + {x}
  {
  }

  predicate Distinct<T(==)>(s: seq<T>)
  {
    forall i, j :: 0 <= i < j < |s| ==> s[i] != s[j]
  }

  /** The two edges join the same unordered pair of vertices. */
  predicate SamePair(e: Edge, f: Edge)
  {
    (e.u == f.u && e.v == f.v) || (e.u == f.v && e.v == f.u)
  }

  predicate EndpointsIn(edges: seq<Edge>, nodes: seq<Vertex>)
  {
    forall e :: e in edges ==> e.u in nodes && e.v in nodes
  }

  /** What the graph store guarantees: each node listed once, every edge's
      endpoints are nodes, and each unordered pair is stored at most once. */
  predicate ValidGraph(g: Graph)
  {
    && Distinct(g.nodes)
    && EndpointsIn(g.edges, g.nodes)
    && forall i, j :: 0 <= i < j < |g.edges| ==> !SamePair(g.edges[i], g.edges[j])
  }

  predicate NonNegativeWeights(edges: seq<Edge>)
  {
    forall e :: e in edges ==> e.w >= 0
  }

  /** The sum of all edge weights. */
  function TotalWeight(edges: seq<Edge>): int
  {
    if edges == [] then 0 else edges[0].w + TotalWeight(edges[1..])
  }
}
