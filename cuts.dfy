/** The cut-weight computation shared by the three Max-Cut solvers. */
module Cuts {
  import opened GraphModel

  /** A candidate answer `(S, T)`. */
  datatype Cut = Cut(S: set<Vertex>, T: set<Vertex>)

  /** S and T are disjoint and together hold exactly the nodes. */
  predicate IsBipartition(nodes: seq<Vertex>, c: Cut)
  {
    c.S + c.T == NodeSet(nodes) && c.S !! c.T
  }

  /** `(u in S and v in T) or (u in T and v in S)` */
  predicate Crosses(e: Edge, c: Cut)
  {
    (e.u in c.S && e.v in c.T) || (e.u in c.T && e.v in c.S)
  }

  /** The sum of the weights of the edges that cross the cut. */
  function CutWeight(edges: seq<Edge>, c: Cut): int
  {
    if edges == [] then 0
    else (if Crosses(edges[0], c) then edges[0].w else 0) + CutWeight(edges[1..], c)
  }

  /** Edges that do not cross contribute nothing. */
  lemma {:induction false} CutWeightNoCrossing(edges: seq<Edge>, c: Cut)
    requires forall e :: e in edges ==> !Crosses(e, c)
    ensures CutWeight(edges, c) == 0
  {
    if edges != [] {
      CutWeightNoCrossing(edges[1..], c);
    }
  }

  /** When every edge crosses, the cut weight is the total weight. */
  lemma {:induction false} CutWeightAllCrossing(edges: seq<Edge>, c: Cut)
    requires forall e :: e in edges ==> Crosses(e, c)
    ensures CutWeight(edges, c) == TotalWeight(edges)
  {
    if edges != [] {
      CutWeightAllCrossing(edges[1..], c);
    }
  }

  /** With non-negative weights the cut weight lies between 0 and the total. */
  lemma {:induction false} CutWeightBounds(edges: seq<Edge>, c: Cut)
    requires NonNegativeWeights(edges)
    ensures 0 <= CutWeight(edges, c) <= TotalWeight(edges)
  {
    if edges != [] {
      CutWeightBounds(edges[1..], c);
    }
  }

  /** If one side is empty no edge crosses. */
  lemma CutWeightOneSideEmpty(edges: seq<Edge>, S: set<Vertex>)
    ensures CutWeight(edges, Cut(S, {})) == 0
    ensures CutWeight(edges, Cut({}, S)) == 0
  {
    CutWeightNoCrossing(edges, Cut(S, {}));
    CutWeightSymmetric(edges, S, {});
  }

  /** The sum of the weights of the edges with both endpoints in X. */
  function InternalWeight(edges: seq<Edge>, X: set<Vertex>): int
  {
    if edges == [] then 0
    else (if edges[0].u in X && edges[0].v in X then edges[0].w else 0) + InternalWeight(edges[1..], X)
  }

  /** Swapping the two sides does not change the cut weight. */
  lemma {:induction false} CutWeightSymmetric(edges: seq<Edge>, S: set<Vertex>, T: set<Vertex>)
    ensures CutWeight(edges, Cut(S, T)) == CutWeight(edges, Cut(T, S))
  {
    if edges != [] {
      CutWeightSymmetric(edges[1..], S, T);
    }
  }

  /** Over a bipartition every edge either crosses or lies inside one side,
      so the cut weight is exactly what the two sides do not keep inside. */
  lemma {:induction false} CutPlusInternal(nodes: seq<Vertex>, edges: seq<Edge>, c: Cut)
    requires EndpointsIn(edges, nodes)
    requires IsBipartition(nodes, c)
    ensures TotalWeight(edges) == CutWeight(edges, c) + InternalWeight(edges, c.S) + InternalWeight(edges, c.T)
  {
    if edges != [] {
      var e := edges[0];
      assert e.u in NodeSet(nodes) && e.v in NodeSet(nodes);
      CutPlusInternal(nodes, edges[1..], c);
    }
  }

  /** Moving vertex x from S to T (the trial move of the local search). */
  function Move(c: Cut, x: Vertex): (r: Cut)
  {
    Cut(c.S - {x}, c.T + {x})
  }

  /** A move keeps a bipartition a bipartition and shrinks S by one. */
  lemma MoveKeepsBipartition(nodes: seq<Vertex>, c: Cut, x: Vertex)
    requires IsBipartition(nodes, c) && x in c.S
    ensures IsBipartition(nodes, Move(c, x))
    ensures |Move(c, x).S| == |c.S| - 1
  {
  }

  /** Moving x back from T to S undoes the move. */
  lemma MoveUndone(c: Cut, x: Vertex)
    requires x in c.S && x !in c.T
    ensures Cut(Move(c, x).S + {x}, Move(c, x).T - {x}) == c
  {
  }

  /** No single S-to-T move strictly increases the cut weight. */
  predicate LocalOptimum(edges: seq<Edge>, c: Cut)
  {
    forall x {:trigger Move(c, x)} :: x in c.S ==> CutWeight(edges, Move(c, x)) <= CutWeight(edges, c)
  }
}
