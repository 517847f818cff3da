/** Small worked cases and a client that runs all three solvers on one graph. */
module Scenarios {
  import opened GraphModel
  import opened Cuts
  import opened Enumeration
  import opened Sampling
  import opened Selection
  import opened MaxCut

  /** Three nodes joined pairwise by edges of the default weight. */
  function Triangle(): (g: Graph)
    ensures ValidGraph(g) && NonNegativeWeights(g.edges)
  {
    Graph([0, 1, 2], [Edge(0, 1, DefaultWeight), Edge(1, 2, DefaultWeight), Edge(0, 2, DefaultWeight)])
  }

  /** Whatever the bipartition, two of the three nodes share a side, so at
      most two edges of the triangle cross. */
  lemma TriangleCutsAtMostTwo(c: Cut)
    requires IsBipartition(Triangle().nodes, c)
    ensures CutWeight(Triangle().edges, c) <= 2
  {
    var g := Triangle();
    assert NodeSet(g.nodes) == {0, 1, 2};
    assert 0 in c.S + c.T && 1 in c.S + c.T && 2 in c.S + c.T;
    var e0, e1, e2 := g.edges[0], g.edges[1], g.edges[2];
    var rest1, rest2 := g.edges[1..], g.edges[1..][1..];
    assert rest1[0] == e1 && rest2[0] == e2 && rest2[1..] == [];
    assert CutWeight(rest2, c) == (if Crosses(e2, c) then 1 else 0);
    assert CutWeight(rest1, c) == (if Crosses(e1, c) then 1 else 0) + CutWeight(rest2, c);
    assert CutWeight(g.edges, c)
        == (if Crosses(e0, c) then 1 else 0) + (if Crosses(e1, c) then 1 else 0) + (if Crosses(e2, c) then 1 else 0);
    assert !Crosses(e0, c) || !Crosses(e1, c) || !Crosses(e2, c);
  }

  /** The second assignment of `itertools.product` moves only the last node
      to T. */
  lemma SecondAssignment()
    ensures AssignmentOf(Triangle().nodes, 1) == Cut({0, 1}, {2})
  {
    var nodes := Triangle().nodes;
    var b := Bits(1, 3);
    assert b == [0, 0, 1];
    var c := AssignmentOf(nodes, 1);
    assert 0 in c.S && 1 in c.S;
    assert forall x :: x in c.S ==> x == 0 || x == 1;
    assert c.S == {0, 1};
    assert NodeSet(nodes) == {0, 1, 2};
  }

  /** On the triangle the exhaustive search reaches weight 2 and, being the
      first maximum, returns the cut that isolates the last node. */
  method TriangleBruteforce() returns (best: Option<Cut>, weight: int)
    ensures weight == 2
    ensures best == Some(Cut({0, 1}, {2}))
  {
    var g := Triangle();
    best, weight := MaxCutBruteforce(g);
    TriangleCutsAtMostTwo(best.value);
    var two := Cut({0, 1}, {2});
    assert NodeSet(g.nodes) == {0, 1, 2};
    assert IsBipartition(g.nodes, two);
    assert CutWeight(g.edges, two) == 2;
    var cands := Candidates(g.nodes);
    SecondAssignment();
    FirstAssignmentAllInS(g.nodes);
    CutWeightOneSideEmpty(g.edges, NodeSet(g.nodes));
    assert cands[0] == Cut(NodeSet(g.nodes), {}) && cands[1] == two;
    var i :| && 0 <= i < |cands| && cands[i] == best.value
             && forall j :: 0 <= j < i ==> CutWeight(g.edges, cands[j]) < weight;
    assert i == 1;
  }

  /** Neither heuristic can claim more than the exhaustive search: every cut
      they report is a bipartition of the same nodes. */
  method CompareSolvers(g: Graph, trials: int, samples: seq<seq<nat>>, iterations: int, sample: seq<nat>, order: seq<Vertex>)
    returns (exact: int, sampled: int, local: int)
    requires Distinct(g.nodes)
    requires |samples| == if trials > 0 then trials else 0
    requires forall t :: 0 <= t < |samples| ==> IsSample(g.nodes, samples[t])
    requires IsSample(g.nodes, sample)
    requires IsEnumeration(g.nodes, order)
    ensures sampled <= exact && local <= exact
    ensures 0 <= exact
  {
    var b1, r1, c3;
    b1, exact := MaxCutBruteforce(g);
    r1, sampled := MaxCutRandom(g, trials, samples);
    c3, local := MaxCutLocalSearch(g, iterations, sample, order);
    if r1.Some? {
      assert IsBipartition(g.nodes, r1.value);
    }
  }
}
