/** The candidates of the sampling heuristics: `random.sample(nodes,
    k=len(nodes)//2)` picks k distinct positions of the node list. The
    random choice is supplied by the caller as those positions. */
module Sampling {
  import opened GraphModel
  import opened Cuts

  /** `positions` is a possible outcome of `random.sample(nodes, len(nodes)//2)`. */
  predicate IsSample(nodes: seq<Vertex>, positions: seq<nat>)
  {
    && |positions| == |nodes| / 2
    && Distinct(positions)
    && forall i :: 0 <= i < |positions| ==> positions[i] < |nodes|
  }

  /** The nodes at the given positions (positions past the end pick nothing). */
  function Chosen(nodes: seq<Vertex>, positions: seq<nat>): set<Vertex>
  {
    set i | 0 <= i < |positions| && positions[i] < |nodes| :: nodes[positions[i]]
  }

  /** `S = set(random.sample(nodes, k))` and `T = set(nodes) - S`. */
  function TrialCut(nodes: seq<Vertex>, positions: seq<nat>): Cut
  {
    var S := Chosen(nodes, positions);
    Cut(S, NodeSet(nodes) - S)
  }

  /** T is the complement of S, so every trial is a bipartition. */
  lemma TrialCutIsBipartition(nodes: seq<Vertex>, positions: seq<nat>)
    ensures IsBipartition(nodes, TrialCut(nodes, positions))
  {
    var c := TrialCut(nodes, positions);
    forall x | x in c.S ensures x in NodeSet(nodes) {
      var i :| 0 <= i < |positions| && positions[i] < |nodes| && nodes[positions[i]] == x;
    }
  }

  /** The candidates of successive trials. */
  function Trials(nodes: seq<Vertex>, samples: seq<seq<nat>>): seq<Cut>
  {
    seq(|samples|, t requires 0 <= t < |samples| => TrialCut(nodes, samples[t]))
  }

  /** Distinct positions of distinct nodes pick as many nodes as positions. */
  lemma {:induction false} ChosenSize(nodes: seq<Vertex>, positions: seq<nat>)
    requires Distinct(nodes) && Distinct(positions)
    requires forall i :: 0 <= i < |positions| ==> positions[i] < |nodes|
    ensures |Chosen(nodes, positions)| == |positions|
  {
    var m := |positions|;
    if m > 0 {
      var init := positions[..m - 1];
      ChosenSize(nodes, init);
      var x := nodes[positions[m - 1]];
      assert Chosen(nodes, positions) == Chosen(nodes, init) + {x};
      forall i | 0 <= i < m - 1 ensures nodes[init[i]] != x {
        assert init[i] == positions[i] != positions[m - 1];
      }
    }
  }

  /** Every trial's S has exactly `len(nodes)//2` elements. */
  lemma TrialCutSize(nodes: seq<Vertex>, positions: seq<nat>)
    requires Distinct(nodes) && IsSample(nodes, positions)
    ensures IsBipartition(nodes, TrialCut(nodes, positions))
    ensures |TrialCut(nodes, positions).S| == |nodes| / 2
  {
    TrialCutIsBipartition(nodes, positions);
    ChosenSize(nodes, positions);
  }
}
