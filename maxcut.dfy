/** The three Max-Cut solvers of `GraphLib`: exhaustive search, random
    sampling and first-improvement local search. */
module MaxCut {
  import opened GraphModel
  import opened Cuts
  import opened Enumeration
  import opened Sampling
  import opened Selection

  /** The default of `trials` for the sampling search. */
  const DefaultTrials: int := 1000

  /** The default of `iterations` for the local search. */
  const DefaultIterations: int := 100

  /** Tries all 2^n assignments in `itertools.product` order and keeps the
      first one whose cut weight is strictly above the best so far. An empty
      graph has exactly one assignment, the empty one. */
  method MaxCutBruteforce(g: Graph) returns (best: Option<Cut>, weight: int)
    ensures Best(best, weight) == Scan(g.edges, Candidates(g.nodes))
    ensures IsFirstMaximum(g.edges, Candidates(g.nodes), Best(best, weight))
    ensures best.Some? && IsBipartition(g.nodes, best.value) && weight == CutWeight(g.edges, best.value)
    ensures forall c :: IsBipartition(g.nodes, c) ==> CutWeight(g.edges, c) <= weight
    ensures weight >= 0
    ensures g.nodes == [] ==> best == Some(Cut({}, {})) && weight == 0
  {
    var nodes := g.nodes;
    best, weight := None, -1;
    ghost var cands := Candidates(nodes);
    var total := Pow2(|nodes|);
    var k := 0;
    while k < total
      invariant 0 <= k <= total
      invariant Best(best, weight) == Scan(g.edges, cands[..k])
    {
      var c := AssignmentOf(nodes, k);
      var cw := CutWeight(g.edges, c);
      ScanStep(g.edges, cands, k);
      if cw > weight {
        best, weight := Some(c), cw;
      }
      k := k + 1;
    }
    assert cands[..k] == cands;
    BruteforceResult(g, Best(best, weight));
  }

  /** The facts about the exhaustive search's result that follow from its
      being the first maximum over all candidates. */
  lemma BruteforceResult(g: Graph, r: Best)
    requires r == Scan(g.edges, Candidates(g.nodes))
    ensures IsFirstMaximum(g.edges, Candidates(g.nodes), r)
    ensures r.cut.Some? && IsBipartition(g.nodes, r.cut.value) && r.weight == CutWeight(g.edges, r.cut.value)
    ensures forall c :: IsBipartition(g.nodes, c) ==> CutWeight(g.edges, c) <= r.weight
    ensures r.weight >= 0
    ensures g.nodes == [] ==> r == Best(Some(Cut({}, {})), 0)
  {
    var nodes, cands := g.nodes, Candidates(g.nodes);
    ScanIsFirstMaximum(g.edges, cands);
    FirstAssignmentAllInS(nodes);
    CutWeightOneSideEmpty(g.edges, NodeSet(nodes));
    assert CutWeight(g.edges, cands[0]) == 0;
    var i :| && 0 <= i < |cands| && cands[i] == r.cut.value
             && CutWeight(g.edges, cands[i]) == r.weight > -1
             && forall j :: 0 <= j < i ==> CutWeight(g.edges, cands[j]) < r.weight;
    AssignmentIsBipartition(nodes, Bits(i, |nodes|));
    forall c | IsBipartition(nodes, c) ensures CutWeight(g.edges, c) <= r.weight {
      AssignmentComplete(nodes, c);
      var k :| 0 <= k < Pow2(|nodes|) && AssignmentOf(nodes, k) == c;
      assert cands[k] == c;
    }
    if nodes == [] {
      assert NodeSet(nodes) == {} && |cands| == 1;
    }
  }

  /** Evaluates one random half-size subset per trial and keeps the first
      strictly best; `samples[t]` is what `random.sample` returned in trial
      t, so there are no samples when `trials` is not positive. */
  method MaxCutRandom(g: Graph, trials: int, samples: seq<seq<nat>>) returns (best: Option<Cut>, weight: int)
    requires Distinct(g.nodes)
    requires |samples| == if trials > 0 then trials else 0
    requires forall t :: 0 <= t < |samples| ==> IsSample(g.nodes, samples[t])
    ensures Best(best, weight) == Scan(g.edges, Trials(g.nodes, samples))
    ensures IsFirstMaximum(g.edges, Trials(g.nodes, samples), Best(best, weight))
    ensures trials <= 0 ==> best == None && weight == -1
    ensures best.Some? ==> IsBipartition(g.nodes, best.value) && |best.value.S| == |g.nodes| / 2
    ensures best.Some? ==> weight == CutWeight(g.edges, best.value)
    ensures trials > 0 && NonNegativeWeights(g.edges) ==> best.Some?
  {
    var nodes := g.nodes;
    best, weight := None, -1;
    ghost var cands := Trials(nodes, samples);
    var t := 0;
    while t < |samples|
      invariant 0 <= t <= |samples|
      invariant Best(best, weight) == Scan(g.edges, cands[..t])
    {
      var c := TrialCut(nodes, samples[t]);
      var cw := CutWeight(g.edges, c);
      ScanStep(g.edges, cands, t);
      if cw > weight {
        best, weight := Some(c), cw;
      }
      t := t + 1;
    }
    assert cands[..t] == cands;
    RandomResult(g, samples, Best(best, weight));
  }

  /** The facts about the sampling search's result that follow from its
      being the first maximum over the trials. */
  lemma RandomResult(g: Graph, samples: seq<seq<nat>>, r: Best)
    requires Distinct(g.nodes)
    requires forall t :: 0 <= t < |samples| ==> IsSample(g.nodes, samples[t])
    requires r == Scan(g.edges, Trials(g.nodes, samples))
    ensures IsFirstMaximum(g.edges, Trials(g.nodes, samples), r)
    ensures samples == [] ==> r == Best(None, -1)
    ensures r.cut.Some? ==> IsBipartition(g.nodes, r.cut.value) && |r.cut.value.S| == |g.nodes| / 2
    ensures r.cut.Some? ==> r.weight == CutWeight(g.edges, r.cut.value)
    ensures samples != [] && NonNegativeWeights(g.edges) ==> r.cut.Some?
  {
    var cands := Trials(g.nodes, samples);
    ScanIsFirstMaximum(g.edges, cands);
    if r.cut.Some? {
      var i :| 0 <= i < |cands| && cands[i] == r.cut.value && CutWeight(g.edges, cands[i]) == r.weight;
      TrialCutSize(g.nodes, samples[i]);
    }
    if samples != [] && NonNegativeWeights(g.edges) {
      CutWeightBounds(g.edges, cands[0]);
    }
  }

  /** `order` lists every node once: the fixed order in which a set of
      nodes is iterated. */
  predicate IsEnumeration(nodes: seq<Vertex>, order: seq<Vertex>)
  {
    Distinct(order) && NodeSet(order) == NodeSet(nodes)
  }

  /** The elements of `order` that lie in `s`, in the order of `order`. */
  function Listing(order: seq<Vertex>, s: set<Vertex>): seq<Vertex>
  {
    if order == [] then []
    else
      var last := order[|order| - 1];
      Listing(order[..|order| - 1], s) + (if last in s then [last] else [])
  }

  /** A listing of a duplicate-free order holds each element of `s` that
      the order mentions, exactly once. */
  lemma {:induction false} ListingElements(order: seq<Vertex>, s: set<Vertex>)
    requires Distinct(order)
    ensures Distinct(Listing(order, s))
    ensures NodeSet(Listing(order, s)) == s * NodeSet(order)
  {
    if order != [] {
      var init, last := order[..|order| - 1], order[|order| - 1];
      assert order == init + [last];
      ListingElements(init, s);
      NodeSetAppend(init, last);
      assert last !in NodeSet(init);
      if last in s {
        var l := Listing(init, s);
        NodeSetAppend(l, last);
        assert last !in l by { assert last !in NodeSet(l); }
        assert Listing(order, s) == l + [last];
      } else {
        assert Listing(order, s) == Listing(init, s);
      }
    }
  }

  /** `list(S)`: the elements of S, each once, in the iteration order. */
  method ListOf(s: set<Vertex>, order: seq<Vertex>) returns (r: seq<Vertex>)
    requires Distinct(order) && s <= NodeSet(order)
    ensures r == Listing(order, s)
    ensures Distinct(r)
    ensures NodeSet(r) == s
  {
    r := [];
    var i := 0;
    while i < |order|
      invariant 0 <= i <= |order|
      invariant r == Listing(order[..i], s)
    {
      assert order[..i + 1][..i] == order[..i];
      if order[i] in s {
        r := r + [order[i]];
      }
      i := i + 1;
    }
    assert order[..i] == order;
    ListingElements(order, s);
  }

  /** Moves `node` from S to T and keeps the move only if the cut weight
      strictly increases; otherwise moves it back. */
  method TryMove(g: Graph, S0: set<Vertex>, T0: set<Vertex>, w0: int, node: Vertex)
    returns (better: bool, S: set<Vertex>, T: set<Vertex>, weight: int)
    requires IsBipartition(g.nodes, Cut(S0, T0)) && node in S0
    requires w0 == CutWeight(g.edges, Cut(S0, T0))
    ensures better <==> CutWeight(g.edges, Move(Cut(S0, T0), node)) > w0
    ensures better ==> Cut(S, T) == Move(Cut(S0, T0), node) && weight == CutWeight(g.edges, Cut(S, T))
    ensures better ==> IsBipartition(g.nodes, Cut(S, T)) && weight > w0
    ensures !better ==> S == S0 && T == T0 && weight == w0
  {
    S, T, weight := S0 - {node}, T0 + {node}, w0;
    assert Cut(S, T) == Move(Cut(S0, T0), node);
    var newWeight := CutWeight(g.edges, Cut(S, T));
    if newWeight > weight {
      weight := newWeight;
      better := true;
      MoveKeepsBipartition(g.nodes, Cut(S0, T0), node);
    } else {
      better := false;
      MoveUndone(Cut(S0, T0), node);
      T := T - {node};
      S := S + {node};
    }
  }

  /** Whether moving `x` from S to T strictly raises the cut weight. */
  predicate Improves(edges: seq<Edge>, c: Cut, x: Vertex)
  {
    CutWeight(edges, Move(c, x)) > CutWeight(edges, c)
  }

  /** The first node of `l` whose move improves the cut, if any. */
  function FirstImproving(edges: seq<Edge>, c: Cut, l: seq<Vertex>): Option<Vertex>
  {
    if l == [] then None
    else if Improves(edges, c, l[0]) then Some(l[0])
    else FirstImproving(edges, c, l[1..])
  }

  /** The node one round of the local search moves: the first improving node
      of `list(S)`, or none when the round finds no improvement. */
  function Round(edges: seq<Edge>, order: seq<Vertex>, c: Cut): Option<Vertex>
  {
    FirstImproving(edges, c, Listing(order, c.S))
  }

  /** The cut reached after at most `k` rounds, stopping at the first round
      without improvement. */
  function Climb(edges: seq<Edge>, order: seq<Vertex>, c: Cut, k: nat): Cut
    decreases k
  {
    if k == 0 then c
    else match Round(edges, order, c)
      case None => c
      case Some(x) => Climb(edges, order, Move(c, x), k - 1)
  }

  /** A climb with rounds left stops where the round finds nothing. */
  lemma ClimbStop(edges: seq<Edge>, order: seq<Vertex>, c: Cut, k: nat)
    requires k > 0 && Round(edges, order, c).None?
    ensures Climb(edges, order, c, k) == c
  {
  }

  /** A climb with rounds left continues from the cut the round moved to. */
  lemma ClimbAdvance(edges: seq<Edge>, order: seq<Vertex>, c: Cut, next: Cut, k: nat, rest: nat)
    requires k == rest + 1 && Round(edges, order, c).Some?
    requires next == Move(c, Round(edges, order, c).value)
    ensures Climb(edges, order, next, rest) == Climb(edges, order, c, k)
  {
  }

  /** `FirstImproving` picks the node at index i exactly when it improves and
      no earlier node does. */
  lemma {:induction false} FirstImprovingAt(edges: seq<Edge>, c: Cut, l: seq<Vertex>, i: nat)
    requires i < |l| && Improves(edges, c, l[i])
    requires forall j :: 0 <= j < i ==> !Improves(edges, c, l[j])
    ensures FirstImproving(edges, c, l) == Some(l[i])
  {
    if i > 0 {
      assert !Improves(edges, c, l[0]);
      FirstImprovingAt(edges, c, l[1..], i - 1);
    }
  }

  /** Conversely, over a duplicate-free list, the node `FirstImproving`
      returns improves and no node before it does. */
  lemma {:induction false} FirstImprovingIndex(edges: seq<Edge>, c: Cut, l: seq<Vertex>, i: nat)
    requires Distinct(l) && i < |l| && FirstImproving(edges, c, l) == Some(l[i])
    ensures Improves(edges, c, l[i])
    ensures forall j :: 0 <= j < i ==> !Improves(edges, c, l[j])
  {
    if Improves(edges, c, l[0]) {
      assert l[i] == l[0];
      assert i == 0;
    } else if i == 0 {
      FirstImprovingNone(edges, c, l[1..]);
    } else {
      var tail := l[1..];
      assert Distinct(tail) by {
        forall p, q | 0 <= p < q < |tail| ensures tail[p] != tail[q] {
          assert tail[p] == l[p + 1] && tail[q] == l[q + 1];
        }
      }
      assert tail[i - 1] == l[i];
      FirstImprovingIndex(edges, c, tail, i - 1);
      forall j | 0 <= j < i ensures !Improves(edges, c, l[j]) {
        if j > 0 {
          assert l[j] == tail[j - 1];
        }
      }
    }
  }

  /** `FirstImproving` finds nothing exactly when no node of `l` improves,
      and what it finds is an improving node of `l`. */
  lemma {:induction false} FirstImprovingNone(edges: seq<Edge>, c: Cut, l: seq<Vertex>)
    ensures FirstImproving(edges, c, l).None? <==> forall x :: x in l ==> !Improves(edges, c, x)
    ensures FirstImproving(edges, c, l).Some? ==>
              FirstImproving(edges, c, l).value in l && Improves(edges, c, FirstImproving(edges, c, l).value)
  {
    if l != [] {
      FirstImprovingNone(edges, c, l[1..]);
      assert forall x :: x in l <==> x == l[0] || x in l[1..];
    }
  }

  /** A round that finds no improving node stops at a local optimum, and a
      local optimum is where the rounds stop. */
  lemma RoundNoneIsLocalOptimum(edges: seq<Edge>, order: seq<Vertex>, c: Cut)
    requires Distinct(order) && c.S <= NodeSet(order)
    ensures Round(edges, order, c).None? <==> LocalOptimum(edges, c)
  {
    var l := Listing(order, c.S);
    ListingElements(order, c.S);
    FirstImprovingNone(edges, c, l);
    assert forall x :: x in l <==> x in c.S by {
      forall x ensures x in l <==> x in c.S {
        assert x in l <==> x in NodeSet(l);
      }
    }
  }

  /** One round of the local search: scans `list(S)` and commits the first
      move from S to T that strictly increases the cut weight; every move
      that does not is undone, so a round without improvement leaves S and T
      as they were. */
  method FirstImprovement(g: Graph, order: seq<Vertex>, S0: set<Vertex>, T0: set<Vertex>, w0: int)
    returns (improved: bool, S: set<Vertex>, T: set<Vertex>, weight: int)
    requires IsEnumeration(g.nodes, order)
    requires IsBipartition(g.nodes, Cut(S0, T0))
    requires w0 == CutWeight(g.edges, Cut(S0, T0))
    ensures IsBipartition(g.nodes, Cut(S, T))
    ensures weight == CutWeight(g.edges, Cut(S, T))
    ensures !improved ==> S == S0 && T == T0 && weight == w0 && LocalOptimum(g.edges, Cut(S0, T0))
    ensures improved ==> weight > w0 && exists x :: x in S0 && Cut(S, T) == Move(Cut(S0, T0), x)
    ensures improved <==> Round(g.edges, order, Cut(S0, T0)).Some?
    ensures improved ==> Cut(S, T) == Move(Cut(S0, T0), Round(g.edges, order, Cut(S0, T0)).value)
    ensures improved ==>
      exists i :: && 0 <= i < |Listing(order, S0)|
                  && Cut(S, T) == Move(Cut(S0, T0), Listing(order, S0)[i])
                  && forall j {:trigger Move(Cut(S0, T0), Listing(order, S0)[j])} :: 0 <= j < i ==>
                       CutWeight(g.edges, Move(Cut(S0, T0), Listing(order, S0)[j])) <= w0
  {
    S, T, weight := S0, T0, w0;
    improved := false;
    var candidates := ListOf(S, order);
    var i := 0;
    while i < |candidates|
      invariant 0 <= i <= |candidates|
      invariant !improved && S == S0 && T == T0 && weight == w0
      invariant forall j {:trigger Move(Cut(S0, T0), candidates[j])} ::
                  0 <= j < i ==> CutWeight(g.edges, Move(Cut(S0, T0), candidates[j])) <= w0
    {
      var node := candidates[i];
      assert node in NodeSet(candidates);
      improved, S, T, weight := TryMove(g, S, T, weight, node);
      if improved {
        assert Cut(S, T) == Move(Cut(S0, T0), candidates[i]);
        FirstImprovingAt(g.edges, Cut(S0, T0), candidates, i);
        return;
      }
      i := i + 1;
    }
    forall x | x in S0 ensures CutWeight(g.edges, Move(Cut(S0, T0), x)) <= w0 {
      assert x in NodeSet(candidates);
      var j :| 0 <= j < |candidates| && candidates[j] == x;
    }
    FirstImprovingNone(g.edges, Cut(S0, T0), candidates);
  }

  /** What any climb from a bipartition achieves: it stays a bipartition,
      only moves nodes from S to T, at most one per round and each for a
      gain of at least 1, and ends at a local optimum unless it used up all
      its rounds. */
  lemma {:induction false} ClimbFacts(g: Graph, order: seq<Vertex>, c: Cut, k: nat)
    requires IsEnumeration(g.nodes, order) && IsBipartition(g.nodes, c)
    ensures IsBipartition(g.nodes, Climb(g.edges, order, c, k))
    ensures Climb(g.edges, order, c, k).S <= c.S
    ensures |c.S| - |Climb(g.edges, order, c, k).S| <= k
    ensures CutWeight(g.edges, Climb(g.edges, order, c, k))
              >= CutWeight(g.edges, c) + (|c.S| - |Climb(g.edges, order, c, k).S|)
    ensures |c.S| - |Climb(g.edges, order, c, k).S| < k ==> LocalOptimum(g.edges, Climb(g.edges, order, c, k))
    decreases k
  {
    if k > 0 {
      var l := Listing(order, c.S);
      FirstImprovingNone(g.edges, c, l);
      match Round(g.edges, order, c)
      case None =>
        ClimbStop(g.edges, order, c, k);
        RoundNoneIsLocalOptimum(g.edges, order, c);
      case Some(x) =>
        var next, rest: nat := Move(c, x), k - 1;
        ListingElements(order, c.S);
        assert x in NodeSet(l);
        assert Improves(g.edges, c, x);
        MoveKeepsBipartition(g.nodes, c, x);
        ClimbAdvance(g.edges, order, c, next, k, rest);
        ClimbFacts(g, order, next, rest);
        var r := Climb(g.edges, order, next, rest);
        assert r == Climb(g.edges, order, c, k);
        assert r.S <= next.S && next.S <= c.S;
        assert |c.S| - |r.S| == 1 + (|next.S| - |r.S|);
    }
  }

  /** Starts from a random half-size S (the outcome of `random.sample` is
      `sample`) and runs at most `iterations` rounds of `FirstImprovement`,
      stopping early after a round without improvement. */
  method MaxCutLocalSearch(g: Graph, iterations: int, sample: seq<nat>, order: seq<Vertex>)
    returns (c: Cut, weight: int)
    requires Distinct(g.nodes)
    requires IsSample(g.nodes, sample)
    requires IsEnumeration(g.nodes, order)
    ensures c == Climb(g.edges, order, TrialCut(g.nodes, sample), if iterations > 0 then iterations else 0)
    ensures IsBipartition(g.nodes, c)
    ensures weight == CutWeight(g.edges, c)
    ensures c.S <= TrialCut(g.nodes, sample).S
    ensures |TrialCut(g.nodes, sample).S| - |c.S| <= if iterations > 0 then iterations else 0
    ensures weight >= CutWeight(g.edges, TrialCut(g.nodes, sample)) + (|TrialCut(g.nodes, sample).S| - |c.S|)
    ensures |TrialCut(g.nodes, sample).S| - |c.S| < iterations ==> LocalOptimum(g.edges, c)
    ensures iterations <= 0 ==> c == TrialCut(g.nodes, sample)
  {
    var init := TrialCut(g.nodes, sample);
    TrialCutIsBipartition(g.nodes, sample);
    var S, T := init.S, init.T;
    weight := CutWeight(g.edges, Cut(S, T));
    ghost var limit: nat := if iterations > 0 then iterations else 0;
    ghost var goal := Climb(g.edges, order, init, limit);
    ghost var left := limit;
    assert Cut(S, T) == init;
    var round := 0;
    while round < iterations
      invariant 0 <= round <= limit && left == limit - round
      invariant Climb(g.edges, order, Cut(S, T), left) == goal
      invariant IsBipartition(g.nodes, Cut(S, T))
      invariant weight == CutWeight(g.edges, Cut(S, T))
    {
      ghost var before, leftBefore := Cut(S, T), left;
      var improved;
      improved, S, T, weight := FirstImprovement(g, order, S, T, weight);
      if !improved {
        ClimbStop(g.edges, order, before, left);
        break;
      }
      round, left := round + 1, left - 1;
      ClimbAdvance(g.edges, order, before, Cut(S, T), leftBefore, left);
    }
    c := Cut(S, T);
    ClimbFacts(g, order, init, limit);
  }
}
