# Max-Cut solvers of GraphLib, modelled in Dafny

`GraphLib` (lib/graphlib.py) wraps an undirected weighted graph and offers
three Max-Cut solvers. Each splits the vertices into two sides S and T and
reports the cut weight: the total weight of the edges with one endpoint on
each side.

- `max_cut_bruteforce` tries every assignment in `itertools.product([0, 1], repeat=n)`
  order (bit 0 puts the node in S). It keeps the first assignment whose
  weight is strictly greater than the best so far, starting from no cut and
  weight -1.
- `max_cut_random` does the same over `trials` random subsets of exactly
  ⌊n/2⌋ nodes. When `trials ≤ 0` it returns `(None, -1)`.
- `max_cut_local_search` starts from one random ⌊n/2⌋-subset. It runs up to
  `iterations` rounds of first-improvement hill climbing. A round goes
  through `list(S)` in order. It moves each node from S to T in turn and
  undoes the move unless the cut weight goes up strictly. The first node
  whose move improves the weight stays in T, and the round ends there. If
  the round gets through all of `list(S)` without an improvement, the
  search stops.

The model has these modules:

- `GraphModel` (graph_model.dfy): vertices, weighted edges, graphs and
  their well-formedness.
- `Cuts` (cuts.dfy): cuts, the one cut-weight function all three solvers
  share, and the move of a node from S to T.
- `Enumeration` (enumeration.dfy): the product order as binary counting,
  and its completeness.
- `Sampling` (sampling.dfy): a half-size trial built from the positions
  `random.sample` picked.
- `Selection` (selection.dfy): a reference fold `Scan` that keeps the first
  strict maximum, and the declarative property `IsFirstMaximum` it meets.
- `MaxCut` (maxcut.dfy): the three solvers as imperative methods, proved
  against those definitions. The local search is also proved against
  `Climb`, the reference sequence of rounds. Each round is `Round`: the
  first node of `list(S)` whose move improves the cut.
- `Scenarios` (scenarios.dfy): the triangle worked out, and a client that
  compares the three solvers.

Randomness becomes input:

- the positions `random.sample` returns are parameters;
- the order in which `list(S)` enumerates a Python set is a parameter too,
  a duplicate-free listing of the nodes.

Vertices are integers and weights are integers of any sign.

Two behaviours of the code worth stating outright:

- On a graph with no vertices, `max_cut_bruteforce` still has one
  assignment (the empty one). It therefore returns `((∅, ∅), 0)`, not
  `None`. Its result is never `None`.
- The random subsets always have exactly ⌊n/2⌋ nodes. They are not
  arbitrary subsets.

## Model

| member | source | states |
|---|---|---|
| Cuts.CutWeightNoCrossing | lib/graphlib.py:50-54 | if no edge has its endpoints on opposite sides, the cut weight is 0 |
| Cuts.CutWeightAllCrossing | lib/graphlib.py:50-54 | if every edge crosses, the cut weight is the total edge weight |
| Cuts.CutWeightBounds | lib/graphlib.py:50-54 | with non-negative weights, 0 ≤ cut weight ≤ total weight |
| Cuts.CutWeightOneSideEmpty | lib/graphlib.py:50-54 | a cut with an empty side, S or T, has weight 0 |
| Cuts.CutWeightSymmetric | lib/graphlib.py:53 | the crossing test is symmetric, so swapping S and T keeps the weight |
| Cuts.CutPlusInternal | lib/graphlib.py:48-54 | for a bipartition, total weight = cut weight + weight inside S + weight inside T |
| Cuts.MoveKeepsBipartition | lib/graphlib.py:93-94 | moving a node of S to T keeps a bipartition and shrinks S by one |
| Cuts.MoveUndone | lib/graphlib.py:101-102 | the rollback restores exactly the cut before the move |
| Enumeration.IndexOfBits | lib/graphlib.py:47 | the k-th product tuple, read back as a binary number, is k |
| Enumeration.BitsOfIndex | lib/graphlib.py:47 | every 0/1 tuple of length n is the tuple at its own index |
| Enumeration.BitsInLexOrder | lib/graphlib.py:47 | the enumeration is in strictly increasing lexicographic order, as `itertools.product` yields it |
| Enumeration.FirstBitsAllZero | lib/graphlib.py:47 | the first tuple is all zeros |
| Enumeration.AssignmentIsBipartition | lib/graphlib.py:48-49 | S = nodes with bit 0 and T = the rest form a bipartition |
| Enumeration.AssignmentSides | lib/graphlib.py:48 | for distinct nodes, node i is in S exactly when bit i is 0 |
| Enumeration.FirstAssignmentAllInS | lib/graphlib.py:47-49 | the first assignment puts every node in S and none in T |
| Enumeration.AssignmentOfPattern | lib/graphlib.py:48-49 | every bipartition is the assignment of its own bit pattern |
| Enumeration.AssignmentComplete | lib/graphlib.py:47-49 | every bipartition of the nodes is among the 2^n candidates |
| Sampling.TrialCutIsBipartition | lib/graphlib.py:65-66 | the sampled S and T = nodes − S form a bipartition |
| Sampling.ChosenSize | lib/graphlib.py:65 | distinct positions of distinct nodes choose as many nodes as positions |
| Sampling.TrialCutSize | lib/graphlib.py:65-66 | a trial's S has exactly ⌊n/2⌋ nodes |
| Selection.ScanIsFirstMaximum | lib/graphlib.py:45-57 | the fold starting from (None, -1) with a strict `>` returns a maximum-weight candidate, the first one of that weight, or (None, -1) when none exceeds -1 |
| Selection.FirstMaximumUnique | lib/graphlib.py:55-57 | the first-maximum property determines the result, so ties resolve to one cut |
| Selection.ScanStep | lib/graphlib.py:55-57 | proof helper for the solver loops: the fold over a prefix one longer is one more `Offer` of the next candidate |
| MaxCut.MaxCutBruteforce | lib/graphlib.py:43-58 | the result is the first maximum over the 2^n candidates in product order; it is a bipartition whose cut weight is the returned weight, at least as heavy as every bipartition, weight ≥ 0, and `((∅, ∅), 0)` on an empty graph |
| MaxCut.BruteforceResult | lib/graphlib.py:43-58 | the same facts derived from the fold over all candidates |
| MaxCut.MaxCutRandom | lib/graphlib.py:60-75 | the result is the first maximum over the trials; `(None, -1)` when trials ≤ 0; a returned cut is a bipartition with ⌊n/2⌋ nodes in S and the returned weight is its cut weight; with non-negative weights and trials > 0 a cut is returned |
| MaxCut.RandomResult | lib/graphlib.py:60-75 | the same facts derived from the fold over the trials |
| MaxCut.ListingElements | lib/graphlib.py:92 | filtering a duplicate-free order by S keeps each element of S the order mentions, exactly once |
| MaxCut.ListOf | lib/graphlib.py:92 | `list(S)` is the iteration order filtered by S: every element of S exactly once, in that order |
| MaxCut.FirstImprovingAt | lib/graphlib.py:92-99 | if node i improves and no earlier node does, the pass returns node i |
| MaxCut.FirstImprovingIndex | lib/graphlib.py:92-99 | conversely, over a duplicate-free listing, the node the pass returns improves and no earlier node does |
| MaxCut.FirstImprovingNone | lib/graphlib.py:92-102 | a pass finds nothing exactly when no node's move improves, and what it finds is an improving node of the listing |
| MaxCut.RoundNoneIsLocalOptimum | lib/graphlib.py:91-104 | a round finds no improving node if and only if the cut is a local optimum |
| MaxCut.ClimbStop | lib/graphlib.py:103-104 | proof helper: the unfolding of `Climb` used by the loop invariant, stopping at the cut when rounds are left but the round finds nothing |
| MaxCut.ClimbAdvance | lib/graphlib.py:90-99 | proof helper: the unfolding of `Climb` used by the loop invariant, continuing with one round fewer from the cut the round moved to |
| MaxCut.ClimbFacts | lib/graphlib.py:77-105 | any climb from a bipartition stays a bipartition, only shrinks S, by at most one node per round, gains at least 1 per moved node, and ends at a local optimum unless it used up all its rounds |
| MaxCut.TryMove | lib/graphlib.py:93-102 | the move is kept exactly when it strictly increases the cut weight; otherwise S, T and the weight are as before |
| MaxCut.FirstImprovement | lib/graphlib.py:91-102 | the round improves exactly when `Round` finds a node, and then the new cut is that node's move; a round either commits the move of the first node in `list(S)` order whose move strictly raises the weight, with every earlier node's move not raising it, or changes nothing, and then the cut is a local optimum (no single move from S to T helps) |
| MaxCut.MaxCutLocalSearch | lib/graphlib.py:77-105 | the result is exactly `Climb` from the initial trial with max(`iterations`, 0) rounds, each round moving the first improving node of `list(S)`; it is a bipartition with its weight; S only shrinks, by at most `iterations`; each round adds at least 1 to the weight; stopping before the limit means a local optimum; `iterations ≤ 0` returns the initial trial |
| Scenarios.Triangle | lib/graphlib.py:15-16 | the unit triangle is a well-formed graph with non-negative weights |
| Scenarios.TriangleCutsAtMostTwo | lib/graphlib.py:50-54 | no cut of the triangle is heavier than 2 |
| Scenarios.SecondAssignment | lib/graphlib.py:47-49 | the second product tuple moves only the last node to T |
| Scenarios.TriangleBruteforce | lib/graphlib.py:43-58 | on the triangle the exhaustive search returns `({0, 1}, {2})` with weight 2 |
| Scenarios.CompareSolvers | lib/graphlib.py:43-105 | neither heuristic reports a weight above the exhaustive search's |

## Left out

- `add_vertex`, `add_edge`, `generate_random_graph`, `create_path_from_vertices`
  and the constructor are not modelled. A graph is a value: a duplicate-free
  node list and an edge list. `DefaultWeight` is only the default of `add_edge`.
- `visualize` is not modelled, because it only draws the graph.
- The networkx internals are not modelled: node and edge storage and
  iteration order. The node order is the given sequence.
- The default arguments `trials=1000` and `iterations=100` are the
  constants `DefaultTrials` and `DefaultIterations`. The methods take both
  counts as explicit parameters.
- The random number generator is not modelled. `random.sample` is replaced
  by the positions it chose, and `MaxCutRandom` and `MaxCutLocalSearch`
  require them to be valid samples.
- Python's set iteration order is not modelled. `list(S)` follows a supplied
  enumeration of the nodes.
- The solvers return their cut as a value. The Python sets S and T are not
  shared objects, so aliasing is not modelled.
- MaxCutLocalSearch: states the weight gain per round as at least 1, which
  holds because weights are integers. It does not model floating-point
  weights.
- The Travelling Salesman and QAOA parts of the surrounding project are not
  part of this model; no source for them is included.
