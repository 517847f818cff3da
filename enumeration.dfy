/** The candidates of the exhaustive search:
    `itertools.product([0, 1], repeat=n)` yields the n-bit patterns in
    lexicographic order with the last position varying fastest, so the k-th
    pattern is k written in binary, most significant bit first; bit 0 puts
    the vertex in S and bit 1 in T. */
module Enumeration {
  import opened GraphModel
  import opened Cuts

  function Pow2(n: nat): (r: nat)
    ensures r >= 1
  {
    if n == 0 then 1 else 2 * Pow2(n - 1)
  }

  predicate IsBitPattern(b: seq<nat>)
  {
    forall i :: 0 <= i < |b| ==> b[i] < 2
  }

  /** The k-th pattern of length n in enumeration order. */
  function Bits(k: nat, n: nat): (b: seq<nat>)
    ensures |b| == n && IsBitPattern(b)
  {
    if n == 0 then [] else Bits(k / 2, n - 1) + [k % 2]
  }

  /** The position of a pattern in enumeration order. */
  function Index(b: seq<nat>): (k: nat)
    ensures IsBitPattern(b) ==> k < Pow2(|b|)
  {
    if b == [] then 0 else 2 * Index(b[..|b| - 1]) + b[|b| - 1]
  }

  /** Decoding the k-th pattern gives back k. */
  lemma {:induction false} IndexOfBits(k: nat, n: nat)
    requires k < Pow2(n)
    ensures Index(Bits(k, n)) == k
  {
    if n > 0 {
      var h, r := k / 2, k % 2;
      HalfBelow(k, Pow2(n - 1));
      IndexOfBits(h, n - 1);
      var b := Bits(k, n);
      assert b[..n - 1] == Bits(h, n - 1);
    }
  }

  lemma HalfBelow(k: nat, m: nat)
    requires k < 2 * m
    ensures k / 2 < m && 2 * (k / 2) + k % 2 == k
  {
  }

  /** Every pattern is enumerated, at its own index. */
  lemma {:induction false} BitsOfIndex(b: seq<nat>)
    requires IsBitPattern(b)
    ensures Bits(Index(b), |b|) == b
  {
    if b != [] {
      var n := |b|;
      var p := b[..n - 1];
      assert IsBitPattern(p);
      BitsOfIndex(p);
      var k := Index(b);
      assert k / 2 == Index(p) && k % 2 == b[n - 1];
      assert b == p + [b[n - 1]];
    }
  }

  /** a comes strictly before b in lexicographic order. */
  ghost predicate LexLess(a: seq<nat>, b: seq<nat>)
  {
    exists p :: 0 <= p < |a| && p < |b| && a[..p] == b[..p] && a[p] < b[p]
  }

  /** The enumeration order is the lexicographic order of the patterns. */
  lemma {:induction false} BitsInLexOrder(j: nat, k: nat, n: nat)
    requires j < k < Pow2(n)
    ensures LexLess(Bits(j, n), Bits(k, n))
  {
    var a, b := Bits(j, n), Bits(k, n);
    assert n > 0;
    assert a == Bits(j / 2, n - 1) + [j % 2];
    assert b == Bits(k / 2, n - 1) + [k % 2];
    if j / 2 < k / 2 {
      BitsInLexOrder(j / 2, k / 2, n - 1);
      var a', b' := Bits(j / 2, n - 1), Bits(k / 2, n - 1);
      var p :| 0 <= p < |a'| && p < |b'| && a'[..p] == b'[..p] && a'[p] < b'[p];
      assert a[..p] == a'[..p] && b[..p] == b'[..p];
      assert a[p] == a'[p] && b[p] == b'[p];
    } else {
      assert j / 2 == k / 2 && j % 2 == 0 && k % 2 == 1;
      assert a[..n - 1] == b[..n - 1];
      assert a[n - 1] < b[n - 1];
    }
  }

  /** The first pattern is all zeros. */
  lemma {:induction false} FirstBitsAllZero(n: nat)
    ensures forall i :: 0 <= i < n ==> Bits(0, n)[i] == 0
  {
    if n > 0 {
      FirstBitsAllZero(n - 1);
    }
  }

  /** `S = {nodes[i] | bits[i] == 0}` and `T = set(nodes) - S`. */
  function Assignment(nodes: seq<Vertex>, bits: seq<nat>): Cut
    requires |bits| == |nodes|
  {
    var S := set i | 0 <= i < |nodes| && bits[i] == 0 :: nodes[i];
    Cut(S, NodeSet(nodes) - S)
  }

  /** T is the complement of S, so every candidate is a bipartition. */
  lemma AssignmentIsBipartition(nodes: seq<Vertex>, bits: seq<nat>)
    requires |bits| == |nodes|
    ensures IsBipartition(nodes, Assignment(nodes, bits))
  {
    var c := Assignment(nodes, bits);
    forall x | x in c.S ensures x in NodeSet(nodes) {
      var i :| 0 <= i < |nodes| && bits[i] == 0 && nodes[i] == x;
    }
  }

  /** Over distinct nodes, node i is in S exactly when bit i is 0. */
  lemma AssignmentSides(nodes: seq<Vertex>, bits: seq<nat>, i: nat)
    requires |bits| == |nodes| && Distinct(nodes) && i < |nodes|
    ensures nodes[i] in Assignment(nodes, bits).S <==> bits[i] == 0
  {
  }

  /** The k-th candidate bipartition of the exhaustive search. */
  function AssignmentOf(nodes: seq<Vertex>, k: nat): Cut
  {
    Assignment(nodes, Bits(k, |nodes|))
  }

  /** All 2^n candidates in enumeration order. */
  function Candidates(nodes: seq<Vertex>): seq<Cut>
  {
    seq(Pow2(|nodes|), k requires 0 <= k < Pow2(|nodes|) => AssignmentOf(nodes, k))
  }

  /** The first candidate puts every node in S and leaves T empty. */
  lemma FirstAssignmentAllInS(nodes: seq<Vertex>)
    ensures AssignmentOf(nodes, 0) == Cut(NodeSet(nodes), {})
  {
    FirstBitsAllZero(|nodes|);
    var c := AssignmentOf(nodes, 0);
    forall x | x in NodeSet(nodes) ensures x in c.S {
      var i :| 0 <= i < |nodes| && nodes[i] == x;
    }
    AssignmentIsBipartition(nodes, Bits(0, |nodes|));
  }

  /** The pattern that gives bit 0 exactly to the members of c.S. */
  function PatternOf(nodes: seq<Vertex>, c: Cut): (b: seq<nat>)
    ensures |b| == |nodes| && IsBitPattern(b)
  {
    seq(|nodes|, i requires 0 <= i < |nodes| => if nodes[i] in c.S then 0 else 1)
  }

  /** A bipartition is the candidate of its own pattern. */
  lemma AssignmentOfPattern(nodes: seq<Vertex>, c: Cut)
    requires IsBipartition(nodes, c)
    ensures Assignment(nodes, PatternOf(nodes, c)) == c
  {
    var b := PatternOf(nodes, c);
    var a := Assignment(nodes, b);
    forall x | x in c.S ensures x in a.S {
      assert x in NodeSet(nodes);
      var i :| 0 <= i < |nodes| && nodes[i] == x;
      assert b[i] == 0;
    }
    assert a.S == c.S;
  }

  /** Every bipartition of the nodes is among the 2^n candidates. */
  lemma AssignmentComplete(nodes: seq<Vertex>, c: Cut)
    requires IsBipartition(nodes, c)
    ensures exists k :: 0 <= k < Pow2(|nodes|) && AssignmentOf(nodes, k) == c
  {
    var b := PatternOf(nodes, c);
    BitsOfIndex(b);
    AssignmentOfPattern(nodes, c);
    assert AssignmentOf(nodes, Index(b)) == c;
  }
}
