/** The selection rule shared by the exhaustive and the sampling search:
    start from `best_cut = None`, `best_weight = -1` and replace the best
    whenever a candidate's cut weight is strictly greater. */
module Selection {
  import opened GraphModel
  import opened Cuts

  datatype Option<T> = None | Some(value: T)

  /** `(best_cut, best_weight)` */
  datatype Best = Best(cut: Option<Cut>, weight: int)

  /** The state before the first candidate. */
  function Initial(): Best
  {
    Best(None, -1)
  }

  /** Offers one candidate: it is kept only if it is strictly better. */
  function Offer(b: Best, edges: seq<Edge>, c: Cut): Best
  {
    var w := CutWeight(edges, c);
    if w > b.weight then Best(Some(c), w) else b
  }

  /** The state after offering the candidates in order. */
  function Scan(edges: seq<Edge>, cands: seq<Cut>): Best
  {
    if cands == [] then Initial()
    else Offer(Scan(edges, cands[..|cands| - 1]), edges, cands[|cands| - 1])
  }

  /** The declarative reading of `Scan`: the result weighs at least as
      much as every candidate; it is either no cut with weight -1, or the
      first candidate of maximal weight, which is above -1. */
  ghost predicate IsFirstMaximum(edges: seq<Edge>, cands: seq<Cut>, r: Best)
  {
    && (forall i :: 0 <= i < |cands| ==> CutWeight(edges, cands[i]) <= r.weight)
    && (r.cut.None? ==> r.weight == -1)
    && (r.cut.Some? ==>
          exists i :: && 0 <= i < |cands| && cands[i] == r.cut.value
                      && CutWeight(edges, cands[i]) == r.weight > -1
                      && forall j :: 0 <= j < i ==> CutWeight(edges, cands[j]) < r.weight)
  }

  /** Scanning finds the first maximum. */
  lemma {:induction false} ScanIsFirstMaximum(edges: seq<Edge>, cands: seq<Cut>)
    ensures IsFirstMaximum(edges, cands, Scan(edges, cands))
  {
    if cands != [] {
      var m := |cands| - 1;
      var prefix, c := cands[..m], cands[m];
      assert cands == prefix + [c];
      ScanIsFirstMaximum(edges, prefix);
      var before := Scan(edges, prefix);
      var r := Scan(edges, cands);
      if CutWeight(edges, c) > before.weight {
        assert r == Best(Some(c), CutWeight(edges, c));
        assert cands[m] == r.cut.value;
      } else {
        assert r == before;
        if r.cut.Some? {
          var i :| && 0 <= i < |prefix| && prefix[i] == r.cut.value
                   && CutWeight(edges, prefix[i]) == r.weight > -1
                   && forall j :: 0 <= j < i ==> CutWeight(edges, prefix[j]) < r.weight;
          assert cands[i] == prefix[i];
        }
      }
    }
  }

  /** The declarative reading determines the result: there is only one
      first maximum. */
  lemma FirstMaximumUnique(edges: seq<Edge>, cands: seq<Cut>, r1: Best, r2: Best)
    requires IsFirstMaximum(edges, cands, r1) && IsFirstMaximum(edges, cands, r2)
    ensures r1 == r2
  {
    if r1.cut.Some? && r2.cut.Some? {
      var i1 :| && 0 <= i1 < |cands| && cands[i1] == r1.cut.value
                && CutWeight(edges, cands[i1]) == r1.weight > -1
                && forall j :: 0 <= j < i1 ==> CutWeight(edges, cands[j]) < r1.weight;
      var i2 :| && 0 <= i2 < |cands| && cands[i2] == r2.cut.value
                && CutWeight(edges, cands[i2]) == r2.weight > -1
                && forall j :: 0 <= j < i2 ==> CutWeight(edges, cands[j]) < r2.weight;
      assert i1 == i2;
    }
  }

  /** Offering the next candidate extends the scan by one. */
  lemma ScanStep(edges: seq<Edge>, cands: seq<Cut>, k: nat)
    requires k < |cands|
    ensures Scan(edges, cands[..k + 1]) == Offer(Scan(edges, cands[..k]), edges, cands[k])
  {
    assert cands[..k + 1][..k] == cands[..k];
  }
}
