/** The set-based metrics: precision, recall, reciprocal rank. */
module Relevance {
  import opened Seqs
  import opened Ids

  function Hits(r: seq<Id>, rel: set<Id>): nat {
    if r == [] then 0
    else Hits(r[..|r| - 1], rel) + if r[|r| - 1] in rel then 1 else 0
  }

  /** The precision at every relevant rank, added up. */
  function PrecisionSum(r: seq<Id>, rel: set<Id>): real {
    if r == [] then 0.0
    else PrecisionSum(r[..|r| - 1], rel)
         + if r[|r| - 1] in rel then Hits(r, rel) as real / |r| as real else 0.0
  }

  function AveragePrecision(r: seq<Id>, rel: set<Id>): real {
    if rel == {} then 1.0 else PrecisionSum(r, rel) / |rel| as real
  }

  method ComputeAveragePrecision(retrieved: seq<Id>, rel: set<Id>) returns (ap: real)
    ensures ap == AveragePrecision(retrieved, rel)
  {
    if rel == {} {
      return 1.0;
    }
    var hits, sum := 0, 0.0;
    for i := 0 to |retrieved|
      invariant hits == Hits(retrieved[..i], rel) && sum == PrecisionSum(retrieved[..i], rel)
    {
      assert retrieved[..i + 1][..i] == retrieved[..i];
      if retrieved[i] in rel {
        hits := hits + 1;
        sum := sum + hits as real / (i + 1) as real;
      }
    }
    assert retrieved[..|retrieved|] == retrieved;
    return sum / |rel| as real;
  }

  /** The index of the first relevant item, or the length when there is none. */
  function FirstHit(r: seq<Id>, rel: set<Id>): (p: nat)
    ensures p <= |r| && (p < |r| ==> r[p] in rel)
    ensures forall i :: 0 <= i < p ==> r[i] !in rel
  {
    if r == [] || r[0] in rel then 0 else 1 + FirstHit(r[1..], rel)
  }

  function ReciprocalRank(r: seq<Id>, rel: set<Id>): real {
    var p := FirstHit(r, rel);
    if p < |r| then 1.0 / (p + 1) as real else 0.0
  }

  method ComputeReciprocalRank(retrieved: seq<Id>, rel: set<Id>) returns (rr: real)
    ensures rr == ReciprocalRank(retrieved, rel)
  {
    for i := 0 to |retrieved|
      invariant forall j :: 0 <= j < i ==> retrieved[j] !in rel
    {
      if retrieved[i] in rel {
        assert FirstHit(retrieved, rel) == i;
        return 1.0 / (i + 1) as real;
      }
    }
    return 0.0;
  }

  function RecallAtK(r: seq<Id>, rel: set<Id>, k: nat): real {
    if rel == {} then 1.0 else Hits(Take(r, k), rel) as real / |rel| as real
  }

  /** Hits over `k`; a cut that is not positive scores 0. */
  function ContextPrecision(r: seq<Id>, rel: set<Id>, k: int): real {
    if k <= 0 then 0.0 else Hits(Take(r, k), rel) as real / k as real
  }

  // ------------------------------------------------------------------ counting hits

  /** No relevant item occurs twice. */
  ghost predicate RelevantOnce(r: seq<Id>, rel: set<Id>) {
    forall i, j :: 0 <= i < j < |r| && r[i] in rel ==> r[i] != r[j]
  }

  lemma RelevantOnceSnoc(p: seq<Id>, x: Id, rel: set<Id>)
    ensures RelevantOnce(p + [x], rel) <==> RelevantOnce(p, rel) && (x in rel ==> x !in p)
  {
    var r := p + [x];
    assert forall i :: 0 <= i < |p| ==> p[i] == r[i];
    assert r[|p|] == x;
  }

  /** Counting hits in the list counts relevant items exactly when none of them is repeated. */
  lemma {:induction false} HitsVersusItems(r: seq<Id>, rel: set<Id>)
    ensures |ToSet(r) * rel| <= Hits(r, rel) <= |r|
    ensures |ToSet(r) * rel| == Hits(r, rel) <==> RelevantOnce(r, rel)
  {
    if r != [] {
      var p, x := r[..|r| - 1], r[|r| - 1];
      assert r == p + [x];
      HitsVersusItems(p, rel);
      RelevantOnceSnoc(p, x, rel);
      assert ToSet(r) * rel == ToSet(p) * rel + if x in rel then {x} else {};
      if x in rel && x in p {
        assert ToSet(r) * rel == ToSet(p) * rel;
      }
    }
  }

  lemma HitsAtMostRelevant(r: seq<Id>, rel: set<Id>)
    requires Distinct(r)
    ensures Hits(r, rel) == |ToSet(r) * rel| <= |rel|
    ensures Hits(r, rel) == |rel| ==> rel <= ToSet(r)
  {
    HitsVersusItems(r, rel);
    SubsetSize(ToSet(r) * rel, rel);
  }

  lemma Quotient(x: real, y: real)
    requires 0.0 <= x && y > 0.0
    ensures 0.0 <= x / y
    ensures x / y <= 1.0 <==> x <= y
    ensures x / y == 1.0 <==> x == y
  {
  }

  /** Every hit adds at most 1 to the sum, and exactly 1 while the hits fill a prefix of the list. */
  lemma {:induction false} PrecisionSumBounds(r: seq<Id>, rel: set<Id>)
    ensures 0.0 <= PrecisionSum(r, rel) <= Hits(r, rel) as real
    ensures Hits(r, rel) <= |r|
    ensures PrecisionSum(r, rel) == Hits(r, rel) as real
       <==> forall i :: 0 <= i < Hits(r, rel) ==> r[i] in rel
  {
    if r != [] {
      var p, x := r[..|r| - 1], r[|r| - 1];
      PrecisionSumBounds(p, rel);
      var h := Hits(p, rel);
      assert forall i :: 0 <= i < |p| ==> p[i] == r[i];
      if x in rel {
        Quotient((h + 1) as real, |r| as real);
        if h < |p| && forall i :: 0 <= i < h + 1 ==> r[i] in rel {
          AllHits(p[..h + 1], rel);
          HitsPrefix(p, rel, h + 1);
        }
      }
    }
  }

  lemma {:induction false} AllHits(r: seq<Id>, rel: set<Id>)
    requires forall i :: 0 <= i < |r| ==> r[i] in rel
    ensures Hits(r, rel) == |r|
  {
    if r != [] { AllHits(r[..|r| - 1], rel); }
  }

  lemma {:induction false} NoHits(r: seq<Id>, rel: set<Id>)
    requires forall i :: 0 <= i < |r| ==> r[i] !in rel
    ensures Hits(r, rel) == 0
  {
    if r != [] { NoHits(r[..|r| - 1], rel); }
  }

  lemma {:induction false} PrecisionSumAtLeastFirst(r: seq<Id>, rel: set<Id>, p: nat)
    requires p < |r| && r[p] in rel && forall i :: 0 <= i < p ==> r[i] !in rel
    ensures PrecisionSum(r, rel) >= 1.0 / (p + 1) as real
  {
    var init := r[..|r| - 1];
    PrecisionSumBounds(init, rel);
    if p == |r| - 1 {
      NoHits(init, rel);
      assert Hits(r, rel) == 1;
    } else {
      PrecisionSumAtLeastFirst(init, rel, p);
    }
  }

  // ------------------------------------------------------------------ average precision

  lemma SumAtLeastReciprocalRank(r: seq<Id>, rel: set<Id>)
    ensures PrecisionSum(r, rel) >= ReciprocalRank(r, rel)
  {
    PrecisionSumBounds(r, rel);
    if FirstHit(r, rel) < |r| {
      PrecisionSumAtLeastFirst(r, rel, FirstHit(r, rel));
    }
  }

  /** For a duplicate-free ranking, average precision lies between the reciprocal rank's share and
      full-list recall, which is at most 1. */
  lemma AveragePrecisionBounded(r: seq<Id>, rel: set<Id>)
    requires Distinct(r) && rel != {}
    ensures 0.0 <= AveragePrecision(r, rel) <= RecallAtK(r, rel, |r|) <= 1.0
    ensures AveragePrecision(r, rel) * |rel| as real >= ReciprocalRank(r, rel)
  {
    PrecisionSumBounds(r, rel);
    HitsAtMostRelevant(r, rel);
    assert Take(r, |r|) == r;
    SumAtLeastReciprocalRank(r, rel);
    ScaledAveragePrecision(r, rel);
    Chain(PrecisionSum(r, rel), Hits(r, rel) as real, |rel| as real);
  }

  lemma Chain(x: real, y: real, n: real)
    requires 0.0 <= x <= y <= n && n > 0.0
    ensures 0.0 <= x / n <= y / n <= 1.0
  {
    DivideMonotone(x, y, n);
    Quotient(x, n);
    Quotient(y, n);
  }

  lemma ScaledAveragePrecision(r: seq<Id>, rel: set<Id>)
    requires rel != {}
    ensures AveragePrecision(r, rel) * |rel| as real == PrecisionSum(r, rel)
  {
    DivideBack(PrecisionSum(r, rel), |rel| as real);
  }

  lemma DivideBack(x: real, n: real)
    requires n > 0.0
    ensures x / n * n == x
  {
  }

  lemma DivideMonotone(x: real, y: real, n: real)
    requires x <= y && n > 0.0
    ensures x / n <= y / n
  {
  }

  /** It is 1 exactly when the first |rel| items are the relevant ones. */
  lemma AveragePrecisionIsOne(r: seq<Id>, rel: set<Id>)
    requires Distinct(r) && rel != {}
    ensures AveragePrecision(r, rel) == 1.0 <==> |rel| <= |r| && ToSet(r[..|rel|]) == rel
  {
    var sum, hits := PrecisionSum(r, rel), Hits(r, rel);
    PrecisionSumBounds(r, rel);
    HitsAtMostRelevant(r, rel);
    Quotient(sum, |rel| as real);
    if |rel| <= |r| {
      var top := r[..|rel|];
      assert Distinct(top) by { assert forall i :: 0 <= i < |top| ==> top[i] == r[i]; }
      ToSetSize(top);
      if AveragePrecision(r, rel) == 1.0 {
        assert forall i :: 0 <= i < |top| ==> top[i] in rel;
        SubsetSize(ToSet(top), rel);
      }
      if ToSet(top) == rel {
        forall i | 0 <= i < |rel|
          ensures r[i] in rel
        {
          assert top[i] in ToSet(top);
        }
        AllHits(top, rel);
        HitsPrefix(r, rel, |rel|);
      }
    }
  }

  lemma {:induction false} HitsPrefix(r: seq<Id>, rel: set<Id>, n: nat)
    requires n <= |r|
    ensures Hits(r[..n], rel) <= Hits(r, rel)
  {
    if n == |r| {
      assert r[..n] == r;
    } else {
      assert r[..|r| - 1][..n] == r[..n];
      HitsPrefix(r[..|r| - 1], rel, n);
    }
  }

  /** A repeated item lets the hit count exceed the number of relevant items. */
  lemma RepeatedItemOverflows(r: seq<Id>)
    requires !Distinct(r)
    ensures ToSet(r) != {} && |ToSet(r)| < Hits(r, ToSet(r)) == |r|
    ensures PrecisionSum(r, ToSet(r)) == |r| as real
  {
    ToSetSize(r);
    AllHits(r, ToSet(r));
    PrecisionSumBounds(r, ToSet(r));
    assert r[0] in ToSet(r);
  }

  /** Whatever is relevant, average precision stays within 1: exactly for duplicate-free rankings. */
  lemma AveragePrecisionBoundNeedsDistinct(r: seq<Id>)
    ensures (forall rel: set<Id> :: AveragePrecision(r, rel) <= 1.0) <==> Distinct(r)
  {
    if Distinct(r) {
      forall rel: set<Id>
        ensures AveragePrecision(r, rel) <= 1.0
      {
        if rel != {} { AveragePrecisionBounded(r, rel); }
      }
    } else {
      RepeatedItemOverflows(r);
      Quotient(PrecisionSum(r, ToSet(r)), |ToSet(r)| as real);
      assert AveragePrecision(r, ToSet(r)) > 1.0;
    }
  }

  /** The same for recall at any cut. */
  lemma RecallBoundNeedsDistinct(r: seq<Id>, k: nat)
    ensures (forall rel: set<Id> :: 0.0 <= RecallAtK(r, rel, k) <= 1.0) <==> Distinct(Take(r, k))
  {
    var cut := Take(r, k);
    if Distinct(cut) {
      forall rel: set<Id>
        ensures 0.0 <= RecallAtK(r, rel, k) <= 1.0
      {
        if rel != {} {
          HitsAtMostRelevant(cut, rel);
          Quotient(Hits(cut, rel) as real, |rel| as real);
        }
      }
    } else {
      RepeatedItemOverflows(cut);
      Quotient(Hits(cut, ToSet(cut)) as real, |ToSet(cut)| as real);
      assert RecallAtK(r, ToSet(cut), k) > 1.0;
    }
  }

  lemma RatesBounded(r: seq<Id>, rel: set<Id>, k: int)
    ensures 0.0 <= ReciprocalRank(r, rel) <= 1.0
    ensures 0.0 <= ContextPrecision(r, rel, k) <= 1.0
  {
    Quotient(1.0, (FirstHit(r, rel) + 1) as real);
    if k > 0 {
      HitsVersusItems(Take(r, k), rel);
      Quotient(Hits(Take(r, k), rel) as real, k as real);
    }
  }

  // ------------------------------------------------------------------ rank by rank

  /** The first `n` ranks that hold something relevant. */
  ghost function RelevantRanks(r: seq<Id>, rel: set<Id>, n: nat): set<int> {
    set i | 0 <= i < n && i < |r| && r[i] in rel
  }

  /** Hits are the relevant ranks. */
  lemma {:induction false} HitsAreRanks(r: seq<Id>, rel: set<Id>)
    ensures Hits(r, rel) == |RelevantRanks(r, rel, |r|)|
  {
    if r != [] {
      var p, last := r[..|r| - 1], |r| - 1;
      HitsAreRanks(p, rel);
      assert RelevantRanks(r, rel, |r|) == RelevantRanks(p, rel, |p|) + if r[last] in rel then {last} else {};
    }
  }

  /** Average precision gains at each relevant rank the share of relevant ranks up to it, and nothing elsewhere. */
  lemma PrecisionAtRank(r: seq<Id>, rel: set<Id>, n: nat)
    requires n < |r| && rel != {}
    ensures AveragePrecision(r[..0], rel) == 0.0
    ensures AveragePrecision(r[..n + 1], rel) * |rel| as real
         == AveragePrecision(r[..n], rel) * |rel| as real
            + if r[n] in rel then |RelevantRanks(r, rel, n + 1)| as real / (n + 1) as real else 0.0
  {
    var up := r[..n + 1];
    assert up[..n] == r[..n] && r[..0] == [];
    HitsAreRanks(up, rel);
    assert RelevantRanks(up, rel, n + 1) == RelevantRanks(r, rel, n + 1);
    TimesCount(PrecisionSum(up, rel), |rel| as real);
    TimesCount(PrecisionSum(r[..n], rel), |rel| as real);
  }

  lemma TimesCount(x: real, y: real)
    requires y > 0.0
    ensures x / y * y == x
  {
  }

  /** Reciprocal rank looks at the first relevant rank alone. */
  lemma ReciprocalOfFirst(r: seq<Id>, rel: set<Id>, p: nat)
    requires p <= |r| && (forall i :: 0 <= i < p ==> r[i] !in rel) && (p < |r| ==> r[p] in rel)
    ensures ReciprocalRank(r, rel) == if p < |r| then 1.0 / (p + 1) as real else 0.0
  {
  }

  /** Recall and context precision count the relevant ranks above the cut, over what is relevant and over the
      cut. */
  lemma RatesOfRanks(r: seq<Id>, rel: set<Id>, k: nat)
    requires rel != {} && k > 0
    ensures RecallAtK(r, rel, k) * |rel| as real == |RelevantRanks(r, rel, k)| as real
    ensures ContextPrecision(r, rel, k) * k as real == |RelevantRanks(r, rel, k)| as real
  {
    var cut := Take(r, k);
    HitsAreRanks(cut, rel);
    assert RelevantRanks(cut, rel, |cut|) == RelevantRanks(r, rel, k);
    TimesCount(Hits(cut, rel) as real, |rel| as real);
    TimesCount(Hits(cut, rel) as real, k as real);
  }

  /** With one relevant item, at rank `p`, average precision and reciprocal rank are both the inverse of that
      rank. */
  lemma OneRelevant(r: seq<Id>, p: nat)
    requires p < |r| && Distinct(r)
    ensures AveragePrecision(r, {r[p]}) == ReciprocalRank(r, {r[p]}) == 1.0 / (p + 1) as real
  {
    var rel := {r[p]};
    forall i | 0 <= i < |r| && i != p
      ensures r[i] !in rel
    {
    }
    ReciprocalOfFirst(r, rel, p);
    OnlyHit(r, rel, p);
    assert |rel| == 1;
  }

  lemma {:induction false} OnlyHit(r: seq<Id>, rel: set<Id>, p: nat)
    requires p < |r| && forall i :: 0 <= i < |r| ==> (r[i] in rel <==> i == p)
    ensures Hits(r, rel) == 1 && PrecisionSum(r, rel) == 1.0 / (p + 1) as real
  {
    var init := r[..|r| - 1];
    if p == |r| - 1 {
      NoHits(init, rel);
      PrecisionSumBounds(init, rel);
    } else {
      OnlyHit(init, rel, p);
    }
  }

  /** Moving a relevant item up past one that is not raises average precision. */
  lemma PromotionRaises(p: seq<Id>, x: Id, y: Id, q: seq<Id>, rel: set<Id>)
    requires x !in rel && y in rel
    ensures AveragePrecision(p + [y, x] + q, rel) > AveragePrecision(p + [x, y] + q, rel)
  {
    var up, down := p + [y, x], p + [x, y];
    SwappedPair(p, x, y, rel);
    SameRest(up, down, q, rel);
    Larger(PrecisionSum(up + q, rel), PrecisionSum(down + q, rel), |rel| as real);
  }

  lemma Larger(x: real, y: real, n: real)
    requires x > y && n > 0.0
    ensures x / n > y / n
  {
    assert x / n - y / n == (x - y) / n;
  }

  lemma SumSnoc(p: seq<Id>, x: Id, rel: set<Id>)
    ensures Hits(p + [x], rel) == Hits(p, rel) + if x in rel then 1 else 0
    ensures PrecisionSum(p + [x], rel)
         == PrecisionSum(p, rel) + if x in rel then (Hits(p, rel) + 1) as real / (|p| + 1) as real else 0.0
  {
    assert (p + [x])[..|p|] == p;
  }

  lemma SwappedPair(p: seq<Id>, x: Id, y: Id, rel: set<Id>)
    requires x !in rel && y in rel
    ensures Hits(p + [y, x], rel) == Hits(p + [x, y], rel)
    ensures PrecisionSum(p + [y, x], rel) > PrecisionSum(p + [x, y], rel)
  {
    assert p + [y] + [x] == p + [y, x] && p + [x] + [y] == p + [x, y];
    SumSnoc(p, y, rel);
    SumSnoc(p + [y], x, rel);
    SumSnoc(p, x, rel);
    SumSnoc(p + [x], y, rel);
    SmallerShare((Hits(p, rel) + 1) as real, (|p| + 1) as real);
  }

  lemma SmallerShare(h: real, n: real)
    requires h > 0.0 && n > 0.0
    ensures h / n > h / (n + 1.0)
  {
    var a, b := h / n, h / (n + 1.0);
    assert a * n == h && b * (n + 1.0) == h && b > 0.0;
    assert (a - b) * n == b;
    if a <= b {
      NotPositive(a - b, n);
    }
  }

  lemma NotPositive(x: real, y: real)
    requires x <= 0.0 && y > 0.0
    ensures x * y <= 0.0
  {
  }

  lemma {:induction false} SameRest(a: seq<Id>, b: seq<Id>, q: seq<Id>, rel: set<Id>)
    requires |a| == |b| && Hits(a, rel) == Hits(b, rel)
    ensures Hits(a + q, rel) == Hits(b + q, rel)
    ensures PrecisionSum(a + q, rel) - PrecisionSum(b + q, rel) == PrecisionSum(a, rel) - PrecisionSum(b, rel)
  {
    if q == [] {
      assert a + q == a && b + q == b;
    } else {
      var init, x := q[..|q| - 1], q[|q| - 1];
      SameRest(a, b, init, rel);
      assert a + q == (a + init) + [x] && b + q == (b + init) + [x];
      SumSnoc(a + init, x, rel);
      SumSnoc(b + init, x, rel);
    }
  }
}
