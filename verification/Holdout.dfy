/** The holdout scorer: its metrics, compared with the shadow benchmark's, and its averages. */
module Holdout {
  import opened Wrappers
  import opened Seqs
  import opened Ids
  import opened Ranking
  import Relevance
  import Sorting
  import Deduplication

  // ------------------------------------------------------------------ the scorer's own metrics

  function RecallAtK(r: seq<Id>, rel: set<Id>, k: nat): real {
    if rel == {} then 0.0 else |ToSet(Take(r, k)) * rel| as real / |rel| as real
  }

  method AveragePrecision(returned: seq<Id>, rel: set<Id>) returns (ap: real)
    ensures ap == if rel == {} then 0.0 else Relevance.AveragePrecision(returned, rel)
  {
    if rel == {} {
      return 0.0;
    }
    var hits, total := 0, 0.0;
    for i := 0 to |returned|
      invariant hits == Relevance.Hits(returned[..i], rel)
      invariant total == Relevance.PrecisionSum(returned[..i], rel)
    {
      assert returned[..i + 1][..i] == returned[..i];
      if returned[i] in rel {
        hits := hits + 1;
        total := total + hits as real / (i + 1) as real;
      }
    }
    assert returned[..|returned|] == returned;
    return total / |rel| as real;
  }

  /** `sum(value / log2(index + 2))` over gains that are already computed. */
  function DiscountedGains(w: Weights, gains: seq<real>, off: nat): real {
    if gains == [] then 0.0
    else gains[0] * w.discount(off) + DiscountedGains(w, gains[1..], off + 1)
  }

  function IdealGains(w: Weights, graded: Grades, k: nat): seq<real> {
    Take(Descending(Map(w.gain, Values(graded))), k)
  }

  function NdcgAtK(w: Weights, returned: seq<Id>, graded: Grades, k: nat): real {
    var dcg := DiscountedGains(w, Map(w.gain, GradesOf(graded, Take(returned, k))), 0);
    var idcg := DiscountedGains(w, IdealGains(w, graded, k), 0);
    if idcg != 0.0 then dcg / idcg else 0.0
  }

  // ------------------------------------------------------------------ agreement with the shadow metrics

  lemma {:induction false} GainsOfGrades(w: Weights, gs: seq<real>, off: nat)
    ensures DiscountedGains(w, Map(w.gain, gs), off) == Discounted(w, gs, off)
  {
    if gs != [] {
      GainsOfGrades(w, gs[1..], off + 1);
      assert Map(w.gain, gs)[1..] == Map(w.gain, gs[1..]);
    }
  }

  /** Sorting gains gives the gains of the sorted grades. */
  lemma SortedGains(w: Weights, vs: seq<real>)
    requires w.Lawful()
    ensures Descending(Map(w.gain, vs)) == Map(w.gain, Descending(vs))
  {
    DescendingSorted(vs);
    DescendingSorted(Map(w.gain, vs));
    MapMultiset(w.gain, Descending(vs), vs);
    var sorted := Descending(vs);
    forall i, j | 0 <= i < j < |sorted|
      ensures w.gain(sorted[i]) >= w.gain(sorted[j])
    {
      assert sorted[i] >= sorted[j];
    }
    Sorting.UniqueListing(Descending(Map(w.gain, vs)), Map(w.gain, sorted), AtLeast);
  }

  lemma IdealsAgree(w: Weights, graded: Grades, k: nat)
    requires w.Lawful()
    ensures DiscountedGains(w, IdealGains(w, graded, k), 0) == IdealDcg(w, graded, k)
  {
    SortedGains(w, Values(graded));
    var best := Descending(Values(graded));
    assert Take(Map(w.gain, best), k) == Map(w.gain, Take(best, k));
    GainsOfGrades(w, Take(best, k), 0);
  }

  /** The two nDCGs are the same number exactly when there is gain to be had; without it the
      scorer says 0 and the shadow metric says 1. */
  lemma NdcgAgreement(w: Weights, returned: seq<Id>, graded: Grades, k: nat)
    requires w.Lawful() && NonNegative(graded)
    ensures NdcgAtK(w, returned, graded, k) == Ndcg(w, graded, returned, k) <==> IdealDcg(w, graded, k) > 0.0
    ensures IdealDcg(w, graded, k) == 0.0 ==> NdcgAtK(w, returned, graded, k) == 0.0
  {
    IdealsAgree(w, graded, k);
    GainsOfGrades(w, GradesOf(graded, Take(returned, k)), 0);
    IdealNonNegative(w, graded, k);
  }

  lemma IdealNonNegative(w: Weights, graded: Grades, k: nat)
    requires w.Lawful() && NonNegative(graded)
    ensures IdealDcg(w, graded, k) >= 0.0
  {
    DistinctDrawsFromIdeal(graded, []);
    DiscountedNonNegative(w, Take(Descending(Values(graded)), k), 0);
  }

  /** The two recalls are the same number exactly when something is relevant and no relevant item
      is repeated above the cut. */
  lemma RecallAgreement(r: seq<Id>, rel: set<Id>, k: nat)
    ensures RecallAtK(r, rel, k) == Relevance.RecallAtK(r, rel, k)
       <==> rel != {} && Relevance.RelevantOnce(Take(r, k), rel)
    ensures RecallAtK(r, rel, k) <= Relevance.RecallAtK(r, rel, k)
  {
    if rel != {} {
      var items, hits := |ToSet(Take(r, k)) * rel|, Relevance.Hits(Take(r, k), rel);
      Relevance.HitsVersusItems(Take(r, k), rel);
      SameQuotient(items as real, hits as real, |rel| as real);
    }
  }

  lemma SameQuotient(x: real, y: real, n: real)
    requires n > 0.0 && x <= y
    ensures x / n <= y / n
    ensures x / n == y / n <==> x == y
  {
    assert x / n * n == x && y / n * n == y;
  }

  // ------------------------------------------------------------------ scoring a whole run

  /** One query's returned ids with its ground truth. */
  datatype Record = Record(returned: seq<Id>, relevant: set<Id>, graded: Grades, excluded: set<Id>)

  datatype Scores = Scores(recall5: real, mrr: real, map_: real, ndcg10: real, leaks: nat)

  datatype ScoreError = NoRecords | OutOfRange

  predicate InRange(x: real) {
    0.0 <= x <= 1.0
  }

  function Sum(xs: seq<real>): real {
    if xs == [] then 0.0 else Sum(xs[..|xs| - 1]) + xs[|xs| - 1]
  }

  function Mean(xs: seq<real>): real
    requires xs != []
  {
    Sum(xs) / |xs| as real
  }

  function RecordPrecision(rec: Record): real {
    if rec.relevant == {} then 0.0 else Relevance.AveragePrecision(rec.returned, rec.relevant)
  }

  function Recalls(): Record -> real {
    (rec: Record) => RecallAtK(rec.returned, rec.relevant, 5)
  }

  function Ranks(): Record -> real {
    (rec: Record) => Relevance.ReciprocalRank(rec.returned, rec.relevant)
  }

  function Precisions(): Record -> real {
    (rec: Record) => RecordPrecision(rec)
  }

  function Ndcgs(w: Weights): Record -> real {
    (rec: Record) => NdcgAtK(w, rec.returned, rec.graded, 10)
  }

  function Leaks(records: seq<Record>): nat {
    if records == [] then 0
    else Leaks(records[..|records| - 1])
         + Relevance.Hits(Take(records[|records| - 1].returned, 10), records[|records| - 1].excluded)
  }

  function Averages(w: Weights, records: seq<Record>): Scores
    requires records != []
  {
    Scores(Mean(Map(Recalls(), records)), Mean(Map(Ranks(), records)),
           Mean(Map(Precisions(), records)), Mean(Map(Ndcgs(w), records)), Leaks(records))
  }

  function Validated(s: Scores): Result<Scores, ScoreError> {
    if InRange(s.recall5) && InRange(s.mrr) && InRange(s.map_) && InRange(s.ndcg10)
    then Ok(s) else Err(OutOfRange)
  }

  lemma OneMoreRecord(w: Weights, records: seq<Record>, i: nat)
    requires i < |records|
    ensures Map(Recalls(), records[..i + 1]) == Map(Recalls(), records[..i]) + [Recalls()(records[i])]
    ensures Map(Ranks(), records[..i + 1]) == Map(Ranks(), records[..i]) + [Ranks()(records[i])]
    ensures Map(Precisions(), records[..i + 1]) == Map(Precisions(), records[..i]) + [Precisions()(records[i])]
    ensures Map(Ndcgs(w), records[..i + 1]) == Map(Ndcgs(w), records[..i]) + [Ndcgs(w)(records[i])]
    ensures Leaks(records[..i + 1])
         == Leaks(records[..i]) + Relevance.Hits(Take(records[i].returned, 10), records[i].excluded)
  {
    MapStep(Recalls(), records, i);
    MapStep(Ranks(), records, i);
    MapStep(Precisions(), records, i);
    MapStep(Ndcgs(w), records, i);
    assert records[..i + 1][..i] == records[..i];
  }

  /** The averages; the artifact's schema refuses a value outside [0, 1]. */
  method ScoreRecords(w: Weights, records: seq<Record>) returns (r: Result<Scores, ScoreError>)
    ensures records == [] ==> r == Err(NoRecords)
    ensures records != [] ==> r == Validated(Averages(w, records))
  {
    var recalls: seq<real>, mrrs: seq<real>, maps: seq<real>, ndcgs: seq<real> := [], [], [], [];
    var leaks := 0;
    for i := 0 to |records|
      invariant recalls == Map(Recalls(), records[..i]) && mrrs == Map(Ranks(), records[..i])
      invariant maps == Map(Precisions(), records[..i]) && ndcgs == Map(Ndcgs(w), records[..i])
      invariant leaks == Leaks(records[..i])
    {
      var rec := records[i];
      OneMoreRecord(w, records, i);
      var rr := Relevance.ComputeReciprocalRank(rec.returned, rec.relevant);
      var ap := AveragePrecision(rec.returned, rec.relevant);
      recalls := recalls + [RecallAtK(rec.returned, rec.relevant, 5)];
      mrrs, maps := mrrs + [rr], maps + [ap];
      ndcgs := ndcgs + [NdcgAtK(w, rec.returned, rec.graded, 10)];
      leaks := leaks + Relevance.Hits(Take(rec.returned, 10), rec.excluded);
    }
    assert records[..|records|] == records;
    if records == [] {
      return Err(NoRecords);
    }
    return Validated(Scores(Mean(recalls), Mean(mrrs), Mean(maps), Mean(ndcgs), leaks));
  }

  lemma {:induction false} SumInRange(xs: seq<real>)
    requires forall i :: 0 <= i < |xs| ==> InRange(xs[i])
    ensures 0.0 <= Sum(xs) <= |xs| as real
  {
    if xs != [] {
      SumInRange(xs[..|xs| - 1]);
      assert InRange(xs[|xs| - 1]);
    }
  }

  lemma MeanInRange(xs: seq<real>)
    requires xs != [] && forall i :: 0 <= i < |xs| ==> InRange(xs[i])
    ensures InRange(Mean(xs))
  {
    SumInRange(xs);
    Relevance.Quotient(Sum(xs), |xs| as real);
  }

  ghost predicate CleanRun(records: seq<Record>) {
    forall i :: 0 <= i < |records| ==> Distinct(records[i].returned) && NonNegative(records[i].graded)
  }

  lemma RecordInRange(w: Weights, rec: Record)
    requires w.Lawful() && Distinct(rec.returned) && NonNegative(rec.graded)
    ensures InRange(Recalls()(rec)) && InRange(Ranks()(rec))
    ensures InRange(Precisions()(rec)) && InRange(Ndcgs(w)(rec))
  {
    DistinctTake(rec.returned, 10);
    DistinctTake(rec.returned, 5);
    Relevance.RecallBoundNeedsDistinct(rec.returned, 5);
    Relevance.RatesBounded(rec.returned, rec.relevant, 5);
    RecallAgreement(rec.returned, rec.relevant, 5);
    if rec.relevant != {} {
      Relevance.AveragePrecisionBounded(rec.returned, rec.relevant);
      Relevance.Quotient(|ToSet(Take(rec.returned, 5)) * rec.relevant| as real, |rec.relevant| as real);
    }
    NdcgBounded(w, rec.graded, rec.returned, 10);
    NdcgAgreement(w, rec.returned, rec.graded, 10);
    IdealNonNegative(w, rec.graded, 10);
  }

  /** A non-empty run whose lists have no repeats is always scored, never refused by the schema. */
  lemma CleanRunsAccepted(w: Weights, records: seq<Record>)
    requires w.Lawful() && records != [] && CleanRun(records)
    ensures Validated(Averages(w, records)).Ok?
  {
    forall i | 0 <= i < |records|
      ensures InRange(Recalls()(records[i])) && InRange(Ranks()(records[i]))
      ensures InRange(Precisions()(records[i])) && InRange(Ndcgs(w)(records[i]))
    {
      RecordInRange(w, records[i]);
    }
    MeanInRange(Map(Recalls(), records));
    MeanInRange(Map(Ranks(), records));
    MeanInRange(Map(Precisions(), records));
    MeanInRange(Map(Ndcgs(w), records));
  }

  // ------------------------------------------------------------------ what the loader lets through

  /** The ground truth of one query. */
  datatype Truth = Truth(relevant: set<Id>, graded: seq<(Id, real)>, excluded: set<Id>)

  const MOST_IDS := 64
  const MOST_GRADES := 128

  function GradedIds(graded: seq<(Id, real)>): set<Id> {
    set e | e in graded :: e.0
  }

  /** What a ground-truth row may hold: at most 64 ids of each kind, and unique grades from 0 to 3 that cover
      every relevant id. */
  ghost predicate Receivable(t: Truth) {
    && |t.relevant| <= MOST_IDS && |t.excluded| <= MOST_IDS
    && |t.graded| <= MOST_GRADES && DistinctKeys(t.graded)
    && (forall i :: 0 <= i < |t.graded| ==> t.graded[i].1 in {0.0, 1.0, 2.0, 3.0})
    && t.relevant <= GradedIds(t.graded)
  }

  /** One receivable truth for each list. */
  ghost predicate TruthsFor(lists: seq<seq<Id>>, truths: seq<Truth>) {
    |truths| == |lists| && forall i :: 0 <= i < |truths| ==> Receivable(truths[i])
  }

  /** The run in which the queries returned `lists` and the truths are `truths`. */
  ghost function Posed(lists: seq<seq<Id>>, truths: seq<Truth>): (records: seq<Record>)
    requires TruthsFor(lists, truths)
    ensures |records| == |lists|
  {
    seq(|lists|, i requires 0 <= i < |lists| =>
          Record(lists[i], truths[i].relevant, truths[i].graded, truths[i].excluded))
  }

  ghost predicate AlwaysAccepted(w: Weights, lists: seq<seq<Id>>)
    requires lists != []
  {
    forall truths :: TruthsFor(lists, truths) ==> Validated(Averages(w, Posed(lists, truths))).Ok?
  }

  /** One of the first 64 ids comes again. */
  ghost predicate EarlyRepeat(returned: seq<Id>) {
    exists i, j :: 0 <= i < j < |returned| && i < MOST_IDS && returned[i] == returned[j]
  }

  /** Only ids that first come after rank 64 are repeated. */
  ghost predicate LateRepeat(returned: seq<Id>) {
    !Distinct(returned) && !EarlyRepeat(returned)
  }

  /** In a list with at most 64 different ids every repeat is one of the first 64. */
  lemma FewIdsRepeatEarly(returned: seq<Id>)
    requires |ToSet(returned)| <= MOST_IDS
    ensures !LateRepeat(returned)
  {
    if !EarlyRepeat(returned) {
      var cut := Take(returned, MOST_IDS + 1);
      assert Distinct(cut);
      ToSetSize(cut);
      SubsetSize(ToSet(cut), ToSet(returned));
      assert cut == returned;
    }
  }

  /** The scorer does not de-duplicate: a run of non-empty lists without late repeats is accepted under every
      ground truth the loader lets through exactly when no list repeats an id. */
  lemma AcceptanceNeedsDistinct(w: Weights, lists: seq<seq<Id>>)
    requires w.Lawful() && lists != []
    requires forall i :: 0 <= i < |lists| ==> lists[i] != [] && !LateRepeat(lists[i])
    ensures AlwaysAccepted(w, lists) <==> forall i :: 0 <= i < |lists| ==> Distinct(lists[i])
  {
    if forall i :: 0 <= i < |lists| ==> Distinct(lists[i]) {
      forall truths | TruthsFor(lists, truths)
        ensures Validated(Averages(w, Posed(lists, truths))).Ok?
      {
        CleanRunsAccepted(w, Posed(lists, truths));
      }
    } else {
      var k :| 0 <= k < |lists| && !Distinct(lists[k]);
      assert !LateRepeat(lists[k]);
      EarlyRepeatRefused(w, lists, k);
    }
  }

  /** One early repeat in a run of non-empty lists is enough for the schema to refuse some ground truth. */
  lemma EarlyRepeatRefused(w: Weights, lists: seq<seq<Id>>, k: nat)
    requires k < |lists| && forall i :: 0 <= i < |lists| ==> lists[i] != []
    requires EarlyRepeat(lists[k])
    ensures !AlwaysAccepted(w, lists)
  {
    var truths := Refuting(lists);
    forall i | 0 <= i < |lists|
      ensures Receivable(truths[i]) && Precise(lists[i], truths[i], i == k)
    {
      MarkedPrecision(lists[i]);
    }
    assert TruthsFor(lists, truths);
    var records := Posed(lists, truths);
    forall i | 0 <= i < |records|
      ensures RecordPrecision(records[i]) >= 1.0 && (i == k ==> RecordPrecision(records[i]) > 1.0)
    {
      assert Precise(lists[i], truths[i], i == k);
    }
    Overflowing(w, records, k);
  }

  /** Every query's first 64 ids are relevant. */
  ghost function Refuting(lists: seq<seq<Id>>): (truths: seq<Truth>)
    ensures |truths| == |lists|
    ensures forall i :: 0 <= i < |lists| ==> truths[i] == Marking(Take(lists[i], MOST_IDS))
  {
    seq(|lists|, i requires 0 <= i < |lists| => Marking(Take(lists[i], MOST_IDS)))
  }

  ghost predicate Precise(returned: seq<Id>, t: Truth, strict: bool) {
    && t.relevant != {} && Relevance.AveragePrecision(returned, t.relevant) >= 1.0
    && (strict ==> Relevance.AveragePrecision(returned, t.relevant) > 1.0)
  }

  lemma Overflowing(w: Weights, records: seq<Record>, k: nat)
    requires k < |records| && forall i :: 0 <= i < |records| ==> RecordPrecision(records[i]) >= 1.0
    requires RecordPrecision(records[k]) > 1.0
    ensures Validated(Averages(w, records)).Err?
  {
    var xs := Map(Precisions(), records);
    SumAbove(xs, k);
    Relevance.Quotient(Sum(xs), |xs| as real);
  }

  /** The truth in which exactly these ids matter. */
  ghost function Marking(ids: seq<Id>): Truth {
    Truth(ToSet(ids), Deduplication.AllOnes(Deduplication.Dedup(ids)), {})
  }

  /** The first 64 ranks give as much as there are marked ids; every later hit adds to it. */
  lemma MarkedPrecision(returned: seq<Id>)
    requires returned != []
    ensures var t := Marking(Take(returned, MOST_IDS));
      Receivable(t) && Precise(returned, t, EarlyRepeat(returned))
  {
    var cut := Take(returned, MOST_IDS);
    var marked := ToSet(cut);
    MarkingReceivable(cut);
    assert cut[0] in marked;
    Relevance.AllHits(cut, marked);
    Relevance.PrecisionSumBounds(cut, marked);
    assert returned[..|cut|] == cut;
    PrecisionSumPrefix(returned, marked, |cut|);
    if EarlyRepeat(returned) && Distinct(cut) {
      var i, j :| 0 <= i < j < |returned| && i < MOST_IDS && returned[i] == returned[j];
      assert cut[i] in marked && |cut| <= j;
      LaterHit(returned, marked, |cut|, j);
    }
    Relevance.Quotient(Relevance.PrecisionSum(returned, marked), |marked| as real);
  }

  lemma MarkingReceivable(ids: seq<Id>)
    requires |ids| <= MOST_IDS
    ensures Receivable(Marking(ids))
    ensures |ToSet(ids)| <= |ids| && (|ToSet(ids)| == |ids| <==> Distinct(ids))
  {
    var d := Deduplication.Dedup(ids);
    ToSetSize(ids);
    Deduplication.DedupDistinct(ids);
    ToSetSize(d);
    forall x | x in ToSet(ids)
      ensures x in GradedIds(Deduplication.AllOnes(d))
    {
      assert x in ToSet(d);
      var i :| 0 <= i < |d| && d[i] == x;
      assert Deduplication.AllOnes(d)[i] == (x, 1.0);
    }
  }

  lemma {:induction false} PrecisionSumPrefix(r: seq<Id>, rel: set<Id>, n: nat)
    requires n <= |r|
    ensures Relevance.PrecisionSum(r[..n], rel) <= Relevance.PrecisionSum(r, rel)
  {
    if n == |r| {
      assert r[..n] == r;
    } else {
      PrecisionSumPrefix(r[..|r| - 1], rel, n);
      assert r[..|r| - 1][..n] == r[..n];
    }
  }

  lemma OneMoreHit(p: seq<Id>, x: Id, rel: set<Id>)
    requires x in rel
    ensures Relevance.PrecisionSum(p, rel) < Relevance.PrecisionSum(p + [x], rel)
  {
    var r := p + [x];
    assert r[..|r| - 1] == p && r[|r| - 1] == x;
    var hits := Relevance.Hits(r, rel);
    assert hits == Relevance.Hits(p, rel) + 1;
    assert Relevance.PrecisionSum(r, rel) == Relevance.PrecisionSum(p, rel) + hits as real / |r| as real;
    Positive(hits as real, |r| as real);
  }

  lemma Positive(x: real, y: real)
    requires x > 0.0 && y > 0.0
    ensures x / y > 0.0
  {
  }

  lemma LaterHit(r: seq<Id>, rel: set<Id>, n: nat, j: nat)
    requires n <= j < |r| && r[j] in rel
    ensures Relevance.PrecisionSum(r[..n], rel) < Relevance.PrecisionSum(r, rel)
  {
    PrecisionSumPrefix(r, rel, j + 1);
    PrecisionSumPrefix(r[..j], rel, n);
    assert r[..j + 1] == r[..j] + [r[j]] && r[..j][..n] == r[..n];
    OneMoreHit(r[..j], r[j], rel);
  }

  lemma {:induction false} SumAbove(xs: seq<real>, k: nat)
    requires k < |xs| && xs[k] > 1.0 && forall i :: 0 <= i < |xs| ==> xs[i] >= 1.0
    ensures Sum(xs) > |xs| as real
  {
    if k < |xs| - 1 {
      SumAbove(xs[..|xs| - 1], k);
    } else {
      SumAtLeast(xs[..|xs| - 1]);
    }
  }

  lemma {:induction false} SumAtLeast(xs: seq<real>)
    requires forall i :: 0 <= i < |xs| ==> xs[i] >= 1.0
    ensures Sum(xs) >= |xs| as real
  {
    if xs != [] {
      SumAtLeast(xs[..|xs| - 1]);
    }
  }

  // ------------------------------------------------------------------ what an empty list hides

  lemma SumOfTwo(xs: seq<real>)
    requires |xs| == 2 && 0.0 <= xs[0] <= 2.0 && xs[1] == 0.0
    ensures InRange(Mean(xs))
  {
    assert xs[..1][..0] == [] && Sum(xs[..1]) == xs[0];
  }

  lemma TwicePrecision(a: Id, rel: set<Id>)
    requires rel != {}
    ensures 0.0 <= Relevance.AveragePrecision([a, a], rel) <= 2.0
  {
    Relevance.PrecisionSumBounds([a, a], rel);
    HalfQuotient(Relevance.PrecisionSum([a, a], rel), |rel| as real);
  }

  lemma HalfQuotient(x: real, y: real)
    requires 0.0 <= x <= 2.0 * y && y > 0.0
    ensures 0.0 <= x / y <= 2.0
  {
  }

  lemma OneGain(w: Weights, g: real)
    ensures Discounted(w, [g], 0) == w.gain(g) * w.discount(0)
  {
    DiscountedSnoc(w, [], g, 0);
    assert [] + [g] == [g];
  }

  lemma TwoGains(w: Weights, g: real)
    requires w.Lawful() && g >= 0.0
    ensures 0.0 <= Discounted(w, [g, g], 0) <= 2.0 * Discounted(w, [g], 0)
  {
    DiscountedSnoc(w, [g], g, 0);
    assert [g] + [g] == [g, g];
    OneGain(w, g);
    Larger(w.gain(g), w.discount(1), w.discount(0));
  }

  lemma Larger(g: real, small: real, large: real)
    requires g >= 0.0 && 0.0 < small <= large
    ensures 0.0 <= g * small <= g * large
  {
  }

  /** One id alone gains no more than the ideal. */
  lemma OneDraw(w: Weights, graded: Grades, a: Id)
    requires w.Lawful() && NonNegative(graded)
    ensures Discounted(w, [Get(graded, a)], 0) <= IdealDcg(w, graded, 10)
  {
    DistinctDrawsFromIdeal(graded, [a]);
    assert GradesOf(graded, [a]) == [Get(graded, a)];
    Rearrangement(w, GradesOf(graded, [a]), Descending(Values(graded)), 10, 0);
  }

  lemma TwiceNdcg(w: Weights, a: Id, graded: Grades)
    requires w.Lawful() && NonNegative(graded)
    ensures 0.0 <= NdcgAtK(w, [a, a], graded, 10) <= 2.0
  {
    var g := Get(graded, a);
    assert Take([a, a], 10) == [a, a] && GradesOf(graded, [a, a]) == [g, g];
    GetNonNegative(graded, a);
    GainsOfGrades(w, [g, g], 0);
    IdealsAgree(w, graded, 10);
    IdealNonNegative(w, graded, 10);
    TwoGains(w, g);
    OneDraw(w, graded, a);
    if IdealDcg(w, graded, 10) != 0.0 {
      HalfQuotient(Discounted(w, [g, g], 0), IdealDcg(w, graded, 10));
    }
  }

  /** A repeat need not be refused when another list is empty: the lists `[a, a]` and `[]` are accepted under
      every receivable ground truth. */
  lemma EmptyListHidesRepeat(w: Weights, a: Id)
    requires w.Lawful()
    ensures AlwaysAccepted(w, [[a, a], []])
  {
    var lists := [[a, a], []];
    forall truths | TruthsFor(lists, truths)
      ensures Validated(Averages(w, Posed(lists, truths))).Ok?
    {
      var records := Posed(lists, truths);
      RepeatBesideEmpty(w, records[0], records[1]);
      assert records == [records[0], records[1]];
    }
  }

  lemma RepeatBesideEmpty(w: Weights, twice: Record, empty: Record)
    requires w.Lawful() && NonNegative(twice.graded)
    requires |twice.returned| == 2 && twice.returned[0] == twice.returned[1] && empty.returned == []
    ensures Validated(Averages(w, [twice, empty])).Ok?
  {
    var records, a := [twice, empty], twice.returned[0];
    assert twice.returned == [a, a];
    TwiceNdcg(w, a, twice.graded);
    Relevance.RatesBounded([a, a], twice.relevant, 5);
    if twice.relevant != {} {
      TwicePrecision(a, twice.relevant);
      SubsetSize(ToSet(Take([a, a], 5)) * twice.relevant, twice.relevant);
      Relevance.Quotient(|ToSet(Take([a, a], 5)) * twice.relevant| as real, |twice.relevant| as real);
    }
    EmptyScoresNothing(w, empty);
    SumOfTwo(Map(Recalls(), records));
    SumOfTwo(Map(Ranks(), records));
    SumOfTwo(Map(Precisions(), records));
    SumOfTwo(Map(Ndcgs(w), records));
  }

  lemma EmptyScoresNothing(w: Weights, empty: Record)
    requires empty.returned == []
    ensures Recalls()(empty) == Ranks()(empty) == Precisions()(empty) == Ndcgs(w)(empty) == 0.0
  {
    assert Take(empty.returned, 5) == [] && Take(empty.returned, 10) == [];
    assert ToSet(Take(empty.returned, 5)) * empty.relevant == {};
    if empty.relevant != {} {
      Relevance.Quotient(0.0, |empty.relevant| as real);
      assert 0.0 / |empty.relevant| as real == 0.0;
    }
  }

  // ------------------------------------------------------------------ score by score

  /** The run is accepted exactly when all four averages are at least 0 and at most 1, and then they are what is
      returned. */
  lemma ValidatedExactly(s: Scores)
    ensures Validated(s).Ok? <==>
      0.0 <= s.recall5 <= 1.0 && 0.0 <= s.mrr <= 1.0 && 0.0 <= s.map_ <= 1.0 && 0.0 <= s.ndcg10 <= 1.0
    ensures Validated(s) == Ok(s) || Validated(s) == Err(OutOfRange)
  {
  }

  lemma {:induction false} SumConcat(xs: seq<real>, ys: seq<real>)
    ensures Sum(xs + ys) == Sum(xs) + Sum(ys)
  {
    if ys == [] {
      assert xs + ys == xs;
    } else {
      SumConcat(xs, ys[..|ys| - 1]);
      assert (xs + ys)[..|xs + ys| - 1] == xs + ys[..|ys| - 1];
    }
  }

  /** `u` is the average of `s` over `m` queries and `t` over `n`. */
  predicate Weighted(m: nat, s: real, n: nat, t: real, u: real) {
    (m + n) as real * u == m as real * s + n as real * t
  }

  lemma MeanConcat(f: Record -> real, a: seq<Record>, b: seq<Record>)
    requires a != [] && b != []
    ensures Weighted(|a|, Mean(Map(f, a)), |b|, Mean(Map(f, b)), Mean(Map(f, a + b)))
  {
    assert Map(f, a + b) == Map(f, a) + Map(f, b);
    SumConcat(Map(f, a), Map(f, b));
    Relevance.TimesCount(Sum(Map(f, a + b)), |a + b| as real);
    Relevance.TimesCount(Sum(Map(f, a)), |a| as real);
    Relevance.TimesCount(Sum(Map(f, b)), |b| as real);
  }

  lemma {:induction false} LeaksConcat(a: seq<Record>, b: seq<Record>)
    ensures Leaks(a + b) == Leaks(a) + Leaks(b)
  {
    if b == [] {
      assert a + b == a;
    } else {
      LeaksConcat(a, b[..|b| - 1]);
      assert (a + b)[..|a + b| - 1] == a + b[..|b| - 1];
    }
  }

  /** The averages of two runs put together are theirs, weighted by the number of queries, and leaks add up. */
  lemma RunsAdd(w: Weights, a: seq<Record>, b: seq<Record>)
    requires a != [] && b != []
    ensures var s, t, u, m, n := Averages(w, a), Averages(w, b), Averages(w, a + b), |a|, |b|;
      && Weighted(m, s.recall5, n, t.recall5, u.recall5) && Weighted(m, s.mrr, n, t.mrr, u.mrr)
      && Weighted(m, s.map_, n, t.map_, u.map_) && Weighted(m, s.ndcg10, n, t.ndcg10, u.ndcg10)
      && u.leaks == s.leaks + t.leaks
  {
    MeanConcat(Recalls(), a, b);
    MeanConcat(Ranks(), a, b);
    MeanConcat(Precisions(), a, b);
    MeanConcat(Ndcgs(w), a, b);
    LeaksConcat(a, b);
  }

  lemma MeanOfOne(f: Record -> real, rec: Record)
    ensures Mean(Map(f, [rec])) == f(rec)
  {
    var xs := Map(f, [rec]);
    assert xs == [f(rec)] && xs[..0] == [];
    assert Sum(xs) == f(rec) && f(rec) / 1.0 == f(rec);
  }

  /** One query's averages are its own scores. Leaks are the excluded ids among the first ten. */
  lemma OneQuery(w: Weights, rec: Record)
    ensures var s, first := Averages(w, [rec]), Take(rec.returned, 10);
      && s.recall5 == RecallAtK(rec.returned, rec.relevant, 5)
      && s.mrr == Relevance.ReciprocalRank(rec.returned, rec.relevant)
      && s.map_ == RecordPrecision(rec) && s.ndcg10 == NdcgAtK(w, rec.returned, rec.graded, 10)
      && s.leaks == |set i | 0 <= i < 10 && i < |rec.returned| && rec.returned[i] in rec.excluded|
  {
    MeanOfOne(Recalls(), rec);
    MeanOfOne(Ranks(), rec);
    MeanOfOne(Precisions(), rec);
    MeanOfOne(Ndcgs(w), rec);
    var first := Take(rec.returned, 10);
    assert [rec][..0] == [] && Leaks([rec][..0]) == 0;
    assert Leaks([rec]) == Relevance.Hits(first, rec.excluded);
    Relevance.HitsAreRanks(first, rec.excluded);
    assert Relevance.RelevantRanks(first, rec.excluded, |first|)
        == set i | 0 <= i < 10 && i < |rec.returned| && rec.returned[i] in rec.excluded;
  }

  /** A query with nothing relevant and nothing graded scores 0 throughout. */
  lemma NothingRelevant(w: Weights, returned: seq<Id>, excluded: set<Id>)
    ensures var s := Averages(w, [Record(returned, {}, [], excluded)]);
      s.recall5 == 0.0 && s.mrr == 0.0 && s.map_ == 0.0 && s.ndcg10 == 0.0
  {
    OneQuery(w, Record(returned, {}, [], excluded));
    Relevance.ReciprocalOfFirst(returned, {}, |returned|);
    assert Values([]) == [] && Map(w.gain, Values([])) == [];
    assert IdealGains(w, [], 10) == [];
  }

  /** A query with one relevant id, the only graded one, at rank `p`: recall looks at the first 5 ranks and nDCG at
      the first 10, reciprocal rank and average precision at all of them. */
  lemma OneTarget(w: Weights, returned: seq<Id>, p: nat, g: real, excluded: set<Id>)
    requires w.Lawful() && g > 0.0 && p < |returned| && Distinct(returned)
    ensures var s := Averages(w, [Record(returned, {returned[p]}, [(returned[p], g)], excluded)]);
      && s.recall5 == (if p < 5 then 1.0 else 0.0)
      && s.mrr == 1.0 / (p + 1) as real && s.map_ == 1.0 / (p + 1) as real
      && s.ndcg10 == (if p < 10 then w.discount(p) / w.discount(0) else 0.0)
  {
    var graded: Grades := [(returned[p], g)];
    OneQuery(w, Record(returned, {returned[p]}, graded, excluded));
    Relevance.OneRelevant(returned, p);
    TargetRecall(returned, p, 5);
    OneGradedId(w, returned, p, g, 10);
    OneGradeIdeal(w, returned[p], g);
    NdcgAgreement(w, returned, graded, 10);
  }

  lemma TargetRecall(returned: seq<Id>, p: nat, k: nat)
    requires p < |returned| && Distinct(returned)
    ensures RecallAtK(returned, {returned[p]}, k) == if p < k then 1.0 else 0.0
  {
    var cut, rel := Take(returned, k), {returned[p]};
    if p < k {
      assert cut[p] == returned[p];
      assert ToSet(cut) * rel == rel;
    } else {
      assert ToSet(cut) * rel == {};
    }
    assert |rel| == 1;
  }

  lemma OneGradeIdeal(w: Weights, s: Id, g: real)
    requires w.Lawful() && g > 0.0
    ensures IdealDcg(w, [(s, g)], 10) > 0.0
  {
    assert Values([(s, g)]) == [g];
    DescendingSorted([g]);
    SameLength(Descending([g]), [g]);
    assert Descending([g])[0] in multiset([g]);
    assert Take(Descending([g]), 10) == [g];
    OneGain(w, g);
    Product(w.gain(g), w.discount(0));
  }
}
