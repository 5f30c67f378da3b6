/** Order-preserving removal of repeats, which earns the metric bounds their precondition. */
module Deduplication {
  import opened Seqs
  import opened Ids
  import R = Ranking
  import opened Relevance

  function Dedup<T(==)>(items: seq<T>): seq<T> {
    if items == [] then []
    else
      var p, x := items[..|items| - 1], items[|items| - 1];
      if x in p then Dedup(p) else Dedup(p) + [x]
  }

  method DedupPreserveOrder<T(==)>(items: seq<T>) returns (out: seq<T>)
    ensures out == Dedup(items)
  {
    var seen: set<T> := {};
    out := [];
    for i := 0 to |items|
      invariant out == Dedup(items[..i]) && seen == ToSet(items[..i])
    {
      assert items[..i + 1][..i] == items[..i];
      if items[i] !in seen {
        seen := seen + {items[i]};
        out := out + [items[i]];
      }
      assert ToSet(items[..i + 1]) == ToSet(items[..i]) + {items[i]};
    }
    assert items[..|items|] == items;
  }

  /** `i` is the first place its element occurs. */
  ghost predicate FirstAt<T>(items: seq<T>, i: nat) {
    i < |items| && items[i] !in items[..i]
  }

  /** The result has no repeats and the same elements. */
  lemma {:induction false} DedupDistinct<T>(items: seq<T>)
    ensures Distinct(Dedup(items)) && ToSet(Dedup(items)) == ToSet(items)
  {
    if items != [] {
      var p, x := items[..|items| - 1], items[|items| - 1];
      DedupDistinct(p);
      assert items == p + [x];
      assert ToSet(items) == ToSet(p) + {x};
      assert forall y :: y in Dedup(p) <==> y in ToSet(Dedup(p));
      assert ToSet(Dedup(p) + [x]) == ToSet(Dedup(p)) + {x};
    }
  }

  /** The results come in the order of first occurrence: `places` are the increasing first places. */
  lemma {:induction false} DedupInOrder<T>(items: seq<T>) returns (places: seq<nat>)
    ensures |places| == |Dedup(items)|
    ensures forall j :: 0 <= j < |places| ==> FirstAt(items, places[j]) && items[places[j]] == Dedup(items)[j]
    ensures forall i, j :: 0 <= i < j < |places| ==> places[i] < places[j]
    ensures forall i: nat :: FirstAt(items, i) ==> i in places
  {
    if items == [] {
      places := [];
    } else {
      var p, x := items[..|items| - 1], items[|items| - 1];
      places := DedupInOrder(p);
      FirstPlaces(items);
      if x !in p {
        places := places + [|p|];
      }
    }
  }

  lemma FirstPlaces<T>(items: seq<T>)
    requires items != []
    ensures var p := items[..|items| - 1];
      (forall i: nat :: i < |p| ==> (FirstAt(p, i) <==> FirstAt(items, i)) && p[i] == items[i]) &&
      (FirstAt(items, |p|) <==> items[|p|] !in p)
  {
    var p := items[..|items| - 1];
    assert forall i :: 0 <= i <= |p| ==> p[..i] == items[..i];
  }

  lemma DedupIdempotent<T>(items: seq<T>)
    ensures Dedup(items) == items <==> Distinct(items)
    ensures Dedup(Dedup(items)) == Dedup(items)
  {
    DedupDistinct(items);
    if Distinct(items) { DedupOfDistinct(items); }
    DedupOfDistinct(Dedup(items));
  }

  lemma {:induction false} DedupOfDistinct<T>(items: seq<T>)
    requires Distinct(items)
    ensures Dedup(items) == items
  {
    if items != [] {
      var p, x := items[..|items| - 1], items[|items| - 1];
      assert forall i :: 0 <= i < |p| ==> p[i] == items[i];
      DedupOfDistinct(p);
      assert items == p + [x];
    }
  }

  /** A longer raw list only extends the result. */
  lemma {:induction false} DedupPrefix<T>(items: seq<T>, k: nat)
    requires k <= |items|
    ensures Dedup(items[..k]) <= Dedup(items) && |Dedup(items[..k])| <= k
  {
    if k == |items| {
      assert items[..k] == items;
      DedupDistinct(items);
      ToSetSize(items);
      ToSetSize(Dedup(items));
    } else {
      DedupPrefix(items[..|items| - 1], k);
      assert items[..|items| - 1][..k] == items[..k];
    }
  }

  /** The first `k` results cover every element of the first `k` raw items. */
  lemma DedupCoversPrefix<T>(items: seq<T>, k: nat)
    ensures ToSet(Take(items, k)) <= ToSet(Take(Dedup(items), k))
  {
    var n := |Take(items, k)|;
    assert Take(items, k) == items[..n];
    DedupPrefix(items, n);
    DedupDistinct(items[..n]);
    var small, all := Dedup(items[..n]), Dedup(items);
    forall x | x in Take(items, k)
      ensures x in Take(all, k)
    {
      assert x in ToSet(items[..n]);
      assert x in ToSet(small);
      var i :| 0 <= i < |small| && small[i] == x;
      assert all[i] == x && Take(all, k)[i] == x;
    }
  }

  /** De-duplicating never lowers the number of relevant items in the first `k`, and brings every
      metric into [0, 1], whatever the raw ranking was. */
  lemma DedupMeetsBounds(
    w: R.Weights, graded: R.Grades, raw: seq<Id>, rel: set<Id>, k: nat)
    requires w.Lawful() && R.NonNegative(graded)
    ensures |ToSet(Take(raw, k)) * rel| <= Hits(Take(Dedup(raw), k), rel)
    ensures 0.0 <= RecallAtK(Dedup(raw), rel, k) <= 1.0
    ensures 0.0 <= AveragePrecision(Dedup(raw), rel) <= 1.0
    ensures 0.0 <= ReciprocalRank(Dedup(raw), rel) <= 1.0
    ensures 0.0 <= ContextPrecision(Dedup(raw), rel, k) <= 1.0
    ensures 0.0 <= R.Ndcg(w, graded, Dedup(raw), k) <= 1.0
  {
    var d := Dedup(raw);
    DedupDistinct(raw);
    DistinctTake(d, k);
    DedupCoversPrefix(raw, k);
    HitsAtMostRelevant(Take(d, k), rel);
    SubsetSize(ToSet(Take(raw, k)) * rel, ToSet(Take(d, k)) * rel);
    RecallBoundNeedsDistinct(d, k);
    if rel != {} { AveragePrecisionBounded(d, rel); }
    RatesBounded(d, rel, k);
    R.NdcgBounded(w, graded, d, k);
  }

  // ------------------------------------------------------------------ nDCG needs distinct ids

  function AllOnes(ids: seq<Id>): (es: seq<(Id, real)>)
    ensures |es| == |ids| && forall i :: 0 <= i < |ids| ==> es[i] == (ids[i], 1.0)
  {
    seq(|ids|, i requires 0 <= i < |ids| => (ids[i], 1.0))
  }

  lemma {:induction false} GetAllOnes(ids: seq<Id>, s: Id)
    requires s in ids
    ensures R.Get(AllOnes(ids), s) == 1.0
  {
    if ids[0] != s {
      assert AllOnes(ids)[1..] == AllOnes(ids[1..]);
      GetAllOnes(ids[1..], s);
    }
  }

  lemma {:induction false} OnesDiscounted(w: R.Weights, m: seq<real>, n: seq<real>, off: nat)
    requires w.Lawful() && |m| <= |n|
    requires forall i :: 0 <= i < |m| ==> m[i] == 1.0
    requires forall i :: 0 <= i < |n| ==> n[i] == 1.0
    ensures 0.0 <= R.Discounted(w, m, off) <= R.Discounted(w, n, off)
    ensures 0 < |m| ==> 0.0 < R.Discounted(w, m, off)
    ensures |m| < |n| ==> R.Discounted(w, m, off) < R.Discounted(w, n, off)
  {
    R.DiscountedNonNegative(w, m, off);
    R.DiscountedNonNegative(w, n, off);
    if m != [] {
      OnesDiscounted(w, m[1..], n[1..], off + 1);
    }
  }

  /** nDCG stays within 1 for every grading exactly when the first `k` ids are distinct. */
  lemma NdcgBoundNeedsDistinct(w: R.Weights, retrieved: seq<Id>, k: nat)
    requires w.Lawful()
    ensures (forall graded: R.Grades :: R.NonNegative(graded) ==> R.Ndcg(w, graded, retrieved, k) <= 1.0)
       <==> Distinct(Take(retrieved, k))
  {
    var cut := Take(retrieved, k);
    if Distinct(cut) {
      forall graded: R.Grades | R.NonNegative(graded)
        ensures R.Ndcg(w, graded, retrieved, k) <= 1.0
      {
        R.NdcgBounded(w, graded, retrieved, k);
      }
    } else {
      RepeatedIdOverflows(w, retrieved, k);
    }
  }

  lemma RepeatedIdOverflows(w: R.Weights, retrieved: seq<Id>, k: nat)
    requires w.Lawful() && !Distinct(Take(retrieved, k))
    ensures exists graded: R.Grades :: R.NonNegative(graded) && R.Ndcg(w, graded, retrieved, k) > 1.0
  {
    var cut := Take(retrieved, k);
    var ids := Dedup(cut);
    DedupDistinct(cut);
    ToSetSize(cut);
    ToSetSize(ids);
    var graded: R.Grades := AllOnes(ids);
    var gs, best := R.GradesOf(graded, cut), R.Descending(R.Values(graded));
    forall i | 0 <= i < |cut|
      ensures gs[i] == 1.0
    {
      assert cut[i] in ToSet(cut);
      assert cut[i] in ToSet(ids);
      GetAllOnes(ids, cut[i]);
    }
    R.DescendingSorted(R.Values(graded));
    SameLength(best, R.Values(graded));
    forall i | 0 <= i < |best|
      ensures best[i] == 1.0
    {
      assert best[i] in multiset(best);
      assert best[i] in R.Values(graded);
    }
    assert cut[0] in ToSet(ids);
    assert Take(best, k) == best;
    OnesDiscounted(w, best, gs, 0);
    R.NdcgAbove(w, graded, retrieved, k);
  }
}
