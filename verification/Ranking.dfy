/** The shadow benchmark's ranking metrics, with reals for floats. */
module Ranking {
  import opened Seqs
  import opened Ids
  import Sorting

  /** The gain `2^g - 1` and the discount `1 / log2(i + 2)`, up to what the metrics rely on. */
  datatype Weights = Weights(gain: real -> real, discount: nat -> real) {
    ghost predicate Lawful() {
      && gain(0.0) == 0.0
      && (forall x, y :: x < y ==> gain(x) < gain(y))
      && (forall i :: discount(i) > 0.0)
      && (forall i, j :: i < j ==> discount(i) > discount(j))
    }
  }

  // ------------------------------------------------------------------ graded relevance

  /** A Python dict from ids to grades, in insertion order. */
  type Grades = es: seq<(Id, real)> | DistinctKeys(es)

  ghost predicate DistinctKeys(es: seq<(Id, real)>) {
    forall i, j :: 0 <= i < j < |es| ==> es[i].0 != es[j].0
  }

  ghost predicate NonNegative(es: seq<(Id, real)>) {
    forall i :: 0 <= i < |es| ==> es[i].1 >= 0.0
  }

  /** `graded.get(s, 0.0)`. */
  function Get(es: seq<(Id, real)>, s: Id): real {
    if es == [] then 0.0 else if es[0].0 == s then es[0].1 else Get(es[1..], s)
  }

  function Values(es: seq<(Id, real)>): (vs: seq<real>)
    ensures |vs| == |es| && forall i :: 0 <= i < |es| ==> vs[i] == es[i].1
  {
    seq(|es|, i requires 0 <= i < |es| => es[i].1)
  }

  function GradesOf(es: seq<(Id, real)>, ids: seq<Id>): (gs: seq<real>)
    ensures |gs| == |ids| && forall i :: 0 <= i < |ids| ==> gs[i] == Get(es, ids[i])
  {
    seq(|ids|, i requires 0 <= i < |ids| => Get(es, ids[i]))
  }

  predicate AtLeast(x: real, y: real) {
    x >= y
  }

  /** `sorted(values, reverse=True)`. */
  function Descending(vs: seq<real>): seq<real> {
    Sorting.Sort(vs, AtLeast)
  }

  // ------------------------------------------------------------------ discounted gain

  /** The discounted sum of `gs`, the first of which stands at rank `off`. */
  function Discounted(w: Weights, gs: seq<real>, off: nat): real {
    if gs == [] then 0.0
    else w.gain(gs[0]) * w.discount(off) + Discounted(w, gs[1..], off + 1)
  }

  lemma {:induction false} DiscountedSnoc(w: Weights, gs: seq<real>, g: real, off: nat)
    ensures Discounted(w, gs + [g], off)
         == Discounted(w, gs, off) + w.gain(g) * w.discount(off + |gs|)
  {
    if gs == [] {
      assert [g][1..] == [];
    } else {
      assert (gs + [g])[1..] == gs[1..] + [g];
      DiscountedSnoc(w, gs[1..], g, off + 1);
    }
  }

  method ComputeDcg(w: Weights, grades: seq<real>, k: nat) returns (dcg: real)
    ensures dcg == Discounted(w, Take(grades, k), 0)
  {
    dcg := 0.0;
    var cut := Take(grades, k);
    for i := 0 to |cut|
      invariant dcg == Discounted(w, cut[..i], 0)
    {
      DiscountedSnoc(w, cut[..i], cut[i], 0);
      assert cut[..i + 1] == cut[..i] + [cut[i]];
      dcg := dcg + w.gain(cut[i]) * w.discount(i);
    }
    assert cut[..|cut|] == cut;
  }

  function Dcg(w: Weights, graded: Grades, retrieved: seq<Id>, k: nat): real {
    Discounted(w, GradesOf(graded, Take(retrieved, k)), 0)
  }

  function IdealDcg(w: Weights, graded: Grades, k: nat): real {
    Discounted(w, Take(Descending(Values(graded)), k), 0)
  }

  function Ndcg(w: Weights, graded: Grades, retrieved: seq<Id>, k: nat): real {
    if IdealDcg(w, graded, k) > 0.0 then Dcg(w, graded, retrieved, k) / IdealDcg(w, graded, k) else 1.0
  }

  method ComputeNdcg(w: Weights, retrieved: seq<Id>, graded: Grades, k: nat) returns (r: real)
    ensures r == Ndcg(w, graded, retrieved, k)
  {
    var grades := GradesOf(graded, Take(retrieved, k));
    assert Take(grades, k) == grades;
    var actual := ComputeDcg(w, grades, k);
    var ideal := ComputeDcg(w, Descending(Values(graded)), k);
    return if ideal > 0.0 then actual / ideal else 1.0;
  }

  // ------------------------------------------------------------------ the rearrangement inequality

  /** Every positive grade occurs in `gs` at most as often as in `best`. */
  ghost predicate DrawnFrom(gs: seq<real>, best: seq<real>) {
    && (forall i :: 0 <= i < |gs| ==> gs[i] >= 0.0)
    && (forall i :: 0 <= i < |best| ==> best[i] >= 0.0)
    && (forall x :: x > 0.0 ==> multiset(gs)[x] <= multiset(best)[x])
  }

  ghost predicate DescendingOrder(gs: seq<real>) {
    forall i, j :: 0 <= i < j < |gs| ==> gs[i] >= gs[j]
  }

  /** The grade at a rank, zero past the end. */
  function At(gs: seq<real>, i: nat): real {
    if i < |gs| then gs[i] else 0.0
  }

  ghost predicate SameGrades(gs: seq<real>, best: seq<real>, k: nat) {
    forall i: nat :: i < k ==> At(gs, i) == At(best, i)
  }

  lemma GainSign(w: Weights, x: real)
    requires w.Lawful() && x >= 0.0
    ensures w.gain(x) >= 0.0
    ensures w.gain(x) == 0.0 <==> x == 0.0
  {
  }

  lemma {:induction false} DiscountedNonNegative(w: Weights, gs: seq<real>, off: nat)
    requires w.Lawful() && forall i :: 0 <= i < |gs| ==> gs[i] >= 0.0
    ensures Discounted(w, gs, off) >= 0.0
    ensures Discounted(w, gs, off) == 0.0 <==> forall i :: 0 <= i < |gs| ==> gs[i] == 0.0
  {
    if gs != [] {
      DiscountedNonNegative(w, gs[1..], off + 1);
      GainSign(w, gs[0]);
      Product(w.gain(gs[0]), w.discount(off));
      assert forall i :: 1 <= i < |gs| ==> gs[i] == gs[1..][i - 1];
      if gs[0] == 0.0 && forall i :: 0 <= i < |gs[1..]| ==> gs[1..][i] == 0.0 {
        assert forall i :: 0 <= i < |gs| ==> gs[i] == 0.0;
      }
    }
  }

  lemma Product(x: real, y: real)
    requires x >= 0.0 && y > 0.0
    ensures x * y >= 0.0
    ensures x * y == 0.0 <==> x == 0.0
  {
  }

  lemma {:induction false} DiscountedUpdate(w: Weights, gs: seq<real>, j: nat, g: real, off: nat)
    requires j < |gs|
    ensures Discounted(w, gs[j := g], off)
         == Discounted(w, gs, off) + (w.gain(g) - w.gain(gs[j])) * w.discount(off + j)
  {
    if j == 0 {
      assert gs[0 := g][1..] == gs[1..];
    } else {
      assert gs[j := g][1..] == gs[1..][j - 1 := g];
      DiscountedUpdate(w, gs[1..], j - 1, g, off + 1);
    }
  }

  /** Moving the larger of two grades to the earlier rank never lowers the discounted gain. */
  lemma SwapNeverLowers(w: Weights, gs: seq<real>, i: nat, j: nat, off: nat)
    requires w.Lawful() && i < j < |gs| && gs[i] <= gs[j]
    ensures Discounted(w, gs[i := gs[j]][j := gs[i]], off) >= Discounted(w, gs, off)
    ensures gs[i] < gs[j] ==> Discounted(w, gs[i := gs[j]][j := gs[i]], off) > Discounted(w, gs, off)
  {
    var raised := gs[i := gs[j]];
    assert raised[j] == gs[j];
    DiscountedUpdate(w, gs, i, gs[j], off);
    DiscountedUpdate(w, raised, j, gs[i], off);
    var x, y, di, dj := w.gain(gs[i]), w.gain(gs[j]), w.discount(off + i), w.discount(off + j);
    CrossTerms(x, y, di, dj);
    assert Discounted(w, raised[j := gs[i]], off) == Discounted(w, gs, off) + ((y - x) * di + (x - y) * dj);
  }

  lemma CrossTerms(x: real, y: real, di: real, dj: real)
    requires x <= y && di > dj
    ensures (y - x) * di + (x - y) * dj >= 0.0
    ensures x < y ==> (y - x) * di + (x - y) * dj > 0.0
  {
    Product(y - x, di - dj);
    assert (y - x) * di + (x - y) * dj == (y - x) * (di - dj);
  }

  lemma TailDraw(gs: seq<real>, best: seq<real>)
    requires DrawnFrom(gs, best) && gs != [] && best != []
    requires gs[0] == best[0] || best[0] !in gs
    ensures DrawnFrom(gs[1..], best[1..])
  {
    HeadMultiset(gs);
    HeadMultiset(best);
    forall x | x > 0.0
      ensures multiset(gs[1..])[x] <= multiset(best[1..])[x]
    {
      assert multiset(gs)[x] <= multiset(best)[x];
      if x == best[0] && gs[0] != best[0] { assert multiset(gs)[x] == 0; }
    }
  }

  lemma SwapDraw(gs: seq<real>, best: seq<real>, j: nat)
    requires DrawnFrom(gs, best) && 0 < j < |gs|
    ensures DrawnFrom(gs[0 := gs[j]][j := gs[0]], best)
  {
    SwapMultiset(gs, 0, j);
  }

  /** Bring the best grade to the front of a non-empty draw, dropping whatever stood there. */
  lemma PromoteBest(w: Weights, gs: seq<real>, best: seq<real>, off: nat) returns (rest: seq<real>)
    requires w.Lawful() && DrawnFrom(gs, best) && DescendingOrder(best) && gs != [] && best != []
    ensures |rest| == |gs| - 1 && DrawnFrom(rest, best[1..])
    ensures gs[0] <= best[0]
    ensures gs[0] == best[0] ==> rest == gs[1..]
    ensures Discounted(w, gs, off) <= Discounted(w, [best[0]] + rest, off)
    ensures gs[0] < best[0] ==> Discounted(w, gs, off) < Discounted(w, [best[0]] + rest, off)
  {
    DrawBounded(gs, best, 0);
    if gs[0] < best[0] && best[0] in gs {
      var j :| 0 <= j < |gs| && gs[j] == best[0];
      var swapped := gs[0 := gs[j]][j := gs[0]];
      SwapDraw(gs, best, j);
      SwapNeverLowers(w, gs, 0, j, off);
      TailDraw(swapped, best);
      rest := swapped[1..];
      assert [best[0]] + rest == swapped;
    } else {
      TailDraw(gs, best);
      rest := gs[1..];
      assert gs[0 := best[0]] == [best[0]] + rest;
      RaiseHead(w, gs, best[0], off);
    }
  }

  lemma RaiseHead(w: Weights, gs: seq<real>, top: real, off: nat)
    requires w.Lawful() && gs != [] && gs[0] <= top
    ensures Discounted(w, gs, off) <= Discounted(w, gs[0 := top], off)
    ensures gs[0] < top ==> Discounted(w, gs, off) < Discounted(w, gs[0 := top], off)
  {
    DiscountedUpdate(w, gs, 0, top, off);
    if gs[0] < top {
      Product(w.gain(top) - w.gain(gs[0]), w.discount(off));
    }
  }

  lemma SameHeadCompare(w: Weights, g: real, gs: seq<real>, hs: seq<real>, off: nat)
    ensures Discounted(w, gs, off + 1) <= Discounted(w, hs, off + 1)
       <==> Discounted(w, [g] + gs, off) <= Discounted(w, [g] + hs, off)
    ensures Discounted(w, gs, off + 1) == Discounted(w, hs, off + 1)
       <==> Discounted(w, [g] + gs, off) == Discounted(w, [g] + hs, off)
  {
    assert ([g] + gs)[1..] == gs && ([g] + hs)[1..] == hs;
  }

  lemma DrawBounded(gs: seq<real>, best: seq<real>, i: nat)
    requires DrawnFrom(gs, best) && DescendingOrder(best) && i < |gs| && best != []
    ensures gs[i] <= best[0]
  {
    if gs[i] > 0.0 {
      assert gs[i] in multiset(gs);
      assert gs[i] in multiset(best);
      assert gs[i] in best;
    }
  }

  lemma SwapMultiset(gs: seq<real>, i: nat, j: nat)
    requires i < j < |gs|
    ensures multiset(gs[i := gs[j]][j := gs[i]]) == multiset(gs)
  {
  }

  /** No draw of at most `k` grades beats the first `k` of the descending list, and a draw that
      equals it has the same grade at every rank. */
  lemma {:induction false} Rearrangement(w: Weights, gs: seq<real>, best: seq<real>, k: nat, off: nat)
    requires w.Lawful() && DrawnFrom(gs, best) && DescendingOrder(best) && |gs| <= k
    ensures Discounted(w, gs, off) <= Discounted(w, Take(best, k), off)
    ensures Discounted(w, gs, off) == Discounted(w, Take(best, k), off) ==> SameGrades(gs, best, k)
    decreases k
  {
    if gs == [] {
      EmptyDraw(w, best, k, off);
    } else if best == [] {
      WorthlessDraw(w, gs, off);
    } else {
      var rest := PromoteBest(w, gs, best, off);
      Rearrangement(w, rest, best[1..], k - 1, off + 1);
      assert Take(best, k) == [best[0]] + Take(best[1..], k - 1);
      SameHeadCompare(w, best[0], rest, Take(best[1..], k - 1), off);
      if Discounted(w, gs, off) == Discounted(w, Take(best, k), off) {
        SameGradesStep(gs, best, k);
      }
    }
  }

  lemma EmptyDraw(w: Weights, best: seq<real>, k: nat, off: nat)
    requires w.Lawful() && forall i :: 0 <= i < |best| ==> best[i] >= 0.0
    ensures 0.0 <= Discounted(w, Take(best, k), off)
    ensures Discounted(w, Take(best, k), off) == 0.0 ==> SameGrades([], best, k)
  {
    DiscountedNonNegative(w, Take(best, k), off);
    assert forall i :: 0 <= i < |Take(best, k)| ==> Take(best, k)[i] == best[i];
  }

  lemma WorthlessDraw(w: Weights, gs: seq<real>, off: nat)
    requires w.Lawful() && DrawnFrom(gs, [])
    ensures Discounted(w, gs, off) == 0.0 && forall i :: 0 <= i < |gs| ==> gs[i] == 0.0
  {
    forall i | 0 <= i < |gs|
      ensures gs[i] == 0.0
    {
      assert gs[i] in multiset(gs);
    }
    DiscountedNonNegative(w, gs, off);
  }

  lemma SameGradesStep(gs: seq<real>, best: seq<real>, k: nat)
    requires gs != [] && best != [] && gs[0] == best[0] && k > 0
    requires SameGrades(gs[1..], best[1..], k - 1)
    ensures SameGrades(gs, best, k)
  {
    forall i: nat | i < k
      ensures At(gs, i) == At(best, i)
    {
      if i > 0 {
        assert At(gs[1..], i - 1) == At(best[1..], i - 1);
      }
    }
  }

  // ------------------------------------------------------------------ what the draw of a ranking is

  lemma {:induction false} GetAbsent(es: seq<(Id, real)>, s: Id)
    requires forall i :: 0 <= i < |es| ==> es[i].0 != s
    ensures Get(es, s) == 0.0
  {
    if es != [] { GetAbsent(es[1..], s); }
  }

  lemma {:induction false} GetNonNegative(es: seq<(Id, real)>, s: Id)
    requires NonNegative(es)
    ensures Get(es, s) >= 0.0
  {
    if es != [] { GetNonNegative(es[1..], s); }
  }

  lemma ConsDraw(low: seq<real>, vs: seq<real>, j: nat, g: real)
    requires j < |low| && low[j] == 0.0
    requires forall x :: x > 0.0 ==> multiset(low)[x] <= multiset(vs)[x]
    ensures forall x :: x > 0.0 ==> multiset(low[j := g])[x] <= multiset([g] + vs)[x]
  {
    UpdateMultiset(low, j, g);
    assert multiset([g] + vs) == multiset{g} + multiset(vs);
  }

  /** Distinct ids draw each positive grade at most as often as the dict holds it. */
  lemma {:induction false} DistinctIdsDraw(es: seq<(Id, real)>, ids: seq<Id>)
    requires DistinctKeys(es) && Distinct(ids)
    ensures forall x :: x > 0.0 ==> multiset(GradesOf(es, ids))[x] <= multiset(Values(es))[x]
  {
    var gs := GradesOf(es, ids);
    if es == [] {
      forall x | x > 0.0
        ensures multiset(gs)[x] == 0
      {
        assert x !in gs;
      }
    } else {
      var low, vs := GradesOf(es[1..], ids), Values(es[1..]);
      DistinctIdsDraw(es[1..], ids);
      assert Values(es) == [es[0].1] + vs;
      if es[0].0 in ids {
        var j :| 0 <= j < |ids| && ids[j] == es[0].0;
        GetAbsent(es[1..], es[0].0);
        assert gs == low[j := es[0].1];
        ConsDraw(low, vs, j, es[0].1);
      } else {
        assert gs == low;
        assert multiset([es[0].1] + vs) == multiset{es[0].1} + multiset(vs);
      }
    }
  }

  lemma UpdateMultiset(gs: seq<real>, j: nat, g: real)
    requires j < |gs|
    ensures multiset(gs[j := g]) == multiset(gs) - multiset{gs[j]} + multiset{g}
  {
  }

  lemma DescendingSorted(vs: seq<real>)
    ensures DescendingOrder(Descending(vs)) && multiset(Descending(vs)) == multiset(vs)
  {
    Sorting.SortSorted(vs, AtLeast);
    Sorting.SortMultiset(vs, AtLeast);
  }

  lemma DistinctDrawsFromIdeal(graded: Grades, ids: seq<Id>)
    requires NonNegative(graded) && Distinct(ids)
    ensures DrawnFrom(GradesOf(graded, ids), Descending(Values(graded)))
    ensures DescendingOrder(Descending(Values(graded)))
  {
    var best := Descending(Values(graded));
    DescendingSorted(Values(graded));
    DistinctIdsDraw(graded, ids);
    forall i | 0 <= i < |ids|
      ensures Get(graded, ids[i]) >= 0.0
    {
      GetNonNegative(graded, ids[i]);
    }
    forall i | 0 <= i < |best|
      ensures best[i] >= 0.0
    {
      assert best[i] in multiset(best);
      assert best[i] in Values(graded);
    }
  }

  lemma Ratio(x: real, y: real)
    requires 0.0 <= x <= y && y > 0.0
    ensures 0.0 <= x / y <= 1.0
    ensures x / y == 1.0 <==> x == y
  {
  }

  lemma NdcgAbove(w: Weights, graded: Grades, retrieved: seq<Id>, k: nat)
    requires 0.0 < IdealDcg(w, graded, k) < Dcg(w, graded, retrieved, k)
    ensures Ndcg(w, graded, retrieved, k) > 1.0
  {
    AboveOne(Dcg(w, graded, retrieved, k), IdealDcg(w, graded, k));
  }

  lemma AboveOne(x: real, y: real)
    requires 0.0 < y < x
    ensures x / y > 1.0
  {
  }

  /** nDCG lies between 0 and 1 for a ranking whose first `k` ids are distinct, and reaches 1
      exactly when every one of the first `k` ranks carries the ideal grade, or no gain is to be had. */
  lemma NdcgBounded(w: Weights, graded: Grades, retrieved: seq<Id>, k: nat)
    requires w.Lawful() && NonNegative(graded) && Distinct(Take(retrieved, k))
    ensures 0.0 <= Ndcg(w, graded, retrieved, k) <= 1.0
    ensures Ndcg(w, graded, retrieved, k) == 1.0 <==>
      IdealDcg(w, graded, k) == 0.0 ||
      SameGrades(GradesOf(graded, Take(retrieved, k)), Descending(Values(graded)), k)
  {
    var gs, best := GradesOf(graded, Take(retrieved, k)), Descending(Values(graded));
    DistinctDrawsFromIdeal(graded, Take(retrieved, k));
    Rearrangement(w, gs, best, k, 0);
    DiscountedNonNegative(w, gs, 0);
    assert forall i :: 0 <= i < |Take(best, k)| ==> Take(best, k)[i] == best[i];
    DiscountedNonNegative(w, Take(best, k), 0);
    if IdealDcg(w, graded, k) > 0.0 {
      Ratio(Dcg(w, graded, retrieved, k), IdealDcg(w, graded, k));
      if SameGrades(gs, best, k) {
        SameGradesSameGain(w, gs, best, k, 0);
      }
    }
  }

  lemma {:induction false} SameGradesSameGain(w: Weights, gs: seq<real>, best: seq<real>, k: nat, off: nat)
    requires w.Lawful() && |gs| <= k && SameGrades(gs, best, k)
    ensures Discounted(w, gs, off) == Discounted(w, Take(best, k), off)
    decreases k
  {
    if k > 0 {
      forall i: nat | i < k - 1
        ensures At(Rest(gs), i) == At(Rest(best), i)
      {
        assert At(gs, i + 1) == At(best, i + 1);
      }
      assert At(gs, 0) == At(best, 0);
      SameGradesSameGain(w, Rest(gs), Rest(best), k - 1, off + 1);
      RestDiscounted(w, gs, off);
      RestDiscounted(w, Take(best, k), off);
      assert Rest(Take(best, k)) == Take(Rest(best), k - 1);
    }
  }

  function Rest(gs: seq<real>): seq<real> {
    if gs == [] then [] else gs[1..]
  }

  lemma RestDiscounted(w: Weights, gs: seq<real>, off: nat)
    requires w.gain(0.0) == 0.0
    ensures Discounted(w, gs, off) == w.gain(At(gs, 0)) * w.discount(off) + Discounted(w, Rest(gs), off + 1)
  {
  }

  // ------------------------------------------------------------------ grades and gains, one by one

  /** The grade found for an id is the one its entry holds, and 0 for an id without an entry. */
  lemma {:induction false} GradeFound(graded: Grades, s: Id)
    ensures forall i :: 0 <= i < |graded| && graded[i].0 == s ==> Get(graded, s) == graded[i].1
    ensures (forall i :: 0 <= i < |graded| ==> graded[i].0 != s) ==> Get(graded, s) == 0.0
  {
    if graded != [] {
      GradeFound(graded[1..], s);
      forall i | 0 <= i < |graded| && graded[i].0 == s
        ensures Get(graded, s) == graded[i].1
      {
        if i > 0 { assert graded[1..][i - 1] == graded[i] && graded[0].0 != graded[i].0; }
      }
    }
  }

  /** An entry whose key was looked up. */
  ghost predicate Holds(graded: Grades, s: Id, g: real) {
    (s, g) in graded || (g == 0.0 && forall x :: (s, x) !in graded)
  }

  lemma HeldGrade(graded: Grades, s: Id, g: real)
    requires Holds(graded, s, g)
    ensures Get(graded, s) == g
  {
    GradeFound(graded, s);
    if (s, g) in graded {
      var i :| 0 <= i < |graded| && graded[i] == (s, g);
    } else {
      forall i | 0 <= i < |graded|
        ensures graded[i].0 != s
      {
        assert (graded[i].0, graded[i].1) in graded;
      }
    }
  }

  /** One more rank adds its own discounted gain, and a rank past the end adds nothing. */
  lemma DcgRank(w: Weights, graded: Grades, retrieved: seq<Id>, k: nat, g: real)
    requires k < |retrieved| ==> Holds(graded, retrieved[k], g)
    ensures Dcg(w, graded, retrieved, 0) == 0.0
    ensures Dcg(w, graded, retrieved, k + 1)
         == Dcg(w, graded, retrieved, k) + if k < |retrieved| then w.gain(g) * w.discount(k) else 0.0
  {
    assert Take(retrieved, 0) == [];
    if k < |retrieved| {
      HeldGrade(graded, retrieved[k], g);
      var before, after := GradesOf(graded, Take(retrieved, k)), GradesOf(graded, Take(retrieved, k + 1));
      assert after == before + [g];
      DiscountedSnoc(w, before, g, 0);
    } else {
      assert Take(retrieved, k + 1) == Take(retrieved, k);
    }
  }

  /** `es` lists the entries of the dict in descending order of grade. */
  ghost predicate ListsDescending(es: seq<(Id, real)>, graded: Grades) {
    multiset(es) == multiset(graded) && forall i, j :: 0 <= i < j < |es| ==> es[i].1 >= es[j].1
  }

  function KeyOf(): ((Id, real)) -> Id {
    (e: (Id, real)) => e.0
  }

  function ValueOf(): ((Id, real)) -> real {
    (e: (Id, real)) => e.1
  }

  lemma ListedGrades(graded: Grades, es: seq<(Id, real)>)
    requires ListsDescending(es, graded)
    ensures GradesOf(graded, Map(KeyOf(), es)) == Descending(Values(graded))
  {
    var ids, best := Map(KeyOf(), es), Descending(Values(graded));
    forall i | 0 <= i < |es|
      ensures Get(graded, ids[i]) == es[i].1
    {
      assert es[i] in multiset(es);
      assert es[i] in graded;
      HeldGrade(graded, es[i].0, es[i].1);
    }
    assert GradesOf(graded, ids) == Map(ValueOf(), es);
    assert Values(graded) == Map(ValueOf(), graded);
    MapMultiset(ValueOf(), es, graded);
    DescendingSorted(Values(graded));
    Sorting.UniqueListing(Map(ValueOf(), es), best, AtLeast);
  }

  lemma ListedIdsDistinct(graded: Grades, es: seq<(Id, real)>)
    requires multiset(es) == multiset(graded)
    ensures Distinct(Map(KeyOf(), es))
  {
    MapMultiset(KeyOf(), es, graded);
    DistinctCounts(Map(KeyOf(), es));
    DistinctCounts(Map(KeyOf(), graded));
  }

  /** Ranking the graded ids by descending grade scores 1, at any cut. */
  lemma BestFirstScoresOne(w: Weights, graded: Grades, es: seq<(Id, real)>, k: nat)
    requires w.Lawful() && NonNegative(graded) && ListsDescending(es, graded)
    ensures Ndcg(w, graded, Map(KeyOf(), es), k) == 1.0
  {
    var ids := Map(KeyOf(), es);
    ListedGrades(graded, es);
    ListedIdsDistinct(graded, es);
    DistinctTake(ids, k);
    assert GradesOf(graded, Take(ids, k)) == Take(GradesOf(graded, ids), k);
    NdcgBounded(w, graded, ids, k);
    assert SameGrades(Take(Descending(Values(graded)), k), Descending(Values(graded)), k);
  }

  /** The one graded id at rank `p` scores its discount relative to the first rank, and nothing below the cut. */
  lemma OneGradedId(w: Weights, retrieved: seq<Id>, p: nat, g: real, k: nat)
    requires w.Lawful() && g > 0.0 && p < |retrieved| && Distinct(retrieved) && k > 0
    ensures Ndcg(w, [(retrieved[p], g)], retrieved, k) == if p < k then w.discount(p) / w.discount(0) else 0.0
  {
    var graded: Grades := [(retrieved[p], g)];
    OneGain(w, retrieved, p, g, k);
    OneIdeal(w, retrieved[p], g, k);
    OneRatio(w.gain(g), if p < k then w.discount(p) else 0.0, w.discount(0));
  }

  lemma OneRatio(x: real, y: real, z: real)
    requires x > 0.0 && z > 0.0
    ensures x * z > 0.0 && x * y / (x * z) == y / z && 0.0 / (x * z) == 0.0
  {
    SameFactor(x, y, z);
  }

  lemma OneIdeal(w: Weights, s: Id, g: real, k: nat)
    requires k > 0
    ensures IdealDcg(w, [(s, g)], k) == w.gain(g) * w.discount(0)
  {
    assert Values([(s, g)]) == [g];
    assert [g][1..] == [] && Sorting.Sort([], AtLeast) == [];
    assert Descending([g]) == [g] && Take([g], k) == [g];
    DiscountedSnoc(w, [], g, 0);
    assert [] + [g] == [g];
  }

  lemma SameFactor(x: real, y: real, z: real)
    requires x > 0.0 && z > 0.0
    ensures x * z > 0.0 && x * y / (x * z) == y / z
  {
    var q := y / z;
    assert q * z == y;
    assert q * (x * z) == x * y;
  }

  lemma HeldAlone(s: Id, g: real, t: Id)
    ensures Holds([(s, g)], t, if t == s then g else 0.0)
  {
  }

  lemma {:induction false} OneGain(w: Weights, retrieved: seq<Id>, p: nat, g: real, k: nat)
    requires w.Lawful() && p < |retrieved| && Distinct(retrieved)
    ensures Dcg(w, [(retrieved[p], g)], retrieved, k) == if p < k then w.gain(g) * w.discount(p) else 0.0
  {
    if k == 0 {
      DcgRank(w, [(retrieved[p], g)], retrieved, |retrieved|, 0.0);
    } else {
      OneGain(w, retrieved, p, g, k - 1);
      OneMoreRank(w, retrieved, p, g, k - 1);
    }
  }

  lemma OneMoreRank(w: Weights, retrieved: seq<Id>, p: nat, g: real, k: nat)
    requires w.Lawful() && p < |retrieved| && Distinct(retrieved)
    ensures Dcg(w, [(retrieved[p], g)], retrieved, k + 1)
         == Dcg(w, [(retrieved[p], g)], retrieved, k) + if k == p then w.gain(g) * w.discount(p) else 0.0
  {
    var grade := if k == p then g else 0.0;
    if k < |retrieved| {
      assert retrieved[k] == retrieved[p] <==> k == p;
      HeldAlone(retrieved[p], g, retrieved[k]);
    }
    DcgRank(w, [(retrieved[p], g)], retrieved, k, grade);
    NoGain(w, k);
  }

  lemma NoGain(w: Weights, k: nat)
    requires w.Lawful()
    ensures w.gain(0.0) * w.discount(k) == 0.0
  {
  }
}
