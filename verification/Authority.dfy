/** The authority metrics over an already ranked candidate list. */
module Authority {
  import opened Wrappers
  import opened Seqs
  import Sorting

  datatype Level = Canonical | Verified | Curated | Proposed | Unverified | Unknown {
    function Rank(): nat {
      match this
      case Canonical => 0
      case Verified => 1
      case Curated => 2
      case Proposed => 3
      case Unverified => 4
      case Unknown => 5
    }
  }

  /** One candidate. A missing or foreign authority reads as Unknown; `basis` is absent when the
      provenance is not an object. */
  datatype Item = Item(sourceId: string, authority: Level, basis: Option<string>, sourceType: string)

  /** One graded source of the ground truth; entries that are not objects are dropped beforehand. */
  datatype Grade = Grade(sourceId: string, outcome: string)

  /** What stays fixed for a query. `concept` maps raw ids to concepts; an absent or empty expected
      concept is None. */
  datatype Query = Query(
    expected: Option<string>, ownerBacked: bool, expectedWinnerSource: Option<string>,
    grades: seq<Grade>, concept: string -> string)

  datatype Metrics = Metrics(
    winnerPresent: bool, winnerMissing: nat, winnerHasProvenance: bool, provenanceFailure: nat,
    outrankedApplicable: bool, outranked: nat, orderApplicable: bool, orderViolations: nat)

  predicate HasCanonicalProvenance(c: Item) {
    c.authority.Canonical? &&
    (c.basis in {Some("CANONICAL_LEDGER"), Some("CANONICAL_PROJECT_STATE")} ||
     c.sourceType in {"canonical_task", "canonical_decision", "canonical_project"})
  }

  predicate LowerOutcome(outcome: string) {
    outcome in {"do_not_cite", "report_conflict", "curated", "unverified"}
  }

  predicate IsCompetitor(g: Grade, q: Query) {
    Some(g.sourceId) != q.expectedWinnerSource && LowerOutcome(g.outcome)
  }

  /** The concepts that compete from below. */
  function LowerConcepts(q: Query): set<string> {
    set i | 0 <= i < |q.grades| && IsCompetitor(q.grades[i], q) :: q.concept(q.grades[i].sourceId)
  }

  method CollectLowerConcepts(q: Query) returns (lower: set<string>)
    ensures lower == LowerConcepts(q)
  {
    lower := {};
    for i := 0 to |q.grades|
      invariant lower == set j | 0 <= j < i && IsCompetitor(q.grades[j], q) :: q.concept(q.grades[j].sourceId)
    {
      if IsCompetitor(q.grades[i], q) {
        lower := lower + {q.concept(q.grades[i].sourceId)};
      }
    }
  }

  // ------------------------------------------------------------------ the roles a candidate can play

  predicate IsWinner(c: Item, q: Query) {
    q.expected == Some(q.concept(c.sourceId))
  }

  predicate IsProvenWinner(c: Item, q: Query) {
    IsWinner(c, q) && HasCanonicalProvenance(c)
  }

  predicate IsLower(c: Item, q: Query) {
    q.concept(c.sourceId) in LowerConcepts(q) && c.authority.Rank() > 0
  }

  predicate Eligible(c: Item, q: Query) {
    q.concept(c.sourceId) in LowerConcepts(q) || IsWinner(c, q)
  }

  predicate WinnerPresent(cs: seq<Item>, q: Query) {
    q.ownerBacked && exists i :: 0 <= i < |cs| && IsWinner(cs[i], q)
  }

  predicate AnyProvenWinner(cs: seq<Item>, q: Query) {
    exists i :: 0 <= i < |cs| && IsProvenWinner(cs[i], q)
  }

  predicate AnyLower(cs: seq<Item>, q: Query) {
    exists i :: 0 <= i < |cs| && IsLower(cs[i], q)
  }

  predicate FirstProvenAt(cs: seq<Item>, q: Query, w: nat) {
    w < |cs| && IsProvenWinner(cs[w], q) && forall j :: 0 <= j < w ==> !IsProvenWinner(cs[j], q)
  }

  predicate FirstLowerAt(cs: seq<Item>, q: Query, i: nat) {
    i < |cs| && IsLower(cs[i], q) && forall j :: 0 <= j < i ==> !IsLower(cs[j], q)
  }

  /** A lower competitor stands before every winner item with canonical provenance, and there is one. */
  predicate LowerBeforeProven(cs: seq<Item>, q: Query) {
    exists i, w :: 0 <= i < w < |cs| && IsLower(cs[i], q) && FirstProvenAt(cs, q, w)
  }

  /** An eligible candidate of level 0 or 1 below an eligible one of level 4 or 5. */
  predicate Violates(cs: seq<Item>, q: Query, j: int) {
    0 <= j < |cs| && Eligible(cs[j], q) && cs[j].authority.Rank() <= 1 &&
    exists i :: 0 <= i < j && Eligible(cs[i], q) && cs[i].authority.Rank() >= 4
  }

  function Violations(cs: seq<Item>, q: Query): set<int> {
    set j | 0 <= j < |cs| && Violates(cs, q, j)
  }

  function Flag(b: bool): nat {
    if b then 1 else 0
  }

  /** The declarative reading of every metric. */
  function Measured(cs: seq<Item>, q: Query): Metrics {
    var present := WinnerPresent(cs, q);
    var proven := present ==> AnyProvenWinner(cs, q);
    var ordered := present && AnyProvenWinner(cs, q) && AnyLower(cs, q);
    Metrics(
      present, Flag(q.ownerBacked && !present), proven, Flag(present && !proven),
      present && AnyLower(cs, q), Flag(present && LowerBeforeProven(cs, q)),
      ordered, if ordered then |Violations(cs, q)| else 0)
  }

  // ------------------------------------------------------------------ the scans

  method FirstProvenWinner(cs: seq<Item>, q: Query) returns (w: Option<nat>)
    ensures w.None? ==> !AnyProvenWinner(cs, q)
    ensures w.Some? ==> FirstProvenAt(cs, q, w.value)
  {
    for i := 0 to |cs|
      invariant forall j :: 0 <= j < i ==> !IsProvenWinner(cs[j], q)
    {
      if IsProvenWinner(cs[i], q) {
        return Some(i);
      }
    }
    return None;
  }

  /** The comprehension keeps every index; only the least one and whether there is one matter. */
  method FirstLower(cs: seq<Item>, lower: set<string>, q: Query) returns (first: Option<nat>)
    requires lower == LowerConcepts(q)
    ensures first.None? ==> !AnyLower(cs, q)
    ensures first.Some? ==> FirstLowerAt(cs, q, first.value)
  {
    for i := 0 to |cs|
      invariant forall j :: 0 <= j < i ==> !IsLower(cs[j], q)
    {
      if q.concept(cs[i].sourceId) in lower && cs[i].authority.Rank() > 0 {
        return Some(i);
      }
    }
    return None;
  }

  method CountOrderViolations(cs: seq<Item>, lower: set<string>, q: Query) returns (count: nat)
    requires lower == LowerConcepts(q)
    ensures count == |Violations(cs, q)|
  {
    count := 0;
    var seenLower := false;
    assert Violations(cs[..0], q) == {};
    for i := 0 to |cs|
      invariant seenLower == AnyUntrusted(cs[..i], q) && count == |Violations(cs[..i], q)|
    {
      assert cs[..i + 1] == cs[..i] + [cs[i]];
      SnocFlags(cs[..i], cs[i], q);
      SnocViolations(cs[..i], cs[i], q);
      if q.concept(cs[i].sourceId) in lower || IsWinner(cs[i], q) {
        var level := cs[i].authority.Rank();
        if level >= 4 {
          seenLower := true;
        } else if seenLower && level <= 1 {
          count := count + 1;
        }
      }
    }
    assert cs[..|cs|] == cs;
  }

  /** `sorted` of a set: any listing of it, put in order. */
  method SortedConcepts(concepts: set<string>) returns (sorted: seq<string>)
    ensures Distinct(sorted) && ToSet(sorted) == concepts && Sorting.Sorted(sorted, Sorting.TextLe)
  {
    var rest, listed: seq<string> := concepts, [];
    while rest != {}
      invariant rest !! ToSet(listed) && rest + ToSet(listed) == concepts && Distinct(listed)
      decreases |rest|
    {
      var x :| x in rest;
      assert x !in listed by { assert x !in ToSet(listed); }
      assert ToSet(listed + [x]) == ToSet(listed) + {x};
      rest, listed := rest - {x}, listed + [x];
    }
    Sorting.SortMultiset(listed, Sorting.TextLe);
    Sorting.TextOrder();
    Sorting.SortSorted(listed, Sorting.TextLe);
    SameListing(listed, Sorting.Sort(listed, Sorting.TextLe));
    return Sorting.Sort(listed, Sorting.TextLe);
  }

  lemma SameListing(s: seq<string>, t: seq<string>)
    requires multiset(s) == multiset(t)
    ensures ToSet(s) == ToSet(t) && (Distinct(s) <==> Distinct(t))
  {
    DistinctCounts(s);
    DistinctCounts(t);
    forall x
      ensures x in s <==> x in t
    {
      assert x in s <==> x in multiset(s);
      assert x in t <==> x in multiset(t);
    }
  }

  function ConceptOf(q: Query): Item -> string {
    (c: Item) => q.concept(c.sourceId)
  }

  /** The metrics, the concepts of the candidates in their order, and the sorted competing concepts. */
  method EvaluateAuthority(cs: seq<Item>, q: Query)
    returns (m: Metrics, concepts: seq<string>, competitors: seq<string>)
    ensures m == Measured(cs, q)
    ensures concepts == Map(ConceptOf(q), cs)
    ensures Distinct(competitors) && ToSet(competitors) == LowerConcepts(q)
    ensures Sorting.Sorted(competitors, Sorting.TextLe)
  {
    concepts := Map(ConceptOf(q), cs);
    var present := q.ownerBacked && exists i :: 0 <= i < |cs| && IsWinner(cs[i], q);
    var proven := if present
      then exists i :: 0 <= i < |cs| && IsWinner(cs[i], q) && HasCanonicalProvenance(cs[i]) else true;
    var lower := CollectLowerConcepts(q);
    var firstLower := FirstLower(cs, lower, q);
    var winner := FirstProvenWinner(cs, q);
    var applicable := present && firstLower.Some?;
    var outranked := Flag(applicable && winner.Some? && firstLower.value < winner.value);
    OutrankedByFirsts(cs, q, firstLower, winner);
    var orderApplicable := present && winner.Some? && firstLower.Some?;
    var violations := 0;
    if orderApplicable {
      violations := CountOrderViolations(cs, lower, q);
    }
    m := Metrics(present, Flag(q.ownerBacked && !present), proven,
                 Flag(q.ownerBacked && present && !proven),
                 applicable, outranked, orderApplicable, violations);
    competitors := SortedConcepts(lower);
  }

  lemma OutrankedByFirsts(cs: seq<Item>, q: Query, first: Option<nat>, w: Option<nat>)
    requires first.None? ==> !AnyLower(cs, q)
    requires first.Some? ==> FirstLowerAt(cs, q, first.value)
    requires w.None? ==> !AnyProvenWinner(cs, q)
    requires w.Some? ==> FirstProvenAt(cs, q, w.value)
    ensures LowerBeforeProven(cs, q) <==> first.Some? && w.Some? && first.value < w.value
  {
    if LowerBeforeProven(cs, q) {
      var i, v :| 0 <= i < v < |cs| && IsLower(cs[i], q) && FirstProvenAt(cs, q, v);
      assert w.Some? && w.value == v;
      assert first.Some? && first.value <= i;
    }
  }

  // ------------------------------------------------------------------ irrelevant candidates do not matter

  /** What the metrics know of a list. */
  datatype Summary = Summary(
    winner: bool, proven: bool, lower: bool, lowerFirst: bool, untrusted: bool, violations: nat)

  predicate AnyUntrusted(cs: seq<Item>, q: Query) {
    exists i :: 0 <= i < |cs| && Eligible(cs[i], q) && cs[i].authority.Rank() >= 4
  }

  function Summarize(cs: seq<Item>, q: Query): Summary {
    Summary(exists i :: 0 <= i < |cs| && IsWinner(cs[i], q), AnyProvenWinner(cs, q), AnyLower(cs, q),
            LowerBeforeProven(cs, q), AnyUntrusted(cs, q), |Violations(cs, q)|)
  }

  /** One more candidate at the end of the list. */
  function Advance(s: Summary, c: Item, q: Query): Summary {
    Summary(
      s.winner || IsWinner(c, q),
      s.proven || IsProvenWinner(c, q),
      s.lower || IsLower(c, q),
      s.lowerFirst || (!s.proven && s.lower && IsProvenWinner(c, q)),
      s.untrusted || (Eligible(c, q) && c.authority.Rank() >= 4),
      s.violations + Flag(s.untrusted && Eligible(c, q) && c.authority.Rank() <= 1))
  }

  lemma SnocFlags(cs: seq<Item>, c: Item, q: Query)
    ensures var s, t := Summarize(cs, q), Summarize(cs + [c], q);
      && t.winner == (s.winner || IsWinner(c, q))
      && t.proven == (s.proven || IsProvenWinner(c, q))
      && t.lower == (s.lower || IsLower(c, q))
      && t.untrusted == (s.untrusted || (Eligible(c, q) && c.authority.Rank() >= 4))
  {
    var ds := cs + [c];
    assert forall i :: 0 <= i < |cs| ==> ds[i] == cs[i];
    assert ds[|cs|] == c;
  }

  lemma SnocLowerFirst(cs: seq<Item>, c: Item, q: Query)
    ensures LowerBeforeProven(cs + [c], q)
       <==> LowerBeforeProven(cs, q) || (!AnyProvenWinner(cs, q) && AnyLower(cs, q) && IsProvenWinner(c, q))
  {
    var ds := cs + [c];
    assert forall i :: 0 <= i < |cs| ==> ds[i] == cs[i];
    assert ds[|cs|] == c;
    assert forall w: nat :: w < |cs| ==> (FirstProvenAt(ds, q, w) <==> FirstProvenAt(cs, q, w));
    if !AnyProvenWinner(cs, q) && AnyLower(cs, q) && IsProvenWinner(c, q) {
      var i :| 0 <= i < |cs| && IsLower(cs[i], q);
      assert IsLower(ds[i], q) && FirstProvenAt(ds, q, |cs|);
    }
    if LowerBeforeProven(cs, q) {
      var i, w :| 0 <= i < w < |cs| && IsLower(cs[i], q) && FirstProvenAt(cs, q, w);
      assert IsLower(ds[i], q) && FirstProvenAt(ds, q, w);
    }
  }

  lemma ViolatesInPrefix(cs: seq<Item>, c: Item, q: Query, j: int)
    requires j < |cs|
    ensures Violates(cs + [c], q, j) <==> Violates(cs, q, j)
  {
    assert forall i :: 0 <= i < |cs| ==> (cs + [c])[i] == cs[i];
  }

  lemma ViolatesLast(cs: seq<Item>, c: Item, q: Query)
    ensures Violates(cs + [c], q, |cs|)
       <==> AnyUntrusted(cs, q) && Eligible(c, q) && c.authority.Rank() <= 1
  {
    var ds := cs + [c];
    assert ds[|cs|] == c;
    assert forall i :: 0 <= i < |cs| ==> ds[i] == cs[i];
    if AnyUntrusted(cs, q) {
      var i :| 0 <= i < |cs| && Eligible(cs[i], q) && cs[i].authority.Rank() >= 4;
      assert Eligible(ds[i], q);
    }
  }

  lemma ViolationsStep(cs: seq<Item>, c: Item, q: Query)
    ensures Violations(cs + [c], q)
         == Violations(cs, q) + if Violates(cs + [c], q, |cs|) then {|cs|} else {}
  {
    forall j
      ensures j in Violations(cs + [c], q) <==> j in Violations(cs, q) || (j == |cs| && Violates(cs + [c], q, j))
    {
      if j < |cs| { ViolatesInPrefix(cs, c, q, j); }
    }
  }

  lemma SnocViolations(cs: seq<Item>, c: Item, q: Query)
    ensures |Violations(cs + [c], q)|
         == |Violations(cs, q)| + Flag(AnyUntrusted(cs, q) && Eligible(c, q) && c.authority.Rank() <= 1)
  {
    ViolationsStep(cs, c, q);
    ViolatesLast(cs, c, q);
    assert |cs| !in Violations(cs, q);
  }

  lemma SummarySnoc(cs: seq<Item>, c: Item, q: Query)
    ensures Summarize(cs + [c], q) == Advance(Summarize(cs, q), c, q)
  {
    SnocFlags(cs, c, q);
    SnocLowerFirst(cs, c, q);
    SnocViolations(cs, c, q);
  }

  /** The eligible subsequence. */
  function Relevant(cs: seq<Item>, q: Query): seq<Item> {
    Filter(cs, (c: Item) => Eligible(c, q))
  }

  lemma {:induction false} SummaryOfRelevant(cs: seq<Item>, q: Query)
    ensures Summarize(cs, q) == Summarize(Relevant(cs, q), q)
  {
    if cs != [] {
      var p, c := cs[..|cs| - 1], cs[|cs| - 1];
      assert cs == p + [c];
      SummaryOfRelevant(p, q);
      SummarySnoc(p, c, q);
      SummarySnoc(Relevant(p, q), c, q);
      assert Relevant(p, q) + [] == Relevant(p, q);
    }
  }

  /** The metrics depend on the eligible subsequence alone: two lists that differ only in
      candidates that are neither the expected concept nor a competitor measure the same. */
  lemma OnlyEligibleCandidatesMatter(cs: seq<Item>, ds: seq<Item>, q: Query)
    requires Relevant(cs, q) == Relevant(ds, q)
    ensures Measured(cs, q) == Measured(ds, q)
  {
    SummaryOfRelevant(cs, q);
    SummaryOfRelevant(ds, q);
    assert WinnerPresent(cs, q) == (q.ownerBacked && Summarize(cs, q).winner);
    assert WinnerPresent(ds, q) == (q.ownerBacked && Summarize(ds, q).winner);
  }

  /** A missing winner is never counted as outranked nor out of order. */
  lemma MissingWinnerIsNotOutranked(cs: seq<Item>, q: Query)
    requires !WinnerPresent(cs, q)
    ensures var m := Measured(cs, q);
      m.outranked == 0 && m.orderViolations == 0 && m.provenanceFailure == 0 && m.winnerHasProvenance &&
      m.winnerMissing == Flag(q.ownerBacked)
  {
    assert !Measured(cs, q).winnerPresent;
  }

  /** Across metrics: a proven winner below a competitor of level 4 or 5 is outranked and is an
      order violation too. */
  lemma OutrankedByUntrustedViolatesOrder(cs: seq<Item>, q: Query, i: nat, w: nat)
    requires q.ownerBacked && i < w < |cs| && FirstProvenAt(cs, q, w)
    requires IsLower(cs[i], q) && cs[i].authority.Rank() >= 4
    ensures Measured(cs, q).outranked == 1 && Measured(cs, q).orderViolations >= 1
  {
    assert IsWinner(cs[w], q) && Eligible(cs[i], q) && Eligible(cs[w], q);
    assert Violates(cs, q, w);
    assert w in Violations(cs, q);
  }

  // ------------------------------------------------------------------ which candidates and grades count

  /** A present winner that only candidates below the canonical level stand for has no provenance. */
  lemma BelowCanonicalFails(cs: seq<Item>, q: Query)
    requires WinnerPresent(cs, q) && forall i :: 0 <= i < |cs| && IsWinner(cs[i], q) ==> cs[i].authority.Rank() > 0
    ensures Measured(cs, q).provenanceFailure == 1 && !Measured(cs, q).winnerHasProvenance
    ensures Measured(cs, q).outranked == 0 && Measured(cs, q).orderViolations == 0
  {
    assert !AnyProvenWinner(cs, q);
  }

  /** One canonical candidate for the winner is enough, with a ledger or project-state basis or with a canonical
      source type; with neither it is not. */
  lemma CanonicalCandidateProves(cs: seq<Item>, q: Query, i: nat)
    requires q.ownerBacked && i < |cs| && q.expected == Some(q.concept(cs[i].sourceId)) && cs[i].authority.Canonical?
    ensures (cs[i].basis == Some("CANONICAL_LEDGER") || cs[i].basis == Some("CANONICAL_PROJECT_STATE") ||
             cs[i].sourceType == "canonical_task" || cs[i].sourceType == "canonical_decision" ||
             cs[i].sourceType == "canonical_project") ==>
      Measured(cs, q).winnerHasProvenance && Measured(cs, q).provenanceFailure == 0
    ensures (|cs| == 1 && cs[i].basis == Some("UNKNOWN") && cs[i].sourceType == "") ==>
      Measured(cs, q).provenanceFailure == 1
  {
    assert IsWinner(cs[i], q);
    if cs[i].basis == Some("CANONICAL_LEDGER") || cs[i].basis == Some("CANONICAL_PROJECT_STATE") ||
      cs[i].sourceType == "canonical_task" || cs[i].sourceType == "canonical_decision" ||
      cs[i].sourceType == "canonical_project" {
      assert IsProvenWinner(cs[i], q);
    }
  }

  /** The outcomes a ground-truth grade can have. */
  predicate KnownOutcome(outcome: string) {
    outcome in {"prefer", "support", "do_not_cite", "exclude", "quarantine", "report_conflict"}
  }

  predicate CompetesAs(q: Query, g: Grade, concept: string) {
    (g.outcome == "do_not_cite" || g.outcome == "report_conflict") && Some(g.sourceId) != q.expectedWinnerSource &&
    q.concept(g.sourceId) == concept
  }

  /** Of those, exactly the sources not to be cited and the conflicts to be reported compete, and never the expected
      winner's own source. */
  lemma CompetitorsOfGroundTruth(q: Query, concept: string)
    requires forall i :: 0 <= i < |q.grades| ==> KnownOutcome(q.grades[i].outcome)
    ensures concept in LowerConcepts(q) <==> exists g :: g in q.grades && CompetesAs(q, g, concept)
  {
    if concept in LowerConcepts(q) {
      var i :| 0 <= i < |q.grades| && IsCompetitor(q.grades[i], q) && q.concept(q.grades[i].sourceId) == concept;
      assert q.grades[i] in q.grades && KnownOutcome(q.grades[i].outcome);
    }
    if g :| g in q.grades && CompetesAs(q, g, concept) {
      var i :| 0 <= i < |q.grades| && q.grades[i] == g;
      assert IsCompetitor(q.grades[i], q);
    }
  }

  /** The levels in order, and where the thresholds of the metrics lie. */
  lemma LevelsExactly(level: Level)
    ensures Canonical.Rank() < Verified.Rank() < Curated.Rank() < Proposed.Rank() < Unverified.Rank() < Unknown.Rank()
    ensures level.Rank() > 0 <==> !level.Canonical?
    ensures level.Rank() <= 1 <==> level.Canonical? || level.Verified?
    ensures level.Rank() >= 4 <==> level.Unverified? || level.Unknown?
  {
  }
}
