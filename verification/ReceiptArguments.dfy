/** What the arguments of the receipt generator say, when it accepts them, and what it then writes. */
module ReceiptArguments {
  import opened Wrappers
  import opened Seqs
  import opened Bindings
  import opened ReceiptSubjects
  import Sorting

  // ------------------------------------------------------------------ arguments, read directly

  /** The argument is `left`, an equals sign and `right`; the first one counts. */
  predicate Splits(value: string, left: string, right: string) {
    '=' !in left && value == left + "=" + right
  }

  /** Splitting succeeds exactly at the first equals sign. */
  lemma {:induction false} SplitExactly(value: string, left: string, right: string)
    ensures SplitOnce(value) == Some((left, right)) <==> Splits(value, left, right)
  {
    if value != "" {
      if value[0] == '=' {
        assert "" + "=" + value[1..] == value;
        if Splits(value, left, right) {
          assert right == value[1..];
        }
      } else if left != "" {
        SplitExactly(value[1..], left[1..], right);
        assert left == [left[0]] + left[1..];
        if Splits(value, left, right) {
          assert value[1..] == left[1..] + "=" + right;
        }
        if SplitOnce(value) == Some((left, right)) {
          assert value == [value[0]] + value[1..];
        }
      }
    }
  }

  /** A subject argument gives the identity `id` the digest `digest`. */
  ghost predicate Gives(c: Checks, value: string, id: string, digest: string) {
    exists left, right :: Splits(value, left, right) &&
      c.identity(Some(left)) == Some(id) && c.subject(Some(right)) == Some(digest)
  }

  ghost predicate GoodSubject(c: Checks, value: string) {
    exists id, digest :: Gives(c, value, id, digest)
  }

  /** A role argument gives the identity `id` the role `role`. */
  ghost predicate GivesRole(c: Checks, value: string, id: string, role: string) {
    exists left, right :: Splits(value, left, right) &&
      c.identity(Some(left)) == Some(id) && c.strip(right) == role && (role == "package" || role == "web")
  }

  lemma GivesExactly(c: Checks, value: string, id: string, digest: string)
    ensures Gives(c, value, id, digest) <==>
      SplitOnce(value).Some? && RoleId(c, value) == Some(id) &&
      c.subject(Some(SplitOnce(value).value.1)) == Some(digest)
  {
    if SplitOnce(value).Some? {
      var (left, right) := SplitOnce(value).value;
      SplitExactly(value, left, right);
    }
    if Gives(c, value, id, digest) {
      var left, right :| Splits(value, left, right) &&
        c.identity(Some(left)) == Some(id) && c.subject(Some(right)) == Some(digest);
      SplitExactly(value, left, right);
    }
  }

  lemma GivesRoleExactly(c: Checks, value: string, id: string, role: string)
    ensures GivesRole(c, value, id, role) <==>
      GoodRole(c, value) && RoleId(c, value) == Some(id) && c.strip(SplitOnce(value).value.1) == role
  {
    if SplitOnce(value).Some? {
      var (left, right) := SplitOnce(value).value;
      SplitExactly(value, left, right);
    }
    if GivesRole(c, value, id, role) {
      var left, right :| Splits(value, left, right) && c.identity(Some(left)) == Some(id) && c.strip(right) == role;
      SplitExactly(value, left, right);
    }
  }

  // ------------------------------------------------------------------ the digests of each identity

  /** Some group of `id` holds `digest`. */
  ghost predicate Holds(g: Grouped, id: string, digest: string) {
    exists k :: 0 <= k < |g| && g[k].0 == id && digest in g[k].1
  }

  /** Adding a digest adds that one and no other. */
  lemma {:induction false} AddDigestExactly(g: Grouped, id: string, digest: string, x: string, y: string)
    ensures Holds(AddDigest(g, id, digest), x, y) <==> Holds(g, x, y) || (x == id && y == digest)
  {
    HoldsCons(AddDigest(g, id, digest), x, y);
    HoldsCons(g, x, y);
    if g == [] {
      assert AddDigest(g, id, digest)[1..] == [];
    } else if g[0].0 == id {
      assert AddDigest(g, id, digest)[1..] == g[1..];
    } else {
      AddDigestExactly(g[1..], id, digest, x, y);
      assert AddDigest(g, id, digest)[1..] == AddDigest(g[1..], id, digest);
    }
  }

  lemma HoldsCons(g: Grouped, x: string, y: string)
    ensures Holds(g, x, y) <==> g != [] && ((g[0].0 == x && y in g[0].1) || Holds(g[1..], x, y))
  {
    if Holds(g, x, y) {
      var k :| 0 <= k < |g| && g[k].0 == x && y in g[k].1;
      if k > 0 { assert g[1..][k - 1] == g[k]; }
    }
    if g != [] && Holds(g[1..], x, y) {
      var k :| 0 <= k < |g[1..]| && g[1..][k].0 == x && y in g[1..][k].1;
      assert g[k + 1] == g[1..][k];
    }
  }

  /** Each identity has one group, and each group holds something, nothing twice. */
  ghost predicate Tidy(g: Grouped) {
    && (forall i :: 0 <= i < |g| ==> g[i].1 != [] && Distinct(g[i].1))
    && (forall i, j :: 0 <= i < j < |g| ==> g[i].0 != g[j].0)
  }

  lemma {:induction false} AddDigestTidy(g: Grouped, id: string, digest: string)
    requires Tidy(g)
    ensures Tidy(AddDigest(g, id, digest))
  {
    if g != [] {
      if g[0].0 == id {
        assert AddDigest(g, id, digest)[1..] == g[1..];
      } else {
        AddDigestTidy(g[1..], id, digest);
        AddDigestIds(g[1..], id, digest, g[0].0);
      }
    }
  }

  /** `g` holds for each identity exactly the digests the arguments give it. */
  ghost predicate HoldsGiven(c: Checks, values: seq<string>, g: Grouped) {
    forall id, digest :: Holds(g, id, digest) <==> exists i :: 0 <= i < |values| && Gives(c, values[i], id, digest)
  }

  ghost predicate AllGood(c: Checks, values: seq<string>) {
    forall i :: 0 <= i < |values| ==> GoodSubject(c, values[i])
  }

  lemma AllGoodSnoc(c: Checks, init: seq<string>, last: string)
    ensures AllGood(c, init + [last]) <==> AllGood(c, init) && GoodSubject(c, last)
  {
    var values := init + [last];
    assert values[|init|] == last;
    assert forall i :: 0 <= i < |init| ==> values[i] == init[i];
  }

  /** Grouping succeeds exactly when every argument is good, and then holds exactly what the arguments give. */
  lemma {:induction false} GroupExactly(c: Checks, values: seq<string>)
    ensures Group(c, values).Some? <==> AllGood(c, values)
    ensures Group(c, values).Some? ==> Tidy(Group(c, values).value) && HoldsGiven(c, values, Group(c, values).value)
  {
    if values != [] {
      var init, last := values[..|values| - 1], values[|values| - 1];
      GroupExactly(c, init);
      GroupOneMore(c, init, last);
      assert values == init + [last];
    }
  }

  lemma GroupOneMore(c: Checks, init: seq<string>, last: string)
    requires Group(c, init).Some? <==> AllGood(c, init)
    requires Group(c, init).Some? ==> Tidy(Group(c, init).value) && HoldsGiven(c, init, Group(c, init).value)
    ensures var values := init + [last];
      (Group(c, values).Some? <==> AllGood(c, values)) &&
      (Group(c, values).Some? ==> Tidy(Group(c, values).value) && HoldsGiven(c, values, Group(c, values).value))
  {
    var values := init + [last];
    assert values[..|values| - 1] == init && values[|values| - 1] == last;
    AllGoodSnoc(c, init, last);
    LastSubject(c, last);
    if Group(c, init).Some? && GoodSubject(c, last) {
      GroupSnoc(c, init, last, Group(c, init).value);
    }
  }

  lemma LastSubject(c: Checks, value: string)
    ensures GoodSubject(c, value) <==>
      SplitOnce(value).Some? && RoleId(c, value).Some? && c.subject(Some(SplitOnce(value).value.1)).Some?
  {
    if SplitOnce(value).Some? && RoleId(c, value).Some? && c.subject(Some(SplitOnce(value).value.1)).Some? {
      GivesExactly(c, value, RoleId(c, value).value, c.subject(Some(SplitOnce(value).value.1)).value);
    }
    if GoodSubject(c, value) {
      var id, digest :| Gives(c, value, id, digest);
      GivesExactly(c, value, id, digest);
    }
  }

  lemma GroupSnoc(c: Checks, init: seq<string>, last: string, g: Grouped)
    requires Tidy(g) && HoldsGiven(c, init, g) && GoodSubject(c, last)
    ensures AddSubject(c, g, last).Some? && Tidy(AddSubject(c, g, last).value)
    ensures HoldsGiven(c, init + [last], AddSubject(c, g, last).value)
  {
    LastSubject(c, last);
    var id, digest := RoleId(c, last).value, c.subject(Some(SplitOnce(last).value.1)).value;
    AddDigestTidy(g, id, digest);
    var values := init + [last];
    assert values[|init|] == last && forall i :: 0 <= i < |init| ==> values[i] == init[i];
    forall x, y
      ensures Holds(AddDigest(g, id, digest), x, y) <==> exists i :: 0 <= i < |values| && Gives(c, values[i], x, y)
    {
      AddDigestExactly(g, id, digest, x, y);
      GivesExactly(c, last, x, y);
      SomeGiven(c, init, last, x, y);
    }
  }

  lemma SomeGiven(c: Checks, init: seq<string>, last: string, x: string, y: string)
    ensures (exists i :: 0 <= i < |init + [last]| && Gives(c, (init + [last])[i], x, y)) <==>
      (exists i :: 0 <= i < |init| && Gives(c, init[i], x, y)) || Gives(c, last, x, y)
  {
    var values := init + [last];
    assert values[|init|] == last && forall i :: 0 <= i < |init| ==> values[i] == init[i];
    if i :| 0 <= i < |init| && Gives(c, init[i], x, y) {
      assert Gives(c, values[i], x, y);
    }
  }

  // ------------------------------------------------------------------ the written entries

  /** Some entry of `id` lists `digest`. */
  ghost predicate Lists(subjects: seq<Subject>, id: string, digest: string) {
    exists s :: s in subjects && s.id == id && digest in s.digests
  }

  /** The entries list for each identity exactly the digests the arguments give it. */
  ghost predicate ListsGiven(c: Checks, values: seq<string>, subjects: seq<Subject>) {
    forall id, digest ::
      Lists(subjects, id, digest) <==> exists i :: 0 <= i < |values| && Gives(c, values[i], id, digest)
  }

  /** Each identity has one entry, in the order of the identities, with its role and its digests in order. */
  ghost predicate InOrder(subjects: seq<Subject>, roles: Roles) {
    && (forall s :: s in subjects ==>
          s.digests != [] && Distinct(s.digests) && Sorting.Sorted(s.digests, Sorting.TextLe) &&
          s.role == if s.id in roles then Some(roles[s.id]) else None)
    && (forall i, j :: 0 <= i < j < |subjects| ==>
          subjects[i].id != subjects[j].id && Sorting.TextLe(subjects[i].id, subjects[j].id))
  }

  /** What is written for the arguments. */
  ghost predicate WrittenFor(c: Checks, values: seq<string>, roles: Roles, subjects: seq<Subject>) {
    ListsGiven(c, values, subjects) && InOrder(subjects, roles)
  }

  /** Subjects are parsed exactly when every argument is good. */
  lemma SubjectsExactly(c: Checks, values: seq<string>, roles: Roles)
    ensures ParseSubjects(c, values, roles).Some? <==> AllGood(c, values)
    ensures ParseSubjects(c, values, roles).Some? ==>
      WrittenFor(c, values, roles, ParseSubjects(c, values, roles).value)
  {
    GroupExactly(c, values);
    if Group(c, values).Some? {
      RenderedInOrder(Group(c, values).value, roles);
      RenderedGiven(c, values, Group(c, values).value, roles);
    }
  }

  lemma RenderedGiven(c: Checks, values: seq<string>, g: Grouped, roles: Roles)
    requires Tidy(g) && HoldsGiven(c, values, g)
    ensures ListsGiven(c, values, Map(Render(roles), Sorting.Sort(g, IdLe)))
  {
    var subjects := Map(Render(roles), Sorting.Sort(g, IdLe));
    forall id, digest
      ensures Lists(subjects, id, digest) <==> exists i :: 0 <= i < |values| && Gives(c, values[i], id, digest)
    {
      RenderedHolds(g, roles, id, digest);
    }
  }

  lemma RenderedEntry(roles: Roles, e: (string, seq<string>))
    requires e.1 != [] && Distinct(e.1)
    ensures var s := Render(roles)(e);
      s.id == e.0 && s.digests != [] && Distinct(s.digests) && Sorting.Sorted(s.digests, Sorting.TextLe) &&
      forall x :: x in s.digests <==> x in e.1
  {
    var sorted := Sorting.Sort(e.1, Sorting.TextLe);
    Sorting.TextOrder();
    Sorting.SortMultiset(e.1, Sorting.TextLe);
    Sorting.SortSorted(e.1, Sorting.TextLe);
    DistinctCounts(e.1);
    DistinctCounts(sorted);
    forall x
      ensures x in sorted <==> x in e.1
    {
      assert x in sorted <==> x in multiset(sorted);
      assert x in e.1 <==> x in multiset(e.1);
    }
  }

  lemma IdOrder()
    ensures Sorting.Total(IdLe) && Sorting.Transitive(IdLe)
  {
    Sorting.TextOrder();
  }

  lemma SortedTidy(g: Grouped)
    requires Tidy(g)
    ensures Tidy(Sorting.Sort(g, IdLe)) && Sorting.Sorted(Sorting.Sort(g, IdLe), IdLe)
    ensures forall e :: e in Sorting.Sort(g, IdLe) <==> e in g
  {
    var sorted := Sorting.Sort(g, IdLe);
    IdOrder();
    Sorting.SortSorted(g, IdLe);
    Sorting.SortMultiset(g, IdLe);
    MapMultiset(IdOf(), sorted, g);
    DistinctCounts(Map(IdOf(), g));
    DistinctCounts(Map(IdOf(), sorted));
    forall e
      ensures e in sorted <==> e in g
    {
      assert e in sorted <==> e in multiset(sorted);
      assert e in g <==> e in multiset(g);
    }
    forall i, j | 0 <= i < j < |sorted|
      ensures sorted[i].0 != sorted[j].0
    {
      assert Map(IdOf(), sorted)[i] != Map(IdOf(), sorted)[j];
    }
    forall i | 0 <= i < |sorted|
      ensures sorted[i].1 != [] && Distinct(sorted[i].1)
    {
      assert sorted[i] in g;
    }
  }

  lemma RenderedInOrder(g: Grouped, roles: Roles)
    requires Tidy(g)
    ensures InOrder(Map(Render(roles), Sorting.Sort(g, IdLe)), roles)
  {
    SortedTidy(g);
    var sorted := Sorting.Sort(g, IdLe);
    var subjects := Map(Render(roles), sorted);
    forall i | 0 <= i < |subjects|
      ensures subjects[i].id == sorted[i].0 && subjects[i].digests != [] && Distinct(subjects[i].digests)
      ensures Sorting.Sorted(subjects[i].digests, Sorting.TextLe)
    {
      RenderedEntry(roles, sorted[i]);
    }
    forall i, j | 0 <= i < j < |subjects|
      ensures subjects[i].id != subjects[j].id && Sorting.TextLe(subjects[i].id, subjects[j].id)
    {
      assert IdLe(sorted[i], sorted[j]);
    }
  }

  lemma RenderedHolds(g: Grouped, roles: Roles, id: string, digest: string)
    requires Tidy(g)
    ensures Lists(Map(Render(roles), Sorting.Sort(g, IdLe)), id, digest) <==> Holds(g, id, digest)
  {
    SortedTidy(g);
    var sorted := Sorting.Sort(g, IdLe);
    var subjects := Map(Render(roles), sorted);
    if Lists(subjects, id, digest) {
      var s :| s in subjects && s.id == id && digest in s.digests;
      var i :| 0 <= i < |subjects| && subjects[i] == s;
      RenderedEntry(roles, sorted[i]);
      assert sorted[i] in g;
      var k :| 0 <= k < |g| && g[k] == sorted[i];
    }
    if Holds(g, id, digest) {
      var k :| 0 <= k < |g| && g[k].0 == id && digest in g[k].1;
      assert g[k] in sorted;
      var i :| 0 <= i < |sorted| && sorted[i] == g[k];
      RenderedEntry(roles, sorted[i]);
      assert subjects[i] in subjects;
    }
  }

  // ------------------------------------------------------------------ when the generator accepts

  /** The identities that `values` name. */
  ghost function Identities(c: Checks, values: seq<string>): set<string> {
    set v | v in values && c.identity(Some(v)).Some? :: c.identity(Some(v)).value
  }

  ghost predicate AllIdentities(c: Checks, values: seq<string>) {
    forall i :: 0 <= i < |values| ==> c.identity(Some(values[i])).Some?
  }

  lemma {:induction false} NormalizeAllExactly(c: Checks, values: seq<string>)
    ensures NormalizeAll(c, values).Some? <==> AllIdentities(c, values)
    ensures NormalizeAll(c, values).Some? ==>
      && |NormalizeAll(c, values).value| == |values|
      && (forall i :: 0 <= i < |values| ==> c.identity(Some(values[i])) == Some(NormalizeAll(c, values).value[i]))
      && ToSet(NormalizeAll(c, values).value) == Identities(c, values)
  {
    if values != [] {
      var init, last := values[..|values| - 1], values[|values| - 1];
      NormalizeAllExactly(c, init);
      assert forall i :: 0 <= i < |init| ==> values[i] == init[i];
      if NormalizeAll(c, values).Some? {
        var ids := NormalizeAll(c, values).value;
        forall x
          ensures x in ids <==> x in Identities(c, values)
        {
          if x in ids {
            var i :| 0 <= i < |ids| && ids[i] == x;
            assert values[i] in values;
          }
          if x in Identities(c, values) {
            var v :| v in values && c.identity(Some(v)) == Some(x);
            var i :| 0 <= i < |values| && values[i] == v;
            assert ids[i] == x;
          }
        }
      }
    }
  }

  ghost predicate DistinctIdentities(c: Checks, values: seq<string>) {
    forall i, j :: 0 <= i < j < |values| ==> c.identity(Some(values[i])) != c.identity(Some(values[j]))
  }

  ghost predicate RoleGiven(c: Checks, i: Inputs, id: string, role: string) {
    exists k :: 0 <= k < |i.roles| && GivesRole(c, i.roles[k], id, role)
  }

  ghost predicate DigestGiven(c: Checks, i: Inputs, id: string, digest: string) {
    exists k :: 0 <= k < |i.subjects| && Gives(c, i.subjects[k], id, digest)
  }

  /** Some identity of that role is given the digest. */
  ghost predicate Attested(c: Checks, i: Inputs, role: string, digest: string) {
    exists id :: RoleGiven(c, i, id, role) && DigestGiven(c, i, id, digest)
  }

  /** The arguments are well formed by themselves and name one set of distinct identities. */
  ghost predicate WellFormed(c: Checks, i: Inputs) {
    && AllIdentities(c, i.ids) && DistinctIdentities(c, i.ids)
    && AllIdentities(c, i.manifestIds) && Identities(c, i.manifestIds) == Identities(c, i.ids)
    && GoodRoles(c, i.roles) && AllGood(c, i.subjects)
  }

  ghost predicate EachHasDigest(c: Checks, i: Inputs) {
    forall id :: id in Identities(c, i.ids) <==> exists x :: DigestGiven(c, i, id, x)
  }

  ghost predicate EachHasRole(c: Checks, i: Inputs) {
    forall id :: id in Identities(c, i.ids) <==> RoleGiven(c, i, id, "package") || RoleGiven(c, i, id, "web")
  }

  ghost predicate BothRolesGiven(c: Checks, i: Inputs) {
    (exists id :: RoleGiven(c, i, id, "package")) && (exists id :: RoleGiven(c, i, id, "web"))
  }

  ghost predicate AttestedExactly(c: Checks, i: Inputs, role: string, digests: set<string>) {
    forall x :: Attested(c, i, role, x) <==> x in digests
  }

  /** Every identity has a role and a digest, and nothing else has; both roles are given; and the digests given to
      each role are its artifacts. */
  ghost predicate Covered(c: Checks, i: Inputs, d: Digests) {
    && EachHasDigest(c, i) && EachHasRole(c, i) && BothRolesGiven(c, i)
    && AttestedExactly(c, i, "package", {d.wheel, d.sdist, d.lock}) && AttestedExactly(c, i, "web", {d.image})
  }

  lemma RoleMap(c: Checks, i: Inputs, id: string, role: string)
    requires ParseRoles(c, i.roles).Some?
    ensures RoleGiven(c, i, id, role) <==>
      id in ParseRoles(c, i.roles).value && ParseRoles(c, i.roles).value[id] == role
  {
    RolesParsed(c, i.roles);
    var roles := ParseRoles(c, i.roles).value;
    if RoleGiven(c, i, id, role) {
      var k :| 0 <= k < |i.roles| && GivesRole(c, i.roles[k], id, role);
      GivesRoleExactly(c, i.roles[k], id, role);
    }
    if id in roles && roles[id] == role {
      var k :| 0 <= k < |i.roles| && RoleId(c, i.roles[k]) == Some(id);
      GivesRoleExactly(c, i.roles[k], id, role);
    }
  }

  lemma EntryIds(c: Checks, i: Inputs, roles: Roles, subjects: seq<Subject>)
    requires WrittenFor(c, i.subjects, roles, subjects)
    ensures forall id :: id in IdsOf(subjects) <==> exists x :: DigestGiven(c, i, id, x)
  {
    forall id
      ensures id in IdsOf(subjects) <==> exists x :: DigestGiven(c, i, id, x)
    {
      if id in IdsOf(subjects) {
        var s :| s in subjects && s.id == id;
        assert s.digests[0] in s.digests;
        assert Lists(subjects, id, s.digests[0]);
        assert DigestGiven(c, i, id, s.digests[0]);
      }
      if x :| DigestGiven(c, i, id, x) {
        assert Lists(subjects, id, x);
      }
    }
  }

  lemma EntryDigests(c: Checks, i: Inputs, subjects: seq<Subject>, role: string, x: string)
    requires ParseRoles(c, i.roles).Some? && WrittenFor(c, i.subjects, ParseRoles(c, i.roles).value, subjects)
    ensures x in DigestsIn(subjects, Some(role)) <==> Attested(c, i, role, x)
  {
    var roles := ParseRoles(c, i.roles).value;
    if x in DigestsIn(subjects, Some(role)) {
      var s :| s in subjects && s.role == Some(role) && x in s.digests;
      RoleMap(c, i, s.id, role);
      assert Lists(subjects, s.id, x);
      assert DigestGiven(c, i, s.id, x);
    }
    if id :| RoleGiven(c, i, id, role) && DigestGiven(c, i, id, x) {
      RoleMap(c, i, id, role);
      assert Lists(subjects, id, x);
    }
  }

  lemma RoleSets(c: Checks, i: Inputs)
    requires ParseRoles(c, i.roles).Some?
    ensures ParseRoles(c, i.roles).value.Keys == Identities(c, i.ids) <==> EachHasRole(c, i)
    ensures ParseRoles(c, i.roles).value.Values == {"package", "web"} <==> BothRolesGiven(c, i)
  {
    var roles := ParseRoles(c, i.roles).value;
    ParsedRolesAllowed(c, i.roles);
    forall id
      ensures RoleGiven(c, i, id, "package") <==> id in roles && roles[id] == "package"
      ensures RoleGiven(c, i, id, "web") <==> id in roles && roles[id] == "web"
      ensures id in roles <==> RoleGiven(c, i, id, "package") || RoleGiven(c, i, id, "web")
    {
      RoleMap(c, i, id, "package");
      RoleMap(c, i, id, "web");
    }
    forall role: string
      ensures role in roles.Values <==> exists id :: id in roles && roles[id] == role
    {
    }
    if BothRolesGiven(c, i) {
      assert forall role :: role in roles.Values ==> IsRole(role);
      assert roles.Values == {"package", "web"};
    }
  }

  lemma DigestSet(c: Checks, i: Inputs, subjects: seq<Subject>, role: string, digests: set<string>)
    requires ParseRoles(c, i.roles).Some? && WrittenFor(c, i.subjects, ParseRoles(c, i.roles).value, subjects)
    ensures DigestsIn(subjects, Some(role)) == digests <==> AttestedExactly(c, i, role, digests)
  {
    forall x
      ensures x in DigestsIn(subjects, Some(role)) <==> Attested(c, i, role, x)
    {
      EntryDigests(c, i, subjects, role, x);
    }
  }

  /** Once every entry has a role, the digests are those of the two roles. */
  lemma AllDigests(subjects: seq<Subject>)
    requires forall s :: s in subjects ==> s.role == Some("package") || s.role == Some("web")
    ensures DigestsIn(subjects, None) == DigestsIn(subjects, Some("package")) + DigestsIn(subjects, Some("web"))
  {
  }

  lemma EntriesHaveRoles(c: Checks, i: Inputs, subjects: seq<Subject>)
    requires ParseRoles(c, i.roles).Some? && WrittenFor(c, i.subjects, ParseRoles(c, i.roles).value, subjects)
    requires IdsOf(subjects) == ParseRoles(c, i.roles).value.Keys
    ensures forall s :: s in subjects ==> s.role == Some("package") || s.role == Some("web")
  {
    ParsedRolesAllowed(c, i.roles);
    forall s | s in subjects
      ensures s.role == Some("package") || s.role == Some("web")
    {
      assert s.id in IdsOf(subjects);
    }
  }

  /** What the generator checks of parsed arguments. */
  predicate Checked(d: Digests, all: set<string>, roles: Roles, subjects: seq<Subject>) {
    && IdsOf(subjects) == all && roles.Keys == all && roles.Values == {"package", "web"}
    && DigestsIn(subjects, None) == d.All() && DigestsIn(subjects, Some("package")) == d.Package()
    && DigestsIn(subjects, Some("web")) == d.Web()
  }

  lemma CoveredExactly(c: Checks, i: Inputs, d: Digests, roles: Roles, subjects: seq<Subject>)
    requires ParseRoles(c, i.roles) == Some(roles) && WrittenFor(c, i.subjects, roles, subjects)
    ensures Checked(d, Identities(c, i.ids), roles, subjects) <==> Covered(c, i, d)
  {
    EntryIds(c, i, roles, subjects);
    RoleSets(c, i);
    DigestSet(c, i, subjects, "package", d.Package());
    DigestSet(c, i, subjects, "web", d.Web());
    assert IdsOf(subjects) == Identities(c, i.ids) <==> EachHasDigest(c, i);
    if IdsOf(subjects) == roles.Keys {
      EntriesHaveRoles(c, i, subjects);
      AllDigests(subjects);
    }
  }

  lemma GenerateWhen(
    c: Checks, i: Inputs, d: Digests, ids: seq<string>, manifestIds: seq<string>, roles: Roles,
    subjects: seq<Subject>)
    requires NormalizeAll(c, i.ids) == Some(ids) && NormalizeAll(c, i.manifestIds) == Some(manifestIds)
    requires ParseRoles(c, i.roles) == Some(roles) && ParseSubjects(c, i.subjects, roles) == Some(subjects)
    ensures Generate(c, i, d).Some? <==>
      |ToSet(ids)| == |ids| && ToSet(manifestIds) == ToSet(ids) &&
      (ids == [] || Checked(d, ToSet(ids), roles, subjects))
    ensures Generate(c, i, d).Some? ==>
      Generate(c, i, d).value == Part(Sorting.Sort(ids, Sorting.TextLe), subjects)
  {
  }

  lemma GenerateNeedsAll(c: Checks, i: Inputs, d: Digests)
    requires Generate(c, i, d).Some?
    ensures NormalizeAll(c, i.ids).Some? && NormalizeAll(c, i.manifestIds).Some?
    ensures ParseRoles(c, i.roles).Some? && ParseSubjects(c, i.subjects, ParseRoles(c, i.roles).value).Some?
  {
  }

  lemma ParsedExactly(c: Checks, i: Inputs)
    ensures NormalizeAll(c, i.ids).Some? <==> AllIdentities(c, i.ids)
    ensures NormalizeAll(c, i.manifestIds).Some? <==> AllIdentities(c, i.manifestIds)
    ensures ParseRoles(c, i.roles).Some? <==> GoodRoles(c, i.roles)
    ensures ParseRoles(c, i.roles).Some? ==>
      (ParseSubjects(c, i.subjects, ParseRoles(c, i.roles).value).Some? <==> AllGood(c, i.subjects))
  {
    NormalizeAllExactly(c, i.ids);
    NormalizeAllExactly(c, i.manifestIds);
    RolesParsed(c, i.roles);
    if ParseRoles(c, i.roles).Some? {
      SubjectsExactly(c, i.subjects, ParseRoles(c, i.roles).value);
    }
  }

  /** The generator accepts its arguments exactly when they are well formed and, unless there is no identity at
      all, cover the artifacts; it then writes the identities in order and the entries of the arguments. */
  lemma GenerateExactly(c: Checks, i: Inputs, d: Digests)
    ensures Generate(c, i, d).Some? <==> WellFormed(c, i) && (i.ids == [] || Covered(c, i, d))
    ensures Generate(c, i, d).Some? ==> GeneratedFor(c, i, Generate(c, i, d).value)
  {
    ParsedExactly(c, i);
    if Generate(c, i, d).Some? {
      GenerateNeedsAll(c, i, d);
      GenerateParsed(c, i, d);
    } else if WellFormed(c, i) {
      GenerateParsed(c, i, d);
    }
  }

  ghost predicate GeneratedFor(c: Checks, i: Inputs, part: Part) {
    && ToSet(part.attestations) == Identities(c, i.ids) && Distinct(part.attestations)
    && Sorting.Sorted(part.attestations, Sorting.TextLe)
    && ParseRoles(c, i.roles).Some?
    && WrittenFor(c, i.subjects, ParseRoles(c, i.roles).value, part.subjects)
  }

  lemma GenerateParsed(c: Checks, i: Inputs, d: Digests)
    requires NormalizeAll(c, i.ids).Some? && NormalizeAll(c, i.manifestIds).Some?
    requires ParseRoles(c, i.roles).Some? && ParseSubjects(c, i.subjects, ParseRoles(c, i.roles).value).Some?
    ensures Generate(c, i, d).Some? <==> WellFormed(c, i) && (i.ids == [] || Covered(c, i, d))
    ensures Generate(c, i, d).Some? ==> GeneratedFor(c, i, Generate(c, i, d).value)
  {
    var ids, manifestIds := NormalizeAll(c, i.ids).value, NormalizeAll(c, i.manifestIds).value;
    var roles := ParseRoles(c, i.roles).value;
    var subjects := ParseSubjects(c, i.subjects, roles).value;
    ParsedExactly(c, i);
    NormalizeAllExactly(c, i.ids);
    NormalizeAllExactly(c, i.manifestIds);
    SubjectsExactly(c, i.subjects, roles);
    GenerateWhen(c, i, d, ids, manifestIds, roles, subjects);
    ToSetSize(ids);
    DistinctNormalized(c, i.ids);
    SortedIds(ids);
    CoveredExactly(c, i, d, roles, subjects);
  }

  lemma DistinctNormalized(c: Checks, values: seq<string>)
    requires NormalizeAll(c, values).Some?
    ensures Distinct(NormalizeAll(c, values).value) <==> DistinctIdentities(c, values)
  {
    NormalizeAllExactly(c, values);
    var ids := NormalizeAll(c, values).value;
    forall i, j | 0 <= i < j < |values|
      ensures ids[i] == ids[j] <==> c.identity(Some(values[i])) == c.identity(Some(values[j]))
    {
    }
  }

  lemma SortedIds(ids: seq<string>)
    ensures var sorted := Sorting.Sort(ids, Sorting.TextLe);
      ToSet(sorted) == ToSet(ids) && (Distinct(sorted) <==> Distinct(ids)) &&
      Sorting.Sorted(sorted, Sorting.TextLe)
  {
    var sorted := Sorting.Sort(ids, Sorting.TextLe);
    Sorting.TextOrder();
    Sorting.SortSorted(ids, Sorting.TextLe);
    Sorting.SortMultiset(ids, Sorting.TextLe);
    DistinctCounts(ids);
    DistinctCounts(sorted);
    forall x
      ensures x in sorted <==> x in ids
    {
      assert x in sorted <==> x in multiset(sorted);
      assert x in ids <==> x in multiset(ids);
    }
  }

  // ------------------------------------------------------------------ two identities

  /** Every well-formed input with two identities that covers the artifacts is generated and verified. */
  lemma TwoIdentitiesVerified(c: Checks, i: Inputs, expected: Option<seq<string>>, d: Digests)
    requires c.Lawful() && WellFormed(c, i) && Covered(c, i, d) && |i.ids| == 2
    requires expected.Some? ==>
      AllIdentities(c, expected.value) && Identities(c, expected.value) == Identities(c, i.ids)
    ensures Generate(c, i, d).Some?
    ensures VerifierAccepts(c, Generate(c, i, d).value, i.manifestIds, expected, d)
  {
    GenerateExactly(c, i, d);
    GeneratedIsVerifiedIffTwo(c, i, expected, d);
    NormalizeAllExactly(c, i.manifestIds);
    if expected.Some? {
      NormalizeAllExactly(c, expected.value);
    }
  }

  /** The arguments of a release: the package identity with wheel, sdist and lock, the web identity with the
      image. */
  function ReleaseCall(a: string, w: string, d: Digests): Inputs {
    Inputs([a, w], [Arg(a, "package"), Arg(w, "web")],
           [Arg(a, d.wheel), Arg(a, d.sdist), Arg(a, d.lock), Arg(w, d.image)], [a, w])
  }

  lemma ArgGives(c: Checks, id: string, digest: string, x: string, y: string)
    requires PlainId(c, id) && c.subject(Some(digest)) == Some(digest)
    ensures Gives(c, Arg(id, digest), x, y) <==> x == id && y == digest
  {
    SplitJoined(id, digest);
    GivesExactly(c, Arg(id, digest), x, y);
  }

  lemma ArgGivesRole(c: Checks, id: string, role: string, x: string, y: string)
    requires PlainId(c, id) && IsRole(role) && PlainRoles(c)
    ensures GivesRole(c, Arg(id, role), x, y) <==> x == id && y == role
  {
    SplitJoined(id, role);
    GivesRoleExactly(c, Arg(id, role), x, y);
  }

  lemma ReleaseGiven(c: Checks, a: string, w: string, d: Digests, id: string, x: string)
    requires PlainId(c, a) && PlainId(c, w) && PlainDigests(c, d)
    ensures DigestGiven(c, ReleaseCall(a, w, d), id, x) <==>
      (id == a && (x == d.wheel || x == d.sdist || x == d.lock)) || (id == w && x == d.image)
  {
    var values := ReleaseCall(a, w, d).subjects;
    ArgGives(c, a, d.wheel, id, x);
    ArgGives(c, a, d.sdist, id, x);
    ArgGives(c, a, d.lock, id, x);
    ArgGives(c, w, d.image, id, x);
    assert values[0] == Arg(a, d.wheel) && values[1] == Arg(a, d.sdist) && values[2] == Arg(a, d.lock);
    assert values[3] == Arg(w, d.image) && |values| == 4;
  }

  lemma ReleaseRoles(c: Checks, a: string, w: string, d: Digests, id: string, role: string)
    requires PlainId(c, a) && PlainId(c, w) && PlainRoles(c)
    ensures RoleGiven(c, ReleaseCall(a, w, d), id, role) <==>
      (id == a && role == "package") || (id == w && role == "web")
  {
    var values := ReleaseCall(a, w, d).roles;
    ArgGivesRole(c, a, "package", id, role);
    ArgGivesRole(c, w, "web", id, role);
    assert values[0] == Arg(a, "package") && values[1] == Arg(w, "web") && |values| == 2;
  }

  lemma ReleaseWellFormed(c: Checks, a: string, w: string, d: Digests)
    requires PlainId(c, a) && PlainId(c, w) && a != w && PlainRoles(c) && PlainDigests(c, d)
    ensures WellFormed(c, ReleaseCall(a, w, d)) && Identities(c, [a, w]) == {a, w}
  {
    var i := ReleaseCall(a, w, d);
    ArgGivesRole(c, a, "package", a, "package");
    ArgGivesRole(c, w, "web", w, "web");
    GivesRoleExactly(c, i.roles[0], a, "package");
    GivesRoleExactly(c, i.roles[1], w, "web");
    ArgGives(c, a, d.wheel, a, d.wheel);
    ArgGives(c, a, d.sdist, a, d.sdist);
    ArgGives(c, a, d.lock, a, d.lock);
    ArgGives(c, w, d.image, w, d.image);
  }

  /** The release's own call is generated and verified, its package entry with all three digests. */
  lemma ReleaseCallVerified(c: Checks, a: string, w: string, d: Digests)
    requires c.Lawful() && PlainId(c, a) && PlainId(c, w) && a != w && PlainRoles(c) && PlainDigests(c, d)
    ensures var i := ReleaseCall(a, w, d);
      Generate(c, i, d).Some? && VerifierAccepts(c, Generate(c, i, d).value, i.manifestIds, Some(i.ids), d) &&
      var subjects := Generate(c, i, d).value.subjects;
      Lists(subjects, a, d.wheel) && Lists(subjects, a, d.sdist) && Lists(subjects, a, d.lock) &&
      Lists(subjects, w, d.image)
  {
    var i := ReleaseCall(a, w, d);
    ReleaseWellFormed(c, a, w, d);
    ReleaseCovered(c, a, w, d);
    TwoIdentitiesVerified(c, i, Some(i.ids), d);
    GenerateExactly(c, i, d);
    ReleaseGiven(c, a, w, d, a, d.wheel);
    ReleaseGiven(c, a, w, d, a, d.sdist);
    ReleaseGiven(c, a, w, d, a, d.lock);
    ReleaseGiven(c, a, w, d, w, d.image);
  }

  lemma ReleaseAttests(c: Checks, a: string, w: string, d: Digests, role: string, x: string)
    requires PlainId(c, a) && PlainId(c, w) && a != w && PlainRoles(c) && PlainDigests(c, d)
    ensures Attested(c, ReleaseCall(a, w, d), role, x) <==>
      (role == "package" && x in {d.wheel, d.sdist, d.lock}) || (role == "web" && x == d.image)
  {
    var i := ReleaseCall(a, w, d);
    ReleaseGiven(c, a, w, d, a, x);
    ReleaseGiven(c, a, w, d, w, x);
    ReleaseRoles(c, a, w, d, a, role);
    ReleaseRoles(c, a, w, d, w, role);
    if id :| RoleGiven(c, i, id, role) && DigestGiven(c, i, id, x) {
      ReleaseRoles(c, a, w, d, id, role);
    }
  }

  lemma ReleaseIds(c: Checks, a: string, w: string, d: Digests, id: string)
    requires PlainId(c, a) && PlainId(c, w) && a != w && PlainRoles(c) && PlainDigests(c, d)
    ensures (exists x :: DigestGiven(c, ReleaseCall(a, w, d), id, x)) <==> id == a || id == w
  {
    var i := ReleaseCall(a, w, d);
    ReleaseGiven(c, a, w, d, a, d.wheel);
    ReleaseGiven(c, a, w, d, w, d.image);
    if x :| DigestGiven(c, i, id, x) {
      ReleaseGiven(c, a, w, d, id, x);
    }
  }

  lemma ReleaseEach(c: Checks, a: string, w: string, d: Digests)
    requires PlainId(c, a) && PlainId(c, w) && a != w && PlainRoles(c) && PlainDigests(c, d)
    ensures EachHasDigest(c, ReleaseCall(a, w, d)) && EachHasRole(c, ReleaseCall(a, w, d))
  {
    var i := ReleaseCall(a, w, d);
    ReleaseWellFormed(c, a, w, d);
    forall id
      ensures id in Identities(c, i.ids) <==> exists x :: DigestGiven(c, i, id, x)
    {
      ReleaseIds(c, a, w, d, id);
    }
    forall id
      ensures id in Identities(c, i.ids) <==> RoleGiven(c, i, id, "package") || RoleGiven(c, i, id, "web")
    {
      ReleaseRoles(c, a, w, d, id, "package");
      ReleaseRoles(c, a, w, d, id, "web");
    }
  }

  lemma ReleaseAttested(c: Checks, a: string, w: string, d: Digests)
    requires PlainId(c, a) && PlainId(c, w) && a != w && PlainRoles(c) && PlainDigests(c, d)
    ensures AttestedExactly(c, ReleaseCall(a, w, d), "package", {d.wheel, d.sdist, d.lock})
    ensures AttestedExactly(c, ReleaseCall(a, w, d), "web", {d.image})
  {
    forall x
      ensures Attested(c, ReleaseCall(a, w, d), "package", x) <==> x in {d.wheel, d.sdist, d.lock}
    {
      ReleaseAttests(c, a, w, d, "package", x);
    }
    forall x
      ensures Attested(c, ReleaseCall(a, w, d), "web", x) <==> x in {d.image}
    {
      ReleaseAttests(c, a, w, d, "web", x);
    }
  }

  lemma ReleaseCovered(c: Checks, a: string, w: string, d: Digests)
    requires PlainId(c, a) && PlainId(c, w) && a != w && PlainRoles(c) && PlainDigests(c, d)
    ensures Covered(c, ReleaseCall(a, w, d), d)
  {
    ReleaseEach(c, a, w, d);
    ReleaseAttested(c, a, w, d);
    ReleaseRoles(c, a, w, d, a, "package");
    ReleaseRoles(c, a, w, d, w, "web");
  }
}
