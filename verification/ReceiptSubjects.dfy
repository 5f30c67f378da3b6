/** Attestation identities, roles and subjects: what the receipt generator writes and what the
    public release verifier demands of it. */
module ReceiptSubjects {
  import opened Wrappers
  import opened Seqs
  import opened Bindings
  import Sorting

  // ------------------------------------------------------------------ parsing the generator's arguments

  predicate IsRole(role: string) {
    role in {"package", "web"}
  }

  const SHA := "sha256:"

  predicate HashShape(s: string) {
    |s| == 64 && All(s, IsHex)
  }

  predicate DigestShape(s: string) {
    if SHA <= s then HashShape(s[|SHA|..]) else HashShape(s)
  }

  /** An attestation subject: a bare digest, or an image digest with its algorithm. */
  function CanonicalSubject(value: Option<string>): Option<string> {
    RELEASE_RULES.Checked(value, DigestShape)
  }

  /** How both sides read an identity, a subject and a role. */
  datatype Checks = Checks(
    identity: Option<string> -> Option<string>, subject: Option<string> -> Option<string>,
    strip: string -> string)
  {
    /** Reading a second time changes nothing. */
    ghost predicate Lawful() {
      && (forall v :: identity(v).Some? ==> identity(identity(v)) == identity(v))
      && (forall v :: subject(v).Some? ==> subject(subject(v)) == subject(v))
    }
  }

  const RELEASE_CHECKS := Checks(NormalizeId, CanonicalSubject, Strip)

  /** The checks in force are lawful. */
  lemma ReleaseChecksLawful()
    ensures RELEASE_CHECKS.Lawful()
  {
    ReleaseRulesLawful();
    forall v | NormalizeId(v).Some?
      ensures NormalizeId(NormalizeId(v)) == NormalizeId(v)
    {
      NormalizeIdAgain(v);
    }
    forall v | CanonicalSubject(v).Some?
      ensures CanonicalSubject(CanonicalSubject(v)) == CanonicalSubject(v)
    {
      CheckedAgain(RELEASE_RULES, v, DigestShape);
    }
  }

  /** `value.split("=", 1)`. */
  function SplitOnce(value: string): Option<(string, string)> {
    if value == "" then None
    else if value[0] == '=' then Some(("", value[1..]))
    else
      match SplitOnce(value[1..])
      case None => None
      case Some(p) => Some(([value[0]] + p.0, p.1))
  }

  type Roles = map<string, string>

  function AddRole(c: Checks, roles: Roles, value: string): Option<Roles> {
    match SplitOnce(value)
    case None => None
    case Some(p) =>
      var id, role := c.identity(Some(p.0)), c.strip(p.1);
      if id.None? || !IsRole(role) || id.value in roles then None else Some(roles[id.value := role])
  }

  function ParseRoles(c: Checks, values: seq<string>): Option<Roles> {
    if values == [] then Some(map[])
    else
      match ParseRoles(c, values[..|values| - 1])
      case None => None
      case Some(roles) => AddRole(c, roles, values[|values| - 1])
  }

  method ParseAttestationRoles(c: Checks, values: seq<string>) returns (r: Option<Roles>)
    ensures r == ParseRoles(c, values)
  {
    var roles: Roles := map[];
    for i := 0 to |values|
      invariant ParseRoles(c, values[..i]) == Some(roles)
    {
      assert values[..i + 1][..i] == values[..i];
      var next := AddRole(c, roles, values[i]);
      if next.None? {
        RefusalSticks(c, values, i + 1);
        return None;
      }
      roles := next.value;
    }
    assert values[..|values|] == values;
    return Some(roles);
  }

  lemma {:induction false} RefusalSticks(c: Checks, values: seq<string>, i: nat)
    requires i <= |values| && ParseRoles(c, values[..i]).None?
    ensures ParseRoles(c, values).None?
    decreases |values| - i
  {
    if i == |values| {
      assert values[..i] == values;
    } else {
      assert values[..i + 1][..i] == values[..i];
      RefusalSticks(c, values, i + 1);
    }
  }

  /** The identity a role argument names, once it splits. */
  function RoleId(c: Checks, value: string): Option<string> {
    if SplitOnce(value).None? then None else c.identity(Some(SplitOnce(value).value.0))
  }

  predicate GoodRole(c: Checks, value: string) {
    RoleId(c, value).Some? && IsRole(c.strip(SplitOnce(value).value.1))
  }

  /** Every argument splits, names a valid identity and an allowed role, and no identity comes twice. */
  ghost predicate GoodRoles(c: Checks, values: seq<string>) {
    && (forall i :: 0 <= i < |values| ==> GoodRole(c, values[i]))
    && (forall i, j :: 0 <= i < j < |values| ==> RoleId(c, values[i]) != RoleId(c, values[j]))
  }

  /** The arguments are accepted exactly when they are good, and then each identity has the role of the one
      argument that names it. */
  lemma {:induction false} RolesParsed(c: Checks, values: seq<string>)
    ensures ParseRoles(c, values).Some? <==> GoodRoles(c, values)
    ensures ParseRoles(c, values).Some? ==> RolesOf(c, values, ParseRoles(c, values).value)
  {
    if values != [] {
      var init, last := values[..|values| - 1], values[|values| - 1];
      RolesParsed(c, init);
      OneMoreRole(c, init, last);
      assert values == init + [last];
    }
  }

  /** `roles` holds what the arguments say and nothing else. */
  ghost predicate RolesOf(c: Checks, values: seq<string>, roles: Roles) {
    && (forall i :: 0 <= i < |values| ==>
          GoodRole(c, values[i]) && RoleId(c, values[i]).value in roles &&
          roles[RoleId(c, values[i]).value] == c.strip(SplitOnce(values[i]).value.1))
    && (forall id :: id in roles ==> exists i :: 0 <= i < |values| && RoleId(c, values[i]) == Some(id))
  }

  lemma GoodRolesSnoc(c: Checks, init: seq<string>, last: string)
    ensures GoodRoles(c, init + [last]) <==>
      GoodRoles(c, init) && GoodRole(c, last) &&
      forall i :: 0 <= i < |init| ==> RoleId(c, init[i]) != RoleId(c, last)
  {
    var values := init + [last];
    assert values[|init|] == last;
    assert forall i :: 0 <= i < |init| ==> values[i] == init[i];
  }

  lemma OneMoreRole(c: Checks, init: seq<string>, last: string)
    requires ParseRoles(c, init).Some? <==> GoodRoles(c, init)
    requires ParseRoles(c, init).Some? ==> RolesOf(c, init, ParseRoles(c, init).value)
    ensures var values := init + [last];
      (ParseRoles(c, values).Some? <==> GoodRoles(c, values)) &&
      (ParseRoles(c, values).Some? ==> RolesOf(c, values, ParseRoles(c, values).value))
  {
    var values := init + [last];
    assert values[..|values| - 1] == init && values[|values| - 1] == last;
    GoodRolesSnoc(c, init, last);
    if ParseRoles(c, init).Some? {
      LastRole(c, init, last, ParseRoles(c, init).value);
    }
  }

  lemma LastRole(c: Checks, init: seq<string>, last: string, roles: Roles)
    requires GoodRoles(c, init) && RolesOf(c, init, roles)
    ensures AddRole(c, roles, last).Some? <==>
      GoodRole(c, last) && forall i :: 0 <= i < |init| ==> RoleId(c, init[i]) != RoleId(c, last)
    ensures AddRole(c, roles, last).Some? ==> RolesOf(c, init + [last], AddRole(c, roles, last).value)
  {
    if GoodRole(c, last) && RoleId(c, last).value in roles {
      var i :| 0 <= i < |init| && RoleId(c, init[i]) == RoleId(c, last);
    }
    if AddRole(c, roles, last).Some? {
      assert AddRole(c, roles, last).value == roles[RoleId(c, last).value := c.strip(SplitOnce(last).value.1)];
      RolesSnoc(c, init, last, roles);
    }
  }

  lemma RolesSnoc(c: Checks, init: seq<string>, last: string, roles: Roles)
    requires RolesOf(c, init, roles) && GoodRole(c, last) && RoleId(c, last).value !in roles
    ensures RolesOf(c, init + [last], roles[RoleId(c, last).value := c.strip(SplitOnce(last).value.1)])
  {
    var values := init + [last];
    var more := roles[RoleId(c, last).value := c.strip(SplitOnce(last).value.1)];
    assert values[|init|] == last;
    assert forall i :: 0 <= i < |init| ==> values[i] == init[i];
    forall id | id in more
      ensures exists i :: 0 <= i < |values| && RoleId(c, values[i]) == Some(id)
    {
      if id in roles {
        var i :| 0 <= i < |init| && RoleId(c, init[i]) == Some(id);
        assert RoleId(c, values[i]) == Some(id);
      } else {
        assert RoleId(c, values[|init|]) == Some(id);
      }
    }
  }

  /** The dict of digest sets, in insertion order; a digest is kept once. */
  type Grouped = seq<(string, seq<string>)>

  function AddDigest(g: Grouped, id: string, digest: string): Grouped {
    if g == [] then [(id, [digest])]
    else if g[0].0 == id then [(id, if digest in g[0].1 then g[0].1 else g[0].1 + [digest])] + g[1..]
    else [g[0]] + AddDigest(g[1..], id, digest)
  }

  function AddSubject(c: Checks, g: Grouped, value: string): Option<Grouped> {
    match SplitOnce(value)
    case None => None
    case Some(p) =>
      var id, digest := c.identity(Some(p.0)), c.subject(Some(p.1));
      if id.None? || digest.None? then None else Some(AddDigest(g, id.value, digest.value))
  }

  function Group(c: Checks, values: seq<string>): Option<Grouped> {
    if values == [] then Some([])
    else
      match Group(c, values[..|values| - 1])
      case None => None
      case Some(g) => AddSubject(c, g, values[|values| - 1])
  }

  datatype Subject = Subject(id: string, role: Option<string>, digests: seq<string>)

  predicate IdLe(a: (string, seq<string>), b: (string, seq<string>)) {
    Sorting.TextLe(a.0, b.0)
  }

  function Render(roles: Roles): ((string, seq<string>)) -> Subject {
    (e: (string, seq<string>)) =>
      Subject(e.0, if e.0 in roles then Some(roles[e.0]) else None, Sorting.Sort(e.1, Sorting.TextLe))
  }

  function ParseSubjects(c: Checks, values: seq<string>, roles: Roles): Option<seq<Subject>> {
    match Group(c, values)
    case None => None
    case Some(g) => Some(Map(Render(roles), Sorting.Sort(g, IdLe)))
  }

  // ------------------------------------------------------------------ the generator

  datatype Digests = Digests(wheel: string, sdist: string, lock: string, image: string) {
    function Package(): set<string> { {wheel, sdist, lock} }
    function Web(): set<string> { {image} }
    function All(): set<string> { Package() + Web() }
  }

  function NormalizeAll(c: Checks, values: seq<string>): Option<seq<string>> {
    if values == [] then Some([])
    else
      match NormalizeAll(c, values[..|values| - 1])
      case None => None
      case Some(ids) =>
        match c.identity(Some(values[|values| - 1]))
        case None => None
        case Some(id) => Some(ids + [id])
  }

  function IdsOf(subjects: seq<Subject>): set<string> {
    set s | s in subjects :: s.id
  }

  function DigestsIn(subjects: seq<Subject>, role: Option<string>): set<string> {
    set s, d | s in subjects && (role.None? || s.role == role) && d in s.digests :: d
  }

  datatype Inputs = Inputs(ids: seq<string>, roles: seq<string>, subjects: seq<string>, manifestIds: seq<string>)

  datatype Part = Part(attestations: seq<string>, subjects: seq<Subject>)

  /** No two elements are equal, as the code compares a set's size with the list's. */
  predicate AllDifferent(ids: seq<string>) {
    |ToSet(ids)| == |ids|
  }

  function Generate(c: Checks, i: Inputs, d: Digests): Option<Part> {
    var ids := NormalizeAll(c, i.ids);
    if ids.None? || !AllDifferent(ids.value) then None else
    var roles := ParseRoles(c, i.roles);
    if roles.None? then None else
    var subjects := ParseSubjects(c, i.subjects, roles.value);
    var manifestIds := NormalizeAll(c, i.manifestIds);
    if subjects.None? || manifestIds.None? || ToSet(manifestIds.value) != ToSet(ids.value) then None else
    var all := ToSet(manifestIds.value);
    if ids.value == [] || (
      && IdsOf(subjects.value) == all
      && roles.value.Keys == all && roles.value.Values == {"package", "web"}
      && DigestsIn(subjects.value, None) == d.All()
      && DigestsIn(subjects.value, Some("package")) == d.Package()
      && DigestsIn(subjects.value, Some("web")) == d.Web())
    then Some(Part(Sorting.Sort(ids.value, Sorting.TextLe), subjects.value))
    else None
  }

  // ------------------------------------------------------------------ the verifier

  /** A receipt entry as read back: a field of another type is None, a missing list is empty. */
  datatype Item = Item(id: Option<string>, role: Option<string>, digests: seq<Option<string>>)

  predicate EntryAcceptable(c: Checks, item: Item, allowed: set<string>) {
    && c.identity(item.id).Some?
    && item.role in {Some("package"), Some("web")}
    && item.digests != []
    && forall k :: 0 <= k < |item.digests| ==>
         c.subject(item.digests[k]).Some? && c.subject(item.digests[k]).value in allowed
  }

  ghost predicate DistinctItems(c: Checks, items: seq<Item>) {
    forall i, j :: 0 <= i < j < |items| ==> c.identity(items[i].id) != c.identity(items[j].id)
  }

  /** The normalised identities, all of them or those with one role. */
  function ItemIds(c: Checks, items: seq<Item>, role: Option<string>): set<string> {
    set item | item in items && (role.None? || item.role == role) && c.identity(item.id).Some?
      :: c.identity(item.id).value
  }

  function Observed(c: Checks, items: seq<Item>): set<string> {
    set item, v | item in items && v in item.digests && c.subject(v).Some? :: c.subject(v).value
  }

  /** The digests as written, of the entries with one role. */
  function RawDigests(items: seq<Item>, role: string): set<Option<string>> {
    set item, v | item in items && item.role == Some(role) && v in item.digests :: v
  }

  function Wrapped(s: set<string>): set<Option<string>> {
    set x | x in s :: Some(x)
  }

  /** Every entry is well formed and names an expected digest, the identities are those of the
      manifest, the digests cover everything expected, and each role has one identity that attests
      exactly its artifacts. */
  ghost predicate Acceptable(c: Checks, items: seq<Item>, manifestIds: set<string>, d: Digests) {
    && items != []
    && (forall i :: 0 <= i < |items| ==> EntryAcceptable(c, items[i], d.All()))
    && DistinctItems(c, items)
    && ItemIds(c, items, None) == manifestIds
    && Observed(c, items) == d.All()
    && |ItemIds(c, items, Some("package"))| == 1 && |ItemIds(c, items, Some("web"))| == 1
    && RawDigests(items, "package") == Wrapped(d.Package())
    && RawDigests(items, "web") == Wrapped(d.Web())
  }

  lemma BadEntry(c: Checks, items: seq<Item>, i: nat, manifestIds: set<string>, d: Digests)
    requires i < |items| && !EntryAcceptable(c, items[i], d.All())
    ensures !Acceptable(c, items, manifestIds, d)
  {
  }

  lemma RepeatedEntry(c: Checks, items: seq<Item>, i: nat, manifestIds: set<string>, d: Digests)
    requires i < |items| && c.identity(items[i].id).Some?
    requires c.identity(items[i].id).value in ItemIds(c, items[..i], None)
    ensures !Acceptable(c, items, manifestIds, d)
  {
    var item :| item in items[..i] && c.identity(item.id) == c.identity(items[i].id);
    var j :| 0 <= j < i && items[j] == item;
    assert !DistinctItems(c, items);
  }

  /** What the verifier knows after some entries. */
  ghost predicate ReadSoFar(
    c: Checks, items: seq<Item>, d: Digests, ids: set<string>, observed: set<string>, byRole: map<string, set<string>>)
  {
    && (forall j :: 0 <= j < |items| ==> EntryAcceptable(c, items[j], d.All()))
    && DistinctItems(c, items)
    && ids == ItemIds(c, items, None) && observed == Observed(c, items)
    && byRole.Keys == {"package", "web"}
    && byRole["package"] == ItemIds(c, items, Some("package")) && byRole["web"] == ItemIds(c, items, Some("web"))
  }

  lemma ReadOneMore(
    c: Checks, items: seq<Item>, i: nat, d: Digests, ids: set<string>, observed: set<string>,
    byRole: map<string, set<string>>)
    requires i < |items| && ReadSoFar(c, items[..i], d, ids, observed, byRole)
    requires EntryAcceptable(c, items[i], d.All()) && c.identity(items[i].id).value !in ids
    ensures var id, role := c.identity(items[i].id).value, items[i].role.value;
      role in byRole &&
      ReadSoFar(c, items[..i + 1], d, ids + {id}, observed + Observed(c, [items[i]]),
                byRole[role := byRole[role] + {id}])
  {
    OneMore(c, items, i, None);
    OneMore(c, items, i, Some("package"));
    OneMore(c, items, i, Some("web"));
    assert items[..i + 1] == items[..i] + [items[i]];
  }

  /** The identities the workflow reported, when it did, are those of the manifest. */
  predicate ExpectationMet(c: Checks, expected: Option<seq<string>>, manifestIds: set<string>) {
    expected.Some? ==>
      NormalizeAll(c, expected.value).Some? && ToSet(NormalizeAll(c, expected.value).value) == manifestIds
  }

  method VerifySubjects(
    c: Checks, items: seq<Item>, manifestIds: set<string>, expected: Option<seq<string>>, d: Digests)
    returns (ok: bool)
    ensures ok <==> Acceptable(c, items, manifestIds, d) && ExpectationMet(c, expected, manifestIds)
  {
    if items == [] {
      return false;
    }
    var ids: set<string>, observed: set<string> := {}, {};
    var byRole: map<string, set<string>> := map["package" := {}, "web" := {}];
    for i := 0 to |items|
      invariant ReadSoFar(c, items[..i], d, ids, observed, byRole)
    {
      var item := items[i];
      var id := c.identity(item.id);
      if id.None? {
        BadEntry(c, items, i, manifestIds, d);
        return false;
      }
      if id.value in ids {
        RepeatedEntry(c, items, i, manifestIds, d);
        return false;
      }
      if item.role != Some("package") && item.role != Some("web") {
        BadEntry(c, items, i, manifestIds, d);
        return false;
      }
      if item.digests == [] {
        BadEntry(c, items, i, manifestIds, d);
        return false;
      }
      var bad, found := ReadDigests(c, item, d.All());
      if bad {
        BadEntry(c, items, i, manifestIds, d);
        return false;
      }
      ReadOneMore(c, items, i, d, ids, observed, byRole);
      ids := ids + {id.value};
      byRole := byRole[item.role.value := byRole[item.role.value] + {id.value}];
      observed := observed + found;
    }
    assert items[..|items|] == items;
    return ids == manifestIds && ExpectationMet(c, expected, manifestIds) && observed == d.All() &&
           |byRole["package"]| == 1 && |byRole["web"]| == 1 &&
           RawDigests(items, "package") == Wrapped(d.Package()) &&
           RawDigests(items, "web") == Wrapped(d.Web());
  }

  /** The inner loop over one entry's digests. */
  method ReadDigests(c: Checks, item: Item, allowed: set<string>) returns (bad: bool, found: set<string>)
    ensures !bad <==> forall k :: 0 <= k < |item.digests| ==>
      c.subject(item.digests[k]).Some? && c.subject(item.digests[k]).value in allowed
    ensures !bad ==> found == Observed(c, [item])
  {
    found := {};
    for k := 0 to |item.digests|
      invariant forall j :: 0 <= j < k ==>
        c.subject(item.digests[j]).Some? && c.subject(item.digests[j]).value in allowed
      invariant found == set j | 0 <= j < k :: c.subject(item.digests[j]).value
    {
      var s := c.subject(item.digests[k]);
      if s.None? || s.value !in allowed {
        return true, {};
      }
      found := found + {s.value};
    }
    return false, found;
  }

  function Added(c: Checks, item: Item, role: Option<string>): set<string> {
    if c.identity(item.id).Some? && (role.None? || item.role == role) then {c.identity(item.id).value} else {}
  }

  lemma OneMore(c: Checks, items: seq<Item>, i: nat, r: Option<string>)
    requires i < |items| && c.identity(items[i].id).Some?
    ensures Observed(c, items[..i + 1]) == Observed(c, items[..i]) + Observed(c, [items[i]])
    ensures ItemIds(c, items[..i + 1], r) == ItemIds(c, items[..i], r) + Added(c, items[i], r)
    ensures DistinctItems(c, items[..i]) && c.identity(items[i].id).value !in ItemIds(c, items[..i], None) ==>
      DistinctItems(c, items[..i + 1])
  {
    assert items[..i + 1] == items[..i] + [items[i]];
  }

  // ------------------------------------------------------------------ what the generator writes

  function ItemOf(): Subject -> Item {
    (s: Subject) => Item(Some(s.id), s.role, Map((d: string) => Some(d), s.digests))
  }

  function ReadBack(subjects: seq<Subject>): seq<Item> {
    Map(ItemOf(), subjects)
  }

  ghost predicate GoodEntry(c: Checks, id: string, digests: seq<string>) {
    && c.identity(Some(id)) == Some(id)
    && digests != []
    && forall d :: d in digests ==> c.subject(Some(d)) == Some(d)
  }

  ghost predicate GoodGroups(c: Checks, g: Grouped) {
    && (forall i :: 0 <= i < |g| ==> GoodEntry(c, g[i].0, g[i].1))
    && (forall i, j :: 0 <= i < j < |g| ==> g[i].0 != g[j].0)
  }

  lemma {:induction false} AddDigestIds(g: Grouped, id: string, digest: string, other: string)
    requires other != id && forall i :: 0 <= i < |g| ==> g[i].0 != other
    ensures forall i :: 0 <= i < |AddDigest(g, id, digest)| ==> AddDigest(g, id, digest)[i].0 != other
  {
    if g != [] && g[0].0 != id {
      AddDigestIds(g[1..], id, digest, other);
    }
  }

  lemma {:induction false} AddDigestGood(c: Checks, g: Grouped, id: string, digest: string)
    requires GoodGroups(c, g)
    requires c.identity(Some(id)) == Some(id) && c.subject(Some(digest)) == Some(digest)
    ensures GoodGroups(c, AddDigest(g, id, digest))
  {
    if g != [] {
      if g[0].0 == id {
        assert AddDigest(g, id, digest)[1..] == g[1..];
      } else {
        AddDigestGood(c, g[1..], id, digest);
        AddDigestIds(g[1..], id, digest, g[0].0);
      }
    }
  }

  lemma {:induction false} GroupGood(c: Checks, values: seq<string>)
    requires c.Lawful() && Group(c, values).Some?
    ensures GoodGroups(c, Group(c, values).value)
  {
    if values != [] {
      GroupGood(c, values[..|values| - 1]);
      var p := SplitOnce(values[|values| - 1]).value;
      AddDigestGood(c, Group(c, values[..|values| - 1]).value,
                    c.identity(Some(p.0)).value, c.subject(Some(p.1)).value);
    }
  }

  ghost predicate GoodSubjects(c: Checks, subjects: seq<Subject>) {
    && (forall s :: s in subjects ==> GoodEntry(c, s.id, s.digests))
    && (forall i, j :: 0 <= i < j < |subjects| ==> subjects[i].id != subjects[j].id)
  }

  function IdOf(): ((string, seq<string>)) -> string {
    (e: (string, seq<string>)) => e.0
  }

  lemma SortedGroupsGood(c: Checks, g: Grouped)
    requires GoodGroups(c, g)
    ensures GoodGroups(c, Sorting.Sort(g, IdLe))
  {
    var sorted := Sorting.Sort(g, IdLe);
    Sorting.SortMultiset(g, IdLe);
    MapMultiset(IdOf(), sorted, g);
    DistinctCounts(Map(IdOf(), g));
    DistinctCounts(Map(IdOf(), sorted));
    forall i | 0 <= i < |sorted|
      ensures GoodEntry(c, sorted[i].0, sorted[i].1)
    {
      assert sorted[i] in multiset(sorted);
      assert sorted[i] in g;
    }
    forall i, j | 0 <= i < j < |sorted|
      ensures sorted[i].0 != sorted[j].0
    {
      assert Map(IdOf(), sorted)[i] != Map(IdOf(), sorted)[j];
    }
  }

  /** Parsed subject entries have distinct canonical identities and canonical digests, and carry the
      role given to their identity. */
  lemma ParsedSubjectsGood(c: Checks, values: seq<string>, roles: Roles)
    requires c.Lawful() && ParseSubjects(c, values, roles).Some?
    ensures var subjects := ParseSubjects(c, values, roles).value;
      GoodSubjects(c, subjects) &&
      forall s :: s in subjects ==> s.role == if s.id in roles then Some(roles[s.id]) else None
  {
    var g := Group(c, values).value;
    GroupGood(c, values);
    SortedGroupsGood(c, g);
    var sorted := Sorting.Sort(g, IdLe);
    var subjects := Map(Render(roles), sorted);
    forall i | 0 <= i < |subjects|
      ensures subjects[i].id == sorted[i].0 && GoodEntry(c, subjects[i].id, subjects[i].digests)
      ensures subjects[i].role == if subjects[i].id in roles then Some(roles[subjects[i].id]) else None
    {
      Sorting.SortMultiset(sorted[i].1, Sorting.TextLe);
      SameLength(sorted[i].1, subjects[i].digests);
      forall d | d in subjects[i].digests
        ensures d in sorted[i].1
      {
        assert d in multiset(subjects[i].digests);
      }
    }
  }

  lemma {:induction false} ParsedRolesAllowed(c: Checks, values: seq<string>)
    requires ParseRoles(c, values).Some?
    ensures forall id :: id in ParseRoles(c, values).value ==> IsRole(ParseRoles(c, values).value[id])
  {
    if values != [] {
      ParsedRolesAllowed(c, values[..|values| - 1]);
    }
  }

  // ------------------------------------------------------------------ reading it back

  lemma ReadBackEntry(c: Checks, s: Subject, allowed: set<string>)
    requires GoodEntry(c, s.id, s.digests) && s.role.Some? && IsRole(s.role.value)
    requires forall d :: d in s.digests ==> d in allowed
    ensures EntryAcceptable(c, ItemOf()(s), allowed)
  {
    var item := ItemOf()(s);
    forall k | 0 <= k < |item.digests|
      ensures c.subject(item.digests[k]) == Some(s.digests[k]) && s.digests[k] in allowed
    {
      assert s.digests[k] in s.digests;
    }
  }

  lemma ReadBackIds(c: Checks, subjects: seq<Subject>, role: Option<string>)
    requires GoodSubjects(c, subjects)
    ensures ItemIds(c, ReadBack(subjects), role)
         == set s | s in subjects && (role.None? || s.role == role) :: s.id
    ensures DistinctItems(c, ReadBack(subjects))
  {
    var items := ReadBack(subjects);
    forall i | 0 <= i < |items|
      ensures c.identity(items[i].id) == Some(subjects[i].id)
    {
      assert subjects[i] in subjects;
    }
    forall s | s in subjects && (role.None? || s.role == role)
      ensures s.id in ItemIds(c, items, role)
    {
      var i :| 0 <= i < |subjects| && subjects[i] == s;
      assert items[i] in items;
    }
    forall item | item in items
      ensures exists s :: s in subjects && item == ItemOf()(s)
    {
      var i :| 0 <= i < |items| && items[i] == item;
      assert subjects[i] in subjects;
    }
  }

  lemma ReadBackDigests(c: Checks, subjects: seq<Subject>)
    requires GoodSubjects(c, subjects)
    ensures Observed(c, ReadBack(subjects)) == DigestsIn(subjects, None)
    ensures forall r: string :: RawDigests(ReadBack(subjects), r) == Wrapped(DigestsIn(subjects, Some(r)))
  {
    var items := ReadBack(subjects);
    forall item | item in items
      ensures exists s :: s in subjects && item == ItemOf()(s)
    {
      var i :| 0 <= i < |items| && items[i] == item;
      assert subjects[i] in subjects;
    }
    forall s, d | s in subjects && d in s.digests
      ensures ItemOf()(s) in items && Some(d) in ItemOf()(s).digests && c.subject(Some(d)) == Some(d)
    {
      var i :| 0 <= i < |subjects| && subjects[i] == s;
      assert items[i] in items;
      var k :| 0 <= k < |s.digests| && s.digests[k] == d;
      assert ItemOf()(s).digests[k] == Some(d);
    }
    forall r: string
      ensures RawDigests(items, r) == Wrapped(DigestsIn(subjects, Some(r)))
    {
    }
  }

  function WithRole(roles: Roles, role: string): set<string> {
    set id | id in roles && roles[id] == role
  }

  /** Two non-empty roles cover the identities; both are single exactly when there are two. */
  lemma OneEach(roles: Roles)
    requires roles.Values == {"package", "web"}
    ensures |WithRole(roles, "package")| == 1 && |WithRole(roles, "web")| == 1 <==> |roles.Keys| == 2
  {
    var p, w := WithRole(roles, "package"), WithRole(roles, "web");
    assert "package" in roles.Values && "web" in roles.Values;
    var a :| a in roles && roles[a] == "package";
    var b :| b in roles && roles[b] == "web";
    assert a in p && b in w;
    forall id | id in roles
      ensures id in p + w
    {
      assert roles[id] in roles.Values;
    }
    assert roles.Keys == p + w && p !! w;
    assert |roles.Keys| == |p| + |w|;
  }

  // ------------------------------------------------------------------ the exact agreement

  /** The verifier's attestation section on a generated part. */
  ghost predicate VerifierAccepts(
    c: Checks, part: Part, manifest: seq<string>, expected: Option<seq<string>>, d: Digests) {
    && manifest != [] && part.attestations != []
    && NormalizeAll(c, manifest).Some? && NormalizeAll(c, part.attestations).Some?
    && ToSet(NormalizeAll(c, manifest).value) == ToSet(NormalizeAll(c, part.attestations).value)
    && Acceptable(c, ReadBack(part.subjects), ToSet(NormalizeAll(c, manifest).value), d)
    && ExpectationMet(c, expected, ToSet(NormalizeAll(c, manifest).value))
  }

  lemma {:induction false} NormalizedStay(c: Checks, ids: seq<string>)
    requires forall i :: 0 <= i < |ids| ==> c.identity(Some(ids[i])) == Some(ids[i])
    ensures NormalizeAll(c, ids) == Some(ids)
  {
    if ids != [] {
      NormalizedStay(c, ids[..|ids| - 1]);
      assert ids == ids[..|ids| - 1] + [ids[|ids| - 1]];
    }
  }

  lemma {:induction false} NormalizedAreCanonical(c: Checks, values: seq<string>)
    requires c.Lawful() && NormalizeAll(c, values).Some?
    ensures |NormalizeAll(c, values).value| == |values|
    ensures var ids := NormalizeAll(c, values).value;
      forall i :: 0 <= i < |ids| ==> c.identity(Some(ids[i])) == Some(ids[i])
  {
    if values != [] {
      NormalizedAreCanonical(c, values[..|values| - 1]);
      assert c.identity(c.identity(Some(values[|values| - 1]))) == c.identity(Some(values[|values| - 1]));
    }
  }

  lemma SortedIdsStay(c: Checks, ids: seq<string>)
    requires forall i :: 0 <= i < |ids| ==> c.identity(Some(ids[i])) == Some(ids[i])
    ensures var sorted := Sorting.Sort(ids, Sorting.TextLe);
      NormalizeAll(c, sorted) == Some(sorted) && ToSet(sorted) == ToSet(ids) && |sorted| == |ids|
  {
    var sorted := Sorting.Sort(ids, Sorting.TextLe);
    Sorting.SortMultiset(ids, Sorting.TextLe);
    forall x
      ensures x in sorted <==> x in ids
    {
      assert x in sorted <==> x in multiset(sorted);
      assert x in ids <==> x in multiset(ids);
    }
    forall i | 0 <= i < |sorted|
      ensures c.identity(Some(sorted[i])) == Some(sorted[i])
    {
      assert sorted[i] in ids;
    }
    NormalizedStay(c, sorted);
  }

  lemma EntriesAcceptable(c: Checks, subjects: seq<Subject>, roles: Roles, d: Digests)
    requires GoodSubjects(c, subjects) && IdsOf(subjects) == roles.Keys
    requires forall s :: s in subjects ==> s.role == if s.id in roles then Some(roles[s.id]) else None
    requires forall id :: id in roles ==> IsRole(roles[id])
    requires DigestsIn(subjects, None) == d.All()
    ensures forall k :: 0 <= k < |subjects| ==> EntryAcceptable(c, ReadBack(subjects)[k], d.All())
  {
    forall k | 0 <= k < |subjects|
      ensures EntryAcceptable(c, ReadBack(subjects)[k], d.All())
    {
      var s := subjects[k];
      assert s in subjects && s.id in IdsOf(subjects);
      forall x | x in s.digests
        ensures x in d.All()
      {
        assert x in DigestsIn(subjects, None);
      }
      ReadBackEntry(c, s, d.All());
    }
  }

  lemma ItemIdsByRole(c: Checks, subjects: seq<Subject>, roles: Roles, role: string)
    requires GoodSubjects(c, subjects) && IdsOf(subjects) == roles.Keys
    requires forall s :: s in subjects ==> s.role == if s.id in roles then Some(roles[s.id]) else None
    ensures ItemIds(c, ReadBack(subjects), Some(role)) == WithRole(roles, role)
  {
    ReadBackIds(c, subjects, Some(role));
    RoleIds(subjects, roles, role);
  }

  /** What a generator that checked its subjects knows of them. */
  ghost predicate CheckedSubjects(c: Checks, subjects: seq<Subject>, roles: Roles, d: Digests) {
    && GoodSubjects(c, subjects) && subjects != []
    && IdsOf(subjects) == roles.Keys && roles.Values == {"package", "web"}
    && (forall s :: s in subjects ==> s.role == if s.id in roles then Some(roles[s.id]) else None)
    && (forall id :: id in roles ==> IsRole(roles[id]))
    && DigestsIn(subjects, None) == d.All()
    && DigestsIn(subjects, Some("package")) == d.Package()
    && DigestsIn(subjects, Some("web")) == d.Web()
  }

  lemma GeneratedAreChecked(c: Checks, i: Inputs, d: Digests)
    requires c.Lawful() && Generate(c, i, d).Some? && i.ids != []
    ensures var roles := ParseRoles(c, i.roles).value;
      CheckedSubjects(c, Generate(c, i, d).value.subjects, roles, d) &&
      roles.Keys == ToSet(NormalizeAll(c, i.manifestIds).value) && |roles.Keys| == |i.ids|
  {
    var ids, roles := NormalizeAll(c, i.ids).value, ParseRoles(c, i.roles).value;
    NormalizedAreCanonical(c, i.ids);
    ParsedSubjectsGood(c, i.subjects, roles);
    ParsedRolesAllowed(c, i.roles);
    assert ids[0] in ToSet(ids);
    assert IdsOf([]) == {};
  }

  /** Everything but the one-identity-per-role check holds of them. */
  lemma CheckedAreCovering(c: Checks, subjects: seq<Subject>, roles: Roles, d: Digests)
    requires CheckedSubjects(c, subjects, roles, d)
    ensures var items := ReadBack(subjects);
      DistinctItems(c, items) && ItemIds(c, items, None) == roles.Keys && Observed(c, items) == d.All() &&
      RawDigests(items, "package") == Wrapped(d.Package()) && RawDigests(items, "web") == Wrapped(d.Web())
  {
    ReadBackAllIds(c, subjects);
    ReadBackDigests(c, subjects);
  }

  lemma ReadBackAllIds(c: Checks, subjects: seq<Subject>)
    requires GoodSubjects(c, subjects)
    ensures DistinctItems(c, ReadBack(subjects)) && ItemIds(c, ReadBack(subjects), None) == IdsOf(subjects)
  {
    ReadBackIds(c, subjects, None);
  }

  lemma OneIdentityPerRole(c: Checks, subjects: seq<Subject>, roles: Roles, d: Digests)
    requires CheckedSubjects(c, subjects, roles, d)
    ensures var items := ReadBack(subjects);
      |ItemIds(c, items, Some("package"))| == 1 && |ItemIds(c, items, Some("web"))| == 1 <==> |roles.Keys| == 2
  {
    ItemIdsByRole(c, subjects, roles, "package");
    ItemIdsByRole(c, subjects, roles, "web");
    OneEach(roles);
  }

  lemma CheckedAreAcceptable(c: Checks, subjects: seq<Subject>, roles: Roles, d: Digests)
    requires CheckedSubjects(c, subjects, roles, d)
    ensures Acceptable(c, ReadBack(subjects), roles.Keys, d) <==> |roles.Keys| == 2
  {
    EntriesAcceptable(c, subjects, roles, d);
    CheckedAreCovering(c, subjects, roles, d);
    OneIdentityPerRole(c, subjects, roles, d);
  }

  lemma RoleIds(subjects: seq<Subject>, roles: Roles, role: string)
    requires IdsOf(subjects) == roles.Keys
    requires forall s :: s in subjects ==> s.role == if s.id in roles then Some(roles[s.id]) else None
    ensures (set s | s in subjects && s.role == Some(role) :: s.id) == WithRole(roles, role)
  {
    forall id | id in WithRole(roles, role)
      ensures exists s :: s in subjects && s.role == Some(role) && s.id == id
    {
      assert id in IdsOf(subjects);
    }
  }

  /** What the generator lets through is verified exactly when there are two attestation identities, and they
      are the ones the workflow reported, if it reported any. With three or more, one role has several
      identities, which only the verifier refuses; with none, the verifier wants at least one. */
  lemma GeneratedIsVerifiedIffTwo(c: Checks, i: Inputs, expected: Option<seq<string>>, d: Digests)
    requires c.Lawful() && Generate(c, i, d).Some?
    ensures VerifierAccepts(c, Generate(c, i, d).value, i.manifestIds, expected, d)
       <==> |i.ids| == 2 && ExpectationMet(c, expected, ToSet(NormalizeAll(c, i.manifestIds).value))
  {
    var part, ids := Generate(c, i, d).value, NormalizeAll(c, i.ids).value;
    NormalizedAreCanonical(c, i.ids);
    NormalizedAreCanonical(c, i.manifestIds);
    SortedIdsStay(c, ids);
    if i.ids != [] {
      GeneratedAreChecked(c, i, d);
      CheckedAreAcceptable(c, part.subjects, ParseRoles(c, i.roles).value, d);
      assert ids[0] in ToSet(NormalizeAll(c, i.manifestIds).value);
      assert i.manifestIds != [];
    }
  }

  // ------------------------------------------------------------------ three identities

  lemma {:induction false} SplitJoined(a: string, b: string)
    requires '=' !in a
    ensures SplitOnce(Arg(a, b)) == Some((a, b))
  {
    if a == "" {
      assert Arg(a, b) == "=" + b && ("=" + b)[1..] == b;
    } else {
      SplitJoined(a[1..], b);
      assert Arg(a, b)[1..] == Arg(a[1..], b);
      assert a == [a[0]] + a[1..];
    }
  }

  /** A command-line argument `a=b`. */
  function Arg(a: string, b: string): string {
    a + "=" + b
  }

  /** An identity as the receipt writes it, in an argument. */
  ghost predicate PlainId(c: Checks, id: string) {
    '=' !in id && c.identity(Some(id)) == Some(id)
  }

  ghost predicate PlainDigests(c: Checks, d: Digests) {
    forall x :: x in d.All() ==> c.subject(Some(x)) == Some(x)
  }

  ghost predicate PlainRoles(c: Checks) {
    forall r :: IsRole(r) ==> c.strip(r) == r
  }

  /** Two package identities, one for the wheel and the sdist, one for the lock, and a web identity. */
  function ThreeIds(a: string, b: string, w: string, d: Digests): Inputs {
    Inputs([a, b, w], [Arg(a, "package"), Arg(b, "package"), Arg(w, "web")],
           [Arg(a, d.wheel), Arg(a, d.sdist), Arg(b, d.lock), Arg(w, d.image)], [a, b, w])
  }

  lemma ThreeRoles(c: Checks, a: string, b: string, w: string)
    requires PlainId(c, a) && PlainId(c, b) && PlainId(c, w) && a != b && b != w && a != w && PlainRoles(c)
    ensures ParseRoles(c, [Arg(a, "package"), Arg(b, "package"), Arg(w, "web")])
         == Some(map[a := "package", b := "package", w := "web"])
  {
    var r1, r2, r3 := Arg(a, "package"), Arg(b, "package"), Arg(w, "web");
    SplitJoined(a, "package");
    SplitJoined(b, "package");
    SplitJoined(w, "web");
    assert [r1, r2, r3][..2] == [r1, r2] && [r1, r2][..1] == [r1] && [r1][..0] == [];
    assert ParseRoles(c, [r1]) == Some(map[a := "package"]);
    assert ParseRoles(c, [r1, r2]) == Some(map[a := "package", b := "package"]);
  }

  function PairOf(d: Digests): seq<string> {
    if d.sdist == d.wheel then [d.wheel] else [d.wheel, d.sdist]
  }

  lemma ThreeGroups(c: Checks, a: string, b: string, w: string, d: Digests)
    requires PlainId(c, a) && PlainId(c, b) && PlainId(c, w) && a != b && b != w && a != w && PlainDigests(c, d)
    ensures Group(c, ThreeIds(a, b, w, d).subjects) == Some([(a, PairOf(d)), (b, [d.lock]), (w, [d.image])])
  {
    var s1, s2, s3, s4 := Arg(a, d.wheel), Arg(a, d.sdist), Arg(b, d.lock), Arg(w, d.image);
    SplitJoined(a, d.wheel);
    SplitJoined(a, d.sdist);
    SplitJoined(b, d.lock);
    SplitJoined(w, d.image);
    assert [s1, s2, s3, s4][..3] == [s1, s2, s3] && [s1, s2, s3][..2] == [s1, s2];
    assert [s1, s2][..1] == [s1] && [s1][..0] == [];
    var ga, gb := (a, PairOf(d)), (b, [d.lock]);
    assert Group(c, [s1]) == Some([(a, [d.wheel])]);
    assert [(a, [d.wheel])][1..] == [] && [ga][1..] == [];
    assert [d.wheel] + [d.sdist] == [d.wheel, d.sdist] && [ga] + [] == [ga];
    assert AddDigest([(a, [d.wheel])], a, d.sdist) == [ga];
    assert Group(c, [s1, s2]) == Some([ga]);
    assert AddDigest([], b, d.lock) == [gb] && [ga] + [gb] == [ga, gb];
    assert AddDigest([ga], b, d.lock) == [ga, gb];
    assert Group(c, [s1, s2, s3]) == Some([ga, gb]);
    assert [ga, gb][1..] == [gb] && [gb][1..] == [];
    assert AddDigest([gb], w, d.image) == [gb, (w, [d.image])];
    assert AddDigest([ga, gb], w, d.image) == [ga, gb, (w, [d.image])];
  }

  lemma RenderedMembers(roles: Roles, g: Grouped)
    ensures forall s :: s in Map(Render(roles), Sorting.Sort(g, IdLe)) <==> s in Map(Render(roles), g)
  {
    var subjects, written := Map(Render(roles), Sorting.Sort(g, IdLe)), Map(Render(roles), g);
    Sorting.SortMultiset(g, IdLe);
    MapMultiset(Render(roles), Sorting.Sort(g, IdLe), g);
    forall s
      ensures s in subjects <==> s in written
    {
      assert s in subjects <==> s in multiset(subjects);
      assert s in written <==> s in multiset(written);
    }
  }

  lemma ThreeSubjects(a: string, b: string, w: string, d: Digests, roles: Roles)
    requires roles == map[a := "package", b := "package", w := "web"] && a != b && b != w && a != w
    ensures var subjects := Map(Render(roles), Sorting.Sort([(a, PairOf(d)), (b, [d.lock]), (w, [d.image])], IdLe));
      IdsOf(subjects) == {a, b, w} && DigestsIn(subjects, None) == d.All() &&
      DigestsIn(subjects, Some("package")) == d.Package() && DigestsIn(subjects, Some("web")) == d.Web()
  {
    var ga, gb, gw := (a, PairOf(d)), (b, [d.lock]), (w, [d.image]);
    var subjects := Map(Render(roles), Sorting.Sort([ga, gb, gw], IdLe));
    var sa, sb, sw := Render(roles)(ga), Render(roles)(gb), Render(roles)(gw);
    RenderedMembers(roles, [ga, gb, gw]);
    assert Map(Render(roles), [ga, gb, gw]) == [sa, sb, sw];
    RenderedDigests(roles, ga);
    RenderedDigests(roles, gb);
    RenderedDigests(roles, gw);
    PairSet(d);
    ThreeSets(subjects, sa, sb, sw, d);
  }

  lemma PairSet(d: Digests)
    ensures ToSet(PairOf(d)) == {d.wheel, d.sdist} && ToSet([d.lock]) == {d.lock} && ToSet([d.image]) == {d.image}
  {
  }

  lemma ThreeSets(subjects: seq<Subject>, sa: Subject, sb: Subject, sw: Subject, d: Digests)
    requires forall s :: s in subjects <==> s == sa || s == sb || s == sw
    requires sa.role == sb.role == Some("package") && sw.role == Some("web")
    requires ToSet(sa.digests) == {d.wheel, d.sdist} && ToSet(sb.digests) == {d.lock}
    requires ToSet(sw.digests) == {d.image}
    ensures IdsOf(subjects) == {sa.id, sb.id, sw.id} && DigestsIn(subjects, None) == d.All()
    ensures DigestsIn(subjects, Some("package")) == d.Package() && DigestsIn(subjects, Some("web")) == d.Web()
  {
    forall x
      ensures x in sa.digests <==> x in {d.wheel, d.sdist}
      ensures x in sb.digests <==> x in {d.lock}
      ensures x in sw.digests <==> x in {d.image}
    {
      assert x in sa.digests <==> x in ToSet(sa.digests);
      assert x in sb.digests <==> x in ToSet(sb.digests);
      assert x in sw.digests <==> x in ToSet(sw.digests);
    }
  }

  lemma RenderedDigests(roles: Roles, e: (string, seq<string>))
    ensures ToSet(Render(roles)(e).digests) == ToSet(e.1)
  {
    Sorting.SortMultiset(e.1, Sorting.TextLe);
    var sorted := Sorting.Sort(e.1, Sorting.TextLe);
    forall x
      ensures x in sorted <==> x in e.1
    {
      assert x in sorted <==> x in multiset(sorted);
      assert x in e.1 <==> x in multiset(e.1);
    }
  }

  lemma ThreeKeys(a: string, b: string, w: string)
    requires a != b && b != w && a != w
    ensures var roles := map[a := "package", b := "package", w := "web"];
      roles.Keys == {a, b, w} == ToSet([a, b, w]) && roles.Values == {"package", "web"}
    ensures AllDifferent([a, b, w])
  {
    var roles := map[a := "package", b := "package", w := "web"];
    assert ToSet([a, b, w]) == {a, b, w};
    assert roles[a] == "package" && roles[b] == "package" && roles[w] == "web";
  }

  lemma ThreeAreGenerated(c: Checks, a: string, b: string, w: string, d: Digests)
    requires PlainId(c, a) && PlainId(c, b) && PlainId(c, w)
    requires a != b && b != w && a != w && PlainRoles(c) && PlainDigests(c, d)
    ensures Generate(c, ThreeIds(a, b, w, d), d).Some?
  {
    var i, roles := ThreeIds(a, b, w, d), map[a := "package", b := "package", w := "web"];
    NormalizedStay(c, [a, b, w]);
    assert NormalizeAll(c, i.ids) == Some([a, b, w]);
    ThreeRoles(c, a, b, w);
    assert ParseRoles(c, i.roles) == Some(roles);
    ThreeGroups(c, a, b, w, d);
    ThreeSubjects(a, b, w, d, roles);
    ThreeKeys(a, b, w);
  }

  /** The generator's own checks allow two package identities; its receipt is then refused. */
  lemma ThreeIdentitiesSlipThrough(
    c: Checks, a: string, b: string, w: string, expected: Option<seq<string>>, d: Digests)
    requires c.Lawful() && PlainId(c, a) && PlainId(c, b) && PlainId(c, w)
    requires a != b && b != w && a != w && PlainRoles(c) && PlainDigests(c, d)
    ensures var i := ThreeIds(a, b, w, d);
      Generate(c, i, d).Some? && !VerifierAccepts(c, Generate(c, i, d).value, i.manifestIds, expected, d)
  {
    ThreeAreGenerated(c, a, b, w, d);
    GeneratedIsVerifiedIffTwo(c, ThreeIds(a, b, w, d), expected, d);
  }

  lemma ReleaseIdIsPlain(digit: char)
    requires IsDigit(digit)
    ensures PlainId(RELEASE_CHECKS, GITHUB + [digit])
  {
    CanonicalIdStays([digit]);
    PrefixedTrimmed([digit]);
    TrimmedIdStays(GITHUB + [digit]);
    var full := GITHUB + [digit];
    assert full == ['g', 'i', 't', 'h', 'u', 'b', ':', digit];
  }

  lemma RoleTrimmed(role: string)
    requires IsRole(role)
    ensures Trimmed(role)
  {
    if role == "package" {
      assert role[0] == 'p' && role[|role| - 1] == 'e';
    } else {
      assert role[0] == 'w' && role[|role| - 1] == 'b';
    }
  }

  lemma TrimmedStays(role: string)
    requires Trimmed(role)
    ensures RELEASE_CHECKS.strip(role) == role
  {
    StripTrims(role);
  }

  lemma ReleaseRolesArePlain()
    ensures PlainRoles(RELEASE_CHECKS)
  {
    forall r | IsRole(r)
      ensures RELEASE_CHECKS.strip(r) == r
    {
      RoleTrimmed(r);
      TrimmedStays(r);
    }
  }

  lemma DifferentDigits(x: char, y: char)
    requires x != y
    ensures GITHUB + [x] != GITHUB + [y]
  {
    assert (GITHUB + [x])[|GITHUB|] != (GITHUB + [y])[|GITHUB|];
  }

  /** The same with the checks in force, on the identities `github:x`, `github:y` and `github:z`
      for any three digits. */
  lemma ThreeIdentitiesUnderReleaseChecks(x: char, y: char, z: char, expected: Option<seq<string>>, d: Digests)
    requires IsDigit(x) && IsDigit(y) && IsDigit(z) && x != y && y != z && x != z
    requires PlainDigests(RELEASE_CHECKS, d)
    ensures var i := ThreeIds(GITHUB + [x], GITHUB + [y], GITHUB + [z], d);
      Generate(RELEASE_CHECKS, i, d).Some? &&
      !VerifierAccepts(RELEASE_CHECKS, Generate(RELEASE_CHECKS, i, d).value, i.manifestIds, expected, d)
  {
    ReleaseChecksLawful();
    ReleaseRolesArePlain();
    ReleaseIdIsPlain(x);
    ReleaseIdIsPlain(y);
    ReleaseIdIsPlain(z);
    DifferentDigits(x, y);
    DifferentDigits(y, z);
    DifferentDigits(x, z);
    ThreeIdentitiesSlipThrough(RELEASE_CHECKS, GITHUB + [x], GITHUB + [y], GITHUB + [z], expected, d);
  }
}
