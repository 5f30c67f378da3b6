/** The search for one attestation that meets every binding, over arbitrary JSON. */
module Attestation {
  import opened Wrappers
  import opened Seqs
  import opened Bindings

  datatype Json =
    | Null
    | Bool(b: bool)
    | Number(n: int)
    | Text(text: string)
    | List(items: seq<Json>)
    | Object(fields: seq<Field>)

  datatype Field = Field(key: string, value: Json)

  type Fields = seq<Field>

  /** `fields.get(key)`; parsed objects hold a key once. */
  function Get(fields: Fields, key: string): Option<Json> {
    if fields == [] then None
    else if fields[0].key == key then Some(fields[0].value) else Get(fields[1..], key)
  }

  function GetObject(fields: Fields, key: string): Option<Fields> {
    match Get(fields, key)
    case Some(Object(fs)) => Some(fs)
    case _ => None
  }

  // ------------------------------------------------------------------ the recursive search

  predicate IsUnit(v: Json) {
    v.Object? && GetObject(v.fields, "attestation").Some? && GetObject(v.fields, "verificationResult").Some?
  }

  /** Paired attestation results, never looking inside one that was found. */
  function Units(v: Json): seq<Json>
    decreases v, 1
  {
    match v
    case Object(fs) => if IsUnit(v) then [v] else UnitsInFields(fs)
    case List(items) => UnitsInItems(items)
    case _ => []
  }

  function UnitsInFields(fs: Fields): seq<Json>
    decreases fs, 0
  {
    if fs == [] then [] else Units(fs[0].value) + UnitsInFields(fs[1..])
  }

  function UnitsInItems(items: seq<Json>): seq<Json>
    decreases items, 0
  {
    if items == [] then [] else Units(items[0]) + UnitsInItems(items[1..])
  }

  // ------------------------------------------------------------------ where the units are

  function ValuesOf(fs: Fields): (vs: seq<Json>)
    ensures |vs| == |fs| && forall i :: 0 <= i < |fs| ==> vs[i] == fs[i].value
  {
    seq(|fs|, i requires 0 <= i < |fs| => fs[i].value)
  }

  function Children(v: Json): seq<Json> {
    match v
    case Object(fs) => ValuesOf(fs)
    case List(items) => items
    case _ => []
  }

  type Path = seq<nat>

  /** The node a path of child positions leads to. */
  function At(v: Json, path: Path): Option<Json> {
    if path == [] then Some(v)
    else if path[0] < |Children(v)| then At(Children(v)[path[0]], path[1..])
    else None
  }

  predicate UnitAt(v: Json, path: Path) {
    At(v, path).Some? && IsUnit(At(v, path).value)
  }

  /** A unit that no other unit encloses. */
  ghost predicate OutermostAt(v: Json, path: Path) {
    UnitAt(v, path) && forall q :: q < path ==> !UnitAt(v, q)
  }

  ghost predicate OutermostBelow(children: seq<Json>, path: Path, from: nat) {
    |path| > 0 && from <= path[0] < |children| && OutermostAt(children[path[0]], path[1..])
  }

  /** `paths` says where each of `units` stands among `children`, counting positions from `from`. */
  ghost predicate Located(children: seq<Json>, units: seq<Json>, paths: seq<Path>, from: nat) {
    && |paths| == |units|
    && (forall k :: 0 <= k < |paths| ==>
          OutermostBelow(children, paths[k], from) && At(children[paths[k][0]], paths[k][1..]) == Some(units[k]))
    && (forall path: Path :: OutermostBelow(children, path, from) ==> path in paths)
    && Distinct(paths)
  }

  lemma OutermostStep(v: Json, path: Path)
    requires !IsUnit(v)
    ensures OutermostAt(v, path)
       <==> OutermostBelow(Children(v), path, 0)
  {
    if |path| > 0 && path[0] < |Children(v)| {
      var child, rest := Children(v)[path[0]], path[1..];
      if OutermostAt(v, path) {
        forall q | q < rest
          ensures !UnitAt(child, q)
        {
          assert [path[0]] + q < path && ([path[0]] + q)[1..] == q;
          assert !UnitAt(v, [path[0]] + q);
        }
      }
      if OutermostAt(child, rest) {
        forall q | q < path
          ensures !UnitAt(v, q)
        {
          if q != [] {
            assert q[0] == path[0] && q[1..] < rest;
            assert !UnitAt(child, q[1..]);
            assert At(v, q) == At(child, q[1..]);
          } else {
            assert At(v, q) == Some(v);
          }
        }
      }
    } else if path == [] {
      assert At(v, path) == Some(v);
    }
  }

  lemma OutermostAtUnit(v: Json, path: Path)
    requires IsUnit(v)
    ensures OutermostAt(v, path) <==> path == []
  {
    assert UnitAt(v, []);
    if path != [] { assert [] < path; }
  }

  /** The search yields exactly the outermost units of the tree, each once, in the order of `paths`;
      none of them stands inside another. */
  lemma {:induction false} UnitsAreOutermost(v: Json) returns (paths: seq<Path>)
    ensures LocatedIn(v, paths)
    ensures forall p, q :: p in paths && q in paths && p <= q ==> p == q
    decreases v, 1
  {
    if IsUnit(v) {
      paths := [[]];
      forall path: Path
        ensures path in paths <==> OutermostAt(v, path)
      {
        OutermostAtUnit(v, path);
      }
    } else {
      match v
      case Object(fs) =>
        paths := FieldsLocated(fs, 0);
        LocatedIsOutermost(v, paths);
      case List(items) =>
        paths := ItemsLocated(items, 0);
        LocatedIsOutermost(v, paths);
      case _ =>
        paths := [];
        LocatedIsOutermost(v, paths);
    }
  }

  lemma LocatedIsOutermost(v: Json, paths: seq<Path>)
    requires !IsUnit(v) && Located(Children(v), Units(v), paths, 0)
    ensures LocatedIn(v, paths)
  {
    forall path: Path
      ensures path in paths <==> OutermostAt(v, path)
    {
      OutermostStep(v, path);
      if path in paths {
        var k :| 0 <= k < |paths| && paths[k] == path;
      }
    }
  }

  function Prepend(i: nat, paths: seq<Path>): (r: seq<Path>)
    ensures |r| == |paths| && forall k :: 0 <= k < |paths| ==> r[k] == [i] + paths[k]
  {
    seq(|paths|, k requires 0 <= k < |paths| => [i] + paths[k])
  }

  /** `inner` says where the units of one child stand in it. */
  ghost predicate LocatedIn(child: Json, inner: seq<Path>) {
    && |inner| == |Units(child)| && Distinct(inner)
    && (forall k :: 0 <= k < |inner| ==> At(child, inner[k]) == Some(Units(child)[k]))
    && (forall path :: path in inner <==> OutermostAt(child, path))
  }

  lemma PrependLocated(children: seq<Json>, i: nat, inner: seq<Path>)
    requires i < |children| && LocatedIn(children[i], inner)
    ensures var paths := Prepend(i, inner);
      && (forall k :: 0 <= k < |paths| ==>
            OutermostBelow(children, paths[k], i) && paths[k][0] == i &&
            At(children[i], paths[k][1..]) == Some(Units(children[i])[k]))
      && (forall path: Path :: OutermostBelow(children, path, i) && path[0] == i ==> path in paths)
      && Distinct(paths)
  {
    var paths := Prepend(i, inner);
    forall k | 0 <= k < |paths|
      ensures paths[k][0] == i && paths[k][1..] == inner[k] && inner[k] in inner
    {
      assert paths[k] == [i] + inner[k];
    }
    forall path: Path | OutermostBelow(children, path, i) && path[0] == i
      ensures path in paths
    {
      assert path[1..] in inner;
      var k :| 0 <= k < |inner| && inner[k] == path[1..];
      assert paths[k] == [i] + path[1..] == path;
    }
  }

  /** Put the units of child `i` before those of the children after it. */
  lemma Combine(children: seq<Json>, i: nat, inner: seq<Path>, rest: seq<Json>, later: seq<Path>)
    requires i < |children| && Located(children, rest, later, i + 1) && LocatedIn(children[i], inner)
    ensures Located(children, Units(children[i]) + rest, Prepend(i, inner) + later, i)
  {
    var first := Prepend(i, inner);
    PrependLocated(children, i, inner);
    forall path: Path | OutermostBelow(children, path, i)
      ensures path in first + later
    {
      if path[0] != i { assert OutermostBelow(children, path, i + 1); }
    }
    forall k | 0 <= k < |later|
      ensures OutermostBelow(children, later[k], i) && later[k][0] != i
    {
      assert OutermostBelow(children, later[k], i + 1);
    }
  }

  lemma {:induction false} FieldsLocated(fs: Fields, i: nat) returns (paths: seq<Path>)
    requires i <= |fs|
    ensures Located(ValuesOf(fs), UnitsInFields(fs[i..]), paths, i)
    decreases fs, 0, |fs| - i
  {
    if i == |fs| {
      paths := [];
    } else {
      var inner := UnitsAreOutermost(fs[i].value);
      var later := FieldsLocated(fs, i + 1);
      assert fs[i..][1..] == fs[i + 1..];
      Combine(ValuesOf(fs), i, inner, UnitsInFields(fs[i + 1..]), later);
      paths := Prepend(i, inner) + later;
    }
  }

  lemma {:induction false} ItemsLocated(items: seq<Json>, i: nat) returns (paths: seq<Path>)
    requires i <= |items|
    ensures Located(items, UnitsInItems(items[i..]), paths, i)
    decreases items, 0, |items| - i
  {
    if i == |items| {
      paths := [];
    } else {
      var inner := UnitsAreOutermost(items[i]);
      var later := ItemsLocated(items, i + 1);
      assert items[i..][1..] == items[i + 1..];
      Combine(items, i, inner, UnitsInItems(items[i + 1..]), later);
      paths := Prepend(i, inner) + later;
    }
  }

  // ------------------------------------------------------------------ what one unit must meet

  /** How text is read: a digest, a repository name, a commit, a run id in an invocation URI, a number
      as text, the shape of a workflow path, and whether a URI names a repository. */
  datatype Readers = Readers(
    rules: Rules, readDigest: string -> Option<string>, readRepository: string -> Option<string>,
    readCommit: string -> Option<string>, readRun: string -> Option<string>, decimal: int -> string,
    workflowPath: string -> bool, inUri: (string, string) -> bool)

  /** What the caller expects, as passed; a value that is not text is None. */
  datatype Expected = Expected(
    subjectName: Option<string>, subjectDigest: Option<string>, predicateType: Option<string>,
    repository: Option<string>, workflow: Option<string>, sourceRevision: Option<string>,
    event: Option<string>, ref: Option<string>, runId: Option<string>)

  function Read(value: Option<string>, reader: string -> Option<string>): Option<string> {
    if value.None? then None else reader(value.value)
  }

  /** The expected values after their checks, or None when one of them is refused. */
  function PolicyFor(e: Expected, r: Readers): Option<Policy> {
    var c := r.rules;
    var name, digest := c.Text(e.subjectName), Read(c.Text(e.subjectDigest), r.readDigest);
    var predicateType, repository := c.Text(e.predicateType), Read(e.repository, r.readRepository);
    var workflow, revision := c.Checked(e.workflow, r.workflowPath), c.GitObject(e.sourceRevision);
    var event, ref, runId := c.Text(e.event), c.Text(e.ref), c.PositiveInteger(e.runId);
    if None in [name, digest, predicateType, repository, workflow, revision, event, ref, runId] then None
    else Some(Policy(name.value, digest.value, predicateType.value, repository.value, workflow.value,
                     revision.value, event.value, ref.value, runId.value, r))
  }

  /** What is wanted, and how text is read. */
  datatype Policy = Policy(
    subjectName: string, subjectDigest: string, predicateType: string, repository: string, workflow: string,
    sourceRevision: string, event: string, ref: string, runId: string, readers: Readers)
  {
    /** The signer identity in the certificate. */
    function San(): string {
      "https://github.com/" + repository + "/" + workflow + "@" + ref
    }
  }

  function Either(a: Option<Fields>, b: Option<Fields>): Option<Fields> {
    if a.Some? then a else b
  }

  /** The certificate under the signature. */
  function Signed(verification: Fields): Option<Fields> {
    var signature := GetObject(verification, "signature");
    if signature.Some? then GetObject(signature.value, "certificate") else None
  }

  /** The statement and the certificate of a unit, each with its fallback place. */
  function Parts(unit: Json): Option<(Fields, Fields)>
    requires IsUnit(unit)
  {
    var attestation := GetObject(unit.fields, "attestation").value;
    var verification := GetObject(unit.fields, "verificationResult").value;
    var statement := Either(GetObject(verification, "statement"), GetObject(attestation, "decodedMaterial"));
    var certificate := Either(Signed(verification), GetObject(verification, "certificate"));
    if statement.None? || certificate.None? then None
    else
      match (Get(statement.value, "subject"), Get(statement.value, "predicateType"))
      case (Some(List(_)), Some(Text(_))) => Some((statement.value, certificate.value))
      case _ => None
  }

  // ------------------------------------------------------------------ evidence inside one unit

  /** Every node, the value itself first. */
  function Walk(v: Json): seq<Json>
    decreases v, 1
  {
    [v] + match v
          case Object(fs) => WalkFields(fs)
          case List(items) => WalkItems(items)
          case _ => []
  }

  function WalkFields(fs: Fields): seq<Json>
    decreases fs, 0
  {
    if fs == [] then [] else Walk(fs[0].value) + WalkFields(fs[1..])
  }

  function WalkItems(items: seq<Json>): seq<Json>
    decreases items, 0
  {
    if items == [] then [] else Walk(items[0]) + WalkItems(items[1..])
  }

  ghost predicate NodeBelow(children: seq<Json>, from: nat, n: Json) {
    exists path: Path :: |path| > 0 && from <= path[0] < |children| && At(children[path[0]], path[1..]) == Some(n)
  }

  lemma NodeBelowFirst(children: seq<Json>, i: nat, n: Json)
    requires i < |children|
    ensures NodeBelow(children, i, n)
       <==> (exists path :: At(children[i], path) == Some(n)) || NodeBelow(children, i + 1, n)
  {
    if NodeBelow(children, i, n) {
      var path: Path :| |path| > 0 && i <= path[0] < |children| && At(children[path[0]], path[1..]) == Some(n);
      if path[0] == i {
        assert At(children[i], path[1..]) == Some(n);
      } else {
        assert i + 1 <= path[0];
      }
    }
    if inner: Path :| At(children[i], inner) == Some(n) {
      BelowAt(children, i, i, inner, n);
    }
    if NodeBelow(children, i + 1, n) {
      var path: Path :| |path| > 0 && i + 1 <= path[0] < |children| && At(children[path[0]], path[1..]) == Some(n);
      BelowAt(children, i, path[0], path[1..], n);
    }
  }

  lemma BelowAt(children: seq<Json>, from: nat, i: nat, inner: Path, n: Json)
    requires from <= i < |children| && At(children[i], inner) == Some(n)
    ensures NodeBelow(children, from, n)
  {
    var path: Path := [i] + inner;
    assert path[1..] == inner && path[0] == i;
  }

  /** The walk visits exactly the nodes of the tree. */
  lemma {:induction false} WalkVisitsEveryNode(v: Json, n: Json)
    ensures n in Walk(v) <==> exists path :: At(v, path) == Some(n)
    decreases v, 1
  {
    NodeOrBelow(v, n);
    match v {
      case Object(fs) =>
        FieldsVisited(fs, 0, n);
        assert fs[0..] == fs;
      case List(items) =>
        ItemsVisited(items, 0, n);
        assert items[0..] == items;
      case _ =>
    }
  }

  lemma NodeOrBelow(v: Json, n: Json)
    ensures (exists path :: At(v, path) == Some(n)) <==> n == v || NodeBelow(Children(v), 0, n)
  {
    var top: Path := [];
    assert At(v, top) == Some(v);
    if exists path :: At(v, path) == Some(n) {
      var path: Path :| At(v, path) == Some(n);
      if path != [] {
        BelowAt(Children(v), 0, path[0], path[1..], n);
      }
      assert n == v || NodeBelow(Children(v), 0, n);
    }
    if n == v {
      assert exists path :: At(v, path) == Some(n);
    }
    if NodeBelow(Children(v), 0, n) {
      var path: Path :| |path| > 0 && 0 <= path[0] < |Children(v)| && At(Children(v)[path[0]], path[1..]) == Some(n);
      assert At(v, path) == Some(n);
      assert exists path :: At(v, path) == Some(n);
    }
  }

  lemma {:induction false} FieldsVisited(fs: Fields, i: nat, n: Json)
    requires i <= |fs|
    ensures n in WalkFields(fs[i..]) <==> NodeBelow(ValuesOf(fs), i, n)
    decreases fs, 0, |fs| - i
  {
    if i < |fs| {
      WalkVisitsEveryNode(fs[i].value, n);
      FieldsVisited(fs, i + 1, n);
      assert fs[i..][1..] == fs[i + 1..];
      NodeBelowFirst(ValuesOf(fs), i, n);
    }
  }

  lemma {:induction false} ItemsVisited(items: seq<Json>, i: nat, n: Json)
    requires i <= |items|
    ensures n in WalkItems(items[i..]) <==> NodeBelow(items, i, n)
    decreases items, 0, |items| - i
  {
    if i < |items| {
      WalkVisitsEveryNode(items[i], n);
      ItemsVisited(items, i + 1, n);
      assert items[i..][1..] == items[i + 1..];
      NodeBelowFirst(items, i, n);
    }
  }

  /** The objects among the nodes. */
  function Dicts(v: Json): set<Fields> {
    set n | n in Walk(v) && n.Object? :: n.fields
  }

  const WORKFLOWS := ".github/workflows/"

  predicate IsWorkflowObject(fs: Fields) {
    && Get(fs, "repository").Some? && Get(fs, "repository").value.Text?
    && Get(fs, "path").Some? && Get(fs, "path").value.Text? && WORKFLOWS <= Get(fs, "path").value.text
    && Get(fs, "ref").Some? && Get(fs, "ref").value.Text?
  }

  /** Workflow identities anywhere in the statement. */
  function WorkflowNodes(statement: Fields): set<Fields> {
    (set fs | fs in Dicts(Object(statement)) && GetObject(fs, "workflow").Some? :: GetObject(fs, "workflow").value)
    + (set fs | fs in Dicts(Object(statement)) && IsWorkflowObject(fs) :: fs)
  }

  /** `fields.get(key, fields.get(other))`: a null under the first key hides the second. */
  function GetOr(fs: Fields, key: string, other: string): Option<Json> {
    if Get(fs, key).Some? then Get(fs, key) else Get(fs, other)
  }

  predicate IsRepository(value: Option<Json>, p: Policy) {
    value.Some? && value.value.Text? && p.readers.readRepository(value.value.text) == Some(p.repository)
  }

  predicate WorkflowMatches(fs: Fields, p: Policy) {
    && IsRepository(Get(fs, "repository"), p)
    && Get(fs, "path") == Some(Text(p.workflow))
    && GetOr(fs, "event", "event_name") == Some(Text(p.event))
    && Get(fs, "ref") == Some(Text(p.ref))
  }

  predicate CertificateMatches(fs: Fields, p: Policy) {
    && Get(fs, "subjectAlternativeName") == Some(Text(p.San()))
    && IsRepository(GetOr(fs, "sourceRepositoryURI", "githubWorkflowRepository"), p)
    && Get(fs, "buildSignerURI") in {None, Some(Text(p.San()))}
    && GetOr(fs, "sourceRepositoryRef", "githubWorkflowRef") == Some(Text(p.ref))
    && GetOr(fs, "buildTrigger", "githubWorkflowTrigger") == Some(Text(p.event))
  }

  predicate SignerBound(statement: Fields, certificate: Fields, p: Policy) {
    && ((exists fs :: fs in WorkflowNodes(statement) && WorkflowMatches(fs, p)) || CertificateMatches(certificate, p))
    && Get(certificate, "subjectAlternativeName") == Some(Text(p.San()))
  }

  const REVISION_KEYS := {"sha", "commit", "revision", "sourceRevision", "source_revision"}
  const CERTIFICATE_KEYS := {"sourceRepositoryDigest", "githubWorkflowSHA", "sourceRevision", "source_revision"}
  const NODE_KEYS := {"sourceRevision", "source_revision", "workflowRevision", "workflow_revision"}

  function Under(fs: Fields, keys: set<string>): set<Json> {
    set k | k in keys && Get(fs, k).Some? :: Get(fs, k).value
  }

  function DigestValues(fs: Fields): set<Json> {
    match GetObject(fs, "digest")
    case None => {}
    case Some(ds) => set f | f in ds :: f.value
  }

  /** The dependencies of a node that name the wanted repository. */
  function OwnDependencies(fs: Fields, p: Policy): set<Fields> {
    match Get(fs, "resolvedDependencies")
    case Some(List(items)) =>
      set d | d in items && d.Object? && Get(d.fields, "uri").Some? && Get(d.fields, "uri").value.Text? &&
              p.readers.inUri(Get(d.fields, "uri").value.text, p.repository) :: d.fields
    case _ => {}
  }

  function NodeRevisions(fs: Fields, p: Policy): set<Json> {
    Under(fs, NODE_KEYS)
    + (match GetObject(fs, "configSource")
       case None => {}
       case Some(source) => Under(source, REVISION_KEYS) + DigestValues(source))
    + (set d, v | d in OwnDependencies(fs, p) && v in Under(d, REVISION_KEYS) + DigestValues(d) :: v)
  }

  /** Every value the unit offers as a source revision. */
  function RevisionValues(statement: Fields, certificate: Fields, p: Policy): set<Json> {
    (set fs, v | fs in WorkflowNodes(statement) && v in Under(fs, REVISION_KEYS) :: v)
    + Under(certificate, CERTIFICATE_KEYS)
    + (set fs, v | fs in Dicts(Object(statement)) && v in NodeRevisions(fs, p) :: v)
  }

  function Commits(values: set<Json>, p: Policy): set<string> {
    set v | v in values && v.Text? && p.readers.readCommit(v.text).Some? :: p.readers.readCommit(v.text).value
  }

  const INVOCATION_KEYS := {"invocationId", "invocation_id", "runInvocationURI", "runInvocationUri"}
  const RUN_KEYS := {"runId", "run_id", "workflow_run_id", "workflowRunId"}

  function RunIdOf(f: Field, p: Policy): Option<string> {
    if !f.value.Text? && !f.value.Number? then None
    else
      var text := if f.value.Text? then f.value.text else p.readers.decimal(f.value.n);
      if f.key in INVOCATION_KEYS then p.readers.readRun(text)
      else if f.key in RUN_KEYS && p.readers.rules.positiveInteger(text) then Some(text)
      else None
  }

  function RunIds(fields: Fields, p: Policy): set<string> {
    set fs, f | fs in Dicts(Object(fields)) && f in fs && RunIdOf(f, p).Some? :: RunIdOf(f, p).value
  }

  /** A subject with this name and this SHA-256 digest. */
  predicate IsSubject(v: Json, name: string, digest: string) {
    v.Object? && Get(v.fields, "name") == Some(Text(name)) &&
    GetObject(v.fields, "digest").Some? &&
    Field("sha256", Text(digest)) in GetObject(v.fields, "digest").value
  }

  predicate HasSubject(subjects: seq<Json>, name: string, digest: string) {
    exists i :: 0 <= i < |subjects| && IsSubject(subjects[i], name, digest)
  }

  predicate Meets(unit: Json, p: Policy) {
    IsUnit(unit) && Parts(unit).Some? &&
    var (statement, certificate) := Parts(unit).value;
    SignerBound(statement, certificate, p) &&
    p.sourceRevision in Commits(RevisionValues(statement, certificate, p), p) &&
    p.runId in RunIds(statement, p) + RunIds(certificate, p) &&
    Get(statement, "predicateType") == Some(Text(p.predicateType)) &&
    Get(statement, "subject").value.List? &&
    HasSubject(Get(statement, "subject").value.items, p.subjectName, p.subjectDigest)
  }

  function Meeting(p: Policy): Json -> bool {
    (unit: Json) => Meets(unit, p)
  }

  lemma MatchingMember(units: seq<Json>, ok: Json -> bool)
    ensures Filter(units, ok) != [] <==> exists k :: 0 <= k < |units| && ok(units[k])
  {
    if Filter(units, ok) != [] {
      FilterMember(units, ok, Filter(units, ok)[0]);
    }
    if k :| 0 <= k < |units| && ok(units[k]) {
      FilterMember(units, ok, units[k]);
    }
  }

  datatype Verdict = BadExpectation | NoMatch | Verified(matching: seq<Json>)

  /** Once the expected values pass their checks, a payload is verified exactly when one outermost unit
      meets every binding by itself. */
  method VerifyPayload(payload: Json, e: Expected, r: Readers) returns (verdict: Verdict)
    ensures verdict == BadExpectation <==> PolicyFor(e, r).None?
    ensures PolicyFor(e, r).Some? ==>
      (verdict.Verified? <==>
       exists path :: OutermostAt(payload, path) && Meeting(PolicyFor(e, r).value)(At(payload, path).value))
    ensures verdict.Verified? ==> verdict.matching == Filter(Units(payload), Meeting(PolicyFor(e, r).value))
    ensures PolicyFor(e, r).Some? ==>
      (verdict.Verified? <==> MatchCount(payload, Meeting(PolicyFor(e, r).value)) > 0)
  {
    var p := PolicyFor(e, r);
    if p.None? {
      return BadExpectation;
    }
    var found := SearchUnits(payload, Meeting(p.value));
    VerifiedByOneUnit(payload, Meeting(p.value));
    return if found.Some? then Verified(found.value) else NoMatch;
  }

  /** The search for any condition on a single unit. */
  method SearchUnits(payload: Json, ok: Json -> bool) returns (matching: Option<seq<Json>>)
    ensures matching.Some? <==> exists path :: OutermostAt(payload, path) && ok(At(payload, path).value)
    ensures matching.Some? ==> matching.value == Filter(Units(payload), ok)
  {
    var units := Units(payload);
    var found: seq<Json> := [];
    for i := 0 to |units|
      invariant found == Filter(units[..i], ok)
    {
      assert units[..i + 1][..i] == units[..i];
      if ok(units[i]) {
        found := found + [units[i]];
      }
    }
    assert units[..|units|] == units;
    VerifiedByOneUnit(payload, ok);
    return if found == [] then None else Some(found);
  }

  lemma VerifiedByOneUnit(payload: Json, ok: Json -> bool)
    ensures Filter(Units(payload), ok) != []
       <==> exists path :: OutermostAt(payload, path) && ok(At(payload, path).value)
  {
    var units := Units(payload);
    MatchingMember(units, ok);
    var paths := UnitsAreOutermost(payload);
    if k :| 0 <= k < |units| && ok(units[k]) {
      assert paths[k] in paths;
    }
    if path :| OutermostAt(payload, path) && ok(At(payload, path).value) {
      assert path in paths;
      var k :| 0 <= k < |paths| && paths[k] == path;
      assert ok(units[k]);
    }
  }

  // ------------------------------------------------------------------ neighbours do not matter

  function MatchCount(v: Json, ok: Json -> bool): nat {
    |Filter(Units(v), ok)|
  }

  lemma {:induction false} UnitsConcat(a: seq<Json>, b: seq<Json>)
    ensures UnitsInItems(a + b) == UnitsInItems(a) + UnitsInItems(b)
  {
    if a == [] {
      assert a + b == b;
    } else {
      UnitsConcat(a[1..], b);
      assert (a + b)[1..] == a[1..] + b;
    }
  }

  /** The match count of a concatenated list is the sum of the two counts. */
  lemma MatchCountAdditive(a: seq<Json>, b: seq<Json>, ok: Json -> bool)
    ensures MatchCount(List(a + b), ok) == MatchCount(List(a), ok) + MatchCount(List(b), ok)
  {
    UnitsConcat(a, b);
    FilterConcat(UnitsInItems(a), UnitsInItems(b), ok);
  }

  lemma MatchCountHead(items: seq<Json>, ok: Json -> bool)
    requires items != []
    ensures MatchCount(List(items), ok) == MatchCount(items[0], ok) + MatchCount(List(items[1..]), ok)
  {
    assert Units(List(items)) == Units(items[0]) + Units(List(items[1..]));
    FilterConcat(Units(items[0]), UnitsInItems(items[1..]), ok);
  }

  lemma MatchCountWithout(items: seq<Json>, j: nat, ok: Json -> bool)
    requires j < |items|
    ensures MatchCount(List(items), ok) == MatchCount(items[j], ok) + MatchCount(List(Without(items, j)), ok)
  {
    assert items == items[..j] + items[j..];
    MatchCountAdditive(items[..j], items[j..], ok);
    MatchCountHead(items[j..], ok);
    assert items[j..][1..] == items[j + 1..];
    MatchCountAdditive(items[..j], items[j + 1..], ok);
  }

  /** Permuting the elements of a list leaves the match count alone. */
  lemma {:induction false} MatchCountPermuted(a: seq<Json>, b: seq<Json>, ok: Json -> bool)
    requires multiset(a) == multiset(b)
    ensures MatchCount(List(a), ok) == MatchCount(List(b), ok)
  {
    SameLength(a, b);
    if a == [] {
      assert b == [];
    } else {
      assert a[0] in multiset(a);
      var j :| 0 <= j < |b| && b[j] == a[0];
      HeadMultiset(a);
      WithoutMultiset(b, j);
      MatchCountPermuted(a[1..], Without(b, j), ok);
      MatchCountHead(a, ok);
      MatchCountWithout(b, j, ok);
    }
  }

  ghost predicate DistinctFieldKeys(fs: Fields) {
    forall i, j :: 0 <= i < j < |fs| ==> fs[i].key != fs[j].key
  }

  lemma {:induction false} GetIsMember(fs: Fields, key: string, value: Json)
    requires DistinctFieldKeys(fs)
    ensures Get(fs, key) == Some(value) <==> Field(key, value) in fs
  {
    if fs != [] {
      GetIsMember(fs[1..], key, value);
      assert fs == [fs[0]] + fs[1..];
      assert forall k :: 0 <= k < |fs[1..]| ==> fs[1..][k].key != fs[0].key;
    }
  }

  lemma GetPermuted(fs: Fields, gs: Fields, key: string)
    requires DistinctFieldKeys(fs) && DistinctFieldKeys(gs) && multiset(fs) == multiset(gs)
    ensures Get(fs, key) == Get(gs, key)
  {
    if Get(fs, key).Some? {
      var value := Get(fs, key).value;
      GetIsMember(fs, key, value);
      GetIsMember(gs, key, value);
      assert Field(key, value) in multiset(fs);
    }
    if Get(gs, key).Some? {
      var value := Get(gs, key).value;
      GetIsMember(fs, key, value);
      GetIsMember(gs, key, value);
      assert Field(key, value) in multiset(gs);
    }
  }

  lemma {:induction false} FieldUnitsAreItemUnits(fs: Fields)
    ensures UnitsInFields(fs) == UnitsInItems(ValuesOf(fs))
  {
    if fs != [] {
      FieldUnitsAreItemUnits(fs[1..]);
      assert ValuesOf(fs)[1..] == ValuesOf(fs[1..]);
    }
  }

  function ValueOf(): Field -> Json {
    (f: Field) => f.value
  }

  /** Permuting the members of an object that is not itself a unit leaves the match count alone, and
      never turns it into a unit. */
  lemma MatchCountFieldsPermuted(fs: Fields, gs: Fields, ok: Json -> bool)
    requires DistinctFieldKeys(fs) && DistinctFieldKeys(gs) && multiset(fs) == multiset(gs)
    ensures IsUnit(Object(fs)) <==> IsUnit(Object(gs))
    ensures !IsUnit(Object(fs)) ==> MatchCount(Object(fs), ok) == MatchCount(Object(gs), ok)
  {
    GetPermuted(fs, gs, "attestation");
    GetPermuted(fs, gs, "verificationResult");
    FieldUnitsAreItemUnits(fs);
    FieldUnitsAreItemUnits(gs);
    MapMultiset(ValueOf(), fs, gs);
    assert Map(ValueOf(), fs) == ValuesOf(fs) && Map(ValueOf(), gs) == ValuesOf(gs);
    MatchCountPermuted(ValuesOf(fs), ValuesOf(gs), ok);
  }
}
