/** What a verified attestation shows, said by where each piece of evidence stands in the payload. */
module AttestationEvidence {
  import opened Wrappers
  import opened Seqs
  import opened Bindings
  import opened Attestation

  // ------------------------------------------------------------------ looking down

  /** The value under nested keys, each of an object inside the one before. */
  function Dig(v: Json, keys: seq<string>): Option<Json>
    decreases keys
  {
    if keys == [] then Some(v)
    else if v.Object? && Get(v.fields, keys[0]).Some? then Dig(Get(v.fields, keys[0]).value, keys[1..])
    else None
  }

  /** The value under nested keys is an object. */
  predicate HasObject(v: Json, keys: seq<string>) {
    Dig(v, keys).Some? && Dig(v, keys).value.Object?
  }

  predicate HasText(v: Json, keys: seq<string>, text: string) {
    Dig(v, keys) == Some(Text(text))
  }

  /** `n` stands somewhere in `v`, or is `v`. */
  ghost predicate Inside(v: Json, n: Json) {
    exists path :: At(v, path) == Some(n)
  }

  // ------------------------------------------------------------------ the parts of a unit

  predicate Paired(unit: Json) {
    HasObject(unit, ["attestation"]) && HasObject(unit, ["verificationResult"])
  }

  /** The statement of the verification result, or when that is no object the decoded material. */
  predicate IsStatement(unit: Json, s: Json) {
    s.Object? &&
    if HasObject(unit, ["verificationResult", "statement"])
    then Dig(unit, ["verificationResult", "statement"]) == Some(s)
    else Dig(unit, ["attestation", "decodedMaterial"]) == Some(s)
  }

  /** The certificate under the signature, or when that is no object the one beside it. */
  predicate IsCertificate(unit: Json, c: Json) {
    c.Object? &&
    if HasObject(unit, ["verificationResult", "signature", "certificate"])
    then Dig(unit, ["verificationResult", "signature", "certificate"]) == Some(c)
    else Dig(unit, ["verificationResult", "certificate"]) == Some(c)
  }

  // ------------------------------------------------------------------ who signed

  /** The value names the repository. */
  predicate NamesRepository(value: Option<Json>, repository: string, r: Readers) {
    value.Some? && value.value.Text? && r.readRepository(value.value.text) == Some(repository)
  }

  /** The value under `key`, or under `other` when `key` is missing. */
  function DigOr(v: Json, key: string, other: string): Option<Json> {
    if Dig(v, [key]).Some? then Dig(v, [key]) else Dig(v, [other])
  }

  /** An object of the statement that identifies a workflow: one called `workflow`, or one with a repository, a ref
      and a path under `.github/workflows/`. */
  ghost predicate IsWorkflow(s: Json, w: Json) {
    w.Object? &&
    ((exists n :: Inside(s, n) && Dig(n, ["workflow"]) == Some(w)) ||
     (Inside(s, w) &&
      (exists text :: HasText(w, ["repository"], text)) && (exists text :: HasText(w, ["ref"], text)) &&
      (exists text :: HasText(w, ["path"], text) && ".github/workflows/" <= text)))
  }

  predicate IsOurWorkflow(w: Json, p: Policy) {
    && NamesRepository(Dig(w, ["repository"]), p.repository, p.readers)
    && HasText(w, ["path"], p.workflow) && HasText(w, ["ref"], p.ref)
    && DigOr(w, "event", "event_name") == Some(Text(p.event))
  }

  function SignerUri(p: Policy): string {
    "https://github.com/" + p.repository + "/" + p.workflow + "@" + p.ref
  }

  predicate IsOurCertificate(c: Json, p: Policy) {
    && NamesRepository(DigOr(c, "sourceRepositoryURI", "githubWorkflowRepository"), p.repository, p.readers)
    && (Dig(c, ["buildSignerURI"]) == None || HasText(c, ["buildSignerURI"], SignerUri(p)))
    && DigOr(c, "sourceRepositoryRef", "githubWorkflowRef") == Some(Text(p.ref))
    && DigOr(c, "buildTrigger", "githubWorkflowTrigger") == Some(Text(p.event))
  }

  /** The certificate is issued to the expected signer, and a workflow of the statement or the certificate itself
      names the expected repository, ref and event. */
  ghost predicate SignedAsExpected(s: Json, c: Json, p: Policy) {
    && HasText(c, ["subjectAlternativeName"], SignerUri(p))
    && ((exists w :: IsWorkflow(s, w) && IsOurWorkflow(w, p)) || IsOurCertificate(c, p))
  }

  // ------------------------------------------------------------------ the source revision

  /** A text under one of the revision keys. */
  predicate OffersRevision(v: Json, text: string) {
    HasText(v, ["sha"], text) || HasText(v, ["commit"], text) || HasText(v, ["revision"], text) ||
    HasText(v, ["sourceRevision"], text) || HasText(v, ["source_revision"], text)
  }

  /** A text somewhere in the object under `digest`. */
  predicate OffersDigest(v: Json, text: string) {
    HasObject(v, ["digest"]) && exists f :: f in Dig(v, ["digest"]).value.fields && f.value == Text(text)
  }

  /** A listed dependency on the repository offers the text. */
  ghost predicate DependencyOffers(n: Json, text: string, p: Policy) {
    && Dig(n, ["resolvedDependencies"]).Some? && Dig(n, ["resolvedDependencies"]).value.List?
    && exists d, uri :: d in Dig(n, ["resolvedDependencies"]).value.items &&
         HasText(d, ["uri"], uri) && p.readers.inUri(uri, p.repository) &&
         (OffersRevision(d, text) || OffersDigest(d, text))
  }

  /** A node of the statement offers the text as its revision, by its configuration source, or by a dependency. */
  ghost predicate NodeOffers(n: Json, text: string, p: Policy) {
    || HasText(n, ["sourceRevision"], text) || HasText(n, ["source_revision"], text)
    || HasText(n, ["workflowRevision"], text) || HasText(n, ["workflow_revision"], text)
    || (HasObject(n, ["configSource"]) &&
        (OffersRevision(Dig(n, ["configSource"]).value, text) || OffersDigest(Dig(n, ["configSource"]).value, text)))
    || DependencyOffers(n, text, p)
  }

  predicate CertificateOffers(c: Json, text: string) {
    HasText(c, ["sourceRepositoryDigest"], text) || HasText(c, ["githubWorkflowSHA"], text) ||
    HasText(c, ["sourceRevision"], text) || HasText(c, ["source_revision"], text)
  }

  /** Some text at one of the listed places reads as the expected commit. */
  ghost predicate CommitShown(s: Json, c: Json, p: Policy) {
    exists text :: p.readers.readCommit(text) == Some(p.sourceRevision) &&
      ((exists w :: IsWorkflow(s, w) && OffersRevision(w, text)) || CertificateOffers(c, text) ||
       (exists n :: Inside(s, n) && NodeOffers(n, text, p)))
  }

  // ------------------------------------------------------------------ the run and the subject

  /** The member is a run id, or holds an invocation URI that names the run. */
  predicate ReadsAsRun(key: string, value: Json, run: string, r: Readers) {
    (value.Text? || value.Number?) &&
    var text := if value.Text? then value.text else r.decimal(value.n);
    (r.readRun(text) == Some(run) &&
     (key == "invocationId" || key == "invocation_id" || key == "runInvocationURI" || key == "runInvocationUri")) ||
    (text == run && r.rules.positiveInteger(text) &&
     (key == "runId" || key == "run_id" || key == "workflow_run_id" || key == "workflowRunId"))
  }

  /** Some member of some object in `v` reads as the run. */
  ghost predicate RunShown(v: Json, run: string, r: Readers) {
    exists n, f :: Inside(v, n) && n.Object? && f in n.fields && ReadsAsRun(f.key, f.value, run, r)
  }

  /** A listed subject has the name and the SHA-256 digest. */
  ghost predicate SubjectShown(s: Json, name: string, digest: string) {
    && Dig(s, ["subject"]).Some? && Dig(s, ["subject"]).value.List?
    && exists item :: item in Dig(s, ["subject"]).value.items && HasText(item, ["name"], name) &&
         HasObject(item, ["digest"]) && Field("sha256", Text(digest)) in Dig(item, ["digest"]).value.fields
  }

  /** A paired result that shows everything the policy asks for. */
  ghost predicate Shows(unit: Json, p: Policy) {
    && Paired(unit)
    && exists s, c :: IsStatement(unit, s) && IsCertificate(unit, c) &&
         SignedAsExpected(s, c, p) && CommitShown(s, c, p) &&
         (RunShown(s, p.runId, p.readers) || RunShown(c, p.runId, p.readers)) &&
         HasText(s, ["predicateType"], p.predicateType) && SubjectShown(s, p.subjectName, p.subjectDigest)
  }

  // ------------------------------------------------------------------ the same, as the search computes it

  lemma DigOne(v: Json, key: string)
    ensures Dig(v, [key]) == if v.Object? then Get(v.fields, key) else None
  {
    assert [key][1..] == [];
  }

  lemma DigTwo(v: Json, first: string, second: string)
    ensures Dig(v, [first, second]) ==
      if HasObject(v, [first]) then Get(Dig(v, [first]).value.fields, second) else None
  {
    assert [first, second][1..] == [second];
    DigOne(v, first);
    if Dig(v, [first]).Some? {
      DigOne(Dig(v, [first]).value, second);
    }
  }

  lemma DigThree(v: Json, first: string, second: string, third: string)
    ensures Dig(v, [first, second, third]) ==
      if HasObject(v, [first, second]) then Get(Dig(v, [first, second]).value.fields, third) else None
  {
    assert [first, second, third][1..] == [second, third];
    DigOne(v, first);
    DigTwo(v, first, second);
    if Dig(v, [first]).Some? {
      DigTwo(Dig(v, [first]).value, second, third);
      DigOne(Dig(v, [first]).value, second);
    }
  }

  lemma UnitExactly(v: Json)
    ensures IsUnit(v) <==> Paired(v)
  {
    DigOne(v, "attestation");
    DigOne(v, "verificationResult");
  }

  lemma StatementExactly(unit: Json, s: Fields)
    requires IsUnit(unit)
    ensures var a, r := GetObject(unit.fields, "attestation").value, GetObject(unit.fields, "verificationResult").value;
      IsStatement(unit, Object(s)) <==> Either(GetObject(r, "statement"), GetObject(a, "decodedMaterial")) == Some(s)
  {
    UnitExactly(unit);
    DigOne(unit, "attestation");
    DigOne(unit, "verificationResult");
    DigTwo(unit, "verificationResult", "statement");
    DigTwo(unit, "attestation", "decodedMaterial");
  }

  lemma CertificateExactly(unit: Json, c: Fields)
    requires IsUnit(unit)
    ensures var r := GetObject(unit.fields, "verificationResult").value;
      IsCertificate(unit, Object(c)) <==> Either(Signed(r), GetObject(r, "certificate")) == Some(c)
  {
    UnitExactly(unit);
    DigOne(unit, "verificationResult");
    DigTwo(unit, "verificationResult", "signature");
    DigThree(unit, "verificationResult", "signature", "certificate");
    DigTwo(unit, "verificationResult", "certificate");
  }

  lemma PartsExactly(unit: Json, s: Fields, c: Fields)
    requires IsUnit(unit)
    ensures Parts(unit) == Some((s, c)) <==>
      && IsStatement(unit, Object(s)) && IsCertificate(unit, Object(c))
      && Get(s, "subject").Some? && Get(s, "subject").value.List?
      && Get(s, "predicateType").Some? && Get(s, "predicateType").value.Text?
  {
    StatementExactly(unit, s);
    CertificateExactly(unit, c);
  }

  lemma InsideExactly(v: Json, fs: Fields)
    ensures fs in Dicts(v) <==> Inside(v, Object(fs))
  {
    WalkVisitsEveryNode(v, Object(fs));
    if fs in Dicts(v) {
      var n :| n in Walk(v) && n.Object? && n.fields == fs;
      assert n == Object(fs);
    }
    if Inside(v, Object(fs)) {
      var n := Object(fs);
      assert exists path :: At(v, path) == Some(n);
      WalkVisitsEveryNode(v, n);
      assert n in Walk(v) && n.Object? && n.fields == fs;
    }
  }

  lemma WorkflowExactly(s: Fields, w: Fields)
    ensures w in WorkflowNodes(s) <==> IsWorkflow(Object(s), Object(w))
  {
    InsideExactly(Object(s), w);
    DigOne(Object(w), "repository");
    DigOne(Object(w), "ref");
    DigOne(Object(w), "path");
    if fs :| fs in Dicts(Object(s)) && GetObject(fs, "workflow") == Some(w) {
      InsideExactly(Object(s), fs);
      DigOne(Object(fs), "workflow");
    }
    if n :| Inside(Object(s), n) && Dig(n, ["workflow"]) == Some(Object(w)) {
      DigOne(n, "workflow");
      InsideExactly(Object(s), n.fields);
      assert GetObject(n.fields, "workflow") == Some(w);
    }
    WorkflowObjectExactly(w);
  }

  lemma WorkflowObjectExactly(w: Fields)
    ensures IsWorkflowObject(w) <==>
      (exists text :: HasText(Object(w), ["repository"], text)) && (exists text :: HasText(Object(w), ["ref"], text)) &&
      (exists text :: HasText(Object(w), ["path"], text) && ".github/workflows/" <= text)
  {
    DigOne(Object(w), "repository");
    DigOne(Object(w), "ref");
    DigOne(Object(w), "path");
    if IsWorkflowObject(w) {
      assert HasText(Object(w), ["repository"], Get(w, "repository").value.text);
      assert HasText(Object(w), ["ref"], Get(w, "ref").value.text);
      assert HasText(Object(w), ["path"], Get(w, "path").value.text);
    }
  }

  lemma OurWorkflowExactly(w: Fields, p: Policy)
    ensures WorkflowMatches(w, p) <==> IsOurWorkflow(Object(w), p)
  {
    DigOne(Object(w), "repository");
    DigOne(Object(w), "path");
    DigOne(Object(w), "ref");
    DigOne(Object(w), "event");
    DigOne(Object(w), "event_name");
  }

  lemma OurCertificateExactly(c: Fields, p: Policy)
    ensures CertificateMatches(c, p) <==>
      HasText(Object(c), ["subjectAlternativeName"], SignerUri(p)) && IsOurCertificate(Object(c), p)
  {
    DigOne(Object(c), "subjectAlternativeName");
    DigOne(Object(c), "sourceRepositoryURI");
    DigOne(Object(c), "githubWorkflowRepository");
    DigOne(Object(c), "buildSignerURI");
    DigOne(Object(c), "sourceRepositoryRef");
    DigOne(Object(c), "githubWorkflowRef");
    DigOne(Object(c), "buildTrigger");
    DigOne(Object(c), "githubWorkflowTrigger");
  }

  lemma SignerExactly(s: Fields, c: Fields, p: Policy)
    ensures SignerBound(s, c, p) <==> SignedAsExpected(Object(s), Object(c), p)
  {
    DigOne(Object(c), "subjectAlternativeName");
    OurCertificateExactly(c, p);
    if fs :| fs in WorkflowNodes(s) && WorkflowMatches(fs, p) {
      WorkflowExactly(s, fs);
      OurWorkflowExactly(fs, p);
    }
    if w :| IsWorkflow(Object(s), w) && IsOurWorkflow(w, p) {
      WorkflowExactly(s, w.fields);
      OurWorkflowExactly(w.fields, p);
    }
  }

  lemma UnderExactly(fs: Fields, keys: set<string>, text: string)
    ensures Text(text) in Under(fs, keys) <==> exists k :: k in keys && HasText(Object(fs), [k], text)
  {
    forall k
      ensures HasText(Object(fs), [k], text) <==> Get(fs, k) == Some(Text(text))
    {
      DigOne(Object(fs), k);
    }
    if Text(text) in Under(fs, keys) {
      var k :| k in keys && Get(fs, k) == Some(Text(text));
      assert HasText(Object(fs), [k], text);
    }
  }

  lemma RevisionExactly(fs: Fields, text: string)
    ensures Text(text) in Under(fs, REVISION_KEYS) <==> OffersRevision(Object(fs), text)
  {
    UnderExactly(fs, REVISION_KEYS, text);
    assert forall k :: k in REVISION_KEYS <==>
      k == "sha" || k == "commit" || k == "revision" || k == "sourceRevision" || k == "source_revision";
  }

  lemma CertificateRevisionExactly(fs: Fields, text: string)
    ensures Text(text) in Under(fs, CERTIFICATE_KEYS) <==> CertificateOffers(Object(fs), text)
  {
    UnderExactly(fs, CERTIFICATE_KEYS, text);
    assert forall k :: k in CERTIFICATE_KEYS <==>
      k == "sourceRepositoryDigest" || k == "githubWorkflowSHA" || k == "sourceRevision" || k == "source_revision";
  }

  lemma NodeKeysExactly(fs: Fields, text: string)
    ensures Text(text) in Under(fs, NODE_KEYS) <==>
      HasText(Object(fs), ["sourceRevision"], text) || HasText(Object(fs), ["source_revision"], text) ||
      HasText(Object(fs), ["workflowRevision"], text) || HasText(Object(fs), ["workflow_revision"], text)
  {
    UnderExactly(fs, NODE_KEYS, text);
    assert forall k :: k in NODE_KEYS <==>
      k == "sourceRevision" || k == "source_revision" || k == "workflowRevision" || k == "workflow_revision";
  }

  lemma DigestExactly(fs: Fields, text: string)
    ensures Text(text) in DigestValues(fs) <==> OffersDigest(Object(fs), text)
  {
    DigOne(Object(fs), "digest");
  }

  lemma OfferExactly(fs: Fields, text: string)
    ensures Text(text) in Under(fs, REVISION_KEYS) + DigestValues(fs) <==>
      OffersRevision(Object(fs), text) || OffersDigest(Object(fs), text)
  {
    RevisionExactly(fs, text);
    DigestExactly(fs, text);
  }

  lemma DependencyExactly(fs: Fields, text: string, p: Policy)
    ensures (exists d :: d in OwnDependencies(fs, p) && Text(text) in Under(d, REVISION_KEYS) + DigestValues(d)) <==>
      DependencyOffers(Object(fs), text, p)
  {
    DigOne(Object(fs), "resolvedDependencies");
    if d :| d in OwnDependencies(fs, p) && Text(text) in Under(d, REVISION_KEYS) + DigestValues(d) {
      OfferExactly(d, text);
      DigOne(Object(d), "uri");
      var uri := Get(d, "uri").value.text;
      assert Object(d) in Get(fs, "resolvedDependencies").value.items && HasText(Object(d), ["uri"], uri);
    }
    if DependencyOffers(Object(fs), text, p) {
      var d, uri :| d in Dig(Object(fs), ["resolvedDependencies"]).value.items && HasText(d, ["uri"], uri) &&
        p.readers.inUri(uri, p.repository) && (OffersRevision(d, text) || OffersDigest(d, text));
      DigOne(d, "uri");
      OfferExactly(d.fields, text);
      assert d.fields in OwnDependencies(fs, p);
    }
  }

  lemma NodeExactly(fs: Fields, text: string, p: Policy)
    ensures Text(text) in NodeRevisions(fs, p) <==> NodeOffers(Object(fs), text, p)
  {
    NodeKeysExactly(fs, text);
    DependencyExactly(fs, text, p);
    DigOne(Object(fs), "configSource");
    var source := GetObject(fs, "configSource");
    if source.Some? {
      OfferExactly(source.value, text);
    }
  }

  lemma OfferingNodeIsObject(n: Json, text: string, p: Policy)
    requires NodeOffers(n, text, p)
    ensures n.Object?
  {
    DigOne(n, "sourceRevision");
    DigOne(n, "source_revision");
    DigOne(n, "workflowRevision");
    DigOne(n, "workflow_revision");
    DigOne(n, "configSource");
    DigOne(n, "resolvedDependencies");
  }

  lemma RevisionsExactly(s: Fields, c: Fields, p: Policy, text: string)
    ensures Text(text) in RevisionValues(s, c, p) <==>
      (exists w :: IsWorkflow(Object(s), w) && OffersRevision(w, text)) || CertificateOffers(Object(c), text) ||
      (exists n :: Inside(Object(s), n) && NodeOffers(n, text, p))
  {
    CertificateRevisionExactly(c, text);
    if fs :| fs in WorkflowNodes(s) && Text(text) in Under(fs, REVISION_KEYS) {
      WorkflowExactly(s, fs);
      RevisionExactly(fs, text);
    }
    if w :| IsWorkflow(Object(s), w) && OffersRevision(w, text) {
      WorkflowExactly(s, w.fields);
      RevisionExactly(w.fields, text);
    }
    if fs :| fs in Dicts(Object(s)) && Text(text) in NodeRevisions(fs, p) {
      InsideExactly(Object(s), fs);
      NodeExactly(fs, text, p);
    }
    if n :| Inside(Object(s), n) && NodeOffers(n, text, p) {
      OfferingNodeIsObject(n, text, p);
      InsideExactly(Object(s), n.fields);
      NodeExactly(n.fields, text, p);
    }
  }

  lemma CommitExactly(s: Fields, c: Fields, p: Policy)
    ensures p.sourceRevision in Commits(RevisionValues(s, c, p), p) <==> CommitShown(Object(s), Object(c), p)
  {
    if p.sourceRevision in Commits(RevisionValues(s, c, p), p) {
      var v :| v in RevisionValues(s, c, p) && v.Text? && p.readers.readCommit(v.text) == Some(p.sourceRevision);
      RevisionsExactly(s, c, p, v.text);
    }
    if CommitShown(Object(s), Object(c), p) {
      var text :| p.readers.readCommit(text) == Some(p.sourceRevision) &&
        ((exists w :: IsWorkflow(Object(s), w) && OffersRevision(w, text)) || CertificateOffers(Object(c), text) ||
         (exists n :: Inside(Object(s), n) && NodeOffers(n, text, p)));
      RevisionsExactly(s, c, p, text);
      assert Text(text) in RevisionValues(s, c, p);
    }
  }

  lemma ReadsExactly(f: Field, run: string, p: Policy)
    ensures RunIdOf(f, p) == Some(run) <==> ReadsAsRun(f.key, f.value, run, p.readers)
  {
    assert f.key in INVOCATION_KEYS <==>
      f.key == "invocationId" || f.key == "invocation_id" || f.key == "runInvocationURI" || f.key == "runInvocationUri";
    assert f.key in RUN_KEYS <==>
      f.key == "runId" || f.key == "run_id" || f.key == "workflow_run_id" || f.key == "workflowRunId";
  }

  lemma RunExactly(v: Fields, run: string, p: Policy)
    ensures run in RunIds(v, p) <==> RunShown(Object(v), run, p.readers)
  {
    if run in RunIds(v, p) {
      var fs, f :| fs in Dicts(Object(v)) && f in fs && RunIdOf(f, p) == Some(run);
      InsideExactly(Object(v), fs);
      ReadsExactly(f, run, p);
      assert Object(fs).fields == fs;
    }
    if RunShown(Object(v), run, p.readers) {
      var n, f :| Inside(Object(v), n) && n.Object? && f in n.fields && ReadsAsRun(f.key, f.value, run, p.readers);
      InsideExactly(Object(v), n.fields);
      ReadsExactly(f, run, p);
    }
  }

  lemma SubjectExactly(s: Fields, p: Policy)
    requires Get(s, "subject").Some? && Get(s, "subject").value.List?
    ensures HasSubject(Get(s, "subject").value.items, p.subjectName, p.subjectDigest)
       <==> SubjectShown(Object(s), p.subjectName, p.subjectDigest)
  {
    DigOne(Object(s), "subject");
    var items := Get(s, "subject").value.items;
    if i :| 0 <= i < |items| && IsSubject(items[i], p.subjectName, p.subjectDigest) {
      DigOne(items[i], "name");
      DigOne(items[i], "digest");
      assert items[i] in items;
    }
    if SubjectShown(Object(s), p.subjectName, p.subjectDigest) {
      var item :| item in items && HasText(item, ["name"], p.subjectName) && HasObject(item, ["digest"]) &&
        Field("sha256", Text(p.subjectDigest)) in Dig(item, ["digest"]).value.fields;
      DigOne(item, "name");
      DigOne(item, "digest");
      var i :| 0 <= i < |items| && items[i] == item;
      assert IsSubject(items[i], p.subjectName, p.subjectDigest);
    }
  }

  /** A unit meets the policy exactly when it shows every piece of evidence. */
  lemma MeetsExactly(unit: Json, p: Policy)
    ensures Meets(unit, p) <==> Shows(unit, p)
  {
    UnitExactly(unit);
    if Meets(unit, p) {
      var (s, c) := Parts(unit).value;
      PartsExactly(unit, s, c);
      PartsMeet(s, c, p);
      assert IsStatement(unit, Object(s)) && IsCertificate(unit, Object(c));
    }
    if Shows(unit, p) {
      var s, c :| IsStatement(unit, s) && IsCertificate(unit, c) &&
        SignedAsExpected(s, c, p) && CommitShown(s, c, p) &&
        (RunShown(s, p.runId, p.readers) || RunShown(c, p.runId, p.readers)) &&
        HasText(s, ["predicateType"], p.predicateType) && SubjectShown(s, p.subjectName, p.subjectDigest);
      DigOne(s, "subject");
      DigOne(s, "predicateType");
      PartsExactly(unit, s.fields, c.fields);
      PartsMeet(s.fields, c.fields, p);
    }
  }

  lemma PartsMeet(s: Fields, c: Fields, p: Policy)
    requires Get(s, "subject").Some? && Get(s, "subject").value.List?
    ensures (SignerBound(s, c, p) && p.sourceRevision in Commits(RevisionValues(s, c, p), p) &&
             p.runId in RunIds(s, p) + RunIds(c, p) && Get(s, "predicateType") == Some(Text(p.predicateType)) &&
             HasSubject(Get(s, "subject").value.items, p.subjectName, p.subjectDigest))
       <==> (SignedAsExpected(Object(s), Object(c), p) && CommitShown(Object(s), Object(c), p) &&
             (RunShown(Object(s), p.runId, p.readers) || RunShown(Object(c), p.runId, p.readers)) &&
             HasText(Object(s), ["predicateType"], p.predicateType) &&
             SubjectShown(Object(s), p.subjectName, p.subjectDigest))
  {
    SignerExactly(s, c, p);
    CommitExactly(s, c, p);
    RunExactly(s, p.runId, p);
    RunExactly(c, p.runId, p);
    DigOne(Object(s), "predicateType");
    SubjectExactly(s, p);
  }

  /** A payload is verified exactly when an outermost unit shows every piece of evidence by itself. */
  lemma VerifiedExactly(payload: Json, p: Policy)
    ensures Filter(Units(payload), Meeting(p)) != []
       <==> exists path :: OutermostAt(payload, path) && Shows(At(payload, path).value, p)
    ensures MatchCount(payload, Meeting(p)) > 0
       <==> exists path :: OutermostAt(payload, path) && Shows(At(payload, path).value, p)
  {
    VerifiedByOneUnit(payload, Meeting(p));
    forall path: Path | OutermostAt(payload, path)
      ensures Meeting(p)(At(payload, path).value) <==> Shows(At(payload, path).value, p)
    {
      MeetsExactly(At(payload, path).value, p);
    }
  }

  // ------------------------------------------------------------------ the expected values

  /** `text` is the passed value without outer space, and not empty. */
  predicate IsPassed(value: Option<string>, text: string, r: Readers) {
    value.Some? && r.rules.strip(value.value) == text && text != ""
  }

  /** The policy holds the passed values, stripped, checked and read, each in its place. */
  lemma PolicyExactly(e: Expected, r: Readers, p: Policy)
    ensures PolicyFor(e, r) == Some(p) <==>
      && p.readers == r
      && IsPassed(e.subjectName, p.subjectName, r) && IsPassed(e.predicateType, p.predicateType, r)
      && (exists text :: IsPassed(e.subjectDigest, text, r) && r.readDigest(text) == Some(p.subjectDigest))
      && e.repository.Some? && r.readRepository(e.repository.value) == Some(p.repository)
      && IsPassed(e.workflow, p.workflow, r) && r.workflowPath(p.workflow)
      && IsPassed(e.sourceRevision, p.sourceRevision, r) && r.rules.gitObject(p.sourceRevision)
      && IsPassed(e.event, p.event, r) && IsPassed(e.ref, p.ref, r)
      && IsPassed(e.runId, p.runId, r) && r.rules.positiveInteger(p.runId)
  {
    if e.subjectDigest.Some? {
      var text := r.rules.strip(e.subjectDigest.value);
      assert IsPassed(e.subjectDigest, text, r) <==> text != "";
    }
  }
}
