/** The release provenance record: the generator that builds it and the verifier that accepts it. */
module Provenance {
  import opened Wrappers
  import opened Bindings

  datatype Record = Record(
    tag: string, commit: string, tree: string, tagObject: string,
    controlRevision: string, workflowRevision: string, runId: string, attempt: string,
    event: string, ref: string, refProtected: string, repository: string)

  predicate ReleaseEvent(event: string) {
    event in {"push", "workflow_dispatch"}
  }

  function ExpectedRef(event: string, tag: string): string {
    if event == "workflow_dispatch" then "refs/heads/main" else "refs/tags/" + tag
  }

  predicate ProtectionAllowed(event: string, refProtected: string) {
    refProtected in {"true", "false"} && (event == "workflow_dispatch" ==> refProtected == "true")
  }

  // ------------------------------------------------------------------ the generator

  /** An environment variable with the value used when it is not set. */
  datatype Context = Context(variable: Option<string>, fallback: Option<string>) {
    function Chosen(): Option<string> {
      if variable.Some? then variable else fallback
    }
  }

  /** The generator's inputs. `commit`, `tree` and `tagObject` are what Git printed. */
  datatype Inputs = Inputs(
    tag: string, commit: string, tree: string, tagObject: string, repository: string, runIdArgument: string,
    workflowRepository: Context, controlRevision: Context, workflowRevision: Context,
    runId: Option<string>, attempt: Context, event: Context, ref: Context, refProtected: Context)

  function Build(c: Rules, i: Inputs): Option<Record> {
    if !c.tag(i.tag) then None else
    var repository := c.Repository(Some(i.repository));
    var workflowRepository := c.Repository(c.Text(i.workflowRepository.Chosen()));
    if repository.None? || workflowRepository != repository then None else
    var commit := c.GitObject(Some(c.strip(i.commit)));
    var tree := c.GitObject(Some(c.strip(i.tree)));
    var tagObject := c.GitObject(Some(c.strip(i.tagObject)));
    var control := c.GitObject(c.Text(i.controlRevision.Chosen()));
    var workflow := c.GitObject(c.Text(i.workflowRevision.Chosen()));
    if commit.None? || tree.None? || tagObject.None? || control.None? || control != workflow then None else
    var argument := c.PositiveInteger(Some(i.runIdArgument));
    var runId := c.PositiveInteger(c.Text(Context(i.runId, Some(i.runIdArgument)).Chosen()));
    var attempt := c.PositiveInteger(c.Text(i.attempt.Chosen()));
    if argument.None? || runId != argument || attempt.None? then None else
    var event := c.Text(i.event.Chosen());
    if event.None? || !ReleaseEvent(event.value) then None else
    var ref := c.Text(c.Text(i.ref.Chosen()));
    if ref != Some(ExpectedRef(event.value, i.tag)) then None else
    var refProtected := c.Text(i.refProtected.Chosen());
    if refProtected.None? || !ProtectionAllowed(event.value, refProtected.value) then None else
    Some(Record(i.tag, commit.value, tree.value, tagObject.value, control.value, workflow.value,
                runId.value, attempt.value, event.value, ref.value, refProtected.value, repository.value))
  }

  // ------------------------------------------------------------------ the receipt

  /** JSON objects with text fields; a field that is missing or not text is None. */
  datatype Fields = Fields(
    tag: Option<string>, commit: Option<string>, tree: Option<string>, tagObject: Option<string>,
    controlRevision: Option<string>, workflowRevision: Option<string>, runId: Option<string>,
    attempt: Option<string>, event: Option<string>, ref: Option<string>,
    refProtected: Option<string>, repository: Option<string>)

  datatype Provided = Absent | NotAnObject | Object(fields: Fields)

  datatype Release = Release(
    repository: Option<string>, tag: Option<string>, commit: Option<string>, tree: Option<string>)

  datatype Run = Run(
    id: Option<string>, attempt: Option<string>, event: Option<string>, ref: Option<string>,
    repository: Option<string>)

  datatype Receipt = Receipt(provenance: Provided, release: Option<Release>, run: Option<Run>)

  function FieldsOf(p: Record): Fields {
    Fields(Some(p.tag), Some(p.commit), Some(p.tree), Some(p.tagObject), Some(p.controlRevision),
           Some(p.workflowRevision), Some(p.runId), Some(p.attempt), Some(p.event), Some(p.ref),
           Some(p.refProtected), Some(p.repository))
  }

  /** The parts of the receipt that repeat the record. */
  function ReceiptFor(c: Rules, i: Inputs, p: Record): Receipt {
    Receipt(Object(FieldsOf(p)),
            Some(Release(Some(p.repository), Some(i.tag), Some(c.strip(i.commit)), Some(c.strip(i.tree)))),
            Some(Run(Some(p.runId), Some(p.attempt), Some(p.event), Some(p.ref), Some(p.repository))))
  }

  // ------------------------------------------------------------------ the verifier

  datatype Expectations = Expectations(
    tagObject: Option<string>, tagTree: Option<string>, controlRevision: Option<string>,
    workflowRevision: Option<string>, runId: Option<string>, attempt: Option<string>,
    event: Option<string>, ref: Option<string>, refProtected: Option<string>, repository: Option<string>) {

    function All(): seq<Option<string>> {
      [tagObject, tagTree, controlRevision, workflowRevision, runId, attempt, event, ref, refProtected, repository]
    }
  }

  function Compared(p: Record): seq<string> {
    [p.tagObject, p.tree, p.controlRevision, p.workflowRevision, p.runId, p.attempt, p.event, p.ref,
     p.refProtected, p.repository]
  }

  predicate Meets(c: Rules, expected: Expectations, p: Record) {
    forall k :: 0 <= k < 10 && expected.All()[k].Some? ==>
      c.Text(expected.All()[k]) == Some(Compared(p)[k])
  }

  predicate Complete(expected: Expectations) {
    forall k :: 0 <= k < 10 ==> expected.All()[k].Some?
  }

  datatype Verdict = Rejected | Legacy | Accepted(record: Record)

  function ReadRecord(c: Rules, f: Fields, tag: string): Option<Record> {
    var sourceTag := c.Text(f.tag);
    if sourceTag.None? || !c.tag(sourceTag.value) then None else
    var commit := c.GitObject(f.commit);
    var tree := c.GitObject(f.tree);
    var tagObject := c.GitObject(f.tagObject);
    var control := c.GitObject(f.controlRevision);
    var workflow := c.GitObject(f.workflowRevision);
    if commit.None? || tree.None? || tagObject.None? || control.None? || workflow.None? then None else
    var runId := c.PositiveInteger(f.runId);
    var attempt := c.PositiveInteger(f.attempt);
    var event := c.Text(f.event);
    if runId.None? || attempt.None? || event.None? || !ReleaseEvent(event.value) then None else
    var ref := c.Text(f.ref);
    if ref != Some(ExpectedRef(event.value, tag)) then None else
    var refProtected := c.Text(f.refProtected);
    if refProtected.None? || !ProtectionAllowed(event.value, refProtected.value) then None else
    var repository := c.Repository(f.repository);
    if repository.None? then None else
    Some(Record(sourceTag.value, commit.value, tree.value, tagObject.value, control.value, workflow.value,
                runId.value, attempt.value, event.value, ref.value, refProtected.value, repository.value))
  }

  predicate MatchesRelease(c: Rules, p: Record, release: Release, tag: string, commit: string) {
    && c.GitObject(release.tree).Some? && c.Repository(release.repository).Some?
    && p.tag == tag && Some(p.tag) == release.tag
    && p.commit == commit && Some(p.commit) == release.commit
    && Some(p.tree) == c.GitObject(release.tree)
    && Some(p.repository) == c.Repository(release.repository)
    && p.controlRevision == p.workflowRevision
  }

  predicate MatchesRun(c: Rules, p: Record, run: Run) {
    && c.PositiveInteger(run.id) == Some(p.runId)
    && c.PositiveInteger(run.attempt) == Some(p.attempt)
    && c.Text(run.event) == Some(p.event)
    && c.Text(run.ref) == Some(p.ref)
    && c.Repository(run.repository) == Some(p.repository)
  }

  function Verify(c: Rules, r: Receipt, tag: string, commit: string, expected: Expectations, strict: bool): Verdict {
    match r.provenance
    case Absent =>
      if strict || exists k :: 0 <= k < 10 && expected.All()[k].Some? then Rejected else Legacy
    case NotAnObject => Rejected
    case Object(f) =>
      if strict && !Complete(expected) then Rejected else
      match ReadRecord(c, f, tag)
      case None => Rejected
      case Some(p) =>
        if r.release.Some? && MatchesRelease(c, p, r.release.value, tag, commit) &&
           r.run.Some? && MatchesRun(c, p, r.run.value) && Meets(c, expected, p)
        then Accepted(p) else Rejected
  }

  // ------------------------------------------------------------------ each side accepts the other

  /** Every field is already in the form its check returns. */
  ghost predicate Settled(c: Rules, p: Record) {
    && c.tag(p.tag)
    && c.GitObject(Some(p.commit)) == Some(p.commit)
    && c.GitObject(Some(p.tree)) == Some(p.tree)
    && c.GitObject(Some(p.tagObject)) == Some(p.tagObject)
    && c.GitObject(Some(p.controlRevision)) == Some(p.controlRevision)
    && p.controlRevision == p.workflowRevision
    && c.PositiveInteger(Some(p.runId)) == Some(p.runId)
    && c.PositiveInteger(Some(p.attempt)) == Some(p.attempt)
    && c.Text(Some(p.event)) == Some(p.event) && ReleaseEvent(p.event)
    && c.Text(Some(p.ref)) == Some(p.ref) && p.ref == ExpectedRef(p.event, p.tag)
    && c.Text(Some(p.refProtected)) == Some(p.refProtected)
    && ProtectionAllowed(p.event, p.refProtected)
    && c.Repository(Some(p.repository)) == Some(p.repository)
  }

  /** Checking a second time changes nothing, so what the generator writes is settled. */
  lemma BuiltIsSettled(c: Rules, i: Inputs)
    requires c.Lawful() && Build(c, i).Some?
    ensures Settled(c, Build(c, i).value)
    ensures c.strip(i.commit) == Build(c, i).value.commit && c.strip(i.tree) == Build(c, i).value.tree
  {
  }

  lemma SettledIsRead(c: Rules, p: Record)
    requires c.Lawful() && Settled(c, p)
    ensures ReadRecord(c, FieldsOf(p), p.tag) == Some(p)
  {
  }

  /** The receipt of a built record is accepted, and the record comes back unchanged, exactly when it
      meets what the caller expects (and, in strict mode, everything is expected). */
  lemma BuiltIsVerified(c: Rules, i: Inputs, expected: Expectations, strict: bool)
    requires c.Lawful() && Build(c, i).Some?
    ensures var p := Build(c, i).value;
      Verify(c, ReceiptFor(c, i, p), i.tag, c.strip(i.commit), expected, strict)
      == if Meets(c, expected, p) && (strict ==> Complete(expected)) then Accepted(p) else Rejected
  {
    var p := Build(c, i).value;
    BuiltIsSettled(c, i);
    SettledIsRead(c, p);
    assert MatchesRelease(c, p, ReceiptFor(c, i, p).release.value, i.tag, c.strip(i.commit));
    assert MatchesRun(c, p, ReceiptFor(c, i, p).run.value);
  }

  /** The inputs under which the generator would have built `p`. */
  function InputsFor(p: Record): Inputs {
    Inputs(p.tag, p.commit, p.tree, p.tagObject, p.repository, p.runId,
           Context(Some(p.repository), None), Context(Some(p.controlRevision), None),
           Context(Some(p.workflowRevision), None), Some(p.runId), Context(Some(p.attempt), None),
           Context(Some(p.event), None), Context(Some(p.ref), None), Context(Some(p.refProtected), None))
  }

  lemma ReadIsSettled(c: Rules, f: Fields, tag: string)
    requires c.Lawful() && ReadRecord(c, f, tag).Some?
    requires ReadRecord(c, f, tag).value.tag == tag
    requires ReadRecord(c, f, tag).value.controlRevision == ReadRecord(c, f, tag).value.workflowRevision
    ensures Settled(c, ReadRecord(c, f, tag).value)
  {
  }

  /** Conversely the verifier accepts nothing that the generator could not have built. */
  lemma AcceptedIsBuildable(c: Rules, r: Receipt, tag: string, commit: string, expected: Expectations, strict: bool)
    requires c.Lawful() && Verify(c, r, tag, commit, expected, strict).Accepted?
    ensures var p := Verify(c, r, tag, commit, expected, strict).record;
      Build(c, InputsFor(p)) == Some(p) && Meets(c, expected, p) && p.tag == tag && p.commit == commit
  {
    ReadIsSettled(c, r.provenance.fields, tag);
  }

  ghost predicate CanBeBuilt(c: Rules, p: Record) {
    exists i :: Build(c, i) == Some(p)
  }

  ghost predicate CanBeAccepted(c: Rules, p: Record) {
    exists r, tag, commit, expected, strict :: Verify(c, r, tag, commit, expected, strict) == Accepted(p)
  }

  lemma BuiltCanBeAccepted(c: Rules, i: Inputs)
    requires c.Lawful() && Build(c, i).Some?
    ensures CanBeAccepted(c, Build(c, i).value)
  {
    var none := Expectations(None, None, None, None, None, None, None, None, None, None);
    BuiltIsVerified(c, i, none, false);
  }

  /** Both directions at once: a record can be accepted exactly when it can be built. */
  lemma GeneratorAndVerifierAgree(c: Rules, p: Record)
    requires c.Lawful()
    ensures CanBeBuilt(c, p) <==> CanBeAccepted(c, p)
  {
    if CanBeBuilt(c, p) {
      var i :| Build(c, i) == Some(p);
      BuiltCanBeAccepted(c, i);
    }
    if CanBeAccepted(c, p) {
      var r, tag, commit, expected, strict :| Verify(c, r, tag, commit, expected, strict) == Accepted(p);
      AcceptedIsBuildable(c, r, tag, commit, expected, strict);
    }
  }

  // ------------------------------------------------------------------ what acceptance says, field by field

  /** `text` is the value without outer space, and not empty. */
  predicate IsText(c: Rules, value: Option<string>, text: string) {
    value.Some? && c.strip(value.value) == text && text != ""
  }

  predicate IsGitObject(c: Rules, value: Option<string>, text: string) {
    IsText(c, value, text) && c.gitObject(text)
  }

  predicate IsNumber(c: Rules, value: Option<string>, text: string) {
    IsText(c, value, text) && c.positiveInteger(text)
  }

  predicate IsRepository(c: Rules, value: Option<string>, text: string) {
    IsText(c, value, text) && c.repository(text)
  }

  /** A push runs on the tag, a dispatch on the protected main branch. */
  predicate EventAllowed(p: Record, tag: string) {
    (p.event == "push" && p.ref == "refs/tags/" + tag && (p.refProtected == "true" || p.refProtected == "false")) ||
    (p.event == "workflow_dispatch" && p.ref == "refs/heads/main" && p.refProtected == "true")
  }

  /** The provenance object says what the record does. */
  predicate FieldsSay(c: Rules, f: Fields, p: Record) {
    && IsText(c, f.tag, p.tag) && c.tag(p.tag)
    && IsGitObject(c, f.commit, p.commit) && IsGitObject(c, f.tree, p.tree) && IsGitObject(c, f.tagObject, p.tagObject)
    && IsGitObject(c, f.controlRevision, p.controlRevision) && IsGitObject(c, f.workflowRevision, p.workflowRevision)
    && IsNumber(c, f.runId, p.runId) && IsNumber(c, f.attempt, p.attempt)
    && IsText(c, f.event, p.event) && IsText(c, f.ref, p.ref) && IsText(c, f.refProtected, p.refProtected)
    && IsRepository(c, f.repository, p.repository)
  }

  predicate ReleaseSays(c: Rules, r: Release, p: Record) {
    && r.tag == Some(p.tag) && r.commit == Some(p.commit)
    && IsGitObject(c, r.tree, p.tree) && IsRepository(c, r.repository, p.repository)
  }

  predicate RunSays(c: Rules, r: Run, p: Record) {
    && IsNumber(c, r.id, p.runId) && IsNumber(c, r.attempt, p.attempt)
    && IsText(c, r.event, p.event) && IsText(c, r.ref, p.ref) && IsRepository(c, r.repository, p.repository)
  }

  /** An expected value is the recorded one, or is not given when it need not be. */
  predicate Agrees(c: Rules, expected: Option<string>, actual: string, strict: bool) {
    IsText(c, expected, actual) || (expected.None? && !strict)
  }

  predicate AllAgree(c: Rules, e: Expectations, p: Record, strict: bool) {
    && Agrees(c, e.tagObject, p.tagObject, strict) && Agrees(c, e.tagTree, p.tree, strict)
    && Agrees(c, e.controlRevision, p.controlRevision, strict)
    && Agrees(c, e.workflowRevision, p.workflowRevision, strict)
    && Agrees(c, e.runId, p.runId, strict) && Agrees(c, e.attempt, p.attempt, strict)
    && Agrees(c, e.event, p.event, strict) && Agrees(c, e.ref, p.ref, strict)
    && Agrees(c, e.refProtected, p.refProtected, strict) && Agrees(c, e.repository, p.repository, strict)
  }

  lemma ReadExactly(c: Rules, f: Fields, tag: string, p: Record)
    requires p.tag == tag
    ensures ReadRecord(c, f, tag) == Some(p) <==> FieldsSay(c, f, p) && EventAllowed(p, tag)
  {
  }

  lemma ExpectationsExactly(c: Rules, e: Expectations, p: Record, strict: bool)
    ensures Meets(c, e, p) && (strict ==> Complete(e)) <==> AllAgree(c, e, p, strict)
  {
    var es, ps := e.All(), Compared(p);
    if Meets(c, e, p) && (strict ==> Complete(e)) {
      forall k | 0 <= k < 10
        ensures Agrees(c, es[k], ps[k], strict)
      {
        assert es[k].Some? ==> c.Text(es[k]) == Some(ps[k]);
      }
      assert Agrees(c, es[0], ps[0], strict) && Agrees(c, es[1], ps[1], strict) && Agrees(c, es[2], ps[2], strict);
      assert Agrees(c, es[3], ps[3], strict) && Agrees(c, es[4], ps[4], strict) && Agrees(c, es[5], ps[5], strict);
      assert Agrees(c, es[6], ps[6], strict) && Agrees(c, es[7], ps[7], strict) && Agrees(c, es[8], ps[8], strict);
      assert Agrees(c, es[9], ps[9], strict);
    }
  }

  /** A record is accepted exactly when the provenance object, the release block and the run block all say it, its
      event, ref and protection go together, both revisions are one, it is of the given tag and commit, and every
      expected value agrees, none of them missing in strict mode. */
  lemma AcceptedExactly(
    c: Rules, r: Receipt, tag: string, commit: string, expected: Expectations, strict: bool, p: Record)
    ensures Verify(c, r, tag, commit, expected, strict) == Accepted(p) <==>
      && r.provenance.Object? && FieldsSay(c, r.provenance.fields, p) && EventAllowed(p, tag)
      && p.tag == tag && p.commit == commit && p.controlRevision == p.workflowRevision
      && r.release.Some? && ReleaseSays(c, r.release.value, p) && r.run.Some? && RunSays(c, r.run.value, p)
      && AllAgree(c, expected, p, strict)
  {
    ExpectationsExactly(c, expected, p, strict);
    if r.provenance.Object? && p.tag == tag {
      ReadExactly(c, r.provenance.fields, tag, p);
    }
  }

  /** A receipt without a provenance object is let through exactly when nothing is demanded of it. */
  lemma LegacyExactly(c: Rules, r: Receipt, tag: string, commit: string, expected: Expectations, strict: bool)
    ensures Verify(c, r, tag, commit, expected, strict) == Legacy <==>
      r.provenance.Absent? && !strict &&
      expected == Expectations(None, None, None, None, None, None, None, None, None, None)
  {
    var es := expected.All();
    assert es[0] == expected.tagObject && es[1] == expected.tagTree && es[2] == expected.controlRevision;
    assert es[3] == expected.workflowRevision && es[4] == expected.runId && es[5] == expected.attempt;
    assert es[6] == expected.event && es[7] == expected.ref && es[8] == expected.refProtected;
    assert es[9] == expected.repository;
  }

  /** What a variable or its fallback says, stripped. */
  predicate Says(c: Rules, x: Context, text: string) {
    IsText(c, if x.variable.Some? then x.variable else x.fallback, text)
  }

  /** A record is built exactly from inputs that say it: the tag as given, the Git objects as printed, every other
      value by its variable or fallback, with one repository, one revision and one run id throughout. */
  lemma BuiltExactly(c: Rules, i: Inputs, p: Record)
    requires c.Lawful()
    ensures Build(c, i) == Some(p) <==>
      && p.tag == i.tag && c.tag(p.tag) && EventAllowed(p, i.tag) && p.controlRevision == p.workflowRevision
      && IsGitObject(c, Some(i.commit), p.commit) && IsGitObject(c, Some(i.tree), p.tree)
      && IsGitObject(c, Some(i.tagObject), p.tagObject)
      && Says(c, i.controlRevision, p.controlRevision) && c.gitObject(p.controlRevision)
      && Says(c, i.workflowRevision, p.workflowRevision)
      && IsNumber(c, Some(i.runIdArgument), p.runId) && Says(c, Context(i.runId, Some(i.runIdArgument)), p.runId)
      && Says(c, i.attempt, p.attempt) && c.positiveInteger(p.attempt)
      && Says(c, i.event, p.event) && Says(c, i.ref, p.ref) && Says(c, i.refProtected, p.refProtected)
      && IsRepository(c, Some(i.repository), p.repository) && Says(c, i.workflowRepository, p.repository)
  {
  }
}
