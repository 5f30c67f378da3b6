/** Replacing an installed skill tree: staging, moving the old tree aside, swapping, checking, and
    rolling back when any step fails. */
module SkillSwap {
  import opened Wrappers
  import opened Octets
  import opened SkillNames

  /** A directory: relative names and file contents. */
  type Tree = map<Bytes, Bytes>

  datatype AuditStatus = Ready | UpgradeReady | UpToDate | ManualReview

  /** What the caller asks for. `files` are the payload's items in order; `expected` is the release's
      own tree hash, when it has one. */
  datatype Request = Request(
    status: AuditStatus, files: seq<(Bytes, Bytes)>, expected: Option<string>, allowed: bool, dryRun: bool)

  /** Everything the environment decides. A removal that ignores errors leaves some tree or nothing. */
  datatype Faults = Faults(
    prepareRaises: bool,           // creating the parent or the staging directory
    stagingStopsAt: Option<nat>,   // writing this item raises, as it does below a name that is a file
    staleLeft: Option<Tree>,       // what removing a stale aside directory leaves of it
    moveAsideRaises: bool,
    swapRaises: bool,
    disturbed: Option<Tree>,       // the installed tree was changed before it is read back
    readRaises: bool,
    unreadable: set<Bytes>,        // files the read-back skips because reading them raises
    cleanupLeft: Option<Tree>,     // what removing the old tree after success leaves
    stagingLeft: Option<Tree>,     // what the rollback's removal of the staging directory leaves
    targetLeft: Option<Tree>,      // what the rollback's removal of the target leaves
    restoreRaises: bool)

  /** `Refused` is the "failed" that the checks before the update return, `Failed` the one after a
      rollback, and `Raised` an exception that leaves the function. */
  datatype Outcome = Skipped | Refused | Planned | Raised | Failed | Updated

  function TreeOf(files: seq<(Bytes, Bytes)>): Tree {
    if files == [] then map[]
    else TreeOf(files[..|files| - 1])[files[|files| - 1].0 := files[|files| - 1].1]
  }

  /** The hash, the path rule and what path handling makes of a name stay parameters. */
  datatype Policy = Policy(hash: Tree -> string, safe: Bytes -> bool, path: Bytes -> Bytes) {
    ghost predicate Lawful() {
      && (forall n :: path(path(n)) == path(n))
      && (forall n :: safe(n) ==> safe(path(n)))
    }

    /** The payload as the names on disk will have it. */
    function OnDisk(files: seq<(Bytes, Bytes)>): (r: seq<(Bytes, Bytes)>)
      ensures |r| == |files| && forall i :: 0 <= i < |files| ==> r[i] == (path(files[i].0), files[i].1)
    {
      seq(|files|, i requires 0 <= i < |files| => (path(files[i].0), files[i].1))
    }

    /** The directory that staging fills. */
    function Staged(files: seq<(Bytes, Bytes)>): Tree {
      TreeOf(OnDisk(files))
    }

    /** No name changes on its way through the file system. */
    predicate PathNormal(files: seq<(Bytes, Bytes)>) {
      forall i :: 0 <= i < |files| ==> path(files[i].0) == files[i].0
    }

    /** What reading a directory back returns: the readable files with safe names. */
    function ReadBack(t: Tree, unreadable: set<Bytes>): Tree {
      map n | n in t && safe(n) && n !in unreadable :: t[n]
    }

    predicate Safe(files: seq<(Bytes, Bytes)>) {
      forall i :: 0 <= i < |files| ==> safe(files[i].0)
    }
  }

  /** `os.replace` on directories: the destination must be absent or empty. */
  predicate CanReplace(source: Option<Tree>, destination: Option<Tree>) {
    source.Some? && (destination.None? || destination.value == map[])
  }

  // ------------------------------------------------------------------ what the environment spoils

  /** The rollback's own removal and rename work. */
  predicate Reliable(f: Faults) {
    f.targetLeft.None? && !f.restoreRaises
  }

  /** A stale aside directory could not be cleared, so the old tree was not moved there. */
  predicate AsideBlocked(f: Faults, previous: Option<Tree>) {
    previous.Some? && f.staleLeft.Some? && (f.staleLeft.value != map[] || f.moveAsideRaises)
  }

  predicate StagingFails(f: Faults, files: seq<(Bytes, Bytes)>) {
    f.stagingStopsAt.Some? && f.stagingStopsAt.value < |files|
  }

  /** Exactly when a failed update leaves the target as it was. */
  predicate KeepsOldTree(f: Faults, files: seq<(Bytes, Bytes)>, target: Option<Tree>, previous: Option<Tree>) {
    target.None? ||
    (!StagingFails(f, files) && (AsideBlocked(f, previous) ==> f.staleLeft == target))
  }

  /** What stands at the target when it is read back. */
  function Landed(f: Faults, files: seq<(Bytes, Bytes)>, p: Policy): Tree {
    if f.disturbed.Some? then f.disturbed.value else p.Staged(files)
  }

  predicate MovesAside(f: Faults, target: Option<Tree>, previous: Option<Tree>) {
    target.None? ||
    (!f.moveAsideRaises && CanReplace(target, if previous.Some? then f.staleLeft else None))
  }

  /** Exactly when the update goes through: every step works and the tree read back has the hash. */
  predicate Succeeds(
    f: Faults, files: seq<(Bytes, Bytes)>, expected: string, p: Policy, target: Option<Tree>, previous: Option<Tree>)
  {
    !StagingFails(f, files) && MovesAside(f, target, previous) && !f.swapRaises && !f.readRaises &&
    p.hash(p.ReadBack(Landed(f, files, p), f.unreadable)) == expected
  }

  /** The checks before anything is written. */
  predicate Permitted(q: Request, p: Policy) {
    q.files != [] && q.allowed && p.Safe(q.files) &&
    (q.expected.Some? ==> q.expected.value == p.hash(TreeOf(q.files)))
  }

  predicate Wanted(q: Request) {
    q.status == Ready || q.status == UpgradeReady
  }

  predicate NoFault(f: Faults, files: seq<(Bytes, Bytes)>) {
    !f.prepareRaises && !StagingFails(f, files) && f.staleLeft.None? && !f.moveAsideRaises &&
    !f.swapRaises && f.disturbed.None? && !f.readRaises && f.unreadable == {} && f.cleanupLeft.None?
  }

  /** The three directories the update works on. */
  class Site {
    var target: Option<Tree>
    var staging: Option<Tree>
    var previous: Option<Tree>

    method Stage(files: seq<(Bytes, Bytes)>, p: Policy, f: Faults) returns (raised: bool)
      modifies this`staging
      ensures raised <==> StagingFails(f, files)
      ensures !raised ==> staging == Some(p.Staged(files))
    {
      var tree: Tree := map[];
      staging := Some(tree);
      for i := 0 to |files|
        invariant f.stagingStopsAt.Some? ==> i <= f.stagingStopsAt.value
        invariant tree == p.Staged(files[..i]) && staging == Some(tree)
      {
        if f.stagingStopsAt == Some(i) {
          return true;
        }
        assert p.OnDisk(files[..i + 1])[..i] == p.OnDisk(files[..i]);
        tree := tree[p.path(files[i].0) := files[i].1];
        staging := Some(tree);
      }
      assert files[..|files|] == files;
      return false;
    }

    /** The body of the `try`. `aside` says that a name for the old tree has been chosen. */
    method Install(files: seq<(Bytes, Bytes)>, expected: string, p: Policy, f: Faults)
      returns (raised: bool, aside: bool)
      modifies this
      ensures !raised <==> Succeeds(f, files, expected, p, old(target), old(previous))
      ensures !raised ==> target == Some(Landed(f, files, p)) && staging.None?
      ensures !raised && f.cleanupLeft.None? && old(target).Some? ==> previous.None?
      ensures raised && StagingFails(f, files) ==>
        !aside && target == old(target) && previous == old(previous)
      ensures raised && !StagingFails(f, files) ==> (aside <==> old(target).Some?)
      ensures raised && !StagingFails(f, files) && old(target).None? ==> previous == old(previous)
      ensures raised && !StagingFails(f, files) && old(target).Some? ==>
        if AsideBlocked(f, old(previous)) then target == old(target) && previous == f.staleLeft
        else (target == old(target) && previous.None?) || previous == old(target)
    {
      raised, aside := true, false;
      var stopped := Stage(files, p, f);
      if stopped {
        return;
      }
      if target.Some? {
        aside := true;
        if previous.Some? {
          previous := f.staleLeft;
        }
        if f.moveAsideRaises || !CanReplace(target, previous) {
          return;
        }
        previous, target := target, None;
      }
      if f.swapRaises || !CanReplace(staging, target) {
        return;
      }
      target, staging := staging, None;
      if f.disturbed.Some? {
        target := f.disturbed;
      }
      if f.readRaises {
        return;
      }
      if p.hash(p.ReadBack(target.value, f.unreadable)) != expected {
        return;
      }
      if aside && previous.Some? {
        previous := f.cleanupLeft;
      }
      raised := false;
    }

    /** The body of the `except`. */
    method Rollback(aside: bool, f: Faults)
      modifies this
      ensures old(staging).None? ==> staging.None?
      ensures aside && old(previous).None? ==> target == old(target) && previous == old(previous)
      ensures !aside ==>
        previous == old(previous) && target == (if old(target).Some? then f.targetLeft else None)
      ensures aside && old(previous).Some? ==>
        (target == old(previous) && previous.None?) || (!Reliable(f) && previous == old(previous))
    {
      if staging.Some? {
        staging := f.stagingLeft;
      }
      if aside && previous.Some? {
        if target.Some? {
          target := f.targetLeft;
        }
        if !f.restoreRaises && CanReplace(previous, target) {
          target, previous := previous, None;
        }
      } else if target.Some? && !aside {
        target := f.targetLeft;
      }
    }

    method ApplySkillUpdate(q: Request, p: Policy, f: Faults) returns (r: Outcome)
      modifies this
      // Nothing is touched before the update starts.
      ensures r in {Skipped, Refused, Planned, Raised} ==>
        target == old(target) && staging == old(staging) && previous == old(previous)
      ensures r == Skipped <==> !Wanted(q)
      ensures r == Refused <==> Wanted(q) && !Permitted(q, p)
      ensures r == Planned <==> Wanted(q) && Permitted(q, p) && q.dryRun
      ensures r == Raised <==> Wanted(q) && Permitted(q, p) && !q.dryRun && f.prepareRaises
      // What is refused before anything is written.
      ensures r == Refused <==>
        (q.status == Ready || q.status == UpgradeReady) &&
        (q.files == [] || !q.allowed || (exists i :: 0 <= i < |q.files| && !p.safe(q.files[i].0)) ||
         (q.expected.Some? && q.expected.value != p.hash(TreeOf(q.files))))
      // An update that starts succeeds exactly when every step works, and then the tree read back
      // from the target hashes like the payload.
      ensures r in {Failed, Updated} ==>
        (r == Updated <==> Succeeds(f, q.files, p.hash(TreeOf(q.files)), p, old(target), old(previous)))
      ensures r == Updated ==>
        target.Some? && staging.None? && p.hash(p.ReadBack(target.value, f.unreadable)) == p.hash(TreeOf(q.files))
      ensures r == Updated ==>
        p.hash(map n | n in target.value && p.safe(n) && n !in f.unreadable :: target.value[n])
        == p.hash(TreeOf(q.files))
      // Failure restores the old tree, or the absence of one, exactly under this condition.
      ensures r == Failed && Reliable(f) ==>
        (target == old(target) <==> KeepsOldTree(f, q.files, old(target), old(previous)))
      // Even when the rollback itself fails, the old tree is still in one of two places.
      ensures r == Failed && old(target).Some? && !StagingFails(f, q.files) && !AsideBlocked(f, old(previous)) ==>
        target == old(target) || previous == old(target)
      // The earlier case: a fault while staging deletes a target that was there before.
      ensures r == Failed && Reliable(f) && StagingFails(f, q.files) ==> target.None?
      // Without faults the payload is installed exactly when its names, as the disk has them, hash like it.
      ensures Wanted(q) && Permitted(q, p) && !q.dryRun && NoFault(f, q.files) && p.Lawful() ==>
        (r == Updated <==> p.hash(p.Staged(q.files)) == p.hash(TreeOf(q.files)))
      ensures r == Updated && NoFault(f, q.files) ==>
        target == Some(p.Staged(q.files)) && (old(target).Some? ==> previous.None?)
    {
      if q.status != Ready && q.status != UpgradeReady {
        return Skipped;
      }
      if q.files == [] || !q.allowed {
        return Refused;
      }
      var actual := p.hash(TreeOf(q.files));
      if q.expected.Some? && q.expected.value != actual {
        return Refused;
      }
      if !p.Safe(q.files) {
        return Refused;
      }
      if q.dryRun {
        return Planned;
      }
      if f.prepareRaises {
        return Raised;
      }
      if p.Lawful() {
        StagedReadsBack(q.files, p);
      }
      var expected := if q.expected.Some? then q.expected.value else actual;
      var raised, aside := Install(q.files, expected, p, f);
      if raised {
        Rollback(aside, f);
        return Failed;
      }
      return Updated;
    }
  }

  lemma {:induction false} NamesOf(files: seq<(Bytes, Bytes)>, n: Bytes)
    ensures n in TreeOf(files) <==> exists i :: 0 <= i < |files| && files[i].0 == n
  {
    if files != [] {
      NamesOf(files[..|files| - 1], n);
    }
  }

  /** A tree holds the last content given for each name. */
  lemma {:induction false} LastContent(files: seq<(Bytes, Bytes)>, i: nat)
    requires i < |files| && forall j :: i < j < |files| ==> files[j].0 != files[i].0
    ensures files[i].0 in TreeOf(files) && TreeOf(files)[files[i].0] == files[i].1
  {
    if i < |files| - 1 {
      LastContent(files[..|files| - 1], i);
    }
  }

  /** The staged tree of a safe payload is read back whole. */
  lemma StagedReadsBack(files: seq<(Bytes, Bytes)>, p: Policy)
    requires p.Lawful() && p.Safe(files)
    ensures p.ReadBack(p.Staged(files), {}) == p.Staged(files)
  {
    forall n | n in p.Staged(files)
      ensures p.safe(n)
    {
      NamesOf(p.OnDisk(files), n);
    }
  }

  /** The staged tree is the payload's tree exactly when every name of the payload is already as path handling
      leaves it. */
  lemma StagedIsPayload(files: seq<(Bytes, Bytes)>, p: Policy)
    requires p.Lawful()
    ensures p.Staged(files) == TreeOf(files) <==> p.PathNormal(files)
  {
    if p.PathNormal(files) {
      assert p.OnDisk(files) == files;
    } else {
      var i :| 0 <= i < |files| && p.path(files[i].0) != files[i].0;
      NamesOf(files, files[i].0);
      NamesOf(p.OnDisk(files), files[i].0);
    }
  }

  /** Without faults a permitted update goes through exactly for path-normal names, as long as the hash tells
      the payload from what was staged. */
  lemma FaultFreeOutcome(
    f: Faults, files: seq<(Bytes, Bytes)>, p: Policy, target: Option<Tree>, previous: Option<Tree>)
    requires p.Lawful() && p.Safe(files) && NoFault(f, files)
    requires p.hash(p.Staged(files)) == p.hash(TreeOf(files)) ==> p.Staged(files) == TreeOf(files)
    ensures Succeeds(f, files, p.hash(TreeOf(files)), p, target, previous) <==> p.PathNormal(files)
  {
    StagedReadsBack(files, p);
    StagedIsPayload(files, p);
  }

  /** The path rule of the program, with its allowlists, beside any hash. */
  function PolicyOf(r: SkillRule, hash: Tree -> string): Policy {
    Policy(hash, (n: Bytes) => r.Safe(n), (n: Bytes) => PosixPath(n))
  }

  /** A payload that passes every check before the update and yet fails without a fault: a safe name with a
      doubled slash, such as the one for `references//a.md`. */
  lemma DoubledSlashFails(
    r: SkillRule, hash: Tree -> string, a: Bytes, b: Bytes, content: Bytes, f: Faults,
    target: Option<Tree>, previous: Option<Tree>)
    requires r.Lawful() && a != [] && r.Safe(a + [SLASH] + b)
    ensures var p, files := PolicyOf(r, hash), [(a + [SLASH, SLASH] + b, content)];
      p.Lawful() && p.Safe(files) && p.Staged(files) != TreeOf(files) &&
      (NoFault(f, files) && hash(p.Staged(files)) != hash(TreeOf(files)) ==>
         !Succeeds(f, files, hash(TreeOf(files)), p, target, previous))
  {
    var p, files := PolicyOf(r, hash), [(a + [SLASH, SLASH] + b, content)];
    PolicyOfLawful(r, hash);
    DoubledSlash(r, a, b);
    assert p.path(files[0].0) != files[0].0;
    StagedIsPayload(files, p);
    StagedReadsBack(files, p);
  }

  lemma PolicyOfLawful(r: SkillRule, hash: Tree -> string)
    requires r.Lawful()
    ensures PolicyOf(r, hash).Lawful()
  {
    forall n: Bytes
      ensures PosixPath(PosixPath(n)) == PosixPath(n) && (r.Safe(n) ==> r.Safe(PosixPath(n)))
    {
      PosixPathLawful(r, n);
    }
  }
}
