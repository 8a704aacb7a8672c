/**
 The installer's methods, writing to the root one durable step at a time.

 `life` is how many durable steps the process still makes before it dies; a dead process makes
 none.  Each method is proved to take exactly the steps its plan lists, cut off where the process
 dies, so what `InstallSections` and `InstallRuns` prove of the plans holds of the methods.
 */
module Installer {
  import opened Options
  import opened InstallRoot
  import opened InstallPlans
  import opened InstallSections
  import SafetyPort

  function Lived(steps: seq<Step>, life: nat): (n: nat)
    ensures n <= |steps|
  {
    if life < |steps| then life else |steps|
  }

  /** From `r` with `life` steps to live, taking `steps` leads to `r'` with `life'` left. */
  ghost predicate Took(steps: seq<Step>, r: Root, life: nat, r': Root, life': nat) {
    r' == Run(steps[..Lived(steps, life)], r) && life' == life - Lived(steps, life)
  }

  lemma TookThen(a: seq<Step>, b: seq<Step>, r: Root, life: nat, r1: Root, life1: nat, r2: Root, life2: nat)
    requires Took(a, r, life, r1, life1)
    requires r1 == Run(a, r) ==> Took(b, r1, life1, r2, life2)
    requires life1 == 0 ==> r2 == r1 && life2 == 0
    ensures Took(a + b, r, life, r2, life2)
  {
    hide Run;
    if life <= |a| {
      assert (a + b)[..life] == a[..life];
    } else {
      TookBoth(a, b, r, life, r1, life1, r2, life2);
    }
  }

  lemma TookNext(a: seq<Step>, b: seq<Step>, r: Root, life: nat, r1: Root, life1: nat, r2: Root, life2: nat)
    requires Took(a, r, life, r1, life1) && Took(b, r1, life1, r2, life2)
    ensures Took(a + b, r, life, r2, life2)
  {
    if life1 == 0 {
      assert b[..0] == [];
      NoSteps(r1);
    }
    TookThen(a, b, r, life, r1, life1, r2, life2);
  }

  lemma TookBoth(a: seq<Step>, b: seq<Step>, r: Root, life: nat, r1: Root, life1: nat, r2: Root, life2: nat)
    requires Took(a, r, life, r1, life1) && life > |a|
    requires r1 == Run(a, r) ==> Took(b, r1, life1, r2, life2)
    ensures Took(a + b, r, life, r2, life2)
  {
    hide Run;
    var n := Lived(b, life1);
    assert a[..|a|] == a;
    assert (a + b)[..|a| + n] == a + b[..n];
    RunConcat(a, b[..n], r);
  }

  lemma EraseNext(names: seq<Name>, i: nat, t: Tree)
    requires i < |names|
    ensures EraseNames(names[i..], t) == OptionalStep(HasName(t, names[i]), Erase(names[i])) + EraseNames(names[i + 1..], t)
  {
    assert names[i..][1..] == names[i + 1..];
  }

  lemma NoSteps(r: Root)
    ensures Run([], r) == r
  {
  }

  lemma DeadTakesNothing(steps: seq<Step>, r: Root)
    ensures Took(steps, r, 0, r, 0) && forall r', life' :: Took(steps, r, 0, r', life') ==> r' == r && life' == 0
  {
    assert steps[..0] == [];
  }

  lemma TookAlive(steps: seq<Step>, r: Root, life: nat, r': Root, life': nat)
    requires Took(steps, r, life, r', life')
    ensures life' > 0 ==> r' == Run(steps, r)
  {
    assert steps[..|steps|] == steps;
  }

  class DistributionInstaller {
    var root: Root
    var life: nat
    var lastRecoveryAction: Action
    var lastRecoveryOperation: Option<Operation>
    const safety: SafetyPort.UpgradeSafetyPort

    constructor (r: Root, steps: nat, port: SafetyPort.UpgradeSafetyPort)
      ensures root == r && life == steps && safety == port
      ensures lastRecoveryAction == NoAction && lastRecoveryOperation == None
    {
      root, life, safety := r, steps, port;
      lastRecoveryAction, lastRecoveryOperation := NoAction, None;
    }

    /** One durable step; `done` is what has been taken since `r0`. */
    method Do(step: Step, ghost done: seq<Step>, ghost r0: Root, ghost life0: nat) returns (ghost done': seq<Step>)
      requires Took(done, r0, life0, root, life)
      modifies this`root, this`life
      ensures done' == done + [step] && Took(done', r0, life0, root, life)
      ensures if old(life) == 0 then root == old(root) && life == 0 else root == Apply(step, old(root)) && life == old(life) - 1
    {
      ghost var r1, life1 := root, life;
      if life > 0 {
        root, life := Apply(step, root), life - 1;
      }
      assert Took([step], r1, life1, root, life) by {
        assert [step][1..] == [];
        assert [step][..1] == [step];
      }
      TookThen(done, [step], r0, life0, r1, life1, root, life);
      done' := done + [step];
    }

    method BeginPointerTransaction(tx: Transaction)
      modifies this`root, this`life
      ensures Took(BeginSteps(tx), old(root), old(life), root, life)
    {
      ghost var r0, life0 := root, life;
      ghost var done := [];
      done := Do(OpenJournal, done, r0, life0);
      done := Do(WriteJournal(tx), done, r0, life0);
      assert done == BeginSteps(tx);
    }

    method PublishPointerTransaction(tx: Transaction)
      modifies this`root, this`life
      ensures Took(PublishLead(tx) + [SetCurrent(tx.currentAfter)] + PUBLISH_TAIL, old(root), old(life), root, life)
    {
      ghost var r0, life0 := root, life;
      ghost var done := [];
      done := Do(SetLastKnownGood(tx.lkgAfter), done, r0, life0);
      done := Do(MarkPhase(LastKnownGoodPublished), done, r0, life0);
      done := Do(SetCurrent(tx.currentAfter), done, r0, life0);
      done := Do(MarkPhase(CurrentPublished), done, r0, life0);
      done := Do(DropJournal, done, r0, life0);
      assert done == PublishLead(tx) + [SetCurrent(tx.currentAfter)] + PUBLISH_TAIL;
    }

    method RemoveTransactionSnapshot(t: Tree, name: Option<nat>, ghost done: seq<Step>, ghost r0: Root, ghost life0: nat)
      returns (ghost done': seq<Step>)
      requires Took(done, r0, life0, root, life)
      modifies this`root, this`life
      ensures done' == done + DropSnapshotSteps(t, name) && Took(done', r0, life0, root, life)
    {
      done' := done;
      if name.Some? && t.snapshots.Some? && name.value in t.snapshots.value {
        done' := Do(DropSnapshot(name.value), done', r0, life0);
        done' := Do(DropEmptySnapshots, done', r0, life0);
      }
    }

    method RemoveTransactionCandidate(t: Tree, tx: Transaction, ghost done: seq<Step>, ghost r0: Root, ghost life0: nat)
      returns (ghost done': seq<Step>)
      requires Readable(tx) && Took(done, r0, life0, root, life)
      modifies this`root, this`life
      ensures done' == done + DropCandidateSteps(t, tx) && Took(done', r0, life0, root, life)
    {
      done' := done;
      var d := tx.currentAfter.value.digest;
      if OwnCandidate(tx, d) {
        if d in Generations(t) {
          done' := Do(Wound(d), done', r0, life0);
          done' := Do(DropGeneration(d), done', r0, life0);
        }
        done' := Do(DropEmptyVersions, done', r0, life0);
      }
    }

    method RemoveTransactionLaunchers(t: Tree, owned: bool, ghost done: seq<Step>, ghost r0: Root, ghost life0: nat)
      returns (ghost done': seq<Step>)
      requires Took(done, r0, life0, root, life)
      modifies this`root, this`life
      ensures done' == done + (if owned then DropBinSteps(t) else []) && Took(done', r0, life0, root, life)
    {
      done' := done;
      if owned && t.bin.Some? {
        done' := Do(DropLauncher(Cortex), done', r0, life0);
        done' := Do(DropLauncher(Cortexd), done', r0, life0);
        done' := Do(DropBin, done', r0, life0);
      }
    }

    /** The abort branch: pointers back, then the snapshot, the candidate and the launchers go. */
    method AbortTransaction(tx: Transaction)
      requires Readable(tx)
      modifies this`root, this`life
      ensures Took(AbortSteps(old(root.tree), tx), old(root), old(life), root, life)
    {
      hide Run, Apply;
      ghost var r0, life0 := root, life;
      var t := root.tree;
      ghost var done := [];
      NoSteps(root);
      done := Do(SetCurrent(tx.currentBefore), done, r0, life0);
      done := Do(SetLastKnownGood(tx.lkgBefore), done, r0, life0);
      assert done == [SetCurrent(tx.currentBefore), SetLastKnownGood(tx.lkgBefore)];
      done := RemoveTransactionSnapshot(t, tx.snapshot, done, r0, life0);
      done := RemoveTransactionCandidate(t, tx, done, r0, life0);
      done := RemoveTransactionLaunchers(t, tx.launchersOwned, done, r0, life0);
      done := Do(DropJournal, done, r0, life0);
    }

    method RecoverTransactionLocked() returns (verdict: Verdict)
      modifies this`root, this`life, this`lastRecoveryOperation
      ensures verdict == PointerRecovery(old(root)).verdict
      ensures Took(PointerRecovery(old(root)).steps, old(root), old(life), root, life)
      ensures verdict.Ok? ==> lastRecoveryOperation == verdict.operation
    {
      ghost var r0, life0 := root, life;
      ghost var done := [];
      if root.journal.NoJournal? {
        lastRecoveryOperation := None;
        return Ok(NoAction, None);
      }
      if root.journal.TornJournal? {
        return Refused(JournalUnreadable);
      }
      var tx := root.journal.tx;
      if !Readable(tx) {
        return Refused(JournalInvalid);
      }
      lastRecoveryOperation := Some(tx.operation);
      var current, lkg := root.tree.current, root.tree.lkg;
      if current != tx.currentBefore && current != tx.currentAfter {
        return Refused(ManualRecovery);
      }
      if lkg != tx.lkgBefore && lkg != tx.lkgAfter {
        return Refused(ManualRecovery);
      }
      if current == tx.currentBefore {
        if !Holds(root.tree, tx.currentBefore) || !Holds(root.tree, tx.lkgBefore) {
          return Refused(VersionMissing);
        }
        AbortTransaction(tx);
        return Ok(Aborted, Some(tx.operation));
      }
      if !Holds(root.tree, tx.currentAfter) || !Holds(root.tree, tx.lkgAfter) {
        return Refused(VersionMissing);
      }
      if tx.launchersOwned && !LaunchersReady(root.tree) {
        return Refused(LaunchersUnavailable);
      }
      if !SnapshotReady(root.tree, tx.snapshot, tx.currentBefore) {
        return Refused(SnapshotUnavailable);
      }
      done := Do(SetLastKnownGood(tx.lkgAfter), done, r0, life0);
      done := Do(SetCurrent(tx.currentAfter), done, r0, life0);
      done := Do(DropJournal, done, r0, life0);
      assert done == CommitSteps(tx);
      return Ok(Committed, Some(tx.operation));
    }

    /** Removes the entries of the trash directory one by one. */
    method EraseTrash(names: seq<Name>, t: Tree) returns (ghost done: seq<Step>)
      modifies this`root, this`life
      ensures done == EraseNames(names, t) && Took(done, old(root), old(life), root, life)
    {
      hide Run, Apply;
      ghost var r0, life0 := root, life;
      NoSteps(root);
      done := [];
      var i := 0;
      assert names[0..] == names;
      while i < |names|
        invariant 0 <= i <= |names|
        invariant Took(done, r0, life0, root, life)
        invariant done + EraseNames(names[i..], t) == EraseNames(names, t)
      {
        ghost var rest := EraseNames(names[i + 1..], t);
        EraseNext(names, i, t);
        assert done + ([Erase(names[i])] + rest) == (done + [Erase(names[i])]) + rest;
        if HasName(t, names[i]) {
          done := Do(Erase(names[i]), done, r0, life0);
        } else {
          assert [] + rest == rest;
        }
        i := i + 1;
      }
      assert names[i..] == [];
    }

    /** Removes the trash, then the marker, the journal and the root. */
    method FinishUninstallLocked()
      modifies this`root, this`life
      ensures Took(FinishSteps(old(root)), old(root), old(life), root, life)
    {
      hide Run, Apply;
      ghost var r0, life0 := root, life;
      NoSteps(root);
      ghost var done := [];
      if root.trash.Some? {
        done := EraseTrash(OWNED_NAMES, root.trash.value);
        done := Do(DropTrash, done, r0, life0);
      }
      assert done == EraseSteps(r0);
      done := Do(DropMarker, done, r0, life0);
      done := Do(DropNotice, done, r0, life0);
      done := Do(DropRoot, done, r0, life0);
      assert done == FinishSteps(r0);
    }

    /** Renames everything in the trash back into the root. */
    method RestoreTrash()
      modifies this`root, this`life
      ensures Took(RestoreSteps(old(root)), old(root), old(life), root, life)
    {
      ghost var r0, life0 := root, life;
      ghost var done := [];
      if root.trash.Some? {
        var t := root.trash.value;
        if t.lkg.Some? {
          done := Do(Restore(LastKnownGood), done, r0, life0);
        }
        ghost var s1 := OptionalStep(t.lkg.Some?, Restore(LastKnownGood));
        assert done == s1;
        if t.bin.Some? {
          done := Do(Restore(Bin), done, r0, life0);
        }
        ghost var s2 := s1 + OptionalStep(t.bin.Some?, Restore(Bin));
        assert done == s2;
        if t.snapshots.Some? {
          done := Do(Restore(Snapshots), done, r0, life0);
        }
        ghost var s3 := s2 + OptionalStep(t.snapshots.Some?, Restore(Snapshots));
        assert done == s3;
        if t.versions.Some? {
          done := Do(Restore(VersionsDir), done, r0, life0);
        }
        assert done == s3 + OptionalStep(t.versions.Some?, Restore(VersionsDir));
        done := Do(DropTrash, done, r0, life0);
      }
      assert done == RestoreSteps(r0);
    }

    /** A verdict reached by a process that is still alive is the plan's; a dead one reports nothing. */
    method RecoverUninstallLocked() returns (verdict: Verdict)
      modifies this`root, this`life
      ensures Took(UninstallRecovery(old(root)).steps, old(root), old(life), root, life)
      ensures life > 0 ==> verdict == UninstallRecovery(old(root)).verdict
    {
      ghost var r0, life0 := root, life;
      if root.notice.NoNotice? {
        return if root.trash.Some? then Refused(ManualRecovery) else Ok(NoAction, None);
      }
      if root.notice.TornNotice? {
        return Refused(ManualRecovery);
      }
      var currentBefore := root.notice.currentBefore;
      if root.tree.current.None? {
        FinishUninstallLocked();
        return Ok(Completed, None);
      }
      if root.tree.current != Some(currentBefore) || !Disjoint(root.tree, TrashOf(root)) {
        return Refused(ManualRecovery);
      }
      RestoreTrash();
      ghost var r1, life1 := root, life;
      TookAlive(RestoreSteps(r0), r0, life0, r1, life1);
      if !Holds(root.tree, Some(currentBefore)) {
        if life == 0 {
          TookThen(RestoreSteps(r0), [DropNotice], r0, life0, r1, life1, root, life);
        }
        return Refused(VersionMissing);
      }
      ghost var done := RestoreSteps(r0);
      done := Do(DropNotice, done, r0, life0);
      return Ok(Aborted, None);
    }

    /** Removes every stale candidate, then the directory if that left it empty. */
    method DiscardStaleCandidatesLocked()
      modifies this`root, this`life
      ensures Took(SweepSteps(old(root)), old(root), old(life), root, life)
    {
      hide Run, Apply;
      ghost var r0, life0 := root, life;
      NoSteps(root);
      if root.present && Candidates(root.tree) > 0 {
        var n := Candidates(root.tree);
        var i := 0;
        ghost var done := [];
        while i < n
          invariant 0 <= i <= n
          invariant done == seq(i, _ => DropCandidate)
          invariant Took(done, r0, life0, root, life)
        {
          done := Do(DropCandidate, done, r0, life0);
          i := i + 1;
          assert done == seq(i, _ => DropCandidate);
        }
        done := Do(DropEmptyVersions, done, r0, life0);
        assert done == SweepSteps(r0);
      }
    }

    /** Makes the root directory and, when it has no entries, claims it with the marker. */
    method EnterRoot()
      modifies this`root, this`life
      ensures Took(EntrySteps(old(root)), old(root), old(life), root, life)
    {
      ghost var r0, life0 := root, life;
      ghost var done := [];
      var r := root;
      if !r.present {
        done := Do(MakeRoot, done, r0, life0);
      }
      if !r.marker && NoEntries(r) {
        done := Do(WriteMarker, done, r0, life0);
      }
      assert done == EntrySteps(r);
    }

    /** Recovery, chosen by which journal is there. */
    method RecoverLocked() returns (verdict: Verdict)
      modifies this`root, this`life, this`lastRecoveryOperation
      ensures Took(RecoverySteps(old(root)).steps, old(root), old(life), root, life)
      ensures life > 0 ==> verdict == RecoverySteps(old(root)).verdict
    {
      lastRecoveryOperation := None;
      if !root.marker && (!root.journal.NoJournal? || root.tree != EMPTY_TREE) {
        return Refused(Unowned);
      }
      var pointerPending := !root.journal.NoJournal?;
      var uninstallPending := !root.notice.NoNotice? || root.trash.Some?;
      if pointerPending && uninstallPending {
        return Refused(ManualRecovery);
      }
      if pointerPending {
        verdict := RecoverTransactionLocked();
      } else {
        verdict := RecoverUninstallLocked();
      }
    }

    /** Takes the lock: enter the root, recover, sweep. */
    method Locked() returns (verdict: Verdict)
      modifies this
      ensures Took(LockPlan(old(root)).steps, old(root), old(life), root, life)
      ensures life > 0 ==> verdict == LockPlan(old(root)).verdict
      ensures life > 0 && verdict.Ok? ==> lastRecoveryAction == verdict.action
    {
      ghost var r0, life0 := root, life;
      EnterRoot();
      ghost var entry := EntrySteps(r0);
      ghost var r1, life1 := root, life;
      TookAlive(entry, r0, life0, r1, life1);
      verdict := RecoverLocked();
      ghost var recovery := RecoverySteps(Run(entry, r0)).steps;
      ghost var r2, life2 := root, life;
      TookThen(entry, recovery, r0, life0, r1, life1, r2, life2);
      TookAlive(entry + recovery, r0, life0, r2, life2);
      if verdict.Ok? {
        lastRecoveryAction := verdict.action;
        DiscardStaleCandidatesLocked();
      }
      if LockPlan(r0).verdict.Ok? {
        ghost var sweep := SweepSteps(Run(entry + recovery, r0));
        if life2 == 0 {
          DeadTakesNothing(sweep, r2);
          DeadTakesNothing(SweepSteps(r2), r2);
        }
        TookThen(entry + recovery, sweep, r0, life0, r2, life2, root, life);
      }
    }

    /** `_stage_version`: a candidate is built beside the generations and renamed into place. */
    method StageVersion(p: Pointer)
      modifies this`root, this`life
      ensures Took(StageSteps(p), old(root), old(life), root, life)
    {
      ghost var r0, life0 := root, life;
      ghost var done := [];
      done := Do(MakeVersions, done, r0, life0);
      done := Do(MakeCandidate, done, r0, life0);
      done := Do(Publish(p), done, r0, life0);
      assert done == StageSteps(p);
    }

    method InstallLaunchers()
      modifies this`root, this`life
      ensures Took(LAUNCHER_STEPS, old(root), old(life), root, life)
    {
      ghost var r0, life0 := root, life;
      ghost var done := [];
      done := Do(MakeBin, done, r0, life0);
      done := Do(WriteLauncher(Cortex), done, r0, life0);
      done := Do(WriteLauncher(Cortexd), done, r0, life0);
      assert done == LAUNCHER_STEPS;
    }

    /** The body of a transaction, when nothing raises. */
    method Transact(tx: Transaction)
      requires Readable(tx)
      modifies this`root, this`life
      ensures Took(BodySteps(tx), old(root), old(life), root, life)
    {
      hide Run;
      ghost var r0, life0 := root, life;
      NoSteps(r0);
      BeginPointerTransaction(tx);
      ghost var done := BeginSteps(tx);
      ghost var r1, life1 := root, life;
      match tx.operation {
        case Install =>
          StageVersion(tx.currentAfter.value);
          ghost var r2, life2 := root, life;
          InstallLaunchers();
          TookNext(StageSteps(tx.currentAfter.value), LAUNCHER_STEPS, r1, life1, r2, life2, root, life);
        case Upgrade =>
          NoSteps(r1);
          ghost var d := Do(WriteSnapshot(tx.snapshot.value, tx.currentBefore.value), [], r1, life1);
          assert d == PrepareSteps(tx);
        case Rollback =>
          NoSteps(r1);
      }
      TookNext(done, PrepareSteps(tx), r0, life0, r1, life1, root, life);
      ghost var r3, life3 := root, life;
      PublishPointerTransaction(tx);
      ghost var publish := PublishLead(tx) + [SetCurrent(tx.currentAfter)] + PUBLISH_TAIL;
      TookNext(done + PrepareSteps(tx), publish, r0, life0, r3, life3, root, life);
      assert done + PrepareSteps(tx) + publish == BodySteps(tx);
    }

    /** What the exception handlers do, `last` being the step taken before the exception, if any. */
    method HandleException(last: seq<Step>)
      modifies this`root, this`life, this`lastRecoveryOperation
      ensures Took(HandlerSteps(last, old(root)), old(root), old(life), root, life)
    {
      ghost var r0, life0 := root, life;
      ghost var tidy := [];
      if root.journal.TornJournal? {
        tidy := Do(DropJournal, tidy, r0, life0);
      } else if last == [MakeCandidate] {
        tidy := Do(DropCandidate, tidy, r0, life0);
      }
      assert tidy == TidySteps(last, r0);
      ghost var r1, life1 := root, life;
      TookAlive(tidy, r0, life0, r1, life1);
      var _ := RecoverTransactionLocked();
      TookThen(tidy, PointerRecovery(Run(tidy, r0)).steps, r0, life0, r1, life1, root, life);
    }

    method InstallLocked(p: Pointer, healthy: bool) returns (answer: Answer)
      modifies this`root, this`life
      ensures var work := InstallWork(old(root), p, healthy, Smooth);
        Took(work.steps, old(root), old(life), root, life) && answer == work.answer
    {
      if root.tree.current.Some? && root.tree.current.value.digest == p.digest {
        if !Holds(root.tree, root.tree.current) {
          return Refusal(VersionMissing);
        }
        return if healthy then Unchanged else Refusal(CheckFailed);
      }
      if root.tree.current.Some? {
        return Refusal(AlreadyInstalled);
      }
      if !NoEntries(root) {
        return Refusal(LeftoverEntries);
      }
      ghost var r0, life0 := root, life;
      EnterRoot();
      ghost var r1, life1 := root, life;
      Transact(InstallTransaction(p));
      TookNext(EntrySteps(r0), BodySteps(InstallTransaction(p)), r0, life0, r1, life1, root, life);
      return Performed;
    }

    method CommitUpgradeLocked(q: Request) returns (answer: Answer)
      requires q.CommitUpgrade? && Sensible(q) && q.course.Smooth? && q.gate.port == safety.State()
      modifies this`root, this`life, safety
      ensures var work := CommitUpgradeWork(old(root), q);
        Took(work.steps, old(root), old(life), root, life) && answer == work.answer
      ensures safety.State() == PortAfterWork(old(root), q)
    {
      if root.tree.current != Some(q.current) {
        return Refusal(ChangedMeanwhile);
      }
      if !Holds(root.tree, Some(q.pointer)) {
        return Refusal(VersionMissing);
      }
      if !q.gate.ready {
        return Refusal(CheckFailed);
      }
      var open := safety.Gate(UpgradeTerms(q), q.gate.first, root.tree.current == Some(q.current), q.gate.second);
      if !open {
        return Refusal(CheckFailed);
      }
      ghost var r0, life0 := root, life;
      var tx := UpgradeTransaction(q.current, q.pointer, root.tree.lkg, q.name, q.created);
      ghost var done := Do(MakeSnapshots, [], r0, life0);
      ghost var r1, life1 := root, life;
      Transact(tx);
      TookNext([MakeSnapshots], BodySteps(tx), r0, life0, r1, life1, root, life);
      return Performed;
    }

    method CommitRollbackLocked(q: Request) returns (answer: Answer)
      requires q.CommitRollback? && Sensible(q) && q.course.Smooth?
      modifies this`root, this`life
      ensures var work := CommitRollbackWork(old(root), q);
        Took(work.steps, old(root), old(life), root, life) && answer == work.answer
    {
      if root.tree.current != Some(q.current) || root.tree.lkg != Some(q.previous) {
        return Refusal(ChangedMeanwhile);
      }
      if !Holds(root.tree, Some(q.previous)) || !q.healthy {
        return Refusal(CheckFailed);
      }
      Transact(RollbackTransaction(q.current, q.previous));
      return Performed;
    }

    /** Moves the owned names into the trash, all but `current.json`. */
    method Isolate(n: Notice)
      modifies this`root, this`life
      ensures Took(IsolateSteps(old(root.tree), n), old(root), old(life), root, life)
    {
      hide Run, Apply;
      ghost var r0, life0 := root, life;
      var t := root.tree;
      NoSteps(root);
      ghost var done := [];
      done := Do(OpenNotice, done, r0, life0);
      done := Do(WriteNotice(n), done, r0, life0);
      done := Do(MakeTrash, done, r0, life0);
      ghost var s1 := [OpenNotice, WriteNotice(n), MakeTrash];
      assert done == s1;
      done := IsolateName(t, Bin, done, r0, life0);
      done := IsolateName(t, Snapshots, done, r0, life0);
      done := IsolateName(t, VersionsDir, done, r0, life0);
      done := Do(MarkNotice(UninstallIsolated), done, r0, life0);
      done := IsolateName(t, LastKnownGood, done, r0, life0);
    }

    method IsolateName(t: Tree, name: Name, ghost done: seq<Step>, ghost r0: Root, ghost life0: nat)
      returns (ghost done': seq<Step>)
      requires Took(done, r0, life0, root, life)
      modifies this`root, this`life
      ensures done' == done + OptionalStep(HasName(t, name), Discard(name)) && Took(done', r0, life0, root, life)
    {
      done' := done;
      if HasName(t, name) {
        done' := Do(Discard(name), done', r0, life0);
      }
    }

    method CommitUninstallLocked(current: Pointer) returns (answer: Answer)
      modifies this`root, this`life
      ensures var work := CommitUninstallWork(old(root), current);
        Took(work.steps, old(root), old(life), root, life) && answer == work.answer
    {
      if root.tree.current != Some(current) {
        return Refusal(ChangedMeanwhile);
      }
      hide Run, Apply;
      ghost var r0, life0 := root, life;
      ghost var n := Notice(UninstallPrepared, current, root.tree.lkg);
      Isolate(Notice(UninstallPrepared, current, root.tree.lkg));
      ghost var isolate := IsolateSteps(r0.tree, n);
      ghost var done := Do(Discard(Current), isolate, r0, life0);
      done := Do(MarkNotice(UninstallCommitted), done, r0, life0);
      assert done == isolate + [Discard(Current), MarkNotice(UninstallCommitted)];
      ghost var r1, life1 := root, life;
      TookAlive(done, r0, life0, r1, life1);
      FinishUninstallLocked();
      TookThen(done, FinishSteps(Run(done, r0)), r0, life0, r1, life1, root, life);
      return Performed;
    }

    /** One whole section that changes what is installed, nothing raising. */
    method Commit(q: Request) returns (answer: Answer)
      requires Sensible(q)
      requires q.InstallBundle? || q.CommitUpgrade? || q.CommitRollback? || q.CommitUninstall?
      requires !q.CommitUninstall? ==> q.course.Smooth?
      requires q.CommitUpgrade? ==> q.gate.port == safety.State()
      modifies this, safety
      ensures life > 0 && q.CommitUpgrade? ==> safety.State() == PortAfterSection(old(root), q)
      ensures Took(Section(old(root), q).steps, old(root), old(life), root, life)
      ensures life > 0 ==> answer == Section(old(root), q).answer
    {
      hide Run, WorkOf;
      ghost var r0, life0 := root, life;
      var verdict := Locked();
      ghost var r1, life1 := root, life;
      ghost var lock := LockPlan(r0);
      TookAlive(lock.steps, r0, life0, r1, life1);
      if verdict.Refused? {
        if lock.verdict.Ok? {
          DeadTakesNothing(WorkOf(r1, lock.verdict, q).steps, r1);
          TookThen(lock.steps, WorkOf(Run(lock.steps, r0), lock.verdict, q).steps, r0, life0, r1, life1, root, life);
        }
        return Refusal(verdict.reason);
      }
      answer := CommitLocked(verdict, q);
      DeadTakesNothing(WorkOf(r1, verdict, q).steps, r1);
      SameWork(r1, verdict, lock.verdict, q);
      if lock.verdict.Ok? {
        TookThen(lock.steps, WorkOf(Run(lock.steps, r0), lock.verdict, q).steps, r0, life0, r1, life1, root, life);
      }
    }

    method CommitLocked(verdict: Verdict, q: Request) returns (answer: Answer)
      requires Sensible(q)
      requires q.InstallBundle? || q.CommitUpgrade? || q.CommitRollback? || q.CommitUninstall?
      requires !q.CommitUninstall? ==> q.course.Smooth?
      requires q.CommitUpgrade? ==> q.gate.port == safety.State()
      modifies this`root, this`life, safety
      ensures q.CommitUpgrade? ==> safety.State() == PortAfterWork(old(root), q)
      ensures var work := WorkOf(old(root), verdict, q);
        Took(work.steps, old(root), old(life), root, life) && answer == work.answer
    {
      if q.InstallBundle? {
        answer := InstallLocked(q.pointer, q.healthy);
      } else if q.CommitUpgrade? {
        answer := CommitUpgradeLocked(q);
      } else if q.CommitRollback? {
        answer := CommitRollbackLocked(q);
      } else {
        answer := CommitUninstallLocked(q.current);
      }
    }
  }

  lemma SameWork(r: Root, a: Verdict, b: Verdict, q: Request)
    requires Sensible(q) && (q.InstallBundle? || q.CommitUpgrade? || q.CommitRollback? || q.CommitUninstall?)
    ensures WorkOf(r, a, q) == WorkOf(r, b, q)
  {
  }
}
