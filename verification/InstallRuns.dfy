/**
 Whole runs of the installer: crashes inside recovery, several processes taking turns at the lock,
 and operations retried after a crash.
 */
module InstallRuns {
  import opened Options
  import opened InstallRoot
  import opened InstallPlans
  import opened InstallSections

  // ----- Recovery interrupted any number of times

  /** The root after attempts at recovery that die after the given numbers of steps. */
  function Attempts(r: Root, deaths: seq<nat>): Root
    decreases |deaths|
  {
    if deaths == [] then r else
      var steps := LockPlan(r).steps;
      Attempts(Run(steps[..if deaths[0] <= |steps| then deaths[0] else |steps|], r), deaths[1..])
  }

  function Recovered(r: Root): Root {
    Run(LockPlan(r).steps, r)
  }

  lemma {:induction false} AttemptsKeep(r: Root, deaths: seq<nat>)
    requires Inv(r)
    ensures Inv(Attempts(r, deaths)) && Installed(Attempts(r, deaths)) == Installed(r)
    ensures !Torn(r) ==> !Torn(Attempts(r, deaths))
    decreases |deaths|
  {
    if deaths != [] {
      var steps := LockPlan(r).steps;
      var k := if deaths[0] <= |steps| then deaths[0] else |steps|;
      LockSilent(r);
      SilentKeeps(steps, k, r);
      LockRepairs(r);
      RepairsNeverTear(steps, k, r);
      AttemptsKeep(Run(steps[..k], r), deaths[1..]);
    }
  }

  /** The steps recovery is made of; none of them opens a journal. */
  predicate Repairs(step: Step) {
    || MovesBack(step) || step.SetCurrent? || step.SetLastKnownGood? || step.DropJournal?
    || step.DropSnapshot? || step.DropEmptySnapshots?
    || step.Wound? || step.DropGeneration? || step.DropEmptyVersions? || step.DropCandidate?
    || step.DropLauncher? || step.DropBin?
  }

  predicate MovesBack(step: Step) {
    || step.MakeRoot? || step.WriteMarker? || step.DropMarker? || step.DropRoot?
    || step.DropNotice? || step.Restore? || step.Erase? || step.DropTrash?
  }

  predicate All(steps: seq<Step>, f: Step -> bool) {
    steps == [] || (f(steps[0]) && All(steps[1..], f))
  }

  lemma {:induction false} AllConcat(a: seq<Step>, b: seq<Step>, f: Step -> bool)
    requires All(a, f) && All(b, f)
    ensures All(a + b, f)
  {
    if a == [] {
      assert a + b == b;
    } else {
      assert (a + b)[1..] == a[1..] + b;
      AllConcat(a[1..], b, f);
    }
  }

  lemma AllThree(a: Step, b: Step, c: Step, f: Step -> bool)
    requires f(a) && f(b) && f(c)
    ensures All([a, b, c], f)
  {
    assert All([b, c], f);
    assert [a, b, c][1..] == [b, c];
  }

  lemma {:induction false} RepairsNeverTear(steps: seq<Step>, k: nat, r: Root)
    requires k <= |steps| && All(steps, Repairs)
    ensures !Torn(r) ==> !Torn(Run(steps[..k], r))
  {
    if k > 0 {
      assert steps[..k][1..] == steps[1..][..k - 1];
      RepairsNeverTear(steps[1..], k - 1, Apply(steps[0], r));
    }
  }

  lemma {:induction false} EraseMovesBack(names: seq<Name>, t: Tree, f: Step -> bool)
    requires forall name :: f(Erase(name))
    ensures All(EraseNames(names, t), f)
  {
    if names != [] {
      EraseMovesBack(names[1..], t, f);
      AllConcat(OptionalStep(HasName(t, names[0]), Erase(names[0])), EraseNames(names[1..], t), f);
    }
  }

  lemma UninstallMovesBack(r: Root, f: Step -> bool)
    requires forall step :: MovesBack(step) ==> f(step)
    ensures All(UninstallRecovery(r).steps, f)
  {
    hide RestoreSteps, FinishSteps;
    FinishMovesBack(r, f);
    RestoreMovesBack(r, f);
    AllConcat(RestoreSteps(r), [DropNotice], f);
  }

  lemma FinishMovesBack(r: Root, f: Step -> bool)
    requires forall step :: MovesBack(step) ==> f(step)
    ensures All(FinishSteps(r), f)
  {
    EraseMovesBack(OWNED_NAMES, TrashOf(r), f);
    AllConcat(EraseNames(OWNED_NAMES, TrashOf(r)), [DropTrash], f);
    AllThree(DropMarker, DropNotice, DropRoot, f);
    AllConcat(EraseSteps(r), [DropMarker, DropNotice, DropRoot], f);
  }

  lemma RestoreMovesBack(r: Root, f: Step -> bool)
    requires forall name :: f(Restore(name))
    requires f(DropTrash)
    ensures All(RestoreSteps(r), f)
  {
    if r.trash.Some? {
      var t := r.trash.value;
      var s1 := OptionalStep(t.lkg.Some?, Restore(LastKnownGood));
      var s2 := OptionalStep(t.bin.Some?, Restore(Bin));
      var s3 := OptionalStep(t.snapshots.Some?, Restore(Snapshots));
      var s4 := OptionalStep(t.versions.Some?, Restore(VersionsDir));
      AllConcat(s1, s2, f);
      AllConcat(s1 + s2, s3, f);
      AllConcat(s1 + s2 + s3, s4, f);
      AllConcat(s1 + s2 + s3 + s4, [DropTrash], f);
    }
  }

  lemma AbortRepairs(t: Tree, tx: Transaction)
    requires Readable(tx)
    ensures All(AbortSteps(t, tx), Repairs)
  {
    var s1 := [SetCurrent(tx.currentBefore), SetLastKnownGood(tx.lkgBefore)];
    var s2 := DropSnapshotSteps(t, tx.snapshot);
    var s3 := DropCandidateSteps(t, tx);
    var s4 := if tx.launchersOwned then DropBinSteps(t) else [];
    AllConcat(DropGenerationSteps(t, tx.currentAfter.value.digest), [DropEmptyVersions], Repairs);
    AllThree(DropLauncher(Cortex), DropLauncher(Cortexd), DropBin, Repairs);
    AllConcat(s1, s2, Repairs);
    AllConcat(s1 + s2, s3, Repairs);
    AllConcat(s1 + s2 + s3, s4, Repairs);
    AllConcat(s1 + s2 + s3 + s4, [DropJournal], Repairs);
  }

  lemma {:induction false} SweepRepairs(n: nat)
    ensures All(seq(n, _ => DropCandidate), Repairs)
  {
    if n > 0 {
      var s := seq(n, _ => DropCandidate);
      assert s[1..] == seq(n - 1, _ => DropCandidate);
      SweepRepairs(n - 1);
    }
  }

  lemma RecoveryRepairs(r: Root)
    ensures All(RecoverySteps(r).steps, Repairs)
  {
    if r.journal.Journal? && Readable(r.journal.tx) {
      var tx := r.journal.tx;
      AbortRepairs(r.tree, tx);
      AllThree(SetLastKnownGood(tx.lkgAfter), SetCurrent(tx.currentAfter), DropJournal, Repairs);
    }
    UninstallMovesBack(r, Repairs);
  }

  lemma SweepStepsRepair(r: Root)
    ensures All(SweepSteps(r), Repairs)
  {
    SweepRepairs(Candidates(r.tree));
    AllConcat(seq(Candidates(r.tree), _ => DropCandidate), [DropEmptyVersions], Repairs);
  }

  lemma LockRepairs(r: Root)
    ensures All(LockPlan(r).steps, Repairs)
  {
    hide RecoverySteps, SweepSteps;
    var entry := EntrySteps(r);
    AllConcat(OptionalStep(!r.present, MakeRoot), OptionalStep(!r.marker && NoEntries(r), WriteMarker), Repairs);
    var r1 := Run(entry, r);
    var recovery := RecoverySteps(r1).steps;
    RecoveryRepairs(r1);
    AllConcat(entry, recovery, Repairs);
    var r2 := Run(entry + recovery, r);
    SweepStepsRepair(r2);
    AllConcat(entry + recovery, SweepSteps(r2), Repairs);
  }

  /**
   Install, upgrade or rollback, crashed with its journal on disk: after any number of further
   crashes inside recovery, a completed recovery leaves exactly the after-pair if `current.json`
   had been switched, and exactly the before-pair otherwise; no journal is left.
   */
  lemma RecoveryDecides(r: Root, deaths: seq<nat>)
    requires Inv(r) && r.journal.Journal?
    ensures var tx := r.journal.tx; var r' := Recovered(Attempts(r, deaths));
      && r'.journal.NoJournal? && r'.notice.NoNotice?
      && Pair(r'.tree.current, r'.tree.lkg) ==
         (if r.tree.current == tx.currentAfter
          then Pair(tx.currentAfter, tx.lkgAfter)
          else Pair(tx.currentBefore, tx.lkgBefore))
  {
    AttemptsKeep(r, deaths);
    LockSilent(Attempts(r, deaths));
  }

  // ----- The recorded phase plays no part

  /** The same root, except perhaps for the phase its journal records. */
  predicate SameButPhase(r: Root, u: Root) {
    || r == u
    || (r.journal.Journal? && u.journal.Journal? && u == r.(journal := Journal(r.journal.tx.(phase := u.journal.tx.phase))))
  }

  predicate OnJournal(step: Step) {
    step.OpenJournal? || step.WriteJournal? || step.MarkPhase? || step.DropJournal?
  }

  lemma OtherStepsIgnoreJournal(step: Step, r: Root, j: Journal)
    requires !OnJournal(step)
    ensures Apply(step, r.(journal := j)) == Apply(step, r).(journal := j)
  {
  }

  lemma OtherStepsKeepJournal(step: Step, r: Root)
    requires !OnJournal(step)
    ensures Apply(step, r).journal == r.journal
  {
  }

  lemma StepIgnoresPhase(step: Step, r: Root, u: Root)
    requires SameButPhase(r, u)
    ensures SameButPhase(Apply(step, r), Apply(step, u))
  {
    if !OnJournal(step) {
      hide Apply;
      assert u == r.(journal := u.journal);
      OtherStepsIgnoreJournal(step, r, u.journal);
      OtherStepsKeepJournal(step, r);
    }
  }

  lemma {:induction false} PhaseIrrelevant(steps: seq<Step>, r: Root, u: Root)
    requires SameButPhase(r, u)
    ensures SameButPhase(Run(steps, r), Run(steps, u))
  {
    hide Apply, SameButPhase;
    if steps != [] {
      StepIgnoresPhase(steps[0], r, u);
      PhaseIrrelevant(steps[1..], Apply(steps[0], r), Apply(steps[0], u));
    }
  }

  /** Two crashed roots that differ only in the recorded phase recover by the same steps to the same root. */
  lemma RecoveryIgnoresPhase(r: Root, phase: Phase)
    requires Inv(r) && r.journal.Journal?
    ensures var u := r.(journal := Journal(r.journal.tx.(phase := phase)));
      LockPlan(u) == LockPlan(r) && Recovered(u) == Recovered(r)
  {
    var u := r.(journal := Journal(r.journal.tx.(phase := phase)));
    LockSilent(r);
    assert EntrySteps(r) == EntrySteps(u) == [];
    var steps := PointerRecovery(r).steps;
    assert PointerRecovery(u) == PointerRecovery(r);
    PhaseIrrelevant(steps, r, u);
    PointerRecoverySilent(r);
    assert [] + steps == steps;
    assert Run(steps, u) == Run(steps, r);
    PhaseIrrelevant(LockPlan(r).steps, r, u);
  }

  // ----- Uninstall restores everything or removes everything

  /** The five owned names as recovery will leave them. */
  function Intended(r: Root): Tree {
    if r.notice.Notice? && r.tree.current.Some? then Merge(r.tree, TrashOf(r)) else r.tree
  }

  predicate Moves(step: Step) {
    || MovesBack(step) || step.OpenNotice? || step.WriteNotice? || step.MarkNotice?
    || step.MakeTrash? || step.Discard?
  }

  lemma MoveKeepsIntended(step: Step, r: Root)
    requires Inv(r) && Guard(step, r) && Moves(step)
    ensures Intended(Apply(step, r)) == if step == Discard(Current) then EMPTY_TREE else Intended(r)
  {
    if step.Discard? { DiscardKeepsIntended(step, r); }
  }

  lemma DiscardKeepsIntended(step: Step, r: Root)
    requires Inv(r) && Guard(step, r) && step.Discard?
    ensures Intended(Apply(step, r)) == if step == Discard(Current) then EMPTY_TREE else Intended(r)
  {
  }

  lemma {:induction false} SilentMovesKeep(steps: seq<Step>, k: nat, r: Root)
    requires Inv(r) && Silent(steps, r) && k <= |steps| && All(steps, Moves)
    ensures Inv(Run(steps[..k], r)) && Intended(Run(steps[..k], r)) == Intended(r)
  {
    if k > 0 {
      StepKeeps(steps[0], r);
      MoveKeepsIntended(steps[0], r);
      assert steps[..k][1..] == steps[1..][..k - 1];
      SilentMovesKeep(steps[1..], k - 1, Apply(steps[0], r));
    }
  }

  lemma {:induction false} TracksMovesKeep(steps: seq<Step>, r: Root)
    requires Inv(r) && Tracks(steps, r, Pair(None, None)) && All(steps, Moves)
    ensures Inv(Run(steps, r))
    ensures Intended(Run(steps, r)) == if Switches(steps, r) then EMPTY_TREE else Intended(r)
  {
    if steps != [] {
      StepKeeps(steps[0], r);
      MoveKeepsIntended(steps[0], r);
      var r' := Apply(steps[0], r);
      if Commits(steps[0], r) {
        SilentMovesKeep(steps[1..], |steps| - 1, r');
        assert steps[1..][..|steps| - 1] == steps[1..];
      } else {
        TracksMovesKeep(steps[1..], r');
      }
    }
  }

  /** Locking a root without a pointer journal or stale candidates only moves the owned names. */
  lemma LockMoves(r: Root)
    requires Inv(r) && !Torn(r) && r.journal.NoJournal? && Candidates(Intended(r)) == 0
    ensures All(LockPlan(r).steps, Moves)
    ensures Recovered(r).tree == Intended(r) && Recovered(r).trash.None?
  {
    var entry := EntrySteps(r);
    EntrySilent(r);
    AllConcat(OptionalStep(!r.present, MakeRoot), OptionalStep(!r.marker && NoEntries(r), WriteMarker), Moves);
    var r1 := Run(entry, r);
    var recovery := UninstallRecovery(r1).steps;
    UninstallMovesBack(r1, Moves);
    AllConcat(entry, recovery, Moves);
    RunConcat(entry, recovery, r);
    if r1.notice.Notice? {
      UninstallRecoverySilent(r1);
    }
    assert entry + recovery + [] == entry + recovery;
    assert LockPlan(r).steps == entry + recovery;
  }

  lemma {:induction false} AttemptsKeepIntended(r: Root, deaths: seq<nat>)
    requires Inv(r) && !Torn(r) && r.journal.NoJournal? && Candidates(Intended(r)) == 0
    ensures var r' := Attempts(r, deaths);
      Inv(r') && !Torn(r') && r'.journal.NoJournal? && Intended(r') == Intended(r)
    decreases |deaths|
  {
    hide Inv, Intended;
    if deaths != [] {
      var steps := LockPlan(r).steps;
      var k := if deaths[0] <= |steps| then deaths[0] else |steps|;
      LockSilent(r);
      LockMoves(r);
      SilentMovesKeep(steps, k, r);
      LockRepairs(r);
      RepairsNeverTear(steps, k, r);
      MovesKeepJournal(steps, k, r);
      AttemptsKeepIntended(Run(steps[..k], r), deaths[1..]);
    }
  }

  lemma {:induction false} MovesKeepJournal(steps: seq<Step>, k: nat, r: Root)
    requires k <= |steps| && All(steps, Moves)
    ensures Run(steps[..k], r).journal == r.journal
  {
    if k > 0 {
      assert steps[..k][1..] == steps[1..][..k - 1];
      MovesKeepJournal(steps[1..], k - 1, Apply(steps[0], r));
    }
  }

  /**
   An uninstall that dies after `k` steps, any number of crashes inside its recovery, then a
   completed recovery: all five owned names are back exactly as they were, or all five are gone, and
   gone exactly when `current.json` had been renamed into the trash.  Only a crash inside the
   exclusive create of the uninstall journal itself is left for manual recovery.
   */
  lemma UninstallAllOrNothing(r: Root, current: Pointer, k: nat, deaths: seq<nat>)
    requires Inv(r) && Idle(r) && r.tree.current == Some(current) && Candidates(r.tree) == 0
    requires k <= |CommitUninstallWork(r, current).steps|
    requires !Torn(Run(CommitUninstallWork(r, current).steps[..k], r))
    ensures var done := CommitUninstallWork(r, current).steps[..k];
      var r' := Recovered(Attempts(Run(done, r), deaths));
      && r'.tree == (if Switches(done, r) then EMPTY_TREE else r.tree)
      && r'.trash.None? && r'.notice.NoNotice? && r'.journal.NoJournal?
  {
    var steps := CommitUninstallWork(r, current).steps;
    var done := steps[..k];
    UninstallTracks(r, current);
    TracksPrefix(steps, k, r, Pair(None, None));
    UninstallMoves(r, current);
    AllPrefix(steps, k, Moves);
    TracksMovesKeep(done, r);
    MovesKeepJournal(steps, k, r);
    AttemptsKeepIntended(Run(done, r), deaths);
    LockMoves(Attempts(Run(done, r), deaths));
    LockSilent(Attempts(Run(done, r), deaths));
  }

  lemma {:induction false} AllPrefix(steps: seq<Step>, k: nat, f: Step -> bool)
    requires All(steps, f) && k <= |steps|
    ensures All(steps[..k], f)
  {
    if k > 0 {
      assert steps[..k][1..] == steps[1..][..k - 1];
      AllPrefix(steps[1..], k - 1, f);
    }
  }

  lemma UninstallMoves(r: Root, current: Pointer)
    requires r.tree.current == Some(current)
    ensures All(CommitUninstallWork(r, current).steps, Moves)
  {
    var n := Notice(UninstallPrepared, current, r.tree.lkg);
    var isolate := IsolateSteps(r.tree, n);
    IsolateMoves(r.tree, n);
    var commit := [Discard(Current), MarkNotice(UninstallCommitted)];
    AllConcat(isolate, commit, Moves);
    var r2 := Run(isolate + commit, r);
    EraseMovesBack(OWNED_NAMES, TrashOf(r2), Moves);
    AllConcat(EraseNames(OWNED_NAMES, TrashOf(r2)), [DropTrash], Moves);
    AllThree(DropMarker, DropNotice, DropRoot, Moves);
    AllConcat(EraseSteps(r2), [DropMarker, DropNotice, DropRoot], Moves);
    AllConcat(isolate + commit, FinishSteps(r2), Moves);
  }

  lemma IsolateMoves(t: Tree, n: Notice)
    ensures All(IsolateSteps(t, n), Moves)
  {
    var s1 := [OpenNotice, WriteNotice(n), MakeTrash];
    var s2 := OptionalStep(t.bin.Some?, Discard(Bin));
    var s3 := OptionalStep(t.snapshots.Some?, Discard(Snapshots));
    var s4 := OptionalStep(t.versions.Some?, Discard(VersionsDir));
    var s5 := OptionalStep(t.lkg.Some?, Discard(LastKnownGood));
    AllThree(OpenNotice, WriteNotice(n), MakeTrash, Moves);
    AllConcat(s1, s2, Moves);
    AllConcat(s1 + s2, s3, Moves);
    AllConcat(s1 + s2 + s3, s4, Moves);
    AllConcat(s1 + s2 + s3 + s4, [MarkNotice(UninstallIsolated)], Moves);
    AllConcat(s1 + s2 + s3 + s4 + [MarkNotice(UninstallIsolated)], s5, Moves);
  }

  // ----- Retrying after a crash

  /**
   A crash can leave an empty `versions` directory behind only between the removal of the last
   stale candidate and the removal of the directory itself.
   */
  predicate SweepCutShort(r: Root) {
    r.journal.NoJournal? && r.notice.NoNotice? && r.tree.versions == Some(Versions(map[], 0))
  }

  /**
   On every reachable root, an install of `p` whose checks pass is accepted if and only if no
   journal is torn, no other release is installed, and, when nothing is installed, no sweep was cut
   short: recovery leaves nothing else that the check for leftovers could refuse.
   */
  lemma InstallAccepted(r: Root, p: Pointer)
    requires Inv(r)
    ensures
      var answer := Section(r, InstallBundle(p, true, Smooth)).answer;
      answer.Unchanged? || answer.Performed? <==>
        && !Torn(r)
        && (Installed(r).current.None? ==> !SweepCutShort(r))
        && (Installed(r).current.Some? ==> Installed(r).current.value.digest == p.digest)
  {
    LockSilent(r);
    if !Torn(r) && Installed(r).current.None? {
      LockLeavesNothing(r);
    }
  }

  lemma LockLeavesNothing(r: Root)
    requires Inv(r) && !Torn(r) && Installed(r).current.None?
    ensures NoEntries(Recovered(r)) <==> !SweepCutShort(r)
  {
    LockSilent(r);
    EntrySilent(r);
    var r1 := Run(EntrySteps(r), r);
    if r1.journal.Journal? {
      PointerRecoverySilent(r1);
    } else if r1.notice.Notice? {
      UninstallRecoverySilent(r1);
    }
    var recovery := RecoverySteps(r1).steps;
    RunConcat(EntrySteps(r), recovery, r);
    SilentRunOfLock(r);
    var r2 := Run(EntrySteps(r) + recovery, r);
    SweepSilent(r2);
    RunConcat(EntrySteps(r) + recovery, SweepSteps(r2), r);
  }

  lemma SilentRunOfLock(r: Root)
    requires Inv(r) && !Torn(r)
    ensures var r2 := Run(EntrySteps(r) + RecoverySteps(Run(EntrySteps(r), r)).steps, r);
      Inv(r2) && r2.notice.NoNotice?
  {
    EntrySilent(r);
    var r1 := Run(EntrySteps(r), r);
    var recovery := RecoverySteps(r1).steps;
    if r1.journal.Journal? {
      PointerRecoverySilent(r1);
    } else if r1.notice.Notice? {
      UninstallRecoverySilent(r1);
    }
    SilentRun(recovery, r1);
    RunConcat(EntrySteps(r), recovery, r);
  }

  /** The root after installs of `p` that die after the given numbers of steps. */
  function Installs(r: Root, p: Pointer, deaths: seq<(Course, nat)>): Root
    decreases |deaths|
  {
    if deaths == [] then r else
      var steps := Section(r, InstallBundle(p, true, deaths[0].0)).steps;
      var k := if deaths[0].1 <= |steps| then deaths[0].1 else |steps|;
      Installs(Run(steps[..k], r), p, deaths[1..])
  }

  lemma {:induction false} InstallsKeep(r: Root, p: Pointer, deaths: seq<(Course, nat)>)
    requires Inv(r) && Installed(r) in {Pair(None, None), Pair(Some(p), Some(p))}
    ensures Inv(Installs(r, p, deaths))
    ensures Installed(Installs(r, p, deaths)) in {Pair(None, None), Pair(Some(p), Some(p))}
    decreases |deaths|
  {
    if deaths != [] {
      var q := InstallBundle(p, true, deaths[0].0);
      var steps := Section(r, q).steps;
      var k := if deaths[0].1 <= |steps| then deaths[0].1 else |steps|;
      SectionAtomic(r, q, k);
      InstallsKeep(Run(steps[..k], r), p, deaths[1..]);
    }
  }

  /** A retry of the same install, after any crashes of it, is refused only for a torn journal or a sweep cut short. */
  lemma InstallRetry(r: Root, p: Pointer, deaths: seq<(Course, nat)>)
    requires Inv(r) && Installed(r) == Pair(None, None)
    ensures
      var crashed := Installs(r, p, deaths);
      var answer := Section(crashed, InstallBundle(p, true, Smooth)).answer;
      answer.Unchanged? || answer.Performed? <==>
        !Torn(crashed) && (Installed(crashed).current.None? ==> !SweepCutShort(crashed))
  {
    InstallsKeep(r, p, deaths);
    InstallAccepted(Installs(r, p, deaths), p);
  }

  /** Right behind that crash, the retry of any install is refused. */
  lemma CutSweepRefuses(crashed: Root, p: Pointer)
    requires crashed == NOTHING.(present := true, marker := true, tree := EMPTY_TREE.(versions := Some(Versions(map[], 0))))
    ensures Section(crashed, InstallBundle(p, true, Smooth)).answer == Refusal(LeftoverEntries)
  {
    assert EntrySteps(crashed) == [];
    assert LockPlan(crashed).steps == [];
  }

  /** A rollback run to completion: its checking section, then, unless recovery finished the job, its commit. */
  function RollbackToEnd(r: Root): Root {
    var check := Section(r, CheckRollback(true));
    var r1 := Run(check.steps, r);
    if check.answer.Checked? && check.answer.previous.Some? && check.answer.current.digest != check.answer.previous.value.digest then
      Run(Section(r1, CommitRollback(check.answer.current, check.answer.previous.value, true, Smooth)).steps, r1)
    else
      r1
  }

  /** The checking section of a rollback takes the lock's steps only and hands on the two pointers. */
  lemma RollbackChecks(r: Root)
    requires Inv(r) && !Torn(r) && Installed(r).current.Some? && Installed(r).lkg.Some?
    requires Installed(r).current.value.digest != Installed(r).lkg.value.digest
    requires LockPlan(r).verdict != Ok(Committed, Some(Rollback))
    ensures
      var check := Section(r, CheckRollback(true));
      && check.steps == LockPlan(r).steps
      && check.answer == Checked(Installed(r).current.value, Installed(r).lkg)
  {
    LockSilent(r);
    hide LockPlan, Silent;
    assert LockPlan(r).steps + [] == LockPlan(r).steps;
  }

  /** The committing section swaps them. */
  lemma RollbackCommits(r: Root, current: Pointer, previous: Pointer)
    requires Inv(r) && !Torn(r) && Installed(r) == Pair(Some(current), Some(previous))
    requires current.digest != previous.digest
    ensures
      var q := CommitRollback(current, previous, true, Smooth);
      Installed(Run(Section(r, q).steps, r)) == Pair(Some(previous), Some(current))
  {
    var q := CommitRollback(current, previous, true, Smooth);
    LockSilent(r);
    var r1 := Recovered(r);
    hide LockPlan, Silent;
    WorkTracks(r1, LockPlan(r).verdict, q);
    RunConcat(LockPlan(r).steps, CommitRollbackWork(r1, q).steps, r);
  }

  /** A rollback that runs to completion on a root without journals swaps the two pointers. */
  lemma RollbackSwaps(r: Root)
    requires Inv(r) && !Torn(r) && Installed(r).current.Some? && Installed(r).lkg.Some?
    requires Installed(r).current.value.digest != Installed(r).lkg.value.digest
    requires LockPlan(r).verdict != Ok(Committed, Some(Rollback))
    ensures Installed(RollbackToEnd(r)) == Pair(Installed(r).lkg, Installed(r).current)
  {
    LockSilent(r);
    RollbackChecks(r);
    hide LockPlan, Silent, Section;
    var r1 := Recovered(r);
    RollbackCommits(r1, r1.tree.current.value, r1.tree.lkg.value);
  }

  /** Some journal of the transaction, whatever its phase. */
  predicate JournalOf(r: Root, tx: Transaction) {
    r.journal.Journal? ==> r.journal.tx == tx.(phase := r.journal.tx.phase)
  }

  predicate Writes(tx: Transaction, step: Step) {
    step.WriteJournal? ==> step.tx == tx
  }

  lemma {:induction false} JournalOrigin(steps: seq<Step>, k: nat, r: Root, tx: Transaction)
    requires k <= |steps| && JournalOf(r, tx) && All(steps, (s: Step) => Writes(tx, s))
    ensures JournalOf(Run(steps[..k], r), tx)
  {
    if k > 0 {
      assert steps[..k][1..] == steps[1..][..k - 1];
      JournalOrigin(steps[1..], k - 1, Apply(steps[0], r), tx);
    }
  }

  lemma {:induction false} AllWeaken(steps: seq<Step>, f: Step -> bool, g: Step -> bool)
    requires All(steps, f) && forall step :: f(step) ==> g(step)
    ensures All(steps, g)
  {
    if steps != [] {
      AllWeaken(steps[1..], f, g);
    }
  }

  lemma RollbackWrites(r: Root, q: Request, tx: Transaction)
    requires Sensible(q) && q.CommitRollback? && q.course.Smooth? && tx == RollbackTransaction(q.current, q.previous)
    ensures All(Section(r, q).steps, (s: Step) => Writes(tx, s))
  {
    hide LockPlan, BodySteps;
    var f := (s: Step) => Writes(tx, s);
    var lock := LockPlan(r);
    LockRepairs(r);
    AllWeaken(lock.steps, Repairs, f);
    BodyWrites(tx);
    if lock.verdict.Ok? {
      assert All([], f);
      AllConcat(lock.steps, WorkOf(Run(lock.steps, r), lock.verdict, q).steps, f);
    }
  }

  lemma BodyWrites(tx: Transaction)
    requires Readable(tx) && tx.operation == Rollback
    ensures All(BodySteps(tx), (s: Step) => Writes(tx, s))
  {
    var f := (s: Step) => Writes(tx, s);
    AllConcat(BeginSteps(tx), [], f);
    AllConcat(BeginSteps(tx) + [], PublishLead(tx), f);
    AllConcat(LeadSteps(tx), [SetCurrent(tx.currentAfter)], f);
    AllConcat(LeadSteps(tx) + [SetCurrent(tx.currentAfter)], PUBLISH_TAIL, f);
  }

  /**
   A rollback that crashes with its journal still on disk, then a rollback run to completion as the
   next locked operation: the two pointers are swapped exactly once in total.
   */
  lemma RollbackOnce(r: Root, q: Request, k: nat)
    requires Inv(r) && Sensible(q) && q.CommitRollback? && q.course.Smooth?
    requires r.journal.NoJournal? && Installed(r) == Pair(Some(q.current), Some(q.previous))
    requires k <= |Section(r, q).steps|
    requires Run(Section(r, q).steps[..k], r).journal.Journal?
    ensures Installed(RollbackToEnd(Run(Section(r, q).steps[..k], r))) == Pair(Some(q.previous), Some(q.current))
  {
    var crashed := Run(Section(r, q).steps[..k], r);
    SectionAtomic(r, q, k);
    var tx := RollbackTransaction(q.current, q.previous);
    RollbackWrites(r, q, tx);
    JournalOrigin(Section(r, q).steps, k, r, tx);
    RollbackResumes(crashed, tx);
  }

  lemma RollbackResumes(r: Root, tx: Transaction)
    requires Inv(r) && r.journal.Journal? && JournalOf(r, tx) && tx.operation.Rollback?
    requires tx.currentBefore.Some? && tx.lkgBefore.Some?
    requires tx.currentBefore.value.digest != tx.lkgBefore.value.digest
    ensures Installed(RollbackToEnd(r)) == Pair(tx.lkgBefore, tx.currentBefore)
  {
    PointerRecoverySilent(r);
    assert EntrySteps(r) == [];
    if Aborting(r) {
      RollbackSwaps(r);
    } else {
      LockSilent(r);
      assert LockPlan(r).steps + [] == LockPlan(r).steps;
    }
  }
}
