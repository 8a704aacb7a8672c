/**
 What a crashed transaction leaves once it has been recovered: everything it was to do, or nothing of it.

 `View` is a tree without what a crash may leave to the next section: stale candidates and empty
 directories.
 */
module InstallOutcomes {
  import opened Options
  import opened InstallRoot
  import opened InstallPlans
  import opened InstallSections
  import opened InstallRuns

  datatype View = View(
    current: Option<Pointer>, lkg: Option<Pointer>, bin: Option<set<Launcher>>,
    snapshots: map<nat, Pointer>, generations: map<Digest, Generation>)

  function Snapshots(t: Tree): map<nat, Pointer> {
    if t.snapshots.None? then map[] else t.snapshots.value
  }

  function ViewOf(t: Tree): View {
    View(t.current, t.lkg, t.bin, Snapshots(t), Generations(t))
  }

  /** The snapshot a transaction writes. */
  function OwnSnapshots(tx: Transaction): set<nat> {
    if tx.snapshot.None? then {} else {tx.snapshot.value}
  }

  /** The generation it made, unless a pointer it started from names it. */
  function OwnGenerations(tx: Transaction): set<Digest> {
    if tx.currentAfter.Some? && OwnCandidate(tx, tx.currentAfter.value.digest) then {tx.currentAfter.value.digest} else {}
  }

  /** Nothing of the transaction: both pointers as before it, and none of its own names. */
  function Undone(t: Tree, tx: Transaction): View {
    View(tx.currentBefore, tx.lkgBefore, if tx.launchersOwned then None else t.bin,
         Snapshots(t) - OwnSnapshots(tx), Generations(t) - OwnGenerations(tx))
  }

  /** All of it: both pointers switched, its snapshot of the pointer before, and what an install ships. */
  function Done(t: Tree, tx: Transaction): View
    requires Readable(tx)
  {
    View(tx.currentAfter, tx.lkgAfter, if tx.operation.Install? then Some({Cortex, Cortexd}) else t.bin,
         if tx.snapshot.None? then Snapshots(t) else Snapshots(t)[tx.snapshot.value := tx.currentBefore.value],
         if tx.operation.Install?
         then Generations(t)[tx.currentAfter.value.digest := Whole(tx.currentAfter.value)] else Generations(t))
  }

  /** What recovery will make of a root. */
  function Outcome(r: Root): View {
    if Aborting(r) then Undone(r.tree, r.journal.tx)
    else if r.journal.Journal? then ViewOf(r.tree).(current := r.journal.tx.currentAfter, lkg := r.journal.tx.lkgAfter)
    else ViewOf(r.tree)
  }

  // ----- The steps of recovery

  /** Steps that leave the root's own files and the uninstall journal alone. */
  predicate Mends(step: Step) {
    || step.SetCurrent? || step.SetLastKnownGood? || step.DropJournal?
    || step.DropSnapshot? || step.DropEmptySnapshots?
    || step.Wound? || step.DropGeneration? || step.DropEmptyVersions? || step.DropCandidate?
    || step.DropLauncher? || step.DropBin?
  }

  predicate Standing(r: Root) {
    r.present && r.marker && r.notice.NoNotice? && r.trash.None? && !r.journal.TornJournal?
  }

  lemma {:induction false} MendsKeepStanding(steps: seq<Step>, k: nat, r: Root)
    requires All(steps, Mends) && k <= |steps| && Standing(r)
    ensures Standing(Run(steps[..k], r))
  {
    if k > 0 {
      assert steps[..k][1..] == steps[1..][..k - 1];
      MendsKeepStanding(steps[1..], k - 1, Apply(steps[0], r));
    }
  }

  /** The steps by which an abort takes back what the transaction made. */
  predicate TakesBack(step: Step, tx: Transaction) {
    match step
    case SetCurrent(p) => p == tx.currentBefore
    case SetLastKnownGood(_) => true
    case DropSnapshot(name) => tx.snapshot == Some(name)
    case DropEmptySnapshots => true
    case Wound(d) => d in OwnGenerations(tx)
    case DropGeneration(d) => d in OwnGenerations(tx)
    case DropEmptyVersions => true
    case DropLauncher(_) => tx.launchersOwned
    case DropBin => tx.launchersOwned
    case _ => false
  }

  function TakingBack(tx: Transaction): Step -> bool {
    step => TakesBack(step, tx)
  }

  lemma TakingBackKeeps(step: Step, r: Root)
    requires Aborting(r) && Readable(r.journal.tx) && TakesBack(step, r.journal.tx)
    ensures Aborting(Apply(step, r)) && Apply(step, r).journal == r.journal && Outcome(Apply(step, r)) == Outcome(r)
  {
    var t, t', tx := r.tree, Apply(step, r).tree, r.journal.tx;
    assert Snapshots(t') - OwnSnapshots(tx) == Snapshots(t) - OwnSnapshots(tx);
    assert Generations(t') - OwnGenerations(tx) == Generations(t) - OwnGenerations(tx);
  }

  lemma {:induction false} TakenBackKeeps(steps: seq<Step>, k: nat, r: Root)
    requires Aborting(r) && Readable(r.journal.tx) && All(steps, TakingBack(r.journal.tx)) && k <= |steps|
    ensures Outcome(Run(steps[..k], r)) == Outcome(r)
  {
    hide Outcome, Apply;
    if k > 0 {
      assert steps[..k][1..] == steps[1..][..k - 1];
      TakingBackKeeps(steps[0], r);
      TakenBackKeeps(steps[1..], k - 1, Apply(steps[0], r));
    }
  }

  /** All of an abort but the removal of the journal. */
  function AbortLead(t: Tree, tx: Transaction): seq<Step>
    requires Readable(tx)
  {
    [SetCurrent(tx.currentBefore), SetLastKnownGood(tx.lkgBefore)]
    + DropSnapshotSteps(t, tx.snapshot)
    + DropCandidateSteps(t, tx)
    + (if tx.launchersOwned then DropBinSteps(t) else [])
  }

  lemma LeadTakesBack(t: Tree, tx: Transaction)
    requires Readable(tx)
    ensures All(AbortLead(t, tx), TakingBack(tx)) && AbortSteps(t, tx) == AbortLead(t, tx) + [DropJournal]
  {
    var f := TakingBack(tx);
    var s1 := [SetCurrent(tx.currentBefore), SetLastKnownGood(tx.lkgBefore)];
    assert s1[1..] == [SetLastKnownGood(tx.lkgBefore)] && s1[1..][1..] == [];
    var s2 := DropSnapshotSteps(t, tx.snapshot);
    assert s2 != [] ==> s2[1..] == [DropEmptySnapshots] && s2[1..][1..] == [];
    var s3 := DropCandidateSteps(t, tx);
    CandidateTakesBack(t, tx);
    var s4 := if tx.launchersOwned then DropBinSteps(t) else [];
    if s4 != [] { AllThree(DropLauncher(Cortex), DropLauncher(Cortexd), DropBin, f); }
    hide DropSnapshotSteps, DropCandidateSteps, DropBinSteps, TakesBack;
    AllConcat(s1, s2, f);
    AllConcat(s1 + s2, s3, f);
    AllConcat(s1 + s2 + s3, s4, f);
  }

  lemma CandidateTakesBack(t: Tree, tx: Transaction)
    requires Readable(tx)
    ensures All(DropCandidateSteps(t, tx), TakingBack(tx))
  {
    var f := TakingBack(tx);
    if OwnCandidate(tx, tx.currentAfter.value.digest) {
      var d := tx.currentAfter.value.digest;
      var g := DropGenerationSteps(t, d);
      assert g != [] ==> g[1..] == [DropGeneration(d)] && g[1..][1..] == [];
      AllConcat(g, [DropEmptyVersions], f);
    }
  }

  /** Aborted, a root shows nothing of the transaction. */
  lemma AbortedShows(r: Root, r': Root)
    requires Aborting(r) && Readable(r.journal.tx) && AbortedTo(r, r.journal.tx, r')
    ensures ViewOf(r'.tree) == Undone(r.tree, r.journal.tx) && Outcome(r') == Outcome(r)
  {
    var t, t', tx := r.tree, r'.tree, r.journal.tx;
    assert Snapshots(t') == Snapshots(t) - OwnSnapshots(tx) by {
      if t.snapshots.Some? && tx.snapshot.Some? && t.snapshots.value.Keys == {tx.snapshot.value} {
        assert t.snapshots.value - {tx.snapshot.value} == map[];
      }
    }
    assert Generations(t') == Generations(t) - OwnGenerations(tx);
  }

  lemma PointerRecoveryKeeps(r: Root, k: nat)
    requires Inv(r) && r.journal.Journal? && k <= |PointerRecovery(r).steps|
    ensures Outcome(Run(PointerRecovery(r).steps[..k], r)) == Outcome(r)
  {
    PointerRecoverySilent(r);
    hide Silent, Outcome;
    var steps := PointerRecovery(r).steps;
    if Aborting(r) {
      hide Run, Apply;
      var tx := r.journal.tx;
      LeadTakesBack(r.tree, tx);
      var lead := AbortLead(r.tree, tx);
      assert steps == lead + [DropJournal];
      if k < |steps| {
        assert steps[..k] == lead[..k];
        TakenBackKeeps(lead, k, r);
      } else {
        assert steps[..k] == steps;
        AbortedShows(r, Run(steps, r));
      }
    } else {
      CommitKeeps(r, k);
    }
  }

  lemma CommitKeeps(r: Root, k: nat)
    requires Inv(r) && r.journal.Journal? && !Aborting(r) && k <= 3
    ensures |CommitSteps(r.journal.tx)| == 3 && Outcome(Run(CommitSteps(r.journal.tx)[..k], r)) == Outcome(r)
  {
    var tx := r.journal.tx;
    RunThree(SetLastKnownGood(tx.lkgAfter), SetCurrent(tx.currentAfter), DropJournal, r);
    var steps := CommitSteps(tx);
    assert steps[..0] == [] && steps[..3] == steps;
    assert r.tree.lkg == tx.lkgAfter && r.tree.current == tx.currentAfter;
    if k == 1 {
      assert Run(steps[..1], r) == r;
    } else if k == 2 {
      assert Run(steps[..2], r) == r;
    } else if k == 3 {
      assert Run(steps, r) == r.(journal := NoJournal);
    }
  }

  lemma RunThree(a: Step, b: Step, c: Step, r: Root)
    ensures Run([a, b, c][..1], r) == Apply(a, r)
    ensures Run([a, b, c][..2], r) == Apply(b, Apply(a, r))
    ensures Run([a, b, c], r) == Apply(c, Apply(b, Apply(a, r)))
  {
    hide Apply;
    var steps := [a, b, c];
    assert steps[..1] == [a] && [a][1..] == [];
    assert steps[..2] == [a, b] && [a, b][1..] == [b] && [b][1..] == [];
    assert steps[1..] == [b, c] && [b, c][1..] == [c] && [c][1..] == [];
    assert Run([b], Apply(a, r)) == Apply(b, Apply(a, r));
    assert Run([a, b], r) == Run([b], Apply(a, r));
    assert Run([c], Apply(b, Apply(a, r))) == Apply(c, Apply(b, Apply(a, r)));
    assert Run([b, c], Apply(a, r)) == Run([c], Apply(b, Apply(a, r)));
  }

  predicate Sweeps(step: Step) {
    step.DropCandidate? || step.DropEmptyVersions?
  }

  lemma {:induction false} SweepsKeep(steps: seq<Step>, k: nat, r: Root)
    requires All(steps, Sweeps) && k <= |steps| && r.journal.NoJournal?
    ensures Outcome(Run(steps[..k], r)) == Outcome(r)
  {
    if k > 0 {
      assert steps[..k][1..] == steps[1..][..k - 1];
      SweepsKeep(steps[1..], k - 1, Apply(steps[0], r));
    }
  }

  lemma {:induction false} DropsSweep(n: nat)
    ensures All(seq(n, _ => DropCandidate), Sweeps)
  {
    if n > 0 {
      var s := seq(n, _ => DropCandidate);
      assert s[1..] == seq(n - 1, _ => DropCandidate);
      DropsSweep(n - 1);
    }
  }

  lemma SweepStepsSweep(r: Root)
    ensures All(SweepSteps(r), Sweeps)
  {
    DropsSweep(Candidates(r.tree));
    AllConcat(seq(Candidates(r.tree), _ => DropCandidate), [DropEmptyVersions], Sweeps);
  }

  /** The steps of the lock on a standing root: pointer recovery, then the sweep. */
  lemma LockOnStanding(r: Root)
    requires Inv(r) && Standing(r)
    ensures
      var recovery := PointerRecovery(r).steps;
      var r1 := Run(recovery, r);
      && LockPlan(r).steps == recovery + SweepSteps(r1) && r1.journal.NoJournal?
      && All(LockPlan(r).steps, Mends)
  {
    assert EntrySteps(r) == [];
    var recovery := PointerRecovery(r).steps;
    if r.journal.Journal? { PointerRecoverySilent(r); }
    hide PointerRecovery, SweepSteps, Silent;
    assert [] + recovery == recovery;
    LockMends(r);
  }

  lemma LockMends(r: Root)
    requires Inv(r) && Standing(r)
    ensures All(PointerRecovery(r).steps + SweepSteps(Run(PointerRecovery(r).steps, r)), Mends)
  {
    var recovery := PointerRecovery(r).steps;
    var sweep := SweepSteps(Run(recovery, r));
    SweepStepsSweep(Run(recovery, r));
    AllWeaken(sweep, Sweeps, Mends);
    if r.journal.Journal? {
      PointerRecoverySilent(r);
      var tx := r.journal.tx;
      if Aborting(r) {
        LeadTakesBack(r.tree, tx);
        AllWeaken(AbortLead(r.tree, tx), TakingBack(tx), Mends);
        AllConcat(AbortLead(r.tree, tx), [DropJournal], Mends);
      } else {
        AllThree(SetLastKnownGood(tx.lkgAfter), SetCurrent(tx.currentAfter), DropJournal, Mends);
      }
    }
    AllConcat(recovery, sweep, Mends);
  }

  lemma LockKeepsOutcome(r: Root, k: nat)
    requires Inv(r) && Standing(r) && k <= |LockPlan(r).steps|
    ensures var r' := Run(LockPlan(r).steps[..k], r);
      Inv(r') && Standing(r') && Outcome(r') == Outcome(r)
  {
    LockOnStanding(r);
    LockSilent(r);
    SilentKeeps(LockPlan(r).steps, k, r);
    MendsKeepStanding(LockPlan(r).steps, k, r);
    hide Silent, Outcome, LockPlan, PointerRecovery, SweepSteps, Run, Standing, Inv;
    RecoveryKeepsOutcome(r, k);
  }

  lemma RecoveryKeepsOutcome(r: Root, k: nat)
    requires Inv(r) && Standing(r) && k <= |LockPlan(r).steps|
    ensures Outcome(Run(LockPlan(r).steps[..k], r)) == Outcome(r)
  {
    LockOnStanding(r);
    hide *;
    var steps := LockPlan(r).steps;
    var recovery := PointerRecovery(r).steps;
    var sweep := SweepSteps(Run(recovery, r));
    if k <= |recovery| {
      assert steps[..k] == recovery[..k];
      RecoveryStepsKeep(r, k);
    } else {
      RecoveryStepsKeep(r, |recovery|);
      assert recovery[..|recovery|] == recovery;
      SweepKeepsOutcome(recovery, r, k - |recovery|);
      assert (recovery + sweep)[..k] == recovery + sweep[..k - |recovery|];
    }
  }

  lemma RecoveryStepsKeep(r: Root, k: nat)
    requires Inv(r) && Standing(r) && k <= |PointerRecovery(r).steps|
    ensures Outcome(Run(PointerRecovery(r).steps[..k], r)) == Outcome(r)
  {
    var recovery := PointerRecovery(r).steps;
    if r.journal.Journal? {
      PointerRecoveryKeeps(r, k);
    } else {
      NothingToRecover(r);
      assert recovery[..k] == [];
    }
  }

  /** The sweep behind whatever was done before it. */
  lemma SweepKeepsOutcome(done: seq<Step>, r: Root, k: nat)
    requires Run(done, r).journal.NoJournal? && k <= |SweepSteps(Run(done, r))|
    ensures Outcome(Run(done + SweepSteps(Run(done, r))[..k], r)) == Outcome(Run(done, r))
  {
    hide Outcome, SweepSteps, Run;
    var r1 := Run(done, r);
    var sweep := SweepSteps(r1);
    RunConcat(done, sweep[..k], r);
    SweepStepsSweep(r1);
    SweepsKeep(sweep, k, r1);
  }

  lemma NothingToRecover(r: Root)
    requires r.journal.NoJournal?
    ensures PointerRecovery(r).steps == [] && Run([], r) == r
  {
  }

  lemma {:induction false} AttemptsKeepOutcome(r: Root, deaths: seq<nat>)
    requires Inv(r) && Standing(r)
    ensures var r' := Attempts(r, deaths); Inv(r') && Standing(r') && Outcome(r') == Outcome(r)
    decreases |deaths|
  {
    hide Outcome, Standing, Inv, LockPlan, Run;
    if deaths != [] {
      var steps := LockPlan(r).steps;
      var k := if deaths[0] <= |steps| then deaths[0] else |steps|;
      LockKeepsOutcome(r, k);
      AttemptsKeepOutcome(Run(steps[..k], r), deaths[1..]);
    }
  }

  /** A completed recovery, after any number that were cut short, leaves exactly the outcome and no candidate. */
  lemma RecoveredShows(r: Root, deaths: seq<nat>)
    requires Inv(r) && Standing(r)
    ensures var r' := InstallRuns.Recovered(Attempts(r, deaths));
      ViewOf(r'.tree) == Outcome(r) && Candidates(r'.tree) == 0
  {
    AttemptsKeepOutcome(r, deaths);
    var crashed := Attempts(r, deaths);
    hide Silent, LockPlan, Run, Attempts;
    LockSilent(crashed);
    var steps := LockPlan(crashed).steps;
    LockKeepsOutcome(crashed, |steps|);
    assert steps[..|steps|] == steps;
  }

  // ----- The steps of a transaction

  /** The steps by which a transaction makes what it owns, before it publishes. */
  predicate Prepares(step: Step, tx: Transaction) {
    match step
    case MarkPhase(_) => true
    case SetLastKnownGood(_) => true
    case WriteSnapshot(name, _) => tx.snapshot == Some(name)
    case MakeVersions => true
    case MakeCandidate => true
    case Publish(p) => p.digest in OwnGenerations(tx)
    case MakeBin => tx.launchersOwned
    case WriteLauncher(_) => tx.launchersOwned
    case _ => false
  }

  /** A journal of this transaction, in whatever phase, with `current.json` not switched. */
  predicate Open(r: Root, tx: Transaction) {
    Aborting(r) && r.journal.tx == tx.(phase := r.journal.tx.phase)
  }

  lemma PreparesKeeps(step: Step, r: Root, tx: Transaction)
    requires Open(r, tx) && Prepares(step, tx)
    ensures Open(Apply(step, r), tx) && Outcome(Apply(step, r)) == Outcome(r)
  {
    var t, t' := r.tree, Apply(step, r).tree;
    assert OwnGenerations(r.journal.tx) == OwnGenerations(tx);
    assert Snapshots(t') - OwnSnapshots(tx) == Snapshots(t) - OwnSnapshots(tx);
    assert Generations(t') - OwnGenerations(tx) == Generations(t) - OwnGenerations(tx);
  }

  function Preparing(tx: Transaction): Step -> bool {
    step => Prepares(step, tx)
  }

  lemma {:induction false} PreparedKeeps(steps: seq<Step>, k: nat, r: Root, tx: Transaction)
    requires Open(r, tx) && All(steps, Preparing(tx)) && k <= |steps|
    ensures Open(Run(steps[..k], r), tx) && Outcome(Run(steps[..k], r)) == Outcome(r)
  {
    hide Outcome, Apply, Open;
    if k > 0 {
      assert steps[..k][1..] == steps[1..][..k - 1];
      PreparesKeeps(steps[0], r, tx);
      PreparedKeeps(steps[1..], k - 1, Apply(steps[0], r), tx);
    }
  }

  lemma LeadPrepares(tx: Transaction)
    requires Readable(tx)
    ensures All(PrepareSteps(tx) + PublishLead(tx), Preparing(tx))
  {
    var f := Preparing(tx);
    var publish := PublishLead(tx);
    assert publish[1..] == [MarkPhase(LastKnownGoodPublished)] && publish[1..][1..] == [];
    match tx.operation {
      case Install =>
        AllThree(MakeVersions, MakeCandidate, Publish(tx.currentAfter.value), f);
        AllThree(MakeBin, WriteLauncher(Cortex), WriteLauncher(Cortexd), f);
        AllConcat(StageSteps(tx.currentAfter.value), LAUNCHER_STEPS, f);
      case Upgrade =>
        var write := PrepareSteps(tx);
        assert write[1..] == [];
      case Rollback =>
    }
    AllConcat(PrepareSteps(tx), publish, f);
  }

  /** Begun and not switched: the outcome is that nothing happened. */
  lemma LeadShows(r: Root, tx: Transaction, k: nat)
    requires Inv(r) && Startable(r, tx) && 2 <= k <= |LeadSteps(tx)|
    ensures var r' := Run(LeadSteps(tx)[..k], r);
      Open(r', tx) && Outcome(r') == Undone(r.tree, tx)
  {
    BeginSilent(r, tx);
    hide Silent;
    var begin, rest := BeginSteps(tx), PrepareSteps(tx) + PublishLead(tx);
    assert LeadSteps(tx) == begin + rest;
    assert LeadSteps(tx)[..k] == begin + rest[..k - 2];
    RunConcat(begin, rest[..k - 2], r);
    LeadPrepares(tx);
    var begun := Run(begin, r);
    assert begun == r.(journal := Journal(tx));
    assert Open(begun, tx) && Outcome(begun) == Undone(r.tree, tx) by { DifferentPointers(r, tx); }
    hide Outcome, Open, Run;
    PreparedKeeps(rest, k - 2, begun, tx);
  }

  lemma DifferentPointers(r: Root, tx: Transaction)
    requires Startable(r, tx)
    ensures tx.currentBefore == r.tree.current != tx.currentAfter
  {
  }

  /** The tree once everything is prepared. */
  function PreparedTree(t: Tree, tx: Transaction): Tree
    requires Readable(tx)
  {
    match tx.operation
    case Install =>
      t.(bin := Some({Cortex, Cortexd}),
         versions := Some(Versions(map[tx.currentAfter.value.digest := Whole(tx.currentAfter.value)], 0)))
    case Upgrade => t.(snapshots := Some(Snapshots(t)[tx.snapshot.value := tx.currentBefore.value]))
    case Rollback => t
  }

  lemma PreparedIs(r: Root, tx: Transaction)
    requires Inv(r) && Startable(r, tx)
    ensures Run(BeginSteps(tx) + PrepareSteps(tx), r) == r.(journal := Journal(tx), tree := PreparedTree(r.tree, tx))
  {
    BeginSilent(r, tx);
    hide Silent;
    var begun := Run(BeginSteps(tx), r);
    RunConcat(BeginSteps(tx), PrepareSteps(tx), r);
    match tx.operation {
      case Install => InstallPrepareSilent(begun, tx);
      case Upgrade => assert PrepareSteps(tx)[1..] == [];
      case Rollback =>
    }
  }

  /** Right before the switch, and after each step from the switch on. */
  lemma LeadIs(r: Root, tx: Transaction)
    requires Inv(r) && Startable(r, tx)
    ensures Run(LeadSteps(tx), r) ==
      r.(journal := Journal(tx.(phase := LastKnownGoodPublished)), tree := PreparedTree(r.tree, tx).(lkg := tx.lkgAfter))
  {
    PreparedIs(r, tx);
    PrepareSilent(r, tx);
    var prepare := BeginSteps(tx) + PrepareSteps(tx);
    PublishLeadSilent(Run(prepare, r), tx);
    RunConcat(prepare, PublishLead(tx), r);
    assert LeadSteps(tx) == prepare + PublishLead(tx);
  }

  lemma SwitchShows(r: Root, tx: Transaction, k: nat)
    requires Inv(r) && Startable(r, tx) && |LeadSteps(tx)| < k <= |BodySteps(tx)|
    ensures var r' := Run(BodySteps(tx)[..k], r);
      && (k < |BodySteps(tx)| ==> r'.journal.Journal? && !Aborting(r')) && Standing(r')
      && r'.tree == PreparedTree(r.tree, tx).(current := tx.currentAfter, lkg := tx.lkgAfter)
      && Outcome(r') == Done(r.tree, tx)
      && (k == |BodySteps(tx)| ==> r'.journal.NoJournal?)
  {
    LeadIs(r, tx);
    hide PreparedTree, PrepareSteps, Inv;
    var lead := LeadSteps(tx);
    var r2 := Run(lead, r);
    var tail := [SetCurrent(tx.currentAfter)] + PUBLISH_TAIL;
    assert BodySteps(tx) == lead + tail;
    assert BodySteps(tx)[..k] == lead + tail[..k - |lead|];
    RunConcat(lead, tail[..k - |lead|], r);
    TailShows(r2, tx, k - |lead|);
  }

  lemma TailShows(r: Root, tx: Transaction, j: nat)
    requires r.journal.Journal? && r.journal.tx == tx.(phase := r.journal.tx.phase) && 1 <= j <= 3
    ensures var r' := Run(([SetCurrent(tx.currentAfter)] + PUBLISH_TAIL)[..j], r);
      && r' == r.(journal := r'.journal, tree := r.tree.(current := tx.currentAfter))
      && (if j == 3 then r'.journal.NoJournal?
          else r'.journal.Journal? && r'.journal.tx == tx.(phase := r'.journal.tx.phase))
  {
    RunThree(SetCurrent(tx.currentAfter), MarkPhase(CurrentPublished), DropJournal, r);
    var tail := [SetCurrent(tx.currentAfter), MarkPhase(CurrentPublished), DropJournal];
    assert [SetCurrent(tx.currentAfter)] + PUBLISH_TAIL == tail && tail[..3] == tail;
  }

  /**
   A transaction of an install, an upgrade or a rollback that dies after any of its steps, any number of
   crashes inside its recovery, then a completed recovery: if `current.json` had been switched, everything
   the transaction was to do is done; otherwise nothing of it is left, its snapshot, its generation and its
   launchers included, and everything else is as it was.  Only a crash inside the exclusive create of the
   journal itself is left for manual recovery.
   */
  lemma TransactionAllOrNothing(r: Root, tx: Transaction, k: nat, deaths: seq<nat>)
    requires Inv(r) && Startable(r, tx) && k <= |BodySteps(tx)| && k != 1
    ensures var r' := InstallRuns.Recovered(Attempts(Run(BodySteps(tx)[..k], r), deaths));
      && ViewOf(r'.tree) ==
           (if k == 0 then ViewOf(r.tree) else if k <= |LeadSteps(tx)| then Undone(r.tree, tx) else Done(r.tree, tx))
      && Candidates(r'.tree) == 0
  {
    var crashed := Run(BodySteps(tx)[..k], r);
    BodyKeepsStanding(r, tx, k);
    hide Standing, Undone, Done, Startable, Run, Attempts;
    if k == 0 {
      NothingTaken(r, tx);
    } else if k <= |LeadSteps(tx)| {
      assert BodySteps(tx)[..k] == LeadSteps(tx)[..k];
      LeadShows(r, tx, k);
    } else {
      SwitchShows(r, tx, k);
    }
    RecoveredShows(crashed, deaths);
  }

  lemma NothingTaken(r: Root, tx: Transaction)
    requires Inv(r) && Startable(r, tx)
    ensures Run(BodySteps(tx)[..0], r) == r && Outcome(r) == ViewOf(r.tree)
  {
    assert BodySteps(tx)[..0] == [];
  }

  lemma BodyKeepsStanding(r: Root, tx: Transaction, k: nat)
    requires Inv(r) && Startable(r, tx) && k <= |BodySteps(tx)| && k != 1
    ensures var r' := Run(BodySteps(tx)[..k], r); Inv(r') && Standing(r')
  {
    BodyTracks(r, tx);
    TracksPrefix(BodySteps(tx), k, r, Pair(tx.currentAfter, tx.lkgAfter));
    TracksKeeps(BodySteps(tx)[..k], r, Pair(tx.currentAfter, tx.lkgAfter));
    hide Tracks, Outcome;
    if k == 0 {
      assert BodySteps(tx)[..0] == [];
    } else if k <= |LeadSteps(tx)| {
      assert BodySteps(tx)[..k] == LeadSteps(tx)[..k];
      LeadShows(r, tx, k);
      OpenStands(Run(BodySteps(tx)[..k], r), tx);
    } else {
      SwitchShows(r, tx, k);
    }
  }

  lemma OpenStands(r: Root, tx: Transaction)
    requires Inv(r) && Open(r, tx)
    ensures Standing(r)
  {
  }
}
