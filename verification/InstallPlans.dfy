/**
 What each locked section of the installer does, as the list of durable steps it takes.

 A section reads the root once it holds the lock, so its steps are a function of the root it
 finds.  A process that dies after `k` of them leaves `Run(steps[..k], r)`.
 */
module InstallPlans {
  import opened Options
  import opened InstallRoot

  function Run(steps: seq<Step>, r: Root): Root {
    if steps == [] then r else Run(steps[1..], Apply(steps[0], r))
  }

  /** Every step of the list may be taken when it is reached. */
  ghost predicate Guarded(steps: seq<Step>, r: Root) {
    steps == [] || (Guard(steps[0], r) && Guarded(steps[1..], Apply(steps[0], r)))
  }

  /** ... and none of them changes what is installed. */
  ghost predicate Silent(steps: seq<Step>, r: Root) {
    steps == [] || (Guard(steps[0], r) && !Commits(steps[0], r) && Silent(steps[1..], Apply(steps[0], r)))
  }

  // ----- Lists of steps

  lemma {:induction false} RunConcat(a: seq<Step>, b: seq<Step>, r: Root)
    ensures Run(a + b, r) == Run(b, Run(a, r))
  {
    if a == [] {
      assert a + b == b;
    } else {
      assert (a + b)[1..] == a[1..] + b;
      RunConcat(a[1..], b, Apply(a[0], r));
    }
  }

  lemma {:induction false} SilentConcat(a: seq<Step>, b: seq<Step>, r: Root)
    requires Silent(a, r) && Silent(b, Run(a, r))
    ensures Silent(a + b, r) && Run(a + b, r) == Run(b, Run(a, r))
  {
    RunConcat(a, b, r);
    if a == [] {
      assert a + b == b;
    } else {
      assert (a + b)[1..] == a[1..] + b;
      SilentConcat(a[1..], b, Apply(a[0], r));
    }
  }

  /** However far a guarded list of steps gets, the invariant holds. */
  lemma {:induction false} GuardedKeeps(steps: seq<Step>, k: nat, r: Root)
    requires Inv(r) && Guarded(steps, r) && k <= |steps|
    ensures Inv(Run(steps[..k], r))
  {
    if k > 0 {
      StepKeeps(steps[0], r);
      GuardedKeeps(steps[1..], k - 1, Apply(steps[0], r));
      assert steps[..k][1..] == steps[1..][..k - 1];
    }
  }

  /** However far a silent list of steps gets, what is installed is what was installed. */
  lemma {:induction false} SilentKeeps(steps: seq<Step>, k: nat, r: Root)
    requires Inv(r) && Silent(steps, r) && k <= |steps|
    ensures Inv(Run(steps[..k], r)) && Installed(Run(steps[..k], r)) == Installed(r)
  {
    if k > 0 {
      StepKeeps(steps[0], r);
      SilentKeeps(steps[1..], k - 1, Apply(steps[0], r));
      assert steps[..k][1..] == steps[1..][..k - 1];
    }
  }

  lemma SilentRun(steps: seq<Step>, r: Root)
    requires Inv(r) && Silent(steps, r)
    ensures Inv(Run(steps, r)) && Installed(Run(steps, r)) == Installed(r)
  {
    SilentKeeps(steps, |steps|, r);
    assert steps[..|steps|] == steps;
  }

  lemma SilentNil(r: Root)
    ensures Silent([], r) && Run([], r) == r
  {
  }

  /** Adds one silent step to a list already taken. */
  lemma Then(done: seq<Step>, step: Step, r0: Root, r: Root) returns (done': seq<Step>, r': Root)
    requires Silent(done, r0) && Run(done, r0) == r && Guard(step, r) && !Commits(step, r)
    ensures done' == done + [step] && r' == Apply(step, r)
    ensures Silent(done', r0) && Run(done', r0) == r'
  {
    done', r' := done + [step], Apply(step, r);
    assert [step][1..] == [];
    SilentConcat(done, [step], r0);
  }

  // ----- Recovery

  datatype Action = NoAction | Aborted | Committed | Completed

  datatype Reason =
    | ManualRecovery | JournalUnreadable | JournalInvalid | Unowned
    | VersionMissing | SnapshotUnavailable | LaunchersUnavailable
    | NotInstalled | AlreadyInstalled | LeftoverEntries | Downgrade | NoPriorVersion
    | ChangedMeanwhile | CheckFailed

  datatype Verdict = Ok(action: Action, operation: Option<Operation>) | Refused(reason: Reason)

  /** The steps taken, and how the section went on afterwards. */
  datatype Plan = Plan(steps: seq<Step>, verdict: Verdict)

  function OptionalStep(c: bool, step: Step): seq<Step> {
    if c then [step] else []
  }

  function DropSnapshotSteps(t: Tree, name: Option<nat>): seq<Step> {
    if name.Some? && t.snapshots.Some? && name.value in t.snapshots.value
    then [DropSnapshot(name.value), DropEmptySnapshots]
    else []
  }

  function DropGenerationSteps(t: Tree, d: Digest): seq<Step> {
    if d in Generations(t) then [Wound(d), DropGeneration(d)] else []
  }

  function DropBinSteps(t: Tree): seq<Step> {
    if t.bin.Some? then [DropLauncher(Cortex), DropLauncher(Cortexd), DropBin] else []
  }

  /** The generation the transaction made and that neither pointer of the before-pair names. */
  predicate OwnCandidate(tx: Transaction, d: Digest) {
    && tx.candidateOwned && Names(tx.currentAfter, d)
    && tx.currentBefore != tx.currentAfter && tx.lkgBefore != tx.currentAfter
  }

  function DropCandidateSteps(t: Tree, tx: Transaction): seq<Step>
    requires Readable(tx)
  {
    if OwnCandidate(tx, tx.currentAfter.value.digest)
    then DropGenerationSteps(t, tx.currentAfter.value.digest) + [DropEmptyVersions]
    else []
  }

  function AbortSteps(t: Tree, tx: Transaction): seq<Step>
    requires Readable(tx)
  {
    [SetCurrent(tx.currentBefore), SetLastKnownGood(tx.lkgBefore)]
    + DropSnapshotSteps(t, tx.snapshot)
    + DropCandidateSteps(t, tx)
    + (if tx.launchersOwned then DropBinSteps(t) else [])
    + [DropJournal]
  }

  function CommitSteps(tx: Transaction): seq<Step> {
    [SetLastKnownGood(tx.lkgAfter), SetCurrent(tx.currentAfter), DropJournal]
  }

  /** `_recover_transaction_locked`. */
  function PointerRecovery(r: Root): Plan {
    match r.journal
    case NoJournal => Plan([], Ok(NoAction, None))
    case TornJournal => Plan([], Refused(JournalUnreadable))
    case Journal(tx) =>
      if !Readable(tx) then
        Plan([], Refused(JournalInvalid))
      else if r.tree.current != tx.currentBefore && r.tree.current != tx.currentAfter then
        Plan([], Refused(ManualRecovery))
      else if r.tree.lkg != tx.lkgBefore && r.tree.lkg != tx.lkgAfter then
        Plan([], Refused(ManualRecovery))
      else if r.tree.current == tx.currentBefore then
        if !Holds(r.tree, tx.currentBefore) || !Holds(r.tree, tx.lkgBefore) then
          Plan([], Refused(VersionMissing))
        else
          Plan(AbortSteps(r.tree, tx), Ok(Aborted, Some(tx.operation)))
      else if !Holds(r.tree, tx.currentAfter) || !Holds(r.tree, tx.lkgAfter) then
        Plan([], Refused(VersionMissing))
      else if tx.launchersOwned && !LaunchersReady(r.tree) then
        Plan([], Refused(LaunchersUnavailable))
      else if !SnapshotReady(r.tree, tx.snapshot, tx.currentBefore) then
        Plan([], Refused(SnapshotUnavailable))
      else
        Plan(CommitSteps(tx), Ok(Committed, Some(tx.operation)))
  }

  const OWNED_NAMES := [Bin, Snapshots, VersionsDir, LastKnownGood, Current]

  function EraseNames(names: seq<Name>, t: Tree): seq<Step> {
    if names == [] then [] else OptionalStep(HasName(t, names[0]), Erase(names[0])) + EraseNames(names[1..], t)
  }

  function EraseSteps(r: Root): seq<Step> {
    if r.trash.None? then [] else EraseNames(OWNED_NAMES, r.trash.value) + [DropTrash]
  }

  /** `_finish_uninstall_locked`. */
  function FinishSteps(r: Root): seq<Step> {
    EraseSteps(r) + [DropMarker, DropNotice, DropRoot]
  }

  function RestoreSteps(r: Root): seq<Step> {
    if r.trash.None? then [] else
      OptionalStep(r.trash.value.lkg.Some?, Restore(LastKnownGood))
      + OptionalStep(r.trash.value.bin.Some?, Restore(Bin))
      + OptionalStep(r.trash.value.snapshots.Some?, Restore(Snapshots))
      + OptionalStep(r.trash.value.versions.Some?, Restore(VersionsDir))
      + [DropTrash]
  }

  /** `_recover_uninstall_locked`. */
  function UninstallRecovery(r: Root): Plan {
    match r.notice
    case NoNotice => if r.trash.Some? then Plan([], Refused(ManualRecovery)) else Plan([], Ok(NoAction, None))
    case TornNotice => Plan([], Refused(ManualRecovery))
    case Notice(_, currentBefore, _) =>
      if r.tree.current.None? then
        Plan(FinishSteps(r), Ok(Completed, None))
      else if r.tree.current != Some(currentBefore) || !Disjoint(r.tree, TrashOf(r)) then
        Plan([], Refused(ManualRecovery))
      else if !Holds(Run(RestoreSteps(r), r).tree, Some(currentBefore)) then
        Plan(RestoreSteps(r), Refused(VersionMissing))
      else
        Plan(RestoreSteps(r) + [DropNotice], Ok(Aborted, None))
  }

  predicate NoEntries(r: Root) {
    r.journal.NoJournal? && r.notice.NoNotice? && r.tree == EMPTY_TREE && r.trash.None?
  }

  function EntrySteps(r: Root): seq<Step> {
    OptionalStep(!r.present, MakeRoot) + OptionalStep(!r.marker && NoEntries(r), WriteMarker)
  }

  function RecoverySteps(r: Root): Plan {
    if !r.marker && (!r.journal.NoJournal? || r.tree != EMPTY_TREE) then
      Plan([], Refused(Unowned))
    else if !r.journal.NoJournal? && (!r.notice.NoNotice? || r.trash.Some?) then
      Plan([], Refused(ManualRecovery))
    else if !r.journal.NoJournal? then
      PointerRecovery(r)
    else
      UninstallRecovery(r)
  }

  /** `_discard_stale_candidates_locked`: every candidate goes, then the directory if that left it empty. */
  function SweepSteps(r: Root): seq<Step> {
    if r.present && Candidates(r.tree) > 0
    then seq(Candidates(r.tree), _ => DropCandidate) + [DropEmptyVersions]
    else []
  }

  /** `_locked`: what every locked section does before its own work. */
  function LockPlan(r: Root): Plan {
    var entry := EntrySteps(r);
    var recovery := RecoverySteps(Run(entry, r));
    if recovery.verdict.Refused? then
      Plan(entry + recovery.steps, recovery.verdict)
    else
      Plan(entry + recovery.steps + SweepSteps(Run(entry + recovery.steps, r)), recovery.verdict)
  }

  // ----- Recovery is silent

  lemma Optional(done: seq<Step>, c: bool, step: Step, r0: Root, r: Root) returns (done': seq<Step>, r': Root)
    requires Silent(done, r0) && Run(done, r0) == r
    requires c ==> Guard(step, r) && !Commits(step, r)
    ensures done' == done + OptionalStep(c, step) && r' == if c then Apply(step, r) else r
    ensures Silent(done', r0) && Run(done', r0) == r'
  {
    if c {
      done', r' := Then(done, step, r0, r);
    } else {
      done', r' := done, r;
      assert done + [] == done;
    }
  }

  lemma EntrySilent(r: Root)
    requires Inv(r)
    ensures Silent(EntrySteps(r), r)
    ensures var r' := Run(EntrySteps(r), r);
      && r'.present && Inv(r') && Installed(r') == Installed(r)
      && r' == r.(present := true, marker := r'.marker)
      && (r.marker ==> r' == r) && (!r'.marker ==> Gone(r'))
  {
    var d1, r1 := Optional([], !r.present, MakeRoot, r, r);
    var d2, r2 := Optional(d1, !r.marker && NoEntries(r), WriteMarker, r, r1);
    assert d2 == EntrySteps(r);
    SilentRun(d2, r);
  }

  /** The snapshots without one of them; the directory goes with the last. */
  function WithoutSnapshot(snapshots: Option<map<nat, Pointer>>, name: Option<nat>): Option<map<nat, Pointer>> {
    if snapshots.None? || name.None? || name.value !in snapshots.value then snapshots
    else if snapshots.value.Keys == {name.value} then None
    else Some(snapshots.value - {name.value})
  }

  /** The versions without the generation a transaction made; the directory goes if that empties it. */
  ghost function WithoutCandidate(versions: Option<Versions>, tx: Transaction): Option<Versions> {
    if versions.None? || tx.currentAfter.None? || !OwnCandidate(tx, tx.currentAfter.value.digest) then versions
    else
      var rest := versions.value.(generations := versions.value.generations - {tx.currentAfter.value.digest});
      if rest == Versions(map[], 0) then None else Some(rest)
  }

  /**
   After an aborted transaction: the before-pair, without the transaction's own snapshot, generation and
   launchers, and everything else as it was.
   */
  ghost predicate AbortedTo(r: Root, tx: Transaction, r': Root) {
    r' == r.(journal := NoJournal,
             tree := Tree(tx.currentBefore, tx.lkgBefore, if tx.launchersOwned then None else r.tree.bin,
                          WithoutSnapshot(r.tree.snapshots, tx.snapshot), WithoutCandidate(r.tree.versions, tx)))
  }

  /** The facts about a pending transaction that aborting it relies on. */
  ghost predicate Abortable(r: Root) {
    && Aborting(r) && r.notice.NoNotice? && Readable(r.journal.tx)
    && r.tree.current == r.journal.tx.currentBefore
    && (forall d :: OwnCandidate(r.journal.tx, d) ==>
          !Names(r.journal.tx.currentBefore, d) && !Names(r.journal.tx.lkgBefore, d))
    && (r.journal.tx.launchersOwned ==> r.journal.tx.operation.Install?)
  }

  lemma AbortSilent(r: Root)
    requires Inv(r) && Aborting(r)
    ensures Silent(AbortSteps(r.tree, r.journal.tx), r)
    ensures AbortedTo(r, r.journal.tx, Run(AbortSteps(r.tree, r.journal.tx), r))
  {
    AbortChain(r);
  }

  lemma AbortChain(r: Root)
    requires Abortable(r)
    requires Holds(r.tree, r.journal.tx.lkgBefore)
    requires r.journal.tx.operation.Install? ==> Generations(r.tree).Keys <= {r.journal.tx.currentAfter.value.digest}
    requires r.journal.tx.operation.Install? ==> r.tree.snapshots.None?
    ensures Silent(AbortSteps(r.tree, r.journal.tx), r)
    ensures AbortedTo(r, r.journal.tx, Run(AbortSteps(r.tree, r.journal.tx), r))
  {
    hide Silent, Guard, Run, Apply, Holds;
    hide DropSnapshotSteps, DropGenerationSteps, DropBinSteps;
    var tx := r.journal.tx;
    var d2, r2 := AbortPointers(r);
    var d3, r3 := AbortSnapshot(d2, r, r2);
    SameVersions(r.tree, r3.tree, tx);
    var d4, r4 := AbortCandidate(d3, r, r3);
    var d5, r5 := AbortLaunchers(d4, r, r4);
    SameOthers(r.tree, r2.tree, r4.tree, tx);
    AbortClose(d5, r, r5);
  }

  lemma SameVersions(t: Tree, u: Tree, tx: Transaction)
    requires t.versions == u.versions && Readable(tx)
    ensures DropCandidateSteps(t, tx) == DropCandidateSteps(u, tx) && Generations(t) == Generations(u)
  {
  }

  lemma SameOthers(t: Tree, u: Tree, w: Tree, tx: Transaction)
    requires t.snapshots == u.snapshots && t.bin == w.bin
    ensures DropSnapshotSteps(t, tx.snapshot) == DropSnapshotSteps(u, tx.snapshot) && DropBinSteps(t) == DropBinSteps(w)
  {
  }

  lemma AbortPointers(r: Root) returns (done: seq<Step>, r': Root)
    requires Abortable(r) && Holds(r.tree, r.journal.tx.lkgBefore)
    ensures done == [SetCurrent(r.journal.tx.currentBefore), SetLastKnownGood(r.journal.tx.lkgBefore)]
    ensures Silent(done, r) && Run(done, r) == r' && r' == r.(tree := r.tree.(lkg := r.journal.tx.lkgBefore))
  {
    var d1, r1 := Then([], SetCurrent(r.journal.tx.currentBefore), r, r);
    done, r' := Then(d1, SetLastKnownGood(r.journal.tx.lkgBefore), r, r1);
  }

  lemma AbortClose(done: seq<Step>, r0: Root, r: Root)
    requires Silent(done, r0) && Run(done, r0) == r && Abortable(r) && r.tree.lkg == r.journal.tx.lkgBefore
    requires r.journal.tx.operation.Install? ==>
      r.tree.bin.None? && r.tree.snapshots.None? && Generations(r.tree).Keys == {}
    ensures Silent(done + [DropJournal], r0) && Run(done + [DropJournal], r0) == r.(journal := NoJournal)
  {
    assert r.journal.tx.operation.Install? ==> Generations(r.tree) == map[];
    var _, _ := Then(done, DropJournal, r0, r);
  }

  lemma AbortSnapshot(done: seq<Step>, r0: Root, r: Root) returns (done': seq<Step>, r': Root)
    requires Silent(done, r0) && Run(done, r0) == r && Aborting(r)
    ensures done' == done + DropSnapshotSteps(r.tree, r.journal.tx.snapshot)
    ensures Silent(done', r0) && Run(done', r0) == r'
    ensures r' == r.(tree := r.tree.(snapshots := WithoutSnapshot(r.tree.snapshots, r.journal.tx.snapshot)))
  {
    hide Silent, Run;
    done', r' := done, r;
    if DropSnapshotSteps(r.tree, r.journal.tx.snapshot) != [] {
      var snapshots, name := r.tree.snapshots.value, r.journal.tx.snapshot.value;
      assert (snapshots - {name}).Keys == snapshots.Keys - {name};
      if snapshots - {name} == map[] {
        assert snapshots.Keys - {name} == {};
        assert snapshots.Keys == {name};
      }
      done', r' := Then(done', DropSnapshot(r.journal.tx.snapshot.value), r0, r');
      done', r' := Then(done', DropEmptySnapshots, r0, r');
    }
  }

  lemma AbortCandidate(done: seq<Step>, r0: Root, r: Root) returns (done': seq<Step>, r': Root)
    requires Silent(done, r0) && Run(done, r0) == r && Abortable(r)
    requires r.tree.lkg == r.journal.tx.lkgBefore
    ensures done' == done + DropCandidateSteps(r.tree, r.journal.tx)
    ensures Silent(done', r0) && Run(done', r0) == r'
    ensures r' == r.(tree := r.tree.(versions := WithoutCandidate(r.tree.versions, r.journal.tx)))
  {
    hide Silent, Run;
    var tx := r.journal.tx;
    done', r' := done, r;
    var d := tx.currentAfter.value.digest;
    if OwnCandidate(tx, d) {
      done', r' := AbortGeneration(done', d, r0, r');
      done', r' := Then(done', DropEmptyVersions, r0, r');
    }
  }

  lemma AbortGeneration(done: seq<Step>, d: Digest, r0: Root, r: Root) returns (done': seq<Step>, r': Root)
    requires Silent(done, r0) && Run(done, r0) == r && Abortable(r)
    requires r.tree.lkg == r.journal.tx.lkgBefore && OwnCandidate(r.journal.tx, d)
    ensures done' == done + DropGenerationSteps(r.tree, d)
    ensures Silent(done', r0) && Run(done', r0) == r' && Abortable(r')
    ensures r' == r.(tree := r.tree.(versions :=
      if r.tree.versions.None? then None else Some(Versions(Generations(r.tree) - {d}, Candidates(r.tree)))))
  {
    hide Silent, Run;
    done', r' := done, r;
    if d in Generations(r.tree) {
      done', r' := Then(done', Wound(d), r0, r');
      done', r' := Then(done', DropGeneration(d), r0, r');
      assert Generations(r.tree)[d := Wounded] - {d} == Generations(r.tree) - {d};
    } else {
      assert Generations(r.tree) - {d} == Generations(r.tree);
    }
  }

  lemma AbortLaunchers(done: seq<Step>, r0: Root, r: Root) returns (done': seq<Step>, r': Root)
    requires Silent(done, r0) && Run(done, r0) == r && Abortable(r)
    ensures done' == done + (if r.journal.tx.launchersOwned then DropBinSteps(r.tree) else [])
    ensures Silent(done', r0) && Run(done', r0) == r'
    ensures r' == r.(tree := r.tree.(bin := if r.journal.tx.launchersOwned then None else r.tree.bin))
  {
    hide Silent, Run;
    done', r' := done, r;
    if r.journal.tx.launchersOwned && r.tree.bin.Some? {
      done', r' := Then(done', DropLauncher(Cortex), r0, r');
      done', r' := Then(done', DropLauncher(Cortexd), r0, r');
      done', r' := Then(done', DropBin, r0, r');
    }
  }

  lemma CommitSilent(r: Root)
    requires Inv(r) && r.journal.Journal? && !Aborting(r)
    ensures Silent(CommitSteps(r.journal.tx), r)
    ensures Run(CommitSteps(r.journal.tx), r) == r.(journal := NoJournal)
  {
    var tx := r.journal.tx;
    var d1, r1 := Then([], SetLastKnownGood(tx.lkgAfter), r, r);
    var d2, r2 := Then(d1, SetCurrent(tx.currentAfter), r, r1);
    var d3, r3 := Then(d2, DropJournal, r, r2);
    assert d3 == CommitSteps(tx);
  }

  /** The journal's reader and every check of recovery pass on each reachable root with a whole journal. */
  lemma PointerRecoverySilent(r: Root)
    requires Inv(r) && r.journal.Journal?
    ensures PointerRecovery(r).verdict == Ok(if Aborting(r) then Aborted else Committed, Some(r.journal.tx.operation))
    ensures Silent(PointerRecovery(r).steps, r)
    ensures var r' := Run(PointerRecovery(r).steps, r);
      if Aborting(r) then AbortedTo(r, r.journal.tx, r') else r' == r.(journal := NoJournal)
  {
    if Aborting(r) {
      AbortSilent(r);
    } else {
      CommitSilent(r);
    }
  }

  function Over(a: Tree, b: Tree, name: Name): Tree {
    if HasName(a, name) then CopyName(a, b, name) else b
  }

  lemma RestoreOne(done: seq<Step>, name: Name, r0: Root, r: Root) returns (done': seq<Step>, r': Root)
    requires Silent(done, r0) && Run(done, r0) == r && Isolating(r) && r.trash.Some? && name != Current
    ensures done' == done + OptionalStep(HasName(r.trash.value, name), Restore(name))
    ensures Silent(done', r0) && Run(done', r0) == r' && Isolating(r')
    ensures r' == r.(tree := Over(r.trash.value, r.tree, name), trash := Some(CopyName(EMPTY_TREE, r.trash.value, name)))
  {
    done', r' := Optional(done, HasName(r.trash.value, name), Restore(name), r0, r);
  }

  lemma RestoreTwo(done: seq<Step>, a: Name, b: Name, r0: Root, r: Root) returns (done': seq<Step>, r': Root)
    requires Silent(done, r0) && Run(done, r0) == r && Isolating(r) && r.trash.Some?
    requires a != b && a != Current && b != Current
    ensures done' == done + OptionalStep(HasName(r.trash.value, a), Restore(a)) + OptionalStep(HasName(r.trash.value, b), Restore(b))
    ensures Silent(done', r0) && Run(done', r0) == r' && Isolating(r')
    ensures r' == r.(
      tree := Over(r.trash.value, Over(r.trash.value, r.tree, a), b),
      trash := Some(CopyName(EMPTY_TREE, CopyName(EMPTY_TREE, r.trash.value, a), b)))
  {
    var d, m := RestoreOne(done, a, r0, r);
    done', r' := RestoreOne(d, b, r0, m);
  }

  lemma RestoreSilent(r: Root)
    requires Isolating(r) && Disjoint(r.tree, TrashOf(r))
    ensures Silent(RestoreSteps(r), r)
    ensures Run(RestoreSteps(r), r) == r.(tree := Merge(r.tree, TrashOf(r)), trash := None)
  {
    if r.trash.Some? {
      RestoreAll(r);
    }
  }

  lemma RestoreAll(r: Root)
    requires Isolating(r) && Disjoint(r.tree, TrashOf(r)) && r.trash.Some?
    ensures Silent(RestoreSteps(r), r)
    ensures Run(RestoreSteps(r), r) == r.(tree := Merge(r.tree, TrashOf(r)), trash := None)
  {
    hide Silent, Guard, Apply, Run;
    var t := r.trash.value;
    SilentNil(r);
    var d2, r2 := RestoreTwo([], LastKnownGood, Bin, r, r);
    assert d2 == OptionalStep(t.lkg.Some?, Restore(LastKnownGood)) + OptionalStep(t.bin.Some?, Restore(Bin));
    var d4, r4 := RestoreTwo(d2, Snapshots, VersionsDir, r, r2);
    assert r4.trash == Some(Tree(t.current, None, None, None, None));
    assert r4.tree == Merge(r.tree, t);
    RestoreClose(d4, r, r4);
  }

  lemma RestoreClose(done: seq<Step>, r0: Root, r: Root)
    requires Silent(done, r0) && Run(done, r0) == r && Isolating(r) && r.trash == Some(EMPTY_TREE)
    ensures Silent(done + [DropTrash], r0) && Run(done + [DropTrash], r0) == r.(trash := None)
  {
    var _, _ := Then(done, DropTrash, r0, r);
  }

  lemma {:induction false} EraseNamesSilent(names: seq<Name>, t: Tree, r: Root)
    requires Gone(r) && r.trash.Some?
    ensures Silent(EraseNames(names, t), r)
    ensures var r' := Run(EraseNames(names, t), r); r'.trash.Some? && r' == r.(trash := r'.trash)
  {
    if names != [] {
      var here := OptionalStep(HasName(t, names[0]), Erase(names[0]));
      var d, r1 := Optional([], HasName(t, names[0]), Erase(names[0]), r, r);
      assert d == here;
      EraseNamesSilent(names[1..], t, r1);
      SilentConcat(here, EraseNames(names[1..], t), r);
    }
  }

  lemma EraseSilent(r: Root)
    requires Gone(r)
    ensures Silent(EraseSteps(r), r)
    ensures Run(EraseSteps(r), r) == r.(trash := None)
  {
    if r.trash.Some? {
      var erase := EraseNames(OWNED_NAMES, r.trash.value);
      EraseNamesSilent(OWNED_NAMES, r.trash.value, r);
      var d, r' := Then(erase, DropTrash, r, Run(erase, r));
    }
  }

  lemma FinishSilent(r: Root)
    requires Inv(r) && Gone(r)
    ensures Silent(FinishSteps(r), r)
    ensures Run(FinishSteps(r), r) == NOTHING
  {
    EraseSilent(r);
    SilentRun(EraseSteps(r), r);
    var r0 := Run(EraseSteps(r), r);
    var d1, r1 := Then(EraseSteps(r), DropMarker, r, r0);
    var d2, r2 := Then(d1, DropNotice, r, r1);
    var d3, r3 := Then(d2, DropRoot, r, r2);
    assert d3 == FinishSteps(r);
  }

  lemma UninstallRecoverySilent(r: Root)
    requires Inv(r) && r.notice.Notice?
    ensures UninstallRecovery(r).verdict == Ok(if Gone(r) then Completed else Aborted, None)
    ensures Silent(UninstallRecovery(r).steps, r)
    ensures Run(UninstallRecovery(r).steps, r) ==
      if Gone(r) then NOTHING else r.(notice := NoNotice, tree := Merge(r.tree, TrashOf(r)), trash := None)
  {
    if Gone(r) {
      FinishSilent(r);
    } else {
      RestoreSilent(r);
      SilentRun(RestoreSteps(r), r);
      var r1 := Run(RestoreSteps(r), r);
      assert Holds(r1.tree, Some(r.notice.currentBefore));
      var d2, r2 := Then(RestoreSteps(r), DropNotice, r, r1);
    }
  }

  lemma {:induction false} DropCandidatesSilent(n: nat, r: Root)
    requires Inv(r) && r.notice.NoNotice? && n == Candidates(r.tree)
    ensures Silent(seq(n, _ => DropCandidate), r)
    ensures Run(seq(n, _ => DropCandidate), r) ==
      if n == 0 then r else SetVersions(r, Some(Versions(Generations(r.tree), 0)))
  {
    if n > 0 {
      var s := seq(n, _ => DropCandidate);
      assert s[1..] == seq(n - 1, _ => DropCandidate);
      StepKeeps(DropCandidate, r);
      DropCandidatesSilent(n - 1, Apply(DropCandidate, r));
    }
  }

  lemma SweepSilent(r: Root)
    requires Inv(r) && r.notice.NoNotice?
    ensures Silent(SweepSteps(r), r)
    ensures var r' := Run(SweepSteps(r), r);
      && r' == r.(tree := r.tree.(versions := r'.tree.versions))
      && Generations(r'.tree) == Generations(r.tree) && Candidates(r'.tree) == 0
      && (r'.tree.versions == Some(Versions(map[], 0)) <==> r.tree.versions == Some(Versions(map[], 0)))
  {
    var n := Candidates(r.tree);
    if r.present && n > 0 {
      var s := seq(n, _ => DropCandidate);
      DropCandidatesSilent(n, r);
      SilentRun(s, r);
      var d, r' := Then(s, DropEmptyVersions, r, Run(s, r));
    }
  }

  predicate Torn(r: Root) {
    r.journal.TornJournal? || r.notice.TornNotice?
  }

  /**
   Entering the lock on any reachable root takes only silent steps, and is refused exactly when a
   journal was torn by a crash inside its own exclusive create.  No other crash needs manual recovery.
   */
  lemma LockSilent(r: Root)
    requires Inv(r)
    ensures Silent(LockPlan(r).steps, r)
    ensures LockPlan(r).verdict.Refused? <==> Torn(r)
    ensures var r' := Run(LockPlan(r).steps, r);
      && Inv(r') && Installed(r') == Installed(r)
      && (Torn(r) ==> r' == r)
      && (!Torn(r) ==> r'.journal.NoJournal? && r'.notice.NoNotice? && Candidates(r'.tree) == 0)
      && (!Torn(r) ==> r'.present == r'.marker && (r' == NOTHING <==> Gone(r)))
  {
    var entry := EntrySteps(r);
    EntrySilent(r);
    var r1 := Run(entry, r);
    var recovery := RecoverySteps(r1);
    if Torn(r) {
      assert entry == [];
    } else {
      if r1.journal.Journal? {
        PointerRecoverySilent(r1);
      } else if r1.notice.Notice? {
        UninstallRecoverySilent(r1);
      }
      SilentConcat(entry, recovery.steps, r);
      SilentRun(entry + recovery.steps, r);
      var r2 := Run(entry + recovery.steps, r);
      SweepSilent(r2);
      SilentConcat(entry + recovery.steps, SweepSteps(r2), r);
      SilentRun(LockPlan(r).steps, r);
    }
  }
}
