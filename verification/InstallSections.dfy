/**
 The locked sections of install, upgrade, rollback and uninstall.

 Upgrade, rollback and uninstall are split in two: a section that checks (and, for upgrade, stages
 a candidate), then one that re-checks and commits.  `Work` is what a section does after `_locked`.
 Health checks and the like are inputs that may come out either way, and an exception may strike
 between any two steps of a transaction (`Fault`).  An upgrade's commit goes through the safety port.
 */
module InstallSections {
  import opened Options
  import opened InstallRoot
  import opened InstallPlans
  import SafetyPort

  /**
   What an upgrade's commit brings to its safety port: the port as it stands, the terms of its request,
   what it sees of the Control state at either look, and whether its own checks before that pass.
   */
  datatype Gate = Gate(
    port: SafetyPort.Port, candidateSchema: SafetyPort.Cell, database: string, companion: string,
    runtimeRoot: string, first: SafetyPort.Control, second: SafetyPort.Control, ready: bool)

  /** Whether the body of a transaction runs through, or raises after `at` of its steps. */
  datatype Course = Smooth | Fault(at: nat)

  datatype Request =
    | Recover
    | InstallBundle(pointer: Pointer, healthy: bool, course: Course)
    | StageUpgrade(pointer: Pointer, healthy: bool, course: Course)
    | CommitUpgrade(current: Pointer, pointer: Pointer, created: bool, name: nat, gate: Gate, course: Course)
    | DiscardCandidate(pointer: Pointer)
    | CheckRollback(healthy: bool)
    | CommitRollback(current: Pointer, previous: Pointer, healthy: bool, course: Course)
    | CheckUninstall(healthy: bool)
    | CommitUninstall(current: Pointer)

  /** The first section has compared digests, so a commit names two different releases. */
  predicate Sensible(q: Request) {
    && (q.CommitUpgrade? ==> q.current.digest != q.pointer.digest)
    && (q.CommitRollback? ==> q.current.digest != q.previous.digest)
  }

  datatype Answer =
    | Refusal(reason: Reason)
    | Recovered(action: Action)
    | Unchanged
    | Performed
    | Raised
    | Staged(current: Pointer, created: bool)
    | Checked(current: Pointer, previous: Option<Pointer>)

  datatype Work = Work(steps: seq<Step>, answer: Answer)

  // ----- Step lists of the operations

  function StageSteps(p: Pointer): seq<Step> {
    [MakeVersions, MakeCandidate, Publish(p)]
  }

  const LAUNCHER_STEPS := [MakeBin, WriteLauncher(Cortex), WriteLauncher(Cortexd)]

  /** `_publish_pointer_transaction` around the switch of `current.json`. */
  function PublishLead(tx: Transaction): seq<Step> {
    [SetLastKnownGood(tx.lkgAfter), MarkPhase(LastKnownGoodPublished)]
  }

  const PUBLISH_TAIL := [MarkPhase(CurrentPublished), DropJournal]

  function BeginSteps(tx: Transaction): seq<Step> {
    [OpenJournal, WriteJournal(tx)]
  }

  function InstallTransaction(p: Pointer): Transaction {
    Transaction(Install, Prepared, None, Some(p), None, Some(p), None, true, true)
  }

  function UpgradeTransaction(current: Pointer, p: Pointer, lkg: Option<Pointer>, name: nat, created: bool): Transaction {
    Transaction(Upgrade, Prepared, Some(current), Some(p), lkg, Some(current), Some(name), created, false)
  }

  function RollbackTransaction(current: Pointer, previous: Pointer): Transaction {
    Transaction(Rollback, Prepared, Some(current), Some(previous), Some(previous), Some(current), None, false, false)
  }

  /** What a transaction does before it publishes. */
  function PrepareSteps(tx: Transaction): seq<Step>
    requires Readable(tx)
  {
    match tx.operation
    case Install => StageSteps(tx.currentAfter.value) + LAUNCHER_STEPS
    case Upgrade => [WriteSnapshot(tx.snapshot.value, tx.currentBefore.value)]
    case Rollback => []
  }

  function LeadSteps(tx: Transaction): seq<Step>
    requires Readable(tx)
  {
    BeginSteps(tx) + PrepareSteps(tx) + PublishLead(tx)
  }

  function BodySteps(tx: Transaction): seq<Step>
    requires Readable(tx)
  {
    LeadSteps(tx) + [SetCurrent(tx.currentAfter)] + PUBLISH_TAIL
  }

  /** What the exception handlers do: remove a torn journal or a half-staged candidate, then recover. */
  function TidySteps(last: seq<Step>, r: Root): seq<Step> {
    if r.journal.TornJournal? then [DropJournal]
    else if last == [MakeCandidate] then [DropCandidate]
    else []
  }

  function HandlerSteps(last: seq<Step>, r: Root): seq<Step> {
    var tidy := TidySteps(last, r);
    tidy + PointerRecovery(Run(tidy, r)).steps
  }

  function LastOf(steps: seq<Step>): seq<Step> {
    if steps == [] then [] else [steps[|steps| - 1]]
  }

  function TransactionWork(tx: Transaction, course: Course, r: Root): Work
    requires Readable(tx)
  {
    var body := BodySteps(tx);
    if course.Fault? && course.at < |body| then
      var done := body[..course.at];
      Work(done + HandlerSteps(LastOf(done), Run(done, r)), Raised)
    else
      Work(body, Performed)
  }

  function IsolateSteps(t: Tree, n: Notice): seq<Step> {
    [OpenNotice, WriteNotice(n), MakeTrash]
    + OptionalStep(t.bin.Some?, Discard(Bin))
    + OptionalStep(t.snapshots.Some?, Discard(Snapshots))
    + OptionalStep(t.versions.Some?, Discard(VersionsDir))
    + [MarkNotice(UninstallIsolated)]
    + OptionalStep(t.lkg.Some?, Discard(LastKnownGood))
  }

  // ----- The sections

  function InstallWork(r: Root, p: Pointer, healthy: bool, course: Course): Work {
    if r.tree.current.Some? && r.tree.current.value.digest == p.digest then
      if !Holds(r.tree, r.tree.current) then Work([], Refusal(VersionMissing))
      else if !healthy then Work([], Refusal(CheckFailed))
      else Work([], Unchanged)
    else if r.tree.current.Some? then
      Work([], Refusal(AlreadyInstalled))
    else if !NoEntries(r) then
      Work([], Refusal(LeftoverEntries))
    else
      var entry := EntrySteps(r);
      var work := TransactionWork(InstallTransaction(p), course, Run(entry, r));
      Work(entry + work.steps, work.answer)
  }

  function StageWork(r: Root, p: Pointer, healthy: bool, course: Course): Work {
    if r.tree.current.None? then
      Work([], Refusal(NotInstalled))
    else if r.tree.current.value.digest == p.digest then
      if Holds(r.tree, r.tree.current) && healthy then Work([], Unchanged) else Work([], Refusal(VersionMissing))
    else if p.sequence < r.tree.current.value.sequence then
      Work([], Refusal(Downgrade))
    else if !Holds(r.tree, r.tree.current) || !healthy then
      Work([], Refusal(CheckFailed))
    else if p.digest in Generations(r.tree) then
      if Holds(r.tree, Some(p)) && course.Smooth?
      then Work([], Staged(r.tree.current.value, false))
      else Work([], Refusal(VersionMissing))
    else if course.Smooth? then
      Work(StageSteps(p), Staged(r.tree.current.value, true))
    else if course.at == 2 then
      Work(StageSteps(p)[..2] + [DropCandidate], Raised)
    else if course.at < 2 then
      Work(StageSteps(p)[..course.at], Raised)
    else
      Work(StageSteps(p) + [Wound(p.digest), DropGeneration(p.digest)], Raised)
  }

  /** The request an upgrade presents, built from the pointers it is about to journal. */
  function UpgradeTerms(q: Request): SafetyPort.UpgradeRequest
    requires q.CommitUpgrade?
  {
    SafetyPort.UpgradeRequest(
      q.current.digest, q.pointer.digest, q.gate.candidateSchema, q.gate.database, q.gate.companion,
      q.gate.runtimeRoot)
  }

  /** Authorize, read the pointer once more, consume. */
  predicate GateOpens(r: Root, q: Request)
    requires q.CommitUpgrade?
  {
    SafetyPort.Opens(q.gate.port, UpgradeTerms(q), q.gate.first, r.tree.current == Some(q.current), q.gate.second)
  }

  /** Whether a commit section gets as far as its port. */
  predicate ReachesGate(r: Root, q: Request)
    requires q.CommitUpgrade?
  {
    r.tree.current == Some(q.current) && Holds(r.tree, Some(q.pointer)) && q.gate.ready
  }

  function CommitUpgradeWork(r: Root, q: Request): Work
    requires q.CommitUpgrade? && Sensible(q)
  {
    if r.tree.current != Some(q.current) then
      Work([], Refusal(ChangedMeanwhile))
    else if !Holds(r.tree, Some(q.pointer)) then
      Work([], Refusal(VersionMissing))
    else if !q.gate.ready || !GateOpens(r, q) then
      Work([], Refusal(CheckFailed))
    else
      var work := TransactionWork(
        UpgradeTransaction(q.current, q.pointer, r.tree.lkg, q.name, q.created), q.course, Apply(MakeSnapshots, r));
      Work([MakeSnapshots] + work.steps, work.answer)
  }

  function DiscardWork(r: Root, p: Pointer): Work {
    if Names(r.tree.current, p.digest) || Names(r.tree.lkg, p.digest)
    then Work([], Performed)
    else Work(DropGenerationSteps(r.tree, p.digest), Performed)
  }

  function CheckRollbackWork(r: Root, recovered: Verdict, healthy: bool): Work {
    if r.tree.current.None? || r.tree.lkg.None? then
      Work([], Refusal(NotInstalled))
    else if recovered == Ok(Committed, Some(Rollback)) then
      if Holds(r.tree, r.tree.current) && healthy then Work([], Performed) else Work([], Refusal(VersionMissing))
    else if r.tree.current.value.digest == r.tree.lkg.value.digest then
      Work([], Refusal(NoPriorVersion))
    else if !Holds(r.tree, r.tree.current) || !Holds(r.tree, r.tree.lkg) || !healthy then
      Work([], Refusal(VersionMissing))
    else
      Work([], Checked(r.tree.current.value, r.tree.lkg))
  }

  function CommitRollbackWork(r: Root, q: Request): Work
    requires q.CommitRollback? && Sensible(q)
  {
    if r.tree.current != Some(q.current) || r.tree.lkg != Some(q.previous) then
      Work([], Refusal(ChangedMeanwhile))
    else if !Holds(r.tree, Some(q.previous)) || !q.healthy then
      Work([], Refusal(CheckFailed))
    else
      TransactionWork(RollbackTransaction(q.current, q.previous), q.course, r)
  }

  function CheckUninstallWork(r: Root, healthy: bool): Work {
    if r.tree.current.None? then
      Work([], Refusal(NotInstalled))
    else if !Holds(r.tree, r.tree.current) || !healthy then
      Work([], Refusal(VersionMissing))
    else
      Work([], Checked(r.tree.current.value, None))
  }

  function CommitUninstallWork(r: Root, current: Pointer): Work {
    if r.tree.current != Some(current) then
      Work([], Refusal(ChangedMeanwhile))
    else
      var isolate := IsolateSteps(r.tree, Notice(UninstallPrepared, current, r.tree.lkg));
      var commit := [Discard(Current), MarkNotice(UninstallCommitted)];
      Work(isolate + commit + FinishSteps(Run(isolate + commit, r)), Performed)
  }

  function WorkOf(r: Root, locked: Verdict, q: Request): Work
    requires Sensible(q)
  {
    match q
    case Recover => Work([], Recovered(if locked.Ok? then locked.action else NoAction))
    case InstallBundle(p, healthy, course) => InstallWork(r, p, healthy, course)
    case StageUpgrade(p, healthy, course) => StageWork(r, p, healthy, course)
    case CommitUpgrade(_, _, _, _, _, _) => CommitUpgradeWork(r, q)
    case DiscardCandidate(p) => DiscardWork(r, p)
    case CheckRollback(healthy) => CheckRollbackWork(r, locked, healthy)
    case CommitRollback(_, _, _, _) => CommitRollbackWork(r, q)
    case CheckUninstall(healthy) => CheckUninstallWork(r, healthy)
    case CommitUninstall(current) => CommitUninstallWork(r, current)
  }

  /** One locked section: take the lock and recover, then do the work. */
  function Section(r: Root, q: Request): Work
    requires Sensible(q)
  {
    if q.Recover? && !r.present then
      Work([], Recovered(NoAction))
    else
      var lock := LockPlan(r);
      if lock.verdict.Refused? then
        Work(lock.steps, Refusal(lock.verdict.reason))
      else
        var work := WorkOf(Run(lock.steps, r), lock.verdict, q);
        Work(lock.steps + work.steps, work.answer)
  }

  /** The calls the section makes of its port, between its recovery and its journal. */
  function SectionCalls(r: Root, q: Request): seq<SafetyPort.Call>
    requires q.CommitUpgrade?
  {
    var lock := LockPlan(r);
    var r1 := Run(lock.steps, r);
    if lock.verdict.Refused? || !ReachesGate(r1, q) then []
    else SafetyPort.GateCalls(
           q.gate.port, UpgradeTerms(q), q.gate.first, r1.tree.current == Some(q.current), q.gate.second)
  }

  /** The port as the rest of a section, entered at `r`, leaves it. */
  function PortAfterWork(r: Root, q: Request): SafetyPort.Port
    requires q.CommitUpgrade?
  {
    if !ReachesGate(r, q) then q.gate.port
    else SafetyPort.AfterGate(
           q.gate.port, UpgradeTerms(q), q.gate.first, r.tree.current == Some(q.current), q.gate.second)
  }

  function PortAfterSection(r: Root, q: Request): SafetyPort.Port
    requires q.CommitUpgrade?
  {
    if LockPlan(r).verdict.Refused? then q.gate.port else PortAfterWork(Run(LockPlan(r).steps, r), q)
  }

  /** What the request is meant to make of the installed pair. */
  function Target(q: Request, before: Pair): Pair {
    match q
    case InstallBundle(p, _, _) => Pair(Some(p), Some(p))
    case CommitUpgrade(current, p, _, _, _, _) => Pair(Some(p), Some(current))
    case CommitRollback(current, previous, _, _) => Pair(Some(previous), Some(current))
    case CommitUninstall(_) => Pair(None, None)
    case _ => before
  }

  // ----- Lists with at most one commit

  /** Guarded, with at most one committing step, and that one makes the target what is installed. */
  ghost predicate Tracks(steps: seq<Step>, r: Root, target: Pair) {
    steps == [] ||
    (Guard(steps[0], r) &&
      if Commits(steps[0], r)
      then Installed(Apply(steps[0], r)) == target && Silent(steps[1..], Apply(steps[0], r))
      else Tracks(steps[1..], Apply(steps[0], r), target))
  }

  /** Some step of the list, run from `r`, commits. */
  ghost predicate Switches(steps: seq<Step>, r: Root) {
    steps != [] && (Commits(steps[0], r) || Switches(steps[1..], Apply(steps[0], r)))
  }

  lemma {:induction false} SilentTracks(steps: seq<Step>, r: Root, target: Pair)
    requires Silent(steps, r)
    ensures Tracks(steps, r, target) && !Switches(steps, r)
  {
    if steps != [] {
      SilentTracks(steps[1..], Apply(steps[0], r), target);
    }
  }

  lemma {:induction false} SilentThenTracks(a: seq<Step>, b: seq<Step>, r: Root, target: Pair)
    requires Silent(a, r) && Tracks(b, Run(a, r), target)
    ensures Tracks(a + b, r, target) && Run(a + b, r) == Run(b, Run(a, r))
  {
    RunConcat(a, b, r);
    if a == [] {
      assert a + b == b;
    } else {
      assert (a + b)[1..] == a[1..] + b;
      SilentThenTracks(a[1..], b, Apply(a[0], r), target);
    }
  }

  lemma {:induction false} TracksThenSilent(a: seq<Step>, b: seq<Step>, r: Root, target: Pair)
    requires Tracks(a, r, target) && Silent(b, Run(a, r))
    ensures Tracks(a + b, r, target) && Run(a + b, r) == Run(b, Run(a, r))
  {
    RunConcat(a, b, r);
    if a == [] {
      assert a + b == b;
      SilentTracks(b, r, target);
    } else {
      assert (a + b)[1..] == a[1..] + b;
      if Commits(a[0], r) {
        SilentConcat(a[1..], b, Apply(a[0], r));
      } else {
        TracksThenSilent(a[1..], b, Apply(a[0], r), target);
      }
    }
  }

  lemma {:induction false} TracksPrefix(steps: seq<Step>, k: nat, r: Root, target: Pair)
    requires Tracks(steps, r, target) && k <= |steps|
    ensures Tracks(steps[..k], r, target)
  {
    if k > 0 {
      assert steps[..k][1..] == steps[1..][..k - 1];
      if Commits(steps[0], r) {
        SilentPrefix(steps[1..], k - 1, Apply(steps[0], r));
      } else {
        TracksPrefix(steps[1..], k - 1, Apply(steps[0], r), target);
      }
    }
  }

  lemma {:induction false} SilentPrefix(steps: seq<Step>, k: nat, r: Root)
    requires Silent(steps, r) && k <= |steps|
    ensures Silent(steps[..k], r)
  {
    if k > 0 {
      assert steps[..k][1..] == steps[1..][..k - 1];
      SilentPrefix(steps[1..], k - 1, Apply(steps[0], r));
    }
  }

  /** A process that dies anywhere in such a list leaves the old pair, or the target if the switch was made. */
  lemma {:induction false} TracksKeeps(steps: seq<Step>, r: Root, target: Pair)
    requires Inv(r) && Tracks(steps, r, target)
    ensures Inv(Run(steps, r))
    ensures Installed(Run(steps, r)) == if Switches(steps, r) then target else Installed(r)
  {
    if steps != [] {
      StepKeeps(steps[0], r);
      var r' := Apply(steps[0], r);
      if Commits(steps[0], r) {
        SilentRun(steps[1..], r');
      } else {
        TracksKeeps(steps[1..], r', target);
      }
    }
  }

  // ----- The body of a transaction

  /** The root a transaction may start from: what its section has checked. */
  predicate Startable(r: Root, tx: Transaction) {
    && Idle(r) && Readable(tx) && Separate(tx)
    && tx.currentBefore == r.tree.current && tx.lkgBefore == r.tree.lkg
    && (tx.operation.Install? ==> r.tree == EMPTY_TREE)
    && (!tx.operation.Install? ==> Holds(r.tree, tx.currentAfter))
  }

  lemma PrepareSilent(r: Root, tx: Transaction)
    requires Inv(r) && Startable(r, tx)
    ensures Silent(BeginSteps(tx) + PrepareSteps(tx), r)
    ensures var r' := Run(BeginSteps(tx) + PrepareSteps(tx), r);
      && r'.journal == Journal(tx)
      && r'.tree.current == tx.currentBefore && r'.tree.lkg == tx.lkgBefore
      && Holds(r'.tree, tx.currentAfter) && Holds(r'.tree, tx.lkgAfter)
      && SnapshotReady(r'.tree, tx.snapshot, tx.currentBefore)
      && (tx.operation.Install? ==> LaunchersReady(r'.tree))
  {
    BeginSilent(r, tx);
    var begun := Run(BeginSteps(tx), r);
    match tx.operation {
      case Install =>
        InstallPrepareSilent(begun, tx);
      case Upgrade =>
        var d, r' := Then([], WriteSnapshot(tx.snapshot.value, tx.currentBefore.value), begun, begun);
        assert d == PrepareSteps(tx);
      case Rollback =>
        SilentNil(begun);
    }
    SilentConcat(BeginSteps(tx), PrepareSteps(tx), r);
  }

  lemma BeginSilent(r: Root, tx: Transaction)
    requires Startable(r, tx)
    ensures Silent(BeginSteps(tx), r) && Run(BeginSteps(tx), r) == r.(journal := Journal(tx))
  {
    var d1, r1 := Then([], OpenJournal, r, r);
    var d2, r2 := Then(d1, WriteJournal(tx), r, r1);
    assert d2 == BeginSteps(tx);
  }

  lemma InstallPrepareSilent(r: Root, tx: Transaction)
    requires r.journal == Journal(tx) && Readable(tx) && tx.operation.Install?
    requires r.marker && r.notice.NoNotice? && r.tree == EMPTY_TREE
    ensures Silent(PrepareSteps(tx), r)
    ensures Run(PrepareSteps(tx), r) == r.(tree := Tree(
      None, None, Some({Cortex, Cortexd}), None, Some(Versions(map[tx.currentAfter.value.digest := Whole(tx.currentAfter.value)], 0))))
  {
    var p := tx.currentAfter.value;
    StageSilent(r, p);
    var staged := Run(StageSteps(p), r);
    assert Generations(staged.tree) == map[p.digest := Whole(p)];
    LaunchersSilent(staged);
    SilentConcat(StageSteps(p), LAUNCHER_STEPS, r);
  }

  lemma StageSilent(r: Root, p: Pointer)
    requires Guard(Publish(p), r) && r.marker
    ensures Silent(StageSteps(p), r) && Silent(StageSteps(p)[..2], r)
    ensures Run(StageSteps(p)[..2], r) == SetVersions(r, Some(Versions(Generations(r.tree), Candidates(r.tree) + 1)))
    ensures Run(StageSteps(p), r) ==
      SetVersions(r, Some(Versions(Generations(r.tree)[p.digest := Whole(p)], Candidates(r.tree))))
  {
    hide Silent, Run;
    SilentNil(r);
    var d1, r1 := Then([], MakeVersions, r, r);
    var d2, r2 := Then(d1, MakeCandidate, r, r1);
    var d3, r3 := Then(d2, Publish(p), r, r2);
    assert d2 == StageSteps(p)[..2];
    assert d3 == StageSteps(p);
  }

  lemma LaunchersSilent(r: Root)
    requires Installing(r) && r.tree.bin.None?
    ensures Silent(LAUNCHER_STEPS, r)
    ensures Run(LAUNCHER_STEPS, r) == r.(tree := r.tree.(bin := Some({Cortex, Cortexd})))
  {
    hide Silent, Run;
    SilentNil(r);
    var d4, r4 := Then([], MakeBin, r, r);
    var d5, r5 := Then(d4, WriteLauncher(Cortex), r, r4);
    var d6, r6 := Then(d5, WriteLauncher(Cortexd), r, r5);
    assert {} + {Cortex} + {Cortexd} == {Cortex, Cortexd};
    assert d6 == LAUNCHER_STEPS;
  }

  lemma PublishLeadSilent(r: Root, tx: Transaction)
    requires r.journal.Journal? && r.journal.tx == tx && Aborting(r) && Holds(r.tree, tx.lkgAfter)
    ensures Silent(PublishLead(tx), r)
    ensures Run(PublishLead(tx), r) ==
      r.(journal := Journal(tx.(phase := LastKnownGoodPublished)), tree := r.tree.(lkg := tx.lkgAfter))
  {
    var d1, r1 := Then([], SetLastKnownGood(tx.lkgAfter), r, r);
    var d2, r2 := Then(d1, MarkPhase(LastKnownGoodPublished), r, r1);
    assert d2 == PublishLead(tx);
  }

  /** Publishing from the switch on. */
  lemma PublishTracks(r: Root, tx: Transaction)
    requires Inv(r) && r.journal.Journal? && r.journal.tx == tx && Aborting(r) && r.tree.lkg == tx.lkgAfter
    requires Guard(SetCurrent(tx.currentAfter), r)
    ensures Tracks([SetCurrent(tx.currentAfter)] + PUBLISH_TAIL, r, Pair(tx.currentAfter, tx.lkgAfter))
    ensures var r' := Run([SetCurrent(tx.currentAfter)] + PUBLISH_TAIL, r);
      r' == r.(journal := NoJournal, tree := r.tree.(current := tx.currentAfter))
  {
    var commit := SetCurrent(tx.currentAfter);
    var r1 := Apply(commit, r);
    var d2, r2 := Then([], MarkPhase(CurrentPublished), r1, r1);
    var d3, r3 := Then(d2, DropJournal, r1, r2);
    assert d3 == PUBLISH_TAIL;
    assert ([commit] + PUBLISH_TAIL)[1..] == PUBLISH_TAIL;
  }

  /** The body of a transaction, run through: it switches, and leaves the after-pair. */
  lemma BodyTracks(r: Root, tx: Transaction)
    requires Inv(r) && Startable(r, tx)
    ensures Tracks(BodySteps(tx), r, Pair(tx.currentAfter, tx.lkgAfter))
    ensures var r' := Run(BodySteps(tx), r);
      r'.journal.NoJournal? && r'.tree.current == tx.currentAfter && r'.tree.lkg == tx.lkgAfter
  {
    hide Silent, Run, Tracks;
    var prepare := BeginSteps(tx) + PrepareSteps(tx);
    PrepareSilent(r, tx);
    SilentRun(prepare, r);
    var r1 := Run(prepare, r);
    PublishLeadSilent(r1, tx);
    SilentRun(PublishLead(tx), r1);
    var r2 := Run(PublishLead(tx), r1);
    SilentConcat(prepare, PublishLead(tx), r);
    var switch := [SetCurrent(tx.currentAfter)] + PUBLISH_TAIL;
    PublishTracks(r2, r2.journal.tx);
    SilentThenTracks(LeadSteps(tx), switch, r, Pair(tx.currentAfter, tx.lkgAfter));
    assert BodySteps(tx) == LeadSteps(tx) + switch;
  }

  // ----- Exceptions inside a transaction

  predicate LeavesNotice(step: Step) {
    !step.OpenNotice? && !step.WriteNotice? && !step.MarkNotice? && !step.DropNotice?
  }

  lemma {:induction false} NoticeUntouched(steps: seq<Step>, r: Root)
    requires forall step :: step in steps ==> LeavesNotice(step)
    ensures Run(steps, r).notice == r.notice
  {
    if steps != [] {
      assert LeavesNotice(steps[0]);
      NoticeUntouched(steps[1..], Apply(steps[0], r));
    }
  }

  /** Wherever an exception strikes, what its handler does is silent and leaves no journal. */
  lemma TidySilent(last: seq<Step>, r: Root)
    requires Inv(r) && r.notice.NoNotice?
    ensures Silent(TidySteps(last, r), r) && !Run(TidySteps(last, r), r).journal.TornJournal?
    ensures Run(TidySteps(last, r), r).notice.NoNotice?
  {
    var tidy := TidySteps(last, r);
    if tidy != [] {
      var d, r' := Then([], tidy[0], r, r);
    }
  }

  lemma HandlerSilent(last: seq<Step>, r: Root)
    requires Inv(r) && r.notice.NoNotice?
    ensures Silent(HandlerSteps(last, r), r)
    ensures Run(HandlerSteps(last, r), r).journal.NoJournal?
  {
    var tidy := TidySteps(last, r);
    TidySilent(last, r);
    hide TidySteps, PointerRecovery;
    SilentRun(tidy, r);
    var r' := Run(tidy, r);
    if r'.journal.Journal? {
      PointerRecoverySilent(r');
    }
    SilentConcat(tidy, PointerRecovery(r').steps, r);
  }

  /** A transaction, run through or interrupted by an exception, switches at most once and to its own target. */
  lemma TransactionTracks(tx: Transaction, course: Course, r: Root)
    requires Inv(r) && Startable(r, tx)
    ensures Tracks(TransactionWork(tx, course, r).steps, r, Pair(tx.currentAfter, tx.lkgAfter))
    ensures Run(TransactionWork(tx, course, r).steps, r).journal.NoJournal?
    ensures TransactionWork(tx, course, r).answer.Performed? ==>
      Installed(Run(TransactionWork(tx, course, r).steps, r)) == Pair(tx.currentAfter, tx.lkgAfter)
  {
    var target := Pair(tx.currentAfter, tx.lkgAfter);
    var body := BodySteps(tx);
    BodyTracks(r, tx);
    TracksKeeps(body, r, target);
    NoticeUntouched(body, r);
    if course.Fault? && course.at < |body| {
      var done := body[..course.at];
      TracksPrefix(body, course.at, r, target);
      TracksKeeps(done, r, target);
      NoticeUntouched(done, r);
      HandlerSilent(LastOf(done), Run(done, r));
      TracksThenSilent(done, HandlerSteps(LastOf(done), Run(done, r)), r, target);
    }
  }

  // ----- Uninstall

  lemma IsolateOne(done: seq<Step>, name: Name, r0: Root, r: Root) returns (done': seq<Step>, r': Root)
    requires Silent(done, r0) && Run(done, r0) == r && Isolating(r) && r.trash.Some? && name != Current
    ensures done' == done + OptionalStep(HasName(r.tree, name), Discard(name))
    ensures Silent(done', r0) && Run(done', r0) == r' && Isolating(r') && r'.trash.Some?
    ensures r' == r.(tree := CopyName(EMPTY_TREE, r.tree, name), trash := Some(Over(r.tree, r.trash.value, name)))
  {
    done', r' := Optional(done, HasName(r.tree, name), Discard(name), r0, r);
  }

  lemma IsolateStart(r: Root, n: Notice) returns (done: seq<Step>, r': Root)
    requires Idle(r) && r.trash.None? && n.Notice? && r.tree.current == Some(n.currentBefore) && r.tree.lkg == n.lkgBefore
    ensures done == [OpenNotice, WriteNotice(n), MakeTrash]
    ensures Silent(done, r) && Run(done, r) == r' && r' == r.(notice := n, trash := Some(EMPTY_TREE))
  {
    var d1, r1 := Then([], OpenNotice, r, r);
    var d2, r2 := Then(d1, WriteNotice(n), r, r1);
    done, r' := Then(d2, MakeTrash, r, r2);
  }

  lemma IsolateMark(done: seq<Step>, r0: Root, r: Root) returns (done': seq<Step>, r': Root)
    requires Silent(done, r0) && Run(done, r0) == r && Isolating(r)
    ensures done' == done + [MarkNotice(UninstallIsolated)]
    ensures Silent(done', r0) && Run(done', r0) == r' && r' == r.(notice := r.notice.(phase := UninstallIsolated))
  {
    done', r' := Then(done, MarkNotice(UninstallIsolated), r0, r);
  }

  /** Before the rename of `current.json`, everything else has been moved to the trash, and nothing lost. */
  lemma IsolateSilent(r: Root, n: Notice)
    requires Idle(r) && r.trash.None? && n.Notice? && r.tree.current == Some(n.currentBefore) && r.tree.lkg == n.lkgBefore
    ensures Silent(IsolateSteps(r.tree, n), r)
    ensures Run(IsolateSteps(r.tree, n), r) ==
      r.(notice := n.(phase := UninstallIsolated),
         tree := EMPTY_TREE.(current := r.tree.current),
         trash := Some(r.tree.(current := None)))
  {
    hide Silent, Run, Guard, Apply;
    var t := r.tree;
    var d1, r1 := IsolateStart(r, n);
    var d2, r2 := IsolateOne(d1, Bin, r, r1);
    var d3, r3 := IsolateOne(d2, Snapshots, r, r2);
    assert r3.tree == t.(bin := None, snapshots := None);
    var d4, r4 := IsolateOne(d3, VersionsDir, r, r3);
    var d5, r5 := IsolateMark(d4, r, r4);
    assert r5.tree == t.(bin := None, snapshots := None, versions := None);
    var d6, r6 := IsolateOne(d5, LastKnownGood, r, r5);
    assert d6 == IsolateSteps(t, n);
  }

  lemma UninstallTracks(r: Root, current: Pointer)
    requires Inv(r) && Idle(r) && r.tree.current == Some(current)
    ensures Tracks(CommitUninstallWork(r, current).steps, r, Pair(None, None))
    ensures Run(CommitUninstallWork(r, current).steps, r) == NOTHING
  {
    var n := Notice(UninstallPrepared, current, r.tree.lkg);
    var isolate := IsolateSteps(r.tree, n);
    var commit := [Discard(Current), MarkNotice(UninstallCommitted)];
    IsolateSilent(r, n);
    SilentRun(isolate, r);
    var r1 := Run(isolate, r);
    CommitTracks(r1);
    SilentThenTracks(isolate, commit, r, Pair(None, None));
    TracksKeeps(isolate + commit, r, Pair(None, None));
    var r2 := Run(isolate + commit, r);
    FinishSilent(r2);
    TracksThenSilent(isolate + commit, FinishSteps(r2), r, Pair(None, None));
  }

  lemma CommitTracks(r: Root)
    requires Isolating(r) && r.journal.NoJournal? && r.trash.Some? && r.tree == EMPTY_TREE.(current := r.tree.current)
    ensures var commit := [Discard(Current), MarkNotice(UninstallCommitted)];
      && Tracks(commit, r, Pair(None, None)) && Gone(Run(commit, r)) && Run(commit, r).notice.phase.UninstallCommitted?
  {
    var r1 := Apply(Discard(Current), r);
    var d, r2 := Then([], MarkNotice(UninstallCommitted), r1, r1);
    assert [Discard(Current), MarkNotice(UninstallCommitted)][1..] == d;
  }

  // ----- Every section

  lemma StageTracks(r: Root, p: Pointer, healthy: bool, course: Course)
    requires Inv(r) && Idle(r)
    ensures Silent(StageWork(r, p, healthy, course).steps, r)
  {
    hide Silent, Run;
    SilentNil(r);
    var steps := StageWork(r, p, healthy, course).steps;
    if steps != [] {
      StageSilent(r, p);
      var staged := Run(StageSteps(p), r);
      if course.Fault? && course.at == 2 {
        var r2 := Run(StageSteps(p)[..2], r);
        var d, r' := Then(StageSteps(p)[..2], DropCandidate, r, r2);
      } else if course.Fault? && course.at < 2 {
        SilentPrefix(StageSteps(p), course.at, r);
      } else if course.Fault? {
        var d1, r1 := Then(StageSteps(p), Wound(p.digest), r, staged);
        var d2, r2 := Then(d1, DropGeneration(p.digest), r, r1);
        assert d2 == StageSteps(p) + [Wound(p.digest), DropGeneration(p.digest)];
      }
    }
  }

  lemma DiscardSilent(r: Root, p: Pointer)
    requires Inv(r) && r.journal.NoJournal? && r.notice.NoNotice?
    ensures Silent(DiscardWork(r, p).steps, r)
  {
    if DiscardWork(r, p).steps != [] {
      var d1, r1 := Then([], Wound(p.digest), r, r);
      var d2, r2 := Then(d1, DropGeneration(p.digest), r, r1);
      assert d2 == DropGenerationSteps(r.tree, p.digest);
    }
  }

  lemma WorkTracks(r: Root, locked: Verdict, q: Request)
    requires Inv(r) && Sensible(q) && r.journal.NoJournal? && r.notice.NoNotice? && r.present == r.marker
    ensures Tracks(WorkOf(r, locked, q).steps, r, Target(q, Installed(r)))
    ensures WorkOf(r, locked, q).answer.Performed? && Target(q, Installed(r)) != Installed(r) ==>
      Installed(Run(WorkOf(r, locked, q).steps, r)) == Target(q, Installed(r))
  {
    var target := Target(q, Installed(r));
    var work := WorkOf(r, locked, q);
    if work.steps == [] {
    } else if q.InstallBundle? {
      InstallTracks(r, q);
    } else if q.StageUpgrade? {
      StageTracks(r, q.pointer, q.healthy, q.course);
      SilentTracks(work.steps, r, target);
    } else if q.CommitUpgrade? {
      UpgradeTracks(r, q);
    } else if q.DiscardCandidate? {
      DiscardSilent(r, q.pointer);
      SilentTracks(work.steps, r, target);
    } else if q.CommitRollback? {
      TransactionTracks(RollbackTransaction(q.current, q.previous), q.course, r);
    } else {
      UninstallTracks(r, q.current);
    }
  }

  lemma InstallTracks(r: Root, q: Request)
    requires Inv(r) && q.InstallBundle? && r.tree.current.None? && NoEntries(r)
    ensures Tracks(InstallWork(r, q.pointer, q.healthy, q.course).steps, r, Target(q, Installed(r)))
    ensures InstallWork(r, q.pointer, q.healthy, q.course).answer.Performed? ==>
      Installed(Run(InstallWork(r, q.pointer, q.healthy, q.course).steps, r)) == Target(q, Installed(r))
  {
    hide Silent, Run, Tracks;
    var entry := EntrySteps(r);
    var tx := InstallTransaction(q.pointer);
    EntrySilent(r);
    var r1 := Run(entry, r);
    TransactionTracks(tx, q.course, r1);
    SilentThenTracks(entry, TransactionWork(tx, q.course, r1).steps, r, Target(q, Installed(r)));
  }

  lemma UpgradeTracks(r: Root, q: Request)
    requires Inv(r) && Sensible(q) && Idle(r) && q.CommitUpgrade?
    requires r.tree.current == Some(q.current) && Holds(r.tree, Some(q.pointer)) && q.gate.ready && GateOpens(r, q)
    ensures Tracks(CommitUpgradeWork(r, q).steps, r, Target(q, Installed(r)))
    ensures CommitUpgradeWork(r, q).answer.Performed? ==> Installed(Run(CommitUpgradeWork(r, q).steps, r)) == Target(q, Installed(r))
  {
    hide Tracks;
    var tx := UpgradeTransaction(q.current, q.pointer, r.tree.lkg, q.name, q.created);
    var d, r1 := Then([], MakeSnapshots, r, r);
    assert d == [MakeSnapshots];
    SilentRun(d, r);
    TransactionTracks(tx, q.course, r1);
    SilentThenTracks(d, TransactionWork(tx, q.course, r1).steps, r, Target(q, Installed(r)));
  }

  /**
   Crash safety of every locked section: it takes only guarded steps, at most one of them commits,
   and that one turns what is installed into exactly what the request is for.
   */
  lemma SectionTracks(r: Root, q: Request)
    requires Inv(r) && Sensible(q)
    ensures Tracks(Section(r, q).steps, r, Target(q, Installed(r)))
  {
    var lock := LockPlan(r);
    LockSilent(r);
    if q.Recover? && !r.present {
    } else if lock.verdict.Refused? {
      SilentTracks(lock.steps, r, Target(q, Installed(r)));
    } else {
      var r1 := Run(lock.steps, r);
      WorkTracks(r1, lock.verdict, q);
      SilentThenTracks(lock.steps, WorkOf(r1, lock.verdict, q).steps, r, Target(q, Installed(r)));
    }
  }

  /**
   A process that dies after any `k` durable steps of a section leaves a root that satisfies the
   invariant and stands for the old pair or the target, for the target exactly when the switch was made.
   */
  lemma SectionAtomic(r: Root, q: Request, k: nat)
    requires Inv(r) && Sensible(q) && k <= |Section(r, q).steps|
    ensures var done := Section(r, q).steps[..k]; var r' := Run(done, r);
      && Inv(r')
      && Installed(r') == if Switches(done, r) then Target(q, Installed(r)) else Installed(r)
  {
    SectionTracks(r, q);
    TracksPrefix(Section(r, q).steps, k, r, Target(q, Installed(r)));
    TracksKeeps(Section(r, q).steps[..k], r, Target(q, Installed(r)));
  }
}
