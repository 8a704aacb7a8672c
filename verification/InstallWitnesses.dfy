/** Runs from an absent root that reach the situations the exact conditions single out. */
module InstallWitnesses {
  import opened Options
  import opened InstallRoot
  import opened InstallPlans
  import opened InstallSections
  import opened InstallSystem
  import InstallRuns
  import InstallUpgrades
  import SafetyPort

  // ----- Running a list of steps state by state

  predicate Follows(steps: seq<Step>, states: seq<Root>, i: nat)
    requires |states| == |steps| + 1 && i < |steps|
  {
    states[i + 1] == Apply(steps[i], states[i])
  }

  lemma {:induction false} RunsThrough(steps: seq<Step>, states: seq<Root>, k: nat)
    requires |states| == |steps| + 1 && k <= |steps|
    requires forall i: nat :: i < |steps| ==> Follows(steps, states, i)
    ensures Run(steps[..k], states[0]) == states[k]
  {
    hide Apply;
    if k > 0 {
      RunsThrough(steps, states, k - 1);
      assert Follows(steps, states, k - 1);
      assert steps[..k] == steps[..k - 1] + [steps[k - 1]];
      RunConcat(steps[..k - 1], [steps[k - 1]], states[0]);
      assert [steps[k - 1]][1..] == [];
    }
  }

  lemma RunsToEnd(steps: seq<Step>, states: seq<Root>)
    requires |states| == |steps| + 1
    requires forall i: nat :: i < |steps| ==> Follows(steps, states, i)
    ensures Run(steps, states[0]) == states[|steps|]
  {
    RunsThrough(steps, states, |steps|);
    assert steps[..|steps|] == steps;
  }

  /** The root after a list of steps, from the inside out. */
  function Nest(steps: seq<Step>, n: nat, r: Root): Root
    requires n <= |steps|
  {
    if n == 0 then r else Apply(steps[n - 1], Nest(steps, n - 1, r))
  }

  lemma {:induction false} RunIsNest(steps: seq<Step>, n: nat, r: Root)
    requires n <= |steps|
    ensures Run(steps[..n], r) == Nest(steps, n, r)
  {
    hide Apply;
    if n > 0 {
      RunIsNest(steps, n - 1, r);
      assert steps[..n] == steps[..n - 1] + [steps[n - 1]];
      RunConcat(steps[..n - 1], [steps[n - 1]], r);
      assert [steps[n - 1]][1..] == [];
    }
  }

  /** Nothing to recover and nothing to sweep. */
  lemma QuietLock(r: Root)
    requires Idle(r) && Candidates(r.tree) == 0 && r.trash.None?
    ensures LockPlan(r) == Plan([], Ok(NoAction, None))
  {
    assert EntrySteps(r) == [];
  }

  lemma QuietSection(r: Root, q: Request)
    requires Idle(r) && Candidates(r.tree) == 0 && r.trash.None? && Sensible(q) && !q.Recover?
    ensures Section(r, q) == WorkOf(r, Ok(NoAction, None), q)
  {
    QuietLock(r);
    assert [] + WorkOf(r, Ok(NoAction, None), q).steps == WorkOf(r, Ok(NoAction, None), q).steps;
  }

  // ----- Installing

  const BOTH_LAUNCHERS := Some({Cortex, Cortexd})

  function TreeOf(current: Pointer, lkg: Pointer, snapshots: Option<map<nat, Pointer>>, g: map<Digest, Generation>): Tree {
    EMPTY_TREE.(current := Some(current), lkg := Some(lkg), bin := BOTH_LAUNCHERS, snapshots := snapshots,
                versions := Some(Versions(g, 0)))
  }

  function Settled(t: Tree): Root {
    Root(true, true, NoJournal, NoNotice, t, None)
  }

  function InstallList(p: Pointer): seq<Step> {
    var tx := InstallTransaction(p);
    [MakeRoot, WriteMarker, OpenJournal, WriteJournal(tx), MakeVersions, MakeCandidate, Publish(p), MakeBin,
     WriteLauncher(Cortex), WriteLauncher(Cortexd), SetLastKnownGood(Some(p)), MarkPhase(LastKnownGoodPublished),
     SetCurrent(Some(p)), MarkPhase(CurrentPublished), DropJournal]
  }

  lemma EntryOfNothing()
    ensures EntrySteps(NOTHING) == [MakeRoot, WriteMarker]
    ensures Run([MakeRoot, WriteMarker], NOTHING) == Settled(EMPTY_TREE)
    ensures LockPlan(NOTHING) == Plan([MakeRoot, WriteMarker], Ok(NoAction, None))
  {
    assert EntrySteps(NOTHING) == [MakeRoot, WriteMarker];
    assert [MakeRoot, WriteMarker][1..] == [WriteMarker] && [WriteMarker][1..] == [];
    assert Run([MakeRoot, WriteMarker], NOTHING) == Run([WriteMarker], Apply(MakeRoot, NOTHING));
    assert Run([WriteMarker], Apply(MakeRoot, NOTHING)) == Run([], Settled(EMPTY_TREE));
    assert [MakeRoot, WriteMarker] + [] == [MakeRoot, WriteMarker];
  }

  lemma InstallSteps(p: Pointer)
    ensures Section(NOTHING, InstallBundle(p, true, Smooth)) == Work(InstallList(p), Performed)
  {
    EntryOfNothing();
    InstallsSmoothly(p);
    hide LockPlan, Run, WorkOf, EntrySteps, InstallList;
    assert [MakeRoot, WriteMarker] + InstallList(p)[2..] == InstallList(p) by { ListBegins(p); }
  }

  lemma ListBegins(p: Pointer)
    ensures |InstallList(p)| == 15 && InstallList(p)[0] == MakeRoot && InstallList(p)[1] == WriteMarker
  {
  }

  lemma InstallsSmoothly(p: Pointer)
    ensures WorkOf(Settled(EMPTY_TREE), Ok(NoAction, None), InstallBundle(p, true, Smooth)) ==
      Work(InstallList(p)[2..], Performed)
  {
    var r1 := Settled(EMPTY_TREE);
    assert EntrySteps(r1) == [];
    hide Run, Apply;
    var tx := InstallTransaction(p);
    assert BodySteps(tx) == InstallList(p)[2..];
    assert InstallWork(r1, p, true, Smooth).steps == [] + BodySteps(tx);
  }

  function Midway(p: Pointer): Root {
    Settled(EMPTY_TREE.(versions := Some(Versions(map[], 1)))).(journal := Journal(InstallTransaction(p)))
  }

  /** The roots an install passes through. */
  lemma InstallStates(p: Pointer) returns (states: seq<Root>)
    ensures |states| == 16 && states[0] == NOTHING
    ensures forall i: nat :: i < 15 ==> Follows(InstallList(p), states, i)
    ensures states[6] == Midway(p)
    ensures states[15] == Settled(TreeOf(p, p, None, map[p.digest := Whole(p)]))
  {
    var early := InstallEarly(p);
    var late := InstallLate(p);
    states := early + late[1..];
    hide Apply, InstallList;
    forall i: nat | i < 15
      ensures Follows(InstallList(p), states, i)
    {
      assert i < 6 ==> states[i] == early[i] && states[i + 1] == early[i + 1];
      assert i >= 6 ==> states[i] == late[i - 6] && states[i + 1] == late[i - 5];
    }
  }

  lemma InstallEarly(p: Pointer) returns (states: seq<Root>)
    ensures |states| == 7 && states[0] == NOTHING && states[6] == Midway(p)
    ensures forall i :: 0 <= i < 6 ==> states[i + 1] == Apply(InstallList(p)[i], states[i])
  {
    var l := InstallList(p);
    var s1 := Apply(l[0], NOTHING);
    var s2 := Apply(l[1], s1);
    var s3 := Apply(l[2], s2);
    var s4 := Apply(l[3], s3);
    var s5 := Apply(l[4], s4);
    var s6 := Apply(l[5], s5);
    states := [NOTHING, s1, s2, s3, s4, s5, s6];
  }

  lemma InstallLate(p: Pointer) returns (states: seq<Root>)
    ensures |states| == 10 && states[0] == Midway(p)
    ensures states[9] == Settled(TreeOf(p, p, None, map[p.digest := Whole(p)]))
    ensures forall i :: 0 <= i < 9 ==> states[i + 1] == Apply(InstallList(p)[i + 6], states[i])
  {
    var l := InstallList(p);
    var s1 := Apply(l[6], Midway(p));
    var s2 := Apply(l[7], s1);
    var s3 := Apply(l[8], s2);
    var s4 := Apply(l[9], s3);
    LaunchersMade(p);
    var made := s4;
    var s5 := Apply(l[10], s4);
    var s6 := Apply(l[11], s5);
    var s7 := Apply(l[12], s6);
    var s8 := Apply(l[13], s7);
    var s9 := Apply(l[14], s8);
    Published(p);
    states := [Midway(p), s1, s2, s3, s4, s5, s6, s7, s8, s9];
    hide Apply;
    assert s1 == Apply(Publish(p), Midway(p));
  }

  function Made(p: Pointer): Root {
    Midway(p).(tree := EMPTY_TREE.(bin := BOTH_LAUNCHERS, versions := Some(Versions(map[p.digest := Whole(p)], 0))))
  }

  lemma LaunchersMade(p: Pointer)
    ensures Apply(WriteLauncher(Cortexd), Apply(WriteLauncher(Cortex), Apply(MakeBin, Apply(Publish(p), Midway(p))))) == Made(p)
  {
    var none: set<Launcher> := {};
    assert none + {Cortex} + {Cortexd} == {Cortex, Cortexd};
  }

  lemma Published(p: Pointer)
    ensures
      Apply(DropJournal, Apply(MarkPhase(CurrentPublished), Apply(SetCurrent(Some(p)),
        Apply(MarkPhase(LastKnownGoodPublished), Apply(SetLastKnownGood(Some(p)), Made(p))))))
      == Settled(TreeOf(p, p, None, map[p.digest := Whole(p)]))
  {
  }

  lemma Installs(s: System, pid: nat, p: Pointer) returns (e: Event)
    requires s.root == NOTHING && LocalOf(s, pid) == AtRest
    ensures e.Enter? && Enabled(s, e)
    ensures After(s, e) == s.(root := Settled(TreeOf(p, p, None, map[p.digest := Whole(p)])), locals := s.locals[pid := AtRest])
  {
    e := Enter(pid, InstallBundle(p, true, Smooth), None);
    InstallSteps(p);
    var states := InstallStates(p);
    RunsToEnd(InstallList(p), states);
    hide Section, Run, Apply, InstallList;
  }

  // ----- The sweep cut short

  /** What the recovery of that install takes: it aborts, then sweeps the candidate that was left. */
  lemma MidwayRecovery(p: Pointer)
    ensures LockPlan(Midway(p)).steps ==
      [SetCurrent(None), SetLastKnownGood(None), DropEmptyVersions, DropJournal, DropCandidate, DropEmptyVersions]
  {
    var r := Midway(p);
    var tx := InstallTransaction(p);
    assert EntrySteps(r) == [] && Run([], r) == r;
    var abort := [SetCurrent(None), SetLastKnownGood(None), DropEmptyVersions, DropJournal];
    assert AbortSteps(r.tree, tx) == abort;
    assert PointerRecovery(r).steps == abort;
    AbortedMidway(p);
    assert [] + abort == abort;
    assert seq(1, _ => DropCandidate) == [DropCandidate];
    assert SweepSteps(Run(abort, r)) == [DropCandidate, DropEmptyVersions];
  }

  lemma AbortedMidway(p: Pointer)
    ensures Run([SetCurrent(None), SetLastKnownGood(None), DropEmptyVersions, DropJournal], Midway(p))
      == Settled(EMPTY_TREE.(versions := Some(Versions(map[], 1))))
  {
    var abort := [SetCurrent(None), SetLastKnownGood(None), DropEmptyVersions, DropJournal];
    var s1 := Apply(abort[0], Midway(p));
    var s2 := Apply(abort[1], s1);
    var s3 := Apply(abort[2], s2);
    var s4 := Apply(abort[3], s3);
    RunsToEnd(abort, [Midway(p), s1, s2, s3, s4]);
  }

  /**
   An install dies after it has made its candidate, the recovery of the next section dies between the
   candidate and the empty directory, and the retry is refused.
   */
  lemma SweepCutShortIsReached(policy: SafetyPort.Policy, p: Pointer) returns (ss: seq<System>, es: seq<Event>)
    ensures IsRun(ss, es) && |es| == 2
    ensures Installed(ss[2].root) == Pair(None, None) && InstallRuns.SweepCutShort(ss[2].root)
    ensures Section(ss[2].root, InstallBundle(p, true, Smooth)).answer == Refusal(LeftoverEntries)
  {
    var s1, e0 := InstallDies(policy, p);
    var s2, e1 := RecoveryDies(s1, p);
    hide Next, Section;
    InstallRuns.CutSweepRefuses(s2.root, p);
    ss, es := [Start(policy), s1, s2], [e0, e1];
  }

  lemma InstallDies(policy: SafetyPort.Policy, p: Pointer) returns (s: System, e: Event)
    ensures Next(Start(policy), e, s) && s.root == Midway(p) && LocalOf(s, 0) == AtRest
  {
    e := Enter(0, InstallBundle(p, true, Smooth), Some(6));
    InstallSteps(p);
    var states := InstallStates(p);
    RunsThrough(InstallList(p), states, 6);
    hide Section, Run, Apply;
    s := After(Start(policy), e);
  }

  lemma RecoveryDies(s: System, p: Pointer) returns (s': System, e: Event)
    requires s.root == Midway(p) && LocalOf(s, 0) == AtRest
    ensures Next(s, e, s') && s'.root == Settled(EMPTY_TREE.(versions := Some(Versions(map[], 0))))
  {
    e := Enter(0, Recover, Some(5));
    SweptMidway(p);
    hide Section, LockPlan, Run, Apply, Midway;
    s' := After(s, e);
  }

  lemma SweptMidway(p: Pointer)
    ensures Section(Midway(p), Recover).steps == LockPlan(Midway(p)).steps
    ensures |LockPlan(Midway(p)).steps| == 6
    ensures Run(LockPlan(Midway(p)).steps[..5], Midway(p)) == Settled(EMPTY_TREE.(versions := Some(Versions(map[], 0))))
  {
    hide LockPlan, Run, Section, Apply;
    RecoverSteps(Midway(p));
    MidwayRecovery(p);
    AbortedMidway(p);
    var steps := LockPlan(Midway(p)).steps;
    var abort := [SetCurrent(None), SetLastKnownGood(None), DropEmptyVersions, DropJournal];
    assert steps[..5] == abort + [DropCandidate];
    RunConcat(abort, [DropCandidate], Midway(p));
    CandidateDropped();
  }

  lemma RecoverSteps(r: Root)
    requires r.present
    ensures Section(r, Recover).steps == LockPlan(r).steps
  {
    hide LockPlan, Run;
    var steps := LockPlan(r).steps;
    assert steps + [] == steps;
  }

  lemma CandidateDropped()
    ensures Run([DropCandidate], Settled(EMPTY_TREE.(versions := Some(Versions(map[], 1)))))
      == Settled(EMPTY_TREE.(versions := Some(Versions(map[], 0))))
  {
    assert [DropCandidate][1..] == [];
  }

  // ----- Upgrades and rollbacks on a settled root

  /** A Control state that was never set up, which every port authorizes. */
  const FRESH := SafetyPort.Control(None, None, [], false, None, SafetyPort.UnreadableStore, SafetyPort.NotText)

  function FreshGate(port: SafetyPort.Port): Gate {
    Gate(port, SafetyPort.Other, "", "", "", FRESH, FRESH, true)
  }

  lemma FreshOpens(r: Root, q: Request)
    requires q.CommitUpgrade? && q.gate == FreshGate(q.gate.port) && r.tree.current == Some(q.current)
    ensures GateOpens(r, q)
  {
  }

  lemma StagesNew(t: Tree, p: Pointer)
    requires t.versions.Some? && t.versions.value.candidates == 0 && t.current.Some?
    requires Holds(t, t.current) && t.current.value.digest != p.digest && t.current.value.sequence <= p.sequence
    requires p.digest !in Generations(t)
    ensures
      var section := Section(Settled(t), StageUpgrade(p, true, Smooth));
      && section.answer == Staged(t.current.value, true)
      && Run(section.steps, Settled(t)) == Settled(t.(versions := Some(Versions(Generations(t)[p.digest := Whole(p)], 0))))
  {
    hide Section, LockPlan;
    QuietSection(Settled(t), StageUpgrade(p, true, Smooth));
    StageRuns(t, p);
  }

  lemma StageRuns(t: Tree, p: Pointer)
    requires t.versions.Some? && t.versions.value.candidates == 0
    ensures Run(StageSteps(p), Settled(t)) == Settled(t.(versions := Some(Versions(Generations(t)[p.digest := Whole(p)], 0))))
  {
    var steps := StageSteps(p);
    var s1 := Apply(steps[0], Settled(t));
    var s2 := Apply(steps[1], s1);
    var s3 := Apply(steps[2], s2);
    RunsToEnd(steps, [Settled(t), s1, s2, s3]);
  }

  lemma StagesOld(t: Tree, p: Pointer)
    requires t.versions.Some? && t.versions.value.candidates == 0 && t.current.Some?
    requires Holds(t, t.current) && t.current.value.digest != p.digest && t.current.value.sequence <= p.sequence
    requires p.digest in Generations(t) && Holds(t, Some(p))
    ensures Section(Settled(t), StageUpgrade(p, true, Smooth)) == Work([], Staged(t.current.value, false))
  {
    QuietSection(Settled(t), StageUpgrade(p, true, Smooth));
  }

  function UpgradeList(a: Pointer, tx: Transaction): seq<Step>
    requires tx.snapshot.Some?
  {
    [MakeSnapshots, OpenJournal, WriteJournal(tx), WriteSnapshot(tx.snapshot.value, a), SetLastKnownGood(tx.lkgAfter),
     MarkPhase(LastKnownGoodPublished), SetCurrent(tx.currentAfter), MarkPhase(CurrentPublished), DropJournal]
  }

  lemma UpgradeSteps(t: Tree, q: Request)
    requires q.CommitUpgrade? && Sensible(q) && q.course.Smooth? && q.gate == FreshGate(q.gate.port)
    requires t.versions.Some? && t.versions.value.candidates == 0
    requires t.current == Some(q.current) && Holds(t, Some(q.pointer))
    ensures Section(Settled(t), q) ==
      Work(UpgradeList(q.current, UpgradeTransaction(q.current, q.pointer, t.lkg, q.name, q.created)), Performed)
  {
    hide Section, WorkOf, LockPlan;
    QuietSection(Settled(t), q);
    CommitsSmoothly(t, q);
  }

  lemma CommitsSmoothly(t: Tree, q: Request)
    requires q.CommitUpgrade? && Sensible(q) && q.course.Smooth? && q.gate == FreshGate(q.gate.port)
    requires t.current == Some(q.current) && Holds(t, Some(q.pointer))
    ensures WorkOf(Settled(t), Ok(NoAction, None), q) ==
      Work(UpgradeList(q.current, UpgradeTransaction(q.current, q.pointer, t.lkg, q.name, q.created)), Performed)
  {
    FreshOpens(Settled(t), q);
    hide GateOpens, Run, Apply, LockPlan;
    var tx := UpgradeTransaction(q.current, q.pointer, t.lkg, q.name, q.created);
    assert [MakeSnapshots] + BodySteps(tx) == UpgradeList(q.current, tx);
  }

  lemma Upgrades(t: Tree, q: Request)
    requires q.CommitUpgrade? && Sensible(q) && q.course.Smooth? && q.gate == FreshGate(q.gate.port)
    requires t.versions.Some? && t.versions.value.candidates == 0 && t.snapshots.None?
    requires t.current == Some(q.current) && Holds(t, Some(q.pointer))
    ensures
      Run(Section(Settled(t), q).steps, Settled(t)) ==
      Settled(t.(current := Some(q.pointer), lkg := Some(q.current), snapshots := Some(map[q.name := q.current])))
  {
    UpgradeSteps(t, q);
    var tx := UpgradeTransaction(q.current, q.pointer, t.lkg, q.name, q.created);
    var l := UpgradeList(q.current, tx);
    RunIsNest(l, 9, Settled(t));
    assert l[..9] == l;
    UpgradeBegins(t, q, tx);
    UpgradeEnds(t, q, tx);
  }

  function Prepared(t: Tree, q: Request, tx: Transaction): Root
    requires q.CommitUpgrade?
  {
    Settled(t.(snapshots := Some(map[q.name := q.current]))).(journal := Journal(tx))
  }

  lemma UpgradeBegins(t: Tree, q: Request, tx: Transaction)
    requires q.CommitUpgrade? && t.snapshots.None? && tx == UpgradeTransaction(q.current, q.pointer, t.lkg, q.name, q.created)
    ensures Nest(UpgradeList(q.current, tx), 4, Settled(t)) == Prepared(t, q, tx)
  {
    var l := UpgradeList(q.current, tx);
    var s1 := Apply(MakeSnapshots, Settled(t));
    assert Nest(l, 1, Settled(t)) == Apply(l[0], Nest(l, 0, Settled(t))) == s1;
    assert Nest(l, 2, Settled(t)) == Apply(OpenJournal, s1);
    assert Nest(l, 3, Settled(t)) == s1.(journal := Journal(tx));
  }

  lemma UpgradeEnds(t: Tree, q: Request, tx: Transaction)
    requires q.CommitUpgrade? && tx == UpgradeTransaction(q.current, q.pointer, t.lkg, q.name, q.created)
    requires Nest(UpgradeList(q.current, tx), 4, Settled(t)) == Prepared(t, q, tx)
    ensures Nest(UpgradeList(q.current, tx), 9, Settled(t)) ==
      Settled(t.(current := Some(q.pointer), lkg := Some(q.current), snapshots := Some(map[q.name := q.current])))
  {
    var l, r := UpgradeList(q.current, tx), Settled(t);
    var s4 := Prepared(t, q, tx);
    var s5 := s4.(tree := s4.tree.(lkg := Some(q.current)));
    assert Nest(l, 5, r) == Apply(l[4], s4) == s5;
    var s6 := s5.(journal := Journal(tx.(phase := LastKnownGoodPublished)));
    assert Nest(l, 6, r) == Apply(l[5], s5) == s6;
    var s7 := s6.(tree := s6.tree.(current := Some(q.pointer)));
    assert Nest(l, 7, r) == Apply(l[6], s6) == s7;
    var s8 := s7.(journal := Journal(tx.(phase := CurrentPublished)));
    assert Nest(l, 8, r) == Apply(l[7], s7) == s8;
    assert Nest(l, 9, r) == Apply(l[8], s8) == s8.(journal := NoJournal);
  }

  /** A commit that dies right after it has written its journal. */
  lemma UpgradeDies(t: Tree, q: Request)
    requires q.CommitUpgrade? && Sensible(q) && q.course.Smooth? && q.gate == FreshGate(q.gate.port)
    requires t.versions.Some? && t.versions.value.candidates == 0 && t.snapshots.Some?
    requires t.current == Some(q.current) && Holds(t, Some(q.pointer))
    ensures |Section(Settled(t), q).steps| == 9
    ensures
      Run(Section(Settled(t), q).steps[..3], Settled(t)) ==
      Settled(t).(journal := Journal(UpgradeTransaction(q.current, q.pointer, t.lkg, q.name, q.created)))
  {
    hide Section;
    UpgradeSteps(t, q);
    var tx := UpgradeTransaction(q.current, q.pointer, t.lkg, q.name, q.created);
    JournalWritten(t, q, tx);
  }

  lemma JournalWritten(t: Tree, q: Request, tx: Transaction)
    requires q.CommitUpgrade? && t.snapshots.Some? && tx.snapshot.Some?
    ensures Run(UpgradeList(q.current, tx)[..3], Settled(t)) == Settled(t).(journal := Journal(tx))
  {
    var l := UpgradeList(q.current, tx)[..3];
    var s1 := Apply(l[0], Settled(t));
    var s2 := Apply(l[1], s1);
    var s3 := Apply(l[2], s2);
    RunsToEnd(l, [Settled(t), s1, s2, s3]);
  }

  lemma RollsBack(t: Tree, current: Pointer, previous: Pointer)
    requires t.versions.Some? && t.versions.value.candidates == 0
    requires t.current == Some(current) && t.lkg == Some(previous) && current.digest != previous.digest
    requires Holds(t, t.current) && Holds(t, t.lkg)
    ensures Section(Settled(t), CheckRollback(true)) == Work([], Checked(current, Some(previous)))
    ensures
      var section := Section(Settled(t), CommitRollback(current, previous, true, Smooth));
      && section.answer == Performed
      && Run(section.steps, Settled(t)) == Settled(t.(current := Some(previous), lkg := Some(current)))
  {
    var r := Settled(t);
    var q := CommitRollback(current, previous, true, Smooth);
    QuietSection(r, CheckRollback(true));
    QuietSection(r, q);
    var tx := RollbackTransaction(current, previous);
    var l := RollbackList(current, previous);
    assert BodySteps(tx) == l;
    RunIsNest(l, 7, r);
    assert l[..7] == l;
    RollbackEnds(t, current, previous);
  }

  function RollbackList(current: Pointer, previous: Pointer): seq<Step> {
    [OpenJournal, WriteJournal(RollbackTransaction(current, previous)), SetLastKnownGood(Some(current)),
     MarkPhase(LastKnownGoodPublished), SetCurrent(Some(previous)), MarkPhase(CurrentPublished), DropJournal]
  }

  lemma RollbackEnds(t: Tree, current: Pointer, previous: Pointer)
    ensures Nest(RollbackList(current, previous), 7, Settled(t)) ==
      Settled(t.(current := Some(previous), lkg := Some(current)))
  {
    var l, r := RollbackList(current, previous), Settled(t);
    var tx := RollbackTransaction(current, previous);
    assert Nest(l, 1, r) == Apply(l[0], Nest(l, 0, r)) == r.(journal := TornJournal);
    assert Nest(l, 2, r) == r.(journal := Journal(tx));
    var s3 := r.(journal := Journal(tx), tree := t.(lkg := Some(current)));
    assert Nest(l, 3, r) == Apply(l[2], Nest(l, 2, r)) == s3;
    var s4 := s3.(journal := Journal(tx.(phase := LastKnownGoodPublished)));
    assert Nest(l, 4, r) == Apply(l[3], s3) == s4;
    var s5 := s4.(tree := s4.tree.(current := Some(previous)));
    assert Nest(l, 5, r) == Apply(l[4], s4) == s5;
    var s6 := s5.(journal := Journal(tx.(phase := CurrentPublished)));
    assert Nest(l, 6, r) == Apply(l[5], s5) == s6;
    assert Nest(l, 7, r) == Apply(l[6], s6) == s6.(journal := NoJournal);
  }

  // ----- Two processes and a candidate

  function With(s: System, pid: nat, root: Root, local: Local): System {
    s.(root := root, locals := s.locals[pid := local])
  }

  /** One section run to its end that makes no call of a port. */
  lemma Enters(s: System, pid: nat, q: Request) returns (e: Event)
    requires Sensible(q) && May(LocalOf(s, pid), q) && !q.CommitUpgrade?
    ensures e == Enter(pid, q, None) && Enabled(s, e)
    ensures After(s, e) == With(s, pid, Run(Section(s.root, q).steps, s.root), Remembered(q, Section(s.root, q).answer))
  {
    hide Section, Run;
    e := Enter(pid, q, None);
  }

  function Generation2(a: Pointer, b: Pointer): map<Digest, Generation> {
    map[a.digest := Whole(a)][b.digest := Whole(b)]
  }

  /** `a` is installed by process 0 and process 1 has staged `b`. */
  lemma StagedRun(policy: SafetyPort.Policy, a: Pointer, b: Pointer) returns (ss: seq<System>, es: seq<Event>)
    requires a.digest != b.digest && a.sequence <= b.sequence
    ensures IsRun(ss, es) && |es| == 2 && ss[0] == Start(policy)
    ensures ss[1].root.tree.current == Some(a) && es[1] == Enter(1, StageUpgrade(b, true, Smooth), None)
    ensures ss[2] == System(Settled(TreeOf(a, a, None, Generation2(a, b))),
                            map[0 := AtRest, 1 := HasStaged(a, b, true)], map[], policy)
  {
    var s0 := Start(policy);
    var e0 := Installs(s0, 0, a);
    var s1 := After(s0, e0);
    StagesNew(s1.root.tree, b);
    var e1 := Enters(s1, 1, StageUpgrade(b, true, Smooth));
    var s2 := After(s1, e1);
    hide Section, Run, After, Enabled;
    ss, es := [s0, s1, s2], [e0, e1];
  }

  /**
   A discard of that candidate dies in the middle of removing it: the directory stays, not whole, and
   staging the same upgrade is refused.
   */
  lemma WoundIsReached(policy: SafetyPort.Policy, a: Pointer, b: Pointer) returns (ss: seq<System>, es: seq<Event>)
    requires a.digest != b.digest && a.sequence <= b.sequence
    ensures IsRun(ss, es) && |es| == 3
    ensures InstallUpgrades.WoundedAt(ss[3].root, b.digest) && Idle(ss[3].root)
    ensures !InstallUpgrades.Stageable(Section(ss[3].root, StageUpgrade(b, true, Smooth)).answer)
  {
    ss, es := StagedRun(policy, a, b);
    var e := Enter(1, DiscardCandidate(b), Some(1));
    var r := ss[2].root;
    DiscardDies(a, b);
    hide Section, Run, Apply;
    var s3 := After(ss[2], e);
    assert Next(ss[2], e, s3);
    Extend(ss, es, e);
    ss, es := ss + [s3], es + [e];
    RunsKeep(ss, es, 3);
    InstallUpgrades.WoundedStays(s3.root, b, []);
  }

  lemma Extend(ss: seq<System>, es: seq<Event>, e: Event)
    requires IsRun(ss, es) && Enabled(ss[|es|], e)
    ensures IsRun(ss + [After(ss[|es|], e)], es + [e])
  {
    hide Next, Enabled, After;
    var more, events := ss + [After(ss[|es|], e)], es + [e];
    assert Next(ss[|es|], e, After(ss[|es|], e)) by { NextIsAfter(ss[|es|], e); }
    forall i | 0 <= i < |events|
      ensures Next(more[i], events[i], more[i + 1])
    {
      if i < |es| { assert Next(ss[i], es[i], ss[i + 1]); }
    }
  }

  lemma NextIsAfter(s: System, e: Event)
    requires Enabled(s, e)
    ensures Next(s, e, After(s, e))
  {
  }

  lemma DiscardDies(a: Pointer, b: Pointer)
    requires a.digest != b.digest
    ensures
      var r := Settled(TreeOf(a, a, None, Generation2(a, b)));
      var steps := Section(r, DiscardCandidate(b)).steps;
      && |steps| == 2
      && Run(steps[..1], r) == Settled(TreeOf(a, a, None, Generation2(a, b)[b.digest := Wounded]))
  {
    var r := Settled(TreeOf(a, a, None, Generation2(a, b)));
    QuietSection(r, DiscardCandidate(b));
    var steps := [Wound(b.digest), DropGeneration(b.digest)];
    RunIsNest(steps, 1, r);
    assert Nest(steps, 1, r) == Apply(steps[0], Nest(steps, 0, r));
  }

  /** Process 2, having found the candidate there, commits it. */
  lemma SecondCommits(s: System, a: Pointer, b: Pointer) returns (s': System, e: Event)
    requires a.digest != b.digest && s.root == Settled(TreeOf(a, a, None, Generation2(a, b)))
    requires LocalOf(s, 2) == HasStaged(a, b, false)
    ensures Enabled(s, e) && s' == After(s, e)
    ensures s'.root == Settled(TreeOf(b, a, Some(map[0 := a]), Generation2(a, b)))
    ensures s'.locals == s.locals[2 := AtRest]
  {
    var q := CommitUpgrade(a, b, false, 0, FreshGate(PortOf(s, 2)), Smooth);
    e := Enter(2, q, None);
    UpgradeSteps(s.root.tree, q);
    Upgrades(s.root.tree, q);
    hide Section, Run, Apply, SectionCalls;
    s' := After(s, e);
  }

  /** Process 2 rolls back. */
  lemma SecondRollsBack(s: System, a: Pointer, b: Pointer) returns (s': System, s'': System, e: Event, e': Event)
    requires a.digest != b.digest && s.root == Settled(TreeOf(b, a, Some(map[0 := a]), Generation2(a, b)))
    requires LocalOf(s, 2) == AtRest
    ensures Enabled(s, e) && s' == After(s, e) && Enabled(s', e') && s'' == After(s', e')
    ensures s''.root == Settled(TreeOf(a, b, Some(map[0 := a]), Generation2(a, b)))
    ensures forall pid :: pid != 2 ==> LocalOf(s'', pid) == LocalOf(s, pid)
  {
    RollsBack(s.root.tree, b, a);
    e := Enters(s, 2, CheckRollback(true));
    s' := After(s, e);
    assert Run([], s.root) == s.root;
    e' := Enters(s', 2, CommitRollback(b, a, true, Smooth));
    s'' := After(s', e');
    hide Section, Run, Enabled, After;
  }

  /** Process 1 finds A again, commits its own upgrade and dies with the journal written. */
  lemma FirstDies(s: System, a: Pointer, b: Pointer) returns (s': System, e: Event)
    requires a.digest != b.digest && s.root == Settled(TreeOf(a, b, Some(map[0 := a]), Generation2(a, b)))
    requires LocalOf(s, 1) == HasStaged(a, b, true)
    ensures Enabled(s, e) && s' == After(s, e)
    ensures e.Enter? && e.pid == 1 && e.request.CommitUpgrade? && e.request.created
    ensures s'.root == s.root.(journal := Journal(UpgradeTransaction(a, b, Some(b), 1, true)))
  {
    var q := CommitUpgrade(a, b, true, 1, FreshGate(PortOf(s, 1)), Smooth);
    e := Enter(1, q, Some(3));
    UpgradeDies(s.root.tree, q);
    hide Section, Run, Apply, SectionCalls;
    s' := After(s, e);
  }

  /** Process 2 finds the candidate of process 1. */
  lemma SecondStages(s: System, a: Pointer, b: Pointer) returns (s': System, e: Event)
    requires a.digest != b.digest && a.sequence <= b.sequence
    requires s.root == Settled(TreeOf(a, a, None, Generation2(a, b))) && LocalOf(s, 2) == AtRest
    ensures Enabled(s, e) && s' == After(s, e)
    ensures s'.root == s.root && s'.locals == s.locals[2 := HasStaged(a, b, false)]
  {
    StagesOld(s.root.tree, b);
    e := Enters(s, 2, StageUpgrade(b, true, Smooth));
    assert Run([], s.root) == s.root;
    s' := After(s, e);
    hide Section, Run, Enabled, After;
  }

  /** Process 1 has staged B, and process 2 has made it current. */
  lemma SwitchedRun(policy: SafetyPort.Policy, a: Pointer, b: Pointer) returns (ss: seq<System>, es: seq<Event>)
    requires a.digest != b.digest && a.sequence <= b.sequence
    ensures IsRun(ss, es) && |es| == 4
    ensures ss[1].root.tree.current == Some(a) && es[1] == Enter(1, StageUpgrade(b, true, Smooth), None)
    ensures ss[4].root == Settled(TreeOf(b, a, Some(map[0 := a]), Generation2(a, b)))
    ensures LocalOf(ss[4], 1) == HasStaged(a, b, true) && LocalOf(ss[4], 2) == AtRest
  {
    ss, es := StagedRun(policy, a, b);
    hide Section, Run, Enabled, After, IsRun;
    var s3, e2 := SecondStages(ss[2], a, b);
    var s4, e3 := SecondCommits(s3, a, b);
    Extend(ss, es, e2);
    Lengths(ss, es);
    ss, es := ss + [s3], es + [e2];
    Extend(ss, es, e3);
    ss, es := ss + [s4], es + [e3];
  }

  lemma Lengths(ss: seq<System>, es: seq<Event>)
    requires IsRun(ss, es)
    ensures |ss| == |es| + 1
  {
  }

  /**
   `current` goes from A to B and back to A between the two sections of an upgrade, which then dies with
   its journal written: the journal's recovery does not delete B, which has become last known good.
   */
  lemma ReturnIsReached(policy: SafetyPort.Policy, a: Pointer, b: Pointer) returns (ss: seq<System>, es: seq<Event>)
    requires a.digest != b.digest && a.sequence <= b.sequence
    ensures IsRun(ss, es) && |es| == 7
    ensures ss[1].root.tree.current == Some(a) && ss[4].root.tree.current == Some(b) && ss[6].root.tree.current == Some(a)
    ensures es[1] == Enter(1, StageUpgrade(b, true, Smooth), None)
    ensures es[6].Enter? && es[6].pid == 1 && es[6].request.CommitUpgrade? && es[6].request.created
    ensures var r := ss[7].root;
      && r.journal == Journal(UpgradeTransaction(a, b, Some(b), 1, true)) && Aborting(r)
      && Run(LockPlan(r).steps, r).tree.lkg == Some(b) && Holds(Run(LockPlan(r).steps, r).tree, Some(b))
  {
    ss, es := ReturnedRun(policy, a, b);
    hide Section, Run, Enabled, After, IsRun, LockPlan;
    Lengths(ss, es);
    var s7, e6 := FirstDies(ss[6], a, b);
    Extend(ss, es, e6);
    ss, es := ss + [s7], es + [e6];
    DeathIsRecovered(ss, es, a, b);
  }

  /** Process 2 has made A current again. */
  lemma ReturnedRun(policy: SafetyPort.Policy, a: Pointer, b: Pointer) returns (ss: seq<System>, es: seq<Event>)
    requires a.digest != b.digest && a.sequence <= b.sequence
    ensures IsRun(ss, es) && |es| == 6
    ensures ss[1].root.tree.current == Some(a) && ss[4].root.tree.current == Some(b)
    ensures es[1] == Enter(1, StageUpgrade(b, true, Smooth), None)
    ensures ss[6].root == Settled(TreeOf(a, b, Some(map[0 := a]), Generation2(a, b)))
    ensures LocalOf(ss[6], 1) == HasStaged(a, b, true)
  {
    ss, es := SwitchedRun(policy, a, b);
    Lengths(ss, es);
    hide Section, Run, Enabled, After, IsRun;
    var s5, s6, e4, e5 := SecondRollsBack(ss[4], a, b);
    Extend(ss, es, e4);
    ss, es := ss + [s5], es + [e4];
    Extend(ss, es, e5);
    ss, es := ss + [s6], es + [e5];
  }

  lemma DeathIsRecovered(ss: seq<System>, es: seq<Event>, a: Pointer, b: Pointer)
    requires IsRun(ss, es) && |es| == 7 && a.digest != b.digest
    requires ss[7].root == Settled(TreeOf(a, b, Some(map[0 := a]), Generation2(a, b)))
                           .(journal := Journal(UpgradeTransaction(a, b, Some(b), 1, true)))
    ensures var r := ss[7].root;
      Aborting(r) && Run(LockPlan(r).steps, r).tree.lkg == Some(b) && Holds(Run(LockPlan(r).steps, r).tree, Some(b))
  {
    RunsKeep(ss, es, 7);
    hide LockPlan, Run;
    AbortSparesNamed(ss[7].root);
  }
}
