/**
 Which journals a section may write, and that every upgrade journal of every run has its own
 authorization behind it.
 */
module InstallGate {
  import opened Options
  import opened InstallRoot
  import opened InstallPlans
  import opened InstallSections
  import opened InstallRuns
  import opened InstallSystem
  import SafetyPort

  // ----- The journals of a section

  /** A transaction the request is for. */
  predicate Begins(q: Request, tx: Transaction) {
    match q
    case InstallBundle(p, _, _) => tx == InstallTransaction(p)
    case CommitUpgrade(current, p, created, name, _, _) =>
      tx == UpgradeTransaction(current, p, tx.lkgBefore, name, created)
    case CommitRollback(current, previous, _, _) => tx == RollbackTransaction(current, previous)
    case _ => false
  }

  predicate Allowed(q: Request, step: Step) {
    step.WriteJournal? ==> Begins(q, step.tx)
  }

  function AllowedIn(q: Request): Step -> bool {
    step => Allowed(q, step)
  }

  predicate WritesNone(step: Step) {
    !step.WriteJournal?
  }

  lemma HarmlessAllowed(steps: seq<Step>, q: Request)
    requires All(steps, WritesNone)
    ensures All(steps, AllowedIn(q))
  {
    AllWeaken(steps, WritesNone, AllowedIn(q));
  }

  lemma PointerRecoveryHarmless(r: Root)
    ensures All(PointerRecovery(r).steps, WritesNone)
  {
    hide AbortSteps;
    if r.journal.Journal? && Readable(r.journal.tx) {
      var tx := r.journal.tx;
      AbortRepairs(r.tree, tx);
      AllThree(SetLastKnownGood(tx.lkgAfter), SetCurrent(tx.currentAfter), DropJournal, Repairs);
      assert All(PointerRecovery(r).steps, Repairs);
      AllWeaken(PointerRecovery(r).steps, Repairs, WritesNone);
    }
  }

  lemma HandlerHarmless(last: seq<Step>, r: Root)
    ensures All(HandlerSteps(last, r), WritesNone)
  {
    var tidy := TidySteps(last, r);
    assert All(tidy, WritesNone);
    PointerRecoveryHarmless(Run(tidy, r));
    hide PointerRecovery, TidySteps;
    AllConcat(tidy, PointerRecovery(Run(tidy, r)).steps, WritesNone);
  }

  /** A transaction's body writes no journal but its own. */
  lemma BodyAllowed(tx: Transaction, q: Request)
    requires Readable(tx) && Begins(q, tx)
    ensures All(BodySteps(tx), AllowedIn(q))
  {
    var f := AllowedIn(q);
    PrepareAllowed(tx, q);
    hide PrepareSteps, Begins;
    BeginAllowed(tx, q);
    AllConcat(BeginSteps(tx), PrepareSteps(tx), f);
    AllConcat(BeginSteps(tx) + PrepareSteps(tx), PublishLead(tx), f);
    AllConcat(LeadSteps(tx), [SetCurrent(tx.currentAfter)], f);
    AllConcat(LeadSteps(tx) + [SetCurrent(tx.currentAfter)], PUBLISH_TAIL, f);
  }

  lemma BeginAllowed(tx: Transaction, q: Request)
    requires Begins(q, tx)
    ensures All(BeginSteps(tx), AllowedIn(q))
  {
    var f := AllowedIn(q);
    assert f(OpenJournal) && f(WriteJournal(tx));
    assert BeginSteps(tx)[1..] == [WriteJournal(tx)];
    assert [WriteJournal(tx)][1..] == [];
    assert All([WriteJournal(tx)], f);
  }

  lemma PrepareAllowed(tx: Transaction, q: Request)
    requires Readable(tx)
    ensures All(PrepareSteps(tx), AllowedIn(q))
  {
    if tx.operation == Install {
      var p := tx.currentAfter.value;
      AllThree(MakeVersions, MakeCandidate, Publish(p), AllowedIn(q));
      AllThree(MakeBin, WriteLauncher(Cortex), WriteLauncher(Cortexd), AllowedIn(q));
      AllConcat(StageSteps(p), LAUNCHER_STEPS, AllowedIn(q));
    }
  }

  lemma TransactionAllowed(tx: Transaction, course: Course, r: Root, q: Request)
    requires Readable(tx) && Begins(q, tx)
    ensures All(TransactionWork(tx, course, r).steps, AllowedIn(q))
  {
    var body := BodySteps(tx);
    BodyAllowed(tx, q);
    if course.Fault? && course.at < |body| {
      var done := body[..course.at];
      AllPrefix(body, course.at, AllowedIn(q));
      HandlerHarmless(LastOf(done), Run(done, r));
      HarmlessAllowed(HandlerSteps(LastOf(done), Run(done, r)), q);
      AllConcat(done, HandlerSteps(LastOf(done), Run(done, r)), AllowedIn(q));
    }
  }

  lemma EntryHarmless(r: Root)
    ensures All(EntrySteps(r), WritesNone)
  {
    AllConcat(OptionalStep(!r.present, MakeRoot), OptionalStep(!r.marker && NoEntries(r), WriteMarker), WritesNone);
  }

  lemma StageHarmless(r: Root, p: Pointer, healthy: bool, course: Course)
    ensures All(StageWork(r, p, healthy, course).steps, WritesNone)
  {
    AllThree(MakeVersions, MakeCandidate, Publish(p), WritesNone);
    var stage := StageSteps(p);
    if course.Fault? {
      if course.at < 2 {
        AllPrefix(stage, course.at, WritesNone);
      } else if course.at == 2 {
        AllPrefix(stage, 2, WritesNone);
        AllConcat(stage[..2], [DropCandidate], WritesNone);
      } else {
        assert All([Wound(p.digest), DropGeneration(p.digest)], WritesNone) by {
          assert [Wound(p.digest), DropGeneration(p.digest)][1..] == [DropGeneration(p.digest)];
        }
        AllConcat(stage, [Wound(p.digest), DropGeneration(p.digest)], WritesNone);
      }
    }
  }

  lemma UninstallHarmless(r: Root, current: Pointer)
    ensures All(CommitUninstallWork(r, current).steps, WritesNone)
  {
    if r.tree.current == Some(current) {
      UninstallMoves(r, current);
      AllWeaken(CommitUninstallWork(r, current).steps, Moves, WritesNone);
    }
  }

  lemma WorkAllowed(r: Root, locked: Verdict, q: Request)
    requires Sensible(q)
    ensures All(WorkOf(r, locked, q).steps, AllowedIn(q))
  {
    hide StageWork, CommitUninstallWork, TransactionWork, EntrySteps, Allowed, GateOpens;
    match q
    case InstallBundle(p, healthy, course) =>
      var work := InstallWork(r, p, healthy, course);
      if work.steps != [] {
        var tx := InstallTransaction(p);
        var r1 := Run(EntrySteps(r), r);
        EntryHarmless(r);
        HarmlessAllowed(EntrySteps(r), q);
        TransactionAllowed(tx, course, r1, q);
        AllConcat(EntrySteps(r), TransactionWork(tx, course, r1).steps, AllowedIn(q));
      }
    case StageUpgrade(p, healthy, course) =>
      StageHarmless(r, p, healthy, course);
      HarmlessAllowed(StageWork(r, p, healthy, course).steps, q);
    case CommitUpgrade(current, p, created, name, gate, course) =>
      if CommitUpgradeWork(r, q).steps != [] {
        var tx := UpgradeTransaction(current, p, r.tree.lkg, name, created);
        TransactionAllowed(tx, course, Apply(MakeSnapshots, r), q);
        MakesSnapshots(q);
        AllConcat([MakeSnapshots], TransactionWork(tx, course, Apply(MakeSnapshots, r)).steps, AllowedIn(q));
      }
    case DiscardCandidate(p) =>
      DiscardHarmless(r, p);
      HarmlessAllowed(DiscardWork(r, p).steps, q);
    case CommitRollback(current, previous, healthy, course) =>
      if CommitRollbackWork(r, q).steps != [] {
        TransactionAllowed(RollbackTransaction(current, previous), course, r, q);
      }
    case CommitUninstall(current) =>
      UninstallHarmless(r, current);
      HarmlessAllowed(CommitUninstallWork(r, current).steps, q);
    case _ =>
  }

  lemma MakesSnapshots(q: Request)
    ensures All([MakeSnapshots], AllowedIn(q))
  {
  }

  lemma DiscardHarmless(r: Root, p: Pointer)
    ensures All(DiscardWork(r, p).steps, WritesNone)
  {
    if p.digest in Generations(r.tree) {
      assert [Wound(p.digest), DropGeneration(p.digest)][1..] == [DropGeneration(p.digest)];
    }
  }

  lemma LockHarmless(r: Root)
    ensures All(LockPlan(r).steps, WritesNone)
  {
    LockRepairs(r);
    AllWeaken(LockPlan(r).steps, Repairs, WritesNone);
  }

  lemma SectionAllowed(r: Root, q: Request)
    requires Sensible(q)
    ensures All(Section(r, q).steps, AllowedIn(q))
  {
    hide LockPlan, WorkOf, Allowed;
    var lock := LockPlan(r);
    LockHarmless(r);
    HarmlessAllowed(lock.steps, q);
    if lock.verdict.Ok? {
      var r1 := Run(lock.steps, r);
      WorkAllowed(r1, lock.verdict, q);
      AllConcat(lock.steps, WorkOf(r1, lock.verdict, q).steps, AllowedIn(q));
    }
  }

  lemma {:induction false} AllAt(steps: seq<Step>, f: Step -> bool, j: nat)
    requires All(steps, f) && j < |steps|
    ensures f(steps[j])
  {
    if j > 0 { AllAt(steps[1..], f, j - 1); }
  }

  // ----- Upgrade journals

  /** A journal is written by a section only when its own gate is open. */
  lemma JournalNeedsGate(r: Root, q: Request, j: nat)
    requires Sensible(q) && q.CommitUpgrade? && j < |Section(r, q).steps| && Section(r, q).steps[j].WriteJournal?
    ensures
      var r1 := Run(LockPlan(r).steps, r);
      !LockPlan(r).verdict.Refused? && ReachesGate(r1, q) && GateOpens(r1, q)
  {
    hide LockPlan, Run, GateOpens, TransactionWork;
    var lock := LockPlan(r);
    LockHarmless(r);
    if j < |lock.steps| {
      AllAt(lock.steps, WritesNone, j);
    }
  }

  /**
   Over every run of any number of processes: an upgrade journal names the pointers of the section that
   writes it, and in that same section, before it, the process's own port granted an authorization for
   exactly that upgrade and accepted it once, having found the same Control state at both looks.
   */
  lemma UpgradeJournalsAreAuthorized(ss: seq<System>, es: seq<Event>, i: nat, j: nat)
    requires IsRun(ss, es) && i < |es| && j < |StepsOf(ss[i], es[i])|
    requires StepsOf(ss[i], es[i])[j].WriteJournal? && StepsOf(ss[i], es[i])[j].tx.operation == Upgrade
    ensures
      var q, tx := es[i].request, StepsOf(ss[i], es[i])[j].tx;
      && q.CommitUpgrade? && tx.currentBefore == Some(q.current) && tx.currentAfter == Some(q.pointer)
      && UpgradeTerms(q).current == q.current.digest && UpgradeTerms(q).candidate == q.pointer.digest
      && SafetyPort.Authorizes(
           ss[i].policy, CallsOf(ss[i], es[i].pid), SectionCalls(ss[i].root, q), UpgradeTerms(q))
  {
    hide Section, SectionCalls, GateOpens, ReachesGate, LockPlan, Run, SafetyPort.Authorizes;
    assert Next(ss[i], es[i], ss[i + 1]);
    var r, q := ss[i].root, es[i].request;
    SectionAllowed(r, q);
    AllAt(Section(r, q).steps, AllowedIn(q), j);
    JournalNeedsGate(r, q, j);
    OpenGateAuthorizes(ss[i], es[i]);
  }

  /** A section that reaches its port and finds the gate open leaves its authorization in the port's history. */
  lemma OpenGateAuthorizes(s: System, e: Event)
    requires e.Enter? && e.request.CommitUpgrade? && e.request.gate.port == PortOf(s, e.pid)
    requires !LockPlan(s.root).verdict.Refused?
    requires var r1 := Run(LockPlan(s.root).steps, s.root);
      ReachesGate(r1, e.request) && GateOpens(r1, e.request)
    ensures SafetyPort.Authorizes(
              s.policy, CallsOf(s, e.pid), SectionCalls(s.root, e.request), UpgradeTerms(e.request))
  {
    hide LockPlan, Run, SafetyPort.Authorizes, SafetyPort.Opens, SafetyPort.GateCalls;
    var q := e.request;
    var r1 := Run(LockPlan(s.root).steps, s.root);
    SafetyPort.GateAuthorizes(
      s.policy, CallsOf(s, e.pid), UpgradeTerms(q), q.gate.first, r1.tree.current == Some(q.current), q.gate.second);
  }

  /** The port's history is kept: the next section of the process starts from the port this one left. */
  lemma PortGoesOn(s: System, e: Event)
    requires Enabled(s, e) && e.Enter? && e.request.CommitUpgrade? && e.dies.None?
    ensures PortOf(After(s, e), e.pid) == PortAfterSection(s.root, e.request)
  {
    hide LockPlan, Run, SafetyPort.Opens, SafetyPort.AfterGate, SafetyPort.GateCalls, Section, Remembered;
    var q := e.request;
    var r1 := Run(LockPlan(s.root).steps, s.root);
    var before := CallsOf(s, e.pid);
    assert before + [] == before;
    SafetyPort.GateAuthorizes(
      s.policy, before, UpgradeTerms(q), q.gate.first, r1.tree.current == Some(q.current), q.gate.second);
  }
}
