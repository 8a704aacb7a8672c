/**
 Several processes that share one root and take turns at the distribution lock.

 Upgrade, rollback and uninstall let go of the lock between their two sections, so any other
 operation may come in between; any section may die after any of its durable steps; and a process may
 leave an operation between its sections.  Each process has a safety port, whose calls are recorded.
 */
module InstallSystem {
  import opened Options
  import opened InstallRoot
  import opened InstallPlans
  import opened InstallSections
  import SafetyPort

  /** What a process remembers between its locked sections. */
  datatype Local =
    | AtRest
    | HasStaged(current: Pointer, pointer: Pointer, created: bool)
    | MustDiscard(pointer: Pointer)
    | HasCheckedRollback(current: Pointer, previous: Pointer)
    | HasCheckedUninstall(current: Pointer)

  datatype System = System(
    root: Root, locals: map<nat, Local>, calls: map<nat, seq<SafetyPort.Call>>, policy: SafetyPort.Policy)

  /**
   One locked section by one process, which dies after `dies.value` of its steps if that is given; or
   a process leaves its operation, as when the lifecycle is found running.
   */
  datatype Event = Enter(pid: nat, request: Request, dies: Option<nat>) | Leave(pid: nat)

  function Start(policy: SafetyPort.Policy): System {
    System(NOTHING, map[], map[], policy)
  }

  function LocalOf(s: System, pid: nat): Local {
    if pid in s.locals then s.locals[pid] else AtRest
  }

  /** The calls a process has made of its port. */
  function CallsOf(s: System, pid: nat): seq<SafetyPort.Call> {
    if pid in s.calls then s.calls[pid] else []
  }

  function PortOf(s: System, pid: nat): SafetyPort.Port {
    SafetyPort.PortAt(s.policy, CallsOf(s, pid), |CallsOf(s, pid)|)
  }

  /** The sections a process may enter next. */
  predicate May(local: Local, q: Request) {
    match q
    case CommitUpgrade(current, pointer, created, _, _, _) => local == HasStaged(current, pointer, created)
    case DiscardCandidate(pointer) =>
      local == MustDiscard(pointer) || (local.HasStaged? && local.pointer == pointer && local.created)
    case CommitRollback(current, previous, _, _) => local == HasCheckedRollback(current, previous)
    case CommitUninstall(current) => local == HasCheckedUninstall(current)
    case _ => local == AtRest
  }

  function Remembered(q: Request, answer: Answer): Local {
    if q.StageUpgrade? && answer.Staged? then HasStaged(answer.current, q.pointer, answer.created)
    else if q.CommitUpgrade? && !answer.Performed? && q.created then MustDiscard(q.pointer)
    else if q.CheckRollback? && answer.Checked? && answer.previous.Some? then
      HasCheckedRollback(answer.current, answer.previous.value)
    else if q.CheckUninstall? && answer.Checked? then HasCheckedUninstall(answer.current)
    else AtRest
  }

  /** The steps an event takes. */
  function StepsOf(s: System, e: Event): seq<Step> {
    if e.Leave? || !Sensible(e.request) then []
    else
      var steps := Section(s.root, e.request).steps;
      if e.dies.Some? && e.dies.value <= |steps| then steps[..e.dies.value] else steps
  }

  /** The process enters its own section with its own port. */
  predicate Enabled(s: System, e: Event) {
    e.Enter? ==>
      && Sensible(e.request) && May(LocalOf(s, e.pid), e.request)
      && (e.request.CommitUpgrade? ==> e.request.gate.port == PortOf(s, e.pid))
      && (e.dies.Some? ==> e.dies.value <= |Section(s.root, e.request).steps|)
  }

  function After(s: System, e: Event): System
    requires Enabled(s, e)
  {
    match e
    case Leave(pid) => s.(locals := s.locals[pid := AtRest])
    case Enter(pid, q, dies) =>
      var root := Run(StepsOf(s, e), s.root);
      if dies.Some? then System(root, s.locals[pid := AtRest], s.calls[pid := []], s.policy)
      else
        System(root, s.locals[pid := Remembered(q, Section(s.root, q).answer)],
               if q.CommitUpgrade? then s.calls[pid := CallsOf(s, pid) + SectionCalls(s.root, q)] else s.calls,
               s.policy)
  }

  predicate Next(s: System, e: Event, s': System) {
    Enabled(s, e) && s' == After(s, e)
  }

  /** A run of the system from an absent root. */
  predicate IsRun(ss: seq<System>, es: seq<Event>) {
    && |ss| == |es| + 1 && ss[0] == Start(ss[0].policy)
    && forall i :: 0 <= i < |es| ==> Next(ss[i], es[i], ss[i + 1])
  }

  predicate LocalInv(local: Local) {
    && (local.HasStaged? ==> local.current.digest != local.pointer.digest)
    && (local.HasCheckedRollback? ==> local.current.digest != local.previous.digest)
  }

  ghost predicate SystemInv(s: System) {
    Inv(s.root) && forall pid :: pid in s.locals ==> LocalInv(s.locals[pid])
  }

  lemma SectionPerforms(r: Root, q: Request)
    requires Inv(r) && Sensible(q) && Section(r, q).answer.Performed?
    ensures Installed(Run(Section(r, q).steps, r)) == Target(q, Installed(r))
  {
    LockSilent(r);
    var r1 := Run(LockPlan(r).steps, r);
    var work := WorkOf(r1, LockPlan(r).verdict, q);
    WorkTracks(r1, LockPlan(r).verdict, q);
    TracksKeeps(work.steps, r1, Target(q, Installed(r)));
    RunConcat(LockPlan(r).steps, work.steps, r);
  }

  lemma RememberedInv(r: Root, q: Request)
    requires Sensible(q)
    ensures LocalInv(Remembered(q, Section(r, q).answer))
  {
  }

  /** What must be installed for a request to change it: a commit is a compare-and-swap. */
  predicate Matches(q: Request, before: Pair) {
    match q
    case InstallBundle(_, _, _) => before.current.None?
    case CommitUpgrade(current, _, _, _, _, _) => before.current == Some(current)
    case CommitRollback(current, previous, _, _) => before == Pair(Some(current), Some(previous))
    case CommitUninstall(current) => before.current == Some(current)
    case _ => true
  }

  lemma MismatchKeeps(r: Root, q: Request, k: nat)
    requires Inv(r) && Sensible(q) && !Matches(q, Installed(r)) && k <= |Section(r, q).steps|
    ensures Installed(Run(Section(r, q).steps[..k], r)) == Installed(r)
  {
    LockSilent(r);
    SilentKeeps(LockPlan(r).steps, if k <= |LockPlan(r).steps| then k else |LockPlan(r).steps|, r);
    assert Section(r, q).steps == LockPlan(r).steps;
  }

  /**
   One section by one process, run through or cut off by its death: the invariant is kept, and what
   is installed stays as it is or, if it is what the request expects, becomes what was asked for.
   A section that reports success has done so.
   */
  lemma NextKeeps(s: System, e: Event, s': System)
    requires SystemInv(s) && Next(s, e, s')
    ensures SystemInv(s')
    ensures Installed(s'.root) == Installed(s.root)
         || (e.Enter? && Matches(e.request, Installed(s.root)) && Installed(s'.root) == Target(e.request, Installed(s.root)))
    ensures e.Enter? && e.dies.None? && Section(s.root, e.request).answer.Performed? ==>
      Installed(s'.root) == Target(e.request, Installed(s.root))
  {
    if e.Enter? {
      var steps := Section(s.root, e.request).steps;
      var k := if e.dies.Some? then e.dies.value else |steps|;
      hide Section, Target;
      if Section(s.root, e.request).answer.Performed? {
        SectionPerforms(s.root, e.request);
      }
      if !Matches(e.request, Installed(s.root)) {
        MismatchKeeps(s.root, e.request, k);
      }
      SectionAtomic(s.root, e.request, k);
      assert steps[..|steps|] == steps;
      RememberedInv(s.root, e.request);
    }
  }

  /** Every reachable state of every interleaving satisfies the invariant. */
  lemma {:induction false} RunsKeep(ss: seq<System>, es: seq<Event>, i: nat)
    requires IsRun(ss, es) && i < |ss|
    ensures SystemInv(ss[i])
  {
    if i > 0 {
      RunsKeep(ss, es, i - 1);
      NextKeeps(ss[i - 1], es[i - 1], ss[i]);
    }
  }

  /**
   What the invariant means for a maintainer, at every durable step of every section of every run:
   at most one journal is pending; trash implies an uninstall journal; a pointer journal passes its
   own reader; and outside a pending uninstall both pointers name generations that are present and
   whole, so nothing that was deleted, by recovery, discard or sweep, is named by a surviving pointer.
   */
  lemma InterleavingsAreSafe(ss: seq<System>, es: seq<Event>, i: nat, q: Request, k: nat)
    requires IsRun(ss, es) && i < |ss| && Sensible(q) && k <= |Section(ss[i].root, q).steps|
    ensures var r := Run(Section(ss[i].root, q).steps[..k], ss[i].root);
      && (r.journal.NoJournal? || r.notice.NoNotice?)
      && (r.trash.Some? ==> r.notice.Notice?)
      && (r.journal.Journal? ==> Readable(r.journal.tx))
      && (!r.notice.Notice? ==>
            && Holds(r.tree, r.tree.current) && Holds(r.tree, r.tree.lkg)
            && (r.tree.current.Some? ==> r.tree.lkg.Some? && LaunchersReady(r.tree)))
  {
    RunsKeep(ss, es, i);
    SectionAtomic(ss[i].root, q, k);
  }

  /**
   No reachable state needs manual recovery, except after a crash inside the exclusive create of a
   journal; then every section is refused and the root is left exactly as it is.
   */
  lemma OnlyTornJournalsRefuse(ss: seq<System>, es: seq<Event>, i: nat)
    requires IsRun(ss, es) && i < |ss|
    ensures LockPlan(ss[i].root).verdict.Refused? <==> Torn(ss[i].root)
    ensures Torn(ss[i].root) ==> Run(LockPlan(ss[i].root).steps, ss[i].root) == ss[i].root
  {
    RunsKeep(ss, es, i);
    LockSilent(ss[i].root);
  }

  /**
   `current` may go from A to B and back to A between an upgrade's two sections.  The commit then
   still goes ahead, and if it aborts, the candidate it staged survives when it has become the
   last known good in the meantime.
   */
  lemma AbortSparesNamed(r: Root)
    requires Inv(r) && r.journal.Journal? && Aborting(r)
    requires r.journal.tx.lkgBefore == r.journal.tx.currentAfter
    ensures var r' := Run(LockPlan(r).steps, r);
      r'.tree.lkg == r.journal.tx.currentAfter && Holds(r'.tree, r.journal.tx.currentAfter)
  {
    LockSilent(r);
  }
}
