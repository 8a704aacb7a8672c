/**
 The supervisor lifecycle: start, stop and quiescence under one lock, a record file, supervisors
 and children that may die at any time, and the shutdown handshake, in which a stop sends the
 supervisor a deadline over a channel, is acknowledged, and waits for it to exit.

 A run is named by its claim.  An identity check that answers no means the process is gone; one
 that cannot tell raises, which is `GiveUp` here.  The supervisors are those spawned by a start
 whose own process survives to clean up after a failure.  Time passes between any two events.
 */
module Lifecycle {
  import opened Options

  // ----- The supervisor's side of the handshake

  /** The furthest ahead a supervisor lets a stop put its deadline. */
  const LIMIT: real := 60.0

  /** How long a supervisor cleans up when no stop has told it. */
  const OWN_CLEANUP: real := 2.0

  /** A message on a supervisor's channel; `ticket` numbers the requests of stops, others have none. */
  datatype Message = Message(wellFormed: bool, claim: nat, deadline: real, ticket: Option<nat>)

  /** The stop event and the one-cell deadline. */
  datatype Cells = Cells(stopRequested: bool, bound: Option<real>)

  /** The checks of a request; the clock is read once for either end of the window. */
  predicate Accepts(claim: nat, m: Message, now: real, later: real) {
    m.wellFormed && m.claim == claim && now < m.deadline <= later + LIMIT
  }

  /** What reading a message does; `replied` says whether the acknowledgement could be sent. */
  function Handled(cells: Cells, claim: nat, m: Message, now: real, later: real, replied: bool): Cells {
    if Accepts(claim, m, now, later) && replied then Cells(true, Some(m.deadline)) else cells
  }

  /** When cleaning up has to be done, for a supervisor that begins it at `now`. */
  function CleanupFrom(cells: Cells, now: real): real {
    if cells.bound.Some? then cells.bound.value else now + OWN_CLEANUP
  }

  // ----- The state

  /** The processes of a run, whether its supervisor has written the record, and its channel. */
  datatype Run = Run(
    supervisor: bool, control: bool, web: bool, wrote: bool, mail: seq<Message>, cells: Cells, cleanup: Option<real>)

  datatype Operation = Start | Stop | Quiesce

  /** How far `_stop_record` or `_cleanup_failed_start` has got with the processes of a claim. */
  datatype Stage =
    | Ask | Composed(deadline: real) | AwaitReply(ticket: nat) | AwaitExit(ticket: nat)
    | CheckWeb | CheckControl | Remove

  datatype Progress =
    | Begun
    | Stopping(claim: nat, stage: Stage)
    | Spawning
    | Waiting(claim: nat)
    | Failing(claim: nat)
    | Cleaning(claim: nat, stage: Stage)
    | Quiet

  datatype Holder = Holder(operation: Operation, deadline: real, progress: Progress)

  /** A request as it was sent: for which claim, with what deadline, by an operation that ends when. */
  datatype Sent = Sent(claim: nat, deadline: real, until: real)

  /** The record names the claim whose three processes it describes. */
  datatype State = State(
    now: real, record: Option<nat>, runs: seq<Run>, holder: Option<Holder>, sent: seq<Sent>, acked: set<nat>)

  const INITIAL := State(0.0, None, [], None, [], {})

  const SPAWNED := Run(true, false, false, false, [], Cells(false, None), None)

  datatype Child = Control | Web

  datatype Event =
    | Tick(passed: real)
    | Acquire(operation: Operation, deadline: real)
    | ReadRecord(healthy: bool)
    | Observe
    | Compose
    | Deliver
    | Hear
    | GiveUp
    | Spawn
    | Ready
    | Fail
    | Terminated
    | LetGo
    | SpawnChild(run: nat, child: Child)
    | WriteRecord(run: nat)
    | Signal(run: nat)
    | Receive(run: nat, later: real, replied: bool)
    | Intrude(run: nat, message: Message)
    | BeginCleanup(run: nat)
    | SupervisorDies(run: nat)
    | ChildDies(run: nat, child: Child)

  predicate Alive(s: State, run: nat) {
    run < |s.runs| && s.runs[run].supervisor
  }

  predicate ChildAlive(s: State, run: nat, child: Child) {
    run < |s.runs| && (if child == Control then s.runs[run].control else s.runs[run].web)
  }

  function SetRun(s: State, run: nat, r: Run): State
    requires run < |s.runs|
  {
    s.(runs := s.runs[run := r])
  }

  function SetChild(s: State, run: nat, child: Child, alive: bool): State
    requires run < |s.runs|
  {
    SetRun(s, run, if child == Control then s.runs[run].(control := alive) else s.runs[run].(web := alive))
  }

  function Progressed(s: State, progress: Progress): State
    requires s.holder.Some?
  {
    s.(holder := Some(s.holder.value.(progress := progress)))
  }

  function Released(s: State): State {
    s.(holder := None)
  }

  function Least(a: real, b: real): real {
    if a <= b then a else b
  }

  // ----- Steps of the operation that holds the lock

  /** One observation of `_stop_record`: each finds its process gone, or the event is not possible. */
  function ObserveStop(s: State, claim: nat, stage: Stage): Option<State>
    requires s.holder.Some?
  {
    match stage
    case Ask => if Alive(s, claim) then None else Some(Progressed(s, Stopping(claim, CheckWeb)))
    case AwaitExit(_) => if Alive(s, claim) then None else Some(Progressed(s, Stopping(claim, CheckWeb)))
    case CheckWeb => if ChildAlive(s, claim, Web) then None else Some(Progressed(s, Stopping(claim, CheckControl)))
    case CheckControl => if ChildAlive(s, claim, Control) then None else Some(Progressed(s, Stopping(claim, Remove)))
    case Remove =>
      if s.now >= s.holder.value.deadline then None
      else
        var removed := if s.record == Some(claim) then s.(record := None) else s;
        Some(if s.holder.value.operation == Start then Progressed(removed, Spawning) else Released(removed))
    case _ => None
  }

  function ObserveCleanup(s: State, claim: nat, stage: Stage): Option<State>
    requires s.holder.Some?
  {
    match stage
    case CheckWeb => if ChildAlive(s, claim, Web) then None else Some(Progressed(s, Cleaning(claim, CheckControl)))
    case CheckControl => if ChildAlive(s, claim, Control) then None else Some(Progressed(s, Cleaning(claim, Remove)))
    case Remove => Some(Released(if s.record == Some(claim) then s.(record := None) else s))
    case _ => None
  }

  /** `_request_supervisor_shutdown`: compose a request, deliver it, hear the acknowledgement. */
  function RequestStep(s: State, e: Event, claim: nat, stage: Stage): Option<State>
    requires s.holder.Some?
  {
    var deadline := s.holder.value.deadline;
    if s.now >= deadline then None
    else if e.Compose? && stage.Ask? && Alive(s, claim) then
      Some(Progressed(s, Stopping(claim, Composed(Least(deadline, s.now + LIMIT)))))
    else if e.Deliver? && stage.Composed? && Alive(s, claim) then
      var ticket := |s.sent|;
      var delivered := SetRun(s, claim, s.runs[claim].(
        mail := s.runs[claim].mail + [Message(true, claim, stage.deadline, Some(ticket))]));
      Some(Progressed(delivered, Stopping(claim, AwaitReply(ticket))).(
        sent := s.sent + [Sent(claim, stage.deadline, deadline)]))
    else if e.Hear? && stage.AwaitReply? && stage.ticket in s.acked then
      Some(Progressed(s, Stopping(claim, AwaitExit(stage.ticket))))
    else None
  }

  /** What the operation that holds the lock does; `None` when it cannot do that now. */
  function HolderStep(s: State, e: Event): Option<State>
    requires s.holder.Some?
  {
    var operation, progress := s.holder.value.operation, s.holder.value.progress;
    match e
    case ReadRecord(healthy) =>
      if progress != Begun then None
      else if operation == Quiesce then Some(if s.record.Some? then Released(s) else Progressed(s, Quiet))
      else if s.record.None? then Some(if operation == Start then Progressed(s, Spawning) else Released(s))
      else if operation == Start && healthy then
        if Alive(s, s.record.value) then Some(Released(s)) else None
      else Some(Progressed(s, Stopping(s.record.value, Ask)))
    case Observe =>
      if progress.Stopping? then ObserveStop(s, progress.claim, progress.stage)
      else if progress.Cleaning? then ObserveCleanup(s, progress.claim, progress.stage)
      else None
    case Compose => if progress.Stopping? then RequestStep(s, e, progress.claim, progress.stage) else None
    case Deliver => if progress.Stopping? then RequestStep(s, e, progress.claim, progress.stage) else None
    case Hear => if progress.Stopping? then RequestStep(s, e, progress.claim, progress.stage) else None
    case GiveUp => if progress.Waiting? || progress.Failing? then None else Some(Released(s))
    case Spawn =>
      if progress != Spawning then None
      else Some(Progressed(s, Waiting(|s.runs|)).(runs := s.runs + [SPAWNED]))
    case Ready =>
      if progress.Waiting? && s.record == Some(progress.claim) && Alive(s, progress.claim) then Some(Released(s)) else None
    case Fail => if progress.Waiting? then Some(Progressed(s, Failing(progress.claim))) else None
    case Terminated =>
      if !progress.Failing? || Alive(s, progress.claim) then None
      else if s.record == Some(progress.claim) then Some(Progressed(s, Cleaning(progress.claim, CheckWeb)))
      else Some(Released(s))
    case LetGo => if progress == Quiet then Some(Released(s)) else None
    case _ => None
  }

  // ----- Steps of the processes

  /** The supervisor reads the first message of its channel, while it serves. */
  function ReceiveStep(s: State, run: nat, later: real, replied: bool): Option<State> {
    if !Alive(s, run) || later < s.now then None
    else
      var r := s.runs[run];
      if !r.wrote || r.cells.stopRequested || r.cleanup.Some? || r.mail == [] then None
      else
        var m := r.mail[0];
        var cells := Handled(r.cells, run, m, s.now, later, replied);
        var accepted := Accepts(run, m, s.now, later) && replied && m.ticket.Some?;
        Some(SetRun(s, run, r.(mail := r.mail[1..], cells := cells)).(
          acked := if accepted then s.acked + {m.ticket.value} else s.acked))
  }

  /** Steps of supervisors and children. */
  function ProcessStep(s: State, e: Event): Option<State> {
    match e
    case SpawnChild(run, child) =>
      if Alive(s, run) && !s.runs[run].wrote && s.runs[run].cleanup.None? then Some(SetChild(s, run, child, true)) else None
    case WriteRecord(run) =>
      if Alive(s, run) && !s.runs[run].wrote && s.runs[run].cleanup.None?
      then Some(SetRun(s, run, s.runs[run].(wrote := true)).(record := Some(run)))
      else None
    case Signal(run) =>
      if Alive(s, run)
      then Some(SetRun(s, run, s.runs[run].(cells := s.runs[run].cells.(stopRequested := true))))
      else None
    case Receive(run, later, replied) => ReceiveStep(s, run, later, replied)
    case Intrude(run, m) =>
      if Alive(s, run) && m.ticket.None? && (!m.wellFormed || m.claim != run)
      then Some(SetRun(s, run, s.runs[run].(mail := s.runs[run].mail + [m])))
      else None
    case BeginCleanup(run) =>
      if Alive(s, run) && s.runs[run].cleanup.None?
      then Some(SetRun(s, run, s.runs[run].(cleanup := Some(CleanupFrom(s.runs[run].cells, s.now)))))
      else None
    case SupervisorDies(run) =>
      if Alive(s, run) then Some(SetRun(s, run, s.runs[run].(supervisor := false))) else None
    case ChildDies(run, child) => if ChildAlive(s, run, child) then Some(SetChild(s, run, child, false)) else None
    case _ => None
  }

  predicate OfProcess(e: Event) {
    || e.SpawnChild? || e.WriteRecord? || e.Signal? || e.Receive? || e.Intrude? || e.BeginCleanup?
    || e.SupervisorDies? || e.ChildDies?
  }

  /** One step of the whole system. */
  function Step(s: State, e: Event): Option<State> {
    match e
    case Tick(passed) => if passed >= 0.0 then Some(s.(now := s.now + passed)) else None
    case Acquire(operation, deadline) =>
      if s.holder.None? then Some(s.(holder := Some(Holder(operation, deadline, Begun)))) else None
    case _ =>
      if OfProcess(e) then ProcessStep(s, e)
      else if s.holder.Some? then HolderStep(s, e)
      else None
  }

  // ----- Who is alive, and who names it

  /** The start that holds the lock has spawned this run and not yet let it go. */
  predicate Owned(s: State, run: nat) {
    s.holder.Some? && (s.holder.value.progress == Waiting(run) || s.holder.value.progress == Failing(run))
  }

  predicate PastExit(stage: Stage) {
    stage == CheckWeb || stage == CheckControl || stage == Remove
  }

  predicate Gone(s: State, claim: nat, stage: Stage) {
    && s.record == Some(claim)
    && (PastExit(stage) ==> !Alive(s, claim))
    && (stage == CheckControl || stage == Remove ==> !ChildAlive(s, claim, Web))
    && (stage == Remove ==> !ChildAlive(s, claim, Control))
  }

  predicate ProgressInv(s: State, progress: Progress) {
    match progress
    case Begun => true
    case Stopping(claim, stage) => Gone(s, claim, stage)
    case Spawning => s.record.None?
    case Waiting(claim) => claim < |s.runs| && (s.record.None? || s.record == Some(claim))
    case Failing(claim) => claim < |s.runs| && (s.record.None? || s.record == Some(claim))
    case Cleaning(claim, stage) => PastExit(stage) && Gone(s, claim, stage)
    case Quiet => s.record.None?
  }

  /** A live supervisor is named or owned; a live child is named unless its run never wrote the record. */
  predicate RunInv(s: State, run: nat)
    requires run < |s.runs|
  {
    && (s.runs[run].supervisor ==> s.record == Some(run) || Owned(s, run))
    && (s.runs[run].supervisor && !s.runs[run].wrote ==> Owned(s, run))
    && (s.runs[run].control || s.runs[run].web ==> s.record == Some(run) || !s.runs[run].wrote)
  }

  /** Only a start spawns, and cleans up behind what it has spawned. */
  predicate Rightly(h: Holder) {
    h.progress.Spawning? || h.progress.Waiting? || h.progress.Failing? || h.progress.Cleaning? ==> h.operation == Start
  }

  predicate Inv(s: State) {
    && (forall run: nat :: run < |s.runs| ==> RunInv(s, run))
    && (s.record.Some? ==> s.record.value < |s.runs| && s.runs[s.record.value].wrote)
    && (s.holder.Some? ==> ProgressInv(s, s.holder.value.progress) && Rightly(s.holder.value))
  }

  /** What the holder goes on with is as it should be, once the runs are. */
  lemma HolderProgress(s: State, e: Event)
    requires Inv(s) && s.holder.Some? && HolderStep(s, e).Some?
    ensures
      var s' := HolderStep(s, e).value;
      && (s'.record.Some? ==> s'.record.value < |s'.runs| && s'.runs[s'.record.value].wrote)
      && (s'.holder.Some? ==> ProgressInv(s', s'.holder.value.progress) && Rightly(s'.holder.value))
  {
    var progress := s.holder.value.progress;
    assert ProgressInv(s, progress);
    match progress
    case Stopping(claim, stage) =>
      assert Gone(s, claim, stage) && RunInv(s, claim);
    case Cleaning(claim, stage) =>
      assert Gone(s, claim, stage) && RunInv(s, claim);
    case Waiting(claim) => assert RunInv(s, claim);
    case Failing(claim) => assert RunInv(s, claim);
    case _ =>
  }

  lemma HolderKeeps(s: State, e: Event)
    requires Inv(s) && s.holder.Some? && HolderStep(s, e).Some?
    ensures Inv(HolderStep(s, e).value)
  {
    HolderProgress(s, e);
    var s' := HolderStep(s, e).value;
    forall run: nat | run < |s'.runs|
      ensures RunInv(s', run)
    {
      if run < |s.runs| { assert RunInv(s, run); }
    }
  }

  lemma ProcessKeeps(s: State, e: Event)
    requires Inv(s) && ProcessStep(s, e).Some?
    ensures Inv(ProcessStep(s, e).value)
  {
    var s' := ProcessStep(s, e).value;
    assert RunInv(s, e.run);
    forall run: nat | run < |s'.runs|
      ensures RunInv(s', run)
    {
      assert RunInv(s, run);
    }
  }

  lemma StepKeeps(s: State, e: Event)
    requires Inv(s) && Step(s, e).Some?
    ensures Inv(Step(s, e).value)
  {
    hide ProcessStep, HolderStep, Gone;
    if OfProcess(e) {
      ProcessKeeps(s, e);
    } else if e.Tick? || e.Acquire? {
      var s' := Step(s, e).value;
      OnlyTimeOrLock(s, e, s');
    } else {
      HolderKeeps(s, e);
    }
  }

  lemma OnlyTimeOrLock(s: State, e: Event, s': State)
    requires Inv(s) && (e.Tick? || e.Acquire?) && Step(s, e) == Some(s')
    ensures Inv(s')
  {
    forall run: nat | run < |s'.runs|
      ensures RunInv(s', run)
    {
      assert RunInv(s, run);
    }
  }

  // ----- Runs of the system

  predicate IsRun(ss: seq<State>, es: seq<Event>) {
    && |ss| == |es| + 1 && ss[0] == INITIAL
    && forall i :: 0 <= i < |es| ==> Step(ss[i], es[i]) == Some(ss[i + 1])
  }

  lemma {:induction false} RunsKeep(ss: seq<State>, es: seq<Event>, i: nat)
    requires IsRun(ss, es) && i < |ss|
    ensures Inv(ss[i])
  {
    hide Inv, Step;
    if i == 0 {
      InitiallySo();
    } else {
      RunsKeep(ss, es, i - 1);
      assert Step(ss[i - 1], es[i - 1]) == Some(ss[i - 1 + 1]);
      StepKeeps(ss[i - 1], es[i - 1]);
    }
  }

  lemma InitiallySo()
    ensures Inv(INITIAL) && MailInv(INITIAL)
  {
  }

  /**
   Over every run: at most one supervisor is alive; a live one is named by the record or owned by the
   start that holds the lock; and while an operation holds the lifecycle quiescent none is alive.
   */
  lemma AtMostOneSupervisor(ss: seq<State>, es: seq<Event>, i: nat, a: nat, b: nat)
    requires IsRun(ss, es) && i < |ss|
    ensures Alive(ss[i], a) && Alive(ss[i], b) ==> a == b
    ensures Alive(ss[i], a) ==> ss[i].record == Some(a) || Owned(ss[i], a)
    ensures ss[i].holder.Some? && ss[i].holder.value.progress == Quiet ==> !Alive(ss[i], a)
  {
    RunsKeep(ss, es, i);
    if Alive(ss[i], a) { assert RunInv(ss[i], a); }
    if Alive(ss[i], b) { assert RunInv(ss[i], b); }
  }

  /**
   Over every run: the record is removed only when none of the three processes it names is alive, and
   it is never replaced by another claim's.
   */
  lemma RecordOutlivesProcesses(ss: seq<State>, es: seq<Event>, i: nat, claim: nat)
    requires IsRun(ss, es) && i < |es| && ss[i].record == Some(claim)
    ensures ss[i + 1].record == Some(claim) ||
      (ss[i + 1].record.None? && !Alive(ss[i], claim) && !ChildAlive(ss[i], claim, Web) && !ChildAlive(ss[i], claim, Control))
  {
    RunsKeep(ss, es, i);
    assert Step(ss[i], es[i]) == Some(ss[i + 1]);
    if es[i].WriteRecord? { assert RunInv(ss[i], es[i].run); }
  }

  /**
   Over every run, a live child is named by the record, or its run is owned by a start, exactly when its
   run wrote the record or is so owned.  What is left over is the child of a supervisor that died before
   it had written its record, once no start holds it.
   */
  lemma ChildrenNamedExactly(ss: seq<State>, es: seq<Event>, i: nat, run: nat, child: Child)
    requires IsRun(ss, es) && i < |ss| && ChildAlive(ss[i], run, child)
    ensures ss[i].record == Some(run) || Owned(ss[i], run) <==> ss[i].runs[run].wrote || Owned(ss[i], run)
  {
    RunsKeep(ss, es, i);
    assert RunInv(ss[i], run);
  }

  /** Such a child there can be. */
  lemma UnrecordedChildOutlives() returns (ss: seq<State>, es: seq<Event>)
    ensures IsRun(ss, es) && var last := ss[|es|];
      last.record.None? && last.holder.None? && ChildAlive(last, 0, Control) && !last.runs[0].wrote
  {
    var s0, s1 := StartSpawns();
    ss, es := s0, s1;
    var spawned := ss[3];
    var s4 := SetRun(spawned, 0, SPAWNED.(control := true));
    var s5 := SetRun(s4, 0, SPAWNED.(control := true, supervisor := false));
    var s6 := Progressed(s5, Failing(0));
    var s7 := Released(s6);
    assert Step(spawned, SpawnChild(0, Control)) == Some(s4) && Step(s4, SupervisorDies(0)) == Some(s5);
    assert Step(s5, Fail) == Some(s6) && Step(s6, Terminated) == Some(s7);
    hide Step;
    ss, es := Extended(ss, es, SpawnChild(0, Control), s4);
    ss, es := Extended(ss, es, SupervisorDies(0), s5);
    ss, es := Extended(ss, es, Fail, s6);
    ss, es := Extended(ss, es, Terminated, s7);
  }

  /** One more event of a run. */
  lemma Extended(ss: seq<State>, es: seq<Event>, e: Event, s: State) returns (more: seq<State>, events: seq<Event>)
    requires IsRun(ss, es) && Step(ss[|es|], e) == Some(s)
    ensures IsRun(more, events) && more == ss + [s] && events == es + [e] && more[|events|] == s
  {
    hide Step;
    more, events := ss + [s], es + [e];
    forall i | 0 <= i < |events|
      ensures Step(more[i], events[i]) == Some(more[i + 1])
    {
      if i < |es| { assert Step(ss[i], es[i]) == Some(ss[i + 1]); }
    }
  }

  /** A start has spawned its supervisor. */
  lemma StartSpawns() returns (ss: seq<State>, es: seq<Event>)
    ensures IsRun(ss, es) && |es| == 3
    ensures ss[3] == State(0.0, None, [SPAWNED], Some(Holder(Start, 10.0, Waiting(0))), [], {})
  {
    var s1 := INITIAL.(holder := Some(Holder(Start, 10.0, Begun)));
    var s2 := Progressed(s1, Spawning);
    var s3 := State(0.0, None, [SPAWNED], Some(Holder(Start, 10.0, Waiting(0))), [], {});
    assert Step(INITIAL, Acquire(Start, 10.0)) == Some(s1) && Step(s1, ReadRecord(false)) == Some(s2);
    assert Step(s2, Spawn) == Some(s3) by { assert [] + [SPAWNED] == [SPAWNED]; }
    hide Step;
    ss, es := [INITIAL], [];
    ss, es := Extended(ss, es, Acquire(Start, 10.0), s1);
    ss, es := Extended(ss, es, ReadRecord(false), s2);
    ss, es := Extended(ss, es, Spawn, s3);
  }

  /**
   Over every run, a stop that gets to its end does so before its deadline, and leaves no record, no supervisor of any run, and no child
   but those whose run never wrote its record.
   */
  lemma StopEnds(ss: seq<State>, es: seq<Event>, i: nat, run: nat, child: Child)
    requires IsRun(ss, es) && i < |es| && es[i] == Observe
    requires ss[i].holder.Some? && ss[i].holder.value.operation == Stop
    requires ss[i + 1].holder.None?
    ensures ss[i].now < ss[i].holder.value.deadline
    ensures ss[i + 1].record.None? && !Alive(ss[i + 1], run)
    ensures ChildAlive(ss[i + 1], run, child) ==> !ss[i + 1].runs[run].wrote
  {
    RunsKeep(ss, es, i);
    RunsKeep(ss, es, i + 1);
    assert Step(ss[i], es[i]) == Some(ss[i + 1]);
    StopsClean(ss[i]);
    if run < |ss[i + 1].runs| { assert RunInv(ss[i + 1], run); }
  }

  /** Only a stop cleans up with `Observe` when it is a stop that holds the lock. */
  lemma StopsClean(s: State)
    requires s.holder.Some? && s.holder.value.operation == Stop && Step(s, Observe).Some?
    requires Step(s, Observe).value.holder.None? && Inv(s)
    ensures Step(s, Observe).value.record.None? && s.now < s.holder.value.deadline
  {
  }

  /** Over every run, a start that reports success leaves a live supervisor, named by the record it wrote. */
  lemma StartEnds(ss: seq<State>, es: seq<Event>, i: nat)
    requires IsRun(ss, es) && i < |es| && es[i] == Ready
    ensures ss[i + 1].holder.None? && ss[i + 1].record.Some?
    ensures Alive(ss[i + 1], ss[i + 1].record.value) && ss[i + 1].runs[ss[i + 1].record.value].wrote
  {
    RunsKeep(ss, es, i);
    assert Step(ss[i], es[i]) == Some(ss[i + 1]);
  }

  // ----- The handshake

  /** A request that was sent is for a run, and its deadline lies within the stop's and the limit. */
  predicate SentOk(s: State, t: nat)
    requires t < |s.sent|
  {
    s.sent[t].claim < |s.runs| && s.sent[t].deadline <= s.sent[t].until && s.sent[t].deadline <= s.now + LIMIT
  }

  /** What a stop sent stands in the channel as it was sent; nothing else there can pass for one. */
  predicate MessageOk(s: State, run: nat, m: Message) {
    if m.ticket.None? then !m.wellFormed || m.claim != run
    else
      && m.ticket.value < |s.sent| && s.sent[m.ticket.value].claim == run
      && m == Message(true, run, s.sent[m.ticket.value].deadline, m.ticket)
  }

  predicate ChannelOk(s: State, run: nat)
    requires run < |s.runs|
  {
    && (forall m :: m in s.runs[run].mail ==> MessageOk(s, run, m))
    && (s.runs[run].cells.bound.Some? ==> s.runs[run].cells.stopRequested)
    && (s.runs[run].cleanup.Some? && s.runs[run].cells.bound.Some? ==>
          s.runs[run].cleanup == s.runs[run].cells.bound)
  }

  /** An acknowledged request has set the stop event, and its deadline is the supervisor's. */
  predicate AckedOk(s: State, t: nat) {
    && t < |s.sent| && s.sent[t].claim < |s.runs|
    && s.runs[s.sent[t].claim].cells == Cells(true, Some(s.sent[t].deadline))
  }

  predicate AskingOk(s: State, h: Holder) {
    h.progress.Stopping? ==>
      match h.progress.stage
      case Composed(deadline) => deadline <= h.deadline && deadline <= s.now + LIMIT
      case AwaitReply(t) => t < |s.sent| && s.sent[t].claim == h.progress.claim && s.sent[t].until == h.deadline
      case AwaitExit(t) =>
        t < |s.sent| && s.sent[t].claim == h.progress.claim && s.sent[t].until == h.deadline && t in s.acked
      case _ => true
  }

  predicate MailInv(s: State) {
    && (forall t: nat :: t < |s.sent| ==> SentOk(s, t))
    && (forall run: nat :: run < |s.runs| ==> ChannelOk(s, run))
    && (forall t: nat :: t in s.acked ==> AckedOk(s, t))
    && (s.holder.Some? ==> AskingOk(s, s.holder.value))
  }

  /** Everything but the channels, the cells and the requests. */
  predicate SameMail(s: State, s': State) {
    && s.now <= s'.now && |s.runs| <= |s'.runs| && s'.sent == s.sent && s'.acked == s.acked
    && (forall run: nat :: run < |s.runs| ==> SameChannel(s.runs[run], s'.runs[run]))
    && (forall run: nat :: |s.runs| <= run < |s'.runs| ==> s'.runs[run] == SPAWNED)
  }

  predicate SameChannel(r: Run, r': Run) {
    r'.mail == r.mail && r'.cells == r.cells && r'.cleanup == r.cleanup
  }

  lemma SameMailKeeps(s: State, s': State)
    requires MailInv(s) && SameMail(s, s') && (s'.holder.Some? ==> AskingOk(s', s'.holder.value))
    ensures MailInv(s')
  {
    forall t: nat | t < |s'.sent| ensures SentOk(s', t) { assert SentOk(s, t); }
    forall t: nat | t in s'.acked ensures AckedOk(s', t) {
      assert AckedOk(s, t);
      assert SameChannel(s.runs[s.sent[t].claim], s'.runs[s.sent[t].claim]);
    }
    forall run: nat | run < |s'.runs| ensures ChannelOk(s', run) {
      if run < |s.runs| {
        assert ChannelOk(s, run) && SameChannel(s.runs[run], s'.runs[run]);
        forall m | m in s'.runs[run].mail ensures MessageOk(s', run, m) { assert MessageOk(s, run, m); }
      } else {
        assert s'.runs[run] == SPAWNED;
      }
    }
  }

  /** The holder's steps other than the delivery leave channels and requests alone. */
  lemma HolderKeepsMail(s: State, e: Event)
    requires MailInv(s) && s.holder.Some? && HolderStep(s, e).Some? && !e.Deliver?
    ensures MailInv(HolderStep(s, e).value)
  {
    var s' := HolderStep(s, e).value;
    SameMailKeeps(s, s');
  }

  lemma DeliveryKeepsMail(s: State, e: Event)
    requires MailInv(s) && s.holder.Some? && HolderStep(s, e).Some? && e.Deliver?
    ensures MailInv(HolderStep(s, e).value)
  {
    var s' := HolderStep(s, e).value;
    var claim := s.holder.value.progress.claim;
    assert AskingOk(s, s.holder.value);
    forall t: nat | t < |s'.sent| ensures SentOk(s', t) { if t < |s.sent| { assert SentOk(s, t); } }
    forall t: nat | t in s'.acked ensures AckedOk(s', t) { assert AckedOk(s, t); }
    forall run: nat | run < |s'.runs| ensures ChannelOk(s', run) {
      assert ChannelOk(s, run);
      forall m | m in s'.runs[run].mail ensures MessageOk(s', run, m) {
        if m in s.runs[run].mail { assert MessageOk(s, run, m); }
      }
    }
  }

  /** A supervisor's own steps. */
  lemma ProcessKeepsMail(s: State, e: Event)
    requires MailInv(s) && ProcessStep(s, e).Some? && !e.Receive?
    ensures MailInv(ProcessStep(s, e).value)
  {
    var s' := ProcessStep(s, e).value;
    forall t: nat | t < |s'.sent| ensures SentOk(s', t) { assert SentOk(s, t); }
    forall t: nat | t in s'.acked ensures AckedOk(s', t) { assert AckedOk(s, t); }
    forall run: nat | run < |s'.runs| ensures ChannelOk(s', run) {
      assert ChannelOk(s, run);
      forall m | m in s'.runs[run].mail ensures MessageOk(s', run, m) {
        if m in s.runs[run].mail { assert MessageOk(s, run, m); }
      }
    }
  }

  lemma ReceiptKeepsMail(s: State, run: nat, later: real, replied: bool)
    requires MailInv(s) && ReceiveStep(s, run, later, replied).Some?
    ensures MailInv(ReceiveStep(s, run, later, replied).value)
  {
    var s' := ReceiveStep(s, run, later, replied).value;
    var m := s.runs[run].mail[0];
    assert ChannelOk(s, run) && MessageOk(s, run, m);
    forall t: nat | t < |s'.sent| ensures SentOk(s', t) { assert SentOk(s, t); }
    forall t: nat | t in s'.acked ensures AckedOk(s', t) { if t in s.acked { assert AckedOk(s, t); } }
    forall other: nat | other < |s'.runs| ensures ChannelOk(s', other) {
      assert ChannelOk(s, other);
      forall n | n in s'.runs[other].mail ensures MessageOk(s', other, n) {
        assert n in s.runs[other].mail && MessageOk(s, other, n);
      }
    }
  }

  lemma StepKeepsMail(s: State, e: Event)
    requires MailInv(s) && Step(s, e).Some?
    ensures MailInv(Step(s, e).value)
  {
    if e.Receive? {
      ReceiptKeepsMail(s, e.run, e.later, e.replied);
    } else if OfProcess(e) {
      ProcessKeepsMail(s, e);
    } else if e.Tick? || e.Acquire? {
      SameMailKeeps(s, Step(s, e).value);
    } else if e.Deliver? {
      DeliveryKeepsMail(s, e);
    } else {
      HolderKeepsMail(s, e);
    }
  }

  lemma {:induction false} RunsKeepMail(ss: seq<State>, es: seq<Event>, i: nat)
    requires IsRun(ss, es) && i < |ss|
    ensures MailInv(ss[i])
  {
    hide MailInv, Step;
    if i == 0 {
      InitiallySo();
    } else {
      RunsKeepMail(ss, es, i - 1);
      assert Step(ss[i - 1], es[i - 1]) == Some(ss[i - 1 + 1]);
      StepKeepsMail(ss[i - 1], es[i - 1]);
    }
  }

  /**
   Over every run, a supervisor that reads a stop's request acknowledges and obeys it exactly when it
   reads it before the request's deadline and can answer: the limit on deadlines never refuses a stop,
   whatever timeout it was given.
   */
  lemma InTimeIsAccepted(ss: seq<State>, es: seq<Event>, k: nat, t: nat)
    requires IsRun(ss, es) && k < |es| && es[k].Receive?
    requires es[k].run < |ss[k].runs| && ss[k].runs[es[k].run].mail != []
    requires ss[k].runs[es[k].run].mail[0].ticket == Some(t)
    ensures t < |ss[k].sent| && es[k].run < |ss[k + 1].runs|
    ensures
      var run, deadline := es[k].run, ss[k].sent[t].deadline;
      && ss[k + 1].runs[run].cells ==
           (if ss[k].now < deadline && es[k].replied then Cells(true, Some(deadline)) else ss[k].runs[run].cells)
      && (t in ss[k + 1].acked <==> ss[k].now < deadline && es[k].replied)
  {
    var s, run := ss[k], es[k].run;
    RunsKeepMail(ss, es, k);
    assert Step(s, es[k]) == Some(ss[k + 1]);
    var m := s.runs[run].mail[0];
    assert ChannelOk(s, run) && MessageOk(s, run, m) && SentOk(s, t);
    assert t in s.acked ==> AckedOk(s, t);
  }

  /** What was sent and acknowledged stays so, and so does a cleanup deadline. */
  predicate Grown(s: State, s': State) {
    && s.sent <= s'.sent && s.acked <= s'.acked && |s.runs| <= |s'.runs|
  }

  lemma StepGrows(s: State, e: Event)
    requires Step(s, e).Some?
    ensures Grown(s, Step(s, e).value)
  {
  }

  lemma {:induction false} RunGrows(ss: seq<State>, es: seq<Event>, k: nat, l: nat)
    requires IsRun(ss, es) && k <= l < |ss|
    ensures Grown(ss[k], ss[l])
    decreases l
  {
    hide Step;
    if k < l {
      RunGrows(ss, es, k, l - 1);
      assert Step(ss[l - 1], es[l - 1]) == Some(ss[l - 1 + 1]);
      StepGrows(ss[l - 1], es[l - 1]);
    }
  }

  /** A delivery puts the request in the channel, with a deadline within the stop's own and the limit. */
  lemma DeliverySends(ss: seq<State>, es: seq<Event>, j: nat)
    requires IsRun(ss, es) && j < |es| && es[j] == Deliver
    ensures
      var s, s', t := ss[j], ss[j + 1], |ss[j].sent|;
      && s.holder.Some? && s.holder.value.progress.Stopping? && s.now < s.holder.value.deadline
      && var claim := s.holder.value.progress.claim;
      && |s'.sent| == t + 1 && s'.sent[t].claim == claim && claim < |s'.runs|
      && s'.sent[t].until == s.holder.value.deadline
      && s'.sent[t].deadline <= s.holder.value.deadline && s'.sent[t].deadline <= s.now + LIMIT
      && s'.runs[claim].mail == s.runs[claim].mail
           + [Message(true, claim, s'.sent[t].deadline, Some(t))]
  {
    RunsKeepMail(ss, es, j);
    assert Step(ss[j], es[j]) == Some(ss[j + 1]);
  }

  /**
   Over every run: a stop delivers a request, and the supervisor reads it before the request's deadline
   and can answer.  From then on the stop event is set, and any cleanup of that supervisor is bounded
   by the request's deadline, which lies within the stop's own.
   */
  lemma StopBindsCleanup(ss: seq<State>, es: seq<Event>, j: nat, k: nat, l: nat)
    requires IsRun(ss, es) && j < k < |es| && k < l < |ss| && es[j] == Deliver && es[k].Receive? && es[k].replied
    requires es[k].run < |ss[k].runs| && ss[k].runs[es[k].run].mail != []
    requires ss[k].runs[es[k].run].mail[0].ticket == Some(|ss[j].sent|)
    requires ss[j].holder.Some? && |ss[j].sent| < |ss[j + 1].sent|
    requires ss[k].now < ss[j + 1].sent[|ss[j].sent|].deadline
    ensures
      var deadline := ss[j + 1].sent[|ss[j].sent|].deadline;
      && deadline <= ss[j].holder.value.deadline && deadline <= ss[j].now + LIMIT
      && es[k].run < |ss[l].runs|
      && var run := ss[l].runs[es[k].run];
      && run.cells == Cells(true, Some(deadline))
      && (run.cleanup.Some? ==> run.cleanup == Some(deadline))
  {
    hide Step;
    var t := |ss[j].sent|;
    DeliverySends(ss, es, j);
    RunGrows(ss, es, j + 1, k);
    RunGrows(ss, es, k, k + 1);
    RunGrows(ss, es, k + 1, l);
    InTimeIsAccepted(ss, es, k, t);
    RunsKeepMail(ss, es, k);
    assert ss[k].sent[t] == ss[j + 1].sent[t];
    assert MessageOk(ss[k], es[k].run, ss[k].runs[es[k].run].mail[0]) by { assert ChannelOk(ss[k], es[k].run); }
    RunsKeepMail(ss, es, l);
    assert t in ss[l].acked && ss[l].sent[t] == ss[k].sent[t];
    assert AckedOk(ss[l], t);
    assert ChannelOk(ss[l], es[k].run);
  }

  /** Over every run: a stop that waits for the exit was acknowledged, and the supervisor is stopping in time. */
  lemma AcknowledgedStops(ss: seq<State>, es: seq<Event>, i: nat, claim: nat, t: nat)
    requires IsRun(ss, es) && i < |ss| && ss[i].holder.Some?
    requires ss[i].holder.value.progress == Stopping(claim, AwaitExit(t))
    ensures claim < |ss[i].runs| && ss[i].runs[claim].cells.stopRequested
    ensures
      var bound := ss[i].runs[claim].cells.bound;
      && bound.Some? && bound.value <= ss[i].holder.value.deadline
      && (ss[i].runs[claim].cleanup.Some? ==> ss[i].runs[claim].cleanup == bound)
  {
    RunsKeepMail(ss, es, i);
    assert AskingOk(ss[i], ss[i].holder.value);
    assert AckedOk(ss[i], t) && SentOk(ss[i], t);
    assert ChannelOk(ss[i], claim);
  }

  /**
   Over every run, only a stop's request bounds a cleanup: a supervisor that has a deadline has it from an
   acknowledged request for its own claim.
   */
  lemma {:induction false} BoundIsStops(ss: seq<State>, es: seq<Event>, i: nat, run: nat) returns (t: nat)
    requires IsRun(ss, es) && i < |ss| && run < |ss[i].runs| && ss[i].runs[run].cells.bound.Some?
    ensures t in ss[i].acked && t < |ss[i].sent| && ss[i].sent[t].claim == run
    ensures ss[i].runs[run].cells.bound == Some(ss[i].sent[t].deadline)
    decreases i
  {
    if i > 0 {
      var k := i - 1;
      assert Step(ss[k], es[k]) == Some(ss[k + 1]);
      RunsKeepMail(ss, es, k);
      if run < |ss[k].runs| && ss[k].runs[run].cells.bound == ss[i].runs[run].cells.bound {
        t := BoundIsStops(ss, es, k, run);
        RunGrows(ss, es, k, i);
      } else {
        t := BoundIsNew(ss[k], es[k], run);
      }
    }
  }

  /** A deadline that was not there before comes with the request that is read. */
  lemma BoundIsNew(s: State, e: Event, run: nat) returns (t: nat)
    requires MailInv(s) && Step(s, e).Some?
    requires
      var s' := Step(s, e).value;
      && run < |s'.runs| && s'.runs[run].cells.bound.Some?
      && !(run < |s.runs| && s.runs[run].cells.bound == s'.runs[run].cells.bound)
    ensures var s' := Step(s, e).value;
      && t in s'.acked && t < |s'.sent| && s'.sent[t].claim == run
      && s'.runs[run].cells.bound == Some(s'.sent[t].deadline)
  {
    assert e.Receive? && e.run == run;
    var m := s.runs[run].mail[0];
    assert ChannelOk(s, run) && MessageOk(s, run, m);
    t := m.ticket.value;
  }

  /** Everything is up: the state a start leaves behind. */
  function Running(): State {
    State(0.0, Some(0), [SPAWNED.(control := true, web := true, wrote := true)], None, [], {})
  }

  lemma StartCompletes() returns (ss: seq<State>, es: seq<Event>)
    ensures IsRun(ss, es) && ss[|es|] == Running()
  {
    ss, es := StartSpawns();
    var s4 := SetRun(ss[3], 0, SPAWNED.(control := true));
    var s5 := SetRun(s4, 0, SPAWNED.(control := true, web := true));
    var s6 := SetRun(s5, 0, SPAWNED.(control := true, web := true, wrote := true)).(record := Some(0));
    assert s6.runs == Running().runs;
    assert Step(ss[3], SpawnChild(0, Control)) == Some(s4) && Step(s4, SpawnChild(0, Web)) == Some(s5);
    assert Step(s5, WriteRecord(0)) == Some(s6);
    assert Step(s6, Ready) == Some(Running());
    hide Step;
    ss, es := Extended(ss, es, SpawnChild(0, Control), s4);
    ss, es := Extended(ss, es, SpawnChild(0, Web), s5);
    ss, es := Extended(ss, es, WriteRecord(0), s6);
    ss, es := Extended(ss, es, Ready, Running());
  }

  /** A stop with the timeout has been acknowledged. */
  function Acknowledged(timeout: real): State {
    var deadline := Least(timeout, LIMIT);
    State(0.0, Some(0), [Running().runs[0].(cells := Cells(true, Some(deadline)))],
          Some(Holder(Stop, timeout, Stopping(0, AwaitExit(0)))), [Sent(0, deadline, timeout)], {0})
  }

  /** The stop has delivered its request. */
  function Asked(timeout: real): State {
    var deadline := Least(timeout, LIMIT);
    State(0.0, Some(0), [Running().runs[0].(mail := [Message(true, 0, deadline, Some(0))])],
          Some(Holder(Stop, timeout, Stopping(0, AwaitReply(0)))), [Sent(0, deadline, timeout)], {})
  }

  lemma StopAsks(ss0: seq<State>, es0: seq<Event>, timeout: real) returns (ss: seq<State>, es: seq<Event>)
    requires IsRun(ss0, es0) && ss0[|es0|] == Running() && timeout > 0.0
    ensures IsRun(ss, es) && ss[|es|] == Asked(timeout)
  {
    var deadline := Least(timeout, LIMIT);
    var s1 := Running().(holder := Some(Holder(Stop, timeout, Begun)));
    var s2 := Progressed(s1, Stopping(0, Ask));
    var s3 := Progressed(s1, Stopping(0, Composed(deadline)));
    assert Step(Running(), Acquire(Stop, timeout)) == Some(s1) && Step(s1, ReadRecord(false)) == Some(s2);
    assert Step(s2, Compose) == Some(s3);
    assert Step(s3, Deliver) == Some(Asked(timeout)) by {
      var m := Message(true, 0, deadline, Some(0));
      assert [] + [m] == [m];
      assert [] + [Sent(0, deadline, timeout)] == [Sent(0, deadline, timeout)];
      assert s3.runs[0 := Asked(timeout).runs[0]] == Asked(timeout).runs;
    }
    hide Step;
    ss, es := Extended(ss0, es0, Acquire(Stop, timeout), s1);
    ss, es := Extended(ss, es, ReadRecord(false), s2);
    ss, es := Extended(ss, es, Compose, s3);
    ss, es := Extended(ss, es, Deliver, Asked(timeout));
  }

  lemma StopIsHeard(ss0: seq<State>, es0: seq<Event>, timeout: real) returns (ss: seq<State>, es: seq<Event>)
    requires IsRun(ss0, es0) && ss0[|es0|] == Running() && timeout > 0.0
    ensures IsRun(ss, es) && ss[|es|] == Acknowledged(timeout)
  {
    ss, es := StopAsks(ss0, es0, timeout);
    var heard := Acknowledged(timeout).(holder := Asked(timeout).holder);
    assert Step(Asked(timeout), Receive(0, 0.0, true)) == Some(heard) by {
      var m := Message(true, 0, Least(timeout, LIMIT), Some(0));
      assert Asked(timeout).runs[0].mail == [m] && [m][1..] == [];
      assert Asked(timeout).runs[0 := heard.runs[0]] == heard.runs;
      assert {} + {0} == {0};
    }
    assert Step(heard, Hear) == Some(Acknowledged(timeout));
    hide Step;
    ss, es := Extended(ss, es, Receive(0, 0.0, true), heard);
    ss, es := Extended(ss, es, Hear, Acknowledged(timeout));
  }

  /**
   Whatever positive timeout a stop is given, shorter or longer than the supervisor's limit, there is a run
   in which it is acknowledged, bounds the cleanup by the shorter of the two, and leaves nothing behind.
   */
  lemma StopCompletes(timeout: real) returns (ss: seq<State>, es: seq<Event>)
    requires timeout > 0.0
    ensures IsRun(ss, es)
    ensures var last := ss[|es|];
      && last.record.None? && last.holder.None? && |last.runs| == 1
      && !Alive(last, 0) && !ChildAlive(last, 0, Control) && !ChildAlive(last, 0, Web)
      && last.runs[0].cleanup == Some(Least(timeout, LIMIT))
  {
    ss, es := StartCompletes();
    ss, es := StopIsHeard(ss, es, timeout);
    ss, es := SupervisorCleansUp(ss, es, timeout);
    var s4 := CleanedUp(timeout);
    var s5 := Progressed(s4, Stopping(0, CheckWeb));
    var s6 := Progressed(s4, Stopping(0, CheckControl));
    var s7 := Progressed(s4, Stopping(0, Remove));
    var s8 := Released(s4.(record := None));
    assert Step(s4, Observe) == Some(s5) && Step(s5, Observe) == Some(s6);
    assert Step(s6, Observe) == Some(s7) && Step(s7, Observe) == Some(s8);
    hide Step;
    ss, es := Extended(ss, es, Observe, s5);
    ss, es := Extended(ss, es, Observe, s6);
    ss, es := Extended(ss, es, Observe, s7);
    ss, es := Extended(ss, es, Observe, s8);
  }

  /** The supervisor has ended its children and itself. */
  function CleanedUp(timeout: real): State {
    SetRun(Acknowledged(timeout), 0, Ended(timeout))
  }

  function Ended(timeout: real): Run {
    var deadline := Least(timeout, LIMIT);
    Run(false, false, false, true, [], Cells(true, Some(deadline)), Some(deadline))
  }

  lemma SupervisorCleansUp(ss0: seq<State>, es0: seq<Event>, timeout: real) returns (ss: seq<State>, es: seq<Event>)
    requires IsRun(ss0, es0) && ss0[|es0|] == Acknowledged(timeout)
    ensures IsRun(ss, es) && ss[|es|] == CleanedUp(timeout)
  {
    var acknowledged, ended := Acknowledged(timeout), Ended(timeout);
    var s1 := SetRun(acknowledged, 0, ended.(web := true, control := true, supervisor := true));
    var s2 := SetRun(s1, 0, ended.(control := true, supervisor := true));
    var s3 := SetRun(s2, 0, ended.(supervisor := true));
    assert Step(acknowledged, BeginCleanup(0)) == Some(s1);
    assert Step(s1, ChildDies(0, Web)) == Some(s2) && Step(s2, ChildDies(0, Control)) == Some(s3);
    assert Step(s3, SupervisorDies(0)) == Some(CleanedUp(timeout)) by {
      assert s3.runs[0 := ended] == CleanedUp(timeout).runs;
    }
    hide Step;
    ss, es := Extended(ss0, es0, BeginCleanup(0), s1);
    ss, es := Extended(ss, es, ChildDies(0, Web), s2);
    ss, es := Extended(ss, es, ChildDies(0, Control), s3);
    ss, es := Extended(ss, es, SupervisorDies(0), CleanedUp(timeout));
  }

  // ----- The supervisor's loop

  /** One turn of the loop: a child found dead, or whatever came in before the channel's own timeout. */
  datatype Turn = ChildDead | Nothing | Arrived(message: Message, now: real, later: real, replied: bool)

  /** The cells after serving until the stop event is set, a child has died, or the turns are over. */
  function Served(cells: Cells, claim: nat, turns: seq<Turn>): Cells
    decreases |turns|
  {
    if turns == [] || cells.stopRequested || turns[0].ChildDead? then cells
    else if turns[0].Nothing? then Served(cells, claim, turns[1..])
    else
      Served(Handled(cells, claim, turns[0].message, turns[0].now, turns[0].later, turns[0].replied), claim, turns[1..])
  }

  predicate Obeys(claim: nat, turn: Turn) {
    turn.Arrived? && Accepts(claim, turn.message, turn.now, turn.later) && turn.replied
  }

  /** The first request to be accepted ends the loop, and its deadline is the one cleanup gets. */
  lemma {:induction false} FirstAcceptedWins(claim: nat, turns: seq<Turn>, i: nat)
    requires i < |turns| && Obeys(claim, turns[i])
    requires forall j :: 0 <= j < i ==> !Obeys(claim, turns[j]) && !turns[j].ChildDead?
    ensures Served(Cells(false, None), claim, turns) == Cells(true, Some(turns[i].message.deadline))
  {
    if i > 0 {
      assert forall j :: 0 <= j < i - 1 ==> turns[1..][j] == turns[j + 1];
      FirstAcceptedWins(claim, turns[1..], i - 1);
    }
  }

  /** The turn brings a request that is obeyed, written out: whole, for this claim, in time, within the limit, answered. */
  predicate ObeysNow(claim: nat, turn: Turn) {
    && turn.Arrived? && turn.message.wellFormed && turn.message.claim == claim && turn.replied
    && turn.now < turn.message.deadline && turn.message.deadline - turn.later <= 60.0
  }

  predicate FirstObeyed(claim: nat, turns: seq<Turn>, i: nat) {
    && i < |turns| && ObeysNow(claim, turns[i])
    && forall j :: 0 <= j < i ==> !ObeysNow(claim, turns[j]) && !turns[j].ChildDead?
  }

  /** Serving ends with a deadline exactly when some request was to be obeyed before a child died: the first one's. */
  lemma {:induction false} ServedMeans(claim: nat, turns: seq<Turn>, d: real)
    ensures Served(Cells(false, None), claim, turns) == Cells(true, Some(d)) <==>
      exists i: nat :: FirstObeyed(claim, turns, i) && turns[i].message.deadline == d
    ensures Served(Cells(false, None), claim, turns) == Cells(false, None) <==> forall i: nat :: !FirstObeyed(claim, turns, i)
  {
    if turns != [] && !turns[0].ChildDead? {
      if ObeysNow(claim, turns[0]) {
        assert FirstObeyed(claim, turns, 0);
        assert forall i: nat :: FirstObeyed(claim, turns, i) ==> i == 0;
      } else {
        ServedMeans(claim, turns[1..], d);
        var rest := turns[1..];
        forall i: nat
          ensures FirstObeyed(claim, rest, i) <==> FirstObeyed(claim, turns, i + 1)
        {
          FirstShifts(claim, turns, i);
        }
        forall i: nat | FirstObeyed(claim, turns, i)
          ensures i > 0 && FirstObeyed(claim, rest, i - 1) && rest[i - 1] == turns[i]
        {
          FirstShifts(claim, turns, i - 1);
        }
      }
    }
  }

  lemma FirstShifts(claim: nat, turns: seq<Turn>, i: nat)
    requires turns != [] && !turns[0].ChildDead? && !ObeysNow(claim, turns[0])
    ensures FirstObeyed(claim, turns[1..], i) <==> FirstObeyed(claim, turns, i + 1)
  {
    assert forall j :: 0 <= j < |turns| - 1 ==> turns[1..][j] == turns[j + 1];
    if FirstObeyed(claim, turns[1..], i) {
      forall j | 0 <= j < i + 1 ensures !ObeysNow(claim, turns[j]) && !turns[j].ChildDead? {
        if j > 0 { assert turns[1..][j - 1] == turns[j]; }
      }
    }
  }

  class Supervisor {
    const claim: nat
    var stopRequested: bool
    var shutdownDeadline: Option<real>

    constructor (c: nat)
      ensures claim == c && State() == Cells(false, None)
    {
      claim, stopRequested, shutdownDeadline := c, false, None;
    }

    function State(): Cells
      reads this
    {
      Cells(stopRequested, shutdownDeadline)
    }

    /** `_accept_shutdown_request`: the two cells are set only once the acknowledgement is out. */
    method AcceptShutdownRequest(m: Message, now: real, later: real, replied: bool)
      modifies this
      ensures State() == Handled(old(State()), claim, m, now, later, replied)
    {
      if !m.wellFormed || m.claim != claim || !(now < m.deadline <= later + LIMIT) {
        return;
      }
      if !replied {
        return;
      }
      shutdownDeadline := Some(m.deadline);
      stopRequested := true;
    }

    /** The loop of `_foreground_run`, and the deadline its clean-up then has. */
    method Serve(turns: seq<Turn>, ended: real) returns (cleanupDeadline: real)
      modifies this
      ensures State() == Served(old(State()), claim, turns)
      ensures cleanupDeadline == CleanupFrom(State(), ended)
      ensures cleanupDeadline == if shutdownDeadline.Some? then shutdownDeadline.value else ended + 2.0
    {
      var i := 0;
      assert turns[0..] == turns;
      while i < |turns| && !stopRequested
        invariant i <= |turns|
        invariant Served(old(State()), claim, turns) == Served(State(), claim, turns[i..])
      {
        assert turns[i..][1..] == turns[i + 1..];
        if turns[i].ChildDead? {
          break;
        }
        if turns[i].Arrived? {
          AcceptShutdownRequest(turns[i].message, turns[i].now, turns[i].later, turns[i].replied);
        }
        i := i + 1;
      }
      cleanupDeadline := if shutdownDeadline.Some? then shutdownDeadline.value else ended + OWN_CLEANUP;
    }
  }
}
