/**
 The distribution lock and the lifecycle lock are taken in both orders: the command line takes the
 distribution lock first, upgrade, rollback and uninstall the lifecycle lock first.  Waiting for
 the distribution lock is unbounded, waiting for the lifecycle lock is bounded.

 Operations are programs of lock actions; time passes in ticks.
 */
module LockOrder {

  datatype Action =
    | TakeDistribution
    | DropDistribution
    | TakeLifecycle(patience: nat, timedOut: seq<Action>)
    | DropLifecycle
    | Work

  /** A process: what it still has to do, and which of the two locks it holds. */
  datatype Process = Process(rest: seq<Action>, distribution: bool, lifecycle: bool)

  type System = seq<Process>

  // ----- The operations

  /** `install` and `recover`: one section. */
  const ONE_SECTION := [TakeDistribution, Work, DropDistribution]

  /** `start`, `stop` and `status` from the command line: the generation binding is held around the lifecycle lock. */
  function CommandLine(timeout: nat): seq<Action> {
    [TakeDistribution, TakeLifecycle(timeout, [DropDistribution]), Work, DropLifecycle, DropDistribution]
  }

  /** `upgrade`, `rollback` and `uninstall`: a section, then quiescence around a second section. */
  function TwoSections(timeout: nat, discards: bool): seq<Action> {
    ONE_SECTION + [TakeLifecycle(timeout, After(discards)), TakeDistribution, Work, DropDistribution, DropLifecycle] + After(discards)
  }

  /** A failed upgrade takes the lock once more, to discard its candidate. */
  function After(discards: bool): seq<Action> {
    if discards then ONE_SECTION else []
  }

  // ----- What programs may do

  /** A program takes a lock only when it does not hold it, works under the distribution lock, and ends holding neither. */
  predicate Balanced(rest: seq<Action>, distribution: bool, lifecycle: bool)
    decreases rest
  {
    if rest == [] then !distribution && !lifecycle
    else
      match rest[0]
      case TakeDistribution => !distribution && Balanced(rest[1..], true, lifecycle)
      case DropDistribution => distribution && Balanced(rest[1..], false, lifecycle)
      case TakeLifecycle(_, timedOut) =>
        !lifecycle && Balanced(rest[1..], distribution, true) && Balanced(timedOut, distribution, false)
      case DropLifecycle => lifecycle && Balanced(rest[1..], distribution, false)
      case Work => distribution && Balanced(rest[1..], distribution, lifecycle)
  }

  /** One action more in front. */
  lemma InFront(action: Action, rest: seq<Action>, d: bool, l: bool)
    ensures action.TakeDistribution? ==> Balanced([action] + rest, d, l) == (!d && Balanced(rest, true, l))
    ensures action.DropDistribution? ==> Balanced([action] + rest, d, l) == (d && Balanced(rest, false, l))
    ensures action.TakeLifecycle? ==>
      Balanced([action] + rest, d, l) == (!l && Balanced(rest, d, true) && Balanced(action.timedOut, d, false))
    ensures action.DropLifecycle? ==> Balanced([action] + rest, d, l) == (l && Balanced(rest, d, false))
    ensures action.Work? ==> Balanced([action] + rest, d, l) == (d && Balanced(rest, d, l))
  {
    assert ([action] + rest)[0] == action && ([action] + rest)[1..] == rest;
  }

  lemma OperationsBalanced(timeout: nat, discards: bool)
    ensures Balanced(ONE_SECTION, false, false)
    ensures Balanced(CommandLine(timeout), false, false)
    ensures Balanced(TwoSections(timeout, discards), false, false)
  {
    SectionInFront([]);
    assert ONE_SECTION + [] == ONE_SECTION;
    CommandLineBalanced(timeout);
    var after := After(discards);
    assert Balanced(after, false, false);
    InFront(DropLifecycle, after, false, true);
    SectionInFrontHeld([DropLifecycle] + after);
    var second := ONE_SECTION + ([DropLifecycle] + after);
    InFront(TakeLifecycle(timeout, after), second, false, false);
    SectionInFront([TakeLifecycle(timeout, after)] + second);
    assert TwoSections(timeout, discards) == ONE_SECTION + ([TakeLifecycle(timeout, after)] + second);
  }

  lemma SectionInFront(rest: seq<Action>)
    requires Balanced(rest, false, false)
    ensures Balanced(ONE_SECTION + rest, false, false)
  {
    hide Balanced;
    InFront(DropDistribution, rest, true, false);
    InFront(Work, [DropDistribution] + rest, true, false);
    InFront(TakeDistribution, [Work] + ([DropDistribution] + rest), false, false);
    assert ONE_SECTION + rest == [TakeDistribution] + ([Work] + ([DropDistribution] + rest));
  }

  lemma SectionInFrontHeld(rest: seq<Action>)
    requires Balanced(rest, false, true)
    ensures Balanced(ONE_SECTION + rest, false, true)
  {
    hide Balanced;
    InFront(DropDistribution, rest, true, true);
    InFront(Work, [DropDistribution] + rest, true, true);
    InFront(TakeDistribution, [Work] + ([DropDistribution] + rest), false, true);
    assert ONE_SECTION + rest == [TakeDistribution] + ([Work] + ([DropDistribution] + rest));
  }

  lemma CommandLineBalanced(timeout: nat)
    ensures Balanced(CommandLine(timeout), false, false)
  {
    var drop := [DropDistribution];
    assert Balanced([], false, false);
    InFront(DropDistribution, [], true, false);
    assert [DropDistribution] + [] == drop;
    hide Balanced;
    InFront(DropLifecycle, drop, true, true);
    InFront(Work, [DropLifecycle] + drop, true, true);
    var work := [Work] + ([DropLifecycle] + drop);
    InFront(TakeLifecycle(timeout, drop), work, true, false);
    InFront(TakeDistribution, [TakeLifecycle(timeout, drop)] + work, false, false);
    assert CommandLine(timeout) == [TakeDistribution] + ([TakeLifecycle(timeout, drop)] + work);
  }

  ghost predicate Inv(s: System) {
    && (forall i :: 0 <= i < |s| ==> Balanced(s[i].rest, s[i].distribution, s[i].lifecycle))
    && (forall i, j :: 0 <= i < j < |s| ==> !(s[i].distribution && s[j].distribution))
    && (forall i, j :: 0 <= i < j < |s| ==> !(s[i].lifecycle && s[j].lifecycle))
  }

  // ----- Steps

  predicate DistributionHeld(s: System) {
    exists i :: 0 <= i < |s| && s[i].distribution
  }

  predicate LifecycleHeld(s: System) {
    exists i :: 0 <= i < |s| && s[i].lifecycle
  }

  /** The process can take its next action now. */
  predicate Enabled(s: System, i: nat) {
    i < |s| && s[i].rest != [] &&
    match s[i].rest[0]
    case TakeDistribution => !DistributionHeld(s)
    case TakeLifecycle(_, _) => !LifecycleHeld(s)
    case _ => true
  }

  function Acted(p: Process): Process
    requires p.rest != []
  {
    var rest := p.rest[1..];
    match p.rest[0]
    case TakeDistribution => Process(rest, true, p.lifecycle)
    case DropDistribution => Process(rest, false, p.lifecycle)
    case TakeLifecycle(_, _) => Process(rest, p.distribution, true)
    case DropLifecycle => Process(rest, p.distribution, false)
    case Work => Process(rest, p.distribution, p.lifecycle)
  }

  /** The process waits for the lifecycle lock, someone holds it, and its patience is at an end. */
  predicate TimesOut(s: System, i: nat) {
    i < |s| && s[i].rest != [] && s[i].rest[0].TakeLifecycle? && s[i].rest[0].patience == 0 && LifecycleHeld(s)
  }

  predicate Impatient(p: Process) {
    p.rest != [] && p.rest[0].TakeLifecycle? && p.rest[0].patience > 0
  }

  function Waited(p: Process): Process {
    if Impatient(p) then p.(rest := [p.rest[0].(patience := p.rest[0].patience - 1)] + p.rest[1..]) else p
  }

  function Tick(s: System): System {
    seq(|s|, i requires 0 <= i < |s| => Waited(s[i]))
  }

  datatype Event = Act(process: nat) | TimeOut(process: nat) | TimePasses

  /** A step that gets somewhere: an action, a time-out, or time passing for someone who waits. */
  predicate Productive(s: System, e: Event) {
    match e
    case Act(i) => Enabled(s, i)
    case TimeOut(i) => TimesOut(s, i)
    case TimePasses => exists i :: 0 <= i < |s| && Impatient(s[i])
  }

  function AfterEvent(s: System, e: Event): System
    requires Productive(s, e)
  {
    match e
    case Act(i) => s[i := Acted(s[i])]
    case TimeOut(i) => s[i := s[i].(rest := s[i].rest[0].timedOut)]
    case TimePasses => Tick(s)
  }

  // ----- The measure

  function Weight(rest: seq<Action>): nat
    decreases rest
  {
    if rest == [] then 0
    else
      (match rest[0]
       case TakeLifecycle(patience, timedOut) => patience + Weight(timedOut)
       case _ => 0) + 1 + Weight(rest[1..])
  }

  function Measure(s: System): nat {
    if s == [] then 0 else Weight(s[0].rest) + Measure(s[1..])
  }

  lemma {:induction false} MeasureUpdate(s: System, i: nat, p: Process)
    requires i < |s|
    ensures Measure(s[i := p]) == Measure(s) - Weight(s[i].rest) + Weight(p.rest)
  {
    if i == 0 {
      assert s[i := p][1..] == s[1..];
    } else {
      assert s[i := p][1..] == s[1..][i - 1 := p];
      MeasureUpdate(s[1..], i - 1, p);
    }
  }

  lemma WaitedWeight(p: Process)
    ensures Weight(Waited(p).rest) == if Impatient(p) then Weight(p.rest) - 1 else Weight(p.rest)
  {
    if Impatient(p) {
      assert Waited(p).rest[1..] == p.rest[1..];
    }
  }

  lemma {:induction false} TickMeasure(s: System)
    ensures Measure(Tick(s)) <= Measure(s)
    ensures (exists i :: 0 <= i < |s| && Impatient(s[i])) ==> Measure(Tick(s)) < Measure(s)
  {
    if s != [] {
      assert Tick(s)[1..] == Tick(s[1..]);
      WaitedWeight(s[0]);
      TickMeasure(s[1..]);
      if exists i :: 0 <= i < |s| && Impatient(s[i]) {
        var i :| 0 <= i < |s| && Impatient(s[i]);
        if i > 0 {
          assert s[1..][i - 1] == s[i];
        }
      }
    }
  }

  /** Every productive step makes the measure smaller. */
  lemma MeasureDecreases(s: System, e: Event)
    requires Productive(s, e)
    ensures Measure(AfterEvent(s, e)) < Measure(s)
  {
    match e
    case Act(i) => MeasureUpdate(s, i, Acted(s[i]));
    case TimeOut(i) => MeasureUpdate(s, i, s[i].(rest := s[i].rest[0].timedOut));
    case TimePasses => TickMeasure(s);
  }

  // ----- Safety and progress

  lemma WaitedBalanced(p: Process)
    requires Balanced(p.rest, p.distribution, p.lifecycle)
    ensures Balanced(Waited(p).rest, p.distribution, p.lifecycle)
  {
    if Impatient(p) {
      assert Waited(p).rest[1..] == p.rest[1..];
    }
  }

  /** The locks stay exclusive and the programs balanced. */
  lemma StepKeeps(s: System, e: Event)
    requires Inv(s) && Productive(s, e)
    ensures Inv(AfterEvent(s, e))
  {
    if e.TimePasses? {
      forall i | 0 <= i < |s|
        ensures Balanced(Tick(s)[i].rest, Tick(s)[i].distribution, Tick(s)[i].lifecycle)
      {
        WaitedBalanced(s[i]);
      }
    } else if e.Act? {
      ActKeeps(s, e.process);
    }
  }

  lemma ActKeeps(s: System, i: nat)
    requires Inv(s) && Enabled(s, i)
    ensures Inv(s[i := Acted(s[i])])
  {
    var s' := s[i := Acted(s[i])];
    assert Balanced(s'[i].rest, s'[i].distribution, s'[i].lifecycle);
    if s'[i].distribution && !s[i].distribution {
      assert forall j :: 0 <= j < |s| ==> !s[j].distribution;
    }
    if s'[i].lifecycle && !s[i].lifecycle {
      assert forall j :: 0 <= j < |s| ==> !s[j].lifecycle;
    }
  }

  /** No two processes are at work at one time. */
  lemma WorkIsExclusive(s: System, i: nat, j: nat)
    requires Inv(s) && i < |s| && j < |s|
    requires s[i].rest != [] && s[i].rest[0].Work? && s[j].rest != [] && s[j].rest[0].Work?
    ensures i == j
  {
    assert Balanced(s[i].rest, s[i].distribution, s[i].lifecycle) && Balanced(s[j].rest, s[j].distribution, s[j].lifecycle);
  }

  ghost predicate Finished(s: System) {
    forall i :: 0 <= i < |s| ==> s[i].rest == []
  }

  /**
   No deadlock: unless every operation has finished, some productive step is possible.  A cycle of
   waits always has the holder of the distribution lock in it, which waits for the lifecycle lock,
   and that wait is bounded.
   */
  lemma SomethingHappens(s: System) returns (e: Event)
    requires Inv(s) && !Finished(s)
    ensures Productive(s, e)
  {
    var i :| 0 <= i < |s| && s[i].rest != [];
    var w := i;
    if s[i].rest[0].TakeDistribution? && DistributionHeld(s) {
      w :| 0 <= w < |s| && s[w].distribution;
    }
    e := Moves(s, w);
  }

  lemma Moves(s: System, w: nat) returns (e: Event)
    requires Inv(s) && w < |s| && s[w].rest != []
    requires s[w].rest[0].TakeDistribution? ==> !DistributionHeld(s)
    ensures Productive(s, e)
  {
    if Enabled(s, w) {
      e := Act(w);
    } else if s[w].rest[0].patience == 0 {
      e := TimeOut(w);
    } else {
      assert Impatient(s[w]);
      e := TimePasses;
    }
  }

  ghost predicate IsRun(ss: seq<System>, es: seq<Event>) {
    && |ss| == |es| + 1
    && forall i :: 0 <= i < |es| ==> Productive(ss[i], es[i]) && ss[i + 1] == AfterEvent(ss[i], es[i])
  }

  /** A run of productive steps is no longer than the measure of where it starts. */
  lemma {:induction false} RunsAreBounded(ss: seq<System>, es: seq<Event>)
    requires IsRun(ss, es)
    ensures |es| + Measure(ss[|es|]) <= Measure(ss[0])
  {
    if es != [] {
      MeasureDecreases(ss[0], es[0]);
      assert IsRun(ss[1..], es[1..]) by {
        forall i | 0 <= i < |es[1..]|
          ensures Productive(ss[1..][i], es[1..][i]) && ss[1..][i + 1] == AfterEvent(ss[1..][i], es[1..][i])
        {
          assert Productive(ss[i + 1], es[i + 1]) && ss[i + 2] == AfterEvent(ss[i + 1], es[i + 1]);
        }
      }
      RunsAreBounded(ss[1..], es[1..]);
    }
  }

  /** Any finite set of operations, run for as long as anything can happen, finishes and leaves both locks free. */
  lemma {:induction false} EverythingFinishes(s: System) returns (ss: seq<System>, es: seq<Event>)
    requires Inv(s)
    ensures IsRun(ss, es) && ss[0] == s && Finished(ss[|es|])
    ensures !DistributionHeld(ss[|es|]) && !LifecycleHeld(ss[|es|])
    decreases Measure(s)
  {
    hide Productive, AfterEvent, Measure, Inv, Finished, DistributionHeld, LifecycleHeld;
    if Finished(s) {
      ss, es := [s], [];
      FinishedHoldsNothing(s);
    } else {
      var e := SomethingHappens(s);
      StepKeeps(s, e);
      MeasureDecreases(s, e);
      var ss', es' := EverythingFinishes(AfterEvent(s, e));
      ss, es := [s] + ss', [e] + es';
      RunInFront(s, e, ss', es');
      assert ss[|es|] == ss'[|es'|];
    }
  }

  lemma FinishedHoldsNothing(s: System)
    requires Inv(s) && Finished(s)
    ensures !DistributionHeld(s) && !LifecycleHeld(s)
  {
    assert forall i :: 0 <= i < |s| ==> Balanced(s[i].rest, s[i].distribution, s[i].lifecycle);
  }

  lemma RunInFront(s: System, e: Event, ss: seq<System>, es: seq<Event>)
    requires Productive(s, e) && IsRun(ss, es) && ss[0] == AfterEvent(s, e)
    ensures IsRun([s] + ss, [e] + es)
  {
    hide Productive, AfterEvent;
    var more, events := [s] + ss, [e] + es;
    forall i | 0 <= i < |events|
      ensures Productive(more[i], events[i]) && more[i + 1] == AfterEvent(more[i], events[i])
    {
      if i > 0 {
        assert Productive(ss[i - 1], es[i - 1]) && ss[i] == AfterEvent(ss[i - 1], es[i - 1]);
      }
    }
  }

  /** The two orders do meet in a cycle of waits, which only the bounded wait breaks. */
  lemma CycleIsBroken(timeout: nat)
    ensures var holdsDistribution := Process(CommandLine(timeout)[1..], true, false);
      var holdsLifecycle := Process(TwoSections(timeout, false)[4..], false, true);
      var s := [holdsDistribution, holdsLifecycle];
      && !Enabled(s, 0) && !Enabled(s, 1)
      && (timeout == 0 ==> TimesOut(s, 0)) && (timeout > 0 ==> Productive(s, TimePasses))
  {
    var holdsDistribution := Process(CommandLine(timeout)[1..], true, false);
    var holdsLifecycle := Process(TwoSections(timeout, false)[4..], false, true);
    var s := [holdsDistribution, holdsLifecycle];
    assert s[0].distribution && s[1].lifecycle;
    assert timeout > 0 ==> Impatient(s[0]);
  }
}
