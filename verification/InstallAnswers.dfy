/** When a locked section accepts its request, and exactly what it then leaves. */
module InstallAnswers {
  import opened Options
  import opened InstallRoot
  import opened InstallPlans
  import opened InstallSections
  import opened InstallRuns
  import opened InstallOutcomes
  import InstallSystem

  /** A section on a root without a torn journal: recovery, then its own work on what recovery leaves. */
  lemma SectionIsWork(r: Root, q: Request)
    requires Inv(r) && Sensible(q) && !Torn(r) && !q.Recover?
    ensures
      var r1 := InstallRuns.Recovered(r);
      var work := WorkOf(r1, LockPlan(r).verdict, q);
      && LockPlan(r).verdict.Ok?
      && Section(r, q).answer == work.answer
      && Run(Section(r, q).steps, r) == Run(work.steps, r1)
  {
    LockSilent(r);
    hide LockPlan, WorkOf, Silent, Inv;
    RunConcat(LockPlan(r).steps, WorkOf(InstallRuns.Recovered(r), LockPlan(r).verdict, q).steps, r);
  }

  lemma TornRefuses(r: Root, q: Request)
    requires Inv(r) && Sensible(q) && Torn(r)
    ensures Section(r, q).answer.Refusal? && Run(Section(r, q).steps, r) == r
  {
    LockSilent(r);
    hide LockPlan, Silent;
    assert r.present;
  }

  // ----- What recovery reports

  /** `recover` reports what became of the operation that was cut short, if one was. */
  lemma RecoverAnswers(r: Root)
    requires Inv(r) && !Torn(r)
    ensures Section(r, Recover).answer == Answer.Recovered(
      if r.journal.Journal? then (if Aborting(r) then Aborted else Committed)
      else if r.notice.Notice? then (if r.tree.current.None? then Completed else Aborted)
      else NoAction)
  {
    LockSilent(r);
    EntrySilent(r);
    var r1 := Run(EntrySteps(r), r);
    if r1.journal.Journal? {
      PointerRecoverySilent(r1);
    } else if r1.notice.Notice? {
      UninstallRecoverySilent(r1);
    }
    hide Silent, PointerRecovery, UninstallRecovery, SweepSteps, Run, AbortedTo;
    if r.present { assert LockPlan(r).verdict == RecoverySteps(r1).verdict; }
  }

  // ----- Acceptance

  /**
   The commit of an upgrade goes through if and only if no journal is torn, the release it expects is
   installed, the candidate is whole, its own checks pass and its gate opens.
   */
  lemma CommitUpgradeAccepted(r: Root, q: Request)
    requires Inv(r) && Sensible(q) && q.CommitUpgrade? && q.course.Smooth?
    ensures Section(r, q).answer.Performed? <==>
      && !Torn(r) && Installed(r).current == Some(q.current)
      && Holds(InstallRuns.Recovered(r).tree, Some(q.pointer)) && q.gate.ready && GateOpens(InstallRuns.Recovered(r), q)
  {
    if Torn(r) { TornRefuses(r, q); } else { SectionIsWork(r, q); }
    LockSilent(r);
    hide LockPlan, Silent, Section, GateOpens, Run, BodySteps;
  }

  /** A rollback that was cut short behind its switch: recovery has finished it. */
  predicate RollbackFinished(r: Root) {
    r.journal.Journal? && !Aborting(r) && r.journal.tx.operation.Rollback?
  }

  lemma FinishedIsCommitted(r: Root)
    requires Inv(r) && !Torn(r)
    ensures LockPlan(r).verdict == Ok(Committed, Some(Rollback)) <==> RollbackFinished(r)
  {
    LockSilent(r);
    EntrySilent(r);
    var r1 := Run(EntrySteps(r), r);
    if r1.journal.Journal? {
      PointerRecoverySilent(r1);
    } else if r1.notice.Notice? {
      UninstallRecoverySilent(r1);
    }
    hide Silent, PointerRecovery, UninstallRecovery, SweepSteps, Run, AbortedTo;
  }

  /**
   A rollback whose checks pass is let in if and only if no journal is torn, there is a last known good
   of another release, and recovery has not just finished an earlier rollback; then it reports success
   without a second swap.
   */
  lemma RollbackAccepted(r: Root)
    requires Inv(r)
    ensures
      var answer := Section(r, CheckRollback(true)).answer;
      && (answer.Checked? <==>
            && !Torn(r) && !RollbackFinished(r) && Installed(r).current.Some? && Installed(r).lkg.Some?
            && Installed(r).current.value.digest != Installed(r).lkg.value.digest)
      && (answer.Checked? ==> answer == Checked(Installed(r).current.value, Installed(r).lkg))
      && (answer.Performed? <==> !Torn(r) && RollbackFinished(r))
  {
    var q := CheckRollback(true);
    if Torn(r) { TornRefuses(r, q); } else { SectionIsWork(r, q); FinishedIsCommitted(r); }
    LockSilent(r);
    hide LockPlan, Silent, Section, Run;
  }

  /** Its commit goes through if and only if the pair it has checked is still the installed one. */
  lemma CommitRollbackAccepted(r: Root, q: Request)
    requires Inv(r) && Sensible(q) && q.CommitRollback? && q.course.Smooth?
    ensures Section(r, q).answer.Performed? <==>
      !Torn(r) && q.healthy && Installed(r) == Pair(Some(q.current), Some(q.previous))
  {
    if Torn(r) { TornRefuses(r, q); } else { SectionIsWork(r, q); }
    LockSilent(r);
    if !Torn(r) { HoldsBoth(InstallRuns.Recovered(r)); }
    hide LockPlan, Silent, Section, Run, Inv, Torn, CommitRollbackWork;
    RollbackSays(InstallRuns.Recovered(r), q);
  }

  lemma RollbackSays(r: Root, q: Request)
    requires Sensible(q) && q.CommitRollback? && q.course.Smooth?
    ensures CommitRollbackWork(r, q).answer.Performed? <==>
      r.tree.current == Some(q.current) && r.tree.lkg == Some(q.previous) && Holds(r.tree, Some(q.previous)) && q.healthy
  {
    hide Run, BodySteps, Holds;
  }

  lemma HoldsBoth(r: Root)
    requires Inv(r) && r.journal.NoJournal? && r.notice.NoNotice?
    ensures Holds(r.tree, r.tree.current) && Holds(r.tree, r.tree.lkg)
  {
  }

  /** An uninstall whose checks pass is let in if and only if no journal is torn and something is installed. */
  lemma UninstallAccepted(r: Root)
    requires Inv(r)
    ensures
      var answer := Section(r, CheckUninstall(true)).answer;
      if !Torn(r) && Installed(r).current.Some? then answer == Checked(Installed(r).current.value, None)
      else answer.Refusal?
  {
    var q := CheckUninstall(true);
    if Torn(r) { TornRefuses(r, q); } else { SectionIsWork(r, q); }
    LockSilent(r);
    hide LockPlan, Silent, Section, Run;
  }

  /** Its commit goes through if and only if that release is still installed, and then nothing at all is left. */
  lemma CommitUninstallAccepted(r: Root, current: Pointer)
    requires Inv(r)
    ensures
      var section := Section(r, CommitUninstall(current));
      && (section.answer.Performed? <==> !Torn(r) && Installed(r).current == Some(current))
      && (section.answer.Performed? ==> Run(section.steps, r) == NOTHING)
  {
    var q := CommitUninstall(current);
    if Torn(r) { TornRefuses(r, q); } else { SectionIsWork(r, q); }
    LockSilent(r);
    var r1 := InstallRuns.Recovered(r);
    hide LockPlan, Silent, Section, Run, WorkOf, Tracks;
    UninstallIsWork(r1, LockPlan(r).verdict, current);
    if !Torn(r) && r1.tree.current == Some(current) {
      hide CommitUninstallWork;
      UninstallTracks(r1, current);
    }
  }

  lemma UninstallIsWork(r: Root, locked: Verdict, current: Pointer)
    ensures WorkOf(r, locked, CommitUninstall(current)) == CommitUninstallWork(r, current)
    ensures CommitUninstallWork(r, current).answer.Performed? <==> r.tree.current == Some(current)
  {
  }

  // ----- What staging and discarding leave

  /** The tree with a generation put in, or taken out, and no stale candidate. */
  function WithGenerations(t: Tree, g: map<Digest, Generation>): Tree {
    t.(versions := Some(Versions(g, 0)))
  }

  /**
   Staging that is accepted adds the candidate, unless it stands already, and nothing else.  Staging that
   fails, wherever an exception strikes, leaves the generations as they were and no candidate of its own.
   */
  lemma StageLeaves(r: Root, p: Pointer, healthy: bool, course: Course)
    requires Inv(r) && !Torn(r)
    ensures
      var t := InstallRuns.Recovered(r).tree;
      var section := Section(r, StageUpgrade(p, healthy, course));
      var t' := Run(section.steps, r).tree;
      if section.answer.Staged? && section.answer.created then
        p.digest !in Generations(t) && t' == WithGenerations(t, Generations(t)[p.digest := Whole(p)])
      else
        t' == t.(versions := t'.versions) && Generations(t') == Generations(t) && Candidates(t') == 0
  {
    var q := StageUpgrade(p, healthy, course);
    SectionIsWork(r, q);
    LockSilent(r);
    var r1 := InstallRuns.Recovered(r);
    hide LockPlan, Silent, Section;
    StageRuns(r1, p, healthy, course);
  }

  lemma StageRuns(r: Root, p: Pointer, healthy: bool, course: Course)
    requires Candidates(r.tree) == 0
    ensures
      var work := StageWork(r, p, healthy, course);
      var t' := Run(work.steps, r).tree;
      if work.answer.Staged? && work.answer.created then
        p.digest !in Generations(r.tree) && t' == WithGenerations(r.tree, Generations(r.tree)[p.digest := Whole(p)])
      else
        t' == r.tree.(versions := t'.versions) && Generations(t') == Generations(r.tree) && Candidates(t') == 0
  {
    var work := StageWork(r, p, healthy, course);
    if work.steps != [] {
      StagePrefixes(r, p);
      hide Run, Apply, StageSteps;
      var s := StageSteps(p);
      if course.Fault? {
        if course.at == 2 {
          CandidateGoes(r, p);
        } else if course.at > 2 {
          CandidateTakenOut(r, p);
        }
      }
    }
  }

  /** The roots that staging passes through. */
  lemma StagePrefixes(r: Root, p: Pointer)
    requires Candidates(r.tree) == 0
    ensures var g := Generations(r.tree);
      && |StageSteps(p)| == 3
      && Run(StageSteps(p)[..0], r) == r
      && Run(StageSteps(p)[..1], r).tree == WithGenerations(r.tree, g)
      && Run(StageSteps(p)[..2], r) == SetVersions(r, Some(Versions(g, 1)))
      && Run(StageSteps(p), r) == SetVersions(r, Some(Versions(g[p.digest := Whole(p)], 0)))
  {
    var s := StageSteps(p);
    RunThree(s[0], s[1], s[2], r);
    assert s == [s[0], s[1], s[2]] && s[..0] == [];
  }

  lemma CandidateGoes(r: Root, p: Pointer)
    requires Candidates(r.tree) == 0
    ensures |StageSteps(p)| == 3
    ensures Run(StageSteps(p)[..2] + [DropCandidate], r).tree == WithGenerations(r.tree, Generations(r.tree))
  {
    StagePrefixes(r, p);
    var s := StageSteps(p);
    RunConcat(s[..2], [DropCandidate], r);
    var r2 := Run(s[..2], r);
    assert [DropCandidate][1..] == [] && Run([DropCandidate], r2) == Apply(DropCandidate, r2);
  }

  lemma CandidateTakenOut(r: Root, p: Pointer)
    requires Candidates(r.tree) == 0 && p.digest !in Generations(r.tree)
    ensures Run(StageSteps(p) + [Wound(p.digest), DropGeneration(p.digest)], r).tree
      == WithGenerations(r.tree, Generations(r.tree))
  {
    var g := Generations(r.tree);
    StagePrefixes(r, p);
    hide Run, Apply, StageSteps;
    TakesOut(Run(StageSteps(p), r), p.digest);
    RunConcat(StageSteps(p), [Wound(p.digest), DropGeneration(p.digest)], r);
    assert g[p.digest := Whole(p)] - {p.digest} == g;
  }

  lemma TakesOut(r: Root, d: Digest)
    requires d in Generations(r.tree)
    ensures Run([Wound(d), DropGeneration(d)], r) ==
      SetVersions(r, Some(Versions(Generations(r.tree) - {d}, Candidates(r.tree))))
  {
    var steps := [Wound(d), DropGeneration(d)];
    assert steps[1..] == [DropGeneration(d)] && steps[1..][1..] == [];
    var r1 := Apply(steps[0], r);
    assert Run(steps[1..], r1) == Apply(DropGeneration(d), r1);
    assert Generations(r.tree)[d := Wounded] - {d} == Generations(r.tree) - {d};
  }

  /** A discard takes out exactly the candidate's directory, unless a pointer names it. */
  lemma DiscardLeaves(r: Root, p: Pointer)
    requires Inv(r) && !Torn(r)
    ensures
      var t := InstallRuns.Recovered(r).tree;
      var t' := Run(Section(r, DiscardCandidate(p)).steps, r).tree;
      if Names(t.current, p.digest) || Names(t.lkg, p.digest) || p.digest !in Generations(t) then t' == t
      else t' == WithGenerations(t, Generations(t) - {p.digest})
  {
    SectionIsWork(r, DiscardCandidate(p));
    LockSilent(r);
    var r1 := InstallRuns.Recovered(r);
    if p.digest in Generations(r1.tree) { TakesOut(r1, p.digest); }
    hide LockPlan, Silent, Section;
  }

  // ----- Exceptions

  /** The candidates on disk while a transaction is under way: its own, between making and publishing it. */
  lemma {:induction false} BodyCandidates(r: Root, tx: Transaction, k: nat)
    requires Readable(tx) && k <= |BodySteps(tx)|
    ensures Candidates(Run(BodySteps(tx)[..k], r).tree) ==
      Candidates(r.tree) + if tx.operation.Install? && k == 4 then 1 else 0
  {
    var body := BodySteps(tx);
    if k == 0 {
      assert body[..0] == [];
    } else {
      BodyCandidates(r, tx, k - 1);
      assert body[..k] == body[..k - 1] + [body[k - 1]];
      RunConcat(body[..k - 1], [body[k - 1]], r);
      assert [body[k - 1]][1..] == [];
      BodyMakesOne(tx, k - 1);
      OneStepCandidates(body[k - 1], Run(body[..k - 1], r));
      hide Apply, BodySteps;
    }
  }

  lemma OneStepCandidates(step: Step, r: Root)
    requires !step.DropCandidate? && !step.DropEmptyVersions? && !step.Discard? && !step.Restore?
    ensures Candidates(Apply(step, r).tree) ==
      if step.MakeCandidate? then Candidates(r.tree) + 1
      else if step.Publish? && Candidates(r.tree) > 0 then Candidates(r.tree) - 1
      else Candidates(r.tree)
  {
  }

  lemma BodyMakesOne(tx: Transaction, i: nat)
    requires Readable(tx) && i < |BodySteps(tx)|
    ensures tx.operation.Install? ==>
      && (BodySteps(tx)[i].MakeCandidate? <==> i == 3) && (BodySteps(tx)[i].Publish? <==> i == 4)
    ensures !tx.operation.Install? ==> !BodySteps(tx)[i].MakeCandidate? && !BodySteps(tx)[i].Publish?
    ensures !BodySteps(tx)[i].DropCandidate? && !BodySteps(tx)[i].Wound? && !BodySteps(tx)[i].DropGeneration?
    ensures !BodySteps(tx)[i].Discard? && !BodySteps(tx)[i].Restore? && !BodySteps(tx)[i].DropEmptyVersions?
  {
  }

  /**
   An exception after any step of a transaction, and its handler: the same all or nothing, and no candidate
   is left behind.
   */
  lemma FaultAllOrNothing(r: Root, tx: Transaction, at: nat)
    requires Inv(r) && Startable(r, tx) && at < |BodySteps(tx)|
    ensures var r' := Run(TransactionWork(tx, Fault(at), r).steps, r);
      && r'.journal.NoJournal?
      && ViewOf(r'.tree) ==
           (if at < 2 then ViewOf(r.tree) else if at <= |LeadSteps(tx)| then Undone(r.tree, tx) else Done(r.tree, tx))
      && Candidates(r'.tree) == Candidates(r.tree)
  {
    var done := BodySteps(tx)[..at];
    var failed := Run(done, r);
    RunConcat(done, HandlerSteps(LastOf(done), failed), r);
    TransactionTracks(tx, Fault(at), r);
    BodyCandidates(r, tx, at);
    FailedInv(r, tx, at);
    hide Tracks, Silent, BodySteps;
    if at == 1 {
      TornTidied(r, tx);
    } else {
      BodyKeepsStanding(r, tx, at);
      FailedShows(r, tx, at);
      LastIsCandidate(tx, at);
      HandlerShows(LastOf(done), failed);
    }
  }

  lemma FailedInv(r: Root, tx: Transaction, k: nat)
    requires Inv(r) && Startable(r, tx) && k <= |BodySteps(tx)|
    ensures Inv(Run(BodySteps(tx)[..k], r))
  {
    BodyTracks(r, tx);
    TracksPrefix(BodySteps(tx), k, r, Pair(tx.currentAfter, tx.lkgAfter));
    TracksKeeps(BodySteps(tx)[..k], r, Pair(tx.currentAfter, tx.lkgAfter));
  }

  lemma TornTidied(r: Root, tx: Transaction)
    requires Startable(r, tx)
    ensures
      var failed := Run(BodySteps(tx)[..1], r);
      Run(HandlerSteps(LastOf(BodySteps(tx)[..1]), failed), failed).tree == r.tree
  {
    var done := BodySteps(tx)[..1];
    assert done == [OpenJournal] && done[1..] == [];
    var failed := r.(journal := TornJournal);
    assert Run(done, r) == failed;
    var tidy := TidySteps(LastOf(done), failed);
    assert tidy == [DropJournal] && tidy[1..] == [];
    assert Run(tidy, failed) == r.(journal := NoJournal);
    assert tidy + [] == tidy;
  }

  lemma FailedShows(r: Root, tx: Transaction, k: nat)
    requires Inv(r) && Startable(r, tx) && k <= |BodySteps(tx)| && k != 1
    ensures Outcome(Run(BodySteps(tx)[..k], r)) ==
      if k < 2 then ViewOf(r.tree) else if k <= |LeadSteps(tx)| then Undone(r.tree, tx) else Done(r.tree, tx)
  {
    hide Undone, Done, Run, Outcome;
    if k == 0 {
      NothingTaken(r, tx);
    } else if k <= |LeadSteps(tx)| {
      assert BodySteps(tx)[..k] == LeadSteps(tx)[..k];
      LeadShows(r, tx, k);
    } else {
      SwitchShows(r, tx, k);
    }
  }

  lemma LastIsCandidate(tx: Transaction, k: nat)
    requires Readable(tx) && k <= |BodySteps(tx)|
    ensures LastOf(BodySteps(tx)[..k]) == [MakeCandidate] <==> tx.operation.Install? && k == 4
  {
    if k > 0 { BodyMakesOne(tx, k - 1); }
  }

  lemma HandlerShows(last: seq<Step>, r: Root)
    requires Inv(r) && Standing(r) && (last == [MakeCandidate] ==> Candidates(r.tree) > 0)
    ensures var r' := Run(HandlerSteps(last, r), r);
      && ViewOf(r'.tree) == Outcome(r)
      && Candidates(r'.tree) == Candidates(r.tree) - if last == [MakeCandidate] then 1 else 0
  {
    var tidy := TidySteps(last, r);
    var r1 := Run(tidy, r);
    TidyShows(last, r);
    StepsOfHandler(last, r);
    var recovery := PointerRecovery(r1).steps;
    RunConcat(tidy, recovery, r);
    if r1.journal.Journal? {
      PointerRecoverySilent(r1);
      PointerRecoveryKeeps(r1, |recovery|);
      assert recovery[..|recovery|] == recovery;
    }
  }

  lemma StepsOfHandler(last: seq<Step>, r: Root)
    ensures HandlerSteps(last, r) == TidySteps(last, r) + PointerRecovery(Run(TidySteps(last, r), r)).steps
  {
  }

  lemma TidyShows(last: seq<Step>, r: Root)
    requires Inv(r) && Standing(r) && (last == [MakeCandidate] ==> Candidates(r.tree) > 0)
    ensures var r' := Run(TidySteps(last, r), r);
      && Inv(r') && Outcome(r') == Outcome(r) && r'.journal == r.journal
      && Candidates(r'.tree) == Candidates(r.tree) - if last == [MakeCandidate] then 1 else 0
  {
    if last == [MakeCandidate] {
      assert TidySteps(last, r) == [DropCandidate] && [DropCandidate][1..] == [];
      StepKeeps(DropCandidate, r);
    }
  }

  // ----- Roots that are not as the installer leaves them

  /** The pointers are those before or those after the transaction, and name generations that are there and whole. */
  predicate Recoverable(t: Tree, tx: Transaction) {
    && Readable(tx) && (t.lkg == tx.lkgBefore || t.lkg == tx.lkgAfter)
    && if t.current == tx.currentBefore then Holds(t, tx.currentBefore) && Holds(t, tx.lkgBefore)
       else
         && t.current == tx.currentAfter && Holds(t, tx.currentAfter) && Holds(t, tx.lkgAfter)
         && (tx.launchersOwned ==> LaunchersReady(t)) && SnapshotReady(t, tx.snapshot, tx.currentBefore)
  }

  /** On any root whatever, pointer recovery goes ahead only on what it can finish, and else takes no step. */
  lemma RecoveryIsCautious(r: Root)
    requires r.journal.Journal?
    ensures PointerRecovery(r).verdict.Ok? <==> Recoverable(r.tree, r.journal.tx)
    ensures PointerRecovery(r).verdict.Refused? ==> PointerRecovery(r).steps == []
  {
    hide AbortSteps, CommitSteps, Holds;
  }

  /**
   On any root whatever, entries without the ownership marker, journals of both kinds, a torn journal, trash
   without a journal, and an uninstall whose names stand in both places are refused without a step.
   */
  lemma EntryIsCautious(r: Root)
    requires
      || (!r.marker && (!r.journal.NoJournal? || r.tree != EMPTY_TREE))
      || (!r.journal.NoJournal? && (!r.notice.NoNotice? || r.trash.Some?))
      || r.journal.TornJournal? || r.notice.TornNotice? || (r.notice.NoNotice? && r.trash.Some?)
      || (r.notice.Notice? && r.tree.current.Some? &&
          (r.tree.current != Some(r.notice.currentBefore) || !Disjoint(r.tree, TrashOf(r))))
    ensures RecoverySteps(r).verdict.Refused?
    ensures RecoverySteps(r).steps == []
  {
    hide AbortSteps, CommitSteps, Holds, RestoreSteps, FinishSteps, PointerRecovery;
    if r.journal.TornJournal? { TornIsRefused(r); }
  }

  lemma TornIsRefused(r: Root)
    requires r.journal.TornJournal?
    ensures PointerRecovery(r) == Plan([], Refused(JournalUnreadable))
  {
  }

  // ----- Progress

  /** While a transaction is under way its journal says how far it has got. */
  lemma PhaseIsProgress(r: Root, tx: Transaction, k: nat)
    requires Inv(r) && Startable(r, tx) && tx.phase.Prepared? && 2 <= k < |BodySteps(tx)|
    ensures
      var n, r' := |LeadSteps(tx)|, Run(BodySteps(tx)[..k], r);
      && r'.journal.Journal?
      && r'.journal.tx.phase ==
           (if k < n then Prepared else if k < n + 2 then LastKnownGoodPublished else CurrentPublished)
      && (k >= n ==> r'.tree.lkg == tx.lkgAfter) && (k >= n + 1 ==> r'.tree.current == tx.currentAfter)
  {
    PhaseAfter(r, tx, k);
    hide Run, BodySteps, LeadSteps, Outcome;
    PointersAfter(r, tx, k);
  }

  lemma PointersAfter(r: Root, tx: Transaction, k: nat)
    requires Inv(r) && Startable(r, tx) && 2 <= k < |BodySteps(tx)|
    ensures
      var n, r' := |LeadSteps(tx)|, Run(BodySteps(tx)[..k], r);
      (k >= n ==> r'.tree.lkg == tx.lkgAfter) && (k >= n + 1 ==> r'.tree.current == tx.currentAfter)
  {
    if k > |LeadSteps(tx)| {
      SwitchShows(r, tx, k);
    } else if k == |LeadSteps(tx)| {
      PreparedIs(r, tx);
      PrepareSilent(r, tx);
      var prepare := BeginSteps(tx) + PrepareSteps(tx);
      hide Silent;
      var r1 := Run(prepare, r);
      PublishLeadSilent(r1, tx);
      RunConcat(prepare, PublishLead(tx), r);
      assert BodySteps(tx)[..k] == prepare + PublishLead(tx);
    }
  }

  lemma {:induction false} PhaseAfter(r: Root, tx: Transaction, k: nat)
    requires Readable(tx) && tx.phase.Prepared? && 2 <= k < |BodySteps(tx)|
    ensures
      var n, r' := |LeadSteps(tx)|, Run(BodySteps(tx)[..k], r);
      && r'.journal.Journal?
      && r'.journal.tx.phase ==
           (if k < n then Prepared else if k < n + 2 then LastKnownGoodPublished else CurrentPublished)
  {
    var body := BodySteps(tx);
    assert body[..k] == body[..k - 1] + [body[k - 1]];
    RunConcat(body[..k - 1], [body[k - 1]], r);
    assert [body[k - 1]][1..] == [];
    MarksAt(tx, k - 1);
    if k == 2 {
      assert body[..1] == [body[0]];
    } else {
      PhaseAfter(r, tx, k - 1);
    }
    var before := Run(body[..k - 1], r);
    hide BodySteps, LeadSteps;
    OneStepPhase(body[k - 1], before);
  }

  lemma OneStepPhase(step: Step, r: Root)
    requires !step.OpenJournal? && !step.DropJournal?
    ensures step.WriteJournal? ==> Apply(step, r).journal == Journal(step.tx)
    ensures step.MarkPhase? && r.journal.Journal? ==> Apply(step, r).journal == Journal(r.journal.tx.(phase := step.phase))
    ensures !step.WriteJournal? && !step.MarkPhase? ==> Apply(step, r).journal == r.journal
  {
  }

  /** Which steps of the body touch the journal. */
  lemma MarksAt(tx: Transaction, i: nat)
    requires Readable(tx) && 1 <= i < |BodySteps(tx)| - 1
    ensures
      var n, step := |LeadSteps(tx)|, BodySteps(tx)[i];
      && |BodySteps(tx)| == n + 3 && n >= 4
      && (if i == 1 then step == WriteJournal(tx)
          else if i == n - 1 then step == MarkPhase(LastKnownGoodPublished)
          else if i == n + 1 then step == MarkPhase(CurrentPublished)
          else !step.OpenJournal? && !step.DropJournal? && !step.WriteJournal? && !step.MarkPhase?)
  {
  }

  // ----- What a refusal says

  /** Why staging was refused, in terms of what is installed. */
  lemma StageSays(r: Root, p: Pointer)
    requires Inv(r) && !Torn(r)
    ensures
      var answer, current := Section(r, StageUpgrade(p, true, Smooth)).answer, Installed(r).current;
      && (answer == Refusal(NotInstalled) <==> current.None?)
      && (answer == Unchanged <==> current.Some? && current.value.digest == p.digest)
      && (answer == Refusal(Downgrade) <==>
            current.Some? && current.value.digest != p.digest && p.sequence < current.value.sequence)
  {
    SectionIsWork(r, StageUpgrade(p, true, Smooth));
    LockSilent(r);
    hide LockPlan, Silent, Section, Run;
  }

  /** Why an install was refused. */
  lemma InstallSays(r: Root, p: Pointer)
    requires Inv(r) && !Torn(r)
    ensures
      var answer, current := Section(r, InstallBundle(p, true, Smooth)).answer, Installed(r).current;
      && (answer == Refusal(AlreadyInstalled) <==> current.Some? && current.value.digest != p.digest)
      && (answer == Unchanged <==> current.Some? && current.value.digest == p.digest)
      && (answer == Refusal(LeftoverEntries) <==> current.None? && SweepCutShort(r))
  {
    var q := InstallBundle(p, true, Smooth);
    SectionIsWork(r, q);
    LockSilent(r);
    if Installed(r).current.None? { LockLeavesNothing(r); }
    hide LockPlan, Silent, Section, Run, BodySteps;
  }

  // ----- What a process remembers

  /** What a process remembers of staging: the release it found, and that it made the candidate exactly when it did. */
  lemma StagedIsRemembered(s: InstallSystem.System, e: InstallSystem.Event)
    requires InstallSystem.SystemInv(s) && InstallSystem.Enabled(s, e) && !Torn(s.root)
    requires e.Enter? && e.dies.None? && e.request.StageUpgrade?
    ensures
      var local := InstallSystem.LocalOf(InstallSystem.After(s, e), e.pid);
      local.HasStaged? ==>
        && local.pointer == e.request.pointer && Some(local.current) == Installed(s.root).current
        && (local.created <==> local.pointer.digest !in Generations(InstallRuns.Recovered(s.root).tree))
  {
    SectionSays(s.root, e.request);
    hide LockPlan, Silent, Section, Run, InstallSystem.SystemInv, Inv, Torn, StageWork;
  }

  lemma SectionSays(r: Root, q: Request)
    requires Inv(r) && Sensible(q) && !Torn(r) && q.StageUpgrade?
    ensures
      var answer := Section(r, q).answer;
      answer.Staged? ==>
        && Some(answer.current) == Installed(r).current
        && (answer.created <==> q.pointer.digest !in Generations(InstallRuns.Recovered(r).tree))
  {
    SectionIsWork(r, q);
    LockSilent(r);
    hide LockPlan, Silent, Section, Run, Inv, Torn, StageWork;
    StagedSays(InstallRuns.Recovered(r), q.pointer, q.healthy, q.course);
  }

  lemma StagedSays(r: Root, p: Pointer, healthy: bool, course: Course)
    ensures
      var answer := StageWork(r, p, healthy, course).answer;
      answer.Staged? ==>
        Some(answer.current) == r.tree.current && (answer.created <==> p.digest !in Generations(r.tree))
  {
    hide Run, StageSteps;
  }

  /** A commit that fails sends its process to discard the candidate it made, and no other commit does. */
  lemma FailureIsRemembered(s: InstallSystem.System, e: InstallSystem.Event)
    requires InstallSystem.Enabled(s, e) && e.Enter? && e.dies.None? && e.request.CommitUpgrade?
    ensures
      InstallSystem.LocalOf(InstallSystem.After(s, e), e.pid) == InstallSystem.MustDiscard(e.request.pointer) <==>
        e.request.created && !Section(s.root, e.request).answer.Performed?
  {
    hide LockPlan, Silent, Section, Run, SectionCalls;
  }
}
