/**
 When an upgrade can be staged, and what a candidate that was only partly removed does to it.

 A tree removal is not one durable step: a process may die in the middle of it and leave a generation
 directory that is there and not whole.
 */
module InstallUpgrades {
  import opened Options
  import opened InstallRoot
  import opened InstallPlans
  import opened InstallSections
  import opened InstallRuns

  /** No directory of the candidate's digest, or the whole candidate. */
  predicate Stands(r: Root, p: Pointer) {
    p.digest in Generations(r.tree) ==> Generations(r.tree)[p.digest] == Whole(p)
  }

  predicate Stageable(answer: Answer) {
    answer.Staged? || answer.Unchanged?
  }

  /**
   On every legal root, staging an upgrade to `p` whose checks pass is accepted if and only if no journal
   is torn, something is installed, it is `p` or nothing newer than `p`, and what recovery leaves under
   the candidate's digest, if anything, is the whole candidate.
   */
  lemma UpgradeAccepted(r: Root, p: Pointer)
    requires Inv(r)
    ensures
      Stageable(Section(r, StageUpgrade(p, true, Smooth)).answer) <==>
        && !Torn(r) && Installed(r).current.Some?
        && (Installed(r).current.value.digest != p.digest ==>
              Installed(r).current.value.sequence <= p.sequence && Stands(InstallRuns.Recovered(r), p))
  {
    LockSilent(r);
    hide LockPlan, Silent;
  }

  /** Without a journal of either kind, neither recovery nor the sweep touches a generation. */
  lemma GenerationsSurviveLock(r: Root)
    requires Inv(r) && Idle(r)
    ensures Generations(InstallRuns.Recovered(r).tree) == Generations(r.tree) && Idle(InstallRuns.Recovered(r))
  {
    LockSilent(r);
    EntrySilent(r);
    var entry := EntrySteps(r);
    assert Run(entry, r) == r;
    var recovery := RecoverySteps(r);
    assert recovery.steps == [] && recovery.verdict == Ok(NoAction, None);
    assert entry + [] == entry;
    SweepSilent(r);
    RunConcat(entry, SweepSteps(r), r);
  }

  // ----- Retrying

  /** An attempt that dies: staging the candidate, or discarding it after a failed commit. */
  datatype Attempt = Staging(course: Course, death: nat) | Discarding(death: nat)

  function RequestIn(a: Attempt, p: Pointer): Request {
    match a
    case Staging(course, _) => StageUpgrade(p, true, course)
    case Discarding(_) => DiscardCandidate(p)
  }

  function After(r: Root, p: Pointer, a: Attempt): Root {
    var steps := Section(r, RequestIn(a, p)).steps;
    Run(steps[..if a.death <= |steps| then a.death else |steps|], r)
  }

  function AfterAll(r: Root, p: Pointer, attempts: seq<Attempt>): Root
    decreases |attempts|
  {
    if attempts == [] then r else AfterAll(After(r, p, attempts[0]), p, attempts[1..])
  }

  /** Neither staging nor discarding opens a journal, of either kind. */
  predicate Plain(step: Step) {
    || step.MakeVersions? || step.MakeCandidate? || step.Publish? || step.DropCandidate?
    || step.Wound? || step.DropGeneration? || step.DropEmptyVersions?
  }

  lemma {:induction false} PlainKeepsIdle(steps: seq<Step>, k: nat, r: Root)
    requires All(steps, Plain) && k <= |steps| && Idle(r)
    ensures Idle(Run(steps[..k], r))
  {
    if k > 0 {
      assert steps[..k][1..] == steps[1..][..k - 1];
      PlainKeepsIdle(steps[1..], k - 1, Apply(steps[0], r));
    }
  }

  lemma {:induction false} SweepPlain(n: nat)
    ensures All(seq(n, _ => DropCandidate), Plain)
  {
    if n > 0 {
      var s := seq(n, _ => DropCandidate);
      assert s[1..] == seq(n - 1, _ => DropCandidate);
      SweepPlain(n - 1);
    }
  }

  lemma LockPlain(r: Root)
    requires Inv(r) && Idle(r)
    ensures All(LockPlan(r).steps, Plain)
  {
    EntrySilent(r);
    assert EntrySteps(r) == [];
    SweepPlain(Candidates(r.tree));
    AllConcat(seq(Candidates(r.tree), _ => DropCandidate), [DropEmptyVersions], Plain);
    assert [] + SweepSteps(r) == SweepSteps(r);
    assert LockPlan(r).steps == SweepSteps(r);
  }

  lemma StagePlain(r: Root, p: Pointer, course: Course)
    ensures All(StageWork(r, p, true, course).steps, Plain)
  {
    AllThree(MakeVersions, MakeCandidate, Publish(p), Plain);
    var stage := StageSteps(p);
    if course.Fault? {
      AllPrefix(stage, if course.at <= 2 then course.at else 2, Plain);
      AllConcat(stage[..2], [DropCandidate], Plain);
      PairPlain(p.digest);
      AllConcat(stage, [Wound(p.digest), DropGeneration(p.digest)], Plain);
    }
  }

  lemma PairPlain(d: Digest)
    ensures All([Wound(d), DropGeneration(d)], Plain)
  {
    assert [Wound(d), DropGeneration(d)][1..] == [DropGeneration(d)];
  }

  lemma SectionPlain(r: Root, p: Pointer, a: Attempt)
    requires Inv(r) && Idle(r)
    ensures All(Section(r, RequestIn(a, p)).steps, Plain)
  {
    hide LockPlan, StageWork;
    LockPlain(r);
    LockSilent(r);
    var r1 := Run(LockPlan(r).steps, r);
    var work := WorkOf(r1, LockPlan(r).verdict, RequestIn(a, p));
    assert All(work.steps, Plain) by {
      if a.Staging? { StagePlain(r1, p, a.course); } else { PairPlain(p.digest); }
    }
    AllConcat(LockPlan(r).steps, work.steps, Plain);
  }

  /** An attempt, wherever it dies, leaves no journal and the same pair installed. */
  lemma AttemptKeeps(r: Root, p: Pointer, a: Attempt)
    requires Inv(r) && Idle(r)
    ensures Inv(After(r, p, a)) && Idle(After(r, p, a)) && Installed(After(r, p, a)) == Installed(r)
  {
    hide Section;
    var steps := Section(r, RequestIn(a, p)).steps;
    var k := if a.death <= |steps| then a.death else |steps|;
    SectionAtomic(r, RequestIn(a, p), k);
    SectionPlain(r, p, a);
    PlainKeepsIdle(steps, k, r);
  }

  lemma {:induction false} AttemptsKeepIdle(r: Root, p: Pointer, attempts: seq<Attempt>)
    requires Inv(r) && Idle(r)
    ensures
      var crashed := AfterAll(r, p, attempts);
      Inv(crashed) && Idle(crashed) && Installed(crashed) == Installed(r)
    decreases |attempts|
  {
    hide After;
    if attempts != [] {
      AttemptKeeps(r, p, attempts[0]);
      AttemptsKeepIdle(After(r, p, attempts[0]), p, attempts[1..]);
    }
  }

  /**
   After any number of attempts that die anywhere, retrying the upgrade is accepted if and only if the
   candidate's directory is absent or whole: a removal that was cut short is the one thing that refuses it.
   */
  lemma UpgradeRetry(r: Root, p: Pointer, attempts: seq<Attempt>)
    requires Inv(r) && Idle(r) && r.tree.current.Some?
    requires r.tree.current.value.digest != p.digest && r.tree.current.value.sequence <= p.sequence
    ensures
      var crashed := AfterAll(r, p, attempts);
      Stageable(Section(crashed, StageUpgrade(p, true, Smooth)).answer) <==> Stands(crashed, p)
  {
    hide Section, AfterAll;
    AttemptsKeepIdle(r, p, attempts);
    UpgradeAccepted(AfterAll(r, p, attempts), p);
    GenerationsSurviveLock(AfterAll(r, p, attempts));
  }

  predicate WoundedAt(r: Root, d: Digest) {
    d in Generations(r.tree) && Generations(r.tree)[d] == Wounded
  }

  /** No sweep and no further attempt to stage repairs such a directory. */
  lemma {:induction false} WoundedStays(r: Root, p: Pointer, attempts: seq<Attempt>)
    requires Inv(r) && Idle(r) && r.tree.current.Some? && WoundedAt(r, p.digest)
    requires forall a :: a in attempts ==> a.Staging?
    ensures
      var later := AfterAll(r, p, attempts);
      WoundedAt(later, p.digest) && !Stageable(Section(later, StageUpgrade(p, true, Smooth)).answer)
    decreases |attempts|
  {
    if attempts == [] {
      UpgradeAccepted(r, p);
      GenerationsSurviveLock(r);
      assert Holds(r.tree, r.tree.current);
    } else {
      AttemptKeeps(r, p, attempts[0]);
      StagingKeepsWound(r, p, attempts[0].course, attempts[0].death);
      WoundedStays(After(r, p, attempts[0]), p, attempts[1..]);
    }
  }

  lemma StagingKeepsWound(r: Root, p: Pointer, course: Course, death: nat)
    requires Inv(r) && Idle(r) && r.tree.current.Some? && WoundedAt(r, p.digest)
    ensures WoundedAt(After(r, p, Staging(course, death)), p.digest)
  {
    var q := StageUpgrade(p, true, course);
    var steps := Section(r, q).steps;
    GenerationsSurviveLock(r);
    LockSilent(r);
    LockPlain(r);
    assert steps == LockPlan(r).steps by {
      assert LockPlan(r).steps + [] == LockPlan(r).steps;
      assert StageWork(InstallRuns.Recovered(r), p, true, course).steps == [];
    }
    var k := if death <= |steps| then death else |steps|;
    SweepKeepsWounds(steps, k, r, p.digest);
  }

  predicate Sweeps(step: Step) {
    step.DropCandidate? || step.DropEmptyVersions?
  }

  lemma {:induction false} SweepsKeepWounds(steps: seq<Step>, k: nat, r: Root, d: Digest)
    requires All(steps, Sweeps) && k <= |steps| && WoundedAt(r, d)
    ensures WoundedAt(Run(steps[..k], r), d)
  {
    if k > 0 {
      assert steps[..k][1..] == steps[1..][..k - 1];
      SweepsKeepWounds(steps[1..], k - 1, Apply(steps[0], r), d);
    }
  }

  lemma SweepKeepsWounds(steps: seq<Step>, k: nat, r: Root, d: Digest)
    requires Inv(r) && Idle(r) && steps == LockPlan(r).steps && k <= |steps| && WoundedAt(r, d)
    ensures WoundedAt(Run(steps[..k], r), d)
  {
    EntrySilent(r);
    assert EntrySteps(r) == [];
    AllSweeps(Candidates(r.tree));
    AllConcat(seq(Candidates(r.tree), _ => DropCandidate), [DropEmptyVersions], Sweeps);
    assert [] + SweepSteps(r) == SweepSteps(r);
    assert LockPlan(r).steps == SweepSteps(r);
    SweepsKeepWounds(steps, k, r, d);
  }

  lemma {:induction false} AllSweeps(n: nat)
    ensures All(seq(n, _ => DropCandidate), Sweeps)
  {
    if n > 0 {
      var s := seq(n, _ => DropCandidate);
      assert s[1..] == seq(n - 1, _ => DropCandidate);
      AllSweeps(n - 1);
    }
  }
}
