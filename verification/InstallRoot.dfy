/**
 The installer's root directory as an abstract file store.

 `Root` is everything the installer keeps on disk; `Step` is one durable write, rename or removal;
 `Apply` is its effect.  A crash can fall between any two steps.  `Inv` is what every reachable
 root satisfies, and `Guard` says when a step may be taken.
 */
module InstallRoot {
  import opened Options

  /** The bundle digest.  Version strings are taken to be injective in it. */
  type Digest = nat

  type Sequence = n: nat | n >= 1 witness 1

  datatype Pointer = Pointer(digest: Digest, sequence: Sequence)

  /** A generation directory is whole, or partly removed by an interrupted tree removal. */
  datatype Generation = Whole(pointer: Pointer) | Wounded

  datatype Launcher = Cortex | Cortexd

  /** The `versions` directory: published generations and the number of `.candidate-*` trees. */
  datatype Versions = Versions(generations: map<Digest, Generation>, candidates: nat)

  /** The five names that belong to an installation. */
  datatype Tree = Tree(
    current: Option<Pointer>,
    lkg: Option<Pointer>,
    bin: Option<set<Launcher>>,
    snapshots: Option<map<nat, Pointer>>,
    versions: Option<Versions>)

  const EMPTY_TREE := Tree(None, None, None, None, None)

  datatype Name = Bin | Snapshots | VersionsDir | LastKnownGood | Current

  datatype Operation = Install | Upgrade | Rollback

  datatype Phase = Prepared | LastKnownGoodPublished | CurrentPublished

  datatype Transaction = Transaction(
    operation: Operation,
    phase: Phase,
    currentBefore: Option<Pointer>,
    currentAfter: Option<Pointer>,
    lkgBefore: Option<Pointer>,
    lkgAfter: Option<Pointer>,
    snapshot: Option<nat>,
    candidateOwned: bool,
    launchersOwned: bool)

  /** The pointer journal file.  `TornJournal` is a file whose exclusive create was not completed. */
  datatype Journal = NoJournal | TornJournal | Journal(tx: Transaction)

  datatype UninstallPhase = UninstallPrepared | UninstallIsolated | UninstallCommitted

  /** The uninstall journal file. */
  datatype Notice =
    | NoNotice
    | TornNotice
    | Notice(phase: UninstallPhase, currentBefore: Pointer, lkgBefore: Option<Pointer>)

  datatype Root = Root(
    present: bool,
    marker: bool,
    journal: Journal,
    notice: Notice,
    tree: Tree,
    trash: Option<Tree>)

  const NOTHING := Root(false, false, NoJournal, NoNotice, EMPTY_TREE, None)

  // ----- Views of a tree

  function Generations(t: Tree): map<Digest, Generation> {
    if t.versions.None? then map[] else t.versions.value.generations
  }

  function Candidates(t: Tree): nat {
    if t.versions.None? then 0 else t.versions.value.candidates
  }

  /** `_verify_installed_version`: the generation is present, whole, and is the one named. */
  predicate Holds(t: Tree, p: Option<Pointer>) {
    p.Some? ==>
      && p.value.digest in Generations(t)
      && Generations(t)[p.value.digest] == Whole(p.value)
  }

  predicate Names(p: Option<Pointer>, d: Digest) {
    p.Some? && p.value.digest == d
  }

  predicate LaunchersReady(t: Tree) {
    t.bin == Some({Cortex, Cortexd})
  }

  predicate SnapshotReady(t: Tree, name: Option<nat>, expected: Option<Pointer>) {
    name.Some? ==>
      && t.snapshots.Some?
      && name.value in t.snapshots.value
      && expected == Some(t.snapshots.value[name.value])
  }

  predicate HasName(t: Tree, name: Name) {
    match name
    case Bin => t.bin.Some?
    case Snapshots => t.snapshots.Some?
    case VersionsDir => t.versions.Some?
    case LastKnownGood => t.lkg.Some?
    case Current => t.current.Some?
  }

  /** `to`, with one name taken from `from`. */
  function CopyName(from: Tree, to: Tree, name: Name): Tree {
    match name
    case Bin => to.(bin := from.bin)
    case Snapshots => to.(snapshots := from.snapshots)
    case VersionsDir => to.(versions := from.versions)
    case LastKnownGood => to.(lkg := from.lkg)
    case Current => to.(current := from.current)
  }

  /** Each name from whichever of the root and the trash has it. */
  function Merge(t: Tree, trash: Tree): Tree {
    Tree(
      if t.current.Some? then t.current else trash.current,
      if t.lkg.Some? then t.lkg else trash.lkg,
      if t.bin.Some? then t.bin else trash.bin,
      if t.snapshots.Some? then t.snapshots else trash.snapshots,
      if t.versions.Some? then t.versions else trash.versions)
  }

  function TrashOf(r: Root): Tree {
    if r.trash.None? then EMPTY_TREE else r.trash.value
  }

  predicate Disjoint(t: Tree, u: Tree) {
    && (t.current.None? || u.current.None?) && (t.lkg.None? || u.lkg.None?)
    && (t.bin.None? || u.bin.None?) && (t.snapshots.None? || u.snapshots.None?)
    && (t.versions.None? || u.versions.None?)
  }

  // ----- The journal's own reader

  predicate Readable(tx: Transaction) {
    match tx.operation
    case Install =>
      && tx.currentBefore.None? && tx.lkgBefore.None?
      && tx.currentAfter.Some? && tx.lkgAfter == tx.currentAfter
      && tx.snapshot.None? && tx.candidateOwned && tx.launchersOwned
    case Upgrade =>
      && tx.currentBefore.Some? && tx.currentAfter.Some?
      && tx.currentBefore != tx.currentAfter && tx.lkgAfter == tx.currentBefore
      && tx.snapshot.Some? && !tx.launchersOwned
    case Rollback =>
      && tx.currentBefore.Some? && tx.lkgBefore.Some? && tx.currentBefore != tx.lkgBefore
      && tx.currentAfter == tx.lkgBefore && tx.lkgAfter == tx.currentBefore
      && tx.snapshot.None? && !tx.candidateOwned && !tx.launchersOwned
  }

  // ----- Durable steps

  datatype Step =
    | MakeRoot | WriteMarker | DropMarker | DropRoot
    | OpenJournal | WriteJournal(tx: Transaction) | MarkPhase(phase: Phase) | DropJournal
    | SetCurrent(p: Option<Pointer>) | SetLastKnownGood(p: Option<Pointer>)
    | MakeSnapshots | WriteSnapshot(name: nat, pointer: Pointer) | DropSnapshot(name: nat) | DropEmptySnapshots
    | MakeVersions | MakeCandidate | DropCandidate | Publish(pointer: Pointer)
    | Wound(d: Digest) | DropGeneration(d: Digest) | DropEmptyVersions
    | MakeBin | WriteLauncher(l: Launcher) | DropLauncher(l: Launcher) | DropBin
    | OpenNotice | WriteNotice(notice: Notice) | MarkNotice(uphase: UninstallPhase) | DropNotice
    | MakeTrash | Discard(owned: Name) | Restore(owned: Name) | Erase(owned: Name) | DropTrash

  function SetVersions(r: Root, v: Option<Versions>): Root {
    r.(tree := r.tree.(versions := v))
  }

  function Apply(step: Step, r: Root): Root {
    var t := r.tree;
    var g, c := Generations(t), Candidates(t);
    match step
    case MakeRoot => r.(present := true)
    case WriteMarker => r.(marker := true)
    case DropMarker => r.(marker := false)
    case DropRoot => r.(present := false)
    case OpenJournal => r.(journal := TornJournal)
    case WriteJournal(tx) => r.(journal := Journal(tx))
    case MarkPhase(phase) => if r.journal.Journal? then r.(journal := Journal(r.journal.tx.(phase := phase))) else r
    case DropJournal => r.(journal := NoJournal)
    case SetCurrent(p) => r.(tree := t.(current := p))
    case SetLastKnownGood(p) => r.(tree := t.(lkg := p))
    case MakeSnapshots => if t.snapshots.None? then r.(tree := t.(snapshots := Some(map[]))) else r
    case WriteSnapshot(name, p) =>
      r.(tree := t.(snapshots := Some((if t.snapshots.None? then map[] else t.snapshots.value)[name := p])))
    case DropSnapshot(name) =>
      if t.snapshots.None? then r else r.(tree := t.(snapshots := Some(t.snapshots.value - {name})))
    case DropEmptySnapshots => if t.snapshots == Some(map[]) then r.(tree := t.(snapshots := None)) else r
    case MakeVersions => if t.versions.None? then SetVersions(r, Some(Versions(map[], 0))) else r
    case MakeCandidate => SetVersions(r, Some(Versions(g, c + 1)))
    case DropCandidate => if c == 0 then r else SetVersions(r, Some(Versions(g, c - 1)))
    case Publish(p) => SetVersions(r, Some(Versions(g[p.digest := Whole(p)], if c == 0 then 0 else c - 1)))
    case Wound(d) => if d in g then SetVersions(r, Some(Versions(g[d := Wounded], c))) else r
    case DropGeneration(d) => if d in g then SetVersions(r, Some(Versions(g - {d}, c))) else r
    case DropEmptyVersions => if t.versions == Some(Versions(map[], 0)) then SetVersions(r, None) else r
    case MakeBin => if t.bin.None? then r.(tree := t.(bin := Some({}))) else r
    case WriteLauncher(l) => r.(tree := t.(bin := Some((if t.bin.None? then {} else t.bin.value) + {l})))
    case DropLauncher(l) => if t.bin.None? then r else r.(tree := t.(bin := Some(t.bin.value - {l})))
    case DropBin => r.(tree := t.(bin := None))
    case OpenNotice => r.(notice := TornNotice)
    case WriteNotice(n) => r.(notice := n)
    case MarkNotice(phase) => if r.notice.Notice? then r.(notice := r.notice.(phase := phase)) else r
    case DropNotice => r.(notice := NoNotice)
    case MakeTrash => if r.trash.None? then r.(trash := Some(EMPTY_TREE)) else r
    case Discard(name) => r.(tree := CopyName(EMPTY_TREE, t, name), trash := Some(CopyName(t, TrashOf(r), name)))
    case Restore(name) => r.(tree := CopyName(TrashOf(r), t, name), trash := Some(CopyName(EMPTY_TREE, TrashOf(r), name)))
    case Erase(name) => if r.trash.None? then r else r.(trash := Some(CopyName(EMPTY_TREE, r.trash.value, name)))
    case DropTrash => r.(trash := None)
  }

  // ----- The invariant

  /** Both pointers name whole generations and, when installed, the launchers are complete. */
  predicate Complete(t: Tree) {
    && Holds(t, t.current) && Holds(t, t.lkg)
    && (t.current.Some? ==> t.lkg.Some? && LaunchersReady(t))
  }

  /** No journal of either kind: an installation, or nothing but leftovers of staging. */
  predicate Quiet(t: Tree) {
    && Complete(t)
    && (t.current.None? ==> t.lkg.None? && t.bin.None? && t.snapshots.None? && Generations(t) == map[])
  }

  /** Among the pointers of a transaction, a digest determines the pointer. */
  predicate Separate(tx: Transaction) {
    tx.currentAfter.Some? ==>
      && (tx.currentBefore.Some? && tx.currentBefore != tx.currentAfter ==>
            tx.currentBefore.value.digest != tx.currentAfter.value.digest)
      && (tx.lkgBefore.Some? && tx.lkgBefore != tx.currentAfter ==>
            tx.lkgBefore.value.digest != tx.currentAfter.value.digest)
  }

  predicate Pending(t: Tree, tx: Transaction) {
    && Readable(tx) && Separate(tx) && Complete(t)
    && (t.current == tx.currentBefore || t.current == tx.currentAfter)
    && (t.lkg == tx.lkgBefore || t.lkg == tx.lkgAfter)
    && Holds(t, tx.currentBefore) && Holds(t, tx.lkgBefore)
    && (tx.operation.Install? ==>
          && t.snapshots.None?
          && Generations(t).Keys <= {tx.currentAfter.value.digest})
    && (!tx.operation.Install? ==> tx.lkgBefore.Some?)
    && (t.current == tx.currentAfter ==>
          && t.lkg == tx.lkgAfter && Holds(t, tx.currentAfter)
          && SnapshotReady(t, tx.snapshot, tx.currentBefore))
  }

  /** Before the rename of `current.json` everything is still there, split between root and trash. */
  ghost predicate Withdrawn(r: Root) {
    && r.notice.Notice?
    && (r.tree.current.Some? ==>
          && r.tree.current == Some(r.notice.currentBefore)
          && r.marker
          && Disjoint(r.tree, TrashOf(r))
          && Quiet(Merge(r.tree, TrashOf(r)))
          && Merge(r.tree, TrashOf(r)).lkg == r.notice.lkgBefore)
    && (r.tree.current.None? ==> r.tree == EMPTY_TREE)
  }

  ghost predicate Inv(r: Root) {
    && (!r.present ==> r == NOTHING)
    && (r.present && !r.marker ==> r.journal.NoJournal? && r.tree == EMPTY_TREE && (r.notice.NoNotice? ==> r.trash.None?))
    && (!r.journal.NoJournal? ==> r.notice.NoNotice?)
    && (r.trash.Some? ==> r.notice.Notice?)
    && (r.journal.Journal? ==> Pending(r.tree, r.journal.tx))
    && (r.notice.Notice? ==> Withdrawn(r))
    && (r.notice.TornNotice? ==> r.marker && r.tree.current.Some?)
    && (!r.journal.Journal? && !r.notice.Notice? ==> Quiet(r.tree))
  }

  /** The pair of pointers an installation stands for: what a completed recovery will leave. */
  datatype Pair = Pair(current: Option<Pointer>, lkg: Option<Pointer>)

  function Installed(r: Root): Pair {
    if r.journal.Journal? then
      if r.tree.current == r.journal.tx.currentAfter
      then Pair(r.journal.tx.currentAfter, r.journal.tx.lkgAfter)
      else Pair(r.journal.tx.currentBefore, r.journal.tx.lkgBefore)
    else if r.notice.Notice? then
      if r.tree.current.Some? then Pair(Some(r.notice.currentBefore), r.notice.lkgBefore) else Pair(None, None)
    else
      Pair(r.tree.current, r.tree.lkg)
  }

  // ----- When a step may be taken

  predicate Idle(r: Root) {
    r.present && r.marker && r.journal.NoJournal? && r.notice.NoNotice?
  }

  predicate Aborting(r: Root) {
    r.journal.Journal? && r.tree.current != r.journal.tx.currentAfter
  }

  predicate Isolating(r: Root) {
    r.notice.Notice? && r.tree.current.Some?
  }

  predicate Gone(r: Root) {
    r.notice.Notice? && r.tree.current.None?
  }

  predicate Installing(r: Root) {
    Aborting(r) && r.journal.tx.operation.Install?
  }

  /** The digest is named by no pointer that is published or that recovery may restore. */
  predicate Unnamed(r: Root, d: Digest) {
    && !Names(r.tree.current, d) && !Names(r.tree.lkg, d)
    && (r.journal.Journal? ==>
          Aborting(r) && !Names(r.journal.tx.currentBefore, d) && !Names(r.journal.tx.lkgBefore, d))
  }

  ghost predicate Guard(step: Step, r: Root) {
    match step
    case MakeRoot => true
    case WriteMarker => r.present
    case DropMarker => Gone(r) && r.trash.None?
    case DropRoot => r.(present := false) == NOTHING
    case OpenJournal => Idle(r)
    case WriteJournal(tx) =>
      && r.journal.TornJournal? && Readable(tx) && Separate(tx)
      && tx.currentBefore == r.tree.current && tx.lkgBefore == r.tree.lkg
      && (tx.operation.Install? ==> r.tree == EMPTY_TREE)
    case MarkPhase(phase) => r.journal.Journal?
    case DropJournal =>
      r.journal.TornJournal? ||
      (r.journal.Journal? &&
        (Aborting(r) ==> r.tree.lkg == r.journal.tx.lkgBefore && (r.journal.tx.operation.Install? ==> Quiet(r.tree))))
    case SetCurrent(p) =>
      && r.journal.Journal?
      && (p == r.tree.current ||
          (p == r.journal.tx.currentAfter && Holds(r.tree, p) && r.tree.lkg == r.journal.tx.lkgAfter
            && (r.journal.tx.operation.Install? ==> LaunchersReady(r.tree))
            && SnapshotReady(r.tree, r.journal.tx.snapshot, r.journal.tx.currentBefore)))
    case SetLastKnownGood(p) =>
      && r.journal.Journal? && Holds(r.tree, p)
      && (p == r.journal.tx.lkgAfter || (Aborting(r) && p == r.journal.tx.lkgBefore))
    case MakeSnapshots => Idle(r) && r.tree.current.Some?
    case WriteSnapshot(name, p) =>
      Aborting(r) && r.journal.tx.snapshot == Some(name) && r.journal.tx.currentBefore == Some(p)
    case DropSnapshot(name) => Aborting(r)
    case DropEmptySnapshots => Aborting(r)
    case MakeVersions => r.marker && r.notice.NoNotice?
    case MakeCandidate => r.marker && r.notice.NoNotice?
    case DropCandidate => r.notice.NoNotice?
    case Publish(p) =>
      && r.notice.NoNotice? && p.digest !in Generations(r.tree)
      && ((Installing(r) && r.journal.tx.currentAfter == Some(p)) || (Idle(r) && r.tree.current.Some?))
    case Wound(d) => r.notice.NoNotice? && Unnamed(r, d)
    case DropGeneration(d) => r.notice.NoNotice? && Unnamed(r, d)
    case DropEmptyVersions => r.notice.NoNotice?
    case MakeBin => Installing(r)
    case WriteLauncher(l) => Installing(r)
    case DropLauncher(l) => Installing(r)
    case DropBin => Installing(r)
    case OpenNotice => Idle(r) && r.tree.current.Some?
    case WriteNotice(n) =>
      && r.notice.TornNotice? && n.Notice? && r.tree.current == Some(n.currentBefore) && r.tree.lkg == n.lkgBefore
    case MarkNotice(phase) => r.notice.Notice?
    case DropNotice => r.trash.None? && (Isolating(r) || (Gone(r) && !r.marker))
    case MakeTrash => Isolating(r)
    case Discard(name) =>
      && Isolating(r) && r.trash.Some? && HasName(r.tree, name)
      && (name == Current ==> r.tree.(current := None) == EMPTY_TREE)
    case Restore(name) => Isolating(r) && r.trash.Some? && HasName(r.trash.value, name)
    case Erase(name) => Gone(r)
    case DropTrash => Gone(r) || (Isolating(r) && r.trash == Some(EMPTY_TREE))
  }

  /** The two steps at which what is installed changes. */
  predicate Commits(step: Step, r: Root) {
    || (step.SetCurrent? && r.journal.Journal? && r.tree.current != step.p)
    || (step == Discard(Current))
  }

  // `Keeps` holds of every guarded step; the lemmas below go through the steps in groups.
  ghost predicate Keeps(step: Step, r: Root) {
    && Inv(Apply(step, r))
    && (!Commits(step, r) ==> Installed(Apply(step, r)) == Installed(r))
  }

  lemma RootStepKeeps(step: Step, r: Root)
    requires Inv(r) && Guard(step, r)
    requires step.MakeRoot? || step.WriteMarker? || step.DropMarker? || step.DropRoot?
    ensures Keeps(step, r)
  {
  }

  lemma JournalStepKeeps(step: Step, r: Root)
    requires Inv(r) && Guard(step, r)
    requires step.OpenJournal? || step.WriteJournal? || step.MarkPhase? || step.DropJournal?
    ensures Keeps(step, r)
  {
  }

  lemma PointerStepKeeps(step: Step, r: Root)
    requires Inv(r) && Guard(step, r)
    requires step.SetCurrent? || step.SetLastKnownGood?
    ensures Keeps(step, r)
  {
  }

  lemma SnapshotStepKeeps(step: Step, r: Root)
    requires Inv(r) && Guard(step, r)
    requires step.MakeSnapshots? || step.WriteSnapshot? || step.DropSnapshot? || step.DropEmptySnapshots?
    ensures Keeps(step, r)
  {
  }

  lemma VersionStepKeeps(step: Step, r: Root)
    requires Inv(r) && Guard(step, r)
    requires step.MakeVersions? || step.MakeCandidate? || step.DropCandidate? || step.DropEmptyVersions?
    ensures Keeps(step, r)
  {
    assert Generations(Apply(step, r).tree) == Generations(r.tree);
  }

  lemma GenerationStepKeeps(step: Step, r: Root)
    requires Inv(r) && Guard(step, r)
    requires step.Publish? || step.Wound? || step.DropGeneration?
    ensures Keeps(step, r)
  {
  }

  lemma LauncherStepKeeps(step: Step, r: Root)
    requires Inv(r) && Guard(step, r)
    requires step.MakeBin? || step.WriteLauncher? || step.DropLauncher? || step.DropBin?
    ensures Keeps(step, r)
  {
  }

  lemma NoticeStepKeeps(step: Step, r: Root)
    requires Inv(r) && Guard(step, r)
    requires step.OpenNotice? || step.WriteNotice? || step.MarkNotice? || step.DropNotice?
    ensures Keeps(step, r)
  {
  }

  lemma TrashStepKeeps(step: Step, r: Root)
    requires Inv(r) && Guard(step, r)
    requires step.MakeTrash? || step.DropTrash? || step.Erase?
    ensures Keeps(step, r)
  {
  }

  lemma DiscardKeeps(step: Step, r: Root)
    requires Inv(r) && Guard(step, r) && step.Discard?
    ensures Keeps(step, r)
  {
  }

  lemma RestoreKeeps(step: Step, r: Root)
    requires Inv(r) && Guard(step, r) && step.Restore?
    ensures Keeps(step, r)
  {
  }

  /** A guarded step keeps the invariant, and changes what is installed only if it commits. */
  lemma StepKeeps(step: Step, r: Root)
    requires Inv(r) && Guard(step, r)
    ensures Keeps(step, r)
  {
    if step.MakeRoot? || step.WriteMarker? || step.DropMarker? || step.DropRoot? {
      RootStepKeeps(step, r);
    } else if step.OpenJournal? || step.WriteJournal? || step.MarkPhase? || step.DropJournal? {
      JournalStepKeeps(step, r);
    } else if step.SetCurrent? || step.SetLastKnownGood? {
      PointerStepKeeps(step, r);
    } else if step.MakeSnapshots? || step.WriteSnapshot? || step.DropSnapshot? || step.DropEmptySnapshots? {
      SnapshotStepKeeps(step, r);
    } else if step.MakeVersions? || step.MakeCandidate? || step.DropCandidate? || step.DropEmptyVersions? {
      VersionStepKeeps(step, r);
    } else if step.Publish? || step.Wound? || step.DropGeneration? {
      GenerationStepKeeps(step, r);
    } else if step.MakeBin? || step.WriteLauncher? || step.DropLauncher? || step.DropBin? {
      LauncherStepKeeps(step, r);
    } else if step.Discard? {
      DiscardKeeps(step, r);
    } else if step.Restore? {
      RestoreKeeps(step, r);
    } else if step.MakeTrash? || step.DropTrash? || step.Erase? {
      TrashStepKeeps(step, r);
    } else {
      NoticeStepKeeps(step, r);
    }
  }
}
