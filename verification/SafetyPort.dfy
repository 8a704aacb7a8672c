/**
 The state-safety ports: an upgrade asks for an authorization, re-reads the installed pointer, and
 presents the authorization before it writes its journal.

 Anything may happen to the Control state between two calls, so every call is given what it sees
 then.  An authorization is an opaque object; here it is a number never handed out twice.
 */
module SafetyPort {
  import opened Options
  import InstallRoot

  // ----- What one look at the Control state sees

  const COMPANION_BYTES := 32
  const MAX_MANIFEST_BYTES := 0x10_0000
  const FUTURE_TOLERANCE := 60
  const PRIVATE_MODE := 0x180 // 0o600

  /** Digests are taken to be injective. */
  datatype Digest<T> = Sha256(of: T)

  datatype StateFile = StateFile(regular: bool, links: nat, owned: bool, mode: nat)

  /** A `-wal` or `-journal` file beside the database. */
  datatype Sidecar = NoSidecar | UnreadableSidecar | SidecarFile(regular: bool, size: nat)

  /** A value whose type is checked: text, a whole number, or anything else. */
  datatype Cell = Text(text: string) | Number(number: int) | Other

  datatype SchemaRow = SchemaRow(kind: string, name: string, sql: string)

  datatype RootRow = RootRow(id: string, revision: int)

  datatype RootEntry = NotAnObject | RootEntry(id: Cell, revision: Cell)

  datatype Identity = Identity(
    schema: int, fingerprint: Digest<seq<SchemaRow>>, companion: Digest<seq<bv8>>, companionLength: int)

  /** The identity a manifest records; `IllTyped` when one of the four values has the wrong type. */
  datatype Recorded = NoIdentity | IllTyped | Recorded(identity: Identity)

  datatype Parsed = Malformed | Parsed(versionIsOne: bool, recorded: Recorded, roots: Option<seq<RootEntry>>)

  datatype Manifest = Manifest(length: nat, parsed: Parsed)

  datatype Instant = NotText | NoInstant | Naive | At(seconds: int)

  datatype Proof = Proof(
    id: Cell, digest: Option<Digest<Manifest>>, manifest: Option<Manifest>, restored: Instant, databases: Cell)

  datatype Store =
    | UnreadableStore
    | Store(rows: seq<SchemaRow>, migrations: seq<int>, enabled: seq<RootRow>, latest: Option<Proof>)

  datatype Control = Control(
    database: Option<StateFile>, companion: Option<StateFile>, sidecars: seq<Sidecar>, lifecycleRecord: bool,
    companionBytes: Option<seq<bv8>>, store: Store, now: Instant)

  /** A pointer's digest stands for its version too. */
  datatype UpgradeRequest = UpgradeRequest(
    current: InstallRoot.Digest, candidate: InstallRoot.Digest,
    candidateSchema: Cell, database: string, companion: string, runtimeRoot: string)

  datatype Binding = Binding(identity: Identity, enabled: seq<RootRow>, proofId: string)

  datatype Denial =
    | NotCurrent | StateChanged | Incomplete | Unsafe | Unreadable | NotCheckpointed | LifecycleRunning
    | SchemaInvalid | BackupRequired | ManifestInvalid | ManifestCorrupt | NotCovered | TimestampsInvalid
    | Stale | NothingRestored | CandidateInvalid | CandidateTooOld

  datatype Look<+T> = Fine(value: T) | Denied(why: Denial) {
    predicate IsFailure() { Denied? }
    function PropagateFailure<U>(): Look<U>
      requires IsFailure()
    {
      Denied(why)
    }
    function Extract(): T
      requires !IsFailure()
    {
      value
    }
  }

  // ----- The checks, in the source's order

  function Require(ok: bool, why: Denial): Look<()> {
    if ok then Fine(()) else Denied(why)
  }

  predicate SafeFile(f: StateFile) {
    f.regular && f.links == 1 && f.owned && f.mode == PRIVATE_MODE
  }

  function Checkpointed(sidecars: seq<Sidecar>): Look<()> {
    if sidecars == [] then Fine(())
    else match sidecars[0]
      case NoSidecar => Checkpointed(sidecars[1..])
      case UnreadableSidecar => Denied(Unreadable)
      case SidecarFile(regular, size) =>
        if regular && size == 0 then Checkpointed(sidecars[1..]) else Denied(NotCheckpointed)
  }

  predicate HasTable(rows: seq<SchemaRow>, name: string) {
    exists row :: row in rows && row.kind == "table" && row.name == name
  }

  /** `1, 2, ..., n` with `n` the last entry. */
  predicate Contiguous(versions: seq<int>) {
    |versions| > 0 && forall i :: 0 <= i < |versions| ==> versions[i] == i + 1
  }

  function ReadStore(s: Store): Look<(int, Digest<seq<SchemaRow>>, seq<RootRow>, Option<Proof>)> {
    if s.UnreadableStore? then Denied(Unreadable)
    else if !HasTable(s.rows, "schema_migrations") then Denied(SchemaInvalid)
    else
      var operations := HasTable(s.rows, "paired_backup_proofs");
      if operations && !HasTable(s.rows, "asset_roots") then Denied(SchemaInvalid)
      else if !Contiguous(s.migrations) then Denied(SchemaInvalid)
      else Fine((s.migrations[|s.migrations| - 1], Sha256(s.rows),
                 if operations then s.enabled else [], if operations then s.latest else None))
  }

  function ReadManifest(p: Proof): Look<(string, Parsed)> {
    if !p.id.Text? || p.id.text == "" || p.digest.None? || p.manifest.None? then Denied(ManifestInvalid)
    else if p.manifest.value.length > MAX_MANIFEST_BYTES then Denied(ManifestInvalid)
    else if Sha256(p.manifest.value) != p.digest.value then Denied(ManifestCorrupt)
    else if p.manifest.value.parsed.Malformed? || !p.manifest.value.parsed.versionIsOne then Denied(ManifestInvalid)
    else Fine((p.id.text, p.manifest.value.parsed))
  }

  predicate WellTyped(entry: RootEntry) {
    entry.RootEntry? && entry.id.Text? && entry.revision.Number?
  }

  /** The recorded roots in their order, when every entry is well typed. */
  function CoveredRoots(entries: seq<RootEntry>): Look<seq<RootRow>> {
    if forall entry :: entry in entries ==> WellTyped(entry) then
      Fine(seq(|entries|, i requires 0 <= i < |entries| =>
        assert entries[i] in entries; RootRow(entries[i].id.text, entries[i].revision.number)))
    else
      Denied(ManifestInvalid)
  }

  /** The loop over the recorded roots, which stops at the first that is not well typed. */
  method ReadRoots(entries: seq<RootEntry>) returns (r: Look<seq<RootRow>>)
    ensures r == CoveredRoots(entries)
    ensures r.Fine? <==> forall entry :: entry in entries ==> WellTyped(entry)
    ensures r.Fine? ==> |r.value| == |entries| && forall i :: 0 <= i < |entries| ==>
      entries[i].RootEntry? && Text(r.value[i].id) == entries[i].id && Number(r.value[i].revision) == entries[i].revision
  {
    var covered: seq<RootRow> := [];
    for i := 0 to |entries|
      invariant |covered| == i
      invariant forall k :: 0 <= k < i ==> WellTyped(entries[k])
      invariant forall k :: 0 <= k < i ==> covered[k] == RootRow(entries[k].id.text, entries[k].revision.number)
    {
      var entry := entries[i];
      if entry.NotAnObject? || !entry.id.Text? || !entry.revision.Number? {
        assert entry in entries && !WellTyped(entry);
        return Denied(ManifestInvalid);
      }
      covered := covered + [RootRow(entry.id.text, entry.revision.number)];
    }
    forall entry | entry in entries ensures WellTyped(entry) {
      var k :| 0 <= k < |entries| && entries[k] == entry;
    }
    r := Fine(covered);
    assert r.value == CoveredRoots(entries).value;
  }

  function RequireCoverage(m: Parsed, b: Binding): Look<()>
    requires m.Parsed?
  {
    if !m.recorded.Recorded? || m.roots.None? then Denied(ManifestInvalid)
    else
      var covered :- CoveredRoots(m.roots.value);
      Require(m.recorded.identity == b.identity && covered == b.enabled, NotCovered)
  }

  function RequireCurrentRestore(p: Proof, now: Instant, maxAge: int): Look<()> {
    if !p.restored.At? || !now.At? then Denied(TimestampsInvalid)
    else if p.restored.seconds > now.seconds + FUTURE_TOLERANCE then Denied(TimestampsInvalid)
    else if now.seconds - p.restored.seconds > maxAge then Denied(Stale)
    else Require(p.databases.Number? && p.databases.number >= 1, NothingRestored)
  }

  function RequireForward(candidate: Cell, schema: int): Look<()> {
    if !candidate.Number? || candidate.number < 1 then Denied(CandidateInvalid)
    else Require(schema <= candidate.number, CandidateTooOld)
  }

  function InspectState(c: Control, candidate: Cell, maxAge: int): Look<Option<Binding>> {
    if c.database.None? != c.companion.None? then Denied(Incomplete)
    else if c.database.None? then Fine(None)
    else
      var _ :- Require(SafeFile(c.database.value), Unsafe);
      var _ :- Require(SafeFile(c.companion.value), Unsafe);
      var _ :- Checkpointed(c.sidecars);
      var _ :- Require(!c.lifecycleRecord, LifecycleRunning);
      var _ :- Require(c.companionBytes.Some?, Unreadable);
      var bytes := c.companionBytes.value;
      var _ :- Require(|bytes| == COMPANION_BYTES, Unsafe);
      var read :- ReadStore(c.store);
      var _ :- Require(read.3.Some?, BackupRequired);
      var manifest :- ReadManifest(read.3.value);
      var identity := Identity(read.0, read.1, Sha256(bytes), |bytes|);
      var binding := Binding(identity, read.2, manifest.0);
      var _ :- RequireCoverage(manifest.1, binding);
      var _ :- RequireCurrentRestore(read.3.value, c.now, maxAge);
      var _ :- RequireForward(candidate, read.0);
      Fine(Some(binding))
  }

  function RequireFresh(c: Control): Look<Option<Binding>> {
    if c.database.None? != c.companion.None? then Denied(Incomplete)
    else if c.database.Some? then Denied(BackupRequired)
    else Fine(None)
  }

  // ----- The two ports

  datatype Policy = FreshOnly | BackupBacked(maxAge: int)

  function Inspect(policy: Policy, q: UpgradeRequest, c: Control): Look<Option<Binding>> {
    match policy
    case FreshOnly => RequireFresh(c)
    case BackupBacked(maxAge) => InspectState(c, q.candidateSchema, maxAge)
  }

  datatype Issue = Issue(request: UpgradeRequest, binding: Option<Binding>)

  /** The objects handed out so far are the numbers below `supply`. */
  datatype Port = Port(policy: Policy, issued: map<nat, Issue>, supply: nat)

  datatype Call =
    | Authorize(request: UpgradeRequest, seen: Control)
    | Consume(ticket: nat, request: UpgradeRequest, seen: Control)

  datatype Reply = Granted(ticket: nat) | Accepted | Declined(reason: Denial)

  function After(p: Port, call: Call): Port {
    match call
    case Authorize(q, c) =>
      var look := Inspect(p.policy, q, c);
      if look.Denied? then p
      else p.(issued := p.issued[p.supply := Issue(q, look.value)], supply := p.supply + 1)
    case Consume(t, _, _) => p.(issued := p.issued - {t})
  }

  function ReplyOf(p: Port, call: Call): Reply {
    match call
    case Authorize(q, c) =>
      var look := Inspect(p.policy, q, c);
      if look.Denied? then Declined(look.why) else Granted(p.supply)
    case Consume(t, q, c) =>
      if t !in p.issued || p.issued[t].request != q then Declined(NotCurrent)
      else
        var look := Inspect(p.policy, q, c);
        if look.Denied? then Declined(look.why)
        else if look.value != p.issued[t].binding then Declined(StateChanged)
        else Accepted
  }

  class UpgradeSafetyPort {
    const policy: Policy
    var issued: map<nat, Issue>
    var supply: nat

    constructor (policy: Policy)
      ensures State() == Port(policy, map[], 0)
    {
      this.policy := policy;
      issued := map[];
      supply := 0;
    }

    function State(): Port
      reads this
    {
      Port(policy, issued, supply)
    }

    method Authorize(q: UpgradeRequest, seen: Control) returns (reply: Reply)
      modifies this
      ensures State() == After(old(State()), Call.Authorize(q, seen))
      ensures reply == ReplyOf(old(State()), Call.Authorize(q, seen))
    {
      var look := Inspect(policy, q, seen);
      if look.Denied? { return Declined(look.why); }
      var authorization := supply;
      supply := supply + 1;
      issued := issued[authorization := Issue(q, look.value)];
      reply := Granted(authorization);
    }

    /** The entry is taken out before anything is checked. */
    method Consume(ticket: nat, q: UpgradeRequest, seen: Control) returns (reply: Reply)
      modifies this
      ensures State() == After(old(State()), Call.Consume(ticket, q, seen))
      ensures reply == ReplyOf(old(State()), Call.Consume(ticket, q, seen))
    {
      var entry := if ticket in issued then Some(issued[ticket]) else None;
      issued := issued - {ticket};
      if entry.None? || entry.value.request != q { return Declined(NotCurrent); }
      var look := Inspect(policy, q, seen);
      if look.Denied? { return Declined(look.why); }
      if look.value != entry.value.binding { return Declined(StateChanged); }
      reply := Accepted;
    }

    /** What an upgrade does with the port between its last checks and its journal. */
    method Gate(q: UpgradeRequest, first: Control, pointerHeld: bool, second: Control) returns (open: bool)
      modifies this
      ensures State() == AfterGate(old(State()), q, first, pointerHeld, second)
      ensures open == Opens(old(State()), q, first, pointerHeld, second)
    {
      var reply := Authorize(q, first);
      if reply.Declined? || !pointerHeld { return false; }
      reply := Consume(reply.ticket, q, second);
      open := reply.Accepted?;
    }
  }

  function AfterGate(p: Port, q: UpgradeRequest, first: Control, pointerHeld: bool, second: Control): Port {
    var granted := After(p, Call.Authorize(q, first));
    if ReplyOf(p, Call.Authorize(q, first)).Declined? || !pointerHeld then granted
    else After(granted, Call.Consume(p.supply, q, second))
  }

  predicate Opens(p: Port, q: UpgradeRequest, first: Control, pointerHeld: bool, second: Control) {
    && ReplyOf(p, Call.Authorize(q, first)).Granted?
    && pointerHeld
    && ReplyOf(After(p, Call.Authorize(q, first)), Call.Consume(p.supply, q, second)).Accepted?
  }

  // ----- Runs

  /** The port after the first `n` calls of a run. */
  function PortAt(policy: Policy, calls: seq<Call>, n: nat): Port
    requires n <= |calls|
  {
    if n == 0 then Port(policy, map[], 0) else After(PortAt(policy, calls, n - 1), calls[n - 1])
  }

  function ReplyTo(policy: Policy, calls: seq<Call>, i: nat): Reply
    requires i < |calls|
  {
    ReplyOf(PortAt(policy, calls, i), calls[i])
  }

  /** Call `i` handed out `t` for `q`, having found `b`. */
  predicate Grants(policy: Policy, calls: seq<Call>, i: nat, t: nat, q: UpgradeRequest, b: Option<Binding>)
    requires i < |calls|
  {
    && calls[i].Authorize? && calls[i].request == q
    && ReplyTo(policy, calls, i) == Granted(t)
    && Inspect(policy, q, calls[i].seen) == Fine(b)
  }

  predicate Presents(calls: seq<Call>, i: nat, t: nat)
    requires i < |calls|
  {
    calls[i].Consume? && calls[i].ticket == t
  }

  predicate UntouchedSince(calls: seq<Call>, i: nat, n: nat, t: nat)
    requires i < n <= |calls|
  {
    forall k: nat :: i < k < n ==> !Presents(calls, k, t)
  }

  /** Among the first `n` calls, `t` was handed out for `q` on `b` and not presented since. */
  ghost predicate Live(policy: Policy, calls: seq<Call>, n: nat, t: nat, q: UpgradeRequest, b: Option<Binding>)
    requires n <= |calls|
  {
    exists i: nat :: i < n && Grants(policy, calls, i, t, q, b) && UntouchedSince(calls, i, n, t)
  }

  lemma {:induction false} SupplyBoundsGrants(
    policy: Policy, calls: seq<Call>, n: nat, i: nat, t: nat, q: UpgradeRequest, b: Option<Binding>)
    requires i < n <= |calls|
    requires Grants(policy, calls, i, t, q, b)
    ensures t < PortAt(policy, calls, n).supply
  {
    if i < n - 1 { SupplyBoundsGrants(policy, calls, n - 1, i, t, q, b); }
  }

  lemma {:induction false} PolicyStays(policy: Policy, calls: seq<Call>, n: nat)
    requires n <= |calls|
    ensures PortAt(policy, calls, n).policy == policy
  {
    if n > 0 { PolicyStays(policy, calls, n - 1); }
  }

  /** One more call keeps what is live, unless it presents it, and adds what it grants. */
  lemma LiveStep(policy: Policy, calls: seq<Call>, n: nat, t: nat, q: UpgradeRequest, b: Option<Binding>)
    requires n < |calls|
    ensures Live(policy, calls, n + 1, t, q, b) <==>
            Grants(policy, calls, n, t, q, b) || (Live(policy, calls, n, t, q, b) && !Presents(calls, n, t))
  {
    hide Grants;
    if Grants(policy, calls, n, t, q, b) {
      assert UntouchedSince(calls, n, n + 1, t);
    } else if Live(policy, calls, n, t, q, b) && !Presents(calls, n, t) {
      var i: nat :| i < n && Grants(policy, calls, i, t, q, b) && UntouchedSince(calls, i, n, t);
      assert UntouchedSince(calls, i, n + 1, t);
    }
    if Live(policy, calls, n + 1, t, q, b) {
      var i: nat :| i < n + 1 && Grants(policy, calls, i, t, q, b) && UntouchedSince(calls, i, n + 1, t);
      if i < n { assert UntouchedSince(calls, i, n, t) && !Presents(calls, n, t); }
    }
  }

  /** The table holds exactly what was handed out and not presented since. */
  lemma {:induction false} TableIsLive(
    policy: Policy, calls: seq<Call>, n: nat, t: nat, q: UpgradeRequest, b: Option<Binding>)
    requires n <= |calls|
    ensures
      var p := PortAt(policy, calls, n);
      (t in p.issued && p.issued[t] == Issue(q, b)) <==> Live(policy, calls, n, t, q, b)
  {
    hide Inspect, Live, UntouchedSince;
    if n == 0 {
      NothingLiveAtFirst(policy, calls, t, q, b);
    } else {
      TableIsLive(policy, calls, n - 1, t, q, b);
      PolicyStays(policy, calls, n - 1);
      LiveStep(policy, calls, n - 1, t, q, b);
      if Live(policy, calls, n - 1, t, q, b) { LiveIsBelowSupply(policy, calls, n - 1, t, q, b); }
    }
  }

  lemma NothingLiveAtFirst(policy: Policy, calls: seq<Call>, t: nat, q: UpgradeRequest, b: Option<Binding>)
    ensures !Live(policy, calls, 0, t, q, b)
  {
  }

  lemma LiveIsBelowSupply(policy: Policy, calls: seq<Call>, n: nat, t: nat, q: UpgradeRequest, b: Option<Binding>)
    requires n <= |calls| && Live(policy, calls, n, t, q, b)
    ensures t < PortAt(policy, calls, n).supply
  {
    var i: nat :| i < n && Grants(policy, calls, i, t, q, b) && UntouchedSince(calls, i, n, t);
    SupplyBoundsGrants(policy, calls, n, i, t, q, b);
  }

  /**
   A presentation is accepted exactly when the authorization was handed out for this same request,
   has not been presented since, and both looks at the Control state found the same thing.
   */
  lemma AcceptedExactly(policy: Policy, calls: seq<Call>, n: nat)
    requires n < |calls| && calls[n].Consume?
    ensures ReplyTo(policy, calls, n).Accepted? <==>
            exists b :: Live(policy, calls, n, calls[n].ticket, calls[n].request, b)
                        && Inspect(policy, calls[n].request, calls[n].seen) == Fine(b)
  {
    var p, t, q := PortAt(policy, calls, n), calls[n].ticket, calls[n].request;
    PolicyStays(policy, calls, n);
    forall b
      ensures (t in p.issued && p.issued[t] == Issue(q, b)) <==> Live(policy, calls, n, t, q, b)
    {
      TableIsLive(policy, calls, n, t, q, b);
    }
    if ReplyTo(policy, calls, n).Accepted? {
      assert p.issued[t] == Issue(q, p.issued[t].binding);
    }
  }

  lemma {:induction false} BurntStays(policy: Policy, calls: seq<Call>, i: nat, n: nat, t: nat)
    requires i <= n <= |calls|
    requires t < PortAt(policy, calls, i).supply && t !in PortAt(policy, calls, i).issued
    ensures t < PortAt(policy, calls, n).supply && t !in PortAt(policy, calls, n).issued
    decreases n
  {
    if i < n { BurntStays(policy, calls, i, n - 1, t); }
  }

  /**
   Presenting an authorization burns it, accepted or not: no later presentation of it is accepted.
   So each authorization succeeds at most once.
   */
  lemma PresentingBurns(
    policy: Policy, calls: seq<Call>, g: nat, i: nat, j: nat, t: nat, q: UpgradeRequest, b: Option<Binding>)
    requires g < i < j < |calls|
    requires Grants(policy, calls, g, t, q, b) && Presents(calls, i, t) && Presents(calls, j, t)
    ensures ReplyTo(policy, calls, j) == Declined(NotCurrent)
  {
    SupplyBoundsGrants(policy, calls, i + 1, g, t, q, b);
    BurntStays(policy, calls, i + 1, j, t);
  }

  lemma AcceptedOnce(policy: Policy, calls: seq<Call>, i: nat, j: nat, t: nat)
    requires i < j < |calls| && Presents(calls, i, t) && Presents(calls, j, t)
    requires ReplyTo(policy, calls, i).Accepted?
    ensures ReplyTo(policy, calls, j) == Declined(NotCurrent)
  {
    AcceptedExactly(policy, calls, i);
    var b :| Live(policy, calls, i, t, calls[i].request, b);
    var g: nat :| g < i && Grants(policy, calls, g, t, calls[i].request, b) && UntouchedSince(calls, g, i, t);
    PresentingBurns(policy, calls, g, i, j, t, calls[i].request, b);
  }

  // ----- What two equal looks pin down

  /** Nobody is at work: two private files, nothing left to check point, no supervisor on record. */
  ghost predicate Settled(c: Control) {
    && c.database == Some(StateFile(true, 1, true, PRIVATE_MODE))
    && c.companion == Some(StateFile(true, 1, true, PRIVATE_MODE))
    && (forall s :: s in c.sidecars ==> s.NoSidecar? || s == SidecarFile(true, 0))
    && !c.lifecycleRecord
  }

  /** The schema has the three tables that are asked for, and its migrations are numbered from 1 without a gap. */
  ghost predicate Migrated(c: Control) {
    && c.store.Store? && Contiguous(c.store.migrations)
    && (forall name :: name in ["schema_migrations", "paired_backup_proofs", "asset_roots"] ==> HasTable(c.store.rows, name))
  }

  /** What the live state and its latest proof have to show, for a binding to be made. */
  ghost predicate Covers(c: Control, b: Binding) {
    && c.companionBytes.Some? && |c.companionBytes.value| == COMPANION_BYTES
    && c.store.Store? && c.store.latest.Some?
    && b.identity == Identity(|c.store.migrations|, Sha256(c.store.rows),
                              Sha256(c.companionBytes.value), COMPANION_BYTES)
    && b.enabled == c.store.enabled
    && b.proofId != "" && c.store.latest.value.id == Text(b.proofId)
    && var proof := c.store.latest.value;
    && proof.manifest.Some? && proof.digest == Some(Sha256(proof.manifest.value))
    && proof.manifest.value.length <= MAX_MANIFEST_BYTES
    && proof.manifest.value.parsed.Parsed? && proof.manifest.value.parsed.versionIsOne
    && proof.manifest.value.parsed.recorded == Recorded(b.identity)
    && proof.manifest.value.parsed.roots.Some?
    && CoveredRoots(proof.manifest.value.parsed.roots.value) == Fine(b.enabled)
  }

  /** The restore leg is recent, not in the future, and the candidate reads the schema. */
  ghost predicate Restorable(c: Control, candidate: Cell, maxAge: int) {
    && candidate.Number? && c.store.Store? && |c.store.migrations| <= candidate.number
    && c.store.latest.Some? && c.store.latest.value.restored.At? && c.now.At?
    && c.now.seconds - maxAge <= c.store.latest.value.restored.seconds <= c.now.seconds + FUTURE_TOLERANCE
    && c.store.latest.value.databases.Number? && 1 <= c.store.latest.value.databases.number
  }

  /**
   A look binds the state exactly when it is settled, migrated, covered by its latest proof, recently
   restored, and of a schema the candidate reads; nothing else is refused.
   */
  lemma BindingMeans(c: Control, candidate: Cell, maxAge: int, b: Binding)
    ensures InspectState(c, candidate, maxAge) == Fine(Some(b)) <==>
      Settled(c) && Migrated(c) && Covers(c, b) && Restorable(c, candidate, maxAge)
  {
    SettledSidecars(c.sidecars);
    TablesMean(c);
    hide Checkpointed, HasTable, CoveredRoots, Contiguous;
    if c.store.Store? && Contiguous(c.store.migrations) { LastIsCount(c.store.migrations); }
  }

  lemma LastIsCount(migrations: seq<int>)
    requires Contiguous(migrations)
    ensures |migrations| > 0 && migrations[|migrations| - 1] == |migrations|
  {
  }

  lemma TablesMean(c: Control)
    ensures Migrated(c) <==>
      && c.store.Store? && Contiguous(c.store.migrations)
      && HasTable(c.store.rows, "schema_migrations") && HasTable(c.store.rows, "paired_backup_proofs")
      && HasTable(c.store.rows, "asset_roots")
  {
    var names := ["schema_migrations", "paired_backup_proofs", "asset_roots"];
    assert names[0] in names && names[1] in names && names[2] in names;
    hide HasTable;
  }

  /** It binds nothing, and lets the upgrade go on, exactly when no state was ever set up. */
  lemma NoStateMeans(c: Control, candidate: Cell, maxAge: int)
    ensures InspectState(c, candidate, maxAge) == Fine(None) <==> c.database.None? && c.companion.None?
  {
  }

  lemma {:induction false} SettledSidecars(sidecars: seq<Sidecar>)
    ensures Checkpointed(sidecars).Fine? <==>
            forall s :: s in sidecars ==> s.NoSidecar? || s == SidecarFile(true, 0)
  {
    if sidecars != [] {
      SettledSidecars(sidecars[1..]);
      assert sidecars == [sidecars[0]] + sidecars[1..];
    }
  }

  /** Two looks that bind alike saw the same schema, migrations, companion and roots, covered by one proof. */
  lemma EqualBindingsPinState(c: Control, d: Control, candidate: Cell, maxAge: int, b: Binding)
    requires InspectState(c, candidate, maxAge) == InspectState(d, candidate, maxAge) == Fine(Some(b))
    ensures c.store.rows == d.store.rows && c.store.migrations == d.store.migrations
    ensures c.store.enabled == d.store.enabled && c.companionBytes == d.companionBytes
    ensures c.store.latest.value.id == d.store.latest.value.id
  {
    BindingMeans(c, candidate, maxAge, b);
    BindingMeans(d, candidate, maxAge, b);
  }

  /** A state is authorized without a proof exactly when the fresh port authorizes it. */
  lemma FreshAgrees(q: UpgradeRequest, c: Control, maxAge: int)
    ensures Inspect(BackupBacked(maxAge), q, c) == Fine(None) <==> Inspect(FreshOnly, q, c).Fine?
  {
  }

  // ----- The gate of an upgrade

  /** The calls an upgrade makes of its port between its last checks and its journal. */
  function GateCalls(p: Port, q: UpgradeRequest, first: Control, pointerHeld: bool, second: Control): seq<Call> {
    if ReplyOf(p, Call.Authorize(q, first)).Declined? || !pointerHeld then [Call.Authorize(q, first)]
    else [Call.Authorize(q, first), Call.Consume(p.supply, q, second)]
  }

  lemma {:induction false} IssuedBelowSupply(policy: Policy, calls: seq<Call>, n: nat)
    requires n <= |calls|
    ensures forall t :: t in PortAt(policy, calls, n).issued ==> t < PortAt(policy, calls, n).supply
  {
    if n > 0 { IssuedBelowSupply(policy, calls, n - 1); }
  }

  /** A port's state depends on the calls made so far only. */
  lemma {:induction false} PortOfPrefix(policy: Policy, calls: seq<Call>, more: seq<Call>, n: nat)
    requires n <= |calls|
    ensures PortAt(policy, calls + more, n) == PortAt(policy, calls, n)
  {
    if n > 0 {
      PortOfPrefix(policy, calls, more, n - 1);
      assert (calls + more)[n - 1] == calls[n - 1];
    }
  }

  /**
   The gate opens exactly when the pointer held and both looks found the same thing, whatever the port
   had handed out before.  It leaves every earlier entry as it was, and keeps its own only when the
   pointer moved.
   */
  lemma GateMeans(p: Port, q: UpgradeRequest, first: Control, pointerHeld: bool, second: Control)
    requires forall t :: t in p.issued ==> t < p.supply
    ensures Opens(p, q, first, pointerHeld, second) <==>
            && pointerHeld && Inspect(p.policy, q, first).Fine?
            && Inspect(p.policy, q, second) == Inspect(p.policy, q, first)
    ensures var after := AfterGate(p, q, first, pointerHeld, second);
      && (forall t :: t in after.issued ==> t < after.supply)
      && (forall t :: t < p.supply ==> (t in after.issued <==> t in p.issued))
      && (forall t :: t in p.issued ==> after.issued[t] == p.issued[t])
      && (pointerHeld ==> after.issued == p.issued)
  {
    var after := AfterGate(p, q, first, pointerHeld, second);
    if pointerHeld { assert after.issued == p.issued; }
  }

  /** What an open gate leaves in its port's history: a grant for the request, then its one acceptance. */
  ghost predicate Authorizes(policy: Policy, before: seq<Call>, made: seq<Call>, q: UpgradeRequest) {
    var all := before + made;
    && |made| == 2
    && (exists t, b ::
          && Grants(policy, all, |before|, t, q, b)
          && Presents(all, |before| + 1, t) && made[1].request == q
          && Inspect(policy, q, made[1].seen) == Fine(b))
    && ReplyTo(policy, all, |before| + 1) == Accepted
  }

  /** The gate is open exactly when its calls, made after those that went before, authorize the request. */
  lemma GateAuthorizes(
    policy: Policy, before: seq<Call>, q: UpgradeRequest, first: Control, pointerHeld: bool, second: Control)
    ensures
      var p := PortAt(policy, before, |before|);
      && (Opens(p, q, first, pointerHeld, second) <==>
            Authorizes(policy, before, GateCalls(p, q, first, pointerHeld, second), q))
      && PortAt(policy, before + GateCalls(p, q, first, pointerHeld, second),
                |before| + |GateCalls(p, q, first, pointerHeld, second)|)
         == AfterGate(p, q, first, pointerHeld, second)
  {
    var p := PortAt(policy, before, |before|);
    var made := GateCalls(p, q, first, pointerHeld, second);
    var all := before + made;
    PolicyStays(policy, before, |before|);
    IssuedBelowSupply(policy, before, |before|);
    PortOfPrefix(policy, before, made, |before|);
    assert all[|before|] == made[0];
    assert PortAt(policy, all, |before| + 1) == After(p, made[0]);
    if |made| == 2 {
      assert all[|before| + 1] == made[1];
      assert PortAt(policy, all, |before| + 2) == After(After(p, made[0]), made[1]);
      var look := Inspect(policy, q, first);
      if Opens(p, q, first, pointerHeld, second) {
        assert Grants(policy, all, |before|, p.supply, q, look.value);
        assert Presents(all, |before| + 1, p.supply);
      }
    }
  }
}
