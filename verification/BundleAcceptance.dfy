/**
 The dependency check of a bundle: the closure read out of the wheels and the closure the lock
 pinned must agree, and every wheel the lock does not pin must be explained by a build record.

 Digests are opaque.  Reading wheels, the lock and the record is not part of this model.
 */
module BundleAcceptance {
  import opened Options
  import Closure
  import VersionRanges

  type Digest = nat

  datatype Role = WorkspaceWheel | DependencyWheel | OtherRole

  /** A wheel with what its metadata says; `matches` is whether that agrees with its manifest entry. */
  datatype Artifact = Artifact(
    role: Role, entry: Closure.Entry, matches: bool, requiresPython: VersionRanges.Decision, tagsFit: bool, digest: Digest)

  datatype Build = Build(sdist: Digest, wheel: Digest)

  /** The lock maps a name to its pinned digests; the record of sdist builds may be absent. */
  datatype Bundle = Bundle(
    artifacts: seq<Artifact>,
    pinned: Option<map<string, set<Digest>>>,
    record: Option<map<string, Build>>,
    target: Closure.Target)

  const WORKSPACE := ["cortex", "cortex-research"]
  const FORBIDDEN := {"backtesting"}

  function Entries(artifacts: seq<Artifact>): (es: seq<Closure.Entry>)
    ensures |es| == |artifacts| && forall i :: 0 <= i < |es| ==> es[i] == artifacts[i].entry
  {
    if artifacts == [] then [] else Entries(artifacts[..|artifacts| - 1]) + [artifacts[|artifacts| - 1].entry]
  }

  /** The checks on one artifact by itself. */
  predicate Admissible(a: Artifact) {
    && !a.role.OtherRole? && a.matches && a.entry.name !in FORBIDDEN
    && a.requiresPython == VersionRanges.Decided(true) && a.tagsFit
  }

  predicate ShipsDependency(artifacts: seq<Artifact>, name: string, digest: Digest) {
    exists i :: 0 <= i < |artifacts| && artifacts[i].role.DependencyWheel?
      && artifacts[i].entry.name == name && artifacts[i].digest == digest
  }

  /** `_validate_sdist_builds`: an absent record explains nothing; a present one cites only pinned sdists. */
  method ValidateSdistBuilds(record: Option<map<string, Build>>, pinned: map<string, set<Digest>>)
    returns (ok: bool, built: map<string, Digest>)
    ensures ok <==> (record.Some? ==>
      record.value != map[] &&
      forall n :: n in record.value ==> n in pinned && record.value[n].sdist in pinned[n])
    ensures ok ==> built == if record.None? then map[] else map n | n in record.value :: record.value[n].wheel
  {
    built := map[];
    if record.None? {
      return true, built;
    }
    if record.value == map[] {
      return false, built;
    }
    var names := record.value.Keys;
    while names != {}
      invariant names <= record.value.Keys
      invariant built.Keys == record.value.Keys - names
      invariant forall n :: n in built ==> built[n] == record.value[n].wheel
      invariant forall n :: n in built ==> n in pinned && record.value[n].sdist in pinned[n]
      decreases names
    {
      var name :| name in names;
      if name !in pinned || record.value[name].sdist !in pinned[name] {
        return false, built;
      }
      built := built[name := record.value[name].wheel];
      names := names - {name};
    }
    return true, built;
  }

  /** What the lock and the record together say of a dependency digest. */
  predicate Explained(name: string, digest: Digest, pinned: map<string, set<Digest>>, built: map<string, Digest>) {
    && (name in built ==> built[name] == digest)
    && ((name in pinned && digest in pinned[name]) || name in built)
  }

  /** The loop over the artifacts: each is checked, and the dependency wheels' digests are collected. */
  method CollectArtifacts(artifacts: seq<Artifact>)
    returns (ok: bool, entries: seq<Closure.Entry>, digests: map<string, Digest>)
    ensures ok <==> forall i :: 0 <= i < |artifacts| ==> Admissible(artifacts[i])
    ensures ok ==> entries == Entries(artifacts)
    ensures ok ==> forall n :: n in digests <==> exists digest :: ShipsDependency(artifacts, n, digest)
    ensures ok ==> forall n :: n in digests ==> ShipsDependency(artifacts, n, digests[n])
  {
    entries, digests := [], map[];
    for i := 0 to |artifacts|
      invariant forall k :: 0 <= k < i ==> Admissible(artifacts[k])
      invariant entries == Entries(artifacts[..i])
      invariant forall n :: n in digests <==> exists digest :: ShipsDependency(artifacts[..i], n, digest)
      invariant forall n :: n in digests ==> ShipsDependency(artifacts[..i], n, digests[n])
    {
      var a := artifacts[i];
      if !Admissible(a) {
        return false, entries, digests;
      }
      assert artifacts[..i + 1] == artifacts[..i] + [a];
      assert artifacts[..i + 1][..i] == artifacts[..i];
      entries := entries + [a.entry];
      ShipsMore(artifacts[..i], a);
      assert a.role.DependencyWheel? ==> ShipsDependency(artifacts[..i + 1], a.entry.name, a.digest);
      if a.role.DependencyWheel? {
        digests := digests[a.entry.name := a.digest];
      }
    }
    assert artifacts[..|artifacts|] == artifacts;
    ok := true;
  }

  lemma ShipsMore(artifacts: seq<Artifact>, a: Artifact)
    ensures forall n, digest :: ShipsDependency(artifacts + [a], n, digest) <==>
      ShipsDependency(artifacts, n, digest) || (a.role.DependencyWheel? && a.entry.name == n && a.digest == digest)
  {
    var more := artifacts + [a];
    assert more[|artifacts|] == a;
    assert forall i :: 0 <= i < |artifacts| ==> more[i] == artifacts[i];
  }

  lemma OneDigest(artifacts: seq<Artifact>, n: string, d1: Digest, d2: Digest)
    requires Closure.Distinct(Entries(artifacts))
    requires ShipsDependency(artifacts, n, d1) && ShipsDependency(artifacts, n, d2)
    ensures d1 == d2
  {
    var i :| 0 <= i < |artifacts| && artifacts[i].role.DependencyWheel? && artifacts[i].entry.name == n && artifacts[i].digest == d1;
    var j :| 0 <= j < |artifacts| && artifacts[j].role.DependencyWheel? && artifacts[j].entry.name == n && artifacts[j].digest == d2;
    assert Entries(artifacts)[i].name == Entries(artifacts)[j].name;
  }

  lemma {:induction false} CatalogueExists(entries: seq<Closure.Entry>) returns (c: Closure.Catalogue)
    requires Closure.Distinct(entries)
    ensures Closure.CatalogueOf(entries, c)
  {
    if entries == [] {
      c := map[];
    } else {
      var n := |entries| - 1;
      var c0 := CatalogueExists(entries[..n]);
      c := c0[entries[n].name := entries[n]];
      assert forall i :: 0 <= i < n ==> entries[..n][i] == entries[i];
    }
  }

  /** A correct proof without defects, in the words of the acceptance rule. */
  lemma CleanMeans(c: Closure.Catalogue, t: Closure.Target, roots: set<string>, p: Closure.Proof)
    requires Closure.Correct(c, t, roots, {}, p)
    ensures p.unreachable == {} <==> forall n :: n in c ==> exists extra :: Closure.Reaches(c, t, roots, (n, extra))
    ensures p.missing == {} <==>
      forall q, j, m :: Closure.Reaches(c, t, roots, q) ==> !Closure.MissingBy(c, t, q, j, m)
    ensures p.unsatisfied == {} <==>
      forall q, j, m, s :: Closure.Reaches(c, t, roots, q) ==> !Closure.UnsatisfiedBy(c, t, q, j, m, s)
  {
    NoneUnreachable(c, t, roots, p);
    NoneMissing(c, t, roots, p);
    NoneUnsatisfied(c, t, roots, p);
  }

  lemma NoneUnreachable(c: Closure.Catalogue, t: Closure.Target, roots: set<string>, p: Closure.Proof)
    requires Closure.Correct(c, t, roots, {}, p)
    ensures p.unreachable == {} <==> forall n :: n in c ==> exists extra :: Closure.Reaches(c, t, roots, (n, extra))
  {
    if p.unreachable != {} {
      var n :| n in p.unreachable;
      assert n in c && n !in p.reachable;
    } else {
      forall n | n in c
        ensures n in p.reachable
      {
        assert n !in c.Keys - p.reachable;
      }
    }
  }

  lemma InMissing(c: Closure.Catalogue, t: Closure.Target, roots: set<string>, p: Closure.Proof, q: Closure.Pair, j: nat, m: string)
    requires Closure.Correct(c, t, roots, {}, p)
    requires Closure.Reaches(c, t, roots, q) && Closure.MissingBy(c, t, q, j, m)
    ensures (q.0, m) in p.missing
  {
    var x := (q.0, m);
    assert q == (q.0, q.1);
    assert Closure.Reaches(c, t, roots, (x.0, q.1)) && Closure.MissingBy(c, t, (x.0, q.1), j, x.1);
  }

  lemma NoneMissing(c: Closure.Catalogue, t: Closure.Target, roots: set<string>, p: Closure.Proof)
    requires Closure.Correct(c, t, roots, {}, p)
    ensures p.missing == {} <==>
      forall q, j, m :: Closure.Reaches(c, t, roots, q) ==> !Closure.MissingBy(c, t, q, j, m)
  {
    if exists q, j, m :: Closure.Reaches(c, t, roots, q) && Closure.MissingBy(c, t, q, j, m) {
      var q, j, m :| Closure.Reaches(c, t, roots, q) && Closure.MissingBy(c, t, q, j, m);
      InMissing(c, t, roots, p, q, j, m);
    }
    if p.missing != {} {
      var x :| x in p.missing;
      var extra, j :| Closure.Reaches(c, t, roots, (x.0, extra)) && Closure.MissingBy(c, t, (x.0, extra), j, x.1);
    }
  }

  lemma InUnsatisfied(
    c: Closure.Catalogue, t: Closure.Target, roots: set<string>, p: Closure.Proof, q: Closure.Pair, j: nat, m: string,
    s: Option<seq<VersionRanges.Clause>>)
    requires Closure.Correct(c, t, roots, {}, p)
    requires Closure.Reaches(c, t, roots, q) && Closure.UnsatisfiedBy(c, t, q, j, m, s)
    ensures (q.0, m, s) in p.unsatisfied
  {
    var x := (q.0, m, s);
    assert q == (q.0, q.1);
    assert Closure.Reaches(c, t, roots, (x.0, q.1)) && Closure.UnsatisfiedBy(c, t, (x.0, q.1), j, x.1, x.2);
  }

  lemma NoneUnsatisfied(c: Closure.Catalogue, t: Closure.Target, roots: set<string>, p: Closure.Proof)
    requires Closure.Correct(c, t, roots, {}, p)
    ensures p.unsatisfied == {} <==>
      forall q, j, m, s :: Closure.Reaches(c, t, roots, q) ==> !Closure.UnsatisfiedBy(c, t, q, j, m, s)
  {
    if exists q, j, m, s :: Closure.Reaches(c, t, roots, q) && Closure.UnsatisfiedBy(c, t, q, j, m, s) {
      var q, j, m, s :| Closure.Reaches(c, t, roots, q) && Closure.UnsatisfiedBy(c, t, q, j, m, s);
      InUnsatisfied(c, t, roots, p, q, j, m, s);
    }
    if p.unsatisfied != {} {
      var x :| x in p.unsatisfied;
      var extra, j :|
        Closure.Reaches(c, t, roots, (x.0, extra)) && Closure.UnsatisfiedBy(c, t, (x.0, extra), j, x.1, x.2);
    }
  }

  lemma RootsPresentMeans(entries: seq<Closure.Entry>, c: Closure.Catalogue)
    requires Closure.CatalogueOf(entries, c)
    ensures Closure.RootsPresent(entries, WORKSPACE) <==> Closure.Elements(WORKSPACE) <= c.Keys
  {
    if Closure.Elements(WORKSPACE) <= c.Keys {
      forall root | root in WORKSPACE
        ensures exists i :: 0 <= i < |entries| && entries[i].name == root
      {
        assert root in Closure.Elements(WORKSPACE);
      }
    }
  }

  /** The proof by itself: nothing missing, unsatisfied or unreachable, and nothing undecidable. */
  ghost predicate ClosedUnderRequirements(c: Closure.Catalogue, t: Closure.Target) {
    var roots := Closure.Elements(WORKSPACE);
    && !Closure.SomeRaises(c, t, roots)
    && (forall n :: n in c ==> exists extra :: Closure.Reaches(c, t, roots, (n, extra)))
    && (forall p, j, m :: Closure.Reaches(c, t, roots, p) ==> !Closure.MissingBy(c, t, p, j, m))
    && (forall p, j, m, s :: Closure.Reaches(c, t, roots, p) ==> !Closure.UnsatisfiedBy(c, t, p, j, m, s))
  }

  method CheckClosure(entries: seq<Closure.Entry>, t: Closure.Target) returns (ok: bool)
    ensures ok <==>
      Closure.Distinct(entries) && Closure.RootsPresent(entries, WORKSPACE) &&
      forall c :: Closure.CatalogueOf(entries, c) ==> ClosedUnderRequirements(c, t)
  {
    hide Closure.Correct, Closure.Reaches, Closure.SomeRaises, Closure.RootsPresent, Closure.Distinct;
    var result := Closure.ProveClosure(entries, WORKSPACE, t, {});
    if result.Duplicate? || result.MissingRoot? {
      return false;
    }
    ghost var c := CatalogueExists(entries);
    forall d | Closure.CatalogueOf(entries, d)
      ensures d == c
    {
      Closure.CatalogueUnique(entries, c, d);
    }
    if result.Undecided? {
      return false;
    }
    var proof := result.proof;
    CleanMeans(c, t, Closure.Elements(WORKSPACE), proof);
    ok := proof.missing == {} && proof.unsatisfied == {} && proof.unreachable == {};
  }

  function Built(record: Option<map<string, Build>>): map<string, Digest> {
    if record.None? then map[] else map n | n in record.value :: record.value[n].wheel
  }

  /** The lock and the build record explain every shipped dependency wheel. */
  ghost predicate LockAgrees(b: Bundle) {
    && b.pinned.Some?
    && (forall n :: n in b.pinned.value <==> exists digest :: ShipsDependency(b.artifacts, n, digest))
    && (b.record.Some? ==>
          && b.record.value != map[]
          && forall n :: n in b.record.value ==> n in b.pinned.value && b.record.value[n].sdist in b.pinned.value[n])
    && (forall n, digest :: ShipsDependency(b.artifacts, n, digest) ==> Explained(n, digest, b.pinned.value, Built(b.record)))
  }

  /** The declarative acceptance rule. */
  ghost predicate Acceptable(b: Bundle) {
    var entries := Entries(b.artifacts);
    && (forall i :: 0 <= i < |b.artifacts| ==> Admissible(b.artifacts[i]))
    && Closure.Distinct(entries) && Closure.RootsPresent(entries, WORKSPACE)
    && (forall c :: Closure.CatalogueOf(entries, c) ==> ClosedUnderRequirements(c, b.target))
    && LockAgrees(b)
  }

  method CheckLock(b: Bundle, digests: map<string, Digest>) returns (ok: bool)
    requires Closure.Distinct(Entries(b.artifacts))
    requires forall n :: n in digests <==> exists digest :: ShipsDependency(b.artifacts, n, digest)
    requires forall n :: n in digests ==> ShipsDependency(b.artifacts, n, digests[n])
    ensures ok <==> LockAgrees(b)
  {
    hide Explained, ShipsDependency, Entries, Closure.Distinct;
    if b.pinned.None? {
      return false;
    }
    if b.pinned.value.Keys != digests.Keys {
      assert exists n :: (n in b.pinned.value) != (n in digests);
      return false;
    }
    var recorded, built := ValidateSdistBuilds(b.record, b.pinned.value);
    if !recorded {
      return false;
    }
    var names := digests.Keys;
    while names != {}
      invariant names <= digests.Keys
      invariant forall n :: n in digests && n !in names ==> Explained(n, digests[n], b.pinned.value, built)
      decreases names
    {
      var name :| name in names;
      if !Explained(name, digests[name], b.pinned.value, built) {
        return false;
      }
      names := names - {name};
    }
    forall n, digest | ShipsDependency(b.artifacts, n, digest)
      ensures Explained(n, digest, b.pinned.value, built)
    {
      OneDigest(b.artifacts, n, digest, digests[n]);
    }
    return true;
  }

  /** `_validate_dependency_closure` accepts exactly the acceptable bundles. */
  method ValidateDependencyClosure(b: Bundle) returns (accepted: bool)
    ensures accepted <==> Acceptable(b)
  {
    hide Closure.Distinct, Closure.RootsPresent, ClosedUnderRequirements, LockAgrees;
    var ok, entries, digests := CollectArtifacts(b.artifacts);
    if !ok {
      return false;
    }
    var closed := CheckClosure(entries, b.target);
    if !closed {
      return false;
    }
    accepted := CheckLock(b, digests);
  }

  /** The shipped distributions are exactly the closure of the workspace roots. */
  ghost predicate ShipsExactlyTheClosure(c: Closure.Catalogue, t: Closure.Target) {
    forall n :: n in c <==> exists extra :: Closure.Reaches(c, t, Closure.Elements(WORKSPACE), (n, extra))
  }

  /**
   The dependency wheels' names are exactly the lock's; every dependency digest is pinned by the lock
   or named by a record that cites a pinned sdist; and every recorded name is a shipped dependency
   wheel with the recorded digest.
   */
  ghost predicate EveryDigestExplained(b: Bundle) {
    && b.pinned.Some?
    && (forall n :: n in b.pinned.value <==> exists digest :: ShipsDependency(b.artifacts, n, digest))
    && (forall n, digest :: ShipsDependency(b.artifacts, n, digest) ==>
          digest in b.pinned.value[n] || RecordNames(b.record, b.pinned.value, n, digest))
    && (b.record.Some? ==> forall n :: n in b.record.value ==> ShipsDependency(b.artifacts, n, b.record.value[n].wheel))
  }

  predicate RecordNames(record: Option<map<string, Build>>, pinned: map<string, set<Digest>>, n: string, digest: Digest) {
    && record.Some? && n in record.value && n in pinned
    && record.value[n].wheel == digest && record.value[n].sdist in pinned[n]
  }

  /** What acceptance means. */
  lemma AcceptedBundle(b: Bundle, c: Closure.Catalogue)
    requires Acceptable(b) && Closure.CatalogueOf(Entries(b.artifacts), c)
    ensures ShipsExactlyTheClosure(c, b.target) && EveryDigestExplained(b)
  {
    hide LockAgrees, EveryDigestExplained;
    RootsPresentMeans(Entries(b.artifacts), c);
    LockMeans(b);
    ClosedMeans(c, b.target);
  }

  lemma ClosedMeans(c: Closure.Catalogue, t: Closure.Target)
    requires ClosedUnderRequirements(c, t) && Closure.Elements(WORKSPACE) <= c.Keys
    ensures ShipsExactlyTheClosure(c, t)
  {
    forall n, extra | Closure.Reaches(c, t, Closure.Elements(WORKSPACE), (n, extra))
      ensures n in c
    {
      ReachedShips(c, t, Closure.Elements(WORKSPACE), n, extra);
    }
  }

  lemma LockMeans(b: Bundle)
    requires LockAgrees(b)
    ensures EveryDigestExplained(b)
  {
    forall n, digest | ShipsDependency(b.artifacts, n, digest)
      ensures digest in b.pinned.value[n] || RecordNames(b.record, b.pinned.value, n, digest)
    {
      assert Explained(n, digest, b.pinned.value, Built(b.record));
    }
    if b.record.Some? {
      forall n | n in b.record.value
        ensures ShipsDependency(b.artifacts, n, b.record.value[n].wheel)
      {
        var digest :| ShipsDependency(b.artifacts, n, digest);
        assert Explained(n, digest, b.pinned.value, Built(b.record));
      }
    }
  }

  lemma ReachedShips(c: Closure.Catalogue, t: Closure.Target, roots: set<string>, n: string, extra: string)
    requires roots <= c.Keys && Closure.Reaches(c, t, roots, (n, extra))
    ensures n in c
  {
    var path :| Closure.PathTo(c, t, roots, path, (n, extra));
    if |path| > 1 {
      assert Closure.Leads(c, t, path[|path| - 2], path[|path| - 1]);
      var j :| Closure.LeadsBy(c, t, path[|path| - 2], j, (n, extra));
    }
  }
}
