/**
 The closure proof: which distributions the roots require, transitively, through active requirements.

 Names are already normalized.  A requirement that could not be split is `None`; a marker is given
 by its tokens.
 */
module Closure {
  import opened Options
  import Markers
  import MarkerValues
  import VersionOrder
  import VersionRanges

  datatype Requirement = Requirement(
    name: string,
    extras: seq<string>,
    specifier: Option<seq<VersionRanges.Clause>>,
    marker: Option<seq<Markers.Token>>)

  datatype Entry = Entry(name: string, version: Option<VersionOrder.Version>, requires_dist: seq<Option<Requirement>>)

  /** A walked pair: a distribution, and the extra it was reached through or the empty string. */
  type Pair = (string, string)

  type Catalogue = map<string, Entry>

  datatype Target = Target(environment: MarkerValues.Environment, versions: MarkerValues.Versions)

  datatype Status = Inactive | Active | Undecidable

  function StatusOf(target: Target, requirement: Option<Requirement>, extra: string): Status {
    if requirement.None? then Undecidable
    else if requirement.value.marker.None? then Active
    else
      match Markers.Parse(requirement.value.marker.value)
      case Fail(_) => Undecidable
      case Ok(m, _) =>
        match MarkerValues.Evaluate(target.versions, m, target.environment, extra)
        case Unsupported => Undecidable
        case Decided(b) => if b then Active else Inactive
  }

  datatype Fit = Fits | Misfits | CannotTell

  /** Whether the catalogue's own version satisfies the specifier, an empty one being always satisfied. */
  function FitOf(entry: Entry, specifier: Option<seq<VersionRanges.Clause>>): Fit {
    if specifier == Some([]) then Fits
    else if specifier.None? || entry.version.None? then CannotTell
    else
      match VersionRanges.Satisfies(entry.version.value, specifier.value)
      case Unsupported => CannotTell
      case Decided(b) => if b then Fits else Misfits
  }

  // ----- The specification

  /** Requirement `j` of the distribution applies in the pass of the pair's extra. */
  predicate Applies(c: Catalogue, t: Target, p: Pair, j: nat) {
    p.0 in c && j < |c[p.0].requires_dist| && StatusOf(t, c[p.0].requires_dist[j], p.1) == Active
  }

  function RequirementAt(c: Catalogue, t: Target, p: Pair, j: nat): Requirement
    requires Applies(c, t, p, j)
  {
    c[p.0].requires_dist[j].value
  }

  /** Requirement `j` of `p` leads to `q`: its distribution, plainly or through one of its extras. */
  predicate LeadsBy(c: Catalogue, t: Target, p: Pair, j: nat, q: Pair) {
    && Applies(c, t, p, j)
    && RequirementAt(c, t, p, j).name == q.0 && q.0 in c
    && (q.1 == "" || q.1 in RequirementAt(c, t, p, j).extras)
  }

  ghost predicate Leads(c: Catalogue, t: Target, p: Pair, q: Pair) {
    exists j :: LeadsBy(c, t, p, j, q)
  }

  ghost predicate IsPath(c: Catalogue, t: Target, roots: set<string>, path: seq<Pair>) {
    && path != [] && path[0].0 in roots && path[0].1 == ""
    && forall i :: 0 < i < |path| ==> Leads(c, t, path[i - 1], path[i])
  }

  ghost predicate PathTo(c: Catalogue, t: Target, roots: set<string>, path: seq<Pair>, q: Pair) {
    IsPath(c, t, roots, path) && path[|path| - 1] == q
  }

  ghost predicate Reaches(c: Catalogue, t: Target, roots: set<string>, q: Pair) {
    exists path :: PathTo(c, t, roots, path, q)
  }

  /** Walking the pair raises: a requirement or its marker, or a specifier on a shipped target, cannot be decided. */
  predicate RaisesBy(c: Catalogue, t: Target, p: Pair, j: nat) {
    p.0 in c && j < |c[p.0].requires_dist| &&
    (StatusOf(t, c[p.0].requires_dist[j], p.1) == Undecidable ||
     (Applies(c, t, p, j) && RequirementAt(c, t, p, j).name in c &&
      FitOf(c[RequirementAt(c, t, p, j).name], RequirementAt(c, t, p, j).specifier) == CannotTell))
  }

  predicate MissingBy(c: Catalogue, t: Target, p: Pair, j: nat, name: string) {
    Applies(c, t, p, j) && RequirementAt(c, t, p, j).name == name && name !in c
  }

  predicate UnsatisfiedBy(c: Catalogue, t: Target, p: Pair, j: nat, name: string, specifier: Option<seq<VersionRanges.Clause>>) {
    && Applies(c, t, p, j) && RequirementAt(c, t, p, j).name == name && name in c
    && RequirementAt(c, t, p, j).specifier == specifier
    && FitOf(c[name], specifier) == Misfits
  }

  datatype Proof = Proof(
    reachable: set<string>,
    unreachable: set<string>,
    missing: set<(string, string)>,
    unsatisfied: set<(string, string, Option<seq<VersionRanges.Clause>>)>,
    forbidden: set<string>)

  datatype Result = Proved(proof: Proof) | Duplicate(name: string) | MissingRoot(name: string) | Undecided

  /** The proof says exactly what the walk over reachable pairs finds. */
  ghost predicate Correct(c: Catalogue, t: Target, roots: set<string>, forbidden: set<string>, p: Proof) {
    && (forall n :: n in p.reachable <==> exists extra :: Reaches(c, t, roots, (n, extra)))
    && p.unreachable == c.Keys - p.reachable
    && (forall x :: x in p.missing <==>
          exists extra, j :: Reaches(c, t, roots, (x.0, extra)) && MissingBy(c, t, (x.0, extra), j, x.1))
    && (forall x :: x in p.unsatisfied <==>
          exists extra, j :: Reaches(c, t, roots, (x.0, extra)) && UnsatisfiedBy(c, t, (x.0, extra), j, x.1, x.2))
    && p.forbidden == c.Keys * forbidden
  }

  ghost predicate CatalogueOf(entries: seq<Entry>, c: Catalogue) {
    && (forall i :: 0 <= i < |entries| ==> entries[i].name in c && c[entries[i].name] == entries[i])
    && (forall n :: n in c ==> exists i :: 0 <= i < |entries| && entries[i].name == n)
  }

  // ----- Reachability is a least fixed point

  lemma RootReached(c: Catalogue, t: Target, roots: set<string>, root: string)
    requires root in roots
    ensures Reaches(c, t, roots, (root, ""))
  {
    assert PathTo(c, t, roots, [(root, "")], (root, ""));
  }

  lemma StepReached(c: Catalogue, t: Target, roots: set<string>, p: Pair, q: Pair)
    requires Reaches(c, t, roots, p) && Leads(c, t, p, q)
    ensures Reaches(c, t, roots, q)
  {
    var path :| PathTo(c, t, roots, path, p);
    assert PathTo(c, t, roots, path + [q], q);
  }

  ghost predicate Closed(c: Catalogue, t: Target, roots: set<string>, s: set<Pair>) {
    && (forall root :: root in roots ==> (root, "") in s)
    && (forall p, q :: p in s && Leads(c, t, p, q) ==> q in s)
  }

  /** Every set that holds the roots and is closed under active requirements holds everything reachable. */
  lemma ReachedIsLeast(c: Catalogue, t: Target, roots: set<string>, s: set<Pair>, q: Pair)
    requires Closed(c, t, roots, s) && Reaches(c, t, roots, q)
    ensures q in s
  {
    var path :| PathTo(c, t, roots, path, q);
    PathStays(c, t, roots, s, path, |path| - 1);
  }

  lemma {:induction false} PathStays(c: Catalogue, t: Target, roots: set<string>, s: set<Pair>, path: seq<Pair>, i: nat)
    requires Closed(c, t, roots, s) && IsPath(c, t, roots, path) && i < |path|
    ensures path[i] in s
  {
    if i == 0 {
      assert path[0] == (path[0].0, "");
    } else {
      PathStays(c, t, roots, s, path, i - 1);
    }
  }

  /** A distribution reached through an extra is reached plainly too. */
  lemma PlainReached(c: Catalogue, t: Target, roots: set<string>, n: string, extra: string)
    requires Reaches(c, t, roots, (n, extra))
    ensures Reaches(c, t, roots, (n, ""))
  {
    var path :| PathTo(c, t, roots, path, (n, extra));
    if |path| > 1 {
      var before := path[..|path| - 1];
      var p := path[|path| - 2];
      assert PathTo(c, t, roots, before, p);
      assert Leads(c, t, p, path[|path| - 1]);
      var j :| LeadsBy(c, t, p, j, (n, extra));
      assert LeadsBy(c, t, p, j, (n, ""));
      StepReached(c, t, roots, p, (n, ""));
    }
  }

  /** A set of distributions without a root and without an active requirement from outside stays unreachable. */
  lemma SmuggledStayUnreachable(c: Catalogue, t: Target, roots: set<string>, smuggled: set<string>, n: string, extra: string)
    requires roots !! smuggled && n in smuggled
    requires forall p: Pair, q: Pair :: p.0 !in smuggled && Leads(c, t, p, q) ==> q.0 !in smuggled
    ensures !Reaches(c, t, roots, (n, extra))
  {
    if Reaches(c, t, roots, (n, extra)) {
      var path :| PathTo(c, t, roots, path, (n, extra));
      PathAvoids(c, t, roots, smuggled, path, |path| - 1);
    }
  }

  lemma {:induction false} PathAvoids(c: Catalogue, t: Target, roots: set<string>, smuggled: set<string>, path: seq<Pair>, i: nat)
    requires roots !! smuggled && IsPath(c, t, roots, path) && i < |path|
    requires forall p: Pair, q: Pair :: p.0 !in smuggled && Leads(c, t, p, q) ==> q.0 !in smuggled
    ensures path[i].0 !in smuggled
  {
    if i > 0 {
      PathAvoids(c, t, roots, smuggled, path, i - 1);
    }
  }

  // ----- Order does not matter

  /** The same distributions, each with the same requirements in whatever order. */
  ghost predicate SameContent(c: Catalogue, d: Catalogue) {
    && c.Keys == d.Keys
    && forall n :: n in c ==>
         c[n].version == d[n].version && forall r :: r in c[n].requires_dist <==> r in d[n].requires_dist
  }

  lemma SameRequirement(c: Catalogue, d: Catalogue, t: Target, p: Pair, j: nat) returns (k: nat)
    requires SameContent(c, d) && Applies(c, t, p, j)
    ensures Applies(d, t, p, k) && RequirementAt(d, t, p, k) == RequirementAt(c, t, p, j)
  {
    assert c[p.0].requires_dist[j] in c[p.0].requires_dist;
    k :| 0 <= k < |d[p.0].requires_dist| && d[p.0].requires_dist[k] == c[p.0].requires_dist[j];
  }

  lemma SameLeads(c: Catalogue, d: Catalogue, t: Target, p: Pair, q: Pair)
    requires SameContent(c, d) && Leads(c, t, p, q)
    ensures Leads(d, t, p, q)
  {
    var j :| LeadsBy(c, t, p, j, q);
    var k := SameRequirement(c, d, t, p, j);
    assert LeadsBy(d, t, p, k, q);
  }

  lemma SameReach(c: Catalogue, d: Catalogue, t: Target, roots: set<string>, q: Pair)
    requires SameContent(c, d) && Reaches(c, t, roots, q)
    ensures Reaches(d, t, roots, q)
  {
    var path :| PathTo(c, t, roots, path, q);
    forall i | 0 < i < |path|
      ensures Leads(d, t, path[i - 1], path[i])
    {
      SameLeads(c, d, t, path[i - 1], path[i]);
    }
    assert PathTo(d, t, roots, path, q);
  }

  lemma SameMissing(c: Catalogue, d: Catalogue, t: Target, roots: set<string>, n: string, extra: string, j: nat, m: string)
    requires SameContent(c, d) && Reaches(c, t, roots, (n, extra)) && MissingBy(c, t, (n, extra), j, m)
    ensures exists e, k :: Reaches(d, t, roots, (n, e)) && MissingBy(d, t, (n, e), k, m)
  {
    SameReach(c, d, t, roots, (n, extra));
    var k := SameRequirement(c, d, t, (n, extra), j);
    assert MissingBy(d, t, (n, extra), k, m);
  }

  lemma SameUnsatisfied(
    c: Catalogue, d: Catalogue, t: Target, roots: set<string>, n: string, extra: string, j: nat, m: string,
    s: Option<seq<VersionRanges.Clause>>)
    requires SameContent(c, d) && Reaches(c, t, roots, (n, extra)) && UnsatisfiedBy(c, t, (n, extra), j, m, s)
    ensures exists e, k :: Reaches(d, t, roots, (n, e)) && UnsatisfiedBy(d, t, (n, e), k, m, s)
  {
    SameReach(c, d, t, roots, (n, extra));
    var k := SameRequirement(c, d, t, (n, extra), j);
    assert UnsatisfiedBy(d, t, (n, extra), k, m, s);
  }

  /** Correct proofs over the same content are equal: entry, requirement and root order play no part. */
  lemma OrderIrrelevant(c: Catalogue, d: Catalogue, t: Target, roots: set<string>, forbidden: set<string>, p: Proof, q: Proof)
    requires SameContent(c, d) && Correct(c, t, roots, forbidden, p) && Correct(d, t, roots, forbidden, q)
    ensures p == q
  {
    Included(c, d, t, roots, forbidden, p, q);
    Included(d, c, t, roots, forbidden, q, p);
    assert p.reachable == q.reachable;
    assert p.missing == q.missing;
    assert p.unsatisfied == q.unsatisfied;
  }

  lemma Included(c: Catalogue, d: Catalogue, t: Target, roots: set<string>, forbidden: set<string>, p: Proof, q: Proof)
    requires SameContent(c, d) && Correct(c, t, roots, forbidden, p) && Correct(d, t, roots, forbidden, q)
    ensures p.reachable <= q.reachable && p.missing <= q.missing && p.unsatisfied <= q.unsatisfied
  {
    forall n | n in p.reachable
      ensures n in q.reachable
    {
      var extra :| Reaches(c, t, roots, (n, extra));
      SameReach(c, d, t, roots, (n, extra));
    }
    forall x | x in p.missing
      ensures x in q.missing
    {
      var extra, j :| Reaches(c, t, roots, (x.0, extra)) && MissingBy(c, t, (x.0, extra), j, x.1);
      SameMissing(c, d, t, roots, x.0, extra, j, x.1);
    }
    forall x | x in p.unsatisfied
      ensures x in q.unsatisfied
    {
      var extra, j :| Reaches(c, t, roots, (x.0, extra)) && UnsatisfiedBy(c, t, (x.0, extra), j, x.1, x.2);
      SameUnsatisfied(c, d, t, roots, x.0, extra, j, x.1, x.2);
    }
  }

  // ----- The worklist

  /** Every pair the walk can come across: finite, so the walk ends. */
  ghost function Universe(c: Catalogue): set<Pair> {
    (set n | n in c.Keys :: (n, ""))
    + (set n, m, j, x | n in c.Keys && m in c.Keys && 0 <= j < |c[m].requires_dist|
         && c[m].requires_dist[j].Some? && x in c[m].requires_dist[j].value.extras :: (n, x))
  }

  type Missings = set<(string, string)>

  type Unsatisfieds = set<(string, string, Option<seq<VersionRanges.Clause>>)>

  /** `missing'` adds to `missing` exactly the defects of the first `n` requirements of `p`. */
  ghost predicate AddsMissing(c: Catalogue, t: Target, p: Pair, n: nat, missing: Missings, missing': Missings) {
    forall x :: x in missing' <==> x in missing || (x.0 == p.0 && exists j: nat :: j < n && MissingBy(c, t, p, j, x.1))
  }

  ghost predicate AddsUnsatisfied(c: Catalogue, t: Target, p: Pair, n: nat, unsatisfied: Unsatisfieds, unsatisfied': Unsatisfieds) {
    forall x :: x in unsatisfied' <==>
      x in unsatisfied || (x.0 == p.0 && exists j: nat :: j < n && UnsatisfiedBy(c, t, p, j, x.1, x.2))
  }

  ghost predicate AddsPairs(c: Catalogue, t: Target, p: Pair, n: nat, added: seq<Pair>) {
    forall q :: q in added <==> exists j: nat :: j < n && LeadsBy(c, t, p, j, q)
  }

  /** Follows the requirements of one pair: the body of the walk. */
  method Follow(c: Catalogue, t: Target, p: Pair, missing: Missings, unsatisfied: Unsatisfieds)
    returns (ok: bool, added: seq<Pair>, missing': Missings, unsatisfied': Unsatisfieds)
    requires p.0 in c
    ensures ok <==> forall j :: !RaisesBy(c, t, p, j)
    ensures ok ==>
      var n := |c[p.0].requires_dist|;
      && AddsPairs(c, t, p, n, added)
      && AddsMissing(c, t, p, n, missing, missing')
      && AddsUnsatisfied(c, t, p, n, unsatisfied, unsatisfied')
  {
    ActiveIsRead(c, t, p);
    hide StatusOf, FitOf;
    var requirements := c[p.0].requires_dist;
    added, missing', unsatisfied' := [], missing, unsatisfied;
    for i := 0 to |requirements|
      invariant forall j: nat :: j < i ==> !RaisesBy(c, t, p, j)
      invariant AddsPairs(c, t, p, i, added)
      invariant AddsMissing(c, t, p, i, missing, missing')
      invariant AddsUnsatisfied(c, t, p, i, unsatisfied, unsatisfied')
    {
      var status := StatusOf(t, requirements[i], p.1);
      if status == Undecidable {
        assert RaisesBy(c, t, p, i);
        return false, added, missing', unsatisfied';
      }
      if status == Active {
        assert Applies(c, t, p, i);
        var requirement := requirements[i].value;
        if requirement.name !in c {
          missing' := missing' + {(p.0, requirement.name)};
          assert MissingBy(c, t, p, i, requirement.name);
        } else {
          var fit := FitOf(c[requirement.name], requirement.specifier);
          if fit == CannotTell {
            assert RaisesBy(c, t, p, i);
            return false, added, missing', unsatisfied';
          }
          if fit == Misfits {
            unsatisfied' := unsatisfied' + {(p.0, requirement.name, requirement.specifier)};
            assert UnsatisfiedBy(c, t, p, i, requirement.name, requirement.specifier);
          }
          var more := seq(|requirement.extras|, k requires 0 <= k < |requirement.extras| => (requirement.name, requirement.extras[k]));
          assert forall q: Pair :: q in more <==> q.0 == requirement.name && q.1 in requirement.extras by {
            forall q: Pair | q.0 == requirement.name && q.1 in requirement.extras
              ensures q in more
            {
              var k :| 0 <= k < |requirement.extras| && requirement.extras[k] == q.1;
              assert more[k] == q;
            }
          }
          ghost var before := added;
          added := added + ([(requirement.name, "")] + more);
          assert forall q: Pair :: LeadsBy(c, t, p, i, q) <==> q in [(requirement.name, "")] + more;
          MorePairs(c, t, p, i, before, [(requirement.name, "")] + more);
        }
      }
    }
    ok := true;
  }

  lemma ActiveIsRead(c: Catalogue, t: Target, p: Pair)
    ensures forall j: nat :: Applies(c, t, p, j) ==> c[p.0].requires_dist[j].Some?
  {
  }

  lemma MorePairs(c: Catalogue, t: Target, p: Pair, i: nat, added: seq<Pair>, more: seq<Pair>)
    requires AddsPairs(c, t, p, i, added) && forall q: Pair :: LeadsBy(c, t, p, i, q) <==> q in more
    ensures AddsPairs(c, t, p, i + 1, added + more)
  {
    forall q: Pair
      ensures q in added + more <==> exists j: nat :: j < i + 1 && LeadsBy(c, t, p, j, q)
    {
      if q in more {
        assert LeadsBy(c, t, p, i, q);
      }
    }
  }

  // ----- The walk

  ghost predicate Listed(frontier: seq<Pair>, visited: set<Pair>, q: Pair) {
    q in frontier || q in visited
  }

  /** What holds whenever the walk takes its next pair. */
  ghost predicate Walking(c: Catalogue, t: Target, roots: set<string>, frontier: seq<Pair>, visited: set<Pair>) {
    && (forall q :: Listed(frontier, visited, q) ==> Reaches(c, t, roots, q) && q in Universe(c))
    && (forall root :: root in roots ==> Listed(frontier, visited, (root, "")))
    && (forall p, q :: p in visited && Leads(c, t, p, q) ==> Listed(frontier, visited, q))
    && (forall p, j :: p in visited ==> !RaisesBy(c, t, p, j))
  }

  ghost predicate MissingOver(c: Catalogue, t: Target, visited: set<Pair>, missing: Missings) {
    forall x :: x in missing <==> exists extra, j :: (x.0, extra) in visited && MissingBy(c, t, (x.0, extra), j, x.1)
  }

  ghost predicate UnsatisfiedOver(c: Catalogue, t: Target, visited: set<Pair>, unsatisfied: Unsatisfieds) {
    forall x :: x in unsatisfied <==>
      exists extra, j :: (x.0, extra) in visited && UnsatisfiedBy(c, t, (x.0, extra), j, x.1, x.2)
  }

  lemma LeadsInUniverse(c: Catalogue, t: Target, p: Pair, j: nat, q: Pair)
    requires LeadsBy(c, t, p, j, q)
    ensures q in Universe(c)
  {
    if q.1 == "" {
      assert q == (q.0, "");
    } else {
      assert q == (q.0, q.1) && c[p.0].requires_dist[j].Some?;
    }
  }

  lemma UniverseNames(c: Catalogue, q: Pair)
    requires q in Universe(c)
    ensures q.0 in c
  {
  }

  lemma WalkOn(c: Catalogue, t: Target, roots: set<string>, frontier: seq<Pair>, p: Pair, added: seq<Pair>, visited: set<Pair>)
    requires Walking(c, t, roots, frontier + [p], visited) && p.0 in c
    requires AddsPairs(c, t, p, |c[p.0].requires_dist|, added) && forall j :: !RaisesBy(c, t, p, j)
    ensures Walking(c, t, roots, frontier + added, visited + {p})
  {
    var frontier', visited' := frontier + added, visited + {p};
    assert forall q :: Listed(frontier + [p], visited, q) ==> Listed(frontier', visited', q);
    forall q | Listed(frontier', visited', q)
      ensures Reaches(c, t, roots, q) && q in Universe(c)
    {
      if q in added {
        var j: nat :| j < |c[p.0].requires_dist| && LeadsBy(c, t, p, j, q);
        LeadsInUniverse(c, t, p, j, q);
        assert Listed(frontier + [p], visited, p);
        StepReached(c, t, roots, p, q);
      } else {
        assert Listed(frontier + [p], visited, q);
      }
    }
    forall q | Leads(c, t, p, q)
      ensures Listed(frontier', visited', q)
    {
      var j :| LeadsBy(c, t, p, j, q);
      assert q in added;
    }
  }

  /** The worklist walk over (distribution, extra) pairs. */
  method Walk(c: Catalogue, t: Target, roots: seq<string>)
    returns (ok: bool, reachable: set<string>, missing: Missings, unsatisfied: Unsatisfieds)
    requires forall root :: root in roots ==> root in c
    ensures ok <==> forall p, j :: Reaches(c, t, Elements(roots), p) ==> !RaisesBy(c, t, p, j)
    ensures ok ==> Correct(c, t, Elements(roots), {}, Proof(reachable, c.Keys - reachable, missing, unsatisfied, {}))
  {
    hide Walking, Reaches, RaisesBy, Correct, MissingOver, UnsatisfiedOver, AddsPairs, AddsMissing, AddsUnsatisfied;
    var visited: set<Pair> := {};
    reachable, missing, unsatisfied := {}, {}, {};
    var frontier := seq(|roots|, i requires 0 <= i < |roots| => (roots[i], ""));
    Started(c, t, roots, frontier);
    NothingWrong(c, t);
    while frontier != []
      invariant Walking(c, t, Elements(roots), frontier, visited)
      invariant forall n :: n in reachable <==> exists extra :: (n, extra) in visited
      invariant MissingOver(c, t, visited, missing) && UnsatisfiedOver(c, t, visited, unsatisfied)
      decreases Universe(c) - visited, |frontier|
    {
      var current := frontier[|frontier| - 1];
      assert frontier == frontier[..|frontier| - 1] + [current];
      FrontReached(c, t, Elements(roots), frontier, visited, current);
      frontier := frontier[..|frontier| - 1];
      if current in visited {
        VisitedDropped(c, t, Elements(roots), frontier, current, visited);
        continue;
      }
      UniverseNames(c, current);
      var good, added, missing', unsatisfied' := Follow(c, t, current, missing, unsatisfied);
      if !good {
        return false, reachable, missing, unsatisfied;
      }
      WalkOn(c, t, Elements(roots), frontier, current, added, visited);
      MissingGrows(c, t, visited, current, missing, missing');
      UnsatisfiedGrows(c, t, visited, current, unsatisfied, unsatisfied');
      visited := visited + {current};
      reachable := reachable + {current.0};
      ReachableGrows(visited, current);
      missing, unsatisfied := missing', unsatisfied';
      frontier := frontier + added;
    }
    ok := true;
    WalkEnds(c, t, Elements(roots), visited, reachable, missing, unsatisfied);
  }

  /** With nothing left to visit, what was visited is exactly what is reachable. */
  lemma WalkEnds(
    c: Catalogue, t: Target, roots: set<string>, visited: set<Pair>, reachable: set<string>, missing: Missings,
    unsatisfied: Unsatisfieds)
    requires Walking(c, t, roots, [], visited)
    requires forall n :: n in reachable <==> exists extra :: (n, extra) in visited
    requires MissingOver(c, t, visited, missing) && UnsatisfiedOver(c, t, visited, unsatisfied)
    ensures Correct(c, t, roots, {}, Proof(reachable, c.Keys - reachable, missing, unsatisfied, {}))
    ensures forall p, j :: Reaches(c, t, roots, p) ==> !RaisesBy(c, t, p, j)
  {
    forall q
      ensures Reaches(c, t, roots, q) <==> q in visited
    {
      if Reaches(c, t, roots, q) { ReachedIsLeast(c, t, roots, visited, q); }
      if q in visited { assert Listed([], visited, q); }
    }
    hide Reaches, MissingBy, UnsatisfiedBy, RaisesBy;
  }

  lemma NothingWrong(c: Catalogue, t: Target)
    ensures MissingOver(c, t, {}, {}) && UnsatisfiedOver(c, t, {}, {})
  {
  }

  lemma FrontReached(c: Catalogue, t: Target, roots: set<string>, frontier: seq<Pair>, visited: set<Pair>, p: Pair)
    requires Walking(c, t, roots, frontier, visited) && p in frontier
    ensures Reaches(c, t, roots, p) && p in Universe(c)
  {
    hide Reaches, Leads, RaisesBy;
    assert Listed(frontier, visited, p);
  }

  /** A pair on the frontier that was visited before can be dropped. */
  lemma VisitedDropped(c: Catalogue, t: Target, roots: set<string>, frontier: seq<Pair>, p: Pair, visited: set<Pair>)
    requires Walking(c, t, roots, frontier + [p], visited) && p in visited
    ensures Walking(c, t, roots, frontier, visited)
  {
    hide Reaches, Leads, RaisesBy;
    assert forall q :: Listed(frontier, visited, q) <==> Listed(frontier + [p], visited, q);
  }

  function Elements(roots: seq<string>): set<string> {
    set root | root in roots
  }

  lemma Started(c: Catalogue, t: Target, roots: seq<string>, frontier: seq<Pair>)
    requires forall root :: root in roots ==> root in c
    requires frontier == seq(|roots|, i requires 0 <= i < |roots| => (roots[i], ""))
    ensures Walking(c, t, Elements(roots), frontier, {})
  {
    forall root | root in Elements(roots)
      ensures Listed(frontier, {}, (root, ""))
    {
      var i :| 0 <= i < |roots| && roots[i] == root;
      assert frontier[i] == (root, "");
    }
    forall q | Listed(frontier, {}, q)
      ensures Reaches(c, t, Elements(roots), q) && q in Universe(c)
    {
      var i :| 0 <= i < |frontier| && frontier[i] == q;
      RootReached(c, t, Elements(roots), roots[i]);
    }
  }

  lemma ReachableGrows(visited: set<Pair>, p: Pair)
    requires p in visited
    ensures exists extra :: (p.0, extra) in visited
  {
    assert (p.0, p.1) in visited;
  }

  lemma MissingGrows(c: Catalogue, t: Target, visited: set<Pair>, p: Pair, missing: Missings, missing': Missings)
    requires p.0 in c && MissingOver(c, t, visited, missing)
    requires AddsMissing(c, t, p, |c[p.0].requires_dist|, missing, missing')
    ensures MissingOver(c, t, visited + {p}, missing')
  {
    forall x
      ensures x in missing' <==> exists extra, j :: (x.0, extra) in visited + {p} && MissingBy(c, t, (x.0, extra), j, x.1)
    {
      if x in missing' && x !in missing {
        var j: nat :| j < |c[p.0].requires_dist| && MissingBy(c, t, p, j, x.1);
        assert (x.0, p.1) in visited + {p} && MissingBy(c, t, (x.0, p.1), j, x.1);
      }
    }
  }

  lemma UnsatisfiedGrows(c: Catalogue, t: Target, visited: set<Pair>, p: Pair, unsatisfied: Unsatisfieds, unsatisfied': Unsatisfieds)
    requires p.0 in c && UnsatisfiedOver(c, t, visited, unsatisfied)
    requires AddsUnsatisfied(c, t, p, |c[p.0].requires_dist|, unsatisfied, unsatisfied')
    ensures UnsatisfiedOver(c, t, visited + {p}, unsatisfied')
  {
    forall x
      ensures x in unsatisfied' <==>
        exists extra, j :: (x.0, extra) in visited + {p} && UnsatisfiedBy(c, t, (x.0, extra), j, x.1, x.2)
    {
      if x in unsatisfied' && x !in unsatisfied {
        var j: nat :| j < |c[p.0].requires_dist| && UnsatisfiedBy(c, t, p, j, x.1, x.2);
        assert (x.0, p.1) in visited + {p} && UnsatisfiedBy(c, t, (x.0, p.1), j, x.1, x.2);
      }
    }
  }

  lemma OneEntry(entries: seq<Entry>, i: nat, c: Catalogue)
    requires i < |entries| && CatalogueOf(entries[..i], c) && entries[i].name !in c
    ensures CatalogueOf(entries[..i + 1], c[entries[i].name := entries[i]])
    ensures forall k :: 0 <= k < i ==> entries[k].name != entries[i].name
  {
    var before, after := entries[..i], entries[..i + 1];
    assert after == before + [entries[i]];
    forall k | 0 <= k < i
      ensures entries[k].name != entries[i].name
    {
      assert before[k] == entries[k];
    }
  }

  /** Reads the catalogue off the entries, refusing a name that comes twice. */
  method ReadCatalogue(entries: seq<Entry>) returns (c: Catalogue, duplicate: Option<string>)
    ensures duplicate.None? ==> CatalogueOf(entries, c)
    ensures duplicate.Some? ==>
      exists i, j :: 0 <= i < j < |entries| && entries[i].name == entries[j].name == duplicate.value
    ensures duplicate.None? <==> forall i, j :: 0 <= i < j < |entries| ==> entries[i].name != entries[j].name
  {
    c := map[];
    duplicate := None;
    for i := 0 to |entries|
      invariant CatalogueOf(entries[..i], c)
      invariant forall k, j :: 0 <= k < j < i ==> entries[k].name != entries[j].name
    {
      var name := entries[i].name;
      if name in c {
        var k :| 0 <= k < |entries[..i]| && entries[..i][k].name == name;
        assert entries[k].name == entries[i].name;
        return c, Some(name);
      }
      OneEntry(entries, i, c);
      c := c[name := entries[i]];
    }
    assert entries[..|entries|] == entries;
  }

  ghost predicate Distinct(entries: seq<Entry>) {
    forall i, j :: 0 <= i < j < |entries| ==> entries[i].name != entries[j].name
  }

  ghost predicate RootsPresent(entries: seq<Entry>, roots: seq<string>) {
    forall root :: root in roots ==> exists i :: 0 <= i < |entries| && entries[i].name == root
  }

  /** A reachable pair whose requirements cannot all be decided. */
  ghost predicate SomeRaises(c: Catalogue, t: Target, roots: set<string>) {
    exists p, j :: Reaches(c, t, roots, p) && RaisesBy(c, t, p, j)
  }

  /**
   `prove_closure`: which error, if any, and otherwise a proof that is exactly the least fixed point
   with exactly its defects.
   */
  method ProveClosure(entries: seq<Entry>, roots: seq<string>, t: Target, forbidden: set<string>) returns (r: Result)
    ensures r.Duplicate? <==> !Distinct(entries)
    ensures r.Duplicate? ==> exists i, j :: 0 <= i < j < |entries| && entries[i].name == entries[j].name == r.name
    ensures r.MissingRoot? <==> Distinct(entries) && !RootsPresent(entries, roots)
    ensures r.MissingRoot? ==> r.name in roots && forall i :: 0 <= i < |entries| ==> entries[i].name != r.name
    ensures forall c :: CatalogueOf(entries, c) && Distinct(entries) && RootsPresent(entries, roots) ==>
      && (r.Undecided? <==> SomeRaises(c, t, Elements(roots)))
      && (r.Proved? ==> Correct(c, t, Elements(roots), forbidden, r.proof))
  {
    hide Correct, RaisesBy, Reaches;
    var c, duplicate := ReadCatalogue(entries);
    if duplicate.Some? {
      return Duplicate(duplicate.value);
    }
    for i := 0 to |roots|
      invariant forall k :: 0 <= k < i ==> roots[k] in c
    {
      if roots[i] !in c {
        assert roots[i] in roots;
        assert forall k :: 0 <= k < |entries| ==> entries[k].name != roots[i];
        return MissingRoot(roots[i]);
      }
    }
    var ok, reachable, missing, unsatisfied := Walk(c, t, roots);
    forall d | CatalogueOf(entries, d)
      ensures d == c
    {
      CatalogueUnique(entries, c, d);
    }
    if !ok {
      return Undecided;
    }
    r := Proved(Proof(reachable, c.Keys - reachable, missing, unsatisfied, c.Keys * forbidden));
    WithForbidden(c, t, Elements(roots), forbidden, Proof(reachable, c.Keys - reachable, missing, unsatisfied, {}));
  }

  lemma WithForbidden(c: Catalogue, t: Target, roots: set<string>, forbidden: set<string>, p: Proof)
    requires Correct(c, t, roots, {}, p)
    ensures Correct(c, t, roots, forbidden, p.(forbidden := c.Keys * forbidden))
  {
  }

  lemma CatalogueUnique(entries: seq<Entry>, c: Catalogue, d: Catalogue)
    requires CatalogueOf(entries, c) && CatalogueOf(entries, d)
    ensures c == d
  {
    forall n
      ensures n in c <==> n in d
      ensures n in c && n in d ==> c[n] == d[n]
    {
      if n in c {
        var i :| 0 <= i < |entries| && entries[i].name == n;
      }
      if n in d {
        var i :| 0 <= i < |entries| && entries[i].name == n;
      }
    }
  }
}
