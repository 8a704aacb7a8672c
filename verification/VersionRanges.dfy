/**
 What a specifier clause denotes in the version order.
 */
module VersionRanges {
  import opened Options
  import opened VersionOrder

  /** The release, padded with zeros to `n` components at least. */
  function Pad(release: seq<nat>, n: nat): seq<nat> {
    release + seq(if n > |release| then n - |release| else 0, _ => 0)
  }

  /** `_release_prefix_matches`. */
  predicate PrefixMatches(candidate: Version, epoch: nat, release: seq<nat>) {
    candidate.epoch == epoch && Pad(candidate.release, |release|)[..|release|] == release
  }

  function Bump(release: seq<nat>): seq<nat>
    requires release != []
  {
    release[..|release| - 1] + [release[|release| - 1] + 1]
  }

  /** `release.dev0`, the least version of a release and the bound PEP 440 gives for it. */
  function DevZero(epoch: nat, release: seq<nat>): Version {
    Version("", epoch, release, None, None, Some(0), None)
  }

  predicate AtMost(a: Version, b: Version) {
    Keys(KeyOf(a, false), KeyOf(b, false)) <= 0
  }

  predicate Below(a: Version, b: Version) {
    Keys(KeyOf(a, false), KeyOf(b, false)) < 0
  }

  predicate Same(a: Version, b: Version) {
    KeyOf(a, false) == KeyOf(b, false)
  }

  // ----- Trailing zeros

  lemma {:induction false} TrimCons(x: nat, rest: seq<nat>)
    ensures Trim([x] + rest) == if Trim(rest) == [] && x == 0 then [] else [x] + Trim(rest)
  {
    var r := [x] + rest;
    if rest == [] {
      assert r[..0] == [];
    } else if rest[|rest| - 1] == 0 {
      assert r[..|r| - 1] == [x] + rest[..|rest| - 1];
      TrimCons(x, rest[..|rest| - 1]);
    }
  }

  /** Lexicographic comparison of two releases padded with zeros without end. */
  function Padded(a: seq<nat>, b: seq<nat>): int
    decreases |a| + |b|
  {
    if a == [] && b == [] then 0
    else
      var x, y := if a == [] then 0 else a[0], if b == [] then 0 else b[0];
      if x != y then Ints(x, y) else Padded(if a == [] then [] else a[1..], if b == [] then [] else b[1..])
  }

  lemma {:induction false} TrimmedIsZeroPadded(a: seq<nat>, b: seq<nat>)
    ensures Releases(Trim(a), Trim(b)) == Padded(a, b)
    decreases |a| + |b|
  {
    if a != [] || b != [] {
      var x, y := if a == [] then 0 else a[0], if b == [] then 0 else b[0];
      var a', b' := if a == [] then [] else a[1..], if b == [] then [] else b[1..];
      TrimmedIsZeroPadded(a', b');
      TrimHead(a);
      TrimHead(b);
    }
  }

  /** Comparing trimmed releases is comparing them padded with zeros to any length that is long enough. */
  lemma TrimmedIsPadded(a: seq<nat>, b: seq<nat>, n: nat)
    requires |a| <= n && |b| <= n
    ensures Releases(Trim(a), Trim(b)) == Releases(Pad(a, n), Pad(b, n))
  {
    TrimmedIsZeroPadded(a, b);
    PaddedIsPad(a, b, n);
  }

  lemma TrimHead(a: seq<nat>)
    ensures a != [] ==> Trim(a) == if Trim(a[1..]) == [] && a[0] == 0 then [] else [a[0]] + Trim(a[1..])
  {
    if a != [] {
      TrimCons(a[0], a[1..]);
      assert [a[0]] + a[1..] == a;
    }
  }

  lemma {:induction false} PaddedIsPad(a: seq<nat>, b: seq<nat>, n: nat)
    requires |a| <= n && |b| <= n
    ensures Padded(a, b) == Releases(Pad(a, n), Pad(b, n))
    decreases n
  {
    if n > 0 {
      var a', b' := if a == [] then [] else a[1..], if b == [] then [] else b[1..];
      assert Pad(a, n)[1..] == Pad(a', n - 1);
      assert Pad(b, n)[1..] == Pad(b', n - 1);
      PaddedIsPad(a', b', n - 1);
    }
  }

  lemma {:induction false} PaddedTail(a: seq<nat>)
    ensures Padded([], a) <= 0 <= Padded(a, [])
  {
    if a != [] {
      PaddedTail(a[1..]);
    }
  }

  /** In the zero-padded order the releases with a given prefix are an interval. */
  lemma {:induction false} PrefixInterval(c: seq<nat>, r: seq<nat>)
    requires r != []
    ensures Pad(c, |r|)[..|r|] == r <==> Padded(r, c) <= 0 && Padded(c, Bump(r)) < 0
    decreases |r|
  {
    var x := if c == [] then 0 else c[0];
    var c' := if c == [] then [] else c[1..];
    var p := Pad(c, |r|);
    assert p[0] == x;
    if |r| == 1 {
      PaddedTail(c');
      assert p[..1] == [x];
    } else {
      PrefixInterval(c', r[1..]);
      assert Bump(r)[1..] == Bump(r[1..]);
      assert p[1..] == Pad(c', |r| - 1);
      assert p[..|r|] == [x] + p[1..][..|r| - 1];
      assert r == [r[0]] + r[1..];
    }
  }

  // ----- Matching by prefix

  lemma DevZeroIsLeast(v: Version, w: Version)
    requires w.pre.None? && w.post.None? && w.dev == Some(0)
    ensures Suffixes(KeyOf(w, false), KeyOf(v, false)) <= 0 <= Suffixes(KeyOf(v, false), KeyOf(w, false))
  {
  }

  /** A release prefix matches exactly from its `.dev0` up to and not including that of the bumped prefix. */
  lemma PrefixIsInterval(candidate: Version, epoch: nat, release: seq<nat>)
    requires release != []
    ensures PrefixMatches(candidate, epoch, release) <==>
      AtMost(DevZero(epoch, release), candidate) && Below(candidate, DevZero(epoch, Bump(release)))
  {
    PrefixInterval(candidate.release, release);
    TrimmedIsZeroPadded(release, candidate.release);
    TrimmedIsZeroPadded(candidate.release, Bump(release));
    DevZeroIsLeast(candidate, DevZero(epoch, release));
    DevZeroIsLeast(candidate, DevZero(epoch, Bump(release)));
  }

  /** From `V` on, the prefix's lower end plays no part. */
  lemma CompatiblePrefix(candidate: Version, target: Version)
    requires |target.release| >= 2
    ensures var prefix := target.release[..|target.release| - 1];
      AtMost(target, candidate) && PrefixMatches(candidate, target.epoch, prefix) <==>
      AtMost(target, candidate) && Below(candidate, DevZero(target.epoch, Bump(prefix)))
  {
    var prefix := target.release[..|target.release| - 1];
    PrefixIsInterval(candidate, target.epoch, prefix);
    PrefixIsInterval(target, target.epoch, prefix);
    assert Pad(target.release, |prefix|)[..|prefix|] == prefix;
    KeysTotal();
  }

  // ----- One clause

  datatype Operator = Identical | Equal | NotEqual | Compatible | AtMostOp | AtLeastOp | LessOp | GreaterOp

  /** A clause: its text after the operator, whether that ends in `.*`, and the version it then parses to. */
  datatype Clause = Clause(operator: Operator, text: string, wildcard: bool, target: Option<Version>)

  datatype Decision = Decided(value: bool) | Unsupported

  predicate Unqualified(v: Version) {
    v.pre.None? && v.post.None? && v.dev.None? && v.local.None?
  }

  /** The guard that keeps `<V` from admitting a pre-release, and `>V` a post-release, of `V` itself. */
  predicate SameRelease(candidate: Version, target: Version) {
    candidate.release == target.release && candidate.epoch == target.epoch
  }

  /** `_satisfies_one`. */
  function SatisfiesOne(candidate: Version, clause: Clause): Decision {
    if clause.operator == Identical then
      Decided(candidate.text == clause.text)
    else if clause.wildcard && clause.operator != Equal && clause.operator != NotEqual then
      Unsupported
    else if clause.target.None? then
      Unsupported
    else
      var target := clause.target.value;
      if clause.wildcard && !Unqualified(target) then
        Unsupported
      else if clause.operator == Equal || clause.operator == NotEqual then
        var matched :=
          if clause.wildcard then PrefixMatches(candidate, target.epoch, target.release)
          else KeyOf(candidate, target.local.Some?) == KeyOf(target, target.local.Some?);
        Decided(if clause.operator == Equal then matched else !matched)
      else if clause.operator == Compatible then
        if |target.release| < 2 || target.local.Some? then Unsupported
        else Decided(
          AtMost(target, candidate) &&
          PrefixMatches(candidate, target.epoch, target.release[..|target.release| - 1]))
      else if target.local.Some? then
        Unsupported
      else match clause.operator
        case AtMostOp => Decided(AtMost(candidate, target))
        case AtLeastOp => Decided(AtMost(target, candidate))
        case LessOp =>
          Decided(!(candidate.pre.Some? && target.pre.None? && SameRelease(candidate, target)) && Below(candidate, target))
        case _ =>
          Decided(!(candidate.post.Some? && target.post.None? && SameRelease(candidate, target)) && Below(target, candidate))
  }

  function Simple(operator: Operator, target: Version): Clause {
    Clause(operator, target.text, false, Some(target))
  }

  function Holding(candidate: Version, operator: Operator, target: Version): bool {
    SatisfiesOne(candidate, Simple(operator, target)) == Decided(true)
  }

  function Wild(operator: Operator, target: Version): Clause {
    Clause(operator, target.text + ".*", true, Some(target))
  }

  /**
   `==X.Y.*` admits exactly the versions from `X.Y.dev0` up to and not including `X.(Y+1).dev0`, for every
   epoch and whatever the trailing zeros and the ignored local part; `!=X.Y.*` admits all others.
   */
  lemma WildcardIsInterval(candidate: Version, target: Version)
    requires Unqualified(target) && target.release != []
    ensures
      var inside := AtMost(DevZero(target.epoch, target.release), candidate)
        && Below(candidate, DevZero(target.epoch, Bump(target.release)));
      && SatisfiesOne(candidate, Wild(Equal, target)) == Decided(inside)
      && SatisfiesOne(candidate, Wild(NotEqual, target)) == Decided(!inside)
  {
    PrefixIsInterval(candidate, target.epoch, target.release);
  }

  /**
   `~=V` admits exactly the versions from `V` up to and not including the bump of its prefix; it cannot be
   decided for a `V` of one component or with a local part.
   */
  lemma CompatibleIsInterval(candidate: Version, target: Version)
    requires target.release != []
    ensures SatisfiesOne(candidate, Simple(Compatible, target)) ==
      if |target.release| == 1 || target.local.Some? then Unsupported
      else
        var prefix := target.release[..|target.release| - 1];
        Decided(AtMost(target, candidate) && Below(candidate, DevZero(target.epoch, Bump(prefix))))
  {
    if |target.release| >= 2 { CompatiblePrefix(candidate, target); }
  }

  /** What a clause asks of a candidate, by its place in the version order. */
  ghost predicate Admits(candidate: Version, operator: Operator, target: Version, wildcard: bool)
    decreases operator == NotEqual
  {
    match operator
    case Identical => candidate.text == target.text
    case Equal =>
      if wildcard then
        && target.release != []
        && AtMost(DevZero(target.epoch, target.release), candidate)
        && Below(candidate, DevZero(target.epoch, Bump(target.release)))
      else if target.local.Some? then Compare(candidate, target) == 0
      else AtMost(candidate, target) && AtMost(target, candidate)
    case NotEqual => !Admits(candidate, Equal, target, wildcard)
    case Compatible =>
      |target.release| >= 2 && AtMost(target, candidate)
      && Below(candidate, DevZero(target.epoch, Bump(target.release[..|target.release| - 1])))
    case AtMostOp => !Below(target, candidate)
    case AtLeastOp => !Below(candidate, target)
    case LessOp => Below(candidate, target) && (candidate.pre.Some? && target.pre.None? ==> !SameRelease(candidate, target))
    case GreaterOp => Below(target, candidate) && (candidate.post.Some? && target.post.None? ==> !SameRelease(candidate, target))
  }

  /** Which clauses can be decided. */
  predicate Supported(clause: Clause) {
    clause.operator == Identical ||
    (clause.target.Some? &&
     var target := clause.target.value;
     match clause.operator
     case Equal => clause.wildcard ==> Unqualified(target)
     case NotEqual => clause.wildcard ==> Unqualified(target)
     case Compatible => !clause.wildcard && |target.release| >= 2 && target.local.None?
     case _ => !clause.wildcard && target.local.None?)
  }

  /** Every operator: a clause is refused exactly when it is not supported, and else means what it says. */
  lemma ClauseMeans(candidate: Version, clause: Clause)
    requires clause.target.Some? ==> clause.target.value.release != []
    ensures SatisfiesOne(candidate, clause).Unsupported? <==> !Supported(clause)
    ensures Supported(clause) && clause.operator != Identical ==>
      SatisfiesOne(candidate, clause) == Decided(Admits(candidate, clause.operator, clause.target.value, clause.wildcard))
    ensures clause.operator == Identical ==> SatisfiesOne(candidate, clause) == Decided(candidate.text == clause.text)
  {
    hide KeyOf, Keys, PrefixMatches, AtMost, Below, Compare, DevZero, Bump;
    if clause.target.Some? {
      var target := clause.target.value;
      InOrder(candidate, target);
      PrefixIsInterval(candidate, target.epoch, target.release);
      if |target.release| >= 2 { CompatiblePrefix(candidate, target); }
    }
  }

  lemma InOrder(a: Version, b: Version)
    ensures AtMost(a, b) <==> !Below(b, a)
    ensures AtMost(b, a) <==> !Below(a, b)
    ensures KeyOf(a, false) == KeyOf(b, false) <==> AtMost(a, b) && AtMost(b, a)
    ensures KeyOf(a, true) == KeyOf(b, true) <==> Compare(a, b) == 0
  {
    KeysTotal();
  }

  /** For final releases exactly one of `<V`, `==V` and `>V` holds, and `<=`, `>=`, `!=` agree with them. */
  lemma FinalTrichotomy(candidate: Version, target: Version)
    requires IsFinal(candidate) && IsFinal(target) && target.local.None?
    ensures var less, equal, greater :=
        Holding(candidate, LessOp, target), Holding(candidate, Equal, target), Holding(candidate, GreaterOp, target);
      && (less || equal || greater) && !(less && equal) && !(less && greater) && !(equal && greater)
      && (Holding(candidate, AtMostOp, target) <==> less || equal)
      && (Holding(candidate, AtLeastOp, target) <==> greater || equal)
      && (Holding(candidate, NotEqual, target) <==> !equal)
  {
    KeysTotal();
  }

  /**
   `<` and `>` compare releases untrimmed, so they can tell apart two spellings of a candidate, or of a
   bound, that the order calls equal.  They do so exactly when the guard applies to one pair of spellings only.
   */
  lemma ExclusiveAndTrailingZeros(a: Version, b: Version, s: Version, t: Version)
    requires Same(a, b) && Same(s, t) && s.local.None? && t.local.None?
    ensures
      Holding(a, LessOp, s) == Holding(b, LessOp, t) <==>
        (a.pre.Some? && s.pre.None? && Below(a, s) ==> SameRelease(a, s) == SameRelease(b, t))
    ensures
      Holding(a, GreaterOp, s) == Holding(b, GreaterOp, t) <==>
        (a.post.Some? && s.post.None? && Below(s, a) ==> SameRelease(a, s) == SameRelease(b, t))
  {
    SameFields(a, b);
    SameFields(s, t);
  }

  lemma SameFields(a: Version, b: Version)
    requires Same(a, b)
    ensures a.pre.Some? == b.pre.Some? && a.post.Some? == b.post.Some? && a.epoch == b.epoch
  {
    assert KeyOf(a, false).pre == KeyOf(b, false).pre && KeyOf(a, false).post == KeyOf(b, false).post;
  }

  /** Every other operator gives equal candidates the same answer. */
  lemma InclusiveIgnoresTrailingZeros(a: Version, b: Version, clause: Clause)
    requires Same(a, b) && clause.target.Some? && clause.target.value.local.None?
    requires clause.operator !in {Identical, LessOp, GreaterOp}
    requires clause.wildcard ==> clause.target.value.release != []
    ensures SatisfiesOne(a, clause) == SatisfiesOne(b, clause)
  {
    var target := clause.target.value;
    if target.release != [] {
      PrefixIsInterval(a, target.epoch, target.release);
      PrefixIsInterval(b, target.epoch, target.release);
    }
    if |target.release| >= 2 {
      CompatiblePrefix(a, target);
      CompatiblePrefix(b, target);
    }
  }

  /**
   `1.0a1` and `1.0.0a1` are equal in the order, yet only the second is admitted by `<1.0`; and `1.0a1` is
   refused by `<1.0` and admitted by `<1.0.0`.
   */
  lemma TrailingZeroCounterexample()
    ensures var a := Version("1.0a1", 0, [1, 0], Some(Pre(A, 1)), None, None, None);
      var b := Version("1.0.0a1", 0, [1, 0, 0], Some(Pre(A, 1)), None, None, None);
      var target := Version("1.0", 0, [1, 0], None, None, None, None);
      var longer := Version("1.0.0", 0, [1, 0, 0], None, None, None, None);
      && Same(a, b) && !Holding(a, LessOp, target) && Holding(b, LessOp, target)
      && Same(target, longer) && Holding(a, LessOp, longer)
  {
    TrimHead([1, 0]);
    assert [1, 0, 0][..2] == [1, 0] && [1, 0][..1] == [1];
    assert Trim([1, 0]) == Trim([1]) == [1];
  }

  // ----- A set of clauses

  /** Whether the set mentions a pre-release, which is what lets one in. */
  function Mentions(clauses: seq<Clause>): Decision {
    if clauses == [] then Decided(false)
    else if clauses[0].operator in {Equal, NotEqual, Identical} then Decided(true)
    else if clauses[0].target.None? then Unsupported
    else if IsPrerelease(clauses[0].target.value) then Decided(true)
    else Mentions(clauses[1..])
  }

  function SatisfiesAll(candidate: Version, clauses: seq<Clause>): Decision {
    if clauses == [] then Decided(true)
    else
      match SatisfiesOne(candidate, clauses[0])
      case Unsupported => Unsupported
      case Decided(false) => Decided(false)
      case Decided(true) => SatisfiesAll(candidate, clauses[1..])
  }

  /** `satisfies`, on a specifier already split into clauses. */
  function Satisfies(candidate: Version, clauses: seq<Clause>): Decision {
    if clauses == [] then
      Decided(!IsPrerelease(candidate))
    else if IsPrerelease(candidate) && Mentions(clauses) != Decided(true) then
      Mentions(clauses)
    else
      SatisfiesAll(candidate, clauses)
  }

  /** The `any` over the clauses, which stops at the first that lets a pre-release in. */
  method MentionsAny(clauses: seq<Clause>) returns (answer: Decision)
    ensures answer == Mentions(clauses)
  {
    assert clauses[0..] == clauses;
    for i := 0 to |clauses|
      invariant Mentions(clauses) == Mentions(clauses[i..])
    {
      assert clauses[i..][1..] == clauses[i + 1..];
      if clauses[i].operator in {Equal, NotEqual, Identical} {
        return Decided(true);
      }
      if clauses[i].target.None? {
        return Unsupported;
      }
      if IsPrerelease(clauses[i].target.value) {
        return Decided(true);
      }
    }
    answer := Decided(false);
  }

  /** The `all` over the clauses, which stops at the first that fails or cannot be decided. */
  method SatisfiesEach(candidate: Version, clauses: seq<Clause>) returns (answer: Decision)
    ensures answer == SatisfiesAll(candidate, clauses)
  {
    hide SatisfiesOne;
    assert clauses[0..] == clauses;
    for i := 0 to |clauses|
      invariant SatisfiesAll(candidate, clauses) == SatisfiesAll(candidate, clauses[i..])
    {
      assert clauses[i..][1..] == clauses[i + 1..];
      var one := SatisfiesOne(candidate, clauses[i]);
      if one != Decided(true) {
        return one;
      }
    }
    answer := Decided(true);
  }

  method SatisfiesSet(candidate: Version, clauses: seq<Clause>) returns (answer: Decision)
    ensures answer == Satisfies(candidate, clauses)
  {
    if clauses == [] {
      return Decided(!IsPrerelease(candidate));
    }
    if IsPrerelease(candidate) {
      var mentioned := MentionsAny(clauses);
      if mentioned != Decided(true) {
        return mentioned;
      }
    }
    answer := SatisfiesEach(candidate, clauses);
  }

  /** A specifier set is a conjunction, and lets a pre-release in only if one of its clauses may. */
  lemma {:induction false} AllIsConjunction(candidate: Version, clauses: seq<Clause>)
    ensures SatisfiesAll(candidate, clauses) == Decided(true) <==>
      forall clause :: clause in clauses ==> SatisfiesOne(candidate, clause) == Decided(true)
  {
    if clauses != [] {
      AllIsConjunction(candidate, clauses[1..]);
      assert forall clause :: clause in clauses <==> clause == clauses[0] || clause in clauses[1..];
    }
  }

  lemma SatisfiesMeaning(candidate: Version, clauses: seq<Clause>)
    ensures Satisfies(candidate, clauses) == Decided(true) <==>
      && (IsPrerelease(candidate) ==> Mentions(clauses) == Decided(true))
      && (forall clause :: clause in clauses ==> SatisfiesOne(candidate, clause) == Decided(true))
  {
    AllIsConjunction(candidate, clauses);
  }

  /** The clause lets a pre-release in: an equality, or one that names a pre-release. */
  predicate LetsIn(clause: Clause) {
    clause.operator in {Equal, NotEqual, Identical} || (clause.target.Some? && IsPrerelease(clause.target.value))
  }

  /** Whether a set mentions a pre-release is told by its first clause that does, or that cannot be read. */
  lemma {:induction false} MentionsMeans(clauses: seq<Clause>)
    ensures Mentions(clauses) == Decided(true) <==> exists i :: LetsInAt(clauses, i)
    ensures Mentions(clauses) == Decided(false) <==>
      forall clause :: clause in clauses ==> clause.target.Some? && !LetsIn(clause)
  {
    if clauses != [] {
      MentionsMeans(clauses[1..]);
      assert clauses == [clauses[0]] + clauses[1..];
      if LetsIn(clauses[0]) { assert LetsInAt(clauses, 0); }
      if exists i :: LetsInAt(clauses[1..], i) {
        var i: nat :| LetsInAt(clauses[1..], i);
        if clauses[0].target.Some? {
          forall j | 0 <= j < i + 1 ensures clauses[j].target.Some? {
            if j > 0 { assert clauses[1..][j - 1] == clauses[j]; }
          }
          assert LetsInAt(clauses, i + 1);
        }
      }
      if exists i :: LetsInAt(clauses, i) {
        var i: nat :| LetsInAt(clauses, i);
        if i > 0 {
          forall j | 0 <= j < i - 1 ensures clauses[1..][j].target.Some? { assert clauses[1..][j] == clauses[j + 1]; }
          assert LetsInAt(clauses[1..], i - 1);
        }
      }
    }
  }

  predicate LetsInAt(clauses: seq<Clause>, i: nat) {
    i < |clauses| && LetsIn(clauses[i]) && forall j :: 0 <= j < i ==> clauses[j].target.Some?
  }

  predicate StopsAt(candidate: Version, clauses: seq<Clause>, i: nat) {
    && i < |clauses| && SatisfiesOne(candidate, clauses[i]) == Unsupported
    && forall j :: 0 <= j < i ==> SatisfiesOne(candidate, clauses[j]) == Decided(true)
  }

  /** A set of clauses is refused exactly when the first one that is not satisfied cannot be decided. */
  lemma {:induction false} AllRefused(candidate: Version, clauses: seq<Clause>)
    ensures SatisfiesAll(candidate, clauses) == Unsupported <==> exists i :: StopsAt(candidate, clauses, i)
  {
    hide SatisfiesOne;
    if clauses != [] {
      AllRefused(candidate, clauses[1..]);
      if SatisfiesOne(candidate, clauses[0]) == Unsupported { assert StopsAt(candidate, clauses, 0); }
      if exists i :: StopsAt(candidate, clauses[1..], i) {
        var i: nat :| StopsAt(candidate, clauses[1..], i);
        if SatisfiesOne(candidate, clauses[0]) == Decided(true) {
          forall j | 0 <= j < i + 1 ensures SatisfiesOne(candidate, clauses[j]) == Decided(true) {
            if j > 0 { assert clauses[1..][j - 1] == clauses[j]; }
          }
          assert StopsAt(candidate, clauses, i + 1);
        }
      }
      if exists i :: StopsAt(candidate, clauses, i) {
        var i: nat :| StopsAt(candidate, clauses, i);
        if i > 0 {
          forall j | 0 <= j < i - 1 ensures SatisfiesOne(candidate, clauses[1..][j]) == Decided(true) {
            assert clauses[1..][j] == clauses[j + 1];
          }
          assert StopsAt(candidate, clauses[1..], i - 1);
        }
      }
    }
  }

  /** When a set cannot be decided. */
  lemma SetRefused(candidate: Version, clauses: seq<Clause>)
    requires clauses != []
    ensures Satisfies(candidate, clauses) == Unsupported <==>
      if IsPrerelease(candidate) && !(exists i :: LetsInAt(clauses, i)) then
        exists clause :: clause in clauses && clause.target.None?
      else exists i :: StopsAt(candidate, clauses, i)
  {
    AllRefused(candidate, clauses);
    MentionsMeans(clauses);
    if forall clause :: clause in clauses ==> clause.target.Some? {
      if exists clause :: clause in clauses && LetsIn(clause) {
        var clause :| clause in clauses && LetsIn(clause);
        var i: nat :| i < |clauses| && clauses[i] == clause;
        assert LetsInAt(clauses, i);
      }
    }
    hide SatisfiesOne, SatisfiesAll;
  }
}
