/**
 PEP 440 versions: the total order behind `Version.key`, and what a specifier clause denotes in it.

 Parsing the text of a version is not part of this model; a version that could not be parsed is
 `None`.
 */
module VersionOrder {
  import opened Options

  datatype Label = A | B | RC

  datatype LocalPart = Number(n: nat) | Word(text: string)

  datatype Pre = Pre(letter: Label, number: nat)

  datatype Version = Version(
    text: string,
    epoch: nat,
    release: seq<nat>,
    pre: Option<Pre>,
    post: Option<nat>,
    dev: Option<nat>,
    local: Option<seq<LocalPart>>)

  /** A component of the key: a value, or one of the two sentinels. */
  datatype Field<T> = BelowAll | At(value: T) | AboveAll

  datatype Key = Key(
    epoch: nat, release: seq<nat>, pre: Field<Pre>, post: Field<nat>, dev: Field<nat>, local: Field<seq<LocalPart>>)

  /** A parsed version has at least one release component. */
  predicate Valid(v: Version) {
    v.release != []
  }

  predicate IsPrerelease(v: Version) {
    v.pre.Some? || v.dev.Some?
  }

  predicate IsFinal(v: Version) {
    v.pre.None? && v.post.None? && v.dev.None?
  }

  function Trim(release: seq<nat>): seq<nat> {
    if release != [] && release[|release| - 1] == 0 then Trim(release[..|release| - 1]) else release
  }

  /** The loop of `Version.key` that drops trailing zeros. */
  method TrimRelease(release: seq<nat>) returns (trimmed: seq<nat>)
    ensures trimmed == Trim(release)
    ensures trimmed <= release && (trimmed != [] ==> trimmed[|trimmed| - 1] != 0)
    ensures forall i :: |trimmed| <= i < |release| ==> release[i] == 0
  {
    trimmed := release;
    while trimmed != [] && trimmed[|trimmed| - 1] == 0
      invariant trimmed <= release && Trim(trimmed) == Trim(release)
      invariant forall i :: |trimmed| <= i < |release| ==> release[i] == 0
      decreases |trimmed|
    {
      trimmed := trimmed[..|trimmed| - 1];
    }
  }

  function KeyOf(v: Version, withLocal: bool): Key {
    Key(
      v.epoch,
      Trim(v.release),
      if v.pre.None? && v.post.None? && v.dev.Some? then BelowAll
      else if v.pre.None? then AboveAll
      else At(v.pre.value),
      if v.post.None? then BelowAll else At(v.post.value),
      if v.dev.None? then AboveAll else At(v.dev.value),
      if !withLocal || v.local.None? then BelowAll else At(v.local.value))
  }

  // ----- Comparisons, negative for less and positive for greater

  function Ints(a: int, b: int): int {
    if a < b then -1 else if a > b then 1 else 0
  }

  function Nats(a: nat, b: nat): int {
    Ints(a, b)
  }

  function Labels(a: Label, b: Label): int {
    if a == b then 0 else if a == A || b == RC then -1 else 1
  }

  function Lex<T>(c: (T, T) -> int, a: seq<T>, b: seq<T>): int {
    if a == [] then (if b == [] then 0 else -1)
    else if b == [] then 1
    else if c(a[0], b[0]) != 0 then c(a[0], b[0])
    else Lex(c, a[1..], b[1..])
  }

  /** The sentinels compare below and above every value, and equal only to themselves. */
  function Fields<T>(c: (T, T) -> int, a: Field<T>, b: Field<T>): int {
    match (a, b)
    case (At(x), At(y)) => c(x, y)
    case (BelowAll, BelowAll) => 0
    case (AboveAll, AboveAll) => 0
    case (BelowAll, _) => -1
    case (_, BelowAll) => 1
    case (AboveAll, _) => 1
    case (_, AboveAll) => -1
  }

  function Pres(a: Pre, b: Pre): int {
    if Labels(a.letter, b.letter) != 0 then Labels(a.letter, b.letter) else Ints(a.number, b.number)
  }

  function Chars(a: char, b: char): int {
    Ints(a as int, b as int)
  }

  function Texts(a: string, b: string): int {
    Lex(Chars, a, b)
  }

  /** A number is the pair `(n, "")`, a word is `(below-all, word)`. */
  function Parts(a: LocalPart, b: LocalPart): int {
    match (a, b)
    case (Number(m), Number(n)) => Ints(m, n)
    case (Word(s), Word(t)) => Texts(s, t)
    case (Word(_), Number(_)) => -1
    case (Number(_), Word(_)) => 1
  }

  function PartLists(a: seq<LocalPart>, b: seq<LocalPart>): int {
    Lex(Parts, a, b)
  }

  function Releases(a: seq<nat>, b: seq<nat>): int {
    Lex(Nats, a, b)
  }

  function Naturals(a: Field<nat>, b: Field<nat>): int {
    Fields(Nats, a, b)
  }

  function Locals(a: Field<seq<LocalPart>>, b: Field<seq<LocalPart>>): int {
    Fields(PartLists, a, b)
  }

  function PreFields(a: Field<Pre>, b: Field<Pre>): int {
    Fields(Pres, a, b)
  }

  /** What follows epoch and release in the key. */
  function Suffixes(a: Key, b: Key): int {
    var pre := PreFields(a.pre, b.pre);
    if pre != 0 then pre else
      var post := Naturals(a.post, b.post);
      if post != 0 then post else
        var dev := Naturals(a.dev, b.dev);
        if dev != 0 then dev else Locals(a.local, b.local)
  }

  function Keys(a: Key, b: Key): int {
    if Ints(a.epoch, b.epoch) != 0 then Ints(a.epoch, b.epoch)
    else if Releases(a.release, b.release) != 0 then Releases(a.release, b.release)
    else Suffixes(a, b)
  }

  function Compare(a: Version, b: Version): int {
    Keys(KeyOf(a, true), KeyOf(b, true))
  }

  // ----- The order is total

  ghost predicate TotalOrder<T(!new)>(c: (T, T) -> int) {
    && (forall a, b :: c(a, b) == -c(b, a))
    && (forall a, b :: c(a, b) == 0 <==> a == b)
    && (forall a, b, d :: c(a, b) <= 0 && c(b, d) <= 0 ==> c(a, d) <= 0)
  }

  lemma {:induction false} LexAntisymmetric<T(!new)>(c: (T, T) -> int, a: seq<T>, b: seq<T>)
    requires TotalOrder(c)
    ensures Lex(c, a, b) == -Lex(c, b, a) && (Lex(c, a, b) == 0 <==> a == b)
  {
    if a != [] && b != [] && c(a[0], b[0]) == 0 {
      LexAntisymmetric(c, a[1..], b[1..]);
      assert c(b[0], a[0]) == 0;
      assert a == [a[0]] + a[1..] && b == [b[0]] + b[1..];
    }
  }

  lemma {:induction false} LexTransitive<T(!new)>(c: (T, T) -> int, a: seq<T>, b: seq<T>, d: seq<T>)
    requires TotalOrder(c) && Lex(c, a, b) <= 0 && Lex(c, b, d) <= 0
    ensures Lex(c, a, d) <= 0
  {
    if a != [] && b != [] && d != [] {
      assert c(a[0], b[0]) <= 0 && c(b[0], d[0]) <= 0;
      assert c(a[0], d[0]) <= 0;
      if c(a[0], d[0]) == 0 {
        assert c(b[0], a[0]) <= 0;
        assert c(a[0], b[0]) == 0 && c(b[0], d[0]) == 0;
        LexTransitive(c, a[1..], b[1..], d[1..]);
      }
    }
  }

  lemma LexTotal<T(!new)>(c: (T, T) -> int)
    requires TotalOrder(c)
    ensures TotalOrder((a: seq<T>, b: seq<T>) => Lex(c, a, b))
  {
    forall a: seq<T>, b: seq<T>
      ensures Lex(c, a, b) == -Lex(c, b, a) && (Lex(c, a, b) == 0 <==> a == b)
    {
      LexAntisymmetric(c, a, b);
    }
    forall a: seq<T>, b: seq<T>, d: seq<T> | Lex(c, a, b) <= 0 && Lex(c, b, d) <= 0
      ensures Lex(c, a, d) <= 0
    {
      LexTransitive(c, a, b, d);
    }
  }

  /** Adding a least and a greatest element to a total order gives a total order. */
  lemma FieldsTotal<T(!new)>(c: (T, T) -> int)
    requires TotalOrder(c)
    ensures TotalOrder((a: Field<T>, b: Field<T>) => Fields(c, a, b))
  {
  }

  lemma SameOrder<T(!new)>(c: (T, T) -> int, d: (T, T) -> int)
    requires TotalOrder(c) && forall a, b :: c(a, b) == d(a, b)
    ensures TotalOrder(d)
  {
  }

  lemma ReleasesTotal()
    ensures TotalOrder(Releases) && TotalOrder(Naturals)
  {
    assert TotalOrder(Nats);
    LexTotal(Nats);
    SameOrder((a: seq<nat>, b: seq<nat>) => Lex(Nats, a, b), Releases);
    FieldsTotal(Nats);
    SameOrder((a: Field<nat>, b: Field<nat>) => Fields(Nats, a, b), Naturals);
  }

  lemma PartsTotal()
    ensures TotalOrder(Parts)
  {
    assert TotalOrder(Chars);
    LexTotal(Chars);
    SameOrder((a: string, b: string) => Lex(Chars, a, b), Texts);
  }

  lemma LocalsTotal()
    ensures TotalOrder(Locals)
  {
    PartsTotal();
    LexTotal(Parts);
    SameOrder((a: seq<LocalPart>, b: seq<LocalPart>) => Lex(Parts, a, b), PartLists);
    FieldsTotal(PartLists);
    SameOrder((a: Field<seq<LocalPart>>, b: Field<seq<LocalPart>>) => Fields(PartLists, a, b), Locals);
  }

  lemma PresTotal()
    ensures TotalOrder(PreFields)
  {
    assert TotalOrder(Pres);
    FieldsTotal(Pres);
    SameOrder((a: Field<Pre>, b: Field<Pre>) => Fields(Pres, a, b), PreFields);
  }

  /** The key order is a total order on all keys, whatever mixture of sentinels and values they hold. */
  lemma KeysTotal()
    ensures TotalOrder(Keys)
  {
    ReleasesTotal();
    LocalsTotal();
    PresTotal();
    forall a: Key, b: Key
      ensures Keys(a, b) == -Keys(b, a) && (Keys(a, b) == 0 <==> a == b)
    {
    }
    forall a: Key, b: Key, d: Key | Keys(a, b) <= 0 && Keys(b, d) <= 0
      ensures Keys(a, d) <= 0
    {
      KeysTransitive(a, b, d);
    }
  }

  lemma KeysTransitive(a: Key, b: Key, d: Key)
    requires TotalOrder(Releases) && TotalOrder(Naturals) && TotalOrder(Locals) && TotalOrder(PreFields)
    requires Keys(a, b) <= 0 && Keys(b, d) <= 0
    ensures Keys(a, d) <= 0
  {
    if a.epoch == b.epoch == d.epoch {
      assert Releases(a.release, d.release) <= 0;
      if Releases(a.release, d.release) == 0 {
        assert Releases(b.release, a.release) <= 0;
        assert a.release == b.release == d.release;
        SuffixesTransitive(a, b, d);
      }
    }
  }

  lemma SuffixesTransitive(a: Key, b: Key, d: Key)
    requires TotalOrder(Naturals) && TotalOrder(Locals) && TotalOrder(PreFields)
    requires Suffixes(a, b) <= 0 && Suffixes(b, d) <= 0
    ensures Suffixes(a, d) <= 0
  {
    assert PreFields(a.pre, d.pre) <= 0;
    if PreFields(a.pre, d.pre) == 0 {
      assert PreFields(b.pre, a.pre) <= 0;
      assert Naturals(a.post, d.post) <= 0;
      if Naturals(a.post, d.post) == 0 {
        assert Naturals(b.post, a.post) <= 0;
        assert Naturals(a.dev, d.dev) <= 0;
        if Naturals(a.dev, d.dev) == 0 {
          assert Naturals(b.dev, a.dev) <= 0;
        }
      }
    }
  }

  /** `compare` returns 0 exactly for versions with equal keys, and is antisymmetric and transitive. */
  lemma CompareIsOrder(u: Version, v: Version, w: Version)
    ensures Compare(u, v) == -Compare(v, u)
    ensures Compare(u, v) == 0 <==> KeyOf(u, true) == KeyOf(v, true)
    ensures Compare(u, v) <= 0 && Compare(v, w) <= 0 ==> Compare(u, w) <= 0
  {
    KeysTotal();
  }

  // ----- The order, in the words of PEP 440

  /** A dev-release of the release itself, which comes before everything else of that release. */
  predicate DevOnly(v: Version) {
    v.pre.None? && v.post.None? && v.dev.Some?
  }

  /** The epoch decides first, then the release, its components being compared as numbers. */
  lemma ReleasesInOrder(v: Version, w: Version)
    ensures v.epoch < w.epoch ==> Compare(v, w) < 0
    ensures v.epoch == w.epoch && Before(Nats, Trim(v.release), Trim(w.release)) ==> Compare(v, w) < 0
  {
    LexMeans(Nats, Trim(v.release), Trim(w.release));
  }

  /**
   Of one release: `.dev` comes before `a`, then `b`, `rc`, the release itself, and its `.post`; each of
   these, when it has a `.dev` of its own, comes before the same without.
   */
  lemma SuffixesInOrder(v: Version, w: Version)
    requires v.epoch == w.epoch && Trim(v.release) == Trim(w.release)
    ensures DevOnly(v) && !DevOnly(w) ==> Compare(v, w) < 0
    ensures v.pre.Some? && w.pre.None? && !DevOnly(w) ==> Compare(v, w) < 0
    ensures v.pre.Some? && w.pre.Some? ==>
      && (v.pre.value.letter == A && w.pre.value.letter != A ==> Compare(v, w) < 0)
      && (v.pre.value.letter == B && w.pre.value.letter == RC ==> Compare(v, w) < 0)
      && (v.pre.value.letter == w.pre.value.letter && v.pre.value.number < w.pre.value.number ==> Compare(v, w) < 0)
    ensures v.pre == w.pre && !DevOnly(v) && !DevOnly(w) ==>
      && (v.post.None? && w.post.Some? ==> Compare(v, w) < 0)
      && (v.post.Some? && w.post.Some? && v.post.value < w.post.value ==> Compare(v, w) < 0)
    ensures v.pre == w.pre && v.post == w.post ==>
      && (v.dev.Some? && w.dev.None? ==> Compare(v, w) < 0)
      && (v.dev.Some? && w.dev.Some? && v.dev.value < w.dev.value ==> Compare(v, w) < 0)
  {
    ReleasesTotal();
    hide Trim, Lex, PartLists;
  }

  /** Otherwise equal, a version without a local part comes first, and local parts compare one by one. */
  lemma LocalsInOrder(v: Version, w: Version)
    requires KeyOf(v, false) == KeyOf(w, false)
    ensures v.local.None? && w.local.Some? ==> Compare(v, w) < 0
    ensures v.local.Some? && w.local.Some? ==> (Compare(v, w) < 0 <==> Before(Parts, v.local.value, w.local.value))
  {
    ReleasesTotal();
    PresTotal();
    if v.local.Some? && w.local.Some? {
      PartsTotal();
      LexMeans(Parts, v.local.value, w.local.value);
    }
    hide Trim, Lex;
  }

  /** Of two local parts a word comes before a number, numbers in their order, words by their characters. */
  lemma LocalPartsInOrder(s: string, t: string, m: nat, n: nat)
    ensures Parts(Word(s), Number(n)) < 0
    ensures m < n ==> Parts(Number(m), Number(n)) < 0
    ensures Parts(Word(s), Word(t)) < 0 <==> Before(Chars, s, t)
  {
    LexMeans(Chars, s, t);
  }

  /** The sequences agree up to `i`, where the first ends or has the smaller element. */
  predicate DiffersAt<T(==)>(c: (T, T) -> int, a: seq<T>, b: seq<T>, i: nat) {
    i <= |a| && i < |b| && a[..i] == b[..i] && (i == |a| || c(a[i], b[i]) < 0)
  }

  ghost predicate Before<T>(c: (T, T) -> int, a: seq<T>, b: seq<T>) {
    exists i :: DiffersAt(c, a, b, i)
  }

  /** Lexicographic order is decided by the first difference. */
  lemma {:induction false} LexMeans<T(!new)>(c: (T, T) -> int, a: seq<T>, b: seq<T>)
    requires forall x, y :: c(x, y) == 0 <==> x == y
    ensures Lex(c, a, b) < 0 <==> Before(c, a, b)
    ensures Lex(c, a, b) == 0 <==> a == b
  {
    if a == [] || b == [] {
      if b != [] { assert DiffersAt(c, a, b, 0); }
    } else {
      LexMeans(c, a[1..], b[1..]);
      assert a == [a[0]] + a[1..] && b == [b[0]] + b[1..];
      if c(a[0], b[0]) < 0 {
        assert DiffersAt(c, a, b, 0);
      } else if c(a[0], b[0]) == 0 {
        if Before(c, a[1..], b[1..]) {
          var i: nat :| DiffersAt(c, a[1..], b[1..], i);
          assert a[..i + 1] == [a[0]] + a[1..][..i] && b[..i + 1] == [b[0]] + b[1..][..i];
          assert DiffersAt(c, a, b, i + 1);
        }
        if Before(c, a, b) {
          var i: nat :| DiffersAt(c, a, b, i);
          assert i > 0;
          assert a[1..][..i - 1] == a[..i][1..] && b[1..][..i - 1] == b[..i][1..];
          assert DiffersAt(c, a[1..], b[1..], i - 1);
        }
      } else {
        if Before(c, a, b) {
          var i: nat :| DiffersAt(c, a, b, i);
          if i > 0 { assert a[..i][0] == b[..i][0]; }
        }
      }
    }
  }
}
