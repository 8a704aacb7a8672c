/**
 What a marker says: a declared meaning of its comparisons and connectives, with `extra` bound to the extra
 of the pass, and when a requirement applies in those words.
 */
module MarkerMeaning {
  import opened Options
  import opened Markers
  import opened MarkerValues
  import MarkerText
  import VersionOrder
  import VersionRanges
  import Closure

  type Extra = string

  // ----- Operands

  /** The operand stands for this text: itself, the extra of the pass, or what the environment says. */
  ghost predicate Denotes(o: Operand, environment: Environment, extra: Extra, text: string) {
    match o
    case Literal(own) => text == own
    case Name(name) =>
      if name == "extra" then extra != "" && text == extra
      else name in environment && text == environment[name]
  }

  /** `extra` in the pass that was entered through none. */
  predicate IsUnset(o: Operand, extra: Extra) {
    o == Name("extra") && extra == ""
  }

  // ----- Comparisons

  ghost predicate OccursIn(needle: string, text: string) {
    exists before, behind :: text == before + needle + behind
  }

  /** The symbols on texts, which compare character by character. */
  ghost predicate TextHolds(s: Symbol, left: string, right: string) {
    match s
    case Identical => left == right
    case Equals => left == right
    case Differs => left != right
    case Less => VersionOrder.Before(VersionOrder.Chars, left, right)
    case Greater => VersionOrder.Before(VersionOrder.Chars, right, left)
    case AtMost => left == right || VersionOrder.Before(VersionOrder.Chars, left, right)
    case AtLeast => left == right || VersionOrder.Before(VersionOrder.Chars, right, left)
    case Compatible => false
  }

  function Spelling(operator: VersionRanges.Operator): string {
    match operator
    case Identical => "==="
    case Equal => "=="
    case NotEqual => "!="
    case Compatible => "~="
    case AtMostOp => "<="
    case AtLeastOp => ">="
    case LessOp => "<"
    case GreaterOp => ">"
  }

  /** The clause that an operator and a text make: `.*` at the end is a wildcard, the rest a version. */
  ghost predicate MakesClause(versions: Versions, symbol: Symbol, text: string, clause: VersionRanges.Clause) {
    && Spelling(clause.operator) == MarkerText.WriteSymbol(symbol) && clause.text == text
    && (forall body :: text == body + ".*" ==> clause.wildcard && clause.target == versions(body))
    && ((forall body :: text != body + ".*") ==> !clause.wildcard && clause.target == versions(text))
  }

  /** On versions a symbol asks of the left one what the specifier clause of that spelling asks. */
  ghost predicate VersionFinds(versions: Versions, s: Symbol, left: string, right: string, b: bool) {
    && versions(left).Some?
    && exists clause :: MakesClause(versions, s, right, clause) && ClauseFinds(versions(left).value, clause, b)
  }

  ghost predicate ClauseFinds(candidate: VersionOrder.Version, clause: VersionRanges.Clause, b: bool) {
    && VersionRanges.Supported(clause)
    && b == if clause.operator.Identical? then candidate.text == clause.text
            else VersionRanges.Admits(candidate, clause.operator, clause.target.value, clause.wildcard)
  }

  predicate NamesVersion(o: Operand) {
    o.Name? && (o.name == "implementation_version" || o.name == "python_full_version" || o.name == "python_version")
  }

  /** On two texts the comparison comes out as `b`. */
  ghost predicate TextsFind(versions: Versions, test: Comparison, left: string, right: string, b: bool) {
    match test.relation
    case InRelation => b == OccursIn(left, right)
    case NotInRelation => b != OccursIn(left, right)
    case By(symbol) =>
      if NamesVersion(test.left) || NamesVersion(test.right) then VersionFinds(versions, symbol, left, right, b)
      else symbol != Compatible && b == TextHolds(symbol, left, right)
  }

  ghost predicate Known(o: Operand, environment: Environment, extra: Extra) {
    IsUnset(o, extra) || exists text :: Denotes(o, environment, extra, text)
  }

  /** The comparison comes out as `b`; against an unset `extra` only equality does, and is false. */
  ghost predicate Finds(t: Closure.Target, extra: Extra, test: Comparison, b: bool) {
    if IsUnset(test.left, extra) || IsUnset(test.right, extra) then
      && Known(test.left, t.environment, extra) && Known(test.right, t.environment, extra)
      && ((test.relation == By(Equals) && !b) || (test.relation == By(Differs) && b))
    else
      exists left, right ::
        && Denotes(test.left, t.environment, extra, left) && Denotes(test.right, t.environment, extra, right)
        && TextsFind(t.versions, test, left, right, b)
  }

  // ----- Markers

  /** Read from the left, the marker comes out as `b`. */
  ghost predicate ComesOut(t: Closure.Target, extra: Extra, m: Marker, b: bool) {
    match m
    case Test(test) => Finds(t, extra, test, b)
    case Both(l, r) =>
      if b then ComesOut(t, extra, l, true) && ComesOut(t, extra, r, true)
      else ComesOut(t, extra, l, false) || (ComesOut(t, extra, l, true) && ComesOut(t, extra, r, false))
    case Either(l, r) =>
      if b then ComesOut(t, extra, l, true) || (ComesOut(t, extra, l, false) && ComesOut(t, extra, r, true))
      else ComesOut(t, extra, l, false) && ComesOut(t, extra, r, false)
  }

  /** The truth of a marker when every comparison has a truth value. */
  predicate Truth(m: Marker, value: Comparison -> bool) {
    match m
    case Test(test) => value(test)
    case Both(l, r) => Truth(l, value) && Truth(r, value)
    case Either(l, r) => Truth(l, value) || Truth(r, value)
  }

  ghost predicate Agrees(t: Closure.Target, extra: Extra, value: Comparison -> bool) {
    forall test, b :: Finds(t, extra, test, b) ==> value(test) == b
  }

  /** What a marker comes out as is its truth, whatever is taken for the comparisons that cannot be decided. */
  lemma {:induction false} ComesOutIsTruth(t: Closure.Target, extra: Extra, m: Marker, b: bool, value: Comparison -> bool)
    requires ComesOut(t, extra, m, b) && Agrees(t, extra, value)
    ensures Truth(m, value) == b
  {
    match m
    case Test(test) =>
    case Both(l, r) =>
      if ComesOut(t, extra, l, false) { ComesOutIsTruth(t, extra, l, false, value); }
      if ComesOut(t, extra, l, true) { ComesOutIsTruth(t, extra, l, true, value); }
      if ComesOut(t, extra, r, b) { ComesOutIsTruth(t, extra, r, b, value); }
    case Either(l, r) =>
      if ComesOut(t, extra, l, false) { ComesOutIsTruth(t, extra, l, false, value); }
      if ComesOut(t, extra, l, true) { ComesOutIsTruth(t, extra, l, true, value); }
      if ComesOut(t, extra, r, b) { ComesOutIsTruth(t, extra, r, b, value); }
  }

  // ----- The evaluation means this

  lemma ResolveMeans(o: Operand, environment: Environment, extra: Extra)
    ensures Resolve(o, environment, extra).Unset? <==> IsUnset(o, extra)
    ensures Resolve(o, environment, extra).Unknown? <==> !Known(o, environment, extra)
    ensures forall text :: Denotes(o, environment, extra, text) <==> Resolve(o, environment, extra) == Value.Known(text)
  {
    var v := Resolve(o, environment, extra);
    if v.Known? { assert Denotes(o, environment, extra, v.text); }
  }

  lemma ContainsMeans(needle: string, text: string)
    ensures Contains(needle, text) <==> OccursIn(needle, text)
  {
    if Contains(needle, text) {
      var i :| 0 <= i <= |text| && OccursAt(needle, text, i);
      assert text == text[..i] + needle + text[i + |needle|..];
    }
    if OccursIn(needle, text) {
      var before, behind :| text == before + needle + behind;
      assert text[|before|..|before| + |needle|] == needle;
      assert OccursAt(needle, text, |before|);
    }
  }

  lemma TextsMean(s: Symbol, left: string, right: string)
    ensures CompareTexts(s, left, right) == if s == Compatible then VersionRanges.Unsupported else VersionRanges.Decided(TextHolds(s, left, right))
  {
    VersionOrder.LexMeans(VersionOrder.Chars, left, right);
    VersionOrder.LexMeans(VersionOrder.Chars, right, left);
    assert VersionOrder.TotalOrder(VersionOrder.Chars);
    VersionOrder.LexAntisymmetric(VersionOrder.Chars, left, right);
  }

  lemma SpelledAlike(s: Symbol, operator: VersionRanges.Operator)
    ensures Spelling(operator) == MarkerText.WriteSymbol(s) <==> operator == OperatorOf(s)
  {
  }

  lemma ClauseIs(versions: Versions, s: Symbol, text: string, clause: VersionRanges.Clause)
    ensures MakesClause(versions, s, text, clause) <==> clause == ClauseOf(versions, OperatorOf(s), text)
  {
    SpelledAlike(s, clause.operator);
    if IsWildcard(text) {
      assert text == text[..|text| - 2] + ".*";
      assert forall body :: text == body + ".*" ==> body == text[..|text| - 2];
    } else {
      forall body ensures text != body + ".*" { EndsInStar(body); }
    }
  }

  lemma EndsInStar(body: string)
    ensures IsWildcard(body + ".*")
  {
  }

  lemma VersionsMean(versions: Versions, s: Symbol, left: string, right: string, b: bool)
    ensures VersionFinds(versions, s, left, right, b) <==>
      versions(left).Some?
      && VersionRanges.SatisfiesOne(versions(left).value, ClauseOf(versions, OperatorOf(s), right)) == VersionRanges.Decided(b)
  {
    hide VersionRanges.SatisfiesOne, VersionRanges.Admits, VersionRanges.Supported;
    var clause := ClauseOf(versions, OperatorOf(s), right);
    ClauseIs(versions, s, right, clause);
    if versions(left).Some? {
      VersionRanges.ClauseMeans(versions(left).value, clause);
      forall c | MakesClause(versions, s, right, c) ensures c == clause { ClauseIs(versions, s, right, c); }
    }
  }

  /** A comparison is decided exactly when it comes out, and then as that. */
  lemma TestMeans(t: Closure.Target, extra: Extra, test: Comparison, b: bool)
    ensures Evaluate(t.versions, Test(test), t.environment, extra) == VersionRanges.Decided(b) <==> Finds(t, extra, test, b)
  {
    hide VersionRanges.SatisfiesOne, Denotes, Known, VersionFinds, Resolve, TextHolds, CompareTexts, OccursIn, Contains, ClauseOf;
    ResolveMeans(test.left, t.environment, extra);
    ResolveMeans(test.right, t.environment, extra);
    var left, right := Resolve(test.left, t.environment, extra), Resolve(test.right, t.environment, extra);
    VersionedMeans(test.left);
    VersionedMeans(test.right);
    if left.Known? && right.Known? {
      ContainsMeans(left.text, right.text);
      if test.relation.By? {
        TextsMean(test.relation.symbol, left.text, right.text);
        VersionsMean(t.versions, test.relation.symbol, left.text, right.text, b);
      }
      assert Denotes(test.left, t.environment, extra, left.text) && Denotes(test.right, t.environment, extra, right.text);
    }
  }

  lemma VersionedMeans(o: Operand)
    ensures IsVersioned(o) <==> NamesVersion(o)
  {
  }

  /** A marker is decided exactly when it comes out, and then as that. */
  lemma {:induction false} EvaluateMeans(t: Closure.Target, extra: Extra, m: Marker, b: bool)
    ensures Evaluate(t.versions, m, t.environment, extra) == VersionRanges.Decided(b) <==> ComesOut(t, extra, m, b)
  {
    match m
    case Test(test) => TestMeans(t, extra, test, b);
    case Both(l, r) =>
      hide Finds;
      EvaluateMeans(t, extra, l, true);
      EvaluateMeans(t, extra, l, false);
      EvaluateMeans(t, extra, r, b);
    case Either(l, r) =>
      hide Finds;
      EvaluateMeans(t, extra, l, true);
      EvaluateMeans(t, extra, l, false);
      EvaluateMeans(t, extra, r, b);
  }

  // ----- When a requirement applies

  /** The marker has this tree by the grammar, and comes out as `b` in the pass of the extra. */
  ghost predicate MarkerIs(t: Closure.Target, extra: Extra, tokens: seq<Token>, b: bool) {
    |tokens| <= MAX_TOKENS && exists c, m :: Derives(c, tokens, m) && ComesOut(t, extra, m, b)
  }

  lemma StatusMeans(t: Closure.Target, requirement: Closure.Requirement, extra: Extra)
    ensures Closure.StatusOf(t, Some(requirement), extra) == Closure.Active <==>
      requirement.marker.None? || MarkerIs(t, extra, requirement.marker.value, true)
    ensures Closure.StatusOf(t, Some(requirement), extra) == Closure.Inactive <==>
      requirement.marker.Some? && MarkerIs(t, extra, requirement.marker.value, false)
  {
    if requirement.marker.Some? {
      var tokens := requirement.marker.value;
      hide Parse, Evaluate, ComesOut, Derives;
      var r := Parse(tokens);
      if r.Ok? {
        ParsesExactlyTheGrammar(tokens, r.value);
        EvaluateMeans(t, extra, r.value, true);
        EvaluateMeans(t, extra, r.value, false);
      }
      forall c, m | Derives(c, tokens, m) && |tokens| <= MAX_TOKENS
        ensures r == Ok(m, |tokens|)
      {
        ParsesExactlyTheGrammar(tokens, m);
      }
    }
  }

  /**
   A requirement applies at a pair exactly when it has no marker, or one that the grammar derives and that is
   true with `extra` bound to the pair's.
   */
  lemma AppliesMeans(c: Closure.Catalogue, t: Closure.Target, p: Closure.Pair, j: nat)
    requires p.0 in c && j < |c[p.0].requires_dist| && c[p.0].requires_dist[j].Some?
    ensures
      var marker := c[p.0].requires_dist[j].value.marker;
      Closure.Applies(c, t, p, j) <==> marker.None? || MarkerIs(t, p.1, marker.value, true)
  {
    StatusMeans(t, c[p.0].requires_dist[j].value, p.1);
    hide MarkerIs;
  }

  /** ... and it cannot be told when it was not read, or its marker comes out neither way. */
  lemma RaisesMeans(c: Closure.Catalogue, t: Closure.Target, p: Closure.Pair, j: nat)
    requires p.0 in c && j < |c[p.0].requires_dist|
    ensures
      var requirement := c[p.0].requires_dist[j];
      Closure.RaisesBy(c, t, p, j) <==>
        || requirement.None?
        || (requirement.value.marker.Some? && forall b :: !MarkerIs(t, p.1, requirement.value.marker.value, b))
        || (Closure.Applies(c, t, p, j) && requirement.value.name in c &&
            Closure.FitOf(c[requirement.value.name], requirement.value.specifier) == Closure.CannotTell)
  {
    var requirement := c[p.0].requires_dist[j];
    if requirement.Some? { StatusMeans(t, requirement.value, p.1); }
    hide MarkerIs, Closure.FitOf;
  }

  /** Whether the shipped version fits, in the words of the specifier set. */
  lemma FitMeans(entry: Closure.Entry, clauses: seq<VersionRanges.Clause>)
    requires entry.version.Some?
    ensures
      var v, fit := entry.version.value, Closure.FitOf(entry, Some(clauses));
      && (fit == Closure.Fits <==>
            clauses == [] ||
            ((VersionOrder.IsPrerelease(v) ==> VersionRanges.Mentions(clauses) == VersionRanges.Decided(true)) &&
             forall clause :: clause in clauses ==> VersionRanges.SatisfiesOne(v, clause) == VersionRanges.Decided(true)))
      && (fit == Closure.CannotTell <==> clauses != [] && VersionRanges.Satisfies(v, clauses) == VersionRanges.Unsupported)
  {
    VersionRanges.SatisfiesMeaning(entry.version.value, clauses);
    hide VersionRanges.SatisfiesOne, VersionRanges.Satisfies, VersionRanges.Mentions;
  }

  // ----- Requirements behind an extra

  function ExtraIs(x: string): Comparison {
    Comparison(By(Equals), Name("extra"), Literal(x))
  }

  /** A requirement whose marker is `extra == "x"` applies in the pass of `x` and in no other. */
  lemma ExtraGates(c: Closure.Catalogue, t: Closure.Target, p: Closure.Pair, j: nat, x: string)
    requires p.0 in c && j < |c[p.0].requires_dist| && c[p.0].requires_dist[j].Some? && x != ""
    requires c[p.0].requires_dist[j].value.marker == Some([Word("extra"), Token.Symbol(Equals), Text(x)])
    ensures Closure.Applies(c, t, p, j) <==> p.1 == x
  {
    var tokens := [Word("extra"), Token.Symbol(Equals), Text(x)];
    var tree := OneAnd(OneTerm(Bare(ExtraIs(x))));
    var term := Bare(ExtraIs(x));
    assert FlatTest(ExtraIs(x)) == tokens && FlatTerm(term) == tokens && FlatAnd(OneTerm(term)) == tokens;
    assert TreeTerm(term) == TreeAnd(OneTerm(term)) == Test(ExtraIs(x)) && NestTerm(term) == NestAnd(OneTerm(term)) == 0;
    assert Derives(tree, tokens, Test(ExtraIs(x)));
    AppliesMeans(c, t, p, j);
    OneTree(tokens, Test(ExtraIs(x)));
    hide Derives;
    ExtraFinds(t, p.1, x);
    hide Finds;
    assert MarkerIs(t, p.1, tokens, true) <==> p.1 == x;
  }

  lemma OneTree(tokens: seq<Token>, m: Marker)
    requires |tokens| <= MAX_TOKENS && exists c :: Derives(c, tokens, m)
    ensures forall c, n :: Derives(c, tokens, n) ==> n == m
  {
    hide Derives;
    ParsesExactlyTheGrammar(tokens, m);
    forall c, n | Derives(c, tokens, n) ensures n == m { ParsesExactlyTheGrammar(tokens, n); }
  }

  lemma ExtraFinds(t: Closure.Target, y: string, x: string)
    requires x != ""
    ensures Finds(t, y, ExtraIs(x), true) <==> y == x
  {
    assert Denotes(Literal(x), t.environment, y, x);
    if y != "" { assert Denotes(Name("extra"), t.environment, y, y); }
  }
}
