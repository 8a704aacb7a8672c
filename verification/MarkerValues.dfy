/**
 What a marker evaluates to in the target environment, with or without an extra bound.

 Reading a version out of a text is given as a function, `versions`.
 */
module MarkerValues {
  import opened Options
  import Markers
  import VersionOrder
  import opened VersionRanges

  type Environment = map<string, string>

  /** A version that is read has at least one release component. */
  type Versions = read: string -> Option<VersionOrder.Version> |
    forall text :: read(text).Some? ==> VersionOrder.Valid(read(text).value)
    witness _ => None

  const VERSION_VARIABLES := {"implementation_version", "python_full_version", "python_version"}

  /** A resolved operand: a text, the unset `extra`, or a variable the environment lacks. */
  datatype Value = Known(text: string) | Unset | Unknown

  /** `extra` is the empty string in the base pass. */
  function Resolve(o: Markers.Operand, environment: Environment, extra: string): Value {
    match o
    case Literal(text) => Known(text)
    case Name(name) =>
      if name == "extra" then (if extra == "" then Unset else Known(extra))
      else if name in environment then Known(environment[name])
      else Unknown
  }

  predicate OccursAt(needle: string, text: string, i: nat) {
    i + |needle| <= |text| && text[i..i + |needle|] == needle
  }

  predicate Contains(needle: string, text: string) {
    exists i :: 0 <= i <= |text| && OccursAt(needle, text, i)
  }

  function OperatorOf(s: Markers.Symbol): Operator {
    match s
    case Identical => Operator.Identical
    case Equals => Equal
    case Differs => NotEqual
    case AtMost => AtMostOp
    case AtLeast => AtLeastOp
    case Compatible => Operator.Compatible
    case Less => LessOp
    case Greater => GreaterOp
  }

  predicate IsWildcard(text: string) {
    |text| >= 2 && text[|text| - 2..] == ".*"
  }

  function ClauseOf(versions: Versions, operator: Operator, text: string): Clause {
    Clause(operator, text, IsWildcard(text), versions(if IsWildcard(text) then text[..|text| - 2] else text))
  }

  predicate IsVersioned(o: Markers.Operand) {
    o.Name? && o.name in VERSION_VARIABLES
  }

  function CompareTexts(s: Markers.Symbol, left: string, right: string): Decision {
    var c := VersionOrder.Texts(left, right);
    match s
    case Identical => Decided(left == right)
    case Equals => Decided(left == right)
    case Differs => Decided(left != right)
    case AtMost => Decided(c <= 0)
    case AtLeast => Decided(c >= 0)
    case Less => Decided(c < 0)
    case Greater => Decided(c > 0)
    case Compatible => Unsupported
  }

  /** `_compare_operands`. */
  function CompareValues(versions: Versions, r: Markers.Relation, left: Value, right: Value, versioned: bool): Decision {
    if left.Unknown? || right.Unknown? then Unsupported
    else if left.Unset? || right.Unset? then
      if r == Markers.By(Markers.Equals) then Decided(false)
      else if r == Markers.By(Markers.Differs) then Decided(true)
      else Unsupported
    else
      match r
      case InRelation => Decided(Contains(left.text, right.text))
      case NotInRelation => Decided(!Contains(left.text, right.text))
      case By(symbol) =>
        if versioned then
          match versions(left.text)
          case None => Unsupported
          case Some(v) => SatisfiesOne(v, ClauseOf(versions, OperatorOf(symbol), right.text))
        else
          CompareTexts(symbol, left.text, right.text)
  }

  /** `_evaluate`; the right operand of a decided `and` or `or` is not looked at. */
  function Evaluate(versions: Versions, m: Markers.Marker, environment: Environment, extra: string): Decision {
    match m
    case Both(l, r) =>
      var d := Evaluate(versions, l, environment, extra);
      if d == Decided(true) then Evaluate(versions, r, environment, extra) else d
    case Either(l, r) =>
      var d := Evaluate(versions, l, environment, extra);
      if d == Decided(false) then Evaluate(versions, r, environment, extra) else d
    case Test(test) =>
      CompareValues(
        versions, test.relation,
        Resolve(test.left, environment, extra), Resolve(test.right, environment, extra),
        IsVersioned(test.left) || IsVersioned(test.right))
  }

  predicate MentionsExtra(m: Markers.Marker) {
    match m
    case Both(l, r) => MentionsExtra(l) || MentionsExtra(r)
    case Either(l, r) => MentionsExtra(l) || MentionsExtra(r)
    case Test(test) => test.left == Markers.Name("extra") || test.right == Markers.Name("extra")
  }

  /** A marker that does not mention `extra` holds in the pass of an extra exactly if it holds in the base pass. */
  lemma {:induction false} PassIrrelevant(versions: Versions, m: Markers.Marker, environment: Environment, extra: string)
    requires !MentionsExtra(m)
    ensures Evaluate(versions, m, environment, extra) == Evaluate(versions, m, environment, "")
  {
    match m
    case Both(l, r) =>
      PassIrrelevant(versions, l, environment, extra);
      PassIrrelevant(versions, r, environment, extra);
    case Either(l, r) =>
      PassIrrelevant(versions, l, environment, extra);
      PassIrrelevant(versions, r, environment, extra);
    case Test(test) =>
      assert forall o: Markers.Operand :: o.Name? && o.name == "extra" ==> o == Markers.Name("extra");
  }
}
