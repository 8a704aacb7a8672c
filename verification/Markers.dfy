/**
 The PEP 508 marker grammar and the recursive-descent parser for it.

 `OrC`, `AndC` and `TermC` are the grammar's own parse trees, parentheses included; `Marker` is the
 tree the parser builds.  The parser accepts exactly the flattenings of the former.
 */
module Markers {
  import opened Options

  const MAX_DEPTH: nat := 24
  const MAX_TOKENS: nat := 192

  const VARIABLES := {
    "implementation_name", "implementation_version", "os_name", "platform_machine",
    "platform_python_implementation", "platform_system", "python_full_version", "python_version",
    "sys_platform", "extra"}

  type Variable = name: string | name in VARIABLES witness "extra"

  datatype Symbol = Identical | Equals | Differs | AtMost | AtLeast | Compatible | Less | Greater

  datatype Token =
    | Open | Close | Symbol(symbol: Symbol) | Text(text: string) | Word(word: string)
    | And | Or | In | Not

  datatype Operand = Literal(text: string) | Name(name: Variable)

  datatype Relation = By(symbol: Symbol) | InRelation | NotInRelation

  datatype Comparison = Comparison(relation: Relation, left: Operand, right: Operand)

  datatype Marker = Either(left: Marker, right: Marker) | Both(left: Marker, right: Marker) | Test(test: Comparison)

  datatype Error = Unsupported | UnknownVariable | TooDeep | Oversized | Empty

  datatype Parsed<T> = Ok(value: T, next: nat) | Fail(error: Error)

  // ----- The grammar

  datatype OrC = OneAnd(only: AndC) | MoreOr(first: OrC, last: AndC)

  datatype AndC = OneTerm(only: TermC) | MoreAnd(first: AndC, last: TermC)

  datatype TermC = Paren(inner: OrC) | Bare(test: Comparison)

  function FlatOperand(o: Operand): Token {
    match o
    case Literal(text) => Text(text)
    case Name(name) => Word(name)
  }

  function FlatRelation(r: Relation): seq<Token> {
    match r
    case By(symbol) => [Symbol(symbol)]
    case InRelation => [In]
    case NotInRelation => [Not, In]
  }

  function FlatTest(c: Comparison): seq<Token> {
    [FlatOperand(c.left)] + FlatRelation(c.relation) + [FlatOperand(c.right)]
  }

  function FlatOr(c: OrC): seq<Token> {
    match c
    case OneAnd(a) => FlatAnd(a)
    case MoreOr(l, a) => FlatOr(l) + [Or] + FlatAnd(a)
  }

  function FlatAnd(c: AndC): seq<Token> {
    match c
    case OneTerm(t) => FlatTerm(t)
    case MoreAnd(l, t) => FlatAnd(l) + [And] + FlatTerm(t)
  }

  function FlatTerm(c: TermC): seq<Token> {
    match c
    case Paren(o) => [Open] + FlatOr(o) + [Close]
    case Bare(test) => FlatTest(test)
  }

  function TreeOr(c: OrC): Marker {
    match c
    case OneAnd(a) => TreeAnd(a)
    case MoreOr(l, a) => Either(TreeOr(l), TreeAnd(a))
  }

  function TreeAnd(c: AndC): Marker {
    match c
    case OneTerm(t) => TreeTerm(t)
    case MoreAnd(l, t) => Both(TreeAnd(l), TreeTerm(t))
  }

  function TreeTerm(c: TermC): Marker {
    match c
    case Paren(o) => TreeOr(o)
    case Bare(test) => Test(test)
  }

  function Max(a: nat, b: nat): nat {
    if a < b then b else a
  }

  function NestOr(c: OrC): nat {
    match c
    case OneAnd(a) => NestAnd(a)
    case MoreOr(l, a) => Max(NestOr(l), NestAnd(a))
  }

  function NestAnd(c: AndC): nat {
    match c
    case OneTerm(t) => NestTerm(t)
    case MoreAnd(l, t) => Max(NestAnd(l), NestTerm(t))
  }

  function NestTerm(c: TermC): nat {
    match c
    case Paren(o) => 1 + NestOr(o)
    case Bare(_) => 0
  }

  // ----- The parser, as functions of the token list, the index and the depth

  function ParseOperand(ts: seq<Token>, i: nat): (r: Parsed<Operand>)
    requires i <= |ts|
    ensures r.Ok? ==> r.next == i + 1 <= |ts|
  {
    if i == |ts| then Fail(Unsupported)
    else if ts[i].Text? then Ok(Literal(ts[i].text), i + 1)
    else if !ts[i].Word? then Fail(Unsupported)
    else if ts[i].word !in VARIABLES then Fail(UnknownVariable)
    else Ok(Name(ts[i].word), i + 1)
  }

  function ParseRelation(ts: seq<Token>, i: nat): (r: Parsed<Relation>)
    requires i <= |ts|
    ensures r.Ok? ==> i < r.next <= |ts|
  {
    if i == |ts| then Fail(Unsupported)
    else if ts[i].Symbol? then Ok(By(ts[i].symbol), i + 1)
    else if ts[i].In? then Ok(InRelation, i + 1)
    else if ts[i].Not? && i + 1 < |ts| && ts[i + 1].In? then Ok(NotInRelation, i + 2)
    else Fail(Unsupported)
  }

  function ParseComparison(ts: seq<Token>, i: nat): (r: Parsed<Marker>)
    requires i <= |ts|
    ensures r.Ok? ==> i < r.next <= |ts|
  {
    match ParseOperand(ts, i)
    case Fail(e) => Fail(e)
    case Ok(left, j) =>
      match ParseRelation(ts, j)
      case Fail(e) => Fail(e)
      case Ok(relation, k) =>
        match ParseOperand(ts, k)
        case Fail(e) => Fail(e)
        case Ok(right, n) => Ok(Test(Comparison(relation, left, right)), n)
  }

  function ParseTerm(ts: seq<Token>, i: nat, depth: nat): (r: Parsed<Marker>)
    requires i <= |ts|
    ensures r.Ok? ==> i < r.next <= |ts|
    decreases |ts| - i, 0
  {
    if i < |ts| && ts[i].Open? then
      if depth + 1 > MAX_DEPTH then Fail(TooDeep)
      else
        match ParseOr(ts, i + 1, depth + 1)
        case Fail(e) => Fail(e)
        case Ok(node, j) => if j < |ts| && ts[j].Close? then Ok(node, j + 1) else Fail(Unsupported)
    else
      ParseComparison(ts, i)
  }

  function ParseAnd(ts: seq<Token>, i: nat, depth: nat): (r: Parsed<Marker>)
    requires i <= |ts|
    ensures r.Ok? ==> i < r.next <= |ts|
    decreases |ts| - i, 2
  {
    match ParseTerm(ts, i, depth)
    case Fail(e) => Fail(e)
    case Ok(node, j) => AndRest(ts, j, depth, node)
  }

  function AndRest(ts: seq<Token>, i: nat, depth: nat, node: Marker): (r: Parsed<Marker>)
    requires i <= |ts|
    ensures r.Ok? ==> i <= r.next <= |ts|
    decreases |ts| - i, 1
  {
    if i < |ts| && ts[i].And? then
      match ParseTerm(ts, i + 1, depth)
      case Fail(e) => Fail(e)
      case Ok(right, j) => AndRest(ts, j, depth, Both(node, right))
    else
      Ok(node, i)
  }

  function ParseOr(ts: seq<Token>, i: nat, depth: nat): (r: Parsed<Marker>)
    requires i <= |ts|
    ensures r.Ok? ==> i < r.next <= |ts|
    decreases |ts| - i, 4
  {
    match ParseAnd(ts, i, depth)
    case Fail(e) => Fail(e)
    case Ok(node, j) => OrRest(ts, j, depth, node)
  }

  function OrRest(ts: seq<Token>, i: nat, depth: nat, node: Marker): (r: Parsed<Marker>)
    requires i <= |ts|
    ensures r.Ok? ==> i <= r.next <= |ts|
    decreases |ts| - i, 3
  {
    if i < |ts| && ts[i].Or? then
      match ParseAnd(ts, i + 1, depth)
      case Fail(e) => Fail(e)
      case Ok(right, j) => OrRest(ts, j, depth, Either(node, right))
    else
      Ok(node, i)
  }

  /** `parse_marker`, from the tokens on. */
  function Parse(ts: seq<Token>): Parsed<Marker> {
    if ts == [] then Fail(Empty)
    else if |ts| > MAX_TOKENS then Fail(Oversized)
    else
      var r := ParseOr(ts, 0, 0);
      if r.Ok? && r.next != |ts| then Fail(Unsupported) else r
  }

  // ----- The parser itself

  class MarkerParser {
    const tokens: seq<Token>
    var index: nat
    var depth: nat

    ghost predicate Valid()
      reads this
    {
      index <= |tokens|
    }

    constructor (ts: seq<Token>)
      ensures tokens == ts && index == 0 && depth == 0 && Valid()
    {
      tokens, index, depth := ts, 0, 0;
    }

    function Peek(): Option<Token>
      requires Valid()
      reads this
    {
      if index < |tokens| then Some(tokens[index]) else None
    }

    method ParseAll() returns (r: Parsed<Marker>)
      requires Valid() && index == 0 && depth == 0 && 0 < |tokens| <= MAX_TOKENS
      modifies this
      ensures r == Parse(tokens)
    {
      r := OrExpression();
      if r.Ok? && Peek() != None {
        r := Fail(Unsupported);
      }
    }

    method OrExpression() returns (r: Parsed<Marker>)
      requires Valid()
      modifies this
      ensures r == ParseOr(tokens, old(index), old(depth))
      ensures r.Ok? ==> Valid() && index == r.next && depth == old(depth)
      decreases |tokens| - index, 4
    {
      r := AndExpression();
      while r.Ok? && Peek() == Some(Or)
        invariant r.Ok? ==> Valid() && index == r.next && old(index) < index && depth == old(depth)
        invariant ParseOr(tokens, old(index), old(depth)) ==
          if r.Ok? then OrRest(tokens, index, old(depth), r.value) else r
        decreases if r.Ok? then |tokens| - index + 1 else 0
      {
        index := index + 1;
        var right := AndExpression();
        r := if right.Ok? then Ok(Either(r.value, right.value), right.next) else right;
      }
    }

    method AndExpression() returns (r: Parsed<Marker>)
      requires Valid()
      modifies this
      ensures r == ParseAnd(tokens, old(index), old(depth))
      ensures r.Ok? ==> Valid() && index == r.next && depth == old(depth)
      decreases |tokens| - index, 2
    {
      r := Term();
      while r.Ok? && Peek() == Some(And)
        invariant r.Ok? ==> Valid() && index == r.next && old(index) < index && depth == old(depth)
        invariant ParseAnd(tokens, old(index), old(depth)) ==
          if r.Ok? then AndRest(tokens, index, old(depth), r.value) else r
        decreases if r.Ok? then |tokens| - index + 1 else 0
      {
        index := index + 1;
        var right := Term();
        r := if right.Ok? then Ok(Both(r.value, right.value), right.next) else right;
      }
    }

    method Term() returns (r: Parsed<Marker>)
      requires Valid()
      modifies this
      ensures r == ParseTerm(tokens, old(index), old(depth))
      ensures r.Ok? ==> Valid() && index == r.next && depth == old(depth)
      decreases |tokens| - index, 0
    {
      if Peek() == Some(Open) {
        depth := depth + 1;
        if depth > MAX_DEPTH {
          return Fail(TooDeep);
        }
        index := index + 1;
        r := OrExpression();
        if r.Fail? {
          return;
        }
        depth := depth - 1;
        if Peek() != Some(Close) {
          return Fail(Unsupported);
        }
        index := index + 1;
        r := r.(next := index);
      } else {
        r := ReadComparison();
      }
    }

    method ReadOperand() returns (r: Parsed<Operand>)
      requires Valid()
      modifies this`index
      ensures r == ParseOperand(tokens, old(index))
      ensures r.Ok? ==> Valid() && index == r.next && depth == old(depth)
    {
      if index == |tokens| {
        return Fail(Unsupported);
      }
      var token := tokens[index];
      index := index + 1;
      if token.Text? {
        return Ok(Literal(token.text), index);
      }
      if !token.Word? {
        return Fail(Unsupported);
      }
      if token.word !in VARIABLES {
        return Fail(UnknownVariable);
      }
      return Ok(Name(token.word), index);
    }

    method ReadComparison() returns (r: Parsed<Marker>)
      requires Valid()
      modifies this`index
      ensures r == ParseComparison(tokens, old(index))
      ensures r.Ok? ==> Valid() && index == r.next && depth == old(depth)
    {
      var left := ReadOperand();
      if left.Fail? {
        return Fail(left.error);
      }
      if index == |tokens| {
        return Fail(Unsupported);
      }
      var token := tokens[index];
      index := index + 1;
      var relation;
      if token.Symbol? {
        relation := By(token.symbol);
      } else if token.In? {
        relation := InRelation;
      } else if token.Not? && Peek() == Some(In) {
        index := index + 1;
        relation := NotInRelation;
      } else {
        return Fail(Unsupported);
      }
      var right := ReadOperand();
      if right.Fail? {
        return Fail(right.error);
      }
      return Ok(Test(Comparison(relation, left.value, right.value)), index);
    }
  }

  // ----- Everything the grammar derives is parsed

  predicate Reads(ts: seq<Token>, i: nat, flat: seq<Token>) {
    i + |flat| <= |ts| && ts[i..i + |flat|] == flat
  }

  lemma ReadsSplit(ts: seq<Token>, i: nat, a: seq<Token>, b: seq<Token>)
    requires Reads(ts, i, a + b)
    ensures Reads(ts, i, a) && Reads(ts, i + |a|, b)
  {
    assert ts[i..i + |a|] == ts[i..i + |a + b|][..|a|] == a;
    assert ts[i + |a|..i + |a| + |b|] == ts[i..i + |a + b|][|a|..] == b;
  }

  lemma ReadsJoined(ts: seq<Token>, i: nat, a: seq<Token>, word: Token, b: seq<Token>)
    requires Reads(ts, i, a + [word] + b)
    ensures Reads(ts, i, a) && Reads(ts, i + |a| + 1, b)
    ensures i + |a| < |ts| && ts[i + |a|] == word && i + |a| + 1 + |b| <= |ts|
  {
    ReadsSplit(ts, i, a + [word], b);
    ReadsSplit(ts, i, a, [word]);
    var j := i + |a|;
    assert ts[j] == ts[j..j + 1][0] == word;
  }

  lemma TestComplete(ts: seq<Token>, i: nat, test: Comparison)
    requires Reads(ts, i, FlatTest(test))
    ensures ParseComparison(ts, i) == Ok(Test(test), i + |FlatTest(test)|)
    ensures i < |ts| && !ts[i].Open?
  {
    var flat := FlatTest(test);
    forall k | 0 <= k < |flat|
      ensures ts[i + k] == flat[k]
    {
      assert ts[i..i + |flat|][k] == flat[k];
    }
    assert ts[i] == flat[0] && ts[i + 1] == flat[1] && ts[i + 2] == flat[2];
    if test.relation.NotInRelation? {
      assert ts[i + 3] == flat[3];
    }
  }

  lemma {:induction false} TermComplete(ts: seq<Token>, i: nat, depth: nat, c: TermC)
    requires Reads(ts, i, FlatTerm(c)) && depth + NestTerm(c) <= MAX_DEPTH
    ensures ParseTerm(ts, i, depth) == Ok(TreeTerm(c), i + |FlatTerm(c)|)
    decreases c, 0
  {
    match c
    case Bare(test) =>
      TestComplete(ts, i, test);
    case Paren(o) =>
      ReadsSplit(ts, i, [Open] + FlatOr(o), [Close]);
      ReadsSplit(ts, i, [Open], FlatOr(o));
      assert ts[i] == ts[i..i + 1][0] == Open;
      var j := i + 1 + |FlatOr(o)|;
      assert ts[j] == ts[j..j + 1][0] == Close;
      OrComplete(ts, i + 1, depth + 1, o);
  }

  lemma AndStep(ts: seq<Token>, i: nat, depth: nat, node: Marker)
    requires i < |ts|
    ensures ParseTerm(ts, i, depth).Ok? ==>
      ParseAnd(ts, i, depth) == AndRest(ts, ParseTerm(ts, i, depth).next, depth, ParseTerm(ts, i, depth).value)
    ensures ts[i] == And && ParseTerm(ts, i + 1, depth).Ok? ==>
      var right := ParseTerm(ts, i + 1, depth);
      AndRest(ts, i, depth, node) == AndRest(ts, right.next, depth, Both(node, right.value))
  {
    hide ParseTerm;
  }

  lemma OrStep(ts: seq<Token>, i: nat, depth: nat, node: Marker)
    requires i < |ts|
    ensures ParseAnd(ts, i, depth).Ok? ==>
      ParseOr(ts, i, depth) == OrRest(ts, ParseAnd(ts, i, depth).next, depth, ParseAnd(ts, i, depth).value)
    ensures ts[i] == Or && ParseAnd(ts, i + 1, depth).Ok? ==>
      var right := ParseAnd(ts, i + 1, depth);
      OrRest(ts, i, depth, node) == OrRest(ts, right.next, depth, Either(node, right.value))
  {
    hide ParseAnd;
  }

  lemma {:induction false} AndComplete(ts: seq<Token>, i: nat, depth: nat, c: AndC)
    requires Reads(ts, i, FlatAnd(c)) && depth + NestAnd(c) <= MAX_DEPTH
    ensures ParseAnd(ts, i, depth) == AndRest(ts, i + |FlatAnd(c)|, depth, TreeAnd(c))
    decreases c, 0
  {
    hide ParseTerm, ParseAnd, AndRest, Reads;
    match c
    case OneTerm(t) =>
      TermComplete(ts, i, depth, t);
      AndStep(ts, i, depth, TreeTerm(t));
    case MoreAnd(l, t) =>
      ReadsJoined(ts, i, FlatAnd(l), And, FlatTerm(t));
      AndComplete(ts, i, depth, l);
      var j := i + |FlatAnd(l)|;
      TermComplete(ts, j + 1, depth, t);
      AndStep(ts, j, depth, TreeAnd(l));
  }

  /** A list of terms that is not followed by `and`. */
  lemma AndEnds(ts: seq<Token>, i: nat, depth: nat, c: AndC)
    requires Reads(ts, i, FlatAnd(c)) && depth + NestAnd(c) <= MAX_DEPTH
    requires i + |FlatAnd(c)| < |ts| ==> !ts[i + |FlatAnd(c)|].And?
    ensures i < |ts| && ParseAnd(ts, i, depth) == Ok(TreeAnd(c), i + |FlatAnd(c)|)
    decreases c, 1
  {
    hide ParseTerm, ParseAnd, FlatAnd;
    AndComplete(ts, i, depth, c);
  }

  lemma {:induction false} OrComplete(ts: seq<Token>, i: nat, depth: nat, c: OrC)
    requires Reads(ts, i, FlatOr(c)) && depth + NestOr(c) <= MAX_DEPTH
    requires i + |FlatOr(c)| < |ts| ==> !ts[i + |FlatOr(c)|].And?
    ensures ParseOr(ts, i, depth) == OrRest(ts, i + |FlatOr(c)|, depth, TreeOr(c))
    decreases c, 0
  {
    hide ParseTerm, ParseAnd, ParseOr, OrRest, Reads;
    match c
    case OneAnd(a) =>
      AndEnds(ts, i, depth, a);
      OrStep(ts, i, depth, TreeAnd(a));
    case MoreOr(l, a) =>
      ReadsJoined(ts, i, FlatOr(l), Or, FlatAnd(a));
      var j := i + |FlatOr(l)|;
      OrComplete(ts, i, depth, l);
      AndEnds(ts, j + 1, depth, a);
      OrStep(ts, j, depth, TreeOr(l));
  }

  // ----- Everything that is parsed the grammar derives

  lemma TestSound(ts: seq<Token>, i: nat) returns (test: Comparison)
    requires i <= |ts| && ParseComparison(ts, i).Ok?
    ensures var r := ParseComparison(ts, i); r.value == Test(test) && ts[i..r.next] == FlatTest(test)
  {
    test := ParseComparison(ts, i).value.test;
    assert ts[i..i + 1] == [FlatOperand(test.left)];
  }

  lemma {:induction false} TermSound(ts: seq<Token>, i: nat, depth: nat) returns (c: TermC)
    requires i <= |ts| && ParseTerm(ts, i, depth).Ok? && depth <= MAX_DEPTH
    ensures var r := ParseTerm(ts, i, depth);
      r.value == TreeTerm(c) && ts[i..r.next] == FlatTerm(c) && depth + NestTerm(c) <= MAX_DEPTH
    decreases |ts| - i, 0
  {
    if i < |ts| && ts[i].Open? {
      var o := OrSound(ts, i + 1, depth + 1);
      c := Paren(o);
      var j := ParseOr(ts, i + 1, depth + 1).next;
      assert ts[i..j + 1] == [Open] + ts[i + 1..j] + [Close];
    } else {
      var test := TestSound(ts, i);
      c := Bare(test);
    }
  }

  lemma {:induction false} AndSound(ts: seq<Token>, i: nat, depth: nat) returns (c: AndC)
    requires i <= |ts| && ParseAnd(ts, i, depth).Ok? && depth <= MAX_DEPTH
    ensures var r := ParseAnd(ts, i, depth);
      r.value == TreeAnd(c) && ts[i..r.next] == FlatAnd(c) && depth + NestAnd(c) <= MAX_DEPTH
    decreases |ts| - i, 2
  {
    var t := TermSound(ts, i, depth);
    c := AndRestSound(ts, i, ParseTerm(ts, i, depth).next, depth, OneTerm(t));
  }

  lemma {:induction false} AndRestSound(ts: seq<Token>, i: nat, j: nat, depth: nat, first: AndC) returns (c: AndC)
    requires i < j <= |ts| && ts[i..j] == FlatAnd(first) && depth + NestAnd(first) <= MAX_DEPTH
    requires AndRest(ts, j, depth, TreeAnd(first)).Ok?
    ensures var r := AndRest(ts, j, depth, TreeAnd(first));
      r.value == TreeAnd(c) && ts[i..r.next] == FlatAnd(c) && depth + NestAnd(c) <= MAX_DEPTH
    decreases |ts| - j, 1
  {
    if j < |ts| && ts[j].And? {
      var t := TermSound(ts, j + 1, depth);
      var k := ParseTerm(ts, j + 1, depth).next;
      assert ts[i..k] == ts[i..j] + [And] + ts[j + 1..k];
      c := AndRestSound(ts, i, k, depth, MoreAnd(first, t));
    } else {
      c := first;
    }
  }

  lemma {:induction false} OrSound(ts: seq<Token>, i: nat, depth: nat) returns (c: OrC)
    requires i <= |ts| && ParseOr(ts, i, depth).Ok? && depth <= MAX_DEPTH
    ensures var r := ParseOr(ts, i, depth);
      r.value == TreeOr(c) && ts[i..r.next] == FlatOr(c) && depth + NestOr(c) <= MAX_DEPTH
    decreases |ts| - i, 4
  {
    var a := AndSound(ts, i, depth);
    c := OrRestSound(ts, i, ParseAnd(ts, i, depth).next, depth, OneAnd(a));
  }

  lemma {:induction false} OrRestSound(ts: seq<Token>, i: nat, j: nat, depth: nat, first: OrC) returns (c: OrC)
    requires i < j <= |ts| && ts[i..j] == FlatOr(first) && depth + NestOr(first) <= MAX_DEPTH
    requires OrRest(ts, j, depth, TreeOr(first)).Ok?
    ensures var r := OrRest(ts, j, depth, TreeOr(first));
      r.value == TreeOr(c) && ts[i..r.next] == FlatOr(c) && depth + NestOr(c) <= MAX_DEPTH
    decreases |ts| - j, 3
  {
    if j < |ts| && ts[j].Or? {
      var a := AndSound(ts, j + 1, depth);
      var k := ParseAnd(ts, j + 1, depth).next;
      assert ts[i..k] == ts[i..j] + [Or] + ts[j + 1..k];
      c := OrRestSound(ts, i, k, depth, MoreOr(first, a));
    } else {
      c := first;
    }
  }

  /** `c` derives exactly these tokens, within the parser's bounds, and stands for this tree. */
  predicate Derives(c: OrC, ts: seq<Token>, tree: Marker) {
    FlatOr(c) == ts && TreeOr(c) == tree && NestOr(c) <= MAX_DEPTH
  }

  /** The parser accepts exactly the grammar, within the depth and token bounds, and consumes every token. */
  lemma ParsesExactlyTheGrammar(ts: seq<Token>, tree: Marker)
    ensures Parse(ts) == Ok(tree, |ts|) <==> |ts| <= MAX_TOKENS && exists c :: Derives(c, ts, tree)
    ensures Parse(ts).Ok? ==> Parse(ts).next == |ts|
  {
    if Parse(ts) == Ok(tree, |ts|) {
      var c := OrSound(ts, 0, 0);
      assert ts[0..|ts|] == ts;
      assert Derives(c, ts, tree);
    }
    if |ts| <= MAX_TOKENS && exists c :: Derives(c, ts, tree) {
      var c :| Derives(c, ts, tree);
      assert ts[0..|ts|] == ts;
      assert Reads(ts, 0, FlatOr(c));
      OrComplete(ts, 0, 0, c);
      FlatNonempty(c);
    }
  }

  lemma FlatNonempty(c: OrC)
    ensures FlatOr(c) != []
  {
    match c
    case OneAnd(OneTerm(t)) =>
      assert FlatOr(c) == FlatAnd(c.only) == FlatTerm(t);
    case OneAnd(MoreAnd(l, t)) =>
      assert FlatOr(c) == FlatAnd(c.only) == FlatAnd(l) + [And] + FlatTerm(t);
    case MoreOr(l, a) =>
      assert FlatOr(c) == FlatOr(l) + [Or] + FlatAnd(a);
  }

  // ----- Printing with as few parentheses as possible

  function PrintOr(t: Marker): OrC
    decreases t, 1
  {
    match t
    case Either(l, r) => MoreOr(PrintOr(l), PrintAnd(r))
    case _ => OneAnd(PrintAnd(t))
  }

  function PrintAnd(t: Marker): AndC
    decreases t, 0
  {
    match t
    case Both(l, r) => MoreAnd(PrintAnd(l), PrintTerm(r))
    case Either(l, r) => OneTerm(Paren(MoreOr(PrintOr(l), PrintAnd(r))))
    case Test(test) => OneTerm(Bare(test))
  }

  function PrintTerm(t: Marker): TermC
    decreases t, 0
  {
    match t
    case Both(l, r) => Paren(OneAnd(MoreAnd(PrintAnd(l), PrintTerm(r))))
    case Either(l, r) => Paren(MoreOr(PrintOr(l), PrintAnd(r)))
    case Test(test) => Bare(test)
  }

  lemma {:induction false} PrintKeepsTree(t: Marker)
    ensures TreeOr(PrintOr(t)) == t && TreeAnd(PrintAnd(t)) == t && TreeTerm(PrintTerm(t)) == t
  {
    if !t.Test? {
      PrintKeepsTree(t.left);
      PrintKeepsTree(t.right);
      if t.Either? {
        assert TreeOr(PrintOr(t)) == t;
        assert TreeTerm(PrintTerm(t)) == TreeOr(PrintOr(t));
        assert TreeAnd(PrintAnd(t)) == TreeTerm(PrintTerm(t));
      } else {
        assert TreeAnd(PrintAnd(t)) == t;
        assert TreeOr(PrintOr(t)) == TreeAnd(PrintAnd(t));
        assert TreeTerm(PrintTerm(t)) == TreeOr(PrintOr(t));
      }
    } else {
      assert TreeAnd(PrintAnd(t)) == TreeTerm(PrintTerm(t)) == t;
      assert TreeOr(PrintOr(t)) == TreeAnd(PrintAnd(t));
    }
  }

  /** What a tree costs as a term, a conjunction and a disjunction: the looser, the cheaper. */
  lemma {:induction false} Looser(t: Marker)
    ensures |FlatOr(PrintOr(t))| <= |FlatAnd(PrintAnd(t))| <= |FlatTerm(PrintTerm(t))| <= |FlatOr(PrintOr(t))| + 2
    ensures NestOr(PrintOr(t)) <= NestAnd(PrintAnd(t)) <= NestTerm(PrintTerm(t)) <= NestOr(PrintOr(t)) + 1
  {
  }

  lemma {:induction false} PrintIsLeastOr(c: OrC)
    ensures |FlatOr(PrintOr(TreeOr(c)))| <= |FlatOr(c)| && NestOr(PrintOr(TreeOr(c))) <= NestOr(c)
    decreases c
  {
    match c
    case OneAnd(a) =>
      PrintIsLeastAnd(a);
      Looser(TreeAnd(a));
    case MoreOr(l, a) =>
      PrintIsLeastOr(l);
      PrintIsLeastAnd(a);
  }

  lemma {:induction false} PrintIsLeastAnd(c: AndC)
    ensures |FlatAnd(PrintAnd(TreeAnd(c)))| <= |FlatAnd(c)| && NestAnd(PrintAnd(TreeAnd(c))) <= NestAnd(c)
    decreases c
  {
    match c
    case OneTerm(t) =>
      PrintIsLeastTerm(t);
      Looser(TreeTerm(t));
    case MoreAnd(l, t) =>
      PrintIsLeastAnd(l);
      PrintIsLeastTerm(t);
  }

  lemma {:induction false} PrintIsLeastTerm(c: TermC)
    ensures |FlatTerm(PrintTerm(TreeTerm(c)))| <= |FlatTerm(c)| && NestTerm(PrintTerm(TreeTerm(c))) <= NestTerm(c)
    decreases c
  {
    match c
    case Paren(o) =>
      PrintIsLeastOr(o);
      Looser(TreeOr(o));
    case Bare(_) =>
  }

  /** Printing a tree and parsing it gives the tree back, whenever any spelling of the tree is within the bounds. */
  lemma PrintThenParse(t: Marker)
    ensures var ts := FlatOr(PrintOr(t));
      Parse(ts) == Ok(t, |ts|) <==> NestOr(PrintOr(t)) <= MAX_DEPTH && |ts| <= MAX_TOKENS
    ensures forall ts :: Parse(ts) == Ok(t, |ts|) ==> Parse(FlatOr(PrintOr(t))) == Ok(t, |FlatOr(PrintOr(t))|)
  {
    var ts := FlatOr(PrintOr(t));
    PrintKeepsTree(t);
    ParsesExactlyTheGrammar(ts, t);
    if NestOr(PrintOr(t)) <= MAX_DEPTH {
      assert Derives(PrintOr(t), ts, t);
    }
    forall us | Parse(us) == Ok(t, |us|)
      ensures NestOr(PrintOr(t)) <= MAX_DEPTH && |ts| <= MAX_TOKENS
    {
      ParsesExactlyTheGrammar(us, t);
      var c :| Derives(c, us, t);
      PrintIsLeastOr(c);
    }
    if exists c :: Derives(c, ts, t) {
      var c :| Derives(c, ts, t);
      PrintIsLeastOr(c);
    }
  }
}
