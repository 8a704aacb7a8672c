/** From the text of a marker to its tokens, and the whole way from text to tree and back. */
module MarkerText {
  import opened Options
  import opened Markers
  import opened Spaces
  import Utf8

  const MAX_BYTES: nat := 4096

  datatype Tokenized = Tokens(tokens: seq<Token>) | Refused(error: Error)

  // ----- One token

  predicate WordStart(c: char) {
    'a' <= c <= 'z' || 'A' <= c <= 'Z' || c == '_'
  }

  predicate WordChar(c: char) {
    WordStart(c) || '0' <= c <= '9' || c == '.'
  }

  function WordEnd(text: string, i: nat): (end: nat)
    requires i <= |text|
    ensures i <= end <= |text|
    decreases |text| - i
  {
    if i < |text| && WordChar(text[i]) then WordEnd(text, i + 1) else i
  }

  function Find(text: string, c: char, i: nat): (at: Option<nat>)
    requires i <= |text|
    ensures at.Some? ==> i <= at.value < |text|
    decreases |text| - i
  {
    if i == |text| then None else if text[i] == c then Some(i) else Find(text, c, i + 1)
  }

  /** The longest operator the text starts with. */
  function SymbolAt(text: string): Option<Symbol> {
    if "===" <= text then Some(Identical)
    else if "==" <= text then Some(Equals)
    else if "!=" <= text then Some(Differs)
    else if "<=" <= text then Some(AtMost)
    else if ">=" <= text then Some(AtLeast)
    else if "~=" <= text then Some(Compatible)
    else if "<" <= text then Some(Less)
    else if ">" <= text then Some(Greater)
    else None
  }

  function WriteSymbol(s: Symbol): string {
    match s
    case Identical => "==="
    case Equals => "=="
    case Differs => "!="
    case AtMost => "<="
    case AtLeast => ">="
    case Compatible => "~="
    case Less => "<"
    case Greater => ">"
  }

  function WordToken(word: string): Token {
    if word == "and" then And else if word == "or" then Or else if word == "in" then In
    else if word == "not" then Not else Word(word)
  }

  /** The token the text starts with and how many characters it takes. */
  function FirstToken(text: string): (r: Option<(Token, nat)>)
    requires text != ""
    ensures r.Some? ==> 0 < r.value.1 <= |text|
  {
    if text[0] == '(' then Some((Open, 1))
    else if text[0] == ')' then Some((Close, 1))
    else if SymbolAt(text).Some? then Some((Token.Symbol(SymbolAt(text).value), |WriteSymbol(SymbolAt(text).value)|))
    else if text[0] == '\'' || text[0] == '"' then
      var close := Find(text, text[0], 1);
      if close.None? then None else Some((Text(text[1..close.value]), close.value + 1))
    else if WordStart(text[0]) then
      var end := WordEnd(text, 1);
      Some((WordToken(text[..end]), end))
    else None
  }

  // ----- All tokens

  /** What follows `count` tokens; one token too many is noticed before anything behind it. */
  function TokensFrom(text: string, count: nat): Tokenized
    decreases |text|
  {
    if text == "" then Tokens([])
    else if IsSpace(text[0] as int) then TokensFrom(text[1..], count)
    else
      var first := FirstToken(text);
      if first.None? then Refused(Unsupported)
      else if count + 1 > MAX_TOKENS then Refused(Oversized)
      else
        var rest := TokensFrom(text[first.value.1..], count + 1);
        if rest.Refused? then rest else Tokens([first.value.0] + rest.tokens)
  }

  function Tokenize(text: string): Tokenized {
    if |Utf8.Encode(text)| > MAX_BYTES then Refused(Oversized) else TokensFrom(text, 0)
  }

  function ParseMarker(text: string): Parsed<Marker> {
    var stripped := Strip(text);
    if stripped == "" then Fail(Empty)
    else
      var tokenized := Tokenize(stripped);
      if tokenized.Refused? then Fail(tokenized.error) else Parse(tokenized.tokens)
  }

  /** What a scan from the start yields, given the tokens read so far and what the rest yields. */
  function Behind(done: seq<Token>, rest: Tokenized): Tokenized {
    if rest.Refused? then rest else Tokens(done + rest.tokens)
  }

  lemma OneToken(text: string, count: nat)
    requires text != ""
    ensures IsSpace(text[0] as int) ==> TokensFrom(text, count) == TokensFrom(text[1..], count)
    ensures !IsSpace(text[0] as int) && FirstToken(text).None? ==> TokensFrom(text, count) == Refused(Unsupported)
    ensures !IsSpace(text[0] as int) && FirstToken(text).Some? ==>
      var first := FirstToken(text).value;
      TokensFrom(text, count) ==
        if count + 1 > MAX_TOKENS then Refused(Oversized)
        else Behind([first.0], TokensFrom(text[first.1..], count + 1))
  {
    hide FirstToken, IsSpace;
  }

  lemma NoTokens(count: nat)
    ensures TokensFrom("", count) == Tokens([])
  {
  }

  lemma BehindTwice(a: seq<Token>, b: seq<Token>, rest: Tokenized)
    ensures Behind(a, Behind(b, rest)) == Behind(a + b, rest)
  {
    if rest.Tokens? { assert a + b + rest.tokens == a + (b + rest.tokens); }
  }

  method TokenizeMarker(text: string) returns (r: Tokenized)
    ensures r == Tokenize(text)
  {
    hide FirstToken, IsSpace, TokensFrom;
    if |Utf8.Encode(text)| > MAX_BYTES { return Refused(Oversized); }
    var tokens: seq<Token> := [];
    var position := 0;
    assert text[0..] == text;
    while position < |text|
      invariant 0 <= position <= |text| && |tokens| <= MAX_TOKENS
      invariant TokensFrom(text, 0) == Behind(tokens, TokensFrom(text[position..], |tokens|))
    {
      ghost var rest := text[position..];
      OneToken(rest, |tokens|);
      if IsSpace(text[position] as int) {
        assert rest[1..] == text[position + 1..];
        position := position + 1;
        continue;
      }
      var first := FirstToken(text[position..]);
      if first.None? { return Refused(Unsupported); }
      assert rest[first.value.1..] == text[position + first.value.1..];
      position := position + first.value.1;
      BehindTwice(tokens, [first.value.0], TokensFrom(text[position..], |tokens| + 1));
      tokens := tokens + [first.value.0];
      if |tokens| > MAX_TOKENS { return Refused(Oversized); }
    }
    assert text[position..] == "";
    NoTokens(|tokens|);
    r := Tokens(tokens);
  }

  // ----- Writing tokens

  /** A token some text can stand for: no quoted text can hold both quotes. */
  predicate Spellable(t: Token) {
    match t
    case Text(text) => '\'' !in text || '"' !in text
    case Word(word) =>
      && word != "" && WordStart(word[0]) && (forall i :: 0 <= i < |word| ==> WordChar(word[i]))
      && word != "and" && word != "or" && word != "in" && word != "not"
    case _ => true
  }

  function Write(t: Token): string {
    match t
    case Open => "("
    case Close => ")"
    case Symbol(s) => WriteSymbol(s)
    case Text(text) => if '\'' !in text then "'" + text + "'" else "\"" + text + "\""
    case Word(word) => word
    case And => "and"
    case Or => "or"
    case In => "in"
    case Not => "not"
  }

  function Render(ts: seq<Token>): string {
    if ts == [] then "" else if |ts| == 1 then Write(ts[0]) else Write(ts[0]) + " " + Render(ts[1..])
  }

  lemma {:induction false} FindPast(text: string, c: char, i: nat, j: nat)
    requires i <= j < |text| && text[j] == c && c !in text[i..j]
    ensures Find(text, c, i) == Some(j)
    decreases j - i
  {
    if i < j {
      assert text[i] == text[i..j][0];
      assert text[i + 1..j] == text[i..j][1..];
      FindPast(text, c, i + 1, j);
    }
  }

  lemma {:induction false} WordEndsAt(text: string, i: nat, j: nat)
    requires i <= j <= |text| && (forall k :: i <= k < j ==> WordChar(text[k]))
    requires j < |text| ==> !WordChar(text[j])
    ensures WordEnd(text, i) == j
    decreases j - i
  {
    if i < j { WordEndsAt(text, i + 1, j); }
  }

  predicate Ends(rest: string) {
    rest == "" || rest[0] == ' '
  }

  lemma QuotedRead(text: string, quote: char, rest: string)
    requires quote == '\'' || quote == '"'
    requires quote !in text
    ensures FirstToken([quote] + text + [quote] + rest) == Some((Text(text), |text| + 2))
  {
    var whole := [quote] + text + [quote] + rest;
    assert whole[1..|text| + 1] == text;
    FindPast(whole, quote, 1, |text| + 1);
    NoSymbol(whole);
  }

  lemma NoSymbol(text: string)
    requires text != "" && text[0] !in "=!<>~"
    ensures SymbolAt(text).None?
  {
  }

  lemma WordRead(word: string, rest: string)
    requires word != "" && WordStart(word[0]) && (forall i :: 0 <= i < |word| ==> WordChar(word[i])) && Ends(rest)
    ensures FirstToken(word + rest) == Some((WordToken(word), |word|))
  {
    var whole := word + rest;
    assert whole[..|word|] == word;
    WordEndsAt(whole, 1, |word|);
    NoSymbol(whole);
  }

  lemma SymbolRead(s: Symbol, rest: string)
    requires Ends(rest)
    ensures FirstToken(WriteSymbol(s) + rest) == Some((Token.Symbol(s), |WriteSymbol(s)|))
  {
    var w := WriteSymbol(s);
    var whole := w + rest;
    assert w <= whole;
    assert forall k :: 0 <= k < |w| ==> whole[k] == w[k];
    assert |whole| > |w| ==> whole[|w|] == ' ';
    assert SymbolAt(whole) == Some(s) by { SymbolStandsAlone(s, whole); }
  }

  lemma SymbolStandsAlone(s: Symbol, whole: string)
    requires WriteSymbol(s) <= whole
    requires |whole| > |WriteSymbol(s)| ==> whole[|WriteSymbol(s)|] == ' '
    ensures SymbolAt(whole) == Some(s)
  {
    var w := WriteSymbol(s);
    assert forall k :: 0 <= k < |w| ==> whole[k] == w[k];
    if "===" <= whole { assert whole[0] == "==="[0] && whole[1] == "==="[1] && whole[2] == "==="[2]; }
    if "==" <= whole { assert whole[0] == "=="[0] && whole[1] == "=="[1]; }
    if "!=" <= whole { assert whole[0] == "!="[0]; }
    if "<=" <= whole { assert whole[0] == "<="[0] && whole[1] == "<="[1]; }
    if ">=" <= whole { assert whole[0] == ">="[0] && whole[1] == ">="[1]; }
    if "~=" <= whole { assert whole[0] == "~="[0]; }
    if "<" <= whole { assert whole[0] == "<"[0]; }
    if ">" <= whole { assert whole[0] == ">"[0]; }
  }

  /** A written token, at the end or before a blank, is read back as itself. */
  lemma WrittenIsRead(t: Token, rest: string)
    requires Spellable(t) && Ends(rest)
    ensures Write(t) != "" && FirstToken(Write(t) + rest) == Some((t, |Write(t)|))
  {
    match t
    case Open | Close =>
    case Symbol(s) => SymbolRead(s, rest);
    case Text(text) =>
      var quote := if '\'' !in text then '\'' else '"';
      QuotedRead(text, quote, rest);
      assert Write(t) == [quote] + text + [quote];
    case Word(word) => WordRead(word, rest);
    case And => WordRead("and", rest);
    case Or => WordRead("or", rest);
    case In => WordRead("in", rest);
    case Not => WordRead("not", rest);
  }

  lemma WrittenStarts(t: Token)
    requires Spellable(t)
    ensures Write(t) != "" && !IsSpace(Write(t)[0] as int) && !IsSpace(Write(t)[|Write(t)| - 1] as int)
  {
  }

  /** What reading a rendering does with its first token. */
  lemma ReadOne(ts: seq<Token>, count: nat)
    requires ts != [] && Spellable(ts[0]) && Spellable(ts[|ts| - 1])
    requires |ts| > 1 ==> Spellable(ts[1])
    ensures TokensFrom(Render(ts), count) ==
      if count + 1 > MAX_TOKENS then Refused(Oversized)
      else Behind([ts[0]], TokensFrom(Render(ts[1..]), count + 1))
  {
    hide FirstToken, IsSpace, TokensFrom, Write, Spellable;
    var rest := if |ts| == 1 then "" else " " + Render(ts[1..]);
    var text := Render(ts);
    assert text == Write(ts[0]) + rest;
    WrittenIsRead(ts[0], rest);
    WrittenStarts(ts[0]);
    assert text[0] == Write(ts[0])[0];
    assert text[|Write(ts[0])|..] == rest;
    OneToken(text, count);
    if |ts| > 1 {
      SpaceFirst();
      OneToken(rest, count + 1);
      assert rest[1..] == Render(ts[1..]);
    }
  }

  lemma SpaceFirst()
    ensures IsSpace(' ' as int)
  {
  }

  /** Rendering tokens and reading the text gives the tokens back. */
  lemma {:induction false} RenderedIsRead(ts: seq<Token>, count: nat)
    requires (forall t :: t in ts ==> Spellable(t)) && count + |ts| <= MAX_TOKENS
    ensures TokensFrom(Render(ts), count) == Tokens(ts)
    decreases |ts|
  {
    hide TokensFrom, Render, Spellable;
    if ts == [] {
      NothingRendered(count);
    } else {
      ReadOne(ts, count);
      RenderedIsRead(ts[1..], count + 1);
      assert ts == [ts[0]] + ts[1..];
    }
  }

  lemma NothingRendered(count: nat)
    ensures TokensFrom(Render([]), count) == Tokens([])
  {
  }

  lemma {:induction false} RenderIsTight(ts: seq<Token>)
    requires ts != [] && forall t :: t in ts ==> Spellable(t)
    ensures Render(ts) != "" && !IsSpace(Render(ts)[0] as int) && !IsSpace(Render(ts)[|Render(ts)| - 1] as int)
    decreases |ts|
  {
    WrittenStarts(ts[0]);
    if |ts| > 1 {
      RenderIsTight(ts[1..]);
      assert Render(ts)[0] == Write(ts[0])[0];
    }
  }

  /** A tree every literal of which can be quoted. */
  predicate Quotable(t: Marker) {
    match t
    case Either(l, r) => Quotable(l) && Quotable(r)
    case Both(l, r) => Quotable(l) && Quotable(r)
    case Test(test) => QuotableOperand(test.left) && QuotableOperand(test.right)
  }

  predicate QuotableOperand(o: Operand) {
    o.Literal? ==> Spellable(Text(o.text))
  }

  lemma ImplementationNames()
    ensures Spellable(Word("implementation_name")) && Spellable(Word("implementation_version"))
  {
  }

  lemma PlatformNames()
    ensures Spellable(Word("platform_machine")) && Spellable(Word("platform_system"))
    ensures Spellable(Word("sys_platform"))
  {
  }

  lemma LongestName()
    ensures Spellable(Word("platform_python_implementation"))
  {
  }

  lemma OtherNames()
    ensures Spellable(Word("os_name")) && Spellable(Word("extra"))
    ensures Spellable(Word("python_full_version")) && Spellable(Word("python_version"))
  {
  }

  lemma VariablesSpellable(name: Variable)
    ensures Spellable(Word(name))
  {
    hide Spellable;
    ImplementationNames();
    PlatformNames();
    LongestName();
    OtherNames();
  }

  predicate AllSpellable(ts: seq<Token>) {
    forall t :: t in ts ==> Spellable(t)
  }

  lemma TestSpellable(c: Comparison)
    requires QuotableOperand(c.left) && QuotableOperand(c.right)
    ensures AllSpellable(FlatTest(c))
  {
    if c.left.Name? { VariablesSpellable(c.left.name); }
    if c.right.Name? { VariablesSpellable(c.right.name); }
  }

  lemma {:induction false} OrSpellable(c: OrC)
    requires Quotable(TreeOr(c))
    ensures AllSpellable(FlatOr(c))
    decreases c
  {
    match c
    case OneAnd(a) => AndSpellable(a);
    case MoreOr(l, a) =>
      OrSpellable(l);
      AndSpellable(a);
  }

  lemma {:induction false} AndSpellable(c: AndC)
    requires Quotable(TreeAnd(c))
    ensures AllSpellable(FlatAnd(c))
    decreases c
  {
    match c
    case OneTerm(t) => TermSpellable(t);
    case MoreAnd(l, t) =>
      AndSpellable(l);
      TermSpellable(t);
  }

  lemma {:induction false} TermSpellable(c: TermC)
    requires Quotable(TreeTerm(c))
    ensures AllSpellable(FlatTerm(c))
    decreases c
  {
    match c
    case Paren(o) => OrSpellable(o);
    case Bare(test) => TestSpellable(test);
  }

  /**
   A tree printed with as few parentheses as possible and written out as text parses back to itself,
   exactly when the text and its tokens are within the bounds.
   */
  lemma TextRoundTrip(t: Marker)
    requires Quotable(t)
    ensures
      var ts := FlatOr(PrintOr(t));
      ParseMarker(Render(ts)) == Ok(t, |ts|) <==>
        |Utf8.Encode(Render(ts))| <= MAX_BYTES && NestOr(PrintOr(t)) <= MAX_DEPTH && |ts| <= MAX_TOKENS
  {
    hide TokensFrom, Parse, Spellable, Write, Utf8.Encode;
    var ts := FlatOr(PrintOr(t));
    PrintKeepsTree(t);
    OrSpellable(PrintOr(t));
    FlatNonempty(PrintOr(t));
    RenderIsTight(ts);
    assert Strip(Render(ts)) == Render(ts);
    PrintThenParse(t);
    if |ts| <= MAX_TOKENS {
      RenderedIsRead(ts, 0);
    } else {
      TooManyRefused(ts, 0);
    }
  }

  /** One token more than the bound is refused. */
  lemma {:induction false} TooManyRefused(ts: seq<Token>, count: nat)
    requires AllSpellable(ts) && count <= MAX_TOKENS < count + |ts|
    ensures TokensFrom(Render(ts), count) == Refused(Oversized)
    decreases |ts|
  {
    hide TokensFrom, Render, Spellable;
    ReadOne(ts, count);
    if count < MAX_TOKENS { TooManyRefused(ts[1..], count + 1); }
  }
}
