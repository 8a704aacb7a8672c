/** The tokens of a marker's text, told by its lexemes: at each place the longest one that stands there. */
module MarkerLexemes {
  import opened Options
  import opened Markers
  import opened MarkerText
  import opened Spaces
  import Utf8

  predicate Letter(c: char) {
    0x41 <= c as int <= 0x5A || 0x61 <= c as int <= 0x7A || c as int == 0x5F
  }

  predicate LetterOrDigit(c: char) {
    Letter(c) || 0x30 <= c as int <= 0x39 || c as int == 0x2E
  }

  predicate Identifier(s: string) {
    s != "" && Letter(s[0]) && forall i :: 0 <= i < |s| ==> LetterOrDigit(s[i])
  }

  const KEYWORDS := {"and", "or", "in", "not"}

  /** The lexeme spells the token. */
  ghost predicate Spells(lexeme: string, t: Token) {
    match t
    case Open => lexeme == "("
    case Close => lexeme == ")"
    case Symbol(s) => lexeme == WriteSymbol(s)
    case Text(text) => exists quote :: (quote == '\'' || quote == '"') && quote !in text && lexeme == [quote] + text + [quote]
    case Word(word) => lexeme == word && Identifier(word) && word !in KEYWORDS
    case And => lexeme == "and"
    case Or => lexeme == "or"
    case In => lexeme == "in"
    case Not => lexeme == "not"
  }

  /** Of the lexemes the text starts with, none is longer. */
  ghost predicate LongestAt(text: string, lexeme: string, t: Token) {
    && Spells(lexeme, t) && lexeme <= text
    && forall other, u :: Spells(other, u) && other <= text ==> |other| <= |lexeme|
  }

  /** The text is these tokens, with white space between them. */
  ghost predicate Lexes(text: string, ts: seq<Token>)
    decreases |text|
  {
    if text == "" then ts == []
    else if IsSpace(text[0] as int) then Lexes(text[1..], ts)
    else ts != [] && exists n: nat :: LexesBy(text, ts, n)
  }

  ghost predicate LexesBy(text: string, ts: seq<Token>, n: nat)
    requires ts != []
    decreases |text|, 0
  {
    0 < n <= |text| && LongestAt(text, text[..n], ts[0]) && Lexes(text[n..], ts[1..])
  }

  // ----- Which tokens begin how

  lemma LettersAre(c: char)
    ensures WordStart(c) <==> Letter(c)
    ensures WordChar(c) <==> LetterOrDigit(c)
    ensures WordStart(c) ==> WordChar(c)
  {
  }

  predicate SymbolStart(c: char) {
    c in "=!<>~"
  }

  /** A token is told apart from those of the other kinds by the first character of its lexeme. */
  lemma BeginsAs(lexeme: string, t: Token)
    requires Spells(lexeme, t)
    ensures lexeme != ""
    ensures lexeme[0] == '(' <==> t.Open?
    ensures lexeme[0] == ')' <==> t.Close?
    ensures SymbolStart(lexeme[0]) <==> t.Symbol?
    ensures lexeme[0] == '\'' || lexeme[0] == '"' <==> t.Text?
    ensures WordStart(lexeme[0]) <==> t.Word? || t.And? || t.Or? || t.In? || t.Not?
  {
    if t.Word? { LettersAre(lexeme[0]); }
  }

  // ----- Each kind

  lemma SymbolIsLongest(text: string)
    requires text != ""
    ensures match SymbolAt(text)
      case Some(s) => WriteSymbol(s) <= text && forall u :: WriteSymbol(u) <= text ==> |WriteSymbol(u)| <= |WriteSymbol(s)|
      case None => forall u :: !(WriteSymbol(u) <= text)
    ensures SymbolAt(text).Some? ==> SymbolStart(text[0])
  {
    var s := SymbolAt(text);
    if s.Some? { assert WriteSymbol(s.value) <= text; }
  }

  lemma {:induction false} FindMeans(text: string, c: char, i: nat)
    requires i <= |text|
    ensures match Find(text, c, i)
      case Some(at) => i <= at < |text| && text[at] == c && forall k :: i <= k < at ==> text[k] != c
      case None => forall k :: i <= k < |text| ==> text[k] != c
    decreases |text| - i
  {
    if i < |text| && text[i] != c { FindMeans(text, c, i + 1); }
  }

  lemma {:induction false} WordEndMeans(text: string, i: nat)
    requires i <= |text|
    ensures forall k :: i <= k < WordEnd(text, i) ==> WordChar(text[k])
    ensures WordEnd(text, i) < |text| ==> !WordChar(text[WordEnd(text, i)])
    decreases |text| - i
  {
    if i < |text| && WordChar(text[i]) { WordEndMeans(text, i + 1); }
  }

  /** A quoted text ends at the first quote of its kind. */
  lemma QuotedEnds(text: string, lexeme: string, t: Token)
    requires Spells(lexeme, t) && lexeme <= text && t.Text?
    ensures |lexeme| >= 2 && text[0] == lexeme[0] && Find(text, text[0], 1) == Some(|lexeme| - 1)
    ensures t.text == text[1..|lexeme| - 1]
  {
    var quote :| (quote == '\'' || quote == '"') && quote !in t.text && lexeme == [quote] + t.text + [quote];
    assert text[..|lexeme|] == lexeme;
    assert text[1..|lexeme| - 1] == lexeme[1..|lexeme| - 1] == t.text;
    FindPast(text, quote, 1, |lexeme| - 1);
  }

  lemma QuotedSpells(text: string, at: nat)
    requires text != "" && (text[0] == '\'' || text[0] == '"') && Find(text, text[0], 1) == Some(at)
    ensures 1 <= at < |text| && Spells(text[..at + 1], Text(text[1..at]))
  {
    FindMeans(text, text[0], 1);
    hide Spells;
    QuotesSpell(text[0], text[1..at]);
    assert text[..at + 1] == [text[0]] + text[1..at] + [text[0]];
  }

  lemma QuotesSpell(quote: char, s: string)
    requires (quote == '\'' || quote == '"') && quote !in s
    ensures Spells([quote] + s + [quote], Text(s))
  {
  }

  /** A word, keywords included, is an identifier that does not go on. */
  lemma WordSpells(text: string, n: nat, t: Token)
    requires 0 < n <= |text| && WordStart(text[0]) && (forall k :: 0 <= k < n ==> WordChar(text[k]))
    ensures Spells(text[..n], t) <==> t == WordToken(text[..n])
  {
    var word := text[..n];
    LettersAre(word[0]);
    forall i | 0 <= i < |word| ensures LetterOrDigit(word[i]) { LettersAre(text[i]); }
    assert Identifier(word);
    if Spells(word, t) { BeginsAs(word, t); }
  }

  lemma WordIsIdentifier(lexeme: string, t: Token)
    requires Spells(lexeme, t) && lexeme != "" && WordStart(lexeme[0])
    ensures forall i :: 0 <= i < |lexeme| ==> WordChar(lexeme[i])
  {
    BeginsAs(lexeme, t);
    forall i | 0 <= i < |lexeme| ensures WordChar(lexeme[i]) {
      LettersAre(lexeme[i]);
    }
  }

  /** The first token is the one whose lexeme is the longest the text starts with. */
  lemma FirstTokenMeans(text: string, t: Token, n: nat)
    requires text != ""
    ensures FirstToken(text) == Some((t, n)) <==> n <= |text| && LongestAt(text, text[..n], t)
  {
    hide SymbolAt, WriteSymbol, Find, WordEnd, WordToken, Spells;
    FirstIsLongest(text);
    var first := FirstToken(text);
    if n <= |text| && LongestAt(text, text[..n], t) {
      assert first.Some? by { StartsSome(text, text[..n], t); }
      var m := first.value.1;
      assert |text[..m]| == m && |text[..n]| == n;
      assert m == n;
      OneSpelling(text[..n], t, first.value.0);
    }
  }

  /** A lexeme spells one token. */
  lemma OneSpelling(lexeme: string, t: Token, u: Token)
    requires Spells(lexeme, t) && Spells(lexeme, u)
    ensures t == u
  {
    BeginsAs(lexeme, t);
    BeginsAs(lexeme, u);
    if t.Text? {
      QuotedEnds(lexeme, lexeme, t);
      QuotedEnds(lexeme, lexeme, u);
    }
  }

  /** Where a lexeme starts the text, the tokenizer finds a token. */
  lemma StartsSome(text: string, lexeme: string, t: Token)
    requires text != "" && Spells(lexeme, t) && lexeme <= text
    ensures FirstToken(text).Some?
  {
    BeginsAs(lexeme, t);
    assert text[0] == lexeme[0];
    if t.Symbol? { SymbolIsLongest(text); }
    if t.Text? { QuotedEnds(text, lexeme, t); }
    hide SymbolAt, WriteSymbol, Find, WordEnd, WordToken, Spells;
  }

  lemma FirstIsLongest(text: string)
    requires text != ""
    ensures FirstToken(text).Some? ==> LongestAt(text, text[..FirstToken(text).value.1], FirstToken(text).value.0)
  {
    if FirstToken(text).Some? {
      var t, n := FirstToken(text).value.0, FirstToken(text).value.1;
      FirstSpells(text);
      forall other, u | Spells(other, u) && other <= text
        ensures |other| <= n
      {
        NoLonger(text, other, u);
      }
    }
  }

  lemma FirstSpells(text: string)
    requires text != "" && FirstToken(text).Some?
    ensures Spells(text[..FirstToken(text).value.1], FirstToken(text).value.0)
  {
    if SymbolAt(text).Some? { SymbolIsLongest(text); }
    if text[0] == '\'' || text[0] == '"' {
      FindMeans(text, text[0], 1);
      var close := Find(text, text[0], 1);
      if close.Some? { QuotedSpells(text, close.value); }
    }
    if WordStart(text[0]) {
      WordEndMeans(text, 1);
      var end := WordEnd(text, 1);
      LettersAre(text[0]);
      WordSpells(text, end, WordToken(text[..end]));
    }
    hide SymbolAt, Find, WordEnd, WordToken;
  }

  lemma NoLonger(text: string, other: string, u: Token)
    requires text != "" && FirstToken(text).Some? && Spells(other, u) && other <= text
    ensures |other| <= FirstToken(text).value.1
  {
    BeginsAs(other, u);
    assert text[0] == other[0];
    SymbolIsLongest(text);
    if u.Text? { QuotedEnds(text, other, u); }
    if WordStart(other[0]) {
      WordIsIdentifier(other, u);
      WordEndMeans(text, 1);
      forall k | 0 <= k < |other| ensures WordChar(text[k]) { assert text[k] == other[k]; }
    }
    hide SymbolAt, Find, WordEnd, WordToken;
  }

  // ----- The whole text

  lemma {:induction false} TokensMean(text: string, count: nat, ts: seq<Token>)
    requires count <= MAX_TOKENS
    ensures TokensFrom(text, count) == Tokens(ts) <==> count + |ts| <= MAX_TOKENS && Lexes(text, ts)
    decreases |text|
  {
    hide TokensFrom, FirstToken, IsSpace, LongestAt, Lexes, LexesBy;
    LexesMean(text, ts);
    if text == "" {
      NoTokens(count);
    } else {
      OneToken(text, count);
      if IsSpace(text[0] as int) {
        TokensMean(text[1..], count, ts);
      } else if FirstToken(text).Some? {
        var first := FirstToken(text).value;
        if ts != [] && count < MAX_TOKENS {
          TokensMean(text[first.1..], count + 1, ts[1..]);
          BehindMeans(first.0, TokensFrom(text[first.1..], count + 1), ts);
        }
      }
    }
  }

  /** The declared reading of a text, told from its first token. */
  lemma LexesMean(text: string, ts: seq<Token>)
    ensures text == "" ==> (Lexes(text, ts) <==> ts == [])
    ensures text != "" && IsSpace(text[0] as int) ==> (Lexes(text, ts) <==> Lexes(text[1..], ts))
    ensures text != "" && !IsSpace(text[0] as int) ==>
      (Lexes(text, ts) <==>
        && FirstToken(text).Some? && ts != [] && ts[0] == FirstToken(text).value.0
        && Lexes(text[FirstToken(text).value.1..], ts[1..]))
  {
    hide FirstToken, IsSpace, LongestAt;
    if text != "" && !IsSpace(text[0] as int) && ts != [] {
      forall n: nat
        ensures LexesBy(text, ts, n) <==> FirstToken(text) == Some((ts[0], n)) && n <= |text| && Lexes(text[n..], ts[1..])
      {
        FirstTokenMeans(text, ts[0], n);
        TokenTakes(text);
      }
      if FirstToken(text).Some? { assert FirstToken(text) == Some((FirstToken(text).value.0, FirstToken(text).value.1)); }
    }
  }

  lemma TokenTakes(text: string)
    requires text != ""
    ensures FirstToken(text).Some? ==> 0 < FirstToken(text).value.1 <= |text|
  {
  }

  lemma BehindMeans(t: Token, rest: Tokenized, ts: seq<Token>)
    requires ts != []
    ensures Behind([t], rest) == Tokens(ts) <==> t == ts[0] && rest == Tokens(ts[1..])
  {
    if rest.Tokens? { assert ([t] + rest.tokens)[1..] == rest.tokens; }
    assert ts == [ts[0]] + ts[1..];
  }

  /** The tokenizer yields exactly the tokens the text is made of, when text and list are within their bounds. */
  lemma TokenizeMeans(text: string, ts: seq<Token>)
    ensures Tokenize(text) == Tokens(ts) <==>
      |Utf8.Encode(text)| <= MAX_BYTES && |ts| <= MAX_TOKENS && Lexes(text, ts)
  {
    TokensMean(text, 0, ts);
  }

  /**
   `parse_marker`, from the text on: a text has a tree exactly when, stripped, it is not empty, its tokens
   derive that tree by the grammar, and text, tokens and nesting are within their bounds.
   */
  lemma ParseMarkerMeans(text: string, tree: Marker)
    ensures (ParseMarker(text).Ok? && ParseMarker(text).value == tree) <==>
      && Strip(text) != "" && |Utf8.Encode(Strip(text))| <= MAX_BYTES
      && exists ts, c :: Lexes(Strip(text), ts) && |ts| <= MAX_TOKENS && Derives(c, ts, tree)
  {
    var stripped := Strip(text);
    hide Strip, Tokenize, Parse, Lexes, Derives;
    var tokenized := Tokenize(stripped);
    if tokenized.Tokens? {
      TokenizeMeans(stripped, tokenized.tokens);
      ParsesExactlyTheGrammar(tokenized.tokens, tree);
    }
    forall ts | Lexes(stripped, ts) && |ts| <= MAX_TOKENS && |Utf8.Encode(stripped)| <= MAX_BYTES
      ensures tokenized == Tokens(ts)
    {
      TokenizeMeans(stripped, ts);
    }
  }
}
