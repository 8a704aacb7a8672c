/** The scanner's strings and scalars, held against the grammar of RFC 8259. */
module JsonGrammar {
  import opened Options
  import opened JsonStrings
  import opened JsonSpans

  // ----- Numbers (section 6)

  predicate DigitsIn(text: string, a: nat, b: nat) {
    a < b <= |text| && forall k :: a <= k < b ==> IsDigit(text[k])
  }

  /** A zero, or digits that do not begin with one. */
  predicate WholeIn(text: string, a: nat, b: nat) {
    DigitsIn(text, a, b) && (text[a] == '0' ==> b == a + 1)
  }

  predicate FractionIn(text: string, b: nat, c: nat) {
    b == c || (b < |text| && text[b] == '.' && DigitsIn(text, b + 1, c))
  }

  predicate ExponentIn(text: string, c: nat, e: nat) {
    c == e ||
    (c < |text| && (text[c] == 'e' || text[c] == 'E') &&
     (DigitsIn(text, c + 1, e) ||
      (c + 1 < |text| && (text[c + 1] == '+' || text[c + 1] == '-') && DigitsIn(text, c + 2, e))))
  }

  predicate NumberParts(text: string, i: nat, a: nat, b: nat, c: nat, e: nat) {
    && (a == i || (i < |text| && text[i] == '-' && a == i + 1))
    && WholeIn(text, a, b) && FractionIn(text, b, c) && ExponentIn(text, c, e)
  }

  ghost predicate NumberIn(text: string, i: nat, e: nat) {
    exists a: nat, b: nat, c: nat :: NumberParts(text, i, a, b, c, e)
  }

  /** `null`, `true`, `false` or a number stands here, and the text does not go on with a longer one. */
  ghost predicate ScalarIn(text: string, i: nat, e: nat) {
    || (StartsWith(text, "null", i) && e == i + 4)
    || (StartsWith(text, "true", i) && e == i + 4)
    || (StartsWith(text, "false", i) && e == i + 5)
    || (NumberIn(text, i, e) && forall longer: nat :: NumberIn(text, i, longer) ==> longer <= e)
  }

  lemma {:induction false} DigitsGreedy(text: string, i: nat)
    requires i <= |text|
    ensures forall k :: i <= k < Digits(text, i) ==> IsDigit(text[k])
    ensures Digits(text, i) < |text| ==> !IsDigit(text[Digits(text, i)])
    decreases |text| - i
  {
    if i < |text| && IsDigit(text[i]) { DigitsGreedy(text, i + 1); }
  }

  lemma DigitsBound(text: string, a: nat, b: nat)
    requires DigitsIn(text, a, b)
    ensures b <= Digits(text, a) && DigitsIn(text, a, Digits(text, a))
    ensures Digits(text, a + 1) == Digits(text, a)
  {
    DigitsGreedy(text, a);
  }

  /** The whole part takes as many digits as it may. */
  lemma WholeGreedy(text: string, i: nat)
    requires i <= |text|
    ensures
      var a := if i < |text| && text[i] == '-' then i + 1 else i;
      match WholePart(text, i)
      case Some(w) => WholeIn(text, a, w) && (forall b: nat :: WholeIn(text, a, b) ==> b <= w)
        && (forall b: nat :: WholeIn(text, a, b) && b < w ==> IsDigit(text[b]))
      case None => forall b: nat :: !WholeIn(text, a, b)
  {
    var a := if i < |text| && text[i] == '-' then i + 1 else i;
    if a < |text| && IsDigit(text[a]) {
      assert DigitsIn(text, a, a + 1);
      DigitsBound(text, a, a + 1);
      forall b: nat | WholeIn(text, a, b) ensures b <= Digits(text, a) { DigitsBound(text, a, b); }
    }
  }

  lemma FractionGreedy(text: string, b: nat)
    requires b <= |text|
    ensures
      var f := Fraction(text, b);
      && FractionIn(text, b, f) && (forall c: nat :: FractionIn(text, b, c) ==> c <= f)
      && (forall c: nat :: FractionIn(text, b, c) && c < f ==> IsDigit(text[c]) || text[c] == '.')
  {
    if b + 1 < |text| && text[b] == '.' && IsDigit(text[b + 1]) {
      assert DigitsIn(text, b + 1, b + 2);
      DigitsBound(text, b + 1, b + 2);
    }
    forall c: nat | FractionIn(text, b, c) && c != b
      ensures c <= Fraction(text, b)
    {
      assert IsDigit(text[b + 1]);
      DigitsBound(text, b + 1, c);
    }
  }

  lemma ExponentGreedy(text: string, c: nat)
    requires c <= |text|
    ensures ExponentIn(text, c, Exponent(text, c)) && forall e: nat :: ExponentIn(text, c, e) ==> e <= Exponent(text, c)
  {
    if c < |text| && (text[c] == 'e' || text[c] == 'E') {
      var sign := if c + 1 < |text| && (text[c + 1] == '-' || text[c + 1] == '+') then c + 2 else c + 1;
      if sign < |text| && IsDigit(text[sign]) {
        assert DigitsIn(text, sign, sign + 1);
        DigitsBound(text, sign, sign + 1);
      }
      forall e: nat | ExponentIn(text, c, e) && e != c
        ensures e <= Exponent(text, c)
      {
        assert DigitsIn(text, sign, e) && IsDigit(text[sign]);
        DigitsBound(text, sign, e);
      }
    }
  }

  /** The scanner's number is the longest that stands there. */
  lemma NumberGreedy(text: string, i: nat)
    requires i <= |text|
    ensures match WholePart(text, i)
      case Some(w) =>
        var end := Exponent(text, Fraction(text, w));
        NumberIn(text, i, end) && forall e: nat :: NumberIn(text, i, e) ==> e <= end
      case None => forall e: nat :: !NumberIn(text, i, e)
  {
    hide Digits, WholePart, Fraction, Exponent, WholeIn, FractionIn, ExponentIn;
    WholeGreedy(text, i);
    var a0 := if i < |text| && text[i] == '-' then i + 1 else i;
    var whole := WholePart(text, i);
    if whole.Some? {
      var w := whole.value;
      FractionGreedy(text, w);
      var f := Fraction(text, w);
      ExponentGreedy(text, f);
      assert NumberParts(text, i, a0, w, f, Exponent(text, f));
    }
    forall e: nat | NumberIn(text, i, e)
      ensures whole.Some? && e <= Exponent(text, Fraction(text, whole.value))
    {
      var a: nat, b: nat, c: nat :| NumberParts(text, i, a, b, c, e);
      SignIsForced(text, i, a, b);
      NumberBound(text, whole.value, b, c, e);
    }
  }

  lemma SignIsForced(text: string, i: nat, a: nat, b: nat)
    requires (a == i || (i < |text| && text[i] == '-' && a == i + 1)) && WholeIn(text, a, b)
    ensures a == if i < |text| && text[i] == '-' then i + 1 else i
  {
    assert IsDigit(text[a]);
  }

  /** A part that ends early leaves nothing for the next to begin with. */
  lemma NumberBound(text: string, w: nat, b: nat, c: nat, e: nat)
    requires b <= w <= |text| && (b < w ==> IsDigit(text[b])) && FractionIn(text, b, c) && ExponentIn(text, c, e)
    ensures e <= Exponent(text, Fraction(text, w))
  {
    if b == w {
      FractionGreedy(text, w);
      var f := Fraction(text, w);
      if c == f {
        ExponentGreedy(text, f);
      } else {
        assert c < f;
      }
    }
  }

  /** A scalar of the scanner is a scalar of the grammar, and the longest there. */
  lemma ScalarMeans(text: string, i: nat, e: nat)
    requires i <= |text|
    ensures ScanScalar(text, i) == Some(e) <==> ScalarIn(text, i, e)
  {
    NumberGreedy(text, i);
    hide WholePart, Fraction, Exponent;
    WordsApart(text, i);
    hide NumberIn;
    if exists n: nat :: NumberIn(text, i, n) { NumberStarts(text, i); }
  }

  lemma NumberStarts(text: string, i: nat)
    requires exists n: nat :: NumberIn(text, i, n)
    ensures i < |text| && (text[i] == '-' || IsDigit(text[i]))
  {
    var n: nat :| NumberIn(text, i, n);
    var a: nat, b: nat, c: nat :| NumberParts(text, i, a, b, c, n);
    assert IsDigit(text[a]);
  }

  lemma WordsApart(text: string, i: nat)
    ensures StartsWith(text, "null", i) ==> text[i] == 'n'
    ensures StartsWith(text, "true", i) ==> text[i] == 't'
    ensures StartsWith(text, "false", i) ==> text[i] == 'f'
  {
    if StartsWith(text, "null", i) { assert text[i..i + 4][0] == "null"[0]; }
    if StartsWith(text, "true", i) { assert text[i..i + 4][0] == "true"[0]; }
    if StartsWith(text, "false", i) { assert text[i..i + 5][0] == "false"[0]; }
  }

  // ----- Strings (section 7)

  predicate Unescaped(n: int) {
    0x20 <= n <= 0x21 || 0x23 <= n <= 0x5B || 0x5D <= n <= 0x10FFFF
  }

  /** The eight short escapes, by code point. */
  const SHORT_ESCAPES := {(0x22, 0x22), (0x5C, 0x5C), (0x2F, 0x2F), (0x62, 0x08), (0x66, 0x0C), (0x6E, 0x0A), (0x72, 0x0D), (0x74, 0x09)}

  predicate HexIs(c: char, v: nat) {
    v < 16 && (c == "0123456789abcdef"[v] || c == "0123456789ABCDEF"[v])
  }

  ghost predicate HexStands(text: string, i: nat, n: int) {
    exists a: nat, b: nat, c: nat, d: nat ::
      HexDigits(text, i, a, b, c, d) && n == 0x1000 * a + 0x100 * b + 0x10 * c + d
  }

  predicate HexDigits(text: string, i: nat, a: nat, b: nat, c: nat, d: nat) {
    && i + 4 <= |text|
    && HexIs(text[i], a) && HexIs(text[i + 1], b) && HexIs(text[i + 2], c) && HexIs(text[i + 3], d)
  }

  /** From `i` to `j` stands one character of a string, which stands for `n`. */
  ghost predicate CharAt(text: string, i: nat, j: nat, n: int) {
    && i < j <= |text|
    && (|| (j == i + 1 && n == text[i] as int && Unescaped(n))
        || (j == i + 2 && text[i] == '\\' && (text[i + 1] as int, n) in SHORT_ESCAPES)
        || (j == i + 6 && text[i] == '\\' && text[i + 1] == 'u' && HexStands(text, i + 2, n)))
  }

  /** Characters and a closing quote, from behind the opening one. */
  ghost predicate LiteralAt(text: string, i: nat, end: nat, points: Points)
    decreases |points|
  {
    if points == [] then i < |text| && text[i] == '"' && end == i + 1
    else exists j: nat :: CharAt(text, i, j, points[0]) && LiteralAt(text, j, end, points[1..])
  }

  lemma HexMeans(c: char, v: nat)
    ensures HexIs(c, v) <==> HexDigit(c) == Some(v)
  {
  }

  lemma Hex4Means(text: string, i: nat, n: int)
    ensures HexStands(text, i, n) <==> 0 <= n && Hex4(text, i) == Some(n)
  {
    hide HexIs, HexDigit;
    if HexStands(text, i, n) {
      var a: nat, b: nat, c: nat, d: nat :|
        HexDigits(text, i, a, b, c, d) && n == 0x1000 * a + 0x100 * b + 0x10 * c + d;
      HexMeans(text[i], a);
      HexMeans(text[i + 1], b);
      HexMeans(text[i + 2], c);
      HexMeans(text[i + 3], d);
    }
    if Hex4(text, i).Some? {
      HexMeans(text[i], HexDigit(text[i]).value);
      HexMeans(text[i + 1], HexDigit(text[i + 1]).value);
      HexMeans(text[i + 2], HexDigit(text[i + 2]).value);
      HexMeans(text[i + 3], HexDigit(text[i + 3]).value);
      assert HexDigits(text, i, HexDigit(text[i]).value, HexDigit(text[i + 1]).value,
                       HexDigit(text[i + 2]).value, HexDigit(text[i + 3]).value);
    }
  }

  lemma EscapeMeans(c: char, n: int)
    ensures (c as int, n) in SHORT_ESCAPES <==> Escape(c) == Some(n)
  {
  }

  /** The grammar's characters, as the scanner looks at them. */
  lemma CharMeans(text: string, i: nat, j: nat, n: int)
    requires i < |text|
    ensures text[i] != '\\' ==>
      (CharAt(text, i, j, n) <==> j == i + 1 && n == text[i] as int && text[i] >= ' ' && text[i] != '"')
    ensures text[i] == '\\' && i + 1 == |text| ==> !CharAt(text, i, j, n)
    ensures text[i] == '\\' && i + 1 < |text| && text[i + 1] == 'u' ==>
      (CharAt(text, i, j, n) <==> j == i + 6 && 0 <= n && Hex4(text, i + 2) == Some(n))
    ensures text[i] == '\\' && i + 1 < |text| && text[i + 1] != 'u' ==>
      (CharAt(text, i, j, n) <==> j == i + 2 && Escape(text[i + 1]) == Some(n))
  {
    Hex4Means(text, i + 2, n);
    if i + 1 < |text| { EscapeMeans(text[i + 1], n); }
    hide HexStands, Hex4;
    assert Escape('u').None?;
    if text[i] == '\\' && i + 1 < |text| && text[i + 1] == 'u' { EscapeMeans('u', n); }
  }

  lemma PieceIsChar(text: string, i: nat)
    requires i < |text| && text[i] != '"' && ScanString(text, i).Some? && FirstPiece(text[i..]).Some?
    ensures var p := FirstPiece(text[i..]).value; CharAt(text, i, i + p.0, p.1)
  {
    PieceOf(text, i);
    var p := FirstPiece(text[i..]).value;
    CharMeans(text, i, i + p.0, p.1);
    hide Hex4, Escape, FirstPiece;
  }

  lemma OneChar(text: string, i: nat, j: nat, n: int, end: nat, rest: Points)
    requires CharAt(text, i, j, n) && LiteralAt(text, j, end, rest)
    ensures LiteralAt(text, i, end, [n] + rest)
  {
    assert ([n] + rest)[1..] == rest;
  }

  /** What the scanner accepts is a literal of the grammar. */
  lemma {:induction false} ScanIsLiteral(text: string, i: nat) returns (points: Points)
    requires i <= |text| && ScanString(text, i).Some?
    ensures LiteralAt(text, i, ScanString(text, i).value.end, points)
    ensures JoinPairs(points) == ScanString(text, i).value.value
    ensures points != [] ==> i < |text| && FirstPiece(text[i..]).Some? && points[0] == FirstPiece(text[i..]).value.1
    decreases |text| - i
  {
    hide ScanString, FirstPiece, Joined, JoinPairs, PairAt, High, Low, CharAt;
    var end := ScanString(text, i).value.end;
    if text[i] == '"' {
      EmptyLiteral(text, i, 0);
      points := [];
    } else {
      ScanByPieces(text, i);
      var p := FirstPiece(text[i..]).value;
      PieceIsChar(text, i);
      CharInText(text, i, i + p.0, p.1);
      if PairAt(text, i) {
        var rest := ScanIsLiteral(text, i + 12);
        PairedPieces(text, i);
        PairIsChar(text, i);
        var m := FirstPiece(text[i + 6..]).value;
        OneChar(text, i + 6, i + 12, m.1, end, rest);
        OneChar(text, i, i + 6, p.1, end, [m.1] + rest);
        points := [p.1] + ([m.1] + rest);
        assert points == [p.1, m.1] + rest;
        JoinTwo(p.1, m.1, rest);
      } else {
        var rest := ScanIsLiteral(text, i + p.0);
        OneChar(text, i, i + p.0, p.1, end, rest);
        if rest != [] { Unpaired(text, i); }
        points := [p.1] + rest;
        JoinOne(p.1, rest);
      }
    }
  }

  lemma PairIsChar(text: string, i: nat)
    requires i < |text| && PairAt(text, i)
    ensures i + 12 <= |text| && CharAt(text, i + 6, i + 12, FirstPiece(text[i + 6..]).value.1)
  {
    LowNeedsEscape(text, i + 6);
    CharMeans(text, i + 6, i + 12, FirstPiece(text[i + 6..]).value.1);
    hide FirstPiece;
  }

  lemma Unpaired(text: string, i: nat)
    requires i < |text| && FirstPiece(text[i..]).Some? && !PairAt(text, i)
    requires var next := i + FirstPiece(text[i..]).value.0; next < |text| && FirstPiece(text[next..]).Some?
    ensures var next := i + FirstPiece(text[i..]).value.0;
      !High(FirstPiece(text[i..]).value.1) || !Low(FirstPiece(text[next..]).value.1)
  {
    var next := i + FirstPiece(text[i..]).value.0;
    if High(FirstPiece(text[i..]).value.1) { PieceOfSurrogate(text, i); }
    if Low(FirstPiece(text[next..]).value.1) { PieceOfSurrogate(text, next); }
    hide FirstPiece;
  }

  /** Only a `\\u` escape stands for a surrogate. */
  lemma SurrogateNeedsEscape(text: string, i: nat, j: nat, n: int)
    requires CharAt(text, i, j, n) && (High(n) || Low(n))
    ensures j == i + 6 && text[i] == '\\' && text[i + 1] == 'u' && Hex4(text, i + 2) == Some(n)
  {
    CharInText(text, i, j, n);
    CharMeans(text, i, j, n);
    hide Hex4;
  }

  /** A pair of escapes in front of a literal. */
  lemma PairStep(text: string, i: nat, n: int, k: nat, m: int, end: nat, rest: Points)
    requires CharAt(text, i, i + 6, n) && CharAt(text, i + 6, k, m) && High(n) && Low(m)
    requires k < |text| && ScanString(text, k) == Some(Scanned(JoinPairs(rest), end))
    ensures ScanString(text, i) == Some(Scanned(JoinPairs([n, m] + rest), end))
  {
    hide Joined, JoinPairs, Hex4, CharAt;
    SurrogateNeedsEscape(text, i, i + 6, n);
    SurrogateNeedsEscape(text, i + 6, k, m);
    JoinTwo(n, m, rest);
  }

  /** One character in front of a literal, when it is not the first half of a pair. */
  lemma CharStep(text: string, i: nat, j: nat, n: int, end: nat, rest: Points)
    requires CharAt(text, i, j, n) && LiteralAt(text, j, end, rest)
    requires rest == [] || !High(n) || !Low(rest[0])
    requires j < |text| && ScanString(text, j) == Some(Scanned(JoinPairs(rest), end))
    ensures ScanString(text, i) == Some(Scanned(JoinPairs([n] + rest), end))
  {
    hide Joined, JoinPairs, Hex4, Escape, CharAt;
    CharInText(text, i, j, n);
    CharMeans(text, i, j, n);
    JoinOne(n, rest);
    if text[i] == '\\' && text[i + 1] == 'u' && High(n) && i + 7 < |text| && text[i + 6] == '\\' && text[i + 7] == 'u' {
      assert rest != [] && exists k: nat :: CharAt(text, j, k, rest[0]);
      var k: nat :| CharAt(text, j, k, rest[0]);
      CharMeans(text, j, k, rest[0]);
    }
  }

  /** A literal of the grammar is what the scanner reads. */
  lemma {:induction false} LiteralIsScan(text: string, i: nat, end: nat, points: Points)
    requires LiteralAt(text, i, end, points)
    ensures i < |text| && ScanString(text, i) == Some(Scanned(JoinPairs(points), end))
    decreases |points|
  {
    hide Joined, JoinPairs, ScanString, CharAt;
    if points == [] {
      EmptyLiteral(text, i, 0);
    } else {
      var n, rest := points[0], points[1..];
      assert points == [n] + rest;
      var j: nat :| CharAt(text, i, j, n) && LiteralAt(text, j, end, rest);
      CharInText(text, i, j, n);
      if rest != [] && High(n) && Low(rest[0]) {
        var m, more := rest[0], rest[1..];
        var k: nat :| CharAt(text, j, k, m) && LiteralAt(text, k, end, more);
        LiteralIsScan(text, k, end, more);
        SurrogateNeedsEscape(text, i, j, n);
        PairStep(text, i, n, k, m, end, more);
        assert points == [n, m] + more;
      } else {
        LiteralIsScan(text, j, end, rest);
        CharStep(text, i, j, n, end, rest);
      }
    }
  }

  lemma CharInText(text: string, i: nat, j: nat, n: int)
    requires CharAt(text, i, j, n)
    ensures i < j <= |text|
  {
  }

  /**
   The scanner reads exactly the strings of the grammar: it fails when there is none, and otherwise gives the
   characters they stand for, two escaped surrogates for one.
   */
  lemma StringMeans(text: string, i: nat, end: nat, value: Points)
    requires i <= |text|
    ensures ScanString(text, i) == Some(Scanned(value, end)) <==>
      exists points :: LiteralAt(text, i, end, points) && JoinPairs(points) == value
  {
    hide ScanString, LiteralAt, JoinPairs;
    if ScanString(text, i).Some? { var points := ScanIsLiteral(text, i); }
    forall points | LiteralAt(text, i, end, points)
      ensures ScanString(text, i) == Some(Scanned(JoinPairs(points), end))
    {
      LiteralIsScan(text, i, end, points);
    }
  }

  // ----- Paths

  /** The step leads to part `k`: by its key in an object, by its place in an array. */
  predicate StepIs(n: Node, k: nat, step: Step)
    requires n.Group? && k < |n.parts|
  {
    match step
    case Named(name) => n.braced && n.parts[k].key.Some? && n.parts[k].key.value.name == name
    case At(position) => !n.braced && k == position
  }

  /** Following the path from `n`, step by step, leads to `m`. */
  ghost predicate Addresses(n: Node, path: Path, m: Node)
    decreases |path|
  {
    if path == [] then n == m
    else n.Group? && exists k: nat :: AddressesBy(n, path, m, k)
  }

  ghost predicate AddressesBy(n: Node, path: Path, m: Node, k: nat)
    requires path != [] && n.Group?
    decreases |path|, 0
  {
    k < |n.parts| && StepIs(n, k, path[0]) && Addresses(n.parts[k].value, path[1..], m)
  }

  /** The span is that of the string value `m`, between its quotes. */
  predicate SpanOf(s: Span, m: Node) {
    m.Literal? && m.end > 0 && s.first == m.start + 1 && s.last == m.end - 1 && s.value == m.points
  }

  ghost predicate AddressedFrom(n: Node, base: Path, s: Span) {
    base <= s.path && exists m :: Addresses(n, s.path[|base|..], m) && SpanOf(s, m)
  }

  /** The recorded values are exactly the string values of the tree, each under the path that leads to it. */
  lemma {:induction false} SpansAreAddressed(text: string, n: Node, depth: nat, base: Path, s: Span)
    requires Parsed(text, n, depth)
    ensures s in Spans(n, base) <==> AddressedFrom(n, base, s)
    decreases n, 1
  {
    hide Parsed;
    if n.Group? {
      SpansOfGroup(n, base);
      PartsAddressed(text, n, depth, base, s);
    } else {
      LeafAddressed(text, n, depth, base, s);
    }
  }

  lemma LeafAddressed(text: string, n: Node, depth: nat, base: Path, s: Span)
    requires Parsed(text, n, depth) && !n.Group?
    ensures s in Spans(n, base) <==> AddressedFrom(n, base, s)
  {
    hide ScanString, ScanScalar;
    if base <= s.path {
      assert s.path[|base|..] == [] <==> s.path == base;
      assert s.path[|base|..] == [] ==> Addresses(n, s.path[|base|..], n);
    }
  }

  lemma {:induction false} InPartSpans(n: Node, base: Path, k: nat, s: Span)
    requires n.Group? && k <= |n.parts|
    ensures s in PartSpans(n, base, k) <==>
      exists j: nat :: j < k && s in Spans(n.parts[j].value, base + [StepOf(n.parts[j], j)])
  {
    hide Spans;
    if k > 0 { InPartSpans(n, base, k - 1, s); }
  }

  /** In a parsed tree an object's parts have keys and an array's have none. */
  lemma StepIsStepOf(text: string, n: Node, depth: nat, k: nat, step: Step)
    requires Parsed(text, n, depth) && n.Group? && k < |n.parts|
    ensures StepIs(n, k, step) <==> step == StepOf(n.parts[k], k)
  {
    PartOfGroup(text, n, depth, k);
    hide Parsed, ScanString, Blank;
  }

  lemma PartAddressed(text: string, n: Node, depth: nat, base: Path, s: Span, k: nat)
    requires Parsed(text, n, depth) && n.Group? && k < |n.parts|
    ensures
      var step := StepOf(n.parts[k], k);
      AddressedFrom(n.parts[k].value, base + [step], s) <==>
        base <= s.path && |s.path| > |base| && exists m :: AddressesBy(n, s.path[|base|..], m, k) && SpanOf(s, m)
  {
    hide Parsed, Addresses, SpanOf;
    var step := StepOf(n.parts[k], k);
    if base <= s.path && |s.path| > |base| {
      var rest := s.path[|base|..];
      StepIsStepOf(text, n, depth, k, rest[0]);
      assert rest[1..] == s.path[|base| + 1..];
      assert base + [step] <= s.path <==> rest[0] == step;
    }
  }

  lemma PartsAddressed(text: string, n: Node, depth: nat, base: Path, s: Span)
    requires Parsed(text, n, depth) && n.Group?
    ensures s in PartSpans(n, base, |n.parts|) <==> AddressedFrom(n, base, s)
    decreases n, 0
  {
    hide Parsed, Spans, SpanOf, PartSpans;
    InPartSpans(n, base, |n.parts|, s);
    forall j: nat | j < |n.parts|
      ensures s in Spans(n.parts[j].value, base + [StepOf(n.parts[j], j)]) <==>
        base <= s.path && |s.path| > |base| && exists m :: AddressesBy(n, s.path[|base|..], m, j) && SpanOf(s, m)
    {
      PartOfGroup(text, n, depth, j);
      SpansAreAddressed(text, n.parts[j].value, depth + 1, base + [StepOf(n.parts[j], j)], s);
      PartAddressed(text, n, depth, base, s, j);
    }
    if AddressedFrom(n, base, s) {
      var m :| Addresses(n, s.path[|base|..], m) && SpanOf(s, m);
      GroupIsNoSpan(n, m, s);
      var rest := s.path[|base|..];
      var j := NextPart(n, rest, m);
    }
  }

  lemma NextPart(n: Node, path: Path, m: Node) returns (j: nat)
    requires n.Group? && n != m && Addresses(n, path, m)
    ensures path != [] && AddressesBy(n, path, m, j)
  {
    j :| AddressesBy(n, path, m, j);
  }

  lemma GroupIsNoSpan(n: Node, m: Node, s: Span)
    requires n.Group? && SpanOf(s, m)
    ensures n != m
  {
  }
}
