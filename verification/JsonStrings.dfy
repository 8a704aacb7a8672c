/** String literals and scalars of strict JSON (RFC 8259), as positions in a text. */
module JsonStrings {
  import opened Options

  /** Decoded text: escapes may name surrogates on their own, so it is a list of code points. */
  type Points = seq<int>

  predicate IsBlank(c: char) {
    c == ' ' || c == '\t' || c == '\r' || c == '\n'
  }

  predicate Blank(text: string, i: nat, j: nat)
    requires i <= j <= |text|
  {
    forall k :: i <= k < j ==> IsBlank(text[k])
  }

  function SkipTo(text: string, i: nat): (j: nat)
    requires i <= |text|
    ensures i <= j <= |text| && Blank(text, i, j)
    ensures j < |text| ==> !IsBlank(text[j])
    decreases |text| - i
  {
    if i < |text| && IsBlank(text[i]) then SkipTo(text, i + 1) else i
  }

  lemma {:induction false} SkipIsUnique(text: string, i: nat, j: nat)
    requires i <= j < |text| && Blank(text, i, j) && !IsBlank(text[j])
    ensures SkipTo(text, i) == j
    decreases j - i
  {
    if i < j { SkipIsUnique(text, i + 1, j); }
  }

  lemma {:induction false} SkipOverBlank(text: string, i: nat, j: nat)
    requires i <= j <= |text| && Blank(text, i, j)
    ensures SkipTo(text, i) == SkipTo(text, j)
    decreases j - i
  {
    if i < j { SkipOverBlank(text, i + 1, j); }
  }

  method Skip(text: string, start: nat) returns (index: nat)
    requires start <= |text|
    ensures index == SkipTo(text, start)
  {
    index := start;
    while index < |text| && IsBlank(text[index])
      invariant start <= index <= |text| && SkipTo(text, index) == SkipTo(text, start)
    {
      index := index + 1;
    }
  }

  // ----- String literals

  function HexDigit(c: char): Option<nat> {
    if '0' <= c <= '9' then Some(c as int - '0' as int)
    else if 'a' <= c <= 'f' then Some(c as int - 'a' as int + 10)
    else if 'A' <= c <= 'F' then Some(c as int - 'A' as int + 10)
    else None
  }

  function Hex4(text: string, i: nat): (r: Option<nat>)
    ensures r.Some? ==> i + 4 <= |text| && r.value < 0x1_0000
  {
    if i + 4 > |text| then None
    else
      var a, b, c, d := HexDigit(text[i]), HexDigit(text[i + 1]), HexDigit(text[i + 2]), HexDigit(text[i + 3]);
      if a.None? || b.None? || c.None? || d.None? then None
      else Some(((a.value * 16 + b.value) * 16 + c.value) * 16 + d.value)
  }

  /** The scanner's own table of escapes. */
  function Escape(c: char): Option<int> {
    match c
    case '"' => Some(0x22)
    case '\\' => Some(0x5C)
    case '/' => Some(0x2F)
    case 'b' => Some(0x08)
    case 'f' => Some(0x0C)
    case 'n' => Some(0x0A)
    case 'r' => Some(0x0D)
    case 't' => Some(0x09)
    case _ => None
  }

  predicate High(n: int) {
    0xD800 <= n <= 0xDBFF
  }

  predicate Low(n: int) {
    0xDC00 <= n <= 0xDFFF
  }

  function Joined(high: int, low: int): int {
    0x1_0000 + (high - 0xD800) * 0x400 + (low - 0xDC00)
  }

  datatype Scanned = Scanned(value: Points, end: nat)

  function Prepend(n: int, rest: Option<Scanned>): Option<Scanned> {
    if rest.None? then None else Some(rest.value.(value := [n] + rest.value.value))
  }

  /** The strict `scanstring`: from behind the opening quote to behind the closing one. */
  function ScanString(text: string, i: nat): (r: Option<Scanned>)
    ensures r.Some? ==> i < r.value.end <= |text| && text[r.value.end - 1] == '"'
    decreases |text| - i
  {
    if i >= |text| then None
    else if text[i] == '"' then Some(Scanned([], i + 1))
    else if text[i] < ' ' then None
    else if text[i] != '\\' then Prepend(text[i] as int, ScanString(text, i + 1))
    else if i + 1 >= |text| then None
    else if text[i + 1] == 'u' then
      var n := Hex4(text, i + 2);
      if n.None? then None
      else if High(n.value) && i + 7 < |text| && text[i + 6] == '\\' && text[i + 7] == 'u' then
        var m := Hex4(text, i + 8);
        if m.None? then None
        else if Low(m.value) then Prepend(Joined(n.value, m.value), ScanString(text, i + 12))
        else Prepend(n.value, ScanString(text, i + 6))
      else Prepend(n.value, ScanString(text, i + 6))
    else
      var n := Escape(text[i + 1]);
      if n.None? then None else Prepend(n.value, ScanString(text, i + 2))
  }

  // ----- The decoded characters of a literal, one by one

  /** The walker's table of escapes. */
  const WALKER_ESCAPES: map<char, int> := map[
    '"' := '"' as int, '\\' := '\\' as int, '/' := '/' as int, 'b' := 8, 'f' := 12, 'n' := '\n' as int,
    'r' := '\r' as int, 't' := '\t' as int]

  /** The two tables are one. */
  lemma EscapesAgree(c: char)
    ensures Escape(c) == if c in WALKER_ESCAPES then Some(WALKER_ESCAPES[c]) else None
  {
  }

  /** How many characters the first piece takes, and what it stands for. */
  function FirstPiece(body: string): Option<(nat, int)>
    requires body != ""
  {
    if body[0] != '\\' then Some((1, body[0] as int))
    else if |body| < 2 then None
    else if body[1] == 'u' then
      var n := Hex4(body, 2);
      if n.None? then None else Some((6, n.value))
    else
      if body[1] in WALKER_ESCAPES then Some((2, WALKER_ESCAPES[body[1]])) else None
  }

  datatype Piece = Piece(start: nat, end: nat, point: int)

  /** The pieces of a body that starts at `at`; none when an escape is not whole. */
  function Pieces(body: string, at: nat): (r: Option<seq<Piece>>)
    decreases |body|
  {
    if body == "" then Some([])
    else
      var p := FirstPiece(body);
      if p.None? then None
      else
        var rest := Pieces(body[p.value.0..], at + p.value.0);
        if rest.None? then None else Some([Piece(at, at + p.value.0, p.value.1)] + rest.value)
  }

  /** Consecutive, none empty, from one end to the other. */
  predicate Tiles(pieces: seq<Piece>, first: nat, last: nat) {
    && (pieces == [] ==> first == last)
    && (pieces != [] ==> pieces[0].start == first && pieces[|pieces| - 1].end == last)
    && (forall k :: 0 <= k < |pieces| ==> pieces[k].start < pieces[k].end)
    && (forall k, l :: 0 <= k < |pieces| && l == k + 1 < |pieces| ==> pieces[k].end == pieces[l].start)
  }

  function PointsOf(pieces: seq<Piece>): Points {
    seq(|pieces|, k requires 0 <= k < |pieces| => pieces[k].point)
  }

  /** A high surrogate and the low one behind it stand for one character. */
  function JoinPairs(points: Points): Points {
    if points == [] then []
    else if |points| >= 2 && High(points[0]) && Low(points[1]) then
      [Joined(points[0], points[1])] + JoinPairs(points[2..])
    else [points[0]] + JoinPairs(points[1..])
  }

  /** A piece whose characters all lie before `last` is the same piece without what follows `last`. */
  lemma PieceIsLocal(text: string, i: nat, last: nat)
    requires i < last <= |text|
    requires FirstPiece(text[i..]).Some? && i + FirstPiece(text[i..]).value.0 <= last
    ensures FirstPiece(text[i..last]) == FirstPiece(text[i..])
  {
    var a, b := text[i..], text[i..last];
    assert forall k :: 0 <= k < |b| ==> a[k] == b[k];
  }

  lemma Shifted(text: string, i: nat, n: nat)
    requires i + n <= |text|
    ensures Hex4(text[i..], n) == Hex4(text, i + n)
  {
  }

  /** One more piece in front. */
  lemma PieceInFront(text: string, i: nat, last: nat, at: nat)
    requires i < last <= |text|
    requires FirstPiece(text[i..]).Some? && i + FirstPiece(text[i..]).value.0 <= last
    ensures
      var p := FirstPiece(text[i..]).value;
      var rest := Pieces(text[i + p.0..last], at + p.0);
      Pieces(text[i..last], at) ==
        if rest.None? then None else Some([Piece(at, at + p.0, p.1)] + rest.value)
  {
    PieceIsLocal(text, i, last);
    var n := FirstPiece(text[i..]).value.0;
    assert text[i..last][n..] == text[i + n..last];
  }

  lemma PointsInFront(p: Piece, rest: seq<Piece>)
    ensures PointsOf([p] + rest) == [p.point] + PointsOf(rest)
  {
  }

  lemma JoinOne(n: int, rest: Points)
    requires rest == [] || !High(n) || !Low(rest[0])
    ensures JoinPairs([n] + rest) == [n] + JoinPairs(rest)
  {
    assert ([n] + rest)[1..] == rest;
  }

  lemma JoinTwo(n: int, m: int, rest: Points)
    requires High(n) && Low(m)
    ensures JoinPairs([n, m] + rest) == [Joined(n, m)] + JoinPairs(rest)
  {
    assert ([n, m] + rest)[2..] == rest;
  }

  /** The first code point of a literal that goes on, told from its first piece. */
  ghost predicate Starts(text: string, i: nat, last: nat, at: nat, points: Points)
    requires i <= last <= |text|
  {
    && Pieces(text[i..last], at).Some?
    && points == PointsOf(Pieces(text[i..last], at).value)
    && (i == last ==> points == [])
    && (i < last ==> FirstPiece(text[i..]).Some? && points != [] && points[0] == FirstPiece(text[i..]).value.1)
  }

  /** Only a `\u` escape stands for a surrogate. */
  lemma LowNeedsEscape(text: string, i: nat)
    requires i < |text| && FirstPiece(text[i..]).Some? && Low(FirstPiece(text[i..]).value.1)
    ensures i + 1 < |text| && text[i] == '\\' && text[i + 1] == 'u'
    ensures Hex4(text, i + 2) == Some(FirstPiece(text[i..]).value.1)
  {
    assert text[i..][0] == text[i];
    if text[i] == '\\' { assert text[i..][1] == text[i + 1]; }
    Shifted(text, i, 2);
  }

  /** Two escapes that stand for one character. */
  predicate PairAt(text: string, i: nat)
    requires i < |text|
  {
    && FirstPiece(text[i..]).Some? && High(FirstPiece(text[i..]).value.1)
    && FirstPiece(text[i..]).value.0 == 6 && i + 6 < |text|
    && FirstPiece(text[i + 6..]).Some? && Low(FirstPiece(text[i + 6..]).value.1)
    && FirstPiece(text[i + 6..]).value.0 == 6
  }

  lemma PieceOf(text: string, i: nat)
    requires i < |text|
    ensures text[i] != '\\' ==> FirstPiece(text[i..]) == Some((1, text[i] as int))
    ensures text[i] == '\\' && i + 1 < |text| && text[i + 1] == 'u' && Hex4(text, i + 2).Some? ==>
              FirstPiece(text[i..]) == Some((6, Hex4(text, i + 2).value))
    ensures text[i] == '\\' && i + 1 < |text| && text[i + 1] != 'u' && Escape(text[i + 1]).Some? ==>
              FirstPiece(text[i..]) == Some((2, Escape(text[i + 1]).value))
  {
    assert text[i..][0] == text[i];
    if i + 1 < |text| { assert text[i..][1] == text[i + 1]; }
    if i + 2 <= |text| { Shifted(text, i, 2); }
  }

  /** The scanner, told by pieces. */
  lemma ScanByPieces(text: string, i: nat)
    requires i < |text| && text[i] != '"' && ScanString(text, i).Some?
    ensures FirstPiece(text[i..]).Some?
    ensures
      var p := FirstPiece(text[i..]).value;
      if PairAt(text, i) then
        i + 12 <= |text| &&
        ScanString(text, i) == Prepend(Joined(p.1, FirstPiece(text[i + 6..]).value.1), ScanString(text, i + 12))
      else
        i + p.0 <= |text| && ScanString(text, i) == Prepend(p.1, ScanString(text, i + p.0))
  {
    hide Hex4, FirstPiece;
    PieceOf(text, i);
    if PairAt(text, i) {
      PieceIsEscape(text, i);
      LowNeedsEscape(text, i + 6);
    } else if text[i] == '\\' && text[i + 1] == 'u' && i + 6 < |text| {
      PieceOf(text, i + 6);
    }
  }

  /** Only a `\u` escape takes six characters. */
  lemma PieceIsEscape(text: string, i: nat)
    requires i < |text| && FirstPiece(text[i..]).Some? && FirstPiece(text[i..]).value.0 == 6
    ensures i + 1 < |text| && text[i] == '\\' && text[i + 1] == 'u'
  {
    assert text[i..][0] == text[i];
    if text[i] == '\\' { assert text[i..][1] == text[i + 1]; }
  }

  lemma EndsAtQuote(text: string, i: nat)
    requires i < |text| && ScanString(text, i).Some? && text[i] != '"'
    ensures i + 1 < ScanString(text, i).value.end
  {
  }

  lemma EmptyLiteral(text: string, i: nat, at: nat)
    requires i < |text| && text[i] == '"'
    ensures ScanString(text, i) == Some(Scanned([], i + 1))
    ensures Starts(text, i, i, at, []) && JoinPairs([]) == []
  {
    assert text[i..i] == "";
  }

  lemma PairedPieces(text: string, i: nat)
    requires i < |text| && PairAt(text, i)
    ensures i + 6 < |text| && FirstPiece(text[i..]).Some? && FirstPiece(text[i + 6..]).Some?
    ensures FirstPiece(text[i..]).value.0 == FirstPiece(text[i + 6..]).value.0 == 6
    ensures High(FirstPiece(text[i..]).value.1) && Low(FirstPiece(text[i + 6..]).value.1)
  {
  }

  lemma StartsInFront(text: string, i: nat, last: nat, at: nat, rest: Points)
    requires i < last <= |text| && FirstPiece(text[i..]).Some?
    requires i + FirstPiece(text[i..]).value.0 <= last
    requires Starts(text, i + FirstPiece(text[i..]).value.0, last, at + FirstPiece(text[i..]).value.0, rest)
    ensures Starts(text, i, last, at, [FirstPiece(text[i..]).value.1] + rest)
  {
    var p := FirstPiece(text[i..]).value;
    PieceInFront(text, i, last, at);
    hide FirstPiece, Pieces;
    PointsInFront(Piece(at, at + p.0, p.1), Pieces(text[i + p.0..last], at + p.0).value);
  }

  /** Behind a high surrogate that is not paired comes no low one. */
  lemma LoneStaysLone(text: string, i: nat, last: nat, at: nat, rest: Points)
    requires i < last <= |text| && FirstPiece(text[i..]).Some? && !PairAt(text, i)
    requires i + FirstPiece(text[i..]).value.0 <= last
    requires Starts(text, i + FirstPiece(text[i..]).value.0, last, at, rest)
    ensures rest == [] || !High(FirstPiece(text[i..]).value.1) || !Low(rest[0])
  {
    hide Pieces, PointsOf;
    var p := FirstPiece(text[i..]).value;
    if High(p.1) && rest != [] && Low(rest[0]) {
      PieceOfSurrogate(text, i);
      PieceOfSurrogate(text, i + p.0);
    }
  }

  /**
   The characters read one by one from a literal the scanner accepted, with surrogate pairs joined,
   are the value the scanner gave it.
   */
  lemma {:induction false} CharactersAreValue(text: string, i: nat, at: nat) returns (points: Points)
    requires i <= |text| && ScanString(text, i).Some?
    ensures
      var s := ScanString(text, i).value;
      Starts(text, i, s.end - 1, at, points) && JoinPairs(points) == s.value
    decreases |text| - i
  {
    hide ScanString, FirstPiece, Joined, JoinPairs, Starts, PairAt, High, Low;
    var last := ScanString(text, i).value.end - 1;
    if text[i] == '"' {
      EmptyLiteral(text, i, at);
      points := [];
    } else {
      ScanByPieces(text, i);
      EndsAtQuote(text, i);
      var p := FirstPiece(text[i..]).value;
      if PairAt(text, i) {
        var rest := CharactersAreValue(text, i + 12, at + 12);
        PairedPieces(text, i);
        var m := FirstPiece(text[i + 6..]).value;
        StartsInFront(text, i + 6, last, at + 6, rest);
        StartsInFront(text, i, last, at, [m.1] + rest);
        points := [p.1] + ([m.1] + rest);
        assert points == [p.1, m.1] + rest;
        JoinTwo(p.1, m.1, rest);
      } else {
        var rest := CharactersAreValue(text, i + p.0, at + p.0);
        StartsInFront(text, i, last, at, rest);
        LoneStaysLone(text, i, last, at + p.0, rest);
        points := [p.1] + rest;
        JoinOne(p.1, rest);
      }
    }
  }

  lemma PieceOfSurrogate(text: string, i: nat)
    requires i < |text| && FirstPiece(text[i..]).Some?
    requires High(FirstPiece(text[i..]).value.1) || Low(FirstPiece(text[i..]).value.1)
    ensures FirstPiece(text[i..]).value.0 == 6
  {
  }
}
