/**
 Byte ranges of the grounding document's string values, by coverage target, and the decoded
 characters inside a range.
 */
module Grounding {
  import opened Options
  import opened JsonStrings
  import opened JsonSpans
  import opened JsonScan
  import opened Spaces
  import opened Utf8

  type Range = (nat, nat)

  function PointsOfText(s: string): Points {
    seq(|s|, k requires 0 <= k < |s| => s[k] as int)
  }

  datatype Target = Target(prefix: Path, name: string)

  const TARGETS: seq<Target> := [
    Target([Named(PointsOfText("key_results"))], "key_results"),
    Target([Named(PointsOfText("human")), Named(PointsOfText("key_results_human"))], "key_results_human"),
    Target([Named(PointsOfText("open_threads"))], "open_threads"),
    Target([Named(PointsOfText("human")), Named(PointsOfText("limitations"))], "limitations_human")
  ]

  /** Something is left after stripping. */
  predicate Visible(points: Points) {
    exists n :: n in points && !IsSpace(n)
  }

  predicate Wanted(s: Span, t: Target) {
    t.prefix <= s.path && Visible(s.value)
  }

  function RangeOf(text: string, s: Span): Range
    requires s.first <= s.last <= |text|
  {
    (OffsetOf(text, s.first), OffsetOf(text, s.last))
  }

  predicate Fits(text: string, spans: seq<Span>) {
    forall s :: s in spans ==> s.first <= s.last < |text|
  }

  /** A target's ranges: those of the wanted values, in order. */
  function RangesFor(text: string, spans: seq<Span>, t: Target): seq<Range>
    requires Fits(text, spans)
  {
    if spans == [] then []
    else
      var last := spans[|spans| - 1];
      RangesFor(text, spans[..|spans| - 1], t) + if Wanted(last, t) then [RangeOf(text, last)] else []
  }

  // ----- Where the document stands

  function FindNewline(text: string, i: nat): (at: Option<nat>)
    requires i <= |text|
    ensures at.Some? ==> i <= at.value < |text| && text[at.value] == '\n' && '\n' !in text[i..at.value]
    decreases |text| - i
  {
    if i == |text| then None
    else if text[i] == '\n' then Some(i)
    else FindNewline(text, i + 1)
  }

  /** Where the object has to begin, and whether it is fenced; none for any other layout. */
  function ObjectStart(text: string, start: nat): (at: Option<(nat, bool)>)
    requires start <= |text|
    ensures at.Some? ==> at.value.0 < |text| && text[at.value.0] == '{' && SkipTo(text, at.value.0) == at.value.0
  {
    var index := SkipTo(text, start);
    if StartsWith(text, "```json", index) then
      var lineEnd := FindNewline(text, index);
      if lineEnd.None? then None
      else if (NewlineBehindFence(text, index); Visible(PointsOfText(text[index + 7..lineEnd.value]))) then None
      else
        var body := SkipTo(text, lineEnd.value + 1);
        if StartsWith(text, "{", body) then SkipStays(text, body); Some((body, true)) else None
    else if StartsWith(text, "{", index) then SkipStays(text, index); Some((index, false))
    else None
  }

  lemma NewlineBehindFence(text: string, i: nat)
    requires StartsWith(text, "```json", i) && FindNewline(text, i).Some?
    ensures i + 7 <= FindNewline(text, i).value
  {
    forall j | i <= j < i + 7
      ensures text[j] != '\n'
    {
      assert text[i..i + 7][j - i] == "```json"[j - i];
    }
  }

  lemma SkipStays(text: string, i: nat)
    requires StartsWith(text, "{", i)
    ensures i < |text| && text[i] == '{' && SkipTo(text, i) == i
  {
    assert text[i..i + 1][0] == '{';
  }

  /** A tree stands where the document has to, and a fence that was opened is closed behind it. */
  ghost predicate IsDocument(text: string, start: nat, n: Node)
    requires start <= |text|
  {
    var at := ObjectStart(text, start);
    && at.Some? && n.start == at.value.0 && OnlyTree(text, n, 0) && n.end <= |text|
    && (at.value.1 ==> StartsWith(text, "```", SkipTo(text, n.end)))
  }

  ghost predicate HasDocument(text: string, start: nat)
    requires start <= |text|
  {
    exists n :: IsDocument(text, start, n)
  }

  // ----- From spans to ranges

  predicate IsTarget(name: string) {
    exists t :: t in TARGETS && t.name == name
  }

  datatype Picked = Picked(name: string, first: nat, last: nat)

  /** The targets up to `k` that want this value. */
  function PicksUpTo(s: Span, k: nat): seq<Picked>
    requires k <= |TARGETS|
  {
    if k == 0 then []
    else
      var t := TARGETS[k - 1];
      PicksUpTo(s, k - 1) + if Wanted(s, t) then [Picked(t.name, s.first, s.last)] else []
  }

  function Picks(spans: seq<Span>): seq<Picked> {
    if spans == [] then []
    else Picks(spans[..|spans| - 1]) + PicksUpTo(spans[|spans| - 1], |TARGETS|)
  }

  predicate PicksFit(text: string, picks: seq<Picked>) {
    forall p :: p in picks ==> p.first <= p.last < |text|
  }

  function NamedRanges(text: string, picks: seq<Picked>, name: string): seq<Range>
    requires PicksFit(text, picks)
  {
    if picks == [] then []
    else
      var last := picks[|picks| - 1];
      NamedRanges(text, picks[..|picks| - 1], name)
      + if last.name == name then [(OffsetOf(text, last.first), OffsetOf(text, last.last))] else []
  }

  lemma {:induction false} NamedConcat(text: string, a: seq<Picked>, b: seq<Picked>, name: string)
    requires PicksFit(text, a + b)
    ensures PicksFit(text, a) && PicksFit(text, b)
    ensures NamedRanges(text, a + b, name) == NamedRanges(text, a, name) + NamedRanges(text, b, name)
    decreases |b|
  {
    assert forall p :: p in a || p in b ==> p in a + b;
    if b == [] {
      assert a + b == a;
    } else {
      var rest := b[..|b| - 1];
      assert (a + b)[..|a + b| - 1] == a + rest;
      NamedConcat(text, a, rest, name);
    }
  }

  lemma {:induction false} PicksUpToFit(text: string, s: Span, k: nat)
    requires k <= |TARGETS| && s.first <= s.last < |text|
    ensures PicksFit(text, PicksUpTo(s, k))
  {
    if k > 0 { PicksUpToFit(text, s, k - 1); }
  }

  lemma {:induction false} PicksOfFit(text: string, spans: seq<Span>)
    requires Fits(text, spans)
    ensures PicksFit(text, Picks(spans))
  {
    if spans != [] {
      PicksOfFit(text, spans[..|spans| - 1]);
      PicksUpToFit(text, spans[|spans| - 1], |TARGETS|);
    }
  }

  lemma NamesDiffer(i: nat, j: nat)
    requires i < |TARGETS| && j < |TARGETS| && i != j
    ensures TARGETS[i].name != TARGETS[j].name
  {
    assert |TARGETS[0].name| == 11 && |TARGETS[1].name| == 17 && |TARGETS[2].name| == 12 && |TARGETS[3].name| == 17;
    assert TARGETS[1].name[0] != TARGETS[3].name[0];
  }

  /** Each target picks a value once. */
  lemma {:induction false} OnePick(text: string, s: Span, k: nat, i: nat)
    requires k <= |TARGETS| && i < |TARGETS| && s.first <= s.last < |text|
    ensures PicksFit(text, PicksUpTo(s, k))
    ensures NamedRanges(text, PicksUpTo(s, k), TARGETS[i].name) ==
            if i < k && Wanted(s, TARGETS[i]) then [RangeOf(text, s)] else []
  {
    hide Wanted, OffsetOf, PicksFit, NamedRanges;
    PicksUpToFit(text, s, k);
    if k == 0 {
      NoPick(text, TARGETS[i].name);
    } else {
      OnePick(text, s, k - 1, i);
      if i != k - 1 { NamesDiffer(i, k - 1); }
      var t := TARGETS[k - 1];
      var more := if Wanted(s, t) then [Picked(t.name, s.first, s.last)] else [];
      NamedConcat(text, PicksUpTo(s, k - 1), more, TARGETS[i].name);
      if Wanted(s, t) { SinglePick(text, more[0], TARGETS[i].name); } else { NoPick(text, TARGETS[i].name); }
    }
  }

  lemma NoPick(text: string, name: string)
    ensures PicksFit(text, []) && NamedRanges(text, [], name) == []
  {
  }

  lemma SinglePick(text: string, p: Picked, name: string)
    requires p.first <= p.last < |text|
    ensures PicksFit(text, [p])
    ensures NamedRanges(text, [p], name) ==
            if p.name == name then [(OffsetOf(text, p.first), OffsetOf(text, p.last))] else []
  {
    assert [p][..0] == [];
  }

  lemma {:induction false} PicksAreRanges(text: string, spans: seq<Span>, i: nat)
    requires Fits(text, spans) && i < |TARGETS|
    ensures PicksFit(text, Picks(spans))
    ensures NamedRanges(text, Picks(spans), TARGETS[i].name) == RangesFor(text, spans, TARGETS[i])
  {
    hide Wanted, OffsetOf, PicksUpTo;
    PicksOfFit(text, spans);
    if spans != [] {
      var last := spans[|spans| - 1];
      PicksAreRanges(text, spans[..|spans| - 1], i);
      OnePick(text, last, |TARGETS|, i);
      NamedConcat(text, Picks(spans[..|spans| - 1]), PicksUpTo(last, |TARGETS|), TARGETS[i].name);
    }
  }

  /** What the method answers for the document `n`. */
  ghost predicate RangesOf(text: string, n: Node, found: map<string, seq<Range>>) {
    && Fits(text, Spans(n, []))
    && (forall name :: name in found <==> IsTarget(name))
    && (forall t :: t in TARGETS ==> found[t.name] == RangesFor(text, Spans(n, []), t))
  }

  method Pick(spans: seq<Span>) returns (picks: seq<Picked>)
    ensures picks == Picks(spans)
  {
    picks := [];
    for i := 0 to |spans|
      invariant picks == Picks(spans[..i])
    {
      ghost var before := picks;
      assert spans[..i + 1][..i] == spans[..i];
      for k := 0 to |TARGETS|
        invariant picks == before + PicksUpTo(spans[i], k)
      {
        if Wanted(spans[i], TARGETS[k]) {
          picks := picks + [Picked(TARGETS[k].name, spans[i].first, spans[i].last)];
        }
      }
    }
    assert spans[..|spans|] == spans;
  }

  lemma NamedStep(text: string, picks: seq<Picked>, i: nat)
    requires i < |picks| && PicksFit(text, picks)
    ensures PicksFit(text, picks[..i]) && PicksFit(text, picks[..i + 1])
    ensures forall name ::
      NamedRanges(text, picks[..i + 1], name) == NamedRanges(text, picks[..i], name)
        + if picks[i].name == name then [(OffsetOf(text, picks[i].first), OffsetOf(text, picks[i].last))] else []
  {
    hide OffsetOf;
    assert picks[..i + 1][..i] == picks[..i];
  }

  lemma NothingPicked(text: string)
    ensures PicksFit(text, []) && forall name :: NamedRanges(text, [], name) == []
  {
  }

  function NoRanges(): (found: map<string, seq<Range>>)
    ensures forall name :: name in found <==> IsTarget(name)
    ensures forall name :: name in found ==> found[name] == []
  {
    map t | t in TARGETS :: t.name := []
  }

  lemma PicksWithin(text: string, picks: seq<Picked>)
    requires PicksFit(text, picks)
    ensures forall p :: p in picks ==> p.first <= |text| && p.last <= |text|
  {
  }

  method Collect(text: string, picks: seq<Picked>) returns (found: map<string, seq<Range>>)
    requires PicksFit(text, picks) && forall p :: p in picks ==> IsTarget(p.name)
    ensures forall name :: name in found <==> IsTarget(name)
    ensures forall name :: name in found ==> found[name] == NamedRanges(text, picks, name)
  {
    hide *;
    PicksWithin(text, picks);
    NothingPicked(text);
    var positions := (set p | p in picks :: p.first) + (set p | p in picks :: p.last);
    var offsets := ByteOffsets(text, positions);
    found := NoRanges();
    ghost var targets := found.Keys;
    assert picks[..0] == [];
    for i := 0 to |picks|
      invariant found.Keys == targets
      invariant PicksFit(text, picks[..i])
      invariant forall name :: name in found ==> found[name] == NamedRanges(text, picks[..i], name)
    {
      var p := picks[i];
      NamedStep(text, picks, i);
      found := found[p.name := found[p.name] + [(offsets[p.first], offsets[p.last])]];
    }
    assert picks[..|picks|] == picks;
  }

  lemma {:induction false} PickNames(spans: seq<Span>)
    ensures forall p :: p in Picks(spans) ==> IsTarget(p.name)
  {
    if spans != [] {
      PickNames(spans[..|spans| - 1]);
      PickNamesUpTo(spans[|spans| - 1], |TARGETS|);
    }
  }

  lemma {:induction false} PickNamesUpTo(s: Span, k: nat)
    requires k <= |TARGETS|
    ensures forall p :: p in PicksUpTo(s, k) ==> IsTarget(p.name)
  {
    if k > 0 {
      PickNamesUpTo(s, k - 1);
      assert TARGETS[k - 1] in TARGETS;
    }
  }

  lemma SpansFit(text: string, n: Node, depth: nat)
    requires Parsed(text, n, depth)
    ensures Fits(text, Spans(n, []))
  {
    hide Parsed, Spans;
    SpansPlaced(text, n, depth, []);
  }

  lemma CollectedRanges(text: string, n: Node, found: map<string, seq<Range>>)
    requires Fits(text, Spans(n, [])) && PicksFit(text, Picks(Spans(n, [])))
    requires forall name :: name in found <==> IsTarget(name)
    requires forall name :: name in found ==> found[name] == NamedRanges(text, Picks(Spans(n, [])), name)
    ensures RangesOf(text, n, found)
  {
    hide Spans, Picks, NamedRanges, RangesFor;
    forall t | t in TARGETS
      ensures found[t.name] == RangesFor(text, Spans(n, []), t)
    {
      var i: nat :| i < |TARGETS| && TARGETS[i] == t;
      PicksAreRanges(text, Spans(n, []), i);
    }
  }

  /**
   Known exactly when the text is laid out as one object, fenced or not, and then the ranges are those
   of its string values.  `start` is where the front matter ends; none when it does not.
   */
  method GroundingRanges(text: string, start: Option<nat>) returns (found: Option<map<string, seq<Range>>>)
    requires start.Some? ==> start.value <= |text|
    ensures found.Some? <==> start.Some? && HasDocument(text, start.value)
    ensures found.Some? ==> forall n :: IsDocument(text, start.value, n) ==> RangesOf(text, n, found.value)
  {
    hide ScanString, SkipTo, Parsed, Spans, Picks, RangesOf, Visible, PicksFit, IsTarget, NamedRanges, Fits, Wanted;
    if start.None? { return None; }
    var index := Skip(text, start.value);
    var fenced := StartsWith(text, "```json", index);
    if fenced {
      var lineEnd := FindNewline(text, index);
      if lineEnd.None? { return None; }
      NewlineBehindFence(text, index);
      if Visible(PointsOfText(text[index + 7..lineEnd.value])) { return None; }
      index := Skip(text, lineEnd.value + 1);
    }
    if !StartsWith(text, "{", index) { return None; }
    assert ObjectStart(text, start.value) == Some((index, fenced));
    SkipStays(text, index);
    var end, strings, node := ScanValue(text, index, [], 0);
    Found(text, index, 0, [], end, strings, node);
    if end.None? { return None; }
    var behind := Skip(text, end.value);
    if fenced && !StartsWith(text, "```", behind) { return None; }
    assert IsDocument(text, start.value, node);
    SpansFit(text, node, 0);
    PickNames(strings);
    PicksOfFit(text, strings);
    var picks := Pick(strings);
    var ranges := Collect(text, picks);
    CollectedRanges(text, node, ranges);
    found := Some(ranges);
  }

  // ----- What a range is

  /** What stands between the quotes is the only text those bytes decode to. */
  ghost predicate OnlyDecoding(text: string, s: Span, bytes: Bytes)
    requires s.first <= s.last <= |text|
  {
    && bytes == Encode(text[s.first..s.last])
    && forall decoded :: Encode(decoded) == bytes ==> decoded == text[s.first..s.last]
  }

  /** The range of one wanted value: its own characters, strictly inside its quotes. */
  ghost predicate Names(text: string, s: Span, r: Range) {
    && Quoted(text, s) && s.last < |text| && r == RangeOf(text, s)
    && r.0 <= r.1 <= |Encode(text)|
    && OnlyDecoding(text, s, Encode(text)[r.0..r.1])
  }

  ghost predicate FromValue(text: string, spans: seq<Span>, t: Target, r: Range) {
    exists s :: s in spans && Wanted(s, t) && Names(text, s, r)
  }

  /** Every wanted value has its range, and every range is that of a wanted value. */
  lemma {:induction false} RangesNameValues(text: string, spans: seq<Span>, t: Target)
    requires forall s :: s in spans ==> Quoted(text, s)
    ensures Fits(text, spans)
    ensures forall s :: s in spans && Wanted(s, t) ==> RangeOf(text, s) in RangesFor(text, spans, t)
    ensures forall r :: r in RangesFor(text, spans, t) ==> FromValue(text, spans, t, r)
  {
    hide Wanted, Quoted, OffsetOf, Names;
    QuotedFit(text, spans);
    if spans != [] {
      var rest, last := spans[..|spans| - 1], spans[|spans| - 1];
      assert spans == rest + [last];
      RangesNameValues(text, rest, t);
      SpanNames(text, last);
      forall r | r in RangesFor(text, spans, t)
        ensures FromValue(text, spans, t, r)
      {
        if r in RangesFor(text, rest, t) {
          var s :| s in rest && Wanted(s, t) && Names(text, s, r);
          assert s in spans;
        } else {
          assert last in spans && r == RangeOf(text, last);
        }
      }
    }
  }

  predicate RangesIncrease(ranges: seq<Range>) {
    forall i, j :: 0 <= i < j < |ranges| ==> ranges[i].1 < ranges[j].0
  }

  lemma LastIsBehind(text: string, spans: seq<Span>)
    requires spans != [] && Increasing(spans) && forall s :: s in spans ==> Quoted(text, s)
    ensures
      var rest, last := spans[..|spans| - 1], spans[|spans| - 1];
      && Increasing(rest) && (forall s :: s in rest ==> Quoted(text, s))
      && (forall s :: s in rest ==> s.last < last.first) && last.first <= |text|
  {
    hide ScanString;
    var rest, last := spans[..|spans| - 1], spans[|spans| - 1];
    assert last in spans && Quoted(text, last);
    forall s | s in rest
      ensures s.last < last.first
    {
      var k :| 0 <= k < |rest| && rest[k] == s;
      assert spans[k] == s;
    }
  }

  lemma {:induction false} RangesInOrder(text: string, spans: seq<Span>, t: Target)
    requires Increasing(spans) && forall s :: s in spans ==> Quoted(text, s)
    ensures Fits(text, spans) && RangesIncrease(RangesFor(text, spans, t))
  {
    hide Wanted, Quoted, OffsetOf, Names, Increasing;
    QuotedFit(text, spans);
    if spans != [] {
      var rest, last := spans[..|spans| - 1], spans[|spans| - 1];
      LastIsBehind(text, spans);
      RangesInOrder(text, rest, t);
      RangesNameValues(text, rest, t);
      forall r | r in RangesFor(text, rest, t)
        ensures r.1 < OffsetOf(text, last.first)
      {
        var s :| s in rest && Wanted(s, t) && Names(text, s, r);
        NamesBefore(text, s, r, last.first);
      }
      hide Fits;
      assert RangesFor(text, spans, t) ==
        RangesFor(text, rest, t) + if Wanted(last, t) then [RangeOf(text, last)] else [];
    }
  }

  lemma NamesBefore(text: string, s: Span, r: Range, first: nat)
    requires Names(text, s, r) && s.last < first <= |text|
    ensures r.1 < OffsetOf(text, first)
  {
    hide Encode, Quoted, OnlyDecoding;
    OffsetGrows(text, s.last, first);
  }

  lemma QuotedFit(text: string, spans: seq<Span>)
    requires forall s :: s in spans ==> Quoted(text, s)
    ensures Fits(text, spans)
  {
  }

  lemma SpanNames(text: string, s: Span)
    requires Quoted(text, s)
    ensures s.last < |text| && Names(text, s, RangeOf(text, s))
  {
    hide Encode, ScanString;
    RangeSlices(text, s.first, s.last);
    forall decoded | Encode(decoded) == Encode(text[s.first..s.last])
      ensures decoded == text[s.first..s.last]
    {
      EncodeInjective(decoded, text[s.first..s.last]);
    }
  }

  /**
   For every document and target: the ranges are the values' own bytes, increasing and disjoint; each
   decodes to the characters between the quotes and nothing else does.
   */
  lemma GroundingFaithful(text: string, start: nat, n: Node, found: map<string, seq<Range>>, t: Target)
    requires start <= |text| && IsDocument(text, start, n) && RangesOf(text, n, found) && t in TARGETS
    ensures
      && RangesIncrease(found[t.name])
      && (forall r :: r in found[t.name] ==> FromValue(text, Spans(n, []), t, r))
      && Fits(text, Spans(n, []))
      && (forall s :: s in Spans(n, []) && Wanted(s, t) ==> RangeOf(text, s) in found[t.name])
  {
    hide Parsed, Spans, Wanted, Quoted, Increasing, RangesFor, FromValue, RangesIncrease, OffsetOf;
    SpansPlaced(text, n, 0, []);
    RangesNameValues(text, Spans(n, []), t);
    RangesInOrder(text, Spans(n, []), t);
  }

  // ----- The characters inside a range

  /** A piece's place in the file, given where its body starts there. */
  function InFile(body: string, first: nat, p: Piece): Piece
    requires p.start <= p.end <= |body|
  {
    Piece(first + OffsetOf(body, p.start), first + OffsetOf(body, p.end), p.point)
  }

  ghost predicate PiecesInFile(body: string, first: nat, pieces: seq<Piece>, placed: seq<Piece>) {
    && |placed| == |pieces|
    && forall k :: 0 <= k < |pieces| ==>
         pieces[k].start <= pieces[k].end <= |body| && placed[k] == InFile(body, first, pieces[k])
  }

  lemma WholeBody(body: string)
    ensures OffsetOf(body, 0) == 0 && OffsetOf(body, |body|) == |Encode(body)|
    ensures body[0..] == body && body[|body|..] == ""
    ensures Pieces(body[|body|..], |body|) == Some([])
  {
    assert body[..|body|] == body;
  }

  lemma PiecesHead(body: string, at: nat)
    requires body != "" && Pieces(body, at).Some?
    ensures FirstPiece(body).Some?
    ensures
      var p := FirstPiece(body).value;
      && 1 <= p.0 <= |body| && Pieces(body, at).value != []
      && Pieces(body, at).value[0] == Piece(at, at + p.0, p.1)
      && Pieces(body[p.0..], at + p.0) == Some(Pieces(body, at).value[1..])
  {
  }

  /** Walks a validated body, adding up byte sizes; the characters tile the range. */
  method JsonCharacters(body: string, first: nat) returns (placed: seq<Piece>)
    requires Pieces(body, 0).Some?
    ensures PiecesInFile(body, first, Pieces(body, 0).value, placed)
    ensures Tiles(placed, first, first + |Encode(body)|)
  {
    hide FirstPiece, Pieces, OffsetOf, Encode;
    var offset, index := first, 0;
    placed := [];
    ghost var all := Pieces(body, 0).value;
    WholeBody(body);
    while index < |body|
      invariant index <= |body| && offset == first + OffsetOf(body, index)
      invariant |placed| <= |all|
      invariant Pieces(body[index..], index) == Some(all[|placed|..])
      invariant PiecesInFile(body, first, all[..|placed|], placed)
      invariant Tiles(placed, first, offset)
    {
      ghost var k := |placed|;
      PiecesHead(body[index..], index);
      var p := FirstPiece(body[index..]).value;
      assert body[index..][p.0..] == body[index + p.0..];
      var piece := body[index..index + p.0];
      OffsetGrows(body, index, index + p.0);
      EncodeEmpty(piece);
      var size := |Encode(piece)|;
      assert all[k..][0] == all[k] && all[k..][1..] == all[k + 1..];
      assert all[..k + 1] == all[..k] + [all[k]];
      placed := placed + [Piece(offset, offset + size, p.1)];
      offset, index := offset + size, index + p.0;
    }
    assert all[..|placed|] == all;
  }

  /**
   The characters walked over inside a value's range, with surrogate pairs joined, are the value
   the scan read.
   */
  lemma RangeReadsValue(text: string, s: Span)
    requires Quoted(text, s) && s.last < |text|
    ensures
      var body := text[s.first..s.last];
      Pieces(body, 0).Some? && JoinPairs(PointsOf(Pieces(body, 0).value)) == s.value
  {
    hide ScanString, Pieces;
    var points := CharactersAreValue(text, s.first, 0);
  }

  // ----- The layout

  predicate IsFirstAt(text: string, first: nat, at: nat, c: char)
    requires first <= at
  {
    at < |text| && text[at] == c && forall k :: first <= k < at ==> text[k] != c
  }

  /** Blanks and an opening fence whose line holds nothing else that is visible, then blanks and an object. */
  ghost predicate FencedAt(text: string, start: nat, index: nat, line: nat, body: nat) {
    && start <= index <= line < body < |text| && Blank(text, start, index)
    && StartsWith(text, "```json", index) && index + 7 <= line && IsFirstAt(text, index + 7, line, '\n')
    && (forall k :: index + 7 <= k < line ==> IsSpace(text[k] as int))
    && Blank(text, line + 1, body) && text[body] == '{'
  }

  /** Blanks, then an object. */
  predicate PlainAt(text: string, start: nat, body: nat) {
    start <= body < |text| && Blank(text, start, body) && text[body] == '{'
  }

  lemma {:induction false} NewlineIsFirst(text: string, i: nat, first: nat)
    requires i <= first <= |text| && '\n' !in text[i..first]
    ensures match FindNewline(text, i)
      case Some(at) => first <= at && IsFirstAt(text, first, at, '\n')
      case None => forall k :: first <= k < |text| ==> text[k] != '\n'
    decreases |text| - i
  {
    if i < first { assert text[i..first][0] == text[i] && text[i + 1..first] == text[i..first][1..]; }
    if i < |text| && text[i] != '\n' {
      if i < first {
        NewlineIsFirst(text, i + 1, first);
      } else {
        assert text[i + 1..i + 1] == [];
        NewlineIsFirst(text, i + 1, i + 1);
      }
    }
  }

  lemma FenceHasNoNewline(text: string, i: nat)
    requires StartsWith(text, "```json", i)
    ensures i + 7 <= |text| && text[i] == '`' && '\n' !in text[i..i + 7]
  {
    assert text[i..i + 7][0] == text[i];
  }

  lemma VisibleMeans(text: string, i: nat, j: nat)
    requires i <= j <= |text|
    ensures Visible(PointsOfText(text[i..j])) <==> exists k :: i <= k < j && !IsSpace(text[k] as int)
  {
    var points := PointsOfText(text[i..j]);
    if Visible(points) {
      var n :| n in points && !IsSpace(n);
      var k :| 0 <= k < |points| && points[k] == n;
      assert text[i + k] as int == n;
    }
    forall k | i <= k < j ensures text[k] as int in points { assert points[k - i] == text[k] as int; }
  }

  /** The object begins where one of the two layouts says, and there is no third. */
  lemma LayoutMeans(text: string, start: nat, body: nat, fenced: bool)
    requires start <= |text|
    ensures ObjectStart(text, start) == Some((body, fenced)) <==>
      if fenced then exists index: nat, line: nat :: FencedAt(text, start, index, line, body) else PlainAt(text, start, body)
  {
    var index := SkipTo(text, start);
    if StartsWith(text, "```json", index) {
      FenceHasNoNewline(text, index);
      FencedMeans(text, start, index, body);
      if PlainAt(text, start, body) { SkipIsUnique(text, start, body); }
      forall i: nat, l: nat | FencedAt(text, start, i, l, body) ensures i == index {
        FenceHasNoNewline(text, i);
        SkipIsUnique(text, start, i);
      }
    } else {
      forall i: nat, l: nat ensures !FencedAt(text, start, i, l, body) {
        if FencedAt(text, start, i, l, body) { FenceHasNoNewline(text, i); SkipIsUnique(text, start, i); }
      }
      if PlainAt(text, start, body) {
        SkipIsUnique(text, start, body);
        BraceStarts(text, body);
      }
      if StartsWith(text, "{", index) { SkipStays(text, index); }
    }
  }

  lemma BraceStarts(text: string, i: nat)
    requires i < |text| && text[i] == '{'
    ensures StartsWith(text, "{", i)
  {
  }

  lemma FencedMeans(text: string, start: nat, index: nat, body: nat)
    requires start <= |text| && index == SkipTo(text, start) && StartsWith(text, "```json", index)
    ensures ObjectStart(text, start) == Some((body, true)) <==> exists line: nat :: FencedAt(text, start, index, line, body)
    ensures ObjectStart(text, start).Some? ==> ObjectStart(text, start).value.1
  {
    FenceHasNoNewline(text, index);
    NewlineIsFirst(text, index, index + 7);
    var at := FindNewline(text, index);
    if at.Some? {
      var line := at.value;
      VisibleMeans(text, index + 7, line);
      FoundMeans(text, line);
      forall l: nat | FencedAt(text, start, index, l, body) ensures l == line && SkipTo(text, line + 1) == body {
        SkipIsUnique(text, l + 1, body);
      }
      if ObjectStart(text, start) == Some((body, true)) { assert FencedAt(text, start, index, line, body); }
    }
  }

  lemma FoundMeans(text: string, line: nat)
    requires line < |text|
    ensures var found := SkipTo(text, line + 1); StartsWith(text, "{", found) <==> found < |text| && text[found] == '{'
  {
    var found := SkipTo(text, line + 1);
    if found < |text| && text[found] == '{' { BraceStarts(text, found); }
  }

  /** A text is visible exactly when something is left of it once it is stripped. */
  lemma {:induction false} VisibleIsStripped(s: string)
    ensures Visible(PointsOfText(s)) <==> Strip(s) != ""
    decreases |s|
  {
    VisibleMeans(s, 0, |s|);
    assert s[0..|s|] == s;
    if s != "" && IsSpace(s[0] as int) {
      VisibleIsStripped(s[1..]);
      VisibleMeans(s[1..], 0, |s| - 1);
      assert s[1..][0..|s| - 1] == s[1..];
      assert forall k :: 1 <= k < |s| ==> s[k] == s[1..][k - 1];
    } else if s != "" && IsSpace(s[|s| - 1] as int) {
      var rest := s[..|s| - 1];
      VisibleIsStripped(rest);
      VisibleMeans(rest, 0, |rest|);
      assert rest[0..|rest|] == rest;
    }
  }
}
