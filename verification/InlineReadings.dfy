/**
 What the ranges of the inline scan are, told from the text alone: the text has exactly one reading into
 comments, tags and code spans, and the ranges are its comments and code spans.

 Left to right, whatever opens first is taken whole.  Nothing opens behind a backslash that is not itself
 escaped, and what is inside a construct escapes nothing outside it.
 */
module InlineReadings {
  import opened Options
  import opened InlineScan

  datatype Kind = Comment | Tag | Code

  datatype Construct = Construct(kind: Kind, start: nat, end: nat)

  /** In the gap that starts at `gap`, an odd run of backslashes stands right before the index. */
  predicate Escaped(text: string, gap: nat, i: nat)
    requires i <= |text|
  {
    i > gap && text[i - 1] == '\\' && !Escaped(text, gap, i - 1)
  }

  /** A run of backticks starts here: one that is not escaped, with none before it that belongs to the run. */
  predicate RunStarts(text: string, gap: nat, i: nat) {
    && i < |text| && text[i] == '`' && !Escaped(text, gap, i)
    && (i <= gap || text[i - 1] != '`' || Escaped(text, gap, i - 1))
  }

  /** The block that holds the index ends here: at the next boundary, or with the text. */
  predicate BlockEnds(text: string, breaks: seq<nat>, i: nat, limit: nat) {
    && i < limit && (limit in breaks || limit == |text|)
    && (forall b :: b in breaks && i < b ==> limit <= b) && limit <= |text|
  }

  /** The text has `-->` here, within the limit. */
  predicate ClosesAt(text: string, at: nat, limit: nat) {
    at + 3 <= limit <= |text| && StartsWith(text, at, "-->")
  }

  ghost predicate CommentAt(text: string, b: Blocks, i: nat, end: nat) {
    && StartsWith(text, i, "<!--")
    && if StartsWith(text, i, "<!-->") then end == i + 5
       else if StartsWith(text, i, "<!--->") then end == i + 6
       else exists limit: nat, at: nat :: end == at + 3 && CommentCloses(text, b, i, limit, at)
  }

  /** The comment that opens here is closed by the first `-->` of its block. */
  predicate CommentCloses(text: string, b: Blocks, i: nat, limit: nat, at: nat) {
    && BlockEnds(text, b.breaks, i, limit) && i + 4 <= at && ClosesAt(text, at, limit)
    && forall d: nat :: i + 4 <= d < at ==> !ClosesAt(text, d, limit)
  }

  ghost predicate TagAt(text: string, b: Blocks, i: nat, end: nat) {
    && i < |text| && text[i] == '<' && !StartsWith(text, i, "<!--")
    && i in b.tagEnd && b.tagEnd[i] == end
    && exists limit :: BlockEnds(text, b.breaks, i, limit) && end <= limit
  }

  /** The raw line, if one covers the index, is the last that starts at or before it. */
  ghost predicate OnRawLine(raw: seq<Range>, i: nat) {
    exists k :: RawLine(raw, k, i)
  }

  predicate RawLine(raw: seq<Range>, k: nat, i: nat) {
    k < |raw| && raw[k].0 <= i < raw[k].1 && forall l :: k < l < |raw| ==> i < raw[l].0
  }

  /** The run of backticks that starts here is this long. */
  predicate RunOf(text: string, i: nat, length: nat) {
    && 0 < length && i + length <= |text| && (forall k :: i <= k < i + length ==> text[k] == '`')
    && (i + length < |text| ==> text[i + length] != '`')
  }

  /** A code span of CommonMark 0.31, section 6.1: up to the first maximal run of equal length in the block. */
  ghost predicate CodeAt(text: string, b: Blocks, gap: nat, i: nat, end: nat) {
    && RunStarts(text, gap, i) && !OnRawLine(b.raw, i)
    && exists limit: nat, length: nat, at: nat :: end == at + length && SpanCloses(text, b, i, limit, length, at)
  }

  ghost predicate SpanCloses(text: string, b: Blocks, i: nat, limit: nat, length: nat, at: nat) {
    && BlockEnds(text, b.breaks, i, limit) && RunOf(text, i, length)
    && var behind := i + length;
    && IsRun(text, behind, limit, at, length)
    && forall d: nat :: d < at ==> !IsRun(text, behind, limit, d, length)
  }

  /** In the gap that starts at `gap`, this construct opens. */
  ghost predicate OpensAs(text: string, b: Blocks, gap: nat, c: Construct) {
    && c.start < |text| && !Escaped(text, gap, c.start)
    && match c.kind
       case Comment => CommentAt(text, b, c.start, c.end)
       case Tag => TagAt(text, b, c.start, c.end)
       case Code => CodeAt(text, b, gap, c.start, c.end)
  }

  ghost predicate NothingOpens(text: string, b: Blocks, gap: nat, first: nat, last: nat) {
    forall c: Construct :: first <= c.start < last ==> !OpensAs(text, b, gap, c)
  }

  /** The constructs of the text from the gap on, each the first to open behind the one before. */
  ghost predicate Reading(text: string, b: Blocks, gap: nat, cs: seq<Construct>)
    decreases |cs|
  {
    if cs == [] then NothingOpens(text, b, gap, gap, |text|)
    else
      && gap <= cs[0].start && OpensAs(text, b, gap, cs[0]) && NothingOpens(text, b, gap, gap, cs[0].start)
      && Reading(text, b, cs[0].end, cs[1..])
  }

  /** The comments and code spans among them. */
  function Excluded(cs: seq<Construct>): seq<Range> {
    if cs == [] then []
    else (if cs[0].kind.Tag? then [] else [(cs[0].start, cs[0].end)]) + Excluded(cs[1..])
  }

  // ----- There is only one

  lemma BlockEndsOnce(text: string, breaks: seq<nat>, i: nat, a: nat, b: nat)
    requires BlockEnds(text, breaks, i, a) && BlockEnds(text, breaks, i, b)
    ensures a == b
  {
  }

  lemma RunOnce(text: string, i: nat, m: nat, n: nat)
    requires RunOf(text, i, m) && RunOf(text, i, n)
    ensures m == n
  {
  }

  lemma CommentOnce(text: string, b: Blocks, i: nat, m: nat, n: nat)
    requires CommentAt(text, b, i, m) && CommentAt(text, b, i, n)
    ensures m == n
  {
    if !StartsWith(text, i, "<!-->") && !StartsWith(text, i, "<!--->") {
      var l: nat, p: nat :| m == p + 3 && CommentCloses(text, b, i, l, p);
      var k: nat, q: nat :| n == q + 3 && CommentCloses(text, b, i, k, q);
      BlockEndsOnce(text, b.breaks, i, l, k);
    }
  }

  lemma CodeOnce(text: string, b: Blocks, gap: nat, i: nat, m: nat, n: nat)
    requires CodeAt(text, b, gap, i, m) && CodeAt(text, b, gap, i, n)
    ensures m == n
  {
    var l: nat, x: nat, p: nat :| m == p + x && SpanCloses(text, b, i, l, x, p);
    var k: nat, y: nat, q: nat :| n == q + y && SpanCloses(text, b, i, k, y, q);
    BlockEndsOnce(text, b.breaks, i, l, k);
    RunOnce(text, i, x, y);
    hide IsRun, BlockEnds, RunOf;
  }

  lemma OpensOnce(text: string, b: Blocks, gap: nat, c: Construct, d: Construct)
    requires OpensAs(text, b, gap, c) && OpensAs(text, b, gap, d) && c.start == d.start
    ensures c == d
  {
    if StartsWith(text, c.start, "<!--") { OpensWithLess(text, c.start); }
    hide Escaped, StartsWith;
    assert c.kind == d.kind;
    match c.kind
    case Comment => CommentOnce(text, b, c.start, c.end, d.end);
    case Tag =>
    case Code => CodeOnce(text, b, gap, c.start, c.end, d.end);
  }

  /** A text has at most one reading. */
  lemma {:induction false} ReadingIsUnique(text: string, b: Blocks, gap: nat, cs: seq<Construct>, ds: seq<Construct>)
    requires Reading(text, b, gap, cs) && Reading(text, b, gap, ds)
    ensures cs == ds
    decreases |cs|
  {
    hide OpensAs;
    if cs != [] { StartsInText(text, b, gap, cs[0]); }
    if ds != [] { StartsInText(text, b, gap, ds[0]); }
    if cs != [] && ds != [] {
      assert cs[0].start == ds[0].start;
      OpensOnce(text, b, gap, cs[0], ds[0]);
      ReadingIsUnique(text, b, cs[0].end, cs[1..], ds[1..]);
      assert cs == [cs[0]] + cs[1..] && ds == [ds[0]] + ds[1..];
    }
  }

  lemma StartsInText(text: string, b: Blocks, gap: nat, c: Construct)
    ensures OpensAs(text, b, gap, c) ==> c.start < |text|
  {
  }

  // ----- The scan finds it

  lemma LimitEnds(text: string, b: Blocks, i: nat)
    requires WellFormed(text, b) && i < |text|
    ensures BlockEnds(text, b.breaks, i, Limit(b.breaks, i, |text|))
  {
    LimitBounds(text, b, i);
    LimitIsBreak(b.breaks, i, |text|);
  }

  lemma {:induction false} LimitIsBreak(breaks: seq<nat>, i: nat, size: nat)
    ensures Limit(breaks, i, size) in breaks || Limit(breaks, i, size) == size
  {
    if breaks != [] && breaks[0] <= i { LimitIsBreak(breaks[1..], i, size); }
  }

  lemma {:induction false} RawMeans(raw: seq<Range>, i: nat)
    ensures InRaw(raw, i) <==> OnRawLine(raw, i)
    decreases |raw|
  {
    if raw != [] {
      var n := |raw| - 1;
      if raw[n].0 <= i {
        if i < raw[n].1 { assert RawLine(raw, n, i); }
        forall k | RawLine(raw, k, i) ensures k == n {}
      } else {
        RawMeans(raw[..n], i);
        forall k
          ensures RawLine(raw, k, i) <==> RawLine(raw[..n], k, i)
        {
        }
      }
    }
  }

  lemma {:induction false} FirstClose(text: string, start: nat, limit: nat)
    requires limit <= |text|
    ensures match FindCommentEnd(text, start, limit)
      case Some(at) => start <= at && ClosesAt(text, at, limit) && forall d: nat :: start <= d < at ==> !ClosesAt(text, d, limit)
      case None => forall d: nat :: start <= d ==> !ClosesAt(text, d, limit)
    decreases limit - start
  {
    if start + 3 <= limit && !StartsWith(text, start, "-->") {
      FirstClose(text, start + 1, limit);
    }
  }

  lemma RunEndIs(text: string, i: nat)
    requires i < |text| && text[i] == '`'
    ensures RunOf(text, i, RunEnd(text, i, |text|) - i)
  {
  }

  /** The construct a move takes, if it takes one. */
  function Taken(text: string, b: Blocks, i: nat): Option<Construct>
    requires WellFormed(text, b) && i < |text|
  {
    var m := MoveAt(text, b, i);
    if m.range.Some? then Some(Construct(if text[i] == '`' then Code else Comment, i, m.next))
    else if text[i] == '<' && !StartsWith(text, i, "<!--") && i in b.tagEnd && m.next == b.tagEnd[i]
            && b.tagEnd[i] <= Limit(b.breaks, i, |text|)
      then Some(Construct(Tag, i, m.next))
    else None
  }

  /** The scan stands here when nothing before it is open: not behind an escape, and not inside a run. */
  predicate Fresh(text: string, gap: nat, i: nat) {
    && gap <= i && i < |text| && !Escaped(text, gap, i)
    && (text[i] == '`' ==> RunStarts(text, gap, i))
  }

  lemma CommentTaken(text: string, b: Blocks, i: nat)
    requires WellFormed(text, b) && i < |text| && StartsWith(text, i, "<!--")
    ensures match Taken(text, b, i)
      case Some(c) => c.kind.Comment? && c.start == i && CommentAt(text, b, i, c.end) && MoveAt(text, b, i) == Move(c.end, Some((i, c.end)))
      case None => MoveAt(text, b, i) == Move(i + 4, None) && forall end :: !CommentAt(text, b, i, end)
  {
    OpensWithLess(text, i);
    LimitEnds(text, b, i);
    hide Limit, BlockEnds, FindCommentEnd, ClosesAt;
    var limit := Limit(b.breaks, i, |text|);
    LimitBounds(text, b, i);
    FirstClose(text, i + 4, limit);
    var close := FindCommentEnd(text, i + 4, limit);
    if close.Some? { assert CommentCloses(text, b, i, limit, close.value); }
    forall l | BlockEnds(text, b.breaks, i, l) ensures l == limit { BlockEndsOnce(text, b.breaks, i, l, limit); }
    CommentMoves(text, b, i);
  }

  lemma CommentMoves(text: string, b: Blocks, i: nat)
    requires WellFormed(text, b) && i < |text| && StartsWith(text, i, "<!--")
    ensures MoveAt(text, b, i) ==
      CommentMove(text, b, i, FindCommentEnd(text, i + 4, Limit(b.breaks, i, |text|)))
  {
    OpensWithLess(text, i);
  }

  lemma TagTaken(text: string, b: Blocks, i: nat)
    requires WellFormed(text, b) && i < |text| && text[i] == '<' && !StartsWith(text, i, "<!--")
    ensures match Taken(text, b, i)
      case Some(c) => c.kind.Tag? && c.start == i && TagAt(text, b, i, c.end) && MoveAt(text, b, i) == Move(c.end, None)
      case None => MoveAt(text, b, i) == Move(i + 1, None) && forall end :: !TagAt(text, b, i, end)
  {
    LimitEnds(text, b, i);
    hide Limit, BlockEnds;
    forall l | BlockEnds(text, b.breaks, i, l) ensures l == Limit(b.breaks, i, |text|) {
      BlockEndsOnce(text, b.breaks, i, l, Limit(b.breaks, i, |text|));
    }
  }

  lemma CodeTaken(text: string, b: Blocks, gap: nat, i: nat)
    requires WellFormed(text, b) && i < |text| && RunStarts(text, gap, i)
    ensures match Taken(text, b, i)
      case Some(c) => c.kind.Code? && c.start == i && CodeAt(text, b, gap, i, c.end)
        && MoveAt(text, b, i) == Move(c.end, Some((i, c.end)))
      case None => MoveAt(text, b, i) == Move(RunEnd(text, i, |text|), None) && forall end :: !CodeAt(text, b, gap, i, end)
  {
    RawMeans(b.raw, i);
    RunEndIs(text, i);
    LimitEnds(text, b, i);
    LimitBounds(text, b, i);
    var limit, length := Limit(b.breaks, i, |text|), RunEnd(text, i, |text|) - i;
    FindRunExact(text, i + length, length, limit);
    CodeMoves(text, b, i);
    var close := FindRun(text, i + length, length, limit);
    if close.Some? { assert SpanCloses(text, b, i, limit, length, close.value); }
    hide Limit, BlockEnds, FindRun, IsRun, InRaw, OnRawLine, RunOf, RunStarts, MoveAt, WellFormed;
    forall l | BlockEnds(text, b.breaks, i, l) ensures l == limit { BlockEndsOnce(text, b.breaks, i, l, limit); }
    forall x | RunOf(text, i, x) ensures x == length { RunOnce(text, i, x, length); }
  }

  lemma CodeMoves(text: string, b: Blocks, i: nat)
    requires WellFormed(text, b) && i < |text| && text[i] == '`'
    ensures
      var runEnd := RunEnd(text, i, |text|);
      MoveAt(text, b, i) ==
        if InRaw(b.raw, i) then Move(runEnd, None)
        else (LimitBounds(text, b, i); RunMove(i, runEnd, FindRun(text, runEnd, runEnd - i, Limit(b.breaks, i, |text|))))
  {
    OpensWithLess(text, i);
  }

  /** One move: it takes the construct that opens here, or none opens up to where it goes. */
  lemma MoveReads(text: string, b: Blocks, gap: nat, i: nat)
    requires WellFormed(text, b) && Fresh(text, gap, i)
    ensures
      var m := MoveAt(text, b, i);
      match Taken(text, b, i)
      case Some(c) =>
        && c.start == i && c.end == m.next && OpensAs(text, b, gap, c)
        && Ranges(m) == (if c.kind.Tag? then [] else [(i, m.next)])
      case None =>
        && i < m.next && m.range.None? && NothingOpens(text, b, gap, i, m.next)
        && (m.next < |text| ==> Fresh(text, gap, m.next))
  {
    MoveForward(text, b, i);
    if text[i] == '\\' {
      BackslashReads(text, b, gap, i);
    } else if StartsWith(text, i, "<!--") {
      OpensWithLess(text, i);
      CommentTaken(text, b, i);
      if Taken(text, b, i).None? { OpenerReads(text, b, gap, i); }
    } else if text[i] == '<' {
      TagTaken(text, b, i);
      if Taken(text, b, i).None? { OneReads(text, b, gap, i); }
    } else if text[i] == '`' {
      CodeTaken(text, b, gap, i);
      if Taken(text, b, i).None? { RunReads(text, b, gap, i); }
    } else {
      OneReads(text, b, gap, i);
    }
  }

  lemma BackslashReads(text: string, b: Blocks, gap: nat, i: nat)
    requires WellFormed(text, b) && Fresh(text, gap, i) && text[i] == '\\'
    ensures Taken(text, b, i).None? && MoveAt(text, b, i) == Move(i + 2, None)
    ensures NothingOpens(text, b, gap, i, i + 2)
    ensures i + 2 < |text| ==> Fresh(text, gap, i + 2)
  {
    if i + 1 < |text| { assert Escaped(text, gap, i + 1); }
    hide CommentAt, TagAt;
    forall c: Construct | i <= c.start < i + 2 ensures !OpensAs(text, b, gap, c) {
      if c.start == i { NothingAt(text, b, gap, c); }
    }
  }

  /** Nothing opens where there is neither a backtick nor a less-than sign. */
  lemma NothingAt(text: string, b: Blocks, gap: nat, c: Construct)
    requires c.start < |text| && text[c.start] != '`' && text[c.start] != '<'
    ensures !OpensAs(text, b, gap, c)
  {
    if StartsWith(text, c.start, "<!--") { OpensWithLess(text, c.start); }
  }

  /** A comment that is not closed: its opener is passed over, and holds nothing that opens. */
  lemma OpenerReads(text: string, b: Blocks, gap: nat, i: nat)
    requires WellFormed(text, b) && Fresh(text, gap, i) && StartsWith(text, i, "<!--")
    requires forall end :: !CommentAt(text, b, i, end)
    ensures NothingOpens(text, b, gap, i, i + 4) && (i + 4 < |text| ==> Fresh(text, gap, i + 4))
  {
    assert text[i + 0] == "<!--"[0] && text[i + 1] == "<!--"[1] && text[i + 2] == "<!--"[2] && text[i + 3] == "<!--"[3];
    hide CommentAt, TagAt;
    forall c: Construct | i <= c.start < i + 4 ensures !OpensAs(text, b, gap, c) {
      if c.start == i { NotTagNorCode(text, b, gap, c); } else { NothingAt(text, b, gap, c); }
    }
  }

  lemma NotTagNorCode(text: string, b: Blocks, gap: nat, c: Construct)
    requires StartsWith(text, c.start, "<!--") && forall end :: !CommentAt(text, b, c.start, end)
    ensures !OpensAs(text, b, gap, c)
  {
    if c.start < |text| { OpensWithLess(text, c.start); }
  }

  /** A single character that opens nothing. */
  lemma OneReads(text: string, b: Blocks, gap: nat, i: nat)
    requires WellFormed(text, b) && Fresh(text, gap, i) && text[i] != '\\' && text[i] != '`'
    requires !StartsWith(text, i, "<!--") && (text[i] == '<' ==> forall end :: !TagAt(text, b, i, end))
    ensures NothingOpens(text, b, gap, i, i + 1) && (i + 1 < |text| ==> Fresh(text, gap, i + 1))
  {
    hide TagAt;
    forall c: Construct | i <= c.start < i + 1 ensures !OpensAs(text, b, gap, c) {
      if text[i] != '<' { NothingAt(text, b, gap, c); }
    }
  }

  /** A run of backticks that opens nothing: neither does any that starts inside it. */
  lemma RunReads(text: string, b: Blocks, gap: nat, i: nat)
    requires WellFormed(text, b) && Fresh(text, gap, i) && text[i] == '`'
    requires forall end :: !CodeAt(text, b, gap, i, end)
    ensures var end := RunEnd(text, i, |text|);
      NothingOpens(text, b, gap, i, end) && (end < |text| ==> Fresh(text, gap, end))
  {
    var end := RunEnd(text, i, |text|);
    hide CodeAt, TagAt, CommentAt;
    forall c: Construct | i <= c.start < end ensures !OpensAs(text, b, gap, c) {
      BacktickOnly(text, b, gap, i, c);
    }
  }

  lemma BacktickOnly(text: string, b: Blocks, gap: nat, i: nat, c: Construct)
    requires gap <= i <= c.start < |text| && (forall k :: i <= k <= c.start ==> text[k] == '`')
    requires !Escaped(text, gap, i) && forall end :: !CodeAt(text, b, gap, i, end)
    ensures !OpensAs(text, b, gap, c)
  {
    if StartsWith(text, c.start, "<!--") { OpensWithLess(text, c.start); }
    if c.start > i {
      assert text[c.start - 1] == '`';
      assert !Escaped(text, gap, c.start - 1) by {
        if c.start - 1 > i { assert text[c.start - 2] == '`'; }
      }
      assert !RunStarts(text, gap, c.start);
    }
  }

  /** From a fresh place on, the scan's ranges are those of the reading of the rest. */
  lemma {:induction false} ScanReads(text: string, b: Blocks, gap: nat, i: nat) returns (cs: seq<Construct>)
    requires WellFormed(text, b) && gap <= i && (i < |text| ==> Fresh(text, gap, i))
    requires NothingOpens(text, b, gap, gap, i)
    ensures Reading(text, b, gap, cs) && Plain(text, b, i) == Excluded(cs)
    decreases |text| - i
  {
    hide OpensAs, MoveAt, Taken, Fresh, WellFormed;
    if i >= |text| {
      cs := [];
      assert NothingOpens(text, b, gap, gap, |text|) by { UpTo(text, b, gap, i); }
    } else {
      MoveReads(text, b, gap, i);
      MoveForward(text, b, i);
      PlainStep(text, b, i);
      var m := MoveAt(text, b, i);
      if Taken(text, b, i).Some? {
        var c := Taken(text, b, i).value;
        if m.next < |text| { FreshStart(text, m.next); }
        var rest := ScanReads(text, b, m.next, m.next);
        cs := [c] + rest;
        assert cs[1..] == rest;
      } else {
        cs := ScanReads(text, b, gap, m.next);
      }
    }
  }

  lemma UpTo(text: string, b: Blocks, gap: nat, i: nat)
    requires NothingOpens(text, b, gap, gap, i) && |text| <= i
    ensures NothingOpens(text, b, gap, gap, |text|)
  {
  }

  lemma FreshStart(text: string, i: nat)
    requires i < |text|
    ensures Fresh(text, i, i)
  {
  }

  /** The ranges of the scan are the comments and code spans of the one reading of the text. */
  lemma RangesAreReading(text: string, b: Blocks) returns (cs: seq<Construct>)
    requires WellFormed(text, b)
    ensures Reading(text, b, 0, cs) && (forall ds :: Reading(text, b, 0, ds) ==> ds == cs)
    ensures Plain(text, b, 0) == Excluded(cs)
  {
    if text != "" { FreshStart(text, 0); }
    cs := ScanReads(text, b, 0, 0);
    forall ds | Reading(text, b, 0, ds) ensures ds == cs { ReadingIsUnique(text, b, 0, ds, cs); }
  }

  /** A construct of the reading, with the gap it opens in. */
  ghost predicate OpensIn(text: string, b: Blocks, gap: nat, cs: seq<Construct>, k: nat) {
    k < |cs| && OpensAs(text, b, if k == 0 then gap else cs[k - 1].end, cs[k])
  }

  lemma {:induction false} EachOpens(text: string, b: Blocks, gap: nat, cs: seq<Construct>, k: nat)
    requires Reading(text, b, gap, cs) && k < |cs|
    ensures OpensIn(text, b, gap, cs, k)
    decreases |cs|
  {
    hide OpensAs;
    if k > 0 { EachOpens(text, b, cs[0].end, cs[1..], k - 1); }
  }

  /** What starts behind an odd run of backslashes, outside every comment, tag and code span, is no construct. */
  lemma EscapedOpensNothing(text: string, b: Blocks, cs: seq<Construct>, k: nat)
    requires Reading(text, b, 0, cs) && k < |cs|
    ensures var gap := if k == 0 then 0 else cs[k - 1].end;
      cs[k].start < |text| && !Escaped(text, gap, cs[k].start)
      && (cs[k].kind.Code? ==> RunStarts(text, gap, cs[k].start))
  {
    EachOpens(text, b, 0, cs, k);
  }
}
