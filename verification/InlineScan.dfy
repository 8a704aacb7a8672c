/**
 The inline scan for code spans and HTML comments, and the memo that keeps it from repeating a
 failed search for a closer.

 Block boundaries and raw HTML lines are given; so is where an HTML tag that starts at an index
 ends, if one does.
 */
module InlineScan {
  import opened Options

  type Range = (nat, nat)

  /** `tagEnd[i]` is the end of the HTML tag that starts at `i`. */
  datatype Blocks = Blocks(breaks: seq<nat>, raw: seq<Range>, tagEnd: map<nat, nat>)

  predicate WellFormed(text: string, b: Blocks) {
    && (forall i, j :: 0 <= i < j < |b.breaks| ==> b.breaks[i] <= b.breaks[j])
    && (forall i :: 0 <= i < |b.breaks| ==> b.breaks[i] <= |text|)
    && (forall i :: i in b.tagEnd ==> i < b.tagEnd[i] <= |text|)
  }

  /** Every block starts a line, as the block scan leaves it. */
  predicate AtLineStarts(text: string, breaks: seq<nat>) {
    forall i :: 0 <= i < |breaks| ==> breaks[i] == 0 || (breaks[i] <= |text| && text[breaks[i] - 1] == '\n')
  }

  /** `_limit`: the first boundary after the index, or the end of the text. */
  function Limit(breaks: seq<nat>, index: nat, size: nat): nat {
    if breaks == [] then size else if breaks[0] > index then breaks[0] else Limit(breaks[1..], index, size)
  }

  /** Whether the last raw line that starts at or before the index covers it. */
  predicate InRaw(raw: seq<Range>, index: nat) {
    raw != [] &&
    var last := raw[|raw| - 1];
    if last.0 <= index then index < last.1 else InRaw(raw[..|raw| - 1], index)
  }

  predicate StartsWith(text: string, index: nat, what: string) {
    index + |what| <= |text| && forall k :: 0 <= k < |what| ==> text[index + k] == what[k]
  }

  // ----- Searches for a closer

  function FindCommentEnd(text: string, start: nat, limit: nat): Option<nat>
    decreases limit - start
  {
    if start + 3 > limit then None
    else if StartsWith(text, start, "-->") then Some(start)
    else FindCommentEnd(text, start + 1, limit)
  }

  function RunEnd(text: string, i: nat, limit: nat): (end: nat)
    requires i <= limit <= |text|
    ensures i <= end <= limit
    ensures forall k :: i <= k < end ==> text[k] == '`'
    ensures end < limit ==> text[end] != '`'
    decreases limit - i
  {
    if i < limit && text[i] == '`' then RunEnd(text, i + 1, limit) else i
  }

  /** The first run of exactly `length` backticks in the window, runs being read from its start. */
  function FindRun(text: string, start: nat, length: nat, limit: nat): Option<nat>
    requires limit <= |text|
    decreases limit - start
  {
    if start >= limit then None
    else if text[start] != '`' then FindRun(text, start + 1, length, limit)
    else
      var end := RunEnd(text, start, limit);
      if end - start == length then Some(start) else FindRun(text, end, length, limit)
  }

  /** A maximal run of backticks of the window. */
  predicate IsRun(text: string, start: nat, limit: nat, at: nat, length: nat) {
    && start <= at && 0 < length && at + length <= limit <= |text|
    && (forall k :: at <= k < at + length ==> text[k] == '`')
    && (at == start || text[at - 1] != '`')
    && (at + length == limit || text[at + length] != '`')
  }

  /** The search finds the first maximal run of the length, and fails only if there is none. */
  lemma {:induction false} FindRunExact(text: string, start: nat, length: nat, limit: nat)
    requires limit <= |text| && 0 < length
    ensures match FindRun(text, start, length, limit)
      case Some(at) => IsRun(text, start, limit, at, length) && forall d: nat :: d < at ==> !IsRun(text, start, limit, d, length)
      case None => forall d: nat :: !IsRun(text, start, limit, d, length)
    decreases limit - start
  {
    if start < limit {
      if text[start] != '`' {
        FindRunExact(text, start + 1, length, limit);
        assert forall d: nat :: d > start ==> (IsRun(text, start, limit, d, length) <==> IsRun(text, start + 1, limit, d, length));
      } else {
        var end := RunEnd(text, start, limit);
        if end - start != length {
          FindRunExact(text, end, length, limit);
          forall d: nat
            ensures IsRun(text, start, limit, d, length) <==> IsRun(text, end, limit, d, length)
          {
          }
        }
      }
    }
  }

  /** A search that starts later, and not inside a run, fails if the earlier one did. */
  lemma {:induction false} RunStaysUnfound(text: string, from: nat, start: nat, length: nat, limit: nat)
    requires limit <= |text| && from <= start && (start < limit ==> text[start] != '`')
    requires FindRun(text, from, length, limit) == None
    ensures FindRun(text, start, length, limit) == None
    decreases start - from
  {
    if from < start && from < limit {
      if text[from] != '`' {
        RunStaysUnfound(text, from + 1, start, length, limit);
      } else {
        RunStaysUnfound(text, RunEnd(text, from, limit), start, length, limit);
      }
    }
  }

  lemma {:induction false} CommentStaysUnfound(text: string, from: nat, start: nat, limit: nat)
    requires from <= start && FindCommentEnd(text, from, limit) == None
    ensures FindCommentEnd(text, start, limit) == None
    decreases start - from
  {
    if from < start && from + 3 <= limit {
      CommentStaysUnfound(text, from + 1, start, limit);
    }
  }

  // ----- The scan that always searches

  datatype Move = Move(next: nat, range: Option<Range>)

  function CommentMove(text: string, b: Blocks, i: nat, close: Option<nat>): Move {
    if StartsWith(text, i, "<!-->") then Move(i + 5, Some((i, i + 5)))
    else if StartsWith(text, i, "<!--->") then Move(i + 6, Some((i, i + 6)))
    else if close.Some? then Move(close.value + 3, Some((i, close.value + 3)))
    else Move(i + 4, None)
  }

  function TagMove(text: string, b: Blocks, i: nat): Move {
    if i in b.tagEnd && b.tagEnd[i] <= Limit(b.breaks, i, |text|) then Move(b.tagEnd[i], None) else Move(i + 1, None)
  }

  function RunMove(i: nat, runEnd: nat, close: Option<nat>): Move
    requires i <= runEnd
  {
    if close.Some? then Move(close.value + (runEnd - i), Some((i, close.value + (runEnd - i)))) else Move(runEnd, None)
  }

  /** What the scan does at an index, searching afresh. */
  function MoveAt(text: string, b: Blocks, i: nat): Move
    requires WellFormed(text, b) && i < |text|
  {
    var limit := Limit(b.breaks, i, |text|);
    LimitBounds(text, b, i);
    if text[i] == '\\' then Move(i + 2, None)
    else if StartsWith(text, i, "<!--") then CommentMove(text, b, i, FindCommentEnd(text, i + 4, limit))
    else if text[i] == '<' then TagMove(text, b, i)
    else if text[i] == '`' then
      var runEnd := RunEnd(text, i, |text|);
      if InRaw(b.raw, i) then Move(runEnd, None)
      else RunMove(i, runEnd, FindRun(text, runEnd, runEnd - i, limit))
    else Move(i + 1, None)
  }

  lemma {:induction false} LimitBounds(text: string, b: Blocks, i: nat)
    requires WellFormed(text, b) && i < |text|
    ensures i < Limit(b.breaks, i, |text|) <= |text|
    ensures forall k :: 0 <= k < |b.breaks| && i < b.breaks[k] ==> Limit(b.breaks, i, |text|) <= b.breaks[k]
  {
    LimitIsNext(b.breaks, i, |text|);
  }

  lemma {:induction false} LimitIsNext(breaks: seq<nat>, i: nat, size: nat)
    requires i < size && forall j, k :: 0 <= j < k < |breaks| ==> breaks[j] <= breaks[k]
    requires forall k :: 0 <= k < |breaks| ==> breaks[k] <= size
    ensures i < Limit(breaks, i, size) <= size
    ensures forall k :: 0 <= k < |breaks| && i < breaks[k] ==> Limit(breaks, i, size) <= breaks[k]
  {
    if breaks != [] && breaks[0] <= i {
      LimitIsNext(breaks[1..], i, size);
      assert forall k :: 1 <= k < |breaks| ==> breaks[k] == breaks[1..][k - 1];
    }
  }

  lemma {:induction false} CommentEndBounds(text: string, start: nat, limit: nat)
    ensures match FindCommentEnd(text, start, limit)
      case Some(at) => start <= at && at + 3 <= limit && StartsWith(text, at, "-->")
      case None => true
    decreases limit - start
  {
    if start + 3 <= limit && !StartsWith(text, start, "-->") {
      CommentEndBounds(text, start + 1, limit);
    }
  }

  lemma RunBounds(text: string, start: nat, length: nat, limit: nat)
    requires limit <= |text| && 0 < length
    ensures match FindRun(text, start, length, limit)
      case Some(at) => start <= at && at + length <= limit
      case None => true
  {
    FindRunExact(text, start, length, limit);
  }

  /** Each move goes forward, and a range it makes starts at the index and ends where it goes. */
  lemma MoveForward(text: string, b: Blocks, i: nat)
    requires WellFormed(text, b) && i < |text|
    ensures var m := MoveAt(text, b, i);
      i < m.next && (m.range.Some? ==> m.range.value == (i, m.next) && m.next <= |text|)
  {
    MoveWithin(text, b, i);
  }

  /** A range ends before the next boundary, or is one of the two short comments. */
  lemma MoveWithin(text: string, b: Blocks, i: nat)
    requires WellFormed(text, b) && i < |text|
    ensures var m := MoveAt(text, b, i);
      i < m.next && (m.range.Some? ==> m.range.value == (i, m.next) && m.next <= |text|)
    ensures var m := MoveAt(text, b, i);
      m.range.Some? ==>
        || m.next <= Limit(b.breaks, i, |text|)
        || (m.next == i + 5 && StartsWith(text, i, "<!-->"))
        || (m.next == i + 6 && StartsWith(text, i, "<!--->"))
  {
    LimitBounds(text, b, i);
    hide Limit, FindRun, FindCommentEnd, InRaw;
    var limit := Limit(b.breaks, i, |text|);
    CommentEndBounds(text, i + 4, limit);
    if text[i] == '`' {
      var runEnd := RunEnd(text, i, |text|);
      RunBounds(text, runEnd, runEnd - i, limit);
    }
  }

  /** A range crosses no boundary. */
  lemma MoveInsideBlock(text: string, b: Blocks, i: nat)
    requires WellFormed(text, b) && i < |text| && AtLineStarts(text, b.breaks) && MoveAt(text, b, i).range.Some?
    ensures forall k :: 0 <= k < |b.breaks| ==> !(i < b.breaks[k] < MoveAt(text, b, i).next)
  {
    MoveWithin(text, b, i);
    LimitBounds(text, b, i);
    if StartsWith(text, i, "<!-->") {
      NoBreakInside(text, b.breaks, i, "<!-->");
    }
    if StartsWith(text, i, "<!--->") {
      NoBreakInside(text, b.breaks, i, "<!--->");
    }
  }

  lemma NoBreakInside(text: string, breaks: seq<nat>, i: nat, what: string)
    requires StartsWith(text, i, what) && '\n' !in what
    ensures AtLineStarts(text, breaks) ==> forall k :: 0 <= k < |breaks| ==> !(i < breaks[k] < i + |what|)
  {
    forall p | i <= p < i + |what|
      ensures text[p] != '\n'
    {
      assert text[i + (p - i)] == what[p - i] && what[p - i] in what;
    }
  }

  function Ranges(m: Move): seq<Range> {
    if m.range.Some? then [m.range.value] else []
  }

  /** The ranges from an index on, every closer searched for afresh. */
  function Plain(text: string, b: Blocks, i: nat): seq<Range>
    requires WellFormed(text, b)
    decreases |text| - i
  {
    if i >= |text| then [] else
      MoveForward(text, b, i);
      Ranges(MoveAt(text, b, i)) + Plain(text, b, MoveAt(text, b, i).next)
  }

  // ----- The scan with the memo

  /** What is searched for: the end of a comment, or a run of some length. */
  datatype Closer = CommentEnd | Run(length: nat)

  type Memo = map<Closer, (nat, nat)>

  function Search(text: string, key: Closer, start: nat, limit: nat): Option<nat>
    requires limit <= |text|
  {
    match key
    case CommentEnd => FindCommentEnd(text, start, limit)
    case Run(length) => FindRun(text, start, length, limit)
  }

  /** A search may start here: not inside a run of backticks. */
  predicate MayStart(text: string, key: Closer, start: nat) {
    key.Run? ==> start < |text| ==> text[start] != '`'
  }

  /** Each remembered search did fail. */
  predicate Remembers(text: string, memo: Memo) {
    forall key :: key in memo ==> memo[key].0 <= |text| && Search(text, key, memo[key].1, memo[key].0) == None
  }

  /** The search that consults the memo finds what the search itself would. */
  method FindCloser(text: string, key: Closer, start: nat, limit: nat, memo: Memo)
    returns (found: Option<nat>, memo': Memo, ghost missed: bool)
    requires limit <= |text| && Remembers(text, memo) && MayStart(text, key, start)
    ensures found == Search(text, key, start, limit) && Remembers(text, memo')
    ensures memo' == if missed then memo[key := (limit, start)] else memo
    ensures missed <==> found == None && !(key in memo && memo[key].0 == limit && memo[key].1 <= start)
  {
    if key in memo && memo[key].0 == limit && memo[key].1 <= start {
      match key {
        case CommentEnd => CommentStaysUnfound(text, memo[key].1, start, limit);
        case Run(length) => RunStaysUnfound(text, memo[key].1, start, length, limit);
      }
      return None, memo, false;
    }
    found := Search(text, key, start, limit);
    missed := found == None;
    memo' := if found == None then memo[key := (limit, start)] else memo;
  }

  /** A closer that was searched for in vain up to a limit. */
  type Miss = (Closer, nat)

  predicate NoRepeats(missed: seq<Miss>) {
    forall i, j :: 0 <= i < j < |missed| ==> missed[i] != missed[j]
  }

  /** Of the failed searches that reached the limit of the block ahead, each is still remembered. */
  predicate Logged(text: string, b: Blocks, memo: Memo, missed: seq<Miss>, index: nat) {
    && NoRepeats(missed)
    && (forall key :: key in memo ==> memo[key].1 <= index)
    && (forall x :: x in missed ==> LoggedAt(memo, x, Limit(b.breaks, index, |text|)))
  }

  predicate LoggedAt(memo: Memo, x: Miss, limit: nat) {
    x.1 <= limit && (x.1 == limit ==> x.0 in memo && memo[x.0].0 == x.1)
  }

  lemma {:induction false} LimitGrows(breaks: seq<nat>, i: nat, j: nat, size: nat)
    requires i <= j && forall k, l :: 0 <= k < l < |breaks| ==> breaks[k] <= breaks[l]
    requires forall k :: 0 <= k < |breaks| ==> breaks[k] <= size
    ensures Limit(breaks, i, size) <= Limit(breaks, j, size) <= size
  {
    if breaks != [] {
      assert forall k :: 0 <= k < |breaks[1..]| ==> breaks[1..][k] == breaks[k + 1];
      LimitGrows(breaks[1..], i, j, size);
      if breaks[0] > i { LimitAtLeast(breaks, j, size, breaks[0]); }
    }
  }

  lemma {:induction false} LimitAtLeast(breaks: seq<nat>, j: nat, size: nat, least: nat)
    requires least <= size && forall k :: 0 <= k < |breaks| ==> least <= breaks[k]
    ensures least <= Limit(breaks, j, size)
  {
    if breaks != [] {
      assert forall k :: 0 <= k < |breaks[1..]| ==> breaks[1..][k] == breaks[k + 1];
      LimitAtLeast(breaks[1..], j, size, least);
    }
  }

  /** Going on without a miss. */
  lemma LoggedOn(text: string, b: Blocks, memo: Memo, missed: seq<Miss>, index: nat, next: nat)
    requires WellFormed(text, b) && Logged(text, b, memo, missed, index) && index <= next
    ensures Logged(text, b, memo, missed, next)
  {
    LimitGrows(b.breaks, index, next, |text|);
  }

  /** A search is made only where the same one has not failed before: it adds something new to the log. */
  lemma LoggedMiss(
    text: string, b: Blocks, memo: Memo, missed: seq<Miss>, index: nat, key: Closer, start: nat, next: nat)
    requires WellFormed(text, b) && Logged(text, b, memo, missed, index) && index <= start <= next
    requires var limit := Limit(b.breaks, index, |text|);
      !(key in memo && memo[key].0 == limit && memo[key].1 <= start)
    ensures var limit := Limit(b.breaks, index, |text|);
      Logged(text, b, memo[key := (limit, start)], missed + [(key, limit)], next)
  {
    var limit := Limit(b.breaks, index, |text|);
    LimitGrows(b.breaks, index, next, |text|);
    assert forall x :: x in missed ==> LoggedAt(memo, x, limit);
    var more := missed + [(key, limit)];
    forall i, j | 0 <= i < j < |more|
      ensures more[i] != more[j]
    {
      if j == |missed| { assert LoggedAt(memo, missed[i], limit); }
    }
    forall x | x in more
      ensures LoggedAt(memo[key := (limit, start)], x, Limit(b.breaks, next, |text|))
    {
      if x in missed { assert LoggedAt(memo, x, limit); }
    }
  }

  /** The end of the run of backticks that starts at the index. */
  method ReadRun(text: string, index: nat) returns (runEnd: nat)
    requires index < |text|
    ensures runEnd == RunEnd(text, index, |text|)
  {
    runEnd := index;
    while runEnd < |text| && text[runEnd] == '`'
      invariant index <= runEnd <= |text|
      invariant RunEnd(text, index, |text|) == RunEnd(text, runEnd, |text|)
    {
      runEnd := runEnd + 1;
    }
  }

  /** What the scan does at an index, consulting the memo. */
  method MoveWithMemo(text: string, b: Blocks, index: nat, memo: Memo, ghost missed: seq<Miss>)
    returns (move: Move, memo': Memo, ghost missed': seq<Miss>)
    requires WellFormed(text, b) && index < |text| && Remembers(text, memo) && Logged(text, b, memo, missed, index)
    ensures move == MoveAt(text, b, index) && Remembers(text, memo')
    ensures Logged(text, b, memo', missed', move.next) && missed <= missed'
  {
    hide Search, StartsWith, FindCommentEnd, FindRun, Limit, InRaw, Logged, WellFormed, Remembers;
    memo', missed' := memo, missed;
    LimitBounds(text, b, index);
    MoveForward(text, b, index);
    var limit := Limit(b.breaks, index, |text|);
    ghost var miss := false;
    if text[index] == '\\' {
      move := Move(index + 2, None);
    } else if StartsWith(text, index, "<!--") {
      var close := None;
      if !StartsWith(text, index, "<!-->") && !StartsWith(text, index, "<!--->") {
        close, memo', miss := FindCloser(text, CommentEnd, index + 4, limit, memo);
        SearchIs(text, index + 4, 0, limit);
        if miss {
          LoggedMiss(text, b, memo, missed, index, CommentEnd, index + 4, index + 4);
          missed' := missed + [(CommentEnd, limit)];
        }
      }
      move := CommentMove(text, b, index, close);
    } else if text[index] == '<' {
      move := TagMove(text, b, index);
    } else if text[index] == '`' {
      var runEnd := ReadRun(text, index);
      if InRaw(b.raw, index) {
        move := Move(runEnd, None);
      } else {
        var close;
        close, memo', miss := FindCloser(text, Run(runEnd - index), runEnd, limit, memo);
        SearchIs(text, runEnd, runEnd - index, limit);
        if miss {
          LoggedMiss(text, b, memo, missed, index, Run(runEnd - index), runEnd, runEnd);
          missed' := missed + [(Run(runEnd - index), limit)];
        }
        move := RunMove(index, runEnd, close);
      }
    } else {
      move := Move(index + 1, None);
    }
    if !miss { LoggedOn(text, b, memo, missed, index, move.next); }
  }

  lemma SearchIs(text: string, start: nat, length: nat, limit: nat)
    requires limit <= |text|
    ensures Search(text, CommentEnd, start, limit) == FindCommentEnd(text, start, limit)
    ensures Search(text, Run(length), start, limit) == FindRun(text, start, length, limit)
  {
  }

  /**
   `_inline_code_and_comment_ranges`: with the memo, the same ranges as without.  Whatever the text, no
   closer is searched for in vain more than once up to the same block end.
   */
  method InlineRanges(text: string, b: Blocks) returns (ranges: seq<Range>, ghost missed: seq<Miss>)
    requires WellFormed(text, b)
    ensures ranges == Plain(text, b, 0)
    ensures NoRepeats(missed)
  {
    hide MoveAt, Remembers, WellFormed, Plain, Limit;
    ranges := [];
    var memo: Memo := map[];
    NothingRemembered(text);
    missed := [];
    var index := 0;
    while index < |text|
      invariant Remembers(text, memo) && Logged(text, b, memo, missed, index)
      invariant Plain(text, b, 0) == ranges + Plain(text, b, index)
      decreases |text| - index
    {
      MoveForward(text, b, index);
      PlainStep(text, b, index);
      var move;
      move, memo, missed := MoveWithMemo(text, b, index, memo, missed);
      ranges := ranges + Ranges(move);
      index := move.next;
    }
    PlainEnds(text, b, index);
  }

  lemma PlainStep(text: string, b: Blocks, i: nat)
    requires WellFormed(text, b) && i < |text|
    ensures Plain(text, b, i) == Ranges(MoveAt(text, b, i)) + Plain(text, b, MoveAt(text, b, i).next)
  {
  }

  lemma PlainEnds(text: string, b: Blocks, i: nat)
    requires WellFormed(text, b) && i >= |text|
    ensures Plain(text, b, i) == []
  {
  }

  lemma NothingRemembered(text: string)
    ensures Remembers(text, map[])
  {
  }

  // ----- What the ranges are

  predicate Increasing(ranges: seq<Range>) {
    && (forall k :: 0 <= k < |ranges| ==> ranges[k].0 < ranges[k].1)
    && (forall j, k :: 0 <= j < k < |ranges| ==> ranges[j].1 <= ranges[k].0)
  }

  /** No block boundary lies strictly inside the range. */
  predicate InsideOneBlock(breaks: seq<nat>, r: Range) {
    forall k :: 0 <= k < |breaks| ==> !(r.0 < breaks[k] < r.1)
  }

  /** The ranges are increasing, disjoint, in the text, and each inside one block. */
  lemma {:induction false} PlainRanges(text: string, b: Blocks, i: nat)
    requires WellFormed(text, b)
    ensures var rs := Plain(text, b, i);
      && Increasing(rs)
      && (forall k :: 0 <= k < |rs| ==> i <= rs[k].0 && rs[k].1 <= |text|)
      && (AtLineStarts(text, b.breaks) ==> forall k :: 0 <= k < |rs| ==> InsideOneBlock(b.breaks, rs[k]))
    decreases |text| - i
  {
    if i < |text| {
      MoveForward(text, b, i);
      if AtLineStarts(text, b.breaks) && MoveAt(text, b, i).range.Some? {
        MoveInsideBlock(text, b, i);
      }
      PlainRanges(text, b, MoveAt(text, b, i).next);
    }
  }

  /**
   A code span, in the words of CommonMark 0.31, section 6.1: it is opened by a run of backticks and
   closed by the first maximal run of the same length, both in one block.
   */
  lemma CodeSpanIsFirstEqualRun(text: string, b: Blocks, i: nat)
    requires WellFormed(text, b) && i < |text| && text[i] == '`' && !InRaw(b.raw, i)
    ensures var runEnd := RunEnd(text, i, |text|);
      var limit := Limit(b.breaks, i, |text|);
      var length := runEnd - i;
      match MoveAt(text, b, i).range
      case Some(r) =>
        && r.0 == i && r.1 >= length && IsRun(text, runEnd, limit, r.1 - length, length)
        && forall d: nat :: d < r.1 - length ==> !IsRun(text, runEnd, limit, d, length)
      case None => forall d: nat :: !IsRun(text, runEnd, limit, d, length)
  {
    hide MoveAt, FindRun, IsRun, Limit, InRaw, WellFormed;
    LimitBounds(text, b, i);
    var runEnd := RunEnd(text, i, |text|);
    FindRunExact(text, runEnd, runEnd - i, Limit(b.breaks, i, |text|));
    BacktickMove(text, b, i);
  }

  lemma BacktickMove(text: string, b: Blocks, i: nat)
    requires WellFormed(text, b) && i < |text| && text[i] == '`' && !InRaw(b.raw, i)
    requires Limit(b.breaks, i, |text|) <= |text|
    ensures var runEnd := RunEnd(text, i, |text|);
      MoveAt(text, b, i) == RunMove(i, runEnd, FindRun(text, runEnd, runEnd - i, Limit(b.breaks, i, |text|)))
  {
    OpensWithLess(text, i);
  }

  lemma OpensWithLess(text: string, i: nat)
    requires i < |text|
    ensures StartsWith(text, i, "<!--") ==> text[i] == '<'
  {
    if StartsWith(text, i, "<!--") {
      assert text[i + 0] == "<!--"[0];
    }
  }
}
