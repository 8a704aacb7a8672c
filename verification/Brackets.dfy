/**
 The bracket matcher: one pass over the unescaped brackets, with the open ones on a stack that a
 block boundary empties.
 */
module Brackets {

  predicate Sorted(breaks: seq<nat>) {
    forall i, j :: 0 <= i < j < |breaks| ==> breaks[i] <= breaks[j]
  }

  // ----- The declarative side

  /** How many backslashes stand right before the index. */
  function Backslashes(text: string, i: nat): nat
    requires i <= |text|
  {
    if i > 0 && text[i - 1] == '\\' then 1 + Backslashes(text, i - 1) else 0
  }

  predicate Escaped(text: string, i: nat)
    requires i <= |text|
  {
    Backslashes(text, i) % 2 == 1
  }

  predicate Opens(text: string, i: nat) {
    i < |text| && text[i] == '[' && !Escaped(text, i)
  }

  predicate Closes(text: string, i: nat) {
    i < |text| && text[i] == ']' && !Escaped(text, i)
  }

  /** Unescaped `[` minus unescaped `]` between two indexes. */
  function Net(text: string, start: nat, end: nat): int
    requires start <= end <= |text|
    decreases end
  {
    if start == end then 0
    else Net(text, start, end - 1) + (if Opens(text, end - 1) then 1 else if Closes(text, end - 1) then -1 else 0)
  }

  /** The balance since the character after `i`. */
  function Since(text: string, i: nat, end: nat): int
    requires i < end <= |text|
  {
    Net(text, i + 1, end)
  }

  /** No block starts after `start` and at or before `end`. */
  predicate SameBlock(breaks: seq<nat>, start: nat, end: nat) {
    forall b :: b in breaks ==> !(start < b <= end)
  }

  /** An open bracket at `i` that no closing bracket before `end` has taken. */
  predicate StillOpen(text: string, breaks: seq<nat>, i: nat, end: nat) {
    && i < end <= |text| && Opens(text, i)
    && SameBlock(breaks, i, end - 1)
    && forall k :: i < k <= end ==> Since(text, i, k) >= 0
  }

  /** The brackets match: both unescaped, in one block, and everything between them is balanced. */
  predicate Match(text: string, breaks: seq<nat>, i: nat, j: nat) {
    && i < j < |text| && Opens(text, i) && Closes(text, j)
    && SameBlock(breaks, i, j)
    && Since(text, i, j) == 0
    && forall k :: i < k <= j ==> Since(text, i, k) >= 0
  }

  lemma {:induction false} NetSplit(text: string, a: nat, b: nat, c: nat)
    requires a <= b <= c <= |text|
    ensures Net(text, a, c) == Net(text, a, b) + Net(text, b, c)
    decreases c
  {
    if b < c {
      NetSplit(text, a, b, c - 1);
    }
  }

  /** A positive balance leaves some bracket open to the end. */
  lemma LastOpen(text: string, start: nat, end: nat) returns (k: nat)
    requires start <= end <= |text| && Net(text, start, end) > 0
    ensures start <= k < end && Opens(text, k) && forall m :: k < m <= end ==> Since(text, k, m) >= 0
  {
    var v := Net(text, start, end);
    k := end;
    while Net(text, start, k) >= v
      invariant start <= k <= end
      invariant forall m :: k < m <= end ==> Net(text, start, m) >= v
      decreases k
    {
      k := k - 1;
    }
    assert Net(text, start, k + 1) >= v;
    forall m | k < m <= end
      ensures Since(text, k, m) >= 0
    {
      NetSplit(text, start, k + 1, m);
    }
  }

  lemma InnerNotOpen(text: string, breaks: seq<nat>, i: nat, j: nat, k: nat)
    requires Match(text, breaks, i, j) && i < k < j && Opens(text, k)
    ensures !StillOpen(text, breaks, k, j)
  {
    NetSplit(text, i + 1, k, j);
    NetSplit(text, k, k + 1, j);
    assert Since(text, i, j) == Since(text, i, k) + 1 + Since(text, k, j);
  }

  /** A closing bracket matches the innermost bracket of its block that is still open, or nothing. */
  lemma MatchIsInnermost(text: string, breaks: seq<nat>, i: nat, j: nat)
    requires Closes(text, j)
    ensures Match(text, breaks, i, j) <==>
      && StillOpen(text, breaks, i, j) && SameBlock(breaks, i, j)
      && forall k :: i < k ==> !StillOpen(text, breaks, k, j)
  {
    if Match(text, breaks, i, j) {
      forall k: nat | i < k
        ensures !StillOpen(text, breaks, k, j)
      {
        if k < j && Opens(text, k) {
          InnerNotOpen(text, breaks, i, j, k);
        }
      }
    } else if StillOpen(text, breaks, i, j) && SameBlock(breaks, i, j) {
      assert Since(text, i, j) > 0;
      var k := LastOpen(text, i + 1, j);
      assert StillOpen(text, breaks, k, j);
    }
  }

  /** Matched pairs nest: two of them are disjoint or one lies inside the other. */
  lemma MatchesNest(text: string, breaks: seq<nat>, i: nat, j: nat, k: nat, l: nat)
    requires Match(text, breaks, i, j) && Match(text, breaks, k, l) && i < k
    ensures j < k || l < j
  {
    if k < j && j <= l {
      InnerNotOpen(text, breaks, i, j, k);
      assert SameBlock(breaks, k, j - 1);
    }
  }

  // ----- The pass

  /** Open at `pos`, and in the block of the last token, which starts before `last`. */
  predicate OnStack(text: string, breaks: seq<nat>, i: nat, last: nat, pos: nat) {
    && i < last <= pos <= |text| && Opens(text, i)
    && SameBlock(breaks, i, last - 1)
    && forall k :: i < k <= pos ==> Since(text, i, k) >= 0
  }

  /** What holds between tokens. */
  ghost predicate Scanned(text: string, breaks: seq<nat>, stack: seq<nat>, last: nat, pos: nat) {
    && last <= pos <= |text|
    && (forall i: nat :: i in stack <==> OnStack(text, breaks, i, last, pos))
    && (forall a, b :: 0 <= a < b < |stack| ==> stack[a] < stack[b])
    && (forall i: nat :: last <= i < pos ==> !Opens(text, i) && !Closes(text, i))
  }

  /** The pair is recorded exactly when it matches and its second half has been passed. */
  predicate Agrees(text: string, breaks: seq<nat>, pairs: map<nat, nat>, pos: nat, i: nat, j: nat) {
    (i in pairs && pairs[i] == j) <==> (j < pos && Match(text, breaks, i, j))
  }

  ghost predicate Paired(text: string, breaks: seq<nat>, pairs: map<nat, nat>, pos: nat) {
    forall i: nat, j: nat :: Agrees(text, breaks, pairs, pos, i, j)
  }

  lemma NetSame(text: string, start: nat, end: nat, more: nat)
    requires start <= end <= more <= |text|
    requires forall i: nat :: end <= i < more ==> !Opens(text, i) && !Closes(text, i)
    ensures Net(text, start, more) == Net(text, start, end)
    decreases more
  {
    if end < more {
      NetSame(text, start, end, more - 1);
    }
  }

  /** Passing over characters that are no brackets changes nothing. */
  lemma Skip(text: string, breaks: seq<nat>, stack: seq<nat>, last: nat, pos: nat, pos': nat)
    requires Scanned(text, breaks, stack, last, pos) && pos <= pos' <= |text|
    requires forall i: nat :: pos <= i < pos' ==> !Opens(text, i) && !Closes(text, i)
    ensures Scanned(text, breaks, stack, last, pos')
  {
    forall i: nat | i < last && Opens(text, i)
      ensures OnStack(text, breaks, i, last, pos) <==> OnStack(text, breaks, i, last, pos')
    {
      forall k: nat | pos < k <= pos'
        ensures Since(text, i, k) == Since(text, i, pos)
      {
        NetSame(text, i + 1, pos, k);
      }
    }
  }

  /** At a token, the stack is emptied exactly when a block starts after the last token and not after this one. */
  lemma AtToken(text: string, breaks: seq<nat>, stack: seq<nat>, last: nat, pos: nat, pending: nat)
    requires Scanned(text, breaks, stack, last, pos) && pos < |text| && Sorted(breaks) && pending <= |breaks|
    requires forall k :: 0 <= k < pending ==> breaks[k] < last
    requires forall k :: pending <= k < |breaks| ==> last <= breaks[k]
    ensures var stack' := if pending < |breaks| && breaks[pending] <= pos then [] else stack;
      && (forall i: nat :: i in stack' <==> StillOpen(text, breaks, i, pos) && SameBlock(breaks, i, pos))
      && (forall a, b :: 0 <= a < b < |stack'| ==> stack'[a] < stack'[b])
  {
    var clear := pending < |breaks| && breaks[pending] <= pos;
    forall i: nat
      ensures (!clear && i in stack) <==> StillOpen(text, breaks, i, pos) && SameBlock(breaks, i, pos)
    {
      if i < last && clear {
        assert breaks[pending] in breaks;
      }
    }
  }

  lemma StillOpenNow(text: string, breaks: seq<nat>, i: nat, end: nat)
    requires StillOpen(text, breaks, i, end)
    ensures Since(text, i, end) >= 0
  {
  }

  /** After an opening bracket. */
  lemma Pushed(text: string, breaks: seq<nat>, stack: seq<nat>, pos: nat)
    requires Opens(text, pos)
    requires forall i: nat :: i in stack <==> StillOpen(text, breaks, i, pos) && SameBlock(breaks, i, pos)
    requires forall a, b :: 0 <= a < b < |stack| ==> stack[a] < stack[b]
    ensures Scanned(text, breaks, stack + [pos], pos + 1, pos + 1)
  {
    var stack' := stack + [pos];
    forall a | 0 <= a < |stack|
      ensures stack[a] < pos
    {
      var i: nat := stack[a];
      assert i in stack;
      assert StillOpen(text, breaks, i, pos);
    }
    forall i: nat
      ensures i in stack' <==> OnStack(text, breaks, i, pos + 1, pos + 1)
    {
      if i < pos && StillOpen(text, breaks, i, pos) {
        SinceOpening(text, i, pos);
        StillOpenNow(text, breaks, i, pos);
      } else if i == pos {
        assert stack'[|stack|] == pos && Since(text, pos, pos + 1) == 0;
      }
    }
  }

  /** After an escape, whose two characters are no brackets. */
  lemma Passed(text: string, breaks: seq<nat>, stack: seq<nat>, pos: nat)
    requires pos < |text| && !Opens(text, pos) && !Closes(text, pos)
    requires forall i: nat :: i in stack <==> StillOpen(text, breaks, i, pos) && SameBlock(breaks, i, pos)
    requires forall a, b :: 0 <= a < b < |stack| ==> stack[a] < stack[b]
    ensures Scanned(text, breaks, stack, pos + 1, pos + 1)
  {
    forall i: nat
      ensures i in stack <==> OnStack(text, breaks, i, pos + 1, pos + 1)
    {
      if i < pos {
        assert Since(text, i, pos + 1) == Since(text, i, pos);
        assert StillOpen(text, breaks, i, pos) ==> Since(text, i, pos) >= 0;
      }
    }
  }

  /** After a closing bracket: the innermost open bracket is taken, and is the match. */
  lemma Popped(text: string, breaks: seq<nat>, stack: seq<nat>, pos: nat)
    requires Closes(text, pos)
    requires forall i: nat :: i in stack <==> StillOpen(text, breaks, i, pos) && SameBlock(breaks, i, pos)
    requires forall a, b :: 0 <= a < b < |stack| ==> stack[a] < stack[b]
    ensures stack == [] ==> Scanned(text, breaks, [], pos + 1, pos + 1) && forall i: nat :: !Match(text, breaks, i, pos)
    ensures stack != [] ==>
      && Scanned(text, breaks, stack[..|stack| - 1], pos + 1, pos + 1)
      && forall i: nat :: Match(text, breaks, i, pos) <==> i == stack[|stack| - 1]
  {
    forall i: nat
      ensures Match(text, breaks, i, pos) <==> stack != [] && i == stack[|stack| - 1]
    {
      MatchOnTop(text, breaks, stack, pos, i);
    }
    var rest := if stack == [] then [] else stack[..|stack| - 1];
    forall i: nat
      ensures i in rest <==> OnStack(text, breaks, i, pos + 1, pos + 1)
    {
      StaysOpen(text, breaks, stack, pos, i);
    }
  }

  lemma MatchOnTop(text: string, breaks: seq<nat>, stack: seq<nat>, pos: nat, i: nat)
    requires Closes(text, pos)
    requires forall k: nat :: k in stack <==> StillOpen(text, breaks, k, pos) && SameBlock(breaks, k, pos)
    requires forall a, b :: 0 <= a < b < |stack| ==> stack[a] < stack[b]
    ensures Match(text, breaks, i, pos) <==> stack != [] && i == stack[|stack| - 1]
  {
    MatchIsInnermost(text, breaks, i, pos);
    if i in stack {
      var n :| 0 <= n < |stack| && stack[n] == i;
      if n < |stack| - 1 {
        assert stack[|stack| - 1] in stack && StillOpen(text, breaks, stack[|stack| - 1], pos);
      } else {
        assert forall k: nat :: k in stack ==> k <= i;
        assert forall k: nat :: i < k && StillOpen(text, breaks, k, pos) ==> SameBlock(breaks, k, pos);
      }
    }
  }

  lemma StaysOpen(text: string, breaks: seq<nat>, stack: seq<nat>, pos: nat, i: nat)
    requires Closes(text, pos)
    requires forall k: nat :: k in stack <==> StillOpen(text, breaks, k, pos) && SameBlock(breaks, k, pos)
    requires forall a, b :: 0 <= a < b < |stack| ==> stack[a] < stack[b]
    ensures i in (if stack == [] then [] else stack[..|stack| - 1]) <==> OnStack(text, breaks, i, pos + 1, pos + 1)
  {
    MatchOnTop(text, breaks, stack, pos, i);
    BelowTop(stack, i);
    if i < pos && Opens(text, i) {
      assert Since(text, i, pos + 1) == Since(text, i, pos) - 1;
      if StillOpen(text, breaks, i, pos) && SameBlock(breaks, i, pos) {
        assert Since(text, i, pos) >= 0;
        assert Match(text, breaks, i, pos) <==> Since(text, i, pos) == 0;
      }
    }
  }

  lemma BelowTop(stack: seq<nat>, i: nat)
    requires forall a, b :: 0 <= a < b < |stack| ==> stack[a] < stack[b]
    ensures i in (if stack == [] then [] else stack[..|stack| - 1]) <==> i in stack && i != stack[|stack| - 1]
  {
    if i in stack {
      var n :| 0 <= n < |stack| && stack[n] == i;
      if n < |stack| - 1 {
        assert stack[..|stack| - 1][n] == i;
      }
    }
  }

  lemma EscapeParity(text: string, pos: nat)
    requires pos < |text| && !Escaped(text, pos)
    ensures text[pos] != '\\' ==> !Escaped(text, pos + 1)
    ensures text[pos] == '\\' ==> Escaped(text, pos + 1)
    ensures text[pos] == '\\' && pos + 2 <= |text| ==> !Escaped(text, pos + 2)
  {
    assert Backslashes(text, pos + 1) == if text[pos] == '\\' then 1 + Backslashes(text, pos) else 0;
  }

  /** `bisect_right(breaks, at, from)`. */
  method BreaksUpTo(breaks: seq<nat>, at: nat, start: nat) returns (pending: nat)
    requires Sorted(breaks) && start <= |breaks| && forall k :: 0 <= k < start ==> breaks[k] <= at
    ensures start <= pending <= |breaks|
    ensures forall k :: 0 <= k < pending ==> breaks[k] <= at
    ensures forall k :: pending <= k < |breaks| ==> at < breaks[k]
  {
    pending := start;
    while pending < |breaks| && breaks[pending] <= at
      invariant start <= pending <= |breaks| && forall k :: 0 <= k < pending ==> breaks[k] <= at
    {
      pending := pending + 1;
    }
  }

  /** `_bracket_pairs` finds exactly the matching brackets. */
  method BracketPairs(text: string, breaks: seq<nat>) returns (pairs: map<nat, nat>)
    requires Sorted(breaks)
    ensures forall i: nat, j: nat :: (i in pairs && pairs[i] == j) <==> Match(text, breaks, i, j)
  {
    hide Match, Net, Since, OnStack, StillOpen, Backslashes;
    pairs := map[];
    var stack: seq<nat> := [];
    var pending, pos := 0, 0;
    ghost var last := 0;
    Begin(text, breaks);
    while pos < |text|
      invariant Scanned(text, breaks, stack, last, pos) && !Escaped(text, pos)
      invariant Paired(text, breaks, pairs, pos)
      invariant pending <= |breaks|
      invariant forall k :: 0 <= k < pending ==> breaks[k] < last
      invariant forall k :: pending <= k < |breaks| ==> last <= breaks[k]
      decreases |text| - pos
    {
      EscapeParity(text, pos);
      var token := text[pos] == '[' || text[pos] == ']' || (text[pos] == '\\' && pos + 1 < |text|);
      if !token {
        Skip(text, breaks, stack, last, pos, pos + 1);
        NoMatchAt(text, breaks, pairs, pos);
        if text[pos] == '\\' {
          pos := pos + 1;
          break;
        }
        pos := pos + 1;
        continue;
      }
      AtToken(text, breaks, stack, last, pos, pending);
      if pending < |breaks| && breaks[pending] <= pos {
        stack := [];
        pending := BreaksUpTo(breaks, pos, pending);
      }
      last := pos + 1;
      if text[pos] == '[' {
        Pushed(text, breaks, stack, pos);
        NoMatchAt(text, breaks, pairs, pos);
        stack := stack + [pos];
        pos := pos + 1;
      } else if text[pos] == ']' {
        Popped(text, breaks, stack, pos);
        if stack != [] {
          MatchAt(text, breaks, pairs, pos, stack[|stack| - 1]);
          pairs := pairs[stack[|stack| - 1] := pos];
          stack := stack[..|stack| - 1];
        } else {
          NothingMatchesAt(text, breaks, pairs, pos);
        }
        pos := pos + 1;
      } else {
        Passed(text, breaks, stack, pos);
        NoMatchAt(text, breaks, pairs, pos);
        Skip(text, breaks, stack, last, pos + 1, pos + 2);
        NoMatchAt(text, breaks, pairs, pos + 1);
        pos := pos + 2;
      }
    }
    AllMatched(text, breaks, pairs, pos);
  }

  lemma Begin(text: string, breaks: seq<nat>)
    ensures Scanned(text, breaks, [], 0, 0) && Paired(text, breaks, map[], 0) && !Escaped(text, 0)
  {
  }

  /** One more position, at which nothing pairs with `i`. */
  lemma AgreesOn(text: string, breaks: seq<nat>, pairs: map<nat, nat>, pos: nat, i: nat, j: nat)
    requires Agrees(text, breaks, pairs, pos, i, j) && !Match(text, breaks, i, pos)
    ensures Agrees(text, breaks, pairs, pos + 1, i, j)
  {
    hide Match;
  }

  /** One more position, at which the pair of `top` is recorded. */
  lemma AgreesWith(text: string, breaks: seq<nat>, pairs: map<nat, nat>, pos: nat, top: nat, i: nat, j: nat)
    requires Agrees(text, breaks, pairs, pos, i, j)
    requires Match(text, breaks, i, pos) <==> i == top
    requires i == top && j < pos ==> !Match(text, breaks, i, j)
    ensures Agrees(text, breaks, pairs[top := pos], pos + 1, i, j)
  {
    hide Match;
  }

  lemma NotClosing(text: string, breaks: seq<nat>, i: nat, pos: nat)
    requires !Closes(text, pos)
    ensures !Match(text, breaks, i, pos)
  {
    hide Since, SameBlock, Opens, Closes;
  }

  lemma NoMatchAt(text: string, breaks: seq<nat>, pairs: map<nat, nat>, pos: nat)
    requires Paired(text, breaks, pairs, pos) && !Closes(text, pos)
    ensures Paired(text, breaks, pairs, pos + 1)
  {
    hide Agrees, Match, Closes;
    var next := pos + 1;
    forall i: nat, j: nat
      ensures Agrees(text, breaks, pairs, next, i, j)
    {
      NotClosing(text, breaks, i, pos);
      assert Agrees(text, breaks, pairs, pos, i, j);
      AgreesOn(text, breaks, pairs, pos, i, j);
    }
  }

  lemma NothingMatchesAt(text: string, breaks: seq<nat>, pairs: map<nat, nat>, pos: nat)
    requires Paired(text, breaks, pairs, pos) && forall i: nat :: !Match(text, breaks, i, pos)
    ensures Paired(text, breaks, pairs, pos + 1)
  {
    hide Agrees, Match;
    var next := pos + 1;
    forall i: nat, j: nat
      ensures Agrees(text, breaks, pairs, next, i, j)
    {
      assert !Match(text, breaks, i, pos);
      assert Agrees(text, breaks, pairs, pos, i, j);
      AgreesOn(text, breaks, pairs, pos, i, j);
    }
  }

  lemma MatchAt(text: string, breaks: seq<nat>, pairs: map<nat, nat>, pos: nat, top: nat)
    requires Paired(text, breaks, pairs, pos) && forall i: nat :: Match(text, breaks, i, pos) <==> i == top
    ensures Paired(text, breaks, pairs[top := pos], pos + 1)
  {
    hide Agrees, Match;
    var more, next := pairs[top := pos], pos + 1;
    forall i: nat, j: nat
      ensures Agrees(text, breaks, more, next, i, j)
    {
      assert Match(text, breaks, i, pos) <==> i == top;
      if i == top && j < pos { MatchOnce(text, breaks, top, j, pos); }
      assert Agrees(text, breaks, pairs, pos, i, j);
      AgreesWith(text, breaks, pairs, pos, top, i, j);
    }
  }

  lemma MatchOnce(text: string, breaks: seq<nat>, i: nat, j: nat, pos: nat)
    requires Match(text, breaks, i, pos) && j < pos
    ensures !Match(text, breaks, i, j)
  {
    if i < j && Closes(text, j) {
      SinceClosing(text, i, j);
      assert Since(text, i, j + 1) >= 0;
    }
  }

  lemma SinceClosing(text: string, i: nat, j: nat)
    requires i < j < |text| && Closes(text, j) && !Opens(text, j)
    ensures Since(text, i, j + 1) == Since(text, i, j) - 1
  {
  }

  lemma SinceOpening(text: string, i: nat, j: nat)
    requires i < j < |text| && Opens(text, j)
    ensures Since(text, i, j + 1) == Since(text, i, j) + 1
  {
  }

  lemma AllMatched(text: string, breaks: seq<nat>, pairs: map<nat, nat>, pos: nat)
    requires Paired(text, breaks, pairs, pos) && pos >= |text|
    ensures forall i: nat, j: nat :: (i in pairs && pairs[i] == j) <==> Match(text, breaks, i, j)
  {
    forall i: nat, j: nat
      ensures (i in pairs && pairs[i] == j) <==> Match(text, breaks, i, j)
    {
      assert Agrees(text, breaks, pairs, pos, i, j);
    }
  }
}
