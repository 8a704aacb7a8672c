/** The recursive scan itself, and that it finds the parse tree whenever there is one. */
module JsonScan {
  import opened Options
  import opened JsonStrings
  import opened JsonSpans

  ghost predicate NoTree(text: string, at: nat, depth: nat) {
    forall m :: Parsed(text, m, depth) ==> m.start != at
  }

  ghost predicate OnlyTree(text: string, n: Node, depth: nat) {
    Parsed(text, n, depth) && forall m :: Parsed(text, m, depth) && m.start == n.start ==> m == n
  }

  /** The answer of a scan from `at`: the one tree that starts there and its spans, or that there is none. */
  ghost predicate Outcome(
    text: string, at: nat, depth: nat, path: Path, end: Option<nat>, spans: seq<Span>, node: Node)
  {
    if end.Some? then
      node.start == at && node.end == end.value && OnlyTree(text, node, depth) && spans == Spans(node, path)
    else
      NoTree(text, at, depth)
  }

  /** The same, told without the tree: there is an end exactly when there is a tree, and it and the spans are its own. */
  ghost predicate Answers(text: string, at: nat, depth: nat, path: Path, end: Option<nat>, spans: seq<Span>) {
    && (end.None? <==> NoTree(text, at, depth))
    && forall n :: Parsed(text, n, depth) && n.start == at ==> end == Some(n.end) && spans == Spans(n, path)
  }

  lemma OutcomeAnswers(text: string, at: nat, depth: nat, path: Path, end: Option<nat>, spans: seq<Span>, node: Node)
    requires Outcome(text, at, depth, path, end, spans, node)
    ensures Answers(text, at, depth, path, end, spans)
  {
    hide Parsed, Spans;
  }

  /** The parts read so far stand in the text, each with a comma behind it. */
  ghost predicate Underway(text: string, start: nat, braced: bool, depth: nat, parts: seq<Part>) {
    && PartsAt(text, braced, start, parts)
    && (forall k: nat :: k < |parts| ==> CommaAt(text, parts, k))
    && (forall k: nat :: k < |parts| ==> Parsed(text, parts[k].value, depth + 1))
  }

  predicate Continues(m: Node, braced: bool, parts: seq<Part>) {
    m.Group? && m.braced == braced && |parts| < |m.parts| && m.parts[..|parts|] == parts
  }

  /** Every tree from `start` has these parts and at least one more. */
  ghost predicate Forced(text: string, start: nat, braced: bool, depth: nat, parts: seq<Part>) {
    forall m :: Parsed(text, m, depth) && m.start == start ==> Continues(m, braced, parts)
  }

  function Closer(braced: bool): char {
    if braced then '}' else ']'
  }

  function Opener(braced: bool): char {
    if braced then '{' else '['
  }

  function Partial(start: nat, braced: bool, parts: seq<Part>): Node {
    Group(start, 0, braced, parts)
  }

  // ----- What a tree says about the positions in it

  lemma ValueStarts(text: string, n: Node, depth: nat)
    requires Parsed(text, n, depth)
    ensures n.start < n.end <= |text| && depth <= MAX_DEPTH
    ensures !IsBlank(text[n.start]) && text[n.start] != ']' && text[n.start] != '}' && text[n.start] != ','
    ensures n.Group? <==> text[n.start] == '{' || text[n.start] == '['
    ensures n.Group? ==> n.braced == (text[n.start] == '{')
    ensures n.Literal? <==> text[n.start] == '"'
    ensures n.Literal? ==> ScanString(text, n.start + 1) == Some(Scanned(n.points, n.end))
    ensures n.Scalar? <==> ScalarStart(text[n.start])
    ensures n.Scalar? ==> ScanScalar(text, n.start) == Some(n.end)
  {
    hide ScanString, ScanScalar, Blank, PartsAt;
  }

  lemma StopOfGroup(text: string, m: Node, depth: nat, k: nat)
    requires Parsed(text, m, depth) && m.Group? && k < |m.parts|
    ensures m.parts[k].stop < |text|
    ensures k + 1 < |m.parts| ==> text[m.parts[k].stop] == ','
    ensures k + 1 == |m.parts| ==> text[m.parts[k].stop] == Closer(m.braced) && m.end == m.parts[k].stop + 1
  {
    hide ScanString, ScanScalar, Blank, PartsAt;
    if k + 1 < |m.parts| { assert CommaAt(text, m.parts, k); }
  }

  /** A part ends at the first character behind its value that is not blank. */
  lemma StopIsForced(text: string, m: Node, depth: nat, k: nat)
    requires Parsed(text, m, depth) && m.Group? && k < |m.parts|
    ensures m.parts[k].value.end <= |text| && m.parts[k].stop < |text|
    ensures m.parts[k].stop == SkipTo(text, m.parts[k].value.end)
    ensures k + 1 < |m.parts| ==> text[m.parts[k].stop] == ','
    ensures k + 1 == |m.parts| ==> text[m.parts[k].stop] == Closer(m.braced) && m.end == m.parts[k].stop + 1
  {
    hide Parsed, SkipTo;
    PartOfGroup(text, m, depth, k);
    var p := m.parts[k];
    StopOfGroup(text, m, depth, k);
    SkipIsUnique(text, p.value.end, p.stop);
  }

  /** Where a part of a tree begins, and for an object where its key, colon and value stand. */
  lemma StartIsForced(text: string, m: Node, depth: nat, k: nat)
    requires Parsed(text, m, depth) && m.Group? && k < |m.parts|
    ensures PartStart(m.start, m.parts, k) <= |text|
    ensures
      var p := m.parts[k];
      var at := SkipTo(text, PartStart(m.start, m.parts, k));
      if m.braced then
        && at < |text| && text[at] == '"' && p.key.Some?
        && var key := p.key.value;
        && key.close <= |text| && key.open == at && ScanString(text, at + 1) == Some(Scanned(key.name, key.close))
        && key.colon == SkipTo(text, key.close) && key.colon < |text| && text[key.colon] == ':'
        && p.value.start == SkipTo(text, key.colon + 1)
      else p.key.None? && p.value.start == at
  {
    hide ScanString, ScanScalar, SkipTo, Parsed;
    PartOfGroup(text, m, depth, k);
    var p := m.parts[k];
    ValueStarts(text, p.value, depth + 1);
    if m.braced {
      var key := p.key.value;
      SkipIsUnique(text, PartStart(m.start, m.parts, k), key.open);
      SkipIsUnique(text, key.close, key.colon);
      SkipIsUnique(text, key.colon + 1, p.value.start);
    } else {
      SkipIsUnique(text, PartStart(m.start, m.parts, k), p.value.start);
    }
  }

  lemma EmptyEnds(text: string, m: Node, depth: nat)
    requires Parsed(text, m, depth) && m.Group? && m.parts == []
    ensures m.start + 1 < m.end <= |text| && m.end - 1 == SkipTo(text, m.start + 1)
    ensures text[m.end - 1] == Closer(m.braced)
  {
    hide ScanString, ScanScalar, SkipTo;
    SkipIsUnique(text, m.start + 1, m.end - 1);
  }

  // ----- An opening bracket

  /** Right behind the bracket: closed at once, or every tree has a first part. */
  lemma Opened(text: string, start: nat, braced: bool, depth: nat, path: Path)
    requires start < |text| && text[start] == Opener(braced) && depth <= MAX_DEPTH
    ensures
      var index := SkipTo(text, start + 1);
      if index < |text| && text[index] == Closer(braced) then
        && Outcome(text, start, depth, path, Some(index + 1), [], Group(start, index + 1, braced, []))
        && Answers(text, start, depth, path, Some(index + 1), [])
      else if index == |text| then NoTree(text, start, depth)
      else Forced(text, start, braced, depth, [])
    ensures Underway(text, start, braced, depth, [])
    ensures PartSpans(Partial(start, braced, []), path, 0) == []
  {
    hide ScanString, ScanScalar, SkipTo, Parsed;
    var index := SkipTo(text, start + 1);
    forall m | Parsed(text, m, depth) && m.start == start
      ensures m.Group? && m.braced == braced
      ensures m.parts == [] ==> index < |text| && text[index] == Closer(braced) && m.end == index + 1
      ensures m.parts != [] ==> index < |text| && text[index] != Closer(braced)
    {
      ValueStarts(text, m, depth);
      if m.parts == [] {
        EmptyEnds(text, m, depth);
      } else {
        StartIsForced(text, m, depth, 0);
        PartOfGroup(text, m, depth, 0);
        ValueStarts(text, m.parts[0].value, depth + 1);
      }
    }
    if index < |text| && text[index] == Closer(braced) {
      EmptyGroup(text, start, index, braced, depth, path);
      OutcomeAnswers(text, start, depth, path, Some(index + 1), [], Group(start, index + 1, braced, []));
    }
  }

  lemma EmptyGroup(text: string, start: nat, index: nat, braced: bool, depth: nat, path: Path)
    requires start < index < |text| && text[start] == Opener(braced) && text[index] == Closer(braced)
    requires Blank(text, start + 1, index) && depth <= MAX_DEPTH
    ensures Parsed(text, Group(start, index + 1, braced, []), depth)
    ensures Spans(Group(start, index + 1, braced, []), path) == []
  {
  }

  // ----- One more part

  /** What every tree has to go on with, where the scan looks for it. */
  lemma NextHead(text: string, start: nat, braced: bool, depth: nat, parts: seq<Part>, m: Node)
    requires Forced(text, start, braced, depth, parts)
    requires Parsed(text, m, depth) && m.start == start
    ensures Continues(m, braced, parts) && PartStart(start, parts, |parts|) <= |text|
    ensures PartStart(start, m.parts, |parts|) == PartStart(start, parts, |parts|)
    ensures
      var p := m.parts[|parts|];
      var at := SkipTo(text, PartStart(start, parts, |parts|));
      && Parsed(text, p.value, depth + 1)
      && if braced then
           && at < |text| && text[at] == '"' && p.key.Some?
           && var key := p.key.value;
           && key.close <= |text| && key.open == at && ScanString(text, at + 1) == Some(Scanned(key.name, key.close))
           && key.colon == SkipTo(text, key.close) && key.colon < |text| && text[key.colon] == ':'
           && p.value.start == SkipTo(text, key.colon + 1)
         else p.key.None? && p.value.start == at
  {
    hide ScanString, SkipTo, Parsed;
    var k := |parts|;
    assert Continues(m, braced, parts);
    if k > 0 { assert m.parts[k - 1] == m.parts[..k][k - 1] == parts[k - 1]; }
    StartIsForced(text, m, depth, k);
    PartOfGroup(text, m, depth, k);
  }

  predicate HasKey(parts: seq<Part>, name: Points) {
    exists k :: 0 <= k < |parts| && parts[k].key.Some? && parts[k].key.value.name == name
  }

  lemma NoRepeatedKey(text: string, start: nat, depth: nat, parts: seq<Part>, m: Node)
    requires Forced(text, start, true, depth, parts)
    requires Parsed(text, m, depth) && m.start == start
    ensures Continues(m, true, parts)
    ensures m.parts[|parts|].key.Some? ==> !HasKey(parts, m.parts[|parts|].key.value.name)
  {
    hide ScanString, SkipTo, Parsed;
    assert Continues(m, true, parts);
    GroupEnds(text, m, depth);
    forall k | 0 <= k < |parts|
      ensures m.parts[k] == parts[k]
    {
      assert m.parts[..|parts|][k] == m.parts[k];
    }
  }

  /** Where the scan of an object gives up, there is no tree. */
  lemma ObjectRefused(text: string, start: nat, depth: nat, parts: seq<Part>)
    requires Forced(text, start, true, depth, parts) && PartStart(start, parts, |parts|) <= |text|
    ensures
      var at := SkipTo(text, PartStart(start, parts, |parts|));
      if at == |text| || text[at] != '"' || ScanString(text, at + 1).None? then NoTree(text, start, depth)
      else
        var key := ScanString(text, at + 1).value;
        var colon := SkipTo(text, key.end);
        && (HasKey(parts, key.value) ==> NoTree(text, start, depth))
        && if colon == |text| || text[colon] != ':' then NoTree(text, start, depth)
           else NoTree(text, SkipTo(text, colon + 1), depth + 1) ==> NoTree(text, start, depth)
  {
    hide ScanString, SkipTo, Parsed, Forced, HasKey;
    forall m | Parsed(text, m, depth) && m.start == start
      ensures
        var at := SkipTo(text, PartStart(start, parts, |parts|));
        && at < |text| && text[at] == '"' && ScanString(text, at + 1).Some?
        && var key := ScanString(text, at + 1).value;
        && !HasKey(parts, key.value)
        && var colon := SkipTo(text, key.end);
        && colon < |text| && text[colon] == ':'
        && !NoTree(text, SkipTo(text, colon + 1), depth + 1)
    {
      NextHead(text, start, true, depth, parts, m);
      NoRepeatedKey(text, start, depth, parts, m);
      assert Parsed(text, m.parts[|parts|].value, depth + 1);
    }
  }

  lemma ArrayRefused(text: string, start: nat, depth: nat, parts: seq<Part>)
    requires Forced(text, start, false, depth, parts) && PartStart(start, parts, |parts|) <= |text|
    requires NoTree(text, SkipTo(text, PartStart(start, parts, |parts|)), depth + 1)
    ensures NoTree(text, start, depth)
  {
    hide ScanString, SkipTo, Parsed, Forced;
    forall m | Parsed(text, m, depth) && m.start == start
      ensures false
    {
      NextHead(text, start, false, depth, parts, m);
    }
  }

  /** The next part's key and value are forced once its value is the only one there. */
  lemma ValueIsForced(
    text: string, start: nat, braced: bool, depth: nat, parts: seq<Part>, key: Option<Key>, value: Node, m: Node)
    requires Forced(text, start, braced, depth, parts)
    requires HeadAt(text, braced, PartStart(start, parts, |parts|), key, value.start)
    requires OnlyTree(text, value, depth + 1)
    requires Parsed(text, m, depth) && m.start == start
    ensures Continues(m, braced, parts)
    ensures m.parts[|parts|].key == key && m.parts[|parts|].value == value
  {
    hide ScanString, SkipTo, Parsed, Forced, HeadAt;
    NextHead(text, start, braced, depth, parts, m);
    HeadPositions(text, braced, PartStart(start, parts, |parts|), key, value, depth + 1);
  }

  /** The positions of a head, found the way the scan finds them. */
  lemma HeadPositions(text: string, braced: bool, start: nat, key: Option<Key>, value: Node, depth: nat)
    requires HeadAt(text, braced, start, key, value.start) && Parsed(text, value, depth)
    ensures
      var at := SkipTo(text, start);
      if braced then
        && at < |text| && text[at] == '"' && key.Some?
        && key.value.close <= |text| && key.value.open == at
        && ScanString(text, at + 1) == Some(Scanned(key.value.name, key.value.close))
        && key.value.colon == SkipTo(text, key.value.close) && key.value.colon < |text|
        && value.start == SkipTo(text, key.value.colon + 1)
      else key.None? && value.start == at
  {
    hide ScanString, SkipTo, Parsed;
    ValueStarts(text, value, depth);
    if braced {
      SkipIsUnique(text, start, key.value.open);
      SkipIsUnique(text, key.value.close, key.value.colon);
      SkipIsUnique(text, key.value.colon + 1, value.start);
    } else {
      SkipIsUnique(text, start, value.start);
    }
  }

  /** A value with nothing but blanks behind it. */
  lemma Unstopped(
    text: string, start: nat, braced: bool, depth: nat, parts: seq<Part>, key: Option<Key>, value: Node)
    requires Forced(text, start, braced, depth, parts)
    requires HeadAt(text, braced, PartStart(start, parts, |parts|), key, value.start)
    requires OnlyTree(text, value, depth + 1) && value.end <= |text| && SkipTo(text, value.end) == |text|
    ensures NoTree(text, start, depth)
  {
    hide ScanString, SkipTo, Parsed, Forced, Continues, HeadAt, OnlyTree;
    forall m | Parsed(text, m, depth) && m.start == start
      ensures false
    {
      ValueIsForced(text, start, braced, depth, parts, key, value, m);
      assert Continues(m, braced, parts);
      StopOfContinuing(text, m, braced, depth, parts);
    }
  }

  lemma StopOfContinuing(text: string, m: Node, braced: bool, depth: nat, parts: seq<Part>)
    requires Parsed(text, m, depth) && Continues(m, braced, parts)
    ensures m.parts[|parts|].value.end <= |text| && m.parts[|parts|].stop < |text|
    ensures m.parts[|parts|].stop == SkipTo(text, m.parts[|parts|].value.end)
    ensures |parts| + 1 < |m.parts| ==> text[m.parts[|parts|].stop] == ','
    ensures |parts| + 1 == |m.parts| ==>
              text[m.parts[|parts|].stop] == Closer(braced) && m.end == m.parts[|parts|].stop + 1
  {
    hide Parsed, SkipTo;
    StopIsForced(text, m, depth, |parts|);
  }

  /** A part in place: its closing bracket ends the one tree there is, its comma forces another part. */
  lemma PartDone(
    text: string, start: nat, braced: bool, depth: nat, path: Path, parts: seq<Part>, spans: seq<Span>, p: Part)
    requires start < |text| && text[start] == Opener(braced) && depth <= MAX_DEPTH
    requires Forced(text, start, braced, depth, parts) && Underway(text, start, braced, depth, parts)
    requires PartAt(text, braced, PartStart(start, parts, |parts|), p) && OnlyTree(text, p.value, depth + 1)
    requires p.value.end <= |text| && p.stop == SkipTo(text, p.value.end) && p.stop < |text|
    requires DistinctKeys(parts + [p])
    requires spans == PartSpans(Partial(start, braced, parts), path, |parts|)
    ensures
      var more := parts + [p];
      var all := spans + Spans(p.value, path + [StepOf(p, |parts|)]);
      && all == PartSpans(Partial(start, braced, more), path, |more|)
      && if text[p.stop] == Closer(braced) then
           && Outcome(text, start, depth, path, Some(p.stop + 1), all, Group(start, p.stop + 1, braced, more))
           && Answers(text, start, depth, path, Some(p.stop + 1), all)
         else if text[p.stop] == ',' then
           Forced(text, start, braced, depth, more) && Underway(text, start, braced, depth, more)
         else NoTree(text, start, depth)
  {
    hide ScanString, SkipTo, Parsed, PartAt, Underway, DistinctKeys, Spans, PartSpans, Continues;
    var more := parts + [p];
    SpansStep(start, braced, path, parts, p);
    TreesGoOn(text, start, braced, depth, parts, p);
    if text[p.stop] == Closer(braced) {
      GroupStands(text, start, braced, depth, parts, p);
      SpansOfGroup(Group(start, p.stop + 1, braced, more), path);
      SameParts(Group(start, p.stop + 1, braced, more), Partial(start, braced, more), path, |more|);
      OnlyOne(text, Group(start, p.stop + 1, braced, more), depth);
      OutcomeAnswers(text, start, depth, path, Some(p.stop + 1),
                     spans + Spans(p.value, path + [StepOf(p, |parts|)]), Group(start, p.stop + 1, braced, more));
    } else if text[p.stop] == ',' {
      UnderwayStep(text, start, braced, depth, parts, p);
    }
  }

  lemma OnlyOne(text: string, n: Node, depth: nat)
    requires Parsed(text, n, depth) && forall m :: Parsed(text, m, depth) && m.start == n.start ==> m == n
    ensures OnlyTree(text, n, depth)
  {
    hide Parsed;
  }

  /** Every tree has this part too, and what it does then depends on the character behind it. */
  lemma TreesGoOn(text: string, start: nat, braced: bool, depth: nat, parts: seq<Part>, p: Part)
    requires Forced(text, start, braced, depth, parts)
    requires PartAt(text, braced, PartStart(start, parts, |parts|), p) && OnlyTree(text, p.value, depth + 1)
    requires p.value.end <= |text| && p.stop == SkipTo(text, p.value.end) && p.stop < |text|
    ensures forall m :: Parsed(text, m, depth) && m.start == start ==>
      if text[p.stop] == Closer(braced) then m == Group(start, p.stop + 1, braced, parts + [p])
      else text[p.stop] == ',' && Continues(m, braced, parts + [p])
  {
    hide ScanString, SkipTo, Parsed, Forced, HeadAt, OnlyTree;
    var more := parts + [p];
    forall m | Parsed(text, m, depth) && m.start == start
      ensures
        if text[p.stop] == Closer(braced) then m == Group(start, p.stop + 1, braced, more)
        else text[p.stop] == ',' && Continues(m, braced, more)
    {
      ValueIsForced(text, start, braced, depth, parts, p.key, p.value, m);
      StopOfContinuing(text, m, braced, depth, parts);
      assert m.parts[|parts|] == p;
      assert m.parts[..|more|] == m.parts[..|parts|] + [m.parts[|parts|]];
      if |m.parts| == |more| { assert m.parts == m.parts[..|more|]; }
    }
  }

  lemma SpansStep(start: nat, braced: bool, path: Path, parts: seq<Part>, p: Part)
    ensures
      PartSpans(Partial(start, braced, parts + [p]), path, |parts| + 1) ==
      PartSpans(Partial(start, braced, parts), path, |parts|) + Spans(p.value, path + [StepOf(p, |parts|)])
  {
    hide Spans, StepOf;
    SameParts(Partial(start, braced, parts + [p]), Partial(start, braced, parts), path, |parts|);
  }

  lemma PartsStep(text: string, braced: bool, start: nat, parts: seq<Part>, p: Part)
    requires PartsAt(text, braced, start, parts) && PartAt(text, braced, PartStart(start, parts, |parts|), p)
    requires DistinctKeys(parts + [p])
    ensures PartsAt(text, braced, start, parts + [p])
  {
    hide PartAt, DistinctKeys;
    var more := parts + [p];
    forall k: nat | k < |more|
      ensures PartAt(text, braced, PartStart(start, more, k), more[k])
    {
      assert PartStart(start, more, k) == PartStart(start, parts, k);
      if k < |parts| { assert more[k] == parts[k]; }
    }
  }

  lemma UnderwayStep(text: string, start: nat, braced: bool, depth: nat, parts: seq<Part>, p: Part)
    requires Underway(text, start, braced, depth, parts)
    requires PartAt(text, braced, PartStart(start, parts, |parts|), p) && DistinctKeys(parts + [p])
    requires Parsed(text, p.value, depth + 1) && p.stop < |text| && text[p.stop] == ','
    ensures Underway(text, start, braced, depth, parts + [p])
  {
    hide PartAt, PartsAt, Parsed, DistinctKeys;
    PartsStep(text, braced, start, parts, p);
    var more := parts + [p];
    forall k: nat | k < |more|
      ensures CommaAt(text, more, k) && Parsed(text, more[k].value, depth + 1)
    {
      if k < |parts| {
        assert more[k] == parts[k];
        assert CommaAt(text, parts, k);
      }
    }
  }

  lemma GroupStands(text: string, start: nat, braced: bool, depth: nat, parts: seq<Part>, p: Part)
    requires start < |text| && text[start] == Opener(braced) && depth <= MAX_DEPTH
    requires Underway(text, start, braced, depth, parts)
    requires PartAt(text, braced, PartStart(start, parts, |parts|), p) && DistinctKeys(parts + [p])
    requires Parsed(text, p.value, depth + 1) && p.stop < |text| && text[p.stop] == Closer(braced)
    ensures Parsed(text, Group(start, p.stop + 1, braced, parts + [p]), depth)
  {
    hide PartAt, PartsAt, DistinctKeys, ScanString, ScanScalar, Blank;
    PartsStep(text, braced, start, parts, p);
    StartsBelow(text, start, braced, depth, parts, p);
    var more := parts + [p];
    forall k: nat | k < |more|
      ensures k + 1 < |more| ==> CommaAt(text, more, k)
      ensures Parsed(text, more[k].value, depth + 1)
    {
      if k < |parts| {
        assert more[k] == parts[k];
        assert CommaAt(text, parts, k);
      }
    }
  }

  lemma StartsBelow(text: string, start: nat, braced: bool, depth: nat, parts: seq<Part>, p: Part)
    requires Underway(text, start, braced, depth, parts)
    requires PartAt(text, braced, PartStart(start, parts, |parts|), p)
    ensures start < p.stop
  {
    StartsBelowPart(text, start, braced, depth, parts, |parts|);
  }

  lemma {:induction false} StartsBelowPart(text: string, start: nat, braced: bool, depth: nat, parts: seq<Part>, k: nat)
    requires Underway(text, start, braced, depth, parts) && k <= |parts|
    ensures start < PartStart(start, parts, k)
  {
    hide Underway, PartAt;
    if k > 0 {
      StartsBelowPart(text, start, braced, depth, parts, k - 1);
      PartUnderway(text, start, braced, depth, parts, k - 1);
      PartBounds(text, braced, PartStart(start, parts, k - 1), parts[k - 1]);
    }
  }

  lemma PartUnderway(text: string, start: nat, braced: bool, depth: nat, parts: seq<Part>, k: nat)
    requires Underway(text, start, braced, depth, parts) && k < |parts|
    ensures PartAt(text, braced, PartStart(start, parts, k), parts[k])
  {
    hide PartAt, Parsed, DistinctKeys;
  }

  // ----- The scan

  /** Nothing starts where no value can. */
  lemma NoValueAt(text: string, at: nat, depth: nat)
    requires at <= |text|
    requires
      || depth > MAX_DEPTH || at == |text|
      || (text[at] !in "{[\"" && (!ScalarStart(text[at]) || ScanScalar(text, at).None?))
      || (text[at] == '"' && ScanString(text, at + 1).None?)
    ensures NoTree(text, at, depth)
  {
    hide ScanString, ScanScalar, Parsed;
    forall n | Parsed(text, n, depth)
      ensures n.start != at
    {
      ValueStarts(text, n, depth);
    }
  }

  lemma LeafStands(text: string, n: Node, depth: nat, path: Path)
    requires depth <= MAX_DEPTH && n.start < n.end <= |text| && !n.Group?
    requires n.Literal? ==> text[n.start] == '"' && ScanString(text, n.start + 1) == Some(Scanned(n.points, n.end))
    requires n.Scalar? ==> ScalarStart(text[n.start]) && ScanScalar(text, n.start) == Some(n.end)
    ensures Outcome(text, n.start, depth, path, Some(n.end), Spans(n, path), n)
    ensures Answers(text, n.start, depth, path, Some(n.end), Spans(n, path))
    ensures Spans(n, path) == if n.Literal? then [Span(path, n.start + 1, n.end - 1, n.points)] else []
  {
    hide ScanString, ScanScalar;
    forall m | Parsed(text, m, depth) && m.start == n.start
      ensures m == n
    {
      ValueStarts(text, m, depth);
    }
    OutcomeAnswers(text, n.start, depth, path, Some(n.end), Spans(n, path), n);
  }

  /** Finding a value: told by the one outcome there can be. */
  lemma Found(text: string, at: nat, depth: nat, path: Path, end: Option<nat>, spans: seq<Span>, n: Node)
    requires Outcome(text, at, depth, path, end, spans, n) && at <= |text|
    ensures end.Some? ==>
      && n.start == at && n.end == end.value && at < end.value <= |text|
      && OnlyTree(text, n, depth) && Parsed(text, n, depth) && spans == Spans(n, path)
    ensures end.None? ==> NoTree(text, at, depth)
  {
    hide Parsed;
    if end.Some? { ValueStarts(text, n, depth); }
  }

  /** `_json_strings`, with the spans returned instead of appended to a list. */
  method ScanValue(text: string, start: nat, path: Path, depth: nat)
    returns (end: Option<nat>, spans: seq<Span>, ghost node: Node)
    requires start <= |text|
    ensures Answers(text, SkipTo(text, start), depth, path, end, spans)
    ensures Outcome(text, SkipTo(text, start), depth, path, end, spans, node)
    decreases |text| - start, 1
  {
    hide Outcome, Answers, ScanString, ScanScalar, SkipTo, Spans, NoTree;
    spans, node := [], Scalar(0, 0);
    if depth > MAX_DEPTH {
      NoValueAt(text, SkipTo(text, start), depth);
      Missing(text, SkipTo(text, start), depth, path, node);
      return None, [], node;
    }
    var index := Skip(text, start);
    if index == |text| {
      NoValueAt(text, index, depth);
      Missing(text, index, depth, path, node);
      return None, [], node;
    }
    var c := text[index];
    if c == '{' {
      end, spans, node := ScanObject(text, index, path, depth);
      return;
    }
    if c == '[' {
      end, spans, node := ScanArray(text, index, path, depth);
      return;
    }
    if c == '"' {
      var scanned := ScanString(text, index + 1);
      if scanned.None? {
        NoValueAt(text, index, depth);
        Missing(text, index, depth, path, node);
        return None, [], node;
      }
      node := Literal(index, scanned.value.end, scanned.value.value);
      LeafStands(text, node, depth, path);
      return Some(scanned.value.end), [Span(path, index + 1, scanned.value.end - 1, scanned.value.value)], node;
    }
    if ScalarStart(c) {
      end := ScanScalar(text, index);
      if end.Some? {
        node := Scalar(index, end.value);
        LeafStands(text, node, depth, path);
        return end, [], node;
      }
    }
    NoValueAt(text, index, depth);
    Missing(text, index, depth, path, node);
    end := None;
  }

  lemma Missing(text: string, at: nat, depth: nat, path: Path, node: Node)
    requires NoTree(text, at, depth)
    ensures Outcome(text, at, depth, path, None, [], node) && Answers(text, at, depth, path, None, [])
  {
    hide Parsed;
  }

  method ScanObject(text: string, start: nat, path: Path, depth: nat)
    returns (end: Option<nat>, spans: seq<Span>, ghost node: Node)
    requires start < |text| && text[start] == '{' && depth <= MAX_DEPTH
    ensures Answers(text, start, depth, path, end, spans)
    ensures Outcome(text, start, depth, path, end, spans, node)
    decreases |text| - start, 0
  {
    hide Outcome, Answers, ScanString, SkipTo, Parsed, Forced, Underway, PartSpans, OnlyTree, NoTree, HasKey, DistinctKeys,
         HeadAt, Spans, Blank;
    NoKeyYet();
    node := Scalar(0, 0);
    var index := Skip(text, start + 1);
    Opened(text, start, true, depth, path);
    if index == |text| {
      Missing(text, start, depth, path, node);
      return None, [], node;
    }
    if text[index] == '}' { return Some(index + 1), [], Group(start, index + 1, true, []); }
    var keys: set<Points> := {};
    ghost var parts: seq<Part> := [];
    spans := [];
    while true
      invariant start < index <= |text|
      invariant PartStart(start, parts, |parts|) <= |text| && index == SkipTo(text, PartStart(start, parts, |parts|))
      invariant Forced(text, start, true, depth, parts) && Underway(text, start, true, depth, parts)
      invariant spans == PartSpans(Partial(start, true, parts), path, |parts|)
      invariant forall name :: name in keys <==> HasKey(parts, name)
      decreases |text| - index
    {
      ObjectRefused(text, start, depth, parts);
      if index == |text| || text[index] != '"' {
        Missing(text, start, depth, path, node);
        return None, [], node;
      }
      var scanned := ScanString(text, index + 1);
      if scanned.None? {
        Missing(text, start, depth, path, node);
        return None, [], node;
      }
      var key := scanned.value.value;
      if key in keys {
        Missing(text, start, depth, path, node);
        return None, [], node;
      }
      keys := keys + {key};
      var colon := Skip(text, scanned.value.end);
      if colon == |text| || text[colon] != ':' {
        Missing(text, start, depth, path, node);
        return None, [], node;
      }
      var valueEnd, found, value := ScanValue(text, colon + 1, path + [Named(key)], depth + 1);
      Found(text, SkipTo(text, colon + 1), depth + 1, path + [Named(key)], valueEnd, found, value);
      if valueEnd.None? {
        Missing(text, start, depth, path, node);
        return None, [], node;
      }
      ghost var first := PartStart(start, parts, |parts|);
      ghost var name := Some(Key(index, scanned.value.end, colon, key));
      ObjectHead(text, first, name.value, value.start);
      var stop := Skip(text, valueEnd.value);
      ghost var p := Part(name, value, stop);
      if stop == |text| {
        Unstopped(text, start, true, depth, parts, name, value);
        Missing(text, start, depth, path, node);
        return None, [], node;
      }
      FreshKey(text, start, depth, parts, p);
      PartDone(text, start, true, depth, path, parts, spans, p);
      spans := spans + found;
      parts := parts + [p];
      if text[stop] == '}' { return Some(stop + 1), spans, Group(start, stop + 1, true, parts); }
      if text[stop] != ',' {
        Missing(text, start, depth, path, node);
        return None, [], node;
      }
      index := Skip(text, stop + 1);
    }
  }

  lemma NoKeyYet()
    ensures forall name :: !HasKey([], name)
  {
  }

  lemma ObjectHead(text: string, first: nat, key: Key, value: nat)
    requires first <= |text| && key.open == SkipTo(text, first) && key.open < |text| && text[key.open] == '"'
    requires ScanString(text, key.open + 1) == Some(Scanned(key.name, key.close)) && key.close <= |text|
    requires key.colon == SkipTo(text, key.close) && key.colon < |text| && text[key.colon] == ':'
    requires value == SkipTo(text, key.colon + 1) && value < |text|
    ensures HeadAt(text, true, first, Some(key), value)
  {
    hide ScanString, SkipTo;
  }

  /** A key not met before keeps the keys distinct. */
  lemma FreshKey(text: string, start: nat, depth: nat, parts: seq<Part>, p: Part)
    requires Underway(text, start, true, depth, parts) && p.key.Some? && !HasKey(parts, p.key.value.name)
    ensures DistinctKeys(parts + [p])
    ensures forall name :: HasKey(parts + [p], name) <==> HasKey(parts, name) || name == p.key.value.name
  {
    hide PartAt, Parsed;
    var more := parts + [p];
    assert more[|parts|] == p;
    forall name
      ensures HasKey(more, name) <==> HasKey(parts, name) || name == p.key.value.name
    {
      if HasKey(parts, name) {
        var k :| 0 <= k < |parts| && parts[k].key.Some? && parts[k].key.value.name == name;
        assert more[k] == parts[k];
      }
    }
    forall k, l | 0 <= k < l < |more| && more[k].key.Some? && more[l].key.Some?
      ensures more[k].key.value.name != more[l].key.value.name
    {
      if l == |parts| { assert !(parts[k].key.value.name == p.key.value.name); }
    }
  }

  lemma KeylessPart(text: string, start: nat, depth: nat, parts: seq<Part>, p: Part)
    requires Underway(text, start, false, depth, parts) && p.key.None?
    ensures DistinctKeys(parts + [p])
  {
    hide PartAt, Parsed;
  }

  method ScanArray(text: string, start: nat, path: Path, depth: nat)
    returns (end: Option<nat>, spans: seq<Span>, ghost node: Node)
    requires start < |text| && text[start] == '[' && depth <= MAX_DEPTH
    ensures Answers(text, start, depth, path, end, spans)
    ensures Outcome(text, start, depth, path, end, spans, node)
    decreases |text| - start, 0
  {
    hide Outcome, Answers, ScanString, SkipTo, Parsed, Forced, Underway, PartSpans, OnlyTree, NoTree, DistinctKeys;
    node := Scalar(0, 0);
    var index := Skip(text, start + 1);
    Opened(text, start, false, depth, path);
    if index == |text| {
      Missing(text, start, depth, path, node);
      return None, [], node;
    }
    if text[index] == ']' { return Some(index + 1), [], Group(start, index + 1, false, []); }
    var position := 0;
    ghost var parts: seq<Part> := [];
    spans := [];
    while true
      invariant start < index <= |text| && position == |parts|
      invariant PartStart(start, parts, |parts|) <= index && Blank(text, PartStart(start, parts, |parts|), index)
      invariant Forced(text, start, false, depth, parts) && Underway(text, start, false, depth, parts)
      invariant spans == PartSpans(Partial(start, false, parts), path, |parts|)
      decreases |text| - index
    {
      ghost var first := PartStart(start, parts, |parts|);
      SkipOverBlank(text, first, index);
      var valueEnd, found, value := ScanValue(text, index, path + [At(position)], depth + 1);
      Found(text, SkipTo(text, index), depth + 1, path + [At(position)], valueEnd, found, value);
      if valueEnd.None? {
        ArrayRefused(text, start, depth, parts);
        Missing(text, start, depth, path, node);
        return None, [], node;
      }
      var stop := Skip(text, valueEnd.value);
      ghost var p := Part(None, value, stop);
      assert HeadAt(text, false, first, None, value.start);
      if stop == |text| {
        Unstopped(text, start, false, depth, parts, None, value);
        Missing(text, start, depth, path, node);
        return None, [], node;
      }
      KeylessPart(text, start, depth, parts, p);
      PartDone(text, start, false, depth, path, parts, spans, p);
      spans := spans + found;
      parts := parts + [p];
      position := position + 1;
      if text[stop] == ']' { return Some(stop + 1), spans, Group(start, stop + 1, false, parts); }
      if text[stop] != ',' {
        Missing(text, start, depth, path, node);
        return None, [], node;
      }
      index := stop + 1;
    }
  }
}
