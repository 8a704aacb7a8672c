/**
 The scan of a grounding document: where each string value stands, and under which path.

 `Node` is the document's parse tree with positions only.  `Parsed` says the text at those positions
 is that tree, by the grammar; the scan answers a tree's end exactly when there is such a tree, and
 records exactly the string values of the tree.
 */
module JsonSpans {
  import opened Options
  import opened JsonStrings

  const MAX_DEPTH := 64

  // ----- Scalars

  predicate IsDigit(c: char) {
    '0' <= c <= '9'
  }

  function Digits(text: string, i: nat): (end: nat)
    requires i <= |text|
    ensures i <= end <= |text|
    decreases |text| - i
  {
    if i < |text| && IsDigit(text[i]) then Digits(text, i + 1) else i
  }

  function WholePart(text: string, i: nat): (end: Option<nat>)
    requires i <= |text|
    ensures end.Some? ==> i < end.value <= |text|
  {
    var start := if i < |text| && text[i] == '-' then i + 1 else i;
    if start < |text| && text[start] == '0' then Some(start + 1)
    else if start < |text| && IsDigit(text[start]) then Some(Digits(text, start + 1))
    else None
  }

  function Fraction(text: string, i: nat): (end: nat)
    requires i <= |text|
    ensures i <= end <= |text|
  {
    if i + 1 < |text| && text[i] == '.' && IsDigit(text[i + 1]) then Digits(text, i + 1) else i
  }

  function Exponent(text: string, i: nat): (end: nat)
    requires i <= |text|
    ensures i <= end <= |text|
  {
    if i < |text| && (text[i] == 'e' || text[i] == 'E') then
      var sign := if i + 1 < |text| && (text[i + 1] == '-' || text[i + 1] == '+') then i + 2 else i + 1;
      if sign < |text| && IsDigit(text[sign]) then Digits(text, sign) else i
    else i
  }

  predicate StartsWith(text: string, word: string, i: nat) {
    i + |word| <= |text| && text[i..i + |word|] == word
  }

  function ScanScalar(text: string, i: nat): (end: Option<nat>)
    requires i <= |text|
    ensures end.Some? ==> i < end.value <= |text|
  {
    if StartsWith(text, "null", i) then Some(i + 4)
    else if StartsWith(text, "true", i) then Some(i + 4)
    else if StartsWith(text, "false", i) then Some(i + 5)
    else
      var whole := WholePart(text, i);
      if whole.None? then None else Some(Exponent(text, Fraction(text, whole.value)))
  }

  predicate ScalarStart(c: char) {
    c in "-0123456789tfn"
  }

  // ----- Parse trees

  datatype Key = Key(open: nat, close: nat, colon: nat, name: Points)

  /** A member of an object or an element of an array, up to the comma or bracket behind it. */
  datatype Part = Part(key: Option<Key>, value: Node, stop: nat)

  datatype Node =
    | Literal(start: nat, end: nat, points: Points)
    | Scalar(start: nat, end: nat)
    | Group(start: nat, end: nat, braced: bool, parts: seq<Part>)

  datatype Step = Named(name: Points) | At(position: nat)

  type Path = seq<Step>

  datatype Span = Span(path: Path, first: nat, last: nat, value: Points)

  function PartStart(start: nat, parts: seq<Part>, k: nat): nat
    requires k <= |parts|
  {
    if k == 0 then start + 1 else parts[k - 1].stop + 1
  }

  predicate KeyAt(text: string, start: nat, key: Key, value: nat) {
    && start <= key.open < key.close <= key.colon < |text| && key.colon + 1 <= value <= |text|
    && Blank(text, start, key.open) && text[key.open] == '"'
    && ScanString(text, key.open + 1) == Some(Scanned(key.name, key.close))
    && Blank(text, key.close, key.colon) && text[key.colon] == ':'
    && Blank(text, key.colon + 1, value)
  }

  /** What leads up to the value of a part. */
  predicate HeadAt(text: string, braced: bool, start: nat, key: Option<Key>, value: nat) {
    && start <= value < |text|
    && if braced then key.Some? && KeyAt(text, start, key.value, value)
       else key.None? && Blank(text, start, value)
  }

  /** What surrounds the value of a part. */
  predicate PartAt(text: string, braced: bool, start: nat, p: Part) {
    && p.value.start < p.value.end <= p.stop < |text|
    && HeadAt(text, braced, start, p.key, p.value.start)
    && Blank(text, p.value.end, p.stop)
  }

  predicate DistinctKeys(parts: seq<Part>) {
    forall k, l :: 0 <= k < l < |parts| && parts[k].key.Some? && parts[l].key.Some? ==>
      parts[k].key.value.name != parts[l].key.value.name
  }

  predicate PartsAt(text: string, braced: bool, start: nat, parts: seq<Part>) {
    && DistinctKeys(parts)
    && forall k: nat :: k < |parts| ==> PartAt(text, braced, PartStart(start, parts, k), parts[k])
  }

  predicate Parsed(text: string, n: Node, depth: nat)
    decreases n
  {
    && depth <= MAX_DEPTH && n.start < n.end <= |text|
    && match n
       case Literal(start, end, points) =>
         text[start] == '"' && ScanString(text, start + 1) == Some(Scanned(points, end))
       case Scalar(start, end) =>
         ScalarStart(text[start]) && ScanScalar(text, start) == Some(end)
       case Group(start, end, braced, parts) =>
         && text[start] == (if braced then '{' else '[')
         && text[end - 1] == (if braced then '}' else ']')
         && start + 1 < end
         && (parts == [] ==> Blank(text, start + 1, end - 1))
         && (parts != [] ==> parts[|parts| - 1].stop == end - 1)
         && PartsAt(text, braced, start, parts)
         && (forall k: nat :: k + 1 < |parts| ==> CommaAt(text, parts, k))
         && (forall k: nat :: k < |parts| ==> Parsed(text, parts[k].value, depth + 1))
  }

  predicate CommaAt(text: string, parts: seq<Part>, k: nat)
    requires k < |parts|
  {
    parts[k].stop < |text| && text[parts[k].stop] == ','
  }

  function StepOf(p: Part, k: nat): Step {
    if p.key.Some? then Named(p.key.value.name) else At(k)
  }

  /** The string values of a tree, in the order they stand. */
  function Spans(n: Node, path: Path): seq<Span>
    decreases n, 1, 0
  {
    match n
    case Literal(start, end, points) => if end == 0 then [] else [Span(path, start + 1, end - 1, points)]
    case Scalar(_, _) => []
    case Group(_, _, _, parts) => PartSpans(n, path, |parts|)
  }

  /** Those of the first `k` parts. */
  function PartSpans(n: Node, path: Path, k: nat): seq<Span>
    requires n.Group? && k <= |n.parts|
    decreases n, 0, k
  {
    if k == 0 then []
    else PartSpans(n, path, k - 1) + Spans(n.parts[k - 1].value, path + [StepOf(n.parts[k - 1], k - 1)])
  }

  lemma {:induction false} SameParts(n: Node, m: Node, path: Path, k: nat)
    requires n.Group? && m.Group? && k <= |n.parts| && k <= |m.parts|
    requires n.parts[..k] == m.parts[..k]
    ensures PartSpans(n, path, k) == PartSpans(m, path, k)
  {
    if k > 0 {
      assert n.parts[k - 1] == n.parts[..k][k - 1] == m.parts[k - 1];
      assert n.parts[..k - 1] == n.parts[..k][..k - 1] == m.parts[..k - 1];
      SameParts(n, m, path, k - 1);
    }
  }

  // ----- Where spans stand

  /** Inside its quotes, which are quotes, and decoding to its value. */
  predicate Quoted(text: string, s: Span) {
    && 0 < s.first <= s.last < |text|
    && text[s.first - 1] == '"' && text[s.last] == '"'
    && ScanString(text, s.first) == Some(Scanned(s.value, s.last + 1))
  }

  predicate Increasing(spans: seq<Span>) {
    forall i, j :: 0 <= i < j < |spans| ==> spans[i].last < spans[j].first
  }

  predicate Within(spans: seq<Span>, low: nat, high: nat) {
    forall s :: s in spans ==> low < s.first && s.last < high
  }

  ghost predicate Placed(text: string, spans: seq<Span>, low: nat, high: nat, path: Path) {
    && Increasing(spans) && Within(spans, low, high)
    && forall s :: s in spans ==> Quoted(text, s) && path <= s.path
  }

  lemma PlacedTogether(text: string, a: seq<Span>, b: seq<Span>, low: nat, middle: nat, next: nat, high: nat, path: Path, step: Step)
    requires Placed(text, a, low, middle, path) && Placed(text, b, next, high, path + [step])
    requires low <= middle <= next <= high
    ensures Placed(text, a + b, low, high, path)
  {
    hide Quoted;
    forall s | s in a + b
      ensures low < s.first && s.last < high && Quoted(text, s) && path <= s.path
    {
      if s in b {
        assert path <= path + [step] <= s.path;
      }
    }
  }

  // ----- One level of a parse tree

  lemma PartOfGroup(text: string, n: Node, depth: nat, k: nat)
    requires Parsed(text, n, depth) && n.Group? && k < |n.parts|
    ensures PartAt(text, n.braced, PartStart(n.start, n.parts, k), n.parts[k])
    ensures Parsed(text, n.parts[k].value, depth + 1)
  {
    hide ScanString, Blank, KeyAt;
  }

  lemma GroupEnds(text: string, n: Node, depth: nat)
    requires Parsed(text, n, depth) && n.Group?
    ensures n.start + 1 < n.end && DistinctKeys(n.parts)
    ensures PartStart(n.start, n.parts, |n.parts|) <= n.end
  {
    hide ScanString, Blank, KeyAt;
  }

  lemma PartBounds(text: string, braced: bool, start: nat, p: Part)
    requires PartAt(text, braced, start, p)
    ensures start <= p.value.start < p.value.end <= p.stop && p.key.Some? == braced
  {
  }

  lemma LeafPlaced(text: string, n: Node, depth: nat, path: Path)
    requires Parsed(text, n, depth) && !n.Group?
    ensures Placed(text, Spans(n, path), n.start, n.end, path) && |Spans(n, path)| <= 1
  {
    if n.Literal? { assert Spans(n, path) == [Span(path, n.start + 1, n.end - 1, n.points)]; }
  }

  lemma SpansOfGroup(n: Node, path: Path)
    requires n.Group?
    ensures Spans(n, path) == PartSpans(n, path, |n.parts|)
  {
  }

  /** The spans of a tree lie between its ends, in order and apart, each strictly inside its quotes. */
  lemma {:induction false} SpansPlaced(text: string, n: Node, depth: nat, path: Path)
    requires Parsed(text, n, depth)
    ensures Placed(text, Spans(n, path), n.start, n.end, path)
    decreases n, 1, 0
  {
    hide Parsed, Spans, PartSpans, Quoted, Increasing;
    if n.Group? {
      SpansOfGroup(n, path);
      PartSpansPlaced(text, n, depth, path, |n.parts|);
      GroupEnds(text, n, depth);
    } else {
      LeafPlaced(text, n, depth, path);
    }
  }

  lemma NoPartSpans(text: string, n: Node, path: Path)
    requires n.Group?
    ensures PartSpans(n, path, 0) == [] && Placed(text, [], n.start, n.start + 1, path)
  {
  }

  lemma {:induction false} PartSpansPlaced(text: string, n: Node, depth: nat, path: Path, k: nat)
    requires Parsed(text, n, depth) && n.Group? && k <= |n.parts|
    ensures n.start < PartStart(n.start, n.parts, k)
    ensures Placed(text, PartSpans(n, path, k), n.start, PartStart(n.start, n.parts, k), path)
    decreases n, 0, k
  {
    hide Parsed, Spans, PartAt, Placed, Quoted, Increasing;
    if k == 0 {
      NoPartSpans(text, n, path);
    } else {
      var p := n.parts[k - 1];
      var step := StepOf(p, k - 1);
      PartSpansPlaced(text, n, depth, path, k - 1);
      PartOfGroup(text, n, depth, k - 1);
      PartBounds(text, n.braced, PartStart(n.start, n.parts, k - 1), p);
      SpansPlaced(text, p.value, depth + 1, path + [step]);
      var a, b := PartSpans(n, path, k - 1), Spans(p.value, path + [step]);
      PlacedTogether(text, a, b, n.start, PartStart(n.start, n.parts, k - 1), p.value.start, p.value.end, path, step);
      PlacedUpTo(text, a + b, n.start, p.value.end, p.stop + 1, path);
    }
  }

  lemma PlacedUpTo(text: string, a: seq<Span>, low: nat, high: nat, higher: nat, path: Path)
    requires Placed(text, a, low, high, path) && high <= higher
    ensures Placed(text, a, low, higher, path)
  {
    hide Quoted;
  }

  predicate DistinctPaths(spans: seq<Span>) {
    forall i, j :: 0 <= i < j < |spans| ==> spans[i].path != spans[j].path
  }

  /** No two string values of a document have the same path. */
  lemma {:induction false} PathsDistinct(text: string, n: Node, depth: nat, path: Path)
    requires Parsed(text, n, depth)
    ensures DistinctPaths(Spans(n, path))
    decreases n, 1, 0
  {
    hide Parsed, Spans, PartSpans, Placed;
    if n.Group? {
      SpansOfGroup(n, path);
      PartPathsDistinct(text, n, depth, path, |n.parts|);
    } else {
      LeafPlaced(text, n, depth, path);
    }
  }

  predicate Below(n: Node, path: Path, l: nat, s: Span)
    requires n.Group? && l < |n.parts|
  {
    |path| < |s.path| && s.path[|path|] == StepOf(n.parts[l], l)
  }

  predicate FromEarlier(n: Node, path: Path, k: nat, s: Span)
    requires n.Group? && k <= |n.parts|
  {
    exists l: nat :: l < k && Below(n, path, l, s)
  }

  lemma {:induction false} PartPathsDistinct(text: string, n: Node, depth: nat, path: Path, k: nat)
    requires Parsed(text, n, depth) && n.Group? && k <= |n.parts|
    ensures forall s :: s in PartSpans(n, path, k) ==> FromEarlier(n, path, k, s)
    ensures DistinctPaths(PartSpans(n, path, k))
    decreases n, 0, k
  {
    hide Parsed, Spans, Below, StepOf, PartAt;
    if k > 0 {
      var p := n.parts[k - 1];
      var step := StepOf(p, k - 1);
      var a, b := PartSpans(n, path, k - 1), Spans(p.value, path + [step]);
      PartPathsDistinct(text, n, depth, path, k - 1);
      PartOfGroup(text, n, depth, k - 1);
      PathsDistinct(text, p.value, depth + 1, path + [step]);
      AllBelow(text, n, depth, path, k - 1);
      forall s, t | s in a && t in b
        ensures s.path != t.path
      {
        var l: nat :| l < k - 1 && Below(n, path, l, s);
        StepsDiffer(text, n, depth, l, k - 1);
        BelowTells(n, path, l, k - 1, s, t);
      }
    }
  }

  lemma AllBelow(text: string, n: Node, depth: nat, path: Path, l: nat)
    requires Parsed(text, n, depth) && n.Group? && l < |n.parts|
    ensures forall s :: s in Spans(n.parts[l].value, path + [StepOf(n.parts[l], l)]) ==> Below(n, path, l, s)
  {
    hide Parsed, Spans, PartAt, Quoted, StepOf;
    PartOfGroup(text, n, depth, l);
    SpansPlaced(text, n.parts[l].value, depth + 1, path + [StepOf(n.parts[l], l)]);
    forall s | s in Spans(n.parts[l].value, path + [StepOf(n.parts[l], l)])
      ensures Below(n, path, l, s)
    {
      assert path + [StepOf(n.parts[l], l)] <= s.path;
    }
  }

  lemma BelowTells(n: Node, path: Path, k: nat, l: nat, s: Span, t: Span)
    requires n.Group? && k < |n.parts| && l < |n.parts|
    requires Below(n, path, k, s) && Below(n, path, l, t)
    requires StepOf(n.parts[k], k) != StepOf(n.parts[l], l)
    ensures s.path != t.path
  {
  }

  lemma StepsDiffer(text: string, n: Node, depth: nat, k: nat, l: nat)
    requires Parsed(text, n, depth) && n.Group? && k < l < |n.parts|
    ensures StepOf(n.parts[k], k) != StepOf(n.parts[l], l)
  {
    hide Parsed;
    PartOfGroup(text, n, depth, k);
    PartOfGroup(text, n, depth, l);
    PartBounds(text, n.braced, PartStart(n.start, n.parts, k), n.parts[k]);
    PartBounds(text, n.braced, PartStart(n.start, n.parts, l), n.parts[l]);
    GroupEnds(text, n, depth);
  }
}
