/** UTF-8 encoding of text (RFC 3629, section 3), and byte positions counted step by step. */
module Utf8 {

  /** Bytes are numbers below 256. */
  type Bytes = seq<int>

  function CharBytes(c: char): (b: Bytes)
    ensures 1 <= |b| <= 4
  {
    var n := c as int;
    if n < 0x80 then [n]
    else if n < 0x800 then [0xC0 + n / 0x40, 0x80 + n % 0x40]
    else if n < 0x1_0000 then [0xE0 + n / 0x1000, 0x80 + n / 0x40 % 0x40, 0x80 + n % 0x40]
    else [0xF0 + n / 0x4_0000, 0x80 + n / 0x1000 % 0x40, 0x80 + n / 0x40 % 0x40, 0x80 + n % 0x40]
  }

  function Encode(s: string): Bytes {
    if s == "" then [] else CharBytes(s[0]) + Encode(s[1..])
  }

  lemma {:induction false} EncodeConcat(s: string, t: string)
    ensures Encode(s + t) == Encode(s) + Encode(t)
  {
    hide CharBytes;
    if s == "" {
      assert s + t == t;
    } else {
      EncodeConcat(s[1..], t);
      assert (s + t)[1..] == s[1..] + t;
      var head, rest := CharBytes(s[0]), Encode(s[1..]);
      assert Encode(s + t) == head + (rest + Encode(t)) == (head + rest) + Encode(t);
    }
  }

  /** The first byte tells how many belong to its character. */
  function LengthFor(lead: int): nat {
    if lead < 0x80 then 1 else if lead < 0xE0 then 2 else if lead < 0xF0 then 3 else 4
  }

  lemma LeadTellsLength(c: char)
    ensures LengthFor(CharBytes(c)[0]) == |CharBytes(c)|
  {
  }

  lemma CharBytesInjective(c: char, d: char)
    requires CharBytes(c) == CharBytes(d)
    ensures c == d
  {
    var b := CharBytes(c);
    assert CodeOf(b) == c as int by { CodeOfChar(c); }
    assert CodeOf(b) == d as int by { CodeOfChar(d); }
  }

  function CodeOf(b: Bytes): int
    requires 1 <= |b| <= 4
  {
    if |b| == 1 then b[0]
    else if |b| == 2 then (b[0] - 0xC0) * 0x40 + (b[1] - 0x80)
    else if |b| == 3 then ((b[0] - 0xE0) * 0x40 + (b[1] - 0x80)) * 0x40 + (b[2] - 0x80)
    else (((b[0] - 0xF0) * 0x40 + (b[1] - 0x80)) * 0x40 + (b[2] - 0x80)) * 0x40 + (b[3] - 0x80)
  }

  lemma CodeOfChar(c: char)
    ensures CodeOf(CharBytes(c)) == c as int
  {
    var n := c as int;
    assert n / 0x40 / 0x40 == n / 0x1000;
    assert n / 0x1000 / 0x40 == n / 0x4_0000;
  }

  /**
   The encoding of section 3 of RFC 3629: as few bytes as the code point allows, the first telling how many,
   the others with six bits each.
   */
  lemma CharBytesStandard(c: char)
    ensures
      var b, n := CharBytes(c), c as int;
      && CodeOf(b) == n
      && |b| == (if n < 0x80 then 1 else if n < 0x800 then 2 else if n < 0x1_0000 then 3 else 4)
      && (|b| == 1 ==> 0 <= b[0] < 0x80) && (|b| == 2 ==> 0xC2 <= b[0] <= 0xDF)
      && (|b| == 3 ==> 0xE0 <= b[0] <= 0xEF) && (|b| == 4 ==> 0xF0 <= b[0] <= 0xF4)
      && forall k :: 1 <= k < |b| ==> 0x80 <= b[k] <= 0xBF
  {
    CodeOfChar(c);
  }

  lemma EncodeEmpty(s: string)
    ensures Encode(s) == [] <==> s == ""
  {
  }

  /** Bytes decode to at most one text. */
  lemma {:induction false} EncodeInjective(s: string, t: string)
    requires Encode(s) == Encode(t)
    ensures s == t
    decreases |s|
  {
    if s == "" || t == "" {
      EncodeEmpty(s);
      EncodeEmpty(t);
    } else {
      var a, b := CharBytes(s[0]), CharBytes(t[0]);
      LeadTellsLength(s[0]);
      LeadTellsLength(t[0]);
      assert Encode(s)[0] == a[0] && Encode(t)[0] == b[0];
      assert a == Encode(s)[..|a|] && b == Encode(t)[..|a|];
      CharBytesInjective(s[0], t[0]);
      assert Encode(s[1..]) == Encode(s)[|a|..] == Encode(t)[|a|..] == Encode(t[1..]);
      EncodeInjective(s[1..], t[1..]);
      assert s == [s[0]] + s[1..] && t == [t[0]] + t[1..];
    }
  }

  /** The byte position of character position `i`. */
  function OffsetOf(s: string, i: nat): nat
    requires i <= |s|
  {
    |Encode(s[..i])|
  }

  lemma OffsetGrows(s: string, i: nat, j: nat)
    requires i <= j <= |s|
    ensures OffsetOf(s, j) == OffsetOf(s, i) + |Encode(s[i..j])|
    ensures OffsetOf(s, i) <= OffsetOf(s, j) <= |Encode(s)|
    ensures i < j ==> OffsetOf(s, i) < OffsetOf(s, j)
  {
    assert s[..j] == s[..i] + s[i..j];
    EncodeConcat(s[..i], s[i..j]);
    assert s == s[..j] + s[j..];
    EncodeConcat(s[..j], s[j..]);
  }

  /** A character range, cut out of the encoded text by its byte positions, is that range encoded. */
  lemma RangeSlices(s: string, i: nat, j: nat)
    requires i <= j <= |s|
    ensures OffsetOf(s, i) <= OffsetOf(s, j) <= |Encode(s)|
    ensures Encode(s)[OffsetOf(s, i)..OffsetOf(s, j)] == Encode(s[i..j])
  {
    hide Encode, CharBytes, CodeOf, LengthFor;
    OffsetGrows(s, i, j);
    var before, middle, rest := s[..i], s[i..j], s[j..];
    assert s == before + (middle + rest) && s[..j] == before + middle;
    EncodeConcat(before, middle);
    EncodeConcat(middle, rest);
    EncodeConcat(before, middle + rest);
    Middle(Encode(before), Encode(middle), Encode(rest));
  }

  lemma Middle(a: Bytes, b: Bytes, c: Bytes)
    ensures (a + (b + c))[|a|..|a| + |b|] == b
  {
  }

  lemma {:induction false} LeastExists(pending: set<nat>)
    requires pending != {}
    ensures exists p :: p in pending && forall q :: q in pending ==> p <= q
  {
    var p :| p in pending;
    var rest := pending - {p};
    var least := p;
    if rest != {} {
      LeastExists(rest);
      var r :| r in rest && forall q :: q in rest ==> r <= q;
      least := if p <= r then p else r;
    }
    assert least in pending;
    forall q | q in pending ensures least <= q { assert q == p || q in rest; }
  }

  /** Positions in increasing order, adding up the pieces between them. */
  method ByteOffsets(text: string, positions: set<nat>) returns (offsets: map<nat, nat>)
    requires forall p :: p in positions ==> p <= |text|
    ensures offsets.Keys == positions
    ensures forall p :: p in positions ==> offsets[p] == OffsetOf(text, p)
  {
    offsets := map[];
    var previous, total := 0, 0;
    var pending := positions;
    while pending != {}
      invariant pending <= positions && offsets.Keys == positions - pending
      invariant previous <= |text| && total == OffsetOf(text, previous)
      invariant forall p :: p in pending ==> previous <= p
      invariant forall p :: p in offsets ==> p <= |text| && offsets[p] == OffsetOf(text, p)
    {
      LeastExists(pending);
      var position :| position in pending && forall q :: q in pending ==> position <= q;
      pending := pending - {position};
      OffsetGrows(text, previous, position);
      total := total + |Encode(text[previous..position])|;
      offsets := offsets[position := total];
      previous := position;
    }
  }
}
