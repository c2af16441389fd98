/**
 The raw-span lens (pkg/protocol/span.go:21-141, pkg/protocol/spelling.go): a span of a
 decoded JSON string is found in, and spelled for, the raw bytes of the document, through
 any number of JSON strings that hold JSON documents.

 The escape grammar is section 7 of RFC 8259; unpaired surrogates are as in its section 8.2.
 */
module Lens {
  import opened Bytes
  import opened Utf8

  const QUOTE: byte := 34
  const BACKSLASH: byte := 92
  const LOWER_U: byte := 117

  // ------------------------------------------------------------------------ one string

  /** One unit of a JSON string interior: its raw width and the bytes it decodes to. */
  datatype Unit = Unit(width: nat, out: bytes)

  function HexDigit(c: byte): (r: Option<nat>)
    ensures r.Some? ==> r.value < 16
  {
    if 48 <= c <= 57 then Some((c - 48) as nat)
    else if 97 <= c <= 102 then Some((c - 87) as nat)
    else if 65 <= c <= 70 then Some((c - 55) as nat)
    else None
  }

  function Hex4(s: bytes): (r: Option<nat>)
    requires |s| == 4
    ensures r.Some? ==> r.value < 0x1_0000
  {
    match (HexDigit(s[0]), HexDigit(s[1]), HexDigit(s[2]), HexDigit(s[3]))
    case (Some(a), Some(b), Some(c), Some(d)) => Some(a * 4096 + b * 256 + c * 16 + d)
    case _ => None
  }

  predicate IsHigh(u: int) {
    0xD800 <= u < 0xDC00
  }

  predicate IsLow(u: int) {
    0xDC00 <= u < 0xE000
  }

  /** The low surrogate escape at the start of s, if there is one. */
  function LowEscape(s: bytes): (r: Option<nat>)
    ensures r.Some? ==> IsLow(r.value) && |s| >= 6
  {
    if |s| >= 6 && s[0] == BACKSLASH && s[1] == LOWER_U then
      match Hex4(s[2..6])
      case Some(u) => if IsLow(u) then Some(u) else None
      case None => None
    else None
  }

  /** The byte of a two-byte escape, or None when c does not make one. */
  function ShortEscape(c: byte): (r: Option<byte>)
    ensures r.Some? ==> r.value < 0x80
  {
    if c == QUOTE || c == BACKSLASH || c == 47 then Some(c)
    else if c == 98 then Some(8)
    else if c == 102 then Some(12)
    else if c == 110 then Some(10)
    else if c == 114 then Some(13)
    else if c == 116 then Some(9)
    else None
  }

  function Literal(s: bytes): (u: Unit)
    requires s != []
    ensures 0 < u.width <= |s| && u.out == s[..u.width]
  {
    var k := if RuneSize(s) > 0 then RuneSize(s) else 1;
    Unit(k, s[..k])
  }

  /** The unit at the start of s. */
  function NextUnit(s: bytes): (u: Unit)
    requires s != []
    ensures 0 < u.width <= |s| && u.out != []
  {
    if |s| < 2 || s[0] != BACKSLASH then Literal(s)
    else if s[1] == LOWER_U then UnicodeUnit(s)
    else
      match ShortEscape(s[1])
      case Some(c) => Unit(2, [c])
      case None => Literal(s)
  }

  function UnicodeUnit(s: bytes): (u: Unit)
    requires |s| >= 2
    ensures 0 < u.width <= |s| && OneRune(u.out)
  {
    if |s| < 6 then Unit(|s|, REPLACEMENT) else
    match Hex4(s[2..6])
    case None => Unit(6, REPLACEMENT)
    case Some(hi) =>
      if IsLow(hi) then Unit(6, REPLACEMENT)
      else if IsHigh(hi) then
        match LowEscape(s[6..])
        case Some(lo) => Unit(12, Encode(0x1_0000 + (hi - 0xD800) * 1024 + (lo - 0xDC00)))
        case None => Unit(6, REPLACEMENT)
      else Unit(6, Encode(hi))
  }

  /** The unit at the start of s is one that section 7 of RFC 8259 admits. */
  predicate WellUnit(s: bytes)
    requires s != []
  {
    if s[0] == BACKSLASH then
      |s| >= 2 && (ShortEscape(s[1]).Some? || (s[1] == LOWER_U && |s| >= 6 && Hex4(s[2..6]).Some?))
    else
      s[0] != QUOTE && s[0] >= 0x20 && RuneSize(s) > 0
  }

  /** s can stand between the quotes of a JSON string. */
  predicate Interior(s: bytes) {
    s == [] || (WellUnit(s) && Interior(s[NextUnit(s).width..]))
  }

  /** The string a JSON string interior spells. */
  function Decode(s: bytes): bytes {
    if s == [] then [] else NextUnit(s).out + Decode(s[NextUnit(s).width..])
  }

  /** The raw offset of the unit that spells decoded byte o. */
  function UnitStart(s: bytes, o: nat): (r: nat)
    requires o < |Decode(s)|
    ensures r < |s|
  {
    var u := NextUnit(s);
    if o < |u.out| then 0 else u.width + UnitStart(s[u.width..], o - |u.out|)
  }

  /** The raw offset just behind the unit that spells decoded byte o. */
  function UnitEnd(s: bytes, o: nat): (r: nat)
    requires o < |Decode(s)|
    ensures 0 < r <= |s|
  {
    var u := NextUnit(s);
    if o < |u.out| then u.width else u.width + UnitEnd(s[u.width..], o - |u.out|)
  }

  datatype Range = Range(start: int, end: int)

  /** mapSpan: the raw range that spells decoded bytes [start, end), or None out of range. */
  function MapSpan(raw: bytes, start: int, end: int): (r: Option<Range>)
    ensures r.Some? <==> 0 <= start <= end <= |Decode(raw)|
    ensures r.Some? ==> 0 <= r.value.start <= |raw| && 0 <= r.value.end <= |raw|
  {
    if start < 0 || end < start || end > |Decode(raw)| then None
    else if end == 0 then Some(Range(0, 0))
    else
      Some(Range(if start == |Decode(raw)| then |raw| else UnitStart(raw, start),
                 UnitEnd(raw, end - 1)))
  }

  lemma UnitUnfold(raw: bytes, i: nat)
    requires i < |raw|
    ensures
      var u, s := NextUnit(raw[i..]), raw[i..];
      var rest := raw[i + u.width..];
      && i + u.width <= |raw|
      && |Decode(s)| == |u.out| + |Decode(rest)|
      && (forall o :: 0 <= o < |u.out| ==> UnitStart(s, o) == 0 && UnitEnd(s, o) == u.width)
      && (forall o :: |u.out| <= o < |Decode(s)| ==>
            && UnitStart(s, o) == u.width + UnitStart(rest, o - |u.out|)
            && UnitEnd(s, o) == u.width + UnitEnd(rest, o - |u.out|))
  {
    assert raw[i..][NextUnit(raw[i..]).width..] == raw[i + NextUnit(raw[i..]).width..];
  }

  method FindSpan(raw: bytes, start: int, end: int) returns (r: Option<Range>)
    ensures r == MapSpan(raw, start, end)
  {
    hide NextUnit, Decode, UnitStart, UnitEnd;
    var decodedLen := MeasureDecoded(raw);
    if start < 0 || end < start || end > decodedLen {
      return None;
    }
    if start == 0 && end == 0 {
      return Some(Range(0, 0));
    }
    var rawStart, rawEnd := 0, 0;
    var d, i := 0, 0;
    assert raw[0..] == raw;
    while i < |raw|
      invariant i <= |raw| && d + |Decode(raw[i..])| == decodedLen
      invariant d <= start < decodedLen ==> UnitStart(raw, start) == i + UnitStart(raw[i..], start - d)
      invariant start < d ==> rawStart == UnitStart(raw, start)
      invariant d <= end - 1 ==> UnitEnd(raw, end - 1) == i + UnitEnd(raw[i..], end - 1 - d)
      invariant end - 1 < d ==> rawEnd == UnitEnd(raw, end - 1)
    {
      var u := NextUnit(raw[i..]);
      UnitUnfold(raw, i);
      if d <= start && start < d + |u.out| {
        rawStart := i;
      }
      if d <= end - 1 && end - 1 < d + |u.out| {
        rawEnd := i + u.width;
      }
      d := d + |u.out|;
      i := i + u.width;
    }
    EmptyDecode(raw[i..]);
    if start == decodedLen {
      rawStart := |raw|;
    }
    return Some(Range(rawStart, rawEnd));
  }

  lemma EmptyDecode(s: bytes)
    requires s == []
    ensures Decode(s) == []
  {
  }

  /** The first loop of mapSpan. */
  method MeasureDecoded(raw: bytes) returns (decodedLen: nat)
    ensures decodedLen == |Decode(raw)|
  {
    hide NextUnit, Decode, UnitStart, UnitEnd;
    decodedLen := 0;
    var i := 0;
    assert raw[0..] == raw;
    while i < |raw|
      invariant i <= |raw|
      invariant decodedLen + |Decode(raw[i..])| == |Decode(raw)|
    {
      UnitUnfold(raw, i);
      var u := NextUnit(raw[i..]);
      decodedLen := decodedLen + |u.out|;
      i := i + u.width;
    }
    EmptyDecode(raw[i..]);
  }

  function Nibble(n: byte): byte
    requires n < 16
  {
    if n < 10 then 48 + n else 87 + n
  }

  predicate NeedsEscape(c: byte) {
    c == QUOTE || c == BACKSLASH || c < 0x20
  }

  function EscapeByte(c: byte): (r: bytes)
    ensures r != []
  {
    if c == QUOTE then [BACKSLASH, QUOTE]
    else if c == BACKSLASH then [BACKSLASH, BACKSLASH]
    else if c == 8 then [BACKSLASH, 98]
    else if c == 12 then [BACKSLASH, 102]
    else if c == 10 then [BACKSLASH, 110]
    else if c == 13 then [BACKSLASH, 114]
    else if c == 9 then [BACKSLASH, 116]
    else if c < 0x20 then [BACKSLASH, LOWER_U, 48, 48, Nibble(c / 16), Nibble(c % 16)]
    else [c]
  }

  /** The interior that spells a decoded string: escapeJSONString. */
  function Escape(x: bytes): bytes {
    if x == [] then [] else EscapeByte(x[0]) + Escape(x[1..])
  }

  lemma {:induction false} EscapeAppend(a: bytes, b: bytes)
    ensures Escape(a + b) == Escape(a) + Escape(b)
  {
    hide EscapeByte;
    if a == [] {
      assert a + b == b;
    } else {
      EscapeAppend(a[1..], b);
      assert (a + b)[1..] == a[1..] + b;
      Assoc(EscapeByte(a[0]), Escape(a[1..]), Escape(b));
    }
  }

  lemma {:induction false} EscapePlain(x: bytes)
    requires forall c :: c in x ==> !NeedsEscape(c)
    ensures Escape(x) == x
  {
    if x != [] {
      EscapePlain(x[1..]);
      assert x[0] in x;
      assert [x[0]] + x[1..] == x;
    }
  }

  method EscapeJSONString(decoded: bytes) returns (out: bytes)
    ensures out == Escape(decoded)
  {
    var i := 0;
    while i < |decoded| && !NeedsEscape(decoded[i])
      invariant i <= |decoded| && forall k :: 0 <= k < i ==> !NeedsEscape(decoded[k])
    {
      i := i + 1;
    }
    if i == |decoded| {
      EscapePlain(decoded);
      return decoded;
    }
    out := [];
    i := 0;
    while i < |decoded|
      invariant i <= |decoded| && out == Escape(decoded[..i])
    {
      EscapeAppend(decoded[..i], [decoded[i]]);
      assert decoded[..i + 1] == decoded[..i] + [decoded[i]];
      assert Escape([decoded[i]]) == EscapeByte(decoded[i]);
      out := out + EscapeByte(decoded[i]);
      i := i + 1;
    }
    assert decoded[..i] == decoded;
  }

  // ---------------------------------------------------------------------- nested strings

  /**
   The strings around a document, innermost first: Root for the body itself, Tok for the
   document that the string with this interior spells, `start` being the place of its opening
   quote in the document around it.
   */
  datatype Chain = Root | Tok(raw: bytes, start: nat, parent: Chain)

  /** Where bytes [start, end) of a chain's document are in the body. */
  function RawSpan(c: Chain, start: int, end: int): Option<Range> {
    match c
    case Root => Some(Range(start, end))
    case Tok(raw, at, parent) =>
      match MapSpan(raw, start, end)
      case None => None
      case Some(r) => RawSpan(parent, r.start + at + 1, r.end + at + 1)
  }

  lemma RawSpanTok(c: Chain, start: int, end: int)
    requires c.Tok?
    ensures RawSpan(c, start, end) ==
            match MapSpan(c.raw, start, end)
            case None => None
            case Some(r) => RawSpan(c.parent, r.start + c.start + 1, r.end + c.start + 1)
  {
  }

  /** How a text is spelled inside a chain's document. */
  function RawSpelling(c: Chain, x: bytes): bytes {
    match c
    case Root => x
    case Tok(_, _, parent) => RawSpelling(parent, Escape(x))
  }

  /** One string value that Walk found. */
  datatype Leaf = Leaf(value: bytes, encoded: bool, identity: bytes, identifiable: bool, tok: Chain)

  /** Leaf.RawSpan: None for a leaf without a raw location and for a span out of range. */
  function LeafSpan(l: Leaf, start: int, end: int): Option<Range> {
    if l.tok.Root? || start < 0 || end < start || end > |l.value| then None
    else RawSpan(l.tok, start, end)
  }

  method LeafRawSpan(l: Leaf, start: int, end: int) returns (r: Option<Range>)
    ensures r == LeafSpan(l, start, end)
  {
    hide MapSpan, RawSpan;
    if l.tok.Root? || start < 0 || end < start || end > |l.value| {
      return None;
    }
    var t, rs, re := l.tok, start, end;
    while t.Tok?
      invariant RawSpan(t, rs, re) == RawSpan(l.tok, start, end)
      decreases t
    {
      RawSpanTok(t, rs, re);
      var m := FindSpan(t.raw, rs, re);
      if m.None? {
        return None;
      }
      rs, re := m.value.start + t.start + 1, m.value.end + t.start + 1;
      t := t.parent;
    }
    RawSpanRoot(rs, re);
    return Some(Range(rs, re));
  }

  lemma RawSpanRoot(start: int, end: int)
    ensures RawSpan(Root, start, end) == Some(Range(start, end))
  {
  }

  method LeafRawSpelling(l: Leaf, decoded: bytes) returns (out: bytes)
    ensures out == RawSpelling(l.tok, decoded)
  {
    out := decoded;
    var t := l.tok;
    while t.Tok?
      invariant RawSpelling(t, out) == RawSpelling(l.tok, decoded)
      decreases t
    {
      out := EscapeJSONString(out);
      t := t.parent;
    }
  }
}
