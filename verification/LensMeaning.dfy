/**
 What the inside of a JSON string means (section 7 of RFC 8259): characters that stand for
 themselves, two-byte escapes, and escapes of UTF-16 code units, of which a high and a low
 surrogate together are one character (section 8.2: alone they are none). A character is
 written in the bits of section 3 of RFC 3629. The lens reads exactly this.
 */
module LensMeaning {
  import opened Bytes
  import opened Utf8
  import opened Lens
  import opened LensLaws

  /** The bits of a character number, from the UTF-8 bytes. */
  ghost predicate IsUtf8(r: int, s: bytes) {
    && !(0xD800 <= r < 0xE000)
    && (forall i :: 1 <= i < |s| ==> 0x80 <= s[i] < 0xC0)
    && match |s|
       case 1 => 0 <= r < 0x80 && r == s[0] as int
       case 2 => 0x80 <= r < 0x800 && 0xC0 <= s[0] < 0xE0 && r == (s[0] as int - 0xC0) * 64 + (s[1] as int - 0x80)
       case 3 =>
         && 0x800 <= r < 0x1_0000 && 0xE0 <= s[0] < 0xF0
         && r == (s[0] as int - 0xE0) * 4096 + (s[1] as int - 0x80) * 64 + (s[2] as int - 0x80)
       case 4 =>
         && 0x1_0000 <= r < 0x11_0000 && 0xF0 <= s[0] < 0xF8
         && r == (s[0] as int - 0xF0) * 262144 + (s[1] as int - 0x80) * 4096 + (s[2] as int - 0x80) * 64
                 + (s[3] as int - 0x80)
       case _ => false
  }

  /** The characters, in this order, are the text. */
  ghost predicate IsText(rs: seq<int>, text: bytes)
    decreases |rs|
  {
    if rs == [] then text == []
    else exists k: nat :: k <= |text| && IsUtf8(rs[0], text[..k]) && IsText(rs[1..], text[k..])
  }

  /** A part of a string: a character, a backslash with a letter, or \u with four digits. */
  datatype Part = Char(r: int, utf8: bytes) | Short(letter: byte, r: int) | Code(digits: bytes, unit: int)

  /** A hex digit of either case. */
  predicate DigitIs(c: byte, v: int) {
    || (48 <= c <= 57 && v == c as int - 48)
    || (65 <= c <= 70 && v == c as int - 65 + 10)
    || (97 <= c <= 102 && v == c as int - 97 + 10)
  }

  ghost predicate IsPart(p: Part) {
    match p
    case Char(r, utf8) => IsUtf8(r, utf8) && r >= 0x20 && r != 34 && r != 92
    case Short(letter, r) =>
      (letter as int, r) in
      {(34, 34), (92, 92), (47, 47), (98, 8), (102, 12), (110, 10), (114, 13), (116, 9)}
    case Code(digits, unit) =>
      && |digits| == 4 && 0 <= unit < 0x1_0000
      && DigitIs(digits[0], unit / 16 / 16 / 16) && DigitIs(digits[1], unit / 16 / 16 % 16)
      && DigitIs(digits[2], unit / 16 % 16) && DigitIs(digits[3], unit % 16)
  }

  ghost predicate AreParts(ps: seq<Part>) {
    forall i :: 0 <= i < |ps| ==> IsPart(ps[i])
  }

  function PartText(p: Part): bytes {
    match p
    case Char(_, utf8) => utf8
    case Short(letter, _) => [92, letter]
    case Code(digits, _) => [92, 117] + digits
  }

  /** The string's interior. */
  function Spelled(ps: seq<Part>): bytes {
    if ps == [] then [] else PartText(ps[0]) + Spelled(ps[1..])
  }

  predicate HighCode(p: Part) {
    p.Code? && 0xD800 <= p.unit <= 0xDBFF
  }

  predicate LowCode(p: Part) {
    p.Code? && 0xDC00 <= p.unit <= 0xDFFF
  }

  /** The two halves of a surrogate pair. */
  predicate Paired(ps: seq<Part>) {
    |ps| >= 2 && HighCode(ps[0]) && LowCode(ps[1])
  }

  /** The character of one part: a surrogate alone is U+FFFD. */
  function Alone(p: Part): int {
    match p
    case Char(r, _) => r
    case Short(_, r) => r
    case Code(_, unit) => if HighCode(p) || LowCode(p) then 0xFFFD else unit
  }

  /** The characters that the parts mean. */
  function Meaning(ps: seq<Part>): seq<int> {
    if ps == [] then []
    else if Paired(ps) then
      [0x1_0000 + (ps[0].unit - 0xD800) * 0x400 + (ps[1].unit - 0xDC00)] + Meaning(ps[2..])
    else [Alone(ps[0])] + Meaning(ps[1..])
  }

  // --------------------------------------------------------------------------------- characters

  lemma Utf8Size(r: int, s: bytes, more: bytes)
    requires IsUtf8(r, s)
    ensures s != [] && RuneSize(s + more) == |s| && (s + more)[..|s|] == s
    ensures r < 0x80 <==> s[0] < 0x80
    ensures s[0] < 0x80 ==> r == s[0] as int
  {
    var t := s + more;
    assert forall i :: 0 <= i < |s| ==> t[i] == s[i];
  }

  lemma SizeUtf8(s: bytes) returns (r: int)
    requires RuneSize(s) > 0
    ensures IsUtf8(r, s[..RuneSize(s)])
  {
    var k := RuneSize(s);
    r := if k == 1 then s[0] as int
    else if k == 2 then (s[0] as int - 0xC0) * 64 + (s[1] as int - 0x80)
    else if k == 3 then (s[0] as int - 0xE0) * 4096 + (s[1] as int - 0x80) * 64 + (s[2] as int - 0x80)
    else
      (s[0] as int - 0xF0) * 262144 + (s[1] as int - 0x80) * 4096 + (s[2] as int - 0x80) * 64
      + (s[3] as int - 0x80);
  }

  lemma EncodeUtf8(r: int)
    requires 0 <= r < 0x11_0000 && !(0xD800 <= r < 0xE000)
    ensures IsUtf8(r, Encode(r))
  {
    By64(r);
    if r < 0x80 {
    } else if r < 0x800 {
    } else if r < 0x1_0000 {
      ThreeUtf8(r);
    } else {
      FourUtf8(r);
    }
  }

  lemma By64(r: int)
    requires r >= 0
    ensures r == r / 64 * 64 + r % 64 && r / 64 == r / 4096 * 64 + r / 64 % 64
    ensures r / 4096 == r / 262144 * 64 + r / 4096 % 64
  {
  }

  lemma ThreeUtf8(r: int)
    requires 0x800 <= r < 0x1_0000 && !(0xD800 <= r < 0xE000)
    ensures IsUtf8(r, Encode(r))
  {
    hide OneRune;
    By64(r);
    assert r / 4096 < 16;
  }

  lemma FourUtf8(r: int)
    requires 0x1_0000 <= r < 0x11_0000
    ensures IsUtf8(r, Encode(r))
  {
    hide OneRune;
    By64(r);
    assert r / 262144 < 5;
  }

  /** A character is written in one way. */
  lemma Utf8Once(r: int, a: bytes, b: bytes)
    requires IsUtf8(r, a) && IsUtf8(r, b)
    ensures a == b
  {
    assert |a| == |b|;
    var n := |a|;
    if n == 2 {
      SameDigits(a[0] as int - 0xC0, a[1] as int - 0x80, b[0] as int - 0xC0, b[1] as int - 0x80);
    } else if n == 3 {
      SameDigits((a[0] as int - 0xE0) * 64 + (a[1] as int - 0x80), a[2] as int - 0x80,
        (b[0] as int - 0xE0) * 64 + (b[1] as int - 0x80), b[2] as int - 0x80);
      SameDigits(a[0] as int - 0xE0, a[1] as int - 0x80, b[0] as int - 0xE0, b[1] as int - 0x80);
    } else if n == 4 {
      FourDigits(a, b);
    }
  }

  lemma SameDigits(q: int, d: int, q': int, d': int)
    requires 0 <= d < 64 && 0 <= d' < 64 && q * 64 + d == q' * 64 + d'
    ensures q == q' && d == d'
  {
  }

  lemma FourDigits(a: bytes, b: bytes)
    requires |a| == |b| == 4 && forall i :: 1 <= i < 4 ==> 0x80 <= a[i] < 0xC0 && 0x80 <= b[i] < 0xC0
    requires
      (a[0] as int) * 262144 + (a[1] as int - 0x80) * 4096 + (a[2] as int - 0x80) * 64 + (a[3] as int - 0x80)
      == (b[0] as int) * 262144 + (b[1] as int - 0x80) * 4096 + (b[2] as int - 0x80) * 64 + (b[3] as int - 0x80)
    ensures a == b
  {
    var x, x' := (a[0] as int) * 64 + (a[1] as int - 0x80), (b[0] as int) * 64 + (b[1] as int - 0x80);
    SameDigits(x * 64 + (a[2] as int - 0x80), a[3] as int - 0x80, x' * 64 + (b[2] as int - 0x80), b[3] as int - 0x80);
    SameDigits(x, a[2] as int - 0x80, x', b[2] as int - 0x80);
    SameDigits(a[0] as int, a[1] as int - 0x80, b[0] as int, b[1] as int - 0x80);
  }

  lemma {:induction false} TextOnce(rs: seq<int>, a: bytes, b: bytes)
    requires IsText(rs, a) && IsText(rs, b)
    ensures a == b
    decreases |rs|
  {
    hide IsUtf8;
    if rs != [] {
      var k: nat :| k <= |a| && IsUtf8(rs[0], a[..k]) && IsText(rs[1..], a[k..]);
      var n: nat :| n <= |b| && IsUtf8(rs[0], b[..n]) && IsText(rs[1..], b[n..]);
      Utf8Once(rs[0], a[..k], b[..n]);
      TextOnce(rs[1..], a[k..], b[n..]);
      assert a == a[..k] + a[k..] && b == b[..n] + b[n..];
    }
  }

  lemma TextCons(r: int, s: bytes, rs: seq<int>, text: bytes)
    requires IsUtf8(r, s) && IsText(rs, text)
    ensures IsText([r] + rs, s + text)
  {
    hide IsUtf8;
    var all, t := [r] + rs, s + text;
    assert all[1..] == rs && t[..|s|] == s && t[|s|..] == text;
  }

  lemma DigitIsHex(c: byte, v: int)
    ensures DigitIs(c, v) <==> HexDigit(c).Some? && HexDigit(c).value == v
  {
  }

  lemma By16(q: int, d: int, u: int)
    requires 0 <= d < 16
    ensures u == q * 16 + d <==> u / 16 == q && u % 16 == d
  {
  }

  lemma CodeIsHex(digits: bytes, unit: int)
    requires |digits| == 4
    ensures IsPart(Code(digits, unit)) <==> Hex4(digits).Some? && Hex4(digits).value == unit
  {
    hide DigitIs, HexDigit;
    DigitIsHex(digits[0], unit / 16 / 16 / 16);
    DigitIsHex(digits[1], unit / 16 / 16 % 16);
    DigitIsHex(digits[2], unit / 16 % 16);
    DigitIsHex(digits[3], unit % 16);
    if Hex4(digits).Some? {
      var a, b, c, d := HexDigit(digits[0]).value, HexDigit(digits[1]).value, HexDigit(digits[2]).value,
        HexDigit(digits[3]).value;
      HexParts(a, b, c, d, unit);
    }
  }

  lemma HexParts(a: int, b: int, c: int, d: int, u: int)
    requires 0 <= a < 16 && 0 <= b < 16 && 0 <= c < 16 && 0 <= d < 16
    ensures a * 4096 + b * 256 + c * 16 + d == u <==>
            u / 16 / 16 / 16 == a && u / 16 / 16 % 16 == b && u / 16 % 16 == c && u % 16 == d
  {
    By16(a * 256 + b * 16 + c, d, u);
    By16(a * 16 + b, c, u / 16);
    By16(a, b, u / 16 / 16);
  }

  // ---------------------------------------------------------------------------- units and parts

  lemma CharUnit(r: int, utf8: bytes, more: bytes)
    requires IsPart(Char(r, utf8))
    ensures
      var s := utf8 + more;
      && s != [] && WellUnit(s) && NextUnit(s) == Unit(|utf8|, utf8) && s[|utf8|..] == more
      && LowEscape(s).None? && !LoneHigh(s)
  {
    hide IsUtf8, RuneSize, UnicodeUnit;
    Utf8Size(r, utf8, more);
    assert (utf8 + more)[0] == utf8[0];
  }

  lemma ShortUnit(letter: byte, r: int, more: bytes)
    requires IsPart(Short(letter, r))
    ensures
      var s := [92, letter] + more;
      && WellUnit(s) && NextUnit(s).width == 2 && IsUtf8(r, NextUnit(s).out) && s[2..] == more
      && LowEscape(s).None? && !LoneHigh(s)
  {
    hide UnicodeUnit, Hex4;
    var s := [92, letter] + more;
    assert s[0] == 92 && s[1] == letter && letter != 117;
    assert ShortEscape(letter).Some? && ShortEscape(letter).value as int == r;
  }

  /** What an escape of a code unit decodes to, by what follows. */
  function CodeOut(unit: int, more: bytes): Unit
    requires 0 <= unit < 0x1_0000
  {
    if IsLow(unit) then Unit(6, REPLACEMENT)
    else if IsHigh(unit) then
      match LowEscape(more)
      case Some(lo) => Unit(12, Encode(0x1_0000 + (unit - 0xD800) * 1024 + (lo - 0xDC00)))
      case None => Unit(6, REPLACEMENT)
    else Unit(6, Encode(unit))
  }

  lemma CodeUnit(digits: bytes, unit: int, more: bytes)
    requires IsPart(Code(digits, unit))
    ensures
      var s := [92, 117] + digits + more;
      && |s| >= 6 && s[0] == 92 && s[1] == 117 && s[2..6] == digits && s[6..] == more
      && WellUnit(s) && NextUnit(s) == CodeOut(unit, more)
      && LowEscape(s) == (if IsLow(unit) then Some(unit) else None)
      && (LoneHigh(s) <==> more == [] && IsHigh(unit))
  {
    hide Encode, Hex4, IsPart;
    CodeFacts(digits, unit);
    CodeIsHex(digits, unit);
    var s := [92, 117] + digits + more;
    assert s[2..6] == digits && s[6..] == more;
    hide LowEscape;
    assert LowEscape(s) == (if IsLow(unit) then Some(unit) else None) by { LowEscapeIs(s); }
  }

  lemma CodeFacts(digits: bytes, unit: int)
    requires IsPart(Code(digits, unit))
    ensures |digits| == 4 && 0 <= unit < 0x1_0000
  {
  }

  lemma LowEscapeIs(s: bytes)
    requires |s| >= 6 && s[0] == 92 && s[1] == 117 && Hex4(s[2..6]).Some?
    ensures LowEscape(s) == if IsLow(Hex4(s[2..6]).value) then Some(Hex4(s[2..6]).value) else None
  {
    hide Hex4;
  }

  lemma NothingLow()
    ensures LowEscape([]).None? && Interior([]) && Decode([]) == [] && IsText([], []) && !EndsHigh([])
  {
  }

  lemma SpelledStep(ps: seq<Part>)
    requires ps != [] && AreParts(ps)
    ensures Spelled(ps) == PartText(ps[0]) + Spelled(ps[1..]) && IsPart(ps[0]) && AreParts(ps[1..])
    ensures PartText(ps[0]) != []
  {
    hide IsPart;
    assert forall i :: 0 <= i < |ps| - 1 ==> ps[1..][i] == ps[i + 1];
    PartNotEmpty(ps[0]);
  }

  lemma PartNotEmpty(p: Part)
    requires IsPart(p)
    ensures PartText(p) != []
  {
  }

  /** Only an escape of a low surrogate starts a text as one. */
  lemma LowStart(ps: seq<Part>)
    requires AreParts(ps)
    ensures LowEscape(Spelled(ps)).Some? <==> ps != [] && LowCode(ps[0])
    ensures ps != [] && LowCode(ps[0]) ==> LowEscape(Spelled(ps)).value == ps[0].unit
  {
    hide IsPart, LowEscape, NextUnit, WellUnit, LoneHigh, AreParts, Interior, Decode, IsText, EndsHigh, IsUtf8;
    if ps == [] {
      NothingLow();
    } else {
      SpelledStep(ps);
      match ps[0]
      case Char(r, utf8) => CharUnit(r, utf8, Spelled(ps[1..]));
      case Short(letter, r) => ShortUnit(letter, r, Spelled(ps[1..]));
      case Code(digits, unit) => CodeUnit(digits, unit, Spelled(ps[1..]));
    }
  }

  /** How many parts the first unit is. */
  function Taken(ps: seq<Part>): nat {
    if Paired(ps) then 2 else 1
  }

  /** The first unit of a spelled string is its first part, or its first two. */
  lemma FirstUnit(ps: seq<Part>)
    requires AreParts(ps) && ps != []
    ensures
      var s, n := Spelled(ps), Taken(ps);
      && s != [] && n <= |ps| && AreParts(ps[n..]) && WellUnit(s)
      && s[NextUnit(s).width..] == Spelled(ps[n..])
      && NextUnit(s).width + |Spelled(ps[n..])| == |s|
      && Meaning(ps) == [Meaning(ps)[0]] + Meaning(ps[n..])
      && IsUtf8(Meaning(ps)[0], NextUnit(s).out)
  {
    hide IsPart, LowEscape, NextUnit, WellUnit, LoneHigh, AreParts, Encode, IsUtf8;
    SpelledStep(ps);
    match ps[0] {
      case Char(r, utf8) =>
        CharUnit(r, utf8, Spelled(ps[1..]));
        CharIs(r, utf8);
      case Short(letter, r) => ShortUnit(letter, r, Spelled(ps[1..]));
      case Code(digits, unit) => FirstCode(ps);
    }
  }

  lemma CharIs(r: int, utf8: bytes)
    requires IsPart(Char(r, utf8))
    ensures IsUtf8(r, utf8)
  {
    hide IsUtf8;
  }

  lemma FirstCode(ps: seq<Part>)
    requires AreParts(ps) && ps != [] && ps[0].Code?
    ensures
      var s, n := Spelled(ps), Taken(ps);
      && s != [] && n <= |ps| && AreParts(ps[n..]) && WellUnit(s)
      && s[NextUnit(s).width..] == Spelled(ps[n..])
      && NextUnit(s).width + |Spelled(ps[n..])| == |s|
      && IsUtf8(Meaning(ps)[0], NextUnit(s).out)
  {
    hide IsPart, LowEscape, NextUnit, WellUnit, LoneHigh, AreParts, Encode, IsUtf8, Spelled;
    SpelledStep(ps);
    var digits, unit, more := ps[0].digits, ps[0].unit, Spelled(ps[1..]);
    CodeFacts(digits, unit);
    CodeUnit(digits, unit, more);
    LowStart(ps[1..]);
    if Paired(ps) {
      FirstPair(ps);
    } else {
      ReplacementIs();
      if !IsLow(unit) && !IsHigh(unit) {
        EncodeUtf8(unit);
      }
    }
  }

  lemma FirstPair(ps: seq<Part>)
    requires AreParts(ps) && Paired(ps)
    ensures
      var s := Spelled(ps);
      && s != [] && AreParts(ps[2..]) && WellUnit(s)
      && s[NextUnit(s).width..] == Spelled(ps[2..])
      && NextUnit(s).width + |Spelled(ps[2..])| == |s|
      && IsUtf8(Meaning(ps)[0], NextUnit(s).out)
  {
    hide IsPart, LowEscape, NextUnit, WellUnit, LoneHigh, AreParts, Encode, IsUtf8, Spelled;
    SpelledStep(ps);
    var unit, rest := ps[0].unit, ps[1..];
    CodeFacts(ps[0].digits, unit);
    CodeUnit(ps[0].digits, unit, Spelled(rest));
    LowStart(rest);
    SpelledStep(rest);
    CodeFacts(rest[0].digits, rest[0].unit);
    CodeUnit(rest[0].digits, rest[0].unit, Spelled(rest[1..]));
    assert rest[1..] == ps[2..];
    EncodeUtf8(0x1_0000 + (unit - 0xD800) * 1024 + (rest[0].unit - 0xDC00));
    TwoCodes(Spelled(ps), Spelled(rest), Spelled(ps[2..]));
  }

  lemma TwoCodes(s: bytes, more: bytes, rest: bytes)
    requires |s| >= 6 && s[6..] == more && |more| >= 6 && more[6..] == rest
    ensures |s| >= 12 && s[12..] == rest && |s| == 12 + |rest|
  {
  }

  lemma ReplacementIs()
    ensures IsUtf8(0xFFFD, REPLACEMENT)
  {
  }

  /** The lens accepts what the parts spell, and reads their meaning. */
  lemma {:induction false} PartsRead(ps: seq<Part>)
    requires AreParts(ps)
    ensures Interior(Spelled(ps)) && IsText(Meaning(ps), Decode(Spelled(ps)))
    decreases |ps|
  {
    hide NextUnit, WellUnit, AreParts, IsUtf8, IsText, Spelled, Meaning;
    if ps == [] {
      NothingLow();
      NothingMeant();
    } else {
      FirstUnit(ps);
      var s, n := Spelled(ps), Taken(ps);
      PartsRead(ps[n..]);
      TextCons(Meaning(ps)[0], NextUnit(s).out, Meaning(ps[n..]), Decode(Spelled(ps[n..])));
    }
  }

  lemma NothingMeant()
    ensures Spelled([]) == [] && Meaning([]) == []
  {
  }

  // ------------------------------------------------------------------------- everything accepted

  /** The part that a unit of the lens is. */
  lemma UnitParts(s: bytes) returns (ps: seq<Part>)
    requires s != [] && WellUnit(s)
    ensures AreParts(ps) && Spelled(ps) == s[..NextUnit(s).width]
  {
    hide IsPart, RuneSize, Hex4, Encode, LowEscape;
    var k := NextUnit(s).width;
    if s[0] != 92 {
      var p := CharPart(s);
      ps := [p];
      SpelledOne(p);
    } else if s[1] != 117 {
      var p := ShortPart(s);
      ps := [p];
      SpelledOne(p);
    } else {
      var p := CodePart(s);
      if k == 6 {
        ps := [p];
        SpelledOne(p);
      } else {
        LowIsCode(s[6..]);
        var q := CodePart(s[6..]);
        ps := [p, q];
        SpelledTwo(p, q);
        assert s[..12] == s[..6] + s[6..][..6];
      }
    }
  }

  lemma SpelledOne(p: Part)
    ensures Spelled([p]) == PartText(p)
  {
    assert [p][1..] == [] && PartText(p) + [] == PartText(p);
  }

  lemma SpelledTwo(p: Part, q: Part)
    ensures Spelled([p, q]) == PartText(p) + PartText(q)
  {
    assert [p, q][1..] == [q];
    SpelledOne(q);
  }

  lemma CharPart(s: bytes) returns (p: Part)
    requires s != [] && WellUnit(s) && s[0] != 92
    ensures IsPart(p) && PartText(p) == s[..NextUnit(s).width]
  {
    var r := SizeUtf8(s);
    var utf8 := s[..RuneSize(s)];
    Utf8Size(r, utf8, s[|utf8|..]);
    assert utf8[0] == s[0];
    hide IsUtf8, RuneSize;
    p := Char(r, utf8);
    Utf8Low(r, utf8);
  }

  lemma Utf8Low(r: int, s: bytes)
    requires IsUtf8(r, s) && (s[0] < 0x80 ==> s[0] >= 0x20 && s[0] != 34 && s[0] != 92)
    ensures r >= 0x20 && r != 34 && r != 92
  {
  }

  lemma ShortPart(s: bytes) returns (p: Part)
    requires s != [] && WellUnit(s) && s[0] == 92 && s[1] != 117
    ensures IsPart(p) && PartText(p) == s[..NextUnit(s).width]
  {
    hide Hex4;
    p := Short(s[1], ShortEscape(s[1]).value as int);
    assert s[..2] == [s[0], s[1]];
  }

  lemma CodePart(s: bytes) returns (p: Part)
    requires |s| >= 6 && s[0] == 92 && s[1] == 117 && Hex4(s[2..6]).Some?
    ensures IsPart(p) && PartText(p) == s[..6]
  {
    hide Hex4;
    p := Code(s[2..6], Hex4(s[2..6]).value);
    CodeIsHex(s[2..6], Hex4(s[2..6]).value);
    assert s[..6] == [s[0], s[1]] + s[2..6];
  }

  lemma LowIsCode(s: bytes)
    requires LowEscape(s).Some?
    ensures |s| >= 6 && s[0] == 92 && s[1] == 117 && Hex4(s[2..6]).Some?
  {
    hide Hex4;
  }

  lemma {:induction false} SpelledAppend(a: seq<Part>, b: seq<Part>)
    ensures Spelled(a + b) == Spelled(a) + Spelled(b)
  {
    hide PartText;
    if a == [] {
      assert a + b == b;
    } else {
      SpelledAppend(a[1..], b);
      assert (a + b)[1..] == a[1..] + b;
      Assoc(PartText(a[0]), Spelled(a[1..]), Spelled(b));
    }
  }

  lemma {:induction false} InteriorIsParts(s: bytes) returns (ps: seq<Part>)
    requires Interior(s)
    ensures AreParts(ps) && Spelled(ps) == s
    decreases |s|
  {
    hide NextUnit, WellUnit, IsPart, Spelled;
    if s == [] {
      ps := [];
      NothingMeant();
    } else {
      var k := NextUnit(s).width;
      var first := UnitParts(s);
      var rest := InteriorIsParts(s[k..]);
      ps := first + rest;
      SpelledAppend(first, rest);
      assert s == s[..k] + s[k..];
    }
  }

  /**
   The lens takes a text for the inside of a JSON string exactly when parts spell it, and what it
   decodes it to is exactly the text of the characters that they mean.
   */
  lemma InteriorMeans(s: bytes)
    ensures Interior(s) <==> exists ps :: AreParts(ps) && Spelled(ps) == s
    ensures forall ps, text :: AreParts(ps) && Spelled(ps) == s ==> (Decode(s) == text <==> IsText(Meaning(ps), text))
  {
    hide Interior, Decode, AreParts, IsText, Spelled, Meaning;
    if Interior(s) {
      var ps := InteriorIsParts(s);
    }
    forall ps | AreParts(ps) && Spelled(ps) == s ensures Interior(s) && IsText(Meaning(ps), Decode(s)) {
      PartsRead(ps);
    }
    forall ps, text | AreParts(ps) && Spelled(ps) == s && IsText(Meaning(ps), text) ensures Decode(s) == text {
      PartsRead(ps);
      TextOnce(Meaning(ps), Decode(s), text);
    }
  }

  // ----------------------------------------------------------------------------------- raw spans

  /** Both halves of a surrogate pair, with the cut between them. */
  predicate CutsPair(a: seq<Part>, b: seq<Part>) {
    a != [] && b != [] && HighCode(a[|a| - 1]) && LowCode(b[0])
  }

  lemma {:induction false} EndsHighPart(ps: seq<Part>)
    requires AreParts(ps) && EndsHigh(Spelled(ps))
    ensures ps != [] && HighCode(ps[|ps| - 1])
    decreases |ps|
  {
    hide NextUnit, WellUnit, AreParts, IsUtf8, IsText, Spelled, Meaning, LoneHigh, IsPart;
    if ps == [] {
      NothingLow();
      NothingMeant();
    } else {
      FirstUnit(ps);
      var s, n := Spelled(ps), Taken(ps);
      if n < |ps| {
        SpelledStep(ps[n..]);
        EndsHighPart(ps[n..]);
      } else {
        NothingMeant();
        assert LoneHigh(s);
        LoneIsCode(ps);
      }
    }
  }

  lemma LoneIsCode(ps: seq<Part>)
    requires AreParts(ps) && ps != [] && LoneHigh(Spelled(ps)) && Taken(ps) == |ps|
    ensures HighCode(ps[|ps| - 1])
  {
    hide NextUnit, WellUnit, AreParts, IsUtf8, LoneHigh, IsPart, LowEscape;
    SpelledStep(ps);
    match ps[0] {
      case Char(r, utf8) => CharUnit(r, utf8, Spelled(ps[1..]));
      case Short(letter, r) => ShortUnit(letter, r, Spelled(ps[1..]));
      case Code(digits, unit) => CodeUnit(digits, unit, Spelled(ps[1..]));
    }
  }

  lemma NoJoin(a: seq<Part>, b: seq<Part>)
    requires AreParts(a) && AreParts(b) && !CutsPair(a, b)
    ensures !Joins(Spelled(a), Spelled(b))
  {
    hide AreParts, Spelled, EndsHigh, LowEscape;
    LowStart(b);
    if EndsHigh(Spelled(a)) {
      EndsHighPart(a);
    }
  }

  /** Where the first of two strings ends. */
  lemma {:induction false} OffsetOfAppend(a: bytes, b: bytes)
    requires Interior(a) && Interior(b) && !Joins(a, b)
    ensures Interior(a + b) && |Decode(a)| <= |Decode(a + b)| && RawOffset(a + b, |Decode(a)|) == |a|
    decreases |a|
  {
    hide NextUnit, WellUnit, LoneHigh, LowEscape;
    DecodeAppend(a, b);
    if a != [] {
      var u := NextUnit(a);
      if u.width == |a| {
        assert a[u.width..] == [];
      }
      UnitAppend(a, b);
      OffsetOfAppend(a[u.width..], b);
      assert (a + b)[u.width..] == a[u.width..] + b;
      hide RawOffset;
      RawOffsetStep(a + b, |Decode(a)|);
    }
  }

  /** Between two strings the decoded text is cut at a character. */
  lemma AlignedBetween(a: bytes, b: bytes)
    requires Interior(a) && Interior(b) && !Joins(a, b)
    ensures Interior(a + b) && Decode(a + b) == Decode(a) + Decode(b) && Aligned(Decode(a + b), |Decode(a)|)
  {
    hide NextUnit, WellUnit, LoneHigh, LowEscape, EndsHigh;
    DecodeAppend(a, b);
    if Decode(b) != [] {
      assert b != [];
      UnitOut(b);
      assert Decode(b)[0] == NextUnit(b).out[0];
      assert Decode(a + b)[|Decode(a)|] == Decode(b)[0];
    }
  }

  /** mapSpan at two cuts. */
  lemma MapSpanAt(s: bytes, start: nat, end: nat)
    requires Interior(s) && start <= end && Aligned(Decode(s), start) && Aligned(Decode(s), end)
    ensures MapSpan(s, start, end) == Some(Range(RawOffset(s, start), RawOffset(s, end)))
  {
    hide Interior, Decode, UnitStart, UnitEnd;
    CutAt(s, start);
  }

  lemma DecodedLength(ps: seq<Part>, text: bytes)
    requires AreParts(ps) && IsText(Meaning(ps), text)
    ensures Interior(Spelled(ps)) && Decode(Spelled(ps)) == text
  {
    hide AreParts, IsText, Interior, Decode, Spelled, Meaning;
    PartsRead(ps);
    TextOnce(Meaning(ps), Decode(Spelled(ps)), text);
  }

  lemma PartsJoined(a: seq<Part>, b: seq<Part>)
    requires AreParts(a) && AreParts(b)
    ensures AreParts(a + b) && Spelled(a + b) == Spelled(a) + Spelled(b)
  {
    hide IsPart;
    SpelledAppend(a, b);
  }

  /** The halves of a surrogate pair stand on both sides of offset i. */
  predicate SplitsPair(ps: seq<Part>, i: nat) {
    0 < i < |ps| && HighCode(ps[i - 1]) && LowCode(ps[i])
  }

  /** Where no pair is split, the raw string and the decoded one are cut together. */
  lemma CutOfParts(ps: seq<Part>, i: nat, front: bytes)
    requires AreParts(ps) && i <= |ps| && !SplitsPair(ps, i) && IsText(Meaning(ps[..i]), front)
    ensures
      var s := Spelled(ps);
      && Interior(s) && Aligned(Decode(s), |front|)
      && |front| <= |Decode(s)| && RawOffset(s, |front|) == |Spelled(ps[..i])|
  {
    hide IsPart, IsText, Interior, Decode, Spelled, Meaning, RawOffset, Joins, Aligned;
    var a, b := ps[..i], ps[i..];
    assert ps == a + b;
    PartsJoined(a, b);
    DecodedLength(a, front);
    PartsRead(b);
    NoJoin(a, b);
    AlignedBetween(Spelled(a), Spelled(b));
    OffsetOfAppend(Spelled(a), Spelled(b));
  }

  lemma CutsAscending(ps: seq<Part>, i: nat, j: nat, front: bytes, both: bytes)
    requires AreParts(ps) && i <= j <= |ps| && !SplitsPair(ps, i)
    requires IsText(Meaning(ps[..i]), front) && IsText(Meaning(ps[..j]), both)
    ensures |front| <= |both|
  {
    hide IsPart, IsText, Interior, Decode, Spelled, Meaning, RawOffset, Aligned;
    assert ps[..j][..i] == ps[..i];
    if i < j {
      assert !SplitsPair(ps[..j], i);
      CutOfParts(ps[..j], i, front);
      DecodedLength(ps[..j], both);
    } else {
      TextOnce(Meaning(ps[..i]), front, both);
    }
  }

  /**
   A run of parts inside a string: where its text stands in the decoded string, its spelling
   stands in the raw one, and that is what mapSpan finds.
   */
  lemma SpanOfParts(ps: seq<Part>, i: nat, j: nat, front: bytes, both: bytes)
    requires AreParts(ps) && i <= j <= |ps| && !SplitsPair(ps, i) && !SplitsPair(ps, j)
    requires IsText(Meaning(ps[..i]), front) && IsText(Meaning(ps[..j]), both)
    ensures MapSpan(Spelled(ps), |front|, |both|) == Some(Range(|Spelled(ps[..i])|, |Spelled(ps[..j])|))
  {
    hide AreParts, IsText, Interior, Decode, Spelled, Meaning, SplitsPair, MapSpan, RawOffset, Aligned;
    CutOfParts(ps, i, front);
    CutOfParts(ps, j, both);
    CutsAscending(ps, i, j, front, both);
    MapSpanAt(Spelled(ps), |front|, |both|);
  }
}
