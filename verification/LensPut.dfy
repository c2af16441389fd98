/**
 The put/get law of the lens: what is spelled at the raw bytes of a decoded span is what the
 span decodes to afterwards, at every level of nesting.
 */
module LensPut {
  import opened Bytes
  import opened Utf8
  import opened Lens
  import opened LensLaws
  import opened Splice

  // -------------------------------------------------------------------------- escaping

  lemma EscapeByteUnit(c: byte, rest: bytes)
    requires c < 0x80
    ensures
      var s := EscapeByte(c) + rest;
      && WellUnit(s) && NextUnit(s) == Unit(|EscapeByte(c)|, [c])
      && LowEscape(s).None? && !LoneHigh(EscapeByte(c))
  {
    var s := EscapeByte(c) + rest;
    if c < 0x20 && |EscapeByte(c)| == 6 {
      assert s[2..6] == [48, 48, Nibble(c / 16), Nibble(c % 16)];
      assert Hex4(s[2..6]) == Some(c as nat);
      assert EscapeByte(c)[2..6] == s[2..6];
    } else if |EscapeByte(c)| == 1 {
      assert s[..1] == [c];
    }
  }

  /** The runes of a text that take more than one byte are their own spelling. */
  lemma EscapeRune(x: bytes)
    requires RuneSize(x) > 1
    ensures
      var k := RuneSize(x);
      && Escape(x) == x[..k] + Escape(x[k..])
      && WellUnit(Escape(x)) && NextUnit(Escape(x)) == Unit(k, x[..k])
  {
    var k := RuneSize(x);
    assert forall c :: c in x[..k] ==> c >= 0x80;
    EscapePlain(x[..k]);
    EscapeAppend(x[..k], x[k..]);
    assert x[..k] + x[k..] == x;
    assert Escape(x)[..k] == x[..k];
    RuneSizeLocal(x, Escape(x));
  }

  /** Escaping is undone by decoding, and its ends do not join surrogates. */
  lemma {:induction false} EscapeDecodes(x: bytes)
    requires Utf8.Valid(x)
    ensures Interior(Escape(x)) && Decode(Escape(x)) == x
    ensures !EndsHigh(Escape(x)) && LowEscape(Escape(x)).None?
    decreases |x|
  {
    hide NextUnit, WellUnit, RuneSize, EscapeByte, LowEscape, LoneHigh, Escape, Interior, Decode, EndsHigh;
    if x == [] {
      EscapeOfNothing();
    } else {
      var k := RuneSize(x);
      EscapeDecodes(x[k..]);
      var rest := Escape(x[k..]);
      if k == 1 {
        EscapeByteUnit(x[0], rest);
        EscapeCons(x);
        EscapeStep(x, EscapeByte(x[0]), [x[0]], rest);
      } else {
        EscapeRune(x);
        RuneNoSurrogate(x[..k], rest);
        EscapeStep(x, x[..k], x[..k], rest);
      }
    }
  }

  lemma EscapeOfNothing()
    ensures Escape([]) == [] && Interior([]) && Decode([]) == []
    ensures LowEscape([]).None? && !EndsHigh([])
  {
  }

  lemma EscapeCons(x: bytes)
    requires x != []
    ensures Escape(x) == EscapeByte(x[0]) + Escape(x[1..]) && EscapeByte(x[0]) != []
    ensures x == [x[0]] + x[1..]
  {
    hide EscapeByte;
  }

  lemma RuneNoSurrogate(r: bytes, rest: bytes)
    requires r != [] && r[0] >= 0x80
    ensures LowEscape(r + rest).None? && !LoneHigh(r)
  {
    assert (r + rest)[0] == r[0];
  }

  /** One more unit in front of an escaped text. */
  lemma EscapeStep(x: bytes, unit: bytes, out: bytes, rest: bytes)
    requires x != [] && unit != [] && Escape(x) == unit + rest
    requires WellUnit(Escape(x)) && NextUnit(Escape(x)) == Unit(|unit|, out)
    requires Interior(rest) && !EndsHigh(rest) && x == out + Decode(rest) && !LoneHigh(unit)
    ensures Interior(Escape(x)) && Decode(Escape(x)) == x && !EndsHigh(Escape(x))
  {
    hide NextUnit, WellUnit, LoneHigh;
    assert (unit + rest)[|unit|..] == rest;
    assert rest == [] ==> unit + rest == unit;
  }

  lemma {:induction false} EscapeValid(x: bytes)
    requires Utf8.Valid(x)
    ensures Utf8.Valid(Escape(x))
    decreases |x|
  {
    hide RuneSize, EscapeByte;
    if x != [] {
      var k := RuneSize(x);
      EscapeValid(x[k..]);
      if k == 1 {
        AsciiValid(EscapeByte(x[0])) by { EscapeByteAscii(x[0]); }
        ValidAppend(EscapeByte(x[0]), Escape(x[k..]));
      } else {
        EscapeRune(x);
        RuneSizeLocal(x, x[..k]);
        OneRuneValid(x[..k]);
        ValidAppend(x[..k], Escape(x[k..]));
      }
    }
  }

  lemma EscapeByteAscii(c: byte)
    requires c < 0x80
    ensures forall i :: 0 <= i < |EscapeByte(c)| ==> EscapeByte(c)[i] < 0x80
  {
  }

  lemma {:induction false} AsciiValid(s: bytes)
    requires forall i :: 0 <= i < |s| ==> s[i] < 0x80
    ensures Utf8.Valid(s)
  {
    if s != [] {
      AsciiValid(s[1..]);
    }
  }

  lemma EscapeEmpty(x: bytes)
    ensures Escape(x) == [] <==> x == []
  {
  }

  // ------------------------------------------------------------------ one string level

  /** A window that can be edited: rune-aligned, not empty, replaced by valid text. */
  ghost predicate Editable(doc: bytes, w: Window) {
    && w.start < w.end <= |doc|
    && Aligned(doc, w.start) && Aligned(doc, w.end)
    && Utf8.Valid(w.repl)
    // deleting text may join two unpaired surrogates, unless ASCII text or the end follows
    && (w.repl == [] && w.end < |doc| ==> doc[w.end] < 0x80)
  }

  /** Windows to be edited together, in order. */
  ghost predicate Edits(doc: bytes, ws: seq<Window>) {
    && (forall i :: 0 <= i < |ws| ==> Editable(doc, ws[i]))
    && (forall i, j :: 0 <= i < j < |ws| ==>
          ws[i].end <= ws[j].start && (ws[i].repl == [] ==> ws[i].end < ws[j].start))
  }

  lemma NothingEdited(doc: bytes)
    ensures Edits(doc, [])
  {
  }

  /** A window of a decoded string, in its raw text. */
  function LiftWindow(raw: bytes, w: Window): Window
    requires w.start <= |Decode(raw)| && w.end <= |Decode(raw)|
  {
    Window(RawOffset(raw, w.start), RawOffset(raw, w.end), Escape(w.repl))
  }

  ghost function Lift(raw: bytes, ws: seq<Window>): (r: seq<Window>)
    requires Edits(Decode(raw), ws)
    ensures |r| == |ws|
    ensures forall i :: 0 <= i < |ws| ==> r[i] == LiftWindow(raw, ws[i])
  {
    seq(|ws|, i requires 0 <= i < |ws| => assert Editable(Decode(raw), ws[i]); LiftWindow(raw, ws[i]))
  }

  lemma EditsOrdered(doc: bytes, ws: seq<Window>, from: nat)
    requires Edits(doc, ws) && from <= |doc| && (ws != [] ==> from <= ws[0].start)
    ensures Ordered(ws, from, |doc|)
  {
    forall i | 0 <= i < |ws| ensures from <= ws[i].start <= ws[i].end <= |doc| {
      assert Editable(doc, ws[i]);
    }
  }

  lemma EditsTail(doc: bytes, ws: seq<Window>)
    requires Edits(doc, ws) && ws != []
    ensures Edits(doc, ws[1..]) && Editable(doc, ws[0])
    ensures ws[1..] != [] ==> ws[0].end <= ws[1].start
    ensures ws[1..] != [] && ws[0].repl == [] ==> ws[0].end < ws[1].start
  {
    assert forall i :: 0 <= i < |ws[1..]| ==> ws[1..][i] == ws[i + 1];
  }

  lemma LiftOrder(raw: bytes, ws: seq<Window>, i: nat, j: nat)
    requires Interior(raw) && Edits(Decode(raw), ws) && i < j < |ws|
    ensures
      var l := Lift(raw, ws);
      l[i].end <= l[j].start && (l[i].repl == [] ==> l[i].end < l[j].start)
  {
    assert Editable(Decode(raw), ws[i]) && Editable(Decode(raw), ws[j]);
    CutsAscend(raw, ws[i].end, ws[j].start);
    EscapeEmpty(ws[i].repl);
  }

  lemma LiftOrdered(raw: bytes, ws: seq<Window>, from: nat)
    requires Interior(raw) && Edits(Decode(raw), ws) && Aligned(Decode(raw), from)
    requires ws != [] ==> from <= ws[0].start
    ensures Ordered(Lift(raw, ws), RawOffset(raw, from), |raw|)
  {
    var l := Lift(raw, ws);
    forall i | 0 <= i < |ws|
      ensures RawOffset(raw, from) <= l[i].start <= l[i].end <= |raw|
    {
      assert Editable(Decode(raw), ws[i]) && Editable(Decode(raw), ws[0]);
      CutsAscend(raw, from, ws[i].start);
      CutsAscend(raw, ws[i].start, ws[i].end);
    }
    forall i, j | 0 <= i < j < |ws| ensures l[i].end <= l[j].start {
      LiftOrder(raw, ws, i, j);
    }
  }

  /** A gap, a spelled replacement, and a rest, put together without joining surrogates. */
  lemma JoinThree(gap: bytes, x: bytes, rest: bytes)
    requires Interior(gap) && Utf8.Valid(x) && Interior(rest)
    requires x == [] ==> LowEscape(rest).None?
    ensures Interior(gap + (Escape(x) + rest))
    ensures Decode(gap + (Escape(x) + rest)) == Decode(gap) + (x + Decode(rest))
    ensures gap != [] ==> LowEscape(gap + (Escape(x) + rest)) == LowEscape(gap)
  {
    hide LowEscape, NextUnit, WellUnit, EndsHigh, Escape;
    EscapeDecodes(x);
    EscapeEmpty(x);
    DecodeAppend(Escape(x), rest);
    if x == [] {
      assert Escape(x) + rest == rest;
    } else {
      LowEscapeAppend(Escape(x), rest);
    }
    DecodeAppend(gap, Escape(x) + rest);
    if gap != [] {
      LowEscapeAppend(gap, Escape(x) + rest);
    }
  }

  /** Nothing that could complete a surrogate pair stands at this cut. */
  lemma CutNotLow(raw: bytes, o: nat, p: nat)
    requires Interior(raw) && Aligned(Decode(raw), o) && Aligned(Decode(raw), p) && o < p
    requires Decode(raw)[o] < 0x80
    ensures
      var r, q := RawOffset(raw, o), RawOffset(raw, p);
      r < q <= |raw| && LowEscape(raw[r..q]).None? && raw[r..q] != []
  {
    hide LowEscape, Interior, Decode, UnitEnd;
    CutByte(raw, o);
    CutBetween(raw, o, p);
    CutsAscend(raw, o, p);
    var r, q := RawOffset(raw, o), RawOffset(raw, p);
    InteriorHead(raw[r..q]);
    LowEscapeAppend(raw[r..q], raw[q..]);
    assert raw[r..q] + raw[q..] == raw[r..];
  }

  lemma InteriorHead(s: bytes)
    requires Interior(s) && s != []
    ensures WellUnit(s)
  {
  }

  /** Editing the raw text at the lifted windows edits the decoded text at the windows. */
  lemma {:induction false} LevelPut(raw: bytes, ws: seq<Window>, from: nat)
    requires Interior(raw) && Edits(Decode(raw), ws) && Aligned(Decode(raw), from)
    requires ws != [] ==> from <= ws[0].start
    ensures Ordered(ws, from, |Decode(raw)|)
    ensures Ordered(Lift(raw, ws), RawOffset(raw, from), |raw|)
    ensures
      var raw' := Splices(raw, Lift(raw, ws), RawOffset(raw, from));
      && Interior(raw')
      && Decode(raw') == Splices(Decode(raw), ws, from)
      && ((from == |Decode(raw)| || (Decode(raw)[from] < 0x80 && (ws != [] ==> from < ws[0].start)))
          ==> LowEscape(raw').None?)
    decreases |ws|
  {
    hide Interior, Decode, UnitEnd, LowEscape, Edits, Splices, Ordered, Editable, Escape;
    var doc := Decode(raw);
    EditsOrdered(doc, ws, from);
    LiftOrdered(raw, ws, from);
    var l, r := Lift(raw, ws), RawOffset(raw, from);
    if ws == [] {
      LevelEnd(raw, from);
    } else {
      var w := ws[0];
      EditsTail(doc, ws);
      EditableFacts(doc, w);
      LevelPut(raw, ws[1..], w.end);
      assert l[1..] == Lift(raw, ws[1..]);
      SplicesUnfold(raw, l, r);
      SplicesUnfold(doc, ws, from);
      CutBetween(raw, from, w.start);
      var rest := Splices(raw, Lift(raw, ws[1..]), RawOffset(raw, w.end));
      JoinThree(raw[r..l[0].start], w.repl, rest);
      if from < w.start && doc[from] < 0x80 {
        CutNotLow(raw, from, w.start);
      }
    }
  }

  lemma EditableFacts(doc: bytes, w: Window)
    requires Editable(doc, w)
    ensures w.start < w.end <= |doc| && Aligned(doc, w.start) && Aligned(doc, w.end)
    ensures Utf8.Valid(w.repl)
    ensures w.repl == [] && w.end < |doc| ==> doc[w.end] < 0x80
  {
  }

  lemma LevelEnd(raw: bytes, from: nat)
    requires Interior(raw) && Aligned(Decode(raw), from)
    ensures
      var r := RawOffset(raw, from);
      && Ordered([], r, |raw|) && Ordered([], from, |Decode(raw)|)
      && Interior(raw[r..])
      && Splices(raw, [], r) == raw[r..] && Splices(Decode(raw), [], from) == Decode(raw)[from..]
      && Decode(raw[r..]) == Decode(raw)[from..]
      && ((from == |Decode(raw)| || Decode(raw)[from] < 0x80) ==> LowEscape(raw[r..]).None?)
  {
    CutAt(raw, from);
    if from < |Decode(raw)| {
      CutByte(raw, from);
    }
  }
}
