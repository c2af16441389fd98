/**
 Undoing an edit of one string level: the windows that undo it in the decoded text, lifted,
 are the windows that undo it in the raw text, when the replaced text was spelled as
 escapeJSONString spells it.
 */
module LensInverse {
  import opened Bytes
  import opened Utf8
  import opened Lens
  import opened LensLaws
  import opened LensPut
  import opened Splice
  import opened SpliceInverse

  /** Where two interiors join, the decoded text is cut where the raw text is. */
  lemma {:induction false} CutUnique(a: bytes, b: bytes)
    requires Interior(a) && Interior(b) && !Joins(a, b)
    ensures |Decode(a)| <= |Decode(a + b)| && RawOffset(a + b, |Decode(a)|) == |a|
    decreases |a|
  {
    hide NextUnit, WellUnit, LoneHigh, LowEscape, RawOffset;
    DecodeAppend(a, b);
    if a == [] {
      assert RawOffset(a + b, 0) == 0 by { OffsetZero(a + b); }
    } else {
      var w := NextUnit(a).width;
      if w == |a| {
        assert a[w..] == [];
      }
      UnitAppend(a, b);
      CutUnique(a[w..], b);
      assert (a + b)[w..] == a[w..] + b;
      RawOffsetStep(a + b, |Decode(a)|);
    }
  }

  lemma OffsetZero(s: bytes)
    ensures RawOffset(s, 0) == 0
  {
  }

  /** What a string interior spells is valid UTF-8. */
  lemma {:induction false} DecodeValid(raw: bytes)
    requires Interior(raw)
    ensures Utf8.Valid(Decode(raw))
    decreases |raw|
  {
    hide NextUnit, WellUnit, RuneSize;
    if raw != [] {
      UnitOut(raw);
      DecodeValid(raw[NextUnit(raw).width..]);
      OneRuneValid(NextUnit(raw).out);
      ValidAppend(NextUnit(raw).out, Decode(raw[NextUnit(raw).width..]));
    }
  }

  predicate Ascii(s: bytes) {
    forall i :: 0 <= i < |s| ==> s[i] < 0x80
  }

  /** Every replacement is ASCII text, not empty. */
  ghost predicate AsciiRepls(ws: seq<Window>) {
    forall i :: 0 <= i < |ws| ==> ws[i].repl != [] && Ascii(ws[i].repl)
  }

  // --------------------------------------------------------------- the undoing windows edit

  lemma SliceValid(v: bytes, start: nat, end: nat)
    requires Utf8.Valid(v) && Aligned(v, start) && Aligned(v, end) && start <= end
    ensures Utf8.Valid(v[start..end])
  {
    ValidCut(v, end);
    assert start < end ==> v[..end][start] == v[start];
    ValidCut(v[..end], start);
    assert v[..end][start..] == v[start..end];
  }

  /** The first byte of a spliced text cuts no rune. */
  lemma SplicesStartAligned(v: bytes, ws: seq<Window>, from: nat)
    requires Edits(v, ws) && AsciiRepls(ws) && Aligned(v, from) && (ws != [] ==> from <= ws[0].start)
    ensures Ordered(ws, from, |v|)
    ensures Splices(v, ws, from) != [] ==> !IsTail(Splices(v, ws, from)[0])
  {
    EditsOrdered(v, ws, from);
    if ws != [] {
      assert Editable(v, ws[0]);
    }
  }

  lemma {:induction false} InverseEdits(v: bytes, ws: seq<Window>, from: nat, before: bytes)
    requires Utf8.Valid(v) && Edits(v, ws) && AsciiRepls(ws) && Aligned(v, from) && (ws != [] ==> from <= ws[0].start)
    ensures Ordered(ws, from, |v|)
    ensures Edits(before + Splices(v, ws, from), Inverse(v, ws, from, |before|))
    decreases |ws|
  {
    hide Utf8.Valid, Splices, IsTail, Inverse, Aligned, Editable, Ordered, Ascii;
    AlignedIn(v, from);
    EditsOrdered(v, ws, from);
    var text, back := before + Splices(v, ws, from), Inverse(v, ws, from, |before|);
    InverseUnfold(v, ws, from, |before|);
    if ws != [] {
      var w := ws[0];
      EditsTail(v, ws);
      EditableFacts(v, w);
      SplicesUnfold(v, ws, from);
      var gap, rest := v[from..w.start], Splices(v, ws[1..], w.end);
      var before' := before + gap + w.repl;
      Assoc(before, gap, w.repl + rest);
      Assoc(before + gap, w.repl, rest);
      InverseEdits(v, ws[1..], w.end, before');
      SliceValid(v, w.start, w.end);
      SplicesStartAligned(v, ws[1..], w.end);
      FirstUndone(before + gap, w.repl, rest, v[w.start..w.end]);
      assert back[0] == Window(|before + gap|, |before + gap| + |w.repl|, v[w.start..w.end]);
      assert back[1..] == Inverse(v, ws[1..], w.end, |before'|);
      BackOrdered(v, ws, from, before);
      ConsEdits(text, back);
    }
  }

  lemma AlignedIn(v: bytes, at: nat)
    requires Aligned(v, at)
    ensures at <= |v|
  {
  }

  lemma BackOrdered(v: bytes, ws: seq<Window>, from: nat, before: bytes)
    requires Ordered(ws, from, |v|)
    ensures Ordered(Inverse(v, ws, from, |before|), 0, |before + Splices(v, ws, from)|)
  {
    hide Splices, Inverse;
    SpliceBack(v, ws, from, before);
  }

  lemma FirstUndone(before: bytes, repl: bytes, rest: bytes, was: bytes)
    requires repl != [] && Ascii(repl) && (rest != [] ==> !IsTail(rest[0])) && was != [] && Utf8.Valid(was)
    ensures Editable(before + repl + rest, Window(|before|, |before| + |repl|, was))
  {
    var text := before + repl + rest;
    assert text[|before|] == repl[0];
    assert rest != [] ==> text[|before| + |repl|] == rest[0];
  }

  lemma ConsEdits(text: bytes, ws: seq<Window>)
    requires ws != [] && Editable(text, ws[0]) && ws[0].repl != [] && Edits(text, ws[1..])
    requires Ordered(ws, 0, |text|)
    ensures Edits(text, ws)
  {
    hide Editable;
    forall i | 0 <= i < |ws| ensures Editable(text, ws[i]) {
      if i > 0 {
        assert ws[1..][i - 1] == ws[i];
      }
    }
    forall i, j | 0 <= i < j < |ws| ensures ws[i].repl == [] ==> ws[i].end < ws[j].start {
      if i > 0 {
        assert ws[1..][i - 1] == ws[i] && ws[1..][j - 1] == ws[j];
      }
    }
  }

  // ------------------------------------------------------------------- one level, lifted

  /** What is replaced is spelled as escapeJSONString spells it. */
  ghost predicate SpelledPlainly(raw: bytes, ws: seq<Window>)
    requires Edits(Decode(raw), ws)
  {
    forall i :: 0 <= i < |ws| ==> SpelledAt(raw, ws[i])
  }

  ghost predicate SpelledAt(raw: bytes, w: Window) {
    && w.start <= w.end <= |Decode(raw)| && RawOffset(raw, w.start) <= RawOffset(raw, w.end)
    && Escape(Decode(raw)[w.start..w.end]) == raw[RawOffset(raw, w.start)..RawOffset(raw, w.end)]
  }

  /** Windows of a decoded text, lifted, without asking that they can be edited. */
  ghost predicate LiftsTo(raw: bytes, ws: seq<Window>, up: seq<Window>) {
    |ws| == |up| && forall i :: 0 <= i < |ws| ==>
      ws[i].start <= |Decode(raw)| && ws[i].end <= |Decode(raw)| && LiftWindow(raw, ws[i]) == up[i]
  }

  lemma AsciiLow(p: bytes)
    requires p != [] && Ascii(p)
    ensures Utf8.Valid(p) && Escape(p) != [] && LowEscape(Escape(p)).None? && !EndsHigh(Escape(p))
    ensures Interior(Escape(p)) && Decode(Escape(p)) == p
  {
    AsciiValid(p);
    EscapeDecodes(p);
    EscapeEmpty(p);
  }

  /** Both cuts around the first replacement. */
  lemma FirstLifted(before: bytes, p: bytes, tail: bytes, was: bytes)
    requires Interior(before) && Interior(tail) && p != [] && Ascii(p)
    ensures
      var raw1 := before + (Escape(p) + tail);
      && Interior(raw1) && Decode(raw1) == Decode(before) + (p + Decode(tail))
      && LiftsTo(raw1, [Window(|Decode(before)|, |Decode(before)| + |p|, was)],
                 [Window(|before|, |before| + |Escape(p)|, Escape(was))])
    ensures Interior(before + Escape(p)) && Decode(before + Escape(p)) == Decode(before) + p
            && !EndsHigh(before + Escape(p))
  {
    hide Interior, Decode, EndsHigh, LowEscape, Escape, RawOffset, WellUnit, NextUnit;
    AsciiLow(p);
    var e := Escape(p);
    InteriorHead(e);
    LowEscapeAppend(e, tail);
    DecodeAppend(e, tail);
    DecodeAppend(before, e + tail);
    DecodeAppend(before, e);
    EndsHighAppend(before, e);
    CutUnique(before, e + tail);
    CutUnique(before + e, tail);
    Assoc(before, e, tail);
  }

  lemma LiftsCons(raw: bytes, ws: seq<Window>, up: seq<Window>)
    requires ws != [] && up != [] && LiftsTo(raw, [ws[0]], [up[0]]) && LiftsTo(raw, ws[1..], up[1..])
    ensures LiftsTo(raw, ws, up)
  {
    hide Decode, RawOffset;
    forall i | 0 <= i < |ws|
      ensures ws[i].start <= |Decode(raw)| && ws[i].end <= |Decode(raw)| && LiftWindow(raw, ws[i]) == up[i]
    {
      if i == 0 {
        assert [ws[0]][0] == ws[0] && [up[0]][0] == up[0];
      } else {
        assert ws[1..][i - 1] == ws[i] && up[1..][i - 1] == up[i];
      }
    }
  }

  lemma {:induction false} InverseLifts(raw: bytes, ws: seq<Window>, from: nat, before: bytes)
    requires Interior(raw) && Edits(Decode(raw), ws) && AsciiRepls(ws) && SpelledPlainly(raw, ws)
    requires Aligned(Decode(raw), from) && (ws != [] ==> from <= ws[0].start)
    requires Interior(before) && !EndsHigh(before)
    ensures Ordered(ws, from, |Decode(raw)|) && Ordered(Lift(raw, ws), RawOffset(raw, from), |raw|)
    ensures LiftsTo(before + Splices(raw, Lift(raw, ws), RawOffset(raw, from)),
                    Inverse(Decode(raw), ws, from, |Decode(before)|),
                    Inverse(raw, Lift(raw, ws), RawOffset(raw, from), |before|))
    decreases |ws|
  {
    hide Interior, Decode, EndsHigh, LowEscape, Escape, UnitEnd, RawOffset, Splices, Ordered, SpelledAt, Editable;
    hide Inverse, LiftsTo;
    LevelPut(raw, ws, from);
    InverseUnfold(Decode(raw), ws, from, |Decode(before)|);
    InverseUnfold(raw, Lift(raw, ws), RawOffset(raw, from), |before|);
    if ws == [] {
      NothingLifts(before + Splices(raw, Lift(raw, ws), RawOffset(raw, from)));
    } else {
      var w, lifted := ws[0], Lift(raw, ws);
      var r, q, e := RawOffset(raw, from), RawOffset(raw, w.start), RawOffset(raw, w.end);
      EditsTail(Decode(raw), ws);
      EditableFacts(Decode(raw), w);
      assert lifted[0] == Window(q, e, Escape(w.repl)) && lifted[1..] == Lift(raw, ws[1..]);
      SplicesUnfold(raw, lifted, r);
      CutBetween(raw, from, w.start);
      var gap, tail := raw[r..q], Splices(raw, lifted[1..], e);
      LevelPut(raw, ws[1..], w.end);
      DecodeAppend(before, gap);
      FirstLifted(before + gap, w.repl, tail, Decode(raw)[w.start..w.end]);
      assert SpelledAt(raw, w);
      FirstSpelled(raw, w);
      InverseLifts(raw, ws[1..], w.end, before + gap + Escape(w.repl));
      Assoc(before, gap, Escape(w.repl) + tail);
      Assoc(before + gap, Escape(w.repl), tail);
      LiftsCons(before + Splices(raw, lifted, r),
                Inverse(Decode(raw), ws, from, |Decode(before)|), Inverse(raw, lifted, r, |before|));
    }
  }

  lemma FirstSpelled(raw: bytes, w: Window)
    requires SpelledAt(raw, w)
    ensures w.start <= w.end <= |Decode(raw)| && RawOffset(raw, w.start) <= RawOffset(raw, w.end)
    ensures Escape(Decode(raw)[w.start..w.end]) == raw[RawOffset(raw, w.start)..RawOffset(raw, w.end)]
  {
  }

  lemma NothingLifts(raw: bytes)
    ensures LiftsTo(raw, [], [])
  {
  }
}
