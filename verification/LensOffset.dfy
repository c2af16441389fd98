/**
 Offsets through nested strings: an offset of a leaf has one place in the body, places keep
 their order, and a window whose bytes already spell its replacement changes no text.
 */
module LensOffset {
  import opened Bytes
  import opened Utf8
  import opened Lens
  import opened LensLaws
  import opened LensPut
  import opened LensChain
  import opened Splice

  lemma OutwardAligned(raw: bytes, at: nat, outer: bytes, o: nat)
    requires Interior(raw) && Aligned(Decode(raw), o) && QuotedAt(outer, at, raw)
    ensures Aligned(outer, RawOffset(raw, o) + at + 1)
  {
    hide Interior, Decode, UnitEnd;
    var r := RawOffset(raw, o);
    assert outer[at + 1..at + 1 + |raw|] == raw;
    if o < |Decode(raw)| {
      CutByte(raw, o);
      assert outer[at + 1 + r] == raw[r];
    } else {
      CutAt(raw, o);
    }
  }

  /** The place in the body of an offset of the chain's document. */
  ghost function BodyOffset(c: Chain, body: bytes, o: nat): (r: nat)
    requires Located(c, body) && Aligned(DocOf(c, body), o)
  {
    match c
    case Root => o
    case Tok(raw, at, parent) =>
      OutwardAligned(raw, at, DocOf(parent, body), o);
      BodyOffset(parent, body, RawOffset(raw, o) + at + 1)
  }

  lemma OffsetStep(c: Chain, body: bytes, o: nat)
    requires c.Tok? && Located(c, body) && Aligned(Decode(c.raw), o)
    ensures Located(c.parent, body) && Interior(c.raw) && QuotedAt(DocOf(c.parent, body), c.start, c.raw)
    ensures o <= |Decode(c.raw)| && Aligned(DocOf(c.parent, body), RawOffset(c.raw, o) + c.start + 1)
    ensures BodyOffset(c, body, o) == BodyOffset(c.parent, body, RawOffset(c.raw, o) + c.start + 1)
  {
    hide Interior, Decode, QuotedAt, RawOffset;
    OutwardAligned(c.raw, c.start, DocOf(c.parent, body), o);
  }

  lemma MapSpanAligned(raw: bytes, start: nat, end: nat)
    requires Interior(raw) && Aligned(Decode(raw), start) && Aligned(Decode(raw), end) && start <= end
    ensures MapSpan(raw, start, end) == Some(Range(RawOffset(raw, start), RawOffset(raw, end)))
  {
    hide Interior;
    CutAt(raw, start);
  }

  /** RawSpan takes both ends of a span to their places. */
  lemma {:induction false} SpanPlaces(c: Chain, body: bytes, start: nat, end: nat)
    requires Located(c, body) && Aligned(DocOf(c, body), start) && Aligned(DocOf(c, body), end) && start <= end
    ensures RawSpan(c, start, end) == Some(Range(BodyOffset(c, body, start), BodyOffset(c, body, end)))
  {
    hide Interior, Decode, MapSpan, Aligned, RawOffset, QuotedAt, Located;
    if c.Tok? {
      OffsetStep(c, body, start);
      OffsetStep(c, body, end);
      MapSpanAligned(c.raw, start, end);
      CutsKeepOrder(c.raw, start, end);
      SpanPlaces(c.parent, body, RawOffset(c.raw, start) + c.start + 1, RawOffset(c.raw, end) + c.start + 1);
      RawSpanTok(c, start, end);
    } else {
      RootPlaces(body, start, end);
    }
  }

  lemma RootPlaces(body: bytes, start: nat, end: nat)
    requires Aligned(body, start) && Aligned(body, end) && Located(Root, body)
    ensures RawSpan(Root, start, end) == Some(Range(start, end))
    ensures BodyOffset(Root, body, start) == start && BodyOffset(Root, body, end) == end
  {
  }

  lemma CutsKeepOrder(raw: bytes, o: nat, p: nat)
    requires Interior(raw) && Aligned(Decode(raw), o) && Aligned(Decode(raw), p) && o <= p
    ensures RawOffset(raw, o) <= RawOffset(raw, p)
    ensures o < p ==> RawOffset(raw, o) < RawOffset(raw, p)
  {
    hide Interior, Decode, RawOffset;
    CutsAscend(raw, o, p);
  }

  /** Places keep the order of the offsets. */
  lemma {:induction false} PlacesAscend(c: Chain, body: bytes, o: nat, p: nat)
    requires Located(c, body) && Aligned(DocOf(c, body), o) && Aligned(DocOf(c, body), p) && o < p
    ensures BodyOffset(c, body, o) < BodyOffset(c, body, p)
  {
    hide Interior, Decode, Aligned, RawOffset, QuotedAt, Located, BodyOffset;
    if c.Tok? {
      OffsetStep(c, body, o);
      OffsetStep(c, body, p);
      CutsKeepOrder(c.raw, o, p);
      PlacesAscend(c.parent, body, RawOffset(c.raw, o) + c.start + 1, RawOffset(c.raw, p) + c.start + 1);
    } else {
      RootPlaces(body, o, p) by { assert Located(Root, body) by { RootLocated(body); } }
    }
  }

  // -------------------------------------------------------------- windows that change nothing

  lemma SliceIn(s: bytes, at: nat, n: nat, i: nat, j: nat)
    requires at + n <= |s| && i <= j <= n
    ensures s[at..at + n][i..j] == s[at + i..at + j]
  {
    var t, u := s[at..at + n][i..j], s[at + i..at + j];
    assert forall k :: 0 <= k < |t| ==> t[k] == s[at + i + k];
    assert t == u;
  }

  lemma OutwardSame(raw: bytes, at: nat, outer: bytes, w: Window)
    requires Interior(raw) && Editable(Decode(raw), w) && QuotedAt(outer, at, raw)
    ensures
      var o := Outward(raw, at, w);
      o.start <= o.end <= |outer| && (outer[o.start..o.end] == o.repl ==> Decode(raw)[w.start..w.end] == w.repl)
  {
    hide Interior, Decode, RawOffset, Escape;
    CutBetween(raw, w.start, w.end);
    EscapeDecodes(w.repl);
    var l := LiftWindow(raw, w);
    assert l.start <= l.end <= |raw|;
    SliceIn(outer, at + 1, |raw|, l.start, l.end);
  }

  /** If the body bytes of a window already are its replacement, its text is, too. */
  lemma {:induction false} SameBytesSameText(c: Chain, body: bytes, w: Window)
    requires Located(c, body) && Editable(DocOf(c, body), w)
    requires var b := BodyWindow(c, body, w); body[b.start..b.end] == b.repl
    ensures w.start <= w.end <= |DocOf(c, body)| && DocOf(c, body)[w.start..w.end] == w.repl
  {
    EditableFacts(DocOf(c, body), w);
    match c
    case Root =>
    case Tok(raw, at, parent) =>
      hide Interior, Decode, RawOffset, Escape, Editable, QuotedAt, Outward;
      OutwardEditable(raw, at, DocOf(parent, body), w);
      SameBytesSameText(parent, body, Outward(raw, at, w));
      OutwardSame(raw, at, DocOf(parent, body), w);
  }
}
