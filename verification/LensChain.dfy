/**
 The lens through any number of nested strings (pkg/protocol/span.go:118-141,
 pkg/protocol/spelling.go:61-72): splicing RawSpelling(x) at RawSpan(start, end) changes, at
 every level of decoding, exactly the window it is meant to change.
 */
module LensChain {
  import opened Bytes
  import opened Utf8
  import opened Lens
  import opened LensLaws
  import opened LensPut
  import opened Splice

  function Put(s: bytes, w: Window): bytes
    requires w.start <= w.end <= |s|
  {
    s[..w.start] + w.repl + s[w.end..]
  }

  /** The document a chain leads to: what the innermost string spells. */
  function DocOf(c: Chain, body: bytes): bytes {
    match c
    case Root => body
    case Tok(raw, _, _) => Decode(raw)
  }

  /** The string with interior `raw` opens at `start` in doc. */
  ghost predicate QuotedAt(doc: bytes, start: nat, raw: bytes) {
    && start + |raw| + 1 < |doc|
    && doc[start] == QUOTE
    && doc[start + 1..start + 1 + |raw|] == raw
    && doc[start + 1 + |raw|] == QUOTE
  }

  /** Every string of the chain stands in the document around it. */
  ghost predicate Located(c: Chain, body: bytes) {
    match c
    case Root => true
    case Tok(raw, start, parent) =>
      Located(parent, body) && Interior(raw) && QuotedAt(DocOf(parent, body), start, raw)
  }

  lemma RootLocated(body: bytes)
    ensures Located(Root, body)
  {
  }

  /** A window of a chain's document, as a window of the document around it. */
  function Outward(raw: bytes, start: nat, w: Window): Window
    requires w.start <= |Decode(raw)| && w.end <= |Decode(raw)|
  {
    LiftWindow(raw, w).Shift(start + 1)
  }

  /** The chain after an edit of its document: every interior changes, no place does. */
  ghost function PutChain(c: Chain, body: bytes, w: Window): Chain
    requires Located(c, body) && Editable(DocOf(c, body), w)
  {
    match c
    case Root => Root
    case Tok(raw, start, parent) =>
      OutwardEditable(raw, start, DocOf(parent, body), w);
      Tok(Put(raw, LiftWindow(raw, w)), start, PutChain(parent, body, Outward(raw, start, w)))
  }

  /** The window of the body that a window of the chain's document stands for. */
  ghost function BodyWindow(c: Chain, body: bytes, w: Window): (r: Window)
    requires Located(c, body) && Editable(DocOf(c, body), w)
    ensures r.start < r.end <= |body|
  {
    match c
    case Root => w
    case Tok(raw, start, parent) =>
      OutwardEditable(raw, start, DocOf(parent, body), w);
      BodyWindow(parent, body, Outward(raw, start, w))
  }

  lemma LiftFacts(raw: bytes, w: Window)
    requires Interior(raw) && Editable(Decode(raw), w)
    ensures
      var l := LiftWindow(raw, w);
      && l.start < l.end <= |raw| && Utf8.Valid(l.repl)
      && (l.repl == [] <==> w.repl == [])
      && !IsTail(raw[l.start]) && (l.end < |raw| ==> !IsTail(raw[l.end]))
      && (w.repl == [] && l.end < |raw| ==> raw[l.end] < 0x80)
  {
    hide Interior, Decode, UnitEnd, Escape;
    CutsAscend(raw, w.start, w.end);
    CutByte(raw, w.start);
    CutAt(raw, w.end);
    EscapeValid(w.repl);
    EscapeEmpty(w.repl);
    if w.end < |Decode(raw)| {
      CutByte(raw, w.end);
    }
  }

  /** An editable window is editable in the document around, too. */
  lemma OutwardEditable(raw: bytes, start: nat, outer: bytes, w: Window)
    requires Interior(raw) && Editable(Decode(raw), w) && QuotedAt(outer, start, raw)
    ensures Editable(outer, Outward(raw, start, w))
  {
    hide Interior, Decode, RawOffset, Escape;
    LiftFacts(raw, w);
    var l := LiftWindow(raw, w);
    assert outer[start + 1..start + 1 + |raw|] == raw;
    assert outer[start + 1 + l.start] == raw[l.start];
    assert l.end < |raw| ==> outer[start + 1 + l.end] == raw[l.end];
  }

  lemma AlignedStart(raw: bytes)
    requires Interior(raw)
    ensures Aligned(Decode(raw), 0)
  {
    if raw != [] {
      UnitOut(raw);
    }
  }

  lemma LevelPutOne(raw: bytes, w: Window)
    requires Interior(raw) && Editable(Decode(raw), w)
    ensures
      var l := LiftWindow(raw, w);
      && l.start < l.end <= |raw|
      && Interior(Put(raw, l)) && Decode(Put(raw, l)) == Put(Decode(raw), w)
  {
    hide Interior, Decode, UnitEnd, Escape, Splices, Ordered, Put, LowEscape;
    LiftFacts(raw, w);
    AlignedStart(raw);
    LevelPut(raw, [w], 0);
    assert Lift(raw, [w]) == [LiftWindow(raw, w)];
    SplicesOne(raw, LiftWindow(raw, w));
    SplicesOne(Decode(raw), w);
  }

  lemma SplicesOne(s: bytes, w: Window)
    requires w.start <= w.end <= |s|
    ensures Ordered([w], 0, |s|) && Splices(s, [w], 0) == Put(s, w)
  {
    assert [w][1..] == [];
    assert Splices(s, [], w.end) == s[w.end..];
    Assoc(s[..w.start], w.repl, s[w.end..]);
  }

  lemma QuotedPut(outer: bytes, start: nat, raw: bytes, l: Window)
    requires QuotedAt(outer, start, raw) && l.start <= l.end <= |raw|
    ensures l.Shift(start + 1).end <= |outer|
    ensures QuotedAt(Put(outer, l.Shift(start + 1)), start, Put(raw, l))
  {
    var o := l.Shift(start + 1);
    assert outer[start + 1..start + 1 + |raw|] == raw;
    assert outer[..o.start] == outer[..start + 1] + raw[..l.start];
    assert outer[o.end..] == raw[l.end..] + outer[start + 1 + |raw|..];
    var after := Put(outer, o);
    assert after == outer[..start + 1] + Put(raw, l) + outer[start + 1 + |raw|..];
  }

  /**
   Put/get: after the splice each string of the chain stands where it stood, and the chain's
   document is the old one with exactly the window replaced.
   */
  lemma {:induction false} PutGet(c: Chain, body: bytes, w: Window)
    requires Located(c, body) && Editable(DocOf(c, body), w)
    ensures
      var body' := Put(body, BodyWindow(c, body, w));
      && Located(PutChain(c, body, w), body')
      && DocOf(PutChain(c, body, w), body') == Put(DocOf(c, body), w)
  {
    match c
    case Root =>
    case Tok(raw, start, parent) =>
      hide Interior, Decode, RawOffset, Escape, Editable, QuotedAt, Put, PutChain, BodyWindow, Outward;
      OutwardEditable(raw, start, DocOf(parent, body), w);
      PutGet(parent, body, Outward(raw, start, w));
      PutStep(raw, start, parent, body, w);
  }

  lemma PutStep(raw: bytes, start: nat, parent: Chain, body: bytes, w: Window)
    requires Located(Tok(raw, start, parent), body) && Editable(Decode(raw), w)
    requires Editable(DocOf(parent, body), Outward(raw, start, w))
    requires
      var o := Outward(raw, start, w);
      var body' := Put(body, BodyWindow(parent, body, o));
      && Located(PutChain(parent, body, o), body')
      && DocOf(PutChain(parent, body, o), body') == Put(DocOf(parent, body), o)
    ensures
      var c := Tok(raw, start, parent);
      var body' := Put(body, BodyWindow(c, body, w));
      && Located(PutChain(c, body, w), body')
      && DocOf(PutChain(c, body, w), body') == Put(Decode(raw), w)
  {
    LevelPutOne(raw, w);
    QuotedPut(DocOf(parent, body), start, raw, LiftWindow(raw, w));
    hide Interior, Decode, RawOffset, Escape, Editable, QuotedAt, Put;
  }

  /** The window the law speaks of is the one RawSpan and RawSpelling compute. */
  lemma {:induction false} WindowIsRawSpan(c: Chain, body: bytes, w: Window)
    requires Located(c, body) && Editable(DocOf(c, body), w)
    ensures
      var b := BodyWindow(c, body, w);
      && RawSpan(c, w.start, w.end) == Some(Range(b.start, b.end))
      && RawSpelling(c, w.repl) == b.repl
  {
    match c
    case Root =>
    case Tok(raw, start, parent) =>
      hide Interior, Decode, RawOffset, Escape, QuotedAt, MapSpan, Editable, BodyWindow, RawSpan, RawSpelling;
      OutwardEditable(raw, start, DocOf(parent, body), w);
      WindowIsRawSpan(parent, body, Outward(raw, start, w));
      WindowStep(raw, start, parent, body, w);
  }

  lemma WindowStep(raw: bytes, start: nat, parent: Chain, body: bytes, w: Window)
    requires Located(Tok(raw, start, parent), body) && Editable(Decode(raw), w)
    requires Editable(DocOf(parent, body), Outward(raw, start, w))
    ensures
      var c, o := Tok(raw, start, parent), Outward(raw, start, w);
      && BodyWindow(c, body, w) == BodyWindow(parent, body, o)
      && RawSpan(c, w.start, w.end) == RawSpan(parent, o.start, o.end)
      && RawSpelling(c, w.repl) == RawSpelling(parent, o.repl)
  {
    hide Interior, Decode, RawOffset, Escape, QuotedAt, MapSpan;
    EditableFacts(Decode(raw), w);
    MapSpanCuts(raw, w.start, w.end);
    hide Editable, DocOf;
  }

  /** The nesting is kept: same depth, same places. */
  ghost predicate SamePlaces(c: Chain, d: Chain) {
    match (c, d)
    case (Root, Root) => true
    case (Tok(_, i, p), Tok(_, j, q)) => i == j && SamePlaces(p, q)
    case _ => false
  }

  lemma {:induction false} PutKeepsPlaces(c: Chain, body: bytes, w: Window)
    requires Located(c, body) && Editable(DocOf(c, body), w)
    ensures SamePlaces(c, PutChain(c, body, w))
  {
    match c
    case Root =>
    case Tok(raw, start, parent) =>
      OutwardEditable(raw, start, DocOf(parent, body), w);
      PutKeepsPlaces(parent, body, Outward(raw, start, w));
  }

  /**
   The law on the source's own terms: splice RawSpelling(x) at RawSpan(start, end) of a leaf,
   and the leaf decodes, level by level, to its value with [start, end) replaced by x.
   */
  lemma NestedPutGet(c: Chain, body: bytes, start: nat, end: nat, x: bytes)
    requires c.Tok? && Located(c, body)
    requires start < end && Aligned(Decode(c.raw), start) && Aligned(Decode(c.raw), end)
    requires x != [] && Utf8.Valid(x)
    ensures
      var value := Decode(c.raw);
      exists r, c' ::
        && RawSpan(c, start, end) == Some(r) && 0 <= r.start < r.end <= |body|
        && SamePlaces(c, c') && c'.Tok?
        && Located(c', body[..r.start] + RawSpelling(c, x) + body[r.end..])
        && Decode(c'.raw) == value[..start] + x + value[end..]
  {
    hide Located, Interior, Decode, RawSpan, RawSpelling;
    var w := Window(start, end, x);
    PutGet(c, body, w);
    WindowIsRawSpan(c, body, w);
    PutKeepsPlaces(c, body, w);
    var b, c' := BodyWindow(c, body, w), PutChain(c, body, w);
    var r := Range(b.start, b.end);
    assert Located(c', body[..r.start] + RawSpelling(c, x) + body[r.end..]);
  }
}
