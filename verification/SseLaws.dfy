/**
 What the decoder promises (pkg/protocol/sse.go:11-57): a chunk may end at any byte, every
 byte is kept, and each event is the decoding of its own raw bytes.
 */
module SseLaws {
  import opened Bytes
  import opened Sse

  // ---------------------------------------------------------------- chunk independence

  /** Every chunk fed in order, without closing. */
  function FeedAll(st: State, chunks: seq<bytes>): (r: (State, seq<Event>))
    requires st.Valid()
    ensures r.0.Valid()
    decreases |chunks|
  {
    if chunks == [] then (st, []) else
    var (st1, ev1) := FeedSpec(st, chunks[0]);
    var (st2, ev2) := FeedAll(st1, chunks[1..]);
    (st2, ev1 + ev2)
  }

  /** A whole stream: the chunks, then Close. */
  function Decode(chunks: seq<bytes>): seq<Event> {
    var (st, ev) := FeedAll(START, chunks);
    ev + CloseSpec(st).1
  }

  lemma EolFromAppend(buf: bytes, more: bytes, from: nat)
    requires from <= |buf| && EolFrom(buf, from) < |buf|
    ensures EolFrom(buf + more, from) == EolFrom(buf, from)
  {
    assert forall k :: 0 <= k < |buf| ==> (buf + more)[k] == buf[k];
  }

  lemma NextLineAppend(buf: bytes, more: bytes, start: nat)
    requires start <= |buf| && NextLine(buf, start, false).Some?
    ensures NextLine(buf + more, start, false) == NextLine(buf, start, false)
  {
    EolFromAppend(buf, more, start);
  }

  lemma OnLineAppend(st: State, l: Line, more: bytes)
    requires st.Valid() && l.start == st.scan <= l.end <= l.next <= |st.buf|
    ensures OnLine(st.Append(more), l) == (OnLine(st, l).0.Append(more), OnLine(st, l).1)
  {
    assert (st.buf + more)[..l.end] == st.buf[..l.end];
    assert (st.buf + more)[..l.next] == st.buf[..l.next];
    assert (st.buf + more)[l.next..] == st.buf[l.next..] + more;
    if l.start < l.end {
      assert ColonOf(st.buf + more, l) == ColonOf(st.buf, l);
      assert NameOf(st.buf + more, l) == NameOf(st.buf, l);
      assert ValueOf(st.buf + more, l) == ValueOf(st.buf, l);
    }
  }

  /** Scanning, then receiving more bytes, then scanning, is scanning once at the end. */
  lemma {:induction false} ScanAppend(st: State, more: bytes)
    requires st.Valid()
    ensures
      var (st1, ev1) := Scan(st, false);
      var (st2, ev2) := Scan(st1.Append(more), false);
      Scan(st.Append(more), false) == (st2, ev1 + ev2)
    decreases |st.buf| - st.scan
  {
    match NextLine(st.buf, st.scan, false)
    case None =>
      assert [] + Scan(st.Append(more), false).1 == Scan(st.Append(more), false).1;
    case Some(l) =>
      NextLineAppend(st.buf, more, st.scan);
      OnLineAppend(st, l, more);
      ScanUnfold(st, false, l);
      ScanUnfold(st.Append(more), false, l);
      var (st1, ev) := OnLine(st, l);
      ScanAppend(st1, more);
      Assoc(ev, Scan(st1, false).1, Scan(Scan(st1, false).0.Append(more), false).1);
  }

  lemma FeedJoin(st: State, a: bytes, b: bytes)
    requires st.Valid()
    ensures
      var (st1, ev1) := FeedSpec(st, a);
      var (st2, ev2) := FeedSpec(st1, b);
      FeedSpec(st, a + b) == (st2, ev1 + ev2)
  {
    Assoc(st.buf, a, b);
    var both := st.Append(a + b);
    assert st.Append(a).Append(b) == both;
    ScanAppend(st.Append(a), b);
  }

  /** A state whose complete lines are all consumed. */
  ghost predicate Quiet(st: State) {
    st.Valid() && NextLine(st.buf, st.scan, false).None?
  }

  lemma {:induction false} ScanIsQuiet(st: State)
    requires st.Valid()
    ensures Quiet(Scan(st, false).0)
    decreases |st.buf| - st.scan
  {
    match NextLine(st.buf, st.scan, false)
    case None =>
    case Some(l) => ScanIsQuiet(OnLine(st, l).0);
  }

  /** However the bytes are cut, decoder state and events are those of one single chunk. */
  lemma {:induction false} ChunkIndependence(st: State, chunks: seq<bytes>)
    requires Quiet(st)
    ensures FeedAll(st, chunks) == FeedSpec(st, Concat(chunks))
    decreases |chunks|
  {
    if chunks == [] {
      assert st.Append([]) == st by {
        assert st.buf + [] == st.buf;
      }
    } else {
      ScanIsQuiet(st.Append(chunks[0]));
      ChunkIndependence(FeedSpec(st, chunks[0]).0, chunks[1..]);
      FeedJoin(st, chunks[0], Concat(chunks[1..]));
    }
  }

  lemma DecodeChunkIndependence(chunks: seq<bytes>)
    ensures Decode(chunks) == Decode([Concat(chunks)])
  {
    ChunkIndependence(START, chunks);
    ChunkIndependence(START, [Concat(chunks)]);
    assert Concat([Concat(chunks)]) == Concat(chunks) by {
      assert Concat([Concat(chunks)]) == Concat(chunks) + Concat([]);
    }
  }

  // ------------------------------------------------------------------ byte conservation

  function Raws(events: seq<Event>): bytes {
    if events == [] then [] else events[0].raw + Raws(events[1..])
  }

  lemma {:induction false} RawsAppend(a: seq<Event>, b: seq<Event>)
    ensures Raws(a + b) == Raws(a) + Raws(b)
  {
    if a == [] {
      assert a + b == b;
    } else {
      RawsAppend(a[1..], b);
      assert (a + b)[1..] == a[1..] + b;
      assert (a + b)[0] == a[0];
      assert Raws(a + b) == a[0].raw + (Raws(a[1..]) + Raws(b));
    }
  }

  lemma OnLineConserves(st: State, l: Line)
    requires st.Valid() && l.start == st.scan <= l.end <= l.next <= |st.buf|
    ensures Raws(OnLine(st, l).1) + OnLine(st, l).0.buf == st.buf
  {
    var ev := OnLine(st, l).1;
    if ev != [] {
      assert ev[1..] == [];
      assert Raws(ev) == st.buf[..l.next];
    }
  }

  lemma {:induction false} ScanConserves(st: State, final: bool)
    requires st.Valid()
    ensures Raws(Scan(st, final).1) + Scan(st, final).0.buf == st.buf
    decreases |st.buf| - st.scan
  {
    match NextLine(st.buf, st.scan, final)
    case None =>
    case Some(l) =>
      var (st1, ev1) := OnLine(st, l);
      ScanUnfold(st, final, l);
      OnLineConserves(st, l);
      ScanConserves(st1, final);
      RawsAppend(ev1, Scan(st1, final).1);
      Assoc(Raws(ev1), Raws(Scan(st1, final).1), Scan(st1, final).0.buf);
  }

  /** Every byte fed is in some event's raw bytes, in order, or still buffered. */
  lemma {:induction false} FeedConserves(st: State, chunks: seq<bytes>)
    requires st.Valid()
    ensures Raws(FeedAll(st, chunks).1) + FeedAll(st, chunks).0.buf == st.buf + Concat(chunks)
    decreases |chunks|
  {
    if chunks != [] {
      var (st1, ev1) := FeedSpec(st, chunks[0]);
      ScanConserves(st.Append(chunks[0]), false);
      FeedConserves(st1, chunks[1..]);
      var (st2, ev2) := FeedAll(st1, chunks[1..]);
      RawsAppend(ev1, ev2);
      Assoc(Raws(ev1), Raws(ev2), st2.buf);
      Assoc(Raws(ev1), st1.buf, Concat(chunks[1..]));
      Assoc(st.buf, chunks[0], Concat(chunks[1..]));
    }
  }

  // ------------------------------------------------------------- the single data span

  /** The span kept for a single data line selects exactly the data collected so far. */
  ghost predicate SpansOk(st: State) {
    && st.Valid()
    && |st.rec.spans| <= 1
    && (st.rec.dataN == 0 ==> st.rec.data == [])
    && (|st.rec.spans| == 1 ==>
          && st.rec.dataN == 1
          && st.rec.spans[0].start <= st.rec.spans[0].end <= st.scan
          && st.buf[st.rec.spans[0].start..st.rec.spans[0].end] == st.rec.data)
  }

  /** An event's data span, when it has one, selects its data inside its raw bytes. */
  ghost predicate SpanOk(ev: Event) {
    && |ev.dataSpans| <= 1
    && (|ev.dataSpans| == 1 ==>
          && ev.dataSpans[0].start <= ev.dataSpans[0].end <= |ev.raw|
          && ev.raw[ev.dataSpans[0].start..ev.dataSpans[0].end] == ev.data)
  }

  lemma OnLineSpans(st: State, l: Line)
    requires SpansOk(st) && l.start == st.scan <= l.end <= l.next <= |st.buf|
    ensures SpansOk(OnLine(st, l).0)
    ensures forall ev :: ev in OnLine(st, l).1 ==> SpanOk(ev)
  {
    if l.start < l.end {
      assert ValueOf(st.buf, l) == st.buf[ValueStart(st.buf, l)..l.end];
      assert [] + ValueOf(st.buf, l) == ValueOf(st.buf, l);
    } else if st.rec.dataN > 0 && |st.rec.spans| == 1 {
      var sp := st.rec.spans[0];
      assert st.buf[..l.next][sp.start..sp.end] == st.buf[sp.start..sp.end];
    }
  }

  lemma {:induction false} ScanSpans(st: State, final: bool)
    requires SpansOk(st)
    ensures SpansOk(Scan(st, final).0)
    ensures forall ev :: ev in Scan(st, final).1 ==> SpanOk(ev)
    decreases |st.buf| - st.scan
  {
    hide OnLine, NextLine;
    match NextLine(st.buf, st.scan, final)
    case None =>
    case Some(l) =>
      OnLineSpans(st, l);
      ScanSpans(OnLine(st, l).0, final);
  }

  lemma FeedSpans(st: State, chunk: bytes)
    requires SpansOk(st)
    ensures SpansOk(FeedSpec(st, chunk).0)
    ensures forall ev :: ev in FeedSpec(st, chunk).1 ==> SpanOk(ev)
  {
    hide Scan;
    if |st.rec.spans| == 1 {
      var sp := st.rec.spans[0];
      assert (st.buf + chunk)[sp.start..sp.end] == st.buf[sp.start..sp.end];
    }
    ScanSpans(st.Append(chunk), false);
  }

  lemma CloseSpans(st: State)
    requires SpansOk(st)
    ensures forall ev :: ev in CloseSpec(st).1 ==> SpanOk(ev)
  {
    hide Scan;
    ScanSpans(st, true);
    var st1 := Scan(st, true).0;
    if st1.rec.dataN > 0 && |st1.rec.spans| == 1 {
      var sp := st1.rec.spans[0];
      assert st1.buf[..st1.scan][sp.start..sp.end] == st1.buf[sp.start..sp.end];
    }
  }

  /** Close dispatches or keeps every buffered byte. */
  lemma CloseConserves(st: State)
    requires st.Valid()
    ensures Raws(CloseSpec(st).1) + CloseSpec(st).0.buf == st.buf
  {
    hide Scan;
    ScanConserves(st, true);
    var (st1, ev) := Scan(st, true);
    if st1.rec.dataN > 0 {
      var last := [EventOf(st1)];
      assert last[1..] == [] && Raws(last) == st1.buf[..st1.scan];
      RawsAppend(ev, last);
      Assoc(Raws(ev), Raws(last), AfterDispatch(st1).buf);
      assert Raws(last) + AfterDispatch(st1).buf == st1.buf;
    }
  }
}
