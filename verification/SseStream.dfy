/**
 The reassembler as its caller sees it: bytes written in chunks, bytes returned, Flush. What
 a whole stream emits does not depend on how it was cut into chunks, and is every dispatched
 record, once and in order, with nothing but its single data value replaced.
 */
module SseStream {
  import opened Bytes
  import opened Sse
  import opened SseLaws
  import opened Reassembly
  import opened ReassemblyInv
  import opened SseRun

  datatype Session = Session(dec: State, st: St, closed: bool)

  const FRESH := Session(START, EMPTY, false)

  ghost predicate Live(s: Session) {
    SpansOk(s.dec) && Shape(s.st)
  }

  lemma FreshIsLive()
    ensures Live(FRESH)
  {
    EmptyShape();
  }

  ghost function WriteSpec(env: Env, s: Session, chunk: bytes): (r: (Session, bytes))
    requires Live(s)
    ensures Live(r.0)
  {
    if s.closed then (s, []) else
    var (dec, events) := FeedSpec(s.dec, chunk);
    FeedSpans(s.dec, chunk);
    var run := RunEvents(env, s.st, events);
    RunReleases(env, s.st, events);
    (Session(dec, run.st, false), RenderAll(run.released))
  }

  ghost function FlushSpec(env: Env, s: Session): bytes
    requires Live(s)
  {
    if s.closed then [] else
    var (dec, events) := CloseSpec(s.dec);
    CloseSpans(s.dec);
    var run := RunEvents(env, s.st, events);
    RunReleases(env, s.st, events);
    ClosingOk(run.st);
    RenderAll(run.released) + (RenderAll(Closing(run.st)) + dec.buf)
  }

  /** Everything a stream returns: the Writes in order, then Flush. */
  ghost function Output(env: Env, s: Session, chunks: seq<bytes>): bytes
    requires Live(s)
    decreases |chunks|
  {
    if chunks == [] then FlushSpec(env, s) else
    var (s1, out) := WriteSpec(env, s, chunks[0]);
    out + Output(env, s1, chunks[1..])
  }

  lemma RunReleases(env: Env, st: St, events: seq<Event>)
    requires Shape(st) && AllOk(events)
    ensures SegsOk(RunEvents(env, st, events).released) && SegsOk(RunEvents(env, st, events).st.segments)
  {
    hide RunEvents;
    RunFrames(env, st, events);
    var r := RunEvents(env, st, events);
    var all := st.segments + SegmentsOf(events);
    forall s | s in all ensures s.Ok() {
      assert s in st.segments || s in SegmentsOf(events);
    }
    FramesOk(r.released + r.st.segments, all);
    assert forall s :: s in r.released ==> s in r.released + r.st.segments;
    assert forall s :: s in r.st.segments ==> s in r.released + r.st.segments;
  }

  lemma {:induction false} RenderAppend(a: seq<Segment>, b: seq<Segment>)
    requires SegsOk(a) && SegsOk(b)
    ensures SegsOk(a + b) && RenderAll(a + b) == RenderAll(a) + RenderAll(b)
  {
    if a == [] {
      assert a + b == b;
    } else {
      assert forall s :: s in a[1..] ==> s in a;
      RenderAppend(a[1..], b);
      assert (a + b)[1..] == a[1..] + b && (a + b)[0] == a[0];
      assert a[0] in a;
      Assoc(a[0].Bytes(), RenderAll(a[1..]), RenderAll(b));
    }
  }

  /** The events of a stream, the tail that was never dispatched, and the bytes of both. */
  function Tail(chunks: seq<bytes>): bytes {
    CloseSpec(FeedAll(START, chunks).0).0.buf
  }

  lemma {:induction false} FeedAllSpans(st: State, chunks: seq<bytes>)
    requires SpansOk(st)
    ensures SpansOk(FeedAll(st, chunks).0) && AllOk(FeedAll(st, chunks).1)
    decreases |chunks|
  {
    hide FeedSpec, SpansOk, SpanOk;
    SpansValid(st);
    if chunks != [] {
      FeedSpans(st, chunks[0]);
      SpansValid(FeedSpec(st, chunks[0]).0);
      FeedAllSpans(FeedSpec(st, chunks[0]).0, chunks[1..]);
    }
  }

  lemma SpansValid(st: State)
    requires SpansOk(st)
    ensures st.Valid()
  {
  }

  /** The segments a session still releases: those of the events to come, and the closing. */
  ghost function Remaining(env: Env, s: Session, chunks: seq<bytes>): (segs: seq<Segment>)
    requires Live(s)
    ensures SegsOk(segs)
  {
    var (dec, events) := FeedAll(s.dec, chunks);
    FeedAllSpans(s.dec, chunks);
    CloseSpans(dec);
    var all := events + CloseSpec(dec).1;
    var run := RunEvents(env, s.st, all);
    RunReleases(env, s.st, all);
    ClosingOk(run.st);
    RenderAppend(run.released, Closing(run.st));
    run.released + Closing(run.st)
  }

  lemma RemainingFlush(env: Env, s: Session)
    requires Live(s) && !s.closed
    ensures FlushSpec(env, s) == RenderAll(Remaining(env, s, [])) + CloseSpec(s.dec).0.buf
  {
    var (dec, events) := CloseSpec(s.dec);
    assert [] + events == events;
    CloseSpans(s.dec);
    var run := RunEvents(env, s.st, events);
    RunReleases(env, s.st, events);
    ClosingOk(run.st);
    RenderAppend(run.released, Closing(run.st));
    Assoc(RenderAll(run.released), RenderAll(Closing(run.st)), dec.buf);
  }

  lemma RemainingWrite(env: Env, s: Session, chunks: seq<bytes>)
    requires Live(s) && !s.closed && chunks != []
    ensures
      var (s1, out) := WriteSpec(env, s, chunks[0]);
      RenderAll(Remaining(env, s, chunks)) == out + RenderAll(Remaining(env, s1, chunks[1..]))
  {
    var (dec1, ev1) := FeedSpec(s.dec, chunks[0]);
    var (dec, rest) := FeedAll(dec1, chunks[1..]);
    FeedSpans(s.dec, chunks[0]);
    FeedAllSpans(dec1, chunks[1..]);
    CloseSpans(dec);
    var ev2 := rest + CloseSpec(dec).1;
    hide SpansOk, FeedSpec, CloseSpec, RunEvents, SpanOk;
    assert AllOk(ev2);
    Assoc(ev1, rest, CloseSpec(dec).1);
    RunAppend(env, s.st, ev1, ev2);
    var run1 := RunEvents(env, s.st, ev1);
    var run2 := RunEvents(env, run1.st, ev2);
    RunReleases(env, s.st, ev1);
    RunReleases(env, run1.st, ev2);
    ClosingOk(run2.st);
    RenderAppend(run2.released, Closing(run2.st));
    RenderAppend(run1.released, run2.released + Closing(run2.st));
    Assoc(run1.released, run2.released, Closing(run2.st));
  }

  lemma {:induction false} OutputIsRemaining(env: Env, s: Session, chunks: seq<bytes>)
    requires Live(s) && !s.closed
    ensures Output(env, s, chunks) ==
            RenderAll(Remaining(env, s, chunks)) + CloseSpec(FeedAll(s.dec, chunks).0).0.buf
    decreases |chunks|
  {
    if chunks == [] {
      RemainingFlush(env, s);
    } else {
      hide FlushSpec, WriteSpec, Remaining, CloseSpec;
      RemainingWrite(env, s, chunks);
      var (s1, out) := WriteSpec(env, s, chunks[0]);
      WriteKeepsOpen(env, s, chunks[0]);
      OutputIsRemaining(env, s1, chunks[1..]);
      Assoc(out, RenderAll(Remaining(env, s1, chunks[1..])), CloseSpec(FeedAll(s1.dec, chunks[1..]).0).0.buf);
    }
  }

  lemma WriteKeepsOpen(env: Env, s: Session, chunk: bytes)
    requires Live(s) && !s.closed
    ensures !WriteSpec(env, s, chunk).0.closed
    ensures WriteSpec(env, s, chunk).0.dec == FeedSpec(s.dec, chunk).0
  {
  }

  lemma DecodeOk(chunks: seq<bytes>)
    ensures AllOk(Decode(chunks))
  {
    FeedAllSpans(START, chunks);
    CloseSpans(FeedAll(START, chunks).0);
  }

  /**
   What a whole stream emits: every record's bytes, once and in order, with only the content
   of its single data value replaced, and then the bytes that were never dispatched.
   */
  lemma OutputFrames(env: Env, chunks: seq<bytes>)
    ensures Live(FRESH) && AllOk(Decode(chunks))
    ensures SegsOk(History(env, Decode(chunks)))
    ensures SameFrames(History(env, Decode(chunks)), SegmentsOf(Decode(chunks)))
    ensures Output(env, FRESH, chunks) == RenderAll(History(env, Decode(chunks))) + Tail(chunks)
    ensures Raws(Decode(chunks)) + Tail(chunks) == Concat(chunks)
  {
    hide Shape, SameFrames, RunEvents, SpanOk;
    FreshIsLive();
    DecodeOk(chunks);
    HistoryFrames(env, Decode(chunks));
    OutputIsRemaining(env, FRESH, chunks);
    var (dec, events) := FeedAll(START, chunks);
    FeedConserves(START, chunks);
    CloseConserves(dec);
    RawsAppend(events, CloseSpec(dec).1);
    Assoc(Raws(events), Raws(CloseSpec(dec).1), Tail(chunks));
    assert [] + Concat(chunks) == Concat(chunks);
  }

  /** End to end, the bytes emitted do not depend on where the stream was cut. */
  lemma OutputChunkIndependence(env: Env, chunks: seq<bytes>)
    ensures Live(FRESH)
    ensures Output(env, FRESH, chunks) == Output(env, FRESH, [Concat(chunks)])
  {
    hide History, RunEvents, Output, CloseSpec, SameFrames, Shape;
    OutputFrames(env, chunks);
    OutputFrames(env, [Concat(chunks)]);
    DecodeChunkIndependence(chunks);
    ChunkIndependence(START, chunks);
    ChunkIndependence(START, [Concat(chunks)]);
    ConcatOne(Concat(chunks));
  }
}
