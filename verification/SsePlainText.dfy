/**
 Streams of text that is not JSON. Over a whole run, however the text is cut into events, the
 joined data is the leftmost batch rewrite of the joined text, with every placeholder of the
 grammar restored.
 */
module SsePlainText {
  import opened Bytes
  import opened Sse
  import opened SseLaws
  import opened Holdback
  import opened HoldbackPlaceholder
  import opened Reassembly
  import opened ReassemblyInv
  import opened SseRun
  import opened SseText
  import opened SsePlain
  import opened SseIdentity

  /** No data value is JSON. */
  ghost predicate AllText(env: Env, events: seq<Event>)
    requires AllOk(events)
  {
    forall ev :: ev in events ==> SpanOk(ev) && IsText(env, ev)
  }

  predicate IsText(env: Env, ev: Event)
    requires EventOk(ev)
  {
    |ev.dataSpans| == 1 ==> !env.valid(SegmentOf(ev).Value())
  }

  lemma TextHead(env: Env, events: seq<Event>)
    requires AllOk(events) && events != [] && AllText(env, events)
    ensures EventOk(events[0]) && IsText(env, events[0]) && AllOk(events[1..]) && AllText(env, events[1..])
  {
    OneOk(events);
    assert events == [events[0]] + events[1..];
  }

  /** Two rewrites that agree on every token settle alike. */
  lemma {:induction false} SettleSame(m: Matcher, f: Rewrite, g: Rewrite, p: bytes)
    requires forall t :: f(t) == g(t)
    ensures Settle(m, f, p) == Settle(m, g, p)
    decreases |p|
  {
    hide Settle;
    SettleUnfold(m, f, p);
    SettleUnfold(m, g, p);
    if p != [] && Match(m, p) > 0 {
      SettleSame(m, f, g, p[Match(m, p)..]);
    } else if p != [] && !Open(m, p) {
      SettleSame(m, f, g, p[1..]);
    }
  }

  /** For text that is not JSON nothing is spelled for a leaf. */
  lemma TextFeed(env: Env, value: bytes)
    requires Lawful(env) && !env.valid(value)
    ensures forall t :: Replacer(env, SpellFeed(env, value))(t) == Restorer(env)(t)
  {
    hide ContainsPrefix;
  }

  /** One piece of text, on the raw path. */
  lemma TextSettles(env: Env, held: bytes, value: bytes, rest: bytes)
    requires Lawful(env) && !env.valid(value) && Fits(MATCHER, held + value + rest)
    ensures
      var (out, tail) := Release(MATCHER, Replacer(env, SpellFeed(env, value)), held + value);
      && Batch(MATCHER, Restorer(env), held + value + rest) == out + Batch(MATCHER, Restorer(env), tail + rest)
      && Fits(MATCHER, tail + rest) && (tail == [] || Open(MATCHER, tail))
  {
    hide Settle, Batch, Fits, Open, SpellFeed, Release;
    var f := Replacer(env, SpellFeed(env, value));
    NothingDropped(f, held + value);
    TextFeed(env, value);
    SettleSame(MATCHER, f, Restorer(env), held + value);
    SettleIsBatch(MATCHER, Restorer(env), held + value, rest);
  }

  /** What has left, and what the queue and the rest of the text are to become. */
  ghost predicate Restores(env: Env, st: St, text: bytes, r: Step, rest: bytes) {
    && Data(r.released) + (Data(r.st.segments) + Batch(MATCHER, Restorer(env), r.st.held + rest))
       == Data(st.segments) + Batch(MATCHER, Restorer(env), st.held + text + rest)
    && Fits(MATCHER, r.st.held + rest) && (r.st.held == [] || Open(MATCHER, r.st.held))
  }

  lemma TextAccepted(env: Env, st: St, ev: Event, rest: bytes)
    requires Lawful(env) && Shape(st) && EventOk(ev) && IsText(env, ev)
    requires (st.held == [] || Open(MATCHER, st.held)) && Fits(MATCHER, st.held + DataOf(ev) + rest)
    ensures PartsOk(st) && Restores(env, st, DataOf(ev), Accept(env, st, ev), rest)
  {
    hide Shape, Batch, Fits, Open, AcceptRaw, Data, SegmentOf;
    ShapeParts(st);
    var seg := SegmentOf(ev);
    SpanIs(ev);
    if |ev.dataSpans| == 1 {
      TextRaw(env, st, seg, rest);
    } else {
      assert st.held + [] == st.held;
      DataAppend(st.segments, [seg]);
      DataOne(seg);
      var st1 := st.(segments := st.segments + [seg]);
      assert st1.segments[..|st1.segments|] == st1.segments && st1.segments[|st1.segments|..] == [];
      NoData();
      var now := Batch(MATCHER, Restorer(env), st.held + rest);
      assert [] + (Data(st.segments) + now) == Data(st.segments) + now && [] + now == now;
      assert Data(st.segments) + [] == Data(st.segments);
    }
  }

  lemma SpanIs(ev: Event)
    requires EventOk(ev)
    ensures SegmentOf(ev).hasSpan <==> |ev.dataSpans| == 1
  {
  }

  lemma TextRaw(env: Env, st: St, seg: Segment, rest: bytes)
    requires Lawful(env) && seg.Ok() && seg.hasSpan && !env.valid(seg.Value())
    requires Fits(MATCHER, st.held + seg.Value() + rest)
    ensures Restores(env, st, seg.Value(), AcceptRaw(env, st, seg), rest)
  {
    hide Batch, Fits, Open, AcceptRaw, Data, Release, SpellFeed, Queues;
    var r := AcceptRaw(env, st, seg);
    TextSettles(env, st.held, seg.Value(), rest);
    RawQueues(env, st, seg);
    var (out, tail) := Release(MATCHER, Replacer(env, SpellFeed(env, seg.Value())), st.held + seg.Value());
    QueuesOwed(st, r, seg, out);
    var more := Batch(MATCHER, Restorer(env), tail + rest);
    Assoc(Data(r.released), Data(r.st.segments), more);
    Assoc(Data(st.segments), out, more);
  }

  /**
   A run of text, from any state: what leaves and what is queued is what was queued and the
   batch rewrite of the tail that was held and the run's text.
   */
  lemma {:induction false} TextRun(env: Env, st: St, events: seq<Event>)
    requires Lawful(env) && Shape(st) && AllOk(events) && AllText(env, events)
    requires forall ev :: ev in events ==> EventOk(ev)
    requires (st.held == [] || Open(MATCHER, st.held)) && Fits(MATCHER, st.held + DataIn(events))
    ensures
      var r := RunEvents(env, st, events);
      Data(r.released) + Owed(r.st) == Data(st.segments) + Batch(MATCHER, Restorer(env), st.held + DataIn(events))
    decreases |events|
  {
    hide Accept, Shape, Batch, Fits, Open, Data, DataOf, SegmentOf;
    if events == [] {
      NoData();
      assert st.held + [] == st.held && [] + Owed(st) == Owed(st);
      HeldAsIs(env, st.held);
    } else {
      var ev, rest := events[0], events[1..];
      TextHead(env, events);
      AcceptShape(env, st, ev);
      Assoc(st.held, DataOf(ev), DataIn(rest));
      TextAccepted(env, st, ev, DataIn(rest));
      var first := Accept(env, st, ev);
      TextRun(env, first.st, rest);
      var more := RunEvents(env, first.st, rest);
      DataAppend(first.released, more.released);
      Assoc(Data(first.released), Data(more.released), Owed(more.st));
    }
  }

  /** A tail that is all prefix is its own rewrite. */
  lemma HeldAsIs(env: Env, held: bytes)
    requires (held == [] || Open(MATCHER, held)) && Fits(MATCHER, held)
    ensures Batch(MATCHER, Restorer(env), held) == held
  {
    hide Open, HeadAgrees;
    if held != [] {
      assert held[..|held|] == held && HeadAgrees(MATCHER, held, held[..|held|]);
      OpenClear(held);
      BatchOfNoMatch(MATCHER, Restorer(env), held);
    } else {
      BatchOfNothing(Restorer(env));
    }
  }

  lemma OpenClear(held: bytes)
    requires HeadAgrees(MATCHER, held, held) && Open(MATCHER, held)
    ensures NoMatchInside(MATCHER, held)
  {
    hide Open;
  }

  /**
   A whole stream of text: its data, joined, is the batch rewrite of the joined text when the
   leftmost matches of that text are placeholders of the grammar. Where events cut the text
   does not show.
   */
  lemma TextRestored(env: Env, events: seq<Event>)
    requires Lawful(env) && AllOk(events) && AllText(env, events)
    requires forall ev :: ev in events ==> EventOk(ev)
    requires ScanTyped(DataIn(events))
    ensures Data(History(env, events)) == Restored(env, DataIn(events))
  {
    hide Shape, AllText, Closing, Owed, RunEvents, Data, DataIn, EventOk, SpanOk, ScanTyped, Fits, Open, Batch;
    EmptyShape();
    TypedFits(DataIn(events));
    assert [] + DataIn(events) == DataIn(events);
    TextRun(env, EMPTY, events);
    var r := RunEvents(env, EMPTY, events);
    ClosingOwed(r.st);
    DataAppend(r.released, Closing(r.st));
    NoData();
    var text := Batch(MATCHER, Restorer(env), DataIn(events));
    assert [] + text == text;
  }
}
