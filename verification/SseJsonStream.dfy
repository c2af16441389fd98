/**
 A stream with nothing to restore whose single-line data values are all JSON: when it comes
 out byte for byte.
 */
module SseJsonStream {
  import opened Bytes
  import opened Sse
  import opened SseLaws
  import opened Lens
  import opened Placeholder
  import opened Holdback
  import opened HoldbackPlaceholder
  import opened SsePlain
  import opened Reassembly
  import opened ReassemblyInv
  import opened SseRun
  import opened SseStream
  import opened SseIdentity



  /** A JSON text never ends in part of a placeholder: `_` occurs in strings only, and they are closed. */
  ghost predicate JsonEnds(env: Env) {
    forall v, i :: env.valid(v) && 0 <= i < |v| ==> !Extendable(v[i..])
  }

  predicate JsonOnly(env: Env, ev: Event)
    requires EventOk(ev)
  {
    |ev.dataSpans| == 1 ==> env.valid(SegmentOf(ev).Value())
  }

  predicate Untouched(s: Segment) {
    s.Ok() && (s.hasSpan ==> s.content == s.Value())
  }

  predicate AllUntouched(segs: seq<Segment>) {
    forall s :: s in segs ==> Untouched(s)
  }

  lemma {:induction false} SettleOpen(f: Rewrite, s: bytes)
    ensures Settle(MATCHER, f, s).1 == [] || Open(MATCHER, Settle(MATCHER, f, s).1)
    decreases |s|
  {
    hide TokenLen, PrefixLen, Settle;
    SettleUnfold(MATCHER, f, s);
    if s != [] && !(Match(MATCHER, s) == 0 && Open(MATCHER, s)) {
      SettleOpen(f, s[HoldbackPlaceholder.Step(s)..]);
    }
  }

  lemma JsonHoldsNothing(env: Env, value: bytes)
    requires Identity(env) && Lawful(env) && JsonEnds(env) && env.valid(value) && PlainScan(value)
    ensures Release(MATCHER, Replacer(env, SpellFeed(env, value)), [] + value) == (value, [])
  {
    hide SpellFeed, Settle, PlainScan, TokenLen, PrefixLen, Extendable, Open;
    var f := Replacer(env, SpellFeed(env, value));
    RawSettles(env, [], value);
    assert [] + value == value;
    NothingDropped(f, value);
    SettleOpen(f, value);
    var (out, tail) := Settle(MATCHER, f, value);
    assert value[|out|..] == tail;
    if tail != [] {
      OpenIsExtendable(tail);
      assert false;
    }
    assert out + [] == out;
  }

  lemma QueuesUntouched(st: St, r: Step, seg: Segment)
    requires AllUntouched(st.segments) && seg.Ok() && Queues(st, r, seg, seg.Value())
    ensures AllUntouched(r.released) && AllUntouched(r.st.segments)
  {
    var x :| SameFrame(x, seg) && x.content == seg.Value() && r.released + r.st.segments == st.segments + [x];
    var all := st.segments + [x];
    assert Untouched(x);
    assert forall s :: s in all ==> s in st.segments || s == x;
    assert forall s :: s in r.released ==> s in r.released + r.st.segments;
    assert forall s :: s in r.st.segments ==> s in r.released + r.st.segments;
  }

  lemma AcceptUntouched(env: Env, st: St, ev: Event)
    requires Identity(env) && Lawful(env) && JsonEnds(env)
    requires PartsOk(st) && EventOk(ev) && EventPlain(env, ev) && JsonOnly(env, ev)
    requires st.held == [] && AllUntouched(st.segments)
    ensures
      var r := Accept(env, st, ev);
      r.st.held == [] && AllUntouched(r.released) && AllUntouched(r.st.segments)
  {
    var seg, r := SegmentOf(ev), Accept(env, st, ev);
    if |ev.dataSpans| == 1 {
      hide AcceptLeaf, AcceptRaw, Queues, PlainScan, AllUntouched, Release;
      match UsableLeaves(env, seg.Value())
      case Some(leaves) =>
        LeafKeeps(env, st, seg, leaves);
        QueuesUntouched(st, r, seg);
      case None =>
        JsonHoldsNothing(env, seg.Value());
        RawQueues(env, st, seg);
        QueuesUntouched(st, r, seg);
    } else {
      assert Untouched(seg);
      assert forall s :: s in st.segments + [seg] ==> s in st.segments || s == seg;
    }
  }

  lemma {:induction false} RunUntouched(env: Env, st: St, events: seq<Event>)
    requires Identity(env) && Lawful(env) && JsonEnds(env)
    requires Shape(st) && AllOk(events) && AllPlain(env, events)
    requires forall ev :: ev in events ==> SpanOk(ev) && JsonOnly(env, ev)
    requires st.held == [] && AllUntouched(st.segments)
    ensures
      var r := RunEvents(env, st, events);
      r.st.held == [] && AllUntouched(r.released) && AllUntouched(r.st.segments)
    decreases |events|
  {
    hide Accept, Shape, EventPlain, JsonOnly, Untouched;
    if events != [] {
      var ev := events[0];
      OneOk(events);
      PlainHead(env, events);
      AcceptShape(env, st, ev);
      AcceptUntouched(env, st, ev);
      RunUntouched(env, Accept(env, st, ev).st, events[1..]);
    }
  }

  lemma {:induction false} RenderUntouched(segs: seq<Segment>, events: seq<Event>)
    requires AllUntouched(segs) && forall ev :: ev in events ==> EventOk(ev)
    requires SameFrames(segs, SegmentsOf(events))
    ensures SegsOk(segs) && RenderAll(segs) == Raws(events)
    decreases |events|
  {
    if events != [] {
      SameFramesTail(segs, events);
      var s := segs[0];
      assert Untouched(s) && s.raw == s.raw[..s.span.start] + s.Value() + s.raw[s.span.end..];
      RenderUntouched(segs[1..], events[1..]);
    }
  }

  lemma SameFramesTail(segs: seq<Segment>, events: seq<Event>)
    requires forall ev :: ev in events ==> EventOk(ev)
    requires SameFrames(segs, SegmentsOf(events)) && events != []
    ensures SameFrame(segs[0], SegmentOf(events[0])) && SameFrames(segs[1..], SegmentsOf(events[1..]))
  {
    forall i | 0 <= i < |segs[1..]| ensures SameFrame(segs[1..][i], SegmentsOf(events[1..])[i]) {
      assert SameFrame(segs[i + 1], SegmentsOf(events)[i + 1]);
    }
  }

  /** What a stream's output gains in length, its data gains. */
  lemma {:induction false} RenderLength(segs: seq<Segment>, events: seq<Event>)
    requires SegsOk(segs) && forall ev :: ev in events ==> EventOk(ev)
    requires SameFrames(segs, SegmentsOf(events))
    ensures |RenderAll(segs)| + |DataIn(events)| == |Raws(events)| + |Data(segs)|
    decreases |events|
  {
    if events != [] {
      SameFramesTail(segs, events);
      assert segs[0] in segs;
      RenderLength(segs[1..], events[1..]);
    }
  }

  /**
   With nothing to restore, a stream whose single-line data values are all JSON comes out
   byte for byte exactly when each of them that takes the raw path scans plain.
   */
  lemma JsonStreamUnchanged(env: Env, chunks: seq<bytes>)
    requires Identity(env) && Lawful(env) && JsonEnds(env)
    ensures Live(FRESH) && AllOk(SseLaws.Decode(chunks))
    ensures
      (forall ev :: ev in SseLaws.Decode(chunks) ==> SpanOk(ev) && JsonOnly(env, ev)) ==>
        (Output(env, FRESH, chunks) == Concat(chunks) <==> AllPlain(env, SseLaws.Decode(chunks)))
  {
    hide AllPlain, Shape, SameFrames, AllUntouched, Output, SseLaws.Decode, Concat, SpanOk;
    hide RunEvents, Closing, Data, Raws, RenderAll, DataIn, SseStream.Tail, JsonOnly;
    OutputFrames(env, chunks);
    var events := SseLaws.Decode(chunks);
    HistoryFrames(env, events);
    DataConserved(env, events);
    RenderLength(History(env, events), events);
    if (forall ev :: ev in events ==> SpanOk(ev) && JsonOnly(env, ev)) && AllPlain(env, events) {
      EmptyShape();
      NothingQueued();
      RunUntouched(env, EMPTY, events);
      ClosingUntouched(env, events);
      RenderUntouched(History(env, events), events);
    }
  }

  lemma NothingQueued()
    ensures AllUntouched(EMPTY.segments)
  {
  }

  lemma ClosingUntouched(env: Env, events: seq<Event>)
    requires AllOk(events)
    requires Shape(EMPTY)
    requires
      var r := RunEvents(env, EMPTY, events);
      r.st.held == [] && AllUntouched(r.released) && AllUntouched(r.st.segments)
    ensures AllUntouched(History(env, events))
  {
    hide RunEvents, Untouched;
    var st := RunEvents(env, EMPTY, events).st;
    var i := PendingFrom(st.segments, 0);
    if i < |st.segments| {
      assert st.segments[i].content + [] == st.segments[i].content;
      assert Closing(st) == st.segments;
    }
  }
}
