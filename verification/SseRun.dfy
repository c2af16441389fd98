/** Whole runs of the reassembler: the events in order, then Flush. */
module SseRun {
  import opened Bytes
  import opened Sse
  import opened SseLaws
  import opened Lens
  import opened Apply
  import opened Placeholder
  import opened Holdback
  import opened Reassembly
  import opened ReassemblyInv

  ghost predicate AllOk(events: seq<Event>) {
    forall ev :: ev in events ==> SpanOk(ev)
  }

  lemma OneOk(events: seq<Event>)
    requires AllOk(events) && events != []
    ensures EventOk(events[0]) && AllOk(events[1..])
  {
    assert events[0] in events;
  }

  /** The events, one after the other. */
  ghost function RunEvents(env: Env, st: St, events: seq<Event>): (r: Step)
    requires Shape(st) && AllOk(events)
    ensures Shape(r.st)
    decreases |events|
  {
    if events == [] then Step(st, []) else
    OneOk(events);
    AcceptShape(env, st, events[0]);
    var first := Accept(env, st, events[0]);
    first.Then(RunEvents(env, first.st, events[1..]))
  }

  lemma {:induction false} RunAppend(env: Env, st: St, a: seq<Event>, b: seq<Event>)
    requires Shape(st) && AllOk(a) && AllOk(b)
    ensures AllOk(a + b)
    ensures RunEvents(env, st, a + b) == RunEvents(env, st, a).Then(RunEvents(env, RunEvents(env, st, a).st, b))
    decreases |a|
  {
    hide Accept, Shape, SpanOk, EventOk;
    if a == [] {
      assert a + b == b;
    } else {
      OneOk(a);
      AcceptShape(env, st, a[0]);
      var first := Accept(env, st, a[0]);
      RunAppend(env, first.st, a[1..], b);
      assert (a + b)[1..] == a[1..] + b && (a + b)[0] == a[0];
      var mid := RunEvents(env, first.st, a[1..]);
      Assoc(first.released, mid.released, RunEvents(env, mid.st, b).released);
    }
  }

  /** The closing of a run: the writer's tail is handed over and the queue is released. */
  function Closing(st: St): seq<Segment> {
    var i := PendingFrom(st.segments, 0);
    if i < |st.segments| then AppendContent(st.segments, i, st.held) else st.segments
  }

  /** Every segment a whole stream releases, in order. */
  ghost function History(env: Env, events: seq<Event>): seq<Segment>
    requires AllOk(events)
  {
    EmptyShape();
    var r := RunEvents(env, EMPTY, events);
    r.released + Closing(r.st)
  }

  lemma EmptyShape()
    ensures Shape(EMPTY)
  {
  }

  lemma ShapeSegs(st: St)
    requires Shape(st)
    ensures SegsOk(st.segments)
  {
  }

  lemma ClosingOk(st: St)
    requires SegsOk(st.segments)
    ensures SegsOk(Closing(st)) && |Closing(st)| == |st.segments|
  {
    var i := PendingFrom(st.segments, 0);
    if i < |st.segments| {
      assert st.segments[i] in st.segments;
    }
  }

  // ---------------------------------------------------------------- order and framing

  /** b is a with nothing but contents and edits changed. */
  ghost predicate SameFrames(a: seq<Segment>, b: seq<Segment>) {
    |a| == |b| && forall i :: 0 <= i < |a| ==> SameFrame(a[i], b[i])
  }

  predicate SameFrame(a: Segment, b: Segment) {
    a.raw == b.raw && a.span == b.span && a.hasSpan == b.hasSpan
  }

  function SegmentsOf(events: seq<Event>): (segs: seq<Segment>)
    requires forall ev :: ev in events ==> EventOk(ev)
    ensures |segs| == |events|
    ensures forall i :: 0 <= i < |events| ==> segs[i] == SegmentOf(events[i])
  {
    seq(|events|, i requires 0 <= i < |events| => SegmentOf(events[i]))
  }

  lemma FramesRefl(a: seq<Segment>)
    ensures SameFrames(a, a)
  {
  }

  lemma FramesTrans(a: seq<Segment>, b: seq<Segment>, c: seq<Segment>)
    requires SameFrames(a, b) && SameFrames(b, c)
    ensures SameFrames(a, c)
  {
  }

  lemma FramesAppend(a: seq<Segment>, b: seq<Segment>, c: seq<Segment>, d: seq<Segment>)
    requires SameFrames(a, b) && SameFrames(c, d)
    ensures SameFrames(a + c, b + d)
  {
  }

  lemma FramesOk(a: seq<Segment>, b: seq<Segment>)
    requires SameFrames(a, b) && SegsOk(b)
    ensures SegsOk(a)
  {
    forall s | s in a ensures s.Ok() {
      var i :| 0 <= i < |a| && a[i] == s;
      assert SameFrame(a[i], b[i]) && b[i] in b;
    }
  }

  lemma ReleaseFrames(st: St, n: nat)
    requires n <= |st.segments|
    ensures ReleaseSegs(st, n).released + ReleaseSegs(st, n).st.segments == st.segments
  {
  }

  lemma FlushFrames(st: St)
    ensures FlushHeld(st).released == st.segments && FlushHeld(st).st.segments == []
  {
  }

  lemma HandoffFrames(st: St)
    ensures SameFrames(Handoff(st).segments, st.segments)
  {
  }

  /** Releasing what is queued and queueing one more: every step but Complete. */
  lemma FlushThenDrain(st: St, st1: St, seg: Segment)
    requires |st1.segments| == 1 && SameFrame(st1.segments[0], seg)
    ensures
      var r := FlushHeld(st).Then(Drain(st1));
      SameFrames(r.released + r.st.segments, st.segments + [seg])
  {
    FlushFrames(st);
    ReleaseFrames(st1, DrainCount(st1, 0));
    Assoc(st.segments, Drain(st1).released, Drain(st1).st.segments);
  }

  lemma DrainFrames(st: St, seg: Segment, st1: St)
    requires SameFrames(st1.segments, st.segments + [seg])
    ensures
      var r := Drain(st1);
      SameFrames(r.released + r.st.segments, st.segments + [seg])
  {
    ReleaseFrames(st1, DrainCount(st1, 0));
  }

  /** What leaves and what stays are the queue and one more segment with this content. */
  ghost predicate Queues(st: St, r: Step, seg: Segment, content: bytes) {
    exists x :: SameFrame(x, seg) && x.content == content && r.released + r.st.segments == st.segments + [x]
  }

  lemma FlushThenQueues(st: St, st1: St, seg: Segment, content: bytes)
    requires |st1.segments| == 1 && SameFrame(st1.segments[0], seg) && st1.segments[0].content == content
    ensures Queues(st, FlushHeld(st).Then(Drain(st1)), seg, content)
  {
    FlushFrames(st);
    ReleaseFrames(st1, DrainCount(st1, 0));
    Assoc(st.segments, Drain(st1).released, Drain(st1).st.segments);
    assert st1.segments == [st1.segments[0]];
  }

  lemma DrainQueues(st: St, st1: St, x: Segment, seg: Segment)
    requires st1.segments == st.segments + [x] && SameFrame(x, seg)
    ensures Queues(st, Drain(st1), seg, x.content)
  {
    ReleaseFrames(st1, DrainCount(st1, 0));
  }

  lemma {:induction false} DeleteFrames(env: Env, segs: seq<Segment>, parts: seq<Part>)
    requires SegsOk(segs) && forall p :: p in parts ==> p.seg < |segs|
    ensures SameFrames(DeleteParts(env, segs, parts), segs)
    decreases |parts|
  {
    hide ContentWith;
    if parts != [] {
      assert segs[parts[0].seg] in segs;
      var segs1 := EditHeld(env, segs, parts[0], []);
      assert SameFrames(segs1, segs);
      DeleteFrames(env, segs1, parts[1..]);
      FramesTrans(DeleteParts(env, segs, parts), segs1, segs);
    }
  }

  lemma AcceptLeafFrames(env: Env, st: St, seg: Segment, leaves: seq<Leaf>)
    requires seg.Ok() && PartsOk(st)
    ensures
      var r := AcceptLeaf(env, st, seg, leaves);
      SameFrames(r.released + r.st.segments, st.segments + [seg])
  {
    hide ContentWith, DrainCount, SameFrames, FitsBudget, TokenLen, PrefixLen;
    if st.carry == [] {
      AcceptFreshFrames(env, st, seg, leaves);
    } else {
      match UniqueMatch(leaves, st.carryKey)
      case None =>
        FlushFrames(st);
        FlushThenDrain(st, HoldOrEmit(FlushHeld(st).st, seg, ContentWith(env, seg.Value(), leaves, []), [],
          TrailingPrefix(leaves)), seg);
      case Some(m) => AcceptMatchFrames(env, st, seg, leaves, m);
    }
  }

  lemma AcceptFreshFrames(env: Env, st: St, seg: Segment, leaves: seq<Leaf>)
    requires seg.Ok() && st.carry == []
    ensures
      var r := AcceptFresh(env, st, seg, leaves);
      SameFrames(r.released + r.st.segments, st.segments + [seg])
  {
    hide ContentWith, Drain, FitsBudget, TrailingPrefix, ReleaseSegs, SameFrames, StartCarry, EmitSegment;
    var content := ContentWith(env, seg.Value(), leaves, []);
    var t := TrailingPrefix(leaves);
    if t.Some? && FitsBudget(st, |seg.raw| + |content| + |t.value.Text()|) {
      StartFrames(st, seg, content, t.value);
    } else {
      EmitFrames(st, seg, content);
    }
  }

  lemma EmitFrames(st: St, seg: Segment, content: bytes)
    ensures
      var r := Drain(EmitSegment(st, seg, content, []));
      SameFrames(r.released + r.st.segments, st.segments + [seg])
  {
    hide Drain;
    DrainFrames(st, seg, EmitSegment(st, seg, content, []));
  }

  lemma StartFrames(st: St, seg: Segment, content: bytes, t: Tail)
    requires t.Ok()
    ensures
      var r := ReleaseSegs(st, |st.segments|);
      var all := r.Then(Drain(StartCarry(r.st, seg, content, [], t)));
      SameFrames(all.released + all.st.segments, st.segments + [seg])
  {
    hide DrainCount;
    var r := ReleaseSegs(st, |st.segments|);
    var st1 := StartCarry(r.st, seg, content, [], t);
    assert r.released == st.segments && r.st.segments == [];
    ReleaseFrames(st1, DrainCount(st1, 0));
    Assoc(st.segments, Drain(st1).released, Drain(st1).st.segments);
  }

  lemma GiveUpFrames(env: Env, st: St, seg: Segment, leaves: seq<Leaf>)
    requires seg.Ok()
    ensures
      var r := GiveUp(env, st, seg, leaves);
      SameFrames(r.released + r.st.segments, st.segments + [seg])
  {
    hide ContentWith, DrainCount;
    FlushThenDrain(st, EmitSegment(FlushHeld(st).st, seg, ContentWith(env, seg.Value(), leaves, []), []), seg);
  }

  lemma CompleteFrames(env: Env, st: St, seg: Segment, leaves: seq<Leaf>, m: Leaf, secret: bytes, k: nat)
    requires seg.Ok() && PartsOk(st)
    ensures
      var r := Complete(env, st, seg, leaves, m, secret, k);
      SameFrames(r.released + r.st.segments, st.segments + [seg])
  {
    hide ContentWith, DrainCount, FitsBudget;
    var st1 := st.(segments := DeleteParts(env, st.segments, st.parts));
    DeleteFrames(env, st.segments, st.parts);
    var extra := [Edit(m, 0, k, RawSpelling(m.tok, secret))];
    var content := ContentWith(env, seg.Value(), leaves, extra);
    var r := Complete(env, st, seg, leaves, m, secret, k);
    FlushThenDrain(st1, HoldOrEmit(FlushHeld(st1).st, seg, content, extra, TrailingAfter(leaves, m, k)), seg);
    FramesRefl([seg]);
    FramesAppend(st1.segments, st.segments, [seg], [seg]);
    FramesTrans(r.released + r.st.segments, st1.segments + [seg], st.segments + [seg]);
  }

  lemma AcceptMatchFrames(env: Env, st: St, seg: Segment, leaves: seq<Leaf>, m: Leaf)
    requires seg.Ok() && PartsOk(st) && st.carry != []
    ensures
      var r := AcceptMatch(env, st, seg, leaves, m);
      SameFrames(r.released + r.st.segments, st.segments + [seg])
  {
    hide ContentWith, DrainCount, SameFrames, FitsBudget, TokenLen, PrefixLen, GiveUp, Complete;
    var combined := st.carry + m.value;
    var t := TokenLen(combined);
    GiveUpFrames(env, st, seg, leaves);
    if t > |st.carry| {
      CompleteFrames(env, st, seg, leaves, m, env.restore(combined[..t]), t - |st.carry|);
    } else {
      var st1 := Extended(st, seg, ContentWith(env, seg.Value(), leaves, []), m);
      ExtendedFrames(st, seg, ContentWith(env, seg.Value(), leaves, []), m);
      DrainFrames(st, seg, st1);
    }
  }

  lemma ExtendedFrames(st: St, seg: Segment, content: bytes, m: Leaf)
    ensures SameFrames(Extended(st, seg, content, m).segments, st.segments + [seg])
  {
  }

  /** One event: what leaves and what stays are the queue and the event, in order. */
  lemma AcceptFrames(env: Env, st: St, ev: Event)
    requires EventOk(ev) && PartsOk(st)
    ensures
      var r := Accept(env, st, ev);
      SameFrames(r.released + r.st.segments, st.segments + [SegmentOf(ev)])
  {
    var seg := SegmentOf(ev);
    if |ev.dataSpans| == 1 {
      hide AcceptLeaf, SameFrames, UsableLeaves;
      var st0 := if env.valid(seg.Value()) then Handoff(st) else st;
      HandoffFrames(st);
      FramesRefl(st.segments);
      FramesRefl([seg]);
      FramesAppend(st0.segments, st.segments, [seg], [seg]);
      var r := Accept(env, st, ev);
      match UsableLeaves(env, seg.Value())
      case Some(leaves) =>
        AcceptLeafFrames(env, st0, seg, leaves);
        FramesTrans(r.released + r.st.segments, st0.segments + [seg], st.segments + [seg]);
      case None =>
        AcceptRawFrames(env, st0, seg);
        FramesTrans(r.released + r.st.segments, st0.segments + [seg], st.segments + [seg]);
    } else {
      ReleaseFrames(st.(segments := st.segments + [seg]), |st.segments| + 1);
      assert [] + (st.segments + [seg]) == st.segments + [seg];
    }
  }

  lemma AcceptRawFrames(env: Env, st: St, seg: Segment)
    requires seg.Ok()
    ensures
      var r := AcceptRaw(env, st, seg);
      SameFrames(r.released + r.st.segments, st.segments + [seg])
  {
    hide Release;
    FlushFrames(st);
  }

  lemma {:induction false} RunFrames(env: Env, st: St, events: seq<Event>)
    requires Shape(st) && AllOk(events)
    ensures forall ev :: ev in events ==> EventOk(ev)
    ensures
      var r := RunEvents(env, st, events);
      SameFrames(r.released + r.st.segments, st.segments + SegmentsOf(events))
    decreases |events|
  {
    hide Accept, Shape, SegmentOf, SameFrames;
    assert forall ev :: ev in events ==> SpanOk(ev) && EventOk(ev);
    if events == [] {
      assert st.segments + SegmentsOf(events) == st.segments;
      assert [] + st.segments == st.segments;
      FramesRefl(st.segments);
    } else {
      var ev, rest := events[0], events[1..];
      OneOk(events);
      AcceptShape(env, st, ev);
      AcceptFrames(env, st, ev);
      var first := Accept(env, st, ev);
      RunFrames(env, first.st, rest);
      var more := RunEvents(env, first.st, rest);
      FramesRefl(first.released);
      FramesAppend(first.released, first.released, more.released + more.st.segments,
        first.st.segments + SegmentsOf(rest));
      FramesRefl(SegmentsOf(rest));
      FramesAppend(first.released + first.st.segments, st.segments + [SegmentOf(ev)], SegmentsOf(rest),
        SegmentsOf(rest));
      Assoc(first.released, more.released, more.st.segments);
      Assoc(first.released, first.st.segments, SegmentsOf(rest));
      Assoc(st.segments, [SegmentOf(ev)], SegmentsOf(rest));
      assert [SegmentOf(ev)] + SegmentsOf(rest) == SegmentsOf(events);
      FramesTrans(first.released + (more.released + more.st.segments),
                  first.released + (first.st.segments + SegmentsOf(rest)),
                  st.segments + SegmentsOf(events));
    }
  }

  /** A whole run releases each event's bytes once and in order; only data contents may differ. */
  lemma HistoryFrames(env: Env, events: seq<Event>)
    requires AllOk(events)
    ensures forall ev :: ev in events ==> EventOk(ev)
    ensures SameFrames(History(env, events), SegmentsOf(events)) && SegsOk(History(env, events))
  {
    EmptyShape();
    RunFrames(env, EMPTY, events);
    var r := RunEvents(env, EMPTY, events);
    assert EMPTY.segments + SegmentsOf(events) == SegmentsOf(events);
    ClosingFrames(r.st);
    FramesRefl(r.released);
    FramesAppend(r.released, r.released, Closing(r.st), r.st.segments);
    FramesTrans(History(env, events), r.released + r.st.segments, SegmentsOf(events));
    FramesOk(History(env, events), SegmentsOf(events));
  }

  lemma ClosingFrames(st: St)
    ensures SameFrames(Closing(st), st.segments)
  {
  }
}
