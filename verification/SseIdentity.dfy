/**
 A stream with nothing to restore. Its data is conserved, except that a raw-path JSON value
 is re-escaped wherever a leftmost match holds a byte that JSON escapes. The exact condition
 is proved here.
 */
module SseIdentity {
  import opened Bytes
  import opened Sse
  import opened SseLaws
  import opened Lens
  import opened Placeholder
  import opened PlaceholderLaws
  import opened Holdback
  import opened HoldbackPlaceholder
  import opened SsePlain
  import opened Reassembly
  import opened ReassemblyInv
  import opened SseRun

  // ------------------------------------------------------------------- the data of a queue

  /** The data values of a queue as they are to be sent, joined. */
  function Data(segs: seq<Segment>): bytes {
    if segs == [] then [] else (if segs[0].hasSpan then segs[0].content else []) + Data(segs[1..])
  }

  lemma {:induction false} DataAppend(a: seq<Segment>, b: seq<Segment>)
    ensures Data(a + b) == Data(a) + Data(b)
  {
    if a == [] {
      assert a + b == b;
    } else {
      DataAppend(a[1..], b);
      assert (a + b)[1..] == a[1..] + b && (a + b)[0] == a[0];
      Assoc(if a[0].hasSpan then a[0].content else [], Data(a[1..]), Data(b));
    }
  }

  lemma DataOne(x: Segment)
    ensures Data([x]) == if x.hasSpan then x.content else []
  {
    assert Data([x]) == (if x.hasSpan then x.content else []) + Data([]);
  }

  lemma {:induction false} DataNone(segs: seq<Segment>)
    requires forall s :: s in segs ==> !s.hasSpan
    ensures Data(segs) == []
  {
    if segs != [] {
      assert segs[0] in segs;
      DataNone(segs[1..]);
    }
  }

  /** The data a state has taken in and not yet released. */
  function Owed(st: St): bytes {
    Data(st.segments) + st.held
  }

  function DataOf(ev: Event): bytes
    requires EventOk(ev)
  {
    if |ev.dataSpans| == 1 then SegmentOf(ev).Value() else []
  }

  function DataIn(events: seq<Event>): bytes
    requires forall ev :: ev in events ==> EventOk(ev)
  {
    if events == [] then [] else DataOf(events[0]) + DataIn(events[1..])
  }

  /** The value is JSON, but the leaf path does not take it. */
  predicate RawJson(env: Env, value: bytes) {
    env.valid(value) && UsableLeaves(env, value).None?
  }

  predicate EventPlain(env: Env, ev: Event)
    requires EventOk(ev)
  {
    |ev.dataSpans| == 1 && RawJson(env, SegmentOf(ev).Value()) ==> PlainScan(SegmentOf(ev).Value())
  }

  /** Handing the writer's tail to the newest raw segment moves no data. */
  lemma HandoffOwed(st: St)
    requires Shape(st)
    ensures Handoff(st).held == [] && Data(Handoff(st).segments) == Owed(st)
  {
    HandoffShape(st);
    if st.held != [] {
      TailAtFront(st, Handoff(st).segments);
    }
  }

  /** The tail is the only data behind the front segment. */
  lemma TailAtFront(st: St, segs: seq<Segment>)
    requires Shape(st) && st.held != []
    requires segs == AppendContent(st.segments, 0, st.held)
    ensures Data(segs) == Owed(st)
  {
    var first, rest := st.segments[0], st.segments[1..];
    forall s | s in rest ensures !s.hasSpan {
      var k :| 0 <= k < |rest| && rest[k] == s;
      assert st.segments[k + 1] == s;
    }
    DataNone(rest);
    assert segs[1..] == rest && segs[0].content == first.content + st.held;
  }

  lemma QueuesOwed(st: St, r: Step, seg: Segment, content: bytes)
    requires Queues(st, r, seg, content) && seg.hasSpan
    ensures Data(r.released) + Data(r.st.segments) == Data(st.segments) + content
  {
    var x :| SameFrame(x, seg) && x.content == content && r.released + r.st.segments == st.segments + [x];
    DataAppend(r.released, r.st.segments);
    DataAppend(st.segments, [x]);
    DataOne(x);
  }

  lemma StartQueues(st: St, seg: Segment, content: bytes, t: Tail)
    requires t.Ok()
    ensures
      var r := ReleaseSegs(st, |st.segments|);
      var all := r.Then(Drain(StartCarry(r.st, seg, content, [], t)));
      Queues(st, all, seg, content) && all.st.held == st.held
  {
    hide DrainCount;
    var r := ReleaseSegs(st, |st.segments|);
    var st1 := StartCarry(r.st, seg, content, [], t);
    assert r.released == st.segments && r.st.segments == [];
    ReleaseFrames(st1, DrainCount(st1, 0));
    Assoc(st.segments, Drain(st1).released, Drain(st1).st.segments);
    assert st1.segments == [st1.segments[0]];
    assert SameFrame(st1.segments[0], seg);
  }

  lemma EmitQueues(st: St, seg: Segment, content: bytes)
    ensures
      var r := Drain(EmitSegment(st, seg, content, []));
      Queues(st, r, seg, content) && r.st.held == st.held
  {
    hide DrainCount;
    var st1 := EmitSegment(st, seg, content, []);
    DrainQueues(st, st1, st1.segments[|st.segments|], seg);
  }

  lemma FreshQueues(env: Env, st: St, seg: Segment, leaves: seq<Leaf>)
    requires seg.Ok() && st.carry == []
    ensures
      var r := AcceptFresh(env, st, seg, leaves);
      Queues(st, r, seg, ContentWith(env, seg.Value(), leaves, [])) && r.st.held == st.held
  {
    hide ContentWith, Drain, FitsBudget, TrailingPrefix, ReleaseSegs, Queues, StartCarry, EmitSegment;
    var content := ContentWith(env, seg.Value(), leaves, []);
    var t := TrailingPrefix(leaves);
    if t.Some? && FitsBudget(st, |seg.raw| + |content| + |t.value.Text()|) {
      StartQueues(st, seg, content, t.value);
    } else {
      EmitQueues(st, seg, content);
    }
  }

  lemma GiveUpQueues(env: Env, st: St, seg: Segment, leaves: seq<Leaf>)
    requires seg.Ok()
    ensures
      var r := GiveUp(env, st, seg, leaves);
      Queues(st, r, seg, ContentWith(env, seg.Value(), leaves, [])) && r.st.held == st.held
  {
    hide ContentWith, DrainCount;
    var content := ContentWith(env, seg.Value(), leaves, []);
    FlushThenQueues(st, EmitSegment(FlushHeld(st).st, seg, content, []), seg, content);
  }

  lemma MismatchQueues(env: Env, st: St, seg: Segment, leaves: seq<Leaf>)
    requires seg.Ok()
    ensures
      var r := AcceptMismatch(env, st, seg, leaves);
      Queues(st, r, seg, ContentWith(env, seg.Value(), leaves, [])) && r.st.held == st.held
  {
    hide ContentWith, DrainCount, FitsBudget, TrailingPrefix;
    var content := ContentWith(env, seg.Value(), leaves, []);
    FlushThenQueues(st, HoldOrEmit(FlushHeld(st).st, seg, content, [], TrailingPrefix(leaves)), seg, content);
  }

  lemma ExtendQueues(env: Env, st: St, seg: Segment, leaves: seq<Leaf>, m: Leaf)
    requires seg.Ok()
    ensures
      var r := Extend(env, st, seg, leaves, m);
      Queues(st, r, seg, ContentWith(env, seg.Value(), leaves, [])) && r.st.held == st.held
  {
    hide ContentWith, DrainCount;
    var st1 := Extended(st, seg, ContentWith(env, seg.Value(), leaves, []), m);
    DrainQueues(st, st1, st1.segments[|st.segments|], seg);
  }

  /** With nothing to restore no token completes: the event is queued with its own value. */
  lemma LeafKeeps(env: Env, st: St, seg: Segment, leaves: seq<Leaf>)
    requires Identity(env) && seg.Ok() && PartsOk(st)
    ensures
      var r := AcceptLeaf(env, st, seg, leaves);
      Queues(st, r, seg, seg.Value()) && r.st.held == st.held
  {
    hide ContentWith, TokenLen, PrefixLen, FitsBudget, Queues, GiveUp, Extend, AcceptFresh, AcceptMismatch;
    ContentUnchanged(env, seg.Value(), leaves);
    if st.carry == [] {
      FreshQueues(env, st, seg, leaves);
    } else {
      match UniqueMatch(leaves, st.carryKey)
      case None => MismatchQueues(env, st, seg, leaves);
      case Some(m) =>
        GiveUpQueues(env, st, seg, leaves);
        ExtendQueues(env, st, seg, leaves, m);
    }
  }

  lemma {:induction false} NoPrefixPlain(s: bytes)
    requires !ContainsPrefix(s)
    ensures PlainScan(s)
    decreases |s|
  {
    hide TokenLen;
    if s != [] {
      assert s[0..] == s;
      assert TokenLen(s) == 0 by {
        if TokenLen(s) > 0 {
          TokenHasPrefix(s);
        }
      }
      assert forall i {:trigger s[1..][i..]} :: 0 <= i <= |s[1..]| ==> s[1..][i..] == s[i + 1..];
      NoPrefixPlain(s[1..]);
    }
  }

  /** The raw path, with nothing to restore: only a JSON value can change, and only to grow. */
  lemma RawSettles(env: Env, held: bytes, value: bytes)
    requires Identity(env) && Lawful(env) && (env.valid(value) ==> held == [])
    ensures
      var (out, tail) := Release(MATCHER, Replacer(env, SpellFeed(env, value)), held + value);
      if env.valid(value) && !PlainScan(value) then |out| + |tail| > |held| + |value|
      else out + tail == held + value
  {
    hide ContainsPrefix, TokenLen, PrefixLen, Settle, PlainScan;
    var f := Replacer(env, SpellFeed(env, value));
    NothingDropped(f, held + value);
    assert [] + value == value;
    if env.valid(value) && ContainsPrefix(value) {
      JsonFeedGrows(env, value);
      SettleGrows(f, value);
    } else {
      if env.valid(value) {
        NoPrefixPlain(value);
      }
      forall t ensures Replacement(f, t) == t {
        OtherFeedKeeps(env, value, t);
      }
      SettleKeeps(f, held + value);
    }
  }

  /** Data owed after an event against data owed before it and the event's own. */
  ghost predicate Conserves(st: St, ev: Event, r: Step, plain: bool)
    requires EventOk(ev)
  {
    var after, before := Data(r.released) + Owed(r.st), Owed(st) + DataOf(ev);
    if plain then after == before else |after| > |before|
  }

  lemma LeafConserves(env: Env, st: St, ev: Event, leaves: seq<Leaf>)
    requires Identity(env) && Shape(st) && EventOk(ev) && |ev.dataSpans| == 1
    requires env.valid(SegmentOf(ev).Value())
    ensures PartsOk(Handoff(st)) && Conserves(st, ev, AcceptLeaf(env, Handoff(st), SegmentOf(ev), leaves), true)
  {
    hide AcceptLeaf, Queues, Shape, Handoff;
    var seg := SegmentOf(ev);
    HandoffOwed(st);
    HandoffShape(st);
    ShapeParts(Handoff(st));
    LeafKeeps(env, Handoff(st), seg, leaves);
    QueuesOwed(Handoff(st), AcceptLeaf(env, Handoff(st), seg, leaves), seg, seg.Value());
  }

  lemma RawQueues(env: Env, st: St, seg: Segment)
    requires seg.Ok() && seg.hasSpan
    ensures
      var (out, tail) := Release(MATCHER, Replacer(env, SpellFeed(env, seg.Value())), st.held + seg.Value());
      Queues(st, AcceptRaw(env, st, seg), seg, out) && AcceptRaw(env, st, seg).st.held == tail
  {
    hide Release, SpellFeed;
    FlushFrames(st);
    var (out, tail) := Release(MATCHER, Replacer(env, SpellFeed(env, seg.Value())), st.held + seg.Value());
    assert AcceptRaw(env, st, seg).released + AcceptRaw(env, st, seg).st.segments
        == st.segments + [seg.(content := out)];
    assert SameFrame(seg.(content := out), seg);
  }

  lemma RawConserves(env: Env, st0: St, ev: Event)
    requires Identity(env) && Lawful(env) && EventOk(ev) && |ev.dataSpans| == 1
    requires env.valid(SegmentOf(ev).Value()) ==> st0.held == []
    ensures Conserves(st0, ev, AcceptRaw(env, st0, SegmentOf(ev)),
                      env.valid(SegmentOf(ev).Value()) ==> PlainScan(SegmentOf(ev).Value()))
  {
    hide Release, SpellFeed, AcceptRaw, Queues, PlainScan;
    var seg := SegmentOf(ev);
    var r := AcceptRaw(env, st0, seg);
    RawSettles(env, st0.held, seg.Value());
    RawQueues(env, st0, seg);
    var (out, tail) := Release(MATCHER, Replacer(env, SpellFeed(env, seg.Value())), st0.held + seg.Value());
    QueuesOwed(st0, r, seg, out);
    Assoc(Data(r.released), Data(r.st.segments), tail);
    Assoc(Data(st0.segments), out, tail);
    Assoc(Data(st0.segments), st0.held, seg.Value());
  }

  /** One event, with nothing to restore. */
  lemma AcceptConserves(env: Env, st: St, ev: Event)
    requires Identity(env) && Lawful(env) && Shape(st) && EventOk(ev)
    ensures PartsOk(st) && Conserves(st, ev, Accept(env, st, ev), EventPlain(env, ev))
  {
    ShapeParts(st);
    if |ev.dataSpans| == 1 {
      hide AcceptLeaf, AcceptRaw, Shape, Handoff, PlainScan, Data;
      var seg := SegmentOf(ev);
      HandoffOwed(st);
      HandoffShape(st);
      assert Data(Handoff(st).segments) + [] == Data(Handoff(st).segments);
      match UsableLeaves(env, seg.Value())
      case Some(leaves) => LeafConserves(env, st, ev, leaves);
      case None => RawConserves(env, if env.valid(seg.Value()) then Handoff(st) else st, ev);
    } else {
      OtherConserves(env, st, ev);
    }
  }

  lemma OtherConserves(env: Env, st: St, ev: Event)
    requires PartsOk(st) && EventOk(ev) && |ev.dataSpans| == 0
    ensures Conserves(st, ev, Accept(env, st, ev), true)
  {
    hide AcceptLeaf, AcceptRaw, Handoff, UsableLeaves, HasPending;
    var seg := SegmentOf(ev);
    DataAppend(st.segments, [seg]);
    DataOne(seg);
    var st1 := st.(segments := st.segments + [seg]);
    assert st1.segments[..|st1.segments|] == st1.segments && st1.segments[|st1.segments|..] == [];
  }

  // ------------------------------------------------------------------------ whole streams

  ghost predicate AllPlain(env: Env, events: seq<Event>)
    requires AllOk(events)
  {
    forall ev :: ev in events ==> SpanOk(ev) && EventPlain(env, ev)
  }

  lemma {:induction false} RunConserves(env: Env, st: St, events: seq<Event>)
    requires Identity(env) && Lawful(env) && Shape(st) && AllOk(events)
    ensures forall ev :: ev in events ==> EventOk(ev)
    ensures
      var r := RunEvents(env, st, events);
      var after, before := Data(r.released) + Owed(r.st), Owed(st) + DataIn(events);
      if AllPlain(env, events) then after == before else |after| > |before|
    decreases |events|
  {
    hide Accept, Shape, EventPlain, Owed, Data, DataOf, SegmentOf;
    assert forall ev :: ev in events ==> SpanOk(ev) && EventOk(ev);
    if events == [] {
      NoData();
      assert [] + Owed(st) == Owed(st) + [];
    } else {
      var ev, rest := events[0], events[1..];
      OneOk(events);
      AcceptShape(env, st, ev);
      AcceptConserves(env, st, ev);
      var first := Accept(env, st, ev);
      RunConserves(env, first.st, rest);
      var more := RunEvents(env, first.st, rest);
      DataAppend(first.released, more.released);
      Assoc(Data(first.released), Data(more.released), Owed(more.st));
      Assoc(Data(first.released), Owed(first.st), DataIn(rest));
      Assoc(Owed(st), DataOf(ev), DataIn(rest));
      PlainHead(env, events);
    }
  }

  lemma PlainHead(env: Env, events: seq<Event>)
    requires AllOk(events) && events != []
    ensures EventOk(events[0]) && AllOk(events[1..])
    ensures AllPlain(env, events) <==> EventPlain(env, events[0]) && AllPlain(env, events[1..])
  {
    hide EventPlain;
    OneOk(events);
    assert events == [events[0]] + events[1..];
  }

  lemma NoData()
    ensures Data([]) == []
  {
  }

  lemma ClosingOwed(st: St)
    requires Shape(st)
    ensures Data(Closing(st)) == Owed(st)
  {
    var i := PendingFrom(st.segments, 0);
    if st.held != [] {
      assert i == 0;
      TailAtFront(st, Closing(st));
    } else if i < |st.segments| {
      assert st.segments[i].content + [] == st.segments[i].content;
      assert Closing(st) == st.segments;
    }
  }

  /**
   With nothing to restore, a stream's data values, joined, are conserved exactly when every
   JSON value that takes the raw path scans plain.
   */
  lemma DataConserved(env: Env, events: seq<Event>)
    requires Identity(env) && Lawful(env) && AllOk(events)
    ensures forall ev :: ev in events ==> EventOk(ev)
    ensures Data(History(env, events)) == DataIn(events) <==> AllPlain(env, events)
    ensures !AllPlain(env, events) ==> |Data(History(env, events))| > |DataIn(events)|
  {
    hide Shape, AllPlain, Closing, Owed, RunEvents, Data, DataIn, EventOk, SpanOk;
    EmptyShape();
    RunConserves(env, EMPTY, events);
    var r := RunEvents(env, EMPTY, events);
    ClosingOwed(r.st);
    DataAppend(r.released, Closing(r.st));
    NothingOwed();
    assert [] + DataIn(events) == DataIn(events);
  }

  /**
   So they are conserved when each JSON value's matches are placeholders of the grammar, as
   everything that is minted is.
   */
  lemma TypedConserved(env: Env, events: seq<Event>)
    requires Identity(env) && Lawful(env) && AllOk(events)
    requires forall ev :: ev in events && |ev.dataSpans| == 1 && SpanOk(ev) ==>
               EventOk(ev) && ScanTyped(SegmentOf(ev).Value())
    ensures forall ev :: ev in events ==> EventOk(ev)
    ensures Data(History(env, events)) == DataIn(events)
  {
    hide ScanTyped, PlainScan, History, Data, DataIn;
    DataConserved(env, events);
    forall ev | ev in events ensures SpanOk(ev) && EventPlain(env, ev) {
      if |ev.dataSpans| == 1 {
        TypedScanPlain(SegmentOf(ev).Value());
      }
    }
  }

  lemma NothingOwed()
    ensures Owed(EMPTY) == []
  {
    assert Owed(EMPTY) == Data([]) + [];
  }

  // ------------------------------------------------------------------- a stream that changes

  /** The match inside the key below: its type is a backslash and a quotation mark. */
  const ODD_MATCH: bytes :=
    PREFIX + [92, 34, US] + [48, 49, 50, 51, 52, 53, 54, 55, 56, 57, 97, 98] + [US, US]

  /** {"<match>":1}: valid JSON without a string leaf. */
  const ODD_KEY: bytes := [123, 34] + ODD_MATCH + [34, 58, 49, 125]

  lemma OddMatch()
    ensures TokenLen(ODD_KEY[2..]) > 7
  {
    var p := ODD_KEY[2..];
    assert p == ODD_MATCH + [34, 58, 49, 125] && p[..|ODD_MATCH|] == ODD_MATCH;
    assert PREFIX <= p && p[8] == US && p[21] == US && p[22] == US;
    assert forall k :: 9 <= k < 21 ==> IsHex(p[k]);
    assert HexEnd(p, 9) == 21;
    assert TokenEnd(p, 2) == 23;
    TokenEndsClosed(p);
  }

  lemma NotAtFront(s: bytes)
    requires s != [] && s[0] != US
    ensures TokenLen(s) == 0
    ensures PlainScan(s) ==> PlainScan(s[1..])
  {
    hide TokenLen;
    if TokenLen(s) > 0 {
      TokenStarts(s);
      assert false;
    }
  }

  lemma OddKeyNotPlain()
    ensures !PlainScan(ODD_KEY)
  {
    hide TokenLen;
    OddMatch();
    var p := ODD_KEY[2..];
    assert p[7] == 34 && p[7] in p[..TokenLen(p)] && NeedsEscape(p[7]);
    assert !PlainScan(p);
    NotAtFront(ODD_KEY);
    NotAtFront(ODD_KEY[1..]);
    assert ODD_KEY[1..][1..] == p;
  }

  /** So the data of this one event is not conserved, though nothing is restored. */
  lemma OddKeyGrows(env: Env, ev: Event)
    requires Identity(env) && Lawful(env)
    requires env.valid(ODD_KEY) && env.walk(ODD_KEY) == Some([])
    requires SpanOk(ev) && |ev.dataSpans| == 1 && ev.data == ODD_KEY
    ensures EventOk(ev) && |Data(History(env, [ev]))| > |DataIn([ev])|
  {
    hide PlainScan, Data, History;
    OddKeyNotPlain();
    assert SegmentOf(ev).Value() == ODD_KEY && UsableLeaves(env, ODD_KEY) == None;
    assert !EventPlain(env, ev) && ev in [ev];
    DataConserved(env, [ev]);
  }
}
