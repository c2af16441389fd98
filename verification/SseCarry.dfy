/**
 What every run keeps about the segments that hold a carry: each was read by Walk, its
 fragment lies in one of the leaves found, and what is queued for it is its own value with
 the restores of its leaves, and for the first segment perhaps one completed secret.
 */
module SseCarry {
  import opened Bytes
  import opened Sse
  import opened SseLaws
  import opened Lens
  import opened Apply
  import opened Placeholder
  import opened PlaceholderLaws
  import opened Holdback
  import opened Reassembly
  import opened ReassemblyInv
  import opened SseRun
  import opened SseText

  /** The edit that completed a token at the head of its leaf. */
  ghost predicate HeadEdit(env: Env, e: Edit, leaves: seq<Leaf>) {
    && e.leaf in leaves && e.start == 0
    && exists secret :: Completed(env, e.leaf.value, e.end, secret) && e.repl == RawSpelling(e.leaf.tok, secret)
  }

  ghost predicate Carries(env: Env, seg: Segment, p: Part, first: bool) {
    && seg.Ok() && env.walk(seg.Value()).Some?
    && var leaves := env.walk(seg.Value()).value;
    && p.leaf in leaves
    && seg.content == ContentWith(env, seg.Value(), leaves, seg.extra)
    && (seg.extra == [] ||
        (first && |seg.extra| == 1 && HeadEdit(env, seg.extra[0], leaves)
         && (seg.extra[0].leaf == p.leaf ==> seg.extra[0].end <= p.start)))
  }

  ghost predicate Carried(env: Env, st: St)
    requires Shape(st)
  {
    st.carry != [] ==>
      && (forall i :: 0 <= i < |st.parts| ==> CarriesPart(env, st, i))
      && (|st.parts| > 1 ==> Extendable(st.carry))
  }

  ghost predicate CarriesPart(env: Env, st: St, i: nat)
    requires i < |st.parts|
  {
    st.parts[i].seg < |st.segments| && Carries(env, st.segments[st.parts[i].seg], st.parts[i], i == 0)
  }

  lemma {:induction false} TrailingIn(leaves: seq<Leaf>, best: Option<Tail>)
    requires best.Some? ==> best.value.Ok()
    ensures
      var r := TrailingFrom(leaves, best);
      r.Some? ==> r == best || (r.value.leaf in leaves && r.value.leaf.identifiable)
  {
    if leaves != [] {
      var s := SmallestPrefixAt(leaves[0].value, 0);
      TrailingIn(leaves[1..], if leaves[0].identifiable && s.Some? then Some(Tail(leaves[0], s.value)) else best);
    }
  }

  lemma {:induction false} MatchingHas(leaves: seq<Leaf>, l: Leaf)
    requires l in leaves && l.identifiable
    ensures l in Matching(leaves, l.identity)
  {
    if leaves[0] != l {
      MatchingHas(leaves[1..], l);
    }
  }

  /** The tail behind a completed token starts behind the token. */
  lemma {:induction false} TrailingAfterBehind(leaves: seq<Leaf>, m: Leaf, k: nat)
    requires m.identifiable && |Matching(leaves, m.identity)| <= 1
    ensures
      var r := TrailingAfter(leaves, m, k);
      r.Some? ==> r.value.leaf in leaves && (r.value.leaf == m ==> k <= r.value.start)
  {
    if leaves != [] {
      var l := leaves[0];
      if l.identifiable && l.identity == m.identity {
        assert Matching(leaves[1..], m.identity) == [];
        var s := SmallestPrefixAt(l.value, k);
        var best := if s.Some? then Some(Tail(l, s.value)) else None;
        TrailingIn(leaves[1..], best);
        var r := TrailingFrom(leaves[1..], best);
        if r.Some? && r != best && r.value.leaf == m {
          MatchingHas(leaves[1..], m);
        }
      } else {
        TrailingAfterBehind(leaves[1..], m, k);
      }
    }
  }

  // ------------------------------------------------------------------------- each event

  lemma NoCarry(env: Env, st: St)
    requires Shape(st) && st.carry == []
    ensures Carried(env, st)
  {
  }

  lemma DrainCarried(env: Env, st: St)
    requires Shape(st) && Carried(env, st) && st.held == []
    ensures Shape(Drain(st).st) && Carried(env, Drain(st).st)
  {
    hide Shape, Drain;
    DrainShape(st);
    if st.carry == [] {
      NoCarry(env, Drain(st).st);
    } else {
      DrainStopsAtCarry(st);
    }
  }

  /** A first contributor, queued with its own content. */
  ghost predicate Starts(env: Env, seg: Segment, content: bytes, extra: seq<Edit>, t: Tail)
    requires seg.Ok() && t.Ok()
  {
    && env.walk(seg.Value()).Some?
    && var leaves := env.walk(seg.Value()).value;
    && t.leaf in leaves && t.leaf.identifiable
    && content == ContentWith(env, seg.Value(), leaves, extra)
    && (extra == [] ||
        (|extra| == 1 && HeadEdit(env, extra[0], leaves) && (extra[0].leaf == t.leaf ==> extra[0].end <= t.start)))
  }

  lemma StartCarried(env: Env, seg: Segment, content: bytes, extra: seq<Edit>, t: Tail)
    requires seg.Ok() && seg.hasSpan && t.Ok() && Starts(env, seg, content, extra, t)
    requires FitsBudget(EMPTY, |seg.raw| + |content| + |t.Text()|)
    ensures
      var st := StartCarry(EMPTY, seg, content, extra, t);
      Shape(st) && Carried(env, st)
  {
    hide ContentWith, Shape, HeadEdit;
    StartShape(EMPTY, seg, content, extra, t);
    var st := StartCarry(EMPTY, seg, content, extra, t);
    assert CarriesPart(env, st, 0);
  }

  lemma HoldCarried(env: Env, seg: Segment, content: bytes, extra: seq<Edit>, t: Option<Tail>)
    requires seg.Ok() && seg.hasSpan
    requires t.Some? ==> t.value.Ok() && Starts(env, seg, content, extra, t.value)
    ensures
      var st := HoldOrEmit(EMPTY, seg, content, extra, t);
      Shape(st) && Carried(env, st) && st.held == []
  {
    hide Shape, Starts, FitsBudget;
    if t.Some? && FitsBudget(EMPTY, |seg.raw| + |content| + |t.value.Text()|) {
      StartCarried(env, seg, content, extra, t.value);
    } else {
      assert Shape(EMPTY) by { EmptyShape(); }
      EmitShape(EMPTY, seg, content, []);
      NoCarry(env, EmitSegment(EMPTY, seg, content, []));
    }
  }

  lemma FreshStarts(env: Env, seg: Segment, leaves: seq<Leaf>)
    requires seg.Ok() && env.walk(seg.Value()) == Some(leaves)
    ensures
      var t := TrailingPrefix(leaves);
      t.Some? ==> Starts(env, seg, ContentWith(env, seg.Value(), leaves, []), [], t.value)
  {
    hide ContentWith;
    TrailingIn(leaves, None);
  }

  lemma FreshCarried(env: Env, st: St, seg: Segment, leaves: seq<Leaf>)
    requires Shape(st) && st.held == [] && st.carry == [] && seg.Ok() && seg.hasSpan
    requires env.walk(seg.Value()) == Some(leaves)
    ensures
      var r := AcceptFresh(env, st, seg, leaves).st;
      Shape(r) && Carried(env, r)
  {
    hide ContentWith, Starts, DrainCount, Carried, Fragments;
    FreshStarts(env, seg, leaves);
    var content := ContentWith(env, seg.Value(), leaves, []);
    var t := TrailingPrefix(leaves);
    if t.Some? && FitsBudget(st, |seg.raw| + |content| + |t.value.Text()|) {
      var r := ReleaseSegs(st, |st.segments|);
      FreshEmpty(r.st);
      StartFrom(r.st, seg, content, t.value);
      StartCarried(env, seg, content, [], t.value);
      DrainCarried(env, StartCarry(EMPTY, seg, content, [], t.value));
    } else {
      EmitCarried(env, st, seg, content);
    }
  }

  lemma EmitCarried(env: Env, st: St, seg: Segment, content: bytes)
    requires Shape(st) && st.held == [] && st.carry == [] && seg.Ok() && seg.hasSpan
    ensures
      var r := Drain(EmitSegment(st, seg, content, [])).st;
      Shape(r) && Carried(env, r)
  {
    hide Shape, Drain, Carried;
    EmitShape(st, seg, content, []);
    NoCarry(env, EmitSegment(st, seg, content, []));
    DrainCarried(env, EmitSegment(st, seg, content, []));
  }

  lemma GiveUpCarried(env: Env, st: St, seg: Segment, leaves: seq<Leaf>)
    requires Shape(st) && st.held == [] && seg.Ok() && seg.hasSpan
    ensures
      var r := GiveUp(env, st, seg, leaves).st;
      Shape(r) && Carried(env, r)
  {
    hide ContentWith, Drain, Carried, HeldSum, Fragments;
    FlushShape(st);
    assert Shape(EMPTY) by { EmptyShape(); }
    EmitCarried(env, EMPTY, seg, ContentWith(env, seg.Value(), leaves, []));
  }

  lemma MismatchCarried(env: Env, st: St, seg: Segment, leaves: seq<Leaf>)
    requires Shape(st) && st.held == [] && seg.Ok() && seg.hasSpan
    requires env.walk(seg.Value()) == Some(leaves)
    ensures
      var r := AcceptMismatch(env, st, seg, leaves).st;
      Shape(r) && Carried(env, r)
  {
    hide ContentWith, Starts, Drain, Carried, TrailingPrefix, FitsBudget, CarryOwned, CarrySpelled, HeldSum;
    FlushShape(st);
    FreshStarts(env, seg, leaves);
    var content := ContentWith(env, seg.Value(), leaves, []);
    HoldCarried(env, seg, content, [], TrailingPrefix(leaves));
    DrainCarried(env, HoldOrEmit(EMPTY, seg, content, [], TrailingPrefix(leaves)));
  }

  lemma CompleteStarts(env: Env, seg: Segment, leaves: seq<Leaf>, m: Leaf, secret: bytes, k: nat)
    requires seg.Ok() && env.walk(seg.Value()) == Some(leaves)
    requires m in leaves && m.identifiable && |Matching(leaves, m.identity)| == 1
    requires Completed(env, m.value, k, secret)
    ensures
      var extra, t := [Edit(m, 0, k, RawSpelling(m.tok, secret))], TrailingAfter(leaves, m, k);
      && HeadEdit(env, extra[0], leaves)
      && (t.Some? ==> Starts(env, seg, ContentWith(env, seg.Value(), leaves, extra), extra, t.value))
  {
    hide ContentWith, RawSpelling, Completed;
    TrailingAfterBehind(leaves, m, k);
    TrailingAfterIdentifiable(leaves, m, k);
  }

  lemma CompleteCarried(env: Env, st: St, seg: Segment, leaves: seq<Leaf>, m: Leaf, secret: bytes, k: nat)
    requires Shape(st) && st.held == [] && PartsOk(st) && seg.Ok() && seg.hasSpan
    requires env.walk(seg.Value()) == Some(leaves)
    requires m in leaves && m.identifiable && |Matching(leaves, m.identity)| == 1
    requires Completed(env, m.value, k, secret)
    ensures
      var r := Complete(env, st, seg, leaves, m, secret, k).st;
      Shape(r) && Carried(env, r)
  {
    hide ContentWith, Starts, Drain, Carried, TrailingAfter, Shape, FitsBudget, HeadEdit, RawSpelling;
    var st1 := st.(segments := DeleteParts(env, st.segments, st.parts));
    FlushShape(st1);
    var extra := [Edit(m, 0, k, RawSpelling(m.tok, secret))];
    var content := ContentWith(env, seg.Value(), leaves, extra);
    CompleteStarts(env, seg, leaves, m, secret, k);
    HoldCarried(env, seg, content, extra, TrailingAfter(leaves, m, k));
    DrainCarried(env, HoldOrEmit(EMPTY, seg, content, extra, TrailingAfter(leaves, m, k)));
  }

  lemma ExtendCarried(env: Env, st: St, seg: Segment, leaves: seq<Leaf>, m: Leaf)
    requires Shape(st) && Carried(env, st) && st.held == [] && st.carry != [] && seg.Ok() && seg.hasSpan
    requires env.walk(seg.Value()) == Some(leaves) && m in leaves
    requires st.parts != [] && m.identifiable && m.identity == st.carryKey
    requires FitsBudget(st, |seg.raw| + |ContentWith(env, seg.Value(), leaves, [])| + |m.value|)
    requires PrefixLen(st.carry + m.value) == |st.carry + m.value|
    ensures
      var r := Extend(env, st, seg, leaves, m).st;
      Shape(r) && Carried(env, r)
  {
    hide ContentWith, FitsBudget, PrefixLen, Drain, CarriesPart, Extendable, Shape;
    var content := ContentWith(env, seg.Value(), leaves, []);
    ExtendShape(st, seg, content, m);
    var r := Extended(st, seg, content, m);
    PrefixIsExtendable(st.carry + m.value);
    ExtendParts(env, st, seg, content, m);
    DrainCarried(env, r);
  }

  lemma PrefixIsExtendable(s: bytes)
    requires PrefixLen(s) == |s|
    ensures Extendable(s)
  {
    PrefixLenExact(s, |s|);
    assert s[..|s|] == s;
  }

  lemma ExtendParts(env: Env, st: St, seg: Segment, content: bytes, m: Leaf)
    requires forall i :: 0 <= i < |st.parts| ==> CarriesPart(env, st, i)
    requires seg.Ok() && env.walk(seg.Value()).Some? && m in env.walk(seg.Value()).value
    requires content == ContentWith(env, seg.Value(), env.walk(seg.Value()).value, [])
    ensures
      var r := Extended(st, seg, content, m);
      st.parts != [] ==> forall i :: 0 <= i < |r.parts| ==> CarriesPart(env, r, i)
  {
    hide ContentWith, Carries;
    var r := Extended(st, seg, content, m);
    ExtendedCarries(env, seg, content, r.segments[|st.segments|], r.parts[|st.parts|]);
    forall i | 0 <= i < |r.parts| && st.parts != [] ensures CarriesPart(env, r, i) {
      if i < |st.parts| {
        assert CarriesPart(env, st, i);
      }
    }
  }

  lemma ExtendedCarries(env: Env, seg: Segment, content: bytes, seg': Segment, p: Part)
    requires seg.Ok() && env.walk(seg.Value()).Some? && p.leaf in env.walk(seg.Value()).value
    requires content == ContentWith(env, seg.Value(), env.walk(seg.Value()).value, [])
    requires seg' == seg.(leaf := true, content := content, extra := [])
    ensures Carries(env, seg', p, false)
  {
    hide ContentWith;
  }

  lemma CarryCompleted(env: Env, carry: bytes, v: bytes, t: nat)
    requires Secretful(env) && t == TokenLen(carry + v) > |carry| && env.restore((carry + v)[..t]) != (carry + v)[..t]
    ensures Completed(env, v, t - |carry|, env.restore((carry + v)[..t]))
  {
    hide TokenLen;
    var s, k := carry + v, t - |carry|;
    assert s[..t] == carry + v[..k] && s[..t] + s[t..] == s;
    TokenLenAppend(s[..t], s[t..]);
    TokenEndsClosed(s);
    assert s[t - 1] == v[k - 1];
    assert IsSecret(env.restore(s[..t]));
  }

  lemma MatchCarried(env: Env, st: St, seg: Segment, leaves: seq<Leaf>, m: Leaf)
    requires Secretful(env) && Shape(st) && Carried(env, st) && st.held == [] && PartsOk(st) && st.carry != []
    requires seg.Ok() && seg.hasSpan && env.walk(seg.Value()) == Some(leaves)
    requires Matching(leaves, st.carryKey) == [m]
    ensures
      var r := AcceptMatch(env, st, seg, leaves, m).st;
      Shape(r) && Carried(env, r)
  {
    hide Shape, Carried, ContentWith, FitsBudget, TokenLen, PrefixLen, GiveUp, Complete, Extend;
    MatchingFacts(leaves, st.carryKey);
    assert m in Matching(leaves, st.carryKey);
    var combined := st.carry + m.value;
    var t := TokenLen(combined);
    GiveUpCarried(env, st, seg, leaves);
    if t > |st.carry| {
      var secret := env.restore(combined[..t]);
      if secret != combined[..t] && !KeepPlaceholder(env, st.parts[0].leaf, secret) {
        TokenEndsClosed(combined);
        assert combined[t - 1] == m.value[t - |st.carry| - 1];
        CarryCompleted(env, st.carry, m.value, t);
        CompleteCarried(env, st, seg, leaves, m, secret, t - |st.carry|);
      }
    } else if PrefixLen(combined) == |combined|
              && FitsBudget(st, |seg.raw| + |ContentWith(env, seg.Value(), leaves, [])| + |m.value|) {
      ExtendCarried(env, st, seg, leaves, m);
    }
  }

  lemma LeafCarried(env: Env, st: St, seg: Segment, leaves: seq<Leaf>)
    requires Secretful(env) && Shape(st) && Carried(env, st) && st.held == [] && PartsOk(st)
    requires seg.Ok() && seg.hasSpan && env.walk(seg.Value()) == Some(leaves)
    ensures
      var r := AcceptLeaf(env, st, seg, leaves).st;
      Shape(r) && Carried(env, r)
  {
    hide Shape, Carried, AcceptFresh, AcceptMismatch, AcceptMatch;
    if st.carry == [] {
      FreshCarried(env, st, seg, leaves);
    } else if UniqueMatch(leaves, st.carryKey).None? {
      MismatchCarried(env, st, seg, leaves);
    } else {
      var all := Matching(leaves, st.carryKey);
      assert all == [all[0]];
      MatchCarried(env, st, seg, leaves, all[0]);
    }
  }

  lemma HandoffCarried(env: Env, st: St)
    requires Shape(st) && Carried(env, st)
    ensures Shape(Handoff(st)) && Handoff(st).held == [] && Carried(env, Handoff(st))
  {
    hide Shape, Handoff;
    HandoffShape(st);
    if st.carry == [] {
      HandoffCarry(st);
      NoCarry(env, Handoff(st));
    }
  }

  lemma HandoffCarry(st: St)
    ensures Handoff(st).carry == st.carry
  {
  }

  lemma RawCarry(env: Env, st: St, seg: Segment)
    requires seg.Ok()
    ensures AcceptRaw(env, st, seg).st.carry == []
  {
    hide Release;
  }

  lemma OtherCarried(env: Env, st: St, st': St, segs: seq<Segment>)
    requires Shape(st) && Carried(env, st) && Shape(st')
    requires st.carry != [] ==> st' == st.(segments := st.segments + segs)
    requires st.carry == [] ==> st'.carry == []
    ensures Carried(env, st')
  {
    hide Shape, Carries;
    if st.carry != [] {
      forall i | 0 <= i < |st'.parts| ensures CarriesPart(env, st', i) {
        assert CarriesPart(env, st, i);
      }
    }
  }

  /** Every decoded event keeps it. */
  lemma AcceptCarried(env: Env, st: St, ev: Event)
    requires Secretful(env) && Shape(st) && Carried(env, st) && EventOk(ev)
    ensures PartsOk(st) && Shape(Accept(env, st, ev).st) && Carried(env, Accept(env, st, ev).st)
  {
    AcceptShape(env, st, ev);
    if |ev.dataSpans| == 1 {
      hide Shape, Carried, Handoff, AcceptLeaf, AcceptRaw;
      var seg := SegmentOf(ev);
      HandoffCarried(env, st);
      ShapeParts(Handoff(st));
      match UsableLeaves(env, seg.Value())
      case Some(leaves) =>
        LeafCarried(env, Handoff(st), seg, leaves);
      case None =>
        RawCarry(env, if env.valid(seg.Value()) then Handoff(st) else st, seg);
        NoCarry(env, Accept(env, st, ev).st);
    } else {
      if st.carry != [] {
        PendingFront(st);
      }
      OtherCarried(env, st, Accept(env, st, ev).st, [SegmentOf(ev)]);
    }
  }

  /** So in every reachable state it holds. */
  lemma {:induction false} RunCarried(env: Env, st: St, events: seq<Event>)
    requires Secretful(env) && Shape(st) && Carried(env, st) && AllOk(events)
    ensures Carried(env, RunEvents(env, st, events).st)
    decreases |events|
  {
    hide Shape, Accept, Carried, SpanOk, EventOk;
    if events != [] {
      OneOk(events);
      AcceptCarried(env, st, events[0]);
      RunCarried(env, Accept(env, st, events[0]).st, events[1..]);
    }
  }

  /**
   Over every run: what is held back stays within the cap; a carry's indices ascend from the
   front of a queue that holds no raw data, and its fragments spell it; a writer's tail
   belongs to the first queued data segment, a raw one; and Carried holds.
   */
  lemma EveryRun(env: Env, events: seq<Event>)
    requires Secretful(env) && AllOk(events)
    ensures
      Shape(EMPTY) &&
      var st := RunEvents(env, EMPTY, events).st;
      && |st.held| + |st.carry| + st.heldBytes <= 262144
      && (st.carry != [] ==>
            && st.parts != [] && st.parts[0].seg == 0
            && (forall i, j :: 0 <= i < j < |st.parts| ==> st.parts[i].seg < st.parts[j].seg)
            && (forall p :: p in st.parts ==> p.seg < |st.segments| && p.start <= p.end <= |p.leaf.value|)
            && (forall s :: s in st.segments ==> !s.IsRaw())
            && st.carry == Fragments(st.parts))
      && (st.held != [] ==>
            && PendingFrom(st.segments, 0) < |st.segments|
            && st.segments[PendingFrom(st.segments, 0)].IsRaw())
      && Carried(env, st)
  {
    EmptyShape();
    assert Carried(env, EMPTY);
    RunCarried(env, EMPTY, events);
    RunIndices(RunEvents(env, EMPTY, events).st);
  }

  lemma RunIndices(st: St)
    requires Shape(st)
    ensures |st.held| + |st.carry| + st.heldBytes <= 262144
    ensures st.carry != [] ==>
              && st.parts != [] && st.parts[0].seg == 0
              && (forall i, j :: 0 <= i < j < |st.parts| ==> st.parts[i].seg < st.parts[j].seg)
              && (forall p :: p in st.parts ==> p.seg < |st.segments| && p.start <= p.end <= |p.leaf.value|)
              && (forall s :: s in st.segments ==> !s.IsRaw())
              && st.carry == Fragments(st.parts)
    ensures st.held != [] ==>
              && PendingFrom(st.segments, 0) < |st.segments|
              && st.segments[PendingFrom(st.segments, 0)].IsRaw()
  {
    hide HeldSum;
    if st.carry != [] {
      ShapeCarry(st);
      hide Fragments;
      forall s | s in st.segments ensures !s.IsRaw() {
        var k :| 0 <= k < |st.segments| && st.segments[k] == s;
        assert s.hasSpan ==> Referenced(st.parts, k);
      }
      forall p | p in st.parts ensures p.start <= p.end <= |p.leaf.value| {
        var i :| 0 <= i < |st.parts| && st.parts[i] == p;
        assert FragmentOk(st.parts[i], i == 0);
      }
    }
  }
}
