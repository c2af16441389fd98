/**
 Envelopes over a whole stream. Whatever the events are and however they are cut, each JSON
 envelope leaves as the document it was, with only its strings changed: a string leaves with
 its placeholders restored, perhaps with a secret in the place of its first bytes, where they
 end a placeholder, and perhaps without a tail, where it begins one.
 */
module SseHistory {
  import opened Bytes
  import opened Utf8
  import opened Sse
  import opened SseLaws
  import opened Lens
  import opened TreeAssign
  import opened Placeholder
  import opened Holdback
  import opened HoldbackPlaceholder
  import opened Reassembly
  import opened ReassemblyInv
  import opened SseRun
  import opened SseText
  import opened SseCarry
  import opened SsePlan
  import opened SseSplit
  import opened SseIdentity

  /** What a string v may leave as. */
  ghost predicate LeafMade(env: Env, v: bytes, t: bytes)
    requires Secretful(env) && Utf8.Valid(v)
  {
    || HeadMade(env, v, t)
    || exists from: nat :: from <= |v| && HeadMade(env, v, t + RestFrom(env, v, from))
  }

  ghost predicate LeavesMade(env: Env, leaves: seq<Leaf>, texts: seq<bytes>) {
    && Secretful(env) && |texts| == |leaves|
    && forall i :: 0 <= i < |leaves| ==> Utf8.Valid(leaves[i].value) && LeafMade(env, leaves[i].value, texts[i])
  }

  /** An envelope's content is its document with such strings. */
  ghost predicate Told(env: Env, seg: Segment) {
    seg.hasSpan && seg.Ok() ==>
      match UsableLeaves(env, seg.Value())
      case None => true
      case Some(leaves) => ToldAs(env, seg.Value(), leaves, seg.content)
  }

  ghost predicate ToldAs(env: Env, value: bytes, leaves: seq<Leaf>, content: bytes) {
    exists texts :: Reads(value, leaves, content, texts) && LeavesMade(env, leaves, texts)
  }

  ghost predicate AllTold(env: Env, segs: seq<Segment>) {
    forall s :: s in segs ==> Told(env, s)
  }

  /** No envelope is at the front of a queue that the writer's tail waits for. */
  ghost predicate ToldState(env: Env, st: St) {
    && AllTold(env, st.segments)
    && (st.held != [] ==>
          st.segments != [] && st.segments[0].Ok() && UsableLeaves(env, st.segments[0].Value()).None?)
  }

  lemma AllToldAppend(env: Env, a: seq<Segment>, b: seq<Segment>)
    ensures AllTold(env, a + b) <==> AllTold(env, a) && AllTold(env, b)
  {
    hide Told;
    assert forall s :: s in a + b <==> s in a || s in b;
  }

  lemma HeadsMade(env: Env, leaves: seq<Leaf>, texts: seq<bytes>)
    requires TextsMade(env, leaves, texts)
    ensures LeavesMade(env, leaves, texts)
  {
    hide HeadMade, RestFrom, Secretful;
  }

  // --------------------------------------------------------------------- what an event makes

  lemma UsableIs(env: Env, value: bytes)
    ensures UsableLeaves(env, value).Some? ==> env.walk(value) == Some(UsableLeaves(env, value).value)
  {
  }

  /** An envelope with its own restores. */
  lemma PlainTold(env: Env, value: bytes, leaves: seq<Leaf>)
    requires WalkSound(env) && Secretful(env) && env.walk(value) == Some(leaves)
    ensures ToldAs(env, value, leaves, ContentWith(env, value, leaves, []))
  {
    hide Walked, Secretful, PlanMakes, Reads, ContentWith, LeavesMade, TextsMade, RestoredTexts, Plan;
    assert Walked(value, leaves);
    BasePlanned(env, value, leaves);
    PlannedReads(env, value, leaves, [], Plan(env, leaves), RestoredTexts(env, leaves));
    RestoredMade(env, value, leaves);
    HeadsMade(env, leaves, RestoredTexts(env, leaves));
  }

  /** The segment in the place of one that is told has the same document. */
  lemma SameTold(env: Env, x: Segment, seg: Segment, leaves: seq<Leaf>)
    requires SameFrame(x, seg) && seg.Ok() && UsableLeaves(env, seg.Value()) == Some(leaves)
    requires ToldAs(env, seg.Value(), leaves, x.content)
    ensures Told(env, x)
  {
    hide ToldAs, UsableLeaves;
  }

  lemma NotUsableTold(env: Env, x: Segment)
    requires !x.hasSpan || (x.Ok() && UsableLeaves(env, x.Value()).None?)
    ensures Told(env, x)
  {
    hide ToldAs, UsableLeaves;
  }

  /** A queue, and one more envelope. */
  lemma QueuesTold(env: Env, st: St, r: Step, seg: Segment, leaves: seq<Leaf>, content: bytes)
    requires AllTold(env, st.segments) && Queues(st, r, seg, content)
    requires seg.Ok() && UsableLeaves(env, seg.Value()) == Some(leaves) && ToldAs(env, seg.Value(), leaves, content)
    ensures AllTold(env, r.released) && AllTold(env, r.st.segments)
  {
    hide Told, ToldAs, AllTold, UsableLeaves;
    var x :| SameFrame(x, seg) && x.content == content && r.released + r.st.segments == st.segments + [x];
    SameTold(env, x, seg, leaves);
    OneTold(env, x);
    AllToldAppend(env, st.segments, [x]);
    AllToldAppend(env, r.released, r.st.segments);
  }

  lemma OneTold(env: Env, x: Segment)
    requires Told(env, x)
    ensures AllTold(env, [x])
  {
    hide Told;
  }

  lemma HandoffTold(env: Env, st: St)
    requires Shape(st) && ToldState(env, st)
    ensures Handoff(st).held == [] && AllTold(env, Handoff(st).segments)
  {
    hide Told, UsableLeaves;
    HandoffShape(st);
    if st.held != [] {
      FrontHeld(st);
      var segs := Handoff(st).segments;
      forall s | s in segs ensures Told(env, s) {
        var k :| 0 <= k < |segs| && segs[k] == s;
        if k > 0 {
          assert s == st.segments[k];
        } else {
          NotUsableTold(env, s);
        }
      }
    }
  }

  /** The tail goes to the front segment, and to no other. */
  lemma FrontHeld(st: St)
    requires Shape(st) && st.held != []
    ensures st.segments != [] && Handoff(st).segments == AppendContent(st.segments, 0, st.held)
  {
    var i := LastRawBelow(st.segments, |st.segments|);
    assert st.segments[0].IsRaw();
    assert i == 0;
  }

  // ---------------------------------------------------------------------- the completing step

  /** A fragment that is cut off leaves its envelope told. */
  lemma GoneTold(env: Env, before: Segment, after: Segment, p: Part, y: bytes)
    requires before.Ok() && Secretful(env) && Utf8.Valid(p.leaf.value) && p.start <= |p.leaf.value|
    requires FragmentGone(env, before, after, p, y)
    ensures Told(env, after)
  {
    hide Reads, Secretful, CutText, TextsMade, UsableLeaves, LeavesMade;
    var leaves := env.walk(before.Value()).value;
    var texts: seq<bytes>, j: nat :|
      && j < |texts| == |leaves| && leaves[j] == p.leaf
      && texts[j] == y + CutText(env, before, p)
      && (before.extra == [] ==> texts == RestoredTexts(env, leaves)) && TextsMade(env, leaves, texts)
      && Reads(before.Value(), leaves, before.content, texts)
      && Reads(before.Value(), leaves, after.content, texts[j := y]);
    CutMade(env, before, leaves, texts, j, p, y);
    UsableIs(env, before.Value());
  }

  lemma CutMade(env: Env, seg: Segment, leaves: seq<Leaf>, texts: seq<bytes>, j: nat, p: Part, y: bytes)
    requires seg.Ok() && Secretful(env) && Utf8.Valid(p.leaf.value) && p.start <= |p.leaf.value|
    requires TextsMade(env, leaves, texts) && j < |leaves| && leaves[j] == p.leaf
             && texts[j] == y + CutText(env, seg, p)
    ensures LeavesMade(env, leaves, texts[j := y])
  {
    hide HeadMade, RestFrom, Secretful, Overlapped;
    assert y + [] == y;
    assert HeadMade(env, p.leaf.value, y + CutText(env, seg, p));
  }

  lemma DeletedTold(env: Env, st: St, gone: seq<Segment>, head: bytes)
    requires AllTold(env, st.segments) && |gone| == |st.segments|
    requires forall n :: 0 <= n < |gone| && !Referenced(st.parts, n) ==> gone[n] == st.segments[n]
    requires forall i :: 0 <= i < |st.parts| ==> PieceGone(env, st, gone, i, head)
    ensures AllTold(env, gone)
  {
    hide Told, FragmentGone, Secretful;
    forall s | s in gone ensures Told(env, s) {
      var n :| 0 <= n < |gone| && gone[n] == s;
      if Referenced(st.parts, n) {
        var p :| p in st.parts && p.seg == n;
        var i :| 0 <= i < |st.parts| && st.parts[i] == p;
        assert PieceGone(env, st, gone, i, head);
        GoneTold(env, st.segments[n], gone[n], p, if i == 0 then head else []);
      } else {
        assert st.segments[n] in st.segments;
      }
    }
  }

  lemma CompleteTold(env: Env, st: St, seg: Segment, leaves: seq<Leaf>, m: Leaf)
    requires WalkSound(env) && Secretful(env) && Shape(st) && Carried(env, st) && AllTold(env, st.segments)
    requires Completes(env, st, seg, leaves, m) && UsableLeaves(env, seg.Value()) == Some(leaves)
    ensures PartsOk(st)
    ensures
      var r := AcceptLeaf(env, st, seg, leaves);
      AllTold(env, r.released) && AllTold(env, r.st.segments)
  {
    hide WalkSound, Secretful, Shape, Carried, AllTold, Completes, UsableLeaves, DeleteParts, PieceGone, LaterCut;
    hide Queues;
    hide Reads, AcceptLeaf, HeadText, TokenLen, LeavesMade, ToldAs, RestoredTexts;
    var head, j, k := SplitTokenRestored(env, st, seg, leaves, m);
    var gone := DeleteParts(env, st.segments, st.parts);
    DeletedTold(env, st, gone, head);
    CompletesFacts(env, st, seg, leaves, m, k);
    var secret := env.restore(st.carry + m.value[..k]);
    var texts := RestoredTexts(env, leaves)[j := HeadText(env, seg.Value(), m, k, secret)];
    SecretMade(env, seg.Value(), leaves, j, k, secret);
    HeadsMade(env, leaves, texts);
    var content :|
      && Queues(st.(segments := gone), AcceptLeaf(env, st, seg, leaves), seg, content)
      && Reads(seg.Value(), leaves, content, texts);
    assert ToldAs(env, seg.Value(), leaves, content) by { TextsTold(env, seg.Value(), leaves, content, texts); }
    QueuesTold(env, st.(segments := gone), AcceptLeaf(env, st, seg, leaves), seg, leaves, content);
  }

  lemma TextsTold(env: Env, value: bytes, leaves: seq<Leaf>, content: bytes, texts: seq<bytes>)
    requires Reads(value, leaves, content, texts) && LeavesMade(env, leaves, texts)
    ensures ToldAs(env, value, leaves, content)
  {
    hide Reads, LeavesMade;
  }

  lemma CompletesFacts(env: Env, st: St, seg: Segment, leaves: seq<Leaf>, m: Leaf, k: nat)
    requires WalkSound(env) && Secretful(env) && Completes(env, st, seg, leaves, m)
    requires k <= |m.value| && TokenLen(st.carry + m.value[..k]) == |st.carry| + k
    ensures seg.Ok() && Walked(seg.Value(), leaves)
    ensures Completed(env, m.value, k, env.restore(st.carry + m.value[..k]))
  {
    hide TokenLen, Walked, Secretful, Completed, KeepPlaceholder;
    var t := TokenLen(st.carry + m.value);
    TokenHere(st.carry, m.value, k);
    CarryCompleted(env, st.carry, m.value, t);
  }

  // ------------------------------------------------------------------------------ each event

  lemma LeafTold(env: Env, st: St, seg: Segment, leaves: seq<Leaf>)
    requires WalkSound(env) && Secretful(env) && Shape(st) && Carried(env, st) && AllTold(env, st.segments)
    requires seg.Ok() && seg.hasSpan && UsableLeaves(env, seg.Value()) == Some(leaves)
    ensures PartsOk(st)
    ensures
      var r := AcceptLeaf(env, st, seg, leaves);
      AllTold(env, r.released) && AllTold(env, r.st.segments)
  {
    hide WalkSound, Secretful, Shape, Carried, AllTold, UsableLeaves, Queues, ToldAs, ContentWith, TokenLen, PrefixLen;
    hide FitsBudget, GiveUp, Extend, Complete, AcceptFresh, AcceptMismatch, KeepPlaceholder;
    ShapeParts(st);
    UsableIs(env, seg.Value());
    PlainTold(env, seg.Value(), leaves);
    var content, r := ContentWith(env, seg.Value(), leaves, []), AcceptLeaf(env, st, seg, leaves);
    if st.carry == [] {
      FreshQueues(env, st, seg, leaves);
      QueuesTold(env, st, r, seg, leaves, content);
    } else {
      match UniqueMatch(leaves, st.carryKey)
      case None =>
        MismatchQueues(env, st, seg, leaves);
        QueuesTold(env, st, r, seg, leaves, content);
      case Some(m) =>
        GiveUpQueues(env, st, seg, leaves);
        ExtendQueues(env, st, seg, leaves, m);
        if Completes(env, st, seg, leaves, m) {
          CompleteTold(env, st, seg, leaves, m);
        } else {
          QueuesTold(env, st, r, seg, leaves, content);
        }
    }
  }

  lemma LeafHeld(env: Env, st: St, seg: Segment, leaves: seq<Leaf>)
    requires seg.Ok() && PartsOk(st)
    ensures AcceptLeaf(env, st, seg, leaves).st.held == st.held
  {
    hide TokenLen, ContentWith, TrailingAfter, TrailingPrefix, KeepPlaceholder, DrainCount, FitsBudget, DeleteParts;
    hide PrefixLen;
  }

  lemma RawTold(env: Env, st: St, seg: Segment)
    requires AllTold(env, st.segments) && seg.Ok() && seg.hasSpan && UsableLeaves(env, seg.Value()).None?
    ensures
      var r := AcceptRaw(env, st, seg);
      AllTold(env, r.released) && ToldState(env, r.st)
  {
    hide AllTold, UsableLeaves, Release, SpellFeed;
    var (out, tail) := Release(MATCHER, Replacer(env, SpellFeed(env, seg.Value())), st.held + seg.Value());
    var r, x := AcceptRaw(env, st, seg), seg.(content := out);
    FlushFrames(st);
    assert [x][..0] == [] && [x][0..] == [x] && [] + [x] == [x];
    assert r.released == st.segments && r.st.segments == [x];
    NotUsableTold(env, x);
    OneTold(env, x);
  }

  lemma OtherTold(env: Env, st: St, ev: Event)
    requires Shape(st) && ToldState(env, st) && EventOk(ev) && |ev.dataSpans| != 1 && PartsOk(st)
    ensures AllTold(env, Accept(env, st, ev).released) && ToldState(env, Accept(env, st, ev).st)
  {
    hide AllTold, UsableLeaves;
    var seg := SegmentOf(ev);
    NotUsableTold(env, seg);
    OneTold(env, seg);
    AllToldAppend(env, st.segments, [seg]);
    var st1 := st.(segments := st.segments + [seg]);
    assert st1.segments[..|st1.segments|] == st1.segments && st1.segments[|st1.segments|..] == [];
    AllToldAppend(env, [], []);
    if st.held != [] {
      assert st.segments[0].IsRaw() && st1.segments[0] == st.segments[0];
    }
    NoneTold(env);
  }

  lemma NoneTold(env: Env)
    ensures AllTold(env, [])
  {
  }

  lemma AcceptTold(env: Env, st: St, ev: Event)
    requires WalkSound(env) && Secretful(env) && Shape(st) && Carried(env, st) && ToldState(env, st) && EventOk(ev)
    ensures PartsOk(st) && AllTold(env, Accept(env, st, ev).released) && ToldState(env, Accept(env, st, ev).st)
  {
    ShapeParts(st);
    if |ev.dataSpans| == 1 {
      hide WalkSound, Secretful, Shape, Carried, AllTold, UsableLeaves, AcceptLeaf, AcceptRaw, Handoff;
      var seg := SegmentOf(ev);
      HandoffTold(env, st);
      HandoffCarried(env, st);
      match UsableLeaves(env, seg.Value())
      case Some(leaves) =>
        UsableValid(env, seg.Value());
        LeafTold(env, Handoff(st), seg, leaves);
        LeafHeld(env, Handoff(st), seg, leaves);
      case None =>
        RawTold(env, if env.valid(seg.Value()) then Handoff(st) else st, seg);
    } else {
      OtherTold(env, st, ev);
    }
  }

  lemma UsableValid(env: Env, value: bytes)
    requires UsableLeaves(env, value).Some?
    ensures env.valid(value)
  {
  }

  // --------------------------------------------------------------------------- whole streams

  lemma {:induction false} RunTold(env: Env, st: St, events: seq<Event>)
    requires WalkSound(env) && Secretful(env) && Shape(st) && Carried(env, st) && ToldState(env, st) && AllOk(events)
    ensures
      var r := RunEvents(env, st, events);
      AllTold(env, r.released) && ToldState(env, r.st)
    decreases |events|
  {
    hide WalkSound, Secretful, Shape, Carried, AllTold, ToldState, Accept, SpanOk, EventOk;
    if events == [] {
      NoneTold(env);
    } else {
      OneOk(events);
      AcceptShape(env, st, events[0]);
      AcceptCarried(env, st, events[0]);
      AcceptTold(env, st, events[0]);
      var first := Accept(env, st, events[0]);
      RunTold(env, first.st, events[1..]);
      AllToldAppend(env, first.released, RunEvents(env, first.st, events[1..]).released);
    }
  }

  lemma ClosingTold(env: Env, st: St)
    requires Shape(st) && ToldState(env, st)
    ensures AllTold(env, Closing(st))
  {
    hide Told, UsableLeaves;
    var i, segs := PendingFrom(st.segments, 0), Closing(st);
    if i < |st.segments| {
      if st.held == [] {
        assert st.segments[i].content + [] == st.segments[i].content;
        assert segs == st.segments;
      } else {
        assert st.segments[0].IsRaw() && i == 0;
        forall s | s in segs ensures Told(env, s) {
          var k :| 0 <= k < |segs| && segs[k] == s;
          if k > 0 {
            assert s == st.segments[k];
          } else {
            NotUsableTold(env, s);
          }
        }
      }
    }
  }

  /**
   Over any stream: the record of each envelope leaves as the document the envelope was, each
   of its strings as LeafMade says.
   */
  lemma HistoryReads(env: Env, events: seq<Event>, n: nat)
    requires WalkSound(env) && Secretful(env) && AllOk(events) && n < |events| && |events[n].dataSpans| == 1
    ensures EventOk(events[n]) && |History(env, events)| == |events|
    ensures
      var value := SegmentOf(events[n]).Value();
      UsableLeaves(env, value).Some? ==>
        exists texts ::
          && Reads(value, UsableLeaves(env, value).value, History(env, events)[n].content, texts)
          && LeavesMade(env, UsableLeaves(env, value).value, texts)
  {
    hide WalkSound, Secretful, Shape, Carried, RunEvents, Closing, UsableLeaves, Reads, LeavesMade, SpanOk;
    EmptyShape();
    NoCarry(env, EMPTY);
    RunTold(env, EMPTY, events) by { assert ToldState(env, EMPTY) by { NothingTold(env); } }
    var r := RunEvents(env, EMPTY, events);
    ClosingTold(env, r.st);
    AllToldAppend(env, r.released, Closing(r.st));
    HistoryFrames(env, events);
    var x := History(env, events)[n];
    assert events[n] in events && x in History(env, events) && SameFrame(x, SegmentsOf(events)[n]);
    assert Told(env, x);
  }

  lemma NothingTold(env: Env)
    ensures ToldState(env, EMPTY)
  {
  }
}
