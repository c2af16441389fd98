/**
 The streaming reassembler (pkg/redact/sse_backfill.go:158-341, sse_leaf.go:52-262): the
 object the source mutates, proved against the functions of Reassembly.dfy, SseRun.dfy and
 SseStream.dfy. There is no observer.
 */
module SseBackfill {
  import opened Bytes
  import opened Sse
  import opened SseLaws
  import opened Lens
  import opened Apply
  import opened Placeholder
  import opened Holdback
  import opened HoldbackPlaceholder
  import opened Reassembly
  import opened ReassemblyInv
  import opened SseScan
  import opened SseRun
  import opened SseStream
  import Splice

  class SSEBackfiller {
    const env: Env
    const decoder: Decoder
    const writer: BackfillWriter

    var feed: Feed

    var segments: seq<Segment>
    var tail: bytes
    var closed: bool

    var carry: bytes
    var carryKey: bytes
    var carryParts: seq<Part>
    var heldBytes: nat

    ghost function Abs(): St
      reads this, writer
    {
      St(writer.held, segments, carry, carryKey, carryParts, heldBytes)
    }

    ghost function View(): Session
      reads this, writer, decoder
    {
      Session(decoder.Abs(), Abs(), closed)
    }

    ghost predicate Linked()
      reads this, decoder
    {
      writer.matcher == MATCHER && decoder.Valid() && decoder.closed == closed
    }

    ghost predicate Valid()
      reads this, writer, decoder
    {
      && Linked()
      && (!closed ==> tail == decoder.buf && Live(View()))
    }

    constructor (e: Env)
      ensures Valid() && env == e && View() == FRESH && fresh(decoder) && fresh(writer)
    {
      env := e;
      decoder := new Decoder();
      writer := new BackfillWriter(MATCHER);
      feed := Feed(map[], false);
      segments, tail, closed := [], [], false;
      carry, carryKey, carryParts, heldBytes := [], [], [], 0;
      new;
      FreshIsLive();
    }

    /** How many bytes the accumulator holds back: writer tail, carry and held segments. */
    function Held(): (h: nat)
      requires Valid()
      reads this, writer, decoder
      ensures !closed ==> h <= HOLDBACK_BYTES
    {
      Used()
    }

    /** What fitsBudget adds to. */
    function Used(): nat
      reads this, writer
    {
      |writer.held| + |carry| + heldBytes
    }

    // ------------------------------------------------------------------- small steps

    method ReleaseN(n: nat) returns (out: bytes, ghost released: seq<Segment>)
      requires n <= |segments| && SegsOk(segments)
      modifies `segments
      ensures Step(Abs(), released) == ReleaseSegs(old(Abs()), n)
      ensures SegsOk(released) && out == RenderAll(released) && SegsOk(segments)
    {
      out := [];
      var i := 0;
      released := segments[..n];
      assert forall s :: s in released ==> s in segments;
      while i < n
        invariant i <= n && segments == old(segments) && out == RenderAll(released[..i])
      {
        assert segments[i] in segments && released[i] == segments[i];
        RenderOne(segments[i]);
        RenderAppend(released[..i], [segments[i]]);
        assert released[..i + 1] == released[..i] + [segments[i]];
        out := out + segments[i].Bytes();
        i := i + 1;
      }
      assert released[..n] == released;
      assert forall s :: s in segments[n..] ==> s in segments;
      segments := segments[n..];
    }

    method PendingIndex() returns (i: nat)
      ensures i == PendingFrom(segments, 0)
    {
      i := 0;
      while i < |segments| && !segments[i].hasSpan
        invariant i <= |segments| && PendingFrom(segments, i) == PendingFrom(segments, 0)
      {
        i := i + 1;
      }
    }

    method Clear()
      modifies `carry, `carryKey, `carryParts, `heldBytes
      ensures Abs() == ClearCarry(old(Abs()))
    {
      carry, carryKey, carryParts, heldBytes := [], [], [], 0;
    }

    method FlushAll() returns (out: bytes, ghost released: seq<Segment>)
      requires SegsOk(segments)
      modifies this
      ensures Step(Abs(), released) == FlushHeld(old(Abs()))
      ensures SegsOk(released) && out == RenderAll(released) && SegsOk(segments)
      ensures tail == old(tail) && closed == old(closed)
    {
      out, released := ReleaseN(|segments|);
      Clear();
    }

    method HandoffWriter()
      requires SegsOk(segments)
      modifies `segments, writer
      ensures Abs() == Handoff(old(Abs())) && SegsOk(segments)
    {
      if writer.held == [] {
        return;
      }
      var i: int := |segments|;
      while i > 0
        invariant 0 <= i <= |segments| && Abs() == old(Abs())
        invariant LastRawBelow(segments, i) == LastRawBelow(segments, |segments|)
      {
        i := i - 1;
        if segments[i].IsRaw() {
          assert segments[i] in segments;
          var held := writer.Flush();
          segments := AppendContent(segments, i, held);
          return;
        }
      }
    }

    method IsReferenced(n: nat) returns (yes: bool)
      ensures yes == Referenced(carryParts, n)
    {
      for i := 0 to |carryParts|
        invariant forall k :: 0 <= k < i ==> carryParts[k].seg != n
      {
        if carryParts[i].seg == n {
          assert carryParts[i] in carryParts;
          return true;
        }
      }
      return false;
    }

    method RawFollows(n: nat) returns (yes: bool)
      requires n < |segments|
      ensures yes == HasLaterRaw(segments, n)
    {
      for j := n + 1 to |segments|
        invariant forall k :: n < k < j ==> !segments[k].IsRaw()
      {
        if segments[j].IsRaw() {
          return true;
        }
      }
      return false;
    }

    method DrainQueue() returns (out: bytes, ghost released: seq<Segment>)
      requires SegsOk(segments)
      modifies `segments
      ensures Step(Abs(), released) == Drain(old(Abs()))
      ensures SegsOk(released) && out == RenderAll(released) && SegsOk(segments)
    {
      var n := 0;
      while n < |segments|
        invariant n <= |segments| && Abs() == old(Abs())
        invariant DrainCount(Abs(), n) == DrainCount(Abs(), 0)
      {
        var seg := segments[n];
        var held := IsReferenced(n);
        if seg.leaf && held {
          break;
        }
        var later := RawFollows(n);
        if seg.IsRaw() && !later {
          break;
        }
        n := n + 1;
      }
      out, released := ReleaseN(n);
    }

    /** contentWith: the leaf restores of a value, and further edits. */
    method Content(value: bytes, leaves: seq<Leaf>, extra: seq<Edit>) returns (content: bytes)
      ensures content == ContentWith(env, value, leaves, extra)
    {
      var edits := WithinLeafEdits(env, leaves);
      edits := edits + extra;
      if edits == [] {
        ApplyNothing(value);
        return value;
      }
      var idx;
      content, idx := ApplyEdits(value, edits);
    }

    method EditHeldSegment(p: Part, repl: bytes)
      requires SegsOk(segments) && p.seg < |segments|
      modifies `segments
      ensures segments == EditHeld(env, old(segments), p, repl) && SegsOk(segments)
    {
      var seg := segments[p.seg];
      assert seg in segments;
      seg := seg.(extra := seg.extra + [Edit(p.leaf, p.start, p.end, repl)]);
      var walked := env.walk(seg.Value());
      if walked.Some? {
        var content := Content(seg.Value(), walked.value, seg.extra);
        seg := seg.(content := content);
      }
      segments := segments[p.seg := seg];
    }

    method DeleteHeldParts()
      requires SegsOk(segments) && forall p :: p in carryParts ==> p.seg < |segments|
      modifies `segments
      ensures segments == DeleteParts(env, old(segments), carryParts) && SegsOk(segments)
    {
      var i := 0;
      assert carryParts[0..] == carryParts;
      while i < |carryParts|
        invariant i <= |carryParts| && SegsOk(segments) && |segments| == old(|segments|)
        invariant forall p :: p in carryParts[i..] ==> p.seg < |segments|
        invariant DeleteParts(env, segments, carryParts[i..]) == DeleteParts(env, old(segments), carryParts)
      {
        assert carryParts[i..][0] == carryParts[i] && carryParts[i..][1..] == carryParts[i + 1..];
        assert carryParts[i] in carryParts[i..];
        EditHeldSegment(carryParts[i], []);
        assert forall p :: p in carryParts[i + 1..] ==> p in carryParts[i..];
        i := i + 1;
      }
    }

    method Emit(seg: Segment, content: bytes, extra: seq<Edit>)
      requires SegsOk(segments) && seg.Ok()
      modifies `segments
      ensures Abs() == EmitSegment(old(Abs()), seg, content, extra) && SegsOk(segments)
    {
      segments := segments + [seg.(leaf := true, content := content, extra := extra)];
    }

    method Hold(seg: Segment, content: bytes, extra: seq<Edit>)
      requires SegsOk(segments) && seg.Ok()
      modifies `segments, `heldBytes
      ensures Abs() == HoldSegment(old(Abs()), seg, content, extra) && SegsOk(segments)
    {
      heldBytes := heldBytes + |seg.raw| + |content|;
      segments := segments + [seg.(leaf := true, content := content, extra := extra)];
    }

    method Begin(seg: Segment, content: bytes, extra: seq<Edit>, t: Tail)
      requires SegsOk(segments) && seg.Ok() && t.Ok()
      modifies this
      ensures Abs() == StartCarry(old(Abs()), seg, content, extra, t) && SegsOk(segments)
      ensures tail == old(tail) && closed == old(closed)
    {
      var cur := |segments|;
      Hold(seg, content, extra);
      carry, carryKey := t.Text(), t.leaf.identity;
      carryParts := [Part(cur, t.leaf, t.start, |t.leaf.value|)];
    }

    method BeginOrEmit(seg: Segment, content: bytes, extra: seq<Edit>, t: Option<Tail>)
      requires SegsOk(segments) && seg.Ok() && (t.Some? ==> t.value.Ok())
      modifies this
      ensures Abs() == HoldOrEmit(old(Abs()), seg, content, extra, t) && SegsOk(segments)
      ensures tail == old(tail) && closed == old(closed)
    {
      if t.Some? && Used() + |seg.raw| + |content| + |t.value.Text()| <= CAP {
        Begin(seg, content, extra, t.value);
      } else {
        Emit(seg, content, []);
      }
    }

    // --------------------------------------------------------- the branches of acceptLeaf

    method HoldOrQueue(seg: Segment, leaves: seq<Leaf>) returns (out: bytes, ghost released: seq<Segment>)
      requires SegsOk(segments) && seg.Ok() && carry == []
      modifies this
      ensures Step(Abs(), released) == AcceptFresh(env, old(Abs()), seg, leaves)
      ensures SegsOk(released) && out == RenderAll(released) && SegsOk(segments)
      ensures tail == old(tail) && closed == old(closed)
    {
      hide ContentWith, TrailingPrefix, Drain;
      var content := Content(seg.Value(), leaves, []);
      var t := FindTrailingPrefix(leaves);
      if t.Some? && Used() + |seg.raw| + |content| + |t.value.Text()| <= CAP {
        ghost var first, second;
        out, first := ReleaseN(|segments|);
        Begin(seg, content, [], t.value);
        var more;
        more, second := DrainQueue();
        RenderAppend(first, second);
        released := first + second;
        out := out + more;
      } else {
        Emit(seg, content, []);
        out, released := DrainQueue();
      }
    }

    method Restart(seg: Segment, leaves: seq<Leaf>) returns (out: bytes, ghost released: seq<Segment>)
      requires SegsOk(segments) && seg.Ok()
      modifies this
      ensures Step(Abs(), released) == AcceptMismatch(env, old(Abs()), seg, leaves)
      ensures SegsOk(released) && out == RenderAll(released) && SegsOk(segments)
      ensures tail == old(tail) && closed == old(closed)
    {
      hide ContentWith, TrailingPrefix, Drain, FlushHeld, HoldOrEmit;
      ghost var first, second;
      out, first := FlushAll();
      var content := Content(seg.Value(), leaves, []);
      var t := FindTrailingPrefix(leaves);
      BeginOrEmit(seg, content, [], t);
      var more;
      more, second := DrainQueue();
      RenderAppend(first, second);
      released := first + second;
      out := out + more;
    }

    method LetGo(seg: Segment, leaves: seq<Leaf>) returns (out: bytes, ghost released: seq<Segment>)
      requires SegsOk(segments) && seg.Ok()
      modifies this
      ensures Step(Abs(), released) == GiveUp(env, old(Abs()), seg, leaves)
      ensures SegsOk(released) && out == RenderAll(released) && SegsOk(segments)
      ensures tail == old(tail) && closed == old(closed)
    {
      hide ContentWith, Drain, FlushHeld;
      ghost var first, second;
      out, first := FlushAll();
      var content := Content(seg.Value(), leaves, []);
      Emit(seg, content, []);
      var more;
      more, second := DrainQueue();
      RenderAppend(first, second);
      released := first + second;
      out := out + more;
    }

    method CompleteToken(seg: Segment, leaves: seq<Leaf>, m: Leaf, secret: bytes, k: nat)
      returns (out: bytes, ghost released: seq<Segment>)
      requires PartsOk(Abs()) && seg.Ok()
      modifies this
      ensures PartsOk(old(Abs()))
      ensures Step(Abs(), released) == Complete(env, old(Abs()), seg, leaves, m, secret, k)
      ensures SegsOk(released) && out == RenderAll(released) && SegsOk(segments)
      ensures tail == old(tail) && closed == old(closed)
    {
      hide ContentWith, TrailingAfter, Drain, FlushHeld, HoldOrEmit, DeleteParts;
      ghost var first, second;
      DeleteHeldParts();
      out, first := FlushAll();
      var spelled := LeafRawSpelling(m, secret);
      var extra := [Edit(m, 0, k, spelled)];
      var content := Content(seg.Value(), leaves, extra);
      var t := FindTrailingAfter(leaves, m, k);
      BeginOrEmit(seg, content, extra, t);
      var more;
      more, second := DrainQueue();
      RenderAppend(first, second);
      released := first + second;
      out := out + more;
    }

    method Match(seg: Segment, leaves: seq<Leaf>, m: Leaf) returns (out: bytes, ghost released: seq<Segment>)
      requires PartsOk(Abs()) && seg.Ok() && carry != []
      modifies this
      ensures PartsOk(old(Abs()))
      ensures Step(Abs(), released) == AcceptMatch(env, old(Abs()), seg, leaves, m)
      ensures SegsOk(released) && out == RenderAll(released) && SegsOk(segments)
      ensures tail == old(tail) && closed == old(closed)
    {
      hide ContentWith, Drain, GiveUp, Complete, TokenLen, PrefixLen, KeepPlaceholder;
      var combined := carry + m.value;
      var t := ScanTokenLen(combined);
      if t > |carry| {
        var secret := env.restore(combined[..t]);
        var keep := MustKeepPlaceholder(env, carryParts[0].leaf, secret);
        if secret == combined[..t] || keep {
          out, released := LetGo(seg, leaves);
        } else {
          out, released := CompleteToken(seg, leaves, m, secret, t - |carry|);
        }
        return;
      }
      var content := Content(seg.Value(), leaves, []);
      var p := ScanPrefixLen(combined);
      if p != |combined| || |combined| > MAX_LEN || Used() + |seg.raw| + |content| + |m.value| > CAP {
        out, released := LetGo(seg, leaves);
        return;
      }
      var cur := |segments|;
      Hold(seg, content, []);
      carry := combined;
      carryParts := carryParts + [Part(cur, m, 0, |m.value|)];
      out, released := DrainQueue();
    }

    method AcceptLeafEvent(seg: Segment) returns (handled: bool, out: bytes, ghost released: seq<Segment>)
      requires Shape(Abs()) && seg.Ok()
      modifies this, writer
      ensures tail == old(tail) && closed == old(closed)
      ensures handled == UsableLeaves(env, seg.Value()).Some?
      ensures Shape(old(Abs())) && PartsOk(Handoff(old(Abs())))
      ensures handled ==>
                && Step(Abs(), released)
                  == AcceptLeaf(env, Handoff(old(Abs())), seg, UsableLeaves(env, seg.Value()).value)
                && SegsOk(released) && out == RenderAll(released)
      ensures !handled ==> Abs() == if env.valid(seg.Value()) then Handoff(old(Abs())) else old(Abs())
      ensures SegsOk(segments)
    {
      handled, out, released := false, [], [];
      ShapeSegs(Abs());
      HandoffShape(Abs());
      ShapeParts(Handoff(Abs()));
      var value := seg.Value();
      if !env.valid(value) {
        return;
      }
      HandoffWriter();
      hide Shape, Handoff, AcceptFresh, AcceptMismatch, AcceptMatch, UniqueMatch, PartsOk;
      var walked := env.walk(value);
      if walked.None? || !HasIdentifiable(walked.value) {
        return;
      }
      var leaves := walked.value;
      handled := true;
      if |carry| == 0 {
        out, released := HoldOrQueue(seg, leaves);
        return;
      }
      var m := UniqueIdentityMatch(leaves, carryKey);
      if m.None? {
        out, released := Restart(seg, leaves);
        return;
      }
      out, released := Match(seg, leaves, m.value);
    }

    // ----------------------------------------------------------------------- the stream

    method AcceptRawEvent(seg: Segment) returns (out: bytes, ghost released: seq<Segment>)
      requires Linked() && SegsOk(segments) && seg.Ok() && seg.hasSpan
      modifies this, writer
      ensures Step(Abs(), released) == AcceptRaw(env, old(Abs()), seg)
      ensures SegsOk(released) && out == RenderAll(released) && SegsOk(segments)
      ensures tail == old(tail) && closed == old(closed)
    {
      hide FlushHeld, SpellFeed, Release, Replacer;
      ghost var first, second;
      out, first := FlushAll();
      var value := seg.Value();
      feed := FillFeed(env, value);
      var content := writer.Feed(value, Replacer(env, feed));
      segments := segments + [seg.(content := content)];
      var more;
      more, second := ReleaseN(|segments| - 1);
      RenderAppend(first, second);
      released := first + second;
      out := out + more;
    }

    method AcceptEvent(ev: Event) returns (out: bytes, ghost released: seq<Segment>)
      requires Linked() && Shape(Abs()) && SpanOk(ev)
      modifies this, writer
      ensures tail == old(tail) && closed == old(closed)
      ensures Shape(old(Abs())) && PartsOk(old(Abs()))
      ensures Step(Abs(), released) == Accept(env, old(Abs()), ev) && Shape(Abs())
      ensures SegsOk(released) && out == RenderAll(released)
    {
      hide Shape, AcceptLeaf, AcceptRaw, Handoff, UsableLeaves, PartsOk, SegsOk, RenderAll, HasPending, ReleaseSegs;
      ShapeParts(Abs());
      AcceptShape(env, Abs(), ev);
      var seg := SegmentOf(ev);
      if |ev.dataSpans| == 1 {
        var handled;
        handled, out, released := AcceptLeafEvent(seg);
        if handled {
          UsableIsValid(env, seg.Value());
          return;
        }
        out, released := AcceptRawEvent(seg);
        return;
      }
      ShapeSegs(Abs());
      out, released := AcceptOther(seg);
    }

    /** A record that is not a single data line waits behind a pending data segment. */
    method AcceptOther(seg: Segment) returns (out: bytes, ghost released: seq<Segment>)
      requires SegsOk(segments) && seg.Ok()
      modifies `segments
      ensures
        var st := old(Abs()).(segments := old(segments) + [seg]);
        Step(Abs(), released) == if HasPending(st.segments) then Step(st, []) else ReleaseSegs(st, |st.segments|)
      ensures SegsOk(released) && out == RenderAll(released)
    {
      segments := segments + [seg];
      var i := PendingIndex();
      if i < |segments| {
        return [], [];
      }
      out, released := ReleaseN(|segments|);
    }

    method Consume(events: seq<Event>) returns (out: bytes, ghost released: seq<Segment>)
      requires Linked() && Shape(Abs()) && AllOk(events)
      requires Raws(events) <= tail
      modifies this, writer
      ensures closed == old(closed) && Shape(old(Abs()))
      ensures tail == old(tail)[|Raws(events)|..]
      ensures Step(Abs(), released) == RunEvents(env, old(Abs()), events)
      ensures SegsOk(released) && out == RenderAll(released) && Shape(Abs())
    {
      hide Shape, Accept, SpanOk;
      out, released := [], [];
      var i := 0;
      assert events[0..] == events;
      ghost var goal := RunEvents(env, Abs(), events);
      while i < |events|
        invariant i <= |events| && closed == old(closed) && Linked() && Shape(Abs())
        invariant AllOk(events[i..]) && SegsOk(released) && out == RenderAll(released)
        invariant Raws(events[i..]) <= tail
        invariant tail[|Raws(events[i..])|..] == old(tail)[|Raws(events)|..]
        invariant goal == Step(Abs(), released).Then(RunEvents(env, Abs(), events[i..]))
      {
        var ev := events[i];
        ghost var rest := events[i..];
        assert rest[0] == ev && rest[1..] == events[i + 1..];
        OneOk(rest);
        ghost var rest' := Raws(events[i + 1..]);
        assert Raws(rest) == ev.raw + rest';
        var n := if |ev.raw| < |tail| then |ev.raw| else |tail|;
        tail := tail[n..];
        ghost var before := Abs();
        ghost var mine;
        var more;
        more, mine := AcceptEvent(ev);
        RenderAppend(released, mine);
        Assoc(released, mine, RunEvents(env, Abs(), events[i + 1..]).released);
        out := out + more;
        released := released + mine;
        i := i + 1;
      }
      assert events[i..] == [];
    }

    method Write(chunk: bytes) returns (out: bytes)
      requires Valid()
      modifies this, decoder, writer
      ensures Valid() && (old(closed) ==> out == [] && closed)
      ensures !old(closed) ==>
                Live(old(View())) && (View(), out) == WriteSpec(env, old(View()), chunk)
    {
      if closed {
        return [];
      }
      tail := tail + chunk;
      ghost var dec := decoder.Abs();
      FeedSpans(dec, chunk);
      ScanConserves(dec.Append(chunk), false);
      var r := decoder.Feed(chunk);
      ghost var released;
      assert Raws(r.events) <= tail;
      out, released := Consume(r.events);
    }

    /** The writer's tail goes to the pending data segment, and the whole queue leaves. */
    method ReleaseRest() returns (out: bytes)
      requires SegsOk(segments)
      modifies `segments, writer
      ensures SegsOk(Closing(old(Abs()))) && out == RenderAll(Closing(old(Abs())))
    {
      ClosingOk(Abs());
      ghost var last := Closing(Abs());
      var i := PendingIndex();
      if i < |segments| {
        var held := writer.Flush();
        segments := AppendContent(segments, i, held);
      }
      assert segments == last && last[..|last|] == last;
      ghost var released;
      out, released := ReleaseN(|segments|);
    }

    /** The decoder's trailing record is processed. */
    method CloseDecoder() returns (out: bytes, ghost released: seq<Segment>)
      requires Valid() && !closed
      modifies this, decoder, writer
      ensures Linked() && closed && SegsOk(segments)
      ensures Live(old(View())) && AllOk(CloseSpec(old(decoder.Abs())).1)
      ensures tail == CloseSpec(old(decoder.Abs())).0.buf
      ensures Step(Abs(), released) == RunEvents(env, old(Abs()), CloseSpec(old(decoder.Abs())).1)
      ensures SegsOk(released) && out == RenderAll(released)
    {
      hide Shape, CloseSpec, SpansOk, RenderAll, SegsOk, RunEvents;
      closed := true;
      ghost var dec := decoder.Abs();
      CloseSpans(dec);
      CloseConserves(dec);
      SpansValid(dec);
      var events := decoder.Close();
      out, released := Consume(events);
      ShapeSegs(Abs());
    }

    method Flush() returns (out: bytes)
      requires Valid()
      modifies this, decoder, writer
      ensures Valid() && closed && (old(closed) ==> out == [])
      ensures !old(closed) ==> Live(old(View())) && out == FlushSpec(env, old(View()))
    {
      hide Shape, CloseSpec, SpansOk, RenderAll, Closing, RunEvents;
      if closed {
        return [];
      }
      ghost var released;
      out, released := CloseDecoder();
      var more := ReleaseRest();
      out := out + (more + tail);
      tail := [];
      Clear();
    }
  }

  lemma RenderOne(seg: Segment)
    requires seg.Ok()
    ensures SegsOk([seg]) && RenderAll([seg]) == seg.Bytes()
  {
    assert [seg][1..] == [];
    assert RenderAll([seg]) == seg.Bytes() + RenderAll([]);
  }

  lemma ApplyNothing(body: bytes)
    ensures Applied(body, []) == body
  {
    assert Kept(body, []) == [];
    assert Wins([]) == [];
    assert Splice.Splices(body, [], 0) == body[0..];
  }
}
