/**
 What every event keeps: the queue indices of the carry stay valid, the bytes counted as held
 are those of the carry's segments and never exceed the cap, and the carry is the
 concatenation of its recorded fragments.
 */
module ReassemblyInv {
  import opened Bytes
  import opened Sse
  import opened Lens
  import opened Apply
  import opened Placeholder
  import opened HoldbackPlaceholder
  import opened Reassembly

  /** The bytes of the segments that hold carry fragments. */
  function HeldSum(segs: seq<Segment>, parts: seq<Part>): nat
    requires forall p :: p in parts ==> p.seg < |segs|
  {
    if parts == [] then 0 else
    var p := parts[|parts| - 1];
    HeldSum(segs, parts[..|parts| - 1]) + |segs[p.seg].raw| + |segs[p.seg].content|
  }

  predicate FragmentOk(p: Part, first: bool) {
    && p.start <= p.end == |p.leaf.value|
    && (if first then p.start < p.end else p.start == 0)
  }

  /** The fragments, joined. */
  function Fragments(parts: seq<Part>): bytes
    requires forall p :: p in parts ==> p.start <= p.end <= |p.leaf.value|
  {
    if parts == [] then [] else
    var p := parts[|parts| - 1];
    Fragments(parts[..|parts| - 1]) + p.leaf.value[p.start..p.end]
  }

  /** A non-empty writer tail belongs to the one queued data segment, a raw one at the front. */
  ghost predicate TailOwned(st: St) {
    st.held != [] ==>
      && st.segments != [] && st.segments[0].IsRaw()
      && forall k :: 0 < k < |st.segments| ==> !st.segments[k].hasSpan
  }

  /** The carry's indices: the queue's data segments are its contributors, from the front. */
  ghost predicate CarryOwned(st: St) {
    && st.parts != [] && st.parts[0].seg == 0 && st.held == []
    && (forall p :: p in st.parts ==> p.seg < |st.segments|)
    && (forall i, j :: 0 <= i < j < |st.parts| ==> st.parts[i].seg < st.parts[j].seg)
    && (forall p :: p in st.parts ==> st.segments[p.seg].leaf)
    && (forall k :: 0 <= k < |st.segments| && st.segments[k].hasSpan ==> Referenced(st.parts, k))
  }

  ghost predicate CarrySpelled(st: St) {
    && (forall i :: 0 <= i < |st.parts| ==> FragmentOk(st.parts[i], i == 0))
    && (forall p :: p in st.parts ==> p.leaf.identifiable && p.leaf.identity == st.carryKey)
    && st.carry == Fragments(st.parts)
  }

  ghost predicate Shape(st: St) {
    && SegsOk(st.segments)
    && (forall s :: s in st.segments && s.leaf ==> s.hasSpan)
    && TailOwned(st) && |st.held| < MAX_LEN
    && (if st.carry == [] then st.parts == [] && st.heldBytes == 0
        else
          && CarryOwned(st) && CarrySpelled(st)
          && st.heldBytes == HeldSum(st.segments, st.parts))
    && |st.held| + |st.carry| + st.heldBytes <= CAP
  }

  lemma ShapeParts(st: St)
    requires Shape(st)
    ensures PartsOk(st)
  {
  }

  // ------------------------------------------------------------------ the queue's steps

  lemma {:induction false} DrainStopsAtCarry(st: St)
    requires Shape(st) && st.carry != []
    ensures Drain(st) == Step(st, [])
  {
    assert st.parts[0] in st.parts;
    assert st.segments[0..] == st.segments && st.segments[..0] == [];
  }

  lemma ShapeOfSuffix(st: St, n: nat)
    requires Shape(st) && st.carry == [] && st.held == [] && n <= |st.segments|
    ensures Shape(st.(segments := st.segments[n..]))
  {
    assert forall s :: s in st.segments[n..] ==> s in st.segments;
  }

  lemma DrainShape(st: St)
    requires Shape(st) && (st.carry == [] ==> st.held == [])
    ensures Shape(Drain(st).st)
    ensures Drain(st).st.carry == st.carry
  {
    if st.carry == [] {
      ShapeOfSuffix(st, DrainCount(st, 0));
    } else {
      DrainStopsAtCarry(st);
    }
  }

  lemma HandoffShape(st: St)
    requires Shape(st)
    ensures Shape(Handoff(st)) && Handoff(st).held == []
    ensures st.carry != [] ==> Handoff(st) == st
  {
    if st.held != [] {
      assert st.segments[0].IsRaw();
      var i := LastRawBelow(st.segments, |st.segments|);
      var segs := AppendContent(st.segments, i, st.held);
      forall s | s in segs ensures s.Ok() && (s.leaf ==> s.hasSpan) {
        var k :| 0 <= k < |segs| && segs[k] == s;
        assert st.segments[k] in st.segments;
      }
    }
  }

  lemma FlushShape(st: St)
    requires SegsOk(st.segments)
    ensures FlushHeld(st).st == St(st.held, [], [], [], [], 0)
  {
  }

  lemma EmitShape(st: St, seg: Segment, content: bytes, extra: seq<Edit>)
    requires Shape(st) && st.carry == [] && st.held == [] && seg.Ok() && seg.hasSpan
    ensures Shape(EmitSegment(st, seg, content, extra))
  {
  }

  lemma StartShape(st: St, seg: Segment, content: bytes, extra: seq<Edit>, t: Tail)
    requires st == EMPTY && seg.Ok() && seg.hasSpan && t.Ok() && t.leaf.identifiable
    requires FitsBudget(st, |seg.raw| + |content| + |t.Text()|)
    ensures Shape(StartCarry(st, seg, content, extra, t))
    ensures StartCarry(st, seg, content, extra, t).carry != []
  {
    var r := StartCarry(st, seg, content, extra, t);
    var p := r.parts[0];
    assert r.parts[..0] == [];
    assert Fragments(r.parts) == Fragments([]) + p.leaf.value[p.start..p.end];
    assert HeldSum(r.segments, r.parts) == HeldSum(r.segments, []) + |r.segments[0].raw| + |r.segments[0].content|;
  }

  lemma {:induction false} TrailingIdentifiable(leaves: seq<Leaf>, best: Option<Tail>)
    requires best.Some? ==> best.value.Ok() && best.value.leaf.identifiable
    ensures TrailingFrom(leaves, best).Some? ==> TrailingFrom(leaves, best).value.leaf.identifiable
  {
    if leaves != [] {
      var s := SmallestPrefixAt(leaves[0].value, 0);
      TrailingIdentifiable(leaves[1..], if leaves[0].identifiable && s.Some? then Some(Tail(leaves[0], s.value))
        else best);
    }
  }

  lemma {:induction false} TrailingAfterIdentifiable(leaves: seq<Leaf>, m: Leaf, k: nat)
    ensures TrailingAfter(leaves, m, k).Some? ==> TrailingAfter(leaves, m, k).value.leaf.identifiable
  {
    if leaves != [] {
      var l := leaves[0];
      if l.identifiable && l.identity == m.identity {
        var s := SmallestPrefixAt(l.value, k);
        TrailingIdentifiable(leaves[1..], if s.Some? then Some(Tail(l, s.value)) else None);
      } else {
        TrailingAfterIdentifiable(leaves[1..], m, k);
      }
    }
  }

  lemma HoldOrEmitShape(st: St, seg: Segment, content: bytes, extra: seq<Edit>, t: Option<Tail>)
    requires st == EMPTY && seg.Ok() && seg.hasSpan
    requires t.Some? ==> t.value.Ok() && t.value.leaf.identifiable
    ensures Shape(HoldOrEmit(st, seg, content, extra, t))
    ensures HoldOrEmit(st, seg, content, extra, t).held == []
  {
    if t.Some? && FitsBudget(st, |seg.raw| + |content| + |t.value.Text()|) {
      StartShape(st, seg, content, extra, t.value);
    } else {
      EmitShape(st, seg, content, []);
    }
  }

  lemma {:induction false} MatchingFacts(leaves: seq<Leaf>, key: bytes)
    ensures forall m :: m in Matching(leaves, key) ==> m in leaves && m.identifiable && m.identity == key
  {
    if leaves != [] {
      MatchingFacts(leaves[1..], key);
    }
  }

  lemma {:induction false} HeldSumFrame(segs: seq<Segment>, more: seq<Segment>, parts: seq<Part>)
    requires forall p :: p in parts ==> p.seg < |segs|
    ensures HeldSum(segs + more, parts) == HeldSum(segs, parts)
    decreases |parts|
  {
    if parts != [] {
      HeldSumFrame(segs, more, parts[..|parts| - 1]);
    }
  }

  ghost function Extended(st: St, seg: Segment, content: bytes, m: Leaf): St {
    var part := Part(|st.segments|, m, 0, |m.value|);
    HoldSegment(st, seg, content, []).(carry := st.carry + m.value, parts := st.parts + [part])
  }

  lemma ExtendOwned(st: St, seg: Segment, content: bytes, m: Leaf)
    requires CarryOwned(st)
    ensures CarryOwned(Extended(st, seg, content, m))
  {
    var r := Extended(st, seg, content, m);
    var part := r.parts[|st.parts|];
    forall k | 0 <= k < |r.segments| && r.segments[k].hasSpan ensures Referenced(r.parts, k) {
      if k < |st.segments| {
        var p :| p in st.parts && p.seg == k;
        assert p in r.parts;
      } else {
        assert part in r.parts;
      }
    }
    forall p | p in r.parts ensures p.seg < |r.segments| && r.segments[p.seg].leaf {
      assert p in st.parts || p == part;
    }
  }

  lemma ExtendSpelled(st: St, seg: Segment, content: bytes, m: Leaf)
    requires st.parts != [] && CarrySpelled(st) && m.identifiable && m.identity == st.carryKey
    ensures CarrySpelled(Extended(st, seg, content, m))
  {
    var r := Extended(st, seg, content, m);
    var part := r.parts[|st.parts|];
    assert r.parts[..|r.parts| - 1] == st.parts;
    assert m.value[0..|m.value|] == m.value;
    assert forall p :: p in r.parts ==> p in st.parts || p == part;
    assert forall i :: 0 <= i < |st.parts| ==> r.parts[i] == st.parts[i];
    assert forall i :: 0 <= i < |r.parts| ==> FragmentOk(r.parts[i], i == 0);
  }

  lemma ExtendHeld(st: St, seg: Segment, content: bytes, m: Leaf)
    requires CarryOwned(st) && st.heldBytes == HeldSum(st.segments, st.parts)
    ensures CarryOwned(Extended(st, seg, content, m))
    ensures
      var r := Extended(st, seg, content, m);
      r.heldBytes == HeldSum(r.segments, r.parts)
  {
    ExtendOwned(st, seg, content, m);
    var r := Extended(st, seg, content, m);
    assert r.parts[..|r.parts| - 1] == st.parts;
    HeldSumFrame(st.segments, [r.segments[|st.segments|]], st.parts);
  }

  lemma ExtendShape(st: St, seg: Segment, content: bytes, m: Leaf)
    requires Shape(st) && st.carry != [] && seg.Ok() && seg.hasSpan
    requires m.identifiable && m.identity == st.carryKey
    requires FitsBudget(st, |seg.raw| + |content| + |m.value|)
    ensures Shape(Extended(st, seg, content, m))
  {
    hide CarryOwned, CarrySpelled, HeldSum, TailOwned;
    ShapeCarry(st);
    ExtendHeld(st, seg, content, m);
    ExtendSpelled(st, seg, content, m);
    var r := Extended(st, seg, content, m);
    assert forall s :: s in r.segments ==> s in st.segments || s == r.segments[|st.segments|];
    NoTailOwned(r);
  }

  lemma ShapeCarry(st: St)
    requires Shape(st) && st.carry != []
    ensures st.held == [] && st.parts != [] && CarryOwned(st) && CarrySpelled(st)
    ensures st.heldBytes == HeldSum(st.segments, st.parts)
  {
  }

  lemma NoTailOwned(st: St)
    requires st.held == []
    ensures TailOwned(st)
  {
  }

  // ------------------------------------------------------------------ one event

  lemma AcceptLeafShape(env: Env, st: St, seg: Segment, leaves: seq<Leaf>)
    requires Shape(st) && st.held == [] && seg.Ok() && seg.hasSpan
    ensures PartsOk(st) && Shape(AcceptLeaf(env, st, seg, leaves).st)
  {
    hide Shape, CarrySpelled, FitsBudget, DrainCount;
    ShapeParts(st);
    if st.carry == [] {
      AcceptFreshShape(env, st, seg, leaves);
    } else {
      match UniqueMatch(leaves, st.carryKey)
      case None => AcceptMismatchShape(env, st, seg, leaves);
      case Some(m) =>
        MatchingFacts(leaves, st.carryKey);
        assert m in Matching(leaves, st.carryKey);
        AcceptMatchShape(env, st, seg, leaves, m);
    }
  }

  lemma AcceptFreshShape(env: Env, st: St, seg: Segment, leaves: seq<Leaf>)
    requires Shape(st) && st.held == [] && st.carry == [] && seg.Ok() && seg.hasSpan
    ensures Shape(AcceptFresh(env, st, seg, leaves).st)
  {
    var content := ContentWith(env, seg.Value(), leaves, []);
    var t := TrailingPrefix(leaves);
    TrailingIdentifiable(leaves, None);
    if t.Some? && FitsBudget(st, |seg.raw| + |content| + |t.value.Text()|) {
      var r := ReleaseSegs(st, |st.segments|);
      assert r.st.segments == [];
      FreshEmpty(r.st);
      StartShape(EMPTY, seg, content, [], t.value);
      StartFrom(r.st, seg, content, t.value);
      DrainShape(StartCarry(r.st, seg, content, [], t.value));
    } else {
      EmitShape(st, seg, content, []);
      DrainShape(EmitSegment(st, seg, content, []));
    }
  }

  lemma FreshEmpty(st: St)
    requires st.held == [] && st.segments == [] && st.carry == [] && st.parts == [] && st.heldBytes == 0
    ensures st.(carryKey := []) == EMPTY
  {
  }

  lemma StartFrom(st: St, seg: Segment, content: bytes, t: Tail)
    requires st.(carryKey := []) == EMPTY && t.Ok()
    ensures StartCarry(st, seg, content, [], t) == StartCarry(EMPTY, seg, content, [], t)
  {
  }

  lemma AcceptMismatchShape(env: Env, st: St, seg: Segment, leaves: seq<Leaf>)
    requires Shape(st) && st.held == [] && seg.Ok() && seg.hasSpan
    ensures Shape(AcceptMismatch(env, st, seg, leaves).st)
  {
    FlushShape(st);
    TrailingIdentifiable(leaves, None);
    var content := ContentWith(env, seg.Value(), leaves, []);
    HoldOrEmitShape(EMPTY, seg, content, [], TrailingPrefix(leaves));
    DrainShape(HoldOrEmit(EMPTY, seg, content, [], TrailingPrefix(leaves)));
  }

  lemma GiveUpShape(env: Env, st: St, seg: Segment, leaves: seq<Leaf>)
    requires Shape(st) && st.held == [] && seg.Ok() && seg.hasSpan
    ensures Shape(GiveUp(env, st, seg, leaves).st)
  {
    FlushShape(st);
    var content := ContentWith(env, seg.Value(), leaves, []);
    assert Shape(EMPTY);
    EmitShape(EMPTY, seg, content, []);
    DrainShape(EmitSegment(EMPTY, seg, content, []));
  }

  lemma CompleteShape(env: Env, st: St, seg: Segment, leaves: seq<Leaf>, m: Leaf, secret: bytes, k: nat)
    requires Shape(st) && st.held == [] && PartsOk(st) && seg.Ok() && seg.hasSpan
    ensures Shape(Complete(env, st, seg, leaves, m, secret, k).st)
  {
    var st1 := st.(segments := DeleteParts(env, st.segments, st.parts));
    FlushShape(st1);
    TrailingAfterIdentifiable(leaves, m, k);
    var extra := [Edit(m, 0, k, RawSpelling(m.tok, secret))];
    var content := ContentWith(env, seg.Value(), leaves, extra);
    HoldOrEmitShape(EMPTY, seg, content, extra, TrailingAfter(leaves, m, k));
    DrainShape(HoldOrEmit(EMPTY, seg, content, extra, TrailingAfter(leaves, m, k)));
  }

  lemma AcceptMatchShape(env: Env, st: St, seg: Segment, leaves: seq<Leaf>, m: Leaf)
    requires Shape(st) && st.held == [] && PartsOk(st) && st.carry != [] && seg.Ok() && seg.hasSpan
    requires m.identifiable && m.identity == st.carryKey
    ensures Shape(AcceptMatch(env, st, seg, leaves, m).st)
  {
    hide Shape, TokenLen, PrefixLen, ContentWith;
    var combined := st.carry + m.value;
    var t := TokenLen(combined);
    GiveUpShape(env, st, seg, leaves);
    if t > |st.carry| {
      CompleteShape(env, st, seg, leaves, m, env.restore(combined[..t]), t - |st.carry|);
    } else {
      var content := ContentWith(env, seg.Value(), leaves, []);
      if FitsBudget(st, |seg.raw| + |content| + |m.value|) {
        ExtendShape(st, seg, content, m);
        DrainShape(Extended(st, seg, content, m));
      }
    }
  }

  lemma AcceptRawShape(env: Env, st: St, seg: Segment)
    requires Shape(st) && seg.Ok() && seg.hasSpan && !seg.leaf
    ensures Shape(AcceptRaw(env, st, seg).st)
  {
    FlushShape(st);
    var f := Replacer(env, SpellFeed(env, seg.Value()));
    NothingDropped(f, st.held + seg.Value());
  }

  lemma AcceptOtherShape(env: Env, st: St, ev: Event)
    requires Shape(st) && PartsOk(st) && EventOk(ev) && |ev.dataSpans| == 0
    ensures Shape(Accept(env, st, ev).st)
  {
    var seg := SegmentOf(ev);
    var st1 := st.(segments := st.segments + [seg]);
    HeldSumFrame(st.segments, [seg], st.parts);
    OtherOwned(st, seg);
    if st.held == [] && st.carry == [] {
      assert st1.segments[|st1.segments|..] == [];
    } else {
      PendingFront(st);
      assert st1.segments[0] == st.segments[0];
    }
  }

  lemma PendingFront(st: St)
    requires Shape(st) && (st.held != [] || st.carry != [])
    ensures st.segments != [] && st.segments[0].hasSpan
  {
    if st.held == [] {
      assert st.parts[0] in st.parts;
      assert st.segments[0] in st.segments;
    }
  }

  lemma OtherOwned(st: St, seg: Segment)
    requires !seg.hasSpan
    ensures CarryOwned(st) ==> CarryOwned(st.(segments := st.segments + [seg]))
    ensures TailOwned(st) ==> TailOwned(st.(segments := st.segments + [seg]))
  {
  }

  /** Every decoded event keeps the invariant. */
  lemma AcceptShape(env: Env, st: St, ev: Event)
    requires Shape(st) && EventOk(ev)
    ensures PartsOk(st) && Shape(Accept(env, st, ev).st)
  {
    ShapeParts(st);
    if |ev.dataSpans| == 1 {
      hide Shape, UsableLeaves;
      var seg := SegmentOf(ev);
      HandoffShape(st);
      var st0 := if env.valid(seg.Value()) then Handoff(st) else st;
      match UsableLeaves(env, seg.Value())
      case Some(leaves) =>
        UsableIsValid(env, seg.Value());
        AcceptLeafShape(env, st0, seg, leaves);
      case None =>
        AcceptRawShape(env, st0, seg);
    } else {
      AcceptOtherShape(env, st, ev);
    }
  }

  lemma UsableIsValid(env: Env, value: bytes)
    requires UsableLeaves(env, value).Some?
    ensures env.valid(value)
  {
  }
}
