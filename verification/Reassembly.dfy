/**
 Reassembly of placeholders that a stream split across events (pkg/redact/sse_backfill.go,
 sse_leaf.go, sse_leaf_scan.go, sse_spelling.go), as functions on a state.

 The class in SseBackfiller.dfy is proved against these functions; its laws are stated about
 them. What JSON validity is, what Walk finds in a value and what the session restores a
 token to are given by an `Env`.
 */
module Reassembly {
  import opened Bytes
  import opened Sse
  import opened Lens
  import opened Apply
  import opened Placeholder
  import opened Holdback
  import opened HoldbackPlaceholder

  const CAP: nat := HOLDBACK_BYTES

  datatype Env = Env(
    valid: bytes -> bool,
    walk: bytes -> Option<seq<Leaf>>,
    restore: bytes -> bytes)

  /** One event's bytes and, for a single data line, what its data value becomes. */
  datatype Segment = Segment(raw: bytes, span: Span, content: bytes, hasSpan: bool, leaf: bool, extra: seq<Edit>)
  {
    predicate Ok() {
      span.start <= span.end <= |raw|
    }

    function Value(): bytes
      requires Ok()
    {
      raw[span.start..span.end]
    }

    function Bytes(): bytes
      requires Ok()
    {
      if !hasSpan then raw else raw[..span.start] + content + raw[span.end..]
    }

    /** A data segment of the raw path. */
    predicate IsRaw() {
      hasSpan && !leaf
    }
  }

  /** A held fragment of an unresolved placeholder: bytes [start, end) of a leaf's value. */
  datatype Part = Part(seg: nat, leaf: Leaf, start: nat, end: nat)

  datatype St = St(
    held: bytes,
    segments: seq<Segment>,
    carry: bytes, carryKey: bytes, parts: seq<Part>, heldBytes: nat)

  const EMPTY := St([], [], [], [], [], 0)

  predicate EventOk(ev: Event) {
    && |ev.dataSpans| <= 1
    && (|ev.dataSpans| == 1 ==> ev.dataSpans[0].start <= ev.dataSpans[0].end <= |ev.raw|)
  }

  function SegmentOf(ev: Event): (seg: Segment)
    requires EventOk(ev)
    ensures seg.Ok()
  {
    if |ev.dataSpans| == 1 then Segment(ev.raw, ev.dataSpans[0], [], true, false, [])
    else Segment(ev.raw, Span(0, 0), [], false, false, [])
  }

  // --------------------------------------------------------------- scanning leaf values

  /** The restores of the complete placeholders of a leaf's value, from offset i on. */
  function LeafScan(env: Env, l: Leaf, i: nat): seq<Edit>
    decreases |l.value| - i
  {
    if i >= |l.value| then [] else
    var n := TokenLen(l.value[i..]);
    if n == 0 then LeafScan(env, l, i + 1) else
    var token := l.value[i..i + n];
    var secret := env.restore(token);
    (if secret != token then [Edit(l, i, i + n, RawSpelling(l.tok, secret))] else [])
    + LeafScan(env, l, i + n)
  }

  lemma LeafScanStep(env: Env, l: Leaf, i: nat)
    ensures i >= |l.value| ==> LeafScan(env, l, i) == []
    ensures i < |l.value| && TokenLen(l.value[i..]) == 0 ==> LeafScan(env, l, i) == LeafScan(env, l, i + 1)
    ensures i < |l.value| && TokenLen(l.value[i..]) > 0 ==>
              var n := TokenLen(l.value[i..]);
              var token := l.value[i..i + n];
              var secret, rest := env.restore(token), LeafScan(env, l, i + n);
              LeafScan(env, l, i) ==
              if secret != token then [Edit(l, i, i + n, RawSpelling(l.tok, secret))] + rest else rest
  {
    hide TokenLen;
  }

  function WithinEdits(env: Env, leaves: seq<Leaf>): seq<Edit> {
    if leaves == [] then [] else LeafScan(env, leaves[0], 0) + WithinEdits(env, leaves[1..])
  }

  ghost function ContentWith(env: Env, value: bytes, leaves: seq<Leaf>, extra: seq<Edit>): bytes {
    Applied(value, WithinEdits(env, leaves) + extra)
  }

  predicate HasIdentifiable(leaves: seq<Leaf>) {
    exists l :: l in leaves && l.identifiable
  }

  function Matching(leaves: seq<Leaf>, key: bytes): seq<Leaf> {
    if leaves == [] then [] else
    (if leaves[0].identifiable && leaves[0].identity == key then [leaves[0]] else [])
    + Matching(leaves[1..], key)
  }

  /** The one identifiable leaf of the carry's channel. */
  function UniqueMatch(leaves: seq<Leaf>, key: bytes): Option<Leaf> {
    var m := Matching(leaves, key);
    if |m| == 1 then Some(m[0]) else None
  }

  /** The smallest offset from which v is a placeholder prefix and no placeholder starts. */
  function SmallestPrefixAt(v: bytes, from: nat): (r: Option<nat>)
    ensures r.Some? ==> from <= r.value < |v|
    decreases |v| - from
  {
    if from >= |v| then None
    else if TokenLen(v[from..]) == 0 && IsPlaceholderPrefix(v[from..]) then Some(from)
    else SmallestPrefixAt(v, from + 1)
  }

  /** A leaf and the offset where its unresolved tail starts. */
  datatype Tail = Tail(leaf: Leaf, start: nat) {
    predicate Ok() {
      start < |leaf.value|
    }

    function Text(): bytes
      requires Ok()
    {
      leaf.value[start..]
    }
  }

  /** The last identifiable leaf with an unresolved tail, or `best`. */
  function TrailingFrom(leaves: seq<Leaf>, best: Option<Tail>): (r: Option<Tail>)
    requires best.Some? ==> best.value.Ok()
    ensures r.Some? ==> r.value.Ok()
  {
    if leaves == [] then best else
    var l := leaves[0];
    var s := SmallestPrefixAt(l.value, 0);
    TrailingFrom(leaves[1..], if l.identifiable && s.Some? then Some(Tail(l, s.value)) else best)
  }

  function TrailingPrefix(leaves: seq<Leaf>): (r: Option<Tail>)
    ensures r.Some? ==> r.value.Ok()
  {
    TrailingFrom(leaves, None)
  }

  /** As TrailingPrefix, but only behind offset k of the matched leaf, and in later leaves. */
  function TrailingAfter(leaves: seq<Leaf>, m: Leaf, k: nat): (r: Option<Tail>)
    ensures r.Some? ==> r.value.Ok()
  {
    if leaves == [] then None else
    var l := leaves[0];
    if l.identifiable && l.identity == m.identity then
      var s := SmallestPrefixAt(l.value, k);
      TrailingFrom(leaves[1..], if s.Some? then Some(Tail(l, s.value)) else None)
    else TrailingAfter(leaves[1..], m, k)
  }

  function FirstNonSpace(b: bytes): byte {
    if b == [] then 0
    else if b[0] == 32 || b[0] == 9 || b[0] == 13 || b[0] == 10 then FirstNonSpace(b[1..])
    else b[0]
  }

  predicate OriginTornInner(env: Env, l: Leaf) {
    !l.encoded && !env.valid(l.value) &&
    (FirstNonSpace(l.value) == 123 || FirstNonSpace(l.value) == 91)
  }

  predicate KeepPlaceholder(env: Env, origin: Leaf, secret: bytes) {
    OriginTornInner(env, origin) && Escape(secret) != secret
  }

  // ----------------------------------------------------------------- raw-path spelling

  datatype Feed = Feed(spelled: map<bytes, bytes>, json: bool)

  /** The complete placeholders of a text, from offset i on. */
  function TokensFrom(v: bytes, i: nat): seq<bytes>
    decreases |v| - i
  {
    if i >= |v| then [] else
    var n := TokenLen(v[i..]);
    if n == 0 then TokensFrom(v, i + 1) else [v[i..i + n]] + TokensFrom(v, i + n)
  }

  function SpellTokens(env: Env, l: Leaf, tokens: seq<bytes>, m: map<bytes, bytes>): map<bytes, bytes> {
    if tokens == [] then m else
    SpellTokens(env, l, tokens[1..], m[tokens[0] := RawSpelling(l.tok, env.restore(tokens[0]))])
  }

  function SpellLeaves(env: Env, leaves: seq<Leaf>, m: map<bytes, bytes>): map<bytes, bytes> {
    if leaves == [] then m else
    SpellLeaves(env, leaves[1..], SpellTokens(env, leaves[0], TokensFrom(leaves[0].value, 0), m))
  }

  predicate ContainsPrefix(v: bytes) {
    exists i {:trigger v[i..]} :: 0 <= i <= |v| && PREFIX <= v[i..]
  }

  function SpellFeed(env: Env, value: bytes): Feed {
    if !ContainsPrefix(value) then Feed(map[], false)
    else
      Feed(match env.walk(value)
           case Some(leaves) => SpellLeaves(env, leaves, map[])
           case None => map[],
           env.valid(value))
  }

  function ReplaceWith(env: Env, feed: Feed, token: bytes): bytes {
    if token in feed.spelled then feed.spelled[token]
    else if feed.json then Escape(env.restore(token))
    else env.restore(token)
  }

  function Replacer(env: Env, feed: Feed): Rewrite {
    (token: bytes) => Some(ReplaceWith(env, feed, token))
  }

  // -------------------------------------------------------------------- the segment queue

  predicate SegsOk(segs: seq<Segment>) {
    forall s :: s in segs ==> s.Ok()
  }

  function RenderAll(segs: seq<Segment>): bytes
    requires SegsOk(segs)
  {
    if segs == [] then [] else segs[0].Bytes() + RenderAll(segs[1..])
  }

  /** The first queued data segment, or |segs|. */
  function PendingFrom(segs: seq<Segment>, i: nat): (r: nat)
    requires i <= |segs|
    ensures i <= r <= |segs|
    ensures r < |segs| ==> segs[r].hasSpan
    ensures forall k :: i <= k < r ==> !segs[k].hasSpan
    decreases |segs| - i
  {
    if i == |segs| || segs[i].hasSpan then i else PendingFrom(segs, i + 1)
  }

  predicate HasPending(segs: seq<Segment>) {
    PendingFrom(segs, 0) < |segs|
  }

  /** The last queued raw data segment below i, or -1. */
  function LastRawBelow(segs: seq<Segment>, i: nat): (r: int)
    requires i <= |segs|
    ensures -1 <= r < i
    ensures r >= 0 ==> segs[r].IsRaw()
    ensures forall k :: r < k < i ==> !segs[k].IsRaw()
  {
    if i == 0 then -1 else if segs[i - 1].IsRaw() then i - 1 else LastRawBelow(segs, i - 1)
  }

  function AppendContent(segs: seq<Segment>, i: nat, more: bytes): seq<Segment>
    requires i < |segs|
  {
    segs[i := segs[i].(content := segs[i].content + more)]
  }

  /** handoffWriter: the writer's tail goes to the newest raw data segment. */
  function Handoff(st: St): (r: St)
    ensures SegsOk(st.segments) ==> SegsOk(r.segments)
    ensures |r.segments| == |st.segments|
    ensures r == st.(held := r.held, segments := r.segments)
  {
    assert SegsOk(st.segments) ==> forall i :: 0 <= i < |st.segments| ==>
           st.segments[i] in st.segments && st.segments[i].Ok();
    var i := LastRawBelow(st.segments, |st.segments|);
    if st.held == [] || i < 0 then st
    else st.(held := [], segments := AppendContent(st.segments, i, st.held))
  }

  predicate Referenced(parts: seq<Part>, n: nat) {
    exists p :: p in parts && p.seg == n
  }

  predicate HasLaterRaw(segs: seq<Segment>, n: nat) {
    exists j :: n < j < |segs| && segs[j].IsRaw()
  }

  /** How many front segments are final: the run drain releases, counted from n. */
  function DrainCount(st: St, n: nat): (r: nat)
    requires n <= |st.segments|
    ensures n <= r <= |st.segments|
    decreases |st.segments| - n
  {
    if n == |st.segments| then n
    else if st.segments[n].leaf && Referenced(st.parts, n) then n
    else if st.segments[n].IsRaw() && !HasLaterRaw(st.segments, n) then n
    else DrainCount(st, n + 1)
  }

  /** A state and the segments that were released to reach it. */
  datatype Step = Step(st: St, released: seq<Segment>) {
    function Then(more: Step): Step {
      Step(more.st, released + more.released)
    }
  }

  function ReleaseSegs(st: St, n: nat): Step
    requires n <= |st.segments|
  {
    Step(st.(segments := st.segments[n..]), st.segments[..n])
  }

  function Drain(st: St): Step {
    ReleaseSegs(st, DrainCount(st, 0))
  }

  function ClearCarry(st: St): St {
    st.(carry := [], carryKey := [], parts := [], heldBytes := 0)
  }

  function FlushHeld(st: St): Step {
    var r := ReleaseSegs(st, |st.segments|);
    Step(ClearCarry(r.st), r.released)
  }

  function FitsBudget(st: St, add: nat): bool {
    |st.held| + |st.carry| + st.heldBytes + add <= CAP
  }

  function EmitSegment(st: St, seg: Segment, content: bytes, extra: seq<Edit>): St {
    st.(segments := st.segments + [seg.(leaf := true, content := content, extra := extra)])
  }

  function HoldSegment(st: St, seg: Segment, content: bytes, extra: seq<Edit>): St {
    EmitSegment(st, seg, content, extra).(heldBytes := st.heldBytes + |seg.raw| + |content|)
  }

  /** The segment is held, and its leaf's unresolved tail is a new carry. */
  function StartCarry(st: St, seg: Segment, content: bytes, extra: seq<Edit>, t: Tail): St
    requires t.Ok()
  {
    HoldSegment(st, seg, content, extra).(
    carry := t.Text(), carryKey := t.leaf.identity,
    parts := [Part(|st.segments|, t.leaf, t.start, |t.leaf.value|)])
  }

  // ----------------------------------------------------------------- editing what is held

  ghost function RenderHeld(env: Env, seg: Segment): Segment
    requires seg.Ok()
  {
    match env.walk(seg.Value())
    case None => seg
    case Some(leaves) => seg.(content := ContentWith(env, seg.Value(), leaves, seg.extra))
  }

  ghost function EditHeld(env: Env, segs: seq<Segment>, p: Part, repl: bytes): (r: seq<Segment>)
    requires SegsOk(segs) && p.seg < |segs|
    ensures SegsOk(r) && |r| == |segs|
  {
    var seg := segs[p.seg];
    assert seg in segs;
    segs[p.seg := RenderHeld(env, seg.(extra := seg.extra + [Edit(p.leaf, p.start, p.end, repl)]))]
  }

  ghost function DeleteParts(env: Env, segs: seq<Segment>, parts: seq<Part>): (r: seq<Segment>)
    requires SegsOk(segs) && forall p :: p in parts ==> p.seg < |segs|
    ensures SegsOk(r) && |r| == |segs|
    decreases |parts|
  {
    if parts == [] then segs
    else DeleteParts(env, EditHeld(env, segs, parts[0], []), parts[1..])
  }

  // ----------------------------------------------------------------- one data event, leaf path

  ghost predicate PartsOk(st: St) {
    SegsOk(st.segments) && (st.carry != [] ==> st.parts != []) &&
    forall p :: p in st.parts ==> p.seg < |st.segments|
  }

  /** Hold the event if it ends in an unresolved prefix and fits, else queue it. */
  ghost function HoldOrEmit(st: St, seg: Segment, content: bytes, extra: seq<Edit>, t: Option<Tail>): St
    requires t.Some? ==> t.value.Ok()
  {
    if t.Some? && FitsBudget(st, |seg.raw| + |content| + |t.value.Text()|)
    then StartCarry(st, seg, content, extra, t.value)
    else EmitSegment(st, seg, content, [])
  }

  ghost function AcceptFresh(env: Env, st: St, seg: Segment, leaves: seq<Leaf>): Step
    requires seg.Ok()
  {
    var content := ContentWith(env, seg.Value(), leaves, []);
    var t := TrailingPrefix(leaves);
    if t.Some? && FitsBudget(st, |seg.raw| + |content| + |t.value.Text()|) then
      var r := ReleaseSegs(st, |st.segments|);
      r.Then(Drain(StartCarry(r.st, seg, content, [], t.value)))
    else
      Drain(EmitSegment(st, seg, content, []))
  }

  ghost function AcceptMismatch(env: Env, st: St, seg: Segment, leaves: seq<Leaf>): Step
    requires seg.Ok()
  {
    var r := FlushHeld(st);
    var content := ContentWith(env, seg.Value(), leaves, []);
    r.Then(Drain(HoldOrEmit(r.st, seg, content, [], TrailingPrefix(leaves))))
  }

  /** The carry is given up: everything held leaves as it is, and the event is queued. */
  ghost function GiveUp(env: Env, st: St, seg: Segment, leaves: seq<Leaf>): Step
    requires seg.Ok()
  {
    var r := FlushHeld(st);
    r.Then(Drain(EmitSegment(r.st, seg, ContentWith(env, seg.Value(), leaves, []), [])))
  }

  ghost function Complete(env: Env, st: St, seg: Segment, leaves: seq<Leaf>, m: Leaf, secret: bytes, k: nat): Step
    requires seg.Ok() && PartsOk(st)
  {
    var r := FlushHeld(st.(segments := DeleteParts(env, st.segments, st.parts)));
    var extra := [Edit(m, 0, k, RawSpelling(m.tok, secret))];
    var content := ContentWith(env, seg.Value(), leaves, extra);
    r.Then(Drain(HoldOrEmit(r.st, seg, content, extra, TrailingAfter(leaves, m, k))))
  }

  ghost function Extend(env: Env, st: St, seg: Segment, leaves: seq<Leaf>, m: Leaf): Step
    requires seg.Ok()
  {
    var content := ContentWith(env, seg.Value(), leaves, []);
    var part := Part(|st.segments|, m, 0, |m.value|);
    Drain(HoldSegment(st, seg, content, []).(carry := st.carry + m.value, parts := st.parts + [part]))
  }

  ghost function AcceptMatch(env: Env, st: St, seg: Segment, leaves: seq<Leaf>, m: Leaf): Step
    requires seg.Ok() && PartsOk(st) && st.carry != []
  {
    var combined := st.carry + m.value;
    var t := TokenLen(combined);
    if t > |st.carry| then
      var secret := env.restore(combined[..t]);
      if secret == combined[..t] || KeepPlaceholder(env, st.parts[0].leaf, secret)
      then GiveUp(env, st, seg, leaves)
      else Complete(env, st, seg, leaves, m, secret, t - |st.carry|)
    else
      var content := ContentWith(env, seg.Value(), leaves, []);
      if || PrefixLen(combined) != |combined| || |combined| > MAX_LEN
         || !FitsBudget(st, |seg.raw| + |content| + |m.value|)
      then GiveUp(env, st, seg, leaves)
      else Extend(env, st, seg, leaves, m)
  }

  /** A usable envelope: valid JSON in which Walk finds an identifiable leaf. */
  function UsableLeaves(env: Env, value: bytes): Option<seq<Leaf>> {
    if !env.valid(value) then None else
    match env.walk(value)
    case Some(leaves) => if HasIdentifiable(leaves) then Some(leaves) else None
    case None => None
  }

  ghost function AcceptLeaf(env: Env, st: St, seg: Segment, leaves: seq<Leaf>): Step
    requires seg.Ok() && PartsOk(st)
  {
    if st.carry == [] then AcceptFresh(env, st, seg, leaves)
    else
      match UniqueMatch(leaves, st.carryKey)
      case None => AcceptMismatch(env, st, seg, leaves)
      case Some(m) => AcceptMatch(env, st, seg, leaves, m)
  }

  ghost function AcceptRaw(env: Env, st: St, seg: Segment): Step
    requires seg.Ok()
  {
    var r := FlushHeld(st);
    var (out, tail) := Release(MATCHER, Replacer(env, SpellFeed(env, seg.Value())), r.st.held + seg.Value());
    var st1 := r.st.(held := tail, segments := r.st.segments + [seg.(content := out)]);
    r.Then(ReleaseSegs(st1, |st1.segments| - 1))
  }

  /** One decoded event. */
  ghost function Accept(env: Env, st: St, ev: Event): Step
    requires EventOk(ev) && PartsOk(st)
  {
    var seg := SegmentOf(ev);
    if |ev.dataSpans| == 1 then
      var st0 := if env.valid(seg.Value()) then Handoff(st) else st;
      match UsableLeaves(env, seg.Value())
      case Some(leaves) => AcceptLeaf(env, st0, seg, leaves)
      case None => AcceptRaw(env, st0, seg)
    else
      var st1 := st.(segments := st.segments + [seg]);
      if HasPending(st1.segments) then Step(st1, []) else ReleaseSegs(st1, |st1.segments|)
  }
}
