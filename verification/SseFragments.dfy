/**
 A placeholder cut into any number of fragments, one to an envelope: the stream carries its
 secret in the place of the last fragment, and the other fragments are gone.
 */
module SseFragments {
  import opened Bytes
  import opened Utf8
  import opened Sse
  import opened SseLaws
  import opened Lens
  import opened Apply
  import opened TreeAssign
  import opened Placeholder
  import opened PlaceholderLaws
  import opened Holdback
  import opened HoldbackPlaceholder
  import opened Reassembly
  import opened ReassemblyInv
  import opened SseRun
  import opened SseText
  import opened SseCarry
  import opened SsePlan
  import opened SseSplit
  import SseHistory

  /** An event, what Walk finds in its data, and which of these leaves is the channel's. */
  datatype Envelope = Envelope(ev: Event, leaves: seq<Leaf>, at: nat)

  /** One data line of valid JSON, and a leaf of it that no other identifiable leaf is confused with. */
  ghost predicate InChannel(env: Env, e: Envelope, key: bytes) {
    && SpanOk(e.ev) && |e.ev.dataSpans| == 1
    && env.valid(e.ev.data) && env.walk(e.ev.data) == Some(e.leaves)
    && e.at < |e.leaves| && e.leaves[e.at].identifiable
    && forall i :: 0 <= i < |e.leaves| ==> (i == e.at <==> e.leaves[i].identifiable && e.leaves[i].identity == key)
  }

  /** From i on the text may become a placeholder, and none starts there yet. */
  predicate Unresolved(v: bytes, i: nat)
    requires i <= |v|
  {
    TokenLen(v[i..]) == 0 && IsPlaceholderPrefix(v[i..])
  }

  /** The channel's leaf is unresolved from offset k on, and no other place comes before this one. */
  ghost predicate OpensAt(e: Envelope, k: nat)
    requires e.at < |e.leaves|
  {
    && k < |e.leaves[e.at].value|
    && (forall i :: 0 <= i < k ==> !Unresolved(e.leaves[e.at].value, i))
    && forall n :: e.at < n < |e.leaves| && e.leaves[n].identifiable ==> NeverOpens(e.leaves[n].value)
  }

  ghost predicate NeverOpens(v: bytes) {
    forall i :: 0 <= i < |v| ==> !Unresolved(v, i)
  }

  /** The envelope with its own placeholders restored. */
  ghost function OwnContent(env: Env, e: Envelope): bytes {
    ContentWith(env, e.ev.data, e.leaves, [])
  }

  /** What holding the envelopes back takes of the budget. */
  ghost function Weight(env: Env, es: seq<Envelope>): nat {
    if es == [] then 0 else
    var e := es[|es| - 1];
    Weight(env, es[..|es| - 1]) + |e.ev.raw| + |OwnContent(env, e)|
  }

  /** What the channel's leaf of the i-th of n envelopes holds. */
  function LeafText(frags: seq<bytes>, head: bytes, rest: bytes, i: nat): bytes
    requires i < |frags|
  {
    (if i == 0 then head else []) + frags[i] + (if i == |frags| - 1 then rest else [])
  }

  /** A placeholder, cut into the fragments that the envelopes' leaves of one channel hold in turn. */
  ghost predicate CutOver(env: Env, es: seq<Envelope>, key: bytes, frags: seq<bytes>, head: bytes, rest: bytes) {
    && |es| == |frags| >= 2
    && (forall f :: f in frags ==> f != [])
    && IsToken(Concat(frags)) && TokenLen(Concat(frags)) == |Concat(frags)|
    && (forall i :: 0 <= i < |es| ==>
          InChannel(env, es[i], key) && es[i].leaves[es[i].at].value == LeafText(frags, head, rest, i))
    && OpensAt(es[0], |head|)
    && Weight(env, es[..|es| - 1]) + |Concat(frags[..|es| - 1])| <= 262144
  }

  predicate IsSpace(c: byte) {
    c == 32 || c == 9 || c == 13 || c == 10
  }

  /** A string of the envelope itself that starts as a document but is none yet. */
  ghost predicate TornDocument(env: Env, l: Leaf) {
    && !l.encoded && !env.valid(l.value)
    && exists i :: 0 <= i < |l.value| && (l.value[i] == 123 || l.value[i] == 91)
                   && forall k :: 0 <= k < i ==> IsSpace(l.value[k])
  }

  predicate NeedsEscaping(secret: bytes) {
    exists c :: c in secret && (c == 34 || c == 92 || c < 32)
  }

  /**
   The session has a secret for the placeholder, and the stream does not stand in a torn document
   that it would break.
   */
  ghost predicate Restorable(env: Env, origin: Leaf, token: bytes) {
    env.restore(token) != token && !(TornDocument(env, origin) && NeedsEscaping(env.restore(token)))
  }

  /** Exactly one of the leaves is of the channel. */
  ghost predicate Continues(e: Envelope, key: bytes) {
    exists i :: 0 <= i < |e.leaves| && e.leaves[i].identifiable && e.leaves[i].identity == key
                && forall j :: 0 <= j < |e.leaves| && j != i ==>
                  !(e.leaves[j].identifiable && e.leaves[j].identity == key)
  }

  /** No placeholder is begun, or one of a channel that the envelope does not continue. */
  ghost predicate StartsAnew(st: St, e: Envelope) {
    st.carry == [] || !Continues(e, st.carryKey)
  }

  function EventsOf(es: seq<Envelope>): (r: seq<Event>)
    ensures |r| == |es| && forall i :: 0 <= i < |r| ==> r[i] == es[i].ev
  {
    seq(|es|, i requires 0 <= i < |es| => es[i].ev)
  }

  /** What the channel's leaves read as in the end. */
  function FinalTexts(n: nat, first: bytes, last: bytes): (r: seq<bytes>)
    ensures |r| == n && forall i :: 0 <= i < n ==> r[i] == if i == 0 then first else if i == n - 1 then last else []
  {
    seq(n, i requires 0 <= i < n => if i == 0 then first else if i == n - 1 then last else [])
  }

  /** The segment is the event with its document; the channel's leaf reads as the text, every other restored. */
  ghost predicate ReadsAs(env: Env, e: Envelope, x: Segment, text: bytes) {
    && EventOk(e.ev) && SameFrame(x, SegmentOf(e.ev)) && e.at < |e.leaves|
    && Reads(e.ev.data, e.leaves, x.content, RestoredTexts(env, e.leaves)[e.at := text])
  }

  // ------------------------------------------------------------------ heads of the placeholder

  lemma {:induction false} HeadOfConcat(frags: seq<bytes>, n: nat)
    requires n <= |frags|
    ensures Concat(frags) == Concat(frags[..n]) + Concat(frags[n..])
  {
    ConcatAppend(frags[..n], frags[n..]);
    assert frags[..n] + frags[n..] == frags;
  }

  lemma ConcatNext(frags: seq<bytes>, n: nat)
    requires n < |frags|
    ensures Concat(frags[..n + 1]) == Concat(frags[..n]) + frags[n]
  {
    hide Concat;
    assert frags[..n + 1] == frags[..n] + [frags[n]];
    ConcatSnoc(frags[..n], frags[n]);
  }

  /** A proper head of a placeholder is a prefix of one, and holds none. */
  lemma ProperHead(token: bytes, s: bytes, more: bytes)
    requires IsToken(token) && TokenLen(token) == |token| && token == s + more && more != []
    ensures Extendable(s) && TokenLen(s) == 0 && PrefixLen(s) == |s| && |s| <= MAX_LEN && IsPlaceholderPrefix(s)
  {
    hide IsToken, TokenLen, IsPlaceholderPrefix, PrefixLen;
    TokenLenAppend(s, more);
    TokenBound(token);
    assert Extendable(s);
    assert s[..|s|] == s;
    PrefixLenExact(s, |s|);
    ExtendableShape(s);
    ShapeIsPrefix(s);
  }

  /** The fragments in front of the last one are a proper head. */
  lemma FragmentsHead(frags: seq<bytes>, n: nat)
    requires n < |frags| && (forall f :: f in frags ==> f != [])
    ensures Concat(frags) == Concat(frags[..n]) + Concat(frags[n..]) && Concat(frags[n..]) != []
    ensures n > 0 ==> Concat(frags[..n]) != []
  {
    HeadOfConcat(frags, n);
    assert frags[n..][0] == frags[n] && frags[n] in frags;
    if n > 0 {
      assert frags[..n][0] == frags[0] && frags[0] in frags;
    }
  }

  // --------------------------------------------------------------------------- single events

  lemma DataIsValue(ev: Event)
    requires SpanOk(ev) && |ev.dataSpans| == 1
    ensures EventOk(ev) && SegmentOf(ev).Ok() && SegmentOf(ev).hasSpan && SegmentOf(ev).Value() == ev.data
    ensures SegmentOf(ev).raw == ev.raw && SegmentOf(ev).extra == []
  {
  }

  lemma ChannelUsable(env: Env, e: Envelope, key: bytes)
    requires InChannel(env, e, key)
    ensures UsableLeaves(env, e.ev.data) == Some(e.leaves)
    ensures UniqueMatch(e.leaves, key) == Some(e.leaves[e.at])
  {
    assert e.leaves[e.at] in e.leaves;
    OneMatches(e.leaves, key, e.at);
  }

  lemma {:induction false} OneMatches(leaves: seq<Leaf>, key: bytes, at: nat)
    requires at < |leaves|
    requires forall i :: 0 <= i < |leaves| ==> (i == at <==> leaves[i].identifiable && leaves[i].identity == key)
    ensures Matching(leaves, key) == [leaves[at]]
    decreases |leaves|
  {
    if at == 0 {
      NoneMatches(leaves[1..], key);
    } else {
      assert !(leaves[0].identifiable && leaves[0].identity == key);
      OneMatches(leaves[1..], key, at - 1);
    }
  }

  lemma {:induction false} NoneMatches(leaves: seq<Leaf>, key: bytes)
    requires forall i :: 0 <= i < |leaves| ==> !(leaves[i].identifiable && leaves[i].identity == key)
    ensures Matching(leaves, key) == []
    decreases |leaves|
  {
    if leaves != [] {
      assert !(leaves[0].identifiable && leaves[0].identity == key);
      NoneMatches(leaves[1..], key);
    }
  }

  // ------------------------------------------------------------------------- the first envelope

  lemma {:induction false} SmallestIs(v: bytes, from: nat, k: nat)
    requires from <= k < |v| && Unresolved(v, k) && forall i :: from <= i < k ==> !Unresolved(v, i)
    ensures SmallestPrefixAt(v, from) == Some(k)
    decreases k - from
  {
    hide TokenLen, IsPlaceholderPrefix;
    if from < k {
      assert !Unresolved(v, from);
      SmallestIs(v, from + 1, k);
    }
  }

  lemma {:induction false} NoSmallest(v: bytes, from: nat)
    requires from <= |v| && NeverOpens(v)
    ensures SmallestPrefixAt(v, from) == None
    decreases |v| - from
  {
    hide TokenLen, IsPlaceholderPrefix;
    if from < |v| {
      assert !Unresolved(v, from);
      NoSmallest(v, from + 1);
    }
  }

  lemma {:induction false} TrailingStays(leaves: seq<Leaf>, best: Option<Tail>)
    requires best.Some? ==> best.value.Ok()
    requires forall n :: 0 <= n < |leaves| && leaves[n].identifiable ==> NeverOpens(leaves[n].value)
    ensures TrailingFrom(leaves, best) == best
    decreases |leaves|
  {
    hide NeverOpens, SmallestPrefixAt;
    if leaves != [] {
      assert leaves[0].identifiable ==> NeverOpens(leaves[0].value);
      if leaves[0].identifiable {
        NoSmallest(leaves[0].value, 0);
      }
      TrailingStays(leaves[1..], best);
    }
  }

  lemma {:induction false} TrailingIs(leaves: seq<Leaf>, best: Option<Tail>, at: nat, k: nat)
    requires best.Some? ==> best.value.Ok()
    requires at < |leaves| && leaves[at].identifiable && k < |leaves[at].value|
    requires SmallestPrefixAt(leaves[at].value, 0) == Some(k)
    requires forall n :: at < n < |leaves| && leaves[n].identifiable ==> NeverOpens(leaves[n].value)
    ensures TrailingFrom(leaves, best) == Some(Tail(leaves[at], k))
    decreases |leaves|
  {
    hide NeverOpens, SmallestPrefixAt;
    var s := SmallestPrefixAt(leaves[0].value, 0);
    var now := if leaves[0].identifiable && s.Some? then Some(Tail(leaves[0], s.value)) else best;
    if at == 0 {
      TrailingStays(leaves[1..], now);
    } else {
      TrailingIs(leaves[1..], now, at - 1, k);
    }
  }

  lemma OpeningTail(env: Env, e: Envelope, key: bytes, head: bytes, frag: bytes)
    requires InChannel(env, e, key) && e.leaves[e.at].value == head + frag && frag != []
    requires TokenLen(frag) == 0 && IsPlaceholderPrefix(frag) && OpensAt(e, |head|)
    ensures TrailingPrefix(e.leaves) == Some(Tail(e.leaves[e.at], |head|))
  {
    hide TokenLen, IsPlaceholderPrefix, NeverOpens;
    var v := e.leaves[e.at].value;
    assert v[|head|..] == frag;
    assert Unresolved(v, |head|);
    SmallestIs(v, 0, |head|);
    TrailingIs(e.leaves, None, e.at, |head|);
  }

  /** A held envelope of the channel. */
  ghost function HeldSegment(env: Env, e: Envelope): Segment
    requires EventOk(e.ev)
  {
    SegmentOf(e.ev).(leaf := true, content := OwnContent(env, e), extra := [])
  }

  /** The first n envelopes are held back, and their fragments are the carry. */
  ghost predicate Gathered(env: Env, st: St, es: seq<Envelope>, key: bytes, frags: seq<bytes>, head: bytes, n: nat) {
    && 0 < n <= |es| == |frags| && st.held == []
    && st.carry == Concat(frags[..n]) && st.carryKey == key
    && |st.segments| == |st.parts| == n
    && (forall i :: 0 <= i < n ==> EventOk(es[i].ev) && st.segments[i] == HeldSegment(env, es[i]))
    && (forall i :: 0 <= i < n ==> es[i].at < |es[i].leaves| && st.parts[i] == PartOf(es[i], i, head))
    && st.heldBytes == Weight(env, es[..n])
  }

  function PartOf(e: Envelope, i: nat, head: bytes): Part
    requires e.at < |e.leaves|
  {
    var m := e.leaves[e.at];
    Part(i, m, if i == 0 then |head| else 0, |m.value|)
  }

  lemma {:induction false} WeightNext(env: Env, es: seq<Envelope>, n: nat)
    requires n < |es|
    ensures Weight(env, es[..n + 1]) == Weight(env, es[..n]) + |es[n].ev.raw| + |OwnContent(env, es[n])|
  {
    hide OwnContent;
    assert es[..n + 1][..n] == es[..n] && es[..n + 1][n] == es[n];
  }

  lemma {:induction false} WeightGrows(env: Env, es: seq<Envelope>, n: nat, m: nat)
    requires n <= m <= |es|
    ensures Weight(env, es[..n]) <= Weight(env, es[..m])
    decreases m - n
  {
    hide OwnContent, Weight;
    if n < m {
      WeightNext(env, es, n);
      WeightGrows(env, es, n + 1, m);
    }
  }

  lemma {:induction false} ConcatGrows(frags: seq<bytes>, n: nat, m: nat)
    requires n <= m <= |frags|
    ensures |Concat(frags[..n])| <= |Concat(frags[..m])|
    decreases m - n
  {
    if n < m {
      ConcatNext(frags, n);
      ConcatGrows(frags, n + 1, m);
    }
  }

  /** The budget allows for each head of the envelopes. */
  lemma HeadsFit(env: Env, es: seq<Envelope>, frags: seq<bytes>, n: nat)
    requires |es| == |frags| && n < |es|
    requires Weight(env, es[..|es| - 1]) + |Concat(frags[..|es| - 1])| <= HOLDBACK_BYTES
    ensures Weight(env, es[..n]) + |Concat(frags[..n])| <= HOLDBACK_BYTES
  {
    WeightGrows(env, es, n, |es| - 1);
    ConcatGrows(frags, n, |es| - 1);
  }

  // ---------------------------------------------------------------------------- the fragments

  lemma ChannelAt(env: Env, e: Envelope, key: bytes)
    requires InChannel(env, e, key)
    ensures e.at < |e.leaves| && e.leaves[e.at].identifiable && e.leaves[e.at].identity == key
    ensures SpanOk(e.ev) && |e.ev.dataSpans| == 1 && env.walk(e.ev.data) == Some(e.leaves)
  {
    hide SpanOk;
  }

  /** What is known of the fragments in front of the last one. */
  lemma FragmentFacts(
    env: Env, es: seq<Envelope>, key: bytes, frags: seq<bytes>, head: bytes, rest: bytes, n: nat)
    requires CutOver(env, es, key, frags, head, rest) && n < |es|
    ensures InChannel(env, es[n], key) && frags[n] != [] && Concat(frags[..n + 1]) == Concat(frags[..n]) + frags[n]
    ensures es[n].at < |es[n].leaves| && es[n].leaves[es[n].at].value == LeafText(frags, head, rest, n)
    ensures n < |es| - 1 ==>
              var s := Concat(frags[..n + 1]);
              && Extendable(s) && TokenLen(s) == 0 && PrefixLen(s) == |s| && |s| <= MAX_LEN && IsPlaceholderPrefix(s)
              && Weight(env, es[..n + 1]) + |s| <= HOLDBACK_BYTES
  {
    hide IsToken, TokenLen, IsPlaceholderPrefix, PrefixLen, Extendable, InChannel, OpensAt, Weight;
    assert frags[n] in frags;
    ChannelAt(env, es[n], key);
    ConcatNext(frags, n);
    if n < |es| - 1 {
      FragmentsHead(frags, n + 1);
      ProperHead(Concat(frags), Concat(frags[..n + 1]), Concat(frags[n + 1..]));
      HeadsFit(env, es, frags, n + 1);
    }
  }

  lemma HandoffLength(st: St)
    ensures |Handoff(st).segments| == |st.segments| && Handoff(st).carry == st.carry
  {
  }

  /** An envelope of the channel goes the way of the leaves. */
  lemma ChannelAccepted(env: Env, st: St, e: Envelope, key: bytes)
    requires Shape(st) && InChannel(env, e, key)
    ensures EventOk(e.ev) && SegmentOf(e.ev).Ok() && PartsOk(st) && PartsOk(Handoff(st)) && Shape(Handoff(st))
    ensures Accept(env, st, e.ev) == AcceptLeaf(env, Handoff(st), SegmentOf(e.ev), e.leaves)
  {
    hide Shape, AcceptLeaf, Handoff, UsableLeaves;
    ShapeParts(st);
    HandoffShape(st);
    ShapeParts(Handoff(st));
    DataIsValue(e.ev);
    ChannelUsable(env, e, key);
  }

  lemma NothingHeld(st: St)
    requires Shape(st) && st.carry == []
    ensures st.parts == [] && st.heldBytes == 0
  {
  }

  /** The first envelope starts a carry. */
  lemma FirstStarts(env: Env, st: St, e: Envelope, key: bytes, head: bytes, frag: bytes)
    requires Shape(st) && st.held == [] && st.carry == [] && InChannel(env, e, key)
    requires e.leaves[e.at].value == head + frag && frag != [] && OpensAt(e, |head|)
    requires TokenLen(frag) == 0 && IsPlaceholderPrefix(frag)
    requires |e.ev.raw| + |OwnContent(env, e)| + |frag| <= HOLDBACK_BYTES
    ensures EventOk(e.ev) && SegmentOf(e.ev).Ok()
    ensures
      var t := Tail(e.leaves[e.at], |head|);
      && t.Ok() && t.Text() == frag
      && AcceptFresh(env, st, SegmentOf(e.ev), e.leaves) ==
         Step(StartCarry(EMPTY, SegmentOf(e.ev), OwnContent(env, e), [], t), st.segments)
  {
    hide Shape, ContentWith, TokenLen, IsPlaceholderPrefix, OpensAt, TrailingPrefix, Drain, SegmentOf, StartCarry;
    DataIsValue(e.ev);
    OpeningTail(env, e, key, head, frag);
    NothingHeld(st);
    var seg, t, content := SegmentOf(e.ev), Tail(e.leaves[e.at], |head|), OwnContent(env, e);
    assert t.Text() == frag;
    assert FitsBudget(st, |seg.raw| + |content| + |t.Text()|);
    var r := ReleaseSegs(st, |st.segments|);
    assert r.st.segments == [] && r.released == st.segments;
    FreshEmpty(r.st);
    StartFrom(r.st, seg, content, t);
    StartShape(EMPTY, seg, content, [], t);
    DrainStopsAtCarry(StartCarry(EMPTY, seg, content, [], t));
    assert st.segments + [] == st.segments;
  }

  /** That carry is the first fragment. */
  lemma FirstGathered(env: Env, es: seq<Envelope>, key: bytes, frags: seq<bytes>, head: bytes)
    requires |es| == |frags| > 0 && EventOk(es[0].ev) && es[0].at < |es[0].leaves|
    requires SegmentOf(es[0].ev).extra == [] && SegmentOf(es[0].ev).raw == es[0].ev.raw
    requires es[0].leaves[es[0].at].value == head + frags[0] && frags[0] != []
    requires es[0].leaves[es[0].at].identity == key
    ensures
      var t := Tail(es[0].leaves[es[0].at], |head|);
      && t.Ok()
      && Gathered(env, StartCarry(EMPTY, SegmentOf(es[0].ev), OwnContent(env, es[0]), [], t), es, key, frags, head, 1)
  {
    hide OwnContent, SegmentOf, Weight;
    assert frags[..1] == [frags[0]] && (head + frags[0])[|head|..] == frags[0];
    ConcatOne(frags[0]);
    WeightNext(env, es, 0);
    NoWeight(env, es);
  }

  lemma NoWeight(env: Env, es: seq<Envelope>)
    ensures Weight(env, es[..0]) == 0
  {
  }

  /** An envelope of another channel: what was begun is given up, and a new carry starts. */
  lemma OtherStarts(env: Env, st: St, e: Envelope, key: bytes, head: bytes, frag: bytes)
    requires Shape(st) && st.held == [] && InChannel(env, e, key)
    requires e.leaves[e.at].value == head + frag && frag != [] && OpensAt(e, |head|)
    requires TokenLen(frag) == 0 && IsPlaceholderPrefix(frag)
    requires |e.ev.raw| + |OwnContent(env, e)| + |frag| <= HOLDBACK_BYTES
    ensures EventOk(e.ev) && SegmentOf(e.ev).Ok()
    ensures
      var t := Tail(e.leaves[e.at], |head|);
      && t.Ok() && t.Text() == frag
      && AcceptMismatch(env, st, SegmentOf(e.ev), e.leaves) ==
         Step(StartCarry(EMPTY, SegmentOf(e.ev), OwnContent(env, e), [], t), st.segments)
  {
    hide Shape, ContentWith, TokenLen, IsPlaceholderPrefix, OpensAt, TrailingPrefix, Drain, SegmentOf, StartCarry;
    DataIsValue(e.ev);
    OpeningTail(env, e, key, head, frag);
    var seg, t, content := SegmentOf(e.ev), Tail(e.leaves[e.at], |head|), OwnContent(env, e);
    assert t.Text() == frag;
    var r := FlushHeld(st);
    FlushFrames(st);
    assert r.st == EMPTY;
    StartShape(EMPTY, seg, content, [], t);
    DrainStopsAtCarry(StartCarry(EMPTY, seg, content, [], t));
    assert st.segments + [] == st.segments;
  }

  lemma {:induction false} OneMatching(leaves: seq<Leaf>, key: bytes) returns (i: nat)
    requires |Matching(leaves, key)| == 1
    ensures i < |leaves| && leaves[i].identifiable && leaves[i].identity == key
    ensures forall j :: 0 <= j < |leaves| && j != i ==> !(leaves[j].identifiable && leaves[j].identity == key)
    decreases |leaves|
  {
    if leaves[0].identifiable && leaves[0].identity == key {
      i := 0;
      MatchesNone(leaves[1..], key);
      assert forall j :: 0 < j < |leaves| ==> leaves[j] == leaves[1..][j - 1];
    } else {
      var n := OneMatching(leaves[1..], key);
      i := n + 1;
      assert forall j :: 0 < j < |leaves| ==> leaves[j] == leaves[1..][j - 1];
    }
  }

  lemma {:induction false} MatchesNone(leaves: seq<Leaf>, key: bytes)
    requires Matching(leaves, key) == []
    ensures forall j :: 0 <= j < |leaves| ==> !(leaves[j].identifiable && leaves[j].identity == key)
    decreases |leaves|
  {
    if leaves != [] {
      MatchesNone(leaves[1..], key);
      assert forall j :: 0 < j < |leaves| ==> leaves[j] == leaves[1..][j - 1];
    }
  }

  lemma NotContinued(e: Envelope, key: bytes)
    requires !Continues(e, key)
    ensures UniqueMatch(e.leaves, key) == None
  {
    hide Matching;
    if |Matching(e.leaves, key)| == 1 {
      var i := OneMatching(e.leaves, key);
    }
  }

  lemma FirstHeld(
    env: Env, st: St, es: seq<Envelope>, key: bytes, frags: seq<bytes>, head: bytes, rest: bytes)
    requires Shape(st) && |es| > 0 && StartsAnew(st, es[0]) && CutOver(env, es, key, frags, head, rest)
    ensures PartsOk(st) && EventOk(es[0].ev)
    ensures
      var r := Accept(env, st, es[0].ev);
      r.released == Handoff(st).segments && Gathered(env, r.st, es, key, frags, head, 1)
  {
    hide Shape, TokenLen, IsToken, IsPlaceholderPrefix, PrefixLen, Extendable, OpensAt, AcceptFresh, Handoff;
    hide StartCarry, SegmentOf, OwnContent, Weight, Gathered, AcceptMismatch, Continues, UniqueMatch;
    HandoffShape(st);
    HandoffLength(st);
    var e := es[0];
    FragmentFacts(env, es, key, frags, head, rest, 0);
    ChannelAccepted(env, st, e, key);
    DataIsValue(e.ev);
    assert frags[..1] == [frags[0]];
    ConcatOne(frags[0]);
    WeightNext(env, es, 0);
    NoWeight(env, es);
    assert LeafText(frags, head, rest, 0) == head + frags[0];
    if st.carry == [] {
      FirstStarts(env, Handoff(st), e, key, head, frags[0]);
    } else {
      NotContinued(e, st.carryKey);
      OtherStarts(env, Handoff(st), e, key, head, frags[0]);
    }
    FirstGathered(env, es, key, frags, head);
  }

  /** An envelope whose leaf may still become a placeholder, within the budget, is held. */
  lemma EnvelopeExtends(env: Env, st: St, e: Envelope, frag: bytes)
    requires Shape(st) && st.held == [] && st.carry != [] && InChannel(env, e, st.carryKey)
    requires e.leaves[e.at].value == frag
    requires
      var s := st.carry + frag;
      TokenLen(s) == 0 && PrefixLen(s) == |s| && |s| <= MAX_LEN
    requires |st.carry| + st.heldBytes + |e.ev.raw| + |OwnContent(env, e)| + |frag| <= HOLDBACK_BYTES
    ensures PartsOk(st) && EventOk(e.ev)
    ensures Accept(env, st, e.ev) == Step(Extended(st, SegmentOf(e.ev), OwnContent(env, e), e.leaves[e.at]), [])
  {
    hide Shape, TokenLen, PrefixLen, ContentWith, AcceptLeaf, Handoff, Extended, SegmentOf, UniqueMatch, InChannel;
    ChannelAccepted(env, st, e, st.carryKey);
    ChannelUsable(env, e, st.carryKey);
    ChannelAt(env, e, st.carryKey);
    DataIsValue(e.ev);
    HandoffShape(st);
    MatchExtends(env, st, SegmentOf(e.ev), e.leaves, e.leaves[e.at]);
  }

  /** One more envelope, whose leaf is a fragment as a whole. */
  lemma OneMoreHeld(
    env: Env, st: St, es: seq<Envelope>, key: bytes, frags: seq<bytes>, head: bytes, rest: bytes, n: nat)
    requires Shape(st) && CutOver(env, es, key, frags, head, rest) && 0 < n < |es| - 1
    requires Gathered(env, st, es, key, frags, head, n)
    ensures PartsOk(st) && EventOk(es[n].ev)
    ensures
      var r := Accept(env, st, es[n].ev);
      r.released == [] && Gathered(env, r.st, es, key, frags, head, n + 1)
  {
    hide Shape, TokenLen, PrefixLen, Extendable, IsPlaceholderPrefix, Accept, Extended, CutOver;
    hide SegmentOf, OwnContent, Weight, Gathered, InChannel, LeafText, Concat;
    var e := es[n];
    FragmentFacts(env, es, key, frags, head, rest, n);
    CutNonempty(env, es, key, frags, head, rest);
    GatheredCarry(env, st, es, key, frags, head, n);
    MiddleText(frags, head, rest, n);
    WeightNext(env, es, n);
    EnvelopeExtends(env, st, e, frags[n]);
    EnvelopeData(env, e, key);
    ExtendsGathering(env, st, es, key, frags, head, n);
  }

  lemma CutNonempty(env: Env, es: seq<Envelope>, key: bytes, frags: seq<bytes>, head: bytes, rest: bytes)
    requires CutOver(env, es, key, frags, head, rest)
    ensures |es| == |frags| && forall f :: f in frags ==> f != []
  {
  }

  lemma EnvelopeData(env: Env, e: Envelope, key: bytes)
    requires InChannel(env, e, key)
    ensures EventOk(e.ev) && SegmentOf(e.ev).extra == [] && SegmentOf(e.ev).raw == e.ev.raw
  {
    DataIsValue(e.ev);
  }

  lemma MiddleText(frags: seq<bytes>, head: bytes, rest: bytes, n: nat)
    requires 0 < n < |frags| - 1
    ensures LeafText(frags, head, rest, n) == frags[n]
  {
  }

  lemma GatheredCarry(
    env: Env, st: St, es: seq<Envelope>, key: bytes, frags: seq<bytes>, head: bytes, n: nat)
    requires Gathered(env, st, es, key, frags, head, n) && n < |es| && forall f :: f in frags ==> f != []
    ensures st.carry == Concat(frags[..n]) != [] && st.carryKey == key && st.held == []
    ensures st.heldBytes == Weight(env, es[..n])
  {
    hide Weight, HeldSegment;
    FragmentsHead(frags, n);
  }

  /** A match that may still become a placeholder, within the budget, is held. */
  lemma MatchExtends(env: Env, st: St, seg: Segment, leaves: seq<Leaf>, m: Leaf)
    requires Shape(st) && seg.Ok() && seg.hasSpan && st.carry != [] && m.identifiable && m.identity == st.carryKey
    requires UniqueMatch(leaves, st.carryKey) == Some(m)
    requires
      var s := st.carry + m.value;
      TokenLen(s) == 0 && PrefixLen(s) == |s| && |s| <= MAX_LEN
    requires FitsBudget(st, |seg.raw| + |ContentWith(env, seg.Value(), leaves, [])| + |m.value|)
    ensures PartsOk(st)
    ensures AcceptLeaf(env, st, seg, leaves) ==
            Step(Extended(st, seg, ContentWith(env, seg.Value(), leaves, []), m), [])
  {
    hide Shape, TokenLen, PrefixLen, ContentWith, GiveUp, Complete, Drain, KeepPlaceholder, UniqueMatch, AcceptFresh;
    hide AcceptMismatch;
    ShapeParts(st);
    var content := ContentWith(env, seg.Value(), leaves, []);
    ExtendShape(st, seg, content, m);
    DrainStopsAtCarry(Extended(st, seg, content, m));
  }

  lemma ExtendsGathering(env: Env, st: St, es: seq<Envelope>, key: bytes, frags: seq<bytes>, head: bytes, n: nat)
    requires Gathered(env, st, es, key, frags, head, n) && n < |es|
    requires EventOk(es[n].ev) && es[n].at < |es[n].leaves| && es[n].leaves[es[n].at].value == frags[n]
    requires SegmentOf(es[n].ev).extra == [] && SegmentOf(es[n].ev).raw == es[n].ev.raw
    ensures Gathered(env, Extended(st, SegmentOf(es[n].ev), OwnContent(env, es[n]), es[n].leaves[es[n].at]), es, key,
                     frags, head, n + 1)
  {
    hide OwnContent, SegmentOf, Weight;
    ConcatNext(frags, n);
    WeightNext(env, es, n);
  }

  // ----------------------------------------------------------------------------- the run so far

  lemma EventsOk(env: Env, es: seq<Envelope>, key: bytes)
    requires forall i :: 0 <= i < |es| ==> InChannel(env, es[i], key)
    ensures AllOk(EventsOf(es))
  {
    forall ev | ev in EventsOf(es) ensures SpanOk(ev) {
      var i :| 0 <= i < |es| && EventsOf(es)[i] == ev;
      assert InChannel(env, es[i], key);
    }
  }

  lemma RunOne(env: Env, st: St, ev: Event)
    requires Shape(st) && SpanOk(ev)
    ensures AllOk([ev]) && PartsOk(st) && EventOk(ev)
    ensures RunEvents(env, st, [ev]) == Accept(env, st, ev)
  {
    hide Accept, Shape;
    AcceptShape(env, st, ev);
    assert [ev][1..] == [];
    assert RunEvents(env, Accept(env, st, ev).st, []) == Step(Accept(env, st, ev).st, []);
    assert Accept(env, st, ev).released + [] == Accept(env, st, ev).released;
  }

  lemma RunNext(env: Env, st: St, es: seq<Envelope>, n: nat)
    requires Shape(st) && AllOk(EventsOf(es)) && n < |es|
    ensures AllOk(EventsOf(es[..n])) && AllOk(EventsOf(es[..n + 1])) && SpanOk(es[n].ev)
    ensures
      var r := RunEvents(env, st, EventsOf(es[..n]));
      && PartsOk(r.st) && EventOk(es[n].ev)
      && RunEvents(env, st, EventsOf(es[..n + 1])) == r.Then(Accept(env, r.st, es[n].ev))
  {
    hide Accept, Shape, SpanOk;
    var a, ev := EventsOf(es[..n]), es[n].ev;
    assert EventsOf(es[..n + 1]) == a + [ev];
    assert EventsOf(es)[n] in EventsOf(es);
    forall e | e in a ensures SpanOk(e) {
      var i :| 0 <= i < |a| && a[i] == e;
      assert EventsOf(es)[i] in EventsOf(es);
    }
    var r := RunEvents(env, st, a);
    RunOne(env, r.st, ev);
    RunAppend(env, st, a, [ev]);
  }

  /** Behind the first n envelopes what was queued before has left, and they are held. */
  lemma {:induction false} RunGathers(
    env: Env, st: St, es: seq<Envelope>, key: bytes, frags: seq<bytes>, head: bytes, rest: bytes, n: nat)
    requires Shape(st) && CutOver(env, es, key, frags, head, rest) && 0 < n < |es| && StartsAnew(st, es[0])
    ensures AllOk(EventsOf(es[..n]))
    ensures
      var r := RunEvents(env, st, EventsOf(es[..n]));
      r.released == Handoff(st).segments && Gathered(env, r.st, es, key, frags, head, n)
  {
    hide Accept, Shape, Gathered, InChannel, Handoff, IsToken, TokenLen, OpensAt, Weight;
    EventsOk(env, es, key);
    RunNext(env, st, es, n - 1);
    if n == 1 {
      assert EventsOf(es[..0]) == [];
      FirstHeld(env, st, es, key, frags, head, rest);
      assert RunEvents(env, st, []) == Step(st, []);
      assert [] + Handoff(st).segments == Handoff(st).segments;
    } else {
      RunGathers(env, st, es, key, frags, head, rest, n - 1);
      var r := RunEvents(env, st, EventsOf(es[..n - 1]));
      OneMoreHeld(env, r.st, es, key, frags, head, rest, n - 1);
      assert Handoff(st).segments + [] == Handoff(st).segments;
    }
  }

  // -------------------------------------------------------------------- what the first leaf keeps

  lemma {:induction false} NoneBehind(v: bytes, i: nat, s: nat)
    requires ScanEnds(v, i, s) && s <= i <= |v|
    ensures forall j :: i <= j < |v| ==> TokenLen(v[j..]) == 0
    decreases |v| - i
  {
    hide TokenLen;
    if i < |v| {
      NoneBehind(v, i + 1, s);
    }
  }

  lemma TailKept(env: Env, v: bytes, s: nat)
    requires ScanEnds(v, s, s) && s <= |v|
    ensures Restored(env, v[s..]) == v[s..]
  {
    hide TokenLen, ScanEnds, Restored;
    NoneBehind(v, s, s);
    var w := v[s..];
    forall j {:trigger w[j..]} | 0 <= j < |w| ensures TokenLen(w[j..]) == 0 {
      assert w[j..] == v[s + j..];
    }
    ClearKept(env, w);
  }

  /** Where no placeholder reaches over s, the text up to s is restored as a text of its own. */
  lemma {:induction false} RestoredHead(env: Env, v: bytes, i: nat, s: nat)
    requires ScanEnds(v, i, s) && i <= s <= |v|
    ensures Restored(env, v[i..]) == Restored(env, v[i..s]) + v[s..]
    decreases s - i
  {
    hide TokenLen, Batch;
    if i == s {
      TailKept(env, v, s);
      BatchOfNothing(Restorer(env));
      assert v[i..s] == [];
    } else {
      var a, more := v[i..s], v[s..];
      assert a + more == v[i..];
      TokenLenAppend(a, more);
      var n := TokenLen(v[i..]);
      var k := if n == 0 then 1 else n;
      RestoredHead(env, v, i + k, s);
      BatchUnfold(MATCHER, Restorer(env), v[i..]);
      BatchUnfold(MATCHER, Restorer(env), a);
      assert v[i..][k..] == v[i + k..] && a[k..] == v[i + k..s] && a[..k] == v[i..][..k];
      Assoc(if n == 0 then [v[i]] else env.restore(a[..k]), Restored(env, v[i + k..s]), more);
    }
  }

  // ---------------------------------------------------------------------- the last envelope

  lemma {:induction false} FirstIs(b: bytes, i: nat)
    requires i < |b| && !IsSpace(b[i]) && forall k :: 0 <= k < i ==> IsSpace(b[k])
    ensures FirstNonSpace(b) == b[i]
    decreases i
  {
    if i > 0 {
      assert IsSpace(b[0]);
      FirstIs(b[1..], i - 1);
    }
  }

  lemma {:induction false} FirstWhere(b: bytes) returns (i: nat)
    requires FirstNonSpace(b) != 0
    ensures i < |b| && FirstNonSpace(b) == b[i] && forall k :: 0 <= k < i ==> IsSpace(b[k])
  {
    if IsSpace(b[0]) {
      var j := FirstWhere(b[1..]);
      i := j + 1;
    } else {
      i := 0;
    }
  }

  lemma {:induction false} EscapeLonger(s: bytes)
    ensures |Escape(s)| >= |s| && (NeedsEscaping(s) ==> |Escape(s)| > |s|)
  {
    if s != [] {
      EscapeLonger(s[1..]);
      assert s == [s[0]] + s[1..];
      assert forall c :: c in s ==> c == s[0] || c in s[1..];
    }
  }

  lemma KeepIs(env: Env, origin: Leaf, secret: bytes)
    ensures KeepPlaceholder(env, origin, secret) <==> TornDocument(env, origin) && NeedsEscaping(secret)
  {
    var v := origin.value;
    EscapeLonger(secret);
    if !NeedsEscaping(secret) {
      EscapePlain(secret);
    }
    if OriginTornInner(env, origin) {
      var i := FirstWhere(v);
      assert v[i] == 123 || v[i] == 91;
    }
    if TornDocument(env, origin) {
      var i :| 0 <= i < |v| && (v[i] == 123 || v[i] == 91) && forall k :: 0 <= k < i ==> IsSpace(v[k]);
      FirstIs(v, i);
    }
  }

  lemma OnlyAt(env: Env, e: Envelope, key: bytes, j: nat)
    requires InChannel(env, e, key) && j < |e.leaves| && e.leaves[j] == e.leaves[e.at]
    ensures j == e.at
  {
    hide SpanOk;
  }

  /** An envelope whose fragment is cut off. */
  lemma FragmentReads(env: Env, e: Envelope, key: bytes, i: nat, head: bytes, frag: bytes, after: Segment, y: bytes)
    requires InChannel(env, e, key) && Secretful(env) && EventOk(e.ev)
    requires e.leaves[e.at].value == (if i == 0 then head else []) + frag && Utf8.Valid(e.leaves[e.at].value)
    requires i == 0 ==> ScanEnds(e.leaves[e.at].value, 0, |head|)
    requires i > 0 ==> y == []
    requires HeldSegment(env, e).Ok() && FragmentGone(env, HeldSegment(env, e), after, PartOf(e, i, head), y)
    ensures ReadsAs(env, e, after, if i == 0 then Restored(env, head) else [])
  {
    hide InChannel, Secretful, OwnContent, CutText, Reads, ScanEnds, Restored, TextsMade, Utf8.Valid;
    ChannelAt(env, e, key);
    DataIsValue(e.ev);
    var before, p := HeldSegment(env, e), PartOf(e, i, head);
    assert before.Value() == e.ev.data;
    var texts: seq<bytes>, j: nat :|
      && j < |texts| == |e.leaves| && e.leaves[j] == p.leaf
      && texts[j] == y + CutText(env, before, p)
      && texts == RestoredTexts(env, e.leaves)
      && Reads(e.ev.data, e.leaves, after.content, texts[j := y]);
    OnlyAt(env, e, key, j);
    if i == 0 {
      FirstLeft(env, before, p, head, frag, y);
    }
  }

  lemma FirstLeft(env: Env, seg: Segment, p: Part, head: bytes, frag: bytes, y: bytes)
    requires seg.Ok() && Secretful(env) && Utf8.Valid(p.leaf.value) && p.leaf.value == head + frag
    requires p.start == |head| && p.end == |p.leaf.value| && ScanEnds(p.leaf.value, 0, |head|)
    requires Restored(env, p.leaf.value) == y + CutText(env, seg, p)
    ensures y == Restored(env, head)
  {
    hide Secretful, CutText, ScanEnds, Restored, Utf8.Valid;
    var v := p.leaf.value;
    ClearFirst(env, seg, p);
    assert Piece(p) == frag && v[0..] == v && v[0..|head|] == head && v[|head|..] == frag;
    RestoredHead(env, v, 0, |head|);
    SameFront(y, Restored(env, head), frag);
  }

  lemma SameFront(a: bytes, b: bytes, tail: bytes)
    requires a + tail == b + tail
    ensures a == b
  {
    assert |a| == |b| && (a + tail)[..|a|] == a && (b + tail)[..|b|] == b;
  }

  lemma LastText(frags: seq<bytes>, head: bytes, rest: bytes)
    requires |frags| >= 2
    ensures LeafText(frags, head, rest, |frags| - 1) == frags[|frags| - 1] + rest
    ensures Concat(frags) == Concat(frags[..|frags| - 1]) + frags[|frags| - 1]
  {
    hide Concat;
    var n := |frags| - 1;
    ConcatNext(frags, n);
    assert n + 1 == |frags| && frags[..n + 1] == frags;
    assert [] + frags[n] == frags[n];
  }

  /** The carry and the last leaf hold the placeholder. */
  lemma LastCompletes(
    env: Env, st: St, es: seq<Envelope>, key: bytes, frags: seq<bytes>, head: bytes, rest: bytes)
    requires Shape(st) && CutOver(env, es, key, frags, head, rest)
    requires Gathered(env, st, es, key, frags, head, |es| - 1)
    requires es[0].at < |es[0].leaves| && Restorable(env, es[0].leaves[es[0].at], Concat(frags))
    ensures
      var e := es[|es| - 1];
      && EventOk(e.ev) && e.at < |e.leaves|
      && Completes(env, st, SegmentOf(e.ev), e.leaves, e.leaves[e.at])
      && st.carry + frags[|es| - 1] == Concat(frags)
      && st.carry + e.leaves[e.at].value == Concat(frags) + rest
      && TokenLen(Concat(frags) + rest) == |Concat(frags)|
  {
    hide Shape, TokenLen, IsToken, KeepPlaceholder, InChannel, OpensAt, Weight, Concat, HeldSegment, UniqueMatch;
    hide SegmentOf, LeafText, TornDocument, NeedsEscaping;
    var n := |es| - 1;
    var e, token := es[n], Concat(frags);
    CutNonempty(env, es, key, frags, head, rest);
    GatheredCarry(env, st, es, key, frags, head, n);
    LastText(frags, head, rest);
    assert frags[n] in frags;
    ChannelAt(env, e, key);
    ChannelUsable(env, e, key);
    DataIsValue(e.ev);
    TokenLenAppend(token, rest);
    Assoc(st.carry, frags[n], rest);
    assert (token + rest)[..|token|] == token;
    KeepIs(env, es[0].leaves[es[0].at], env.restore(token));
  }

  /** The last envelope's segment. */
  lemma LastReads(
    env: Env, st: St, es: seq<Envelope>, key: bytes, frags: seq<bytes>, rest: bytes, j: nat, k: nat, x: Segment)
    requires WalkSound(env) && Secretful(env) && |es| == |frags| >= 2
    requires
      var e := es[|es| - 1];
      && InChannel(env, e, key) && EventOk(e.ev) && SameFrame(x, SegmentOf(e.ev)) && e.at < |e.leaves|
      && var m := e.leaves[e.at];
      && m.value == frags[|es| - 1] + rest && ClearBelow(m.value, |frags[|es| - 1]|) && Utf8.Valid(m.value)
      && st.carry + frags[|es| - 1] == Concat(frags) && TokenLen(Concat(frags) + rest) == |Concat(frags)|
      && k <= |m.value| && TokenLen(st.carry + m.value[..k]) == |st.carry| + k && st.carry != []
      && j < |e.leaves| && e.leaves[j] == m
      && Reads(e.ev.data, e.leaves, x.content,
               RestoredTexts(env, e.leaves)[j := HeadText(env, e.ev.data, m, k, env.restore(st.carry + m.value[..k]))])
    ensures ReadsAs(env, es[|es| - 1], x, env.restore(Concat(frags)) + Restored(env, rest))
  {
    hide InChannel, Secretful, WalkSound, TokenLen, Reads, Restored, HeadText, ClearBelow, Walked, Concat, SegmentOf;
    var e, frag := es[|es| - 1], frags[|es| - 1];
    var m := e.leaves[e.at];
    OnlyAt(env, e, key, j);
    Assoc(st.carry, frag, rest);
    KIsFragment(st.carry, frag, rest, k);
    assert m.value[..k] == frag && m.value[k..] == rest;
    ChannelWalked(env, e, key);
    ClearHeadText(env, e.ev.data, e.leaves, m, k, env.restore(Concat(frags)));
  }

  lemma KIsFragment(carry: bytes, frag: bytes, rest: bytes, k: nat)
    requires carry != [] && k <= |frag + rest| && TokenLen(carry + (frag + rest)[..k]) == |carry| + k
    requires TokenLen(carry + frag + rest) == |carry + frag| > 0
    ensures k == |frag|
  {
    hide TokenLen;
    Assoc(carry, frag, rest);
    TokenHere(carry, frag + rest, k);
  }

  lemma ChannelWalked(env: Env, e: Envelope, key: bytes)
    requires WalkSound(env) && InChannel(env, e, key)
    ensures Walked(e.ev.data, e.leaves)
  {
    hide Walked, SpanOk;
  }

  // --------------------------------------------------------------------------- the whole stream

  /** The held envelopes and the completing one, with what they read as. */
  ghost predicate AllRead(env: Env, es: seq<Envelope>, segs: seq<Segment>, texts: seq<bytes>) {
    && |segs| == |es| == |texts|
    && forall i :: 0 <= i < |es| ==> ReadsAs(env, es[i], segs[i], texts[i])
  }

  /** What the theorem asks of the fragments' surroundings. */
  ghost predicate Undisturbed(es: seq<Envelope>, frags: seq<bytes>, head: bytes) {
    && |es| == |frags| >= 2
    && (forall i :: 0 <= i < |es| ==> es[i].at < |es[i].leaves|)
    && ScanEnds(es[0].leaves[es[0].at].value, 0, |head|)
    && var v := es[|es| - 1].leaves[es[|es| - 1].at].value;
    |frags[|es| - 1]| <= |v| && ClearBelow(v, |frags[|es| - 1]|)
  }

  /** The fragments are gone from the held envelopes. */
  lemma HeldRead(
    env: Env, st: St, es: seq<Envelope>, key: bytes, frags: seq<bytes>, head: bytes, rest: bytes, gone: seq<Segment>,
    y: bytes, i: nat)
    requires Secretful(env) && CutOver(env, es, key, frags, head, rest) && Undisturbed(es, frags, head)
    requires Gathered(env, st, es, key, frags, head, |es| - 1) && |gone| == |st.segments| && i < |es| - 1
    requires PieceGone(env, st, gone, i, y)
    ensures ReadsAs(env, es[i], gone[i], if i == 0 then Restored(env, head) else [])
  {
    hide Secretful, TokenLen, IsToken, InChannel, OpensAt, Weight, Concat, FragmentGone, ReadsAs, Restored, ScanEnds;
    hide ClearBelow, Utf8.Valid;
    var e := es[i];
    ChannelAt(env, e, key);
    assert LeafText(frags, head, rest, i) == (if i == 0 then head else []) + frags[i];
    FragmentReads(env, e, key, i, head, frags[i], gone[i], if i == 0 then y else []);
  }

  /** The completing envelope, from the state that holds all but the last fragment. */
  lemma LastAccepted(
    env: Env, st: St, es: seq<Envelope>, key: bytes, frags: seq<bytes>, head: bytes, rest: bytes)
    returns (gone: seq<Segment>, x: Segment)
    requires WalkSound(env) && Secretful(env) && Shape(st) && Carried(env, st)
    requires CutOver(env, es, key, frags, head, rest) && Undisturbed(es, frags, head)
    requires Restorable(env, es[0].leaves[es[0].at], Concat(frags))
    requires Gathered(env, st, es, key, frags, head, |es| - 1)
    ensures PartsOk(st) && EventOk(es[|es| - 1].ev) && |gone| == |es| - 1
    ensures
      var r := Accept(env, st, es[|es| - 1].ev);
      r.released + r.st.segments == gone + [x] && r.st.held == [] && gone <= r.released
    ensures
      AllRead(env, es, gone + [x],
              FinalTexts(|es|, Restored(env, head), env.restore(Concat(frags)) + Restored(env, rest)))
  {
    hide WalkSound, Secretful, Shape, Carried, Restorable, TokenLen, IsToken, InChannel, OpensAt, Weight, Concat;
    hide Gathered, Completes, PieceGone, LaterCut, DeleteParts, Queues, Reads, HeadText, AcceptLeaf, ReadsAs, Handoff;
    hide Restored, RestoredTexts, ClearBelow, ScanEnds, Utf8.Valid;
    var n := |es| - 1;
    var e := es[n];
    LastCompletes(env, st, es, key, frags, head, rest);
    ChannelAccepted(env, st, e, key);
    GatheredHeld(env, st, es, key, frags, head, n);
    HandoffShape(st);
    DataIsValue(e.ev) by { ChannelAt(env, e, key); }
    var seg, m := SegmentOf(e.ev), e.leaves[e.at];
    var y, j, k := SplitTokenRestored(env, st, seg, e.leaves, m);
    gone := DeleteParts(env, st.segments, st.parts);
    var content :|
      && Queues(st.(segments := gone), AcceptLeaf(env, st, seg, e.leaves), seg, content)
      && j < |e.leaves| && e.leaves[j] == m
      && Reads(seg.Value(), e.leaves, content,
               RestoredTexts(env, e.leaves)[j := HeadText(env, seg.Value(), m, k,
                 env.restore(st.carry + m.value[..k]))]);
    x := Queued(st.(segments := gone), AcceptLeaf(env, st, seg, e.leaves), seg, content);
    LastText(frags, head, rest);
    LastReads(env, st, es, key, frags, rest, j, k, x);
    forall i | 0 <= i < n ensures ReadsAs(env, es[i], gone[i], if i == 0 then Restored(env, head) else []) {
      HeldRead(env, st, es, key, frags, head, rest, gone, y, i);
    }
    SseHistory.LeafHeld(env, st, seg, e.leaves);
    CompletesReleases(env, st, seg, e.leaves, m);
  }

  lemma Queued(st: St, r: Step, seg: Segment, content: bytes) returns (x: Segment)
    requires Queues(st, r, seg, content)
    ensures SameFrame(x, seg) && x.content == content && r.released + r.st.segments == st.segments + [x]
  {
    x :| SameFrame(x, seg) && x.content == content && r.released + r.st.segments == st.segments + [x];
  }

  lemma GatheredHeld(env: Env, st: St, es: seq<Envelope>, key: bytes, frags: seq<bytes>, head: bytes, n: nat)
    requires Gathered(env, st, es, key, frags, head, n)
    ensures |st.segments| == |st.parts| == n && st.held == []
  {
    hide Weight, HeldSegment, Concat;
  }

  /** Completing a placeholder releases all that was held. */
  lemma CompletesReleases(env: Env, st: St, seg: Segment, leaves: seq<Leaf>, m: Leaf)
    requires PartsOk(st) && Completes(env, st, seg, leaves, m)
    ensures DeleteParts(env, st.segments, st.parts) <= AcceptLeaf(env, st, seg, leaves).released
  {
    hide TokenLen, ContentWith, TrailingAfter, KeepPlaceholder, DrainCount, FitsBudget, DeleteParts;
    FlushFrames(st.(segments := DeleteParts(env, st.segments, st.parts)));
  }

  /** Closing changes nothing when the writer holds nothing. */
  lemma ClosingSame(st: St)
    requires st.held == []
    ensures Closing(st) == st.segments
  {
    var i := PendingFrom(st.segments, 0);
    if i < |st.segments| {
      assert st.segments[i].content + [] == st.segments[i].content;
      assert st.segments[i := st.segments[i]] == st.segments;
    }
  }

  /** The run over the envelopes, from a state without a carry. */
  lemma RunReads(
    env: Env, st: St, es: seq<Envelope>, key: bytes, frags: seq<bytes>, head: bytes, rest: bytes)
    returns (segs: seq<Segment>)
    requires WalkSound(env) && Secretful(env) && Shape(st) && Carried(env, st)
    requires CutOver(env, es, key, frags, head, rest) && Undisturbed(es, frags, head) && StartsAnew(st, es[0])
    requires Restorable(env, es[0].leaves[es[0].at], Concat(frags))
    ensures AllOk(EventsOf(es)) && |segs| == |es|
    ensures
      var r := RunEvents(env, st, EventsOf(es));
      && r.released + r.st.segments == Handoff(st).segments + segs && r.st.held == []
      && Handoff(st).segments + segs[..|es| - 1] <= r.released
    ensures
      AllRead(env, es, segs,
              FinalTexts(|es|, Restored(env, head), env.restore(Concat(frags)) + Restored(env, rest)))
  {
    hide WalkSound, Secretful, Shape, Carried, Restorable, InChannel, OpensAt, Concat, Accept, AllRead, Handoff;
    hide Gathered, TokenLen, IsToken, Weight, Restored, Undisturbed, SpanOk, Continues;
    var n := |es| - 1;
    EventsOk(env, es, key);
    RunGathers(env, st, es, key, frags, head, rest, n);
    RunNext(env, st, es, n);
    assert es[..n + 1] == es;
    RunCarried(env, st, EventsOf(es[..n]));
    var r := RunEvents(env, st, EventsOf(es[..n]));
    var gone, x := LastAccepted(env, r.st, es, key, frags, head, rest);
    segs := gone + [x];
    var last := Accept(env, r.st, es[n].ev);
    Assoc(r.released, last.released, last.st.segments);
    assert segs[..n] == gone;
    PrefixAfter(Handoff(st).segments, gone, last.released);
  }

  lemma PrefixAfter<T>(a: seq<T>, b: seq<T>, c: seq<T>)
    requires b <= c
    ensures a + b <= a + c
  {
  }

  lemma HandoffCount(env: Env, events: seq<Event>)
    requires AllOk(events)
    ensures Shape(EMPTY)
    ensures
      var r := RunEvents(env, EMPTY, events);
      |r.released + Handoff(r.st).segments| == |events|
  {
    hide Shape, Accept, Handoff;
    EmptyShape();
    RunFrames(env, EMPTY, events);
    HandoffLength(RunEvents(env, EMPTY, events).st);
  }

  /**
   Behind any events that begin no placeholder in the same channel, a placeholder is cut into two or more fragments,
     over
   envelopes of one channel: the first ends its leaf, the last begins its leaf, and each of the
   others is its leaf. Then each envelope leaves as the document it was. In the channel's leaves
   the text in front of the placeholder is restored, the secret stands where the placeholder
   ended, with the restored rest behind it, and nothing is left of the fragments. Every other
   leaf has its own placeholders restored.
   */
  lemma FragmentsRestored(
    env: Env, before: seq<Event>, es: seq<Envelope>, key: bytes, frags: seq<bytes>, head: bytes, rest: bytes)
    requires WalkSound(env) && Secretful(env) && AllOk(before) && Shape(EMPTY)
    requires |es| > 0 && StartsAnew(RunEvents(env, EMPTY, before).st, es[0])
    requires CutOver(env, es, key, frags, head, rest) && Undisturbed(es, frags, head)
    requires Restorable(env, es[0].leaves[es[0].at], Concat(frags))
    ensures AllOk(before + EventsOf(es))
    ensures |History(env, before + EventsOf(es))| == |before| + |es|
    ensures
      var texts := FinalTexts(|es|, Restored(env, head), env.restore(Concat(frags)) + Restored(env, rest));
      && AllRead(env, es, History(env, before + EventsOf(es))[|before|..], texts)
      && Concat(texts) == Restored(env, head) + (env.restore(Concat(frags)) + Restored(env, rest))
  {
    hide WalkSound, Secretful, Shape, Restorable, Accept, AllRead, Handoff, CutOver, Undisturbed, SpanOk, Restored;
    hide History;
    var r0 := RunEvents(env, EMPTY, before);
    CutNonempty(env, es, key, frags, head, rest);
    CutLong(env, es, key, frags, head, rest);
    NoCarry(env, EMPTY);
    RunCarried(env, EMPTY, before);
    var segs := RunReads(env, r0.st, es, key, frags, head, rest);
    HistoryTail(env, before, EventsOf(es), segs);
    TextsJoined(|es|, Restored(env, head), env.restore(Concat(frags)) + Restored(env, rest));
  }

  /** What the later events of a run leave behind, once nothing is withheld. */
  lemma HistoryTail(env: Env, before: seq<Event>, more: seq<Event>, segs: seq<Segment>)
    requires AllOk(before) && AllOk(more) && Shape(EMPTY)
    requires
      var st := RunEvents(env, EMPTY, before).st;
      var r := RunEvents(env, st, more);
      r.released + r.st.segments == Handoff(st).segments + segs && r.st.held == []
    ensures AllOk(before + more) && |History(env, before + more)| == |before| + |segs|
    ensures History(env, before + more)[|before|..] == segs
  {
    hide Shape, Accept, Handoff, SpanOk;
    var r0 := RunEvents(env, EMPTY, before);
    RunAppend(env, EMPTY, before, more);
    HandoffCount(env, before);
    var r := RunEvents(env, r0.st, more);
    ClosingSame(r.st);
    Assoc(r0.released, r.released, r.st.segments);
    Assoc(r0.released, Handoff(r0.st).segments, segs);
    var all := r0.released + Handoff(r0.st).segments;
    assert History(env, before + more) == all + segs;
    assert (all + segs)[|before|..] == segs;
  }

  lemma CutLong(env: Env, es: seq<Envelope>, key: bytes, frags: seq<bytes>, head: bytes, rest: bytes)
    requires CutOver(env, es, key, frags, head, rest)
    ensures |es| >= 2
  {
  }

  lemma TextsJoined(n: nat, first: bytes, last: bytes)
    requires n >= 2
    ensures Concat(FinalTexts(n, first, last)) == first + last
  {
    var texts := FinalTexts(n, first, last);
    var middle := texts[1..n - 1];
    assert texts == [first] + (middle + [last]);
    ConcatAppend([first], middle + [last]);
    ConcatOne(first);
    ConcatSnoc(middle, last);
    NothingJoined(middle);
    assert [] + last == last;
  }

  lemma {:induction false} NothingJoined(parts: seq<bytes>)
    requires forall i :: 0 <= i < |parts| ==> parts[i] == []
    ensures Concat(parts) == []
  {
    if parts != [] {
      NothingJoined(parts[1..]);
    }
  }

  /** The envelopes in front of the last one have left by then: no later event changes them. */
  lemma FragmentsGone(
    env: Env, before: seq<Event>, es: seq<Envelope>, key: bytes, frags: seq<bytes>, head: bytes, rest: bytes,
    later: seq<Event>)
    requires WalkSound(env) && Secretful(env) && AllOk(before) && AllOk(later) && Shape(EMPTY)
    requires |es| > 0 && StartsAnew(RunEvents(env, EMPTY, before).st, es[0])
    requires CutOver(env, es, key, frags, head, rest) && Undisturbed(es, frags, head)
    requires Restorable(env, es[0].leaves[es[0].at], Concat(frags))
    ensures AllOk(before + EventsOf(es)) && AllOk(before + EventsOf(es) + later)
    ensures
      var n := |before| + |es| - 1;
      && n <= |History(env, before + EventsOf(es))| && n <= |History(env, before + EventsOf(es) + later)|
      && History(env, before + EventsOf(es) + later)[..n] == History(env, before + EventsOf(es))[..n]
  {
    hide WalkSound, Secretful, Shape, Restorable, Accept, AllRead, Handoff, CutOver, Undisturbed, SpanOk, Restored;
    var r0 := RunEvents(env, EMPTY, before);
    CutNonempty(env, es, key, frags, head, rest);
    CutLong(env, es, key, frags, head, rest);
    NoCarry(env, EMPTY);
    RunCarried(env, EMPTY, before);
    var segs := RunReads(env, r0.st, es, key, frags, head, rest);
    RunAppend(env, EMPTY, before, EventsOf(es));
    HandoffCount(env, before);
    RunAppend(env, EMPTY, before + EventsOf(es), later);
    var r := RunEvents(env, EMPTY, before + EventsOf(es));
    var gone := Handoff(r0.st).segments + segs[..|es| - 1];
    PrefixAfter(r0.released, gone, RunEvents(env, r0.st, EventsOf(es)).released);
    var all := r0.released + gone;
    assert |all| == |before| + |es| - 1 && all <= r.released;
    HeadOfHistory(env, before + EventsOf(es), all);
    HeadOfHistory(env, before + EventsOf(es) + later, all);
  }

  lemma HeadOfHistory(env: Env, events: seq<Event>, all: seq<Segment>)
    requires AllOk(events) && Shape(EMPTY) && all <= RunEvents(env, EMPTY, events).released
    ensures |all| <= |History(env, events)| && History(env, events)[..|all|] == all
  {
    hide Shape, Accept, SpanOk, Closing;
  }

  // ------------------------------------------------------------------- where it is not restored

  /** An envelope with its own placeholders restored and nothing else changed. */
  lemma OwnReads(env: Env, e: Envelope, key: bytes, x: Segment)
    requires WalkSound(env) && Secretful(env) && InChannel(env, e, key)
    requires EventOk(e.ev) && SameFrame(x, SegmentOf(e.ev)) && x.content == OwnContent(env, e)
    ensures e.at < |e.leaves| && ReadsAs(env, e, x, Restored(env, e.leaves[e.at].value))
  {
    hide WalkSound, Secretful, Walked, PlanMakes, Reads, Restored, InChannel, ContentWith, SegmentOf;
    ChannelAt(env, e, key);
    ChannelWalked(env, e, key);
    BasePlanned(env, e.ev.data, e.leaves);
    PlannedReads(env, e.ev.data, e.leaves, [], Plan(env, e.leaves), RestoredTexts(env, e.leaves));
    var texts := RestoredTexts(env, e.leaves);
    assert texts[e.at := texts[e.at]] == texts;
  }

  /** A placeholder that has no secret, or one that must not stand there, is given up. */
  lemma MatchGivesUp(env: Env, st: St, seg: Segment, leaves: seq<Leaf>, m: Leaf)
    requires Shape(st) && st.carry != [] && seg.Ok() && UniqueMatch(leaves, st.carryKey) == Some(m)
    requires
      var s := st.carry + m.value;
      var t := TokenLen(s);
      t > |st.carry| && PartsOk(st)
      && (env.restore(s[..t]) == s[..t] || KeepPlaceholder(env, st.parts[0].leaf, env.restore(s[..t])))
    ensures PartsOk(st)
    ensures AcceptLeaf(env, st, seg, leaves) == GiveUp(env, st, seg, leaves)
  {
    hide Shape, TokenLen, ContentWith, GiveUp, Complete, Extend, KeepPlaceholder, UniqueMatch, AcceptFresh;
    hide AcceptMismatch;
  }

  lemma GivenUp(env: Env, st: St, seg: Segment, leaves: seq<Leaf>) returns (x: Segment)
    requires seg.Ok()
    ensures
      var r := GiveUp(env, st, seg, leaves);
      && r.released + r.st.segments == st.segments + [x] && r.st.held == st.held
      && SameFrame(x, seg) && x.content == ContentWith(env, seg.Value(), leaves, [])
  {
    hide ContentWith, DrainCount;
    var content := ContentWith(env, seg.Value(), leaves, []);
    FlushThenQueues(st, EmitSegment(FlushHeld(st).st, seg, content, []), seg, content);
    x := Queued(st, GiveUp(env, st, seg, leaves), seg, content);
  }

  function OwnTexts(env: Env, es: seq<Envelope>): (r: seq<bytes>)
    requires forall i :: 0 <= i < |es| ==> es[i].at < |es[i].leaves|
    ensures |r| == |es| && forall i :: 0 <= i < |r| ==> r[i] == Restored(env, es[i].leaves[es[i].at].value)
  {
    seq(|es|, i requires 0 <= i < |es| => Restored(env, es[i].leaves[es[i].at].value))
  }

  lemma ChannelPlaces(env: Env, es: seq<Envelope>, key: bytes, frags: seq<bytes>, head: bytes, rest: bytes)
    requires CutOver(env, es, key, frags, head, rest)
    ensures forall i :: 0 <= i < |es| ==> InChannel(env, es[i], key) && EventOk(es[i].ev) && es[i].at < |es[i].leaves|
  {
    hide InChannel, OpensAt, IsToken, TokenLen, Weight;
    forall i | 0 <= i < |es|
      ensures InChannel(env, es[i], key) && EventOk(es[i].ev) && es[i].at < |es[i].leaves|
    {
      ChannelAt(env, es[i], key);
      DataIsValue(es[i].ev);
    }
  }

  lemma HeldSegments(env: Env, st: St, es: seq<Envelope>, key: bytes, frags: seq<bytes>, head: bytes, n: nat, i: nat)
    requires Gathered(env, st, es, key, frags, head, n) && i < n
    ensures i < |st.segments| && EventOk(es[i].ev)
    ensures SameFrame(st.segments[i], SegmentOf(es[i].ev)) && st.segments[i].content == OwnContent(env, es[i])
  {
    hide OwnContent, SegmentOf, Weight;
  }

  /** The completing envelope, when the placeholder is kept. */
  lemma LastKept(env: Env, st: St, es: seq<Envelope>, key: bytes, frags: seq<bytes>, head: bytes, rest: bytes)
    returns (x: Segment)
    requires Shape(st) && CutOver(env, es, key, frags, head, rest)
    requires Gathered(env, st, es, key, frags, head, |es| - 1)
    requires es[0].at < |es[0].leaves| && !Restorable(env, es[0].leaves[es[0].at], Concat(frags))
    ensures PartsOk(st) && EventOk(es[|es| - 1].ev)
    ensures
      var e := es[|es| - 1];
      var r := Accept(env, st, e.ev);
      && r.released + r.st.segments == st.segments + [x] && r.st.held == []
      && SameFrame(x, SegmentOf(e.ev)) && x.content == OwnContent(env, e)
  {
    hide Shape, TokenLen, IsToken, KeepPlaceholder, InChannel, OpensAt, Weight, Concat, UniqueMatch, ContentWith;
    hide SegmentOf, LeafText, TornDocument, NeedsEscaping, AcceptLeaf, GiveUp, Handoff, Gathered;
    var n := |es| - 1;
    var e, token := es[n], Concat(frags);
    CutNonempty(env, es, key, frags, head, rest);
    GatheredCarry(env, st, es, key, frags, head, n);
    GatheredPart(env, st, es, key, frags, head, n);
    LastText(frags, head, rest);
    assert frags[n] in frags;
    ChannelAt(env, e, key);
    ChannelUsable(env, e, key);
    ChannelAccepted(env, st, e, key);
    HandoffShape(st);
    DataIsValue(e.ev);
    TokenLenAppend(token, rest);
    Assoc(st.carry, frags[n], rest);
    assert (token + rest)[..|token|] == token;
    KeepIs(env, es[0].leaves[es[0].at], env.restore(token));
    MatchGivesUp(env, st, SegmentOf(e.ev), e.leaves, e.leaves[e.at]);
    x := GivenUp(env, st, SegmentOf(e.ev), e.leaves);
  }

  lemma GatheredPart(env: Env, st: St, es: seq<Envelope>, key: bytes, frags: seq<bytes>, head: bytes, n: nat)
    requires Gathered(env, st, es, key, frags, head, n)
    ensures st.parts != [] && es[0].at < |es[0].leaves| && st.parts[0].leaf == es[0].leaves[es[0].at]
  {
    hide Weight, HeldSegment, Concat;
  }

  lemma RunKeeps(env: Env, st: St, es: seq<Envelope>, key: bytes, frags: seq<bytes>, head: bytes, rest: bytes)
    returns (segs: seq<Segment>)
    requires WalkSound(env) && Secretful(env) && Shape(st)
    requires CutOver(env, es, key, frags, head, rest) && StartsAnew(st, es[0])
    requires es[0].at < |es[0].leaves| && !Restorable(env, es[0].leaves[es[0].at], Concat(frags))
    ensures AllOk(EventsOf(es)) && |segs| == |es|
    ensures
      var r := RunEvents(env, st, EventsOf(es));
      r.released + r.st.segments == Handoff(st).segments + segs && r.st.held == []
    ensures forall i :: 0 <= i < |es| ==> es[i].at < |es[i].leaves|
    ensures AllRead(env, es, segs, OwnTexts(env, es))
  {
    hide WalkSound, Secretful, Shape, Restorable, InChannel, OpensAt, Concat, Accept, Handoff, ReadsAs, SegmentOf;
    hide Gathered, TokenLen, IsToken, Weight, Restored, SpanOk, OwnContent;
    var n := |es| - 1;
    EventsOk(env, es, key);
    ChannelPlaces(env, es, key, frags, head, rest);
    RunGathers(env, st, es, key, frags, head, rest, n);
    RunNext(env, st, es, n);
    assert es[..n + 1] == es;
    var r := RunEvents(env, st, EventsOf(es[..n]));
    var x := LastKept(env, r.st, es, key, frags, head, rest);
    GatheredHeld(env, r.st, es, key, frags, head, n);
    segs := r.st.segments + [x];
    var last := Accept(env, r.st, es[n].ev);
    Assoc(r.released, last.released, last.st.segments);
    forall i | 0 <= i < |es| ensures ReadsAs(env, es[i], segs[i], OwnTexts(env, es)[i]) {
      if i < n {
        HeldSegments(env, r.st, es, key, frags, head, n, i);
      }
      OwnReads(env, es[i], key, segs[i]);
    }
  }

  /**
   Otherwise, that is, when the session does not know the placeholder, or its secret would have to
   be escaped in a string that is a torn document, each of these envelopes leaves with its own
   placeholders restored and its fragment as it was.
   */
  lemma FragmentsKept(
    env: Env, before: seq<Event>, es: seq<Envelope>, key: bytes, frags: seq<bytes>, head: bytes, rest: bytes)
    requires WalkSound(env) && Secretful(env) && AllOk(before) && Shape(EMPTY)
    requires |es| > 0 && StartsAnew(RunEvents(env, EMPTY, before).st, es[0])
    requires CutOver(env, es, key, frags, head, rest)
    requires es[0].at < |es[0].leaves| && !Restorable(env, es[0].leaves[es[0].at], Concat(frags))
    ensures AllOk(before + EventsOf(es)) && forall i :: 0 <= i < |es| ==> es[i].at < |es[i].leaves|
    ensures |History(env, before + EventsOf(es))| == |before| + |es|
    ensures AllRead(env, es, History(env, before + EventsOf(es))[|before|..], OwnTexts(env, es))
  {
    hide WalkSound, Secretful, Shape, Restorable, Accept, AllRead, Handoff, CutOver, SpanOk, Restored, History;
    var segs := RunKeeps(env, RunEvents(env, EMPTY, before).st, es, key, frags, head, rest);
    HistoryTail(env, before, EventsOf(es), segs);
  }

  // ------------------------------------------------------------------- behind a completed one

  /** Behind offset k of the channel's leaf, leaf n is unresolved from o on, and none comes before this one. */
  ghost predicate OpensBehind(e: Envelope, k: nat, n: nat, o: nat)
    requires e.at < |e.leaves|
  {
    && e.at <= n < |e.leaves| && e.leaves[n].identifiable && o < |e.leaves[n].value|
    && Unresolved(e.leaves[n].value, o)
    && (forall i :: (if n == e.at then k else 0) <= i < o ==> !Unresolved(e.leaves[n].value, i))
    && (n == e.at ==> k <= o)
    && forall j :: n < j < |e.leaves| && e.leaves[j].identifiable ==> NeverOpens(e.leaves[j].value)
  }

  lemma {:induction false} TailBehind(leaves: seq<Leaf>, at: nat, k: nat, n: nat, o: nat)
    requires at <= n < |leaves| && leaves[at].identifiable && leaves[n].identifiable && o < |leaves[n].value|
    requires
      forall i :: 0 <= i < at ==> !(leaves[i].identifiable && leaves[i].identity == leaves[at].identity)
    requires SmallestPrefixAt(leaves[n].value, if n == at then k else 0) == Some(o)
    requires forall j :: n < j < |leaves| && leaves[j].identifiable ==> NeverOpens(leaves[j].value)
    ensures TrailingAfter(leaves, leaves[at], k) == Some(Tail(leaves[n], o))
    decreases |leaves|
  {
    hide NeverOpens, SmallestPrefixAt;
    if at > 0 {
      assert !(leaves[0].identifiable && leaves[0].identity == leaves[at].identity);
      assert forall i :: 0 < i < |leaves| ==> leaves[1..][i - 1] == leaves[i];
      TailBehind(leaves[1..], at - 1, k, n - 1, o);
    } else {
      var s := SmallestPrefixAt(leaves[0].value, k);
      var best := if s.Some? then Some(Tail(leaves[0], s.value)) else None;
      assert forall i :: 0 < i < |leaves| ==> leaves[1..][i - 1] == leaves[i];
      if n == 0 {
        TrailingStays(leaves[1..], best);
      } else {
        TrailingIs(leaves[1..], best, n - 1, o);
      }
    }
  }

  lemma OpeningBehind(e: Envelope, key: bytes, k: nat, n: nat, o: nat)
    requires e.at < |e.leaves| && OpensBehind(e, k, n, o) && e.leaves[e.at].identifiable
    requires forall i :: 0 <= i < |e.leaves| ==>
             (i == e.at <==> e.leaves[i].identifiable && e.leaves[i].identity == key)
    ensures TrailingAfter(e.leaves, e.leaves[e.at], k) == Some(Tail(e.leaves[n], o))
  {
    hide NeverOpens, Unresolved;
    SmallestIs(e.leaves[n].value, if n == e.at then k else 0, o);
    TailBehind(e.leaves, e.at, k, n, o);
  }

  /** Nothing is withheld: a segment with a tail is held when it fits. */
  lemma TailHeld(seg: Segment, content: bytes, extra: seq<Edit>, t: Tail) returns (x: Segment)
    requires seg.Ok() && seg.hasSpan && t.Ok() && t.leaf.identifiable
    ensures SameFrame(x, seg) && x.content == content
    ensures
      var r := Drain(HoldOrEmit(EMPTY, seg, content, extra, Some(t)));
      && r.released + r.st.segments == [x]
      && (if |seg.raw| + |content| + |t.Text()| <= 262144
          then r.released == [] && r.st.carry == t.Text() && r.st.carryKey == t.leaf.identity
          else r.st.carry == [])
  {
    hide Drain, StartCarry, EmitSegment, Shape;
    if |seg.raw| + |content| + |t.Text()| <= 262144 {
      var now := StartCarry(EMPTY, seg, content, extra, t);
      x := StartedSegment(seg, content, extra, t);
      StartShape(EMPTY, seg, content, extra, t);
      DrainStopsAtCarry(now);
      assert [] + [x] == [x];
    } else {
      x := EmittedSegment(seg, content);
    }
  }

  lemma StartedSegment(seg: Segment, content: bytes, extra: seq<Edit>, t: Tail) returns (x: Segment)
    requires seg.Ok() && t.Ok()
    ensures SameFrame(x, seg) && x.content == content
    ensures
      var st := StartCarry(EMPTY, seg, content, extra, t);
      st.segments == [x] && st.carry == t.Text() && st.carryKey == t.leaf.identity
  {
    x := seg.(leaf := true, content := content, extra := extra);
    assert [] + [x] == [x];
  }

  lemma EmittedSegment(seg: Segment, content: bytes) returns (x: Segment)
    requires seg.Ok()
    ensures SameFrame(x, seg) && x.content == content
    ensures
      var r := Drain(EmitSegment(EMPTY, seg, content, []));
      r.released + r.st.segments == [x] && r.st.carry == []
  {
    hide DrainCount;
    x := seg.(leaf := true, content := content, extra := []);
    var now := EmitSegment(EMPTY, seg, content, []);
    assert now.segments == [x];
    ReleaseFrames(now, DrainCount(now, 0));
  }

  /** Complete, when a tail of the envelope is to be held. */
  lemma CompleteHolds(env: Env, st: St, seg: Segment, leaves: seq<Leaf>, m: Leaf, secret: bytes, k: nat, t: Tail)
    returns (x: Segment)
    requires seg.Ok() && seg.hasSpan && PartsOk(st) && st.held == []
    requires t.Ok() && t.leaf.identifiable && TrailingAfter(leaves, m, k) == Some(t)
    ensures SameFrame(x, seg)
    ensures
      var r := Complete(env, st, seg, leaves, m, secret, k);
      && r.released + r.st.segments == DeleteParts(env, st.segments, st.parts) + [x]
      && (if |seg.raw| + |x.content| + |t.Text()| <= 262144
          then r.st.carry == t.Text() && r.st.carryKey == t.leaf.identity && r.st.segments == [x]
          else r.st.carry == [])
  {
    hide ContentWith, DeleteParts, Drain, TrailingAfter, HoldOrEmit, RawSpelling;
    var st1 := st.(segments := DeleteParts(env, st.segments, st.parts));
    FlushFrames(st1);
    assert FlushHeld(st1).st == EMPTY;
    var extra := [Edit(m, 0, k, RawSpelling(m.tok, secret))];
    var content := ContentWith(env, seg.Value(), leaves, extra);
    x := TailHeld(seg, content, extra, t);
    var last := Drain(HoldOrEmit(EMPTY, seg, content, extra, Some(t)));
    Assoc(st1.segments, last.released, last.st.segments);
    assert [] + last.st.segments == last.st.segments;
  }

  /**
   The envelope that completes a placeholder may begin another one behind it, in the same leaf or
   in a later one: then this envelope is held back, if the budget allows, and the tail is carried.
   */
  lemma TailCarriedOn(env: Env, st: St, e: Envelope, n: nat, o: nat) returns (x: Segment)
    requires Shape(st) && InChannel(env, e, st.carryKey) && st.carry != []
    requires EventOk(e.ev) && SegmentOf(e.ev).Ok()
    requires Completes(env, st, SegmentOf(e.ev), e.leaves, e.leaves[e.at])
    requires OpensBehind(e, TokenLen(st.carry + e.leaves[e.at].value) - |st.carry|, n, o)
    ensures PartsOk(st) && SameFrame(x, SegmentOf(e.ev))
    ensures
      var r := Accept(env, st, e.ev);
      var tail := e.leaves[n].value[o..];
      && r.released + r.st.segments == DeleteParts(env, st.segments, st.parts) + [x]
      && (if |e.ev.raw| + |x.content| + |tail| <= 262144
          then r.st.carry == tail && r.st.carryKey == e.leaves[n].identity && r.st.segments == [x]
          else r.st.carry == [])
  {
    hide Shape, TokenLen, InChannel, OpensBehind, DeleteParts, Handoff, Complete, KeepPlaceholder, SegmentOf;
    hide UniqueMatch, AcceptFresh, AcceptMismatch, Extend, GiveUp, TrailingAfter, PrefixLen;
    ShapeCarry(st);
    HandoffShape(st);
    ChannelAccepted(env, st, e, st.carryKey);
    ChannelAt(env, e, st.carryKey);
    ChannelUsable(env, e, st.carryKey);
    DataIsValue(e.ev);
    var m, s := e.leaves[e.at], st.carry + e.leaves[e.at].value;
    var t := TokenLen(s);
    BehindFacts(env, e, st.carryKey, t - |st.carry|, n, o);
    x := CompleteHolds(env, st, SegmentOf(e.ev), e.leaves, m, env.restore(s[..t]), t - |st.carry|,
      Tail(e.leaves[n], o));
  }

  lemma BehindFacts(env: Env, e: Envelope, key: bytes, k: nat, n: nat, o: nat)
    requires InChannel(env, e, key) && OpensBehind(e, k, n, o)
    ensures n < |e.leaves| && o < |e.leaves[n].value| && e.leaves[n].identifiable
    ensures TrailingAfter(e.leaves, e.leaves[e.at], k) == Some(Tail(e.leaves[n], o))
  {
    hide SpanOk, Unresolved, NeverOpens, TrailingAfter;
    OpeningBehind(e, key, k, n, o);
  }
}
