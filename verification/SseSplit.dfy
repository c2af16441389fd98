/**
 A placeholder split across events is restored exactly once: when the last piece arrives,
 each earlier fragment is cut out of the document that carried it, and the secret takes the
 place of the last piece, spelled for the string it lands in.
 */
module SseSplit {
  import opened Bytes
  import opened Utf8
  import opened Sse
  import opened Lens
  import opened LensPut
  import opened LensChain
  import opened LensOffset
  import opened Splice
  import opened Apply
  import opened ApplyLaws
  import opened ApplyOverlap
  import opened Tree
  import opened TreeLaws
  import opened TreeApply
  import opened TreeAssign
  import opened Placeholder
  import opened PlaceholderLaws
  import opened Holdback
  import opened HoldbackPlaceholder
  import opened Reassembly
  import opened ReassemblyInv
  import opened SseRun
  import opened SseText
  import opened SseCarry
  import opened SsePlan

  // ------------------------------------------------------------------------ an empty piece

  /** An edit of an empty leaf is located nowhere. */
  lemma NoWindow(value: bytes, leaves: seq<Leaf>, j: nat)
    requires Walked(value, leaves) && j < |leaves| && leaves[j].value == []
    ensures EditWindow(value, Edit(leaves[j], 0, 0, [])) == None
  {
    hide Good, Render, LeavesOf, Located, RawSpan, Decode, Interior;
    var ns :| Good(ns) && Render(ns) == value && LeavesOf(leaves, ns);
    LeafIsLocated(ns, leaves, j);
    SpanPlaces(leaves[j].tok, value, 0, 0);
  }

  lemma NoopReads(
    env: Env, value: bytes, leaves: seq<Leaf>, extra: seq<Edit>, e: Edit, s: seq<seq<Window>>, texts: seq<bytes>)
    requires Walked(value, leaves) && PlanMakes(env, value, leaves, extra, s, texts)
    requires EditWindow(value, e) == None
    ensures Reads(value, leaves, ContentWith(env, value, leaves, extra + [e]), texts)
  {
    hide Walked, WithinEdits, TreeEdits, Edits, ValueReplaced, Windows, Reads, EditWindow, ContentWith, Settled;
    var all, ws := WithinEdits(env, leaves) + extra, Windows(value, TreeEdits(leaves, s));
    Assoc(WithinEdits(env, leaves), extra, [e]);
    SettledSnoc(value, all, e, ws, ws);
    PlannedReads(env, value, leaves, extra + [e], s, texts);
  }

  // ------------------------------------------------------------------------- one fragment

  /** No complete placeholder of the leaf overlaps the fragment. */
  predicate Clear(p: Part) {
    ScanEnds(p.leaf.value, 0, p.start)
  }

  /** The restores that Apply makes in a leaf of the segment: all, or those behind a completed secret. */
  ghost function KeptWins(env: Env, seg: Segment, leaf: Leaf): (r: seq<Window>)
    requires seg.Ok()
    ensures forall w :: w in r ==> w in ScanWins(env, leaf.value, 0)
  {
    var ws := ScanWins(env, leaf.value, 0);
    if seg.extra != [] && seg.extra[0].leaf == leaf && seg.extra[0].end >= 0
      && EditStands(env, seg.Value(), seg.extra[0])
    then
      FromSubset(ws, seg.extra[0].end);
      From(ws, seg.extra[0].end)
    else ws
  }

  /** One of them reaches over the start of the fragment. */
  ghost predicate Overlapped(env: Env, seg: Segment, p: Part)
    requires seg.Ok()
  {
    Straddled(KeptWins(env, seg, p.leaf), p.start)
  }

  /** The text that the deletion takes from the leaf: none where a restore reaches over it. */
  ghost function CutText(env: Env, seg: Segment, p: Part): bytes
    requires seg.Ok() && Secretful(env) && Utf8.Valid(p.leaf.value) && p.start <= |p.leaf.value|
  {
    if Overlapped(env, seg, p) then [] else RestFrom(env, p.leaf.value, p.start)
  }

  /** t is v with its placeholders restored, perhaps behind a secret that its first bytes complete. */
  ghost predicate HeadMade(env: Env, v: bytes, t: bytes)
    requires Secretful(env) && Utf8.Valid(v)
  {
    || t == Restored(env, v)
    || exists k: nat, secret :: Completed(env, v, k, secret) && t == secret + RestFrom(env, v, k)
  }

  ghost predicate TextsMade(env: Env, leaves: seq<Leaf>, texts: seq<bytes>) {
    && Secretful(env) && |texts| == |leaves|
    && forall i :: 0 <= i < |leaves| ==> Utf8.Valid(leaves[i].value) && HeadMade(env, leaves[i].value, texts[i])
  }

  lemma RestoredMade(env: Env, value: bytes, leaves: seq<Leaf>)
    requires Walked(value, leaves) && Secretful(env)
    ensures TextsMade(env, leaves, RestoredTexts(env, leaves))
  {
    hide Walked, Secretful, Restored, Utf8.Valid, RestFrom;
    forall i | 0 <= i < |leaves|
      ensures Utf8.Valid(leaves[i].value) && HeadMade(env, leaves[i].value, RestoredTexts(env, leaves)[i])
    {
      LeafIsValid(value, leaves, i);
    }
  }

  lemma SecretMade(env: Env, value: bytes, leaves: seq<Leaf>, j: nat, k: nat, secret: bytes)
    requires Walked(value, leaves) && Secretful(env) && j < |leaves| && Completed(env, leaves[j].value, k, secret)
    ensures Utf8.Valid(leaves[j].value)
    ensures TextsMade(env, leaves, RestoredTexts(env, leaves)[j := HeadText(env, value, leaves[j], k, secret)])
  {
    hide Walked, Secretful, Restored, Utf8.Valid, RestFrom, HeadStands, Completed;
    hide HeadMade, RestoredTexts, HeadText;
    LeafIsValid(value, leaves, j);
    CompletedFacts(env, leaves[j].value, k, secret);
    RestoredMade(env, value, leaves);
    HeadIsMade(env, value, leaves[j], k, secret);
  }

  lemma HeadIsMade(env: Env, value: bytes, m: Leaf, k: nat, secret: bytes)
    requires Secretful(env) && Utf8.Valid(m.value) && k <= |m.value| && Completed(env, m.value, k, secret)
    ensures HeadMade(env, m.value, HeadText(env, value, m, k, secret))
  {
    hide Secretful, Restored, Utf8.Valid, RestFrom, HeadStands, Completed;
  }

  /** Windows that make a held segment's queued texts. */
  ghost predicate HeldPlan(
    env: Env, seg: Segment, leaves: seq<Leaf>, p: Part, s: seq<seq<Window>>, texts: seq<bytes>, j: nat)
    requires seg.Ok()
  {
    && PlanMakes(env, seg.Value(), leaves, seg.extra, s, texts)
    && j < |leaves| == |s| == |texts| && leaves[j] == p.leaf
    && Behind(s[j], p.leaf.value, 0) && HeldWins(KeptWins(env, seg, p.leaf), s[j], p.start)
    && (seg.extra == [] ==> texts == RestoredTexts(env, leaves)) && TextsMade(env, leaves, texts)
  }

  /** The restores kept, or those with one window in front of the fragment. */
  ghost predicate HeldWins(kept: seq<Window>, ws: seq<Window>, end: nat) {
    ws == kept || (ws != [] && ws[1..] == kept && ws[0].start < ws[0].end <= end)
  }

  lemma FromSubset(ws: seq<Window>, k: nat)
    ensures forall w :: w in From(ws, k) ==> w in ws
  {
    var i := FromIsTail(ws, k);
  }

  /** The windows of a leaf, with a secret at the head of leaf jm, are restores or that secret. */
  lemma HeadBehind(env: Env, value: bytes, leaves: seq<Leaf>, jm: nat, k: nat, secret: bytes, jp: nat)
    requires Walked(value, leaves) && Secretful(env) && jm < |leaves| && jp < |leaves|
    requires Completed(env, leaves[jm].value, k, secret)
    ensures Behind(HeadPlan(env, value, leaves, jm, k, secret)[jp], leaves[jp].value, 0)
  {
    hide Walked, ScanWins, Behind, IsSecret, Secretful, HeadStands, Plan, From;
    CompletedFacts(env, leaves[jm].value, k, secret);
    BaseTexts(env, value, leaves);
    HeadPlanned(env, value, leaves, jm, k, secret);
  }

  /** What a completed secret at the head of leaf jm makes of a segment. */
  lemma HeadMakes(env: Env, seg: Segment, leaves: seq<Leaf>, jm: nat, secret: bytes)
    requires seg.Ok() && |seg.extra| == 1 && Walked(seg.Value(), leaves) && Secretful(env) && jm < |leaves|
    requires seg.extra[0].end > 0 && seg.extra[0] == HeadOf(leaves[jm], seg.extra[0].end, secret)
    requires Completed(env, leaves[jm].value, seg.extra[0].end, secret)
    ensures Utf8.Valid(leaves[jm].value)
    ensures
      var k := seg.extra[0].end;
      var texts := RestoredTexts(env, leaves)[jm := HeadText(env, seg.Value(), leaves[jm], k, secret)];
      && PlanMakes(env, seg.Value(), leaves, seg.extra, HeadPlan(env, seg.Value(), leaves, jm, k, secret), texts)
      && TextsMade(env, leaves, texts)
  {
    hide Walked, PlanMakes, RawSpelling, IsSecret, Secretful, HeadText, HeadPlan, TextsMade, Completed, RestoredTexts;
    hide Utf8.Valid, Behind;
    var k := seg.extra[0].end;
    CompletedFacts(env, leaves[jm].value, k, secret);
    HeadPlanned(env, seg.Value(), leaves, jm, k, secret);
    SecretMade(env, seg.Value(), leaves, jm, k, secret);
    assert seg.extra == [HeadOf(leaves[jm], k, secret)];
  }

  /** A segment with a completed secret at the head of leaf jm. */
  lemma HeadHeld(env: Env, seg: Segment, leaves: seq<Leaf>, p: Part, jm: nat, jp: nat, secret: bytes)
    returns (s: seq<seq<Window>>, texts: seq<bytes>)
    requires seg.Ok() && |seg.extra| == 1 && Walked(seg.Value(), leaves) && Secretful(env)
    requires jm < |leaves| && jp < |leaves| && leaves[jp] == p.leaf
    requires seg.extra[0].end > 0 && seg.extra[0] == HeadOf(leaves[jm], seg.extra[0].end, secret)
    requires Completed(env, leaves[jm].value, seg.extra[0].end, secret)
    requires leaves[jm] == leaves[jp] ==> jm == jp && seg.extra[0].end <= p.start
    ensures HeldPlan(env, seg, leaves, p, s, texts, jp)
  {
    hide Walked, PlanMakes, Behind, RawSpelling, Secretful, HeadText, HeadPlan, KeptWins, HeldWins, TextsMade;
    hide Completed;
    hide RestoredTexts;
    HeadMakes(env, seg, leaves, jm, secret);
    var k := seg.extra[0].end;
    CompletedFacts(env, leaves[jm].value, k, secret);
    HeadBehind(env, seg.Value(), leaves, jm, k, secret, jp);
    s := HeadPlan(env, seg.Value(), leaves, jm, k, secret);
    texts := RestoredTexts(env, leaves)[jm := HeadText(env, seg.Value(), leaves[jm], k, secret)];
    HeadPlanKeeps(env, seg, leaves, jm, secret, jp, p.start);
  }

  /** The windows of leaf jp when leaf jm has a secret at its head. */
  lemma HeadPlanKeeps(env: Env, seg: Segment, leaves: seq<Leaf>, jm: nat, secret: bytes, jp: nat, end: nat)
    requires seg.Ok() && |seg.extra| == 1 && jm < |leaves| && jp < |leaves| && (leaves[jm] == leaves[jp] ==> jm == jp)
    requires seg.extra[0].end > 0 && seg.extra[0] == HeadOf(leaves[jm], seg.extra[0].end, secret)
    requires jm == jp ==> seg.extra[0].end <= end
    ensures
      var s := HeadPlan(env, seg.Value(), leaves, jm, seg.extra[0].end, secret);
      && HeldWins(KeptWins(env, seg, leaves[jp]), s[jp], end)
      && (jm != jp ==> s[jp] == Plan(env, leaves)[jp])
  {
    hide EditStands, From, ScanWins;
    var e := seg.extra[0];
    if jm == jp && EditStands(env, seg.Value(), e) {
      var ws := [Window(0, e.end, secret)] + From(Plan(env, leaves)[jm], e.end);
      assert ws[1..] == From(Plan(env, leaves)[jm], e.end);
    }
  }

  lemma HeldPlanned(
    env: Env, seg: Segment, p: Part, first: bool)
    returns (s: seq<seq<Window>>, texts: seq<bytes>, j: nat)
    requires WalkSound(env) && Secretful(env) && Carries(env, seg, p, first)
    ensures HeldPlan(env, seg, env.walk(seg.Value()).value, p, s, texts, j)
  {
    hide Walked, PlanMakes, ContentWith, ScanWins, Restored, Behind, HeadEdit, Secretful, TextsMade, Completed;
    hide RawSpelling;
    var value := seg.Value();
    var leaves := env.walk(value).value;
    j :| 0 <= j < |leaves| && leaves[j] == p.leaf;
    if seg.extra == [] {
      BaseTexts(env, value, leaves);
      BasePlanned(env, value, leaves);
      RestoredMade(env, value, leaves);
      s, texts := Plan(env, leaves), RestoredTexts(env, leaves);
    } else {
      var e := seg.extra[0];
      assert e in seg.extra && seg.extra == [e];
      HeadInLeaves(env, e, leaves);
      var jm :| 0 <= jm < |leaves| && leaves[jm] == e.leaf;
      jm := if e.leaf == p.leaf then j else jm;
      var secret := HeadSecret(env, e, leaves);
      s, texts := HeadHeld(env, seg, leaves, p, jm, j, secret);
    }
  }

  lemma HeadSecret(env: Env, e: Edit, leaves: seq<Leaf>) returns (secret: bytes)
    requires HeadEdit(env, e, leaves)
    ensures e.end > 0 && Completed(env, e.leaf.value, e.end, secret) && e == HeadOf(e.leaf, e.end, secret)
  {
    hide RawSpelling;
    secret :| Completed(env, e.leaf.value, e.end, secret) && e.repl == RawSpelling(e.leaf.tok, secret);
  }

  lemma HeadInLeaves(env: Env, e: Edit, leaves: seq<Leaf>)
    requires HeadEdit(env, e, leaves)
    ensures e.leaf in leaves
  {
  }

  /** The segment once the fragment is deleted from it. */
  ghost function Deleted(env: Env, seg: Segment, p: Part): Segment
    requires seg.Ok()
  {
    RenderHeld(env, seg.(extra := seg.extra + [Edit(p.leaf, p.start, p.end, [])]))
  }

  /**
   Of one leaf, the fragment is cut off as CutText says and y is left; no other leaf and no
   byte outside the strings has changed from what was queued.
   */
  ghost predicate FragmentGone(env: Env, before: Segment, after: Segment, p: Part, y: bytes)
    requires before.Ok() && Secretful(env) && Utf8.Valid(p.leaf.value) && p.start <= |p.leaf.value|
  {
    && env.walk(before.Value()).Some? && SameFrame(before, after)
    && var leaves := env.walk(before.Value()).value;
    exists texts: seq<bytes>, j: nat ::
      && j < |texts| == |leaves| && leaves[j] == p.leaf
      && texts[j] == y + CutText(env, before, p)
      && (before.extra == [] ==> texts == RestoredTexts(env, leaves)) && TextsMade(env, leaves, texts)
      && Reads(before.Value(), leaves, before.content, texts)
      && Reads(before.Value(), leaves, after.content, texts[j := y])
  }

  lemma DeleteOne(env: Env, seg: Segment, p: Part, first: bool) returns (y: bytes)
    requires WalkSound(env) && Secretful(env) && Carries(env, seg, p, first)
    requires p.start <= p.end == |p.leaf.value| && Aligned(p.leaf.value, p.start)
    requires p.start == p.end ==> p.leaf.value == []
    ensures Utf8.Valid(p.leaf.value) && FragmentGone(env, seg, Deleted(env, seg, p), p, y)
  {
    hide Walked, PlanMakes, ContentWith, Restored, Behind, Reads, Secretful, Aligned, KeptWins, HeldWins, CutText;
    hide TextsMade;
    var value := seg.Value();
    var leaves := env.walk(value).value;
    var s, texts, j := HeldPlanned(env, seg, p, first);
    LeafIsValid(value, leaves, j);
    PlannedReads(env, value, leaves, seg.extra, s, texts);
    var del := Edit(p.leaf, p.start, p.end, []);
    var after := Deleted(env, seg, p);
    assert after.content == ContentWith(env, value, leaves, seg.extra + [del]);
    if p.start == p.end {
      y := texts[j];
      NoWindow(value, leaves, j);
      NoopReads(env, value, leaves, seg.extra, del, s, texts);
      NoCut(env, seg, p);
      assert texts[j := y] == texts && y + [] == y;
    } else if Overlapped(env, seg, p) {
      y := texts[j];
      var w := HeldOver(env, seg, p, s[j]);
      CutDropped(env, value, leaves, seg.extra, s, texts, j, p.start, w);
      PlannedReads(env, value, leaves, seg.extra + [del], s, texts);
      OverlappedCut(env, seg, p);
      assert texts[j := y] == texts && y + CutText(env, seg, p) == y;
    } else {
      HeldBehind(env, seg, p, s[j]);
      y := CutPlanned(env, value, leaves, seg.extra, s, texts, j, p.start);
      PlannedReads(env, value, leaves, seg.extra + [del], s[j := CutWins(s[j], p.start, p.end)], texts[j := y]);
    }
  }

  lemma NoCut(env: Env, seg: Segment, p: Part)
    requires seg.Ok() && Secretful(env) && p.leaf.value == [] && p.start == 0
    ensures Utf8.Valid(p.leaf.value) && CutText(env, seg, p) == []
  {
    assert ScanWins(env, [], 0) == [] && From([], 0) == [];
    SplicesEmpty([], 0);
  }

  lemma OverlappedCut(env: Env, seg: Segment, p: Part)
    requires seg.Ok() && Secretful(env) && Utf8.Valid(p.leaf.value) && p.start <= |p.leaf.value|
    requires Overlapped(env, seg, p)
    ensures CutText(env, seg, p) == []
  {
  }

  /** The restore that reaches over the fragment's start. */
  lemma HeldOver(env: Env, seg: Segment, p: Part, ws: seq<Window>) returns (w: Window)
    requires seg.Ok() && Overlapped(env, seg, p) && HeldWins(KeptWins(env, seg, p.leaf), ws, p.start)
    ensures w in ws && w.start <= p.start < w.end <= |p.leaf.value| && w.repl != p.leaf.value[w.start..w.end]
  {
    hide ScanWins;
    w :| w in KeptWins(env, seg, p.leaf) && w.start <= p.start < w.end;
    ScanChanges(env, p.leaf.value, 0);
  }

  /** Where none does, what stands behind it is what RestFrom restores. */
  lemma HeldBehind(env: Env, seg: Segment, p: Part, ws: seq<Window>)
    requires seg.Ok() && Secretful(env) && Utf8.Valid(p.leaf.value) && p.start <= |p.leaf.value|
    requires !Overlapped(env, seg, p) && HeldWins(KeptWins(env, seg, p.leaf), ws, p.start)
    requires seg.extra != [] && seg.extra[0].leaf == p.leaf ==> seg.extra[0].end <= p.start
    ensures !Straddled(ws, p.start)
    ensures Ordered(From(ws, p.start), p.start, |p.leaf.value|)
    ensures Splices(p.leaf.value, From(ws, p.start), p.start) == CutText(env, seg, p)
  {
    hide ScanWins, Splices, Secretful, EditStands;
    var v, kept := p.leaf.value, KeptWins(env, seg, p.leaf);
    ScanSized(env, v);
    FromOrdered(ScanWins(env, v, 0), p.start, |v|);
    if seg.extra != [] && seg.extra[0].leaf == p.leaf && seg.extra[0].end >= 0 {
      FromFrom(ScanWins(env, v, 0), seg.extra[0].end, p.start);
    }
    assert From(ws, p.start) == From(kept, p.start);
    assert forall w :: w in ws ==> w in kept || w == ws[0];
  }

  lemma {:induction false} FromFrom(ws: seq<Window>, k: nat, m: nat)
    requires k <= m
    ensures From(From(ws, k), m) == From(ws, m)
  {
    if ws != [] && ws[0].start < k {
      FromFrom(ws[1..], k, m);
    }
  }

  // ------------------------------------------------------------------------ all fragments

  lemma EditOne(env: Env, segs: seq<Segment>, p: Part)
    requires SegsOk(segs) && p.seg < |segs|
    ensures
      var segs1 := EditHeld(env, segs, p, []);
      && segs[p.seg].Ok() && segs1[p.seg] == Deleted(env, segs[p.seg], p)
      && forall n :: 0 <= n < |segs| && n != p.seg ==> segs1[n] == segs[n]
  {
    hide RenderHeld;
    assert segs[p.seg] in segs;
  }

  lemma DeleteStep(env: Env, segs: seq<Segment>, parts: seq<Part>)
    requires SegsOk(segs) && parts != [] && forall p :: p in parts ==> p.seg < |segs|
    ensures SegsOk(EditHeld(env, segs, parts[0], [])) && forall p :: p in parts[1..] ==> p.seg < |segs|
    ensures DeleteParts(env, segs, parts) == DeleteParts(env, EditHeld(env, segs, parts[0], []), parts[1..])
  {
    hide EditHeld;
  }

  lemma {:induction false} DeleteAll(env: Env, segs: seq<Segment>, parts: seq<Part>)
    requires SegsOk(segs) && forall p :: p in parts ==> p.seg < |segs|
    requires forall i, j :: 0 <= i < j < |parts| ==> parts[i].seg < parts[j].seg
    ensures forall n :: 0 <= n < |segs| && !Referenced(parts, n) ==> DeleteParts(env, segs, parts)[n] == segs[n]
    ensures forall i :: 0 <= i < |parts| ==>
              && parts[i].seg < |segs| && segs[parts[i].seg].Ok()
              && DeleteParts(env, segs, parts)[parts[i].seg] == Deleted(env, segs[parts[i].seg], parts[i])
    decreases |parts|
  {
    hide EditHeld, DeleteParts, Deleted;
    if parts == [] {
      NoneDeleted(env, segs);
    } else {
      var p := parts[0];
      assert p in parts;
      EditOne(env, segs, p);
      DeleteStep(env, segs, parts);
      var segs1 := EditHeld(env, segs, p, []);
      DeleteAll(env, segs1, parts[1..]);
      assert forall q :: q in parts[1..] ==> q.seg != p.seg;
      forall n | 0 <= n < |segs| && !Referenced(parts, n)
        ensures DeleteParts(env, segs, parts)[n] == segs[n]
      {
        assert !Referenced(parts[1..], n) && n != p.seg;
      }
      forall i | 0 <= i < |parts|
        ensures
          && parts[i].seg < |segs| && segs[parts[i].seg].Ok()
          && DeleteParts(env, segs, parts)[parts[i].seg] == Deleted(env, segs[parts[i].seg], parts[i])
      {
        assert parts[i] in parts && segs[parts[i].seg] in segs;
        if i > 0 {
          assert parts[i] == parts[1..][i - 1];
        } else {
          assert !Referenced(parts[1..], p.seg);
        }
      }
    }
  }

  lemma NoneDeleted(env: Env, segs: seq<Segment>)
    requires SegsOk(segs)
    ensures DeleteParts(env, segs, []) == segs
  {
  }

  // --------------------------------------------------------------------- the carry's pieces

  ghost predicate FragmentsOk(parts: seq<Part>) {
    forall i :: 0 <= i < |parts| ==> FragmentOk(parts[i], i == 0)
  }

  lemma SpelledFragments(parts: seq<Part>)
    requires FragmentsOk(parts)
    ensures forall p :: p in parts ==> p.start <= p.end <= |p.leaf.value|
  {
    forall p | p in parts ensures p.start <= p.end <= |p.leaf.value| {
      var i :| 0 <= i < |parts| && parts[i] == p;
      assert FragmentOk(parts[i], i == 0);
    }
  }

  function Piece(p: Part): bytes
    requires p.start <= p.end <= |p.leaf.value|
  {
    p.leaf.value[p.start..p.end]
  }

  /** Where fragment i stands in the carry. */
  lemma {:induction false} PieceInCarry(parts: seq<Part>, i: nat) returns (before: bytes, after: bytes)
    requires FragmentsOk(parts) && i < |parts|
    ensures forall p :: p in parts ==> p.start <= p.end <= |p.leaf.value|
    ensures Fragments(parts) == before + Piece(parts[i]) + after
    ensures i > 0 ==> before != []
    ensures i == 0 ==> before == []
    decreases |parts|
  {
    SpelledFragments(parts);
    var last := parts[|parts| - 1];
    var front := parts[..|parts| - 1];
    assert forall k :: 0 <= k < |front| ==> front[k] == parts[k];
    assert FragmentOk(parts[0], true);
    if i < |parts| - 1 {
      before, after := PieceInCarry(front, i);
      Assoc(before + Piece(parts[i]), after, Piece(last));
      after := after + Piece(last);
    } else {
      before, after := Fragments(front), [];
      if i > 0 {
        var none, rest := PieceInCarry(front, 0);
        assert |Piece(parts[0])| > 0;
      }
      assert before + Piece(last) + [] == before + Piece(last);
    }
  }

  lemma HeadExtendable(p: bytes, q: bytes)
    requires Extendable(p + q)
    ensures Extendable(p)
  {
    var r :| IsToken(p + q + r);
    assert p + q + r == p + (q + r);
  }

  /** Nothing completes inside a later piece. */
  lemma PieceClear(before: bytes, w: bytes, after: bytes)
    requires Extendable(before + w + after) && before != []
    ensures ClearBelow(w, |w|)
  {
    hide TokenLen, Extendable;
    HeadExtendable(before + w, after);
    forall j {:trigger w[j..]} | 0 <= j < |w| ensures TokenLen(w[j..]) == 0 {
      NoInnerToken(before + w, |before| + j);
      assert (before + w)[|before| + j..] == w[j..];
    }
  }

  lemma ClearKept(env: Env, w: bytes)
    requires ClearBelow(w, |w|)
    ensures Restored(env, w) == w
  {
    hide TokenLen;
    forall j | 0 <= j < |w| ensures Match(MATCHER, w[j..]) == 0 {
      assert TokenLen(w[j..]) == 0;
    }
    BatchOfNoMatch(MATCHER, Restorer(env), w);
  }

  lemma DeleteLater(env: Env, seg: Segment, p: Part)
    requires WalkSound(env) && Secretful(env) && Carries(env, seg, p, false)
    requires FragmentOk(p, false) && ClearBelow(p.leaf.value, |p.leaf.value|)
    ensures Utf8.Valid(p.leaf.value) && CutText(env, seg, p) == p.leaf.value
    ensures FragmentGone(env, seg, Deleted(env, seg, p), p, [])
  {
    hide Walked, ClearBelow, Restored, Reads, ContentWith, Deleted, Secretful, CutText;
    var leaves := env.walk(seg.Value()).value;
    var w := p.leaf.value;
    ClearKept(env, w);
    var l :| 0 <= l < |leaves| && leaves[l] == p.leaf;
    LeafIsValid(seg.Value(), leaves, l);
    ValidStart(w);
    ClearCut(env, seg, p);
    var y := DeleteOne(env, seg, p, false);
    assert y == [];
  }

  /** A leaf in which nothing completes is cut off as a whole. */
  lemma ClearCut(env: Env, seg: Segment, p: Part)
    requires seg.Ok() && seg.extra == [] && Secretful(env) && Utf8.Valid(p.leaf.value) && p.start == 0
    requires ClearBelow(p.leaf.value, |p.leaf.value|)
    ensures CutText(env, seg, p) == p.leaf.value
  {
    hide Splices, Ordered, Secretful, ClearBelow, Utf8.Valid, RestFrom;
    var v := p.leaf.value;
    ScanSkips(env, v, 0, |v|);
    assert ScanWins(env, v, |v|) == [];
    assert !Overlapped(env, seg, p);
    RestOfNothing(env, v);
  }

  lemma RestOfNothing(env: Env, v: bytes)
    requires Secretful(env) && Utf8.Valid(v) && ScanWins(env, v, 0) == []
    ensures RestFrom(env, v, 0) == v
  {
    hide ScanWins;
    assert From([], 0) == [];
    SplicesEmpty(v, 0);
    assert v[0..] == v;
  }

  lemma CarryStarts(parts: seq<Part>, more: bytes)
    requires FragmentsOk(parts) && parts != []
    requires forall p :: p in parts ==> p.start <= p.end <= |p.leaf.value|
    requires TokenLen(Fragments(parts) + more) > 0
    ensures parts[0].start < |parts[0].leaf.value| && parts[0].leaf.value[parts[0].start] == US
  {
    hide TokenLen;
    var before, after := PieceInCarry(parts, 0);
    assert FragmentOk(parts[0], true);
    TokenStarts(Fragments(parts) + more);
    assert Piece(parts[0]) != [] && Fragments(parts)[0] == Piece(parts[0])[0];
  }

  lemma UsAligned(v: bytes, i: nat)
    requires i < |v| && v[i] == US
    ensures Aligned(v, i)
  {
  }

  /** The pieces of a carry that completes are all gone from what held them. */
  lemma PiecesGone(env: Env, st: St, more: bytes) returns (head: bytes)
    requires WalkSound(env) && Secretful(env) && Shape(st) && Carried(env, st) && st.carry != []
    requires st.segments != [] && st.parts != []
    requires TokenLen(st.carry + more) > 0
    ensures PartsOk(st)
    ensures forall i :: 0 < i < |st.parts| ==> LaterCut(env, st, i)
    ensures
      var gone := DeleteParts(env, st.segments, st.parts);
      && (forall n :: 0 <= n < |gone| && !Referenced(st.parts, n) ==> gone[n] == st.segments[n])
      && (forall i :: 0 <= i < |st.parts| ==> PieceGone(env, st, gone, i, head))
  {
    hide Shape, Carried, FragmentGone, TokenLen, Secretful, WalkSound, Deleted, Fragments, DeleteParts, LaterCut;
    ShapeParts(st);
    ShapeCarry(st);
    DeleteAll(env, st.segments, st.parts);
    var gone := DeleteParts(env, st.segments, st.parts);
    head := FirstGone(env, st, more);
    forall i | 0 <= i < |st.parts| ensures PieceGone(env, st, gone, i, head) && (i > 0 ==> LaterCut(env, st, i)) {
      assert st.parts[i] in st.parts;
      if i > 0 {
        LaterGone(env, st, i);
        LaterCutFacts(env, st, i);
      }
    }
  }

  lemma LaterCutFacts(env: Env, st: St, i: nat)
    requires i < |st.parts| && LaterCut(env, st, i)
    ensures Secretful(env) && Utf8.Valid(st.parts[i].leaf.value)
  {
  }

  lemma FirstGone(env: Env, st: St, more: bytes) returns (head: bytes)
    requires WalkSound(env) && Secretful(env) && Shape(st) && Carried(env, st) && st.carry != []
    requires st.segments != [] && st.parts != [] && TokenLen(st.carry + more) > 0
    ensures st.segments[0].Ok() && st.parts[0].seg == 0
    ensures Utf8.Valid(st.parts[0].leaf.value) && st.parts[0].start <= |st.parts[0].leaf.value|
    ensures FragmentGone(env, st.segments[0], Deleted(env, st.segments[0], st.parts[0]), st.parts[0], head)
  {
    hide Shape, Carries, FragmentGone, TokenLen, Extendable, Secretful, WalkSound, Deleted, Fragments;
    ShapeCarry(st);
    ShapeParts(st);
    assert st.segments[0] in st.segments;
    var p := st.parts[0];
    CarryStarts(st.parts, more);
    UsAligned(p.leaf.value, p.start);
    assert CarriesPart(env, st, 0) && FragmentOk(p, true);
    head := DeleteOne(env, st.segments[0], p, true);
  }

  lemma LaterGone(env: Env, st: St, i: nat)
    requires WalkSound(env) && Secretful(env) && Shape(st) && Carried(env, st) && 0 < i < |st.parts|
    ensures
      var p := st.parts[i];
      && LaterCut(env, st, i) && p.start <= |p.leaf.value|
      && FragmentGone(env, st.segments[p.seg], Deleted(env, st.segments[p.seg], p), p, [])
  {
    hide Shape, Carries, FragmentGone, Extendable, Secretful, WalkSound, Deleted, Fragments, CutText;
    CarryHeld(st);
    ShapeCarry(st);
    ShapeParts(st);
    assert st.parts[i] in st.parts && st.segments[st.parts[i].seg] in st.segments;
    assert CarriesPart(env, st, i) && FragmentOk(st.parts[i], false);
    LaterPieceClear(st.parts, i);
    DeleteLater(env, st.segments[st.parts[i].seg], st.parts[i]);
  }

  lemma CarryHeld(st: St)
    requires Shape(st) && st.parts != []
    ensures st.carry != []
  {
  }

  lemma LaterPieceClear(parts: seq<Part>, i: nat)
    requires FragmentsOk(parts) && 0 < i < |parts|
    requires forall p :: p in parts ==> p.start <= p.end <= |p.leaf.value|
    requires Extendable(Fragments(parts))
    ensures ClearBelow(parts[i].leaf.value, |parts[i].leaf.value|)
  {
    hide Extendable, Fragments, ClearBelow;
    assert FragmentOk(parts[i], false);
    var before, after := PieceInCarry(parts, i);
    assert Piece(parts[i]) == parts[i].leaf.value;
    PieceClear(before, parts[i].leaf.value, after);
  }

  /** The leaf of a later fragment is the fragment, and all of it is cut off. */
  ghost predicate LaterCut(env: Env, st: St, i: nat)
    requires i < |st.parts|
  {
    var p := st.parts[i];
    && p.seg < |st.segments| && st.segments[p.seg].Ok() && p.start == 0
    && Secretful(env) && Utf8.Valid(p.leaf.value) && CutText(env, st.segments[p.seg], p) == p.leaf.value
  }

  /** Fragment i is cut off; of the first leaf `head` is left, of the others nothing. */
  ghost predicate PieceGone(env: Env, st: St, gone: seq<Segment>, i: nat, head: bytes)
    requires i < |st.parts| && |gone| == |st.segments|
  {
    var p := st.parts[i];
    && p.seg < |gone| && st.segments[p.seg].Ok() && p.start <= |p.leaf.value|
    && Secretful(env) && Utf8.Valid(p.leaf.value)
    && FragmentGone(env, st.segments[p.seg], gone[p.seg], p, if i == 0 then head else [])
  }

  lemma CompleteQueues(env: Env, st: St, seg: Segment, leaves: seq<Leaf>, m: Leaf, secret: bytes, k: nat)
    requires seg.Ok() && PartsOk(st)
    ensures
      var extra := [HeadOf(m, k, secret)];
      Queues(st.(segments := DeleteParts(env, st.segments, st.parts)),
             Complete(env, st, seg, leaves, m, secret, k), seg, ContentWith(env, seg.Value(), leaves, extra))
  {
    hide ContentWith, DrainCount, FitsBudget, TrailingAfter, DeleteParts;
    var st1 := st.(segments := DeleteParts(env, st.segments, st.parts));
    var extra := [HeadOf(m, k, secret)];
    var content := ContentWith(env, seg.Value(), leaves, extra);
    FlushThenQueues(st1, HoldOrEmit(FlushHeld(st1).st, seg, content, extra, TrailingAfter(leaves, m, k)), seg, content);
  }

  /** The carry and the matching leaf m hold a placeholder that is to be restored. */
  ghost predicate Completes(env: Env, st: St, seg: Segment, leaves: seq<Leaf>, m: Leaf) {
    && st.carry != [] && st.parts != [] && seg.Ok() && seg.hasSpan && env.walk(seg.Value()) == Some(leaves)
    && UniqueMatch(leaves, st.carryKey) == Some(m)
    && var combined := st.carry + m.value;
    var t := TokenLen(combined);
    && t > |st.carry| && env.restore(combined[..t]) != combined[..t]
    && !KeepPlaceholder(env, st.parts[0].leaf, env.restore(combined[..t]))
  }

  /**
   The step that completes a split placeholder, from any reachable state. The carry and the
   first k bytes of the matching leaf are the placeholder. In each event that held a fragment,
   the fragment is cut off from its leaf, as CutText says, and nothing else has changed from
   what was queued. In the completing event the leaf reads as HeadText says, and every other
   leaf as its own text, restored.
   */
  lemma SplitTokenRestored(env: Env, st: St, seg: Segment, leaves: seq<Leaf>, m: Leaf)
    returns (head: bytes, j: nat, k: nat)
    requires WalkSound(env) && Secretful(env) && Shape(st) && Carried(env, st)
    requires Completes(env, st, seg, leaves, m)
    ensures PartsOk(st) && Utf8.Valid(m.value)
    ensures k <= |m.value| && TokenLen(st.carry + m.value[..k]) == |st.carry| + k
    ensures
      var gone := DeleteParts(env, st.segments, st.parts);
      && (forall n :: 0 <= n < |gone| && !Referenced(st.parts, n) ==> gone[n] == st.segments[n])
      && (forall i :: 0 <= i < |st.parts| ==> PieceGone(env, st, gone, i, head))
    ensures forall i :: 0 < i < |st.parts| ==> LaterCut(env, st, i)
    ensures
      exists content ::
        && Queues(st.(segments := DeleteParts(env, st.segments, st.parts)), AcceptLeaf(env, st, seg, leaves), seg,
          content)
        && j < |leaves| && leaves[j] == m
        && Reads(seg.Value(), leaves, content,
                 RestoredTexts(env, leaves)[j := HeadText(env, seg.Value(), m, k,
                   env.restore(st.carry + m.value[..k]))])
  {
    hide Shape, Carried, Walked, FragmentGone, DeleteParts, PieceGone, LaterCut, Queues, Reads, ContentWith;
    hide KeepPlaceholder, TokenLen, Complete, Restored, PlanMakes, RawSpelling, HeadText, HeadPlan;
    var combined := st.carry + m.value;
    var t := TokenLen(combined);
    k := t - |st.carry|;
    CarryQueued(st);
    head := PiecesGone(env, st, m.value);
    TokenAt(st.carry, m.value);
    var secret := env.restore(combined[..t]);
    var all := Matching(leaves, st.carryKey);
    MatchingFacts(leaves, st.carryKey);
    assert all[0] == m && m in all;
    j :| 0 <= j < |leaves| && leaves[j] == m;
    HeadPlanned(env, seg.Value(), leaves, j, k, secret);
    var extra := [HeadOf(m, k, secret)];
    var texts := RestoredTexts(env, leaves)[j := HeadText(env, seg.Value(), m, k, secret)];
    PlannedReads(env, seg.Value(), leaves, extra, HeadPlan(env, seg.Value(), leaves, j, k, secret), texts);
    CompleteQueues(env, st, seg, leaves, m, secret, k);
    assert AcceptLeaf(env, st, seg, leaves) == Complete(env, st, seg, leaves, m, secret, k);
    var content := ContentWith(env, seg.Value(), leaves, extra);
    assert Reads(seg.Value(), leaves, content, texts);
  }

  lemma CarryQueued(st: St)
    requires Shape(st) && st.carry != []
    ensures st.segments != [] && st.parts != []
  {
    ShapeCarry(st);
  }

  // ---------------------------------------------------------------- what the head can meet

  /** Where no placeholder starts inside the head, the rest of the leaf is restored as a text of its own. */
  lemma ClearHeadText(env: Env, value: bytes, leaves: seq<Leaf>, m: Leaf, k: nat, secret: bytes)
    requires Walked(value, leaves) && m in leaves && Secretful(env) && k <= |m.value| && ClearBelow(m.value, k)
    ensures Utf8.Valid(m.value) && HeadText(env, value, m, k, secret) == secret + Restored(env, m.value[k..])
  {
    hide Walked, Restored, ClearBelow, Secretful, ScanWins, EditChanges, RestFrom;
    var j :| 0 <= j < |leaves| && leaves[j] == m;
    LeafIsValid(value, leaves, j);
    RestIsRestored(env, m.value, k);
  }

  /**
   Two placeholders that share their underscores: the second is restored at the first byte of
   the leaf, and the secret of the first, whose fragments are deleted, is nowhere.
   */
  lemma SharedUnderscores(env: Env, st: St, seg: Segment, leaves: seq<Leaf>, m: Leaf, token: bytes)
    returns (head: bytes, j: nat)
    requires WalkSound(env) && Secretful(env) && Shape(st) && Carried(env, st)
    requires Completes(env, st, seg, leaves, m)
    requires TokenLen(token) == |token| > 2 && st.carry == token[..|token| - 2]
    requires TokenLen(m.value) == |m.value| && env.restore(m.value) != m.value
    ensures PartsOk(st)
    ensures
      var gone := DeleteParts(env, st.segments, st.parts);
      forall i :: 0 <= i < |st.parts| ==> PieceGone(env, st, gone, i, head)
    ensures
      exists content ::
        && Queues(st.(segments := DeleteParts(env, st.segments, st.parts)), AcceptLeaf(env, st, seg, leaves), seg,
          content)
        && j < |leaves| && leaves[j] == m
        && Reads(seg.Value(), leaves, content, RestoredTexts(env, leaves)[j := env.restore(m.value)])
  {
    hide Shape, Carried, WalkSound, PieceGone, LaterCut, Queues, Reads, AcceptLeaf, TokenLen, DeleteParts, Completes;
    hide Secretful;
    var k;
    assert TokenLen(st.carry + m.value) > |st.carry| by { CompletesLong(env, st, seg, leaves, m); }
    head, j, k := SplitTokenRestored(env, st, seg, leaves, m);
    WholeRestored(env, m.value);
    var w := Window(0, |m.value|, env.restore(m.value));
    assert k > 0 by { SharedHead(token, m.value, st.carry, k); }
    assert w in ScanWins(env, m.value, 0) && w.start < k;
  }

  lemma CompletesLong(env: Env, st: St, seg: Segment, leaves: seq<Leaf>, m: Leaf)
    requires Completes(env, st, seg, leaves, m)
    ensures TokenLen(st.carry + m.value) > |st.carry| > 0
  {
    hide TokenLen;
  }

  /** A carry that lacks two bytes is not itself complete. */
  lemma SharedHead(token: bytes, v: bytes, carry: bytes, k: nat)
    requires TokenLen(token) == |token| > 2 && carry == token[..|token| - 2] && k <= |v|
    requires TokenLen(carry + v[..k]) == |carry| + k
    ensures k > 0
  {
    hide TokenLen;
    if k == 0 {
      assert carry + v[..k] == carry && carry + token[|token| - 2..] == token;
      TokenLenAppend(carry, token[|token| - 2..]);
    }
  }

  /** A text that is one placeholder is restored as a whole. */
  lemma WholeRestored(env: Env, v: bytes)
    requires TokenLen(v) == |v| && v != [] && env.restore(v) != v
    ensures Window(0, |v|, env.restore(v)) in ScanWins(env, v, 0)
    ensures Restored(env, v) == env.restore(v)
  {
    hide TokenLen, Batch;
    assert v[0..] == v && v[0..|v|] == v && v[..|v|] == v && v[|v|..] == [];
    BatchUnfold(MATCHER, Restorer(env), v);
    BatchOfNothing(Restorer(env));
    assert env.restore(v) + [] == env.restore(v);
  }

  // ------------------------------------------------------------------- the channel's text

  /**
   What the leaves that held the fragments read as before, and afterwards; `cut` is what is
   cut off from the first of them.
   */
  function Was(parts: seq<Part>, head: bytes, cut: bytes): (r: seq<bytes>)
    requires forall p :: p in parts ==> p.start <= p.end <= |p.leaf.value|
    ensures |r| == |parts|
  {
    seq(|parts|, i requires 0 <= i < |parts| => if i == 0 then head + cut else parts[i].leaf.value)
  }

  function Now(parts: seq<Part>, head: bytes): (r: seq<bytes>)
    ensures |r| == |parts|
  {
    seq(|parts|, i requires 0 <= i < |parts| => if i == 0 then head else [])
  }

  lemma ConcatSnoc(a: seq<bytes>, x: bytes)
    ensures Concat(a + [x]) == Concat(a) + x
  {
    ConcatAppend(a, [x]);
    assert Concat([x]) == x + Concat([x][1..]) && [x][1..] == [] && x + [] == x;
  }

  lemma {:induction false} NowJoined(parts: seq<Part>, head: bytes)
    requires parts != []
    ensures Concat(Now(parts, head)) == head
    decreases |parts|
  {
    var front := parts[..|parts| - 1];
    assert Now(parts, head) == Now(front, head) + [if front == [] then head else []];
    ConcatSnoc(Now(front, head), if front == [] then head else []);
    if front != [] {
      NowJoined(front, head);
    }
  }

  /** A later fragment is its whole leaf, and comes last. */
  lemma PartLast(parts: seq<Part>, head: bytes, cut: bytes)
    requires FragmentsOk(parts) && |parts| > 1
    requires forall p :: p in parts ==> p.start <= p.end <= |p.leaf.value|
    ensures
      var front, piece := parts[..|parts| - 1], parts[|parts| - 1].leaf.value;
      && FragmentsOk(front) && front != [] && front[0] == parts[0]
      && (forall p :: p in front ==> p.start <= p.end <= |p.leaf.value|)
      && Was(parts, head, cut) == Was(front, head, cut) + [piece]
      && Fragments(parts) == Fragments(front) + piece
  {
    var n := |parts| - 1;
    var front, last := parts[..n], parts[n];
    assert FragmentOk(parts[n], n == 0);
    assert forall k :: 0 <= k < |front| ==> front[k] == parts[k];
    assert Piece(last) == last.leaf.value;
    assert forall p :: p in front ==> p in parts;
  }

  lemma OnePart(parts: seq<Part>, head: bytes, cut: bytes)
    requires FragmentsOk(parts) && |parts| == 1 && parts[0].start <= parts[0].end <= |parts[0].leaf.value|
    ensures Was(parts, head, cut) == [head + cut] && Fragments(parts) == Piece(parts[0])
  {
    assert parts[..0] == [] && Fragments(parts[..0]) == [] && [] + Piece(parts[0]) == Piece(parts[0]);
  }

  lemma {:induction false} WasJoined(parts: seq<Part>, head: bytes, cut: bytes)
    requires FragmentsOk(parts) && parts != []
    ensures forall p :: p in parts ==> p.start <= p.end <= |p.leaf.value|
    ensures |Piece(parts[0])| <= |Fragments(parts)|
    ensures Concat(Was(parts, head, cut)) == head + cut + Fragments(parts)[|Piece(parts[0])|..]
    ensures Fragments(parts)[..|Piece(parts[0])|] == Piece(parts[0])
    decreases |parts|
  {
    hide Was, Fragments, Concat, FragmentsOk, Piece;
    SpelledFragments(parts);
    if |parts| == 1 {
      assert parts[0] in parts;
      OnePart(parts, head, cut);
      ConcatOne(head + cut);
      var piece := Piece(parts[0]);
      assert piece[|piece|..] == [] && head + cut + [] == head + cut && piece[..|piece|] == piece;
    } else {
      PartLast(parts, head, cut);
      var front, piece := parts[..|parts| - 1], parts[|parts| - 1].leaf.value;
      WasJoined(front, head, cut);
      ConcatSnoc(Was(front, head, cut), piece);
      LastPiece(head + cut, Fragments(front), piece, |Piece(parts[0])|);
    }
  }

  lemma LastPiece(text: bytes, fragments: bytes, piece: bytes, k: nat)
    requires k <= |fragments|
    ensures (fragments + piece)[k..] == fragments[k..] + piece && (fragments + piece)[..k] == fragments[..k]
    ensures text + fragments[k..] + piece == text + (fragments + piece)[k..]
  {
  }

  /** The leaf of the segment read as `was` and now reads as `now`; nothing else in it has changed. */
  ghost predicate LeafReads(env: Env, before: Segment, after: Segment, leaf: Leaf, was: bytes, now: bytes)
    requires before.Ok()
  {
    && env.walk(before.Value()).Some? && SameFrame(before, after)
    && var leaves := env.walk(before.Value()).value;
    exists texts: seq<bytes>, j: nat ::
      && j < |texts| == |leaves| && leaves[j] == leaf && texts[j] == was
      && Reads(before.Value(), leaves, before.content, texts)
      && Reads(before.Value(), leaves, after.content, texts[j := now])
  }

  lemma GoneReads(env: Env, before: Segment, after: Segment, p: Part, y: bytes)
    requires before.Ok() && Secretful(env) && Utf8.Valid(p.leaf.value) && p.start <= |p.leaf.value|
    requires FragmentGone(env, before, after, p, y)
    ensures LeafReads(env, before, after, p.leaf, y + CutText(env, before, p), y)
  {
    hide Reads, Restored, CutText, Secretful;
  }

  ghost predicate LeafChanged(env: Env, st: St, gone: seq<Segment>, i: nat, was: bytes, now: bytes)
    requires i < |st.parts|
  {
    var p := st.parts[i];
    && p.seg < |st.segments| && p.seg < |gone| && st.segments[p.seg].Ok()
    && LeafReads(env, st.segments[p.seg], gone[p.seg], p.leaf, was, now)
  }

  /** The leaf of each fragment read as `was` says and now reads as `now` says. */
  ghost predicate LeavesChanged(env: Env, st: St, gone: seq<Segment>, was: seq<bytes>, now: seq<bytes>) {
    && |was| == |now| == |st.parts|
    && forall i :: 0 <= i < |was| ==> LeafChanged(env, st, gone, i, was[i], now[i])
  }

  /**
   The channel as a whole. Joined over the leaves that held the fragments and the completing
   leaf, its text was head + cut + the later fragments + the completing leaf, and is head +
   secret + the bytes behind the token with their own placeholders restored. Where no complete
   placeholder overlaps the first fragment, cut is that fragment, and the token has become the
   secret, once.
   */
  lemma ChannelRestored(env: Env, st: St, seg: Segment, leaves: seq<Leaf>, m: Leaf)
    returns (head: bytes, j: nat, k: nat)
    requires WalkSound(env) && Secretful(env) && Shape(st) && Carried(env, st)
    requires Completes(env, st, seg, leaves, m)
    requires
      var combined := st.carry + m.value;
      var t := TokenLen(combined);
      HeadStands(env, seg.Value(), m, t - |st.carry|, env.restore(combined[..t]))
    ensures PartsOk(st) && k <= |m.value| && Utf8.Valid(m.value) && Utf8.Valid(st.parts[0].leaf.value)
    ensures forall p :: p in st.parts ==> p.start <= p.end <= |p.leaf.value|
    ensures st.segments != [] && st.segments[0].Ok() && |Piece(st.parts[0])| <= |st.carry|
    ensures
      var token, rest := st.carry + m.value[..k], RestFrom(env, m.value, k);
      var gone, secret := DeleteParts(env, st.segments, st.parts), env.restore(token);
      var cut := CutText(env, st.segments[0], st.parts[0]);
      var was, now := Was(st.parts, head, cut), Now(st.parts, head);
      && TokenLen(token) == |token|
      && LeavesChanged(env, st, gone, was, now)
      && (exists content ::
            && Queues(st.(segments := gone), AcceptLeaf(env, st, seg, leaves), seg, content)
            && j < |leaves| && leaves[j] == m
            && Reads(seg.Value(), leaves, content, RestoredTexts(env, leaves)[j := secret + rest]))
      && Concat(was + [m.value]) == head + (cut + (st.carry[|Piece(st.parts[0])|..] + m.value))
      && (Clear(st.parts[0]) ==> Concat(was + [m.value]) == head + (token + m.value[k..]))
      && Concat(now + [secret + rest]) == head + (secret + rest)
  {
    hide Shape, Carried, Clear, WalkSound, LeavesChanged, PieceGone, LaterCut, DeleteParts, Queues, Reads, AcceptLeaf;
    hide Restored, TokenLen, Secretful, HeadStands, RestFrom, Completes, Fragments, CutText, Was, Now, Piece;
    CompletesLong(env, st, seg, leaves, m);
    TokenAt(st.carry, m.value);
    head, j, k := SplitTokenRestored(env, st, seg, leaves, m);
    TokenHere(st.carry, m.value, k);
    CarryQueued(st);
    ShapeCarry(st);
    var gone, p0 := DeleteParts(env, st.segments, st.parts), st.parts[0];
    AllChanged(env, st, gone, head);
    assert p0 in st.parts;
    var cut := CutText(env, st.segments[0], p0);
    var secret := env.restore(st.carry + m.value[..k]);
    ChannelTexts(st.parts, head, cut, m.value, secret + RestFrom(env, m.value, k));
    if Clear(p0) {
      ClearFirst(env, st.segments[0], p0);
      TokenText(st.carry, Piece(p0), m.value, k);
    }
  }

  lemma AllChanged(env: Env, st: St, gone: seq<Segment>, head: bytes)
    requires |gone| == |st.segments| && st.parts != []
    requires forall i :: 0 <= i < |st.parts| ==> PieceGone(env, st, gone, i, head) && (i > 0 ==> LaterCut(env, st, i))
    requires forall p :: p in st.parts ==> p.start <= p.end <= |p.leaf.value|
    ensures Secretful(env) && st.parts[0].seg < |st.segments| && st.segments[st.parts[0].seg].Ok()
    ensures Utf8.Valid(st.parts[0].leaf.value)
    ensures
      var cut := CutText(env, st.segments[st.parts[0].seg], st.parts[0]);
      LeavesChanged(env, st, gone, Was(st.parts, head, cut), Now(st.parts, head))
  {
    hide FragmentGone, LeafReads, Secretful, CutText, Was, Now;
    assert PieceGone(env, st, gone, 0, head);
    var cut := CutText(env, st.segments[st.parts[0].seg], st.parts[0]);
    forall i | 0 <= i < |st.parts|
      ensures LeafChanged(env, st, gone, i, Was(st.parts, head, cut)[i], Now(st.parts, head)[i])
    {
      var p := st.parts[i];
      assert PieceGone(env, st, gone, i, head) && (i > 0 ==> LaterCut(env, st, i));
      GoneReads(env, st.segments[p.seg], gone[p.seg], p, if i == 0 then head else []);
      PartTexts(st.parts, head, cut, i);
      assert [] + p.leaf.value == p.leaf.value;
    }
  }

  lemma PartTexts(parts: seq<Part>, head: bytes, cut: bytes, i: nat)
    requires (forall p :: p in parts ==> p.start <= p.end <= |p.leaf.value|) && i < |parts|
    ensures Was(parts, head, cut)[i] == (if i == 0 then head + cut else parts[i].leaf.value)
    ensures Now(parts, head)[i] == (if i == 0 then head else [])
  {
  }

  lemma ChannelTexts(parts: seq<Part>, head: bytes, cut: bytes, v: bytes, y: bytes)
    requires FragmentsOk(parts) && parts != []
    ensures forall p :: p in parts ==> p.start <= p.end <= |p.leaf.value|
    ensures |Piece(parts[0])| <= |Fragments(parts)| && Fragments(parts)[..|Piece(parts[0])|] == Piece(parts[0])
    ensures Concat(Was(parts, head, cut) + [v]) == head + (cut + (Fragments(parts)[|Piece(parts[0])|..] + v))
    ensures Concat(Now(parts, head) + [y]) == head + y
  {
    hide Was, Now, Fragments;
    WasJoined(parts, head, cut);
    NowJoined(parts, head);
    ConcatSnoc(Was(parts, head, cut), v);
    ConcatSnoc(Now(parts, head), y);
    JoinFour(head, cut, Fragments(parts)[|Piece(parts[0])|..], v);
  }

  lemma TokenText(carry: bytes, piece: bytes, v: bytes, k: nat)
    requires |piece| <= |carry| && carry[..|piece|] == piece && k <= |v|
    ensures piece + (carry[|piece|..] + v) == carry + v[..k] + v[k..]
  {
    assert carry == piece + carry[|piece|..] && v == v[..k] + v[k..];
  }

  lemma JoinFour(a: bytes, b: bytes, c: bytes, d: bytes)
    ensures a + b + c + d == a + (b + (c + d))
  {
  }

  /** Where no placeholder overlaps the first fragment, it is cut off as it is. */
  lemma ClearFirst(env: Env, seg: Segment, p: Part)
    requires seg.Ok() && Secretful(env) && Utf8.Valid(p.leaf.value) && p.start <= p.end == |p.leaf.value| && Clear(p)
    ensures CutText(env, seg, p) == Piece(p)
  {
    hide ScanWins, ScanEnds, Secretful, Splices, EditStands;
    var v, ws := p.leaf.value, ScanWins(env, p.leaf.value, 0);
    EndsBelow(env, v, 0, p.start);
    ScanSized(env, v);
    assert !Overlapped(env, seg, p);
    FromOrdered(ws, p.start, |v|);
    assert From(ws, p.start) == [] by { NoneFrom(ws, p.start); }
    SplicesEmpty(v, p.start);
  }

  lemma {:induction false} NoneFrom(ws: seq<Window>, k: nat)
    requires forall w :: w in ws ==> w.start < k
    ensures From(ws, k) == []
  {
    if ws != [] {
      assert ws[0] in ws && forall w :: w in ws[1..] ==> w in ws;
      NoneFrom(ws[1..], k);
    }
  }

  /** The token that completes is the one TokenLen finds in the whole text. */
  lemma TokenHere(carry: bytes, v: bytes, k: nat)
    requires k <= |v| && TokenLen(carry + v[..k]) == |carry| + k > 0
    ensures TokenLen(carry + v) == |carry| + k && (carry + v)[..|carry| + k] == carry + v[..k]
  {
    hide TokenLen;
    assert carry + v[..k] + v[k..] == carry + v;
    TokenLenAppend(carry + v[..k], v[k..]);
  }

  /** The piece of the matching leaf that ends the placeholder. */
  lemma TokenAt(carry: bytes, v: bytes)
    requires TokenLen(carry + v) > |carry|
    ensures
      var k := TokenLen(carry + v) - |carry|;
      && (carry + v)[..TokenLen(carry + v)] == carry + v[..k]
      && TokenLen(carry + v[..k]) == |carry| + k
      && v[k - 1] == US
  {
    hide TokenLen;
    var s, t := carry + v, TokenLen(carry + v);
    var k := t - |carry|;
    assert s[..t] == carry + v[..k] && s[..t] + s[t..] == s;
    TokenLenAppend(s[..t], s[t..]);
    TokenEndsClosed(s);
    assert s[t - 1] == v[k - 1];
  }
}
