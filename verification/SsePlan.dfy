/**
 The edits of a held event, as windows of the leaves that Walk found in it, and the texts
 that these windows make of the leaves.
 */
module SsePlan {
  import opened Bytes
  import opened Utf8
  import opened Lens
  import opened LensPut
  import opened LensInverse
  import opened LensChain
  import opened LensOffset
  import opened Splice
  import opened Apply
  import opened ApplyLaws
  import opened ApplyOverlap
  import opened Tree
  import opened TreeLaws
  import opened TreeApply
  import opened TreeAssign
  import opened Placeholder
  import opened Reassembly
  import opened SseText

  /** These are the leaves of a document spelled `value`. */
  ghost predicate Walked(value: bytes, leaves: seq<Leaf>) {
    exists ns :: Good(ns) && Render(ns) == value && LeavesOf(leaves, ns)
  }

  /** Walk reports the strings of the document it is given, where they stand. */
  ghost predicate WalkSound(env: Env) {
    forall v :: env.walk(v).Some? ==> Walked(v, env.walk(v).value)
  }

  // ------------------------------------------------------------------ windows of all leaves

  function Plan(env: Env, leaves: seq<Leaf>): (s: seq<seq<Window>>)
    ensures |s| == |leaves| && forall i :: 0 <= i < |s| ==> s[i] == ScanWins(env, leaves[i].value, 0)
  {
    seq(|leaves|, i requires 0 <= i < |leaves| => ScanWins(env, leaves[i].value, 0))
  }

  function RestoredTexts(env: Env, leaves: seq<Leaf>): (r: seq<bytes>)
    ensures |r| == |leaves| && forall i :: 0 <= i < |r| ==> r[i] == Restored(env, leaves[i].value)
  {
    seq(|leaves|, i requires 0 <= i < |leaves| => Restored(env, leaves[i].value))
  }

  lemma {:induction false} WithinIsTree(env: Env, leaves: seq<Leaf>)
    ensures WithinEdits(env, leaves) == TreeEdits(leaves, Plan(env, leaves))
  {
    hide LeafScan, ScanWins, LeafEdits;
    if leaves != [] {
      ScanIsEdits(env, leaves[0], 0);
      WithinIsTree(env, leaves[1..]);
      assert Plan(env, leaves)[1..] == Plan(env, leaves[1..]);
    }
  }

  lemma {:induction false} InTree(leaves: seq<Leaf>, s: seq<seq<Window>>, e: Edit)
    requires |leaves| == |s|
    ensures e in TreeEdits(leaves, s) <==> exists i, w :: EditAt(leaves, s, i, w, e)
  {
    hide LeafEdits, EditOf;
    if leaves != [] {
      InTree(leaves[1..], s[1..], e);
      InLeaf(leaves[0], s[0], e);
      if e in LeafEdits(leaves[0], s[0]) {
        var w :| w in s[0] && e == EditOf(leaves[0], w);
        assert EditAt(leaves, s, 0, w, e);
      }
      if e in TreeEdits(leaves[1..], s[1..]) {
        var i, w :| EditAt(leaves[1..], s[1..], i, w, e);
        assert EditAt(leaves, s, i + 1, w, e);
      }
      if i, w :| EditAt(leaves, s, i, w, e) {
        assert i > 0 ==> EditAt(leaves[1..], s[1..], i - 1, w, e);
      }
    }
  }

  ghost predicate EditAt(leaves: seq<Leaf>, s: seq<seq<Window>>, i: int, w: Window, e: Edit) {
    0 <= i < |leaves| && i < |s| && w in s[i] && e == EditOf(leaves[i], w)
  }

  lemma InLeaf(l: Leaf, ws: seq<Window>, e: Edit)
    ensures e in LeafEdits(l, ws) <==> exists w :: w in ws && e == EditOf(l, w)
  {
    hide EditOf;
    if e in LeafEdits(l, ws) {
      var i :| 0 <= i < |ws| && LeafEdits(l, ws)[i] == e;
      assert ws[i] in ws;
    }
    if w :| w in ws && e == EditOf(l, w) {
      var i :| 0 <= i < |ws| && ws[i] == w;
      assert LeafEdits(l, ws)[i] == e;
    }
  }

  lemma LeafIsValid(value: bytes, leaves: seq<Leaf>, i: nat)
    requires Walked(value, leaves) && i < |leaves|
    ensures Utf8.Valid(leaves[i].value) && leaves[i].tok.Tok?
  {
    hide Good, Render, Chains, Interior, Decode, Utf8.Valid, Located;
    var ns :| Good(ns) && Render(ns) == value && LeavesOf(leaves, ns);
    LeafIsLocated(ns, leaves, i);
    assert LeafAt(leaves[i], Chains(ns, 0, Root)[i]);
    LocatedInterior(leaves[i].tok, value);
    DecodeValid(leaves[i].tok.raw);
  }

  lemma LocatedInterior(c: Chain, body: bytes)
    requires c.Tok? && Located(c, body)
    ensures Interior(c.raw)
  {
  }

  lemma LeafIsLocated(ns: seq<Node>, leaves: seq<Leaf>, i: nat)
    requires Good(ns) && LeavesOf(leaves, ns) && i < |leaves|
    ensures leaves[i].tok.Tok? && Located(leaves[i].tok, Render(ns)) && leaves[i].value == Decode(leaves[i].tok.raw)
  {
    hide Good, Chains, Decode, Located, Subs, Edits;
    var body := Render(ns);
    assert body[0..0 + |body|] == body;
    ChainsUp(ns, 0, Root, body) by { assert Located(Root, body) by { RootLocated(body); } }
    assert LeafAt(leaves[i], Chains(ns, 0, Root)[i]);
    assert LeafLocated(Chains(ns, 0, Root)[i], Subs(ns)[i], body);
  }

  /** What the leaves' own placeholders alone make of a document. */
  lemma BaseTexts(env: Env, value: bytes, leaves: seq<Leaf>)
    requires Walked(value, leaves) && Secretful(env)
    ensures TextsAfter(leaves, Plan(env, leaves), RestoredTexts(env, leaves))
    ensures forall i :: 0 <= i < |leaves| ==> Behind(Plan(env, leaves)[i], leaves[i].value, 0)
  {
    hide Walked, ScanWins, Edits, Ordered, Splices, Restored, Behind, Secretful;
    forall i | 0 <= i < |leaves|
      ensures Edits(leaves[i].value, Plan(env, leaves)[i])
           && ValueReplaced(leaves[i].value, Plan(env, leaves)[i], RestoredTexts(env, leaves)[i])
           && Behind(Plan(env, leaves)[i], leaves[i].value, 0)
    {
      var v := leaves[i].value;
      LeafIsValid(value, leaves, i);
      ScanEdits(env, v, 0);
      ScanRestores(env, v, 0);
      assert v[0..] == v;
    }
  }

  // --------------------------------------------------------------- the edits of one segment

  /** What a segment's edits are known to be: Apply makes windows s of them, and s makes the texts. */
  ghost predicate PlanMakes(
    env: Env, value: bytes, leaves: seq<Leaf>, extra: seq<Edit>, s: seq<seq<Window>>, texts: seq<bytes>)
  {
    && TextsAfter(leaves, s, texts)
    && Settled(value, WithinEdits(env, leaves) + extra, Windows(value, TreeEdits(leaves, s)))
  }

  lemma PlannedReads(
    env: Env, value: bytes, leaves: seq<Leaf>, extra: seq<Edit>, s: seq<seq<Window>>, texts: seq<bytes>)
    requires Walked(value, leaves) && PlanMakes(env, value, leaves, extra, s, texts)
    ensures Reads(value, leaves, ContentWith(env, value, leaves, extra), texts)
  {
    hide Good, Render, LeavesOf, Edits, ValueReplaced, WithinEdits, TreeEdits, Applied, Reads, Settled, Windows;
    hide Splices, Ordered;
    var ns :| Good(ns) && Render(ns) == value && LeavesOf(leaves, ns);
    var edits := WithinEdits(env, leaves) + extra;
    AssignedOrdered(ns, leaves, s, texts);
    ApplySettled(value, edits, Windows(value, TreeEdits(leaves, s)));
    AssignedRead(ns, leaves, edits, s, texts);
  }

  lemma BasePlanned(env: Env, value: bytes, leaves: seq<Leaf>)
    requires Walked(value, leaves) && Secretful(env)
    ensures PlanMakes(env, value, leaves, [], Plan(env, leaves), RestoredTexts(env, leaves))
  {
    hide Walked, TextsAfter, WithinEdits, TreeEdits, Settled;
    BaseTexts(env, value, leaves);
    WithinIsTree(env, leaves);
    assert WithinEdits(env, leaves) + [] == WithinEdits(env, leaves);
    SettledSelf(value, WithinEdits(env, leaves));
  }

  lemma TextsUpdate(leaves: seq<Leaf>, s: seq<seq<Window>>, texts: seq<bytes>, j: nat, ws: seq<Window>, y: bytes)
    requires TextsAfter(leaves, s, texts) && j < |leaves|
    requires Edits(leaves[j].value, ws) && ValueReplaced(leaves[j].value, ws, y)
    ensures TextsAfter(leaves, s[j := ws], texts[j := y])
  {
    hide Edits, ValueReplaced;
  }

  /** Where the window of a leaf is in the body. */
  lemma EditPlace(value: bytes, leaves: seq<Leaf>, i: nat, w: Window)
    requires Walked(value, leaves) && i < |leaves| && Editable(leaves[i].value, w)
    ensures Located(leaves[i].tok, value) && DocOf(leaves[i].tok, value) == leaves[i].value
    ensures w.start < w.end && Aligned(leaves[i].value, w.start) && Aligned(leaves[i].value, w.end)
    ensures
      var c := leaves[i].tok;
      var b := Window(BodyOffset(c, value, w.start), BodyOffset(c, value, w.end), RawSpelling(c, w.repl));
      && EditWindow(value, EditOf(leaves[i], w)) == Some(b) && b.start < b.end <= |value|
      && (!Changes(value, b) ==> w.end <= |leaves[i].value| && leaves[i].value[w.start..w.end] == w.repl)
  {
    hide Good, Render, LeavesOf, Located, RawSpan, RawSpelling, BodyOffset, BodyWindow, Decode, Editable;
    var ns :| Good(ns) && Render(ns) == value && LeavesOf(leaves, ns);
    LeafIsLocated(ns, leaves, i);
    var l := leaves[i];
    EditableFacts(l.value, w);
    EditOfWindow(l, value, w);
    WindowIsRawSpan(l.tok, value, w);
    SpanPlaces(l.tok, value, w.start, w.end);
    var b := BodyWindow(l.tok, value, w);
    if !Changes(value, b) {
      SameBytesSameText(l.tok, value, w);
    }
  }

  // ------------------------------------------------------- a secret at the head of a leaf

  /** The edit that puts a secret in the place of a leaf's first k bytes. */
  function HeadOf(m: Leaf, k: nat, secret: bytes): Edit {
    Edit(m, 0, k, RawSpelling(m.tok, secret))
  }

  ghost predicate EditChanges(value: bytes, e: Edit) {
    var w := EditWindow(value, e);
    w.Some? && Changes(value, w.value)
  }

  /**
   Apply takes an edit at the head of its leaf: no placeholder of the leaf's own that is
   restored starts at its first byte. (And if one starts inside the head, the head is not
   spelled as the replacement already.)
   */
  ghost predicate EditStands(env: Env, value: bytes, e: Edit) {
    forall w :: w in ScanWins(env, e.leaf.value, 0) && w.start < e.end ==> w.start > 0 && EditChanges(value, e)
  }

  ghost predicate HeadStands(env: Env, value: bytes, m: Leaf, k: nat, secret: bytes) {
    EditStands(env, value, HeadOf(m, k, secret))
  }

  /** What the leaf then reads as. */
  ghost function HeadText(env: Env, value: bytes, m: Leaf, k: nat, secret: bytes): bytes
    requires Secretful(env) && Utf8.Valid(m.value) && k <= |m.value|
  {
    if HeadStands(env, value, m, k, secret) then secret + RestFrom(env, m.value, k) else Restored(env, m.value)
  }

  /** The windows of leaf j with a secret at its head. */
  ghost function HeadPlan(
    env: Env, value: bytes, leaves: seq<Leaf>, j: nat, k: nat, secret: bytes): (s: seq<seq<Window>>)
    requires j < |leaves|
    ensures |s| == |leaves|
  {
    if HeadStands(env, value, leaves[j], k, secret)
    then Plan(env, leaves)[j := [Window(0, k, secret)] + From(Plan(env, leaves)[j], k)]
    else Plan(env, leaves)
  }

  lemma InWithin(env: Env, leaves: seq<Leaf>, s: seq<seq<Window>>, e: Edit)
    requires |leaves| == |s|
    ensures e in WithinEdits(env, leaves) <==> exists i, w :: EditAt(leaves, Plan(env, leaves), i, w, e)
    ensures e in TreeEdits(leaves, s) <==> exists i, w :: EditAt(leaves, s, i, w, e)
  {
    hide WithinEdits, TreeEdits, EditAt, Plan;
    WithinIsTree(env, leaves);
    InTree(leaves, Plan(env, leaves), e);
    InTree(leaves, s, e);
  }

  /** A located edit of a list, at its place in the list. */
  lemma Indexed(value: bytes, edits: seq<Edit>, e: Edit, w: Window) returns (k: nat)
    requires e in edits && EditWindow(value, e) == Some(w)
    ensures k < |edits| && edits[k] == e && WindowAt(value, edits, k, w)
  {
    hide EditWindow;
    k :| 0 <= k < |edits| && edits[k] == e;
  }

  lemma InWindowsOf(value: bytes, edits: seq<Edit>, e: Edit, w: Window)
    requires e in edits && EditWindow(value, e) == Some(w)
    ensures w in Windows(value, edits)
  {
    hide EditWindow, Windows;
    var k := Indexed(value, edits, e, w);
    InWindows(value, edits, w);
  }

  /** Every window of the new plan is that of an edit. */
  lemma HeadFromEdits(env: Env, value: bytes, leaves: seq<Leaf>, j: nat, k: nat, secret: bytes, w: Window)
    requires j < |leaves|
    requires w in Windows(value, TreeEdits(leaves, HeadPlan(env, value, leaves, j, k, secret)))
    ensures exists i: nat :: WindowAt(value, WithinEdits(env, leaves) + [HeadOf(leaves[j], k, secret)], i, w)
  {
    hide EditWindow, Windows, WithinEdits, TreeEdits, HeadStands, From, Plan, WindowAt;
    var s, all := HeadPlan(env, value, leaves, j, k, secret), WithinEdits(env, leaves) + [HeadOf(leaves[j], k, secret)];
    var tree := TreeEdits(leaves, s);
    InWindows(value, tree, w);
    var n: nat :| WindowAt(value, tree, n, w);
    var e := EditWindowAt(value, tree, n, w);
    InWithin(env, leaves, s, e);
    var i, v :| EditAt(leaves, s, i, v, e);
    var tail := FromIsTail(Plan(env, leaves)[j], k);
    assert v in Plan(env, leaves)[i] || e == HeadOf(leaves[j], k, secret);
    if v in Plan(env, leaves)[i] {
      assert EditAt(leaves, Plan(env, leaves), i, v, e);
    }
    var at := Indexed(value, all, e, w);
  }

  lemma EditWindowAt(value: bytes, edits: seq<Edit>, n: nat, w: Window) returns (e: Edit)
    requires WindowAt(value, edits, n, w)
    ensures e in edits && n < |edits| && edits[n] == e && EditWindow(value, e) == Some(w)
  {
    hide EditWindow;
    e := edits[n];
  }

  lemma ScanEditable(env: Env, value: bytes, leaves: seq<Leaf>, i: nat, v: Window)
    requires Walked(value, leaves) && Secretful(env) && i < |leaves| && v in Plan(env, leaves)[i]
    ensures Editable(leaves[i].value, v) && v.end <= |leaves[i].value| && v.start < v.end
    ensures v.repl != leaves[i].value[v.start..v.end]
  {
    hide Walked, ScanWins, Utf8.Valid, Aligned, Secretful;
    LeafIsValid(value, leaves, i);
    ScanEdits(env, leaves[i].value, 0);
    ScanChanges(env, leaves[i].value, 0);
    var ws := ScanWins(env, leaves[i].value, 0);
    var n :| 0 <= n < |ws| && ws[n] == v;
    assert Editable(leaves[i].value, ws[n]);
  }

  lemma HeadEditable(value: bytes, leaves: seq<Leaf>, j: nat, k: nat, secret: bytes)
    requires Walked(value, leaves) && IsSecret(secret) && j < |leaves|
    requires 0 < k <= |leaves[j].value| && leaves[j].value[k - 1] == US
    ensures Editable(leaves[j].value, Window(0, k, secret))
    ensures EditOf(leaves[j], Window(0, k, secret)) == HeadOf(leaves[j], k, secret)
  {
    hide Walked, RawSpelling, Utf8.Valid;
    LeafIsValid(value, leaves, j);
    AsciiEnds(leaves[j].value, k);
    ValidStart(leaves[j].value);
  }

  /** The head's edit covers a restore that starts behind it, or gives way to one at its start. */
  lemma HeadAgainst(env: Env, value: bytes, leaves: seq<Leaf>, j: nat, k: nat, secret: bytes, v: Window)
    requires Walked(value, leaves) && Secretful(env) && IsSecret(secret) && j < |leaves|
    requires 0 < k <= |leaves[j].value| && leaves[j].value[k - 1] == US
    requires v in Plan(env, leaves)[j] && v.start < k
    ensures
      var h, o := EditWindow(value, HeadOf(leaves[j], k, secret)), EditWindow(value, EditOf(leaves[j], v));
      && h.Some? && o.Some? && Changes(value, o.value)
      && (v.start > 0 ==> h.value.start < o.value.start < h.value.end)
      && (v.start == 0 ==> h.value.start == o.value.start)
  {
    hide Walked, IsSecret, Editable, EditWindow, Located, BodyOffset, RawSpelling, Plan, Secretful, Aligned, Changes;
    ScanEditable(env, value, leaves, j, v);
    HeadEditable(value, leaves, j, k, secret);
    EditPlace(value, leaves, j, v);
    EditPlace(value, leaves, j, Window(0, k, secret));
    var c := leaves[j].tok;
    if v.start > 0 {
      PlacesAscend(c, value, 0, v.start);
      PlacesAscend(c, value, v.start, k);
    }
  }

  lemma HeadCovers(env: Env, value: bytes, leaves: seq<Leaf>, j: nat, k: nat, secret: bytes, n: nat, w: Window)
    requires Walked(value, leaves) && Secretful(env) && IsSecret(secret) && j < |leaves|
    requires 0 < k <= |leaves[j].value| && leaves[j].value[k - 1] == US
    requires ChangesAt(value, WithinEdits(env, leaves) + [HeadOf(leaves[j], k, secret)], n, w)
    ensures
      var edits := WithinEdits(env, leaves) + [HeadOf(leaves[j], k, secret)];
      var ws := Windows(value, TreeEdits(leaves, HeadPlan(env, value, leaves, j, k, secret)));
      w in ws || Covered(value, edits, ws, n, w)
  {
    hide Walked, IsSecret, EditWindow, Windows, WithinEdits, TreeEdits, From, Secretful, Changes, Plan, HeadStands;
    var head, within := HeadOf(leaves[j], k, secret), WithinEdits(env, leaves);
    var edits, s := within + [head], HeadPlan(env, value, leaves, j, k, secret);
    var ws, plan := Windows(value, TreeEdits(leaves, s)), Plan(env, leaves);
    var e := EditWindowAt(value, edits, n, w);
    InWithin(env, leaves, s, e);
    if n < |within| {
      assert e in within;
      var i, v :| EditAt(leaves, plan, i, v, e);
      var tail := FromIsTail(plan[j], k);
      if v in s[i] {
        assert EditAt(leaves, s, i, v, e);
        InWindowsOf(value, TreeEdits(leaves, s), e, w);
      } else {
        DroppedCovered(env, value, leaves, j, k, secret, n, w, v);
      }
    } else {
      HeadSettled(env, value, leaves, j, k, secret, w);
    }
  }

  /** A restore that the new plan leaves out starts inside the head. */
  lemma DroppedCovered(
    env: Env, value: bytes, leaves: seq<Leaf>, j: nat, k: nat, secret: bytes, n: nat, w: Window, v: Window)
    requires Walked(value, leaves) && Secretful(env) && IsSecret(secret) && j < |leaves|
    requires 0 < k <= |leaves[j].value| && leaves[j].value[k - 1] == US
    requires v in Plan(env, leaves)[j] && v !in HeadPlan(env, value, leaves, j, k, secret)[j]
    requires EditWindow(value, EditOf(leaves[j], v)) == Some(w)
    ensures
      var edits := WithinEdits(env, leaves) + [HeadOf(leaves[j], k, secret)];
      Covered(value, edits, Windows(value, TreeEdits(leaves, HeadPlan(env, value, leaves, j, k, secret))), n, w)
  {
    hide Walked, IsSecret, EditWindow, Windows, WithinEdits, TreeEdits, From, Secretful, Changes, ScanWins;
    var head, s := HeadOf(leaves[j], k, secret), HeadPlan(env, value, leaves, j, k, secret);
    var edits := WithinEdits(env, leaves) + [head];
    NotFrom(Plan(env, leaves)[j], k, v);
    assert EditChanges(value, HeadOf(leaves[j], k, secret)) && v.start > 0;
    HeadAgainst(env, value, leaves, j, k, secret, v);
    HeadEditable(value, leaves, j, k, secret);
    var h := EditWindow(value, head).value;
    InTree(leaves, s, head);
    assert EditAt(leaves, s, j, Window(0, k, secret), head);
    InWindowsOf(value, TreeEdits(leaves, s), head, h);
    assert WindowAt(value, edits, |edits| - 1, h) && ChangesAt(value, edits, |edits| - 1, h);
  }

  lemma NotFrom(ws: seq<Window>, k: nat, v: Window)
    requires v in ws && v !in From(ws, k)
    ensures v.start < k
  {
    if v.start >= k {
      InFrom(ws, k, v);
    }
  }

  lemma {:induction false} InFrom(ws: seq<Window>, k: nat, v: Window)
    requires v in ws && v.start >= k
    ensures v in From(ws, k)
  {
    if ws[0].start < k {
      InFrom(ws[1..], k, v);
    }
  }

  /** The head's edit is of the new plan, or gives way. */
  lemma HeadSettled(env: Env, value: bytes, leaves: seq<Leaf>, j: nat, k: nat, secret: bytes, w: Window)
    requires Walked(value, leaves) && Secretful(env) && IsSecret(secret) && j < |leaves|
    requires 0 < k <= |leaves[j].value| && leaves[j].value[k - 1] == US
    requires EditWindow(value, HeadOf(leaves[j], k, secret)) == Some(w) && Changes(value, w)
    ensures
      var within := WithinEdits(env, leaves);
      var edits := within + [HeadOf(leaves[j], k, secret)];
      var ws := Windows(value, TreeEdits(leaves, HeadPlan(env, value, leaves, j, k, secret)));
      w in ws || Covered(value, edits, ws, |within|, w)
  {
    hide Walked, IsSecret, EditWindow, Windows, WithinEdits, TreeEdits, From, Secretful, Changes, ScanWins;
    var head, within, s := HeadOf(leaves[j], k, secret), WithinEdits(env, leaves),
      HeadPlan(env, value, leaves, j, k, secret);
    HeadEditable(value, leaves, j, k, secret);
    if HeadStands(env, value, leaves[j], k, secret) {
      InTree(leaves, s, head);
      assert EditAt(leaves, s, j, Window(0, k, secret), head);
      InWindowsOf(value, TreeEdits(leaves, s), head, w);
    } else {
      var v :| v in Plan(env, leaves)[j] && v.start == 0;
      HeadAgainst(env, value, leaves, j, k, secret, v);
      var e, edits := EditOf(leaves[j], v), within + [head];
      var o := EditWindow(value, e).value;
      InWithin(env, leaves, s, e);
      assert EditAt(leaves, s, j, v, e);
      InWindowsOf(value, TreeEdits(leaves, s), e, o);
      var n := Indexed(value, within, e, o);
      assert edits[n] == e && ChangesAt(value, edits, n, o);
    }
  }

  /** Apply takes the edit when no placeholder starts at the first byte and the head is not the secret. */
  lemma HeadStandsFor(env: Env, value: bytes, leaves: seq<Leaf>, j: nat, k: nat, secret: bytes)
    requires Walked(value, leaves) && Secretful(env) && IsSecret(secret) && j < |leaves|
    requires 0 < k <= |leaves[j].value| && leaves[j].value[k - 1] == US
    requires TokenLen(leaves[j].value) == 0 && leaves[j].value[..k] != secret
    ensures HeadStands(env, value, leaves[j], k, secret)
  {
    hide Walked, IsSecret, Secretful, Editable, EditWindow, Located, BodyOffset, RawSpelling, TokenLen, Edits;
    var v := leaves[j].value;
    HeadEditable(value, leaves, j, k, secret);
    EditPlace(value, leaves, j, Window(0, k, secret));
    assert v[0..] == v && v[0..k] == v[..k];
    assert ScanWins(env, v, 0) == ScanWins(env, v, 1);
    LeafIsValid(value, leaves, j);
    ScanEdits(env, v, 1);
  }

  /** A secret at the head of leaf j, whatever placeholders the leaf holds. */
  lemma HeadPlanned(env: Env, value: bytes, leaves: seq<Leaf>, j: nat, k: nat, secret: bytes)
    requires Walked(value, leaves) && Secretful(env) && IsSecret(secret) && j < |leaves|
    requires 0 < k <= |leaves[j].value| && leaves[j].value[k - 1] == US
    ensures Utf8.Valid(leaves[j].value)
    ensures
      PlanMakes(env, value, leaves, [HeadOf(leaves[j], k, secret)], HeadPlan(env, value, leaves, j, k, secret),
              RestoredTexts(env, leaves)[j := HeadText(env, value, leaves[j], k, secret)])
    ensures Behind(HeadPlan(env, value, leaves, j, k, secret)[j], leaves[j].value, 0)
  {
    hide Walked, WithinEdits, TreeEdits, ScanWins, Edits, Ordered, Splices, Restored, Windows, EditWindow, HeadStands;
    hide TextsAfter, Behind, IsSecret, Secretful, Covered, ChangesAt, WindowAt, From, RestFrom;
    LeafIsValid(value, leaves, j);
    BaseTexts(env, value, leaves);
    HeadReplaced(env, leaves[j].value, k, secret);
    var s := HeadPlan(env, value, leaves, j, k, secret);
    var edits := WithinEdits(env, leaves) + [HeadOf(leaves[j], k, secret)];
    forall w | w in Windows(value, TreeEdits(leaves, s)) ensures exists i: nat :: WindowAt(value, edits, i, w) {
      HeadFromEdits(env, value, leaves, j, k, secret, w);
    }
    forall n: nat, w | ChangesAt(value, edits, n, w)
      ensures w in Windows(value, TreeEdits(leaves, s))
              || Covered(value, edits, Windows(value, TreeEdits(leaves, s)), n, w)
    {
      HeadCovers(env, value, leaves, j, k, secret, n, w);
    }
    var y := HeadText(env, value, leaves[j], k, secret);
    if HeadStands(env, value, leaves[j], k, secret) {
      TextsUpdate(leaves, Plan(env, leaves), RestoredTexts(env, leaves), j, s[j], y);
    } else {
      assert RestoredTexts(env, leaves)[j := y] == RestoredTexts(env, leaves);
    }
  }

  // --------------------------------------------------------------- a fragment cut off

  lemma {:induction false} NothingSpelled(c: Chain)
    ensures RawSpelling(c, []) == []
  {
    if c.Tok? {
      assert Escape([]) == [];
      NothingSpelled(c.parent);
    }
  }

  lemma WindowsByEdit(value: bytes, edits: seq<Edit>, w: Window)
    ensures w in Windows(value, edits) <==> exists e :: e in edits && EditWindow(value, e) == Some(w)
  {
    hide EditWindow, Windows;
    InWindows(value, edits, w);
    if w in Windows(value, edits) {
      var n: nat :| WindowAt(value, edits, n, w);
      var e := EditWindowAt(value, edits, n, w);
    }
    if e :| e in edits && EditWindow(value, e) == Some(w) {
      var k := Indexed(value, edits, e, w);
    }
  }

  /** The windows of leaf j with its tail cut off. */
  function CutWins(ws: seq<Window>, from: nat, end: nat): seq<Window> {
    Until(ws, from) + [Window(from, end, [])]
  }

  /** A window of the plan, as a window of the body. */
  lemma PlanWindow(value: bytes, leaves: seq<Leaf>, s: seq<seq<Window>>, b: Window)
    requires |leaves| == |s|
    ensures b in Windows(value, TreeEdits(leaves, s)) <==> exists i, w :: PlannedAt(value, leaves, s, i, w, b)
  {
    hide EditWindow, Windows, TreeEdits, EditOf;
    WindowsByEdit(value, TreeEdits(leaves, s), b);
    if b in Windows(value, TreeEdits(leaves, s)) {
      var e :| e in TreeEdits(leaves, s) && EditWindow(value, e) == Some(b);
      InTree(leaves, s, e);
      var i, w :| EditAt(leaves, s, i, w, e);
      assert PlannedAt(value, leaves, s, i, w, b);
    }
    if i, w :| PlannedAt(value, leaves, s, i, w, b) {
      InTree(leaves, s, EditOf(leaves[i], w));
      assert EditAt(leaves, s, i, w, EditOf(leaves[i], w));
    }
  }

  ghost predicate PlannedAt(value: bytes, leaves: seq<Leaf>, s: seq<seq<Window>>, i: int, w: Window, b: Window) {
    0 <= i < |leaves| && i < |s| && w in s[i] && EditWindow(value, EditOf(leaves[i], w)) == Some(b)
  }

  /** The edit that cuts leaf j's tail off, and where it is in the body. */
  lemma CutPlace(value: bytes, leaves: seq<Leaf>, j: nat, from: nat) returns (b: Window)
    requires Walked(value, leaves) && j < |leaves| && from < |leaves[j].value| && Aligned(leaves[j].value, from)
    ensures
      var l := leaves[j];
      var d := Window(from, |l.value|, []);
      && Editable(l.value, d) && Aligned(l.value, |l.value|) && EditOf(l, d) == Edit(l, from, |l.value|, [])
      && Located(l.tok, value) && DocOf(l.tok, value) == l.value
      && EditWindow(value, EditOf(l, d)) == Some(b) && b.start < b.end <= |value| && Changes(value, b)
      && b.start == BodyOffset(l.tok, value, from) && b.end == BodyOffset(l.tok, value, |l.value|)
  {
    hide Walked, Located, BodyOffset, RawSpelling, EditWindow;
    var l := leaves[j];
    var d := Window(from, |l.value|, []);
    EndAligned(l.value);
    assert Utf8.Valid([]);
    NothingSpelled(l.tok);
    EditPlace(value, leaves, j, d);
    b := EditWindow(value, EditOf(l, d)).value;
  }

  /** A window behind the cut is inside it, in the body too. */
  lemma InsideCut(value: bytes, leaves: seq<Leaf>, j: nat, from: nat, b: Window, w: Window, c: Window)
    requires Walked(value, leaves) && j < |leaves| && from < |leaves[j].value| && Aligned(leaves[j].value, from)
    requires EditWindow(value, Edit(leaves[j], from, |leaves[j].value|, [])) == Some(b)
    requires Editable(leaves[j].value, w) && from < w.start
    requires EditWindow(value, EditOf(leaves[j], w)) == Some(c)
    ensures b.start < c.start < c.end <= b.end
  {
    hide Walked, Located, BodyOffset, RawSpelling, EditWindow, Aligned, Utf8.Valid;
    var b' := CutPlace(value, leaves, j, from);
    EditPlace(value, leaves, j, w);
    var l := leaves[j];
    PlacesAscend(l.tok, value, from, w.start);
    if w.end < |l.value| {
      PlacesAscend(l.tok, value, w.end, |l.value|);
    }
  }

  /** One more edit, which cuts the tail of leaf j off where no window reaches over the cut. */
  lemma CutPlanned(
    env: Env, value: bytes, leaves: seq<Leaf>, extra: seq<Edit>, s: seq<seq<Window>>, texts: seq<bytes>, j: nat,
    from: nat)
    returns (y: bytes)
    requires Walked(value, leaves) && PlanMakes(env, value, leaves, extra, s, texts) && j < |leaves|
    requires from < |leaves[j].value| && Aligned(leaves[j].value, from)
    requires Behind(s[j], leaves[j].value, 0) && !Straddled(s[j], from)
    ensures Ordered(From(s[j], from), from, |leaves[j].value|)
    ensures texts[j] == y + Splices(leaves[j].value, From(s[j], from), from)
    ensures
      var v := leaves[j].value;
      PlanMakes(env, value, leaves, extra + [Edit(leaves[j], from, |v|, [])], s[j := CutWins(s[j], from, |v|)],
        texts[j := y])
  {
    hide Walked, WithinEdits, TreeEdits, Edits, Ordered, Splices, RawSpelling, Settled, Windows, EditWindow, Straddled;
    hide Until, From;
    var v := leaves[j].value;
    var ws, del := CutWins(s[j], from, |v|), Edit(leaves[j], from, |v|, []);
    assert Edits(v, s[j]) && ValueReplaced(v, s[j], texts[j]);
    TailCut(v, s[j], 0, from);
    UntilEdits(v, s[j], from);
    UntilEnds(s[j], from);
    TailEdits(v, Until(s[j], from), from);
    y := Splices(v, ws, 0);
    CutSettles(env, value, leaves, extra, s, texts, j, from);
    Assoc(WithinEdits(env, leaves), extra, [del]);
    assert ValueReplaced(v, ws, y);
    TextsUpdate(leaves, s, texts, j, ws, y);
  }

  lemma CutSettles(
    env: Env, value: bytes, leaves: seq<Leaf>, extra: seq<Edit>, s: seq<seq<Window>>, texts: seq<bytes>, j: nat,
    from: nat)
    requires Walked(value, leaves) && PlanMakes(env, value, leaves, extra, s, texts) && j < |leaves|
    requires from < |leaves[j].value| && Aligned(leaves[j].value, from)
    requires Behind(s[j], leaves[j].value, 0) && !Straddled(s[j], from)
    ensures
      var v := leaves[j].value;
      Settled(value, WithinEdits(env, leaves) + extra + [Edit(leaves[j], from, |v|, [])],
              Windows(value, TreeEdits(leaves, s[j := CutWins(s[j], from, |v|)])))
  {
    hide Walked, WithinEdits, TreeEdits, Edits, ValueReplaced, Settled, Windows, EditWindow, EditOf, Straddled, CutWins;
    var v := leaves[j].value;
    var s', del := s[j := CutWins(s[j], from, |v|)], Edit(leaves[j], from, |v|, []);
    var was, now := Windows(value, TreeEdits(leaves, s)), Windows(value, TreeEdits(leaves, s'));
    var b := CutPlace(value, leaves, j, from);
    assert ValueReplaced(v, s[j], texts[j]) && Edits(v, s[j]);
    PlanOrdered(v, s[j], texts[j]);
    CutWinsAre(s[j], from, |v|);
    PlanWindow(value, leaves, s', b);
    assert PlannedAt(value, leaves, s', j, Window(from, |v|, []), b);
    forall c | c in now ensures c in was || c == b {
      PlanWindow(value, leaves, s', c);
      PlanWindow(value, leaves, s, c);
      var i, w :| PlannedAt(value, leaves, s', i, w, c);
      assert PlannedAt(value, leaves, s, i, w, c) || (i == j && w == Window(from, |v|, []));
    }
    forall c | c in was && c !in now ensures b.start < c.start < c.end <= b.end {
      PlanWindow(value, leaves, s', c);
      PlanWindow(value, leaves, s, c);
      var i, w :| PlannedAt(value, leaves, s, i, w, c);
      assert !PlannedAt(value, leaves, s', i, w, c);
      assert i == j && w in s[j] && w.start > from;
      assert Edits(v, s[j]);
      InEdits(v, s[j], w);
      InsideCut(value, leaves, j, from, b, w, c);
    }
    SettledCut(value, WithinEdits(env, leaves) + extra, del, b, was, now);
  }

  lemma PlanOrdered(v: bytes, ws: seq<Window>, text: bytes)
    requires ValueReplaced(v, ws, text)
    ensures Ordered(ws, 0, |v|)
  {
    hide Ordered, Splices;
  }

  lemma InEdits(v: bytes, ws: seq<Window>, w: Window)
    requires Edits(v, ws) && w in ws
    ensures Editable(v, w)
  {
    hide Editable;
    var i :| 0 <= i < |ws| && ws[i] == w;
  }

  /** What the cut keeps of a leaf's windows. */
  lemma CutWinsAre(ws: seq<Window>, from: nat, end: nat)
    requires Ordered(ws, 0, end) && from <= end && !Straddled(ws, from) && forall w :: w in ws ==> w.start < w.end
    ensures
      var cut, d := CutWins(ws, from, end), Window(from, end, []);
      && d in cut && (forall w :: w in cut ==> w in ws || w == d)
      && (forall w :: w in ws && w !in cut ==> w.start > from)
  {
    hide Until, From;
    UntilFrom(ws, from);
    UntilEnds(ws, from);
    FromEnds(ws, 0, end, from);
    assert forall w :: w in ws ==> w in Until(ws, from) || w in From(ws, from);
  }

  /** The edit gives way to a window that reaches over the cut. */
  lemma CutDropped(
    env: Env, value: bytes, leaves: seq<Leaf>, extra: seq<Edit>, s: seq<seq<Window>>, texts: seq<bytes>, j: nat,
    from: nat, w: Window)
    requires Walked(value, leaves) && PlanMakes(env, value, leaves, extra, s, texts) && j < |leaves|
    requires from < |leaves[j].value| && Aligned(leaves[j].value, from)
    requires w in s[j] && w.start <= from < w.end && w.end <= |leaves[j].value|
    requires leaves[j].value[w.start..w.end] != w.repl
    ensures PlanMakes(env, value, leaves, extra + [Edit(leaves[j], from, |leaves[j].value|, [])], s, texts)
  {
    hide Walked, WithinEdits, TreeEdits, Edits, ValueReplaced, Settled, Windows, EditWindow, EditOf, Located;
    hide BodyOffset;
    hide RawSpelling;
    var v := leaves[j].value;
    var del := Edit(leaves[j], from, |v|, []);
    assert Edits(v, s[j]);
    InEdits(v, s[j], w);
    EditPlace(value, leaves, j, w);
    var b := CutPlace(value, leaves, j, from);
    var r := EditWindow(value, EditOf(leaves[j], w)).value;
    PlanWindow(value, leaves, s, r);
    assert PlannedAt(value, leaves, s, j, w, r);
    EditableFacts(v, w);
    if w.start < from {
      PlacesAscend(leaves[j].tok, value, w.start, from);
    }
    PlacesAscend(leaves[j].tok, value, from, w.end);
    SettledDropped(value, WithinEdits(env, leaves) + extra, del, Windows(value, TreeEdits(leaves, s)), r);
    Assoc(WithinEdits(env, leaves), extra, [del]);
  }
}
