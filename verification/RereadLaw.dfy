/**
 Redacting and restoring when a redacted string reads as a document: exactly which secrets
 come back, and a string that does not come back.
 */
module RereadLaw {
  import opened Bytes
  import opened Lens
  import opened LensLaws
  import opened LensPut
  import opened LensChain
  import opened Splice
  import opened SpliceInverse
  import opened Apply
  import opened Tree
  import opened TreeLaws
  import opened TreeApply
  import opened TreeAssign
  import opened TreeInverse
  import opened Search
  import opened Placeholder
  import opened Mint
  import opened MintLaws
  import opened Restore
  import opened RoundTrip
  import opened RoundTripLaw
  import opened RereadTree
  import Reassembly

  // ----------------------------------------------------------------- what both readings hold

  lemma {:induction false} RereadUndoNode(n: Node, b: Node)
    requires GoodNode(n) && RereadNode(NodeAfter(n), b)
    ensures RereadNode(NodeUndo(n), b)
    decreases n
  {
    match n
    case Nest(_, inner) => RereadUndo(inner, b.inner);
    case _ =>
  }

  lemma {:induction false} RereadUndo(ns: seq<Node>, t: seq<Node>)
    requires Good(ns) && Rereads(After(ns), t)
    ensures Rereads(Undo(ns), t)
    decreases ns
  {
    hide GoodNode, NodeAfter, NodeUndo, RereadNode;
    if ns != [] {
      assert After(ns)[0] == NodeAfter(ns[0]) && After(ns)[1..] == After(ns[1..]);
      assert Undo(ns)[0] == NodeUndo(ns[0]) && Undo(ns)[1..] == Undo(ns[1..]);
      RereadUndoNode(ns[0], t[0]);
      RereadUndo(ns[1..], t[1..]);
    }
  }

  ghost predicate AllHeld(values: seq<bytes>, pairs: seq<Pair>, s: seq<seq<Window>>) {
    |values| == |s| && forall i :: 0 <= i < |s| ==> HeldIn(values[i], pairs, s[i])
  }

  lemma HeldSplit(a: seq<bytes>, b: seq<bytes>, pairs: seq<Pair>, s: seq<seq<Window>>, t: seq<seq<Window>>)
    requires AllHeld(a + b, pairs, s + t) && |a| == |s|
    ensures AllHeld(a, pairs, s) && AllHeld(b, pairs, t)
  {
    hide HeldIn;
    forall i | 0 <= i < |s| ensures HeldIn(a[i], pairs, s[i]) {
      assert HeldIn((a + b)[i], pairs, (s + t)[i]);
    }
    forall i | 0 <= i < |t| ensures HeldIn(b[i], pairs, t[i]) {
      assert HeldIn((a + b)[|a| + i], pairs, (s + t)[|s| + i]);
    }
  }

  lemma {:induction false} HeldNode(n: Node, pairs: seq<Pair>)
    requires AllHeld(NodeValues(n), pairs, NodeSubs(n))
    ensures HoldsNode(n, pairs)
    decreases n
  {
    hide HeldIn, Decode;
    match n
    case Text(_) =>
    case Str(raw, ws) => assert NodeValues(n)[0] == Decode(raw) && NodeSubs(n)[0] == ws;
    case Nest(_, inner) => HeldTree(inner, pairs);
  }

  /** It is a property of the leaves' texts and windows. */
  lemma {:induction false} HeldTree(ns: seq<Node>, pairs: seq<Pair>)
    requires AllHeld(Values(ns), pairs, Subs(ns))
    ensures Holds(ns, pairs)
    decreases ns
  {
    hide HeldIn, NodeValues, NodeSubs, HoldsNode, AllHeld;
    if ns != [] {
      CountNode(ns[0]);
      HeldSplit(NodeValues(ns[0]), Values(ns[1..]), pairs, NodeSubs(ns[0]), Subs(ns[1..]));
      HeldNode(ns[0], pairs);
      HeldTree(ns[1..], pairs);
    }
  }

  /** What was put in is recorded, where the undoing takes it out. */
  lemma UndoHeld(v: bytes, ws: seq<Window>, pairs: seq<Pair>, u: seq<Window>)
    requires UndoOf(v, ws, u) && RecordedWindows(v, ws, pairs)
    ensures HeldIn(Splices(v, ws, 0), pairs, u)
  {
    hide Splices, Inverse, Ordered;
    var text := Splices(v, ws, 0);
    assert [] + text == text;
    InverseCount(v, ws, u);
    forall i | 0 <= i < |u|
      ensures u[i].start <= u[i].end <= |text| && Pair(text[u[i].start..u[i].end], u[i].repl) in pairs
    {
      InverseText(v, ws, 0, [], i);
      OccursInside(text, ws[i].repl);
    }
  }

  lemma InverseCount(v: bytes, ws: seq<Window>, u: seq<Window>)
    requires UndoOf(v, ws, u)
    ensures |u| == |ws|
  {
  }

  lemma UndoHolds(ns: seq<Node>, pairs: seq<Pair>)
    requires Good(ns) && AsciiTree(ns) && |Values(ns)| == |Subs(ns)|
    requires forall i :: 0 <= i < |Subs(ns)| ==> RecordedWindows(Values(ns)[i], Subs(ns)[i], pairs)
    ensures Holds(Undo(ns), pairs)
  {
    hide Good, AsciiTree, Values, Subs, Undo, After, UndoOf, RecordedWindows, ValueReplaced, HeldIn, Chains;
    hide Decode;
    UndoSubs(ns);
    UndoGood(ns);
    AfterText(ns);
    ValuesAfter(ns);
    UndoChains(ns, 0, Root);
    ChainValues(Undo(ns), 0, Root);
    ChainValues(After(ns), 0, Root);
    assert Values(Undo(ns)) == Values(After(ns));
    forall i | 0 <= i < |Subs(Undo(ns))| ensures HeldIn(Values(Undo(ns))[i], pairs, Subs(Undo(ns))[i]) {
      var v, ws, u := Values(ns)[i], Subs(ns)[i], Subs(Undo(ns))[i];
      assert UndoOf(v, ws, u) && ValueReplaced(v, ws, Values(After(ns))[i]);
      LeafHeld(v, ws, pairs, u, Values(After(ns))[i]);
    }
    HeldTree(Undo(ns), pairs);
  }

  lemma LeafHeld(v: bytes, ws: seq<Window>, pairs: seq<Pair>, u: seq<Window>, text: bytes)
    requires UndoOf(v, ws, u) && RecordedWindows(v, ws, pairs) && ValueReplaced(v, ws, text)
    ensures HeldIn(text, pairs, u)
  {
    hide Splices, Inverse, HeldIn, RecordedWindows;
    UndoHeld(v, ws, pairs, u);
  }

  lemma FoundHolds(t: seq<Node>, leaves: seq<Leaf>, pairs: seq<Pair>)
    requires Good(t) && LeavesOf(leaves, t) && AllInserted(leaves, pairs, Subs(t))
    ensures Holds(t, pairs)
  {
    hide Good, LeavesOf, Values, Subs, OnlyInserted, HeldIn;
    LeafValues(t, leaves);
    forall i | 0 <= i < |Subs(t)| ensures HeldIn(Values(t)[i], pairs, Subs(t)[i]) {
      assert OnlyInserted(leaves[i].value, pairs, Subs(t)[i]);
      FoundHeld(leaves[i].value, pairs, Subs(t)[i]);
    }
    HeldTree(t, pairs);
  }

  lemma FoundHeld(v: bytes, pairs: seq<Pair>, ws: seq<Window>)
    requires OnlyInserted(v, pairs, ws)
    ensures HeldIn(v, pairs, ws)
  {
    forall i | 0 <= i < |ws|
      ensures ws[i].start <= ws[i].end <= |v| && Pair(v[ws[i].start..ws[i].end], ws[i].repl) in pairs {
      assert ws[i] in ws && FoundFor(v, pairs, ws[i]);
      var p :| p in pairs && FoundOne(v, p, ws[i]);
      assert v[ws[i].start..ws[i].end] == p.placeholder && Pair(p.placeholder, ws[i].repl) == p;
    }
  }

  // ------------------------------------------------------------------------------ restoring

  /** The windows that restoring finds, applied. */
  lemma FoundApplied(t: seq<Node>, leaves: seq<Leaf>, pairs: seq<Pair>)
    requires Good(t) && LeavesOf(leaves, t) && Nonempty(pairs) && DistinctPairs(pairs)
    requires AllInserted(leaves, pairs, Subs(t))
    ensures Applied(Render(t), AllRestores(leaves, pairs)) == Render(After(t))
  {
    hide Good, LeavesOf, Subs, Values, After, Render, OnlyInserted, Edits, FoundWins, Applied;
    LeafValues(t, leaves);
    GoodEdits(t);
    var s := Subs(t);
    forall i | 0 <= i < |s| ensures multiset(FoundPlan(leaves, pairs)[i]) == multiset(s[i]) {
      assert OnlyInserted(leaves[i].value, pairs, s[i]) && Edits(Values(t)[i], s[i]);
      FoundIsInserted(leaves[i].value, pairs, s[i]);
    }
    SameTreeEdits(leaves, FoundPlan(leaves, pairs), s);
    RestoresAre(leaves, pairs);
    ApplyTree(t, leaves, AllRestores(leaves, pairs));
  }

  /** t's windows stand where the windows of ns were replaced, and nowhere else. */
  ghost predicate AtInserted(ns: seq<Node>, t: seq<Node>)
    requires Good(ns) && Good(t)
  {
    Good(Undo(ns)) && SameSpots(AllWins(Undo(ns)), AllWins(t))
  }

  /** BackfillCount on the redacted body makes the edits of this reading. */
  lemma RestoreReading(
    walk: bytes -> Option<seq<Leaf>>, live: seq<Pair>, ns: seq<Node>, t: seq<Node>, leaves: seq<Leaf>)
    requires Good(ns) && TokenTree(ns) && AsciiTree(ns) && Good(Undo(ns)) && Nonempty(live) && DistinctPairs(live)
    requires Good(t) && LeavesOf(leaves, t) && Render(t) == Render(After(ns)) && walk(Render(t)) == Some(leaves)
    requires AllInserted(leaves, live, Subs(t)) && SameSpots(AllWins(Undo(ns)), AllWins(t))
    requires NoneOf(Applied(Render(t), AllRestores(leaves, live)), live)
    ensures Backfilled(walk, live, Render(t)).0 == Render(After(t))
  {
    hide Good, TokenTree, AsciiTree, AllInserted, LeavesOf, NoneOf, Undo, After, Render, Applied, AllRestores;
    hide ReplaceEach;
    hide DistinctPairs, Reassembly.ContainsPrefix, CountAll, Subs, AllWins, Splices, Ordered;
    if Reassembly.ContainsPrefix(Render(t)) {
      FoundApplied(t, leaves, live);
      RoundTripLaw.NothingReplaced(Applied(Render(t), AllRestores(leaves, live)), live, true);
    } else {
      NoPrefixNoWins(ns);
      UndoCounts(ns);
      AfterText(t);
      assert AllWins(t) == [];
      SplicesEmpty(Render(t), 0);
    }
  }

  // ------------------------------------------------------------------------------- exactly

  lemma {:induction false} SameNodeSym(a: Node, b: Node)
    requires SameNode(a, b)
    ensures SameNode(b, a) && SameNode(a, a)
    decreases a
  {
    match a
    case Nest(_, inner) => SameSym(inner, b.inner);
    case _ =>
  }

  lemma {:induction false} SameSym(a: seq<Node>, b: seq<Node>)
    requires SameSkeleton(a, b)
    ensures SameSkeleton(b, a) && SameSkeleton(a, a)
    decreases a
  {
    hide SameNode;
    if a != [] {
      SameNodeSym(a[0], b[0]);
      SameSym(a[1..], b[1..]);
    }
  }

  lemma NotOutgrown(a: seq<bytes>, b: seq<bytes>)
    requires Outgrown(false, a, b)
    ensures a != b
  {
  }

  /** The restored document has the old values exactly when no secret in a re-read string needs escaping. */
  lemma ReadingRestores(ns: seq<Node>, t: seq<Node>, pairs: seq<Pair>)
    requires Good(ns) && AsciiTree(ns) && Good(Undo(ns)) && Good(t) && Rereads(Undo(ns), t) && TokenPairs(pairs)
    requires Holds(Undo(ns), pairs) && Holds(t, pairs) && SameSpots(AllWins(Undo(ns)), AllWins(t))
    ensures
      var plain, restored := Unescaped(RereadSecrets(Undo(ns), t)), Render(After(t));
      && (SameValues(ns, restored) <==> plain)
      && (plain && Spelled(ns) ==> restored == Render(ns))
      && (restored == Render(ns) ==> plain)
  {
    hide Good, AsciiTree, Rereads, TokenPairs, Holds, SameSpots, AllWins, Undo, After, Render, Values, Coarse;
    hide SameSkeleton;
    hide RereadSecrets, Unescaped, Splices, Ordered, Spelled, Outgrown;
    var u := Undo(ns);
    Compare(u, t, pairs);
    RestoredDocument(ns);
    UndoRenders(ns);
    if Unescaped(RereadSecrets(u, t)) {
      AfterText(u);
      AfterText(t);
      RereadRenders(u, t);
    } else {
      CoarseReads(u, t);
      SameSym(ns, u);
      assert Render(After(t)) == Render(ns) ==> SameValues(ns, Render(After(t)));
      if SameValues(ns, Render(After(t))) {
        var ns' :| SameSkeleton(ns, ns') && Good(ns') && Render(ns') == Render(After(t)) && Values(ns') == Values(ns);
        SameSym(ns, ns');
        SameTrans(ns', ns, u);
        SameTrans(ns', u, Coarse(u, t));
        OneReading(ns', Coarse(u, t));
        UndoneValues(ns);
        NotOutgrown(Values(After(u)), Values(Coarse(u, t)));
        assert false;
      }
    }
  }

  /**
   Redacting and restoring, when the redacted body may be read as a document t in which some
   of its strings are documents. The substitutions are windows of the document's leaves, and
   their secrets are not excluded; t's windows are those that restoring finds; they stand
   where the placeholders were inserted, and nothing mapped is left once they are restored.
   Then every string has its value back if and only if no secret whose placeholder lies in a
   re-read string needs escaping. If so, the body is byte for byte what it was when each
   secret was spelled as RawSpelling spells it; if not, it never is.
   */
  lemma {:induction false} RedactReread(
    digest: DigestFn, m: Maps, subs: seq<Substitution>, ns: seq<Node>, leaves: seq<Leaf>,
    walk: bytes -> Option<seq<Leaf>>, leaves1: seq<Leaf>, t: seq<Node>, pairs: seq<Pair>, excluded: set<bytes>)
    requires Minted(digest, m) && Planned(digest, m, subs, 0).1.Some?
    requires Good(ns) && LeavesOf(leaves, ns) && |leaves| == |Subs(ns)|
    requires multiset(EditsOf(Planned(digest, m, subs, 0).1.value)) == multiset(PlainEdits(leaves, Subs(ns)))
    requires DistinctPairs(pairs) && forall p :: p in pairs ==> IsToken(p.placeholder)
    requires
      var reverse := Planned(digest, m, subs, 0).0.reverse;
      forall p :: p in reverse ==> Pair(p, reverse[p]) in pairs
    requires forall sub :: sub in subs && Locatable(sub) ==> SecretOf(sub) !in excluded
    requires walk(Applied(Render(ns), EditsOf(Planned(digest, m, subs, 0).1.value))) == Some(leaves1)
    requires Good(t) && LeavesOf(leaves1, t) && Rereads(After(ns), t)
    requires AllInserted(leaves1, Live(pairs, excluded), Subs(t))
    requires AtInserted(ns, t)
    requires
      var redacted := Applied(Render(ns), EditsOf(Planned(digest, m, subs, 0).1.value));
      && Nonempty(Live(pairs, excluded))
      && NoneOf(Applied(redacted, AllRestores(leaves1, Live(pairs, excluded))), Live(pairs, excluded))
    ensures
      var redacted := Applied(Render(ns), EditsOf(Planned(digest, m, subs, 0).1.value));
      var restored := Backfilled(walk, Live(pairs, excluded), redacted).0;
      var plain := Unescaped(RereadSecrets(Undo(ns), t));
      && (SameValues(ns, restored) <==> plain)
      && (plain && Spelled(ns) ==> restored == Render(ns))
      && (restored == Render(ns) ==> plain)
  {
    hide Good, LeavesOf, Subs, Undo, After, Render, Applied, PlainEdits, Planned, Minted, Backfilled, AllRestores;
    hide Values;
    hide NoneOf, RecordedWindows, Spelled, DistinctPairs, TokenTree, AsciiTree, SameValues, Holds, AllInserted;
    hide IsToken, Rereads;
    hide AllWins, SameSpots, Unescaped, RereadSecrets;
    var (m1, owned) := Planned(digest, m, subs, 0);
    var edits, live := EditsOf(owned.value), Live(pairs, excluded);
    PlannedRecords(digest, m, subs, 0);
    EditsRecorded(digest, m, subs, excluded);
    LiveTokens(pairs, excluded);
    WindowsRecorded(m1, leaves, Subs(ns), edits, pairs, excluded);
    RedactsTo(ns, leaves, edits);
    LeafValues(ns, leaves);
    RereadUndo(ns, t);
    RereadRenders(After(ns), t);
    UndoHolds(ns, live);
    FoundHolds(t, leaves1, live);
    RestoreReading(walk, live, ns, t, leaves1);
    ReadingRestores(ns, t, live);
  }

  lemma LiveTokens(pairs: seq<Pair>, excluded: set<bytes>)
    requires DistinctPairs(pairs) && forall p :: p in pairs ==> IsToken(p.placeholder)
    ensures Nonempty(Live(pairs, excluded)) && TokenPairs(Live(pairs, excluded))
  {
    hide IsToken, DistinctPairs, TokenText;
    forall p | p in pairs ensures p.placeholder != [] && TokenText(p.placeholder) {
      TokenIsText(p.placeholder);
      TextNotEmpty(p.placeholder);
    }
    LiveDistinct(pairs, excluded);
  }

  lemma TextNotEmpty(x: bytes)
    requires TokenText(x)
    ensures x != []
  {
  }

  // ----------------------------------------------------------------- a string that is lost

  /** ["a"b"], which is no document, and what is to be redacted in it: a"b. */
  const VALUE: bytes := [91, 34, 97, 34, 98, 34, 93]
  const SECRET: bytes := [97, 34, 98]

  /** The string as the body spells it. */
  function Spelling(): bytes {
    Escape(VALUE)
  }

  /** The body: that string, with p to be put in the secret's place. */
  function Brackets(p: bytes): seq<Node> {
    [Str(Spelling(), [Window(2, 5, p)])]
  }

  predicate IsBrackets(l: Leaf) {
    l.value == VALUE && l.tok == Tok(Spelling(), 0, Root)
  }

  /** Walk reads a string that holds ["p"], p a placeholder, as the document it is. */
  ghost predicate ReadsArrays(walk: bytes -> Option<seq<Leaf>>) {
    forall raw, p :: Interior(raw) && IsToken(p) && Decode(raw) == [91] + (Quoted(p) + [93]) ==>
      && walk(Quoted(raw)).Some? && |walk(Quoted(raw)).value| == 1
      && LeavesOf(walk(Quoted(raw)).value, Reread(raw, [91], [93], p, SECRET))
  }

  lemma TextsAreAscii()
    ensures Utf8.Valid(VALUE) && Utf8.Valid(SECRET)
    ensures Interior(Spelling()) && Decode(Spelling()) == VALUE
  {
    hide Escape, Decode, Interior, Utf8.Valid;
    AsciiValid(VALUE);
    AsciiValid(SECRET);
    EscapeDecodes(VALUE);
  }

  lemma Lengths()
    ensures |Spelling()| == 10 && |Escape(Escape(SECRET))| == 6 && Escape(SECRET) != SECRET
  {
    assert Escape([91, 34, 97, 34, 98, 34, 93]) == [91, 92, 34, 97, 92, 34, 98, 92, 34, 93];
    assert Escape([97, 34, 98]) == [97, 92, 34, 98];
    assert Escape([97, 92, 34, 98]) == [97, 92, 92, 92, 34, 98];
  }

  /** A string spells no more bytes than it has. */
  lemma {:induction false} DecodeShorter(raw: bytes)
    requires Interior(raw)
    ensures |Decode(raw)| <= |raw|
  {
    hide Hex4;
    if raw != [] {
      DecodeShorter(raw[NextUnit(raw).width..]);
    }
  }

  lemma BracketsGood(p: bytes, leaf: Leaf)
    requires TokenText(p) && IsBrackets(leaf)
    ensures Good(Brackets(p)) && LeavesOf([leaf], Brackets(p)) && Subs(Brackets(p)) == [[Window(2, 5, p)]]
    ensures Render(Brackets(p)) == Quoted(Spelling()) && Values(Brackets(p)) == [VALUE]
    ensures Edits(VALUE, [Window(2, 5, p)])
  {
    hide Interior, Decode, Quoted, Spelling, TokenText, Utf8.Valid;
    TextsAreAscii();
    AsciiText(p);
    var ns := Brackets(p);
    assert ns[1..] == [] && Quoted(Spelling()) + [] == Quoted(Spelling());
    assert Editable(VALUE, Window(2, 5, p));
    assert Values(ns) == [VALUE] + Values(ns[1..]) && Subs(ns) == [[Window(2, 5, p)]] + Subs(ns[1..]);
    assert Chains(ns, 0, Root) == [Tok(Spelling(), 0, Root)] + Chains(ns[1..], 0 + |Quoted(Spelling())|, Root);
  }

  lemma BracketsPlanned(digest: DigestFn, category: bytes, leaf: Leaf) returns (p: bytes)
    requires IsBrackets(leaf)
    requires Planned(digest, Maps(map[], map[]), [Substitution(leaf, 2, 5, category)], 0).1.Some?
    ensures IsToken(p)
    ensures
      var owned := Planned(digest, Maps(map[], map[]), [Substitution(leaf, 2, 5, category)], 0).1.value;
      EditsOf(owned) == [Edit(leaf, 2, 5, p)]
  {
    hide MintOne, Spelling, Decode, RecordedEdit, IsToken;
    var sub := Substitution(leaf, 2, 5, category);
    TextsAreAscii();
    RawSpanTok(leaf.tok, 2, 5);
    assert Locatable(sub);
    var m := Maps(map[], map[]);
    var (m1, owned) := Planned(digest, m, [sub], 0);
    NothingMinted(digest);
    PlannedRecords(digest, m, [sub], 0);
    assert Planned(digest, MintOne(digest, m, SecretOf(sub), sub.category).0, [sub], 1).1 == Some([]);
    p := owned.value[0].edit.repl;
    assert owned.value == [owned.value[0]] && owned.value[0] in owned.value;
    assert RecordedEdit(m1, owned.value[0].edit);
    RecordedToken(m1, owned.value[0].edit);
  }

  lemma RecordedToken(m: Maps, e: Edit)
    requires RecordedEdit(m, e)
    ensures IsToken(e.repl)
  {
    hide IsToken;
  }

  lemma TokenLong(p: bytes)
    requires IsToken(p)
    ensures |p| >= 22 && TokenText(p)
  {
    TokenIsText(p);
  }

  /** The string as Substitute leaves it: it holds ["p"]. */
  lemma BracketsRedacted(p: bytes, leaf: Leaf) returns (raw: bytes)
    requires IsToken(p) && IsBrackets(leaf)
    ensures Applied(Quoted(Spelling()), [Edit(leaf, 2, 5, p)]) == Quoted(raw)
    ensures Interior(raw) && Decode(raw) == [91] + (Quoted(p) + [93]) && |raw| <= 10 + |p|
  {
    hide Interior, Decode, Quoted, Spelling, IsToken, TokenText, After, Applied, Splices, Ordered, Edits, Escape;
    TokenLong(p);
    BracketsGood(p, leaf);
    TextsAreAscii();
    Lengths();
    var ns, w := Brackets(p), Window(2, 5, p);
    TokenWindow(p, leaf);
    RedactsTo(ns, [leaf], [Edit(leaf, 2, 5, p)]);
    raw := RawAfter(Spelling(), [w]);
    AfterOneString(Spelling(), [w]);
    RedactedText(p);
    AlignedStart(Spelling());
    LevelPut(Spelling(), [w], 0);
    TokenPlain(p);
    SplicesOneLonger(Spelling(), Lift(Spelling(), [w]));
  }

  lemma SplicesOneLonger(s: bytes, ws: seq<Window>)
    requires |ws| == 1 && Ordered(ws, 0, |s|)
    ensures |Splices(s, ws, 0)| == |s| - (ws[0].end - ws[0].start) + |ws[0].repl|
  {
    hide Splices;
    SplicesUnfold(s, ws, 0);
    SplicesEmpty(s, ws[0].end);
    assert ws[1..] == [];
  }

  lemma RedactedText(p: bytes)
    requires Ordered([Window(2, 5, p)], 0, |VALUE|)
    ensures Splices(VALUE, [Window(2, 5, p)], 0) == [91] + (Quoted(p) + [93])
  {
    SplicesUnfold(VALUE, [Window(2, 5, p)], 0);
    assert [Window(2, 5, p)][1..] == [];
  }

  lemma TokenWindow(p: bytes, leaf: Leaf)
    requires TokenText(p)
    ensures AllTokens([[Window(2, 5, p)]])
    ensures PlainEdits([leaf], [[Window(2, 5, p)]]) == [Edit(leaf, 2, 5, p)]
  {
    hide TokenText;
    var s := [[Window(2, 5, p)]];
    assert PlainEdits([leaf], s) == PlainLeaf(leaf, s[0]) + PlainEdits([leaf][1..], s[1..]);
  }

  lemma AfterOneString(raw: bytes, ws: seq<Window>)
    requires Interior(raw) && Edits(Decode(raw), ws)
    ensures Good([Str(raw, ws)]) && Render(After([Str(raw, ws)])) == Quoted(RawAfter(raw, ws))
  {
    hide Interior, Decode, Edits, Quoted, RawAfter;
    var ns := [Str(raw, ws)];
    assert ns[1..] == [];
    assert After(ns) == [Str(RawAfter(raw, ws), [])] + After([]);
    assert After(ns)[1..] == [];
    assert Render(After(ns)) == Quoted(RawAfter(raw, ws)) + [] ;
  }

  /** The one leaf of that document is the placeholder, so all of it is restored. */
  lemma PlaceholderRestored(p: bytes, leaves: seq<Leaf>, raw: bytes)
    requires IsToken(p) && Interior(raw) && Decode(raw) == [91] + (Quoted(p) + [93])
    requires LeavesOf(leaves, Reread(raw, [91], [93], p, SECRET)) && |leaves| == 1
    ensures AllRestores(leaves, [Pair(p, SECRET)]) == TreeEdits(leaves, [[Window(0, |p|, SECRET)]])
  {
    hide Interior, Decode, Quoted, IsToken, LeavesOf, Reread, Occurrences, TokenText;
    TokenLong(p);
    TextNotEmpty(p);
    TextsAreAscii();
    RereadGood(raw, [91], [93], p, SECRET);
    var t := Reread(raw, [91], [93], p, SECRET);
    LeafValues(t, leaves);
    RereadValue(raw, p);
    WholeFound(p);
    RestoresAre(leaves, [Pair(p, SECRET)]);
    assert FoundPlan(leaves, [Pair(p, SECRET)]) == [[Window(0, |p|, SECRET)]];
  }

  lemma RereadValue(raw: bytes, p: bytes)
    requires Decode(p) == p
    ensures Values(Reread(raw, [91], [93], p, SECRET)) == [p]
  {
    hide Decode;
    var doc := OneString([91], [93], p, SECRET);
    assert doc[1..][1..] == [Text([93])] && [Text([93])][1..] == [];
    assert Values([Text([93])]) == [] && Values(doc[1..]) == [p] + Values(doc[1..][1..])
           && Values(doc) == [] + Values(doc[1..]);
    assert Reread(raw, [91], [93], p, SECRET)[1..] == [];
    assert Values(Reread(raw, [91], [93], p, SECRET)) == Values(doc) + [];
  }

  lemma WholeFound(p: bytes)
    requires p != []
    ensures FoundWins(p, [Pair(p, SECRET)]) == [Window(0, |p|, SECRET)]
  {
    assert p[0..|p|] == p && OccursAt(p, p, 0);
    assert FirstAt(p, p, 0) == Some(0);
    assert FirstAt(p, p, |p|) == None;
    assert Occurrences(p, p, |p|) == [];
    assert Occurrences(p, p, 0) == [Span(0, |p|)] + [];
    assert [Pair(p, SECRET)][1..] == [];
  }

  /** Two levels down, the secret's window takes the placeholder's bytes and no more. */
  lemma RereadWindow(raw: bytes, p: bytes)
    requires IsToken(p) && Interior(raw) && Decode(raw) == [91] + (Quoted(p) + [93])
    ensures Good(Reread(raw, [91], [93], p, SECRET)) && Render(Reread(raw, [91], [93], p, SECRET)) == Quoted(raw)
    ensures
      var ws := AllWins(Reread(raw, [91], [93], p, SECRET));
      |ws| == 1 && ws[0].start + |p| <= ws[0].end <= |Quoted(raw)| && ws[0].repl == Escape(Escape(SECRET))
  {
    hide Interior, Decode, Quoted, IsToken, TokenText, Escape, RawOffset, Edits, QuotedWins;
    TokenLong(p);
    TextsAreAscii();
    RereadGood(raw, [91], [93], p, SECRET);
    var inner, w := OneString([91], [93], p, SECRET), Window(0, |p|, SECRET);
    OneStringIs([91], [93], p, SECRET);
    OneStringWins(p);
    StringWindow(p, w);
    var ws := AllWins(inner);
    assert ws == [ws[0]];
    StringWindow(raw, ws[0]);
    var t := Reread(raw, [91], [93], p, SECRET);
    assert t[1..] == [] && AllWins(t) == NodeWins(t[0]) + Shifted(AllWins(t[1..]), |NodeText(t[0])|);
  }

  /** A window's raw bytes are no fewer than its decoded ones. */
  lemma StringWindow(raw: bytes, w: Window)
    requires Interior(raw) && Edits(Decode(raw), [w])
    ensures
      var up := QuotedWins(raw, [w]);
      && |up| == 1 && up[0].repl == Escape(w.repl)
      && up[0].start + (w.end - w.start) <= up[0].end <= |Quoted(raw)|
  {
    hide Interior, Decode, RawOffset, Escape, Utf8.Valid;
    assert Editable(Decode(raw), [w][0]);
    CutBetween(raw, w.start, w.end);
    DecodeShorter(raw[RawOffset(raw, w.start)..RawOffset(raw, w.end)]);
    assert QuotedWins(raw, [w])[0] == LiftWindow(raw, w).Shift(1);
  }

  lemma OneStringWins(p: bytes)
    requires Interior(p) && Decode(p) == p && Edits(p, [Window(0, |p|, SECRET)])
             && Good(OneString([91], [93], p, SECRET))
    ensures AllWins(OneString([91], [93], p, SECRET)) == Shifted(QuotedWins(p, [Window(0, |p|, SECRET)]), 1)
  {
    hide Interior, Decode, Edits, Quoted, QuotedWins;
    var doc, last := OneString([91], [93], p, SECRET), [Text([93])];
    assert doc[1..] == [Str(p, [Window(0, |p|, SECRET)])] + last && doc[1..][1..] == last && last[1..] == [];
    assert AllWins(last) == [] + Shifted(AllWins([]), 1);
    var up := QuotedWins(p, [Window(0, |p|, SECRET)]);
    assert AllWins(doc[1..]) == up + Shifted(AllWins(last), |Quoted(p)|);
    assert AllWins(doc) == [] + Shifted(AllWins(doc[1..]), 1);
  }

  /** The restored body is too short to hold the placeholder. */
  lemma NothingLeft(p: bytes, raw: bytes, leaves: seq<Leaf>)
    requires IsToken(p) && Interior(raw) && Decode(raw) == [91] + (Quoted(p) + [93]) && |raw| <= 10 + |p|
    requires LeavesOf(leaves, Reread(raw, [91], [93], p, SECRET)) && |leaves| == 1
    ensures NoneOf(Applied(Quoted(raw), TreeEdits(leaves, [[Window(0, |p|, SECRET)]])), [Pair(p, SECRET)])
  {
    hide Interior, Decode, IsToken, TokenText, LeavesOf, Reread, Escape, Edits, Splices, Ordered, After, Applied;
    TokenLong(p);
    TextsAreAscii();
    Lengths();
    RereadGood(raw, [91], [93], p, SECRET);
    RereadWindow(raw, p);
    var t := Reread(raw, [91], [93], p, SECRET);
    ApplyTree(t, leaves, TreeEdits(leaves, Subs(t)));
    AfterText(t);
    SplicesOneLonger(Quoted(raw), AllWins(t));
  }

  lemma RedactedHoldsPrefix(p: bytes, leaf: Leaf, raw: bytes)
    requires IsToken(p) && IsBrackets(leaf) && Applied(Quoted(Spelling()), [Edit(leaf, 2, 5, p)]) == Quoted(raw)
    ensures Reassembly.ContainsPrefix(Quoted(raw))
  {
    hide IsToken, TokenText, Spelling, Quoted, Applied, After, Edits, QuotedWins, Interior, Decode;
    hide Reassembly.ContainsPrefix;
    TokenLong(p);
    BracketsGood(p, leaf);
    TokenWindow(p, leaf);
    var ns := Brackets(p);
    RedactsTo(ns, [leaf], [Edit(leaf, 2, 5, p)]);
    assert ns[1..] == [] && AllWins(ns) == NodeWins(ns[0]) + Shifted(AllWins(ns[1..]), |NodeText(ns[0])|);
    TextsAreAscii();
    BracketsWindow(p);
    if !Reassembly.ContainsPrefix(Quoted(raw)) {
      NoPrefixNoWins(ns);
      assert false;
    }
  }

  lemma BracketsWindow(p: bytes)
    requires Good(Brackets(p))
    ensures |NodeWins(Brackets(p)[0])| == 1
  {
    hide Interior, Decode, Edits;
  }

  lemma OneStringReads(raw: bytes)
    requires Interior(raw)
    ensures
      var now := [Str(raw, [])];
      Good(now) && Render(now) == Quoted(raw) && Values(now) == [Decode(raw)]
  {
    hide Interior, Decode, Quoted, Edits;
    var n := Str(raw, []);
    NothingEdited(Decode(raw));
    assert [n][1..] == [] && Render([n]) == NodeText(n) + Render([]) && Values([n]) == NodeValues(n) + Values([]);
    assert Good([]) && GoodNode(n);
  }

  /** The document of one string that the restored body is. */
  lemma NotTheValue(p: bytes, leaf: Leaf, raw: bytes)
    requires TokenText(p) && IsBrackets(leaf) && Interior(raw)
    requires Decode(raw) != VALUE
    ensures Good(Brackets(p)) && !SameValues(Brackets(p), Quoted(raw))
  {
    hide Interior, Decode, Spelling, TokenText, Quoted, Edits;
    BracketsGood(p, leaf);
    var ns, now := Brackets(p), [Str(raw, [])];
    OneStringReads(raw);
    assert ns[1..] == [] && now[1..] == [];
    assert SameSkeleton(ns, now) && Values(ns)[0] == VALUE && Values(now)[0] == Decode(raw);
    if SameValues(ns, Quoted(raw)) {
      var ns' :| SameSkeleton(ns, ns') && Good(ns') && Render(ns') == Quoted(raw) && Values(ns') == Values(ns);
      SameSym(ns, ns');
      SameTrans(ns', ns, now);
      OneReading(ns', now);
      assert false;
    }
  }

  /**
   The string ["a"b"] is one string of the body; its a"b is redacted, whatever the digest and
   the category; what is left reads as a document, and restoring puts a\"b there, so that the
   string comes back as ["a\"b"].
   */
  lemma {:induction false} BracketsAstray(
    digest: DigestFn, category: bytes, leaf: Leaf, walk: bytes -> Option<seq<Leaf>>)
    returns (p: bytes, raw1: bytes, raw2: bytes)
    requires IsBrackets(leaf) && ReadsArrays(walk)
    requires Planned(digest, Maps(map[], map[]), [Substitution(leaf, 2, 5, category)], 0).1.Some?
    ensures
      var owned := Planned(digest, Maps(map[], map[]), [Substitution(leaf, 2, 5, category)], 0).1.value;
      var redacted := Applied(Quoted(Spelling()), EditsOf(owned));
      && IsToken(p) && redacted == Quoted(raw1) && Interior(raw1) && Decode(raw1) == [91] + (Quoted(p) + [93])
      && Backfilled(walk, [Pair(p, SECRET)], redacted).0 == Quoted(raw2)
      && Interior(raw2) && Decode(raw2) == [91] + (Quoted(Escape(SECRET)) + [93])
      && Good(Brackets(p)) && LeavesOf([leaf], Brackets(p)) && !SameValues(Brackets(p), Quoted(raw2))
  {
    hide Interior, Decode, IsToken, TokenText, LeavesOf, Reread, Escape, Applied, Planned, Spelling, Good, SameValues;
    hide AllRestores, NoneOf, CountAll, ReplaceEach, Reassembly.ContainsPrefix, Brackets, IsBrackets;
    p := BracketsPlanned(digest, category, leaf);
    TokenLong(p);
    TextNotEmpty(p);
    TextsAreAscii();
    Lengths();
    raw1 := BracketsRedacted(p, leaf);
    BracketsGood(p, leaf);
    RedactedHoldsPrefix(p, leaf, raw1);
    var leaves := walk(Quoted(raw1)).value;
    PlaceholderRestored(p, leaves, raw1);
    NothingLeft(p, raw1, leaves);
    RoundTripLaw.NothingReplaced(Applied(Quoted(raw1), AllRestores(leaves, [Pair(p, SECRET)])), [Pair(p, SECRET)],
      true);
    raw2 := RereadEscapes(raw1, [91], [93], p, SECRET, leaves);
    assert VALUE == [91] + (Quoted(SECRET) + [93]);
    NotTheValue(p, leaf, raw2);
  }
}
