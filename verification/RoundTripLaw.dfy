/**
 Substitute, and then BackfillCount on the result: every leaf has its value back, and the body
 its bytes when the secrets were spelled plainly.
 */
module RoundTripLaw {
  import opened Bytes
  import opened Utf8
  import opened Lens
  import opened LensLaws
  import opened LensPut
  import opened LensChain
  import opened LensInverse
  import opened Splice
  import opened SpliceInverse
  import opened Apply
  import opened Tree
  import opened TreeLaws
  import opened TreeApply
  import opened TreeAssign
  import opened TreeInverse
  import opened Search
  import opened Placeholder
  import opened PlaceholderLaws
  import opened Mint
  import opened MintLaws
  import opened Restore
  import opened RoundTrip
  import Reassembly

  // ------------------------------------------------------------------------ placeholder text

  /** ASCII text that JSON spells as itself, with the placeholder prefix. */
  ghost predicate TokenText(x: bytes) {
    PREFIX <= x && Ascii(x) && forall c :: c in x ==> !NeedsEscape(c)
  }

  ghost predicate TokenRepls(ws: seq<Window>) {
    forall i :: 0 <= i < |ws| ==> TokenText(ws[i].repl)
  }

  ghost predicate TokenNode(n: Node)
    decreases n
  {
    match n
    case Text(_) => true
    case Str(_, subs) => TokenRepls(subs)
    case Nest(_, inner) => TokenTree(inner)
  }

  ghost predicate TokenTree(ns: seq<Node>)
    decreases ns
  {
    ns == [] || (TokenNode(ns[0]) && TokenTree(ns[1..]))
  }

  lemma TokenIsText(x: bytes)
    requires IsToken(x)
    ensures TokenText(x)
  {
    var n, d :| Splits(x, n, d);
    ExtendableTypes(x);
    forall c | c in x ensures !NeedsEscape(c) {
      var i :| 0 <= i < |x| && x[i] == c;
      assert i < PREFIX_LEN ==> c == x[..PREFIX_LEN][i];
    }
    forall i | 0 <= i < |x| ensures x[i] < 0x80 {
      assert i < PREFIX_LEN ==> x[i] == x[..PREFIX_LEN][i];
    }
  }

  lemma {:induction false} SpelledAsItself(c: Chain, x: bytes)
    requires TokenText(x)
    ensures RawSpelling(c, x) == x
  {
    if c.Tok? {
      EscapePlain(x);
      SpelledAsItself(c.parent, x);
    }
  }

  lemma {:induction false} TokenTreeIsAsciiNode(n: Node)
    requires TokenNode(n)
    ensures AsciiNode(n)
    decreases n
  {
    match n
    case Nest(_, inner) => TokenTreeIsAscii(inner);
    case _ =>
  }

  lemma {:induction false} TokenTreeIsAscii(ns: seq<Node>)
    requires TokenTree(ns)
    ensures AsciiTree(ns)
    decreases ns
  {
    if ns != [] {
      TokenTreeIsAsciiNode(ns[0]);
      TokenTreeIsAscii(ns[1..]);
    }
  }

  ghost predicate AllTokens(s: seq<seq<Window>>) {
    forall i :: 0 <= i < |s| ==> TokenRepls(s[i])
  }

  lemma {:induction false} TokenSubsNode(n: Node)
    requires AllTokens(NodeSubs(n))
    ensures TokenNode(n)
    decreases n
  {
    hide TokenRepls;
    match n
    case Text(_) =>
    case Str(_, subs) => assert NodeSubs(n)[0] == subs && TokenRepls(NodeSubs(n)[0]);
    case Nest(_, inner) => TokenSubs(inner);
  }

  /** It is a property of the leaves' windows. */
  lemma {:induction false} TokenSubs(ns: seq<Node>)
    requires AllTokens(Subs(ns))
    ensures TokenTree(ns)
    decreases ns
  {
    hide TokenRepls, NodeSubs, TokenNode;
    if ns != [] {
      assert forall i :: 0 <= i < |NodeSubs(ns[0])| ==> Subs(ns)[i] == NodeSubs(ns[0])[i];
      assert forall i :: 0 <= i < |Subs(ns[1..])| ==> Subs(ns)[|NodeSubs(ns[0])| + i] == Subs(ns[1..])[i];
      TokenSubsNode(ns[0]);
      TokenSubs(ns[1..]);
    }
  }

  // -------------------------------------------------------- the placeholders stand in the body

  lemma QuotedTokens(raw: bytes, ws: seq<Window>)
    requires Interior(raw) && Edits(Decode(raw), ws) && TokenRepls(ws)
    ensures TokenRepls(QuotedWins(raw, ws))
  {
    hide Interior, Decode, Editable, TokenText, Escape;
    forall i | 0 <= i < |ws| ensures TokenText(QuotedWins(raw, ws)[i].repl) {
      assert TokenText(ws[i].repl);
      TokenPlain(ws[i].repl);
    }
  }

  lemma TokenPlain(x: bytes)
    requires TokenText(x)
    ensures Escape(x) == x
  {
    EscapePlain(x);
  }

  lemma {:induction false} TokenNodeWins(n: Node)
    requires GoodNode(n) && TokenNode(n)
    ensures TokenRepls(NodeWins(n))
    decreases n
  {
    hide Interior, Decode, Edits, TokenText;
    match n
    case Text(_) =>
    case Str(raw, subs) => QuotedTokens(raw, subs);
    case Nest(raw, inner) =>
      TokenWins(inner);
      QuotedTokens(raw, AllWins(inner));
  }

  lemma {:induction false} TokenWins(ns: seq<Node>)
    requires Good(ns) && TokenTree(ns)
    ensures TokenRepls(AllWins(ns))
    decreases ns
  {
    hide GoodNode, TokenNode, NodeWins, NodeText, TokenText, Edits, Tree.Inside;
    if ns != [] {
      TokenNodeWins(ns[0]);
      TokenWins(ns[1..]);
    }
  }

  lemma {:induction false} UndoCountsNode(n: Node)
    requires GoodNode(n) && AsciiNode(n)
    ensures GoodNode(NodeUndo(n)) && |NodeWins(NodeUndo(n))| == |NodeWins(n)|
    decreases n
  {
    hide Interior, Decode, Edits, AsciiRepls, Splices, Ordered;
    UndoGoodNode(n);
    match n
    case Nest(_, inner) => UndoCounts(inner);
    case _ =>
  }

  lemma {:induction false} UndoCounts(ns: seq<Node>)
    requires Good(ns) && AsciiTree(ns)
    ensures Good(Undo(ns)) && |AllWins(Undo(ns))| == |AllWins(ns)|
    decreases ns
  {
    hide GoodNode, AsciiNode, NodeUndo, NodeWins, NodeText, Edits, Tree.Inside;
    UndoGood(ns);
    if ns != [] {
      UndoCountsNode(ns[0]);
      UndoCounts(ns[1..]);
      assert Undo(ns)[0] == NodeUndo(ns[0]) && Undo(ns)[1..] == Undo(ns[1..]);
    }
  }

  /** A body without the prefix has had nothing replaced. */
  lemma NoPrefixNoWins(ns: seq<Node>)
    requires Good(ns) && TokenTree(ns) && !Reassembly.ContainsPrefix(Render(After(ns)))
    ensures AllWins(ns) == []
  {
    hide Good, TokenTree, AllWins, After, Render, Splices, Ordered, TokenText;
    TokenWins(ns);
    AfterText(ns);
    var body, ws := Render(ns), AllWins(ns);
    if ws != [] {
      SplicesUnfold(body, ws, 0);
      HoldsFirst(body[0..ws[0].start], ws[0].repl, Splices(body, ws[1..], ws[0].end));
      assert false;
    }
  }

  /** And nothing is to be restored in it. */
  lemma NoPrefixNothing(ns: seq<Node>)
    requires Good(ns) && TokenTree(ns) && !Reassembly.ContainsPrefix(Render(After(ns)))
    ensures AsciiTree(ns) && Good(Undo(ns)) && Render(After(Undo(ns))) == Render(After(ns))
  {
    hide Good, TokenTree, AsciiTree, AllWins, Undo, After, Render, Splices, Ordered, TokenText;
    TokenTreeIsAscii(ns);
    NoPrefixNoWins(ns);
    UndoCounts(ns);
    AfterText(Undo(ns));
    UndoRenders(ns);
    SplicesEmpty(Render(Undo(ns)), 0);
  }

  lemma HoldsFirst(a: bytes, x: bytes, b: bytes)
    requires TokenText(x)
    ensures Reassembly.ContainsPrefix(a + (x + b))
  {
    var s := a + (x + b);
    assert s[|a|..] == x + b && PREFIX <= s[|a|..];
  }

  // ------------------------------------------------------------------- restoring undoes edits

  lemma {:induction false} UndoChainsNode(n: Node, at: nat, p: Chain)
    requires GoodNode(n)
    ensures NodeChains(NodeUndo(n), at, p) == NodeChains(NodeAfter(n), at, p)
    decreases n
  {
    match n
    case Nest(raw, inner) => UndoChains(inner, 0, Tok(RawAfter(raw, AllWins(inner)), at, p));
    case _ =>
  }

  lemma {:induction false} UndoChains(ns: seq<Node>, at: nat, p: Chain)
    requires Good(ns)
    ensures Chains(Undo(ns), at, p) == Chains(After(ns), at, p)
    decreases ns
  {
    hide GoodNode, NodeUndo, NodeAfter, NodeChains, NodeText;
    if ns != [] {
      UndoChainsNode(ns[0], at, p);
      UndoRendersNode(ns[0]);
      var k := |NodeText(NodeAfter(ns[0]))|;
      UndoChains(ns[1..], at + k, p);
      assert Undo(ns)[0] == NodeUndo(ns[0]) && Undo(ns)[1..] == Undo(ns[1..]);
      assert After(ns)[0] == NodeAfter(ns[0]) && After(ns)[1..] == After(ns[1..]);
    }
  }

  lemma {:induction false} GoodNodeEdits(n: Node)
    requires GoodNode(n)
    ensures AllEdits(NodeValues(n), NodeSubs(n))
    decreases n
  {
    hide Edits, Interior, Decode;
    match n
    case Nest(_, inner) => GoodEdits(inner);
    case _ =>
  }

  lemma {:induction false} GoodEdits(ns: seq<Node>)
    requires Good(ns)
    ensures AllEdits(Values(ns), Subs(ns))
    decreases ns
  {
    hide GoodNode, NodeValues, NodeSubs, Edits;
    if ns != [] {
      GoodNodeEdits(ns[0]);
      GoodEdits(ns[1..]);
    }
  }

  /** In every leaf, the pairs' placeholders stand exactly where they were inserted. */
  ghost predicate AllInserted(leaves: seq<Leaf>, pairs: seq<Pair>, s: seq<seq<Window>>) {
    |leaves| == |s| && forall i :: 0 <= i < |s| ==> OnlyInserted(leaves[i].value, pairs, s[i])
  }

  lemma RestoreUndoes(pairs: seq<Pair>, ns: seq<Node>, leaves: seq<Leaf>)
    requires Good(ns) && AsciiTree(ns) && Nonempty(pairs) && DistinctPairs(pairs)
    requires LeavesOf(leaves, After(ns)) && AllInserted(leaves, pairs, Subs(Undo(ns)))
    ensures Good(Undo(ns))
    ensures Applied(Render(After(ns)), AllRestores(leaves, pairs)) == Render(After(Undo(ns)))
  {
    hide Good, AsciiTree, Chains, LeafAt, Subs, Values, Undo, After, Render, OnlyInserted, Edits, FoundWins, Applied;
    UndoGood(ns);
    UndoRenders(ns);
    UndoChains(ns, 0, Root);
    assert LeavesOf(leaves, Undo(ns));
    LeafValues(Undo(ns), leaves);
    GoodEdits(Undo(ns));
    var s := Subs(Undo(ns));
    forall i | 0 <= i < |s| ensures multiset(FoundPlan(leaves, pairs)[i]) == multiset(s[i]) {
      assert OnlyInserted(leaves[i].value, pairs, s[i]) && Edits(Values(Undo(ns))[i], s[i]);
      FoundIsInserted(leaves[i].value, pairs, s[i]);
    }
    SameTreeEdits(leaves, FoundPlan(leaves, pairs), s);
    RestoresAre(leaves, pairs);
    ApplyTree(Undo(ns), leaves, AllRestores(leaves, pairs));
  }

  ghost predicate NoneOf(s: bytes, pairs: seq<Pair>) {
    forall p, pos :: p in pairs ==> !OccursAt(s, p.placeholder, pos)
  }

  /** Where no placeholder stands, nothing is replaced. */
  lemma {:induction false} NothingReplaced(s: bytes, pairs: seq<Pair>, escaped: bool)
    requires Nonempty(pairs) && NoneOf(s, pairs)
    ensures ReplaceEach(s, pairs, escaped) == s
    decreases |pairs|
  {
    hide OccursAt;
    if pairs != [] {
      assert pairs[0] in pairs;
      assert FirstAt(s, pairs[0].placeholder, 0) == None;
      assert s[0..] == s;
      NothingReplaced(s, pairs[1..], escaped);
    }
  }

  // ------------------------------------------------------------------------ what was inserted

  /** Where a window's replacement stands in the spliced text. */
  lemma {:induction false} InverseText(s: bytes, ws: seq<Window>, from: nat, before: bytes, i: nat)
    requires Ordered(ws, from, |s|) && i < |ws|
    ensures
      var text, w := before + Splices(s, ws, from), Inverse(s, ws, from, |before|)[i];
      OccursAt(text, ws[i].repl, w.start) && w.end == w.start + |ws[i].repl| && w.repl == s[ws[i].start..ws[i].end]
    decreases |ws|
  {
    hide Ordered, Splices, Inverse;
    var w := ws[0];
    InverseUnfold(s, ws, from, |before|);
    SplicesUnfold(s, ws, from);
    var gap, rest := s[from..w.start], Splices(s, ws[1..], w.end);
    Assoc(before, gap, w.repl + rest);
    Assoc(before + gap, w.repl, rest);
    if i > 0 {
      InverseText(s, ws[1..], w.end, before + gap + w.repl, i - 1);
    } else {
      var text := before + gap + w.repl + rest;
      assert text[|before + gap|..|before + gap| + |w.repl|] == w.repl;
    }
  }

  /** The windows that undo, leaf by leaf. */
  ghost predicate UndoOf(v: bytes, ws: seq<Window>, u: seq<Window>) {
    Ordered(ws, 0, |v|) && u == Inverse(v, ws, 0, 0)
  }

  ghost predicate AllUndo(values: seq<bytes>, s: seq<seq<Window>>, u: seq<seq<Window>>) {
    |values| == |s| == |u| && forall i :: 0 <= i < |s| ==> UndoOf(values[i], s[i], u[i])
  }

  lemma {:induction false} UndoSubsNode(n: Node)
    requires GoodNode(n)
    ensures AllUndo(NodeValues(n), NodeSubs(n), NodeSubs(NodeUndo(n)))
    decreases n
  {
    hide Inverse, Ordered, Edits, Decode, Interior;
    match n
    case Text(_) =>
    case Str(raw, subs) =>
      EditsFromStart(Decode(raw), subs);
      assert UndoOf(Decode(raw), subs, UndoWins(raw, subs));
    case Nest(_, inner) => UndoSubs(inner);
  }

  lemma UndoConcat(v: seq<bytes>, s: seq<seq<Window>>, u: seq<seq<Window>>,
                   v': seq<bytes>, s': seq<seq<Window>>, u': seq<seq<Window>>)
    requires AllUndo(v, s, u) && AllUndo(v', s', u')
    ensures AllUndo(v + v', s + s', u + u')
  {
    hide UndoOf;
  }

  lemma NoneToUndo()
    ensures AllUndo([], [], [])
  {
  }

  lemma {:induction false} UndoSubs(ns: seq<Node>)
    requires Good(ns)
    ensures AllUndo(Values(ns), Subs(ns), Subs(Undo(ns)))
    decreases ns
  {
    hide GoodNode, NodeUndo, NodeValues, NodeSubs, AllUndo;
    if ns == [] {
      NoneToUndo();
    } else {
      UndoSubsNode(ns[0]);
      UndoSubs(ns[1..]);
      assert Undo(ns)[0] == NodeUndo(ns[0]) && Undo(ns)[1..] == Undo(ns[1..]);
      UndoConcat(NodeValues(ns[0]), NodeSubs(ns[0]), NodeSubs(NodeUndo(ns[0])),
                 Values(ns[1..]), Subs(ns[1..]), Subs(Undo(ns[1..])));
    }
  }

  /** Each window's placeholder is paired with the text that the window replaces. */
  ghost predicate RecordedWindows(v: bytes, ws: seq<Window>, pairs: seq<Pair>) {
    forall i :: 0 <= i < |ws| ==>
      ws[i].start <= ws[i].end <= |v| && Pair(ws[i].repl, v[ws[i].start..ws[i].end]) in pairs
  }

  /** No mapped placeholder stands elsewhere in the leaf. */
  ghost predicate NoOther(v: bytes, pairs: seq<Pair>, u: seq<Window>) {
    forall w :: FoundFor(v, pairs, w) ==> w in u
  }

  lemma InsertedHere(v: bytes, ws: seq<Window>, pairs: seq<Pair>, u: seq<Window>)
    requires UndoOf(v, ws, u) && RecordedWindows(v, ws, pairs)
    requires NoOther(Splices(v, ws, 0), pairs, u)
    ensures OnlyInserted(Splices(v, ws, 0), pairs, u)
  {
    hide Splices, Inverse, OccursAt, Ordered;
    var text := Splices(v, ws, 0);
    assert [] + text == text;
    forall w | w in u ensures FoundFor(text, pairs, w) {
      var i :| 0 <= i < |u| && u[i] == w;
      InverseText(v, ws, 0, [], i);
      var p := Pair(ws[i].repl, v[ws[i].start..ws[i].end]);
      assert FoundOne(text, p, w);
    }
  }

  // ------------------------------------------------------------------------- what was minted

  /** An edit whose placeholder the maps record for the text it replaces. */
  ghost predicate RecordedEdit(m: Maps, e: Edit) {
    && 0 <= e.start <= e.end <= |e.leaf.value|
    && IsToken(e.repl) && e.repl in m.reverse && m.reverse[e.repl] == e.leaf.value[e.start..e.end]
    && exists clean :: CleanKind(clean) && KeyOf(m, clean, e)
  }

  ghost predicate KeyOf(m: Maps, clean: bytes, e: Edit)
    requires 0 <= e.start <= e.end <= |e.leaf.value|
  {
    var key := Key(clean, e.leaf.value[e.start..e.end]);
    key in m.forward && m.forward[key] == e.repl
  }

  ghost predicate Grown(m: Maps, later: Maps) {
    forall k :: k in m.forward ==> k in later.forward && later.forward[k] == m.forward[k]
  }

  lemma StillRecorded(digest: DigestFn, m: Maps, later: Maps, e: Edit)
    requires Minted(digest, later) && Grown(m, later) && RecordedEdit(m, e)
    ensures RecordedEdit(later, e)
  {
    hide IsToken, Key, Entries;
    var clean :| CleanKind(clean) && KeyOf(m, clean, e);
    assert later.forward[Key(clean, e.leaf.value[e.start..e.end])] in later.forward.Values;
    assert KeyOf(later, clean, e);
  }

  lemma MintRecords(digest: DigestFn, m: Maps, sub: Substitution)
    requires Minted(digest, m) && Locatable(sub)
    ensures
      var (m1, p) := MintOne(digest, m, SecretOf(sub), sub.category);
      && Minted(digest, m1) && Grown(m, m1)
      && (p.Some? ==> RecordedEdit(m1, Edit(sub.leaf, sub.start, sub.end, p.value)))
  {
    hide Entries, Injective, IsToken, MintOne, SanitizeKind, Key, LeafSpan;
    MintKeeps(digest, m, SecretOf(sub), sub.category);
    var (m1, p) := MintOne(digest, m, SecretOf(sub), sub.category);
    CleanOf(sub.category);
    if p.Some? {
      var clean := SanitizeKind(sub.category);
      var e := Edit(sub.leaf, sub.start, sub.end, p.value);
      MintedIsToken(digest, m1.forward, Key(clean, SecretOf(sub)));
      assert KeyOf(m1, clean, e);
      assert m1.forward[Key(clean, SecretOf(sub))] in m1.forward.Values;
    }
  }

  /** What Substitute plans is recorded when it is done. */
  lemma {:induction false} PlannedRecords(digest: DigestFn, m: Maps, subs: seq<Substitution>, i: nat)
    requires Minted(digest, m) && i <= |subs|
    ensures
      var (m1, owned) := Planned(digest, m, subs, i);
      && Minted(digest, m1) && Grown(m, m1)
      && (owned.Some? ==> forall o :: o in owned.value ==> RecordedEdit(m1, o.edit))
    decreases |subs| - i
  {
    hide Minted, MintOne, RecordedEdit, Locatable;
    if i < |subs| {
      if !Locatable(subs[i]) {
        PlannedRecords(digest, m, subs, i + 1);
      } else {
        LocatedRange(subs[i]);
        MintRecords(digest, m, subs[i]);
        var (m1, p) := MintOne(digest, m, SecretOf(subs[i]), subs[i].category);
        if p.Some? {
          PlannedRecords(digest, m1, subs, i + 1);
          StillRecorded(digest, m1, Planned(digest, m1, subs, i + 1).0,
            Edit(subs[i].leaf, subs[i].start, subs[i].end, p.value));
        }
      }
    }
  }

  lemma LocatedRange(sub: Substitution)
    requires Locatable(sub)
    ensures 0 <= sub.start <= sub.end <= |sub.leaf.value|
  {
  }

  // ----------------------------------------------------------------------------- both ways

  function PlainLeaf(l: Leaf, ws: seq<Window>): (es: seq<Edit>)
    ensures |es| == |ws| && forall i :: 0 <= i < |ws| ==> es[i] == Edit(l, ws[i].start, ws[i].end, ws[i].repl)
  {
    seq(|ws|, i requires 0 <= i < |ws| => Edit(l, ws[i].start, ws[i].end, ws[i].repl))
  }

  /** The edits that Substitute makes for the windows s of the leaves. */
  function PlainEdits(leaves: seq<Leaf>, s: seq<seq<Window>>): seq<Edit>
    requires |leaves| == |s|
  {
    if leaves == [] then [] else PlainLeaf(leaves[0], s[0]) + PlainEdits(leaves[1..], s[1..])
  }

  lemma {:induction false} PlainIsTree(leaves: seq<Leaf>, s: seq<seq<Window>>)
    requires |leaves| == |s| && AllTokens(s)
    ensures PlainEdits(leaves, s) == TreeEdits(leaves, s)
  {
    hide TokenText, RawSpelling;
    if leaves != [] {
      forall i | 0 <= i < |s[0]| ensures RawSpelling(leaves[0].tok, s[0][i].repl) == s[0][i].repl {
        assert TokenRepls(s[0]);
        SpelledAsItself(leaves[0].tok, s[0][i].repl);
      }
      assert PlainLeaf(leaves[0], s[0]) == LeafEdits(leaves[0], s[0]);
      PlainIsTree(leaves[1..], s[1..]);
    }
  }

  lemma {:induction false} PlainHas(leaves: seq<Leaf>, s: seq<seq<Window>>, i: nat, k: nat)
    requires |leaves| == |s| && i < |s| && k < |s[i]|
    ensures Edit(leaves[i], s[i][k].start, s[i][k].end, s[i][k].repl) in PlainEdits(leaves, s)
  {
    hide PlainLeaf;
    if i == 0 {
      assert PlainLeaf(leaves[0], s[0])[k] in PlainLeaf(leaves[0], s[0]);
    } else {
      PlainHas(leaves[1..], s[1..], i - 1, k);
    }
  }

  /** The windows are placeholders recorded for the text they replace, and no such text is excluded. */
  lemma WindowsRecorded(
    m: Maps, leaves: seq<Leaf>, s: seq<seq<Window>>, edits: seq<Edit>, pairs: seq<Pair>, excluded: set<bytes>)
    requires |leaves| == |s| && multiset(edits) == multiset(PlainEdits(leaves, s))
    requires forall e :: e in edits ==> RecordedEdit(m, e) && e.leaf.value[e.start..e.end] !in excluded
    requires forall p :: p in m.reverse ==> Pair(p, m.reverse[p]) in pairs
    ensures AllTokens(s)
    ensures forall i :: 0 <= i < |s| ==> RecordedWindows(leaves[i].value, s[i], Live(pairs, excluded))
  {
    hide PlainEdits, TokenText, IsToken;
    assert forall e :: e in PlainEdits(leaves, s) <==> e in multiset(edits);
    forall i, k | 0 <= i < |s| && 0 <= k < |s[i]|
      ensures
        var w := s[i][k];
        && TokenText(w.repl) && w.start <= w.end <= |leaves[i].value|
        && Pair(w.repl, leaves[i].value[w.start..w.end]) in Live(pairs, excluded)
    {
      PlainHas(leaves, s, i, k);
      var e := Edit(leaves[i], s[i][k].start, s[i][k].end, s[i][k].repl);
      assert e in multiset(edits) && RecordedEdit(m, e);
      TokenIsText(e.repl);
    }
  }

  lemma {:induction false} LiveDistinct(pairs: seq<Pair>, excluded: set<bytes>)
    requires Nonempty(pairs) && DistinctPairs(pairs)
    ensures Nonempty(Live(pairs, excluded)) && DistinctPairs(Live(pairs, excluded))
  {
    if pairs != [] {
      HeadDistinct(pairs);
      LiveDistinct(pairs[1..], excluded);
      var rest := Live(pairs[1..], excluded);
      assert forall i :: 0 <= i < |rest| ==> rest[i] in pairs[1..];
    }
  }

  /** Each leaf of the substituted body holds just what was inserted. */
  lemma LeavesInserted(ns: seq<Node>, leaves: seq<Leaf>, leaves1: seq<Leaf>, pairs: seq<Pair>)
    requires Good(ns) && LeavesOf(leaves, ns) && AsciiTree(ns) && Nonempty(pairs)
    requires Good(After(ns)) && LeavesOf(leaves1, After(ns))
    requires |leaves| == |Subs(ns)| && forall i :: 0 <= i < |leaves| ==>
             RecordedWindows(leaves[i].value, Subs(ns)[i], pairs)
    requires |leaves1| == |Subs(Undo(ns))|
    requires forall i :: 0 <= i < |leaves1| ==> NoOther(leaves1[i].value, pairs, Subs(Undo(ns))[i])
    ensures AllInserted(leaves1, pairs, Subs(Undo(ns)))
  {
    hide Good, LeavesOf, AsciiTree, Subs, Values, Undo, After, UndoOf, RecordedWindows, NoOther, OnlyInserted;
    hide ValueReplaced;
    LeafValues(ns, leaves);
    LeafValues(After(ns), leaves1);
    ValuesAfter(ns);
    UndoSubs(ns);
    forall i | 0 <= i < |leaves1| ensures OnlyInserted(leaves1[i].value, pairs, Subs(Undo(ns))[i]) {
      var v, ws, u := Values(ns)[i], Subs(ns)[i], Subs(Undo(ns))[i];
      assert ValueReplaced(v, ws, leaves1[i].value) && UndoOf(v, ws, u);
      assert RecordedWindows(leaves[i].value, ws, pairs) && NoOther(leaves1[i].value, pairs, u);
      LeafInserted(v, ws, pairs, u, leaves1[i].value);
    }
  }

  lemma LeafInserted(v: bytes, ws: seq<Window>, pairs: seq<Pair>, u: seq<Window>, text: bytes)
    requires UndoOf(v, ws, u) && RecordedWindows(v, ws, pairs) && ValueReplaced(v, ws, text) && NoOther(text, pairs, u)
    ensures OnlyInserted(text, pairs, u)
  {
    hide Splices, Inverse, NoOther, OnlyInserted, RecordedWindows;
    InsertedHere(v, ws, pairs, u);
  }

  /** The same document, each string with its value of before. */
  ghost predicate SameValues(ns: seq<Node>, body: bytes)
    requires Good(ns)
  {
    exists ns' :: SameSkeleton(ns, ns') && Good(ns') && Render(ns') == body && Values(ns') == Values(ns)
  }

  /** BackfillCount on the substituted body. */
  lemma RestoreBody(walk: bytes -> Option<seq<Leaf>>, live: seq<Pair>, ns: seq<Node>, leaves1: seq<Leaf>)
    requires Good(ns) && TokenTree(ns) && Nonempty(live) && DistinctPairs(live)
    requires walk(Render(After(ns))) == Some(leaves1) && LeavesOf(leaves1, After(ns))
    requires AllInserted(leaves1, live, Subs(Undo(ns)))
    requires NoneOf(Applied(Render(After(ns)), AllRestores(leaves1, live)), live)
    ensures Good(Undo(ns)) && Backfilled(walk, live, Render(After(ns))).0 == Render(After(Undo(ns)))
  {
    hide Good, TokenTree, AllInserted, LeavesOf, NoneOf, Undo, After, Render, Applied, AllRestores, ReplaceEach;
    hide DistinctPairs;
    hide Reassembly.ContainsPrefix, CountAll, Subs;
    TokenTreeIsAscii(ns);
    if Reassembly.ContainsPrefix(Render(After(ns))) {
      RestoreUndoes(live, ns, leaves1);
      NothingReplaced(Applied(Render(After(ns)), AllRestores(leaves1, live)), live, true);
    } else {
      NoPrefixNothing(ns);
    }
  }

  /**
   Redacting and restoring. The substitutions are windows of the document's leaves, disjoint
   and rune-aligned; their secrets are not excluded; the redacted strings still read as the
   same strings; and no mapped placeholder stands anywhere else in a string, nor anywhere in the body
   once the strings are restored. Then every string has its value back; and the body is byte for byte what it was when
   each secret was spelled as RawSpelling spells it.
   */
  lemma {:induction false} RedactRestore(
    digest: DigestFn, m: Maps, subs: seq<Substitution>, ns: seq<Node>, leaves: seq<Leaf>,
    walk: bytes -> Option<seq<Leaf>>, leaves1: seq<Leaf>, pairs: seq<Pair>, excluded: set<bytes>)
    requires Minted(digest, m) && Planned(digest, m, subs, 0).1.Some?
    requires Good(ns) && LeavesOf(leaves, ns) && |leaves| == |Subs(ns)|
    requires multiset(EditsOf(Planned(digest, m, subs, 0).1.value)) == multiset(PlainEdits(leaves, Subs(ns)))
    requires Nonempty(pairs) && DistinctPairs(pairs)
    requires
      var reverse := Planned(digest, m, subs, 0).0.reverse;
      forall p :: p in reverse ==> Pair(p, reverse[p]) in pairs
    requires forall sub :: sub in subs && Locatable(sub) ==> SecretOf(sub) !in excluded
    requires walk(Applied(Render(ns), EditsOf(Planned(digest, m, subs, 0).1.value))) == Some(leaves1)
    requires LeavesOf(leaves1, After(ns)) && |leaves1| == |Subs(Undo(ns))|
    requires forall i :: 0 <= i < |leaves1| ==> NoOther(leaves1[i].value, Live(pairs, excluded), Subs(Undo(ns))[i])
    requires
      var redacted := Applied(Render(ns), EditsOf(Planned(digest, m, subs, 0).1.value));
      Nonempty(Live(pairs, excluded))
        && NoneOf(Applied(redacted, AllRestores(leaves1, Live(pairs, excluded))), Live(pairs, excluded))
    ensures
      var redacted := Applied(Render(ns), EditsOf(Planned(digest, m, subs, 0).1.value));
      var restored := Backfilled(walk, Live(pairs, excluded), redacted).0;
      SameValues(ns, restored) && (Spelled(ns) ==> restored == Render(ns))
  {
    hide Good, LeavesOf, Subs, Undo, After, Render, Applied, PlainEdits, Planned, Minted, Backfilled, AllRestores;
    hide NoOther, NoneOf, RecordedWindows, Spelled, DistinctPairs, TokenTree, AsciiTree, SameValues;
    var (m1, owned) := Planned(digest, m, subs, 0);
    var edits, live := EditsOf(owned.value), Live(pairs, excluded);
    PlannedRecords(digest, m, subs, 0);
    EditsRecorded(digest, m, subs, excluded);
    LiveDistinct(pairs, excluded);
    WindowsRecorded(m1, leaves, Subs(ns), edits, pairs, excluded);
    RedactsTo(ns, leaves, edits);
    LeavesInserted(ns, leaves, leaves1, live);
    RestoreBody(walk, live, ns, leaves1);
    RestoredDocument(ns);
  }

  /** Substitute's edits give the document with the placeholders in its leaves. */
  lemma RedactsTo(ns: seq<Node>, leaves: seq<Leaf>, edits: seq<Edit>)
    requires Good(ns) && LeavesOf(leaves, ns) && |leaves| == |Subs(ns)| && AllTokens(Subs(ns))
    requires multiset(edits) == multiset(PlainEdits(leaves, Subs(ns)))
    ensures TokenTree(ns) && AsciiTree(ns) && Good(After(ns)) && Applied(Render(ns), edits) == Render(After(ns))
  {
    hide Good, LeavesOf, Subs, After, Render, Applied, PlainEdits, TreeEdits, TokenTree, AsciiTree, AllTokens;
    TokenSubs(ns);
    TokenTreeIsAscii(ns);
    PlainIsTree(leaves, Subs(ns));
    ApplyTree(ns, leaves, edits);
  }

  lemma RestoredDocument(ns: seq<Node>)
    requires Good(ns) && AsciiTree(ns)
    ensures Good(Undo(ns)) && SameValues(ns, Render(After(Undo(ns))))
    ensures Spelled(ns) ==> Render(After(Undo(ns))) == Render(ns)
  {
    hide Good, Undo, After, Render, Spelled, AsciiTree, SameSkeleton, Values;
    UndoneValues(ns);
    UndoRenders(ns);
    AfterText(Undo(ns));
    AfterSame(Undo(ns));
    SameTrans(ns, Undo(ns), After(Undo(ns)));
    if Spelled(ns) {
      UndoneBytes(ns);
    }
  }

  lemma EditsRecorded(digest: DigestFn, m: Maps, subs: seq<Substitution>, excluded: set<bytes>)
    requires Minted(digest, m) && Planned(digest, m, subs, 0).1.Some?
    requires forall sub :: sub in subs && Locatable(sub) ==> SecretOf(sub) !in excluded
    ensures
      var (m1, owned) := Planned(digest, m, subs, 0);
      forall e :: e in EditsOf(owned.value) ==> RecordedEdit(m1, e) && e.leaf.value[e.start..e.end] !in excluded
  {
    hide Minted, RecordedEdit, Planned, Locatable;
    PlannedRecords(digest, m, subs, 0);
    PlannedOwners(digest, m, subs, 0);
    var (m1, owned) := Planned(digest, m, subs, 0);
    var edits := EditsOf(owned.value);
    forall e | e in edits
      ensures RecordedEdit(m1, e) && 0 <= e.start <= e.end <= |e.leaf.value|
              && e.leaf.value[e.start..e.end] !in excluded {
      var i :| 0 <= i < |edits| && edits[i] == e;
      var o := owned.value[i];
      assert o in owned.value && o.edit == e;
      RecordedRange(m1, e);
      assert FromSub(subs, o);
      LocatedRange(subs[o.owner]);
      assert subs[o.owner] in subs;
    }
  }

  lemma RecordedRange(m: Maps, e: Edit)
    requires RecordedEdit(m, e)
    ensures 0 <= e.start <= e.end <= |e.leaf.value|
  {
  }

  ghost predicate FromSub(subs: seq<Substitution>, o: Owned) {
    && o.owner < |subs| && Locatable(subs[o.owner])
    && o.edit.leaf == subs[o.owner].leaf && o.edit.start == subs[o.owner].start && o.edit.end == subs[o.owner].end
  }

  lemma {:induction false} PlannedOwners(digest: DigestFn, m: Maps, subs: seq<Substitution>, i: nat)
    requires i <= |subs|
    ensures
      var owned := Planned(digest, m, subs, i).1;
      owned.Some? ==> forall o :: o in owned.value ==> FromSub(subs, o)
    decreases |subs| - i
  {
    hide MintOne, LeafSpan;
    if i < |subs| {
      if !Locatable(subs[i]) {
        PlannedOwners(digest, m, subs, i + 1);
      } else {
        var (m1, p) := MintOne(digest, m, SecretOf(subs[i]), subs[i].category);
        PlannedOwners(digest, m1, subs, i + 1);
      }
    }
  }

  // ------------------------------------------------------- a redacted string that is re-read

  function OneString(a: bytes, b: bytes, p: bytes, s: bytes): seq<Node> {
    [Text(a), Str(p, [Window(0, |p|, s)]), Text(b)]
  }

  /** A string that reads as a document of one string, the placeholder p, to become s. */
  function Reread(raw: bytes, a: bytes, b: bytes, p: bytes, s: bytes): seq<Node> {
    [Nest(raw, OneString(a, b, p, s))]
  }

  lemma TokenString(p: bytes, s: bytes)
    requires TokenText(p) && s != [] && Utf8.Valid(s)
    ensures Interior(p) && Decode(p) == p && Edits(p, [Window(0, |p|, s)])
  {
    hide Interior, Decode, Utf8.Valid;
    AsciiValid(p);
    TokenPlain(p);
    EscapeDecodes(p);
  }

  lemma OneStringIs(a: bytes, b: bytes, p: bytes, s: bytes)
    requires Interior(p) && Decode(p) == p && Edits(p, [Window(0, |p|, s)])
    ensures Good(OneString(a, b, p, s)) && Subs(OneString(a, b, p, s)) == [[Window(0, |p|, s)]]
    ensures Render(OneString(a, b, p, s)) == a + (Quoted(p) + b)
  {
    hide Interior, Decode, Edits, Quoted;
    var doc, last := OneString(a, b, p, s), [Text(b)];
    assert doc[1..] == [Str(p, [Window(0, |p|, s)])] + last && doc[1..][1..] == last && last[1..] == [];
    assert Render(last) == b + Render([]) && b + [] == b;
    assert Render(doc[1..]) == Quoted(p) + Render(last);
    assert Good(last) && Good(doc[1..]);
    assert Subs(last) == [] && Subs(doc[1..]) == [[Window(0, |p|, s)]] + Subs(last);
  }

  lemma RereadGood(raw: bytes, a: bytes, b: bytes, p: bytes, s: bytes)
    requires Interior(raw) && Decode(raw) == a + (Quoted(p) + b)
    requires TokenText(p) && s != [] && Utf8.Valid(s)
    ensures Interior(p) && Decode(p) == p && Edits(p, [Window(0, |p|, s)])
    ensures Good(OneString(a, b, p, s)) && Good(Reread(raw, a, b, p, s))
    ensures Subs(Reread(raw, a, b, p, s)) == [[Window(0, |p|, s)]]
    ensures Render(Reread(raw, a, b, p, s)) == Quoted(raw)
  {
    hide Interior, Decode, Edits, Quoted, OneString, TokenText;
    TokenString(p, s);
    OneStringIs(a, b, p, s);
    var t := Reread(raw, a, b, p, s);
    assert t[1..] == [] && Quoted(raw) + [] == Quoted(raw);
    assert Render(t) == Quoted(raw) + Render([]);
    assert Subs(t) == Subs(OneString(a, b, p, s)) + [];
  }

  /**
   Why the strings must read as they did: once the redacted string parses as a document, the
   secret is restored one level deeper, and comes back escaped once more.
   */
  lemma RereadEscapes(raw: bytes, a: bytes, b: bytes, p: bytes, s: bytes, leaves: seq<Leaf>) returns (raw': bytes)
    requires Interior(raw) && Decode(raw) == a + (Quoted(p) + b)
    requires TokenText(p) && s != [] && Utf8.Valid(s)
    requires LeavesOf(leaves, Reread(raw, a, b, p, s)) && |leaves| == 1
    ensures Applied(Quoted(raw), TreeEdits(leaves, [[Window(0, |p|, s)]])) == Quoted(raw')
    ensures Interior(raw') && Decode(raw') == a + (Quoted(Escape(s)) + b)
    ensures Escape(s) != s ==> Decode(raw') != a + (Quoted(s) + b)
  {
    hide Interior, Decode, Quoted, LeavesOf, Applied, Escape, Edits, OneString, After, Good, TokenText;
    RereadGood(raw, a, b, p, s);
    var t := Reread(raw, a, b, p, s);
    ApplyTree(t, leaves, TreeEdits(leaves, Subs(t)));
    OneStringIs(a, b, p, s);
    OneStringAfter(a, b, p, s);
    raw' := OneNestAfter(raw, OneString(a, b, p, s));
    QuotedDiffer(a, b, Escape(s), s);
  }

  lemma OneStringAfter(a: bytes, b: bytes, p: bytes, s: bytes)
    requires Interior(p) && Decode(p) == p && Edits(p, [Window(0, |p|, s)]) && Good(OneString(a, b, p, s))
    ensures Render(After(OneString(a, b, p, s))) == a + (Quoted(Escape(s)) + b)
  {
    hide Interior, Decode, Edits, Quoted, Escape, RawAfter;
    WholeReplaced(p, s);
    var doc, last := OneString(a, b, p, s), [Text(b)];
    assert doc[1..] == [Str(p, [Window(0, |p|, s)])] + last && doc[1..][1..] == last && last[1..] == [];
    assert After(last) == [Text(b)] + After([]);
    assert After(doc[1..]) == [Str(Escape(s), [])] + After(last);
    var tail := After(doc[1..]);
    assert After(doc) == [Text(a)] + tail && After(doc)[1..] == tail && tail[1..] == last;
    assert Render(last) == b + Render([]) && b + [] == b;
    assert Render(tail) == Quoted(Escape(s)) + Render(last);
  }

  lemma OneNestAfter(raw: bytes, inner: seq<Node>) returns (raw': bytes)
    requires Interior(raw) && Good(inner) && Decode(raw) == Render(inner) && Good([Nest(raw, inner)])
    ensures Render(After([Nest(raw, inner)])) == Quoted(raw')
    ensures Interior(raw') && Decode(raw') == Render(After(inner))
  {
    hide Interior, Decode, Quoted, Splices, Ordered, Edits;
    var t := [Nest(raw, inner)];
    AfterText(inner);
    raw' := RawAfter(raw, AllWins(inner));
    assert t[1..] == [];
    assert After(t) == [Nest(raw', After(inner))] + After([]);
    assert After(t)[1..] == [];
    assert Render(After(t)) == Quoted(raw') + Render([]) && Quoted(raw') + [] == Quoted(raw');
  }

  lemma WholeReplaced(p: bytes, s: bytes)
    requires Interior(p) && Decode(p) == p && Edits(p, [Window(0, |p|, s)])
    ensures RawAfter(p, [Window(0, |p|, s)]) == Escape(s)
  {
    hide Interior, Decode, Splices, Ordered, Escape, UnitEnd;
    var w := Window(0, |p|, s);
    AlignedStart(p);
    LevelPut(p, [w], 0);
    EndAligned(p);
    CutAt(p, |p|);
    OffsetZero(p);
    var l := Lift(p, [w]);
    assert l == [Window(0, |p|, Escape(s))];
    SplicesUnfold(p, l, 0);
    assert l[1..] == [];
    SplicesEmpty(p, |p|);
    assert p[0..0] + (Escape(s) + p[|p|..]) == Escape(s);
  }

  lemma QuotedDiffer(a: bytes, b: bytes, x: bytes, y: bytes)
    ensures a + (Quoted(x) + b) == a + (Quoted(y) + b) ==> x == y
  {
    var s, t := a + (Quoted(x) + b), a + (Quoted(y) + b);
    if s == t {
      assert |x| == |y|;
      assert s[|a| + 1..|a| + 1 + |x|] == x && t[|a| + 1..|a| + 1 + |y|] == y;
    }
  }
}
