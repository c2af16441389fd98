/**
 Walk before and after an edit of strings. For a decoder that reads the tokens around a string
 as before when only the string's interior changes, the walk of the edited body finds the
 strings of the edited document, some of them perhaps opened as documents now.
 */
module WalkEdit {
  import opened Bytes
  import opened Utf8
  import opened Lens
  import opened LensPut
  import opened LensChain
  import opened LensInverse
  import opened Splice
  import opened Apply
  import opened Tree
  import opened TreeLaws
  import opened TreeApply
  import opened TreeAssign
  import opened TreeInverse
  import opened WalkStrings
  import opened WalkTree
  import opened WalkEncoded
  import opened RereadTree
  import opened Placeholder
  import opened Mint
  import opened MintLaws
  import opened Restore
  import opened RoundTrip
  import opened RoundTripLaw
  import opened RereadLaw
  import Walk

  // ----------------------------------------------------------------- exchanging interiors

  /** The text from `from` on with other interiors for its strings. */
  function Requoted(text: bytes, strings: seq<Quote>, raws: seq<bytes>, from: nat): bytes
    requires |raws| == |strings| && from <= |text|
    decreases |strings|
  {
    if strings == [] then text[from..] else
    var q := strings[0];
    var next := q.start + |q.raw| + 2;
    if from <= q.start && next <= |text|
    then text[from..q.start] + (Quoted(raws[0]) + Requoted(text, strings[1..], raws[1..], next))
    else []
  }

  /** Where the strings then stand; offset `from` of the text is offset `at` of the new one. */
  function Requotes(strings: seq<Quote>, raws: seq<bytes>, from: nat, at: nat): (r: seq<Quote>)
    requires |raws| == |strings|
    ensures |r| == |strings|
    decreases |strings|
  {
    if strings == [] then [] else
    var q := strings[0];
    var start := at + if from <= q.start then q.start - from else 0;
    [Quote(raws[0], start)] + Requotes(strings[1..], raws[1..], q.start + |q.raw| + 2, start + |raws[0]| + 2)
  }

  ghost predicate Interiors(raws: seq<bytes>) {
    forall r :: r in raws ==> Interior(r)
  }

  /** Other interiors for its strings leave a document the document it is. */
  ghost predicate Stable(lex: Walk.Lexer) {
    forall text, raws ::
      Utf8.Valid(text) && ContentOf(lex, text).Some? && |raws| == |StringsIn(lex, text)| && Interiors(raws) ==>
        var text' := Requoted(text, StringsIn(lex, text), raws, 0);
        && ContentOf(lex, text').Some?
        && StringsIn(lex, text') == Requotes(StringsIn(lex, text), raws, 0, 0)
  }

  lemma StableAt(lex: Walk.Lexer, text: bytes, raws: seq<bytes>)
    requires Stable(lex) && Utf8.Valid(text) && ContentOf(lex, text).Some?
    requires |raws| == |StringsIn(lex, text)| && Interiors(raws)
    ensures
      var text' := Requoted(text, StringsIn(lex, text), raws, 0);
      && ContentOf(lex, text').Some?
      && StringsIn(lex, text') == Requotes(StringsIn(lex, text), raws, 0, 0)
  {
    hide ContentOf, StringsIn, Requoted, Requotes, Interiors, Utf8.Valid;
  }

  // ---------------------------------------------------------------------- the edited document

  /** Two documents that differ in their windows only. */
  ghost predicate SameSpelledNode(a: Node, b: Node)
    decreases a
  {
    match (a, b)
    case (Text(s), Text(t)) => s == t
    case (Str(raw, _), Str(raw', _)) => raw == raw'
    case (Nest(raw, inner), Nest(raw', inner')) => raw == raw' && SameSpelled(inner, inner')
    case _ => false
  }

  ghost predicate SameSpelled(a: seq<Node>, b: seq<Node>)
    decreases a
  {
    if a == [] then b == [] else b != [] && SameSpelledNode(a[0], b[0]) && SameSpelled(a[1..], b[1..])
  }

  function RawOf(n: Node): seq<bytes> {
    if n.Text? then [] else [n.raw]
  }

  /** The interiors of a document's strings. */
  function RawsOf(ns: seq<Node>): seq<bytes> {
    if ns == [] then [] else RawOf(ns[0]) + RawsOf(ns[1..])
  }

  lemma {:induction false} RawsInterior(ns: seq<Node>)
    requires Good(ns)
    ensures Interiors(RawsOf(ns))
  {
    hide Interior, Decode, Edits;
    if ns != [] {
      RawsInterior(ns[1..]);
    }
  }

  lemma {:induction false} SpelledChainsNode(a: Node, b: Node, at: nat, p: Chain)
    requires SameSpelledNode(a, b)
    ensures NodeChains(a, at, p) == NodeChains(b, at, p) && NodeText(a) == NodeText(b)
    decreases a
  {
    match a
    case Nest(raw, inner) => SpelledChains(inner, b.inner, 0, Tok(raw, at, p));
    case _ =>
  }

  lemma {:induction false} SpelledChains(a: seq<Node>, b: seq<Node>, at: nat, p: Chain)
    requires SameSpelled(a, b)
    ensures Chains(a, at, p) == Chains(b, at, p) && Render(a) == Render(b)
    decreases a
  {
    hide SameSpelledNode, NodeChains, NodeText;
    if a != [] {
      SpelledChainsNode(a[0], b[0], at, p);
      SpelledChains(a[1..], b[1..], at + |NodeText(a[0])|, p);
    }
  }

  /** The two nodes of a string and the gap in front of it. */
  lemma TwoSpelled(gap: bytes, n: Node, rest: seq<Node>, ns: seq<Node>)
    requires SameSpelled([Text(gap), n] + rest, ns)
    ensures |ns| >= 2 && ns[0] == Text(gap) && SameSpelledNode(n, ns[1]) && SameSpelled(rest, ns[2..])
    ensures ns == [Text(gap), ns[1]] + ns[2..]
  {
    hide SameSpelledNode;
    var all := [Text(gap), n] + rest;
    assert all[1..] == [n] + rest && all[1..][1..] == rest && ns[1..][1..] == ns[2..];
    assert SameSpelledNode(all[0], ns[0]);
    TextSpelled(gap, ns[0]);
  }

  lemma TextSpelled(gap: bytes, n: Node)
    requires SameSpelledNode(Text(gap), n)
    ensures n == Text(gap)
  {
  }

  /** The edited document of a string and the gap in front of it. */
  lemma TwoAfter(gap: bytes, n: Node, rest: seq<Node>)
    requires Good([Text(gap), n] + rest) && !n.Text?
    ensures GoodNode(n) && Good(rest)
    ensures
      var after, raw := After([Text(gap), n] + rest), RawOf(NodeAfter(n));
      && after == [Text(gap), NodeAfter(n)] + After(rest)
      && |raw| == 1 && RawsOf(after) == raw + RawsOf(After(rest))
      && Render(after) == gap + (Quoted(raw[0]) + Render(After(rest)))
  {
    hide GoodNode, NodeAfter, Quoted;
    var ns := [Text(gap), n] + rest;
    assert ns[1..] == [n] + rest && ns[1..][1..] == rest;
    assert GoodNode(ns[0]) && NodeAfter(Text(gap)) == Text(gap) by { TextAfter(gap); }
    StringAfter(n);
    var after := After(ns);
    assert After(ns[1..]) == [NodeAfter(n)] + After(rest);
    assert after == [Text(gap)] + ([NodeAfter(n)] + After(rest)) && after[1..] == [NodeAfter(n)] + After(rest);
    assert after[1..][1..] == After(rest);
    assert RawsOf(after[1..]) == RawOf(NodeAfter(n)) + RawsOf(After(rest));
    assert RawsOf(after) == [] + RawsOf(after[1..]);
  }

  lemma TextAfter(gap: bytes)
    ensures GoodNode(Text(gap)) && NodeAfter(Text(gap)) == Text(gap)
  {
  }

  lemma StringAfter(n: Node)
    requires GoodNode(n) && !n.Text?
    ensures !NodeAfter(n).Text? && NodeText(NodeAfter(n)) == Quoted(NodeAfter(n).raw)
  {
    hide Interior, Decode, Edits, RawAfter;
  }

  // ------------------------------------------------------------------ the walk of the edited

  lemma {:induction false} StringReread(lex: Walk.Lexer, q: Quote, depth: nat, n: Node, q': Quote)
    requires Faithful(lex) && Stable(lex) && depth <= Walk.MAX_ENCODED && Interior(q.raw)
    requires SameSpelledNode(StringNode(lex, q, depth), n) && GoodNode(n) && q'.raw == NodeAfter(n).raw
    ensures Interior(q'.raw) && RereadNode(NodeAfter(n), StringNode(lex, q', depth))
    decreases Walk.MAX_ENCODED - depth, 0
  {
    hide Interior, Decode, Edits, Faithful, Stable, StringsIn, Nodes, Utf8.Valid;
    DecodeValid(q.raw);
    StringsPlaced(lex, Decode(q.raw));
    if n.Nest? {
      StringsMean(lex, Decode(q.raw));
      InnerReread(lex, Decode(q.raw), depth + 1, n.inner);
      DecodeValid(q'.raw);
      AfterText(n.inner);
      assert Decode(q'.raw) == Render(After(n.inner));
    }
  }

  lemma StringsMean(lex: Walk.Lexer, text: bytes)
    ensures StringsIn(lex, text) != [] ==> ContentOf(lex, text).Some?
  {
  }

  /** An inner document is opened again, and read as the edited document. */
  lemma {:induction false} InnerReread(lex: Walk.Lexer, text: bytes, depth: nat, ns: seq<Node>)
    requires Faithful(lex) && Stable(lex) && depth <= Walk.MAX_ENCODED && Utf8.Valid(text)
    requires ContentOf(lex, text).Some? && SameSpelled(TextTree(lex, text, depth), ns) && Good(ns)
    ensures Utf8.Valid(Render(After(ns))) && ContentOf(lex, Render(After(ns))).Some?
    ensures |StringsIn(lex, Render(After(ns)))| == |StringsIn(lex, text)|
    ensures Rereads(After(ns), TextTree(lex, Render(After(ns)), depth))
    decreases Walk.MAX_ENCODED - depth, |StringsIn(lex, text)| + 1
  {
    hide Faithful, Stable, StringsIn, Nodes, Utf8.Valid, Good, Render, After, Rereads, SameSpelled, ContentOf, Requoted;
    hide Requotes, RawsOf, Interiors;
    var strings := StringsIn(lex, text);
    StringsPlaced(lex, text);
    AfterValid(lex, text, depth, ns);
    var text' := Render(After(ns));
    assert text'[0..] == text';
    NodesReread(lex, text, strings, 0, depth, ns, text', 0);
    AfterText(ns);
    RawsInterior(After(ns));
    StableAt(lex, text, RawsOf(After(ns)));
  }

  /** The edited text is valid UTF-8. */
  lemma AfterValid(lex: Walk.Lexer, text: bytes, depth: nat, ns: seq<Node>)
    requires Faithful(lex) && depth <= Walk.MAX_ENCODED && Utf8.Valid(text)
    requires SameSpelled(TextTree(lex, text, depth), ns) && Good(ns)
    ensures Utf8.Valid(Render(After(ns)))
  {
    hide Faithful, StringsIn, Nodes, Utf8.Valid, Good, Render, After, SameSpelled, Splices, Edits, Chains;
    StringsPlaced(lex, text);
    NodesFacts(lex, text, StringsIn(lex, text), 0, depth, Root);
    SpelledChains(TextTree(lex, text, depth), ns, 0, Root);
    assert text[0..] == text;
    AfterText(ns);
    ValidStart(text);
    SplicesValid(text, AllWins(ns), 0);
  }

  lemma {:induction false} SplicesValid(v: bytes, ws: seq<Window>, from: nat)
    requires Utf8.Valid(v) && Edits(v, ws) && Ordered(ws, from, |v|) && Aligned(v, from)
    ensures Utf8.Valid(Splices(v, ws, from))
    decreases |ws|
  {
    hide Utf8.Valid, Aligned, Edits, Ordered, Splices;
    if ws == [] {
      SplicesEmpty(v, from);
      EndAligned(v);
      SliceValid(v, from, |v|);
      assert v[from..|v|] == v[from..];
    } else {
      EditsTail(v, ws);
      EditableFacts(v, ws[0]);
      OrderedTail(ws, from, |v|);
      SplicesUnfold(v, ws, from);
      SplicesValid(v, ws[1..], ws[0].end);
      SliceValid(v, from, ws[0].start);
      var rest := Splices(v, ws[1..], ws[0].end);
      ValidAppend(ws[0].repl, rest);
      ValidAppend(v[from..ws[0].start], ws[0].repl + rest);
    }
  }

  /** The strings from `from` on, in the new text from `at` on. */
  lemma {:induction false} NodesReread(
    lex: Walk.Lexer, text: bytes, strings: seq<Quote>, from: nat, depth: nat, ns: seq<Node>, text': bytes, at: nat)
    requires Faithful(lex) && Stable(lex) && depth <= Walk.MAX_ENCODED && Placed(text, strings, from) && from <= |text|
    requires SameSpelled(Nodes(lex, text, strings, from, depth), ns) && Good(ns)
    requires at <= |text'| && text'[at..] == Render(After(ns))
    ensures |RawsOf(After(ns))| == |strings| && Render(After(ns)) == Requoted(text, strings, RawsOf(After(ns)), from)
    ensures
      var strings' := Requotes(strings, RawsOf(After(ns)), from, at);
      Placed(text', strings', at) && Rereads(After(ns), Nodes(lex, text', strings', at, depth))
    decreases Walk.MAX_ENCODED - depth, |strings|
  {
    hide Faithful, Stable, Nodes, StringNode, Good, GoodNode, Render, After, NodeAfter, SameSpelled, SameSpelledNode;
    hide Interior;
    hide Rereads, RereadNode, RawsOf, Quoted, QuotedAt;
    if strings == [] {
      NoNodes(lex, text, from, depth, Root);
      NoneReread(lex, text[from..], ns, text', at, depth);
    } else {
      var q := strings[0];
      var next := q.start + |q.raw| + 2;
      NodesStep(lex, text, strings, from, depth);
      QuotedInside(text, q);
      var n0, rest0 := StringNode(lex, q, depth), Nodes(lex, text, strings[1..], next, depth);
      TwoSpelled(text[from..q.start], n0, rest0, ns);
      var gap, n, rest := text[from..q.start], ns[1], ns[2..];
      StringNodeIs(lex, q, depth, n);
      TwoAfter(gap, n, rest);
      var raw := NodeAfter(n).raw;
      var q' := Quote(raw, at + |gap|);
      var next' := q'.start + |raw| + 2;
      NewPlace(text', at, gap, raw, Render(After(rest)));
      StringReread(lex, q, depth, n, q');
      NodesReread(lex, text, strings[1..], next, depth, rest, text', next');
      var strings' := Requotes(strings, RawsOf(After(ns)), from, at);
      RequotesStep(strings, [raw] + RawsOf(After(rest)), from, at);
      assert ([raw] + RawsOf(After(rest)))[1..] == RawsOf(After(rest));
      assert strings'[0] == q' && strings'[1..] == Requotes(strings[1..], RawsOf(After(rest)), next, next');
      PlacedCons(text', strings', at);
      NodesStep(lex, text', strings', at, depth);
      RereadTwo(gap, NodeAfter(n), After(rest), StringNode(lex, q', depth),
        Nodes(lex, text', strings'[1..], next', depth));
    }
  }

  lemma QuotedInside(text: bytes, q: Quote)
    requires QuotedAt(text, q.start, q.raw)
    ensures q.start + |q.raw| + 2 <= |text|
  {
  }

  lemma StringNodeIs(lex: Walk.Lexer, q: Quote, depth: nat, n: Node)
    requires Faithful(lex) && depth <= Walk.MAX_ENCODED && Interior(q.raw)
    requires SameSpelledNode(StringNode(lex, q, depth), n)
    ensures !n.Text?
  {
    hide Faithful, Interior, Nodes, StringsIn;
  }

  lemma NoneReread(lex: Walk.Lexer, gap: bytes, ns: seq<Node>, text': bytes, at: nat, depth: nat)
    requires Faithful(lex) && depth <= Walk.MAX_ENCODED && SameSpelled([Text(gap)], ns) && Good(ns)
    requires at <= |text'| && text'[at..] == Render(After(ns))
    ensures RawsOf(After(ns)) == [] && Render(After(ns)) == gap
    ensures Rereads(After(ns), Nodes(lex, text', [], at, depth))
  {
    hide Faithful;
    assert [Text(gap)][1..] == [];
    TextSpelled(gap, ns[0]);
    assert ns == [Text(gap)];
    TextAfter(gap);
    assert After(ns) == [Text(gap)] + After([]) && After(ns)[1..] == [];
    assert Render(After(ns)) == gap + Render([]);
  }

  lemma SuffixSlice(s: bytes, at: nat, i: nat, j: nat)
    requires i <= j && at + j <= |s|
    ensures s[at..][i..j] == s[at + i..at + j]
  {
  }

  /** The string behind the gap stands quoted in the new text. */
  lemma NewPlace(text: bytes, at: nat, gap: bytes, raw: bytes, more: bytes)
    requires at <= |text| && text[at..] == gap + (Quoted(raw) + more)
    ensures
      var start := at + |gap|;
      && QuotedAt(text, start, raw) && start + |raw| + 2 <= |text|
      && text[at..start] == gap && text[start + |raw| + 2..] == more
  {
    var s, start := text[at..], at + |gap|;
    assert forall k :: 0 <= k < |s| ==> text[at + k] == s[k];
    assert s[|gap|..] == Quoted(raw) + more && |Quoted(raw)| == |raw| + 2;
    assert text[start..] == Quoted(raw) + more;
    assert (Quoted(raw) + more)[1..1 + |raw|] == raw && (Quoted(raw) + more)[|raw| + 2..] == more;
    SuffixSlice(text, start, 1, 1 + |raw|);
    SuffixSlice(text, start, |raw| + 2, |text| - start);
    assert text[start + 1 + |raw|] == text[start..][1 + |raw|];
  }

  lemma RequotesStep(strings: seq<Quote>, raws: seq<bytes>, from: nat, at: nat)
    requires |raws| == |strings| && strings != [] && from <= strings[0].start
    ensures
      var q, start := strings[0], at + (strings[0].start - from);
      Requotes(strings, raws, from, at) ==
      [Quote(raws[0], start)] + Requotes(strings[1..], raws[1..], q.start + |q.raw| + 2, start + |raws[0]| + 2)
  {
  }

  lemma PlacedCons(text: bytes, strings: seq<Quote>, from: nat)
    requires strings != [] && from <= strings[0].start && Interior(strings[0].raw)
    requires QuotedAt(text, strings[0].start, strings[0].raw)
    requires Placed(text, strings[1..], strings[0].start + |strings[0].raw| + 2)
    ensures Placed(text, strings, from)
  {
  }

  lemma RereadTwo(gap: bytes, a: Node, rest: seq<Node>, b: Node, rest': seq<Node>)
    requires RereadNode(a, b) && Rereads(rest, rest')
    ensures Rereads([Text(gap), a] + rest, [Text(gap), b] + rest')
  {
    hide RereadNode;
    var x, y := [Text(gap), a] + rest, [Text(gap), b] + rest';
    assert x[1..] == [a] + rest && x[1..][1..] == rest && y[1..] == [b] + rest' && y[1..][1..] == rest';
    TextRereads(gap);
    assert Rereads(x[1..], y[1..]);
  }

  lemma TextRereads(gap: bytes)
    ensures RereadNode(Text(gap), Text(gap))
  {
  }

  // ------------------------------------------------------------- redacting what the walk reads

  /** t is the document that the walk reads in the text, with windows for its leaves. */
  ghost predicate ReadIn(lex: Walk.Lexer, text: bytes, t: seq<Node>)
    requires Faithful(lex)
  {
    Utf8.Valid(text) && SameSpelled(TextTree(lex, text, 0), t)
  }

  lemma {:induction false} RereadSpelledNode(a: Node, b: Node, c: Node)
    requires RereadNode(a, b) && SameSpelledNode(b, c)
    ensures RereadNode(a, c)
    decreases a
  {
    match (a, b)
    case (Nest(_, x), Nest(_, y)) => RereadSpelled(x, y, c.inner);
    case _ =>
  }

  lemma {:induction false} RereadSpelled(a: seq<Node>, b: seq<Node>, c: seq<Node>)
    requires Rereads(a, b) && SameSpelled(b, c)
    ensures Rereads(a, c)
    decreases a
  {
    hide RereadNode, SameSpelledNode;
    if a != [] {
      RereadSpelledNode(a[0], b[0], c[0]);
      RereadSpelled(a[1..], b[1..], c[1..]);
    }
  }

  lemma LeavesSpelled(leaves: seq<Leaf>, a: seq<Node>, b: seq<Node>)
    requires LeavesOf(leaves, a) && SameSpelled(a, b)
    ensures LeavesOf(leaves, b)
  {
    hide Chains, SameSpelled, LeafAt;
    SpelledChains(a, b, 0, Root);
  }

  /**
   The walk of a body and of what is made of it. The leaves found are those of the document
   read in it; after any edit of its strings the body is walked again, and is read as the
   edited document, in which a string may be opened that was not.
   */
  lemma EditedWalk(lex: Walk.Lexer, ns: seq<Node>)
    requires Faithful(lex) && Stable(lex) && Good(ns) && ReadIn(lex, Render(ns), ns)
             && WalkLeaves(lex, Render(ns)).Some?
    ensures LeavesOf(WalkLeaves(lex, Render(ns)).value, ns)
    ensures Utf8.Valid(Render(After(ns))) && WalkLeaves(lex, Render(After(ns))).Some?
    ensures
      var t := TextTree(lex, Render(After(ns)), 0);
      Good(t) && LeavesOf(WalkLeaves(lex, Render(After(ns))).value, t) && Rereads(After(ns), t)
  {
    hide Faithful, Stable, Good, Render, After, LeavesOf, SameSpelled, WalkLeaves, ContentOf, Utf8.Valid, TextTree;
    hide Rereads;
    hide StringsIn;
    var body := Render(ns);
    WalkReadsTree(lex, body);
    LeavesSpelled(WalkLeaves(lex, body).value, TextTree(lex, body, 0), ns);
    InnerReread(lex, body, 0, ns);
    WalkReadsTree(lex, Render(After(ns)));
  }

  /** Where no string is opened that was not, the leaves found are those of the edited document. */
  lemma {:induction false} UnopenedNode(a: Node, b: Node, at: nat, p: Chain)
    requires RereadNode(a, b) && SameNode(a, b)
    ensures NodeChains(a, at, p) == NodeChains(b, at, p) && NodeText(a) == NodeText(b)
    decreases a
  {
    match a
    case Nest(raw, inner) => Unopened(inner, b.inner, 0, Tok(raw, at, p));
    case _ =>
  }

  lemma {:induction false} Unopened(a: seq<Node>, b: seq<Node>, at: nat, p: Chain)
    requires Rereads(a, b) && SameSkeleton(a, b)
    ensures Chains(a, at, p) == Chains(b, at, p)
    decreases a
  {
    hide RereadNode, SameNode, NodeChains, NodeText;
    if a != [] {
      UnopenedNode(a[0], b[0], at, p);
      Unopened(a[1..], b[1..], at + |NodeText(a[0])|, p);
    }
  }

  lemma EditedAsIs(lex: Walk.Lexer, ns: seq<Node>)
    requires Faithful(lex) && Stable(lex) && Good(ns) && ReadIn(lex, Render(ns), ns)
             && WalkLeaves(lex, Render(ns)).Some?
    requires Utf8.Valid(Render(After(ns))) && SameSkeleton(After(ns), TextTree(lex, Render(After(ns)), 0))
    ensures WalkLeaves(lex, Render(After(ns))).Some? && LeavesOf(WalkLeaves(lex, Render(After(ns))).value, After(ns))
  {
    hide Faithful, Stable, Good, Render, After, SameSkeleton, WalkLeaves, TextTree, Rereads, Chains, Utf8.Valid, ReadIn;
    EditedWalk(lex, ns);
    Unopened(After(ns), TextTree(lex, Render(After(ns)), 0), 0, Root);
  }

  /**
   RedactReread for this model's own walk. What it asks of the two walks holds here: ns is the
   document read in the body and t the document read in the redacted body, with the windows
   that restoring finds.
   */
  lemma {:induction false} WalkRedactReread(
    lex: Walk.Lexer, digest: DigestFn, m: Maps, subs: seq<Substitution>, ns: seq<Node>, leaves: seq<Leaf>,
    leaves1: seq<Leaf>, t: seq<Node>, pairs: seq<Pair>, excluded: set<bytes>)
    requires Faithful(lex) && Stable(lex) && Minted(digest, m) && Planned(digest, m, subs, 0).1.Some?
    requires Good(ns) && ReadIn(lex, Render(ns), ns) && WalkLeaves(lex, Render(ns)) == Some(leaves)
    requires |leaves| == |Subs(ns)|
    requires multiset(EditsOf(Planned(digest, m, subs, 0).1.value)) == multiset(PlainEdits(leaves, Subs(ns)))
    requires DistinctPairs(pairs) && forall p :: p in pairs ==> IsToken(p.placeholder)
    requires
      var reverse := Planned(digest, m, subs, 0).0.reverse;
      forall p :: p in reverse ==> Pair(p, reverse[p]) in pairs
    requires forall sub :: sub in subs && Locatable(sub) ==> SecretOf(sub) !in excluded
    requires
      var redacted := Applied(Render(ns), EditsOf(Planned(digest, m, subs, 0).1.value));
      WalkLeaves(lex, redacted) == Some(leaves1) && ReadIn(lex, redacted, t)
    requires Good(t) && AllInserted(leaves1, Live(pairs, excluded), Subs(t)) && AtInserted(ns, t)
    requires
      var redacted := Applied(Render(ns), EditsOf(Planned(digest, m, subs, 0).1.value));
      && Nonempty(Live(pairs, excluded))
      && NoneOf(Applied(redacted, AllRestores(leaves1, Live(pairs, excluded))), Live(pairs, excluded))
    ensures
      var redacted := Applied(Render(ns), EditsOf(Planned(digest, m, subs, 0).1.value));
      var restored := Backfilled(b => WalkLeaves(lex, b), Live(pairs, excluded), redacted).0;
      var plain := Unescaped(RereadSecrets(Undo(ns), t));
      && (SameValues(ns, restored) <==> plain)
      && (plain && Spelled(ns) ==> restored == Render(ns))
      && (restored == Render(ns) ==> plain)
  {
    hide Faithful, Stable, Good, LeavesOf, Subs, Undo, After, Render, Applied, PlainEdits, Planned, Minted, Backfilled;
    hide AllRestores, NoneOf, Spelled, DistinctPairs, SameValues, AllInserted, IsToken, Rereads, AtInserted, WalkLeaves;
    hide Unescaped, RereadSecrets, TextTree, SameSpelled, Utf8.Valid, TokenTree, AsciiTree, RecordedWindows;
    var (m1, owned) := Planned(digest, m, subs, 0);
    var edits := EditsOf(owned.value);
    EditedWalk(lex, ns);
    PlannedRecords(digest, m, subs, 0);
    EditsRecorded(digest, m, subs, excluded);
    WindowsRecorded(m1, leaves, Subs(ns), edits, pairs, excluded);
    RedactsTo(ns, leaves, edits);
    LeavesSpelled(leaves1, TextTree(lex, Render(After(ns)), 0), t);
    RereadSpelled(After(ns), TextTree(lex, Render(After(ns)), 0), t);
    RedactReread(digest, m, subs, ns, leaves, b => WalkLeaves(lex, b), leaves1, t, pairs, excluded);
  }

  // ------------------------------------------------------------------ a decoder with these laws

  lemma OneStringContent(raw: bytes)
    requires Interior(raw)
    ensures ContentOf(StringLexer, Quoted(raw)) == Some(Content([], [Quote(raw, 0)]))
  {
    hide Interior, StringLexer, Quoted;
    LexedQuoted(raw);
    var tokens := StringLexer(Quoted(raw)).tokens;
    assert tokens == [Walk.Text(raw, 0)] && tokens[1..] == [];
  }

  lemma StringText(text: bytes)
    requires ContentOf(StringLexer, text).Some?
    ensures |text| >= 2 && text == Quoted(text[1..|text| - 1]) && Interior(text[1..|text| - 1])
  {
    hide Interior;
  }

  /** The decoder of documents that are one string is one. */
  lemma StringLexerLaws()
    ensures Faithful(StringLexer) && Stable(StringLexer)
  {
    hide Interior, Quoted, StringLexer, ContentOf, Utf8.Valid;
    forall text | Utf8.Valid(text) ensures InText(text, StringLexer(text).tokens, 0) {
      LexedInText(text);
    }
    forall text, raws
      | Utf8.Valid(text) && ContentOf(StringLexer, text).Some? && |raws| == |StringsIn(StringLexer, text)|
        && Interiors(raws)
      ensures
        var text' := Requoted(text, StringsIn(StringLexer, text), raws, 0);
        && ContentOf(StringLexer, text').Some?
        && StringsIn(StringLexer, text') == Requotes(StringsIn(StringLexer, text), raws, 0, 0)
    {
      StringText(text);
      var raw := text[1..|text| - 1];
      OneStringContent(raw);
      assert raws == [raws[0]] && raws[0] in raws;
      OneStringContent(raws[0]);
      OneRequoted(text, raw, raws[0]);
    }
  }

  lemma LexedInText(text: bytes)
    ensures InText(text, StringLexer(text).tokens, 0)
  {
    hide Interior;
    var tokens := StringLexer(text).tokens;
    if tokens != [] {
      assert tokens[1..] == [];
    }
  }

  lemma OneRequoted(text: bytes, raw: bytes, now: bytes)
    requires text == Quoted(raw)
    ensures Requoted(text, [Quote(raw, 0)], [now], 0) == Quoted(now)
    ensures Requotes([Quote(raw, 0)], [now], 0, 0) == [Quote(now, 0)]
  {
    assert [Quote(raw, 0)][1..] == [] && [now][1..] == [];
    assert Requoted(text, [], [], |raw| + 2) == text[|raw| + 2..] == [];
    assert text[0..0] == [] && [] + (Quoted(now) + []) == Quoted(now);
    assert Requotes([], [], |raw| + 2, |now| + 2) == [];
  }
}
