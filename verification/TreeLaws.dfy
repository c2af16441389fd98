/** Editing every leaf of a nested document at once edits exactly the leaves' values. */
module TreeLaws {
  import opened Bytes
  import opened Lens
  import opened LensLaws
  import opened LensPut
  import opened LensChain
  import opened Splice
  import opened Tree

  // ------------------------------------------------------------------- the edited text

  lemma QuotedSplices(raw: bytes, ws: seq<Window>)
    requires Ordered(ws, 0, |raw|)
    ensures Ordered(Shifted(ws, 1), 0, |Quoted(raw)|)
    ensures Splices(Quoted(raw), Shifted(ws, 1), 0) == Quoted(Splices(raw, ws, 0))
  {
    hide Splices, Ordered;
    SplicesLeft(raw, [QUOTE], ws, 0);
    SplicesShift([QUOTE], raw + [QUOTE], ws, 0);
    SplicesFront(Quoted(raw), Shifted(ws, 1), 0, 1);
    assert Quoted(raw)[0..1] == [QUOTE];
  }

  lemma QuotedAfter(raw: bytes, ws: seq<Window>)
    requires Interior(raw) && Edits(Decode(raw), ws)
    ensures Ordered(QuotedWins(raw, ws), 0, |Quoted(raw)|)
    ensures Quoted(RawAfter(raw, ws)) == Splices(Quoted(raw), QuotedWins(raw, ws), 0)
  {
    hide Interior, Decode, Edits, Splices, Ordered;
    AlignedStart(raw);
    LevelPut(raw, ws, 0);
    QuotedSplices(raw, Lift(raw, ws));
  }

  lemma {:induction false} NodeAfterText(n: Node)
    requires GoodNode(n)
    ensures GoodNode(NodeAfter(n))
    ensures Ordered(NodeWins(n), 0, |NodeText(n)|)
    ensures NodeText(NodeAfter(n)) == Splices(NodeText(n), NodeWins(n), 0)
    decreases n
  {
    hide Interior, Decode, Splices, Quoted;
    EditsFromStart(NodeText(n), NodeWins(n));
    match n
    case Text(text) =>
      SplicesEmpty(text, 0);
    case Str(raw, subs) =>
      QuotedAfter(raw, subs);
    case Nest(raw, inner) =>
      QuotedAfter(raw, AllWins(inner));
      AfterText(inner);
  }

  /** The edited document is well formed, and its text is the old text with the windows replaced. */
  lemma {:induction false} AfterText(ns: seq<Node>)
    requires Good(ns)
    ensures Good(After(ns))
    ensures Ordered(AllWins(ns), 0, |Render(ns)|)
    ensures Render(After(ns)) == Splices(Render(ns), AllWins(ns), 0)
    decreases ns
  {
    hide Splices, Ordered, NodeText, GoodNode, NodeWins, NodeAfter, Edits, Inside;
    EditsFromStart(Render(ns), AllWins(ns));
    if ns == [] {
      SplicesEmpty([], 0);
    } else {
      NodeAfterText(ns[0]);
      AfterText(ns[1..]);
      SplicesConcat(NodeText(ns[0]), NodeWins(ns[0]), Render(ns[1..]), AllWins(ns[1..]), 0);
      assert After(ns)[0] == NodeAfter(ns[0]) && After(ns)[1..] == After(ns[1..]);
    }
  }

  // ------------------------------------------------------------------ the edited values

  function NodeValues(n: Node): seq<bytes>
    decreases n
  {
    match n
    case Text(_) => []
    case Str(raw, _) => [Decode(raw)]
    case Nest(_, inner) => Values(inner)
  }

  /** The decoded leaf values, in document order. */
  function Values(ns: seq<Node>): seq<bytes>
    decreases ns
  {
    if ns == [] then [] else NodeValues(ns[0]) + Values(ns[1..])
  }

  function NodeSubs(n: Node): seq<seq<Window>>
    decreases n
  {
    match n
    case Text(_) => []
    case Str(_, subs) => [subs]
    case Nest(_, inner) => Subs(inner)
  }

  /** The windows of the leaves, in document order. */
  function Subs(ns: seq<Node>): seq<seq<Window>>
    decreases ns
  {
    if ns == [] then [] else NodeSubs(ns[0]) + Subs(ns[1..])
  }

  /** `after` is `before` with each leaf's windows replaced in its value. */
  ghost predicate ValuesReplaced(before: seq<bytes>, subs: seq<seq<Window>>, after: seq<bytes>) {
    && |before| == |subs| == |after|
    && forall i :: 0 <= i < |before| ==> ValueReplaced(before[i], subs[i], after[i])
  }

  ghost predicate ValueReplaced(before: bytes, subs: seq<Window>, after: bytes) {
    Ordered(subs, 0, |before|) && after == Splices(before, subs, 0)
  }

  lemma {:induction false} NodeValuesAfter(n: Node)
    requires GoodNode(n)
    ensures ValuesReplaced(NodeValues(n), NodeSubs(n), NodeValues(NodeAfter(n)))
    decreases n
  {
    hide Splices, Interior, Decode, Ordered, Edits;
    match n
    case Text(_) =>
    case Str(raw, subs) =>
      assert ValueReplaced(Decode(raw), subs, Decode(RawAfter(raw, subs)));
    case Nest(raw, inner) =>
      ValuesAfter(inner);
  }

  /** Every leaf decodes to its old value with its own windows replaced, and nothing else. */
  lemma {:induction false} ValuesAfter(ns: seq<Node>)
    requires Good(ns)
    ensures ValuesReplaced(Values(ns), Subs(ns), Values(After(ns)))
    decreases ns
  {
    hide GoodNode, NodeAfter, NodeValues, NodeSubs, ValueReplaced, ValuesReplaced;
    if ns != [] {
      NodeValuesAfter(ns[0]);
      ValuesAfter(ns[1..]);
      assert After(ns)[0] == NodeAfter(ns[0]) && After(ns)[1..] == After(ns[1..]);
      ReplacedAppend(NodeValues(ns[0]), NodeSubs(ns[0]), NodeValues(NodeAfter(ns[0])),
                     Values(ns[1..]), Subs(ns[1..]), Values(After(ns[1..])));
    } else {
      NothingReplaced();
    }
  }

  lemma NothingReplaced()
    ensures ValuesReplaced([], [], [])
  {
  }

  lemma ReplacedAppend(
    a: seq<bytes>, s: seq<seq<Window>>, a': seq<bytes>,
    b: seq<bytes>, t: seq<seq<Window>>, b': seq<bytes>)
    requires ValuesReplaced(a, s, a') && ValuesReplaced(b, t, b')
    ensures ValuesReplaced(a + b, s + t, a' + b')
  {
    hide ValueReplaced;
    forall i | 0 <= i < |a + b| ensures ValueReplaced((a + b)[i], (s + t)[i], (a' + b')[i]) {
      if i >= |a| {
        assert ValueReplaced(b[i - |a|], t[i - |a|], b'[i - |a|]);
      }
    }
  }

  // ------------------------------------------------------------- the leaves' raw places

  function NodeChains(n: Node, at: nat, parent: Chain): seq<Chain>
    decreases n
  {
    match n
    case Text(_) => []
    case Str(raw, _) => [Tok(raw, at, parent)]
    case Nest(raw, inner) => Chains(inner, 0, Tok(raw, at, parent))
  }

  /** The raw places of the leaves of ns, which stands at `at` in the parent's document. */
  function Chains(ns: seq<Node>, at: nat, parent: Chain): seq<Chain>
    decreases ns
  {
    if ns == [] then [] else
    NodeChains(ns[0], at, parent) + Chains(ns[1..], at + |NodeText(ns[0])|, parent)
  }

  /** ns stands at `at` in doc. */
  ghost predicate StandsAt(ns: seq<Node>, at: nat, doc: bytes) {
    at + |Render(ns)| <= |doc| && doc[at..at + |Render(ns)|] == Render(ns)
  }

  ghost predicate AllEditable(doc: bytes, ws: seq<Window>) {
    forall i :: 0 <= i < |ws| ==> Editable(doc, ws[i])
  }

  /** The windows of a document, as windows of the body. */
  ghost function Up(parent: Chain, body: bytes, ws: seq<Window>): (r: seq<Window>)
    requires Located(parent, body)
    requires AllEditable(DocOf(parent, body), ws)
    ensures |r| == |ws|
    ensures forall i :: 0 <= i < |ws| ==> r[i] == BodyWindow(parent, body, ws[i])
  {
    assert forall i :: 0 <= i < |ws| ==> Editable(DocOf(parent, body), ws[i]);
    seq(|ws|, i requires 0 <= i < |ws| => BodyWindow(parent, body, ws[i]))
  }

  /** The body windows of leaves' windows, leaf by leaf. */
  ghost function LeafWins(cs: seq<Chain>, subs: seq<seq<Window>>, body: bytes): seq<Window>
    requires LeavesLocated(cs, subs, body)
  {
    if cs == [] then [] else
    Up(cs[0], body, subs[0]) + LeafWins(cs[1..], subs[1..], body)
  }

  ghost predicate LeavesLocated(cs: seq<Chain>, subs: seq<seq<Window>>, body: bytes) {
    && |cs| == |subs|
    && (forall i :: 0 <= i < |cs| ==> LeafLocated(cs[i], subs[i], body))
  }

  ghost predicate LeafLocated(c: Chain, subs: seq<Window>, body: bytes) {
    c.Tok? && Located(c, body) && Edits(Decode(c.raw), subs)
  }

  lemma LeafReady(c: Chain, subs: seq<Window>, body: bytes)
    requires LeafLocated(c, subs, body)
    ensures Located(c, body) && AllEditable(DocOf(c, body), subs)
  {
    hide Located, Editable;
  }

  lemma LeafWinsStep(cs: seq<Chain>, subs: seq<seq<Window>>, body: bytes)
    requires LeavesLocated(cs, subs, body)
    ensures cs == [] ==> LeafWins(cs, subs, body) == []
    ensures cs != [] ==>
              && Located(cs[0], body) && AllEditable(DocOf(cs[0], body), subs[0])
              && LeavesLocated(cs[1..], subs[1..], body)
              && LeafWins(cs, subs, body) == Up(cs[0], body, subs[0]) + LeafWins(cs[1..], subs[1..], body)
  {
    hide Located, AllEditable, Interior, Decode, LeafLocated;
    if cs != [] {
      LeafReady(cs[0], subs[0], body);
    }
  }

  lemma LocatedAppend(
    a: seq<Chain>, s: seq<seq<Window>>, b: seq<Chain>, t: seq<seq<Window>>, body: bytes)
    requires LeavesLocated(a, s, body) && LeavesLocated(b, t, body)
    ensures LeavesLocated(a + b, s + t, body)
  {
    hide LeafLocated;
  }

  lemma LeafWinsAppendStep(
    a: seq<Chain>, s: seq<seq<Window>>, b: seq<Chain>, t: seq<seq<Window>>, body: bytes)
    requires a != [] && s != []
    requires LeavesLocated(a, s, body) && LeavesLocated(b, t, body)
    requires LeavesLocated(a[1..], s[1..], body) && LeavesLocated(a[1..] + b, s[1..] + t, body)
    requires LeafWins(a[1..] + b, s[1..] + t, body) == LeafWins(a[1..], s[1..], body) + LeafWins(b, t, body)
    ensures LeavesLocated(a + b, s + t, body)
    ensures LeafWins(a + b, s + t, body) == LeafWins(a, s, body) + LeafWins(b, t, body)
  {
    hide LeafWins, LeavesLocated, Up, Located, AllEditable, DocOf;
    LocatedAppend(a, s, b, t, body);
    LeafWinsStep(a, s, body);
    LeafWinsStep(a + b, s + t, body);
    assert (a + b)[1..] == a[1..] + b && (s + t)[1..] == s[1..] + t;
    assert (a + b)[0] == a[0] && (s + t)[0] == s[0];
    Assoc(Up(a[0], body, s[0]), LeafWins(a[1..], s[1..], body), LeafWins(b, t, body));
  }

  lemma {:induction false} LeafWinsAppend(
    a: seq<Chain>, s: seq<seq<Window>>, b: seq<Chain>, t: seq<seq<Window>>, body: bytes)
    requires LeavesLocated(a, s, body) && LeavesLocated(b, t, body)
    ensures LeavesLocated(a + b, s + t, body)
    ensures LeafWins(a + b, s + t, body) == LeafWins(a, s, body) + LeafWins(b, t, body)
    decreases |a|
  {
    assert |a| == |s| && |b| == |t|;
    LeafWinsStep(a, s, body);
    hide LeafWins, LeavesLocated, Up, Located, AllEditable, DocOf;
    if a == [] {
      assert a + b == b && s + t == t;
    } else {
      LeafWinsAppend(a[1..], s[1..], b, t, body);
      LeafWinsAppendStep(a, s, b, t, body);
    }
  }

  lemma StandsApart(ns: seq<Node>, at: nat, doc: bytes)
    requires ns != [] && StandsAt(ns, at, doc)
    ensures
      var k := |NodeText(ns[0])|;
      && at + k <= |doc| && doc[at..at + k] == NodeText(ns[0])
      && StandsAt(ns[1..], at + k, doc)
  {
    hide NodeText;
    var k := |NodeText(ns[0])|;
    var text := doc[at..at + |Render(ns)|];
    assert text[..k] == doc[at..at + k];
    assert text[k..] == doc[at + k..at + |Render(ns)|];
  }

  lemma QuotedStands(raw: bytes, at: nat, doc: bytes)
    requires at + |Quoted(raw)| <= |doc| && doc[at..at + |Quoted(raw)|] == Quoted(raw)
    ensures QuotedAt(doc, at, raw)
  {
    var q := doc[at..at + |Quoted(raw)|];
    assert q[0] == doc[at] && q[|raw| + 1] == doc[at + 1 + |raw|];
    assert q[1..1 + |raw|] == raw;
    assert |q| == |raw| + 2;
    assert forall k :: 0 <= k < |q| ==> q[k] == doc[at + k];
  }

  lemma UpAppend(parent: Chain, body: bytes, a: seq<Window>, b: seq<Window>)
    requires Located(parent, body)
    requires AllEditable(DocOf(parent, body), a) && AllEditable(DocOf(parent, body), b)
    ensures AllEditable(DocOf(parent, body), a + b)
    ensures Up(parent, body, a + b) == Up(parent, body, a) + Up(parent, body, b)
  {
    hide Editable, Located, DocOf, BodyWindow;
  }

  /** Windows of the string at `at` go up through that string, or through its quoted text. */
  lemma UpThrough(raw: bytes, at: nat, parent: Chain, body: bytes, ws: seq<Window>)
    requires Located(parent, body) && Interior(raw) && QuotedAt(DocOf(parent, body), at, raw)
    requires Edits(Decode(raw), ws)
    ensures Located(Tok(raw, at, parent), body)
    ensures AllEditable(Decode(raw), ws)
    ensures
      var up := Shifted(QuotedWins(raw, ws), at);
      && AllEditable(DocOf(parent, body), up)
      && Up(Tok(raw, at, parent), body, ws) == Up(parent, body, up)
  {
    var c := Tok(raw, at, parent);
    var up := Shifted(QuotedWins(raw, ws), at);
    forall i | 0 <= i < |ws|
      ensures Editable(DocOf(parent, body), up[i])
      ensures BodyWindow(c, body, ws[i]) == BodyWindow(parent, body, up[i])
    {
      hide Interior, Decode, Editable, QuotedAt, RawOffset, Escape;
      assert Editable(Decode(raw), ws[i]);
      OutwardEditable(raw, at, DocOf(parent, body), ws[i]);
      assert up[i] == Outward(raw, at, ws[i]);
    }
  }

  lemma {:induction false} NodeUp(n: Node, at: nat, parent: Chain, body: bytes)
    requires GoodNode(n) && Located(parent, body)
    requires
      var doc, text := DocOf(parent, body), NodeText(n);
      at + |text| <= |doc| && doc[at..at + |text|] == text
    ensures LeavesLocated(NodeChains(n, at, parent), NodeSubs(n), body)
    ensures
      var up := Shifted(NodeWins(n), at);
      && AllEditable(DocOf(parent, body), up)
      && LeafWins(NodeChains(n, at, parent), NodeSubs(n), body) == Up(parent, body, up)
    decreases n
  {
    hide Interior, Decode, Editable, BodyWindow, Edits;
    match n
    case Text(_) =>
    case Str(raw, subs) =>
      QuotedStands(raw, at, DocOf(parent, body));
      UpThrough(raw, at, parent, body, subs);
      var c := Tok(raw, at, parent);
      assert LeafLocated(c, subs, body);
      assert LeafWins([c], [subs], body) == Up(c, body, subs) + LeafWins([c][1..], [subs][1..], body);
    case Nest(raw, inner) =>
      QuotedStands(raw, at, DocOf(parent, body));
      UpThrough(raw, at, parent, body, AllWins(inner));
      var doc := Decode(raw);
      assert doc[0..0 + |Render(inner)|] == Render(inner);
      ChainsUp(inner, 0, Tok(raw, at, parent), body);
      assert Shifted(AllWins(inner), 0) == AllWins(inner);
  }

  /** The windows of the body are those of the leaves, each found through its own chain. */
  lemma {:induction false} ChainsUp(ns: seq<Node>, at: nat, parent: Chain, body: bytes)
    requires Good(ns) && Located(parent, body) && StandsAt(ns, at, DocOf(parent, body))
    ensures LeavesLocated(Chains(ns, at, parent), Subs(ns), body)
    ensures
      var up := Shifted(AllWins(ns), at);
      && AllEditable(DocOf(parent, body), up)
      && LeafWins(Chains(ns, at, parent), Subs(ns), body) == Up(parent, body, up)
    decreases ns
  {
    hide Located, DocOf, Editable, NodeText, NodeWins, GoodNode, NodeChains, NodeSubs, BodyWindow, LeavesLocated;
    hide Edits, Inside, AllEditable, LeafWins;
    if ns == [] {
      NoLeaves(parent, body);
      assert Shifted(AllWins(ns), at) == [];
    } else {
      StandsApart(ns, at, DocOf(parent, body));
      var k := |NodeText(ns[0])|;
      NodeUp(ns[0], at, parent, body);
      ChainsUp(ns[1..], at + k, parent, body);
      LeafWinsAppend(NodeChains(ns[0], at, parent), NodeSubs(ns[0]),
                     Chains(ns[1..], at + k, parent), Subs(ns[1..]), body);
      var a, b := Shifted(NodeWins(ns[0]), at), Shifted(AllWins(ns[1..]), at + k);
      UpAppend(parent, body, a, b);
      ShiftedConcat(NodeWins(ns[0]), AllWins(ns[1..]), k, at);
    }
  }

  lemma NoLeaves(parent: Chain, body: bytes)
    requires Located(parent, body)
    ensures LeavesLocated([], [], body) && LeafWins([], [], body) == []
    ensures AllEditable(DocOf(parent, body), []) && Up(parent, body, []) == []
  {
  }

  lemma ShiftedConcat(a: seq<Window>, b: seq<Window>, k: nat, at: nat)
    ensures Shifted(a + Shifted(b, k), at) == Shifted(a, at) + Shifted(b, at + k)
  {
  }
}
