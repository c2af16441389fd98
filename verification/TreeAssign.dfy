/**
 Editing any chosen windows of a document's leaves: the result is a document of the same
 skeleton whose leaves, and only they, have changed. `Reads` is the form in which the laws
 about streams state it.
 */
module TreeAssign {
  import opened Bytes
  import opened Lens
  import opened LensPut
  import opened Splice
  import opened Apply
  import opened ApplyLaws
  import opened Tree
  import opened TreeLaws
  import opened TreeApply

  /** Two documents that differ in their string values only. */
  ghost predicate SameNode(a: Node, b: Node)
    decreases a
  {
    match (a, b)
    case (Text(s), Text(t)) => s == t
    case (Str(_, _), Str(_, _)) => true
    case (Nest(_, inner), Nest(_, inner')) => SameSkeleton(inner, inner')
    case _ => false
  }

  ghost predicate SameSkeleton(a: seq<Node>, b: seq<Node>)
    decreases a
  {
    if a == [] then b == [] else b != [] && SameNode(a[0], b[0]) && SameSkeleton(a[1..], b[1..])
  }

  /**
   `content` is the document `value` with these texts as its leaf values: same skeleton, each
   string of it well formed.
   */
  ghost predicate Reads(value: bytes, leaves: seq<Leaf>, content: bytes, texts: seq<bytes>) {
    exists ns, ns' ::
      && Good(ns) && Render(ns) == value && LeavesOf(leaves, ns)
      && SameSkeleton(ns, ns') && Good(ns') && Render(ns') == content && Values(ns') == texts
  }

  function AssignNode(n: Node, s: seq<seq<Window>>): Node
    requires |s| == |NodeSubs(n)|
    decreases n
  {
    match n
    case Text(_) => n
    case Str(raw, _) => Str(raw, s[0])
    case Nest(raw, inner) => Nest(raw, Assign(inner, s))
  }

  /** The document with these windows for its leaves. */
  function Assign(ns: seq<Node>, s: seq<seq<Window>>): seq<Node>
    requires |s| == |Subs(ns)|
    decreases ns
  {
    if ns == [] then [] else
    var k := |NodeSubs(ns[0])|;
    [AssignNode(ns[0], s[..k])] + Assign(ns[1..], s[k..])
  }

  ghost predicate AllEdits(values: seq<bytes>, s: seq<seq<Window>>) {
    |values| == |s| && forall i :: 0 <= i < |s| ==> Edits(values[i], s[i])
  }

  lemma {:induction false} CountNode(n: Node)
    ensures |NodeSubs(n)| == |NodeValues(n)|
    decreases n
  {
    match n
    case Nest(_, inner) => Count(inner);
    case _ =>
  }

  lemma {:induction false} Count(ns: seq<Node>)
    ensures |Subs(ns)| == |Values(ns)|
    decreases ns
  {
    if ns != [] {
      CountNode(ns[0]);
      Count(ns[1..]);
    }
  }

  lemma EditsSplit(a: seq<bytes>, b: seq<bytes>, s: seq<seq<Window>>)
    requires AllEdits(a + b, s)
    ensures |a| <= |s| && AllEdits(a, s[..|a|]) && AllEdits(b, s[|a|..])
  {
    hide Edits;
    forall i | 0 <= i < |a| ensures Edits(a[i], s[..|a|][i]) {
      assert (a + b)[i] == a[i];
    }
    forall i | 0 <= i < |b| ensures Edits(b[i], s[|a|..][i]) {
      assert (a + b)[|a| + i] == b[i];
    }
  }

  lemma {:induction false} AssignNodeGood(n: Node, s: seq<seq<Window>>)
    requires GoodNode(n) && AllEdits(NodeValues(n), s)
    ensures |s| == |NodeSubs(n)|
    ensures
      var n' := AssignNode(n, s);
      && GoodNode(n') && NodeText(n') == NodeText(n) && SameNode(n, n')
      && NodeSubs(n') == s && NodeValues(n') == NodeValues(n)
      && forall at, p :: NodeChains(n', at, p) == NodeChains(n, at, p)
    decreases n
  {
    hide Edits, Interior, Decode;
    CountNode(n);
    match n
    case Text(_) =>
    case Str(raw, subs) =>
      assert s == [s[0]];
    case Nest(raw, inner) => AssignGood(inner, s);
  }

  lemma {:induction false} AssignGood(ns: seq<Node>, s: seq<seq<Window>>)
    requires Good(ns) && AllEdits(Values(ns), s)
    ensures |s| == |Subs(ns)|
    ensures
      var r := Assign(ns, s);
      && Good(r) && Render(r) == Render(ns) && SameSkeleton(ns, r)
      && Subs(r) == s && Values(r) == Values(ns)
      && forall at, p :: Chains(r, at, p) == Chains(ns, at, p)
    decreases ns
  {
    hide GoodNode, NodeText, SameNode, NodeSubs, NodeValues, NodeChains, AssignNode, AllEdits;
    Count(ns);
    if ns == [] {
      NoneLeft(s) by { assert AllEdits(Values(ns), s); }
    } else {
      CountNode(ns[0]);
      EditsSplit(NodeValues(ns[0]), Values(ns[1..]), s);
      AssignNodeGood(ns[0], s[..|NodeValues(ns[0])|]);
      AssignGood(ns[1..], s[|NodeValues(ns[0])|..]);
      var r := Assign(ns, s);
      assert r[0] == AssignNode(ns[0], s[..|NodeValues(ns[0])|]);
      assert r[1..] == Assign(ns[1..], s[|NodeValues(ns[0])|..]);
    }
  }

  lemma NoneLeft(s: seq<seq<Window>>)
    requires AllEdits([], s)
    ensures s == []
  {
  }

  lemma {:induction false} AfterNodeSame(n: Node)
    requires GoodNode(n)
    ensures SameNode(n, NodeAfter(n))
    decreases n
  {
    match n
    case Nest(_, inner) => AfterSame(inner);
    case _ =>
  }

  lemma {:induction false} AfterSame(ns: seq<Node>)
    requires Good(ns)
    ensures SameSkeleton(ns, After(ns))
    decreases ns
  {
    hide GoodNode, NodeAfter, SameNode;
    if ns != [] {
      AfterNodeSame(ns[0]);
      AfterSame(ns[1..]);
      assert After(ns)[0] == NodeAfter(ns[0]) && After(ns)[1..] == After(ns[1..]);
    }
  }

  lemma {:induction false} SameNodeTrans(a: Node, b: Node, c: Node)
    requires SameNode(a, b) && SameNode(b, c)
    ensures SameNode(a, c)
    decreases a
  {
    match a
    case Nest(_, inner) => SameTrans(inner, b.inner, c.inner);
    case _ =>
  }

  lemma {:induction false} SameTrans(a: seq<Node>, b: seq<Node>, c: seq<Node>)
    requires SameSkeleton(a, b) && SameSkeleton(b, c)
    ensures SameSkeleton(a, c)
    decreases a
  {
    hide SameNode;
    if a != [] {
      SameNodeTrans(a[0], b[0], c[0]);
      SameTrans(a[1..], b[1..], c[1..]);
    }
  }

  lemma {:induction false} NodeChainValues(n: Node, at: nat, p: Chain)
    requires GoodNode(n)
    ensures
      var cs := NodeChains(n, at, p);
      |cs| == |NodeValues(n)| && forall i :: 0 <= i < |cs| ==> cs[i].Tok? && Decode(cs[i].raw) == NodeValues(n)[i]
    decreases n
  {
    hide Decode;
    match n
    case Nest(raw, inner) => ChainValues(inner, 0, Tok(raw, at, p));
    case _ =>
  }

  /** The leaves' places spell the leaves' values. */
  lemma {:induction false} ChainValues(ns: seq<Node>, at: nat, p: Chain)
    requires Good(ns)
    ensures
      var cs := Chains(ns, at, p);
      |cs| == |Values(ns)| && forall i :: 0 <= i < |cs| ==> cs[i].Tok? && Decode(cs[i].raw) == Values(ns)[i]
    decreases ns
  {
    hide GoodNode, NodeChains, NodeValues, NodeText, Decode;
    if ns != [] {
      NodeChainValues(ns[0], at, p);
      ChainValues(ns[1..], at + |NodeText(ns[0])|, p);
    }
  }

  lemma LeafValues(ns: seq<Node>, leaves: seq<Leaf>)
    requires Good(ns) && LeavesOf(leaves, ns)
    ensures |leaves| == |Values(ns)| == |Subs(ns)|
    ensures forall i :: 0 <= i < |leaves| ==> leaves[i].value == Values(ns)[i]
  {
    hide Good, Values, Chains, Decode, Subs;
    ChainValues(ns, 0, Root);
    Count(ns);
    assert forall i :: 0 <= i < |leaves| ==> LeafAt(leaves[i], Chains(ns, 0, Root)[i]);
  }

  /** The leaf's text with its windows replaced. */
  ghost predicate TextsAfter(leaves: seq<Leaf>, s: seq<seq<Window>>, texts: seq<bytes>) {
    && |leaves| == |s| == |texts|
    && forall i :: 0 <= i < |leaves| ==>
         && Edits(leaves[i].value, s[i])
         && ValueReplaced(leaves[i].value, s[i], texts[i])
  }

  /** The windows of the leaves, in the body. */
  lemma AssignedOrdered(ns: seq<Node>, leaves: seq<Leaf>, s: seq<seq<Window>>, texts: seq<bytes>)
    requires Good(ns) && LeavesOf(leaves, ns) && TextsAfter(leaves, s, texts)
    ensures
      var ws := Windows(Render(ns), TreeEdits(leaves, s));
      Ordered(ws, 0, |Render(ns)|) && ApplyLaws.Sized(Render(ns), ws)
  {
    hide Good, Chains, LeafAt, Windows, Render, Ordered, Edits, Values, Subs, SameSkeleton, Assign;
    LeafValues(ns, leaves);
    assert AllEdits(Values(ns), s);
    AssignGood(ns, s);
    var r := Assign(ns, s);
    assert LeavesOf(leaves, r);
    WindowsOfTree(r, leaves);
    AfterText(r);
    EditsSized(Render(r), AllWins(r));
  }

  /** A result of Apply that replaces them reads as the texts they make. */
  lemma AssignedRead(ns: seq<Node>, leaves: seq<Leaf>, edits: seq<Edit>, s: seq<seq<Window>>, texts: seq<bytes>)
    requires Good(ns) && LeavesOf(leaves, ns) && TextsAfter(leaves, s, texts)
    requires Ordered(Windows(Render(ns), TreeEdits(leaves, s)), 0, |Render(ns)|)
    requires Applied(Render(ns), edits) == Splices(Render(ns), Windows(Render(ns), TreeEdits(leaves, s)), 0)
    ensures Reads(Render(ns), leaves, Applied(Render(ns), edits), texts)
  {
    hide Good, Chains, LeafAt, Windows, Render, Splices, Ordered, Edits, Values, Subs, After, SameSkeleton, Assign;
    LeafValues(ns, leaves);
    assert AllEdits(Values(ns), s);
    AssignGood(ns, s);
    var r := Assign(ns, s);
    assert LeavesOf(leaves, r);
    WindowsOfTree(r, leaves);
    AfterText(r);
    ValuesAfter(r);
    AfterSame(r);
    SameTrans(ns, r, After(r));
    assert forall i :: 0 <= i < |s| ==> ValueReplaced(Values(r)[i], s[i], Values(After(r))[i]);
    assert Values(After(r)) == texts;
  }

  /**
   Apply, on edits that stand for the windows s of the leaves (in any order, no-op edits
   among them): the document reads as before, with these windows replaced in these leaves.
   */
  lemma EditsRead(ns: seq<Node>, leaves: seq<Leaf>, edits: seq<Edit>, s: seq<seq<Window>>, texts: seq<bytes>)
    requires Good(ns) && LeavesOf(leaves, ns) && TextsAfter(leaves, s, texts)
    requires multiset(Windows(Render(ns), edits)) == multiset(Windows(Render(ns), TreeEdits(leaves, s)))
    ensures Reads(Render(ns), leaves, Applied(Render(ns), edits), texts)
  {
    hide Good, LeavesOf, Windows, Render, Splices, Ordered, Edits, ValueReplaced, Reads;
    AssignedOrdered(ns, leaves, s, texts);
    ApplyDisjoint(Render(ns), edits, Windows(Render(ns), TreeEdits(leaves, s)));
    AssignedRead(ns, leaves, edits, s, texts);
  }
}
