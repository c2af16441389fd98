/**
 Apply, over a nested document: the edits of any leaves, given in any order through RawSpan
 and RawSpelling, produce the document whose leaves have exactly those spans replaced.
 */
module TreeApply {
  import opened Bytes
  import opened Lens
  import opened LensPut
  import opened LensChain
  import opened Splice
  import opened Apply
  import opened ApplyLaws
  import opened Tree
  import opened TreeLaws

  /** The leaves of a document, as Walk reports them: value and raw place of each, in order. */
  ghost predicate LeavesOf(leaves: seq<Leaf>, ns: seq<Node>) {
    var cs := Chains(ns, 0, Root);
    && |leaves| == |cs|
    && forall i :: 0 <= i < |leaves| ==> LeafAt(leaves[i], cs[i])
  }

  predicate LeafAt(l: Leaf, c: Chain) {
    c.Tok? && l.tok == c && l.value == Decode(c.raw)
  }

  /** The edits for one leaf's windows, spelled for where the leaf stands. */
  function LeafEdits(l: Leaf, subs: seq<Window>): (es: seq<Edit>)
    ensures |es| == |subs|
    ensures forall i :: 0 <= i < |subs| ==> es[i] == EditOf(l, subs[i])
  {
    seq(|subs|, i requires 0 <= i < |subs| => EditOf(l, subs[i]))
  }

  function EditOf(l: Leaf, w: Window): Edit {
    Edit(l, w.start, w.end, RawSpelling(l.tok, w.repl))
  }

  lemma LeafEditsAppend(l: Leaf, a: seq<Window>, b: seq<Window>)
    ensures LeafEdits(l, a + b) == LeafEdits(l, a) + LeafEdits(l, b)
  {
    hide RawSpelling;
  }

  lemma OneEdit(l: Leaf, w: Window)
    ensures LeafEdits(l, [w]) == [EditOf(l, w)]
  {
  }

  function TreeEdits(leaves: seq<Leaf>, subs: seq<seq<Window>>): seq<Edit>
    requires |leaves| == |subs|
  {
    if leaves == [] then [] else LeafEdits(leaves[0], subs[0]) + TreeEdits(leaves[1..], subs[1..])
  }

  lemma EditOfWindow(l: Leaf, body: bytes, w: Window)
    requires l.tok.Tok? && l.value == Decode(l.tok.raw)
    requires Located(l.tok, body) && Editable(l.value, w)
    ensures EditWindow(body, EditOf(l, w)) == Some(BodyWindow(l.tok, body, w))
  {
    WindowIsRawSpan(l.tok, body, w);
  }

  lemma {:induction false} LeafEditsWindows(l: Leaf, body: bytes, subs: seq<Window>)
    requires LeafLocated(l.tok, subs, body) && LeafAt(l, l.tok)
    ensures Windows(body, LeafEdits(l, subs)) == Up(l.tok, body, subs)
    decreases |subs|
  {
    hide Located, Decode, EditWindow, EditOf, BodyWindow;
    var es := LeafEdits(l, subs);
    if subs == [] {
      assert es == [] && Up(l.tok, body, subs) == [];
    } else {
      EditsTail(Decode(l.tok.raw), subs);
      LeafEditsWindows(l, body, subs[1..]);
      EditOfWindow(l, body, subs[0]);
      assert es[1..] == LeafEdits(l, subs[1..]) && es[0] == EditOf(l, subs[0]);
      assert Up(l.tok, body, subs) == [BodyWindow(l.tok, body, subs[0])] + Up(l.tok, body, subs[1..]);
    }
  }

  lemma {:induction false} TreeEditsWindows(leaves: seq<Leaf>, cs: seq<Chain>, subs: seq<seq<Window>>, body: bytes)
    requires |leaves| == |cs| && LeavesLocated(cs, subs, body)
    requires forall i :: 0 <= i < |leaves| ==> LeafAt(leaves[i], cs[i])
    ensures Windows(body, TreeEdits(leaves, subs)) == LeafWins(cs, subs, body)
    decreases |leaves|
  {
    hide Located, Decode, LeafEdits, Edits;
    if leaves != [] {
      assert LeafAt(leaves[0], cs[0]) && LeafLocated(cs[0], subs[0], body);
      LeafEditsWindows(leaves[0], body, subs[0]);
      assert LeavesLocated(cs[1..], subs[1..], body);
      TreeEditsWindows(leaves[1..], cs[1..], subs[1..], body);
      WindowsAppend(body, LeafEdits(leaves[0], subs[0]), TreeEdits(leaves[1..], subs[1..]));
    }
  }

  /** The windows of the leaves' edits are the windows of the document. */
  lemma WindowsOfTree(ns: seq<Node>, leaves: seq<Leaf>)
    requires Good(ns) && LeavesOf(leaves, ns)
    ensures |leaves| == |Subs(ns)|
    ensures Windows(Render(ns), TreeEdits(leaves, Subs(ns))) == AllWins(ns)
  {
    hide Good, LeafAt, Windows, LeafWins, Chains, Subs;
    var body := Render(ns);
    assert body[0..0 + |body|] == body;
    ChainsUp(ns, 0, Root, body);
    TreeEditsWindows(leaves, Chains(ns, 0, Root), Subs(ns), body);
    assert Shifted(AllWins(ns), 0) == AllWins(ns);
    assert Up(Root, body, AllWins(ns)) == AllWins(ns);
  }

  lemma TakeOut(body: bytes, b: seq<Edit>, k: nat)
    requires k < |b|
    ensures
      var rest := b[..k] + b[k + 1..];
      && multiset(rest) == multiset(b) - multiset{b[k]}
      && multiset(Windows(body, b)) == multiset(Windows(body, [b[k]])) + multiset(Windows(body, rest))
  {
    hide Windows;
    assert b == b[..k] + ([b[k]] + b[k + 1..]);
    WindowsAppend(body, b[..k], [b[k]] + b[k + 1..]);
    WindowsAppend(body, [b[k]], b[k + 1..]);
    WindowsAppend(body, b[..k], b[k + 1..]);
  }

  lemma Without(body: bytes, b: seq<Edit>, k: nat) returns (rest: seq<Edit>)
    requires k < |b|
    ensures |rest| == |b| - 1 && multiset(rest) == multiset(b) - multiset{b[k]}
    ensures multiset(Windows(body, b)) == multiset(Windows(body, [b[k]])) + multiset(Windows(body, rest))
  {
    rest := b[..k] + b[k + 1..];
    TakeOut(body, b, k);
  }

  lemma IndexIn(a: seq<Edit>, b: seq<Edit>) returns (k: nat)
    requires a != [] && multiset(a) == multiset(b)
    ensures k < |b| && b[k] == a[0]
  {
    assert a[0] in multiset(b);
    k :| 0 <= k < |b| && b[k] == a[0];
  }

  lemma {:induction false} WindowsPermuted(body: bytes, a: seq<Edit>, b: seq<Edit>)
    requires multiset(a) == multiset(b)
    ensures multiset(Windows(body, a)) == multiset(Windows(body, b))
    decreases |a|
  {
    hide Windows;
    if a == [] {
      assert |b| == |multiset(b)|;
    } else {
      var k := IndexIn(a, b);
      var rest := Without(body, b, k);
      var first := Without(body, a, 0);
      WindowsPermuted(body, first, rest);
    }
  }

  lemma EditsSized(doc: bytes, ws: seq<Window>)
    requires Edits(doc, ws)
    ensures ApplyLaws.Sized(doc, ws)
  {
    forall w | w in ws ensures w.start < w.end <= |doc| {
      var i :| 0 <= i < |ws| && ws[i] == w;
      assert Editable(doc, ws[i]);
    }
  }

  /** Apply needs the located windows only: the edits' order does not matter. */
  lemma ApplyWindows(ns: seq<Node>, leaves: seq<Leaf>, edits: seq<Edit>)
    requires Good(ns) && LeavesOf(leaves, ns)
    requires |leaves| == |Subs(ns)|
    requires multiset(Windows(Render(ns), edits)) == multiset(Windows(Render(ns), TreeEdits(leaves, Subs(ns))))
    ensures Good(After(ns))
    ensures Applied(Render(ns), edits) == Render(After(ns))
  {
    hide Good, LeavesOf, Windows, Chains, Subs, Render, Splices, Ordered, Edits;
    var body := Render(ns);
    WindowsOfTree(ns, leaves);
    AfterText(ns);
    EditsSized(body, AllWins(ns));
    ApplyDisjoint(body, edits, AllWins(ns));
  }

  /**
   Apply on the leaves' edits, in whatever order they are given, renders the document whose
   leaves have their windows replaced; by ValuesAfter those are the only values to change.
   */
  lemma ApplyTree(ns: seq<Node>, leaves: seq<Leaf>, edits: seq<Edit>)
    requires Good(ns) && LeavesOf(leaves, ns)
    requires |leaves| == |Subs(ns)| && multiset(edits) == multiset(TreeEdits(leaves, Subs(ns)))
    ensures Good(After(ns))
    ensures Applied(Render(ns), edits) == Render(After(ns))
  {
    hide Good, LeavesOf, Windows, Chains, Subs, Render;
    WindowsPermuted(Render(ns), edits, TreeEdits(leaves, Subs(ns)));
    ApplyWindows(ns, leaves, edits);
  }
}
