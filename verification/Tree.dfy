/**
 Many edits at once, over the strings of a whole document. A document is text and string
 values; a string value is a leaf, or the spelling of an inner document. Every leaf carries
 the windows of its decoded value that are to be replaced.
 */
module Tree {
  import opened Bytes
  import opened Utf8
  import opened Lens
  import opened LensLaws
  import opened LensPut
  import opened LensChain
  import opened Splice

  datatype Node =
    | Text(text: bytes)
    | Str(raw: bytes, subs: seq<Window>)
    | Nest(raw: bytes, inner: seq<Node>)

  function Quoted(raw: bytes): bytes {
    [QUOTE] + (raw + [QUOTE])
  }

  function NodeText(n: Node): bytes {
    match n
    case Text(text) => text
    case Str(raw, _) => Quoted(raw)
    case Nest(raw, _) => Quoted(raw)
  }

  function Render(ns: seq<Node>): bytes {
    if ns == [] then [] else NodeText(ns[0]) + Render(ns[1..])
  }

  ghost predicate GoodNode(n: Node)
    decreases n
  {
    match n
    case Text(_) => true
    case Str(raw, subs) => Interior(raw) && Edits(Decode(raw), subs)
    case Nest(raw, inner) => Interior(raw) && Decode(raw) == Render(inner) && Good(inner)
  }

  ghost predicate Good(ns: seq<Node>)
    decreases ns
  {
    ns == [] || (GoodNode(ns[0]) && Good(ns[1..]))
  }

  /** Windows that stop short of the end of the text. */
  ghost predicate Inside(text: bytes, ws: seq<Window>) {
    forall i :: 0 <= i < |ws| ==> ws[i].end < |text|
  }

  /** Lifted windows, as windows of the quoted string. */
  ghost function QuotedWins(raw: bytes, ws: seq<Window>): (r: seq<Window>)
    requires Interior(raw) && Edits(Decode(raw), ws)
    ensures Edits(Quoted(raw), r) && Inside(Quoted(raw), r)
    ensures r == Shifted(Lift(raw, ws), 1)
  {
    QuotedEdits(raw, ws);
    Shifted(Lift(raw, ws), 1)
  }

  lemma QuotedEdits(raw: bytes, ws: seq<Window>)
    requires Interior(raw) && Edits(Decode(raw), ws)
    ensures Edits(Quoted(raw), Shifted(Lift(raw, ws), 1))
    ensures Inside(Quoted(raw), Shifted(Lift(raw, ws), 1))
  {
    hide Interior, Decode, Editable, RawOffset, Escape;
    var outer, r := Quoted(raw), Shifted(Lift(raw, ws), 1);
    assert QuotedAt(outer, 0, raw);
    forall i | 0 <= i < |r| ensures Editable(outer, r[i]) && r[i].end < |outer| {
      assert Editable(Decode(raw), ws[i]);
      OutwardEditable(raw, 0, outer, ws[i]);
      LiftFacts(raw, ws[i]);
    }
    forall i, j | 0 <= i < j < |r|
      ensures r[i].end <= r[j].start && (r[i].repl == [] ==> r[i].end < r[j].start)
    {
      LiftOrder(raw, ws, i, j);
    }
  }

  lemma EditsConcat(s: bytes, a: seq<Window>, t: bytes, b: seq<Window>)
    requires Edits(s, a) && Inside(s, a) && Edits(t, b)
    ensures Edits(s + t, a + Shifted(b, |s|))
    ensures Inside(t, b) ==> Inside(s + t, a + Shifted(b, |s|))
  {
    hide Utf8.Valid;
    var doc, ws := s + t, a + Shifted(b, |s|);
    forall i | 0 <= i < |ws| ensures Editable(doc, ws[i]) {
      if i < |a| {
        assert Editable(s, a[i]) && a[i].end < |s|;
        assert doc[a[i].start] == s[a[i].start] && doc[a[i].end] == s[a[i].end];
      } else {
        var w := b[i - |a|];
        assert Editable(t, w);
        assert w.start < |t| && doc[w.start + |s|] == t[w.start];
        assert w.end < |t| ==> doc[w.end + |s|] == t[w.end];
      }
    }
  }

  /** The windows of a node's text that its leaves' windows stand for. */
  ghost function NodeWins(n: Node): (r: seq<Window>)
    requires GoodNode(n)
    ensures Edits(NodeText(n), r) && Inside(NodeText(n), r)
    decreases n
  {
    match n
    case Text(_) => []
    case Str(raw, subs) => QuotedWins(raw, subs)
    case Nest(raw, inner) => QuotedWins(raw, AllWins(inner))
  }

  ghost function AllWins(ns: seq<Node>): (r: seq<Window>)
    requires Good(ns)
    ensures Edits(Render(ns), r) && Inside(Render(ns), r)
    decreases ns
  {
    if ns == [] then [] else
    var first, rest := NodeWins(ns[0]), AllWins(ns[1..]);
    EditsConcat(NodeText(ns[0]), first, Render(ns[1..]), rest);
    first + Shifted(rest, |NodeText(ns[0])|)
  }

  lemma EditsFromStart(doc: bytes, ws: seq<Window>)
    requires Edits(doc, ws)
    ensures Ordered(ws, 0, |doc|)
  {
    EditsOrdered(doc, ws, 0);
  }

  /** A raw interior after its decoded windows are replaced. */
  ghost function RawAfter(raw: bytes, ws: seq<Window>): (r: bytes)
    requires Interior(raw) && Edits(Decode(raw), ws)
    ensures Ordered(ws, 0, |Decode(raw)|)
    ensures Interior(r) && Decode(r) == Splices(Decode(raw), ws, 0)
  {
    AlignedStart(raw);
    LevelPut(raw, ws, 0);
    Splices(raw, Lift(raw, ws), 0)
  }

  ghost function NodeAfter(n: Node): Node
    requires GoodNode(n)
    decreases n
  {
    match n
    case Text(_) => n
    case Str(raw, subs) => Str(RawAfter(raw, subs), [])
    case Nest(raw, inner) => Nest(RawAfter(raw, AllWins(inner)), After(inner))
  }

  /** The document with every leaf's windows replaced. */
  ghost function After(ns: seq<Node>): seq<Node>
    requires Good(ns)
    decreases ns
  {
    if ns == [] then [] else [NodeAfter(ns[0])] + After(ns[1..])
  }
}
