/**
 Undoing the edits of a whole document. After ASCII text, placeholders say, has replaced
 windows of the leaves, the windows that undo it restore every leaf; and they restore the
 document byte for byte when the replaced text was spelled, at every level, as
 escapeJSONString spells it.
 */
module TreeInverse {
  import opened Bytes
  import opened Utf8
  import opened Lens
  import opened LensLaws
  import opened LensPut
  import opened LensChain
  import opened LensInverse
  import opened Splice
  import opened SpliceInverse
  import opened Tree
  import opened TreeLaws
  import opened TreeAssign

  ghost predicate AsciiNode(n: Node)
    decreases n
  {
    match n
    case Text(_) => true
    case Str(_, subs) => AsciiRepls(subs)
    case Nest(_, inner) => AsciiTree(inner)
  }

  /** The leaves' windows are replaced by ASCII text. */
  ghost predicate AsciiTree(ns: seq<Node>)
    decreases ns
  {
    ns == [] || (AsciiNode(ns[0]) && AsciiTree(ns[1..]))
  }

  ghost function UndoWins(raw: bytes, subs: seq<Window>): seq<Window>
    requires Edits(Decode(raw), subs)
  {
    EditsFromStart(Decode(raw), subs);
    Inverse(Decode(raw), subs, 0, 0)
  }

  /** The node after its edits, with the windows that undo them. */
  ghost function NodeUndo(n: Node): Node
    requires GoodNode(n)
    decreases n
  {
    match n
    case Text(_) => n
    case Str(raw, subs) => Str(RawAfter(raw, subs), UndoWins(raw, subs))
    case Nest(raw, inner) => Nest(RawAfter(raw, AllWins(inner)), Undo(inner))
  }

  ghost function Undo(ns: seq<Node>): seq<Node>
    requires Good(ns)
    decreases ns
  {
    if ns == [] then [] else [NodeUndo(ns[0])] + Undo(ns[1..])
  }

  lemma {:induction false} UndoRendersNode(n: Node)
    requires GoodNode(n)
    ensures NodeText(NodeUndo(n)) == NodeText(NodeAfter(n)) && SameNode(n, NodeUndo(n))
    ensures |NodeValues(n)| == |NodeValues(NodeUndo(n))| == |NodeSubs(NodeUndo(n))| == |NodeSubs(n)|
    decreases n
  {
    hide Quoted;
    CountNode(n);
    match n
    case Nest(_, inner) => UndoRenders(inner);
    case _ =>
  }

  lemma {:induction false} UndoRenders(ns: seq<Node>)
    requires Good(ns)
    ensures Render(Undo(ns)) == Render(After(ns)) && SameSkeleton(ns, Undo(ns))
    ensures |Values(ns)| == |Values(Undo(ns))| == |Subs(Undo(ns))| == |Subs(ns)|
    decreases ns
  {
    hide GoodNode, NodeText, NodeUndo, NodeAfter, NodeValues, NodeSubs, SameNode;
    Count(ns);
    if ns != [] {
      UndoRendersNode(ns[0]);
      UndoRenders(ns[1..]);
      assert Undo(ns)[0] == NodeUndo(ns[0]) && Undo(ns)[1..] == Undo(ns[1..]);
      assert After(ns)[0] == NodeAfter(ns[0]) && After(ns)[1..] == After(ns[1..]);
    }
  }

  lemma StringUndo(raw: bytes, subs: seq<Window>)
    requires Interior(raw) && Edits(Decode(raw), subs) && AsciiRepls(subs)
    ensures Interior(RawAfter(raw, subs)) && Edits(Decode(RawAfter(raw, subs)), UndoWins(raw, subs))
    ensures ValueReplaced(Decode(RawAfter(raw, subs)), UndoWins(raw, subs), Decode(raw))
  {
    hide Interior, Edits, Splices, Ordered, Utf8.Valid, Inverse;
    var v := Decode(raw);
    EditsFromStart(v, subs);
    DecodeValid(raw);
    AlignedStart(raw);
    var v1 := Splices(v, subs, 0);
    assert [] + v1 == v1;
    EditsStart(v, subs);
    InverseEdits(v, subs, 0, []);
    SpliceBack(v, subs, 0, []);
    assert v[0..] == v;
  }

  lemma EditsStart(v: bytes, ws: seq<Window>)
    requires Edits(v, ws)
    ensures ws != [] ==> 0 <= ws[0].start
  {
  }

  lemma {:induction false} UndoGoodNode(n: Node)
    requires GoodNode(n) && AsciiNode(n)
    ensures GoodNode(NodeUndo(n))
    ensures ValuesReplaced(NodeValues(NodeUndo(n)), NodeSubs(NodeUndo(n)), NodeValues(n))
    decreases n
  {
    hide Interior, Decode, Edits, AsciiRepls, ValueReplaced, Splices, Ordered;
    match n
    case Text(_) =>
    case Str(raw, subs) => StringUndo(raw, subs);
    case Nest(raw, inner) =>
      UndoGood(inner);
      UndoRenders(inner);
      AfterText(inner);
  }

  /** The undoing windows can be applied, and give every leaf its old value. */
  lemma {:induction false} UndoGood(ns: seq<Node>)
    requires Good(ns) && AsciiTree(ns)
    ensures Good(Undo(ns)) && ValuesReplaced(Values(Undo(ns)), Subs(Undo(ns)), Values(ns))
    decreases ns
  {
    hide GoodNode, AsciiNode, NodeUndo, NodeValues, NodeSubs, ValuesReplaced;
    if ns == [] {
      NothingReplaced();
    } else {
      UndoGoodNode(ns[0]);
      UndoGood(ns[1..]);
      var u := Undo(ns);
      assert u[0] == NodeUndo(ns[0]) && u[1..] == Undo(ns[1..]);
      ReplacedAppend(NodeValues(u[0]), NodeSubs(u[0]), NodeValues(ns[0]), Values(u[1..]), Subs(u[1..]),
        Values(ns[1..]));
    }
  }

  /** Editing and undoing gives back every leaf value. */
  lemma UndoneValues(ns: seq<Node>)
    requires Good(ns) && AsciiTree(ns)
    ensures Good(Undo(ns)) && Values(After(Undo(ns))) == Values(ns)
  {
    hide Good, ValueReplaced, Values, Subs, After, Undo;
    UndoGood(ns);
    ValuesAfter(Undo(ns));
    OneResult(Values(Undo(ns)), Subs(Undo(ns)), Values(ns), Values(After(Undo(ns))));
  }

  lemma OneResult(before: seq<bytes>, subs: seq<seq<Window>>, a: seq<bytes>, b: seq<bytes>)
    requires ValuesReplaced(before, subs, a) && ValuesReplaced(before, subs, b)
    ensures a == b
  {
    forall i | 0 <= i < |a| ensures a[i] == b[i] {
      assert ValueReplaced(before[i], subs[i], a[i]) && ValueReplaced(before[i], subs[i], b[i]);
    }
  }

  // --------------------------------------------------------------------------- byte for byte

  ghost predicate SpelledNode(n: Node)
    requires GoodNode(n)
    decreases n
  {
    match n
    case Text(_) => true
    case Str(raw, subs) => SpelledPlainly(raw, subs)
    case Nest(raw, inner) => SpelledPlainly(raw, AllWins(inner)) && Spelled(inner)
  }

  /** Everything that is replaced is spelled, at every level, as escapeJSONString spells it. */
  ghost predicate Spelled(ns: seq<Node>)
    requires Good(ns)
    decreases ns
  {
    ns == [] || (SpelledNode(ns[0]) && Spelled(ns[1..]))
  }

  lemma {:induction false} EscapeAscii(x: bytes)
    requires Ascii(x)
    ensures Ascii(Escape(x))
  {
    hide EscapeByte;
    if x != [] {
      EscapeByteAscii(x[0]);
      EscapeAscii(x[1..]);
      EscapeCons(x);
    }
  }

  lemma QuotedAscii(raw: bytes, ws: seq<Window>)
    requires Interior(raw) && Edits(Decode(raw), ws) && AsciiRepls(ws)
    ensures AsciiRepls(QuotedWins(raw, ws))
  {
    hide Interior, Decode, Editable, Ascii, Escape;
    var up := QuotedWins(raw, ws);
    forall i | 0 <= i < |up| ensures up[i].repl != [] && Ascii(up[i].repl) {
      assert up[i].repl == Escape(ws[i].repl);
      EscapeAscii(ws[i].repl);
      EscapeEmpty(ws[i].repl);
    }
  }

  lemma {:induction false} AsciiNodeWins(n: Node)
    requires GoodNode(n) && AsciiNode(n)
    ensures AsciiRepls(NodeWins(n))
    decreases n
  {
    hide Interior, Decode, Edits, AsciiRepls;
    match n
    case Text(_) => NoRepls();
    case Str(raw, subs) => QuotedAscii(raw, subs);
    case Nest(raw, inner) =>
      AsciiAllWins(inner);
      QuotedAscii(raw, AllWins(inner));
  }

  lemma NoRepls()
    ensures AsciiRepls([])
  {
  }

  lemma ReplsAppend(a: seq<Window>, b: seq<Window>, k: nat)
    requires AsciiRepls(a) && AsciiRepls(b)
    ensures AsciiRepls(a + Shifted(b, k))
  {
    hide Ascii;
  }

  lemma {:induction false} AsciiAllWins(ns: seq<Node>)
    requires Good(ns) && AsciiTree(ns)
    ensures AsciiRepls(AllWins(ns))
    decreases ns
  {
    hide GoodNode, AsciiNode, NodeWins, NodeText, AsciiRepls, Edits, Inside;
    if ns == [] {
      NoRepls();
    } else {
      AsciiNodeWins(ns[0]);
      AsciiAllWins(ns[1..]);
      ReplsAppend(NodeWins(ns[0]), AllWins(ns[1..]), |NodeText(ns[0])|);
    }
  }

  /** The quoted form of a level's undoing. */
  lemma QuotedUndo(raw: bytes, ws: seq<Window>)
    requires Interior(raw) && Edits(Decode(raw), ws) && AsciiRepls(ws) && SpelledPlainly(raw, ws)
    requires Interior(RawAfter(raw, ws)) && Edits(Decode(RawAfter(raw, ws)), UndoWins(raw, ws))
    ensures Ordered(QuotedWins(raw, ws), 0, |Quoted(raw)|)
    ensures QuotedWins(RawAfter(raw, ws), UndoWins(raw, ws)) == Inverse(Quoted(raw), QuotedWins(raw, ws), 0, 0)
  {
    hide Interior, Decode, Edits, Splices, Ordered, EndsHigh, RawOffset, SpelledPlainly, AsciiRepls, Inverse, LiftsTo;
    hide Escape;
    QuotedAfter(raw, ws);
    RawLifts(raw, ws);
    var lifted := Lift(raw, ws);
    AlignedStart(raw);
    LevelPut(raw, ws, 0);
    assert RawOffset(raw, 0) == 0 by { OffsetZero(raw); }
    InverseLeft(raw, [QUOTE], lifted, 0, 0);
    InverseShift([QUOTE], raw + [QUOTE], lifted, 0, 0, 1);
    assert |[QUOTE]| == 1;
    InverseFront(Quoted(raw), Shifted(lifted, 1), 0, 1, 0);
  }

  lemma RawLifts(raw: bytes, ws: seq<Window>)
    requires Interior(raw) && Edits(Decode(raw), ws) && AsciiRepls(ws) && SpelledPlainly(raw, ws)
    requires Interior(RawAfter(raw, ws)) && Edits(Decode(RawAfter(raw, ws)), UndoWins(raw, ws))
    ensures Ordered(Lift(raw, ws), 0, |raw|)
    ensures Lift(RawAfter(raw, ws), UndoWins(raw, ws)) == Inverse(raw, Lift(raw, ws), 0, 0)
  {
    hide Interior, Edits, Splices, Ordered, SpelledPlainly, AsciiRepls, Inverse, Escape, UnitEnd;
    AlignedStart(raw);
    EditsStart(Decode(raw), ws);
    LevelPut(raw, ws, 0);
    EmptyLevel();
    InverseLifts(raw, ws, 0, []);
    var raw1 := RawAfter(raw, ws);
    assert [] + raw1 == raw1;
    var up, back := Inverse(raw, Lift(raw, ws), 0, 0), UndoWins(raw, ws);
    LiftEach(raw1, back, up);
  }

  lemma EmptyLevel()
    ensures Interior([]) && !EndsHigh([]) && Decode([]) == []
  {
  }

  lemma LiftEach(raw: bytes, ws: seq<Window>, up: seq<Window>)
    requires Edits(Decode(raw), ws) && LiftsTo(raw, ws, up)
    ensures Lift(raw, ws) == up
  {
    hide Decode, Editable, RawOffset;
  }

  lemma {:induction false} UndoWindowsNode(n: Node)
    requires GoodNode(n) && AsciiNode(n) && SpelledNode(n)
    ensures GoodNode(NodeUndo(n)) && Ordered(NodeWins(n), 0, |NodeText(n)|)
    ensures NodeWins(NodeUndo(n)) == Inverse(NodeText(n), NodeWins(n), 0, 0)
    decreases n
  {
    hide Interior, Decode, Edits, SpelledPlainly, AsciiRepls, Splices, Ordered, Inverse, Quoted;
    UndoGoodNode(n);
    NodeAfterText(n);
    match n
    case Text(text) => InverseUnfold(text, [], 0, 0);
    case Str(raw, subs) => QuotedUndo(raw, subs);
    case Nest(raw, inner) =>
      UndoWindows(inner);
      AsciiAllWins(inner);
      QuotedUndo(raw, AllWins(inner));
  }

  /** The windows of the undoing are the inverse of the windows of the edit. */
  lemma {:induction false} UndoWindows(ns: seq<Node>)
    requires Good(ns) && AsciiTree(ns) && Spelled(ns)
    ensures Good(Undo(ns)) && Ordered(AllWins(ns), 0, |Render(ns)|)
    ensures AllWins(Undo(ns)) == Inverse(Render(ns), AllWins(ns), 0, 0)
    decreases ns
  {
    hide GoodNode, AsciiNode, SpelledNode, NodeUndo, NodeWins, NodeText, Splices, Ordered, Edits, Inside, Inverse;
    UndoGood(ns);
    AfterText(ns);
    if ns == [] {
      InverseUnfold([], [], 0, 0);
    } else {
      UndoWindowsNode(ns[0]);
      UndoWindows(ns[1..]);
      NodeAfterText(ns[0]);
      UndoRendersNode(ns[0]);
      assert Undo(ns)[0] == NodeUndo(ns[0]) && Undo(ns)[1..] == Undo(ns[1..]);
      InverseConcat(NodeText(ns[0]), NodeWins(ns[0]), Render(ns[1..]), AllWins(ns[1..]), 0, 0);
    }
  }

  /** Byte for byte, when everything replaced was spelled plainly. */
  lemma UndoneBytes(ns: seq<Node>)
    requires Good(ns) && AsciiTree(ns) && Spelled(ns)
    ensures Good(Undo(ns)) && Render(After(Undo(ns))) == Render(ns)
  {
    hide Good, AsciiTree, Spelled, Splices, Ordered, Inverse, Render, AllWins, Undo, After;
    UndoWindows(ns);
    UndoRenders(ns);
    AfterText(ns);
    AfterText(Undo(ns));
    SpliceBack(Render(ns), AllWins(ns), 0, []);
    var text := Splices(Render(ns), AllWins(ns), 0);
    assert [] + text == text && Render(ns)[0..] == Render(ns);
  }
}
