/**
 A document that is read again after an edit, and in which some strings are now read as
 documents. The same places are edited in both readings, but in such a string the replaced
 text is spelled for a leaf that is one level deeper.
 */
module RereadTree {
  import opened Bytes
  import opened Utf8
  import opened Lens
  import opened LensLaws
  import opened LensPut
  import opened Splice
  import opened Tree
  import opened TreeLaws
  import opened TreeAssign
  import opened Restore
  import opened RoundTrip
  import opened RoundTripLaw

  // ------------------------------------------------------------------------ two readings

  /** b reads as a does, but that a string may be read as a document. */
  ghost predicate RereadNode(a: Node, b: Node)
    decreases a
  {
    match (a, b)
    case (Text(s), Text(t)) => s == t
    case (Str(raw, _), Str(raw', _)) => raw == raw'
    case (Str(raw, _), Nest(raw', _)) => raw == raw'
    case (Nest(raw, inner), Nest(raw', inner')) => raw == raw' && Rereads(inner, inner')
    case _ => false
  }

  ghost predicate Rereads(a: seq<Node>, b: seq<Node>)
    decreases a
  {
    if a == [] then b == [] else b != [] && RereadNode(a[0], b[0]) && Rereads(a[1..], b[1..])
  }

  function ReplsOf(ws: seq<Window>): (r: seq<bytes>)
    ensures |r| == |ws| && forall i :: 0 <= i < |r| ==> r[i] == ws[i].repl
  {
    seq(|ws|, i requires 0 <= i < |ws| => ws[i].repl)
  }

  function NodeRereadSecrets(a: Node, b: Node): seq<bytes>
    decreases a
  {
    match (a, b)
    case (Str(_, ws), Nest(_, _)) => ReplsOf(ws)
    case (Nest(_, inner), Nest(_, inner')) => RereadSecrets(inner, inner')
    case _ => []
  }

  /** What a's windows put into the strings that b reads as documents. */
  function RereadSecrets(a: seq<Node>, b: seq<Node>): seq<bytes>
    decreases a
  {
    if a == [] || b == [] then [] else NodeRereadSecrets(a[0], b[0]) + RereadSecrets(a[1..], b[1..])
  }

  predicate Unescaped(secrets: seq<bytes>) {
    forall s :: s in secrets ==> Escape(s) == s
  }

  ghost predicate SameSpots(a: seq<Window>, b: seq<Window>) {
    |a| == |b| && forall i :: 0 <= i < |a| ==> a[i].start == b[i].start && a[i].end == b[i].end
  }

  /** Each window's text is a placeholder that the pairs map to what the window puts there. */
  ghost predicate HeldIn(v: bytes, pairs: seq<Pair>, ws: seq<Window>) {
    forall i :: 0 <= i < |ws| ==>
      ws[i].start <= ws[i].end <= |v| && Pair(v[ws[i].start..ws[i].end], ws[i].repl) in pairs
  }

  ghost predicate HoldsNode(n: Node, pairs: seq<Pair>)
    decreases n
  {
    match n
    case Text(_) => true
    case Str(raw, ws) => HeldIn(Decode(raw), pairs, ws)
    case Nest(_, inner) => Holds(inner, pairs)
  }

  ghost predicate Holds(ns: seq<Node>, pairs: seq<Pair>)
    decreases ns
  {
    ns == [] || (HoldsNode(ns[0], pairs) && Holds(ns[1..], pairs))
  }

  ghost predicate TokenPairs(pairs: seq<Pair>) {
    DistinctPairs(pairs) && forall p :: p in pairs ==> TokenText(p.placeholder)
  }

  lemma OneSecret(pairs: seq<Pair>, x: bytes, s: bytes, t: bytes)
    requires TokenPairs(pairs) && Pair(x, s) in pairs && Pair(x, t) in pairs
    ensures s == t
  {
    var i :| 0 <= i < |pairs| && pairs[i] == Pair(x, s);
    var j :| 0 <= j < |pairs| && pairs[j] == Pair(x, t);
  }

  // -------------------------------------------------------------------- escaping makes longer

  lemma {:induction false} EscapeLonger(x: bytes)
    ensures |Escape(x)| >= |x| && (Escape(x) != x ==> |Escape(x)| > |x|)
  {
    if x != [] {
      EscapeLonger(x[1..]);
      EscapeCons(x);
      assert EscapeByte(x[0]) == [x[0]] || |EscapeByte(x[0])| > 1;
    }
  }

  /** x spells s for a leaf some levels down. */
  predicate Grows(s: bytes, x: bytes) {
    if Escape(s) == s then x == s else |x| > |s|
  }

  lemma GrowsOnce(s: bytes)
    ensures Grows(s, Escape(s))
  {
    EscapeLonger(s);
  }

  lemma GrowsMore(s: bytes, x: bytes)
    requires Grows(s, x)
    ensures Grows(s, Escape(x))
  {
    EscapeLonger(x);
  }

  // -------------------------------------------------------- the leaves' windows, level by level

  function NodeSecrets(n: Node): seq<bytes>
    decreases n
  {
    match n
    case Text(_) => []
    case Str(_, ws) => ReplsOf(ws)
    case Nest(_, inner) => Secrets(inner)
  }

  /** What the leaves' windows put in, in document order. */
  function Secrets(ns: seq<Node>): seq<bytes>
    decreases ns
  {
    if ns == [] then [] else NodeSecrets(ns[0]) + Secrets(ns[1..])
  }

  /** Window w spells s, and where it stands on a placeholder, that placeholder is paired with s. */
  ghost predicate Traced(text: bytes, w: Window, s: bytes, pairs: seq<Pair>) {
    && w.start <= w.end <= |text| && Grows(s, w.repl)
    && (TokenText(text[w.start..w.end]) ==> Pair(text[w.start..w.end], s) in pairs)
  }

  ghost predicate AllTraced(text: bytes, ws: seq<Window>, secrets: seq<bytes>, pairs: seq<Pair>) {
    |ws| == |secrets| && forall i :: 0 <= i < |ws| ==> Traced(text, ws[i], secrets[i], pairs)
  }

  /** A placeholder in the raw text is one in the decoded text. */
  lemma TokenBelow(raw: bytes, w: Window)
    requires Interior(raw) && Editable(Decode(raw), w)
    ensures
      var q := LiftWindow(raw, w).Shift(1);
      && w.start <= w.end <= |Decode(raw)| && q.start <= q.end <= |Quoted(raw)|
      && (TokenText(Quoted(raw)[q.start..q.end]) ==> Decode(raw)[w.start..w.end] == Quoted(raw)[q.start..q.end])
  {
    hide Interior, Decode, RawOffset, Escape, TokenText;
    CutBetween(raw, w.start, w.end);
    var l := LiftWindow(raw, w);
    var x := raw[l.start..l.end];
    assert Quoted(raw)[l.start + 1..l.end + 1] == x;
    if TokenText(x) {
      TokenPlain(x);
      AsciiText(x);
      EscapeDecodes(x);
    }
  }

  lemma AsciiText(x: bytes)
    requires TokenText(x)
    ensures Utf8.Valid(x)
  {
    AsciiValid(x);
  }

  lemma QuotedTraced(raw: bytes, ws: seq<Window>, secrets: seq<bytes>, pairs: seq<Pair>)
    requires Interior(raw) && Edits(Decode(raw), ws) && |ws| == |secrets|
    requires forall i :: 0 <= i < |ws| ==>
               && ws[i].start <= ws[i].end <= |Decode(raw)| && Grows(secrets[i], Escape(ws[i].repl))
               && (TokenText(Decode(raw)[ws[i].start..ws[i].end]) ==>
                     Pair(Decode(raw)[ws[i].start..ws[i].end], secrets[i]) in pairs)
    ensures AllTraced(Quoted(raw), QuotedWins(raw, ws), secrets, pairs)
  {
    hide Interior, Decode, Editable, RawOffset, Escape, TokenText, Grows, Quoted;
    var up := QuotedWins(raw, ws);
    forall i | 0 <= i < |ws| ensures Traced(Quoted(raw), up[i], secrets[i], pairs) {
      assert Editable(Decode(raw), ws[i]);
      TokenBelow(raw, ws[i]);
      assert up[i] == LiftWindow(raw, ws[i]).Shift(1);
    }
  }

  lemma {:induction false} NodeTraced(n: Node, pairs: seq<Pair>)
    requires GoodNode(n) && HoldsNode(n, pairs)
    ensures AllTraced(NodeText(n), NodeWins(n), NodeSecrets(n), pairs)
    decreases n
  {
    hide Interior, Decode, Edits, TokenText, Grows, Escape, Quoted;
    match n
    case Text(_) =>
    case Str(raw, ws) =>
      forall i | 0 <= i < |ws| ensures Grows(ws[i].repl, Escape(ws[i].repl)) {
        GrowsOnce(ws[i].repl);
      }
      QuotedTraced(raw, ws, ReplsOf(ws), pairs);
    case Nest(raw, inner) =>
      WinsTraced(inner, pairs);
      var ws := AllWins(inner);
      forall i | 0 <= i < |ws| ensures Grows(Secrets(inner)[i], Escape(ws[i].repl)) {
        assert Traced(Render(inner), ws[i], Secrets(inner)[i], pairs);
        GrowsMore(Secrets(inner)[i], ws[i].repl);
      }
      assert forall i :: 0 <= i < |ws| ==> Traced(Render(inner), ws[i], Secrets(inner)[i], pairs);
      QuotedTraced(raw, ws, Secrets(inner), pairs);
  }

  /** The windows of a document spell what its leaves' windows put in. */
  lemma {:induction false} WinsTraced(ns: seq<Node>, pairs: seq<Pair>)
    requires Good(ns) && Holds(ns, pairs)
    ensures AllTraced(Render(ns), AllWins(ns), Secrets(ns), pairs)
    decreases ns
  {
    hide GoodNode, HoldsNode, NodeText, NodeWins, NodeSecrets, Edits, Tree.Inside, Traced;
    if ns != [] {
      NodeTraced(ns[0], pairs);
      WinsTraced(ns[1..], pairs);
      TracedConcat(NodeText(ns[0]), NodeWins(ns[0]), NodeSecrets(ns[0]), Render(ns[1..]), AllWins(ns[1..]),
        Secrets(ns[1..]), pairs);
    }
  }

  lemma TracedConcat(
    s: bytes, a: seq<Window>, x: seq<bytes>, t: bytes, b: seq<Window>, y: seq<bytes>, pairs: seq<Pair>)
    requires AllTraced(s, a, x, pairs) && AllTraced(t, b, y, pairs)
    ensures AllTraced(s + t, a + Shifted(b, |s|), x + y, pairs)
  {
    hide TokenText, Grows;
    var ws := a + Shifted(b, |s|);
    forall i | 0 <= i < |ws| ensures Traced(s + t, ws[i], (x + y)[i], pairs) {
      if i < |a| {
        assert Traced(s, a[i], x[i], pairs);
        assert (s + t)[a[i].start..a[i].end] == s[a[i].start..a[i].end];
      } else {
        var w := b[i - |a|];
        assert Traced(t, w, y[i - |a|], pairs);
        assert (s + t)[w.start + |s|..w.end + |s|] == t[w.start..w.end];
      }
    }
  }

  // ------------------------------------------------------------------- the same places, below

  lemma SpotsSplit(a: seq<Window>, b: seq<Window>, a': seq<Window>, b': seq<Window>, k: nat)
    requires SameSpots(a + Shifted(b, k), a' + Shifted(b', k))
    requires forall i :: 0 <= i < |a| ==> a[i].start < k
    requires forall i :: 0 <= i < |a'| ==> a'[i].start < k
    ensures SameSpots(a, a') && SameSpots(b, b')
  {
    var x, y := a + Shifted(b, k), a' + Shifted(b', k);
    assert |a| < |x| ==> x[|a|].start == y[|a|].start;
    assert |a'| < |x| ==> x[|a'|].start == y[|a'|].start;
    forall i | 0 <= i < |a| ensures a[i].start == a'[i].start && a[i].end == a'[i].end {
      assert x[i].start == y[i].start && x[i].end == y[i].end;
    }
    forall i | 0 <= i < |b| ensures b[i].start == b'[i].start && b[i].end == b'[i].end {
      assert x[|a| + i].start == y[|a| + i].start && x[|a| + i].end == y[|a| + i].end;
    }
  }

  lemma OneOffset(raw: bytes, o: nat, p: nat)
    requires Interior(raw) && Aligned(Decode(raw), o) && Aligned(Decode(raw), p)
    requires RawOffset(raw, o) == RawOffset(raw, p)
    ensures o == p
  {
    hide Interior, Decode, RawOffset;
    if o < p {
      CutsAscend(raw, o, p);
    } else if p < o {
      CutsAscend(raw, p, o);
    }
  }

  lemma SpotsBelow(raw: bytes, a: seq<Window>, b: seq<Window>)
    requires Interior(raw) && Edits(Decode(raw), a) && Edits(Decode(raw), b)
    requires SameSpots(QuotedWins(raw, a), QuotedWins(raw, b))
    ensures SameSpots(a, b)
  {
    hide Interior, Decode, RawOffset, Escape, Utf8.Valid;
    var x, y := QuotedWins(raw, a), QuotedWins(raw, b);
    forall i | 0 <= i < |a| ensures a[i].start == b[i].start && a[i].end == b[i].end {
      assert Editable(Decode(raw), a[i]) && Editable(Decode(raw), b[i]);
      assert x[i] == LiftWindow(raw, a[i]).Shift(1) && y[i] == LiftWindow(raw, b[i]).Shift(1);
      OneOffset(raw, a[i].start, b[i].start);
      OneOffset(raw, a[i].end, b[i].end);
    }
  }

  lemma InFront(text: bytes, ws: seq<Window>)
    requires Edits(text, ws) && Tree.Inside(text, ws)
    ensures forall i :: 0 <= i < |ws| ==> ws[i].start < |text|
  {
    forall i | 0 <= i < |ws| ensures ws[i].start < |text| {
      assert Editable(text, ws[i]);
    }
  }

  /** The windows of two readings of a string, compared. */
  ghost predicate GrowWins(a: seq<Window>, b: seq<Window>) {
    SameSpots(a, b) && forall i :: 0 <= i < |a| ==> Grows(a[i].repl, b[i].repl)
  }

  lemma StringGrows(v: bytes, pairs: seq<Pair>, a: seq<Window>, b: seq<Window>, secrets: seq<bytes>)
    requires TokenPairs(pairs) && HeldIn(v, pairs, a) && AllTraced(v, b, secrets, pairs) && SameSpots(a, b)
    ensures GrowWins(a, b)
  {
    hide TokenText, Grows, DistinctPairs;
    forall i | 0 <= i < |a| ensures Grows(a[i].repl, b[i].repl) {
      assert Traced(v, b[i], secrets[i], pairs);
      var x := v[a[i].start..a[i].end];
      assert Pair(x, a[i].repl) in pairs;
      OneSecret(pairs, x, a[i].repl, secrets[i]);
    }
  }

  lemma StringSame(v: bytes, pairs: seq<Pair>, a: seq<Window>, b: seq<Window>)
    requires TokenPairs(pairs) && HeldIn(v, pairs, a) && HeldIn(v, pairs, b) && SameSpots(a, b)
    ensures a == b
  {
    hide TokenPairs;
    forall i | 0 <= i < |a| ensures a[i] == b[i] {
      OneSecret(pairs, v[a[i].start..a[i].end], a[i].repl, b[i].repl);
    }
  }

  // ----------------------------------------------------------------------- the edited texts

  lemma GrowTail(a: seq<Window>, b: seq<Window>)
    requires GrowWins(a, b) && a != []
    ensures GrowWins(a[1..], b[1..]) && Grows(a[0].repl, b[0].repl)
    ensures a[0].start == b[0].start && a[0].end == b[0].end
    ensures Unescaped(ReplsOf(a)) <==> Escape(a[0].repl) == a[0].repl && Unescaped(ReplsOf(a[1..]))
  {
    hide Grows, Escape;
    forall i | 0 <= i < |a[1..]| ensures Grows(a[1..][i].repl, b[1..][i].repl) {
      assert Grows(a[i + 1].repl, b[i + 1].repl);
    }
    assert ReplsOf(a) == [a[0].repl] + ReplsOf(a[1..]);
    UnescapedAppend([a[0].repl], ReplsOf(a[1..]));
  }

  lemma GrowsLonger(s: bytes, x: bytes)
    requires Grows(s, x)
    ensures |x| >= |s| && (Escape(s) != s ==> |x| > |s|)
  {
  }

  /** Where nothing needs escaping, nothing has grown. */
  lemma GrowNothing(a: seq<Window>, b: seq<Window>)
    requires GrowWins(a, b) && Unescaped(ReplsOf(a))
    ensures a == b
  {
    hide Escape;
    forall i | 0 <= i < |a| ensures a[i] == b[i] {
      assert ReplsOf(a)[i] in ReplsOf(a) && Grows(a[i].repl, b[i].repl);
    }
  }

  lemma {:induction false} SplicesGrow(s: bytes, a: seq<Window>, b: seq<Window>, from: nat)
    requires Ordered(a, from, |s|) && Ordered(b, from, |s|) && GrowWins(a, b)
    ensures |Splices(s, b, from)| >= |Splices(s, a, from)|
    ensures !Unescaped(ReplsOf(a)) ==> |Splices(s, b, from)| > |Splices(s, a, from)|
    decreases |a|
  {
    hide Ordered, Splices, Escape, GrowWins, Unescaped, Grows, ReplsOf;
    SameLength(a, b);
    if a != [] {
      OrderedTail(a, from, |s|);
      OrderedTail(b, from, |s|);
      SplicesUnfold(s, a, from);
      SplicesUnfold(s, b, from);
      GrowTail(a, b);
      GrowsLonger(a[0].repl, b[0].repl);
      SplicesGrow(s, a[1..], b[1..], a[0].end);
    } else {
      assert ReplsOf(a) == [];
      NothingUnescaped();
      SplicesEmpty(s, from);
    }
  }

  lemma SameLength(a: seq<Window>, b: seq<Window>)
    requires GrowWins(a, b)
    ensures |a| == |b|
  {
  }

  /** The document as b's edits leave it, read as a reads it. */
  ghost function CoarseNode(a: Node, b: Node): Node
    requires GoodNode(b)
    decreases a
  {
    match (a, b)
    case (Str(_, _), Nest(raw, inner)) => Str(RawAfter(raw, AllWins(inner)), [])
    case (Nest(_, x), Nest(raw, y)) => Nest(RawAfter(raw, AllWins(y)), Coarse(x, y))
    case _ => NodeAfter(b)
  }

  ghost function Coarse(a: seq<Node>, b: seq<Node>): seq<Node>
    requires Good(b)
    decreases a
  {
    if a == [] || b == [] then [] else [CoarseNode(a[0], b[0])] + Coarse(a[1..], b[1..])
  }

  lemma {:induction false} CoarseNodeReads(a: Node, b: Node)
    requires GoodNode(a) && GoodNode(b) && RereadNode(a, b)
    ensures GoodNode(CoarseNode(a, b)) && NodeText(CoarseNode(a, b)) == NodeText(NodeAfter(b))
            && SameNode(a, CoarseNode(a, b))
    decreases a
  {
    hide Interior, Decode, Edits, Quoted, Splices, Ordered;
    NodeAfterText(b);
    match (a, b)
    case (Str(_, _), Nest(raw, inner)) => NothingEdited(Decode(RawAfter(raw, AllWins(inner))));
    case (Nest(_, x), Nest(raw, y)) =>
      CoarseReads(x, y);
      AfterText(y);
    case (Str(_, _), Str(raw, ws)) => NothingEdited(Decode(RawAfter(raw, ws)));
    case _ =>
  }

  lemma {:induction false} CoarseReads(a: seq<Node>, b: seq<Node>)
    requires Good(a) && Good(b) && Rereads(a, b)
    ensures Good(Coarse(a, b)) && Render(Coarse(a, b)) == Render(After(b)) && SameSkeleton(a, Coarse(a, b))
    decreases a
  {
    hide GoodNode, NodeText, NodeAfter, CoarseNode, RereadNode, SameNode;
    if a != [] {
      CoarseNodeReads(a[0], b[0]);
      CoarseReads(a[1..], b[1..]);
      var c := Coarse(a, b);
      assert c[0] == CoarseNode(a[0], b[0]) && c[1..] == Coarse(a[1..], b[1..]);
      assert After(b)[0] == NodeAfter(b[0]) && After(b)[1..] == After(b[1..]);
    }
  }

  /** What the two readings' edits make of the strings. */
  ghost predicate Outgrown(plain: bool, a: seq<bytes>, b: seq<bytes>) {
    |Concat(b)| >= |Concat(a)| && (!plain ==> |Concat(b)| > |Concat(a)|)
  }

  lemma {:induction false} CompareNode(a: Node, b: Node, pairs: seq<Pair>)
    requires GoodNode(a) && GoodNode(b) && RereadNode(a, b) && TokenPairs(pairs)
    requires HoldsNode(a, pairs) && HoldsNode(b, pairs) && SameSpots(NodeWins(a), NodeWins(b))
    ensures Unescaped(NodeRereadSecrets(a, b)) ==> NodeWins(a) == NodeWins(b)
    ensures Outgrown(Unescaped(NodeRereadSecrets(a, b)), NodeValues(NodeAfter(a)), NodeValues(CoarseNode(a, b)))
    decreases a
  {
    hide Interior, Decode, Edits, TokenPairs, Splices, Ordered, SameSpots, GrowWins, AllTraced, HeldIn, Quoted;
    hide Unescaped;
    match (a, b)
    case (Text(_), Text(_)) => assert NodeRereadSecrets(a, b) == []; NothingUnescaped();
    case (Str(raw, u), Str(_, v)) =>
      SpotsBelow(raw, u, v);
      StringSame(Decode(raw), pairs, u, v);
      NothingUnescaped();
    case (Str(raw, u), Nest(_, inner)) =>
      SpotsBelow(raw, u, AllWins(inner));
      WinsTraced(inner, pairs);
      StringGrows(Decode(raw), pairs, u, AllWins(inner), Secrets(inner));
      EditsFromStart(Decode(raw), u);
      EditsFromStart(Decode(raw), AllWins(inner));
      SplicesGrow(Decode(raw), u, AllWins(inner), 0);
      if Unescaped(ReplsOf(u)) {
        GrowNothing(u, AllWins(inner));
      }
      ConcatOne(Decode(RawAfter(raw, u)));
      ConcatOne(Decode(RawAfter(raw, AllWins(inner))));
    case (Nest(raw, x), Nest(_, y)) =>
      SpotsBelow(raw, AllWins(x), AllWins(y));
      Compare(x, y, pairs);
  }

  lemma NothingUnescaped()
    ensures Unescaped([])
  {
  }

  lemma UnescapedAppend(a: seq<bytes>, b: seq<bytes>)
    ensures Unescaped(a + b) <==> Unescaped(a) && Unescaped(b)
  {
    hide Escape;
    assert forall s :: s in a + b <==> s in a || s in b;
  }

  /**
   Two readings whose windows stand at the same places: when no secret in a re-read string
   needs escaping, they are the same windows; otherwise the strings, as the first reading has
   them, come out longer.
   */
  lemma {:induction false} Compare(a: seq<Node>, b: seq<Node>, pairs: seq<Pair>)
    requires Good(a) && Good(b) && Rereads(a, b) && TokenPairs(pairs)
    requires Holds(a, pairs) && Holds(b, pairs) && SameSpots(AllWins(a), AllWins(b))
    ensures Unescaped(RereadSecrets(a, b)) ==> AllWins(a) == AllWins(b)
    ensures Outgrown(Unescaped(RereadSecrets(a, b)), Values(After(a)), Values(Coarse(a, b)))
    decreases a
  {
    hide GoodNode, HoldsNode, RereadNode, TokenPairs, NodeWins, NodeText, NodeValues, NodeAfter, CoarseNode, Unescaped;
    hide SameSpots, NodeRereadSecrets, Edits, Tree.Inside;
    if a == [] {
      NothingUnescaped();
    } else {
      SameNodeText(a[0], b[0]);
      InFront(NodeText(a[0]), NodeWins(a[0]));
      InFront(NodeText(b[0]), NodeWins(b[0]));
      SpotsSplit(NodeWins(a[0]), AllWins(a[1..]), NodeWins(b[0]), AllWins(b[1..]), |NodeText(a[0])|);
      CompareNode(a[0], b[0], pairs);
      Compare(a[1..], b[1..], pairs);
      UnescapedAppend(NodeRereadSecrets(a[0], b[0]), RereadSecrets(a[1..], b[1..]));
      var c := Coarse(a, b);
      assert c[0] == CoarseNode(a[0], b[0]) && c[1..] == Coarse(a[1..], b[1..]);
      assert After(a)[0] == NodeAfter(a[0]) && After(a)[1..] == After(a[1..]);
      ConcatAppend(NodeValues(c[0]), Values(c[1..]));
      ConcatAppend(NodeValues(NodeAfter(a[0])), Values(After(a[1..])));
    }
  }

  lemma SameNodeText(a: Node, b: Node)
    requires RereadNode(a, b)
    ensures NodeText(a) == NodeText(b)
  {
  }

  lemma {:induction false} RereadRenders(a: seq<Node>, b: seq<Node>)
    requires Rereads(a, b)
    ensures Render(a) == Render(b)
    decreases a
  {
    hide RereadNode, NodeText;
    if a != [] {
      SameNodeText(a[0], b[0]);
      RereadRenders(a[1..], b[1..]);
    }
  }

  // --------------------------------------------------------------- one reading per skeleton

  lemma QuoteEnds(r: bytes, tail: bytes)
    requires Interior(r) && r != [] && tail != [] && tail[0] == QUOTE
    ensures WellUnit(r + tail) && NextUnit(r + tail) == NextUnit(r) && Interior(r[NextUnit(r).width..])
    ensures (r + tail)[0] != QUOTE
  {
    hide NextUnit, LoneHigh, ShortEscape, Hex4;
    UnitAppend(r, tail);
    assert (r + tail)[0] == r[0];
  }

  /** The closing quote of a string is where its interior ends. */
  lemma {:induction false} OneInterior(r: bytes, q: bytes, x: bytes, y: bytes)
    requires Interior(r) && Interior(q) && r + ([QUOTE] + x) == q + ([QUOTE] + y)
    ensures r == q && x == y
    decreases |r|
  {
    hide NextUnit, WellUnit, Interior;
    var s, t := [QUOTE] + x, [QUOTE] + y;
    if r == [] || q == [] {
      assert r == [] && q != [] ==> s[0] == (q + t)[0];
      assert q == [] && r != [] ==> t[0] == (r + s)[0];
      if q != [] {
        QuoteEnds(q, t);
      }
      if r != [] {
        QuoteEnds(r, s);
      }
      assert r == [] && q == [] && [] + s == s && [] + t == t;
      assert s[1..] == x && t[1..] == y;
    } else {
      QuoteEnds(r, s);
      QuoteEnds(q, t);
      var w := NextUnit(r).width;
      assert (r + s)[..w] == r[..w] && (q + t)[..w] == q[..w];
      assert (r + s)[w..] == r[w..] + s && (q + t)[w..] == q[w..] + t;
      OneInterior(r[w..], q[w..], x, y);
      assert r == r[..w] + r[w..] && q == q[..w] + q[w..];
    }
  }

  lemma {:induction false} OneNodeReading(a: Node, b: Node, x: bytes, y: bytes)
    requires SameNode(a, b) && GoodNode(a) && GoodNode(b) && NodeText(a) + x == NodeText(b) + y
    ensures x == y && NodeValues(a) == NodeValues(b)
    decreases a
  {
    hide Interior, Decode, Edits;
    match a
    case Text(s) => assert (s + x)[|s|..] == x && (s + y)[|s|..] == y;
    case Str(r, _) => QuotedCancel(r, b.raw, x, y);
    case Nest(r, inner) =>
      QuotedCancel(r, b.raw, x, y);
      OneReading(inner, b.inner);
  }

  lemma QuotedCancel(r: bytes, q: bytes, x: bytes, y: bytes)
    requires Interior(r) && Interior(q) && Quoted(r) + x == Quoted(q) + y
    ensures r == q && x == y
  {
    hide Interior;
    assert (Quoted(r) + x)[1..] == r + ([QUOTE] + x) && (Quoted(q) + y)[1..] == q + ([QUOTE] + y);
    OneInterior(r, q, x, y);
  }

  /** A text has one reading of a given skeleton. */
  lemma {:induction false} OneReading(a: seq<Node>, b: seq<Node>)
    requires SameSkeleton(a, b) && Good(a) && Good(b) && Render(a) == Render(b)
    ensures Values(a) == Values(b)
    decreases a
  {
    hide SameNode, GoodNode, NodeText, NodeValues;
    if a != [] {
      OneNodeReading(a[0], b[0], Render(a[1..]), Render(b[1..]));
      OneReading(a[1..], b[1..]);
    }
  }
}
