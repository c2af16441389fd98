/**
 Walk, for a decoder whose string tokens stand where it says: the leaves it finds are the
 leaves of a nested document that is spelled as the text. So what the laws about editing and
 about streams ask of Walk, this model of Walk provides.
 */
module WalkTree {
  import opened Bytes
  import opened Lens
  import opened LensChain
  import opened LensPut
  import opened LensInverse
  import opened Tree
  import opened TreeLaws
  import opened TreeApply
  import opened WalkStrings
  import opened Reassembly
  import Walk
  import SsePlan
  import SsePlain
  import Utf8

  /** The string tokens stand quoted in the text from `from` on, well formed and in order. */
  ghost predicate InText(text: bytes, tokens: seq<Walk.Token>, from: nat)
    decreases |tokens|
  {
    tokens == [] ||
    match tokens[0]
    case Text(raw, start) =>
      && from <= start && Interior(raw) && QuotedAt(text, start, raw)
      && InText(text, tokens[1..], start + |raw| + 2)
    case _ => InText(text, tokens[1..], from)
  }

  ghost predicate Faithful(lex: Walk.Lexer) {
    forall text :: Utf8.Valid(text) ==> InText(text, lex(text).tokens, 0)
  }

  /** The same of strings. */
  ghost predicate Placed(text: bytes, strings: seq<Quote>, from: nat)
    decreases |strings|
  {
    if strings == [] then from <= |text|
    else
      var q := strings[0];
      && from <= q.start && Interior(q.raw) && QuotedAt(text, q.start, q.raw)
      && Placed(text, strings[1..], q.start + |q.raw| + 2)
  }

  lemma {:induction false} PlacedLess(text: bytes, strings: seq<Quote>, from: nat, less: nat)
    requires Placed(text, strings, from) && less <= from
    ensures Placed(text, strings, less)
  {
    hide Interior;
  }

  /** The values among the string tokens are placed, too. */
  lemma {:induction false} ParsePlaced(text: bytes, tokens: seq<Walk.Token>, open: seq<Mark>, from: nat)
    requires InText(text, tokens, from) && from <= |text|
    ensures
      var p := Parse(tokens, open);
      p.Some? ==> Placed(text, p.value.0.strings, from)
    decreases |tokens|
  {
    hide Interior, Decode, PastValue, Last;
    if tokens != [] {
      var tok, rest := tokens[0], tokens[1..];
      match tok {
        case Open(isObject) => ParsePlaced(text, rest, PastValue(open) + [if isObject then Key else Item],
          from);
        case Close =>
          if |open| > 1 {
            ParsePlaced(text, rest, open[..|open| - 1], from);
          }
        case Literal(_) => ParsePlaced(text, rest, PastValue(open), from);
        case Text(raw, start) =>
          if open == [] {
            assert [Quote(raw, start)][1..] == [];
          } else if Last(open) == Key {
            var next := open[..|open| - 1] + [Member];
            ParsePlaced(text, rest, next, start + |raw| + 2);
            if Parse(rest, next).Some? {
              PlacedLess(text, Parse(rest, next).value.0.strings, start + |raw| + 2, from);
            }
          } else {
            ParsePlaced(text, rest, PastValue(open), start + |raw| + 2);
            var p := Parse(rest, PastValue(open));
            if p.Some? {
              var strings := p.value.0.strings;
              assert ([Quote(raw, start)] + strings)[1..] == strings;
            }
          }
      }
    }
  }

  lemma StringsPlaced(lex: Walk.Lexer, text: bytes)
    requires Faithful(lex) && Utf8.Valid(text)
    ensures Placed(text, StringsIn(lex, text), 0)
  {
    hide Interior, Utf8.Valid;
    assert InText(text, lex(text).tokens, 0);
    ParsePlaced(text, lex(text).tokens, [], 0);
  }

  // ----------------------------------------------------------------------- the document

  ghost function StringNode(lex: Walk.Lexer, q: Quote, depth: nat): Node
    requires Faithful(lex) && depth <= Walk.MAX_ENCODED && Interior(q.raw)
    decreases Walk.MAX_ENCODED - depth, 0
  {
    var inner := StringsIn(lex, Decode(q.raw));
    DecodeValid(q.raw);
    StringsPlaced(lex, Decode(q.raw));
    if depth < Walk.MAX_ENCODED && inner != []
    then Nest(q.raw, Nodes(lex, Decode(q.raw), inner, 0, depth + 1))
    else Str(q.raw, [])
  }

  /** The document from `from` on: its strings, and the text between them. */
  ghost function Nodes(lex: Walk.Lexer, text: bytes, strings: seq<Quote>, from: nat, depth: nat): seq<Node>
    requires Faithful(lex) && depth <= Walk.MAX_ENCODED && Placed(text, strings, from)
    decreases Walk.MAX_ENCODED - depth, |strings|
  {
    if strings == [] then [Text(text[from..])] else
    var q := strings[0];
    [Text(text[from..q.start]), StringNode(lex, q, depth)]
    + Nodes(lex, text, strings[1..], q.start + |q.raw| + 2, depth)
  }

  lemma OneThen(n: Node, rest: seq<Node>, at: nat, p: Chain)
    ensures
      var ns := [n] + rest;
      && Render(ns) == NodeText(n) + Render(rest) && (Good(ns) <==> GoodNode(n) && Good(rest))
      && Chains(ns, at, p) == NodeChains(n, at, p) + Chains(rest, at + |NodeText(n)|, p)
  {
    hide NodeText, GoodNode, NodeChains;
    var ns := [n] + rest;
    assert ns[1..] == rest && ns[0] == n;
  }

  lemma LastText(text: bytes)
    ensures
      var ns := [Text(text)];
      Render(ns) == text && Good(ns) && forall at: nat, p :: Chains(ns, at, p) == []
  {
    var ns := [Text(text)];
    assert ns[1..] == [] && Good([]) && GoodNode(ns[0]);
    assert Good(ns);
    assert Render(ns) == text + Render([]);
  }

  lemma {:induction false} StringNodeFacts(lex: Walk.Lexer, q: Quote, depth: nat, at: nat, enclosing: Chain)
    requires Faithful(lex) && depth <= Walk.MAX_ENCODED && Interior(q.raw)
    ensures
      var n := StringNode(lex, q, depth);
      && GoodNode(n) && NodeText(n) == Quoted(q.raw)
      && NodeChains(n, q.start, enclosing) == StringChains(lex, q, enclosing, depth)
    decreases Walk.MAX_ENCODED - depth, 0, 0
  {
    hide Interior, Decode, Quoted, StringsIn, Faithful, Utf8.Valid;
    var inner := StringsIn(lex, Decode(q.raw));
    DecodeValid(q.raw);
    StringsPlaced(lex, Decode(q.raw));
    if depth < Walk.MAX_ENCODED && inner != [] {
      NodesFacts(lex, Decode(q.raw), inner, 0, depth + 1, Tok(q.raw, q.start, enclosing));
      assert Decode(q.raw)[0..] == Decode(q.raw);
    } else {
      NothingEdited(Decode(q.raw));
    }
  }

  /** The document is spelled as the text, and its leaves stand where the tokens say. */
  lemma {:induction false} NodesFacts(
    lex: Walk.Lexer, text: bytes, strings: seq<Quote>, from: nat, depth: nat, enclosing: Chain)
    requires Faithful(lex) && depth <= Walk.MAX_ENCODED && Placed(text, strings, from)
    ensures
      var ns := Nodes(lex, text, strings, from, depth);
      && from <= |text| && Good(ns) && Render(ns) == text[from..]
      && Chains(ns, from, enclosing) == TokChains(lex, strings, enclosing, depth)
    decreases Walk.MAX_ENCODED - depth, |strings|, 1
  {
    hide Interior, Decode, StringNode, StringChains, Faithful, Good, Render, Chains, GoodNode, NodeChains, NodeText;
    hide Nodes, TokChains, Quoted;
    if strings == [] {
      NoNodes(lex, text, from, depth, enclosing);
      LastText(text[from..]);
    } else {
      var q := strings[0];
      var next := q.start + |q.raw| + 2;
      StringNodeFacts(lex, q, depth, q.start, enclosing);
      NodesFacts(lex, text, strings[1..], next, depth, enclosing);
      NodesStep(lex, text, strings, from, depth);
      ChainsStep(lex, strings, enclosing, depth);
      JoinNodes(text, from, q, StringNode(lex, q, depth), Nodes(lex, text, strings[1..], next, depth), enclosing);
    }
  }

  lemma NoNodes(lex: Walk.Lexer, text: bytes, from: nat, depth: nat, enclosing: Chain)
    requires Faithful(lex) && depth <= Walk.MAX_ENCODED && from <= |text|
    ensures Nodes(lex, text, [], from, depth) == [Text(text[from..])]
    ensures TokChains(lex, [], enclosing, depth) == []
  {
    hide Faithful;
  }

  lemma NodesStep(lex: Walk.Lexer, text: bytes, strings: seq<Quote>, from: nat, depth: nat)
    requires Faithful(lex) && depth <= Walk.MAX_ENCODED && Placed(text, strings, from) && strings != []
    ensures
      var q := strings[0];
      && Placed(text, strings[1..], q.start + |q.raw| + 2) && Interior(q.raw)
      && from <= q.start && QuotedAt(text, q.start, q.raw)
      && Nodes(lex, text, strings, from, depth) ==
         [Text(text[from..q.start]), StringNode(lex, q, depth)]
         + Nodes(lex, text, strings[1..], q.start + |q.raw| + 2, depth)
  {
    hide Faithful, Interior, StringNode;
  }

  lemma ChainsStep(lex: Walk.Lexer, strings: seq<Quote>, enclosing: Chain, depth: nat)
    requires depth <= Walk.MAX_ENCODED && strings != []
    ensures TokChains(lex, strings, enclosing, depth) ==
            StringChains(lex, strings[0], enclosing, depth) + TokChains(lex, strings[1..], enclosing, depth)
  {
    hide StringChains;
  }

  /** A string and the gap in front of it, put before the rest of a document. */
  lemma JoinNodes(text: bytes, from: nat, q: Quote, n: Node, rest: seq<Node>, enclosing: Chain)
    requires from <= q.start && QuotedAt(text, q.start, q.raw)
    requires GoodNode(n) && NodeText(n) == Quoted(q.raw) && Good(rest)
    requires Render(rest) == text[q.start + |q.raw| + 2..]
    ensures
      var ns, next := [Text(text[from..q.start]), n] + rest, q.start + |q.raw| + 2;
      && Good(ns) && Render(ns) == text[from..]
      && Chains(ns, from, enclosing) == NodeChains(n, q.start, enclosing) + Chains(rest, next, enclosing)
  {
    hide Quoted, Good, Render, Chains, GoodNode, NodeChains, NodeText;
    var gap, next := Text(text[from..q.start]), q.start + |q.raw| + 2;
    OneThen(n, rest, q.start, enclosing);
    OneThen(gap, [n] + rest, from, enclosing);
    assert [gap, n] + rest == [gap] + ([n] + rest);
    QuotedThere(text, q);
    ThreeParts(text, from, q.start, next);
    TextIsGood(text[from..q.start]);
    var own, more := NodeChains(n, q.start, enclosing), Chains(rest, next, enclosing);
    assert [] + (own + more) == own + more;
  }

  lemma ThreeParts(text: bytes, i: nat, j: nat, k: nat)
    requires i <= j <= k <= |text|
    ensures text[i..] == text[i..j] + (text[j..k] + text[k..])
  {
  }

  lemma TextIsGood(text: bytes)
    ensures GoodNode(Text(text)) && NodeText(Text(text)) == text
    ensures forall at: nat, p :: NodeChains(Text(text), at, p) == []
  {
  }

  lemma QuotedThere(text: bytes, q: Quote)
    requires QuotedAt(text, q.start, q.raw)
    ensures text[q.start..q.start + |q.raw| + 2] == Quoted(q.raw) && |Quoted(q.raw)| == |q.raw| + 2
  {
    var there := text[q.start..q.start + |q.raw| + 2];
    assert there[1..1 + |q.raw|] == q.raw && there[0] == QUOTE && there[|q.raw| + 1] == QUOTE;
    assert there == [there[0]] + (there[1..1 + |q.raw|] + [there[|q.raw| + 1]]);
  }

  // -------------------------------------------------------------------- what Walk provides

  function LeavesIn(out: seq<Walk.Found>): (r: seq<Leaf>)
    ensures |r| == |out| && forall i :: 0 <= i < |r| ==> r[i] == out[i].leaf
  {
    seq(|out|, i requires 0 <= i < |out| => out[i].leaf)
  }

  /** The leaves that Walk finds in a text, or none when it refuses the text. */
  function WalkLeaves(lex: Walk.Lexer, text: bytes): Option<seq<Leaf>> {
    match Walk.WalkAll(lex, text)
    case None => None
    case Some(out) => Some(LeavesIn(out))
  }

  /** The document that the walk reads in a text. */
  ghost function TextTree(lex: Walk.Lexer, text: bytes, depth: nat): seq<Node>
    requires Faithful(lex) && Utf8.Valid(text) && depth <= Walk.MAX_ENCODED
  {
    StringsPlaced(lex, text);
    Nodes(lex, text, StringsIn(lex, text), 0, depth)
  }

  /** A text is walked when it is one document; the leaves found are the leaves of its tree. */
  lemma WalkReadsTree(lex: Walk.Lexer, text: bytes)
    requires Faithful(lex)
    ensures WalkLeaves(lex, text).Some? <==> Utf8.Valid(text) && ContentOf(lex, text).Some?
    ensures
      WalkLeaves(lex, text).Some? ==>
        var t := TextTree(lex, text, 0);
        Good(t) && Render(t) == text && LeavesOf(WalkLeaves(lex, text).value, t)
  {
    hide Faithful, Walk.WalkDocument, Good, Render, Chains, TokChains, Decode, Utf8.Valid;
    DocumentFound(lex, text, Walk.Doc([], false, 0, Root, []), map[]);
    if Walk.WalkAll(lex, text).Some? {
      var out, strings := Walk.WalkAll(lex, text).value, StringsIn(lex, text);
      StringsPlaced(lex, text);
      NodesFacts(lex, text, strings, 0, 0, Root);
      var ns := Nodes(lex, text, strings, 0, 0);
      assert text[0..] == text;
      forall i | 0 <= i < |out| ensures LeafAt(LeavesIn(out)[i], Chains(ns, 0, Root)[i]) {
        assert Told(out[i]) && Toks(out)[i] == TokChains(lex, strings, Root, 0)[i];
      }
    }
  }

  /** The leaves found are the leaves of a document that is spelled as the text. */
  lemma WalkFindsLeaves(lex: Walk.Lexer, text: bytes)
    requires Faithful(lex)
    ensures
      var r := WalkLeaves(lex, text);
      r.Some? ==> exists ns :: Good(ns) && Render(ns) == text && LeavesOf(r.value, ns)
  {
    hide Faithful, WalkLeaves, Good, Render, LeavesOf, TextTree, Utf8.Valid;
    WalkReadsTree(lex, text);
  }

  /** A session whose walk is this one meets what the laws about streams ask of it. */
  lemma WalkMeetsLaws(env: Env, lex: Walk.Lexer)
    requires Faithful(lex) && forall v :: env.walk(v) == WalkLeaves(lex, v)
    requires forall v :: Walk.WalkAll(lex, v).Some? ==> env.valid(v)
    ensures SsePlan.WalkSound(env) && SsePlain.Lawful(env)
  {
    hide Faithful, Walk.WalkAll, Good, Render, LeavesOf;
    forall v | env.walk(v).Some? ensures SsePlan.Walked(v, env.walk(v).value) {
      assert env.walk(v) == WalkLeaves(lex, v);
      WalkFindsLeaves(lex, v);
    }
    forall v | env.walk(v).Some?
      ensures env.valid(v) && forall l :: l in env.walk(v).value ==> l.tok.Tok?
    {
      assert env.walk(v) == WalkLeaves(lex, v);
      LeavesHavePlaces(lex, v);
    }
  }

  lemma LeavesHavePlaces(lex: Walk.Lexer, v: bytes)
    requires Walk.WalkAll(lex, v).Some?
    ensures forall l :: l in WalkLeaves(lex, v).value ==> l.tok.Tok?
  {
    hide Walk.WalkDocument, TokChains, Decode;
    DocumentFound(lex, v, Walk.Doc([], false, 0, Root, []), map[]);
    forall l | l in WalkLeaves(lex, v).value ensures l.tok.Tok? {
      var out := Walk.WalkAll(lex, v).value;
      var i :| 0 <= i < |out| && out[i].leaf == l;
      assert Told(out[i]);
    }
  }
}
