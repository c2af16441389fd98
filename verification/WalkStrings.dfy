/**
 What Walk finds, read off the tokens alone: the keys and the string values of a document, in
 order, and for each string the places of the leaves it stands for. Every law here holds
 whatever the decoder makes of the texts.
 */
module WalkStrings {
  import opened Bytes
  import opened Lens
  import opened Walk
  import opened WalkIdentity

  // ------------------------------------------------------------------- a document's content

  /** A string token: its interior and the place of its opening quote. */
  datatype Quote = Quote(raw: bytes, start: nat)

  datatype Content = Content(keys: seq<bytes>, strings: seq<Quote>)

  /** What an open container waits for. */
  datatype Mark = Item | Key | Member

  function MarkOf(f: Frame): Mark {
    if !f.isObject then Item else if f.hasKey then Member else Key
  }

  function Marks(stack: seq<Frame>): (r: seq<Mark>)
    ensures |r| == |stack| && forall i :: 0 <= i < |r| ==> r[i] == MarkOf(stack[i])
  {
    seq(|stack|, i requires 0 <= i < |stack| => MarkOf(stack[i]))
  }

  function Last(open: seq<Mark>): Mark
    requires open != []
  {
    open[|open| - 1]
  }

  /** The open containers behind a value. */
  function PastValue(open: seq<Mark>): (r: seq<Mark>)
    ensures |r| == |open|
  {
    if open == [] then []
    else open[..|open| - 1] + [if Last(open) == Item then Item else Key]
  }

  function WithKey(key: bytes, r: Option<(Content, seq<Token>)>): Option<(Content, seq<Token>)> {
    match r
    case None => None
    case Some((c, rest)) => Some((Content([key] + c.keys, c.strings), rest))
  }

  function WithString(q: Quote, r: Option<(Content, seq<Token>)>): Option<(Content, seq<Token>)> {
    match r
    case None => None
    case Some((c, rest)) => Some((Content(c.keys, [q] + c.strings), rest))
  }

  /** The content of the value whose tokens follow, and the tokens behind it. */
  function Parse(tokens: seq<Token>, open: seq<Mark>): Option<(Content, seq<Token>)>
    decreases |tokens|
  {
    if tokens == [] then None else
    var tok, rest := tokens[0], tokens[1..];
    match tok
    case Open(isObject) =>
      if |open| >= MAX_NESTING then None
      else Parse(rest, PastValue(open) + [if isObject then Key else Item])
    case Close =>
      if open == [] then None
      else if |open| == 1 then Some((Content([], []), rest))
      else Parse(rest, open[..|open| - 1])
    case Text(raw, start) =>
      if open == [] then Some((Content([], [Quote(raw, start)]), rest))
      else if Last(open) == Key then WithKey(Decode(raw), Parse(rest, open[..|open| - 1] + [Member]))
      else WithString(Quote(raw, start), Parse(rest, PastValue(open)))
    case Literal(_) =>
      if open == [] then Some((Content([], []), rest))
      else if Last(open) == Key then None
      else Parse(rest, PastValue(open))
  }

  /** The content of a text that is one document. */
  function ContentOf(lex: Lexer, text: bytes): Option<Content> {
    match Parse(lex(text).tokens, [])
    case None => None
    case Some((c, rest)) => if rest == [] && lex(text).complete then Some(c) else None
  }

  /** The strings of the document that a text is; a text that is none has no strings. */
  function StringsIn(lex: Lexer, text: bytes): seq<Quote> {
    match ContentOf(lex, text)
    case None => []
    case Some(c) => c.strings
  }

  // ------------------------------------------------------------------- the leaves' places

  /** The places of the leaves that a string stands for: its own, or those of its document. */
  function StringChains(lex: Lexer, q: Quote, enclosing: Chain, depth: nat): (r: seq<Chain>)
    requires depth <= MAX_ENCODED
    ensures r != []
    decreases MAX_ENCODED - depth, 0
  {
    var c := Tok(q.raw, q.start, enclosing);
    if depth < MAX_ENCODED && StringsIn(lex, Decode(q.raw)) != []
    then TokChains(lex, StringsIn(lex, Decode(q.raw)), c, depth + 1)
    else [c]
  }

  function TokChains(lex: Lexer, strings: seq<Quote>, enclosing: Chain, depth: nat): (r: seq<Chain>)
    requires depth <= MAX_ENCODED
    ensures strings != [] ==> r != []
    decreases MAX_ENCODED - depth, |strings|
  {
    if strings == [] then [] else
    StringChains(lex, strings[0], enclosing, depth) + TokChains(lex, strings[1..], enclosing, depth)
  }

  function Toks(out: seq<Found>): (r: seq<Chain>)
    ensures |r| == |out| && forall i :: 0 <= i < |r| ==> r[i] == out[i].leaf.tok
  {
    seq(|out|, i requires 0 <= i < |out| => out[i].leaf.tok)
  }

  lemma ToksAppend(a: seq<Found>, b: seq<Found>)
    ensures Toks(a + b) == Toks(a) + Toks(b)
  {
  }

  /** A leaf's value is what its token spells, and its flag tells how deep it stands. */
  ghost predicate Told(f: Found) {
    && f.leaf.tok.Tok? && f.leaf.value == Decode(f.leaf.tok.raw)
    && (f.leaf.encoded <==> 1 < ChainDepth(f.leaf.tok) <= MAX_ENCODED)
  }

  ghost predicate AllTold(out: seq<Found>) {
    forall f :: f in out ==> Told(f)
  }

  ghost predicate DocOk(doc: Doc) {
    doc.depth <= MAX_ENCODED && ChainDepth(doc.enclosing) == doc.depth && (doc.encoded <==> doc.depth > 0)
  }

  lemma ToldAppend(a: seq<Found>, b: seq<Found>)
    requires AllTold(a) && AllTold(b)
    ensures AllTold(a + b)
  {
    hide Told;
  }

  lemma EmitTold(raw: bytes, start: nat, path: bytes, doc: Doc, place: Place, occ: Counter)
    requires DocOk(doc)
    ensures
      var tok := Tok(raw, start, doc.enclosing);
      var out := Emit(Decode(raw), path, doc, tok, place, occ).0;
      AllTold(out) && Toks(out) == [tok]
  {
    hide JoinIdentity, Decode;
  }

  lemma NoChains(lex: Lexer, enclosing: Chain, depth: nat)
    requires depth <= MAX_ENCODED
    ensures TokChains(lex, [], enclosing, depth) == []
  {
  }

  /** A string's leaves stand where its tokens say. */
  lemma {:induction false} StringFound(
    lex: Lexer, raw: bytes, start: nat, path: bytes, doc: Doc, place: Place, occ: Counter)
    requires DocOk(doc)
    ensures
      var tok := Tok(raw, start, doc.enclosing);
      var out := LeavesOfString(lex, Decode(raw), path, doc, tok, place, occ).0;
      AllTold(out) && Toks(out) == StringChains(lex, Quote(raw, start), doc.enclosing, doc.depth)
    decreases MAX_ENCODED - doc.depth, 0, 0
  {
    hide AllTold, WalkDocument, Emit, Decode, ContentOf, TokChains;
    var tok := Tok(raw, start, doc.enclosing);
    if doc.depth < MAX_ENCODED {
      var inner := Doc(path, true, doc.depth + 1, tok, place.scalars);
      DocumentFound(lex, Decode(raw), inner, occ);
      var (r, occ1) := WalkDocument(lex, Decode(raw), inner, occ);
      EmitTold(raw, start, path, doc, place, occ1);
      assert r.Some? ==> |Toks(r.value)| == |r.value|;
      NoChains(lex, tok, doc.depth + 1);
    } else {
      EmitTold(raw, start, path, doc, place, occ);
    }
  }

  /** A document is accepted by its tokens alone, and its leaves stand where they say. */
  lemma {:induction false} DocumentFound(lex: Lexer, data: bytes, doc: Doc, occ: Counter)
    requires DocOk(doc)
    ensures
      var r, c := WalkDocument(lex, data, doc, occ).0, ContentOf(lex, data);
      && (r.Some? <==> c.Some?)
      && (r.Some? ==>
            AllTold(r.value) && Toks(r.value) == TokChains(lex, c.value.strings, doc.enclosing, doc.depth))
    decreases MAX_ENCODED - doc.depth, 2, 0
  {
    hide AllTold, WalkTokens, Parse, TokChains;
    assert AllTold([]) by { NothingTold(); }
    assert Marks([]) == [] && Toks([]) == [];
    TokensFound(lex, lex(data).tokens, [], [], doc, occ);
  }

  lemma NothingTold()
    ensures AllTold([])
  {
  }

  ghost predicate Same(
    lex: Lexer, r: Option<(seq<Found>, seq<Token>)>, p: Option<(Content, seq<Token>)>, out: seq<Found>, doc: Doc)
    requires doc.depth <= MAX_ENCODED
  {
    && (r.Some? <==> p.Some?)
    && (r.Some? ==>
          && AllTold(r.value.0) && r.value.1 == p.value.1
          && Toks(r.value.0) == Toks(out) + TokChains(lex, p.value.0.strings, doc.enclosing, doc.depth))
  }

  lemma SameEnd(lex: Lexer, rest: seq<Token>, out: seq<Found>, doc: Doc)
    requires doc.depth <= MAX_ENCODED && AllTold(out)
    ensures Same(lex, Some((out, rest)), Some((Content([], []), rest)), out, doc)
  {
    hide AllTold;
    assert Toks(out) + [] == Toks(out);
  }

  lemma SameKey(
    lex: Lexer, r: Option<(seq<Found>, seq<Token>)>, p: Option<(Content, seq<Token>)>, key: bytes, out: seq<Found>,
    doc: Doc)
    requires doc.depth <= MAX_ENCODED && Same(lex, r, p, out, doc)
    ensures Same(lex, r, WithKey(key, p), out, doc)
  {
    hide AllTold, TokChains;
  }

  lemma SameString(
    lex: Lexer, r: Option<(seq<Found>, seq<Token>)>, p: Option<(Content, seq<Token>)>, q: Quote,
    out: seq<Found>, more: seq<Found>, doc: Doc)
    requires doc.depth <= MAX_ENCODED && Same(lex, r, p, out + more, doc)
    requires Toks(more) == StringChains(lex, q, doc.enclosing, doc.depth)
    ensures Same(lex, r, WithString(q, p), out, doc)
  {
    hide AllTold, StringChains;
    if p.Some? {
      var strings := p.value.0.strings;
      assert ([q] + strings)[0] == q && ([q] + strings)[1..] == strings;
      ToksAppend(out, more);
      Assoc(Toks(out), Toks(more), TokChains(lex, strings, doc.enclosing, doc.depth));
    }
  }

  lemma MarksWithTop(stack: seq<Frame>, top: Frame)
    requires stack != []
    ensures Marks(WithTop(stack, top)) == Marks(stack)[..|stack| - 1] + [MarkOf(top)]
  {
  }

  lemma MarksAdvance(stack: seq<Frame>)
    ensures Marks(Advance(stack)) == PastValue(Marks(stack))
  {
    if stack != [] {
      var top := stack[|stack| - 1];
      MarksWithTop(stack, if top.isObject then top.(hasKey := false) else top.(index := top.index + 1));
    }
  }

  lemma MarksCapture(stack: seq<Frame>, name: bytes, raw: bytes)
    ensures Marks(Capture(stack, name, raw)) == Marks(stack)
  {
  }

  lemma MarksPush(stack: seq<Frame>, top: Frame)
    ensures Marks(stack + [top]) == Marks(stack) + [MarkOf(top)]
  {
  }

  lemma MarksPop(stack: seq<Frame>)
    requires stack != []
    ensures Marks(stack[..|stack| - 1]) == Marks(stack)[..|stack| - 1]
    ensures Last(Marks(stack)) == MarkOf(stack[|stack| - 1])
  {
  }

  lemma {:induction false} TokensFound(
    lex: Lexer, tokens: seq<Token>, stack: seq<Frame>, out: seq<Found>, doc: Doc, occ: Counter)
    requires DocOk(doc) && AllTold(out)
    ensures Same(lex, WalkTokens(lex, tokens, stack, out, doc, occ).0, Parse(tokens, Marks(stack)), out, doc)
    decreases MAX_ENCODED - doc.depth, 1, |tokens|, 0
  {
    hide AllTold, LeavesOfString, Advance, Capture, JoinSegs, Flatten, ChildSegment, MemberName, ScalarRaw, Decode;
    hide PlaceIn;
    hide Same, WithKey, WithString, Marks, PastValue, Last;
    if tokens == [] {
      assert Same(lex, None, None, out, doc) by { Neither(lex, out, doc); }
      return;
    }
    Neither(lex, out, doc);
    var tok, rest := tokens[0], tokens[1..];
    MarksAdvance(stack);
    SameEnd(lex, rest, out, doc);
    match tok {
      case Open(isObject) =>
        if |stack| < MAX_NESTING {
          var top := Frame(isObject, [], false, 0, ChildSegment(stack), []);
          MarksPush(Advance(stack), top);
          TokensFound(lex, rest, Advance(stack) + [top], out, doc, occ);
        }
      case Close =>
        if |stack| > 1 {
          MarksPop(stack);
          TokensFound(lex, rest, stack[..|stack| - 1], out, doc, occ);
        }
      case Text(raw, start) => TextFound(lex, raw, start, rest, stack, out, doc, occ);
        assert tokens == [tok] + rest;
      case Literal(slice) =>
        if stack != [] {
          MarksPop(stack);
          var after := Capture(Advance(stack), MemberName(stack), ScalarRaw(slice));
          MarksCapture(Advance(stack), MemberName(stack), ScalarRaw(slice));
          var top := stack[|stack| - 1];
          if !(top.isObject && !top.hasKey) {
            TokensFound(lex, rest, after, out, doc, occ);
          }
        }
    }
  }

  lemma Neither(lex: Lexer, out: seq<Found>, doc: Doc)
    requires doc.depth <= MAX_ENCODED
    ensures Same(lex, None, None, out, doc)
  {
  }

  lemma {:induction false} TextFound(
    lex: Lexer, raw: bytes, start: nat, rest: seq<Token>, stack: seq<Frame>, out: seq<Found>, doc: Doc, occ: Counter)
    requires DocOk(doc) && AllTold(out)
    ensures
      var tokens := [Text(raw, start)] + rest;
      Same(lex, WalkTokens(lex, tokens, stack, out, doc, occ).0, Parse(tokens, Marks(stack)), out, doc)
    decreases MAX_ENCODED - doc.depth, 1, |rest|, 1
  {
    hide AllTold, LeavesOfString, Advance, Capture, JoinSegs, Flatten, ChildSegment, MemberName, ScalarRaw, Decode;
    hide PlaceIn;
    hide Same, WithKey, WithString, Marks, PastValue, Last, StringChains;
    var tokens := [Text(raw, start)] + rest;
    assert tokens[0] == Text(raw, start) && tokens[1..] == rest;
    MarksAdvance(stack);
    var q := Quote(raw, start);
    if stack == [] {
      OneString(lex, q, doc.base, rest, out, doc, PlaceIn(doc.inherited, []), occ);
    } else {
      MarksPop(stack);
      var top := stack[|stack| - 1];
      if top.isObject && !top.hasKey {
        var keyed := top.(key := Decode(raw), hasKey := true);
        MarksWithTop(stack, keyed);
        TokensFound(lex, rest, WithTop(stack, keyed), out, doc, occ);
        SameKey(lex, WalkTokens(lex, rest, WithTop(stack, keyed), out, doc, occ).0,
                Parse(rest, Marks(WithTop(stack, keyed))), Decode(raw), out, doc);
      } else {
        var after := Advance(stack);
        var path, place := doc.base + JoinSegs(after) + ChildSegment(stack), PlaceIn(doc.inherited, after);
        var (more, occ1) := LeavesOfString(lex, Decode(raw), path, doc, Tok(raw, start, doc.enclosing), place, occ);
        StringFound(lex, raw, start, path, doc, place, occ);
        ToldAppend(out, more);
        TokensFound(lex, rest, after, out + more, doc, occ1);
        SameString(lex, WalkTokens(lex, rest, after, out + more, doc, occ1).0, Parse(rest, Marks(after)), q, out, more,
          doc);
      }
    }
  }

  lemma {:induction false} OneString(
    lex: Lexer, q: Quote, path: bytes, rest: seq<Token>, out: seq<Found>, doc: Doc, place: Place, occ: Counter)
    requires DocOk(doc) && AllTold(out)
    ensures
      var more := LeavesOfString(lex, Decode(q.raw), path, doc, Tok(q.raw, q.start, doc.enclosing), place, occ).0;
      Same(lex, Some((out + more, rest)), Some((Content([], [q]), rest)), out, doc)
    decreases MAX_ENCODED - doc.depth, 0, 1
  {
    hide AllTold, LeavesOfString, Decode, StringChains;
    var more := LeavesOfString(lex, Decode(q.raw), path, doc, Tok(q.raw, q.start, doc.enclosing), place, occ).0;
    StringFound(lex, q.raw, q.start, path, doc, place, occ);
    ToldAppend(out, more);
    SameEnd(lex, rest, out + more, doc);
    SameString(lex, Some((out + more, rest)), Some((Content([], []), rest)), q, out, more, doc);
    assert [q] + [] == [q];
  }
}
