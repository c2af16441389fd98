/**
 Which documents have leaves with distinct identities, told from their keys alone: those
 whose keys, and the keys of the documents in their strings, do not hold the separator.
 */
module WalkKeys {
  import opened Bytes
  import opened Lens
  import opened Walk
  import opened WalkIdentity
  import opened WalkStrings
  import Utf8

  /** No key of the document holds the separator, nor one of a document in its strings. */
  ghost predicate CleanKeys(lex: Lexer, text: bytes, depth: nat)
    requires depth <= MAX_ENCODED
    decreases MAX_ENCODED - depth, 1
  {
    ContentOf(lex, text).Some? ==> CleanContent(lex, ContentOf(lex, text).value, depth)
  }

  ghost predicate CleanContent(lex: Lexer, c: Content, depth: nat)
    requires depth <= MAX_ENCODED
    decreases MAX_ENCODED - depth, 0
  {
    && (forall k :: k in c.keys ==> NoSeparator(k))
    && (depth < MAX_ENCODED ==> forall q :: q in c.strings ==> CleanKeys(lex, Decode(q.raw), depth + 1))
  }

  ghost predicate CleanPaths(out: seq<Found>) {
    forall f :: f in out ==> NoSeparator(f.path)
  }

  ghost predicate CleanStack(stack: seq<Frame>) {
    forall f :: f in stack ==> NoSeparator(f.seg) && NoSeparator(f.key)
  }

  lemma CleanAppend(a: bytes, b: bytes)
    requires NoSeparator(a) && NoSeparator(b)
    ensures NoSeparator(a + b)
  {
  }

  lemma {:induction false} CleanEscape(key: bytes)
    requires NoSeparator(key)
    ensures NoSeparator(EscapePointer(key))
  {
    if key != [] {
      CleanEscape(key[1..]);
    }
  }

  lemma {:induction false} CleanSegs(stack: seq<Frame>)
    requires CleanStack(stack)
    ensures NoSeparator(JoinSegs(stack))
  {
    if stack != [] {
      var n := |stack| - 1;
      assert stack[n] in stack;
      CleanSegs(stack[..n]);
    }
  }

  lemma CleanChild(stack: seq<Frame>)
    requires CleanStack(stack)
    ensures NoSeparator(ChildSegment(stack))
  {
    hide Itoa, EscapePointer;
    if stack != [] {
      var top := stack[|stack| - 1];
      assert top in stack;
      CleanEscape(top.key);
      ItoaDigits(top.index);
    }
  }

  lemma CleanWithTop(stack: seq<Frame>, top: Frame)
    requires CleanStack(stack) && stack != [] && NoSeparator(top.seg) && NoSeparator(top.key)
    ensures CleanStack(WithTop(stack, top))
  {
    hide NoSeparator;
  }

  lemma CleanMoved(stack: seq<Frame>, name: bytes, raw: bytes)
    requires CleanStack(stack)
    ensures CleanStack(Advance(stack)) && CleanStack(Capture(Advance(stack), name, raw))
    ensures stack != [] ==> CleanStack(stack[..|stack| - 1]) && NoSeparator(stack[|stack| - 1].seg)
  {
    hide NoSeparator;
    if stack != [] {
      var top := stack[|stack| - 1];
      assert top in stack;
      CleanWithTop(stack, if top.isObject then top.(hasKey := false) else top.(index := top.index + 1));
      var after := Advance(stack);
      assert after[|after| - 1] in after;
      CleanWithTop(after, after[|after| - 1].(scalars := after[|after| - 1].scalars + [Named(name, raw)]));
    }
  }

  lemma CleanPush(stack: seq<Frame>, isObject: bool)
    requires CleanStack(stack)
    ensures CleanStack(Advance(stack) + [Frame(isObject, [], false, 0, ChildSegment(stack), [])])
  {
    hide Advance, ChildSegment, Capture;
    CleanMoved(stack, [], []);
    CleanChild(stack);
  }

  /** A content is the first key or string of the tokens and the content of the rest. */
  lemma CleanKeyed(lex: Lexer, key: bytes, c: Content, depth: nat)
    requires depth <= MAX_ENCODED
    ensures CleanContent(lex, Content([key] + c.keys, c.strings), depth) <==>
            NoSeparator(key) && CleanContent(lex, c, depth)
  {
    hide NoSeparator, CleanKeys;
    var all := Content([key] + c.keys, c.strings);
    assert key in all.keys && forall k :: k in all.keys <==> k == key || k in c.keys;
  }

  lemma CleanString(lex: Lexer, q: Quote, c: Content, depth: nat)
    requires depth <= MAX_ENCODED && CleanContent(lex, Content(c.keys, [q] + c.strings), depth)
    ensures CleanContent(lex, c, depth) && (depth < MAX_ENCODED ==> CleanKeys(lex, Decode(q.raw), depth + 1))
  {
    hide NoSeparator, CleanKeys, Decode;
    var all := Content(c.keys, [q] + c.strings);
    assert q in all.strings && forall s :: s in all.strings <==> s == q || s in c.strings;
  }

  lemma {:induction false} StringClean(lex: Lexer, q: Quote, path: bytes, doc: Doc, place: Place, occ: Counter)
    requires DocOk(doc) && NoSeparator(path)
    requires doc.depth < MAX_ENCODED ==> CleanKeys(lex, Decode(q.raw), doc.depth + 1)
    ensures
      CleanPaths(LeavesOfString(lex, Decode(q.raw), path, doc, Tok(q.raw, q.start, doc.enclosing), place, occ).0)
    decreases MAX_ENCODED - doc.depth, 0, 0
  {
    hide NoSeparator, CleanKeys, Decode, WalkDocument, JoinIdentity;
    if doc.depth < MAX_ENCODED {
      var inner := Doc(path, true, doc.depth + 1, Tok(q.raw, q.start, doc.enclosing), place.scalars);
      DocumentClean(lex, Decode(q.raw), inner, occ);
    }
  }

  lemma {:induction false} DocumentClean(lex: Lexer, data: bytes, doc: Doc, occ: Counter)
    requires DocOk(doc) && NoSeparator(doc.base) && CleanKeys(lex, data, doc.depth)
    ensures
      var r := WalkDocument(lex, data, doc, occ).0;
      r.Some? ==> CleanPaths(r.value)
    decreases MAX_ENCODED - doc.depth, 2, 0
  {
    hide NoSeparator, WalkTokens, CleanContent, Parse;
    assert Marks([]) == [];
    DocumentFound(lex, data, doc, occ);
    if WalkDocument(lex, data, doc, occ).0.Some? {
      TokensClean(lex, lex(data).tokens, [], [], doc, occ);
    }
  }

  ghost predicate CleanParse(lex: Lexer, p: Option<(Content, seq<Token>)>, depth: nat)
    requires depth <= MAX_ENCODED
  {
    p.Some? && CleanContent(lex, p.value.0, depth)
  }

  lemma CleanWithKey(lex: Lexer, key: bytes, p: Option<(Content, seq<Token>)>, depth: nat)
    requires depth <= MAX_ENCODED && CleanParse(lex, WithKey(key, p), depth)
    ensures NoSeparator(key) && CleanParse(lex, p, depth)
  {
    hide NoSeparator, CleanContent;
    CleanKeyed(lex, key, p.value.0, depth);
  }

  lemma CleanWithString(lex: Lexer, q: Quote, p: Option<(Content, seq<Token>)>, depth: nat)
    requires depth <= MAX_ENCODED && CleanParse(lex, WithString(q, p), depth)
    ensures CleanParse(lex, p, depth) && (depth < MAX_ENCODED ==> CleanKeys(lex, Decode(q.raw), depth + 1))
  {
    hide CleanKeys, CleanContent, Decode;
    CleanString(lex, q, p.value.0, depth);
  }

  lemma {:induction false} TokensClean(
    lex: Lexer, tokens: seq<Token>, stack: seq<Frame>, out: seq<Found>, doc: Doc, occ: Counter)
    requires DocOk(doc) && NoSeparator(doc.base) && CleanStack(stack) && CleanPaths(out)
    requires CleanParse(lex, Parse(tokens, Marks(stack)), doc.depth)
    ensures
      var r := WalkTokens(lex, tokens, stack, out, doc, occ).0;
      r.Some? ==> CleanPaths(r.value.0)
    decreases MAX_ENCODED - doc.depth, 1, |tokens|, 0
  {
    hide NoSeparator, LeavesOfString, Advance, Capture, JoinSegs, Flatten, ChildSegment, MemberName, ScalarRaw, Decode;
    hide CleanParse, WithKey, WithString, Marks, PastValue, Last, PlaceIn, CleanPaths, CleanStack;
    assert tokens != [] by { CleanSome(lex, tokens, Marks(stack), doc.depth); }
    var tok, rest := tokens[0], tokens[1..];
    CleanNone(lex, doc.depth);
    MarksAdvance(stack);
    match tok {
      case Open(isObject) =>
        if |stack| < MAX_NESTING {
          var top := Frame(isObject, [], false, 0, ChildSegment(stack), []);
          MarksPush(Advance(stack), top);
          CleanPush(stack, isObject);
          TokensClean(lex, rest, Advance(stack) + [top], out, doc, occ);
        }
      case Close =>
        if |stack| > 1 {
          MarksPop(stack);
          CleanMoved(stack, [], []);
          TokensClean(lex, rest, stack[..|stack| - 1], out, doc, occ);
        }
      case Text(raw, start) =>
        assert tokens == [tok] + rest;
        TextClean(lex, raw, start, rest, stack, out, doc, occ);
      case Literal(slice) =>
        if stack != [] {
          MarksPop(stack);
          MarksCapture(Advance(stack), MemberName(stack), ScalarRaw(slice));
          CleanMoved(stack, MemberName(stack), ScalarRaw(slice));
          var top := stack[|stack| - 1];
          if !(top.isObject && !top.hasKey) {
            TokensClean(lex, rest, Capture(Advance(stack), MemberName(stack), ScalarRaw(slice)), out, doc, occ);
          }
        }
    }
  }

  lemma CleanSome(lex: Lexer, tokens: seq<Token>, open: seq<Mark>, depth: nat)
    requires depth <= MAX_ENCODED && CleanParse(lex, Parse(tokens, open), depth)
    ensures tokens != []
  {
  }

  lemma CleanNone(lex: Lexer, depth: nat)
    requires depth <= MAX_ENCODED
    ensures !CleanParse(lex, None, depth)
  {
  }

  lemma CleanMore(out: seq<Found>, more: seq<Found>)
    requires CleanPaths(out) && CleanPaths(more)
    ensures CleanPaths(out + more)
  {
    hide NoSeparator;
  }

  lemma {:induction false} TextClean(
    lex: Lexer, raw: bytes, start: nat, rest: seq<Token>, stack: seq<Frame>, out: seq<Found>, doc: Doc, occ: Counter)
    requires DocOk(doc) && NoSeparator(doc.base) && CleanStack(stack) && CleanPaths(out)
    requires CleanParse(lex, Parse([Text(raw, start)] + rest, Marks(stack)), doc.depth)
    ensures
      var r := WalkTokens(lex, [Text(raw, start)] + rest, stack, out, doc, occ).0;
      r.Some? ==> CleanPaths(r.value.0)
    decreases MAX_ENCODED - doc.depth, 1, |rest|, 1
  {
    hide NoSeparator, LeavesOfString, Advance, Capture, JoinSegs, Flatten, ChildSegment, MemberName, ScalarRaw, Decode;
    hide CleanParse, WithKey, WithString, Marks, PastValue, Last, PlaceIn, CleanPaths, CleanStack;
    var tokens, q := [Text(raw, start)] + rest, Quote(raw, start);
    assert tokens[0] == Text(raw, start) && tokens[1..] == rest;
    MarksAdvance(stack);
    if stack == [] {
      CleanOnly(lex, q, rest, doc.depth);
      StringClean(lex, q, doc.base, doc, PlaceIn(doc.inherited, []), occ);
      CleanMore(out, LeavesOfString(lex, Decode(raw), doc.base, doc, Tok(raw, start, doc.enclosing),
        PlaceIn(doc.inherited, []), occ).0);
    } else {
      MarksPop(stack);
      CleanMoved(stack, [], []);
      var top := stack[|stack| - 1];
      if top.isObject && !top.hasKey {
        var keyed := top.(key := Decode(raw), hasKey := true);
        MarksWithTop(stack, keyed);
        CleanWithKey(lex, Decode(raw), Parse(rest, Marks(WithTop(stack, keyed))), doc.depth);
        CleanWithTop(stack, keyed);
        TokensClean(lex, rest, WithTop(stack, keyed), out, doc, occ);
      } else {
        var after := Advance(stack);
        CleanWithString(lex, q, Parse(rest, Marks(after)), doc.depth);
        var path, place := doc.base + JoinSegs(after) + ChildSegment(stack), PlaceIn(doc.inherited, after);
        CleanPath(doc.base, stack);
        StringClean(lex, q, path, doc, place, occ);
        var (more, occ1) := LeavesOfString(lex, Decode(raw), path, doc, Tok(raw, start, doc.enclosing), place, occ);
        CleanMore(out, more);
        TokensClean(lex, rest, after, out + more, doc, occ1);
      }
    }
  }

  lemma CleanPath(base: bytes, stack: seq<Frame>)
    requires NoSeparator(base) && CleanStack(stack)
    ensures NoSeparator(base + JoinSegs(Advance(stack)) + ChildSegment(stack))
  {
    hide NoSeparator, JoinSegs, Advance, ChildSegment, CleanStack;
    CleanMoved(stack, [], []);
    CleanSegs(Advance(stack));
    CleanChild(stack);
    CleanAppend(base, JoinSegs(Advance(stack)));
    CleanAppend(base + JoinSegs(Advance(stack)), ChildSegment(stack));
  }

  lemma CleanOnly(lex: Lexer, q: Quote, rest: seq<Token>, depth: nat)
    requires depth <= MAX_ENCODED && CleanParse(lex, Some((Content([], [q]), rest)), depth)
    ensures depth < MAX_ENCODED ==> CleanKeys(lex, Decode(q.raw), depth + 1)
  {
    hide CleanKeys, Decode;
    assert q in [q];
  }

  /**
   When no key of the document, nor of a document in its strings, holds the separator, the
   leaves of one call of Walk have distinct identities.
   */
  lemma CleanKeysDistinct(lex: Lexer, data: bytes)
    requires CleanKeys(lex, data, 0)
    ensures
      var r := WalkAll(lex, data);
      r.Some? ==> forall i, j :: 0 <= i < j < |r.value| ==> r.value[i].leaf.identity != r.value[j].leaf.identity
  {
    hide WalkDocument, CleanKeys, NoSeparator;
    if Utf8.Valid(data) {
      var doc := Doc([], false, 0, Root, []);
      assert NoSeparator(doc.base) by { NothingClean(); }
      DocumentClean(lex, data, doc, map[]);
      IdentitiesDistinct(lex, data);
    }
  }

  lemma NothingClean()
    ensures NoSeparator([])
  {
  }
}
