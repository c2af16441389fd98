/**
 The leaves that Walk reports as not encoded: those of the document itself, and those behind
 as many wrappers as Walk opens, where it stops looking. The paths of the first lead home;
 those of the others do not.
 */
module WalkEncoded {
  import opened Bytes
  import opened Lens
  import opened LensPut
  import Tree
  import opened Walk
  import opened WalkLaws
  import opened WalkIdentity
  import opened WalkStrings
  import opened WalkPaths
  import Utf8

  const TOP := Doc([], false, 0, Root, [])

  lemma {:induction false} StringDepths(lex: Lexer, q: Quote, enclosing: Chain, depth: nat)
    requires depth <= MAX_ENCODED && ChainDepth(enclosing) == depth
    ensures forall c :: c in StringChains(lex, q, enclosing, depth) ==> depth < ChainDepth(c) <= MAX_ENCODED + 1
    decreases MAX_ENCODED - depth, 0
  {
    hide StringsIn, Decode;
    var c := Tok(q.raw, q.start, enclosing);
    if depth < MAX_ENCODED {
      Depths(lex, StringsIn(lex, Decode(q.raw)), c, depth + 1);
    }
  }

  /** Every place is deeper than the document around it, and at most one wrapper too deep. */
  lemma {:induction false} Depths(lex: Lexer, strings: seq<Quote>, enclosing: Chain, depth: nat)
    requires depth <= MAX_ENCODED && ChainDepth(enclosing) == depth
    ensures forall c :: c in TokChains(lex, strings, enclosing, depth) ==> depth < ChainDepth(c) <= MAX_ENCODED + 1
    decreases MAX_ENCODED - depth, |strings|
  {
    hide StringChains, ChainDepth;
    if strings != [] {
      StringDepths(lex, strings[0], enclosing, depth);
      Depths(lex, strings[1..], enclosing, depth);
    }
  }

  /**
   A leaf is reported as not encoded exactly when it is a string of the document itself, or
   stands behind 32 wrappers, where Walk stops opening them.
   */
  lemma NotEncoded(lex: Lexer, data: bytes, f: Found)
    requires WalkAll(lex, data).Some? && f in WalkAll(lex, data).value
    ensures f.leaf.tok.Tok? && f.leaf.value == Decode(f.leaf.tok.raw)
    ensures 1 <= ChainDepth(f.leaf.tok) <= MAX_ENCODED + 1
    ensures !f.leaf.encoded <==> ChainDepth(f.leaf.tok) == 1 || ChainDepth(f.leaf.tok) == MAX_ENCODED + 1
  {
    hide WalkDocument, TokChains, Decode;
    DocumentFound(lex, data, TOP, map[]);
    var out := WalkAll(lex, data).value;
    assert Told(f);
    var i :| 0 <= i < |out| && out[i] == f;
    assert Toks(out)[i] in TokChains(lex, ContentOf(lex, data).value.strings, Root, 0);
    Depths(lex, ContentOf(lex, data).value.strings, Root, 0);
  }

  // --------------------------------------------------------------- strings behind wrappers

  /** Some string of the text stands behind n strings that are read as documents. */
  ghost predicate BehindWrappers(lex: Lexer, text: bytes, n: nat)
    decreases n, 1
  {
    SomeBehind(lex, StringsIn(lex, text), n)
  }

  ghost predicate SomeBehind(lex: Lexer, strings: seq<Quote>, n: nat)
    decreases n, 0
  {
    exists q :: q in strings && (n > 0 ==> BehindWrappers(lex, Decode(q.raw), n - 1))
  }

  lemma OneBehind(lex: Lexer, strings: seq<Quote>, n: nat)
    requires strings != []
    ensures SomeBehind(lex, strings, n) <==>
            (n > 0 ==> BehindWrappers(lex, Decode(strings[0].raw), n - 1)) || SomeBehind(lex, strings[1..], n)
  {
    hide BehindWrappers, Decode;
    assert strings[0] in strings;
    forall q | q in strings ensures q == strings[0] || q in strings[1..] {
    }
  }

  lemma {:induction false} StringBehind(lex: Lexer, q: Quote, enclosing: Chain, n: nat)
    requires n <= MAX_ENCODED && ChainDepth(enclosing) == MAX_ENCODED - n
    ensures (exists c :: c in StringChains(lex, q, enclosing, MAX_ENCODED - n) && ChainDepth(c) == MAX_ENCODED + 1)
            <==> (n > 0 ==> BehindWrappers(lex, Decode(q.raw), n - 1))
    decreases n, 0, 1
  {
    hide StringsIn, Decode, SomeBehind;
    var depth := MAX_ENCODED - n;
    var own := Tok(q.raw, q.start, enclosing);
    if n == 0 {
      assert own in StringChains(lex, q, enclosing, depth);
    } else {
      var strings := StringsIn(lex, Decode(q.raw));
      DeepChains(lex, strings, own, n - 1);
      if strings == [] {
        NoneBehind(lex, n - 1);
      }
    }
  }

  lemma NoneBehind(lex: Lexer, n: nat)
    ensures !SomeBehind(lex, [], n)
  {
  }

  /** A place behind 32 wrappers is that of a string behind so many of them. */
  lemma {:induction false} DeepChains(lex: Lexer, strings: seq<Quote>, enclosing: Chain, n: nat)
    requires n <= MAX_ENCODED && ChainDepth(enclosing) == MAX_ENCODED - n
    ensures (exists c :: c in TokChains(lex, strings, enclosing, MAX_ENCODED - n) && ChainDepth(c) == MAX_ENCODED + 1)
            <==> SomeBehind(lex, strings, n)
    decreases n, 1, |strings|
  {
    hide StringChains, SomeBehind, BehindWrappers, Decode, ChainDepth;
    if strings == [] {
      NoneBehind(lex, n);
    } else {
      var a := StringChains(lex, strings[0], enclosing, MAX_ENCODED - n);
      var b := TokChains(lex, strings[1..], enclosing, MAX_ENCODED - n);
      assert forall c :: c in a + b <==> c in a || c in b;
      StringBehind(lex, strings[0], enclosing, n);
      DeepChains(lex, strings[1..], enclosing, n);
      OneBehind(lex, strings, n);
    }
  }

  // ------------------------------------------------------------------ the paths that lead home

  /** Evaluating the leaf's path in the document gives the string that the leaf is. */
  ghost predicate LeadsHome(v: Value, f: Found) {
    exists tokens, raw, start ::
      && ParsePointer(f.path) == Some(tokens) && Lookup(v, tokens) == Some(Str(raw, start))
      && f.leaf.value == Decode(raw) && f.leaf.tok == Tok(raw, start, Root)
  }

  /**
   The path of every leaf reported as not encoded leads home, exactly when no string of the
   document stands behind 32 strings that are read as documents.
   */
  lemma PathsLeadHomeExactly(lex: Lexer, v: Value, data: bytes)
    requires Utf8.Valid(data) && lex(data) == Lexed(Tokens(v), true) && Nesting(v) <= MAX_NESTING && UniqueKeys(v)
    ensures WalkAll(lex, data).Some?
    ensures (forall f :: f in WalkAll(lex, data).value && !f.leaf.encoded ==> LeadsHome(v, f))
            <==> !BehindWrappers(lex, data, MAX_ENCODED)
  {
    hide WalkDocument, UniqueKeys, LeadsHome, SomeBehind, ValueLeaves, TokChains;
    DocumentWalk(lex, v, data, TOP, map[]);
    DocumentFound(lex, data, TOP, map[]);
    var out := WalkAll(lex, data).value;
    DeepChains(lex, StringsIn(lex, data), Root, MAX_ENCODED);
    if BehindWrappers(lex, data, MAX_ENCODED) {
      var c :| c in Toks(out) && ChainDepth(c) == MAX_ENCODED + 1;
      var i :| 0 <= i < |out| && Toks(out)[i] == c;
      assert out[i] in out;
      NotEncoded(lex, data, out[i]);
      TooDeep(v, out[i]);
    } else {
      forall f | f in out && !f.leaf.encoded ensures LeadsHome(v, f) {
        NotEncoded(lex, data, f);
        var i :| 0 <= i < |out| && out[i] == f;
        assert Toks(out)[i] in Toks(out);
        OfDocument(f.leaf.tok);
        Home(lex, v, data, f);
      }
    }
  }

  lemma OfDocument(c: Chain)
    requires ChainDepth(c) == 1
    ensures c.Tok? && c.parent == Root
  {
    assert ChainDepth(c.parent) == 0;
  }

  lemma TooDeep(v: Value, f: Found)
    requires ChainDepth(f.leaf.tok) > 1
    ensures !LeadsHome(v, f)
  {
    hide Decode, Lookup, ParsePointer;
    forall raw, start ensures f.leaf.tok != Tok(raw, start, Root) {
      assert ChainDepth(Root) == 0;
    }
  }

  lemma Home(lex: Lexer, v: Value, data: bytes, f: Found)
    requires Utf8.Valid(data) && lex(data) == Lexed(Tokens(v), true) && Nesting(v) <= MAX_NESTING && UniqueKeys(v)
    requires WalkAll(lex, data).Some? && f in WalkAll(lex, data).value && f.leaf.tok.Tok? && f.leaf.tok.parent == Root
    ensures LeadsHome(v, f)
  {
    hide WalkAll, UniqueKeys, Lookup, ParsePointer, Decode;
    PathsLeadHome(lex, v, data, f);
  }

  // ------------------------------------------------------------------------ a string too deep

  /** A quote or a backslash, which an interior may also spell by its code point. */
  predicate Special(c: byte) {
    c == QUOTE || c == BACKSLASH
  }

  function CodePoint(c: byte): bytes
    requires Special(c)
  {
    [BACKSLASH, LOWER_U, 48, 48] + if c == QUOTE then [50, 50] else [53, 99]
  }

  /** The interior that spells x, its quotes and backslashes by their code points. */
  function ByCode(x: bytes): bytes {
    if x == [] then [] else (if Special(x[0]) then CodePoint(x[0]) else [x[0]]) + ByCode(x[1..])
  }

  /** The letter x as a document, behind n strings that spell documents. */
  function Wrapped(n: nat): bytes {
    if n == 0 then Tree.Quoted([120]) else Tree.Quoted(ByCode(Wrapped(n - 1)))
  }

  /** A decoder of documents that are one string. */
  function StringLexer(text: bytes): Lexed {
    if |text| >= 2 && text[0] == QUOTE && text[|text| - 1] == QUOTE && Interior(text[1..|text| - 1])
    then Lexed([Text(text[1..|text| - 1], 0)], true)
    else Lexed([], false)
  }

  /** Printable ASCII text. */
  predicate Printable(x: bytes) {
    forall i :: 0 <= i < |x| ==> 0x20 <= x[i] < 0x80
  }

  function Specials(x: bytes): nat {
    if x == [] then 0 else (if Special(x[0]) then 1 else 0) + Specials(x[1..])
  }

  lemma {:induction false} SpecialsAppend(a: bytes, b: bytes)
    ensures Specials(a + b) == Specials(a) + Specials(b)
  {
    if a == [] {
      assert a + b == b;
    } else {
      SpecialsAppend(a[1..], b);
      assert (a + b)[1..] == a[1..] + b;
    }
  }

  lemma CodePointUnit(c: byte, rest: bytes)
    requires Special(c)
    ensures WellUnit(CodePoint(c) + rest) && NextUnit(CodePoint(c) + rest) == Unit(6, [c])
    ensures |CodePoint(c)| == 6 && Printable(CodePoint(c)) && Specials(CodePoint(c)) == 1
  {
    var s := CodePoint(c) + rest;
    assert s[2..6] == [48, 48] + if c == QUOTE then [50, 50] else [53, 99];
    assert Hex4(s[2..6]) == Some(c as nat);
    NoSpecials(CodePoint(c)[1..]);
  }

  lemma {:induction false} NoSpecials(x: bytes)
    requires forall i :: 0 <= i < |x| ==> !Special(x[i])
    ensures Specials(x) == 0
  {
    if x != [] {
      NoSpecials(x[1..]);
    }
  }

  lemma PlainUnit(c: byte, rest: bytes)
    requires 0x20 <= c < 0x80 && !Special(c)
    ensures WellUnit([c] + rest) && NextUnit([c] + rest) == Unit(1, [c])
  {
    assert ([c] + rest)[..1] == [c];
  }

  /** The spelling of the first byte, and of the others. */
  function FirstByCode(x: bytes): bytes
    requires x != []
  {
    if Special(x[0]) then CodePoint(x[0]) else [x[0]]
  }

  lemma FirstUnit(c: byte, rest: bytes)
    requires 0x20 <= c < 0x80
    ensures
      var unit := FirstByCode([c]);
      && WellUnit(unit + rest) && NextUnit(unit + rest) == Unit(|unit|, [c])
      && |unit| == (if Special(c) then 6 else 1) && Printable(unit)
      && Specials(unit) == (if Special(c) then 1 else 0)
  {
    hide WellUnit, NextUnit, CodePoint;
    if Special(c) {
      CodePointUnit(c, rest);
    } else {
      PlainUnit(c, rest);
      NoSpecials([c]);
    }
  }

  lemma ByCodeStep(x: bytes)
    requires x != [] && Printable(x)
    ensures
      var unit, s := FirstByCode(x), ByCode(x);
      && s == unit + ByCode(x[1..]) && s[|unit|..] == ByCode(x[1..]) && x == [x[0]] + x[1..] && Printable(x[1..])
      && WellUnit(s) && NextUnit(s) == Unit(|unit|, [x[0]])
      && |unit| == (if Special(x[0]) then 6 else 1) && Printable(unit)
      && Specials(unit) == (if Special(x[0]) then 1 else 0)
  {
    hide WellUnit, NextUnit, CodePoint, Special, Specials;
    FirstUnit(x[0], ByCode(x[1..]));
    assert FirstByCode([x[0]]) == FirstByCode(x);
  }

  /** The spelling is an interior of x. */
  lemma {:induction false} ByCodeDecodes(x: bytes)
    requires Printable(x)
    ensures Interior(ByCode(x)) && Decode(ByCode(x)) == x
  {
    hide WellUnit, NextUnit, FirstByCode, Specials, Printable;
    if x != [] {
      assert Printable(x) && x != [];
      ByCodeStep(x);
      hide ByCode;
      ByCodeDecodes(x[1..]);
    }
  }

  /** It is longer by five bytes for each byte spelled by its code. */
  lemma {:induction false} ByCodeCounts(x: bytes)
    requires Printable(x)
    ensures Printable(ByCode(x))
    ensures |ByCode(x)| == |x| + 5 * Specials(x) && Specials(ByCode(x)) == Specials(x)
  {
    hide WellUnit, NextUnit, FirstByCode;
    if x != [] {
      ByCodeStep(x);
      ByCodeCounts(x[1..]);
      SpecialsAppend(FirstByCode(x), ByCode(x[1..]));
    }
  }

  lemma QuotedCounts(raw: bytes)
    requires Printable(raw)
    ensures Printable(Tree.Quoted(raw)) && Specials(Tree.Quoted(raw)) == Specials(raw) + 2
  {
    SpecialsAppend(raw, [QUOTE]);
    assert Specials([QUOTE]) == 1 + Specials([QUOTE][1..]);
    assert Tree.Quoted(raw)[1..] == raw + [QUOTE];
  }

  /** Each wrapper adds two quotes, and so two bytes that the next one spells by their code. */
  lemma {:induction false} WrappedLength(n: nat)
    ensures Printable(Wrapped(n)) && Specials(Wrapped(n)) == 2 + 2 * n
    ensures |Wrapped(n)| == 3 + 12 * n + 5 * n * (n - 1)
  {
    hide ByCode, Tree.Quoted, Specials, Printable;
    if n == 0 {
      assert Printable([120]) && Specials([120]) == 0 by { OneLetter(); }
      QuotedCounts([120]);
      QuotedLength([120]);
    } else {
      WrappedLength(n - 1);
      ByCodeCounts(Wrapped(n - 1));
      QuotedCounts(ByCode(Wrapped(n - 1)));
      QuotedLength(ByCode(Wrapped(n - 1)));
    }
  }

  lemma OneLetter()
    ensures Printable([120]) && Specials([120]) == 0
  {
    NoSpecials([120]);
  }

  lemma QuotedLength(raw: bytes)
    ensures |Tree.Quoted(raw)| == |raw| + 2
  {
  }

  lemma Letter()
    ensures Interior([120]) && Decode([120]) == [120]
  {
    var x: bytes := [120];
    assert x[1..] == [] && NextUnit(x) == Unit(1, x[..1]);
    assert x + [] == x;
  }

  lemma LexedQuoted(raw: bytes)
    requires Interior(raw)
    ensures StringLexer(Tree.Quoted(raw)) == Lexed([Text(raw, 0)], true)
  {
    hide Interior;
    var text := Tree.Quoted(raw);
    assert text[1..|text| - 1] == raw;
  }

  lemma WrappedFacts(n: nat)
    ensures Utf8.Valid(Wrapped(n))
    ensures n == 0 ==> StringLexer(Wrapped(n)) == Lexed([Text([120], 0)], true)
    ensures n > 0 ==>
              && StringLexer(Wrapped(n)) == Lexed([Text(ByCode(Wrapped(n - 1)), 0)], true)
              && Decode(ByCode(Wrapped(n - 1))) == Wrapped(n - 1)
  {
    hide ByCode, Decode, Interior, Tree.Quoted, StringLexer, Utf8.Valid, Specials;
    WrappedLength(n);
    AsciiValid(Wrapped(n));
    if n == 0 {
      Letter();
      LexedQuoted([120]);
    } else {
      WrappedLength(n - 1);
      ByCodeDecodes(Wrapped(n - 1));
      LexedQuoted(ByCode(Wrapped(n - 1)));
    }
  }

  lemma WalkOneString(lex: Lexer, data: bytes, raw: bytes, doc: Doc, occ: Counter)
    requires doc.depth <= MAX_ENCODED && lex(data) == Lexed([Text(raw, 0)], true)
    ensures
      var out := LeavesOfString(lex, Decode(raw), doc.base, doc, Tok(raw, 0, doc.enclosing),
                                Place(doc.inherited, false, []), occ).0;
      WalkDocument(lex, data, doc, occ).0 == Some(out)
  {
    hide LeavesOfString, Decode, WalkTokens;
    RootString(lex, raw, 0, [], doc, occ);
    assert [Text(raw, 0)] + [] == [Text(raw, 0)];
  }

  /** From here on only the letter itself is found, and reported as not encoded. */
  lemma {:induction false} WrappedWalk(n: nat, doc: Doc, occ: Counter)
    requires n <= MAX_ENCODED && doc.depth == MAX_ENCODED - n
    ensures
      var r := WalkDocument(StringLexer, Wrapped(n), doc, occ).0;
      r.Some? && |r.value| == 1 && r.value[0].path == doc.base && r.value[0].leaf.value == [120]
        && !r.value[0].leaf.encoded
    decreases n
  {
    hide Decode, ByCode, WalkDocument, StringLexer, JoinIdentity, Wrapped;
    WrappedFacts(n);
    if n == 0 {
      Letter();
      WalkOneString(StringLexer, Wrapped(0), [120], doc, occ);
    } else {
      var raw := ByCode(Wrapped(n - 1));
      WalkOneString(StringLexer, Wrapped(n), raw, doc, occ);
      WrappedWalk(n - 1, Doc(doc.base, true, doc.depth + 1, Tok(raw, 0, doc.enclosing), doc.inherited), occ);
    }
  }

  /**
   The letter behind 32 wrappers, a text of 5347 bytes: its leaf is reported as not encoded,
   and its path, the empty one, leads to the outermost string instead.
   */
  lemma WrappedAstray()
    ensures
      var data, v := Wrapped(MAX_ENCODED), Str(ByCode(Wrapped(MAX_ENCODED - 1)), 0);
      && |data| == 5347
      && StringLexer(data) == Lexed(Tokens(v), true) && UniqueKeys(v)
      && exists f: Found ::
           && WalkAll(StringLexer, data) == Some([f]) && !f.leaf.encoded && ParsePointer(f.path) == Some([])
           && f.leaf.value == [120] && Lookup(v, []) == Some(v) && Decode(v.raw) != [120]
  {
    hide ByCode, WalkDocument, StringLexer, Wrapped, Tree.Quoted;
    var data := Wrapped(MAX_ENCODED);
    WrappedFacts(MAX_ENCODED);
    WrappedLength(MAX_ENCODED);
    WrappedLength(MAX_ENCODED - 1);
    WrappedWalk(MAX_ENCODED, TOP, map[]);
    var out := WalkDocument(StringLexer, data, TOP, map[]).0;
    assert out.value == [out.value[0]];
    assert WalkAll(StringLexer, data) == out;
    ParseNothing();
  }
}
