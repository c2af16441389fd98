/**
 What one call of Walk keeps, whatever the decoder makes of the texts: no path gets the same
 occurrence twice, so identities are distinct where no path holds the separator; and a leaf's
 raw place is inside the string that its document stands in.
 */
module WalkIdentity {
  import opened Bytes
  import opened Lens
  import opened Walk

  function ChainDepth(c: Chain): nat {
    match c
    case Root => 0
    case Tok(_, _, parent) => 1 + ChainDepth(parent)
  }

  ghost predicate Counted(occ: Counter, later: Counter) {
    forall path :: Count(occ, path) <= Count(later, path)
  }

  /** A leaf made between two states of the counter, inside this document. */
  ghost predicate Made(f: Found, enclosing: Chain, occ: Counter, later: Counter) {
    && ChainDepth(f.leaf.tok) > ChainDepth(enclosing)
    && Count(occ, f.path) <= f.occurrence < Count(later, f.path)
    && Identified(f)
  }

  ghost predicate Identified(f: Found) {
    exists scalars :: f.leaf.identity == JoinIdentity(f.path, scalars, f.occurrence)
  }

  ghost predicate Fine(out: seq<Found>, enclosing: Chain, occ: Counter, later: Counter) {
    && Counted(occ, later)
    && (forall f :: f in out ==> Made(f, enclosing, occ, later))
    && (forall i, j :: 0 <= i < j < |out| ==> out[i].path != out[j].path || out[i].occurrence != out[j].occurrence)
  }

  lemma NothingMade(enclosing: Chain, occ: Counter)
    ensures Fine([], enclosing, occ, occ)
  {
  }

  lemma FineAppend(a: seq<Found>, b: seq<Found>, enclosing: Chain, occ: Counter, mid: Counter, later: Counter)
    requires Fine(a, enclosing, occ, mid) && Fine(b, enclosing, mid, later)
    ensures Fine(a + b, enclosing, occ, later)
  {
    hide ChainDepth, Identified, Count;
    var out := a + b;
    forall f | f in out ensures Made(f, enclosing, occ, later) {
      assert Count(occ, f.path) <= Count(mid, f.path) <= Count(later, f.path);
      assert f in a ==> Made(f, enclosing, occ, mid);
      assert f in b ==> Made(f, enclosing, mid, later);
    }
    forall i, j | 0 <= i < j < |out| ensures out[i].path != out[j].path || out[i].occurrence != out[j].occurrence {
      if i < |a| <= j {
        assert out[i] in a && out[j] in b;
        assert Made(out[i], enclosing, occ, mid) && Made(out[j], enclosing, mid, later);
      } else if i >= |a| {
        assert out[i] == b[i - |a|] && out[j] == b[j - |a|];
      }
    }
  }

  lemma FineDeeper(out: seq<Found>, tok: Chain, enclosing: Chain, occ: Counter, later: Counter)
    requires Fine(out, tok, occ, later) && ChainDepth(tok) > ChainDepth(enclosing)
    ensures Fine(out, enclosing, occ, later)
  {
    hide Count, ChainDepth, Identified;
    assert forall f :: f in out ==> Made(f, tok, occ, later);
  }

  /** A document that does not replace its string has still advanced the counter. */
  lemma CountedFirst(out: seq<Found>, enclosing: Chain, occ: Counter, mid: Counter, later: Counter)
    requires Counted(occ, mid) && Fine(out, enclosing, mid, later)
    ensures Fine(out, enclosing, occ, later)
  {
    hide Count, ChainDepth, Identified;
    forall f | f in out ensures Made(f, enclosing, occ, later) {
      assert Made(f, enclosing, mid, later) && Count(occ, f.path) <= Count(mid, f.path);
    }
    forall path ensures Count(occ, path) <= Count(later, path) {
      assert Count(occ, path) <= Count(mid, path) <= Count(later, path);
    }
  }

  lemma EmitFine(value: bytes, path: bytes, doc: Doc, tok: Chain, place: Place, occ: Counter)
    requires ChainDepth(tok) > ChainDepth(doc.enclosing)
    ensures
      var (out, later) := Emit(value, path, doc, tok, place, occ);
      Fine(out, doc.enclosing, occ, later)
  {
    hide JoinIdentity, ChainDepth;
    var (out, later) := Emit(value, path, doc, tok, place, occ);
    assert out[0].leaf.identity == JoinIdentity(path, place.scalars, Count(occ, path));
    assert Identified(out[0]);
  }

  lemma {:induction false} StringFine(
    lex: Lexer, value: bytes, path: bytes, doc: Doc, tok: Chain, place: Place, occ: Counter)
    requires doc.depth <= MAX_ENCODED && ChainDepth(tok) > ChainDepth(doc.enclosing)
    ensures
      var (out, later) := LeavesOfString(lex, value, path, doc, tok, place, occ);
      Fine(out, doc.enclosing, occ, later)
    decreases MAX_ENCODED - doc.depth, 0, 0
  {
    hide Fine, ChainDepth, WalkDocument, Emit;
    if doc.depth < MAX_ENCODED {
      var inner := Doc(path, true, doc.depth + 1, tok, place.scalars);
      DocumentFine(lex, value, inner, occ);
      var (r, occ1) := WalkDocument(lex, value, inner, occ);
      EmitFine(value, path, doc, tok, place, occ1);
      if r.Some? && r.value != [] {
        FineDeeper(r.value, tok, doc.enclosing, occ, occ1);
      } else {
        var (out, later) := Emit(value, path, doc, tok, place, occ1);
        CountedFirst(out, doc.enclosing, occ, occ1, later);
      }
    } else {
      EmitFine(value, path, doc, tok, place, occ);
    }
  }

  lemma FineCounts(out: seq<Found>, enclosing: Chain, occ: Counter, later: Counter)
    requires Fine(out, enclosing, occ, later)
    ensures Counted(occ, later)
  {
  }

  lemma {:induction false} DocumentFine(lex: Lexer, data: bytes, doc: Doc, occ: Counter)
    requires doc.depth <= MAX_ENCODED
    ensures
      var (r, later) := WalkDocument(lex, data, doc, occ);
      Counted(occ, later) && (r.Some? ==> Fine(r.value, doc.enclosing, occ, later))
    decreases MAX_ENCODED - doc.depth, 2, 0
  {
    hide Fine, WalkTokens, Counted;
    assert Fine([], doc.enclosing, occ, occ) by { NothingMade(doc.enclosing, occ); }
    TokensFine(lex, lex(data).tokens, [], [], doc, occ, occ);
    var (r, later) := WalkTokens(lex, lex(data).tokens, [], [], doc, occ);
  }

  /** `first` is the counter when the walk of the document began. */
  lemma {:induction false} TokensFine(
    lex: Lexer, tokens: seq<Token>, stack: seq<Frame>, out: seq<Found>, doc: Doc, first: Counter, occ: Counter)
    requires doc.depth <= MAX_ENCODED && Fine(out, doc.enclosing, first, occ)
    ensures
      var (r, later) := WalkTokens(lex, tokens, stack, out, doc, occ);
      Counted(first, later) && (r.Some? ==> Fine(r.value.0, doc.enclosing, first, later))
    decreases MAX_ENCODED - doc.depth, 1, |tokens|
  {
    hide Fine, LeavesOfString, Counted, Advance, Capture, JoinSegs, Flatten, ChildSegment, MemberName, ScalarRaw;
    hide Decode, PlaceIn;
    FineCounts(out, doc.enclosing, first, occ);
    if tokens != [] {
      var tok, rest := tokens[0], tokens[1..];
      if tok.Open? {
        if |stack| < MAX_NESTING {
          TokensFine(lex, rest, Advance(stack) + [Frame(tok.isObject, [], false, 0, ChildSegment(stack), [])], out,
            doc, first, occ);
        }
      } else if tok.Close? {
        if |stack| > 1 {
          TokensFine(lex, rest, stack[..|stack| - 1], out, doc, first, occ);
        }
      } else if stack == [] {
        if tok.Text? {
          OneMore(lex, tok, doc.base, out, doc, PlaceIn(doc.inherited, []), first, occ);
        }
      } else {
        var top := stack[|stack| - 1];
        if top.isObject && !top.hasKey {
          if tok.Text? {
            TokensFine(lex, rest, WithTop(stack, top.(key := Decode(tok.raw), hasKey := true)), out, doc, first, occ);
          }
        } else {
          var after := Advance(stack);
          if tok.Text? {
            var path, place := doc.base + JoinSegs(after) + ChildSegment(stack), PlaceIn(doc.inherited, after);
            OneMore(lex, tok, path, out, doc, place, first, occ);
            var (more, occ1) := LeavesOfString(lex, Decode(tok.raw), path, doc, Tok(tok.raw, tok.start, doc.enclosing),
              place, occ);
            TokensFine(lex, rest, after, out + more, doc, first, occ1);
          } else {
            TokensFine(lex, rest, Capture(after, MemberName(stack), ScalarRaw(tok.slice)), out, doc, first, occ);
          }
        }
      }
    }
  }

  lemma {:induction false} OneMore(
    lex: Lexer, tok: Token, path: bytes, out: seq<Found>, doc: Doc, place: Place, first: Counter, occ: Counter)
    requires doc.depth <= MAX_ENCODED && tok.Text? && Fine(out, doc.enclosing, first, occ)
    ensures
      var (more, occ1) := LeavesOfString(lex, Decode(tok.raw), path, doc, Tok(tok.raw, tok.start, doc.enclosing),
        place, occ);
      Fine(out + more, doc.enclosing, first, occ1) && Counted(first, occ1)
    decreases MAX_ENCODED - doc.depth, 0, 1
  {
    hide Fine, LeavesOfString, Decode;
    var chain := Tok(tok.raw, tok.start, doc.enclosing);
    StringFine(lex, Decode(tok.raw), path, doc, chain, place, occ);
    var (more, occ1) := LeavesOfString(lex, Decode(tok.raw), path, doc, chain, place, occ);
    FineAppend(out, more, doc.enclosing, first, occ, occ1);
    FineCounts(out + more, doc.enclosing, first, occ1);
  }

  // ------------------------------------------------------------------------- the identities

  predicate NoSeparator(s: bytes) {
    forall i :: 0 <= i < |s| ==> s[i] != SEPARATOR
  }

  function LastSeparator(s: bytes): (r: int)
    ensures -1 <= r < |s|
    ensures r >= 0 ==> s[r] == SEPARATOR
    ensures forall i :: r < i < |s| ==> s[i] != SEPARATOR
  {
    if s == [] then -1 else if s[|s| - 1] == SEPARATOR then |s| - 1 else LastSeparator(s[..|s| - 1])
  }

  lemma {:induction false} ItoaDigits(n: nat)
    ensures forall i :: 0 <= i < |Itoa(n)| ==> 48 <= Itoa(n)[i] <= 57
  {
    if n >= 10 {
      ItoaDigits(n / 10);
    }
  }

  lemma {:induction false} ItoaInjective(m: nat, n: nat)
    requires Itoa(m) == Itoa(n)
    ensures m == n
  {
    var a, b := Itoa(m), Itoa(n);
    assert a[|a| - 1] == (48 + m % 10) as byte && b[|b| - 1] == (48 + n % 10) as byte;
    if m >= 10 && n >= 10 {
      assert a[..|a| - 1] == Itoa(m / 10) && b[..|b| - 1] == Itoa(n / 10);
      ItoaInjective(m / 10, n / 10);
    }
  }

  /** An identity spells its path, up to the first separator, and its occurrence, behind the last. */
  lemma IdentitySpells(path: bytes, scalars: seq<Named>, n: nat)
    requires NoSeparator(path)
    ensures
      var id := JoinIdentity(path, scalars, n);
      && IndexFrom(id, SEPARATOR, 0) == |path| && id[..|path|] == path
      && LastSeparator(id) >= 0 && id[LastSeparator(id) + 1..] == Itoa(n)
  {
    hide Itoa;
    var id := JoinIdentity(path, scalars, n);
    var middle := RenderScalars(scalars) + [SEPARATOR] + Itoa(n);
    assert id == path + middle;
    assert middle[0] == SEPARATOR by {
      if scalars != [] {
        assert RenderScalars(scalars)[0] == SEPARATOR;
      }
    }
    assert id[|path|] == SEPARATOR && forall i :: 0 <= i < |path| ==> id[i] == path[i];
    ItoaDigits(n);
    var at := |path| + |RenderScalars(scalars)|;
    assert id[at] == SEPARATOR;
    assert forall i :: at < i < |id| ==> id[i] == Itoa(n)[i - at - 1];
    assert LastSeparator(id) == at;
  }

  /** Where no path holds the separator, no two leaves of a walk have the same identity. */
  lemma IdentitiesDistinct(lex: Lexer, data: bytes)
    ensures
      var r := WalkAll(lex, data);
      r.Some? && (forall f :: f in r.value ==> NoSeparator(f.path)) ==>
        forall i, j :: 0 <= i < j < |r.value| ==> r.value[i].leaf.identity != r.value[j].leaf.identity
  {
    hide WalkDocument, JoinIdentity, ChainDepth, NoSeparator, Identified, Counted;
    var r := WalkAll(lex, data);
    if r.Some? && forall f :: f in r.value ==> NoSeparator(f.path) {
      var doc := Doc([], false, 0, Root, []);
      DocumentFine(lex, data, doc, map[]);
      var later := WalkDocument(lex, data, doc, map[]).1;
      forall i, j | 0 <= i < j < |r.value| ensures r.value[i].leaf.identity != r.value[j].leaf.identity {
        var f, g := r.value[i], r.value[j];
        assert f in r.value && g in r.value;
        assert Made(f, Root, map[], later) && Made(g, Root, map[], later);
        TwoIdentities(f, g);
      }
    }
  }

  lemma TwoIdentities(f: Found, g: Found)
    requires Identified(f) && Identified(g) && NoSeparator(f.path) && NoSeparator(g.path)
    requires f.path != g.path || f.occurrence != g.occurrence
    ensures f.leaf.identity != g.leaf.identity
  {
    hide JoinIdentity, NoSeparator, Itoa;
    var s :| f.leaf.identity == JoinIdentity(f.path, s, f.occurrence);
    var t :| g.leaf.identity == JoinIdentity(g.path, t, g.occurrence);
    IdentitySpells(f.path, s, f.occurrence);
    IdentitySpells(g.path, t, g.occurrence);
    if f.leaf.identity == g.leaf.identity {
      ItoaInjective(f.occurrence, g.occurrence);
    }
  }
}
