/**
 The pointers that Walk reports, evaluated by the rules of RFC 6901 (sections 3 and 4): each
 leads to the string it was reported for. And the one way in which identities can collide.
 */
module WalkPaths {
  import opened Bytes
  import opened Lens
  import Utf8
  import opened Walk
  import opened WalkLaws
  import opened WalkIdentity

  // ------------------------------------------------------------------ pointers, section 3

  function Pointer(tokens: seq<bytes>): bytes {
    if tokens == [] then [] else Segment(tokens[0]) + Pointer(tokens[1..])
  }

  /** ~1 is a slash and ~0 a tilde; no other tilde is allowed. */
  function Unescape(s: bytes): Option<bytes> {
    if s == [] then Some([])
    else if s[0] != TILDE then
      match Unescape(s[1..])
      case Some(rest) => Some([s[0]] + rest)
      case None => None
    else if |s| >= 2 && (s[1] == 48 || s[1] == 49) then
      match Unescape(s[2..])
      case Some(rest) => Some([if s[1] == 48 then TILDE else SLASH] + rest)
      case None => None
    else None
  }

  /** The reference tokens of a pointer. */
  function ParsePointer(p: bytes): Option<seq<bytes>> {
    if p == [] then Some([])
    else if p[0] != SLASH then None
    else
      var end := IndexFrom(p, SLASH, 1);
      match (Unescape(p[1..end]), ParsePointer(p[end..]))
      case (Some(token), Some(rest)) => Some([token] + rest)
      case _ => None
  }

  lemma {:induction false} EscapeRoundTrip(token: bytes)
    ensures Unescape(EscapePointer(token)) == Some(token)
    ensures SLASH !in EscapePointer(token)
  {
    if token != [] {
      EscapeRoundTrip(token[1..]);
      var e, rest := EscapePointer(token), EscapePointer(token[1..]);
      assert token == [token[0]] + token[1..];
      if token[0] == TILDE || token[0] == SLASH {
        assert e[2..] == rest;
      } else {
        assert e[1..] == rest;
      }
    }
  }

  lemma {:induction false} PointerRoundTrip(tokens: seq<bytes>)
    ensures ParsePointer(Pointer(tokens)) == Some(tokens)
    ensures tokens != [] ==> Pointer(tokens) != [] && Pointer(tokens)[0] == SLASH
  {
    hide EscapePointer, Unescape, ParsePointer;
    if tokens == [] {
      ParseNothing();
    } else {
      PointerRoundTrip(tokens[1..]);
      EscapeRoundTrip(tokens[0]);
      ParseStep(EscapePointer(tokens[0]), Pointer(tokens[1..]));
      assert [tokens[0]] + tokens[1..] == tokens;
    }
  }

  lemma ParseNothing()
    ensures ParsePointer([]) == Some([])
  {
  }

  lemma ParseStep(e: bytes, rest: bytes)
    requires SLASH !in e && (rest != [] ==> rest[0] == SLASH)
    requires Unescape(e).Some? && ParsePointer(rest).Some?
    ensures ParsePointer([SLASH] + e + rest) == Some([Unescape(e).value] + ParsePointer(rest).value)
  {
    hide Unescape;
    var p := [SLASH] + e + rest;
    assert forall i :: 0 <= i < |e| ==> e[i] in e && p[1 + i] == e[i];
    assert rest != [] ==> p[1 + |e|] == rest[0];
    assert IndexFrom(p, SLASH, 1) == 1 + |e|;
    assert p[1..1 + |e|] == e && p[1 + |e|..] == rest;
  }

  // -------------------------------------------------------------------- evaluation, section 4

  function MemberAt(members: seq<Member>, key: bytes): Option<Value> {
    if members == [] then None
    else if Decode(members[0].raw) == key then Some(members[0].value)
    else MemberAt(members[1..], key)
  }

  /** An index is its decimal digits, without leading zeros. */
  function ItemAt(items: seq<Value>, token: bytes, i: nat): Option<Value> {
    if items == [] then None else if Itoa(i) == token then Some(items[0]) else ItemAt(items[1..], token, i + 1)
  }

  function Lookup(v: Value, tokens: seq<bytes>): Option<Value>
    decreases |tokens|
  {
    if tokens == [] then Some(v) else
    var next :=
      match v
      case Obj(members) => MemberAt(members, tokens[0])
      case Arr(items) => ItemAt(items, tokens[0], 0)
      case _ => None;
    match next
    case Some(w) => Lookup(w, tokens[1..])
    case None => None
  }

  predicate UniqueKeys(v: Value)
    decreases v
  {
    match v
    case Arr(items) => forall i :: 0 <= i < |items| ==> UniqueKeys(items[i])
    case Obj(members) =>
      && (forall i :: 0 <= i < |members| ==> UniqueKeys(members[i].value))
      && (forall i, j :: 0 <= i < j < |members| ==> Decode(members[i].raw) != Decode(members[j].raw))
    case _ => true
  }

  lemma {:induction false} MemberFound(members: seq<Member>, i: nat)
    requires i < |members|
    requires forall j, k :: 0 <= j < k < |members| ==> Decode(members[j].raw) != Decode(members[k].raw)
    ensures MemberAt(members, Decode(members[i].raw)) == Some(members[i].value)
  {
    hide Decode;
    if i > 0 {
      MemberFound(members[1..], i - 1);
    }
  }

  lemma {:induction false} ItemFound(items: seq<Value>, i: nat, from: nat)
    requires i < |items|
    ensures ItemAt(items, Itoa(from + i), from) == Some(items[i])
  {
    hide Itoa;
    if i > 0 {
      if Itoa(from) == Itoa(from + i) {
        ItoaInjective(from, from + i);
      }
      ItemFound(items[1..], i - 1, from + 1);
    }
  }

  // ------------------------------------------------------------------- where the leaves lead

  /** f was found in the document itself, not inside one of its strings. */
  predicate Direct(f: Found, enclosing: Chain) {
    ChainDepth(f.leaf.tok) == 1 + ChainDepth(enclosing)
  }

  /** The path, taken from this value on, leads to the string that f is. */
  ghost predicate Leads(v: Value, path: bytes, enclosing: Chain, f: Found) {
    exists tokens, raw, start ::
      && f.path == path + Pointer(tokens) && Lookup(v, tokens) == Some(Str(raw, start))
      && f.leaf.value == Decode(raw) && f.leaf.tok == Tok(raw, start, enclosing)
  }

  ghost predicate AllLead(out: seq<Found>, v: Value, path: bytes, enclosing: Chain) {
    forall f :: f in out && Direct(f, enclosing) ==> Leads(v, path, enclosing, f)
  }

  lemma StringLeads(lex: Lexer, raw: bytes, start: nat, path: bytes, doc: Doc, place: Place, occ: Counter)
    requires doc.depth <= MAX_ENCODED
    ensures AllLead(LeavesOfString(lex, Decode(raw), path, doc, Tok(raw, start, doc.enclosing), place, occ).0,
            Str(raw, start), path, doc.enclosing)
  {
    hide Decode, JoinIdentity, WalkDocument;
    var tok := Tok(raw, start, doc.enclosing);
    var out := LeavesOfString(lex, Decode(raw), path, doc, tok, place, occ).0;
    forall f | f in out && Direct(f, doc.enclosing) ensures Leads(Str(raw, start), path, doc.enclosing, f) {
      if doc.depth < MAX_ENCODED {
        var inner := Doc(path, true, doc.depth + 1, tok, place.scalars);
        DocumentFine(lex, Decode(raw), inner, occ);
        var (r, later) := WalkDocument(lex, Decode(raw), inner, occ);
        assert r.Some? && f in r.value ==> Made(f, tok, occ, later);
      }
      assert path + Pointer([]) == path && Lookup(Str(raw, start), []) == Some(Str(raw, start));
    }
  }

  lemma {:induction false} ValueLeads(lex: Lexer, v: Value, path: bytes, doc: Doc, place: Place, occ: Counter)
    requires doc.depth <= MAX_ENCODED && UniqueKeys(v)
    ensures AllLead(ValueLeaves(lex, v, path, doc, place, occ).0, v, path, doc.enclosing)
    decreases v
  {
    hide AllLead, LeavesOfString, Decode, UniqueKeys;
    match v
    case Str(raw, start) => StringLeads(lex, raw, start, path, doc, place, occ);
    case Lit(_) => NoneLead(v, path, doc.enclosing);
    case Arr(items) =>
      assert items[0..] == items;
      ItemsLead(lex, v, 0, path, doc, place.scalars, occ);
    case Obj(members) =>
      assert members[0..] == members;
      MembersLead(lex, v, 0, path, doc, place.scalars, occ);
  }

  lemma NoneLead(v: Value, path: bytes, enclosing: Chain)
    ensures AllLead([], v, path, enclosing)
  {
  }

  lemma LeadAppend(a: seq<Found>, b: seq<Found>, v: Value, path: bytes, enclosing: Chain)
    requires AllLead(a, v, path, enclosing) && AllLead(b, v, path, enclosing)
    ensures AllLead(a + b, v, path, enclosing)
  {
    hide Leads;
  }

  /** What leads from a part leads from the whole, by one token more. */
  lemma LeadUp(out: seq<Found>, v: Value, token: bytes, w: Value, path: bytes, enclosing: Chain)
    requires AllLead(out, w, path + Segment(token), enclosing)
    requires forall rest :: Lookup(v, [token] + rest) == Lookup(w, rest)
    ensures AllLead(out, v, path, enclosing)
  {
    hide Decode, Segment, Lookup;
    forall f | f in out && Direct(f, enclosing) ensures Leads(v, path, enclosing, f) {
      assert Leads(w, path + Segment(token), enclosing, f);
      var tokens, raw, start :|
        && f.path == path + Segment(token) + Pointer(tokens) && Lookup(w, tokens) == Some(Str(raw, start))
        && f.leaf.value == Decode(raw) && f.leaf.tok == Tok(raw, start, enclosing);
      var all := [token] + tokens;
      assert all[1..] == tokens && Pointer(all) == Segment(token) + Pointer(tokens);
      Assoc(path, Segment(token), Pointer(tokens));
      assert Lookup(v, all) == Some(Str(raw, start));
    }
  }

  lemma LookupMember(v: Value, i: nat, rest: seq<bytes>)
    requires v.Obj? && UniqueKeys(v) && i < |v.members|
    ensures Lookup(v, [Decode(v.members[i].raw)] + rest) == Lookup(v.members[i].value, rest)
  {
    hide Decode, MemberAt;
    MemberFound(v.members, i);
    assert ([Decode(v.members[i].raw)] + rest)[1..] == rest;
  }

  lemma LookupItem(v: Value, i: nat, rest: seq<bytes>)
    requires v.Arr? && i < |v.items|
    ensures Lookup(v, [Itoa(i)] + rest) == Lookup(v.items[i], rest)
  {
    hide Itoa, ItemAt;
    ItemFound(v.items, i, 0);
    assert ([Itoa(i)] + rest)[1..] == rest;
  }

  lemma {:induction false} PlainSegment(s: bytes)
    requires forall i :: 0 <= i < |s| ==> 48 <= s[i] <= 57
    ensures EscapePointer(s) == s
  {
    if s != [] {
      PlainSegment(s[1..]);
      assert s == [s[0]] + s[1..];
    }
  }

  lemma UniqueParts(v: Value)
    requires UniqueKeys(v)
    ensures v.Arr? ==> forall i :: 0 <= i < |v.items| ==> UniqueKeys(v.items[i])
    ensures v.Obj? ==> forall i :: 0 <= i < |v.members| ==> UniqueKeys(v.members[i].value)
  {
  }

  lemma {:induction false} ItemsLead(
    lex: Lexer, v: Value, i: nat, path: bytes, doc: Doc, scalars: seq<Named>, occ: Counter)
    requires doc.depth <= MAX_ENCODED && v.Arr? && UniqueKeys(v) && i <= |v.items|
    ensures AllLead(ItemLeaves(lex, v.items[i..], i, path, doc, scalars, occ).0, v, path, doc.enclosing)
    decreases v, |v.items| - i
  {
    hide AllLead, ValueLeaves, ItemLeaves, UniqueKeys, Itoa, EscapePointer, Lookup, ScalarsAfter;
    var items := v.items[i..];
    if i == |v.items| {
      assert items == [];
      NoItems(lex, i, path, doc, scalars, occ);
      NoneLead(v, path, doc.enclosing);
    } else {
      var w := v.items[i];
      assert items[0] == w && items[1..] == v.items[i + 1..];
      UniqueParts(v);
      ItemLeavesStep(lex, items, i, path, doc, scalars, occ);
      Assoc(path, [SLASH], Itoa(i));
      var (a, occ1) := ValueLeaves(lex, w, path + [SLASH] + Itoa(i), doc, Place(scalars, false, []), occ);
      ValueLeads(lex, w, path + [SLASH] + Itoa(i), doc, Place(scalars, false, []), occ);
      ItoaDigits(i);
      PlainSegment(Itoa(i));
      forall rest ensures Lookup(v, [Itoa(i)] + rest) == Lookup(w, rest) {
        LookupItem(v, i, rest);
      }
      LeadUp(a, v, Itoa(i), w, path, doc.enclosing);
      ItemsLead(lex, v, i + 1, path, doc, ScalarsAfter(scalars, w, Itoa(i)), occ1);
      LeadAppend(a, ItemLeaves(lex, items[1..], i + 1, path, doc, ScalarsAfter(scalars, w, Itoa(i)), occ1).0, v, path,
        doc.enclosing);
    }
  }

  lemma MemberLeavesStep(lex: Lexer, members: seq<Member>, path: bytes, doc: Doc, scalars: seq<Named>, occ: Counter)
    requires doc.depth <= MAX_ENCODED
    ensures members == [] ==> MemberLeaves(lex, members, path, doc, scalars, occ) == ([], occ)
    ensures members != [] ==>
              var m := members[0];
              var key := Decode(m.raw);
              var (a, occ1) := ValueLeaves(lex, m.value, path + Segment(key), doc, Place(scalars, true, key), occ);
              var (b, occ2) := MemberLeaves(lex, members[1..], path, doc, ScalarsAfter(scalars, m.value, key), occ1);
              MemberLeaves(lex, members, path, doc, scalars, occ) == (a + b, occ2)
  {
    hide ValueLeaves, Decode, ScalarsAfter, Segment;
  }

  lemma {:induction false} MembersLead(
    lex: Lexer, v: Value, i: nat, path: bytes, doc: Doc, scalars: seq<Named>, occ: Counter)
    requires doc.depth <= MAX_ENCODED && v.Obj? && UniqueKeys(v) && i <= |v.members|
    ensures AllLead(MemberLeaves(lex, v.members[i..], path, doc, scalars, occ).0, v, path, doc.enclosing)
    decreases v, |v.members| - i
  {
    hide AllLead, ValueLeaves, MemberLeaves, UniqueKeys, Decode, Segment, Lookup, ScalarsAfter;
    var members := v.members[i..];
    MemberLeavesStep(lex, members, path, doc, scalars, occ);
    if i == |v.members| {
      assert members == [];
      NoneLead(v, path, doc.enclosing);
    } else {
      var m := v.members[i];
      var key := Decode(m.raw);
      assert members[0] == m && members[1..] == v.members[i + 1..];
      UniqueParts(v);
      var (a, occ1) := ValueLeaves(lex, m.value, path + Segment(key), doc, Place(scalars, true, key), occ);
      ValueLeads(lex, m.value, path + Segment(key), doc, Place(scalars, true, key), occ);
      forall rest ensures Lookup(v, [key] + rest) == Lookup(m.value, rest) {
        LookupMember(v, i, rest);
      }
      LeadUp(a, v, key, m.value, path, doc.enclosing);
      MembersLead(lex, v, i + 1, path, doc, ScalarsAfter(scalars, m.value, key), occ1);
      LeadAppend(a, MemberLeaves(lex, members[1..], path, doc, ScalarsAfter(scalars, m.value, key), occ1).0, v, path,
        doc.enclosing);
    }
  }

  /**
   Each leaf of a document itself has a path that RFC 6901 evaluates to the very string the
   leaf is, when no object repeats a key.
   */
  lemma PathsLeadHome(lex: Lexer, v: Value, data: bytes, f: Found)
    requires Utf8.Valid(data) && lex(data) == Lexed(Tokens(v), true) && Nesting(v) <= MAX_NESTING && UniqueKeys(v)
    requires WalkAll(lex, data).Some? && f in WalkAll(lex, data).value && f.leaf.tok.Tok? && f.leaf.tok.parent == Root
    ensures
      exists tokens, raw, start ::
        && ParsePointer(f.path) == Some(tokens) && Lookup(v, tokens) == Some(Str(raw, start))
        && f.leaf.value == Decode(raw) && f.leaf.tok == Tok(raw, start, Root)
  {
    hide ValueLeaves, WalkDocument, UniqueKeys, Decode, Lookup;
    var doc := Doc([], false, 0, Root, []);
    DocumentWalk(lex, v, data, doc, map[]);
    ValueLeads(lex, v, [], doc, Place([], false, []), map[]);
    assert ChainDepth(Root) == 0 && ChainDepth(f.leaf.tok) == 1;
    assert Leads(v, [], Root, f);
    var tokens, raw, start :|
      && f.path == [] + Pointer(tokens) && Lookup(v, tokens) == Some(Str(raw, start))
      && f.leaf.value == Decode(raw) && f.leaf.tok == Tok(raw, start, Root);
    assert [] + Pointer(tokens) == Pointer(tokens);
    PointerRoundTrip(tokens);
  }

  // ----------------------------------------------------------------- identities that collide

  /** {"a<sep>x=1": s, "x": 1, "a": t} */
  predicate Colliding(v: Value) {
    && v.Obj? && |v.members| == 3
    && Decode(v.members[0].raw) == [97, SEPARATOR, 120, EQUALS, 49] && v.members[0].value.Str?
    && Decode(v.members[1].raw) == [120] && v.members[1].value == Lit([58, 49])
    && Decode(v.members[2].raw) == [97] && v.members[2].value.Str?
  }

  /** A text that is not a document. */
  predicate NoDocument(lex: Lexer, value: bytes) {
    lex(value) == Lexed([], false)
  }

  lemma PlainString(lex: Lexer, raw: bytes, start: nat, path: bytes, place: Place, occ: Counter)
    requires NoDocument(lex, Decode(raw)) && path !in occ
    ensures
      var doc := Doc([], false, 0, Root, []);
      ValueLeaves(lex, Str(raw, start), path, doc, place, occ)
        == Emit(Decode(raw), path, doc, Tok(raw, start, Root), place, occ)
  {
    hide Decode, JoinIdentity, Emit;
    var tok := Tok(raw, start, Root);
    assert WalkTokens(lex, [], [], [], Doc(path, true, 1, tok, place.scalars), occ) == (None, occ);
    assert WalkDocument(lex, Decode(raw), Doc(path, true, 1, tok, place.scalars), occ) == (None, occ);
  }

  lemma SameRendering()
    ensures JoinIdentity([SLASH, 97, SEPARATOR, 120, EQUALS, 49], [], 0)
            == JoinIdentity([SLASH, 97], [Named([120], [49])], 0)
  {
    var one := Named([120], [49]);
    assert [one][1..] == [];
    assert RenderScalars([one]) == [SEPARATOR] + one.name + [EQUALS] + one.raw + RenderScalars([]);
  }

  lemma CollidingPaths()
    ensures [] + Segment([97, SEPARATOR, 120, EQUALS, 49]) == [SLASH, 97, SEPARATOR, 120, EQUALS, 49]
    ensures [] + Segment([97]) == [SLASH, 97]
    ensures ScalarRaw([58, 49]) == [49]
  {
    EscapeKeeps([97, SEPARATOR, 120, EQUALS, 49]);
    EscapeKeeps([97]);
    assert [58 as byte, 49][1..] == [49];
  }

  lemma {:induction false} EscapeKeeps(s: bytes)
    requires forall i :: 0 <= i < |s| ==> s[i] != TILDE && s[i] != SLASH
    ensures EscapePointer(s) == s
  {
    if s != [] {
      EscapeKeeps(s[1..]);
      assert s == [s[0]] + s[1..];
    }
  }

  /** A key may spell the separator, and then two leaves of one document can share an identity. */
  lemma SeparatorCollides(lex: Lexer, v: Value)
    requires Colliding(v)
    requires NoDocument(lex, Decode(v.members[0].value.raw)) && NoDocument(lex, Decode(v.members[2].value.raw))
    ensures
      var out := ValueLeaves(lex, v, [], Doc([], false, 0, Root, []), Place([], false, []), map[]).0;
      |out| == 2 && out[0].path != out[1].path && out[0].leaf.identity == out[1].leaf.identity
  {
    hide LeavesOfString, ValueLeaves, MemberLeaves, JoinIdentity, Segment, ScalarRaw, Decode;
    var doc := Doc([], false, 0, Root, []);
    var ms := v.members;
    CollidingPaths();
    SameRendering();
    var p0, p2: bytes := [SLASH, 97, SEPARATOR, 120, EQUALS, 49], [SLASH, 97];
    var s1 := [] + [Named([120], [49])];
    MemberLeavesStep(lex, ms, [], doc, [], map[]);
    MemberLeavesStep(lex, ms[1..], [], doc, [], map[p0 := 1]);
    MemberLeavesStep(lex, ms[2..], [], doc, s1, map[p0 := 1]);
    MemberLeavesStep(lex, ms[3..], [], doc, s1, map[p0 := 1, p2 := 1]);
    assert ms[1..][0] == ms[1] && ms[1..][1..] == ms[2..] && ms[2..][0] == ms[2] && ms[2..][1..] == ms[3..]
           && ms[3..] == [];
    assert ValueLeaves(lex, v, [], doc, Place([], false, []), map[]) == MemberLeaves(lex, ms, [], doc, [], map[]) by {
      ObjectLeaves(lex, v, doc);
    }
    PlainString(lex, ms[0].value.raw, ms[0].value.start, p0, Place([], true, Decode(ms[0].raw)), map[]);
    PlainString(lex, ms[2].value.raw, ms[2].value.start, p2, Place(s1, true, Decode(ms[2].raw)), map[p0 := 1]);
    LiteralLeaves(lex, ms[1].value.slice, [] + Segment([120]), doc, Place([], true, [120]), map[p0 := 1]);
    assert s1 == [Named([120], [49])];
  }

  lemma ObjectLeaves(lex: Lexer, v: Value, doc: Doc)
    requires v.Obj? && doc.depth <= MAX_ENCODED
    ensures ValueLeaves(lex, v, [], doc, Place([], false, []), map[])
            == MemberLeaves(lex, v.members, [], doc, [], map[])
  {
  }

  lemma LiteralLeaves(lex: Lexer, slice: bytes, path: bytes, doc: Doc, place: Place, occ: Counter)
    requires doc.depth <= MAX_ENCODED
    ensures ValueLeaves(lex, Lit(slice), path, doc, place, occ) == ([], occ)
  {
  }
}
