/**
 What an identity tells. The scalars in front of a leaf are read off the document: at each
 container around it the numbers, truth values and nulls that stand before it there, from the
 outermost container in, through the documents that strings hold. Two leaves, of whatever
 documents, have one identity exactly when path, scalars and occurrence are the same.
 */
module WalkChannels {
  import opened Bytes
  import opened Lens
  import opened Walk
  import opened WalkLaws
  import opened WalkIdentity

  /** What a decoder reads to its end without an error is values. */
  ghost predicate ReadsValues(lex: Lexer) {
    forall text :: lex(text).complete ==> exists vs :: lex(text).tokens == ItemTokens(vs)
  }

  ghost predicate Spells(lex: Lexer, text: bytes, v: Value) {
    lex(text) == Lexed(Tokens(v), true)
  }

  // --------------------------------------------------------------- scalars, read off the tree

  /** A literal behind the blank, tab, CR, LF, comma or colon that the decoder has skipped. */
  function LiteralText(slice: bytes): bytes {
    if slice != [] && slice[0] in [32, 9, 13, 10, 44, 58] then LiteralText(slice[1..]) else slice
  }

  /** The literals among the first elements of an array, under their indices. */
  function ItemLits(items: seq<Value>): seq<Named> {
    if items == [] then [] else
    var n := |items| - 1;
    ItemLits(items[..n]) + if items[n].Lit? then [Named(Itoa(n), LiteralText(items[n].slice))] else []
  }

  /** The literals among the first members of an object, under their keys. */
  function MemberLits(members: seq<Member>): seq<Named> {
    if members == [] then [] else
    var n := |members| - 1;
    var m := members[n];
    MemberLits(members[..n]) + if m.value.Lit? then [Named(Decode(m.raw), LiteralText(m.value.slice))] else []
  }

  function Behind(before: seq<Named>, lists: seq<seq<Named>>): (r: seq<seq<Named>>)
    ensures |r| == |lists| && forall i :: 0 <= i < |r| ==> r[i] == before + lists[i]
  {
    seq(|lists|, i requires 0 <= i < |lists| => before + lists[i])
  }

  /** For each leaf of a value, the scalars before it, from the value's own container in. */
  ghost function ValueScalars(lex: Lexer, v: Value, depth: nat): seq<seq<Named>>
    requires depth <= MAX_ENCODED
    decreases MAX_ENCODED - depth, 0, v, 0
  {
    match v
    case Str(raw, _) =>
      var inner := if depth < MAX_ENCODED then TextScalars(lex, Decode(raw), depth + 1) else [];
      if inner == [] then [[]] else inner
    case Lit(_) => []
    case Arr(items) => ItemScalars(lex, items, 0, depth)
    case Obj(members) => MemberScalars(lex, members, 0, depth)
  }

  /** Element by element, from the i-th on. */
  ghost function ItemScalars(lex: Lexer, items: seq<Value>, i: nat, depth: nat): seq<seq<Named>>
    requires depth <= MAX_ENCODED && i <= |items|
    decreases MAX_ENCODED - depth, 0, items, |items| - i
  {
    if i == |items| then []
    else Behind(ItemLits(items[..i]), ValueScalars(lex, items[i], depth)) + ItemScalars(lex, items, i + 1, depth)
  }

  ghost function MemberScalars(lex: Lexer, members: seq<Member>, i: nat, depth: nat): seq<seq<Named>>
    requires depth <= MAX_ENCODED && i <= |members|
    decreases MAX_ENCODED - depth, 0, members, |members| - i
  {
    if i == |members| then []
    else
      Behind(MemberLits(members[..i]), ValueScalars(lex, members[i].value, depth))
      + MemberScalars(lex, members, i + 1, depth)
  }

  /** The value that a text spells, if it is not nested too deep. */
  ghost function TextValue(lex: Lexer, text: bytes): (r: Option<Value>)
    ensures r.Some? ==> Spells(lex, text, r.value) && Nesting(r.value) <= MAX_NESTING
    ensures r.None? ==> !exists v :: Spells(lex, text, v) && Nesting(v) <= MAX_NESTING
  {
    if v :| Spells(lex, text, v) && Nesting(v) <= MAX_NESTING then Some(v) else None
  }

  /** The same for a text. */
  ghost function TextScalars(lex: Lexer, text: bytes, depth: nat): seq<seq<Named>>
    requires depth <= MAX_ENCODED
    decreases MAX_ENCODED - depth, 1
  {
    match TextValue(lex, text)
    case Some(v) => ValueScalars(lex, v, depth)
    case None => []
  }

  // ------------------------------------------------------------------- what the walk joins up

  /** Leaf by leaf, the identity is made of the path, these scalars and the occurrence. */
  ghost predicate Tells(out: seq<Found>, before: seq<Named>, lists: seq<seq<Named>>) {
    && |out| == |lists|
    && forall i :: 0 <= i < |out| ==>
         && out[i].leaf.identity == JoinIdentity(out[i].path, before + lists[i], out[i].occurrence)
         && (out[i].leaf.identifiable <==> |out[i].leaf.identity| <= 1024)
  }

  lemma TellsAppend(a: seq<Found>, b: seq<Found>, before: seq<Named>, la: seq<seq<Named>>, lb: seq<seq<Named>>)
    requires Tells(a, before, la) && Tells(b, before, lb)
    ensures Tells(a + b, before, la + lb)
  {
    hide JoinIdentity;
  }

  lemma TellsBehind(out: seq<Found>, before: seq<Named>, more: seq<Named>, lists: seq<seq<Named>>)
    requires Tells(out, before + more, lists)
    ensures Tells(out, before, Behind(more, lists))
  {
    hide JoinIdentity;
    forall i | 0 <= i < |out|
      ensures out[i].leaf.identity == JoinIdentity(out[i].path, before + Behind(more, lists)[i], out[i].occurrence)
           && (out[i].leaf.identifiable <==> |out[i].leaf.identity| <= 1024)
    {
      Assoc(before, more, lists[i]);
    }
  }

  lemma {:induction false} LiteralIsRaw(slice: bytes)
    ensures LiteralText(slice) == ScalarRaw(slice)
  {
    if slice != [] {
      LiteralIsRaw(slice[1..]);
    }
  }

  lemma ItemLitsNext(items: seq<Value>, i: nat, before: seq<Named>)
    requires i < |items|
    ensures before + ItemLits(items[..i + 1]) == ScalarsAfter(before + ItemLits(items[..i]), items[i], Itoa(i))
  {
    hide Itoa;
    assert items[..i + 1][..i] == items[..i] && items[..i + 1][i] == items[i];
    var lits := ItemLits(items[..i]);
    if items[i].Lit? {
      LiteralIsRaw(items[i].slice);
      Assoc(before, lits, [Named(Itoa(i), ScalarRaw(items[i].slice))]);
    } else {
      assert lits + [] == lits;
    }
  }

  lemma MemberLitsNext(members: seq<Member>, i: nat, before: seq<Named>)
    requires i < |members|
    ensures before + MemberLits(members[..i + 1]) ==
            ScalarsAfter(before + MemberLits(members[..i]), members[i].value, Decode(members[i].raw))
  {
    hide Decode;
    assert members[..i + 1][..i] == members[..i] && members[..i + 1][i] == members[i];
    var lits, m := MemberLits(members[..i]), members[i];
    if m.value.Lit? {
      LiteralIsRaw(m.value.slice);
      Assoc(before, lits, [Named(Decode(m.raw), ScalarRaw(m.value.slice))]);
    } else {
      assert lits + [] == lits;
    }
  }

  lemma EmitTells(value: bytes, path: bytes, doc: Doc, tok: Chain, place: Place, occ: Counter)
    ensures Tells(Emit(value, path, doc, tok, place, occ).0, place.scalars, [[]])
  {
    hide JoinIdentity;
    assert place.scalars + [] == place.scalars;
  }

  lemma {:induction false} StringTells(
    lex: Lexer, raw: bytes, start: nat, path: bytes, doc: Doc, place: Place, occ: Counter)
    requires ReadsValues(lex) && doc.depth <= MAX_ENCODED
    ensures
      Tells(LeavesOfString(lex, Decode(raw), path, doc, Tok(raw, start, doc.enclosing), place, occ).0, place.scalars,
            ValueScalars(lex, Str(raw, start), doc.depth))
    decreases MAX_ENCODED - doc.depth, 0, Str(raw, start), 0
  {
    hide ReadsValues, Tells, Emit, WalkDocument, Decode, TextScalars;
    var tok, value := Tok(raw, start, doc.enclosing), Decode(raw);
    if doc.depth < MAX_ENCODED {
      var inner := Doc(path, true, doc.depth + 1, tok, place.scalars);
      DocumentTells(lex, value, inner, occ);
      var (r, occ1) := WalkDocument(lex, value, inner, occ);
      EmitTells(value, path, doc, tok, place, occ1);
      TellsLength(if r.Some? then r.value else [], place.scalars, TextScalars(lex, value, doc.depth + 1));
    } else {
      EmitTells(value, path, doc, tok, place, occ);
    }
  }

  lemma TellsLength(out: seq<Found>, before: seq<Named>, lists: seq<seq<Named>>)
    requires Tells(out, before, lists)
    ensures |out| == |lists|
  {
    hide JoinIdentity;
  }

  lemma NothingTells(before: seq<Named>)
    ensures Tells([], before, [])
  {
  }

  /** What is not one value within the bound is refused. */
  lemma Refused(lex: Lexer, data: bytes, doc: Doc, occ: Counter)
    requires ReadsValues(lex) && doc.depth <= MAX_ENCODED && TextValue(lex, data).None?
    ensures WalkDocument(lex, data, doc, occ).0 == None
  {
    hide WalkTokens, Tokens, Nesting, ValueLeaves, ReadsValues, TextValue;
    if lex(data).complete {
      var vs := ValuesOf(lex, data);
      if vs == [] {
        NoTokens(lex, doc, occ);
      } else {
        var v, rest := vs[0], ItemTokens(vs[1..]);
        if Nesting(v) > MAX_NESTING {
          ValueTooDeep(lex, v, rest, [], [], doc, occ);
        } else {
          RootWalk(lex, v, rest, doc, occ);
          NotOne(lex, data, vs);
        }
      }
    }
  }

  lemma ValuesOf(lex: Lexer, data: bytes) returns (vs: seq<Value>)
    requires ReadsValues(lex) && lex(data).complete
    ensures lex(data).tokens == ItemTokens(vs)
  {
    vs :| lex(data).tokens == ItemTokens(vs);
  }

  lemma NoTokens(lex: Lexer, doc: Doc, occ: Counter)
    requires doc.depth <= MAX_ENCODED
    ensures ItemTokens([]) == [] && WalkTokens(lex, [], [], [], doc, occ) == (None, occ)
  {
  }

  lemma NotOne(lex: Lexer, data: bytes, vs: seq<Value>)
    requires lex(data).complete && lex(data).tokens == ItemTokens(vs) && vs != [] && Nesting(vs[0]) <= MAX_NESTING
    requires TextValue(lex, data).None?
    ensures ItemTokens(vs[1..]) != []
  {
    hide Tokens, Nesting;
    assert Tokens(vs[0]) + [] == Tokens(vs[0]);
    var v := vs[0];
    assert lex(data) == Lexed(Tokens(v) + ItemTokens(vs[1..]), true);
    assert ItemTokens(vs[1..]) == [] ==> Spells(lex, data, v);
  }

  lemma {:induction false} DocumentTells(lex: Lexer, data: bytes, doc: Doc, occ: Counter)
    requires ReadsValues(lex) && doc.depth <= MAX_ENCODED
    ensures
      var r := WalkDocument(lex, data, doc, occ).0;
      Tells(if r.Some? then r.value else [], doc.inherited, TextScalars(lex, data, doc.depth))
    decreases MAX_ENCODED - doc.depth, 1
  {
    hide ReadsValues, Tells, WalkDocument, ValueScalars, ValueLeaves, Tokens, Nesting;
    match TextValue(lex, data)
    case None =>
      Refused(lex, data, doc, occ);
      NothingTells(doc.inherited);
    case Some(v) =>
      assert Spells(lex, data, v);
      DocumentWalk(lex, v, data, doc, occ);
      ValueTells(lex, v, doc.base, doc, Place(doc.inherited, false, []), occ);
  }

  lemma {:induction false} ValueTells(lex: Lexer, v: Value, path: bytes, doc: Doc, place: Place, occ: Counter)
    requires ReadsValues(lex) && doc.depth <= MAX_ENCODED
    ensures Tells(ValueLeaves(lex, v, path, doc, place, occ).0, place.scalars, ValueScalars(lex, v, doc.depth))
    decreases MAX_ENCODED - doc.depth, 0, v, 1
  {
    hide ReadsValues, Tells, LeavesOfString, Decode, ItemLeaves, MemberLeaves, ItemScalars, MemberScalars;
    match v
    case Str(raw, start) => StringTells(lex, raw, start, path, doc, place, occ);
    case Lit(_) => NothingTells(place.scalars);
    case Arr(items) =>
      ItemsTell(lex, items, 0, path, doc, place.scalars, occ);
      assert items[..0] == [] && items[0..] == items && place.scalars + [] == place.scalars;
    case Obj(members) =>
      MembersTell(lex, members, 0, path, doc, place.scalars, occ);
      assert members[..0] == [] && members[0..] == members && place.scalars + [] == place.scalars;
  }

  lemma {:induction false} ItemsTell(
    lex: Lexer, items: seq<Value>, i: nat, path: bytes, doc: Doc, before: seq<Named>, occ: Counter)
    requires ReadsValues(lex) && doc.depth <= MAX_ENCODED && i <= |items|
    ensures Tells(ItemLeaves(lex, items[i..], i, path, doc, before + ItemLits(items[..i]), occ).0, before,
                  ItemScalars(lex, items, i, doc.depth))
    decreases MAX_ENCODED - doc.depth, 0, items, |items| - i
  {
    hide ReadsValues, Tells, ValueLeaves, ValueScalars, ItemLits, ScalarsAfter, Itoa, ItemLeaves;
    if i == |items| {
      assert items[i..] == [];
      NoItems(lex, i, path, doc, before + ItemLits(items[..i]), occ);
      NothingTells(before);
    } else {
      var lits, v := ItemLits(items[..i]), items[i];
      assert items[i..][0] == v && items[i..][1..] == items[i + 1..];
      ItemLeavesStep(lex, items[i..], i, path, doc, before + lits, occ);
      ItemLitsNext(items, i, before);
      var place := Place(before + lits, false, []);
      var (a, occ1) := ValueLeaves(lex, v, path + [SLASH] + Itoa(i), doc, place, occ);
      ValueTells(lex, v, path + [SLASH] + Itoa(i), doc, place, occ);
      TellsBehind(a, before, lits, ValueScalars(lex, v, doc.depth));
      ItemsTell(lex, items, i + 1, path, doc, before, occ1);
      var b := ItemLeaves(lex, items[i + 1..], i + 1, path, doc, before + ItemLits(items[..i + 1]), occ1).0;
      TellsAppend(a, b, before, Behind(lits, ValueScalars(lex, v, doc.depth)),
        ItemScalars(lex, items, i + 1, doc.depth));
    }
  }

  lemma MemberLeavesNext(
    lex: Lexer, members: seq<Member>, path: bytes, doc: Doc, scalars: seq<Named>, occ: Counter)
    requires doc.depth <= MAX_ENCODED
    ensures members == [] ==> MemberLeaves(lex, members, path, doc, scalars, occ) == ([], occ)
    ensures members != [] ==>
              var m := members[0];
              var key := Decode(m.raw);
              var (a, occ1) := ValueLeaves(lex, m.value, path + Segment(key), doc, Place(scalars, true, key), occ);
              var (b, occ2) := MemberLeaves(lex, members[1..], path, doc, ScalarsAfter(scalars, m.value, key), occ1);
              MemberLeaves(lex, members, path, doc, scalars, occ) == (a + b, occ2)
  {
    hide ValueLeaves, Segment, ScalarsAfter, Decode;
  }

  lemma {:induction false} MembersTell(
    lex: Lexer, members: seq<Member>, i: nat, path: bytes, doc: Doc, before: seq<Named>, occ: Counter)
    requires ReadsValues(lex) && doc.depth <= MAX_ENCODED && i <= |members|
    ensures Tells(MemberLeaves(lex, members[i..], path, doc, before + MemberLits(members[..i]), occ).0, before,
                  MemberScalars(lex, members, i, doc.depth))
    decreases MAX_ENCODED - doc.depth, 0, members, |members| - i
  {
    hide ReadsValues, Tells, ValueLeaves, ValueScalars, MemberLits, ScalarsAfter, Segment, Decode, MemberLeaves;
    MemberLeavesNext(lex, members[i..], path, doc, before + MemberLits(members[..i]), occ);
    if i == |members| {
      NothingTells(before);
    } else {
      var lits, m := MemberLits(members[..i]), members[i];
      var key := Decode(m.raw);
      assert members[i..][0] == m && members[i..][1..] == members[i + 1..];
      MemberLitsNext(members, i, before);
      var place := Place(before + lits, true, key);
      var (a, occ1) := ValueLeaves(lex, m.value, path + Segment(key), doc, place, occ);
      ValueTells(lex, m.value, path + Segment(key), doc, place, occ);
      TellsBehind(a, before, lits, ValueScalars(lex, m.value, doc.depth));
      MembersTell(lex, members, i + 1, path, doc, before, occ1);
      var b := MemberLeaves(lex, members[i + 1..], path, doc, before + MemberLits(members[..i + 1]), occ1).0;
      TellsAppend(a, b, before, Behind(lits, ValueScalars(lex, m.value, doc.depth)),
        MemberScalars(lex, members, i + 1, doc.depth));
    }
  }

  // ------------------------------------------------------------------------ parsing an identity

  /** Nothing in the scalars can be taken for what joins them. */
  ghost predicate CleanScalars(scalars: seq<Named>) {
    forall s :: s in scalars ==> NoSeparator(s.name) && NoSeparator(s.raw) && EQUALS !in s.name
  }

  /** A name up to its equals sign, and a literal up to the next separator. */
  lemma OneScalar(s: Named, t: Named, more: bytes, more': bytes)
    requires NoSeparator(s.name) && NoSeparator(s.raw) && EQUALS !in s.name
    requires NoSeparator(t.name) && NoSeparator(t.raw) && EQUALS !in t.name
    requires (more == [] || more[0] == SEPARATOR) && (more' == [] || more'[0] == SEPARATOR)
    requires s.name + ([EQUALS] + (s.raw + more)) == t.name + ([EQUALS] + (t.raw + more'))
    ensures s == t && more == more'
  {
    SplitAt(s.name, EQUALS, s.raw + more, t.name, t.raw + more');
    SplitEnd(s.raw, more, t.raw, more');
  }

  lemma SplitAt(a: bytes, c: byte, b: bytes, a': bytes, b': bytes)
    requires c !in a && c !in a' && a + ([c] + b) == a' + ([c] + b')
    ensures a == a' && b == b'
  {
    var s, s' := a + ([c] + b), a' + ([c] + b');
    assert s[|a|] == c && s'[|a'|] == c;
    assert forall i :: 0 <= i < |a| ==> s[i] == a[i] && a[i] in a;
    assert forall i :: 0 <= i < |a'| ==> s'[i] == a'[i] && a'[i] in a';
    assert |a| == |a'|;
    assert s[..|a|] == a && s'[..|a|] == a' && s[|a| + 1..] == b && s'[|a| + 1..] == b';
  }

  lemma SplitEnd(a: bytes, more: bytes, a': bytes, more': bytes)
    requires NoSeparator(a) && NoSeparator(a') && a + more == a' + more'
    requires (more == [] || more[0] == SEPARATOR) && (more' == [] || more'[0] == SEPARATOR)
    ensures a == a' && more == more'
  {
    var s, s' := a + more, a' + more';
    assert forall i :: 0 <= i < |a| ==> s[i] == a[i];
    assert forall i :: 0 <= i < |a'| ==> s'[i] == a'[i];
    assert more != [] ==> s[|a|] == more[0];
    assert more' != [] ==> s'[|a'|] == more'[0];
    assert |a| == |a'|;
    assert s[..|a|] == a && s'[..|a|] == a' && s[|a|..] == more && s'[|a|..] == more';
  }

  lemma RenderedStart(scalars: seq<Named>)
    ensures RenderScalars(scalars) == [] <==> scalars == []
    ensures scalars != [] ==>
              && RenderScalars(scalars)[0] == SEPARATOR
              && RenderScalars(scalars)[1..] ==
                 scalars[0].name + ([EQUALS] + (scalars[0].raw + RenderScalars(scalars[1..])))
  {
    if scalars != [] {
      FiveParts(SEPARATOR, scalars[0].name, [EQUALS], scalars[0].raw, RenderScalars(scalars[1..]));
    }
  }

  lemma FiveParts(a: byte, b: bytes, c: bytes, d: bytes, e: bytes)
    ensures
      var s := [a] + b + c + d + e;
      s != [] && s[0] == a && s[1..] == b + (c + (d + e))
  {
    var s := [a] + b + c + d + e;
    assert s == [a] + (b + (c + (d + e)));
  }

  lemma {:induction false} RenderedApart(a: seq<Named>, b: seq<Named>)
    requires CleanScalars(a) && CleanScalars(b) && RenderScalars(a) == RenderScalars(b)
    ensures a == b
  {
    hide RenderScalars, NoSeparator;
    RenderedStart(a);
    RenderedStart(b);
    if a != [] {
      assert a[0] in a && b[0] in b;
      RenderedStart(a[1..]);
      RenderedStart(b[1..]);
      OneScalar(a[0], b[0], RenderScalars(a[1..]), RenderScalars(b[1..]));
      RenderedApart(a[1..], b[1..]);
      assert a == [a[0]] + a[1..] && b == [b[0]] + b[1..];
    }
  }

  /** An identity can be taken apart. */
  lemma JoinedApart(path: bytes, a: seq<Named>, m: nat, path': bytes, b: seq<Named>, n: nat)
    requires NoSeparator(path) && NoSeparator(path') && CleanScalars(a) && CleanScalars(b)
    requires JoinIdentity(path, a, m) == JoinIdentity(path', b, n)
    ensures path == path' && a == b && m == n
  {
    hide RenderScalars, NoSeparator, Itoa, CleanScalars;
    IdentitySpells(path, a, m);
    IdentitySpells(path', b, n);
    ItoaInjective(m, n);
    Assoc(path + RenderScalars(a), [SEPARATOR], Itoa(m));
    Assoc(path + RenderScalars(b), [SEPARATOR], Itoa(m));
    MiddleSame(path, RenderScalars(a), RenderScalars(b), [SEPARATOR] + Itoa(m));
    RenderedApart(a, b);
  }

  lemma MiddleSame(front: bytes, a: bytes, b: bytes, back: bytes)
    requires front + a + back == front + b + back
    ensures a == b
  {
    assert |a| == |b|;
    assert (front + a + back)[|front|..|front| + |a|] == a && (front + b + back)[|front|..|front| + |a|] == b;
  }

  // ------------------------------------------------------------------------------ the channels

  /** For each leaf of a call of Walk, the scalars before it. */
  ghost function Channels(lex: Lexer, data: bytes): seq<seq<Named>> {
    TextScalars(lex, data, 0)
  }

  lemma ChannelOfEach(lex: Lexer, data: bytes)
    requires ReadsValues(lex) && WalkAll(lex, data).Some?
    ensures Tells(WalkAll(lex, data).value, [], Channels(lex, data))
  {
    hide ReadsValues, Tells, WalkDocument, TextScalars;
    DocumentTells(lex, data, Doc([], false, 0, Root, []), map[]);
  }

  /**
   Of any two leaves, of one document or of two, the identities are the same exactly when the
   paths, the occurrences and the scalars before them are. Only an identity of at most 1024
   bytes is used.
   */
  lemma IdentitiesTell(lex: Lexer, data: bytes, i: nat, data': bytes, j: nat)
    requires ReadsValues(lex) && WalkAll(lex, data).Some? && WalkAll(lex, data').Some?
    requires i < |WalkAll(lex, data).value| && j < |WalkAll(lex, data').value|
    ensures |Channels(lex, data)| == |WalkAll(lex, data).value|
    ensures |Channels(lex, data')| == |WalkAll(lex, data').value|
    ensures
      var f, g := WalkAll(lex, data).value[i], WalkAll(lex, data').value[j];
      var a, b := Channels(lex, data)[i], Channels(lex, data')[j];
      && (f.leaf.identifiable <==> |f.leaf.identity| <= 1024)
      && (NoSeparator(f.path) && NoSeparator(g.path) && CleanScalars(a) && CleanScalars(b) ==>
        (f.leaf.identity == g.leaf.identity <==> f.path == g.path && f.occurrence == g.occurrence && a == b))
  {
    hide ReadsValues, WalkAll, Channels, JoinIdentity, NoSeparator, CleanScalars;
    ChannelOfEach(lex, data);
    ChannelOfEach(lex, data');
    var f, g := WalkAll(lex, data).value[i], WalkAll(lex, data').value[j];
    var a, b := Channels(lex, data)[i], Channels(lex, data')[j];
    assert [] + a == a && [] + b == b;
    if NoSeparator(f.path) && NoSeparator(g.path) && CleanScalars(a) && CleanScalars(b)
      && f.leaf.identity == g.leaf.identity
    {
      JoinedApart(f.path, a, f.occurrence, g.path, b, g.occurrence);
    }
  }

  // ---------------------------------------------------------------------------- array indices

  /** The number that decimal digits spell. */
  function NumberOf(digits: bytes): int {
    if digits == [] then 0 else
    NumberOf(digits[..|digits| - 1]) * 10 + (digits[|digits| - 1] as int - 48)
  }

  /** An index is named by its decimal digits, without a zero in front. */
  lemma {:induction false} IndexNamed(n: nat)
    ensures NumberOf(Itoa(n)) == n && (forall c :: c in Itoa(n) ==> 48 <= c <= 57)
    ensures n > 0 ==> Itoa(n)[0] != 48
  {
    if n >= 10 {
      IndexNamed(n / 10);
      assert Itoa(n)[..|Itoa(n)| - 1] == Itoa(n / 10);
      assert Itoa(n)[0] == Itoa(n / 10)[0];
    }
  }
}
