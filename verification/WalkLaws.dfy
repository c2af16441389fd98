/**
 The explicit-stack loop against the recursive definition: on the tokens of a value the loop
 gives the leaves that the definition gives, in document order, exactly when the value is
 not nested too deep.
 */
module WalkLaws {
  import opened Bytes
  import opened Lens
  import opened Walk

  /** A JSON value, as the decoder's tokens spell it. */
  datatype Value =
    | Str(raw: bytes, start: nat)
    | Lit(slice: bytes)
    | Arr(items: seq<Value>)
    | Obj(members: seq<Member>)

  datatype Member = Member(raw: bytes, start: nat, value: Value)

  function Tokens(v: Value): (r: seq<Token>)
    ensures r != []
    decreases v
  {
    match v
    case Str(raw, start) => [Text(raw, start)]
    case Lit(slice) => [Literal(slice)]
    case Arr(items) => [Open(false)] + ItemTokens(items) + [Close]
    case Obj(members) => [Open(true)] + MemberTokens(members) + [Close]
  }

  function ItemTokens(items: seq<Value>): seq<Token>
    decreases items
  {
    if items == [] then [] else Tokens(items[0]) + ItemTokens(items[1..])
  }

  function MemberTokens(members: seq<Member>): seq<Token>
    decreases members
  {
    if members == [] then [] else
    var m := members[0];
    [Text(m.raw, m.start)] + Tokens(m.value) + MemberTokens(members[1..])
  }

  function Max(a: nat, b: nat): nat {
    if a > b then a else b
  }

  /** How deep the containers of a value are nested. */
  function Nesting(v: Value): nat
    decreases v
  {
    match v
    case Arr(items) => 1 + ItemsNesting(items)
    case Obj(members) => 1 + MembersNesting(members)
    case _ => 0
  }

  function ItemsNesting(items: seq<Value>): nat
    decreases items
  {
    if items == [] then 0 else Max(Nesting(items[0]), ItemsNesting(items[1..]))
  }

  function MembersNesting(members: seq<Member>): nat
    decreases members
  {
    if members == [] then 0 else Max(Nesting(members[0].value), MembersNesting(members[1..]))
  }

  // ------------------------------------------------------------- the recursive definition

  /** The leaves of a value at a path, and the counter behind them. */
  function ValueLeaves(lex: Lexer, v: Value, path: bytes, doc: Doc, place: Place, occ: Counter): (seq<Found>, Counter)
    requires doc.depth <= MAX_ENCODED
    decreases v
  {
    match v
    case Str(raw, start) => LeavesOfString(lex, Decode(raw), path, doc, Tok(raw, start, doc.enclosing), place, occ)
    case Lit(_) => ([], occ)
    case Arr(items) => ItemLeaves(lex, items, 0, path, doc, place.scalars, occ)
    case Obj(members) => MemberLeaves(lex, members, path, doc, place.scalars, occ)
  }

  /** An element's scalars stand in the identities of the leaves behind it. */
  function ItemLeaves(
    lex: Lexer, items: seq<Value>, index: nat, path: bytes, doc: Doc, scalars: seq<Named>, occ: Counter)
    : (seq<Found>, Counter)
    requires doc.depth <= MAX_ENCODED
    decreases items
  {
    if items == [] then ([], occ) else
    var v := items[0];
    var (a, occ1) := ValueLeaves(lex, v, path + [SLASH] + Itoa(index), doc, Place(scalars, false, []), occ);
    var (b, occ2) := ItemLeaves(lex, items[1..], index + 1, path, doc, ScalarsAfter(scalars, v, Itoa(index)), occ1);
    (a + b, occ2)
  }

  function MemberLeaves(
    lex: Lexer, members: seq<Member>, path: bytes, doc: Doc, scalars: seq<Named>, occ: Counter): (seq<Found>, Counter)
    requires doc.depth <= MAX_ENCODED
    decreases members
  {
    if members == [] then ([], occ) else
    var m := members[0];
    var key := Decode(m.raw);
    var (a, occ1) := ValueLeaves(lex, m.value, path + Segment(key), doc, Place(scalars, true, key), occ);
    var (b, occ2) := MemberLeaves(lex, members[1..], path, doc, ScalarsAfter(scalars, m.value, key), occ1);
    (a + b, occ2)
  }

  function ScalarsAfter(scalars: seq<Named>, v: Value, name: bytes): seq<Named> {
    if v.Lit? then scalars + [Named(name, ScalarRaw(v.slice))] else scalars
  }

  // --------------------------------------------------------------------- facts about stacks

  predicate Ready(stack: seq<Frame>) {
    stack != [] && (Top(stack).isObject ==> Top(stack).hasKey)
  }

  function Top(stack: seq<Frame>): Frame
    requires stack != []
  {
    stack[|stack| - 1]
  }

  /** The stack behind a value. */
  function Past(stack: seq<Frame>, v: Value): (r: seq<Frame>)
    ensures |r| == |stack|
  {
    if v.Lit? then Capture(Advance(stack), MemberName(stack), ScalarRaw(v.slice)) else Advance(stack)
  }

  /** The same containers, with more of the innermost one read. */
  predicate Further(stack: seq<Frame>, later: seq<Frame>) {
    && stack != [] && |later| == |stack| && later[..|stack| - 1] == stack[..|stack| - 1]
    && Top(later).isObject == Top(stack).isObject && Top(later).seg == Top(stack).seg
  }

  lemma PastFurther(stack: seq<Frame>, v: Value)
    requires stack != []
    ensures Further(stack, Past(stack, v))
    ensures JoinSegs(Past(stack, v)) == JoinSegs(stack)
    ensures Flatten(Past(stack, v)) ==
            Flatten(stack) + if v.Lit? then [Named(MemberName(stack), ScalarRaw(v.slice))] else []
    ensures !Top(stack).isObject ==> Top(Past(stack, v)).index == Top(stack).index + 1
    ensures Top(stack).isObject ==> !Top(Past(stack, v)).hasKey
  {
    hide ScalarRaw, Itoa, EscapePointer;
    var n := |stack| - 1;
    assert Past(stack, v)[..n] == stack[..n];
    assert Flatten(stack) + [] == Flatten(stack);
    if v.Lit? {
      Assoc(Flatten(stack[..n]), Top(stack).scalars, [Named(MemberName(stack), ScalarRaw(v.slice))]);
    }
  }

  /** A scalar passed by stands behind those that were there. */
  lemma PastScalars(inherited: seq<Named>, stack: seq<Frame>, v: Value)
    requires stack != []
    ensures inherited + Flatten(Past(stack, v)) == ScalarsAfter(inherited + Flatten(stack), v, MemberName(stack))
  {
    hide Flatten, Past, MemberName, ScalarRaw;
    PastFurther(stack, v);
    if v.Lit? {
      Assoc(inherited, Flatten(stack), [Named(MemberName(stack), ScalarRaw(v.slice))]);
    } else {
      assert Flatten(stack) + [] == Flatten(stack);
    }
  }

  lemma ItemLeavesStep(
    lex: Lexer, items: seq<Value>, index: nat, path: bytes, doc: Doc, scalars: seq<Named>, occ: Counter)
    requires doc.depth <= MAX_ENCODED && items != []
    ensures
      var (a, occ1) := ValueLeaves(lex, items[0], path + [SLASH] + Itoa(index), doc, Place(scalars, false, []), occ);
      var (b, occ2) := ItemLeaves(lex, items[1..], index + 1, path, doc, ScalarsAfter(scalars, items[0], Itoa(index)),
        occ1);
      ItemLeaves(lex, items, index, path, doc, scalars, occ) == (a + b, occ2)
  {
    hide ValueLeaves, Itoa, ScalarsAfter;
  }

  lemma AdvanceSame(stack: seq<Frame>)
    requires stack != []
    ensures JoinSegs(Advance(stack)) == JoinSegs(stack) && Flatten(Advance(stack)) == Flatten(stack)
    ensures forall inherited :: PlaceIn(inherited, Advance(stack)) == PlaceIn(inherited, stack)
  {
    var n := |stack| - 1;
    assert Advance(stack)[..n] == stack[..n];
  }

  lemma Pushed(stack: seq<Frame>, isObject: bool)
    requires stack != []
    ensures
      var frame := Frame(isObject, [], false, 0, ChildSegment(stack), []);
      var pushed := Advance(stack) + [frame];
      && JoinSegs(pushed) == JoinSegs(stack) + ChildSegment(stack)
      && Flatten(pushed) == Flatten(stack) && Top(pushed) == frame && pushed[..|stack|] == Advance(stack)
  {
    var frame := Frame(isObject, [], false, 0, ChildSegment(stack), []);
    var pushed := Advance(stack) + [frame];
    hide Advance, ChildSegment, PlaceIn, JoinSegs, Flatten;
    AdvanceSame(stack);
    SegsSnoc(Advance(stack), frame);
    assert pushed[..|stack|] == Advance(stack);
    assert Flatten(stack) + [] == Flatten(stack);
  }

  lemma SegsSnoc(stack: seq<Frame>, frame: Frame)
    ensures JoinSegs(stack + [frame]) == JoinSegs(stack) + frame.seg
    ensures Flatten(stack + [frame]) == Flatten(stack) + frame.scalars
  {
    assert (stack + [frame])[..|stack|] == stack;
  }

  lemma FurtherTrans(a: seq<Frame>, b: seq<Frame>, c: seq<Frame>)
    requires Further(a, b) && Further(b, c)
    ensures Further(a, c)
  {
  }

  // -------------------------------------------------------------------------- one step each

  /** One more token in front. */
  lemma Front(tok: Token, rest: seq<Token>)
    ensures ([tok] + rest)[0] == tok && ([tok] + rest)[1..] == rest
  {
  }

  lemma StepOpen(
    lex: Lexer, isObject: bool, rest: seq<Token>, stack: seq<Frame>, out: seq<Found>, doc: Doc, occ: Counter)
    requires doc.depth <= MAX_ENCODED && |stack| < MAX_NESTING
    ensures WalkTokens(lex, [Open(isObject)] + rest, stack, out, doc, occ)
         == WalkTokens(lex, rest, Advance(stack) + [Frame(isObject, [], false, 0, ChildSegment(stack), [])], out, doc,
           occ)
  {
    Front(Open(isObject), rest);
  }

  lemma StepTooDeep(
    lex: Lexer, isObject: bool, rest: seq<Token>, stack: seq<Frame>, out: seq<Found>, doc: Doc, occ: Counter)
    requires doc.depth <= MAX_ENCODED && |stack| >= MAX_NESTING
    ensures WalkTokens(lex, [Open(isObject)] + rest, stack, out, doc, occ).0 == None
  {
    Front(Open(isObject), rest);
  }

  lemma StepClose(lex: Lexer, rest: seq<Token>, stack: seq<Frame>, out: seq<Found>, doc: Doc, occ: Counter)
    requires doc.depth <= MAX_ENCODED && stack != []
    ensures WalkTokens(lex, [Close] + rest, stack, out, doc, occ)
         == if |stack| == 1 then (Some((out, rest)), occ)
           else WalkTokens(lex, rest, stack[..|stack| - 1], out, doc, occ)
  {
    Front(Close, rest);
  }

  lemma StepKey(
    lex: Lexer, raw: bytes, start: nat, rest: seq<Token>, stack: seq<Frame>, out: seq<Found>, doc: Doc, occ: Counter)
    requires doc.depth <= MAX_ENCODED && stack != [] && Top(stack).isObject && !Top(stack).hasKey
    ensures WalkTokens(lex, [Text(raw, start)] + rest, stack, out, doc, occ)
         == WalkTokens(lex, rest, WithTop(stack, Top(stack).(key := Decode(raw), hasKey := true)), out, doc, occ)
  {
    Front(Text(raw, start), rest);
  }

  lemma StepText(
    lex: Lexer, raw: bytes, start: nat, rest: seq<Token>, stack: seq<Frame>, out: seq<Found>, doc: Doc, occ: Counter)
    requires doc.depth <= MAX_ENCODED && Ready(stack)
    ensures
      var (more, occ1) := LeavesOfString(lex, Decode(raw), doc.base + JoinSegs(stack) + ChildSegment(stack), doc,
                                         Tok(raw, start, doc.enclosing), PlaceIn(doc.inherited, stack), occ);
      WalkTokens(lex, [Text(raw, start)] + rest, stack, out, doc, occ)
      == WalkTokens(lex, rest, Advance(stack), out + more, doc, occ1)
  {
    hide LeavesOfString, JoinSegs, Flatten, ChildSegment, Decode;
    Front(Text(raw, start), rest);
    AdvanceSame(stack);
    hide PlaceIn, Advance;
  }

  lemma StepLiteral(
    lex: Lexer, slice: bytes, rest: seq<Token>, stack: seq<Frame>, out: seq<Found>, doc: Doc, occ: Counter)
    requires doc.depth <= MAX_ENCODED && Ready(stack)
    ensures WalkTokens(lex, [Literal(slice)] + rest, stack, out, doc, occ)
         == WalkTokens(lex, rest, Past(stack, Lit(slice)), out, doc, occ)
  {
    hide LeavesOfString, JoinSegs, Flatten, ChildSegment, Decode, ScalarRaw;
    Front(Literal(slice), rest);
  }

  // ---------------------------------------------------------------------- loop and recursion

  /** Inside a container: a value's tokens add its leaves and move the stack past it. */
  lemma {:induction false} ValueWalk(
    lex: Lexer, v: Value, rest: seq<Token>, stack: seq<Frame>, out: seq<Found>, doc: Doc, occ: Counter)
    requires doc.depth <= MAX_ENCODED && Ready(stack) && |stack| + Nesting(v) <= MAX_NESTING
    ensures
      var (more, occ1) := ValueLeaves(lex, v, doc.base + JoinSegs(stack) + ChildSegment(stack), doc,
        PlaceIn(doc.inherited, stack), occ);
      WalkTokens(lex, Tokens(v) + rest, stack, out, doc, occ)
        == WalkTokens(lex, rest, Past(stack, v), out + more, doc, occ1)
    decreases v
  {
    hide WalkTokens, LeavesOfString, JoinSegs, Flatten, ChildSegment, Decode, Ready;
    match v
    case Str(raw, start) => StepText(lex, raw, start, rest, stack, out, doc, occ);
    case Lit(slice) =>
      StepLiteral(lex, slice, rest, stack, out, doc, occ);
      assert out + [] == out;
    case Arr(items) => ContainerWalk(lex, v, rest, stack, out, doc, occ);
    case Obj(members) => ContainerWalk(lex, v, rest, stack, out, doc, occ);
  }

  function Body(v: Value): seq<Token>
    requires v.Arr? || v.Obj?
  {
    if v.Arr? then ItemTokens(v.items) else MemberTokens(v.members)
  }

  function BodyLeaves(
    lex: Lexer, v: Value, path: bytes, doc: Doc, scalars: seq<Named>, occ: Counter): (seq<Found>, Counter)
    requires doc.depth <= MAX_ENCODED && (v.Arr? || v.Obj?)
  {
    if v.Arr? then ItemLeaves(lex, v.items, 0, path, doc, scalars, occ)
    else MemberLeaves(lex, v.members, path, doc, scalars, occ)
  }

  lemma TokensSplit(v: Value, rest: seq<Token>)
    requires v.Arr? || v.Obj?
    ensures Tokens(v) + rest == [Open(v.Obj?)] + (Body(v) + ([Close] + rest))
  {
    hide ItemTokens, MemberTokens;
  }

  lemma {:induction false} ContainerWalk(
    lex: Lexer, v: Value, rest: seq<Token>, stack: seq<Frame>, out: seq<Found>, doc: Doc, occ: Counter)
    requires doc.depth <= MAX_ENCODED && Ready(stack) && |stack| + Nesting(v) <= MAX_NESTING && (v.Arr? || v.Obj?)
    ensures
      var (more, occ1) := BodyLeaves(lex, v, doc.base + JoinSegs(stack) + ChildSegment(stack), doc,
        PlaceIn(doc.inherited, stack).scalars, occ);
      WalkTokens(lex, Tokens(v) + rest, stack, out, doc, occ)
        == WalkTokens(lex, rest, Advance(stack), out + more, doc, occ1)
    decreases v, 0
  {
    hide WalkTokens, Tokens, Body, BodyLeaves, JoinSegs, Flatten, ChildSegment;
    var frame := Frame(v.Obj?, [], false, 0, ChildSegment(stack), []);
    var pushed := Advance(stack) + [frame];
    Pushed(stack, v.Obj?);
    TokensSplit(v, rest);
    StepOpen(lex, v.Obj?, Body(v) + ([Close] + rest), stack, out, doc, occ);
    Assoc(doc.base, JoinSegs(stack), ChildSegment(stack));
    var later := BodyWalk(lex, v, [Close] + rest, pushed, out, doc, occ);
    var (more, occ1) := BodyLeaves(lex, v, doc.base + JoinSegs(pushed), doc, doc.inherited + Flatten(pushed), occ);
    StepClose(lex, rest, later, out + more, doc, occ1);
    assert later[..|later| - 1] == Advance(stack);
  }

  lemma {:induction false} BodyWalk(
    lex: Lexer, v: Value, rest: seq<Token>, stack: seq<Frame>, out: seq<Found>, doc: Doc, occ: Counter)
    returns (later: seq<Frame>)
    requires doc.depth <= MAX_ENCODED && (v.Arr? || v.Obj?) && |stack| + Nesting(v) - 1 <= MAX_NESTING
    requires stack != [] && Top(stack).isObject == v.Obj? && Top(stack).index == 0 && !Top(stack).hasKey
    ensures Further(stack, later)
    ensures
      var (more, occ1) := BodyLeaves(lex, v, doc.base + JoinSegs(stack), doc, doc.inherited + Flatten(stack), occ);
      WalkTokens(lex, Body(v) + rest, stack, out, doc, occ) == WalkTokens(lex, rest, later, out + more, doc, occ1)
    decreases v, -1
  {
    hide WalkTokens, JoinSegs, Flatten;
    if v.Arr? {
      later := ItemsWalk(lex, v.items, rest, stack, out, doc, occ);
    } else {
      later := MembersWalk(lex, v.members, rest, stack, out, doc, occ);
    }
  }

  lemma {:induction false} ItemsWalk(
    lex: Lexer, items: seq<Value>, rest: seq<Token>, stack: seq<Frame>, out: seq<Found>, doc: Doc, occ: Counter)
    returns (later: seq<Frame>)
    requires doc.depth <= MAX_ENCODED && |stack| + ItemsNesting(items) <= MAX_NESTING
    requires stack != [] && !Top(stack).isObject
    ensures Further(stack, later)
    ensures
      var (more, occ1) := ItemLeaves(lex, items, Top(stack).index, doc.base + JoinSegs(stack), doc,
        doc.inherited + Flatten(stack), occ);
      WalkTokens(lex, ItemTokens(items) + rest, stack, out, doc, occ)
        == WalkTokens(lex, rest, later, out + more, doc, occ1)
    decreases items
  {
    hide WalkTokens, JoinSegs, Flatten, Itoa, Past, ValueLeaves, ItemLeaves, ScalarsAfter, Tokens;
    if items == [] {
      assert [] + rest == rest && out + [] == out;
      NoItems(lex, Top(stack).index, doc.base + JoinSegs(stack), doc, doc.inherited + Flatten(stack), occ);
      later := stack;
    } else {
      var v, index, path := items[0], Top(stack).index, doc.base + JoinSegs(stack);
      Assoc(Tokens(v), ItemTokens(items[1..]), rest);
      Assoc(path, [SLASH], Itoa(index));
      ValueWalk(lex, v, ItemTokens(items[1..]) + rest, stack, out, doc, occ);
      ItemLeavesStep(lex, items, index, path, doc, doc.inherited + Flatten(stack), occ);
      var (a, occ1) := ValueLeaves(lex, v, path + [SLASH] + Itoa(index), doc,
        Place(doc.inherited + Flatten(stack), false, []), occ);
      PastFurther(stack, v);
      PastScalars(doc.inherited, stack, v);
      var past := Past(stack, v);
      later := ItemsWalk(lex, items[1..], rest, past, out + a, doc, occ1);
      FurtherTrans(stack, past, later);
      Assoc(out, a, ItemLeaves(lex, items[1..], index + 1, path, doc, doc.inherited + Flatten(past), occ1).0);
    }
  }

  lemma NoItems(lex: Lexer, index: nat, path: bytes, doc: Doc, scalars: seq<Named>, occ: Counter)
    requires doc.depth <= MAX_ENCODED
    ensures ItemLeaves(lex, [], index, path, doc, scalars, occ) == ([], occ)
  {
  }

  lemma {:induction false} MembersWalk(
    lex: Lexer, members: seq<Member>, rest: seq<Token>, stack: seq<Frame>, out: seq<Found>, doc: Doc, occ: Counter)
    returns (later: seq<Frame>)
    requires doc.depth <= MAX_ENCODED && |stack| + MembersNesting(members) <= MAX_NESTING
    requires stack != [] && Top(stack).isObject && !Top(stack).hasKey
    ensures Further(stack, later)
    ensures
      var (more, occ1) := MemberLeaves(lex, members, doc.base + JoinSegs(stack), doc, doc.inherited + Flatten(stack),
        occ);
      WalkTokens(lex, MemberTokens(members) + rest, stack, out, doc, occ)
        == WalkTokens(lex, rest, later, out + more, doc, occ1)
    decreases members
  {
    hide WalkTokens, JoinSegs, Flatten, Capture, Advance, ScalarRaw, Segment, Decode;
    if members == [] {
      assert [] + rest == rest && out + [] == out;
      later := stack;
    } else {
      var m := members[0];
      var key := Decode(m.raw);
      var next := MemberTokens(members[1..]) + rest;
      assert MemberTokens(members) + rest == [Text(m.raw, m.start)] + (Tokens(m.value) + next);
      StepKey(lex, m.raw, m.start, Tokens(m.value) + next, stack, out, doc, occ);
      var keyed := WithTop(stack, Top(stack).(key := key, hasKey := true));
      KeyedSame(stack, key);
      ValueWalk(lex, m.value, next, keyed, out, doc, occ);
      var (a, occ1) := ValueLeaves(lex, m.value, doc.base + JoinSegs(stack) + Segment(key), doc,
                                   Place(doc.inherited + Flatten(stack), true, key), occ);
      PastFurther(keyed, m.value);
      var past := Past(keyed, m.value);
      PastScalars(doc.inherited, keyed, m.value);
      later := MembersWalk(lex, members[1..], rest, past, out + a, doc, occ1);
      FurtherTrans(stack, keyed, past);
      FurtherTrans(stack, past, later);
      Assoc(out, a, MemberLeaves(lex, members[1..], doc.base + JoinSegs(stack), doc, doc.inherited + Flatten(past),
        occ1).0);
    }
  }

  lemma KeyedSame(stack: seq<Frame>, key: bytes)
    requires stack != [] && Top(stack).isObject
    ensures
      var keyed := WithTop(stack, Top(stack).(key := key, hasKey := true));
      && JoinSegs(keyed) == JoinSegs(stack) && Flatten(keyed) == Flatten(stack)
      && Ready(keyed) && Further(stack, keyed)
      && ChildSegment(keyed) == Segment(key) && MemberName(keyed) == key
      && forall inherited :: PlaceIn(inherited, keyed) == Place(inherited + Flatten(stack), true, key)
  {
    var keyed := WithTop(stack, Top(stack).(key := key, hasKey := true));
    assert keyed[..|stack| - 1] == stack[..|stack| - 1];
  }

  /** A document's walk is the recursive definition of its value. */
  lemma DocumentWalk(lex: Lexer, v: Value, data: bytes, doc: Doc, occ: Counter)
    requires doc.depth <= MAX_ENCODED && Nesting(v) <= MAX_NESTING
    requires lex(data) == Lexed(Tokens(v), true)
    ensures
      var (out, occ1) := ValueLeaves(lex, v, doc.base, doc, Place(doc.inherited, false, []), occ);
      WalkDocument(lex, data, doc, occ) == (Some(out), occ1)
  {
    hide WalkTokens, ValueLeaves, Nesting;
    RootWalk(lex, v, [], doc, occ);
    assert Tokens(v) + [] == Tokens(v);
  }

  /** The loop stops behind the value. */
  lemma RootWalk(lex: Lexer, v: Value, rest: seq<Token>, doc: Doc, occ: Counter)
    requires doc.depth <= MAX_ENCODED && Nesting(v) <= MAX_NESTING
    ensures
      var (out, occ1) := ValueLeaves(lex, v, doc.base, doc, Place(doc.inherited, false, []), occ);
      WalkTokens(lex, Tokens(v) + rest, [], [], doc, occ) == (Some((out, rest)), occ1)
  {
    hide LeavesOfString, ItemTokens, MemberTokens, ItemLeaves, MemberLeaves, WalkTokens;
    match v
    case Str(raw, start) => RootString(lex, raw, start, rest, doc, occ);
    case Lit(slice) => RootLiteral(lex, slice, rest, doc, occ);
    case Arr(_) => RootContainer(lex, v, rest, doc, occ);
    case Obj(_) => RootContainer(lex, v, rest, doc, occ);
  }

  lemma RootString(lex: Lexer, raw: bytes, start: nat, rest: seq<Token>, doc: Doc, occ: Counter)
    requires doc.depth <= MAX_ENCODED
    ensures
      var (out, occ1) := LeavesOfString(lex, Decode(raw), doc.base, doc, Tok(raw, start, doc.enclosing),
                                        Place(doc.inherited, false, []), occ);
      WalkTokens(lex, [Text(raw, start)] + rest, [], [], doc, occ) == (Some((out, rest)), occ1)
  {
    hide LeavesOfString, Decode;
    Front(Text(raw, start), rest);
    var (out, occ1) := LeavesOfString(lex, Decode(raw), doc.base, doc, Tok(raw, start, doc.enclosing),
                                      Place(doc.inherited, false, []), occ);
    assert [] + out == out;
  }

  lemma RootLiteral(lex: Lexer, slice: bytes, rest: seq<Token>, doc: Doc, occ: Counter)
    requires doc.depth <= MAX_ENCODED
    ensures WalkTokens(lex, [Literal(slice)] + rest, [], [], doc, occ) == (Some(([], rest)), occ)
  {
    Front(Literal(slice), rest);
  }

  lemma RootFrame(isObject: bool)
    ensures
      var frame := Frame(isObject, [], false, 0, [], []);
      && Advance([]) + [Frame(isObject, [], false, 0, ChildSegment([]), [])] == [frame]
      && JoinSegs([frame]) == [] && Flatten([frame]) == []
  {
    var frame := Frame(isObject, [], false, 0, [], []);
    assert [frame][..0] == [];
  }

  function RootedAt(isObject: bool): Frame {
    Frame(isObject, [], false, 0, [], [])
  }

  lemma RootOpen(lex: Lexer, v: Value, rest: seq<Token>, doc: Doc, occ: Counter)
    requires doc.depth <= MAX_ENCODED && (v.Arr? || v.Obj?)
    ensures WalkTokens(lex, Tokens(v) + rest, [], [], doc, occ)
         == WalkTokens(lex, Body(v) + ([Close] + rest), [RootedAt(v.Obj?)], [], doc, occ)
  {
    hide WalkTokens, Tokens, Body, JoinSegs, Flatten, Advance, ChildSegment;
    TokensSplit(v, rest);
    StepOpen(lex, v.Obj?, Body(v) + ([Close] + rest), [], [], doc, occ);
    RootFrame(v.Obj?);
  }

  lemma RootBody(lex: Lexer, v: Value, rest: seq<Token>, doc: Doc, occ: Counter) returns (later: seq<Frame>)
    requires doc.depth <= MAX_ENCODED && Nesting(v) <= MAX_NESTING && (v.Arr? || v.Obj?)
    ensures |later| == 1
    ensures
      var (out, occ1) := BodyLeaves(lex, v, doc.base, doc, doc.inherited, occ);
      WalkTokens(lex, Body(v) + ([Close] + rest), [RootedAt(v.Obj?)], [], doc, occ)
        == WalkTokens(lex, [Close] + rest, later, out, doc, occ1)
  {
    hide WalkTokens, Body, BodyLeaves, JoinSegs, Flatten, Nesting;
    RootFrame(v.Obj?);
    var stack := [RootedAt(v.Obj?)];
    assert doc.base + JoinSegs(stack) == doc.base && doc.inherited + Flatten(stack) == doc.inherited;
    later := BodyWalk(lex, v, [Close] + rest, stack, [], doc, occ);
    var (out, occ1) := BodyLeaves(lex, v, doc.base, doc, doc.inherited, occ);
    assert [] + out == out;
  }

  lemma RootContainer(lex: Lexer, v: Value, rest: seq<Token>, doc: Doc, occ: Counter)
    requires doc.depth <= MAX_ENCODED && Nesting(v) <= MAX_NESTING && (v.Arr? || v.Obj?)
    ensures
      var (out, occ1) := BodyLeaves(lex, v, doc.base, doc, doc.inherited, occ);
      WalkTokens(lex, Tokens(v) + rest, [], [], doc, occ) == (Some((out, rest)), occ1)
  {
    hide WalkTokens, Tokens, Body, BodyLeaves, Nesting;
    RootOpen(lex, v, rest, doc, occ);
    var later := RootBody(lex, v, rest, doc, occ);
    var (out, occ1) := BodyLeaves(lex, v, doc.base, doc, doc.inherited, occ);
    StepClose(lex, rest, later, out, doc, occ1);
  }

  // ------------------------------------------------------------------------ nested too deep

  lemma {:induction false} ValueTooDeep(
    lex: Lexer, v: Value, rest: seq<Token>, stack: seq<Frame>, out: seq<Found>, doc: Doc, occ: Counter)
    requires doc.depth <= MAX_ENCODED && |stack| <= MAX_NESTING < |stack| + Nesting(v)
    ensures WalkTokens(lex, Tokens(v) + rest, stack, out, doc, occ).0 == None
    decreases v, 0
  {
    hide WalkTokens, ItemTokens, MemberTokens, ChildSegment;
    var tail := Body(v) + ([Close] + rest);
    assert Tokens(v) + rest == [Open(v.Obj?)] + tail;
    if |stack| == MAX_NESTING {
      StepTooDeep(lex, v.Obj?, tail, stack, out, doc, occ);
    } else {
      StepOpen(lex, v.Obj?, tail, stack, out, doc, occ);
      var pushed := Advance(stack) + [Frame(v.Obj?, [], false, 0, ChildSegment(stack), [])];
      if v.Arr? {
        ItemsTooDeep(lex, v.items, [Close] + rest, pushed, out, doc, occ);
      } else {
        MembersTooDeep(lex, v.members, [Close] + rest, pushed, out, doc, occ);
      }
    }
  }

  lemma {:induction false} ItemsTooDeep(
    lex: Lexer, items: seq<Value>, rest: seq<Token>, stack: seq<Frame>, out: seq<Found>, doc: Doc, occ: Counter)
    requires doc.depth <= MAX_ENCODED && stack != [] && !Top(stack).isObject
    requires |stack| <= MAX_NESTING < |stack| + ItemsNesting(items)
    ensures WalkTokens(lex, ItemTokens(items) + rest, stack, out, doc, occ).0 == None
    decreases items
  {
    hide WalkTokens, ValueLeaves, Past;
    var v := items[0];
    var next := ItemTokens(items[1..]) + rest;
    Assoc(Tokens(v), ItemTokens(items[1..]), rest);
    if |stack| + Nesting(v) > MAX_NESTING {
      ValueTooDeep(lex, v, next, stack, out, doc, occ);
    } else {
      ValueWalk(lex, v, next, stack, out, doc, occ);
      PastFurther(stack, v);
      var (a, occ1) := ValueLeaves(lex, v, doc.base + JoinSegs(stack) + ChildSegment(stack), doc,
        PlaceIn(doc.inherited, stack), occ);
      ItemsTooDeep(lex, items[1..], rest, Past(stack, v), out + a, doc, occ1);
    }
  }

  lemma {:induction false} MembersTooDeep(
    lex: Lexer, members: seq<Member>, rest: seq<Token>, stack: seq<Frame>, out: seq<Found>, doc: Doc, occ: Counter)
    requires doc.depth <= MAX_ENCODED && stack != [] && Top(stack).isObject && !Top(stack).hasKey
    requires |stack| <= MAX_NESTING < |stack| + MembersNesting(members)
    ensures WalkTokens(lex, MemberTokens(members) + rest, stack, out, doc, occ).0 == None
    decreases members
  {
    hide WalkTokens, ValueLeaves, Past, Decode;
    var m := members[0];
    var next := MemberTokens(members[1..]) + rest;
    assert MemberTokens(members) + rest == [Text(m.raw, m.start)] + (Tokens(m.value) + next);
    StepKey(lex, m.raw, m.start, Tokens(m.value) + next, stack, out, doc, occ);
    var keyed := WithTop(stack, Top(stack).(key := Decode(m.raw), hasKey := true));
    KeyedSame(stack, Decode(m.raw));
    if |stack| + Nesting(m.value) > MAX_NESTING {
      ValueTooDeep(lex, m.value, next, keyed, out, doc, occ);
    } else {
      ValueWalk(lex, m.value, next, keyed, out, doc, occ);
      PastFurther(keyed, m.value);
      var (a, occ1) := ValueLeaves(lex, m.value, doc.base + JoinSegs(keyed) + ChildSegment(keyed), doc,
        PlaceIn(doc.inherited, keyed), occ);
      MembersTooDeep(lex, members[1..], rest, Past(keyed, m.value), out + a, doc, occ1);
    }
  }

  /** The walk of a well-formed document succeeds exactly when it is not nested too deep. */
  lemma WalkAccepts(lex: Lexer, v: Value, data: bytes, doc: Doc, occ: Counter)
    requires doc.depth <= MAX_ENCODED && lex(data) == Lexed(Tokens(v), true)
    ensures WalkDocument(lex, data, doc, occ).0.Some? <==> Nesting(v) <= 10000
  {
    hide WalkTokens, ValueLeaves, Nesting;
    if Nesting(v) <= MAX_NESTING {
      DocumentWalk(lex, v, data, doc, occ);
    } else {
      ValueTooDeep(lex, v, [], [], [], doc, occ);
      assert Tokens(v) + [] == Tokens(v);
    }
  }
}
