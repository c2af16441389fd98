/**
 Collecting the string values of a document (pkg/protocol/walk.go, pkg/protocol/identity.go):
 a loop over the decoder's tokens with an explicit stack of open containers, which starts
 again inside every string that holds a document. What the decoder makes of a text is any
 sequence of tokens, complete or cut short by an error.
 */
module Walk {
  import opened Bytes
  import opened Lens
  import Utf8

  const MAX_NESTING: nat := 10000
  const MAX_ENCODED: nat := 32
  const MAX_IDENTITY: nat := 1024

  const SLASH: byte := 47
  const TILDE: byte := 126
  const EQUALS: byte := 61
  const SEPARATOR: byte := 0x1f

  /** A string token's interior and the place of its quote; a scalar with what precedes it. */
  datatype Token = Open(isObject: bool) | Close | Text(raw: bytes, start: nat) | Literal(slice: bytes)

  /** The tokens of a text, and whether its end was reached without an error. */
  datatype Lexed = Lexed(tokens: seq<Token>, complete: bool)

  type Lexer = bytes -> Lexed

  datatype Named = Named(name: bytes, raw: bytes)

  datatype Frame = Frame(isObject: bool, key: bytes, hasKey: bool, index: nat, seg: bytes, scalars: seq<Named>)

  /** A leaf with its pointer and its member key; `occurrence` is the last part of its identity. */
  datatype Found = Found(path: bytes, member: bool, key: bytes, occurrence: nat, leaf: Leaf)

  /** How often each path has occurred in a call of Walk. */
  type Counter = map<bytes, nat>

  function Count(c: Counter, path: bytes): nat {
    if path in c then c[path] else 0
  }

  // ---------------------------------------------------------------------- paths and names

  function EscapePointer(token: bytes): bytes {
    if token == [] then []
    else (if token[0] == TILDE then [TILDE, 48] else if token[0] == SLASH then [TILDE, 49] else [token[0]])
         + EscapePointer(token[1..])
  }

  function Itoa(n: nat): (r: bytes)
    ensures r != []
  {
    if n < 10 then [(48 + n) as byte] else Itoa(n / 10) + [(48 + n % 10) as byte]
  }

  function Segment(token: bytes): bytes {
    [SLASH] + EscapePointer(token)
  }

  /** The pointer segment of the next value of the innermost container. */
  function ChildSegment(stack: seq<Frame>): bytes {
    if stack == [] then [] else
    var top := stack[|stack| - 1];
    if top.isObject then Segment(top.key) else [SLASH] + Itoa(top.index)
  }

  function MemberName(stack: seq<Frame>): bytes {
    if stack == [] then [] else
    var top := stack[|stack| - 1];
    if top.isObject then top.key else Itoa(top.index)
  }

  function WithTop(stack: seq<Frame>, top: Frame): seq<Frame>
    requires stack != []
  {
    stack[..|stack| - 1] + [top]
  }

  /** The innermost container, moved past a value. */
  function Advance(stack: seq<Frame>): (r: seq<Frame>)
    ensures |r| == |stack|
  {
    if stack == [] then [] else
    var top := stack[|stack| - 1];
    WithTop(stack, if top.isObject then top.(hasKey := false) else top.(index := top.index + 1))
  }

  function Capture(stack: seq<Frame>, name: bytes, raw: bytes): (r: seq<Frame>)
    ensures |r| == |stack|
  {
    if stack == [] then [] else
    var top := stack[|stack| - 1];
    WithTop(stack, top.(scalars := top.scalars + [Named(name, raw)]))
  }

  function JoinSegs(stack: seq<Frame>): bytes {
    if stack == [] then [] else JoinSegs(stack[..|stack| - 1]) + stack[|stack| - 1].seg
  }

  function Flatten(stack: seq<Frame>): seq<Named> {
    if stack == [] then [] else Flatten(stack[..|stack| - 1]) + stack[|stack| - 1].scalars
  }

  predicate Skipped(c: byte) {
    c == 32 || c == 9 || c == 13 || c == 10 || c == 44 || c == 58
  }

  /** The literal, without the separators in front of it. */
  function ScalarRaw(slice: bytes): bytes {
    if slice != [] && Skipped(slice[0]) then ScalarRaw(slice[1..]) else slice
  }

  function RenderScalars(scalars: seq<Named>): bytes {
    if scalars == [] then [] else
    [SEPARATOR] + scalars[0].name + [EQUALS] + scalars[0].raw + RenderScalars(scalars[1..])
  }

  function JoinIdentity(path: bytes, scalars: seq<Named>, occurrence: nat): bytes {
    path + RenderScalars(scalars) + [SEPARATOR] + Itoa(occurrence)
  }

  /** What a leaf inherits: the scalars around it, and the object it is a member of. */
  datatype Place = Place(scalars: seq<Named>, member: bool, key: bytes)

  function PlaceIn(inherited: seq<Named>, stack: seq<Frame>): Place {
    if stack == [] then Place(inherited, false, []) else
    var top := stack[|stack| - 1];
    Place(inherited + Flatten(stack), top.isObject, if top.isObject then top.key else [])
  }

  /** The document a walk is in: where it hangs, and what it inherits. */
  datatype Doc = Doc(base: bytes, encoded: bool, depth: nat, enclosing: Chain, inherited: seq<Named>)

  // ------------------------------------------------------------------------- the walk itself

  function Emit(value: bytes, path: bytes, doc: Doc, tok: Chain, place: Place, occ: Counter): (seq<Found>, Counter) {
    var n := Count(occ, path);
    var identity := JoinIdentity(path, place.scalars, n);
    var leaf := Leaf(value, doc.encoded && doc.depth < MAX_ENCODED, identity, |identity| <= MAX_IDENTITY, tok);
    ([Found(path, place.member, place.key, n, leaf)], occ[path := n + 1])
  }

  /** appendLeaf: the leaves of the string, or of the document that it holds. */
  function LeavesOfString(
    lex: Lexer, value: bytes, path: bytes, doc: Doc, tok: Chain, place: Place, occ: Counter): (seq<Found>, Counter)
    requires doc.depth <= MAX_ENCODED
    decreases MAX_ENCODED - doc.depth, 0, 0
  {
    if doc.depth < MAX_ENCODED then
      var (inner, occ1) := WalkDocument(lex, value, Doc(path, true, doc.depth + 1, tok, place.scalars), occ);
      if inner.Some? && inner.value != [] then (inner.value, occ1)
      else Emit(value, path, doc, tok, place, occ1)
    else Emit(value, path, doc, tok, place, occ)
  }

  /** walkDocument: None is any of the sentinel errors. */
  function WalkDocument(lex: Lexer, data: bytes, doc: Doc, occ: Counter): (Option<seq<Found>>, Counter)
    requires doc.depth <= MAX_ENCODED
    decreases MAX_ENCODED - doc.depth, 2, 0
  {
    var lexed := lex(data);
    var (r, occ1) := WalkTokens(lex, lexed.tokens, [], [], doc, occ);
    match r
    case None => (None, occ1)
    case Some((out, rest)) => (if rest == [] && lexed.complete then Some(out) else None, occ1)
  }

  /** walkValue's loop: the leaves and the tokens behind the value, or None on an error. */
  function WalkTokens(lex: Lexer, tokens: seq<Token>, stack: seq<Frame>, out: seq<Found>, doc: Doc, occ: Counter)
    : (Option<(seq<Found>, seq<Token>)>, Counter)
    requires doc.depth <= MAX_ENCODED
    decreases MAX_ENCODED - doc.depth, 1, |tokens|
  {
    if tokens == [] then (None, occ) else
    var tok, rest := tokens[0], tokens[1..];
    if tok.Open? then
      if |stack| >= MAX_NESTING then (None, occ)
      else
        var frame := Frame(tok.isObject, [], false, 0, ChildSegment(stack), []);
        WalkTokens(lex, rest, Advance(stack) + [frame], out, doc, occ)
    else if tok.Close? then
      if stack == [] then (None, occ)
      else if |stack| == 1 then (Some((out, rest)), occ)
      else WalkTokens(lex, rest, stack[..|stack| - 1], out, doc, occ)
    else
      if stack == [] then
        if tok.Text? then
          var chain, place := Tok(tok.raw, tok.start, doc.enclosing), PlaceIn(doc.inherited, []);
          var (more, occ1) := LeavesOfString(lex, Decode(tok.raw), doc.base, doc, chain, place, occ);
          (Some((out + more, rest)), occ1)
        else (Some((out, rest)), occ)
      else
        var top := stack[|stack| - 1];
        if top.isObject && !top.hasKey then
          if tok.Text? then
            WalkTokens(lex, rest, WithTop(stack, top.(key := Decode(tok.raw), hasKey := true)), out, doc, occ)
          else (None, occ)
        else
          var after := Advance(stack);
          if tok.Text? then
            var chain, place := Tok(tok.raw, tok.start, doc.enclosing), PlaceIn(doc.inherited, after);
            var path := doc.base + JoinSegs(after) + ChildSegment(stack);
            var (more, occ1) := LeavesOfString(lex, Decode(tok.raw), path, doc, chain, place, occ);
            WalkTokens(lex, rest, after, out + more, doc, occ1)
          else WalkTokens(lex, rest, Capture(after, MemberName(stack), ScalarRaw(tok.slice)), out, doc, occ)
  }

  /** Walk: None is any of the sentinel errors. */
  function WalkAll(lex: Lexer, data: bytes): Option<seq<Found>> {
    if Utf8.Valid(data) then WalkDocument(lex, data, Doc([], false, 0, Root, []), map[]).0 else None
  }

  // --------------------------------------------------------------------- the code's own form

  method StripScalar(slice: bytes) returns (raw: bytes)
    ensures raw == ScalarRaw(slice)
  {
    raw := slice;
    while raw != [] && Skipped(raw[0])
      invariant ScalarRaw(raw) == ScalarRaw(slice)
      decreases |raw|
    {
      raw := raw[1..];
    }
  }

  /** joinSegs' and flattenScalars' loops, from the outermost container in. */
  method JoinLoop(stack: seq<Frame>) returns (segs: bytes, scalars: seq<Named>)
    ensures segs == JoinSegs(stack) && scalars == Flatten(stack)
  {
    segs, scalars := [], [];
    var i := 0;
    while i < |stack|
      invariant i <= |stack| && segs == JoinSegs(stack[..i]) && scalars == Flatten(stack[..i])
    {
      assert stack[..i + 1][..i] == stack[..i];
      segs, scalars := segs + stack[i].seg, scalars + stack[i].scalars;
      i := i + 1;
    }
    assert stack[..i] == stack;
  }

  method RenderIdentity(path: bytes, scalars: seq<Named>, occurrence: nat) returns (r: bytes)
    ensures r == JoinIdentity(path, scalars, occurrence)
  {
    r := path;
    var i := 0;
    assert scalars[0..] == scalars;
    while i < |scalars|
      invariant i <= |scalars| && r + RenderScalars(scalars[i..]) == path + RenderScalars(scalars)
    {
      assert scalars[i..][0] == scalars[i] && scalars[i..][1..] == scalars[i + 1..];
      var one := [SEPARATOR] + scalars[i].name + [EQUALS] + scalars[i].raw;
      Assoc(r, one, RenderScalars(scalars[i + 1..]));
      r := r + one;
      i := i + 1;
    }
    assert r + [] == r;
    r := r + [SEPARATOR] + Itoa(occurrence);
  }

  class Walker {
    const lex: Lexer
    var occurred: Counter

    constructor (lexer: Lexer)
      ensures lex == lexer && occurred == map[]
    {
      lex, occurred := lexer, map[];
    }

    /** The 0-based occurrence of a path. */
    method Next(path: bytes) returns (n: nat)
      modifies this
      ensures n == Count(old(occurred), path) && occurred == old(occurred)[path := n + 1]
    {
      n := if path in occurred then occurred[path] else 0;
      occurred := occurred[path := n + 1];
    }

    method AppendLeaf(value: bytes, path: bytes, doc: Doc, tok: Chain, place: Place) returns (more: seq<Found>)
      requires doc.depth <= MAX_ENCODED
      modifies this
      ensures (more, occurred) == LeavesOfString(lex, value, path, doc, tok, place, old(occurred))
      decreases MAX_ENCODED - doc.depth, 0, 0
    {
      hide JoinIdentity;
      if doc.depth < MAX_ENCODED {
        var inner := Document(value, Doc(path, true, doc.depth + 1, tok, place.scalars));
        if inner.Some? && inner.value != [] {
          return inner.value;
        }
      }
      var n := Next(path);
      var identity := RenderIdentity(path, place.scalars, n);
      var leaf := Leaf(value, doc.encoded && doc.depth < MAX_ENCODED, identity, |identity| <= MAX_IDENTITY, tok);
      return [Found(path, place.member, place.key, n, leaf)];
    }

    method Document(data: bytes, doc: Doc) returns (r: Option<seq<Found>>)
      requires doc.depth <= MAX_ENCODED
      modifies this
      ensures (r, occurred) == WalkDocument(lex, data, doc, old(occurred))
      decreases MAX_ENCODED - doc.depth, 2, 0
    {
      hide WalkTokens;
      var lexed := lex(data);
      var value := WalkValue(lexed.tokens, doc);
      match value
      case None => return None;
      case Some((out, rest)) =>
        if rest == [] && lexed.complete {
          return Some(out);
        }
        return None;
    }

    /** The explicit stack. */
    method WalkValue(tokens: seq<Token>, doc: Doc) returns (r: Option<(seq<Found>, seq<Token>)>)
      requires doc.depth <= MAX_ENCODED
      modifies this
      ensures (r, occurred) == WalkTokens(lex, tokens, [], [], doc, old(occurred))
      decreases MAX_ENCODED - doc.depth, 1, |tokens|
    {
      hide LeavesOfString, Decode, Advance, Capture, JoinSegs, Flatten, ChildSegment, MemberName, ScalarRaw;
      var stack: seq<Frame> := [];
      var out: seq<Found> := [];
      var i := 0;
      assert tokens[0..] == tokens;
      while i < |tokens|
        invariant i <= |tokens|
        invariant WalkTokens(lex, tokens[i..], stack, out, doc, occurred)
          == WalkTokens(lex, tokens, [], [], doc, old(occurred))
      {
        var tok := tokens[i];
        ghost var now := tokens[i..];
        assert now[0] == tok && now[1..] == tokens[i + 1..];
        i := i + 1;
        if tok.Open? {
          if |stack| >= MAX_NESTING {
            return None;
          }
          var seg := ChildSegment(stack);
          stack := Advance(stack) + [Frame(tok.isObject, [], false, 0, seg, [])];
          continue;
        }
        if tok.Close? {
          if stack == [] {
            return None;
          }
          stack := stack[..|stack| - 1];
          if stack == [] {
            return Some((out, tokens[i..]));
          }
          continue;
        }
        if stack == [] {
          if tok.Text? {
            var more := AppendLeaf(Decode(tok.raw), doc.base, doc, Tok(tok.raw, tok.start, doc.enclosing),
              PlaceIn(doc.inherited, []));
            out := out + more;
          }
          return Some((out, tokens[i..]));
        }
        var top := stack[|stack| - 1];
        if top.isObject && !top.hasKey {
          if !tok.Text? {
            return None;
          }
          stack := WithTop(stack, top.(key := Decode(tok.raw), hasKey := true));
          continue;
        }
        var seg, name := ChildSegment(stack), MemberName(stack);
        stack := Advance(stack);
        if tok.Text? {
          var segs, scalars := JoinLoop(stack);
          var more := AppendLeaf(Decode(tok.raw), doc.base + segs + seg, doc, Tok(tok.raw, tok.start, doc.enclosing),
            PlaceIn(doc.inherited, stack));
          out := out + more;
          continue;
        }
        var raw := StripScalar(tok.slice);
        stack := Capture(stack, name, raw);
      }
      assert tokens[i..] == [];
      return None;
    }
  }
}
