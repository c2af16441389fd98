/**
 A secret that the reassembler loses. Two events carry a placeholder each, which share their
 underscores; the walk is this model's own, over documents of one string.
 */
module SseShared {
  import opened Bytes
  import opened Sse
  import opened Lens
  import opened LensPut
  import opened Apply
  import opened Splice
  import opened TreeAssign
  import opened Placeholder
  import opened PlaceholderLaws
  import opened MintLaws
  import opened Reassembly
  import opened ReassemblyInv
  import opened SseRun
  import opened SseText
  import opened SseCarry
  import opened SsePlan
  import opened SseSplit
  import opened WalkTree
  import opened WalkEncoded
  import opened WalkEdit
  import Mint
  import SseLaws
  import RoundTripLaw
  import Tree
  import Walk
  import WalkLaws
  import WalkPaths
  import Utf8

  const EMAIL: bytes := [101, 109, 97, 105, 108]
  const DIGITS: bytes := [48, 49, 50, 51, 52, 53, 54, 55, 56, 57, 97, 98]
  const OTHER_DIGITS: bytes := [97, 98, 97, 98, 97, 98, 97, 98, 97, 98, 97, 98]

  /** __PII_email_0123456789ab__ and __PII_email_abababababab__ */
  const TOKEN: bytes := Mint.Candidate(EMAIL, DIGITS)
  const OTHER: bytes := Mint.Candidate(EMAIL, OTHER_DIGITS)

  /** The first without its underscores. */
  const PIECE: bytes := TOKEN[..24]

  /** The session restores them to x and to y. */
  function Restores(token: bytes): bytes {
    if token == TOKEN then [120] else if token == OTHER then [121] else token
  }

  const SESSION: Env := Env(v => WalkLeaves(StringLexer, v).Some?, v => WalkLeaves(StringLexer, v), Restores)

  /** data: "v" and an empty line */
  const FIELD: bytes := [100, 97, 116, 97, 58, 32]

  function EventOf(v: bytes): Event {
    var value := Tree.Quoted(v);
    Event([], value, [], false, [], FIELD + value + [10, 10], [Span(|FIELD|, |FIELD| + |value|)])
  }

  /** The one leaf of such an event. */
  function LeafOf(v: bytes): Leaf {
    Leaf(v, false, Walk.JoinIdentity([], [], 0), true, Tok(v, 0, Root))
  }

  // ---------------------------------------------------------------------------- the session

  lemma SessionLawful()
    ensures WalkSound(SESSION) && Secretful(SESSION)
  {
    hide Walked, Faithful, Stable;
    StringLexerLaws();
    WalkMeetsLaws(SESSION, StringLexer);
    AsciiValid([120]);
    AsciiValid([121]);
  }

  /** ASCII text that JSON spells as itself. */
  ghost predicate Verbatim(v: bytes) {
    (forall i :: 0 <= i < |v| ==> v[i] < 0x80) && forall c :: c in v ==> !NeedsEscape(c)
  }

  /** Such a text reads as one string, and not as a document. */
  lemma OneLeaf(v: bytes)
    requires Verbatim(v)
    ensures SESSION.walk(Tree.Quoted(v)) == Some([LeafOf(v)])
    ensures Interior(v) && Decode(v) == v && Utf8.Valid(v)
  {
    hide Interior, Decode, Utf8.Valid, Walk.JoinIdentity, WalkLaws.ValueLeaves;
    AsciiValid(v);
    EscapePlain(v);
    EscapeDecodes(v);
    LexedQuoted(v);
    QuotedText(v);
    var doc := Walk.Doc([], false, 0, Root, []);
    var value := WalkLaws.Str(v, 0);
    WalkLaws.DocumentWalk(StringLexer, value, Tree.Quoted(v), doc, map[]);
    NotQuoted(v);
    WalkPaths.PlainString(StringLexer, v, 0, [], Walk.Place([], false, []), map[]);
    OneFound(v);
  }

  lemma NotQuoted(v: bytes)
    requires Verbatim(v)
    ensures WalkPaths.NoDocument(StringLexer, v)
  {
    assert v != [] ==> v[0] in v;
  }

  lemma TokenVerbatim(v: bytes)
    requires RoundTripLaw.TokenText(v)
    ensures Verbatim(v)
  {
  }

  lemma QuotedText(v: bytes)
    requires Utf8.Valid(v)
    ensures Utf8.Valid(Tree.Quoted(v))
  {
    hide Utf8.Valid;
    AsciiValid([QUOTE]);
    Utf8.ValidAppend(v, [QUOTE]);
    Utf8.ValidAppend([QUOTE], v + [QUOTE]);
  }

  lemma OneFound(v: bytes)
    ensures
      var doc := Walk.Doc([], false, 0, Root, []);
      var out := Walk.Emit(v, [], doc, Tok(v, 0, Root), Walk.Place([], false, []), map[]).0;
      LeavesIn(out) == [LeafOf(v)]
  {
    assert Walk.JoinIdentity([], [], 0) == [] + [] + [Walk.SEPARATOR] + Walk.Itoa(0);
  }

  // ------------------------------------------------------------------------ the placeholders

  lemma Tokens()
    ensures IsToken(TOKEN) && IsToken(OTHER) && TOKEN != OTHER && |TOKEN| == |OTHER| == 26
    ensures TokenLen(TOKEN) == 26 && TokenLen(OTHER) == 26 && TokenLen(PIECE + OTHER) == 26
    ensures TOKEN == PIECE + OTHER[..2] && PIECE + OTHER == TOKEN + OTHER[2..]
  {
    hide TokenLen, IsToken;
    CandidateSplits(EMAIL, DIGITS);
    CandidateSplits(EMAIL, OTHER_DIGITS);
    ShortKinds(EMAIL);
    MintedMatch(EMAIL, DIGITS);
    MintedMatch(EMAIL, OTHER_DIGITS);
    assert TOKEN + [] == TOKEN && OTHER + [] == OTHER;
    assert TOKEN[12..24] == DIGITS && OTHER[12..24] == OTHER_DIGITS;
    assert TOKEN[24..] == OTHER[..2] && TOKEN == TOKEN[..24] + TOKEN[24..] && OTHER == OTHER[..2] + OTHER[2..];
    Assoc(PIECE, OTHER[..2], OTHER[2..]);
    assert TokenLen(Mint.Candidate(EMAIL, DIGITS) + OTHER[2..]) == 26;
  }

  /** Nothing completes in the piece, and all of it is an unresolved prefix. */
  lemma PieceOpen()
    ensures ClearBelow(PIECE, |PIECE|) && SmallestPrefixAt(PIECE, 0) == Some(0) && RoundTripLaw.TokenText(PIECE)
  {
    hide TokenLen, IsToken, Extendable, IsPlaceholderPrefix, HeadShape;
    Tokens();
    assert PIECE + OTHER[..2] == TOKEN;
    assert Extendable(PIECE) by { PieceExtends(); }
    forall j {:trigger PIECE[j..]} | 0 <= j < |PIECE| ensures TokenLen(PIECE[j..]) == 0 {
      if j > 0 {
        NoInnerToken(PIECE, j);
      } else {
        TokenLenAppend(PIECE, OTHER[..2]);
        assert PIECE[0..] == PIECE;
      }
    }
    ExtendableShape(PIECE);
    ShapeIsPrefix(PIECE);
    assert PIECE[0..] == PIECE;
    assert TokenLen(PIECE[0..]) == 0;
    PieceText();
  }

  lemma PieceExtends()
    requires IsToken(PIECE + OTHER[..2])
    ensures Extendable(PIECE)
  {
    hide IsToken;
  }

  lemma PieceText()
    requires IsToken(TOKEN)
    ensures RoundTripLaw.TokenText(PIECE)
  {
    hide IsToken;
    RoundTripLaw.TokenIsText(TOKEN);
    assert PREFIX <= PIECE;
  }

  // ------------------------------------------------------------------------- the first event

  /** The state behind an event whose leaf is carried as a whole. */
  function Holding(seg: Segment, content: bytes, l: Leaf): St {
    St([], [seg.(leaf := true, content := content)], l.value, l.identity, [Part(0, l, 0, |l.value|)],
       |seg.raw| + |content|)
  }

  lemma StartHolds(seg: Segment, content: bytes, l: Leaf)
    requires l.value != [] && seg.extra == []
    ensures StartCarry(EMPTY, seg, content, [], Tail(l, 0)) == Holding(seg, content, l)
    ensures Drain(Holding(seg, content, l)) == Step(Holding(seg, content, l), [])
  {
    var st := Holding(seg, content, l);
    assert l.value[0..] == l.value;
    assert st.parts[0] in st.parts && Referenced(st.parts, 0);
    assert st.segments[0..] == st.segments && st.segments[..0] == [];
  }

  function Carrying(): St {
    Holding(SegmentOf(EventOf(PIECE)), Tree.Quoted(PIECE), LeafOf(PIECE))
  }

  lemma EventFacts(v: bytes)
    ensures EventOk(EventOf(v)) && SseLaws.SpanOk(EventOf(v)) && SegmentOf(EventOf(v)).Ok()
            && SegmentOf(EventOf(v)).hasSpan
    ensures SegmentOf(EventOf(v)).Value() == Tree.Quoted(v)
    ensures |SegmentOf(EventOf(v)).raw| == |v| + 10 && SegmentOf(EventOf(v)).extra == []
  {
    var ev, value := EventOf(v), Tree.Quoted(v);
    assert ev.raw[|FIELD|..|FIELD| + |value|] == value;
  }

  lemma Usable(v: bytes)
    requires SESSION.walk(Tree.Quoted(v)) == Some([LeafOf(v)])
    ensures UsableLeaves(SESSION, Tree.Quoted(v)) == Some([LeafOf(v)])
  {
    hide WalkLeaves;
    assert LeafOf(v) in [LeafOf(v)];
  }

  /** A leaf in which nothing completes keeps its document. */
  lemma ClearContent(v: bytes)
    requires ClearBelow(v, |v|)
    ensures ContentWith(SESSION, Tree.Quoted(v), [LeafOf(v)], []) == Tree.Quoted(v)
  {
    hide TokenLen, ScanWins, Kept, Wins;
    var l, value := LeafOf(v), Tree.Quoted(v);
    ScanSkips(SESSION, v, 0, |v|);
    ScanIsEdits(SESSION, l, 0);
    assert ScanWins(SESSION, v, |v|) == [] by { NothingScanned(v); }
    assert WithinEdits(SESSION, [l]) == LeafScan(SESSION, l, 0) + WithinEdits(SESSION, [l][1..]);
    assert WithinEdits(SESSION, [l]) == [];
    NothingApplied(value);
  }

  lemma NothingScanned(v: bytes)
    ensures ScanWins(SESSION, v, |v|) == []
  {
  }

  lemma NothingApplied(value: bytes)
    ensures Applied(value, []) == value
  {
    assert Kept(value, []) == [] && Wins([]) == [];
    assert Splices(value, [], 0) == value[0..];
  }

  lemma PieceTail()
    ensures
      var t := Tail(LeafOf(PIECE), 0);
      TrailingPrefix([LeafOf(PIECE)]) == Some(t) && t.Ok() && t.Text() == PIECE
  {
    hide SmallestPrefixAt, Walk.JoinIdentity, TokenLen;
    PieceOpen();
    Tokens();
    var l := LeafOf(PIECE);
    var t := Tail(l, 0);
    assert l.value == PIECE && l.identifiable && PIECE[0..] == PIECE;
    assert [l][1..] == [];
    assert TrailingFrom([], Some(t)) == Some(t);
    assert TrailingFrom([l], None) == TrailingFrom([], Some(t));
  }

  lemma PieceFits()
    ensures FitsBudget(EMPTY, |SegmentOf(EventOf(PIECE)).raw| + |Tree.Quoted(PIECE)| + |PIECE|)
  {
    hide TokenLen, IsToken;
    Tokens();
    EventFacts(PIECE);
  }

  lemma FreshHolds()
    ensures SegmentOf(EventOf(PIECE)).Ok()
    ensures AcceptFresh(SESSION, EMPTY, SegmentOf(EventOf(PIECE)), [LeafOf(PIECE)]) == Step(Carrying(), [])
  {
    hide ContentWith, TrailingPrefix, FitsBudget, StartCarry, Drain, SegmentOf, Holding, EventOf, Walk.JoinIdentity;
    EventFacts(PIECE);
    PieceOpen();
    ClearContent(PIECE);
    PieceTail();
    PieceFits();
    StartHolds(SegmentOf(EventOf(PIECE)), Tree.Quoted(PIECE), LeafOf(PIECE));
    assert EMPTY.segments[0..] == [] && EMPTY.segments[..0] == [];
    assert ReleaseSegs(EMPTY, 0) == Step(EMPTY, []);
  }

  lemma FirstAccepted()
    ensures PartsOk(EMPTY) && EventOk(EventOf(PIECE))
    ensures Accept(SESSION, EMPTY, EventOf(PIECE)) == Step(Carrying(), [])
  {
    hide AcceptFresh, WalkLeaves, Carrying;
    PieceOpen();
    TokenVerbatim(PIECE);
    OneLeaf(PIECE);
    EventFacts(PIECE);
    Usable(PIECE);
    FreshHolds();
    assert Handoff(EMPTY) == EMPTY;
  }

  // ------------------------------------------------------------------------ the second event

  lemma OneMatch(l: Leaf)
    requires l.identifiable
    ensures UniqueMatch([l], l.identity) == Some(l)
  {
    assert [l][1..] == [] && Matching([l], l.identity) == [l] + Matching([], l.identity);
  }

  lemma SecondCompletes()
    ensures Completes(SESSION, Carrying(), SegmentOf(EventOf(OTHER)), [LeafOf(OTHER)], LeafOf(OTHER))
  {
    hide WalkLeaves, TokenLen, Walk.JoinIdentity, IsToken, RoundTripLaw.TokenText, SegmentOf, EventOf, UniqueMatch;
    hide KeepPlaceholder;
    Tokens();
    RoundTripLaw.TokenIsText(OTHER);
    TokenVerbatim(OTHER);
    OneLeaf(OTHER);
    EventFacts(OTHER);
    OneMatch(LeafOf(OTHER));
    assert (PIECE + OTHER)[..26] == TOKEN;
    PieceNotTorn();
  }

  lemma PieceNotTorn()
    ensures !KeepPlaceholder(SESSION, LeafOf(PIECE), [120])
  {
    EscapePlain([120]);
  }

  lemma AcceptSecond(st: St)
    requires PartsOk(st) && st.held == [] && SESSION.walk(Tree.Quoted(OTHER)) == Some([LeafOf(OTHER)])
    ensures EventOk(EventOf(OTHER)) && SegmentOf(EventOf(OTHER)).Ok()
    ensures Accept(SESSION, st, EventOf(OTHER)) == AcceptLeaf(SESSION, st, SegmentOf(EventOf(OTHER)), [LeafOf(OTHER)])
  {
    hide AcceptLeaf, WalkLeaves;
    EventFacts(OTHER);
    Usable(OTHER);
  }

  /**
   Behind the second event the first document holds an empty string and the second one y: the
   secret x is nowhere, although its placeholder was complete.
   */
  lemma SecretLost()
    ensures AllOk([EventOf(PIECE), EventOf(OTHER)]) && SESSION.restore(PIECE + OTHER[..2]) == [120]
    ensures
      var released := History(SESSION, [EventOf(PIECE), EventOf(OTHER)]);
      && |released| == 2
      && Reads(Tree.Quoted(PIECE), [LeafOf(PIECE)], released[0].content, [[]])
      && Reads(Tree.Quoted(OTHER), [LeafOf(OTHER)], released[1].content, [[121]])
  {
    hide Accept, Shape, Carried, Completes, Queues, Reads, AcceptLeaf, TokenLen, IsToken, RoundTripLaw.TokenText;
    hide DeleteParts;
    hide WalkSound, Secretful, PieceGone, WalkLeaves, Closing;
    Tokens();
    SessionLawful();
    EmptyShape();
    EventFacts(PIECE);
    EventFacts(OTHER);
    FirstAccepted();
    RoundTripLaw.TokenIsText(OTHER);
    TokenVerbatim(OTHER);
    OneLeaf(OTHER);
    NoCarry(SESSION, EMPTY);
    AcceptCarried(SESSION, EMPTY, EventOf(PIECE));
    AcceptShape(SESSION, EMPTY, EventOf(PIECE));
    SecondCompletes();
    var st := Carrying();
    assert Shape(st) && Carried(SESSION, st);
    ShapeParts(st);
    AcceptSecond(st);
    AcceptShape(SESSION, st, EventOf(OTHER));
    var head, j := SharedUnderscores(SESSION, st, SegmentOf(EventOf(OTHER)), [LeafOf(OTHER)], LeafOf(OTHER), TOKEN);
    FirstEmptied(head);
    var content :|
      && Queues(st.(segments := DeleteParts(SESSION, st.segments, st.parts)),
                AcceptLeaf(SESSION, st, SegmentOf(EventOf(OTHER)), [LeafOf(OTHER)]), SegmentOf(EventOf(OTHER)), content)
      && j < 1 && Reads(Tree.Quoted(OTHER), [LeafOf(OTHER)], content,
                        RestoredTexts(SESSION, [LeafOf(OTHER)])[j := SESSION.restore(OTHER)]);
    assert RestoredTexts(SESSION, [LeafOf(OTHER)])[j := [121]] == [[121]];
    CompletesHeld(SESSION, st, SegmentOf(EventOf(OTHER)), [LeafOf(OTHER)], LeafOf(OTHER));
    TwoEvents(content);
  }

  /** Completing a placeholder leaves the writer alone. */
  lemma CompletesHeld(env: Env, st: St, seg: Segment, leaves: seq<Leaf>, m: Leaf)
    requires PartsOk(st) && Completes(env, st, seg, leaves, m)
    ensures AcceptLeaf(env, st, seg, leaves).st.held == st.held
  {
    hide TokenLen, ContentWith, TrailingAfter, KeepPlaceholder, DrainCount, FitsBudget, DeleteParts;
  }

  /** The deletion empties the first document's string. */
  lemma FirstEmptied(head: bytes)
    requires PartsOk(Carrying())
    requires
      var st := Carrying();
      PieceGone(SESSION, st, DeleteParts(SESSION, st.segments, st.parts), 0, head)
    ensures
      var st := Carrying();
      Reads(Tree.Quoted(PIECE), [LeafOf(PIECE)], DeleteParts(SESSION, st.segments, st.parts)[0].content, [[]])
  {
    hide DeleteParts, Reads, TokenLen, Secretful, WalkLeaves, Restored, CutText, FragmentGone, Walk.JoinIdentity;
    hide SegmentOf, EventOf;
    var st := Carrying();
    var seg, p := st.segments[0], st.parts[0];
    PieceOpen();
    TokenVerbatim(PIECE);
    OneLeaf(PIECE);
    EventFacts(PIECE);
    ClearCut(SESSION, seg, p);
    ClearKept(SESSION, PIECE);
    OneEmptied(SESSION, seg, DeleteParts(SESSION, st.segments, st.parts)[0], p, head);
  }

  /** A document of one leaf that is cut off as a whole. */
  lemma OneEmptied(env: Env, before: Segment, after: Segment, p: Part, head: bytes)
    requires before.Ok() && before.extra == [] && env.walk(before.Value()) == Some([p.leaf])
    requires Secretful(env) && Utf8.Valid(p.leaf.value) && p.start <= |p.leaf.value|
    requires CutText(env, before, p) == p.leaf.value == Restored(env, p.leaf.value)
    requires FragmentGone(env, before, after, p, head)
    ensures Reads(before.Value(), [p.leaf], after.content, [[]])
  {
    hide Reads, Secretful, Restored, CutText, TextsMade;
    var texts: seq<bytes>, j: nat :|
      && j < |texts| == 1 && texts[j] == head + CutText(env, before, p)
      && texts == RestoredTexts(env, [p.leaf])
      && Reads(before.Value(), [p.leaf], after.content, texts[j := head]);
    assert texts[0] == p.leaf.value && |head + p.leaf.value| == |p.leaf.value|;
    assert texts[j := head] == [[]];
  }

  /** What the two events release, all in all. */
  lemma TwoEvents(content: bytes)
    requires AllOk([EventOf(PIECE), EventOf(OTHER)]) && PartsOk(Carrying()) && Shape(Carrying())
    requires EventOk(EventOf(OTHER)) && EventOk(EventOf(PIECE)) && PartsOk(EMPTY)
    requires Accept(SESSION, EMPTY, EventOf(PIECE)) == Step(Carrying(), [])
    requires Shape(Accept(SESSION, Carrying(), EventOf(OTHER)).st)
             && Accept(SESSION, Carrying(), EventOf(OTHER)).st.held == []
    requires
      var st := Carrying();
      Queues(st.(segments := DeleteParts(SESSION, st.segments, st.parts)), Accept(SESSION, st, EventOf(OTHER)),
             SegmentOf(EventOf(OTHER)), content)
    ensures
      var released := History(SESSION, [EventOf(PIECE), EventOf(OTHER)]);
      && |released| == 2 && released[1].content == content
      && released[0] == DeleteParts(SESSION, Carrying().segments, Carrying().parts)[0]
  {
    hide Accept, Shape, DeleteParts, SegmentOf;
    var st, second := Carrying(), EventOf(OTHER);
    var events := [EventOf(PIECE), second];
    assert events[1..] == [second] && [second][1..] == [];
    var r := Accept(SESSION, st, second);
    var gone := DeleteParts(SESSION, st.segments, st.parts);
    EmptyShape();
    assert RunEvents(SESSION, r.st, []) == Step(r.st, []);
    assert RunEvents(SESSION, st, [second]) == r.Then(Step(r.st, []));
    assert RunEvents(SESSION, EMPTY, events) == Step(st, []).Then(RunEvents(SESSION, st, [second]));
    assert r.released + [] == r.released && [] + r.released == r.released;
    ClosingKeeps(r.st);
    assert History(SESSION, events) == r.released + Closing(r.st);
  }

  lemma ClosingKeeps(st: St)
    ensures st.held == [] ==> Closing(st) == st.segments
  {
    if st.held == [] && PendingFrom(st.segments, 0) < |st.segments| {
      var i := PendingFrom(st.segments, 0);
      assert st.segments[i].content + [] == st.segments[i].content;
    }
  }
}
