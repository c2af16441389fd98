/**
 A stream of three events, of one string each: __PII_email_, 0123456789 and ab__. The law about
 fragments applies to it, and the secret stands in the third event.
 */
module SseThree {
  import opened Bytes
  import opened Sse
  import opened Placeholder
  import opened Reassembly
  import opened ReassemblyInv
  import opened SseRun
  import opened SseText
  import opened SsePlan
  import opened SseFragments
  import opened SseShared
  import RoundTripLaw
  import Walk
  import WalkTree

  const FIRST: bytes := TOKEN[..12]
  const SECOND: bytes := TOKEN[12..22]
  const THIRD: bytes := TOKEN[22..]

  const FRAGMENTS: seq<bytes> := [FIRST, SECOND, THIRD]

  function EnvelopeOf(v: bytes): Envelope {
    Envelope(SseShared.EventOf(v), [LeafOf(v)], 0)
  }

  function Envelopes(): seq<Envelope> {
    [EnvelopeOf(FIRST), EnvelopeOf(SECOND), EnvelopeOf(THIRD)]
  }

  /** A placeholder has at least 22 bytes. */
  lemma TokenLong(p: bytes)
    ensures TokenLen(p) == 0 || TokenLen(p) >= 22
  {
    if TokenLen(p) > 0 {
      var n :| 1 <= n <= MAX_TYPE && TokenEnd(p, n) == TokenLen(p);
    }
  }

  lemma ShortClear(v: bytes)
    requires |v| < 22
    ensures ClearBelow(v, |v|)
  {
    hide TokenLen;
    forall j {:trigger v[j..]} | 0 <= j < |v| ensures TokenLen(v[j..]) == 0 {
      TokenLong(v[j..]);
    }
  }

  lemma FragmentsAre()
    ensures |TOKEN| == 26 && IsToken(TOKEN) && TokenLen(TOKEN) == 26 && Concat(FRAGMENTS) == TOKEN
    ensures Verbatim(FIRST) && Verbatim(SECOND) && Verbatim(THIRD)
  {
    hide TokenLen, IsToken;
    SseShared.Tokens();
    PartsVerbatim();
    assert FRAGMENTS[1..] == [SECOND, THIRD] && [SECOND, THIRD][1..] == [THIRD];
    ConcatOne(THIRD);
    assert Concat([SECOND, THIRD]) == SECOND + THIRD;
    assert FIRST + (SECOND + THIRD) == TOKEN;
  }

  lemma PartsVerbatim()
    requires IsToken(TOKEN) && |TOKEN| == 26
    ensures Verbatim(FIRST) && Verbatim(SECOND) && Verbatim(THIRD)
  {
    hide IsToken;
    RoundTripLaw.TokenIsText(TOKEN);
    TokenVerbatim(TOKEN);
    assert forall c :: c in FIRST || c in SECOND || c in THIRD ==> c in TOKEN;
  }

  /** The key of the one channel. */
  const KEY: bytes := LeafOf([]).identity

  lemma EnvelopeIn(v: bytes)
    requires Verbatim(v)
    ensures InChannel(SESSION, EnvelopeOf(v), KEY)
  {
    hide Verbatim, WalkTree.WalkLeaves, Walk.JoinIdentity;
    OneLeaf(v);
    EventFacts(v);
    var e := EnvelopeOf(v);
    assert e.leaves[0].identity == KEY && e.leaves[0].identifiable;
  }

  lemma EnvelopeWeight(v: bytes)
    requires |v| < 22
    ensures |OwnContent(SESSION, EnvelopeOf(v))| + |EnvelopeOf(v).ev.raw| == 2 * |v| + 12
  {
    hide ContentWith, WalkTree.WalkLeaves;
    ShortClear(v);
    ClearContent(v);
    EventFacts(v);
  }

  lemma WeightOfTwo()
    ensures Weight(SESSION, Envelopes()[..2]) == 68
  {
    hide OwnContent, EnvelopeOf, TokenLen, IsToken;
    FragmentsAre();
    var es := Envelopes();
    EnvelopeWeight(FIRST);
    EnvelopeWeight(SECOND);
    WeightNext(SESSION, es, 0);
    WeightNext(SESSION, es, 1);
    NoWeight(SESSION, es);
  }

  lemma FirstOpens()
    ensures OpensAt(EnvelopeOf(FIRST), 0)
  {
    hide TokenLen, IsToken;
    FragmentsAre();
  }

  /** The law's hypotheses hold of the three events. */
  lemma ThreeCut()
    ensures CutOver(SESSION, Envelopes(), KEY, FRAGMENTS, [], [])
    ensures Undisturbed(Envelopes(), FRAGMENTS, [])
    ensures Restorable(SESSION, LeafOf(FIRST), TOKEN)
  {
    hide OwnContent, TokenLen, IsToken, InChannel, OpensAt, Weight, Concat, Verbatim, ScanEnds, TornDocument;
    FragmentsAre();
    EnvelopeIn(FIRST);
    EnvelopeIn(SECOND);
    EnvelopeIn(THIRD);
    FirstOpens();
    WeightOfTwo();
    ThreeTexts();
    assert FRAGMENTS[..2] == [FIRST, SECOND];
    ConcatPair(FIRST, SECOND);
    ShortClear(FIRST);
    ClearEnds(FIRST, 0, 0);
    ShortClear(THIRD);
    assert Restores(TOKEN) == [120];
  }

  lemma ThreeTexts()
    ensures forall i :: 0 <= i < 3 ==> Envelopes()[i].leaves[Envelopes()[i].at].value == LeafText(FRAGMENTS, [], [], i)
  {
    forall i | 0 <= i < 3
      ensures Envelopes()[i].leaves[Envelopes()[i].at].value == LeafText(FRAGMENTS, [], [], i)
    {
      assert [] + FRAGMENTS[i] + [] == FRAGMENTS[i];
    }
  }

  lemma NothingRestored()
    ensures Restored(SESSION, []) == []
  {
  }

  lemma ThreeFinal()
    ensures FinalTexts(3, [], [120] + []) == [[], [], [120]]
  {
    var x: bytes := [120];
    assert x + [] == x;
    var texts := FinalTexts(3, [], x);
    assert texts[0] == [] && texts[1] == [] && texts[2] == x;
  }

  /** Of the three documents the first two hold an empty string, and the third holds x. */
  lemma ThreeRestored()
    ensures AllOk(EventsOf(Envelopes())) && |History(SESSION, EventsOf(Envelopes()))| == 3
    ensures AllRead(SESSION, Envelopes(), History(SESSION, EventsOf(Envelopes())), [[], [], [120]])
  {
    hide Shape, WalkSound, Secretful, CutOver, Undisturbed, Restorable, AllRead, History, Envelopes, Restored, Concat;
    hide TokenLen, IsToken;
    SessionLawful();
    EmptyShape();
    ThreeCut();
    FragmentsAre();
    EnvelopesFirst();
    assert RunEvents(SESSION, EMPTY, []).st == EMPTY;
    FragmentsRestored(SESSION, [], Envelopes(), KEY, FRAGMENTS, [], []);
    NothingRestored();
    assert [] + EventsOf(Envelopes()) == EventsOf(Envelopes());
    var all := History(SESSION, EventsOf(Envelopes()));
    assert all[0..] == all && Restores(TOKEN) == [120];
    ThreeFinal();
  }

  lemma EnvelopesFirst()
    ensures |Envelopes()| == 3 && |Envelopes()[0].leaves| == 1 && Envelopes()[0].at == 0
    ensures Envelopes()[0].leaves[0] == LeafOf(FIRST)
  {
  }
}
