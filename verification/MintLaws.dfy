/**
 Over any sequence of mintings and for any digest: a placeholder stands for exactly one
 sanitised kind and secret, the reverse map is exactly the inverse of what was minted, and the
 matcher takes a minted placeholder whole, whatever follows it, unless its kind contains the
 end of a shorter one.
 */
module MintLaws {
  import opened Bytes
  import opened Placeholder
  import opened PlaceholderLaws
  import opened Mint
  import Lens

  /** A kind and secret, sanitised. */
  datatype Sanitised = Sanitised(clean: bytes, secret: bytes)

  predicate CleanKind(clean: bytes) {
    1 <= |clean| <= MAX_TYPE && AllType(clean, 0, |clean|)
  }

  /** A sanitised kind holds no zero byte, so the key spells the pair. */
  lemma KeyInjective(a: bytes, s: bytes, b: bytes, t: bytes)
    requires CleanKind(a) && CleanKind(b) && Key(a, s) == Key(b, t)
    ensures a == b && s == t
  {
    FirstZero(a, s);
    FirstZero(b, t);
    var x, y := Key(a, s), Key(b, t);
    assert x[..|a|] == a && y[..|b|] == b && x[|a| + 1..] == s && y[|b| + 1..] == t;
  }

  lemma FirstZero(a: bytes, s: bytes)
    requires CleanKind(a)
    ensures IndexFrom(Key(a, s), 0, 0) == |a|
  {
    var x := Key(a, s);
    assert x[|a|] == 0;
    assert forall i :: 0 <= i < |a| ==> x[i] == a[i];
  }

  /** What the forward map holds for a key. */
  ghost predicate Entry(digest: DigestFn, key: bytes, p: bytes) {
    exists clean, secret, n ::
      && CleanKind(clean) && key == Key(clean, secret)
      && n in LADDER && n <= |Hex(digest(clean, secret))|
      && p == Candidate(clean, Hex(digest(clean, secret))[..n])
  }

  ghost predicate Entries(digest: DigestFn, forward: map<bytes, bytes>) {
    forall key :: key in forward ==> Entry(digest, key, forward[key])
  }

  ghost predicate Injective(forward: map<bytes, bytes>) {
    forall k, l :: k in forward && l in forward && forward[k] == forward[l] ==> k == l
  }

  /** The reverse map is the inverse of the forward map. */
  ghost predicate InverseMaps(m: Maps) {
    && m.reverse.Keys == m.forward.Values
    && forall clean, secret :: CleanKind(clean) && Key(clean, secret) in m.forward ==>
         m.reverse[m.forward[Key(clean, secret)]] == secret
  }

  ghost predicate Minted(digest: DigestFn, m: Maps) {
    Entries(digest, m.forward) && Injective(m.forward) && InverseMaps(m)
  }

  lemma {:induction false} ClimbCandidate(forward: map<bytes, bytes>, clean: bytes, hex: bytes, i: nat)
    requires i <= |LADDER|
    ensures
      var r := Climb(forward, clean, hex, i);
      r.Some? ==> exists n :: n in LADDER && n <= |hex| && r.value == Candidate(clean, hex[..n])
    decreases |LADDER| - i
  {
    if i < |LADDER| {
      assert LADDER[i] in LADDER;
      ClimbCandidate(forward, clean, hex, i + 1);
    }
  }

  /** When the ladder is exhausted, every length the digest reaches is taken. */
  lemma {:induction false} Exhausted(forward: map<bytes, bytes>, clean: bytes, hex: bytes, i: nat)
    requires i <= |LADDER| && Climb(forward, clean, hex, i) == None
    ensures forall j :: i <= j < |LADDER| && LADDER[j] <= |hex| ==> Candidate(clean, hex[..LADDER[j]]) in forward.Values
    decreases |LADDER| - i
  {
    if i < |LADDER| {
      Exhausted(forward, clean, hex, i + 1);
    }
  }

  lemma PlaceholderKeeps(digest: DigestFn, forward: map<bytes, bytes>, secret: bytes, kind: bytes)
    requires Entries(digest, forward) && Injective(forward)
    ensures
      var (f, p) := PlaceholderFor(digest, forward, secret, kind);
      && Entries(digest, f) && Injective(f)
      && (forall k :: k in forward ==> k in f && f[k] == forward[k])
      && (p.Some? ==> Key(SanitizeKind(kind), secret) in f && f[Key(SanitizeKind(kind), secret)] == p.value)
      && f.Values == forward.Values + (if p.Some? then {p.value} else {})
      && (p.Some? ==> p.value in f.Values)
  {
    hide SanitizeKind, Entry, Climb, Key;
    var clean := SanitizeKind(kind);
    var key := Key(clean, secret);
    var r := Climb(forward, clean, Hex(digest(clean, secret)), 0);
    if key in forward {
      assert forward[key] in forward.Values;
      assert forward.Values + {forward[key]} == forward.Values;
    } else if r.Some? {
      NewEntry(digest, forward, secret, kind);
      ValuesAdd(forward, key, r.value);
      assert forall k :: k in forward ==> forward[k] in forward.Values;
    } else {
      assert forward.Values + {} == forward.Values;
    }
  }

  lemma NewEntry(digest: DigestFn, forward: map<bytes, bytes>, secret: bytes, kind: bytes)
    ensures
      var clean := SanitizeKind(kind);
      var r := Climb(forward, clean, Hex(digest(clean, secret)), 0);
      r.Some? ==> Entry(digest, Key(clean, secret), r.value)
  {
    hide Climb, Key, Candidate, SanitizeKind, Hex;
    var clean := SanitizeKind(kind);
    CleanOf(kind);
    ClimbCandidate(forward, clean, Hex(digest(clean, secret)), 0);
  }

  lemma ValuesAdd(m: map<bytes, bytes>, k: bytes, v: bytes)
    requires k !in m
    ensures m[k := v].Values == m.Values + {v}
  {
    var m' := m[k := v];
    forall x ensures x in m'.Values <==> x in m.Values + {v} {
      if x in m.Values {
        var j :| j in m && m[j] == x;
        assert m'[j] == x;
      }
      assert m'[k] == v;
    }
  }

  /** One minting keeps the inverse. */
  lemma MintKeeps(digest: DigestFn, m: Maps, secret: bytes, kind: bytes)
    requires Minted(digest, m)
    ensures
      var (m1, p) := MintOne(digest, m, secret, kind);
      var key := Key(SanitizeKind(kind), secret);
      && Minted(digest, m1)
      && (forall k :: k in m.forward ==> k in m1.forward && m1.forward[k] == m.forward[k])
      && (p.Some? ==> key in m1.forward && m1.forward[key] == p.value)
      && m1.reverse.Keys == m.reverse.Keys + (if p.Some? then {p.value} else {})
  {
    hide Entries, PlaceholderFor, SanitizeKind;
    PlaceholderKeeps(digest, m.forward, secret, kind);
    var (m1, p) := MintOne(digest, m, secret, kind);
    var clean := SanitizeKind(kind);
    if p.Some? {
      CleanOf(kind);
      EntryNotEmpty(digest, m1.forward, Key(clean, secret));
      assert m1.reverse.Keys == m1.forward.Values;
      assert forall k :: k in m1.forward ==> m1.forward[k] in m1.forward.Values;
      forall c, s | CleanKind(c) && Key(c, s) in m1.forward
        ensures m1.reverse[m1.forward[Key(c, s)]] == s
      {
        if m1.forward[Key(c, s)] == p.value {
          assert Key(c, s) == Key(clean, secret);
          KeyInjective(c, s, clean, secret);
        } else {
          OtherKey(digest, m, secret, kind, Key(c, s));
        }
      }
    }
  }

  lemma EntryNotEmpty(digest: DigestFn, forward: map<bytes, bytes>, key: bytes)
    requires Entries(digest, forward) && key in forward
    ensures forward[key] != []
  {
    assert Entry(digest, key, forward[key]);
  }

  lemma CleanOf(kind: bytes)
    ensures CleanKind(SanitizeKind(kind))
  {
  }

  lemma OtherKey(digest: DigestFn, m: Maps, secret: bytes, kind: bytes, key: bytes)
    requires
      var (f, p) := PlaceholderFor(digest, m.forward, secret, kind);
      key in f && p.Some? && f[key] != p.value
    ensures key in m.forward && m.forward[key] == PlaceholderFor(digest, m.forward, secret, kind).0[key]
  {
    hide Climb, SanitizeKind;
  }

  // -------------------------------------------------------------------------- whole sessions

  datatype Request = Request(secret: bytes, kind: bytes) {
    function Wanted(): Sanitised {
      Sanitised(SanitizeKind(kind), secret)
    }
  }

  function MintAll(digest: DigestFn, m: Maps, reqs: seq<Request>): (r: (Maps, seq<Option<bytes>>))
    ensures |r.1| == |reqs|
    decreases |reqs|
  {
    if reqs == [] then (m, []) else
    var (m1, p) := MintOne(digest, m, reqs[0].secret, reqs[0].kind);
    var (m2, rest) := MintAll(digest, m1, reqs[1..]);
    (m2, [p] + rest)
  }

  /** What a session has answered is in its maps. */
  ghost predicate Answered(m: Maps, reqs: seq<Request>, out: seq<Option<bytes>>)
    requires |reqs| == |out|
  {
    forall i :: 0 <= i < |reqs| && out[i].Some? ==>
      var key := Key(reqs[i].Wanted().clean, reqs[i].Wanted().secret);
      key in m.forward && m.forward[key] == out[i].value
  }

  function Given(out: seq<Option<bytes>>): set<bytes> {
    set i | 0 <= i < |out| && out[i].Some? :: out[i].value
  }

  lemma GivenCons(p: Option<bytes>, out: seq<Option<bytes>>)
    ensures Given([p] + out) == (if p.Some? then {p.value} else {}) + Given(out)
  {
    var all := [p] + out;
    forall x ensures x in Given(all) <==> x in (if p.Some? then {p.value} else {}) + Given(out) {
      if x in Given(out) {
        var i :| 0 <= i < |out| && out[i].Some? && out[i].value == x;
        assert all[i + 1] == out[i];
      }
      if p.Some? {
        assert all[0] == p;
      }
    }
  }

  lemma {:induction false} MintAllKeeps(digest: DigestFn, m: Maps, reqs: seq<Request>)
    requires Minted(digest, m)
    ensures
      var (m1, out) := MintAll(digest, m, reqs);
      && Minted(digest, m1) && Answered(m1, reqs, out)
      && (forall k :: k in m.forward ==> k in m1.forward && m1.forward[k] == m.forward[k])
      && m1.reverse.Keys == m.reverse.Keys + Given(out)
    decreases |reqs|
  {
    hide Minted, MintOne, SanitizeKind;
    if reqs != [] {
      MintKeeps(digest, m, reqs[0].secret, reqs[0].kind);
      var (m1, p) := MintOne(digest, m, reqs[0].secret, reqs[0].kind);
      MintAllKeeps(digest, m1, reqs[1..]);
      GivenCons(p, MintAll(digest, m1, reqs[1..]).1);
    }
  }

  /**
   A whole session from empty maps. Two answers are the same placeholder exactly when the
   requests are the same sanitised kind and secret; the reverse map holds exactly the
   placeholders answered, each with the secret it was asked for.
   */
  lemma SessionInjective(digest: DigestFn, reqs: seq<Request>)
    ensures
      var (m, out) := MintAll(digest, Maps(map[], map[]), reqs);
      && (forall i, j :: 0 <= i < |reqs| && 0 <= j < |reqs| && out[i].Some? && out[j].Some? ==>
            (out[i] == out[j] <==> reqs[i].Wanted() == reqs[j].Wanted()))
      && m.reverse.Keys == Given(out)
      && (forall i :: 0 <= i < |reqs| && out[i].Some? ==>
            out[i].value in m.reverse && m.reverse[out[i].value] == reqs[i].secret)
  {
    hide MintAll, SanitizeKind, Entries;
    var m0 := Maps(map[], map[]);
    assert Minted(digest, m0) by { NothingMinted(digest); }
    MintAllKeeps(digest, m0, reqs);
    var (m, out) := MintAll(digest, m0, reqs);
    forall i | 0 <= i < |reqs| ensures CleanKind(reqs[i].Wanted().clean) {
      CleanOf(reqs[i].kind);
    }
    forall i, j | 0 <= i < |reqs| && 0 <= j < |reqs| && out[i].Some? && out[j].Some? && out[i] == out[j]
      ensures reqs[i].Wanted() == reqs[j].Wanted()
    {
      var a, b := reqs[i].Wanted(), reqs[j].Wanted();
      KeyInjective(a.clean, a.secret, b.clean, b.secret);
    }
  }

  lemma NothingMinted(digest: DigestFn)
    ensures Minted(digest, Maps(map[], map[]))
  {
  }

  // ------------------------------------------------------------------- the minted grammar

  lemma CandidateSplits(clean: bytes, digits: bytes)
    requires CleanKind(clean) && AllHex(digits, 0, |digits|) && MIN_DIGEST <= |digits| <= MAX_DIGEST
    ensures Splits(Candidate(clean, digits), |clean|, |digits|) && IsToken(Candidate(clean, digits))
  {
    var p := Candidate(clean, digits);
    assert p[..PREFIX_LEN] == PREFIX;
    assert forall k :: 0 <= k < |clean| ==> p[PREFIX_LEN + k] == clean[k];
    assert forall k :: 0 <= k < |digits| ==> p[PREFIX_LEN + |clean| + 1 + k] == digits[k];
    SplitsIsToken(p, |clean|, |digits|);
  }

  lemma LadderRange(n: nat)
    requires n in LADDER
    ensures MIN_DIGEST <= n <= MAX_DIGEST
  {
  }

  /** Everything minted is a placeholder of the grammar. */
  lemma MintedIsToken(digest: DigestFn, forward: map<bytes, bytes>, key: bytes)
    requires Entries(digest, forward) && key in forward
    ensures IsToken(forward[key])
  {
    assert Entry(digest, key, forward[key]);
    var clean, secret, n :|
      && CleanKind(clean) && key == Key(clean, secret)
      && n in LADDER && n <= |Hex(digest(clean, secret))|
      && forward[key] == Candidate(clean, Hex(digest(clean, secret))[..n]);
    LadderRange(n);
    CandidateSplits(clean, Hex(digest(clean, secret))[..n]);
  }

  /** The kind, with the separator behind it, contains the digest and the end of a shorter token. */
  ghost predicate Embeds(clean: bytes) {
    exists n, d :: EmbedsAt(clean, n, d)
  }

  ghost predicate EmbedsAt(clean: bytes, n: nat, d: nat) {
    && 1 <= n && MIN_DIGEST <= d && n + d + 2 <= |clean|
    && clean[n] == US && AllHex(clean, n + 1, n + 1 + d) && clean[n + 1 + d] == US
    && (n + d + 2 < |clean| ==> clean[n + d + 2] == US)
  }

  lemma EmbedsShorter(clean: bytes, digits: bytes, more: bytes, n: nat, d: nat)
    requires CleanKind(clean) && AllHex(digits, 0, |digits|) && MIN_DIGEST <= |digits| <= MAX_DIGEST
    requires EmbedsAt(clean, n, d)
    ensures 0 < TokenLen(Candidate(clean, digits) + more) < |Candidate(clean, digits)|
  {
    hide TokenLen;
    var p := Candidate(clean, digits);
    var s := p + more;
    var t := s[..PREFIX_LEN + n + 1 + d + 2];
    assert forall k :: 0 <= k < |clean| ==> s[PREFIX_LEN + k] == clean[k];
    assert s[PREFIX_LEN + |clean|] == US;
    assert t[..PREFIX_LEN] == PREFIX;
    assert Splits(t, n, d);
    SplitsIsToken(t, n, d);
    TokenLenShortest(s, |t|);
  }

  /** A token that is a proper head of a minted placeholder ends inside its kind. */
  lemma ShorterEmbeds(clean: bytes, digits: bytes, t: bytes)
    requires CleanKind(clean) && AllHex(digits, 0, |digits|) && |digits| >= 1
    requires IsToken(t) && t < Candidate(clean, digits)
    ensures Embeds(clean)
  {
    hide Candidate;
    CandidateBytes(clean, digits);
    var p := Candidate(clean, digits);
    var n: nat, d: nat :| Splits(t, n, d);
    assert |t| == PREFIX_LEN + n + 1 + d + SUFFIX_LEN;
    assert forall k :: 0 <= k < |t| ==> t[k] == p[k];
    EndsInKind(clean, digits, |t| - 2);
    forall k | n + 1 <= k < n + 1 + d ensures IsHex(clean[k]) {
      assert t[PREFIX_LEN + k] == clean[k];
    }
    assert t[PREFIX_LEN + n] == clean[n] && t[PREFIX_LEN + n + 1 + d] == clean[n + 1 + d];
    assert EmbedsAt(clean, n, d);
  }

  /** The bytes of a minted placeholder, piece by piece. */
  lemma CandidateBytes(clean: bytes, digits: bytes)
    ensures
      var p, sep := Candidate(clean, digits), PREFIX_LEN + |clean|;
      && |p| == sep + 1 + |digits| + 2
      && (forall k :: 0 <= k < |clean| ==> p[PREFIX_LEN + k] == clean[k])
      && p[sep] == US
      && (forall k :: sep < k < sep + 1 + |digits| ==> p[k] == digits[k - sep - 1])
  {
  }

  /** Two underscores in a row, short of its own end, lie in the kind and the separator. */
  lemma EndsInKind(clean: bytes, digits: bytes, e: nat)
    requires AllHex(digits, 0, |digits|) && |digits| >= 1 && e + 2 < |Candidate(clean, digits)|
    requires Candidate(clean, digits)[e] == US && Candidate(clean, digits)[e + 1] == US
    ensures e + 1 <= PREFIX_LEN + |clean|
  {
    hide Candidate;
    CandidateBytes(clean, digits);
    assert !IsHex(US);
  }

  /**
   Exactly when the matcher takes a minted placeholder whole, whatever follows it: when its
   kind does not embed a shorter one.
   */
  lemma MintedMatch(clean: bytes, digits: bytes)
    requires CleanKind(clean) && AllHex(digits, 0, |digits|) && MIN_DIGEST <= |digits| <= MAX_DIGEST
    ensures !Embeds(clean) <==>
            forall more {:trigger Candidate(clean, digits) + more} ::
                TokenLen(Candidate(clean, digits) + more) == |Candidate(clean, digits)|
  {
    hide TokenLen, Candidate;
    var p := Candidate(clean, digits);
    CandidateSplits(clean, digits);
    if n, d :| EmbedsAt(clean, n, d) {
      EmbedsShorter(clean, digits, [], n, d);
      assert TokenLen(p + []) != |p|;
    } else {
      forall more ensures TokenLen(p + more) == |p| {
        assert (p + more)[..|p|] == p;
        TokenLenShortest(p + more, |p|);
        var t := (p + more)[..TokenLen(p + more)];
        assert t == p[..|t|];
        if |t| < |p| {
          ShorterEmbeds(clean, digits, t);
        }
      }
    }
  }

  /** Only kinds of 15 or 16 bytes can embed one; none of the frozen categories is that long. */
  lemma ShortKinds(clean: bytes)
    requires |clean| < 15
    ensures !Embeds(clean)
  {
  }

  // ------------------------------------------------------------------------ what is minted

  /** Small letters and digits stay, any other byte is an underscore; at most 16 bytes, and not none. */
  predicate Cleaned(kind: bytes, clean: bytes) {
    if kind == [] then clean == BytesOf("unknown")
    else
      && |clean| == (if |kind| < 16 then |kind| else 16)
      && forall i :: 0 <= i < |clean| ==>
           clean[i] == if 97 <= kind[i] <= 122 || 48 <= kind[i] <= 57 then kind[i] else 95
  }

  predicate SmallHex(c: byte, v: int) {
    (48 <= c <= 57 && v == c as int - 48) || (97 <= c <= 102 && v == c as int - 97 + 10)
  }

  predicate HexSpells(d: bytes, h: bytes) {
    && |h| == 2 * |d|
    && forall i :: 0 <= i < |d| ==> SmallHex(h[2 * i], d[i] as int / 16) && SmallHex(h[2 * i + 1], d[i] as int % 16)
  }

  function Spelling(clean: bytes, digits: bytes): bytes {
    BytesOf("__PII_") + clean + BytesOf("_") + digits + BytesOf("__")
  }

  lemma {:induction false} CleanBytesAre(kind: bytes)
    ensures forall i :: 0 <= i < |kind| ==>
              CleanBytes(kind)[i] == if 97 <= kind[i] <= 122 || 48 <= kind[i] <= 57 then kind[i] else 95
  {
    if kind != [] {
      CleanBytesAre(kind[1..]);
    }
  }

  lemma SanitizedIs(kind: bytes)
    ensures Cleaned(kind, SanitizeKind(kind))
  {
    if kind == [] {
      assert BytesOf("unknown") == UNKNOWN;
    } else {
      CleanBytesAre(if |kind| > 16 then kind[..16] else kind);
    }
  }

  lemma {:induction false} HexIs(d: bytes)
    ensures HexSpells(d, Hex(d))
  {
    if d != [] {
      HexIs(d[1..]);
      HexPair(d[0]);
      forall i | 0 <= i < |d|
        ensures SmallHex(Hex(d)[2 * i], d[i] as int / 16) && SmallHex(Hex(d)[2 * i + 1], d[i] as int % 16)
      {
        if i > 0 {
          assert d[i] == d[1..][i - 1];
          assert Hex(d)[2 * i] == Hex(d[1..])[2 * (i - 1)] && Hex(d)[2 * i + 1] == Hex(d[1..])[2 * (i - 1) + 1];
        }
      }
    }
  }

  lemma HexPair(c: byte)
    ensures SmallHex(Lens.Nibble(c / 16), c as int / 16) && SmallHex(Lens.Nibble(c % 16), c as int % 16)
  {
  }

  lemma SpellingIs(clean: bytes, digits: bytes)
    ensures Candidate(clean, digits) == Spelling(clean, digits)
  {
    assert BytesOf("__PII_") == PREFIX && BytesOf("_") == [US] && BytesOf("__") == Mint.CLOSING;
  }

  /** The lengths a digest may be cut to. */
  const LENGTHS: seq<nat> := [12, 16, 24, 32, 48, 64]

  /** The first length whose placeholder is free. */
  ghost predicate FirstFree(forward: map<bytes, bytes>, clean: bytes, hex: bytes, i: nat) {
    && i < |LENGTHS| && LENGTHS[i] <= |hex| && Spelling(clean, hex[..LENGTHS[i]]) !in forward.Values
    && forall j :: 0 <= j < i ==> LENGTHS[j] <= |hex| && Spelling(clean, hex[..LENGTHS[j]]) in forward.Values
  }

  ghost predicate AllTaken(forward: map<bytes, bytes>, clean: bytes, hex: bytes) {
    forall j :: 0 <= j < |LENGTHS| && LENGTHS[j] <= |hex| ==> Spelling(clean, hex[..LENGTHS[j]]) in forward.Values
  }

  lemma {:induction false} ClimbIs(forward: map<bytes, bytes>, clean: bytes, hex: bytes, i: nat) returns (k: nat)
    requires i <= |LADDER|
    requires forall j :: 0 <= j < i && LENGTHS[j] <= |hex| ==> Spelling(clean, hex[..LENGTHS[j]]) in forward.Values
    ensures
      match Climb(forward, clean, hex, i)
      case Some(p) => FirstFree(forward, clean, hex, k) && p == Spelling(clean, hex[..LENGTHS[k]])
      case None => AllTaken(forward, clean, hex)
    decreases |LADDER| - i
  {
    hide Spelling, Candidate;
    k := i;
    if i < |LADDER| {
      if LADDER[i] <= |hex| {
        SpellingIs(clean, hex[..LADDER[i]]);
      }
      if |hex| < LADDER[i] || Candidate(clean, hex[..LADDER[i]]) in forward.Values {
        k := ClimbIs(forward, clean, hex, i + 1);
      }
    }
  }

  /**
   A kind and secret that have no placeholder get the shortest free one that the digest gives, and
   none exactly when all of these are taken.
   */
  lemma AnswerSpelled(digest: DigestFn, forward: map<bytes, bytes>, secret: bytes, kind: bytes)
    returns (clean: bytes, hex: bytes, k: nat)
    ensures Cleaned(kind, clean) && HexSpells(digest(clean, secret), hex)
    ensures
      var (after, p) := PlaceholderFor(digest, forward, secret, kind);
      var key := clean + [0] + secret;
      if key in forward then p == Some(forward[key]) && after == forward
      else if p.Some? then
        FirstFree(forward, clean, hex, k) && p.value == Spelling(clean, hex[..LENGTHS[k]])
        && after == forward[key := p.value]
      else AllTaken(forward, clean, hex) && after == forward
  {
    hide Spelling, Candidate, Climb, SanitizeKind;
    clean := SanitizeKind(kind);
    hex := Hex(digest(clean, secret));
    SanitizedIs(kind);
    HexIs(digest(clean, secret));
    k := ClimbIs(forward, clean, hex, 0);
  }
}
