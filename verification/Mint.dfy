/**
 Minting placeholders and recording what they stand for (pkg/redact/placeholder.go:44-145,
 pkg/redact/backfill.go:34-57). The digest is any function: collisions are allowed.
 */
module Mint {
  import opened Bytes
  import opened Lens
  import opened Placeholder

  /** The digest of a sanitised kind and a secret under the engine's salt. */
  type DigestFn = (bytes, bytes) -> bytes

  const LADDER: seq<nat> := [MIN_DIGEST, 16, 24, 32, 48, MAX_DIGEST]

  const UNKNOWN: bytes := [117, 110, 107, 110, 111, 119, 110]

  const CLOSING: bytes := [US, US]

  function CleanByte(c: byte): byte {
    if 97 <= c <= 122 || 48 <= c <= 57 then c else US
  }

  function CleanBytes(kind: bytes): (r: bytes)
    ensures |r| == |kind| && AllType(r, 0, |r|)
  {
    if kind == [] then [] else [CleanByte(kind[0])] + CleanBytes(kind[1..])
  }

  function SanitizeKind(kind: bytes): (r: bytes)
    ensures 1 <= |r| <= MAX_TYPE && AllType(r, 0, |r|)
  {
    if kind == [] then UNKNOWN else CleanBytes(if |kind| > MAX_TYPE then kind[..MAX_TYPE] else kind)
  }

  lemma {:induction false} CleanSnoc(kind: bytes, c: byte)
    ensures CleanBytes(kind + [c]) == CleanBytes(kind) + [CleanByte(c)]
  {
    if kind == [] {
      assert [c][1..] == [] && [] + [c] == [c];
    } else {
      CleanSnoc(kind[1..], c);
      assert (kind + [c])[1..] == kind[1..] + [c];
    }
  }

  method Sanitize(kind: bytes) returns (out: bytes)
    ensures out == SanitizeKind(kind)
  {
    out := [];
    var i := 0;
    while i < |kind| && |out| < MAX_TYPE
      invariant i <= |kind| && i <= MAX_TYPE && out == CleanBytes(kind[..i])
    {
      CleanSnoc(kind[..i], kind[i]);
      assert kind[..i + 1] == kind[..i] + [kind[i]];
      out := out + [CleanByte(kind[i])];
      i := i + 1;
    }
    assert |kind| <= MAX_TYPE ==> kind[..i] == kind;
    if out == [] {
      return UNKNOWN;
    }
  }

  /** hex.EncodeToString. */
  function Hex(d: bytes): (r: bytes)
    ensures |r| == 2 * |d| && AllHex(r, 0, |r|)
  {
    if d == [] then [] else [Nibble(d[0] / 16), Nibble(d[0] % 16)] + Hex(d[1..])
  }

  /** The key of the forward map. */
  function Key(clean: bytes, secret: bytes): bytes {
    clean + [0] + secret
  }

  function Candidate(clean: bytes, digits: bytes): bytes {
    PREFIX + clean + [US] + digits + CLOSING
  }

  /** The first length of the ladder, from step i on, whose placeholder is free. */
  function Climb(forward: map<bytes, bytes>, clean: bytes, hex: bytes, i: nat): (r: Option<bytes>)
    requires i <= |LADDER|
    ensures r.Some? ==> r.value !in forward.Values
    decreases |LADDER| - i
  {
    if i == |LADDER| then None
    else if |hex| < LADDER[i]
      || Candidate(clean, hex[..LADDER[i]]) in forward.Values then Climb(forward, clean, hex, i + 1)
    else Some(Candidate(clean, hex[..LADDER[i]]))
  }

  /** The forward map after a call, and the placeholder, or None when the ladder is exhausted. */
  function PlaceholderFor(
    digest: DigestFn, forward: map<bytes, bytes>, secret: bytes, kind: bytes): (map<bytes, bytes>, Option<bytes>) {
    var clean := SanitizeKind(kind);
    var key := Key(clean, secret);
    if key in forward then (forward, Some(forward[key])) else
    match Climb(forward, clean, Hex(digest(clean, secret)), 0)
    case Some(p) => (forward[key := p], Some(p))
    case None => (forward, None)
  }

  /** The session's two maps. */
  datatype Maps = Maps(forward: map<bytes, bytes>, reverse: map<bytes, bytes>)

  /** Map: the empty placeholder is not recorded. */
  function Recorded(reverse: map<bytes, bytes>, placeholder: bytes, secret: bytes): map<bytes, bytes> {
    if placeholder == [] then reverse else reverse[placeholder := secret]
  }

  /** Mint: the placeholder, recorded with its secret. */
  function MintOne(digest: DigestFn, m: Maps, secret: bytes, kind: bytes): (Maps, Option<bytes>) {
    match PlaceholderFor(digest, m.forward, secret, kind)
    case (forward, Some(p)) => (Maps(forward, Recorded(m.reverse, p, secret)), Some(p))
    case (forward, None) => (Maps(forward, m.reverse), None)
  }

  class Engine {
    const digest: DigestFn
    var forward: map<bytes, bytes>

    constructor (fn: DigestFn)
      ensures digest == fn && forward == map[]
    {
      digest := fn;
      forward := map[];
    }

    method Taken(candidate: bytes) returns (yes: bool)
      ensures yes <==> candidate in forward.Values
    {
      var keys := forward.Keys;
      while keys != {}
        invariant keys <= forward.Keys
        invariant forall k :: k in forward.Keys - keys ==> forward[k] != candidate
        decreases |keys|
      {
        var k :| k in keys;
        if forward[k] == candidate {
          return true;
        }
        keys := keys - {k};
      }
      return false;
    }

    method MakePlaceholder(secret: bytes, kind: bytes) returns (p: Option<bytes>)
      modifies this
      ensures (forward, p) == PlaceholderFor(digest, old(forward), secret, kind)
    {
      var clean := Sanitize(kind);
      var key := clean + [0] + secret;
      if key in forward {
        return Some(forward[key]);
      }
      var hex := Hex(digest(clean, secret));
      var i := 0;
      while i < |LADDER|
        invariant i <= |LADDER| && forward == old(forward)
        invariant Climb(forward, clean, hex, i) == Climb(forward, clean, hex, 0)
      {
        var n := LADDER[i];
        if |hex| >= n {
          var candidate := PREFIX + clean + [US] + hex[..n] + CLOSING;
          var taken := Taken(candidate);
          if !taken {
            forward := forward[key := candidate];
            return Some(candidate);
          }
        }
        i := i + 1;
      }
      return None;
    }
  }

  class Backfiller {
    var reverse: map<bytes, bytes>
    var excluded: set<bytes>

    constructor ()
      ensures reverse == map[] && excluded == {}
    {
      reverse := map[];
      excluded := {};
    }

    method Map(placeholder: bytes, secret: bytes)
      modifies this`reverse
      ensures reverse == Recorded(old(reverse), placeholder, secret)
    {
      if placeholder == [] {
        return;
      }
      reverse := reverse[placeholder := secret];
    }

    method Mint(w: Engine, secret: bytes, kind: bytes) returns (p: Option<bytes>)
      modifies this`reverse, w
      ensures (Maps(w.forward, reverse), p) == MintOne(w.digest, Maps(old(w.forward), old(reverse)), secret, kind)
    {
      p := w.MakePlaceholder(secret, kind);
      if p.Some? {
        Map(p.value, secret);
      }
    }
  }
}
