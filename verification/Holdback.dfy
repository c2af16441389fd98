/**
 The bounded hold-back rewriter (pkg/protocol/backfill.go): it replaces tokens in a stream
 while it keeps back only the bytes that may still become one.
 */
module Holdback {
  import opened Bytes

  /** Recognises tokens at the start of a text. */
  datatype Matcher = Matcher(prefixLen: bytes -> nat, tokenLen: bytes -> nat, maxTokenLen: nat)

  /** Maps a complete token to its replacement, or None to forward it. */
  type Rewrite = bytes -> Option<bytes>

  const HOLDBACK_BYTES: nat := 256 * 1024

  function Limit(m: Matcher): nat {
    if 0 < m.maxTokenLen < HOLDBACK_BYTES then m.maxTokenLen else HOLDBACK_BYTES
  }

  function Replacement(f: Rewrite, token: bytes): bytes {
    f(token).GetOr(token)
  }

  /** The length of the complete token at the start of p, when it lies within p. */
  function Match(m: Matcher, p: bytes): (n: nat)
    ensures n <= |p|
  {
    if m.tokenLen(p) <= |p| then m.tokenLen(p) else 0
  }

  /** Some token may still start here: nothing about p is decided. */
  predicate Open(m: Matcher, p: bytes) {
    Match(m, p) == 0 && m.prefixLen(p) >= |p|
  }

  /** What leaves a held text, and the undecided tail. */
  function Settle(m: Matcher, f: Rewrite, held: bytes): (r: (bytes, bytes))
    ensures |r.1| <= |held|
  {
    if held == [] then ([], []) else
    var n := Match(m, held);
    if n > 0 then
      var (out, tail) := Settle(m, f, held[n..]);
      (Replacement(f, held[..n]) + out, tail)
    else if Open(m, held) then ([], held)
    else
      var (out, tail) := Settle(m, f, held[1..]);
      ([held[0]] + out, tail)
  }

  lemma SettleUnfold(m: Matcher, f: Rewrite, p: bytes)
    ensures
      var (out, tail) := Settle(m, f, p);
      if p == [] || (Match(m, p) == 0 && Open(m, p)) then (out, tail) == ([], p)
      else if Match(m, p) > 0 then
        var n := Match(m, p);
        && out == Replacement(f, p[..n]) + Settle(m, f, p[n..]).0
        && tail == Settle(m, f, p[n..]).1
      else
        out == [p[0]] + Settle(m, f, p[1..]).0 && tail == Settle(m, f, p[1..]).1
  {
  }

  /** Settle, then give up the oldest bytes of a tail over the limit. */
  function Release(m: Matcher, f: Rewrite, held: bytes): (r: (bytes, bytes))
    ensures |r.1| <= Limit(m)
  {
    var (out, tail) := Settle(m, f, held);
    if |tail| > Limit(m) then
      (out + tail[..|tail| - Limit(m)], tail[|tail| - Limit(m)..])
    else (out, tail)
  }

  class BackfillWriter {
    const matcher: Matcher
    var held: bytes

    constructor (m: Matcher)
      ensures matcher == m && held == []
    {
      matcher := m;
      held := [];
    }

    /** Feed; `replace` is the writer's ReplaceFunc as it stands at this call. */
    method Feed(p: bytes, replace: Rewrite) returns (out: bytes)
      modifies this
      ensures (out, held) == Release(matcher, replace, old(held) + p)
    {
      held := held + p;
      out := ReleaseHeld(replace);
    }

    method Flush() returns (out: bytes)
      modifies this
      ensures out == old(held) && held == []
    {
      out := held;
      held := [];
    }

    method ReleaseHeld(replace: Rewrite) returns (out: bytes)
      modifies this
      ensures (out, held) == Release(matcher, replace, old(held))
    {
      out := [];
      var i := 0;
      hide Settle;
      ghost var goal := Settle(matcher, replace, held);
      assert held[0..] == held && [] + goal.0 == goal.0;
      while i < |held|
        invariant i <= |held| && held == old(held)
        invariant goal.0 == out + Settle(matcher, replace, held[i..]).0
        invariant goal.1 == Settle(matcher, replace, held[i..]).1
      {
        ghost var rest := held[i..];
        SettleUnfold(matcher, replace, rest);
        var n := matcher.tokenLen(held[i..]);
        if n > 0 && n <= |held| - i {
          assert held[i..i + n] == rest[..n] && held[i + n..] == rest[n..];
          Assoc(out, Replacement(replace, rest[..n]), Settle(matcher, replace, rest[n..]).0);
          out := out + Replacement(replace, held[i..i + n]);
          i := i + n;
          continue;
        }
        if matcher.prefixLen(held[i..]) >= |held| - i {
          break;
        }
        assert held[i + 1..] == rest[1..];
        Assoc(out, [rest[0]], Settle(matcher, replace, rest[1..]).0);
        out := out + [held[i]];
        i := i + 1;
      }
      var tail := held[i..];
      SettleUnfold(matcher, replace, tail);
      assert out + [] == out;
      var limit := Limit(matcher);
      if |tail| > limit {
        var drop := |tail| - limit;
        out := out + tail[..drop];
        tail := tail[drop..];
      }
      held := tail;
    }
  }

  // ------------------------------------------------------------------ the batch rewrite

  /** The leftmost rewrite of a whole text. */
  function Batch(m: Matcher, f: Rewrite, s: bytes): bytes {
    if s == [] then [] else
    var n := Match(m, s);
    if n > 0 then Replacement(f, s[..n]) + Batch(m, f, s[n..])
    else [s[0]] + Batch(m, f, s[1..])
  }

  lemma BatchUnfold(m: Matcher, f: Rewrite, s: bytes)
    requires s != []
    ensures
      var n := Match(m, s);
      Batch(m, f, s) ==
      if n > 0 then Replacement(f, s[..n]) + Batch(m, f, s[n..]) else [s[0]] + Batch(m, f, s[1..])
  {
  }

  /** Feeding chunks in order: the bytes that left, and the bytes still held. */
  function Run(m: Matcher, f: Rewrite, held: bytes, chunks: seq<bytes>): (bytes, bytes)
    decreases |chunks|
  {
    if chunks == [] then ([], held) else
    var (out, held1) := Release(m, f, held + chunks[0]);
    var (more, held2) := Run(m, f, held1, chunks[1..]);
    (out + more, held2)
  }

  /** Everything a stream emits, Flush included. */
  function Stream(m: Matcher, f: Rewrite, chunks: seq<bytes>): bytes {
    Run(m, f, [], chunks).0 + Run(m, f, [], chunks).1
  }

  ghost predicate NoMatchInside(m: Matcher, p: bytes) {
    forall i :: 0 <= i < |p| ==> Match(m, p[i..]) == 0
  }

  /** What a head of s decides about the token at its start, s decides the same way. */
  ghost predicate HeadAgrees(m: Matcher, s: bytes, head: bytes) {
    && (Match(m, head) > 0 ==> Match(m, s) == Match(m, head))
    && (Match(m, head) == 0 && !Open(m, head) ==> Match(m, s) == 0)
    && (Open(m, head) ==> |head| <= Limit(m) && NoMatchInside(m, head))
  }

  /** The matcher's laws at every position the batch rewrite visits. */
  ghost predicate Fits(m: Matcher, s: bytes)
    decreases |s|
  {
    s == [] ||
    ((forall j :: 0 < j <= |s| ==> HeadAgrees(m, s, s[..j]))
     && Fits(m, s[if Match(m, s) > 0 then Match(m, s) else 1..]))
  }

  lemma {:induction false} BatchOfNoMatch(m: Matcher, f: Rewrite, p: bytes)
    requires NoMatchInside(m, p)
    ensures Batch(m, f, p) == p
  {
    if p != [] {
      assert p[0..] == p;
      forall i | 0 <= i < |p[1..]| ensures Match(m, p[1..][i..]) == 0 {
        assert p[1..][i..] == p[i + 1..];
      }
      BatchOfNoMatch(m, f, p[1..]);
    }
  }

  /** Settling the text at hand takes the batch rewrite exactly as far. */
  lemma {:induction false} SettleIsBatch(m: Matcher, f: Rewrite, held: bytes, rest: bytes)
    requires Fits(m, held + rest)
    ensures
      var (out, tail) := Settle(m, f, held);
      && Batch(m, f, held + rest) == out + Batch(m, f, tail + rest)
      && Fits(m, tail + rest)
      && (tail == [] || Open(m, tail))
      && |tail| <= Limit(m)
    decreases |held|
  {
    var s := held + rest;
    if held == [] {
      assert [] + Batch(m, f, s) == Batch(m, f, s);
    } else {
      assert s[..|held|] == held && HeadAgrees(m, s, s[..|held|]);
      var n := Match(m, held);
      if n == 0 && Open(m, held) {
        assert [] + Batch(m, f, s) == Batch(m, f, s);
      } else {
        var k := if n > 0 then n else 1;
        var first := if n > 0 then Replacement(f, held[..n]) else [held[0]];
        assert s[k..] == held[k..] + rest && s[..k] == held[..k];
        SettleIsBatch(m, f, held[k..], rest);
        var (out, tail) := Settle(m, f, held[k..]);
        Assoc(first, out, Batch(m, f, tail + rest));
      }
    }
  }

  lemma {:induction false} RunIsBatch(m: Matcher, f: Rewrite, held: bytes, chunks: seq<bytes>)
    requires Fits(m, held + Concat(chunks))
    requires held == [] || Open(m, held)
    ensures
      var (out, tail) := Run(m, f, held, chunks);
      out + tail == Batch(m, f, held + Concat(chunks))
    decreases |chunks|
  {
    if chunks == [] {
      assert held + Concat(chunks) == held;
      if held != [] {
        assert held[..|held|] == held && HeadAgrees(m, held, held[..|held|]);
        BatchOfNoMatch(m, f, held);
      }
    } else {
      Assoc(held, chunks[0], Concat(chunks[1..]));
      SettleIsBatch(m, f, held + chunks[0], Concat(chunks[1..]));
      var (out, tail) := Settle(m, f, held + chunks[0]);
      RunIsBatch(m, f, tail, chunks[1..]);
      var (more, last) := Run(m, f, tail, chunks[1..]);
      Assoc(out, more, last);
    }
  }

  /** Streaming refines batch: with a lawful matcher no chunking changes the rewrite. */
  lemma StreamIsBatch(m: Matcher, f: Rewrite, chunks: seq<bytes>)
    requires Fits(m, Concat(chunks))
    ensures Stream(m, f, chunks) == Batch(m, f, Concat(chunks))
  {
    assert [] + Concat(chunks) == Concat(chunks);
    RunIsBatch(m, f, [], chunks);
  }
}
