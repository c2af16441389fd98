/**
 The frozen placeholder grammar __PII_<type>_<digest>__ (pkg/redact/placeholder.go:22-41) and
 the matcher that recognises it in a stream (pkg/redact/sse_backfill.go:9-123).
 */
module Placeholder {
  import opened Bytes

  const US: byte := 95  // '_'

  /** __PII_ */
  const PREFIX: bytes := [95, 95, 80, 73, 73, 95]

  const PREFIX_LEN: nat := 6
  const MAX_TYPE: nat := 16
  const MIN_DIGEST: nat := 12
  const MAX_DIGEST: nat := 64
  const SUFFIX_LEN: nat := 2
  const MAX_LEN: nat := PREFIX_LEN + MAX_TYPE + 1 + MAX_DIGEST + SUFFIX_LEN

  predicate IsHex(c: byte) {
    48 <= c <= 57 || 97 <= c <= 102
  }

  predicate IsTypeChar(c: byte) {
    97 <= c <= 122 || 48 <= c <= 57 || c == US
  }

  predicate AllHex(s: bytes, from: int, to: int)
    requires 0 <= from && to <= |s|
  {
    forall k :: from <= k < to ==> IsHex(s[k])
  }

  predicate AllType(s: bytes, from: int, to: int)
    requires 0 <= from && to <= |s|
  {
    forall k :: from <= k < to ==> IsTypeChar(s[k])
  }

  // --------------------------------------------------------------------------- grammar

  /** `t` is a placeholder whose type has n bytes and whose digest has d. */
  ghost predicate Splits(t: bytes, n: nat, d: nat) {
    && 1 <= n <= MAX_TYPE && MIN_DIGEST <= d <= MAX_DIGEST
    && |t| == PREFIX_LEN + n + 1 + d + SUFFIX_LEN
    && t[..PREFIX_LEN] == PREFIX
    && AllType(t, PREFIX_LEN, PREFIX_LEN + n)
    && t[PREFIX_LEN + n] == US
    && AllHex(t, PREFIX_LEN + n + 1, |t| - SUFFIX_LEN)
    && t[|t| - 2] == US && t[|t| - 1] == US
  }

  ghost predicate IsToken(t: bytes) {
    exists n, d :: Splits(t, n, d)
  }

  /** Some placeholder starts with `p`. */
  ghost predicate Extendable(p: bytes) {
    exists q :: IsToken(p + q)
  }

  // --------------------------------------------------------------------------- matcher

  /** The end of the run of hex digits that starts at `from`. */
  function HexEnd(s: bytes, from: nat): (e: nat)
    requires from <= |s|
    ensures from <= e <= |s|
    ensures AllHex(s, from, e)
    ensures e < |s| ==> !IsHex(s[e])
    decreases |s| - from
  {
    if from < |s| && IsHex(s[from]) then HexEnd(s, from + 1) else from
  }

  /** The end of a complete placeholder with a type of t bytes, or 0. */
  function TokenEnd(p: bytes, t: nat): (end: nat)
    ensures end <= |p|
  {
    var sep := PREFIX_LEN + t;
    if sep >= |p| || p[sep] != US then 0 else
    var e := HexEnd(p, sep + 1);
    var d := e - (sep + 1);
    if MIN_DIGEST <= d <= MAX_DIGEST && e + 2 <= |p| && p[e] == US && p[e + 1] == US then e + 2
    else 0
  }

  /** The shortest end among type lengths from t on, or 0. */
  function BestEnd(p: bytes, t: nat): (end: nat)
    ensures end <= |p|
    ensures end == 0 <==> forall n: nat :: t <= n <= MAX_TYPE ==> TokenEnd(p, n) == 0
    ensures end > 0 ==> exists n: nat :: t <= n <= MAX_TYPE && TokenEnd(p, n) == end
    ensures forall n: nat :: t <= n <= MAX_TYPE && TokenEnd(p, n) > 0 ==> end <= TokenEnd(p, n)
    decreases MAX_TYPE + 1 - t
  {
    hide TokenEnd;
    if t > MAX_TYPE then 0 else
    var here, rest := TokenEnd(p, t), BestEnd(p, t + 1);
    if here == 0 || (rest > 0 && rest < here) then rest else here
  }

  /** The length of the complete placeholder at the start of p, or 0. */
  function TokenLen(p: bytes): (n: nat)
    ensures n <= |p|
  {
    if PREFIX <= p then BestEnd(p, 1) else 0
  }

  /** isPlaceholderPrefix's loop over type lengths, from t on. */
  predicate AcceptsFrom(s: bytes, t: nat)
    requires |s| > PREFIX_LEN
    decreases MAX_TYPE + 1 - t
  {
    if t > MAX_TYPE then false
    else if |s| - PREFIX_LEN <= t then AllType(s, PREFIX_LEN, |s|)
    else if s[PREFIX_LEN + t] != US then AcceptsFrom(s, t + 1)
    else
      var e := HexEnd(s, PREFIX_LEN + t + 1);
      var d := e - (PREFIX_LEN + t + 1);
      if e == |s| then d <= MAX_DIGEST
      else if s[e] != US || d < MIN_DIGEST || d > MAX_DIGEST then AcceptsFrom(s, t + 1)
      else (|s| - e == 1 || (|s| - e == 2 && s[e + 1] == US)) || AcceptsFrom(s, t + 1)
  }

  predicate IsPlaceholderPrefix(s: bytes) {
    if |s| <= PREFIX_LEN then s <= PREFIX else PREFIX <= s && AcceptsFrom(s, 1)
  }

  /** How far the heads of p stay placeholder prefixes, counted from k. */
  function PrefixFrom(p: bytes, k: nat): (n: nat)
    requires k <= |p|
    ensures k <= n <= |p|
    ensures forall j :: k < j <= n ==> IsPlaceholderPrefix(p[..j])
    ensures n < |p| ==> !IsPlaceholderPrefix(p[..n + 1])
    decreases |p| - k
  {
    if k < |p| && IsPlaceholderPrefix(p[..k + 1]) then PrefixFrom(p, k + 1) else k
  }

  function PrefixLen(p: bytes): (n: nat)
    ensures n <= |p|
  {
    PrefixFrom(p, 0)
  }

  // ------------------------------------------------------------ the matcher's own loops

  method ScanTokenLen(p: bytes) returns (best: nat)
    ensures best == TokenLen(p)
  {
    if !(PREFIX <= p) {
      return 0;
    }
    best := 0;
    for t := 1 to MAX_TYPE + 1
      invariant best <= |p|
      invariant best == 0 <==> forall n :: 1 <= n < t ==> TokenEnd(p, n) == 0
      invariant best > 0 ==> exists n :: 1 <= n < t && TokenEnd(p, n) == best
      invariant forall n :: 1 <= n < t && TokenEnd(p, n) > 0 ==> best <= TokenEnd(p, n)
    {
      var end := ScanSplit(p, t);
      if end > 0 && (best == 0 || end < best) {
        best := end;
      }
    }
  }

  /** The body of TokenLen's loop: one type length, every digest length. */
  method ScanSplit(p: bytes, t: nat) returns (r: nat)
    ensures r == TokenEnd(p, t)
  {
    var sep := PREFIX_LEN + t;
    if sep >= |p| || p[sep] != US {
      return 0;
    }
    var d := ScanHexRun(p, sep + 1);
    var l := MIN_DIGEST;
    while l <= d && l <= MAX_DIGEST
      invariant MIN_DIGEST <= l
      invariant MIN_DIGEST <= d < l && sep + 1 + d + 2 <= |p| ==>
                  !(p[sep + 1 + d] == US && p[sep + 1 + d + 1] == US)
    {
      var end := sep + 1 + l + SUFFIX_LEN;
      if end > |p| {
        return 0;
      }
      if p[sep + 1 + l] == US && p[sep + 1 + l + 1] == US {
        return end;
      }
      l := l + 1;
    }
    return 0;
  }

  method ScanHexRun(s: bytes, from: nat) returns (n: nat)
    requires from <= |s|
    ensures from + n == HexEnd(s, from)
  {
    n := 0;
    while from + n < |s| && IsHex(s[from + n])
      invariant from + n <= |s|
      invariant HexEnd(s, from + n) == HexEnd(s, from)
    {
      n := n + 1;
    }
  }

  method ScanPrefixLen(p: bytes) returns (k: nat)
    ensures k == PrefixLen(p)
  {
    k := 0;
    while k < |p|
      invariant k <= |p| && PrefixFrom(p, k) == PrefixLen(p)
    {
      var more := ScanIsPrefix(p[..k + 1]);
      if !more {
        return;
      }
      k := k + 1;
    }
  }

  method ScanIsPrefix(s: bytes) returns (yes: bool)
    ensures yes == IsPlaceholderPrefix(s)
  {
    if |s| <= PREFIX_LEN {
      return s <= PREFIX;
    }
    if !(PREFIX <= s) {
      return false;
    }
    for t := 1 to MAX_TYPE + 1
      invariant AcceptsFrom(s, t) == AcceptsFrom(s, 1)
    {
      if |s| - PREFIX_LEN <= t {
        return AllType(s, PREFIX_LEN, |s|);
      }
      if s[PREFIX_LEN + t] == US {
        var d := ScanHexRun(s, PREFIX_LEN + t + 1);
        var e := PREFIX_LEN + t + 1 + d;
        if e == |s| {
          return d <= MAX_DIGEST;
        }
        if s[e] == US && MIN_DIGEST <= d <= MAX_DIGEST {
          if |s| - e == 1 || (|s| - e == 2 && s[e + 1] == US) {
            return true;
          }
        }
      }
    }
    return false;
  }
}
