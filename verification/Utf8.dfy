/** UTF-8 (section 3 of RFC 3629), as far as the raw-span lens depends on it. */
module Utf8 {
  import opened Bytes

  predicate IsTail(b: byte) {
    0x80 <= b < 0xC0
  }

  /** The size of the valid rune at the start of s, or 0. */
  function RuneSize(s: bytes): (k: nat)
    ensures k <= |s| && k <= 4
    ensures k > 0 ==> !IsTail(s[0]) && forall i :: 0 < i < k ==> IsTail(s[i])
    ensures k == 1 <==> |s| > 0 && s[0] < 0x80
    ensures forall i :: 1 < k && 0 <= i < k ==> s[i] >= 0x80
  {
    if s == [] then 0
    else if s[0] < 0x80 then 1
    else if 0xC2 <= s[0] < 0xE0 then
      if |s| >= 2 && IsTail(s[1]) then 2 else 0
    else if 0xE0 <= s[0] < 0xF0 then
      if && |s| >= 3 && IsTail(s[1]) && IsTail(s[2])
         && (s[0] == 0xE0 ==> s[1] >= 0xA0) && (s[0] == 0xED ==> s[1] < 0xA0)
      then 3 else 0
    else if 0xF0 <= s[0] < 0xF5 then
      if && |s| >= 4 && IsTail(s[1]) && IsTail(s[2]) && IsTail(s[3])
         && (s[0] == 0xF0 ==> s[1] >= 0x90) && (s[0] == 0xF4 ==> s[1] < 0x90)
      then 4 else 0
    else 0
  }

  predicate Valid(s: bytes) {
    s == [] || (RuneSize(s) > 0 && Valid(s[RuneSize(s)..]))
  }

  /** s is exactly one rune. */
  predicate OneRune(s: bytes) {
    s != [] && RuneSize(s) == |s|
  }

  /** The encoding of a scalar value. */
  function Encode(r: int): (s: bytes)
    requires 0 <= r < 0x11_0000 && !(0xD800 <= r < 0xE000)
    ensures OneRune(s)
  {
    if r < 0x80 then [r as byte]
    else if r < 0x800 then [(0xC0 + r / 64) as byte, (0x80 + r % 64) as byte]
    else if r < 0x1_0000 then
      [(0xE0 + r / 4096) as byte, (0x80 + r / 64 % 64) as byte, (0x80 + r % 64) as byte]
    else
      [(0xF0 + r / 262144) as byte, (0x80 + r / 4096 % 64) as byte,
       (0x80 + r / 64 % 64) as byte, (0x80 + r % 64) as byte]
  }

  /** U+FFFD, what an unpaired surrogate decodes to. */
  const REPLACEMENT: bytes := [0xEF, 0xBF, 0xBD]

  /** An offset that does not fall inside a rune. */
  predicate Aligned(s: bytes, at: int) {
    0 <= at <= |s| && (at < |s| ==> !IsTail(s[at]))
  }

  lemma ValidStart(s: bytes)
    requires Valid(s)
    ensures Aligned(s, 0)
  {
  }

  lemma EndAligned(s: bytes)
    ensures Aligned(s, |s|)
  {
  }

  lemma RuneSizeLocal(s: bytes, t: bytes)
    requires RuneSize(s) > 0 && RuneSize(s) <= |t| && s[..RuneSize(s)] == t[..RuneSize(s)]
    ensures RuneSize(t) == RuneSize(s)
  {
    var k := RuneSize(s);
    assert forall i :: 0 <= i < k ==> s[i] == s[..k][i] && t[i] == t[..k][i];
  }

  lemma {:induction false} ValidAppend(a: bytes, b: bytes)
    requires Valid(a) && Valid(b)
    ensures Valid(a + b)
  {
    hide RuneSize;
    if a == [] {
      assert a + b == b;
    } else {
      var k := RuneSize(a);
      assert (a + b)[..k] == a[..k];
      RuneSizeLocal(a, a + b);
      ValidAppend(a[k..], b);
      assert (a + b)[k..] == a[k..] + b;
    }
  }

  lemma OneRuneValid(s: bytes)
    requires OneRune(s)
    ensures Valid(s)
  {
    assert s[|s|..] == [];
  }

  /** A valid text cut at aligned offsets is valid on both sides. */
  lemma {:induction false} ValidCut(s: bytes, at: nat)
    requires Valid(s) && Aligned(s, at)
    ensures Valid(s[..at]) && Valid(s[at..])
  {
    hide RuneSize, Valid;
    if at == 0 {
      assert s[0..] == s;
      NothingValid();
    } else {
      ValidUnfold(s);
      var k := RuneSize(s);
      assert at >= k;
      ValidCut(s[k..], at - k);
      assert s[k..][at - k..] == s[at..];
      assert s[k..][..at - k] == s[..at][k..];
      assert s[..at][..k] == s[..k];
      RuneSizeLocal(s, s[..at]);
      ValidFold(s[..at]);
    }
  }

  lemma NothingValid()
    ensures Valid([])
  {
  }

  lemma ValidUnfold(s: bytes)
    requires Valid(s) && s != []
    ensures RuneSize(s) > 0 && Valid(s[RuneSize(s)..])
  {
    hide RuneSize;
  }

  lemma ValidFold(s: bytes)
    requires RuneSize(s) > 0 && Valid(s[RuneSize(s)..])
    ensures Valid(s)
  {
    hide RuneSize;
  }
}
