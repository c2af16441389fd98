/**
 What the matcher recognises, stated against the grammar: `PrefixLen` is exact, `TokenLen`
 finds the shortest placeholder, and the two fit together as a streaming rewriter needs.
 */
module PlaceholderLaws {
  import opened Bytes
  import opened Placeholder

  // ------------------------------------------------------------ which texts are prefixes

  /** A complete type segment and the start of a digest. */
  ghost predicate InDigest(s: bytes, n: nat) {
    && 1 <= n <= MAX_TYPE && PREFIX_LEN + n < |s|
    && s[PREFIX_LEN + n] == US
    && AllHex(s, PREFIX_LEN + n + 1, |s|)
    && |s| - (PREFIX_LEN + n + 1) <= MAX_DIGEST
  }

  /** A complete type and digest, and m bytes of the closing underscores. */
  ghost predicate InSuffix(s: bytes, n: nat, d: nat, m: nat) {
    && 1 <= n <= MAX_TYPE && MIN_DIGEST <= d <= MAX_DIGEST && 1 <= m <= 2
    && |s| == PREFIX_LEN + n + 1 + d + m
    && s[PREFIX_LEN + n] == US
    && AllHex(s, PREFIX_LEN + n + 1, |s| - m)
    && (forall k :: |s| - m <= k < |s| ==> s[k] == US)
  }

  /** The shape of the heads of placeholders. */
  ghost predicate HeadShape(s: bytes) {
    if |s| <= PREFIX_LEN then s <= PREFIX
    else
      && PREFIX <= s && AllType(s, PREFIX_LEN, |s|)
      && (|s| - PREFIX_LEN <= MAX_TYPE
          || (exists n :: InDigest(s, n))
          || (exists n, d, m :: InSuffix(s, n, d, m)))
  }

  const ZEROS: bytes := seq(MIN_DIGEST, _ => 48)
  const CLOSING: bytes := [US, US]

  lemma SplitsIsToken(t: bytes, n: nat, d: nat)
    requires Splits(t, n, d)
    ensures IsToken(t)
  {
  }

  lemma ShapeExtendable(s: bytes)
    requires HeadShape(s)
    ensures Extendable(s)
  {
    if |s| <= PREFIX_LEN {
      var q := PREFIX[|s|..] + [97, US] + ZEROS + CLOSING;
      assert s == PREFIX[..|s|];
      SplitsIsToken(s + q, 1, MIN_DIGEST);
    } else if n :| InDigest(s, n) {
      var have := |s| - (PREFIX_LEN + n + 1);
      var q := ZEROS[..if have < MIN_DIGEST then MIN_DIGEST - have else 0] + CLOSING;
      SplitsIsToken(s + q, n, if have < MIN_DIGEST then MIN_DIGEST else have);
    } else if n: nat, d: nat, m: nat :| InSuffix(s, n, d, m) {
      SplitsIsToken(s + CLOSING[m..], n, d);
    } else {
      SplitsIsToken(s + ([US] + ZEROS + CLOSING), |s| - PREFIX_LEN, MIN_DIGEST);
    }
  }

  lemma SplitsShape(s: bytes, t: bytes, n: nat, d: nat)
    requires Splits(t, n, d) && s <= t
    ensures HeadShape(s)
  {
    assert forall k :: 0 <= k < |s| ==> s[k] == t[k];
    assert AllType(t, PREFIX_LEN, |t|);
    if |s| <= PREFIX_LEN {
      assert s == t[..PREFIX_LEN][..|s|];
    } else {
      assert s[..PREFIX_LEN] == t[..PREFIX_LEN];
      if PREFIX_LEN + n < |s| <= |t| - SUFFIX_LEN {
        assert InDigest(s, n);
      } else if |t| - SUFFIX_LEN < |s| {
        assert InSuffix(s, n, d, |s| - (|t| - SUFFIX_LEN));
      }
    }
  }

  lemma ExtendableShape(s: bytes)
    requires Extendable(s)
    ensures HeadShape(s)
  {
    var q :| IsToken(s + q);
    var n, d :| Splits(s + q, n, d);
    SplitsShape(s, s + q, n, d);
  }

  // ------------------------------------------------------------- PrefixLen is exact

  /** One byte more: a head whose shorter head has the shape is accepted only in shape. */
  lemma {:induction false} AcceptsShape(s: bytes, t: nat)
    requires |s| > PREFIX_LEN && 1 <= t && PREFIX <= s
    requires AllType(s, PREFIX_LEN, |s| - 1)
    requires AcceptsFrom(s, t)
    ensures HeadShape(s)
    decreases MAX_TYPE + 1 - t
  {
    if |s| - PREFIX_LEN <= t {
    } else if s[PREFIX_LEN + t] != US {
      AcceptsShape(s, t + 1);
    } else {
      var e := HexEnd(s, PREFIX_LEN + t + 1);
      var d := e - (PREFIX_LEN + t + 1);
      if e == |s| {
        assert InDigest(s, t);
      } else if s[e] != US || d < MIN_DIGEST || d > MAX_DIGEST {
        AcceptsShape(s, t + 1);
      } else if |s| - e == 1 || (|s| - e == 2 && s[e + 1] == US) {
        assert InSuffix(s, t, d, |s| - e);
      } else {
        AcceptsShape(s, t + 1);
      }
    }
  }

  lemma {:induction false} TypeAccepts(s: bytes, t: nat)
    requires 1 <= t <= |s| - PREFIX_LEN <= MAX_TYPE && AllType(s, PREFIX_LEN, |s|)
    ensures AcceptsFrom(s, t)
    decreases MAX_TYPE + 1 - t
  {
    if t < |s| - PREFIX_LEN {
      TypeAccepts(s, t + 1);
    }
  }

  lemma {:induction false} DigestAccepts(s: bytes, t: nat, n: nat)
    requires 1 <= t <= n && InDigest(s, n)
    ensures AcceptsFrom(s, t)
    decreases n - t
  {
    if t < n {
      DigestAccepts(s, t + 1, n);
      assert !IsHex(s[PREFIX_LEN + n]);
    }
  }

  lemma {:induction false} SuffixAccepts(s: bytes, t: nat, n: nat, d: nat, m: nat)
    requires 1 <= t <= n && InSuffix(s, n, d, m)
    ensures AcceptsFrom(s, t)
    decreases n - t
  {
    if t < n {
      SuffixAccepts(s, t + 1, n, d, m);
      assert !IsHex(s[PREFIX_LEN + n]);
    } else {
      assert !IsHex(s[|s| - m]);
    }
  }

  lemma ShapeIsPrefix(s: bytes)
    requires HeadShape(s)
    ensures IsPlaceholderPrefix(s)
  {
    if |s| > PREFIX_LEN {
      if n :| InDigest(s, n) {
        DigestAccepts(s, 1, n);
      } else if n: nat, d: nat, m: nat :| InSuffix(s, n, d, m) {
        SuffixAccepts(s, 1, n, d, m);
      } else {
        TypeAccepts(s, 1);
      }
    }
  }

  lemma ShapeShorter(s: bytes, j: nat)
    requires HeadShape(s) && j <= |s|
    ensures HeadShape(s[..j])
  {
    ShapeExtendable(s);
    var q :| IsToken(s + q);
    assert s[..j] + (s[j..] + q) == s + q;
    ExtendableShape(s[..j]);
  }

  lemma {:induction false} AllHeadsShape(p: bytes, k: nat)
    requires k <= |p|
    requires forall j :: 0 < j <= k ==> IsPlaceholderPrefix(p[..j])
    ensures HeadShape(p[..k])
  {
    if k > 0 {
      AllHeadsShape(p, k - 1);
      if k > PREFIX_LEN {
        var s := p[..k];
        assert s[..k - 1] == p[..k - 1];
        assert AllType(s, PREFIX_LEN, k - 1);
        AcceptsShape(s, 1);
      }
    }
  }

  /** PrefixLen is the length of the longest head that extends to a placeholder. */
  lemma PrefixLenExact(p: bytes, j: nat)
    requires j <= |p|
    ensures j <= PrefixLen(p) <==> Extendable(p[..j])
  {
    hide HeadShape, IsPlaceholderPrefix, IsToken;
    if j <= PrefixLen(p) {
      AllHeadsShape(p, j);
      ShapeExtendable(p[..j]);
    }
    if Extendable(p[..j]) && PrefixLen(p) < j {
      ExtendableShape(p[..j]);
      var n := PrefixLen(p) + 1;
      ShapeShorter(p[..j], n);
      assert p[..j][..n] == p[..n];
      ShapeIsPrefix(p[..n]);
      assert false;
    }
  }

  // ---------------------------------------------------- TokenLen finds the shortest one

  lemma SplitsEnd(t: bytes, n: nat, d: nat, more: bytes)
    requires Splits(t, n, d)
    ensures PREFIX <= t + more && TokenEnd(t + more, n) == |t|
  {
    var p := t + more;
    assert forall k :: 0 <= k < |t| ==> p[k] == t[k];
    assert p[..PREFIX_LEN] == t[..PREFIX_LEN];
    assert !IsHex(p[|t| - SUFFIX_LEN]);
    assert HexEnd(p, PREFIX_LEN + n + 1) == |t| - SUFFIX_LEN;
  }

  lemma EndSplits(p: bytes, n: nat)
    requires 1 <= n <= MAX_TYPE && PREFIX <= p && TokenEnd(p, n) > 0
    requires AllType(p, PREFIX_LEN, PREFIX_LEN + n)
    ensures IsToken(p[..TokenEnd(p, n)])
  {
    var t := p[..TokenEnd(p, n)];
    assert forall k :: 0 <= k < |t| ==> p[k] == t[k];
    SplitsIsToken(t, n, |t| - PREFIX_LEN - n - 1 - SUFFIX_LEN);
  }

  /** When a placeholder begins p, TokenLen is the length of the shortest one. */
  lemma TokenLenShortest(p: bytes, r: nat)
    requires r <= |p| && IsToken(p[..r])
    ensures 0 < TokenLen(p) <= r
    ensures IsToken(p[..TokenLen(p)])
  {
    hide TokenEnd, HexEnd, BestEnd;
    var n, d :| Splits(p[..r], n, d);
    SplitsEnd(p[..r], n, d, p[r..]);
    assert p[..r] + p[r..] == p;
    var m :| 1 <= m <= MAX_TYPE && TokenEnd(p, m) == TokenLen(p);
    ExtendableTypes(p[..r]);
    assert forall k :: 0 <= k < r ==> p[..r][k] == p[k];
    assert TokenLen(p) > 0 && PREFIX <= p;
    EndSplits(p, m);
  }

  lemma ExtendableTypes(t: bytes)
    requires IsToken(t)
    ensures |t| >= PREFIX_LEN && AllType(t, PREFIX_LEN, |t|)
  {
    assert t + [] == t;
    ExtendableShape(t);
  }

  /**
   TokenLen does not test the bytes of the type, so it also matches outside the grammar.
   A typed match is one inside it.
   */
  predicate Typed(p: bytes) {
    TokenLen(p) > 0 ==> AllType(p, PREFIX_LEN, TokenLen(p))
  }

  lemma TypedIsToken(p: bytes)
    requires TokenLen(p) > 0
    ensures Typed(p) <==> IsToken(p[..TokenLen(p)])
  {
    var t := p[..TokenLen(p)];
    assert forall k :: 0 <= k < |t| ==> t[k] == p[k];
    if Typed(p) {
      var m :| 1 <= m <= MAX_TYPE && TokenEnd(p, m) == TokenLen(p);
      EndSplits(p, m);
    }
    if IsToken(t) {
      ExtendableTypes(t);
    }
  }

  lemma TokenEndsClosed(p: bytes)
    requires TokenLen(p) > 0
    ensures TokenLen(p) > PREFIX_LEN + SUFFIX_LEN
    ensures p[TokenLen(p) - 2] == US && p[TokenLen(p) - 1] == US
  {
    hide HexEnd, BestEnd;
    var m :| 1 <= m <= MAX_TYPE && TokenEnd(p, m) == TokenLen(p);
  }

  // --------------------------------------------------------- the two under more input

  lemma {:induction false} HexEndAppend(p: bytes, more: bytes, from: nat)
    requires from <= |p|
    ensures HexEnd(p, from) < |p| ==> HexEnd(p + more, from) == HexEnd(p, from)
    ensures HexEnd(p, from) == |p| ==> HexEnd(p + more, from) >= |p|
    decreases |p| - from
  {
    if from < |p| && IsHex(p[from]) {
      HexEndAppend(p, more, from + 1);
    }
  }

  lemma TokenEndAppend(p: bytes, more: bytes, n: nat)
    ensures TokenEnd(p, n) > 0 ==> TokenEnd(p + more, n) == TokenEnd(p, n)
    ensures 0 < TokenEnd(p + more, n) <= |p| ==> TokenEnd(p, n) == TokenEnd(p + more, n)
  {
    if PREFIX_LEN + n < |p| {
      HexEndAppend(p, more, PREFIX_LEN + n + 1);
    }
  }

  /** A complete placeholder stays the match, whatever follows it. */
  lemma TokenLenAppend(p: bytes, more: bytes)
    ensures TokenLen(p) > 0 ==> TokenLen(p + more) == TokenLen(p)
    ensures 0 < TokenLen(p + more) <= |p| ==> TokenLen(p) == TokenLen(p + more)
  {
    forall n ensures TokenEnd(p, n) > 0 ==> TokenEnd(p + more, n) == TokenEnd(p, n)
             ensures 0 < TokenEnd(p + more, n) <= |p| ==> TokenEnd(p, n) == TokenEnd(p + more, n)
    {
      TokenEndAppend(p, more, n);
    }
    assert PREFIX <= p ==> PREFIX <= p + more;
    if 0 < TokenLen(p + more) <= |p| {
      var m :| 1 <= m <= MAX_TYPE && TokenEnd(p + more, m) == TokenLen(p + more);
      assert PREFIX_LEN + m < |p + more|;
      assert PREFIX <= p by {
        assert (p + more)[..PREFIX_LEN] == p[..PREFIX_LEN];
      }
    }
  }

  lemma TokenBound(t: bytes)
    requires IsToken(t)
    ensures |t| <= MAX_LEN
  {
  }

  /** A text that matches nothing and is not all prefix stays unmatched, up to the grammar. */
  lemma SettledStays(p: bytes, more: bytes)
    requires TokenLen(p) == 0 && PrefixLen(p) < |p| && TokenLen(p + more) > 0
    ensures !Typed(p + more)
  {
    hide TokenEnd, BestEnd, HexEnd, PrefixFrom, TokenLen, IsToken;
    if Typed(p + more) {
      TypedIsToken(p + more);
      TokenLenAppend(p, more);
      var t := (p + more)[..TokenLen(p + more)];
      assert p[..|p|] + t[|p|..] == t;
      PrefixLenExact(p, |p|);
      assert false;
    }
  }

  /** Text held back is shorter than any placeholder it could become. */
  lemma HeldIsShort(p: bytes)
    requires PrefixLen(p) == |p| && TokenLen(p) == 0
    ensures |p| < MAX_LEN
  {
    PrefixLenExact(p, |p|);
    assert p[..|p|] == p;
    var q :| IsToken(p + q);
    TokenBound(p + q);
    if q == [] {
      assert p + q == p;
      TokenLenShortest(p, |p|);
      assert false;
    }
  }

  /** No placeholder starts strictly inside a head of one. */
  lemma NoInnerToken(p: bytes, i: nat)
    requires Extendable(p) && 0 < i <= |p|
    ensures TokenLen(p[i..]) == 0
  {
    ExtendableShape(p);
    assert forall k :: 2 < k < |p| ==> p[k] != PREFIX[2];
    assert |p[i..]| > 2 ==> p[i..][2] != PREFIX[2];
  }

  /** All bytes behind the prefix are type bytes. */
  predicate TypedTail(t: bytes) {
    |t| > PREFIX_LEN ==> AllType(t, PREFIX_LEN, |t|)
  }

  /**
   Of a text that isPlaceholderPrefix accepts it accepts every head exactly when all bytes
   behind the prefix are type bytes, hex digits and the closing among them.
   */
  lemma PrefixTestClosed(t: bytes)
    requires IsPlaceholderPrefix(t)
    ensures (forall j :: 0 <= j <= |t| ==> IsPlaceholderPrefix(t[..j])) <==> TypedTail(t)
  {
    hide IsPlaceholderPrefix, HeadShape;
    assert t[..|t|] == t;
    if forall j :: 0 <= j <= |t| ==> IsPlaceholderPrefix(t[..j]) {
      AllHeadsShape(t, |t|);
      ShapeTyped(t);
    }
    if TypedTail(t) {
      TypedShape(t);
      forall j | 0 <= j <= |t| ensures IsPlaceholderPrefix(t[..j]) {
        ShapeShorter(t, j);
        ShapeIsPrefix(t[..j]);
      }
    }
  }

  lemma ShapeTyped(t: bytes)
    requires HeadShape(t)
    ensures TypedTail(t)
  {
  }

  lemma TypedShape(t: bytes)
    requires IsPlaceholderPrefix(t) && TypedTail(t)
    ensures HeadShape(t)
  {
    if |t| > PREFIX_LEN {
      AcceptsShape(t, 1);
    }
  }

  /** So it is not closed under taking heads: it accepts a text whose head it rejects. */
  lemma PrefixTestNotClosed()
    ensures exists s, c :: IsPlaceholderPrefix(s + [c]) && !IsPlaceholderPrefix(s)
  {
    var s: bytes := PREFIX + [33];
    assert !IsTypeChar(s[PREFIX_LEN]);
    var t := s + [US];
    assert HexEnd(t, 8) == 8;
    assert AcceptsFrom(t, 1);
  }
}
