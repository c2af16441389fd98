/**
 The hold-back rewriter driven by the placeholder matcher. It equals the batch rewrite for
 every chunking and every rewrite exactly when the text's leftmost matches are placeholders
 of the grammar.
 */
module HoldbackPlaceholder {
  import opened Bytes
  import opened Placeholder
  import opened PlaceholderLaws
  import opened Holdback

  const MATCHER: Matcher := Matcher(PrefixLen, TokenLen, MAX_LEN)

  function Step(s: bytes): (k: nat)
    requires s != []
    ensures 0 < k <= |s|
  {
    if TokenLen(s) > 0 then TokenLen(s) else 1
  }

  /** Every match the leftmost scan of s takes has type bytes only. */
  predicate ScanTyped(s: bytes) {
    s == [] || (Typed(s) && ScanTyped(s[Step(s)..]))
  }

  lemma OpenIsExtendable(p: bytes)
    ensures Open(MATCHER, p) <==> TokenLen(p) == 0 && Extendable(p)
  {
    PrefixLenExact(p, |p|);
    assert p[..|p|] == p;
  }

  lemma TypedHeadAgrees(s: bytes, head: bytes)
    requires Typed(s) && head <= s
    ensures HeadAgrees(MATCHER, s, head)
  {
    hide TokenLen, PrefixLen, Extendable;
    var more := s[|head|..];
    assert head + more == s;
    TokenLenAppend(head, more);
    OpenIsExtendable(head);
    if TokenLen(head) == 0 && PrefixLen(head) < |head| && TokenLen(s) > 0 {
      SettledStays(head, more);
    }
    if Open(MATCHER, head) {
      HeldIsShort(head);
      forall i | 0 <= i < |head| ensures Match(MATCHER, head[i..]) == 0 {
        if i == 0 {
          assert head[0..] == head;
        } else {
          NoInnerToken(head, i);
        }
      }
    }
  }

  lemma {:induction false} TypedFits(s: bytes)
    requires ScanTyped(s)
    ensures Fits(MATCHER, s)
    decreases |s|
  {
    if s != [] {
      forall j | 0 < j <= |s| ensures HeadAgrees(MATCHER, s, s[..j]) {
        TypedHeadAgrees(s, s[..j]);
      }
      TypedFits(s[Step(s)..]);
    }
  }

  // ------------------------------------------------------------- a match outside the grammar

  /** Replaces every token by one zero byte. */
  const ZERO: Rewrite := (token: bytes) => Some([0])

  /** An untyped match holds a byte outside the type alphabet before its last two. */
  lemma BadByte(r: bytes) returns (k: nat)
    requires !Typed(r)
    ensures PREFIX_LEN <= k < TokenLen(r) - SUFFIX_LEN && !IsTypeChar(r[k])
  {
    hide TokenLen;
    TokenEndsClosed(r);
    k :| PREFIX_LEN <= k < TokenLen(r) && !IsTypeChar(r[k]);
  }

  /** A text with such a byte is never all held back. */
  lemma BadByteSettles(h: bytes, k: nat)
    requires PREFIX_LEN <= k < |h| && !IsTypeChar(h[k])
    ensures !Open(MATCHER, h)
  {
    hide TokenLen, PrefixLen, Open;
    OpenIsExtendable(h);
    if Extendable(h) {
      ExtendableShape(h);
      assert false;
    }
  }

  ghost predicate Differ(a: bytes, b: bytes) {
    exists i :: 0 <= i < |a| && i < |b| && a[i] != b[i]
  }

  lemma DifferAfter(first: bytes, a: bytes, b: bytes)
    requires Differ(a, b)
    ensures Differ(first + a, first + b)
  {
    var i :| 0 <= i < |a| && i < |b| && a[i] != b[i];
    assert (first + a)[|first| + i] != (first + b)[|first| + i];
  }

  lemma CutAtBadByte(s: bytes) returns (j: nat)
    requires !Typed(s)
    ensures PREFIX_LEN < j <= |s| && !IsTypeChar(s[j - 1])
    ensures Differ(Settle(MATCHER, ZERO, s[..j]).0, Batch(MATCHER, ZERO, s))
  {
    hide TokenLen, PrefixLen, Open, IsTypeChar, Settle;
    var k := BadByte(s);
    j := k + 1;
    var h := s[..j];
    assert h + s[j..] == s;
    TokenLenAppend(h, s[j..]);
    BadByteSettles(h, k);
    SettleUnfold(MATCHER, ZERO, h);
    TokenStarts(s);
    assert Settle(MATCHER, ZERO, h).0[0] == US && Batch(MATCHER, ZERO, s)[0] == 0;
  }

  /** A head that is not all held back takes the scan's first step as the whole text does. */
  lemma StepAgrees(s: bytes, j: nat) returns (first: bytes)
    requires s != [] && Step(s) < j <= |s| && !Open(MATCHER, s[..j])
    ensures
      var n := Step(s);
      && Settle(MATCHER, ZERO, s[..j]).0 == first + Settle(MATCHER, ZERO, s[n..][..j - n]).0
      && Batch(MATCHER, ZERO, s) == first + Batch(MATCHER, ZERO, s[n..])
  {
    hide TokenLen, PrefixLen, Settle, Batch;
    var n, h := Step(s), s[..j];
    assert h + s[j..] == s && h[n..] == s[n..][..j - n] && h[..n] == s[..n];
    TokenLenAppend(h, s[j..]);
    SettleUnfold(MATCHER, ZERO, h);
    BatchUnfold(MATCHER, ZERO, s);
    first := if TokenLen(s) > 0 then Replacement(ZERO, s[..n]) else [s[0]];
  }

  /**
   Cutting the text just behind the bad byte of its first untyped match: the stream emits
   that match's first byte where the batch rewrite has the replacement.
   */
  lemma {:induction false} CutShows(s: bytes) returns (j: nat)
    requires !ScanTyped(s)
    ensures PREFIX_LEN < j <= |s| && !IsTypeChar(s[j - 1])
    ensures Differ(Settle(MATCHER, ZERO, s[..j]).0, Batch(MATCHER, ZERO, s))
    decreases |s|
  {
    hide TokenLen, PrefixLen, Open, IsTypeChar, Settle, Batch, Differ;
    if !Typed(s) {
      j := CutAtBadByte(s);
    } else {
      var n := Step(s);
      var rest := CutShows(s[n..]);
      j := n + rest;
      BadByteSettles(s[..j], j - 1);
      var first := StepAgrees(s, j);
      DifferAfter(first, Settle(MATCHER, ZERO, s[n..][..j - n]).0, Batch(MATCHER, ZERO, s[n..]));
    }
  }

  lemma TokenStarts(s: bytes)
    requires TokenLen(s) > 0
    ensures s[0] == US
  {
    assert s[0] == PREFIX[0];
  }

  lemma StreamStarts(f: Rewrite, a: bytes, b: bytes)
    ensures Settle(MATCHER, f, a).0 <= Stream(MATCHER, f, [a, b])
  {
    assert [] + a == a;
    assert [a, b][1..] == [b];
  }

  lemma UntypedChunksMatter(s: bytes) returns (chunks: seq<bytes>)
    requires !ScanTyped(s)
    ensures Concat(chunks) == s && Stream(MATCHER, ZERO, chunks) != Batch(MATCHER, ZERO, s)
  {
    hide ScanTyped, Settle, Batch, Stream, Concat;
    var j := CutShows(s);
    chunks := [s[..j], s[j..]];
    ConcatPair(s[..j], s[j..]);
    assert s[..j] + s[j..] == s;
    StreamStarts(ZERO, s[..j], s[j..]);
  }

  /**
   Exactly when is the stream the batch rewrite, for every chunking and every rewrite? When
   each leftmost match is a placeholder of the grammar.
   */
  lemma StreamIsBatchExactly(s: bytes)
    ensures ScanTyped(s) <==>
            forall chunks, f | Concat(chunks) == s :: Stream(MATCHER, f, chunks) == Batch(MATCHER, f, s)
  {
    if ScanTyped(s) {
      TypedFits(s);
      forall chunks, f | Concat(chunks) == s ensures Stream(MATCHER, f, chunks) == Batch(MATCHER, f, s) {
        StreamIsBatch(MATCHER, f, chunks);
      }
    } else {
      var chunks := UntypedChunksMatter(s);
    }
  }

  /** The text held back never reaches the limit, so no byte is given up for the bound. */
  lemma NothingDropped(f: Rewrite, held: bytes)
    ensures Release(MATCHER, f, held) == Settle(MATCHER, f, held)
    ensures |Release(MATCHER, f, held).1| < MAX_LEN
  {
    SettleTail(f, held);
  }

  lemma {:induction false} SettleTail(f: Rewrite, held: bytes)
    ensures |Settle(MATCHER, f, held).1| < MAX_LEN
    decreases |held|
  {
    hide TokenLen, PrefixLen;
    SettleUnfold(MATCHER, f, held);
    if held != [] && Match(MATCHER, held) > 0 {
      SettleTail(f, held[Match(MATCHER, held)..]);
    } else if held != [] && !Open(MATCHER, held) {
      SettleTail(f, held[1..]);
    } else if held != [] {
      HeldIsShort(held);
    }
  }
}
