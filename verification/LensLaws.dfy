/** One string level of the lens: decoding against concatenation, cutting and escaping. */
module LensLaws {
  import opened Bytes
  import opened Utf8
  import opened Lens

  // ------------------------------------------------------------------------- one unit

  lemma UnitOut(s: bytes)
    requires s != [] && WellUnit(s)
    ensures OneRune(NextUnit(s).out)
  {
    if s[0] != BACKSLASH {
      var k := RuneSize(s);
      RuneSizeLocal(s, s[..k]);
    }
  }

  /** An unpaired high surrogate escape, alone. */
  predicate LoneHigh(s: bytes) {
    |s| == 6 && s[0] == BACKSLASH && s[1] == LOWER_U &&
    Hex4(s[2..6]).Some? && IsHigh(Hex4(s[2..6]).value)
  }

  /** An unpaired high surrogate is the last unit. */
  predicate EndsHigh(s: bytes) {
    s != [] && if NextUnit(s).width == |s| then LoneHigh(s) else EndsHigh(s[NextUnit(s).width..])
  }

  /** Putting b behind a would join two unpaired surrogates. */
  predicate Joins(a: bytes, b: bytes) {
    EndsHigh(a) && LowEscape(b).Some?
  }

  lemma LowEscapeAppend(s: bytes, t: bytes)
    requires s != [] && WellUnit(s)
    ensures LowEscape(s + t) == LowEscape(s)
  {
    if |s| >= 6 {
      assert (s + t)[2..6] == s[2..6];
    }
  }

  lemma LiteralAppend(a: bytes, b: bytes)
    requires a != [] && WellUnit(a) && a[0] != BACKSLASH
    ensures WellUnit(a + b) && NextUnit(a + b) == NextUnit(a)
  {
    hide RuneSize;
    var s, k := a + b, RuneSize(a);
    assert s[..k] == a[..k];
    RuneSizeLocal(a, s);
  }

  lemma UnicodeAppend(a: bytes, b: bytes)
    requires |a| >= 6 && WellUnit(a) && a[0] == BACKSLASH && a[1] == LOWER_U
    requires |a| > NextUnit(a).width ==> WellUnit(a[NextUnit(a).width..])
    requires |a| == 6 ==> !(LoneHigh(a) && LowEscape(b).Some?)
    ensures WellUnit(a + b) && NextUnit(a + b) == NextUnit(a)
  {
    var s := a + b;
    assert s[2..6] == a[2..6];
    assert LowEscape(a[6..]).Some? || IsHigh(Hex4(a[2..6]).value) ==> LowEscape(s[6..]) == LowEscape(a[6..]) by {
      hide Hex4, Encode, RuneSize, ShortEscape;
      assert s[6..] == a[6..] + b;
      if LowEscape(a[6..]).Some? {
        LowEscapePrefix(a[6..], b);
      } else if |a| > 6 && NextUnit(a).width == 6 {
        LowEscapeAppend(a[6..], b);
      } else if |a| == 6 {
        assert a[6..] + b == b;
      }
    }
    hide Hex4, Encode, LowEscape;
  }

  /** A unit of a decides the same when more units follow, unless surrogates join. */
  lemma UnitAppend(a: bytes, b: bytes)
    requires a != [] && WellUnit(a)
    requires |a| > NextUnit(a).width ==> WellUnit(a[NextUnit(a).width..])
    requires |a| == NextUnit(a).width ==> !(LoneHigh(a) && LowEscape(b).Some?)
    ensures WellUnit(a + b) && NextUnit(a + b) == NextUnit(a)
  {
    hide Hex4, RuneSize, LowEscape, Encode;
    if a[0] != BACKSLASH {
      LiteralAppend(a, b);
    } else if a[1] == LOWER_U {
      UnicodeAppend(a, b);
    }
  }

  lemma LowEscapePrefix(s: bytes, t: bytes)
    requires LowEscape(s).Some?
    ensures LowEscape(s + t) == LowEscape(s)
  {
    assert (s + t)[2..6] == s[2..6];
  }

  lemma UnicodeHead(s: bytes, j: nat)
    requires |s| >= 6 && WellUnit(s) && s[0] == BACKSLASH && s[1] == LOWER_U
    requires NextUnit(s).width <= j <= |s|
    ensures WellUnit(s[..j]) && NextUnit(s[..j]) == NextUnit(s)
  {
    var h := s[..j];
    assert h[2..6] == s[2..6];
    assert h[6..] + s[j..] == s[6..];
    if LowEscape(h[6..]).Some? {
      LowEscapePrefix(h[6..], s[j..]);
    }
    if NextUnit(s).width == 12 {
      assert h[6..][2..6] == s[6..][2..6];
    }
    hide Hex4, Encode;
  }

  /** The unit of s is that of every head of s that contains it. */
  lemma UnitHead(s: bytes, j: nat)
    requires s != [] && WellUnit(s) && NextUnit(s).width <= j <= |s|
    ensures WellUnit(s[..j]) && NextUnit(s[..j]) == NextUnit(s)
  {
    hide Hex4, RuneSize, LowEscape, Encode;
    if s[0] != BACKSLASH {
      var h, k := s[..j], RuneSize(s);
      assert h[..k] == s[..k];
      RuneSizeLocal(s, h);
    } else if s[1] == LOWER_U {
      UnicodeHead(s, j);
    }
  }

  // --------------------------------------------------------------- strings put together

  lemma {:induction false} DecodeAppend(a: bytes, b: bytes)
    requires Interior(a) && Interior(b) && !Joins(a, b)
    ensures Interior(a + b) && Decode(a + b) == Decode(a) + Decode(b)
    decreases |a|
  {
    hide NextUnit, WellUnit, LoneHigh, LowEscape;
    if a == [] {
      assert a + b == b;
    } else {
      var w := NextUnit(a).width;
      if w == |a| {
        assert a[w..] == [];
      }
      UnitAppend(a, b);
      DecodeAppend(a[w..], b);
      assert (a + b)[w..] == a[w..] + b;
      Assoc(NextUnit(a).out, Decode(a[w..]), Decode(b));
    }
  }

  lemma {:induction false} EndsHighAppend(a: bytes, b: bytes)
    requires Interior(a) && Interior(b) && !Joins(a, b) && b != []
    ensures EndsHigh(a + b) == EndsHigh(b)
    decreases |a|
  {
    hide NextUnit, WellUnit, LoneHigh, LowEscape;
    if a == [] {
      assert a + b == b;
    } else {
      var w := NextUnit(a).width;
      if w == |a| {
        assert a[w..] == [];
      }
      UnitAppend(a, b);
      EndsHighAppend(a[w..], b);
      assert (a + b)[w..] == a[w..] + b;
    }
  }

  // ------------------------------------------------------------------- strings cut apart

  /** The raw offset of an aligned decoded offset. */
  function RawOffset(s: bytes, o: nat): (r: nat)
    requires o <= |Decode(s)|
    ensures r <= |s|
  {
    if o == 0 then 0 else UnitEnd(s, o - 1)
  }

  /** An aligned decoded offset cuts the raw text between two units. */
  lemma {:induction false} CutAt(s: bytes, o: nat)
    requires Interior(s) && Aligned(Decode(s), o)
    ensures
      var r := RawOffset(s, o);
      && Interior(s[..r]) && Interior(s[r..])
      && Decode(s[..r]) == Decode(s)[..o] && Decode(s[r..]) == Decode(s)[o..]
    ensures o < |Decode(s)| ==> UnitStart(s, o) == RawOffset(s, o)
    ensures o == |Decode(s)| ==> RawOffset(s, o) == |s|
    decreases |s|
  {
    hide NextUnit, WellUnit;
    if o == 0 {
      assert s[..0] == [] && s[0..] == s;
      assert Decode(s)[..0] == [] && Decode(s)[0..] == Decode(s);
    } else {
      var u := NextUnit(s);
      var rest := s[u.width..];
      UnitOut(s);
      AlignedTail(u.out, Decode(rest), o);
      CutAt(rest, o - |u.out|);
      CutBehind(s, RawOffset(rest, o - |u.out|));
      assert RawOffset(s, o) == u.width + RawOffset(rest, o - |u.out|);
      assert Decode(s)[..o] == u.out + Decode(rest)[..o - |u.out|];
      assert Decode(s)[o..] == Decode(rest)[o - |u.out|..];
    }
  }

  lemma CutBehind(s: bytes, r: nat)
    requires s != [] && WellUnit(s) && r <= |s| - NextUnit(s).width
    requires Interior(s[NextUnit(s).width..][..r])
    ensures
      var u := NextUnit(s);
      && Interior(s[..u.width + r])
      && Decode(s[..u.width + r]) == u.out + Decode(s[u.width..][..r])
      && s[u.width + r..] == s[u.width..][r..]
  {
    hide NextUnit, WellUnit;
    var u := NextUnit(s);
    UnitHead(s, u.width + r);
    assert s[..u.width + r][u.width..] == s[u.width..][..r];
  }

  lemma AlignedTail(a: bytes, b: bytes, o: nat)
    requires OneRune(a) && 0 < o && Aligned(a + b, o)
    ensures |a| <= o && Aligned(b, o - |a|)
  {
    assert forall i :: 0 <= i < |a| ==> (a + b)[i] == a[i];
    assert |a| <= o < |a + b| ==> (a + b)[o] == b[o - |a|];
  }

  /** For aligned spans mapSpan is the two cuts. */
  lemma MapSpanCuts(s: bytes, start: nat, end: nat)
    requires Interior(s) && start < end
    requires Aligned(Decode(s), start) && Aligned(Decode(s), end)
    ensures MapSpan(s, start, end) == Some(Range(RawOffset(s, start), RawOffset(s, end)))
  {
    CutAt(s, start);
  }

  /** Cuts keep their order. */
  lemma {:induction false} CutsAscend(s: bytes, o: nat, p: nat)
    requires Interior(s) && Aligned(Decode(s), o) && Aligned(Decode(s), p) && o <= p
    ensures RawOffset(s, o) <= RawOffset(s, p)
    ensures o < p ==> RawOffset(s, o) < RawOffset(s, p)
    decreases |s|
  {
    hide NextUnit, WellUnit;
    if 0 < o {
      var u := NextUnit(s);
      var rest := s[u.width..];
      UnitOut(s);
      AlignedTail(u.out, Decode(rest), o);
      AlignedTail(u.out, Decode(rest), p);
      CutsAscend(rest, o - |u.out|, p - |u.out|);
    }
  }

  /** The raw text at a cut starts a rune; before an ASCII character it is ASCII. */
  lemma CutByte(s: bytes, o: nat)
    requires Interior(s) && Aligned(Decode(s), o) && o < |Decode(s)|
    ensures var r := RawOffset(s, o); r < |s| && !IsTail(s[r])
    ensures Decode(s)[o] < 0x80 ==> s[RawOffset(s, o)] < 0x80 && LowEscape(s[RawOffset(s, o)..]).None?
  {
    CutAt(s, o);
    var t := s[RawOffset(s, o)..];
    assert Decode(t)[0] == Decode(s)[o];
    FirstByte(t);
  }

  lemma FirstByte(t: bytes)
    requires Interior(t) && t != []
    ensures !IsTail(t[0])
    ensures Decode(t)[0] < 0x80 ==> t[0] < 0x80 && LowEscape(t).None?
  {
    UnitOut(t);
    assert Decode(t)[0] == NextUnit(t).out[0];
  }

  lemma {:induction false} RawOffsetAdd(s: bytes, o: nat, p: nat)
    requires Interior(s) && Aligned(Decode(s), o) && Aligned(Decode(s), p) && o <= p
    ensures
      var t := s[RawOffset(s, o)..];
      && Decode(t) == Decode(s)[o..]
      && RawOffset(s, p) == RawOffset(s, o) + RawOffset(t, p - o)
    decreases |s|
  {
    hide NextUnit, WellUnit, UnitEnd, UnitStart;
    CutAt(s, o);
    if 0 < o {
      var u := NextUnit(s);
      var rest := s[u.width..];
      UnitOut(s);
      AlignedTail(u.out, Decode(rest), o);
      AlignedTail(u.out, Decode(rest), p);
      var o1, p1 := o - |u.out|, p - |u.out|;
      RawOffsetAdd(rest, o1, p1);
      hide RawOffset, Decode, Interior, Aligned;
      RawOffsetStep(s, o);
      RawOffsetStep(s, p);
      assert s[u.width + RawOffset(rest, o1)..] == rest[RawOffset(rest, o1)..];
    } else {
      assert s[0..] == s;
    }
  }

  lemma RawOffsetStep(s: bytes, o: nat)
    requires s != [] && |NextUnit(s).out| <= o <= |Decode(s)|
    ensures
      var u := NextUnit(s);
      RawOffset(s, o) == u.width + RawOffset(s[u.width..], o - |u.out|)
  {
    hide NextUnit;
  }

  /** The raw text between two cuts spells the decoded text between them. */
  lemma CutBetween(s: bytes, o: nat, p: nat)
    requires Interior(s) && Aligned(Decode(s), o) && Aligned(Decode(s), p) && o <= p
    ensures
      var r, q := RawOffset(s, o), RawOffset(s, p);
      && r <= q <= |s|
      && Interior(s[r..q]) && Decode(s[r..q]) == Decode(s)[o..p]
  {
    hide Interior, Decode, UnitEnd, RawOffset, UnitStart;
    var r, q := RawOffset(s, o), RawOffset(s, p);
    CutAt(s, o);
    RawOffsetAdd(s, o, p);
    var t := s[r..];
    assert Decode(t) == Decode(s)[o..];
    CutAt(t, p - o);
    assert t[..q - r] == s[r..q];
    assert Decode(s)[o..][..p - o] == Decode(s)[o..p];
  }
}
