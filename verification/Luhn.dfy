/**
 The payment-card detector (pkg/filter/primitive_luhn.go:12-85). The checksum is that of
 Annex B of ISO/IEC 7812-1.
 */
module Luhn {
  import opened Bytes

  predicate Digit(c: byte) {
    48 <= c <= 57
  }

  function ValueOf(c: byte): int
    requires Digit(c)
  {
    (c - 48) as int
  }

  predicate AllDigits(s: bytes) {
    forall i :: 0 <= i < |s| ==> Digit(s[i])
  }

  // ------------------------------------------------------------------------- the checksum

  /** A doubled digit counts as the sum of the digits of its double. */
  function Doubled(d: int): (r: int)
    requires 0 <= d <= 9
    ensures 0 <= r <= 9
  {
    2 * d / 10 + 2 * d % 10
  }

  /** What the digit at i counts: every second one from the right is doubled. */
  function Term(digits: bytes, i: nat): (r: int)
    requires AllDigits(digits) && i < |digits|
    ensures 0 <= r <= 9
  {
    if (|digits| - i) % 2 == 0 then Doubled(ValueOf(digits[i])) else ValueOf(digits[i])
  }

  /** The sum of what the digits from i on count. */
  function Sum(digits: bytes, i: nat): int
    requires AllDigits(digits) && i <= |digits|
    decreases |digits| - i
  {
    if i == |digits| then 0 else Term(digits, i) + Sum(digits, i + 1)
  }

  predicate Valid(digits: bytes)
    requires AllDigits(digits)
  {
    Sum(digits, 0) % 10 == 0
  }

  method LuhnValid(digits: bytes) returns (valid: bool)
    requires AllDigits(digits)
    ensures valid <==> Valid(digits)
  {
    var sum := 0;
    var double := false;
    var i := |digits|;
    while i > 0
      invariant 0 <= i <= |digits|
      invariant sum == Sum(digits, i)
      invariant double <==> (|digits| - i) % 2 == 1
    {
      i := i - 1;
      var d := ValueOf(digits[i]);
      if double {
        d := d * 2;
        if d > 9 {
          d := d - 9;
        }
      }
      sum := sum + d;
      double := !double;
    }
    return sum % 10 == 0;
  }

  lemma {:induction false} SumUpdate(digits: bytes, i: nat, x: byte, from: nat)
    requires AllDigits(digits) && Digit(x) && i < |digits| && from <= |digits|
    ensures AllDigits(digits[i := x])
    ensures Sum(digits[i := x], from) ==
            Sum(digits, from) + if from <= i then Term(digits[i := x], i) - Term(digits, i) else 0
    decreases |digits| - from
  {
    if from < |digits| {
      SumUpdate(digits, i, x, from + 1);
    }
  }

  /** Changing one digit of a valid number, of any length, makes it invalid. */
  lemma OneDigitDetected(digits: bytes, i: nat, x: byte)
    requires AllDigits(digits) && Valid(digits) && i < |digits| && Digit(x) && x != digits[i]
    ensures AllDigits(digits[i := x]) && !Valid(digits[i := x])
  {
    hide Doubled, Sum;
    SumUpdate(digits, i, x, 0);
    var d := Term(digits[i := x], i) - Term(digits, i);
    if Valid(digits[i := x]) {
      SmallMultiple(Sum(digits, 0), d);
      DoublingIsOneToOne(ValueOf(x), ValueOf(digits[i]));
    }
  }

  lemma SmallMultiple(sum: int, d: int)
    requires -10 < d < 10 && sum % 10 == 0 && (sum + d) % 10 == 0
    ensures d == 0
  {
  }

  lemma DoublingIsOneToOne(a: int, b: int)
    requires 0 <= a <= 9 && 0 <= b <= 9
    ensures Doubled(a) == Doubled(b) ==> a == b
  {
    DoubledIs(a);
    DoubledIs(b);
  }

  lemma DoubledIs(d: int)
    requires 0 <= d <= 9
    ensures Doubled(d) == if d <= 4 then 2 * d else 2 * d - 9
  {
  }

  function Swapped(digits: bytes, i: nat): bytes
    requires i + 1 < |digits|
  {
    digits[i := digits[i + 1]][i + 1 := digits[i]]
  }

  lemma SwapSum(digits: bytes, i: nat)
    requires AllDigits(digits) && i + 1 < |digits|
    ensures AllDigits(Swapped(digits, i))
    ensures
      var x, y := ValueOf(digits[i]), ValueOf(digits[i + 1]);
      var d := Doubled(y) + x - Doubled(x) - y;
      Sum(Swapped(digits, i), 0) == Sum(digits, 0) + if (|digits| - i) % 2 == 0 then d else -d
  {
    hide Doubled, Sum;
    SumUpdate(digits, i, digits[i + 1], 0);
    SumUpdate(digits[i := digits[i + 1]], i + 1, digits[i], 0);
  }

  /** Exchanging two neighbours goes unnoticed exactly when they are equal or are 0 and 9. */
  lemma SwapDetected(digits: bytes, i: nat)
    requires AllDigits(digits) && Valid(digits) && i + 1 < |digits|
    ensures AllDigits(Swapped(digits, i))
    ensures
      var a, b := digits[i], digits[i + 1];
      Valid(Swapped(digits, i)) <==> a == b || (a == 48 && b == 57) || (a == 57 && b == 48)
  {
    hide Doubled, Sum, Swapped;
    SwapSum(digits, i);
    var x, y := ValueOf(digits[i]), ValueOf(digits[i + 1]);
    SwapChange(x, y);
    var d := Doubled(y) + x - Doubled(x) - y;
    if Valid(Swapped(digits, i)) {
      SmallMultiple(Sum(digits, 0), if (|digits| - i) % 2 == 0 then d else -d);
    }
  }

  lemma SwapChange(a: int, b: int)
    requires 0 <= a <= 9 && 0 <= b <= 9
    ensures -10 < Doubled(b) + a - Doubled(a) - b < 10
    ensures Doubled(b) + a == Doubled(a) + b <==> a == b || (a == 0 && b == 9) || (a == 9 && b == 0)
  {
    DoubledIs(a);
    DoubledIs(b);
  }

  // ---------------------------------------------------------------------------- card numbers

  const MIN_DIGITS: nat := 13
  const MAX_DIGITS: nat := 19

  datatype Span = Span(start: nat, end: nat)

  predicate RunChar(c: byte) {
    Digit(c) || c == 32 || c == 45
  }

  predicate AllRun(s: bytes, lo: int, hi: int)
    requires 0 <= lo && hi <= |s|
  {
    forall k :: lo <= k < hi ==> RunChar(s[k])
  }

  /** The digits of s[lo..hi), in order. */
  function DigitsOf(s: bytes, lo: nat, hi: nat): (r: bytes)
    requires lo <= hi <= |s|
    ensures AllDigits(r)
    decreases hi
  {
    if lo == hi then []
    else DigitsOf(s, lo, hi - 1) + if Digit(s[hi - 1]) then [s[hi - 1]] else []
  }

  /** From the first digit to the last of a stretch of digits and separators that cannot grow. */
  predicate CardRun(s: bytes, lo: nat, hi: nat) {
    && lo < hi <= |s| && Digit(s[lo]) && Digit(s[hi - 1]) && AllRun(s, lo, hi)
    && (forall j :: 0 <= j < lo && AllRun(s, j, lo) ==> !Digit(s[j]))
    && (forall j :: hi <= j < |s| && AllRun(s, hi, j) ==> !Digit(s[j]))
  }

  predicate AllSame(digits: bytes) {
    forall i :: 0 <= i < |digits| ==> digits[i] == digits[0]
  }

  predicate Card(s: bytes, lo: nat, hi: nat) {
    CardRun(s, lo, hi) &&
    var digits := DigitsOf(s, lo, hi);
    MIN_DIGITS <= |digits| <= MAX_DIGITS && !AllSame(digits) && Valid(digits)
  }

  method AllSameDigit(digits: bytes) returns (same: bool)
    requires digits != []
    ensures same <==> AllSame(digits)
  {
    var i := 1;
    while i < |digits|
      invariant 1 <= i <= |digits| && forall k :: 0 <= k < i ==> digits[k] == digits[0]
    {
      if digits[i] != digits[0] {
        return false;
      }
      i := i + 1;
    }
    return true;
  }

  lemma DigitsStep(s: bytes, lo: nat, hi: nat)
    requires lo <= hi <= |s|
    ensures lo == hi ==> DigitsOf(s, lo, hi) == []
    ensures lo < hi ==> DigitsOf(s, lo, hi) == DigitsOf(s, lo, hi - 1) + if Digit(s[hi - 1]) then [s[hi - 1]] else []
  {
  }

  /** Where the run that starts at digit i ends, and where its last digit is. */
  method ScanRun(s: bytes, i: nat) returns (next: nat, last: nat, digits: nat)
    requires i < |s| && Digit(s[i])
    ensures i <= last < next <= |s| && AllRun(s, i, next) && (next < |s| ==> !RunChar(s[next]))
    ensures Digit(s[last]) && forall k :: last < k < next ==> !Digit(s[k])
    ensures digits == |DigitsOf(s, i, last + 1)|
  {
    hide DigitsOf;
    next, last, digits := i, i, 0;
    DigitsStep(s, i, i);
    while next < |s| && RunChar(s[next])
      invariant i <= next <= |s| && AllRun(s, i, next)
      invariant i <= last && (next == i ==> last == i) && (next > i ==> last < next && Digit(s[last]))
      invariant forall k :: last < k < next ==> !Digit(s[k])
      invariant digits == |DigitsOf(s, i, next)|
      invariant next > i ==> DigitsOf(s, i, next) == DigitsOf(s, i, last + 1)
    {
      DigitsStep(s, i, next + 1);
      if Digit(s[next]) {
        digits := digits + 1;
        last := next;
      }
      next := next + 1;
    }
  }

  /** The loop that collects a run's digits. */
  method Normalize(s: bytes, lo: nat, hi: nat) returns (digits: bytes)
    requires lo <= hi <= |s|
    ensures digits == DigitsOf(s, lo, hi)
  {
    digits := [];
    var i := lo;
    while i < hi
      invariant lo <= i <= hi && digits == DigitsOf(s, lo, i)
    {
      if Digit(s[i]) {
        digits := digits + [s[i]];
      }
      i := i + 1;
    }
  }

  /** No run goes on at i that has a digit before i. */
  ghost predicate RunStart(s: bytes, i: nat) {
    i <= |s| &&
    (i == |s| || !RunChar(s[i]) || forall j :: 0 <= j < i && AllRun(s, j, i) ==> !Digit(s[j]))
  }

  /** The spans are exactly the card numbers that start below i. */
  ghost predicate Found(s: bytes, i: nat, spans: seq<Span>) {
    && (forall p :: p in spans ==> p.start < i && Card(s, p.start, p.end))
    && (forall lo: nat, hi: nat :: lo < i && Card(s, lo, hi) ==> Span(lo, hi) in spans)
  }

  ghost predicate Ascending(spans: seq<Span>) {
    forall i, j :: 0 <= i < j < |spans| ==> spans[i].end <= spans[j].start
  }

  /** Exactly the card numbers of the content, in order. */
  method FindLuhnSpans(s: bytes) returns (spans: seq<Span>)
    ensures forall lo: nat, hi: nat :: Span(lo, hi) in spans <==> Card(s, lo, hi)
    ensures Ascending(spans)
  {
    hide CardRun, RunStart, Found, DigitsOf, Valid, AllSame;
    spans := [];
    var i := 0;
    NothingFound(s);
    while i < |s|
      invariant i <= |s| && RunStart(s, i) && Found(s, i, spans)
      invariant Ascending(spans) && forall p :: p in spans ==> p.end <= i
    {
      if !Digit(s[i]) {
        SkipByte(s, i, spans);
        i := i + 1;
        continue;
      }
      var runStart := i;
      var next, last, digits := ScanRun(s, i);
      TheRun(s, runStart, next, last);
      i := next;
      OneRun(s, runStart, next, last, spans);
      if digits < MIN_DIGITS || digits > MAX_DIGITS {
        continue;
      }
      var normalized := Normalize(s, runStart, last + 1);
      var same := AllSameDigit(normalized);
      if same {
        continue;
      }
      var valid := LuhnValid(normalized);
      if !valid {
        continue;
      }
      spans := spans + [Span(runStart, last + 1)];
    }
    AllFound(s, spans);
  }

  lemma NothingFound(s: bytes)
    ensures RunStart(s, 0) && Found(s, 0, [])
  {
  }

  lemma AllFound(s: bytes, spans: seq<Span>)
    requires Found(s, |s|, spans)
    ensures forall lo: nat, hi: nat :: Span(lo, hi) in spans <==> Card(s, lo, hi)
  {
  }

  lemma SkipByte(s: bytes, i: nat, spans: seq<Span>)
    requires i < |s| && RunStart(s, i) && !Digit(s[i]) && Found(s, i, spans)
    ensures RunStart(s, i + 1) && Found(s, i + 1, spans)
  {
    forall j | 0 <= j < i + 1 && AllRun(s, j, i + 1) ensures !Digit(s[j]) {
      assert AllRun(s, j, i) && RunChar(s[i]);
    }
  }

  lemma TheRun(s: bytes, i: nat, next: nat, last: nat)
    requires i <= last < next <= |s| && RunStart(s, i) && Digit(s[i]) && Digit(s[last])
    requires AllRun(s, i, next) && (next < |s| ==> !RunChar(s[next]))
    requires forall k :: last < k < next ==> !Digit(s[k])
    ensures CardRun(s, i, last + 1) && RunStart(s, next)
    ensures forall lo: nat, hi: nat :: i <= lo < next && CardRun(s, lo, hi) ==> lo == i && hi == last + 1
  {
    forall j | last + 1 <= j < |s| && AllRun(s, last + 1, j) ensures !Digit(s[j]) {
      assert j <= next;
    }
    forall lo, hi: nat | i <= lo < next && CardRun(s, lo, hi) ensures lo == i && hi == last + 1 {
      assert i < lo ==> AllRun(s, i, lo);
      assert hi <= last ==> AllRun(s, hi, last);
      assert hi - 1 < next;
    }
  }

  lemma OneRun(s: bytes, i: nat, next: nat, last: nat, spans: seq<Span>)
    requires Found(s, i, spans) && i < next && last < |s|
    requires CardRun(s, i, last + 1)
    requires forall lo: nat, hi: nat :: i <= lo < next && CardRun(s, lo, hi) ==> lo == i && hi == last + 1
    ensures !Card(s, i, last + 1) ==> Found(s, next, spans)
    ensures Card(s, i, last + 1) ==> Found(s, next, spans + [Span(i, last + 1)])
  {
  }

  // ----------------------------------------------------------------- separators side by side

  /** 4--222222222222, a card number with two separators side by side. */
  const SPACED: bytes := [52, 45, 45] + seq(12, _ => 50)

  /** Behind `mid` there are digits only. */
  lemma {:induction false} DigitsRun(s: bytes, lo: nat, mid: nat, hi: nat)
    requires lo <= mid <= hi <= |s| && forall k :: mid <= k < hi ==> Digit(s[k])
    ensures DigitsOf(s, lo, hi) == DigitsOf(s, lo, mid) + s[mid..hi]
    decreases hi
  {
    if mid < hi {
      DigitsRun(s, lo, mid, hi - 1);
      assert s[mid..hi] == s[mid..hi - 1] + [s[hi - 1]];
    }
  }

  lemma OnePairMore(n: nat, two: int)
    requires n >= 2
    ensures n / 2 * two == two + (n - 2) / 2 * two
  {
    assert (n - 2) / 2 == n / 2 - 1;
  }

  /** Where every digit is d, the sum goes up by two terms at a time. */
  lemma {:induction false} SameSum(digits: bytes, d: byte, i: nat)
    requires AllDigits(digits) && Digit(d) && i <= |digits| && (|digits| - i) % 2 == 0
    requires forall k :: i <= k < |digits| ==> digits[k] == d
    ensures Sum(digits, i) == (|digits| - i) / 2 * (Doubled(ValueOf(d)) + ValueOf(d))
    decreases |digits| - i
  {
    if i < |digits| {
      hide Sum, Doubled;
      SameSum(digits, d, i + 2);
      SumStep(digits, i);
      SumStep(digits, i + 1);
      assert Term(digits, i) + Term(digits, i + 1) == Doubled(ValueOf(d)) + ValueOf(d);
      OnePairMore(|digits| - i, Doubled(ValueOf(d)) + ValueOf(d));
    }
  }

  /** The detector reports it, so separators need not stand alone. */
  lemma SeparatorsAdjacent()
    ensures SPACED[1] == SPACED[2] == 45 && Card(SPACED, 0, |SPACED|)
  {
    hide Sum, DigitsOf, Doubled;
    var s := SPACED;
    DigitsStep(s, 0, 0);
    DigitsStep(s, 0, 1);
    DigitsStep(s, 0, 2);
    DigitsStep(s, 0, 3);
    DigitsRun(s, 0, 3, |s|);
    var digits := DigitsOf(s, 0, |s|);
    assert s[3..|s|] == seq(12, _ => 50) && digits == [52] + seq(12, _ => 50);
    SameSum(digits, 50, 1);
    SumStep(digits, 0);
    assert Term(digits, 0) == 4 && Doubled(2) == 4 by { TwoTerms(digits); }
    assert digits[1] != digits[0];
  }

  lemma SumStep(digits: bytes, i: nat)
    requires AllDigits(digits) && i < |digits|
    ensures Sum(digits, i) == Term(digits, i) + Sum(digits, i + 1)
  {
  }

  lemma TwoTerms(digits: bytes)
    requires AllDigits(digits) && |digits| == 13 && digits[0] == 52
    ensures Term(digits, 0) == 4 && Doubled(2) == 4
  {
  }

  // ------------------------------------------------------------------- any separators between

  /** Blanks and hyphens. */
  predicate Gap(s: bytes) {
    forall i :: 0 <= i < |s| ==> s[i] == 32 || s[i] == 45
  }

  /** Digits with a gap in front of each but the first. */
  function Interspersed(digits: bytes, gaps: seq<bytes>): (r: bytes)
    requires |digits| == |gaps| + 1
    ensures |r| >= |digits|
    decreases |gaps|
  {
    var n := |gaps|;
    if n == 0 then digits else Interspersed(digits[..n], gaps[..n - 1]) + gaps[n - 1] + [digits[n]]
  }

  /** A byte, or no byte, at which no run of digits, blanks and hyphens goes on. */
  predicate Outside(s: bytes, i: int) {
    0 <= i < |s| ==> !(48 <= s[i] <= 57) && s[i] != 32 && s[i] != 45
  }

  lemma {:induction false} NoDigits(s: bytes, lo: nat, mid: nat, hi: nat)
    requires lo <= mid <= hi <= |s| && forall k :: mid <= k < hi ==> !Digit(s[k])
    ensures DigitsOf(s, lo, hi) == DigitsOf(s, lo, mid)
    decreases hi
  {
    if mid < hi {
      NoDigits(s, lo, mid, hi - 1);
    }
  }

  /** The digits of a stretch do not depend on where it stands. */
  lemma {:induction false} DigitsMoved(s: bytes, lo: nat, t: bytes, k: nat)
    requires lo + k <= |s| && k <= |t| && forall i :: 0 <= i < k ==> s[lo + i] == t[i]
    ensures DigitsOf(s, lo, lo + k) == DigitsOf(t, 0, k)
  {
    if k > 0 {
      DigitsMoved(s, lo, t, k - 1);
    }
  }

  lemma {:induction false} InterspersedDigits(digits: bytes, gaps: seq<bytes>)
    requires |digits| == |gaps| + 1 && AllDigits(digits) && forall g :: g in gaps ==> Gap(g)
    ensures
      var r := Interspersed(digits, gaps);
      && DigitsOf(r, 0, |r|) == digits && AllRun(r, 0, |r|) && Digit(r[0]) && Digit(r[|r| - 1])
    decreases |gaps|
  {
    hide DigitsOf;
    var n, r := |gaps|, Interspersed(digits, gaps);
    if n == 0 {
      DigitsRun(r, 0, 0, |r|);
      DigitsStep(r, 0, 0);
      assert r[0..|r|] == r;
    } else {
      var front, gap := Interspersed(digits[..n], gaps[..n - 1]), gaps[n - 1];
      assert gap in gaps && forall g :: g in gaps[..n - 1] ==> g in gaps;
      InterspersedDigits(digits[..n], gaps[..n - 1]);
      OneMoreDigit(front, gap, digits[n], digits[..n]);
      assert digits == digits[..n] + [digits[n]];
    }
  }

  lemma OneMoreDigit(front: bytes, gap: bytes, d: byte, digits: bytes)
    requires front != [] && Gap(gap) && Digit(d) && Digit(front[0])
    requires AllRun(front, 0, |front|) && DigitsOf(front, 0, |front|) == digits
    ensures
      var r := front + gap + [d];
      && DigitsOf(r, 0, |r|) == digits + [d] && AllRun(r, 0, |r|) && Digit(r[0]) && Digit(r[|r| - 1])
  {
    hide DigitsOf;
    var r := front + gap + [d];
    assert forall i :: 0 <= i < |front| ==> r[i] == front[i];
    assert forall i :: 0 <= i < |gap| ==> r[|front| + i] == gap[i];
    DigitsMoved(r, 0, front, |front|);
    GapBetween(r, |front|, gap);
    NoDigits(r, 0, |front|, |r| - 1);
    DigitsStep(r, 0, |r|);
  }

  lemma GapBetween(r: bytes, at: nat, gap: bytes)
    requires Gap(gap) && at + |gap| <= |r| && forall i :: 0 <= i < |gap| ==> r[at + i] == gap[i]
    ensures forall k :: at <= k < at + |gap| ==> RunChar(r[k]) && !Digit(r[k])
  {
    forall k | at <= k < at + |gap| ensures RunChar(r[k]) && !Digit(r[k]) {
      assert r[k] == gap[k - at];
    }
  }

  /**
   A number written with any blanks and hyphens between its digits, and with none of these and no
   digit at its sides, is reported as one span exactly when it is a valid one of 13 to 19 digits
   that are not all the same.
   */
  lemma SpacedReported(before: bytes, digits: bytes, gaps: seq<bytes>, after: bytes)
    requires |digits| == |gaps| + 1 && AllDigits(digits) && forall g :: g in gaps ==> Gap(g)
    requires Outside(before, |before| - 1) && Outside(after, 0)
    ensures
      var text, end := before + Interspersed(digits, gaps) + after, |before| + |Interspersed(digits, gaps)|;
      Card(text, |before|, end) <==>
      13 <= |digits| <= 19 && Sum(digits, 0) % 10 == 0 && exists i, j :: 0 <= i < j < |digits| && digits[i] != digits[j]
  {
    hide DigitsOf, Sum, Interspersed, Gap;
    var r, lo := Interspersed(digits, gaps), |before|;
    var text, hi := before + r + after, lo + |r|;
    InterspersedDigits(digits, gaps);
    assert forall i :: 0 <= i < |r| ==> text[lo + i] == r[i];
    DigitsMoved(text, lo, r, |r|);
    RunStands(before, r, after);
    SomeDiffer(digits);
  }

  lemma SomeDiffer(digits: bytes)
    ensures AllSame(digits) <==> !exists i, j :: 0 <= i < j < |digits| && digits[i] != digits[j]
  {
    if AllSame(digits) {
    } else {
      var i :| 0 <= i < |digits| && digits[i] != digits[0];
      assert 0 < i && digits[0] != digits[i];
    }
  }

  lemma RunStands(before: bytes, r: bytes, after: bytes)
    requires r != [] && AllRun(r, 0, |r|) && Digit(r[0]) && Digit(r[|r| - 1])
    requires Outside(before, |before| - 1) && Outside(after, 0)
    ensures CardRun(before + r + after, |before|, |before| + |r|)
  {
    var text, lo := before + r + after, |before|;
    var hi := lo + |r|;
    assert forall i :: 0 <= i < |r| ==> text[lo + i] == r[i];
    assert AllRun(text, lo, hi) by {
      forall k | lo <= k < hi ensures RunChar(text[k]) {
        assert text[k] == r[k - lo];
      }
    }
    assert lo > 0 ==> text[lo - 1] == before[lo - 1];
    assert hi < |text| ==> text[hi] == after[0];
    assert forall j :: 0 <= j < lo ==> !AllRun(text, j, lo);
    assert forall j :: hi < j < |text| ==> !AllRun(text, hi, j);
  }
}
