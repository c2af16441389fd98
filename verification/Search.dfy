/** Literal searches over a leaf value (pkg/filter/evaluate.go:155-241). */
module Search {
  import opened Bytes

  datatype Span = Span(start: int, end: int)

  predicate OccursAt(s: bytes, literal: bytes, p: int) {
    0 <= p <= p + |literal| <= |s| && s[p..p + |literal|] == literal
  }

  method Index(s: bytes, literal: bytes) returns (at: Option<nat>)
    ensures at.Some? ==> OccursAt(s, literal, at.value) && forall k :: k < at.value ==> !OccursAt(s, literal, k)
    ensures at.None? ==> forall k :: !OccursAt(s, literal, k)
  {
    var i := 0;
    while i + |literal| <= |s|
      invariant forall k :: k < i ==> !OccursAt(s, literal, k)
    {
      if s[i..i + |literal|] == literal {
        return Some(i);
      }
      i := i + 1;
    }
    return None;
  }

  /** The span lies inside one occurrence of the literal, anywhere in the value. */
  predicate Inside(value: bytes, literal: bytes, start: int, end: int) {
    literal != [] && exists p :: 0 <= p <= start && OccursAt(value, literal, p) && end <= p + |literal|
  }

  /** A literal of this length at p would contain the span, and fits into the value. */
  predicate Spanning(p: int, length: nat, start: int, end: int, size: nat) {
    0 <= p <= start && end <= p + length <= size
  }

  /** A window that holds every occurrence which could contain the span. */
  method Window(size: nat, length: nat, start: int, end: int) returns (lo: nat, hi: nat)
    requires 0 <= start <= end <= size && end - start <= length
    ensures lo <= hi <= size && hi <= start + length && hi - lo <= 2 * length
    ensures forall p :: Spanning(p, length, start, end, size) ==> lo <= p && p + length <= hi
  {
    lo := if end - length > 0 then end - length else 0;
    hi := if size < start + length then size else start + length;
  }

  lemma SliceOccurs(s: bytes, lo: nat, hi: nat, literal: bytes, p: int)
    requires lo <= hi <= |s|
    ensures OccursAt(s[lo..hi], literal, p - lo) <==> lo <= p && p + |literal| <= hi && OccursAt(s, literal, p)
  {
    if lo <= p && p + |literal| <= hi {
      var w := s[lo..hi];
      assert forall k :: p <= k < hi ==> w[k - lo] == s[k];
      assert w[p - lo..p - lo + |literal|] == s[p..p + |literal|];
    }
  }

  /** The windowed search answers for the whole value. */
  method InsideOccurrence(value: bytes, literal: bytes, start: int, end: int) returns (inside: bool)
    requires 0 <= start <= end <= |value|
    ensures inside <==> Inside(value, literal, start, end)
  {
    var length := |literal|;
    if length == 0 || length < end - start {
      return false;
    }
    var lo, hi := Window(|value|, length, start, end);
    InsideCovers(value, literal, start, end);
    if lo >= hi {
      return false;
    }
    hide OccursAt;
    var window := value[lo..hi];
    var off := 0;
    while off + length <= |window|
      invariant 0 <= off <= |window|
      invariant NoneEndsBehind(value, literal, lo, lo + off, end)
    {
      var at := Index(window[off..], literal);
      assert window[off..] == value[lo + off..hi];
      SliceIndex(value, lo + off, hi, literal, at);
      if at.None? {
        return false;
      }
      if end <= lo + off + at.value + length {
        return true;
      }
      off := off + at.value + 1;
    }
    return false;
  }

  lemma InsideCovers(value: bytes, literal: bytes, start: int, end: int)
    requires 0 <= start <= end
    ensures Inside(value, literal, start, end) <==>
            literal != [] && exists p :: OccursAt(value, literal, p) && Spanning(p, |literal|, start, end, |value|)
  {
    if Inside(value, literal, start, end) {
      var p :| 0 <= p <= start && OccursAt(value, literal, p) && end <= p + |literal|;
      assert Spanning(p, |literal|, start, end, |value|);
    }
  }

  /** No occurrence from lo up to (not at) hi reaches the end of the span. */
  ghost predicate NoneEndsBehind(value: bytes, literal: bytes, lo: int, hi: int, end: int) {
    forall p :: lo <= p < hi && OccursAt(value, literal, p) ==> p + |literal| < end
  }

  /** What an index into a slice says about the whole. */
  lemma SliceIndex(s: bytes, lo: nat, hi: nat, literal: bytes, at: Option<nat>)
    requires lo <= hi <= |s|
    requires at.Some? ==> OccursAt(s[lo..hi], literal, at.value) && forall k :: k < at.value ==>
             !OccursAt(s[lo..hi], literal, k)
    requires at.None? ==> forall k :: !OccursAt(s[lo..hi], literal, k)
    ensures at.Some? ==> OccursAt(s, literal, lo + at.value)
    ensures forall p :: lo <= p && p + |literal| <= hi && (at.Some? ==> p < lo + at.value) ==> !OccursAt(s, literal, p)
  {
    hide OccursAt;
    if at.Some? {
      SliceOccurs(s, lo, hi, literal, lo + at.value);
    }
    forall p | lo <= p && p + |literal| <= hi && (at.Some? ==> p < lo + at.value) ensures !OccursAt(s, literal, p) {
      SliceOccurs(s, lo, hi, literal, p);
    }
  }

  lemma OccursInside(value: bytes, literal: bytes)
    ensures forall p :: OccursAt(value, literal, p) ==> 0 <= p && p + |literal| <= |value|
  {
  }

  // ------------------------------------------------------------------------ all occurrences

  /** The first occurrence at or behind lo. */
  function FirstAt(s: bytes, literal: bytes, lo: nat): (r: Option<nat>)
    ensures r.Some? ==> lo <= r.value && OccursAt(s, literal, r.value)
    ensures r.Some? ==> forall k :: lo <= k < r.value ==> !OccursAt(s, literal, k)
    ensures r.None? ==> forall k :: lo <= k ==> !OccursAt(s, literal, k)
    decreases |s| - lo
  {
    if lo + |literal| > |s| then None
    else if OccursAt(s, literal, lo) then Some(lo)
    else FirstAt(s, literal, lo + 1)
  }

  /** The occurrences of a literal, leftmost first, none overlapping the one before. */
  function Occurrences(s: bytes, literal: bytes, lo: nat): seq<Span>
    requires literal != []
    decreases |s| - lo
  {
    match FirstAt(s, literal, lo)
    case None => []
    case Some(p) => [Span(p, p + |literal|)] + Occurrences(s, literal, p + |literal|)
  }

  function AllOccurrences(s: bytes, literals: seq<bytes>): seq<Span>
    requires [] !in literals
  {
    if literals == [] then [] else Occurrences(s, literals[0], 0) + AllOccurrences(s, literals[1..])
  }

  /** Spans of occurrences, in order, that meet every occurrence from lo on. */
  ghost predicate Exact(s: bytes, literal: bytes, lo: int, r: seq<Span>) {
    && (forall i :: 0 <= i < |r| ==>
      lo <= r[i].start && OccursAt(s, literal, r[i].start) && r[i].end == r[i].start + |literal|)
    && (forall i, j :: 0 <= i < j < |r| ==> r[i].end <= r[j].start)
    && (forall p :: lo <= p && OccursAt(s, literal, p) ==> Met(r, p))
  }

  ghost predicate Met(r: seq<Span>, p: int) {
    exists i :: 0 <= i < |r| && r[i].start <= p < r[i].end
  }

  lemma MetBehind(first: Span, rest: seq<Span>, p: int)
    requires Met(rest, p) || first.start <= p < first.end
    ensures Met([first] + rest, p)
  {
    var r := [first] + rest;
    assert r[0] == first;
    if Met(rest, p) {
      var i :| 0 <= i < |rest| && rest[i].start <= p < rest[i].end;
      assert r[i + 1] == rest[i];
    }
  }

  lemma {:induction false} OccurrencesExact(s: bytes, literal: bytes, lo: nat)
    requires literal != []
    ensures Exact(s, literal, lo, Occurrences(s, literal, lo))
    decreases |s| - lo
  {
    hide OccursAt, Met, FirstAt;
    match FirstAt(s, literal, lo)
    case None =>
    case Some(at) =>
      assert at + |literal| <= |s| by { OccursInside(s, literal); }
      OccurrencesExact(s, literal, at + |literal|);
      var first := Span(at, at + |literal|);
      var rest := Occurrences(s, literal, at + |literal|);
      forall p | lo <= p && OccursAt(s, literal, p) ensures Met([first] + rest, p) {
        assert p >= at;
        MetBehind(first, rest, p);
      }
  }

  lemma ExactMeets(s: bytes, literal: bytes, lo: int, r: seq<Span>, p: int)
    requires Exact(s, literal, lo, r) && lo <= p && OccursAt(s, literal, p)
    ensures Met(r, p)
  {
  }

  /** At most the first max + 1 of them. */
  function Capped(spans: seq<Span>, max: nat): seq<Span> {
    if |spans| > max then spans[..max + 1] else spans
  }

  lemma CappedEarly(a: seq<Span>, b: seq<Span>, max: nat)
    ensures |a| > max ==> Capped(a + b, max) == Capped(a, max)
  {
  }

  /** The body of keywordSpans and of blocklistSpans. */
  method LiteralSpans(hay: bytes, literals: seq<bytes>, max: nat) returns (spans: seq<Span>)
    requires [] !in literals
    ensures spans == Capped(AllOccurrences(hay, literals), max)
  {
    hide Occurrences;
    spans := [];
    var n := 0;
    assert literals[0..] == literals;
    while n < |literals|
      invariant n <= |literals| && |spans| <= max
      invariant spans + AllOccurrences(hay, literals[n..]) == AllOccurrences(hay, literals)
    {
      assert literals[n..][0] == literals[n] && literals[n..][1..] == literals[n + 1..];
      assert literals[n] in literals;
      ghost var rest := AllOccurrences(hay, literals[n + 1..]);
      Assoc(spans, Occurrences(hay, literals[n], 0), rest);
      CappedEarly(spans + Occurrences(hay, literals[n], 0), rest, max);
      spans := OneLiteral(hay, literals[n], spans, max);
      if |spans| > max {
        return;
      }
      n := n + 1;
    }
    assert spans + [] == spans;
  }

  /** Its inner loop. */
  method OneLiteral(hay: bytes, literal: bytes, before: seq<Span>, max: nat) returns (spans: seq<Span>)
    requires literal != [] && |before| <= max
    ensures spans == Capped(before + Occurrences(hay, literal, 0), max)
  {
    hide OccursAt;
    spans := before;
    ghost var all := before + Occurrences(hay, literal, 0);
    var off := 0;
    while off <= |hay| - |literal|
      invariant 0 <= off && |spans| <= max
      invariant spans + Occurrences(hay, literal, off) == all
    {
      var at := Index(hay[off..], literal);
      IndexIsFirst(hay, literal, off, at);
      if at.None? {
        break;
      }
      var start := off + at.value;
      var span := Span(start, start + |literal|);
      Assoc(spans, [span], Occurrences(hay, literal, start + |literal|));
      spans := spans + [span];
      if |spans| > max {
        assert all[..max + 1] == spans;
        return;
      }
      off := start + |literal|;
    }
    assert spans + [] == spans;
  }

  lemma IndexIsFirst(hay: bytes, literal: bytes, off: nat, at: Option<nat>)
    requires off <= |hay|
    requires at.Some? ==> OccursAt(hay[off..], literal, at.value) && forall k :: k < at.value ==>
             !OccursAt(hay[off..], literal, k)
    requires at.None? ==> forall k :: !OccursAt(hay[off..], literal, k)
    ensures FirstAt(hay, literal, off) == if at.Some? then Some(off + at.value) else None
  {
    hide FirstAt, OccursAt;
    assert hay[off..] == hay[off..|hay|];
    SliceIndex(hay, off, |hay|, literal, at);
    var first := FirstAt(hay, literal, off);
    if first.Some? {
      OccursInside(hay, literal);
    }
  }

  function FoldByte(c: byte): byte {
    if 65 <= c <= 90 then c + 32 else c
  }

  /** ASCII letters in lower case; every offset keeps its place. */
  function Fold(s: bytes): (r: bytes)
    ensures |r| == |s| && forall i :: 0 <= i < |s| ==> r[i] == FoldByte(s[i])
  {
    seq(|s|, i requires 0 <= i < |s| => FoldByte(s[i]))
  }

  method KeywordSpans(value: bytes, keywords: seq<bytes>, fold: bool, max: nat) returns (spans: seq<Span>)
    requires [] !in keywords
    ensures spans == Capped(AllOccurrences(if fold then Fold(value) else value, keywords), max)
  {
    var hay := value;
    if fold {
      hay := Fold(value);
    }
    spans := LiteralSpans(hay, keywords, max);
  }
}
