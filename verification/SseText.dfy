/**
 The restores inside a leaf value: the edits that the scan of the leaf yields are the
 leftmost batch rewrite of its text, and they can be applied together.
 */
module SseText {
  import opened Bytes
  import opened Utf8
  import opened Lens
  import opened LensPut
  import opened Splice
  import opened TreeApply
  import opened Placeholder
  import opened PlaceholderLaws
  import opened Holdback
  import opened HoldbackPlaceholder
  import opened Reassembly

  /** What the session restores a token to is text. */
  ghost predicate Secretful(env: Env) {
    forall t :: env.restore(t) != t ==> IsSecret(env.restore(t))
  }

  ghost predicate IsSecret(x: bytes) {
    x != [] && Utf8.Valid(x)
  }

  /** The secret of a complete placeholder whose last k bytes are the first k bytes of v. */
  ghost predicate Completed(env: Env, v: bytes, k: int, secret: bytes) {
    && 0 < k <= |v| && v[k - 1] == US && IsSecret(secret)
    && exists carry ::
         TokenLen(carry + v[..k]) == |carry| + k && secret == env.restore(carry + v[..k]) != carry + v[..k]
  }

  lemma CompletedFacts(env: Env, v: bytes, k: int, secret: bytes)
    requires Completed(env, v, k, secret)
    ensures 0 < k <= |v| && v[k - 1] == US && IsSecret(secret)
  {
  }

  function Restorer(env: Env): Rewrite {
    (token: bytes) => Some(env.restore(token))
  }

  /** A text with every placeholder restored: the leftmost batch rewrite. */
  function Restored(env: Env, v: bytes): bytes {
    Batch(MATCHER, Restorer(env), v)
  }

  /** The windows that the scan of a leaf value restores, from offset i on. */
  function ScanWins(env: Env, v: bytes, i: nat): seq<Window>
    decreases |v| - i
  {
    if i >= |v| then [] else
    var n := TokenLen(v[i..]);
    if n == 0 then ScanWins(env, v, i + 1) else
    var token := v[i..i + n];
    (if env.restore(token) != token then [Window(i, i + n, env.restore(token))] else [])
    + ScanWins(env, v, i + n)
  }

  lemma ScanWinsStep(env: Env, v: bytes, i: nat)
    requires i < |v|
    ensures TokenLen(v[i..]) == 0 ==> ScanWins(env, v, i) == ScanWins(env, v, i + 1)
    ensures TokenLen(v[i..]) > 0 ==>
              var n := TokenLen(v[i..]);
              var token := v[i..i + n];
              var rest := ScanWins(env, v, i + n);
              ScanWins(env, v, i) ==
              if env.restore(token) != token then [Window(i, i + n, env.restore(token))] + rest else rest
  {
    hide TokenLen;
  }

  lemma {:induction false} ScanIsEdits(env: Env, l: Leaf, i: nat)
    ensures LeafScan(env, l, i) == LeafEdits(l, ScanWins(env, l.value, i))
    decreases |l.value| - i
  {
    hide TokenLen, RawSpelling, LeafScan, LeafEdits;
    LeafScanStep(env, l, i);
    if i < |l.value| {
      hide ScanWins;
      ScanWinsStep(env, l.value, i);
      var n := TokenLen(l.value[i..]);
      ScanIsEdits(env, l, if n == 0 then i + 1 else i + n);
      if n > 0 {
        var w := Window(i, i + n, env.restore(l.value[i..i + n]));
        LeafEditsAppend(l, [w], ScanWins(env, l.value, i + n));
        OneEdit(l, w);
      }
    }
  }

  lemma {:induction false} ScanChanges(env: Env, v: bytes, i: nat)
    ensures forall w :: w in ScanWins(env, v, i) ==> w.start < w.end <= |v| && w.repl != v[w.start..w.end]
    decreases |v| - i
  {
    hide TokenLen;
    if i < |v| {
      var n := TokenLen(v[i..]);
      ScanChanges(env, v, if n == 0 then i + 1 else i + n);
    }
  }

  lemma WindowInFront(v: bytes, w: Window, rest: seq<Window>)
    requires w.start <= w.end && Ordered(rest, w.end, |v|)
    ensures Ordered([w] + rest, w.start, |v|)
    ensures Splices(v, [w] + rest, w.start) == w.repl + Splices(v, rest, w.end)
  {
    hide Splices;
    OrderedCons(w, rest, w.start, |v|);
    assert ([w] + rest)[1..] == rest;
    SplicesUnfold(v, [w] + rest, w.start);
    assert v[w.start..w.start] == [];
  }

  /** The scan's windows, replaced, give the restored text. */
  lemma {:induction false} ScanRestores(env: Env, v: bytes, i: nat)
    requires i <= |v|
    ensures Ordered(ScanWins(env, v, i), i, |v|)
    ensures Splices(v, ScanWins(env, v, i), i) == Restored(env, v[i..])
    decreases |v| - i
  {
    hide TokenLen, Splices, Ordered, Batch;
    if i == |v| {
      NothingToScan(v);
      assert Batch(MATCHER, Restorer(env), v[i..]) == [] by { BatchOfNothing(Restorer(env)); }
    } else {
      var n := TokenLen(v[i..]);
      var k := if n == 0 then 1 else n;
      ScanRestores(env, v, i + k);
      BatchUnfold(MATCHER, Restorer(env), v[i..]);
      assert v[i..][k..] == v[i + k..] && v[i..][..k] == v[i..i + k];
      var rest := ScanWins(env, v, i + k);
      if n > 0 && env.restore(v[i..i + n]) != v[i..i + n] {
        WindowInFront(v, Window(i, i + n, env.restore(v[i..i + n])), rest);
      } else {
        assert [] + rest == rest;
        SplicesFront(v, rest, i, i + k);
      }
    }
  }

  lemma BatchOfNothing(f: Rewrite)
    ensures Batch(MATCHER, f, []) == []
  {
  }

  lemma NothingToScan(v: bytes)
    ensures Ordered([], |v|, |v|) && Splices(v, [], |v|) == []
    ensures v[|v|..] == []
  {
  }

  // --------------------------------------------------------------- runes and the scan's cuts

  /** Behind an ASCII byte no rune is cut. */
  lemma {:induction false} AsciiEnds(v: bytes, e: nat)
    requires Utf8.Valid(v) && 0 < e <= |v| && v[e - 1] < 0x80
    ensures Aligned(v, e)
    decreases |v|
  {
    hide RuneSize;
    var k := RuneSize(v);
    var rest := v[k..];
    if e <= k {
      assert rest != [] ==> rest[0] == v[k] && RuneSize(rest) > 0;
    } else {
      assert rest[e - k - 1] == v[e - 1];
      AsciiEnds(rest, e - k);
      assert e < |v| ==> rest[e - k] == v[e];
    }
  }

  lemma MatchCuts(v: bytes, i: nat)
    requires Utf8.Valid(v) && i <= |v| && TokenLen(v[i..]) > 0
    ensures Aligned(v, i) && Aligned(v, i + TokenLen(v[i..]))
  {
    hide TokenLen;
    var p, n := v[i..], TokenLen(v[i..]);
    TokenStarts(p);
    TokenEndsClosed(p);
    assert p[0] == v[i] && p[n - 1] == v[i + n - 1];
    AsciiEnds(v, i + n);
  }

  ghost predicate Behind(ws: seq<Window>, v: bytes, i: nat) {
    forall w :: w in ws ==> i <= w.start < w.end <= |v| && w.repl != []
  }

  lemma EditsCons(v: bytes, w: Window, rest: seq<Window>)
    requires Edits(v, rest) && Behind(rest, v, w.end) && Editable(v, w) && w.repl != []
    ensures Edits(v, [w] + rest) && Behind([w] + rest, v, w.start)
  {
    hide Aligned, Utf8.Valid;
    assert forall j :: 0 <= j < |rest| ==> rest[j] in rest;
  }

  /** The scan's windows can be edited together. */
  lemma {:induction false} ScanEdits(env: Env, v: bytes, i: nat)
    requires Secretful(env) && Utf8.Valid(v) && i <= |v|
    ensures Edits(v, ScanWins(env, v, i)) && Behind(ScanWins(env, v, i), v, i)
    decreases |v| - i
  {
    hide TokenLen, Utf8.Valid, Aligned, Edits, Behind;
    if i == |v| {
      NoEditsAt(v, i);
    } else {
      var n := TokenLen(v[i..]);
      var k := if n == 0 then 1 else n;
      ScanEdits(env, v, i + k);
      var rest := ScanWins(env, v, i + k);
      BehindLess(rest, v, i + k, i);
      assert [] + rest == rest;
      if n > 0 && env.restore(v[i..i + n]) != v[i..i + n] {
        MatchCuts(v, i);
        assert IsSecret(env.restore(v[i..i + n]));
        EditsCons(v, Window(i, i + n, env.restore(v[i..i + n])), rest);
      }
    }
  }

  lemma NoEditsAt(v: bytes, i: nat)
    ensures Edits(v, []) && Behind([], v, i)
  {
  }

  lemma BehindLess(ws: seq<Window>, v: bytes, i: nat, j: nat)
    requires Behind(ws, v, i) && j <= i
    ensures Behind(ws, v, j)
  {
  }

  /** No placeholder starts below k. */
  ghost predicate ClearBelow(v: bytes, k: nat)
    requires k <= |v|
  {
    forall j {:trigger v[j..]} :: 0 <= j < k ==> TokenLen(v[j..]) == 0
  }

  lemma {:induction false} ScanSkips(env: Env, v: bytes, i: nat, k: nat)
    requires i <= k <= |v| && ClearBelow(v, k)
    ensures ScanWins(env, v, i) == ScanWins(env, v, k)
    decreases k - i
  {
    hide TokenLen;
    if i < k {
      assert TokenLen(v[i..]) == 0;
      ScanSkips(env, v, i + 1, k);
    }
  }

  /** Every placeholder the scan finds from i on ends at or before s. */
  predicate ScanEnds(v: bytes, i: nat, s: nat)
    decreases |v| - i
  {
    i >= |v| ||
    var n := TokenLen(v[i..]);
    if n == 0 then ScanEnds(v, i + 1, s) else i + n <= s && ScanEnds(v, i + n, s)
  }

  lemma {:induction false} EndsBelow(env: Env, v: bytes, i: nat, s: nat)
    requires ScanEnds(v, i, s)
    ensures forall w :: w in ScanWins(env, v, i) ==> w.end <= s
    decreases |v| - i
  {
    hide TokenLen;
    if i < |v| {
      var n := TokenLen(v[i..]);
      EndsBelow(env, v, if n == 0 then i + 1 else i + n, s);
    }
  }

  lemma {:induction false} ClearEnds(v: bytes, i: nat, s: nat)
    requires ClearBelow(v, |v|)
    ensures ScanEnds(v, i, s)
    decreases |v| - i
  {
    hide TokenLen;
    if i < |v| {
      assert TokenLen(v[i..]) == 0;
      ClearEnds(v, i + 1, s);
    }
  }

  // ------------------------------------------------------------- one more window on a leaf

  /** The windows that start at or behind k. */
  function From(ws: seq<Window>, k: nat): seq<Window> {
    if ws == [] || ws[0].start >= k then ws else From(ws[1..], k)
  }

  lemma {:induction false} FromIsTail(ws: seq<Window>, k: nat) returns (i: nat)
    ensures i <= |ws| && From(ws, k) == ws[i..]
    ensures (forall m :: 0 <= m < i ==> ws[m].start < k) && (i < |ws| ==> ws[i].start >= k)
  {
    if ws == [] || ws[0].start >= k {
      i := 0;
    } else {
      var n := FromIsTail(ws[1..], k);
      i := n + 1;
    }
  }

  lemma FromOrdered(ws: seq<Window>, k: nat, limit: nat)
    requires Ordered(ws, 0, limit) && k <= limit && forall w :: w in ws ==> w.start < w.end
    ensures Ordered(From(ws, k), k, limit)
    ensures forall w :: w in From(ws, k) <==> w in ws && w.start >= k
  {
    var i := FromIsTail(ws, k);
    assert forall m :: 0 <= m < |ws| ==> ws[m] in ws;
    assert forall m :: i <= m < |ws| ==> ws[m].start >= k;
  }

  lemma ScanSized(env: Env, v: bytes)
    requires Secretful(env) && Utf8.Valid(v)
    ensures Ordered(ScanWins(env, v, 0), 0, |v|) && forall w :: w in ScanWins(env, v, 0) ==> w.start < w.end
  {
    hide ScanWins, Ordered, Secretful, Edits;
    ScanEdits(env, v, 0);
    ScanRestores(env, v, 0);
  }

  /** The text behind k, with the restores that start there; one that starts in front of k is not made. */
  ghost function RestFrom(env: Env, v: bytes, k: nat): bytes
    requires Secretful(env) && Utf8.Valid(v) && k <= |v|
  {
    ScanSized(env, v);
    FromOrdered(ScanWins(env, v, 0), k, |v|);
    Splices(v, From(ScanWins(env, v, 0), k), k)
  }

  /** It is the restored rest when no placeholder starts in front of k. */
  lemma RestIsRestored(env: Env, v: bytes, k: nat)
    requires Secretful(env) && Utf8.Valid(v) && k <= |v| && ClearBelow(v, k)
    ensures RestFrom(env, v, k) == Restored(env, v[k..])
    ensures forall w :: w in ScanWins(env, v, 0) ==> w.start >= k
  {
    hide TokenLen, Splices, Ordered, Restored, Utf8.Valid, ScanWins, Edits;
    ScanSkips(env, v, 0, k);
    ScanEdits(env, v, k);
    ScanRestores(env, v, k);
    var ws := ScanWins(env, v, k);
    assert ws != [] ==> ws[0] in ws;
  }

  lemma EditsSuffix(v: bytes, ws: seq<Window>, i: nat)
    requires Edits(v, ws) && Behind(ws, v, 0) && i <= |ws|
    ensures Edits(v, ws[i..]) && Behind(ws[i..], v, 0)
  {
  }

  /** The first k bytes of a leaf give way to a secret; the placeholders behind them are restored. */
  lemma HeadReplaced(env: Env, v: bytes, k: nat, secret: bytes)
    requires Secretful(env) && Utf8.Valid(v) && IsSecret(secret)
    requires 0 < k <= |v| && v[k - 1] == US
    ensures
      var ws := [Window(0, k, secret)] + From(ScanWins(env, v, 0), k);
      && Edits(v, ws) && Ordered(ws, 0, |v|)
      && Splices(v, ws, 0) == secret + RestFrom(env, v, k)
      && Behind(ws, v, 0)
  {
    hide TokenLen, Splices, Ordered, Utf8.Valid, ScanWins, Edits, Aligned;
    ScanSized(env, v);
    ScanEdits(env, v, 0);
    var i := FromIsTail(ScanWins(env, v, 0), k);
    EditsSuffix(v, ScanWins(env, v, 0), i);
    FromOrdered(ScanWins(env, v, 0), k, |v|);
    AsciiEnds(v, k);
    ValidStart(v);
    var w, rest := Window(0, k, secret), From(ScanWins(env, v, 0), k);
    EditsCons(v, w, rest);
    WindowInFront(v, w, rest);
  }

  /** The windows that start in front of k. */
  function Until(ws: seq<Window>, k: nat): seq<Window> {
    if ws == [] || ws[0].start >= k then [] else [ws[0]] + Until(ws[1..], k)
  }

  lemma {:induction false} UntilFrom(ws: seq<Window>, k: nat)
    ensures ws == Until(ws, k) + From(ws, k)
  {
    if ws != [] && ws[0].start < k {
      UntilFrom(ws[1..], k);
      assert ws == [ws[0]] + ws[1..];
    }
  }

  /** Some window reaches over k. */
  ghost predicate Straddled(ws: seq<Window>, k: nat) {
    exists w :: w in ws && w.start <= k < w.end
  }

  lemma {:induction false} UntilEnds(ws: seq<Window>, k: nat)
    requires !Straddled(ws, k)
    ensures forall w :: w in Until(ws, k) ==> w in ws && w.end <= k
  {
    if ws != [] && ws[0].start < k {
      assert ws[0] in ws && forall w :: w in ws[1..] ==> w in ws;
      UntilEnds(ws[1..], k);
    }
  }

  /** The windows behind a point nothing reaches over start there. */
  lemma {:induction false} FromEnds(ws: seq<Window>, from: nat, limit: nat, k: nat)
    requires Ordered(ws, from, limit) && k <= limit && !Straddled(ws, k)
    requires forall w :: w in ws ==> w.start < w.end
    ensures Ordered(From(ws, k), k, limit) && forall w :: w in From(ws, k) ==> w in ws && w.start > k
    decreases |ws|
  {
    if ws != [] && ws[0].start < k {
      assert forall w :: w in ws[1..] ==> w in ws;
      OrderedTail(ws, from, limit);
      FromEnds(ws[1..], ws[0].end, limit, k);
    } else {
      assert forall i :: 0 <= i < |ws| ==> ws[i] in ws;
    }
  }

  lemma CutFront(v: bytes, ws: seq<Window>, from: nat, s: nat)
    requires Ordered(ws, s, |v|) && from <= s < |v|
    ensures
      var cut := [Window(s, |v|, [])];
      Ordered(ws, from, |v|) && Ordered(cut, from, |v|)
        && Splices(v, ws, from) == Splices(v, cut, from) + Splices(v, ws, s)
  {
    hide Splices;
    SplicesFront(v, ws, from, s);
    var cut := [Window(s, |v|, [])];
    SplicesUnfold(v, cut, from);
    assert cut[1..] == [];
    SplicesEmpty(v, |v|);
    assert v[from..s] + ([] + v[|v|..]) == v[from..s];
  }

  /** The tail of a text is cut off, with the windows in it. */
  lemma {:induction false} TailCut(v: bytes, ws: seq<Window>, from: nat, s: nat)
    requires Ordered(ws, from, |v|) && from <= s < |v| && !Straddled(ws, s)
    requires forall w :: w in ws ==> w.start < w.end
    ensures
      var cut := Until(ws, s) + [Window(s, |v|, [])];
      && Ordered(cut, from, |v|) && Ordered(From(ws, s), s, |v|)
      && Splices(v, ws, from) == Splices(v, cut, from) + Splices(v, From(ws, s), s)
    decreases |ws|
  {
    hide Ordered, Splices, Straddled;
    var d := Window(s, |v|, []);
    FromEnds(ws, from, |v|, s);
    if ws == [] || ws[0].start >= s {
      assert Until(ws, s) + [d] == [d];
      CutFront(v, ws, from, s);
    } else {
      TailStep(v, ws, from, s);
      OrderedTail(ws, from, |v|);
      TailCut(v, ws[1..], ws[0].end, s);
      var rest := Until(ws[1..], s) + [d];
      assert Until(ws, s) + [d] == [ws[0]] + rest && ([ws[0]] + rest)[1..] == rest;
      OrderedCons(ws[0], rest, from, |v|);
      SplicesUnfold(v, ws, from);
      SplicesUnfold(v, [ws[0]] + rest, from);
      var tail := Splices(v, From(ws, s), s);
      Assoc(ws[0].repl, Splices(v, rest, ws[0].end), tail);
      Assoc(v[from..ws[0].start], ws[0].repl + Splices(v, rest, ws[0].end), tail);
    }
  }

  lemma TailStep(v: bytes, ws: seq<Window>, from: nat, s: nat)
    requires Ordered(ws, from, |v|) && !Straddled(ws, s) && ws != [] && ws[0].start < s
    requires forall w :: w in ws ==> w.start < w.end
    ensures ws[0].start <= ws[0].end <= s && from <= ws[0].start
    ensures !Straddled(ws[1..], s) && forall w :: w in ws[1..] ==> w.start < w.end
  {
    assert ws[0] in ws && forall w :: w in ws[1..] ==> w in ws;
  }

  lemma PrefixEdits(v: bytes, ws: seq<Window>, n: nat)
    requires Edits(v, ws) && Behind(ws, v, 0) && n <= |ws|
    ensures Edits(v, ws[..n]) && Behind(ws[..n], v, 0)
  {
    hide Editable;
    assert forall w :: w in ws[..n] ==> w in ws;
  }

  lemma UntilEdits(v: bytes, ws: seq<Window>, k: nat)
    requires Edits(v, ws) && Behind(ws, v, 0)
    ensures Edits(v, Until(ws, k)) && Behind(Until(ws, k), v, 0)
  {
    hide Edits, Behind, Until, From;
    UntilFrom(ws, k);
    PrefixEdits(v, ws, |Until(ws, k)|);
    assert ws[..|Until(ws, k)|] == Until(ws, k);
  }

  lemma TailEdits(v: bytes, ws: seq<Window>, s: nat)
    requires Edits(v, ws) && s < |v| && Aligned(v, s)
    requires Behind(ws, v, 0) && forall w :: w in ws ==> w.end <= s
    ensures Edits(v, ws + [Window(s, |v|, [])])
  {
    hide Aligned;
    var cut := ws + [Window(s, |v|, [])];
    EndAligned(v);
    assert forall i :: 0 <= i < |ws| ==> ws[i] in ws && cut[i] == ws[i];
    assert Utf8.Valid([]);
  }
}
