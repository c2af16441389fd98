/** Splicing a set of edits into a body (pkg/protocol/span.go:143-199). */
module Apply {
  import opened Bytes
  import opened Lens
  import opened Splice
  import opened StableSort

  /** Replace the raw bytes that spell decoded bytes [start, end) of a leaf. */
  datatype Edit = Edit(leaf: Leaf, start: int, end: int, repl: bytes)

  /** A located edit: its index among the edits and its window of the body. */
  datatype Cand = Cand(idx: nat, win: Window)

  /** The window of an edit, when it is located, not empty and inside the body. */
  function EditWindow(body: bytes, e: Edit): (w: Option<Window>)
    ensures w.Some? ==> w.value.start < w.value.end <= |body|
  {
    match LeafSpan(e.leaf, e.start, e.end)
    case None => None
    case Some(r) =>
      if r.start < 0 || r.end <= r.start || r.end > |body| then None
      else Some(Window(r.start, r.end, e.repl))
  }

  predicate Changes(body: bytes, w: Window)
    requires w.start <= w.end <= |body|
  {
    body[w.start..w.end] != w.repl
  }

  /** The located edits that change bytes, from index i on, in input order. */
  function Candidates(body: bytes, edits: seq<Edit>, i: nat): (cs: seq<Cand>)
    requires i <= |edits|
    ensures forall c :: c in cs ==>
              && i <= c.idx < |edits|
              && EditWindow(body, edits[c.idx]) == Some(c.win)
              && Changes(body, c.win)
    ensures forall k :: i <= k < |edits| && EditWindow(body, edits[k]).Some? &&
                        Changes(body, EditWindow(body, edits[k]).value) ==>
              Cand(k, EditWindow(body, edits[k]).value) in cs
    decreases |edits| - i
  {
    if i == |edits| then [] else
    var rest := Candidates(body, edits, i + 1);
    match EditWindow(body, edits[i])
    case None => rest
    case Some(w) => if Changes(body, w) then [Cand(i, w)] + rest else rest
  }

  /** The order of sort.SliceStable: by raw start. */
  const BY_START: Less<Cand> := (a: Cand, b: Cand) => a.win.start < b.win.start

  /** The candidates that start at or behind the end of the last one kept. */
  function Keep(cs: seq<Cand>, lastEnd: nat): (r: seq<Cand>)
    ensures forall c :: c in r ==> c in cs
  {
    if cs == [] then []
    else if cs[0].win.start < lastEnd then Keep(cs[1..], lastEnd)
    else [cs[0]] + Keep(cs[1..], cs[0].win.end)
  }

  function Wins(cs: seq<Cand>): (ws: seq<Window>)
    ensures |ws| == |cs|
    ensures forall i :: 0 <= i < |cs| ==> ws[i] == cs[i].win
  {
    seq(|cs|, i requires 0 <= i < |cs| => cs[i].win)
  }

  /** The edits that Apply applies. */
  function Kept(body: bytes, edits: seq<Edit>): (r: seq<Cand>)
    ensures forall c :: c in r ==> c in Candidates(body, edits, 0)
  {
    var sorted := Sort(BY_START, Candidates(body, edits, 0));
    Sorting(Candidates(body, edits, 0));
    Keep(sorted, 0)
  }

  ghost predicate Ascending(cs: seq<Cand>) {
    forall i, j :: 0 <= i < j < |cs| ==> cs[i].win.start <= cs[j].win.start
  }

  ghost predicate Sized(body: bytes, cs: seq<Cand>) {
    forall c :: c in cs ==> c.win.start < c.win.end <= |body|
  }

  lemma Sorting(cs: seq<Cand>)
    ensures Ascending(Sort(BY_START, cs)) && forall c :: c in Sort(BY_START, cs) <==> c in cs
  {
    SortSorted(BY_START, cs);
    SortMultiset(BY_START, cs);
    var r := Sort(BY_START, cs);
    assert forall i, j :: 0 <= i < j < |r| ==> !BY_START(r[j], r[i]);
    assert forall c :: c in r <==> c in multiset(r);
    assert forall c :: c in cs <==> c in multiset(cs);
  }

  lemma FirstSized(body: bytes, cs: seq<Cand>)
    requires Sized(body, cs) && cs != []
    ensures cs[0].win.start < cs[0].win.end <= |body| && Sized(body, cs[1..])
  {
    assert cs[0] in cs;
  }

  lemma WinsCons(c: Cand, r: seq<Cand>)
    ensures Wins([c] + r) == [c.win] + Wins(r)
  {
  }

  lemma {:induction false} KeepOrdered(body: bytes, cs: seq<Cand>, lastEnd: nat)
    requires Sized(body, cs) && lastEnd <= |body|
    ensures Ordered(Wins(Keep(cs, lastEnd)), lastEnd, |body|)
  {
    if cs != [] {
      hide Sized, Ordered, Wins;
      FirstSized(body, cs);
      if cs[0].win.start < lastEnd {
        KeepOrdered(body, cs[1..], lastEnd);
      } else {
        KeepOrdered(body, cs[1..], cs[0].win.end);
        var r := Keep(cs[1..], cs[0].win.end);
        WinsCons(cs[0], r);
        OrderedCons(cs[0].win, Wins(r), lastEnd, |body|);
      }
    }
  }

  predicate Overlap(a: Window, b: Window) {
    a.start < b.end && b.start < a.end
  }

  /** A candidate that was not kept overlaps one that was. */
  lemma {:induction false} DroppedOverlap(body: bytes, cs: seq<Cand>, lastEnd: nat, d: Cand)
    requires Ascending(cs) && Sized(body, cs) && d in cs
    ensures d in Keep(cs, lastEnd) || d.win.start < lastEnd
            || exists k :: k in Keep(cs, lastEnd) && Overlap(k.win, d.win)
  {
    var first := cs[0];
    if first.win.start < lastEnd {
      if d != first {
        DroppedOverlap(body, cs[1..], lastEnd, d);
      }
    } else {
      var r := Keep(cs[1..], first.win.end);
      if d != first {
        DroppedOverlap(body, cs[1..], first.win.end, d);
        if d !in r && d.win.start < first.win.end {
          assert first in Keep(cs, lastEnd) && Overlap(first.win, d.win);
        } else if d !in r {
          var k :| k in r && Overlap(k.win, d.win);
          assert k in Keep(cs, lastEnd);
        }
      }
    }
  }

  lemma KeptFacts(body: bytes, edits: seq<Edit>)
    ensures Ordered(Wins(Kept(body, edits)), 0, |body|)
  {
    Sorting(Candidates(body, edits, 0));
    KeepOrdered(body, Sort(BY_START, Candidates(body, edits, 0)), 0);
  }

  /** Every located edit that would change a byte is applied or overlaps an applied one. */
  lemma DroppedEditsOverlap(body: bytes, edits: seq<Edit>, i: nat)
    requires i < |edits| && EditWindow(body, edits[i]).Some?
    requires Changes(body, EditWindow(body, edits[i]).value)
    ensures
      exists k ::
        && k in Kept(body, edits)
        && (k.idx == i || Overlap(k.win, EditWindow(body, edits[i]).value))
  {
    var cs := Candidates(body, edits, 0);
    var d := Cand(i, EditWindow(body, edits[i]).value);
    Sorting(cs);
    DroppedOverlap(body, Sort(BY_START, cs), 0, d);
  }

  /** The result of Apply: the body with the kept windows replaced. */
  ghost function Applied(body: bytes, edits: seq<Edit>): bytes {
    KeptFacts(body, edits);
    Splices(body, Wins(Kept(body, edits)), 0)
  }

  method ApplyEdits(body: bytes, edits: seq<Edit>) returns (out: bytes, idx: seq<nat>)
    ensures out == Applied(body, edits)
    ensures |idx| == |Kept(body, edits)|
    ensures forall k :: 0 <= k < |idx| ==> idx[k] == Kept(body, edits)[k].idx
  {
    hide Candidates, Splices, Ordered, Keep, Sort;
    var cands := Collect(body, edits);
    cands := Sort(BY_START, cands);
    var kept := KeepLoop(cands);
    KeptFacts(body, edits);
    idx := seq(|kept|, k requires 0 <= k < |kept| => kept[k].idx);
    out := SpliceRightToLeft(body, Wins(kept));
  }

  /** The loop of Apply that locates the edits. */
  method Collect(body: bytes, edits: seq<Edit>) returns (cands: seq<Cand>)
    ensures cands == Candidates(body, edits, 0)
  {
    hide LeafSpan;
    cands := [];
    var i := 0;
    while i < |edits|
      invariant i <= |edits|
      invariant cands + Candidates(body, edits, i) == Candidates(body, edits, 0)
    {
      ghost var rest := Candidates(body, edits, i + 1);
      var span := LeafRawSpan(edits[i].leaf, edits[i].start, edits[i].end);
      if span.Some? && span.value.start >= 0 && span.value.end > span.value.start && span.value.end <= |body| {
        var w := Window(span.value.start, span.value.end, edits[i].repl);
        if Changes(body, w) {
          Assoc(cands, [Cand(i, w)], rest);
          cands := cands + [Cand(i, w)];
        }
      }
      i := i + 1;
    }
  }

  method KeepLoop(cands: seq<Cand>) returns (kept: seq<Cand>)
    ensures kept == Keep(cands, 0)
  {
    kept := [];
    var lastEnd := 0;
    var j := 0;
    assert cands[0..] == cands;
    while j < |cands|
      invariant j <= |cands|
      invariant kept + Keep(cands[j..], lastEnd) == Keep(cands, 0)
    {
      var c := cands[j];
      assert cands[j..][1..] == cands[j + 1..];
      if c.win.start >= lastEnd {
        Assoc(kept, [c], Keep(cands[j + 1..], c.win.end));
        kept := kept + [c];
        lastEnd := c.win.end;
      }
      j := j + 1;
    }
  }

  /** The closing loop of Apply: the windows are spliced from the last to the first. */
  method SpliceRightToLeft(body: bytes, ws: seq<Window>) returns (out: bytes)
    requires Ordered(ws, 0, |body|)
    ensures out == Splices(body, ws, 0)
  {
    hide Splices;
    out := body;
    var i := |ws|;
    RightStart(body, ws);
    while i > 0
      invariant 0 <= i <= |ws|
      invariant RightDone(body, ws, i, out)
    {
      i := i - 1;
      var w := ws[i];
      RightStep(body, ws, i, out);
      out := out[..w.start] + w.repl + out[w.end..];
    }
    assert ws[0..] == ws && out[0..] == out;
  }

  /** Where the windows from i on may start. */
  function Floor(ws: seq<Window>, i: nat): nat
    requires i <= |ws|
  {
    if i == 0 then 0 else ws[i - 1].end
  }

  lemma FloorOrdered(ws: seq<Window>, i: nat, limit: nat)
    requires Ordered(ws, 0, limit) && i <= |ws|
    ensures Ordered(ws[i..], Floor(ws, i), limit)
  {
  }

  /** The windows from i on are spliced, and the text before them is untouched. */
  ghost predicate RightDone(body: bytes, ws: seq<Window>, i: nat, out: bytes)
    requires Ordered(ws, 0, |body|) && i <= |ws|
  {
    FloorOrdered(ws, i, |body|);
    var from := Floor(ws, i);
    from <= |out| && out[..from] == body[..from] && out[from..] == Splices(body, ws[i..], from)
  }

  lemma RightStart(body: bytes, ws: seq<Window>)
    requires Ordered(ws, 0, |body|)
    ensures RightDone(body, ws, |ws|, body)
  {
    FloorOrdered(ws, |ws|, |body|);
    assert ws[|ws|..] == [];
    SplicesEmpty(body, Floor(ws, |ws|));
  }

  lemma RightStep(body: bytes, ws: seq<Window>, i: nat, out: bytes)
    requires Ordered(ws, 0, |body|) && i < |ws| && RightDone(body, ws, i + 1, out)
    ensures ws[i].start <= ws[i].end <= |out|
    ensures RightDone(body, ws, i, out[..ws[i].start] + ws[i].repl + out[ws[i].end..])
  {
    hide Splices;
    var w, from := ws[i], Floor(ws, i);
    FloorOrdered(ws, i, |body|);
    FloorOrdered(ws, i + 1, |body|);
    assert ws[i..][1..] == ws[i + 1..] && ws[i..][0] == w;
    SplicesUnfold(body, ws[i..], from);
    hide Ordered;
    assert out[..w.start] == out[..w.end][..w.start] == body[..w.end][..w.start] == body[..w.start];
    var out' := out[..w.start] + w.repl + out[w.end..];
    assert body[..w.start][..from] == body[..from];
    assert out'[from..] == body[from..w.start] + (w.repl + out[w.end..]);
  }
}
