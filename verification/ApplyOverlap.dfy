/**
 Apply on edits that overlap. It keeps an edit unless one that it keeps starts before it, or
 at the same byte and earlier in the list, and reaches over its start.
 */
module ApplyOverlap {
  import opened Bytes
  import opened Splice
  import opened StableSort
  import opened Apply
  import opened ApplyLaws

  /** a comes before b in the stable order by start. */
  predicate Before(a: Cand, b: Cand) {
    a.win.start < b.win.start || (a.win.start == b.win.start && a.idx < b.idx)
  }

  ghost predicate Stable(cs: seq<Cand>) {
    forall i, j :: 0 <= i < j < |cs| ==> Before(cs[i], cs[j])
  }

  ghost predicate Indexed(cs: seq<Cand>) {
    forall i, j :: 0 <= i < j < |cs| ==> cs[i].idx < cs[j].idx
  }

  lemma {:induction false} InsertStable(c: Cand, cs: seq<Cand>)
    requires Stable(cs) && forall d :: d in cs ==> c.idx < d.idx
    ensures Stable(Insert(BY_START, c, cs))
  {
    if cs != [] && c.win.start > cs[0].win.start {
      InsertStable(c, cs[1..]);
      InsertMultiset(BY_START, c, cs[1..]);
      var r := Insert(BY_START, c, cs[1..]);
      forall i | 0 <= i < |r| ensures Before(cs[0], r[i]) {
        assert r[i] in multiset(r);
        assert r[i] == c || r[i] in cs[1..];
      }
    }
  }

  lemma {:induction false} SortStable(cs: seq<Cand>)
    requires Indexed(cs)
    ensures Stable(Sort(BY_START, cs)) && forall c :: c in Sort(BY_START, cs) <==> c in cs
  {
    Sorting(cs);
    if cs != [] {
      SortStable(cs[1..]);
      Sorting(cs[1..]);
      InsertStable(cs[0], Sort(BY_START, cs[1..]));
    }
  }

  lemma {:induction false} CandidatesIndexed(body: bytes, edits: seq<Edit>, i: nat)
    requires i <= |edits|
    ensures Indexed(Candidates(body, edits, i))
    decreases |edits| - i
  {
    hide EditWindow;
    if i < |edits| {
      CandidatesIndexed(body, edits, i + 1);
      CandidatesStep(body, edits, i);
    }
  }

  /** A candidate that is kept covers the start of c. */
  ghost predicate CoveredCand(cs: seq<Cand>, ws: seq<Window>, c: Cand) {
    exists r :: r in cs && r.win in ws && Before(r, c) && c.win.start < r.win.end
  }

  ghost predicate Here(cs: seq<Cand>, w: Window) {
    cs != [] && exists c :: c in cs && c.win == w
  }

  ghost predicate Accounted(cs: seq<Cand>, ws: seq<Window>, lastEnd: nat) {
    && (forall w :: w in ws ==> Here(cs, w))
    && (forall c :: c in cs ==> c.win in ws || c.win.start < lastEnd || CoveredCand(cs, ws, c))
  }

  lemma HeadIsFirst(cs: seq<Cand>, lastEnd: nat, ws: seq<Window>, limit: nat)
    requires cs != [] && Stable(cs) && Ordered(ws, lastEnd, limit) && Accounted(cs, ws, lastEnd)
    requires (forall w :: w in ws ==> w.start < w.end) && lastEnd <= cs[0].win.start
    ensures ws != [] && ws[0] == cs[0].win
  {
    var c := cs[0];
    forall r | r in cs ensures !Before(r, c) {
      assert r == c || Before(c, r);
    }
    assert c.win in ws && ws[0] in ws;
    var d :| d in cs && d.win == ws[0];
    assert d == c || Before(c, d);
    var j :| 0 <= j < |ws| && ws[j] == c.win;
  }

  lemma AccountedDrop(cs: seq<Cand>, lastEnd: nat, ws: seq<Window>, limit: nat)
    requires cs != [] && Ordered(ws, lastEnd, limit) && Accounted(cs, ws, lastEnd)
    requires cs[0].win.start < lastEnd
    ensures Accounted(cs[1..], ws, lastEnd)
  {
    var c := cs[0];
    assert c.win !in ws;
    forall w | w in ws ensures Here(cs[1..], w) {
      var d :| d in cs && d.win == w;
      assert d in cs[1..];
    }
    forall d | d in cs[1..] && d.win !in ws && d.win.start >= lastEnd ensures CoveredCand(cs[1..], ws, d) {
      assert d in cs;
      var r :| r in cs && r.win in ws && Before(r, d) && d.win.start < r.win.end;
      assert r in cs[1..];
    }
  }

  lemma AccountedKeep(cs: seq<Cand>, lastEnd: nat, ws: seq<Window>, limit: nat)
    requires cs != [] && Ordered(ws, lastEnd, limit) && Accounted(cs, ws, lastEnd)
    requires (forall w :: w in ws ==> w.start < w.end) && ws != [] && ws[0] == cs[0].win
    ensures Accounted(cs[1..], ws[1..], ws[0].end)
  {
    var c := cs[0];
    forall w | w in ws[1..] ensures Here(cs[1..], w) {
      assert w in ws && ws[0] in ws;
      var d :| d in cs && d.win == w;
      assert d in cs[1..];
    }
    forall d | d in cs[1..] && d.win !in ws[1..] && d.win.start >= ws[0].end
      ensures CoveredCand(cs[1..], ws[1..], d)
    {
      assert d in cs && ws[0] in ws;
      assert d.win !in ws;
      var r :| r in cs && r.win in ws && Before(r, d) && d.win.start < r.win.end;
      assert r.win != ws[0];
      assert r in cs[1..] && r.win in ws[1..];
    }
  }

  lemma {:induction false} KeepCovered(cs: seq<Cand>, lastEnd: nat, ws: seq<Window>, limit: nat)
    requires Stable(cs) && Ordered(ws, lastEnd, limit) && Accounted(cs, ws, lastEnd)
    requires forall w :: w in ws ==> w.start < w.end
    ensures Wins(Keep(cs, lastEnd)) == ws
    decreases |cs|
  {
    hide Accounted, Ordered, Before;
    if cs == [] {
      assert ws == [] by { NothingAccounted(ws, lastEnd); }
    } else if cs[0].win.start < lastEnd {
      AccountedDrop(cs, lastEnd, ws, limit);
      KeepCovered(cs[1..], lastEnd, ws, limit);
    } else {
      HeadIsFirst(cs, lastEnd, ws, limit);
      AccountedKeep(cs, lastEnd, ws, limit);
      OrderedTail(ws, lastEnd, limit);
      KeepCovered(cs[1..], ws[0].end, ws[1..], limit);
      WinsCons(cs[0], Keep(cs[1..], cs[0].win.end));
    }
  }

  lemma Inhabited<T>(s: seq<T>)
    ensures s != [] ==> exists x :: x in s
  {
    if s != [] {
      assert s[0] in s;
    }
  }

  lemma NothingAccounted(ws: seq<Window>, lastEnd: nat)
    requires Accounted([], ws, lastEnd)
    ensures ws == []
  {
    Inhabited(ws);
  }

  // ------------------------------------------------------------------------- on edits

  /** Edit i of the list is located at w. */
  ghost predicate WindowAt(body: bytes, edits: seq<Edit>, i: nat, w: Window) {
    i < |edits| && EditWindow(body, edits[i]) == Some(w)
  }

  /** And it changes bytes there. */
  ghost predicate ChangesAt(body: bytes, edits: seq<Edit>, i: nat, w: Window) {
    WindowAt(body, edits, i, w) && Changes(body, w)
  }

  /** Edit i at w starts inside a kept edit that comes before it. */
  ghost predicate Covered(body: bytes, edits: seq<Edit>, ws: seq<Window>, i: nat, w: Window) {
    exists k: nat, r ::
      && ChangesAt(body, edits, k, r) && r in ws
      && (r.start < w.start || (r.start == w.start && k < i)) && w.start < r.end
  }

  /** The windows ws account for all edits that change bytes: such an edit is one of them or covered by one. */
  ghost predicate Settled(body: bytes, edits: seq<Edit>, ws: seq<Window>) {
    && (forall w :: w in ws ==> exists i: nat :: WindowAt(body, edits, i, w))
    && (forall i: nat, w :: ChangesAt(body, edits, i, w) ==> w in ws || Covered(body, edits, ws, i, w))
  }

  lemma CandIs(body: bytes, edits: seq<Edit>, i: nat, w: Window)
    ensures Cand(i, w) in Candidates(body, edits, 0) <==> ChangesAt(body, edits, i, w)
  {
    hide EditWindow;
  }

  /** Apply replaces exactly the windows that account for its edits. */
  lemma ApplySettled(body: bytes, edits: seq<Edit>, ws: seq<Window>)
    requires Ordered(ws, 0, |body|) && ApplyLaws.Sized(body, ws) && Settled(body, edits, ws)
    ensures Applied(body, edits) == Splices(body, ws, 0)
  {
    hide EditWindow, Candidates, OnlyChanges, Sort, Keep, Splices, Ordered, Changes;
    var cs, changes := Candidates(body, edits, 0), OnlyChanges(body, ws);
    OnlyChangesOrdered(body, ws, 0);
    CandidatesIndexed(body, edits, 0);
    SortStable(cs);
    SettledAccounted(body, edits, ws);
    KeepCovered(Sort(BY_START, cs), 0, changes, |body|);
  }

  lemma {:induction false} OnlyChangesAre(body: bytes, ws: seq<Window>)
    requires ApplyLaws.Sized(body, ws)
    ensures forall w :: w in OnlyChanges(body, ws) <==> w in ws && Changes(body, w)
  {
    hide Changes, OnlyChanges;
    OnlyChangesStep(body, ws);
    if ws != [] {
      OnlyChangesAre(body, ws[1..]);
    }
  }

  lemma SettledAccounted(body: bytes, edits: seq<Edit>, ws: seq<Window>)
    requires ApplyLaws.Sized(body, ws) && Settled(body, edits, ws)
    requires forall c :: c in Sort(BY_START, Candidates(body, edits, 0)) <==> c in Candidates(body, edits, 0)
    ensures Accounted(Sort(BY_START, Candidates(body, edits, 0)), OnlyChanges(body, ws), 0)
  {
    hide EditWindow, Candidates, OnlyChanges, Sort, Changes;
    var cs, sorted, changes := Candidates(body, edits, 0), Sort(BY_START, Candidates(body, edits, 0)),
      OnlyChanges(body, ws);
    OnlyChangesAre(body, ws);
    forall w | w in changes ensures Here(sorted, w) {
      var i: nat :| WindowAt(body, edits, i, w);
      CandIs(body, edits, i, w);
      assert Cand(i, w) in sorted;
    }
    forall c | c in sorted && c.win !in changes ensures CoveredCand(sorted, changes, c) {
      assert c == Cand(c.idx, c.win);
      CandIs(body, edits, c.idx, c.win);
      var k: nat, r :|
        && ChangesAt(body, edits, k, r) && r in ws
        && (r.start < c.win.start || (r.start == c.win.start && k < c.idx)) && c.win.start < r.end;
      CandIs(body, edits, k, r);
      assert Cand(k, r) in sorted && Before(Cand(k, r), c);
    }
  }

  // ---------------------------------------------------------------------- one edit more

  lemma WindowAtSnoc(body: bytes, edits: seq<Edit>, e: Edit, i: nat, w: Window)
    ensures WindowAt(body, edits + [e], i, w) <==>
            WindowAt(body, edits, i, w) || (i == |edits| && EditWindow(body, e) == Some(w))
    ensures ChangesAt(body, edits, i, w) <==> i < |edits| && ChangesAt(body, edits + [e], i, w)
  {
    hide EditWindow, Changes;
  }

  lemma CoveredSnoc(body: bytes, edits: seq<Edit>, e: Edit, ws: seq<Window>, more: seq<Window>, i: nat, w: Window)
    requires Covered(body, edits, ws, i, w) && forall r :: r in ws ==> r in more
    ensures Covered(body, edits + [e], more, i, w)
  {
    hide EditWindow, Changes;
    var k: nat, r :|
      && ChangesAt(body, edits, k, r) && r in ws
      && (r.start < w.start || (r.start == w.start && k < i)) && w.start < r.end;
    WindowAtSnoc(body, edits, e, k, r);
  }

  /** An edit behind the others that is applied, too, or that is not located. */
  lemma SettledSnoc(body: bytes, edits: seq<Edit>, e: Edit, ws: seq<Window>, more: seq<Window>)
    requires Settled(body, edits, ws)
    requires forall w :: w in more <==> w in ws || EditWindow(body, e) == Some(w)
    ensures Settled(body, edits + [e], more)
  {
    hide EditWindow, Covered, ChangesAt;
    var all := edits + [e];
    forall w | w in more ensures exists i: nat :: WindowAt(body, all, i, w) {
      WindowAtSnoc(body, edits, e, |edits|, w);
      if w in ws {
        var i: nat :| WindowAt(body, edits, i, w);
        WindowAtSnoc(body, edits, e, i, w);
      }
    }
    forall i: nat, w | ChangesAt(body, all, i, w) ensures w in more || Covered(body, all, more, i, w) {
      WindowAtSnoc(body, edits, e, i, w);
      assert WindowAt(body, all, i, w) by { ChangesIsAt(body, all, i, w); }
      if w !in more {
        CoveredSnoc(body, edits, e, ws, more, i, w);
      }
    }
  }

  /** An edit behind the others whose start a kept one covers. */
  lemma SettledDropped(body: bytes, edits: seq<Edit>, e: Edit, ws: seq<Window>, r: Window)
    requires Settled(body, edits, ws) && r in ws && r.start < r.end <= |body| && Changes(body, r)
    requires EditWindow(body, e).Some? && r.start <= EditWindow(body, e).value.start < r.end
    ensures Settled(body, edits + [e], ws)
  {
    hide EditWindow, Changes, Covered;
    var all := edits + [e];
    forall w | w in ws ensures exists i: nat :: WindowAt(body, all, i, w) {
      var i: nat :| WindowAt(body, edits, i, w);
      WindowAtSnoc(body, edits, e, i, w);
    }
    var k: nat :| WindowAt(body, edits, k, r);
    WindowAtSnoc(body, edits, e, k, r);
    forall i: nat, w | ChangesAt(body, all, i, w) ensures w in ws || Covered(body, all, ws, i, w) {
      WindowAtSnoc(body, edits, e, i, w);
      if i < |edits| {
        if w !in ws {
          CoveredSnoc(body, edits, e, ws, ws, i, w);
        }
      } else {
        CoveredBy(body, all, ws, k, r, i, w);
      }
    }
  }

  lemma CoveredBy(body: bytes, edits: seq<Edit>, ws: seq<Window>, k: nat, r: Window, i: nat, w: Window)
    requires ChangesAt(body, edits, k, r) && r in ws
    requires (r.start < w.start || (r.start == w.start && k < i)) && w.start < r.end
    ensures Covered(body, edits, ws, i, w)
  {
    hide EditWindow, Changes;
  }

  /** An edit behind the others that is applied, and takes the place of those that start inside it. */
  lemma SettledCut(body: bytes, edits: seq<Edit>, e: Edit, d: Window, ws: seq<Window>, more: seq<Window>)
    requires Settled(body, edits, ws) && EditWindow(body, e) == Some(d) && d.end <= |body| && Changes(body, d)
    requires d in more && forall w :: w in more ==> w in ws || w == d
    requires forall w :: w in ws && w !in more ==> d.start < w.start < w.end <= d.end
    ensures Settled(body, edits + [e], more)
  {
    hide EditWindow, Changes, Covered;
    var all := edits + [e];
    forall w | w in more ensures exists i: nat :: WindowAt(body, all, i, w) {
      WindowAtSnoc(body, edits, e, |edits|, w);
      if w in ws {
        var i: nat :| WindowAt(body, edits, i, w);
        WindowAtSnoc(body, edits, e, i, w);
      }
    }
    WindowAtSnoc(body, edits, e, |edits|, d);
    forall i: nat, w | ChangesAt(body, all, i, w) ensures w in more || Covered(body, all, more, i, w) {
      WindowAtSnoc(body, edits, e, i, w);
      if i < |edits| && w !in more {
        if w in ws {
          CoveredBy(body, all, more, |edits|, d, i, w);
        } else {
          StillCovered(body, edits, e, d, ws, more, i, w);
        }
      }
    }
  }

  lemma StillCovered(
    body: bytes, edits: seq<Edit>, e: Edit, d: Window, ws: seq<Window>, more: seq<Window>, i: nat, w: Window)
    requires EditWindow(body, e) == Some(d) && d.end <= |body| && Changes(body, d) && d in more
    requires forall r :: r in ws && r !in more ==> d.start < r.start < r.end <= d.end
    requires Covered(body, edits, ws, i, w)
    ensures Covered(body, edits + [e], more, i, w)
  {
    hide EditWindow, Changes;
    var k: nat, r :|
      && ChangesAt(body, edits, k, r) && r in ws
      && (r.start < w.start || (r.start == w.start && k < i)) && w.start < r.end;
    WindowAtSnoc(body, edits, e, k, r);
    WindowAtSnoc(body, edits, e, |edits|, d);
    if r in more {
      CoveredBy(body, edits + [e], more, k, r, i, w);
    } else {
      CoveredBy(body, edits + [e], more, |edits|, d, i, w);
    }
  }

  lemma ChangesIsAt(body: bytes, edits: seq<Edit>, i: nat, w: Window)
    requires ChangesAt(body, edits, i, w)
    ensures WindowAt(body, edits, i, w)
  {
  }

  lemma {:induction false} InWindows(body: bytes, edits: seq<Edit>, w: Window)
    ensures w in Windows(body, edits) <==> exists i: nat :: WindowAt(body, edits, i, w)
  {
    hide EditWindow;
    if edits != [] {
      InWindows(body, edits[1..], w);
      if w in Windows(body, edits[1..]) {
        var i: nat :| WindowAt(body, edits[1..], i, w);
        assert WindowAt(body, edits, i + 1, w);
      }
      if i: nat :| WindowAt(body, edits, i, w) {
        assert i > 0 ==> WindowAt(body, edits[1..], i - 1, w);
      }
      assert EditWindow(body, edits[0]) == Some(w) ==> WindowAt(body, edits, 0, w);
    }
  }

  /** Edits that all are to be applied account for themselves. */
  lemma SettledSelf(body: bytes, edits: seq<Edit>)
    ensures Settled(body, edits, Windows(body, edits))
  {
    hide EditWindow, Changes, Covered, Windows;
    forall w ensures w in Windows(body, edits) <==> exists i: nat :: WindowAt(body, edits, i, w) {
      InWindows(body, edits, w);
    }
  }
}
