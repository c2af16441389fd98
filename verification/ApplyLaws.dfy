/** Apply on edits whose windows do not overlap: in any order, it is the reference splice. */
module ApplyLaws {
  import opened Bytes
  import opened Splice
  import opened StableSort
  import opened Apply

  /** All located windows, in input order. */
  function Windows(body: bytes, edits: seq<Edit>): (ws: seq<Window>)
    ensures forall w :: w in ws ==> w.start < w.end <= |body|
  {
    if edits == [] then [] else
    match EditWindow(body, edits[0])
    case None => Windows(body, edits[1..])
    case Some(w) => [w] + Windows(body, edits[1..])
  }

  lemma {:induction false} WindowsAppend(body: bytes, a: seq<Edit>, b: seq<Edit>)
    ensures Windows(body, a + b) == Windows(body, a) + Windows(body, b)
  {
    hide EditWindow;
    if a == [] {
      assert a + b == b;
    } else {
      WindowsAppend(body, a[1..], b);
      assert (a + b)[1..] == a[1..] + b && (a + b)[0] == a[0];
      match EditWindow(body, a[0])
      case None =>
      case Some(w) => Assoc([w], Windows(body, a[1..]), Windows(body, b));
    }
  }

  ghost predicate Sized(body: bytes, ws: seq<Window>) {
    forall w :: w in ws ==> w.start < w.end <= |body|
  }

  function OnlyChanges(body: bytes, ws: seq<Window>): (r: seq<Window>)
    requires forall w :: w in ws ==> w.start < w.end <= |body|
    ensures forall w :: w in r ==> w in ws && Changes(body, w)
  {
    if ws == [] then [] else
    var rest := OnlyChanges(body, ws[1..]);
    if Changes(body, ws[0]) then [ws[0]] + rest else rest
  }

  lemma OnlyChangesCons(body: bytes, w: Window, ws: seq<Window>)
    requires Sized(body, [w] + ws)
    ensures Sized(body, ws)
    ensures OnlyChanges(body, [w] + ws) ==
            if Changes(body, w) then [w] + OnlyChanges(body, ws) else OnlyChanges(body, ws)
  {
    assert ([w] + ws)[1..] == ws;
    assert forall v :: v in ws ==> v in [w] + ws;
  }

  lemma CandidatesStep(body: bytes, edits: seq<Edit>, i: nat)
    requires i < |edits|
    ensures
      var w, rest := EditWindow(body, edits[i]), Candidates(body, edits, i + 1);
      Candidates(body, edits, i) ==
      if w.Some? && Changes(body, w.value) then [Cand(i, w.value)] + rest else rest
  {
    hide EditWindow;
  }

  lemma WindowsStep(body: bytes, edits: seq<Edit>, i: nat)
    requires i < |edits|
    ensures
      var w, rest := EditWindow(body, edits[i]), Windows(body, edits[i + 1..]);
      Windows(body, edits[i..]) == if w.Some? then [w.value] + rest else rest
  {
    hide EditWindow;
    assert edits[i..][1..] == edits[i + 1..] && edits[i..][0] == edits[i];
  }

  lemma {:induction false} CandidateWindows(body: bytes, edits: seq<Edit>, i: nat)
    requires i <= |edits|
    ensures Wins(Candidates(body, edits, i)) == OnlyChanges(body, Windows(body, edits[i..]))
    decreases |edits| - i
  {
    if i < |edits| {
      hide EditWindow, Candidates, Windows, OnlyChanges, Wins, Changes;
      CandidateWindows(body, edits, i + 1);
      CandidatesStep(body, edits, i);
      WindowsStep(body, edits, i);
      match EditWindow(body, edits[i])
      case None =>
      case Some(w) =>
        OnlyChangesCons(body, w, Windows(body, edits[i + 1..]));
        WinsCons(Cand(i, w), Candidates(body, edits, i + 1));
    } else {
      assert edits[i..] == [];
      assert Wins(Candidates(body, edits, i)) == [];
    }
  }

  /** How many of the windows equal w and change bytes. */
  lemma {:induction false} OnlyChangesCount(body: bytes, ws: seq<Window>, w: Window)
    requires Sized(body, ws)
    ensures multiset(OnlyChanges(body, ws))[w] ==
            if w in ws && Changes(body, w) then multiset(ws)[w] else 0
  {
    if ws != [] {
      assert ws == [ws[0]] + ws[1..];
      OnlyChangesCount(body, ws[1..], w);
    }
  }

  lemma OnlyChangesMultiset(body: bytes, a: seq<Window>, b: seq<Window>)
    requires Sized(body, a) && Sized(body, b) && multiset(a) == multiset(b)
    ensures multiset(OnlyChanges(body, a)) == multiset(OnlyChanges(body, b))
  {
    forall w: Window ensures multiset(OnlyChanges(body, a))[w] == multiset(OnlyChanges(body, b))[w] {
      OnlyChangesCount(body, a, w);
      OnlyChangesCount(body, b, w);
      assert w in a <==> w in multiset(a);
      assert w in b <==> w in multiset(b);
    }
  }

  const BY_WINDOW: Less<Window> := (a: Window, b: Window) => a.start < b.start

  const WINDOW_OF: Cand -> Window := (c: Cand) => c.win

  lemma SortedWindows(cs: seq<Cand>)
    ensures Wins(Sort(BY_START, cs)) == Sort(BY_WINDOW, Wins(cs))
  {
    SortMap(WINDOW_OF, BY_START, BY_WINDOW, cs);
    assert Map(WINDOW_OF, cs) == Wins(cs);
    assert Map(WINDOW_OF, Sort(BY_START, cs)) == Wins(Sort(BY_START, cs));
  }

  lemma OnlyChangesStep(body: bytes, ws: seq<Window>)
    requires Sized(body, ws)
    ensures ws == [] ==> OnlyChanges(body, ws) == []
    ensures ws != [] ==>
              && ws[0].start < ws[0].end <= |body| && Sized(body, ws[1..])
              && OnlyChanges(body, ws) ==
                 if Changes(body, ws[0]) then [ws[0]] + OnlyChanges(body, ws[1..])
                 else OnlyChanges(body, ws[1..])
  {
  }

  lemma {:induction false} OnlyChangesOrdered(body: bytes, ws: seq<Window>, from: nat)
    requires Ordered(ws, from, |body|) && Sized(body, ws)
    ensures Ordered(OnlyChanges(body, ws), from, |body|)
    ensures Splices(body, OnlyChanges(body, ws), from) == Splices(body, ws, from)
    decreases |ws|
  {
    hide Splices, Ordered, OnlyChanges;
    OnlyChangesStep(body, ws);
    if ws != [] {
      var w := ws[0];
      OrderedTail(ws, from, |body|);
      OnlyChangesOrdered(body, ws[1..], w.end);
      var rest := OnlyChanges(body, ws[1..]);
      SplicesUnfold(body, ws, from);
      if Changes(body, w) {
        OrderedCons(w, rest, from, |body|);
        assert ([w] + rest)[1..] == rest;
        SplicesUnfold(body, [w] + rest, from);
      } else {
        SplicesFront(body, rest, from, w.end);
        assert body[from..w.end] == body[from..w.start] + w.repl;
        Assoc(body[from..w.start], w.repl, Splices(body, rest, w.end));
      }
    }
  }

  lemma OrderedSorted(body: bytes, ws: seq<Window>, from: nat)
    requires Ordered(ws, from, |body|) && Sized(body, ws)
    ensures Sorted(BY_WINDOW, ws) && Distinct(BY_WINDOW, ws)
  {
    forall i, j | 0 <= i < j < |ws| ensures ws[i].start < ws[j].start {
      assert ws[i] in ws;
    }
  }

  lemma {:induction false} KeepAll(cs: seq<Cand>, lastEnd: nat, limit: nat)
    requires Ordered(Wins(cs), lastEnd, limit)
    ensures Keep(cs, lastEnd) == cs
  {
    if cs != [] {
      OrderedTail(Wins(cs), lastEnd, limit);
      assert Wins(cs)[1..] == Wins(cs[1..]);
      KeepAll(cs[1..], cs[0].win.end, limit);
      assert Wins(cs)[0] == cs[0].win;
    }
  }

  /** Edits of disjoint windows, given in any order: Apply replaces each of them. */
  lemma ApplyDisjoint(body: bytes, edits: seq<Edit>, ws: seq<Window>)
    requires Ordered(ws, 0, |body|) && Sized(body, ws)
    requires multiset(ws) == multiset(Windows(body, edits))
    ensures Applied(body, edits) == Splices(body, ws, 0)
  {
    hide Candidates, Windows, OnlyChanges, Sort, Sorted, Distinct, Keep, Splices, Ordered;
    var cs := Candidates(body, edits, 0);
    var changes := OnlyChanges(body, ws);
    assert edits[0..] == edits;
    CandidateWindows(body, edits, 0);
    OnlyChangesMultiset(body, ws, Windows(body, edits));
    OnlyChangesOrdered(body, ws, 0);
    SortedWindows(cs);
    OrderedSorted(body, changes, 0);
    SortSorted(BY_WINDOW, Wins(cs));
    SortMultiset(BY_WINDOW, Wins(cs));
    SortedUnique(BY_WINDOW, changes, Sort(BY_WINDOW, Wins(cs)));
    KeepAll(Sort(BY_START, cs), 0, |body|);
  }
}
