/** The reference form of editing: windows of a text, replaced. */
module Splice {
  import opened Bytes

  datatype Window = Window(start: nat, end: nat, repl: bytes) {
    function Shift(k: nat): Window {
      Window(start + k, end + k, repl)
    }
  }

  /** Windows in ascending order that do not overlap, inside [from, limit). */
  ghost predicate Ordered(ws: seq<Window>, from: nat, limit: nat) {
    && from <= limit
    && (forall i :: 0 <= i < |ws| ==> from <= ws[i].start <= ws[i].end <= limit)
    && (forall i, j :: 0 <= i < j < |ws| ==> ws[i].end <= ws[j].start)
  }

  /** The text from `from` on, with each window replaced: gaps and replacements in turn. */
  ghost function Splices(s: bytes, ws: seq<Window>, from: nat): bytes
    requires Ordered(ws, from, |s|)
    decreases |ws|
  {
    if ws == [] then s[from..]
    else s[from..ws[0].start] + (ws[0].repl + Splices(s, ws[1..], ws[0].end))
  }

  lemma OrderedTail(ws: seq<Window>, from: nat, limit: nat)
    requires Ordered(ws, from, limit) && ws != []
    ensures from <= ws[0].start <= ws[0].end <= limit
    ensures Ordered(ws[1..], ws[0].end, limit)
  {
  }

  lemma OrderedCons(w: Window, ws: seq<Window>, from: nat, limit: nat)
    requires from <= w.start <= w.end && Ordered(ws, w.end, limit)
    ensures Ordered([w] + ws, from, limit)
  {
  }

  lemma SplicesUnfold(s: bytes, ws: seq<Window>, from: nat)
    requires Ordered(ws, from, |s|) && ws != []
    ensures Ordered(ws[1..], ws[0].end, |s|) && from <= ws[0].start
    ensures Splices(s, ws, from) ==
            s[from..ws[0].start] + (ws[0].repl + Splices(s, ws[1..], ws[0].end))
  {
  }

  lemma SplicesEmpty(s: bytes, from: nat)
    requires Ordered([], from, |s|)
    ensures from <= |s| && Splices(s, [], from) == s[from..]
  {
  }

  function Shifted(ws: seq<Window>, k: nat): (r: seq<Window>)
    ensures |r| == |ws|
    ensures forall i :: 0 <= i < |ws| ==> r[i] == ws[i].Shift(k)
  {
    seq(|ws|, i requires 0 <= i < |ws| => ws[i].Shift(k))
  }

  /** Text in front of every window stays in front. */
  lemma SplicesFront(s: bytes, ws: seq<Window>, from: nat, mid: nat)
    requires Ordered(ws, mid, |s|) && from <= mid
    ensures Ordered(ws, from, |s|)
    ensures Splices(s, ws, from) == s[from..mid] + Splices(s, ws, mid)
  {
    if ws == [] {
      assert s[from..] == s[from..mid] + s[mid..];
    } else {
      assert s[from..ws[0].start] == s[from..mid] + s[mid..ws[0].start];
      Assoc(s[from..mid], s[mid..ws[0].start], ws[0].repl + Splices(s, ws[1..], ws[0].end));
    }
  }

  lemma OrderedShift(ws: seq<Window>, k: nat, from: nat, limit: nat)
    requires Ordered(ws, from, limit)
    ensures Ordered(Shifted(ws, k), k + from, k + limit)
  {
  }

  lemma {:induction false} SplicesShift(a: bytes, s: bytes, ws: seq<Window>, from: nat)
    requires Ordered(ws, from, |s|)
    ensures Ordered(Shifted(ws, |a|), |a| + from, |a + s|)
    ensures Splices(a + s, Shifted(ws, |a|), |a| + from) == Splices(s, ws, from)
    decreases |ws|
  {
    hide Ordered, Splices;
    OrderedShift(ws, |a|, from, |s|);
    if ws == [] {
      SplicesEmpty(s, from);
      SplicesEmpty(a + s, |a| + from);
      assert Shifted(ws, |a|) == [];
      assert (a + s)[|a| + from..] == s[from..];
    } else {
      OrderedTail(ws, from, |s|);
      SplicesUnfold(s, ws, from);
      SplicesShift(a, s, ws[1..], ws[0].end);
      assert Shifted(ws, |a|)[1..] == Shifted(ws[1..], |a|);
      SplicesUnfold(a + s, Shifted(ws, |a|), |a| + from);
      assert (a + s)[|a| + from..|a| + ws[0].start] == s[from..ws[0].start];
    }
  }

  /** Windows of the left part of a text leave its right part alone. */
  lemma {:induction false} SplicesLeft(s: bytes, t: bytes, ws: seq<Window>, from: nat)
    requires Ordered(ws, from, |s|)
    ensures Ordered(ws, from, |s + t|)
    ensures Splices(s + t, ws, from) == Splices(s, ws, from) + t
    decreases |ws|
  {
    if ws == [] {
      assert (s + t)[from..] == s[from..] + t;
    } else {
      OrderedTail(ws, from, |s|);
      SplicesLeft(s, t, ws[1..], ws[0].end);
      assert (s + t)[from..ws[0].start] == s[from..ws[0].start];
      Assoc(ws[0].repl, Splices(s, ws[1..], ws[0].end), t);
      Assoc(s[from..ws[0].start], ws[0].repl + Splices(s, ws[1..], ws[0].end), t);
    }
  }

  lemma OrderedConcat(a: seq<Window>, b: seq<Window>, from: nat, m: nat, n: nat)
    requires Ordered(a, from, m) && Ordered(b, 0, n)
    ensures Ordered(a + Shifted(b, m), from, m + n)
  {
  }

  /** Windows of both parts of a text are replaced part by part. */
  lemma {:induction false} SplicesConcat(s: bytes, a: seq<Window>, t: bytes, b: seq<Window>, from: nat)
    requires Ordered(a, from, |s|) && Ordered(b, 0, |t|)
    ensures Ordered(a + Shifted(b, |s|), from, |s + t|)
    ensures Splices(s + t, a + Shifted(b, |s|), from) == Splices(s, a, from) + Splices(t, b, 0)
    decreases |a|
  {
    hide Ordered, Splices;
    OrderedConcat(a, b, from, |s|, |t|);
    var ws := a + Shifted(b, |s|);
    if a == [] {
      assert ws == Shifted(b, |s|);
      SplicesEmpty(s, from);
      SplicesShift(s, t, b, 0);
      SplicesFront(s + t, ws, from, |s|);
      assert (s + t)[from..|s|] == s[from..];
    } else {
      OrderedTail(a, from, |s|);
      SplicesUnfold(s, a, from);
      SplicesConcat(s, a[1..], t, b, a[0].end);
      assert ws[0] == a[0] && ws[1..] == a[1..] + Shifted(b, |s|);
      SplicesUnfold(s + t, ws, from);
      assert (s + t)[from..a[0].start] == s[from..a[0].start];
      var right := Splices(t, b, 0);
      Assoc(a[0].repl, Splices(s, a[1..], a[0].end), right);
      Assoc(s[from..a[0].start], a[0].repl + Splices(s, a[1..], a[0].end), right);
    }
  }
}
