/** Undoing a splice: the windows of the result that put back what was replaced. */
module SpliceInverse {
  import opened Bytes
  import opened Splice

  /**
   The windows, in the spliced text, that hold the replacements; each with the text it
   replaced. The text from `from` on is spliced, and its result stands at `at`.
   */
  function Inverse(s: bytes, ws: seq<Window>, from: nat, at: nat): (r: seq<Window>)
    requires Ordered(ws, from, |s|)
    ensures |r| == |ws|
    decreases |ws|
  {
    if ws == [] then [] else
    var w := ws[0];
    OrderedTail(ws, from, |s|);
    var start := at + (w.start - from);
    [Window(start, start + |w.repl|, s[w.start..w.end])] + Inverse(s, ws[1..], w.end, start + |w.repl|)
  }

  lemma {:induction false} InverseBehind(s: bytes, ws: seq<Window>, from: nat, at: nat)
    requires Ordered(ws, from, |s|)
    ensures
      var r := Inverse(s, ws, from, at);
      && Ordered(r, at, at + |Splices(s, ws, from)|)
      && forall i :: 0 <= i < |r| ==> r[i].end == r[i].start + |ws[i].repl| && r[i].repl == s[ws[i].start..ws[i].end]
    decreases |ws|
  {
    hide Ordered, Splices;
    if ws == [] {
      SplicesEmpty(s, from);
      NoWindows(at, at + |s[from..]|);
    } else {
      var w := ws[0];
      OrderedTail(ws, from, |s|);
      var start := at + (w.start - from);
      InverseBehind(s, ws[1..], w.end, start + |w.repl|);
      SplicesUnfold(s, ws, from);
      var rest := Inverse(s, ws[1..], w.end, start + |w.repl|);
      OrderedCons(Window(start, start + |w.repl|, s[w.start..w.end]), rest, at, at + |Splices(s, ws, from)|);
    }
  }

  lemma NoWindows(at: nat, limit: nat)
    requires at <= limit
    ensures Ordered([], at, limit)
  {
  }

  /** Splicing and then splicing back is nothing. */
  lemma {:induction false} SpliceBack(s: bytes, ws: seq<Window>, from: nat, before: bytes)
    requires Ordered(ws, from, |s|)
    ensures
      var text := before + Splices(s, ws, from);
      var back := Inverse(s, ws, from, |before|);
      Ordered(back, |before|, |text|) && Splices(text, back, |before|) == s[from..]
    decreases |ws|
  {
    hide Ordered, Splices;
    InverseBehind(s, ws, from, |before|);
    var text := before + Splices(s, ws, from);
    var back := Inverse(s, ws, from, |before|);
    if ws == [] {
      SplicesEmpty(s, from);
      SplicesEmpty(text, |before|);
    } else {
      var w := ws[0];
      OrderedTail(ws, from, |s|);
      SplicesUnfold(s, ws, from);
      var gap := s[from..w.start];
      var rest := Splices(s, ws[1..], w.end);
      var before' := before + gap + w.repl;
      assert text == before' + rest by {
        Assoc(before, gap, w.repl + rest);
        Assoc(before + gap, w.repl, rest);
      }
      SpliceBack(s, ws[1..], w.end, before');
      SplicesUnfold(text, back, |before|);
      assert back[1..] == Inverse(s, ws[1..], w.end, |before'|);
      assert text[|before|..back[0].start] == gap;
      assert gap + (s[w.start..w.end] + s[w.end..]) == s[from..];
    }
  }

  lemma {:induction false} InverseShift(a: bytes, s: bytes, ws: seq<Window>, from: nat, at: nat, k: nat)
    requires Ordered(ws, from, |s|)
    ensures Ordered(Shifted(ws, |a|), |a| + from, |a + s|)
    ensures Inverse(a + s, Shifted(ws, |a|), |a| + from, at + k) == Shifted(Inverse(s, ws, from, at), k)
    decreases |ws|
  {
    hide Ordered, Inverse;
    OrderedShift(ws, |a|, from, |s|);
    InverseUnfold(s, ws, from, at);
    InverseUnfold(a + s, Shifted(ws, |a|), |a| + from, at + k);
    if ws != [] {
      var w := ws[0];
      OrderedTail(ws, from, |s|);
      var start := at + (w.start - from);
      assert Shifted(ws, |a|)[1..] == Shifted(ws[1..], |a|);
      InverseShift(a, s, ws[1..], w.end, start + |w.repl|, k);
      assert (a + s)[|a| + w.start..|a| + w.end] == s[w.start..w.end];
      OrderedTail(Shifted(ws, |a|), |a| + from, |a + s|);
    }
  }

  /** Windows of the left part of a text do not see its right part. */
  lemma {:induction false} InverseLeft(s: bytes, t: bytes, ws: seq<Window>, from: nat, at: nat)
    requires Ordered(ws, from, |s|)
    ensures Ordered(ws, from, |s + t|)
    ensures Inverse(s + t, ws, from, at) == Inverse(s, ws, from, at)
    decreases |ws|
  {
    if ws != [] {
      var w := ws[0];
      OrderedTail(ws, from, |s|);
      InverseLeft(s, t, ws[1..], w.end, at + (w.start - from) + |w.repl|);
      assert (s + t)[w.start..w.end] == s[w.start..w.end];
    }
  }

  /** A gap in front moves nothing. */
  lemma InverseFront(s: bytes, ws: seq<Window>, from: nat, mid: nat, at: nat)
    requires Ordered(ws, mid, |s|) && from <= mid
    ensures Ordered(ws, from, |s|)
    ensures Inverse(s, ws, from, at) == Inverse(s, ws, mid, at + (mid - from))
  {
  }

  /** Windows of the right part of a text only. */
  lemma InverseRight(s: bytes, t: bytes, b: seq<Window>, from: nat, at: nat)
    requires Ordered([], from, |s|) && Ordered(b, 0, |t|)
    ensures Ordered(Shifted(b, |s|), from, |s + t|)
    ensures Inverse(s + t, Shifted(b, |s|), from, at)
         == Inverse(s, [], from, at) + Shifted(Inverse(t, b, 0, 0), at + |Splices(s, [], from)|)
  {
    hide Ordered, Splices, Inverse;
    OrderedConcat([], b, from, |s|, |t|);
    assert [] + Shifted(b, |s|) == Shifted(b, |s|);
    SplicesEmpty(s, from);
    InverseShift(s, t, b, 0, 0, at + (|s| - from));
    InverseFront(s + t, Shifted(b, |s|), from, |s|, at);
    InverseUnfold(s, [], from, at);
    var right := Shifted(Inverse(t, b, 0, 0), at + (|s| - from));
    assert [] + right == right;
  }

  lemma {:induction false} InverseConcat(s: bytes, a: seq<Window>, t: bytes, b: seq<Window>, from: nat, at: nat)
    requires Ordered(a, from, |s|) && Ordered(b, 0, |t|)
    ensures Ordered(a + Shifted(b, |s|), from, |s + t|)
    ensures Inverse(s + t, a + Shifted(b, |s|), from, at)
         == Inverse(s, a, from, at) + Shifted(Inverse(t, b, 0, 0), at + |Splices(s, a, from)|)
    decreases |a|
  {
    hide Ordered, Splices, Inverse;
    OrderedConcat(a, b, from, |s|, |t|);
    var ws := a + Shifted(b, |s|);
    var right := Inverse(t, b, 0, 0);
    if a == [] {
      InverseRight(s, t, b, from, at);
      assert ws == Shifted(b, |s|);
    } else {
      var w := a[0];
      OrderedTail(a, from, |s|);
      SplicesUnfold(s, a, from);
      InverseUnfold(s, a, from, at);
      InverseUnfold(s + t, ws, from, at);
      var start := at + (w.start - from);
      InverseConcat(s, a[1..], t, b, w.end, start + |w.repl|);
      assert ws[0] == w && ws[1..] == a[1..] + Shifted(b, |s|);
      assert (s + t)[w.start..w.end] == s[w.start..w.end];
      Assoc([Window(start, start + |w.repl|, s[w.start..w.end])], Inverse(s, a[1..], w.end, start + |w.repl|),
            Shifted(right, start + |w.repl| + |Splices(s, a[1..], w.end)|));
    }
  }

  lemma InverseUnfold(s: bytes, ws: seq<Window>, from: nat, at: nat)
    requires Ordered(ws, from, |s|)
    ensures ws == [] ==> Inverse(s, ws, from, at) == []
    ensures ws != [] ==>
              var w := ws[0];
              var start := at + (w.start - from);
              && from <= w.start <= w.end <= |s| && Ordered(ws[1..], w.end, |s|)
              && Inverse(s, ws, from, at) ==
                 [Window(start, start + |w.repl|, s[w.start..w.end])] + Inverse(s, ws[1..], w.end, start + |w.repl|)
  {
  }
}
