/**
 Redacting a document and restoring it: every leaf gets its value back, and the document its
 bytes, when the strings stay strings and no other mapped placeholder is about.
 */
module RoundTrip {
  import opened Bytes
  import opened Lens
  import opened LensPut
  import opened Splice
  import opened TreeApply
  import opened Search
  import opened Restore

  // ------------------------------------------------------------- the windows restoring finds

  function PairWins(p: Pair, spans: seq<Span>): (r: seq<Window>)
    requires forall s :: s in spans ==> 0 <= s.start <= s.end
    ensures |r| == |spans|
    ensures forall i :: 0 <= i < |r| ==> spans[i] in spans && r[i] == Window(spans[i].start, spans[i].end, p.secret)
  {
    if spans == [] then [] else
    assert spans[0] in spans && forall s :: s in spans[1..] ==> s in spans;
    [Window(spans[0].start, spans[0].end, p.secret)] + PairWins(p, spans[1..])
  }

  lemma SpansOrdered(v: bytes, literal: bytes)
    requires literal != []
    ensures forall s :: s in Occurrences(v, literal, 0) ==> 0 <= s.start <= s.end
  {
    hide OccursAt;
    OccurrencesExact(v, literal, 0);
    OccursInside(v, literal);
  }

  /** All windows of a value that the pairs restore. */
  ghost function FoundWins(v: bytes, pairs: seq<Pair>): seq<Window>
    requires Nonempty(pairs)
  {
    if pairs == [] then [] else
    var p := pairs[0];
    SpansOrdered(v, p.placeholder);
    PairWins(p, Occurrences(v, p.placeholder, 0)) + FoundWins(v, pairs[1..])
  }

  lemma PairEditsAre(leaf: Leaf, p: Pair)
    requires p.placeholder != []
    ensures forall s :: s in Occurrences(leaf.value, p.placeholder, 0) ==> 0 <= s.start <= s.end
    ensures PairEdits(leaf, p) == LeafEdits(leaf, PairWins(p, Occurrences(leaf.value, p.placeholder, 0)))
  {
    hide Occurrences, RawSpelling;
    SpansOrdered(leaf.value, p.placeholder);
  }

  lemma {:induction false} LeafRestoresAre(leaf: Leaf, pairs: seq<Pair>)
    requires Nonempty(pairs)
    ensures LeafRestores(leaf, pairs) == LeafEdits(leaf, FoundWins(leaf.value, pairs))
  {
    hide PairEdits, Occurrences, RawSpelling, LeafEdits;
    if pairs == [] {
      NoLeafEdits(leaf);
    } else {
      assert pairs[0] in pairs;
      PairEditsAre(leaf, pairs[0]);
      LeafRestoresAre(leaf, pairs[1..]);
      LeafEditsAppend(leaf, PairWins(pairs[0], Occurrences(leaf.value, pairs[0].placeholder, 0)),
        FoundWins(leaf.value, pairs[1..]));
    }
  }

  lemma NoLeafEdits(leaf: Leaf)
    ensures LeafEdits(leaf, []) == []
  {
  }

  ghost function FoundPlan(leaves: seq<Leaf>, pairs: seq<Pair>): (s: seq<seq<Window>>)
    requires Nonempty(pairs)
    ensures |s| == |leaves| && forall i :: 0 <= i < |s| ==> s[i] == FoundWins(leaves[i].value, pairs)
  {
    seq(|leaves|, i requires 0 <= i < |leaves| => FoundWins(leaves[i].value, pairs))
  }

  lemma {:induction false} RestoresAre(leaves: seq<Leaf>, pairs: seq<Pair>)
    requires Nonempty(pairs)
    ensures AllRestores(leaves, pairs) == TreeEdits(leaves, FoundPlan(leaves, pairs))
  {
    hide LeafRestores, FoundWins, LeafEdits;
    if leaves != [] {
      LeafRestoresAre(leaves[0], pairs);
      RestoresAre(leaves[1..], pairs);
      assert FoundPlan(leaves, pairs)[1..] == FoundPlan(leaves[1..], pairs);
    }
  }

  // ------------------------------------------------------ the windows found are those inserted

  ghost predicate DistinctPairs(pairs: seq<Pair>) {
    forall i, j :: 0 <= i < j < |pairs| ==> pairs[i].placeholder != pairs[j].placeholder
  }

  /** w holds p's placeholder, and restores its secret. */
  ghost predicate FoundOne(v: bytes, p: Pair, w: Window) {
    OccursAt(v, p.placeholder, w.start) && w.end == w.start + |p.placeholder| && w.repl == p.secret
  }

  ghost predicate FoundFor(v: bytes, pairs: seq<Pair>, w: Window) {
    exists p :: p in pairs && FoundOne(v, p, w)
  }

  /** In this text the pairs' placeholders stand exactly where the windows are. */
  ghost predicate OnlyInserted(v: bytes, pairs: seq<Pair>, ws: seq<Window>) {
    forall w :: w in ws <==> FoundFor(v, pairs, w)
  }

  predicate NoDup<T(==)>(s: seq<T>) {
    forall i, j :: 0 <= i < j < |s| ==> s[i] != s[j]
  }

  lemma {:induction false} NoDupSame<T>(a: seq<T>, b: seq<T>)
    requires NoDup(a) && NoDup(b) && forall x :: x in a <==> x in b
    ensures multiset(a) == multiset(b)
  {
    forall x ensures multiset(a)[x] == multiset(b)[x] {
      CountAtMostOnce(a, x);
      CountAtMostOnce(b, x);
    }
  }

  lemma {:induction false} CountAtMostOnce<T>(s: seq<T>, x: T)
    requires NoDup(s)
    ensures multiset(s)[x] == if x in s then 1 else 0
  {
    if s != [] {
      CountAtMostOnce(s[1..], x);
      assert s == [s[0]] + s[1..];
      if x == s[0] {
        assert x !in s[1..];
      }
    }
  }

  /** Some window for p meets the position. */
  ghost predicate MetBy(ws: seq<Window>, v: bytes, p: Pair, pos: int) {
    exists w :: w in ws && FoundOne(v, p, w) && w.start <= pos < w.end
  }

  /** The windows found for one pair. */
  ghost function WinsOf(v: bytes, p: Pair): seq<Window>
    requires p.placeholder != []
  {
    SpansOrdered(v, p.placeholder);
    PairWins(p, Occurrences(v, p.placeholder, 0))
  }

  lemma WinsOfAre(v: bytes, p: Pair)
    requires p.placeholder != []
    ensures NoDup(WinsOf(v, p)) && forall w :: w in WinsOf(v, p) ==> FoundOne(v, p, w)
  {
    hide OccursAt, Occurrences;
    SpansOrdered(v, p.placeholder);
    OccurrencesExact(v, p.placeholder, 0);
  }

  lemma WinsOfMeet(v: bytes, p: Pair, pos: int)
    requires p.placeholder != [] && OccursAt(v, p.placeholder, pos)
    ensures MetBy(WinsOf(v, p), v, p, pos)
  {
    hide OccursAt, Occurrences, FoundOne, Exact;
    SpansOrdered(v, p.placeholder);
    OccurrencesExact(v, p.placeholder, 0);
    OccursInside(v, p.placeholder);
    var spans := Occurrences(v, p.placeholder, 0);
    ExactMeets(v, p.placeholder, 0, spans, pos);
    var i :| 0 <= i < |spans| && spans[i].start <= pos < spans[i].end;
    WinsOfAre(v, p);
    var ws := WinsOf(v, p);
    assert ws[i] in ws && ws[i].start == spans[i].start && ws[i].end == spans[i].end;
  }

  lemma {:induction false} FoundSound(v: bytes, pairs: seq<Pair>)
    requires Nonempty(pairs) && DistinctPairs(pairs)
    ensures NoDup(FoundWins(v, pairs))
    ensures forall w :: w in FoundWins(v, pairs) ==> FoundFor(v, pairs, w)
  {
    hide FoundOne, PairWins, Occurrences;
    if pairs != [] {
      var p, rest := pairs[0], pairs[1..];
      assert p in pairs;
      WinsOfAre(v, p);
      FoundSound(v, rest);
      var a, b := WinsOf(v, p), FoundWins(v, rest);
      assert FoundWins(v, pairs) == a + b;
      HeadDistinct(pairs);
      forall w | w in a ensures w !in b {
        if w in b {
          assert FoundFor(v, rest, w);
          var q :| q in rest && FoundOne(v, q, w);
          SamePlace(v, p, q, w);
          assert false;
        }
      }
      NoDupAppend(a, b);
      forall w | w in b ensures FoundFor(v, pairs, w) {
        var q :| q in rest && FoundOne(v, q, w);
        assert q in pairs;
      }
    }
  }

  lemma {:induction false} FoundComplete(v: bytes, pairs: seq<Pair>, p: Pair, pos: int)
    requires Nonempty(pairs) && p in pairs && OccursAt(v, p.placeholder, pos)
    ensures MetBy(FoundWins(v, pairs), v, p, pos)
  {
    hide FoundOne, PairWins, Occurrences, OccursAt;
    var a, b := WinsOf(v, pairs[0]), FoundWins(v, pairs[1..]);
    assert FoundWins(v, pairs) == a + b;
    if p == pairs[0] {
      WinsOfMeet(v, p, pos);
      var w :| w in a && FoundOne(v, p, w) && w.start <= pos < w.end;
      assert w in a + b;
    } else {
      FoundComplete(v, pairs[1..], p, pos);
      var w :| w in b && FoundOne(v, p, w) && w.start <= pos < w.end;
      assert w in a + b;
    }
  }

  lemma HeadDistinct(pairs: seq<Pair>)
    requires DistinctPairs(pairs) && pairs != []
    ensures forall q :: q in pairs[1..] ==> q.placeholder != pairs[0].placeholder
  {
  }

  lemma SamePlace(v: bytes, p: Pair, q: Pair, w: Window)
    requires FoundOne(v, p, w) && FoundOne(v, q, w)
    ensures p.placeholder == q.placeholder
  {
  }

  lemma NoDupAppend<T>(a: seq<T>, b: seq<T>)
    requires NoDup(a) && NoDup(b) && forall x :: x in a ==> x !in b
    ensures NoDup(a + b)
  {
    var s := a + b;
    forall i, j | 0 <= i < j < |s| ensures s[i] != s[j] {
      if i < |a| <= j {
        assert s[i] in a && s[j] in b;
      }
    }
  }

  lemma EditsNoDup(v: bytes, ws: seq<Window>)
    requires Edits(v, ws)
    ensures NoDup(ws)
    ensures forall i, j :: 0 <= i < j < |ws| ==> ws[i].end <= ws[j].start
    ensures forall i :: 0 <= i < |ws| ==> ws[i].start < ws[i].end
  {
    forall i | 0 <= i < |ws| ensures ws[i].start < ws[i].end {
      assert Editable(v, ws[i]);
    }
  }

  /** Windows to be edited that share a position are one. */
  lemma OneWindow(v: bytes, ws: seq<Window>, f: Window, w: Window)
    requires Edits(v, ws) && f in ws && w in ws && f.start <= w.start < f.end
    ensures f == w
  {
    hide Edits;
    EditsNoDup(v, ws);
    var i :| 0 <= i < |ws| && ws[i] == w;
    var j :| 0 <= j < |ws| && ws[j] == f;
  }

  lemma InsertedIsFound(v: bytes, pairs: seq<Pair>, ws: seq<Window>, w: Window)
    requires Nonempty(pairs) && DistinctPairs(pairs) && OnlyInserted(v, pairs, ws) && Edits(v, ws) && w in ws
    ensures w in FoundWins(v, pairs)
  {
    hide OccursAt, FoundWins, Edits, DistinctPairs;
    assert FoundFor(v, pairs, w);
    var p :| p in pairs && FoundOne(v, p, w);
    FoundComplete(v, pairs, p, w.start);
    var f :| f in FoundWins(v, pairs) && FoundOne(v, p, f) && f.start <= w.start < f.end;
    assert FoundFor(v, pairs, f);
    OneWindow(v, ws, f, w);
  }

  lemma FoundIsInserted(v: bytes, pairs: seq<Pair>, ws: seq<Window>)
    requires Nonempty(pairs) && DistinctPairs(pairs) && OnlyInserted(v, pairs, ws) && Edits(v, ws)
    ensures multiset(FoundWins(v, pairs)) == multiset(ws)
  {
    hide FoundFor, FoundWins, Edits, DistinctPairs, NoDup;
    FoundSound(v, pairs);
    EditsNoDup(v, ws);
    var found := FoundWins(v, pairs);
    forall w | w in ws ensures w in found {
      InsertedIsFound(v, pairs, ws, w);
    }
    NoDupSame(found, ws);
  }

  lemma Without<T>(b: seq<T>, k: nat)
    requires k < |b|
    ensures multiset(b[..k] + b[k + 1..]) == multiset(b) - multiset{b[k]}
  {
    assert b == b[..k] + ([b[k]] + b[k + 1..]);
  }

  lemma EditsWithout(l: Leaf, b: seq<Window>, k: nat)
    requires k < |b|
    ensures multiset(LeafEdits(l, b)) == multiset{EditOf(l, b[k])} + multiset(LeafEdits(l, b[..k] + b[k + 1..]))
  {
    hide LeafEdits, EditOf;
    assert b == b[..k] + ([b[k]] + b[k + 1..]);
    LeafEditsAppend(l, b[..k], [b[k]] + b[k + 1..]);
    LeafEditsAppend(l, [b[k]], b[k + 1..]);
    LeafEditsAppend(l, b[..k], b[k + 1..]);
    OneEdit(l, b[k]);
  }

  lemma EditsHead(l: Leaf, a: seq<Window>)
    requires a != []
    ensures multiset(LeafEdits(l, a)) == multiset{EditOf(l, a[0])} + multiset(LeafEdits(l, a[1..]))
  {
    hide LeafEdits, EditOf;
    EditsWithout(l, a, 0);
    assert a[..0] + a[1..] == a[1..];
  }

  lemma HeadIn<T>(a: seq<T>, b: seq<T>) returns (k: nat)
    requires multiset(a) == multiset(b) && a != []
    ensures k < |b| && b[k] == a[0] && multiset(a[1..]) == multiset(b[..k] + b[k + 1..])
  {
    assert a[0] in multiset(b);
    k :| 0 <= k < |b| && b[k] == a[0];
    var rest := b[..k] + b[k + 1..];
    Without(b, k);
    HeadOut(a);
    Cancel(multiset(a[1..]), multiset(rest), a[0]);
  }

  lemma HeadOut<T>(a: seq<T>)
    requires a != []
    ensures multiset(a) == multiset(a[1..]) + multiset{a[0]}
  {
    assert a == [a[0]] + a[1..];
  }

  lemma Cancel<T>(m: multiset<T>, n: multiset<T>, x: T)
    requires m + multiset{x} == n + multiset{x}
    ensures m == n
  {
    assert m + multiset{x} - multiset{x} == m && n + multiset{x} - multiset{x} == n;
  }

  lemma {:induction false} SameEdits(l: Leaf, a: seq<Window>, b: seq<Window>)
    requires multiset(a) == multiset(b)
    ensures multiset(LeafEdits(l, a)) == multiset(LeafEdits(l, b))
    decreases |a|
  {
    hide LeafEdits, EditOf;
    if a == [] {
      assert |b| == |multiset(b)| == |multiset(a)|;
      assert b == [];
    } else {
      var k := HeadIn(a, b);
      var rest := b[..k] + b[k + 1..];
      EditsWithout(l, b, k);
      EditsHead(l, a);
      SameEdits(l, a[1..], rest);
    }
  }

  lemma {:induction false} SameTreeEdits(leaves: seq<Leaf>, s: seq<seq<Window>>, t: seq<seq<Window>>)
    requires |leaves| == |s| == |t| && forall i :: 0 <= i < |s| ==> multiset(s[i]) == multiset(t[i])
    ensures multiset(TreeEdits(leaves, s)) == multiset(TreeEdits(leaves, t))
    decreases |leaves|
  {
    hide LeafEdits;
    if leaves != [] {
      SameEdits(leaves[0], s[0], t[0]);
      SameTreeEdits(leaves[1..], s[1..], t[1..]);
    }
  }
}
