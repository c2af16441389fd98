/**
 Restoring a body that is no JSON document: text that is joined by mapped placeholders comes
 back as the same text joined by their secrets. Of any body, document or not, the placeholders
 are counted.
 */
module RestoreText {
  import opened Bytes
  import opened Lens
  import opened Search
  import opened Placeholder
  import opened PlaceholderLaws
  import opened Restore
  import Reassembly

  /** Pieces of text with one item between each two of them. */
  function Interleaved(pieces: seq<bytes>, items: seq<bytes>): bytes
    requires |pieces| == |items| + 1
    decreases |items|
  {
    if items == [] then pieces[0] else pieces[0] + (items[0] + Interleaved(pieces[1..], items[1..]))
  }

  /** The pairs' secrets where their placeholder is in `done`, and their placeholders elsewhere. */
  function Items(joins: seq<Pair>, done: set<bytes>): (r: seq<bytes>)
    ensures |r| == |joins|
    ensures forall i :: 0 <= i < |r| ==>
              r[i] == if joins[i].placeholder in done then joins[i].secret else joins[i].placeholder
  {
    seq(|joins|, i requires 0 <= i < |joins| =>
      if joins[i].placeholder in done then joins[i].secret else joins[i].placeholder)
  }

  function Placeholders(pairs: seq<Pair>): set<bytes> {
    set p | p in pairs :: p.placeholder
  }

  /** The text with the placeholders, and the text with the secrets. */
  function Redacted(pieces: seq<bytes>, joins: seq<Pair>): bytes
    requires |pieces| == |joins| + 1
  {
    Interleaved(pieces, Items(joins, {}))
  }

  function Revealed(pieces: seq<bytes>, joins: seq<Pair>): bytes
    requires |pieces| == |joins| + 1
  {
    Interleaved(pieces, Items(joins, Placeholders(joins)))
  }

  /** Where join j stands. */
  function JoinAt(pieces: seq<bytes>, items: seq<bytes>, j: nat): nat
    requires |pieces| == |items| + 1 && j < |items|
  {
    if j == 0 then |pieces[0]| else |pieces[0]| + |items[0]| + JoinAt(pieces[1..], items[1..], j - 1)
  }

  /** The placeholder stands at one of its joins. */
  ghost predicate AtJoin(pieces: seq<bytes>, joins: seq<Pair>, items: seq<bytes>, placeholder: bytes, x: int) {
    |pieces| == |items| + 1 == |joins| + 1 &&
    exists j :: 0 <= j < |joins| && joins[j].placeholder == placeholder && x == JoinAt(pieces, items, j)
  }

  /**
   Whichever placeholders have given way to their secrets, the others are found at their joins
   and nowhere else: not in a piece or a secret, nor across them.
   */
  ghost predicate OnlyAtJoins(pieces: seq<bytes>, joins: seq<Pair>, live: seq<Pair>) {
    |pieces| == |joins| + 1 &&
    forall done: set<bytes>, q, x ::
      q in live && q.placeholder !in done && OccursAt(Interleaved(pieces, Items(joins, done)), q.placeholder, x) ==>
        AtJoin(pieces, joins, Items(joins, done), q.placeholder, x)
  }

  /** A snapshot of the map: each placeholder once. */
  ghost predicate Snapshot(live: seq<Pair>) {
    && (forall p :: p in live ==> PREFIX <= p.placeholder)
    && forall i, j :: 0 <= i < j < |live| ==> live[i].placeholder != live[j].placeholder
  }

  // ------------------------------------------------------------------------ one placeholder

  lemma {:induction false} NothingReplaced(s: bytes, was: bytes, now: bytes, lo: nat, k: nat)
    requires was != [] && lo + k <= |s| && forall x :: lo <= x < lo + k ==> !OccursAt(s, was, x)
    ensures ReplaceAll(s, was, now, lo) == s[lo..lo + k] + ReplaceAll(s, was, now, lo + k)
    ensures Occurrences(s, was, lo) == Occurrences(s, was, lo + k)
  {
    hide OccursAt;
    var a, b := FirstAt(s, was, lo), FirstAt(s, was, lo + k);
    OccursInside(s, was);
    if a.Some? {
      assert a.value >= lo + k;
      assert b == a;
      assert s[lo..a.value] == s[lo..lo + k] + s[lo + k..a.value];
      Assoc(s[lo..lo + k], s[lo + k..a.value] + now, ReplaceAll(s, was, now, a.value + |was|));
      Assoc(s[lo..lo + k], s[lo + k..a.value], now);
    } else {
      assert b == None;
      assert s[lo..] == s[lo..lo + k] + s[lo + k..];
    }
  }

  /** How many joins are of one of these placeholders. */
  function CountOf(joins: seq<Pair>, which: set<bytes>): nat {
    if joins == [] then 0 else (if joins[0].placeholder in which then 1 else 0) + CountOf(joins[1..], which)
  }

  /** Behind `before`, the placeholder is found at its joins and nowhere else. */
  ghost predicate FoundBehind(before: bytes, pieces: seq<bytes>, joins: seq<Pair>, items: seq<bytes>, was: bytes) {
    |pieces| == |items| + 1 == |joins| + 1 &&
    forall x :: |before| <= x && OccursAt(before + Interleaved(pieces, items), was, x) ==>
                AtJoin(pieces, joins, items, was, x - |before|)
  }

  lemma {:induction false} JoinBehind(pieces: seq<bytes>, items: seq<bytes>, j: nat)
    requires |pieces| == |items| + 1 && j < |items|
    ensures |pieces[0]| <= JoinAt(pieces, items, j)
    ensures j > 0 ==> |pieces[0]| + |items[0]| <= JoinAt(pieces, items, j)
    ensures j > 0 ==> JoinAt(pieces, items, j) == |pieces[0]| + |items[0]| + JoinAt(pieces[1..], items[1..], j - 1)
  {
  }

  /** The first piece and the first item, taken to what is behind. */
  lemma FoundLater(before: bytes, pieces: seq<bytes>, joins: seq<Pair>, items: seq<bytes>, was: bytes)
    requires FoundBehind(before, pieces, joins, items, was) && joins != [] && was != []
    requires joins[0].placeholder == was ==> items[0] == was
    ensures
      var b := before + pieces[0] + items[0];
      && b + Interleaved(pieces[1..], items[1..]) == before + Interleaved(pieces, items)
      && FoundBehind(b, pieces[1..], joins[1..], items[1..], was)
  {
    hide OccursAt, JoinAt;
    var b, rest := before + pieces[0] + items[0], Interleaved(pieces[1..], items[1..]);
    Assoc(before, pieces[0], items[0] + rest);
    Assoc(before + pieces[0], items[0], rest);
    assert b + rest == before + Interleaved(pieces, items);
    forall x | |b| <= x && OccursAt(b + rest, was, x)
      ensures AtJoin(pieces[1..], joins[1..], items[1..], was, x - |b|)
    {
      assert AtJoin(pieces, joins, items, was, x - |before|);
      var j :| 0 <= j < |joins| && joins[j].placeholder == was && x - |before| == JoinAt(pieces, items, j);
      JoinBehind(pieces, items, j);
      if j == 0 {
        FirstJoin(pieces, items);
        assert false;
      }
      assert joins[1..][j - 1] == joins[j];
    }
  }

  lemma FirstJoin(pieces: seq<bytes>, items: seq<bytes>)
    requires |pieces| == |items| + 1 && items != []
    ensures JoinAt(pieces, items, 0) == |pieces[0]|
  {
  }

  /** No occurrence starts in front of the first join, nor in an item that is not the placeholder. */
  lemma NoneBefore(before: bytes, pieces: seq<bytes>, joins: seq<Pair>, items: seq<bytes>, was: bytes)
    requires FoundBehind(before, pieces, joins, items, was)
    ensures
      var text := before + Interleaved(pieces, items);
      forall x :: |before| <= x < |before| + |pieces[0]| ==> !OccursAt(text, was, x)
    ensures
      var text := before + Interleaved(pieces, items);
      joins != [] && joins[0].placeholder != was ==>
        forall x :: |before| <= x < |before| + |pieces[0]| + |items[0]| ==> !OccursAt(text, was, x)
  {
    hide OccursAt, JoinAt, Interleaved;
    var text := before + Interleaved(pieces, items);
    forall x | |before| <= x && OccursAt(text, was, x)
      ensures x >= |before| + |pieces[0]|
      ensures joins != [] && joins[0].placeholder != was ==> x >= |before| + |pieces[0]| + |items[0]|
    {
      assert AtJoin(pieces, joins, items, was, x - |before|);
      var j :| 0 <= j < |joins| && joins[j].placeholder == was && x - |before| == JoinAt(pieces, items, j);
      JoinBehind(pieces, items, j);
    }
  }

  lemma PartsOf(before: bytes, a: bytes, b: bytes, more: bytes)
    ensures
      var text := before + (a + (b + more));
      && |before| + |a| + |b| <= |text|
      && text[|before|..|before| + |a|] == a && text[|before| + |a|..|before| + |a| + |b|] == b
      && text[|before|..|before| + |a| + |b|] == a + b
  {
    var text := before + (a + (b + more));
    assert text == before + a + b + more;
  }

  /** From where a piece starts, one more placeholder is replaced by its secret at its joins. */
  ghost predicate Replaces(before: bytes, pieces: seq<bytes>, joins: seq<Pair>, done: set<bytes>, p: Pair)
    requires |pieces| == |joins| + 1 && p.placeholder != []
  {
    var text := before + Interleaved(pieces, Items(joins, done));
    && ReplaceAll(text, p.placeholder, p.secret, |before|) == Interleaved(pieces, Items(joins, done + {p.placeholder}))
    && |Occurrences(text, p.placeholder, |before|)| == CountOf(joins, {p.placeholder})
  }

  lemma NoJoins(before: bytes, pieces: seq<bytes>, joins: seq<Pair>, done: set<bytes>, p: Pair)
    requires |pieces| == 1 && joins == [] && p.placeholder != []
    requires FoundBehind(before, pieces, joins, Items(joins, done), p.placeholder)
    ensures Replaces(before, pieces, joins, done, p)
  {
    hide OccursAt, FoundBehind, ReplaceAll, Occurrences, Interleaved, Items;
    InterleavedOne(pieces);
    assert Items(joins, done) == [] && Items(joins, done + {p.placeholder}) == [];
    var was, text := p.placeholder, before + Interleaved(pieces, Items(joins, done));
    NoneBefore(before, pieces, joins, Items(joins, done), was);
    assert forall x :: |before| <= x < |before| + |pieces[0]| ==> !OccursAt(text, was, x);
    assert text == before + pieces[0];
    NothingReplaced(text, was, p.secret, |before|, |pieces[0]|);
    NothingLeft(text, was, p.secret);
    assert text[|before|..|before| + |pieces[0]|] == pieces[0] && pieces[0] + [] == pieces[0];
  }

  lemma OneMoreJoin(before: bytes, pieces: seq<bytes>, joins: seq<Pair>, done: set<bytes>, p: Pair)
    requires |pieces| == |joins| + 1 && joins != [] && p.placeholder != [] && p.placeholder !in done
    requires joins[0].placeholder == p.placeholder ==> joins[0] == p
    requires FoundBehind(before, pieces, joins, Items(joins, done), p.placeholder)
    requires Replaces(before + pieces[0] + Items(joins, done)[0], pieces[1..], joins[1..], done, p)
    requires
      before + pieces[0] + Items(joins, done)[0] + Interleaved(pieces[1..], Items(joins, done)[1..])
      == before + Interleaved(pieces, Items(joins, done))
    ensures Replaces(before, pieces, joins, done, p)
  {
    hide OccursAt, FoundBehind, ReplaceAll, Occurrences, Interleaved, Items;
    var items, was := Items(joins, done), p.placeholder;
    var text := before + Interleaved(pieces, items);
    NoneBefore(before, pieces, joins, items, was);
    InterleavedStep(pieces, items);
    ItemsTail(joins, done);
    ItemsTail(joins, done + {was});
    PartsOf(before, pieces[0], items[0], Interleaved(pieces[1..], items[1..]));
    InterleavedStep(pieces, Items(joins, done + {was}));
    if joins[0].placeholder == was {
      PlaceholderReplaced(text, |before|, pieces[0], was, p.secret);
    } else {
      OtherKept(text, |before|, pieces[0], items[0], was, p.secret);
    }
  }

  lemma {:induction false} ReplacedFrom(
    before: bytes, pieces: seq<bytes>, joins: seq<Pair>, done: set<bytes>, p: Pair)
    requires |pieces| == |joins| + 1 && p.placeholder != [] && p.placeholder !in done
    requires forall j :: 0 <= j < |joins| && joins[j].placeholder == p.placeholder ==> joins[j] == p
    requires FoundBehind(before, pieces, joins, Items(joins, done), p.placeholder)
    ensures Replaces(before, pieces, joins, done, p)
    decreases |joins|
  {
    hide FoundBehind, Replaces, Interleaved, Items;
    if joins == [] {
      NoJoins(before, pieces, joins, done, p);
    } else {
      ItemsTail(joins, done);
      FoundLater(before, pieces, joins, Items(joins, done), p.placeholder);
      ReplacedFrom(before + pieces[0] + Items(joins, done)[0], pieces[1..], joins[1..], done, p);
      OneMoreJoin(before, pieces, joins, done, p);
    }
  }

  /** A piece and the placeholder behind it. */
  lemma PlaceholderReplaced(s: bytes, lo: nat, piece: bytes, was: bytes, now: bytes)
    requires was != [] && lo + |piece| + |was| <= |s|
    requires s[lo..lo + |piece|] == piece && s[lo + |piece|..lo + |piece| + |was|] == was
    requires forall x :: lo <= x < lo + |piece| ==> !OccursAt(s, was, x)
    ensures
      var next := lo + |piece| + |was|;
      && ReplaceAll(s, was, now, lo) == piece + (now + ReplaceAll(s, was, now, next))
      && |Occurrences(s, was, lo)| == 1 + |Occurrences(s, was, next)|
  {
    hide OccursAt, ReplaceAll, Occurrences;
    NothingReplaced(s, was, now, lo, |piece|);
    OneReplaced(s, was, now, lo + |piece|);
  }

  /** A piece and an item in which the placeholder is not found. */
  lemma OtherKept(s: bytes, lo: nat, piece: bytes, item: bytes, was: bytes, now: bytes)
    requires was != [] && lo + |piece| + |item| <= |s| && s[lo..lo + |piece| + |item|] == piece + item
    requires forall x :: lo <= x < lo + |piece| + |item| ==> !OccursAt(s, was, x)
    ensures
      var next := lo + |piece| + |item|;
      && ReplaceAll(s, was, now, lo) == piece + (item + ReplaceAll(s, was, now, next))
      && Occurrences(s, was, lo) == Occurrences(s, was, next)
  {
    hide OccursAt, ReplaceAll, Occurrences;
    NothingReplaced(s, was, now, lo, |piece| + |item|);
    Assoc(piece, item, ReplaceAll(s, was, now, lo + |piece| + |item|));
  }

  lemma InterleavedStep(pieces: seq<bytes>, items: seq<bytes>)
    requires |pieces| == |items| + 1 && items != []
    ensures Interleaved(pieces, items) == pieces[0] + (items[0] + Interleaved(pieces[1..], items[1..]))
  {
  }

  lemma InterleavedOne(pieces: seq<bytes>)
    requires |pieces| == 1
    ensures Interleaved(pieces, []) == pieces[0]
  {
  }

  lemma ItemsTail(joins: seq<Pair>, done: set<bytes>)
    requires joins != []
    ensures Items(joins, done)[1..] == Items(joins[1..], done)
    ensures Items(joins, done)[0] ==
            if joins[0].placeholder in done then joins[0].secret else joins[0].placeholder
  {
  }

  lemma NothingLeft(s: bytes, was: bytes, now: bytes)
    requires was != []
    ensures ReplaceAll(s, was, now, |s|) == [] && Occurrences(s, was, |s|) == []
  {
    assert s[|s|..] == [];
  }

  lemma OneReplaced(s: bytes, was: bytes, now: bytes, lo: nat)
    requires was != [] && lo + |was| <= |s| && s[lo..lo + |was|] == was
    ensures ReplaceAll(s, was, now, lo) == now + ReplaceAll(s, was, now, lo + |was|)
    ensures |Occurrences(s, was, lo)| == 1 + |Occurrences(s, was, lo + |was|)|
  {
    hide ReplaceAll, Occurrences;
    assert FirstAt(s, was, lo) == Some(lo);
    ReplaceStep(s, was, now, lo, lo);
    assert s[lo..lo] == [] && [] + now == now;
  }

  lemma ReplaceStep(s: bytes, was: bytes, now: bytes, lo: nat, at: nat)
    requires was != [] && lo <= |s| && FirstAt(s, was, lo) == Some(at)
    ensures at + |was| <= |s|
    ensures ReplaceAll(s, was, now, lo) == s[lo..at] + now + ReplaceAll(s, was, now, at + |was|)
    ensures Occurrences(s, was, lo) == [Span(at, at + |was|)] + Occurrences(s, was, at + |was|)
  {
    OccursInside(s, was);
    hide OccursAt, FirstAt;
  }

  // ------------------------------------------------------------------------- all placeholders

  /** The placeholders from i on are replaced in a text that has the others' secrets already. */
  lemma {:induction false} ReplacedEach(pieces: seq<bytes>, joins: seq<Pair>, live: seq<Pair>, i: nat, done: set<bytes>)
    requires Snapshot(live) && i <= |live| && done == Placeholders(live[..i])
    requires OnlyAtJoins(pieces, joins, live) && forall p :: p in joins ==> p in live
    ensures Nonempty(live[i..])
    ensures ReplaceEach(Interleaved(pieces, Items(joins, done)), live[i..], false)
            == Interleaved(pieces, Items(joins, Placeholders(live)))
    decreases |live| - i
  {
    hide OccursAt, ReplaceAll, Interleaved, OnlyAtJoins;
    SnapshotNonempty(live, i);
    if i == |live| {
      assert live[..i] == live;
    } else {
      var p := live[i];
      assert p in live && live[i..][0] == p && live[i..][1..] == live[i + 1..];
      NextPlaceholder(live, i);
      OnePair(joins, live, i);
      FoundAll(pieces, joins, live, done, p);
      ReplacedFrom([], pieces, joins, done, p);
      var text := Interleaved(pieces, Items(joins, done));
      assert [] + text == text;
      ReplacedEach(pieces, joins, live, i + 1, done + {p.placeholder});
    }
  }

  lemma SnapshotNonempty(live: seq<Pair>, i: nat)
    requires Snapshot(live) && i <= |live|
    ensures Nonempty(live[i..])
  {
    assert forall p :: p in live[i..] ==> p in live && PREFIX <= p.placeholder;
  }

  lemma NextPlaceholder(live: seq<Pair>, i: nat)
    requires Snapshot(live) && i < |live|
    ensures live[i].placeholder !in Placeholders(live[..i])
    ensures Placeholders(live[..i + 1]) == Placeholders(live[..i]) + {live[i].placeholder}
  {
    assert live[..i + 1] == live[..i] + [live[i]];
    assert forall k :: 0 <= k < i ==> live[k].placeholder != live[i].placeholder;
  }

  lemma OnePair(joins: seq<Pair>, live: seq<Pair>, i: nat)
    requires Snapshot(live) && i < |live| && forall p :: p in joins ==> p in live
    ensures forall j :: 0 <= j < |joins| && joins[j].placeholder == live[i].placeholder ==> joins[j] == live[i]
  {
    forall j | 0 <= j < |joins| && joins[j].placeholder == live[i].placeholder ensures joins[j] == live[i] {
      assert joins[j] in joins;
      var k :| 0 <= k < |live| && live[k] == joins[j];
    }
  }

  lemma FoundAll(pieces: seq<bytes>, joins: seq<Pair>, live: seq<Pair>, done: set<bytes>, p: Pair)
    requires OnlyAtJoins(pieces, joins, live) && p in live && p.placeholder !in done
    ensures FoundBehind([], pieces, joins, Items(joins, done), p.placeholder)
  {
    hide OccursAt, AtJoin;
    var text := Interleaved(pieces, Items(joins, done));
    assert [] + text == text;
  }

  lemma {:induction false} CountAdds(joins: seq<Pair>, a: set<bytes>, b: set<bytes>)
    requires a !! b
    ensures CountOf(joins, a + b) == CountOf(joins, a) + CountOf(joins, b)
  {
    if joins != [] {
      CountAdds(joins[1..], a, b);
    }
  }

  lemma {:induction false} CountEvery(joins: seq<Pair>, which: set<bytes>)
    requires forall p :: p in joins ==> p.placeholder in which
    ensures CountOf(joins, which) == |joins|
  {
    if joins != [] {
      assert joins[0] in joins;
      CountEvery(joins[1..], which);
    }
  }

  lemma {:induction false} CountedEach(pieces: seq<bytes>, joins: seq<Pair>, live: seq<Pair>, i: nat)
    requires Snapshot(live) && i <= |live| && OnlyAtJoins(pieces, joins, live) && forall p :: p in joins ==> p in live
    ensures Nonempty(live[i..])
    ensures CountOf(joins, Placeholders(live[..i])) + CountAll(Redacted(pieces, joins), live[i..]) == |joins|
    decreases |live| - i
  {
    hide OccursAt, Occurrences, Interleaved, OnlyAtJoins, ReplaceAll;
    SnapshotNonempty(live, i);
    if i == |live| {
      assert live[..i] == live;
      forall p | p in joins ensures p.placeholder in Placeholders(live) {
        assert p in live;
      }
      CountEvery(joins, Placeholders(live));
    } else {
      var p := live[i];
      assert p in live && live[i..][0] == p && live[i..][1..] == live[i + 1..];
      NextPlaceholder(live, i);
      OnePair(joins, live, i);
      FoundAll(pieces, joins, live, {}, p);
      ReplacedFrom([], pieces, joins, {}, p);
      assert [] + Redacted(pieces, joins) == Redacted(pieces, joins);
      CountAdds(joins, Placeholders(live[..i]), {p.placeholder});
      CountedEach(pieces, joins, live, i + 1);
    }
  }

  /** Pairs outside the joins change no item. */
  lemma SameItems(joins: seq<Pair>, live: seq<Pair>)
    requires forall p :: p in joins ==> p in live
    ensures Items(joins, Placeholders(live)) == Items(joins, Placeholders(joins))
  {
    forall i | 0 <= i < |joins|
      ensures joins[i].placeholder in Placeholders(live) && joins[i].placeholder in Placeholders(joins)
    {
      assert joins[i] in joins && joins[i] in live;
    }
  }

  /** A body without the prefix has no joins. */
  lemma JoinsHavePrefix(pieces: seq<bytes>, joins: seq<Pair>)
    requires |pieces| == |joins| + 1 && joins != [] && PREFIX <= joins[0].placeholder
    ensures Reassembly.ContainsPrefix(Redacted(pieces, joins))
  {
    hide Items;
    var items := Items(joins, {});
    assert items[0] == joins[0].placeholder;
    var body, at := Redacted(pieces, joins), |pieces[0]|;
    assert body[at..] == items[0] + Interleaved(pieces[1..], items[1..]);
    assert PREFIX <= body[at..];
  }

  /**
   A body in which the mapped placeholders stand at the joins and nowhere else, and of which Walk
   makes nothing, comes back with their secrets; whatever Walk makes of it, the joins are counted.
   */
  lemma TextRestored(
    walk: bytes -> Option<seq<Leaf>>, pairs: seq<Pair>, excluded: set<bytes>, pieces: seq<bytes>, joins: seq<Pair>)
    requires |pieces| == |joins| + 1
    requires Snapshot(Live(pairs, excluded)) && OnlyAtJoins(pieces, joins, Live(pairs, excluded))
    requires forall p :: p in joins ==> p in pairs && p.secret !in excluded
    ensures Nonempty(Live(pairs, excluded))
    ensures
      var (out, count) := Backfilled(walk, Live(pairs, excluded), Redacted(pieces, joins));
      && count == |joins|
      && (walk(Redacted(pieces, joins)) == None ==> out == Revealed(pieces, joins))
  {
    hide OnlyAtJoins, ReplaceEach, CountAll, Reassembly.ContainsPrefix, Interleaved, AllRestores, Snapshot;
    var live, body := Live(pairs, excluded), Redacted(pieces, joins);
    assert live[0..] == live && live[..0] == [];
    assert forall p :: p in joins ==> p in live;
    SnapshotNonempty(live, 0);
    CountedEach(pieces, joins, live, 0);
    NothingCounted(joins);
    ReplacedEach(pieces, joins, live, 0, {});
    SameItems(joins, live);
    if !Reassembly.ContainsPrefix(body) {
      if joins != [] {
        assert joins[0] in joins;
        assert PREFIX <= joins[0].placeholder by { LivePrefix(live, joins[0]); }
        JoinsHavePrefix(pieces, joins);
      }
      assert Items(joins, Placeholders(joins)) == Items(joins, {});
    }
  }

  lemma LivePrefix(live: seq<Pair>, p: Pair)
    requires Snapshot(live) && p in live
    ensures PREFIX <= p.placeholder
  {
  }

  lemma {:induction false} NothingCounted(joins: seq<Pair>)
    ensures CountOf(joins, {}) == 0
  {
    if joins != [] {
      NothingCounted(joins[1..]);
    }
  }

  // --------------------------------------------------------------------- where that is the case

  /** A placeholder alone: its raw secret comes back. */
  lemma LoneRestored(walk: bytes -> Option<seq<Leaf>>, pairs: seq<Pair>, excluded: set<bytes>, p: Pair)
    requires Snapshot(Live(pairs, excluded)) && p in pairs && p.secret !in excluded
    requires forall q, x :: q in Live(pairs, excluded) ==> !OccursAt(p.secret, q.placeholder, x)
    requires forall q, x :: q in Live(pairs, excluded) && q != p ==> !OccursAt(p.placeholder, q.placeholder, x)
    requires walk(p.placeholder) == None
    ensures Nonempty(Live(pairs, excluded))
    ensures Backfilled(walk, Live(pairs, excluded), p.placeholder) == (p.secret, 1)
  {
    hide Snapshot, Backfilled;
    var pieces: seq<bytes>, joins := [[], []], [p];
    LoneText(p, {});
    LoneText(p, Placeholders(joins));
    LoneAtJoin(Live(pairs, excluded), p);
    assert p.placeholder in Placeholders(joins);
    TextRestored(walk, pairs, excluded, pieces, joins);
  }

  lemma LoneText(p: Pair, done: set<bytes>)
    ensures Interleaved([[], []], Items([p], done)) == if p.placeholder in done then p.secret else p.placeholder
  {
    var items := Items([p], done);
    var pieces: seq<bytes> := [[], []];
    assert items[1..] == [] && pieces[1..] == [[]];
    assert Interleaved([[]], []) == [];
    assert [] + (items[0] + []) == items[0];
  }

  lemma LoneAtJoin(live: seq<Pair>, p: Pair)
    requires Snapshot(live) && p in live
    requires forall q, x :: q in live ==> !OccursAt(p.secret, q.placeholder, x)
    requires forall q, x :: q in live && q != p ==> !OccursAt(p.placeholder, q.placeholder, x)
    ensures OnlyAtJoins([[], []], [p], live)
  {
    hide Interleaved, Snapshot;
    var pieces: seq<bytes> := [[], []];
    forall done: set<bytes>, q, x |
      q in live && q.placeholder !in done && OccursAt(Interleaved(pieces, Items([p], done)), q.placeholder, x)
      ensures AtJoin(pieces, [p], Items([p], done), q.placeholder, x)
    {
      LoneText(p, done);
      assert q == p && x == 0;
      assert JoinAt(pieces, Items([p], done), 0) == 0;
    }
  }

  predicate NoUnderscore(s: bytes) {
    US !in s
  }

  /** An underscore of the text is in a placeholder that stands there. */
  lemma {:induction false} UnderscoreWhere(pieces: seq<bytes>, joins: seq<Pair>, done: set<bytes>, x: nat)
    returns (j: nat, d: nat)
    requires |pieces| == |joins| + 1 && x < |Interleaved(pieces, Items(joins, done))|
    requires Interleaved(pieces, Items(joins, done))[x] == US
    requires (forall s :: s in pieces ==> NoUnderscore(s)) && forall p :: p in joins ==> NoUnderscore(p.secret)
    ensures j < |joins| && joins[j].placeholder !in done && d < |joins[j].placeholder|
    ensures x == JoinAt(pieces, Items(joins, done), j) + d
    ensures Interleaved(pieces, Items(joins, done))[x..] ==
            joins[j].placeholder[d..] + Interleaved(pieces[j + 1..], Items(joins[j + 1..], done))
    decreases |joins|
  {
    hide Interleaved, Items, JoinAt, NoUnderscore;
    var items := Items(joins, done);
    var text := Interleaved(pieces, items);
    assert pieces[0] in pieces;
    j, d := 0, 0;
    if joins == [] {
      InterleavedOne(pieces);
      PlainByte(pieces[0], x);
    } else {
      InterleavedStep(pieces, items);
      ItemsTail(joins, done);
      assert joins[0] in joins;
      var more := Interleaved(pieces[1..], items[1..]);
      ByteWhere(pieces[0], items[0], more, x);
      PlainByte(pieces[0], x);
      var y := x - |pieces[0]|;
      FirstJoin(pieces, items);
      if y < |items[0]| {
        PlainByte(joins[0].secret, y);
        j, d := 0, y;
      } else {
        assert forall p :: p in joins[1..] ==> p in joins;
        assert forall s :: s in pieces[1..] ==> s in pieces;
        j, d := UnderscoreWhere(pieces[1..], joins[1..], done, y - |items[0]|);
        JoinBehind(pieces, items, j + 1);
        assert pieces[1..][j + 1..] == pieces[j + 2..] && joins[1..][j + 1..] == joins[j + 2..];
        j := j + 1;
      }
    }
  }

  lemma PlainByte(s: bytes, x: nat)
    requires NoUnderscore(s)
    ensures x < |s| ==> s[x] != US
  {
  }

  /** A byte of a text of three parts, and what follows it. */
  lemma ByteWhere(a: bytes, b: bytes, c: bytes, x: nat)
    requires x < |a + (b + c)|
    ensures
      var text := a + (b + c);
      && (x < |a| ==> text[x] == a[x])
      && (|a| <= x < |a| + |b| ==> text[x] == b[x - |a|] && text[x..] == b[x - |a|..] + c)
      && (|a| + |b| <= x ==> text[x] == c[x - |a| - |b|] && text[x..] == c[x - |a| - |b|..])
  {
  }

  /** The bytes of a placeholder: behind the prefix there is no capital letter. */
  lemma TokenBytes(t: bytes)
    requires IsToken(t)
    ensures |t| >= 22 && t[0] == US && t[1] == US && t[2] == 80 && t[3] == 73 && t[4] == 73 && t[5] == US
    ensures forall i :: 6 <= i < |t| ==> t[i] != 80
  {
    hide IsToken;
    ExtendableTypes(t);
    TokenLong(t);
  }

  lemma TokenLong(t: bytes)
    requires IsToken(t)
    ensures |t| >= 22 && t[..PREFIX_LEN] == PREFIX
    ensures t[0] == US && t[1] == US && t[2] == 80 && t[3] == 73 && t[4] == 73 && t[5] == US
  {
    var p := t[..PREFIX_LEN];
    assert p[0] == t[0] && p[1] == t[1] && p[2] == t[2] && p[3] == t[3] && p[4] == t[4] && p[5] == t[5];
  }

  /** A placeholder found in such a text starts where one stands. */
  lemma StartsWhole(pieces: seq<bytes>, joins: seq<Pair>, done: set<bytes>, q: bytes, x: nat)
    returns (j: nat)
    requires |pieces| == |joins| + 1 && OccursAt(Interleaved(pieces, Items(joins, done)), q, x) && IsToken(q)
    requires (forall s :: s in pieces ==> NoUnderscore(s)) && forall p :: p in joins ==> NoUnderscore(p.secret)
    requires forall p :: p in joins ==> IsToken(p.placeholder)
    ensures j < |joins| && joins[j].placeholder !in done && x == JoinAt(pieces, Items(joins, done), j)
    ensures Interleaved(pieces, Items(joins, done))[x..] ==
            joins[j].placeholder + Interleaved(pieces[j + 1..], Items(joins[j + 1..], done))
  {
    hide IsToken, NoUnderscore, Items, Interleaved, JoinAt;
    var text := Interleaved(pieces, Items(joins, done));
    TokenBytes(q);
    assert forall i :: 0 <= i < |q| ==> text[x + i] == q[i];
    var d;
    j, d := UnderscoreWhere(pieces, joins, done, x);
    var t := joins[j].placeholder;
    assert joins[j] in joins;
    TokenBytes(t);
    var more := Interleaved(pieces[j + 1..], Items(joins[j + 1..], done));
    if d > 0 {
      TailIsNoStart(text, x, q, t, d, more);
      var y := 5 - (|t| - d);
      assert more[y..][1] == more[y + 1] == q[6] && more[y..][2] == more[y + 2] == q[7];
      assert forall p :: p in joins[j + 1..] ==> p in joins;
      assert forall s :: s in pieces[j + 1..] ==> s in pieces;
      var k, e := UnderscoreWhere(pieces[j + 1..], joins[j + 1..], done, y);
      assert joins[j + 1..][k] in joins;
      UnderscoreThenCapital(joins[j + 1..][k].placeholder, e, more[y..],
        Interleaved(pieces[j + 1..][k + 1..], Items(joins[j + 1..][k + 1..], done)));
      assert false;
    }
    assert t[0..] == t;
  }

  /** One that starts inside another begins with its last bytes. */
  lemma TailIsNoStart(text: bytes, x: nat, q: bytes, t: bytes, d: nat, more: bytes)
    requires x + |q| <= |text| && (forall i :: 0 <= i < |q| ==> text[x + i] == q[i]) && IsToken(q) && IsToken(t)
    requires 0 < d < |t| && text[x..] == t[d..] + more
    ensures 1 <= |t| - d <= 2 && |q| >= 22 && |q| <= |t| - d + |more|
    ensures forall i :: |t| - d <= i < |q| ==> more[i - (|t| - d)] == q[i]
    ensures q[5] == US && q[6] != 80 && q[7] != 80
  {
    hide IsToken;
    TokenBytes(q);
    TokenBytes(t);
    var s := text[x..];
    assert forall i :: 0 <= i < |q| ==> s[i] == q[i];
    assert forall i :: 0 <= i < |t| - d ==> s[i] == t[d + i];
    assert forall i :: |t| - d <= i < |s| ==> s[i] == more[i - (|t| - d)];
    assert s[2] == q[2];
  }

  /** A placeholder's first underscores are followed by its capitals. */
  lemma UnderscoreThenCapital(u: bytes, e: nat, s: bytes, rest: bytes)
    requires IsToken(u) && e <= 4 && s == u[e..] + rest && s[0] == US
    ensures |s| >= 3 && (s[1] == 80 || s[2] == 80)
  {
    hide IsToken;
    TokenBytes(u);
    assert s[0] == u[e] && s[1] == u[e + 1] && s[2] == u[e + 2];
  }

  /** Placeholders that are matched as a whole. */
  ghost predicate Whole(live: seq<Pair>) {
    forall p :: p in live ==> IsToken(p.placeholder) && TokenLen(p.placeholder) == |p.placeholder|
  }

  lemma SameStart(a: bytes, b: bytes, text: bytes)
    requires a <= text && b <= text && TokenLen(a) == |a| > 0 && TokenLen(b) == |b| > 0
    ensures a == b
  {
    hide TokenLen;
    TokenLenAppend(a, text[|a|..]);
    TokenLenAppend(b, text[|b|..]);
    assert a + text[|a|..] == text && b + text[|b|..] == text;
  }

  /**
   Minted placeholders that are matched as a whole are found at their joins only, in any text
   without underscores around them and with secrets without underscores.
   */
  lemma PlainText(pieces: seq<bytes>, joins: seq<Pair>, live: seq<Pair>)
    requires |pieces| == |joins| + 1 && Whole(live) && forall p :: p in joins ==> p in live
    requires (forall s :: s in pieces ==> NoUnderscore(s)) && forall p :: p in joins ==> NoUnderscore(p.secret)
    ensures OnlyAtJoins(pieces, joins, live)
  {
    hide IsToken, TokenLen, NoUnderscore, Items, Interleaved, JoinAt;
    forall done: set<bytes>, q, x |
      q in live && q.placeholder !in done && OccursAt(Interleaved(pieces, Items(joins, done)), q.placeholder, x)
      ensures AtJoin(pieces, joins, Items(joins, done), q.placeholder, x)
    {
      var text := Interleaved(pieces, Items(joins, done));
      var j := StartsWhole(pieces, joins, done, q.placeholder, x);
      var t := joins[j].placeholder;
      assert joins[j] in joins && joins[j] in live;
      assert text[x..x + |q.placeholder|] == text[x..][..|q.placeholder|];
      TokenBytes(t);
      TokenBytes(q.placeholder);
      SameStart(q.placeholder, t, text[x..]);
    }
  }
}
