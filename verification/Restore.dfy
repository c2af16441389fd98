/**
 Putting placeholders into a request body, and the secrets back into a whole response body
 (pkg/redact/substitute.go:30-58, pkg/redact/backfill.go:79-160). What Walk finds in a body
 is given by a function; a snapshot of the reverse map is any list of its entries.
 */
module Restore {
  import opened Bytes
  import opened Lens
  import opened Apply
  import opened Search
  import opened Mint
  import Reassembly

  datatype Substitution = Substitution(leaf: Leaf, start: int, end: int, category: bytes)

  /** An edit and the substitution it comes from. */
  datatype Owned = Owned(edit: Edit, owner: nat)

  datatype Made = Made(index: nat, category: bytes, length: int)

  predicate Locatable(sub: Substitution) {
    0 <= sub.start < sub.end <= |sub.leaf.value| && LeafSpan(sub.leaf, sub.start, sub.end).Some?
  }

  function SecretOf(sub: Substitution): bytes
    requires 0 <= sub.start <= sub.end <= |sub.leaf.value|
  {
    sub.leaf.value[sub.start..sub.end]
  }

  /** The maps after minting for the locatable substitutions from i on, and their edits. */
  function Planned(digest: DigestFn, m: Maps, subs: seq<Substitution>, i: nat): (Maps, Option<seq<Owned>>)
    requires i <= |subs|
    decreases |subs| - i
  {
    if i == |subs| then (m, Some([]))
    else if !Locatable(subs[i]) then Planned(digest, m, subs, i + 1)
    else
      var sub := subs[i];
      var (m1, p) := MintOne(digest, m, SecretOf(sub), sub.category);
      match p
      case None => (m1, None)
      case Some(placeholder) =>
        var (m2, rest) := Planned(digest, m1, subs, i + 1);
        (m2, match rest
             case None => None
             case Some(more) => Some([Owned(Edit(sub.leaf, sub.start, sub.end, placeholder), i)] + more))
  }

  function EditsOf(owned: seq<Owned>): (r: seq<Edit>)
    ensures |r| == |owned| && forall i :: 0 <= i < |r| ==> r[i] == owned[i].edit
  {
    seq(|owned|, i requires 0 <= i < |owned| => owned[i].edit)
  }

  /** Substitute; every substitution that changed bytes is reported, in ascending raw order. */
  method Substitute(
    b: Backfiller, w: Engine, body: bytes, subs: seq<Substitution>)
    returns (r: Option<(bytes, seq<Made>)>)
    modifies b`reverse, w
    ensures
      var (m, owned) := Planned(w.digest, Maps(old(w.forward), old(b.reverse)), subs, 0);
      && Maps(w.forward, b.reverse) == m
      && (r.Some? <==> owned.Some?)
      && (r.Some? ==>
            var kept := Kept(body, EditsOf(owned.value));
            && r.value.0 == Applied(body, EditsOf(owned.value)) && |r.value.1| == |kept|
            && forall k :: 0 <= k < |kept| ==>
                 kept[k].idx < |owned.value| &&
                 var i := owned.value[kept[k].idx].owner;
                 i < |subs| && r.value.1[k] == Made(i, subs[i].category, subs[i].end - subs[i].start))
  {
    hide MintOne, LeafSpan, Applied, Kept;
    var owned: seq<Owned> := [];
    ghost var m0 := Maps(w.forward, b.reverse);
    ghost var goal := Planned(w.digest, m0, subs, 0);
    assert goal.1.Some? ==> [] + goal.1.value == goal.1.value;
    var i := 0;
    while i < |subs|
      invariant i <= |subs|
      invariant forall o :: o in owned ==> o.owner < |subs|
      invariant
        var (m, rest) := Planned(w.digest, Maps(w.forward, b.reverse), subs, i);
        goal == (m, match rest case None => None case Some(more) => Some(owned + more))
    {
      var sub := subs[i];
      i := i + 1;
      if sub.start < 0 || sub.end <= sub.start || sub.end > |sub.leaf.value| {
        continue;
      }
      var span := LeafRawSpan(sub.leaf, sub.start, sub.end);
      if span.None? {
        continue;
      }
      var secret := sub.leaf.value[sub.start..sub.end];
      var p := b.Mint(w, secret, sub.category);
      if p.None? {
        return None;
      }
      ghost var rest := Planned(w.digest, Maps(w.forward, b.reverse), subs, i).1;
      var one := Owned(Edit(sub.leaf, sub.start, sub.end, p.value), i - 1);
      if rest.Some? {
        Assoc(owned, [one], rest.value);
      }
      owned := owned + [one];
    }
    assert owned + [] == owned;
    var out, idx := ApplyEdits(body, EditsOf(owned));
    KeptInRange(body, EditsOf(owned));
    var made := Report(subs, owned, idx);
    return Some((out, made));
  }

  /** The loop that reports the edits applied. */
  method Report(subs: seq<Substitution>, owned: seq<Owned>, idx: seq<nat>) returns (made: seq<Made>)
    requires (forall o :: o in owned ==> o.owner < |subs|) && forall k :: 0 <= k < |idx| ==> idx[k] < |owned|
    ensures |made| == |idx|
    ensures forall k :: 0 <= k < |idx| ==>
              var n := owned[idx[k]].owner;
              n < |subs| && made[k] == Made(n, subs[n].category, subs[n].end - subs[n].start)
  {
    made := [];
    var k := 0;
    while k < |idx|
      invariant k <= |idx| && |made| == k
      invariant forall j :: 0 <= j < k ==>
                  var n := owned[idx[j]].owner;
                  n < |subs| && made[j] == Made(n, subs[n].category, subs[n].end - subs[n].start)
    {
      assert owned[idx[k]] in owned;
      var n := owned[idx[k]].owner;
      made := made + [Made(n, subs[n].category, subs[n].end - subs[n].start)];
      k := k + 1;
    }
  }

  lemma KeptInRange(body: bytes, edits: seq<Edit>)
    ensures forall k :: 0 <= k < |Kept(body, edits)| ==> Kept(body, edits)[k].idx < |edits|
  {
    hide EditWindow;
    forall k | 0 <= k < |Kept(body, edits)| ensures Kept(body, edits)[k].idx < |edits| {
      assert Kept(body, edits)[k] in Candidates(body, edits, 0);
    }
  }

  // ------------------------------------------------------------------------------ restoring

  datatype Pair = Pair(placeholder: bytes, secret: bytes)

  /** The entries that are restored: those whose secret is not excluded. */
  function Live(pairs: seq<Pair>, excluded: set<bytes>): (r: seq<Pair>)
    ensures forall p :: p in r <==> p in pairs && p.secret !in excluded
  {
    if pairs == [] then []
    else (if pairs[0].secret in excluded then [] else [pairs[0]]) + Live(pairs[1..], excluded)
  }

  /** appendLeaves: an edit for each occurrence of the placeholder in the leaf. */
  function SpanEdits(leaf: Leaf, p: Pair, spans: seq<Span>): (r: seq<Edit>)
    ensures |r| == |spans|
    ensures forall i :: 0 <= i < |r| ==>
            r[i] == Edit(leaf, spans[i].start, spans[i].end, RawSpelling(leaf.tok, p.secret))
  {
    if spans == [] then []
    else [Edit(leaf, spans[0].start, spans[0].end, RawSpelling(leaf.tok, p.secret))] + SpanEdits(leaf, p, spans[1..])
  }

  function PairEdits(leaf: Leaf, p: Pair): seq<Edit>
    requires p.placeholder != []
  {
    SpanEdits(leaf, p, Occurrences(leaf.value, p.placeholder, 0))
  }

  predicate Nonempty(pairs: seq<Pair>) {
    forall p :: p in pairs ==> p.placeholder != []
  }

  function LeafRestores(leaf: Leaf, pairs: seq<Pair>): seq<Edit>
    requires Nonempty(pairs)
  {
    if pairs == [] then [] else PairEdits(leaf, pairs[0]) + LeafRestores(leaf, pairs[1..])
  }

  function AllRestores(leaves: seq<Leaf>, pairs: seq<Pair>): seq<Edit>
    requires Nonempty(pairs)
  {
    if leaves == [] then [] else LeafRestores(leaves[0], pairs) + AllRestores(leaves[1..], pairs)
  }

  /** bytes.ReplaceAll, from lo on. */
  function ReplaceAll(s: bytes, was: bytes, now: bytes, lo: nat): bytes
    requires was != [] && lo <= |s|
    decreases |s| - lo
  {
    match FirstAt(s, was, lo)
    case None => s[lo..]
    case Some(p) => s[lo..p] + now + ReplaceAll(s, was, now, p + |was|)
  }

  function ReplaceEach(s: bytes, pairs: seq<Pair>, escaped: bool): bytes
    requires Nonempty(pairs)
    decreases |pairs|
  {
    if pairs == [] then s else
    var now := if escaped then Escape(pairs[0].secret) else pairs[0].secret;
    ReplaceEach(ReplaceAll(s, pairs[0].placeholder, now, 0), pairs[1..], escaped)
  }

  function CountAll(body: bytes, pairs: seq<Pair>): nat
    requires Nonempty(pairs)
  {
    if pairs == [] then 0 else |Occurrences(body, pairs[0].placeholder, 0)| + CountAll(body, pairs[1..])
  }

  /** BackfillCount on a snapshot without its excluded entries. */
  ghost function Backfilled(walk: bytes -> Option<seq<Leaf>>, live: seq<Pair>, body: bytes): (bytes, nat)
    requires Nonempty(live)
  {
    if !Reassembly.ContainsPrefix(body) then (body, 0) else
    match walk(body)
    case None => (ReplaceEach(body, live, false), CountAll(body, live))
    case Some(leaves) => (ReplaceEach(Applied(body, AllRestores(leaves, live)), live, true), CountAll(body, live))
  }

  method AppendLeaves(edits: seq<Edit>, leaf: Leaf, p: Pair) returns (r: seq<Edit>)
    requires p.placeholder != []
    ensures r == edits + PairEdits(leaf, p)
  {
    hide OccursAt, RawSpelling;
    var spelled := LeafRawSpelling(leaf, p.secret);
    r := edits;
    var pos := 0;
    ghost var all := edits + PairEdits(leaf, p);
    while pos <= |leaf.value|
      invariant pos <= |leaf.value|
      invariant r + SpanEdits(leaf, p, Occurrences(leaf.value, p.placeholder, pos)) == all
      decreases |leaf.value| - pos
    {
      var at := Index(leaf.value[pos..], p.placeholder);
      IndexIsFirst(leaf.value, p.placeholder, pos, at);
      if at.None? {
        break;
      }
      var start := pos + at.value;
      OccursInside(leaf.value, p.placeholder);
      assert OccursAt(leaf.value, p.placeholder, start);
      ghost var rest := Occurrences(leaf.value, p.placeholder, start + |p.placeholder|);
      var one := Edit(leaf, start, start + |p.placeholder|, spelled);
      assert ([Span(start, start + |p.placeholder|)] + rest)[1..] == rest;
      Assoc(r, [one], SpanEdits(leaf, p, rest));
      r := r + [one];
      pos := start + |p.placeholder|;
    }
    assert r + [] == r;
  }

  /** The loops over leaves and snapshot that collect the edits. */
  method CollectRestores(leaves: seq<Leaf>, pairs: seq<Pair>, excluded: set<bytes>) returns (edits: seq<Edit>)
    requires Nonempty(pairs)
    ensures edits == AllRestores(leaves, Live(pairs, excluded))
  {
    hide PairEdits;
    edits := [];
    var i := 0;
    assert leaves[0..] == leaves;
    while i < |leaves|
      invariant i <= |leaves|
      invariant edits + AllRestores(leaves[i..], Live(pairs, excluded)) == AllRestores(leaves, Live(pairs, excluded))
    {
      assert leaves[i..][0] == leaves[i] && leaves[i..][1..] == leaves[i + 1..];
      Assoc(edits, LeafRestores(leaves[i], Live(pairs, excluded)), AllRestores(leaves[i + 1..], Live(pairs, excluded)));
      edits := CollectLeaf(edits, leaves[i], pairs, excluded);
      i := i + 1;
    }
    assert edits + [] == edits;
  }

  method CollectLeaf(before: seq<Edit>, leaf: Leaf, pairs: seq<Pair>, excluded: set<bytes>) returns (edits: seq<Edit>)
    requires Nonempty(pairs)
    ensures edits == before + LeafRestores(leaf, Live(pairs, excluded))
  {
    hide PairEdits;
    edits := before;
    var i := 0;
    assert pairs[0..] == pairs;
    while i < |pairs|
      invariant i <= |pairs|
      invariant edits + LeafRestores(leaf, Live(pairs[i..], excluded))
        == before + LeafRestores(leaf, Live(pairs, excluded))
    {
      var p := pairs[i];
      assert p in pairs && pairs[i..][0] == p && pairs[i..][1..] == pairs[i + 1..];
      ghost var rest := Live(pairs[i + 1..], excluded);
      i := i + 1;
      if p.secret in excluded {
        assert [] + rest == rest;
        continue;
      }
      assert ([p] + rest)[1..] == rest;
      Assoc(edits, PairEdits(leaf, p), LeafRestores(leaf, rest));
      edits := AppendLeaves(edits, leaf, p);
    }
    assert edits + [] == edits;
  }

  /** The loops that replace what is left, and the one that counts. */
  method ReplaceLoop(body: bytes, pairs: seq<Pair>, excluded: set<bytes>, escaped: bool) returns (out: bytes)
    requires Nonempty(pairs)
    ensures out == ReplaceEach(body, Live(pairs, excluded), escaped)
  {
    hide ReplaceAll;
    out := body;
    var i := 0;
    assert pairs[0..] == pairs;
    while i < |pairs|
      invariant i <= |pairs|
      invariant ReplaceEach(out, Live(pairs[i..], excluded), escaped)
        == ReplaceEach(body, Live(pairs, excluded), escaped)
    {
      var p := pairs[i];
      assert p in pairs && pairs[i..][0] == p && pairs[i..][1..] == pairs[i + 1..];
      ghost var rest := Live(pairs[i + 1..], excluded);
      i := i + 1;
      if p.secret in excluded {
        assert [] + rest == rest;
        continue;
      }
      assert ([p] + rest)[1..] == rest;
      var now := p.secret;
      if escaped {
        now := EscapeJSONString(p.secret);
      }
      out := ReplaceAll(out, p.placeholder, now, 0);
    }
  }

  method CountLoop(body: bytes, pairs: seq<Pair>, excluded: set<bytes>) returns (count: nat)
    requires Nonempty(pairs)
    ensures count == CountAll(body, Live(pairs, excluded))
  {
    hide Occurrences;
    count := 0;
    var i := 0;
    assert pairs[0..] == pairs;
    while i < |pairs|
      invariant i <= |pairs|
      invariant count + CountAll(body, Live(pairs[i..], excluded)) == CountAll(body, Live(pairs, excluded))
    {
      var p := pairs[i];
      assert p in pairs && pairs[i..][0] == p && pairs[i..][1..] == pairs[i + 1..];
      ghost var rest := Live(pairs[i + 1..], excluded);
      i := i + 1;
      if p.secret in excluded {
        assert [] + rest == rest;
        continue;
      }
      assert ([p] + rest)[1..] == rest;
      var found := Occurrences(body, p.placeholder, 0);
      count := count + |found|;
    }
  }

  method BackfillCount(
    walk: bytes -> Option<seq<Leaf>>, pairs: seq<Pair>, excluded: set<bytes>, body: bytes)
    returns (out: bytes, count: nat)
    requires Nonempty(pairs)
    ensures (out, count) == Backfilled(walk, Live(pairs, excluded), body)
  {
    hide ReplaceEach, CountAll, AllRestores, Applied, Reassembly.ContainsPrefix;
    if !Reassembly.ContainsPrefix(body) {
      return body, 0;
    }
    count := CountLoop(body, pairs, excluded);
    match walk(body)
    case None =>
      out := ReplaceLoop(body, pairs, excluded, false);
    case Some(leaves) =>
      var edits := CollectRestores(leaves, pairs, excluded);
      var idx;
      out, idx := ApplyEdits(body, edits);
      out := ReplaceLoop(out, pairs, excluded, true);
  }
}
