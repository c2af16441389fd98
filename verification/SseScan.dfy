/** The scanning loops over leaves and values (pkg/redact/sse_leaf_scan.go, sse_spelling.go). */
module SseScan {
  import opened Bytes
  import opened Lens
  import opened Apply
  import opened Placeholder
  import opened Reassembly

  /** The first offset at or after `from` where __PII_ stands, or |v|: bytes.Index. */
  function NextPrefix(v: bytes, from: nat): (r: nat)
    requires from <= |v|
    ensures from <= r <= |v|
    ensures r < |v| ==> PREFIX <= v[r..]
    ensures forall k :: from <= k < r ==> !(PREFIX <= v[k..])
    decreases |v| - from
  {
    if from == |v| || PREFIX <= v[from..] then from else NextPrefix(v, from + 1)
  }

  lemma {:induction false} LeafScanSkip(env: Env, l: Leaf, i: nat, j: nat)
    requires i <= j <= |l.value|
    requires forall k :: i <= k < j ==> !(PREFIX <= l.value[k..])
    ensures LeafScan(env, l, i) == LeafScan(env, l, j)
    decreases j - i
  {
    if i < j {
      LeafScanSkip(env, l, i + 1, j);
    }
  }

  lemma {:induction false} TokensSkip(v: bytes, i: nat, j: nat)
    requires i <= j <= |v|
    requires forall k :: i <= k < j ==> !(PREFIX <= v[k..])
    ensures TokensFrom(v, i) == TokensFrom(v, j)
    decreases j - i
  {
    if i < j {
      TokensSkip(v, i + 1, j);
    }
  }

  method WithinLeafEdits(env: Env, leaves: seq<Leaf>) returns (edits: seq<Edit>)
    ensures edits == WithinEdits(env, leaves)
  {
    edits := [];
    var n := 0;
    assert leaves[0..] == leaves;
    while n < |leaves|
      invariant n <= |leaves|
      invariant edits + WithinEdits(env, leaves[n..]) == WithinEdits(env, leaves)
    {
      assert leaves[n..][0] == leaves[n] && leaves[n..][1..] == leaves[n + 1..];
      var more := LeafEditLoop(env, leaves[n]);
      Assoc(edits, more, WithinEdits(env, leaves[n + 1..]));
      edits := edits + more;
      n := n + 1;
    }
  }

  /** The inner loop of withinLeafEdits: it jumps from one __PII_ to the next. */
  method LeafEditLoop(env: Env, leaf: Leaf) returns (edits: seq<Edit>)
    ensures edits == LeafScan(env, leaf, 0)
  {
    hide TokenLen, LeafScan, NextPrefix;
    edits := [];
    var v, i := leaf.value, 0;
    while i < |v|
      invariant i <= |v|
      invariant edits + LeafScan(env, leaf, i) == LeafScan(env, leaf, 0)
    {
      var start := NextPrefix(v, i);
      LeafScanSkip(env, leaf, i, start);
      LeafScanStep(env, leaf, start);
      if start == |v| {
        return;
      }
      var n := ScanTokenLen(v[start..]);
      if n == 0 {
        i := start + 1;
        continue;
      }
      var token := v[start..start + n];
      var secret := env.restore(token);
      if secret != token {
        var spelled := LeafRawSpelling(leaf, secret);
        Assoc(edits, [Edit(leaf, start, start + n, spelled)], LeafScan(env, leaf, start + n));
        edits := edits + [Edit(leaf, start, start + n, spelled)];
      }
      i := start + n;
    }
    LeafScanStep(env, leaf, i);
  }

  method LeafTokens(v: bytes) returns (tokens: seq<bytes>)
    ensures tokens == TokensFrom(v, 0)
  {
    hide TokenLen;
    tokens := [];
    var i := 0;
    while i < |v|
      invariant i <= |v|
      invariant tokens + TokensFrom(v, i) == TokensFrom(v, 0)
    {
      var start := NextPrefix(v, i);
      TokensSkip(v, i, start);
      if start == |v| {
        return;
      }
      var n := ScanTokenLen(v[start..]);
      if n > 0 {
        Assoc(tokens, [v[start..start + n]], TokensFrom(v, start + n));
        tokens := tokens + [v[start..start + n]];
        i := start + n;
        continue;
      }
      i := start + 1;
    }
  }

  method UniqueIdentityMatch(leaves: seq<Leaf>, key: bytes) returns (r: Option<Leaf>)
    ensures r == UniqueMatch(leaves, key)
  {
    r := None;
    var n, i := 0, 0;
    assert leaves[0..] == leaves;
    ghost var seen: seq<Leaf> := [];
    while i < |leaves|
      invariant i <= |leaves|
      invariant seen + Matching(leaves[i..], key) == Matching(leaves, key)
      invariant n == |seen| && (n > 0 ==> r == Some(seen[n - 1]))
    {
      var leaf := leaves[i];
      assert leaves[i..][0] == leaf && leaves[i..][1..] == leaves[i + 1..];
      if leaf.identifiable && leaf.identity == key {
        Assoc(seen, [leaf], Matching(leaves[i + 1..], key));
        r, n, seen := Some(leaf), n + 1, seen + [leaf];
      }
      i := i + 1;
    }
    assert seen == Matching(leaves, key);
    if n != 1 {
      r := None;
    }
  }

  method FindSmallestPrefix(v: bytes, from: nat) returns (r: Option<nat>)
    ensures r == SmallestPrefixAt(v, from)
  {
    hide TokenLen, IsPlaceholderPrefix;
    var i := from;
    while i < |v|
      invariant SmallestPrefixAt(v, i) == SmallestPrefixAt(v, from)
    {
      var n := ScanTokenLen(v[i..]);
      if n == 0 {
        var yes := ScanIsPrefix(v[i..]);
        if yes {
          return Some(i);
        }
      }
      i := i + 1;
    }
    return None;
  }

  method FindTrailingPrefix(leaves: seq<Leaf>) returns (best: Option<Tail>)
    ensures best == TrailingPrefix(leaves)
  {
    best := TrailingLoop(leaves, None);
  }

  method TrailingLoop(leaves: seq<Leaf>, start: Option<Tail>) returns (best: Option<Tail>)
    requires start.Some? ==> start.value.Ok()
    ensures best == TrailingFrom(leaves, start)
  {
    best := start;
    var i := 0;
    assert leaves[0..] == leaves;
    while i < |leaves|
      invariant i <= |leaves| && (best.Some? ==> best.value.Ok())
      invariant TrailingFrom(leaves[i..], best) == TrailingFrom(leaves, start)
    {
      var l := leaves[i];
      assert leaves[i..][0] == l && leaves[i..][1..] == leaves[i + 1..];
      if l.identifiable {
        var s := FindSmallestPrefix(l.value, 0);
        if s.Some? {
          best := Some(Tail(l, s.value));
        }
      }
      i := i + 1;
    }
  }

  method FindTrailingAfter(leaves: seq<Leaf>, m: Leaf, k: nat) returns (best: Option<Tail>)
    ensures best == TrailingAfter(leaves, m, k)
  {
    hide TrailingFrom, TrailingAfter, SmallestPrefixAt;
    best := None;
    var seen, i := false, 0;
    assert leaves[0..] == leaves;
    while i < |leaves|
      invariant i <= |leaves| && (best.Some? ==> best.value.Ok())
      invariant seen ==> TrailingFrom(leaves[i..], best) == TrailingAfter(leaves, m, k)
      invariant !seen ==> best == None && TrailingAfter(leaves[i..], m, k) == TrailingAfter(leaves, m, k)
    {
      var l := leaves[i];
      assert leaves[i..][0] == l && leaves[i..][1..] == leaves[i + 1..];
      TrailingFromStep(leaves[i..], best);
      TrailingAfterStep(leaves[i..], m, k);
      if !seen {
        if l.identifiable && l.identity == m.identity {
          seen := true;
          var s := FindSmallestPrefix(l.value, k);
          if s.Some? {
            best := Some(Tail(l, s.value));
          }
        }
      } else if l.identifiable {
        var s := FindSmallestPrefix(l.value, 0);
        if s.Some? {
          best := Some(Tail(l, s.value));
        }
      }
      i := i + 1;
    }
    NothingTrails(best, m, k);
    assert leaves[i..] == [];
  }

  lemma TrailingFromStep(leaves: seq<Leaf>, best: Option<Tail>)
    requires leaves != [] && (best.Some? ==> best.value.Ok())
    ensures
      var l := leaves[0];
      var s := SmallestPrefixAt(l.value, 0);
      TrailingFrom(leaves, best) ==
      TrailingFrom(leaves[1..], if l.identifiable && s.Some? then Some(Tail(l, s.value)) else best)
  {
    hide SmallestPrefixAt;
  }

  lemma TrailingAfterStep(leaves: seq<Leaf>, m: Leaf, k: nat)
    requires leaves != []
    ensures
      var l := leaves[0];
      var s := SmallestPrefixAt(l.value, k);
      TrailingAfter(leaves, m, k) ==
      if l.identifiable && l.identity == m.identity
      then TrailingFrom(leaves[1..], if s.Some? then Some(Tail(l, s.value)) else None)
      else TrailingAfter(leaves[1..], m, k)
  {
    hide SmallestPrefixAt;
  }

  lemma NothingTrails(best: Option<Tail>, m: Leaf, k: nat)
    requires best.Some? ==> best.value.Ok()
    ensures TrailingFrom([], best) == best && TrailingAfter([], m, k) == None
  {
  }

  method FindFirstNonSpace(b: bytes) returns (c: byte)
    ensures c == FirstNonSpace(b)
  {
    var i := 0;
    assert b[0..] == b;
    while i < |b|
      invariant i <= |b| && FirstNonSpace(b[i..]) == FirstNonSpace(b)
    {
      if b[i] != 32 && b[i] != 9 && b[i] != 13 && b[i] != 10 {
        return b[i];
      }
      assert b[i..][1..] == b[i + 1..];
      i := i + 1;
    }
    return 0;
  }

  method MustKeepPlaceholder(env: Env, origin: Leaf, secret: bytes) returns (keep: bool)
    ensures keep == KeepPlaceholder(env, origin, secret)
  {
    var c := FindFirstNonSpace(origin.value);
    var torn := !origin.encoded && !env.valid(origin.value) && (c == 123 || c == 91);
    var escaped := EscapeJSONString(secret);
    keep := torn && escaped != secret;
  }

  method FillFeed(env: Env, value: bytes) returns (feed: Feed)
    ensures feed == SpellFeed(env, value)
  {
    var at := NextPrefix(value, 0);
    if at == |value| {
      NoPrefix(value);
      return Feed(map[], false);
    }
    assert PREFIX <= value[at..];
    var spelled: map<bytes, bytes> := map[];
    var walked := env.walk(value);
    if walked.Some? {
      var leaves, i := walked.value, 0;
      assert leaves[0..] == leaves;
      while i < |leaves|
        invariant i <= |leaves|
        invariant SpellLeaves(env, leaves[i..], spelled) == SpellLeaves(env, leaves, map[])
      {
        assert leaves[i..][0] == leaves[i] && leaves[i..][1..] == leaves[i + 1..];
        var tokens := LeafTokens(leaves[i].value);
        spelled := FillTokens(env, leaves[i], tokens, spelled);
        i := i + 1;
      }
    }
    return Feed(spelled, env.valid(value));
  }

  lemma NoPrefix(v: bytes)
    requires NextPrefix(v, 0) == |v|
    ensures !ContainsPrefix(v)
  {
    assert v[|v|..] == [];
  }

  method FillTokens(env: Env, leaf: Leaf, tokens: seq<bytes>, start: map<bytes, bytes>) returns (m: map<bytes, bytes>)
    ensures m == SpellTokens(env, leaf, tokens, start)
  {
    m := start;
    var i := 0;
    assert tokens[0..] == tokens;
    while i < |tokens|
      invariant i <= |tokens|
      invariant SpellTokens(env, leaf, tokens[i..], m) == SpellTokens(env, leaf, tokens, start)
    {
      assert tokens[i..][0] == tokens[i] && tokens[i..][1..] == tokens[i + 1..];
      var spelled := LeafRawSpelling(leaf, env.restore(tokens[i]));
      m := m[tokens[i] := spelled];
      i := i + 1;
    }
  }
}
