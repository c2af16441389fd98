/**
 A restorer that changes nothing, and what the rewriter then does to a text: it keeps it, but
 for the escaping that a JSON value's tokens get. TokenLen does not test the type bytes, so a
 match may hold bytes that JSON escapes; such a text grows.
 */
module SsePlain {
  import opened Bytes
  import opened Lens
  import opened Apply
  import opened Placeholder
  import opened PlaceholderLaws
  import opened Holdback
  import opened HoldbackPlaceholder
  import opened Reassembly
  import Splice

  ghost predicate Identity(env: Env) {
    forall t :: env.restore(t) == t
  }

  /** Walk finds leaves only in valid JSON, and knows where each one is. */
  ghost predicate Lawful(env: Env) {
    forall v :: env.walk(v).Some? ==>
      env.valid(v) && forall l :: l in env.walk(v).value ==> l.tok.Tok?
  }

  predicate Plain(t: bytes) {
    forall c :: c in t ==> !NeedsEscape(c)
  }

  /** No leftmost match of s holds a byte that JSON escapes. */
  predicate PlainScan(s: bytes) {
    s == [] ||
    (Plain(s[..TokenLen(s)]) && PlainScan(s[HoldbackPlaceholder.Step(s)..]))
  }

  lemma TokenHasPrefix(s: bytes)
    requires TokenLen(s) > 0
    ensures PREFIX <= s
  {
  }

  lemma TypedPlain(s: bytes)
    requires Typed(s)
    ensures Plain(s[..TokenLen(s)])
  {
    hide TokenLen;
    if TokenLen(s) > 0 {
      TokenHasPrefix(s);
      forall c | c in s[..TokenLen(s)] ensures !NeedsEscape(c) {
        var i :| 0 <= i < TokenLen(s) && s[i] == c;
        assert i < PREFIX_LEN ==> c == PREFIX[i];
      }
    }
  }

  /** Text whose matches are placeholders of the grammar is plain. */
  lemma {:induction false} TypedScanPlain(s: bytes)
    requires ScanTyped(s)
    ensures PlainScan(s)
    decreases |s|
  {
    hide TokenLen;
    if s != [] {
      TypedPlain(s);
      TypedScanPlain(s[HoldbackPlaceholder.Step(s)..]);
    }
  }

  // -------------------------------------------------------------------- nothing to restore

  lemma {:induction false} NoLeafEdits(env: Env, l: Leaf, i: nat)
    requires Identity(env)
    ensures LeafScan(env, l, i) == []
    decreases |l.value| - i
  {
    hide TokenLen;
    if i < |l.value| {
      var n := TokenLen(l.value[i..]);
      NoLeafEdits(env, l, if n == 0 then i + 1 else i + n);
    }
  }

  lemma {:induction false} NoEdits(env: Env, leaves: seq<Leaf>)
    requires Identity(env)
    ensures WithinEdits(env, leaves) == []
  {
    if leaves != [] {
      NoLeafEdits(env, leaves[0], 0);
      NoEdits(env, leaves[1..]);
    }
  }

  lemma ContentUnchanged(env: Env, value: bytes, leaves: seq<Leaf>)
    requires Identity(env)
    ensures ContentWith(env, value, leaves, []) == value
  {
    NoEdits(env, leaves);
    assert Kept(value, []) == [] && Wins([]) == [];
    assert Splice.Splices(value, [], 0) == value[0..];
  }

  // ----------------------------------------------------------- what escaping does to length

  lemma {:induction false} EscapeLength(x: bytes)
    ensures |Escape(x)| >= |x|
    ensures Plain(x) ==> Escape(x) == x
    ensures !Plain(x) ==> |Escape(x)| > |x|
  {
    if Plain(x) {
      EscapePlain(x);
    }
    if x != [] {
      EscapeLength(x[1..]);
      assert x == [x[0]] + x[1..];
      assert !Plain(x) ==> NeedsEscape(x[0]) || !Plain(x[1..]);
    }
  }

  lemma {:induction false} SpellingLength(c: Chain, x: bytes)
    ensures |RawSpelling(c, x)| >= |x|
    ensures Plain(x) ==> RawSpelling(c, x) == x
    ensures c.Tok? && !Plain(x) ==> |RawSpelling(c, x)| > |x|
  {
    if c.Tok? {
      EscapeLength(x);
      SpellingLength(c.parent, Escape(x));
    }
  }

  /** A rewrite that keeps plain tokens and makes the others longer. */
  ghost predicate Growing(f: Rewrite) {
    forall t :: GrowsAt(f, t)
  }

  ghost predicate GrowsAt(f: Rewrite, t: bytes) {
    if Plain(t) then Replacement(f, t) == t else |Replacement(f, t)| > |t|
  }

  ghost predicate SpelledGrow(m: map<bytes, bytes>) {
    forall t :: t in m ==> if Plain(t) then m[t] == t else |m[t]| > |t|
  }

  lemma {:induction false} TokensGrow(env: Env, l: Leaf, tokens: seq<bytes>, m: map<bytes, bytes>)
    requires Identity(env) && l.tok.Tok? && SpelledGrow(m)
    ensures SpelledGrow(SpellTokens(env, l, tokens, m))
    decreases |tokens|
  {
    if tokens != [] {
      SpellingLength(l.tok, tokens[0]);
      TokensGrow(env, l, tokens[1..], m[tokens[0] := RawSpelling(l.tok, env.restore(tokens[0]))]);
    }
  }

  lemma {:induction false} LeavesGrow(env: Env, leaves: seq<Leaf>, m: map<bytes, bytes>)
    requires Identity(env) && SpelledGrow(m) && forall l :: l in leaves ==> l.tok.Tok?
    ensures SpelledGrow(SpellLeaves(env, leaves, m))
    decreases |leaves|
  {
    if leaves != [] {
      var tokens := TokensFrom(leaves[0].value, 0);
      assert leaves[0] in leaves;
      TokensGrow(env, leaves[0], tokens, m);
      LeavesGrow(env, leaves[1..], SpellTokens(env, leaves[0], tokens, m));
    }
  }

  lemma JsonFeedGrows(env: Env, value: bytes)
    requires Identity(env) && Lawful(env) && env.valid(value) && ContainsPrefix(value)
    ensures Growing(Replacer(env, SpellFeed(env, value)))
  {
    hide ContainsPrefix;
    var feed := SpellFeed(env, value);
    assert SpelledGrow(feed.spelled) by {
      match env.walk(value)
      case Some(leaves) => LeavesGrow(env, leaves, map[]);
      case None =>
    }
    forall t ensures GrowsAt(Replacer(env, feed), t) {
      EscapeLength(t);
    }
  }

  lemma OtherFeedKeeps(env: Env, value: bytes, t: bytes)
    requires Identity(env) && Lawful(env) && (!env.valid(value) || !ContainsPrefix(value))
    ensures Replacement(Replacer(env, SpellFeed(env, value)), t) == t
  {
    hide ContainsPrefix;
  }

  // ------------------------------------------------------------------- settling a raw value

  lemma {:induction false} NoMatchPlain(s: bytes)
    requires NoMatchInside(MATCHER, s)
    ensures PlainScan(s)
    decreases |s|
  {
    hide TokenLen;
    if s != [] {
      assert s[0..] == s && Match(MATCHER, s[0..]) == 0;
      forall i | 0 <= i < |s[1..]| ensures Match(MATCHER, s[1..][i..]) == 0 {
        assert s[1..][i..] == s[i + 1..];
      }
      NoMatchPlain(s[1..]);
    }
  }

  lemma OpenPlain(s: bytes)
    requires Open(MATCHER, s)
    ensures PlainScan(s)
  {
    hide TokenLen, PrefixLen;
    OpenIsExtendable(s);
    forall i | 0 <= i < |s| ensures Match(MATCHER, s[i..]) == 0 {
      if i == 0 {
        assert s[0..] == s;
      } else {
        NoInnerToken(s, i);
      }
    }
    NoMatchPlain(s);
  }

  lemma {:induction false} SettleGrows(f: Rewrite, s: bytes)
    requires Growing(f)
    ensures
      var (out, tail) := Settle(MATCHER, f, s);
      if PlainScan(s) then out + tail == s else |out| + |tail| > |s|
    decreases |s|
  {
    hide TokenLen, PrefixLen, Settle, Plain;
    SettleUnfold(MATCHER, f, s);
    if s == [] {
    } else if Match(MATCHER, s) == 0 && Open(MATCHER, s) {
      OpenPlain(s);
    } else {
      var n := HoldbackPlaceholder.Step(s);
      SettleGrows(f, s[n..]);
      var first := if Match(MATCHER, s) > 0 then Replacement(f, s[..n]) else [s[0]];
      var (out, tail) := Settle(MATCHER, f, s[n..]);
      Assoc(first, out, tail);
      assert s == s[..n] + s[n..];
      GrowsStep(f, s);
    }
  }

  lemma GrowsStep(f: Rewrite, s: bytes)
    requires Growing(f) && s != []
    ensures
      var n := HoldbackPlaceholder.Step(s);
      var first := if TokenLen(s) > 0 then Replacement(f, s[..n]) else [s[0]];
      if Plain(s[..TokenLen(s)]) then first == s[..n] else |first| > n
  {
    hide TokenLen;
    assert GrowsAt(f, s[..HoldbackPlaceholder.Step(s)]);
    if TokenLen(s) == 0 {
      assert s[..TokenLen(s)] == [];
    }
  }

  lemma {:induction false} SettleKeeps(f: Rewrite, s: bytes)
    requires forall t :: Replacement(f, t) == t
    ensures Settle(MATCHER, f, s).0 + Settle(MATCHER, f, s).1 == s
    decreases |s|
  {
    hide TokenLen, PrefixLen, Settle;
    SettleUnfold(MATCHER, f, s);
    if s != [] && !(Match(MATCHER, s) == 0 && Open(MATCHER, s)) {
      var n := HoldbackPlaceholder.Step(s);
      SettleKeeps(f, s[n..]);
      Assoc(s[..n], Settle(MATCHER, f, s[n..]).0, Settle(MATCHER, f, s[n..]).1);
      assert s == s[..n] + s[n..];
    }
  }
}
