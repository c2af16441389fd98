/**
 How the raw path spells a secret. Where Walk finds the placeholder in a string of the value, the
 secret is spelled for the place of that string, through all strings around it; a placeholder that
 stands in no string of a JSON value, as in a key, is escaped once; and other text gets the secret
 as it is.
 */
module SseSpelling {
  import opened Bytes
  import opened Lens
  import opened Reassembly

  /** A complete placeholder of the leaf's text. */
  predicate Holds(l: Leaf, token: bytes) {
    token in TokensFrom(l.value, 0)
  }

  lemma {:induction false} TokensSpelled(
    env: Env, l: Leaf, tokens: seq<bytes>, m: map<bytes, bytes>, token: bytes)
    ensures
      var r := SpellTokens(env, l, tokens, m);
      if token in tokens then token in r && r[token] == RawSpelling(l.tok, env.restore(token))
      else (token in r <==> token in m) && (token in m ==> r[token] == m[token])
    decreases |tokens|
  {
    hide RawSpelling;
    if tokens != [] {
      TokensSpelled(env, l, tokens[1..], m[tokens[0] := RawSpelling(l.tok, env.restore(tokens[0]))], token);
    }
  }

  /** No leaf behind the first ones holds it. */
  predicate NoneFrom(leaves: seq<Leaf>, token: bytes, from: nat) {
    forall i: nat :: from <= i < |leaves| ==> !Holds(leaves[i], token)
  }

  lemma NoneShifted(leaves: seq<Leaf>, token: bytes, from: nat)
    requires leaves != []
    ensures NoneFrom(leaves, token, from + 1) == NoneFrom(leaves[1..], token, from)
  {
    hide Holds;
    var rest := leaves[1..];
    if NoneFrom(leaves, token, from + 1) {
      assert forall i: nat :: i < |rest| ==> rest[i] == leaves[i + 1];
    } else {
      var i: nat :| from + 1 <= i < |leaves| && Holds(leaves[i], token);
      assert rest[i - 1] == leaves[i];
    }
  }

  /** Where no leaf holds it, nothing is recorded for it. */
  lemma {:induction false} NoneSpelled(env: Env, leaves: seq<Leaf>, m: map<bytes, bytes>, token: bytes)
    requires NoneFrom(leaves, token, 0)
    ensures
      var r := SpellLeaves(env, leaves, m);
      (token in r <==> token in m) && (token in m ==> r[token] == m[token])
    decreases |leaves|
  {
    hide RawSpelling, TokensFrom, SpellTokens;
    if leaves != [] {
      var l := leaves[0];
      var tokens := TokensFrom(l.value, 0);
      assert !Holds(l, token);
      TokensSpelled(env, l, tokens, m, token);
      assert NoneFrom(leaves[1..], token, 0) by {
        assert NoneFrom(leaves, token, 1);
        NoneShifted(leaves, token, 0);
      }
      NoneSpelled(env, leaves[1..], SpellTokens(env, l, tokens, m), token);
    }
  }

  /** The last leaf that holds it decides. */
  lemma {:induction false} LastSpelled(env: Env, leaves: seq<Leaf>, m: map<bytes, bytes>, token: bytes, j: nat)
    requires j < |leaves| && Holds(leaves[j], token) && NoneFrom(leaves, token, j + 1)
    ensures
      var r := SpellLeaves(env, leaves, m);
      token in r && r[token] == RawSpelling(leaves[j].tok, env.restore(token))
    decreases |leaves|
  {
    hide RawSpelling, TokensFrom, SpellTokens;
    var l, rest := leaves[0], leaves[1..];
    var tokens := TokensFrom(l.value, 0);
    var m1 := SpellTokens(env, l, tokens, m);
    NoneShifted(leaves, token, j);
    if j == 0 {
      TokensSpelled(env, l, tokens, m, token);
      NoneSpelled(env, rest, m1, token);
    } else {
      NoneShifted(leaves, token, j - 1);
      assert rest[j - 1] == leaves[j];
      LastSpelled(env, rest, m1, token, j - 1);
    }
  }

  /** Which spelling a complete placeholder of a data value gets. */
  lemma SecretSpelled(env: Env, value: bytes, token: bytes)
    requires ContainsPrefix(value)
    ensures
      var now := ReplaceWith(env, SpellFeed(env, value), token);
      match env.walk(value)
      case Some(leaves) =>
        && (forall j :: 0 <= j < |leaves| && Holds(leaves[j], token)
                        && (forall i :: j < i < |leaves| ==> !Holds(leaves[i], token)) ==>
              now == RawSpelling(leaves[j].tok, env.restore(token)))
        && ((forall i :: 0 <= i < |leaves| ==> !Holds(leaves[i], token)) ==>
              now == if env.valid(value) then Escape(env.restore(token)) else env.restore(token))
      case None => now == if env.valid(value) then Escape(env.restore(token)) else env.restore(token)
  {
    hide RawSpelling, SpellLeaves, Holds, ContainsPrefix;
    match env.walk(value)
    case Some(leaves) =>
      forall j | 0 <= j < |leaves| && Holds(leaves[j], token)
                 && forall i :: j < i < |leaves| ==> !Holds(leaves[i], token)
        ensures ReplaceWith(env, SpellFeed(env, value), token) == RawSpelling(leaves[j].tok, env.restore(token))
      {
        assert NoneFrom(leaves, token, j + 1);
        LastSpelled(env, leaves, map[], token, j);
      }
      if forall i :: 0 <= i < |leaves| ==> !Holds(leaves[i], token) {
        assert NoneFrom(leaves, token, 0);
        NoneSpelled(env, leaves, map[], token);
      }
    case None =>
  }
}
