/**
 What is put into a request body: for every substitution whose span can be found in the raw
 document, and for no other, the placeholder that the session has for its text and category.
 */
module SubstituteLaws {
  import opened Bytes
  import opened Lens
  import opened Apply
  import opened Mint
  import opened MintLaws
  import opened Restore

  /** The span is inside the leaf's text, not empty, and the lens finds it. */
  ghost predicate Findable(sub: Substitution) {
    && 0 <= sub.start < sub.end <= |sub.leaf.value|
    && LeafSpan(sub.leaf, sub.start, sub.end) != None
  }

  /** The edit puts the placeholder recorded for the cleaned category and the text. */
  ghost predicate Answers(m: Maps, sub: Substitution, e: Edit) {
    && Findable(sub) && e.leaf == sub.leaf && e.start == sub.start && e.end == sub.end
    && exists clean :: Cleaned(sub.category, clean) && Recorded(m, clean, sub, e)
  }

  ghost predicate Recorded(m: Maps, clean: bytes, sub: Substitution, e: Edit)
    requires Findable(sub)
  {
    var key := clean + [0] + sub.leaf.value[sub.start..sub.end];
    key in m.forward && m.forward[key] == e.repl
  }

  ghost predicate PlanIs(m: Maps, subs: seq<Substitution>, from: nat, owned: seq<Owned>) {
    && (forall k :: 0 <= k < |owned| ==>
          from <= owned[k].owner < |subs| && Answers(m, subs[owned[k].owner], owned[k].edit))
    && (forall j, k :: 0 <= j < k < |owned| ==> owned[j].owner < owned[k].owner)
    && (forall i :: from <= i < |subs| && Findable(subs[i]) ==> exists k :: 0 <= k < |owned| && owned[k].owner == i)
  }

  ghost predicate Extends(m: Maps, later: Maps) {
    forall key :: key in m.forward ==> key in later.forward && later.forward[key] == m.forward[key]
  }

  lemma AnswersStay(m: Maps, later: Maps, sub: Substitution, e: Edit)
    requires Answers(m, sub, e) && Extends(m, later)
    ensures Answers(later, sub, e)
  {
    hide Cleaned;
    var clean :| Cleaned(sub.category, clean) && Recorded(m, clean, sub, e);
    assert Recorded(later, clean, sub, e);
  }

  /** One minting. */
  lemma MintedFor(digest: DigestFn, m: Maps, sub: Substitution)
    requires Minted(digest, m) && Findable(sub)
    ensures
      var (m1, p) := MintOne(digest, m, SecretOf(sub), sub.category);
      && Minted(digest, m1) && Extends(m, m1)
      && (p.Some? ==> Answers(m1, sub, Edit(sub.leaf, sub.start, sub.end, p.value)))
  {
    hide Entries, Injective, InverseMaps, MintOne, SanitizeKind, LeafSpan, Cleaned;
    MintKeeps(digest, m, SecretOf(sub), sub.category);
    SanitizedIs(sub.category);
    var (m1, p) := MintOne(digest, m, SecretOf(sub), sub.category);
    if p.Some? {
      assert Recorded(m1, SanitizeKind(sub.category), sub, Edit(sub.leaf, sub.start, sub.end, p.value));
    }
  }

  lemma {:induction false} PlannedFrom(digest: DigestFn, m: Maps, subs: seq<Substitution>, i: nat)
    requires Minted(digest, m) && i <= |subs|
    ensures
      var (m1, owned) := Planned(digest, m, subs, i);
      && Minted(digest, m1) && Extends(m, m1) && (owned.Some? ==> PlanIs(m1, subs, i, owned.value))
    decreases |subs| - i
  {
    hide Entries, Injective, InverseMaps, MintOne, LeafSpan, Answers, Minted;
    if i < |subs| {
      if !Locatable(subs[i]) {
        PlannedFrom(digest, m, subs, i + 1);
        NotFindable(subs[i]);
      } else {
        MintedFor(digest, m, subs[i]);
        var (m1, p) := MintOne(digest, m, SecretOf(subs[i]), subs[i].category);
        if p.Some? {
          PlannedFrom(digest, m1, subs, i + 1);
          var (m2, rest) := Planned(digest, m1, subs, i + 1);
          if rest.Some? {
            var one := Owned(Edit(subs[i].leaf, subs[i].start, subs[i].end, p.value), i);
            AnswersStay(m1, m2, subs[i], one.edit);
            PlanCons(m2, subs, i, one, rest.value);
          }
        }
      }
    }
  }

  lemma NotFindable(sub: Substitution)
    ensures Findable(sub) <==> Locatable(sub)
  {
    hide LeafSpan;
  }

  lemma PlanCons(m: Maps, subs: seq<Substitution>, i: nat, one: Owned, rest: seq<Owned>)
    requires i < |subs| && one.owner == i && Answers(m, subs[i], one.edit) && PlanIs(m, subs, i + 1, rest)
    ensures PlanIs(m, subs, i, [one] + rest)
  {
    hide Answers, Findable;
    var all := [one] + rest;
    assert all[0] == one && forall k :: 0 < k < |all| ==> all[k] == rest[k - 1];
    forall j | i <= j < |subs| && Findable(subs[j]) ensures exists k :: 0 <= k < |all| && all[k].owner == j {
      if j == i {
        assert all[0].owner == j;
      } else {
        var k :| 0 <= k < |rest| && rest[k].owner == j;
        assert all[k + 1].owner == j;
      }
    }
  }

  /**
   Over a session's maps, Substitute's edits are one for each substitution that can be found, in
   order, each with the placeholder that the session then has for it; or there are none, when one
   of them gets no placeholder.
   */
  lemma PlannedMeans(digest: DigestFn, m: Maps, subs: seq<Substitution>)
    requires Minted(digest, m)
    ensures
      var (m1, owned) := Planned(digest, m, subs, 0);
      && Minted(digest, m1) && Extends(m, m1) && (owned.Some? ==> PlanIs(m1, subs, 0, owned.value))
  {
    hide Planned, Minted, PlanIs, Extends;
    PlannedFrom(digest, m, subs, 0);
  }
}
