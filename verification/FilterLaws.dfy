/**
 The order in which a document declares its rules does not matter.
 */
module FilterLaws {
  import opened Bytes
  import opened StableSort
  import opened Filter
  import opened FilterRegistry

  // --------------------------------------------------------------- the order of rules

  lemma {:induction false} LexIrreflexive(a: bytes)
    ensures !LexBefore(a, a)
  {
    if a != [] {
      LexIrreflexive(a[1..]);
    }
  }

  lemma {:induction false} LexTotal(a: bytes, b: bytes)
    ensures a == b || LexBefore(a, b) || LexBefore(b, a)
  {
    if a != [] && b != [] && a[0] == b[0] {
      LexTotal(a[1..], b[1..]);
      assert a == [a[0]] + a[1..] && b == [b[0]] + b[1..];
    }
  }

  lemma {:induction false} LexTransitive(a: bytes, b: bytes, c: bytes)
    requires LexBefore(a, b) && LexBefore(b, c)
    ensures LexBefore(a, c)
  {
    if a != [] && a[0] == b[0] && b[0] == c[0] {
      LexTransitive(a[1..], b[1..], c[1..]);
    }
  }

  lemma LexWeak(a: bytes, b: bytes, c: bytes)
    requires !LexBefore(a, b) && !LexBefore(b, c)
    ensures !LexBefore(a, c)
  {
    LexTotal(a, b);
    LexTotal(b, c);
    if LexBefore(a, c) {
      if a == b || b == c {
      } else {
        LexTransitive(c, b, a);
        LexTransitive(a, c, a);
        LexIrreflexive(a);
      }
    }
  }

  lemma PriorityIsWeakOrder()
    ensures WeakOrder(BY_PRIORITY)
  {
    hide LexBefore;
    forall a: Rule ensures !BY_PRIORITY(a, a) {
      LexIrreflexive(a.id);
    }
    forall a: Rule, b: Rule, c: Rule | BY_PRIORITY(a, b) && BY_PRIORITY(b, c) ensures BY_PRIORITY(a, c) {
      if a.priority == b.priority == c.priority {
        LexTransitive(a.id, b.id, c.id);
      }
    }
    forall a: Rule, b: Rule, c: Rule | !BY_PRIORITY(a, b) && !BY_PRIORITY(b, c) ensures !BY_PRIORITY(a, c) {
      if a.priority == b.priority == c.priority {
        LexWeak(a.id, b.id, c.id);
      }
    }
  }

  ghost predicate DistinctIds(rules: seq<Rule>) {
    forall i, j :: 0 <= i < j < |rules| ==> rules[i].id != rules[j].id
  }

  lemma IdsOrder(rules: seq<Rule>)
    requires DistinctIds(rules)
    ensures Distinct(BY_PRIORITY, rules)
  {
    hide LexBefore;
    forall i, j | 0 <= i < j < |rules| ensures BY_PRIORITY(rules[i], rules[j]) || BY_PRIORITY(rules[j], rules[i]) {
      LexTotal(rules[i].id, rules[j].id);
    }
  }

  lemma {:induction false} EvaluableDistinct(docs: seq<RuleDoc>)
    requires DocOk(docs)
    ensures DistinctIds(Evaluable(docs))
    ensures forall r :: r in Evaluable(docs) ==> exists i :: 0 <= i < |docs| && docs[i].rule == r
  {
    if docs != [] {
      var rest := docs[1..];
      EvaluableDistinct(rest);
      forall r | r in Evaluable(docs) ensures exists i :: 0 <= i < |docs| && docs[i].rule == r {
        if r in Evaluable(rest) {
          var i :| 0 <= i < |rest| && rest[i].rule == r;
          assert docs[i + 1].rule == r;
        } else {
          assert docs[0].rule == r;
        }
      }
      forall r | r in Evaluable(rest) ensures r.id != docs[0].rule.id {
        var i :| 0 <= i < |rest| && rest[i].rule == r;
        assert docs[i + 1].rule == r;
      }
      var all, tail := Evaluable(docs), Evaluable(rest);
      if !docs[0].command {
        assert all[0] == docs[0].rule && all[1..] == tail;
        forall i, j | 0 <= i < j < |all| ensures all[i].id != all[j].id {
          assert all[j] == tail[j - 1] && tail[j - 1] in tail;
          assert i > 0 ==> all[i] == tail[i - 1];
        }
      } else {
        assert all == tail;
      }
    }
  }

  lemma TakeDoc(b: seq<RuleDoc>, k: nat)
    requires k < |b|
    ensures multiset(b[..k] + b[k + 1..]) == multiset(b) - multiset{b[k]}
    ensures multiset(Evaluable(b)) == multiset(Evaluable(b[..k] + b[k + 1..])) + if b[k].command then multiset{}
            else multiset{b[k].rule}
  {
    hide Evaluable;
    assert b == b[..k] + ([b[k]] + b[k + 1..]);
    EvaluableAppend(b[..k], [b[k]] + b[k + 1..]);
    EvaluableAppend([b[k]], b[k + 1..]);
    EvaluableAppend(b[..k], b[k + 1..]);
    EvaluableOne(b[k]);
  }

  lemma EvaluableOne(d: RuleDoc)
    ensures Evaluable([d]) == if d.command then [] else [d.rule]
  {
    assert Evaluable([d]) == (if d.command then [] else [d.rule]) + Evaluable([]);
  }

  lemma {:induction false} EvaluableAppend(a: seq<RuleDoc>, b: seq<RuleDoc>)
    ensures Evaluable(a + b) == Evaluable(a) + Evaluable(b)
  {
    if a == [] {
      assert a + b == b;
    } else {
      EvaluableAppend(a[1..], b);
      assert (a + b)[1..] == a[1..] + b && (a + b)[0] == a[0];
      Assoc(if a[0].command then [] else [a[0].rule], Evaluable(a[1..]), Evaluable(b));
    }
  }

  lemma {:induction false} EvaluablePermuted(a: seq<RuleDoc>, b: seq<RuleDoc>)
    requires multiset(a) == multiset(b)
    ensures multiset(Evaluable(a)) == multiset(Evaluable(b))
    decreases |a|
  {
    hide Evaluable;
    assert |a| == |multiset(a)| && |b| == |multiset(b)|;
    if a == [] {
      assert b == [];
    } else {
      assert a[0] in multiset(b);
      var k :| 0 <= k < |b| && b[k] == a[0];
      TakeDoc(b, k);
      TakeDoc(a, 0);
      assert a[..0] + a[1..] == a[1..];
      EvaluablePermuted(a[1..], b[..k] + b[k + 1..]);
    }
  }

  ghost predicate OkElsewhere(d: RuleDoc, docs: seq<RuleDoc>) {
    d.wellFormed && multiset(docs)[d] == 1 && forall e :: e in docs && e != d ==> e.rule.id != d.rule.id
  }

  /** Whether a document compiles is a property of its rules, not of their order. */
  lemma DocOkBySet(docs: seq<RuleDoc>)
    ensures DocOk(docs) <==> forall d :: d in docs ==> OkElsewhere(d, docs)
  {
    if DocOk(docs) {
      forall d | d in docs ensures OkElsewhere(d, docs) {
        var i :| 0 <= i < |docs| && docs[i] == d;
        CountOnce(docs, i);
      }
    }
    if forall d :: d in docs ==> OkElsewhere(d, docs) {
      forall i | 0 <= i < |docs| ensures docs[i].wellFormed {
        assert docs[i] in docs && OkElsewhere(docs[i], docs);
      }
      forall i, j | 0 <= i < j < |docs| ensures docs[i].rule.id != docs[j].rule.id {
        assert docs[i] in docs && docs[j] in docs && OkElsewhere(docs[i], docs);
        if docs[i] == docs[j] {
          CountTwice(docs, i, j);
        }
      }
    }
  }

  lemma CountOnce<T>(s: seq<T>, i: nat)
    requires i < |s| && forall j :: 0 <= j < |s| && j != i ==> s[j] != s[i]
    ensures multiset(s)[s[i]] == 1
  {
    assert s == s[..i] + ([s[i]] + s[i + 1..]);
    assert s[i] !in s[..i] && s[i] !in s[i + 1..];
  }

  lemma CountTwice<T>(s: seq<T>, i: nat, j: nat)
    requires i < j < |s| && s[i] == s[j]
    ensures multiset(s)[s[i]] >= 2
  {
    assert s == s[..j] + s[j..];
    assert s[i] == s[..j][i] && s[..j][i] in multiset(s[..j]);
    assert s[j] == s[j..][0] && s[j..][0] in multiset(s[j..]);
  }

  /** Declaring the same rules in another order compiles to the same rule set, or to none. */
  lemma CompileAnyOrder(a: seq<RuleDoc>, b: seq<RuleDoc>)
    requires multiset(a) == multiset(b)
    ensures CompileRules(a) == CompileRules(b)
  {
    hide Sort, Evaluable, DocOk;
    DocOkBySet(a);
    DocOkBySet(b);
    assert forall d :: d in a <==> d in multiset(a);
    assert forall d :: d in b <==> d in multiset(b);
    assert forall d :: OkElsewhere(d, a) <==> OkElsewhere(d, b);
    if DocOk(a) {
      EvaluableDistinct(a);
      EvaluablePermuted(a, b);
      SortedSame(Evaluable(a), Evaluable(b));
    }
  }

  lemma {:induction false} EvaluableHas(docs: seq<RuleDoc>, r: Rule)
    ensures r in Evaluable(docs) <==> exists i :: 0 <= i < |docs| && docs[i].rule == r && !docs[i].command
  {
    if docs != [] {
      EvaluableHas(docs[1..], r);
      assert forall i :: 0 < i < |docs| ==> docs[i] == docs[1..][i - 1];
      assert r in Evaluable(docs) <==> r in Evaluable(docs[1..]) || (docs[0].rule == r && !docs[0].command);
    }
  }

  /**
   What compiles is every rule that is no command, by ascending priority and then by id, and no id
   occurs twice. Nothing compiles exactly when a rule is ill-formed or two have the same id.
   */
  lemma CompiledInOrder(docs: seq<RuleDoc>)
    ensures CompileRules(docs) == None <==>
            || (exists i :: 0 <= i < |docs| && !docs[i].wellFormed)
            || exists i, j :: 0 <= i < j < |docs| && docs[i].rule.id == docs[j].rule.id
    ensures CompileRules(docs).Some? ==>
              var rules := CompileRules(docs).value;
              && Sorted(BY_PRIORITY, rules) && DistinctIds(rules) && multiset(rules) == multiset(Evaluable(docs))
              && (forall i, j :: 0 <= i < j < |rules| ==>
                    || rules[i].priority < rules[j].priority
                    || (rules[i].priority == rules[j].priority && LexBefore(rules[i].id, rules[j].id)))
              && forall r :: r in rules <==> exists i :: 0 <= i < |docs| && docs[i].rule == r && !docs[i].command
  {
    hide Sort, Evaluable, LexBefore;
    if CompileRules(docs).Some? {
      var rules := CompileRules(docs).value;
      PriorityIsWeakOrder();
      EvaluableDistinct(docs);
      SortSorted(BY_PRIORITY, Evaluable(docs));
      SortMultiset(BY_PRIORITY, Evaluable(docs));
      DistinctPermuted(Evaluable(docs), rules);
      forall i, j | 0 <= i < j < |rules|
        ensures
          || rules[i].priority < rules[j].priority
          || (rules[i].priority == rules[j].priority && LexBefore(rules[i].id, rules[j].id))
      {
        assert !BY_PRIORITY(rules[j], rules[i]);
        LexTotal(rules[i].id, rules[j].id);
      }
      forall r ensures r in rules <==> exists i :: 0 <= i < |docs| && docs[i].rule == r && !docs[i].command {
        EvaluableHas(docs, r);
        assert r in rules <==> r in multiset(rules);
        assert r in Evaluable(docs) <==> r in multiset(Evaluable(docs));
      }
    }
  }

  lemma SortedSame(a: seq<Rule>, b: seq<Rule>)
    requires DistinctIds(a) && multiset(a) == multiset(b)
    ensures Sort(BY_PRIORITY, a) == Sort(BY_PRIORITY, b)
  {
    hide Sort;
    PriorityIsWeakOrder();
    SortMultiset(BY_PRIORITY, a);
    SortMultiset(BY_PRIORITY, b);
    SortSorted(BY_PRIORITY, a);
    SortSorted(BY_PRIORITY, b);
    DistinctPermuted(a, Sort(BY_PRIORITY, a));
    IdsOrder(Sort(BY_PRIORITY, a));
    SortedUnique(BY_PRIORITY, Sort(BY_PRIORITY, a), Sort(BY_PRIORITY, b));
  }

  lemma DistinctPermuted(a: seq<Rule>, b: seq<Rule>)
    requires DistinctIds(a) && multiset(a) == multiset(b)
    ensures DistinctIds(b)
  {
    forall i, j | 0 <= i < j < |b| ensures b[i].id != b[j].id {
      assert b[i] in multiset(a) && b[j] in multiset(a);
      var k :| 0 <= k < |a| && a[k] == b[i];
      var l :| 0 <= l < |a| && a[l] == b[j];
      if k == l {
        CountTwice(b, i, j);
        CountOnce(a, k);
      }
    }
  }
}
