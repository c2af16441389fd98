/**
 The two evaluators on one compiled rule set: Compiled.Evaluate, and Registry.Evaluate after
 RegisterCompiled on an empty registry. When they agree is settled exactly.
 */
module FilterAgree {
  import opened Bytes
  import opened Lens
  import opened Search
  import opened StableSort
  import opened Filter
  import opened FilterRegistry

  /** What Compile guarantees of a set, and RegisterCompiled asks again. */
  ghost predicate WellCompiled(pack: Compiled) {
    && [] !in pack.blocklist
    && Sorted(BY_PRIORITY, pack.rules)
    && (forall i, j :: 0 <= i < j < |pack.rules| ==> pack.rules[i].id != pack.rules[j].id)
    && forall r :: r in pack.rules ==> Contract(r.scope, r.action, r.confidence) && FindsSpans(r.find)
  }

  const ANY_ID: bytes -> bool := (id: bytes) => true

  function Registered(pack: Compiled): seq<Entry> {
    Sort(BY_RANK, EntriesOf(RemotePack, ViewsOf(pack, ANY_ID)))
  }

  /** The set is accepted, and its rules keep their order. */
  lemma RegistrationKeepsOrder(pack: Compiled)
    requires WellCompiled(pack)
    ensures BatchOk({}, ViewsOf(pack, ANY_ID))
    ensures Registered(pack) == EntriesOf(RemotePack, ViewsOf(pack, ANY_ID))
  {
    hide Sort, Ranked, FindsSpans, Contract;
    var views := ViewsOf(pack, ANY_ID);
    var entries := EntriesOf(RemotePack, views);
    forall i | 0 <= i < |views| ensures Acceptable(views[i]) {
      assert pack.rules[i] in pack.rules;
    }
    forall i, j | 0 <= i < j < |entries| ensures !BY_RANK(entries[j], entries[i]) {
      assert !BY_PRIORITY(pack.rules[j], pack.rules[i]);
    }
    SortOfSorted(BY_RANK, entries);
  }

  const PLAIN: Attributed -> Finding := (a: Attributed) => a.finding

  /** The same findings, each from the remote pack. */
  predicate Same(findings: seq<Finding>, attributed: seq<Attributed>) {
    && |findings| == |attributed|
    && forall i :: 0 <= i < |findings| ==> attributed[i] == Attributed(findings[i], RemotePack)
  }

  /** The registered path has none of the blocklist's findings. */
  function WithoutBlocklist(pack: Compiled): Compiled {
    pack.(blocklist := [])
  }

  lemma {:induction false} AttributeSame(pack: Compiled, rule: Rule, idOk: bool, index: nat, spans: seq<Span>)
    ensures Same(Stamped(rule, index, spans), Attribute(EntryOf(RemotePack, ViewOf(pack, rule, idOk)), index, spans))
  {
    if spans != [] {
      AttributeSame(pack, rule, idOk, index, spans[1..]);
    }
  }

  lemma SameAppend(a: seq<Finding>, b: seq<Attributed>, c: seq<Finding>, d: seq<Attributed>)
    requires Same(a, b) && Same(c, d)
    ensures Same(a + c, b + d)
  {
  }

  /** One rule: the guard accepts its spans, unless there are more than the bound. */
  lemma EntrySame(pack: Compiled, rule: Rule, phase: Scope, gated: bool, index: nat, value: bytes)
    requires Contract(rule.scope, rule.action, rule.confidence) && FindsSpans(rule.find)
    ensures
      var found := EntryFindings(EntryOf(RemotePack, ViewOf(pack, rule, true)), phase, gated, index, value);
      var expected := if Applies(rule, phase, gated) then RuleFindings(pack, rule, index, value) else [];
      && (found.Some? ==> Same(expected, found.value))
      && (found.None? ==> |expected| > MAX_MATCHES)
  {
    hide Unsuppressed, Stamped, Attribute, Contract;
    var view := ViewOf(pack, rule, true);
    var kept := Unsuppressed(value, rule.find(value), pack.allowlist, rule.allow);
    assert view.inspect(value) == Some(kept);
    assert forall s :: s in kept ==> s in rule.find(value) && SpanOk(s, value);
    AttributeSame(pack, rule, true, index, kept);
    AttributeSame(pack, rule, true, index, []);
    NothingStamped(rule, index);
  }

  lemma NothingStamped(rule: Rule, index: nat)
    ensures Stamped(rule, index, []) == []
  {
  }

  /** An answer of the registered path against what is to be found. */
  predicate Answers(expected: seq<Finding>, found: Option<seq<Attributed>>) {
    if found.Some? then Same(expected, found.value) else |expected| > MAX_MATCHES
  }

  lemma AnswersAppend(a: seq<Finding>, b: Option<seq<Attributed>>, c: seq<Finding>, d: Option<seq<Attributed>>)
    requires Answers(a, b) && Answers(c, d)
    ensures Answers(a + c, Both(b, d))
  {
    if b.Some? && d.Some? {
      SameAppend(a, b.value, c, d.value);
    }
  }

  lemma {:induction false} RulesSame(
    pack: Compiled, rules: seq<Rule>, entries: seq<Entry>, phase: Scope, gated: bool, index: nat, value: bytes)
    requires |rules| == |entries|
    requires forall i :: 0 <= i < |rules| ==> entries[i] == EntryOf(RemotePack, ViewOf(pack, rules[i], true))
    requires forall r :: r in rules ==> Contract(r.scope, r.action, r.confidence) && FindsSpans(r.find)
    ensures Answers(RulesFindings(pack, rules, phase, gated, index, value),
                    EntriesFindings(entries, phase, gated, index, value))
    decreases |rules|
  {
    hide RuleFindings, EntryFindings, Contract, FindsSpans, ViewOf, Applies;
    if rules != [] {
      assert rules[0] in rules;
      EntrySame(pack, rules[0], phase, gated, index, value);
      RulesSame(pack, rules[1..], entries[1..], phase, gated, index, value);
      AnswersAppend(if Applies(rules[0], phase, gated) then RuleFindings(pack, rules[0], index, value) else [],
                    EntryFindings(entries[0], phase, gated, index, value),
                    RulesFindings(pack, rules[1..], phase, gated, index, value),
                    EntriesFindings(entries[1..], phase, gated, index, value));
    }
  }

  lemma {:induction false} RulesIgnoreBlocklist(
    pack: Compiled, rules: seq<Rule>, phase: Scope, gated: bool, index: nat, value: bytes)
    ensures RulesFindings(WithoutBlocklist(pack), rules, phase, gated, index, value)
         == RulesFindings(pack, rules, phase, gated, index, value)
  {
    if rules != [] {
      RulesIgnoreBlocklist(pack, rules[1..], phase, gated, index, value);
    }
  }

  lemma LeafSame(pack: Compiled, phase: Scope, index: nat, leaf: Leaf)
    requires WellCompiled(pack)
    ensures Answers(LeafFindings(WithoutBlocklist(pack), phase, index, leaf),
                    LeafAttributed(EntriesOf(RemotePack, ViewsOf(pack, ANY_ID)), pack.sensitive, phase, index, leaf))
  {
    hide RulesFindings, EntriesFindings, Gated, GateAllows, Contract, FindsSpans, ViewOf, Sorted;
    if leaf.value != [] {
      var gated := Gated(pack.sensitive, phase, leaf);
      var entries := EntriesOf(RemotePack, ViewsOf(pack, ANY_ID));
      RulesSame(pack, pack.rules, entries, phase, gated, index, leaf.value);
      RulesIgnoreBlocklist(pack, pack.rules, phase, gated, index, leaf.value);
      var gate := GateFindings(pack.sensitive, gated, index, leaf.value);
      assert gate + BlockFindings(index, AllOccurrences(leaf.value, [])) == gate;
      AnswersAppend(RulesFindings(pack, pack.rules, phase, gated, index, leaf.value),
                    EntriesFindings(entries, phase, gated, index, leaf.value),
                    gate, Some(GateAttributed(pack.sensitive, gated, index, leaf.value)));
    }
  }

  lemma {:induction false} AllSame(pack: Compiled, phase: Scope, leaves: seq<Leaf>, i: nat)
    requires WellCompiled(pack)
    ensures Answers(AllFindings(WithoutBlocklist(pack), phase, leaves, i),
                    AllAttributed(EntriesOf(RemotePack, ViewsOf(pack, ANY_ID)), pack.sensitive, phase, leaves, i))
    decreases |leaves| - i
  {
    hide LeafFindings, LeafAttributed, WellCompiled, ViewsOf, EntriesOf;
    if i < |leaves| {
      LeafSame(pack, phase, i, leaves[i]);
      AllSame(pack, phase, leaves, i + 1);
      var entries := EntriesOf(RemotePack, ViewsOf(pack, ANY_ID));
      AnswersAppend(LeafFindings(WithoutBlocklist(pack), phase, i, leaves[i]),
                    LeafAttributed(entries, pack.sensitive, phase, i, leaves[i]),
                    AllFindings(WithoutBlocklist(pack), phase, leaves, i + 1),
                    AllAttributed(entries, pack.sensitive, phase, leaves, i + 1));
    }
  }

  lemma SortSame(findings: seq<Finding>, attributed: seq<Attributed>)
    requires Same(findings, attributed)
    ensures Same(Sort(BEFORE, findings), Sort(BY_PLACE, attributed))
  {
    hide Sort, Before;
    assert Map(PLAIN, attributed) == findings;
    SortMap(PLAIN, BY_PLACE, BEFORE, attributed);
    SortMultiset(BY_PLACE, attributed);
    var s := Sort(BY_PLACE, attributed);
    forall i | 0 <= i < |s| ensures s[i].origin == RemotePack {
      assert s[i] in multiset(attributed);
    }
    assert |s| == |multiset(s)| == |multiset(attributed)|;
  }

  /** The registered path finds what the compiled one finds without its blocklist. */
  lemma RegistryFinds(pack: Compiled, leaves: seq<Leaf>, phase: Scope)
    requires WellCompiled(pack)
    ensures
      var all := AllFindings(WithoutBlocklist(pack), phase, leaves, 0);
      var r := RegistryEvaluation(Registered(pack), pack.sensitive, leaves, phase);
      if phase == InBoth || |all| > MAX_MATCHES then r == None
      else r.Some? && Same(Sort(BEFORE, all), r.value)
  {
    hide AllFindings, AllAttributed, WellCompiled, ViewsOf, EntriesOf, Sort;
    RegistrationKeepsOrder(pack);
    AllSame(pack, phase, leaves, 0);
    var all := AllFindings(WithoutBlocklist(pack), phase, leaves, 0);
    var found := AllAttributed(Registered(pack), pack.sensitive, phase, leaves, 0);
    if found.Some? {
      SortSame(all, found.value);
    }
  }

  // ------------------------------------------------------------------------- when they agree

  /** The blocklist stands somewhere in the leaves. */
  ghost predicate Blocked(pack: Compiled, leaves: seq<Leaf>, i: nat)
    requires [] !in pack.blocklist
  {
    exists k :: i <= k < |leaves| && BlockedLeaf(pack, leaves[k])
  }

  ghost predicate BlockedLeaf(pack: Compiled, leaf: Leaf)
    requires [] !in pack.blocklist
  {
    leaf.value != [] && AllOccurrences(leaf.value, pack.blocklist) != []
  }

  /** Some rule that applies reports more raw spans of one leaf than the bound. */
  ghost predicate Flooded(pack: Compiled, phase: Scope, leaves: seq<Leaf>) {
    exists k :: 0 <= k < |leaves| && FloodedLeaf(pack, phase, leaves[k])
  }

  ghost predicate FloodedLeaf(pack: Compiled, phase: Scope, leaf: Leaf) {
    leaf.value != [] && RuleFloods(pack.rules, phase, Gated(pack.sensitive, phase, leaf), leaf.value)
  }

  lemma LeafBlocklist(pack: Compiled, phase: Scope, index: nat, leaf: Leaf)
    requires [] !in pack.blocklist
    ensures
      var with, without := LeafFindings(pack, phase, index, leaf),
        LeafFindings(WithoutBlocklist(pack), phase, index, leaf);
      if BlockedLeaf(pack, leaf) then |with| > |without| else with == without
  {
    hide RulesFindings, Gated, GateAllows;
    if leaf.value != [] {
      var gated := Gated(pack.sensitive, phase, leaf);
      RulesIgnoreBlocklist(pack, pack.rules, phase, gated, index, leaf.value);
    }
  }

  lemma {:induction false} AllBlocklist(pack: Compiled, phase: Scope, leaves: seq<Leaf>, i: nat)
    requires [] !in pack.blocklist
    ensures
      var with, without := AllFindings(pack, phase, leaves, i), AllFindings(WithoutBlocklist(pack), phase, leaves, i);
      if Blocked(pack, leaves, i) then |with| > |without| else with == without
    decreases |leaves| - i
  {
    hide LeafFindings, BlockedLeaf;
    if i < |leaves| {
      LeafBlocklist(pack, phase, i, leaves[i]);
      AllBlocklist(pack, phase, leaves, i + 1);
    }
  }

  /** Both fail, or both give the same findings in the same order. */
  predicate Agree(compiled: Option<seq<Finding>>, registered: Option<seq<Attributed>>) {
    if compiled.Some? && registered.Some? then Same(compiled.value, registered.value)
    else compiled.None? && registered.None?
  }

  /**
   Exactly when the two evaluators agree on a request or response: when the rules' own
   findings already pass the bound (both fail), or no rule floods a leaf with raw spans and
   the blocklist stands nowhere.
   */
  lemma EvaluatorsAgree(pack: Compiled, leaves: seq<Leaf>, phase: Scope)
    requires WellCompiled(pack) && phase != InBoth
    ensures
      Agree(Evaluation(pack, leaves, phase), RegistryEvaluation(Registered(pack), pack.sensitive, leaves, phase))
      <==> (|AllFindings(WithoutBlocklist(pack), phase, leaves, 0)| > MAX_MATCHES
            || (!Flooded(pack, phase, leaves) && !Blocked(pack, leaves, 0)))
  {
    hide AllFindings, RegistryEvaluation, Registered, Sort, RuleFloods, Gated, WellCompiled;
    RegistryFinds(pack, leaves, phase);
    BlocklistOk(pack);
    AllBlocklist(pack, phase, leaves, 0);
    var with, without := AllFindings(pack, phase, leaves, 0), AllFindings(WithoutBlocklist(pack), phase, leaves, 0);
    SortMultiset(BEFORE, with);
    SortMultiset(BEFORE, without);
    assert |Sort(BEFORE, with)| == |multiset(Sort(BEFORE, with))| == |multiset(with)| == |with|;
    assert |Sort(BEFORE, without)| == |multiset(Sort(BEFORE, without))| == |multiset(without)| == |without|;
    FloodsAre(pack, leaves, phase);
  }

  lemma BlocklistOk(pack: Compiled)
    requires WellCompiled(pack)
    ensures [] !in pack.blocklist
  {
  }

  /** Without a blocklist hit, only a rule can flood. */
  lemma FloodsAre(pack: Compiled, leaves: seq<Leaf>, phase: Scope)
    requires [] !in pack.blocklist
    ensures Flooded(pack, phase, leaves) ==> Floods(pack, phase, leaves, 0)
    ensures Floods(pack, phase, leaves, 0) ==> Flooded(pack, phase, leaves) || Blocked(pack, leaves, 0)
  {
    hide RuleFloods, Gated, AllOccurrences;
    if Flooded(pack, phase, leaves) {
      var k :| 0 <= k < |leaves| && FloodedLeaf(pack, phase, leaves[k]);
      assert LeafFloods(pack, phase, leaves[k]);
    }
    if Floods(pack, phase, leaves, 0) {
      var k :| 0 <= k < |leaves| && LeafFloods(pack, phase, leaves[k]);
      assert FloodedLeaf(pack, phase, leaves[k]) || BlockedLeaf(pack, leaves[k]);
    }
  }

  // ------------------------------------------------------------------ where they differ

  /** A set without rules that blocks the letter x, and a leaf that is that letter. */
  const BLOCKING: Compiled := Compiled([], [], [[120]], None)

  predicate IsLetter(leaf: Leaf) {
    leaf.value == [120]
  }

  /** Compiled.Evaluate reports the letter, Registry.Evaluate nothing. */
  lemma BlocklistLost(leaf: Leaf, phase: Scope)
    requires IsLetter(leaf) && phase != InBoth
    ensures WellCompiled(BLOCKING)
    ensures !Agree(Evaluation(BLOCKING, [leaf], phase),
                   RegistryEvaluation(Registered(BLOCKING), BLOCKING.sensitive, [leaf], phase))
  {
    hide Evaluation, RegistryEvaluation, Registered, Agree;
    var letter: bytes := [120];
    assert forall l :: l in BLOCKING.blocklist ==> l == letter;
    EvaluatorsAgree(BLOCKING, [leaf], phase);
    LetterBlocked(leaf);
    NothingFound(leaf, phase);
  }

  lemma LetterBlocked(leaf: Leaf)
    requires IsLetter(leaf)
    ensures [] !in BLOCKING.blocklist && Blocked(BLOCKING, [leaf], 0)
  {
    var x: bytes := [120];
    assert x[0..1] == x && OccursAt(x, x, 0);
    assert FirstAt(x, x, 0) == Some(0);
    assert Occurrences(x, x, 0) != [];
    assert AllOccurrences(x, [x]) == Occurrences(x, x, 0) + AllOccurrences(x, [x][1..]);
    assert BlockedLeaf(BLOCKING, [leaf][0]);
  }

  lemma NothingFound(leaf: Leaf, phase: Scope)
    requires IsLetter(leaf)
    ensures AllFindings(WithoutBlocklist(BLOCKING), phase, [leaf], 0) == []
  {
    var pack := WithoutBlocklist(BLOCKING);
    assert AllFindings(pack, phase, [leaf], 1) == [];
    assert LeafFindings(pack, phase, 0, leaf) == [];
  }
}
