/**
 What the compiled evaluator reports, said of single findings: a rule's spans that no allowlist
 covers, a gated leaf as a whole, and the blocklist's literals; in the order of leaf, start and
 end. Nothing else is reported, and none of these is left out.
 */
module FilterMeaning {
  import opened Bytes
  import opened Lens
  import opened Search
  import opened StableSort
  import opened Filter

  /** Some literal of the list stands where it covers the span. */
  ghost predicate CoveredBy(value: bytes, start: int, end: int, literals: seq<bytes>) {
    exists literal, p :: literal in literals && literal != [] && StandsOver(value, literal, p, start, end)
  }

  ghost predicate StandsOver(value: bytes, literal: bytes, p: int, start: int, end: int) {
    0 <= p <= start && end <= p + |literal| <= |value| && value[p..p + |literal|] == literal
  }

  /** In a request, the configured keys name leaves that are not for rules that redact. */
  ghost predicate KeyNamed(pack: Compiled, phase: Scope, leaf: Leaf) {
    phase == InRequest && pack.sensitive.Some? && pack.sensitive.value.names(leaf)
  }

  ghost predicate ByRule(pack: Compiled, phase: Scope, index: nat, leaf: Leaf, rule: Rule, span: Span, f: Finding) {
    && rule in pack.rules && (rule.scope == phase || rule.scope == InBoth)
    && !(KeyNamed(pack, phase, leaf) && rule.action == Redact)
    && span in rule.find(leaf.value)
    && !CoveredBy(leaf.value, span.start, span.end, pack.allowlist)
    && !CoveredBy(leaf.value, span.start, span.end, rule.allow)
    && f == Finding(rule.id, rule.category, rule.action, index, span.start, span.end, rule.confidence)
  }

  ghost predicate ByKey(pack: Compiled, phase: Scope, index: nat, leaf: Leaf, f: Finding) {
    && KeyNamed(pack, phase, leaf) && leaf.value !in pack.sensitive.value.allowlist
    && f == Finding(BytesOf("sensitive_key"), BytesOf("custom"), Redact, index, 0, |leaf.value|, 1.0)
  }

  ghost predicate ByBlocklist(pack: Compiled, index: nat, leaf: Leaf, literal: bytes, p: nat, f: Finding) {
    && literal in pack.blocklist && p + |literal| <= |leaf.value| && leaf.value[p..p + |literal|] == literal
    && f == Finding(BytesOf("blocklist"), BytesOf("custom"), Block, index, p, p + |literal|, 1.0)
  }

  /** The finding has one of the three reasons. */
  ghost predicate Justified(pack: Compiled, phase: Scope, index: nat, leaf: Leaf, f: Finding) {
    leaf.value != [] &&
    (|| (exists rule, span :: ByRule(pack, phase, index, leaf, rule, span, f))
     || ByKey(pack, phase, index, leaf, f)
     || (exists literal, p: nat :: ByBlocklist(pack, index, leaf, literal, p, f)))
  }

  // ------------------------------------------------------------------------------ one leaf

  lemma InsideIsCovered(value: bytes, literals: seq<bytes>, start: int, end: int)
    ensures (exists literal :: literal in literals && Inside(value, literal, start, end)) <==>
            CoveredBy(value, start, end, literals)
  {
    if literal :| literal in literals && Inside(value, literal, start, end) {
      var p :| 0 <= p <= start && OccursAt(value, literal, p) && end <= p + |literal|;
      assert StandsOver(value, literal, p, start, end);
    }
    if literal, p :| literal in literals && literal != [] && StandsOver(value, literal, p, start, end) {
      assert OccursAt(value, literal, p);
      assert Inside(value, literal, start, end);
    }
  }

  lemma SuppressedIs(value: bytes, span: Span, globally: seq<bytes>, own: seq<bytes>)
    ensures Suppressed(value, span, globally, own) <==>
            CoveredBy(value, span.start, span.end, globally) || CoveredBy(value, span.start, span.end, own)
  {
    hide Inside, CoveredBy;
    InsideIsCovered(value, globally, span.start, span.end);
    InsideIsCovered(value, own, span.start, span.end);
  }

  /** A literal that covers the whole value is the value. */
  lemma GateAllowsIs(sensitive: Option<Sensitive>, value: bytes)
    requires sensitive.Some? && value != []
    ensures GateAllows(sensitive, value) <==> value in sensitive.value.allowlist
  {
    if literal :| literal in sensitive.value.allowlist && Inside(value, literal, 0, |value|) {
      var p :| 0 <= p <= 0 && OccursAt(value, literal, p) && |value| <= p + |literal|;
      assert value[0..|value|] == value && literal == value;
    }
    if value in sensitive.value.allowlist {
      assert value[0..|value|] == value;
      assert OccursAt(value, value, 0);
      assert Inside(value, value, 0, |value|);
    }
  }

  lemma {:induction false} Unsuppresses(value: bytes, spans: seq<Span>, globally: seq<bytes>, own: seq<bytes>)
    ensures forall s :: s in Unsuppressed(value, spans, globally, own) <==>
                        s in spans && !Suppressed(value, s, globally, own)
  {
    hide Suppressed;
    if spans != [] {
      Unsuppresses(value, spans[1..], globally, own);
      assert forall s :: s in spans <==> s == spans[0] || s in spans[1..];
    }
  }

  lemma {:induction false} StampedIs(rule: Rule, index: nat, spans: seq<Span>)
    ensures forall f :: f in Stamped(rule, index, spans) <==> exists s :: s in spans && f == RuleFinding(rule, index, s)
  {
    hide RuleFinding;
    if spans != [] {
      StampedIs(rule, index, spans[1..]);
      assert forall s :: s in spans <==> s == spans[0] || s in spans[1..];
    }
  }

  lemma OneRuleReports(pack: Compiled, phase: Scope, index: nat, leaf: Leaf, rule: Rule, f: Finding)
    requires rule in pack.rules
    ensures
      (Applies(rule, phase, Gated(pack.sensitive, phase, leaf))
        && f in RuleFindings(pack, rule, index, leaf.value)) <==>
      exists span :: ByRule(pack, phase, index, leaf, rule, span, f)
  {
    hide Suppressed, Unsuppressed, Stamped, CoveredBy;
    var spans := rule.find(leaf.value);
    Unsuppresses(leaf.value, spans, pack.allowlist, rule.allow);
    StampedIs(rule, index, Unsuppressed(leaf.value, spans, pack.allowlist, rule.allow));
    forall s ensures Suppressed(leaf.value, s, pack.allowlist, rule.allow) <==>
      CoveredBy(leaf.value, s.start, s.end, pack.allowlist) || CoveredBy(leaf.value, s.start, s.end, rule.allow)
    {
      SuppressedIs(leaf.value, s, pack.allowlist, rule.allow);
    }
    if f in RuleFindings(pack, rule, index, leaf.value) && Applies(rule, phase, Gated(pack.sensitive, phase, leaf)) {
      var s :| s in Unsuppressed(leaf.value, spans, pack.allowlist, rule.allow) && f == RuleFinding(rule, index, s);
      assert ByRule(pack, phase, index, leaf, rule, s, f);
    }
    if span :| ByRule(pack, phase, index, leaf, rule, span, f) {
      assert f == RuleFinding(rule, index, span);
    }
  }

  lemma {:induction false} RulesReport(
    pack: Compiled, rules: seq<Rule>, phase: Scope, index: nat, leaf: Leaf, f: Finding)
    requires forall rule :: rule in rules ==> rule in pack.rules
    ensures
      f in RulesFindings(pack, rules, phase, Gated(pack.sensitive, phase, leaf), index, leaf.value) <==>
      exists rule, span :: rule in rules && ByRule(pack, phase, index, leaf, rule, span, f)
  {
    hide ByRule, RuleFindings, Applies, Gated;
    if rules != [] {
      assert rules[0] in rules;
      OneRuleReports(pack, phase, index, leaf, rules[0], f);
      RulesReport(pack, rules[1..], phase, index, leaf, f);
      assert forall r :: r in rules <==> r == rules[0] || r in rules[1..];
    }
  }

  lemma {:induction false} BlockFindingsAre(index: nat, spans: seq<Span>)
    ensures forall f :: f in BlockFindings(index, spans) <==> exists s :: s in spans && f == BlockFinding(index, s)
  {
    hide BlockFinding;
    if spans != [] {
      BlockFindingsAre(index, spans[1..]);
      assert forall s :: s in spans <==> s == spans[0] || s in spans[1..];
    }
  }

  /** The blocklist's spans: each is a literal that stands there, and each such literal is met by one. */
  lemma {:induction false} BlockedSpans(value: bytes, literals: seq<bytes>)
    requires [] !in literals
    ensures forall s :: s in AllOccurrences(value, literals) ==>
              exists literal :: literal in literals && OccursAt(value, literal, s.start) && s.end == s.start + |literal|
    ensures forall literal, p :: literal in literals && OccursAt(value, literal, p) ==>
              exists s :: s in AllOccurrences(value, literals) && s.start <= p < s.end
  {
    hide OccursAt, Occurrences;
    if literals != [] {
      var first := literals[0];
      assert first in literals;
      OccurrencesExact(value, first, 0);
      OccurrencesMeet(value, first);
      BlockedSpans(value, literals[1..]);
      assert forall l :: l in literals <==> l == first || l in literals[1..];
    }
  }

  lemma OccurrencesMeet(value: bytes, literal: bytes)
    requires literal != [] && Exact(value, literal, 0, Occurrences(value, literal, 0))
    ensures forall s :: s in Occurrences(value, literal, 0) ==>
              OccursAt(value, literal, s.start) && s.end == s.start + |literal|
    ensures forall p :: OccursAt(value, literal, p) ==>
              exists s :: s in Occurrences(value, literal, 0) && s.start <= p < s.end
  {
    hide Occurrences;
    var r := Occurrences(value, literal, 0);
    forall p | OccursAt(value, literal, p) ensures exists s :: s in r && s.start <= p < s.end {
      ExactMeets(value, literal, 0, r, p);
      var i :| 0 <= i < |r| && r[i].start <= p < r[i].end;
      assert r[i] in r;
    }
  }

  lemma Labels()
    ensures BytesOf("sensitive_key") == SENSITIVE_KEY && BytesOf("custom") == CUSTOM
    ensures BytesOf("blocklist") == BLOCKLIST
  {
  }

  lemma LeafFindingsSplit(pack: Compiled, phase: Scope, index: nat, leaf: Leaf, f: Finding)
    requires [] !in pack.blocklist && leaf.value != []
    ensures
      var gated := Gated(pack.sensitive, phase, leaf);
      f in LeafFindings(pack, phase, index, leaf) <==>
      || f in RulesFindings(pack, pack.rules, phase, gated, index, leaf.value)
      || f in GateFindings(pack.sensitive, gated, index, leaf.value)
      || f in BlockFindings(index, AllOccurrences(leaf.value, pack.blocklist))
  {
    hide RulesFindings, GateFindings, BlockFindings, AllOccurrences, Gated;
  }

  lemma GateReports(pack: Compiled, phase: Scope, index: nat, leaf: Leaf, f: Finding)
    requires leaf.value != []
    ensures f in GateFindings(pack.sensitive, Gated(pack.sensitive, phase, leaf), index, leaf.value) <==>
            ByKey(pack, phase, index, leaf, f)
  {
    hide GateAllows;
    Labels();
    if pack.sensitive.Some? {
      GateAllowsIs(pack.sensitive, leaf.value);
    }
  }

  /** Every finding of a leaf has a reason. */
  lemma LeafJustified(pack: Compiled, phase: Scope, index: nat, leaf: Leaf, f: Finding)
    requires [] !in pack.blocklist && f in LeafFindings(pack, phase, index, leaf)
    ensures Justified(pack, phase, index, leaf, f) && f.leafIndex == index
  {
    hide ByRule, ByKey, ByBlocklist, RulesFindings, GateFindings, Gated, BlockFindings, AllOccurrences, LeafFindings;
    NoFindings(pack, phase, index, leaf);
    LeafFindingsSplit(pack, phase, index, leaf, f);
    if f in BlockFindings(index, AllOccurrences(leaf.value, pack.blocklist)) {
      var literal, p := BlockReason(pack, index, leaf, f);
    } else if f in GateFindings(pack.sensitive, Gated(pack.sensitive, phase, leaf), index, leaf.value) {
      GateReports(pack, phase, index, leaf, f);
      ByKeyIndex(pack, phase, index, leaf, f);
    } else {
      RulesReport(pack, pack.rules, phase, index, leaf, f);
      var rule, span :| rule in pack.rules && ByRule(pack, phase, index, leaf, rule, span, f);
      ByRuleIndex(pack, phase, index, leaf, rule, span, f);
    }
  }

  lemma BlockReason(pack: Compiled, index: nat, leaf: Leaf, f: Finding) returns (literal: bytes, p: nat)
    requires [] !in pack.blocklist && f in BlockFindings(index, AllOccurrences(leaf.value, pack.blocklist))
    ensures ByBlocklist(pack, index, leaf, literal, p, f) && f.leafIndex == index
  {
    hide BlockFindings, AllOccurrences;
    Labels();
    var spans := AllOccurrences(leaf.value, pack.blocklist);
    BlockFindingsAre(index, spans);
    BlockedSpans(leaf.value, pack.blocklist);
    var s :| s in spans && f == BlockFinding(index, s);
    literal :| literal in pack.blocklist && OccursAt(leaf.value, literal, s.start) && s.end == s.start + |literal|;
    p := s.start;
  }

  lemma ByKeyIndex(pack: Compiled, phase: Scope, index: nat, leaf: Leaf, f: Finding)
    requires ByKey(pack, phase, index, leaf, f)
    ensures f.leafIndex == index
  {
  }

  lemma NoFindings(pack: Compiled, phase: Scope, index: nat, leaf: Leaf)
    requires [] !in pack.blocklist
    ensures leaf.value == [] ==> LeafFindings(pack, phase, index, leaf) == []
  {
  }

  lemma ByRuleIndex(pack: Compiled, phase: Scope, index: nat, leaf: Leaf, rule: Rule, span: Span, f: Finding)
    requires ByRule(pack, phase, index, leaf, rule, span, f)
    ensures f.leafIndex == index
  {
  }

  /** A leaf's finding for a literal of the blocklist that meets the place. */
  ghost predicate Blocks(g: Finding, index: nat, p: int) {
    g.leafIndex == index && g.ruleID == BytesOf("blocklist") && g.action == Block && g.start <= p < g.end
  }

  /** Nothing of a leaf is left out. */
  lemma LeafComplete(pack: Compiled, phase: Scope, index: nat, leaf: Leaf)
    requires [] !in pack.blocklist && leaf.value != []
    ensures forall rule, span, f :: ByRule(pack, phase, index, leaf, rule, span, f) ==>
                                    f in LeafFindings(pack, phase, index, leaf)
    ensures forall f :: ByKey(pack, phase, index, leaf, f) ==> f in LeafFindings(pack, phase, index, leaf)
    ensures forall literal, p: nat, f :: ByBlocklist(pack, index, leaf, literal, p, f) ==>
              exists g :: g in LeafFindings(pack, phase, index, leaf) && Blocks(g, index, p)
  {
    hide ByRule, ByKey, RulesFindings, GateFindings, Gated, BlockFindings, AllOccurrences, LeafFindings, Blocks;
    forall rule, span, f | ByRule(pack, phase, index, leaf, rule, span, f)
      ensures f in LeafFindings(pack, phase, index, leaf)
    {
      ByRuleIn(pack, phase, index, leaf, rule, span, f);
      RulesReport(pack, pack.rules, phase, index, leaf, f);
      LeafFindingsSplit(pack, phase, index, leaf, f);
    }
    forall f | ByKey(pack, phase, index, leaf, f) ensures f in LeafFindings(pack, phase, index, leaf) {
      GateReports(pack, phase, index, leaf, f);
      LeafFindingsSplit(pack, phase, index, leaf, f);
    }
    forall literal, p: nat, f | ByBlocklist(pack, index, leaf, literal, p, f)
      ensures exists g :: g in LeafFindings(pack, phase, index, leaf) && Blocks(g, index, p)
    {
      var g := BlockedAt(pack, phase, index, leaf, literal, p);
    }
  }

  lemma ByRuleIn(pack: Compiled, phase: Scope, index: nat, leaf: Leaf, rule: Rule, span: Span, f: Finding)
    requires ByRule(pack, phase, index, leaf, rule, span, f)
    ensures rule in pack.rules
  {
  }

  lemma BlockedAt(pack: Compiled, phase: Scope, index: nat, leaf: Leaf, literal: bytes, p: nat) returns (g: Finding)
    requires [] !in pack.blocklist && leaf.value != [] && literal in pack.blocklist
    requires OccursAt(leaf.value, literal, p)
    ensures g in LeafFindings(pack, phase, index, leaf) && Blocks(g, index, p)
  {
    hide RulesFindings, GateFindings, Gated, BlockFindings, AllOccurrences, LeafFindings, Blocks, BlockFinding;
    hide OccursAt;
    BlockedSpans(leaf.value, pack.blocklist);
    var spans := AllOccurrences(leaf.value, pack.blocklist);
    var s :| s in spans && s.start <= p < s.end;
    BlockFindingsAre(index, spans);
    g := BlockFinding(index, s);
    BlockFindingBlocks(index, s, p);
    LeafFindingsSplit(pack, phase, index, leaf, g);
  }

  lemma BlockFindingBlocks(index: nat, s: Span, p: int)
    requires s.start <= p < s.end
    ensures Blocks(BlockFinding(index, s), index, p)
  {
    Labels();
  }

  // ---------------------------------------------------------------------------- all leaves

  lemma {:induction false} FindingsOfLeaves(pack: Compiled, phase: Scope, leaves: seq<Leaf>, i: nat, f: Finding)
    requires [] !in pack.blocklist && i <= |leaves|
    ensures f in AllFindings(pack, phase, leaves, i) <==>
            exists k: nat :: i <= k < |leaves| && f in LeafFindings(pack, phase, k, leaves[k])
    decreases |leaves| - i
  {
    hide LeafFindings;
    if i < |leaves| {
      FindingsOfLeaves(pack, phase, leaves, i + 1, f);
    }
  }

  lemma BeforeIsWeak()
    ensures WeakOrder(BEFORE)
  {
  }

  /** In the order of leaf, start and end. */
  ghost predicate InOrder(fs: seq<Finding>) {
    forall i, j :: 0 <= i < j < |fs| ==>
      || fs[i].leafIndex < fs[j].leafIndex
      || (fs[i].leafIndex == fs[j].leafIndex
          && (fs[i].start < fs[j].start || (fs[i].start == fs[j].start && fs[i].end <= fs[j].end)))
  }

  lemma SortInOrder(fs: seq<Finding>)
    ensures InOrder(Sort(BEFORE, fs)) && |Sort(BEFORE, fs)| == |fs|
    ensures forall f :: f in Sort(BEFORE, fs) <==> f in fs
  {
    BeforeIsWeak();
    SortSorted(BEFORE, fs);
    SortMultiset(BEFORE, fs);
    var r := Sort(BEFORE, fs);
    assert |r| == |multiset(r)| && |fs| == |multiset(fs)|;
    assert forall f :: f in r <==> f in multiset(r);
    assert forall f :: f in fs <==> f in multiset(fs);
    forall i, j | 0 <= i < j < |r|
      ensures
        || r[i].leafIndex < r[j].leafIndex
        || (r[i].leafIndex == r[j].leafIndex
            && (r[i].start < r[j].start || (r[i].start == r[j].start && r[i].end <= r[j].end)))
    {
      assert !BEFORE(r[j], r[i]);
    }
  }

  /**
   What is reported is in order, at most 4096 findings, and each has its reason: a rule whose scope
   is the phase or both found a span that no allowlist covers, a configured key names the leaf, or a
   literal of the blocklist stands there. And each such span, each such leaf and each such literal
   is reported; of literals that overlap, one that meets them.
   */
  lemma EvaluationMeans(pack: Compiled, leaves: seq<Leaf>, phase: Scope)
    requires [] !in pack.blocklist && Evaluation(pack, leaves, phase).Some?
    ensures
      var r := Evaluation(pack, leaves, phase).value;
      && |r| <= 4096 && InOrder(r) && phase != InBoth
      && (forall f :: f in r ==>
            f.leafIndex < |leaves| && Justified(pack, phase, f.leafIndex, leaves[f.leafIndex], f))
      && (forall i, rule, span, f ::
            0 <= i < |leaves| && leaves[i].value != [] && ByRule(pack, phase, i, leaves[i], rule, span, f) ==> f in r)
      && (forall i, f ::
            0 <= i < |leaves| && leaves[i].value != [] && ByKey(pack, phase, i, leaves[i], f) ==> f in r)
      && (forall i, literal, p: nat, f ::
            0 <= i < |leaves| && leaves[i].value != [] && ByBlocklist(pack, i, leaves[i], literal, p, f) ==>
              exists g :: g in r && Blocks(g, i, p))
  {
    hide LeafFindings, AllFindings, Sort, ByRule, ByKey, ByBlocklist, Justified, Blocks, InOrder, Floods;
    var all := AllFindings(pack, phase, leaves, 0);
    var r := Evaluation(pack, leaves, phase).value;
    SortInOrder(all);
    forall f | f in r
      ensures f.leafIndex < |leaves| && Justified(pack, phase, f.leafIndex, leaves[f.leafIndex], f)
    {
      FindingsOfLeaves(pack, phase, leaves, 0, f);
      var k: nat :| k < |leaves| && f in LeafFindings(pack, phase, k, leaves[k]);
      LeafJustified(pack, phase, k, leaves[k], f);
    }
    forall i: nat, f | i < |leaves| && f in LeafFindings(pack, phase, i, leaves[i]) ensures f in r {
      FindingsOfLeaves(pack, phase, leaves, 0, f);
    }
    forall i: nat | i < |leaves| && leaves[i].value != []
      ensures forall rule, span, f :: ByRule(pack, phase, i, leaves[i], rule, span, f) ==> f in r
      ensures forall f :: ByKey(pack, phase, i, leaves[i], f) ==> f in r
      ensures forall literal, p: nat, f :: ByBlocklist(pack, i, leaves[i], literal, p, f) ==>
                                      exists g :: g in r && Blocks(g, i, p)
    {
      LeafComplete(pack, phase, i, leaves[i]);
    }
  }

  /** There is no answer only in a phase that is neither, or past a bound of 4096. */
  lemma EvaluationAnswers(pack: Compiled, leaves: seq<Leaf>, phase: Scope)
    requires [] !in pack.blocklist
    ensures Evaluation(pack, leaves, phase) == None <==>
            || phase == InBoth || |AllFindings(pack, phase, leaves, 0)| > 4096
            || exists i :: 0 <= i < |leaves| && leaves[i].value != [] && TooMany(pack, phase, leaves[i])
  {
    hide AllFindings, Sort, LeafFloods, TooMany;
    forall i | 0 <= i < |leaves|
      ensures LeafFloods(pack, phase, leaves[i]) <==> leaves[i].value != [] && TooMany(pack, phase, leaves[i])
    {
      FloodsAre(pack, phase, leaves[i]);
    }
  }

  /** A rule that is for this leaf finds more than 4096 spans, or the blocklist does. */
  ghost predicate TooMany(pack: Compiled, phase: Scope, leaf: Leaf)
    requires [] !in pack.blocklist
  {
    || |AllOccurrences(leaf.value, pack.blocklist)| > 4096
    || exists rule :: rule in pack.rules && (rule.scope == phase || rule.scope == InBoth)
                      && !(KeyNamed(pack, phase, leaf) && rule.action == Redact) && |rule.find(leaf.value)| > 4096
  }

  lemma FloodsAre(pack: Compiled, phase: Scope, leaf: Leaf)
    requires [] !in pack.blocklist
    ensures LeafFloods(pack, phase, leaf) <==> leaf.value != [] && TooMany(pack, phase, leaf)
  {
    hide AllOccurrences;
  }
}
