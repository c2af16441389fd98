/**
 Evaluating a compiled rule set over value leaves (pkg/filter/evaluate.go:44-153, 203-257,
 pkg/filter/sensitive.go:59-93). A detector is any function from a value to spans of it.
 */
module Filter {
  import opened Bytes
  import opened Lens
  import opened Search
  import opened StableSort

  const MAX_MATCHES: nat := 4096

  datatype Scope = InRequest | InResponse | InBoth

  datatype Action = Allow | Warn | Redact | Block

  datatype Finding = Finding(
    ruleID: bytes, category: bytes, action: Action, leafIndex: nat, start: int, end: int, confidence: real)

  datatype Rule = Rule(
    id: bytes, category: bytes, scope: Scope, action: Action, priority: int, confidence: real,
    find: bytes -> seq<Span>, allow: seq<bytes>)

  /** The sensitive_keys block: which leaves it names, and the document's allowlist. */
  datatype Sensitive = Sensitive(names: Leaf -> bool, allowlist: seq<bytes>)

  datatype Compiled = Compiled(
    rules: seq<Rule>, allowlist: seq<bytes>, blocklist: seq<bytes>, sensitive: Option<Sensitive>)

  /** custom, blocklist and sensitive_key: the names the evaluator itself gives. */
  const CUSTOM: bytes := [99, 117, 115, 116, 111, 109]
  const BLOCKLIST: bytes := [98, 108, 111, 99, 107, 108, 105, 115, 116]
  const SENSITIVE_KEY: bytes := [115, 101, 110, 115, 105, 116, 105, 118, 101, 95, 107, 101, 121]

  predicate SpanOk(span: Span, value: bytes) {
    0 <= span.start < span.end <= |value|
  }

  /** Detectors report spans of the value they are given. */
  ghost predicate FindsSpans(find: bytes -> seq<Span>) {
    forall value, span :: span in find(value) ==> SpanOk(span, value)
  }

  predicate Covers(scope: Scope, phase: Scope) {
    scope == phase || scope == InBoth
  }

  predicate Suppressed(value: bytes, span: Span, globally: seq<bytes>, own: seq<bytes>) {
    || (exists literal :: literal in globally && Inside(value, literal, span.start, span.end))
    || (exists literal :: literal in own && Inside(value, literal, span.start, span.end))
  }

  predicate Gated(sensitive: Option<Sensitive>, phase: Scope, leaf: Leaf) {
    phase == InRequest && sensitive.Some? && sensitive.value.names(leaf)
  }

  predicate GateAllows(sensitive: Option<Sensitive>, value: bytes) {
    sensitive.Some? && exists literal :: literal in sensitive.value.allowlist && Inside(value, literal, 0, |value|)
  }

  function SensitiveFinding(index: nat, value: bytes): Finding {
    Finding(SENSITIVE_KEY, CUSTOM, Redact, index, 0, |value|, 1.0)
  }

  // --------------------------------------------------------------------- what is to be found

  /** The spans of a rule that no allowlist suppresses. */
  function Unsuppressed(value: bytes, spans: seq<Span>, globally: seq<bytes>, own: seq<bytes>): (r: seq<Span>)
    ensures forall s :: s in r ==> s in spans
    ensures |r| <= |spans|
  {
    if spans == [] then [] else
    (if Suppressed(value, spans[0], globally, own) then [] else [spans[0]])
    + Unsuppressed(value, spans[1..], globally, own)
  }

  function RuleFinding(rule: Rule, index: nat, span: Span): Finding {
    Finding(rule.id, rule.category, rule.action, index, span.start, span.end, rule.confidence)
  }

  function Stamped(rule: Rule, index: nat, spans: seq<Span>): (r: seq<Finding>)
    ensures |r| == |spans|
  {
    if spans == [] then [] else [RuleFinding(rule, index, spans[0])] + Stamped(rule, index, spans[1..])
  }

  predicate Applies(rule: Rule, phase: Scope, gated: bool) {
    Covers(rule.scope, phase) && !(gated && rule.action == Redact)
  }

  ghost function RuleFindings(pack: Compiled, rule: Rule, index: nat, value: bytes): seq<Finding> {
    Stamped(rule, index, Unsuppressed(value, rule.find(value), pack.allowlist, rule.allow))
  }

  ghost function RulesFindings(
    pack: Compiled, rules: seq<Rule>, phase: Scope, gated: bool, index: nat, value: bytes): seq<Finding> {
    if rules == [] then [] else
    (if Applies(rules[0], phase, gated) then RuleFindings(pack, rules[0], index, value) else [])
    + RulesFindings(pack, rules[1..], phase, gated, index, value)
  }

  ghost function GateFindings(sensitive: Option<Sensitive>, gated: bool, index: nat, value: bytes): seq<Finding> {
    if gated && !GateAllows(sensitive, value) then [SensitiveFinding(index, value)] else []
  }

  function BlockFinding(index: nat, span: Span): Finding {
    Finding(BLOCKLIST, CUSTOM, Block, index, span.start, span.end, 1.0)
  }

  function BlockFindings(index: nat, spans: seq<Span>): (r: seq<Finding>)
    ensures |r| == |spans|
  {
    if spans == [] then [] else [BlockFinding(index, spans[0])] + BlockFindings(index, spans[1..])
  }

  /** All findings of one leaf, in the order they are made. */
  ghost function LeafFindings(pack: Compiled, phase: Scope, index: nat, leaf: Leaf): seq<Finding>
    requires [] !in pack.blocklist
  {
    if leaf.value == [] then [] else
    var gated := Gated(pack.sensitive, phase, leaf);
    RulesFindings(pack, pack.rules, phase, gated, index, leaf.value)
    + (GateFindings(pack.sensitive, gated, index, leaf.value)
       + BlockFindings(index, AllOccurrences(leaf.value, pack.blocklist)))
  }

  ghost function AllFindings(pack: Compiled, phase: Scope, leaves: seq<Leaf>, i: nat): seq<Finding>
    requires [] !in pack.blocklist
    decreases |leaves| - i
  {
    if i >= |leaves| then [] else LeafFindings(pack, phase, i, leaves[i]) + AllFindings(pack, phase, leaves, i + 1)
  }

  /** Some rule that applies reports more raw spans of the value than the bound admits. */
  ghost predicate RuleFloods(rules: seq<Rule>, phase: Scope, gated: bool, value: bytes) {
    exists rule :: rule in rules && Applies(rule, phase, gated) && |rule.find(value)| > MAX_MATCHES
  }

  ghost predicate LeafFloods(pack: Compiled, phase: Scope, leaf: Leaf)
    requires [] !in pack.blocklist
  {
    leaf.value != [] &&
    (RuleFloods(pack.rules, phase, Gated(pack.sensitive, phase, leaf), leaf.value)
     || |AllOccurrences(leaf.value, pack.blocklist)| > MAX_MATCHES)
  }

  ghost predicate Floods(pack: Compiled, phase: Scope, leaves: seq<Leaf>, i: nat)
    requires [] !in pack.blocklist
  {
    exists k :: i <= k < |leaves| && LeafFloods(pack, phase, leaves[k])
  }

  /** (leaf, start, end). */
  predicate Before(a: Finding, b: Finding) {
    if a.leafIndex != b.leafIndex then a.leafIndex < b.leafIndex
    else if a.start != b.start then a.start < b.start
    else a.end < b.end
  }

  const BEFORE: Less<Finding> := (a, b) => Before(a, b)

  // --------------------------------------------------------------------- the evaluator's loops

  method AllowlistSuppressed(value: bytes, span: Span, globally: seq<bytes>, own: seq<bytes>) returns (yes: bool)
    requires SpanOk(span, value)
    ensures yes <==> Suppressed(value, span, globally, own)
  {
    hide Inside;
    yes := AnyInside(value, span.start, span.end, globally);
    if !yes {
      yes := AnyInside(value, span.start, span.end, own);
    }
  }

  method AnyInside(value: bytes, start: int, end: int, literals: seq<bytes>) returns (yes: bool)
    requires 0 <= start <= end <= |value|
    ensures yes <==> exists literal :: literal in literals && Inside(value, literal, start, end)
  {
    hide Inside;
    for i := 0 to |literals|
      invariant forall literal :: literal in literals[..i] ==> !Inside(value, literal, start, end)
    {
      var inside := InsideOccurrence(value, literals[i], start, end);
      if inside {
        assert literals[i] in literals;
        return true;
      }
      assert literals[..i + 1] == literals[..i] + [literals[i]];
    }
    assert literals[..|literals|] == literals;
    return false;
  }

  /** Findings with more of them, or None when the bound is passed. */
  function Add(findings: seq<Finding>, more: seq<Finding>): Option<seq<Finding>> {
    if |findings| + |more| > MAX_MATCHES then None else Some(findings + more)
  }

  lemma AddTwice(a: seq<Finding>, b: seq<Finding>, c: seq<Finding>)
    ensures Add(a, b + c) == (match Add(a, b) case Some(ab) => Add(ab, c) case None => None)
  {
    Assoc(a, b, c);
  }

  /** The loop over one rule's spans. */
  method AddRule(
    pack: Compiled, rule: Rule, index: nat, value: bytes, before: seq<Finding>)
    returns (r: Option<seq<Finding>>)
    requires FindsSpans(rule.find) && |before| <= MAX_MATCHES && |rule.find(value)| <= MAX_MATCHES
    ensures r == Add(before, RuleFindings(pack, rule, index, value))
  {
    hide Suppressed;
    var spans := rule.find(value);
    var findings := before;
    var i := 0;
    ghost var all := RuleFindings(pack, rule, index, value);
    assert spans[0..] == spans;
    while i < |spans|
      invariant i <= |spans| && |findings| <= MAX_MATCHES
      invariant findings + Stamped(rule, index, Unsuppressed(value, spans[i..], pack.allowlist, rule.allow))
        == before + all
    {
      var span := spans[i];
      assert span in spans;
      ghost var rest := Unsuppressed(value, spans[i + 1..], pack.allowlist, rule.allow);
      assert spans[i..][0] == span && spans[i..][1..] == spans[i + 1..];
      var suppressed := AllowlistSuppressed(value, span, pack.allowlist, rule.allow);
      i := i + 1;
      if suppressed {
        assert [] + rest == rest;
        continue;
      }
      assert ([span] + rest)[1..] == rest;
      Assoc(findings, [RuleFinding(rule, index, span)], Stamped(rule, index, rest));
      if |findings| >= MAX_MATCHES {
        return None;
      }
      findings := findings + [RuleFinding(rule, index, span)];
    }
    assert findings + [] == findings;
    return Some(findings);
  }

  /** The loop over the rules of the set, for one leaf. */
  method AddRules(
    pack: Compiled, phase: Scope, gated: bool, index: nat, value: bytes, before: seq<Finding>)
    returns (r: Option<seq<Finding>>)
    requires (forall rule :: rule in pack.rules ==> FindsSpans(rule.find)) && |before| <= MAX_MATCHES
    ensures r == if RuleFloods(pack.rules, phase, gated, value) then None
                 else Add(before, RulesFindings(pack, pack.rules, phase, gated, index, value))
  {
    hide RuleFindings, FindsSpans;
    var findings := before;
    var i := 0;
    ghost var all := RulesFindings(pack, pack.rules, phase, gated, index, value);
    ghost var over := false;
    assert pack.rules[0..] == pack.rules;
    while i < |pack.rules|
      invariant i <= |pack.rules| && |findings| <= MAX_MATCHES
      invariant Add(findings, RulesFindings(pack, pack.rules[i..], phase, gated, index, value)) == Add(before, all)
      invariant forall k :: 0 <= k < i && Applies(pack.rules[k], phase, gated) ==>
        |pack.rules[k].find(value)| <= MAX_MATCHES
    {
      var rule := pack.rules[i];
      assert rule in pack.rules;
      assert pack.rules[i..][0] == rule && pack.rules[i..][1..] == pack.rules[i + 1..];
      i := i + 1;
      ghost var rest := RulesFindings(pack, pack.rules[i..], phase, gated, index, value);
      if !Covers(rule.scope, phase) || (gated && rule.action == Redact) {
        assert [] + rest == rest;
        continue;
      }
      if |rule.find(value)| > MAX_MATCHES {
        return None;
      }
      AddTwice(findings, RuleFindings(pack, rule, index, value), rest);
      var more := AddRule(pack, rule, index, value, findings);
      if more.None? {
        return None;
      }
      findings := more.value;
    }
    assert Add(findings, []) == Some(findings + []) && findings + [] == findings;
    return Some(findings);
  }

  /** The loop over the blocklist's spans. */
  method AddBlocked(index: nat, spans: seq<Span>, before: seq<Finding>) returns (r: Option<seq<Finding>>)
    requires |before| <= MAX_MATCHES
    ensures r == Add(before, BlockFindings(index, spans))
  {
    var findings := before;
    var i := 0;
    assert spans[0..] == spans;
    while i < |spans|
      invariant i <= |spans| && |findings| <= MAX_MATCHES
      invariant findings + BlockFindings(index, spans[i..]) == before + BlockFindings(index, spans)
    {
      assert spans[i..][0] == spans[i] && spans[i..][1..] == spans[i + 1..];
      Assoc(findings, [BlockFinding(index, spans[i])], BlockFindings(index, spans[i + 1..]));
      if |findings| >= MAX_MATCHES {
        return None;
      }
      findings := findings + [BlockFinding(index, spans[i])];
      i := i + 1;
    }
    assert findings + [] == findings;
    return Some(findings);
  }

  method GateMatches(sensitive: Option<Sensitive>, phase: Scope, leaf: Leaf) returns (yes: bool)
    ensures yes <==> Gated(sensitive, phase, leaf)
  {
    return phase == InRequest && sensitive.Some? && sensitive.value.names(leaf);
  }

  method GateAllowsValue(sensitive: Option<Sensitive>, value: bytes) returns (yes: bool)
    ensures yes <==> GateAllows(sensitive, value)
  {
    if sensitive.None? {
      return false;
    }
    yes := AnyInside(value, 0, |value|, sensitive.value.allowlist);
  }

  /** What one leaf adds. */
  method AddLeaf(
    pack: Compiled, phase: Scope, index: nat, leaf: Leaf, before: seq<Finding>)
    returns (r: Option<seq<Finding>>)
    requires [] !in pack.blocklist && (forall rule :: rule in pack.rules ==> FindsSpans(rule.find))
    requires |before| <= MAX_MATCHES
    ensures r == if LeafFloods(pack, phase, leaf) then None else Add(before, LeafFindings(pack, phase, index, leaf))
  {
    hide RulesFindings, RuleFloods, Gated, GateAllows, FindsSpans, AllOccurrences;
    var value := leaf.value;
    if value == [] {
      assert before + [] == before;
      return Some(before);
    }
    var gated := GateMatches(pack.sensitive, phase, leaf);
    ghost var ruled := RulesFindings(pack, pack.rules, phase, gated, index, value);
    ghost var gate := GateFindings(pack.sensitive, gated, index, value);
    ghost var blocked := BlockFindings(index, AllOccurrences(value, pack.blocklist));
    AddTwice(before, ruled, gate + blocked);
    r := AddRules(pack, phase, gated, index, value, before);
    if r.None? {
      return;
    }
    AddTwice(r.value, gate, blocked);
    var findings := r.value;
    if gated {
      var allowed := GateAllowsValue(pack.sensitive, value);
      if !allowed {
        if |findings| >= MAX_MATCHES {
          return None;
        }
        findings := findings + [SensitiveFinding(index, value)];
      }
    }
    assert Add(r.value, gate) == Some(findings) by {
      assert r.value + [] == r.value;
    }
    var spans := LiteralSpans(value, pack.blocklist, MAX_MATCHES);
    if |spans| > MAX_MATCHES {
      return None;
    }
    r := AddBlocked(index, spans, findings);
  }

  /** Evaluate: None is the match limit, or a phase that is neither request nor response. */
  method Evaluate(pack: Compiled, leaves: seq<Leaf>, phase: Scope) returns (r: Option<seq<Finding>>)
    requires [] !in pack.blocklist && forall rule :: rule in pack.rules ==> FindsSpans(rule.find)
    ensures r == Evaluation(pack, leaves, phase)
  {
    hide LeafFindings, LeafFloods, FindsSpans, Sort;
    if phase != InRequest && phase != InResponse {
      return None;
    }
    var findings: seq<Finding> := [];
    var i := 0;
    ghost var all := AllFindings(pack, phase, leaves, 0);
    assert [] + all == all;
    while i < |leaves|
      invariant i <= |leaves| && |findings| <= MAX_MATCHES
      invariant Add(findings, AllFindings(pack, phase, leaves, i)) == Add([], all)
      invariant forall k :: 0 <= k < i ==> !LeafFloods(pack, phase, leaves[k])
    {
      AddTwice(findings, LeafFindings(pack, phase, i, leaves[i]), AllFindings(pack, phase, leaves, i + 1));
      var more := AddLeaf(pack, phase, i, leaves[i], findings);
      if more.None? {
        return None;
      }
      findings := more.value;
      i := i + 1;
    }
    assert findings + [] == findings;
    return Some(Sort(BEFORE, findings));
  }

  ghost function Evaluation(pack: Compiled, leaves: seq<Leaf>, phase: Scope): Option<seq<Finding>>
    requires [] !in pack.blocklist
  {
    if phase == InBoth || Floods(pack, phase, leaves, 0)
      || |AllFindings(pack, phase, leaves, 0)| > MAX_MATCHES then None
    else Some(Sort(BEFORE, AllFindings(pack, phase, leaves, 0)))
  }
}
