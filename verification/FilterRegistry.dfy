/**
 The public rule registry (pkg/filter/registry.go:95-264, 281-332) and the loop that
 evaluates registered rules (pkg/filter/collect.go:28-82), and the ordering of a compiled
 document (pkg/filter/compile.go:103-149).
 */
module FilterRegistry {
  import opened Bytes
  import opened Lens
  import opened Search
  import opened StableSort
  import opened Filter

  datatype Origin = Builtin | RemotePack | Plugin

  /** A registered rule; an inspection that panics or times out yields None. */
  datatype View = View(
    id: bytes, idOk: bool, category: bytes, scope: Scope, action: Action, priority: int, confidence: real,
    inspect: bytes -> Option<seq<Span>>)

  datatype Entry = Entry(view: View, origin: Origin, id: bytes, rank: int)

  datatype Attributed = Attributed(finding: Finding, origin: Origin)

  /** Go's order on strings. */
  predicate LexBefore(a: bytes, b: bytes) {
    b != [] && (a == [] || a[0] < b[0] || (a[0] == b[0] && LexBefore(a[1..], b[1..])))
  }

  predicate Ranked(p: int, a: bytes, q: int, b: bytes) {
    if p != q then p < q else LexBefore(a, b)
  }

  const BY_RANK: Less<Entry> := (a: Entry, b: Entry) => Ranked(a.rank, a.id, b.rank, b.id)

  const BY_PRIORITY: Less<Rule> := (a: Rule, b: Rule) => Ranked(a.priority, a.id, b.priority, b.id)

  const BY_PLACE: Less<Attributed> := (a: Attributed, b: Attributed) => Before(a.finding, b.finding)

  /** The direction contract: what may run in the response phase must not redact. */
  predicate Directed(scope: Scope, action: Action) {
    scope == InRequest || action != Redact
  }

  predicate Contract(scope: Scope, action: Action, confidence: real) {
    Directed(scope, action) && 0.0 < confidence <= 1.0
  }

  // ------------------------------------------------------------------------- registration

  predicate Acceptable(view: View) {
    view.idOk && Contract(view.scope, view.action, view.confidence)
  }

  predicate BatchOk(ids: set<bytes>, views: seq<View>) {
    && (forall i :: 0 <= i < |views| ==> Acceptable(views[i]) && views[i].id !in ids)
    && (forall i, j :: 0 <= i < j < |views| ==> views[i].id != views[j].id)
  }

  function EntryOf(origin: Origin, view: View): Entry {
    Entry(view, origin, view.id, view.priority)
  }

  function EntriesOf(origin: Origin, views: seq<View>): (r: seq<Entry>)
    ensures |r| == |views| && forall i :: 0 <= i < |r| ==> r[i] == EntryOf(origin, views[i])
  {
    seq(|views|, i requires 0 <= i < |views| => EntryOf(origin, views[i]))
  }

  function IdsOf(views: seq<View>): set<bytes> {
    set i | 0 <= i < |views| :: views[i].id
  }

  /** The view under which a compiled rule is registered. */
  function ViewOf(pack: Compiled, rule: Rule, idOk: bool): View {
    View(rule.id, idOk, rule.category, rule.scope, rule.action, rule.priority, rule.confidence,
         (leaf: bytes) => Some(Unsuppressed(leaf, rule.find(leaf), pack.allowlist, rule.allow)))
  }

  function ViewsOf(pack: Compiled, idOk: bytes -> bool): (r: seq<View>)
    ensures |r| == |pack.rules| && forall i :: 0 <= i < |r| ==>
            r[i] == ViewOf(pack, pack.rules[i], idOk(pack.rules[i].id))
  {
    seq(|pack.rules|, i requires 0 <= i < |pack.rules| => ViewOf(pack, pack.rules[i], idOk(pack.rules[i].id)))
  }

  /** compiledView.Inspect's loop. */
  method InspectView(pack: Compiled, rule: Rule, leaf: bytes) returns (kept: seq<Span>)
    requires FindsSpans(rule.find)
    ensures kept == Unsuppressed(leaf, rule.find(leaf), pack.allowlist, rule.allow)
  {
    hide Suppressed, Unsuppressed;
    var spans := rule.find(leaf);
    kept := [];
    var i := 0;
    assert spans[0..] == spans;
    while i < |spans|
      invariant i <= |spans|
      invariant kept + Unsuppressed(leaf, spans[i..], pack.allowlist, rule.allow)
             == Unsuppressed(leaf, spans, pack.allowlist, rule.allow)
    {
      assert spans[i..][0] == spans[i] && spans[i..][1..] == spans[i + 1..] && spans[i] in spans;
      ghost var rest := Unsuppressed(leaf, spans[i + 1..], pack.allowlist, rule.allow);
      UnsuppressedStep(leaf, spans[i..], pack.allowlist, rule.allow);
      var suppressed := AllowlistSuppressed(leaf, spans[i], pack.allowlist, rule.allow);
      if !suppressed {
        Assoc(kept, [spans[i]], rest);
        kept := kept + [spans[i]];
      }
      i := i + 1;
    }
    UnsuppressedStep(leaf, [], pack.allowlist, rule.allow);
    assert kept + [] == kept;
  }

  lemma UnsuppressedStep(value: bytes, spans: seq<Span>, globally: seq<bytes>, own: seq<bytes>)
    ensures spans == [] ==> Unsuppressed(value, spans, globally, own) == []
    ensures spans != [] ==>
              var rest := Unsuppressed(value, spans[1..], globally, own);
              Unsuppressed(value, spans, globally, own) ==
              if Suppressed(value, spans[0], globally, own) then rest else [spans[0]] + rest
  {
    hide Suppressed;
    if spans != [] {
      assert [] + Unsuppressed(value, spans[1..], globally, own) == Unsuppressed(value, spans[1..], globally, own);
    }
  }

  // --------------------------------------------------------------------------- evaluation

  /** One guarded inspection: the accepted spans, or None for any failure. */
  function Invoke(view: View, value: bytes, phase: Scope): (r: Option<seq<Span>>)
    ensures r.Some? ==> |r.value| <= MAX_MATCHES
  {
    if !Contract(view.scope, view.action, view.confidence) then None
    else if !Covers(view.scope, phase) then Some([])
    else
      match view.inspect(value)
      case None => None
      case Some(spans) =>
        if |spans| > MAX_MATCHES || exists s :: s in spans && !SpanOk(s, value) then None else Some(spans)
  }

  function Attribute(entry: Entry, index: nat, spans: seq<Span>): (r: seq<Attributed>)
    ensures |r| == |spans|
  {
    if spans == [] then [] else
    var v, s := entry.view, spans[0];
    [Attributed(Finding(entry.id, v.category, v.action, index, s.start, s.end, v.confidence), entry.origin)]
    + Attribute(entry, index, spans[1..])
  }

  function Both(a: Option<seq<Attributed>>, b: Option<seq<Attributed>>): Option<seq<Attributed>> {
    if a.Some? && b.Some? then Some(a.value + b.value) else None
  }

  /** What one entry finds in a value; nothing when it is skipped. */
  function EntryFindings(entry: Entry, phase: Scope, gated: bool, index: nat, value: bytes): Option<seq<Attributed>> {
    if gated && entry.view.action == Redact then Some([]) else
    match Invoke(entry.view, value, phase)
    case None => None
    case Some(spans) => Some(Attribute(entry, index, spans))
  }

  function EntriesFindings(
    entries: seq<Entry>, phase: Scope, gated: bool, index: nat, value: bytes): Option<seq<Attributed>> {
    if entries == [] then Some([]) else
    Both(EntryFindings(entries[0], phase, gated, index, value),
      EntriesFindings(entries[1..], phase, gated, index, value))
  }

  function GateAttributed(sensitive: Option<Sensitive>, gated: bool, index: nat, value: bytes): seq<Attributed> {
    if gated && !GateAllows(sensitive, value) then [Attributed(SensitiveFinding(index, value), RemotePack)] else []
  }

  function LeafAttributed(
    entries: seq<Entry>, sensitive: Option<Sensitive>, phase: Scope, index: nat, leaf: Leaf): Option<seq<Attributed>> {
    if leaf.value == [] then Some([]) else
    var gated := Gated(sensitive, phase, leaf);
    Both(EntriesFindings(entries, phase, gated, index, leaf.value),
         Some(GateAttributed(sensitive, gated, index, leaf.value)))
  }

  function AllAttributed(
    entries: seq<Entry>, sensitive: Option<Sensitive>, phase: Scope, leaves: seq<Leaf>, i: nat): Option<seq<Attributed>>
    decreases |leaves| - i
  {
    if i >= |leaves| then Some([]) else
    Both(LeafAttributed(entries, sensitive, phase, i, leaves[i]),
      AllAttributed(entries, sensitive, phase, leaves, i + 1))
  }

  /** Registry.Evaluate: None is any failure, or a phase that is neither. */
  function RegistryEvaluation(
    entries: seq<Entry>, sensitive: Option<Sensitive>, leaves: seq<Leaf>, phase: Scope): Option<seq<Attributed>> {
    var all := AllAttributed(entries, sensitive, phase, leaves, 0);
    if phase == InBoth || all.None? || |all.value| > MAX_MATCHES then None else Some(Sort(BY_PLACE, all.value))
  }

  /** Findings made, with those to come; None once the bound is passed or a rule fails. */
  function Onto(out: seq<Attributed>, more: Option<seq<Attributed>>): Option<seq<Attributed>> {
    if more.None? || |out| + |more.value| > MAX_MATCHES then None else Some(out + more.value)
  }

  lemma OntoTwice(out: seq<Attributed>, a: Option<seq<Attributed>>, b: Option<seq<Attributed>>)
    ensures Onto(out, Both(a, b)) == (match Onto(out, a) case Some(x) => Onto(x, b) case None => None)
  {
    if a.Some? && b.Some? {
      Assoc(out, a.value, b.value);
    }
  }

  class Registry {
    var entries: seq<Entry>
    var ids: set<bytes>
    var sensitive: Option<Sensitive>

    constructor ()
      ensures entries == [] && ids == {} && sensitive == None
    {
      entries, ids, sensitive := [], {}, None;
    }

    /** A batch is registered whole or not at all. */
    method Register(origin: Origin, views: seq<View>) returns (ok: bool)
      modifies this
      ensures ok <==> BatchOk(old(ids), views)
      ensures sensitive == old(sensitive)
      ensures ok ==> entries == Sort(BY_RANK, old(entries) + EntriesOf(origin, views)) && ids == old(ids) + IdsOf(views)
      ensures !ok ==> entries == old(entries) && ids == old(ids)
    {
      var pending: seq<Entry> := [];
      var seen: set<bytes> := {};
      var i := 0;
      while i < |views|
        invariant i <= |views| && BatchOk(ids, views[..i])
        invariant pending == EntriesOf(origin, views[..i]) && seen == IdsOf(views[..i])
        invariant entries == old(entries) && ids == old(ids) && sensitive == old(sensitive)
      {
        var view := views[i];
        if !view.idOk || view.id in ids || view.id in seen
           || !Directed(view.scope, view.action) || !(0.0 < view.confidence <= 1.0) {
          Refused(ids, views, i);
          return false;
        }
        BatchSnoc(ids, views, i);
        assert views[..i + 1] == views[..i] + [view];
        pending := pending + [EntryOf(origin, view)];
        seen := seen + {view.id};
        i := i + 1;
      }
      assert views[..i] == views;
      entries := Sort(BY_RANK, entries + pending);
      ids := ids + seen;
      return true;
    }

    /** The rules and the sensitive keys of a compiled document; not its blocklist. */
    method RegisterCompiled(pack: Compiled, idOk: bytes -> bool) returns (ok: bool)
      modifies this
      ensures ok <==> BatchOk(old(ids), ViewsOf(pack, idOk))
      ensures ok ==>
                && entries == Sort(BY_RANK, old(entries) + EntriesOf(RemotePack, ViewsOf(pack, idOk)))
                && ids == old(ids) + IdsOf(ViewsOf(pack, idOk)) && sensitive == pack.sensitive
      ensures !ok ==> entries == old(entries) && ids == old(ids) && sensitive == old(sensitive)
    {
      ok := Register(RemotePack, ViewsOf(pack, idOk));
      if ok {
        sensitive := pack.sensitive;
      }
    }

    method Evaluate(leaves: seq<Leaf>, phase: Scope) returns (r: Option<seq<Attributed>>)
      ensures r == RegistryEvaluation(entries, sensitive, leaves, phase)
    {
      if phase != InRequest && phase != InResponse {
        return None;
      }
      r := Collect(entries, sensitive, leaves, phase);
    }
  }

  lemma Refused(ids: set<bytes>, views: seq<View>, i: nat)
    requires i < |views|
    requires !Acceptable(views[i]) || views[i].id in ids || views[i].id in IdsOf(views[..i])
    ensures !BatchOk(ids, views)
  {
    if views[i].id in IdsOf(views[..i]) {
      var j :| 0 <= j < i && views[..i][j].id == views[i].id;
      assert views[j].id == views[i].id;
    }
  }

  lemma BatchSnoc(ids: set<bytes>, views: seq<View>, i: nat)
    requires i < |views| && BatchOk(ids, views[..i])
    requires Acceptable(views[i]) && views[i].id !in ids && views[i].id !in IdsOf(views[..i])
    ensures BatchOk(ids, views[..i + 1])
    ensures IdsOf(views[..i + 1]) == IdsOf(views[..i]) + {views[i].id}
  {
    IdsSnoc(views, i);
    hide Acceptable;
    var a, b := views[..i], views[..i + 1];
    assert forall j :: 0 <= j < i ==> b[j] == a[j] && a[j].id in IdsOf(a);
    assert b[i] == views[i];
  }

  lemma IdsSnoc(views: seq<View>, i: nat)
    requires i < |views|
    ensures IdsOf(views[..i + 1]) == IdsOf(views[..i]) + {views[i].id}
  {
    var a, b := views[..i], views[..i + 1];
    assert b[i] == views[i];
    forall x ensures x in IdsOf(b) <==> x in IdsOf(a) + {views[i].id} {
      if x in IdsOf(a) {
        var j :| 0 <= j < |a| && a[j].id == x;
        assert b[j].id == x;
      }
      if x in IdsOf(b) {
        var j :| 0 <= j < |b| && b[j].id == x;
        assert j < i ==> a[j].id == x;
      }
    }
  }

  method Collect(
    entries: seq<Entry>, sensitive: Option<Sensitive>, leaves: seq<Leaf>, phase: Scope)
    returns (r: Option<seq<Attributed>>)
    ensures
      var all := AllAttributed(entries, sensitive, phase, leaves, 0);
      r == if all.None? || |all.value| > MAX_MATCHES then None else Some(Sort(BY_PLACE, all.value))
  {
    hide LeafAttributed, Sort;
    var out: seq<Attributed> := [];
    var i := 0;
    ghost var all := AllAttributed(entries, sensitive, phase, leaves, 0);
    assert all.Some? ==> [] + all.value == all.value;
    while i < |leaves|
      invariant i <= |leaves| && |out| <= MAX_MATCHES
      invariant Onto(out, AllAttributed(entries, sensitive, phase, leaves, i)) == Onto([], all)
    {
      OntoTwice(out, LeafAttributed(entries, sensitive, phase, i, leaves[i]),
        AllAttributed(entries, sensitive, phase, leaves, i + 1));
      var more := CollectLeaf(entries, sensitive, i, leaves[i], phase, out);
      if more.None? {
        return None;
      }
      out := more.value;
      i := i + 1;
    }
    assert out + [] == out;
    return Some(Sort(BY_PLACE, out));
  }

  /** The loop over the entries, for one leaf, and the gate behind it. */
  method CollectLeaf(
    entries: seq<Entry>, sensitive: Option<Sensitive>, index: nat, leaf: Leaf, phase: Scope, before: seq<Attributed>)
    returns (r: Option<seq<Attributed>>)
    requires |before| <= MAX_MATCHES
    ensures r == Onto(before, LeafAttributed(entries, sensitive, phase, index, leaf))
  {
    hide EntryFindings, Gated, GateAllows;
    var value := leaf.value;
    assert before + [] == before;
    if value == [] {
      return Some(before);
    }
    var gated := GateMatches(sensitive, phase, leaf);
    ghost var found := EntriesFindings(entries, phase, gated, index, value);
    OntoTwice(before, found, Some(GateAttributed(sensitive, gated, index, value)));
    var out := before;
    var i := 0;
    assert entries[0..] == entries;
    while i < |entries|
      invariant i <= |entries| && |out| <= MAX_MATCHES
      invariant Onto(out, EntriesFindings(entries[i..], phase, gated, index, value)) == Onto(before, found)
    {
      var entry := entries[i];
      assert entries[i..][0] == entry && entries[i..][1..] == entries[i + 1..];
      OntoTwice(out, EntryFindings(entry, phase, gated, index, value),
        EntriesFindings(entries[i + 1..], phase, gated, index, value));
      var more := CollectEntry(entry, phase, gated, index, value, out);
      if more.None? {
        return None;
      }
      out := more.value;
      i := i + 1;
    }
    assert out + [] == out;
    assert Onto(out, Some([])) == Some(out);
    if gated {
      var allowed := GateAllowsValue(sensitive, value);
      if !allowed {
        if |out| >= MAX_MATCHES {
          return None;
        }
        return Some(out + [Attributed(SensitiveFinding(index, value), RemotePack)]);
      }
    }
    return Some(out);
  }

  /** The body of that loop. */
  method CollectEntry(
    entry: Entry, phase: Scope, gated: bool, index: nat, value: bytes, before: seq<Attributed>)
    returns (r: Option<seq<Attributed>>)
    requires |before| <= MAX_MATCHES
    ensures r == Onto(before, EntryFindings(entry, phase, gated, index, value))
  {
    hide Contract;
    assert before + [] == before;
    if gated && entry.view.action == Redact {
      return Some(before);
    }
    var result := Invoke(entry.view, value, phase);
    if result.None? {
      return None;
    }
    if !Covers(entry.view.scope, phase) {
      return Some(before);
    }
    var spans := result.value;
    if |before| + |spans| > MAX_MATCHES {
      return None;
    }
    var out := before;
    var i := 0;
    assert spans[0..] == spans;
    while i < |spans|
      invariant i <= |spans|
      invariant out + Attribute(entry, index, spans[i..]) == before + Attribute(entry, index, spans)
    {
      assert spans[i..][0] == spans[i] && spans[i..][1..] == spans[i + 1..];
      var v, s := entry.view, spans[i];
      var f := Attributed(Finding(entry.id, v.category, v.action, index, s.start, s.end, v.confidence), entry.origin);
      Assoc(out, [f], Attribute(entry, index, spans[i + 1..]));
      out := out + [f];
      i := i + 1;
    }
    assert out + [] == out;
    return Some(out);
  }

  // ------------------------------------------------------------------ compiling a document

  /** A declared rule: the compiled form, whether it is well formed, and whether it is a command. */
  datatype RuleDoc = RuleDoc(rule: Rule, wellFormed: bool, command: bool)

  predicate DocOk(docs: seq<RuleDoc>) {
    && (forall i :: 0 <= i < |docs| ==> docs[i].wellFormed)
    && (forall i, j :: 0 <= i < j < |docs| ==> docs[i].rule.id != docs[j].rule.id)
  }

  /** The rules that are evaluated, as declared. */
  function Evaluable(docs: seq<RuleDoc>): seq<Rule> {
    if docs == [] then [] else (if docs[0].command then [] else [docs[0].rule]) + Evaluable(docs[1..])
  }

  function CompileRules(docs: seq<RuleDoc>): Option<seq<Rule>> {
    if DocOk(docs) then Some(Sort(BY_PRIORITY, Evaluable(docs))) else None
  }

  lemma {:induction false} EvaluableSnoc(docs: seq<RuleDoc>, d: RuleDoc)
    ensures Evaluable(docs + [d]) == Evaluable(docs) + if d.command then [] else [d.rule]
  {
    if docs == [] {
      assert [] + [d] == [d] && [d][1..] == [];
    } else {
      EvaluableSnoc(docs[1..], d);
      assert (docs + [d])[1..] == docs[1..] + [d];
      Assoc(if docs[0].command then [] else [docs[0].rule], Evaluable(docs[1..]), if d.command then [] else [d.rule]);
    }
  }

  /** CompileWithBudget's loop and sort. */
  method Compile(docs: seq<RuleDoc>) returns (r: Option<seq<Rule>>)
    ensures r == CompileRules(docs)
  {
    var rules: seq<Rule> := [];
    var seen: set<bytes> := {};
    var i := 0;
    while i < |docs|
      invariant i <= |docs| && DocOk(docs[..i]) && rules == Evaluable(docs[..i])
      invariant forall j :: 0 <= j < i ==> docs[j].rule.id in seen
      invariant forall id :: id in seen ==> exists j :: 0 <= j < i && docs[j].rule.id == id
    {
      var doc := docs[i];
      if doc.rule.id in seen || !doc.wellFormed {
        return None;
      }
      assert docs[..i + 1] == docs[..i] + [doc];
      EvaluableSnoc(docs[..i], doc);
      seen := seen + {doc.rule.id};
      if !doc.command {
        rules := rules + [doc.rule];
      }
      i := i + 1;
    }
    assert docs[..i] == docs;
    return Some(Sort(BY_PRIORITY, rules));
  }
}
