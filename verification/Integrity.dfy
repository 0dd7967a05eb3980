/** What every reachable configuration satisfies, and what follows for export, import and rule ownership. */
module Integrity {
  import opened Models
  import opened Keyed
  import opened Validation
  import opened Matcher
  import opened Decision
  import opened Store
  import DecisionRuns
  import Headers

  ghost predicate ReferencesExist(rules: seq<FailureRule>, projects: seq<Project>) {
    forall r <- rules :: r.data.projectId.Some? ==> r.data.projectId.value in Ids(projects, ProjectKey)
  }

  ghost predicate CountersSound(states: map<Uuid, RuleRuntimeState>, rules: seq<FailureRule>) {
    && Filed(states)
    && (forall id <- states :: id in Ids(rules, RuleKey))
    && (forall id <- states :: DecisionRuns.Sound(states[id]) && states[id].matched > 0)
  }

  ghost predicate Intact(s: Store) {
    && Distinct(s.projects, ProjectKey)
    && Distinct(s.rules, RuleKey)
    && ReferencesExist(s.rules, s.projects)
    && CountersSound(s.states, s.rules)
    && (forall r <- s.rules :: Stored(r.data))
    && (forall p <- s.projects :: ValidProject(p.details))
  }

  lemma KeepsOnAddRule(s: Store, id: Uuid, data: RuleCreate)
    requires Intact(s) && id !in Ids(s.rules, RuleKey) && Stored(data)
    ensures Intact(AddRule(s, id, data).0)
  {
    var rule := FailureRule(id, data);
    DistinctAppend(s.rules, RuleKey, rule);
    if data.projectId.Some? {
      FindSpec(s.projects, ProjectKey, data.projectId.value);
    }
  }

  lemma KeepsOnReplaceRule(s: Store, id: Uuid, data: RuleCreate)
    requires Intact(s) && Stored(data)
    requires data.projectId.Some? ==> data.projectId.value in Ids(s.projects, ProjectKey)
    ensures Intact(s.(rules := ReplaceFirst(s.rules, RuleKey, id, FailureRule(id, data))))
  {
    ReplaceKeepsIds(s.rules, RuleKey, id, FailureRule(id, data));
    DistinctIds(s.rules, ReplaceFirst(s.rules, RuleKey, id, FailureRule(id, data)), RuleKey);
  }

  lemma KeepsOnChangeRule(s: Store, id: Uuid, data: RuleCreate)
    requires Intact(s) && Stored(data)
    ensures Intact(ChangeRule(s, id, data).0)
  {
    if data.projectId.Some? {
      FindSpec(s.projects, ProjectKey, data.projectId.value);
    }
    if KnownProject(s.projects, data.projectId) {
      KeepsOnReplaceRule(s, id, data);
    }
  }

  lemma KeepsOnToggle(s: Store, id: Uuid, enabled: bool)
    requires Intact(s)
    ensures Intact(Toggle(s, id, enabled).0)
  {
    FindSpec(s.rules, RuleKey, id);
    var found := Find(s.rules, RuleKey, id);
    if found.Some? {
      KeepsOnReplaceRule(s, id, found.value.data.(enabled := enabled));
    }
  }

  lemma KeepsOnRemoveRule(s: Store, id: Uuid)
    requires Intact(s)
    ensures Intact(RemoveRule(s, id).0)
  {
    RemoveSpec(s.rules, RuleKey, id);
    var rest := RemoveFirst(s.rules, RuleKey, id);
    forall k | k in s.states && k != id ensures k in Ids(rest, RuleKey) {
      var i :| 0 <= i < |s.rules| && Ids(s.rules, RuleKey)[i] == k;
      assert s.rules[i] in rest;
      InIds(rest, RuleKey, s.rules[i]);
    }
  }

  lemma KeepsOnProjects(s: Store, op: Op, src: Source)
    requires Intact(s) && Admissible(s, op)
    requires op.CreateProject? || op.UpdateProject?
    ensures Intact(Step(src, s, op).0)
  {
    var p := Project(op.id, op.details);
    if op.CreateProject? {
      DistinctAppend(s.projects, ProjectKey, p);
    } else {
      ReplaceKeepsIds(s.projects, ProjectKey, op.id, p);
      DistinctIds(s.projects, ReplaceFirst(s.projects, ProjectKey, op.id, p), ProjectKey);
    }
  }

  lemma {:induction false} CountSpec(rules: seq<FailureRule>, id: Uuid)
    ensures CountForProject(rules, id) == 0 <==> forall r <- rules :: r.data.projectId != Some(id)
    decreases rules
  {
    if rules != [] {
      CountSpec(rules[1..], id);
    }
  }

  lemma KeepsOnRemoveProject(s: Store, id: Uuid)
    requires Intact(s)
    ensures Intact(RemoveProject(s, id).0)
  {
    RemoveSpec(s.projects, ProjectKey, id);
    CountSpec(s.rules, id);
    var rest := RemoveFirst(s.projects, ProjectKey, id);
    if CountForProject(s.rules, id) == 0 {
      forall r | r in s.rules && r.data.projectId.Some? ensures r.data.projectId.value in Ids(rest, ProjectKey) {
        var i :| 0 <= i < |s.projects| && Ids(s.projects, ProjectKey)[i] == r.data.projectId.value;
        assert s.projects[i] in rest;
        InIds(rest, ProjectKey, s.projects[i]);
      }
    }
  }

  /** The in-use guard is exact: deleting an existing project leaves every reference valid if and only if no rule
      belongs to it. */
  lemma GuardIsExact(s: Store, id: Uuid)
    requires Intact(s) && Find(s.projects, ProjectKey, id).Some?
    ensures ReferencesExist(s.rules, RemoveFirst(s.projects, ProjectKey, id)) <==> CountForProject(s.rules, id) == 0
  {
    var rest := RemoveFirst(s.projects, ProjectKey, id);
    CountSpec(s.rules, id);
    RemoveSpec(s.projects, ProjectKey, id);
    if CountForProject(s.rules, id) == 0 {
      KeepsOnRemoveProject(s, id);
    } else {
      var r :| r in s.rules && r.data.projectId == Some(id);
      forall i | 0 <= i < |rest| ensures Ids(rest, ProjectKey)[i] != id {
        assert rest[i] in rest;
      }
    }
  }

  lemma KeepsOnReset(s: Store, id: Uuid)
    requires Intact(s)
    ensures Intact(Reset(s, id).0)
  {
  }

  lemma NormalizedDocumentIntact(d: ConfigurationDocument)
    requires AcceptedDocument(d)
    ensures Ids(NormalizedRules(d.rules), RuleKey) == Ids(d.rules, RuleKey)
    ensures ValidGraph(NormalizedDocument(d))
    ensures forall r <- NormalizedRules(d.rules) :: Stored(r.data)
  {
    var rules := NormalizedRules(d.rules);
    forall i | 0 <= i < |rules|
      ensures Stored(rules[i].data)
      ensures rules[i].data.projectId == d.rules[i].data.projectId
    {
      assert d.rules[i] in d.rules;
      ValidationIsIdempotent(d.rules[i].data, false);
    }
    forall r | r in rules && r.data.projectId.Some? ensures r.data.projectId.value in Ids(d.projects, ProjectKey) {
      var i :| 0 <= i < |rules| && rules[i] == r;
      assert d.rules[i] in d.rules;
    }
  }

  lemma KeepsOnDispatch(src: Source, s: Store, verb: string, path: string, now: Instant)
    requires Intact(s)
    ensures Intact(Dispatch(src, s, verb, path, now).0)
  {
    FindsFirst(s.rules, verb, path);
    var found := FindMatchingRule(s.rules, verb, path);
    if found.Some? {
      InIds(s.rules, RuleKey, found.value);
      KeepsCountersSound(src, s, Call(found.value, now));
    }
  }

  lemma KeepsCountersSound(src: Source, s: Store, c: Call)
    requires CountersSound(s.states, s.rules) && c.rule.id in Ids(s.rules, RuleKey)
    ensures CountersSound(Decide(src, Engine(s.states, s.draws), c).0.states, s.rules)
  {
  }

  /** Every operation keeps the configuration intact. */
  lemma StepKeepsIntact(src: Source, s: Store, op: Op)
    requires Intact(s) && Admissible(s, op)
    ensures Intact(Step(src, s, op).0)
  {
    hide Decide;
    match op
    case CreateRule(id, payload) =>
      if ValidRule(payload, false) {
        ValidationIsIdempotent(payload, false);
        KeepsOnAddRule(s, id, NormalizedRule(payload));
      }
    case UpdateRule(id, payload) =>
      if ValidRule(payload, false) {
        ValidationIsIdempotent(payload, false);
        KeepsOnChangeRule(s, id, NormalizedRule(payload));
      }
    case CreateFromTemplate(id, template, form) =>
      if ValidForm(form) && template.Some? {
        UpperIdempotent(form.target.verb);
        KeepsOnAddRule(s, id, FromTemplate(template.value, form));
      }
    case CreateProject(_, _) => KeepsOnProjects(s, op, src);
    case UpdateProject(_, _) => KeepsOnProjects(s, op, src);
    case DeleteProject(id) => KeepsOnRemoveProject(s, id);
    case SetEnabled(id, enabled) => KeepsOnToggle(s, id, enabled);
    case DeleteRule(id) => KeepsOnRemoveRule(s, id);
    case ResetState(id) => KeepsOnReset(s, id);
    case Import(d, _) =>
      if AcceptedDocument(d) {
        NormalizedDocumentIntact(d);
      }
    case Serve(verb, path, now) => KeepsOnDispatch(src, s, verb, path, now);
    case _ =>
  }

  /** Global integrity: ids stay unique, references and counter keys stay valid, counters stay sound and every
      stored rule stays a fixed point of validation, over every run of every operation. */
  lemma {:induction false} GlobalIntegrity(src: Source, s: Store, ops: seq<Op>)
    requires Intact(s) && AdmissibleRun(src, s, ops)
    ensures Intact(RunOps(src, s, ops).0)
    decreases |ops|
  {
    if ops != [] {
      StepKeepsIntact(src, s, ops[0]);
      GlobalIntegrity(src, Step(src, s, ops[0]).0, ops[1..]);
    }
  }

  // The initial configuration.

  const DEFAULT_PROJECT_ID: Uuid := 1

  function SeedProjects(): seq<Project> {
    [Project(DEFAULT_PROJECT_ID, ProjectCreate("Default project", "Default failure simulation scenarios"))]
  }

  function SeedRules(id: Uuid): seq<FailureRule> {
    [FailureRule(id, RuleCreate(
      "Users service unavailable", true, Some(DEFAULT_PROJECT_ID), RequestMatch("GET", "/api/users"),
      SimulatedResponse(503, [Header("content-type", "application/json")],
                        Some(Json("{\"error\":\"service unavailable\"}")), 0),
      RuleBehavior(1.0, 0, None, None)))]
  }

  lemma SeedHeaderName()
    ensures Headers.Token("content-type") && Headers.Lower("content-type") == "content-type"
  {
    hide Headers.FORBIDDEN;
  }

  lemma SeedHeaderValue()
    ensures Headers.Printable("application/json") && Headers.Latin1("application/json")
  {
  }

  lemma TwelveCharactersAllowed(name: string)
    requires |name| == 12
    ensures name !in Headers.FORBIDDEN
  {
  }

  lemma SeedHeaderAcceptable()
    ensures Headers.AcceptableHeader(Header("content-type", "application/json"))
    ensures Headers.Lower("content-type") == "content-type"
  {
    hide Headers.Token, Headers.FORBIDDEN, Headers.Printable, Headers.Latin1;
    SeedHeaderName();
    SeedHeaderValue();
    TwelveCharactersAllowed(Headers.Lower("content-type"));
  }

  lemma SeedRuleStored(id: Uuid)
    ensures Stored(SeedRules(id)[0].data)
  {
    hide Headers.Acceptable, Headers.AcceptableHeader, Headers.Normalized;
    SeedHeaderAcceptable();
    Headers.SingleHeader(Header("content-type", "application/json"));
    var d := SeedRules(id)[0].data;
    Utf8AtMostFour(d.response.body.value.text);
    assert Upper(d.target.verb) == d.target.verb;
    assert d.target.path[0] == '/' && d.target.path[1] == 'a';
  }

  /** The seeds form an intact configuration, so every run from a new store is covered. */
  lemma SeedsIntact(id: Uuid)
    ensures Intact(Store(SeedProjects(), SeedRules(id), map[], 0))
  {
    hide Stored;
    SeedRuleStored(id);
    assert Ids(SeedProjects(), ProjectKey)[0] == DEFAULT_PROJECT_ID;
  }

  // Export and import.

  /** An export of an intact configuration fails only for its size: creates are not capped, exports are. */
  lemma ExportSucceedsWithinCap(src: Source, s: Store)
    requires Intact(s)
    ensures Step(src, s, Export).0 == s
    ensures Step(src, s, Export).1 ==
            if |s.projects| <= 10_000 && |s.rules| <= 10_000
            then Exported(ConfigurationDocument(s.projects, s.rules)) else ExportFailed
  {
    assert ReferencesExist(s.rules, s.projects);
  }

  function Numbered(n: nat): (r: seq<Project>)
    ensures |r| == n
    ensures forall i :: 0 <= i < n ==> r[i] == Project(i, ProjectCreate("p", ""))
  {
    seq(n, i requires 0 <= i < n => Project(i, ProjectCreate("p", "")))
  }

  function Creations(first: nat, n: nat): seq<Op>
    decreases n
  {
    if n == 0 then [] else [CreateProject(first, ProjectCreate("p", ""))] + Creations(first + 1, n - 1)
  }

  lemma {:induction false} CreationsRun(src: Source, s: Store, n: nat)
    requires s.projects == Numbered(|s.projects|)
    ensures AdmissibleRun(src, s, Creations(|s.projects|, n))
    ensures RunOps(src, s, Creations(|s.projects|, n)).0 == s.(projects := Numbered(|s.projects| + n))
    decreases n
  {
    if n > 0 {
      var ops := Creations(|s.projects|, n);
      var next := Step(src, s, ops[0]).0;
      assert next.projects == Numbered(|s.projects| + 1);
      assert ops[1..] == Creations(|next.projects|, n - 1);
      CreationsRun(src, next, n - 1);
    }
  }

  /** A reachable configuration whose export fails: one project more than the cap. */
  lemma ExportCanFail(src: Source)
    ensures var empty := Store([], [], map[], 0);
            var ops := Creations(0, MAX_CONFIGURATION_ITEMS + 1);
            && Intact(empty) && AdmissibleRun(src, empty, ops)
            && Step(src, RunOps(src, empty, ops).0, Export).1 == ExportFailed
  {
    CreationsRun(src, Store([], [], map[], 0), MAX_CONFIGURATION_ITEMS + 1);
  }

  predicate NoReservedPaths(rules: seq<FailureRule>) {
    forall r <- rules :: !IsReservedPath(r.data.target.path)
  }

  lemma StoredDocumentAccepted(s: Store)
    requires Intact(s) && WithinCap(Document(s))
    ensures AcceptedDocument(Document(s)) <==> NoReservedPaths(s.rules)
    ensures NormalizedDocument(Document(s)) == Document(s)
  {
    assert ReferencesExist(s.rules, s.projects);
    forall r | r in s.rules ensures ValidRule(r.data, false) <==> !IsReservedPath(r.data.target.path) {
      assert Stored(r.data);
    }
    forall i | 0 <= i < |s.rules| ensures NormalizedRules(s.rules)[i] == s.rules[i] {
      assert s.rules[i] in s.rules;
    }
    assert NormalizedRules(s.rules) == s.rules;
  }

  /** The rules that have counters. */
  function MatchedIds(s: Store): set<Uuid> {
    set r <- s.rules | Current(s.states, r.id).matched > 0 :: r.id
  }

  lemma StatesAreMatchedIds(s: Store)
    requires Intact(s)
    ensures MatchedIds(s) == s.states.Keys
  {
    forall id | id in s.states ensures exists r <- s.rules :: r.id == id {
      FindSpec(s.rules, RuleKey, id);
    }
  }

  /** Importing an export is accepted exactly when no legacy rule sits on a reserved path; it then changes nothing
      but the counters, which it clears, and it reports how many rules had any. */
  lemma ExportImportRoundTrip(src: Source, s: Store)
    requires Intact(s) && WithinCap(Document(s))
    ensures Step(src, s, Import(Document(s), false)) ==
            if NoReservedPaths(s.rules)
            then (s.(states := map[]), Imported(|s.projects|, |s.rules|, |MatchedIds(s)|, false))
            else (s, Rejected)
  {
    StoredDocumentAccepted(s);
    StatesAreMatchedIds(s);
    assert |s.states| == |s.states.Keys|;
  }

  /** A rule as it may have been stored before paths under the control prefix were reserved. */
  function LegacyRule(id: Uuid): FailureRule {
    FailureRule(id, RuleCreate("legacy", true, None, RequestMatch("GET", CONTROL_PREFIX),
                               SimulatedResponse(503, [], None, 0), RuleBehavior(1.0, 0, None, None)))
  }

  /** One legacy rule on a reserved path: the configuration is intact and exports, and its own export is refused. */
  lemma ExportCanBeRefused(src: Source, id: Uuid)
    ensures var s := Store([], [LegacyRule(id)], map[], 0);
            && Intact(s) && !NoReservedPaths(s.rules)
            && Step(src, s, Export).1 == Exported(Document(s))
            && Step(src, s, Import(Document(s), false)) == (s, Rejected)
  {
    var s := Store([], [LegacyRule(id)], map[], 0);
    assert Upper("GET") == "GET";
    assert Headers.Acceptable([]) && Headers.Normalized([]) == [];
    assert Stored(LegacyRule(id).data);
    assert LegacyRule(id) in s.rules;
    ExportSucceedsWithinCap(src, s);
    ExportImportRoundTrip(src, s);
  }

  /** After an accepted import, an export returns the document that was imported, in order and normalized;
      a dry run reports the same sizes and changes nothing. */
  lemma ImportExportRoundTrip(src: Source, s: Store, d: ConfigurationDocument)
    requires Intact(s) && AcceptedDocument(d)
    ensures var after := Step(src, s, Import(d, false)).0;
            && after.states == map[]
            && Step(src, after, Export).1 == Exported(NormalizedDocument(d))
    ensures Step(src, s, Import(d, true)) == (s, Imported(|d.projects|, |d.rules|, 0, true))
  {
    StepKeepsIntact(src, s, Import(d, false));
    ExportSucceedsWithinCap(src, Step(src, s, Import(d, false)).0);
  }

  // First-match ownership.

  /** Rule `a` is enabled and comes before rule `b` with the same method and path. */
  ghost predicate Shadows(rules: seq<FailureRule>, a: Uuid, b: Uuid) {
    exists i, j :: 0 <= i < j < |rules| && rules[i].id == a && rules[j].id == b
                   && rules[i].data.enabled && rules[i].data.target == rules[j].data.target
  }

  lemma ShadowedNeverServes(rules: seq<FailureRule>, a: Uuid, b: Uuid, verb: string, path: string)
    requires Distinct(rules, RuleKey) && Shadows(rules, a, b)
    ensures var found := FindMatchingRule(rules, verb, path); found.Some? ==> found.value.id != b
  {
    var i, j :| 0 <= i < j < |rules| && rules[i].id == a && rules[j].id == b
                && rules[i].data.enabled && rules[i].data.target == rules[j].data.target;
    var found := FindMatchingRule(rules, verb, path);
    if Serves(rules[j], verb, path) {
      var l := FoundInFront(rules, i, j, verb, path);
      assert RuleKey(rules[l]) != RuleKey(rules[j]);
    } else if found.Some? {
      var k := FoundServes(rules, verb, path);
      assert k != j && RuleKey(rules[k]) != RuleKey(rules[j]);
    }
  }

  lemma FoundServes(rules: seq<FailureRule>, verb: string, path: string) returns (k: nat)
    requires FindMatchingRule(rules, verb, path).Some?
    ensures k < |rules| && FindMatchingRule(rules, verb, path) == Some(rules[k]) && Serves(rules[k], verb, path)
  {
    FindsFirst(rules, verb, path);
    k :| 0 <= k < |rules| && rules[k] == FindMatchingRule(rules, verb, path).value;
  }

  lemma FoundInFront(rules: seq<FailureRule>, i: nat, j: nat, verb: string, path: string) returns (l: nat)
    requires i < j <= |rules| && Serves(rules[i], verb, path)
    ensures l < j && FindMatchingRule(rules, verb, path) == Some(rules[l])
  {
    var front := rules[..j];
    FindInParts(front, rules[j..], verb, path);
    assert rules == front + rules[j..];
    assert front[i] in front && Serves(front[i], verb, path);
    FindsFirst(front, verb, path);
    l := FoundServes(front, verb, path);
  }

  /** The operation does not itself clear the counters of rule `b`. */
  predicate LeavesCounters(op: Op, b: Uuid) {
    op != ResetState(b) && op != DeleteRule(b) && !(op.Import? && !op.dryRun)
  }

  ghost predicate ShadowedThroughout(src: Source, s: Store, ops: seq<Op>, a: Uuid, b: Uuid)
    decreases |ops|
  {
    ops != [] ==>
      && Shadows(s.rules, a, b)
      && LeavesCounters(ops[0], b)
      && ShadowedThroughout(src, Step(src, s, ops[0]).0, ops[1..], a, b)
  }

  lemma ManagementLeavesCounters(src: Source, s: Store, op: Op, b: Uuid)
    requires LeavesCounters(op, b) && !op.Serve?
    ensures Current(Step(src, s, op).0.states, b) == Current(s.states, b)
  {
  }

  lemma ShadowedDispatch(src: Source, s: Store, verb: string, path: string, now: Instant, a: Uuid, b: Uuid)
    requires Distinct(s.rules, RuleKey) && Filed(s.states) && Shadows(s.rules, a, b)
    ensures Current(Dispatch(src, s, verb, path, now).0.states, b) == Current(s.states, b)
  {
    hide Decide;
    ShadowedNeverServes(s.rules, a, b, verb, path);
    var found := FindMatchingRule(s.rules, verb, path);
    if found.Some? {
      DecisionRuns.DecideOther(src, Engine(s.states, s.draws), Call(found.value, now), b);
    }
  }

  lemma ShadowedStep(src: Source, s: Store, op: Op, a: Uuid, b: Uuid)
    requires Intact(s) && Shadows(s.rules, a, b) && LeavesCounters(op, b)
    ensures Current(Step(src, s, op).0.states, b) == Current(s.states, b)
  {
    hide Decide, Current;
    if op.Serve? {
      ShadowedDispatch(src, s, op.verb, op.path, op.now, a, b);
    } else {
      ManagementLeavesCounters(src, s, op, b);
    }
  }

  /** First-match ownership: while an enabled rule precedes it with the same method and path, a rule's counters
      never change, whatever the earlier rule decides and whatever else happens. */
  lemma {:induction false} FirstMatchOwns(src: Source, s: Store, ops: seq<Op>, a: Uuid, b: Uuid)
    requires Intact(s) && AdmissibleRun(src, s, ops) && ShadowedThroughout(src, s, ops, a, b)
    ensures Current(RunOps(src, s, ops).0.states, b) == Current(s.states, b)
    decreases |ops|
  {
    hide Decide;
    if ops != [] {
      ShadowedStep(src, s, ops[0], a, b);
      StepKeepsIntact(src, s, ops[0]);
      FirstMatchOwns(src, Step(src, s, ops[0]).0, ops[1..], a, b);
    }
  }
}
