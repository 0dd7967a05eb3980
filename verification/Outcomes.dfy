/** What a client sees of each operation: which reply under which condition, and what is left afterwards, by position
    and field; and what follows for reserved paths and for the requests a rule owns over whole runs. */
module Outcomes {
  import opened Models
  import opened Keyed
  import opened Validation
  import opened Matcher
  import opened Decision
  import opened Store
  import opened Integrity
  import DecisionRuns
  import Headers

  predicate Exists(rules: seq<FailureRule>, id: Uuid) { exists r <- rules :: r.id == id }

  predicate Known(projects: seq<Project>, ref: Option<Uuid>) {
    ref.Some? ==> exists p <- projects :: p.id == ref.value
  }

  lemma ExistsIsFound(rules: seq<FailureRule>, id: Uuid)
    ensures Exists(rules, id) <==> id in Ids(rules, RuleKey)
    ensures Exists(rules, id) <==> Find(rules, RuleKey, id).Some?
  {
    FindSpec(rules, RuleKey, id);
    if r :| r in rules && r.id == id {
      InIds(rules, RuleKey, r);
    }
  }

  lemma KnownIsFound(projects: seq<Project>, ref: Option<Uuid>)
    ensures Known(projects, ref) <==> KnownProject(projects, ref)
    ensures ref.Some? ==> (Known(projects, ref) <==> ref.value in Ids(projects, ProjectKey))
  {
    if ref.Some? {
      FindSpec(projects, ProjectKey, ref.value);
      if p :| p in projects && p.id == ref.value {
        InIds(projects, ProjectKey, p);
      }
    }
  }

  // Projects.

  lemma ProjectLimits(d: ProjectCreate)
    ensures ValidProject(d) <==> d.name != "" && |d.name| <= 100 && |d.description| <= 1000
  {
  }

  /** A project is accepted exactly within its length limits, and is then last in the list. */
  lemma CreateProjectOutcome(src: Source, s: Store, id: Uuid, details: ProjectCreate)
    ensures var (after, reply) := Step(src, s, CreateProject(id, details));
            var valid := details.name != "" && |details.name| <= 100 && |details.description| <= 1000;
            && (reply == Rejected <==> !valid)
            && (!valid ==> after == s)
            && (valid ==>
                  && reply == ProjectReply(Project(id, details))
                  && after.projects == s.projects + [Project(id, details)] && after == s.(projects := after.projects))
  {
    ProjectLimits(details);
  }

  /** An update is refused for its limits first, then for a missing project; otherwise the project changes in place. */
  lemma UpdateProjectOutcome(src: Source, s: Store, id: Uuid, details: ProjectCreate)
    requires Distinct(s.projects, ProjectKey)
    ensures var (after, reply) := Step(src, s, Op.UpdateProject(id, details));
            var valid := details.name != "" && |details.name| <= 100 && |details.description| <= 1000;
            var found := Known(s.projects, Some(id));
            && (reply == Rejected <==> !valid)
            && (reply == NotFound <==> valid && !found)
            && (!valid || !found ==> after == s)
            && (valid && found ==>
                  && reply == ProjectReply(Project(id, details))
                  && ReplacedAt(s.projects, after.projects, ProjectKey, id, Project(id, details))
                  && after == s.(projects := after.projects))
  {
    ProjectLimits(details);
    KnownIsFound(s.projects, Some(id));
    if Known(s.projects, Some(id)) {
      ChangesByPosition(s.projects, ProjectKey, id, Project(id, details));
    }
  }

  lemma UsedExactly(rules: seq<FailureRule>, id: Uuid)
    ensures CountForProject(rules, id) > 0 <==> exists r <- rules :: r.data.projectId == Some(id)
  {
    CountSpec(rules, id);
  }

  /** A project is deleted exactly if it exists and no rule names it, and then nothing else changes. */
  lemma DeleteProjectOutcome(src: Source, s: Store, id: Uuid)
    requires Distinct(s.projects, ProjectKey)
    ensures var (after, reply) := Step(src, s, Op.DeleteProject(id));
            var found := Known(s.projects, Some(id));
            var used := exists r <- s.rules :: r.data.projectId == Some(id);
            && (reply == NotFound <==> !found)
            && (reply == InUse <==> found && used)
            && (reply == Deleted <==> found && !used)
            && (reply != Deleted ==> after == s)
            && (reply == Deleted ==>
                  && RemovedAt(s.projects, after.projects, ProjectKey, id)
                  && after == s.(projects := after.projects))
  {
    KnownIsFound(s.projects, Some(id));
    UsedExactly(s.rules, id);
    if Known(s.projects, Some(id)) {
      ChangesByPosition(s.projects, ProjectKey, id, Project(id, ProjectCreate("", "")));
    }
  }

  // Rules.

  /** A rule is refused for its payload first, then for an unknown project; otherwise it is last in the list,
      normalized, and nothing else changes. */
  lemma CreateRuleOutcome(src: Source, s: Store, id: Uuid, payload: RuleCreate)
    ensures var (after, reply) := Step(src, s, CreateRule(id, payload));
            var valid, known := ValidRule(payload, false), Known(s.projects, payload.projectId);
            && (reply == Rejected <==> !valid)
            && (reply == UnknownProject <==> valid && !known)
            && (!valid || !known ==> after == s)
            && (valid && known ==>
                  && reply == RuleReply(FailureRule(id, NormalizedRule(payload)))
                  && after.rules == s.rules + [FailureRule(id, NormalizedRule(payload))]
                  && after == s.(rules := after.rules))
  {
    hide ValidRule, NormalizedRule;
    NormalizedRuleExactly(payload);
    KnownIsFound(s.projects, payload.projectId);
  }

  /** The form is checked first, then the template, then the project. The rule takes its name from the form if it has
      one, its response from the template and everything else from the form. */
  lemma CreateFromTemplateOutcome(src: Source, s: Store, id: Uuid, template: Option<FailureTemplate>,
                                  form: RuleFromTemplateCreate)
    ensures var (after, reply) := Step(src, s, CreateFromTemplate(id, template, form));
            var path := form.target.path;
            var valid := && (form.name.Some? ==> form.name.value != "")
                         && path != "" && path[0] == '/' && path != "/_simulator" && !("/_simulator/" <= path)
                         && ValidBehavior(form.behavior);
            var known := Known(s.projects, form.projectId);
            && (reply == Rejected <==> !valid)
            && (reply == NotFound <==> valid && template.None?)
            && (reply == UnknownProject <==> valid && template.Some? && !known)
            && (!reply.RuleReply? ==> after == s)
            && (valid && template.Some? && known ==>
                  && reply.RuleReply? && reply.rule.id == id
                  && reply.rule.data.name == (match form.name case Some(n) => n case None => template.value.name)
                  && reply.rule.data.enabled == form.enabled
                  && reply.rule.data.projectId == form.projectId
                  && reply.rule.data.target == RequestMatch(Upper(form.target.verb), path)
                  && reply.rule.data.response == template.value.response
                  && reply.rule.data.behavior == form.behavior
                  && after.rules == s.rules + [reply.rule] && after == s.(rules := after.rules))
  {
    hide ValidBehavior, ValidPath;
    KnownIsFound(s.projects, form.projectId);
    ValidPathExactly(form.target.path);
  }

  /** An update is refused for its payload first, then for an unknown project, then for a missing rule; otherwise the
      rule changes in place, its counters stay, and nothing else changes. */
  lemma UpdateRuleOutcome(src: Source, s: Store, id: Uuid, payload: RuleCreate)
    requires Distinct(s.rules, RuleKey)
    ensures var (after, reply) := Step(src, s, Op.UpdateRule(id, payload));
            var valid, known := ValidRule(payload, false), Known(s.projects, payload.projectId);
            var found := Exists(s.rules, id);
            && (reply == Rejected <==> !valid)
            && (reply == UnknownProject <==> valid && !known)
            && (reply == NotFound <==> valid && known && !found)
            && (!reply.RuleReply? ==> after == s)
            && (valid && known && found ==>
                  && reply == RuleReply(FailureRule(id, NormalizedRule(payload)))
                  && ReplacedAt(s.rules, after.rules, RuleKey, id, FailureRule(id, NormalizedRule(payload)))
                  && after == s.(rules := after.rules))
  {
    hide ValidRule, NormalizedRule;
    NormalizedRuleExactly(payload);
    KnownIsFound(s.projects, payload.projectId);
    ExistsIsFound(s.rules, id);
    if Exists(s.rules, id) {
      ChangesByPosition(s.rules, RuleKey, id, FailureRule(id, NormalizedRule(payload)));
    }
  }

  /** A toggle sets the flag of the rule with the id to the value given, and changes nothing else at all. */
  lemma SetEnabledOutcome(src: Source, s: Store, id: Uuid, enabled: bool)
    requires Distinct(s.rules, RuleKey)
    ensures var (after, reply) := Step(src, s, Op.SetEnabled(id, enabled));
            && (reply == NotFound <==> !Exists(s.rules, id))
            && after == s.(rules := after.rules) && |after.rules| == |s.rules|
            && forall i :: 0 <= i < |s.rules| ==>
                 if s.rules[i].id == id
                 then after.rules[i] == FailureRule(id, s.rules[i].data.(enabled := enabled))
                      && reply == RuleReply(after.rules[i])
                 else after.rules[i] == s.rules[i]
  {
    ExistsIsFound(s.rules, id);
    if Exists(s.rules, id) {
      FindSpec(s.rules, RuleKey, id);
      var was := Find(s.rules, RuleKey, id).value;
      ChangesByPosition(s.rules, RuleKey, id, was.(data := was.data.(enabled := enabled)));
    }
  }

  /** A deleted rule takes its counters along, and nothing else. */
  lemma DeleteRuleOutcome(src: Source, s: Store, id: Uuid)
    requires Distinct(s.rules, RuleKey)
    ensures var (after, reply) := Step(src, s, Op.DeleteRule(id));
            && (reply == NotFound <==> !Exists(s.rules, id))
            && (reply == Deleted <==> Exists(s.rules, id))
            && (reply == NotFound ==> after == s)
            && (reply == Deleted ==>
                  && RemovedAt(s.rules, after.rules, RuleKey, id) && after.projects == s.projects
                  && id !in after.states && after.draws == s.draws
                  && forall k: Uuid :: k != id ==> Current(after.states, k) == Current(s.states, k))
  {
    ExistsIsFound(s.rules, id);
    if Exists(s.rules, id) {
      FindSpec(s.rules, RuleKey, id);
      ChangesByPosition(s.rules, RuleKey, id, Find(s.rules, RuleKey, id).value);
    }
  }

  /** A reset zeroes the counters of an existing rule and no others. */
  lemma ResetOutcome(src: Source, s: Store, id: Uuid)
    ensures var (after, reply) := Step(src, s, ResetState(id));
            && (reply == NotFound <==> !Exists(s.rules, id))
            && (reply == NotFound ==> after == s)
            && after == s.(states := after.states)
            && (Exists(s.rules, id) ==>
                  && reply == StateReply(RuleRuntimeState(id, 0, 0, None))
                  && Current(after.states, id) == RuleRuntimeState(id, 0, 0, None)
                  && forall k: Uuid :: k != id ==> Current(after.states, k) == Current(s.states, k))
  {
    ExistsIsFound(s.rules, id);
  }

  /** One state per rule, in rule order, with zeros for a rule that was never matched. */
  lemma ListStatesOutcome(src: Source, s: Store)
    ensures var (after, reply) := Step(src, s, ListStates);
            && after == s && reply.StatesReply? && |reply.states| == |s.rules|
            && forall i :: 0 <= i < |s.rules| ==>
                 reply.states[i] == if s.rules[i].id in s.states then s.states[s.rules[i].id]
                                    else RuleRuntimeState(s.rules[i].id, 0, 0, None)
  {
  }

  // Documents.

  /** What an import accepts: at most 10,000 projects and rules, each valid and off the reserved paths, ids unique in
      each list, and every rule's project among the projects. */
  lemma AcceptedDocumentExactly(d: ConfigurationDocument)
    ensures AcceptedDocument(d) <==>
            && |d.projects| <= 10_000 && |d.rules| <= 10_000
            && (forall p <- d.projects ::
                  p.details.name != "" && |p.details.name| <= 100 && |p.details.description| <= 1000)
            && (forall r <- d.rules :: ValidRule(r.data, false) && Known(d.projects, r.data.projectId))
            && (forall i, j :: 0 <= i < j < |d.projects| ==> d.projects[i].id != d.projects[j].id)
            && (forall i, j :: 0 <= i < j < |d.rules| ==> d.rules[i].id != d.rules[j].id)
  {
    hide ValidRule;
    forall r | r in d.rules
      ensures Known(d.projects, r.data.projectId) <==>
              (r.data.projectId.Some? ==> r.data.projectId.value in Ids(d.projects, ProjectKey))
    {
      KnownIsFound(d.projects, r.data.projectId);
    }
    forall p | p in d.projects
      ensures ValidProject(p.details) <==>
              p.details.name != "" && |p.details.name| <= 100 && |p.details.description| <= 1000
    {
      ProjectLimits(p.details);
    }
  }

  /** The reply of every import: refused exactly for an unacceptable document; otherwise the sizes of the document and,
      unless it is a dry run, how many rules had counters. A dry run changes nothing; an import leaves the projects in
      order, the rules in order with their ids, normalized, and no counters. */
  lemma ImportOutcome(src: Source, s: Store, d: ConfigurationDocument, dryRun: bool)
    requires Intact(s)
    ensures var (after, reply) := Step(src, s, Import(d, dryRun));
            var accepted := AcceptedDocument(d);
            && (reply == Rejected <==> !accepted)
            && (accepted ==> reply == Imported(|d.projects|, |d.rules|, if dryRun then 0 else |MatchedIds(s)|, dryRun))
            && (!accepted || dryRun ==> after == s)
            && (accepted && !dryRun ==>
                  && after.projects == d.projects && after.states == map[] && after.draws == s.draws
                  && |after.rules| == |d.rules|
                  && forall i :: 0 <= i < |d.rules| ==>
                       after.rules[i] == FailureRule(d.rules[i].id, NormalizedRule(d.rules[i].data)))
  {
    hide AcceptedDocument, NormalizedRule, Intact;
    StatesAreMatchedIds(s);
    assert |s.states| == |s.states.Keys|;
  }

  // Requests.

  /** No rule for the method and path: nothing happens. Otherwise the first enabled one in the list counts one match,
      and one simulation at this time if its policies do not object; the reply says which rule, why, and its new
      counters. */
  lemma ServeOutcome(src: Source, s: Store, verb: string, path: string, now: Instant)
    requires Filed(s.states)
    ensures var (after, reply) := Step(src, s, Serve(verb, path, now));
            var target := RequestMatch(Upper(verb), path);
            if forall r <- s.rules :: !(r.data.enabled && r.data.target == target)
            then after == s && reply == Served(None)
            else
              && reply.Served? && reply.match_.Some?
              && exists i :: 0 <= i < |s.rules| && s.rules[i].data.enabled && s.rules[i].data.target == target
                             && (forall j :: 0 <= j < i ==>
                                   !(s.rules[j].data.enabled && s.rules[j].data.target == target))
                             && Counted(src, s, s.rules[i], now, after, reply.match_.value)
  {
    hide Decide, Counted;
    MatchExactly(s.rules, verb, path);
    var found := FindMatchingRule(s.rules, verb, path);
    if found.Some? {
      CountsOnce(src, s, found.value, now);
      assert exists r <- s.rules :: r.data.enabled && r.data.target == RequestMatch(Upper(verb), path);
    }
  }

  /** What one match of the rule leaves behind and answers. */
  ghost predicate Counted(src: Source, s: Store, rule: FailureRule, now: Instant, after: Store, d: RuleDecision) {
    var was := Current(s.states, rule.id);
    var hit := d.reason == Always || d.reason == ProbabilityHit;
    && d.ruleId == rule.id && (d.simulate <==> hit)
    && Justified(src, rule, RuleRuntimeState(rule.id, was.matched + 1, was.simulated, was.lastTriggered), s.draws,
                 d.reason, after.draws)
    && d.state == RuleRuntimeState(rule.id, was.matched + 1, if hit then was.simulated + 1 else was.simulated,
                                   if hit then Some(now) else was.lastTriggered)
    && after.states == s.states[rule.id := d.state]
    && after.rules == s.rules && after.projects == s.projects
  }

  lemma CountsOnce(src: Source, s: Store, rule: FailureRule, now: Instant)
    requires Filed(s.states)
    ensures var (engine, d) := Decide(src, Engine(s.states, s.draws), Call(rule, now));
            Counted(src, s, rule, now, s.(states := engine.states, draws := engine.draws), d)
  {
    var was := Current(s.states, rule.id);
    var (engine, d) := Decide(src, Engine(s.states, s.draws), Call(rule, now));
    JustifiedExactly(src, rule, was.(matched := was.matched + 1), s.draws, d.reason, engine.draws);
  }

  // Reserved paths over runs.

  /** A payload on a reserved path is refused by every operation that stores one, and changes nothing. */
  lemma ReservedRefused(src: Source, s: Store, op: Op)
    requires op.CreateRule? || op.UpdateRule? || op.CreateFromTemplate?
    requires var path := if op.CreateFromTemplate? then op.form.target.path else op.payload.target.path;
             path == "/_simulator" || "/_simulator/" <= path
    ensures Step(src, s, op) == (s, Rejected)
  {
    assert CONTROL_PREFIX + "/" == "/_simulator/";
  }

  lemma ReplacedStaysOff(rules: seq<FailureRule>, rule: FailureRule)
    requires NoReservedPaths(rules) && !IsReservedPath(rule.data.target.path)
    ensures NoReservedPaths(ReplaceFirst(rules, RuleKey, rule.id, rule))
  {
    ReplaceKeepsIds(rules, RuleKey, rule.id, rule);
  }

  lemma StepStaysOff(src: Source, s: Store, op: Op)
    requires Intact(s) && NoReservedPaths(s.rules)
    ensures NoReservedPaths(Step(src, s, op).0.rules)
  {
    hide Decide, IsReservedPath;
    match op
    case UpdateRule(id, payload) =>
      if ValidRule(payload, false) {
        ReplacedStaysOff(s.rules, FailureRule(id, NormalizedRule(payload)));
      }
    case SetEnabled(id, enabled) =>
      FindSpec(s.rules, RuleKey, id);
      var found := Find(s.rules, RuleKey, id);
      if found.Some? {
        ReplacedStaysOff(s.rules, found.value.(data := found.value.data.(enabled := enabled)));
      }
    case DeleteRule(id) => RemoveSpec(s.rules, RuleKey, id);
    case Import(d, dryRun) =>
      if AcceptedDocument(d) {
        NormalizedStaysOff(d.rules);
      }
    case _ =>
  }

  lemma NormalizedStaysOff(rules: seq<FailureRule>)
    requires forall r <- rules :: ValidRule(r.data, false)
    ensures NoReservedPaths(NormalizedRules(rules))
  {
    hide IsReservedPath;
    forall r | r in NormalizedRules(rules) ensures !IsReservedPath(r.data.target.path) {
      var i :| 0 <= i < |rules| && NormalizedRules(rules)[i] == r;
      assert rules[i] in rules;
    }
  }

  /** Over every run of every operation, a configuration without rules on reserved paths never gets one. */
  lemma {:induction false} ReservedPathsNeverStored(src: Source, s: Store, ops: seq<Op>)
    requires Intact(s) && NoReservedPaths(s.rules) && AdmissibleRun(src, s, ops)
    ensures NoReservedPaths(RunOps(src, s, ops).0.rules)
    decreases |ops|
  {
    hide Step, Intact, NoReservedPaths;
    if ops != [] {
      StepStaysOff(src, s, ops[0]);
      StepKeepsIntact(src, s, ops[0]);
      ReservedPathsNeverStored(src, Step(src, s, ops[0]).0, ops[1..]);
    }
  }

  // The requests a rule owns.

  /** Rule `id` is the first enabled rule with the upper-cased method and the path. */
  ghost predicate Owns(rules: seq<FailureRule>, id: Uuid, verb: string, path: string) {
    var target := RequestMatch(Upper(verb), path);
    exists i :: 0 <= i < |rules| && rules[i].id == id && rules[i].data.enabled && rules[i].data.target == target
                && forall j :: 0 <= j < i ==> !(rules[j].data.enabled && rules[j].data.target == target)
  }

  /** How many requests of the run rule `id` owned when they arrived. */
  ghost function OwnedRequests(src: Source, s: Store, ops: seq<Op>, id: Uuid): nat
    decreases |ops|
  {
    if ops == [] then 0
    else
      var rest := OwnedRequests(src, Step(src, s, ops[0]).0, ops[1..], id);
      if ops[0].Serve? && Owns(s.rules, id, ops[0].verb, ops[0].path) then 1 + rest else rest
  }

  lemma OwnsIsFound(rules: seq<FailureRule>, id: Uuid, verb: string, path: string)
    ensures var found := FindMatchingRule(rules, verb, path);
            Owns(rules, id, verb, path) <==> found.Some? && found.value.id == id
  {
    MatchExactly(rules, verb, path);
    var found, target := FindMatchingRule(rules, verb, path), RequestMatch(Upper(verb), path);
    if Owns(rules, id, verb, path) {
      var i :| 0 <= i < |rules| && rules[i].id == id && rules[i].data.enabled && rules[i].data.target == target
               && forall j :: 0 <= j < i ==> !(rules[j].data.enabled && rules[j].data.target == target);
      assert rules[i] in rules;
    }
  }

  lemma OwnedStep(src: Source, s: Store, op: Op, id: Uuid)
    requires Intact(s) && LeavesCounters(op, id)
    ensures var was, now := Current(s.states, id), Current(Step(src, s, op).0.states, id);
            if op.Serve? && Owns(s.rules, id, op.verb, op.path) then now.matched == was.matched + 1 else now == was
  {
    hide Decide, Current, Owns, Step;
    if op.Serve? {
      OwnsIsFound(s.rules, id, op.verb, op.path);
      ServedStates(src, s, op);
      var found := FindMatchingRule(s.rules, op.verb, op.path);
      if found.Some? {
        MatchedStep(src, Engine(s.states, s.draws), Call(found.value, op.now), id);
      }
    } else {
      ManagementLeavesCounters(src, s, op, id);
    }
  }

  lemma ServedStates(src: Source, s: Store, op: Op)
    requires op.Serve?
    ensures var found := FindMatchingRule(s.rules, op.verb, op.path);
            Step(src, s, op).0.states ==
            if found.Some? then Decide(src, Engine(s.states, s.draws), Call(found.value, op.now)).0.states
            else s.states
  {
    hide Decide;
  }

  lemma MatchedStep(src: Source, e: Engine, c: Call, id: Uuid)
    requires Filed(e.states)
    ensures var was, now := Current(e.states, id), Current(Decide(src, e, c).0.states, id);
            if c.rule.id == id then now.matched == was.matched + 1 else now == was
  {
  }

  /** Ownership over runs: unless they are cleared, a rule's counters count exactly the requests it owned, and a rule
      that owned none keeps its counters: requests for another method or path, to a disabled rule or behind an earlier
      rule leave no trace. */
  lemma {:induction false} MatchedCountsOwned(src: Source, s: Store, ops: seq<Op>, id: Uuid)
    requires Intact(s) && AdmissibleRun(src, s, ops) && forall op <- ops :: LeavesCounters(op, id)
    ensures var was, now := Current(s.states, id), Current(RunOps(src, s, ops).0.states, id);
            && now.matched == was.matched + OwnedRequests(src, s, ops, id)
            && (OwnedRequests(src, s, ops, id) == 0 ==> now == was)
    decreases |ops|
  {
    hide Step, Intact, Owns, Current;
    if ops != [] {
      OwnedStep(src, s, ops[0], id);
      StepKeepsIntact(src, s, ops[0]);
      MatchedCountsOwned(src, Step(src, s, ops[0]).0, ops[1..], id);
    }
  }

  /** A new store answers every GET request for /api/users, in any letter case of the method, with a simulated 503, for
      ever, and nothing else. */
  lemma SeedsServe(src: Source, s: Store, id: Uuid, verb: string, path: string, now: Instant)
    requires s.rules == SeedRules(id) && Filed(s.states)
    ensures s.rules[0].id == id && s.rules[0].data.response.status == 503
    ensures var reply := Step(src, s, Serve(verb, path, now)).1;
            if Headers.EqualIgnoringCase(verb, "GET") && path == "/api/users"
            then reply.Served? && reply.match_.Some? && reply.match_.value.ruleId == id
                 && reply.match_.value.simulate && reply.match_.value.reason == Always
            else reply == Served(None)
  {
    hide Decide, Counted;
    ServeOutcome(src, s, verb, path, now);
    UpperIgnoresCaseOnly(verb, "GET");
    assert Upper("GET") == "GET";
    var (after, reply) := Step(src, s, Serve(verb, path, now));
    if Headers.EqualIgnoringCase(verb, "GET") && path == "/api/users" {
      assert s.rules[0] in s.rules;
      SeedCounts(src, s, s.rules[0], now, after, reply.match_.value);
    }
  }

  lemma SeedCounts(src: Source, s: Store, rule: FailureRule, now: Instant, after: Store, d: RuleDecision)
    requires Counted(src, s, rule, now, after, d)
    requires rule.data.behavior == RuleBehavior(1.0, 0, None, None)
    ensures d.ruleId == rule.id && d.simulate && d.reason == Always
  {
  }
}
