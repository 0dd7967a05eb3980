/** The application services and the data plane over the in-memory repositories. */
module Services {
  import opened Models
  import opened Keyed
  import opened Matcher
  import opened Decision
  import opened InMemory
  import Validation
  import Memory = Store
  import History

  class RuleService {
    const repository: InMemoryRuleRepository
    const projectRepository: InMemoryProjectRepository
    const runtimeRepository: InMemoryRuleRuntimeRepository

    constructor (repository: InMemoryRuleRepository, projectRepository: InMemoryProjectRepository,
                 runtimeRepository: InMemoryRuleRuntimeRepository)
      ensures this.repository == repository && this.projectRepository == projectRepository
      ensures this.runtimeRepository == runtimeRepository
    {
      this.repository := repository;
      this.projectRepository := projectRepository;
      this.runtimeRepository := runtimeRepository;
    }

    /** The configuration these repositories hold; management never looks at the generator, so its position is 0. */
    function View(): Memory.Store
      reads repository, projectRepository, runtimeRepository
    {
      Memory.Store(projectRepository.projects, repository.rules, runtimeRepository.states, 0)
    }

    method ValidateProject(id: Option<Uuid>) returns (known: bool)
      ensures known == Memory.KnownProject(projectRepository.projects, id)
    {
      if id.None? {
        return true;
      }
      var project := projectRepository.Get(id.value);
      return project.Some?;
    }

    method Create(id: Uuid, data: RuleCreate) returns (reply: Memory.Reply)
      modifies repository
      ensures (View(), reply) == Memory.AddRule(old(View()), id, data)
    {
      var known := ValidateProject(data.projectId);
      if !known {
        return Memory.UnknownProject;
      }
      var rule := repository.Create(id, data);
      return Memory.RuleReply(rule);
    }

    method CreateFromTemplate(id: Uuid, template: Option<FailureTemplate>, form: RuleFromTemplateCreate)
      returns (reply: Memory.Reply)
      modifies repository
      ensures (View(), reply) ==
                if template.None? then (old(View()), Memory.NotFound)
                else Memory.AddRule(old(View()), id, Memory.FromTemplate(template.value, form))
    {
      if template.None? {
        return Memory.NotFound;
      }
      var known := ValidateProject(form.projectId);
      if !known {
        return Memory.UnknownProject;
      }
      var name := if form.name.Some? then form.name.value else template.value.name;
      var rule := repository.Create(
        id, RuleCreate(name, form.enabled, form.projectId, Validation.NormalizedTarget(form.target),
                       template.value.response, form.behavior));
      return Memory.RuleReply(rule);
    }

    method Update(id: Uuid, data: RuleCreate) returns (reply: Memory.Reply)
      modifies repository
      ensures (View(), reply) == Memory.ChangeRule(old(View()), id, data)
    {
      var known := ValidateProject(data.projectId);
      if !known {
        return Memory.UnknownProject;
      }
      var rule := repository.Update(id, data);
      if rule.None? {
        NothingReplaced(old(repository.rules), RuleKey, id, FailureRule(id, data));
        return Memory.NotFound;
      }
      return Memory.RuleReply(rule.value);
    }

    method SetEnabled(id: Uuid, enabled: bool) returns (reply: Memory.Reply)
      modifies repository
      ensures (View(), reply) == Memory.Toggle(old(View()), id, enabled)
    {
      var rule := repository.SetEnabled(id, enabled);
      if rule.None? {
        return Memory.NotFound;
      }
      return Memory.RuleReply(rule.value);
    }

    method Delete(id: Uuid) returns (reply: Memory.Reply)
      modifies repository, runtimeRepository
      ensures (View(), reply) == Memory.RemoveRule(old(View()), id)
    {
      var deleted := repository.Delete(id);
      if !deleted {
        NothingRemoved(old(repository.rules), RuleKey, id);
        return Memory.NotFound;
      }
      var _ := runtimeRepository.Reset(id);
      return Memory.Deleted;
    }

    method ResetState(id: Uuid) returns (reply: Memory.Reply)
      modifies runtimeRepository
      ensures (View(), reply) == Memory.Reset(old(View()), id)
    {
      var rule := repository.Get(id);
      if rule.None? {
        return Memory.NotFound;
      }
      var state := runtimeRepository.Reset(id);
      return Memory.StateReply(state);
    }

    method ListStates() returns (states: seq<RuleRuntimeState>)
      ensures states == Memory.RuleStates(View())
    {
      states := [];
      for i := 0 to |repository.rules|
        invariant |states| == i
        invariant forall j :: 0 <= j < i ==> states[j] == Current(runtimeRepository.states, repository.rules[j].id)
      {
        var state := runtimeRepository.Get(repository.rules[i].id);
        states := states + [state];
      }
    }
  }

  class ProjectService {
    const repository: InMemoryProjectRepository
    const ruleRepository: InMemoryRuleRepository

    constructor (repository: InMemoryProjectRepository, ruleRepository: InMemoryRuleRepository)
      ensures this.repository == repository && this.ruleRepository == ruleRepository
    {
      this.repository := repository;
      this.ruleRepository := ruleRepository;
    }

    /** Projects and rules; the service cannot see the counters. */
    function View(): Memory.Store
      reads repository, ruleRepository
    {
      Memory.Store(repository.projects, ruleRepository.rules, map[], 0)
    }

    method Create(id: Uuid, details: ProjectCreate) returns (reply: Memory.Reply)
      modifies repository
      ensures (View(), reply) == Memory.AddProject(old(View()), id, details)
    {
      var project := repository.Create(id, details);
      return Memory.ProjectReply(project);
    }

    method Update(id: Uuid, details: ProjectCreate) returns (reply: Memory.Reply)
      modifies repository
      ensures (View(), reply) == Memory.ChangeProject(old(View()), id, details)
    {
      var project := repository.Update(id, details);
      if project.None? {
        NothingReplaced(old(repository.projects), ProjectKey, id, Project(id, details));
        return Memory.NotFound;
      }
      return Memory.ProjectReply(project.value);
    }

    method Delete(id: Uuid) returns (reply: Memory.Reply)
      modifies repository
      ensures (View(), reply) == Memory.RemoveProject(old(View()), id)
    {
      var project := repository.Get(id);
      if project.None? {
        return Memory.NotFound;
      }
      var count := ruleRepository.CountForProject(id);
      if count > 0 {
        return Memory.InUse;
      }
      var _ := repository.Delete(id);
      return Memory.Deleted;
    }
  }

  /** Whole-configuration export and replacement over the three repositories. */
  class InMemoryConfigurationRepository {
    const projectRepository: InMemoryProjectRepository
    const ruleRepository: InMemoryRuleRepository
    const runtimeRepository: InMemoryRuleRuntimeRepository

    constructor (projectRepository: InMemoryProjectRepository, ruleRepository: InMemoryRuleRepository,
                 runtimeRepository: InMemoryRuleRuntimeRepository)
      ensures this.projectRepository == projectRepository && this.ruleRepository == ruleRepository
      ensures this.runtimeRepository == runtimeRepository
    {
      this.projectRepository := projectRepository;
      this.ruleRepository := ruleRepository;
      this.runtimeRepository := runtimeRepository;
    }

    function View(): Memory.Store
      reads projectRepository, ruleRepository, runtimeRepository
    {
      Memory.Store(projectRepository.projects, ruleRepository.rules, runtimeRepository.states, 0)
    }

    method Replace(document: ConfigurationDocument) returns (statesReset: nat)
      modifies projectRepository, ruleRepository, runtimeRepository
      ensures (View(), statesReset) == Memory.Replace(old(View()), document)
    {
      statesReset := runtimeRepository.Clear();
      projectRepository.ReplaceAll(document.projects);
      ruleRepository.ReplaceAll(document.rules);
    }

    /** The service's import: a dry run reports sizes and touches nothing. */
    method ImportDocument(document: ConfigurationDocument, dryRun: bool) returns (reply: Memory.Reply)
      modifies projectRepository, ruleRepository, runtimeRepository
      ensures (View(), reply) == Memory.ImportDocument(old(View()), document, dryRun)
    {
      var statesReset := 0;
      if !dryRun {
        statesReset := Replace(document);
      }
      return Memory.Imported(|document.projects|, |document.rules|, statesReset, dryRun);
    }
  }

  /** Reads, decides and saves under one lock; `draws` is the position of the shared generator. */
  class RuleDecisionEngine {
    const repository: InMemoryRuleRuntimeRepository
    const src: Source
    var draws: nat

    constructor (repository: InMemoryRuleRuntimeRepository, src: Source)
      ensures this.repository == repository && this.src == src && draws == 0
    {
      this.repository := repository;
      this.src := src;
      draws := 0;
    }

    method TakeSample(rule: FailureRule, matched: nat) returns (sample: real)
      modifies this
      ensures rule.data.behavior.seed.Some? ==>
                draws == old(draws) && sample == src.hash(rule.id, rule.data.behavior.seed.value, matched)
      ensures rule.data.behavior.seed.None? ==> draws == old(draws) + 1 && sample == src.stream(old(draws))
    {
      if rule.data.behavior.seed.None? {
        sample := src.stream(draws);
        draws := draws + 1;
      } else {
        sample := src.hash(rule.id, rule.data.behavior.seed.value, matched);
      }
    }

    /** The policies in their fixed order; the first objection ends the loop. */
    method Evaluate(rule: FailureRule, state: RuleRuntimeState) returns (reason: DecisionReason)
      modifies this
      ensures Justified(src, rule, state, old(draws), reason, draws)
    {
      var objection := SkipMatchesPolicy(rule, state);
      if objection.Some? {
        return objection.value;
      }
      objection := CountLimitPolicy(rule, state);
      if objection.Some? {
        return objection.value;
      }
      if rule.data.behavior.probability != 1.0 {
        var sample := TakeSample(rule, state.matched);
        if sample >= rule.data.behavior.probability {
          return ProbabilityMiss;
        }
      }
      return if rule.data.behavior.probability < 1.0 then ProbabilityHit else Always;
    }

    method Decide(rule: FailureRule, now: Instant) returns (decision: RuleDecision)
      modifies this, repository
      ensures (Engine(repository.states, draws), decision)
              == Decision.Decide(src, Engine(old(repository.states), old(draws)), Call(rule, now))
    {
      var current := repository.Get(rule.id);
      var matched := current.(matched := current.matched + 1);
      var reason := Evaluate(rule, matched);
      JustifiedExactly(src, rule, matched, old(draws), reason, draws);
      var simulate := Simulates(reason);
      var state := matched;
      if simulate {
        state := matched.(simulated := matched.simulated + 1, lastTriggered := Some(now));
      }
      repository.Save(state);
      return RuleDecision(simulate, reason, rule.id, state);
    }
  }

  /** How the awaited upstream call ends: a response, or a request error. */
  datatype Upstream = Responded(status: int) | RequestError

  datatype RequestExecutionResult =
    RequestExecutionResult(status: int, outcome: RequestOutcome, reason: DecisionReason, ruleId: Option<Uuid>)

  class RequestExecutor {
    const repository: InMemoryRuleRepository
    const engine: RuleDecisionEngine

    constructor (repository: InMemoryRuleRepository, engine: RuleDecisionEngine)
      ensures this.repository == repository && this.engine == engine
    {
      this.repository := repository;
      this.engine := engine;
    }

    function View(): Memory.Store
      reads repository, engine, engine.repository
    {
      Memory.Store([], repository.rules, engine.repository.states, engine.draws)
    }

    method Match(verb: string, path: string) returns (rule: Option<FailureRule>)
      ensures rule == FindMatchingRule(repository.rules, verb, path)
      ensures var rules, target := repository.rules, RequestMatch(Validation.Upper(verb), path);
              match rule
              case None => forall r <- rules :: !(r.data.enabled && r.data.target == target)
              case Some(found) =>
                exists i :: 0 <= i < |rules| && rules[i] == found && found.data.enabled && found.data.target == target
                            && forall j :: 0 <= j < i ==> !(rules[j].data.enabled && rules[j].data.target == target)
    {
      MatchExactly(repository.rules, verb, path);
      var method_ := Validation.Upper(verb);
      for i := 0 to |repository.rules|
        invariant FindMatchingRule(repository.rules, verb, path) == FindMatchingRule(repository.rules[i..], verb, path)
      {
        var candidate := repository.rules[i];
        assert repository.rules[i..][1..] == repository.rules[i + 1..];
        if candidate.data.enabled && candidate.data.target.verb == method_ && candidate.data.target.path == path {
          return Some(candidate);
        }
      }
      return None;
    }

    /** The counters move exactly as one dispatch moves them; the result describes that dispatch: the simulated
        response, or the upstream one, with 502 for a request error. */
    method Execute(verb: string, path: string, now: Instant, upstream: Upstream)
      returns (result: RequestExecutionResult)
      modifies engine, engine.repository
      ensures var (after, reply) := Memory.Dispatch(engine.src, old(View()), verb, path, now);
              && View() == after
              && result.ruleId == (if reply.match_.Some? then Some(reply.match_.value.ruleId) else None)
              && result.reason == (if reply.match_.Some? then reply.match_.value.reason else NoMatchingRule)
              && (result.outcome == Simulated <==> Simulates(result.reason))
              && (result.outcome == Proxied ==>
                    result.status == if upstream.Responded? then upstream.status else 502)
              && (result.outcome == Simulated ==>
                    var rule := FindMatchingRule(repository.rules, verb, path);
                    rule.Some? && result.status == rule.value.data.response.status)
    {
      var rule := Match(verb, path);
      var ruleId: Option<Uuid>, reason := None, NoMatchingRule;
      if rule.Some? {
        var decision := engine.Decide(rule.value, now);
        if decision.simulate {
          return RequestExecutionResult(rule.value.data.response.status, Simulated, decision.reason,
                                        Some(rule.value.id));
        }
        ruleId, reason := Some(rule.value.id), decision.reason;
      }
      var status := match upstream case Responded(code) => code case RequestError => 502;
      return RequestExecutionResult(status, Proxied, reason, ruleId);
    }
  }

  /** One data-plane request end to end: execute once, then record once, and swallow a failing history store. */
  class DataPlane {
    const executor: RequestExecutor
    const history: History.InMemoryRequestHistoryRepository

    constructor (executor: RequestExecutor, history: History.InMemoryRequestHistoryRepository)
      ensures this.executor == executor && this.history == history
    {
      this.executor := executor;
      this.history := history;
    }

    method Record(data: RequestHistoryCreate, storeFails: bool) returns (entry: Option<RequestHistoryEntry>)
      requires history.Valid()
      modifies history
      ensures history.Valid()
      ensures if storeFails
              then entry.None? && history.entries == old(history.entries) && history.nextId == old(history.nextId)
              else entry == Some(RequestHistoryEntry(old(history.nextId), data))
                   && history.entries == old(history.entries) + [entry.value]
    {
      if storeFails {
        return None;
      }
      var stored := history.Create(data);
      return Some(stored);
    }

    method SimulateOrProxy(verb: string, path: string, now: Instant, upstream: Upstream, durationMs: nat,
                           storeFails: bool) returns (status: int)
      requires history.Valid()
      modifies executor.engine, executor.engine.repository, history
      ensures history.Valid()
      ensures var (after, reply) := Memory.Dispatch(executor.engine.src, old(executor.View()), verb, path, now);
              && executor.View() == after
              && status == (if reply.match_.Some? && reply.match_.value.simulate
                            then FindMatchingRule(executor.repository.rules, verb, path).value.data.response.status
                            else if upstream.Responded? then upstream.status else 502)
              && (if storeFails then history.entries == old(history.entries)
                  else
                    var e := RequestHistoryEntry(
                      old(history.nextId),
                      RequestHistoryCreate(
                        now, Validation.Upper(verb), path,
                        if reply.match_.Some? && reply.match_.value.simulate then Simulated else Proxied,
                        if reply.match_.Some? then reply.match_.value.reason else NoMatchingRule, status,
                        if reply.match_.Some? then Some(reply.match_.value.ruleId) else None, durationMs));
                    history.entries == old(history.entries) + [e])
    {
      var result := executor.Execute(verb, path, now, upstream);
      var _ := Record(
        RequestHistoryCreate(now, Validation.Upper(verb), path, result.outcome, result.reason, result.status,
                             result.ruleId, durationMs),
        storeFails);
      return result.status;
    }
  }
}
