/** Entities of the failure simulator and the values its services exchange. */
module Models {
  /** UUIDs are only compared for equality; freshness is an assumption on the caller of a create. */
  type Uuid = nat
  type Instant = int

  datatype Option<+T> = None | Some(value: T)

  datatype Result<+T, +E> = Success(value: T) | Failure(error: E)

  datatype Header = Header(name: string, value: string)

  datatype Project = Project(id: Uuid, details: ProjectCreate)

  datatype ProjectCreate = ProjectCreate(name: string, description: string)

  datatype RequestMatch = RequestMatch(verb: string, path: string)

  /** What serializing a non-null body as compact JSON gives, if it can be serialized: NaN, say, cannot. */
  datatype Body = Json(text: string) | Unserializable

  datatype SimulatedResponse = SimulatedResponse(status: int, headers: seq<Header>, body: Option<Body>, delayMs: int)

  datatype RuleBehavior =
    RuleBehavior(probability: real, skipMatches: int, maxSimulations: Option<int>, seed: Option<int>)

  /** What a client supplies for a rule; a FailureRule adds the identity. */
  datatype RuleCreate = RuleCreate(
    name: string, enabled: bool, projectId: Option<Uuid>,
    target: RequestMatch, response: SimulatedResponse, behavior: RuleBehavior)

  datatype FailureRule = FailureRule(id: Uuid, data: RuleCreate)

  datatype FailureTemplate = FailureTemplate(name: string, response: SimulatedResponse)

  datatype RuleFromTemplateCreate = RuleFromTemplateCreate(
    name: Option<string>, enabled: bool, projectId: Option<Uuid>, target: RequestMatch, behavior: RuleBehavior)

  datatype RuleRuntimeState =
    RuleRuntimeState(ruleId: Uuid, matched: nat, simulated: nat, lastTriggered: Option<Instant>)

  datatype DecisionReason = Always | ProbabilityHit | ProbabilityMiss | SkipMatch | CountExhausted | NoMatchingRule

  datatype RequestOutcome = Simulated | Proxied

  datatype RequestHistoryCreate = RequestHistoryCreate(
    timestamp: Instant, verb: string, path: string, outcome: RequestOutcome, reason: DecisionReason,
    status: int, ruleId: Option<Uuid>, durationMs: nat)

  datatype RequestHistoryEntry = RequestHistoryEntry(id: nat, data: RequestHistoryCreate)

  datatype ConfigurationDocument = ConfigurationDocument(projects: seq<Project>, rules: seq<FailureRule>)

  const MAX_CONFIGURATION_ITEMS := 10_000

  function ProjectKey(p: Project): Uuid { p.id }

  function RuleKey(r: FailureRule): Uuid { r.id }

  /** The default of a rule that has no stored counters. */
  function FreshState(id: Uuid): RuleRuntimeState { RuleRuntimeState(id, 0, 0, None) }

  predicate Simulates(reason: DecisionReason) { reason in {Always, ProbabilityHit} }
}
