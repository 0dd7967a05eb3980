/** The simulator's configuration and counters as one value, and every service and data-plane operation on it. */
module Store {
  import opened Models
  import opened Keyed
  import opened Validation
  import opened Matcher
  import opened Decision

  datatype Store = Store(
    projects: seq<Project>, rules: seq<FailureRule>, states: map<Uuid, RuleRuntimeState>, draws: nat)

  datatype Op =
    | CreateProject(id: Uuid, details: ProjectCreate)
    | UpdateProject(id: Uuid, details: ProjectCreate)
    | DeleteProject(id: Uuid)
    | CreateRule(id: Uuid, payload: RuleCreate)
    | CreateFromTemplate(id: Uuid, template: Option<FailureTemplate>, form: RuleFromTemplateCreate)
    | UpdateRule(id: Uuid, payload: RuleCreate)
    | SetEnabled(id: Uuid, enabled: bool)
    | DeleteRule(id: Uuid)
    | ResetState(id: Uuid)
    | ListStates
    | Export
    | Import(document: ConfigurationDocument, dryRun: bool)
    | Serve(verb: string, path: string, now: Instant)

  datatype Reply =
    | Rejected          // the payload fails validation
    | UnknownProject    // the rule names a project that does not exist
    | NotFound
    | InUse
    | Deleted
    | ProjectReply(project: Project)
    | RuleReply(rule: FailureRule)
    | StateReply(state: RuleRuntimeState)
    | StatesReply(states: seq<RuleRuntimeState>)
    | Exported(document: ConfigurationDocument)
    | ExportFailed      // the stored configuration is not a valid document
    | Imported(projects: nat, rules: nat, statesReset: nat, dryRun: bool)
    | Served(match_: Option<RuleDecision>)

  // Configuration documents.

  ghost predicate ValidGraph(d: ConfigurationDocument) {
    && Distinct(d.projects, ProjectKey)
    && Distinct(d.rules, RuleKey)
    && forall r <- d.rules :: r.data.projectId.Some? ==> r.data.projectId.value in Ids(d.projects, ProjectKey)
  }

  predicate WithinCap(d: ConfigurationDocument) {
    |d.projects| <= MAX_CONFIGURATION_ITEMS && |d.rules| <= MAX_CONFIGURATION_ITEMS
  }

  /** What an import over HTTP accepts: reserved paths are refused there. */
  ghost predicate AcceptedDocument(d: ConfigurationDocument) {
    && WithinCap(d)
    && (forall p <- d.projects :: ValidProject(p.details))
    && (forall r <- d.rules :: ValidRule(r.data, false))
    && ValidGraph(d)
  }

  function NormalizedRules(rules: seq<FailureRule>): (r: seq<FailureRule>)
    ensures |r| == |rules|
    ensures forall i :: 0 <= i < |rules| ==> r[i] == FailureRule(rules[i].id, NormalizedRule(rules[i].data))
  {
    seq(|rules|, i requires 0 <= i < |rules| => FailureRule(rules[i].id, NormalizedRule(rules[i].data)))
  }

  function NormalizedDocument(d: ConfigurationDocument): ConfigurationDocument {
    d.(rules := NormalizedRules(d.rules))
  }

  // Operations. Payloads reaching a service have been validated and normalized.

  function CountForProject(rules: seq<FailureRule>, id: Uuid): nat {
    if rules == [] then 0
    else (if rules[0].data.projectId == Some(id) then 1 else 0) + CountForProject(rules[1..], id)
  }

  function KnownProject(projects: seq<Project>, id: Option<Uuid>): bool {
    id.None? || Find(projects, ProjectKey, id.value).Some?
  }

  function AddRule(s: Store, id: Uuid, data: RuleCreate): (Store, Reply) {
    if !KnownProject(s.projects, data.projectId) then (s, UnknownProject)
    else (s.(rules := s.rules + [FailureRule(id, data)]), RuleReply(FailureRule(id, data)))
  }

  function ChangeRule(s: Store, id: Uuid, data: RuleCreate): (Store, Reply) {
    if !KnownProject(s.projects, data.projectId) then (s, UnknownProject)
    else if Find(s.rules, RuleKey, id).None? then (s, NotFound)
    else (s.(rules := ReplaceFirst(s.rules, RuleKey, id, FailureRule(id, data))), RuleReply(FailureRule(id, data)))
  }

  function Toggle(s: Store, id: Uuid, enabled: bool): (Store, Reply) {
    match Find(s.rules, RuleKey, id)
    case None => (s, NotFound)
    case Some(current) =>
      var rule := current.(data := current.data.(enabled := enabled));
      (s.(rules := ReplaceFirst(s.rules, RuleKey, id, rule)), RuleReply(rule))
  }

  function RemoveRule(s: Store, id: Uuid): (Store, Reply) {
    if Find(s.rules, RuleKey, id).None? then (s, NotFound)
    else (s.(rules := RemoveFirst(s.rules, RuleKey, id), states := s.states - {id}), Deleted)
  }

  function Reset(s: Store, id: Uuid): (Store, Reply) {
    if Find(s.rules, RuleKey, id).None? then (s, NotFound)
    else (s.(states := s.states - {id}), StateReply(FreshState(id)))
  }

  function AddProject(s: Store, id: Uuid, details: ProjectCreate): (Store, Reply) {
    (s.(projects := s.projects + [Project(id, details)]), ProjectReply(Project(id, details)))
  }

  function ChangeProject(s: Store, id: Uuid, details: ProjectCreate): (Store, Reply) {
    if Find(s.projects, ProjectKey, id).None? then (s, NotFound)
    else (s.(projects := ReplaceFirst(s.projects, ProjectKey, id, Project(id, details))),
          ProjectReply(Project(id, details)))
  }

  function RemoveProject(s: Store, id: Uuid): (Store, Reply) {
    if Find(s.projects, ProjectKey, id).None? then (s, NotFound)
    else if CountForProject(s.rules, id) > 0 then (s, InUse)
    else (s.(projects := RemoveFirst(s.projects, ProjectKey, id)), Deleted)
  }

  function RuleStates(s: Store): (r: seq<RuleRuntimeState>)
    ensures |r| == |s.rules|
    ensures forall i :: 0 <= i < |r| ==> r[i] == Current(s.states, s.rules[i].id)
  {
    seq(|s.rules|, i requires 0 <= i < |s.rules| => Current(s.states, s.rules[i].id))
  }

  function Replace(s: Store, d: ConfigurationDocument): (Store, nat) {
    (s.(projects := d.projects, rules := d.rules, states := map[]), |s.states|)
  }

  function ImportDocument(s: Store, d: ConfigurationDocument, dryRun: bool): (Store, Reply) {
    if dryRun then (s, Imported(|d.projects|, |d.rules|, 0, true))
    else
      var (after, count) := Replace(s, d);
      (after, Imported(|d.projects|, |d.rules|, count, false))
  }

  function Document(s: Store): ConfigurationDocument { ConfigurationDocument(s.projects, s.rules) }

  /** List, match and decide happen without an await in between: one atomic step. */
  function Dispatch(src: Source, s: Store, verb: string, path: string, now: Instant): (Store, Reply) {
    match FindMatchingRule(s.rules, verb, path)
    case None => (s, Served(None))
    case Some(rule) =>
      var (engine, decision) := Decide(src, Engine(s.states, s.draws), Call(rule, now));
      (s.(states := engine.states, draws := engine.draws), Served(Some(decision)))
  }

  function FromTemplate(t: FailureTemplate, form: RuleFromTemplateCreate): RuleCreate {
    RuleCreate(if form.name.Some? then form.name.value else t.name,
               form.enabled, form.projectId, NormalizedTarget(form.target), t.response, form.behavior)
  }

  predicate ValidForm(form: RuleFromTemplateCreate) {
    && (form.name.Some? ==> form.name.value != "")
    && ValidPath(form.target.path, false)
    && ValidBehavior(form.behavior)
  }

  /** One request to the simulator, payload validation included. */
  ghost function Step(src: Source, s: Store, op: Op): (Store, Reply) {
    match op
    case CreateProject(id, details) => if ValidProject(details) then AddProject(s, id, details) else (s, Rejected)
    case UpdateProject(id, details) => if ValidProject(details) then ChangeProject(s, id, details) else (s, Rejected)
    case DeleteProject(id) => RemoveProject(s, id)
    case CreateRule(id, payload) =>
      if ValidRule(payload, false) then AddRule(s, id, NormalizedRule(payload)) else (s, Rejected)
    case CreateFromTemplate(id, template, form) =>
      if !ValidForm(form) then (s, Rejected)
      else if template.None? then (s, NotFound)
      else AddRule(s, id, FromTemplate(template.value, form))
    case UpdateRule(id, payload) =>
      if ValidRule(payload, false) then ChangeRule(s, id, NormalizedRule(payload)) else (s, Rejected)
    case SetEnabled(id, enabled) => Toggle(s, id, enabled)
    case DeleteRule(id) => RemoveRule(s, id)
    case ResetState(id) => Reset(s, id)
    case ListStates => (s, StatesReply(RuleStates(s)))
    case Export =>
      if WithinCap(Document(s)) && ValidGraph(Document(s)) then (s, Exported(Document(s))) else (s, ExportFailed)
    case Import(d, dryRun) =>
      if AcceptedDocument(d) then ImportDocument(s, NormalizedDocument(d), dryRun) else (s, Rejected)
    case Serve(verb, path, now) => Dispatch(src, s, verb, path, now)
  }

  ghost function RunOps(src: Source, s: Store, ops: seq<Op>): (Store, seq<Reply>)
    decreases |ops|
  {
    if ops == [] then (s, [])
    else
      var (next, reply) := Step(src, s, ops[0]);
      var (last, replies) := RunOps(src, next, ops[1..]);
      (last, [reply] + replies)
  }

  /** What the environment guarantees: new UUIDs are unused and catalogue templates are valid responses. */
  ghost predicate Admissible(s: Store, op: Op) {
    match op
    case CreateProject(id, _) => id !in Ids(s.projects, ProjectKey)
    case CreateRule(id, _) => id !in Ids(s.rules, RuleKey)
    case CreateFromTemplate(id, template, _) =>
      id !in Ids(s.rules, RuleKey) &&
      (template.Some? ==> StoredResponse(template.value.response) && template.value.name != "")
    case _ => true
  }

  ghost predicate AdmissibleRun(src: Source, s: Store, ops: seq<Op>)
    decreases |ops|
  {
    ops == [] || (Admissible(s, ops[0]) && AdmissibleRun(src, Step(src, s, ops[0]).0, ops[1..]))
  }
}
