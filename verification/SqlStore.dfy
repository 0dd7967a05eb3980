/** The services over SQLite, statement by statement, and the proof that they simulate the in-memory store. */
module SqlStore {
  import opened Models
  import opened Keyed
  import opened Validation
  import opened Matcher
  import opened Decision
  import opened Store
  import Memory = Store
  import opened Integrity
  import opened Sql

  /** The database file and the process-local generator position. */
  datatype State = State(tables: Tables, draws: nat)

  datatype Answer = Answer(state: State, reply: Reply)

  // Reading the tables back as a configuration.

  function Projects(t: Tables): seq<Project> { Listed(t.projects, t.nextProject) }

  function Rules(t: Tables): seq<FailureRule> { Listed(t.rules, t.nextRule) }

  function States(t: Tables): map<Uuid, RuleRuntimeState> { map id | id in t.runtime :: RuntimeOf(t, id) }

  function Abs(s: State): Store { Store(Projects(s.tables), Rules(s.tables), States(s.tables), s.draws) }

  // The services, written with the SQLite repositories.

  ghost function AddRule(s: State, id: Uuid, data: RuleCreate): Result<Answer, SqlError> {
    if data.projectId.Some? && PayloadOf(s.tables.projects, data.projectId.value).None?
    then Success(Answer(s, UnknownProject))
    else match InsertRule(s.tables, FailureRule(id, data))
         case Failure(e) => Failure(e)
         case Success(t) => Success(Answer(s.(tables := t), RuleReply(FailureRule(id, data))))
  }

  ghost function ChangeRule(s: State, id: Uuid, data: RuleCreate): Result<Answer, SqlError> {
    if data.projectId.Some? && PayloadOf(s.tables.projects, data.projectId.value).None?
    then Success(Answer(s, UnknownProject))
    else match Sql.UpdateRule(s.tables, FailureRule(id, data))
         case Failure(e) => Failure(e)
         case Success(t) =>
           var changed := HasId(s.tables.rules, id);
           Success(Answer(s.(tables := t), if changed then RuleReply(FailureRule(id, data)) else NotFound))
  }

  ghost function Toggle(s: State, id: Uuid, enabled: bool): Answer {
    match PayloadOf(s.tables.rules, id)
    case None => Answer(s, NotFound)
    case Some(current) =>
      var rule := current.(data := current.data.(enabled := enabled));
      Answer(s.(tables := UpdateRulePayload(s.tables, rule)), RuleReply(rule))
  }

  /** The cascade removes the counters; the service's own delete of them then finds nothing. */
  function RemoveRule(s: State, id: Uuid): Answer {
    var t := Sql.DeleteRule(s.tables, id);
    if HasId(s.tables.rules, id) then Answer(s.(tables := DeleteRuntime(t, id)), Deleted)
    else Answer(s.(tables := t), NotFound)
  }

  ghost function Reset(s: State, id: Uuid): Answer {
    if PayloadOf(s.tables.rules, id).None? then Answer(s, NotFound)
    else Answer(s.(tables := DeleteRuntime(s.tables, id)), StateReply(FreshState(id)))
  }

  function AddProject(s: State, id: Uuid, details: ProjectCreate): Result<Answer, SqlError> {
    match InsertProject(s.tables, Project(id, details))
    case Failure(e) => Failure(e)
    case Success(t) => Success(Answer(s.(tables := t), ProjectReply(Project(id, details))))
  }

  function ChangeProject(s: State, id: Uuid, details: ProjectCreate): Answer {
    var changed := HasId(s.tables.projects, id);
    Answer(s.(tables := Sql.UpdateProject(s.tables, Project(id, details))),
           if changed then ProjectReply(Project(id, details)) else NotFound)
  }

  ghost function RemoveProject(s: State, id: Uuid): Result<Answer, SqlError> {
    if PayloadOf(s.tables.projects, id).None? then Success(Answer(s, NotFound))
    else if CountRef(s.tables.rules, s.tables.nextRule, id) > 0 then Success(Answer(s, InUse))
    else match Sql.DeleteProject(s.tables, id)
         case Failure(e) => Failure(e)
         case Success(t) => Success(Answer(s.(tables := t), Deleted))
  }

  /** DELETE rules, DELETE projects, INSERT projects, INSERT rules, in one transaction. */
  function Replace(t: Tables, d: ConfigurationDocument): Result<Tables, SqlError> {
    match DeleteAllProjects(DeleteAllRules(t))
    case Failure(e) => Failure(e)
    case Success(empty) =>
      match InsertProjects(empty, d.projects)
      case Failure(e) => Failure(e)
      case Success(withProjects) => InsertRules(withProjects, d.rules)
  }

  function ImportDocument(s: State, d: ConfigurationDocument, dryRun: bool): Result<Answer, SqlError> {
    if dryRun then Success(Answer(s, Imported(|d.projects|, |d.rules|, 0, true)))
    else match Replace(s.tables, d)
         case Failure(e) => Failure(e)
         case Success(t) =>
           Success(Answer(s.(tables := t), Imported(|d.projects|, |d.rules|, |s.tables.runtime|, false)))
  }

  function Dispatch(src: Source, s: State, verb: string, path: string, now: Instant): Result<Answer, SqlError> {
    match FindMatchingRule(Rules(s.tables), verb, path)
    case None => Success(Answer(s, Served(None)))
    case Some(rule) =>
      var current := map[rule.id := RuntimeOf(s.tables, rule.id)];
      var (engine, decision) := Decide(src, Engine(current, s.draws), Call(rule, now));
      match UpsertRuntime(s.tables, decision.state)
      case Failure(e) => Failure(e)
      case Success(t) => Success(Answer(State(t, engine.draws), Served(Some(decision))))
  }

  ghost function SqlStep(src: Source, s: State, op: Op): Result<Answer, SqlError> {
    match op
    case CreateProject(id, details) =>
      if ValidProject(details) then AddProject(s, id, details) else Success(Answer(s, Rejected))
    case UpdateProject(id, details) =>
      Success(if ValidProject(details) then ChangeProject(s, id, details) else Answer(s, Rejected))
    case DeleteProject(id) => RemoveProject(s, id)
    case CreateRule(id, payload) =>
      if ValidRule(payload, false) then AddRule(s, id, NormalizedRule(payload)) else Success(Answer(s, Rejected))
    case CreateFromTemplate(id, template, form) =>
      if !ValidForm(form) then Success(Answer(s, Rejected))
      else if template.None? then Success(Answer(s, NotFound))
      else AddRule(s, id, FromTemplate(template.value, form))
    case UpdateRule(id, payload) =>
      if ValidRule(payload, false) then ChangeRule(s, id, NormalizedRule(payload)) else Success(Answer(s, Rejected))
    case SetEnabled(id, enabled) => Success(Toggle(s, id, enabled))
    case DeleteRule(id) => Success(RemoveRule(s, id))
    case ResetState(id) => Success(Reset(s, id))
    case ListStates =>
      var rules := Rules(s.tables);
      Success(Answer(s, StatesReply(seq(|rules|, i requires 0 <= i < |rules| => RuntimeOf(s.tables, rules[i].id)))))
    case Export =>
      var d := ConfigurationDocument(Projects(s.tables), Rules(s.tables));
      Success(Answer(s, if WithinCap(d) && ValidGraph(d) then Exported(d) else ExportFailed))
    case Import(d, dryRun) =>
      if AcceptedDocument(d) then ImportDocument(s, NormalizedDocument(d), dryRun) else Success(Answer(s, Rejected))
    case Serve(verb, path, now) => Dispatch(src, s, verb, path, now)
  }

  /** The SQLite answer `r` is the in-memory answer `m`, and the tables stay aligned. */
  ghost predicate Agrees(r: Result<Answer, SqlError>, m: (Store, Reply)) {
    && r.Success?
    && Valid(r.value.state.tables)
    && Abs(r.value.state) == m.0
    && r.value.reply == m.1
  }

  // One lemma per operation.

  lemma SameProjects(t: Tables, id: Uuid)
    requires Valid(t)
    ensures PayloadOf(t.projects, id) == Find(Projects(t), ProjectKey, id)
    ensures HasId(t.projects, id) <==> Find(Projects(t), ProjectKey, id).Some?
    ensures HasId(t.projects, id) <==> id in Ids(Projects(t), ProjectKey)
  {
    PayloadListed(t.projects, t.nextProject, ProjectKey, id);
    HasIdListed(t.projects, t.nextProject, ProjectKey, id);
  }

  lemma SameRules(t: Tables, id: Uuid)
    requires Valid(t)
    ensures PayloadOf(t.rules, id) == Find(Rules(t), RuleKey, id)
    ensures HasId(t.rules, id) <==> Find(Rules(t), RuleKey, id).Some?
    ensures HasId(t.rules, id) <==> id in Ids(Rules(t), RuleKey)
  {
    PayloadListed(t.rules, t.nextRule, RuleKey, id);
    HasIdListed(t.rules, t.nextRule, RuleKey, id);
  }

  lemma InsertsProject(t: Tables, p: Project)
    requires Valid(t) && p.id !in Ids(Projects(t), ProjectKey)
    ensures var r := InsertProject(t, p);
            && r.Success? && Valid(r.value)
            && Projects(r.value) == Projects(t) + [p] && Rules(r.value) == Rules(t) && r.value.runtime == t.runtime
  {
    SameProjects(t, p.id);
    ListedInsert(t.projects, t.nextProject, Row(p.id, None, p));
  }

  lemma InsertsRule(t: Tables, r: FailureRule)
    requires Valid(t) && r.id !in Ids(Rules(t), RuleKey)
    requires r.data.projectId.Some? ==> r.data.projectId.value in Ids(Projects(t), ProjectKey)
    ensures var a := InsertRule(t, r);
            && a.Success? && Valid(a.value)
            && Rules(a.value) == Rules(t) + [r] && Projects(a.value) == Projects(t) && a.value.runtime == t.runtime
  {
    SameRules(t, r.id);
    if r.data.projectId.Some? {
      SameProjects(t, r.data.projectId.value);
    }
    ListedInsert(t.rules, t.nextRule, Row(r.id, r.data.projectId, r));
  }

  lemma AddRuleSimulates(s: State, id: Uuid, data: RuleCreate)
    requires Valid(s.tables) && id !in Ids(Rules(s.tables), RuleKey)
    ensures Agrees(AddRule(s, id, data), Memory.AddRule(Abs(s), id, data))
  {
    if data.projectId.Some? {
      SameProjects(s.tables, data.projectId.value);
    }
    if KnownProject(Projects(s.tables), data.projectId) {
      InsertsRule(s.tables, FailureRule(id, data));
    }
  }

  /** Both forms of UPDATE on a rule are the index assignment of the list. */
  lemma UpdatesRule(t: Tables, after: Tables, r: FailureRule)
    requires Valid(t) && after.rules.Keys == t.rules.Keys && after == t.(rules := after.rules)
    requires forall k <- t.rules ::
               after.rules[k] == if t.rules[k].id == r.id then Row(r.id, r.data.projectId, r) else t.rules[k]
    ensures Valid(after) && Rules(after) == ReplaceFirst(Rules(t), RuleKey, r.id, r)
    ensures Projects(after) == Projects(t) && States(after) == States(t)
  {
    ListedUpdate(t.rules, after.rules, t.nextRule, RuleKey, r.id, r, t.nextRule);
  }

  lemma ChangeRuleSimulates(s: State, id: Uuid, data: RuleCreate)
    requires Valid(s.tables)
    ensures Agrees(ChangeRule(s, id, data), Memory.ChangeRule(Abs(s), id, data))
  {
    var t, rule := s.tables, FailureRule(id, data);
    if data.projectId.Some? {
      SameProjects(t, data.projectId.value);
    }
    SameRules(t, id);
    UpdatesRule(t, t.(rules := UpdateWhere(t.rules, id, Row(id, data.projectId, rule))), rule);
    if !HasId(t.rules, id) {
      NothingReplaced(Rules(t), RuleKey, id, rule);
    }
  }

  lemma ToggleSimulates(s: State, id: Uuid, enabled: bool)
    requires Valid(s.tables)
    ensures Agrees(Success(Toggle(s, id, enabled)), Memory.Toggle(Abs(s), id, enabled))
  {
    var t := s.tables;
    SameRules(t, id);
    FindSpec(Rules(t), RuleKey, id);
    if HasId(t.rules, id) {
      var k :| k in t.rules && t.rules[k].id == id && PayloadOf(t.rules, id) == Some(t.rules[k].payload);
      var current := t.rules[k].payload;
      var rule := current.(data := current.data.(enabled := enabled));
      UpdatesRule(t, UpdateRulePayload(t, rule), rule);
    }
  }

  lemma RemoveRuleSimulates(s: State, id: Uuid)
    requires Valid(s.tables)
    ensures Agrees(Success(RemoveRule(s, id)), Memory.RemoveRule(Abs(s), id))
  {
    var t := s.tables;
    SameRules(t, id);
    ListedDelete(t.rules, t.nextRule, RuleKey, id, t.nextRule);
    if HasId(t.rules, id) {
      assert States(RemoveRule(s, id).state.tables) == States(t) - {id};
    } else {
      assert DeleteWhere(t.rules, id) == t.rules;
    }
  }

  lemma ResetSimulates(s: State, id: Uuid)
    requires Valid(s.tables)
    ensures Agrees(Success(Reset(s, id)), Memory.Reset(Abs(s), id))
  {
    SameRules(s.tables, id);
    assert States(DeleteRuntime(s.tables, id)) == States(s.tables) - {id};
  }

  lemma ChangeProjectSimulates(s: State, id: Uuid, details: ProjectCreate)
    requires Valid(s.tables)
    ensures Agrees(Success(ChangeProject(s, id, details)), Memory.ChangeProject(Abs(s), id, details))
  {
    var t, p := s.tables, Project(id, details);
    SameProjects(t, id);
    ListedUpdate(t.projects, UpdateWhere(t.projects, id, Row(id, None, p)), t.nextProject, ProjectKey, id, p,
                 t.nextProject);
    if !HasId(t.projects, id) {
      FirstAbsent(Projects(t), ProjectKey, id, p);
    }
  }

  lemma {:induction false} CountAppend(rules: seq<FailureRule>, r: FailureRule, id: Uuid)
    ensures CountForProject(rules + [r], id) ==
            CountForProject(rules, id) + (if r.data.projectId == Some(id) then 1 else 0)
    decreases rules
  {
    if rules != [] {
      assert (rules + [r])[1..] == rules[1..] + [r];
      CountAppend(rules[1..], r, id);
    }
  }

  /** Counting the project_id column is counting the payloads' project ids. */
  lemma {:induction false} CountListed(t: Tables, bound: nat, id: Uuid)
    requires Valid(t)
    ensures CountRef(t.rules, bound, id) == CountForProject(Listed(t.rules, bound), id)
    ensures CountRef(t.rules, bound, id) == 0 <==>
            forall k :: 0 <= k < bound && k in t.rules ==> t.rules[k].ref != Some(id)
    decreases bound
  {
    if bound > 0 {
      CountListed(t, bound - 1, id);
      if bound - 1 in t.rules {
        CountAppend(Listed(t.rules, bound - 1), t.rules[bound - 1].payload, id);
      }
    }
  }

  lemma RemoveProjectSimulates(s: State, id: Uuid)
    requires Valid(s.tables)
    ensures Agrees(RemoveProject(s, id), Memory.RemoveProject(Abs(s), id))
  {
    var t := s.tables;
    SameProjects(t, id);
    CountListed(t, t.nextRule, id);
    ListedDelete(t.projects, t.nextProject, ProjectKey, id, t.nextProject);
  }

  // Whole-configuration replacement.

  lemma Emptied(t: Tables)
    requires Valid(t) && forall id <- t.runtime :: HasId(t.rules, id)
    ensures var r := DeleteAllProjects(DeleteAllRules(t));
            && r.Success? && Valid(r.value) && r.value.runtime == map[]
            && Projects(r.value) == [] && Rules(r.value) == []
  {
    ListedEmpty<Project>(t.nextProject);
    ListedEmpty<FailureRule>(t.nextRule);
  }

  lemma {:induction false} ProjectsInserted(t: Tables, ps: seq<Project>)
    requires Valid(t) && Distinct(Projects(t) + ps, ProjectKey)
    ensures var r := InsertProjects(t, ps);
            && r.Success? && Valid(r.value)
            && Projects(r.value) == Projects(t) + ps && Rules(r.value) == Rules(t) && r.value.runtime == t.runtime
    decreases ps
  {
    if ps != [] {
      var before := Projects(t);
      forall i | 0 <= i < |before| ensures Ids(before, ProjectKey)[i] != ps[0].id {
        assert (before + ps)[i] == before[i] && (before + ps)[|before|] == ps[0];
        assert ProjectKey((before + ps)[i]) != ProjectKey((before + ps)[|before|]);
      }
      InsertsProject(t, ps[0]);
      assert (before + [ps[0]]) + ps[1..] == before + ps;
      ProjectsInserted(InsertProject(t, ps[0]).value, ps[1..]);
    }
  }

  lemma {:induction false} RulesInserted(t: Tables, rs: seq<FailureRule>)
    requires Valid(t) && Distinct(Rules(t) + rs, RuleKey) && ReferencesExist(rs, Projects(t))
    ensures var r := InsertRules(t, rs);
            && r.Success? && Valid(r.value)
            && Rules(r.value) == Rules(t) + rs && Projects(r.value) == Projects(t) && r.value.runtime == t.runtime
    decreases rs
  {
    if rs != [] {
      var before := Rules(t);
      forall i | 0 <= i < |before| ensures Ids(before, RuleKey)[i] != rs[0].id {
        assert (before + rs)[i] == before[i] && (before + rs)[|before|] == rs[0];
        assert RuleKey((before + rs)[i]) != RuleKey((before + rs)[|before|]);
      }
      InsertsRule(t, rs[0]);
      assert (before + [rs[0]]) + rs[1..] == before + rs;
      RulesInserted(InsertRule(t, rs[0]).value, rs[1..]);
    }
  }

  /** Import totality: for a valid document every statement meets every UNIQUE, RESTRICT and foreign-key constraint
      when it runs, and the commit leaves exactly the document and no counters. */
  lemma ReplaceLegal(t: Tables, d: ConfigurationDocument)
    requires Valid(t) && ValidGraph(d) && forall id <- t.runtime :: HasId(t.rules, id)
    ensures var r := Replace(t, d);
            && r.Success? && Valid(r.value)
            && Projects(r.value) == d.projects && Rules(r.value) == d.rules && r.value.runtime == map[]
  {
    Emptied(t);
    var empty := DeleteAllProjects(DeleteAllRules(t)).value;
    assert [] + d.projects == d.projects && [] + d.rules == d.rules;
    ProjectsInserted(empty, d.projects);
    RulesInserted(InsertProjects(empty, d.projects).value, d.rules);
  }

  /** Rules have to go first: deleting the projects first is refused exactly when some rule belongs to one. */
  lemma ProjectsCannotGoFirst(t: Tables)
    requires Valid(t) && ReferencesExist(Rules(t), Projects(t))
    ensures DeleteAllProjects(t) == Failure(ForeignKeyViolation) <==>
            exists k <- t.rules :: t.rules[k].payload.data.projectId.Some?
  {
    if k :| k in t.rules && t.rules[k].payload.data.projectId.Some? {
      var id := t.rules[k].payload.data.projectId.value;
      SameRules(t, t.rules[k].id);
      ListedFind(t.rules, t.nextRule, RuleKey, k, t.nextRule);
      FindSpec(Rules(t), RuleKey, t.rules[k].id);
      SameProjects(t, id);
      var l :| l in t.projects && t.projects[l].id == id;
      assert Referenced(t, t.projects[l].id);
    }
  }

  lemma CountersHaveRules(s: State)
    requires Valid(s.tables) && Intact(Abs(s))
    ensures forall id <- s.tables.runtime :: HasId(s.tables.rules, id)
  {
    forall id | id in s.tables.runtime ensures HasId(s.tables.rules, id) {
      assert id in Abs(s).states;
      SameRules(s.tables, id);
    }
  }

  lemma ImportSimulates(s: State, d: ConfigurationDocument, dryRun: bool)
    requires Valid(s.tables) && Intact(Abs(s)) && ValidGraph(d)
    ensures Agrees(ImportDocument(s, d, dryRun), Memory.ImportDocument(Abs(s), d, dryRun))
  {
    CountersHaveRules(s);
    ReplaceLegal(s.tables, d);
    assert States(s.tables).Keys == s.tables.runtime.Keys;
    assert |States(s.tables)| == |States(s.tables).Keys| && |s.tables.runtime| == |s.tables.runtime.Keys|;
  }

  lemma DispatchSimulates(src: Source, s: State, verb: string, path: string, now: Instant)
    requires Valid(s.tables) && Intact(Abs(s))
    ensures Agrees(Dispatch(src, s, verb, path, now), Memory.Dispatch(src, Abs(s), verb, path, now))
  {
    FindsFirst(Rules(s.tables), verb, path);
    var found := FindMatchingRule(Rules(s.tables), verb, path);
    if found.Some? {
      InIds(Rules(s.tables), RuleKey, found.value);
      SameRules(s.tables, found.value.id);
      DecideSimulates(src, s, Call(found.value, now));
    }
  }

  lemma DecideSimulates(src: Source, s: State, c: Call)
    requires HasId(s.tables.rules, c.rule.id)
    ensures var (engine, decision) := Decide(src, Engine(States(s.tables), s.draws), c);
            var current := map[c.rule.id := RuntimeOf(s.tables, c.rule.id)];
            var (engine', decision') := Decide(src, Engine(current, s.draws), c);
            var t := UpsertRuntime(s.tables, decision.state);
            && decision' == decision && engine'.draws == engine.draws
            && t.Success? && States(t.value) == engine.states
  {
    var (engine, decision) := Decide(src, Engine(States(s.tables), s.draws), c);
    var t := UpsertRuntime(s.tables, decision.state);
    assert States(t.value) == engine.states;
  }

  lemma ListStatesSimulates(src: Source, s: State)
    requires Valid(s.tables)
    ensures Agrees(SqlStep(src, s, ListStates), Step(src, Abs(s), ListStates))
  {
    var rules := Rules(s.tables);
    forall id ensures RuntimeOf(s.tables, id) == Current(States(s.tables), id) {
    }
    assert RuleStates(Abs(s)) == seq(|rules|, i requires 0 <= i < |rules| => RuntimeOf(s.tables, rules[i].id));
  }

  lemma AddProjectSimulates(s: State, id: Uuid, details: ProjectCreate)
    requires Valid(s.tables) && id !in Ids(Projects(s.tables), ProjectKey)
    ensures Agrees(AddProject(s, id, details), Memory.AddProject(Abs(s), id, details))
  {
    InsertsProject(s.tables, Project(id, details));
  }

  lemma ProjectStepSimulates(src: Source, s: State, op: Op)
    requires Valid(s.tables) && Intact(Abs(s)) && Admissible(Abs(s), op)
    requires op.CreateProject? || op.UpdateProject? || op.DeleteProject?
    ensures Agrees(SqlStep(src, s, op), Step(src, Abs(s), op))
  {
    hide AddProject, ChangeProject, RemoveProject;
    hide Memory.AddProject, Memory.ChangeProject, Memory.RemoveProject;
    match op
    case CreateProject(id, details) => AddProjectSimulates(s, id, details);
    case UpdateProject(id, details) => ChangeProjectSimulates(s, id, details);
    case DeleteProject(id) => RemoveProjectSimulates(s, id);
  }

  lemma RuleStepSimulates(src: Source, s: State, op: Op)
    requires Valid(s.tables) && Intact(Abs(s)) && Admissible(Abs(s), op)
    requires op.CreateRule? || op.CreateFromTemplate? || op.UpdateRule? || op.SetEnabled? || op.DeleteRule? ||
             op.ResetState?
    ensures Agrees(SqlStep(src, s, op), Step(src, Abs(s), op))
  {
    hide AddRule, ChangeRule, Toggle, RemoveRule, Reset;
    hide Memory.AddRule, Memory.ChangeRule, Memory.Toggle, Memory.RemoveRule, Memory.Reset;
    match op
    case CreateRule(id, payload) => AddRuleSimulates(s, id, NormalizedRule(payload));
    case CreateFromTemplate(id, template, form) =>
      if template.Some? {
        AddRuleSimulates(s, id, FromTemplate(template.value, form));
      }
    case UpdateRule(id, payload) => ChangeRuleSimulates(s, id, NormalizedRule(payload));
    case SetEnabled(id, enabled) => ToggleSimulates(s, id, enabled);
    case DeleteRule(id) => RemoveRuleSimulates(s, id);
    case ResetState(id) => ResetSimulates(s, id);
  }

  lemma ImportStepSimulates(src: Source, s: State, d: ConfigurationDocument, dryRun: bool)
    requires Valid(s.tables) && Intact(Abs(s))
    ensures Agrees(SqlStep(src, s, Import(d, dryRun)), Step(src, Abs(s), Import(d, dryRun)))
  {
    hide ImportDocument, Memory.ImportDocument;
    if AcceptedDocument(d) {
      NormalizedDocumentIntact(d);
      ImportSimulates(s, NormalizedDocument(d), dryRun);
    }
  }

  /** Every operation gives the same reply and the same configuration on both stores, and no constraint fires. */
  lemma StepSimulates(src: Source, s: State, op: Op)
    requires Valid(s.tables) && Intact(Abs(s)) && Admissible(Abs(s), op)
    ensures Agrees(SqlStep(src, s, op), Step(src, Abs(s), op))
  {
    hide SqlStep, Step;
    match op
    case ListStates => ListStatesSimulates(src, s);
    case Export => ExportSimulates(src, s);
    case Import(d, dryRun) => ImportStepSimulates(src, s, d, dryRun);
    case Serve(verb, path, now) => ServeSimulates(src, s, verb, path, now);
    case CreateProject(_, _) => ProjectStepSimulates(src, s, op);
    case UpdateProject(_, _) => ProjectStepSimulates(src, s, op);
    case DeleteProject(_) => ProjectStepSimulates(src, s, op);
    case _ => RuleStepSimulates(src, s, op);
  }

  lemma ServeSimulates(src: Source, s: State, verb: string, path: string, now: Instant)
    requires Valid(s.tables) && Intact(Abs(s))
    ensures Agrees(SqlStep(src, s, Serve(verb, path, now)), Step(src, Abs(s), Serve(verb, path, now)))
  {
    hide Dispatch, Memory.Dispatch;
    DispatchSimulates(src, s, verb, path, now);
  }

  lemma ExportSimulates(src: Source, s: State)
    requires Valid(s.tables)
    ensures Agrees(SqlStep(src, s, Export), Step(src, Abs(s), Export))
  {
  }

  // Runs in which storage may fail.

  /** Where in a request storage fails: at one of its reads, at its write or the commit of it, or, for the one request
      with a second write transaction, there. */
  datatype Fault = Reading | Writing | Following

  datatype Request = Request(op: Op, fault: Option<Fault>)

  /** What a failed request leaves behind. Its open transaction is rolled back, but a decision has taken its draw before
      the counters are saved, and the deletion of a rule commits before the service deletes its counters. */
  function Interrupted(src: Source, s: State, request: Request): State
    requires request.fault.Some?
  {
    match (request.op, request.fault.value)
    case (Serve(verb, path, now), Writing) =>
      (match FindMatchingRule(Rules(s.tables), verb, path)
       case None => s
       case Some(rule) =>
         var current := map[rule.id := RuntimeOf(s.tables, rule.id)];
         s.(draws := Decide(src, Engine(current, s.draws), Call(rule, now)).0.draws))
    case (DeleteRule(id), Following) => s.(tables := Sql.DeleteRule(s.tables, id))
    case _ => s
  }

  /** The same on the configuration as a value: nothing happens, except that a draw may be used up, or that the deletion
      of a rule is complete all the same. */
  ghost function Survives(src: Source, m: Store, request: Request): Store
    requires request.fault.Some?
  {
    match (request.op, request.fault.value)
    case (Serve(_, _, _), Writing) => m.(draws := Step(src, m, request.op).0.draws)
    case (DeleteRule(_), Following) => Step(src, m, request.op).0
    case _ => m
  }

  ghost function RunSql(src: Source, s: State, requests: seq<Request>): (State, seq<Result<Reply, SqlError>>)
    decreases |requests|
  {
    if requests == [] then (s, [])
    else
      var (next, reply) := AnswerSql(src, s, requests[0]);
      var (last, replies) := RunSql(src, next, requests[1..]);
      (last, [reply] + replies)
  }

  /** A storage failure and a refused constraint both surface as an error. */
  ghost function AnswerSql(src: Source, s: State, request: Request): (State, Result<Reply, SqlError>) {
    if request.fault.Some? then (Interrupted(src, s, request), Failure(StorageFailure))
    else match SqlStep(src, s, request.op)
         case Failure(e) => (s, Failure(e))
         case Success(a) => (a.state, Success(a.reply))
  }

  ghost function AnswerMemory(src: Source, m: Store, request: Request): (Store, Result<Reply, SqlError>) {
    if request.fault.Some? then (Survives(src, m, request), Failure(StorageFailure))
    else
      var (next, reply) := Step(src, m, request.op);
      (next, Success(reply))
  }

  ghost function RunMemory(src: Source, m: Store, requests: seq<Request>): (Store, seq<Result<Reply, SqlError>>)
    decreases |requests|
  {
    if requests == [] then (m, [])
    else
      var (next, reply) := AnswerMemory(src, m, requests[0]);
      var (last, replies) := RunMemory(src, next, requests[1..]);
      (last, [reply] + replies)
  }

  ghost predicate AdmissibleRequests(src: Source, m: Store, requests: seq<Request>)
    decreases |requests|
  {
    requests != [] ==>
      && Admissible(m, requests[0].op)
      && AdmissibleRequests(src, AnswerMemory(src, m, requests[0]).0, requests[1..])
  }

  lemma DrawSimulates(src: Source, s: State, verb: string, path: string, now: Instant)
    requires Valid(s.tables) && Intact(Abs(s))
    ensures var request := Request(Serve(verb, path, now), Some(Writing));
            Interrupted(src, s, request) == s.(draws := Survives(src, Abs(s), request).draws)
  {
    hide Decide, Intact, Valid, Abs, States, Rules;
    MatchIsStored(s, verb, path);
    var found := FindMatchingRule(Rules(s.tables), verb, path);
    ServeMoves(src, Abs(s), verb, path, now);
    AbsParts(s);
    if found.Some? {
      DecideSimulates(src, s, Call(found.value, now));
    }
  }

  lemma AbsParts(s: State)
    ensures Abs(s).rules == Rules(s.tables) && Abs(s).states == States(s.tables) && Abs(s).draws == s.draws
  {
  }

  lemma MatchIsStored(s: State, verb: string, path: string)
    requires Valid(s.tables)
    ensures var found := FindMatchingRule(Rules(s.tables), verb, path);
            found.Some? ==> HasId(s.tables.rules, found.value.id)
  {
    FindsFirst(Rules(s.tables), verb, path);
    var found := FindMatchingRule(Rules(s.tables), verb, path);
    if found.Some? {
      InIds(Rules(s.tables), RuleKey, found.value);
      SameRules(s.tables, found.value.id);
    }
  }

  lemma ServeMoves(src: Source, m: Store, verb: string, path: string, now: Instant)
    ensures Step(src, m, Serve(verb, path, now)).0.draws ==
            match FindMatchingRule(m.rules, verb, path)
            case None => m.draws
            case Some(rule) => Decide(src, Engine(m.states, m.draws), Call(rule, now)).0.draws
  {
  }

  lemma CascadeSimulates(src: Source, s: State, id: Uuid)
    requires Valid(s.tables) && Intact(Abs(s))
    ensures var request := Request(DeleteRule(id), Some(Following));
            var left := Interrupted(src, s, request);
            Valid(left.tables) && Abs(left) == Survives(src, Abs(s), request)
  {
    RemoveRuleSimulates(s, id);
    CountersHaveRules(s);
    var t := Sql.DeleteRule(s.tables, id);
    assert id !in t.runtime;
    assert DeleteRuntime(t, id) == t;
  }

  /** After a storage failure the tables are aligned and stand for what the failed request leaves behind. */
  lemma InterruptionSimulates(src: Source, s: State, request: Request)
    requires Valid(s.tables) && Intact(Abs(s)) && Admissible(Abs(s), request.op) && request.fault.Some?
    ensures var left := Interrupted(src, s, request);
            && Valid(left.tables) && Abs(left) == Survives(src, Abs(s), request) && Intact(Abs(left))
  {
    hide Step, Intact, Decide;
    match (request.op, request.fault.value)
    case (Serve(verb, path, now), Writing) =>
      DrawSimulates(src, s, verb, path, now);
      DrawKeepsIntact(Abs(s), Survives(src, Abs(s), request).draws);
    case (DeleteRule(id), Following) =>
      CascadeSimulates(src, s, id);
      StepKeepsIntact(src, Abs(s), request.op);
    case _ =>
  }

  lemma DrawKeepsIntact(m: Store, draws: nat)
    requires Intact(m)
    ensures Intact(m.(draws := draws))
  {
  }

  lemma AnswersAgree(src: Source, s: State, request: Request)
    requires Valid(s.tables) && Intact(Abs(s)) && Admissible(Abs(s), request.op)
    ensures var (next, reply) := AnswerSql(src, s, request);
            var (next', reply') := AnswerMemory(src, Abs(s), request);
            && Valid(next.tables) && Abs(next) == next' && Intact(next') && reply == reply'
  {
    hide SqlStep, Step, Intact, Interrupted, Survives;
    if request.fault.Some? {
      InterruptionSimulates(src, s, request);
    } else {
      StepSimulates(src, s, request.op);
      StepKeepsIntact(src, Abs(s), request.op);
    }
  }

  /** Store refinement over whole runs, with a storage failure allowed in any request at any of its statements: the
      SQLite store gives the same replies, never a constraint error, and the same ordered projects, ordered rules,
      counters and generator position as the in-memory store, and goes on doing so after every failure. */
  lemma {:induction false} SqlRefinesMemory(src: Source, s: State, requests: seq<Request>)
    requires Valid(s.tables) && Intact(Abs(s)) && AdmissibleRequests(src, Abs(s), requests)
    ensures var (last, replies) := RunSql(src, s, requests);
            var (memory, expected) := RunMemory(src, Abs(s), requests);
            && Valid(last.tables) && Abs(last) == memory && Intact(memory) && replies == expected
    decreases |requests|
  {
    hide AnswerSql, AnswerMemory, Intact;
    if requests != [] {
      AnswersAgree(src, s, requests[0]);
      SqlRefinesMemory(src, AnswerSql(src, s, requests[0]).0, requests[1..]);
    }
  }

  /** The requests without failures. */
  function WithoutFaults(ops: seq<Op>): (r: seq<Request>)
    ensures |r| == |ops|
    ensures forall i :: 0 <= i < |r| ==> r[i] == Request(ops[i], None)
  {
    seq(|ops|, i requires 0 <= i < |ops| => Request(ops[i], None))
  }

  lemma {:induction false} FaultlessRun(src: Source, m: Store, ops: seq<Op>)
    ensures AdmissibleRequests(src, m, WithoutFaults(ops)) <==> AdmissibleRun(src, m, ops)
    ensures var (memory, replies) := RunMemory(src, m, WithoutFaults(ops));
            var (last, expected) := RunOps(src, m, ops);
            && memory == last && |replies| == |expected| == |ops|
            && forall i :: 0 <= i < |ops| ==> replies[i] == Success(expected[i])
    decreases |ops|
  {
    hide Step, Admissible;
    if ops != [] {
      assert WithoutFaults(ops)[1..] == WithoutFaults(ops[1..]);
      FaultlessRun(src, Step(src, m, ops[0]).0, ops[1..]);
    }
  }

  /** Without failures, that run is the run of the in-memory services. */
  lemma SqlRefinesRun(src: Source, s: State, ops: seq<Op>)
    requires Valid(s.tables) && Intact(Abs(s)) && AdmissibleRun(src, Abs(s), ops)
    ensures var (last, replies) := RunSql(src, s, WithoutFaults(ops));
            var (memory, expected) := RunOps(src, Abs(s), ops);
            && Valid(last.tables) && Abs(last) == memory && |replies| == |expected| == |ops|
            && forall i :: 0 <= i < |ops| ==> replies[i] == Success(expected[i])
  {
    hide Intact;
    FaultlessRun(src, Abs(s), ops);
    SqlRefinesMemory(src, s, WithoutFaults(ops));
  }

  /** A failed request changes neither projects nor rules nor counters, unless it is the deletion of a rule that failed
      after its first transaction; that deletion is complete. The generator moves only if the counters of a decision
      could not be saved, and then as that decision moved it. */
  lemma FailureChangesNothing(src: Source, s: State, request: Request)
    requires Valid(s.tables) && Intact(Abs(s)) && Admissible(Abs(s), request.op) && request.fault.Some?
    ensures AnswerSql(src, s, request).1 == Failure(StorageFailure)
    ensures var was, left := Abs(s), Abs(AnswerSql(src, s, request).0);
            if request.op.DeleteRule? && request.fault == Some(Following)
            then left == Step(src, was, request.op).0
            else if request.op.Serve? && request.fault == Some(Writing)
            then left == was.(draws := Step(src, was, request.op).0.draws)
            else left == was
  {
    hide Step, Intact;
    InterruptionSimulates(src, s, request);
  }
}
