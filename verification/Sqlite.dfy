/** The SQLite repositories: each method opens a connection, runs its statements and commits, or rolls back. The methods
    with one statement are that statement; the import goes through a connection of its own. */
module Sqlite {
  import opened Models
  import opened Keyed
  import opened Sql
  import opened SqlStore
  import Decision
  import Integrity
  import Memory = Store

  class SQLiteDatabase {
    var tables: Tables

    ghost predicate Valid()
      reads this
    {
      Sql.Valid(tables) && forall id <- tables.runtime :: HasId(tables.rules, id)
    }
  }

  class SQLiteProjectRepository {
    const database: SQLiteDatabase

    constructor (database: SQLiteDatabase)
      ensures this.database == database
    {
      this.database := database;
    }

    /** A used id is refused and changes nothing. */
    method Create(id: Uuid, details: ProjectCreate) returns (r: Result<Project, SqlError>)
      requires database.Valid()
      modifies database
      ensures database.Valid()
      ensures id in Ids(Projects(old(database.tables)), ProjectKey) ==>
                r == Failure(UniqueViolation) && database.tables == old(database.tables)
      ensures id !in Ids(Projects(old(database.tables)), ProjectKey) ==>
                && r == Success(Project(id, details))
                && Projects(database.tables) == Projects(old(database.tables)) + [Project(id, details)]
                && Rules(database.tables) == Rules(old(database.tables))
                && States(database.tables) == States(old(database.tables))
    {
      var project := Project(id, details);
      SameProjects(database.tables, id);
      var inserted := InsertProject(database.tables, project);
      if inserted.Failure? {
        return Failure(inserted.error);
      }
      InsertsProject(database.tables, project);
      database.tables := inserted.value;
      return Success(project);
    }

    method Update(id: Uuid, details: ProjectCreate) returns (project: Option<Project>)
      requires database.Valid()
      modifies database
      ensures database.Valid()
      ensures Projects(database.tables)
              == ReplaceFirst(Projects(old(database.tables)), ProjectKey, id, Project(id, details))
      ensures project == if Find(Projects(old(database.tables)), ProjectKey, id).Some?
                         then Some(Project(id, details)) else None
      ensures Rules(database.tables) == Rules(old(database.tables))
      ensures States(database.tables) == States(old(database.tables))
    {
      SameProjects(database.tables, id);
      ChangeProjectSimulates(State(database.tables, 0), id, details);
      NothingReplacedIfAbsent(Projects(database.tables), id, Project(id, details));
      var rowcount := HasId(database.tables.projects, id);
      database.tables := UpdateProject(database.tables, Project(id, details));
      return if rowcount then Some(Project(id, details)) else None;
    }

    /** RESTRICT: a project that a rule names cannot be deleted. */
    method Delete(id: Uuid) returns (r: Result<bool, SqlError>)
      requires database.Valid()
      modifies database
      ensures database.Valid()
      ensures var was := old(database.tables);
              var exists_ := Find(Projects(was), ProjectKey, id).Some?;
              if exists_ && Memory.CountForProject(Rules(was), id) > 0
              then r == Failure(ForeignKeyViolation) && database.tables == was
              else r == Success(exists_)
                   && Projects(database.tables) == RemoveFirst(Projects(was), ProjectKey, id)
                   && Rules(database.tables) == Rules(was) && States(database.tables) == States(was)
    {
      SameProjects(database.tables, id);
      CountListed(database.tables, database.tables.nextRule, id);
      ListedDelete(database.tables.projects, database.tables.nextProject, ProjectKey, id, database.tables.nextProject);
      var rowcount := HasId(database.tables.projects, id);
      var deleted := DeleteProject(database.tables, id);
      if deleted.Failure? {
        return Failure(deleted.error);
      }
      database.tables := deleted.value;
      return Success(rowcount);
    }
  }

  lemma NothingReplacedIfAbsent(projects: seq<Project>, id: Uuid, p: Project)
    ensures Find(projects, ProjectKey, id).None? ==> ReplaceFirst(projects, ProjectKey, id, p) == projects
  {
    if Find(projects, ProjectKey, id).None? {
      NothingReplaced(projects, ProjectKey, id, p);
    }
  }

  class SQLiteRuleRepository {
    const database: SQLiteDatabase

    constructor (database: SQLiteDatabase)
      ensures this.database == database
    {
      this.database := database;
    }

    /** UNIQUE is checked before the foreign key; either violation changes nothing. */
    method Create(id: Uuid, data: RuleCreate) returns (r: Result<FailureRule, SqlError>)
      requires database.Valid()
      modifies database
      ensures database.Valid()
      ensures var was := old(database.tables);
              if id in Ids(Rules(was), RuleKey) then r == Failure(UniqueViolation) && database.tables == was
              else if !Memory.KnownProject(Projects(was), data.projectId)
              then r == Failure(ForeignKeyViolation) && database.tables == was
              else
                && r == Success(FailureRule(id, data))
                && Rules(database.tables) == Rules(was) + [FailureRule(id, data)]
                && Projects(database.tables) == Projects(was) && States(database.tables) == States(was)
    {
      var rule := FailureRule(id, data);
      InsertRuleCases(database.tables, rule);
      var inserted := InsertRule(database.tables, rule);
      if inserted.Failure? {
        return Failure(inserted.error);
      }
      database.tables := inserted.value;
      return Success(rule);
    }

    method SetEnabled(id: Uuid, enabled: bool) returns (rule: Option<FailureRule>)
      requires database.Valid()
      modifies database
      ensures database.Valid()
      ensures var was := State(old(database.tables), 0);
              var after := State(database.tables, 0);
              (Abs(after), if rule.Some? then Memory.RuleReply(rule.value) else Memory.NotFound)
              == Memory.Toggle(Abs(was), id, enabled)
    {
      ToggleSimulates(State(database.tables, 0), id, enabled);
      SameRules(database.tables, id);
      var current: Option<FailureRule> := Get(id);
      if current.None? {
        return None;
      }
      var changed := current.value.(data := current.value.data.(enabled := enabled));
      FindSpec(Rules(database.tables), RuleKey, id);
      KeepsRuleIds(database.tables, UpdateRulePayload(database.tables, changed));
      database.tables := UpdateRulePayload(database.tables, changed);
      return Some(changed);
    }

    /** SELECT payload WHERE id = ?: a scan over the rows. */
    method Get(id: Uuid) returns (rule: Option<FailureRule>)
      requires database.Valid()
      ensures rule == Find(Rules(database.tables), RuleKey, id)
    {
      SameRules(database.tables, id);
      if k :| k in database.tables.rules && database.tables.rules[k].id == id {
        ListedFind(database.tables.rules, database.tables.nextRule, RuleKey, k, database.tables.nextRule);
        return Some(database.tables.rules[k].payload);
      }
      return None;
    }

    method Update(id: Uuid, data: RuleCreate) returns (r: Result<Option<FailureRule>, SqlError>)
      requires database.Valid()
      modifies database
      ensures database.Valid()
      ensures var was := old(database.tables);
              var found := Find(Rules(was), RuleKey, id).Some?;
              if found && !Memory.KnownProject(Projects(was), data.projectId)
              then r == Failure(ForeignKeyViolation) && database.tables == was
              else
                && r == Success(if found then Some(FailureRule(id, data)) else None)
                && Rules(database.tables) == ReplaceFirst(Rules(was), RuleKey, id, FailureRule(id, data))
                && Projects(database.tables) == Projects(was) && States(database.tables) == States(was)
    {
      var t, rule := database.tables, FailureRule(id, data);
      SameRules(t, id);
      if data.projectId.Some? {
        SameProjects(t, data.projectId.value);
      }
      var updated := UpdateRule(t, rule);
      if updated.Failure? {
        return Failure(updated.error);
      }
      UpdatesRule(t, updated.value, rule);
      KeepsRuleIds(t, updated.value);
      var rowcount := HasId(t.rules, id);
      database.tables := updated.value;
      return Success(if rowcount then Some(rule) else None);
    }

    /** The counters of the rule go with it. */
    method Delete(id: Uuid) returns (deleted: bool)
      requires database.Valid()
      modifies database
      ensures database.Valid()
      ensures var was := old(database.tables);
              && Rules(database.tables) == RemoveFirst(Rules(was), RuleKey, id)
              && (deleted <==> Find(Rules(was), RuleKey, id).Some?)
              && States(database.tables) == States(was) - {id}
              && Projects(database.tables) == Projects(was)
    {
      var t := database.tables;
      SameRules(t, id);
      ListedDelete(t.rules, t.nextRule, RuleKey, id, t.nextRule);
      deleted := HasId(t.rules, id);
      database.tables := DeleteRule(t, id);
      CascadeExact(t, id);
    }
  }

  lemma InsertRuleCases(t: Tables, r: FailureRule)
    requires Sql.Valid(t)
    ensures var inserted := InsertRule(t, r);
            if r.id in Ids(Rules(t), RuleKey) then inserted == Failure(UniqueViolation)
            else if !Memory.KnownProject(Projects(t), r.data.projectId) then inserted == Failure(ForeignKeyViolation)
            else
              && inserted.Success? && Sql.Valid(inserted.value)
              && Rules(inserted.value) == Rules(t) + [r]
              && Projects(inserted.value) == Projects(t) && inserted.value.runtime == t.runtime
              && forall id: Uuid :: HasId(t.rules, id) ==> HasId(inserted.value.rules, id)
  {
    SameRules(t, r.id);
    if r.data.projectId.Some? {
      SameProjects(t, r.data.projectId.value);
    }
    var inserted := InsertRule(t, r);
    if inserted.Success? {
      InsertsRule(t, r);
      assert t.nextRule !in t.rules;
      KeepsRuleIds(t, inserted.value);
    }
  }

  lemma KeepsRuleIds(t: Tables, after: Tables)
    requires forall k <- t.rules :: k in after.rules && after.rules[k].id == t.rules[k].id
    ensures forall id: Uuid :: HasId(t.rules, id) ==> HasId(after.rules, id)
  {
    forall id: Uuid | HasId(t.rules, id) ensures HasId(after.rules, id) {
      var k :| k in t.rules && t.rules[k].id == id;
      assert after.rules[k].id == id;
    }
  }

  lemma CascadeExact(t: Tables, id: Uuid)
    requires Sql.Valid(t) && forall k <- t.runtime :: HasId(t.rules, k)
    ensures States(DeleteRule(t, id)) == States(t) - {id}
    ensures forall k <- DeleteRule(t, id).runtime :: HasId(DeleteRule(t, id).rules, k)
  {
    var after := DeleteRule(t, id);
    forall k | k in after.runtime ensures HasId(after.rules, k) {
      var l :| l in t.rules && t.rules[l].id == k;
      assert after.rules[l].id == k;
    }
  }

  class SQLiteRuleRuntimeRepository {
    const database: SQLiteDatabase

    constructor (database: SQLiteDatabase)
      ensures this.database == database
    {
      this.database := database;
    }

    method Get(id: Uuid) returns (state: RuleRuntimeState)
      ensures state == Decision.Current(States(database.tables), id)
    {
      state := RuntimeOf(database.tables, id);
    }

    /** An upsert; unlike the dictionary, the table refuses counters for a rule that does not exist. */
    method Save(state: RuleRuntimeState) returns (r: Result<(), SqlError>)
      requires database.Valid()
      modifies database
      ensures database.Valid()
      ensures if state.ruleId in Ids(Rules(old(database.tables)), RuleKey)
              then
                && r.Success?
                && States(database.tables) == States(old(database.tables))[state.ruleId := state]
                && Rules(database.tables) == Rules(old(database.tables))
                && Projects(database.tables) == Projects(old(database.tables))
              else r == Failure(ForeignKeyViolation) && database.tables == old(database.tables)
    {
      SameRules(database.tables, state.ruleId);
      var saved := UpsertRuntime(database.tables, state);
      if saved.Failure? {
        return Failure(saved.error);
      }
      assert States(saved.value) == States(database.tables)[state.ruleId := state];
      database.tables := saved.value;
      return Success(());
    }

    method Reset(id: Uuid) returns (state: RuleRuntimeState)
      requires database.Valid()
      modifies database
      ensures database.Valid()
      ensures States(database.tables) == States(old(database.tables)) - {id} && state == FreshState(id)
      ensures Rules(database.tables) == Rules(old(database.tables))
      ensures Projects(database.tables) == Projects(old(database.tables))
    {
      assert States(DeleteRuntime(database.tables, id)) == States(database.tables) - {id};
      database.tables := DeleteRuntime(database.tables, id);
      return FreshState(id);
    }
  }

  /** One connection inside `connect`: `working` is what its open transaction sees. Only a commit reaches the
      database; a failure of any statement or of the commit itself ends in a rollback. */
  class SQLiteConnection {
    const database: SQLiteDatabase
    var working: Tables

    constructor (database: SQLiteDatabase)
      ensures this.database == database && working == database.tables
    {
      this.database := database;
      working := database.tables;
    }

    /** Takes over what the statement computes, unless a constraint or storage refuses it. */
    method Execute(result: Result<Tables, SqlError>, fails: bool) returns (r: Result<(), SqlError>)
      modifies this
      ensures r == if fails then Failure(StorageFailure)
                   else if result.Failure? then Failure(result.error) else Success(())
      ensures working == if r.Success? then result.value else old(working)
    {
      if fails {
        return Failure(StorageFailure);
      }
      match result {
        case Failure(e) => return Failure(e);
        case Success(next) => working := next;
      }
      return Success(());
    }

    method Commit(fails: bool) returns (r: Result<(), SqlError>)
      modifies database
      ensures r == if fails then Failure(StorageFailure) else Success(())
      ensures database.tables == if fails then old(database.tables) else working
    {
      if fails {
        return Failure(StorageFailure);
      }
      database.tables := working;
      return Success(());
    }

    method Rollback()
      modifies this
      ensures working == database.tables
    {
      working := database.tables;
    }
  }

  class SQLiteConfigurationRepository {
    const database: SQLiteDatabase

    constructor (database: SQLiteDatabase)
      ensures this.database == database
    {
      this.database := database;
    }

    /** executemany over the projects; storage fails at row `fault`, if that is one of them. */
    method ExecuteProjects(connection: SQLiteConnection, projects: seq<Project>, fault: int)
      returns (r: Result<(), SqlError>)
      requires Sql.Valid(connection.working) && Projects(connection.working) == [] && Distinct(projects, ProjectKey)
      modifies connection
      ensures r == if 0 <= fault < |projects| then Failure(StorageFailure) else Success(())
      ensures r.Success? ==>
                && Sql.Valid(connection.working) && Projects(connection.working) == projects
                && Rules(connection.working) == Rules(old(connection.working))
                && connection.working.runtime == old(connection.working.runtime)
    {
      for i := 0 to |projects|
        invariant fault < 0 || i <= fault
        invariant Sql.Valid(connection.working) && Projects(connection.working) == projects[..i]
        invariant Rules(connection.working) == Rules(old(connection.working))
        invariant connection.working.runtime == old(connection.working.runtime)
      {
        NextIsNew(projects, ProjectKey, i);
        InsertsProject(connection.working, projects[i]);
        r := connection.Execute(InsertProject(connection.working, projects[i]), fault == i);
        if r.Failure? {
          return;
        }
      }
      assert projects[..|projects|] == projects;
      return Success(());
    }

    method ExecuteRules(connection: SQLiteConnection, rules: seq<FailureRule>, fault: int)
      returns (r: Result<(), SqlError>)
      requires Sql.Valid(connection.working) && Rules(connection.working) == [] && Distinct(rules, RuleKey)
      requires Integrity.ReferencesExist(rules, Projects(connection.working))
      modifies connection
      ensures r == if 0 <= fault < |rules| then Failure(StorageFailure) else Success(())
      ensures r.Success? ==>
                && Sql.Valid(connection.working) && Rules(connection.working) == rules
                && Projects(connection.working) == Projects(old(connection.working))
                && connection.working.runtime == old(connection.working.runtime)
    {
      for i := 0 to |rules|
        invariant fault < 0 || i <= fault
        invariant Sql.Valid(connection.working) && Rules(connection.working) == rules[..i]
        invariant Projects(connection.working) == Projects(old(connection.working))
        invariant connection.working.runtime == old(connection.working.runtime)
      {
        NextIsNew(rules, RuleKey, i);
        assert rules[i] in rules;
        InsertsRule(connection.working, rules[i]);
        r := connection.Execute(InsertRule(connection.working, rules[i]), fault == i);
        if r.Failure? {
          return;
        }
      }
      assert rules[..|rules|] == rules;
      return Success(());
    }

    /** The body of the transaction, on the connection's own copy. */
    method ExecuteReplacement(connection: SQLiteConnection, document: ConfigurationDocument, fault: int)
      returns (r: Result<(), SqlError>)
      requires connection.database.Valid() && connection.working == connection.database.tables
      requires Memory.ValidGraph(document)
      modifies connection
      ensures r == if 0 <= fault < 2 + |document.projects| + |document.rules|
                   then Failure(StorageFailure) else Success(())
      ensures r.Success? ==>
                && Sql.Valid(connection.working) && connection.working.runtime == map[]
                && Projects(connection.working) == document.projects && Rules(connection.working) == document.rules
    {
      Emptied(connection.working);
      r := connection.Execute(Success(DeleteAllRules(connection.working)), fault == 0);
      if r.Failure? {
        return;
      }
      r := connection.Execute(DeleteAllProjects(connection.working), fault == 1);
      if r.Failure? {
        return;
      }
      r := ExecuteProjects(connection, document.projects, fault - 2);
      if r.Failure? {
        return;
      }
      r := ExecuteRules(connection, document.rules, fault - 2 - |document.projects|);
    }

    /** Import atomicity: storage may fail at any row-level statement or at the commit (number `fault`, if it is one of
        them). Then the database is exactly as before; otherwise it holds exactly the document, without counters.
        Constraints never fail. */
    method Replace(document: ConfigurationDocument, fault: int) returns (r: Result<nat, SqlError>)
      requires database.Valid() && Memory.ValidGraph(document)
      modifies database
      ensures database.Valid()
      ensures r == if 0 <= fault <= 2 + |document.projects| + |document.rules|
                   then Failure(StorageFailure) else Success(|States(old(database.tables))|)
      ensures r.Failure? ==> database.tables == old(database.tables)
      ensures r.Success? ==> Projects(database.tables) == document.projects && Rules(database.tables) == document.rules
                             && States(database.tables) == map[]
    {
      var connection := new SQLiteConnection(database);
      var statesReset := |connection.working.runtime|;
      StatesCount(connection.working);
      var step := ExecuteReplacement(connection, document, fault);
      if step.Success? {
        step := connection.Commit(fault == 2 + |document.projects| + |document.rules|);
      }
      match step {
        case Failure(e) =>
          connection.Rollback();
          return Failure(e);
        case Success(_) => return Success(statesReset);
      }
    }
  }

  lemma StatesCount(t: Tables)
    ensures |States(t)| == |t.runtime|
  {
    assert States(t).Keys == t.runtime.Keys;
    assert |States(t)| == |States(t).Keys| && |t.runtime| == |t.runtime.Keys|;
  }
}
