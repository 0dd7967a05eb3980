/** One database file, any number of connections: imports statement by statement, two-statement exports, other services'
    writes, and an error or a crash anywhere. A connection that holds the write lock works on a copy of its own; commit
    publishes the copy once no reader holds a shared lock, and rollback drops it. */
module Transactions {
  import opened Models
  import opened Keyed
  import opened Sql
  import opened SqlStore
  import Memory = Store

  type Connection = nat

  /** Where a committed state came from. `cleared` is the number of counters an import reported. */
  datatype Origin = Initial | Written | Imported(document: ConfigurationDocument, cleared: nat)

  datatype Version = Version(tables: Tables, origin: Origin)

  /** What an export returned, and the last version committed by then. */
  datatype Observation = Observation(document: ConfigurationDocument, version: nat)

  datatype Pc =
    | Idle
    | Importing(document: ConfigurationDocument, executed: nat, working: Tables, cleared: nat)  // holds the write lock
    | Exporting(projects: seq<Project>)                                                         // holds a shared lock

  datatype System = System(
    versions: seq<Version>,          // the committed states, in order; the last one is in the file
    writer: Option<Connection>,
    pcs: map<Connection, Pc>,
    observations: seq<Observation>,
    violations: nat)                 // how many statements a constraint refused

  datatype Step =
    | BeginImport(c: Connection, document: ConfigurationDocument)  // BEGIN IMMEDIATE, then count the counters
    | Execute(c: Connection)                                       // the next statement of the import, row by row
    | Commit(c: Connection)
    | ReadProjects(c: Connection)                                  // BEGIN, SELECT projects
    | ReadRules(c: Connection)                                     // SELECT rules, commit
    | Write(c: Connection, tables: Tables)                         // a whole write transaction of another service
    | Fail(c: Connection)                                          // an exception anywhere: rollback and close
    | Crash                                                        // the process dies with every connection

  function PcOf(s: System, c: Connection): Pc { if c in s.pcs then s.pcs[c] else Idle }

  function Move(s: System, c: Connection, pc: Pc): System { s.(pcs := s.pcs[c := pc]) }

  predicate NoReaders(s: System) { forall c <- s.pcs :: !s.pcs[c].Exporting? }

  function Committed(s: System): Tables
    requires s.versions != []
  {
    s.versions[|s.versions| - 1].tables
  }

  function DocumentOf(t: Tables): ConfigurationDocument { ConfigurationDocument(Projects(t), Rules(t)) }

  /** How many statements an import of the document executes after the count. */
  function Statements(d: ConfigurationDocument): nat { 2 + |d.projects| + |d.rules| }

  /** The statements in order: delete rules, delete projects, insert each project, insert each rule. */
  function Statement(d: ConfigurationDocument, executed: nat, t: Tables): Result<Tables, SqlError>
    requires executed < Statements(d)
  {
    if executed == 0 then Success(DeleteAllRules(t))
    else if executed == 1 then DeleteAllProjects(t)
    else if executed < 2 + |d.projects| then InsertProject(t, d.projects[executed - 2])
    else InsertRule(t, d.rules[executed - 2 - |d.projects|])
  }

  /** What every committed state satisfies: aligned columns, and counters of existing rules only. */
  ghost predicate Sane(t: Tables) { Sql.Valid(t) && forall id <- t.runtime :: HasId(t.rules, id) }

  function Publish(s: System, c: Connection, v: Version): System {
    Move(s, c, Idle).(versions := s.versions + [v], writer := None)
  }

  /** One step; None when it is not enabled. Documents reach an import validated, and other services' writes leave sane
      tables (`SqlStore` proves that of each of them). */
  ghost function Next(s: System, step: Step): Option<System>
    requires s.versions != []
  {
    match step
    case BeginImport(c, document) =>
      if PcOf(s, c).Idle? && s.writer.None? && Memory.ValidGraph(document)
      then Some(Move(s, c, Importing(document, 0, Committed(s), |Committed(s).runtime|)).(writer := Some(c))) else None
    case Execute(c) =>
      var pc := PcOf(s, c);
      if !pc.Importing? || pc.executed >= Statements(pc.document) then None
      else (match Statement(pc.document, pc.executed, pc.working)
            case Failure(_) => Some(Move(s, c, Idle).(writer := None, violations := s.violations + 1))
            case Success(t) => Some(Move(s, c, pc.(executed := pc.executed + 1, working := t))))
    case Commit(c) =>
      var pc := PcOf(s, c);
      if pc.Importing? && pc.executed == Statements(pc.document) && NoReaders(s)
      then Some(Publish(s, c, Version(pc.working, Imported(pc.document, pc.cleared)))) else None
    case ReadProjects(c) =>
      if PcOf(s, c).Idle? then Some(Move(s, c, Exporting(Projects(Committed(s))))) else None
    case ReadRules(c) =>
      var pc := PcOf(s, c);
      if !pc.Exporting? then None
      else
        var seen := Observation(ConfigurationDocument(pc.projects, Rules(Committed(s))), |s.versions| - 1);
        Some(Move(s, c, Idle).(observations := s.observations + [seen]))
    case Write(c, tables) =>
      if PcOf(s, c).Idle? && s.writer.None? && NoReaders(s) && Sane(tables)
      then Some(Publish(s, c, Version(tables, Written))) else None
    case Fail(c) =>
      if PcOf(s, c).Idle? then None
      else Some(Move(s, c, Idle).(writer := if s.writer == Some(c) then None else s.writer))
    case Crash => Some(s.(pcs := map[], writer := None))
  }

  function Start(t: Tables): System { System([Version(t, Initial)], None, map[], [], 0) }

  /** The state after the steps, ignoring those that are not enabled. */
  ghost function RunFrom(s: System, steps: seq<Step>): (r: System)
    requires s.versions != []
    ensures r.versions != []
    decreases |steps|
  {
    if steps == [] then s
    else
      var after := Next(s, steps[0]);
      RunFrom(if after.Some? then after.value else s, steps[1..])
  }

  // The invariant.

  function ProjectsIn(d: ConfigurationDocument, executed: nat): seq<Project> {
    if executed <= 2 then [] else if executed - 2 <= |d.projects| then d.projects[..executed - 2] else d.projects
  }

  function RulesIn(d: ConfigurationDocument, executed: nat): seq<FailureRule>
    requires executed <= Statements(d)
  {
    if executed <= 2 + |d.projects| then [] else d.rules[..executed - 2 - |d.projects|]
  }

  /** What the working copy of an import holds after some of its statements. */
  ghost predicate Replacing(committed: Tables, d: ConfigurationDocument, executed: nat, working: Tables) {
    && Sql.Valid(working)
    && executed <= Statements(d)
    && (if executed == 0 then working == committed
        else if executed == 1 then working == DeleteAllRules(committed)
        else
          && Projects(working) == ProjectsIn(d, executed)
          && Rules(working) == RulesIn(d, executed)
          && working.runtime == map[])
  }

  ghost predicate PcOk(committed: Tables, pc: Pc) {
    match pc
    case Idle => true
    case Importing(d, executed, working, cleared) =>
      Memory.ValidGraph(d) && Replacing(committed, d, executed, working) && cleared == |committed.runtime|
    case Exporting(projects) => projects == Projects(committed)
  }

  /** An imported version holds exactly its document, without counters, and its import reported how many counters the
      version before it held. */
  ghost predicate VersionOk(versions: seq<Version>, i: nat)
    requires i < |versions|
  {
    var v := versions[i];
    && Sane(v.tables)
    && (v.origin.Imported? ==>
          && DocumentOf(v.tables) == v.origin.document && v.tables.runtime == map[]
          && i > 0 && v.origin.cleared == |versions[i - 1].tables.runtime|)
  }

  ghost predicate Inv(s: System) {
    && s.versions != []
    && (forall i: nat :: i < |s.versions| ==> VersionOk(s.versions, i))
    && (forall c: Connection :: PcOf(s, c).Importing? <==> s.writer == Some(c))
    && (forall c: Connection :: PcOk(Committed(s), PcOf(s, c)))
    && (forall o <- s.observations ::
          o.version < |s.versions| && o.document == DocumentOf(s.versions[o.version].tables))
    && s.violations == 0
  }

  // Preservation.

  lemma SliceGrows<T>(s: seq<T>, n: nat)
    requires n < |s|
    ensures s[..n + 1] == s[..n] + [s[n]]
  {
  }

  /** Every statement of an import meets every constraint when it runs. */
  lemma StatementLegal(committed: Tables, d: ConfigurationDocument, executed: nat, working: Tables)
    requires Sane(committed) && Memory.ValidGraph(d) && Replacing(committed, d, executed, working)
    requires executed < Statements(d)
    ensures var r := Statement(d, executed, working);
            r.Success? && Replacing(committed, d, executed + 1, r.value)
  {
    hide InsertProject, InsertRule;
    if executed < 2 {
      Emptied(committed);
    } else if executed < 2 + |d.projects| {
      var i := executed - 2;
      NextIsNew(d.projects, ProjectKey, i);
      SliceGrows(d.projects, i);
      InsertsProject(working, d.projects[i]);
    } else {
      var i := executed - 2 - |d.projects|;
      NextIsNew(d.rules, RuleKey, i);
      SliceGrows(d.rules, i);
      assert d.rules[i] in d.rules;
      InsertsRule(working, d.rules[i]);
    }
  }

  lemma Finished(committed: Tables, d: ConfigurationDocument, working: Tables)
    requires Replacing(committed, d, Statements(d), working)
    ensures DocumentOf(working) == d && Sane(working) && working.runtime == map[]
  {
  }

  lemma KeepsOnBegin(s: System, step: Step)
    requires Inv(s) && Next(s, step).Some? && (step.BeginImport? || step.ReadProjects? || step.Fail?)
    ensures Inv(Next(s, step).value)
  {
    hide Sane, VersionOk, Replacing, DocumentOf;
    var s' := Next(s, step).value;
    assert forall u: Connection :: u != step.c ==> PcOf(s', u) == PcOf(s, u);
    if step.BeginImport? {
      StartsReplacing(s, step.document);
    }
  }

  lemma StartsReplacing(s: System, d: ConfigurationDocument)
    requires Inv(s)
    ensures Replacing(Committed(s), d, 0, Committed(s))
  {
    assert VersionOk(s.versions, |s.versions| - 1);
  }

  lemma KeepsOnExecute(s: System, c: Connection)
    requires Inv(s) && Next(s, Execute(c)).Some?
    ensures Inv(Next(s, Execute(c)).value)
  {
    hide Sane, Replacing, Statement, Statements, DocumentOf;
    var s' := Next(s, Execute(c)).value;
    var pc := PcOf(s, c);
    assert PcOk(Committed(s), pc);
    assert VersionOk(s.versions, |s.versions| - 1);
    StatementLegal(Committed(s), pc.document, pc.executed, pc.working);
    assert forall u: Connection :: u != c ==> PcOf(s', u) == PcOf(s, u);
  }

  lemma KeepsOnReadRules(s: System, c: Connection)
    requires Inv(s) && Next(s, ReadRules(c)).Some?
    ensures Inv(Next(s, ReadRules(c)).value)
  {
    hide Sane, VersionOk, Replacing;
    var s' := Next(s, ReadRules(c)).value;
    assert PcOk(Committed(s), PcOf(s, c));
    assert forall u: Connection :: u != c ==> PcOf(s', u) == PcOf(s, u);
  }

  lemma KeepsOnCrash(s: System)
    requires Inv(s)
    ensures Inv(Next(s, Crash).value)
  {
    hide Sane, VersionOk, Replacing, DocumentOf;
  }

  /** A version that is published while nobody reads and nobody else writes. */
  lemma KeepsOnPublish(s: System, c: Connection, v: Version)
    requires Inv(s) && NoReaders(s) && (s.writer.None? || s.writer == Some(c))
    requires VersionOk(s.versions + [v], |s.versions|)
    ensures Inv(Publish(s, c, v))
  {
    hide Sane, Replacing, DocumentOf;
    var s' := Publish(s, c, v);
    forall i: nat | i < |s'.versions| ensures VersionOk(s'.versions, i) {
      if i < |s.versions| {
        assert VersionOk(s.versions, i);
      }
    }
    forall u: Connection ensures PcOf(s', u).Idle? {
      assert !PcOf(s, u).Exporting?;
      assert u != c ==> PcOf(s', u) == PcOf(s, u) && !PcOf(s, u).Importing?;
    }
  }

  lemma KeepsOnCommit(s: System, c: Connection)
    requires Inv(s) && Next(s, Commit(c)).Some?
    ensures Inv(Next(s, Commit(c)).value)
  {
    hide Sane, Replacing, Statements, DocumentOf;
    var pc := PcOf(s, c);
    assert PcOk(Committed(s), pc);
    Finished(Committed(s), pc.document, pc.working);
    KeepsOnPublish(s, c, Version(pc.working, Imported(pc.document, pc.cleared)));
  }

  lemma StepKeepsInv(s: System, step: Step)
    requires Inv(s) && Next(s, step).Some?
    ensures Inv(Next(s, step).value)
  {
    hide Inv, Sane, VersionOk;
    match step
    case BeginImport(_, _) => KeepsOnBegin(s, step);
    case ReadProjects(_) => KeepsOnBegin(s, step);
    case Fail(_) => KeepsOnBegin(s, step);
    case Execute(c) => KeepsOnExecute(s, c);
    case ReadRules(c) => KeepsOnReadRules(s, c);
    case Commit(c) => KeepsOnCommit(s, c);
    case Write(c, tables) =>
      WriteOk(s, tables);
      KeepsOnPublish(s, c, Version(tables, Written));
    case Crash => KeepsOnCrash(s);
  }

  lemma WriteOk(s: System, tables: Tables)
    requires Sane(tables)
    ensures VersionOk(s.versions + [Version(tables, Written)], |s.versions|)
  {
  }

  lemma {:induction false} AlwaysInv(s: System, steps: seq<Step>)
    requires Inv(s)
    ensures Inv(RunFrom(s, steps))
    decreases |steps|
  {
    hide Next;
    if steps != [] {
      var after := Next(s, steps[0]);
      if after.Some? {
        StepKeepsInv(s, steps[0]);
      }
      AlwaysInv(if after.Some? then after.value else s, steps[1..]);
    }
  }

  lemma StartInv(t: Tables)
    requires Sane(t)
    ensures Inv(Start(t))
  {
    assert VersionOk(Start(t).versions, 0);
  }

  // Main results.

  /** Import and export atomicity, for every interleaving of imports, exports and other writes with failures and crashes
      at any statement: no statement is ever refused by a constraint; every import that committed left exactly its
      document, without counters, and reported the counters it found; and every export returned the projects and the
      rules of one committed version, the last one at that moment, never a mixture and nothing uncommitted. */
  lemma ImportsAndExportsAtomic(t: Tables, steps: seq<Step>)
    requires Sane(t)
    ensures var s := RunFrom(Start(t), steps);
            && s.violations == 0
            && (forall o <- s.observations ::
                  o.version < |s.versions| && o.document == DocumentOf(s.versions[o.version].tables))
            && (forall i: nat :: i < |s.versions| && s.versions[i].origin.Imported? ==>
                  && DocumentOf(s.versions[i].tables) == s.versions[i].origin.document
                  && s.versions[i].tables.runtime == map[]
                  && i > 0 && s.versions[i].origin.cleared == |s.versions[i - 1].tables.runtime|)
  {
    hide Next, DocumentOf, Sane;
    StartInv(t);
    AlwaysInv(Start(t), steps);
    var s := RunFrom(Start(t), steps);
    forall i: nat | i < |s.versions| && s.versions[i].origin.Imported?
      ensures DocumentOf(s.versions[i].tables) == s.versions[i].origin.document && s.versions[i].tables.runtime == map[]
      ensures i > 0 && s.versions[i].origin.cleared == |s.versions[i - 1].tables.runtime|
    {
      assert VersionOk(s.versions, i);
    }
  }

  lemma OnlyCommitsPublish(s: System, step: Step)
    requires s.versions != [] && Next(s, step).Some?
    ensures var after := Next(s, step).value.versions;
            if step.Commit? || step.Write? then |after| == |s.versions| + 1 && s.versions <= after
            else after == s.versions
    ensures var after := Next(s, step).value.observations;
            if step.ReadRules? then |after| == |s.observations| + 1 && s.observations <= after
            else after == s.observations
  {
  }

  /** Committed versions and what exports returned are never lost, and without a commit or another service's write
      nothing is published: not by the statements of an import, not by a rollback and not by a crash. */
  lemma {:induction false} NothingWithoutCommit(s: System, steps: seq<Step>)
    requires s.versions != []
    ensures s.versions <= RunFrom(s, steps).versions && s.observations <= RunFrom(s, steps).observations
    ensures (forall step <- steps :: !step.Commit? && !step.Write?) ==> RunFrom(s, steps).versions == s.versions
    decreases |steps|
  {
    hide Next;
    if steps != [] {
      var after := Next(s, steps[0]);
      if after.Some? {
        OnlyCommitsPublish(s, steps[0]);
      }
      NothingWithoutCommit(if after.Some? then after.value else s, steps[1..]);
    }
  }

  /** The step imports the document, or does not change the configuration. */
  predicate ImportsOnly(step: Step, d: ConfigurationDocument) {
    !step.Write? && (step.BeginImport? ==> step.document == d)
  }

  /** Every version is the first one or an import of the document, and no open import is of another one. */
  ghost predicate OldOrNew(s: System, first: Version, d: ConfigurationDocument) {
    && s.versions != []
    && (forall v <- s.versions :: v == first || (v.origin.Imported? && v.origin.document == d))
    && (forall c: Connection :: PcOf(s, c).Importing? ==> PcOf(s, c).document == d)
  }

  lemma OldOrNewStep(s: System, step: Step, first: Version, d: ConfigurationDocument)
    requires Inv(s) && OldOrNew(s, first, d) && ImportsOnly(step, d) && Next(s, step).Some?
    ensures OldOrNew(Next(s, step).value, first, d)
  {
    hide Inv, Sane, Statement, Projects, Rules;
    var s' := Next(s, step).value;
    if !step.Crash? {
      assert forall u: Connection :: u != step.c ==> PcOf(s', u) == PcOf(s, u);
    }
  }

  lemma {:induction false} OldOrNewRun(s: System, steps: seq<Step>, first: Version, d: ConfigurationDocument)
    requires Inv(s) && OldOrNew(s, first, d) && forall step <- steps :: ImportsOnly(step, d)
    ensures OldOrNew(RunFrom(s, steps), first, d)
    decreases |steps|
  {
    hide Inv, Next, ImportsOnly;
    if steps != [] {
      var after := Next(s, steps[0]);
      if after.Some? {
        StepKeepsInv(s, steps[0]);
        OldOrNewStep(s, steps[0], first, d);
      }
      OldOrNewRun(if after.Some? then after.value else s, steps[1..], first, d);
    }
  }

  /** While one document is being imported, by any number of connections and attempts, with failures and crashes, every
      other connection sees the old configuration or the whole document. */
  lemma OldOrWholeDocument(t: Tables, d: ConfigurationDocument, steps: seq<Step>)
    requires Sane(t) && forall step <- steps :: ImportsOnly(step, d)
    ensures forall o <- RunFrom(Start(t), steps).observations :: o.document == DocumentOf(t) || o.document == d
  {
    hide Next, Sane, DocumentOf;
    StartInv(t);
    ImportsAndExportsAtomic(t, steps);
    OldOrNewRun(Start(t), steps, Version(t, Initial), d);
    var s := RunFrom(Start(t), steps);
    forall o | o in s.observations ensures o.document == DocumentOf(t) || o.document == d {
      var v := s.versions[o.version];
      assert v in s.versions;
    }
  }

  /** The remaining statements of an import, then its commit. */
  function Remaining(c: Connection, n: nat): seq<Step> {
    if n == 0 then [Commit(c)] else [Execute(c)] + Remaining(c, n - 1)
  }

  lemma {:induction false} RemainingComplete(s: System, c: Connection)
    requires Inv(s) && NoReaders(s) && PcOf(s, c).Importing? && PcOf(s, c).executed <= Statements(PcOf(s, c).document)
    ensures var pc := PcOf(s, c);
            var r := RunFrom(s, Remaining(c, Statements(pc.document) - pc.executed));
            && Inv(r) && r.writer.None? && |r.versions| == |s.versions| + 1
            && r.versions[|s.versions|].origin == Imported(pc.document, pc.cleared)
    decreases Statements(PcOf(s, c).document) - PcOf(s, c).executed
  {
    hide Sane, VersionOk, Replacing, Statements, Statement;
    var pc := PcOf(s, c);
    var n := Statements(pc.document) - pc.executed;
    var step := if n == 0 then Commit(c) else Execute(c);
    assert Remaining(c, n)[0] == step;
    assert PcOk(Committed(s), pc) && VersionOk(s.versions, |s.versions| - 1);
    if n > 0 {
      VersionSane(s.versions, |s.versions| - 1);
      StatementLegal(Committed(s), pc.document, pc.executed, pc.working);
      KeepsOnExecute(s, c);
      assert Remaining(c, n)[1..] == Remaining(c, n - 1);
      RemainingComplete(Next(s, step).value, c);
    } else {
      KeepsOnCommit(s, c);
      assert Remaining(c, n)[1..] == [];
    }
  }

  lemma VersionSane(versions: seq<Version>, i: nat)
    requires i < |versions| && VersionOk(versions, i)
    ensures Sane(versions[i].tables)
  {
  }

  /** An import of any valid document that meets no failure and no reader goes through, from every reachable state in
      which nobody writes: it publishes exactly the document, without counters. */
  lemma ImportGoesThrough(s: System, c: Connection, d: ConfigurationDocument)
    requires Inv(s) && NoReaders(s) && s.writer.None? && PcOf(s, c).Idle? && Memory.ValidGraph(d)
    ensures var r := RunFrom(s, [BeginImport(c, d)] + Remaining(c, Statements(d)));
            && |r.versions| == |s.versions| + 1 && r.writer.None?
            && DocumentOf(Committed(r)) == d && Committed(r).runtime == map[]
  {
    hide Sane, Replacing, Statements, Statement, DocumentOf;
    var begun := Next(s, BeginImport(c, d)).value;
    KeepsOnBegin(s, BeginImport(c, d));
    assert ([BeginImport(c, d)] + Remaining(c, Statements(d)))[1..] == Remaining(c, Statements(d));
    RemainingComplete(begun, c);
    var r := RunFrom(begun, Remaining(c, Statements(d)));
    assert VersionOk(r.versions, |s.versions|);
  }

  lemma ReadTwice(s: System, c: Connection)
    requires s.versions != [] && PcOf(s, c).Idle?
    ensures var first := Next(s, ReadProjects(c));
            && first.Some? && first.value.versions == s.versions
            && var second := Next(first.value, ReadRules(c));
            && second.Some? && second.value.versions == s.versions && second.value.writer == s.writer
            && PcOf(second.value, c).Idle?
            && second.value.observations == s.observations + [Observation(DocumentOf(Committed(s)), |s.versions| - 1)]
  {
    hide Projects, Rules;
  }

  /** An export that meets no failure adds one observation, of the configuration committed at that time, whatever others
      are writing meanwhile. */
  lemma ExportGoesThrough(s: System, c: Connection)
    requires s.versions != [] && PcOf(s, c).Idle?
    ensures var r := RunFrom(s, [ReadProjects(c), ReadRules(c)]);
            && r.observations == s.observations + [Observation(DocumentOf(Committed(s)), |s.versions| - 1)]
            && r.versions == s.versions && PcOf(r, c).Idle? && r.writer == s.writer
  {
    hide Next, DocumentOf;
    ReadTwice(s, c);
    var first := Next(s, ReadProjects(c)).value;
    assert [ReadProjects(c), ReadRules(c)][1..] == [ReadRules(c)] && [ReadRules(c)][1..] == [];
    assert RunFrom(s, [ReadProjects(c), ReadRules(c)]) == RunFrom(first, [ReadRules(c)]);
  }

  /** A write that meets no reader and no other writer is the next version. */
  lemma WriteGoesThrough(s: System, c: Connection, tables: Tables)
    requires Inv(s) && PcOf(s, c).Idle? && s.writer.None? && NoReaders(s) && Sane(tables)
    ensures RunFrom(s, [Write(c, tables)]).versions == s.versions + [Version(tables, Written)]
  {
    hide Sane;
    assert [Write(c, tables)][1..] == [];
  }

  /** A failure closes the connection and frees its lock; a crash does so for all of them. Neither touches the file. */
  lemma FailureFrees(s: System, c: Connection)
    requires Inv(s)
    ensures var r, dead := RunFrom(s, [Fail(c)]), RunFrom(s, [Crash]);
            && r.versions == s.versions && PcOf(r, c).Idle? && r.writer != Some(c)
            && (s.writer != Some(c) ==> r.writer == s.writer)
            && dead.versions == s.versions && dead.writer.None? && NoReaders(dead)
            && forall k: Connection :: PcOf(dead, k).Idle?
  {
    assert [Fail(c)][1..] == [] && [Step.Crash][1..] == [];
  }
}
