/** One database file, any number of processes and threads initializing it, with an error or a crash anywhere. */
module Seeding {
  import opened Models

  type Process = nat
  type Thread = nat

  datatype Seeds = Seeds(projects: seq<Project>, rules: seq<FailureRule>)

  /** Which process a thread belongs to, and what each process would insert: its seed rules have ids of its own. */
  datatype World = World(processOf: Thread -> Process, seedsOf: Process -> Seeds)

  /** The configuration tables and the `initial_seed` row of `metadata`. */
  datatype Content = Content(projects: seq<Project>, rules: seq<FailureRule>, marker: bool)

  /** `tx` is the uncommitted content the thread's transaction sees. */
  datatype Pc =
    | Outside
    | Entering                              // saw the process flag unset, wants the process lock
    | Holding                               // has the process lock, about to look at the flag again
    | CreatingSchema
    | Beginning                             // about to BEGIN IMMEDIATE
    | Checking(tx: Content)
    | InsertingProjects(tx: Content)
    | InsertingRules(tx: Content)
    | Marking(tx: Content)
    | Committing(tx: Content, seeded: bool)
    | Flagging                              // committed, about to set the process flag
    | Ready                                 // initialized, may use the database

  datatype System = System(
    committed: Content,
    writer: Option<Thread>,        // the holder of the file's write transaction
    initialized: set<Process>,
    lock: map<Process, Thread>,
    pcs: map<Thread, Pc>,
    dead: set<Process>,
    seedings: seq<Process>)        // whose seeds commits have made visible, in order

  datatype Step =
    | Connect(t: Thread) | Lock(t: Thread) | Recheck(t: Thread) | CreateSchema(t: Thread) | BeginImmediate(t: Thread)
    | Check(t: Thread) | InsertProjects(t: Thread) | InsertRules(t: Thread) | Mark(t: Thread) | Commit(t: Thread)
    | SetFlag(t: Thread)
    | Use(t: Thread, projects: seq<Project>, rules: seq<FailureRule>)  // any committed change by a service
    | Leave(t: Thread)
    | Fail(t: Thread)                                                  // an exception: rollback, release, re-raise
    | Crash(p: Process)

  function PcOf(s: System, t: Thread): Pc { if t in s.pcs then s.pcs[t] else Outside }

  function Move(s: System, t: Thread, pc: Pc): System { s.(pcs := s.pcs[t := pc]) }

  function Unlock(s: System, p: Process): System { s.(lock := s.lock - {p}) }

  predicate InTransaction(pc: Pc) {
    pc.Checking? || pc.InsertingProjects? || pc.InsertingRules? || pc.Marking? || pc.Committing?
  }

  predicate HoldsLock(pc: Pc) {
    pc.Holding? || pc.CreatingSchema? || pc.Beginning? || InTransaction(pc) || pc.Flagging?
  }

  /** One step; None when it is not enabled. */
  function Next(w: World, s: System, step: Step): Option<System> {
    match step
    case Crash(p) =>
      Some(s.(dead := s.dead + {p}, lock := s.lock - {p},
              pcs := map t | t in s.pcs && w.processOf(t) != p :: s.pcs[t],
              writer := if s.writer.Some? && w.processOf(s.writer.value) == p then None else s.writer))
    case Connect(t) =>
      if PcOf(s, t).Outside? && w.processOf(t) !in s.dead
      then Some(Move(s, t, if w.processOf(t) in s.initialized then Ready else Entering)) else None
    case Lock(t) =>
      if PcOf(s, t).Entering? && w.processOf(t) !in s.lock
      then Some(Move(s, t, Holding).(lock := s.lock[w.processOf(t) := t])) else None
    case Recheck(t) =>
      if !PcOf(s, t).Holding? then None
      else if w.processOf(t) in s.initialized then Some(Unlock(Move(s, t, Ready), w.processOf(t)))
      else Some(Move(s, t, CreatingSchema))
    case CreateSchema(t) =>
      if PcOf(s, t).CreatingSchema? && s.writer.None? then Some(Move(s, t, Beginning)) else None
    case BeginImmediate(t) =>
      if PcOf(s, t).Beginning? && s.writer.None? then Some(Move(s, t, Checking(s.committed)).(writer := Some(t)))
      else None
    case Check(t) =>
      if !PcOf(s, t).Checking? then None
      else
        var tx := PcOf(s, t).tx;
        Some(Move(s, t, if tx.marker then Committing(tx, false) else InsertingProjects(tx)))
    case InsertProjects(t) =>
      if !PcOf(s, t).InsertingProjects? then None
      else
        var tx := PcOf(s, t).tx;
        Some(Move(s, t, InsertingRules(tx.(projects := tx.projects + w.seedsOf(w.processOf(t)).projects))))
    case InsertRules(t) =>
      if !PcOf(s, t).InsertingRules? then None
      else
        var tx := PcOf(s, t).tx;
        Some(Move(s, t, Marking(tx.(rules := tx.rules + w.seedsOf(w.processOf(t)).rules))))
    case Mark(t) =>
      if !PcOf(s, t).Marking? then None
      else Some(Move(s, t, Committing(PcOf(s, t).tx.(marker := true), true)))
    case Commit(t) =>
      if !PcOf(s, t).Committing? then None
      else
        var pc := PcOf(s, t);
        Some(Move(s, t, Flagging).(committed := pc.tx, writer := None,
                                   seedings := s.seedings + if pc.seeded then [w.processOf(t)] else []))
    case SetFlag(t) =>
      if PcOf(s, t).Flagging?
      then Some(Unlock(Move(s, t, Ready), w.processOf(t)).(initialized := s.initialized + {w.processOf(t)})) else None
    case Use(t, projects, rules) =>
      if PcOf(s, t).Ready? && s.writer.None?
      then Some(s.(committed := s.committed.(projects := projects, rules := rules))) else None
    case Leave(t) =>
      if PcOf(s, t).Ready? then Some(Move(s, t, Outside)) else None
    case Fail(t) =>
      if HoldsLock(PcOf(s, t))
      then Some(Unlock(Move(s, t, Outside), w.processOf(t)).(writer := if s.writer == Some(t) then None else s.writer))
      else None
  }

  const NEW_FILE := Content([], [], false)

  function Start(): System { System(NEW_FILE, None, {}, map[], map[], {}, []) }

  /** The state after the steps, ignoring those that are not enabled. */
  function RunFrom(w: World, s: System, steps: seq<Step>): System
    decreases |steps|
  {
    if steps == [] then s
    else
      var after := Next(w, s, steps[0]);
      RunFrom(w, if after.Some? then after.value else s, steps[1..])
  }

  /** What the open transaction may see, given what is committed. */
  predicate TransactionOk(seeds: Seeds, committed: Content, pc: Pc) {
    match pc
    case Checking(tx) => tx == committed
    case InsertingProjects(tx) => tx == committed == NEW_FILE
    case InsertingRules(tx) => committed == NEW_FILE && tx == Content(seeds.projects, [], false)
    case Marking(tx) => committed == NEW_FILE && tx == Content(seeds.projects, seeds.rules, false)
    case Committing(tx, seeded) =>
      if seeded then committed == NEW_FILE && tx == Content(seeds.projects, seeds.rules, true)
      else tx == committed && committed.marker
    case _ => true
  }

  ghost predicate Inv(w: World, s: System) {
    && (forall t: Thread :: InTransaction(PcOf(s, t)) <==> s.writer == Some(t))
    && (forall t: Thread :: HoldsLock(PcOf(s, t)) <==>
          w.processOf(t) in s.lock && s.lock[w.processOf(t)] == t)
    && (forall t: Thread :: TransactionOk(w.seedsOf(w.processOf(t)), s.committed, PcOf(s, t)))
    && (forall t: Thread :: PcOf(s, t).Ready? || PcOf(s, t).Flagging? ==> s.committed.marker)
    && (s.initialized != {} ==> s.committed.marker)
    && (!s.committed.marker ==> s.committed == NEW_FILE)
    && |s.seedings| == (if s.committed.marker then 1 else 0)
  }

  lemma KeepsOnEntry(w: World, s: System, step: Step)
    requires Inv(w, s) && Next(w, s, step).Some?
    requires step.Connect? || step.Lock? || step.Leave?
    ensures Inv(w, Next(w, s, step).value)
    ensures Next(w, s, step).value.committed == s.committed
  {
    var s' := Next(w, s, step).value;
    assert forall u: Thread :: u != step.t ==> PcOf(s', u) == PcOf(s, u);
  }

  lemma KeepsOnRecheck(w: World, s: System, step: Step)
    requires Inv(w, s) && Next(w, s, step).Some?
    requires step.Recheck? || step.CreateSchema?
    ensures Inv(w, Next(w, s, step).value)
    ensures Next(w, s, step).value.committed == s.committed
  {
    var s' := Next(w, s, step).value;
    assert forall u: Thread :: u != step.t ==> PcOf(s', u) == PcOf(s, u);
  }

  lemma KeepsOnFlag(w: World, s: System, step: Step)
    requires Inv(w, s) && Next(w, s, step).Some?
    requires step.SetFlag?
    ensures Inv(w, Next(w, s, step).value)
    ensures Next(w, s, step).value.committed == s.committed
  {
    var s' := Next(w, s, step).value;
    assert forall u: Thread :: u != step.t ==> PcOf(s', u) == PcOf(s, u);
  }

  lemma KeepsOnTransaction(w: World, s: System, step: Step)
    requires Inv(w, s) && Next(w, s, step).Some?
    requires step.BeginImmediate? || step.Check?
    ensures Inv(w, Next(w, s, step).value)
    ensures Next(w, s, step).value.committed == s.committed
  {
    var s' := Next(w, s, step).value;
    assert forall u: Thread :: u != step.t ==> PcOf(s', u) == PcOf(s, u);
  }

  lemma KeepsOnInsert(w: World, s: System, step: Step)
    requires Inv(w, s) && Next(w, s, step).Some?
    requires step.InsertProjects? || step.InsertRules? || step.Mark?
    ensures Inv(w, Next(w, s, step).value)
    ensures Next(w, s, step).value.committed == s.committed
  {
    var s' := Next(w, s, step).value;
    assert forall u: Thread :: u != step.t ==> PcOf(s', u) == PcOf(s, u);
    assert s.writer == Some(step.t);
  }

  lemma KeepsOnFail(w: World, s: System, step: Step)
    requires Inv(w, s) && Next(w, s, step).Some?
    requires step.Fail?
    ensures Inv(w, Next(w, s, step).value)
    ensures Next(w, s, step).value.committed == s.committed
  {
    var s' := Next(w, s, step).value;
    assert forall u: Thread :: u != step.t ==> PcOf(s', u) == PcOf(s, u);
  }

  lemma KeepsOnThreadStep(w: World, s: System, step: Step)
    requires Inv(w, s) && !step.Crash? && !step.Commit? && !step.Use? && Next(w, s, step).Some?
    ensures Inv(w, Next(w, s, step).value)
    ensures Next(w, s, step).value.committed == s.committed
  {
    hide Inv, Next;
    match step
    case Connect(_) => KeepsOnEntry(w, s, step);
    case Lock(_) => KeepsOnEntry(w, s, step);
    case Leave(_) => KeepsOnEntry(w, s, step);
    case Recheck(_) => KeepsOnRecheck(w, s, step);
    case CreateSchema(_) => KeepsOnRecheck(w, s, step);
    case SetFlag(_) => KeepsOnFlag(w, s, step);
    case BeginImmediate(_) => KeepsOnTransaction(w, s, step);
    case Check(_) => KeepsOnTransaction(w, s, step);
    case InsertProjects(_) => KeepsOnInsert(w, s, step);
    case InsertRules(_) => KeepsOnInsert(w, s, step);
    case Mark(_) => KeepsOnInsert(w, s, step);
    case Fail(_) => KeepsOnFail(w, s, step);
  }

  lemma KeepsOnCommit(w: World, s: System, t: Thread)
    requires Inv(w, s) && Next(w, s, Commit(t)).Some?
    ensures Inv(w, Next(w, s, Commit(t)).value)
  {
    var s' := Next(w, s, Commit(t)).value;
    assert s.writer == Some(t);
    assert forall u: Thread :: u != t ==> PcOf(s', u) == PcOf(s, u) && !InTransaction(PcOf(s, u));
  }

  lemma KeepsOnUse(w: World, s: System, step: Step)
    requires Inv(w, s) && step.Use? && Next(w, s, step).Some?
    ensures Inv(w, Next(w, s, step).value)
  {
    var s' := Next(w, s, step).value;
    assert forall u: Thread :: PcOf(s', u) == PcOf(s, u) && !InTransaction(PcOf(s, u));
  }

  lemma KeepsOnCrash(w: World, s: System, p: Process)
    requires Inv(w, s)
    ensures Inv(w, Next(w, s, Crash(p)).value)
  {
    var s' := Next(w, s, Crash(p)).value;
    assert forall u: Thread :: PcOf(s', u) == if w.processOf(u) == p then Outside else PcOf(s, u);
  }

  lemma StepKeepsInv(w: World, s: System, step: Step)
    requires Inv(w, s) && Next(w, s, step).Some?
    ensures Inv(w, Next(w, s, step).value)
  {
    match step
    case Commit(t) => KeepsOnCommit(w, s, t);
    case Use(_, _, _) => KeepsOnUse(w, s, step);
    case Crash(p) => KeepsOnCrash(w, s, p);
    case _ => KeepsOnThreadStep(w, s, step);
  }

  lemma {:induction false} AlwaysInv(w: World, s: System, steps: seq<Step>)
    requires Inv(w, s)
    ensures Inv(w, RunFrom(w, s, steps))
    decreases |steps|
  {
    hide Inv, Next;
    if steps != [] {
      var after := Next(w, s, steps[0]);
      if after.Some? {
        StepKeepsInv(w, s, steps[0]);
      }
      AlwaysInv(w, if after.Some? then after.value else s, steps[1..]);
    }
  }

  /** Seed exactly once: in every reachable state either nothing is committed and nobody has been told the database is
      ready, or exactly one commit has installed one process's seeds together with the marker. */
  lemma SeededExactlyOnce(w: World, steps: seq<Step>)
    ensures var s := RunFrom(w, Start(), steps);
            if s.committed.marker then |s.seedings| == 1
            else s.committed == NEW_FILE && s.seedings == [] && forall t: Thread :: !PcOf(s, t).Ready?
  {
    AlwaysInv(w, Start(), steps);
  }

  /** The step that makes the marker visible installs the full seed set of its process and nothing else, into empty
      tables, so no seed can collide with an existing row. */
  lemma SeedingIsAtomic(w: World, steps: seq<Step>, step: Step)
    requires var s := RunFrom(w, Start(), steps);
             Next(w, s, step).Some? && !s.committed.marker
    ensures var s := RunFrom(w, Start(), steps);
            var after := Next(w, s, step).value.committed;
            if step.Commit?
            then var seeds := w.seedsOf(w.processOf(step.t));
                 s.committed == NEW_FILE && after == Content(seeds.projects, seeds.rules, true)
            else after == s.committed
  {
    AlwaysInv(w, Start(), steps);
    var s := RunFrom(w, Start(), steps);
    match step
    case Commit(_) =>
    case Use(t, _, _) =>
      assert false;
    case Crash(_) =>
    case _ => KeepsOnThreadStep(w, s, step);
  }

  /** After the seeding, initialization never touches the tables again: only a service operation does. */
  lemma SeededStep(w: World, s: System, step: Step)
    requires Inv(w, s) && s.committed.marker && Next(w, s, step).Some? && !step.Use?
    ensures Next(w, s, step).value.committed == s.committed
  {
    match step
    case Commit(_) =>
    case Crash(_) =>
    case _ => KeepsOnThreadStep(w, s, step);
  }

  lemma {:induction false} UnchangedWithoutUse(w: World, s: System, steps: seq<Step>)
    requires Inv(w, s) && s.committed.marker && forall step <- steps :: !step.Use?
    ensures RunFrom(w, s, steps).committed == s.committed
    decreases |steps|
  {
    hide Inv, Next;
    if steps != [] {
      var after := Next(w, s, steps[0]);
      if after.Some? {
        StepKeepsInv(w, s, steps[0]);
        SeededStep(w, s, steps[0]);
      }
      UnchangedWithoutUse(w, if after.Some? then after.value else s, steps[1..]);
    }
  }

  /** Deleted seeds stay deleted: however the seeded state came about, any number of later starts, retries and crashes
      leaves the committed configuration as the last service operation left it. */
  lemma DeletedSeedsStayDeleted(w: World, before: seq<Step>, later: seq<Step>)
    requires RunFrom(w, Start(), before).committed.marker
    requires forall step <- later :: !step.Use?
    ensures RunFrom(w, RunFrom(w, Start(), before), later).committed == RunFrom(w, Start(), before).committed
  {
    AlwaysInv(w, Start(), before);
    UnchangedWithoutUse(w, RunFrom(w, Start(), before), later);
  }

  // Progress.

  /** One start of thread `t` that meets no failure. Steps that do not apply are skipped: a process that is initialized
      already is ready at once, and a file that is seeded already is not seeded again. */
  function Initialization(t: Thread): seq<Step> {
    [Connect(t), Lock(t), Recheck(t), CreateSchema(t), BeginImmediate(t), Check(t), InsertProjects(t), InsertRules(t),
     Mark(t), Commit(t), SetFlag(t)]
  }

  /** Nothing keeps the thread from initializing: it is outside, its process lives and nobody holds a lock. */
  predicate Free(w: World, s: System, t: Thread) {
    PcOf(s, t).Outside? && w.processOf(t) !in s.dead && w.processOf(t) !in s.lock && s.writer.None?
  }

  function After(w: World, s: System, step: Step): System {
    var after := Next(w, s, step);
    if after.Some? then after.value else s
  }

  lemma RunOne(w: World, s: System, step: Step, rest: seq<Step>)
    ensures RunFrom(w, s, [step] + rest) == RunFrom(w, After(w, s, step), rest)
  {
    hide Next;
    assert ([step] + rest)[1..] == rest;
  }

  lemma RunTwo(w: World, s: System, a: Step, b: Step, rest: seq<Step>)
    ensures RunFrom(w, s, [a, b] + rest) == RunFrom(w, After(w, After(w, s, a), b), rest)
  {
    hide After, RunFrom;
    assert [a, b] + rest == [a] + ([b] + rest);
    RunOne(w, s, a, [b] + rest);
    RunOne(w, After(w, s, a), b, rest);
  }

  /** From the outside to the check of the marker, or straight to ready. */
  lemma Enters(w: World, s: System, t: Thread)
    requires Free(w, s, t)
    ensures var s1 := After(w, s, Connect(t));
            var s5 := After(w, After(w, After(w, After(w, s1, Lock(t)), Recheck(t)), CreateSchema(t)),
                            BeginImmediate(t));
            && s5.committed == s.committed && s5.seedings == s.seedings && s5.initialized == s.initialized
            && if w.processOf(t) in s.initialized
               then PcOf(s5, t) == Ready && s5.writer.None? && w.processOf(t) !in s5.lock
               else PcOf(s5, t) == Checking(s.committed) && s5.writer == Some(t)
                    && s5.lock == s.lock[w.processOf(t) := t]
  {
  }

  /** From the check of the marker to the commit. */
  lemma SeedsTables(w: World, s: System, t: Thread)
    requires PcOf(s, t).Checking?
    ensures var tx, seeds := PcOf(s, t).tx, w.seedsOf(w.processOf(t));
            var s4 := After(w, After(w, After(w, After(w, s, Check(t)), InsertProjects(t)), InsertRules(t)), Mark(t));
            && s4.committed == s.committed && s4.seedings == s.seedings && s4.initialized == s.initialized
            && s4.lock == s.lock && s4.writer == s.writer
            && PcOf(s4, t) ==
               if tx.marker then Committing(tx, false)
               else Committing(Content(tx.projects + seeds.projects, tx.rules + seeds.rules, true), true)
  {
  }

  lemma StaysReady(w: World, s: System, t: Thread)
    requires PcOf(s, t).Ready?
    ensures After(w, s, Check(t)) == s && After(w, s, InsertProjects(t)) == s && After(w, s, InsertRules(t)) == s
    ensures After(w, s, Mark(t)) == s && After(w, s, Commit(t)) == s && After(w, s, SetFlag(t)) == s
  {
  }

  lemma Finishes(w: World, s: System, t: Thread)
    requires PcOf(s, t).Committing?
    ensures var pc, r := PcOf(s, t), After(w, After(w, s, Commit(t)), SetFlag(t));
            && r.committed == pc.tx && PcOf(r, t).Ready? && r.writer.None?
            && w.processOf(t) !in r.lock && w.processOf(t) in r.initialized
            && r.seedings == s.seedings + if pc.seeded then [w.processOf(t)] else []
  {
  }

  lemma RunInitialization(w: World, s: System, t: Thread)
    ensures var s5 := After(w, After(w, After(w, After(w, After(w, s, Connect(t)), Lock(t)), Recheck(t)),
                                     CreateSchema(t)), BeginImmediate(t));
            var s9 := After(w, After(w, After(w, After(w, s5, Check(t)), InsertProjects(t)), InsertRules(t)), Mark(t));
            RunFrom(w, s, Initialization(t)) == After(w, After(w, s9, Commit(t)), SetFlag(t))
  {
    hide Next, After;
    var s2 := After(w, After(w, s, Connect(t)), Lock(t));
    var s4 := After(w, After(w, s2, Recheck(t)), CreateSchema(t));
    var s6 := After(w, After(w, s4, BeginImmediate(t)), Check(t));
    var s8 := After(w, After(w, s6, InsertProjects(t)), InsertRules(t));
    var s10 := After(w, After(w, s8, Mark(t)), Commit(t));
    var last := [SetFlag(t)];
    var from8 := [Mark(t), Commit(t)] + last;
    var from6 := [InsertProjects(t), InsertRules(t)] + from8;
    var from4 := [BeginImmediate(t), Check(t)] + from6;
    var from2 := [Recheck(t), CreateSchema(t)] + from4;
    assert Initialization(t) == [Connect(t), Lock(t)] + from2;
    RunTwo(w, s, Connect(t), Lock(t), from2);
    RunTwo(w, s2, Recheck(t), CreateSchema(t), from4);
    RunTwo(w, s4, BeginImmediate(t), Check(t), from6);
    RunTwo(w, s6, InsertProjects(t), InsertRules(t), from8);
    RunTwo(w, s8, Mark(t), Commit(t), last);
    assert last == last + [];
    RunOne(w, s10, SetFlag(t), []);
  }

  /** From every reachable state in which nothing stands in its way, a start that meets no failure leaves its thread
      ready and the locks free. A file that was not seeded holds exactly the seeds of its process, with the marker; a
      seeded one is as it was. */
  lemma InitializationGoesThrough(w: World, before: seq<Step>, t: Thread)
    requires Free(w, RunFrom(w, Start(), before), t)
    ensures var s := RunFrom(w, Start(), before);
            var r := RunFrom(w, s, Initialization(t));
            var seeds := w.seedsOf(w.processOf(t));
            && PcOf(r, t).Ready? && r.writer.None? && w.processOf(t) !in r.lock && w.processOf(t) in r.initialized
            && r.committed.marker
            && (s.committed.marker ==> r.committed == s.committed && r.seedings == s.seedings)
            && (!s.committed.marker ==>
                  r.committed == Content(seeds.projects, seeds.rules, true) && r.seedings == [w.processOf(t)])
  {
    hide Next, After, RunFrom;
    var s := RunFrom(w, Start(), before);
    AlwaysInv(w, Start(), before);
    StartInv(w);
    RunInitialization(w, s, t);
    Enters(w, s, t);
    var s5 := After(w, After(w, After(w, After(w, After(w, s, Connect(t)), Lock(t)), Recheck(t)), CreateSchema(t)),
                    BeginImmediate(t));
    if w.processOf(t) in s.initialized {
      StaysReady(w, s5, t);
    } else {
      SeedsTables(w, s5, t);
      Finishes(w, After(w, After(w, After(w, After(w, s5, Check(t)), InsertProjects(t)), InsertRules(t)), Mark(t)), t);
    }
  }

  lemma StartInv(w: World)
    ensures Inv(w, Start())
  {
  }

  /** A failed attempt leaves the file alone and frees what the thread held, so that the next start goes through. */
  lemma FailureFrees(w: World, s: System, t: Thread)
    requires Inv(w, s) && HoldsLock(PcOf(s, t))
    ensures var r := After(w, s, Fail(t));
            && PcOf(r, t).Outside? && w.processOf(t) !in r.lock && r.committed == s.committed
            && (s.writer.None? || s.writer == Some(t) ==> r.writer.None?) && r.dead == s.dead
  {
  }

  /** A crash takes every thread of its process with it, and what they held; other processes go on. */
  lemma CrashFrees(w: World, s: System, p: Process, t: Thread)
    requires Inv(w, s)
    ensures var r := After(w, s, Crash(p));
            && r.committed == s.committed && p !in r.lock
            && (w.processOf(t) == p ==> PcOf(r, t).Outside? && r.writer != Some(t))
            && (w.processOf(t) != p ==> PcOf(r, t) == PcOf(s, t) && (s.writer == Some(t) ==> r.writer == Some(t)))
  {
  }

  /** A service of a ready thread puts exactly its change into the file, and the marker stays. */
  lemma UseTakesEffect(w: World, s: System, t: Thread, projects: seq<Project>, rules: seq<FailureRule>)
    requires Inv(w, s) && PcOf(s, t).Ready? && s.writer.None?
    ensures After(w, s, Use(t, projects, rules)).committed == Content(projects, rules, true)
  {
  }

  /** A thread of an initialized process is ready at once, without any lock; and a ready thread can leave and come
      back. */
  lemma ReadyAtOnce(w: World, s: System, t: Thread)
    ensures PcOf(s, t).Outside? && w.processOf(t) in s.initialized - s.dead ==>
              After(w, s, Connect(t)) == s.(pcs := s.pcs[t := Ready])
    ensures PcOf(s, t).Ready? ==> PcOf(After(w, s, Leave(t)), t).Outside?
  {
  }

  /** While one thread writes, no other touches the file: it can neither create the schema nor begin nor change data. */
  lemma WriterExcludesOthers(w: World, s: System, t: Thread, projects: seq<Project>, rules: seq<FailureRule>)
    requires s.writer.Some? && s.writer != Some(t)
    ensures After(w, s, CreateSchema(t)) == s && After(w, s, BeginImmediate(t)) == s
    ensures After(w, s, Use(t, projects, rules)) == s
  {
  }

  /** Every thread of a dead process is outside. */
  ghost predicate DeadStayOut(w: World, s: System) {
    forall t: Thread :: w.processOf(t) in s.dead ==> PcOf(s, t).Outside?
  }

  lemma DeadStep(w: World, s: System, step: Step)
    requires DeadStayOut(w, s)
    ensures DeadStayOut(w, After(w, s, step)) && s.dead <= After(w, s, step).dead
  {
    var s' := After(w, s, step);
    match step
    case Crash(p) => assert forall u: Thread :: PcOf(s', u) == if w.processOf(u) == p then Outside else PcOf(s, u);
    case _ => assert forall u: Thread :: u != step.t ==> PcOf(s', u) == PcOf(s, u);
  }

  lemma {:induction false} DeadRun(w: World, s: System, steps: seq<Step>)
    requires DeadStayOut(w, s)
    ensures DeadStayOut(w, RunFrom(w, s, steps)) && s.dead <= RunFrom(w, s, steps).dead
    decreases |steps|
  {
    hide Next, DeadStayOut;
    if steps != [] {
      DeadStep(w, s, steps[0]);
      DeadRun(w, After(w, s, steps[0]), steps[1..]);
    }
  }

  /** A crash is final: whatever happens afterwards, no thread of the crashed process is ever inside again. */
  lemma CrashIsFinal(w: World, before: seq<Step>, p: Process, later: seq<Step>, t: Thread)
    requires w.processOf(t) == p
    ensures PcOf(RunFrom(w, After(w, RunFrom(w, Start(), before), Crash(p)), later), t).Outside?
  {
    DeadRun(w, Start(), before);
    var s := RunFrom(w, Start(), before);
    DeadStep(w, s, Crash(p));
    assert p in After(w, s, Crash(p)).dead;
    DeadRun(w, After(w, s, Crash(p)), later);
  }

  // The double check.

  predicate Initializing(pc: Pc) { pc.CreatingSchema? || pc.Beginning? || InTransaction(pc) || pc.Flagging? }

  /** In an initialized process nobody is initializing. */
  ghost predicate CheckedTwice(w: World, s: System) {
    forall t: Thread :: w.processOf(t) in s.initialized ==> !Initializing(PcOf(s, t))
  }

  lemma CheckedStep(w: World, s: System, step: Step)
    requires Inv(w, s) && CheckedTwice(w, s)
    ensures CheckedTwice(w, After(w, s, step)) && s.initialized <= After(w, s, step).initialized
  {
    hide TransactionOk;
    var s' := After(w, s, step);
    match step
    case Crash(p) => assert forall u: Thread :: PcOf(s', u) == if w.processOf(u) == p then Outside else PcOf(s, u);
    case _ =>
      assert forall u: Thread :: u != step.t ==> PcOf(s', u) == PcOf(s, u);
      assert forall u: Thread :: Initializing(PcOf(s, u)) ==> HoldsLock(PcOf(s, u));
  }

  lemma {:induction false} CheckedRun(w: World, s: System, steps: seq<Step>)
    requires Inv(w, s) && CheckedTwice(w, s)
    ensures CheckedTwice(w, RunFrom(w, s, steps)) && s.initialized <= RunFrom(w, s, steps).initialized
    decreases |steps|
  {
    hide Inv, Next, CheckedTwice;
    if steps != [] {
      CheckedStep(w, s, steps[0]);
      if Next(w, s, steps[0]).Some? {
        StepKeepsInv(w, s, steps[0]);
      }
      CheckedRun(w, After(w, s, steps[0]), steps[1..]);
    }
  }

  /** The double check works: once a process has been initialized, none of its threads, waiting for its lock or new,
      ever creates the schema or opens the seeding transaction again. */
  lemma InitializedOncePerProcess(w: World, before: seq<Step>, later: seq<Step>, t: Thread)
    requires w.processOf(t) in RunFrom(w, Start(), before).initialized
    ensures !Initializing(PcOf(RunFrom(w, RunFrom(w, Start(), before), later), t))
  {
    var s := RunFrom(w, Start(), before);
    StartInv(w);
    CheckedRun(w, Start(), before);
    AlwaysInv(w, Start(), before);
    CheckedRun(w, s, later);
  }

  lemma {:induction false} RunSnoc(w: World, s: System, steps: seq<Step>, step: Step)
    ensures RunFrom(w, s, steps + [step]) == After(w, RunFrom(w, s, steps), step)
    decreases |steps|
  {
    hide Next;
    if steps == [] {
      assert [] + [step] == [step] + [];
      RunOne(w, s, step, []);
    } else {
      assert (steps + [step])[0] == steps[0] && (steps + [step])[1..] == steps[1..] + [step];
      RunSnoc(w, After(w, s, steps[0]), steps[1..], step);
    }
  }

  /** A failure anywhere in the initialization is not final: the file is as it was, and the next start that meets no
      failure leaves the thread ready over a seeded file. */
  lemma RetryGoesThrough(w: World, before: seq<Step>, t: Thread)
    requires var s := RunFrom(w, Start(), before);
             HoldsLock(PcOf(s, t)) && (s.writer.None? || s.writer == Some(t)) && w.processOf(t) !in s.dead
    ensures var s := RunFrom(w, Start(), before);
            var failed := RunFrom(w, Start(), before + [Fail(t)]);
            var r := RunFrom(w, failed, Initialization(t));
            && failed.committed == s.committed && PcOf(r, t).Ready? && r.committed.marker
            && (s.committed.marker ==> r.committed == s.committed)
  {
    hide RunFrom, Next;
    StartInv(w);
    AlwaysInv(w, Start(), before);
    RunSnoc(w, Start(), before, Fail(t));
    FailureFrees(w, RunFrom(w, Start(), before), t);
    InitializationGoesThrough(w, before + [Fail(t)], t);
  }
}
