/** Any number of threads inside `decide`, interleaved at every read, evaluation, write, acquire and release. */
module DecideThreads {
  import opened Models
  import opened Decision
  import DecisionRuns

  type Thread = nat

  /** Where a thread is. `turn` is its position in lock-acquisition order; `seen` is the set of turns that had been
      answered when it entered. */
  datatype Pc =
    | Outside
    | Waiting(call: Call, seen: set<nat>)
    | Locked(call: Call, turn: nat)
    | Read(call: Call, turn: nat, current: RuleRuntimeState)
    | Evaluated(call: Call, turn: nat, decision: RuleDecision)
    | Saved(call: Call, turn: nat, decision: RuleDecision)

  /** What a caller got back, and which caller it was. */
  datatype Answer = Answer(thread: Thread, decision: RuleDecision)

  datatype System = System(
    engine: Engine,
    owner: Option<Thread>,
    pcs: map<Thread, Pc>,
    acquired: seq<Call>,         // the calls in lock-acquisition order
    callers: seq<Thread>,        // who made each of them
    preceding: seq<set<nat>>,    // which turns had been answered when that caller entered
    returned: map<nat, Answer>)  // what each turn answered to whom

  datatype Step =
    | Enter(t: Thread, call: Call) | Acquire(t: Thread) | Get(t: Thread)
    | Evaluate(t: Thread) | Save(t: Thread) | Release(t: Thread)

  function PcOf(s: System, t: Thread): Pc { if t in s.pcs then s.pcs[t] else Outside }

  function Move(s: System, t: Thread, pc: Pc): System { s.(pcs := s.pcs[t := pc]) }

  function DecisionOn(rule: FailureRule, matched: RuleRuntimeState, reason: DecisionReason, now: Instant)
    : RuleDecision
  {
    var state :=
      if Simulates(reason) then matched.(simulated := matched.simulated + 1, lastTriggered := Some(now)) else matched;
    RuleDecision(Simulates(reason), reason, rule.id, state)
  }

  function EvaluatedBy(src: Source, e: Engine, pc: Pc): (Pc, Engine)
    requires pc.Read?
  {
    var matched := pc.current.(matched := pc.current.matched + 1);
    var (reason, draws) := EvaluatePolicies(src, pc.call.rule, matched, e.draws);
    (Evaluated(pc.call, pc.turn, DecisionOn(pc.call.rule, matched, reason, pc.call.now)), e.(draws := draws))
  }

  /** One micro-step; None when the thread cannot take it. Only `Acquire` looks at the lock. */
  function Next(src: Source, s: System, step: Step): Option<System> {
    match step
    case Enter(t, call) =>
      if PcOf(s, t) == Outside then Some(Move(s, t, Waiting(call, s.returned.Keys))) else None
    case Acquire(t) =>
      if PcOf(s, t).Waiting? && s.owner.None? then
        var call := PcOf(s, t).call;
        Some(Move(s, t, Locked(call, |s.acquired|))
             .(owner := Some(t), acquired := s.acquired + [call], callers := s.callers + [t],
               preceding := s.preceding + [PcOf(s, t).seen]))
      else None
    case Get(t) =>
      if PcOf(s, t).Locked? then
        var pc := PcOf(s, t);
        Some(Move(s, t, Read(pc.call, pc.turn, Current(s.engine.states, pc.call.rule.id))))
      else None
    case Evaluate(t) =>
      if PcOf(s, t).Read? then
        var (pc, engine) := EvaluatedBy(src, s.engine, PcOf(s, t));
        Some(Move(s, t, pc).(engine := engine))
      else None
    case Save(t) =>
      if PcOf(s, t).Evaluated? then
        var pc := PcOf(s, t);
        var state := pc.decision.state;
        Some(Move(s, t, Saved(pc.call, pc.turn, pc.decision))
             .(engine := s.engine.(states := s.engine.states[state.ruleId := state])))
      else None
    case Release(t) =>
      if PcOf(s, t).Saved? then
        var pc := PcOf(s, t);
        Some(Move(s, t, Outside).(owner := None, returned := s.returned[pc.turn := Answer(t, pc.decision)]))
      else None
  }

  function Start(e: Engine): System { System(e, None, map[], [], [], [], map[]) }

  /** The state after the steps, ignoring those that are not enabled. */
  function RunSteps(src: Source, e: Engine, steps: seq<Step>): System
    decreases |steps|
  {
    if steps == [] then Start(e)
    else
      var before := RunSteps(src, e, steps[..|steps| - 1]);
      var after := Next(src, before, steps[|steps| - 1]);
      if after.Some? then after.value else before
  }

  predicate Critical(pc: Pc) { pc.Locked? || pc.Read? || pc.Evaluated? || pc.Saved? }

  /** The turns whose decide call has run to its release. */
  function Finished(s: System): nat
    requires s.owner.Some? ==> s.acquired != []
  {
    if s.owner.None? then |s.acquired| else |s.acquired| - 1
  }

  function Turn(pc: Pc): nat { if Critical(pc) then pc.turn else 0 }

  /** How far the engine of the lock owner has got through its decide call. */
  ghost predicate Progress(src: Source, now: Engine, before: Engine, pc: Pc, c: Call) {
    var (after, d) := Decide(src, before, c);
    match pc
    case Locked(call, _) => call == c && now == before
    case Read(call, _, current) => call == c && now == before && current == Current(before.states, c.rule.id)
    case Evaluated(call, _, decision) => call == c && now == Engine(before.states, after.draws) && decision == d
    case Saved(call, _, decision) => call == c && now == after && decision == d
    case _ => false
  }

  /** What the sequential run in lock-acquisition order answers to turn `i`. */
  function Replied(src: Source, e: Engine, acquired: seq<Call>, i: nat): RuleDecision
    requires i < |acquired|
  {
    Decide(src, RunCalls(src, e, acquired[..i]).engine, acquired[i]).1
  }

  /** Answers go to the callers, and nobody overtakes a turn that was over when it entered. */
  ghost predicate Ordered(s: System)
    requires s.owner.Some? ==> s.acquired != []
  {
    && |s.callers| == |s.preceding| == |s.acquired|
    && (s.owner.Some? ==> s.owner == Some(s.callers[|s.callers| - 1]))
    && (forall i <- s.returned :: i < |s.callers| && s.returned[i].thread == s.callers[i])
    && (forall t: Thread :: PcOf(s, t).Waiting? ==> PcOf(s, t).seen <= s.returned.Keys)
    && (forall i, j :: 0 <= i < |s.preceding| && j in s.preceding[i] ==> j < i)
  }

  ghost predicate Inv(src: Source, e: Engine, s: System) {
    && (s.owner.Some? ==> s.acquired != [])
    && Ordered(s)
    && (forall t: Thread :: Critical(PcOf(s, t)) <==> s.owner == Some(t))
    && (forall i: nat :: i in s.returned <==> 0 <= i < Finished(s))
    && (forall i :: 0 <= i < Finished(s) ==> s.returned[i].decision == Replied(src, e, s.acquired, i))
    && (match s.owner
        case None => s.engine == RunCalls(src, e, s.acquired).engine
        case Some(t) =>
          var n := |s.acquired| - 1;
          && Turn(PcOf(s, t)) == n
          && Progress(src, s.engine, RunCalls(src, e, s.acquired[..n]).engine, PcOf(s, t), s.acquired[n]))
  }

  lemma KeepsOnEnter(src: Source, e: Engine, s: System, t: Thread, call: Call)
    requires Filed(e.states) && Inv(src, e, s)
    requires Next(src, s, Enter(t, call)).Some?
    ensures Inv(src, e, Next(src, s, Enter(t, call)).value)
  {
    hide Decide;
    var s' := Next(src, s, Enter(t, call)).value;
    assert forall u: Thread :: u != t ==> PcOf(s', u) == PcOf(s, u);
  }

  lemma KeepsOnGet(src: Source, e: Engine, s: System, t: Thread)
    requires Filed(e.states) && Inv(src, e, s)
    requires Next(src, s, Get(t)).Some?
    ensures Inv(src, e, Next(src, s, Get(t)).value)
  {
    hide Decide;
    var s' := Next(src, s, Get(t)).value;
    assert forall u: Thread :: u != t ==> PcOf(s', u) == PcOf(s, u);
    assert s.owner == Some(t);
  }

  lemma EvaluateProgress(src: Source, now: Engine, before: Engine, pc: Pc, c: Call)
    requires pc.Read? && Progress(src, now, before, pc, c)
    ensures Progress(src, EvaluatedBy(src, now, pc).1, before, EvaluatedBy(src, now, pc).0, c)
  {
  }

  lemma SaveProgress(src: Source, now: Engine, before: Engine, pc: Pc, c: Call)
    requires pc.Evaluated? && Progress(src, now, before, pc, c)
    ensures Progress(src, now.(states := now.states[pc.decision.state.ruleId := pc.decision.state]), before,
                     Saved(pc.call, pc.turn, pc.decision), c)
  {
  }

  lemma KeepsOnEvaluate(src: Source, e: Engine, s: System, t: Thread)
    requires Filed(e.states) && Inv(src, e, s)
    requires Next(src, s, Evaluate(t)).Some?
    ensures Inv(src, e, Next(src, s, Evaluate(t)).value)
  {
    var s' := Next(src, s, Evaluate(t)).value;
    assert forall u: Thread :: u != t ==> PcOf(s', u) == PcOf(s, u);
    assert s.owner == Some(t);
    var n := |s.acquired| - 1;
    EvaluateProgress(src, s.engine, RunCalls(src, e, s.acquired[..n]).engine, PcOf(s, t), s.acquired[n]);
    OwnerMoved(src, e, s, s', t);
  }

  lemma KeepsOnSave(src: Source, e: Engine, s: System, t: Thread)
    requires Filed(e.states) && Inv(src, e, s)
    requires Next(src, s, Save(t)).Some?
    ensures Inv(src, e, Next(src, s, Save(t)).value)
  {
    var s' := Next(src, s, Save(t)).value;
    assert forall u: Thread :: u != t ==> PcOf(s', u) == PcOf(s, u);
    assert s.owner == Some(t);
    var n := |s.acquired| - 1;
    SaveProgress(src, s.engine, RunCalls(src, e, s.acquired[..n]).engine, PcOf(s, t), s.acquired[n]);
    OwnerMoved(src, e, s, s', t);
  }

  /** A step of the lock owner that keeps the lock needs to keep its progress only. */
  lemma OwnerMoved(src: Source, e: Engine, s: System, s': System, t: Thread)
    requires Inv(src, e, s) && s.owner == Some(t) && s'.owner == s.owner
    requires s'.acquired == s.acquired && s'.returned == s.returned
    requires s'.callers == s.callers && s'.preceding == s.preceding
    requires forall u: Thread :: u != t ==> PcOf(s', u) == PcOf(s, u)
    requires Critical(PcOf(s', t)) && Turn(PcOf(s', t)) == Turn(PcOf(s, t))
    requires var n := |s.acquired| - 1;
             Progress(src, s'.engine, RunCalls(src, e, s.acquired[..n]).engine, PcOf(s', t), s.acquired[n])
    ensures Inv(src, e, s')
  {
  }

  lemma AcquireKeepsOrder(src: Source, s: System, t: Thread)
    requires s.owner.None? && Ordered(s) && Next(src, s, Acquire(t)).Some?
    requires forall i <- s.returned :: i < |s.acquired|
    ensures var after := Next(src, s, Acquire(t)).value; after.acquired != [] && Ordered(after)
  {
    hide Decide;
    var s' := Next(src, s, Acquire(t)).value;
    assert forall u: Thread :: PcOf(s', u).Waiting? ==> PcOf(s', u) == PcOf(s, u);
  }

  /** A later turn does not change what the sequential run answers to the earlier ones. */
  lemma RepliesStay(src: Source, e: Engine, acquired: seq<Call>, c: Call, i: nat)
    requires i < |acquired|
    ensures Replied(src, e, acquired + [c], i) == Replied(src, e, acquired, i)
  {
    hide Decide;
    assert (acquired + [c])[..i] == acquired[..i];
  }

  lemma KeepsOnAcquire(src: Source, e: Engine, s: System, t: Thread)
    requires Filed(e.states) && Inv(src, e, s)
    requires Next(src, s, Acquire(t)).Some?
    ensures Inv(src, e, Next(src, s, Acquire(t)).value)
  {
    hide Decide, Ordered, Replied, RunCalls;
    var s' := Next(src, s, Acquire(t)).value;
    assert forall u: Thread :: u != t ==> PcOf(s', u) == PcOf(s, u);
    assert s'.acquired[..|s.acquired|] == s.acquired;
    AcquireKeepsOrder(src, s, t);
    forall i | 0 <= i < |s.acquired| ensures Replied(src, e, s'.acquired, i) == Replied(src, e, s.acquired, i) {
      RepliesStay(src, e, s.acquired, PcOf(s, t).call, i);
    }
  }

  lemma KeepsOnRelease(src: Source, e: Engine, s: System, t: Thread)
    requires Filed(e.states) && Inv(src, e, s)
    requires Next(src, s, Release(t)).Some?
    ensures Inv(src, e, Next(src, s, Release(t)).value)
  {
    hide Decide, Ordered, Replied, RunCalls, Progress;
    var s' := Next(src, s, Release(t)).value;
    assert forall u: Thread :: u != t ==> PcOf(s', u) == PcOf(s, u);
    assert s.owner == Some(t);
    var n := |s.acquired| - 1;
    ReleaseKeepsOrder(src, s, t, n);
    ReleasedTurn(src, e, s, t, n);
    assert s'.returned == s.returned[n := Answer(t, Replied(src, e, s.acquired, n))];
  }

  lemma ReleaseKeepsOrder(src: Source, s: System, t: Thread, n: nat)
    requires s.owner == Some(t) && |s.acquired| == n + 1 && Ordered(s)
    requires PcOf(s, t).Saved? && PcOf(s, t).turn == n
    ensures Ordered(Next(src, s, Release(t)).value)
  {
    hide Decide;
    var s' := Next(src, s, Release(t)).value;
    assert forall u: Thread :: PcOf(s', u).Waiting? ==> PcOf(s', u) == PcOf(s, u);
  }

  /** At its release the owner hands back the sequential answer and leaves the sequential engine behind. */
  lemma ReleasedTurn(src: Source, e: Engine, s: System, t: Thread, n: nat)
    requires Inv(src, e, s) && s.owner == Some(t) && PcOf(s, t).Saved? && |s.acquired| == n + 1
    ensures s.engine == RunCalls(src, e, s.acquired).engine
    ensures PcOf(s, t).turn == n && PcOf(s, t).decision == Replied(src, e, s.acquired, n)
  {
    hide Decide;
    assert s.acquired == s.acquired[..n] + [s.acquired[n]];
    DecisionRuns.RunSnoc(src, e, s.acquired[..n], s.acquired[n]);
  }

  lemma {:induction false} AlwaysInv(src: Source, e: Engine, steps: seq<Step>)
    requires Filed(e.states)
    ensures Inv(src, e, RunSteps(src, e, steps))
    decreases |steps|
  {
    if steps != [] {
      var front, step := steps[..|steps| - 1], steps[|steps| - 1];
      AlwaysInv(src, e, front);
      var s := RunSteps(src, e, front);
      if Next(src, s, step).Some? {
        match step {
          case Save(t) => KeepsOnSave(src, e, s, t);
          case Acquire(t) => KeepsOnAcquire(src, e, s, t);
          case Release(t) => KeepsOnRelease(src, e, s, t);
          case Enter(t, call) => KeepsOnEnter(src, e, s, t, call);
          case Get(t) => KeepsOnGet(src, e, s, t);
          case Evaluate(t) => KeepsOnEvaluate(src, e, s, t);
        }
      }
    }
  }

  /** Linearizability: at most one thread is inside; whenever the lock is free the stored counters and the generator
      are those of the sequential run in lock-acquisition order; every decision handed back so far is the sequential
      run's decision for that turn and went to the thread that took the turn; and a turn that was over when a thread
      entered comes before the turn of that thread, so the sequential order respects real time. */
  lemma Linearizable(src: Source, e: Engine, steps: seq<Step>)
    requires Filed(e.states)
    ensures var s := RunSteps(src, e, steps);
            var sequential := RunCalls(src, e, s.acquired);
            && |s.callers| == |s.preceding| == |s.acquired|
            && (forall t: Thread, u: Thread :: Critical(PcOf(s, t)) && Critical(PcOf(s, u)) ==> t == u)
            && (s.owner.None? ==> s.engine == sequential.engine)
            && (s.owner.None? ==> forall i :: 0 <= i < |s.acquired| ==> i in s.returned)
            && (forall i <- s.returned ::
                  i < |s.acquired| && s.returned[i] == Answer(s.callers[i], sequential.decisions[i]))
            && (forall i, j :: 0 <= i < |s.preceding| && j in s.preceding[i] ==> j < i)
  {
    AlwaysInv(src, e, steps);
    var s := RunSteps(src, e, steps);
    forall i | i in s.returned
      ensures i < |s.acquired| && s.returned[i].decision == RunCalls(src, e, s.acquired).decisions[i]
    {
      DecisionRuns.RunAt(src, e, s.acquired, i);
    }
  }

  /** The turns whose counters have been saved. */
  function SavedTurns(s: System): (n: nat)
    ensures n <= |s.acquired|
  {
    if s.owner.None? || s.acquired == [] || PcOf(s, s.owner.value).Saved? then |s.acquired| else |s.acquired| - 1
  }

  /** At every moment, lock held or not, the stored counters are those of the saved turns run in order. */
  lemma StoredIsSequential(src: Source, e: Engine, s: System)
    requires Inv(src, e, s)
    ensures s.engine.states == RunCalls(src, e, s.acquired[..SavedTurns(s)]).engine.states
  {
    assert s.acquired[..|s.acquired|] == s.acquired;
    if s.owner.Some? {
      var t, n := s.owner.value, |s.acquired| - 1;
      assert Critical(PcOf(s, t));
      if PcOf(s, t).Saved? {
        ReleasedTurn(src, e, s, t, n);
      }
    }
  }

  /** The turns that were answered with a simulation of rule `id`. */
  function SimulatingTurns(returned: map<nat, Answer>, id: Uuid): set<nat> {
    set i <- returned | returned[i].decision.ruleId == id && returned[i].decision.simulate
  }

  function SimulatingIn(decisions: seq<RuleDecision>, id: Uuid): set<nat> {
    set i: nat | i < |decisions| && decisions[i].ruleId == id && decisions[i].simulate
  }

  lemma SimulatingInSnoc(front: seq<RuleDecision>, d: RuleDecision, id: Uuid)
    ensures SimulatingIn(front + [d], id)
            == SimulatingIn(front, id) + (if d.ruleId == id && d.simulate then {|front|} else {})
  {
  }

  lemma {:induction false} SimulatingTurnsCounted(decisions: seq<RuleDecision>, id: Uuid)
    ensures |SimulatingIn(decisions, id)| == DecisionRuns.SimulationsOf(decisions, id)
    decreases |decisions|
  {
    if decisions != [] {
      var front, d := decisions[..|decisions| - 1], decisions[|decisions| - 1];
      assert decisions == front + [d];
      SimulatingTurnsCounted(front, id);
      SimulatingInSnoc(front, d, id);
      DecisionRuns.SimulationsSnoc(front, d, id);
      assert |front| !in SimulatingIn(front, id);
    }
  }

  lemma HandedBackCounted(src: Source, e: Engine, s: System, id: Uuid)
    requires Inv(src, e, s)
    ensures |SimulatingTurns(s.returned, id)|
            == DecisionRuns.SimulationsOf(RunCalls(src, e, s.acquired[..Finished(s)]).decisions, id)
  {
    hide Decide;
    var decisions := RunCalls(src, e, s.acquired[..Finished(s)]).decisions;
    forall i | 0 <= i < |decisions| ensures s.returned[i].decision == decisions[i] {
      DecisionRuns.RunAt(src, e, s.acquired[..Finished(s)], i);
      assert s.acquired[..Finished(s)][..i] == s.acquired[..i];
    }
    assert SimulatingTurns(s.returned, id) == SimulatingIn(decisions, id);
    SimulatingTurnsCounted(decisions, id);
  }

  /** In every reachable state, lock held or free: no increment is lost, since the stored counters count the saved turns
      of the rule and the simulations among them. If every version of the rule called so far carries a limit of at most
      `limit`, then together with the simulations before the start no more than `limit` turns are ever answered with a
      simulation. */
  lemma NoIncrementLost(src: Source, e: Engine, steps: seq<Step>, id: Uuid, limit: int)
    requires Filed(e.states)
    ensures var s := RunSteps(src, e, steps);
            var saved := s.acquired[..SavedTurns(s)];
            var was, now := Current(e.states, id), Current(s.engine.states, id);
            && now.matched == was.matched + |CallsTo(saved, id)|
            && now.simulated == was.simulated + DecisionRuns.SimulationsOf(RunCalls(src, e, saved).decisions, id)
            && (was.simulated <= limit && LimitedThroughout(s.acquired, id, limit) ==>
                  now.simulated <= limit && was.simulated + |SimulatingTurns(s.returned, id)| <= limit)
  {
    hide Decide, Inv;
    AlwaysInv(src, e, steps);
    var s := RunSteps(src, e, steps);
    var saved := s.acquired[..SavedTurns(s)];
    StoredIsSequential(src, e, s);
    DecisionRuns.CountersAcrossEdits(src, e, saved, id, limit);
    DecisionRuns.SimulatedCountsDecisions(src, e, saved, id);
    if Current(e.states, id).simulated <= limit && LimitedThroughout(s.acquired, id, limit) {
      AnsweredWithinLimit(src, e, s, id, limit);
    }
  }

  lemma AnsweredWithinLimit(src: Source, e: Engine, s: System, id: Uuid, limit: int)
    requires Filed(e.states) && Inv(src, e, s)
    requires Current(e.states, id).simulated <= limit && LimitedThroughout(s.acquired, id, limit)
    ensures Current(e.states, id).simulated + |SimulatingTurns(s.returned, id)| <= limit
  {
    hide Decide;
    HandedBackCounted(src, e, s, id);
    DecisionRuns.SimulationsWithinLimit(src, e, s.acquired[..Finished(s)], id, limit);
  }

  /** Every version of the rule called carries a limit, of at most `limit`. */
  predicate LimitedThroughout(calls: seq<Call>, id: Uuid, limit: int) {
    forall c <- calls :: c.rule.id == id ==>
      c.rule.data.behavior.maxSimulations.Some? && c.rule.data.behavior.maxSimulations.value <= limit
  }

  // Progress.

  function After(src: Source, s: System, step: Step): System {
    var after := Next(src, s, step);
    if after.Some? then after.value else s
  }

  lemma RunSnoc(src: Source, e: Engine, steps: seq<Step>, step: Step)
    ensures RunSteps(src, e, steps + [step]) == After(src, RunSteps(src, e, steps), step)
  {
    hide Next;
    assert (steps + [step])[..|steps|] == steps;
  }

  /** What is left to do for the lock owner, wherever it is; steps already taken are skipped. */
  function Completion(t: Thread): seq<Step> { [Get(t), Evaluate(t), Save(t), Release(t)] }

  lemma RunCompletion(src: Source, e: Engine, steps: seq<Step>, t: Thread)
    ensures RunSteps(src, e, steps + Completion(t))
            == After(src, After(src, After(src, After(src, RunSteps(src, e, steps), Get(t)), Evaluate(t)), Save(t)),
                     Release(t))
  {
    hide RunSteps, After;
    RunSnoc(src, e, steps, Get(t));
    RunSnoc(src, e, steps + [Get(t)], Evaluate(t));
    RunSnoc(src, e, steps + [Get(t)] + [Evaluate(t)], Save(t));
    RunSnoc(src, e, steps + [Get(t)] + [Evaluate(t)] + [Save(t)], Release(t));
    assert steps + Completion(t) == steps + [Get(t)] + [Evaluate(t)] + [Save(t)] + [Release(t)];
  }

  lemma OwnerMoves(src: Source, s: System, t: Thread)
    requires Critical(PcOf(s, t))
    ensures var s3 := After(src, After(src, After(src, s, Get(t)), Evaluate(t)), Save(t));
            && PcOf(s3, t).Saved? && PcOf(s3, t).turn == PcOf(s, t).turn
            && s3.acquired == s.acquired && s3.callers == s.callers && s3.returned == s.returned
            && forall u: Thread :: u != t ==> PcOf(s3, u) == PcOf(s, u)
  {
    hide EvaluatePolicies;
  }

  lemma OwnerReleases(src: Source, s: System, t: Thread)
    requires PcOf(s, t).Saved?
    ensures var r := After(src, s, Release(t));
            && r.owner.None? && PcOf(r, t) == Outside && r.acquired == s.acquired && r.callers == s.callers
            && r.returned.Keys == s.returned.Keys + {PcOf(s, t).turn}
            && forall u: Thread :: u != t ==> PcOf(r, u) == PcOf(s, u)
  {
  }

  /** Nobody keeps the lock for ever: from every reachable state its owner can finish, whatever the others are at, and
      its call is then answered and the lock free. */
  lemma OwnerFinishes(src: Source, e: Engine, before: seq<Step>, t: Thread)
    requires Filed(e.states) && RunSteps(src, e, before).owner == Some(t)
    ensures var s, r := RunSteps(src, e, before), RunSteps(src, e, before + Completion(t));
            && r.owner.None? && PcOf(r, t) == Outside && r.acquired == s.acquired && r.callers == s.callers
            && s.acquired != [] && |s.acquired| - 1 in r.returned
            && forall u: Thread :: u != t ==> PcOf(r, u) == PcOf(s, u)
  {
    hide RunSteps, After;
    AlwaysInv(src, e, before);
    RunCompletion(src, e, before, t);
    var s := RunSteps(src, e, before);
    assert Critical(PcOf(s, t));
    OwnerMoves(src, s, t);
    OwnerReleases(src, After(src, After(src, After(src, s, Get(t)), Evaluate(t)), Save(t)), t);
  }

  lemma TakesLock(src: Source, s: System, t: Thread, call: Call)
    requires s.owner.None? && PcOf(s, t) == Outside
    ensures var r := After(src, After(src, s, Enter(t, call)), Acquire(t));
            r.owner == Some(t) && r.acquired == s.acquired + [call] && r.callers == s.callers + [t]
  {
  }

  /** Whenever the lock is free, a thread outside can make its call and have it answered: it takes the next turn, gets
      the sequential decision of that turn, and leaves the sequential counters and the lock behind. */
  lemma CallCompletes(src: Source, e: Engine, before: seq<Step>, t: Thread, call: Call)
    requires Filed(e.states)
    requires RunSteps(src, e, before).owner.None? && PcOf(RunSteps(src, e, before), t) == Outside
    ensures var s := RunSteps(src, e, before);
            var r := RunSteps(src, e, before + [Enter(t, call)] + [Acquire(t)] + Completion(t));
            var (engine, decision) := Decide(src, s.engine, call);
            && r.acquired == s.acquired + [call] && |s.acquired| in r.returned
            && r.returned[|s.acquired|] == Answer(t, decision)
            && r.owner.None? && r.engine == engine
  {
    hide RunSteps, After, Decide, Inv;
    var s := RunSteps(src, e, before);
    var taken := before + [Enter(t, call)] + [Acquire(t)];
    RunSnoc(src, e, before, Enter(t, call));
    RunSnoc(src, e, before + [Enter(t, call)], Acquire(t));
    TakesLock(src, s, t, call);
    OwnerFinishes(src, e, taken, t);
    Linearizable(src, e, before);
    Linearizable(src, e, taken + Completion(t));
    DecisionRuns.RunSnoc(src, e, s.acquired, call);
  }

  /** A call enters with the turns answered by then, and takes its turn with them. */
  lemma EntersAfter(src: Source, s: System, t: Thread, call: Call)
    ensures var r := After(src, s, Enter(t, call));
            if PcOf(s, t) == Outside
            then r == s.(pcs := r.pcs) && PcOf(r, t) == Waiting(call, s.returned.Keys)
                 && forall u: Thread :: u != t ==> PcOf(r, u) == PcOf(s, u)
            else r == s
    ensures PcOf(s, t).Waiting? && s.owner.None? ==>
              var r := After(src, s, Acquire(t));
              && r.acquired == s.acquired + [PcOf(s, t).call] && r.callers == s.callers + [t]
              && r.preceding == s.preceding + [PcOf(s, t).seen]
  {
  }

  lemma GrowsStep(src: Source, e: Engine, s: System, step: Step)
    requires Inv(src, e, s)
    ensures var r := After(src, s, step);
            && s.acquired <= r.acquired && s.callers <= r.callers && s.preceding <= r.preceding
            && forall i <- s.returned :: i in r.returned && r.returned[i] == s.returned[i]
  {
    hide Decide, Replied, Ordered, EvaluatePolicies;
    if step.Release? && PcOf(s, step.t).Saved? {
      assert Critical(PcOf(s, step.t));
      assert s.owner == Some(step.t);
    }
  }

  /** Turns in real time: as a run goes on, turns keep their calls, their callers and their answers, so that every turn
      taken later than a moment comes after all the turns answered by that moment. */
  lemma {:induction false} TurnsInRealTime(src: Source, e: Engine, before: seq<Step>, later: seq<Step>)
    requires Filed(e.states)
    ensures var s, r := RunSteps(src, e, before), RunSteps(src, e, before + later);
            && s.acquired <= r.acquired && s.callers <= r.callers && s.preceding <= r.preceding
            && (forall i <- s.returned :: i < |s.acquired| && i in r.returned && r.returned[i] == s.returned[i])
    decreases |later|
  {
    hide RunSteps, After, Decide, Inv;
    if later == [] {
      assert before + later == before;
      Linearizable(src, e, before);
    } else {
      var front, step := later[..|later| - 1], later[|later| - 1];
      TurnsInRealTime(src, e, before, front);
      assert before + later == (before + front) + [step];
      RunSnoc(src, e, before + front, step);
      AlwaysInv(src, e, before + front);
      GrowsStep(src, e, RunSteps(src, e, before + front), step);
    }
  }
}
