/** The decision laws carried over to whole runs of the simulator: requests mixed with management. */
module DataPlaneRuns {
  import opened Models
  import opened Keyed
  import opened Matcher
  import opened Decision
  import opened Store
  import opened Integrity
  import opened Validation
  import DecisionRuns
  import Headers

  /** The operation cannot clear any counter. */
  predicate KeepsCounters(op: Op) {
    !op.ResetState? && !op.DeleteRule? && !(op.Import? && !op.dryRun)
  }

  /** The engine calls the run makes, in order, each with the version of the rule in force at the time. */
  ghost function CallsOf(src: Source, s: Store, ops: seq<Op>): seq<Call>
    decreases |ops|
  {
    if ops == [] then []
    else
      var rest := CallsOf(src, Step(src, s, ops[0]).0, ops[1..]);
      if ops[0].Serve? && FindMatchingRule(s.rules, ops[0].verb, ops[0].path).Some?
      then [Call(FindMatchingRule(s.rules, ops[0].verb, ops[0].path).value, ops[0].now)] + rest
      else rest
  }

  /** The decision in a reply, if there is one. */
  function DecisionIn(reply: Reply): seq<RuleDecision> {
    if reply.Served? && reply.match_.Some? then [reply.match_.value] else []
  }

  /** The decisions among the replies, in order. */
  function DecisionsIn(replies: seq<Reply>): seq<RuleDecision>
    decreases |replies|
  {
    if replies == [] then [] else DecisionIn(replies[0]) + DecisionsIn(replies[1..])
  }

  function EngineOf(s: Store): Engine { Engine(s.states, s.draws) }

  lemma ManagementKeepsEngine(src: Source, s: Store, op: Op)
    requires KeepsCounters(op) && !op.Serve?
    ensures EngineOf(Step(src, s, op).0) == EngineOf(s)
    ensures !Step(src, s, op).1.Served?
  {
  }

  lemma ServeIsOneCall(src: Source, s: Store, op: Op)
    requires op.Serve?
    ensures var found := FindMatchingRule(s.rules, op.verb, op.path);
            var (after, reply) := Step(src, s, op);
            if found.Some?
            then
              var (engine, decision) := Decide(src, EngineOf(s), Call(found.value, op.now));
              EngineOf(after) == engine && reply == Served(Some(decision))
            else after == s && reply == Served(None)
  {
  }

  lemma RunCons(src: Source, e: Engine, c: Call, rest: seq<Call>)
    ensures var (next, d) := Decide(src, e, c);
            RunCalls(src, e, [c] + rest)
            == Run(RunCalls(src, next, rest).engine, [d] + RunCalls(src, next, rest).decisions)
  {
    DecisionRuns.RunSplits(src, e, [c], rest);
    DecisionRuns.RunSnoc(src, e, [], c);
    assert [] + [c] == [c];
  }

  /** Between clearings, the counters, the generator and the decisions of a whole run are those of its engine calls
      run in order: rule edits, toggles, project changes, exports and unmatched requests leave no trace. */
  lemma {:induction false} RunIsEngineRun(src: Source, s: Store, ops: seq<Op>)
    requires forall op <- ops :: KeepsCounters(op)
    ensures var (last, replies) := RunOps(src, s, ops);
            RunCalls(src, EngineOf(s), CallsOf(src, s, ops)) == Run(EngineOf(last), DecisionsIn(replies))
    decreases |ops|
  {
    hide Decide, Step;
    if ops != [] {
      var op := ops[0];
      RunIsEngineRun(src, Step(src, s, op).0, ops[1..]);
      if op.Serve? {
        ServeIsOneCall(src, s, op);
        var found := FindMatchingRule(s.rules, op.verb, op.path);
        if found.Some? {
          RunCons(src, EngineOf(s), Call(found.value, op.now), CallsOf(src, Step(src, s, op).0, ops[1..]));
        }
      } else {
        ManagementKeepsEngine(src, s, op);
      }
    }
  }

  // Runs in which one rule keeps its behaviour and its counters.

  /** The operation neither edits rule `id` nor clears its counters. It may serve or toggle the rule, and change, reset
      or delete other rules and projects. */
  predicate Untouched(op: Op, id: Uuid) {
    LeavesCounters(op, id) && !(op.UpdateRule? && op.id == id)
  }

  /** The stored version of the rule has this behaviour. */
  predicate InForce(rules: seq<FailureRule>, rule: FailureRule) {
    var found := Find(rules, RuleKey, rule.id);
    found.Some? && found.value.data.behavior == rule.data.behavior
  }

  lemma StaysInForce(src: Source, s: Store, op: Op, rule: FailureRule)
    requires InForce(s.rules, rule) && Untouched(op, rule.id)
    ensures InForce(Step(src, s, op).0.rules, rule)
  {
    hide Decide;
    match op
    case CreateRule(id, payload) =>
      FindAfterAppend(s.rules, RuleKey, rule.id, FailureRule(id, NormalizedRule(payload)));
    case CreateFromTemplate(id, template, form) =>
      if template.Some? {
        FindAfterAppend(s.rules, RuleKey, rule.id, FailureRule(id, FromTemplate(template.value, form)));
      }
    case UpdateRule(id, payload) =>
      FindAfterReplace(s.rules, RuleKey, rule.id, id, FailureRule(id, NormalizedRule(payload)));
    case SetEnabled(id, enabled) =>
      FindSpec(s.rules, RuleKey, id);
      var found := Find(s.rules, RuleKey, id);
      if found.Some? {
        FindAfterReplace(s.rules, RuleKey, rule.id, id, found.value.(data := found.value.data.(enabled := enabled)));
      }
    case DeleteRule(id) => FindAfterRemove(s.rules, RuleKey, rule.id, id);
    case _ =>
  }

  /** One operation decides once for the rule, on the behaviour in force, or leaves its counters alone. */
  lemma OneOperation(src: Source, s: Store, op: Op, rule: FailureRule) returns (own: Option<Call>)
    requires Intact(s) && InForce(s.rules, rule) && Untouched(op, rule.id)
    ensures var (after, reply) := Step(src, s, op);
            match own
            case None =>
              && DecisionsFor(DecisionIn(reply), rule.id) == []
              && Current(after.states, rule.id) == Current(s.states, rule.id)
            case Some(c) =>
              var (engine, d) := Decide(src, EngineOf(s), c);
              && DecisionRuns.Follows(c, rule)
              && DecisionsFor(DecisionIn(reply), rule.id) == [d] && EngineOf(after) == engine
  {
    hide Decide, Step;
    if op.Serve? {
      own := OneRequest(src, s, op, rule);
    } else {
      own := None;
      ManagementLeavesCounters(src, s, op, rule.id);
      ManagementDecidesNothing(src, s, op);
    }
  }

  lemma ManagementDecidesNothing(src: Source, s: Store, op: Op)
    requires !op.Serve?
    ensures !Step(src, s, op).1.Served?
  {
  }

  lemma OneRequest(src: Source, s: Store, op: Op, rule: FailureRule) returns (own: Option<Call>)
    requires Intact(s) && InForce(s.rules, rule) && op.Serve?
    ensures var (after, reply) := Step(src, s, op);
            match own
            case None =>
              && DecisionsFor(DecisionIn(reply), rule.id) == []
              && Current(after.states, rule.id) == Current(s.states, rule.id)
            case Some(c) =>
              var (engine, d) := Decide(src, EngineOf(s), c);
              && DecisionRuns.Follows(c, rule)
              && DecisionsFor(DecisionIn(reply), rule.id) == [d] && EngineOf(after) == engine
  {
    hide Decide, Step, Current;
    own := None;
    ServeIsOneCall(src, s, op);
    var found := FindMatchingRule(s.rules, op.verb, op.path);
    if found.Some? {
      var c := Call(found.value, op.now);
      var d := Decide(src, EngineOf(s), c).1;
      DecisionRuns.DecideOther(src, EngineOf(s), c, rule.id);
      DecisionRuns.SelectSnoc([], c, [], d, rule.id);
      assert [] + [d] == [d];
      if found.value.id == rule.id {
        var k := FoundServes(s.rules, op.verb, op.path);
        FindOwn(s.rules, RuleKey, found.value);
        own := Some(c);
      }
    }
  }

  /** The closed form relative to counters (m, s0) at some earlier point. */
  lemma {:induction false} ClosedFormFrom(src: Source, s: Store, ops: seq<Op>, rule: FailureRule, m: nat, s0: nat)
    requires Intact(s) && AdmissibleRun(src, s, ops) && InForce(s.rules, rule) && Deterministic(rule)
    requires forall op <- ops :: Untouched(op, rule.id)
    requires var now := Current(s.states, rule.id);
             && m <= now.matched
             && now.simulated == DecisionRuns.Capped(rule.data.behavior.maxSimulations, s0,
                                                     DecisionRuns.Hits(src, rule, m, now.matched))
    ensures var now := Current(s.states, rule.id);
            var (last, replies) := RunOps(src, s, ops);
            var own := DecisionsFor(DecisionsIn(replies), rule.id);
            var after := Current(last.states, rule.id);
            && after.matched == now.matched + |own|
            && after.simulated == DecisionRuns.Capped(rule.data.behavior.maxSimulations, s0,
                                                      DecisionRuns.Hits(src, rule, m, after.matched))
            && DecisionRuns.AsPredicted(src, rule, m, s0, now.matched, own)
    decreases |ops|
  {
    hide Decide, Step, Intact, Current, Untouched, InForce, Deterministic;
    hide DecisionRuns.Capped, DecisionRuns.Hits, DecisionRuns.ReasonAt, DecisionRuns.Follows, DecisionRuns.AsPredicted;
    if ops == [] {
      NothingPredicted(src, rule, m, s0, Current(s.states, rule.id).matched);
    } else {
      var op, rest := ops[0], ops[1..];
      var (next, reply) := Step(src, s, op);
      IntactFiled(s);
      StepKeepsIntact(src, s, op);
      StaysInForce(src, s, op, rule);
      var own := OneOperation(src, s, op, rule);
      if own.Some? {
        DecisionRuns.ClosedFormStep(src, EngineOf(s), own.value, rule, m, s0);
      }
      ClosedFormFrom(src, next, rest, rule, m, s0);
      var later := DecisionsFor(DecisionsIn(RunOps(src, next, rest).1), rule.id);
      if own.Some? {
        DecisionRuns.PredictedCons(src, rule, m, s0, Current(s.states, rule.id).matched,
                                   Decide(src, EngineOf(s), own.value).1, later);
      } else {
        assert [] + later == later;
      }
      DecisionRuns.DecisionsForSplits(DecisionIn(reply), DecisionsIn(RunOps(src, next, rest).1), rule.id);
    }
  }

  lemma NothingPredicted(src: Source, rule: FailureRule, m: nat, s0: nat, k: nat)
    ensures DecisionRuns.AsPredicted(src, rule, m, s0, k, [])
  {
  }

  lemma IntactFiled(s: Store)
    requires Intact(s)
    ensures Filed(s.states)
  {
  }

  /** End to end: over any run of the simulator that neither edits the rule nor clears its counters, a stored seeded or
      certain rule counts its requests, ends with the closed-form number of simulations, and answers each of its
      requests for the closed-form reason, from whatever counters it starts with. Toggling it, and editing, resetting
      or deleting other rules makes no difference. */
  lemma EndToEndClosedForm(src: Source, s: Store, ops: seq<Op>, rule: FailureRule)
    requires Intact(s) && AdmissibleRun(src, s, ops)
    requires Find(s.rules, RuleKey, rule.id) == Some(rule) && Deterministic(rule)
    requires forall op <- ops :: Untouched(op, rule.id)
    ensures var was := Current(s.states, rule.id);
            var (last, replies) := RunOps(src, s, ops);
            var own := DecisionsFor(DecisionsIn(replies), rule.id);
            var after := Current(last.states, rule.id);
            var hits := DecisionRuns.Hits(src, rule, was.matched, after.matched);
            var limit := rule.data.behavior.maxSimulations;
            && after.matched == was.matched + |own|
            && after.simulated == DecisionRuns.Capped(limit, was.simulated, hits)
            && (rule.id !in s.states ==>
                  after.simulated == if limit.Some? && limit.value < hits then limit.value else hits)
            && DecisionRuns.AsPredicted(src, rule, was.matched, was.simulated, was.matched, own)
  {
    hide Decide, Step, Untouched;
    var was := Current(s.states, rule.id);
    FindSpec(s.rules, RuleKey, rule.id);
    DecisionRuns.NothingCapped(src, rule, was.matched, was.simulated);
    ClosedFormFrom(src, s, ops, rule, was.matched, was.simulated);
  }

  // The limit across edits.

  /** An update with this payload replaces the stored rule. */
  ghost predicate Accepted(s: Store, id: Uuid, payload: RuleCreate) {
    ValidRule(payload, false) && KnownProject(s.projects, payload.projectId) && Find(s.rules, RuleKey, id).Some?
  }

  lemma LimitStep(src: Source, e: Engine, c: Call, rule: FailureRule, limit: int)
    requires Filed(e.states) && DecisionRuns.Follows(c, rule) && rule.data.behavior.maxSimulations == Some(limit)
    ensures var was, after := Current(e.states, rule.id), Current(Decide(src, e, c).0.states, rule.id);
            && was.matched <= after.matched && was.simulated <= after.simulated
            && after.simulated <= if was.simulated > limit then was.simulated else limit
  {
  }

  lemma {:induction false} LimitInForce(src: Source, s: Store, ops: seq<Op>, rule: FailureRule, limit: int)
    requires Intact(s) && AdmissibleRun(src, s, ops) && InForce(s.rules, rule)
    requires rule.data.behavior.maxSimulations == Some(limit)
    requires forall op <- ops :: Untouched(op, rule.id)
    ensures var was, after := Current(s.states, rule.id), Current(RunOps(src, s, ops).0.states, rule.id);
            && was.matched <= after.matched && was.simulated <= after.simulated
            && after.simulated <= if was.simulated > limit then was.simulated else limit
    decreases |ops|
  {
    hide Decide, Step, Intact, Current, Untouched, InForce;
    if ops != [] {
      IntactFiled(s);
      StepKeepsIntact(src, s, ops[0]);
      StaysInForce(src, s, ops[0], rule);
      var own := OneOperation(src, s, ops[0], rule);
      if own.Some? {
        LimitStep(src, EngineOf(s), own.value, rule, limit);
      }
      LimitInForce(src, Step(src, s, ops[0]).0, ops[1..], rule, limit);
    }
  }

  lemma AcceptedEdit(src: Source, s: Store, id: Uuid, payload: RuleCreate)
    requires Accepted(s, id, payload)
    ensures var after := Step(src, s, Op.UpdateRule(id, payload)).0;
            && InForce(after.rules, FailureRule(id, NormalizedRule(payload)))
            && after.states == s.states
  {
    FindAfterReplace(s.rules, RuleKey, id, id, FailureRule(id, NormalizedRule(payload)));
  }

  /** An accepted edit to a limit, followed by anything that neither edits the rule again nor clears its counters: the
      count ends within the limit exactly when it was within the limit at the edit, and it never passes the larger of
      the two. */
  lemma LimitAfterEdit(src: Source, s: Store, id: Uuid, payload: RuleCreate, later: seq<Op>)
    requires Intact(s) && Accepted(s, id, payload) && payload.behavior.maxSimulations.Some?
    requires AdmissibleRun(src, s, [Op.UpdateRule(id, payload)] + later)
    requires forall op <- later :: Untouched(op, id)
    ensures var limit := payload.behavior.maxSimulations.value;
            var was := Current(s.states, id);
            var after := Current(RunOps(src, s, [Op.UpdateRule(id, payload)] + later).0.states, id);
            && (after.simulated <= limit <==> was.simulated <= limit)
            && was.matched <= after.matched && was.simulated <= after.simulated
            && after.simulated <= if was.simulated > limit then was.simulated else limit
  {
    hide Decide, Step, Intact, Untouched, InForce, Accepted;
    var edit := Op.UpdateRule(id, payload);
    var next := Step(src, s, edit).0;
    assert ([edit] + later)[1..] == later;
    StepKeepsIntact(src, s, edit);
    AcceptedEdit(src, s, id, payload);
    LimitInForce(src, next, later, FailureRule(id, NormalizedRule(payload)), payload.behavior.maxSimulations.value);
  }

  predicate RuleWithinLimit(states: map<Uuid, RuleRuntimeState>, r: FailureRule) {
    var limit := r.data.behavior.maxSimulations;
    limit.Some? ==> Current(states, r.id).simulated <= limit.value
  }

  /** `simulated_count <= max_simulations` for every stored rule. */
  predicate WithinLimits(s: Store) { forall r <- s.rules :: RuleWithinLimit(s.states, r) }

  /** An update that will be accepted and whose limit is below what the rule has already simulated. */
  ghost predicate TightEdit(s: Store, op: Op) {
    && op.UpdateRule? && Accepted(s, op.id, op.payload)
    && op.payload.behavior.maxSimulations.Some?
    && Current(s.states, op.id).simulated > op.payload.behavior.maxSimulations.value
  }

  lemma NewRuleWithin(s: Store, id: Uuid, data: RuleCreate)
    requires Intact(s) && WithinLimits(s) && id !in Ids(s.rules, RuleKey) && Stored(data)
    ensures WithinLimits(AddRule(s, id, data).0)
  {
  }

  lemma ReplacedRuleWithin(s: Store, rule: FailureRule)
    requires WithinLimits(s) && Find(s.rules, RuleKey, rule.id).Some?
    ensures WithinLimits(s.(rules := ReplaceFirst(s.rules, RuleKey, rule.id, rule)))
            <==> RuleWithinLimit(s.states, rule)
  {
    ReplaceKeepsIds(s.rules, RuleKey, rule.id, rule);
    FindAfterReplace(s.rules, RuleKey, rule.id, rule.id, rule);
    FindSpec(ReplaceFirst(s.rules, RuleKey, rule.id, rule), RuleKey, rule.id);
  }

  lemma ToggledRuleWithin(s: Store, id: Uuid, enabled: bool)
    requires WithinLimits(s)
    ensures WithinLimits(Toggle(s, id, enabled).0)
  {
    FindSpec(s.rules, RuleKey, id);
    var found := Find(s.rules, RuleKey, id);
    if found.Some? {
      ReplacedRuleWithin(s, found.value.(data := found.value.data.(enabled := enabled)));
    }
  }

  lemma ClearedRulesWithin(s: Store, after: Store)
    requires Intact(s) && WithinLimits(s) && Intact(after)
    requires forall r <- after.rules :: r in s.rules || r.id !in after.states
    requires forall id <- after.states :: id in s.states && after.states[id] == s.states[id]
    ensures WithinLimits(after)
  {
    forall r | r in after.rules ensures RuleWithinLimit(after.states, r) {
      assert Stored(r.data);
    }
  }

  lemma DispatchedWithin(src: Source, s: Store, op: Op)
    requires Intact(s) && WithinLimits(s) && op.Serve?
    ensures WithinLimits(Step(src, s, op).0)
  {
    hide Decide, Step, Current;
    ServeIsOneCall(src, s, op);
    var found := FindMatchingRule(s.rules, op.verb, op.path);
    if found.Some? {
      var k := FoundServes(s.rules, op.verb, op.path);
      var c := Call(found.value, op.now);
      forall r | r in s.rules ensures RuleWithinLimit(Decide(src, EngineOf(s), c).0.states, r) {
        DecisionRuns.DecideOther(src, EngineOf(s), c, r.id);
        if r.id == found.value.id {
          FindOwn(s.rules, RuleKey, r);
          FindOwn(s.rules, RuleKey, found.value);
          if r.data.behavior.maxSimulations.Some? {
            LimitStep(src, EngineOf(s), c, r, r.data.behavior.maxSimulations.value);
          }
        }
      }
      assert Step(src, s, op).0.rules == s.rules by {
        RequestKeepsRules(src, s, op);
      }
    }
  }

  lemma RequestKeepsRules(src: Source, s: Store, op: Op)
    requires op.Serve?
    ensures Step(src, s, op).0.rules == s.rules
  {
    hide Decide;
  }

  /** One operation breaks `simulated_count <= max_simulations` exactly when it is an edit to a limit that is already
      passed. */
  lemma LimitStepExactly(src: Source, s: Store, op: Op)
    requires Intact(s) && Admissible(s, op) && WithinLimits(s)
    ensures WithinLimits(Step(src, s, op).0) <==> !TightEdit(s, op)
  {
    hide Decide, Intact, Current, Stored, RuleWithinLimit;
    StepKeepsIntact(src, s, op);
    match op
    case CreateRule(id, payload) =>
      if ValidRule(payload, false) {
        ValidationIsIdempotent(payload, false);
        NewRuleWithin(s, id, NormalizedRule(payload));
      }
    case CreateFromTemplate(id, template, form) =>
      if ValidForm(form) && template.Some? {
        TemplateRuleStored(template.value, form);
        NewRuleWithin(s, id, FromTemplate(template.value, form));
      }
    case UpdateRule(id, payload) => EditWithinExactly(src, s, id, payload);
    case SetEnabled(id, enabled) => ToggledRuleWithin(s, id, enabled);
    case DeleteRule(id) =>
      RemovedAreStored(s, id);
      ClearedRulesWithin(s, Step(src, s, op).0);
    case ResetState(_) => ClearedRulesWithin(s, Step(src, s, op).0);
    case Import(_, _) => ClearedRulesWithin(s, Step(src, s, op).0);
    case Serve(_, _, _) => DispatchedWithin(src, s, op);
    case _ =>
  }

  lemma RemovedAreStored(s: Store, id: Uuid)
    requires Intact(s)
    ensures forall r <- RemoveFirst(s.rules, RuleKey, id) :: r in s.rules
  {
    RemoveSpec(s.rules, RuleKey, id);
  }

  lemma TemplateRuleStored(t: FailureTemplate, form: RuleFromTemplateCreate)
    requires ValidForm(form) && StoredResponse(t.response) && t.name != ""
    ensures Stored(FromTemplate(t, form))
  {
    UpperIdempotent(form.target.verb);
  }

  lemma EditWithinExactly(src: Source, s: Store, id: Uuid, payload: RuleCreate)
    requires WithinLimits(s)
    ensures WithinLimits(Step(src, s, Op.UpdateRule(id, payload)).0) <==> !TightEdit(s, Op.UpdateRule(id, payload))
  {
    if Accepted(s, id, payload) {
      ReplacedRuleWithin(s, FailureRule(id, NormalizedRule(payload)));
    }
  }

  /** The limit holds at every point of the run. */
  ghost predicate AlwaysWithinLimits(src: Source, s: Store, ops: seq<Op>)
    decreases |ops|
  {
    WithinLimits(s) && (ops != [] ==> AlwaysWithinLimits(src, Step(src, s, ops[0]).0, ops[1..]))
  }

  ghost predicate NoTightEdit(src: Source, s: Store, ops: seq<Op>)
    decreases |ops|
  {
    ops != [] ==> !TightEdit(s, ops[0]) && NoTightEdit(src, Step(src, s, ops[0]).0, ops[1..])
  }

  /** From a configuration within its limits, `simulated_count <= max_simulations` holds for every rule at every point
      of a run exactly when no edit of the run sets a limit below what its rule has simulated by then. */
  lemma {:induction false} LimitInvariantExactly(src: Source, s: Store, ops: seq<Op>)
    requires Intact(s) && AdmissibleRun(src, s, ops) && WithinLimits(s)
    ensures AlwaysWithinLimits(src, s, ops) <==> NoTightEdit(src, s, ops)
    decreases |ops|
  {
    hide Decide, Step, Intact, WithinLimits, TightEdit;
    if ops != [] {
      var next := Step(src, s, ops[0]).0;
      LimitStepExactly(src, s, ops[0]);
      StepKeepsIntact(src, s, ops[0]);
      if WithinLimits(next) {
        LimitInvariantExactly(src, next, ops[1..]);
      } else {
        assert !AlwaysWithinLimits(src, next, ops[1..]);
      }
    }
  }

  // A run that breaks the limit.

  function Unlimited(): RuleCreate {
    RuleCreate("r", true, None, RequestMatch("GET", "/x"), SimulatedResponse(503, [], None, 0),
               RuleBehavior(1.0, 0, None, None))
  }

  function LimitedToOne(): RuleCreate { Unlimited().(behavior := RuleBehavior(1.0, 0, Some(1), None)) }

  lemma WitnessesStored()
    ensures ValidRule(Unlimited(), false) && NormalizedRule(Unlimited()) == Unlimited()
    ensures ValidRule(LimitedToOne(), false) && NormalizedRule(LimitedToOne()) == LimitedToOne()
  {
    assert Upper("GET") == "GET";
    assert !IsReservedPath("/x") by {
      assert |"/x"| < |CONTROL_PREFIX|;
    }
    assert Headers.Acceptable([]) && Headers.Normalized([]) == [];
  }

  lemma ServedBy(src: Source, s: Store, id: Uuid, now: Instant)
    requires s.rules == [FailureRule(id, Unlimited())] && Filed(s.states)
    ensures var after := Step(src, s, Serve("GET", "/x", now)).0;
            && after.rules == s.rules && after.projects == s.projects && Filed(after.states)
            && Current(after.states, id).simulated == Current(s.states, id).simulated + 1
  {
    assert Upper("GET") == "GET";
    assert FindMatchingRule(s.rules, "GET", "/x") == Some(s.rules[0]);
  }

  /** The limit is not an invariant: create a rule without a limit, serve it twice, then limit it to one simulation. */
  lemma LimitCanBeExceeded(src: Source, id: Uuid)
    ensures var empty := Store([], [], map[], 0);
            var ops := [CreateRule(id, Unlimited()), Serve("GET", "/x", 0), Serve("GET", "/x", 1),
                        Op.UpdateRule(id, LimitedToOne())];
            var last := RunOps(src, empty, ops).0;
            && Intact(empty) && AdmissibleRun(src, empty, ops) && WithinLimits(empty)
            && last.rules == [FailureRule(id, LimitedToOne())] && Current(last.states, id).simulated == 2
            && !WithinLimits(last)
  {
    hide Decide;
    WitnessesStored();
    var empty := Store([], [], map[], 0);
    var created := Step(src, empty, CreateRule(id, Unlimited())).0;
    assert created == Store([], [FailureRule(id, Unlimited())], map[], 0);
    var once := Step(src, created, Serve("GET", "/x", 0)).0;
    var twice := Step(src, once, Serve("GET", "/x", 1)).0;
    ServedBy(src, created, id, 0);
    ServedBy(src, once, id, 1);
    var edit := Op.UpdateRule(id, LimitedToOne());
    var last := Step(src, twice, edit).0;
    assert last.rules == [FailureRule(id, LimitedToOne())] && last.states == twice.states;
    assert last.rules[0] in last.rules;
    FourSteps(src, empty, CreateRule(id, Unlimited()), Serve("GET", "/x", 0), Serve("GET", "/x", 1), edit);
  }

  lemma FourSteps(src: Source, s: Store, a: Op, b: Op, c: Op, d: Op)
    ensures var s1 := Step(src, s, a).0;
            var s2 := Step(src, s1, b).0;
            var s3 := Step(src, s2, c).0;
            && RunOps(src, s, [a, b, c, d]).0 == Step(src, s3, d).0
            && (AdmissibleRun(src, s, [a, b, c, d]) <==>
                Admissible(s, a) && Admissible(s1, b) && Admissible(s2, c) && Admissible(s3, d))
  {
    hide Step, Admissible;
    OneStep(src, s, a, [b, c, d]);
    var s1 := Step(src, s, a).0;
    OneStep(src, s1, b, [c, d]);
    var s2 := Step(src, s1, b).0;
    OneStep(src, s2, c, [d]);
    OneStep(src, Step(src, s2, c).0, d, []);
    assert [a] + [b, c, d] == [a, b, c, d] && [b] + [c, d] == [b, c, d] && [c] + [d] == [c, d] && [d] + [] == [d];
  }

  lemma OneStep(src: Source, s: Store, op: Op, rest: seq<Op>)
    ensures var next := Step(src, s, op).0;
            && RunOps(src, s, [op] + rest).0 == RunOps(src, next, rest).0
            && (AdmissibleRun(src, s, [op] + rest) <==> Admissible(s, op) && AdmissibleRun(src, next, rest))
  {
    hide Step, Admissible;
    assert ([op] + rest)[0] == op && ([op] + rest)[1..] == rest;
  }
}
