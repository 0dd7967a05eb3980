/** One decision: the three ordered policies over a rule's counters, and runs of decisions. */
module Decision {
  import opened Models

  /** SHA-256 of (rule id, seed, match number) scaled to a sample, and the shared generator's draws in order. */
  datatype Source = Source(hash: (Uuid, int, nat) -> real, stream: nat -> real)

  datatype RuleDecision = RuleDecision(simulate: bool, reason: DecisionReason, ruleId: Uuid, state: RuleRuntimeState)

  /** The persistent counters and the position of the shared generator. */
  datatype Engine = Engine(states: map<Uuid, RuleRuntimeState>, draws: nat)

  datatype Call = Call(rule: FailureRule, now: Instant)

  datatype Run = Run(engine: Engine, decisions: seq<RuleDecision>)

  function Current(states: map<Uuid, RuleRuntimeState>, id: Uuid): RuleRuntimeState {
    if id in states then states[id] else FreshState(id)
  }

  /** A sample and the generator position after it; seeded rules do not touch the generator. */
  function Sample(src: Source, rule: FailureRule, matched: nat, draws: nat): (real, nat) {
    match rule.data.behavior.seed
    case None => (src.stream(draws), draws + 1)
    case Some(seed) => (src.hash(rule.id, seed, matched), draws)
  }

  function SkipMatchesPolicy(rule: FailureRule, state: RuleRuntimeState): Option<DecisionReason> {
    if state.matched <= rule.data.behavior.skipMatches then Some(SkipMatch) else None
  }

  function CountLimitPolicy(rule: FailureRule, state: RuleRuntimeState): Option<DecisionReason> {
    var limit := rule.data.behavior.maxSimulations;
    if limit.Some? && state.simulated >= limit.value then Some(CountExhausted) else None
  }

  function ProbabilityPolicy(src: Source, rule: FailureRule, state: RuleRuntimeState, draws: nat)
    : (Option<DecisionReason>, nat)
  {
    var probability := rule.data.behavior.probability;
    if probability == 1.0 then (None, draws)
    else
      var (sample, after) := Sample(src, rule, state.matched, draws);
      (if sample >= probability then Some(ProbabilityMiss) else None, after)
  }

  /** The first policy with an objection decides; a later policy is not consulted. */
  function EvaluatePolicies(src: Source, rule: FailureRule, state: RuleRuntimeState, draws: nat)
    : (DecisionReason, nat)
  {
    var skip := SkipMatchesPolicy(rule, state);
    if skip.Some? then (skip.value, draws) else
    var limit := CountLimitPolicy(rule, state);
    if limit.Some? then (limit.value, draws) else
    var (miss, after) := ProbabilityPolicy(src, rule, state, draws);
    if miss.Some? then (miss.value, after)
    else (if rule.data.behavior.probability < 1.0 then ProbabilityHit else Always, after)
  }

  /** Why a rule with these counters, the present match included, is given `reason`, and how far the generator moves:
      skipped inside the skip window; exhausted past it with the limit reached; otherwise eligible, and then simulated
      exactly if certain or if the sample is below the probability. The sample is the hash of the match number for a
      seeded rule, and for an unseeded one the generator's next draw, which only an eligible uncertain rule takes. */
  ghost predicate Justified(src: Source, rule: FailureRule, state: RuleRuntimeState, draws: nat,
                            reason: DecisionReason, after: nat)
  {
    var b := rule.data.behavior;
    var skipped := state.matched <= b.skipMatches;
    var reached := b.maxSimulations.Some? && state.simulated >= b.maxSimulations.value;
    var eligible := !skipped && !reached;
    var sample := if b.seed.Some? then src.hash(rule.id, b.seed.value, state.matched) else src.stream(draws);
    && (reason == SkipMatch <==> skipped)
    && (reason == CountExhausted <==> !skipped && reached)
    && (reason == ProbabilityMiss <==> eligible && b.probability != 1.0 && sample >= b.probability)
    && (reason == ProbabilityHit <==> eligible && b.probability < 1.0 && sample < b.probability)
    && (reason == Always <==> eligible && (b.probability == 1.0 || (b.probability > 1.0 && sample < b.probability)))
    && after == draws + (if eligible && b.probability != 1.0 && b.seed.None? then 1 else 0)
  }

  /** The three policies in order, each consulted only if the earlier ones have no objection, give the one justified
      reason. */
  lemma JustifiedExactly(src: Source, rule: FailureRule, state: RuleRuntimeState, draws: nat,
                         reason: DecisionReason, after: nat)
    ensures Justified(src, rule, state, draws, reason, after)
            <==> (reason, after) == EvaluatePolicies(src, rule, state, draws)
  {
    var (given, moved) := EvaluatePolicies(src, rule, state, draws);
    assert Justified(src, rule, state, draws, given, moved);
  }

  function Decide(src: Source, e: Engine, c: Call): (Engine, RuleDecision) {
    var current := Current(e.states, c.rule.id);
    var matched := current.(matched := current.matched + 1);
    var (reason, draws) := EvaluatePolicies(src, c.rule, matched, e.draws);
    var state :=
      if Simulates(reason) then matched.(simulated := matched.simulated + 1, lastTriggered := Some(c.now))
      else matched;
    (Engine(e.states[state.ruleId := state], draws), RuleDecision(Simulates(reason), reason, c.rule.id, state))
  }

  /** The sequential run of the calls in order. */
  function RunCalls(src: Source, e: Engine, calls: seq<Call>): (r: Run)
    ensures |r.decisions| == |calls|
    decreases |calls|
  {
    if calls == [] then Run(e, [])
    else
      var before := RunCalls(src, e, calls[..|calls| - 1]);
      var (after, d) := Decide(src, before.engine, calls[|calls| - 1]);
      Run(after, before.decisions + [d])
  }

  /** Every stored row is filed under its own rule id. */
  ghost predicate Filed(states: map<Uuid, RuleRuntimeState>) {
    forall id <- states :: states[id].ruleId == id
  }

  function CallsTo(calls: seq<Call>, id: Uuid): seq<Call>
    decreases |calls|
  {
    if calls == [] then []
    else
      var last := calls[|calls| - 1];
      CallsTo(calls[..|calls| - 1], id) + (if last.rule.id == id then [last] else [])
  }

  function DecisionsFor(decisions: seq<RuleDecision>, id: Uuid): seq<RuleDecision>
    decreases |decisions|
  {
    if decisions == [] then []
    else
      var last := decisions[|decisions| - 1];
      DecisionsFor(decisions[..|decisions| - 1], id) + (if last.ruleId == id then [last] else [])
  }

  /** No generator draw can influence decisions on this version of the rule. */
  predicate Deterministic(rule: FailureRule) {
    rule.data.behavior.probability == 1.0 || rule.data.behavior.seed.Some?
  }
}
