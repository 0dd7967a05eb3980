/** Laws of decision runs: closed form, phases, monotonicity, non-interference, replay and restart. */
module DecisionRuns {
  import opened Models
  import opened Decision

  // Runs as a whole.

  lemma {:induction false} RunKeepsFiled(src: Source, e: Engine, calls: seq<Call>)
    requires Filed(e.states)
    ensures Filed(RunCalls(src, e, calls).engine.states)
    ensures forall i :: 0 <= i < |calls| ==> RunCalls(src, e, calls).decisions[i].ruleId == calls[i].rule.id
    decreases |calls|
  {
    if calls != [] {
      RunKeepsFiled(src, e, calls[..|calls| - 1]);
    }
  }

  lemma {:induction false} RunSplits(src: Source, e: Engine, a: seq<Call>, b: seq<Call>)
    ensures var first := RunCalls(src, e, a);
            var second := RunCalls(src, first.engine, b);
            RunCalls(src, e, a + b) == Run(second.engine, first.decisions + second.decisions)
    decreases |b|
  {
    if b == [] {
      assert a + b == a;
    } else {
      var n := |b| - 1;
      RunSplits(src, e, a, b[..n]);
      assert (a + b)[..|a + b| - 1] == a + b[..n];
    }
  }

  // Non-interference.

  /** A deterministic decision depends on the rule's own counters only. */
  lemma DecideAlone(src: Source, src': Source, e: Engine, e': Engine, c: Call)
    requires Deterministic(c.rule) && src.hash == src'.hash
    requires Current(e.states, c.rule.id) == Current(e'.states, c.rule.id)
    ensures Decide(src, e, c).1 == Decide(src', e', c).1
    ensures Decide(src, e, c).0.draws == e.draws
  {
  }

  lemma DecideOther(src: Source, e: Engine, c: Call, id: Uuid)
    requires Filed(e.states)
    ensures Decide(src, e, c).1.ruleId == c.rule.id
    ensures Filed(Decide(src, e, c).0.states)
    ensures c.rule.id != id ==> Current(Decide(src, e, c).0.states, id) == Current(e.states, id)
    ensures c.rule.id == id ==> Current(Decide(src, e, c).0.states, id) == Decide(src, e, c).1.state
  {
  }

  lemma RunSnoc(src: Source, e: Engine, calls: seq<Call>, c: Call)
    ensures var before := RunCalls(src, e, calls);
            var (after, d) := Decide(src, before.engine, c);
            RunCalls(src, e, calls + [c]) == Run(after, before.decisions + [d])
  {
    assert (calls + [c])[..|calls + [c]| - 1] == calls;
  }

  lemma SelectSnoc(calls: seq<Call>, c: Call, decisions: seq<RuleDecision>, d: RuleDecision, id: Uuid)
    ensures CallsTo(calls + [c], id) == if c.rule.id == id then CallsTo(calls, id) + [c] else CallsTo(calls, id)
    ensures DecisionsFor(decisions + [d], id) ==
            if d.ruleId == id then DecisionsFor(decisions, id) + [d] else DecisionsFor(decisions, id)
  {
    assert (calls + [c])[..|calls + [c]| - 1] == calls;
    assert (decisions + [d])[..|decisions + [d]| - 1] == decisions;
  }

  /** However many other rules are called in between, the decisions and the counters of a deterministic rule are
      those of its own calls run alone, from any engine that agrees on its counters. */
  lemma {:induction false} NonInterference(src: Source, e: Engine, calls: seq<Call>, id: Uuid, alone: Engine)
    requires Filed(e.states) && Filed(alone.states) && Current(alone.states, id) == Current(e.states, id)
    requires forall c <- calls :: c.rule.id == id ==> Deterministic(c.rule)
    ensures var whole := RunCalls(src, e, calls);
            var own := RunCalls(src, alone, CallsTo(calls, id));
            && DecisionsFor(whole.decisions, id) == own.decisions
            && Current(whole.engine.states, id) == Current(own.engine.states, id)
            && own.engine.draws == alone.draws
    decreases |calls|
  {
    if calls != [] {
      var front, c := calls[..|calls| - 1], calls[|calls| - 1];
      assert calls == front + [c];
      var before := RunCalls(src, e, front);
      var single := RunCalls(src, alone, CallsTo(front, id));
      NonInterference(src, e, front, id, alone);
      RunKeepsFiled(src, e, front);
      RunKeepsFiled(src, alone, CallsTo(front, id));
      NonInterferenceStep(src, before.engine, single.engine, c, id);
      RunSnoc(src, e, front, c);
      RunSnoc(src, alone, CallsTo(front, id), c);
      SelectSnoc(front, c, before.decisions, Decide(src, before.engine, c).1, id);
    }
  }

  lemma NonInterferenceStep(src: Source, e: Engine, alone: Engine, c: Call, id: Uuid)
    requires Filed(e.states) && Filed(alone.states) && Current(alone.states, id) == Current(e.states, id)
    requires c.rule.id == id ==> Deterministic(c.rule)
    ensures var (after, d) := Decide(src, e, c);
            var (after', d') := Decide(src, alone, c);
            && d.ruleId == c.rule.id
            && (c.rule.id != id ==> Current(after.states, id) == Current(alone.states, id))
            && (c.rule.id == id ==>
                  d == d' && Current(after.states, id) == Current(after'.states, id) && after'.draws == alone.draws)
  {
    DecideOther(src, e, c, id);
    DecideOther(src, alone, c, id);
    if c.rule.id == id {
      DecideAlone(src, src, e, alone, c);
      DecideAlone(src, src, alone, e, c);
    }
  }

  /** The decision consumed a draw: an unseeded rule with probability below one that got past skip and limit. */
  predicate Drew(c: Call, d: RuleDecision) {
    !Deterministic(c.rule) && d.reason !in {SkipMatch, CountExhausted}
  }

  function DrawsIn(calls: seq<Call>, decisions: seq<RuleDecision>): nat
    requires |calls| == |decisions|
    decreases |calls|
  {
    if calls == [] then 0
    else
      var n := |calls| - 1;
      DrawsIn(calls[..n], decisions[..n]) + (if Drew(calls[n], decisions[n]) then 1 else 0)
  }

  lemma DrawStep(src: Source, e: Engine, c: Call)
    ensures var (after, d) := Decide(src, e, c);
            && after.draws == e.draws + (if Drew(c, d) then 1 else 0)
            && (Drew(c, d) ==> (d.simulate <==> src.stream(e.draws) < c.rule.data.behavior.probability))
  {
  }

  lemma {:induction false} RunAt(src: Source, e: Engine, calls: seq<Call>, i: nat)
    requires i < |calls|
    ensures var front := RunCalls(src, e, calls[..i]);
            && RunCalls(src, e, calls).decisions[..i] == front.decisions
            && RunCalls(src, e, calls).decisions[i] == Decide(src, front.engine, calls[i]).1
    decreases |calls|
  {
    var front, c := calls[..|calls| - 1], calls[|calls| - 1];
    assert calls == front + [c];
    RunSnoc(src, e, front, c);
    if i < |front| {
      RunAt(src, e, front, i);
      assert front[..i] == calls[..i];
    }
  }

  lemma {:induction false} DrawTotal(src: Source, e: Engine, calls: seq<Call>)
    ensures var r := RunCalls(src, e, calls); r.engine.draws == e.draws + DrawsIn(calls, r.decisions)
    decreases |calls|
  {
    if calls != [] {
      var front, c := calls[..|calls| - 1], calls[|calls| - 1];
      assert calls == front + [c];
      DrawTotal(src, e, front);
      RunSnoc(src, e, front, c);
      var before := RunCalls(src, e, front);
      DrawStep(src, before.engine, c);
      DrawsSnoc(front, before.decisions, c, Decide(src, before.engine, c).1);
    }
  }

  lemma DrawsSnoc(calls: seq<Call>, decisions: seq<RuleDecision>, c: Call, d: RuleDecision)
    requires |calls| == |decisions|
    ensures DrawsIn(calls + [c], decisions + [d]) == DrawsIn(calls, decisions) + (if Drew(c, d) then 1 else 0)
  {
    assert (calls + [c])[..|calls|] == calls && (decisions + [d])[..|calls|] == decisions;
  }

  /** The generator advances once per unseeded decision that reaches the probability policy and for nothing else:
      such a decision gets the draw whose number is the count of its predecessors of that kind. */
  lemma DrawAccounting(src: Source, e: Engine, calls: seq<Call>, i: nat)
    requires i < |calls|
    ensures var r := RunCalls(src, e, calls);
            && r.engine.draws == e.draws + DrawsIn(calls, r.decisions)
            && (Drew(calls[i], r.decisions[i]) ==>
                  (r.decisions[i].simulate <==>
                   src.stream(e.draws + DrawsIn(calls[..i], r.decisions[..i]))
                   < calls[i].rule.data.behavior.probability))
  {
    hide Decide;
    DrawTotal(src, e, calls);
    DrawTotal(src, e, calls[..i]);
    RunAt(src, e, calls, i);
    DrawStep(src, RunCalls(src, e, calls[..i]).engine, calls[i]);
  }

  // Closed form of a rule with fixed behaviour.

  /** Match number `k` would be simulated if no limit applied. */
  predicate Counts(src: Source, rule: FailureRule, k: nat) {
    var b := rule.data.behavior;
    k > b.skipMatches && (b.probability == 1.0 || (b.seed.Some? && src.hash(rule.id, b.seed.value, k) < b.probability))
  }

  /** How many matches numbered in (from, until] count. */
  function Hits(src: Source, rule: FailureRule, from: nat, until: nat): nat {
    if until <= from then 0 else Hits(src, rule, from, until - 1) + (if Counts(src, rule, until) then 1 else 0)
  }

  /** A counter at `start` after `hits` more events, held at the limit but never lowered to it. */
  function Capped(limit: Option<int>, start: nat, hits: nat): nat {
    if limit.None? || start + hits <= limit.value then start + hits
    else if start >= limit.value then start else limit.value
  }

  /** The reason for match number `k` of a rule whose counters were (m, s). */
  function ReasonAt(src: Source, rule: FailureRule, m: nat, s: nat, k: nat): DecisionReason
    requires k > 0
  {
    var b := rule.data.behavior;
    if k <= b.skipMatches then SkipMatch
    else if b.maxSimulations.Some? && Capped(b.maxSimulations, s, Hits(src, rule, m, k - 1)) >= b.maxSimulations.value
    then CountExhausted
    else if !Counts(src, rule, k) then ProbabilityMiss
    else if b.probability < 1.0 then ProbabilityHit else Always
  }

  /** The call is for a version of the rule with the same behaviour; its name, target, response, project and enabled
      flag may be other ones. */
  predicate Follows(c: Call, rule: FailureRule) {
    c.rule.id == rule.id && c.rule.data.behavior == rule.data.behavior
  }

  /** No call is for a version of the rule with another behaviour. */
  predicate FixedBehavior(calls: seq<Call>, rule: FailureRule) {
    forall c <- calls :: c.rule.id == rule.id ==> Follows(c, rule)
  }

  lemma ClosedFormStep(src: Source, e: Engine, c: Call, rule: FailureRule, m: nat, s: nat)
    requires Filed(e.states) && Deterministic(rule) && Follows(c, rule)
    requires var now := Current(e.states, rule.id);
             m <= now.matched &&
             now.simulated == Capped(rule.data.behavior.maxSimulations, s, Hits(src, rule, m, now.matched))
    ensures var k := Current(e.states, rule.id).matched + 1;
            var (after, d) := Decide(src, e, c);
            && d.reason == ReasonAt(src, rule, m, s, k)
            && Current(after.states, rule.id).matched == k
            && Current(after.states, rule.id).simulated
               == Capped(rule.data.behavior.maxSimulations, s, Hits(src, rule, m, k))
  {
  }

  /** The decisions, of matches numbered from `k` + 1 on, are for the reasons the closed form predicts. */
  predicate AsPredicted(src: Source, rule: FailureRule, m: nat, s: nat, k: nat, decisions: seq<RuleDecision>) {
    forall i :: 0 <= i < |decisions| ==> decisions[i].reason == ReasonAt(src, rule, m, s, k + i + 1)
  }

  lemma NothingCapped(src: Source, rule: FailureRule, m: nat, s: nat)
    ensures s == Capped(rule.data.behavior.maxSimulations, s, Hits(src, rule, m, m))
    ensures AsPredicted(src, rule, m, s, m, [])
  {
  }

  lemma PredictedSnoc(src: Source, rule: FailureRule, m: nat, s: nat, k: nat, decisions: seq<RuleDecision>,
                      d: RuleDecision)
    requires AsPredicted(src, rule, m, s, k, decisions) && d.reason == ReasonAt(src, rule, m, s, k + |decisions| + 1)
    ensures AsPredicted(src, rule, m, s, k, decisions + [d])
  {
  }

  lemma PredictedCons(src: Source, rule: FailureRule, m: nat, s: nat, k: nat, d: RuleDecision,
                      decisions: seq<RuleDecision>)
    requires AsPredicted(src, rule, m, s, k + 1, decisions) && d.reason == ReasonAt(src, rule, m, s, k + 1)
    ensures AsPredicted(src, rule, m, s, k, [d] + decisions)
  {
    hide ReasonAt;
    forall i | 0 < i < |decisions| + 1
      ensures ([d] + decisions)[i].reason == ReasonAt(src, rule, m, s, k + i + 1)
    {
      assert ([d] + decisions)[i] == decisions[i - 1];
    }
  }

  lemma {:induction false} OwnClosedForm(src: Source, e: Engine, calls: seq<Call>, rule: FailureRule)
    requires Filed(e.states) && Deterministic(rule)
    requires forall c <- calls :: Follows(c, rule)
    ensures var was := Current(e.states, rule.id);
            var r := RunCalls(src, e, calls);
            && Current(r.engine.states, rule.id).matched == was.matched + |calls|
            && Current(r.engine.states, rule.id).simulated
               == Capped(rule.data.behavior.maxSimulations, was.simulated,
                         Hits(src, rule, was.matched, was.matched + |calls|))
            && AsPredicted(src, rule, was.matched, was.simulated, was.matched, r.decisions)
    decreases |calls|
  {
    hide Decide, AsPredicted, Capped, Hits, ReasonAt;
    var was := Current(e.states, rule.id);
    if calls == [] {
      NothingCapped(src, rule, was.matched, was.simulated);
    } else {
      var front, c := calls[..|calls| - 1], calls[|calls| - 1];
      assert calls == front + [c];
      OwnClosedForm(src, e, front, rule);
      RunKeepsFiled(src, e, front);
      var before := RunCalls(src, e, front);
      ClosedFormStep(src, before.engine, c, rule, was.matched, was.simulated);
      RunSnoc(src, e, front, c);
      PredictedSnoc(src, rule, was.matched, was.simulated, was.matched, before.decisions,
                    Decide(src, before.engine, c).1);
    }
  }

  lemma FixedIsDeterministic(calls: seq<Call>, rule: FailureRule)
    requires FixedBehavior(calls, rule) && Deterministic(rule)
    ensures forall c <- calls :: c.rule.id == rule.id ==> Deterministic(c.rule)
  {
  }

  /** Seeded closed form: whatever else is interleaved, the counters and every reason of a deterministic rule with
      fixed behaviour are a function of the number of its matches and its hash samples. */
  lemma SeededClosedForm(src: Source, e: Engine, calls: seq<Call>, rule: FailureRule)
    requires Filed(e.states) && Deterministic(rule)
    requires FixedBehavior(calls, rule)
    ensures var was := Current(e.states, rule.id);
            var r := RunCalls(src, e, calls);
            var own := DecisionsFor(r.decisions, rule.id);
            var b := rule.data.behavior;
            && |own| == |CallsTo(calls, rule.id)|
            && Current(r.engine.states, rule.id).matched == was.matched + |own|
            && Current(r.engine.states, rule.id).simulated
               == Capped(b.maxSimulations, was.simulated, Hits(src, rule, was.matched, was.matched + |own|))
            && AsPredicted(src, rule, was.matched, was.simulated, was.matched, own)
  {
    hide Decide, Hits, Capped, AsPredicted, Deterministic, Follows;
    FixedIsDeterministic(calls, rule);
    CallsToAre(calls, rule.id);
    NonInterference(src, e, calls, rule.id, e);
    OwnClosedForm(src, e, CallsTo(calls, rule.id), rule);
  }

  lemma {:induction false} CallsToAre(calls: seq<Call>, id: Uuid)
    ensures forall c :: c in CallsTo(calls, id) <==> c in calls && c.rule.id == id
    decreases |calls|
  {
    if calls != [] {
      CallsToAre(calls[..|calls| - 1], id);
      assert calls == calls[..|calls| - 1] + [calls[|calls| - 1]];
    }
  }

  /** From fresh counters: exactly min(max_simulations, eligible hits), hence never more than the limit. */
  lemma FreshClosedForm(src: Source, e: Engine, calls: seq<Call>, rule: FailureRule)
    requires Filed(e.states) && Deterministic(rule) && rule.id !in e.states
    requires FixedBehavior(calls, rule)
    ensures var n := |CallsTo(calls, rule.id)|;
            var simulated := Current(RunCalls(src, e, calls).engine.states, rule.id).simulated;
            var hits := Hits(src, rule, 0, n);
            match rule.data.behavior.maxSimulations
            case None => simulated == hits
            case Some(limit) => limit >= 0 ==> simulated == if hits < limit then hits else limit
  {
    SeededClosedForm(src, e, calls, rule);
  }

  // Phases.

  /** The skip window, then attempts, then exhaustion: no reason of an earlier phase ever returns. */
  ghost predicate Phased(reasons: seq<DecisionReason>, a: nat, b: nat) {
    && a <= b <= |reasons|
    && (forall i :: 0 <= i < a ==> reasons[i] == SkipMatch)
    && (forall i :: a <= i < b ==> reasons[i] in {Always, ProbabilityHit, ProbabilityMiss})
    && (forall i :: b <= i < |reasons| ==> reasons[i] == CountExhausted)
  }

  function Reasons(decisions: seq<RuleDecision>): (r: seq<DecisionReason>)
    ensures |r| == |decisions|
    ensures forall i :: 0 <= i < |r| ==> r[i] == decisions[i].reason
  {
    seq(|decisions|, i requires 0 <= i < |decisions| => decisions[i].reason)
  }

  /** Which phase the counters are in after `n` matches with boundaries `a` and `b`. */
  ghost predicate InPhase(state: RuleRuntimeState, behavior: RuleBehavior, n: nat, a: nat, b: nat) {
    && (a < n ==> state.matched > behavior.skipMatches)
    && (b < n ==> behavior.maxSimulations.Some? && state.simulated >= behavior.maxSimulations.value)
  }

  lemma PhaseStep(src: Source, e: Engine, c: Call, rule: FailureRule, reasons: seq<DecisionReason>, a: nat, b: nat)
    returns (a': nat, b': nat)
    requires Filed(e.states) && Follows(c, rule)
    requires Phased(reasons, a, b) && InPhase(Current(e.states, rule.id), rule.data.behavior, |reasons|, a, b)
    ensures var (after, d) := Decide(src, e, c);
            && Phased(reasons + [d.reason], a', b')
            && InPhase(Current(after.states, rule.id), rule.data.behavior, |reasons| + 1, a', b')
  {
    var (after, d) := Decide(src, e, c);
    var n := |reasons|;
    match d.reason
    case SkipMatch => a', b' := n + 1, n + 1;
    case CountExhausted => a', b' := a, b;
    case _ => a', b' := a, n + 1;
  }

  lemma ReasonsSnoc(decisions: seq<RuleDecision>, d: RuleDecision)
    ensures Reasons(decisions + [d]) == Reasons(decisions) + [d.reason]
  {
  }

  /** Every trace of fixed behaviour has the phase structure: any rule, seeded or not, from any counters, interleaved
      with anything. */
  lemma {:induction false} PhaseStructure(src: Source, e: Engine, calls: seq<Call>, rule: FailureRule)
    returns (a: nat, b: nat)
    requires Filed(e.states) && FixedBehavior(calls, rule)
    ensures var r := RunCalls(src, e, calls);
            var reasons := Reasons(DecisionsFor(r.decisions, rule.id));
            && Phased(reasons, a, b)
            && InPhase(Current(r.engine.states, rule.id), rule.data.behavior, |reasons|, a, b)
    decreases |calls|
  {
    hide Decide;
    if calls == [] {
      a, b := 0, 0;
    } else {
      var front, c := calls[..|calls| - 1], calls[|calls| - 1];
      assert calls == front + [c];
      var before := RunCalls(src, e, front);
      var d := Decide(src, before.engine, c).1;
      a, b := PhaseStructure(src, e, front, rule);
      RunKeepsFiled(src, e, front);
      RunSnoc(src, e, front, c);
      SelectSnoc(front, c, before.decisions, d, rule.id);
      DecideOther(src, before.engine, c, rule.id);
      if c.rule.id == rule.id {
        ReasonsSnoc(DecisionsFor(before.decisions, rule.id), d);
        a, b := PhaseStep(src, before.engine, c, rule, Reasons(DecisionsFor(before.decisions, rule.id)), a, b);
      }
    }
  }

  /** Exhaustion is absorbing and a skip is preceded by skips only, for every rule of fixed behaviour. */
  lemma ExhaustionAbsorbs(src: Source, e: Engine, calls: seq<Call>, rule: FailureRule, i: nat, j: nat)
    requires Filed(e.states) && FixedBehavior(calls, rule)
    requires i <= j < |DecisionsFor(RunCalls(src, e, calls).decisions, rule.id)|
    ensures var own := DecisionsFor(RunCalls(src, e, calls).decisions, rule.id);
            && (own[i].reason == CountExhausted ==> own[j].reason == CountExhausted)
            && (own[j].reason == SkipMatch ==> own[i].reason == SkipMatch)
  {
    hide Decide, RunCalls;
    var own := DecisionsFor(RunCalls(src, e, calls).decisions, rule.id);
    var a, b := PhaseStructure(src, e, calls, rule);
    assert Reasons(own)[i] == own[i].reason && Reasons(own)[j] == own[j].reason;
  }

  lemma {:induction false} CertainHits(src: Source, rule: FailureRule, n: nat)
    requires rule.data.behavior.probability == 1.0 && rule.data.behavior.skipMatches >= 0
    ensures var skip := rule.data.behavior.skipMatches;
            Hits(src, rule, 0, n) == if n <= skip then 0 else n - skip
    decreases n
  {
    if n > 0 {
      CertainHits(src, rule, n - 1);
    }
  }

  /** With probability one and fresh counters the trace is exact: skip_matches skips, max_simulations simulations,
      then exhausted for ever. */
  lemma CertainTrace(src: Source, e: Engine, calls: seq<Call>, rule: FailureRule, i: nat)
    requires Filed(e.states) && rule.id !in e.states
    requires rule.data.behavior.probability == 1.0 && rule.data.behavior.skipMatches >= 0
    requires rule.data.behavior.maxSimulations.Some? ==> rule.data.behavior.maxSimulations.value >= 0
    requires FixedBehavior(calls, rule)
    requires i < |CallsTo(calls, rule.id)|
    ensures var b := rule.data.behavior;
            var own := DecisionsFor(RunCalls(src, e, calls).decisions, rule.id);
            && |own| == |CallsTo(calls, rule.id)|
            && own[i].reason ==
               if i < b.skipMatches then SkipMatch
               else if b.maxSimulations.Some? && i >= b.skipMatches + b.maxSimulations.value then CountExhausted
               else Always
  {
    hide Decide, RunCalls, ReasonAt, Hits, FixedBehavior;
    SeededClosedForm(src, e, calls, rule);
    CertainReason(src, rule, i);
  }

  lemma CertainReason(src: Source, rule: FailureRule, i: nat)
    requires rule.data.behavior.probability == 1.0 && rule.data.behavior.skipMatches >= 0
    requires rule.data.behavior.maxSimulations.Some? ==> rule.data.behavior.maxSimulations.value >= 0
    ensures var b := rule.data.behavior;
            ReasonAt(src, rule, 0, 0, i + 1) ==
            if i < b.skipMatches then SkipMatch
            else if b.maxSimulations.Some? && i >= b.skipMatches + b.maxSimulations.value then CountExhausted
            else Always
  {
    hide Hits;
    CertainHits(src, rule, i);
  }

  // Monotonicity.

  /** `more` is at least as willing to simulate: likelier, later limit or none, shorter skip window. */
  predicate AtLeastAsEager(less: FailureRule, more: FailureRule) {
    var l, m := less.data.behavior, more.data.behavior;
    && less.id == more.id && l.seed == m.seed
    && l.probability <= m.probability <= 1.0
    && m.skipMatches <= l.skipMatches
    && (m.maxSimulations.None? || (l.maxSimulations.Some? && l.maxSimulations.value <= m.maxSimulations.value))
  }

  lemma {:induction false} HitsMonotone(src: Source, less: FailureRule, more: FailureRule, from: nat, until: nat)
    requires AtLeastAsEager(less, more)
    ensures Hits(src, less, from, until) <= Hits(src, more, from, until)
    decreases until
  {
    if from < until {
      HitsMonotone(src, less, more, from, until - 1);
    }
  }

  function SimulatedAfter(src: Source, e: Engine, calls: seq<Call>, id: Uuid): nat {
    Current(RunCalls(src, e, calls).engine.states, id).simulated
  }

  function Expected(src: Source, rule: FailureRule, was: RuleRuntimeState, n: nat): nat {
    Capped(rule.data.behavior.maxSimulations, was.simulated, Hits(src, rule, was.matched, was.matched + n))
  }

  lemma SeededCount(src: Source, e: Engine, calls: seq<Call>, rule: FailureRule)
    requires Filed(e.states) && Deterministic(rule)
    requires FixedBehavior(calls, rule)
    ensures SimulatedAfter(src, e, calls, rule.id)
            == Expected(src, rule, Current(e.states, rule.id), |CallsTo(calls, rule.id)|)
  {
    SeededClosedForm(src, e, calls, rule);
  }

  /** The same number of matches simulates at least as often under the more eager behaviour. */
  lemma SimulationsMonotone(src: Source, e: Engine, calls: seq<Call>, less: FailureRule,
                            e': Engine, calls': seq<Call>, more: FailureRule)
    requires Filed(e.states) && Filed(e'.states) && Deterministic(less) && Deterministic(more)
    requires AtLeastAsEager(less, more)
    requires Current(e.states, less.id) == Current(e'.states, less.id)
    requires FixedBehavior(calls, less)
    requires FixedBehavior(calls', more)
    requires |CallsTo(calls, less.id)| == |CallsTo(calls', less.id)|
    ensures SimulatedAfter(src, e, calls, less.id) <= SimulatedAfter(src, e', calls', less.id)
  {
    SeededCount(src, e, calls, less);
    SeededCount(src, e', calls', more);
    EagerCount(src, less, more, Current(e.states, less.id), |CallsTo(calls, less.id)|);
  }

  lemma EagerCount(src: Source, less: FailureRule, more: FailureRule, was: RuleRuntimeState, n: nat)
    requires AtLeastAsEager(less, more)
    ensures Expected(src, less, was, n) <= Expected(src, more, was, n)
  {
    HitsMonotone(src, less, more, was.matched, was.matched + n);
  }

  /** Only the count is monotone: a shorter skip window can use up the limit earlier and turn a later
      simulation into an exhausted match. */
  lemma SingleDecisionsMayFlip(src: Source, data: RuleCreate)
    ensures var late := FailureRule(7, data.(behavior := RuleBehavior(1.0, 1, Some(1), None)));
            var early := FailureRule(7, data.(behavior := RuleBehavior(1.0, 0, Some(1), None)));
            var e := Engine(map[], 0);
            && AtLeastAsEager(late, early)
            && RunCalls(src, e, [Call(late, 0), Call(late, 1)]).decisions[1].simulate
            && !RunCalls(src, e, [Call(early, 0), Call(early, 1)]).decisions[1].simulate
  {
    var late := FailureRule(7, data.(behavior := RuleBehavior(1.0, 1, Some(1), None)));
    var early := FailureRule(7, data.(behavior := RuleBehavior(1.0, 0, Some(1), None)));
    var e := Engine(map[], 0);
    OwnClosedForm(src, e, [Call(late, 0), Call(late, 1)], late);
    OwnClosedForm(src, e, [Call(early, 0), Call(early, 1)], early);
    RunKeepsFiled(src, e, [Call(late, 0), Call(late, 1)]);
    CertainHits(src, early, 1);
    CertainHits(src, late, 1);
    assert RunCalls(src, e, [Call(late, 0), Call(late, 1)]).decisions[1].reason == Always;
    assert RunCalls(src, e, [Call(early, 0), Call(early, 1)]).decisions[1].reason == CountExhausted;
    DecisionsConsistent(src, e, [Call(late, 0), Call(late, 1)]);
    DecisionsConsistent(src, e, [Call(early, 0), Call(early, 1)]);
  }

  // Safety across behaviour edits.

  /** Nothing here fixes the behaviour: `calls` may use a different version of the rule each time. */
  ghost predicate Sound(state: RuleRuntimeState) {
    state.simulated <= state.matched && (state.lastTriggered.Some? <==> state.simulated > 0)
  }

  lemma {:induction false} DecisionsConsistent(src: Source, e: Engine, calls: seq<Call>)
    ensures forall d <- RunCalls(src, e, calls).decisions :: d.simulate <==> Simulates(d.reason)
    decreases |calls|
  {
    if calls != [] {
      DecisionsConsistent(src, e, calls[..|calls| - 1]);
    }
  }

  /** Across edits, toggles and other rules' calls: both counters only grow, `matched` by the number of calls,
      they stay sound, and once every version in force carries a limit of at most `limit`, `simulated` never
      passes the larger of that limit and its value when the first such version came into force. */
  lemma {:induction false} CountersAcrossEdits(src: Source, e: Engine, calls: seq<Call>, id: Uuid, limit: int)
    requires Filed(e.states)
    ensures var was := Current(e.states, id);
            var after := Current(RunCalls(src, e, calls).engine.states, id);
            && after.matched == was.matched + |CallsTo(calls, id)|
            && was.simulated <= after.simulated <= was.simulated + |CallsTo(calls, id)|
            && (Sound(was) ==> Sound(after))
            && ((forall c <- calls :: c.rule.id == id ==>
                   c.rule.data.behavior.maxSimulations.Some? && c.rule.data.behavior.maxSimulations.value <= limit)
                ==> after.simulated <= if was.simulated > limit then was.simulated else limit)
    decreases |calls|
  {
    if calls != [] {
      var n := |calls| - 1;
      CountersAcrossEdits(src, e, calls[..n], id, limit);
      RunKeepsFiled(src, e, calls[..n]);
      assert calls[n] in calls;
    }
  }

  /** How many of the decisions simulate rule `id`. */
  function SimulationsOf(decisions: seq<RuleDecision>, id: Uuid): nat
    decreases |decisions|
  {
    if decisions == [] then 0
    else
      var n := |decisions| - 1;
      SimulationsOf(decisions[..n], id) + (if decisions[n].ruleId == id && decisions[n].simulate then 1 else 0)
  }

  lemma SimulationsSnoc(decisions: seq<RuleDecision>, d: RuleDecision, id: Uuid)
    ensures SimulationsOf(decisions + [d], id)
            == SimulationsOf(decisions, id) + (if d.ruleId == id && d.simulate then 1 else 0)
  {
    assert (decisions + [d])[..|decisions|] == decisions;
  }

  lemma SimulationStep(src: Source, e: Engine, c: Call, id: Uuid)
    requires Filed(e.states)
    ensures var (after, d) := Decide(src, e, c);
            Current(after.states, id).simulated
            == Current(e.states, id).simulated + (if d.ruleId == id && d.simulate then 1 else 0)
  {
  }

  /** `simulated_count` counts the simulating decisions of the rule: across edits and other rules' calls. */
  lemma {:induction false} SimulatedCountsDecisions(src: Source, e: Engine, calls: seq<Call>, id: Uuid)
    requires Filed(e.states)
    ensures var r := RunCalls(src, e, calls);
            Current(r.engine.states, id).simulated
            == Current(e.states, id).simulated + SimulationsOf(r.decisions, id)
    decreases |calls|
  {
    hide Decide;
    if calls != [] {
      var front, c := calls[..|calls| - 1], calls[|calls| - 1];
      assert calls == front + [c];
      var before := RunCalls(src, e, front);
      SimulatedCountsDecisions(src, e, front, id);
      RunKeepsFiled(src, e, front);
      RunSnoc(src, e, front, c);
      SimulationStep(src, before.engine, c, id);
      SimulationsSnoc(before.decisions, Decide(src, before.engine, c).1, id);
    }
  }

  /** At most as many decisions simulate as the limit leaves, for every rule that keeps carrying one. */
  lemma SimulationsWithinLimit(src: Source, e: Engine, calls: seq<Call>, id: Uuid, limit: int)
    requires Filed(e.states) && Current(e.states, id).simulated <= limit
    requires forall c <- calls :: c.rule.id == id ==>
               c.rule.data.behavior.maxSimulations.Some? && c.rule.data.behavior.maxSimulations.value <= limit
    ensures Current(e.states, id).simulated + SimulationsOf(RunCalls(src, e, calls).decisions, id) <= limit
  {
    CountersAcrossEdits(src, e, calls, id, limit);
    SimulatedCountsDecisions(src, e, calls, id);
  }

  /** When rule `id` was last simulated among the calls, if it was. */
  function LastSimulation(calls: seq<Call>, decisions: seq<RuleDecision>, id: Uuid): Option<Instant>
    requires |calls| == |decisions|
    decreases |calls|
  {
    if calls == [] then None
    else
      var n := |calls| - 1;
      if calls[n].rule.id == id && Models.Simulates(decisions[n].reason) then Some(calls[n].now)
      else LastSimulation(calls[..n], decisions[..n], id)
  }

  /** `last_triggered_at` is the time of the last simulated decision; misses, skips and other rules leave it alone. */
  lemma {:induction false} LastTriggered(src: Source, e: Engine, calls: seq<Call>, id: Uuid)
    requires Filed(e.states)
    ensures var r := RunCalls(src, e, calls);
            var last := LastSimulation(calls, r.decisions, id);
            Current(r.engine.states, id).lastTriggered
            == if last.Some? then last else Current(e.states, id).lastTriggered
    decreases |calls|
  {
    if calls != [] {
      var front, c := calls[..|calls| - 1], calls[|calls| - 1];
      assert calls == front + [c];
      LastTriggered(src, e, front, id);
      RunKeepsFiled(src, e, front);
      RunSnoc(src, e, front, c);
      var before := RunCalls(src, e, front);
      TriggerStep(src, before.engine, c, id);
      assert (before.decisions + [Decide(src, before.engine, c).1])[..|front|] == before.decisions;
    }
  }

  lemma TriggerStep(src: Source, e: Engine, c: Call, id: Uuid)
    requires Filed(e.states)
    ensures var (after, d) := Decide(src, e, c);
            Current(after.states, id).lastTriggered ==
            if c.rule.id == id && Models.Simulates(d.reason) then Some(c.now) else Current(e.states, id).lastTriggered
  {
  }

  // Replay and restart.

  predicate SameCounters(e: Engine, e': Engine, id: Uuid) {
    && Current(e.states, id).matched == Current(e'.states, id).matched
    && Current(e.states, id).simulated == Current(e'.states, id).simulated
  }

  predicate SameOutcome(r: Run, r': Run, id: Uuid) {
    Reasons(r.decisions) == Reasons(r'.decisions) && SameCounters(r.engine, r'.engine, id)
  }

  /** From equal counters, the same versions of a deterministic rule give the same reasons and counters: the clock,
      the generator and the other rules do not matter. A reset gives equal counters, so it replays. */
  lemma {:induction false} Replay(src: Source, e: Engine, calls: seq<Call>, e': Engine, again: seq<Call>, id: Uuid)
    requires Filed(e.states) && Filed(e'.states)
    requires SameCounters(e, e', id)
    requires |calls| == |again|
    requires forall i :: 0 <= i < |calls| ==>
               calls[i].rule == again[i].rule && calls[i].rule.id == id && Deterministic(calls[i].rule)
    ensures SameOutcome(RunCalls(src, e, calls), RunCalls(src, e', again), id)
    decreases |calls|
  {
    if calls != [] {
      var front, c := calls[..|calls| - 1], calls[|calls| - 1];
      var front', c' := again[..|again| - 1], again[|again| - 1];
      assert calls == front + [c] && again == front' + [c'];
      Replay(src, e, front, e', front', id);
      RunKeepsFiled(src, e, front);
      RunKeepsFiled(src, e', front');
      var p, p' := RunCalls(src, e, front), RunCalls(src, e', front');
      ReplayStep(src, p.engine, c, p'.engine, c');
      RunSnoc(src, e, front, c);
      RunSnoc(src, e', front', c');
      SameOutcomeSnoc(p, Decide(src, p.engine, c), p', Decide(src, p'.engine, c'), id);
    }
  }

  lemma SameOutcomeSnoc(p: Run, step: (Engine, RuleDecision), p': Run, step': (Engine, RuleDecision), id: Uuid)
    requires SameOutcome(p, p', id) && step.1.reason == step'.1.reason
    requires SameCounters(step.0, step'.0, id)
    ensures SameOutcome(Run(step.0, p.decisions + [step.1]), Run(step'.0, p'.decisions + [step'.1]), id)
  {
    assert Reasons(p.decisions + [step.1]) == Reasons(p.decisions) + [step.1.reason];
    assert Reasons(p'.decisions + [step'.1]) == Reasons(p'.decisions) + [step'.1.reason];
  }

  lemma ReplayStep(src: Source, e: Engine, c: Call, e': Engine, c': Call)
    requires Filed(e.states) && Filed(e'.states) && c.rule == c'.rule && Deterministic(c.rule)
    requires SameCounters(e, e', c.rule.id)
    ensures Decide(src, e, c).1.reason == Decide(src, e', c').1.reason
    ensures SameCounters(Decide(src, e, c).0, Decide(src, e', c').0, c.rule.id)
  {
  }

  /** `again` asks for the same versions of rule `id` as `calls` did, at least as far as it goes. */
  ghost predicate Repeats(calls: seq<Call>, again: seq<Call>, id: Uuid) {
    var own, own' := CallsTo(calls, id), CallsTo(again, id);
    |own'| <= |own| && forall i :: 0 <= i < |own'| ==> own'[i].rule == own[i].rule
  }

  /** Resetting the counters of a deterministic rule replays its reasons from the start, whatever other rules are
      called in between in either run and however far the generator has moved. */
  lemma ResetReplays(src: Source, e: Engine, calls: seq<Call>, again: seq<Call>, id: Uuid)
    requires Filed(e.states) && id !in e.states && Repeats(calls, again, id)
    requires forall c <- calls + again :: c.rule.id == id ==> Deterministic(c.rule)
    ensures var first := RunCalls(src, e, calls);
            var reset := first.engine.(states := first.engine.states - {id});
            var second := RunCalls(src, reset, again);
            Reasons(DecisionsFor(second.decisions, id)) <= Reasons(DecisionsFor(first.decisions, id))
  {
    hide Decide;
    var first := RunCalls(src, e, calls);
    RunKeepsFiled(src, e, calls);
    var reset := first.engine.(states := first.engine.states - {id});
    NonInterference(src, e, calls, id, e);
    NonInterference(src, reset, again, id, reset);
    var own, own' := CallsTo(calls, id), CallsTo(again, id);
    CallsToAre(calls, id);
    CallsToAre(again, id);
    ReplayPrefix(src, e, own, reset, own', id);
  }

  lemma ReplayPrefix(src: Source, e: Engine, own: seq<Call>, e': Engine, own': seq<Call>, id: Uuid)
    requires Filed(e.states) && Filed(e'.states) && SameCounters(e, e', id)
    requires |own'| <= |own| && forall i :: 0 <= i < |own'| ==> own'[i].rule == own[i].rule
    requires forall c <- own + own' :: c.rule.id == id && Deterministic(c.rule)
    ensures Reasons(RunCalls(src, e', own').decisions) <= Reasons(RunCalls(src, e, own).decisions)
  {
    hide Decide;
    var front, rest := own[..|own'|], own[|own'|..];
    assert own == front + rest;
    forall i | 0 <= i < |own'| ensures front[i].rule == own'[i].rule && front[i] in own {
    }
    RunSplits(src, e, front, rest);
    Replay(src, e, front, e', own', id);
  }

  /** A stretch of calls served by one process: a new engine over the persisted counters, with its own generator. */
  datatype Session = Session(calls: seq<Call>, stream: nat -> real)

  function RunSessions(hash: (Uuid, int, nat) -> real, states: map<Uuid, RuleRuntimeState>, sessions: seq<Session>)
    : (map<Uuid, RuleRuntimeState>, seq<RuleDecision>)
    decreases |sessions|
  {
    if sessions == [] then (states, [])
    else
      var first := RunCalls(Source(hash, sessions[0].stream), Engine(states, 0), sessions[0].calls);
      var (after, rest) := RunSessions(hash, first.engine.states, sessions[1..]);
      (after, first.decisions + rest)
  }

  function AllCalls(sessions: seq<Session>): seq<Call>
    decreases |sessions|
  {
    if sessions == [] then [] else sessions[0].calls + AllCalls(sessions[1..])
  }

  lemma {:induction false} GeneratorIrrelevant(src: Source, src': Source, e: Engine, draws: nat, calls: seq<Call>)
    requires src.hash == src'.hash && forall c <- calls :: Deterministic(c.rule)
    ensures var r, r' := RunCalls(src, e, calls), RunCalls(src', e.(draws := draws), calls);
            r.decisions == r'.decisions && r.engine == Engine(r'.engine.states, e.draws) && r'.engine.draws == draws
    decreases |calls|
  {
    if calls != [] {
      var front, c := calls[..|calls| - 1], calls[|calls| - 1];
      assert calls == front + [c];
      GeneratorIrrelevant(src, src', e, draws, front);
      RunSnoc(src, e, front, c);
      RunSnoc(src', e.(draws := draws), front, c);
      GeneratorIrrelevantStep(src, src', RunCalls(src, e, front).engine, draws, c);
    }
  }

  lemma GeneratorIrrelevantStep(src: Source, src': Source, e: Engine, draws: nat, c: Call)
    requires src.hash == src'.hash && Deterministic(c.rule)
    ensures Decide(src, e, c).1 == Decide(src', e.(draws := draws), c).1
    ensures Decide(src, e, c).0 == Engine(Decide(src', e.(draws := draws), c).0.states, e.draws)
    ensures Decide(src', e.(draws := draws), c).0.draws == draws
  {
    DecideAlone(src, src', e, e.(draws := draws), c);
    DecideAlone(src', src, e.(draws := draws), e, c);
  }

  lemma {:induction false} DecisionsForSplits(a: seq<RuleDecision>, b: seq<RuleDecision>, id: Uuid)
    ensures DecisionsFor(a + b, id) == DecisionsFor(a, id) + DecisionsFor(b, id)
    decreases |b|
  {
    if b == [] {
      assert a + b == a;
    } else {
      var n := |b| - 1;
      DecisionsForSplits(a, b[..n], id);
      assert (a + b)[..|a + b| - 1] == a + b[..n];
    }
  }

  /** Another generator, another position in it and other counters of the other rules do not change what a
      deterministic rule gets. */
  lemma GeneratorAndOthersIrrelevant(src: Source, src': Source, e: Engine, e': Engine, calls: seq<Call>, id: Uuid)
    requires src.hash == src'.hash && Filed(e.states) && Filed(e'.states)
    requires Current(e.states, id) == Current(e'.states, id)
    requires forall c <- calls :: c.rule.id == id ==> Deterministic(c.rule)
    ensures var r, r' := RunCalls(src, e, calls), RunCalls(src', e', calls);
            && DecisionsFor(r.decisions, id) == DecisionsFor(r'.decisions, id)
            && Current(r.engine.states, id) == Current(r'.engine.states, id)
  {
    hide Decide;
    CallsToAre(calls, id);
    NonInterference(src, e, calls, id, e');
    NonInterference(src', e', calls, id, e');
    GeneratorIrrelevant(src, src', e', e'.draws, CallsTo(calls, id));
  }

  /** Restarting the process between any calls, any number of times, is invisible to every deterministic rule: it gets
      the decisions and the counters of one uninterrupted run, although the new generators change what the unseeded
      rules around it get. The two starting points need to agree on this rule's counters only. */
  lemma {:induction false} RestartsInvisible(src: Source, e: Engine, states: map<Uuid, RuleRuntimeState>,
                                             sessions: seq<Session>, id: Uuid)
    requires Filed(e.states) && Filed(states) && Current(e.states, id) == Current(states, id)
    requires forall c <- AllCalls(sessions) :: c.rule.id == id ==> Deterministic(c.rule)
    ensures var r := RunCalls(src, e, AllCalls(sessions));
            var (after, decisions) := RunSessions(src.hash, states, sessions);
            && DecisionsFor(decisions, id) == DecisionsFor(r.decisions, id)
            && Current(after, id) == Current(r.engine.states, id)
    decreases |sessions|
  {
    hide Decide, Current;
    if sessions != [] {
      var s, rest := sessions[0], AllCalls(sessions[1..]);
      assert AllCalls(sessions) == s.calls + rest;
      var mine := Source(src.hash, s.stream);
      var r, r' := RunCalls(src, e, s.calls), RunCalls(mine, Engine(states, 0), s.calls);
      GeneratorAndOthersIrrelevant(src, mine, e, Engine(states, 0), s.calls, id);
      RunKeepsFiled(src, e, s.calls);
      RunKeepsFiled(mine, Engine(states, 0), s.calls);
      RunSplits(src, e, s.calls, rest);
      RestartsInvisible(src, r.engine, r'.engine.states, sessions[1..], id);
      DecisionsForSplits(r.decisions, RunCalls(src, r.engine, rest).decisions, id);
      DecisionsForSplits(r'.decisions, RunSessions(src.hash, r'.engine.states, sessions[1..]).1, id);
    }
  }
}
