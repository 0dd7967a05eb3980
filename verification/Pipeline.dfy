/** Overlapping data-plane requests: the counters are changed when a request begins, the history when it finishes. */
module Pipeline {
  import opened Models
  import opened Decision
  import opened Store
  import opened Integrity
  import Validation

  /** A request that has begun: what was decided for it, and its place in the order of beginnings. */
  datatype Flight = Flight(ticket: nat, verb: string, path: string, ruleId: Option<Uuid>, reason: DecisionReason)

  /** A history entry with the request that produced it. */
  datatype Record = Record(flight: Flight, entry: RequestHistoryCreate)

  datatype Pipe = Pipe(
    store: Store,
    next: nat,                  // the ticket of the next request
    inFlight: seq<Flight>,
    history: seq<Record>,
    unrecorded: seq<Flight>,    // finished or aborted without a history entry
    cleared: map<Uuid, nat>,    // per rule, the ticket at its last reset or delete
    imported: nat)              // the ticket at the last import

  datatype Event =
    | Manage(op: Op)                                                              // any management operation
    | Begin(verb: string, path: string, now: Instant)
    | Finish(slot: nat, timestamp: Instant, status: int, durationMs: nat)         // response sent, entry stored
    | Vanish(slot: nat)                                                           // aborted, or recording failed

  predicate Simulated(f: Flight) { Models.Simulates(f.reason) }

  function Outcome(f: Flight): RequestOutcome { if Simulated(f) then RequestOutcome.Simulated else Proxied }

  /** One execute, then one record: the stored entry describes the flight. */
  function Entry(f: Flight, timestamp: Instant, status: int, durationMs: nat): RequestHistoryCreate {
    RequestHistoryCreate(
      timestamp, Validation.Upper(f.verb), f.path, Outcome(f), f.reason, status, f.ruleId, durationMs)
  }

  function Launch(ticket: nat, verb: string, path: string, decision: Option<RuleDecision>): Flight {
    match decision
    case None => Flight(ticket, verb, path, None, NoMatchingRule)
    case Some(d) => Flight(ticket, verb, path, Some(d.ruleId), d.reason)
  }

  function Removed<T>(s: seq<T>, i: nat): seq<T>
    requires i < |s|
  {
    s[..i] + s[i + 1..]
  }

  ghost function Next(src: Source, p: Pipe, e: Event): Pipe {
    match e
    case Manage(op) =>
      if op.Serve? then p
      else
        var (after, reply) := Step(src, p.store, op);
        var q := p.(store := after);
        if op.Import? && reply.Imported? && !op.dryRun then q.(cleared := map[], imported := p.next)
        else if (op.DeleteRule? && reply == Deleted) || (op.ResetState? && reply.StateReply?)
        then q.(cleared := p.cleared[op.id := p.next])
        else q
    case Begin(verb, path, now) =>
      var (after, reply) := Dispatch(src, p.store, verb, path, now);
      p.(store := after, next := p.next + 1, inFlight := p.inFlight + [Launch(p.next, verb, path, reply.match_)])
    case Finish(slot, timestamp, status, durationMs) =>
      if slot < |p.inFlight| then
        var f := p.inFlight[slot];
        p.(inFlight := Removed(p.inFlight, slot),
           history := p.history + [Record(f, Entry(f, timestamp, status, durationMs))])
      else p
    case Vanish(slot) =>
      if slot < |p.inFlight| then
        p.(inFlight := Removed(p.inFlight, slot), unrecorded := p.unrecorded + [p.inFlight[slot]])
      else p
  }

  // Counting.

  /** Which flights to count: those decided by rule `id` from ticket `since` on, or the one with a given ticket. */
  datatype Query = DecidedBy(id: Uuid, since: nat, onlySimulated: bool) | Numbered(ticket: nat)

  predicate Counted(f: Flight, q: Query) {
    match q
    case DecidedBy(id, since, onlySimulated) =>
      f.ruleId == Some(id) && f.ticket >= since && (onlySimulated ==> Simulated(f))
    case Numbered(ticket) => f.ticket == ticket
  }

  function Count(flights: seq<Flight>, q: Query): nat
    decreases |flights|
  {
    if flights == [] then 0
    else
      var n := |flights| - 1;
      Count(flights[..n], q) + (if Counted(flights[n], q) then 1 else 0)
  }

  function Flights(history: seq<Record>): (r: seq<Flight>)
    ensures |r| == |history|
    ensures forall i :: 0 <= i < |r| ==> r[i] == history[i].flight
  {
    seq(|history|, i requires 0 <= i < |history| => history[i].flight)
  }

  /** Over the recorded, in-flight and unrecorded requests. */
  function Total(p: Pipe, q: Query): nat {
    Count(Flights(p.history), q) + Count(p.inFlight, q) + Count(p.unrecorded, q)
  }

  /** The ticket from which requests count towards the rule's counters. */
  function Since(p: Pipe, id: Uuid): nat { if id in p.cleared then p.cleared[id] else p.imported }

  /** Recorded, in-flight and unrecorded requests of rule `id` that began since its counters were last cleared. */
  function Tally(p: Pipe, id: Uuid, onlySimulated: bool): nat {
    Total(p, DecidedBy(id, Since(p, id), onlySimulated))
  }

  /** `matched_count` and `simulated_count` equal the tally. */
  predicate Conserved(p: Pipe, id: Uuid) {
    && Current(p.store.states, id).matched == Tally(p, id, false)
    && Current(p.store.states, id).simulated == Tally(p, id, true)
  }

  /** The request with the ticket is in exactly one place once it has begun, and nowhere before. */
  predicate InOnePlace(p: Pipe, ticket: nat) { Total(p, Numbered(ticket)) == if ticket < p.next then 1 else 0 }

  predicate WellFormed(f: Flight, next: nat) {
    f.ticket < next && (f.ruleId.None? <==> f.reason == NoMatchingRule)
  }

  ghost predicate Inv(p: Pipe) {
    && Intact(p.store)
    && (forall id: Uuid :: Conserved(p, id))
    && (forall ticket: nat :: InOnePlace(p, ticket))
    && (forall f <- p.inFlight + Flights(p.history) + p.unrecorded :: WellFormed(f, p.next))
    && (forall id <- p.cleared :: p.cleared[id] <= p.next)
    && p.imported <= p.next
    && (forall r <- p.history ::
          exists t, s, d {:trigger Entry(r.flight, t, s, d)} :: r.entry == Entry(r.flight, t, s, d))
  }

  lemma CountSnoc(flights: seq<Flight>, f: Flight, q: Query)
    ensures Count(flights + [f], q) == Count(flights, q) + (if Counted(f, q) then 1 else 0)
  {
    assert (flights + [f])[..|flights|] == flights;
  }

  lemma {:induction false} CountRemoved(flights: seq<Flight>, i: nat, q: Query)
    requires i < |flights|
    ensures Count(flights, q) == Count(Removed(flights, i), q) + (if Counted(flights[i], q) then 1 else 0)
    decreases |flights|
  {
    var n := |flights| - 1;
    if i == n {
      assert Removed(flights, i) == flights[..n];
    } else {
      CountRemoved(flights[..n], i, q);
      assert Removed(flights, i) == Removed(flights[..n], i) + [flights[n]];
      CountSnoc(Removed(flights[..n], i), flights[n], q);
    }
  }

  lemma {:induction false} CountNone(flights: seq<Flight>, q: Query)
    requires forall f <- flights :: !Counted(f, q)
    ensures Count(flights, q) == 0
    decreases |flights|
  {
    if flights != [] {
      CountNone(flights[..|flights| - 1], q);
    }
  }

  lemma TotalNone(p: Pipe, q: Query)
    requires forall f <- p.inFlight + Flights(p.history) + p.unrecorded :: !Counted(f, q)
    ensures Total(p, q) == 0
  {
    CountNone(p.inFlight, q);
    CountNone(Flights(p.history), q);
    CountNone(p.unrecorded, q);
  }

  // Preservation.

  /** What a dispatch does to the counters of every rule. */
  lemma DispatchCounts(src: Source, s: Store, verb: string, path: string, now: Instant, id: Uuid)
    requires Intact(s)
    ensures var (after, reply) := Dispatch(src, s, verb, path, now);
            var f := Launch(0, verb, path, reply.match_);
            && (f.ruleId.None? <==> f.reason == NoMatchingRule)
            && Current(after.states, id).matched
               == Current(s.states, id).matched + (if f.ruleId == Some(id) then 1 else 0)
            && Current(after.states, id).simulated
               == Current(s.states, id).simulated + (if f.ruleId == Some(id) && Simulated(f) then 1 else 0)
  {
  }

  lemma TotalLaunch(p: Pipe, p': Pipe, f: Flight, q: Query)
    requires p'.inFlight == p.inFlight + [f] && p'.history == p.history && p'.unrecorded == p.unrecorded
    ensures Total(p', q) == Total(p, q) + (if Counted(f, q) then 1 else 0)
  {
    CountSnoc(p.inFlight, f, q);
  }

  lemma BeginConserves(src: Source, p: Pipe, verb: string, path: string, now: Instant, id: Uuid)
    requires Intact(p.store) && Conserved(p, id)
    requires p.imported <= p.next && (id in p.cleared ==> p.cleared[id] <= p.next)
    ensures Conserved(Next(src, p, Begin(verb, path, now)), id)
  {
    hide Dispatch, Step, Intact, Total;
    var p' := Next(src, p, Begin(verb, path, now));
    var f := p'.inFlight[|p.inFlight|];
    DispatchCounts(src, p.store, verb, path, now, id);
    TotalLaunch(p, p', f, DecidedBy(id, Since(p, id), false));
    TotalLaunch(p, p', f, DecidedBy(id, Since(p, id), true));
  }

  lemma KeepsOnBegin(src: Source, p: Pipe, verb: string, path: string, now: Instant)
    requires Inv(p)
    ensures Inv(Next(src, p, Begin(verb, path, now)))
  {
    hide Dispatch, Step, Intact, Conserved, Total;
    KeepsOnDispatch(src, p.store, verb, path, now);
    forall id: Uuid ensures Conserved(Next(src, p, Begin(verb, path, now)), id) {
      assert Conserved(p, id);
      BeginConserves(src, p, verb, path, now, id);
    }
    DispatchCounts(src, p.store, verb, path, now, 0);
    var p' := Next(src, p, Begin(verb, path, now));
    var f := p'.inFlight[|p.inFlight|];
    forall ticket: nat ensures InOnePlace(p', ticket) {
      assert InOnePlace(p, ticket);
      TotalLaunch(p, p', f, Numbered(ticket));
    }
    forall g | g in p'.inFlight + Flights(p'.history) + p'.unrecorded ensures WellFormed(g, p'.next) {
      assert g == f || g in p.inFlight + Flights(p.history) + p.unrecorded;
    }
  }

  /** A flight that moves from one place to another is counted once before and once after. */
  lemma TotalLeave(p: Pipe, p': Pipe, slot: nat, q: Query)
    requires slot < |p.inFlight| && p'.inFlight == Removed(p.inFlight, slot)
    requires (Flights(p'.history) == Flights(p.history) + [p.inFlight[slot]] && p'.unrecorded == p.unrecorded)
             || (p'.history == p.history && p'.unrecorded == p.unrecorded + [p.inFlight[slot]])
    ensures Total(p', q) == Total(p, q)
  {
    var f := p.inFlight[slot];
    CountRemoved(p.inFlight, slot, q);
    CountSnoc(Flights(p.history), f, q);
    CountSnoc(p.unrecorded, f, q);
  }

  lemma LeaveConserves(src: Source, p: Pipe, e: Event, q: Query)
    requires (e.Finish? || e.Vanish?) && e.slot < |p.inFlight|
    ensures Total(Next(src, p, e), q) == Total(p, q)
  {
    hide Step, Dispatch, Total;
    var p' := Next(src, p, e);
    if e.Finish? {
      assert Flights(p'.history) == Flights(p.history) + [p.inFlight[e.slot]];
    }
    TotalLeave(p, p', e.slot, q);
  }

  lemma KeepsOnLeave(src: Source, p: Pipe, e: Event)
    requires Inv(p) && (e.Finish? || e.Vanish?) && e.slot < |p.inFlight|
    ensures Inv(Next(src, p, e))
  {
    hide Intact, Step, Dispatch, Total, Current;
    var p' := Next(src, p, e);
    forall id: Uuid ensures Conserved(p', id) {
      assert Conserved(p, id);
      LeaveConserves(src, p, e, DecidedBy(id, Since(p, id), false));
      LeaveConserves(src, p, e, DecidedBy(id, Since(p, id), true));
    }
    forall ticket: nat ensures InOnePlace(p', ticket) {
      assert InOnePlace(p, ticket);
      LeaveConserves(src, p, e, Numbered(ticket));
    }
    LeaveKeepsFlights(src, p, e);
  }

  lemma LeaveKeepsFlights(src: Source, p: Pipe, e: Event)
    requires (e.Finish? || e.Vanish?) && e.slot < |p.inFlight|
    ensures var p' := Next(src, p, e);
            forall g <- p'.inFlight + Flights(p'.history) + p'.unrecorded ::
              g in p.inFlight + Flights(p.history) + p.unrecorded
  {
    hide Step, Dispatch;
    var p' := Next(src, p, e);
    assert p.inFlight[e.slot] in p.inFlight;
    forall g | g in Flights(p'.history) ensures g in p.inFlight || g in Flights(p.history) {
      var i :| 0 <= i < |p'.history| && Flights(p'.history)[i] == g;
      if i < |p.history| {
        assert Flights(p.history)[i] == g;
      }
    }
  }

  /** The operation clears the counters of the rule, as its reply says. */
  ghost predicate Cleared(src: Source, s: Store, op: Op, id: Uuid) {
    var reply := Step(src, s, op).1;
    || (op.Import? && reply.Imported? && !op.dryRun)
    || (op.DeleteRule? && reply == Deleted && op.id == id)
    || (op.ResetState? && reply.StateReply? && op.id == id)
  }

  /** Management either leaves every counter alone or clears what it says it clears. */
  lemma ManageCounts(src: Source, s: Store, op: Op, id: Uuid)
    requires !op.Serve?
    ensures Current(Step(src, s, op).0.states, id) ==
            if Cleared(src, s, op, id) then FreshState(id) else Current(s.states, id)
  {
  }

  lemma ManageConserves(src: Source, p: Pipe, op: Op, id: Uuid)
    requires Conserved(p, id) && !op.Serve?
    requires forall f <- p.inFlight + Flights(p.history) + p.unrecorded :: f.ticket < p.next
    ensures Conserved(Next(src, p, Manage(op)), id)
  {
    hide Step, Total, Current;
    var p' := Next(src, p, Manage(op));
    ManageCounts(src, p.store, op, id);
    ManageKeepsFlights(src, p, op);
    if Cleared(src, p.store, op, id) {
      NoneSince(p', id, false);
      NoneSince(p', id, true);
      FreshIsZero(id);
    } else {
      SameTotal(p, p', DecidedBy(id, Since(p, id), false));
      SameTotal(p, p', DecidedBy(id, Since(p, id), true));
    }
  }

  lemma FreshIsZero(id: Uuid)
    ensures FreshState(id).matched == 0 && FreshState(id).simulated == 0
  {
  }

  lemma NoneSince(p: Pipe, id: Uuid, onlySimulated: bool)
    requires forall f <- p.inFlight + Flights(p.history) + p.unrecorded :: f.ticket < p.next
    ensures Total(p, DecidedBy(id, p.next, onlySimulated)) == 0
  {
    TotalNone(p, DecidedBy(id, p.next, onlySimulated));
  }

  lemma SameTotal(p: Pipe, p': Pipe, q: Query)
    requires p'.inFlight == p.inFlight && p'.history == p.history && p'.unrecorded == p.unrecorded
    ensures Total(p', q) == Total(p, q)
  {
  }

  /** Management moves no request, and it dates the clearing of the rules it clears and of no others. */
  lemma ManageKeepsFlights(src: Source, p: Pipe, op: Op)
    requires !op.Serve?
    ensures var p' := Next(src, p, Manage(op));
            && p'.inFlight == p.inFlight && p'.history == p.history && p'.unrecorded == p.unrecorded
            && p'.next == p.next && p'.store == Step(src, p.store, op).0
            && forall id: Uuid :: Since(p', id) == if Cleared(src, p.store, op, id) then p.next else Since(p, id)
  {
    hide Step;
  }

  lemma KeepsOnManage(src: Source, p: Pipe, op: Op)
    requires Inv(p) && Admissible(p.store, op) && !op.Serve?
    ensures Inv(Next(src, p, Manage(op)))
  {
    hide Step, Intact;
    var p' := Next(src, p, Manage(op));
    StepKeepsIntact(src, p.store, op);
    forall id: Uuid ensures Conserved(p', id) {
      assert Conserved(p, id);
      ManageConserves(src, p, op, id);
    }
    forall ticket: nat ensures InOnePlace(p', ticket) {
      assert InOnePlace(p, ticket);
    }
  }

  ghost predicate AdmissibleEvents(src: Source, p: Pipe, events: seq<Event>)
    decreases |events|
  {
    events != [] ==>
      && (events[0].Manage? ==> Admissible(p.store, events[0].op))
      && AdmissibleEvents(src, Next(src, p, events[0]), events[1..])
  }

  ghost function RunEvents(src: Source, p: Pipe, events: seq<Event>): Pipe
    decreases |events|
  {
    if events == [] then p else RunEvents(src, Next(src, p, events[0]), events[1..])
  }

  lemma {:induction false} AlwaysInv(src: Source, p: Pipe, events: seq<Event>)
    requires Inv(p) && AdmissibleEvents(src, p, events)
    ensures Inv(RunEvents(src, p, events))
    decreases |events|
  {
    hide Inv, Next;
    if events != [] {
      StepKeepsInv(src, p, events[0]);
      AlwaysInv(src, Next(src, p, events[0]), events[1..]);
    }
  }

  lemma StepKeepsInv(src: Source, p: Pipe, e: Event)
    requires Inv(p) && (e.Manage? ==> Admissible(p.store, e.op))
    ensures Inv(Next(src, p, e))
  {
    match e
    case Manage(op) =>
      if !op.Serve? {
        KeepsOnManage(src, p, op);
      }
    case Begin(verb, path, now) => KeepsOnBegin(src, p, verb, path, now);
    case Finish(slot, _, _, _) =>
      if slot < |p.inFlight| {
        KeepsOnLeave(src, p, e);
      }
    case Vanish(slot) =>
      if slot < |p.inFlight| {
        KeepsOnLeave(src, p, e);
      }
  }

  function Launched(s: Store): Pipe { Pipe(s, 0, [], [], [], map[], 0) }

  /** Conservation: from a store without counters, in every reachable state, every rule's counters equal its recorded,
      in-flight and unrecorded requests begun since they were last cleared, in total and for simulated outcomes,
      and every request that ever began is in exactly one of the three places. */
  lemma Conservation(src: Source, s: Store, events: seq<Event>, id: Uuid, ticket: nat)
    requires Intact(s) && s.states == map[] && AdmissibleEvents(src, Launched(s), events)
    ensures var p := RunEvents(src, Launched(s), events);
            && Current(p.store.states, id).matched == Tally(p, id, false)
            && Current(p.store.states, id).simulated == Tally(p, id, true)
            && Total(p, Numbered(ticket)) == if ticket < p.next then 1 else 0
  {
    hide Next;
    AlwaysInv(src, Launched(s), events);
    assert Conserved(RunEvents(src, Launched(s), events), id);
    assert InOnePlace(RunEvents(src, Launched(s), events), ticket);
  }

  /** How many stored entries name the rule, optionally with the simulated outcome. */
  function EntriesFor(history: seq<Record>, id: Uuid, onlySimulated: bool): nat
    decreases |history|
  {
    if history == [] then 0
    else
      var n := |history| - 1;
      var e := history[n].entry;
      EntriesFor(history[..n], id, onlySimulated)
      + (if e.ruleId == Some(id) && (onlySimulated ==> e.outcome == RequestOutcome.Simulated) then 1 else 0)
  }

  lemma {:induction false} EntriesAreFlights(history: seq<Record>, id: Uuid, onlySimulated: bool)
    requires forall r <- history :: r.entry.ruleId == r.flight.ruleId && r.entry.outcome == Outcome(r.flight)
    ensures EntriesFor(history, id, onlySimulated) == Count(Flights(history), DecidedBy(id, 0, onlySimulated))
    decreases |history|
  {
    if history != [] {
      var n := |history| - 1;
      EntriesAreFlights(history[..n], id, onlySimulated);
      assert Flights(history)[..n] == Flights(history[..n]);
    }
  }

  /** When nothing is in flight, nothing was lost and nothing was cleared, the history alone explains the counters. */
  lemma HistoryExplainsCounters(src: Source, s: Store, events: seq<Event>, id: Uuid)
    requires Intact(s) && s.states == map[] && AdmissibleEvents(src, Launched(s), events)
    requires var p := RunEvents(src, Launched(s), events);
             p.inFlight == [] && p.unrecorded == [] && Since(p, id) == 0
    ensures var p := RunEvents(src, Launched(s), events);
            && Current(p.store.states, id).matched == EntriesFor(p.history, id, false)
            && Current(p.store.states, id).simulated == EntriesFor(p.history, id, true)
  {
    AlwaysInv(src, Launched(s), events);
    var p := RunEvents(src, Launched(s), events);
    assert Conserved(p, id);
    EntriesAreFlights(p.history, id, false);
    EntriesAreFlights(p.history, id, true);
  }

  // Where the requests of a run end up.

  ghost function Begins(events: seq<Event>): nat
    decreases |events|
  {
    if events == [] then 0 else (if events[0].Begin? then 1 else 0) + Begins(events[1..])
  }

  /** How many events of the run finish a request that is in flight. */
  ghost function Finishes(src: Source, p: Pipe, events: seq<Event>): nat
    decreases |events|
  {
    if events == [] then 0
    else
      (if events[0].Finish? && events[0].slot < |p.inFlight| then 1 else 0)
      + Finishes(src, Next(src, p, events[0]), events[1..])
  }

  /** How many events of the run abort a request that is in flight, or fail to record it. */
  ghost function Vanishes(src: Source, p: Pipe, events: seq<Event>): nat
    decreases |events|
  {
    if events == [] then 0
    else
      (if events[0].Vanish? && events[0].slot < |p.inFlight| then 1 else 0)
      + Vanishes(src, Next(src, p, events[0]), events[1..])
  }

  lemma PlacesStep(src: Source, p: Pipe, e: Event)
    ensures var p' := Next(src, p, e);
            var begins := if e.Begin? then 1 else 0;
            var finishes := if e.Finish? && e.slot < |p.inFlight| then 1 else 0;
            var vanishes := if e.Vanish? && e.slot < |p.inFlight| then 1 else 0;
            && p.history <= p'.history && p.unrecorded <= p'.unrecorded
            && |p'.history| == |p.history| + finishes
            && |p'.unrecorded| == |p.unrecorded| + vanishes
            && p'.next == p.next + begins
            && |p'.inFlight| == |p.inFlight| + begins - finishes - vanishes
  {
    hide Step, Dispatch;
  }

  /** Over every run: each finished request is stored, each aborted or unrecordable one is not, each begun one is in
      flight until then, and nothing stored is ever changed or lost. */
  lemma {:induction false} EveryRequestEndsOnce(src: Source, p: Pipe, events: seq<Event>)
    ensures var r := RunEvents(src, p, events);
            && p.history <= r.history && p.unrecorded <= r.unrecorded
            && |r.history| == |p.history| + Finishes(src, p, events)
            && |r.unrecorded| == |p.unrecorded| + Vanishes(src, p, events)
            && r.next == p.next + Begins(events)
            && |r.inFlight| + Finishes(src, p, events) + Vanishes(src, p, events) == |p.inFlight| + Begins(events)
    decreases |events|
  {
    hide Next;
    if events != [] {
      PlacesStep(src, p, events[0]);
      EveryRequestEndsOnce(src, Next(src, p, events[0]), events[1..]);
    }
  }

  /** The flight with the ticket, as long as it is in flight, is `f`. */
  predicate Carries(p: Pipe, ticket: nat, f: Flight) {
    ticket < p.next && forall g <- p.inFlight :: g.ticket == ticket ==> g == f
  }

  lemma CarriesStep(src: Source, p: Pipe, e: Event, ticket: nat, f: Flight)
    requires Carries(p, ticket, f)
    ensures Carries(Next(src, p, e), ticket, f)
  {
    hide Step, Dispatch;
  }

  lemma {:induction false} CarriesRun(src: Source, p: Pipe, events: seq<Event>, ticket: nat, f: Flight)
    requires Carries(p, ticket, f)
    ensures Carries(RunEvents(src, p, events), ticket, f)
    decreases |events|
  {
    hide Next, Carries;
    if events != [] {
      CarriesStep(src, p, events[0], ticket, f);
      CarriesRun(src, Next(src, p, events[0]), events[1..], ticket, f);
    }
  }

  /** A beginning request is decided as one served request, and flies with its method, path, rule and reason. */
  lemma BeginLaunches(src: Source, p: Pipe, verb: string, path: string, now: Instant)
    ensures var p' := Next(src, p, Begin(verb, path, now));
            var (after, reply) := Step(src, p.store, Serve(verb, path, now));
            && reply.Served? && p'.store == after && p'.next == p.next + 1
            && |p'.inFlight| == |p.inFlight| + 1 && p.inFlight <= p'.inFlight
            && p'.inFlight[|p.inFlight|] ==
               match reply.match_
               case None => Flight(p.next, verb, path, None, NoMatchingRule)
               case Some(d) => Flight(p.next, verb, path, Some(d.ruleId), d.reason)
  {
    hide Decide;
  }

  lemma FinishStores(src: Source, p: Pipe, slot: nat, timestamp: Instant, status: int, durationMs: nat)
    requires slot < |p.inFlight|
    ensures var p' := Next(src, p, Finish(slot, timestamp, status, durationMs));
            var f := p.inFlight[slot];
            && |p'.history| == |p.history| + 1 && p.history <= p'.history
            && p'.history[|p.history|].entry ==
               RequestHistoryCreate(
                 timestamp, Validation.Upper(f.verb), f.path,
                 if f.reason == Always || f.reason == ProbabilityHit then RequestOutcome.Simulated else Proxied,
                 f.reason, status, f.ruleId, durationMs)
            && p'.inFlight == p.inFlight[..slot] + p.inFlight[slot + 1..]
            && p'.unrecorded == p.unrecorded && p'.store == p.store
  {
    hide Step, Dispatch;
  }

  lemma {:induction false} RunSplits(src: Source, p: Pipe, a: seq<Event>, b: seq<Event>)
    ensures RunEvents(src, p, a + b) == RunEvents(src, RunEvents(src, p, a), b)
    decreases |a|
  {
    hide Next;
    if a == [] {
      assert a + b == b;
    } else {
      assert (a + b)[1..] == a[1..] + b;
      RunSplits(src, Next(src, p, a[0]), a[1..], b);
    }
  }

  /** From beginning to end: the entry a request leaves when it finishes says what was decided for it when it began,
      however long it was in flight and whatever other requests and the management did to rules and counters
      meanwhile. */
  lemma EntryTellsTheDecision(src: Source, p: Pipe, verb: string, path: string, now: Instant, meanwhile: seq<Event>,
                              slot: nat, timestamp: Instant, status: int, durationMs: nat)
    requires Inv(p)
    requires var q := RunEvents(src, p, [Begin(verb, path, now)] + meanwhile);
             slot < |q.inFlight| && q.inFlight[slot].ticket == p.next
    ensures var reply := Step(src, p.store, Serve(verb, path, now)).1;
            var q := RunEvents(src, p, [Begin(verb, path, now)] + meanwhile);
            var r := RunEvents(src, p, [Begin(verb, path, now)] + meanwhile
                                       + [Finish(slot, timestamp, status, durationMs)]);
            && reply.Served? && |r.history| == |q.history| + 1
            && r.history[|q.history|].entry ==
               match reply.match_
               case None =>
                 RequestHistoryCreate(timestamp, Validation.Upper(verb), path, Proxied, NoMatchingRule, status, None,
                                      durationMs)
               case Some(d) =>
                 RequestHistoryCreate(timestamp, Validation.Upper(verb), path,
                                      if d.reason == Always || d.reason == ProbabilityHit
                                      then RequestOutcome.Simulated else Proxied,
                                      d.reason, status, Some(d.ruleId), durationMs)
  {
    hide Step, Next, Dispatch, Inv;
    var begin, finish := Begin(verb, path, now), Finish(slot, timestamp, status, durationMs);
    var b := Next(src, p, begin);
    BeginLaunches(src, p, verb, path, now);
    NobodyElseCarries(src, p, verb, path, now);
    assert ([begin] + meanwhile)[1..] == meanwhile;
    var q := RunEvents(src, b, meanwhile);
    CarriesRun(src, b, meanwhile, p.next, b.inFlight[|p.inFlight|]);
    RunSplits(src, p, [begin] + meanwhile, [finish]);
    assert [finish][1..] == [];
    FinishStores(src, q, slot, timestamp, status, durationMs);
  }

  lemma NobodyElseCarries(src: Source, p: Pipe, verb: string, path: string, now: Instant)
    requires Inv(p)
    ensures var b := Next(src, p, Begin(verb, path, now));
            |b.inFlight| == |p.inFlight| + 1 && Carries(b, p.next, b.inFlight[|p.inFlight|])
  {
    hide Step, Dispatch, Intact, Conserved, InOnePlace;
    forall f | f in p.inFlight ensures f.ticket < p.next {
      assert f in p.inFlight + Flights(p.history) + p.unrecorded;
    }
  }
}
