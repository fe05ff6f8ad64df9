/**
  `Pool.Do` of internal/rpc/pool.go as an interleaved protocol: any number of
  callers step through the semaphore, the breaker, the limiter and the transport,
  and the properties hold in every reachable state.
 */
module RpcPool {
  import B = Breakers
  import L = Limiters

  datatype Config = Config(workers: nat, maxRetries: nat, limiter: L.Config, breaker: B.Config) {
    predicate Valid() {
      workers >= 1 && limiter.Valid()
    }
  }

  /** `withDefaults`, then the limiter's and breaker's own floors: always a usable configuration. */
  function WithDefaults(workers: int, ratePerSec: real, burst: int, maxRetries: int, threshold: int, cooldown: int): (c: Config)
    ensures c.Valid() && c.breaker.cooldown > 0
    ensures c.workers == if workers >= 1 then workers else 8
    ensures c.maxRetries == if maxRetries >= 0 then maxRetries else 0
    ensures c.limiter.rate == if ratePerSec > 0.0 then ratePerSec else 10.0
    ensures c.limiter.burst == (if burst >= 1 then burst else c.workers) as real
    ensures c.breaker.threshold == threshold
    ensures c.breaker.cooldown == if cooldown > 0 then cooldown else 10_000_000_000
  {
    var w := if workers < 1 then 8 else workers;
    Config(w, if maxRetries < 0 then 0 else maxRetries,
           L.Config(if ratePerSec <= 0.0 then 10.0 else ratePerSec, (if burst < 1 then w else burst) as real),
           B.Config(threshold, if cooldown <= 0 then 10 * L.SECOND else cooldown))
  }

  /** How a call of `Do` ended. */
  datatype Outcome = Completed | Exhausted | Rejected | LimiterError | Cancelled

  /** Where a call of `Do` stands. */
  datatype Phase = Queued | Gate | Throttle | Calling | Backoff | Returned(outcome: Outcome)

  /** `attempt` is the loop counter, `calls` the transport calls this `Do` has started. */
  datatype Caller = Caller(phase: Phase, attempt: nat, calls: nat)

  /** Shared state, with the limiter's polls and the breaker's events as history. */
  datatype Pool = Pool(
    now: int,
    sem: nat,
    bucket: L.Bucket,
    status: B.Status,
    callers: map<nat, Caller>,
    inFlight: int,
    completed: nat,
    failed: nat,
    rejected: nat,
    started: nat,
    polls: seq<int>,
    events: seq<B.Event>)

  function Initial(cfg: Config, start: int): Pool {
    Pool(start, 0, L.Bucket(cfg.limiter.burst, start), B.INITIAL, map[], 0, 0, 0, 0, 0, [], [])
  }

  /** One atomic step; time passes only through `Advance`. */
  datatype Action =
    | Advance(elapsed: nat)
    | Arrive(id: nat)
    | Acquire(id: nat)
    | Abandon(id: nat)
    | Ask(id: nat)
    | Poll(id: nat)
    | WaitFails(id: nat)
    | CallSucceeds(id: nat)
    | CallFails(id: nat, cancelled: bool)
    | Wake(id: nat)
    | SleepCancelled(id: nat)

  predicate At(s: Pool, id: nat, phase: Phase) {
    id in s.callers && s.callers[id].phase == phase
  }

  predicate Enabled(cfg: Config, s: Pool, a: Action) {
    match a
    case Advance(_) => true
    case Arrive(id) => id !in s.callers
    case Acquire(id) => At(s, id, Queued) && s.sem < cfg.workers
    case Abandon(id) => At(s, id, Queued)
    case Ask(id) => At(s, id, Gate)
    case Poll(id) => At(s, id, Throttle)
    case WaitFails(id) => At(s, id, Throttle)
    case CallSucceeds(id) => At(s, id, Calling)
    case CallFails(id, _) => At(s, id, Calling)
    case Wake(id) => At(s, id, Backoff)
    case SleepCancelled(id) => At(s, id, Backoff)
  }

  function Move(s: Pool, id: nat, phase: Phase): Pool
    requires id in s.callers
  {
    s.(callers := s.callers[id := s.callers[id].(phase := phase)])
  }

  /** Returning runs the deferred release of the slot and of the in-flight counter. */
  function Return(s: Pool, id: nat, outcome: Outcome): Pool
    requires id in s.callers
  {
    Move(s, id, Returned(outcome)).(sem := if s.sem == 0 then 0 else s.sem - 1, inFlight := s.inFlight - 1)
  }

  function Step(cfg: Config, s: Pool, a: Action): Pool
    requires cfg.Valid() && Enabled(cfg, s, a)
  {
    match a
    case Advance(elapsed) => s.(now := s.now + elapsed)
    case Arrive(id) => s.(callers := s.callers[id := Caller(Queued, 0, 0)])
    case Acquire(id) => Move(s, id, Gate).(sem := s.sem + 1, inFlight := s.inFlight + 1)
    case Abandon(id) => Move(s, id, Returned(Cancelled))
    case Ask(id) =>
      var (status, ok) := B.Allow(cfg.breaker, s.status, s.now);
      var t := s.(status := status, events := s.events + [B.Asked(s.now, ok)]);
      if ok then Move(t, id, Throttle)
      else Return(t, id, Rejected).(rejected := s.rejected + 1)
    case Poll(id) =>
      var r := L.Reserve(cfg.limiter, s.bucket, s.now);
      var t := s.(bucket := r.bucket, polls := s.polls + [s.now]);
      if r.ok then
        var c := s.callers[id];
        t.(callers := s.callers[id := Caller(Calling, c.attempt, c.calls + 1)], started := s.started + 1)
      else t
    case WaitFails(id) => Return(s, id, LimiterError)
    case CallSucceeds(id) =>
      var t := s.(status := B.Success(cfg.breaker, s.status), events := s.events + [B.Succeeded(s.now)]);
      Return(t, id, Completed).(completed := s.completed + 1)
    case CallFails(id, cancelled) =>
      var t := s.(status := B.Failure(cfg.breaker, s.status, s.now), events := s.events + [B.Failed(s.now)]);
      var c := s.callers[id];
      if cancelled || c.attempt >= cfg.maxRetries then Return(t, id, Exhausted).(failed := s.failed + 1)
      else t.(callers := s.callers[id := Caller(Backoff, c.attempt + 1, c.calls)])
    case Wake(id) => Move(s, id, Gate)
    case SleepCancelled(id) => Return(s, id, Cancelled)
  }

  // ----- counting callers -----

  datatype Class = Holding | InCall | Waiting | Ended(outcome: Outcome)

  predicate InClass(p: Phase, c: Class) {
    match c
    case Holding => p.Gate? || p.Throttle? || p.Calling? || p.Backoff?
    case InCall => p.Calling?
    case Waiting => p.Throttle?
    case Ended(o) => p == Returned(o)
  }

  function Ids(callers: map<nat, Caller>, c: Class): set<nat> {
    set id | id in callers && InClass(callers[id].phase, c)
  }

  function Count(callers: map<nat, Caller>, c: Class): nat {
    |Ids(callers, c)|
  }

  function One(b: bool): nat {
    if b then 1 else 0
  }

  lemma CountUpdate(callers: map<nat, Caller>, id: nat, caller: Caller, c: Class)
    ensures Count(callers[id := caller], c)
         == Count(callers, c) - One(id in callers && InClass(callers[id].phase, c)) + One(InClass(caller.phase, c))
  {
    var (before, after) := (Ids(callers, c), Ids(callers[id := caller], c));
    assert |before - {id}| == |after - {id}| by {
      assert before - {id} == after - {id};
    }
    assert |before - {id}| == |before| - One(id in before) by {
      WithoutOne(before, id);
    }
    WithoutOne(after, id);
  }

  lemma WithoutOne(s: set<nat>, x: nat)
    ensures |s - {x}| == |s| - One(x in s)
  {
    if x !in s {
      assert s - {x} == s;
    }
  }

  /** Calls in the transport hold slots, so they never outnumber the holders. */
  lemma InCallHold(callers: map<nat, Caller>)
    ensures Count(callers, InCall) <= Count(callers, Holding)
  {
    SubsetCount(Ids(callers, InCall), Ids(callers, Holding));
  }

  lemma {:induction false} SubsetCount(a: set<nat>, b: set<nat>)
    requires a <= b
    ensures |a| <= |b|
  {
    if a != {} {
      var x :| x in a;
      SubsetCount(a - {x}, b - {x});
    }
  }

  // ----- the invariant -----

  /** Transport calls of one `Do` follow its attempt counter. */
  predicate CallerOk(cfg: Config, c: Caller) {
    && c.calls <= cfg.maxRetries + 1
    && match c.phase
       case Queued => c.attempt == 0 && c.calls == 0
       case Calling => c.attempt <= cfg.maxRetries && c.calls == c.attempt + 1
       case Returned(_) => true
       case _ => c.attempt <= cfg.maxRetries && c.calls == c.attempt
  }

  /** Slots, in-flight counter and holders agree, and outcomes are counted once each. */
  predicate Counted(cfg: Config, s: Pool) {
    && s.sem == s.inFlight == Count(s.callers, Holding) <= cfg.workers
    && s.completed == Count(s.callers, Ended(Completed))
    && s.failed == Count(s.callers, Ended(Exhausted))
    && s.rejected == Count(s.callers, Ended(Rejected))
  }

  /** Breaker admissions in the history. */
  function Admissions(h: seq<B.Event>): nat {
    if h == [] then 0
    else Admissions(h[..|h| - 1]) + One(h[|h| - 1].Asked? && h[|h| - 1].admitted)
  }

  /** Reported outcomes in the history. */
  function Reports(h: seq<B.Event>): nat {
    if h == [] then 0 else Reports(h[..|h| - 1]) + One(!h[|h| - 1].Asked?)
  }

  /**
    Conservation: a breaker admission is a started call, one waiting for a token,
    or one the limiter gave up on; a started call has reported once or is in flight.
   */
  predicate Conserved(s: Pool) {
    && Admissions(s.events) == s.started + Count(s.callers, Waiting) + Count(s.callers, Ended(LimiterError))
    && s.started == Reports(s.events) + Count(s.callers, InCall)
  }

  predicate BreakerRuns(cfg: Config, s: Pool) {
    && B.Run(cfg.breaker, s.events) && s.status == B.After(cfg.breaker, s.events)
    && B.Chronological(s.events) && (forall e <- s.events :: e.at <= s.now)
  }

  predicate LimiterRuns(cfg: Config, start: int, s: Pool)
    requires cfg.Valid()
  {
    var full := L.Bucket(cfg.limiter.burst, start);
    && s.bucket == L.After(cfg.limiter, full, s.polls) && s.started == L.Admitted(cfg.limiter, full, s.polls)
    && start <= s.now && (forall t <- s.polls :: start <= t <= s.now)
  }

  predicate CallersOk(cfg: Config, s: Pool) {
    forall id <- s.callers :: CallerOk(cfg, s.callers[id])
  }

  predicate Inv(cfg: Config, start: int, s: Pool)
    requires cfg.Valid()
  {
    Counted(cfg, s) && Conserved(s) && BreakerRuns(cfg, s) && LimiterRuns(cfg, start, s) && CallersOk(cfg, s)
  }

  // ----- every step keeps it -----

  /** A caller inside `Do` is among the holders, so there is a slot to give back. */
  lemma HolderCounted(s: Pool, id: nat)
    requires id in s.callers && InClass(s.callers[id].phase, Holding)
    ensures Count(s.callers, Holding) >= 1
  {
    assert id in Ids(s.callers, Holding);
    assert |Ids(s.callers, Holding) - {id}| == |Ids(s.callers, Holding)| - 1;
  }

  /** Only the acting caller moves. */
  lemma StepMoves(cfg: Config, s: Pool, a: Action, c: Class)
    requires cfg.Valid() && Enabled(cfg, s, a) && !a.Advance?
    ensures var t := Step(cfg, s, a);
      && a.id in t.callers
      && Count(t.callers, c) == Count(s.callers, c)
           - One(a.id in s.callers && InClass(s.callers[a.id].phase, c)) + One(InClass(t.callers[a.id].phase, c))
  {
    var t := Step(cfg, s, a);
    assert t.callers == s.callers[a.id := t.callers[a.id]];
    CountUpdate(s.callers, a.id, t.callers[a.id], c);
  }

  lemma StepHolders(cfg: Config, s: Pool, a: Action)
    requires cfg.Valid() && Enabled(cfg, s, a) && !a.Advance?
    requires s.sem == s.inFlight == Count(s.callers, Holding) <= cfg.workers
    ensures var t := Step(cfg, s, a); t.sem == t.inFlight == Count(t.callers, Holding) <= cfg.workers
  {
    if a.id in s.callers && InClass(s.callers[a.id].phase, Holding) {
      HolderCounted(s, a.id);
    }
    StepMoves(cfg, s, a, Holding);
  }

  lemma StepOutcomes(cfg: Config, s: Pool, a: Action)
    requires cfg.Valid() && Enabled(cfg, s, a) && !a.Advance?
    ensures var t := Step(cfg, s, a);
      && t.completed - s.completed == Count(t.callers, Ended(Completed)) - Count(s.callers, Ended(Completed))
      && t.failed - s.failed == Count(t.callers, Ended(Exhausted)) - Count(s.callers, Ended(Exhausted))
      && t.rejected - s.rejected == Count(t.callers, Ended(Rejected)) - Count(s.callers, Ended(Rejected))
  {
    StepMoves(cfg, s, a, Ended(Completed));
    StepMoves(cfg, s, a, Ended(Exhausted));
    StepMoves(cfg, s, a, Ended(Rejected));
  }

  lemma StepCounts(cfg: Config, s: Pool, a: Action)
    requires cfg.Valid() && Enabled(cfg, s, a) && Counted(cfg, s)
    ensures Counted(cfg, Step(cfg, s, a))
  {
    if !a.Advance? {
      StepHolders(cfg, s, a);
      StepOutcomes(cfg, s, a);
    }
  }

  lemma EventCounts(h: seq<B.Event>, e: B.Event)
    ensures Admissions(h + [e]) == Admissions(h) + One(e.Asked? && e.admitted)
    ensures Reports(h + [e]) == Reports(h) + One(!e.Asked?)
  {
    assert (h + [e])[..|h|] == h;
  }

  /** Admissions and reports move with the callers waiting, in a call or turned away by the limiter. */
  lemma StepFlows(cfg: Config, s: Pool, a: Action)
    requires cfg.Valid() && Enabled(cfg, s, a) && !a.Advance?
    ensures var t := Step(cfg, s, a);
      && Admissions(t.events) - Admissions(s.events) == (t.started - s.started)
           + (Count(t.callers, Waiting) - Count(s.callers, Waiting))
           + (Count(t.callers, Ended(LimiterError)) - Count(s.callers, Ended(LimiterError)))
  {
    StepMoves(cfg, s, a, Waiting);
    StepMoves(cfg, s, a, Ended(LimiterError));
    StepEvents(cfg, s, a);
  }

  lemma StepReports(cfg: Config, s: Pool, a: Action)
    requires cfg.Valid() && Enabled(cfg, s, a) && !a.Advance?
    ensures var t := Step(cfg, s, a);
      t.started - s.started
      == (Reports(t.events) - Reports(s.events)) + (Count(t.callers, InCall) - Count(s.callers, InCall))
  {
    StepMoves(cfg, s, a, InCall);
    StepEvents(cfg, s, a);
  }

  lemma StepEvents(cfg: Config, s: Pool, a: Action)
    requires cfg.Valid() && Enabled(cfg, s, a)
    ensures var t := Step(cfg, s, a);
      && Admissions(t.events) == Admissions(s.events)
           + One(a.Ask? && B.Allow(cfg.breaker, s.status, s.now).1)
      && Reports(t.events) == Reports(s.events) + One(a.CallSucceeds? || a.CallFails?)
  {
    if a.Ask? {
      EventCounts(s.events, B.Asked(s.now, B.Allow(cfg.breaker, s.status, s.now).1));
    } else if a.CallSucceeds? {
      EventCounts(s.events, B.Succeeded(s.now));
    } else if a.CallFails? {
      EventCounts(s.events, B.Failed(s.now));
    }
  }

  lemma StepConserves(cfg: Config, s: Pool, a: Action)
    requires cfg.Valid() && Enabled(cfg, s, a) && Conserved(s)
    ensures Conserved(Step(cfg, s, a))
  {
    if !a.Advance? {
      StepFlows(cfg, s, a);
      StepReports(cfg, s, a);
    }
  }

  /** The history grows by one event at the current time, answered as the breaker answers. */
  lemma EventRuns(cfg: Config, s: Pool, e: B.Event)
    requires BreakerRuns(cfg, s) && e.at == s.now
    requires e.Asked? ==> e.admitted == B.Allow(cfg.breaker, s.status, s.now).1
    ensures var h := s.events + [e];
      && B.Run(cfg.breaker, h) && B.Chronological(h) && (forall x <- h :: x.at <= s.now)
      && B.After(cfg.breaker, h) == (match e
           case Asked(_, _) => B.Allow(cfg.breaker, s.status, s.now).0
           case Succeeded(_) => B.Success(cfg.breaker, s.status)
           case Failed(_) => B.Failure(cfg.breaker, s.status, s.now))
  {
    var h := s.events + [e];
    assert h[..|h| - 1] == s.events;
    assert forall i :: 0 <= i < |s.events| ==> s.events[i] in s.events;
  }

  lemma AskBreaker(cfg: Config, s: Pool, id: nat)
    requires cfg.Valid() && At(s, id, Gate) && BreakerRuns(cfg, s)
    ensures BreakerRuns(cfg, Step(cfg, s, Ask(id)))
  {
    EventRuns(cfg, s, B.Asked(s.now, B.Allow(cfg.breaker, s.status, s.now).1));
  }

  lemma SuccessBreaker(cfg: Config, s: Pool, id: nat)
    requires cfg.Valid() && At(s, id, Calling) && BreakerRuns(cfg, s)
    ensures BreakerRuns(cfg, Step(cfg, s, CallSucceeds(id)))
  {
    EventRuns(cfg, s, B.Succeeded(s.now));
  }

  lemma FailureBreaker(cfg: Config, s: Pool, id: nat, cancelled: bool)
    requires cfg.Valid() && At(s, id, Calling) && BreakerRuns(cfg, s)
    ensures BreakerRuns(cfg, Step(cfg, s, CallFails(id, cancelled)))
  {
    EventRuns(cfg, s, B.Failed(s.now));
  }

  /** Every other step leaves the breaker alone. */
  lemma QuietStep(cfg: Config, s: Pool, a: Action)
    requires cfg.Valid() && Enabled(cfg, s, a) && !a.Ask? && !a.CallSucceeds? && !a.CallFails?
    ensures var t := Step(cfg, s, a); t.status == s.status && t.events == s.events && t.now >= s.now
  {
  }

  lemma StepBreaker(cfg: Config, s: Pool, a: Action)
    requires cfg.Valid() && Enabled(cfg, s, a) && BreakerRuns(cfg, s)
    ensures BreakerRuns(cfg, Step(cfg, s, a))
  {
    match a
    case Ask(id) => AskBreaker(cfg, s, id);
    case CallSucceeds(id) => SuccessBreaker(cfg, s, id);
    case CallFails(id, cancelled) => FailureBreaker(cfg, s, id, cancelled);
    case _ => QuietStep(cfg, s, a);
  }

  lemma StepLimiter(cfg: Config, start: int, s: Pool, a: Action)
    requires cfg.Valid() && Enabled(cfg, s, a) && LimiterRuns(cfg, start, s)
    ensures LimiterRuns(cfg, start, Step(cfg, s, a))
  {
    if a.Poll? {
      L.AfterAppend(cfg.limiter, L.Bucket(cfg.limiter.burst, start), s.polls, s.now);
    }
  }

  lemma StepCallers(cfg: Config, s: Pool, a: Action)
    requires cfg.Valid() && Enabled(cfg, s, a) && CallersOk(cfg, s)
    ensures CallersOk(cfg, Step(cfg, s, a))
  {
  }

  lemma StepKeepsInv(cfg: Config, start: int, s: Pool, a: Action)
    requires cfg.Valid() && Enabled(cfg, s, a) && Inv(cfg, start, s)
    ensures Inv(cfg, start, Step(cfg, s, a))
  {
    StepCounts(cfg, s, a);
    StepConserves(cfg, s, a);
    StepBreaker(cfg, s, a);
    StepLimiter(cfg, start, s, a);
    StepCallers(cfg, s, a);
  }

  // ----- what one call goes through -----

  /**
    A failed, uncancelled call with attempts left backs off, keeping its slot, and tries
    again; only after MaxRetries + 1 transport calls does it give up and free the slot.
   */
  lemma FailureRetries(cfg: Config, start: int, s: Pool, id: nat)
    requires cfg.Valid() && Inv(cfg, start, s) && At(s, id, Calling)
    ensures var t := Step(cfg, s, CallFails(id, false));
      && id in t.callers && t.callers[id].calls == s.callers[id].calls == s.callers[id].attempt + 1
      && (s.callers[id].attempt < cfg.maxRetries ==>
            At(t, id, Backoff) && t.callers[id].attempt == s.callers[id].attempt + 1 && t.sem == s.sem)
      && (s.callers[id].attempt == cfg.maxRetries ==>
            At(t, id, Returned(Exhausted)) && t.callers[id].calls == cfg.maxRetries + 1 && t.sem == s.sem - 1)
  {
    HolderCounted(s, id);
  }

  /** A caller that has given up is not retried, whether its call failed, its sleep ended or the limiter refused it. */
  lemma CancelledStops(cfg: Config, start: int, s: Pool, id: nat)
    requires cfg.Valid() && Inv(cfg, start, s)
    ensures At(s, id, Calling) ==>
      var t := Step(cfg, s, CallFails(id, true));
      At(t, id, Returned(Exhausted)) && t.failed == s.failed + 1 && t.sem == s.sem - 1
    ensures At(s, id, Backoff) ==>
      var t := Step(cfg, s, SleepCancelled(id)); At(t, id, Returned(Cancelled)) && t.sem == s.sem - 1
    ensures At(s, id, Throttle) ==>
      var t := Step(cfg, s, WaitFails(id));
      At(t, id, Returned(LimiterError)) && t.sem == s.sem - 1 && t.status == s.status && t.events == s.events
  {
    if id in s.callers && InClass(s.callers[id].phase, Holding) {
      HolderCounted(s, id);
    }
  }

  /** Waking from a backoff leads back to the breaker with the same attempt. */
  lemma WakeTriesAgain(cfg: Config, s: Pool, id: nat)
    requires cfg.Valid() && At(s, id, Backoff)
    ensures Enabled(cfg, s, Wake(id))
    ensures var t := Step(cfg, s, Wake(id));
      At(t, id, Gate) && t.callers[id].attempt == s.callers[id].attempt && t.callers[id].calls == s.callers[id].calls
  {
  }

  /** The breaker decides whether a caller goes on to the limiter or is turned away. */
  lemma AskDecides(cfg: Config, s: Pool, id: nat)
    requires cfg.Valid() && At(s, id, Gate)
    ensures var t := Step(cfg, s, Ask(id));
      if B.Allow(cfg.breaker, s.status, s.now).1 then At(t, id, Throttle) && t.rejected == s.rejected
      else At(t, id, Returned(Rejected)) && t.rejected == s.rejected + 1
  {
  }

  /** The limiter decides whether it calls now or keeps waiting. */
  lemma PollDecides(cfg: Config, s: Pool, id: nat)
    requires cfg.Valid() && At(s, id, Throttle)
    ensures var t := Step(cfg, s, Poll(id));
      if L.Reserve(cfg.limiter, s.bucket, s.now).ok
      then At(t, id, Calling) && t.callers[id].calls == s.callers[id].calls + 1 && t.started == s.started + 1
      else At(t, id, Throttle) && t.callers == s.callers
  {
  }

  /** A success returns at once and frees the slot. */
  lemma SuccessReturns(cfg: Config, start: int, s: Pool, id: nat)
    requires cfg.Valid() && Inv(cfg, start, s) && At(s, id, Calling)
    ensures var t := Step(cfg, s, CallSucceeds(id));
      At(t, id, Returned(Completed)) && t.completed == s.completed + 1 && t.sem == s.sem - 1
  {
    HolderCounted(s, id);
  }

  /** An unfinished call can always take a step, and a queued one takes a slot whenever one is free. */
  lemma NeverStuck(cfg: Config, s: Pool, id: nat)
    requires cfg.Valid() && id in s.callers && !s.callers[id].phase.Returned?
    ensures exists a: Action :: !a.Advance? && a.id == id && Enabled(cfg, s, a)
    ensures s.callers[id].phase.Queued? && s.sem < cfg.workers ==>
      Enabled(cfg, s, Acquire(id)) && At(Step(cfg, s, Acquire(id)), id, Gate)
  {
    match s.callers[id].phase
    case Queued => assert Enabled(cfg, s, Abandon(id));
    case Gate => assert Enabled(cfg, s, Ask(id));
    case Throttle => assert Enabled(cfg, s, Poll(id));
    case Calling => assert Enabled(cfg, s, CallSucceeds(id));
    case Backoff => assert Enabled(cfg, s, Wake(id));
  }

  // ----- whole runs -----

  /** The state after a schedule, or none if some step is not enabled. */
  datatype Reached = Stuck | Reach(pool: Pool)

  function RunFrom(cfg: Config, s: Pool, schedule: seq<Action>): Reached
    requires cfg.Valid()
  {
    if schedule == [] then Reach(s)
    else
      match RunFrom(cfg, s, schedule[..|schedule| - 1])
      case Stuck => Stuck
      case Reach(t) =>
        var a := schedule[|schedule| - 1];
        if Enabled(cfg, t, a) then Reach(Step(cfg, t, a)) else Stuck
  }

  lemma InitialInv(cfg: Config, start: int)
    requires cfg.Valid()
    ensures Inv(cfg, start, Initial(cfg, start))
  {
    assert forall c: Class :: Ids(map[], c) == {};
  }

  lemma {:induction false} RunKeepsInv(cfg: Config, start: int, schedule: seq<Action>)
    requires cfg.Valid()
    ensures var r := RunFrom(cfg, Initial(cfg, start), schedule); r.Reach? ==> Inv(cfg, start, r.pool)
  {
    if schedule == [] {
      InitialInv(cfg, start);
    } else {
      RunKeepsInv(cfg, start, schedule[..|schedule| - 1]);
      match RunFrom(cfg, Initial(cfg, start), schedule[..|schedule| - 1])
      case Stuck =>
      case Reach(t) =>
        if Enabled(cfg, t, schedule[|schedule| - 1]) {
          StepKeepsInv(cfg, start, t, schedule[|schedule| - 1]);
        }
    }
  }

  /**
    In every interleaving: transport calls started by now number at most
    burst + rate * (now - start), at most `workers` are in flight, and no single
    `Do` starts more than MaxRetries + 1.
   */
  lemma PoolSafety(cfg: Config, start: int, schedule: seq<Action>)
    requires cfg.Valid()
    ensures var r := RunFrom(cfg, Initial(cfg, start), schedule);
      r.Reach? ==>
        && r.pool.started as real <= cfg.limiter.burst + L.Accrual(cfg.limiter, r.pool.now - start)
        && Count(r.pool.callers, InCall) <= r.pool.inFlight <= cfg.workers
        && (forall id <- r.pool.callers :: r.pool.callers[id].calls <= cfg.maxRetries + 1)
        && Conserved(r.pool)
  {
    RunKeepsInv(cfg, start, schedule);
    var r := RunFrom(cfg, Initial(cfg, start), schedule);
    if r.Reach? {
      InCallHold(r.pool.callers);
      L.AdmittedInWindow(cfg.limiter, L.Bucket(cfg.limiter.burst, start), r.pool.polls, start, r.pool.now);
    }
  }

  /** In every interleaving the breaker admits no call within the cooldown of a failure that left it tripped. */
  lemma PoolRespectsCooldown(cfg: Config, start: int, schedule: seq<Action>, i: nat, j: nat)
    requires cfg.Valid() && cfg.breaker.threshold > 0
    requires RunFrom(cfg, Initial(cfg, start), schedule).Reach?
    requires var h := RunFrom(cfg, Initial(cfg, start), schedule).pool.events;
      && i < j < |h| && h[i].Failed? && B.Tripped(cfg.breaker, h[..i + 1])
      && (forall k :: i < k < j ==> !h[k].Succeeded?) && h[j].Asked? && h[j].admitted
    ensures var h := RunFrom(cfg, Initial(cfg, start), schedule).pool.events;
      h[j].at - h[i].at >= cfg.breaker.cooldown
  {
    RunKeepsInv(cfg, start, schedule);
    B.CooldownRespected(cfg.breaker, RunFrom(cfg, Initial(cfg, start), schedule).pool.events, i, j);
  }
}
