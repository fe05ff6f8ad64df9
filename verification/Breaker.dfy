/** The circuit breaker of internal/rpc/breaker.go, characterised by its history. */
module Breakers {

  datatype State = Closed | Open | HalfOpen

  /** `threshold` consecutive failures open it, `cooldown` nanoseconds later it probes. */
  datatype Config = Config(threshold: int, cooldown: int)

  datatype Status = Status(state: State, failures: nat, openedAt: int, probeInFlight: bool)

  const INITIAL := Status(Closed, 0, 0, false)

  function Allow(cfg: Config, b: Status, now: int): (Status, bool) {
    if cfg.threshold <= 0 then (b, true)
    else
      match b.state
      case Closed => (b, true)
      case Open =>
        if now - b.openedAt < cfg.cooldown then (b, false)
        else (b.(state := HalfOpen, probeInFlight := true), true)
      case HalfOpen =>
        if b.probeInFlight then (b, false) else (b.(probeInFlight := true), true)
  }

  function Success(cfg: Config, b: Status): Status {
    if cfg.threshold <= 0 then b else b.(failures := 0, state := Closed, probeInFlight := false)
  }

  function Failure(cfg: Config, b: Status, now: int): Status {
    if cfg.threshold <= 0 then b
    else if b.state.HalfOpen? then b.(state := Open, openedAt := now, probeInFlight := false)
    else
      var failed := b.(failures := b.failures + 1);
      if failed.failures >= cfg.threshold then failed.(state := Open, openedAt := now, probeInFlight := false)
      else failed
  }

  /** The object under its mutex: every call is one of the steps above. */
  class Breaker {
    const threshold: int
    const cooldown: int
    var state: State
    var failures: nat
    var openedAt: int
    var probeInFlight: bool

    ghost function Cfg(): Config {
      Config(threshold, cooldown)
    }

    ghost function Value(): Status
      reads this
    {
      Status(state, failures, openedAt, probeInFlight)
    }

    constructor (threshold: int, cooldown: int)
      ensures Value() == INITIAL && this.threshold == threshold && this.cooldown > 0
      ensures this.cooldown == if cooldown > 0 then cooldown else 5_000_000_000
    {
      this.threshold := threshold;
      this.cooldown := if cooldown <= 0 then 5_000_000_000 else cooldown;
      state, failures, openedAt, probeInFlight := Closed, 0, 0, false;
    }

    method AllowCall(now: int) returns (ok: bool)
      modifies this
      ensures (Value(), ok) == Allow(Cfg(), old(Value()), now)
    {
      if threshold <= 0 {
        return true;
      }
      match state
      case Closed =>
        return true;
      case Open =>
        if now - openedAt < cooldown {
          return false;
        }
        state := HalfOpen;
        probeInFlight := true;
        return true;
      case HalfOpen =>
        if probeInFlight {
          return false;
        }
        probeInFlight := true;
        return true;
    }

    method RecordSuccess()
      modifies this
      ensures Value() == Success(Cfg(), old(Value()))
    {
      if threshold <= 0 {
        return;
      }
      failures := 0;
      state := Closed;
      probeInFlight := false;
    }

    method RecordFailure(now: int)
      modifies this
      ensures Value() == Failure(Cfg(), old(Value()), now)
    {
      if threshold <= 0 {
        return;
      }
      if state == HalfOpen {
        state := Open;
        openedAt := now;
        probeInFlight := false;
        return;
      }
      failures := failures + 1;
      if failures >= threshold {
        state := Open;
        openedAt := now;
        probeInFlight := false;
      }
    }
  }

  // ----- histories -----

  datatype Event = Asked(at: int, admitted: bool) | Succeeded(at: int) | Failed(at: int)

  /** The breaker after a history of calls. */
  function After(cfg: Config, h: seq<Event>): Status {
    if h == [] then INITIAL
    else
      var b := After(cfg, h[..|h| - 1]);
      match h[|h| - 1]
      case Asked(at, _) => Allow(cfg, b, at).0
      case Succeeded(_) => Success(cfg, b)
      case Failed(at) => Failure(cfg, b, at)
  }

  /** The history's answers are the ones the breaker gave. */
  predicate Run(cfg: Config, h: seq<Event>) {
    h == [] ||
    var front, last := h[..|h| - 1], h[|h| - 1];
    Run(cfg, front) && (last.Asked? ==> last.admitted == Allow(cfg, After(cfg, front), last.at).1)
  }

  /** Failures since the last success. */
  function FailuresSinceSuccess(h: seq<Event>): nat {
    if h == [] then 0
    else
      match h[|h| - 1]
      case Succeeded(_) => 0
      case Failed(_) => FailuresSinceSuccess(h[..|h| - 1]) + 1
      case Asked(_, _) => FailuresSinceSuccess(h[..|h| - 1])
  }

  /** Calls admitted since the last reported outcome. */
  function AdmittedSinceReport(h: seq<Event>): nat {
    if h == [] then 0
    else
      match h[|h| - 1]
      case Asked(_, admitted) => AdmittedSinceReport(h[..|h| - 1]) + if admitted then 1 else 0
      case _ => 0
  }

  /** Time of the most recent failure. */
  function LastFailure(h: seq<Event>): int {
    if h == [] then 0
    else
      match h[|h| - 1]
      case Failed(at) => at
      case _ => LastFailure(h[..|h| - 1])
  }

  /** Enough consecutive failures have been seen to trip. */
  predicate Tripped(cfg: Config, h: seq<Event>) {
    FailuresSinceSuccess(h) >= cfg.threshold
  }

  /**
    The state is a function of the history alone: closed until tripped; once
    tripped, open while no call has been admitted since the last outcome and
    half-open after exactly one; and the cooldown counts from the last failure.
   */
  lemma {:induction false} StateFromHistory(cfg: Config, h: seq<Event>)
    requires cfg.threshold > 0 && Run(cfg, h)
    ensures var b := After(cfg, h);
      && (b.state.Closed? <==> !Tripped(cfg, h))
      && (b.state.HalfOpen? <==> Tripped(cfg, h) && AdmittedSinceReport(h) == 1)
      && (b.state.Open? <==> Tripped(cfg, h) && AdmittedSinceReport(h) == 0)
      && (b.state.Closed? ==> b.failures == FailuresSinceSuccess(h))
      && (!b.state.Closed? ==> b.failures >= cfg.threshold && b.openedAt == LastFailure(h))
      && (b.probeInFlight <==> b.state.HalfOpen?)
  {
    if h != [] {
      StateFromHistory(cfg, h[..|h| - 1]);
    }
  }

  /** A call is admitted iff not tripped, or no probe is out and the cooldown since the last failure is over. */
  lemma AdmittedIff(cfg: Config, h: seq<Event>, now: int)
    requires cfg.threshold > 0 && Run(cfg, h)
    ensures Allow(cfg, After(cfg, h), now).1 <==>
      !Tripped(cfg, h) || (AdmittedSinceReport(h) == 0 && now - LastFailure(h) >= cfg.cooldown)
  {
    StateFromHistory(cfg, h);
  }

  /** A breaker without a positive threshold is disabled: it admits every call of every run. */
  lemma {:induction false} DisabledAdmits(cfg: Config, h: seq<Event>, i: nat)
    requires cfg.threshold <= 0 && Run(cfg, h) && i < |h| && h[i].Asked?
    ensures h[i].admitted
    decreases |h|
  {
    if i < |h| - 1 {
      DisabledAdmits(cfg, h[..|h| - 1], i);
    }
  }

  predicate Chronological(h: seq<Event>) {
    forall i, j :: 0 <= i < j < |h| ==> h[i].at <= h[j].at
  }

  lemma {:induction false} TrippedStays(cfg: Config, h: seq<Event>, i: nat)
    requires i < |h| && h[i].Failed? && Tripped(cfg, h[..i + 1])
    requires forall k :: i < k < |h| ==> !h[k].Succeeded?
    ensures Tripped(cfg, h)
    ensures exists k :: i <= k < |h| && h[k].Failed? && LastFailure(h) == h[k].at
    decreases |h|
  {
    if i == |h| - 1 {
      assert h[..i + 1] == h;
    } else {
      var front := h[..|h| - 1];
      assert front[..i + 1] == h[..i + 1];
      TrippedStays(cfg, front, i);
      var k :| i <= k < |front| && front[k].Failed? && LastFailure(front) == front[k].at;
      assert h[k] == front[k];
    }
  }

  /**
    Safety over whole runs: after a failure that leaves it tripped, no call is
    admitted until the cooldown has passed, unless a success comes in between.
   */
  lemma CooldownRespected(cfg: Config, h: seq<Event>, i: nat, j: nat)
    requires cfg.threshold > 0 && Run(cfg, h) && Chronological(h) && i < j < |h|
    requires h[i].Failed? && Tripped(cfg, h[..i + 1])
    requires forall k :: i < k < j ==> !h[k].Succeeded?
    requires h[j].Asked? && h[j].admitted
    ensures h[j].at - h[i].at >= cfg.cooldown
  {
    var before := h[..j];
    RunPrefix(cfg, h, j + 1);
    assert h[..j + 1][..j] == before;
    assert before[..i + 1] == h[..i + 1];
    TrippedStays(cfg, before, i);
    AdmittedIff(cfg, before, h[j].at);
    var k :| i <= k < |before| && before[k].Failed? && LastFailure(before) == before[k].at;
    assert h[i].at <= h[k].at;
  }

  lemma {:induction false} RunPrefix(cfg: Config, h: seq<Event>, n: nat)
    requires Run(cfg, h) && n <= |h|
    ensures Run(cfg, h[..n])
    decreases |h|
  {
    if n == |h| {
      assert h[..n] == h;
    } else {
      RunPrefix(cfg, h[..|h| - 1], n);
      assert h[..|h| - 1][..n] == h[..n];
    }
  }

  /** Once tripped, at most one probe is out between two reported outcomes. */
  lemma SingleProbe(cfg: Config, h: seq<Event>)
    requires cfg.threshold > 0 && Run(cfg, h) && Tripped(cfg, h)
    ensures AdmittedSinceReport(h) <= 1
  {
    StateFromHistory(cfg, h);
  }
}
