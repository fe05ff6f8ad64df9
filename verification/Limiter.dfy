/** The token bucket of internal/rpc/limiter.go, with real-valued tokens and integer nanoseconds. */
module Limiters {

  const SECOND: int := 1_000_000_000
  const MILLISECOND: int := 1_000_000

  datatype Config = Config(rate: real, burst: real) {
    predicate Valid() {
      rate > 0.0 && burst >= 1.0
    }
  }

  datatype Bucket = Bucket(tokens: real, last: int)

  predicate Full(cfg: Config, s: Bucket) {
    0.0 <= s.tokens <= cfg.burst
  }

  /** Tokens accrued over `elapsed` nanoseconds. */
  function Accrual(cfg: Config, elapsed: int): real {
    elapsed as real / SECOND as real * cfg.rate
  }

  function Accrue(cfg: Config, s: Bucket, now: int): Bucket {
    if now - s.last > 0 then
      var tokens := s.tokens + Accrual(cfg, now - s.last);
      Bucket(if tokens > cfg.burst then cfg.burst else tokens, now)
    else s
  }

  function Delay(cfg: Config, tokens: real): int
    requires cfg.Valid()
  {
    var wait := ((1.0 - tokens) / cfg.rate * SECOND as real).Floor;
    if wait < MILLISECOND then MILLISECOND else wait
  }

  datatype Reservation = Reservation(bucket: Bucket, delay: int, ok: bool)

  /** `reserve`: take a token, or say how long until one accrues. */
  function Reserve(cfg: Config, s: Bucket, now: int): Reservation
    requires cfg.Valid()
  {
    var a := Accrue(cfg, s, now);
    if a.tokens >= 1.0 then Reservation(a.(tokens := a.tokens - 1.0), 0, true)
    else Reservation(a, Delay(cfg, a.tokens), false)
  }

  /** The object under its mutex. */
  class Limiter {
    const ratePerSec: real
    const burst: real
    var tokens: real
    var last: int

    ghost function Cfg(): Config {
      Config(ratePerSec, burst)
    }

    ghost function Value(): Bucket
      reads this
    {
      Bucket(tokens, last)
    }

    ghost predicate Valid()
      reads this
    {
      Cfg().Valid() && Full(Cfg(), Value())
    }

    constructor (ratePerSec: real, burst: int, now: int)
      ensures Valid() && Value() == Bucket(this.burst, now)
      ensures ratePerSec > 0.0 ==> this.ratePerSec == ratePerSec
      ensures ratePerSec <= 0.0 ==> this.ratePerSec == 1.0
      ensures this.burst == (if burst < 1 then 1 else burst) as real
    {
      this.ratePerSec := if ratePerSec <= 0.0 then 1.0 else ratePerSec;
      this.burst := (if burst < 1 then 1 else burst) as real;
      tokens := (if burst < 1 then 1 else burst) as real;
      last := now;
    }

    method Take(now: int) returns (delay: int, ok: bool)
      requires Valid()
      modifies this
      ensures Valid()
      ensures Reservation(Value(), delay, ok) == Reserve(Cfg(), old(Value()), now)
      ensures !ok ==> delay >= MILLISECOND
    {
      AccrueKeepsFull(Cfg(), Value(), now);
      var elapsed := now - last;
      if elapsed > 0 {
        tokens := tokens + elapsed as real / SECOND as real * ratePerSec;
        if tokens > burst {
          tokens := burst;
        }
        last := now;
      }
      if tokens >= 1.0 {
        tokens := tokens - 1.0;
        return 0, true;
      }
      var needed := 1.0 - tokens;
      var wait := (needed / ratePerSec * SECOND as real).Floor;
      if wait < MILLISECOND {
        wait := MILLISECOND;
      }
      return wait, false;
    }
  }

  // ----- the rate over whole runs -----

  lemma AccrualSign(cfg: Config, elapsed: int)
    requires cfg.Valid() && elapsed >= 0
    ensures Accrual(cfg, elapsed) >= 0.0
  {
  }

  lemma AccrualAdds(cfg: Config, a: int, b: int)
    ensures Accrual(cfg, a + b) == Accrual(cfg, a) + Accrual(cfg, b)
  {
    assert (a + b) as real == a as real + b as real;
  }

  lemma AccrueKeepsFull(cfg: Config, s: Bucket, now: int)
    requires cfg.Valid() && Full(cfg, s)
    ensures Full(cfg, Accrue(cfg, s, now))
    ensures Accrue(cfg, s, now).last >= s.last
  {
    if now > s.last {
      AccrualSign(cfg, now - s.last);
    }
  }

  lemma ReserveKeepsFull(cfg: Config, s: Bucket, now: int)
    requires cfg.Valid() && Full(cfg, s)
    ensures Full(cfg, Reserve(cfg, s, now).bucket)
  {
    AccrueKeepsFull(cfg, s, now);
  }

  /** The bucket after a sequence of attempts, by any callers, at the given times. */
  function After(cfg: Config, s: Bucket, times: seq<int>): Bucket
    requires cfg.Valid()
    decreases |times|
  {
    if times == [] then s else After(cfg, Reserve(cfg, s, times[0]).bucket, times[1..])
  }

  /** How many of the attempts were admitted. */
  function Admitted(cfg: Config, s: Bucket, times: seq<int>): nat
    requires cfg.Valid()
    decreases |times|
  {
    if times == [] then 0
    else
      var r := Reserve(cfg, s, times[0]);
      (if r.ok then 1 else 0) + Admitted(cfg, r.bucket, times[1..])
  }

  lemma {:induction false} AfterAppend(cfg: Config, s: Bucket, times: seq<int>, now: int)
    requires cfg.Valid()
    ensures After(cfg, s, times + [now]) == Reserve(cfg, After(cfg, s, times), now).bucket
    ensures Admitted(cfg, s, times + [now])
         == Admitted(cfg, s, times) + if Reserve(cfg, After(cfg, s, times), now).ok then 1 else 0
    decreases |times|
  {
    if times == [] {
      assert times + [now] == [now];
      assert [now][1..] == [];
    } else {
      assert (times + [now])[1..] == times[1..] + [now];
      AfterAppend(cfg, Reserve(cfg, s, times[0]).bucket, times[1..], now);
    }
  }

  /** Admissions are paid for by the tokens present and those accrued by `end`. */
  lemma {:induction false} AdmittedPaidFor(cfg: Config, s: Bucket, times: seq<int>, end: int)
    requires cfg.Valid() && Full(cfg, s) && s.last <= end
    requires forall t <- times :: t <= end
    ensures Admitted(cfg, s, times) as real <= s.tokens + Accrual(cfg, end - s.last)
    decreases |times|
  {
    AccrualSign(cfg, end - s.last);
    if times != [] {
      var now := times[0];
      assert now in times && forall t <- times[1..] :: t in times;
      var r := Reserve(cfg, s, now);
      ReserveKeepsFull(cfg, s, now);
      AdmittedPaidFor(cfg, r.bucket, times[1..], end);
      if now > s.last {
        AccrualAdds(cfg, now - s.last, end - now);
      }
    }
  }

  /** Accruing at the moment of the first attempt changes nothing about the attempts. */
  lemma AdmittedAfterAccrue(cfg: Config, s: Bucket, times: seq<int>)
    requires cfg.Valid() && times != []
    ensures Admitted(cfg, s, times) == Admitted(cfg, Accrue(cfg, s, times[0]), times)
  {
    assert Accrue(cfg, Accrue(cfg, s, times[0]), times[0]) == Accrue(cfg, s, times[0]);
  }

  /** In any window, from any state, at most burst + rate * window attempts are admitted. */
  lemma AdmittedInWindow(cfg: Config, s: Bucket, times: seq<int>, begin: int, end: int)
    requires cfg.Valid() && Full(cfg, s) && begin <= end && s.last <= end
    requires forall t <- times :: begin <= t <= end
    ensures Admitted(cfg, s, times) as real <= cfg.burst + Accrual(cfg, end - begin)
  {
    AccrualSign(cfg, end - begin);
    if s.last >= begin {
      AdmittedPaidFor(cfg, s, times, end);
      AccrualAdds(cfg, s.last - begin, end - s.last);
      AccrualSign(cfg, s.last - begin);
    } else if times != [] {
      assert times[0] in times;
      var a := Accrue(cfg, s, times[0]);
      AccrueKeepsFull(cfg, s, times[0]);
      AdmittedAfterAccrue(cfg, s, times);
      AdmittedPaidFor(cfg, a, times, end);
      AccrualAdds(cfg, times[0] - begin, end - times[0]);
      AccrualSign(cfg, times[0] - begin);
    }
  }

  // ----- exactly which attempts are admitted -----

  predicate Ascending(times: seq<int>) {
    forall i, j :: 0 <= i < j < |times| ==> times[i] <= times[j]
  }

  /** How many of the attempts from the i-th on were admitted, in a run from a full bucket at `start`. */
  function AdmittedFrom(cfg: Config, start: int, times: seq<int>, i: nat): int
    requires cfg.Valid() && i <= |times|
  {
    var full := Bucket(cfg.burst, start);
    Admitted(cfg, full, times) - Admitted(cfg, full, times[..i])
  }

  /** Tokens present at `now` after the attempts. */
  function Level(cfg: Config, start: int, times: seq<int>, now: int): real
    requires cfg.Valid()
  {
    Accrue(cfg, After(cfg, Bucket(cfg.burst, start), times), now).tokens
  }

  /** `x` more admissions would keep every window that ends now within burst + rate * window. */
  predicate Spare(cfg: Config, start: int, times: seq<int>, now: int, x: real)
    requires cfg.Valid()
  {
    && x <= cfg.burst
    && forall i :: 0 <= i < |times| ==>
         x + AdmittedFrom(cfg, start, times, i) as real <= cfg.burst + Accrual(cfg, now - times[i])
  }

  /** The attempt at `now` was the last one so far. */
  predicate Since(start: int, times: seq<int>, now: int) {
    if times == [] then start <= now else times[|times| - 1] <= now
  }

  lemma {:induction false} LastAfter(cfg: Config, start: int, times: seq<int>)
    requires cfg.Valid() && Ascending(times) && forall t <- times :: start <= t
    ensures var b := After(cfg, Bucket(cfg.burst, start), times);
      b.last == (if times == [] then start else times[|times| - 1]) && Full(cfg, b)
    decreases |times|
  {
    if times != [] {
      var n := |times| - 1;
      var front := times[..n];
      assert forall t <- front :: t in times;
      LastAfter(cfg, start, front);
      assert times == front + [times[n]];
      AfterAppend(cfg, Bucket(cfg.burst, start), front, times[n]);
      ReserveKeepsFull(cfg, After(cfg, Bucket(cfg.burst, start), front), times[n]);
      if n > 0 {
        assert times[n - 1] <= times[n];
      } else {
        assert times[0] in times;
      }
    }
  }

  /** One attempt later: the level is what was left, plus what accrued since, capped. */
  lemma LevelStep(cfg: Config, start: int, front: seq<int>, t: int, now: int)
    requires cfg.Valid() && Ascending(front + [t]) && (forall u <- front + [t] :: start <= u) && t <= now
    ensures var taken := if Level(cfg, start, front, t) >= 1.0 then 1.0 else 0.0;
      var left := Level(cfg, start, front, t) - taken + Accrual(cfg, now - t);
      Level(cfg, start, front + [t], now) == if left > cfg.burst then cfg.burst else left
  {
    var full := Bucket(cfg.burst, start);
    AfterAppend(cfg, full, front, t);
    LastAfter(cfg, start, front + [t]);
    AccrualZero(cfg);
  }

  lemma AdmittedStep(cfg: Config, start: int, front: seq<int>, t: int, i: nat)
    requires cfg.Valid() && i <= |front|
    ensures AdmittedFrom(cfg, start, front + [t], i)
         == AdmittedFrom(cfg, start, front, i) + if Level(cfg, start, front, t) >= 1.0 then 1 else 0
  {
    AfterAppend(cfg, Bucket(cfg.burst, start), front, t);
    assert (front + [t])[..i] == front[..i];
  }

  /** The level is the spare room of the tightest window. */
  lemma {:induction false} LevelIsSpare(cfg: Config, start: int, times: seq<int>, now: int, x: real)
    requires cfg.Valid() && Ascending(times) && (forall t <- times :: start <= t) && Since(start, times, now)
    ensures x <= Level(cfg, start, times, now) <==> Spare(cfg, start, times, now, x)
    decreases |times|
  {
    if times == [] {
      AccrualSign(cfg, now - start);
    } else {
      var n := |times| - 1;
      var (front, t) := (times[..n], times[n]);
      assert times == front + [t];
      assert forall u <- front :: u in times;
      assert t in times;
      LevelStep(cfg, start, front, t, now);
      var taken := if Level(cfg, start, front, t) >= 1.0 then 1.0 else 0.0;
      var y := x + taken - Accrual(cfg, now - t);
      LevelIsSpare(cfg, start, front, t, y);
      forall i | 0 <= i <= |front|
        ensures AdmittedFrom(cfg, start, times, i) as real == AdmittedFrom(cfg, start, front, i) as real + taken
      {
        AdmittedStep(cfg, start, front, t, i);
      }
      SpareStep(cfg, start, front, t, now, x, taken);
    }
  }

  lemma SpareStep(cfg: Config, start: int, front: seq<int>, t: int, now: int, x: real, taken: real)
    requires cfg.Valid() && t <= now && (taken == 0.0 || taken == 1.0)
    requires forall i :: 0 <= i <= |front| ==>
      AdmittedFrom(cfg, start, front + [t], i) as real == AdmittedFrom(cfg, start, front, i) as real + taken
    ensures Spare(cfg, start, front + [t], now, x) <==>
      x <= cfg.burst && Spare(cfg, start, front, t, x + taken - Accrual(cfg, now - t))
  {
    var times := front + [t];
    var y := x + taken - Accrual(cfg, now - t);
    assert AdmittedFrom(cfg, start, front, |front|) == 0 by {
      assert front[..|front|] == front;
    }
    assert times[|front|] == t;
    forall i | 0 <= i < |front|
      ensures x + AdmittedFrom(cfg, start, times, i) as real <= cfg.burst + Accrual(cfg, now - times[i]) <==>
              y + AdmittedFrom(cfg, start, front, i) as real <= cfg.burst + Accrual(cfg, t - front[i])
    {
      AccrualAdds(cfg, now - t, t - front[i]);
    }
    if Spare(cfg, start, times, now, x) {
      assert x + AdmittedFrom(cfg, start, times, |front|) as real <= cfg.burst + Accrual(cfg, now - t);
      forall i | 0 <= i < |front|
        ensures y + AdmittedFrom(cfg, start, front, i) as real <= cfg.burst + Accrual(cfg, t - front[i])
      {
        assert x + AdmittedFrom(cfg, start, times, i) as real <= cfg.burst + Accrual(cfg, now - times[i]);
      }
    }
    if x <= cfg.burst && Spare(cfg, start, front, t, y) {
      forall i | 0 <= i < |times|
        ensures x + AdmittedFrom(cfg, start, times, i) as real <= cfg.burst + Accrual(cfg, now - times[i])
      {
        if i < |front| {
          assert y + AdmittedFrom(cfg, start, front, i) as real <= cfg.burst + Accrual(cfg, t - front[i]);
        }
      }
    }
  }

  /**
    An attempt is admitted exactly when one more admission keeps every window that ends
    at it within burst + rate * window: the limiter refuses nothing it need not.
   */
  lemma AdmittedExactly(cfg: Config, start: int, times: seq<int>, now: int)
    requires cfg.Valid() && Ascending(times) && (forall t <- times :: start <= t) && Since(start, times, now)
    ensures Reserve(cfg, After(cfg, Bucket(cfg.burst, start), times), now).ok <==> Spare(cfg, start, times, now, 1.0)
  {
    LevelIsSpare(cfg, start, times, now, 1.0);
  }

  /** A bucket with n tokens admits n attempts at once. */
  lemma {:induction false} BurstAtOnce(cfg: Config, tokens: real, now: int, n: nat)
    requires cfg.Valid() && n as real <= tokens
    ensures Admitted(cfg, Bucket(tokens, now), seq(n, _ => now)) == n
    decreases n
  {
    if n > 0 {
      var times := seq(n, _ => now);
      assert times[1..] == seq(n - 1, _ => now);
      BurstAtOnce(cfg, tokens - 1.0, now, n - 1);
    }
  }

  /** A refused caller is told the least wait, at least a millisecond, one nanosecond past which a token is there. */
  lemma DelayIsLeast(cfg: Config, tokens: real, wait: int)
    requires cfg.Valid() && tokens < 1.0 && wait >= MILLISECOND
    ensures Delay(cfg, tokens) >= 1_000_000
    ensures Delay(cfg, tokens) <= wait <==> Accrual(cfg, wait + 1) > 1.0 - tokens
  {
    var need := (1.0 - tokens) / cfg.rate * SECOND as real;
    NeedAccrues(1.0 - tokens, cfg.rate, SECOND as real);
    if Delay(cfg, tokens) <= wait {
      DelayCovers(cfg, tokens, wait);
    } else {
      assert need.Floor > wait;
      assert (wait + 1) as real <= need.Floor as real <= need;
      if (wait + 1) as real < need {
        ScaleLt((wait + 1) as real, need, SECOND as real, cfg.rate);
      }
    }
  }

  /** The rate is per second, in nanoseconds. */
  lemma AccrualPerSecond(cfg: Config)
    ensures Accrual(cfg, 1_000_000_000) == cfg.rate
  {
  }

  lemma AccrualZero(cfg: Config)
    ensures Accrual(cfg, 0) == 0.0
  {
  }

  // ----- a sole waiter -----

  /** One sleep of at least a millisecond repays any deficit below a millisecond's accrual. */
  lemma SleepRepays(cfg: Config, s: Bucket, now: int, next: int)
    requires cfg.Valid() && Full(cfg, s) && s.last == now && next - now >= MILLISECOND
    requires 1.0 - s.tokens <= Accrual(cfg, MILLISECOND)
    ensures Reserve(cfg, s, next).ok
  {
    AccrualAdds(cfg, MILLISECOND, next - now - MILLISECOND);
    AccrualSign(cfg, next - now - MILLISECOND);
  }

  /** need = x / rate * unit is the time whose accrual is x. */
  lemma NeedAccrues(x: real, rate: real, unit: real)
    requires rate > 0.0 && unit > 0.0
    ensures x / rate * unit / unit * rate == x
  {
    var y := x / rate;
    assert y * rate == x;
    assert y * unit / unit == y;
  }

  lemma ScaleLt(a: real, b: real, unit: real, rate: real)
    requires a < b && rate > 0.0 && unit > 0.0
    ensures a / unit * rate < b / unit * rate
  {
    var (x, y) := (a / unit, b / unit);
    assert x * unit == a && y * unit == b;
    assert x < y;
  }

  /** The truncated delay plus one nanosecond accrues more than the deficit. */
  lemma DelayCovers(cfg: Config, tokens: real, slept: int)
    requires cfg.Valid() && tokens < 1.0 && slept >= Delay(cfg, tokens)
    ensures Accrual(cfg, slept + 1) > 1.0 - tokens
  {
    var need := (1.0 - tokens) / cfg.rate * SECOND as real;
    assert need < need.Floor as real + 1.0;
    NeedAccrues(1.0 - tokens, cfg.rate, SECOND as real);
    ScaleLt(need, (slept + 1) as real, SECOND as real, cfg.rate);
  }

  /** Truncating the delay to whole nanoseconds leaves less than one nanosecond's tokens missing. */
  lemma FirstSleep(cfg: Config, s: Bucket, now: int, next: int)
    requires cfg.Valid() && Full(cfg, s) && s.last == now && s.tokens < 1.0
    requires next - now >= Delay(cfg, s.tokens)
    ensures Accrue(cfg, s, next).last == next && Full(cfg, Accrue(cfg, s, next))
    ensures 1.0 - Accrue(cfg, s, next).tokens < Accrual(cfg, 1)
  {
    AccrueKeepsFull(cfg, s, next);
    DelayCovers(cfg, s.tokens, next - now);
    AccrualAdds(cfg, next - now, 1);
    AccrualPositive(cfg);
  }

  lemma AccrualPositive(cfg: Config)
    requires cfg.Valid()
    ensures Accrual(cfg, 1) > 0.0
  {
  }

  /**
    A caller that is alone on the limiter and sleeps at least the delays it is told
    is admitted by its third attempt, that is after at most two sleeps.
   */
  lemma TwoSleepsSuffice(cfg: Config, s: Bucket, t0: int, t1: int, t2: int)
    requires cfg.Valid() && Full(cfg, s)
    requires var r0 := Reserve(cfg, s, t0); s.last <= t0 && !r0.ok && t1 - t0 >= r0.delay
    requires var r1 := Reserve(cfg, Reserve(cfg, s, t0).bucket, t1); !r1.ok ==> t2 - t1 >= r1.delay
    ensures var r1 := Reserve(cfg, Reserve(cfg, s, t0).bucket, t1);
      r1.ok || Reserve(cfg, r1.bucket, t2).ok
  {
    var r0 := Reserve(cfg, s, t0);
    AccrueKeepsFull(cfg, s, t0);
    FirstSleep(cfg, r0.bucket, t0, t1);
    var r1 := Reserve(cfg, r0.bucket, t1);
    if !r1.ok {
      AccrualAdds(cfg, 1, MILLISECOND - 1);
      AccrualSign(cfg, MILLISECOND - 1);
      SleepRepays(cfg, r1.bucket, t1, t2);
    }
  }
}
