/**
  The concentrated-liquidity quote of internal/amm/v3.go as a pure function: the
  tick-by-tick walk, deriving every tick price on demand, and the theorems about
  whole walks.
 */
module SwapV3 {
  import opened Arith
  import opened Common
  import opened TickMath
  import opened SwapStep
  import Sorting

  const BPS: nat := 10000

  datatype Tick = Tick(index: int, liquidityNet: int, sqrtRatio: Option<nat>)

  datatype V3Pool = V3Pool(sqrtPrice: int, liquidity: int, tick: int, feeBps: nat, ticks: seq<Tick>)

  /** `SqrtRatioX96` caches `GetSqrtRatioAtTick(Index)`, or is absent. */
  predicate CacheValid(t: Tick) {
    t.sqrtRatio.Some? ==> InRange(t.index) && t.sqrtRatio.value == SqrtRatio(t.index)
  }

  predicate CachesValid(ticks: seq<Tick>) {
    forall t <- ticks :: CacheValid(t)
  }

  // ----- tick order -----

  predicate Sorted(ticks: seq<Tick>) {
    forall i, j :: 0 <= i < j < |ticks| ==> ticks[i].index <= ticks[j].index
  }

  predicate DistinctIndices(ticks: seq<Tick>) {
    forall i, j :: 0 <= i < j < |ticks| ==> ticks[i].index != ticks[j].index
  }

  predicate IndexLeq(a: Tick, b: Tick) {
    a.index <= b.index
  }

  /** `sort.Slice` by index. */
  function SortByIndex(ticks: seq<Tick>): seq<Tick> {
    Sorting.Sort(IndexLeq, ticks)
  }

  lemma SortByIndexSorts(ticks: seq<Tick>)
    ensures Sorted(SortByIndex(ticks))
    ensures multiset(SortByIndex(ticks)) == multiset(ticks)
    ensures |SortByIndex(ticks)| == |ticks|
  {
    Sorting.SortPermutes(IndexLeq, ticks);
    Sorting.SortOrders(IndexLeq, ticks);
    assert Sorting.Ordered(IndexLeq, SortByIndex(ticks));
    forall i, j | 0 <= i < j < |ticks|
      ensures SortByIndex(ticks)[i].index <= SortByIndex(ticks)[j].index
    {
      assert IndexLeq(SortByIndex(ticks)[i], SortByIndex(ticks)[j]);
    }
  }

  lemma SortedOrdered(ticks: seq<Tick>)
    requires Sorted(ticks)
    ensures Sorting.Ordered(IndexLeq, ticks)
  {
  }

  /** With distinct indices every sort of the ticks gives this one order. */
  lemma SortUnique(ticks: seq<Tick>, other: seq<Tick>)
    requires DistinctIndices(ticks) && Sorted(other) && multiset(other) == multiset(ticks)
    ensures other == SortByIndex(ticks)
  {
    SortByIndexSorts(ticks);
    SortedOrdered(other);
    SortedOrdered(SortByIndex(ticks));
    forall i, j | 0 <= i < |other| && 0 <= j < |other| && IndexLeq(other[i], other[j]) && IndexLeq(other[j], other[i])
      ensures other[i] == other[j]
    {
      assert other[i] in multiset(ticks) && other[j] in multiset(ticks);
      var k :| 0 <= k < |ticks| && ticks[k] == other[i];
      var l :| 0 <= l < |ticks| && ticks[l] == other[j];
      assert ticks[k].index == ticks[l].index;
    }
    Sorting.OrderUnique(IndexLeq, other, SortByIndex(ticks));
  }

  /** `sortedTicks`: ordered ticks are used as they are. */
  function SortedTicks(ticks: seq<Tick>): (r: seq<Tick>)
    ensures Sorted(r) && multiset(r) == multiset(ticks) && |r| == |ticks|
  {
    SortByIndexSorts(ticks);
    if Sorted(ticks) then ticks else SortByIndex(ticks)
  }

  /**
    `nextInitializedTick`: downward the last tick at or below `current`, upward
    the first tick strictly above it.
   */
  function NextTick(ticks: seq<Tick>, current: int, zeroForOne: bool): Option<Tick> {
    if ticks == [] then None
    else if zeroForOne then
      var last := ticks[|ticks| - 1];
      if last.index <= current then Some(last) else NextTick(ticks[..|ticks| - 1], current, zeroForOne)
    else if ticks[0].index > current then Some(ticks[0])
    else NextTick(ticks[1..], current, zeroForOne)
  }

  // ----- the walk -----

  datatype SwapState = SwapState(remaining: int, out: nat, price: nat, liquidity: int, tick: int)

  /** Why the walk stopped. Every case but the first two is reported as insufficient liquidity. */
  datatype Stop =
    | Filled(out: nat, left: int)
    | BadTick
    | NoLiquidity
    | WindowEnded
    | NoProgress
    | LoopEnded

  function Decrement32(i: int): int {
    if i == -0x8000_0000 then 0x7fff_ffff else i - 1
  }

  /** The tick the price sits in after crossing the tick at `index`. */
  function TickAfter(index: int, zeroForOne: bool): int {
    if zeroForOne then Decrement32(index) else index
  }

  function AfterStep(s: SwapState, d: Step): SwapState {
    SwapState(s.remaining - d.Cost(), s.out + d.out, d.next, s.liquidity, s.tick)
  }

  function AfterCross(s: SwapState, t: Tick, zeroForOne: bool): SwapState {
    s.(liquidity := if zeroForOne then s.liquidity - t.liquidityNet else s.liquidity + t.liquidityNet,
       tick := TickAfter(t.index, zeroForOne))
  }

  /** The loop of `SwapV3Into` with `turns` turns left. */
  function Walk(ticks: seq<Tick>, turns: nat, s: SwapState, feePips: nat, zeroForOne: bool): Stop
    requires feePips < PIPS
  {
    if s.remaining <= 0 then Filled(s.out, s.remaining)
    else if turns == 0 then LoopEnded
    else if s.liquidity <= 0 then NoLiquidity
    else
      match NextTick(ticks, s.tick, zeroForOne)
      case None => WindowEnded
      case Some(t) =>
        if !InRange(t.index) then BadTick
        else
          var d := ComputeStep(s.price, s.liquidity, s.remaining, SqrtRatio(t.index), feePips, zeroForOne);
          var s' := AfterStep(s, d);
          if s'.remaining <= 0 then Filled(s'.out, s'.remaining)
          else if !d.reached then NoProgress
          else Walk(ticks, turns - 1, AfterCross(s', t, zeroForOne), feePips, zeroForOne)
  }

  function Settle(stop: Stop): Result<nat> {
    match stop
    case Filled(out, _) => Ok(out)
    case BadTick => Err(TickOutOfRange)
    case _ => Err(InsufficientLiquidity)
  }

  function Start(amountIn: int, p: V3Pool): SwapState
    requires p.sqrtPrice > 0
  {
    SwapState(amountIn, 0, p.sqrtPrice, p.liquidity, p.tick)
  }

  function WholeWalk(amountIn: int, p: V3Pool, zeroForOne: bool): Stop
    requires p.feeBps < BPS && p.sqrtPrice > 0
  {
    Walk(SortedTicks(p.ticks), |p.ticks| + 1, Start(amountIn, p), p.feeBps * 100, zeroForOne)
  }

  /** The quote: `SwapV3`. */
  function Quote(amountIn: int, p: V3Pool, zeroForOne: bool): Result<nat> {
    if amountIn <= 0 then Err(ZeroAmount)
    else if p.feeBps >= BPS then Err(InvalidFee)
    else if p.liquidity <= 0 || p.sqrtPrice <= 0 then Err(InsufficientLiquidity)
    else Settle(WholeWalk(amountIn, p, zeroForOne))
  }

  // ----- consistency of the pool state -----

  predicate Ahead(index: int, tick: int, zeroForOne: bool) {
    if zeroForOne then index <= tick else index > tick
  }

  /** Every tick still ahead of the price lies on the side the price moves to. */
  predicate Aligned(ticks: seq<Tick>, price: int, tick: int, zeroForOne: bool) {
    && price > 0
    && forall t <- ticks :: InRange(t.index) &&
         (Ahead(t.index, tick, zeroForOne) ==> Toward(price, SqrtRatio(t.index), zeroForOne))
  }

  /** Ticks at or below the current one are priced at or below, the others at or above. */
  predicate Consistent(p: V3Pool) {
    && p.sqrtPrice > 0
    && forall t <- p.ticks :: InRange(t.index) &&
         (if t.index <= p.tick then SqrtRatio(t.index) <= p.sqrtPrice else SqrtRatio(t.index) >= p.sqrtPrice)
  }

  lemma ConsistentAligned(p: V3Pool, zeroForOne: bool)
    requires Consistent(p)
    ensures Aligned(SortedTicks(p.ticks), p.sqrtPrice, p.tick, zeroForOne)
  {
    var ticks := SortedTicks(p.ticks);
    forall t <- ticks
      ensures InRange(t.index)
      ensures Ahead(t.index, p.tick, zeroForOne) ==> Toward(p.sqrtPrice, SqrtRatio(t.index), zeroForOne)
    {
      assert t in multiset(ticks);
      assert t in p.ticks;
      SqrtRatioBounds(t.index);
    }
  }

  /** A pool whose price lies in the range its tick names is consistent, whatever ticks were fetched. */
  lemma SlotConsistent(p: V3Pool)
    requires MIN_TICK <= p.tick < MAX_TICK
    requires SqrtRatio(p.tick) <= p.sqrtPrice <= SqrtRatio(p.tick + 1)
    requires forall t <- p.ticks :: InRange(t.index)
    ensures Consistent(p)
  {
    SqrtRatioBounds(p.tick);
    forall t <- p.ticks
      ensures if t.index <= p.tick then SqrtRatio(t.index) <= p.sqrtPrice else SqrtRatio(t.index) >= p.sqrtPrice
    {
      if t.index < p.tick {
        SqrtRatioMonotone(t.index, p.tick);
      } else if t.index > p.tick + 1 {
        SqrtRatioMonotone(p.tick + 1, t.index);
      }
    }
  }

  // ----- ticks left to cross -----

  function CountAhead(ticks: seq<Tick>, tick: int, zeroForOne: bool): (n: nat)
    ensures n <= |ticks|
  {
    if ticks == [] then 0
    else (if Ahead(ticks[0].index, tick, zeroForOne) then 1 else 0) + CountAhead(ticks[1..], tick, zeroForOne)
  }

  lemma {:induction false} NextTickAhead(ticks: seq<Tick>, tick: int, zeroForOne: bool)
    ensures var n := NextTick(ticks, tick, zeroForOne);
      n.Some? ==> n.value in ticks && Ahead(n.value.index, tick, zeroForOne)
    ensures NextTick(ticks, tick, zeroForOne).None? ==> forall t <- ticks :: !Ahead(t.index, tick, zeroForOne)
  {
    if ticks != [] {
      if zeroForOne {
        NextTickAhead(ticks[..|ticks| - 1], tick, zeroForOne);
      } else {
        NextTickAhead(ticks[1..], tick, zeroForOne);
      }
    }
  }

  /** In sorted ticks no tick lies between the price and the tick the walk picks. */
  lemma {:induction false} NextTickNearest(ticks: seq<Tick>, tick: int, zeroForOne: bool, t: Tick)
    requires Sorted(ticks) && t in ticks && Ahead(t.index, tick, zeroForOne)
    ensures var n := NextTick(ticks, tick, zeroForOne);
      n.Some? && (if zeroForOne then t.index <= n.value.index else t.index >= n.value.index)
  {
    if zeroForOne {
      var last := ticks[|ticks| - 1];
      if last.index > tick {
        NextTickNearest(ticks[..|ticks| - 1], tick, zeroForOne, t);
      }
    } else if ticks[0].index <= tick {
      NextTickNearest(ticks[1..], tick, zeroForOne, t);
    }
  }

  /** Crossing a tick leaves strictly fewer ticks ahead. */
  lemma {:induction false} CrossingCounts(ticks: seq<Tick>, tick: int, index: int, zeroForOne: bool)
    requires InRange(index) && Ahead(index, tick, zeroForOne)
    ensures CountAhead(ticks, TickAfter(index, zeroForOne), zeroForOne) <= CountAhead(ticks, tick, zeroForOne)
    ensures (exists t <- ticks :: t.index == index) ==>
      CountAhead(ticks, TickAfter(index, zeroForOne), zeroForOne) < CountAhead(ticks, tick, zeroForOne)
  {
    if ticks != [] {
      CrossingCounts(ticks[1..], tick, index, zeroForOne);
      assert forall t <- ticks :: t == ticks[0] || t in ticks[1..];
    }
  }

  /** Crossing a tick keeps the remaining ticks on the right side of the new price. */
  lemma CrossingAligned(ticks: seq<Tick>, price: int, tick: int, t: Tick, zeroForOne: bool)
    requires Aligned(ticks, price, tick, zeroForOne)
    requires NextTick(ticks, tick, zeroForOne) == Some(t)
    ensures InRange(t.index) && Toward(price, SqrtRatio(t.index), zeroForOne)
    ensures Aligned(ticks, SqrtRatio(t.index), TickAfter(t.index, zeroForOne), zeroForOne)
    ensures CountAhead(ticks, TickAfter(t.index, zeroForOne), zeroForOne) < CountAhead(ticks, tick, zeroForOne)
  {
    NextTickAhead(ticks, tick, zeroForOne);
    CrossingCounts(ticks, tick, t.index, zeroForOne);
    forall u <- ticks | Ahead(u.index, TickAfter(t.index, zeroForOne), zeroForOne)
      ensures Toward(SqrtRatio(t.index), SqrtRatio(u.index), zeroForOne)
    {
      SqrtRatioBounds(u.index);
      SqrtRatioBounds(t.index);
      if zeroForOne {
        SqrtRatioMonotone(u.index, t.index);
      } else {
        SqrtRatioMonotone(t.index, u.index);
      }
    }
  }

  // ----- whole walks -----

  /** One turn, with the step's result named. */
  lemma WalkTurn(ticks: seq<Tick>, turns: nat, s: SwapState, t: Tick, d: Step, feePips: nat, zeroForOne: bool)
    requires feePips < PIPS && s.remaining > 0 && turns > 0 && s.liquidity > 0
    requires NextTick(ticks, s.tick, zeroForOne) == Some(t) && InRange(t.index)
    requires d == ComputeStep(s.price, s.liquidity, s.remaining, SqrtRatio(t.index), feePips, zeroForOne)
    ensures Walk(ticks, turns, s, feePips, zeroForOne) ==
      if s.remaining <= d.Cost() then Filled(s.out + d.out, s.remaining - d.Cost())
      else if !d.reached then NoProgress
      else Walk(ticks, turns - 1, AfterCross(AfterStep(s, d), t, zeroForOne), feePips, zeroForOne)
  {
  }

  /** `value` stands for the outcome of walks over the given ticks. */
  ghost predicate Values(value: (nat, SwapState) -> Stop, ticks: seq<Tick>, feePips: nat, zeroForOne: bool) {
    && feePips < PIPS
    && forall t: nat, u: SwapState {:trigger Walk(ticks, t, u, feePips, zeroForOne)} ::
         value(t, u) == Walk(ticks, t, u, feePips, zeroForOne)
  }

  /** A walk with input left can only fill with liquidity and a boundary ahead. */
  lemma FilledNeeds(ticks: seq<Tick>, turns: nat, s: SwapState, feePips: nat, zeroForOne: bool)
    requires feePips < PIPS && s.remaining > 0 && Walk(ticks, turns, s, feePips, zeroForOne).Filled?
    ensures s.liquidity > 0 && NextTick(ticks, s.tick, zeroForOne).Some?
  {
  }

  lemma TurnSafe(s: SwapState, target: nat, feePips: nat, zeroForOne: bool) returns (d: Step)
    requires feePips < PIPS && s.remaining >= 0 && s.liquidity > 0 && Toward(s.price, target, zeroForOne)
    ensures d == ComputeStep(s.price, s.liquidity, s.remaining, target, feePips, zeroForOne)
    ensures d.Cost() <= s.remaining && (!d.reached ==> d.Cost() == s.remaining)
    ensures d.reached ==> d.next == target
    ensures WithinSpot(d.Cost(), d.out, s.price, zeroForOne)
  {
    d := ComputeStep(s.price, s.liquidity, s.remaining, target, feePips, zeroForOne);
    StepSafe(s.price, s.liquidity, s.remaining, target, feePips, zeroForOne);
    StepWithinSpot(s.price, s.liquidity, s.remaining, target, feePips, zeroForOne);
  }

  /** The walk from `s` filled exactly and within spot, or ran out of ticks or of liquidity. */
  predicate SafeStop(stop: Stop, s: SwapState, zeroForOne: bool) {
    && (stop.Filled? || stop.WindowEnded? || stop.NoLiquidity?)
    && (stop.Filled? ==> stop.left == 0 && stop.out >= s.out
                         && WithinSpot(s.remaining, stop.out - s.out, s.price, zeroForOne))
  }

  lemma SafeBefore(stop: Stop, s: SwapState, s': SwapState, d: Step, zeroForOne: bool)
    requires SafeStop(stop, s', zeroForOne) && Toward(s.price, s'.price, zeroForOne)
    requires WithinSpot(d.Cost(), d.out, s.price, zeroForOne)
    requires s'.out == s.out + d.out && s'.remaining == s.remaining - d.Cost() >= 0
    ensures SafeStop(stop, s, zeroForOne)
  {
    if stop.Filled? {
      SpotAccumulates(s.price, s'.price, d.Cost(), d.out, s'.remaining, stop.out - s'.out, zeroForOne);
    }
  }

  /**
    On aligned ticks a walk with enough turns ends by filling the order exactly,
    by running out of ticks or by running out of liquidity: it never stalls short
    of a boundary and never falls out of the loop. What it pays stays within spot.
   */
  lemma WalkSafe(ticks: seq<Tick>, turns: nat, s: SwapState, feePips: nat, zeroForOne: bool)
    requires feePips < PIPS && s.remaining >= 0
    requires Aligned(ticks, s.price, s.tick, zeroForOne)
    requires turns > CountAhead(ticks, s.tick, zeroForOne)
    ensures SafeStop(Walk(ticks, turns, s, feePips, zeroForOne), s, zeroForOne)
  {
    SafeFrom(ticks, turns, s, feePips, zeroForOne, (t: nat, u: SwapState) => Walk(ticks, t, u, feePips, zeroForOne));
  }

  lemma {:induction false} SafeFrom(ticks: seq<Tick>, turns: nat, s: SwapState, feePips: nat, zeroForOne: bool,
                                    value: (nat, SwapState) -> Stop)
    requires Values(value, ticks, feePips, zeroForOne) && s.remaining >= 0
    requires Aligned(ticks, s.price, s.tick, zeroForOne)
    requires turns > CountAhead(ticks, s.tick, zeroForOne)
    ensures SafeStop(value(turns, s), s, zeroForOne)
    decreases turns
  {
    var next := NextTick(ticks, s.tick, zeroForOne);
    if s.remaining == 0 || s.liquidity <= 0 || next.None? {
      IdleSafe(ticks, turns, s, feePips, zeroForOne);
    } else {
      var d, s' := SafeTurn(ticks, turns, s, next.value, feePips, zeroForOne, value);
      if s.remaining > d.Cost() {
        SafeFrom(ticks, turns - 1, s', feePips, zeroForOne, value);
        SafeBefore(value(turns - 1, s'), s, s', d, zeroForOne);
      }
    }
  }

  lemma IdleSafe(ticks: seq<Tick>, turns: nat, s: SwapState, feePips: nat, zeroForOne: bool)
    requires feePips < PIPS && s.remaining >= 0 && turns > 0
    requires s.remaining == 0 || s.liquidity <= 0 || NextTick(ticks, s.tick, zeroForOne).None?
    ensures SafeStop(Walk(ticks, turns, s, feePips, zeroForOne), s, zeroForOne)
  {
  }

  /** The rest of the walk starts from a worse price, so its bound holds at the first price too. */
  /** One turn on aligned ticks: it fills within spot, or crosses into an aligned state with fewer ticks ahead. */
  lemma SafeTurn(ticks: seq<Tick>, turns: nat, s: SwapState, t: Tick, feePips: nat, zeroForOne: bool,
                 value: (nat, SwapState) -> Stop) returns (d: Step, s': SwapState)
    requires Values(value, ticks, feePips, zeroForOne) && s.remaining > 0 && s.liquidity > 0
    requires Aligned(ticks, s.price, s.tick, zeroForOne) && turns > CountAhead(ticks, s.tick, zeroForOne)
    requires NextTick(ticks, s.tick, zeroForOne) == Some(t)
    ensures d.Cost() <= s.remaining && WithinSpot(d.Cost(), d.out, s.price, zeroForOne)
    ensures s.remaining == d.Cost() ==> value(turns, s) == Filled(s.out + d.out, 0)
    ensures s.remaining > d.Cost() ==>
      && turns >= 1 && value(turns, s) == value(turns - 1, s')
      && s'.out == s.out + d.out && s'.remaining == s.remaining - d.Cost() && Toward(s.price, s'.price, zeroForOne)
      && Aligned(ticks, s'.price, s'.tick, zeroForOne) && turns - 1 > CountAhead(ticks, s'.tick, zeroForOne)
  {
    CrossingAligned(ticks, s.price, s.tick, t, zeroForOne);
    d := TurnSafe(s, SqrtRatio(t.index), feePips, zeroForOne);
    WalkTurn(ticks, turns, s, t, d, feePips, zeroForOne);
    s' := AfterCross(AfterStep(s, d), t, zeroForOne);
  }

  lemma SpotAccumulates(price: nat, later: nat, in1: nat, out1: nat, in2: nat, out2: nat, zeroForOne: bool)
    requires Toward(price, later, zeroForOne)
    requires WithinSpot(in1, out1, price, zeroForOne) && WithinSpot(in2, out2, later, zeroForOne)
    ensures WithinSpot(in1 + in2, out1 + out2, price, zeroForOne)
  {
    if zeroForOne {
      MulLe2(later, price, later, price);
      MulLe(later * later, price * price, in2);
      assert (in1 + in2) * (price * price) == in1 * (price * price) + in2 * (price * price);
    } else {
      MulLe2(price, later, price, later);
      MulLe(price * price, later * later, out2);
      assert (out1 + out2) * (price * price) == out1 * (price * price) + out2 * (price * price);
    }
  }

  /** A filled walk never pays less than it had already collected. */
  lemma {:induction false} WalkPays(ticks: seq<Tick>, turns: nat, s: SwapState, feePips: nat, zeroForOne: bool)
    requires feePips < PIPS
    ensures var stop := Walk(ticks, turns, s, feePips, zeroForOne); stop.Filled? ==> stop.out >= s.out
    decreases turns
  {
    var next := NextTick(ticks, s.tick, zeroForOne);
    if s.remaining > 0 && turns > 0 && s.liquidity > 0 && next.Some? && InRange(next.value.index) {
      var d := ComputeStep(s.price, s.liquidity, s.remaining, SqrtRatio(next.value.index), feePips, zeroForOne);
      WalkPays(ticks, turns - 1, AfterCross(AfterStep(s, d), next.value, zeroForOne), feePips, zeroForOne);
    }
  }

  /** What the two steps of the same turn have to do with each other. */
  predicate StepsOrdered(less: nat, more: nat, d: Step, e: Step) {
    && d.out <= e.out
    && (d.reached ==> d == e)
    && d.Cost() <= less && (!d.reached ==> d.Cost() == less)
    && e.Cost() <= more && (!e.reached ==> e.Cost() == more)
  }

  lemma StepPair(s: SwapState, less: nat, target: nat, feePips: nat, zeroForOne: bool) returns (d: Step, e: Step)
    requires feePips < PIPS && less <= s.remaining && s.liquidity > 0 && Toward(s.price, target, zeroForOne)
    ensures d == ComputeStep(s.price, s.liquidity, less, target, feePips, zeroForOne)
    ensures e == ComputeStep(s.price, s.liquidity, s.remaining, target, feePips, zeroForOne)
    ensures e.reached ==> e.next == target
    ensures StepsOrdered(less, s.remaining, d, e)
  {
    d := ComputeStep(s.price, s.liquidity, less, target, feePips, zeroForOne);
    e := ComputeStep(s.price, s.liquidity, s.remaining, target, feePips, zeroForOne);
    StepMono(s.price, s.liquidity, less, s.remaining, target, feePips, zeroForOne);
    StepSafe(s.price, s.liquidity, less, target, feePips, zeroForOne);
    StepSafe(s.price, s.liquidity, s.remaining, target, feePips, zeroForOne);
  }

  /** One turn of both walks, with the two steps named and `big` where the larger one goes on. */
  lemma PairTurn(ticks: seq<Tick>, turns: nat, s: SwapState, less: nat, feePips: nat, zeroForOne: bool,
                 value: (nat, SwapState) -> Stop) returns (d: Step, e: Step, big: SwapState)
    requires Values(value, ticks, feePips, zeroForOne) && 0 < less <= s.remaining
    requires Aligned(ticks, s.price, s.tick, zeroForOne) && value(turns, s).Filled?
    ensures StepsOrdered(less, s.remaining, d, e)
    ensures s.remaining <= e.Cost() ==> value(turns, s).out == s.out + e.out
    ensures s.remaining > e.Cost() ==>
      && turns >= 1 && value(turns, s) == value(turns - 1, big) && big.out == s.out + e.out
      && big.remaining == s.remaining - e.Cost() && Aligned(ticks, big.price, big.tick, zeroForOne)
    ensures less <= d.Cost() ==> value(turns, s.(remaining := less)) == Filled(s.out + d.out, less - d.Cost())
    ensures less > d.Cost() ==>
      turns >= 1 && value(turns, s.(remaining := less)) == value(turns - 1, big.(remaining := less - d.Cost()))
  {
    assert value(turns, s) == Walk(ticks, turns, s, feePips, zeroForOne);
    FilledNeeds(ticks, turns, s, feePips, zeroForOne);
    var t := NextTick(ticks, s.tick, zeroForOne).value;
    CrossingAligned(ticks, s.price, s.tick, t, zeroForOne);
    d, e := StepPair(s, less, SqrtRatio(t.index), feePips, zeroForOne);
    var smaller := s.(remaining := less);
    WalkTurn(ticks, turns, s, t, e, feePips, zeroForOne);
    WalkTurn(ticks, turns, smaller, t, d, feePips, zeroForOne);
    big := AfterCross(AfterStep(s, e), t, zeroForOne);
    if less > d.Cost() {
      assert AfterCross(AfterStep(smaller, d), t, zeroForOne) == big.(remaining := less - d.Cost());
    }
  }

  /**
    One turn of both walks: either the smaller one is filled here, for no more than
    the larger one has collected by now, or both cross into the same state `big`.
   */
  lemma TurnMono(ticks: seq<Tick>, turns: nat, s: SwapState, less: nat, feePips: nat, zeroForOne: bool,
                 value: (nat, SwapState) -> Stop) returns (crossed: bool, big: SwapState, left: nat)
    requires Values(value, ticks, feePips, zeroForOne) && 0 < less <= s.remaining
    requires Aligned(ticks, s.price, s.tick, zeroForOne) && value(turns, s).Filled?
    ensures crossed ==>
      && turns >= 1 && left <= big.remaining && Aligned(ticks, big.price, big.tick, zeroForOne)
      && value(turns, s) == value(turns - 1, big)
      && value(turns, s.(remaining := less)) == value(turns - 1, big.(remaining := left))
    ensures !crossed ==>
      value(turns, s.(remaining := less)).Filled? && value(turns, s.(remaining := less)).out <= value(turns, s).out
  {
    var d, e, after := PairTurn(ticks, turns, s, less, feePips, zeroForOne, value);
    crossed, big, left := less > d.Cost(), after, 0;
    if crossed {
      left := less - d.Cost();
    } else if s.remaining > e.Cost() {
      assert value(turns - 1, big) == Walk(ticks, turns - 1, big, feePips, zeroForOne);
      WalkPays(ticks, turns - 1, big, feePips, zeroForOne);
    }
  }

  /**
    Two walks from the same state share every fully crossed range and differ only
    in where they stop: if the larger input fills, so does the smaller, for no more.
   */
  lemma WalkMono(ticks: seq<Tick>, turns: nat, s: SwapState, less: nat, feePips: nat, zeroForOne: bool)
    requires feePips < PIPS && less <= s.remaining
    requires Aligned(ticks, s.price, s.tick, zeroForOne)
    requires Walk(ticks, turns, s, feePips, zeroForOne).Filled?
    ensures var small := Walk(ticks, turns, s.(remaining := less), feePips, zeroForOne);
      small.Filled? && small.out <= Walk(ticks, turns, s, feePips, zeroForOne).out
  {
    MonoFrom(ticks, turns, s, less, feePips, zeroForOne,
             (t: nat, u: SwapState) => Walk(ticks, t, u, feePips, zeroForOne));
  }

  lemma {:induction false} MonoFrom(ticks: seq<Tick>, turns: nat, s: SwapState, less: nat, feePips: nat, zeroForOne: bool,
                                    value: (nat, SwapState) -> Stop)
    requires Values(value, ticks, feePips, zeroForOne) && less <= s.remaining
    requires Aligned(ticks, s.price, s.tick, zeroForOne) && value(turns, s).Filled?
    ensures value(turns, s.(remaining := less)).Filled? && value(turns, s.(remaining := less)).out <= value(turns, s).out
    decreases turns
  {
    if less == 0 {
      NothingToSell(ticks, turns, s, feePips, zeroForOne, value);
    } else {
      var crossed, big, left := TurnMono(ticks, turns, s, less, feePips, zeroForOne, value);
      if crossed {
        MonoFrom(ticks, turns - 1, big, left, feePips, zeroForOne, value);
      }
    }
  }

  lemma NothingToSell(ticks: seq<Tick>, turns: nat, s: SwapState, feePips: nat, zeroForOne: bool,
                      value: (nat, SwapState) -> Stop)
    requires Values(value, ticks, feePips, zeroForOne) && value(turns, s).Filled?
    ensures value(turns, s.(remaining := 0)) == Filled(s.out, 0) && value(turns, s).out >= s.out
  {
    assert value(turns, s) == Walk(ticks, turns, s, feePips, zeroForOne);
    assert value(turns, s.(remaining := 0)) == Walk(ticks, turns, s.(remaining := 0), feePips, zeroForOne);
    WalkPays(ticks, turns, s, feePips, zeroForOne);
  }

  // ----- theorems about quotes -----

  /** For a consistent pool the loop needs no exit besides success and the two shortages. */
  lemma QuoteExits(amountIn: nat, p: V3Pool, zeroForOne: bool)
    requires Consistent(p) && p.feeBps < BPS
    ensures var stop := WholeWalk(amountIn, p, zeroForOne);
      && (stop.Filled? || stop.WindowEnded? || stop.NoLiquidity?)
      && (stop.Filled? ==> stop.left == 0)
  {
    ConsistentAligned(p, zeroForOne);
    WalkSafe(SortedTicks(p.ticks), |p.ticks| + 1, Start(amountIn, p), p.feeBps * 100, zeroForOne);
  }

  /** Which error a consistent pool's quote gives, in the order the program checks. */
  lemma QuoteErrors(amountIn: int, p: V3Pool, zeroForOne: bool)
    requires Consistent(p)
    ensures Quote(amountIn, p, zeroForOne) == Err(ZeroAmount) <==> amountIn <= 0
    ensures Quote(amountIn, p, zeroForOne) == Err(InvalidFee) <==> amountIn > 0 && p.feeBps >= 10000
    ensures amountIn > 0 && p.feeBps < 10000 && p.liquidity <= 0 ==>
      Quote(amountIn, p, zeroForOne) == Err(InsufficientLiquidity)
    ensures Quote(amountIn, p, zeroForOne) != Err(TickOutOfRange)
  {
    if amountIn > 0 && p.feeBps < BPS {
      QuoteExits(amountIn, p, zeroForOne);
    }
  }

  /** However many ticks are crossed, a quote never beats the starting spot price. */
  lemma QuoteWithinSpot(amountIn: int, p: V3Pool, zeroForOne: bool)
    requires Consistent(p) && Quote(amountIn, p, zeroForOne).Ok?
    ensures WithinSpot(amountIn, Quote(amountIn, p, zeroForOne).value, p.sqrtPrice, zeroForOne)
  {
    ConsistentAligned(p, zeroForOne);
    WalkSafe(SortedTicks(p.ticks), |p.ticks| + 1, Start(amountIn, p), p.feeBps * 100, zeroForOne);
  }

  /** If `y` is quotable then every positive `x <= y` is, and for no more output. */
  lemma QuoteMonotone(x: int, y: int, p: V3Pool, zeroForOne: bool)
    requires Consistent(p) && 0 < x <= y && Quote(y, p, zeroForOne).Ok?
    ensures Quote(x, p, zeroForOne).Ok?
    ensures Quote(x, p, zeroForOne).value <= Quote(y, p, zeroForOne).value
  {
    WholeWalkMono(x, y, p, zeroForOne);
  }

  lemma WholeWalkMono(x: nat, y: nat, p: V3Pool, zeroForOne: bool)
    requires Consistent(p) && p.feeBps < BPS && x <= y && WholeWalk(y, p, zeroForOne).Filled?
    ensures var small := WholeWalk(x, p, zeroForOne);
      small.Filled? && small.out <= WholeWalk(y, p, zeroForOne).out
  {
    ConsistentAligned(p, zeroForOne);
    WalkMono(SortedTicks(p.ticks), |p.ticks| + 1, Start(y, p), x, p.feeBps * 100, zeroForOne);
  }

  /** Selling and selling back through one pool at one snapshot never profits. */
  lemma RoundTripNeverProfits(amountIn: int, p: V3Pool, zeroForOne: bool)
    requires Consistent(p)
    ensures var there := Quote(amountIn, p, zeroForOne);
      there.Ok? ==>
        var back := Quote(there.value, p, !zeroForOne);
        back.Ok? ==> back.value <= amountIn
  {
    var there := Quote(amountIn, p, zeroForOne);
    if there.Ok? {
      var back := Quote(there.value, p, !zeroForOne);
      if back.Ok? {
        QuoteWithinSpot(amountIn, p, zeroForOne);
        QuoteWithinSpot(there.value, p, !zeroForOne);
        SpotRoundTrip(amountIn, there.value, back.value, p.sqrtPrice, zeroForOne);
      }
    }
  }

  /** Two quotes within spot in opposite directions cannot gain. */
  lemma SpotRoundTrip(amountIn: int, mid: int, back: int, price: int, zeroForOne: bool)
    requires price > 0 && WithinSpot(amountIn, mid, price, zeroForOne) && WithinSpot(mid, back, price, !zeroForOne)
    ensures back <= amountIn
  {
    MulSign(price, price);
    CancelLe(back, amountIn, if zeroForOne then price * price else Q192);
  }

  /**
    A swap that stays inside its first range quotes the constant-product output
    over the virtual reserves for the net-of-fee input, rounded down by less than
    one unit of price: L/2^96 + 1 selling token0, L*2^96/P^2 + 1 selling token1.
   */
  lemma QuoteWithinOneRange(amountIn: int, p: V3Pool, t: Tick, zeroForOne: bool)
    requires Consistent(p) && amountIn > 0 && p.feeBps < BPS && p.liquidity > 0
    requires NextTick(SortedTicks(p.ticks), p.tick, zeroForOne) == Some(t) && InRange(t.index)
    requires NetOf(amountIn, p.feeBps) < InputTo(p.liquidity, p.sqrtPrice, SqrtRatio(t.index), zeroForOne)
    ensures Quote(amountIn, p, zeroForOne).Ok?
    ensures var out := Quote(amountIn, p, zeroForOne).value as real;
      var net := NetOf(amountIn, p.feeBps) as real;
      var (x, y) := (Virtual0(p.liquidity, p.sqrtPrice), Virtual1(p.liquidity, p.sqrtPrice));
      if zeroForOne then
        out <= ConstantProduct(x, y, net) < out + 1.0 + p.liquidity as real / Q96 as real
      else
        out <= ConstantProduct(y, x, net)
            < out + 1.0 + (p.liquidity * Q96) as real / (p.sqrtPrice * p.sqrtPrice) as real
  {
    var ticks := SortedTicks(p.ticks);
    var net := LessFee(amountIn, p.feeBps * 100);
    NetOfFee(amountIn, p.feeBps);
    ConsistentAligned(p, zeroForOne);
    CrossingAligned(ticks, p.sqrtPrice, p.tick, t, zeroForOne);
    var d := TurnSafe(Start(amountIn, p), SqrtRatio(t.index), p.feeBps * 100, zeroForOne);
    WalkTurn(ticks, |p.ticks| + 1, Start(amountIn, p), t, d, p.feeBps * 100, zeroForOne);
    assert d.out == OutputTo(p.liquidity, p.sqrtPrice, NextPrice(p.liquidity, p.sqrtPrice, net, zeroForOne), zeroForOne);
    if zeroForOne {
      RangeDown(p.liquidity, p.sqrtPrice, net);
    } else {
      RangeUp(p.liquidity, p.sqrtPrice, net);
    }
  }

  // ----- prepared ticks quote like the raw ones -----

  predicate Derivable(t: Tick) {
    t.sqrtRatio.Some? || InRange(t.index)
  }

  function WithRatio(t: Tick): Tick
    requires Derivable(t)
  {
    if t.sqrtRatio.Some? then t else t.(sqrtRatio := Some(SqrtRatio(t.index)))
  }

  /** `PrepareTicks`: a sorted copy with every price filled in. */
  function PrepareTicks(ticks: seq<Tick>): Result<seq<Tick>> {
    var sorted := SortByIndex(ticks);
    if forall t <- sorted :: Derivable(t) then
      Ok(seq(|sorted|, i requires 0 <= i < |sorted| => WithRatio(sorted[i])))
    else
      Err(TickOutOfRange)
  }

  /** Same boundaries and liquidity changes, whatever is cached. */
  predicate SameTicks(a: seq<Tick>, b: seq<Tick>) {
    && |a| == |b|
    && forall i :: 0 <= i < |a| ==> a[i].index == b[i].index && a[i].liquidityNet == b[i].liquidityNet
  }

  lemma {:induction false} NextTickSame(a: seq<Tick>, b: seq<Tick>, tick: int, zeroForOne: bool)
    requires SameTicks(a, b)
    ensures var (m, n) := (NextTick(a, tick, zeroForOne), NextTick(b, tick, zeroForOne));
      && m.Some? == n.Some?
      && (m.Some? ==> m.value.index == n.value.index && m.value.liquidityNet == n.value.liquidityNet)
  {
    if a != [] {
      if zeroForOne {
        NextTickSame(a[..|a| - 1], b[..|b| - 1], tick, zeroForOne);
      } else {
        NextTickSame(a[1..], b[1..], tick, zeroForOne);
      }
    }
  }

  lemma WalkSame(a: seq<Tick>, b: seq<Tick>, turns: nat, s: SwapState, feePips: nat, zeroForOne: bool)
    requires SameTicks(a, b) && feePips < PIPS
    ensures Walk(a, turns, s, feePips, zeroForOne) == Walk(b, turns, s, feePips, zeroForOne)
  {
    SameFrom(a, b, turns, s, feePips, zeroForOne, (t: nat, u: SwapState) => Walk(a, t, u, feePips, zeroForOne),
             (t: nat, u: SwapState) => Walk(b, t, u, feePips, zeroForOne));
  }

  lemma {:induction false} SameFrom(a: seq<Tick>, b: seq<Tick>, turns: nat, s: SwapState, feePips: nat, zeroForOne: bool,
                                    va: (nat, SwapState) -> Stop, vb: (nat, SwapState) -> Stop)
    requires SameTicks(a, b) && Values(va, a, feePips, zeroForOne) && Values(vb, b, feePips, zeroForOne)
    ensures va(turns, s) == vb(turns, s)
    decreases turns
  {
    var goesOn, next := SameTurn(a, b, turns, s, feePips, zeroForOne, va, vb);
    if goesOn {
      SameFrom(a, b, turns - 1, next, feePips, zeroForOne, va, vb);
    }
  }

  /** One turn over either window ends both walks alike or leads to the same state. */
  lemma SameTurn(a: seq<Tick>, b: seq<Tick>, turns: nat, s: SwapState, feePips: nat, zeroForOne: bool,
                 va: (nat, SwapState) -> Stop, vb: (nat, SwapState) -> Stop) returns (goesOn: bool, next: SwapState)
    requires SameTicks(a, b) && Values(va, a, feePips, zeroForOne) && Values(vb, b, feePips, zeroForOne)
    ensures goesOn ==> turns >= 1 && va(turns, s) == va(turns - 1, next) && vb(turns, s) == vb(turns - 1, next)
    ensures !goesOn ==> va(turns, s) == vb(turns, s)
  {
    assert va(turns, s) == Walk(a, turns, s, feePips, zeroForOne);
    assert vb(turns, s) == Walk(b, turns, s, feePips, zeroForOne);
    NextTickSame(a, b, s.tick, zeroForOne);
    var (t, u) := (NextTick(a, s.tick, zeroForOne), NextTick(b, s.tick, zeroForOne));
    goesOn, next := false, s;
    if s.remaining > 0 && turns > 0 && s.liquidity > 0 && t.Some? && InRange(t.value.index) {
      var d := ComputeStep(s.price, s.liquidity, s.remaining, SqrtRatio(t.value.index), feePips, zeroForOne);
      WalkTurn(a, turns, s, t.value, d, feePips, zeroForOne);
      WalkTurn(b, turns, s, u.value, d, feePips, zeroForOne);
      next := AfterCross(AfterStep(s, d), t.value, zeroForOne);
      goesOn := s.remaining > d.Cost() && d.reached;
    }
  }

  lemma SortedTicksIsSort(ticks: seq<Tick>)
    ensures SortedTicks(ticks) == SortByIndex(ticks)
  {
    if Sorted(ticks) {
      SortedOrdered(ticks);
      Sorting.SortKeepsOrdered(IndexLeq, ticks);
    }
  }

  lemma PreparedShape(ticks: seq<Tick>, prepared: seq<Tick>)
    requires CachesValid(ticks) && PrepareTicks(ticks) == Ok(prepared)
    ensures SameTicks(prepared, SortByIndex(ticks))
    ensures Sorted(prepared) && CachesValid(prepared)
    ensures forall t <- prepared :: t.sqrtRatio.Some? && InRange(t.index)
  {
    var sorted := SortByIndex(ticks);
    SortByIndexSorts(ticks);
    forall i | 0 <= i < |sorted|
      ensures CacheValid(sorted[i]) && prepared[i] == WithRatio(sorted[i]) && CacheValid(prepared[i])
    {
      assert sorted[i] in multiset(sorted);
      assert Derivable(sorted[i]);
    }
  }

  /** The walk over prepared ticks sees the order the on-demand walk sorts into. */
  lemma PreparedOrder(ticks: seq<Tick>, prepared: seq<Tick>)
    requires CachesValid(ticks) && PrepareTicks(ticks) == Ok(prepared)
    ensures SortedTicks(prepared) == prepared
    ensures SortedTicks(ticks) == SortByIndex(ticks) && |prepared| == |ticks|
  {
    PreparedShape(ticks, prepared);
    SortedTicksIsSort(ticks);
    SortByIndexSorts(ticks);
  }

  /** Preparation is an optimisation only: sorted, cached, in range, and every quote unchanged. */
  lemma PreparedQuote(amountIn: int, p: V3Pool, prepared: seq<Tick>, zeroForOne: bool)
    requires CachesValid(p.ticks) && PrepareTicks(p.ticks) == Ok(prepared)
    ensures Sorted(prepared) && CachesValid(prepared)
    ensures forall t <- prepared :: t.sqrtRatio.Some? && InRange(t.index)
    ensures Quote(amountIn, p.(ticks := prepared), zeroForOne) == Quote(amountIn, p, zeroForOne)
  {
    PreparedShape(p.ticks, prepared);
    if amountIn > 0 && p.feeBps < BPS && p.liquidity > 0 && p.sqrtPrice > 0 {
      PreparedWalk(amountIn, p, prepared, zeroForOne);
    }
  }

  lemma PreparedWalk(amountIn: int, p: V3Pool, prepared: seq<Tick>, zeroForOne: bool)
    requires CachesValid(p.ticks) && PrepareTicks(p.ticks) == Ok(prepared) && p.feeBps < BPS && p.sqrtPrice > 0
    ensures WholeWalk(amountIn, p.(ticks := prepared), zeroForOne) == WholeWalk(amountIn, p, zeroForOne)
  {
    var sorted := SortByIndex(p.ticks);
    PreparedOrder(p.ticks, prepared);
    assert SameTicks(prepared, sorted) by {
      PreparedShape(p.ticks, prepared);
    }
    WalkSame(prepared, sorted, |p.ticks| + 1, Start(amountIn, p), p.feeBps * 100, zeroForOne);
  }

  /** Preparation fails exactly when some tick lies outside the protocol bounds. */
  lemma PrepareFails(ticks: seq<Tick>)
    requires CachesValid(ticks)
    ensures PrepareTicks(ticks).Err? <==> exists t <- ticks :: !InRange(t.index)
  {
    SortByIndexSorts(ticks);
    var sorted := SortByIndex(ticks);
    assert forall t :: t in sorted <==> t in multiset(sorted);
    assert forall t :: t in ticks <==> t in multiset(ticks);
  }
}
