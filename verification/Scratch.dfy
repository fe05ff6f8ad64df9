/**
  The imperative swap code of internal/amm: the reusable workspace, the helpers
  that overwrite its cells, and the two swap routines proved to compute the pure
  quotes whatever the workspace held before.
 */
module Amm {
  import opened Arith
  import opened Common
  import opened TickMath
  import opened SwapStep
  import V2 = SwapV2
  import opened SwapV3

  /** A big integer: a cell updated in place and shared by reference. `slot` tells the cells of one workspace apart. */
  class BigInt {
    var v: int
    ghost const slot: nat

    constructor (x: int, ghost s: nat := 0)
      ensures v == x && slot == s
    {
      v := x;
      slot := s;
    }
  }

  /** New zero cells, each in its own slot. */
  method NewCells(n: nat) returns (c: seq<BigInt>)
    ensures |c| == n && forall i :: 0 <= i < n ==> fresh(c[i]) && c[i].slot == i
  {
    c := [];
    for i := 0 to n
      invariant |c| == i && forall j :: 0 <= j < i ==> fresh(c[j]) && c[j].slot == j
    {
      var cell := new BigInt(0, i);
      c := c + [cell];
    }
  }

  /** The number a pointer denotes where `nil` is treated like zero. */
  function ValueOf(x: BigInt?): int
    reads x
  {
    if x == null then 0 else x.v
  }

  /** The workspace; a quote's result is its `out` cell, overwritten by the next quote. */
  class Scratch {
    const remaining: BigInt
    const out: BigInt
    const sqrtPrice: BigInt
    const liquidity: BigInt
    const stepNext: BigInt
    const stepIn: BigInt
    const stepOut: BigInt
    const lessFee: BigInt
    const inToTarget: BigInt
    const feeAmount: BigInt
    const a0t0: BigInt
    const a0t1: BigInt
    const a1t0: BigInt
    const ns0: BigInt
    const ns1: BigInt
    const rem: BigInt
    const one: BigInt
    const v2a: BigInt
    const v2b: BigInt

    /** No two cells are the same object. */
    ghost predicate Apart() {
      && remaining.slot == 1 && out.slot == 2 && sqrtPrice.slot == 3 && liquidity.slot == 4
      && stepNext.slot == 5 && stepIn.slot == 6 && stepOut.slot == 7 && lessFee.slot == 8
      && inToTarget.slot == 9 && feeAmount.slot == 10 && a0t0.slot == 11 && a0t1.slot == 12
      && a1t0.slot == 13 && ns0.slot == 14 && ns1.slot == 15 && rem.slot == 16
      && one.slot == 17 && v2a.slot == 18 && v2b.slot == 19
    }

    /** The helpers' temporaries, everything a step writes, everything a quote writes, and all of it with `one`. */
    ghost const temps: set<BigInt>
    ghost const steps: set<BigInt>
    ghost const cells: set<BigInt>
    ghost const repr: set<object>

    ghost predicate Grouped() {
      && a0t0 in temps && a0t1 in temps && a1t0 in temps && ns0 in temps && ns1 in temps && rem in temps
      && stepNext in steps && stepIn in steps && stepOut in steps
      && lessFee in steps && inToTarget in steps && feeAmount in steps
      && remaining in cells && out in cells && sqrtPrice in cells && liquidity in cells && v2a in cells && v2b in cells
      && temps <= steps <= cells && one !in cells && one in repr
      && (forall c <- temps :: 11 <= c.slot <= 16)
      && (forall c <- steps :: 5 <= c.slot <= 16)
      && (forall c <- cells :: c in repr)
    }

    ghost predicate Valid()
      reads one
    {
      Apart() && Grouped() && one.v == 1
    }

    constructor ()
      ensures Valid() && fresh(repr)
    {
      var c := NewCells(20);
      remaining, out, sqrtPrice, liquidity := c[1], c[2], c[3], c[4];
      stepNext, stepIn, stepOut, lessFee := c[5], c[6], c[7], c[8];
      inToTarget, feeAmount, a0t0, a0t1 := c[9], c[10], c[11], c[12];
      a1t0, ns0, ns1, rem := c[13], c[14], c[15], c[16];
      v2a, v2b := c[18], c[19];
      one := new BigInt(1, 17);
      temps := set i | 11 <= i <= 16 :: c[i];
      steps := set i | 5 <= i <= 16 :: c[i];
      cells := set i | 0 <= i < 20 && i != 17 :: c[i];
      repr := (set i | 0 <= i < 20 && i != 17 :: c[i]) + {one};
    }

    /** `dst` may be a factor but not the denominator. */
    method MulDivInto(dst: BigInt, a: BigInt, b: BigInt, denominator: BigInt)
      requires a.v >= 0 && b.v >= 0 && denominator.v > 0 && dst != denominator
      modifies dst
      ensures dst.v == MulDiv(old(a.v), old(b.v), old(denominator.v))
    {
      ghost var q := MulDiv(a.v, b.v, denominator.v);
      dst.v := a.v * b.v;
      dst.v := dst.v / denominator.v;
      assert dst.v == q;
    }

    method MulDivRoundingUpInto(dst: BigInt, a: BigInt, b: BigInt, denominator: BigInt)
      requires Valid() && a.v >= 0 && b.v >= 0 && denominator.v > 0
      requires dst != denominator && rem != denominator && dst != rem && dst != one
      modifies dst, rem
      ensures dst.v == MulDivUp(old(a.v), old(b.v), old(denominator.v))
    {
      ghost var (n, d) := (a.v * b.v, denominator.v);
      MulSign(a.v, b.v);
      dst.v := a.v * b.v;
      DivRoundingUpInto(dst, denominator);
      assert dst.v == CeilDiv(n, d);
    }

    method DivRoundingUpInto(dst: BigInt, denominator: BigInt)
      requires Valid() && dst.v >= 0 && denominator.v > 0
      requires dst != denominator && rem != denominator && dst != rem && dst != one
      modifies dst, rem
      ensures dst.v == CeilDiv(old(dst.v), old(denominator.v))
    {
      rem.v := dst.v % denominator.v;
      dst.v := dst.v / denominator.v;
      if rem.v != 0 {
        dst.v := dst.v + one.v;
      }
    }

    /** `dst` is neither price nor a temporary; the prices are not temporaries. */
    method GetAmount0DeltaInto(dst: BigInt, sqrtA: BigInt, sqrtB: BigInt, roundUp: bool)
      requires Valid() && liquidity.v >= 0
      requires dst !in temps && dst != one && dst != sqrtA && dst != sqrtB && sqrtA !in temps && sqrtB !in temps
      modifies dst, a0t0, a0t1, rem
      ensures dst.v == Amount0(old(liquidity.v), old(sqrtA.v), old(sqrtB.v), roundUp)
    {
      var a, b := sqrtA, sqrtB;
      if a.v > b.v {
        a, b := b, a;
      }
      if a.v <= 0 {
        dst.v := 0;
        return;
      }
      a0t0.v := liquidity.v * Q96;
      a0t1.v := b.v - a.v;
      if roundUp {
        MulDivRoundingUpInto(dst, a0t0, a0t1, b);
        DivRoundingUpInto(dst, a);
        return;
      }
      MulDivInto(dst, a0t0, a0t1, b);
      dst.v := dst.v / a.v;
    }

    method GetAmount1DeltaInto(dst: BigInt, sqrtA: BigInt, sqrtB: BigInt, roundUp: bool)
      requires Valid() && liquidity.v >= 0
      requires dst !in temps && dst != one && dst != sqrtA && dst != sqrtB && sqrtA !in temps && sqrtB !in temps
      modifies dst, a1t0, rem
      ensures dst.v == Amount1(old(liquidity.v), old(sqrtA.v), old(sqrtB.v), roundUp)
    {
      var a, b := sqrtA, sqrtB;
      if a.v > b.v {
        a, b := b, a;
      }
      a1t0.v := b.v - a.v;
      var q96 := new BigInt(Q96);
      if roundUp {
        MulDivRoundingUpInto(dst, liquidity, a1t0, q96);
        return;
      }
      MulDivInto(dst, liquidity, a1t0, q96);
    }

    method GetNextSqrtPriceFromInputInto(dst: BigInt, amount: BigInt, zeroForOne: bool)
      requires Valid() && liquidity.v > 0 && sqrtPrice.v >= 0 && amount.v >= 0
      requires dst !in temps && dst != one && amount !in temps
      modifies dst, ns0, ns1, rem
      ensures dst.v == NextPrice(old(liquidity.v), old(sqrtPrice.v), old(amount.v), zeroForOne)
    {
      if amount.v == 0 {
        dst.v := sqrtPrice.v;
        return;
      }
      if zeroForOne {
        MulSign(amount.v, sqrtPrice.v);
        ns0.v := liquidity.v * Q96;
        ns1.v := amount.v * sqrtPrice.v;
        ns1.v := ns0.v + ns1.v;
        MulDivRoundingUpInto(dst, ns0, sqrtPrice, ns1);
        return;
      }
      ns0.v := amount.v * Q96;
      ns0.v := ns0.v / liquidity.v;
      dst.v := sqrtPrice.v + ns0.v;
    }

    /** The state a step reads is usable and its target is no cell of the workspace. */
    ghost predicate StepReady(sqrtTarget: BigInt, feePips: nat)
      reads one, liquidity, sqrtPrice, remaining, sqrtTarget
    {
      && Valid() && liquidity.v > 0 && sqrtPrice.v >= 0 && remaining.v >= 0 && feePips < PIPS
      && sqrtTarget.v >= 0 && sqrtTarget !in cells && sqrtTarget != one
    }

    /** First part: what trades after the fee, and whether it reaches the boundary. */
    method ReachTarget(sqrtTarget: BigInt, feePips: nat, zeroForOne: bool) returns (reachedTarget: bool)
      requires StepReady(sqrtTarget, feePips)
      modifies lessFee, inToTarget, temps
      ensures lessFee.v == LessFee(remaining.v, feePips)
      ensures inToTarget.v == InputTo(liquidity.v, sqrtPrice.v, sqrtTarget.v, zeroForOne)
      ensures reachedTarget == (lessFee.v >= inToTarget.v)
    {
      var kept := new BigInt(PIPS - feePips);
      var pips := new BigInt(PIPS);
      MulDivInto(lessFee, remaining, kept, pips);
      if zeroForOne {
        GetAmount0DeltaInto(inToTarget, sqrtTarget, sqrtPrice, true);
      } else {
        GetAmount1DeltaInto(inToTarget, sqrtPrice, sqrtTarget, true);
      }
      reachedTarget := lessFee.v >= inToTarget.v;
    }

    /** Second part: the price the step ends at. */
    method MovePrice(sqrtTarget: BigInt, zeroForOne: bool, reachedTarget: bool)
      requires Valid() && liquidity.v > 0 && sqrtPrice.v >= 0 && lessFee.v >= 0
      modifies stepNext, temps
      ensures stepNext.v == if reachedTarget then old(sqrtTarget.v)
                            else NextPrice(liquidity.v, sqrtPrice.v, lessFee.v, zeroForOne)
    {
      if reachedTarget {
        stepNext.v := sqrtTarget.v;
      } else {
        GetNextSqrtPriceFromInputInto(stepNext, lessFee, zeroForOne);
      }
    }

    /** Third part: input and output of the move. */
    method StepAmounts(zeroForOne: bool, reachedTarget: bool)
      requires Valid() && liquidity.v > 0
      modifies stepIn, stepOut, temps
      ensures stepIn.v == if reachedTarget then inToTarget.v
                          else InputTo(liquidity.v, sqrtPrice.v, stepNext.v, zeroForOne)
      ensures stepOut.v == OutputTo(liquidity.v, sqrtPrice.v, stepNext.v, zeroForOne)
    {
      if zeroForOne {
        if reachedTarget {
          stepIn.v := inToTarget.v;
        } else {
          GetAmount0DeltaInto(stepIn, stepNext, sqrtPrice, true);
        }
        GetAmount1DeltaInto(stepOut, stepNext, sqrtPrice, false);
      } else {
        if reachedTarget {
          stepIn.v := inToTarget.v;
        } else {
          GetAmount1DeltaInto(stepIn, sqrtPrice, stepNext, true);
        }
        GetAmount0DeltaInto(stepOut, sqrtPrice, stepNext, false);
      }
    }

    /** Last part: the fee, added back onto the input. */
    method AddFee(feePips: nat, reachedTarget: bool)
      requires Valid() && remaining.v >= 0 && stepIn.v >= 0 && feePips < PIPS
      modifies stepIn, feeAmount, rem
      ensures stepIn.v == old(stepIn.v) + if reachedTarget then FullFee(old(stepIn.v), feePips)
                                          else HeldBack(remaining.v, old(stepIn.v))
    {
      if !reachedTarget {
        feeAmount.v := remaining.v - stepIn.v;
        if feeAmount.v < 0 {
          feeAmount.v := 0;
        }
      } else {
        var fee := new BigInt(feePips);
        var kept := new BigInt(PIPS - feePips);
        MulDivRoundingUpInto(feeAmount, stepIn, fee, kept);
      }
      stepIn.v := stepIn.v + feeAmount.v;
    }

    /** The step once it is known whether it reaches the boundary. */
    method FinishStep(sqrtTarget: BigInt, feePips: nat, zeroForOne: bool, reachedTarget: bool)
      requires StepReady(sqrtTarget, feePips) && lessFee.v >= 0 && inToTarget.v >= 0
      modifies stepNext, stepIn, stepOut, feeAmount, temps
      ensures stepNext.v == if reachedTarget then sqrtTarget.v
                            else NextPrice(liquidity.v, sqrtPrice.v, lessFee.v, zeroForOne)
      ensures stepOut.v == OutputTo(liquidity.v, sqrtPrice.v, stepNext.v, zeroForOne)
      ensures var base := if reachedTarget then inToTarget.v as nat
                          else InputTo(liquidity.v, sqrtPrice.v, stepNext.v, zeroForOne);
        stepIn.v == base + if reachedTarget then FullFee(base, feePips) else HeldBack(remaining.v, base)
    {
      MovePrice(sqrtTarget, zeroForOne, reachedTarget);
      StepAmounts(zeroForOne, reachedTarget);
      AddFee(feePips, reachedTarget);
    }

    /** Leaves the loop state alone and the step's effect in the `step` cells. */
    method ComputeSwapStep(sqrtTarget: BigInt, feePips: nat, zeroForOne: bool) returns (reachedTarget: bool)
      requires StepReady(sqrtTarget, feePips)
      modifies steps
      ensures var d := ComputeStep(sqrtPrice.v, liquidity.v, remaining.v, sqrtTarget.v, feePips, zeroForOne);
        stepNext.v == d.next && stepIn.v == d.Cost() && stepOut.v == d.out && reachedTarget == d.reached
    {
      reachedTarget := ReachTarget(sqrtTarget, feePips, zeroForOne);
      FinishStep(sqrtTarget, feePips, zeroForOne, reachedTarget);
    }
  }

  /** Pool reserves as the caller holds them: by reference. */
  datatype V2Ref = V2Ref(reserveIn: BigInt?, reserveOut: BigInt?, feeBps: nat)

  ghost function V2View(p: V2Ref): V2.V2Pool
    reads p.reserveIn, p.reserveOut
  {
    V2.V2Pool(ValueOf(p.reserveIn), ValueOf(p.reserveOut), p.feeBps)
  }

  /** The result is the workspace's own `out` cell holding the quoted value, or the quote's error. */
  ghost predicate Delivers(r: Result<BigInt>, sc: Scratch, quote: Result<nat>)
    reads sc.out
  {
    match quote
    case Ok(value) => r == Ok(sc.out) && sc.out.v == value
    case Err(e) => r == Err(e)
  }

  /**
    The V2 routine: prior workspace contents do not matter, the amount may itself be
    a cell of the workspace, and nothing outside the workspace is written.
   */
  method SwapV2Into(sc: Scratch, amountIn: BigInt?, p: V2Ref) returns (r: Result<BigInt>)
    requires sc.Valid() && p.reserveIn !in sc.cells && p.reserveOut !in sc.cells
    modifies sc.cells
    ensures Delivers(r, sc, V2.Quote(old(ValueOf(amountIn)), V2View(p)))
  {
    if amountIn == null || amountIn.v <= 0 {
      return Err(ZeroAmount);
    }
    if p.feeBps >= V2.BPS {
      return Err(InvalidFee);
    }
    if p.reserveIn == null || p.reserveIn.v <= 0 || p.reserveOut == null || p.reserveOut.v <= 0 {
      return Err(InsufficientLiquidity);
    }
    ConstantProductInto(sc, amountIn, p.reserveIn, p.reserveOut, V2.BPS - p.feeBps);
    return Ok(sc.out);
  }

  method ConstantProductInto(sc: Scratch, amountIn: BigInt, reserveIn: BigInt, reserveOut: BigInt, kept: nat)
    requires sc.Valid() && reserveIn !in sc.cells && reserveOut !in sc.cells
    requires amountIn.v > 0 && reserveIn.v > 0 && reserveOut.v > 0 && kept <= V2.BPS
    modifies sc.v2a, sc.v2b, sc.out
    ensures var inAfterFee := old(amountIn.v) * kept;
      && inAfterFee >= 0
      && sc.out.v == MulDiv(inAfterFee, reserveOut.v, reserveIn.v * V2.BPS + inAfterFee)
  {
    MulSign(amountIn.v, kept);
    sc.v2a.v := amountIn.v * kept;
    sc.v2b.v := reserveIn.v * V2.BPS;
    sc.v2b.v := sc.v2b.v + sc.v2a.v;
    ghost var quote := MulDiv(sc.v2a.v, reserveOut.v, sc.v2b.v);
    sc.out.v := sc.v2a.v * reserveOut.v;
    sc.out.v := sc.out.v / sc.v2b.v;
    assert sc.out.v == quote;
  }

  /** `SwapV2`: a copy that outlives the workspace. */
  method QuoteV2(amountIn: BigInt?, p: V2Ref) returns (r: Result<BigInt>)
    ensures r.Ok? ==> fresh(r.value)
    ensures match V2.Quote(ValueOf(amountIn), V2View(p))
      case Ok(value) => r.Ok? && r.value.v == value
      case Err(e) => r == Err(e)
  {
    var sc := new Scratch();
    r := SwapV2Into(sc, amountIn, p);
    if r.Ok? {
      var copy := new BigInt(r.value.v);
      r := Ok(copy);
    }
  }

  method NextInitializedTick(ticks: seq<Tick>, current: int, zeroForOne: bool) returns (next: Option<Tick>)
    ensures next == NextTick(ticks, current, zeroForOne)
    ensures next.Some? ==> next.value in ticks
  {
    NextTickAhead(ticks, current, zeroForOne);
    if zeroForOne {
      var i := |ticks| - 1;
      assert ticks == ticks[..i + 1];
      while i >= 0
        invariant -1 <= i < |ticks|
        invariant NextTick(ticks, current, true) == NextTick(ticks[..i + 1], current, true)
      {
        assert ticks[..i + 1][..i] == ticks[..i];
        if ticks[i].index <= current {
          return Some(ticks[i]);
        }
        i := i - 1;
      }
      return None;
    }
    assert ticks == ticks[0..];
    for i := 0 to |ticks|
      invariant NextTick(ticks, current, false) == NextTick(ticks[i..], current, false)
    {
      assert ticks[i..][1..] == ticks[i + 1..];
      if ticks[i].index > current {
        return Some(ticks[i]);
      }
    }
    return None;
  }

  /** Adjacent pairs in order suffice for the whole slice to be sorted. */
  method IsSorted(ticks: seq<Tick>) returns (yes: bool)
    ensures yes == Sorted(ticks)
  {
    var i := 1;
    while i < |ticks|
      invariant 1 <= i
      invariant forall j, k :: 0 <= j < k < i && k < |ticks| ==> ticks[j].index <= ticks[k].index
    {
      if ticks[i].index < ticks[i - 1].index {
        return false;
      }
      i := i + 1;
    }
    return true;
  }

  /** The boundary price: the cached one, or derived when the cache is empty. */
  method BoundaryPrice(t: Tick) returns (r: Result<nat>)
    requires CacheValid(t)
    ensures r == if InRange(t.index) then Ok(SqrtRatio(t.index)) else Err(TickOutOfRange)
  {
    if t.sqrtRatio.Some? {
      return Ok(t.sqrtRatio.value);
    }
    r := GetSqrtRatioAtTick(t.index);
  }

  ghost function LoopState(sc: Scratch, currentTick: int): SwapState
    requires sc.out.v >= 0 && sc.sqrtPrice.v >= 0
    reads sc.remaining, sc.out, sc.sqrtPrice, sc.liquidity
  {
    SwapState(sc.remaining.v, sc.out.v, sc.sqrtPrice.v, sc.liquidity.v, currentTick)
  }

  /** One turn of the loop: either it returns, or the walk goes on from the new cells. */
  method LoopTurn(sc: Scratch, ticks: seq<Tick>, currentTick: int, fee: nat, zeroForOne: bool, ghost turns: nat)
    returns (done: bool, r: Result<BigInt>, nextTick: int)
    requires CachesValid(ticks) && fee < PIPS && turns > 0
    requires sc.Valid() && sc.out.v >= 0 && sc.sqrtPrice.v >= 0
    modifies sc.cells
    ensures sc.Valid() && sc.out.v >= 0 && sc.sqrtPrice.v >= 0
    ensures done ==> Delivers(r, sc, Settle(Walk(ticks, turns, old(LoopState(sc, currentTick)), fee, zeroForOne)))
    ensures !done ==>
      Walk(ticks, turns, old(LoopState(sc, currentTick)), fee, zeroForOne)
      == Walk(ticks, turns - 1, LoopState(sc, nextTick), fee, zeroForOne)
  {
    nextTick := currentTick;
    ghost var s := LoopState(sc, currentTick);
    if sc.remaining.v <= 0 {
      return true, Ok(sc.out), currentTick;
    }
    if sc.liquidity.v <= 0 {
      return true, Err(InsufficientLiquidity), currentTick;
    }
    var next := NextInitializedTick(ticks, currentTick, zeroForOne);
    if next.None? {
      return true, Err(InsufficientLiquidity), currentTick;
    }
    var t := next.value;
    var boundary := BoundaryPrice(t);
    if boundary.Err? {
      return true, Err(boundary.error), currentTick;
    }
    ghost var d := ComputeStep(s.price, s.liquidity, s.remaining, boundary.value, fee, zeroForOne);
    WalkTurn(ticks, turns, s, t, d, fee, zeroForOne);

    done, r, nextTick := StepAndCross(sc, t, boundary.value, currentTick, fee, zeroForOne, s, d);
  }

  /** The second half of a turn: take the step, then stop or cross the tick. */
  method StepAndCross(sc: Scratch, t: Tick, target: nat, currentTick: int, fee: nat, zeroForOne: bool,
                      ghost s: SwapState, ghost d: Step)
    returns (done: bool, r: Result<BigInt>, nextTick: int)
    requires sc.Valid() && sc.out.v >= 0 && sc.sqrtPrice.v >= 0 && s == LoopState(sc, currentTick)
    requires s.remaining > 0 && s.liquidity > 0 && fee < PIPS
    requires d == ComputeStep(s.price, s.liquidity, s.remaining, target, fee, zeroForOne)
    modifies sc.cells
    ensures sc.Valid() && sc.out.v >= 0 && sc.sqrtPrice.v >= 0
    ensures done == (s.remaining <= d.Cost() || !d.reached)
    ensures done ==>
      Delivers(r, sc, if s.remaining <= d.Cost() then Ok(s.out + d.out) else Err(InsufficientLiquidity))
    ensures !done ==> LoopState(sc, nextTick) == AfterCross(AfterStep(s, d), t, zeroForOne)
  {
    var sqrtTarget := new BigInt(target);
    var reachedTarget := sc.ComputeSwapStep(sqrtTarget, fee, zeroForOne);
    done, r, nextTick := ApplyStep(sc, t, reachedTarget, currentTick, zeroForOne, s, d);
  }

  /** Books the step just computed, then stops or crosses the tick. */
  method ApplyStep(sc: Scratch, t: Tick, reachedTarget: bool, currentTick: int, zeroForOne: bool,
                   ghost s: SwapState, ghost d: Step)
    returns (done: bool, r: Result<BigInt>, nextTick: int)
    requires sc.Valid() && sc.out.v >= 0 && sc.sqrtPrice.v >= 0 && s == LoopState(sc, currentTick)
    requires sc.stepNext.v == d.next && sc.stepIn.v == d.Cost() && sc.stepOut.v == d.out && reachedTarget == d.reached
    modifies sc.out, sc.remaining, sc.sqrtPrice, sc.liquidity
    ensures sc.out.v >= 0 && sc.sqrtPrice.v >= 0
    ensures done == (s.remaining <= d.Cost() || !d.reached)
    ensures done ==>
      Delivers(r, sc, if s.remaining <= d.Cost() then Ok(s.out + d.out) else Err(InsufficientLiquidity))
    ensures !done ==> LoopState(sc, nextTick) == AfterCross(AfterStep(s, d), t, zeroForOne)
  {
    nextTick := currentTick;
    sc.out.v := sc.out.v + sc.stepOut.v;
    sc.remaining.v := sc.remaining.v - sc.stepIn.v;
    sc.sqrtPrice.v := sc.stepNext.v;

    if sc.remaining.v <= 0 {
      return true, Ok(sc.out), currentTick;
    }
    if !reachedTarget {
      return true, Err(InsufficientLiquidity), currentTick;
    }
    if zeroForOne {
      sc.liquidity.v := sc.liquidity.v - t.liquidityNet;
      nextTick := Decrement32(t.index);
    } else {
      sc.liquidity.v := sc.liquidity.v + t.liquidityNet;
      nextTick := t.index;
    }
    done, r := false, Err(InsufficientLiquidity);
  }

  /** The bounded loop over the tick window. */
  method WalkTicks(sc: Scratch, ticks: seq<Tick>, startTick: int, fee: nat, zeroForOne: bool) returns (r: Result<BigInt>)
    requires CachesValid(ticks) && fee < PIPS
    requires sc.Valid() && sc.out.v >= 0 && sc.sqrtPrice.v >= 0
    modifies sc.cells
    ensures Delivers(r, sc, Settle(Walk(ticks, |ticks| + 1, old(LoopState(sc, startTick)), fee, zeroForOne)))
  {
    ghost var goal := Walk(ticks, |ticks| + 1, LoopState(sc, startTick), fee, zeroForOne);
    var currentTick := startTick;
    var i := 0;
    while i <= |ticks|
      invariant 0 <= i <= |ticks| + 1
      invariant sc.Valid() && sc.out.v >= 0 && sc.sqrtPrice.v >= 0
      invariant goal == Walk(ticks, |ticks| + 1 - i, LoopState(sc, currentTick), fee, zeroForOne)
    {
      var done, result, nextTick := LoopTurn(sc, ticks, currentTick, fee, zeroForOne, |ticks| + 1 - i);
      if done {
        return result;
      }
      currentTick := nextTick;
      i := i + 1;
    }
    if sc.remaining.v > 0 {
      return Err(InsufficientLiquidity);
    }
    return Ok(sc.out);
  }

  /** Concentrated-liquidity state as the caller holds it: price and liquidity by reference. */
  datatype V3Ref = V3Ref(sqrtPrice: BigInt?, liquidity: BigInt?, tick: int, feeBps: nat, ticks: seq<Tick>)

  ghost function V3View(p: V3Ref): V3Pool
    reads p.sqrtPrice, p.liquidity
  {
    V3Pool(ValueOf(p.sqrtPrice), ValueOf(p.liquidity), p.tick, p.feeBps, p.ticks)
  }

  /**
    The V3 routine equals the pure on-demand quote: cached tick prices, leftover
    workspace contents and the already-sorted shortcut make no difference, and the
    amount may be a cell of the workspace, such as the result of an earlier quote.
   */
  method SwapV3Into(sc: Scratch, amountIn: BigInt?, p: V3Ref, zeroForOne: bool) returns (r: Result<BigInt>)
    requires sc.Valid() && CachesValid(p.ticks) && p.sqrtPrice !in sc.cells && p.liquidity !in sc.cells
    modifies sc.cells
    ensures Delivers(r, sc, Quote(old(ValueOf(amountIn)), V3View(p), zeroForOne))
  {
    if amountIn == null || amountIn.v <= 0 {
      return Err(ZeroAmount);
    }
    if p.feeBps >= BPS {
      return Err(InvalidFee);
    }
    if p.liquidity == null || p.liquidity.v <= 0 || p.sqrtPrice == null || p.sqrtPrice.v <= 0 {
      return Err(InsufficientLiquidity);
    }
    r := RunWalk(sc, amountIn, p, zeroForOne);
  }

  /** `SwapV3`: a copy that outlives the workspace. */
  method QuoteV3(amountIn: BigInt?, p: V3Ref, zeroForOne: bool) returns (r: Result<BigInt>)
    requires CachesValid(p.ticks)
    ensures r.Ok? ==> fresh(r.value)
    ensures match Quote(ValueOf(amountIn), V3View(p), zeroForOne)
      case Ok(value) => r.Ok? && r.value.v == value
      case Err(e) => r == Err(e)
  {
    var sc := new Scratch();
    r := SwapV3Into(sc, amountIn, p, zeroForOne);
    if r.Ok? {
      var copy := new BigInt(r.value.v);
      r := Ok(copy);
    }
  }

  /** Sorts, loads the loop cells and walks. */
  method RunWalk(sc: Scratch, amountIn: BigInt, p: V3Ref, zeroForOne: bool) returns (r: Result<BigInt>)
    requires sc.Valid() && CachesValid(p.ticks) && p.sqrtPrice !in sc.cells && p.liquidity !in sc.cells
    requires amountIn.v > 0 && p.feeBps < BPS && p.sqrtPrice != null && p.sqrtPrice.v > 0 && p.liquidity != null
    modifies sc.cells
    ensures Delivers(r, sc, Settle(WholeWalk(old(amountIn.v), V3View(p), zeroForOne)))
  {
    var ticks := SortTicks(p.ticks);
    LoadLoop(sc, amountIn, p);
    r := WalkTicks(sc, ticks, p.tick, p.feeBps * 100, zeroForOne);
  }

  /** `sortedTicks`. */
  method SortTicks(ticks: seq<Tick>) returns (sorted: seq<Tick>)
    requires CachesValid(ticks)
    ensures sorted == SortedTicks(ticks) && CachesValid(sorted)
  {
    SortedCaches(ticks);
    var already := IsSorted(ticks);
    return if already then ticks else SortByIndex(ticks);
  }

  method LoadLoop(sc: Scratch, amountIn: BigInt, p: V3Ref)
    requires sc.Valid() && p.sqrtPrice !in sc.cells && p.liquidity !in sc.cells
    requires p.sqrtPrice != null && p.sqrtPrice.v > 0 && p.liquidity != null
    modifies sc.remaining, sc.out, sc.sqrtPrice, sc.liquidity
    ensures sc.out.v >= 0 && sc.sqrtPrice.v >= 0
    ensures LoopState(sc, p.tick) == Start(old(amountIn.v), V3View(p))
  {
    sc.remaining.v := amountIn.v;
    sc.out.v := 0;
    sc.sqrtPrice.v := p.sqrtPrice.v;
    sc.liquidity.v := p.liquidity.v;
  }

  lemma SortedCaches(ticks: seq<Tick>)
    requires CachesValid(ticks)
    ensures CachesValid(SortedTicks(ticks))
  {
    forall t <- SortedTicks(ticks)
      ensures CacheValid(t)
    {
      assert t in multiset(SortedTicks(ticks));
    }
  }

  /** The preparation loop over the sorted copy. */
  method PrepareTicksLoop(ticks: seq<Tick>) returns (r: Result<seq<Tick>>)
    requires CachesValid(ticks)
    ensures r == PrepareTicks(ticks)
  {
    SortByIndexSorts(ticks);
    if |ticks| == 0 {
      assert PrepareTicks(ticks).value == [];
      return Ok([]);
    }
    ghost var sorted := SortByIndex(ticks);
    var out := SortByIndex(ticks);
    for i := 0 to |out|
      invariant |out| == |sorted|
      invariant forall j :: 0 <= j < i ==> Derivable(sorted[j]) && out[j] == WithRatio(sorted[j])
      invariant forall j :: i <= j < |out| ==> out[j] == sorted[j]
    {
      if out[i].sqrtRatio.None? {
        var ratio := GetSqrtRatioAtTick(out[i].index);
        if ratio.Err? {
          assert !Derivable(sorted[i]);
          return Err(ratio.error);
        }
        out := out[i := out[i].(sqrtRatio := Some(ratio.value))];
      }
    }
    assert out == seq(|sorted|, i requires 0 <= i < |sorted| => WithRatio(sorted[i]));
    return Ok(out);
  }
}
