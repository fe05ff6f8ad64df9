/**
  A concentrated-liquidity quote as a sum over tick ranges: which liquidity is
  active where, what a range costs and pays, and where the input runs out, stated
  of the pool alone and proved of the tick-by-tick walk.
 */
module Ranges {
  import opened Arith
  import opened Common
  import opened TickMath
  import opened SwapStep
  import opened SwapV3

  // ----- the ranges ahead of a price -----

  /** Liquidity change over the ticks with lo < index <= hi. */
  function NetBetween(ticks: seq<Tick>, lo: int, hi: int): int {
    if ticks == [] then 0
    else (if lo < ticks[0].index <= hi then ticks[0].liquidityNet else 0) + NetBetween(ticks[1..], lo, hi)
  }

  /**
    Liquidity of the range that ends at boundary `rung`: going down every tick from
    the current one to the boundary has been left behind, going up entered.
   */
  function ActiveLiquidity(p: V3Pool, rung: int, zeroForOne: bool): int {
    if zeroForOne then p.liquidity - NetBetween(p.ticks, rung, p.tick)
    else p.liquidity + NetBetween(p.ticks, p.tick, rung - 1)
  }

  predicate HasTick(ticks: seq<Tick>, index: int) {
    exists t <- ticks :: t.index == index
  }

  /** `rungs` lists the boundaries ahead of the price, nearest first. */
  predicate Ladder(p: V3Pool, rungs: seq<int>, zeroForOne: bool) {
    LadderOver(p.ticks, p.tick, rungs, zeroForOne)
  }

  predicate LadderOver(ticks: seq<Tick>, tick: int, rungs: seq<int>, zeroForOne: bool) {
    && (forall i, j :: 0 <= i < j < |rungs| ==> if zeroForOne then rungs[j] < rungs[i] else rungs[i] < rungs[j])
    && (forall i :: 0 <= i < |rungs| ==> if zeroForOne then rungs[i] <= tick else tick < rungs[i])
    && (forall i {:trigger HasTick(ticks, rungs[i])} :: 0 <= i < |rungs| ==> HasTick(ticks, rungs[i]))
    && (forall t {:trigger OnLadder(rungs, t.index)} :: t in ticks ==>
          ((if zeroForOne then t.index <= tick else tick < t.index) ==> OnLadder(rungs, t.index)))
  }

  predicate OnLadder(rungs: seq<int>, index: int) {
    index in rungs
  }

  predicate Priced(p: V3Pool, rungs: seq<int>) {
    p.sqrtPrice > 0 && forall i :: 0 <= i < |rungs| ==> InRange(rungs[i])
  }

  /** Price at which range `i` is entered. */
  function RangeStart(p: V3Pool, rungs: seq<int>, i: nat): nat
    requires i <= |rungs| && Priced(p, rungs)
  {
    if i == 0 then p.sqrtPrice else SqrtRatio(rungs[i - 1])
  }

  /**
    One range: the liquidity active in it, its two prices, what crossing all of it costs
    and pays, and what a net input that stays inside it buys.
   */
  datatype Range = Range(liquidity: nat, start: nat, end: nat, cost: nat, out: nat, buys: nat -> nat)

  function RangeAt(p: V3Pool, rungs: seq<int>, i: nat, zeroForOne: bool): Range
    requires i < |rungs| && Priced(p, rungs) && ActiveLiquidity(p, rungs[i], zeroForOne) > 0 && p.feeBps < BPS
  {
    var (liquidity, start, end) := (ActiveLiquidity(p, rungs[i], zeroForOne), RangeStart(p, rungs, i), SqrtRatio(rungs[i]));
    var base := InputTo(liquidity, start, end, zeroForOne);
    Range(liquidity, start, end, base + FullFee(base, p.feeBps * 100), OutputTo(liquidity, start, end, zeroForOne),
          net => OutputTo(liquidity, start, NextPrice(liquidity, start, net, zeroForOne), zeroForOne))
  }

  /** The first `n` ranges all have liquidity. */
  predicate Liquid(p: V3Pool, rungs: seq<int>, n: nat, zeroForOne: bool) {
    && p.feeBps < BPS && n <= |rungs| && Priced(p, rungs)
    && forall i :: 0 <= i < n ==> ActiveLiquidity(p, rungs[i], zeroForOne) > 0
  }

  /** `rs` are the first ranges ahead of the price. */
  ghost predicate Spans(p: V3Pool, rungs: seq<int>, rs: seq<Range>, zeroForOne: bool) {
    && Liquid(p, rungs, |rs|, zeroForOne)
    && forall i: nat {:trigger RangeAt(p, rungs, i, zeroForOne)} ::
         i < |rs| ==> rs[i] == RangeAt(p, rungs, i, zeroForOne)
  }

  function TotalCost(rs: seq<Range>): nat {
    if rs == [] then 0 else TotalCost(rs[..|rs| - 1]) + rs[|rs| - 1].cost
  }

  function TotalOut(rs: seq<Range>): nat {
    if rs == [] then 0 else TotalOut(rs[..|rs| - 1]) + rs[|rs| - 1].out
  }

  /** The input runs out in the last of the ranges: it pays for all before, and for no more than that one. */
  predicate FillsIn(amountIn: int, rs: seq<Range>) {
    |rs| > 0 && TotalCost(rs[..|rs| - 1]) < amountIn <= TotalCost(rs)
  }

  /** The whole range's output if the rest pays for it exactly, otherwise what its net amount buys. */
  function LastOut(r: Range, rest: nat, feeBps: nat): nat
    requires feeBps < BPS
  {
    if rest == r.cost then r.out else r.buys(NetOf(rest, feeBps))
  }

  /** The crossed ranges' outputs plus what the rest of the input, net of the fee, buys in the last one. */
  function OutputIn(amountIn: int, feeBps: nat, rs: seq<Range>): nat
    requires FillsIn(amountIn, rs) && feeBps < BPS
  {
    var front := rs[..|rs| - 1];
    TotalOut(front) + LastOut(rs[|rs| - 1], amountIn - TotalCost(front), feeBps)
  }

  // ----- sums of liquidity changes -----

  lemma {:induction false} NetSplits(ticks: seq<Tick>, lo: int, mid: int, hi: int)
    requires lo <= mid <= hi
    ensures NetBetween(ticks, lo, hi) == NetBetween(ticks, lo, mid) + NetBetween(ticks, mid, hi)
  {
    if ticks != [] {
      NetSplits(ticks[1..], lo, mid, hi);
    }
  }

  lemma {:induction false} NetNone(ticks: seq<Tick>, lo: int, hi: int)
    requires forall t <- ticks :: !(lo < t.index <= hi)
    ensures NetBetween(ticks, lo, hi) == 0
  {
    if ticks != [] {
      assert ticks[0] in ticks;
      NetNone(ticks[1..], lo, hi);
    }
  }

  lemma {:induction false} NetOne(ticks: seq<Tick>, lo: int, hi: int, t: Tick)
    requires DistinctIndices(ticks) && t in ticks && lo < t.index <= hi
    requires forall u <- ticks :: lo < u.index <= hi ==> u.index == t.index
    ensures NetBetween(ticks, lo, hi) == t.liquidityNet
  {
    assert ticks[0] in ticks;
    if ticks[0] == t {
      forall u <- ticks[1..]
        ensures !(lo < u.index <= hi)
      {
        assert u in ticks;
        var j :| 0 <= j < |ticks[1..]| && ticks[1..][j] == u;
        assert ticks[0].index != ticks[j + 1].index;
      }
      NetNone(ticks[1..], lo, hi);
    } else {
      var j :| 0 <= j < |ticks| && ticks[j] == t;
      assert ticks[0].index != ticks[j].index;
      NetOne(ticks[1..], lo, hi, t);
    }
  }

  // ----- the walk climbs the ladder -----

  /** Where the walk stands after crossing the ranges `rs`. */
  predicate AtRung(amountIn: int, p: V3Pool, rungs: seq<int>, rs: seq<Range>, s: SwapState, zeroForOne: bool) {
    var i := |rs|;
    && Liquid(p, rungs, i, zeroForOne)
    && s.remaining == amountIn - TotalCost(rs) && s.out == TotalOut(rs)
    && s.price == (if i == 0 then p.sqrtPrice else rs[i - 1].end)
    && s.tick == (if i == 0 then p.tick else TickAfter(rungs[i - 1], zeroForOne))
    && (i < |rungs| ==> s.liquidity == ActiveLiquidity(p, rungs[i], zeroForOne))
  }

  lemma LadderPriced(p: V3Pool, rungs: seq<int>, zeroForOne: bool)
    requires Consistent(p) && Ladder(p, rungs, zeroForOne)
    ensures Priced(p, rungs)
  {
    forall i | 0 <= i < |rungs|
      ensures InRange(rungs[i])
    {
      assert HasTick(p.ticks, rungs[i]);
    }
  }

  /** No tick lies strictly between two neighbouring rungs, or before the first. */
  lemma NothingBetween(p: V3Pool, rungs: seq<int>, i: nat, t: Tick, zeroForOne: bool)
    requires Ladder(p, rungs, zeroForOne) && i <= |rungs| && t in p.ticks
    requires if zeroForOne then t.index <= (if i == 0 then p.tick else rungs[i - 1] - 1)
             else t.index > (if i == 0 then p.tick else rungs[i - 1])
    ensures i < |rungs| && if zeroForOne then t.index <= rungs[i] else t.index >= rungs[i]
  {
    assert OnLadder(rungs, t.index);
    var j :| 0 <= j < |rungs| && rungs[j] == t.index;
    if i < j {
      assert if zeroForOne then rungs[j] < rungs[i] else rungs[i] < rungs[j];
    }
  }

  lemma SortedMembers(ticks: seq<Tick>, t: Tick)
    ensures t in SortedTicks(ticks) <==> t in ticks
  {
    assert t in multiset(SortedTicks(ticks)) <==> t in multiset(ticks);
  }

  /** The boundary the walk picks is the next rung. */
  lemma NextIsRung(p: V3Pool, rungs: seq<int>, i: nat, tick: int, zeroForOne: bool)
    requires Consistent(p) && Ladder(p, rungs, zeroForOne) && i <= |rungs| && Priced(p, rungs)
    requires tick == if i == 0 then p.tick else TickAfter(rungs[i - 1], zeroForOne)
    ensures var n := NextTick(SortedTicks(p.ticks), tick, zeroForOne);
      if i < |rungs| then n.Some? && n.value in p.ticks && n.value.index == rungs[i] else n.None?
  {
    var ticks := SortedTicks(p.ticks);
    NextTickAhead(ticks, tick, zeroForOne);
    var n := NextTick(ticks, tick, zeroForOne);
    if n.Some? {
      SortedMembers(p.ticks, n.value);
      NothingBetween(p, rungs, i, n.value, zeroForOne);
    }
    if i < |rungs| {
      assert HasTick(p.ticks, rungs[i]);
      var t :| t in p.ticks && t.index == rungs[i];
      SortedMembers(p.ticks, t);
      if i > 0 {
        assert if zeroForOne then rungs[i] < rungs[i - 1] else rungs[i - 1] < rungs[i];
      }
      NextTickNearest(ticks, tick, zeroForOne, t);
    }
  }

  // ----- every consistent pool has its ladder -----

  predicate AllInRange(ticks: seq<Tick>) {
    forall t <- ticks :: InRange(t.index)
  }

  /** The boundaries ahead of `tick`, read off one after the other. */
  function RungsFrom(ticks: seq<Tick>, tick: int, zeroForOne: bool): seq<int>
    requires AllInRange(ticks)
    decreases CountAhead(ticks, tick, zeroForOne)
  {
    NextTickAhead(ticks, tick, zeroForOne);
    match NextTick(ticks, tick, zeroForOne)
    case None => []
    case Some(t) =>
      CrossingCounts(ticks, tick, t.index, zeroForOne);
      [t.index] + RungsFrom(ticks, TickAfter(t.index, zeroForOne), zeroForOne)
  }

  /** They are ticks ahead, in travelling order, and none is missed. */
  lemma {:induction false} RungsFromSpec(ticks: seq<Tick>, tick: int, zeroForOne: bool)
    requires AllInRange(ticks) && Sorted(ticks)
    ensures LadderOver(ticks, tick, RungsFrom(ticks, tick, zeroForOne), zeroForOne)
    decreases CountAhead(ticks, tick, zeroForOne)
  {
    NextTickAhead(ticks, tick, zeroForOne);
    var n := NextTick(ticks, tick, zeroForOne);
    if n.Some? {
      var t := n.value;
      CrossingCounts(ticks, tick, t.index, zeroForOne);
      RungsFromSpec(ticks, TickAfter(t.index, zeroForOne), zeroForOne);
      forall u <- ticks | Ahead(u.index, tick, zeroForOne)
        ensures if zeroForOne then u.index <= t.index else u.index >= t.index
      {
        NextTickNearest(ticks, tick, zeroForOne, u);
      }
      LadderCons(ticks, tick, t, RungsFrom(ticks, TickAfter(t.index, zeroForOne), zeroForOne), zeroForOne);
    }
  }

  lemma LadderCons(ticks: seq<Tick>, tick: int, t: Tick, rest: seq<int>, zeroForOne: bool)
    requires t in ticks && InRange(t.index) && Ahead(t.index, tick, zeroForOne)
    requires LadderOver(ticks, TickAfter(t.index, zeroForOne), rest, zeroForOne)
    requires forall u <- ticks :: Ahead(u.index, tick, zeroForOne) ==>
      if zeroForOne then u.index <= t.index else u.index >= t.index
    ensures LadderOver(ticks, tick, [t.index] + rest, zeroForOne)
  {
    var rungs := [t.index] + rest;
    forall i, j | 0 <= i < j < |rungs|
      ensures if zeroForOne then rungs[j] < rungs[i] else rungs[i] < rungs[j]
    {
      assert rungs[j] == rest[j - 1];
    }
    forall i | 0 <= i < |rungs|
      ensures HasTick(ticks, rungs[i])
    {
      if i > 0 {
        assert HasTick(ticks, rest[i - 1]);
      }
    }
    forall u <- ticks | Ahead(u.index, tick, zeroForOne)
      ensures OnLadder(rungs, u.index)
    {
      if u.index != t.index {
        assert OnLadder(rest, u.index);
      }
    }
  }

  lemma LadderExists(p: V3Pool, zeroForOne: bool) returns (rungs: seq<int>)
    requires Consistent(p)
    ensures Ladder(p, rungs, zeroForOne)
  {
    var ticks := SortedTicks(p.ticks);
    SameMembers(p.ticks);
    rungs := RungsFrom(ticks, p.tick, zeroForOne);
    RungsFromSpec(ticks, p.tick, zeroForOne);
    LadderCarries(ticks, p.ticks, p.tick, rungs, zeroForOne);
  }

  lemma SameMembers(ticks: seq<Tick>)
    ensures forall t: Tick :: t in SortedTicks(ticks) <==> t in ticks
  {
    forall t: Tick
      ensures t in SortedTicks(ticks) <==> t in ticks
    {
      SortedMembers(ticks, t);
    }
  }

  lemma LadderCarries(a: seq<Tick>, b: seq<Tick>, tick: int, rungs: seq<int>, zeroForOne: bool)
    requires LadderOver(a, tick, rungs, zeroForOne) && forall t: Tick :: t in a <==> t in b
    ensures LadderOver(b, tick, rungs, zeroForOne)
  {
    forall i | 0 <= i < |rungs|
      ensures HasTick(b, rungs[i])
    {
      assert HasTick(a, rungs[i]);
    }
  }

  /** The first range has the pool's own liquidity. */
  lemma FirstLiquidity(p: V3Pool, rungs: seq<int>, zeroForOne: bool)
    requires Ladder(p, rungs, zeroForOne) && |rungs| > 0
    ensures ActiveLiquidity(p, rungs[0], zeroForOne) == p.liquidity
  {
    var (lo, hi) := if zeroForOne then (rungs[0], p.tick) else (p.tick, rungs[0] - 1);
    forall t <- p.ticks
      ensures !(lo < t.index <= hi)
    {
      if lo < t.index <= hi {
        NothingBetween(p, rungs, 0, t, zeroForOne);
      }
    }
    NetNone(p.ticks, lo, hi);
  }

  /** Crossing a rung changes the liquidity by that tick's net. */
  lemma NextLiquidity(p: V3Pool, rungs: seq<int>, i: nat, t: Tick, zeroForOne: bool)
    requires Ladder(p, rungs, zeroForOne) && DistinctIndices(p.ticks) && i + 1 < |rungs|
    requires t in p.ticks && t.index == rungs[i]
    ensures ActiveLiquidity(p, rungs[i + 1], zeroForOne)
         == ActiveLiquidity(p, rungs[i], zeroForOne) + if zeroForOne then -t.liquidityNet else t.liquidityNet
  {
    assert if zeroForOne then rungs[i + 1] < rungs[i] else rungs[i] < rungs[i + 1];
    var (lo, hi) := if zeroForOne then (rungs[i + 1], rungs[i]) else (rungs[i] - 1, rungs[i + 1] - 1);
    forall u <- p.ticks | lo < u.index <= hi
      ensures u.index == t.index
    {
      if u.index != t.index {
        NothingBetween(p, rungs, i + 1, u, zeroForOne);
      }
    }
    NetOne(p.ticks, lo, hi, t);
    if zeroForOne {
      NetSplits(p.ticks, rungs[i + 1], rungs[i], p.tick);
    } else {
      NetSplits(p.ticks, p.tick, rungs[i] - 1, rungs[i + 1] - 1);
    }
  }

  /** A step in a range either crosses it at its full cost or ends inside with everything consumed. */
  lemma RungStep(p: V3Pool, rungs: seq<int>, i: nat, s: SwapState, r: Range, zeroForOne: bool) returns (d: Step)
    requires i < |rungs| && Liquid(p, rungs, i + 1, zeroForOne) && r == RangeAt(p, rungs, i, zeroForOne)
    requires s.remaining > 0 && s.price == r.start && s.liquidity == r.liquidity && Toward(r.start, r.end, zeroForOne)
    ensures r.liquidity > 0 && r.end == SqrtRatio(rungs[i])
    ensures d == ComputeStep(s.price, s.liquidity, s.remaining, SqrtRatio(rungs[i]), p.feeBps * 100, zeroForOne)
    ensures d.reached <==> s.remaining >= r.cost
    ensures d.reached ==> d.next == r.end && d.Cost() == r.cost && d.out == r.out
    ensures !d.reached ==>
      d.Cost() == s.remaining && d.out == r.buys(NetOf(s.remaining, p.feeBps))
  {
    d := ComputeStep(s.price, s.liquidity, s.remaining, SqrtRatio(rungs[i]), p.feeBps * 100, zeroForOne);
    StepSafe(s.price, s.liquidity, s.remaining, SqrtRatio(rungs[i]), p.feeBps * 100, zeroForOne);
    GrossIsLeast(s.remaining, InputTo(r.liquidity, r.start, r.end, zeroForOne), p.feeBps * 100);
    NetOfFee(s.remaining, p.feeBps);
  }

  /** The walk stands past `rs` with input left and turns enough for the ticks ahead. */
  predicate Climbing(amountIn: int, p: V3Pool, rungs: seq<int>, rs: seq<Range>, turns: nat, s: SwapState, zeroForOne: bool) {
    && AtRung(amountIn, p, rungs, rs, s, zeroForOne) && s.remaining > 0
    && turns > CountAhead(SortedTicks(p.ticks), s.tick, zeroForOne)
    && Aligned(SortedTicks(p.ticks), s.price, s.tick, zeroForOne)
  }

  predicate Climbable(p: V3Pool, rungs: seq<int>, zeroForOne: bool) {
    Consistent(p) && Ladder(p, rungs, zeroForOne) && DistinctIndices(p.ticks)
  }

  function WalkOver(p: V3Pool, turns: nat, s: SwapState, zeroForOne: bool): Stop
    requires p.feeBps < BPS
  {
    Walk(SortedTicks(p.ticks), turns, s, p.feeBps * 100, zeroForOne)
  }

  /** `value` stands for the walk's outcome. */
  ghost predicate Evaluates(value: (nat, SwapState) -> Stop, p: V3Pool, zeroForOne: bool) {
    && p.feeBps < BPS
    && forall t: nat, u: SwapState {:trigger WalkOver(p, t, u, zeroForOne)} :: value(t, u) == WalkOver(p, t, u, zeroForOne)
  }

  lemma RungAhead(amountIn: int, p: V3Pool, rungs: seq<int>, rs: seq<Range>, turns: nat, s: SwapState, zeroForOne: bool)
    returns (t: Tick)
    requires Climbable(p, rungs, zeroForOne) && Climbing(amountIn, p, rungs, rs, turns, s, zeroForOne) && |rs| < |rungs|
    ensures NextTick(SortedTicks(p.ticks), s.tick, zeroForOne) == Some(t) && t in p.ticks && t.index == rungs[|rs|]
    ensures InRange(t.index) && Toward(s.price, SqrtRatio(t.index), zeroForOne)
    ensures Aligned(SortedTicks(p.ticks), SqrtRatio(t.index), TickAfter(t.index, zeroForOne), zeroForOne)
    ensures turns - 1 > CountAhead(SortedTicks(p.ticks), TickAfter(t.index, zeroForOne), zeroForOne)
  {
    NextIsRung(p, rungs, |rs|, s.tick, zeroForOne);
    t := NextTick(SortedTicks(p.ticks), s.tick, zeroForOne).value;
    CrossingAligned(SortedTicks(p.ticks), s.price, s.tick, t, zeroForOne);
  }

  /** Crossing the range past `rs` leads to the next rung. */
  lemma RungCrossed(amountIn: int, p: V3Pool, rungs: seq<int>, rs: seq<Range>, r: Range, s: SwapState, t: Tick, d: Step,
                    zeroForOne: bool)
    requires Climbable(p, rungs, zeroForOne) && AtRung(amountIn, p, rungs, rs, s, zeroForOne)
    requires |rs| < |rungs| && Liquid(p, rungs, |rs| + 1, zeroForOne)
    requires t in p.ticks && t.index == rungs[|rs|] && d.next == r.end && d.Cost() == r.cost && d.out == r.out
    ensures AtRung(amountIn, p, rungs, rs + [r], AfterCross(AfterStep(s, d), t, zeroForOne), zeroForOne)
  {
    assert (rs + [r])[..|rs|] == rs;
    if |rs| + 1 < |rungs| {
      NextLiquidity(p, rungs, |rs|, t, zeroForOne);
    }
  }

  /** A range starts where the one before it ends. */
  lemma StartsAtEnd(p: V3Pool, rungs: seq<int>, rs: seq<Range>, r: Range, zeroForOne: bool)
    requires Spans(p, rungs, rs + [r], zeroForOne)
    ensures r == RangeAt(p, rungs, |rs|, zeroForOne) && r.end == SqrtRatio(rungs[|rs|])
    ensures r.start == if rs == [] then p.sqrtPrice else rs[|rs| - 1].end
    ensures r.liquidity == ActiveLiquidity(p, rungs[|rs|], zeroForOne) > 0
  {
    assert (rs + [r])[|rs|] == RangeAt(p, rungs, |rs|, zeroForOne);
    if rs != [] {
      assert (rs + [r])[|rs| - 1] == RangeAt(p, rungs, |rs| - 1, zeroForOne);
    }
  }

  /** One turn in the range past `rs`. */
  lemma RungTurn(amountIn: int, p: V3Pool, rungs: seq<int>, rs: seq<Range>, r: Range, turns: nat, s: SwapState,
                 zeroForOne: bool, t: Tick) returns (d: Step)
    requires Climbable(p, rungs, zeroForOne) && Climbing(amountIn, p, rungs, rs, turns, s, zeroForOne)
    requires Spans(p, rungs, rs + [r], zeroForOne)
    requires NextTick(SortedTicks(p.ticks), s.tick, zeroForOne) == Some(t) && t.index == rungs[|rs|]
    requires InRange(t.index) && Toward(s.price, SqrtRatio(t.index), zeroForOne)
    ensures d.reached <==> s.remaining >= r.cost
    ensures d.reached ==> d.next == r.end && d.Cost() == r.cost && d.out == r.out
    ensures s.remaining <= r.cost ==> d.Cost() == s.remaining && d.out == LastOut(r, s.remaining, p.feeBps)
    ensures turns >= 1 && WalkOver(p, turns, s, zeroForOne) ==
      if s.remaining <= d.Cost() then Filled(s.out + d.out, s.remaining - d.Cost())
      else WalkOver(p, turns - 1, AfterCross(AfterStep(s, d), t, zeroForOne), zeroForOne)
  {
    StartsAtEnd(p, rungs, rs, r, zeroForOne);
    d := RungStep(p, rungs, |rs|, s, r, zeroForOne);
    WalkTurn(SortedTicks(p.ticks), turns, s, t, d, p.feeBps * 100, zeroForOne);
  }

  /** With more left than the range costs, the turn moves on to the next rung. */
  lemma RungPassed(amountIn: int, p: V3Pool, rungs: seq<int>, rs: seq<Range>, r: Range, more: seq<Range>, turns: nat,
                   s: SwapState, zeroForOne: bool, value: (nat, SwapState) -> Stop) returns (next: SwapState)
    requires Climbable(p, rungs, zeroForOne) && Climbing(amountIn, p, rungs, rs, turns, s, zeroForOne)
    requires more == rs + [r] && Spans(p, rungs, more, zeroForOne) && s.remaining > r.cost
    requires Evaluates(value, p, zeroForOne)
    ensures turns >= 1 && Climbing(amountIn, p, rungs, more, turns - 1, next, zeroForOne)
    ensures value(turns, s) == value(turns - 1, next)
  {
    StartsAtEnd(p, rungs, rs, r, zeroForOne);
    var t := RungAhead(amountIn, p, rungs, rs, turns, s, zeroForOne);
    var d := RungTurn(amountIn, p, rungs, rs, r, turns, s, zeroForOne, t);
    next := AfterCross(AfterStep(s, d), t, zeroForOne);
    RungCrossed(amountIn, p, rungs, rs, r, s, t, d, zeroForOne);
  }

  /** Otherwise the walk ends here, paying what the rest buys. */
  lemma RungFilled(amountIn: int, p: V3Pool, rungs: seq<int>, rs: seq<Range>, r: Range, turns: nat, s: SwapState,
                   zeroForOne: bool, value: (nat, SwapState) -> Stop)
    requires Climbable(p, rungs, zeroForOne) && Climbing(amountIn, p, rungs, rs, turns, s, zeroForOne)
    requires Spans(p, rungs, rs + [r], zeroForOne) && s.remaining <= r.cost && Evaluates(value, p, zeroForOne)
    ensures value(turns, s) == Filled(s.out + LastOut(r, s.remaining, p.feeBps), 0)
  {
    var t := RungAhead(amountIn, p, rungs, rs, turns, s, zeroForOne);
    var d := RungTurn(amountIn, p, rungs, rs, r, turns, s, zeroForOne, t);
  }

  lemma {:induction false} TotalGrows(rs: seq<Range>, i: nat)
    requires i <= |rs|
    ensures TotalCost(rs[..i]) <= TotalCost(rs)
    decreases |rs|
  {
    if i < |rs| {
      assert rs[..|rs| - 1][..i] == rs[..i];
      TotalGrows(rs[..|rs| - 1], i);
    } else {
      assert rs[..i] == rs;
    }
  }

  lemma TotalStep(rs: seq<Range>, r: Range)
    ensures TotalCost(rs + [r]) == TotalCost(rs) + r.cost && TotalOut(rs + [r]) == TotalOut(rs) + r.out
  {
    assert (rs + [r])[..|rs|] == rs;
  }

  lemma SpansPrefix(p: V3Pool, rungs: seq<int>, rs: seq<Range>, i: nat, zeroForOne: bool)
    requires Spans(p, rungs, rs, zeroForOne) && i <= |rs|
    ensures Spans(p, rungs, rs[..i], zeroForOne)
  {
  }

  lemma PrefixOutlasted(rs: seq<Range>, i: nat, amountIn: int)
    requires i < |rs| && TotalCost(rs) < amountIn
    ensures rs[..i + 1] == rs[..i] + [rs[i]]
    ensures amountIn - TotalCost(rs[..i]) > rs[i].cost
  {
    assert rs[..i] + [rs[i]] == rs[..i + 1];
    TotalGrows(rs, i + 1);
    TotalStep(rs[..i], rs[i]);
  }

  lemma PassNext(amountIn: int, p: V3Pool, rungs: seq<int>, rs: seq<Range>, i: nat, turns: nat, s: SwapState,
                 zeroForOne: bool, value: (nat, SwapState) -> Stop) returns (next: SwapState)
    requires Climbable(p, rungs, zeroForOne) && Spans(p, rungs, rs, zeroForOne) && TotalCost(rs) < amountIn
    requires i < |rs| && Climbing(amountIn, p, rungs, rs[..i], turns, s, zeroForOne) && Evaluates(value, p, zeroForOne)
    ensures turns >= 1 && Climbing(amountIn, p, rungs, rs[..i + 1], turns - 1, next, zeroForOne)
    ensures value(turns, s) == value(turns - 1, next)
  {
    SpansPrefix(p, rungs, rs, i + 1, zeroForOne);
    PrefixOutlasted(rs, i, amountIn);
    next := RungPassed(amountIn, p, rungs, rs[..i], rs[i], rs[..i + 1], turns, s, zeroForOne, value);
  }

  /** Input that outlasts the ranges `rs` takes the walk past them. */
  lemma {:induction false} Climb(amountIn: int, p: V3Pool, rungs: seq<int>, rs: seq<Range>, i: nat, turns: nat, s: SwapState,
                                 zeroForOne: bool, value: (nat, SwapState) -> Stop) returns (left: nat, s': SwapState)
    requires Climbable(p, rungs, zeroForOne) && Spans(p, rungs, rs, zeroForOne) && TotalCost(rs) < amountIn
    requires i <= |rs| && Climbing(amountIn, p, rungs, rs[..i], turns, s, zeroForOne) && Evaluates(value, p, zeroForOne)
    ensures Climbing(amountIn, p, rungs, rs[..|rs|], left, s', zeroForOne)
    ensures value(turns, s) == value(left, s')
    decreases |rs| - i
  {
    if i == |rs| {
      left, s' := turns, s;
    } else {
      var next := PassNext(amountIn, p, rungs, rs, i, turns, s, zeroForOne, value);
      left, s' := Climb(amountIn, p, rungs, rs, i + 1, turns - 1, next, zeroForOne, value);
    }
  }

  /** A walk that fills past `rs` fills in some range from there on. */
  lemma {:induction false} FillsFrom(amountIn: int, p: V3Pool, rungs: seq<int>, rs: seq<Range>, turns: nat, s: SwapState,
                                     zeroForOne: bool, value: (nat, SwapState) -> Stop) returns (all: seq<Range>)
    requires Climbable(p, rungs, zeroForOne) && Spans(p, rungs, rs, zeroForOne) && Evaluates(value, p, zeroForOne)
    requires Climbing(amountIn, p, rungs, rs, turns, s, zeroForOne) && value(turns, s).Filled?
    ensures Spans(p, rungs, all, zeroForOne) && FillsIn(amountIn, all)
    decreases |rungs| - |rs|
  {
    var r := NextRange(amountIn, p, rungs, rs, turns, s, zeroForOne, value);
    TotalStep(rs, r);
    assert (rs + [r])[..|rs|] == rs;
    if s.remaining <= r.cost {
      all := rs + [r];
    } else {
      var next := RungPassed(amountIn, p, rungs, rs, r, rs + [r], turns, s, zeroForOne, value);
      all := FillsFrom(amountIn, p, rungs, rs + [r], turns - 1, next, zeroForOne, value);
    }
  }

  /** The range a filling walk is in. */
  lemma NextRange(amountIn: int, p: V3Pool, rungs: seq<int>, rs: seq<Range>, turns: nat, s: SwapState, zeroForOne: bool,
                  value: (nat, SwapState) -> Stop) returns (r: Range)
    requires Climbable(p, rungs, zeroForOne) && Spans(p, rungs, rs, zeroForOne) && Evaluates(value, p, zeroForOne)
    requires Climbing(amountIn, p, rungs, rs, turns, s, zeroForOne) && value(turns, s).Filled?
    ensures Spans(p, rungs, rs + [r], zeroForOne)
  {
    assert s.liquidity > 0 && |rs| < |rungs| by {
      NextIsRung(p, rungs, |rs|, s.tick, zeroForOne);
      assert value(turns, s) == WalkOver(p, turns, s, zeroForOne);
      FilledNeeds(SortedTicks(p.ticks), turns, s, p.feeBps * 100, zeroForOne);
    }
    r := SpansOneMore(p, rungs, rs, zeroForOne);
  }

  lemma SpansOneMore(p: V3Pool, rungs: seq<int>, rs: seq<Range>, zeroForOne: bool) returns (r: Range)
    requires Spans(p, rungs, rs, zeroForOne) && |rs| < |rungs| && ActiveLiquidity(p, rungs[|rs|], zeroForOne) > 0
    ensures Spans(p, rungs, rs + [r], zeroForOne)
  {
    r := RangeAt(p, rungs, |rs|, zeroForOne);
  }

  lemma AtFirstRung(amountIn: int, p: V3Pool, rungs: seq<int>, zeroForOne: bool)
    requires Climbable(p, rungs, zeroForOne) && p.feeBps < BPS && amountIn > 0
    ensures Climbing(amountIn, p, rungs, [], |p.ticks| + 1, Start(amountIn, p), zeroForOne)
    ensures Spans(p, rungs, [], zeroForOne)
  {
    LadderPriced(p, rungs, zeroForOne);
    ConsistentAligned(p, zeroForOne);
    if |rungs| > 0 {
      FirstLiquidity(p, rungs, zeroForOne);
    }
  }

  /**
    Over any number of ranges: when the input runs out in the last of `rs`, the quote is
    the output of every range before it plus what the rest, net of the fee, buys there,
    each range at the liquidity active in it.
   */
  lemma QuoteByRanges(amountIn: int, p: V3Pool, rungs: seq<int>, rs: seq<Range>, zeroForOne: bool)
    requires Consistent(p) && Ladder(p, rungs, zeroForOne) && DistinctIndices(p.ticks)
    requires Spans(p, rungs, rs, zeroForOne) && FillsIn(amountIn, rs)
    ensures Quote(amountIn, p, zeroForOne) == Ok(OutputIn(amountIn, p.feeBps, rs))
  {
    AtFirstRung(amountIn, p, rungs, zeroForOne);
    FirstLiquidity(p, rungs, zeroForOne);
    WalkByRanges(amountIn, p, rungs, rs, zeroForOne);
  }

  lemma WalkByRanges(amountIn: int, p: V3Pool, rungs: seq<int>, rs: seq<Range>, zeroForOne: bool)
    requires Climbable(p, rungs, zeroForOne) && Spans(p, rungs, rs, zeroForOne) && FillsIn(amountIn, rs)
    ensures WalkOver(p, |p.ticks| + 1, Start(amountIn, p), zeroForOne)
         == Filled(OutputIn(amountIn, p.feeBps, rs), 0)
  {
    AtFirstRung(amountIn, p, rungs, zeroForOne);
    var value := (t: nat, u: SwapState) => WalkOver(p, t, u, zeroForOne);
    ClimbAndFill(amountIn, p, rungs, rs, |p.ticks| + 1, Start(amountIn, p), zeroForOne, value);
  }

  lemma ClimbAndFill(amountIn: int, p: V3Pool, rungs: seq<int>, rs: seq<Range>, turns: nat, s: SwapState, zeroForOne: bool,
                     value: (nat, SwapState) -> Stop)
    requires Climbable(p, rungs, zeroForOne) && Spans(p, rungs, rs, zeroForOne) && FillsIn(amountIn, rs)
    requires Climbing(amountIn, p, rungs, [], turns, s, zeroForOne) && Evaluates(value, p, zeroForOne)
    ensures value(turns, s) == Filled(OutputIn(amountIn, p.feeBps, rs), 0)
  {
    var left, s' := ReachLast(amountIn, p, rungs, rs, turns, s, zeroForOne, value);
    FillLast(amountIn, p, rungs, rs, left, s', zeroForOne, value);
  }

  lemma ReachLast(amountIn: int, p: V3Pool, rungs: seq<int>, rs: seq<Range>, turns: nat, s: SwapState, zeroForOne: bool,
                  value: (nat, SwapState) -> Stop) returns (left: nat, s': SwapState)
    requires Climbable(p, rungs, zeroForOne) && Spans(p, rungs, rs, zeroForOne) && FillsIn(amountIn, rs)
    requires Climbing(amountIn, p, rungs, [], turns, s, zeroForOne) && Evaluates(value, p, zeroForOne)
    ensures Climbing(amountIn, p, rungs, rs[..|rs| - 1], left, s', zeroForOne) && value(turns, s) == value(left, s')
  {
    var front := rs[..|rs| - 1];
    SpansPrefix(p, rungs, rs, |rs| - 1, zeroForOne);
    assert front[..0] == [] && front[..|front|] == front;
    left, s' := Climb(amountIn, p, rungs, front, 0, turns, s, zeroForOne, value);
  }

  lemma FillLast(amountIn: int, p: V3Pool, rungs: seq<int>, rs: seq<Range>, turns: nat, s: SwapState, zeroForOne: bool,
                 value: (nat, SwapState) -> Stop)
    requires Climbable(p, rungs, zeroForOne) && Spans(p, rungs, rs, zeroForOne) && FillsIn(amountIn, rs)
    requires Climbing(amountIn, p, rungs, rs[..|rs| - 1], turns, s, zeroForOne) && Evaluates(value, p, zeroForOne)
    ensures value(turns, s) == Filled(OutputIn(amountIn, p.feeBps, rs), 0)
  {
    var (front, last) := (rs[..|rs| - 1], rs[|rs| - 1]);
    assert front + [last] == rs;
    TotalStep(front, last);
    RungFilled(amountIn, p, rungs, front, last, turns, s, zeroForOne, value);
  }

  /** And a quote succeeds only if the input runs out in some range: otherwise liquidity is insufficient. */
  lemma QuotableIff(amountIn: int, p: V3Pool, rungs: seq<int>, zeroForOne: bool)
    requires Consistent(p) && Ladder(p, rungs, zeroForOne) && DistinctIndices(p.ticks)
    requires amountIn > 0 && p.feeBps < BPS
    ensures Quote(amountIn, p, zeroForOne).Ok? <==>
      exists rs: seq<Range> :: Spans(p, rungs, rs, zeroForOne) && FillsIn(amountIn, rs)
    ensures Quote(amountIn, p, zeroForOne).Err? ==> Quote(amountIn, p, zeroForOne) == Err(InsufficientLiquidity)
  {
    QuoteExits(amountIn, p, zeroForOne);
    if Quote(amountIn, p, zeroForOne).Ok? {
      var rs := SomeRangeFills(amountIn, p, rungs, zeroForOne);
    }
    if exists rs: seq<Range> :: Spans(p, rungs, rs, zeroForOne) && FillsIn(amountIn, rs) {
      var rs: seq<Range> :| Spans(p, rungs, rs, zeroForOne) && FillsIn(amountIn, rs);
      QuoteByRanges(amountIn, p, rungs, rs, zeroForOne);
    }
  }

  lemma SomeRangeFills(amountIn: int, p: V3Pool, rungs: seq<int>, zeroForOne: bool) returns (rs: seq<Range>)
    requires Climbable(p, rungs, zeroForOne) && amountIn > 0 && p.feeBps < BPS
    requires WholeWalk(amountIn, p, zeroForOne).Filled?
    ensures Spans(p, rungs, rs, zeroForOne) && FillsIn(amountIn, rs)
  {
    AtFirstRung(amountIn, p, rungs, zeroForOne);
    var value := (t: nat, u: SwapState) => WalkOver(p, t, u, zeroForOne);
    rs := FillsFrom(amountIn, p, rungs, [], |p.ticks| + 1, Start(amountIn, p), zeroForOne, value);
  }
}
