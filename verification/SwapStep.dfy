/**
  One step of a concentrated-liquidity swap: the directed-rounding arithmetic of
  internal/amm/v3.go within a single tick range.
 */
module SwapStep {
  import opened Arith
  import opened TickMath

  const PIPS: nat := 1_000_000
  const Q192: nat := Q96 * Q96

  /** `getAmount0DeltaInto`: L * (b - a) * 2^96 / (a * b), rounded as asked. */
  function Amount0(liquidity: nat, x: int, y: int, roundUp: bool): nat {
    var a, b := if x > y then y else x, if x > y then x else y;
    if a <= 0 then 0
    else if roundUp then CeilDiv(MulDivUp(liquidity * Q96, b - a, b), a)
    else MulDiv(liquidity * Q96, b - a, b) / a
  }

  /** `getAmount1DeltaInto`: L * (b - a) / 2^96, rounded as asked. */
  function Amount1(liquidity: nat, x: int, y: int, roundUp: bool): nat {
    var a, b := if x > y then y else x, if x > y then x else y;
    if roundUp then MulDivUp(liquidity, b - a, Q96) else MulDiv(liquidity, b - a, Q96)
  }

  /** `getNextSqrtPriceFromInputInto`. */
  function NextPrice(liquidity: nat, price: nat, amount: nat, zeroForOne: bool): nat
    requires liquidity > 0
  {
    if amount == 0 then price
    else if zeroForOne then
      MulSign(amount, price);
      MulDivUp(liquidity * Q96, price, liquidity * Q96 + amount * price)
    else price + amount * Q96 / liquidity
  }

  /** What one step did: `base` is the input that traded, `fee` what was held back. */
  datatype Step = Step(next: nat, base: nat, fee: nat, out: nat, reached: bool) {
    function Cost(): nat { base + fee }
  }

  function LessFee(remaining: nat, feePips: nat): nat
    requires feePips < PIPS
  {
    MulDiv(remaining, PIPS - feePips, PIPS)
  }

  /** Input needed to walk the price from `price` to `end`. */
  function InputTo(liquidity: nat, price: int, end: int, zeroForOne: bool): nat {
    if zeroForOne then Amount0(liquidity, end, price, true) else Amount1(liquidity, price, end, true)
  }

  /** Output paid for walking the price from `price` to `end`. */
  function OutputTo(liquidity: nat, price: int, end: int, zeroForOne: bool): nat {
    if zeroForOne then Amount1(liquidity, end, price, false) else Amount0(liquidity, price, end, false)
  }

  /** The fee on a fully crossed range, grossed up from the input that traded. */
  function FullFee(base: nat, feePips: nat): nat
    requires feePips < PIPS
  {
    MulDivUp(base, feePips, PIPS - feePips)
  }

  /** The fee on a step that ran out of input: whatever did not trade, never negative. */
  function HeldBack(remaining: nat, base: nat): nat {
    if remaining - base < 0 then 0 else remaining - base
  }

  /** `computeSwapStep`. */
  function ComputeStep(price: nat, liquidity: nat, remaining: nat, target: nat, feePips: nat, zeroForOne: bool): Step
    requires liquidity > 0 && feePips < PIPS
  {
    var lessFee := LessFee(remaining, feePips);
    var inToTarget := InputTo(liquidity, price, target, zeroForOne);
    var reached := lessFee >= inToTarget;
    var next := if reached then target else NextPrice(liquidity, price, lessFee, zeroForOne);
    var base := if reached then inToTarget else InputTo(liquidity, price, next, zeroForOne);
    var out := OutputTo(liquidity, price, next, zeroForOne);
    var fee := if reached then FullFee(base, feePips) else HeldBack(remaining, base);
    Step(next, base, fee, out, reached)
  }

  // ----- fees -----

  /** An amount less a fee in basis points, rounded down. */
  function NetOf(x: nat, feeBps: nat): nat
    requires feeBps < 10000
  {
    MulSign(x, 10000 - feeBps);
    x * (10000 - feeBps) / 10000
  }

  /** The pool's fee in basis points is what comes off the input, rounded down. */
  lemma NetOfFee(x: nat, feeBps: nat)
    requires feeBps < 10000
    ensures LessFee(x, feeBps * 100) == NetOf(x, feeBps)
  {
    var n := x * (10000 - feeBps);
    MulSign(x, 10000 - feeBps);
    assert x * (PIPS - feeBps * 100) == n * 100;
    FloorBounds(n, 10000);
    FloorUnique(n * 100, PIPS, n / 10000);
  }

  /** The gross cost of a crossed range is the least input whose net amount covers it. */
  lemma GrossIsLeast(x: nat, base: nat, feePips: nat)
    requires feePips < PIPS
    ensures base <= LessFee(x, feePips) <==> base + FullFee(base, feePips) <= x
  {
    var k := PIPS - feePips;
    MulSign(x, k);
    MulSign(base, feePips);
    FloorGe(x * k, PIPS, base);
    assert base * PIPS == base * feePips + base * k;
    if base <= x {
      CeilLe(base * feePips, k, x - base);
      assert (x - base) * k == x * k - base * k;
    } else {
      MulLe(x, base, k);
      MulLt(x, base, k);
    }
  }

  /** The target lies in the direction the swap pushes the price. */
  predicate Toward(price: int, target: int, zeroForOne: bool) {
    if zeroForOne then 0 < target <= price else 0 < price <= target
  }

  // ----- the amounts, each with a single rounding -----

  lemma InputDown(liquidity: nat, price: nat, end: nat, amount: nat)
    requires 0 < end <= price
    ensures InputTo(liquidity, price, end, true) <= amount
       <==> liquidity * Q96 * (price - end) <= amount * (price * end)
  {
    CeilTwiceLe(liquidity * Q96 * (price - end), price, end, amount);
  }

  lemma InputUp(liquidity: nat, price: nat, end: nat, amount: nat)
    requires 0 < price <= end
    ensures InputTo(liquidity, price, end, false) <= amount
       <==> liquidity * (end - price) <= amount * Q96
  {
    CeilLe(liquidity * (end - price), Q96, amount);
  }

  lemma OutputDown(liquidity: nat, price: nat, end: nat, amount: nat)
    requires 0 < end <= price
    ensures amount <= OutputTo(liquidity, price, end, true)
       <==> amount * Q96 <= liquidity * (price - end)
  {
    FloorGe(liquidity * (price - end), Q96, amount);
  }

  lemma OutputUp(liquidity: nat, price: nat, end: nat, amount: nat)
    requires 0 < price <= end
    ensures amount <= OutputTo(liquidity, price, end, false)
       <==> amount * (end * price) <= liquidity * Q96 * (end - price)
  {
    MulSign(liquidity * Q96, end - price);
    var owed: nat := liquidity * Q96 * (end - price);
    FloorTwiceGe(owed, end, price, amount);
  }

  // ----- the price after a partial step -----

  /** Selling token0, with k = L*2^96: n is the least price with n * (k + a*p) >= k * p. */
  lemma NextDown(liquidity: nat, price: nat, amount: nat, k: nat, den: nat)
    requires liquidity > 0 && price > 0 && k == liquidity * Q96 && den == k + amount * price
    ensures var n := NextPrice(liquidity, price, amount, true);
      0 < n <= price && (n - 1) * den < k * price <= n * den
  {
    MulSign(amount, price);
    if amount == 0 {
      MulLt(price - 1, price, den);
    } else {
      CeilBounds(k * price, den);
      MulLe(k, den, price);
      CeilLe(k * price, den, price);
      MulSign(k, price);
      CeilLe(k * price, den, 0);
    }
  }

  /** Selling token1: the price rises by the whole number of units the input buys. */
  lemma NextUp(liquidity: nat, price: nat, amount: nat)
    requires liquidity > 0
    ensures var n := NextPrice(liquidity, price, amount, false);
      && price <= n
      && liquidity * (n - price) <= amount * Q96 < liquidity * (n - price + 1)
  {
    var rise := amount * Q96 / liquidity;
    FloorBounds(amount * Q96, liquidity);
    assert NextPrice(liquidity, price, amount, false) - price == rise;
    assert rise * liquidity == liquidity * rise;
    assert (rise + 1) * liquidity == liquidity * (rise + 1);
  }

  // ----- a step never passes its target and never costs more than it was given -----

  /** The algebra of selling token0, with k = L * 2^96: too little input to reach t stops above t. */
  lemma StopsAbove(k: nat, p: nat, t: nat, n: nat, a: nat)
    requires a * (p * t) < k * (p - t)
    requires k * p <= n * (k + a * p)
    ensures t < n
  {
    assert t * (k + a * p) == t * k + a * (p * t);
    assert k * (p - t) == k * p - t * k;
    if n <= t {
      MulLe(n, t, k + a * p);
      assert false;
    }
  }

  lemma CostWithin(k: nat, p: nat, n: nat, a: nat)
    requires k * p <= n * (k + a * p)
    ensures k * (p - n) <= a * (p * n)
  {
    assert n * (k + a * p) == n * k + a * (p * n);
    assert k * (p - n) == k * p - n * k;
  }

  lemma PartialDown(liquidity: nat, price: nat, target: nat, amount: nat)
    requires liquidity > 0 && 0 < target <= price
    requires amount < InputTo(liquidity, price, target, true)
    ensures var n := NextPrice(liquidity, price, amount, true);
      target < n <= price && InputTo(liquidity, price, n, true) <= amount
  {
    var n := NextPrice(liquidity, price, amount, true);
    var k := liquidity * Q96;
    NextDown(liquidity, price, amount, k, k + amount * price);
    InputDown(liquidity, price, target, amount);
    StopsAbove(k, price, target, n, amount);
    CostWithin(k, price, n, amount);
    InputDown(liquidity, price, n, amount);
  }

  lemma SmallerFactor(l: nat, x: int, y: int, z: int)
    requires l * x <= z < l * y
    ensures x < y
  {
    if y <= x {
      MulLe(y, x, l);
    }
  }

  lemma PartialUp(liquidity: nat, price: nat, target: nat, amount: nat)
    requires liquidity > 0 && 0 < price <= target
    requires amount < InputTo(liquidity, price, target, false)
    ensures var n := NextPrice(liquidity, price, amount, false);
      price <= n < target && InputTo(liquidity, price, n, false) <= amount
  {
    var n := NextPrice(liquidity, price, amount, false);
    NextUp(liquidity, price, amount);
    InputUp(liquidity, price, target, amount);
    assert n - price < target - price by {
      SmallerFactor(liquidity, n - price, target - price, amount * Q96);
    }
    InputUp(liquidity, price, n, amount);
  }

  lemma LessFeeBounds(remaining: nat, feePips: nat)
    requires feePips < PIPS
    ensures LessFee(remaining, feePips) <= remaining
    ensures LessFee(remaining, feePips) * PIPS <= remaining * (PIPS - feePips)
  {
    FloorBounds(remaining * (PIPS - feePips), PIPS);
    MulLe(PIPS - feePips, PIPS, remaining);
    CancelLe(LessFee(remaining, feePips), remaining, PIPS);
  }

  /** The fee added back on a fully crossed range still fits in what was there. */
  lemma FullCostFits(base: nat, remaining: nat, feePips: nat)
    requires feePips < PIPS && base <= LessFee(remaining, feePips)
    ensures base + FullFee(base, feePips) <= remaining
  {
    LessFeeBounds(remaining, feePips);
    MulLe(base, LessFee(remaining, feePips), PIPS);
    assert base * feePips == base * PIPS - base * (PIPS - feePips);
    assert (remaining - base) * (PIPS - feePips) == remaining * (PIPS - feePips) - base * (PIPS - feePips);
    CeilLe(base * feePips, PIPS - feePips, remaining - base);
  }

  /**
    The step never overshoots: it stops strictly short of the target or exactly on
    it, the deducted cost is at most what remained, and a step that stops short
    consumes everything, so the negative-fee clamp never fires.
   */
  lemma StepSafe(price: nat, liquidity: nat, remaining: nat, target: nat, feePips: nat, zeroForOne: bool)
    requires liquidity > 0 && feePips < PIPS && Toward(price, target, zeroForOne)
    ensures var s := ComputeStep(price, liquidity, remaining, target, feePips, zeroForOne);
      && (s.reached ==> s.next == target)
      && (!s.reached ==> s.next != target)
      && Toward(price, s.next, zeroForOne)
      && Toward(s.next, target, zeroForOne)
      && s.Cost() <= remaining
      && (!s.reached ==> s.Cost() == remaining && s.fee == remaining - s.base)
  {
    var s := ComputeStep(price, liquidity, remaining, target, feePips, zeroForOne);
    var lessFee := LessFee(remaining, feePips);
    LessFeeBounds(remaining, feePips);
    if s.reached {
      FullCostFits(s.base, remaining, feePips);
    } else if zeroForOne {
      PartialDown(liquidity, price, target, lessFee);
    } else {
      PartialUp(liquidity, price, target, lessFee);
    }
  }

  // ----- no step beats the spot price -----

  predicate WithinSpot(amountIn: int, amountOut: int, price: int, zeroForOne: bool) {
    if zeroForOne then amountOut * Q192 <= amountIn * (price * price)
    else amountOut * (price * price) <= amountIn * Q192
  }

  lemma SpotDown(liquidity: nat, price: nat, end: nat)
    requires 0 < end <= price
    ensures WithinSpot(InputTo(liquidity, price, end, true), OutputTo(liquidity, price, end, true), price, true)
  {
    var i, o := InputTo(liquidity, price, end, true), OutputTo(liquidity, price, end, true);
    InputDown(liquidity, price, end, i);
    OutputDown(liquidity, price, end, o);
    SpotDownAlgebra(liquidity, price - end, i, o, price, end);
  }

  lemma SpotDownAlgebra(l: nat, d: nat, i: nat, o: nat, p: nat, n: nat)
    requires n <= p && l * Q96 * d <= i * (p * n) && o * Q96 <= l * d
    ensures o * Q192 <= i * (p * p)
  {
    MulLe(o * Q96, l * d, Q96);
    assert l * d * Q96 == l * Q96 * d;
    assert o * Q96 * Q96 == o * Q192;
    MulLe(n, p, p);
    MulLe(p * n, p * p, i);
  }

  lemma SpotUp(liquidity: nat, price: nat, end: nat)
    requires 0 < price <= end
    ensures WithinSpot(InputTo(liquidity, price, end, false), OutputTo(liquidity, price, end, false), price, false)
  {
    var i, o := InputTo(liquidity, price, end, false), OutputTo(liquidity, price, end, false);
    InputUp(liquidity, price, end, i);
    OutputUp(liquidity, price, end, o);
    SpotUpAlgebra(liquidity, end - price, i, o, price, end);
  }

  lemma SpotUpAlgebra(l: nat, d: nat, i: nat, o: nat, p: nat, n: nat)
    requires p <= n && l * d <= i * Q96 && o * (n * p) <= l * Q96 * d
    ensures o * (p * p) <= i * Q192
  {
    MulLe(l * d, i * Q96, Q96);
    assert l * d * Q96 == l * Q96 * d;
    assert i * Q96 * Q96 == i * Q192;
    MulLe(p, n, p);
    MulLe(p * p, n * p, o);
  }

  lemma StepWithinSpot(price: nat, liquidity: nat, remaining: nat, target: nat, feePips: nat, zeroForOne: bool)
    requires liquidity > 0 && feePips < PIPS && Toward(price, target, zeroForOne)
    ensures var s := ComputeStep(price, liquidity, remaining, target, feePips, zeroForOne);
      WithinSpot(s.Cost(), s.out, price, zeroForOne)
  {
    var s := ComputeStep(price, liquidity, remaining, target, feePips, zeroForOne);
    StepSafe(price, liquidity, remaining, target, feePips, zeroForOne);
    assert s.base == InputTo(liquidity, price, s.next, zeroForOne);
    if zeroForOne {
      SpotDown(liquidity, price, s.next);
      MulLe(s.base, s.Cost(), price * price);
    } else {
      SpotUp(liquidity, price, s.next);
      MulLe(s.base, s.Cost(), Q192);
    }
  }

  // ----- a bigger input never gets less out of the same range -----

  /** k * (n - p) / (n * p) grows with n. */
  lemma FartherPaysMore(k: nat, o: nat, p: nat, near: nat, far: nat)
    requires 0 < p <= near <= far
    requires o * (near * p) <= k * (near - p)
    ensures o * (far * p) <= k * (far - p)
  {
    MulLe(o * (near * p), k * (near - p), far);
    assert o * (near * p) * far == o * (far * p) * near;
    FartherRatio(k, p, near, far);
    CancelLe(o * (far * p), k * (far - p), near);
  }

  lemma FartherRatio(k: nat, p: nat, near: nat, far: nat)
    requires p <= near <= far
    ensures k * (near - p) * far <= k * (far - p) * near
  {
    var (a, b) := ((near - p) * far, (far - p) * near);
    assert b - a == p * (far - near);
    MulSign(p, far - near);
    MulLe(a, b, k);
    assert a * k == k * (near - p) * far by {
      assert a * k == k * a;
    }
    assert b * k == k * (far - p) * near by {
      assert b * k == k * b;
    }
  }

  lemma OutputMono(liquidity: nat, price: nat, near: nat, far: nat, zeroForOne: bool)
    requires Toward(price, near, zeroForOne) && Toward(near, far, zeroForOne)
    ensures OutputTo(liquidity, price, near, zeroForOne) <= OutputTo(liquidity, price, far, zeroForOne)
  {
    var o := OutputTo(liquidity, price, near, zeroForOne);
    if zeroForOne {
      OutputDown(liquidity, price, near, o);
      MulLe(price - near, price - far, liquidity);
      OutputDown(liquidity, price, far, o);
    } else {
      OutputUp(liquidity, price, near, o);
      FartherPaysMore(liquidity * Q96, o, price, near, far);
      OutputUp(liquidity, price, far, o);
    }
  }

  /** Of two least solutions, the one for the larger denominator is no larger. */
  lemma LeastSolutions(num: nat, dx: nat, dy: nat, n: nat, m: nat)
    requires dx <= dy && 0 < m
    requires num <= n * dx && (m - 1) * dy < num
    ensures m <= n
  {
    if n < m {
      MulLe(n, m - 1, dx);
      MulLe(dx, dy, m - 1);
      assert false;
    }
  }

  lemma NextDownMono(liquidity: nat, price: nat, x: nat, y: nat)
    requires liquidity > 0 && price > 0 && x <= y
    ensures 0 < NextPrice(liquidity, price, y, true) <= NextPrice(liquidity, price, x, true)
  {
    var n, m := NextPrice(liquidity, price, x, true), NextPrice(liquidity, price, y, true);
    var k := liquidity * Q96;
    var dx, dy := k + x * price, k + y * price;
    assert k * price <= n * dx by {
      NextDown(liquidity, price, x, k, dx);
    }
    assert 0 < m && (m - 1) * dy < k * price by {
      NextDown(liquidity, price, y, k, dy);
    }
    assert 0 <= dx <= dy by {
      MulSign(x, price);
      MulLe(x, y, price);
    }
    assert m <= n by {
      LeastSolutions(k * price, dx, dy, n, m);
    }
  }

  lemma NextUpMono(liquidity: nat, price: nat, x: nat, y: nat)
    requires liquidity > 0 && x <= y
    ensures price <= NextPrice(liquidity, price, x, false) <= NextPrice(liquidity, price, y, false)
  {
    FloorMono(x * Q96, y * Q96, liquidity);
  }

  /** More input moves the price at least as far. */
  lemma NextPriceMono(liquidity: nat, price: nat, x: nat, y: nat, zeroForOne: bool)
    requires liquidity > 0 && price > 0 && x <= y
    ensures Toward(NextPrice(liquidity, price, x, zeroForOne), NextPrice(liquidity, price, y, zeroForOne), zeroForOne)
  {
    if zeroForOne {
      NextDownMono(liquidity, price, x, y);
    } else {
      NextUpMono(liquidity, price, x, y);
    }
  }

  lemma LessFeeMono(x: nat, y: nat, feePips: nat)
    requires feePips < PIPS && x <= y
    ensures LessFee(x, feePips) <= LessFee(y, feePips)
  {
    MulLe(x, y, PIPS - feePips);
    FloorMono(x * (PIPS - feePips), y * (PIPS - feePips), PIPS);
  }

  /**
    Two inputs in the same range: the smaller reaches the boundary only if the
    larger does, a crossed range costs and pays the same for both, and otherwise
    the smaller pays out no more.
   */
  lemma StepMono(price: nat, liquidity: nat, x: nat, y: nat, target: nat, feePips: nat, zeroForOne: bool)
    requires liquidity > 0 && feePips < PIPS && Toward(price, target, zeroForOne) && x <= y
    ensures var s := ComputeStep(price, liquidity, x, target, feePips, zeroForOne);
      var t := ComputeStep(price, liquidity, y, target, feePips, zeroForOne);
      && (s.reached ==> s == t)
      && s.out <= t.out
  {
    var s := ComputeStep(price, liquidity, x, target, feePips, zeroForOne);
    var t := ComputeStep(price, liquidity, y, target, feePips, zeroForOne);
    LessFeeMono(x, y, feePips);
    StepSafe(price, liquidity, x, target, feePips, zeroForOne);
    StepSafe(price, liquidity, y, target, feePips, zeroForOne);
    if !s.reached {
      if !t.reached {
        NextPriceMono(liquidity, price, LessFee(x, feePips), LessFee(y, feePips), zeroForOne);
      }
      OutputMono(liquidity, price, s.next, t.next, zeroForOne);
    }
  }

  // ----- inside one range the pool is a constant-product pool over virtual reserves -----

  /** Exact constant-product output for input `a` against reserves `x` (in) and `y` (out). */
  function ConstantProduct(x: real, y: real, a: real): real
    requires x > 0.0 && a >= 0.0
  {
    y * a / (x + a)
  }

  /** Virtual reserve of token0: L * 2^96 / P. */
  function Virtual0(liquidity: nat, price: nat): (v: real)
    requires liquidity > 0 && price > 0
    ensures v > 0.0
  {
    (liquidity * Q96) as real / price as real
  }

  /** Virtual reserve of token1: L * P / 2^96. */
  function Virtual1(liquidity: nat, price: nat): (v: real)
    requires liquidity > 0 && price > 0
    ensures v > 0.0
  {
    (liquidity * price) as real / Q96 as real
  }

  lemma DownAlgebra(q: nat, l: nat, p: nat, a: nat, n: nat, o: nat, den: nat)
    requires l > 0 && den > 0 && den == l * q + a * p
    requires (n - 1) * den < l * q * p <= n * den
    requires o * q <= l * (p - n) < (o + 1) * q
    ensures o * (q * den) <= l * (a * p * p) < (o + 1) * (q * den) + l * den
  {
    assert p * den == l * q * p + a * p * p;
    assert (p - n) * den == p * den - n * den;
    assert (p - n + 1) * den == p * den - (n - 1) * den;
    TwoFloors(l, p - n, q, den, a * p * p, o);
  }

  /** floor(l * floor(x / den) / q) against l * x / (q * den). */
  lemma TwoFloors(l: nat, d: int, q: nat, den: nat, x: int, o: nat)
    requires l > 0 && den > 0
    requires d * den <= x < (d + 1) * den
    requires o * q <= l * d < (o + 1) * q
    ensures o * (q * den) <= l * x < (o + 1) * (q * den) + l * den
  {
    MulLe(o * q, l * d, den);
    MulLe(d * den, x, l);
    MulLt(x, (d + 1) * den, l);
    MulLt(l * d, (o + 1) * q, den);
    assert o * q * den == o * (q * den);
    assert (o + 1) * q * den == (o + 1) * (q * den);
    assert l * d * den == d * den * l;
    assert (d + 1) * den * l == d * den * l + l * den;
  }

  lemma UpScaled(k: nat, l: nat, p: nat, n: nat, d: nat, o: nat)
    requires l > 0 && n == p + d
    requires o * (n * p) <= k * d < (o + 1) * (n * p)
    ensures o * (p * (l * p + l * d)) <= k * (l * d) < (o + 1) * (p * (l * p + l * d))
  {
    assert l * p + l * d == l * n;
    Rescale(o, n, p, l);
    Rescale(o + 1, n, p, l);
    assert k * d * l == k * (l * d);
    MulLe(o * (n * p), k * d, l);
    MulLt(k * d, (o + 1) * (n * p), l);
  }

  lemma UpAlgebra(k: nat, l: nat, p: nat, n: nat, o: nat, v: nat)
    requires l > 0 && 0 < p <= n && l * (n - p) <= v < l * (n - p) + l
    requires o * (n * p) <= k * (n - p) < (o + 1) * (n * p)
    ensures o * (p * (l * p + v)) <= k * v
    ensures k * v * p < ((o + 1) * (p * p) + k) * (l * p + v)
  {
    var d := n - p;
    assert l * p > 0;
    UpScaled(k, l, p, n, d, o);
    UpBelow(k, p, l * p, l * d, v, o);
    UpShort(k, l, p, l * p, l * d, v, o + 1);
  }

  lemma Rescale(o: int, n: int, p: int, l: int)
    ensures o * (n * p) * l == o * (p * (l * n))
  {
    assert n * p * l == p * (l * n);
  }

  lemma UpBelow(k: nat, p: nat, b: nat, u: nat, v: nat, o: nat)
    requires p > 0 && b > 0 && u <= v
    requires o * (p * (b + u)) <= k * u
    ensures o * (p * (b + v)) <= k * v
  {
    assert o * (p * (b + u)) == o * p * b + o * p * u;
    assert o * (p * (b + v)) == o * p * b + o * p * v;
    if o * p > k {
      MulLe(k, o * p, u);
      MulLt(0, o * p, b);
      assert false;
    }
    MulLe(o * p, k, v - u);
    assert o * p * (v - u) == o * p * v - o * p * u;
    assert k * (v - u) == k * v - k * u;
  }

  lemma UpShort(k: nat, l: nat, p: nat, b: nat, u: nat, v: nat, e: nat)
    requires p > 0 && b == l * p && u <= v < u + l
    requires k * u < e * (p * (b + u))
    ensures k * v * p < (e * (p * p) + k) * (b + v)
  {
    var (s, w) := (e * (p * p), b + v);
    MulLt(k * u, e * (p * (b + u)), p);
    assert e * (p * (b + u)) * p == s * (b + u) by {
      Regroup4(e, p, b + u);
    }
    MulLe(b + u, w, s);
    MulLe(v - u, l, k * p);
    assert k * v * p == k * u * p + (v - u) * (k * p) by {
      SplitAt(k, u, v, p);
    }
    assert l * (k * p) == k * b by {
      Regroup3(l, k, p);
    }
    MulSign(k, v);
    Distribute(s, k, w);
    Distribute(b, v, k);
  }

  lemma Regroup3(l: int, k: int, p: int)
    ensures l * (k * p) == k * (l * p)
  {
  }

  lemma Regroup4(e: int, p: int, w: int)
    ensures e * (p * w) * p == e * (p * p) * w
  {
    assert p * w * p == p * p * w;
  }

  lemma SplitAt(k: int, u: int, v: int, p: int)
    ensures k * v * p == k * u * p + (v - u) * (k * p)
  {
    assert k * v == k * u + k * (v - u);
  }

  lemma Distribute(a: int, b: int, c: int)
    ensures (a + b) * c == a * c + b * c
  {
  }

  /** y*a / (x + a) with x = l*q/p and y = l*p/q, over one denominator. */
  lemma VirtualQuotient(l: real, p: real, q: real, a: real, x: real, y: real)
    requires l > 0.0 && p > 0.0 && q > 0.0 && a >= 0.0 && x > 0.0
    requires x == l * q / p && y == l * p / q
    ensures q * (l * q + a * p) > 0.0
    ensures ConstantProduct(x, y, a) * (q * (l * q + a * p)) == l * (a * p * p)
  {
    var e := ConstantProduct(x, y, a);
    assert a * p >= 0.0;
    assert l * q > 0.0;
    assert q * (l * q + a * p) > 0.0;
    assert e * (x + a) == y * a;
    assert x * p == l * q;
    assert y * q == l * p;
    calc {
      e * (q * (l * q + a * p));
      e * (x + a) * (q * p);
      y * a * (q * p);
      (y * q) * (a * p);
      l * (a * p * p);
    }
  }

  lemma RealMulLt(x: real, y: real, z: real)
    requires x < y && z > 0.0
    ensures x * z < y * z
  {
  }

  /** v * den == m with n * den <= m gives n <= v. */
  lemma QuotientAtLeast(v: real, n: real, den: real, m: real)
    requires den > 0.0 && v * den == m && n * den <= m
    ensures n <= v
  {
    if n > v {
      RealMulLt(v, n, den);
      assert false;
    }
  }

  lemma QuotientBelow(v: real, n: real, den: real, m: real)
    requires den > 0.0 && v * den == m && m < n * den
    ensures v < n
  {
    if n == v {
      assert false;
    } else if n < v {
      RealMulLt(n, v, den);
      assert false;
    }
  }

  lemma CastMul(x: int, y: int)
    ensures (x * y) as real == x as real * y as real
  {
  }

  /**
    Selling token0 inside one range never pays more than the exact constant product
    over the virtual reserves, and falls short of it by less than L/2^96 + 1.
   */
  lemma RangeDown(liquidity: nat, price: nat, amount: nat)
    requires liquidity > 0 && price > 0
    ensures var out := OutputTo(liquidity, price, NextPrice(liquidity, price, amount, true), true) as real;
      var exact := ConstantProduct(Virtual0(liquidity, price), Virtual1(liquidity, price), amount as real);
      out <= exact < out + 1.0 + liquidity as real / Q96 as real
  {
    var n := NextPrice(liquidity, price, amount, true);
    var o := OutputTo(liquidity, price, n, true);
    var k := liquidity * Q96;
    MulSign(amount, price);
    NextDown(liquidity, price, amount, k, k + amount * price);
    OutputDown(liquidity, price, n, o);
    OutputDown(liquidity, price, n, o + 1);
    DownBound(Q96, liquidity, price, amount, n, o, Virtual0(liquidity, price), Virtual1(liquidity, price));
  }

  /** The same for any scale `q` in place of 2^96. */
  lemma DownBound(q: nat, l: nat, p: nat, a: nat, n: nat, o: nat, x: real, y: real)
    requires q > 0 && l > 0 && p > 0 && x > 0.0 && l * q + a * p > 0
    requires x == (l * q) as real / p as real && y == (l * p) as real / q as real
    requires (n - 1) * (l * q + a * p) < l * q * p <= n * (l * q + a * p)
    requires o * q <= l * (p - n) < (o + 1) * q
    ensures o as real <= ConstantProduct(x, y, a as real) < o as real + 1.0 + l as real / q as real
  {
    DownAsReals(q, l, p, a, n, o);
    DownFinish(q, l, p, a, o, x, y);
  }

  lemma DownAsReals(q: nat, l: nat, p: nat, a: nat, n: nat, o: nat)
    requires l > 0 && l * q + a * p > 0
    requires (n - 1) * (l * q + a * p) < l * q * p <= n * (l * q + a * p)
    requires o * q <= l * (p - n) < (o + 1) * q
    ensures DownWithin(o as real, l as real, q as real, (l * q + a * p) as real, (l * (a * p * p)) as real)
  {
    DownAlgebra(q, l, p, a, n, o, l * q + a * p);
    DownCast(o, q, l * q + a * p, l, l * (a * p * p));
  }

  predicate DownWithin(o: real, l: real, q: real, den: real, m: real) {
    o * (q * den) <= m < (o + 1.0) * (q * den) + l * den
  }

  lemma DownFinish(q: nat, l: nat, p: nat, a: nat, o: nat, x: real, y: real)
    requires q > 0 && l > 0 && p > 0 && x > 0.0
    requires DownWithin(o as real, l as real, q as real, (l * q + a * p) as real, (l * (a * p * p)) as real)
    requires x == (l * q) as real / p as real && y == (l * p) as real / q as real
    ensures o as real <= ConstantProduct(x, y, a as real) < o as real + 1.0 + l as real / q as real
  {
    DownLinks(l, q, p, a);
    DownExact(l as real, p as real, a as real, q as real, o as real, x, y,
              (l * q + a * p) as real, (l * (a * p * p)) as real);
  }

  /** Products of integers, seen as reals. */
  lemma DownLinks(l: nat, q: nat, p: nat, a: nat)
    ensures (l * q) as real == l as real * q as real && (l * p) as real == l as real * p as real
    ensures (l * q + a * p) as real == l as real * q as real + a as real * p as real
    ensures (l * (a * p * p)) as real == l as real * (a as real * p as real * p as real)
  {
    CastMul(l, q);
    CastMul(l, p);
    CastMul(a, p);
    CastMul(a * p, p);
    CastMul(l, a * p * p);
  }

  lemma DownCast(o: nat, q: nat, den: nat, l: nat, m: nat)
    requires o * (q * den) <= m < (o + 1) * (q * den) + l * den
    ensures DownWithin(o as real, l as real, q as real, den as real, m as real)
  {
    CastMul(q, den);
    CastMul(o, q * den);
    CastMul(o + 1, q * den);
    CastMul(l, den);
  }

  lemma DownExact(l: real, p: real, a: real, q: real, o: real, x: real, y: real, den: real, m: real)
    requires l > 0.0 && p > 0.0 && a >= 0.0 && q > 0.0 && x > 0.0 && DownWithin(o, l, q, den, m)
    requires den == l * q + a * p && m == l * (a * p * p)
    requires x == l * q / p && y == l * p / q
    ensures o <= ConstantProduct(x, y, a) < o + 1.0 + l / q
  {
    assert q * den > 0.0 && ConstantProduct(x, y, a) * (q * den) == m by {
      VirtualQuotient(l, p, q, a, x, y);
    }
    DownSandwich(ConstantProduct(x, y, a), o, l, q, den, m);
  }

  lemma DownSandwich(exact: real, o: real, l: real, q: real, den: real, m: real)
    requires q > 0.0 && q * den > 0.0 && exact * (q * den) == m && DownWithin(o, l, q, den, m)
    ensures o <= exact < o + 1.0 + l / q
  {
    QuotientAtLeast(exact, o, q * den, m);
    var r := l / q;
    assert r * q == l;
    assert (o + 1.0 + r) * (q * den) == (o + 1.0) * (q * den) + r * q * den;
    QuotientBelow(exact, o + 1.0 + r, q * den, m);
  }

  /** The token1 direction: the shortfall is below L * 2^96 / P^2 + 1. */
  lemma RangeUp(liquidity: nat, price: nat, amount: nat)
    requires liquidity > 0 && price > 0
    ensures var out := OutputTo(liquidity, price, NextPrice(liquidity, price, amount, false), false) as real;
      var exact := ConstantProduct(Virtual1(liquidity, price), Virtual0(liquidity, price), amount as real);
      out <= exact < out + 1.0 + (liquidity * Q96) as real / (price * price) as real
  {
    var n := NextPrice(liquidity, price, amount, false);
    var o := OutputTo(liquidity, price, n, false);
    NextUp(liquidity, price, amount);
    OutputUp(liquidity, price, n, o);
    OutputUp(liquidity, price, n, o + 1);
    UpBoundAt(Q96, liquidity, price, amount, n, o, Virtual1(liquidity, price), Virtual0(liquidity, price));
  }

  /** The same for any scale `q` in place of 2^96. */
  lemma UpBoundAt(q: nat, l: nat, p: nat, a: nat, n: nat, o: nat, x: real, y: real)
    requires q > 0 && l > 0 && 0 < p <= n && x > 0.0
    requires x == (l * p) as real / q as real && y == (l * q) as real / p as real
    requires l * (n - p) <= a * q < l * (n - p + 1)
    requires o * (n * p) <= l * q * (n - p) < (o + 1) * (n * p)
    ensures (p * p) as real != 0.0
    ensures o as real <= ConstantProduct(x, y, a as real) < o as real + 1.0 + (l * q) as real / (p * p) as real
  {
    UpAsReals(q, l, p, a, n, o);
    UpFinish(q, l, p, a, o, x, y);
  }

  lemma UpAsReals(q: nat, l: nat, p: nat, a: nat, n: nat, o: nat)
    requires l > 0 && 0 < p <= n && l * (n - p) <= a * q < l * (n - p + 1)
    requires o * (n * p) <= l * q * (n - p) < (o + 1) * (n * p)
    ensures UpWithin(o as real, (l * q) as real, p as real, (l * p + a * q) as real, (l * q * (a * q)) as real)
  {
    assert a * q < l * (n - p) + l by {
      assert l * (n - p + 1) == l * (n - p) + l;
    }
    UpAlgebra(l * q, l, p, n, o, a * q);
    UpCast(o, p, l * p + a * q, l * q, l * q * (a * q));
  }

  predicate UpWithin(o: real, k: real, p: real, sum: real, m: real) {
    o * (p * sum) <= m && m * p < ((o + 1.0) * (p * p) + k) * sum
  }

  lemma UpFinish(q: nat, l: nat, p: nat, a: nat, o: nat, x: real, y: real)
    requires q > 0 && l > 0 && p > 0 && x > 0.0
    requires UpWithin(o as real, (l * q) as real, p as real, (l * p + a * q) as real, (l * q * (a * q)) as real)
    requires x == (l * p) as real / q as real && y == (l * q) as real / p as real
    ensures (p * p) as real != 0.0
    ensures o as real <= ConstantProduct(x, y, a as real) < o as real + 1.0 + (l * q) as real / (p * p) as real
  {
    UpLinks(l, q, p, a);
    UpExact(l as real, p as real, a as real, q as real, o as real, x, y,
            (l * q) as real, (l * p + a * q) as real, (l * q * (a * q)) as real);
  }

  lemma UpLinks(l: nat, q: nat, p: nat, a: nat)
    ensures (l * q) as real == l as real * q as real && (l * p) as real == l as real * p as real
    ensures (l * p + a * q) as real == l as real * p as real + a as real * q as real
    ensures (p * p) as real == p as real * p as real
    ensures (l * q * (a * q)) as real == l as real * (a as real * q as real * q as real)
  {
    CastMul(l, q);
    CastMul(l, p);
    CastMul(a, q);
    CastMul(p, p);
    CastMul(l * q, a * q);
    Regroup(l as real, q as real, a as real);
  }

  lemma Regroup(l: real, q: real, a: real)
    ensures l * q * (a * q) == l * (a * q * q)
  {
  }

  lemma UpCast(o: nat, p: nat, sum: nat, k: nat, m: nat)
    requires o * (p * sum) <= m && m * p < ((o + 1) * (p * p) + k) * sum
    ensures UpWithin(o as real, k as real, p as real, sum as real, m as real)
  {
    CastMul(p, sum);
    CastMul(o, p * sum);
    CastMul(m, p);
    CastMul(p, p);
    CastMul(o + 1, p * p);
    CastMul((o + 1) * (p * p) + k, sum);
  }

  lemma UpExact(l: real, p: real, a: real, q: real, o: real, x: real, y: real, k: real, sum: real, m: real)
    requires l > 0.0 && p > 0.0 && a >= 0.0 && q > 0.0 && x > 0.0 && UpWithin(o, k, p, sum, m)
    requires k == l * q && sum == l * p + a * q && m == l * (a * q * q)
    requires x == l * p / q && y == l * q / p
    ensures o <= ConstantProduct(x, y, a) < o + 1.0 + k / (p * p)
  {
    assert p * sum > 0.0 && ConstantProduct(x, y, a) * (p * sum) == m by {
      VirtualQuotient(l, q, p, a, x, y);
    }
    UpSandwich(ConstantProduct(x, y, a), o, k, p, sum, m);
  }

  lemma UpSandwich(exact: real, o: real, k: real, p: real, sum: real, m: real)
    requires p > 0.0 && p * sum > 0.0 && exact * (p * sum) == m && UpWithin(o, k, p, sum, m)
    ensures o <= exact < o + 1.0 + k / (p * p)
  {
    QuotientAtLeast(exact, o, p * sum, m);
    UpBound(o + 1.0, k, p, sum, m);
    QuotientBelow(exact, o + 1.0 + k / (p * p), p * sum, m);
  }

  lemma UpBound(e: real, k: real, p: real, sum: real, m: real)
    requires p > 0.0 && m * p < (e * (p * p) + k) * sum
    ensures m < (e + k / (p * p)) * (p * sum)
  {
    var r := k / (p * p);
    assert r * (p * p) == k;
    assert (e * (p * p) + k) * sum == (e + r) * (p * sum) * p;
    var right := (e + r) * (p * sum);
    if m > right {
      RealMulLt(right, m, p);
      assert false;
    }
  }
}
