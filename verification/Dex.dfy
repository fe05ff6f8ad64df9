/** Pools, tokens and protocol-neutral quotes (internal/dex/pool.go). */
module Dex {
  import opened Arith
  import opened Common
  import opened Text
  import opened Amm
  import S = SwapStep
  import V2 = SwapV2
  import V3 = SwapV3
  import R = Ranges

  datatype Token = Token(address: string, symbol: string, decimals: nat)

  datatype Protocol = UniswapV3 | SushiswapV2 | OtherProtocol(name: string)

  datatype Pool = Pool(
    address: string,
    protocol: Protocol,
    token0: Token,
    token1: Token,
    feeBps: nat,
    reserve0: Option<int>,
    reserve1: Option<int>,
    sqrtPrice: Option<int>,
    liquidity: Option<int>,
    tick: int,
    ticks: seq<V3.Tick>)

  // ----- addresses -----

  /** `normalize`: the key an address is indexed under. */
  function Normalize(address: string): string {
    ToLower(TrimSpace(address))
  }

  predicate AddrEqual(a: string, b: string) {
    EqualFold(TrimSpace(a), TrimSpace(b))
  }

  // ----- quotes -----

  /** `direction`: true sells token0. */
  function Direction(p: Pool, tokenIn: string): Result<bool> {
    if AddrEqual(tokenIn, p.token0.address) then Ok(true)
    else if AddrEqual(tokenIn, p.token1.address) then Ok(false)
    else Err(TokenNotInPool)
  }

  function V2Side(p: Pool, zeroForOne: bool): V2.V2Pool
    requires p.reserve0.Some? && p.reserve1.Some?
  {
    if zeroForOne then V2.V2Pool(p.reserve0.value, p.reserve1.value, p.feeBps)
    else V2.V2Pool(p.reserve1.value, p.reserve0.value, p.feeBps)
  }

  function V3Side(p: Pool): V3.V3Pool
    requires p.sqrtPrice.Some? && p.liquidity.Some?
  {
    V3.V3Pool(p.sqrtPrice.value, p.liquidity.value, p.tick, p.feeBps, p.ticks)
  }

  function QuoteSide(p: Pool, amountIn: int, zeroForOne: bool): Result<nat> {
    match p.protocol
    case SushiswapV2 =>
      if p.reserve0.None? || p.reserve1.None? then Err(PoolStateMissing)
      else V2.Quote(amountIn, V2Side(p, zeroForOne))
    case UniswapV3 =>
      if p.sqrtPrice.None? || p.liquidity.None? then Err(PoolStateMissing)
      else V3.Quote(amountIn, V3Side(p), zeroForOne)
    case OtherProtocol(_) => Err(UnknownProtocol)
  }

  /** `AmountOut`. */
  function Quote(p: Pool, amountIn: int, tokenIn: string): Result<nat> {
    match Direction(p, tokenIn)
    case Err(e) => Err(e)
    case Ok(zeroForOne) => QuoteSide(p, amountIn, zeroForOne)
  }

  /** Dispatch into the workspace; the result is the workspace's own `out` cell. */
  method AmountOutInto(sc: Scratch, p: Pool, amountIn: BigInt?, tokenIn: string) returns (r: Result<BigInt>)
    requires sc.Valid() && V3.CachesValid(p.ticks)
    modifies sc.cells
    ensures Delivers(r, sc, Quote(p, old(ValueOf(amountIn)), tokenIn))
  {
    var direction := Direction(p, tokenIn);
    if direction.Err? {
      return Err(direction.error);
    }
    match p.protocol
    case SushiswapV2 =>
      r := AmountOutV2(sc, p, amountIn, direction.value);
    case UniswapV3 =>
      r := AmountOutV3(sc, p, amountIn, direction.value);
    case OtherProtocol(_) =>
      return Err(UnknownProtocol);
  }

  method AmountOutV2(sc: Scratch, p: Pool, amountIn: BigInt?, zeroForOne: bool) returns (r: Result<BigInt>)
    requires sc.Valid() && p.protocol.SushiswapV2?
    modifies sc.cells
    ensures Delivers(r, sc, QuoteSide(p, old(ValueOf(amountIn)), zeroForOne))
  {
    if p.reserve0.None? || p.reserve1.None? {
      return Err(PoolStateMissing);
    }
    var reserve0 := new BigInt(p.reserve0.value);
    var reserve1 := new BigInt(p.reserve1.value);
    if zeroForOne {
      r := SwapV2Into(sc, amountIn, V2Ref(reserve0, reserve1, p.feeBps));
    } else {
      r := SwapV2Into(sc, amountIn, V2Ref(reserve1, reserve0, p.feeBps));
    }
  }

  method AmountOutV3(sc: Scratch, p: Pool, amountIn: BigInt?, zeroForOne: bool) returns (r: Result<BigInt>)
    requires sc.Valid() && p.protocol.UniswapV3? && V3.CachesValid(p.ticks)
    modifies sc.cells
    ensures Delivers(r, sc, QuoteSide(p, old(ValueOf(amountIn)), zeroForOne))
  {
    if p.sqrtPrice.None? || p.liquidity.None? {
      return Err(PoolStateMissing);
    }
    var sqrtPrice := new BigInt(p.sqrtPrice.value);
    var liquidity := new BigInt(p.liquidity.value);
    r := SwapV3Into(sc, amountIn, V3Ref(sqrtPrice, liquidity, p.tick, p.feeBps, p.ticks), zeroForOne);
  }

  /** `AmountOut`: a copy of the result, in a workspace of its own. */
  method AmountOut(p: Pool, amountIn: BigInt?, tokenIn: string) returns (r: Result<BigInt>)
    requires V3.CachesValid(p.ticks)
    ensures r.Ok? ==> fresh(r.value)
    ensures match Quote(p, ValueOf(amountIn), tokenIn)
      case Ok(value) => r.Ok? && r.value.v == value
      case Err(e) => r == Err(e)
  {
    var sc := new Scratch();
    r := AmountOutInto(sc, p, amountIn, tokenIn);
    if r.Ok? {
      var copy := new BigInt(r.value.v);
      r := Ok(copy);
    }
  }

  // ----- what a quote is, in the pool's own numbers -----

  /** The address names the pool's first token, whatever its case and surrounding blanks. */
  predicate SellsToken0(p: Pool, tokenIn: string) {
    Normalize(tokenIn) == Normalize(p.token0.address)
  }

  predicate InPool(p: Pool, tokenIn: string) {
    SellsToken0(p, tokenIn) || Normalize(tokenIn) == Normalize(p.token1.address)
  }

  /** A V2 quote succeeds exactly on loaded, positive reserves, a fee below 100% and a positive amount. */
  lemma V2Quotable(p: Pool, amountIn: int, tokenIn: string)
    requires p.protocol.SushiswapV2? && InPool(p, tokenIn)
    ensures var q := Quote(p, amountIn, tokenIn);
      if p.reserve0.None? || p.reserve1.None? then q == Err(PoolStateMissing)
      else if amountIn <= 0 then q == Err(ZeroAmount)
      else if p.feeBps >= 10000 then q == Err(InvalidFee)
      else if p.reserve0.value <= 0 || p.reserve1.value <= 0 then q == Err(InsufficientLiquidity)
      else q.Ok?
  {
  }

  /**
    The output is the largest integer that keeps the reserve product, the pool's own
    fee taken off the input, from shrinking.
   */
  lemma V2QuoteLargest(p: Pool, amountIn: int, tokenIn: string, out: int)
    requires p.protocol.SushiswapV2? && Quote(p, amountIn, tokenIn).Ok?
    ensures p.reserve0.Some? && p.reserve1.Some? && p.feeBps < 10000
    ensures var (rin, rout) := if SellsToken0(p, tokenIn) then (p.reserve0.value, p.reserve1.value)
                               else (p.reserve1.value, p.reserve0.value);
      out <= Quote(p, amountIn, tokenIn).value <==>
        (10000 * rin + amountIn * (10000 - p.feeBps)) * (rout - out) >= 10000 * rin * rout
  {
    V2.OutputLargest(amountIn, V2Side(p, SellsToken0(p, tokenIn)), out);
  }

  /** What the concentrated-liquidity arithmetic sees of a loaded pool. */
  lemma V3QuoteIs(p: Pool, amountIn: int, tokenIn: string)
    requires p.protocol.UniswapV3? && InPool(p, tokenIn)
    ensures Quote(p, amountIn, tokenIn) ==
      if p.sqrtPrice.None? || p.liquidity.None? then Err(PoolStateMissing)
      else V3.Quote(amountIn, V3.V3Pool(p.sqrtPrice.value, p.liquidity.value, p.tick, p.feeBps, p.ticks),
                    SellsToken0(p, tokenIn))
  {
  }

  /** A V3 quote is the sum over the ranges ahead, at the pool's own fee, tick and ticks. */
  lemma V3QuoteByRanges(p: Pool, amountIn: int, tokenIn: string, rungs: seq<int>, rs: seq<R.Range>)
    requires p.protocol.UniswapV3? && InPool(p, tokenIn) && p.sqrtPrice.Some? && p.liquidity.Some?
    requires var (state, down) := (V3.V3Pool(p.sqrtPrice.value, p.liquidity.value, p.tick, p.feeBps, p.ticks),
                                   SellsToken0(p, tokenIn));
      && V3.Consistent(state) && V3.DistinctIndices(p.ticks) && R.Ladder(state, rungs, down)
      && R.Spans(state, rungs, rs, down) && R.FillsIn(amountIn, rs)
    ensures p.feeBps < 10000 && Quote(p, amountIn, tokenIn) == Ok(R.OutputIn(amountIn, p.feeBps, rs))
  {
    V3QuoteIs(p, amountIn, tokenIn);
    R.QuoteByRanges(amountIn, V3.V3Pool(p.sqrtPrice.value, p.liquidity.value, p.tick, p.feeBps, p.ticks), rungs, rs,
                    SellsToken0(p, tokenIn));
  }

  /** A token that is not in the pool, or a protocol the program does not know, is refused as such. */
  lemma QuoteRefuses(p: Pool, amountIn: int, tokenIn: string)
    ensures Quote(p, amountIn, tokenIn) == Err(TokenNotInPool) <==> !InPool(p, tokenIn)
    ensures Quote(p, amountIn, tokenIn) == Err(UnknownProtocol) <==> InPool(p, tokenIn) && p.protocol.OtherProtocol?
  {
  }

  // ----- what every quote satisfies -----

  /** Concentrated-liquidity state, when loaded, is consistent with its ticks. */
  predicate Sound(p: Pool) {
    p.protocol.UniswapV3? && p.sqrtPrice.Some? && p.liquidity.Some? && p.sqrtPrice.value > 0 ==>
      V3.Consistent(V3Side(p))
  }

  lemma QuotePositiveInput(p: Pool, amountIn: int, tokenIn: string)
    requires Quote(p, amountIn, tokenIn).Ok?
    ensures amountIn > 0
  {
  }

  /** A smaller positive input is quotable whenever a larger one is, and never for more. */
  lemma QuoteMonotone(p: Pool, x: int, y: int, tokenIn: string)
    requires Sound(p) && 0 < x <= y && Quote(p, y, tokenIn).Ok?
    ensures Quote(p, x, tokenIn).Ok? && Quote(p, x, tokenIn).value <= Quote(p, y, tokenIn).value
  {
    var zeroForOne := Direction(p, tokenIn).value;
    if p.protocol.SushiswapV2? {
      V2.OutputMonotone(x, y, V2Side(p, zeroForOne));
    } else {
      V3.QuoteMonotone(x, y, V3Side(p), zeroForOne);
    }
  }

  /** A constant-product pool that quotes some amount quotes every positive amount. */
  lemma QuoteTotalV2(p: Pool, x: int, y: int, tokenIn: string)
    requires p.protocol.SushiswapV2? && Quote(p, x, tokenIn).Ok? && y > 0
    ensures Quote(p, y, tokenIn).Ok?
  {
  }

  /**
    `price0` and `price1` value the two tokens at the pool's marginal rate: equal
    reserve values for V2, SqrtPriceX96 squared over 2^192 for V3.
   */
  predicate PricedAt(p: Pool, price0: int, price1: int) {
    && price0 > 0 && price1 > 0
    && (p.protocol.SushiswapV2? && p.reserve0.Some? && p.reserve1.Some? ==>
          p.reserve0.value * price0 == p.reserve1.value * price1)
    && (p.protocol.UniswapV3? && p.sqrtPrice.Some? ==>
          price0 * S.Q192 == price1 * (p.sqrtPrice.value * p.sqrtPrice.value))
  }

  /** At its own marginal price no pool pays out more value than it takes in. */
  lemma QuoteLosesValue(p: Pool, amountIn: int, tokenIn: string, price0: int, price1: int)
    requires Sound(p) && PricedAt(p, price0, price1) && Quote(p, amountIn, tokenIn).Ok?
    ensures var out := Quote(p, amountIn, tokenIn).value;
      if Direction(p, tokenIn).value then out * price1 <= amountIn * price0
      else out * price0 <= amountIn * price1
  {
    var zeroForOne := Direction(p, tokenIn).value;
    if p.protocol.SushiswapV2? {
      V2LosesValue(V2Side(p, zeroForOne), amountIn, if zeroForOne then price0 else price1,
                   if zeroForOne then price1 else price0);
    } else {
      V3LosesValue(V3Side(p), amountIn, zeroForOne, price0, price1);
    }
  }

  lemma V2LosesValue(side: V2.V2Pool, amountIn: int, priceIn: int, priceOut: int)
    requires V2.Quote(amountIn, side).Ok? && priceIn > 0 && priceOut > 0
    requires side.reserveIn * priceIn == side.reserveOut * priceOut
    ensures V2.Quote(amountIn, side).value * priceOut <= amountIn * priceIn
  {
    V2.OutputWithinSpot(amountIn, side);
    RateToValue(side.reserveIn, side.reserveOut, amountIn, V2.Output(amountIn, side), priceIn, priceOut);
  }

  lemma V3LosesValue(side: V3.V3Pool, amountIn: int, zeroForOne: bool, price0: int, price1: int)
    requires V3.Consistent(side) && V3.Quote(amountIn, side, zeroForOne).Ok? && price0 > 0 && price1 > 0
    requires price0 * S.Q192 == price1 * (side.sqrtPrice * side.sqrtPrice)
    ensures var out := V3.Quote(amountIn, side, zeroForOne).value;
      if zeroForOne then out * price1 <= amountIn * price0 else out * price0 <= amountIn * price1
  {
    V3.QuoteWithinSpot(amountIn, side, zeroForOne);
    SpotToValue(amountIn, V3.Quote(amountIn, side, zeroForOne).value, side.sqrtPrice, zeroForOne, price0, price1);
  }

  lemma SpotToValue(amountIn: int, out: int, price: int, zeroForOne: bool, price0: int, price1: int)
    requires price > 0 && S.WithinSpot(amountIn, out, price, zeroForOne) && price0 > 0 && price1 > 0
    requires price0 * S.Q192 == price1 * (price * price)
    ensures if zeroForOne then out * price1 <= amountIn * price0 else out * price0 <= amountIn * price1
  {
    var square := price * price;
    MulLt(0, price, price);
    if zeroForOne {
      RateToValue(S.Q192, square, amountIn, out, price0, price1);
    } else {
      RateToValue(square, S.Q192, amountIn, out, price1, price0);
    }
  }

  /** out / in <= a / b and a / b equal to the price ratio bound the value paid. */
  lemma RateToValue(b: int, a: int, amountIn: int, out: int, priceIn: int, priceOut: int)
    requires b > 0 && a > 0 && priceIn > 0 && priceOut > 0
    requires b * priceIn == a * priceOut && out * b <= amountIn * a
    ensures out * priceOut <= amountIn * priceIn
  {
    MulLe(out * b, amountIn * a, priceOut);
    assert out * b * priceOut == out * priceOut * b;
    assert amountIn * a * priceOut == amountIn * (a * priceOut) == amountIn * priceIn * b;
    CancelLe(out * priceOut, amountIn * priceIn, b);
  }

  /** Any loaded pool has a price vector of its own, so a there-and-back trip never profits. */
  lemma ThereAndBack(p: Pool, amountIn: int, tokenIn: string, tokenBack: string)
    requires Sound(p) && Quote(p, amountIn, tokenIn).Ok?
    requires Quote(p, Quote(p, amountIn, tokenIn).value, tokenBack).Ok?
    requires Direction(p, tokenBack) == Ok(!Direction(p, tokenIn).value)
    ensures Quote(p, Quote(p, amountIn, tokenIn).value, tokenBack).value <= amountIn
  {
    var mid := Quote(p, amountIn, tokenIn).value;
    var back := Quote(p, mid, tokenBack).value;
    if p.protocol.SushiswapV2? {
      var (price0, price1) := (p.reserve1.value, p.reserve0.value);
      QuoteLosesValue(p, amountIn, tokenIn, price0, price1);
      QuoteLosesValue(p, mid, tokenBack, price0, price1);
      CancelLe(back, amountIn, if Direction(p, tokenIn).value then price0 else price1);
    } else {
      var square := p.sqrtPrice.value * p.sqrtPrice.value;
      MulSign(p.sqrtPrice.value, p.sqrtPrice.value);
      QuoteLosesValue(p, amountIn, tokenIn, square, S.Q192);
      QuoteLosesValue(p, mid, tokenBack, square, S.Q192);
      CancelLe(back, amountIn, if Direction(p, tokenIn).value then square else S.Q192);
    }
  }
}
