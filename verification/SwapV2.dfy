/** The constant-product quote of internal/amm/v2.go and what it guarantees. */
module SwapV2 {
  import opened Arith
  import opened Common

  const BPS: nat := 10000

  datatype V2Pool = V2Pool(reserveIn: int, reserveOut: int, feeBps: nat)

  predicate Usable(p: V2Pool) {
    p.feeBps < BPS && p.reserveIn > 0 && p.reserveOut > 0
  }

  /** `SwapV2`. */
  function Quote(amountIn: int, p: V2Pool): Result<nat> {
    if amountIn <= 0 then Err(ZeroAmount)
    else if p.feeBps >= BPS then Err(InvalidFee)
    else if p.reserveIn <= 0 || p.reserveOut <= 0 then Err(InsufficientLiquidity)
    else Ok(Output(amountIn, p))
  }

  function Output(amountIn: nat, p: V2Pool): nat
    requires Usable(p)
  {
    MulSign(amountIn, BPS - p.feeBps);
    var inAfterFee: nat := amountIn * (BPS - p.feeBps);
    MulDiv(inAfterFee, p.reserveOut, p.reserveIn * BPS + inAfterFee)
  }

  /** Reserve product after taking `out`, scaled by 10000: the fee-adjusted constant product. */
  function ProductAfter(amountIn: nat, p: V2Pool, out: int): int
    requires Usable(p)
  {
    (BPS * p.reserveIn + amountIn * (BPS - p.feeBps)) * (p.reserveOut - out)
  }

  /** The output is the largest integer that keeps the product from shrinking. */
  lemma OutputLargest(amountIn: nat, p: V2Pool, out: int)
    requires Usable(p)
    ensures out <= Output(amountIn, p) <==> ProductAfter(amountIn, p, out) >= BPS * p.reserveIn * p.reserveOut
  {
    var a := amountIn * (BPS - p.feeBps);
    var d := p.reserveIn * BPS + a;
    assert a >= 0;
    FloorGe(a * p.reserveOut, d, out);
    assert ProductAfter(amountIn, p, out) == d * p.reserveOut - d * out;
    assert d * p.reserveOut == BPS * p.reserveIn * p.reserveOut + a * p.reserveOut;
  }

  /** No input drains the pool. */
  lemma OutputBelowReserve(amountIn: nat, p: V2Pool)
    requires Usable(p)
    ensures Output(amountIn, p) < p.reserveOut
  {
    OutputLargest(amountIn, p, p.reserveOut);
    assert ProductAfter(amountIn, p, p.reserveOut) == 0;
    assert BPS * p.reserveIn * p.reserveOut > 0;
  }

  lemma OutputMonotone(x: nat, y: nat, p: V2Pool)
    requires Usable(p) && x <= y
    ensures Output(x, p) <= Output(y, p)
  {
    var o := Output(x, p);
    OutputLargest(x, p, o);
    OutputLargest(y, p, o);
    OutputBelowReserve(x, p);
    MulLe(x, y, BPS - p.feeBps);
    MulLe(BPS * p.reserveIn + x * (BPS - p.feeBps), BPS * p.reserveIn + y * (BPS - p.feeBps), p.reserveOut - o);
  }

  lemma OutputBounds(amountIn: nat, p: V2Pool, a: nat)
    requires Usable(p) && a == amountIn * (BPS - p.feeBps)
    ensures var o := Output(amountIn, p);
      o * (p.reserveIn * BPS + a) <= a * p.reserveOut < (o + 1) * (p.reserveIn * BPS + a)
  {
    FloorBounds(a * p.reserveOut, p.reserveIn * BPS + a);
  }

  /** Splitting a trade gains at most the one unit truncation can cost. */
  lemma OutputSubadditive(x: nat, y: nat, p: V2Pool)
    requires Usable(p)
    ensures Output(x + y, p) <= Output(x, p) + Output(y, p) + 1
  {
    var c := BPS - p.feeBps;
    var (a, b) := (x * c, y * c);
    assert a >= 0 && b >= 0;
    assert (x + y) * c == a + b;
    OutputBounds(x, p, a);
    OutputBounds(y, p, b);
    OutputBounds(x + y, p, a + b);
    SubadditiveAlgebra(p.reserveIn * BPS, a, b, p.reserveOut, Output(x, p), Output(y, p), Output(x + y, p));
  }

  lemma SubadditiveAlgebra(d: nat, a: nat, b: nat, r: nat, u: nat, v: nat, o: nat)
    requires a * r < (u + 1) * (d + a)
    requires b * r < (v + 1) * (d + b)
    requires o * (d + (a + b)) <= (a + b) * r
    ensures o <= u + v + 1
  {
    assert (a + b) * r == a * r + b * r;
    MulLe(d + a, d + (a + b), u + 1);
    MulLe(d + b, d + (a + b), v + 1);
    assert (u + 1) * (d + (a + b)) + (v + 1) * (d + (a + b)) == (u + v + 2) * (d + (a + b));
    if o >= u + v + 2 {
      MulLe(u + v + 2, o, d + (a + b));
      assert false;
    }
  }

  /** The quote never beats the marginal rate reserveOut / reserveIn. */
  lemma OutputWithinSpot(amountIn: nat, p: V2Pool)
    requires Usable(p)
    ensures Output(amountIn, p) * p.reserveIn <= amountIn * p.reserveOut
  {
    var c := BPS - p.feeBps;
    var a := amountIn * c;
    var o := Output(amountIn, p);
    assert a >= 0;
    FloorBounds(a * p.reserveOut, p.reserveIn * BPS + a);
    assert o * (p.reserveIn * BPS + a) == o * (p.reserveIn * BPS) + o * a;
    assert o * a >= 0;
    assert amountIn * p.reserveOut >= 0;
    MulLe(c, BPS, amountIn * p.reserveOut);
    assert a * p.reserveOut == c * (amountIn * p.reserveOut);
    assert o * (p.reserveIn * BPS) == o * p.reserveIn * BPS;
    CancelLe(o * p.reserveIn, amountIn * p.reserveOut, BPS);
  }
}
