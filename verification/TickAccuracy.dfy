/**
  Tick i is price 1.0001^i: neighbouring ticks of internal/amm/tickmath.go differ
  in price by a factor of 1.0001 to within one part in 10^8, over the whole range.
 */
module TickAccuracy {
  import opened Arith
  import opened TickMath

  /** sqrt(1.0001) in units of 2^-64, from below and from above. */
  const ONE: nat := 0x1_0000_0000_0000_0000
  const ROOT_LO: nat := 0x1000346d6ff11672a
  const ROOT_HI: nat := 0x1000346d6ff11672b

  /** Clearing the bits below k and setting bit k divides by sqrt(1.0001). */
  lemma TableStep(k: nat)
    requires k < FACTORS
    ensures ONE * Low(k) <= ROOT_HI * Factor(k)
    ensures ROOT_LO * Factor(k) <= ONE * Low(k)
  {
  }

  // ----- a ratio survives the truncating factors -----

  lemma ScaleRatio(x: nat, y: nat, e: nat, k: nat, alpha: nat, beta: nat)
    requires k < FACTORS && alpha * x <= beta * (y + e)
    ensures alpha * Scale(x, k) <= beta * (Scale(y, k) + e + 1)
  {
    var f := Factor(k);
    FactorBelowOne(k);
    FloorBounds(x * f, Q128);
    FloorBounds(y * f, Q128);
    RatioAlgebra(x, y, e, f, Scale(x, k), Scale(y, k), alpha, beta);
  }

  lemma RatioAlgebra(x: nat, y: nat, e: nat, f: nat, u: nat, v: nat, alpha: nat, beta: nat)
    requires alpha * x <= beta * (y + e) && f <= Q128
    requires u * Q128 <= x * f && y * f < (v + 1) * Q128
    ensures alpha * u <= beta * (v + e + 1)
  {
    MulLe(u * Q128, x * f, alpha);
    assert u * Q128 * alpha == alpha * u * Q128;
    assert x * f * alpha == alpha * x * f;
    MulLe(alpha * x, beta * (y + e), f);
    MulLe(f, Q128, e);
    assert (y + e) * f == y * f + f * e;
    assert (v + e + 1) * Q128 == (v + 1) * Q128 + Q128 * e;
    MulLe((y + e) * f, (v + e + 1) * Q128, beta);
    assert beta * (y + e) * f == (y + e) * f * beta;
    assert (v + e + 1) * Q128 * beta == beta * (v + e + 1) * Q128;
    CancelLe(alpha * u, beta * (v + e + 1), Q128);
  }

  lemma MoreSlack(left: nat, beta: nat, right: nat)
    requires left <= beta * right
    ensures left <= beta * (right + 1)
  {
    MulLe(right, right + 1, beta);
  }

  lemma {:induction false} ApplyRatio(h: nat, k: nat, x: nat, y: nat, e: nat, alpha: nat, beta: nat)
    requires k <= FACTORS && alpha * x <= beta * (y + e)
    ensures alpha * Apply(h, k, x) <= beta * (Apply(h, k, y) + e + (FACTORS - k))
    decreases FACTORS - k
  {
    if k < FACTORS {
      var rest := FACTORS - (k + 1);
      if h % 2 == 1 {
        ScaleRatio(x, y, e, k, alpha, beta);
        ApplyRatio(h / 2, k + 1, Scale(x, k), Scale(y, k), e + 1, alpha, beta);
      } else {
        ApplyRatio(h / 2, k + 1, x, y, e, alpha, beta);
        MoreSlack(alpha * Apply(h / 2, k + 1, x), beta, Apply(h / 2, k + 1, y) + e + rest);
      }
    }
  }

  /** The two neighbouring Q128 ratios, before the reciprocal. */
  predicate Neighbours(r: nat, s: nat) {
    ONE * r <= ROOT_HI * (s + FACTORS) && ROOT_LO * s <= ONE * (r + FACTORS)
  }

  lemma StepStops(g: nat, k: nat)
    requires k < FACTORS
    ensures Neighbours(Apply(g, k + 1, Low(k)), Apply(g, k + 1, Scale(Q128, k)))
  {
    ScaleOne(k);
    TableStep(k);
    ApplyRatio(g, k + 1, Low(k), Factor(k), 0, ONE, ROOT_HI);
    ApplyRatio(g, k + 1, Factor(k), Low(k), 0, ROOT_LO, ONE);
    Slack(Apply(g, k + 1, Low(k)), Apply(g, k + 1, Factor(k)), FACTORS - (k + 1));
  }

  lemma Slack(r: nat, s: nat, n: nat)
    requires n <= FACTORS && ONE * r <= ROOT_HI * (s + n) && ROOT_LO * s <= ONE * (r + n)
    ensures Neighbours(r, s)
  {
  }

  /** The carry of `a + 1`, as for strict monotonicity. */
  lemma {:induction false} CarryRatio(h: nat, k: nat, low: nat)
    requires k < FACTORS && h + 1 < Room(k) && low == Low(k)
    ensures Neighbours(Apply(h, k, low), Apply(h + 1, k, Q128))
    decreases FACTORS - k
  {
    var g := h / 2;
    if h % 2 == 0 {
      StepStops(g, k);
      assert (h + 1) / 2 == g && (h + 1) % 2 == 1;
    } else {
      assert (h + 1) / 2 == g + 1 && (h + 1) % 2 == 0;
      RoomHalves(h, k);
      LowStep(k);
      CarryRatio(g, k + 1, Scale(low, k));
    }
  }

  lemma RatioNeighbours(a: nat)
    requires a < MAX_TICK
    ensures Neighbours(RatioX128(a), RatioX128(a + 1))
  {
    assert Room(15) == 32;
    assert Room(10) == 32 * Room(15);
    assert Room(5) == 32 * Room(10);
    assert Room(0) == 32 * Room(5);
    CarryRatio(a, 0, Low(0));
  }

  // ----- through the reciprocal -----

  const WIDE_LO: nat := ROOT_LO - 64
  const WIDE_HI: nat := ROOT_HI + 64

  /** `v` is about sqrt(1.0001) times `u`. */
  predicate RootApart(u: nat, v: nat) {
    ONE * v <= WIDE_HI * (u + FACTORS) && WIDE_LO * u <= ONE * (v + FACTORS)
  }

  lemma ReciprocalUpper(m: nat, r: nat, s: nat, u: nat, v: nat)
    requires ONE <= s && ONE * r <= ROOT_HI * (s + FACTORS)
    requires v * s <= m < (u + 1) * r
    ensures ONE * v <= WIDE_HI * (u + FACTORS)
  {
    MulLe(ONE * r, ROOT_HI * (s + FACTORS), u + 1);
    assert (u + 1) * r * ONE == ONE * r * (u + 1);
    assert ROOT_HI * (s + FACTORS) * (u + 1) == ROOT_HI * (u + 1) * s + ROOT_HI * FACTORS * (u + 1);
    MulLe(ROOT_HI * FACTORS, 64 * s, u + 1);
    assert 64 * s * (u + 1) == 64 * (u + 1) * s;
    assert ONE * v * s <= WIDE_HI * (u + 1) * s;
    CancelLe(ONE * v, WIDE_HI * (u + 1), s);
  }

  lemma ReciprocalLower(m: nat, r: nat, s: nat, u: nat, v: nat)
    requires ONE <= r && ROOT_LO * s <= ONE * (r + FACTORS)
    requires u * r <= m < (v + 1) * s
    requires FACTORS * (v + 1) <= 64 * u
    ensures WIDE_LO * u <= ONE * (v + FACTORS)
  {
    MulLe(ROOT_LO * s, ONE * (r + FACTORS), v + 1);
    assert (v + 1) * s * ROOT_LO == ROOT_LO * s * (v + 1);
    assert ONE * (r + FACTORS) * (v + 1) == ONE * (v + 1) * r + ONE * (FACTORS * (v + 1));
    MulLe2(ONE, r, FACTORS * (v + 1), 64 * u);
    assert r * (64 * u) == 64 * u * r;
    assert ROOT_LO * u * r == WIDE_LO * u * r + 64 * u * r;
    assert WIDE_LO * u * r <= ONE * (v + 1) * r;
    CancelLe(WIDE_LO * u, ONE * (v + 1), r);
  }

  lemma ReciprocalApart(r: nat, s: nat)
    requires ONE <= s <= Q128 && ONE <= r <= Q128 && Neighbours(r, s)
    ensures RootApart(UINT256_MAX / r, UINT256_MAX / s)
  {
    var (u, v) := (UINT256_MAX / r, UINT256_MAX / s);
    FloorBounds(UINT256_MAX, r);
    FloorBounds(UINT256_MAX, s);
    ReciprocalUpper(UINT256_MAX, r, s, u, v);
    MulLe(r, Q128, 100);
    FloorGe(UINT256_MAX, r, 100);
    assert v <= 2 * (u + FACTORS);
    ReciprocalLower(UINT256_MAX, r, s, u, v);
  }

  // ----- through the rounding to Q64.96 -----

  const NEAR_LO: nat := ONE + 0x2_0000_0000
  const NEAR_HI: nat := WIDE_HI + 0x4_0000_0000

  /** Rounding up to 96 fractional bits costs at most a unit in more than 2^32. */
  lemma RoundedApart(u: nat, v: nat, x: nat, y: nat)
    requires RootApart(u, v) && x == CeilDiv(u, Q32) && y == CeilDiv(v, Q32) && x >= Q32 && y >= Q32
    ensures ONE * y <= NEAR_HI * x && WIDE_LO * x <= NEAR_LO * y
  {
    CeilBounds(u, Q32);
    CeilBounds(v, Q32);
    assert ONE * (y - 1) <= WIDE_HI * (x + 1);
    assert WIDE_LO * (x - 1) <= ONE * (y + 1);
  }

  /** Squaring the bounds turns sqrt(1.0001) into 1.0001. */
  lemma SquaredApart(x: nat, y: nat)
    requires ONE * y <= NEAR_HI * x && WIDE_LO * x <= NEAR_LO * y
    ensures 1_000_000_000_000 * (y * y) <= 10001 * 100_000_001 * (x * x)
    ensures 10001 * 99_999_999 * (x * x) <= 1_000_000_000_000 * (y * y)
  {
    MulLe2(ONE * y, NEAR_HI * x, ONE * y, NEAR_HI * x);
    MulLe2(WIDE_LO * x, NEAR_LO * y, WIDE_LO * x, NEAR_LO * y);
    Square(ONE, y);
    Square(NEAR_HI, x);
    Square(WIDE_LO, x);
    Square(NEAR_LO, y);
    MulSign(x, x);
    MulSign(y, y);
  }

  lemma Square(a: nat, b: nat)
    ensures (a * b) * (a * b) == (a * a) * (b * b)
  {
  }

  /** Prices stay above 2^32, so ratios stay above 2^64. */
  lemma RatioLarge(a: nat)
    requires a <= MAX_TICK
    ensures ONE <= RatioX128(a) <= Q128
  {
    RatioBounds(a);
    SqrtRatioBounds(0 - a);
    CeilBounds(RatioX128(a), Q32);
  }

  lemma NegativeApart(a: nat)
    requires a < MAX_TICK
    ensures RootApart(RatioX128(a + 1), RatioX128(a))
  {
    RatioNeighbours(a);
  }

  lemma PositiveApart(a: nat)
    requires a < MAX_TICK
    ensures RatioX128(a) > 0 && RatioX128(a + 1) > 0
    ensures RootApart(UINT256_MAX / RatioX128(a), UINT256_MAX / RatioX128(a + 1))
  {
    RatioNeighbours(a);
    RatioLarge(a);
    RatioLarge(a + 1);
    ReciprocalApart(RatioX128(a), RatioX128(a + 1));
  }

  lemma PricesApart(t: int)
    requires MIN_TICK <= t < MAX_TICK
    ensures ONE * SqrtRatio(t + 1) <= NEAR_HI * SqrtRatio(t) && WIDE_LO * SqrtRatio(t) <= NEAR_LO * SqrtRatio(t + 1)
  {
    SqrtRatioBounds(t);
    SqrtRatioBounds(t + 1);
    if t < 0 {
      NegativeApart(-t - 1);
      RoundedApart(RatioX128(-t), RatioX128(-t - 1), SqrtRatio(t), SqrtRatio(t + 1));
    } else {
      PositiveApart(t);
      ReciprocalAtZero();
      RoundedApart(UINT256_MAX / RatioX128(t), UINT256_MAX / RatioX128(t + 1), SqrtRatio(t), SqrtRatio(t + 1));
    }
  }

  /** One tick up multiplies the price by 1.0001, to within one part in 10^8. */
  lemma TickStepsPrice(t: int)
    requires MIN_TICK <= t < MAX_TICK
    ensures var (p, q) := (SqrtRatio(t) * SqrtRatio(t), SqrtRatio(t + 1) * SqrtRatio(t + 1));
      10001 * 99_999_999 * p <= 1_000_000_000_000 * q <= 10001 * 100_000_001 * p
  {
    PricesApart(t);
    SquaredApart(SqrtRatio(t), SqrtRatio(t + 1));
  }
}
