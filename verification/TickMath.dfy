/**
  Tick index to sqrt price: the 20-factor fixed-point bit decomposition of
  internal/amm/tickmath.go, and the proof that it is strictly increasing over
  the whole tick range.
 */
module TickMath {
  import opened Arith
  import opened Common

  const MIN_TICK: int := -887272
  const MAX_TICK: int := 887272

  const Q32: nat := 0x1_0000_0000
  const Q96: nat := 0x1_0000_0000_0000_0000_0000_0000
  const Q128: nat := 0x1_0000_0000_0000_0000_0000_0000_0000_0000
  const UINT256_MAX: nat := 0xffff_ffff_ffff_ffff_ffff_ffff_ffff_ffff_ffff_ffff_ffff_ffff_ffff_ffff_ffff_ffff

  const MIN_SQRT_RATIO: nat := 4295128739
  const MAX_SQRT_RATIO: nat := 1461446703485210103287273052203988822378723970342

  const FACTORS: nat := 20

  predicate InRange(tick: int) {
    MIN_TICK <= tick <= MAX_TICK
  }

  /** The factor for bit `k` of |tick|: 1.0001^(-2^k / 2) in Q128. */
  function Factor(k: nat): nat
    requires k < FACTORS
  {
    match k
    case 0 => 0xfffcb933bd6fad37aa2d162d1a594001
    case 1 => 0xfff97272373d413259a46990580e213a
    case 2 => 0xfff2e50f5f656932ef12357cf3c7fdcc
    case 3 => 0xffe5caca7e10e4e61c3624eaa0941cd0
    case 4 => 0xffcb9843d60f6159c9db58835c926644
    case 5 => 0xff973b41fa98c081472e6896dfb254c0
    case 6 => 0xff2ea16466c96a3843ec78b326b52861
    case 7 => 0xfe5dee046a99a2a811c461f1969c3053
    case 8 => 0xfcbe86c7900a88aedcffc83b479aa3a4
    case 9 => 0xf987a7253ac413176f2b074cf7815e54
    case 10 => 0xf3392b0822b70005940c7a398e4b70f3
    case 11 => 0xe7159475a2c29b7443b29c7fa6e889d9
    case 12 => 0xd097f3bdfd2022b8845ad8f792aa5825
    case 13 => 0xa9f746462d870fdf8a65dc1f90e061e5
    case 14 => 0x70d869a156d2a1b890bb3df62baf32f7
    case 15 => 0x31be135f97d08fd981231505542fcfa6
    case 16 => 0x9aa508b5b7a84e1c677de54f3e99bc9
    case 17 => 0x5d6af8dedb81196699c329225ee604
    case 18 => 0x2216e584f5fa1ea926041bedfe98
    case _ => 0x48a170391f7dc42444e8fa2
  }

  /** One truncating fixed-point multiplication: `ratio.Mul` then `ratio.Rsh(128)`. */
  function Scale(x: nat, k: nat): nat
    requires k < FACTORS
  {
    x * Factor(k) / Q128
  }

  /** Applies the factors from bit `k` up, where the bits of `h` select them. */
  function Apply(h: nat, k: nat, x: nat): nat
    requires k <= FACTORS
    decreases FACTORS - k, h
  {
    if k == FACTORS then x else Apply(h / 2, k + 1, if h % 2 == 1 then Scale(x, k) else x)
  }

  /** 1.0001^(-abs/2) in Q128. */
  function RatioX128(abs: nat): nat {
    Apply(abs, 0, Q128)
  }

  /** sqrt(1.0001^tick) in Q64.96, for a tick inside the protocol bounds. */
  function SqrtRatio(tick: int): (r: nat)
    requires InRange(tick)
  {
    if tick > 0 then
      RatioBounds(tick);
      CeilDiv(UINT256_MAX / RatioX128(tick), Q32)
    else
      CeilDiv(RatioX128(-tick), Q32)
  }

  /** The reciprocal branch never divides by zero. */
  lemma RatioBounds(abs: nat)
    ensures Gap(FACTORS) <= RatioX128(abs) <= Q128
  {
    ApplyKeepsGap(abs, 0, Q128);
    ApplyShrinks(abs, 0, Q128);
  }

  // ----- the gap between neighbouring ticks -----

  /** All factors below bit `k`, multiplied up: the ratio of 2^k - 1. */
  function Low(k: nat): nat
    requires k < FACTORS
  {
    match k
    case 0 => 0x100000000000000000000000000000000
    case 1 => 0xfffcb933bd6fad37aa2d162d1a594001
    case 2 => 0xfff62bbb6d458ec3c792106391dc463e
    case 3 => 0xffe9114b9cf28d394c3203dbd44eb085
    case 4 => 0xffcede6f1d8be90b88f350424e84e5b7
    case 5 => 0xff9a80c1ada7480b1daa871d7c4d9b36
    case 6 => 0xff31e58d5a53c84fc142023ec1b1dfd7
    case 7 => 0xfe612f8183b1ea21b72fb71b03542ae4
    case 8 => 0xfcc1c2f380536bc67ee1ff564d1080b2
    case 9 => 0xf98ad8c8d7ecc0a3f8a42c9724cffb6a
    case 10 => 0xf33c480189b415235ad119427d89a1f6
    case 11 => 0xe71889a85903fd03cb7cc40bdf371a9c
    case 12 => 0xd09a9f3e93db5812d4820c2fc67a3e3a
    case 13 => 0xa9f973345b9e647c4163af91d00b255f
    case 14 => 0x70d9db6485f04ddd567e07c7b89f8e7c
    case 15 => 0x31beb65d91af63ae717a760be3b374dc
    case 16 => 0x9aa7036fd2355429c4030b032e1cf71
    case 17 => 0x5d6c2af97aaa8de0e5a6bf23f5e547
    case 18 => 0x221755388a6658e120f4a3c503cf
    case _ => 0x48a25e36942a4fc0c1f899f
  }

  /** A gap of `Gap(k)` before bit `k` is still at least 2^33 after every remaining factor. */
  function Gap(k: nat): nat
    requires k <= FACTORS
  {
    match k
    case 0 => 0x18d87661769be90c6bb305db44cf
    case 1 => 0x18d824f91024b8cf0bd3b1ed93d7
    case 2 => 0x18d7822b636909ad9eef2a5f2e47
    case 3 => 0x18d63c9c8a5cdaf0aaf0bbc943cd
    case 4 => 0x18d3b1b0d6f4b145fcaa46043d61
    case 5 => 0x18ce9ca1530325e8fd0652c0aca1
    case 6 => 0x18c475a117af9f004555f2c61b1c
    case 7 => 0x18b03415de343727dfe2a6d7f6e8
    case 8 => 0x1887e2a4dbde732d83193a76d56d
    case 9 => 0x183804debedb139c2b181eec79d0
    case 10 => 0x179b521749eefc194e6afc0b4ba8
    case 11 => 0x166db47939354a96e50947cfead7
    case 12 => 0x143ee1daeb4cd11d5181194ffe99
    case 13 => 0x107f1bdfce237001544a874fffb5
    case 14 => 0xaf3d891eb5526a5e4c6ee6aa56c
    case 15 => 0x4d3f1037cf9cbc00ae1aaa15675
    case 16 => 0xf026cc13e9360a44b3b8f2cba8
    case 17 => 0x911227f1313859fe263546a86
    case 18 => 0x34f0370f0993d5943d13587
    case 19 => 0x70ca36b1a8aea0282e
    case _ => 0x200000000
  }

  lemma FactorBelowOne(k: nat)
    requires k < FACTORS
    ensures 0 < Factor(k) < Q128
  {
  }

  lemma ScaleOne(k: nat)
    requires k < FACTORS
    ensures Scale(Q128, k) == Factor(k)
  {
    FloorUnique(Q128 * Factor(k), Q128, Factor(k));
  }

  lemma ScaleMono(x: nat, y: nat, k: nat)
    requires k < FACTORS && x <= y
    ensures Scale(x, k) <= Scale(y, k)
  {
    MulLe(x, y, Factor(k));
    FloorMono(x * Factor(k), y * Factor(k), Q128);
  }

  lemma ScaleShrinks(x: nat, k: nat)
    requires k < FACTORS
    ensures Scale(x, k) <= x
  {
    FactorBelowOne(k);
    MulLe(Factor(k), Q128, x);
    FloorMono(x * Factor(k), x * Q128, Q128);
    FloorUnique(x * Q128, Q128, x);
  }

  /** Truncation can only widen a gap: floor(u + v) >= floor(u) + floor(v). */
  lemma ScaleGap(x: nat, y: nat, d: nat, k: nat)
    requires k < FACTORS && x >= y + d
    ensures Scale(x, k) >= Scale(y, k) + Scale(d, k)
  {
    var f := Factor(k);
    MulLe(y + d, x, f);
    assert (y + d) * f == y * f + d * f;
    FloorBounds(y * f, Q128);
    FloorBounds(d * f, Q128);
    FloorGe(x * f, Q128, Scale(y, k) + Scale(d, k));
  }

  lemma {:induction false} ApplyGap(h: nat, k: nat, x: nat, y: nat, d: nat)
    requires k <= FACTORS && x >= y + d
    ensures Apply(h, k, x) >= Apply(h, k, y) + Apply(h, k, d)
    decreases FACTORS - k
  {
    if k < FACTORS {
      if h % 2 == 1 {
        ScaleGap(x, y, d, k);
        ApplyGap(h / 2, k + 1, Scale(x, k), Scale(y, k), Scale(d, k));
      } else {
        ApplyGap(h / 2, k + 1, x, y, d);
      }
    }
  }

  lemma {:induction false} ApplyShrinks(h: nat, k: nat, x: nat)
    requires k <= FACTORS
    ensures Apply(h, k, x) <= x
    decreases FACTORS - k
  {
    if k < FACTORS {
      ScaleShrinks(x, k);
      ApplyShrinks(h / 2, k + 1, if h % 2 == 1 then Scale(x, k) else x);
    }
  }

  lemma GapScaled(k: nat)
    requires k < FACTORS
    ensures Scale(Gap(k), k) >= Gap(k + 1)
  {
  }

  lemma LowStep(k: nat)
    requires k + 1 < FACTORS
    ensures Scale(Low(k), k) == Low(k + 1)
  {
  }

  lemma LowGap(k: nat)
    requires k < FACTORS
    ensures Low(k) >= Factor(k) + Gap(k + 1)
  {
  }

  lemma {:induction false} ApplyKeepsGap(h: nat, k: nat, d: nat)
    requires k <= FACTORS && d >= Gap(k)
    ensures Apply(h, k, d) >= Gap(FACTORS)
    decreases FACTORS - k
  {
    if k < FACTORS {
      GapScaled(k);
      ScaleMono(Gap(k), d, k);
      ScaleShrinks(Gap(k), k);
      ApplyKeepsGap(h / 2, k + 1, if h % 2 == 1 then Scale(d, k) else d);
    }
  }

  /** Bit `k` is the one that changes: the gap opens here and survives the factors above. */
  lemma CarryStops(g: nat, k: nat)
    requires k < FACTORS
    ensures Apply(g, k + 1, Low(k)) >= Apply(g, k + 1, Scale(Q128, k)) + Gap(FACTORS)
  {
    ScaleOne(k);
    LowGap(k);
    var d := Low(k) - Factor(k);
    ApplyGap(g, k + 1, Low(k), Factor(k), d);
    ApplyKeepsGap(g, k + 1, d);
  }

  /**
    Going from `a` to `a + 1` clears the low ones of `a` and sets the next bit.
    Below bit `k` every bit of `a` was one, so its partial product is `Low(k)`,
    and every bit of `a + 1` was zero, so its partial product is still 1.0.
   */
  lemma {:induction false} Carry(h: nat, k: nat, low: nat)
    requires k < FACTORS && h + 1 < Room(k)
    requires low == Low(k)
    ensures Apply(h, k, low) >= Apply(h + 1, k, Q128) + Gap(FACTORS)
    decreases FACTORS - k
  {
    var g := h / 2;
    if h % 2 == 0 {
      CarryStops(g, k);
      assert (h + 1) / 2 == g && (h + 1) % 2 == 1;
    } else {
      assert (h + 1) / 2 == g + 1 && (h + 1) % 2 == 0;
      RoomHalves(h, k);
      LowStep(k);
      Carry(g, k + 1, Scale(low, k));
    }
  }

  /** An odd `h` whose successor still fits leaves a half that fits one bit up. */
  lemma RoomHalves(h: nat, k: nat)
    requires k < FACTORS && h % 2 == 1 && h + 1 < Room(k)
    ensures k + 1 < FACTORS && h / 2 + 1 < Room(k + 1)
  {
  }

  /** How many values the bits from `k` up can take. */
  function Room(k: nat): nat
    requires k <= FACTORS
    decreases FACTORS - k
  {
    if k == FACTORS then 1 else 2 * Room(k + 1)
  }

  lemma RatioGap(a: nat)
    requires a < MAX_TICK
    ensures RatioX128(a) >= RatioX128(a + 1) + Gap(FACTORS)
  {
    assert Room(15) == 32;
    assert Room(10) == 32 * Room(15);
    assert Room(5) == 32 * Room(10);
    assert Room(0) == 32 * Room(5);
    Carry(a, 0, Low(0));
  }

  // ----- the Q64.96 price is strictly increasing -----

  lemma CeilStrict(x: nat, y: nat)
    requires x >= y + Q32
    ensures CeilDiv(x, Q32) > CeilDiv(y, Q32)
  {
    CeilBounds(x, Q32);
    CeilLe(y, Q32, CeilDiv(x, Q32) - 1);
  }

  /** The reciprocal turns a gap of 2^33 below 2^128 into one of at least 2^32. */
  lemma ReciprocalGap(r: nat, s: nat)
    requires 0 < s && s + 2 * Q32 <= r <= Q128
    ensures UINT256_MAX / s >= UINT256_MAX / r + Q32
  {
    var q := UINT256_MAX / r;
    FloorBounds(UINT256_MAX, r);
    assert q >= Q128 - 1 by {
      MulLe(r, Q128, Q128 - 1);
      FloorGe(UINT256_MAX, r, Q128 - 1);
    }
    MulLe(s, r - 2 * Q32, q + Q32);
    assert (q + Q32) * (r - 2 * Q32) == q * r + Q32 * r - 2 * Q32 * q - 2 * Q32 * Q32;
    FloorGe(UINT256_MAX, s, q + Q32);
  }

  /** Tick 0 may be read off either branch. */
  lemma ReciprocalAtZero()
    ensures RatioX128(0) == Q128
    ensures SqrtRatio(0) == Q96 == CeilDiv(UINT256_MAX / RatioX128(0), Q32)
  {
    ApplyZero(0, Q128);
    assert UINT256_MAX / Q128 == Q128 - 1;
  }

  lemma {:induction false} ApplyZero(k: nat, x: nat)
    requires k <= FACTORS
    ensures Apply(0, k, x) == x
    decreases FACTORS - k
  {
    if k < FACTORS {
      ApplyZero(k + 1, x);
    }
  }

  lemma NegativeStep(a: nat)
    requires a < MAX_TICK
    ensures CeilDiv(RatioX128(a), Q32) > CeilDiv(RatioX128(a + 1), Q32)
  {
    RatioGap(a);
    CeilStrict(RatioX128(a), RatioX128(a + 1));
  }

  lemma PositiveStep(a: nat)
    requires a < MAX_TICK
    ensures RatioX128(a) > 0 && RatioX128(a + 1) > 0
    ensures CeilDiv(UINT256_MAX / RatioX128(a), Q32) < CeilDiv(UINT256_MAX / RatioX128(a + 1), Q32)
  {
    RatioGap(a);
    RatioBounds(a);
    RatioBounds(a + 1);
    ReciprocalGap(RatioX128(a), RatioX128(a + 1));
    CeilStrict(UINT256_MAX / RatioX128(a + 1), UINT256_MAX / RatioX128(a));
  }

  lemma SqrtRatioStep(t: int)
    requires MIN_TICK <= t < MAX_TICK
    ensures SqrtRatio(t) < SqrtRatio(t + 1)
  {
    if t < 0 {
      NegativeStep(-t - 1);
    } else {
      PositiveStep(t);
      ReciprocalAtZero();
    }
  }

  /** Tick order and price order agree over the whole range. */
  lemma {:induction false} SqrtRatioMonotone(t: int, u: int)
    requires MIN_TICK <= t < u <= MAX_TICK
    ensures SqrtRatio(t) < SqrtRatio(u)
    decreases u - t
  {
    SqrtRatioStep(u - 1);
    if t < u - 1 {
      SqrtRatioMonotone(t, u - 1);
    }
  }

  /** The partial products of |MIN_TICK| = MAX_TICK = 0b11011000100111101000. */
  function ExtremePartial(k: nat): nat
    requires k <= FACTORS
  {
    match k
    case 0 => Q128
    case 1 => Q128
    case 2 => Q128
    case 3 => Q128
    case 4 => 0xffe5caca7e10e4e61c3624eaa0941cd0
    case 5 => 0xffe5caca7e10e4e61c3624eaa0941cd0
    case 6 => 0xff7d10c63a977157da4140deb6f31a7b
    case 7 => 0xfeac1d4052f7714818b490c1138ea058
    case 8 => 0xfd0c3654da9e033741d1a9f93707f6f6
    case 9 => 0xf9d459c5817dbafa9e376ae84dcfeb8b
    case 10 => 0xf9d459c5817dbafa9e376ae84dcfeb8b
    case 11 => 0xf9d459c5817dbafa9e376ae84dcfeb8b
    case 12 => 0xe183ac4e25d5949966242a64e9c80e2f
    case 13 => 0xe183ac4e25d5949966242a64e9c80e2f
    case 14 => 0xe183ac4e25d5949966242a64e9c80e2f
    case 15 => 0xe183ac4e25d5949966242a64e9c80e2f
    case 16 => 0x2bd1a4c5d2a1181aca1ef15e64c2e3cf
    case 17 => 0x1a785cbbdc050483e3be5812760be73
    case 18 => 0x1a785cbbdc050483e3be5812760be73
    case 19 => 0x3865a6455d07d2bc87c5956d2e
    case _ => 0x1000276a221a17501
  }

  function ExtremeBits(k: nat): nat
    requires k <= FACTORS
  {
    match k
    case 0 => 887272
    case 1 => 443636
    case 2 => 221818
    case 3 => 110909
    case 4 => 55454
    case 5 => 27727
    case 6 => 13863
    case 7 => 6931
    case 8 => 3465
    case 9 => 1732
    case 10 => 866
    case 11 => 433
    case 12 => 216
    case 13 => 108
    case 14 => 54
    case 15 => 27
    case 16 => 13
    case 17 => 6
    case 18 => 3
    case 19 => 1
    case _ => 0
  }

  lemma ExtremeStep(k: nat)
    requires k < FACTORS
    ensures ExtremeBits(k) / 2 == ExtremeBits(k + 1)
    ensures ExtremePartial(k + 1) ==
            if ExtremeBits(k) % 2 == 1 then Scale(ExtremePartial(k), k) else ExtremePartial(k)
  {
  }

  lemma {:induction false} ExtremeApply(h: nat, k: nat, x: nat)
    requires k <= FACTORS && h == ExtremeBits(k) && x == ExtremePartial(k)
    ensures Apply(h, k, x) == ExtremePartial(FACTORS)
    decreases FACTORS - k
  {
    if k < FACTORS {
      ExtremeStep(k);
      ExtremeApply(h / 2, k + 1, if h % 2 == 1 then Scale(x, k) else x);
    }
  }

  lemma ExtremeRatio(a: nat)
    requires a == MAX_TICK
    ensures RatioX128(a) == 0x1000276a221a17501
  {
    ExtremeApply(a, 0, Q128);
  }

  lemma Extremes(lo: int, hi: int)
    requires lo == MIN_TICK && hi == MAX_TICK
    ensures SqrtRatio(lo) == MIN_SQRT_RATIO
    ensures SqrtRatio(hi) == MAX_SQRT_RATIO
  {
    ExtremeRatio(hi);
  }

  /** The declared bounds are attained exactly at the ends of the range. */
  lemma SqrtRatioBounds(t: int)
    requires InRange(t)
    ensures MIN_SQRT_RATIO <= SqrtRatio(t) <= MAX_SQRT_RATIO
    ensures SqrtRatio(t) == MIN_SQRT_RATIO <==> t == MIN_TICK
    ensures SqrtRatio(t) == MAX_SQRT_RATIO <==> t == MAX_TICK
  {
    Extremes(MIN_TICK, MAX_TICK);
    if MIN_TICK < t {
      SqrtRatioMonotone(MIN_TICK, t);
    }
    if t < MAX_TICK {
      SqrtRatioMonotone(t, MAX_TICK);
    }
  }

  // ----- the loop -----

  /** Whether bit `k` of `a` is set. */
  predicate BitSet(a: nat, k: nat) {
    a / Power2(k) % 2 != 0
  }

  /** `a` halved `k` times. */
  function Halved(a: nat, k: nat): nat {
    if k == 0 then a else Halved(a, k - 1) / 2
  }

  lemma {:induction false} HalvedIsQuotient(a: nat, k: nat)
    ensures Halved(a, k) == a / Power2(k)
  {
    if k > 0 {
      HalvedIsQuotient(a, k - 1);
      FloorTwice(a, Power2(k - 1), 2);
    }
  }

  /** The bit the loop tests is the parity of |tick| halved so far. */
  lemma BitIsParity(a: nat, k: nat)
    ensures BitSet(a, k) <==> Halved(a, k) % 2 == 1
  {
    HalvedIsQuotient(a, k);
  }

  lemma ApplyTurn(h: nat, k: nat, x: nat)
    requires k < FACTORS
    ensures Apply(h, k, x) == Apply(h / 2, k + 1, if h % 2 == 1 then Scale(x, k) else x)
  {
  }

  method MultiplyFactor(ratio: nat, k: nat) returns (r: nat)
    requires k < FACTORS
    ensures r == Scale(ratio, k)
  {
    MulSign(ratio, Factor(k));
    r := ratio * Factor(k);
    r := r / Q128;
  }

  /** The factor loop: starting from the bit-0 factor is applying it to 1.0. */
  method MultiplyFactors(absTick: nat) returns (ratio: nat)
    ensures ratio == RatioX128(absTick)
  {
    ratio := Q128;
    if absTick % 2 != 0 {
      ratio := Factor(0);
    }
    ghost var goal := RatioX128(absTick);
    ScaleOne(0);
    ApplyTurn(absTick, 0, Q128);
    for k := 1 to FACTORS
      invariant Apply(Halved(absTick, k), k, ratio) == goal
    {
      ApplyTurn(Halved(absTick, k), k, ratio);
      BitIsParity(absTick, k);
      if BitSet(absTick, k) {
        ratio := MultiplyFactor(ratio, k);
      }
    }
  }

  method GetSqrtRatioAtTick(tick: int) returns (r: Result<nat>)
    ensures r.Ok? <==> InRange(tick)
    ensures r.Ok? <==> -887272 <= tick <= 887272
    ensures r.Err? ==> r.error == TickOutOfRange
    ensures r.Ok? ==> r.value == SqrtRatio(tick)
    ensures r.Ok? ==> MIN_SQRT_RATIO <= r.value <= MAX_SQRT_RATIO
  {
    if tick < MIN_TICK || tick > MAX_TICK {
      return Err(TickOutOfRange);
    }
    var absTick := tick;
    if absTick < 0 {
      absTick := -absTick;
    }
    var ratio := MultiplyFactors(absTick);
    RatioBounds(absTick);
    if tick > 0 {
      ratio := UINT256_MAX / ratio;
    }
    var remainder := ratio % Q32;
    var result := ratio / Q32;
    if remainder != 0 {
      result := result + 1;
    }
    SqrtRatioBounds(tick);
    return Ok(result);
  }
}
