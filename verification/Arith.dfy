/** Exact integer division, as the swap arithmetic uses it. */
module Arith {

  function Power2(n: nat): (p: nat)
    ensures p > 0
  {
    if n == 0 then 1 else 2 * Power2(n - 1)
  }

  /** Ceiling division: quotient, plus one when a remainder is left. */
  function CeilDiv(a: nat, b: nat): (q: nat)
    requires b > 0
  {
    if a % b == 0 then a / b else a / b + 1
  }

  /** `mulDivInto`: a * b / d, truncating. */
  function MulDiv(a: nat, b: nat, d: nat): nat
    requires d > 0
  {
    a * b / d
  }

  /** `mulDivRoundingUpInto`: a * b / d, rounding up. */
  function MulDivUp(a: nat, b: nat, d: nat): nat
    requires d > 0
  {
    CeilDiv(a * b, d)
  }

  lemma DivMod(a: nat, b: nat)
    requires b > 0
    ensures a == (a / b) * b + a % b
    ensures 0 <= a % b < b
    ensures a / b >= 0
  {
  }

  /** The quotient is the only `q` with `q * b <= a < (q + 1) * b`. */
  lemma FloorUnique(a: nat, b: nat, q: int)
    requires b > 0
    requires q * b <= a < (q + 1) * b
    ensures a / b == q
  {
    DivMod(a, b);
    var d := a / b;
    if d < q {
      MulLe(d + 1, q, b);
    } else if d > q {
      MulLe(q + 1, d, b);
    }
  }

  lemma FloorBounds(a: nat, b: nat)
    requires b > 0
    ensures (a / b) * b <= a < (a / b + 1) * b
  {
    DivMod(a, b);
  }

  /** `q` is at most the quotient exactly when `q * b` still fits in `a`. */
  lemma FloorGe(a: nat, b: nat, q: int)
    requires b > 0
    ensures q <= a / b <==> q * b <= a
  {
    FloorBounds(a, b);
    if q <= a / b {
      MulLe(q, a / b, b);
    } else {
      MulLe(a / b + 1, q, b);
    }
  }

  lemma CeilBounds(a: nat, b: nat)
    requires b > 0
    ensures (CeilDiv(a, b) - 1) * b < a <= CeilDiv(a, b) * b
  {
    DivMod(a, b);
  }

  /** `q` is at least the ceiling exactly when `q * b` covers `a`. */
  lemma CeilLe(a: nat, b: nat, q: int)
    requires b > 0
    ensures CeilDiv(a, b) <= q <==> a <= q * b
  {
    CeilBounds(a, b);
    if CeilDiv(a, b) <= q {
      MulLe(CeilDiv(a, b), q, b);
    } else {
      MulLe(q, CeilDiv(a, b) - 1, b);
    }
  }

  lemma MulLe(x: int, y: int, z: int)
    requires x <= y && z >= 0
    ensures x * z <= y * z
  {
  }

  lemma MulSign(x: int, y: int)
    requires x >= 0 && y >= 0
    ensures x * y >= 0
    ensures x > 0 && y > 0 ==> x * y > 0
  {
  }

  lemma MulLt(x: int, y: int, z: int)
    requires x < y && z > 0
    ensures x * z < y * z
  {
  }

  lemma MulLe2(a: int, b: int, c: int, d: int)
    requires 0 <= a <= b && 0 <= c <= d
    ensures a * c <= b * d
  {
    MulLe(a, b, c);
    MulLe(c, d, b);
  }

  /** A common positive factor may be cancelled. */
  lemma CancelLe(x: int, y: int, z: int)
    requires z > 0 && x * z <= y * z
    ensures x <= y
  {
    if x > y {
      MulLt(y, x, z);
    }
  }

  lemma FloorMono(a: nat, a': nat, b: nat)
    requires b > 0 && a <= a'
    ensures a / b <= a' / b
  {
    FloorBounds(a, b);
    FloorGe(a', b, a / b);
  }

  /** Dividing twice is dividing once by the product. */
  lemma FloorTwice(a: nat, b: nat, c: nat)
    requires b > 0 && c > 0
    ensures b * c > 0
    ensures (a / b) / c == a / (b * c)
  {
    var q := (a / b) / c;
    FloorBounds(a, b);
    FloorBounds(a / b, c);
    assert b * c > 0;
    MulLe(q * c, a / b, b);
    MulLe(a / b + 1, (q + 1) * c, b);
    assert q * (b * c) == q * c * b;
    assert (q + 1) * (b * c) == (q + 1) * c * b;
    FloorUnique(a, b * c, q);
  }

  /** `q` is within the double quotient exactly when `q * b * c` fits in `a`. */
  lemma FloorTwiceGe(a: nat, b: nat, c: nat, q: nat)
    requires b > 0 && c > 0
    ensures q <= a / b / c <==> q * (b * c) <= a
  {
    FloorGe(a / b, c, q);
    FloorGe(a, b, q * c);
    assert q * (b * c) == q * c * b;
  }

  /** `q` covers the double ceiling exactly when `q * b * c` covers `a`. */
  lemma CeilTwiceLe(a: nat, b: nat, c: nat, q: nat)
    requires b > 0 && c > 0
    ensures CeilDiv(CeilDiv(a, b), c) <= q <==> a <= q * (b * c)
  {
    CeilLe(CeilDiv(a, b), c, q);
    CeilLe(a, b, q * c);
    assert q * (b * c) == q * c * b;
  }
}
