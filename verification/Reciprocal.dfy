/** The reciprocals behind intx's 2-by-1 and 3-by-2 word divisions (Algorithms 2 and 3 of
    Moeller and Granlund, "Improved division by invariant integers"). */
module Reciprocal {
  import opened Arithmetic
  import opened Words

  /** The entries of the 256-item lookup table. */
  function TableItem(d9: int): (v0: Word)
    requires 0 <= d9 < 256
  {
    TableItemFits(d9);
    523520 / (256 + d9)
  }

  lemma TableItemFits(d9: int)
    requires 0 <= d9 < 256
    ensures 0 <= 523520 / (256 + d9) <= 523520
  {
    var q := 523520 / (256 + d9);
    assert 523520 == q * (256 + d9) + 523520 % (256 + d9);
    if q < 0 { MulMono(q, -1, 256 + d9); }
    if q > 523520 { MulMono(1, 256 + d9, q); }
  }

  /** The three Newton steps and the final correction, in wrapping 64-bit arithmetic. */
  function Seed(d: Word): Word { TableItem(d / 0x80_0000_0000_0000 % 256) }

  function High40(d: Word): Word { d / 0x100_0000 + 1 }

  function Step1(v0: Word, d40: Word): Word
  {
    Sub(Sub(Wrap(v0 * 0x800), Mul(Mul(v0, v0), d40) / 0x100_0000_0000), 1)
  }

  function Step2(v1: Word, d40: Word): Word
  {
    Add(Wrap(v1 * 0x2000), Mul(v1, Sub(0x1000_0000_0000_0000, Mul(v1, d40))) / 0x8000_0000_0000)
  }

  function Step3(v2: Word, d: Word): Word
  {
    var d0 := d % 2;
    var d63 := d / 2 + d0;
    var e := Sub(if d0 == 1 then v2 / 2 else 0, Mul(v2, d63));
    Add(Wrap(v2 * 0x8000_0000), Umul(v2, e).hi / 2)
  }

  function Step4(v3: Word, d: Word): Word
  {
    var m := Add128(Umul(v3, d), U128(0, d));
    Sub(v3, Add(m.hi, d))
  }

  function Reciprocal2by1(d: Word): Word
  {
    Step4(Step3(Step2(Step1(Seed(d), High40(d)), High40(d)), d), d)
  }

  // ---- error bounds -------------------------------------------------------------------------

  const E0_LOW: int := -1277 * 0x8000_0000
  const E0_HIGH: int := 1279 * 0x8000_0000

  lemma SeedError(d: Word)
    requires d >= 0x8000_0000_0000_0000
    ensures 1023 <= Seed(d) <= 2045
    ensures 0x80_0000_0000 < High40(d) <= 0x100_0000_0000
    ensures E0_LOW <= 0x4_0000_0000_0000 - Seed(d) * High40(d) <= E0_HIGH
  {
    var d9 := d / 0x80_0000_0000_0000;
    assert 256 <= d9 < 512 && d9 % 256 == d9 - 256;
    var v0, d40 := Seed(d), High40(d);
    assert v0 == 523520 / d9;
    TableBounds(d9, v0);
    var t := d40 - 0x8000_0000 * d9;
    assert 1 <= t <= 0x8000_0000;
    assert v0 * d40 == 0x8000_0000 * (v0 * d9) + v0 * t by { Distribute(v0, d9, t); }
    MulMono(1, t, v0);
    MulMono(t, 0x8000_0000, v0);
  }

  lemma Distribute(v: int, d9: int, t: int)
    ensures v * (0x8000_0000 * d9 + t) == 0x8000_0000 * (v * d9) + v * t
  {
  }

  lemma TableBounds(d9: int, v0: int)
    requires 256 <= d9 < 512
    requires v0 == 523520 / d9
    ensures 1023 <= v0 <= 2045
    ensures 523520 - d9 < v0 * d9 <= 523520
  {
    if v0 >= 2046 { MulMono(2046, v0, d9); }
    if v0 <= 1022 { MulMono(v0, 1022, d9); }
  }

  const E1_HIGH: int := 1635841 * 0x40_0000 + 0x100_0000_0000

  /** v1 is 2^60 / d40 up to a positive error: 2^40 * e1 = e0^2 + (2^40 - b) * d40. */
  lemma Step1Error(v0: Word, d40: Word)
    requires 1023 <= v0 <= 2045
    requires 0x80_0000_0000 < d40 <= 0x100_0000_0000
    requires E0_LOW <= 0x4_0000_0000_0000 - v0 * d40 <= E0_HIGH
    ensures 0xF_FFF0 <= Step1(v0, d40) < 0x20_0000
    ensures 0 < 0x1000_0000_0000_0000 - Step1(v0, d40) * d40 <= E1_HIGH
  {
    var p := v0 * d40;
    var x := v0 * p;
    ProductBounds(v0, p);
    var a, b := x / 0x100_0000_0000, x % 0x100_0000_0000;
    Step1Value(v0, d40, x, a);
    Step1Identity(v0, d40, p, x, a, b, v0 * 0x800 - a - 1);
    Step1Bound(d40, p, b, 0x1000_0000_0000_0000 - (v0 * 0x800 - a - 1) * d40);
    QuotientRange(v0 * 0x800 - a - 1, d40, 0x1000_0000_0000_0000 - (v0 * 0x800 - a - 1) * d40);
  }

  /** None of the operations of the first step wraps. */
  lemma Step1Value(v0: Word, d40: Word, x: int, a: int)
    requires 1023 <= v0 <= 2045 && x == v0 * (v0 * d40) && a == x / 0x100_0000_0000
    requires 0 <= x < 0x4000_0000_0000_0000 && x <= v0 * 0x4_0300_0000_0000
    ensures Step1(v0, d40) == v0 * 0x800 - a - 1
  {
    MulMono(v0, 2045, v0);
    MulMono(0, v0, v0);
    Assoc(v0, v0, d40);
    assert Mul(Mul(v0, v0), d40) == x;
    assert a < v0 * 0x800;
  }

  lemma Step1Bound(d40: int, p: int, b: int, e1: int)
    requires 0x80_0000_0000 < d40 <= 0x100_0000_0000 && 0 <= b < 0x100_0000_0000
    requires E0_LOW <= 0x4_0000_0000_0000 - p <= E0_HIGH
    requires 0x100_0000_0000 * e1 ==
             (0x4_0000_0000_0000 - p) * (0x4_0000_0000_0000 - p) + (0x100_0000_0000 - b) * d40
    ensures 0 < e1 <= E1_HIGH
  {
    SquareBound(0x4_0000_0000_0000 - p, E0_HIGH);
    MulMono(1, 0x100_0000_0000 - b, d40);
    MulMono(0x100_0000_0000 - b, 0x100_0000_0000, d40);
  }

  lemma ProductBounds(v0: int, p: int)
    requires 1023 <= v0 <= 2045
    requires E0_LOW <= 0x4_0000_0000_0000 - p <= E0_HIGH
    ensures 0 <= v0 * p < 0x4000_0000_0000_0000
    ensures v0 * p <= v0 * 0x4_0300_0000_0000
  {
    MulMono(p, 0x4_0300_0000_0000, v0);
    MulMono(0, p, v0);
  }

  lemma Step1Identity(v0: int, d40: int, p: int, x: int, a: int, b: int, v1: int)
    requires p == v0 * d40 && x == v0 * p && x == 0x100_0000_0000 * a + b
    requires v1 == v0 * 0x800 - a - 1
    ensures 0x100_0000_0000 * (0x1000_0000_0000_0000 - v1 * d40) ==
            (0x4_0000_0000_0000 - p) * (0x4_0000_0000_0000 - p) + (0x100_0000_0000 - b) * d40
  {
    assert x * d40 == p * p by { Assoc(v0, p, d40); Assoc(p, v0, d40); }
    assert x * d40 == 0x100_0000_0000 * (a * d40) + b * d40;
    assert v1 * d40 == 0x800 * p - a * d40 - d40;
  }

  lemma SquareBound(e: int, c: int)
    requires -c <= e <= c
    ensures 0 <= e * e <= c * c
  {
    if e >= 0 {
      MulMono(e, c, e);
      MulMono(e, c, c);
    } else {
      MulMono(-e, c, -e);
      MulMono(-e, c, c);
      assert e * e == (-e) * (-e);
    }
  }

  lemma QuotientRange(v1: int, d40: int, e1: int)
    requires 0x80_0000_0000 < d40 <= 0x100_0000_0000
    requires v1 * d40 == 0x1000_0000_0000_0000 - e1
    requires 0 < e1 <= E1_HIGH
    ensures 0xF_FFF0 <= v1 < 0x20_0000
  {
    if v1 >= 0x20_0000 { MulMono(0x20_0000, v1, d40); }
    if v1 < 0xF_FFF0 { MulMono(v1, 0xF_FFF0, d40); }
  }

  const E2_HIGH: int := 0x7000_0000_0000_0000

  /** v2 is 2^97 / d up to a positive error of at most d + E2High. */
  lemma Step2Error(v1: Word, d40: Word, d: Word)
    requires d >= 0x8000_0000_0000_0000 && d40 == High40(d)
    requires 0x80_0000_0000 < d40 <= 0x100_0000_0000
    requires 0xF_FFF0 <= v1 < 0x20_0000
    requires 0 < 0x1000_0000_0000_0000 - v1 * d40 <= E1_HIGH
    ensures 0 < Step2(v1, d40) < 0x4_0000_0000
    ensures 0 < 0x2_0000_0000_0000_0000_0000_0000 - Step2(v1, d40) * d <= d + E2_HIGH
  {
    var e1 := 0x1000_0000_0000_0000 - v1 * d40;
    Step2Value(v1, d40, e1);
    var c, r := v1 * e1 / 0x8000_0000_0000, v1 * e1 % 0x8000_0000_0000;
    var v2 := v1 * 0x2000 + c;
    Step2Identity(v1, d40, e1, c, r, v2);
    Step2Bound(d40, e1, r, v2);
    Step2Divisor(d40, d, v2, e1, r);
  }

  lemma Step2Value(v1: Word, d40: Word, e1: int)
    requires 0xF_FFF0 <= v1 < 0x20_0000 && 0 < e1 <= E1_HIGH
    requires v1 * d40 == 0x1000_0000_0000_0000 - e1
    ensures 0 <= v1 * e1 < B
    ensures Step2(v1, d40) == v1 * 0x2000 + v1 * e1 / 0x8000_0000_0000
  {
    MulMono(v1, 0x1F_FFFF, e1);
    MulMono(1, v1, e1);
    MulMono(0, v1, d40);
    assert Mul(v1, d40) == v1 * d40;
    assert Mul(v1, e1) == v1 * e1;
  }

  /** Against d40 the scaled error is e1^2 + r * d40. */
  lemma Step2Bound(d40: int, e1: int, r: int, v2: int)
    requires 0x80_0000_0000 < d40 <= 0x100_0000_0000
    requires 0 < e1 <= E1_HIGH && 0 <= r < 0x8000_0000_0000 && 0 <= v2
    requires 0x8000_0000_0000 * (0x200_0000_0000_0000_0000 - v2 * d40) == e1 * e1 + r * d40
    ensures 0 < e1 * e1 <= E1_HIGH * E1_HIGH
    ensures 0 <= r * d40 <= 0x8000_0000_0000 * d40
    ensures 0 < v2 < 0x4_0000_0000
  {
    SquareBound(e1, E1_HIGH);
    MulMono(1, e1, e1);
    MulMono(r, 0x8000_0000_0000, d40);
    MulMono(0, r, d40);
    if v2 >= 0x4_0000_0000 { MulMono(0x4_0000_0000, v2, d40); }
  }

  /** Replacing 2^24 * d40 by d adds less than 2^58. */
  lemma Step2Divisor(d40: int, d: int, v2: int, e1: int, r: int)
    requires d40 == d / 0x100_0000 + 1
    requires 0 < e1 * e1 <= E1_HIGH * E1_HIGH && 0 <= r * d40 <= 0x8000_0000_0000 * d40 && 0 < v2 < 0x4_0000_0000
    requires 0x8000_0000_0000 * (0x200_0000_0000_0000_0000 - v2 * d40) == e1 * e1 + r * d40
    ensures 0 < 0x2_0000_0000_0000_0000_0000_0000 - v2 * d <= d + E2_HIGH
  {
    var theta := 0x100_0000 * d40 - d;
    assert 1 <= theta <= 0x100_0000;
    assert v2 * d == 0x100_0000 * (v2 * d40) - v2 * theta;
    MulMono(theta, 0x100_0000, v2);
    MulMono(0, theta, v2);
  }

  lemma Step2Identity(v1: int, d40: int, e1: int, c: int, r: int, v2: int)
    requires v1 * d40 == 0x1000_0000_0000_0000 - e1
    requires v1 * e1 == 0x8000_0000_0000 * c + r && v2 == v1 * 0x2000 + c
    ensures 0x8000_0000_0000 * (0x200_0000_0000_0000_0000 - v2 * d40) == e1 * e1 + r * d40
  {
    assert (v1 * e1) * d40 == e1 * (v1 * d40) by { Assoc(e1, v1, d40); }
    assert (v1 * e1) * d40 == 0x8000_0000_0000 * (c * d40) + r * d40;
    assert v2 * d40 == 0x2000 * (v1 * d40) + c * d40;
  }

  /** The wrapping expression for e is exactly floor(e2 / 2). */
  lemma Step3Half(v2: Word, d: Word, e2: int)
    requires v2 < 0x4_0000_0000 && e2 == 0x2_0000_0000_0000_0000_0000_0000 - v2 * d
    requires 0 < e2 < 2 * B
    ensures Sub(if d % 2 == 1 then v2 / 2 else 0, Mul(v2, d / 2 + d % 2)) == e2 / 2
  {
    var d63 := d / 2 + d % 2;
    var a := if d % 2 == 1 then v2 / 2 else 0;
    var n := v2 * d63;
    var t := a - n + 0x1_0000_0000_0000_0000_0000_0000;
    if d % 2 == 0 {
      assert d == 2 * d63;
      assert 2 * n == v2 * d;
      assert 2 * t == e2;
    } else {
      assert d == 2 * d63 - 1;
      assert 2 * n == v2 * d + v2;
      assert 2 * t == e2 - v2 % 2;
    }
    assert t == e2 / 2;
    // n = a + 2^96 - t, hence n mod 2^64 is either a - t or a - t + 2^64
    if t <= a {
      WrapUnique(n, 0x1_0000_0000, a - t);
    } else {
      WrapUnique(n, 0xFFFF_FFFF, a - t + B);
    }
  }

  /** v3 + 2^64 is 2^128 / d up to a positive error below 2d. */
  lemma Step3Error(v2: Word, d: Word)
    requires d >= 0x8000_0000_0000_0000 && 0 < v2 < 0x4_0000_0000
    requires 0 < 0x2_0000_0000_0000_0000_0000_0000 - v2 * d <= d + E2_HIGH
    ensures 0 < B * B - (Step3(v2, d) + B) * d < 2 * d
  {
    var e2 := 0x2_0000_0000_0000_0000_0000_0000 - v2 * d;
    Step3Half(v2, d, e2);
    var t := e2 / 2;
    var g, h := v2 * t / 0x2_0000_0000_0000_0000, v2 * t % 0x2_0000_0000_0000_0000;
    var w := v2 * 0x8000_0000 + g;
    Step3Identity(v2, d, e2, t, e2 % 2, g, h, w);
    Step3Bound(v2, d, e2, e2 % 2, h, B * B - w * d);
    assert B <= w < 2 * B by {
      if w < B { MulMono(w, B - 1, d); }
      if w >= 2 * B { MulMono(2 * B, w, d); }
    }
    Step3Wraps(v2, d, t, w);
  }

  /** The high half of v2 * t, halved, is v2 * t / 2^65; the sum drops its leading bit. */
  lemma Step3Wraps(v2: Word, d: Word, t: Word, w: int)
    requires v2 < 0x4_0000_0000 && B <= w < 2 * B
    requires t == Sub(if d % 2 == 1 then v2 / 2 else 0, Mul(v2, d / 2 + d % 2))
    requires w == v2 * 0x8000_0000 + v2 * t / 0x2_0000_0000_0000_0000
    ensures Step3(v2, d) == w - B
  {
    HalfHigh(v2 * t, Umul(v2, t));
    WrapSum(v2 * 0x8000_0000, Umul(v2, t).hi / 2);
  }

  lemma WrapSum(a: int, g: Word)
    requires 0 <= a && B <= a + g < 2 * B
    ensures Add(Wrap(a), g) == a + g - B
  {
  }

  lemma HalfHigh(n: int, p: U128)
    requires n == p.Value()
    ensures p.hi / 2 == n / 0x2_0000_0000_0000_0000
  {
  }

  lemma Step3Identity(v2: int, d: int, e2: int, t: int, delta: int, g: int, h: int, w: int)
    requires v2 * d == 0x2_0000_0000_0000_0000_0000_0000 - e2 && e2 == 2 * t + delta
    requires v2 * t == 0x2_0000_0000_0000_0000 * g + h && w == v2 * 0x8000_0000 + g
    ensures 0x4_0000_0000_0000_0000 * (B * B - w * d) == e2 * e2 + delta * (v2 * d) + 2 * (h * d)
  {
    assert (v2 * t) * d == t * (v2 * d) by { Assoc(t, v2, d); }
    assert (v2 * t) * d == 0x2_0000_0000_0000_0000 * (g * d) + h * d;
    assert w * d == 0x8000_0000 * (v2 * d) + g * d;
    assert e2 * e2 == 2 * (t * e2) + delta * e2;
    assert t * (v2 * d) == 0x2_0000_0000_0000_0000_0000_0000 * t - t * e2;
    assert delta * (v2 * d) == 0x2_0000_0000_0000_0000_0000_0000 * delta - delta * e2;
  }

  lemma Step3Bound(v2: int, d: int, e2: int, delta: int, h: int, e3: int)
    requires 0x8000_0000_0000_0000 <= d < B && 0 < v2 < 0x4_0000_0000
    requires 0 < e2 <= d + E2_HIGH && 0 <= delta <= 1 && 0 <= h < 0x2_0000_0000_0000_0000
    requires 0x4_0000_0000_0000_0000 * e3 == e2 * e2 + delta * (v2 * d) + 2 * (h * d)
    ensures 0 < e3 < 2 * d
  {
    SquareBelow(d, e2);
    UpTo(v2, 0x4_0000_0000, d);
    UpTo(delta, 1, v2 * d);
    UpTo(h, 0x2_0000_0000_0000_0000, d);
    Step3Sum(d, e2 * e2, delta * (v2 * d), h * d, e3);
  }

  lemma UpTo(a: int, b: int, c: int)
    requires 0 <= a <= b && 0 <= c
    ensures 0 <= a * c <= b * c
  {
    MulMono(a, b, c);
    MulMono(0, a, c);
  }

  lemma SquareBelow(d: int, e: int)
    requires 0x8000_0000_0000_0000 <= d < B && 0 < e <= d + E2_HIGH
    ensures 0 < e * e && 8 * (e * e) <= 15 * 0x1_7000_0000_0000_0000 * d
  {
    MulMono(1, e, e);
    MulMono(8 * e, 15 * d, e);
    MulMono(e, 0x1_7000_0000_0000_0000, 15 * d);
  }

  lemma Step3Sum(d: int, square: int, odd: int, low: int, e3: int)
    requires 0 < d && 0 < square && 8 * square <= 15 * 0x1_7000_0000_0000_0000 * d
    requires 0 <= odd <= 0x4_0000_0000 * d && 0 <= low <= 0x2_0000_0000_0000_0000 * d
    requires 0x4_0000_0000_0000_0000 * e3 == square + odd + 2 * low
    ensures 0 < e3 < 2 * d
  {
  }

  /** The last step adds one exactly when the error exceeds d. */
  lemma Step4Exact(v3: Word, d: Word)
    requires d >= 0x8000_0000_0000_0000
    requires 0 < B * B - (v3 + B) * d < 2 * d
    ensures var v := Step4(v3, d) + B; v * d <= B * B - 1 < (v + 1) * d
  {
    var e3 := B * B - (v3 + B) * d;
    var m := Add128(Umul(v3, d), U128(0, d));
    assert v3 * d + d <= (B - 1) * (B - 1) + B - 1 by { ProductFits(v3, d); }
    assert m.Value() == v3 * d + d == B * (B - d) + d - e3;
    if e3 <= d {
      assert m.hi == B - d;
      assert Step4(v3, d) == v3;
      assert (v3 + B + 1) * d == (v3 + B) * d + d;
    } else {
      assert m.hi == B - d - 1;
      assert Add(m.hi, d) == B - 1;
      if v3 == B - 1 { MulMono(0x8000_0000_0000_0000, d, v3 + B); assert false; }
      assert Step4(v3, d) == v3 + 1;
      assert (v3 + 1 + B) * d == (v3 + B) * d + d;
      assert (v3 + 2 + B) * d == (v3 + B) * d + 2 * d;
    }
  }

  /** For every normalised divisor the table-seeded wrapping computation returns
      floor((2^128 - 1) / d) - 2^64. */
  lemma Reciprocal2by1Exact(d: Word)
    requires d >= 0x8000_0000_0000_0000
    ensures Reciprocal2by1(d) == (B * B - 1) / d - B
    ensures (Reciprocal2by1(d) + B) * d <= B * B - 1 < (Reciprocal2by1(d) + B + 1) * d
  {
    var d40 := High40(d);
    SeedError(d);
    Step1Error(Seed(d), d40);
    var v1 := Step1(Seed(d), d40);
    Step2Error(v1, d40, d);
    Step3Error(Step2(v1, d40), d);
    Step4Exact(Step3(Step2(v1, d40), d), d);
    QuotientUnique(B * B - 1, d, Reciprocal2by1(d) + B);
  }
}
