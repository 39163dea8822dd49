/** Exponentiation, modular sums and products, and signed division on top of the word arithmetic. */
module ModularArithmetic {
  import opened Arithmetic
  import opened Words
  import opened WordArrays
  import opened Multiplication
  import LongDivision

  function Pow(b: int, e: nat): int
  {
    if e == 0 then 1 else b * Pow(b, e - 1)
  }

  // ---- Congruences --------------------------------------------------------------------------

  lemma ModProduct(x: int, y: int, m: int)
    requires m > 0
    ensures ((x % m) * y) % m == (x * y) % m
  {
    var k, r := x / m, x % m;
    assert x == k * m + r;
    var q, s := (r * y) / m, (r * y) % m;
    assert r * y == q * m + s;
    assert x * y == (k * y + q) * m + s by { ProductOfSum(k, m, r, y, q, s); }
    DivisionUnique(x * y, k * y + q, m, s);
  }

  lemma ProductOfSum(k: int, m: int, r: int, y: int, q: int, s: int)
    requires r * y == q * m + s
    ensures (k * m + r) * y == (k * y + q) * m + s
  {
    assert (k * m) * y == (k * y) * m by { Assoc(k, m, y); Assoc(k, y, m); }
  }

  lemma ModBoth(x: int, y: int, m: int)
    requires m > 0
    ensures ((x % m) * (y % m)) % m == (x * y) % m
  {
    ModProduct(x, y % m, m);
    ModProduct(y, x, m);
  }

  lemma {:induction false} PowMod(b: int, e: nat, m: int)
    requires m > 0
    ensures Pow(b % m, e) % m == Pow(b, e) % m
  {
    if e == 0 {
    } else {
      PowMod(b, e - 1, m);
      ModBoth(b, Pow(b % m, e - 1), m);
      ModBoth(b, Pow(b, e - 1), m);
      ModProduct(b, Pow(b % m, e - 1), m);
    }
  }

  lemma {:induction false} PowSquare(b: int, e: nat)
    ensures Pow(b * b, e) == Pow(b, 2 * e)
  {
    if e == 0 {
    } else {
      PowSquare(b, e - 1);
      assert Pow(b, 2 * e) == b * (b * Pow(b, 2 * e - 2));
      Assoc(b, b, Pow(b, 2 * (e - 1)));
    }
  }

  // ---- exp ----------------------------------------------------------------------------------

  method Exp(base: seq<Word>, exponent: nat) returns (result: seq<Word>)
    requires IsSize(|base|)
    ensures |result| == |base|
    ensures Val(result) == Pow(Val(base), exponent) % BPow(|base|)
  {
    result := Extend([1], |base|);
    SingleValue([1]);
    var b, e := base, exponent;
    while e != 0
      invariant |result| == |base| && |b| == |base|
      invariant Remaining(result, b, e) == Remaining(Extend([1], |base|), base, exponent)
    {
      Round(result, b, e);
      if e % 2 != 0 {
        result := MulLow(result, b);
      }
      b := MulLow(b, b);
      e := e / 2;
    }
    RemainingAtEnds(result, b, base, exponent);
  }

  /** What the loop has still to multiply out, modulo 2^N. */
  ghost function Remaining(r: seq<Word>, b: seq<Word>, e: nat): int
  {
    (Val(r) * Pow(Val(b), e)) % BPow(|b|)
  }

  lemma {:induction false} RemainingAtEnds(r: seq<Word>, b: seq<Word>, base: seq<Word>, exponent: nat)
    requires |r| == |b| && 1 <= |base|
    ensures Remaining(r, b, 0) == Val(r)
    ensures Remaining(Extend([1], |base|), base, exponent) == Pow(Val(base), exponent) % BPow(|base|)
  {
    ValBound(r);
    SingleValue([1]);
    DivisionUnique(Val(r), 0, BPow(|b|), Val(r));
  }

  lemma {:induction false} Round(r: seq<Word>, b: seq<Word>, e: nat)
    requires |r| == |b| && IsSize(|b|) && e != 0
    ensures var r' := if e % 2 != 0 then MulLow(r, b) else r;
      Remaining(r', MulLow(b, b), e / 2) == Remaining(r, b, e)
  {
    MulLowExact(r, b);
    MulLowExact(b, b);
    var r' := if e % 2 != 0 then MulLow(r, b) else r;
    SquareStep(Val(r), Val(b), e, BPow(|b|), Val(r'), Val(MulLow(b, b)));
  }

  /** One round of square-and-multiply keeps result * base^exponent modulo m. */
  lemma SquareStep(r: int, b: int, e: nat, m: int, r': int, b': int)
    requires m > 0 && e != 0
    requires r' == if e % 2 != 0 then (r * b) % m else r
    requires b' == (b * b) % m
    ensures (r' * Pow(b', e / 2)) % m == (r * Pow(b, e)) % m
  {
    var h := e / 2;
    PowMod(b * b, h, m);
    PowSquare(b, h);
    if e % 2 != 0 {
      OddStep(r, b, h, m, r', Pow(b', h));
    } else {
      CongruentFactor(r, Pow(b', h), Pow(b, e), m);
    }
  }

  lemma CongruentFactor(r: int, x: int, y: int, m: int)
    requires m > 0 && x % m == y % m
    ensures (r * x) % m == (r * y) % m
  {
    ModProduct(x, r, m);
    ModProduct(y, r, m);
    assert r * x == x * r && r * y == y * r;
  }

  lemma OddStep(r: int, b: int, h: nat, m: int, r': int, x: int)
    requires m > 0 && r' == (r * b) % m && x % m == Pow(b, 2 * h) % m
    ensures (r' * x) % m == (r * Pow(b, 2 * h + 1)) % m
  {
    var y := Pow(b, 2 * h);
    ModProduct(r * b, x, m);
    CongruentFactor(r * b, x, y, m);
    Assoc(r, b, y);
    assert Pow(b, 2 * h + 1) == b * y;
  }

  // ---- addmod and mulmod --------------------------------------------------------------------

  /** The low half of a 2N-bit remainder by an N-bit modulus. */
  method LowRemainder(u: seq<Word>, m: seq<Word>) returns (r: seq<Word>)
    requires |u| == 2 * |m| && Val(m) != 0
    ensures |r| == |m| && Val(r) == Val(u) % Val(m)
  {
    var wide := Extend(m, 2 * |m|);
    var q, rem := LongDivision.Udivrem(u, wide);
    r := rem[..|m|];
    ValSplit(rem, |m|);
    ValBound(m);
    HighPartZero(Val(rem), Val(r), BPow(|m|), Val(rem[|m|..]));
    QuotientEquation(Val(u), Val(q), Val(wide), Val(m), Val(rem));
  }

  lemma QuotientEquation(u: int, q: int, w: int, m: int, r: int)
    requires u == q * w + r && w == m && 0 <= r < m
    ensures u % m == r
  {
    DivisionUnique(u, q, m, r);
  }

  lemma HighPartZero(n: int, low: int, b: int, high: int)
    requires n == low + b * high && 0 <= low && 0 <= high && n < b && 1 <= b
    ensures n == low
  {
    if high >= 1 { MulMono(1, high, b); }
  }

  method Addmod(x: seq<Word>, y: seq<Word>, m: seq<Word>) returns (r: seq<Word>)
    requires |x| == |m| && |y| == |m| && IsSize(|m|) && Val(m) != 0
    ensures |r| == |m| && Val(r) == (Val(x) + Val(y)) % Val(m)
  {
    var (s, carry) := AddWithCarry(x, y);
    AddWithCarryExact(x, y);
    var high := Extend(Carry(carry), |m|);
    ValAppend(s, high);
    assert Val(s + high) == Val(x) + Val(y) by { Commuted(BPow(|m|), Bit(carry)); }
    r := LowRemainder(s + high, m);
  }

  method Mulmod(x: seq<Word>, y: seq<Word>, m: seq<Word>) returns (r: seq<Word>)
    requires |x| == |m| && |y| == |m| && IsSize(|m|) && Val(m) != 0
    ensures |r| == |m| && Val(r) == (Val(x) * Val(y)) % Val(m)
  {
    UmulWideExact(x, y);
    r := LowRemainder(UmulWide(x, y), m);
  }

  lemma Commuted(a: int, b: int)
    ensures a * b == b * a
  {
  }

  // ---- sdivrem ------------------------------------------------------------------------------

  /** Two's complement reading of a word sequence. */
  predicate IsNegative(x: seq<Word>)
    requires |x| > 0
  {
    x[|x| - 1] >= 0x8000_0000_0000_0000
  }

  ghost function Signed(x: seq<Word>): int
    requires |x| > 0
  {
    if IsNegative(x) then Val(x) - BPow(|x|) else Val(x)
  }

  /** It is the number congruent to the value that lies from -2^(N-1) below 2^(N-1). */
  lemma {:induction false} SignedIs(x: seq<Word>)
    requires |x| > 0
    ensures Signed(x) == Val(x) || Signed(x) == Val(x) - BPow(|x|)
    ensures -BPow(|x|) <= 2 * Signed(x) < BPow(|x|)
  {
    var n := |x| - 1;
    assert x[..n + 1] == x;
    ValSnoc(x, n);
    ValBound(x[..n]);
    ValBound(x);
    HalfByTop(Val(x[..n]), BPow(n), x[n], Val(x), BPow(|x|));
  }

  lemma HalfByTop(low: int, b: int, top: int, v: int, whole: int)
    requires whole == B * b && v == low + b * top && 0 <= low < b && 0 <= v < whole
    ensures top >= 0x8000_0000_0000_0000 ==> 2 * v >= whole
    ensures top < 0x8000_0000_0000_0000 ==> 2 * v < whole
  {
    Commuted(b, top);
    if top >= 0x8000_0000_0000_0000 {
      MulMono(0x8000_0000_0000_0000, top, b);
    } else {
      MulMono(top, 0x7FFF_FFFF_FFFF_FFFF, b);
    }
  }

  function Complement(x: seq<Word>): (y: seq<Word>)
    ensures |y| == |x|
  {
    seq(|x|, i requires 0 <= i < |x| => B - 1 - x[i])
  }

  /** -x computed as ~x + 1. */
  function Negate(x: seq<Word>): (y: seq<Word>)
    requires IsSize(|x|)
    ensures |y| == |x|
  {
    Plus(Complement(x), Extend([1], |x|))
  }

  lemma {:induction false} ComplementValue(x: seq<Word>)
    ensures Val(Complement(x)) == BPow(|x|) - 1 - Val(x)
  {
    if |x| != 0 {
      ComplementValue(x[1..]);
      assert Complement(x)[1..] == Complement(x[1..]);
    }
  }

  lemma {:induction false} NegateValue(x: seq<Word>)
    requires IsSize(|x|)
    ensures Val(Negate(x)) == if Val(x) == 0 then 0 else BPow(|x|) - Val(x)
  {
    ComplementValue(x);
    SingleValue([1]);
    PlusMod(Complement(x), Extend([1], |x|));
    ValBound(x);
    if Val(x) == 0 {
      DivisionUnique(BPow(|x|), 1, BPow(|x|), 0);
    } else {
      DivisionUnique(BPow(|x|) - Val(x), 0, BPow(|x|), BPow(|x|) - Val(x));
    }
  }

  /** The top bit splits the range in half. */
  lemma {:induction false} SignBound(x: seq<Word>)
    requires |x| > 0
    ensures IsNegative(x) <==> 2 * Val(x) >= BPow(|x|)
  {
    var n := |x| - 1;
    assert x[..n + 1] == x;
    ValSnoc(x, n);
    ValBound(x[..n]);
    SignAlgebra(Val(x[..n]), BPow(n), x[n]);
  }

  lemma SignAlgebra(low: int, b: int, t: int)
    requires 0 <= low < b && 0 <= t < B
    ensures t >= 0x8000_0000_0000_0000 <==> 2 * (low + b * t) >= B * b
  {
    if t >= 0x8000_0000_0000_0000 {
      MulMono(0x8000_0000_0000_0000, t, b);
    } else {
      MulMono(t, 0x7FFF_FFFF_FFFF_FFFF, b);
    }
  }

  function Magnitude(x: seq<Word>): (y: seq<Word>)
    requires |x| > 0 && IsSize(|x|)
    ensures |y| == |x|
  {
    if IsNegative(x) then Negate(x) else x
  }

  ghost function AbsValue(n: int): int { if n < 0 then -n else n }

  lemma {:induction false} MagnitudeValue(x: seq<Word>)
    requires |x| > 0 && IsSize(|x|)
    ensures Val(Magnitude(x)) == AbsValue(Signed(x))
    ensures 2 * AbsValue(Signed(x)) <= BPow(|x|)
    ensures 2 * AbsValue(Signed(x)) == BPow(|x|) ==> Signed(x) < 0
  {
    NegateValue(x);
    SignBound(x);
    ValBound(x);
  }

  /** Reading -x or x back as a signed number, for a magnitude of at most half the range. */
  lemma {:induction false} SignedOf(x: seq<Word>, negative: bool)
    requires |x| > 0 && IsSize(|x|) && 2 * Val(x) <= BPow(|x|)
    requires 2 * Val(x) < BPow(|x|) || negative
    ensures Signed(if negative then Negate(x) else x) == if negative then -Val(x) else Val(x)
  {
    NegateValue(x);
    SignBound(x);
    SignBound(Negate(x));
    ValBound(x);
  }

  /** The quotient truncated towards zero. */
  ghost function Truncated(a: int, b: int): int
    requires b != 0
  {
    var q := AbsValue(a) / AbsValue(b);
    if (a < 0) != (b < 0) then -q else q
  }

  /** Signed division truncates towards zero and the remainder takes the sign of the dividend.  The
      one quotient that does not fit, of the least number by -1, comes out as the least number. */
  method Sdivrem(u: seq<Word>, v: seq<Word>) returns (quot: seq<Word>, rem: seq<Word>)
    requires |u| == |v| && |u| > 0 && IsSize(|u|) && Val(v) != 0
    ensures |quot| == |u| && |rem| == |u|
    ensures Signed(v) != 0
    ensures Signed(u) == Truncated(Signed(u), Signed(v)) * Signed(v) + Signed(rem)
    ensures AbsValue(Signed(rem)) < AbsValue(Signed(v))
    ensures Signed(rem) != 0 ==> (Signed(rem) < 0 <==> Signed(u) < 0)
    ensures Signed(quot) == Truncated(Signed(u), Signed(v)) <==>
            !(2 * Signed(u) == -BPow(|u|) && Signed(v) == -1)
    ensures 2 * Signed(u) == -BPow(|u|) && Signed(v) == -1 ==> Signed(quot) == Signed(u)
  {
    var uNeg, vNeg := IsNegative(u), IsNegative(v);
    MagnitudeValue(u);
    MagnitudeValue(v);
    SignsOf(u);
    SignsOf(v);
    var q, r := LongDivision.Udivrem(Magnitude(u), Magnitude(v));
    ghost var b := BPow(|u|);
    quot := if uNeg != vNeg then Negate(q) else q;
    rem := if uNeg then Negate(r) else r;
    MagnitudeDivision(Signed(u), Signed(v), Val(q), Val(r), b);
    SignedOf(r, uNeg);
    if 2 * Val(q) < b || uNeg != vNeg {
      SignedOf(q, uNeg != vNeg);
    } else {
      SignBound(q);
    }
  }

  lemma {:induction false} SignsOf(x: seq<Word>)
    requires |x| > 0
    ensures IsNegative(x) <==> Signed(x) < 0
    ensures Signed(x) == 0 <==> Val(x) == 0
  {
    ValBound(x);
    SignBound(x);
  }

  lemma MagnitudeDivision(u: int, v: int, q: int, r: int, b: int)
    requires v != 0 && AbsValue(u) == q * AbsValue(v) + r && 0 <= r < AbsValue(v) && 0 <= q
    requires 2 * AbsValue(u) <= b && 2 * AbsValue(v) <= b && (2 * AbsValue(u) == b ==> u < 0)
    ensures q == AbsValue(u) / AbsValue(v)
    ensures u == Truncated(u, v) * v + if u < 0 then -r else r
    ensures 2 * r < b && 2 * q <= b
    ensures 2 * q == b <==> (2 * u == -b && AbsValue(v) == 1)
  {
    var a, d := AbsValue(u), AbsValue(v);
    QuotientUnique(a, d, q);
    assert (-q) * v == -(q * v) && q * (-v) == -(q * v);
    MulMono(1, d, q);
    if d >= 2 {
      MulMono(2, d, q);
    }
  }
}
