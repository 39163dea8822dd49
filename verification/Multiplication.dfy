/** Addition with carry and the four multiplication algorithms of intx.  A number of N bits is a
    little-endian sequence of N / 64 words whose halves are its two `half_type`s. */
module Multiplication {
  import opened Arithmetic
  import opened Words
  import opened WordArrays

  /** uint<N> for N a power of two, down to a single word. */
  predicate IsSize(n: nat)
  {
    n == 1 || (n > 1 && n % 2 == 0 && IsSize(n / 2))
  }

  function Lo(x: seq<Word>): seq<Word> { x[..|x| / 2] }

  function Hi(x: seq<Word>): seq<Word> { x[|x| / 2..] }

  lemma {:induction false} Halves(x: seq<Word>)
    requires IsSize(|x|) && |x| > 1
    ensures |Lo(x)| == |Hi(x)| == |x| / 2 && IsSize(|x| / 2)
    ensures Val(x) == Val(Lo(x)) + BPow(|x| / 2) * Val(Hi(x))
    ensures BPow(|x|) == BPow(|x| / 2) * BPow(|x| / 2)
  {
    var half := |x| / 2;
    assert |x| == half + half;
    ValSplit(x, half);
    BPowSum(half, half);
  }

  function Bit(b: bool): int { if b then 1 else 0 }

  /** Zero extension of a carry or of a half to n words. */
  function Extend(x: seq<Word>, n: nat): (y: seq<Word>)
    requires |x| <= n
    ensures |y| == n && Val(y) == Val(x)
  {
    ValAppend(x, Zeros(n - |x|));
    x + Zeros(n - |x|)
  }

  function Carry(b: bool): (y: seq<Word>)
    ensures |y| == 1 && Val(y) == Bit(b)
  {
    [if b then 1 else 0]
  }

  // ---- Addition -----------------------------------------------------------------------------

  /** add_with_carry: the halves are added separately and the carry of the low half rippled in. */
  function AddWithCarry(a: seq<Word>, b: seq<Word>): (r: (seq<Word>, bool))
    requires |a| == |b| && IsSize(|a|)
    ensures |r.0| == |a|
    decreases |a|
  {
    if |a| == 1 then
      var s := Add(a[0], b[0]);
      ([s], s < a[0])
    else
      var (lo, loCarry) := AddWithCarry(Lo(a), Lo(b));
      var (tt, ttCarry) := AddWithCarry(Hi(a), Hi(b));
      var (hi, hiCarry) := AddWithCarry(tt, Extend(Carry(loCarry), |a| / 2));
      (lo + hi, ttCarry || hiCarry)
  }

  ghost predicate CarriedSum(r: (seq<Word>, bool), a: seq<Word>, b: seq<Word>)
  {
    |r.0| == |a| == |b| && Val(r.0) + Bit(r.1) * BPow(|a|) == Val(a) + Val(b)
  }

  lemma {:induction false} AddWithCarryExact(a: seq<Word>, b: seq<Word>)
    requires |a| == |b| && IsSize(|a|)
    ensures CarriedSum(AddWithCarry(a, b), a, b)
    decreases |a|
  {
    if |a| == 1 {
      OneWordSum(a, b, Add(a[0], b[0]));
    } else {
      var lo := AddWithCarry(Lo(a), Lo(b));
      var tt := AddWithCarry(Hi(a), Hi(b));
      var c := Extend(Carry(lo.1), |a| / 2);
      AddWithCarryExact(Lo(a), Lo(b));
      AddWithCarryExact(Hi(a), Hi(b));
      AddWithCarryExact(tt.0, c);
      AddCombine(a, b, lo, tt, c, AddWithCarry(tt.0, c));
    }
  }

  lemma {:induction false} AddCombine(a: seq<Word>, b: seq<Word>, lo: (seq<Word>, bool), tt: (seq<Word>, bool), c: seq<Word>, hi: (seq<Word>, bool))
    requires |a| == |b| && IsSize(|a|) && |a| > 1 && Val(c) == Bit(lo.1)
    requires CarriedSum(lo, Lo(a), Lo(b)) && CarriedSum(tt, Hi(a), Hi(b)) && CarriedSum(hi, tt.0, c)
    ensures CarriedSum((lo.0 + hi.0, tt.1 || hi.1), a, b)
  {
    Halves(a);
    Halves(b);
    ValBound(Hi(a));
    ValBound(Hi(b));
    ValAppend(lo.0, hi.0);
    HalvesSum(Val(Lo(a)), Val(Hi(a)), Val(Lo(b)), Val(Hi(b)), Val(lo.0), Bit(lo.1), Val(tt.0), Bit(tt.1), Val(hi.0), Bit(hi.1), BPow(|a| / 2));
  }

  lemma {:induction false} OneWordSum(a: seq<Word>, b: seq<Word>, s: Word)
    requires |a| == |b| == 1 && s == Add(a[0], b[0])
    ensures Val([s]) + Bit(s < a[0]) * BPow(1) == Val(a) + Val(b)
  {
    assert BPow(1) == B * BPow(0);
    assert a == [a[0]] && b == [b[0]];
  }

  /** The two possible carries out of the high half never occur together. */
  lemma HalvesSum(al: int, ah: int, bl: int, bh: int, lo: int, lc: int, tt: int, tc: int, hi: int, hc: int, p: int)
    requires 0 <= lc <= 1 && 0 <= tc <= 1 && 0 <= hc <= 1
    requires lo + lc * p == al + bl && tt + tc * p == ah + bh && hi + hc * p == tt + lc
    requires 0 <= ah < p && 0 <= bh < p && 0 <= hi
    ensures tc + hc <= 1
    ensures lo + p * hi + (tc + hc) * (p * p) == al + p * ah + (bl + p * bh)
  {
    var c := tc + hc;
    assert c * p == tc * p + hc * p;
    OneCarry(ah + bh + lc, c, hi, p);
    ScaleHalves(ah, bh, lc, hi, c, p);
  }

  lemma OneCarry(sum: int, c: int, hi: int, p: int)
    requires 0 <= hi && 0 <= c <= 2 && sum < 2 * p && hi + c * p == sum
    ensures c <= 1
  {
  }

  lemma ScaleHalves(ah: int, bh: int, lc: int, hi: int, c: int, p: int)
    requires hi + c * p == ah + bh + lc
    ensures p * hi + c * (p * p) == p * ah + p * bh + lc * p
  {
    assert p * (hi + c * p) == p * hi + c * (p * p);
  }

  /** add_loop: the same sum by a ripple carry over the words, dropping the final carry. */
  method AddLoop(x: seq<Word>, y: seq<Word>) returns (z: array<Word>)
    requires |x| == |y|
    ensures fresh(z) && z.Length == |x|
    ensures Val(z[..]) == Val(x) + Val(y) || Val(z[..]) == Val(x) + Val(y) - BPow(|x|)
  {
    z := new Word[|x|](_ => 0);
    var k := false;
    assert z[..0] == [] && x[..0] == [] && y[..0] == [];
    for i := 0 to |x|
      invariant Val(z[..i]) + Bit(k) * BPow(i) == Val(x[..i]) + Val(y[..i])
    {
      ghost var before, k0 := z[..], k;
      var zi := Add(x[i], y[i]);
      var k1 := zi < x[i];
      zi := Add(zi, if k then 1 else 0);
      k := zi < (if k then 1 else 0) || k1;
      RippleCarry(x[i], y[i], if k0 then 1 else 0);
      z[i] := zi;
      assert z[..][..i] == before[..i] && z[..][..i + 1] == z[..i + 1];
      RippleStep(z[..], x, y, i, Bit(k0), Bit(k));
    }
    assert z[..|x|] == z[..] && x[..|x|] == x && y[..|x|] == y;
  }

  lemma RippleCarry(x: Word, y: Word, k: Word)
    requires k <= 1
    ensures Add(Add(x, y), k) + B * Bit(Add(Add(x, y), k) < k || Add(x, y) < x) == x + y + k
  {
  }

  lemma {:induction false} RippleStep(z: seq<Word>, x: seq<Word>, y: seq<Word>, i: nat, k: int, k': int)
    requires |z| == |x| == |y| && i < |x| && z[i] + B * k' == x[i] + y[i] + k
    requires Val(z[..i]) + k * BPow(i) == Val(x[..i]) + Val(y[..i])
    ensures Val(z[..i + 1]) + k' * BPow(i + 1) == Val(x[..i + 1]) + Val(y[..i + 1])
  {
    ValSnoc(z, i);
    ValSnoc(x, i);
    ValSnoc(y, i);
    AddLoopStep(Val(z[..i]), Val(x[..i]) + Val(y[..i]), BPow(i), k, z[i], x[i], y[i], k');
  }

  lemma AddLoopStep(z: int, xy: int, b: int, k: int, zi: int, x: int, y: int, k': int)
    requires z + k * b == xy && zi + B * k' == x + y + k
    ensures z + b * zi + k' * (B * b) == xy + b * x + b * y
  {
    assert b * zi + (B * b) * k' == b * x + b * y + b * k;
  }

  /** operator+ */
  function Plus(a: seq<Word>, b: seq<Word>): (s: seq<Word>)
    requires |a| == |b| && IsSize(|a|)
    ensures |s| == |a|
  {
    AddWithCarry(a, b).0
  }

  lemma {:induction false} PlusExact(a: seq<Word>, b: seq<Word>)
    requires |a| == |b| && IsSize(|a|) && Val(a) + Val(b) < BPow(|a|)
    ensures Val(Plus(a, b)) == Val(a) + Val(b)
  {
    AddWithCarryExact(a, b);
  }

  lemma {:induction false} PlusMod(a: seq<Word>, b: seq<Word>)
    requires |a| == |b| && IsSize(|a|)
    ensures Val(Plus(a, b)) == (Val(a) + Val(b)) % BPow(|a|)
  {
    AddWithCarryExact(a, b);
    var (s, c) := AddWithCarry(a, b);
    ValBound(s);
    DivisionUnique(Val(a) + Val(b), Bit(c), BPow(|a|), Val(s));
  }

  // ---- Recursive multiplication -------------------------------------------------------------

  const H: int := 0x1_0000_0000

  /** constexpr_umul on words: four 32-bit products. */
  function PortableUmul(x: Word, y: Word): U128
  {
    var xl: Word := x % H;
    var xh: Word := x / H;
    var yl: Word := y % H;
    var yh: Word := y / H;
    PortableSum(Mul(xl, yl), Mul(xh, yl), Mul(xl, yh), Mul(xh, yh))
  }

  function PortableSum(t0: Word, t1: Word, t2: Word, t3: Word): U128
  {
    var u1 := Add(t1, t0 / H);
    var u2 := Add(t2, u1 % H);
    U128(Add(Add(t3, u2 / H), u1 / H), Wrap(u2 * H) + t0 % H)
  }

  lemma PortableUmulExact(x: Word, y: Word)
    ensures PortableUmul(x, y) == Umul(x, y)
  {
    var xl, xh, yl, yh := x % H, x / H, y % H, y / H;
    HalfWordProduct(xl, yl);
    HalfWordProduct(xh, yl);
    HalfWordProduct(xl, yh);
    HalfWordProduct(xh, yh);
    PortableSumExact(xl * yl, xh * yl, xl * yh, xh * yh);
    assert x * y == xl * yl + H * (xh * yl) + H * (xl * yh) + H * H * (xh * yh) by { Expand(x, y, xl, xh, yl, yh, H); }
  }

  lemma HalfWordProduct(a: int, b: int)
    requires 0 <= a < H && 0 <= b < H
    ensures 0 <= a * b <= (H - 1) * (H - 1) && Wrap(a * b) == a * b
  {
    SmallProduct(a, b, H);
  }

  lemma PortableSumExact(t0: Word, t1: Word, t2: Word, t3: Word)
    requires t0 <= (H - 1) * (H - 1) && t1 <= (H - 1) * (H - 1) && t2 <= (H - 1) * (H - 1) && t3 <= (H - 1) * (H - 1)
    ensures PortableSum(t0, t1, t2, t3).Value() == t0 + H * t1 + H * t2 + H * H * t3
  {
  }

  /** umul on halves: four half products, summed along the middle columns. */
  function UmulWide(x: seq<Word>, y: seq<Word>): (p: seq<Word>)
    requires |x| == |y| && IsSize(|x|)
    ensures |p| == 2 * |x|
    decreases |x|
  {
    if |x| == 1 then
      var p := Umul(x[0], y[0]);
      [p.lo, p.hi]
    else
      AddColumns(|x|, UmulWide(Lo(x), Lo(y)), UmulWide(Hi(x), Lo(y)), UmulWide(Lo(x), Hi(y)), UmulWide(Hi(x), Hi(y)))
  }

  function AddColumns(n: nat, t0: seq<Word>, t1: seq<Word>, t2: seq<Word>, t3: seq<Word>): (p: seq<Word>)
    requires IsSize(n) && n > 1 && |t0| == n && |t1| == n
    requires |t2| == n && |t3| == n
    ensures |p| == 2 * n
  {
    var u1 := Plus(t1, Extend(Hi(t0), n));
    var u2 := Plus(t2, Extend(Lo(u1), n));
    var lo := Lo(t0) + Lo(u2);
    var hi := Plus(Plus(t3, Extend(Hi(u2), n)), Extend(Hi(u1), n));
    lo + hi
  }

  lemma {:induction false} UmulWideExact(x: seq<Word>, y: seq<Word>)
    requires |x| == |y| && IsSize(|x|)
    ensures Val(UmulWide(x, y)) == Val(x) * Val(y)
    decreases |x|
  {
    if |x| == 1 {
      var p := Umul(x[0], y[0]);
      PairValue(p.lo, p.hi);
      SingleValue(x);
      SingleValue(y);
    } else {
      UmulWideExact(Lo(x), Lo(y));
      UmulWideExact(Hi(x), Lo(y));
      UmulWideExact(Lo(x), Hi(y));
      UmulWideExact(Hi(x), Hi(y));
      AddColumnsExact(x, y, UmulWide(Lo(x), Lo(y)), UmulWide(Hi(x), Lo(y)), UmulWide(Lo(x), Hi(y)), UmulWide(Hi(x), Hi(y)));
    }
  }

  lemma {:induction false} AddColumnsExact(x: seq<Word>, y: seq<Word>, t0: seq<Word>, t1: seq<Word>, t2: seq<Word>, t3: seq<Word>)
    requires IsSize(|x|) && |x| > 1 && |y| == |x|
    requires |t0| == |x| && |t1| == |x|
    requires |t2| == |x| && |t3| == |x|
    requires Val(t0) == Val(Lo(x)) * Val(Lo(y))
    requires Val(t1) == Val(Hi(x)) * Val(Lo(y))
    requires Val(t2) == Val(Lo(x)) * Val(Hi(y))
    requires Val(t3) == Val(Hi(x)) * Val(Hi(y))
    ensures Val(AddColumns(|x|, t0, t1, t2, t3)) == Val(x) * Val(y)
  {
    var u1, u2, s, hi := UmulSums(|x|, t0, t1, t2, t3);
    UmulColumns(x, y, t0, t1, t2, t3, u1, u2, s, hi);
  }

  lemma {:induction false} UmulSums(n: nat, t0: seq<Word>, t1: seq<Word>, t2: seq<Word>, t3: seq<Word>)
    returns (u1: seq<Word>, u2: seq<Word>, s: seq<Word>, hi: seq<Word>)
    requires IsSize(n) && |t0| == n && |t1| == n
    requires |t2| == n && |t3| == n
    ensures u1 == Plus(t1, Extend(Hi(t0), n)) && IsSum(u1, t1, Hi(t0))
    ensures u2 == Plus(t2, Extend(Lo(u1), n)) && IsSum(u2, t2, Lo(u1))
    ensures s == Plus(t3, Extend(Hi(u2), n)) && IsSum(s, t3, Hi(u2))
    ensures hi == Plus(s, Extend(Hi(u1), n)) && IsSum(hi, s, Hi(u1))
  {
    u1 := SumOf(t1, Hi(t0));
    u2 := SumOf(t2, Lo(u1));
    s := SumOf(t3, Hi(u2));
    hi := SumOf(s, Hi(u1));
  }

  /** a + b with b zero-extended: exact whenever the sum fits. */
  lemma {:induction false} SumOf(a: seq<Word>, b: seq<Word>) returns (s: seq<Word>)
    requires IsSize(|a|) && |b| <= |a|
    ensures s == Plus(a, Extend(b, |a|)) && IsSum(s, a, b)
  {
    s := Plus(a, Extend(b, |a|));
    if Val(a) + Val(b) < BPow(|a|) { PlusExact(a, Extend(b, |a|)); }
  }

  lemma PairValue(lo: Word, hi: Word)
    ensures Val([lo, hi]) == hi * B + lo
  {
    assert [lo, hi][1..] == [hi];
    SingleValue([hi]);
  }

  ghost predicate IsSum(s: seq<Word>, a: seq<Word>, b: seq<Word>)
  {
    |s| == |a| && (Val(a) + Val(b) < BPow(|a|) ==> Val(s) == Val(a) + Val(b))
  }

  /** No column sum overflows, and the columns add up to the product. */
  lemma {:induction false} UmulColumns(x: seq<Word>, y: seq<Word>, t0: seq<Word>, t1: seq<Word>, t2: seq<Word>, t3: seq<Word>,
                    u1: seq<Word>, u2: seq<Word>, s: seq<Word>, hi: seq<Word>)
    requires IsSize(|x|) && |x| > 1 && |y| == |x|
    requires |t0| == |x| && |t1| == |x|
    requires |t2| == |x| && |t3| == |x|
    requires Val(t0) == Val(Lo(x)) * Val(Lo(y))
    requires Val(t1) == Val(Hi(x)) * Val(Lo(y))
    requires Val(t2) == Val(Lo(x)) * Val(Hi(y))
    requires Val(t3) == Val(Hi(x)) * Val(Hi(y))
    requires IsSum(u1, t1, Hi(t0)) && IsSum(u2, t2, Lo(u1))
    requires IsSum(s, t3, Hi(u2)) && IsSum(hi, s, Hi(u1))
    ensures Val(Lo(t0) + Lo(u2) + hi) == Val(x) * Val(y)
  {
    var p := BPow(|x| / 2);
    HalfBounds(x);
    HalfBounds(y);
    HalfBounds(t0);
    CrossColumn(Val(Hi(x)), Val(Lo(y)), Val(Hi(t0)), p);
    HalfBounds(u1);
    CrossColumn(Val(Lo(x)), Val(Hi(y)), Val(Lo(u1)), p);
    HalfBounds(u2);
    TopColumnFits(Val(Lo(x)), Val(Hi(x)), Val(Lo(y)), Val(Hi(y)), p, Val(Lo(t0)), Val(Hi(t0)), Val(Lo(u1)), Val(Hi(u1)),
                  Val(Lo(u2)), Val(Hi(u2)), Val(t3));
    ColumnAlgebra(Val(x), Val(y), Val(Lo(x)), Val(Hi(x)), Val(Lo(y)), Val(Hi(y)), p, Val(Lo(t0)), Val(Hi(t0)),
                  Val(Lo(u1)), Val(Hi(u1)), Val(Lo(u2)), Val(Hi(u2)), Val(hi));
    Columns(Lo(t0), Lo(u2), hi, p);
  }

  lemma {:induction false} Columns(a: seq<Word>, b: seq<Word>, c: seq<Word>, p: int)
    requires |a| == |b| && p == BPow(|a|)
    ensures Val(a + b + c) == Val(a) + p * Val(b) + (p * p) * Val(c)
  {
    ValAppend(a, b);
    ValAppend(a + b, c);
    BPowSum(|a|, |a|);
  }

  lemma CrossColumn(a: int, b: int, c: int, p: int)
    requires 0 <= a < p && 0 <= b < p && 0 <= c < p
    ensures a * b + c < p * p
  {
    SmallProduct(a, b, p);
  }

  lemma {:induction false} HalfBounds(x: seq<Word>)
    requires IsSize(|x|) && |x| > 1
    ensures |Lo(x)| == |Hi(x)| == |x| / 2 && IsSize(|x| / 2) && |x| == |x| / 2 + |x| / 2
    ensures 0 <= Val(Lo(x)) < BPow(|x| / 2) && 0 <= Val(Hi(x)) < BPow(|x| / 2)
    ensures Val(x) == Val(Lo(x)) + BPow(|x| / 2) * Val(Hi(x))
    ensures BPow(|x|) == BPow(|x| / 2) * BPow(|x| / 2)
  {
    Halves(x);
    ValBound(Lo(x));
    ValBound(Hi(x));
  }

  lemma SmallProduct(a: int, b: int, p: int)
    requires 0 <= a < p && 0 <= b < p
    ensures 0 <= a * b <= (p - 1) * (p - 1) == p * p - 2 * p + 1
  {
    MulMono(a, p - 1, b);
    MulMono(b, p - 1, p - 1);
    MulMono(0, a, b);
  }

  lemma TopColumnFits(xl: int, xh: int, yl: int, yh: int, p: int, b0: int, a0: int, b1: int, a1: int, b2: int, a2: int,
                      m3: int)
    requires 0 <= xl < p && 0 <= xh < p && 0 <= yl < p && 0 <= yh < p
    requires 0 <= b0 && 0 <= b2 && m3 == xh * yh
    requires xl * yl == b0 + p * a0
    requires xh * yl + a0 == b1 + p * a1
    requires xl * yh + b1 == b2 + p * a2
    ensures m3 + a2 + a1 < p * p
  {
    ColumnAlgebra(xl + p * xh, yl + p * yh, xl, xh, yl, yh, p, b0, a0, b1, a1, b2, a2, m3 + a2 + a1);
    PairBelow(xl, xh, p);
    PairBelow(yl, yh, p);
    ProductBelow(xl + p * xh, yl + p * yh, p);
    TopColumnBelow(b0, b2, p, m3 + a2 + a1);
  }

  lemma ColumnAlgebra(x: int, y: int, xl: int, xh: int, yl: int, yh: int, p: int, b0: int, a0: int, b1: int, a1: int,
                      b2: int, a2: int, top: int)
    requires x == xl + p * xh && y == yl + p * yh
    requires xl * yl == b0 + p * a0
    requires xh * yl + a0 == b1 + p * a1
    requires xl * yh + b1 == b2 + p * a2
    requires top == xh * yh + a2 + a1
    ensures b0 + p * b2 + (p * p) * top == x * y
  {
    Expand(x, y, xl, xh, yl, yh, p);
    Regroup(xl * yl, xh * yl, xl * yh, xh * yh, p, b0, a0, b1, a1, b2, a2);
  }

  lemma Regroup(m0: int, m1: int, m2: int, m3: int, p: int, b0: int, a0: int, b1: int, a1: int, b2: int, a2: int)
    requires m0 == b0 + p * a0 && m1 + a0 == b1 + p * a1 && m2 + b1 == b2 + p * a2
    ensures m0 + p * m1 + p * m2 + (p * p) * m3 == b0 + p * b2 + (p * p) * (m3 + a2 + a1)
  {
    assert p * m1 + p * m2 + p * a0 == p * (b2 + p * a2 + p * a1);
    assert p * (b2 + p * a2 + p * a1) == p * b2 + (p * p) * (a2 + a1) by { Scale(p, b2, a1 + a2); }
  }

  lemma Scale(p: int, b: int, a: int)
    ensures p * (b + p * a) == p * b + (p * p) * a
  {
    Assoc(p, p, a);
  }

  lemma PairBelow(l: int, h: int, p: int)
    requires 0 <= l < p && 0 <= h < p
    ensures 0 <= l + p * h < p * p
  {
    MulMono(h, p - 1, p);
    MulMono(0, h, p);
  }

  lemma TopColumnBelow(b0: int, b2: int, p: int, top: int)
    requires 1 <= p && 0 <= b0 && 0 <= b2
    requires b0 + p * b2 + (p * p) * top < (p * p) * (p * p)
    ensures top < p * p
  {
    MulMono(0, b2, p);
    if top >= p * p { MulMono(p * p, top, p * p); }
  }

  lemma Expand(x: int, y: int, xl: int, xh: int, yl: int, yh: int, p: int)
    requires x == xl + p * xh && y == yl + p * yh
    ensures x * y == xl * yl + p * (xh * yl) + p * (xl * yh) + (p * p) * (xh * yh)
  {
    assert (p * xh) * (p * yh) == (p * p) * (xh * yh);
  }

  lemma ProductBelow(x: int, y: int, p: int)
    requires 0 <= x < p * p && 0 <= y < p * p
    ensures x * y < (p * p) * (p * p)
  {
    SmallProduct(x, y, p * p);
  }

  /** mul: the product modulo 2^N from one full and two truncated half products. */
  function MulLow(a: seq<Word>, b: seq<Word>): (p: seq<Word>)
    requires |a| == |b| && IsSize(|a|)
    ensures |p| == |a|
    decreases |a|
  {
    if |a| == 1 then
      [Mul(a[0], b[0])]
    else
      var t := UmulWide(Lo(a), Lo(b));
      Lo(t) + Plus(Plus(MulLow(Lo(a), Hi(b)), MulLow(Hi(a), Lo(b))), Hi(t))
  }

  ghost predicate IsLowProduct(p: seq<Word>, a: seq<Word>, b: seq<Word>)
  {
    Val(p) == (Val(a) * Val(b)) % BPow(|a|)
  }

  lemma {:induction false} MulLowExact(a: seq<Word>, b: seq<Word>)
    requires |a| == |b| && IsSize(|a|)
    ensures IsLowProduct(MulLow(a, b), a, b)
    decreases |a|
  {
    if |a| == 1 {
      MulLowWord(a, b);
    } else {
      MulLowExact(Lo(a), Hi(b));
      MulLowExact(Hi(a), Lo(b));
      UmulWideExact(Lo(a), Lo(b));
      MulLowCombine(a, b, UmulWide(Lo(a), Lo(b)), MulLow(Lo(a), Hi(b)), MulLow(Hi(a), Lo(b)));
    }
  }

  lemma {:induction false} MulLowCombine(a: seq<Word>, b: seq<Word>, t: seq<Word>, r1: seq<Word>, r2: seq<Word>)
    requires IsSize(|a|) && |a| > 1 && |b| == |a| && |t| == |a|
    requires |r1| == |a| / 2 && |r2| == |a| / 2
    requires Val(t) == Val(Lo(a)) * Val(Lo(b))
    requires IsLowProduct(r1, Lo(a), Hi(b)) && IsLowProduct(r2, Hi(a), Lo(b))
    ensures IsLowProduct(Lo(t) + Plus(Plus(r1, r2), Hi(t)), a, b)
  {
    var r, hi := MulLowSums(r1, r2, Hi(t));
    MulLowStep(a, b, t, r1, r2, r, hi);
  }

  lemma {:induction false} MulLowWord(a: seq<Word>, b: seq<Word>)
    requires |a| == |b| == 1
    ensures IsLowProduct([Mul(a[0], b[0])], a, b)
  {
    SingleValue(a);
    SingleValue(b);
    SingleValue([Mul(a[0], b[0])]);
    assert BPow(1) == B * BPow(0);
  }

  lemma {:induction false} MulLowSums(r1: seq<Word>, r2: seq<Word>, th: seq<Word>) returns (r: seq<Word>, hi: seq<Word>)
    requires |r2| == |r1| && |th| == |r1| && IsSize(|r1|)
    ensures r == Plus(r1, r2) && Val(r) == (Val(r1) + Val(r2)) % BPow(|r1|)
    ensures hi == Plus(r, th) && Val(hi) == (Val(r) + Val(th)) % BPow(|r1|)
    ensures |hi| == |r| && |r| == |r1|
  {
    r := Plus(r1, r2);
    PlusMod(r1, r2);
    hi := Plus(r, th);
    PlusMod(r, th);
  }

  lemma {:induction false} MulLowStep(a: seq<Word>, b: seq<Word>, t: seq<Word>, r1: seq<Word>, r2: seq<Word>, r: seq<Word>, hi: seq<Word>)
    requires IsSize(|a|) && |a| > 1 && |b| == |a| && |t| == |a|
    requires |r1| == |a| / 2 && |r2| == |a| / 2 && |r| == |a| / 2 && |hi| == |a| / 2
    requires Val(t) == Val(Lo(a)) * Val(Lo(b))
    requires IsLowProduct(r1, Lo(a), Hi(b)) && IsLowProduct(r2, Hi(a), Lo(b))
    requires Val(r) == (Val(r1) + Val(r2)) % BPow(|a| / 2)
    requires Val(hi) == (Val(r) + Val(Hi(t))) % BPow(|a| / 2)
    ensures IsLowProduct(Lo(t) + hi, a, b)
  {
    HalfBounds(a);
    HalfBounds(b);
    HalfBounds(t);
    ValAppend(Lo(t), hi);
    ValBound(hi);
    LowProduct(Val(a), Val(b), Val(Lo(a)), Val(Hi(a)), Val(Lo(b)), Val(Hi(b)), BPow(|a| / 2), Val(Lo(t)), Val(Hi(t)),
               Val(r1), Val(r2), Val(r), Val(hi));
  }

  lemma LowProduct(a: int, b: int, al: int, ah: int, bl: int, bh: int, p: int, tl: int, th: int, r1: int, r2: int,
                   r: int, hi: int)
    requires 1 <= p && a == al + p * ah && b == bl + p * bh && al * bl == tl + p * th && 0 <= tl < p && 0 <= hi < p
    requires r1 == (al * bh) % p && r2 == (ah * bl) % p && r == (r1 + r2) % p && hi == (r + th) % p
    ensures tl + p * hi == (a * b) % (p * p)
  {
    var k := MiddleQuotient(al * bh, ah * bl, th, p, r1, r2, r, hi);
    Expand(a, b, al, ah, bl, bh, p);
    LowRegroup(al * bl, ah * bl, al * bh, ah * bh, p, tl, th, k, hi);
    PairBelow(tl, hi, p);
    DivisionUnique(a * b, k + ah * bh, p * p, tl + p * hi);
  }

  lemma MiddleQuotient(m2: int, m1: int, th: int, p: int, r1: int, r2: int, r: int, hi: int) returns (k: int)
    requires 1 <= p && r1 == m2 % p && r2 == m1 % p && r == (r1 + r2) % p && hi == (r + th) % p
    ensures m2 + m1 + th == k * p + hi
  {
    var k1, k2, k3, k4 := m2 / p, m1 / p, (r1 + r2) / p, (r + th) / p;
    assert m2 == k1 * p + r1 && m1 == k2 * p + r2;
    assert r1 + r2 == k3 * p + r && r + th == k4 * p + hi;
    k := k1 + k2 + k3 + k4;
    SumOfMultiples(k1, k2, k3, k4, p);
  }

  lemma SumOfMultiples(k1: int, k2: int, k3: int, k4: int, p: int)
    ensures k1 * p + k2 * p + k3 * p + k4 * p == (k1 + k2 + k3 + k4) * p
  {
  }

  lemma LowRegroup(m0: int, m1: int, m2: int, m3: int, p: int, tl: int, th: int, k: int, hi: int)
    requires m0 == tl + p * th && m2 + m1 + th == k * p + hi
    ensures m0 + p * m1 + p * m2 + (p * p) * m3 == (k + m3) * (p * p) + (tl + p * hi)
  {
    assert p * (m2 + m1 + th) == p * (hi + p * k);
    Scale(p, hi, k);
  }

  // ---- Schoolbook multiplication ------------------------------------------------------------

  /** One row: p[j..j+n] += u[..n] * v, returning the carry. */
  method AddRow(p: array<Word>, j: nat, u: seq<Word>, n: nat, v: Word) returns (k: Word)
    requires n <= |u| && j + n <= p.Length
    modifies p
    ensures Val(p[j..j + n]) + k * BPow(n) == Val(old(p[j..j + n])) + Val(u[..n]) * v
    ensures forall i :: 0 <= i < j || j + n <= i < p.Length ==> p[i] == old(p[i])
  {
    ghost var before := p[..];
    k := 0;
    assert before[j..j + 0] == [] && p[j..j + 0] == [] && u[..0] == [];
    for i := 0 to n
      invariant forall x :: 0 <= x < j || j + i <= x < p.Length ==> p[x] == before[x]
      invariant Val(p[j..j + i]) + k * BPow(i) == Val(before[j..j + i]) + Val(u[..i]) * v
    {
      ghost var low, k0 := p[j..j + i], k;
      var t := Add128(Add128(Umul(u[i], v), U128(0, p[i + j])), U128(0, k));
      ProductFits(u[i], v);
      p[i + j] := t.lo;
      k := t.hi;
      assert p[..][j..j + i] == low && p[..][j..j + i + 1] == p[j..j + i + 1];
      RowWindow(before, p[..], u, j, i, v, k0, k);
    }
    assert before[j..j + n] == old(p[j..j + n]);
  }

  lemma {:induction false} RowWindow(before: seq<Word>, after: seq<Word>, u: seq<Word>, j: nat, i: nat, v: int, k: int, k': int)
    requires |before| == |after| && j + i < |after| && i < |u|
    requires after[j + i] + B * k' == u[i] * v + before[j + i] + k
    requires Val(after[j..j + i]) + k * BPow(i) == Val(before[j..j + i]) + Val(u[..i]) * v
    ensures Val(after[j..j + i + 1]) + k' * BPow(i + 1) == Val(before[j..j + i + 1]) + Val(u[..i + 1]) * v
  {
    assert before[j..][..i] == before[j..j + i] && before[j..][..i + 1] == before[j..j + i + 1];
    assert after[j..][..i] == after[j..j + i] && after[j..][..i + 1] == after[j..j + i + 1];
    ValSnoc(before[j..], i);
    ValSnoc(after[j..], i);
    ValSnoc(u, i);
    RowStep(Val(after[j..j + i]), Val(before[j..j + i]), Val(u[..i]), BPow(i), k, v, after[j + i], before[j + i], u[i], k');
  }

  lemma RowStep(nw: int, od: int, ul: int, b: int, k: int, v: int, lo: int, x: int, u: int, k': int)
    requires nw + k * b == od + ul * v && lo + B * k' == u * v + x + k
    ensures nw + b * lo + k' * (B * b) == od + b * x + (ul + b * u) * v
  {
    assert b * lo + (B * b) * k' == b * (u * v) + b * x + b * k;
    Assoc(b, u, v);
  }

  /** umul_loop: the full product, one row per word of v. */
  method UmulLoop(u: seq<Word>, v: seq<Word>) returns (p: array<Word>)
    requires |u| == |v|
    ensures fresh(p) && p.Length == 2 * |u|
    ensures Val(p[..]) == Val(u) * Val(v)
  {
    var n := |u|;
    p := new Word[2 * n](_ => 0);
    ValZero(p[..n]);
    assert v[..0] == [] && u[..n] == u && p[..0 + n] == p[..n];
    for j := 0 to n
      invariant Val(p[..j + n]) == Val(u) * Val(v[..j])
      invariant forall i :: j + n <= i < p.Length ==> p[i] == 0
    {
      ghost var before := p[..];
      assert before[j..j + n] == p[j..j + n] && before[..j + n] == p[..j + n];
      var k := AddRow(p, j, u, n, v[j]);
      assert p[..][j..j + n] == p[j..j + n];
      p[j + n] := k;
      RowStored(before, p[..], j, n, k, Val(u), Val(v[..j]), v[j]);
      ValSnoc(v, j);
      assert p[..][..j + 1 + n] == p[..j + 1 + n];
    }
    assert p[..n + n] == p[..] && v[..n] == v;
  }

  lemma {:induction false} RowStored(p: seq<Word>, p': seq<Word>, j: nat, n: nat, k: Word, u: int, vl: int, v: Word)
    requires |p| == |p'| && j + n < |p| && p'[..j] == p[..j] && p'[j + n] == k
    requires Val(p'[j..j + n]) + k * BPow(n) == Val(p[j..j + n]) + u * v
    requires Val(p[..j + n]) == u * vl
    ensures Val(p'[..j + 1 + n]) == u * (vl + BPow(j) * v)
  {
    var low, mid, row := p[..j], p[j..j + n], p'[j..j + n];
    assert p[..j + n] == low + mid && p'[..j + 1 + n] == low + (row + [k]);
    ValAppend(low, mid);
    ValAppend(low, row + [k]);
    ValAppend(row, [k]);
    SingleValue([k]);
    RowAdded(Val(low), Val(mid), Val(row), k, BPow(j), BPow(n), u, vl, v);
  }

  lemma RowAdded(low: int, mid: int, row: int, k: int, b: int, bn: int, u: int, vl: int, v: int)
    requires low + b * mid == u * vl && row + k * bn == mid + u * v
    ensures low + b * (row + bn * k) == u * (vl + b * v)
  {
    assert b * (row + k * bn) == b * mid + b * (u * v);
    Assoc(b, u, v);
    Assoc(u, b, v);
  }

  /** mul_loop_opt: the rows are cut off at the top word, giving the product modulo 2^N. */
  method MulLoopOpt(u: seq<Word>, v: seq<Word>) returns (p: array<Word>)
    requires |u| == |v| && |u| > 0
    ensures fresh(p) && p.Length == |u|
    ensures Val(p[..]) == (Val(u) * Val(v)) % BPow(|u|)
  {
    var n := |u|;
    p := new Word[n](_ => 0);
    ValZero(p[..]);
    ghost var m := 0;
    assert v[..0] == [];
    for j := 0 to n
      invariant Val(p[..]) + m * BPow(n) == Val(u) * Val(v[..j])
    {
      ghost var before := p[..];
      assert before[j..j + (n - j - 1)] == p[j..j + (n - j - 1)];
      var k := AddRow(p, j, u, n - j - 1, v[j]);
      ghost var row := p[..];
      assert row[j..j + (n - j - 1)] == p[j..j + (n - j - 1)];
      p[n - 1] := Add(p[n - 1], Add(Mul(u[n - j - 1], v[j]), k));
      ghost var c := TopWord(before[n - 1], u[n - j - 1], v[j], k);
      m := CutRow(before, row, p[..], u, j, k, v[j], c, m, Val(v[..j]));
      ValSnoc(v, j);
    }
    assert v[..n] == v;
    ValBound(p[..]);
    DivisionUnique(Val(u) * Val(v), m, BPow(n), Val(p[..]));
  }

  lemma TopWord(x: Word, u: Word, v: Word, k: Word) returns (c: int)
    ensures Add(x, Add(Mul(u, v), k)) == x + u * v + k - c * B
  {
    c := (u * v) / B + (if Mul(u, v) + k < B then 0 else 1) + (if x + Add(Mul(u, v), k) < B then 0 else 1);
    assert u * v == (u * v) / B * B + Mul(u, v);
  }

  lemma {:induction false} CutRow(p: seq<Word>, row: seq<Word>, p': seq<Word>, u: seq<Word>, j: nat, k: Word, v: Word, c: int, m: int,
               vl: int) returns (m': int)
    requires |u| > j && |p| == |u| && |row| == |u| && |p'| == |u|
    requires row[..j] == p[..j] && p'[..|u| - 1] == row[..|u| - 1]
    requires Val(row[j..j + (|u| - j - 1)]) + k * BPow(|u| - j - 1) ==
             Val(p[j..j + (|u| - j - 1)]) + Val(u[..|u| - j - 1]) * v
    requires p'[|u| - 1] == p[|u| - 1] + u[|u| - j - 1] * v + k - c * B
    requires Val(p) + m * BPow(|u|) == Val(u) * vl
    ensures Val(p') + m' * BPow(|u|) == Val(u) * (vl + BPow(j) * v)
  {
    var n, r := |u|, |u| - j - 1;
    var x, x' := Val(p[j..j + r]) + BPow(r) * p[j + r], Val(p'[j..j + r]) + BPow(r) * p'[j + r];
    SplitAtRow(p, j, r, x);
    SplitAtRow(p', j, r, x');
    UntouchedParts(p, row, p', j, r);
    SplitFactor(u, r);
    BPowSum(j, r + 1);
    m' := m + c + v * Val(u[r + 1..]);
    CutAlgebra(Val(p), Val(p'), Val(p[..j]), BPow(j), BPow(r), BPow(n), Val(p[j..j + r]), Val(row[j..j + r]), x, x', k, v, c,
               p[n - 1], p'[n - 1], Val(u), Val(u[..r]), u[r], Val(u[r + 1..]), m, m', vl);
  }

  lemma {:induction false} UntouchedParts(p: seq<Word>, row: seq<Word>, p': seq<Word>, j: nat, r: nat)
    requires |p| == |row| == |p'| == j + r + 1
    requires row[..j] == p[..j] && p'[..j + r] == row[..j + r]
    ensures p'[j..j + r] == row[j..j + r] && p'[..j] == p[..j]
  {
    assert p'[j..j + r] == p'[..j + r][j..] && row[j..j + r] == row[..j + r][j..];
    assert p'[..j] == p'[..j + r][..j] && row[..j] == row[..j + r][..j];
  }

  lemma {:induction false} SplitFactor(u: seq<Word>, r: nat)
    requires r < |u|
    ensures Val(u) == Val(u[..r]) + BPow(r) * u[r] + (B * BPow(r)) * Val(u[r + 1..])
  {
    ValSplit(u, r + 1);
    ValSnoc(u, r);
  }

  lemma CutAlgebra(p: int, p': int, low: int, bj: int, br: int, bn: int, mid: int, row: int, x: int, x': int, k: int,
                   v: int, c: int, t: int, t': int, u: int, ul: int, ut: int, uh: int, m: int, m': int, vl: int)
    requires bn == bj * (B * br)
    requires p == low + bj * x && p' == low + bj * x'
    requires x == mid + br * t && x' == row + br * t'
    requires row + k * br == mid + ul * v && t' == t + ut * v + k - c * B
    requires u == ul + br * ut + (B * br) * uh
    requires p + m * bn == u * vl && m' == m + c + v * uh
    ensures p' + m' * bn == u * (vl + bj * v)
  {
    var d := c + v * uh;
    WindowChange(br, mid, row, x, x', k, v, c, t, t', u, ul, ut, uh, d);
    ScaleBy(bj, x, u * v, d, B * br, bn);
    Substitute(bj, x', x + u * v - d * (B * br));
    assert bj * (u * v) == u * (bj * v) by { Assoc(bj, u, v); Assoc(u, bj, v); }
    assert m' * bn == m * bn + d * bn;
  }

  lemma WindowChange(br: int, mid: int, row: int, x: int, x': int, k: int, v: int, c: int, t: int, t': int, u: int,
                     ul: int, ut: int, uh: int, d: int)
    requires x == mid + br * t && x' == row + br * t'
    requires row + k * br == mid + ul * v && t' == t + ut * v + k - c * B
    requires u == ul + br * ut + (B * br) * uh && d == c + v * uh
    ensures x' == x + u * v - d * (B * br)
  {
    var y := B * br;
    RowTop(br, t, ut, v, k, c);
    TimesWord(ul, br, ut, y, uh, v);
    assert d * y == c * y + y * (v * uh);
  }

  lemma {:induction false} SplitAtRow(p: seq<Word>, j: nat, r: nat, x: int)
    requires |p| == j + r + 1 && x == Val(p[j..j + r]) + BPow(r) * p[j + r]
    ensures Val(p) == Val(p[..j]) + BPow(j) * x
  {
    ValSplit(p, j);
    assert p[j..] == p[j..j + r] + [p[j + r]];
    RowWithTop(p[j..j + r], p[j + r], BPow(r));
  }

  lemma {:induction false} RowWithTop(row: seq<Word>, top: Word, b: int)
    requires b == BPow(|row|)
    ensures Val(row + [top]) == Val(row) + b * top
  {
    ValAppend(row, [top]);
    SingleValue([top]);
  }

  lemma Substitute(b: int, x: int, y: int)
    requires x == y
    ensures b * x == b * y
  {
  }

  lemma RowTop(br: int, t: int, ut: int, v: int, k: int, c: int)
    ensures br * (t + ut * v + k - c * B) == br * t + br * (ut * v) + br * k - c * (B * br)
  {
  }

  lemma TimesWord(ul: int, br: int, ut: int, x: int, uh: int, v: int)
    ensures (ul + br * ut + x * uh) * v == ul * v + br * (ut * v) + x * (v * uh)
  {
    Assoc(br, ut, v);
    Assoc(x, uh, v);
  }

  lemma ScaleBy(b: int, y: int, z: int, d: int, x: int, bn: int)
    requires bn == b * x
    ensures b * (y + z - d * x) == b * y + b * z - d * bn
  {
    Assoc(b, d, x);
    Assoc(d, b, x);
  }
}
