/** Word-level division: the 3-by-2 reciprocal, the 2-by-1 and 3-by-2 quotient digits computed
    from a reciprocal, and the 128-bit division built on them. */
module WordDivision {
  import opened Arithmetic
  import opened Words
  import Reciprocal
  import opened Shifts

  method Reciprocal2by1(d: Word) returns (v: Word)
    requires d >= 0x8000_0000_0000_0000
    ensures v == (B * B - 1) / d - B
  {
    Reciprocal.Reciprocal2by1Exact(d);
    v := Reciprocal.Reciprocal2by1(d);
  }

  method Reciprocal3by2(d: U128) returns (v: Word)
    requires d.hi >= 0x8000_0000_0000_0000
    ensures v == (B * B * B - 1) / d.Value() - B
  {
    v := Reciprocal2by1(d.hi);
    var p := Mul(d.hi, v);
    ghost var w := v + B;  // the unbounded value that v tracks modulo 2^64
    InitialProduct(d.hi, v, p);
    p := Add(p, d.lo);
    if p < d.lo {
      Lowered(w, d, p);
      v, w := Sub(v, 1), w - 1;
      if p >= d.hi {
        Lowered(w, d, p - d.hi);
        v, w := Sub(v, 1), w - 1;
        p := Sub(p, d.hi);
      }
      p := Sub(p, d.hi);
    }
    AtLeastBase(w, d, p);
    var t := Umul(v, d.lo);
    StageTwo(w, d, p, t);
    p := Add(p, t.hi);
    if p < t.hi {
      v := Sub(v, 1);
      if !Less128(U128(p, t.lo), d) {
        v := Sub(v, 1);
      }
    }
  }

  /** (limit - 1) / d is the largest factor that keeps the product with d below limit. */
  lemma LargestFactor(w: int, d: int, limit: int)
    requires 0 < d && w * d < limit <= (w + 1) * d
    ensures w == (limit - 1) / d
  {
    QuotientUnique(limit - 1, d, w);
  }

  lemma LargestFactorBounds(w: int, d: int, limit: int)
    requires 0 < d && 0 < limit && w == (limit - 1) / d
    ensures w * d < limit <= w * d + d
  {
    assert limit - 1 == ((limit - 1) / d) * d + (limit - 1) % d;
  }

  lemma InitialProduct(d1: Word, v: Word, p: Word)
    requires d1 >= 0x8000_0000_0000_0000 && v + B == (B * B - 1) / d1 && p == Mul(d1, v)
    ensures (v + B) * d1 == B * B - B + p && p + d1 >= B
  {
    LargestFactorBounds(v + B, d1, B * B);
    var k := B * B - (v + B) * d1;
    assert d1 * v == (B - 1 - d1) * B + (B - k);
    WrapUnique(d1 * v, B - 1 - d1, B - k);
  }

  /** One unit less, in terms of the tracked product. */
  lemma Lowered(w: int, d: U128, p: int)
    requires d.hi >= 0x8000_0000_0000_0000 && 0 <= p
    requires w * d.hi + d.lo == B * B + p
    ensures (w - 1) * d.hi + d.lo == B * B + p - d.hi
    ensures w - 1 >= B
  {
    if w <= B { MulMono(w, B, d.hi); }
  }

  lemma AtLeastBase(w: int, d: U128, p: int)
    requires d.hi >= 0x8000_0000_0000_0000
    requires w * d.hi + d.lo == B * B - B + p && p + d.hi >= B
    ensures w >= B
  {
    if w < B { MulMono(w, B - 1, d.hi); }
  }

  /** w * d falls short of 2^192 by 2^128 less the two partial products: if these stay below 2^128
      then w is the wanted factor, otherwise one or two decrements reach it. */
  lemma StageTwo(w: int, d: U128, p: Word, t: U128)
    requires w * d.hi + d.lo == B * B - B + p && p + d.hi >= B
    requires w >= B && d.hi >= 0x8000_0000_0000_0000 && t.Value() == (w - B) * d.lo
    ensures var rest := (p + t.hi - B) * B + t.lo;
      var w' := if p + t.hi < B then w else if rest < d.Value() then w - 1 else w - 2;
      w' == (B * B * B - 1) / d.Value() && w' >= B
  {
    var n := d.Value();
    assert w * n == B * (w * d.hi) + w * d.lo;
    assert w * d.lo == t.Value() + B * d.lo;
    var rest := (p + t.hi - B) * B + t.lo;
    assert w * n == B * B * B + rest;
    StageTwoFactor(w, n, rest, p + t.hi < B);
  }

  lemma StageTwoFactor(w: int, n: int, rest: int, below: bool)
    requires 0x8000_0000_0000_0000 * B <= n < B * B && w >= B
    requires w * n == B * B * B + rest
    requires -n <= rest < B * B && (below <==> rest < 0)
    ensures var w' := if below then w else if rest < n then w - 1 else w - 2;
      w' == (B * B * B - 1) / n && w' >= B
  {
    assert (w + 1) * n == w * n + n;
    assert (w - 1) * n == w * n - n;
    assert (w - 2) * n == w * n - 2 * n;
    if below {
      LargestFactor(w, n, B * B * B);
    } else if rest < n {
      if w <= B { MulMono(w, B, n); }
      LargestFactor(w - 1, n, B * B * B);
    } else {
      if w <= B + 1 { MulMono(w, B + 1, n); }
      LargestFactor(w - 2, n, B * B * B);
    }
  }

  // ---- 2-by-1 division ----------------------------------------------------------------------

  method Udivrem2by1(u: U128, d: Word, v: Word) returns (quot: Word, rem: Word)
    requires d >= 0x8000_0000_0000_0000 && u.hi < d
    requires v + B == (B * B - 1) / d
    ensures u.Value() == quot * d + rem && rem < d
  {
    var q := Umul(v, u.hi);
    q := Add128(q, u);
    var qhi := Add(q.hi, 1);
    var r := Sub(u.lo, Mul(qhi, d));
    Corrected2by1(u, d, v, q, r);
    if r > q.lo {
      qhi := Sub(qhi, 1);
      r := Add(r, d);
    }
    if r >= d {
      qhi := Add(qhi, 1);
      r := Sub(r, d);
    }
    return qhi, r;
  }

  /** The digit and remainder after the two conditional corrections. */
  function Corrections(qhi: Word, r: Word, q0: Word, d: Word): (Word, Word)
  {
    var (q1, r1) := if r > q0 then (Sub(qhi, 1), Add(r, d)) else (qhi, r);
    if r1 >= d then (Add(q1, 1), Sub(r1, d)) else (q1, r1)
  }

  lemma Corrected2by1(u: U128, d: Word, v: Word, q: U128, r: Word)
    requires d >= 0x8000_0000_0000_0000 && u.hi < d
    requires v + B == (B * B - 1) / d
    requires q == Add128(Umul(v, u.hi), u) && r == Sub(u.lo, Mul(Add(q.hi, 1), d))
    ensures var (quot, rem) := Corrections(Add(q.hi, 1), r, q.lo, d);
      u.Value() == quot * d + rem && rem < d
  {
    var rt := Wrapped2by1(u, d, v, q, r);
    CorrectionsSettle(q.hi + 1, r, q.lo, d, rt);
    var (quot, rem) := Corrections(Add(q.hi, 1), r, q.lo, d);
    Settle(u.Value(), d, q.hi + 1, rt, quot, rem);
  }

  lemma Wrapped2by1(u: U128, d: Word, v: Word, q: U128, r: Word) returns (rt: int)
    requires d >= 0x8000_0000_0000_0000 && u.hi < d
    requires v + B == (B * B - 1) / d
    requires q == Add128(Umul(v, u.hi), u) && r == Sub(u.lo, Mul(Add(q.hi, 1), d))
    ensures rt == u.Value() - (q.hi + 1) * d
    ensures r == if rt >= 0 then rt else rt + B
    ensures rt + d >= 0 && rt > q.lo - B && (rt < B - d || rt < q.lo)
    ensures (rt >= 0 ==> q.hi + 1 < B) && (rt >= d ==> q.hi + 1 < B - 1)
  {
    NoCarry2by1(u.hi, u.lo, d, v);
    rt := u.Value() - (q.hi + 1) * d;
    Candidate2by1(u.hi, u.lo, d, v, q.hi, q.lo, rt);
    WrappedRemainder(u, d, q.hi + 1, Add(q.hi, 1), rt);
    if rt >= 0 { TopCandidate(u.Value(), d, q.hi + 1, rt); }
  }

  /** At most one net correction: a negative candidate remainder is detected, a large one reduced. */
  lemma CorrectionsSettle(q: int, r: Word, q0: Word, d: Word, rt: int)
    requires d >= 0x8000_0000_0000_0000 && 0 < q <= B && (rt >= 0 ==> q < B)
    requires r == if rt >= 0 then rt else rt + B
    requires rt + d >= 0 && rt > q0 - B && (rt < B - d || rt < q0)
    requires rt >= d ==> q < B - 1
    ensures var (quot, rem) := Corrections(if q == B then 0 else q, r, q0, d);
      rem < d &&
      ((quot == q && rem == rt) || (quot == q - 1 && rem == rt + d) || (quot == q + 1 && rem == rt - d))
  {
  }

  /** The estimate (v + 2^64) * u.hi + u.lo fits 128 bits. */
  lemma NoCarry2by1(u1: int, u0: int, d: int, v: int)
    requires 0 <= u1 < d < B && 0 <= u0 < B && 0 <= v && v + B == (B * B - 1) / d
    ensures v * u1 + (u1 * B + u0) < B * B
    ensures v * u1 + (u1 * B + u0) == (v + B) * u1 + u0
  {
    LargestFactorBounds(v + B, d, B * B);
    MulMono(u1, d - 1, v + B);
    assert (v + B) * (d - 1) == (v + B) * d - (v + B);
    if v + B <= B { MulMono(v + B, B, d); MulMono(d, B - 1, B); }
  }

  /** The candidate remainder, scaled by 2^64, is a sum of three small products. */
  lemma Candidate2by1(u1: int, u0: int, d: int, v: int, q1: int, q0: int, rt: int)
    requires 0x8000_0000_0000_0000 <= d < B && 0 <= u1 < d && 0 <= u0 < B && 0 <= q0 < B
    requires v + B == (B * B - 1) / d
    requires q1 * B + q0 == (v + B) * u1 + u0
    requires rt == u1 * B + u0 - (q1 + 1) * d
    ensures rt >= -d && rt > q0 - B
    ensures rt < B - d || rt < q0
  {
    LargestFactorBounds(v + B, d, B * B);
    var k := B * B - (v + B) * d;
    Scaled2by1(u1, u0, d, v, q1, q0, k, rt);
    assert 0 <= u1 * k <= (d - 1) * d by { MulMono(0, u1, k); MulMono(u1, d - 1, k); MulMono(k, d, d - 1); }
    assert 0 <= u0 * (B - d) <= (B - 1) * (B - d) by { MulMono(0, u0, B - d); MulMono(u0, B - 1, B - d); }
    ScaledLower(d, q0, rt);
    ScaledUpper(d, q0, rt);
  }

  lemma ScaledUpper(d: int, q0: int, rt: int)
    requires 0 < d < B && 0 <= q0
    requires B * rt <= (d - 1) * d + (B - 1) * (B - d) + q0 * d - d * B
    ensures rt < B - d || rt < q0
  {
    var m := if q0 < B - d then B - d else q0;
    MulMono(B - d, m, B - d);
    MulMono(q0, m, d);
    assert (d - 1) * d + (B - 1) * (B - d) - d * B == (B - d) * (B - d) - B;
    assert m * (B - d) + m * d == B * m;
    assert B * rt < B * m;
  }

  lemma ScaledLower(d: int, q0: int, rt: int)
    requires 0 < d < B && 0 <= q0 < B
    requires B * rt >= q0 * d - d * B
    ensures rt > q0 - B && rt >= -d
  {
    if rt <= q0 - B {
      assert B * rt <= B * (q0 - B);
      assert q0 * d - d * B == d * (q0 - B);
      MulMono(d + 1, B, B - q0);
      assert false;
    }
    MulMono(0, q0, d);
  }

  lemma Scaled2by1(u1: int, u0: int, d: int, v: int, q1: int, q0: int, k: int, rt: int)
    requires k == B * B - (v + B) * d
    requires q1 * B + q0 == (v + B) * u1 + u0
    requires rt == u1 * B + u0 - (q1 + 1) * d
    ensures B * rt == u1 * k + u0 * (B - d) + q0 * d - d * B
  {
    assert ((v + B) * u1) * d == u1 * ((v + B) * d) by { Assoc(u1, v + B, d); }
    assert (q1 * B + q0) * d == B * (q1 * d) + q0 * d;
    assert ((v + B) * u1 + u0) * d == ((v + B) * u1) * d + u0 * d;
    assert u1 * k == B * B * u1 - u1 * ((v + B) * d);
  }

  /** The wrapped 64-bit subtraction recovers the candidate remainder modulo 2^64. */
  lemma WrappedRemainder(u: U128, d: Word, q: int, qw: Word, rt: int)
    requires 0 < q <= B && rt == u.Value() - q * d
    requires qw == if q == B then 0 else q
    requires -B < rt < B
    ensures Sub(u.lo, Mul(qw, d)) == if rt >= 0 then rt else rt + B
  {
    var c := if q == B then d else 0;
    var n := qw * d;
    assert n == (u.hi - c) * B + (u.lo - rt) by { if q == B { assert q * d == B * d; } }
    if u.lo - rt < 0 {
      WrapUnique(n, u.hi - c - 1, u.lo - rt + B);
    } else if u.lo - rt < B {
      WrapUnique(n, u.hi - c, u.lo - rt);
    } else {
      WrapUnique(n, u.hi - c + 1, u.lo - rt - B);
    }
  }

  /** Whatever correction was applied, quotient and remainder still multiply out to u. */
  lemma Settle(u: int, d: int, q: int, rt: int, quot: int, rem: int)
    requires 0 < d && rt == u - q * d
    requires (quot == q && rem == rt) || (quot == q - 1 && rem == rt + d) || (quot == q + 1 && rem == rt - d)
    ensures u == quot * d + rem
  {
  }

  lemma TopCandidate(u: int, d: int, q: int, rt: int)
    requires 0 < d && rt == u - q * d && u < B * d && rt >= 0
    ensures q < B && (rt >= d ==> q < B - 1)
  {
    if q >= B { MulMono(B, q, d); }
    if q >= B - 1 { MulMono(B - 1, q, d); }
  }

  // ---- 3-by-2 division ----------------------------------------------------------------------

  method Udivrem3by2(u2: Word, u1: Word, u0: Word, d: U128, v: Word) returns (quot: Word, rem: U128)
    requires d.hi >= 0x8000_0000_0000_0000 && u2 * B + u1 < d.Value()
    requires v + B == (B * B * B - 1) / d.Value()
    ensures (u2 * B + u1) * B + u0 == quot * d.Value() + rem.Value()
    ensures rem.Value() < d.Value()
  {
    var q := Umul(v, u2);
    q := Add128(q, U128(u2, u1));
    var r1 := Sub(u1, Mul(q.hi, d.hi));
    var t := Umul(d.lo, q.hi);
    var r := Sub128(Sub128(U128(r1, u0), t), d);
    Corrected3by2(u2, u1, u0, d, v, q, r);
    r1 := r.hi;
    var qhi := Add(q.hi, 1);
    if r1 >= q.lo {
      qhi := Sub(qhi, 1);
      r := Add128(r, d);
    }
    if !Less128(r, d) {
      qhi := Add(qhi, 1);
      r := Sub128(r, d);
    }
    return qhi, r;
  }

  function Corrections3by2(qhi: Word, r: U128, q0: Word, d: U128): (Word, U128)
  {
    var (q1, r1) := if r.hi >= q0 then (Sub(qhi, 1), Add128(r, d)) else (qhi, r);
    if !Less128(r1, d) then (Add(q1, 1), Sub128(r1, d)) else (q1, r1)
  }

  function Remainder3by2(u1: Word, u0: Word, d: U128, q1: Word): U128
  {
    Sub128(Sub128(U128(Sub(u1, Mul(q1, d.hi)), u0), Umul(d.lo, q1)), d)
  }

  lemma Corrected3by2(u2: Word, u1: Word, u0: Word, d: U128, v: Word, q: U128, r: U128)
    requires d.hi >= 0x8000_0000_0000_0000 && u2 * B + u1 < d.Value()
    requires v + B == (B * B * B - 1) / d.Value()
    requires q == Add128(Umul(v, u2), U128(u2, u1))
    requires r == Remainder3by2(u1, u0, d, q.hi)
    ensures var (quot, rem) := Corrections3by2(Add(q.hi, 1), r, q.lo, d);
      (u2 * B + u1) * B + u0 == quot * d.Value() + rem.Value() && rem.Value() < d.Value()
  {
    var rt := Wrapped3by2(u2, u1, u0, d, v, q, r);
    Finish3by2((u2 * B + u1) * B + u0, d, q, r, rt);
  }

  lemma Finish3by2(n: int, d: U128, q: U128, r: U128, rt: int)
    requires d.hi >= 0x8000_0000_0000_0000
    requires rt == n - (q.hi + 1) * d.Value()
    requires r.Value() == if rt >= 0 then rt else rt + B * B
    requires rt + d.Value() >= 0 && rt > q.lo * B - B * B && (rt < B * B - d.Value() || rt < q.lo * B)
    requires (rt >= 0 ==> q.hi + 1 < B) && (rt >= d.Value() ==> q.hi + 1 < B - 1)
    ensures var (quot, rem) := Corrections3by2(Add(q.hi, 1), r, q.lo, d);
      n == quot * d.Value() + rem.Value() && rem.Value() < d.Value()
  {
    CorrectionsSettle3by2(q.hi + 1, r, q.lo, d, rt);
    var (quot, rem) := Corrections3by2(Add(q.hi, 1), r, q.lo, d);
    Settle(n, d.Value(), q.hi + 1, rt, quot, rem.Value());
  }

  lemma CorrectionsSettle3by2(q: int, r: U128, q0: Word, d: U128, rt: int)
    requires d.hi >= 0x8000_0000_0000_0000 && 0 < q <= B && (rt >= 0 ==> q < B)
    requires r.Value() == if rt >= 0 then rt else rt + B * B
    requires rt + d.Value() >= 0 && rt > q0 * B - B * B && (rt < B * B - d.Value() || rt < q0 * B)
    requires rt >= d.Value() ==> q < B - 1
    ensures var (quot, rem) := Corrections3by2(if q == B then 0 else q, r, q0, d);
      rem.Value() < d.Value() &&
      ((quot == q && rem.Value() == rt) || (quot == q - 1 && rem.Value() == rt + d.Value()) ||
       (quot == q + 1 && rem.Value() == rt - d.Value()))
  {
    assert rt < 0 ==> r.hi >= q0;
    assert rt >= 0 && r.hi >= q0 ==> rt < B * B - d.Value();
  }

  lemma Wrapped3by2(u2: Word, u1: Word, u0: Word, d: U128, v: Word, q: U128, r: U128) returns (rt: int)
    requires d.hi >= 0x8000_0000_0000_0000 && u2 * B + u1 < d.Value()
    requires v + B == (B * B * B - 1) / d.Value()
    requires q == Add128(Umul(v, u2), U128(u2, u1))
    requires r == Remainder3by2(u1, u0, d, q.hi)
    ensures rt == (u2 * B + u1) * B + u0 - (q.hi + 1) * d.Value()
    ensures r.Value() == if rt >= 0 then rt else rt + B * B
    ensures rt + d.Value() >= 0 && rt > q.lo * B - B * B && (rt < B * B - d.Value() || rt < q.lo * B)
    ensures (rt >= 0 ==> q.hi + 1 < B) && (rt >= d.Value() ==> q.hi + 1 < B - 1)
  {
    var n := (u2 * B + u1) * B + u0;
    NoCarry3by2(u2, u1, d.Value(), v);
    rt := n - (q.hi + 1) * d.Value();
    Candidate3by2(u2, u1, u0, d.Value(), v, q.hi, q.lo, rt);
    WrappedRemainder3by2(u2, u1, u0, d, q.hi, rt);
    if rt >= 0 { TopCandidate(n, d.Value(), q.hi + 1, rt); }
  }

  lemma NoCarry3by2(u2: int, u1: int, d: int, v: int)
    requires 0x8000_0000_0000_0000 * B <= d < B * B && 0 <= u2 && 0 <= u1 < B && u2 * B + u1 < d
    requires 0 <= v && v + B == (B * B * B - 1) / d
    ensures v * u2 + (u2 * B + u1) < B * B
    ensures v * u2 + (u2 * B + u1) == (v + B) * u2 + u1
  {
    LargestFactorBounds(v + B, d, B * B * B);
    MulMono(u2 * B, d - 1 - u1, v + B);
    assert (v + B) * (d - 1 - u1) == (v + B) * d - (v + B) * (u1 + 1);
    MulMono(B, v + B, u1 + 1);
    assert B * ((v + B) * u2) == (v + B) * (u2 * B);
  }

  lemma Candidate3by2(u2: int, u1: int, u0: int, d: int, v: int, q1: int, q0: int, rt: int)
    requires 0x8000_0000_0000_0000 * B <= d < B * B && 0 <= u2 && 0 <= u1 < B && u2 * B + u1 < d
    requires 0 <= u0 < B && 0 <= q0 < B && v + B == (B * B * B - 1) / d
    requires q1 * B + q0 == (v + B) * u2 + u1
    requires rt == (u2 * B + u1) * B + u0 - (q1 + 1) * d
    ensures rt >= -d && rt > q0 * B - B * B
    ensures rt < B * B - d || rt < q0 * B
  {
    LargestFactorBounds(v + B, d, B * B * B);
    var k := B * B * B - (v + B) * d;
    Scaled3by2(u2, u1, u0, d, v, q1, q0, k, rt);
    ProductNotNegative(u2, k);
    ProductNotNegative(u1, B * B - d);
    ScaledLower3by2(d, q0, rt);
    if d <= B * B - B {
      GapTimesTop(u2, u1, d, k);
      ScaledUpper3by2(u2, u1, u0, d, q0, k, rt);
    } else {
      TopDivisor3by2(u2, u1, u0, d, v, q1, q0, rt);
    }
  }

  lemma ProductNotNegative(a: int, b: int)
    requires 0 <= a && 0 <= b
    ensures 0 <= a * b
  {
  }

  lemma GapTimesTop(u2: int, u1: int, d: int, k: int)
    requires 0 <= u2 && 0 <= d && k <= d && u2 * B + u1 < d
    ensures B * (u2 * k) <= (d - 1 - u1) * d
  {
    MulMono(k, d, u2);
    MulMono(B * u2, d - 1 - u1, d);
    Assoc(B, u2, d);
  }

  lemma Scaled3by2(u2: int, u1: int, u0: int, d: int, v: int, q1: int, q0: int, k: int, rt: int)
    requires k == B * B * B - (v + B) * d
    requires q1 * B + q0 == (v + B) * u2 + u1
    requires rt == (u2 * B + u1) * B + u0 - (q1 + 1) * d
    ensures B * rt == u2 * k + u1 * (B * B - d) + u0 * B + q0 * d - d * B
  {
    assert ((v + B) * u2) * d == u2 * ((v + B) * d) by { Assoc(u2, v + B, d); }
    assert (q1 * B + q0) * d == B * (q1 * d) + q0 * d;
    assert ((v + B) * u2 + u1) * d == ((v + B) * u2) * d + u1 * d;
    assert u2 * k == B * B * B * u2 - u2 * ((v + B) * d);
  }

  lemma ScaledLower3by2(d: int, q0: int, rt: int)
    requires 0 < d < B * B && 0 <= q0 < B
    requires B * rt >= q0 * d - d * B
    ensures rt > q0 * B - B * B && rt >= -d
  {
    assert q0 * d - d * B == d * (q0 - B);
    if rt <= q0 * B - B * B {
      MulMono(d + 1, B * B, B - q0);
      assert false;
    }
    MulMono(0, q0, d);
  }

  lemma ScaledUpper3by2(u2: int, u1: int, u0: int, d: int, q0: int, k: int, rt: int)
    requires 0 < d <= B * B - B && 0 <= u1 < B && 0 <= u0 < B && 0 <= q0
    requires B * rt == u2 * k + u1 * (B * B - d) + u0 * B + q0 * d - d * B
    requires B * (u2 * k) <= (d - 1 - u1) * d
    ensures rt < B * B - d || rt < q0 * B
  {
    var c := B * B * B - B * d - d;
    var x, y, z := u2 * k, u1 * (B * B - d), u1 * c;
    assert (d - 1 - u1) * d + B * y == (d - 1) * d + z by { Regroup(d, u1, y, z); }
    MulMono(u1, B - 1, c);
    LinearUpper(x, y, z, (d - 1) * d, (d - 1 - u1) * d, (B - 1) * c, q0 * d, u0, d, rt);
    ConvexBound3by2(d, q0, c, rt);
  }

  lemma Regroup(d: int, u1: int, y: int, z: int)
    requires y == u1 * (B * B - d) && z == u1 * (B * B * B - B * d - d)
    ensures (d - 1 - u1) * d + B * y == (d - 1) * d + z
  {
    var w := u1 * d;
    assert y == B * B * u1 - w && z == B * B * B * u1 - B * w - w;
    assert (d - 1 - u1) * d == (d - 1) * d - w;
  }

  lemma LinearUpper(x: int, y: int, z: int, dd: int, ud: int, zmax: int, qd: int, u0: int, d: int, rt: int)
    requires B * rt == x + y + u0 * B + qd - d * B && 0 <= u0 < B
    requires B * x <= ud && ud + B * y == dd + z && z <= zmax
    ensures B * B * rt <= dd + zmax + (B - 1) * B * B + B * qd - B * B * d
  {
  }

  lemma ConvexBound3by2(d: int, q0: int, c: int, rt: int)
    requires 0 < d <= B * B - B && 0 <= q0 && c == B * B * B - B * d - d
    requires B * B * rt <= (d - 1) * d + (B - 1) * c + (B - 1) * B * B + B * (q0 * d) - B * B * d
    ensures rt < B * B - d || rt < q0 * B
  {
    var e := B * B - d;
    var m := if q0 * B < e then e else q0 * B;
    assert (d - 1) * d + (B - 1) * c + (B - 1) * B * B - B * B * d == e * e - B * B by { SquareOfGap(d, e, c); }
    assert e * e <= m * e by { MulMono(e, m, e); }
    assert B * (q0 * d) <= m * d by { MulMono(q0 * B, m, d); Assoc(B, q0, d); }
    assert m * e + m * d == B * B * m;
  }

  lemma SquareOfGap(d: int, e: int, c: int)
    requires e == B * B - d && c == B * B * B - B * d - d
    ensures (d - 1) * d + (B - 1) * c + (B - 1) * B * B - B * B * d == e * e - B * B
  {
    assert e * e == d * d - 2 * (B * B * d) + B * B * B * B;
  }

  /** For the top 2^64 - 1 divisors the reciprocal is 0 and the estimate is just u2. */
  lemma TopDivisor3by2(u2: int, u1: int, u0: int, d: int, v: int, q1: int, q0: int, rt: int)
    requires B * B - B < d < B * B && 0 <= u2 && 0 <= u1 < B && 0 <= u0 < B && 0 <= q0 < B
    requires u2 * B + u1 < d && v + B == (B * B * B - 1) / d
    requires q1 * B + q0 == (v + B) * u2 + u1
    requires rt == (u2 * B + u1) * B + u0 - (q1 + 1) * d
    ensures rt < q0 * B
  {
    QuotientUnique(B * B * B - 1, d, B);
    assert v == 0 && q1 == u2 && q0 == u1;
    var e := B * B - d;
    assert rt == u1 * B + u0 - B * B + (u2 + 1) * e;
    MulMono(u2 + 1, B, e);
  }

  lemma WrappedRemainder3by2(u2: Word, u1: Word, u0: Word, d: U128, q1: Word, rt: int)
    requires rt == (u2 * B + u1) * B + u0 - (q1 + 1) * d.Value()
    requires -B * B < rt < B * B
    ensures Remainder3by2(u1, u0, d, q1).Value() == if rt >= 0 then rt else rt + B * B
  {
    var m1 := SubMul(u1, q1, d.hi);
    var x, t := U128(Sub(u1, Mul(q1, d.hi)), u0), Umul(d.lo, q1);
    var y := Sub128(x, t);
    var k := u2 - m1;
    DivisorTimes(q1, d.hi, d.lo);
    ThreeWordGap(x.hi, u2, u1, u0, q1 * d.hi, m1, k);
    Residue(Sub128(y, d).Value(), y.Value(), x.Value(), t.Value(), d.Value(), k, rt);
  }

  lemma DivisorTimes(q1: int, hi: int, lo: int)
    ensures (q1 + 1) * (hi * B + lo) == B * (q1 * hi) + lo * q1 + (hi * B + lo)
  {
  }

  lemma ThreeWordGap(x: int, u2: int, u1: int, u0: int, p: int, m: int, k: int)
    requires x == u1 - p + m * B && k == u2 - m
    ensures x * B + u0 == (u2 * B + u1) * B + u0 - B * p - k * B * B
  {
  }

  lemma SubMul(a: Word, x: Word, y: Word) returns (m: int)
    ensures Sub(a, Mul(x, y)) == a - x * y + m * B
  {
    var n := x * y;
    m := n / B + if n % B <= a then 0 else 1;
  }

  lemma Residue(r: int, xt: int, x: int, t: int, d: int, k: int, rt: int)
    requires 0 <= r < B * B
    requires xt == if t <= x then x - t else x - t + B * B
    requires r == if d <= xt then xt - d else xt - d + B * B
    requires x - t - d == rt - k * B * B
    requires -B * B < rt < B * B
    ensures r == if rt >= 0 then rt else rt + B * B
  {
  }

  // ---- 128-bit division ---------------------------------------------------------------------

  method Udivrem128(x: U128, y: U128) returns (quot: U128, rem: U128)
    requires y.Value() != 0
    ensures x.Value() == quot.Value() * y.Value() + rem.Value()
    ensures rem.Value() < y.Value()
  {
    if y.hi == 0 {
      var r;
      quot, r := Udivrem128ByWord(x, y.lo);
      return quot, U128(0, r);
    }

    if y.hi > x.hi {
      return U128(0, 0), x;
    }

    var lsh := Clz(y.hi);
    if lsh == 0 {
      var q := if y.hi < x.hi || y.lo <= x.lo then 1 else 0;
      return U128(0, q), Sub128(x, if q == 1 then y else U128(0, 0));
    }

    var rsh := 64 - lsh;
    var yn := U128(ShiftIn(y.hi, y.lo, lsh), Shl(y.lo, lsh));
    var xnEx := Shr(x.hi, rsh);
    var xnHi := ShiftIn(x.hi, x.lo, lsh);
    var xnLo := Shl(x.lo, lsh);
    Normalised(x, lsh);
    NormalisedDivisor(y, lsh);

    var v := Reciprocal3by2(yn);
    var q, r := Udivrem3by2(xnEx, xnHi, xnLo, yn, v);
    Unshift(x.Value(), y.Value(), Pow2(lsh), q, r.Value());
    return U128(0, q), Shr128(r, lsh);
  }

  /** The branch for a divisor of one word. */
  method Udivrem128ByWord(x: U128, y: Word) returns (quot: U128, rem: Word)
    requires y != 0
    ensures x.Value() == quot.Value() * y + rem
    ensures rem < y
  {
    var xnEx, xnHi, xnLo, yn;
    var lsh := Clz(y);
    if lsh != 0 {
      var rsh := 64 - lsh;
      xnEx := Shr(x.hi, rsh);
      xnHi := ShiftIn(x.hi, x.lo, lsh);
      xnLo := Shl(x.lo, lsh);
      yn := Shl(y, lsh);
    } else {
      xnEx, xnHi, xnLo, yn := 0, x.hi, x.lo, y;
      ShiftByZero(x.hi, x.lo);
      ShiftByZero(y, y);
    }
    Normalised(x, lsh);
    NormalisedDivisor(U128(y, 0), lsh);
    var v := Reciprocal2by1(yn);
    var q1, r1 := Udivrem2by1(U128(xnEx, xnHi), yn, v);
    var q0, r0 := Udivrem2by1(U128(r1, xnLo), yn, v);
    TwoDigits(x.Value() * Pow2(lsh), xnEx * B + xnHi, xnLo, yn, q1, r1, q0, r0);
    Unshift(x.Value(), y, Pow2(lsh), q1 * B + q0, r0);
    return U128(q1, q0), Shr(r0, lsh);
  }

  /** operator>> of uint128 for shifts below 64. */
  function Shr128(x: U128, s: nat): (y: U128)
    requires s < 64
    ensures y.Value() == x.Value() / Pow2(s)
  {
    Shr128Value(x, s);
    U128(Shr(x.hi, s), ShiftIn(x.hi, x.lo, 64 - s))
  }

  lemma Shr128Value(x: U128, s: nat)
    requires s < 64
    ensures Shr(x.hi, s) * B + ShiftIn(x.hi, x.lo, 64 - s) == x.Value() / Pow2(s)
  {
    var p, q := Pow2(s), Pow2(64 - s);
    ShlExact(x.hi, 64 - s);
    Pow2Split(s);
    RightShiftSplit(x.hi, x.lo, p, q, x.hi / p, Shl(x.hi, 64 - s));
  }

  lemma RightShiftSplit(hi: int, lo: int, p: int, q: int, a: int, h: int)
    requires 1 <= p && p * q == B && hi * q == a * B + h
    ensures a * B + h + lo / p == (hi * B + lo) / p
  {
    var c := lo / p;
    assert (hi * q) * p == hi * B by { Assoc(hi, q, p); }
    assert (a * B + h + c) * p == hi * B + c * p;
    assert lo == c * p + lo % p;
    QuotientUnique(hi * B + lo, p, a * B + h + c);
  }

  lemma ShiftByZero(hi: Word, lo: Word)
    ensures Shr(hi, 64) == 0 && Shl(hi, 0) == hi && ShiftIn(hi, lo, 0) == hi && Shl(lo, 0) == lo
  {
    Pow2Word();
  }

  /** The three shifted words hold the whole of x * 2^s. */
  lemma Normalised(x: U128, s: nat)
    requires s < 64
    ensures (Shr(x.hi, 64 - s) * B + ShiftIn(x.hi, x.lo, s)) * B + Shl(x.lo, s) == x.Value() * Pow2(s)
    ensures Shr(x.hi, 64 - s) < 0x8000_0000_0000_0000
  {
    Pow2Split(s);
    ShlExact(x.hi, s);
    ShlExact(x.lo, s);
    ScaleSplit(x.hi, x.lo, Pow2(s));
  }

  lemma ScaleSplit(hi: int, lo: int, p: int)
    ensures (hi * B + lo) * p == (hi * p) * B + lo * p
  {
  }

  /** Shifting by the count of leading zeros loses nothing and sets the top bit. */
  lemma NormalisedDivisor(y: U128, s: nat)
    requires y.hi > 0 && s == Clz(y.hi)
    ensures ShiftIn(y.hi, y.lo, s) * B + Shl(y.lo, s) == y.Value() * Pow2(s)
    ensures ShiftIn(y.hi, y.lo, s) >= 0x8000_0000_0000_0000
    ensures Shl(y.hi, s) == y.hi * Pow2(s)
  {
    Normalised(y, s);
    ShlExact(y.hi, s);
  }

  lemma TwoDigits(n: int, high: int, low: int, d: int, q1: int, r1: int, q0: int, r0: int)
    requires n == high * B + low && high == q1 * d + r1 && r1 * B + low == q0 * d + r0
    ensures n == (q1 * B + q0) * d + r0
  {
  }

  /** Dividing the shifted operands gives the quotient itself and the remainder shifted. */
  lemma Unshift(x: int, y: int, p: int, q: int, r: int)
    requires 1 <= p && 0 < y && x * p == q * (y * p) + r && 0 <= r < y * p
    ensures x == q * y + r / p && 0 <= r / p < y
  {
    assert r == (x - q * y) * p by { Assoc(q, y, p); }
    if x - q * y < 0 { MulMono(x - q * y, -1, p); }
    if x - q * y >= y { MulMono(y, x - q * y, p); }
    QuotientUnique(r, p, x - q * y);
  }
}
