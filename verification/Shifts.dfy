/** Bit shifts of 64-bit words as arithmetic, leading-zero counts, and the normalising shift that
    moves bits from one word into the next. */
module Shifts {
  import opened Arithmetic
  import opened Words

  lemma Pow2Word()
    ensures Pow2(63) == 0x8000_0000_0000_0000 && Pow2(64) == B
  {
    assert Pow2(8) == 0x100;
    Pow2Sum(8, 8);
    Pow2Sum(16, 16);
    Pow2Sum(32, 32);
    assert Pow2(64) == 2 * Pow2(63);
  }

  lemma {:induction false} Pow2Split(s: nat)
    requires s <= 64
    ensures Pow2(s) * Pow2(64 - s) == B
    ensures s < 64 ==> Pow2(s) <= 0x8000_0000_0000_0000
  {
    Pow2Word();
    Pow2Sum(s, 64 - s);
    if s < 64 {
      Pow2Sum(s, 63 - s);
      MulMono(1, Pow2(63 - s), Pow2(s));
    }
  }

  /** x << s and x >> s on a 64-bit word. */
  function Shl(x: Word, s: nat): Word { Wrap(x * Pow2(s)) }

  function Shr(x: Word, s: nat): (y: Word)
  {
    ShrBound(x, Pow2(s));
    x / Pow2(s)
  }

  lemma ShrBound(x: int, p: int)
    requires 0 <= x && 1 <= p
    ensures 0 <= x / p <= x
  {
    assert x == (x / p) * p + x % p;
    if x / p > x { MulMono(x + 1, x / p, p); MulMono(1, p, x + 1); }
    if x / p < 0 { MulMono(x / p, -1, p); }
  }

  /** A left shift drops exactly the bits that the complementary right shift keeps. */
  lemma {:induction false} ShlExact(x: Word, s: nat)
    requires s <= 64
    ensures Shl(x, s) <= B - Pow2(s)
    ensures x * Pow2(s) == Shr(x, 64 - s) * B + Shl(x, s)
    ensures Shr(x, 64 - s) < Pow2(s)
  {
    Pow2Split(s);
    var q := Pow2(64 - s);
    SplitProduct(x, Pow2(s), q);
    WrapUnique(x * Pow2(s), x / q, x % q * Pow2(s));
  }

  lemma SplitProduct(x: int, p: int, q: int)
    requires 0 <= x < B && 1 <= p && 1 <= q && p * q == B
    ensures 0 <= x % q * p <= B - p
    ensures x * p == (x / q) * B + x % q * p
    ensures 0 <= x / q < p
  {
    var a, b := x / q, x % q;
    assert x == a * q + b;
    assert (a * q) * p == a * B by { Assoc(a, q, p); }
    assert (a * q + b) * p == (a * q) * p + b * p;
    MulMono(0, b, p);
    MulMono(b, q - 1, p);
    if a >= p { MulMono(p, a, q); }
    ShrBound(x, q);
  }

  /** (hi << s) | (lo >> (64 - s)): the operands occupy disjoint bits, so `|` adds them. */
  function ShiftIn(hi: Word, lo: Word, s: nat): (y: Word)
    requires s <= 64
  {
    ShlExact(hi, s);
    ShlExact(lo, s);
    Shl(hi, s) + Shr(lo, 64 - s)
  }

  lemma DisjointBitsAdd(x: bv64, y: bv64, s: bv64)
    requires 0 < s < 64
    ensures (x << s) | (y >> (64 - s)) == (x << s) + (y >> (64 - s))
  {
  }

  /** Number of leading zero bits of a nonzero word. */
  function Clz(x: Word): (n: nat)
    requires x > 0
    ensures n < 64 && 0x8000_0000_0000_0000 <= x * Pow2(n) < B
    decreases B - x
  {
    if x >= 0x8000_0000_0000_0000 then 0
    else
      var m := Clz(2 * x);
      ClzStep(x, m);
      m + 1
  }

  lemma {:induction false} ClzStep(x: int, m: nat)
    requires 0 < x && 0x8000_0000_0000_0000 <= 2 * x * Pow2(m) < B && m < 64
    ensures m < 63 && x * Pow2(m + 1) == 2 * x * Pow2(m)
  {
    assert x * Pow2(m + 1) == x * (2 * Pow2(m));
    if m == 63 {
      Pow2Word();
      MulMono(2, 2 * x, Pow2(63));
    }
  }
}
