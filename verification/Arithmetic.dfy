/** Products, quotients and powers of two, shared by the other modules. */
module Arithmetic {

  lemma MulMono(a: int, b: int, c: int)
    requires a <= b && 0 <= c
    ensures a * c <= b * c
  {
  }

  lemma Assoc(a: int, b: int, c: int)
    ensures (a * b) * c == a * (b * c)
  {
  }

  lemma DivisionUnique(n: int, k: int, m: int, r: int)
    requires 0 <= r < m && n == k * m + r
    ensures n / m == k && n % m == r
  {
    var q := n / m;
    assert n == q * m + n % m;
    if q > k { MulMono(k + 1, q, m); }
    if q < k { MulMono(q + 1, k, m); }
  }

  lemma QuotientUnique(n: int, d: int, q: int)
    requires 0 < d && q * d <= n < (q + 1) * d
    ensures n / d == q
  {
    DivisionUnique(n, q, d, n - q * d);
  }

  function Pow2(n: nat): (p: nat)
    ensures p >= 1
  {
    if n == 0 then 1 else 2 * Pow2(n - 1)
  }

  lemma {:induction false} Pow2Sum(a: nat, b: nat)
    ensures Pow2(a + b) == Pow2(a) * Pow2(b)
    decreases b
  {
    if b > 0 { Pow2Sum(a, b - 1); }
  }

  lemma DivideTwice(v: nat, a: nat, b: nat)
    requires a > 0 && b > 0
    ensures a * b > 0 && (v / a) / b == v / (a * b)
  {
    var q, r := v / a, v % a;
    var x, y := q / b, q % b;
    assert q == x * b + y && v == q * a + r;
    assert v == x * (a * b) + (y * a + r) by {
      assert (x * b + y) * a == x * (a * b) + y * a by { Assoc(x, b, a); }
    }
    MulMono(y, b - 1, a);
    MulMono(0, y, a);
    assert a * b == (b - 1) * a + a;
    DivisionUnique(v, x, a * b, y * a + r);
  }

  // ---- Bits as numbers ----------------------------------------------------------------------------

  /** The number whose binary digits these are, the highest first. */
  function Number(b: seq<bool>): (n: nat)
    ensures n < Pow2(|b|)
  {
    if b == [] then 0 else 2 * Number(b[..|b| - 1]) + if b[|b| - 1] then 1 else 0
  }

  lemma {:induction false} NumberSplit(b: seq<bool>, n: nat)
    requires n <= |b|
    ensures Number(b) == Number(b[..n]) * Pow2(|b| - n) + Number(b[n..])
    decreases |b|
  {
    if n == |b| {
      assert b[..n] == b && b[n..] == [];
    } else {
      var init := b[..|b| - 1];
      NumberSplit(init, n);
      assert init[..n] == b[..n] && init[n..] == b[n..][..|b[n..]| - 1];
      Assoc(2, Number(b[..n]), Pow2(|init| - n));
      Swap(Number(b[..n]), Pow2(|init| - n));
    }
  }

  lemma Swap(a: int, b: int)
    ensures a * (2 * b) == 2 * (a * b)
  {
  }

  lemma {:induction false} NumberLead(b: seq<bool>)
    requires |b| > 0
    ensures Number(b) == (if b[0] then Pow2(|b| - 1) else 0) + Number(b[1..])
  {
    NumberSplit(b, 1);
    assert b[..1] == [b[0]] && [b[0]][..0] == [];
    assert Number([b[0]]) == if b[0] then 1 else 0;
  }

  /** Of two numbers that part at digit n the one with the 1 there is greater, by less than what the
      digits from n on can hold. */
  lemma {:induction false} NumberParts(a: seq<bool>, b: seq<bool>, n: nat)
    requires |a| == |b| && n < |a| && a[..n] == b[..n] && !a[n] && b[n]
    ensures 0 < Number(b) - Number(a) < Pow2(|a| - n)
  {
    NumberSplit(a, n);
    NumberSplit(b, n);
    NumberLead(a[n..]);
    NumberLead(b[n..]);
  }

  lemma {:induction false} Pow2Monotone(m: nat, n: nat)
    requires m <= n
    ensures Pow2(m) <= Pow2(n)
    decreases n - m
  {
    if m < n { Pow2Monotone(m, n - 1); }
  }
}
