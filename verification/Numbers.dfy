/** Facts about multiplication, division and powers of two that the solver does not find alone. */
module Numbers {

  lemma MulMono(a: int, x: int, y: int)
    requires 0 <= a && x <= y
    ensures a * x <= a * y
  {}

  lemma MulAssoc(a: int, b: int, c: int)
    ensures a * (b * c) == a * b * c
  {}

  /** Quotient and remainder are determined by the equation they solve. */
  lemma DivModUnique(x: int, q: int, r: int, m: int)
    requires 0 <= r < m && x == q * m + r
    ensures x / m == q && x % m == r
  {
    var d := x / m - q;
    assert x == (x / m) * m + x % m;
    assert d * m == r - x % m;
    if d >= 1 { MulMono(m, 1, d); }
    if d <= -1 { MulMono(m, d, -1); }
  }

  /** x divided by p, rounded down. */
  function Div(x: nat, p: nat): (q: nat)
    requires p > 0
  {
    x / p
  }

  function Pow2(n: nat): (p: nat)
    ensures p >= 1
  {
    if n == 0 then 1 else 2 * Pow2(n - 1)
  }

  lemma {:induction false} Pow2Add(a: nat, b: nat)
    ensures Pow2(a + b) == Pow2(a) * Pow2(b)
  {
    if a > 0 {
      Pow2Add(a - 1, b);
      assert 2 * Pow2(a - 1) * Pow2(b) == 2 * (Pow2(a - 1) * Pow2(b));
    }
  }

  lemma Pow2Mono(a: nat, b: nat)
    requires a <= b
    ensures Pow2(a) <= Pow2(b)
  {
    Pow2Add(a, b - a);
    MulMono(Pow2(a), 1, Pow2(b - a));
  }

  lemma Pow2Is32()
    ensures Pow2(8) == 0x100 && Pow2(16) == 0x1_0000 && Pow2(24) == 0x100_0000 && Pow2(32) == 0x1_0000_0000
  {
    assert Pow2(4) == 16;
    Pow2Add(4, 4);
    Pow2Add(8, 8);
    Pow2Add(16, 8);
    Pow2Add(16, 16);
  }
}
