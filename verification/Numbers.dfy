/** Powers of two, the 32-bit word, and division of naturals. */
module Numbers {
  /** One past the greatest unsigned 32-bit word. */
  const WORD: nat := 0x1_0000_0000

  function Pow2(n: nat): (p: nat)
    ensures p >= 1
  {
    if n == 0 then 1 else 2 * Pow2(n - 1)
  }

  lemma Pow2Values()
    ensures Pow2(0) == 1 && Pow2(1) == 2 && Pow2(2) == 4 && Pow2(3) == 8 && Pow2(4) == 16
    ensures Pow2(5) == 32 && Pow2(6) == 64 && Pow2(7) == 128 && Pow2(8) == 256
  {
    assert Pow2(1) == 2 * Pow2(0) && Pow2(2) == 2 * Pow2(1) && Pow2(3) == 2 * Pow2(2);
    assert Pow2(4) == 2 * Pow2(3) && Pow2(5) == 2 * Pow2(4) && Pow2(6) == 2 * Pow2(5);
    assert Pow2(7) == 2 * Pow2(6) && Pow2(8) == 2 * Pow2(7);
  }

  lemma Euclid(r: nat, c: nat)
    requires c >= 1
    ensures r == r % c + r / c * c && r % c < c
  {
  }

  lemma Grows(a: nat, b: nat, p: nat)
    requires a <= b
    ensures a * p <= b * p
  {
  }

  /** Quotient and remainder are the only such pair. */
  lemma DivUnique(v: nat, p: nat, q: nat, u: nat)
    requires v == q * p + u && u < p
    ensures v / p == q && v % p == u
  {
    var q', u' := v / p, v % p;
    assert v == q' * p + u';
    if q' > q {
      Grows(q + 1, q', p);
    } else if q' < q {
      Grows(q' + 1, q, p);
    }
  }

  lemma SmallMod(a: nat, m: nat)
    requires a < m
    ensures a % m == a
  {
  }
}
