/** Bytes and 32-bit words, and a quotient known by its remainder. */
module Words {

  const TWO32 := 0x1_0000_0000

  type byte = b: int | 0 <= b < 0x100

  type word = w: int | 0 <= w < TWO32

  lemma QuotientIs(n: int, d: int, q: int, r: int)
    requires d > 0 && n == q * d + r && 0 <= r < d
    ensures n / d == q && n % d == r
  {
    var e := n / d - q;
    assert e * d + (n % d - r) == 0 by { assert (n / d) * d == q * d + e * d; }
    assert e >= 1 ==> e * d >= d;
    assert e <= -1 ==> e * d <= 0 - d;
  }
}
