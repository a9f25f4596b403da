/** Powers of two, and masks that are one less, as ring sizes (SA/saio/cmc.c) and alignments
    (SA/saio/common_scsi.c) give them. */
module Masks {
  import opened Words

  /** A C `&` of two values that are not negative. */
  function And(a: nat, b: nat): (r: nat)
    ensures r <= b
  {
    if a == 0 || b == 0 then 0 else 2 * And(a / 2, b / 2) + (if a % 2 == 1 && b % 2 == 1 then 1 else 0)
  }

  function Pow2(k: nat): (r: nat)
    ensures r > 0
  {
    if k == 0 then 1 else 2 * Pow2(k - 1)
  }

  ghost predicate PowerOfTwo(n: nat) {
    exists k: nat :: n == Pow2(k)
  }

  lemma {:induction false} MaskIsModulo(a: nat, k: nat)
    ensures And(a, Pow2(k) - 1) == a % Pow2(k)
    decreases k
  {
    if k == 0 {
      assert And(a, 0) == 0;
    } else {
      var p, n := Pow2(k - 1), Pow2(k);
      AndHalves(a, p, n);
      MaskIsModulo(a / 2, k - 1);
      HalfModulo(a, p, n);
    }
  }

  lemma AndHalves(a: nat, p: nat, n: nat)
    requires p > 0 && n == 2 * p
    ensures And(a, n - 1) == 2 * And(a / 2, p - 1) + a % 2
  {
    assert (n - 1) / 2 == p - 1 && (n - 1) % 2 == 1;
  }

  lemma HalfModulo(a: nat, p: nat, n: nat)
    requires p > 0 && n == 2 * p
    ensures a % n == 2 * (a / 2 % p) + a % 2
  {
    var h := a / 2;
    var q, r := h / p, 2 * (h % p) + a % 2;
    assert h == p * q + h % p;
    assert n * q == 2 * (p * q);
    QuotientIs(a, n, q, r);
  }
}
