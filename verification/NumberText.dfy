/** Numbers and their digits: what the printers and parsers of SA/saio/libc.c, SA/dbgmon/rdebug.c and
    SA/prom/commands.c have in common. */
module NumberText {
  import opened Words

  /** What is left of a number in 32 bits. */
  function Low32(v: int): word { v % TWO32 }

  /** The digits belong to the base. */
  predicate Below(ds: seq<nat>, base: nat) {
    forall i :: 0 <= i < |ds| ==> ds[i] < base
  }

  /** The number that digits denote, the first being the most significant. */
  function Value(ds: seq<nat>, base: nat): nat {
    if ds == [] then 0 else Value(ds[..|ds| - 1], base) * base + ds[|ds| - 1]
  }

  /** The digits of a number, without leading zeros. */
  function Digits(n: nat, base: nat): (ds: seq<nat>)
    requires base >= 2
    ensures ds != [] && Below(ds, base)
    decreases n
  {
    if n < base then [n] else
      Quotient(n, base);
      Digits(n / base, base) + [n % base]
  }

  lemma Quotient(n: nat, base: nat)
    requires 2 <= base <= n
    ensures 0 < n / base < n && n == n / base * base + n % base
  {
    var q := n / base;
    DivideBound(n, base, 1);
    assert n == base * q + n % base;
    Doubles(q, base);
  }

  lemma Doubles(q: nat, base: nat)
    requires base >= 2
    ensures base * q >= 2 * q && base * q == q * base
  {
    assert base * q == 2 * q + (base - 2) * q;
    assert (base - 2) * q >= 0;
  }

  /** Digits written are the digits of the number. */
  lemma {:induction false} ValueOfDigits(n: nat, base: nat)
    requires base >= 2
    ensures Value(Digits(n, base), base) == n
    decreases n
  {
    var ds := Digits(n, base);
    if n < base {
      assert ds[..0] == [];
    } else {
      Quotient(n, base);
      ValueOfDigits(n / base, base);
      assert ds[..|ds| - 1] == Digits(n / base, base);
    }
  }

  /** Only zero is written with a leading zero. */
  lemma {:induction false} NoLeadingZero(n: nat, base: nat)
    requires base >= 2
    ensures Digits(n, base)[0] == 0 <==> n == 0
    ensures Digits(0, base) == [0]
    decreases n
  {
    if n >= base {
      Quotient(n, base);
      NoLeadingZero(n / base, base);
    }
  }

  function Power(base: nat, k: nat): nat {
    if k == 0 then 1 else base * Power(base, k - 1)
  }

  /** A number has at most k digits exactly if it is less than the k-th power of the base. */
  lemma {:induction false} DigitCount(n: nat, base: nat, k: nat)
    requires base >= 2 && k > 0
    ensures |Digits(n, base)| <= k <==> n < Power(base, k)
    decreases k
  {
    if k == 1 {
      assert Power(base, 0) == 1;
    } else if n < base {
      PowerAtLeast(base, k);
    } else {
      Quotient(n, base);
      DigitCount(n / base, base, k - 1);
      DivideBound(n, base, Power(base, k - 1));
    }
  }

  lemma {:induction false} PowerAtLeast(base: nat, k: nat)
    requires base >= 2 && k > 0
    ensures Power(base, k) >= base
    decreases k
  {
    if k > 1 {
      PowerAtLeast(base, k - 1);
      assert base * Power(base, k - 1) >= base * 1;
    }
  }

  lemma DivideBound(n: nat, base: nat, p: nat)
    requires base > 0
    ensures n / base < p <==> n < base * p
  {
    var q, r := n / base, n % base;
    assert n == base * q + r;
    if q < p {
      assert base * (q + 1) <= base * p;
    } else {
      assert base * q >= base * p;
    }
  }

  // ----- characters

  /** The character for a digit. */
  function Char(d: nat): char
    requires d < 16
  {
    "0123456789abcdef"[d]
  }

  function Text(ds: seq<nat>): (s: string)
    requires Below(ds, 16)
    ensures |s| == |ds| && forall i :: 0 <= i < |ds| ==> s[i] == Char(ds[i])
  {
    if ds == [] then "" else Text(ds[..|ds| - 1]) + [Char(ds[|ds| - 1])]
  }

  lemma TextMore(ds: seq<nat>, d: nat)
    requires d < 16 && Below(ds, 16)
    ensures Text(ds + [d]) == Text(ds) + [Char(d)]
  {
    assert (ds + [d])[..|ds|] == ds;
  }

  function Repeat(c: char, n: nat): (s: string)
    ensures |s| == n && forall i :: 0 <= i < n ==> s[i] == c
  {
    if n == 0 then "" else Repeat(c, n - 1) + [c]
  }
}
