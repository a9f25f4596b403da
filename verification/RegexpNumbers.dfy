/** The numbers of an interval are read in 32-bit arithmetic: what that does to long ones. */
module RegexpNumbers {
  import opened Words
  import opened RegexpPattern
  import opened RegexpParse

  predicate AllDigits(ds: seq<byte>) {
    forall i :: 0 <= i < |ds| ==> IsDigit(ds[i])
  }

  /** The number the digits after `v` write. */
  function ValueFrom(v: nat, ds: seq<byte>): nat
    requires AllDigits(ds)
    decreases |ds|
  {
    if ds == [] then v else ValueFrom(10 * v + (ds[0] - ZERO), ds[1..])
  }

  /** What the reader makes of a number whose true value is v. */
  function Accepted(v: nat, stop: byte, pos: nat): Number {
    if Wrap(v) > 255 then BadNumber(11) else Number(Wrap(v) % 256, stop, pos)
  }

  lemma WrapStep(i: int, v: int, d: int)
    requires i == Wrap(v)
    ensures Wrap(10 * i + d) == Wrap(10 * v + d)
  {
    var q := (v + 0x8000_0000) / 0x1_0000_0000;
    assert v == i + q * 0x1_0000_0000;
    assert 10 * v + d + 0x8000_0000 == 10 * i + d + 0x8000_0000 + (10 * q) * 0x1_0000_0000;
    WrapPeriod(10 * i + d, 10 * q);
  }

  lemma WrapPeriod(x: int, k: int)
    ensures Wrap(x + k * 0x1_0000_0000) == Wrap(x)
  {}

  /** Only the value modulo 2^32 is seen. */
  lemma {:induction false} DigitsModulo(src: seq<byte>, p: nat, i: int, v: nat, ds: seq<byte>, stop: byte)
    requires i == Wrap(v) && ds != [] && AllDigits(ds) && (stop == BACKSLASH || stop == COMMA)
    requires p + |ds| < |src| && src[p..p + |ds|] == ds && src[p + |ds|] == stop
    ensures Digits(src, p, i) == Accepted(ValueFrom(v, ds), stop, p + |ds| + 1)
    decreases |ds|
  {
    assert src[p] == ds[0];
    WrapStep(i, v, ds[0] - ZERO);
    if |ds| > 1 {
      assert src[p + 1] == ds[1] && src[p + 1..p + |ds|] == ds[1..];
      DigitsModulo(src, p + 1, Wrap(10 * i + src[p] - ZERO), 10 * v + (ds[0] - ZERO), ds[1..], stop);
    } else {
      assert ds[1..] == [];
    }
  }

  /** A bound is read as written exactly when it is at most 255.  Up to 2^31 a larger one is refused; beyond,
      its value wraps round, and 4294967297 repetitions are read as one. */
  lemma BoundReadExactly(src: seq<byte>, p: nat, ds: seq<byte>, stop: byte)
    requires ds != [] && AllDigits(ds) && (stop == BACKSLASH || stop == COMMA)
    requires p + |ds| < |src| && src[p..p + |ds|] == ds && src[p + |ds|] == stop
    ensures var n := Digits(src, p, 0);
            && (n.Number? && n.value == ValueFrom(0, ds) && n.pos == p + |ds| + 1 <==> ValueFrom(0, ds) <= 255)
            && (255 < ValueFrom(0, ds) < 0x8000_0000 ==> n == BadNumber(11))
            && (ValueFrom(0, ds) == 4294967297 ==> n == Number(1, stop, p + |ds| + 1))
  {
    DigitsModulo(src, p, 0, 0, ds, stop);
  }
}
