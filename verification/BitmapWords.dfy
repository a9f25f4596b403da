/** The 32-bit words of SA/saio/bitmap.c and the 16 raster functions on them.  A word is its 32 bits in the
    order they appear on the screen, bit 31 first. */
module BitmapWords {

  type Bits = w: seq<bool> | |w| == 32 witness Repeat(32, false)

  function Repeat(n: nat, b: bool): (r: seq<bool>)
    ensures |r| == n && forall i :: 0 <= i < n ==> r[i] == b
  {
    if n == 0 then [] else [b] + Repeat(n - 1, b)
  }

  const ZEROS: Bits := Repeat(32, false)
  const ONES: Bits := Repeat(32, true)

  /** w << n, towards the left of the screen. */
  function Shl(w: Bits, n: nat): (r: Bits)
    requires n <= 32
    ensures forall i :: 0 <= i < 32 ==> r[i] == (i + n < 32 && w[i + n])
  {
    w[n..] + Repeat(n, false)
  }

  /** w >> n, with zeros coming in, as for an unsigned word. */
  function Shr(w: Bits, n: nat): (r: Bits)
    requires n <= 32
    ensures forall i :: 0 <= i < 32 ==> r[i] == (i >= n && w[i - n])
  {
    Repeat(n, false) + w[..32 - n]
  }

  function And(v: Bits, w: Bits): (r: Bits)
    ensures forall i :: 0 <= i < 32 ==> r[i] == (v[i] && w[i])
  {
    seq(32, i requires 0 <= i < 32 => v[i] && w[i])
  }

  function Or(v: Bits, w: Bits): (r: Bits)
    ensures forall i :: 0 <= i < 32 ==> r[i] == (v[i] || w[i])
  {
    seq(32, i requires 0 <= i < 32 => v[i] || w[i])
  }

  function Xor(v: Bits, w: Bits): (r: Bits)
    ensures forall i :: 0 <= i < 32 ==> r[i] == (v[i] != w[i])
  {
    seq(32, i requires 0 <= i < 32 => v[i] != w[i])
  }

  function Not(w: Bits): (r: Bits)
    ensures forall i :: 0 <= i < 32 ==> r[i] == !w[i]
  {
    seq(32, i requires 0 <= i < 32 => !w[i])
  }

  /** op: code is 0 to 15. */
  function Op(code: nat, s: Bits, d: Bits): Bits
    requires code < 16
  {
    match code
    case 0 => ZEROS
    case 1 => And(s, d)
    case 2 => Not(Or(Not(s), d))
    case 3 => s
    case 4 => And(Not(s), d)
    case 5 => d
    case 6 => Xor(s, d)
    case 7 => Or(s, d)
    case 8 => Not(Or(s, d))
    case 9 => Xor(Not(s), d)
    case 10 => Not(d)
    case 11 => And(s, Not(d))
    case 12 => Not(s)
    case 13 => Or(Not(s), d)
    case 14 => Not(And(s, d))
    case _ => ONES
  }

  /** What `op` does to one pixel. */
  function OpBit(code: nat, s: bool, d: bool): bool
    requires code < 16
  {
    if code == 11 then s && !d else Table(code, s, d)
  }

  /** The result table of the hardware: the code's own bits, most significant first, are the results for
      source and destination 00, 01, 10 and 11. */
  function Table(code: nat, s: bool, d: bool): bool
    requires code < 16
  {
    if !s && !d then code / 8 % 2 == 1
    else if !s && d then code / 4 % 2 == 1
    else if s && !d then code / 2 % 2 == 1
    else code % 2 == 1
  }

  /** The function on words is the function on each pixel. */
  lemma OpIsPointwise(code: nat, s: Bits, d: Bits, i: nat)
    requires code < 16 && i < 32
    ensures Op(code, s, d)[i] == OpBit(code, s[i], d[i])
  {}

  /** `op` computes the documented table for every source and destination just when the code is not 11. */
  lemma TableHolds(code: nat)
    requires code < 16
    ensures (forall s, d :: OpBit(code, s, d) == Table(code, s, d)) <==> code != 11
  {
    if code == 11 {
      assert OpBit(11, false, false) != Table(11, false, false);
    }
  }
}
