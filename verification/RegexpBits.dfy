/** The byte operations behind the bitmap macros of head/regexp.h, bit by bit. */
module RegexpBits {
  import opened Words
  import opened RegexpPattern
  import opened RegexpCode
  import opened Masks

  /** b | bittab[k], for a number of `width` bits. */
  function SetBit(b: nat, k: nat): nat
    decreases k
  {
    if k == 0 then b - b % 2 + 1 else 2 * SetBit(b / 2, k - 1) + b % 2
  }

  /** b with its low `width` bits inverted: for 8 bits, b ^ 0377. */
  function Invert(b: nat, width: nat): nat
    decreases width
  {
    if width == 0 then 0 else 2 * Invert(b / 2, width - 1) + 1 - b % 2
  }

  lemma {:induction false} SetBitSets(b: nat, k: nat, width: nat)
    requires k < width && b < Pow2(width)
    ensures SetBit(b, k) < Pow2(width)
    ensures forall j: nat :: HasBit(SetBit(b, k), j) <==> j == k || HasBit(b, j)
    decreases k
  {
    if k > 0 {
      SetBitSets(b / 2, k - 1, width - 1);
      assert SetBit(b, k) / 2 == SetBit(b / 2, k - 1);
    }
  }

  lemma {:induction false} InvertInverts(b: nat, width: nat)
    requires b < Pow2(width)
    ensures Invert(b, width) == Pow2(width) - 1 - b
    ensures forall j: nat :: j < width ==> (HasBit(Invert(b, width), j) <==> !HasBit(b, j))
    decreases width
  {
    if width > 0 {
      InvertInverts(b / 2, width - 1);
      assert Invert(b, width) / 2 == Invert(b / 2, width - 1);
    }
  }

  /** b & 0376 clears the low bit and keeps the others. */
  lemma LowBit(b: nat)
    ensures forall j: nat :: HasBit(b - b % 2, j) <==> j != 0 && HasBit(b, j)
  {
    assert (b - b % 2) / 2 == b / 2 && (b - b % 2) % 2 == 0;
    forall j: nat ensures HasBit(b - b % 2, j) <==> j != 0 && HasBit(b, j) {
      if j > 0 {
        assert HasBit(b - b % 2, j) == HasBit((b - b % 2) / 2, j - 1);
      }
    }
  }

  /** The n bytes at e are the bitmap of the characters in s. */
  ghost predicate BitmapIs(code: seq<byte>, e: nat, n: nat, s: set<byte>) {
    n <= 32 && e + n <= |code| && forall c: byte :: c < 8 * n ==> (IsThere(code, e, c) <==> c in s)
  }

  /** PLACE(c) adds c to the set. */
  lemma PlaceAdds(code: seq<byte>, e: nat, n: nat, s: set<byte>, c: byte)
    requires BitmapIs(code, e, n, s) && c < 8 * n
    ensures SetBit(code[e + c / 8], c % 8) < 256
    ensures BitmapIs(code[e + c / 8 := SetBit(code[e + c / 8], c % 8)], e, n, s + {c})
  {
    var i := e + c / 8;
    assert Pow2(8) == 256;
    SetBitSets(code[i], c % 8, 8);
    var code' := code[i := SetBit(code[i], c % 8)];
    forall d: byte | d < 8 * n ensures IsThere(code', e, d) <==> d in s + {c} {
      if d / 8 == c / 8 {
        assert IsThere(code', e, d) <==> d % 8 == c % 8 || IsThere(code, e, d);
      }
    }
  }
}
