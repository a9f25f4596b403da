/** One row of `bitop`: the word loops of SA/saio/bitmap.c, left to right and right to left, proved against
    a copy of bits.  Memory is a sequence of words; bit address 32 * c + i is bit i of cell c. */
module BitmapRows {
  import opened BitmapWords

  function BitAt(m: seq<Bits>, addr: nat): bool
    requires addr < 32 * |m|
  {
    m[addr / 32][addr % 32]
  }

  lemma BitAtCell(m: seq<Bits>, c: nat, i: nat)
    requires c < |m| && i < 32
    ensures 32 * c + i < 32 * |m| && BitAt(m, 32 * c + i) == m[c][i]
  {}

  /** The bits from b to b + n of a copy from a to b with function f. */
  ghost predicate Copied(m': seq<Bits>, m: seq<Bits>, s: seq<Bits>, f: nat, a: nat, b: nat, n: nat)
    requires f < 16
  {
    && |m'| == |m| && a + n <= 32 * |s| && b + n <= 32 * |m|
    && forall c, i :: 0 <= c < |m| && 0 <= i < 32 ==> m'[c][i] == Target(m, s, f, a, b, n, c, i)
  }

  /** What bit i of cell c must become. */
  ghost function Target(m: seq<Bits>, s: seq<Bits>, f: nat, a: nat, b: nat, n: nat, c: nat, i: nat): bool
    requires f < 16 && c < |m| && i < 32 && a + n <= 32 * |s|
  {
    if b <= 32 * c + i < b + n then OpBit(f, BitAt(s, 32 * c + i - b + a), m[c][i]) else m[c][i]
  }

  /** w is cell c of s, as far as the bits of the source stretch go. */
  ghost predicate Fresh(w: Bits, c: int, s: seq<Bits>, a: nat, n: nat) {
    forall i :: 0 <= i < 32 && a <= 32 * c + i < a + n && 0 <= c < |s| ==> w[i] == s[c][i]
  }

  /** w holds the source bits that belong at cell c of the destination. */
  ghost predicate Aligned(w: Bits, c: nat, s: seq<Bits>, a: nat, b: nat, n: nat)
    requires a + n <= 32 * |s|
  {
    forall i :: 0 <= i < 32 && b <= 32 * c + i < b + n ==> w[i] == BitAt(s, 32 * c + i - b + a)
  }

  /** Two neighbouring source words, shifted left by k and joined. */
  lemma JoinLeft(s: seq<Bits>, a: nat, b: nat, n: nat, sc: int, dc: nat, k: nat, left: Bits, right: Bits)
    requires a + n <= 32 * |s| && 0 < k < 32 && a - b == 32 * (sc - dc) + k
    requires Fresh(left, sc, s, a, n) && Fresh(right, sc + 1, s, a, n)
    ensures Aligned(Or(Shl(left, k), Shr(right, 32 - k)), dc, s, a, b, n)
    ensures Aligned(Or(Shr(right, 32 - k), Shl(left, k)), dc, s, a, b, n)
  {
    assert Or(Shr(right, 32 - k), Shl(left, k)) == Or(Shl(left, k), Shr(right, 32 - k));
    var joined := Or(Shl(left, k), Shr(right, 32 - k));
    forall i | 0 <= i < 32 && b <= 32 * dc + i < b + n ensures joined[i] == BitAt(s, 32 * dc + i - b + a)
    {
      var addr := 32 * dc + i - b + a;
      if i + k < 32 {
        assert addr == 32 * sc + (i + k);
        BitAtCell(s, sc, i + k);
      } else {
        assert addr == 32 * (sc + 1) + (i + k - 32);
        BitAtCell(s, sc + 1, i + k - 32);
      }
    }
  }

  /** The same for a shift by nothing. */
  lemma JoinNone(s: seq<Bits>, a: nat, b: nat, n: nat, sc: int, dc: nat, w: Bits)
    requires a + n <= 32 * |s| && a - b == 32 * (sc - dc)
    requires Fresh(w, sc, s, a, n)
    ensures Aligned(w, dc, s, a, b, n)
  {
    forall i | 0 <= i < 32 && b <= 32 * dc + i < b + n ensures w[i] == BitAt(s, 32 * dc + i - b + a) {
      assert 32 * dc + i - b + a == 32 * sc + i;
      BitAtCell(s, sc, i);
    }
  }

  /** Only the left word, shifted left: enough when the stretch ends inside it. */
  lemma JoinEnd(s: seq<Bits>, a: nat, b: nat, n: nat, sc: int, dc: nat, k: nat, left: Bits)
    requires a + n <= 32 * |s| && 0 < k < 32 && a - b == 32 * (sc - dc) + k
    requires Fresh(left, sc, s, a, n) && a + n <= 32 * (sc + 1)
    ensures Aligned(Shl(left, k), dc, s, a, b, n)
  {
    var shifted := Shl(left, k);
    forall i | 0 <= i < 32 && b <= 32 * dc + i < b + n ensures shifted[i] == BitAt(s, 32 * dc + i - b + a) {
      assert 32 * dc + i - b + a == 32 * sc + (i + k);
      BitAtCell(s, sc, i + k);
    }
  }

  /** Only the right word, shifted right: enough when the stretch starts inside it. */
  lemma JoinStart(s: seq<Bits>, a: nat, b: nat, n: nat, sc: int, dc: nat, k: nat, right: Bits)
    requires a + n <= 32 * |s| && 0 <= k < 32 && b - a == 32 * (dc - sc) + k
    requires Fresh(right, sc, s, a, n) && 32 * sc <= a
    ensures Aligned(Shr(right, k), dc, s, a, b, n)
  {
    var shifted := Shr(right, k);
    forall i | 0 <= i < 32 && b <= 32 * dc + i < b + n ensures shifted[i] == BitAt(s, 32 * dc + i - b + a) {
      assert 32 * dc + i - b + a == 32 * sc + (i - k);
      BitAtCell(s, sc, i - k);
    }
  }

  /** Cells below `stop` are done; the others are as they were. */
  ghost predicate DoneBelow(m': seq<Bits>, m: seq<Bits>, s: seq<Bits>, f: nat, a: nat, b: nat, n: nat, stop: int)
    requires f < 16
  {
    && |m'| == |m| && a + n <= 32 * |s| && b + n <= 32 * |m|
    && forall c, i :: 0 <= c < |m| && 0 <= i < 32 ==>
         m'[c][i] == if c < stop then Target(m, s, f, a, b, n, c, i) else m[c][i]
  }

  /** A word about to be stored at cell c, right in the bits of the destination from `from` to `to`. */
  ghost predicate Ready(w: Bits, m: seq<Bits>, s: seq<Bits>, f: nat, a: nat, b: nat, n: nat, c: nat)
    requires f < 16
  {
    && c < |m| && a + n <= 32 * |s|
    && forall i :: 0 <= i < 32 ==> w[i] == Target(m, s, f, a, b, n, c, i) || 32 * c + i >= b + n
  }

  /** A source cell not yet overwritten, as far as the stretch goes. */
  lemma StillFresh(m': seq<Bits>, m: seq<Bits>, f: nat, a: nat, b: nat, n: nat, stop: int, c: nat)
    requires f < 16 && DoneBelow(m', m, m, f, a, b, n, stop) && c < |m|
    requires stop <= c || a + n <= b
    ensures Fresh(m'[c], c, m, a, n)
  {}

  /** The first word of a row, under the left mask. */
  lemma FirstWord(t1: Bits, t4: Bits, m: seq<Bits>, s: seq<Bits>, f: nat, a: nat, b: nat, n: nat, c: nat, dx: nat)
    requires f < 16 && c < |m| && a + n <= 32 * |s| && dx < 32 && b == 32 * c + dx
    requires t4 == m[c] && Aligned(t1, c, s, a, b, n)
    ensures var dmask := Shr(ONES, dx);
            var t3 := And(t4, dmask);
            Ready(Or(Xor(t4, t3), And(Op(f, t1, t3), dmask)), m, s, f, a, b, n, c)
  {
    var dmask := Shr(ONES, dx);
    var t3 := And(t4, dmask);
    var t2 := Or(Xor(t4, t3), And(Op(f, t1, t3), dmask));
    forall i | 0 <= i < 32 ensures t2[i] == Target(m, s, f, a, b, n, c, i) || 32 * c + i >= b + n {
      OpIsPointwise(f, t1, t3, i);
    }
  }

  /** The words after it. */
  lemma NextWord(t1: Bits, t4: Bits, m: seq<Bits>, s: seq<Bits>, f: nat, a: nat, b: nat, n: nat, c: nat)
    requires f < 16 && c < |m| && a + n <= 32 * |s| && b <= 32 * c
    requires t4 == m[c] && Aligned(t1, c, s, a, b, n)
    ensures Ready(Op(f, t1, t4), m, s, f, a, b, n, c)
  {
    forall i | 0 <= i < 32 ensures Op(f, t1, t4)[i] == Target(m, s, f, a, b, n, c, i) || 32 * c + i >= b + n {
      OpIsPointwise(f, t1, t4, i);
    }
  }

  lemma StoreWord(m': seq<Bits>, m: seq<Bits>, s: seq<Bits>, f: nat, a: nat, b: nat, n: nat, c: nat, w: Bits)
    requires f < 16 && DoneBelow(m', m, s, f, a, b, n, c) && Ready(w, m, s, f, a, b, n, c) && 32 * (c + 1) <= b + n
    ensures DoneBelow(m'[c := w], m, s, f, a, b, n, c + 1)
  {}

  /** The last word of a row, under the right mask. */
  lemma LastWord(m': seq<Bits>, m: seq<Bits>, s: seq<Bits>, f: nat, a: nat, b: nat, n: nat, c: nat, t2: Bits, dmask1: Bits)
    requires f < 16 && DoneBelow(m', m, s, f, a, b, n, c) && Ready(t2, m, s, f, a, b, n, c)
    requires 32 * c <= b + n <= 32 * (c + 1) && forall i :: 0 <= i < 32 ==> (dmask1[i] <==> 32 * c + i < b + n)
    ensures Copied(m'[c := Or(And(m[c], Not(dmask1)), And(t2, dmask1))], m, s, f, a, b, n)
  {
    var t3 := Or(And(m[c], Not(dmask1)), And(t2, dmask1));
    forall i | 0 <= i < 32 ensures t3[i] == Target(m, s, f, a, b, n, c, i) {}
    var m'' := m'[c := t3];
    forall d, i | 0 <= d < |m| && 0 <= i < 32 ensures m''[d][i] == Target(m, s, f, a, b, n, d, i) {
      if d != c { assert m''[d][i] == m'[d][i]; }
    }
  }

  /** The source bits for destination cell c, when c is not the first: `sh` is the source word before. */
  method FetchRight(src: array<Bits>, sptr0: nat, sign: bool, srotate: nat, sh0: Bits,
                    ghost s: seq<Bits>, ghost a: nat, ghost b: nat, ghost n: nat, ghost c: nat)
    returns (t1: Bits, sh: Bits, sptr: nat)
    requires a + n <= 32 * |s| && src.Length == |s| && srotate < 32 && (sign ==> 0 < srotate)
    requires if sign then sptr0 + 1 < |s| && a - b == 32 * (sptr0 - c) + srotate
             else sptr0 < |s| && b - a == 32 * (c - sptr0) + srotate
    requires Fresh(src[if sign then sptr0 + 1 else sptr0], if sign then sptr0 + 1 else sptr0, s, a, n)
    requires Fresh(sh0, if sign then sptr0 else sptr0 - 1, s, a, n) || (!sign && srotate == 0)
    ensures sptr == sptr0 + 1 && Aligned(t1, c, s, a, b, n)
    ensures Fresh(sh, if sign then sptr else sptr - 1, s, a, n) || (!sign && srotate == 0)
  {
    sptr, sh := sptr0, sh0;
    if sign {
      t1 := Shl(sh, srotate);
      sptr := sptr + 1;
      sh := src[sptr];
      t1 := Or(t1, Shr(sh, 32 - srotate));
      JoinLeft(s, a, b, n, sptr0, c, srotate, sh0, sh);
    } else if srotate == 0 {
      t1 := src[sptr];
      sptr := sptr + 1;
      JoinNone(s, a, b, n, sptr0, c, t1);
    } else {
      t1 := Shl(sh, 32 - srotate);
      sh := src[sptr];
      sptr := sptr + 1;
      t1 := Or(t1, Shr(sh, srotate));
      JoinLeft(s, a, b, n, sptr0 - 1, c, 32 - srotate, sh0, sh);
    }
  }

  lemma NothingDone(m: seq<Bits>, s: seq<Bits>, f: nat, a: nat, b: nat, n: nat, c: nat)
    requires f < 16 && a + n <= 32 * |s| && b + n <= 32 * |m| && 32 * c <= b
    ensures DoneBelow(m, m, s, f, a, b, n, c)
  {}

  /** The source bits for the first destination cell. */
  method FetchFirst(src: array<Bits>, sptr0: nat, sign: bool, srotate: nat,
                    ghost s: seq<Bits>, ghost a: nat, ghost b: nat, ghost n: nat, ghost c: nat)
    returns (t1: Bits, sh: Bits, sptr: nat)
    requires s == src[..] && a + n <= 32 * |s| && srotate < 32 && (sign ==> 0 < srotate) && 32 * sptr0 <= a
    requires if sign then sptr0 + 1 < |s| && a - b == 32 * (sptr0 - c) + srotate
             else sptr0 < |s| && b - a == 32 * (c - sptr0) + srotate
    ensures sptr == sptr0 + 1 && Aligned(t1, c, s, a, b, n)
    ensures Fresh(sh, if sign then sptr else sptr - 1, s, a, n) || (!sign && srotate == 0)
  {
    sptr := sptr0;
    if sign {
      t1 := Shl(src[sptr], srotate);
      sptr := sptr + 1;
      sh := src[sptr];
      t1 := Or(t1, Shr(sh, 32 - srotate));
      JoinLeft(s, a, b, n, sptr0, c, srotate, src[sptr0], sh);
    } else {
      sh := src[sptr];
      sptr := sptr + 1;
      t1 := Shr(sh, srotate);
      JoinStart(s, a, b, n, sptr0, c, srotate, sh);
    }
  }

  /** A cell of an array that has not changed at all. */
  lemma CellFresh(s: seq<Bits>, c: nat, a: nat, n: nat)
    requires c < |s|
    ensures Fresh(s[c], c, s, a, n)
  {}

  method MaskedWord(dst: array<Bits>, dptr: nat, t1: Bits, f: nat, dmask: Bits,
                    ghost m: seq<Bits>, ghost s: seq<Bits>, ghost a: nat, ghost b: nat, ghost n: nat, ghost dx: nat)
    returns (t2: Bits, t4: Bits)
    requires f < 16 && m == dst[..] && dptr < |m| && a + n <= 32 * |s|
    requires dx < 32 && b == 32 * dptr + dx && dmask == Shr(ONES, dx) && Aligned(t1, dptr, s, a, b, n)
    ensures Ready(t2, m, s, f, a, b, n, dptr) && t4 == m[dptr]
  {
    t4 := dst[dptr];
    var t3 := And(t4, dmask);
    t2 := Xor(t4, t3);
    FirstWord(t1, t4, m, s, f, a, b, n, dptr, dx);
    t3 := Op(f, t1, t3);
    t2 := Or(t2, And(t3, dmask));
  }

  method WholeWord(dst: array<Bits>, dptr: nat, t1: Bits, f: nat,
                   ghost m: seq<Bits>, ghost s: seq<Bits>, ghost a: nat, ghost b: nat, ghost n: nat)
    returns (t2: Bits, t4: Bits)
    requires f < 16 && dptr < dst.Length && b <= 32 * dptr && DoneBelow(dst[..], m, s, f, a, b, n, dptr)
    requires Aligned(t1, dptr, s, a, b, n)
    ensures Ready(t2, m, s, f, a, b, n, dptr) && t4 == m[dptr]
  {
    t4 := dst[dptr];
    t2 := Op(f, t1, t4);
    CellUntouched(dst[..], m, s, f, a, b, n, dptr);
    NextWord(t1, t4, m, s, f, a, b, n, dptr);
  }

  method Store(dst: array<Bits>, dptr: nat, t2: Bits,
               ghost m: seq<Bits>, ghost s: seq<Bits>, ghost f: nat, ghost a: nat, ghost b: nat, ghost n: nat)
    requires f < 16 && dptr < dst.Length && 32 * (dptr + 1) <= b + n
    requires DoneBelow(dst[..], m, s, f, a, b, n, dptr) && Ready(t2, m, s, f, a, b, n, dptr)
    modifies dst
    ensures DoneBelow(dst[..], m, s, f, a, b, n, dptr + 1)
  {
    StoreWord(dst[..], m, s, f, a, b, n, dptr, t2);
    ghost var before := dst[..];
    dst[dptr] := t2;
    assert dst[..] == before[dptr := t2];
  }

  /** A row from left to right.  The source stretch may overlap the destination from the right, or lie
      wholly to its left. */
  method RowForward(src: array<Bits>, dst: array<Bits>, sptr0: int, dptr0: int, hcount_store: int, sign: bool, srotate: nat,
                    dmask: Bits, dmask1: Bits, f: nat, ghost a: nat, ghost b: nat, ghost n: nat, ghost words: nat)
    returns (sptr: int, dptr: int)
    requires f < 16 && 0 <= sptr0 && 0 <= dptr0
    requires 32 * dptr0 <= b < 32 * dptr0 + 32 && 32 * sptr0 <= a < 32 * sptr0 + 32
    requires var dx, sx := b - 32 * dptr0, a - 32 * sptr0;
             && hcount_store == n + dx && sign == (dx < sx) && srotate == (if dx < sx then sx - dx else dx - sx)
             && dmask == Shr(ONES, dx)
    requires RightMask(hcount_store, dmask1)
    requires WordCount(hcount_store, words)
             && dptr0 + words <= dst.Length && sptr0 + words <= src.Length && (sign ==> sptr0 + words < src.Length)
    requires src == dst ==> a >= b || a + n <= b
    modifies dst
    ensures Copied(dst[..], old(dst[..]), old(src[..]), f, a, b, n)
    ensures sptr == sptr0 + words && dptr == dptr0 + words - 1
  {
    hide DoneBelow, Ready, Fresh, Aligned, Copied, RightMask;
    ghost var m, s := dst[..], src[..];
    dptr := dptr0;
    var hcount := hcount_store;
    var t1: Bits, sh: Bits, t2: Bits, t4: Bits;
    t1, sh, sptr := FetchFirst(src, sptr0, sign, srotate, s, a, b, n, dptr0);
    hcount := hcount - 32;
    t2, t4 := MaskedWord(dst, dptr, t1, f, dmask, m, s, a, b, n, b - 32 * dptr0);
    NothingDone(m, s, f, a, b, n, dptr);
    while hcount > 0
      invariant dptr0 <= dptr && hcount == hcount_store - 32 * (dptr - dptr0 + 1)
      invariant sptr == sptr0 + (dptr - dptr0) + 1 && dptr - dptr0 < words
      invariant DoneBelow(dst[..], m, s, f, a, b, n, dptr)
      invariant src != dst ==> src[..] == s
      invariant Ready(t2, m, s, f, a, b, n, dptr) && t4 == m[dptr]
      invariant Fresh(sh, if sign then sptr else sptr - 1, s, a, n) || (!sign && srotate == 0)
      decreases hcount
    {
      Store(dst, dptr, t2, m, s, f, a, b, n);
      dptr := dptr + 1;
      ghost var next := if sign then sptr + 1 else sptr;
      assert src[next] == src[..][next];
      if src == dst {
        StillFresh(dst[..], m, f, a, b, n, dptr, next);
      } else {
        CellFresh(s, next, a, n);
      }
      t1, sh, sptr := FetchRight(src, sptr, sign, srotate, sh, s, a, b, n, dptr);
      hcount := hcount - 32;
      t2, t4 := WholeWord(dst, dptr, t1, f, m, s, a, b, n);
    }
    FinishRow(dst, dptr, t2, t4, dmask1, m, s, f, a, b, n, hcount_store, dptr - dptr0);
  }

  /** The store under the right mask that ends a row; the word is q words after the row's first. */
  method FinishRow(dst: array<Bits>, dptr: nat, t2: Bits, t4: Bits, dmask1: Bits,
                   ghost m: seq<Bits>, ghost s: seq<Bits>, ghost f: nat, ghost a: nat, ghost b: nat, ghost n: nat,
                   ghost h: nat, ghost q: nat)
    requires f < 16 && DoneBelow(dst[..], m, s, f, a, b, n, dptr) && Ready(t2, m, s, f, a, b, n, dptr) && t4 == m[dptr]
    requires RightMask(h, dmask1) && h <= 32 * q + 32 && (32 * q < h || q == h == 0)
    requires dptr < dst.Length && 32 * dptr - 32 * q == b + n - h
    modifies dst
    ensures Copied(dst[..], m, s, f, a, b, n)
  {
    hide DoneBelow, Ready, Copied;
    var t3 := And(t4, Not(dmask1));
    t3 := Or(t3, And(t2, dmask1));
    LastMask(h, q, dmask1);
    LastWord(dst[..], m, s, f, a, b, n, dptr, t2, dmask1);
    ghost var before := dst[..];
    dst[dptr] := t3;
    assert dst[..] == before[dptr := t3];
  }

  /** The number of destination words of a row that ends h bits after the start of its first word. */
  ghost predicate WordCount(h: int, words: int) {
    if h == 0 then words == 1 else 32 * (words - 1) < h <= 32 * words
  }

  /** The right mask for a row that ends h bits after the start of its first word. */
  ghost predicate RightMask(h: int, mask: Bits) {
    h >= 0 && mask == if h % 32 == 0 && h != 0 then ONES else Not(Shr(ONES, h % 32))
  }

  /** It keeps the bits up to the end of the row in the word that begins 32 * q bits after the first one. */
  lemma LastMask(h: nat, q: nat, mask: Bits)
    requires RightMask(h, mask) && h <= 32 * q + 32 && (32 * q < h || q == h == 0)
    ensures forall i :: 0 <= i < 32 ==> (mask[i] <==> 32 * q + i < h)
  {
    if h == 32 * q + 32 {
      Remainder(q + 1, 0, h);
    } else {
      Remainder(q, h - 32 * q, h);
    }
  }

  lemma Remainder(q: nat, r: nat, h: nat)
    requires h == 32 * q + r && r < 32
    ensures h % 32 == r && h / 32 == q
  {}

  lemma CellUntouched(m': seq<Bits>, m: seq<Bits>, s: seq<Bits>, f: nat, a: nat, b: nat, n: nat, c: nat)
    requires f < 16 && DoneBelow(m', m, s, f, a, b, n, c) && c < |m|
    ensures |m'| == |m| && m'[c] == m[c]
  {}
}
