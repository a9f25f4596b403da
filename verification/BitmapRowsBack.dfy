/** One row of `bitop` from right to left, for a rectangle moved to the right over itself. */
module BitmapRowsBack {
  import opened BitmapWords
  import opened BitmapRows

  /** Cells above `stop` are done; the others are as they were. */
  ghost predicate DoneAbove(m': seq<Bits>, m: seq<Bits>, s: seq<Bits>, f: nat, a: nat, b: nat, n: nat, stop: int)
    requires f < 16
  {
    && |m'| == |m| && a + n <= 32 * |s| && b + n <= 32 * |m|
    && forall c, i :: 0 <= c < |m| && 0 <= i < 32 ==>
         m'[c][i] == if c > stop then Target(m, s, f, a, b, n, c, i) else m[c][i]
  }

  /** A word about to be stored at cell c, right in all bits from b on. */
  ghost predicate ReadyDown(w: Bits, m: seq<Bits>, s: seq<Bits>, f: nat, a: nat, b: nat, n: nat, c: nat)
    requires f < 16
  {
    && c < |m| && a + n <= 32 * |s|
    && forall i :: 0 <= i < 32 ==> w[i] == Target(m, s, f, a, b, n, c, i) || 32 * c + i < b
  }

  lemma NothingDone(m: seq<Bits>, s: seq<Bits>, f: nat, a: nat, b: nat, n: nat, c: nat)
    requires f < 16 && a + n <= 32 * |s| && b + n <= 32 * |m| && b + n <= 32 * (c + 1)
    ensures DoneAbove(m, m, s, f, a, b, n, c)
  {}

  lemma StillFresh(m': seq<Bits>, m: seq<Bits>, f: nat, a: nat, b: nat, n: nat, stop: int, c: nat)
    requires f < 16 && DoneAbove(m', m, m, f, a, b, n, stop) && c < |m| && c <= stop
    ensures Fresh(m'[c], c, m, a, n)
  {}

  lemma CellUntouched(m': seq<Bits>, m: seq<Bits>, s: seq<Bits>, f: nat, a: nat, b: nat, n: nat, c: nat)
    requires f < 16 && DoneAbove(m', m, s, f, a, b, n, c) && c < |m|
    ensures |m'| == |m| && m'[c] == m[c]
  {}

  lemma StoreWord(m': seq<Bits>, m: seq<Bits>, s: seq<Bits>, f: nat, a: nat, b: nat, n: nat, c: nat, w: Bits)
    requires f < 16 && DoneAbove(m', m, s, f, a, b, n, c) && ReadyDown(w, m, s, f, a, b, n, c) && b <= 32 * c
    ensures DoneAbove(m'[c := w], m, s, f, a, b, n, c - 1)
  {}

  method Store(dst: array<Bits>, dptr: nat, t2: Bits,
               ghost m: seq<Bits>, ghost s: seq<Bits>, ghost f: nat, ghost a: nat, ghost b: nat, ghost n: nat)
    requires f < 16 && dptr < dst.Length && b <= 32 * dptr
    requires DoneAbove(dst[..], m, s, f, a, b, n, dptr) && ReadyDown(t2, m, s, f, a, b, n, dptr)
    modifies dst
    ensures DoneAbove(dst[..], m, s, f, a, b, n, dptr - 1)
  {
    StoreWord(dst[..], m, s, f, a, b, n, dptr, t2);
    ghost var before := dst[..];
    dst[dptr] := t2;
    assert dst[..] == before[dptr := t2];
  }

  /** The rightmost word of a row, under the right mask, which keeps its first ex bits. */
  method MaskedWord(dst: array<Bits>, dptr: nat, t1: Bits, f: nat, dmask1: Bits,
                    ghost m: seq<Bits>, ghost s: seq<Bits>, ghost a: nat, ghost b: nat, ghost n: nat, ghost ex: nat)
    returns (t2: Bits, t4: Bits)
    requires f < 16 && m == dst[..] && dptr < |m| && a + n <= 32 * |s|
    requires ex < 32 && b + n == 32 * dptr + ex && dmask1 == Not(Shr(ONES, ex)) && Aligned(t1, dptr, s, a, b, n)
    ensures ReadyDown(t2, m, s, f, a, b, n, dptr) && t4 == m[dptr]
  {
    t4 := dst[dptr];
    var t3 := And(t4, dmask1);
    t2 := Xor(t4, t3);
    ghost var d := t3;
    t3 := Op(f, t1, t3);
    t2 := Or(t2, And(t3, dmask1));
    forall i | 0 <= i < 32 ensures t2[i] == Target(m, s, f, a, b, n, dptr, i) || 32 * dptr + i < b {
      OpIsPointwise(f, t1, d, i);
    }
  }

  method WholeWord(dst: array<Bits>, dptr: nat, t1: Bits, f: nat,
                   ghost m: seq<Bits>, ghost s: seq<Bits>, ghost a: nat, ghost b: nat, ghost n: nat)
    returns (t2: Bits, t4: Bits)
    requires f < 16 && dptr < dst.Length && 32 * (dptr + 1) <= b + n && DoneAbove(dst[..], m, s, f, a, b, n, dptr)
    requires Aligned(t1, dptr, s, a, b, n)
    ensures ReadyDown(t2, m, s, f, a, b, n, dptr) && t4 == m[dptr]
  {
    t4 := dst[dptr];
    t2 := Op(f, t1, t4);
    CellUntouched(dst[..], m, s, f, a, b, n, dptr);
    forall i | 0 <= i < 32 ensures t2[i] == Target(m, s, f, a, b, n, dptr, i) || 32 * dptr + i < b {
      OpIsPointwise(f, t1, t4, i);
    }
  }

  /** The leftmost word of a row, under the left mask. */
  lemma LastWord(m': seq<Bits>, m: seq<Bits>, s: seq<Bits>, f: nat, a: nat, b: nat, n: nat, c: nat, t2: Bits, dx: nat)
    requires f < 16 && DoneAbove(m', m, s, f, a, b, n, c) && ReadyDown(t2, m, s, f, a, b, n, c)
    requires dx < 32 && b == 32 * c + dx
    ensures var dmask := Shr(ONES, dx);
            Copied(m'[c := Or(And(m[c], Not(dmask)), And(t2, dmask))], m, s, f, a, b, n)
  {
    var dmask := Shr(ONES, dx);
    var t3 := Or(And(m[c], Not(dmask)), And(t2, dmask));
    forall i | 0 <= i < 32 ensures t3[i] == Target(m, s, f, a, b, n, c, i) {}
    var m'' := m'[c := t3];
    forall d, i | 0 <= d < |m| && 0 <= i < 32 ensures m''[d][i] == Target(m, s, f, a, b, n, d, i) {
      if d != c { assert m''[d][i] == m'[d][i]; }
    }
  }

  method FinishRow(dst: array<Bits>, dptr: nat, t2: Bits, t4: Bits, dmask: Bits,
                   ghost m: seq<Bits>, ghost s: seq<Bits>, ghost f: nat, ghost a: nat, ghost b: nat, ghost n: nat, ghost dx: nat)
    requires f < 16 && DoneAbove(dst[..], m, s, f, a, b, n, dptr) && ReadyDown(t2, m, s, f, a, b, n, dptr)
    requires dptr < dst.Length && t4 == m[dptr] && dx < 32 && b == 32 * dptr + dx && dmask == Shr(ONES, dx)
    modifies dst
    ensures Copied(dst[..], m, s, f, a, b, n)
  {
    hide DoneAbove, ReadyDown, Copied;
    var t3 := And(t4, Not(dmask));
    t3 := Or(t3, And(t2, dmask));
    LastWord(dst[..], m, s, f, a, b, n, dptr, t2, dx);
    ghost var before := dst[..];
    dst[dptr] := t3;
    assert dst[..] == before[dptr := t3];
  }

  /** The cell `sh` holds, for each of the three ways of shifting. */
  ghost predicate Holds(sh: Bits, sptr: int, sign: bool, srotate: nat, s: seq<Bits>, a: nat, n: nat) {
    Fresh(sh, if sign then sptr + 1 else sptr, s, a, n) || (!sign && srotate == 0)
  }

  method FetchFirst(src: array<Bits>, sptr0: nat, sign: bool, srotate: nat,
                    ghost s: seq<Bits>, ghost a: nat, ghost b: nat, ghost n: nat, ghost c: nat)
    returns (t1: Bits, sh: Bits, sptr: int)
    requires s == src[..] && a + n <= 32 * |s| && srotate < 32 && (sign ==> 0 < srotate)
    requires sptr0 < |s| && a + n <= 32 * (sptr0 + 1)
    requires if sign then a - b == 32 * (sptr0 - c) + srotate else b - a == 32 * (c - sptr0) + srotate
    requires !sign && srotate != 0 ==> sptr0 > 0
    ensures sptr == sptr0 - 1 && Aligned(t1, c, s, a, b, n) && Holds(sh, sptr, sign, srotate, s, a, n)
  {
    sptr := sptr0;
    if sign {
      sh := src[sptr];
      sptr := sptr - 1;
      t1 := Shl(sh, srotate);
      JoinEnd(s, a, b, n, sptr0, c, srotate, sh);
    } else if srotate == 0 {
      t1 := src[sptr];
      sptr := sptr - 1;
      sh := t1;
      JoinNone(s, a, b, n, sptr0, c, t1);
    } else {
      t1 := Shr(src[sptr], srotate);
      sptr := sptr - 1;
      sh := src[sptr];
      t1 := Or(t1, Shl(sh, 32 - srotate));
      JoinLeft(s, a, b, n, sptr0 - 1, c, 32 - srotate, sh, src[sptr0]);
    }
  }

  method FetchLeft(src: array<Bits>, sptr0: nat, sign: bool, srotate: nat, sh0: Bits,
                   ghost s: seq<Bits>, ghost a: nat, ghost b: nat, ghost n: nat, ghost c: nat)
    returns (t1: Bits, sh: Bits, sptr: int)
    requires a + n <= 32 * |s| && src.Length == |s| && srotate < 32 && (sign ==> 0 < srotate) && sptr0 < |s|
    requires if sign then a - b == 32 * (sptr0 - c) + srotate else b - a == 32 * (c - sptr0) + srotate
    requires !sign && srotate != 0 ==> sptr0 > 0
    requires var at := if !sign && srotate != 0 then sptr0 - 1 else sptr0; Fresh(src[at], at, s, a, n)
    requires Holds(sh0, sptr0, sign, srotate, s, a, n)
    ensures sptr == sptr0 - 1 && Aligned(t1, c, s, a, b, n) && Holds(sh, sptr, sign, srotate, s, a, n)
  {
    sptr, sh := sptr0, sh0;
    if sign {
      t1 := Shr(sh, 32 - srotate);
      sh := src[sptr];
      sptr := sptr - 1;
      t1 := Or(t1, Shl(sh, srotate));
      JoinLeft(s, a, b, n, sptr0, c, srotate, sh, sh0);
    } else if srotate == 0 {
      t1 := src[sptr];
      sptr := sptr - 1;
      JoinNone(s, a, b, n, sptr0, c, t1);
    } else {
      t1 := Shr(sh, srotate);
      sptr := sptr - 1;
      sh := src[sptr];
      t1 := Or(t1, Shl(sh, 32 - srotate));
      JoinLeft(s, a, b, n, sptr0 - 1, c, 32 - srotate, sh, sh0);
    }
  }

  /** A row from right to left.  The source stretch may overlap the destination from the left. */
  method RowBackward(src: array<Bits>, dst: array<Bits>, sptr0: int, dptr0: int, hcount_store: int, sign: bool, srotate: nat,
                     dmask: Bits, dmask1: Bits, f: nat, ghost a: nat, ghost b: nat, ghost n: nat, ghost words: nat)
    returns (sptr: int, dptr: int)
    requires f < 16 && 0 < words && 32 * (words - 1) < hcount_store <= 32 * words
    requires 0 <= sptr0 < src.Length && words <= dptr0 + 1 <= dst.Length
    requires sptr0 >= (if !sign && srotate != 0 then words else words - 1)
    requires var ex, ey := b + n - 32 * dptr0, a + n - 32 * sptr0;
             && 0 <= ex < 32 && 0 <= ey < 32 && sign == (ex < ey) && srotate == (if ex < ey then ey - ex else ex - ey)
             && dmask1 == Not(Shr(ONES, ex))
    requires var dx := b - 32 * (dptr0 - words + 1); 0 <= dx < 32 && dmask == Shr(ONES, dx)
    requires a + n <= 32 * src.Length && b + n <= 32 * dst.Length
    requires src == dst ==> a <= b
    modifies dst
    ensures Copied(dst[..], old(dst[..]), old(src[..]), f, a, b, n)
    ensures sptr == sptr0 - words && dptr == dptr0 - words + 1
  {
    hide DoneAbove, ReadyDown, Holds, Fresh, Aligned, Copied;
    ghost var m, s := dst[..], src[..];
    dptr := dptr0;
    var hcount := hcount_store;
    var t1: Bits, sh: Bits, t2: Bits, t4: Bits;
    t1, sh, sptr := FetchFirst(src, sptr0, sign, srotate, s, a, b, n, dptr0);
    hcount := hcount - 32;
    t2, t4 := MaskedWord(dst, dptr, t1, f, dmask1, m, s, a, b, n, b + n - 32 * dptr0);
    NothingDone(m, s, f, a, b, n, dptr);
    while hcount > 0
      invariant dptr <= dptr0 && hcount == hcount_store - 32 * (dptr0 - dptr + 1)
      invariant sptr == sptr0 - (dptr0 - dptr) - 1 && dptr0 - dptr < words
      invariant DoneAbove(dst[..], m, s, f, a, b, n, dptr)
      invariant src != dst ==> src[..] == s
      invariant ReadyDown(t2, m, s, f, a, b, n, dptr) && t4 == m[dptr]
      invariant Holds(sh, sptr, sign, srotate, s, a, n)
      decreases hcount
    {
      Store(dst, dptr, t2, m, s, f, a, b, n);
      dptr := dptr - 1;
      ghost var next := if !sign && srotate != 0 then sptr - 1 else sptr;
      assert src[next] == src[..][next];
      if src == dst {
        StillFresh(dst[..], m, f, a, b, n, dptr, next);
      } else {
        CellFresh(s, next, a, n);
      }
      t1, sh, sptr := FetchLeft(src, sptr, sign, srotate, sh, s, a, b, n, dptr);
      hcount := hcount - 32;
      t2, t4 := WholeWord(dst, dptr, t1, f, m, s, a, b, n);
    }
    FinishRow(dst, dptr, t2, t4, dmask, m, s, f, a, b, n, b - 32 * dptr);
  }
}
