/** `bitop` of SA/saio/bitmap.c: a rectangle of one bitmap combined into another, or into itself. */
module BitmapOp {
  import opened BitmapWords
  import opened BitmapRows
  import opened BitmapRowsBack
  import opened BitmapGeometry

  /** One call: the two bitmaps, the source rectangle's origin and size, the destination point, the function. */
  datatype Job = Job(sb: Bitmap, db: Bitmap, o: Point, w: int, h: int, p: Point, f: nat)

  ghost predicate GoodJob(j: Job, s0: seq<Bits>, m0: seq<Bits>) {
    && j.f < 16 && Fits(j.sb, j.o.x, j.o.y, j.w, j.h) && Fits(j.db, j.p.x, j.p.y, j.w, j.h)
    && |s0| == j.sb.mem.Length && |m0| == j.db.mem.Length
  }

  /** The source address for row y of the destination. */
  function SrcRow(j: Job, y: int): int {
    Addr(j.sb, j.o.x, y - j.p.y + j.o.y)
  }

  function DstRow(j: Job, y: int): int {
    Addr(j.db, j.p.x, y)
  }

  lemma RowFits(j: Job, s0: seq<Bits>, m0: seq<Bits>, y: int)
    requires GoodJob(j, s0, m0) && j.p.y <= y < j.p.y + j.h
    ensures 0 <= SrcRow(j, y) && SrcRow(j, y) + j.w <= 32 * |s0|
    ensures 0 <= DstRow(j, y) && DstRow(j, y) + j.w <= 32 * |m0|
    ensures RowStart(j.sb, y - j.p.y + j.o.y) >= 1 && RowStart(j.sb, y - j.p.y + j.o.y) + j.sb.width < |s0|
    ensures RowStart(j.db, y) >= 1 && RowStart(j.db, y) + j.db.width < |m0|
  {
    RowInside(j.sb, j.o.x, j.o.y, j.w, j.h, y - j.p.y + j.o.y);
    RowInside(j.db, j.p.x, j.p.y, j.w, j.h, y);
  }

  lemma RowInside(bm: Bitmap, x: int, y0: int, w: int, h: int, y: int)
    requires Fits(bm, x, y0, w, h) && y0 <= y < y0 + h
    ensures RowStart(bm, y) >= bm.base && RowStart(bm, y) + bm.width < bm.mem.Length
  {
    assert y * bm.width >= 0;
    if y + 1 < y0 + h { RowsApart(bm, y + 1, y0 + h); }
    NextRow(bm, y);
  }

  /** What bit i of cell c of the destination's memory must become. */
  ghost function Value(j: Job, s0: seq<Bits>, m0: seq<Bits>, c: int, i: int): bool
    requires GoodJob(j, s0, m0) && 0 <= c < |m0| && 0 <= i < 32
  {
    if InRect(j.db, j.p, j.w, j.h, c, i) then
      RowFits(j, s0, m0, RowOf(j.db, c));
      OpBit(j.f, BitAt(s0, SrcRow(j, RowOf(j.db, c)) + ColumnOf(j.db, c, i) - j.p.x), m0[c][i])
    else m0[c][i]
  }

  /** The rows from lo to hi of the destination are done, and nothing else has changed. */
  ghost predicate RowsDone(j: Job, m: seq<Bits>, s0: seq<Bits>, m0: seq<Bits>, lo: int, hi: int)
    requires GoodJob(j, s0, m0)
  {
    |m| == |m0| && forall c, i :: 0 <= c < |m0| && 0 <= i < 32 ==>
      m[c][i] == if lo <= RowOf(j.db, c) < hi then Value(j, s0, m0, c, i) else m0[c][i]
  }

  lemma NoRows(j: Job, s0: seq<Bits>, m0: seq<Bits>, y: int)
    requires GoodJob(j, s0, m0)
    ensures RowsDone(j, m0, s0, m0, y, y)
  {}

  /** The source bits of row y are still what they were at the start. */
  ghost predicate SourceIntact(j: Job, s: seq<Bits>, s0: seq<Bits>, m0: seq<Bits>, y: int)
    requires GoodJob(j, s0, m0) && j.p.y <= y < j.p.y + j.h
  {
    && |s| == |s0| && 0 <= SrcRow(j, y) && SrcRow(j, y) + j.w <= 32 * |s0|
    && forall addr :: SrcRow(j, y) <= addr < SrcRow(j, y) + j.w ==> BitAt(s, addr) == BitAt(s0, addr)
  }

  /** One bit, when row y is done after rows that do not include it. */
  lemma BitStep(j: Job, m: seq<Bits>, m': seq<Bits>, s: seq<Bits>, s0: seq<Bits>, m0: seq<Bits>, lo: int, hi: int, y: int,
                c: nat, i: nat)
    requires GoodJob(j, s0, m0) && RowsDone(j, m, s0, m0, lo, hi) && j.p.y <= y < j.p.y + j.h && !(lo <= y < hi)
    requires SourceIntact(j, s, s0, m0, y) && c < |m0| && i < 32
    requires DstRow(j, y) >= 0 && Copied(m', m, s, j.f, SrcRow(j, y), DstRow(j, y), j.w)
    ensures m'[c][i] == if RowOf(j.db, c) == y then Value(j, s0, m0, c, i) else m[c][i]
  {
    var a, b := SrcRow(j, y), DstRow(j, y);
    assert m'[c][i] == Target(m, s, j.f, a, b, j.w, c, i);
    hide Copied, RowsDone, GoodJob, Fits;
    InRow(j, s0, m0, y, c, i);
    if b <= 32 * c + i < b + j.w {
      RowsElsewhere(j, m, s0, m0, lo, hi, c, i);
      var addr := 32 * c + i - b + a;
      assert BitAt(s, addr) == BitAt(s0, addr);
    } else if RowOf(j.db, c) == y {
      RowsElsewhere(j, m, s0, m0, lo, hi, c, i);
    }
  }

  lemma RowsElsewhere(j: Job, m: seq<Bits>, s0: seq<Bits>, m0: seq<Bits>, lo: int, hi: int, c: nat, i: nat)
    requires GoodJob(j, s0, m0) && RowsDone(j, m, s0, m0, lo, hi) && c < |m0| && i < 32
    requires !(lo <= RowOf(j.db, c) < hi)
    ensures |m| == |m0| && m[c][i] == m0[c][i]
  {}

  /** The value of a bit of row y, in terms of the two stretches of addresses. */
  lemma InRow(j: Job, s0: seq<Bits>, m0: seq<Bits>, y: int, c: nat, i: nat)
    requires GoodJob(j, s0, m0) && j.p.y <= y < j.p.y + j.h && c < |m0| && i < 32
    ensures var a, b := SrcRow(j, y), DstRow(j, y);
            && 0 <= a && a + j.w <= 32 * |s0|
            && (b <= 32 * c + i < b + j.w ==>
                  RowOf(j.db, c) == y && Value(j, s0, m0, c, i) == OpBit(j.f, BitAt(s0, 32 * c + i - b + a), m0[c][i]))
            && (!(b <= 32 * c + i < b + j.w) && RowOf(j.db, c) == y ==> Value(j, s0, m0, c, i) == m0[c][i])
  {
    RowStretch(j.db, j.p, j.w, j.h, y, c, i);
    RowInBit(j.db, c, i);
    RowFits(j, s0, m0, y);
  }

  /** One more row, below or above those done. */
  lemma RowStep(j: Job, m: seq<Bits>, m': seq<Bits>, s: seq<Bits>, s0: seq<Bits>, m0: seq<Bits>, lo: int, hi: int, y: int)
    requires GoodJob(j, s0, m0) && RowsDone(j, m, s0, m0, lo, hi) && j.p.y <= y < j.p.y + j.h && lo <= hi
    requires y == hi || y == lo - 1
    requires SourceIntact(j, s, s0, m0, y)
    requires DstRow(j, y) >= 0 && Copied(m', m, s, j.f, SrcRow(j, y), DstRow(j, y), j.w)
    ensures RowsDone(j, m', s0, m0, if y == hi then lo else y, if y == hi then hi + 1 else hi)
  {
    assert |m'| == |m| == |m0|;
    forall c, i | 0 <= c < |m0| && 0 <= i < 32
      ensures m'[c][i] == if RowOf(j.db, c) == y then Value(j, s0, m0, c, i) else m[c][i]
    {
      BitStep(j, m, m', s, s0, m0, lo, hi, y, c, i);
    }
    hide Copied, Value, SourceIntact;
  }

  // ----- overlap within one bitmap

  predicate Disjoint(j: Job) {
    !(j.o.x < j.p.x + j.w && j.p.x < j.o.x + j.w && j.o.y < j.p.y + j.h && j.p.y < j.o.y + j.h)
  }

  lemma IntactApart(j: Job, s0: seq<Bits>, m0: seq<Bits>, y: int)
    requires GoodJob(j, s0, m0) && j.p.y <= y < j.p.y + j.h
    ensures SourceIntact(j, s0, s0, m0, y)
  {
    RowFits(j, s0, m0, y);
  }

  /** Within one bitmap, the source of row y has not been overwritten: it is not among the rows done, or the
      rectangles do not meet. */
  lemma IntactSame(j: Job, m: seq<Bits>, m0: seq<Bits>, lo: int, hi: int, y: int)
    requires GoodJob(j, m0, m0) && j.sb == j.db && j.p.y <= y < j.p.y + j.h && RowsDone(j, m, m0, m0, lo, hi)
    requires Disjoint(j) || !(lo <= y - j.p.y + j.o.y < hi)
    ensures SourceIntact(j, m, m0, m0, y)
  {
    RowFits(j, m0, m0, y);
    forall addr | SrcRow(j, y) <= addr < SrcRow(j, y) + j.w ensures BitAt(m, addr) == BitAt(m0, addr) {
      BitInRow(j.sb, y - j.p.y + j.o.y, addr / 32, addr % 32);
    }
  }

  /** The source stretch of a row lies at or after the destination's, or wholly before it. */
  lemma ForwardSafe(j: Job, m0: seq<Bits>, y: int)
    requires GoodJob(j, m0, m0) && j.sb == j.db && j.p.y <= y < j.p.y + j.h
    requires Disjoint(j) || j.o.y != j.p.y || j.o.x >= j.p.x
    ensures SrcRow(j, y) >= DstRow(j, y) || SrcRow(j, y) + j.w <= DstRow(j, y)
  {
    if j.o.y < j.p.y {
      RowsApart(j.db, y - j.p.y + j.o.y, y);
    } else if j.o.y > j.p.y {
      RowsApart(j.db, y, y - j.p.y + j.o.y);
    }
  }

  // ----- the masks and counts of a call

  lemma MaskEmpty(k: nat)
    requires k < 32
    ensures Not(Shr(ONES, k)) == ZEROS <==> k == 0
  {
    if k > 0 {
      assert Not(Shr(ONES, k))[0] != ZEROS[0];
    }
  }

  /** The destination words of a row that ends h bits after the start of its first word. */
  function Words(h: nat): nat {
    if h % 32 == 0 && h != 0 then h / 32 else h / 32 + 1
  }

  /** The bounds that the pointers of row y keep to. */
  lemma ForwardBounds(j: Job, s0: seq<Bits>, m0: seq<Bits>, y: int)
    requires GoodJob(j, s0, m0) && j.p.y <= y < j.p.y + j.h
    ensures var sptr := RowStart(j.sb, y - j.p.y + j.o.y) + j.o.x / 32;
            var dptr := RowStart(j.db, y) + j.p.x / 32;
            var dx, sx := j.p.x % 32, j.o.x % 32;
            var words := Words(j.w + dx);
            && 32 * dptr + dx == DstRow(j, y) && 32 * sptr + sx == SrcRow(j, y)
            && 0 <= sptr && 0 <= dptr && WordCount(j.w + dx, words)
            && dptr + words <= |m0| && sptr + words <= |s0| && (dx < sx ==> sptr + words < |s0|)
  {
    RowFits(j, s0, m0, y);
  }

  // ----- the call

  /** Every pixel of the destination rectangle is the function of the OLD source pixel and the OLD destination
      pixel, and no other bit of the destination's memory has changed. */
  ghost predicate Blitted(j: Job, m: seq<Bits>, s0: seq<Bits>, m0: seq<Bits>)
    requires j.f < 16 && j.db.width > 0
  {
    && |m| == |m0|
    && (forall x, y :: j.p.x <= x < j.p.x + j.w && j.p.y <= y < j.p.y + j.h ==>
          Pixel(m, j.db, x, y) == OpBit(j.f, Pixel(s0, j.sb, x - j.p.x + j.o.x, y - j.p.y + j.o.y), Pixel(m0, j.db, x, y)))
    && (forall c, i :: 0 <= c < |m| && 0 <= i < 32 && !InRect(j.db, j.p, j.w, j.h, c, i) ==> m[c][i] == m0[c][i])
  }

  lemma AllRowsBlitted(j: Job, m: seq<Bits>, s0: seq<Bits>, m0: seq<Bits>)
    requires GoodJob(j, s0, m0) && RowsDone(j, m, s0, m0, j.p.y, j.p.y + j.h)
    ensures Blitted(j, m, s0, m0)
  {
    forall x, y | j.p.x <= x < j.p.x + j.w && j.p.y <= y < j.p.y + j.h
      ensures Pixel(m, j.db, x, y) == OpBit(j.f, Pixel(s0, j.sb, x - j.p.x + j.o.x, y - j.p.y + j.o.y), Pixel(m0, j.db, x, y))
    {
      var addr := Addr(j.db, x, y);
      RowFits(j, s0, m0, y);
      BitInRow(j.db, y, addr / 32, addr % 32);
    }
  }

  function JobOf(sb: Bitmap, r: Rectangle, db: Bitmap, p: Point, f: nat): Job {
    Job(sb, db, r.origin, r.corner.x - r.origin.x, r.corner.y - r.origin.y, p, f)
  }

  /** What the set-up before the first double loop leaves in the variables; `first` is the first row done. */
  ghost predicate Setup(j: Job, sptr: int, dptr: int, sadd: int, dadd: int, hcount_store: int, sign: bool, srotate: int,
                        dmask: Bits, dmask1: Bits, down: bool)
    requires j.p.x >= 0 && j.o.x >= 0
  {
    var dx, sx := j.p.x % 32, j.o.x % 32;
    var first := if down then j.p.y else j.p.y + j.h - 1;
    && hcount_store == j.w + dx && hcount_store >= 0
    && sign == (dx < sx) && srotate == (if dx < sx then sx - dx else dx - sx)
    && dmask == Shr(ONES, dx) && RightMask(hcount_store, dmask1)
    && sptr == RowStart(j.sb, first - j.p.y + j.o.y) + j.o.x / 32
    && dptr == RowStart(j.db, first) + j.p.x / 32
    && sadd == (if down then j.sb.width else 0 - j.sb.width) - Words(hcount_store)
    && dadd == (if down then j.db.width else 0 - j.db.width) - Words(hcount_store) + 1
  }

  /** The order of rows that is safe within one bitmap. */
  predicate OrderSafe(j: Job, down: bool) {
    Disjoint(j) || (if down then j.o.y > j.p.y || (j.o.y == j.p.y && j.o.x >= j.p.x) else j.o.y < j.p.y)
  }

  /** The first double loop: rows from the top down, or from the bottom up. */
  method ForwardRows(src: array<Bits>, dst: array<Bits>, f: nat, sptr0: int, dptr0: int, sadd: int, dadd: int,
                     hcount_store: int, sign: bool, srotate: nat, dmask: Bits, dmask1: Bits, vcount0: int,
                     ghost j: Job, ghost down: bool)
    requires GoodJob(j, src[..], dst[..]) && src == j.sb.mem && dst == j.db.mem && f == j.f && vcount0 == j.h
    requires Setup(j, sptr0, dptr0, sadd, dadd, hcount_store, sign, srotate, dmask, dmask1, down)
    requires src == dst ==> j.sb == j.db && OrderSafe(j, down)
    modifies dst
    ensures RowsDone(j, dst[..], old(src[..]), old(dst[..]), j.p.y, j.p.y + j.h)
  {
    hide RowsDone, GoodJob, SourceIntact, RightMask, WordCount;
    ghost var s0, m0 := src[..], dst[..];
    var sptr, dptr, vcount := sptr0, dptr0, vcount0;
    ghost var lo, hi := if down then j.p.y else j.p.y + j.h, if down then j.p.y else j.p.y + j.h;
    ghost var y := if down then hi else lo - 1;
    NoRows(j, s0, m0, lo);
    GoodHeight(j, s0, m0);
    while vcount != 0
      invariant 0 <= vcount <= j.h && lo <= hi
      invariant if down then lo == j.p.y && hi == y == j.p.y + j.h - vcount else lo == y + 1 == j.p.y + vcount && hi == j.p.y + j.h
      invariant sptr == RowStart(j.sb, y - j.p.y + j.o.y) + j.o.x / 32
      invariant dptr == RowStart(j.db, y) + j.p.x / 32
      invariant RowsDone(j, dst[..], s0, m0, lo, hi)
      invariant src != dst ==> src[..] == s0
      decreases vcount
    {
      vcount := vcount - 1;
      ghost var m, s := dst[..], src[..];
      ForwardBounds(j, s0, m0, y);
      if src == dst {
        ForwardSafe(j, m0, y);
        IntactSame(j, m, m0, lo, hi, y);
      } else {
        IntactApart(j, s0, m0, y);
      }
      sptr, dptr := RowForward(src, dst, sptr, dptr, hcount_store, sign, srotate, dmask, dmask1, f,
                               SrcRow(j, y), DstRow(j, y), j.w, Words(hcount_store));
      RowStep(j, m, dst[..], s, s0, m0, lo, hi, y);
      NextRow(j.sb, y - j.p.y + j.o.y);
      NextRow(j.db, y);
      sptr := sptr + sadd;
      dptr := dptr + dadd;
      if down { hi, y := hi + 1, y + 1; } else { lo, y := y, y - 1; }
    }
  }

  lemma GoodHeight(j: Job, s0: seq<Bits>, m0: seq<Bits>)
    requires GoodJob(j, s0, m0)
    ensures j.h >= 0 && j.w >= 0 && j.p.x >= 0 && j.o.x >= 0 && j.f < 16
  {}

  lemma EndWords(x: int, w: int, o: int)
    requires 0 <= o < x && 0 < w
    ensures var h := w + x % 32;
            && h % 32 == (x + w) % 32 && h / 32 == (x + w) / 32 - x / 32
    ensures (o + w) % 32 <= (x + w) % 32 ==> (o + w) / 32 - ((x + w) / 32 - x / 32) >= o / 32
    ensures (o + w) / 32 - ((x + w) / 32 - x / 32) >= -1
  {
    var q, e := x / 32, (x + w) / 32;
    assert w + x % 32 == 32 * (e - q) + (x + w) % 32;
    Remainder(e - q, (x + w) % 32, w + x % 32);
  }

  lemma BackwardBounds(j: Job, m0: seq<Bits>, y: int)
    requires GoodJob(j, m0, m0) && j.p.y <= y < j.p.y + j.h && j.sb == j.db && j.o.x < j.p.x && 0 < j.w && j.o.y == j.p.y
    ensures var sptr := RowStart(j.sb, y) + (j.o.x + j.w) / 32;
            var dptr := RowStart(j.db, y) + (j.p.x + j.w) / 32;
            var ex, ey, dx := (j.p.x + j.w) % 32, (j.o.x + j.w) % 32, j.p.x % 32;
            var words := (j.w + dx) / 32 + 1;
            && 32 * dptr + ex == DstRow(j, y) + j.w && 32 * sptr + ey == SrcRow(j, y) + j.w
            && 32 * (dptr - words + 1) + dx == DstRow(j, y)
            && 0 <= sptr < |m0| && words <= dptr + 1 <= |m0| && sptr >= words - 1 && (ey < ex ==> sptr >= words)
            && 0 <= SrcRow(j, y) <= DstRow(j, y)
  {
    RowFits(j, m0, m0, y);
    EndWords(j.p.x, j.w, j.o.x);
  }

  /** What the set-up at the label `rightleft` leaves in the variables. */
  ghost predicate BackSetup(j: Job, sptr: int, dptr: int, sadd: int, dadd: int, hcount_store: int, sign: bool, srotate: int,
                            dmask: Bits, dmask1: Bits, words: int)
    requires j.p.x >= 0 && j.o.x >= 0 && j.w >= 0
  {
    var ex, ey := (j.p.x + j.w) % 32, (j.o.x + j.w) % 32;
    && words == (j.w + j.p.x % 32) / 32 + 1 && 32 * (words - 1) < hcount_store <= 32 * words
    && sign == (ex < ey) && srotate == (if ex < ey then ey - ex else ex - ey)
    && dmask == Shr(ONES, j.p.x % 32) && dmask1 == Not(Shr(ONES, ex))
    && sptr == RowStart(j.sb, j.p.y) + (j.o.x + j.w) / 32
    && dptr == RowStart(j.sb, j.p.y) + (j.p.x + j.w) / 32
    && sadd == j.sb.width + words && dadd == j.sb.width + words - 1
  }

  method OneRowBack(mem: array<Bits>, f: nat, sptr0: int, dptr0: int, hcount_store: int, sign: bool, srotate: nat,
                    dmask: Bits, dmask1: Bits, ghost j: Job, ghost words: nat, ghost m0: seq<Bits>, ghost y: int)
    returns (sptr: int, dptr: int)
    requires GoodJob(j, m0, m0) && mem == j.sb.mem && j.sb == j.db && f == j.f && j.p.y <= y < j.p.y + j.h
    requires !Disjoint(j) && j.o.x < j.p.x && j.o.y == j.p.y
    requires var ex, ey := (j.p.x + j.w) % 32, (j.o.x + j.w) % 32;
             && words == (j.w + j.p.x % 32) / 32 + 1 && 32 * (words - 1) < hcount_store <= 32 * words
             && sign == (ex < ey) && srotate == (if ex < ey then ey - ex else ex - ey)
             && dmask == Shr(ONES, j.p.x % 32) && dmask1 == Not(Shr(ONES, ex))
    requires sptr0 == RowStart(j.sb, y) + (j.o.x + j.w) / 32 && dptr0 == RowStart(j.sb, y) + (j.p.x + j.w) / 32
    requires RowsDone(j, mem[..], m0, m0, j.p.y, y)
    modifies mem
    ensures RowsDone(j, mem[..], m0, m0, j.p.y, y + 1)
    ensures sptr == sptr0 - words && dptr == dptr0 - words + 1
  {
    ghost var m := mem[..];
    BackwardBounds(j, m0, y);
    IntactSame(j, m, m0, j.p.y, y, y);
    RowFits(j, m0, m0, y);
    GoodHeight(j, m0, m0);
    hide RowsDone, GoodJob, SourceIntact, RowStart, SrcRow, DstRow, Addr, Disjoint, Shr, Not, Copied;
    sptr, dptr := RowBackward(mem, mem, sptr0, dptr0, hcount_store, sign, srotate, dmask, dmask1, f,
                              SrcRow(j, y), DstRow(j, y), j.w, words);
    RowStep(j, m, mem[..], m, m0, m0, j.p.y, y, y);
  }

  /** The second double loop: words from right to left, rows from the top down. */
  method BackwardRows(mem: array<Bits>, f: nat, sptr0: int, dptr0: int, sadd: int, dadd: int,
                      hcount_store: int, sign: bool, srotate: nat, dmask: Bits, dmask1: Bits, vcount0: int,
                      ghost j: Job, ghost words: nat)
    requires GoodJob(j, mem[..], mem[..]) && mem == j.sb.mem && j.sb == j.db && f == j.f && vcount0 == j.h
    requires !Disjoint(j) && j.o.x < j.p.x && j.o.y == j.p.y
    requires BackSetup(j, sptr0, dptr0, sadd, dadd, hcount_store, sign, srotate, dmask, dmask1, words)
    modifies mem
    ensures RowsDone(j, mem[..], old(mem[..]), old(mem[..]), j.p.y, j.p.y + j.h)
  {
    hide RowsDone, GoodJob, SourceIntact;
    ghost var m0 := mem[..];
    GoodHeight(j, m0, m0);
    var sptr, dptr, vcount := sptr0, dptr0, vcount0;
    ghost var y := j.p.y;
    ghost var se, de := (j.o.x + j.w) / 32, (j.p.x + j.w) / 32;
    NoRows(j, m0, m0, y);
    while vcount != 0
      invariant 0 <= vcount <= j.h && y == j.p.y + j.h - vcount
      invariant sptr == RowStart(j.sb, y) + se
      invariant dptr == RowStart(j.sb, y) + de
      invariant RowsDone(j, mem[..], m0, m0, j.p.y, y)
      decreases vcount
    {
      vcount := vcount - 1;
      sptr, dptr := OneRowBack(mem, f, sptr, dptr, hcount_store, sign, srotate, dmask, dmask1, j, words, m0, y);
      NextRow(j.sb, y);
      sptr := sptr + sadd;
      dptr := dptr + dadd;
      y := y + 1;
    }
  }

  /** The label `rightleft`. */
  method RightLeft(sb: Bitmap, r: Rectangle, p: Point, f: nat, t: Rectangle, hcount_store0: int, vcount: int)
    requires GoodJob(JobOf(sb, r, sb, p, f), sb.mem[..], sb.mem[..])
    requires t == Rectangle(p, Point(p.x + r.corner.x - r.origin.x, p.y + r.corner.y - r.origin.y))
    requires !Disjoint(JobOf(sb, r, sb, p, f)) && r.origin.x < p.x && r.origin.y == p.y
    requires hcount_store0 == r.corner.x - r.origin.x + p.x % 32 && vcount == r.corner.y - r.origin.y
    modifies sb.mem
    ensures RowsDone(JobOf(sb, r, sb, p, f), sb.mem[..], old(sb.mem[..]), old(sb.mem[..]), p.y, p.y + vcount)
  {
    hide RowsDone;
    ghost var j := JobOf(sb, r, sb, p, f);
    GoodHeight(j, sb.mem[..], sb.mem[..]);
    hide GoodJob, BackSetup, RowStart, Shr, Not;
    StartOf(sb, p.y);
    var hcount_store := hcount_store0;
    var sptr := sb.base + r.origin.y * sb.width + r.corner.x / 32;
    var dptr := sb.base + p.y * sb.width + t.corner.x / 32;
    var sadd := sb.width + hcount_store / 32 + 1;
    var dadd := sb.width + hcount_store / 32;
    var dmask := Shr(ONES, p.x % 32);
    var srotate := t.corner.x % 32 - r.corner.x % 32;
    var dmask1 := Not(Shr(ONES, t.corner.x % 32));
    MaskEmpty(t.corner.x % 32);
    if dmask1 == ZEROS && hcount_store != 0 {
      hcount_store := hcount_store + 1;
    }
    var sign := false;
    if srotate < 0 {
      sign := true;
      srotate := srotate * -1;
    }
    BackSetupHolds(j, hcount_store0, hcount_store, sign, srotate, dmask1);
    BackwardRows(sb.mem, f, sptr, dptr, sadd, dadd, hcount_store, sign, srotate, dmask, dmask1, vcount,
                 j, hcount_store0 / 32 + 1);
  }

  lemma StartOf(bm: Bitmap, y: int)
    ensures RowStart(bm, y) == bm.base + y * bm.width
  {}

  lemma BackSetupHolds(j: Job, h: int, hcount_store: int, sign: bool, srotate: int, dmask1: Bits)
    requires 0 <= j.o.x < j.p.x && 0 < j.w && h == j.w + j.p.x % 32
    requires var ex, ey := (j.p.x + j.w) % 32, (j.o.x + j.w) % 32;
             && hcount_store == (if ex == 0 && h != 0 then h + 1 else h)
             && sign == (ex - ey < 0) && srotate == (if ex - ey < 0 then (ex - ey) * -1 else ex - ey)
             && dmask1 == Not(Shr(ONES, ex))
    ensures var sptr, dptr := RowStart(j.sb, j.p.y) + (j.o.x + j.w) / 32, RowStart(j.sb, j.p.y) + (j.p.x + j.w) / 32;
            BackSetup(j, sptr, dptr, j.sb.width + h / 32 + 1, j.sb.width + h / 32, hcount_store, sign, srotate,
                      Shr(ONES, j.p.x % 32), dmask1, h / 32 + 1)
  {
    EndWords(j.p.x, j.w, j.o.x);
    assert h == 32 * (h / 32) + h % 32;
  }

  lemma SetupHolds(j: Job, sptr: int, dptr: int, sadd: int, dadd: int, h: int, sign: bool, srotate: int, dmask1: Bits,
                   down: bool)
    requires 0 <= j.o.x && 0 <= j.p.x && 0 <= j.w && h == j.w + j.p.x % 32
    requires var d := j.p.x % 32 - j.o.x % 32; sign == (d < 0) && srotate == if d < 0 then d * -1 else d
    requires dmask1 == if h % 32 == 0 && h != 0 then ONES else Not(Shr(ONES, h % 32))
    requires sptr == RowStart(j.sb, if down then j.o.y else j.o.y + j.h - 1) + j.o.x / 32
    requires dptr == RowStart(j.db, if down then j.p.y else j.p.y + j.h - 1) + j.p.x / 32
    requires var one := if h % 32 == 0 && h != 0 then 1 else 0;
             && sadd == (if down then j.sb.width else 0 - j.sb.width) - h / 32 - 1 + one
             && dadd == (if down then j.db.width else 0 - j.db.width) - h / 32 + one
    ensures Setup(j, sptr, dptr, sadd, dadd, h, sign, srotate, Shr(ONES, j.p.x % 32), dmask1, down)
  {
    var first := if down then j.p.y else j.p.y + j.h - 1;
    assert first - j.p.y + j.o.y == if down then j.o.y else j.o.y + j.h - 1;
  }

  /** bitop */
  method Bitop(sb: Bitmap, r: Rectangle, db: Bitmap, p: Point, f: nat)
    requires GoodJob(JobOf(sb, r, db, p, f), sb.mem[..], db.mem[..])
    requires sb != db ==> sb.mem != db.mem
    modifies db.mem
    ensures Blitted(JobOf(sb, r, db, p, f), db.mem[..], old(sb.mem[..]), old(db.mem[..]))
  {
    ghost var s0, m0 := sb.mem[..], db.mem[..];
    ghost var j := JobOf(sb, r, db, p, f);
    GoodHeight(j, s0, m0);
    hide RowsDone, Blitted, Setup, GoodJob, RowStart, Shr, Not;
    StartOf(sb, r.origin.y);
    StartOf(db, p.y);
    StartOf(sb, r.corner.y - 1);
    StartOf(db, p.y + r.corner.y - r.origin.y - 1);
    ghost var down := true;
    var vcount := r.corner.y - r.origin.y;
    var hcount_store := r.corner.x - r.origin.x + p.x % 32;
    var sptr := sb.base + r.origin.y * sb.width + r.origin.x / 32;
    var dptr := db.base + p.y * db.width + p.x / 32;
    var sadd := sb.width - hcount_store / 32 - 1;
    var dadd := db.width - hcount_store / 32;
    if sb == db {
      var t := Rectangle(p, Point(p.x + r.corner.x - r.origin.x, p.y + r.corner.y - r.origin.y));
      if !(r.origin.x < t.corner.x && t.origin.x < r.corner.x && r.origin.y < t.corner.y && t.origin.y < r.corner.y) {
        // topleft
      } else if r.origin.x < p.x && r.origin.y == t.origin.y {
        RightLeft(sb, r, p, f, t, hcount_store, vcount);
        AllRowsBlitted(j, db.mem[..], s0, m0);
        return;
      } else if r.origin.y >= t.origin.y {
        // topleft
      } else {
        down := false;
        sptr := sb.base + (r.corner.y - 1) * sb.width + r.origin.x / 32;
        dptr := db.base + (t.corner.y - 1) * db.width + p.x / 32;
        sadd := 0 - sb.width - hcount_store / 32 - 1;
        dadd := 0 - db.width - hcount_store / 32;
      }
    }
    var srotate := p.x % 32 - r.origin.x % 32;
    var sign := false;
    var dmask := Shr(ONES, p.x % 32);
    var dmask1 := Not(Shr(ONES, hcount_store % 32));
    MaskEmpty(hcount_store % 32);
    if dmask1 == ZEROS && hcount_store != 0 {
      dmask1 := ONES;
      sadd := sadd + 1;
      dadd := dadd + 1;
    }
    if srotate < 0 {
      sign := true;
      srotate := srotate * -1;
    }
    SetupHolds(j, sptr, dptr, sadd, dadd, hcount_store, sign, srotate, dmask1, down);
    ForwardRows(sb.mem, db.mem, f, sptr, dptr, sadd, dadd, hcount_store, sign, srotate, dmask, dmask1, vcount, j, down);
    AllRowsBlitted(j, db.mem[..], s0, m0);
  }

  /** rectfill: a rectangle combined with itself. */
  method Rectfill(sb: Bitmap, r: Rectangle, f: nat)
    requires GoodJob(JobOf(sb, r, sb, r.origin, f), sb.mem[..], sb.mem[..])
    modifies sb.mem
    ensures Blitted(JobOf(sb, r, sb, r.origin, f), sb.mem[..], old(sb.mem[..]), old(sb.mem[..]))
  {
    Bitop(sb, r, sb, r.origin, f);
  }

  /** So each pixel of a filled rectangle becomes f of its old value with itself: code 0 clears the rectangle,
      code 15 sets it, code 10 inverts it. */
  lemma FillPixels(j: Job, m: seq<Bits>, m0: seq<Bits>, x: int, y: int)
    requires j.f < 16 && j.db.width > 0 && j.sb == j.db && j.o == j.p && Blitted(j, m, m0, m0)
    requires j.p.x <= x < j.p.x + j.w && j.p.y <= y < j.p.y + j.h
    ensures var v := Pixel(m0, j.db, x, y); Pixel(m, j.db, x, y) == OpBit(j.f, v, v)
    ensures j.f == 0 ==> !Pixel(m, j.db, x, y)
    ensures j.f == 15 ==> Pixel(m, j.db, x, y)
    ensures j.f == 10 ==> Pixel(m, j.db, x, y) != Pixel(m0, j.db, x, y)
  {
    hide Pixel, InRect;
    FillCodes(Pixel(m0, j.db, x, y));
    hide OpBit;
    assert x - j.p.x + j.o.x == x && y - j.p.y + j.o.y == y;
    assert Pixel(m, j.db, x, y) == OpBit(j.f, Pixel(m0, j.sb, x, y), Pixel(m0, j.db, x, y));
  }

  lemma FillCodes(v: bool)
    ensures !OpBit(0, v, v) && OpBit(15, v, v) && OpBit(10, v, v) == !v
  {}
}
