/** Bitmaps in memory, and which bit is which pixel. */
module BitmapGeometry {
  import opened Words
  import opened BitmapWords
  import opened BitmapRows

  datatype Point = Point(x: int, y: int)
  datatype Rectangle = Rectangle(origin: Point, corner: Point)

  /** A bitmap is a stretch of memory, `width` words to a row, row after row from cell `base` on. */
  class Bitmap {
    const mem: array<Bits>
    const base: nat
    const width: nat

    constructor (mem: array<Bits>, base: nat, width: nat)
      ensures this.mem == mem && this.base == base && this.width == width
    {
      this.mem, this.base, this.width := mem, base, width;
    }
  }

  /** The rectangle at (x, y), w by h, is inside the bitmap, and so is its corner; the words of memory just
      before and just after the bitmap exist, since they are read and perhaps written back unchanged. */
  predicate Fits(bm: Bitmap, x: int, y: int, w: int, h: int) {
    && 0 <= w && 0 <= h && 0 <= x < 32 * bm.width && x + w <= 32 * bm.width && 0 <= y
    && 1 <= bm.base && bm.base + (y + h) * bm.width < bm.mem.Length
  }

  /** The cell where row y starts. */
  function RowStart(bm: Bitmap, y: int): int {
    bm.base + y * bm.width
  }

  function Addr(bm: Bitmap, x: int, y: int): int {
    32 * RowStart(bm, y) + x
  }

  /** The pixel at (x, y): bit 31 - (x mod 32) of word x / 32 of row y. */
  ghost function Pixel(m: seq<Bits>, bm: Bitmap, x: int, y: int): bool {
    0 <= Addr(bm, x, y) < 32 * |m| && BitAt(m, Addr(bm, x, y))
  }

  /** The row and column of a bit of memory. */
  function RowOf(bm: Bitmap, c: int): int
    requires bm.width > 0
  {
    (c - bm.base) / bm.width
  }

  function ColumnOf(bm: Bitmap, c: int, i: int): int
    requires bm.width > 0
  {
    32 * ((c - bm.base) % bm.width) + i
  }

  ghost predicate InRect(bm: Bitmap, p: Point, w: int, h: int, c: int, i: int)
    requires bm.width > 0
  {
    c >= bm.base && p.y <= RowOf(bm, c) < p.y + h && p.x <= ColumnOf(bm, c, i) < p.x + w
  }

  /** A bit between the addresses of two columns of row y is in that row, at the column the difference says. */
  lemma BitInRow(bm: Bitmap, y: int, c: int, i: int)
    requires bm.width > 0 && 0 <= i < 32 && 0 <= 32 * c + i - Addr(bm, 0, y) < 32 * bm.width
    ensures RowOf(bm, c) == y && ColumnOf(bm, c, i) == 32 * c + i - Addr(bm, 0, y)
    ensures y >= 0 ==> c >= bm.base
  {
    QuotientIs(c - bm.base, bm.width, y, c - RowStart(bm, y));
    if y >= 0 { assert y * bm.width >= 0; }
  }

  /** Conversely, the row and column give the address. */
  lemma RowInBit(bm: Bitmap, c: int, i: int)
    requires bm.width > 0
    ensures 32 * c + i == Addr(bm, ColumnOf(bm, c, i), RowOf(bm, c))
  {
    var n := c - bm.base;
    assert n == (n / bm.width) * bm.width + n % bm.width;
  }

  /** The bits of the rectangle in row y are one stretch of addresses. */
  lemma RowStretch(bm: Bitmap, p: Point, w: int, h: int, y: int, c: int, i: int)
    requires bm.width > 0 && 0 <= i < 32 && 0 <= p.x && p.x + w <= 32 * bm.width && 0 <= p.y <= y < p.y + h
    ensures Addr(bm, p.x, y) <= 32 * c + i < Addr(bm, p.x, y) + w <==> InRect(bm, p, w, h, c, i) && RowOf(bm, c) == y
  {
    RowInBit(bm, c, i);
    if Addr(bm, p.x, y) <= 32 * c + i < Addr(bm, p.x, y) + w {
      BitInRow(bm, y, c, i);
    }
  }

  lemma RowsApart(bm: Bitmap, y: int, y': int)
    requires y < y'
    ensures RowStart(bm, y) + bm.width <= RowStart(bm, y')
  {
    assert (y' - y - 1) * bm.width >= 0;
    assert y' * bm.width == (y' - y - 1) * bm.width + y * bm.width + bm.width;
  }

  lemma NextRow(bm: Bitmap, y: int)
    ensures RowStart(bm, y + 1) == RowStart(bm, y) + bm.width && RowStart(bm, y - 1) == RowStart(bm, y) - bm.width
  {
    assert (y + 1) * bm.width == y * bm.width + bm.width;
    assert (y - 1) * bm.width == y * bm.width - bm.width;
  }
}
