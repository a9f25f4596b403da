/** Where the pieces of a transfer lie: pages, alignments and sectors of SA/saio/common_scsi.c. */
module ScsiPieces {

  const NBPP := 4096
  const SECTOR := 512

  /** A stretch of memory that one scatter/gather entry, or the bytes moved by hand before or after, names. */
  datatype Piece = Piece(addr: nat, len: nat)

  predicate OnePage(p: Piece) {
    p.len > 0 && p.addr / NBPP == (p.addr + p.len - 1) / NBPP
  }

  /** The pieces are the memory from a to b, in order, each byte once. */
  ghost predicate Covers(ps: seq<Piece>, a: nat, b: nat)
    decreases |ps|
  {
    if ps == [] then a == b
    else
      var p := ps[|ps| - 1];
      p.len > 0 && p.addr + p.len == b && Covers(ps[..|ps| - 1], a, p.addr)
  }

  lemma CoversMore(ps: seq<Piece>, a: nat, b: nat, len: nat)
    requires Covers(ps, a, b) && len > 0
    ensures Covers(ps + [Piece(b, len)], a, b + len)
  {
    assert (ps + [Piece(b, len)])[..|ps|] == ps;
  }

  lemma {:induction false} CoversJoin(ps: seq<Piece>, qs: seq<Piece>, a: nat, b: nat, c: nat)
    requires Covers(ps, a, b) && Covers(qs, b, c)
    ensures Covers(ps + qs, a, c)
    decreases |qs|
  {
    if qs == [] {
      assert ps + qs == ps;
    } else {
      var q := qs[|qs| - 1];
      CoversJoin(ps, qs[..|qs| - 1], a, b, q.addr);
      assert (ps + qs)[..|ps + qs| - 1] == ps + qs[..|qs| - 1];
    }
  }

  lemma {:induction false} CoversOrder(ps: seq<Piece>, a: nat, b: nat)
    requires Covers(ps, a, b)
    ensures a <= b && (a == b <==> ps == [])
    decreases |ps|
  {
    if ps != [] {
      CoversOrder(ps[..|ps| - 1], a, ps[|ps| - 1].addr);
    }
  }

  function Bytes(ps: seq<Piece>): nat {
    if ps == [] then 0 else Bytes(ps[..|ps| - 1]) + ps[|ps| - 1].len
  }

  lemma BytesMore(ps: seq<Piece>, p: Piece)
    ensures Bytes(ps + [p]) == Bytes(ps) + p.len
  {
    assert (ps + [p])[..|ps|] == ps;
  }

  lemma {:induction false} BytesJoin(ps: seq<Piece>, qs: seq<Piece>)
    ensures Bytes(ps + qs) == Bytes(ps) + Bytes(qs)
    decreases |qs|
  {
    hide Bytes;
    NoBytes();
    if qs == [] {
      assert ps + qs == ps;
    } else {
      var rest, last := qs[..|qs| - 1], qs[|qs| - 1];
      BytesJoin(ps, rest);
      BytesMore(ps + rest, last);
      BytesMore(rest, last);
      assert rest + [last] == qs;
      assert ps + qs == ps + rest + [last];
    }
  }

  lemma NoBytes()
    ensures Bytes([]) == 0
  {}

  /** All the pieces of several parts, in order. */
  function Joined(parts: seq<seq<Piece>>): seq<Piece> {
    if parts == [] then [] else Joined(parts[..|parts| - 1]) + parts[|parts| - 1]
  }

  lemma JoinedOne(part: seq<Piece>)
    ensures Joined([part]) == part
  {
    assert [part][..0] == [];
    assert [] + part == part;
  }

  lemma JoinedMore(parts: seq<seq<Piece>>, part: seq<Piece>)
    ensures Joined(parts + [part]) == Joined(parts) + part
  {
    assert (parts + [part])[..|parts|] == parts;
  }

  lemma {:induction false} CoversBytes(ps: seq<Piece>, a: nat, b: nat)
    requires Covers(ps, a, b)
    ensures Bytes(ps) == b - a
    decreases |ps|
  {
    if ps != [] {
      CoversBytes(ps[..|ps| - 1], a, ps[|ps| - 1].addr);
    }
  }

  /** Each byte is in exactly one piece. */
  lemma {:induction false} CoversOnce(ps: seq<Piece>, a: nat, b: nat, x: nat) returns (i: nat)
    requires Covers(ps, a, b) && a <= x < b
    ensures i < |ps| && ps[i].addr <= x < ps[i].addr + ps[i].len
    ensures forall j :: 0 <= j < |ps| && ps[j].addr <= x < ps[j].addr + ps[j].len ==> j == i
    decreases |ps|
  {
    var p, rest := ps[|ps| - 1], ps[..|ps| - 1];
    CoversOrder(rest, a, p.addr);
    CoversBounds(rest, a, p.addr);
    if x < p.addr {
      i := CoversOnce(rest, a, p.addr, x);
      assert forall j :: 0 <= j < |rest| ==> rest[j] == ps[j];
    } else {
      i := |ps| - 1;
      assert forall j :: 0 <= j < |rest| ==> rest[j] == ps[j];
    }
  }

  lemma {:induction false} CoversBounds(ps: seq<Piece>, a: nat, b: nat)
    requires Covers(ps, a, b)
    ensures forall j :: 0 <= j < |ps| ==> a <= ps[j].addr && ps[j].addr + ps[j].len <= b
    decreases |ps|
  {
    if ps != [] {
      var p, rest := ps[|ps| - 1], ps[..|ps| - 1];
      CoversBounds(rest, a, p.addr);
      CoversOrder(rest, a, p.addr);
      forall j | 0 <= j < |ps| ensures a <= ps[j].addr && ps[j].addr + ps[j].len <= b {
        if j < |rest| { assert ps[j] == rest[j]; }
      }
    }
  }

  // ----- alignment

  lemma SumDivides(a: nat, b: nat, c: nat)
    requires c > 0 && a % c == 0 && b % c == 0
    ensures (a + b) % c == 0
    ensures a >= b ==> (a - b) % c == 0
  {
    var i, j := a / c, b / c;
    assert a == c * i && b == c * j;
    assert a + b == c * (i + j);
    MultipleOf(c, i + j);
    if a >= b {
      assert a - b == c * (i - j);
      MultipleOf(c, i - j);
    }
  }

  lemma MultipleOf(c: nat, k: int)
    requires c > 0
    ensures c * k % c == 0
  {
    var r, q := c * k % c, c * k / c;
    assert c * k == c * q + r;
    assert r == c * (k - q);
    if k - q >= 1 { assert c * (k - q) == c + c * (k - q - 1); Positive(c, k - q - 1); }
    if k - q <= -1 { Positive(c, q - k); assert c * (k - q) == 0 - c * (q - k); }
  }

  lemma Positive(c: nat, k: int)
    requires k >= 0
    ensures c * k >= 0
  {}

  lemma DividesChain(x: nat, m: nat, c: nat)
    requires m > 0 && c > 0 && x % m == 0 && m % c == 0
    ensures x % c == 0
  {
    var i, j := x / m, m / c;
    assert x == m * i && m == c * j;
    assert x == c * (j * i);
    MultipleOf(c, j * i);
  }

  lemma FloorDivides(x: nat, c: nat)
    requires c > 0
    ensures (x - x % c) % c == 0
  {
    MultipleOf(c, x / c);
    assert x - x % c == c * (x / c);
  }

  /** From an aligned address, what is left of its page is a multiple of the alignment. */
  lemma RestOfPage(dma: nat, c: nat)
    requires c > 0 && NBPP % c == 0 && dma % c == 0
    ensures (NBPP - dma % NBPP) % c == 0
    ensures (dma + (NBPP - dma % NBPP)) % NBPP == 0
  {
    FloorDivides(dma, NBPP);
    DividesChain(dma - dma % NBPP, NBPP, c);
    SumDivides(dma, dma - dma % NBPP, c);
    SumDivides(NBPP, dma % NBPP, c);
  }

  /** The part of what is left that lies in the page of an aligned address. */
  function InPage(dma: nat, resid: nat): nat {
    if dma % NBPP + resid > NBPP then NBPP - dma % NBPP else resid
  }

  predicate Divides(c: nat, x: nat) { c > 0 && x % c == 0 }

  /** Only the last part may have a count that is not a multiple of the alignment. */
  lemma Cut(dma: nat, resid: nat, c: nat)
    requires Divides(c, NBPP) && Divides(c, dma) && resid > 0
    ensures var n := InPage(dma, resid);
            && 0 < n <= resid && dma % NBPP + n <= NBPP
            && (n < resid ==> Divides(c, n) && Divides(c, dma + n) && (dma + n) % NBPP == 0)
            && (Divides(c, resid) ==> Divides(c, n) && Divides(c, resid - n))
  {
    RestOfPage(dma, c);
    var n := InPage(dma, resid);
    if n < resid {
      SumDivides(dma, n, c);
      if Divides(c, resid) {
        SumDivides(resid, n, c);
      }
    }
  }

  /** One stretch within a page, less the bytes at its end that are moved by hand. */
  lemma SplitPage(dma: nat, n: nat, t: nat)
    requires dma % NBPP + n <= NBPP && t <= n
    ensures t > 0 ==> OnePage(Piece(dma + (n - t), t))
    ensures t < n ==> OnePage(Piece(dma, n - t))
  {}

  // ----- pages

  /** Each piece ends with a page. */
  ghost predicate EndPages(ps: seq<Piece>) {
    forall p :: p in ps ==> (p.addr + p.len) % NBPP == 0
  }

  lemma EndPagesMore(ps: seq<Piece>, p: Piece)
    ensures EndPages(ps + [p]) <==> EndPages(ps) && (p.addr + p.len) % NBPP == 0
  {
    assert forall q :: q in ps + [p] <==> q in ps || q == p;
    assert p in ps + [p];
  }

  lemma EndPagesJoin(ps: seq<Piece>, qs: seq<Piece>)
    ensures EndPages(ps + qs) <==> EndPages(ps) && EndPages(qs)
  {
    assert forall p :: p in ps + qs <==> p in ps || p in qs;
  }

  predicate AtPage(x: nat) { x % NBPP == 0 }

  /** The pages that the memory from a to b touches. */
  function Pages(a: nat, b: nat): nat {
    if b <= a then 0 else (b - 1) / NBPP - a / NBPP + 1
  }

  lemma PagesMore(a: nat, d: nat, n: nat)
    requires a <= d && (d == a || d % NBPP == 0) && n > 0 && d % NBPP + n <= NBPP
    ensures Pages(a, d + n) == Pages(a, d) + 1
  {
    assert (d + n - 1) / NBPP == d / NBPP;
    if d > a { assert (d - 1) / NBPP == d / NBPP - 1; }
  }

  lemma PagesPast(a: nat, d: nat, b: nat)
    requires a <= d < b && d % NBPP == 0
    ensures Pages(a, b) > Pages(a, d)
  {
    if d > a { assert (d - 1) / NBPP == d / NBPP - 1; }
  }

  /** The first multiple of c from x on. */
  function RoundUp(x: nat, c: nat): nat
    requires c > 0
  {
    if x % c == 0 then x else x + (c - x % c)
  }
}
