/** common_scsi_sgsetup of SA/saio/common_scsi.c for requests that need no bounce buffer: cutting a transfer into
    scatter/gather entries, combining requests, and resubmitting what did not fit. */
module ScsiTransfer {
  import opened Masks
  import opened ScsiPieces

  lemma MaskIs(x: nat, mask: nat)
    requires PowerOfTwo(mask + 1)
    ensures And(x, mask) == x % (mask + 1)
  {
    var k: nat :| mask + 1 == Pow2(k);
    MaskIsModulo(x, k);
  }

  /** A queued request: the fields of `struct buf` that count here. */
  class Request {
    const addr: nat       // b_dmaaddr
    const bcount: nat     // b_bcount
    const block: nat      // the physical block of its first byte
    const read: bool      // B_READ
    var resid: nat        // b_resid
    var spare: nat        // b_dkspare: what is left when it has been requeued
    var pblkno: nat       // av_back: the physical block at which it goes on
    var error: nat        // b_error

    constructor (a: nat, n: nat, b: nat, r: bool)
      ensures addr == a && bcount == n && block == b && read == r
      ensures resid == 0 && spare == 0 && pblkno == b && error == 0
    {
      addr, bcount, block, read := a, n, b, r;
      resid, spare, pblkno, error := 0, 0, b, 0;
    }
  }

  /** The unit, with the part of its command that describes memory. */
  class Unit {
    const startmask: nat
    const addmask: nat
    const cntmask: nat
    const maxsg: nat
    const i2000: bool
    var bufaddr0: nat     // bytes moved by hand before the DMA
    var count0: nat
    var bufaddr1: nat     // and after it
    var count1: nat
    var sg: seq<Piece>
    var bn: nat           // un_bn
    var prevBn: nat       // un_prev_bn: the block the command starts at
    var prevSecs: nat     // un_prev_secs

    /** Alignments are powers of two; counts need no stricter one than addresses, and no stricter one than a
        sector gives. */
    ghost predicate Valid() {
      && PowerOfTwo(addmask + 1) && PowerOfTwo(cntmask + 1) && PowerOfTwo(startmask + 1)
      && SECTOR % (addmask + 1) == 0 && (addmask + 1) % (cntmask + 1) == 0 && maxsg > 0
    }

    constructor (start: nat, add: nat, cnt: nat, entries: nat, i: bool)
      requires PowerOfTwo(add + 1) && PowerOfTwo(cnt + 1) && PowerOfTwo(start + 1)
      requires SECTOR % (add + 1) == 0 && (add + 1) % (cnt + 1) == 0 && entries > 0
      ensures Valid() && startmask == start && addmask == add && cntmask == cnt && maxsg == entries && i2000 == i
    {
      startmask, addmask, cntmask, maxsg, i2000 := start, add, cnt, entries, i;
      bufaddr0, count0, bufaddr1, count1, sg, bn, prevBn, prevSecs := 0, 0, 0, 0, [], 0, 0, 0;
    }

    /** The bytes moved by hand before the DMA, if any, and after it. */
    ghost function Head(): seq<Piece>
      reads `count0, `bufaddr0
    {
      if count0 == 0 then [] else [Piece(bufaddr0, count0)]
    }

    ghost function Tail(): seq<Piece>
      reads `count1, `bufaddr1
    {
      if count1 == 0 then [] else [Piece(bufaddr1, count1)]
    }

    lemma CountDividesPage()
      requires Valid()
      ensures Divides(cntmask + 1, NBPP)
    {
      DividesChain(SECTOR, addmask + 1, cntmask + 1);
      DividesChain(NBPP, SECTOR, cntmask + 1);
    }

    /** One turn of that loop: the bytes that lie in the page of dmaaddr. */
    method CutPage(r: Request, dmaaddr: nat) returns (amount: nat)
      requires Valid() && r.resid > 0 && Divides(cntmask + 1, dmaaddr) && count1 == 0
      modifies this`sg, this`bufaddr1, this`count1, r`resid
      ensures var n, c := InPage(dmaaddr, old(r.resid)), cntmask + 1;
              && r.resid == old(r.resid) - n && count1 == n % c <= n && amount == n - count1
              && (count1 > 0 ==> bufaddr1 == dmaaddr + amount)
              && sg == old(sg) + if amount == 0 then [] else [Piece(dmaaddr, amount)]
    {
      CountDividesPage();
      Cut(dmaaddr, r.resid, cntmask + 1);
      AtMost(InPage(dmaaddr, r.resid), cntmask + 1);
      MaskIs(InPage(dmaaddr, r.resid), cntmask);
      hide PowerOfTwo, And, Divides, Valid;
      amount := r.resid;
      var offset := dmaaddr % NBPP;
      if offset + amount > NBPP {
        amount := NBPP - offset;
      }
      var temp := And(amount, cntmask);
      if temp > 0 {
        r.resid := r.resid - temp;
        amount := amount - temp;
        bufaddr1, count1 := dmaaddr + amount, temp;
        if amount == 0 { return; }
      }
      sg := sg + [Piece(dmaaddr, amount)];
      r.resid := r.resid - amount;
    }

    /** The state of that loop: es are the entries added to sg0 so far, for the memory up to dmaaddr. */
    ghost predicate Cutting(r: Request, start: nat, sg0: seq<Piece>, resid0: nat, es: seq<Piece>, dmaaddr: nat, more: bool)
      reads `sg, `bufaddr1, `count1, r`resid
    {
      && r.resid <= resid0 && dmaaddr == start + (resid0 - r.resid)
      && sg == sg0 + es && |sg| <= maxsg && (forall e :: e in es ==> OnePage(e))
      && Covers(es + Tail(), start, dmaaddr) && count1 <= dmaaddr && |es| == Pages(start, dmaaddr - count1)
      && (count1 > 0 ==> r.resid == 0 && OnePage(Piece(bufaddr1, count1)) && !Divides(cntmask + 1, resid0))
      && (Divides(cntmask + 1, resid0) ==> Divides(cntmask + 1, r.resid))
      && (if more
          then r.resid > 0 && |sg| < maxsg && count1 == 0 && Divides(cntmask + 1, dmaaddr) && (dmaaddr == start || dmaaddr % NBPP == 0) && EndPages(es)
          else r.resid < resid0 && (count1 == 0 ==> (EndPages(es) <==> dmaaddr % NBPP == 0)) && (r.resid == 0 ==> |sg0| + Pages(start, dmaaddr) <= maxsg) && (r.resid > 0 ==> |sg| == maxsg && dmaaddr % NBPP == 0))
    }

    method Turn(r: Request, ghost start: nat, ghost sg0: seq<Piece>, ghost resid0: nat, ghost es0: seq<Piece>, dmaaddr: nat, before: bool, ghost hand: bool)
      returns (next: nat, more: bool, abnormal: bool, amount: nat, ghost es: seq<Piece>)
      requires Valid() && Cutting(r, start, sg0, resid0, es0, dmaaddr, true) && before == Abnormal(hand, es0)
      modifies this`sg, this`bufaddr1, this`count1, r`resid
      ensures Valid() && Cutting(r, start, sg0, resid0, es, next, more)
      ensures r.resid < old(r.resid) && (before ==> abnormal) && Bytes(es) == Bytes(es0) + amount
      ensures !more && !abnormal ==> r.resid == 0 && |sg| < maxsg
      ensures count1 == 0 ==> abnormal == Abnormal(hand, es)
    {
      hide PowerOfTwo, Covers, OnePage, InPage, And, Divides, Valid, Bytes, Pages, EndPages;
      es, abnormal := es0, before;
      CountDividesPage();
      Cut(dmaaddr, r.resid, cntmask + 1);
      PagesMore(start, dmaaddr, InPage(dmaaddr, r.resid));
      amount := CutPage(r, dmaaddr);
      if amount > 0 { PagesMore(start, dmaaddr, amount); }
      SplitPage(dmaaddr, amount + count1, count1);
      var end := dmaaddr + amount;
      CountLeft(amount + count1, cntmask + 1);
      assert Covers(es, start, dmaaddr) by { assert es + [] == es; }
      if amount == 0 {
        abnormal, more := true, false;
      } else {
        CoversMore(es, start, dmaaddr, amount);
        BytesMore(es, Piece(dmaaddr, amount));
        EndPagesMore(es, Piece(dmaaddr, amount));
        EndsPage(dmaaddr, amount);
        es := es + [Piece(dmaaddr, amount)];
        if |sg| == maxsg {
          abnormal, more := true, false;
        } else {
          if i2000 && amount != NBPP - dmaaddr % NBPP {
            abnormal := true;
          }
          more := r.resid > 0;
        }
      }
      next := end + count1;
      if count1 > 0 {
        CoversMore(es, start, end, count1);
        assert Tail() == [Piece(end, count1)];
      } else {
        assert es + Tail() == es;
      }
    }

    /** Nothing may follow in a command: bytes were moved by hand before, the entries are used up, or, on an
        I2000, one of them does not end with a page. */
    ghost predicate Abnormal(hand: bool, es: seq<Piece>)
      reads `sg
    {
      hand || |sg| >= maxsg || (i2000 && !EndPages(es))
    }

    /** The loop that cuts what is left of r, from address `start` on, into entries. */
    method Fill(r: Request, start: nat, before: bool) returns (abnormal: bool, total: nat, ghost es: seq<Piece>)
      requires Valid() && r.resid > 0 && Divides(cntmask + 1, start) && |sg| < maxsg && count1 == 0
      modifies this`sg, this`bufaddr1, this`count1, r`resid
      ensures r.resid < old(r.resid) && Cutting(r, start, old(sg), old(r.resid), es, start + (old(r.resid) - r.resid), false)
      ensures !abnormal ==> r.resid == 0 && |sg| < maxsg
      ensures (before || r.resid > 0 ==> abnormal) && total == Bytes(es)
      ensures count1 == 0 ==> abnormal == Abnormal(before, es)
    {
      ghost var sg0, resid0 := sg, r.resid;
      es, abnormal, total := [], before, 0;
      assert Covers([], start, start) && es + Tail() == [];
      assert Cutting(r, start, sg0, resid0, es, start, true);
      var dmaaddr, more := start, true;
      while more
        invariant Valid() && Cutting(r, start, sg0, resid0, es, dmaaddr, more)
        invariant total == Bytes(es) && (before ==> abnormal) && (!more && !abnormal ==> r.resid == 0 && |sg| < maxsg)
        invariant more || count1 == 0 ==> abnormal == Abnormal(before, es)
        decreases r.resid
      {
        hide Valid, Cutting, Bytes;
        var amount;
        dmaaddr, more, abnormal, amount, es := Turn(r, start, sg0, resid0, es, dmaaddr, abnormal, before);
        total := total + amount;
      }
    }

    /** Whether nbp can go into the command that bp is in. */
    predicate Joins(bp: Request, nbp: Request, cbn: nat)
      reads nbp, bp`error
    {
      && bp.error == 0 && nbp.read == bp.read && nbp.spare == 0 && nbp.error == 0
      && cbn + bp.bcount / SECTOR == nbp.pblkno
      && And(nbp.addr, startmask) == 0 && nbp.bcount % SECTOR == 0
      && (i2000 ==> (nbp.addr + nbp.bcount - nbp.resid) % NBPP == 0)
    }

    lemma JoinsSays(bp: Request, nbp: Request, cbn: nat)
      requires Joins(bp, nbp, cbn)
      ensures And(nbp.addr, startmask) == 0 && nbp.bcount % SECTOR == 0
      ensures nbp.read == bp.read && nbp.pblkno == cbn + bp.bcount / SECTOR
    {}

    lemma ResumableSays(r: Request)
      requires Resumable(r)
      ensures 0 < r.resid <= r.bcount
    {}

    lemma HeadSays(r: Request, dma: nat)
      requires Valid() && Resumable(r) && dma == r.addr + (r.bcount - r.resid)
      ensures And(dma, addmask) <= addmask
      ensures var temp := if And(dma, addmask) != 0 then addmask + 1 - And(dma, addmask) else 0;
              && temp < r.resid && dma + temp == RoundUp(dma, addmask + 1) && Divides(addmask + 1, dma + temp)
              && (temp > 0 ==> OnePage(Piece(dma, temp)))
    {
      var a := addmask + 1;
      MaskIs(dma, addmask);
      hide PowerOfTwo, And, RoundUp, OnePage;
      var temp := if dma % a != 0 then a - dma % a else 0;
      HeadIsSmall(dma, a, temp);
      SectorAtLeast(r.bcount, a);
      DividesPage(dma, a);
    }

    /** The bytes moved by hand up to the first aligned address. */
    method PutHead(r: Request) returns (dmaaddr: nat)
      requires Valid() && Resumable(r)
      modifies this`bufaddr0, this`count0, r`resid
      ensures Valid() && 0 < r.resid <= old(r.resid) && dmaaddr == r.addr + (r.bcount - r.resid)
      ensures Divides(addmask + 1, dmaaddr) && count0 == old(r.resid) - r.resid
      ensures dmaaddr == RoundUp(r.addr + (r.bcount - old(r.resid)), addmask + 1)
      ensures Covers(Head(), r.addr + (r.bcount - old(r.resid)), dmaaddr) && forall p :: p in Head() ==> OnePage(p)
    {
      hide PowerOfTwo, And, RoundUp, Divides, OnePage, Valid, Resumable;
      ResumableSays(r);
      dmaaddr := r.addr + (r.bcount - r.resid);
      HeadSays(r, dmaaddr);
      var temp := And(dmaaddr, addmask);
      if temp != 0 {
        temp := addmask + 1 - temp;
      }
      bufaddr0, count0 := dmaaddr, temp;
      r.resid := r.resid - temp;
      if temp > 0 {
        CoversMore([], dmaaddr, dmaaddr, temp);
        assert [] + [Piece(dmaaddr, temp)] == Head();
      }
      dmaaddr := dmaaddr + temp;
    }

    /** Entries es, with what is moved by hand, are the memory from a to b; only the last part is cut short. */
    ghost predicate Moves(pieces: seq<Piece>, r: Request, from: nat)
      reads r`resid
    {
      r.resid <= r.bcount && Covers(pieces, from, r.addr + (r.bcount - r.resid)) && forall p :: p in pieces ==> OnePage(p)
    }

    /** How far the memory of a request has been taken into commands. */
    ghost function End(r: Request): nat
      reads r`resid
    {
      if r.resid <= r.bcount then r.addr + (r.bcount - r.resid) else r.addr
    }

    /** The command so far: parts[i] are the entries for bps[i], `at` the address bps[0] goes on from, and
        blocks the disk blocks at which the requests go on. */
    ghost predicate Built(bps: seq<Request>, blocks: seq<nat>, at: nat, parts: seq<seq<Piece>>, total: nat)
      reads `sg, `count0, `bufaddr0, `count1, `bufaddr1, bps`resid
    {
      var n := |parts|;
      && 0 < n <= |bps| == |blocks| && sg == Joined(parts) && |sg| <= maxsg && total == Bytes(sg)
      && Moves(Head() + parts[0] + (if n == 1 then Tail() else []), bps[0], at)
      && count1 <= End(bps[0]) && |parts[0]| == Pages(at + count0, End(bps[0]) - count1)
      && (bps[0].resid == 0 ==> Pages(at + count0, End(bps[0])) <= maxsg)
      && (count1 == 0 ==> (EndPages(parts[0]) <==> AtPage(End(bps[0]))))
      && QueueParts(bps[..n], parts)
      && (n > 1 ==> Head() == [] == Tail())
      && (forall i :: 0 <= i < n - 1 ==> bps[i].resid == 0)
      && (bps[n - 1].resid > 0 ==> |sg| == maxsg && Tail() == [] && AtPage(End(bps[n - 1])))
      && Contiguous(bps[..n], blocks)
    }

    /** The entries for the requests behind the first. */
    ghost predicate QueueParts(done: seq<Request>, parts: seq<seq<Piece>>)
      reads done`resid
    {
      |done| == |parts| &&
      forall i :: 1 <= i < |done| ==> Moves(parts[i], done[i], done[i].addr) && |parts[i]| == Pages(done[i].addr, End(done[i]))
    }

    /** Requests that go in the same direction, each from the block at which the one before would end. */
    ghost predicate Contiguous(done: seq<Request>, blocks: seq<nat>) {
      |done| <= |blocks| &&
      forall i :: 1 <= i < |done| ==> done[i].read == done[0].read && blocks[i] == blocks[i - 1] + done[i - 1].bcount / SECTOR
    }

    lemma OneMore(done: seq<Request>, nbp: Request, blocks: seq<nat>, parts: seq<seq<Piece>>, es: seq<Piece>)
      requires 0 < |done| < |blocks| && QueueParts(done, parts) && Contiguous(done, blocks)
      requires Moves(es, nbp, nbp.addr) && |es| == Pages(nbp.addr, End(nbp)) && nbp.read == done[0].read
      requires blocks[|done|] == blocks[|done| - 1] + done[|done| - 1].bcount / SECTOR
      ensures QueueParts(done + [nbp], parts + [es]) && Contiguous(done + [nbp], blocks)
    {
      hide Moves, Pages, End;
    }

    /** The first request. */
    method First(bp: Request) returns (abnormal: bool, total: nat, ghost es: seq<Piece>)
      requires Valid() && Startable(bp)
      modifies `sg, `bufaddr0, `count0, `bufaddr1, `count1, bp`resid, bp`pblkno
      ensures bp.resid < old(bp.resid) && Built([bp], [old(bp.pblkno)], bp.addr + (bp.bcount - old(bp.resid)), [es], total)
      ensures !abnormal ==> bp.resid == 0 && |sg| < maxsg && count0 == 0
      ensures sg == es
      ensures Divides(cntmask + 1, startmask + 1) ==> (count0 == 0 ==> count1 == 0) && abnormal == Abnormal(count0 > 0, sg)
      ensures bp.addr + (bp.bcount - old(bp.resid)) + count0 == RoundUp(bp.addr + (bp.bcount - old(bp.resid)), addmask + 1)
    {
      hide PowerOfTwo, And, OnePage, Covers, Bytes, Joined, Moves, Pages, RoundUp, EndPages, Resumable, Divides, Valid, Built, Cutting, Head, Tail, Startable;
      FirstFacts(bp);
      ghost var at := bp.addr + (bp.bcount - bp.resid);
      bp.pblkno := 0;
      bufaddr0, count0, bufaddr1, count1, sg := 0, 0, 0, 0, [];
      ghost var resid0 := bp.resid;
      var dmaaddr := PutHead(bp);
      DividesToo(dmaaddr, addmask + 1, cntmask + 1);
      abnormal, total, es := Fill(bp, dmaaddr, count0 > 0);
      FirstIsBuilt(bp, old(bp.pblkno), at, dmaaddr, resid0 - count0, es, total);
    }

    lemma FirstFacts(bp: Request)
      requires Valid() && Startable(bp)
      ensures Divides(cntmask + 1, addmask + 1) && maxsg > 0 && Resumable(bp) && 0 < bp.resid <= bp.bcount
      ensures Divides(cntmask + 1, startmask + 1) ==> Divides(cntmask + 1, bp.resid)
    {
      if Divides(cntmask + 1, startmask + 1) { ResidDivides(bp, bp.resid); }
    }

    lemma FirstIsBuilt(bp: Request, block: nat, at: nat, start: nat, resid0: nat, es: seq<Piece>, total: nat)
      requires bp.resid <= bp.bcount && Cutting(bp, start, [], resid0, es, bp.addr + (bp.bcount - bp.resid), false)
      requires Covers(Head(), at, start) && start == at + count0
      requires (forall p :: p in Head() ==> OnePage(p)) && total == Bytes(es)
      ensures Built([bp], [block], at, [es], total) && sg == es && (Divides(cntmask + 1, resid0) ==> count1 == 0)
    {
      hide Covers, OnePage, Bytes, Divides, Pages, EndPages;
      CoversJoin(Head(), es + Tail(), at, start, bp.addr + (bp.bcount - bp.resid));
      assert Head() + (es + Tail()) == Head() + es + Tail();
      JoinedOne(es);
      assert Moves(Head() + es + Tail(), bp, at);
      assert [] + es == es;
    }

    lemma ResidDivides(bp: Request, resid: nat)
      requires Valid() && And(bp.addr, startmask) == 0 && Divides(cntmask + 1, startmask + 1)
      requires 0 < resid <= bp.bcount && bp.bcount % SECTOR == 0
      requires resid == bp.bcount || (bp.addr + (bp.bcount - resid)) % NBPP == 0
      ensures Divides(cntmask + 1, resid)
    {
      var c := cntmask + 1;
      StartDivides(bp.addr);
      DividesChain(SECTOR, addmask + 1, c);
      DividesChain(bp.bcount, SECTOR, c);
      CountDividesPage();
      if resid != bp.bcount {
        var end := bp.addr + (bp.bcount - resid);
        DividesChain(end, NBPP, c);
        SumDivides(bp.addr, bp.bcount, c);
        SumDivides(bp.addr + bp.bcount, end, c);
        assert bp.addr + bp.bcount - end == resid;
      }
    }

    lemma StartDivides(addr: nat)
      requires Valid() && And(addr, startmask) == 0 && Divides(cntmask + 1, startmask + 1)
      ensures Divides(cntmask + 1, addr)
    {
      MaskIs(addr, startmask);
      DividesChain(addr, startmask + 1, cntmask + 1);
    }

    /** Requests that are wholly in the command. */
    ghost predicate Whole(done: seq<Request>, blocks: seq<nat>, at: nat, parts: seq<seq<Piece>>)
      reads done`resid
    {
      && 0 < |done| == |parts| <= |blocks| && Moves(parts[0], done[0], at)
      && |parts[0]| == Pages(at, End(done[0])) <= maxsg
      && (EndPages(parts[0]) <==> AtPage(End(done[0])))
      && QueueParts(done, parts) && Contiguous(done, blocks)
      && (forall i :: 0 <= i < |done| ==> done[i].resid == 0)
    }

    /** The command can take no further request after these parts: bytes were moved by hand before, the entries
        are used up, or, on an I2000, one of them does not end with a page. */
    ghost predicate Full(parts: seq<seq<Piece>>)
      reads `count0
    {
      count0 > 0 || |Joined(parts)| >= maxsg || (i2000 && !EndPages(Joined(parts)))
    }

    lemma FullSays(parts: seq<seq<Piece>>, es: seq<Piece>)
      requires sg == Joined(parts) + es && count0 == 0 && !Full(parts)
      ensures Full(parts + [es]) <==> Abnormal(false, es)
    {
      JoinedMore(parts, es);
      EndPagesJoin(Joined(parts), es);
      hide EndPages, Joined;
    }

    /** One more request goes into the command. */
    method AddOne(bps: seq<Request>, nbp: Request, ghost blocks: seq<nat>, ghost at: nat, ghost parts: seq<seq<Piece>>, before: nat)
      returns (abnormal: bool, total: nat, ghost now: seq<seq<Piece>>)
      requires Valid() && 0 < |parts| < |bps| == |blocks| && nbp == bps[|parts|] && nbp !in bps[..|parts|]
      requires Built(bps, blocks, at, parts, before) && bps[|parts| - 1].resid == 0 && count0 == count1 == 0 && !Full(parts)
      requires Divides(cntmask + 1, startmask + 1) && And(nbp.addr, startmask) == 0
      requires nbp.bcount > 0 && nbp.bcount % SECTOR == 0
      requires nbp.read == bps[0].read && blocks[|parts|] == blocks[|parts| - 1] + bps[|parts| - 1].bcount / SECTOR
      modifies `sg, `bufaddr1, `count1, nbp`resid, nbp`pblkno
      ensures |now| == |parts| + 1 && Built(bps, blocks, at, now, total) && nbp.resid < nbp.bcount
      ensures count1 == 0 && (!abnormal ==> nbp.resid == 0 && |sg| < maxsg)
      ensures now[..|parts|] == parts && abnormal == Full(now)
    {
      BuiltSoFar(bps, blocks, at, parts, before);
      hide Built, Whole, PowerOfTwo, And, Cutting, Bytes, Joined, Valid, Divides, EndPages, Full;
      ghost var sg0 := sg;
      ghost var es;
      abnormal, total, es := FillWhole(nbp);
      CombinedIsBuilt(bps, nbp, blocks, at, parts, sg0, es, before, total);
      now := parts + [es];
      FullSays(parts, es);
      total := before + total;
    }

    /** All of a request from the queue. */
    method FillWhole(nbp: Request) returns (abnormal: bool, total: nat, ghost es: seq<Piece>)
      requires Valid() && |sg| < maxsg && count1 == 0
      requires Divides(cntmask + 1, startmask + 1) && And(nbp.addr, startmask) == 0
      requires nbp.bcount > 0 && nbp.bcount % SECTOR == 0
      modifies `sg, `bufaddr1, `count1, nbp`resid, nbp`pblkno
      ensures nbp.resid < nbp.bcount && total == Bytes(es) && Divides(cntmask + 1, nbp.bcount)
      ensures Cutting(nbp, nbp.addr, old(sg), nbp.bcount, es, nbp.addr + (nbp.bcount - nbp.resid), false)
      ensures !abnormal ==> nbp.resid == 0 && |sg| < maxsg
      ensures count1 == 0 ==> abnormal == Abnormal(false, es)
    {
      StartDivides(nbp.addr);
      ResidDividesWhole(nbp);
      hide PowerOfTwo, And, Cutting, Bytes, Valid, Divides;
      nbp.pblkno := 0;
      nbp.resid := nbp.bcount;
      abnormal, total, es := Fill(nbp, nbp.addr, false);
    }

    lemma BuiltSoFar(bps: seq<Request>, blocks: seq<nat>, at: nat, parts: seq<seq<Piece>>, total: nat)
      requires Built(bps, blocks, at, parts, total) && count0 == count1 == 0 && bps[|parts| - 1].resid == 0
      ensures sg == Joined(parts) && total == Bytes(sg) && Whole(bps[..|parts|], blocks, at, parts)
      ensures !Full(parts) ==> |sg| < maxsg
    {
      hide Moves, Bytes, Joined, Pages, EndPages, Valid, QueueParts, Contiguous, End, AtPage;
      assert [] + parts[0] + [] == parts[0];
    }

    lemma FirstOfMany(bps: seq<Request>, blocks: seq<nat>, at: nat, es: seq<Piece>, total: nat)
      requires |bps| > 0 && |blocks| == |bps| && Built([bps[0]], [blocks[0]], at, [es], total)
      ensures Built(bps, blocks, at, [es], total)
    {
      hide Moves, Bytes, Joined;
    }

    lemma ResidDividesWhole(bp: Request)
      requires Valid() && bp.bcount % SECTOR == 0
      ensures Divides(cntmask + 1, bp.bcount)
    {
      DividesChain(SECTOR, addmask + 1, cntmask + 1);
      DividesChain(bp.bcount, SECTOR, cntmask + 1);
    }

    lemma CombinedIsBuilt(bps: seq<Request>, nbp: Request, blocks: seq<nat>, at: nat, parts: seq<seq<Piece>>,
                          sg0: seq<Piece>, es: seq<Piece>, before: nat, more: nat)
      requires 0 < |parts| < |bps| == |blocks| && nbp == bps[|parts|] && Whole(bps[..|parts|], blocks, at, parts)
      requires sg0 == Joined(parts) && before == Bytes(sg0) && more == Bytes(es) && count0 == 0
      requires nbp.resid < nbp.bcount && Divides(cntmask + 1, nbp.bcount)
      requires Cutting(nbp, nbp.addr, sg0, nbp.bcount, es, nbp.addr + (nbp.bcount - nbp.resid), false)
      requires nbp.read == bps[0].read && blocks[|parts|] == blocks[|parts| - 1] + bps[|parts| - 1].bcount / SECTOR
      ensures Built(bps, blocks, at, parts + [es], before + more) && count1 == 0
    {
      hide Covers, OnePage, Bytes, Divides, Joined, Pages, Valid, QueueParts, Contiguous, EndPages;
      var done := bps[..|parts|];
      JoinedMore(parts, es);
      BytesJoin(sg0, es);
      assert es + Tail() == es;
      assert Head() + parts[0] + [] == parts[0];
      assert Moves(es, nbp, nbp.addr);
      OneMore(done, nbp, blocks, parts, es);
      assert bps[..|parts| + 1] == done + [nbp];
      hide Moves, Cutting;
      forall i | 0 <= i < |parts| ensures bps[i].resid == 0 { assert done[i] == bps[i]; }
    }

    /** What the code demands of a request to be started that needs no bounce buffer. */
    predicate Startable(bp: Request)
      reads bp`resid
    {
      And(bp.addr, startmask) == 0 && Resumable(bp)
    }

    /** The first of several requests; what decides about the others stays. */
    method FirstOf(bp: Request, bps: seq<Request>, ghost blocks: seq<nat>) returns (abnormal: bool, bytes: nat, ghost es: seq<Piece>)
      requires Valid() && 0 < |bps| == |blocks| && Distinct(bps) && bp == bps[0] && Startable(bp) && blocks[0] == bp.pblkno
      requires |bps| == 1 || Divides(cntmask + 1, startmask + 1)
      modifies `sg, `bufaddr0, `count0, `bufaddr1, `count1, bp`resid, bp`pblkno
      ensures var at := bps[0].addr + (bps[0].bcount - old(bps[0].resid));
              Built(bps, blocks, at, [es], bytes) && at + count0 == RoundUp(at, addmask + 1)
      ensures bps[0].resid < old(bps[0].resid) && (|bps| > 1 ==> abnormal == Full([es]) && (count0 == 0 ==> count1 == 0))
      ensures !abnormal ==> bps[0].resid == 0 && |sg| < maxsg && count0 == 0 && (|bps| > 1 ==> count1 == 0)
      ensures forall i :: 1 <= i < |bps| ==> JoinsAt(bps, blocks, i) == old(JoinsAt(bps, blocks, i))
    {
      hide Built, PowerOfTwo, And, Divides, Valid, Distinct, Joins, Full, RoundUp, Startable;
      FirstFacts(bp);
      OnlyFirst(bps);
      ghost var at := bps[0].addr + (bps[0].bcount - bps[0].resid);
      abnormal, bytes, es := First(bp);
      FirstOfMany(bps, blocks, at, es, bytes);
      FirstFull(es);
    }

    /** The entries of a command, and what is moved by hand before and after them. */
    method Gather(bps: seq<Request>) returns (bytes: nat, ghost parts: seq<seq<Piece>>)
      requires Valid() && |bps| > 0 && Distinct(bps) && Startable(bps[0])
      requires forall i :: 1 <= i < |bps| ==> bps[i].bcount > 0
      requires |bps| == 1 || Divides(cntmask + 1, startmask + 1)
      modifies `sg, `bufaddr0, `count0, `bufaddr1, `count1, bps`resid, bps`pblkno
      ensures Built(bps, old(Blocks(bps)), bps[0].addr + (bps[0].bcount - old(bps[0].resid)), parts, bytes)
      ensures bps[0].resid < old(bps[0].resid) && 0 < |parts| <= |bps| && (|bps| > 1 && count0 == 0 ==> count1 == 0)
      ensures var at := bps[0].addr + (bps[0].bcount - old(bps[0].resid)); at + count0 == RoundUp(at, addmask + 1)
      ensures forall i :: 1 <= i < |parts| ==> old(JoinsAt(bps, Blocks(bps), i)) && !Full(parts[..i])
      ensures |parts| < |bps| ==> !old(JoinsAt(bps, Blocks(bps), |parts|)) || Full(parts)
    {
      hide Built, PowerOfTwo, And, Divides, Valid, Distinct, Blocks, JoinsAt, Full, RoundUp, Startable, Joined;
      FirstFacts(bps[0]);
      OnlyFirst(bps);
      ghost var blocks, at := Blocks(bps), bps[0].addr + (bps[0].bcount - bps[0].resid);
      var cbn := bps[0].pblkno;
      var abnormal;
      ghost var es;
      abnormal, bytes, es := FirstOf(bps[0], bps, blocks);
      bytes, parts := CombineAll(bps, blocks, at, es, cbn, abnormal, bytes);
    }

    /** common_scsi_sgsetup.  bps is the request to be started and the queue behind it; as many of them go into
        the command as there are parts. */
    method Setup(bps: seq<Request>) returns (total: nat, ghost parts: seq<seq<Piece>>)
      requires Valid() && |bps| > 0 && Distinct(bps) && Startable(bps[0])
      requires forall i :: 1 <= i < |bps| ==> bps[i].bcount > 0
      requires |bps| == 1 || Divides(cntmask + 1, startmask + 1)
      modifies `sg, `bufaddr0, `count0, `bufaddr1, `count1, `bn, `prevSecs, bps`resid, bps`pblkno
      ensures total >= count0 + count1 && bps[0].resid < old(bps[0].resid) && 0 < |parts| <= |bps| && (|bps| > 1 && count0 == 0 ==> count1 == 0)
      ensures Built(bps, old(Blocks(bps)), bps[0].addr + (bps[0].bcount - old(bps[0].resid)), parts, total - count0 - count1)
      ensures bn == old(bn) + total / SECTOR && prevSecs == total / SECTOR
      ensures var at := bps[0].addr + (bps[0].bcount - old(bps[0].resid)); at + count0 == RoundUp(at, addmask + 1)
      ensures forall i :: 1 <= i < |parts| ==> old(JoinsAt(bps, Blocks(bps), i)) && !Full(parts[..i])
      ensures |parts| < |bps| ==> !old(JoinsAt(bps, Blocks(bps), |parts|)) || Full(parts)
    {
      hide Built, Blocks, Distinct, Divides, Startable, Valid, JoinsAt, Full, RoundUp;
      total, parts := Gather(bps);
      total := total + (count0 + count1);
      var amount := total / SECTOR;
      bn := bn + amount;
      prevSecs := amount;
    }

    /** The entries are enough for what is left exactly if its pages are no more than they. */
    lemma OneEnough(bp: Request, blocks: seq<nat>, at: nat, parts: seq<seq<Piece>>, bytes: nat)
      requires Built([bp], blocks, at, parts, bytes) && maxsg > 0
      ensures bp.resid == 0 <==> Pages(at + count0, bp.addr + bp.bcount) <= maxsg
    {
      hide Bytes, Covers, OnePage, EndPages, Pages;
      assert parts == [parts[0]];
      JoinedOne(parts[0]);
      if bp.resid > 0 {
        assert count1 == 0 && |parts[0]| == maxsg;
        if at + count0 <= End(bp) { PagesPast(at + count0, End(bp), bp.addr + bp.bcount); }
        NoPages(at + count0, End(bp));
      }
    }

    lemma NoPages(a: nat, b: nat)
      ensures Pages(a, b) > 0 ==> a <= b
    {}

    /** A request for the memory from at to end leaves room for another: nothing of it is moved by hand before, an
        entry is left, and, on an I2000, it ends with a page. */
    predicate LeavesRoom(at: nat, end: nat) {
      at % (addmask + 1) == 0 && Pages(at, end) < maxsg && (i2000 ==> end % NBPP == 0)
    }

    lemma FirstLeavesRoom(bps: seq<Request>, blocks: seq<nat>, at: nat, parts: seq<seq<Piece>>, bytes: nat)
      requires Built(bps, blocks, at, parts, bytes) && at + count0 == RoundUp(at, addmask + 1) && (count0 == 0 ==> count1 == 0)
      ensures !Full(parts[..1]) <==> LeavesRoom(at, bps[0].addr + bps[0].bcount)
    {
      hide Covers, OnePage, Bytes, EndPages, Pages, QueueParts, Contiguous;
      assert parts[..1] == [parts[0]];
      JoinedOne(parts[0]);
      if bps[0].resid > 0 && count0 == 0 {
        assert |parts| == 1 && parts == [parts[0]] && |parts[0]| == maxsg;
        if at <= End(bps[0]) { PagesPast(at, End(bps[0]), bps[0].addr + bps[0].bcount); }
        NoPages(at, End(bps[0]));
      }
    }

    /** A command for one request. */
    lemma OnePart(bp: Request, blocks: seq<nat>, at: nat, parts: seq<seq<Piece>>, bytes: nat)
      requires Built([bp], blocks, at, parts, bytes) && maxsg > 0 && at + count0 == RoundUp(at, addmask + 1)
      ensures |parts| == 1 && Moves(Head() + parts[0] + Tail(), bp, at) && at <= bp.addr + (bp.bcount - bp.resid)
      ensures bytes + count0 + count1 == bp.addr + (bp.bcount - bp.resid) - at
      ensures bp.resid > 0 ==> (bp.addr + (bp.bcount - bp.resid)) % NBPP == 0
      ensures bp.resid == 0 <==> Pages(RoundUp(at, addmask + 1), bp.addr + bp.bcount) <= maxsg
    {
      OneEnough(bp, blocks, at, parts, bytes);
      hide Pages, RoundUp, EndPages;
      assert parts == [parts[0]];
      JoinedOne(parts[0]);
      var head, tail := Head(), Tail();
      BytesJoin(head + parts[0], tail);
      BytesJoin(head, parts[0]);
      CoversBytes(head + parts[0] + tail, at, bp.addr + (bp.bcount - bp.resid));
      CoversOrder(head + parts[0] + tail, at, bp.addr + (bp.bcount - bp.resid));
      BytesOne(head, bufaddr0, count0);
      BytesOne(tail, bufaddr1, count1);
    }

    /** The command for a request with none behind it. */
    method SetupOne(bp: Request) returns (ghost pieces: seq<Piece>)
      requires Valid() && Startable(bp)
      modifies `sg, `bufaddr0, `count0, `bufaddr1, `count1, `bn, `prevSecs, bp`resid, bp`pblkno
      ensures bp.resid < old(bp.resid)
      ensures Moves(pieces, bp, bp.addr + (bp.bcount - old(bp.resid)))
      ensures bp.resid > 0 ==> (bp.addr + (bp.bcount - bp.resid)) % NBPP == 0
      ensures prevSecs == (old(bp.resid) - bp.resid) / SECTOR
      ensures bp.resid == 0 <==>
              Pages(RoundUp(bp.addr + (bp.bcount - old(bp.resid)), addmask + 1), bp.addr + bp.bcount) <= maxsg
    {
      ghost var parts, resid := [], bp.resid;
      ghost var at: nat, blocks := bp.addr + (bp.bcount - resid), Blocks([bp]);
      assert maxsg > 0;
      hide Built, And, Startable, Valid, Moves, Head, Tail, Pages, RoundUp;
      var total;
      total, parts := Setup([bp]);
      OnePart(bp, blocks, at, parts, total - (count0 + count1));
      pieces := Head() + parts[0] + Tail();
      assert total == resid - bp.resid;
    }

    lemma FirstFull(es: seq<Piece>)
      requires sg == es
      ensures Full([es]) == Abnormal(count0 > 0, sg)
    {
      JoinedOne(es);
    }

    /** Whether the i-th request passes the tests to go behind the one before. */
    ghost predicate JoinsAt(bps: seq<Request>, blocks: seq<nat>, i: nat)
      requires 0 < i < |bps| == |blocks|
      reads bps
    {
      Joins(bps[i - 1], bps[i], blocks[i - 1])
    }

    /** Requests from the queue, as long as they can be combined. */
    method CombineAll(bps: seq<Request>, ghost blocks: seq<nat>, ghost at: nat, ghost es: seq<Piece>, block: nat, before: bool, bytes: nat)
      returns (total: nat, ghost parts: seq<seq<Piece>>)
      requires Valid() && 0 < |bps| == |blocks| && Distinct(bps) && block == blocks[0]
      requires Built(bps, blocks, at, [es], bytes)
      requires |bps| == 1 || Divides(cntmask + 1, startmask + 1)
      requires forall i :: 1 <= i < |bps| ==> bps[i].bcount > 0 && bps[i].pblkno == blocks[i]
      requires !before ==> bps[0].resid == 0 && |sg| < maxsg && count0 == 0 && (|bps| > 1 ==> count1 == 0)
      requires |bps| > 1 ==> before == Full([es])
      modifies `sg, `bufaddr1, `count1, bps[1..]`resid, bps[1..]`pblkno
      ensures Built(bps, blocks, at, parts, total) && 0 < |parts| <= |bps| && (old(count1) == 0 ==> count1 == 0)
      ensures forall i :: 1 <= i < |parts| ==> old(JoinsAt(bps, blocks, i)) && !Full(parts[..i])
      ensures |parts| < |bps| ==> !old(JoinsAt(bps, blocks, |parts|)) || Full(parts)
    {
      hide Built, PowerOfTwo, And, Divides, Joins, Valid, Full, Joined;
      parts, total := [es], bytes;
      var bp, cbn, abnormal := bps[0], block, before;
      var used := 1;
      while !abnormal && used < |bps| && Joins(bp, bps[used], cbn)
        invariant 0 < used == |parts| <= |bps| && bp == bps[used - 1] && cbn == blocks[used - 1]
        invariant Built(bps, blocks, at, parts, total)
        invariant !abnormal ==> bp.resid == 0 && |sg| < maxsg && count0 == 0 && (|bps| > 1 ==> count1 == 0)
        invariant (|bps| > 1 ==> abnormal == Full(parts)) && (old(count1) == 0 ==> count1 == 0)
        invariant forall i :: 1 <= i < used ==> old(JoinsAt(bps, blocks, i)) && !Full(parts[..i])
        invariant forall i :: used <= i < |bps| ==> bps[i].resid == old(bps[i].resid)
        invariant bp.read == bps[0].read && forall i :: used <= i < |bps| ==> bps[i].pblkno == blocks[i]
      {
        JoinsSays(bp, bps[used], cbn);
        ghost var soFar := parts;
        cbn := bps[used].pblkno;
        assert bps[used] == bps[1..][used - 1];
        abnormal, total, parts := AddOne(bps, bps[used], blocks, at, parts, total);
        assert forall i :: 1 <= i < used ==> parts[..i] == soFar[..i];
        bp := bps[used];
        used := used + 1;
      }
      assert parts[..|parts|] == parts;
    }
  }

  /** If a request has been started before, it goes on from the start of a page. */
  predicate Resumable(bp: Request)
    reads bp`resid
  {
    && bp.bcount % SECTOR == 0 && 0 < bp.resid <= bp.bcount
    && (bp.resid == bp.bcount || (bp.addr + (bp.bcount - bp.resid)) % NBPP == 0)
  }

  ghost predicate Distinct(bps: seq<Request>) {
    forall i, j :: 0 <= i < j < |bps| ==> bps[i] != bps[j]
  }

  lemma OnlyFirst(bps: seq<Request>)
    requires |bps| > 0 && Distinct(bps)
    ensures bps[0] !in bps[1..] && forall i :: 1 <= i < |bps| ==> bps[i] != bps[0]
  {
    assert forall i :: 1 <= i < |bps| ==> bps[1..][i - 1] == bps[i];
  }

  ghost function Blocks(bps: seq<Request>): (b: seq<nat>)
    reads bps
    ensures |b| == |bps| && forall i :: 0 <= i < |bps| ==> b[i] == bps[i].pblkno
  {
    if bps == [] then [] else Blocks(bps[..|bps| - 1]) + [bps[|bps| - 1].pblkno]
  }

  lemma BytesOne(ps: seq<Piece>, addr: nat, n: nat)
    requires ps == if n == 0 then [] else [Piece(addr, n)]
    ensures Bytes(ps) == n
  {
    if n > 0 {
      BytesMore([], Piece(addr, n));
      assert [] + [Piece(addr, n)] == ps;
    }
  }

  lemma DividesToo(x: nat, m: nat, c: nat)
    requires Divides(m, x) && Divides(c, m)
    ensures Divides(c, x)
  {
    DividesChain(x, m, c);
  }

  lemma EndsPage(dma: nat, n: nat)
    requires n > 0 && dma % NBPP + n <= NBPP
    ensures n == NBPP - dma % NBPP <==> (dma + n) % NBPP == 0
  {}

  lemma AtMost(n: nat, c: nat)
    ensures c > 0 ==> n % c <= n
  {
    if c > 0 && n >= c { assert n % c < c; }
  }

  lemma CountLeft(n: nat, c: nat)
    ensures c > 0 && n % c > 0 ==> !Divides(c, n)
  {}

  lemma HeadIsSmall(dma: nat, a: nat, temp: nat)
    requires Divides(a, SECTOR) && temp == if dma % a == 0 then 0 else a - dma % a
    ensures dma + temp == RoundUp(dma, a)
    ensures temp < a && Divides(a, dma + temp)
    ensures temp > 0 ==> OnePage(Piece(dma, temp))
  {
    FloorDivides(dma, a);
    if temp > 0 {
      SumDivides(dma - dma % a, a, a);
      DividesChain(NBPP, SECTOR, a);
      RestOfPage(dma - dma % a, a);
      NotPastPage(dma - dma % a, a, dma % a);
    }
  }

  /** An aligned stretch as long as the alignment stays in its page. */
  lemma NotPastPage(base: nat, a: nat, o: nat)
    requires a > 0 && NBPP % a == 0 && base % a == 0 && o < a && (NBPP - base % NBPP) % a == 0
    ensures OnePage(Piece(base + o, a - o))
  {
    Smallest(NBPP - base % NBPP, a);
    SplitPage(base, a, a - o);
  }

  lemma Smallest(x: nat, a: nat)
    requires a > 0
    ensures x > 0 && x % a == 0 ==> x >= a
  {
    if x < a { assert x % a == x; }
  }

  lemma SectorAtLeast(n: nat, a: nat)
    requires Divides(a, SECTOR)
    ensures a <= SECTOR && (n > 0 && n % SECTOR == 0 ==> n >= SECTOR)
  {
    Smallest(SECTOR, a);
  }

  lemma DividesPage(dma: nat, a: nat)
    requires Divides(a, SECTOR)
    ensures dma % NBPP == 0 ==> dma % a == 0
  {
    DividesChain(NBPP, SECTOR, a);
    if dma % NBPP == 0 {
      DividesChain(dma, NBPP, a);
    }
  }
}
