/** Requests from submission to completion (common_scsi_start, common_scsi_command and the end of
    common_scsi_intr in SA/saio/common_scsi.c): what one command could not take is queued again, and every byte
    reaches its place on the disk once. */
module ScsiQueue {
  import opened Masks
  import opened ScsiPieces
  import opened ScsiTransfer

  /** One command: the disk block it starts at, and the memory it moves, from `start` to `end`. */
  datatype Pass = Pass(block: nat, start: nat, end: nat, pieces: seq<Piece>)

  /** What is still to be moved of a request that is to be started. */
  function Left(spare: nat, bcount: nat): nat {
    if spare > 0 then spare else bcount
  }

  /** common_scsi_start and the beginning of common_scsi_command: where to go on. */
  method Prepare(un: Unit, bp: Request)
    requires bp.spare <= bp.bcount
    modifies un`bn, un`prevBn, un`prevSecs, bp`resid, bp`spare
    ensures bp.resid == Left(old(bp.spare), bp.bcount) && bp.spare == 0
    ensures un.prevBn == un.bn == bp.block + (bp.bcount - bp.resid) / SECTOR
  {
    un.bn := bp.block;
    if bp.spare > 0 {
      bp.resid := bp.spare;
      un.bn := un.bn + (bp.bcount - bp.resid) / SECTOR;
      bp.spare := 0;
    } else {
      bp.resid := bp.bcount;
    }
    un.prevBn := un.bn;
    un.prevSecs := 0;
  }

  /** The pieces of a pass are its memory, in order, each within a page. */
  ghost predicate InPieces(pass: Pass) {
    Covers(pass.pieces, pass.start, pass.end) && forall p :: p in pass.pieces ==> OnePage(p)
  }

  /** The pages of the memory from a to b, less what is moved by hand up to the first aligned address, are no
      more than a command has entries. */
  predicate Fits(un: Unit, a: nat, b: nat) {
    Pages(RoundUp(a, un.addmask + 1), b) <= un.maxsg
  }

  /** A command for a request alone in its queue. */
  method Start(un: Unit, bp: Request) returns (ghost pass: Pass)
    requires un.Valid() && And(bp.addr, un.startmask) == 0 && bp.bcount > 0 && bp.bcount % SECTOR == 0
    requires bp.spare <= bp.bcount
    requires bp.spare > 0 ==> (bp.addr + (bp.bcount - bp.spare)) % NBPP == 0
    modifies un, bp`resid, bp`spare, bp`pblkno
    ensures bp.resid < Left(old(bp.spare), bp.bcount) <= bp.bcount && bp.spare == 0
    ensures pass.start == bp.addr + (bp.bcount - Left(old(bp.spare), bp.bcount)) && InPieces(pass)
    ensures pass.end == bp.addr + (bp.bcount - bp.resid) && (bp.resid > 0 ==> pass.end % NBPP == 0)
    ensures pass.block == un.prevBn == bp.block + (pass.start - bp.addr) / SECTOR
    ensures un.prevSecs == (pass.end - pass.start) / SECTOR
    ensures bp.resid == 0 <==> Fits(un, pass.start, bp.addr + bp.bcount)
  {
    hide And, PowerOfTwo, Unit.Moves, InPieces;
    Prepare(un, bp);
    ghost var start := bp.addr + (bp.bcount - bp.resid);
    ghost var pieces := un.SetupOne(bp);
    pass := Pass(un.prevBn, start, bp.addr + (bp.bcount - bp.resid), pieces);
    MovesInPieces(un, bp, pass);
  }

  lemma MovesInPieces(un: Unit, bp: Request, pass: Pass)
    requires un.Moves(pass.pieces, bp, pass.start) && pass.end == bp.addr + (bp.bcount - bp.resid)
    ensures InPieces(pass)
  {}

  /** Passes that follow one another through memory, each starting at the disk block the driver computes. */
  ghost predicate Follow(bp: Request, passes: seq<Pass>, to: nat) {
    && (if passes == [] then to == bp.addr else passes[0].start == bp.addr && passes[|passes| - 1].end == to)
    && (forall i :: 0 <= i < |passes| ==>
          && passes[i].start < passes[i].end && InPieces(passes[i])
          && bp.addr <= passes[i].start && passes[i].block == bp.block + (passes[i].start - bp.addr) / SECTOR)
    && (forall i :: 1 <= i < |passes| ==> passes[i].start == passes[i - 1].end && passes[i].start % NBPP == 0)
  }

  lemma FollowMore(bp: Request, passes: seq<Pass>, to: nat, next: Pass)
    requires Follow(bp, passes, to) && InPieces(next) && next.start == to < next.end
    requires bp.addr <= to && next.block == bp.block + (to - bp.addr) / SECTOR && (passes != [] ==> to % NBPP == 0)
    ensures Follow(bp, passes + [next], next.end)
  {
    hide InPieces;
    var now := passes + [next];
    forall i | 0 <= i < |now| ensures now[i] == next || (i < |passes| && now[i] == passes[i]) {}
  }

  /** A byte of memory goes where it belongs on the disk. */
  predicate InPlace(bp: Request, pass: Pass, x: nat) {
    pass.block * SECTOR + (x - pass.start) == bp.block * SECTOR + (x - bp.addr)
  }

  /** Every byte reaches its own place on the disk. */
  ghost predicate Placed(bp: Request, passes: seq<Pass>) {
    forall i, x :: 0 <= i < |passes| && passes[i].start <= x < passes[i].end ==> InPlace(bp, passes[i], x)
  }

  /** A request from its submission until nothing is left of it: after each command, the end of
      common_scsi_intr queues what is left again.  Every byte reaches its own place on the disk exactly if one
      command is enough for the pages of the request, or its buffer starts at a multiple of the sector size in
      memory, so that requests are split at sectors. */
  method Carry(un: Unit, bp: Request) returns (ghost passes: seq<Pass>)
    requires un.Valid() && And(bp.addr, un.startmask) == 0 && bp.bcount > 0 && bp.bcount % SECTOR == 0
    requires bp.spare == 0
    modifies un, bp
    ensures passes != [] && Follow(bp, passes, bp.addr + bp.bcount) && bp.resid == 0
    ensures |passes| == 1 <==> Fits(un, bp.addr, bp.addr + bp.bcount)
    ensures Placed(bp, passes) <==> Fits(un, bp.addr, bp.addr + bp.bcount) || bp.addr % SECTOR == 0
  {
    hide And, PowerOfTwo, Unit.Valid, InPieces, Fits, Placed;
    passes := [];
    bp.resid := bp.bcount;
    while bp.resid > 0
      invariant bp.resid <= bp.bcount && (if passes == [] then bp.resid == bp.bcount && bp.spare == 0 else bp.spare == bp.resid)
      invariant Follow(bp, passes, bp.addr + (bp.bcount - bp.resid))
      invariant passes != [] && bp.resid > 0 ==> (bp.addr + (bp.bcount - bp.resid)) % NBPP == 0
      invariant bp.resid == 0 ==> passes != []
      invariant passes != [] ==> (|passes| == 1 && bp.resid == 0 <==> Fits(un, bp.addr, bp.addr + bp.bcount))
      decreases bp.resid
    {
      ghost var to: nat := bp.addr + (bp.bcount - bp.resid);
      ghost var pass := Start(un, bp);
      FollowMore(bp, passes, to, pass);
      passes := passes + [pass];
      if bp.resid > 0 {
        bp.spare := bp.resid;
        bp.pblkno := bp.block + (bp.bcount - bp.resid) / SECTOR;
      }
    }
    AllInPlace(bp, passes, bp.addr + bp.bcount);
  }

  /** Every byte of a request is moved by exactly one pass. */
  lemma {:induction false} MovedOnce(bp: Request, passes: seq<Pass>, to: nat, x: nat) returns (i: nat)
    requires Follow(bp, passes, to) && bp.addr <= x < to
    ensures i < |passes| && passes[i].start <= x < passes[i].end
    ensures forall j :: 0 <= j < |passes| && passes[j].start <= x < passes[j].end ==> j == i
    decreases |passes|
  {
    hide InPieces;
    assert passes != [];
    var last, rest := passes[|passes| - 1], passes[..|passes| - 1];
    assert Follow(bp, rest, last.start);
    StartsBefore(bp, rest, last.start);
    if x < last.start {
      i := MovedOnce(bp, rest, last.start, x);
    } else {
      i := |passes| - 1;
    }
    forall j | 0 <= j < |passes| && passes[j].start <= x < passes[j].end ensures j == i {
      if j < |rest| { assert rest[j] == passes[j]; }
    }
  }

  lemma {:induction false} StartsBefore(bp: Request, passes: seq<Pass>, to: nat)
    requires Follow(bp, passes, to)
    ensures forall j :: 0 <= j < |passes| ==> passes[j].end <= to
    decreases |passes|
  {
    hide InPieces;
    if passes != [] {
      var last, rest := passes[|passes| - 1], passes[..|passes| - 1];
      assert Follow(bp, rest, last.start);
      StartsBefore(bp, rest, last.start);
      forall j | 0 <= j < |passes| ensures passes[j].end <= to {
        if j < |rest| { assert rest[j] == passes[j]; }
      }
    }
  }

  /** A request for 17 pages from address 256 on, with 16 entries, does not get to its place. */
  method SplitInMidSector() returns (un: Unit, bp: Request, ghost passes: seq<Pass>)
    ensures un.maxsg == 16 && bp.addr == 256 && bp.bcount == 17 * NBPP
    ensures Follow(bp, passes, bp.addr + bp.bcount) && !Placed(bp, passes)
  {
    FourIsPower();
    hide PowerOfTwo, And, Pow2;
    un := new Unit(3, 3, 3, 16, false);
    bp := new Request(256, 17 * NBPP, 0, true);
    MaskIs(256, 3);
    passes := Carry(un, bp);
  }

  lemma FourIsPower()
    ensures PowerOfTwo(3 + 1)
  {
    assert Pow2(2) == 4;
  }

  lemma AllInPlace(bp: Request, passes: seq<Pass>, to: nat)
    requires passes != [] && Follow(bp, passes, to)
    ensures Placed(bp, passes) <==> |passes| == 1 || bp.addr % SECTOR == 0
  {
    hide InPieces;
    forall i, x | 0 <= i < |passes| && passes[i].start <= x < passes[i].end
      ensures InPlace(bp, passes[i], x) <==> i == 0 || bp.addr % SECTOR == 0
    {
      if i > 0 {
        SplitAtSector(bp.addr, passes[i].start);
      }
      BlockStart(passes[i].start - bp.addr);
    }
    if |passes| > 1 {
      assert passes[1].start <= passes[1].start < passes[1].end;
      assert InPlace(bp, passes[1], passes[1].start) <==> bp.addr % SECTOR == 0;
    }
  }

  lemma SplitAtSector(addr: nat, start: nat)
    requires addr <= start && start % NBPP == 0
    ensures (start - addr) % SECTOR == 0 <==> addr % SECTOR == 0
  {}

  lemma BlockStart(n: nat)
    ensures n / SECTOR * SECTOR == n <==> n % SECTOR == 0
  {}

  // ----- requests combined into one command

  /** What is queued of a request goes on at the block of its first byte not yet moved. */
  predicate Queued(bp: Request)
    reads bp
  {
    bp.bcount > 0 && bp.spare < bp.bcount && bp.pblkno == bp.block + (bp.bcount - Left(bp.spare, bp.bcount)) / SECTOR
  }

  /** Whether the request behind the first goes into its command: it passes the tests, and the first leaves room. */
  predicate Followed(un: Unit, bps: seq<Request>)
    reads bps
  {
    && |bps| > 1 && bps[0].spare <= bps[0].bcount && un.Joins(bps[0], bps[1], bps[0].pblkno)
    && un.LeavesRoom(bps[0].addr + (bps[0].bcount - Left(bps[0].spare, bps[0].bcount)), bps[0].addr + bps[0].bcount)
  }

  /** The byte of the disk at which the i-th request of a command starts: the command moves its bytes to, or
      from, one block after another. */
  ghost function Landing(un: Unit, parts: seq<seq<Piece>>, i: nat): nat
    requires i <= |parts|
    reads un
  {
    un.prevBn * SECTOR + Bytes(Joined(parts[..i]))
  }

  /** common_scsi_start for a request with a queue behind it.  Each request that goes into its command lands as
      far before its place as the first has been moved before, for the test of contiguity adds the whole length of
      the first to the block it goes on from.  So all are in their places exactly if the first is no remainder, or
      is not followed. */
  method StartQueue(un: Unit, bps: seq<Request>) returns (ghost parts: seq<seq<Piece>>)
    requires un.Valid() && |bps| > 0 && Distinct(bps) && And(bps[0].addr, un.startmask) == 0 && bps[0].bcount % SECTOR == 0
    requires forall i :: 0 <= i < |bps| ==> Queued(bps[i])
    requires bps[0].spare > 0 ==> (bps[0].addr + (bps[0].bcount - bps[0].spare)) % NBPP == 0
    requires |bps| == 1 || Divides(un.cntmask + 1, un.startmask + 1)
    modifies un, bps
    ensures 0 < |parts| <= |bps| && (|parts| > 1 <==> old(Followed(un, bps)))
    ensures forall i :: 1 <= i < |parts| ==>
              Landing(un, parts, i) == bps[i].block * SECTOR - (bps[0].bcount - old(Left(bps[0].spare, bps[0].bcount)))
    ensures (forall i :: 1 <= i < |parts| ==> Landing(un, parts, i) == bps[i].block * SECTOR)
            <==> old(bps[0].spare) == 0 || !old(Followed(un, bps))
  {
    hide Unit.Built, Distinct, PowerOfTwo, And, Unit.Joins, Unit.Full, Joined, Bytes, Divides, Blocks, Pages, RoundUp,
      Unit.LeavesRoom, Landing, Unit.Valid;
    OnlyFirst(bps);
    ghost var at: nat := bps[0].addr + (bps[0].bcount - Left(bps[0].spare, bps[0].bcount));
    Prepare(un, bps[0]);
    ghost var blocks := Blocks(bps);
    OthersWhole(un, bps, blocks);
    var total;
    total, parts := un.Setup(bps);
    assert |parts| == 1 ==> parts[..1] == parts;
    if |bps| > 1 { un.FirstLeavesRoom(bps, blocks, at, parts, total - un.count0 - un.count1); }
    forall i | 1 <= i < |parts|
      ensures Landing(un, parts, i) == bps[i].block * SECTOR - (at - bps[0].addr)
    {
      PartLands(un, bps, blocks, at, parts, total - un.count0 - un.count1, i);
    }
  }

  /** Of a request for 16 sectors 8 have been moved; the request for sector 24 goes into the command for the rest,
      and its data go to sector 16. */
  method RemainderCombined() returns (un: Unit, a: Request, b: Request, ghost parts: seq<seq<Piece>>)
    ensures a.block == 0 && a.bcount == 16 * SECTOR && b.block == 24
    ensures |parts| == 2 && Landing(un, parts, 1) == 16 * SECTOR
  {
    FourIsPower();
    hide PowerOfTwo, And, Pow2, Landing;
    un := new Unit(3, 3, 3, 16, false);
    a := new Request(0, 16 * SECTOR, 0, true);
    b := new Request(16 * NBPP, 8 * SECTOR, 24, true);
    a.spare, a.pblkno := 8 * SECTOR, 8;
    MaskIs(0, 3);
    MaskIs(16 * NBPP, 3);
    parts := StartQueue(un, [a, b]);
  }

  /** Requests that pass the tests have not been started before. */
  lemma OthersWhole(un: Unit, bps: seq<Request>, blocks: seq<nat>)
    requires 0 < |bps| && blocks == Blocks(bps) && forall i :: 1 <= i < |bps| ==> Queued(bps[i])
    ensures forall i :: 1 <= i < |bps| && un.JoinsAt(bps, blocks, i) ==> bps[i].bcount % SECTOR == 0 && blocks[i] == bps[i].block
  {
    hide And;
  }

  lemma PartLands(un: Unit, bps: seq<Request>, blocks: seq<nat>, at: nat, parts: seq<seq<Piece>>, bytes: nat, i: nat)
    requires un.Built(bps, blocks, at, parts, bytes) && 1 <= i < |parts| <= |bps| == |blocks|
    requires bps[0].addr <= at <= bps[0].addr + bps[0].bcount && un.prevBn == blocks[0] && bps[0].bcount % SECTOR == 0
    requires forall j :: 1 <= j < |parts| ==> bps[j].bcount % SECTOR == 0 && blocks[j] == bps[j].block
    ensures Landing(un, parts, i) == bps[i].block * SECTOR - (at - bps[0].addr)
  {
    hide Unit.Built, Joined, Bytes;
    BuiltContiguous(un, bps, blocks, at, parts, bytes);
    CombinedAt(bps, blocks, |parts|, i);
    BytesSoFar(un, bps, blocks, at, parts, bytes, i);
  }

  lemma BuiltContiguous(un: Unit, bps: seq<Request>, blocks: seq<nat>, at: nat, parts: seq<seq<Piece>>, bytes: nat)
    requires un.Built(bps, blocks, at, parts, bytes)
    ensures forall i :: 1 <= i < |parts| ==> blocks[i] == blocks[i - 1] + bps[i - 1].bcount / SECTOR
  {
    hide Unit.Moves, Unit.QueueParts, Bytes, Joined, Pages, EndPages;
    forall i | 1 <= i < |parts| ensures blocks[i] == blocks[i - 1] + bps[i - 1].bcount / SECTOR {
      assert bps[..|parts|][i - 1] == bps[i - 1];
    }
  }

  /** What has been moved when the i-th request begins. */
  lemma {:induction false} BytesSoFar(un: Unit, bps: seq<Request>, blocks: seq<nat>, at: nat, parts: seq<seq<Piece>>,
                                      bytes: nat, i: nat)
    requires un.Built(bps, blocks, at, parts, bytes) && 1 <= i < |parts| && bps[0].addr <= at <= bps[0].addr + bps[0].bcount
    ensures Bytes(Joined(parts[..i])) == BytesBefore(bps, i) - (at - bps[0].addr)
    decreases i
  {
    hide Covers, OnePage, Bytes, EndPages, Pages, Joined, Unit.Contiguous;
    if i == 1 {
      assert parts[..1] == [parts[0]];
      JoinedOne(parts[0]);
      assert un.Head() + parts[0] + [] == parts[0];
      CoversBytes(parts[0], at, bps[0].addr + bps[0].bcount);
    } else {
      BytesSoFar(un, bps, blocks, at, parts, bytes, i - 1);
      assert parts[..i] == parts[..i - 1] + [parts[i - 1]];
      JoinedMore(parts[..i - 1], parts[i - 1]);
      BytesJoin(Joined(parts[..i - 1]), parts[i - 1]);
      assert bps[..|parts|][i - 1] == bps[i - 1];
      CoversBytes(parts[i - 1], bps[i - 1].addr, bps[i - 1].addr + bps[i - 1].bcount);
    }
  }

  /** The lengths of the requests before the i-th. */
  function BytesBefore(bps: seq<Request>, i: nat): nat
    requires i <= |bps|
  {
    if i == 0 then 0 else BytesBefore(bps, i - 1) + bps[i - 1].bcount
  }

  lemma {:induction false} CombinedAt(bps: seq<Request>, blocks: seq<nat>, n: nat, i: nat)
    requires 1 <= n <= |bps| == |blocks| && 1 <= i < n
    requires forall i :: 1 <= i < n ==> blocks[i] == bps[i].block
    requires forall i :: 0 <= i < n ==> bps[i].bcount % SECTOR == 0
    requires forall i :: 1 <= i < n ==> blocks[i] == blocks[i - 1] + bps[i - 1].bcount / SECTOR
    ensures bps[i].block * SECTOR == blocks[0] * SECTOR + BytesBefore(bps, i)
    decreases i
  {
    BlockStart(bps[i - 1].bcount);
    if i > 1 {
      CombinedAt(bps, blocks, n, i - 1);
    }
  }
}
