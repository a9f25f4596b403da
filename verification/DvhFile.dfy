/** Files of a disk's volume header (SA/saio/dvh.c), read through a buffer that holds one block. */
module DvhFile {
  import opened Words
  import opened Slices

  const DEV_BSIZE := 512
  const VDNAMESIZE := 8

  // ----- the directory

  /** An entry of the volume directory; a name of VDNAMESIZE bytes has no NUL behind it. */
  datatype Entry = Entry(name: seq<byte>, lbn: int, nbytes: int)

  /** The byte of a string at i, or the NUL behind it. */
  function At(s: seq<byte>, i: nat): byte {
    if i < |s| then s[i] else 0
  }

  /** Two strings are the same as far as n bytes go. */
  ghost predicate SameTo(a: seq<byte>, b: seq<byte>, n: nat) {
    forall i :: 0 <= i < n && (forall j :: 0 <= j < i ==> At(a, j) != 0) ==> At(a, i) == At(b, i)
  }

  /** strncmp of SA/saio/libc.c */
  method Strncmp(a: seq<byte>, b: seq<byte>, count: nat) returns (r: int)
    ensures r == 0 <==> SameTo(a, b, count)
  {
    var n: int, i := count, 0;
    n := n - 1;
    while n >= 0 && At(a, i) == At(b, i)
      invariant 0 <= i <= count && n == count - 1 - i
      invariant forall j :: 0 <= j < i ==> At(a, j) == At(b, j) && At(a, j) != 0
    {
      if At(a, i) == 0 {
        return 0;
      }
      i := i + 1;
      n := n - 1;
    }
    r := if n < 0 then 0 else At(a, i) - At(b, i);
  }

  /** The entry that a file name finds: the first that has its name and is in use. */
  ghost predicate Finds(dir: seq<Entry>, file: seq<byte>, k: nat) {
    && k < |dir| && SameTo(file, dir[k].name, VDNAMESIZE) && dir[k].lbn != -1
    && forall j :: 0 <= j < k ==> !(SameTo(file, dir[j].name, VDNAMESIZE) && dir[j].lbn != -1)
  }

  // ----- reading

  /** The 32-bit signed sum of two. */
  function Sum32(a: int, b: int): int {
    var s := (a + b) % 0x1_0000_0000;
    if s < 0x8000_0000 then s else s - 0x1_0000_0000
  }

  /** The count of a read, clipped at the end of the file. */
  function Clip(offset: int, cnt: int, nbytes: int): int {
    if Sum32(offset, cnt) > nbytes then (if nbytes - offset < 0 then 0 else nbytes - offset) else cnt
  }

  /** A read is clipped as it should be exactly if what it asks for does not take the offset past the largest
      integer; if it does, it is not clipped at all. */
  lemma ClippedRight(offset: int, cnt: int, nbytes: int)
    requires 0 <= offset < 0x8000_0000 && 0 < cnt < 0x8000_0000 && 0 <= nbytes < 0x8000_0000
    ensures Clip(offset, cnt, nbytes) == (if offset >= nbytes then 0 else if cnt <= nbytes - offset then cnt else nbytes - offset)
            <==> offset + cnt < 0x8000_0000
    ensures offset + cnt >= 0x8000_0000 ==> Clip(offset, cnt, nbytes) == cnt
  {}

  /** A file of nbytes from block lbn on lies within the partition. */
  predicate Inside(device: seq<seq<byte>>, lbn: int, nbytes: int) {
    && (forall b :: 0 <= b < |device| ==> |device[b]| == DEV_BSIZE)
    && 0 <= lbn && 0 <= nbytes && lbn * DEV_BSIZE + nbytes <= |device| * DEV_BSIZE
  }

  lemma InDevice(device: seq<seq<byte>>, lbn: int, nbytes: int, k: int)
    requires Inside(device, lbn, nbytes) && 0 <= k < nbytes
    ensures 0 <= lbn + k / DEV_BSIZE < |device| && |device[lbn + k / DEV_BSIZE]| == DEV_BSIZE
  {}

  /** The bytes of such a file. */
  function FileOf(device: seq<seq<byte>>, lbn: int, nbytes: int): (f: seq<byte>)
    requires Inside(device, lbn, nbytes)
    ensures |f| == nbytes
  {
    seq(nbytes, k requires 0 <= k < nbytes =>
      InDevice(device, lbn, nbytes, k);
      device[lbn + k / DEV_BSIZE][k % DEV_BSIZE])
  }

  /** A stretch of the file that lies in one block. */
  lemma InOneBlock(device: seq<seq<byte>>, lbn: int, nbytes: int, offset: nat, n: nat)
    requires Inside(device, lbn, nbytes) && n > 0 && offset % DEV_BSIZE + n <= DEV_BSIZE && offset + n <= nbytes
    ensures var b, off := lbn + offset / DEV_BSIZE, offset % DEV_BSIZE;
            0 <= b < |device| && |device[b]| == DEV_BSIZE && Slice(FileOf(device, lbn, nbytes), offset, n) == device[b][off..off + n]
  {
    InDevice(device, lbn, nbytes, offset);
    var b, off := lbn + offset / DEV_BSIZE, offset % DEV_BSIZE;
    var piece := Slice(FileOf(device, lbn, nbytes), offset, n);
    forall k | 0 <= k < n ensures piece[k] == device[b][off..off + n][k] {
      SameBlock(offset, k);
      ByteOf(device, lbn, nbytes, offset + k);
    }
  }

  lemma ByteOf(device: seq<seq<byte>>, lbn: int, nbytes: int, k: nat)
    requires Inside(device, lbn, nbytes) && k < nbytes
    ensures var b := lbn + k / DEV_BSIZE;
            0 <= b < |device| && |device[b]| == DEV_BSIZE && FileOf(device, lbn, nbytes)[k] == device[b][k % DEV_BSIZE]
  {
    InDevice(device, lbn, nbytes, k);
  }

  lemma SameBlock(offset: nat, k: nat)
    requires offset % DEV_BSIZE + k < DEV_BSIZE
    ensures (offset + k) / DEV_BSIZE == offset / DEV_BSIZE && (offset + k) % DEV_BSIZE == offset % DEV_BSIZE + k
  {}

  class Iob {
    const device: seq<seq<byte>>     // the blocks of the partition
    const buf: array<byte>           // i_buf
    var bn: int                      // i_bn: the block that is in it
    var offset: nat                  // i_offset
    var lbn: int                     // vd_lbn
    var nbytes: int                  // vd_nbytes

    /** The buffer holds the block that i_bn names. */
    ghost predicate Valid()
      reads this, buf
    {
      && buf.Length == DEV_BSIZE && (forall b :: 0 <= b < |device| ==> |device[b]| == DEV_BSIZE)
      && (bn == -1 || (0 <= bn < |device| && buf[..] == device[bn]))
    }

    /** A file is open, and lies within the partition. */
    ghost predicate Opened()
      reads this, buf
    {
      Valid() && Inside(device, lbn, nbytes) && nbytes < 0x8000_0000
    }

    ghost function File(): seq<byte>
      requires Opened()
      reads this, buf
    {
      FileOf(device, lbn, nbytes)
    }

    constructor (blocks: seq<seq<byte>>)
      requires forall b :: 0 <= b < |blocks| ==> |blocks[b]| == DEV_BSIZE
      ensures Valid() && fresh(buf) && device == blocks
      ensures bn == -1 && offset == 0 && nbytes == 0
    {
      device := blocks;
      buf := new byte[DEV_BSIZE](_ => 0);
      bn, offset, lbn, nbytes := -1, 0, 0, 0;
    }

    /** _dvhopen */
    method Open(dir: seq<Entry>, file: seq<byte>) returns (found: bool)
      requires Valid()
      modifies `bn, `lbn, `nbytes
      ensures Valid() && bn == -1
      ensures found <==> exists k: nat :: Finds(dir, file, k)
      ensures found ==> exists k: nat :: Finds(dir, file, k) && lbn == dir[k].lbn && nbytes == dir[k].nbytes
      ensures !found ==> nbytes == 0
    {
      nbytes := 0;
      bn := -1;
      var vd := 0;
      while vd < |dir|
        invariant 0 <= vd <= |dir| && nbytes == 0 && bn == -1
        invariant forall j :: 0 <= j < vd ==> !(SameTo(file, dir[j].name, VDNAMESIZE) && dir[j].lbn != -1)
      {
        var c := Strncmp(file, dir[vd].name, VDNAMESIZE);
        if c == 0 && dir[vd].lbn != -1 {
          assert Finds(dir, file, vd);
          lbn, nbytes := dir[vd].lbn, dir[vd].nbytes;
          return true;
        }
        vd := vd + 1;
      }
      found := false;
    }

    /** Gets the block into the buffer, if it is not there. */
    method Cache(b: nat)
      requires Valid() && b < |device|
      modifies `bn, buf
      ensures Valid() && bn == b
    {
      if bn != b {
        assert |device[b]| == DEV_BSIZE;
        bn := b;
        forall k | 0 <= k < DEV_BSIZE { buf[k] := device[b][k]; }
        assert buf[..] == device[b];
      }
    }

    /** One turn of `_dvhread`: what the block of the offset has, stored behind the n bytes there are. */
    method ReadSome(dst: array<byte>, at: nat, n: nat, cnt: nat) returns (bcnt: nat)
      requires Opened() && dst != buf && 0 < cnt && at + n + cnt <= dst.Length && offset + cnt <= nbytes
      modifies `bn, buf, dst
      ensures Opened() && 0 < bcnt <= cnt
      ensures dst[at..at + (n + bcnt)] == old(dst[at..at + n]) + Slice(File(), offset, bcnt)
      ensures forall k :: 0 <= k < dst.Length && !(at + n <= k < at + n + bcnt) ==> dst[k] == old(dst[k])
    {
      hide Inside, FileOf, Slice;
      var off := offset % DEV_BSIZE;
      bcnt := if DEV_BSIZE - off < cnt then DEV_BSIZE - off else cnt;
      InOneBlock(device, lbn, nbytes, offset, bcnt);
      Cache(offset / DEV_BSIZE + lbn);
      ghost var before := dst[..];
      Store(dst, at + n, buf[off..off + bcnt]);
      SamePart(before, dst[..], at, n);
      Behind(dst[..], at, n, bcnt);
    }

    /** _dvhread, into dst from index `at` on, when the device gives every block it is asked for. */
    method Read(dst: array<byte>, at: nat, count: nat) returns (n: nat)
      requires Opened() && dst != buf && at + count <= dst.Length && offset + count < 0x8000_0000
      modifies `bn, `offset, buf, dst
      ensures Opened() && n == |Slice(File(), old(offset), count)| && offset == old(offset) + n
      ensures dst[at..at + n] == Slice(File(), old(offset), count)
      ensures forall k :: 0 <= k < dst.Length && !(at <= k < at + n) ==> dst[k] == old(dst[k])
    {
      hide Inside, FileOf, Slice;
      var cnt: int := Clip(offset, count, nbytes);
      ghost var ocnt, start := cnt, offset;
      SliceEmpty(File(), offset);
      ClippedSlice(File(), offset, count);
      n := 0;
      while cnt > 0
        invariant Opened() && 0 <= cnt == ocnt - n && offset == start + n && (cnt > 0 ==> start + ocnt <= nbytes)
        invariant dst[at..at + n] == Slice(File(), start, n)
        invariant forall k :: 0 <= k < dst.Length && !(at <= k < at + n) ==> dst[k] == old(dst[k])
      {
        var bcnt := ReadSome(dst, at, n, cnt);
        SlicesJoin(File(), start, n, bcnt);
        offset, n, cnt := offset + bcnt, n + bcnt, cnt - bcnt;
      }
    }
  }

  /** One more read behind others, which have got n bytes. */
  method ReadNext(io: Iob, dst: array<byte>, at: nat, n: nat, count: nat, ghost start: nat, ghost prior: seq<nat>) returns (m: nat)
    requires io.Opened() && dst != io.buf && at + n + count <= dst.Length && io.offset == start + n && io.offset + count < 0x8000_0000
    requires n == |Reads(io.File(), start, prior)| && dst[at..at + n] == Reads(io.File(), start, prior)
    modifies io`bn, io`offset, io.buf, dst
    ensures io.Opened() && m <= count && io.offset == start + n + m && n + m == |Reads(io.File(), start, prior + [count])|
    ensures dst[at..at + (n + m)] == Reads(io.File(), start, prior + [count])
  {
    hide Inside, FileOf, Slice, Reads;
    ghost var f, before := io.File(), dst[..];
    ReadsMore(f, start, prior, count);
    SliceAll(f, io.offset, count);
    m := io.Read(dst, at + n, count);
    SamePart(before, dst[..], at, n);
    Behind(dst[..], at, n, m);
  }

  /** Reads of a file one after another get what one read of all their counts would. */
  method ReadEach(io: Iob, dst: array<byte>, at: nat, counts: seq<nat>) returns (n: nat)
    requires io.Opened() && dst != io.buf && at + Total(counts) <= dst.Length && io.offset + Total(counts) < 0x8000_0000
    modifies io`bn, io`offset, io.buf, dst
    ensures io.Opened() && n == |Slice(io.File(), old(io.offset), Total(counts))| && io.offset == old(io.offset) + n
    ensures dst[at..at + n] == Slice(io.File(), old(io.offset), Total(counts))
  {
    hide Inside, FileOf, Slice, Reads, Total;
    ghost var f, start := io.File(), io.offset;
    NoReads(f, start);
    n := 0;
    var i := 0;
    while i < |counts|
      invariant 0 <= i <= |counts| && io.Opened() && io.File() == f && io.offset == start + n
      invariant n == |Reads(f, start, counts[..i])| && n <= Total(counts[..i]) <= Total(counts)
      invariant dst[at..at + n] == Reads(f, start, counts[..i])
    {
      TotalUpTo(counts, i);
      TotalMore(counts[..i], counts[i]);
      var m := ReadNext(io, dst, at, n, counts[i], start, counts[..i]);
      n, i := n + m, i + 1;
    }
    assert counts[..i] == counts;
    SplitReads(f, start, counts);
  }

  lemma NoReads(f: seq<byte>, offset: nat)
    ensures Reads(f, offset, []) == [] && Total([]) == 0
  {}

  lemma ClippedSlice(f: seq<byte>, offset: nat, count: nat)
    requires offset + count < 0x8000_0000 && |f| < 0x8000_0000
    ensures var n := Clip(offset, count, |f|);
            n >= 0 && Slice(f, offset, count) == Slice(f, offset, n) && |Slice(f, offset, n)| == n
            && (n > 0 ==> offset + n <= |f|)
  {}

  lemma SlicesJoin(f: seq<byte>, offset: nat, n: nat, m: nat)
    requires offset + n + m <= |f|
    ensures Slice(f, offset, n + m) == Slice(f, offset, n) + Slice(f, offset + n, m)
  {}
}
