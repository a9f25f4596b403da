/** hwcopy of SA/saio/cmc.c: a copy whose stores are put out of order on purpose, so that the write buffer does
    not gather them into accesses the board does not recognise. */
module CmcCopy {
  import opened Words
  import opened CmcProtocol

  /** The two stretches of memory do not overlap. */
  predicate Apart(src: nat, dst: nat, n: nat) {
    src + n <= dst || dst + n <= src
  }

  /** Memory m after n of its bytes from src on have been copied to dst. */
  ghost function Copy(m: seq<byte>, src: nat, dst: nat, n: nat): (r: seq<byte>)
    requires src + n <= |m| && dst + n <= |m|
    ensures |r| == |m|
  {
    seq(|m|, k requires 0 <= k < |m| => if dst <= k < dst + n then m[src + (k - dst)] else m[k])
  }

  /** How many bytes are left once a leading odd byte is out of the way; the counter is unsigned. */
  function AfterOddByte(n: word): word {
    (n - 1) % 0x1_0000_0000
  }

  /** How many bytes are copied when n are asked for. */
  function Copied(src: nat, dst: nat, n: word): nat {
    if src % 2 == 1 && dst % 2 == 1 then 1 + AfterOddByte(n) else n
  }

  /** As many as asked for, exactly unless that is none and both addresses are odd: then it is 2^32. */
  lemma OddByteCounts(src: nat, dst: nat, n: word)
    ensures Copied(src, dst, n) == n <==> n != 0 || src % 2 == 0 || dst % 2 == 0
    ensures Copied(1, 3, 0) == 0x1_0000_0000
  {}

  lemma CopyMore(m: seq<byte>, src: nat, dst: nat, n: nat, k: nat)
    requires src + n + k <= |m| && dst + n + k <= |m| && Apart(src, dst, n + k)
    ensures Copy(Copy(m, src, dst, n), src + n, dst + n, k) == Copy(m, src, dst, n + k)
  {}

  /** Of the sixteen bytes at src, those at the offsets in `done` have been copied. */
  ghost function Picked(m: seq<byte>, src: nat, dst: nat, done: seq<bool>): (r: seq<byte>)
    requires src + 16 <= |m| && dst + 16 <= |m| && |done| == 16
    ensures |r| == |m|
  {
    seq(|m|, k requires 0 <= k < |m| => if dst <= k < dst + 16 && done[k - dst] then m[src + (k - dst)] else m[k])
  }

  method Byte(mem: array<byte>, src: nat, dst: nat, o: nat, ghost m: seq<byte>, ghost done: seq<bool>) returns (ghost now: seq<bool>)
    requires o < 16 && mem.Length == |m| && src + 16 <= |m| && dst + 16 <= |m| && Apart(src, dst, 16)
    requires |done| == 16 && mem[..] == Picked(m, src, dst, done)
    modifies mem
    ensures now == done[o := true] && mem[..] == Picked(m, src, dst, now)
  {
    now := done[o := true];
    mem[dst + o] := mem[src + o];
  }

  method Half(mem: array<byte>, src: nat, dst: nat, o: nat, ghost m: seq<byte>, ghost done: seq<bool>) returns (ghost now: seq<bool>)
    requires o + 1 < 16 && mem.Length == |m| && src + 16 <= |m| && dst + 16 <= |m| && Apart(src, dst, 16)
    requires |done| == 16 && mem[..] == Picked(m, src, dst, done)
    modifies mem
    ensures now == done[o := true][o + 1 := true] && mem[..] == Picked(m, src, dst, now)
  {
    now := done[o := true][o + 1 := true];
    mem[dst + o], mem[dst + (o + 1)] := mem[src + o], mem[src + (o + 1)];
  }

  lemma AllDone(m: seq<byte>, src: nat, dst: nat, done: seq<bool>)
    requires src + 16 <= |m| && dst + 16 <= |m|
    requires |done| == 16 && forall o :: 0 <= o < 16 ==> done[o]
    ensures Picked(m, src, dst, done) == Copy(m, src, dst, 16)
  {}

  /** Sixteen bytes, as halfwords. */
  method CopyHalves(mem: array<byte>, src: nat, dst: nat)
    requires src + 16 <= mem.Length && dst + 16 <= mem.Length && Apart(src, dst, 16)
    modifies mem
    ensures mem[..] == Copy(old(mem[..]), src, dst, 16)
  {
    ghost var m, done := mem[..], seq(16, _ => false);
    assert Picked(m, src, dst, done) == m;
    hide Picked, Copy;
    done := Half(mem, src, dst, 0, m, done);
    done := Half(mem, src, dst, 8, m, done);
    done := Half(mem, src, dst, 12, m, done);
    done := Half(mem, src, dst, 4, m, done);
    done := Half(mem, src, dst, 10, m, done);
    done := Half(mem, src, dst, 2, m, done);
    done := Half(mem, src, dst, 14, m, done);
    done := Half(mem, src, dst, 6, m, done);
    AllDone(m, src, dst, done);
  }

  /** Sixteen bytes, one at a time. */
  method CopyBytes(mem: array<byte>, src: nat, dst: nat)
    requires src + 16 <= mem.Length && dst + 16 <= mem.Length && Apart(src, dst, 16)
    modifies mem
    ensures mem[..] == Copy(old(mem[..]), src, dst, 16)
  {
    ghost var m, done := mem[..], seq(16, _ => false);
    assert Picked(m, src, dst, done) == m;
    hide Picked, Copy;
    done := Byte(mem, src, dst, 0, m, done);
    done := Byte(mem, src, dst, 8, m, done);
    done := Byte(mem, src, dst, 12, m, done);
    done := Byte(mem, src, dst, 4, m, done);
    done := Byte(mem, src, dst, 13, m, done);
    done := Byte(mem, src, dst, 1, m, done);
    done := Byte(mem, src, dst, 5, m, done);
    done := Byte(mem, src, dst, 9, m, done);
    done := Byte(mem, src, dst, 2, m, done);
    done := Byte(mem, src, dst, 10, m, done);
    done := Byte(mem, src, dst, 14, m, done);
    done := Byte(mem, src, dst, 6, m, done);
    done := Byte(mem, src, dst, 11, m, done);
    done := Byte(mem, src, dst, 15, m, done);
    done := Byte(mem, src, dst, 7, m, done);
    done := Byte(mem, src, dst, 3, m, done);
    AllDone(m, src, dst, done);
  }

  method CopyOne(mem: array<byte>, src: nat, dst: nat)
    requires src < mem.Length && dst < mem.Length
    modifies mem
    ensures mem[..] == Copy(old(mem[..]), src, dst, 1)
  {
    mem[dst] := mem[src];
  }

  method HalfwordLoop(mem: array<byte>, src: nat, dst: nat, blocks: nat)
    requires src + 16 * blocks <= mem.Length && dst + 16 * blocks <= mem.Length && Apart(src, dst, 16 * blocks)
    modifies mem
    ensures mem[..] == Copy(old(mem[..]), src, dst, 16 * blocks)
  {
    ghost var m := mem[..];
    assert Copy(m, src, dst, 0) == m;
    hide Copy;
    var s, d, qwcnt := src, dst, blocks;
    while qwcnt > 0
      invariant s - src == d - dst == 16 * (blocks - qwcnt)
      invariant mem[..] == Copy(m, src, dst, 16 * (blocks - qwcnt))
    {
      CopyHalves(mem, s, d);
      CopyMore(m, src, dst, s - src, 16);
      d, s, qwcnt := d + 16, s + 16, qwcnt - 1;
    }
  }

  method ByteLoop(mem: array<byte>, src: nat, dst: nat, blocks: nat)
    requires src + 16 * blocks <= mem.Length && dst + 16 * blocks <= mem.Length && Apart(src, dst, 16 * blocks)
    modifies mem
    ensures mem[..] == Copy(old(mem[..]), src, dst, 16 * blocks)
  {
    ghost var m := mem[..];
    assert Copy(m, src, dst, 0) == m;
    hide Copy;
    var s, d, qwcnt := src, dst, blocks;
    while qwcnt > 0
      invariant s - src == d - dst == 16 * (blocks - qwcnt)
      invariant mem[..] == Copy(m, src, dst, 16 * (blocks - qwcnt))
    {
      CopyBytes(mem, s, d);
      CopyMore(m, src, dst, s - src, 16);
      d, s, qwcnt := d + 16, s + 16, qwcnt - 1;
    }
  }

  method RestLoop(mem: array<byte>, src: nat, dst: nat, count: nat)
    requires src + count <= mem.Length && dst + count <= mem.Length && Apart(src, dst, count)
    modifies mem
    ensures mem[..] == Copy(old(mem[..]), src, dst, count)
  {
    ghost var m := mem[..];
    assert Copy(m, src, dst, 0) == m;
    hide Copy;
    var s, d, bcnt := src, dst, count;
    while bcnt > 0
      invariant s - src == d - dst == count - bcnt
      invariant mem[..] == Copy(m, src, dst, count - bcnt)
    {
      CopyOne(mem, s, d);
      CopyMore(m, src, dst, s - src, 1);
      d, s, bcnt := d + 1, s + 1, bcnt - 1;
    }
  }

  /** The rest of the copy once a leading odd byte is out of the way: whole blocks, and what remains. */
  method CopyBlocks(mem: array<byte>, src: nat, dst: nat, count: nat, aligned: bool)
    requires src + count <= mem.Length && dst + count <= mem.Length && Apart(src, dst, count)
    modifies mem
    ensures mem[..] == Copy(old(mem[..]), src, dst, count)
  {
    hide Copy;
    ghost var m := mem[..];
    var qwcnt, bcnt := count / 16, count % 16;
    if aligned {
      HalfwordLoop(mem, src, dst, qwcnt);
    } else {
      ByteLoop(mem, src, dst, qwcnt);
    }
    RestLoop(mem, src + 16 * qwcnt, dst + 16 * qwcnt, bcnt);
    CopyMore(m, src, dst, 16 * qwcnt, bcnt);
  }

  /** hwcopy, between stretches of memory that do not overlap. */
  method HwCopy(mem: array<byte>, src: nat, dst: nat, count: word)
    requires src + Copied(src, dst, count) <= mem.Length && dst + Copied(src, dst, count) <= mem.Length
    requires Apart(src, dst, Copied(src, dst, count))
    modifies mem
    ensures mem[..] == Copy(old(mem[..]), src, dst, Copied(src, dst, count))
    ensures count > 0 || src % 2 == 0 || dst % 2 == 0 ==>
              src + count <= mem.Length && dst + count <= mem.Length && mem[..] == Copy(old(mem[..]), src, dst, count)
  {
    hide Copy;
    ghost var m := mem[..];
    if src % 2 == dst % 2 && src % 2 == 1 {
      CopyOne(mem, src, dst);
      CopyBlocks(mem, src + 1, dst + 1, AfterOddByte(count), true);
      CopyMore(m, src, dst, 1, AfterOddByte(count));
    } else {
      CopyBlocks(mem, src, dst, count, src % 2 == dst % 2);
    }
    OddByteCounts(src, dst, count);
  }
}
