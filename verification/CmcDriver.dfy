/** The rings of SA/saio/cmc.c as the host's driver sees them between the board's accesses, and the driver's two
    loops over them. */
module CmcDriver {
  import opened Words
  import opened CmcIndex
  import opened Masks
  import opened CmcProtocol

  /** n entries from slot rd on. */
  ghost function Entries(rd: nat, n: nat, highs: seq<nat>, lows: seq<nat>): (s: seq<word>)
    requires |highs| == |lows| && rd < |highs| && n < |highs|
    ensures |s| == n
    ensures forall i :: 0 <= i < n ==> var k := Slot(rd, |highs|, i); s[i] == Join(highs[k], lows[k])
  {
    seq(n, i requires 0 <= i < n => var k := Slot(rd, |highs|, i); Join(highs[k], lows[k]))
  }

  lemma EntryAdded(rd: nat, n: nat, highs: seq<nat>, lows: seq<nat>, v: word)
    requires |highs| == |lows| && rd < |highs| && n + 1 < |highs|
    ensures var k := Slot(rd, |highs|, n);
            Entries(rd, n + 1, highs[k := High(v)], lows[k := Low(v)]) == Entries(rd, n, highs, lows) + [v]
  {
    var k := Slot(rd, |highs|, n);
    var h, l := highs[k := High(v)], lows[k := Low(v)];
    assert Join(High(v), Low(v)) == v;
    forall i | 0 <= i < n ensures Entries(rd, n + 1, h, l)[i] == Entries(rd, n, highs, lows)[i] {
      assert Slot(rd, |highs|, i) != k;
    }
  }

  lemma EntryTaken(rd: nat, n: nat, highs: seq<nat>, lows: seq<nat>)
    requires |highs| == |lows| && rd < |highs| && 0 < n < |highs|
    ensures var next := if rd + 1 == |highs| then 0 else rd + 1;
            Entries(rd, n, highs, lows) == [Join(highs[rd], lows[rd])] + Entries(next, n - 1, highs, lows)
  {
    var next := if rd + 1 == |highs| then 0 else rd + 1;
    var a, b := Entries(rd, n, highs, lows), [Join(highs[rd], lows[rd])] + Entries(next, n - 1, highs, lows);
    forall i | 0 <= i < n ensures a[i] == b[i] {
      if i > 0 {
        assert Slot(rd, |highs|, i) == Slot(next, |highs|, i - 1);
      } else {
        assert Slot(rd, |highs|, 0) == rd;
      }
    }
  }

  /** A ring in the board's memory; a slot is two halfwords. */
  class Ring {
    var rd: nat
    var wr: nat
    const size: nat
    const highs: array<nat>
    const lows: array<nat>

    ghost predicate Valid()
      reads this, highs, lows
    {
      && PowerOfTwo(size) && rd < size && wr < size && highs.Length == lows.Length == size && highs != lows
    }

    /** The descriptors in the ring, the next to be taken out first. */
    ghost function Contents(): (s: seq<word>)
      requires Valid()
      reads this, highs, lows
      ensures |s| == Between(rd, wr, size) && |s| < size
    {
      Entries(rd, Between(rd, wr, size), highs[..], lows[..])
    }

    constructor (n: nat)
      requires PowerOfTwo(n)
      ensures Valid() && Contents() == [] && size == n && fresh(highs) && fresh(lows)
    {
      PowerPositive(n);
      rd, wr, size := 0, 0, n;
      highs, lows := new nat[n](_ => 0), new nat[n](_ => 0);
    }

    /** ringempty */
    method Empty() returns (b: bool)
      requires Valid()
      ensures b <==> Contents() == []
    {
      b := rd == wr;
    }

    /** ringput */
    method Put(v: word) returns (n: nat)
      requires Valid()
      modifies `wr, highs, lows
      ensures Valid()
      ensures if |old(Contents())| < size - 1 then n == |Contents()| && Contents() == old(Contents()) + [v]
              else n == 0 && Contents() == old(Contents())
    {
      hide PowerOfTwo, After;
      AfterWraps(wr, size);
      var idx := After(wr, size);
      ghost var before := Contents();
      if idx != rd {
        EntryAdded(rd, |before|, highs[..], lows[..], v);
        highs[wr] := High(v);
        lows[wr] := Low(v);
        wr := idx;
        n := if idx < rd then idx + size - rd else idx - rd;
      } else {
        n := 0;
      }
    }

    /** ringget */
    method Get() returns (v: word)
      requires Valid()
      modifies `rd
      ensures Valid()
      ensures if old(Contents()) == [] then v == 0 && Contents() == [] else [v] + Contents() == old(Contents())
    {
      hide PowerOfTwo, After;
      ghost var before := Contents();
      v := 0;
      if rd != wr {
        AfterWraps(rd, size);
        EntryTaken(rd, |before|, highs[..], lows[..]);
        v := Join(highs[rd], lows[rd]);
        rd := After(rd, size);
      }
    }
  }

  lemma PowerPositive(n: nat)
    requires PowerOfTwo(n)
    ensures n > 0
  {}

  /** The descriptors up to a null one, where a loop that gets descriptors until it gets 0 stops. */
  function UpToNull(s: seq<word>): (r: seq<word>)
    ensures r <= s
  {
    if s == [] || s[0] == 0 then [] else [s[0]] + UpToNull(s[1..])
  }

  lemma NullAfter(all: seq<word>, seen: seq<word>, rest: seq<word>)
    requires 0 !in seen && (all == seen || all == seen + [0] + rest)
    ensures UpToNull(all) == seen
  {
    if seen == [] {
    } else {
      assert all[0] == seen[0];
      NullAfter(all[1..], seen[1..], rest);
    }
  }

  /** enp_scan: hands every received descriptor on (to enp_read, which only reads it) and gives it back to the
      board.  `source` is the to-host ring, `to` the board's free ring. */
  method Scan(source: Ring, to: Ring) returns (seen: seq<word>)
    requires source != to && source.Valid() && to.Valid()
    requires {source.highs, source.lows} !! {to.highs, to.lows}
    modifies source, to, to.highs, to.lows
    ensures source.Valid() && to.Valid()
    ensures seen == UpToNull(old(source.Contents()))
    ensures source.Contents() == if seen == old(source.Contents()) then [] else old(source.Contents())[|seen| + 1..]
    ensures var room := to.size - 1 - |old(to.Contents())|;
            to.Contents() == old(to.Contents()) + seen[..if |seen| <= room then |seen| else room]
  {
    hide Ring.Contents, Ring.Valid;
    seen := [];
    ghost var all, gone := source.Contents(), to.Contents();
    ghost var room := to.size - 1 - |gone|;
    var b := source.Get();
    while b != 0
      invariant source.Valid() && to.Valid() && 0 !in seen
      invariant all == seen + [b] + source.Contents() || (b == 0 && all == seen && source.Contents() == [])
      invariant to.Contents() == gone + seen[..if |seen| <= room then |seen| else room]
      decreases |all| - |seen|, b
    {
      seen := seen + [b];
      var _ := to.Put(b);
      b := source.Get();
    }
    NullAfter(all, seen, source.Contents());
  }

  /** enp_put, once it has found the host's free ring not empty: a free descriptor, its buffer filled with the
      packet, goes to the board, which is interrupted if it may be asleep. */
  method Transmit(free: Ring, toBoard: Ring) returns (b: word, interrupt: bool)
    requires free != toBoard && free.Valid() && toBoard.Valid()
    requires {free.highs, free.lows} !! {toBoard.highs, toBoard.lows}
    requires free.Contents() != []
    modifies free, toBoard, toBoard.highs, toBoard.lows
    ensures free.Valid() && toBoard.Valid() && [b] + free.Contents() == old(free.Contents())
    ensures toBoard.Contents() == old(toBoard.Contents()) + if |old(toBoard.Contents())| == toBoard.size - 1 then [] else [b]
    ensures interrupt <==> old(toBoard.Contents()) == [] && toBoard.size > 1
  {
    hide Ring.Contents, Ring.Valid;
    b := free.Get();
    var n := toBoard.Put(b);
    interrupt := n == 1;
  }

  /** With room for every descriptor there is, no descriptor is ever lost or doubled by either loop. */
  lemma Conserved(source: seq<word>, to: seq<word>, size: nat)
    requires |source| + |to| <= size - 1 && 0 !in source
    ensures var seen := UpToNull(source);
            var room := size - 1 - |to|;
            multiset(to + seen[..if |seen| <= room then |seen| else room]) == multiset(source) + multiset(to)
  {
    NullAfter(source, source, []);
    assert source[..|source|] == source;
  }
}
