/** Stretches of a file, as reads see it. */
module Slices {

  /** The elements of f from offset on, n of them if there are so many. */
  function Slice<T>(f: seq<T>, offset: nat, n: nat): (r: seq<T>)
    ensures |r| == if offset >= |f| then 0 else if n <= |f| - offset then n else |f| - offset
  {
    if offset >= |f| then [] else f[offset..if n <= |f| - offset then offset + n else |f|]
  }

  lemma SliceEmpty<T>(f: seq<T>, offset: nat)
    ensures Slice(f, offset, 0) == []
  {}

  /** n elements have been read, all there, and another block of cc follows. */
  lemma SliceGrows<T>(f: seq<T>, offset: nat, n: nat, cc: nat, cnt: nat)
    requires |Slice(f, offset, n)| == n && n + cc <= cnt
    ensures var more := Slice(f, offset + n, cc);
            && Slice(f, offset, n + |more|) == Slice(f, offset, n) + more
            && (|more| == 0 && cc > 0 ==> n == |Slice(f, offset, cnt)|)
  {}

  lemma SliceAll<T>(f: seq<T>, offset: nat, n: nat)
    ensures |Slice(f, offset, n)| <= n
  {}

  lemma OnlyPastEnd<T>(f: seq<T>, offset: nat, n: nat)
    ensures n > 0 && |Slice(f, offset, n)| == 0 ==> |f| <= offset
  {}

  /** A slice that is short is at the end. */
  lemma ShortSlice<T>(f: seq<T>, offset: nat, n: nat)
    ensures |Slice(f, offset, n)| < n ==> |f| <= offset + |Slice(f, offset, n)|
  {}

  lemma SliceOnce<T>(f: seq<T>, offset: nat, n: nat, count: nat)
    ensures n == |Slice(f, offset, count)| ==> Slice(f, offset, n) == Slice(f, offset, count)
  {}

  /** A copy into an array, as bcopy makes it. */
  method Store<T>(buf: array<T>, at: nat, data: seq<T>)
    requires at + |data| <= buf.Length
    modifies buf
    ensures buf[..at] == old(buf[..at]) && buf[at..at + |data|] == data && buf[at + |data|..] == old(buf[at + |data|..])
    ensures forall k :: 0 <= k < buf.Length && !(at <= k < at + |data|) ==> buf[k] == old(buf[k])
  {
    forall k | 0 <= k < |data| { buf[at + k] := data[k]; }
  }

  /** Two stretches of an array, one behind the other. */
  lemma Behind<T>(s: seq<T>, at: nat, n: nat, m: nat)
    requires at + n + m <= |s|
    ensures s[at..at + (n + m)] == s[at..at + n] + s[at + n..at + n + m]
  {}

  lemma SamePart<T>(s: seq<T>, s': seq<T>, at: nat, n: nat)
    requires at + n <= |s| == |s'| && forall k :: at <= k < at + n ==> s'[k] == s[k]
    ensures s'[at..at + n] == s[at..at + n]
  {}

  /** How many elements a sequence of reads gets. */
  function Total(counts: seq<nat>): nat {
    if counts == [] then 0 else counts[0] + Total(counts[1..])
  }

  /** What reads that follow one another get together. */
  function Reads<T>(f: seq<T>, offset: nat, counts: seq<nat>): seq<T>
    decreases |counts|
  {
    if counts == [] then []
    else
      var first := Slice(f, offset, counts[0]);
      first + Reads(f, offset + |first|, counts[1..])
  }

  lemma TwoReads<T>(f: seq<T>, offset: nat, a: nat, b: nat)
    ensures Slice(f, offset, a) + Slice(f, offset + |Slice(f, offset, a)|, b) == Slice(f, offset, a + b)
  {}

  /** However a read is split, the pieces make up the whole. */
  lemma {:induction false} SplitReads<T>(f: seq<T>, offset: nat, counts: seq<nat>)
    ensures Reads(f, offset, counts) == Slice(f, offset, Total(counts))
    decreases |counts|
  {
    Unfolded(f, offset, counts);
    hide Slice, Reads, Total;
    SliceEmpty(f, offset);
    if counts != [] {
      var first, rest := Slice(f, offset, counts[0]), counts[1..];
      TwoReads(f, offset, counts[0], Total(rest));
      SplitReads(f, offset + |first|, rest);
    }
  }

  /** One more read behind the others. */
  lemma ReadsMore<T>(f: seq<T>, offset: nat, counts: seq<nat>, count: nat)
    ensures var got := Reads(f, offset, counts);
            Reads(f, offset, counts + [count]) == got + Slice(f, offset + |got|, count)
  {
    hide Reads, Total, Slice;
    SplitReads(f, offset, counts);
    SplitReads(f, offset, counts + [count]);
    TotalMore(counts, count);
    TwoReads(f, offset, Total(counts), count);
  }

  lemma {:induction false} TotalMore(counts: seq<nat>, count: nat)
    ensures Total(counts + [count]) == Total(counts) + count
    decreases |counts|
  {
    if counts == [] {
      assert [] + [count] == [count];
      assert [count][1..] == [];
    } else {
      TotalMore(counts[1..], count);
      assert (counts + [count])[1..] == counts[1..] + [count];
    }
  }

  /** Some of the reads get no more than all. */
  lemma {:induction false} TotalUpTo(counts: seq<nat>, i: nat)
    requires i <= |counts|
    ensures Total(counts[..i]) <= Total(counts)
    ensures i < |counts| ==> counts[..i + 1] == counts[..i] + [counts[i]] && Total(counts[..i]) + counts[i] <= Total(counts)
    decreases |counts| - i
  {
    if i < |counts| {
      assert counts[..i + 1] == counts[..i] + [counts[i]];
      TotalMore(counts[..i], counts[i]);
      TotalUpTo(counts, i + 1);
    } else {
      assert counts[..i] == counts;
    }
  }

  lemma Unfolded<T>(f: seq<T>, offset: nat, counts: seq<nat>)
    ensures if counts == [] then Reads(f, offset, counts) == [] && Total(counts) == 0 else
              var first, rest := Slice(f, offset, counts[0]), counts[1..];
              Reads(f, offset, counts) == first + Reads(f, offset + |first|, rest) && Total(counts) == counts[0] + Total(rest)
  {}
}
