/** What `sload` (SA/prom/commands.c) makes of a memory image written as S-records. */
module SrecordImage {
  import opened Words
  import opened Masks
  import opened SrecordStream

  // ----- records

  /** An S0, S3 or S7 record. */
  datatype Rec = Header(data: seq<byte>) | Data(addr: word, data: seq<byte>) | End(entry: word)

  function Kind(r: Rec): byte {
    match r case Header(_) => TYPE0 case Data(_, _) => TYPE3 case End(_) => TYPE7
  }

  function AddressBytes(a: word): (b: seq<byte>)
    ensures |b| == 4
  {
    [a / 0x100_0000, a / 0x1_0000 % 0x100, a / 0x100 % 0x100, a % 0x100]
  }

  function Content(r: Rec): seq<byte> {
    match r
    case Header(d) => d
    case Data(a, d) => AddressBytes(a) + d
    case End(a) => AddressBytes(a)
  }

  /** A record's length counts its checksum too, and is one byte. */
  predicate Fits(r: Rec) { |Content(r)| + 1 < 0x100 }

  /** The bytes of a record, with some checksum. */
  function Bytes(r: Rec, sum: byte): seq<byte>
    requires Fits(r)
  {
    [|Content(r)| + 1] + Content(r) + [sum]
  }

  function Sum(bs: seq<byte>): nat {
    if bs == [] then 0 else bs[0] + Sum(bs[1..])
  }

  /** The right checksum. */
  function Checksum(r: Rec): byte {
    0xff - (|Content(r)| + 1 + Sum(Content(r))) % 0x100
  }

  // ----- how bytes are written

  /** c is a digit of value d, in either case. */
  predicate HexChar(c: byte, d: nat) {
    || (0x30 <= c <= 0x39 && d == c - 0x30)
    || (0x41 <= c <= 0x46 && d == c - 0x41 + 10)
    || (0x61 <= c <= 0x66 && d == c - 0x61 + 10)
  }

  /** The characters a byte takes. */
  function Width(binary: bool): nat { if binary then 1 else 2 }

  predicate SpellsOne(input: seq<byte>, binary: bool, pos: nat, b: byte) {
    pos + Width(binary) <= |input| &&
    if binary then input[pos] == b else HexChar(input[pos], b / 16) && HexChar(input[pos + 1], b % 16)
  }

  predicate Spells(input: seq<byte>, binary: bool, pos: nat, bs: seq<byte>)
    decreases |bs|
  {
    bs == [] || (SpellsOne(input, binary, pos, bs[0]) && Spells(input, binary, pos + Width(binary), bs[1..]))
  }

  lemma {:induction false} OrAdds(a: nat, y: nat, k: nat, bits: nat)
    requires k <= bits && a % Pow2(k) == 0 && y < Pow2(k)
    ensures OrBits(a, y, bits) == (a + y) % Pow2(bits)
    decreases bits
  {
    if bits > 0 {
      var p := Pow2(bits - 1);
      HalfModulo(a + y, p, Pow2(bits));
      if k == 0 {
        OrAdds(a / 2, 0, 0, bits - 1);
      } else {
        EvenHalf(a, Pow2(k - 1));
        OrAdds(a / 2, y / 2, k - 1, bits - 1);
      }
    }
  }

  lemma EvenHalf(a: nat, p: nat)
    requires p > 0 && a % (2 * p) == 0
    ensures a % 2 == 0 && a / 2 % p == 0
  {
    var q := a / (2 * p);
    assert a == 2 * p * q == 2 * (p * q);
    QuotientIs(a / 2, p, q, 0);
  }

  lemma SmallPowers()
    ensures Pow2(4) == 16 && Pow2(8) == 0x100 && Pow2(32) == TWO32
  {
    assert Pow2(4) == 16;
    assert Pow2(8) == 0x100;
    assert Pow2(12) == 0x1000;
    assert Pow2(16) == 0x1_0000;
    assert Pow2(20) == 0x10_0000;
    assert Pow2(24) == 0x100_0000;
    assert Pow2(28) == 0x1000_0000;
  }

  /** A `|` of values that have no bit in common, as 32 bits. */
  lemma OrWords(a: word, y: nat, k: nat)
    requires k <= 32 && a % Pow2(k) == 0 && y < Pow2(k) && y < TWO32
    ensures Or32(a, y) % TWO32 == (a + y) % TWO32
    ensures a + y < 0x8000_0000 ==> Or32(a, y) == a + y
  {
    hide OrBits, Pow2, Or32;
    SmallPowers();
    OrAdds(a, y, k, 32);
    Or32Is(a, y, (a + y) % TWO32);
  }

  lemma Or32Is(a: word, y: word, s: word)
    requires OrBits(a, y, 32) == s
    ensures Or32(a, y) % TWO32 == s && (s < 0x8000_0000 ==> Or32(a, y) == s)
  {
    hide OrBits;
  }

  lemma OrByte(address: word, b: byte)
    ensures Or32(address * 0x100, b) % TWO32 == (address * 0x100 + b) % TWO32
  {
    hide OrBits, Pow2;
    SmallPowers();
    var a := address * 0x100 % TWO32;
    OrWords(a, b, 8);
    assert Or32(address * 0x100, b) == Or32(a, b);
    hide Or32;
  }

  lemma OrNibbles(h: nat, l: nat)
    requires h < 16 && l < 16
    ensures Or32(h * 16, l) == h * 16 + l
  {
    hide OrBits, Pow2, Or32;
    SmallPowers();
    OrWords(h * 16, l, 4);
  }

  lemma ByteSpelled(input: seq<byte>, binary: bool, pos: nat, b: byte)
    requires SpellsOne(input, binary, pos, b)
    ensures ByteAt(input, binary, pos) == b && ByteEnd(input, binary, pos) == pos + Width(binary)
  {
    hide Or32;
    if !binary {
      OrNibbles(b / 16, b % 16);
      HexDigit(input[pos], b / 16);
      HexDigit(input[pos + 1], b % 16);
    }
  }

  lemma HexDigit(c: byte, d: nat)
    requires HexChar(c, d)
    ensures d < 16 && c % 0x80 == c && Digit(c) == d
  {}

  // ----- what the loops make of written bytes

  lemma {:induction false} SpellsSplit(input: seq<byte>, binary: bool, pos: nat, a: seq<byte>, b: seq<byte>)
    requires Spells(input, binary, pos, a + b)
    ensures Spells(input, binary, pos, a) && Spells(input, binary, pos + Width(binary) * |a|, b)
    decreases |a|
  {
    if a == [] {
      assert a + b == b;
    } else {
      assert (a + b)[1..] == a[1..] + b;
      SpellsSplit(input, binary, pos + Width(binary), a[1..], b);
    }
  }

  lemma {:induction false} SumSplit(a: seq<byte>, b: seq<byte>)
    ensures Sum(a + b) == Sum(a) + Sum(b)
    decreases |a|
  {
    if a == [] {
      assert a + b == b;
    } else {
      assert (a + b)[1..] == a[1..] + b;
      SumSplit(a[1..], b);
    }
  }

  /** The state after bytes have been read. */
  function Taken(binary: bool, st: State, bs: seq<byte>): State {
    st.(pos := st.pos + Width(binary) * |bs|, csum := st.csum + Sum(bs))
  }

  lemma TakeOne(input: seq<byte>, binary: bool, st: State, bs: seq<byte>)
    requires bs != [] && Spells(input, binary, st.pos, bs)
    ensures ByteAt(input, binary, st.pos) == bs[0] && Take(input, binary, st) == Taken(binary, st, bs[..1])
    ensures Spells(input, binary, Take(input, binary, st).pos, bs[1..])
    ensures Taken(binary, Take(input, binary, st), bs[1..]) == Taken(binary, st, bs)
  {
    ByteSpelled(input, binary, st.pos, bs[0]);
    assert bs[..1] == [bs[0]];
    assert Sum([]) == 0 && [bs[0]][1..] == [];
    hide ByteAt, ByteEnd, SpellsOne;
  }

  lemma {:induction false} SkipSpelled(input: seq<byte>, binary: bool, st: State, bs: seq<byte>)
    requires Spells(input, binary, st.pos, bs)
    ensures Skip(input, binary, st, |bs|) == Taken(binary, st, bs)
    decreases |bs|
  {
    if bs != [] {
      TakeOne(input, binary, st, bs);
      hide Take, Taken, Spells;
      SkipSpelled(input, binary, Take(input, binary, st), bs[1..]);
    }
  }

  /** The bytes bs, from address a on; addresses wrap at 32 bits. */
  function Stored(m: map<word, byte>, a: word, bs: seq<byte>): map<word, byte>
    decreases |bs|
  {
    if bs == [] then m else Stored(m[a := bs[0]], (a + 1) % TWO32, bs[1..])
  }

  /** What is at an address then. */
  lemma {:induction false} StoredAt(m: map<word, byte>, a: word, bs: seq<byte>, x: word)
    requires |bs| <= TWO32
    ensures var k := (x - a) % TWO32;
            if k < |bs| then x in Stored(m, a, bs) && Stored(m, a, bs)[x] == bs[k]
            else (x in Stored(m, a, bs) <==> x in m) && (x in m ==> Stored(m, a, bs)[x] == m[x])
    decreases |bs|
  {
    if bs != [] {
      StoredAt(m[a := bs[0]], (a + 1) % TWO32, bs[1..], x);
      Behind(x, a);
      hide Stored;
    }
  }

  lemma Behind(x: word, a: word)
    ensures var k := (x - a) % TWO32;
            (x - (a + 1) % TWO32) % TWO32 == if k == 0 then TWO32 - 1 else k - 1
    ensures (x - a) % TWO32 == 0 <==> x == a
  {}

  lemma TakenMem(binary: bool, st: State, m: map<word, byte>, bs: seq<byte>)
    ensures Taken(binary, st.(mem := m), bs) == Taken(binary, st, bs).(mem := m)
  {}

  lemma FillOne(input: seq<byte>, binary: bool, st: State, a: word, bs: seq<byte>)
    requires bs != [] && ByteAt(input, binary, st.pos) == bs[0]
    ensures var next := Take(input, binary, st).(mem := st.mem[a := bs[0]]);
            && Fill(input, binary, st, |bs|, a) == Fill(input, binary, next, |bs[1..]|, (a + 1) % TWO32)
            && Stored(st.mem, a, bs) == Stored(next.mem, (a + 1) % TWO32, bs[1..])
  {
    assert bs[0] % 0x100 == bs[0];
    hide ByteAt, ByteEnd;
  }

  lemma {:induction false} FillSpelled(input: seq<byte>, binary: bool, st: State, a: word, bs: seq<byte>)
    requires Spells(input, binary, st.pos, bs)
    ensures Fill(input, binary, st, |bs|, a) == Taken(binary, st, bs).(mem := Stored(st.mem, a, bs))
    decreases |bs|
  {
    if bs != [] {
      TakeOne(input, binary, st, bs);
      FillOne(input, binary, st, a, bs);
      hide ByteAt, ByteEnd, Spells, Take, Taken, Fill, Stored;
      var next := Take(input, binary, st);
      FillSpelled(input, binary, next.(mem := st.mem[a := bs[0]]), (a + 1) % TWO32, bs[1..]);
      TakenMem(binary, next, st.mem[a := bs[0]], bs[1..]);
    }
  }

  function Shift(address: word, b: byte): word { (address * 0x100 + b) % TWO32 }

  /** The address that bytes spell, behind what has been read of it. */
  function Spelled(address: word, bs: seq<byte>): word
    decreases |bs|
  {
    if bs == [] then address else Spelled(Shift(address, bs[0]), bs[1..])
  }

  lemma {:induction false} AddressSpelled(input: seq<byte>, binary: bool, st: State, address: word, bs: seq<byte>)
    requires Spells(input, binary, st.pos, bs)
    ensures AddressOf(input, binary, st, |bs|, address) == Spelled(address, bs)
    decreases |bs|
  {
    if bs != [] {
      TakeOne(input, binary, st, bs);
      OrByte(address, bs[0]);
      hide Take, Or32, ByteAt, Spells;
      AddressSpelled(input, binary, Take(input, binary, st), Shift(address, bs[0]), bs[1..]);
    }
  }

  lemma SpelledMore(address: word, b: byte, rest: seq<byte>)
    ensures Spelled(address, [b] + rest) == Spelled(Shift(address, b), rest)
  {
    assert ([b] + rest)[1..] == rest;
  }

  lemma Shifts(a: word)
    ensures var b := AddressBytes(a);
            Shift(Shift(Shift(Shift(0, b[0]), b[1]), b[2]), b[3]) == a
  {
    var a1, a2, a3 := a / 0x100_0000, a / 0x1_0000, a / 0x100;
    ShiftIs(0, a1, a1);
    ShiftIs(a1, a2 % 0x100, a2);
    ShiftIs(a2, a3 % 0x100, a3);
    ShiftIs(a3, a % 0x100, a);
    hide Shift;
  }

  lemma ShiftIs(address: word, b: byte, a: word)
    requires address == a / 0x100 && b == a % 0x100
    ensures Shift(address, b) == a
  {}

  lemma AddressBack(a: word)
    ensures Spelled(0, AddressBytes(a)) == a
  {
    var b := AddressBytes(a);
    Shifts(a);
    Spelled4(b[0], b[1], b[2], b[3]);
    hide Shift, Spelled;
  }

  lemma Spelled4(b0: byte, b1: byte, b2: byte, b3: byte)
    ensures Spelled(0, [b0, b1, b2, b3]) == Shift(Shift(Shift(Shift(0, b0), b1), b2), b3)
  {
    hide Shift;
    assert [b0, b1, b2, b3] == [b0] + [b1, b2, b3] && [b1, b2, b3] == [b1] + [b2, b3] && [b2, b3] == [b2] + [b3] && [b3] == [b3] + [];
    SpelledMore(0, b0, [b1, b2, b3]);
    SpelledMore(Shift(0, b0), b1, [b2, b3]);
    SpelledMore(Shift(Shift(0, b0), b1), b2, [b3]);
    SpelledMore(Shift(Shift(Shift(0, b0), b1), b2), b3, []);
  }

  // ----- records

  /** A record begins at pos: characters that are not an S up to j, where there is one; then its type, and its
      bytes, with some checksum. */
  ghost predicate RecordAt(input: seq<byte>, binary: bool, pos: nat, j: nat, r: Rec, sum: byte) {
    && Fits(r) && pos <= j && j + 1 < |input| && (forall k :: pos <= k < j ==> input[k] != S) && input[j] == S
    && input[j + 1] == Kind(r) && Spells(input, binary, j + 2, Bytes(r, sum))
  }

  function RecordEnd(binary: bool, j: nat, r: Rec): nat {
    j + 2 + Width(binary) * (|Content(r)| + 2)
  }

  /** What a record does to memory and to the entry point. */
  function Loaded(st: State, r: Rec): State {
    match r
    case Header(_) => st
    case Data(a, d) => st.(mem := Stored(st.mem, a, d))
    case End(a) => st.(pc := a)
  }

  /** What it is answered: whether the checksum was right. */
  function Reply(r: Rec, sum: byte): byte {
    if sum == Checksum(r) then ACK else NAK
  }

  /** The state after a record. */
  function After(binary: bool, ack: bool, st: State, j: nat, r: Rec, sum: byte): State {
    Loaded(st, r).(pos := RecordEnd(binary, j, r), csum := sum, replies := if ack then st.replies + [Reply(r, sum)] else st.replies)
  }

  lemma BodySpelled(input: seq<byte>, binary: bool, st: State, r: Rec)
    requires Fits(r) && Spells(input, binary, st.pos, Content(r))
    ensures var b := Body(input, binary, st, Kind(r), |Content(r)|);
            b.st == Loaded(Taken(binary, st, Content(r)), r) && b.how == if r.End? then Done else NextRecord
  {
    hide ByteAt, ByteEnd, Spells, Take, Fill, Skip, AddressOf, Stored, Spelled, AddressBytes;
    match r
    case Header(d) => SkipSpelled(input, binary, st, d);
    case Data(a, d) =>
      var h := AddressBytes(a);
      SpellsSplit(input, binary, st.pos, h, d);
      SkipSpelled(input, binary, st, h);
      AddressSpelled(input, binary, st, 0, h);
      AddressBack(a);
      FillSpelled(input, binary, Taken(binary, st, h), a, d);
      SumSplit(h, d);
    case End(a) =>
      var h := AddressBytes(a);
      SkipSpelled(input, binary, st, h);
      AddressSpelled(input, binary, st, 0, h);
      AddressBack(a);
  }

  lemma FindsS(input: seq<byte>, pos: nat, j: nat)
    requires pos <= j < |input| && (forall k :: pos <= k < j ==> input[k] != S) && input[j] == S
    ensures FindS(input, pos) == j
  {}

  /** The three parts of a record's bytes, as they are read. */
  lemma BytesSpelled(input: seq<byte>, binary: bool, st: State, r: Rec, sum: byte)
    requires Fits(r) && Spells(input, binary, st.pos, Bytes(r, sum))
    ensures var st2, w := Take(input, binary, st), Width(binary);
            && ByteAt(input, binary, st.pos) == |Content(r)| + 1
            && st2 == st.(pos := st.pos + w, csum := st.csum + |Content(r)| + 1)
            && Spells(input, binary, st2.pos, Content(r))
            && ByteAt(input, binary, st2.pos + w * |Content(r)|) == sum
            && ByteEnd(input, binary, st2.pos + w * |Content(r)|) == st2.pos + w * |Content(r)| + w
  {
    hide ByteAt, ByteEnd, Content, Take, Spells, Bytes, Sum, Fits;
    var bs, w := Bytes(r, sum), Width(binary);
    LengthFirst(r, sum);
    TakeOne(input, binary, st, bs);
    SumOne(bs);
    LastSpelled(input, binary, st.pos + w, Content(r), sum);
  }

  lemma LengthFirst(r: Rec, sum: byte)
    requires Fits(r)
    ensures var bs := Bytes(r, sum); bs != [] && bs[0] == |Content(r)| + 1 && bs[1..] == Content(r) + [sum]
  {
    hide Content;
    assert Bytes(r, sum) == [|Content(r)| + 1] + (Content(r) + [sum]);
  }

  lemma SumOne(bs: seq<byte>)
    requires bs != []
    ensures Sum(bs[..1]) == bs[0] && |bs[..1]| == 1
  {
    assert bs[..1][1..] == [];
  }

  lemma LastSpelled(input: seq<byte>, binary: bool, pos: nat, bs: seq<byte>, sum: byte)
    requires Spells(input, binary, pos, bs + [sum])
    ensures var at := pos + Width(binary) * |bs|;
            Spells(input, binary, pos, bs) && ByteAt(input, binary, at) == sum && ByteEnd(input, binary, at) == at + Width(binary)
  {
    hide ByteAt, ByteEnd;
    SpellsSplit(input, binary, pos, bs, [sum]);
    ByteSpelled(input, binary, pos + Width(binary) * |bs|, sum);
  }

  lemma RecordIs(input: seq<byte>, binary: bool, ack: bool, st: State, first: bool, j: nat, length: nat)
    requires st.pos <= |input| && FindS(input, st.pos) == j && j + 1 < |input| && (first ==> input[j + 1] == TYPE0)
    requires ByteAt(input, binary, j + 2) == length + 1 < 0x100
    ensures var b := Body(input, binary, Take(input, binary, st.(pos := j + 2, csum := 0)), input[j + 1], length);
            Record(input, binary, ack, st, first) == Step(Check(input, binary, ack, b.st), b.how)
  {
    hide ByteAt, ByteEnd, Body, Check, FindS;
  }

  lemma RecordStarts(input: seq<byte>, binary: bool, pos: nat, j: nat, r: Rec, sum: byte)
    requires pos <= |input| && RecordAt(input, binary, pos, j, r, sum)
    ensures j + 1 < |input| && FindS(input, pos) == j && input[j + 1] == Kind(r) && (r.Header? ==> Kind(r) == TYPE0)
    ensures Fits(r) && |Content(r)| + 1 < 0x100 && Spells(input, binary, j + 2, Bytes(r, sum))
  {
    hide Content, Spells, Bytes;
    FindsS(input, pos, j);
  }

  /** A record that is written so is read so, whatever its checksum. */
  lemma RecordRead(input: seq<byte>, binary: bool, ack: bool, st: State, first: bool, j: nat, r: Rec, sum: byte)
    requires st.pos <= |input| && RecordAt(input, binary, st.pos, j, r, sum) && (first ==> r.Header?)
    ensures Record(input, binary, ack, st, first) == Step(After(binary, ack, st, j, r, sum), if r.End? then Done else NextRecord)
  {
    hide ByteAt, ByteEnd, Content, Spells, Body, Take, FindS, Check, Record, After, Loaded, Taken, Bytes, RecordAt, Kind, Width, Fits;
    RecordStarts(input, binary, st.pos, j, r, sum);
    var st1 := st.(pos := j + 2, csum := 0);
    BytesSpelled(input, binary, st1, r, sum);
    RecordIs(input, binary, ack, st, first, j, |Content(r)|);
    var st2 := Take(input, binary, st1);
    BodySpelled(input, binary, st2, r);
    Answered(input, binary, ack, st, st2, j, r, sum);
  }

  lemma Answered(input: seq<byte>, binary: bool, ack: bool, st: State, st2: State, j: nat, r: Rec, sum: byte)
    requires Fits(r) && st2 == st.(pos := j + 2 + Width(binary), csum := |Content(r)| + 1)
    requires var at := st2.pos + Width(binary) * |Content(r)|;
             ByteAt(input, binary, at) == sum && ByteEnd(input, binary, at) == at + Width(binary)
    ensures Check(input, binary, ack, Loaded(Taken(binary, st2, Content(r)), r)) == After(binary, ack, st, j, r, sum)
  {
    hide ByteAt, ByteEnd, Content, Stored;
  }

  // ----- images

  /** Records one after another from pos on, sums being their checksums. */
  ghost predicate Stream(input: seq<byte>, binary: bool, pos: nat, recs: seq<Rec>, sums: seq<byte>)
    decreases |recs|
  {
    |sums| == |recs| &&
    (recs == [] ||
     exists j: nat :: RecordAt(input, binary, pos, j, recs[0], sums[0]) &&
                      Stream(input, binary, RecordEnd(binary, j, recs[0]), recs[1..], sums[1..]))
  }

  /** The image: each data record's bytes at its address, the later ones last. */
  function Image(m: map<word, byte>, recs: seq<Rec>): map<word, byte>
    decreases |recs|
  {
    if recs == [] then m
    else Image(if recs[0].Data? then Stored(m, recs[0].addr, recs[0].data) else m, recs[1..])
  }

  function Replies(recs: seq<Rec>, sums: seq<byte>): seq<byte>
    requires |sums| == |recs|
    decreases |recs|
  {
    if recs == [] then [] else [Reply(recs[0], sums[0])] + Replies(recs[1..], sums[1..])
  }

  lemma {:induction false} RepliesAt(recs: seq<Rec>, sums: seq<byte>)
    requires |sums| == |recs|
    ensures |Replies(recs, sums)| == |recs|
    ensures forall i :: 0 <= i < |recs| ==> Replies(recs, sums)[i] == if sums[i] == Checksum(recs[i]) then ACK else NAK
    decreases |recs|
  {
    hide Checksum;
    if recs != [] {
      RepliesAt(recs[1..], sums[1..]);
    }
  }

  /** An initial record, data records, and the one that ends the load. */
  predicate WholeImage(recs: seq<Rec>, first: bool) {
    && recs != [] && (first ==> recs[0].Header?)
    && forall i :: 0 <= i < |recs| ==> Fits(recs[i]) && (recs[i].End? <==> i == |recs| - 1)
  }

  /** Loading a memory image that is written as records, in text or in binary, with anything but an S between
      them, writes exactly that image, sets the entry point, and answers every record: with ACK exactly if its
      checksum is right, else with NAK. */
  lemma {:induction false} LoadsImage(input: seq<byte>, binary: bool, ack: bool, st: State, first: bool, recs: seq<Rec>, sums: seq<byte>)
    requires st.pos <= |input| && WholeImage(recs, first) && Stream(input, binary, st.pos, recs, sums)
    ensures var r := Load(input, binary, ack, st, first);
            && r.how == Done && r.st.mem == Image(st.mem, recs) && r.st.pc == recs[|recs| - 1].entry
            && r.st.replies == st.replies + (if ack then Replies(recs, sums) else [])
    decreases |recs|
  {
    var j: nat :| RecordAt(input, binary, st.pos, j, recs[0], sums[0]) &&
                  Stream(input, binary, RecordEnd(binary, j, recs[0]), recs[1..], sums[1..]);
    RecordRead(input, binary, ack, st, first, j, recs[0], sums[0]);
    var next := After(binary, ack, st, j, recs[0], sums[0]);
    LoadOne(input, binary, ack, st, first, next, recs[0].End?);
    AfterOne(binary, ack, st, j, recs, sums);
    RestWhole(recs, first);
    hide Load, After, RecordAt, RecordEnd, Stream, Image, Replies, Reply, Record, WholeImage, Fits;
    if !recs[0].End? {
      LoadsImage(input, binary, ack, next, false, recs[1..], sums[1..]);
    }
  }

  lemma RestWhole(recs: seq<Rec>, first: bool)
    requires WholeImage(recs, first)
    ensures |recs| > 0 && recs[|recs| - 1].End?
    ensures if recs[0].End? then |recs| == 1
            else |recs| > 1 && WholeImage(recs[1..], false) && recs[1..][|recs[1..]| - 1] == recs[|recs| - 1]
  {
    hide Fits;
  }

  lemma LoadOne(input: seq<byte>, binary: bool, ack: bool, st: State, first: bool, next: State, last: bool)
    requires st.pos <= |input| && Record(input, binary, ack, st, first) == Step(next, if last then Done else NextRecord)
    ensures next.pos <= |input|
    ensures Load(input, binary, ack, st, first) == if last then Step(next, Done) else Load(input, binary, ack, next, false)
  {
    hide Record;
  }

  lemma RepliesOne(said: seq<byte>, recs: seq<Rec>, sums: seq<byte>)
    requires |sums| == |recs| > 0
    ensures said + [Reply(recs[0], sums[0])] + Replies(recs[1..], sums[1..]) == said + Replies(recs, sums)
    ensures |recs| == 1 ==> Replies(recs[1..], sums[1..]) == []
  {
    hide Reply;
    assert said + [Reply(recs[0], sums[0])] + Replies(recs[1..], sums[1..]) == said + ([Reply(recs[0], sums[0])] + Replies(recs[1..], sums[1..]));
  }

  lemma ImageOne(st: State, recs: seq<Rec>)
    requires recs != []
    ensures Image(Loaded(st, recs[0]).mem, recs[1..]) == Image(st.mem, recs)
    ensures |recs| == 1 ==> Image(Loaded(st, recs[0]).mem, recs[1..]) == Loaded(st, recs[0]).mem
  {
    hide Stored;
  }

  /** What the first record of an image does, and what the rest still has to do. */
  lemma AfterOne(binary: bool, ack: bool, st: State, j: nat, recs: seq<Rec>, sums: seq<byte>)
    requires |sums| == |recs| > 0 && (recs[0].End? ==> |recs| == 1)
    ensures var next := After(binary, ack, st, j, recs[0], sums[0]);
            && next.pos == RecordEnd(binary, j, recs[0])
            && Image(next.mem, recs[1..]) == Image(st.mem, recs)
            && next.replies + (if ack then Replies(recs[1..], sums[1..]) else []) == st.replies + (if ack then Replies(recs, sums) else [])
            && (recs[0].End? ==> next.mem == Image(st.mem, recs) && next.pc == recs[0].entry
                                 && next.replies == st.replies + (if ack then Replies(recs, sums) else []))
  {
    RepliesOne(st.replies, recs, sums);
    ImageOne(st, recs);
    hide Stored, Reply, RecordEnd, Image, Replies;
    var next := After(binary, ack, st, j, recs[0], sums[0]);
    assert next.mem == Loaded(st, recs[0]).mem;
    assert next.replies == st.replies + (if ack then [Reply(recs[0], sums[0])] else []);
    if recs[0].End? && ack {
      assert next.replies + [] == next.replies;
    }
  }

  // ----- writing records

  function HexOf(d: nat): byte
    requires d < 16
  {
    if d < 10 then 0x30 + d else 0x41 + d - 10
  }

  function WriteOne(binary: bool, b: byte): (cs: seq<byte>)
    ensures |cs| == Width(binary)
  {
    if binary then [b] else [HexOf(b / 16), HexOf(b % 16)]
  }

  function Write(binary: bool, bs: seq<byte>): seq<byte>
    decreases |bs|
  {
    if bs == [] then [] else WriteOne(binary, bs[0]) + Write(binary, bs[1..])
  }

  /** cs is what the input has at pos. */
  predicate Has(input: seq<byte>, pos: nat, cs: seq<byte>) {
    pos + |cs| <= |input| && input[pos..pos + |cs|] == cs
  }

  lemma HasBoth(input: seq<byte>, pos: nat, a: seq<byte>, b: seq<byte>)
    requires Has(input, pos, a + b)
    ensures Has(input, pos, a) && Has(input, pos + |a|, b)
  {
    var t := input[pos..pos + |a + b|];
    assert t[..|a|] == a && t[|a|..] == b;
  }

  lemma {:induction false} WriteSpells(input: seq<byte>, pos: nat, binary: bool, bs: seq<byte>)
    requires Has(input, pos, Write(binary, bs))
    ensures Spells(input, binary, pos, bs)
    decreases |bs|
  {
    if bs != [] {
      HasBoth(input, pos, WriteOne(binary, bs[0]), Write(binary, bs[1..]));
      OneSpells(input, binary, pos, bs[0]);
      hide Has, WriteOne, SpellsOne;
      WriteSpells(input, pos + Width(binary), binary, bs[1..]);
    }
  }

  lemma {:induction false} WriteLength(binary: bool, bs: seq<byte>)
    ensures |Write(binary, bs)| == Width(binary) * |bs|
    decreases |bs|
  {
    if bs != [] {
      WriteLength(binary, bs[1..]);
    }
  }

  lemma OneSpells(input: seq<byte>, binary: bool, pos: nat, b: byte)
    requires Has(input, pos, WriteOne(binary, b))
    ensures SpellsOne(input, binary, pos, b)
  {
    var cs := WriteOne(binary, b);
    assert input[pos] == input[pos..pos + |cs|][0] == cs[0];
    if !binary {
      assert input[pos + 1] == input[pos..pos + |cs|][1] == cs[1];
    }
  }

  function WriteRecord(binary: bool, r: Rec, sum: byte): seq<byte>
    requires Fits(r)
  {
    [S, Kind(r)] + Write(binary, Bytes(r, sum))
  }

  lemma RecordWritten(input: seq<byte>, pos: nat, binary: bool, r: Rec, sum: byte)
    requires Fits(r) && Has(input, pos, WriteRecord(binary, r, sum))
    ensures RecordAt(input, binary, pos, pos, r, sum) && pos + |WriteRecord(binary, r, sum)| == RecordEnd(binary, pos, r)
  {
    var bs := Bytes(r, sum);
    HasBoth(input, pos, [S, Kind(r)], Write(binary, bs));
    WriteSpells(input, pos + 2, binary, bs);
    WriteLength(binary, bs);
    assert input[pos..pos + 2][0] == S && input[pos..pos + 2][1] == Kind(r);
    hide Write, Spells;
  }

  /** Records one behind the other, with nothing between them. */
  function WriteAll(binary: bool, recs: seq<Rec>, sums: seq<byte>): seq<byte>
    requires |sums| == |recs| && forall i :: 0 <= i < |recs| ==> Fits(recs[i])
    decreases |recs|
  {
    if recs == [] then [] else WriteRecord(binary, recs[0], sums[0]) + WriteAll(binary, recs[1..], sums[1..])
  }

  lemma {:induction false} WriteAllStream(input: seq<byte>, pos: nat, binary: bool, recs: seq<Rec>, sums: seq<byte>)
    requires |sums| == |recs| && forall i :: 0 <= i < |recs| ==> Fits(recs[i])
    requires Has(input, pos, WriteAll(binary, recs, sums))
    ensures Stream(input, binary, pos, recs, sums)
    decreases |recs|
  {
    if recs != [] {
      var one, rest := WriteRecord(binary, recs[0], sums[0]), WriteAll(binary, recs[1..], sums[1..]);
      assert WriteAll(binary, recs, sums) == one + rest;
      hide WriteRecord, RecordAt, RecordEnd, Has, Fits, Stream, WriteAll;
      HasBoth(input, pos, one, rest);
      RecordWritten(input, pos, binary, recs[0], sums[0]);
      WriteAllStream(input, pos + |one|, binary, recs[1..], sums[1..]);
      StreamMore(input, binary, pos, pos, recs, sums);
    } else {
      assert Stream(input, binary, pos, recs, sums);
    }
  }

  lemma StreamMore(input: seq<byte>, binary: bool, pos: nat, j: nat, recs: seq<Rec>, sums: seq<byte>)
    requires |sums| == |recs| > 0 && RecordAt(input, binary, pos, j, recs[0], sums[0])
    requires Stream(input, binary, RecordEnd(binary, j, recs[0]), recs[1..], sums[1..])
    ensures Stream(input, binary, pos, recs, sums)
  {
    hide RecordAt, RecordEnd;
  }

  /** Every memory image can be written so that `sload` loads it: in text as in binary, records of at most 250
      bytes of data, right checksums. */
  lemma WrittenImageLoads(binary: bool, recs: seq<Rec>, st: State)
    requires WholeImage(recs, true) && st.pos == 0
    ensures var sums := seq(|recs|, i requires 0 <= i < |recs| => Checksum(recs[i]));
            var r := Load(WriteAll(binary, recs, sums), binary, true, st, true);
            && r.how == Done && r.st.mem == Image(st.mem, recs) && r.st.pc == recs[|recs| - 1].entry
            && |r.st.replies| == |st.replies| + |recs| && forall i :: |st.replies| <= i < |r.st.replies| ==> r.st.replies[i] == ACK
  {
    var sums := seq(|recs|, i requires 0 <= i < |recs| => Checksum(recs[i]));
    var input := WriteAll(binary, recs, sums);
    assert input[0..|input|] == input;
    WriteAllStream(input, 0, binary, recs, sums);
    hide WriteAll, Load, Stream, Image, Replies;
    LoadsImage(input, binary, true, st, true, recs, sums);
    RepliesAt(recs, sums);
  }
}
