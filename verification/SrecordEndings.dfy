/** How a load by `sload` (SA/prom/commands.c) comes to its end, and what is in memory then. */
module SrecordEndings {
  import opened Words
  import opened Masks
  import opened SrecordStream
  import opened SrecordImage

  // ----- lengths

  /** The two characters of a length are refused: the first is no hexadecimal digit that a `|` of the two can hide,
      or the second comes before all digits. */
  predicate LengthRefused(input: seq<byte>, binary: bool, pos: nat) {
    !binary &&
    var c1, c2 := Getc(input, pos) % 0x80, Getc(input, Past(input, pos)) % 0x80;
    c1 < 0x30 || 0x47 <= c1 <= 0x60 || c1 >= 0x67 || c2 < 0x30
  }

  lemma {:induction false} OrBound(a: nat, b: nat, k: nat, bits: nat)
    requires k <= bits && a < Pow2(k) && b < Pow2(k)
    ensures a <= OrBits(a, b, bits) < Pow2(k) && b <= OrBits(a, b, bits)
    decreases bits
  {
    if k > 0 {
      OrBound(a / 2, b / 2, k - 1, bits - 1);
    } else if bits > 0 {
      OrBound(a, b, 0, bits - 1);
    }
  }

  lemma NegativeOr(x: int, y: int)
    requires -1000 <= x < 1000 && -1000 <= y < 1000 && (x < 0 || y < 0)
    ensures Or32(x, y) < 0
  {
    hide OrBits, Pow2;
    SmallPowers();
    OrBound(x % TWO32, y % TWO32, 32, 32);
  }

  lemma SmallOr(x: nat, y: nat, k: nat)
    requires k <= 32 && x < Pow2(k) && y < Pow2(k) && Pow2(k) <= 0x1000
    ensures x <= Or32(x, y) < Pow2(k)
  {
    hide OrBits, Pow2;
    OrBound(x, y, k, 32);
  }

  lemma OrIsByte(h: int, l: int)
    requires -48 <= h <= 41 && -48 <= l <= 41
    ensures 0 <= Or32(h * 16, l) < 0x100 <==> 0 <= h < 16 && 0 <= l
  {
    hide Or32, Pow2;
    SmallPowers();
    SomePower();
    if h < 0 || l < 0 {
      NegativeOr(h * 16, l);
    } else if h < 16 {
      SmallOr(h * 16, l, 8);
    } else {
      SmallOr(h * 16, l, 12);
    }
  }

  lemma SomePower()
    ensures Pow2(12) == 0x1000
  {
    assert Pow2(8) == 0x100;
  }

  lemma DigitRange(c: int)
    requires 0 <= c < 0x80
    ensures -48 <= Digit(c) <= 41
    ensures Digit(c) < 0 <==> c < 0x30
    ensures Digit(c) >= 16 <==> 0x47 <= c <= 0x60 || c >= 0x67
  {}

  lemma LengthRefusedIff(input: seq<byte>, binary: bool, pos: nat)
    ensures LengthRefused(input, binary, pos) <==> !(0 <= ByteAt(input, binary, pos) < 0x100)
  {
    hide Digit, Or32;
    if !binary {
      var c1, c2 := Getc(input, pos) % 0x80, Getc(input, Past(input, pos)) % 0x80;
      DigitRange(c1);
      DigitRange(c2);
      OrIsByte(Digit(c1), Digit(c2));
    }
  }

  // ----- one record

  predicate NoS(input: seq<byte>, pos: nat) {
    forall k :: pos <= k < |input| ==> input[k] != S
  }

  /** The first S from pos on is at j. */
  predicate SAt(input: seq<byte>, pos: nat, j: nat) {
    pos <= j < |input| && input[j] == S && forall k :: pos <= k < j ==> input[k] != S
  }

  /** The type of the record whose S is at j; -1 at the end of the input. */
  function TypeAt(input: seq<byte>, j: nat): int { Getc(input, j + 1) }

  /** The first record has to be an S0. */
  predicate Missed(input: seq<byte>, j: nat, first: bool) { first && TypeAt(input, j) != TYPE0 }

  predicate Refused(input: seq<byte>, binary: bool, j: nat) { LengthRefused(input, binary, Past(input, j + 1)) }

  /** How a record ends whose S is at j. */
  predicate EndsSo(input: seq<byte>, binary: bool, j: nat, first: bool, how: Outcome) {
    && (how == MissedInitial <==> Missed(input, j, first))
    && (how == BadLength <==> !Missed(input, j, first) && Refused(input, binary, j))
    && (how == Done <==> !Missed(input, j, first) && !Refused(input, binary, j) && TypeAt(input, j) == TYPE7)
    && how != EndOfInput
  }

  /** The way a record ends is decided by the first S, the character behind it, and the two of the length; a record
      that is not read to its end changes nothing but the place in the input and the checksum. */
  lemma RecordEnds(input: seq<byte>, binary: bool, ack: bool, st: State, first: bool)
    requires st.pos <= |input|
    ensures var r := Record(input, binary, ack, st, first);
            && (NoS(input, st.pos) ==> r.how == EndOfInput)
            && (forall j: nat :: SAt(input, st.pos, j) ==> EndsSo(input, binary, j, first, r.how))
            && (r.how == EndOfInput || r.how == MissedInitial || r.how == BadLength ==>
                  r.st.mem == st.mem && r.st.pc == st.pc && r.st.replies == st.replies)
  {
    hide ByteAt, ByteEnd, Skip, Fill, AddressOf, Check, LengthRefused, FindS;
    var at := FindS(input, st.pos);
    LengthRefusedIff(input, binary, Past(input, at + 1));
  }

  /** A record of a type that the loader does not know stores nothing; the byte after its length is taken for its
      checksum, which the length alone has to match. */
  lemma OtherType(input: seq<byte>, binary: bool, ack: bool, st: State, first: bool, j: nat, length: byte, sum: byte)
    requires st.pos <= |input| && SAt(input, st.pos, j) && j + 1 < |input| && !first
    requires input[j + 1] != TYPE0 && input[j + 1] != TYPE3 && input[j + 1] != TYPE7
    requires Spells(input, binary, j + 2, [length, sum])
    ensures Record(input, binary, ack, st, first) ==
              Step(st.(pos := j + 2 + 2 * Width(binary), csum := sum,
                       replies := if ack then st.replies + [if sum == 0xff - length then ACK else NAK] else st.replies), NextRecord)
  {
    hide ByteAt, ByteEnd, FindS, SpellsOne;
    var w := Width(binary);
    FindsS(input, st.pos, j);
    TwoSpelled(input, binary, j + 2, length, sum);
  }

  lemma TwoSpelled(input: seq<byte>, binary: bool, pos: nat, a: byte, b: byte)
    requires Spells(input, binary, pos, [a, b])
    ensures var w := Width(binary);
            && ByteAt(input, binary, pos) == a && ByteEnd(input, binary, pos) == pos + w
            && ByteAt(input, binary, pos + w) == b && ByteEnd(input, binary, pos + w) == pos + 2 * w
  {
    hide ByteAt, ByteEnd, SpellsOne;
    assert [a, b][1..] == [b];
    ByteSpelled(input, binary, pos, a);
    ByteSpelled(input, binary, pos + Width(binary), b);
  }

  // ----- a load that does not come to an S7 record

  /** Records one after another from pos on up to end, none of them the last of an image. */
  ghost predicate StreamTo(input: seq<byte>, binary: bool, pos: nat, recs: seq<Rec>, sums: seq<byte>, end: nat)
    decreases |recs|
  {
    |sums| == |recs| &&
    if recs == [] then pos == end
    else !recs[0].End? &&
         exists j: nat :: RecordAt(input, binary, pos, j, recs[0], sums[0]) &&
                          StreamTo(input, binary, RecordEnd(binary, j, recs[0]), recs[1..], sums[1..], end)
  }

  /** Some state behind the records: their data are in memory, each has its reply. */
  predicate HasRead(ack: bool, st: State, recs: seq<Rec>, sums: seq<byte>, next: State)
    requires |sums| == |recs|
  {
    next.mem == Image(st.mem, recs) && next.pc == st.pc && next.replies == st.replies + (if ack then Replies(recs, sums) else [])
  }

  lemma {:induction false} LoadsAsFar(input: seq<byte>, binary: bool, ack: bool, st: State, first: bool, recs: seq<Rec>, sums: seq<byte>, end: nat)
    returns (next: State)
    requires st.pos <= |input| && StreamTo(input, binary, st.pos, recs, sums, end) && (first && recs != [] ==> recs[0].Header?)
    ensures next.pos == end <= |input| && |sums| == |recs| && HasRead(ack, st, recs, sums, next)
    ensures Load(input, binary, ack, st, first) == Load(input, binary, ack, next, first && recs == [])
    decreases |recs|
  {
    hide Load, After, RecordAt, RecordEnd, Image, Replies, Reply, Record;
    if recs == [] {
      NothingRead(ack, st, sums);
      next := st;
    } else {
      var j: nat :| RecordAt(input, binary, st.pos, j, recs[0], sums[0]) &&
                    StreamTo(input, binary, RecordEnd(binary, j, recs[0]), recs[1..], sums[1..], end);
      hide StreamTo;
      RecordRead(input, binary, ack, st, first, j, recs[0], sums[0]);
      var st1 := After(binary, ack, st, j, recs[0], sums[0]);
      LoadOne(input, binary, ack, st, first, st1, false);
      AfterOne(binary, ack, st, j, recs, sums);
      AfterPc(binary, ack, st, j, recs[0], sums[0]);
      next := LoadsAsFar(input, binary, ack, st1, false, recs[1..], sums[1..], end);
    }
  }

  lemma NothingRead(ack: bool, st: State, sums: seq<byte>)
    requires sums == []
    ensures HasRead(ack, st, [], sums, st)
  {}

  lemma AfterPc(binary: bool, ack: bool, st: State, j: nat, r: Rec, sum: byte)
    requires !r.End?
    ensures After(binary, ack, st, j, r, sum).pc == st.pc
  {
    hide Stored;
  }

  /** What ends a load before its S7 record: no further S, a first record that is no S0, or a refused length; and
      memory then holds the image of the records before that, each of which has had its reply. */
  lemma LoadBreaks(input: seq<byte>, binary: bool, ack: bool, st: State, recs: seq<Rec>, sums: seq<byte>, end: nat)
    requires st.pos <= |input| && StreamTo(input, binary, st.pos, recs, sums, end) && (recs != [] ==> recs[0].Header?)
    ensures end <= |input| && |sums| == |recs|
    ensures var r := Load(input, binary, ack, st, true);
            && (NoS(input, end) ==> r.how == EndOfInput && HasRead(ack, st, recs, sums, r.st))
            && (forall j: nat :: SAt(input, end, j) ==>
                  && (Missed(input, j, recs == []) ==> r.how == MissedInitial && HasRead(ack, st, recs, sums, r.st))
                  && (!Missed(input, j, recs == []) && Refused(input, binary, j) ==>
                        r.how == BadLength && HasRead(ack, st, recs, sums, r.st)))
  {
    hide Record, Image, Replies, NoS, SAt, Missed, Refused, StreamTo;
    var next := LoadsAsFar(input, binary, ack, st, true, recs, sums, end);
    RecordEnds(input, binary, ack, next, recs == []);
  }
}
