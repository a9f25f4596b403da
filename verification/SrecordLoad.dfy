/** sload of SA/prom/commands.c, as it is written. */
module SrecordLoad {
  import opened Words
  import opened SrecordStream

  class Loader {
    const input: seq<byte>       // what the line delivers
    const binary: bool           // -b: lengths, addresses and data in binary
    const ack: bool              // no -a: records are acknowledged
    var pos: nat
    var csum: int
    var mem: map<word, byte>
    var pc: word                 // client_pc
    var replies: seq<byte>       // what has been put to the line

    function Now(): State
      reads this
    {
      State(pos, csum, mem, pc, replies)
    }

    constructor (bytes: seq<byte>, b: bool, a: bool, m: map<word, byte>, p: word)
      ensures input == bytes && binary == b && ack == a && Now() == State(0, 0, m, p, [])
    {
      input, binary, ack, pos, csum, mem, pc, replies := bytes, b, a, 0, 0, m, p, [];
    }

    /** getc */
    method Get() returns (c: int)
      modifies `pos
      ensures c == Getc(input, old(pos)) && pos == Past(input, old(pos))
    {
      if pos < |input| {
        c := input[pos];
        pos := pos + 1;
      } else {
        c := -1;
      }
    }

    /** getc_csum */
    method GetCsum() returns (b: int)
      modifies `pos, `csum
      ensures b == ByteAt(input, binary, old(pos)) && Now() == Take(input, binary, old(Now()))
    {
      if binary {
        var c := Get();
        b := c % 0x100;
      } else {
        var c1 := Get();
        var c2 := Get();
        b := Or32(Digit(c1 % 0x80) * 16, Digit(c2 % 0x80));
      }
      csum := csum + b;
    }

    /** The four bytes of an address. */
    method GetAddress() returns (address: word)
      modifies `pos, `csum
      ensures address == AddressOf(input, binary, old(Now()), 4, 0) && Now() == Skip(input, binary, old(Now()), 4)
    {
      ghost var st := Now();
      address := 0;
      var i := 0;
      while i < 4
        invariant 0 <= i <= 4
        invariant AddressOf(input, binary, st, 4, 0) == AddressOf(input, binary, Now(), 4 - i, address)
        invariant Skip(input, binary, st, 4) == Skip(input, binary, Now(), 4 - i)
        invariant Now() == st.(pos := pos, csum := csum)
      {
        hide Or32, ByteAt;
        var b := GetCsum();
        address := Or32(address * 0x100, b) % TWO32;
        i := i + 1;
      }
    }

    /** Characters up to an S; false at the end of the input. */
    method SeekS() returns (found: bool)
      requires pos <= |input|
      modifies `pos
      ensures var at := FindS(input, old(pos));
              found == (at < |input|) && pos == if found then at + 1 else at
    {
      ghost var start := pos;
      var i := Get();
      while i != S as int
        invariant start <= pos <= |input|
        invariant if i == -1 then pos == |input| && FindS(input, start) == pos
                  else pos > start && i == input[pos - 1] as int && FindS(input, start) == FindS(input, pos - 1)
        decreases |input| - pos, i != -1
      {
        if i == -1 {
          return false;
        }
        i := Get();
      }
      found := true;
    }

    /** One record; `first` is whether it is the first. */
    method GetRecord(first: bool) returns (how: Outcome)
      requires pos <= |input|
      modifies this
      ensures Step(Now(), how) == Record(input, binary, ack, old(Now()), first)
    {
      hide Or32, ByteAt, Body, FindS, ByteEnd;
      ghost var st := Now();
      var found := SeekS();
      if !found {
        return EndOfInput;
      }
      csum := 0;
      var kind := Get();
      if first && kind != TYPE0 as int {
        return MissedInitial;
      }
      var length := GetCsum();
      if length < 0 || length >= 0x100 {
        return BadLength;
      }
      how := GetBody(kind, length - 1);
      Acknowledge();
    }

    /** The checksum, and the reply. */
    method Acknowledge()
      modifies `pos, `csum, `replies
      ensures Now() == Check(input, binary, ack, old(Now()))
    {
      hide Or32, ByteAt;
      var saved := 0xff - csum % 0x100;
      var received := GetCsum();
      csum := received;
      if csum != saved {
        if ack {
          replies := replies + [NAK];
        }
      } else if ack {
        replies := replies + [ACK];
      }
    }

    method SkipData(count: int)
      modifies `pos, `csum
      ensures Now() == Skip(input, binary, old(Now()), count)
    {
      hide Or32, ByteAt;
      ghost var st := Now();
      var length := count;
      while length > 0
        invariant Skip(input, binary, st, count) == Skip(input, binary, Now(), length)
        invariant Now() == st.(pos := pos, csum := csum)
      {
        var _ := GetCsum();
        length := length - 1;
      }
    }

    method StoreData(start: word, count: int)
      modifies `pos, `csum, `mem
      ensures Now() == Fill(input, binary, old(Now()), count, start)
    {
      hide Or32, ByteAt;
      ghost var st := Now();
      var length, address: word := count, start;
      while length > 0
        invariant Fill(input, binary, st, count, start) == Fill(input, binary, Now(), length, address)
      {
        StoreByte(address);
        address := (address + 1) % TWO32;
        length := length - 1;
      }
    }

    method StoreByte(address: word)
      modifies `pos, `csum, `mem
      ensures Now() == Take(input, binary, old(Now())).(mem := old(mem)[address := ByteAt(input, binary, old(pos)) % 0x100])
    {
      hide ByteAt;
      var b := GetCsum();
      mem := mem[address := b % 0x100];
    }

    /** What follows the length of a record of some type. */
    method GetBody(kind: int, length: int) returns (how: Outcome)
      modifies `pos, `csum, `mem, `pc
      ensures Step(Now(), how) == Body(input, binary, old(Now()), kind, length)
    {
      hide AddressOf, Skip, Fill;
      how := NextRecord;
      if kind == TYPE0 as int {
        SkipData(length);
      } else if kind == TYPE3 as int {
        var address := GetAddress();
        StoreData(address, length - 4);
      } else if kind == TYPE7 as int {
        var address := GetAddress();
        pc := address;
        how := Done;
      }
    }

    /** The loop over the records. */
    method Sload() returns (how: Outcome)
      requires pos <= |input|
      modifies this
      ensures Step(Now(), how) == Load(input, binary, ack, old(Now()), true)
    {
      hide Record;
      ghost var goal := Load(input, binary, ack, Now(), true);
      var first := true;
      how := NextRecord;
      while how == NextRecord
        invariant pos <= |input|
        invariant if how == NextRecord then goal == Load(input, binary, ack, Now(), first) else goal == Step(Now(), how)
        decreases how == NextRecord, |input| - pos
      {
        how := GetRecord(first);
        first := false;
      }
    }
  }
}
