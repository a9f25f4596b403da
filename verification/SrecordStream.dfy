/** The bytes `sload` (SA/prom/commands.c) reads from a serial line, and the functions that say what each of its
    loops does. */
module SrecordStream {
  import opened Words

  const ACK: byte := 0x06
  const NAK: byte := 0x15
  const S: byte := 0x53          // 'S'
  const TYPE0: byte := 0x30      // '0'
  const TYPE3: byte := 0x33
  const TYPE7: byte := 0x37

  /** What the loader works on: the input read so far, the checksum, memory, client_pc, and its replies. */
  datatype State = State(pos: nat, csum: int, mem: map<word, byte>, pc: word, replies: seq<byte>)

  /** getc: -1 at the end of the input. */
  function Getc(input: seq<byte>, pos: nat): int {
    if pos < |input| then input[pos] else -1
  }

  function Past(input: seq<byte>, pos: nat): (r: nat)
    ensures r >= pos && (pos <= |input| ==> r <= |input|)
  {
    if pos < |input| then pos + 1 else pos
  }

  /** DIGIT; what it makes of other characters is not a digit. */
  function Digit(c: int): int {
    if c > 0x39 then (if c >= 0x61 then c - 0x61 else c - 0x41) + 10 else c - 0x30
  }

  /** A C `|` of 32-bit values. */
  function OrBits(a: nat, b: nat, bits: nat): nat {
    if bits == 0 then 0 else 2 * OrBits(a / 2, b / 2, bits - 1) + (if a % 2 == 1 || b % 2 == 1 then 1 else 0)
  }

  function Or32(a: int, b: int): int {
    var r := OrBits(a % TWO32, b % TWO32, 32) % TWO32;
    if r < 0x8000_0000 then r else r - TWO32
  }

  /** get_pair and the binary form: the byte at pos. */
  function ByteAt(input: seq<byte>, binary: bool, pos: nat): int {
    if binary then Getc(input, pos) % 0x100
    else Or32(Digit(Getc(input, pos) % 0x80) * 16, Digit(Getc(input, Past(input, pos)) % 0x80))
  }

  function ByteEnd(input: seq<byte>, binary: bool, pos: nat): (r: nat)
    ensures r >= pos && (pos <= |input| ==> r <= |input|)
  {
    if binary then Past(input, pos) else Past(input, Past(input, pos))
  }

  /** getc_csum */
  function Take(input: seq<byte>, binary: bool, st: State): State {
    st.(pos := ByteEnd(input, binary, st.pos), csum := st.csum + ByteAt(input, binary, st.pos))
  }

  /** The data of an initial record are passed over. */
  function Skip(input: seq<byte>, binary: bool, st: State, n: int): (r: State)
    ensures r.pos >= st.pos && (st.pos <= |input| ==> r.pos <= |input|)
    ensures r.mem == st.mem && r.pc == st.pc && r.replies == st.replies
    decreases if n > 0 then n else 0
  {
    if n <= 0 then st else Skip(input, binary, Take(input, binary, st), n - 1)
  }

  /** The bytes of an address, n of them to come. */
  function AddressOf(input: seq<byte>, binary: bool, st: State, n: nat, address: word): word
    decreases n
  {
    if n == 0 then address
    else AddressOf(input, binary, Take(input, binary, st), n - 1,
                   Or32(address * 0x100, ByteAt(input, binary, st.pos)) % TWO32)
  }

  /** Data go to memory. */
  function Fill(input: seq<byte>, binary: bool, st: State, n: int, address: word): (r: State)
    ensures r.pos >= st.pos && (st.pos <= |input| ==> r.pos <= |input|)
    ensures r.pc == st.pc && r.replies == st.replies
    decreases if n > 0 then n else 0
  {
    if n <= 0 then st
    else
      var next := Take(input, binary, st);
      Fill(input, binary, next.(mem := st.mem[address := ByteAt(input, binary, st.pos) % 0x100]), n - 1, (address + 1) % TWO32)
  }

  /** Where the next S is, or the end of the input. */
  function FindS(input: seq<byte>, pos: nat): (r: nat)
    requires pos <= |input|
    ensures pos <= r <= |input| && (forall k :: pos <= k < r ==> input[k] != S) && (r < |input| ==> input[r] == S)
    decreases |input| - pos
  {
    if pos == |input| || input[pos] == S then pos else FindS(input, pos + 1)
  }

  /** How a record, or the whole load, ends. */
  datatype Outcome = NextRecord | Done | EndOfInput | MissedInitial | BadLength

  datatype Step = Step(st: State, how: Outcome)

  /** The body of a record of a type, its length being what is left to read but the checksum. */
  function Body(input: seq<byte>, binary: bool, st: State, kind: int, length: int): Step {
    if kind == TYPE0 then Step(Skip(input, binary, st, length), NextRecord)
    else if kind == TYPE3 then
      var address := AddressOf(input, binary, st, 4, 0);
      Step(Fill(input, binary, Skip(input, binary, st, 4), length - 4, address), NextRecord)
    else if kind == TYPE7 then
      Step(Skip(input, binary, st, 4).(pc := AddressOf(input, binary, st, 4, 0)), Done)
    else Step(st, NextRecord)
  }

  /** The checksum, and the reply to it. */
  function Check(input: seq<byte>, binary: bool, ack: bool, st: State): State {
    var expected := 0xff - st.csum % 0x100;
    var received := ByteAt(input, binary, st.pos);
    st.(pos := ByteEnd(input, binary, st.pos), csum := received,
        replies := if ack then st.replies + [if received == expected then ACK else NAK] else st.replies)
  }

  /** One record. */
  function Record(input: seq<byte>, binary: bool, ack: bool, st: State, first: bool): (r: Step)
    requires st.pos <= |input|
    ensures r.st.pos <= |input| && (r.how == NextRecord ==> r.st.pos > st.pos)
  {
    var at := FindS(input, st.pos);
    if at == |input| then Step(st.(pos := at), EndOfInput)
    else
      var kind := Getc(input, at + 1);
      var st1 := st.(pos := Past(input, at + 1), csum := 0);
      if first && kind != TYPE0 then Step(st1, MissedInitial)
      else
        var length := ByteAt(input, binary, st1.pos);
        var st2 := Take(input, binary, st1);
        if length < 0 || length >= 0x100 then Step(st2, BadLength)
        else
          var b := Body(input, binary, st2, kind, length - 1);
          Step(Check(input, binary, ack, b.st), b.how)
  }

  /** The whole load. */
  function Load(input: seq<byte>, binary: bool, ack: bool, st: State, first: bool): Step
    requires st.pos <= |input|
    decreases |input| - st.pos
  {
    var r := Record(input, binary, ack, st, first);
    if r.how == NextRecord then Load(input, binary, ack, r.st, false) else r
  }
}
