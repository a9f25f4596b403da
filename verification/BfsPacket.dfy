/** Packets of the boot file server protocol (SA/saio/bfs.h, SA/saio/bfs.c), and what servers answer. */
module BfsPacket {
  import opened Words
  import opened Slices

  const MAXPATH := 255
  const MAXDATA := 1024
  const MAXTRIES := 8
  const HEADER := 32

  const ENQUIRE := 1
  const ENQRPY := 2
  const READ := 3
  const RDRPY := 4
  const ERROR := 7

  /** A packet: the header's fields that matter, and the bytes after the header, as many as were sent. */
  datatype Packet = Packet(kind: int, pathlen: nat, datalen: nat, offset: nat, body: seq<byte>)

  /** A file name: no NUL in it. */
  predicate Name(n: seq<byte>) { 0 !in n && |n| <= MAXPATH }

  /** mk_bfs, and how much of the packet bfs_transact then sends. */
  function MkBfs(kind: int, name: seq<byte>, offset: nat, datalen: nat): Packet {
    Packet(kind, |name| + 1, datalen, offset, name + [0])
  }

  /** The receiving buffer holds a header, MAXPATH and MAXDATA bytes; what is beyond is cut off. */
  function Receive(p: Packet): Packet {
    if |p.body| > MAXPATH + MAXDATA then p.(body := p.body[..MAXPATH + MAXDATA]) else p
  }

  /** ok_bfs: x is the request and r the packet received; cc is the length of r with its header. */
  predicate OkBfs(x: Packet, r: Packet, rsp: int) {
    && r.kind != ERROR
    && x.body <= r.body            // strcmp finds the names equal; x.body ends in the only NUL it has
    && x.offset == r.offset
    && r.kind == rsp
    && HEADER + |r.body| >= HEADER + r.pathlen + r.datalen
  }

  /** The data of a reply, as _bfsread takes it out. */
  function Data(r: Packet): seq<byte>
    requires r.pathlen + r.datalen <= |r.body|
  {
    r.body[r.pathlen..r.pathlen + r.datalen]
  }

  // ----- servers

  type Files = map<seq<byte>, seq<byte>>

  /** A request as mk_bfs makes them. */
  ghost predicate Request(q: Packet) {
    && (q.kind == ENQUIRE || q.kind == READ) && |q.body| > 0
    && q == MkBfs(q.kind, q.body[..|q.body| - 1], q.offset, q.datalen) && Name(q.body[..|q.body| - 1])
  }

  lemma RequestMade(kind: int, name: seq<byte>, offset: nat, datalen: nat)
    requires (kind == ENQUIRE || kind == READ) && Name(name)
    ensures Request(MkBfs(kind, name, offset, datalen))
  {
    assert (name + [0])[..|name|] == name;
  }

  /** What an honest server with these files answers. */
  function Answer(files: Files, q: Packet): Packet
    requires |q.body| > 0
  {
    var name := q.body[..|q.body| - 1];
    if name !in files then Packet(ERROR, |name| + 1, 0, q.offset, name + [0])
    else if q.kind == ENQUIRE then Packet(ENQRPY, |name| + 1, 0, q.offset, name + [0])
    else
      var data := Slice(files[name], q.offset, q.datalen);
      Packet(RDRPY, |name| + 1, |data|, q.offset, name + [0] + data)
  }

  lemma {:induction false} NamesMatch(a: seq<byte>, b: seq<byte>, rest: seq<byte>)
    requires 0 !in a && 0 !in b && a + [0] <= b + [0] + rest
    ensures a == b
  {
    if a == [] {
      assert (a + [0])[0] == (b + [0] + rest)[0];
    } else {
      assert (a + [0])[0] == (b + [0] + rest)[0];
      assert (a + [0])[1..] == a[1..] + [0] && (b + [0] + rest)[1..] == b[1..] + [0] + rest;
      NamesMatch(a[1..], b[1..], rest);
    }
  }

  /** A read reply that `ok_bfs` accepts answers a read request for the same file at the same offset, and holds
      what that request asked for. */
  lemma AcceptedReply(files: Files, name: seq<byte>, offset: nat, cc: nat, q: Packet)
    requires Name(name) && Request(q)
    requires OkBfs(MkBfs(READ, name, offset, cc), Receive(Answer(files, q)), RDRPY)
    ensures q == MkBfs(READ, name, offset, q.datalen) && name in files
    ensures var r := Receive(Answer(files, q));
            Data(r) == Slice(files[name], offset, q.datalen) && r.datalen == |Data(r)|
  {
    var p := Answer(files, q);
    assert p.kind == RDRPY;
    assert Receive(p) == p;
    var n := q.body[..|q.body| - 1];
    NamesMatch(name, n, Slice(files[n], q.offset, q.datalen));
    assert name + [0] == n + [0];
  }

  lemma AcceptedEnquiry(files: Files, name: seq<byte>, q: Packet)
    requires Name(name) && Request(q)
    requires OkBfs(MkBfs(ENQUIRE, name, 0, 0), Receive(Answer(files, q)), ENQRPY)
    ensures name in files
  {
    var n := q.body[..|q.body| - 1];
    assert Receive(Answer(files, q)).kind == ENQRPY;
    assert n + [0] == n + [0] + [];
    NamesMatch(name, n, []);
  }

  /** An honest answer to a read request is accepted exactly if it fits the receiving buffer, which is one byte
      too small for a whole block of a file whose name is as long as it may be. */
  lemma AnswerFits(files: Files, name: seq<byte>, offset: nat, cc: nat)
    requires Name(name) && name in files && cc <= MAXDATA
    ensures var x := MkBfs(READ, name, offset, cc);
            OkBfs(x, Receive(Answer(files, x)), RDRPY) <==> |name| < MAXPATH || |Slice(files[name], offset, cc)| < MAXDATA
  {
    var x := MkBfs(READ, name, offset, cc);
    assert x.body[..|x.body| - 1] == name;
    assert Answer(files, x).body == name + [0] + Slice(files[name], offset, cc);
  }

  /** Why the read offset must not move back: the late answer to an earlier, longer request at the same offset
      is accepted, and holds more than is asked for now. */
  lemma LateAnswer(files: Files, name: seq<byte>, offset: nat, cc: nat, earlier: nat)
    requires Name(name) && name in files && cc < earlier < MAXDATA && offset + earlier <= |files[name]|
    ensures var r := Receive(Answer(files, MkBfs(READ, name, offset, earlier)));
            OkBfs(MkBfs(READ, name, offset, cc), r, RDRPY) && r.datalen > cc
  {
    AnswerFits(files, name, offset, earlier);
  }
}
