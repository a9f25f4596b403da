/** The boot file server client (SA/saio/bfs.c) against a network that may lose, repeat, delay and reorder
    packets, with any number of servers that hold different files. */
module BfsClient {
  import opened Words
  import opened BfsPacket
  import opened BfsNetwork
  import opened Slices

  class Client {
    const servers: map<Addr, Files>
    var events: seq<Event>       // what is still to happen
    var log: seq<Packet>         // the requests sent so far
    var name: seq<byte>          // ei_filename
    var src: Addr                // ei_srcaddr: who sent the last packet
    var dst: Addr                // ei_dstaddr
    var offset: nat              // i_offset

    /** Replies come only from servers: no stray packet passes for an answer to an enquiry, or for an answer of
        a server's to a read. */
    ghost predicate Valid()
      reads this
    {
      && Name(name) && (forall i :: 0 <= i < |log| ==> Request(log[i]))
      && (forall e :: e in events ==> Genuine(e))
    }

    predicate Genuine(e: Event) {
      e.Stray? ==> e.p.kind != ENQRPY && (e.p.kind == RDRPY ==> e.sender !in servers)
    }

    /** A server that has the file has been chosen. */
    ghost predicate Opened()
      reads this
    {
      Valid() && dst in servers && name in servers[dst]
    }

    ghost function File(): seq<byte>
      requires Opened()
      reads this
    {
      servers[dst][name]
    }

    /** No request for this file is at or after the offset, unless it is past the end of the file. */
    ghost predicate MovesForward()
      requires Opened()
      reads this
    {
      forall i :: 0 <= i < |log| && log[i].kind == READ && log[i].body == name + [0] ==>
        log[i].offset < offset || |File()| <= log[i].offset
    }

    /** The last packet received is a server's answer to a request that has been sent. */
    ghost predicate Heard(r: Packet)
      requires Valid()
      reads this
    {
      src in servers && exists i :: 0 <= i < |log| && r == Receive(Answer(servers[src], log[i]))
    }

    constructor (s: map<Addr, Files>, e: seq<Event>)
      requires forall x :: x in e && x.Stray? ==> x.p.kind != ENQRPY && (x.p.kind == RDRPY ==> x.sender !in s)
      ensures Valid() && log == [] && servers == s && events == e
    {
      servers, events, log := s, e, [];
      name, src, dst, offset := [], 0, 0, 0;
    }

    /** The transaction that x begins. */
    function DealFor(x: Packet, rsp: int): Deal
      reads this
    {
      Deal(servers, log, x, rsp, dst)
    }

    /** bfs_transact: an acceptable packet ends it, and the eighth time-out without one. */
    method Transact(x: Packet, rsp: int) returns (res: Outcome, r: Packet, tries: nat)
      requires Valid() && Request(x)
      requires (x.kind == ENQUIRE && rsp == ENQRPY) || (x.kind == READ && rsp == RDRPY && dst in servers)
      modifies `events, `log, `src
      ensures Valid()
      ensures 1 <= tries <= MAXTRIES && log == old(log) + seq(tries, _ => x)
      ensures var d, es := old(DealFor(x, rsp)), old(events);
        && (res == Answered <==> exists i: nat :: AnsweredBy(d, es, i))
        && (res == GaveUp <==> exists i: nat :: ExhaustedBy(d, es, i))
        && (forall i: nat :: AnsweredBy(d, es, i) ==>
              r == PacketOf(d, LogAt(d, es, i), es[i]) && src == SenderOf(es[i]) && tries == TimeOuts(es[..i]) + 1 && events == es[i + 1..])
        && (forall i: nat :: ExhaustedBy(d, es, i) ==> tries == MAXTRIES && events == es[i + 1..])
        && (res == StillWaiting ==> events == [])
      ensures res == Answered ==> Heard(r) && OkBfs(x, r, rsp) && (rsp == RDRPY ==> src == dst)
    {
      hide Valid, Heard, OkBfs, Accepts, AnsweredBy, ExhaustedBy, NoneBefore, TimeOuts, Request;
      ghost var d, es, p := DealFor(x, rsp), events, 0;
      Nothing(d, es);
      tries := 0;
      while tries < MAXTRIES
        invariant 0 <= tries <= MAXTRIES && log == old(log) + seq(tries, _ => x)
        invariant Valid() && p <= |es| && events == es[p..] && tries == TimeOuts(es[..p]) && NoneBefore(d, es, p)
        invariant tries > 0 ==> p > 0 && es[p - 1].Timeout? && NoneBefore(d, es, p - 1)
        decreases MAXTRIES - tries
      {
        tries := tries + 1;
        Send(x);
        assert log == LogAt(d, es, p);
        var timedOut, heard;
        heard, timedOut, r, p := Listen(x, rsp, d, es, p);
        if heard {
          Accepted(d, es, p - 1);
          return Answered, r, tries;
        }
        if !timedOut {
          NoFate(d, es);
          return StillWaiting, r, tries;
        }
      }
      Exhausted(d, es, p - 1);
      res, r := GaveUp, x;
    }

    method Send(x: Packet)
      requires Valid() && Request(x)
      modifies `log
      ensures Valid() && log == old(log) + [x]
    {
      hide Request;
      log := log + [x];
    }

    /** Waits for an acceptable packet or a time-out; p is the number of events that have happened. */
    method Listen(x: Packet, rsp: int, ghost d: Deal, ghost es: seq<Event>, ghost p0: nat)
      returns (heard: bool, timedOut: bool, r: Packet, ghost p: nat)
      requires Valid() && (rsp == ENQRPY || dst in servers) && d.servers == servers && d.x == x && d.rsp == rsp && d.dst == dst
      requires p0 <= |es| && events == es[p0..] && log == LogAt(d, es, p0) && NoneBefore(d, es, p0)
      requires rsp == ENQRPY || rsp == RDRPY
      modifies `events, `src
      ensures Valid() && p0 <= p <= |es| && events == es[p..] && !(heard && timedOut)
      ensures heard ==>
        && p > p0 && TimeOuts(es[..p - 1]) == TimeOuts(es[..p0]) && AcceptedAt(d, es, p - 1) && NoneBefore(d, es, p - 1)
        && r == PacketOf(d, LogAt(d, es, p - 1), es[p - 1]) && src == SenderOf(es[p - 1])
        && Heard(r) && OkBfs(x, r, rsp) && (rsp == RDRPY ==> src == dst)
      ensures !heard ==> NoneBefore(d, es, p)
      ensures timedOut ==> p > p0 && es[p - 1].Timeout? && TimeOuts(es[..p]) == TimeOuts(es[..p0]) + 1 && NoneBefore(d, es, p - 1)
      ensures !heard && !timedOut ==> p == |es| && TimeOuts(es) == TimeOuts(es[..p0])
    {
      hide Valid, Heard, OkBfs, Accepts, NoneBefore, TimeOuts, LogAt;
      p, r := p0, x;
      while events != []
        invariant Valid() && p0 <= p <= |es| && events == es[p..] && NoneBefore(d, es, p)
        invariant TimeOuts(es[..p]) == TimeOuts(es[..p0]) && log == LogAt(d, es, p)
        decreases |es| - p
      {
        OneEvent(d, es, p);
        var e := events[0];
        Pop();
        p := p + 1;
        if e.Timeout? { return false, true, r, p; }
        var accepted;
        accepted, r := Take(x, rsp, e, r, d);
        if accepted { return true, false, r, p; }
      }
      assert es[..p] == es;
      heard, timedOut := false, false;
    }

    method Pop()
      requires Valid() && events != []
      modifies `events
      ensures Valid() && events == old(events)[1..] && Genuine(old(events)[0])
    {
      events := events[1..];
    }

    /** A packet that has come; whether it is tossed. */
    method Take(x: Packet, rsp: int, e: Event, last: Packet, ghost d: Deal) returns (accepted: bool, r: Packet)
      requires Valid() && !e.Timeout? && Genuine(e)
      requires d.servers == servers && d.x == x && d.rsp == rsp && d.dst == dst && (rsp == ENQRPY || (rsp == RDRPY && dst in servers))
      modifies `src
      ensures Valid() && accepted == Accepts(d, log, e)
      ensures accepted ==>
        r == PacketOf(d, log, e) && src == SenderOf(e) && Heard(r) && OkBfs(x, r, rsp) && (rsp == RDRPY ==> src == dst)
    {
      hide Answer, Request, Name;
      accepted, r := false, last;
      match e
      case Reply(server, i) =>
        if i < |log| && server in servers {
          assert Request(log[i]);
          RequestHasName(log[i]);
          r, src := Receive(Answer(servers[server], log[i])), server;
          accepted := OkBfs(x, r, rsp) && (rsp == ENQRPY || src == dst);
        }
      case Stray(q, sender) =>
        r, src := Receive(q), sender;
        accepted := OkBfs(x, r, rsp) && (rsp == ENQRPY || src == dst);
    }

    lemma EnquiryHeard(filename: seq<byte>, r: Packet)
      requires Valid() && Name(filename) && Heard(r) && OkBfs(MkBfs(ENQUIRE, filename, 0, 0), r, ENQRPY)
      ensures src in servers && filename in servers[src]
    {
      hide Answer, Receive, OkBfs;
      var i :| 0 <= i < |log| && r == Receive(Answer(servers[src], log[i]));
      AcceptedEnquiry(servers[src], filename, log[i]);
    }

    /** Whether any read request for this file has been sent. */
    predicate NeverRead(filename: seq<byte>)
      reads this
    {
      forall i :: 0 <= i < |log| && log[i].kind == READ ==> log[i].body != filename + [0]
    }

    /** A server that has the file opens it, if it answers in time. */
    lemma OpenedBy(filename: seq<byte>)
      requires Name(filename)
      ensures var d := DealFor(MkBfs(ENQUIRE, filename, 0, 0), ENQRPY);
        forall server, k: nat :: server in servers && filename in servers[server] && Prompt(events, server, |log|, k) ==>
          AnsweredBy(d, events, k) && TimeOuts(events[..k]) == k && SenderOf(events[k]) == server
    {
      var x := MkBfs(ENQUIRE, filename, 0, 0);
      var d := DealFor(x, ENQRPY);
      forall server, k: nat | server in servers && filename in servers[server] && Prompt(events, server, |log|, k)
        ensures AnsweredBy(d, events, k) && TimeOuts(events[..k]) == k && SenderOf(events[k]) == server
      {
        EnquiryFits(servers[server], filename);
        PromptIsFirst(d, events, server, k);
      }
    }

    /** _bfsopen; false if no server has answered, or the name is too long. */
    method Open(filename: seq<byte>) returns (ok: bool)
      requires Valid() && 0 !in filename
      modifies `events, `log, `src, `dst, `name, `offset
      ensures Valid()
      ensures ok ==> Opened() && name == filename && offset == 0
      ensures ok && old(NeverRead(filename)) ==> MovesForward()
      ensures var d := old(DealFor(MkBfs(ENQUIRE, filename, 0, 0), ENQRPY));
        ok == (|filename| <= MAXPATH && exists i: nat :: AnsweredBy(d, old(events), i))
      ensures forall server, k: nat ::
        |filename| <= MAXPATH && server in servers && filename in servers[server] && old(Prompt(events, server, |log|, k)) ==>
          ok && dst == server && events == old(events)[k + 1..] && |log| == old(|log|) + k + 1
    {
      if |filename| > MAXPATH {
        return false;
      }
      hide Answer, Receive, OkBfs, Request, Heard, AnsweredBy, ExhaustedBy, Prompt;
      OpenedBy(filename);
      name, offset := filename, 0;
      RequestMade(ENQUIRE, filename, 0, 0);
      var x := MkBfs(ENQUIRE, filename, 0, 0);
      var res, r, tries := Transact(x, ENQRPY);
      ok := res == Answered;
      if ok {
        EnquiryHeard(filename, r);
        dst := src;
      }
    }

    /** Every read request for this file at the present offset or beyond, where there still is something, is x. */
    ghost predicate OnlyAsked(x: Packet)
      requires Opened()
      reads this
    {
      AskedOnly(log, name, offset, |File()|, x)
    }

    /** A request that is answered gets exactly its part of the file of the chosen server. */
    lemma Exact(x: Packet, r: Packet)
      requires Opened() && Heard(r) && src == dst && OkBfs(x, r, RDRPY)
      requires x == MkBfs(READ, name, offset, x.datalen) && OnlyAsked(x)
      ensures r.pathlen + r.datalen <= |r.body|
      ensures Data(r) == Slice(File(), offset, x.datalen) && r.datalen == |Data(r)|
    {
      hide Answer, Receive;
      var i :| 0 <= i < |log| && r == Receive(Answer(servers[src], log[i]));
      AcceptedReply(servers[src], name, offset, x.datalen, log[i]);
    }

    /** The chosen server answers the next `served` requests in time. */
    ghost predicate Served(served: nat)
      reads `events, `log, `dst
    {
      Serves(events, dst, |log|, served)
    }

    lemma ServedFewer(served: nat, fewer: nat)
      requires Served(served) && fewer <= served
      ensures Served(fewer)
    {
      ServesFewer(events, dst, |log|, served, fewer);
    }

    /** An answer with so much data fits the receiving buffer. */
    predicate Reachable(cc: nat)
      reads `name
    {
      cc <= MAXDATA && (|name| < MAXPATH || cc < MAXDATA)
    }

    lemma OpenedSays()
      requires Opened()
      ensures Valid() && Name(name) && dst in servers
    {}

    lemma AnsweredPromptly(cc: nat, served: nat) returns (k: nat)
      requires Opened() && Reachable(cc) && served > 0 && Served(served)
      ensures k < |events| && AnsweredBy(DealFor(MkBfs(READ, name, offset, cc), RDRPY), events, k) && TimeOuts(events[..k]) == k
      ensures Serves(events[k + 1..], dst, |log| + k + 1, served - 1)
    {
      hide Valid, AnsweredBy, OkBfs, Receive, Answer, TimeOuts, Request;
      var x := MkBfs(READ, name, offset, cc);
      k := NextServed(events, dst, |log|, served);
      OpenedSays();
      AnswerFits(servers[dst], name, offset, cc);
      SliceAll(File(), offset, cc);
      PromptIsFirst(DealFor(x, RDRPY), events, dst, k);
    }

    /** Asks for a block and waits for it. */
    method Fetch(cc: nat, ghost served: nat) returns (res: Outcome, data: seq<byte>)
      requires Opened() && OnlyAsked(MkBfs(READ, name, offset, cc))
      modifies `events, `log, `src
      ensures Opened() && OnlyAsked(MkBfs(READ, name, offset, cc))
      ensures res == Answered ==> data == Slice(File(), offset, cc)
      ensures var d := old(DealFor(MkBfs(READ, name, offset, cc), RDRPY));
        res == Answered <==> exists i: nat :: AnsweredBy(d, old(events), i)
      ensures Reachable(cc) && served > 0 && old(Served(served)) ==> res == Answered && Served(served - 1)
    {
      hide Answer, Receive, OkBfs, Request, Heard, Slice, AnsweredBy, ExhaustedBy, Serves, TimeOuts, AskedOnly, PacketOf, LogAt,
        SenderOf, Data;
      OpenedSays();
      ghost var sure, k := Reachable(cc) && served > 0 && Served(served), 0;
      if sure { k := AnsweredPromptly(cc, served); }
      data := [];
      var x := MkBfs(READ, name, offset, cc);
      RequestMade(READ, name, offset, cc);
      var r: Packet, tries;
      ghost var before := log;
      res, r, tries := Transact(x, RDRPY);
      AskedAgain(before, name, offset, |File()|, x, tries);
      if res == Answered {
        Exact(x, r);
        data := Data(r);
      }
      assert sure ==> tries == k + 1;
    }

    /** One block of `_bfsread`: asked for, stored behind the n bytes there are, and, to verify, asked for and
        compared again. */
    method ReadBlock(buf: array<byte>, at: nat, n: nat, cc: nat, verify: bool, ghost served: nat) returns (res: Outcome, datalen: nat)
      requires Opened() && MovesForward() && 0 < cc <= MAXDATA && at + n + cc <= buf.Length
      modifies this`events, this`log, this`src, buf
      ensures Opened() && OnlyAsked(MkBfs(READ, name, offset, cc)) && datalen <= cc
      ensures forall k :: 0 <= k < buf.Length && !(at + n <= k < at + n + cc) ==> buf[k] == old(buf[k])
      ensures buf[at..at + n] == old(buf[at..at + n])
      ensures res == Answered ==>
        && buf[at..at + (n + datalen)] == old(buf[at..at + n]) + Slice(File(), offset, cc)
        && datalen == |Slice(File(), offset, cc)| && (datalen == 0 ==> |File()| <= offset)
      ensures Reachable(cc) && served >= 2 && old(Served(served)) ==> res == Answered && Served(served - 2)
      ensures Reachable(cc) && served >= 1 && old(Served(served)) && |File()| <= offset ==> res == Answered && Served(served - 1)
    {
      hide Opened, Valid, OnlyAsked, MovesForward, Slice, MkBfs, Served, AnsweredBy;
      datalen := 0;
      ForwardAsks(cc);
      SliceAll(File(), offset, cc);
      OnlyPastEnd(File(), offset, cc);
      var data;
      res, data := Fetch(cc, served);
      if res != Answered { return; }
      datalen := |data|;
      ghost var before := buf[..at + n];
      Store(buf, at + n, data);
      assert buf[at..at + n] == before[at..];
      Behind(buf[..], at, n, datalen);
      if verify && datalen > 0 {
        res, data := Fetch(cc, if served > 0 then served - 1 else 0);
        // nothing bfsverify compares can differ
        assert res == Answered ==> buf[at + n..at + n + datalen] == data;
      } else if served >= 2 && Served(served - 1) {
        ServedFewer(served - 1, served - 2);
      }
    }

    lemma ForwardAsks(cc: nat)
      requires Opened() && MovesForward()
      ensures OnlyAsked(MkBfs(READ, name, offset, cc))
    {}

    lemma PastEnd(cc: nat)
      requires Opened() && OnlyAsked(MkBfs(READ, name, offset, cc)) && |File()| <= offset
      ensures MovesForward()
    {}

    /** Past the block that was asked for, nothing has been asked for. */
    method Advance(ghost cc: nat, datalen: nat)
      requires Opened() && OnlyAsked(MkBfs(READ, name, offset, cc)) && datalen > 0
      modifies `offset
      ensures Opened() && MovesForward() && offset == old(offset) + datalen
    {
      offset := offset + datalen;
    }

    /** One turn of that loop, behind n bytes of the cnt wanted; `left` is what the server is sure to answer, `base` what
        is to be left of it. */
    method ReadTurn(buf: array<byte>, at: nat, n: nat, cnt: nat, verify: bool, ghost start: nat, ghost left: nat, ghost base: nat)
      returns (res: Outcome, datalen: nat, ghost left': nat)
      requires Opened() && MovesForward() && n < cnt && at + cnt <= buf.Length && offset == start + n
      requires buf[at..at + n] == Slice(File(), start, n)
      modifies this`events, this`log, this`src, this`offset, buf
      ensures Opened() && n + datalen <= cnt
      ensures forall k :: 0 <= k < buf.Length && !(at <= k < at + cnt) ==> buf[k] == old(buf[k])
      ensures if res == Answered then
                && MovesForward() && offset == old(offset) + datalen && buf[at..at + (n + datalen)] == Slice(File(), start, n + datalen)
                && (datalen == 0 ==> n == |Slice(File(), start, cnt)|)
              else offset == old(offset) && buf[at..at + n] == Slice(File(), start, n)
      ensures |name| < MAXPATH && old(Served(left)) && Supply(left, base, cnt - n, |File()| <= old(offset)) ==>
        res == Answered && Served(left') && left' >= base && (datalen > 0 ==> Supply(left', base, cnt - n - datalen, |File()| <= offset))
    {
      hide Slice, Opened, MkBfs, OnlyAsked, MovesForward, Needed, Served, Supply;
      ghost var ended := |File()| <= offset;
      ghost var sure := |name| < MAXPATH && Served(left) && Supply(left, base, cnt - n, ended);
      if sure { SupplyNow(left, base, cnt - n, ended); }
      var cc := if cnt - n > MAXDATA then MAXDATA else cnt - n;
      res, datalen := ReadBlock(buf, at, n, cc, verify, left);
      left' := left;
      if res != Answered {
        datalen := 0;
        return;
      }
      SliceGrows(File(), start, n, cc, cnt);
      ShortSlice(File(), offset, cc);
      if sure {
        SupplyLasts(left, base, cnt - n, ended, cc, datalen, |File()| <= offset + datalen);
        left' := left - (if ended then 1 else 2);
      }
      if datalen == 0 {
        PastEnd(cc);
      } else {
        Advance(cc, datalen);
      }
    }

    /** _bfsread, into buf from index `at` on; `verify` is whether $bfsverify begins with y.  n bytes have been
        read when it ends; it ends without an answer only if a transaction does, and not if the chosen server answers
        as many requests in time as it may take. */
    method Read(buf: array<byte>, at: nat, cnt: nat, verify: bool, ghost served: nat) returns (res: Outcome, n: nat)
      requires Opened() && MovesForward() && at + cnt <= buf.Length
      modifies this`events, this`log, this`src, this`offset, buf
      ensures Opened()
      ensures n <= cnt && offset == old(offset) + n
      ensures buf[at..at + n] == Slice(File(), old(offset), n)
      ensures forall k :: 0 <= k < buf.Length && !(at <= k < at + cnt) ==> buf[k] == old(buf[k])
      ensures res == Answered ==> n == |Slice(File(), old(offset), cnt)| && MovesForward()
      ensures res != Answered ==> n < cnt
      ensures |name| < MAXPATH && served >= Needed(cnt) && old(Served(served)) ==>
        res == Answered && Served(served - Needed(cnt))
    {
      hide Slice, Opened, MkBfs, OnlyAsked, MovesForward, Needed, Served, Supply;
      SliceEmpty(File(), offset);
      n := 0;
      ghost var start, sure, left: nat := offset, |name| < MAXPATH && served >= Needed(cnt) && Served(served), served;
      ghost var base: nat := if sure then served - Needed(cnt) else 0;
      if sure { SupplyFirst(served, cnt, |File()| <= offset); }
      while n < cnt
        invariant Opened() && MovesForward()
        invariant n <= cnt && offset == start + n
        invariant buf[at..at + n] == Slice(File(), start, n)
        invariant forall k :: 0 <= k < buf.Length && !(at <= k < at + cnt) ==> buf[k] == old(buf[k])
        invariant sure ==> Served(left) && Supply(left, base, cnt - n, |File()| <= offset)
        decreases cnt - n
      {
        var datalen;
        res, datalen, left := ReadTurn(buf, at, n, cnt, verify, start, left, base);
        if res != Answered { return; }
        if datalen == 0 {
          if sure { ServedFewer(left, base); }
          return Answered, n;
        }
        n := n + datalen;
      }
      SliceAll(File(), start, n);
      if sure {
        SupplyLeft(left, base, |File()| <= offset);
        ServedFewer(left, base);
      }
      res := Answered;
    }
  }

  /** As many requests as a read of so many bytes may take: two for each block, and two at the end of the file. */
  function Needed(cnt: nat): nat { 2 * (cnt / MAXDATA + 2) }

  lemma NeededMost(cnt: nat)
    ensures Needed(cnt) >= 4 && (cnt > MAXDATA ==> Needed(cnt - MAXDATA) + 2 == Needed(cnt))
  {}

  /** Requests enough, beyond `base`, for what is still to be read; at the end of the file it takes one. */
  predicate Supply(left: nat, base: int, rest: nat, ended: bool) {
    if rest == 0 then left >= base else if ended then left > base else left >= base + Needed(rest)
  }

  lemma SupplyFirst(served: nat, cnt: nat, ended: bool)
    requires served >= Needed(cnt)
    ensures Supply(served, served - Needed(cnt), cnt, ended)
  {}

  lemma SupplyNow(left: nat, base: nat, rest: nat, ended: bool)
    requires Supply(left, base, rest, ended) && rest > 0
    ensures left >= if ended then 1 else 2
  {}

  lemma SupplyLasts(left: nat, base: nat, rest: nat, ended: bool, cc: nat, datalen: nat, ended': bool)
    requires Supply(left, base, rest, ended) && rest > 0 && cc == (if rest > MAXDATA then MAXDATA else rest)
    requires datalen <= cc && (ended ==> datalen == 0) && (datalen < cc ==> ended')
    ensures var left' := left - (if ended then 1 else 2);
            left' >= base && (datalen > 0 ==> Supply(left', base, rest - datalen, ended'))
  {
    NeededMost(rest);
  }

  lemma SupplyLeft(left: nat, base: nat, ended: bool)
    requires Supply(left, base, 0, ended)
    ensures left >= base
  {}

  function NeededAll(counts: seq<nat>): nat {
    if counts == [] then 0 else Needed(counts[0]) + NeededAll(counts[1..])
  }

  lemma NeededFirst(counts: seq<nat>, i: nat)
    requires i < |counts|
    ensures NeededAll(counts[i..]) == Needed(counts[i]) + NeededAll(counts[i + 1..])
  {
    assert counts[i..][1..] == counts[i + 1..];
  }

  /** One more read behind others, which have got n bytes. */
  method ReadNext(io: Client, buf: array<byte>, at: nat, n: nat, count: nat, verify: bool,
                  ghost start: nat, ghost prior: seq<nat>, ghost served: nat)
    returns (res: Outcome, m: nat)
    requires io.Opened() && io.MovesForward() && at + n + count <= buf.Length && io.offset == start + n
    requires n == |Reads(io.File(), start, prior)| && buf[at..at + n] == Reads(io.File(), start, prior)
    modifies io`events, io`log, io`src, io`offset, buf
    ensures io.Opened() && m <= count
    ensures res == Answered ==>
      && io.MovesForward() && io.offset == start + n + m && n + m == |Reads(io.File(), start, prior + [count])|
      && buf[at..at + (n + m)] == Reads(io.File(), start, prior + [count])
    ensures |io.name| < MAXPATH && served >= Needed(count) && old(io.Served(served)) ==>
      res == Answered && io.Served(served - Needed(count))
  {
    hide Slice, Reads, Client.Opened, Client.MovesForward, Client.Valid, Needed, Client.Served;
    ghost var f, before := io.File(), buf[..];
    ReadsMore(f, start, prior, count);
    res, m := io.Read(buf, at + n, count, verify, served);
    SamePart(before, buf[..], at, n);
    Behind(buf[..], at, n, m);
    SliceOnce(f, start + n, m, count);
  }

  /** Reads of a file one after another, as long as they are answered, get what one read of all their counts would. */
  method ReadEach(io: Client, buf: array<byte>, at: nat, counts: seq<nat>, verify: bool, ghost served: nat)
    returns (res: Outcome, n: nat)
    requires io.Opened() && io.MovesForward() && at + Total(counts) <= buf.Length
    modifies io`events, io`log, io`src, io`offset, buf
    ensures io.Opened()
    ensures res == Answered ==>
      && n == |Slice(io.File(), old(io.offset), Total(counts))| && io.offset == old(io.offset) + n && io.MovesForward()
      && at + n <= buf.Length && buf[at..at + n] == Slice(io.File(), old(io.offset), Total(counts))
    ensures |io.name| < MAXPATH && served >= NeededAll(counts) && old(io.Served(served)) ==> res == Answered
  {
    hide Slice, Reads, Total, Client.Opened, Client.MovesForward, Client.Valid, Needed, NeededAll, Client.Served;
    ghost var sure, left: nat := |io.name| < MAXPATH && served >= NeededAll(counts) && io.Served(served), served;
    ghost var f, start := io.File(), io.offset;
    Unfolded(f, start, []);
    assert counts[0..] == counts;
    res, n := Answered, 0;
    var i := 0;
    while i < |counts|
      invariant 0 <= i <= |counts| && io.Opened() && io.MovesForward() && io.File() == f && io.offset == start + n
      invariant res == Answered && n == |Reads(f, start, counts[..i])| && n <= Total(counts[..i]) <= Total(counts)
      invariant buf[at..at + n] == Reads(f, start, counts[..i])
      invariant sure ==> io.Served(left) && left >= NeededAll(counts[i..])
    {
      NeededFirst(counts, i);
      TotalUpTo(counts, i);
      TotalMore(counts[..i], counts[i]);
      var m;
      res, m := ReadNext(io, buf, at, n, counts[i], verify, start, counts[..i], left);
      left := if left >= Needed(counts[i]) then left - Needed(counts[i]) else 0;
      if res != Answered { return; }
      n, i := n + m, i + 1;
    }
    assert counts[..i] == counts;
    SplitReads(f, start, counts);
  }
}
