/** What the network may do to a client of the boot file server (SA/saio/bfs.c): lose, repeat, delay and reorder
    packets, with any number of servers that hold different files; and what a list of such events does to one
    transaction. */
module BfsNetwork {
  import opened Words
  import opened BfsPacket
  import opened Slices

  type Addr = nat

  /** What happens while the client waits.  `Reply` delivers a server's answer to any request sent so far; one
      never delivered is lost, one delivered again is a duplicate. */
  datatype Event =
    | Timeout
    | Reply(server: Addr, request: nat)
    | Stray(p: Packet, sender: Addr)

  datatype Outcome = Answered | GaveUp | StillWaiting

  // ----- what a list of events does to a transaction

  function TimeOuts(es: seq<Event>): nat {
    if es == [] then 0 else TimeOuts(es[..|es| - 1]) + if es[|es| - 1].Timeout? then 1 else 0
  }

  /** One transaction: the requests sent before it, the request, the kind of reply wanted, and the chosen server. */
  datatype Deal = Deal(servers: map<Addr, Files>, log: seq<Packet>, x: Packet, rsp: int, dst: Addr)

  /** The requests sent by the time the i-th event happens: one more after each time-out. */
  function LogAt(d: Deal, es: seq<Event>, i: nat): seq<Packet>
    requires i <= |es|
  {
    d.log + seq(TimeOuts(es[..i]) + 1, _ => d.x)
  }

  /** An event brings a packet. */
  ghost predicate Brings(d: Deal, log: seq<Packet>, e: Event) {
    match e
    case Timeout => false
    case Reply(server, i) => i < |log| && server in d.servers && |log[i].body| > 0
    case Stray(_, _) => true
  }

  ghost function PacketOf(d: Deal, log: seq<Packet>, e: Event): Packet
    requires Brings(d, log, e)
  {
    match e
    case Reply(server, i) => Receive(Answer(d.servers[server], log[i]))
    case Stray(p, _) => Receive(p)
  }

  function SenderOf(e: Event): Addr
    requires !e.Timeout?
  {
    match e case Reply(server, _) => server case Stray(_, sender) => sender
  }

  /** An event brings an acceptable packet: the right kind, name, offset and length, and, for a read, from the chosen
      server. */
  ghost predicate Accepts(d: Deal, log: seq<Packet>, e: Event) {
    Brings(d, log, e) && OkBfs(d.x, PacketOf(d, log, e), d.rsp) && (d.rsp == ENQRPY || SenderOf(e) == d.dst)
  }

  ghost predicate AcceptedAt(d: Deal, es: seq<Event>, i: nat)
    requires i < |es|
  {
    Accepts(d, LogAt(d, es, i), es[i])
  }

  ghost predicate NoneBefore(d: Deal, es: seq<Event>, p: nat)
    requires p <= |es|
  {
    forall j :: 0 <= j < p ==> !AcceptedAt(d, es, j)
  }

  /** The first acceptable packet comes as the i-th event, before the last time-out there may be. */
  ghost predicate AnsweredBy(d: Deal, es: seq<Event>, i: nat) {
    i < |es| && AcceptedAt(d, es, i) && TimeOuts(es[..i]) < MAXTRIES && NoneBefore(d, es, i)
  }

  /** The i-th event is the last time-out there may be, with no acceptable packet before. */
  ghost predicate ExhaustedBy(d: Deal, es: seq<Event>, i: nat) {
    i < |es| && es[i].Timeout? && TimeOuts(es[..i]) == MAXTRIES - 1 && NoneBefore(d, es, i)
  }

  lemma TimeOutsMore(es: seq<Event>, i: nat)
    requires i < |es|
    ensures TimeOuts(es[..i + 1]) == TimeOuts(es[..i]) + if es[i].Timeout? then 1 else 0
  {
    assert es[..i + 1][..i] == es[..i];
  }

  lemma {:induction false} TimeOutsGrow(es: seq<Event>, i: nat, j: nat)
    requires i <= j <= |es|
    ensures TimeOuts(es[..i]) <= TimeOuts(es[..j])
    decreases j
  {
    if i < j {
      TimeOutsMore(es, j - 1);
      TimeOutsGrow(es, i, j - 1);
    }
  }

  /** A list of events is answered, exhausted or neither, and at one place only. */
  lemma OneFate(d: Deal, es: seq<Event>, i: nat, k: nat)
    requires ExhaustedBy(d, es, i) || AnsweredBy(d, es, i)
    ensures ExhaustedBy(d, es, k) ==> ExhaustedBy(d, es, i) && k == i
    ensures AnsweredBy(d, es, k) ==> AnsweredBy(d, es, i) && k == i
  {
    if (ExhaustedBy(d, es, k) || AnsweredBy(d, es, k)) && k != i {
      TimeOutsMore(es, i);
      TimeOutsMore(es, k);
      if i < k { TimeOutsGrow(es, i + 1, k); } else { TimeOutsGrow(es, k + 1, i); }
    }
  }

  lemma NoFate(d: Deal, es: seq<Event>)
    requires TimeOuts(es) < MAXTRIES && NoneBefore(d, es, |es|)
    ensures forall k: nat :: !ExhaustedBy(d, es, k) && !AnsweredBy(d, es, k)
  {
    assert es[..|es|] == es;
    forall k: nat ensures !ExhaustedBy(d, es, k) {
      if k < |es| {
        TimeOutsMore(es, k);
        TimeOutsGrow(es, k + 1, |es|);
      }
    }
  }

  lemma Accepted(d: Deal, es: seq<Event>, p: nat)
    requires p < |es| && AcceptedAt(d, es, p) && TimeOuts(es[..p]) < MAXTRIES && NoneBefore(d, es, p)
    ensures AnsweredBy(d, es, p) && forall k: nat :: !ExhaustedBy(d, es, k) && (AnsweredBy(d, es, k) ==> k == p)
  {
    forall k: nat ensures !ExhaustedBy(d, es, k) && (AnsweredBy(d, es, k) ==> k == p) {
      OneFate(d, es, p, k);
    }
  }

  lemma Exhausted(d: Deal, es: seq<Event>, p: nat)
    requires p < |es| && es[p].Timeout? && TimeOuts(es[..p + 1]) == MAXTRIES && NoneBefore(d, es, p)
    ensures ExhaustedBy(d, es, p) && forall k: nat :: !AnsweredBy(d, es, k) && (ExhaustedBy(d, es, k) ==> k == p)
  {
    TimeOutsMore(es, p);
    forall k: nat ensures !AnsweredBy(d, es, k) && (ExhaustedBy(d, es, k) ==> k == p) {
      OneFate(d, es, p, k);
    }
  }

  lemma Nothing(d: Deal, es: seq<Event>)
    ensures TimeOuts(es[..0]) == 0 && NoneBefore(d, es, 0)
  {}

  /** What one more event does. */
  lemma OneEvent(d: Deal, es: seq<Event>, p: nat)
    requires p < |es| && NoneBefore(d, es, p)
    ensures TimeOuts(es[..p + 1]) == TimeOuts(es[..p]) + if es[p].Timeout? then 1 else 0
    ensures !es[p].Timeout? ==> LogAt(d, es, p + 1) == LogAt(d, es, p)
    ensures !Accepts(d, LogAt(d, es, p), es[p]) ==> NoneBefore(d, es, p + 1)
    ensures es[p].Timeout? ==> !Accepts(d, LogAt(d, es, p), es[p])
  {
    TimeOutsMore(es, p);
  }

  /** Fewer than MAXTRIES time-outs, k of them, and then the server's answer to one of the copies of the request that
      have been sent by then, the first being the request of that number. */
  predicate Prompt(es: seq<Event>, server: Addr, sent: nat, k: nat) {
    && k < MAXTRIES && k < |es| && (forall j :: 0 <= j < k ==> es[j].Timeout?)
    && es[k].Reply? && es[k].server == server && sent <= es[k].request <= sent + k
  }

  /** A server that answers n requests in this way, one after the other. */
  ghost predicate Serves(es: seq<Event>, server: Addr, sent: nat, n: nat)
    decreases n
  {
    n == 0 || exists k: nat :: Prompt(es, server, sent, k) && Serves(es[k + 1..], server, sent + k + 1, n - 1)
  }

  lemma NextServed(es: seq<Event>, server: Addr, sent: nat, n: nat) returns (k: nat)
    requires n > 0 && Serves(es, server, sent, n)
    ensures k < |es| && Prompt(es, server, sent, k) && Serves(es[k + 1..], server, sent + k + 1, n - 1)
  {
    k :| Prompt(es, server, sent, k) && Serves(es[k + 1..], server, sent + k + 1, n - 1);
  }

  lemma {:induction false} ServesFewer(es: seq<Event>, server: Addr, sent: nat, n: nat, m: nat)
    requires m <= n && Serves(es, server, sent, n)
    ensures Serves(es, server, sent, m)
    decreases n
  {
    hide Prompt;
    if 0 < m < n {
      var k := NextServed(es, server, sent, n);
      ServesFewer(es[k + 1..], server, sent + k + 1, n - 1, m - 1);
    }
  }

  lemma {:induction false} AllTimeOuts(es: seq<Event>, k: nat)
    requires k <= |es| && forall j :: 0 <= j < k ==> es[j].Timeout?
    ensures TimeOuts(es[..k]) == k
    decreases k
  {
    if k > 0 {
      AllTimeOuts(es, k - 1);
      TimeOutsMore(es, k - 1);
    }
  }

  /** A prompt answer of an honest server is the first acceptable packet, if it would be acceptable at all. */
  lemma PromptIsFirst(d: Deal, es: seq<Event>, server: Addr, k: nat)
    requires Prompt(es, server, |d.log|, k) && server in d.servers && |d.x.body| > 0 && (d.rsp == ENQRPY || server == d.dst)
    requires OkBfs(d.x, Receive(Answer(d.servers[server], d.x)), d.rsp)
    ensures AnsweredBy(d, es, k) && TimeOuts(es[..k]) == k
  {
    hide OkBfs, Receive, Answer;
    AllTimeOuts(es, k);
    var log := LogAt(d, es, k);
    assert log[es[k].request] == d.x;
    assert Accepts(d, log, es[k]);
    forall j | 0 <= j < k ensures !AcceptedAt(d, es, j) {}
  }

  /** The honest answer to an enquiry for a file that the server has is acceptable. */
  lemma EnquiryFits(files: Files, name: seq<byte>)
    requires Name(name) && name in files
    ensures var x := MkBfs(ENQUIRE, name, 0, 0); OkBfs(x, Receive(Answer(files, x)), ENQRPY)
  {
    var x := MkBfs(ENQUIRE, name, 0, 0);
    assert x.body[..|x.body| - 1] == name;
  }

  ghost predicate AskedOnly(log: seq<Packet>, name: seq<byte>, offset: nat, length: nat, x: Packet) {
    forall i :: 0 <= i < |log| && log[i].kind == READ && log[i].body == name + [0] ==>
      log[i] == x || log[i].offset < offset || length <= log[i].offset
  }

  lemma AskedAgain(log: seq<Packet>, name: seq<byte>, offset: nat, length: nat, x: Packet, n: nat)
    requires AskedOnly(log, name, offset, length, x)
    ensures AskedOnly(log + seq(n, _ => x), name, offset, length, x)
  {}

  lemma RequestHasName(q: Packet)
    requires Request(q)
    ensures |q.body| > 0
  {}
}
