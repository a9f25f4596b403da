/** The descriptor ring shared by the host and the board (SA/saio/cmc.c), one memory access at a time.  One side
    puts descriptors in and the other takes them out, at their own speeds; a descriptor is stored and loaded as
    two halfwords, and an interrupt is raised when `ringput` says that its entry is the only one. */
module CmcProtocol {
  import opened Words
  import opened CmcIndex
  import opened Masks

  function High(v: word): nat { v / 0x1_0000 }
  function Low(v: word): nat { v % 0x1_0000 }

  /** Where the producer is in `ringput`; `result` is what the last call returned. */
  datatype Producer =
    | Resting(result: int)
    | StoreHigh(v: word, idx: nat)
    | StoreLow(v: word, idx: nat)
    | Publish(v: word, idx: nat)
    | Count(idx: nat)

  /** Where the consumer is in `ringget`; it sleeps once it has found the ring empty. */
  datatype Consumer = Asleep | Looking | LoadHigh | LoadLow(high: nat) | Advance(high: nat, low: nat)

  datatype System = System(
    size: nat, rd: nat, wr: nat,         // r_size, r_rdidx, r_wrtidx
    highs: seq<nat>, lows: seq<nat>,     // r_slot
    p: Producer, c: Consumer,
    interrupt: bool,                     // raised and not yet taken
    sent: seq<word>, got: seq<word>)     // what has been put in and taken out so far

  datatype Action =
    | Put(v: word)       // the producer calls ringput
    | Produce            // its next access
    | Consume            // the consumer's next access
    | Poll               // the consumer looks at the ring without having been interrupted

  /** One memory access of either side.  An action whose side is not ready for it does nothing. */
  function Do(s: System, a: Action): System
    requires Shape(s)
  {
    match a
    case Put(v) =>
      if !s.p.Resting? then s
      else
        var idx := After(s.wr, s.size);
        if idx != s.rd then s.(p := StoreHigh(v, idx)) else s.(p := Resting(0))
    case Produce => (
      match s.p
      case Resting(_) => s
      case StoreHigh(v, idx) => s.(highs := s.highs[s.wr := High(v)], p := StoreLow(v, idx))
      case StoreLow(v, idx) => s.(lows := s.lows[s.wr := Low(v)], p := Publish(v, idx))
      case Publish(v, idx) => s.(wr := idx, p := Count(idx), sent := s.sent + [v])
      case Count(idx) =>
        var n := Between(s.rd, idx, s.size);
        s.(p := Resting(n), interrupt := s.interrupt || n == 1))
    case Consume => (
      match s.c
      case Asleep => if s.interrupt then s.(interrupt := false, c := Looking) else s
      case Looking => s.(c := if s.rd != s.wr then LoadHigh else Asleep)
      case LoadHigh => s.(c := LoadLow(s.highs[s.rd]))
      case LoadLow(h) => s.(c := Advance(h, s.lows[s.rd]))
      case Advance(h, l) => s.(rd := After(s.rd, s.size), c := Looking, got := s.got + [Join(h, l)]))
    case Poll => if s.c.Asleep? then s.(c := Looking) else s
  }

  function Join(h: nat, l: nat): word { (h * 0x1_0000 + l) % 0x1_0000_0000 }

  predicate Shape(s: System) {
    s.rd < s.size && s.wr < s.size && |s.highs| == |s.lows| == s.size
  }

  /** The slot i places after the one to be read next. */
  function Slot(rd: nat, size: nat, i: nat): int {
    if rd + i < size then rd + i else rd + i - size
  }

  /** The slots between the indices hold what was put in and not yet taken out, in order. */
  ghost predicate Holds(s: System) {
    && Shape(s) && PowerOfTwo(s.size)
    && s.got <= s.sent && |s.sent| - |s.got| < s.size
    && s.wr == Slot(s.rd, s.size, |s.sent| - |s.got|)
    && (forall i :: 0 <= i < |s.sent| - |s.got| ==>
          var k := Slot(s.rd, s.size, i);
          s.highs[k] == High(s.sent[|s.got| + i]) && s.lows[k] == Low(s.sent[|s.got| + i]))
  }

  /** What the producer has found out and done so far still holds. */
  ghost predicate ProducerSure(s: System)
    requires Shape(s)
  {
    && (s.p.StoreHigh? || s.p.StoreLow? || s.p.Publish? ==>
          s.p.idx == After(s.wr, s.size) && |s.sent| - |s.got| < s.size - 1)
    && (s.p.StoreLow? || s.p.Publish? ==> s.highs[s.wr] == High(s.p.v))
    && (s.p.Publish? ==> s.lows[s.wr] == Low(s.p.v))
    && (s.p.Count? ==> s.p.idx == s.wr)
  }

  ghost predicate ConsumerSure(s: System) {
    && (s.c.LoadHigh? || s.c.LoadLow? || s.c.Advance? ==> |s.sent| > |s.got|)
    && (s.c.LoadLow? || s.c.Advance? ==> |s.sent| > |s.got| && s.c.high == High(s.sent[|s.got|]))
    && (s.c.Advance? ==> s.c.low == Low(s.sent[|s.got|]))
  }

  /** No wake-up is lost: if the consumer sleeps beside a ring that is not empty, an interrupt has been raised,
      or the producer is about to find that its entry is the only one. */
  ghost predicate WillWake(s: System) {
    s.c.Asleep? && |s.sent| > |s.got| ==> s.interrupt || (s.p.Count? && |s.sent| == |s.got| + 1)
  }

  ghost predicate Inv(s: System) {
    Holds(s) && ProducerSure(s) && ConsumerSure(s) && WillWake(s)
  }

  ghost predicate Initial(s: System) {
    && Shape(s) && PowerOfTwo(s.size) && s.rd == s.wr && s.p == Resting(0) && s.c == Asleep && !s.interrupt
    && s.sent == [] && s.got == []
  }

  /** The indices tell the number of entries. */
  lemma EntriesBetween(s: System)
    requires Holds(s)
    ensures Between(s.rd, s.wr, s.size) == |s.sent| - |s.got|
    ensures s.rd == s.wr <==> s.got == s.sent
    ensures After(s.wr, s.size) == s.rd <==> |s.sent| - |s.got| == s.size - 1
  {
    hide After, PowerOfTwo;
    AfterWraps(s.wr, s.size);
  }

  lemma ProduceKeeps(s: System)
    requires Inv(s)
    ensures Inv(Do(s, Produce))
  {
    hide After, PowerOfTwo;
    var s' := Do(s, Produce);
    EntriesBetween(s);
    AfterWraps(s.wr, s.size);
    match s.p
    case Resting(_) =>
    case StoreHigh(v, idx) =>
      forall i | 0 <= i < |s.sent| - |s.got| ensures Slot(s.rd, s.size, i) != s.wr {}
    case StoreLow(v, idx) =>
      forall i | 0 <= i < |s.sent| - |s.got| ensures Slot(s.rd, s.size, i) != s.wr {}
    case Publish(v, idx) =>
      assert s'.sent[|s.sent|] == v;
    case Count(idx) =>
  }

  lemma ConsumeKeeps(s: System)
    requires Inv(s)
    ensures Inv(Do(s, Consume))
  {
    hide After, PowerOfTwo;
    EntriesBetween(s);
    assert Slot(s.rd, s.size, 0) == s.rd;
    if s.c.LoadHigh? || s.c.LoadLow? {
      assert s.sent[|s.got| + 0] == s.sent[|s.got|];
    } else if s.c.Advance? {
      AdvanceKeeps(s);
    }
  }

  lemma AdvanceKeeps(s: System)
    requires Inv(s) && s.c.Advance?
    ensures Inv(Do(s, Consume))
  {
    hide After, PowerOfTwo;
    var s' := Do(s, Consume);
    AfterWraps(s.rd, s.size);
    assert s.sent[..|s.got| + 1] == s.sent[..|s.got|] + [s.sent[|s.got|]];
    forall i | 0 <= i < |s'.sent| - |s'.got|
      ensures Slot(s'.rd, s.size, i) == Slot(s.rd, s.size, i + 1) && s'.sent[|s'.got| + i] == s.sent[|s.got| + (i + 1)]
    {}
  }

  lemma DoKeeps(s: System, a: Action)
    requires Inv(s)
    ensures Inv(Do(s, a))
  {
    match a
    case Put(v) => EntriesBetween(s);
    case Produce => ProduceKeeps(s);
    case Consume => ConsumeKeeps(s);
    case Poll =>
  }

  function Run(s: System, acts: seq<Action>): (r: System)
    requires Inv(s)
    ensures Inv(r)
    decreases |acts|
  {
    if acts == [] then s
    else
      DoKeeps(s, acts[0]);
      Run(Do(s, acts[0]), acts[1..])
  }

  /** However the accesses of the two sides are interleaved: what has been taken out is what was put in, in the
      same order, nothing twice, and the rest, never more than the size less one, is still in the ring. */
  lemma FirstInFirstOut(s: System, acts: seq<Action>)
    requires Initial(s)
    ensures Inv(s) && var r := Run(s, acts);
            && r.got <= r.sent && |r.sent| - |r.got| <= r.size - 1
            && Between(r.rd, r.wr, r.size) == |r.sent| - |r.got|
  {
    EntriesBetween(Run(s, acts));
  }

  /** Nothing is left behind: once the producer rests, the consumer sleeps and no interrupt is on its way,
      everything put in has been taken out. */
  lemma NothingLeftBehind(s: System, acts: seq<Action>)
    requires Initial(s)
    ensures Inv(s) && var r := Run(s, acts);
            r.p.Resting? && r.c.Asleep? && !r.interrupt ==> r.got == r.sent
  {}

  /** What `ringput` returns: the number of entries as it ends; or 0 if, and only if, there was no room. */
  lemma PutReturns(s: System, v: word)
    requires Inv(s)
    ensures s.p.Resting? ==>
              (Do(s, Put(v)).p == Resting(0) || Do(s, Put(v)).p == StoreHigh(v, After(s.wr, s.size)))
              && (Do(s, Put(v)).p.Resting? <==> |s.sent| - |s.got| == s.size - 1)
    ensures s.p.Count? ==> Do(s, Produce).p == Resting(|s.sent| - |s.got|)
  {
    EntriesBetween(s);
  }

  /** A whole `ringput` during which the other side does nothing. */
  function PutAlone(s: System, v: word): System
    requires Inv(s)
  {
    DoKeeps(s, Put(v));
    Proceed(Do(s, Put(v)), 4)
  }

  function Proceed(s: System, n: nat): System
    requires Inv(s)
    decreases n
  {
    if n == 0 then s
    else
      DoKeeps(s, Produce);
      Proceed(Do(s, Produce), n - 1)
  }

  /** If the consumer sleeps through a `ringput` on an empty ring, it returns 1 and the interrupt is raised. */
  lemma PutToSleeper(s: System, v: word)
    requires Inv(s) && s.p.Resting? && s.c.Asleep? && s.rd == s.wr && s.size > 1
    ensures var r := PutAlone(s, v);
            r.p == Resting(1) && r.interrupt && r.c.Asleep? && r.sent == s.sent + [v]
  {
    hide After, PowerOfTwo;
    EntriesBetween(s);
    var s1 := Do(s, Put(v));
    DoKeeps(s, Put(v));
    var s2 := Do(s1, Produce);
    DoKeeps(s1, Produce);
    var s3 := Do(s2, Produce);
    DoKeeps(s2, Produce);
    var s4 := Do(s3, Produce);
    DoKeeps(s3, Produce);
    EntriesBetween(s4);
    assert Proceed(s1, 4) == Proceed(s2, 3) == Proceed(s3, 2) == Proceed(s4, 1) == Do(s4, Produce);
  }

  // ----- the consumer gets on

  /** n accesses of the consumer during which the other side does nothing. */
  function Go(s: System, n: nat): (r: System)
    requires Inv(s)
    ensures Inv(r)
    decreases n
  {
    if n == 0 then s
    else
      DoKeeps(s, Consume);
      Go(Do(s, Consume), n - 1)
  }

  /** A whole `ringget` by itself takes the oldest entry, and nothing else changes; on an empty ring it takes
      nothing, and the consumer goes to sleep. */
  lemma GetAlone(s: System)
    requires Inv(s) && s.c.Looking?
    ensures |s.sent| > |s.got| ==>
              Go(s, 4) == s.(rd := After(s.rd, s.size), got := s.got + [s.sent[|s.got|]])
    ensures |s.sent| == |s.got| ==> Go(s, 1) == s.(c := Asleep)
  {
    hide After, PowerOfTwo;
    EntriesBetween(s);
    DoKeeps(s, Consume);
    var s1 := Do(s, Consume);
    if |s.sent| > |s.got| {
      var s2 := Do(s1, Consume);
      DoKeeps(s1, Consume);
      var s3 := Do(s2, Consume);
      DoKeeps(s2, Consume);
      JoinBack(s.sent[|s.got|]);
      assert Go(s, 4) == Go(s1, 3) == Go(s2, 2) == Go(s3, 1) == Do(s3, Consume);
    }
  }

  lemma JoinBack(v: word)
    ensures Join(High(v), Low(v)) == v
  {}

  lemma GoSplit(s: System, m: nat, n: nat)
    requires Inv(s)
    ensures Go(s, m + n) == Go(Go(s, m), n)
    decreases m
  {
    if m > 0 {
      DoKeeps(s, Consume);
      GoSplit(Do(s, Consume), m - 1, n);
    }
  }

  /** A consumer that looks empties the ring and goes to sleep. */
  lemma {:induction false} LookingEmpties(s: System)
    requires Inv(s) && s.c.Looking?
    ensures var r := Go(s, 4 * (|s.sent| - |s.got|) + 1);
            r.got == s.sent && r.c.Asleep? && r.p == s.p && r.sent == s.sent && r.interrupt == s.interrupt
    decreases |s.sent| - |s.got|
  {
    hide After, PowerOfTwo, Inv, Go;
    var k := Waiting(s);
    GetAlone(s);
    if k > 0 {
      GoSplit(s, 4, 4 * (k - 1) + 1);
      LookingEmpties(Go(s, 4));
    }
  }

  /** The number of entries, and that there being none means that all have been taken out. */
  lemma Waiting(s: System) returns (k: nat)
    requires Inv(s)
    ensures k == |s.sent| - |s.got| && (k == 0 ==> s.got == s.sent)
  {
    k := |s.sent| - |s.got|;
  }

  /** A sleeper that is interrupted empties the ring before it sleeps again, and has taken the interrupt. */
  lemma SleeperEmpties(s: System)
    requires Inv(s) && s.c.Asleep? && s.interrupt
    ensures var r := Go(s, 4 * (|s.sent| - |s.got|) + 2);
            r.got == s.sent && r.c.Asleep? && !r.interrupt && r.p == s.p && r.sent == s.sent
  {
    hide After, PowerOfTwo;
    var k := Waiting(s);
    DoKeeps(s, Consume);
    LookingEmpties(Do(s, Consume));
    assert Go(s, 4 * k + 2) == Go(Do(s, Consume), 4 * k + 1);
  }

  /** How many accesses the consumer has behind it: four for each entry taken out, and it has one more before it
      if it sleeps. */
  function Behind(s: System): int {
    4 * |s.got| + match s.c case Asleep => -1 case Looking => 0 case LoadHigh => 1 case LoadLow(_) => 2 case Advance(_, _) => 3
  }

  function Consumes(acts: seq<Action>): nat
    decreases |acts|
  {
    if acts == [] then 0 else (if acts[0].Consume? then 1 else 0) + Consumes(acts[1..])
  }

  /** One access: nothing taken out is put back, and the consumer, if it is awake or has been interrupted and there
      is something to take, comes nearer to it. */
  lemma DoAdvances(s: System, a: Action)
    requires Inv(s)
    ensures Inv(Do(s, a)) && |Do(s, a).got| >= |s.got| && |Do(s, a).sent| >= |s.sent|
    ensures |s.got| < |s.sent| && (s.c.Asleep? ==> s.interrupt) ==>
              && (Do(s, a).c.Asleep? ==> Do(s, a).interrupt)
              && Behind(Do(s, a)) >= Behind(s) + if a.Consume? then 1 else 0
  {
    hide After, PowerOfTwo;
    DoKeeps(s, a);
    EntriesBetween(s);
  }

  lemma {:induction false} NeverBack(s: System, acts: seq<Action>)
    requires Inv(s)
    ensures |Run(s, acts).got| >= |s.got|
    decreases |acts|
  {
    hide Do, PowerOfTwo, Slot;
    if acts != [] {
      DoAdvances(s, acts[0]);
      NeverBack(Do(s, acts[0]), acts[1..]);
    }
  }

  /** However the accesses are interleaved, a consumer that is awake or interrupted has taken out each entry after
      four accesses for it and for each before it. */
  lemma {:induction false} Progress(s: System, acts: seq<Action>, target: nat)
    requires Inv(s) && (s.c.Asleep? ==> s.interrupt) && target <= |s.sent|
    requires Behind(s) + Consumes(acts) >= 4 * target
    ensures |Run(s, acts).got| >= target
    decreases |acts|
  {
    if |s.got| >= target {
      NeverBack(s, acts);
    } else if acts != [] {
      hide Do, PowerOfTwo, Slot;
      DoAdvances(s, acts[0]);
      Progress(Do(s, acts[0]), acts[1..], target);
    }
  }
}
