/** The monitor from command to command: what the user types, what the client does, and what holds over any
    sequence of both. */
module BrkptRun {
  import opened Words
  import opened BrkptInst
  import opened BrkptTable
  import opened BrkptText
  import opened BrkptMachine

  type Registers = r: seq<word> | |r| == 32 witness seq(32, _ => 0)

  datatype Event =
    | Brk(addr: word)                                  // set a permanent breakpoint
    | Unbrk(number: nat)                               // clear one by its number
    | ClearAll
    | GoTo(addrs: seq<word>)                           // temporary breakpoints, then go
    | Cont
    | Step(count: nat)                                 // s
    | StepOver(count: nat)                             // S
    | Edit(m: Text, regs: Registers, pc: word)         // any other command that changes the client
    | Trap(epc: word, inSlot: bool, isBreak: bool, after: Registers, writes: map<word, word>)
                                                       // the client has run, has stored, and has stopped

  /** The monitor's state is how its last operation ended: the client runs, or a command is awaited, or the
      monitor has given up. */
  predicate Dead(st: End) { st.how.Failed? && st.how.why.Fatal? }

  predicate Awaiting(st: End) { st.how != Running && !Dead(st) }

  /** What the client's stores make of memory. */
  function Written(m: Text, writes: map<word, word>): Text {
    m.(words := map a | a in m.words :: if a in writes && CanWrite(m, a) && !IsRom(a) then writes[a] else m.words[a])
  }

  /** _remove_brkpts */
  function TakeOut(s: Mach, inSlot: bool): Mach {
    var at: word := if inSlot then Mod32((s.epc as int) + 4) else s.epc;
    var saved := LookupKind(s.t, at);
    var (t', m') := Remove(s.t, s.m, saved, 0);
    s.(t := t', m := m', saved := saved)
  }

  /** _bp_fault */
  function BpFault(s: Mach): End
    requires Good(s)
  {
    if s.saved == TEMP then
      var s1 := s.(count := s.count - 1);
      if s1.count <= 0 then End(s1, Prompt)
      else if s.stepper == Step1 then DoStep1(s1, TEMP) else DoStep2(s1, TEMP)
    else if s.saved == EMPTY then End(s.(epc := Mod32((s.epc as int) + 4)), Prompt)
    else if s.saved == PERM then End(s, Prompt)
    else if s.saved == CONT then Resume(s)
    else End(s, Failed(Fatal("_bp_fault")))
  }

  /** The breakpoints of a `go` command. */
  function AddTemps(s: Mach, addrs: seq<word>): End
    decreases |addrs|
  {
    if addrs == [] then End(s, Running)
    else
      var e := PlaceAt(s, addrs[0], TEMP);
      if e.how != Running then e else AddTemps(e.s, addrs[1..])
  }

  lemma {:induction false} AddTempsKeeps(s: Mach, addrs: seq<word>)
    requires Good(s)
    ensures var e := AddTemps(s, addrs);
            && Good(e.s) && e.s == s.(t := e.s.t) && e.how != Prompt && OnlyAdds(s.t, e.s.t)
    decreases |addrs|
  {
    hide PlaceAt, IsSuspended, IsBrkpt, HasPerm, Inv;
    if addrs != [] {
      PlaceAtKeeps(s, addrs[0], TEMP);
      AddTempsKeeps(PlaceAt(s, addrs[0], TEMP).s, addrs[1..]);
    }
  }

  /** A command. */
  function Command(s: Mach, ev: Event): End
    requires Good(s) && !ev.Trap?
  {
    match ev
    case Brk(a) => var e := PlaceAt(s, a, PERM); if e.how == Running then End(e.s, Prompt) else e
    case Unbrk(n) => End(if n < NBREAKPOINTS then s.(t := s.t[n := s.t[n].(kind := EMPTY)]) else s, Prompt)
    case ClearAll => End(s.(t := Cleared(s.t)), Prompt)
    case GoTo(addrs) =>
      AddTempsKeeps(s, addrs);
      var e := AddTemps(s, addrs);
      if e.how != Running then e else Continue(e.s.(count := 1))
    case Cont => Continue(s)
    case Step(n) => if n == 0 then End(s, Prompt) else DoStep1(s.(count := n), TEMP)
    case StepOver(n) => if n == 0 then End(s, Prompt) else DoStep2(s.(count := n), TEMP)
    case Edit(m, regs, pc) => End(s.(m := m, regs := regs, epc := pc), Prompt)
  }

  /** _clear_brkpts */
  function Cleared(t: Table): (r: Table)
    ensures forall i :: 0 <= i < |t| ==> r[i] == t[i].(kind := EMPTY)
  {
    seq(NBREAKPOINTS, i requires 0 <= i < NBREAKPOINTS => t[i].(kind := EMPTY))
  }

  /** The client stops. */
  function Stopped(s: Mach, ev: Event): Mach
    requires ev.Trap?
  {
    TakeOut(s.(m := Written(s.m, ev.writes), regs := ev.after, epc := ev.epc), ev.inSlot)
  }

  function Next(st: End, ev: Event): End
    requires Good(st.s)
  {
    if st.how == Running && ev.Trap? then
      var s := Stopped(st.s, ev);
      StoppedKeeps(st.s, ev);
      if ev.isBreak then BpFault(s) else End(s, Prompt)
    else if Awaiting(st) && !ev.Trap? then Command(st.s, ev)
    else st
  }

  // ----- removal

  lemma {:induction false} RemoveKinds(t: Table, v: Table, m: Text, saved: Kind, i: nat)
    requires i <= |t| && forall l :: 0 <= l < |t| ==> v[l] == if l < i then t[l].(kind := RemovedKind(t[l], saved)) else t[l]
    ensures forall l :: 0 <= l < |t| ==> Remove(v, m, saved, i).0[l] == t[l].(kind := RemovedKind(t[l], saved))
    decreases |t| - i
  {
    hide RemovedKind, Put, Patches;
    if i < |t| {
      var m' := if Patches(v[i]) then Put(m, v[i].addr, v[i].inst) else m;
      RemoveKinds(t, v[i := v[i].(kind := RemovedKind(v[i], saved))], m', saved, i + 1);
    }
  }

  /** After each removal no breakpoint is suspended, and no "continue" breakpoint is left but in the ROM. */
  ghost predicate CleanedUp(t: Table) {
    forall i :: 0 <= i < |t| ==> t[i].kind != SUSPEND && (t[i].kind == CONT ==> IsRom(t[i].addr))
  }

  /** Which temporary breakpoints outlast a stop: those in the ROM, all if the stop was at a "continue"
      breakpoint, and one that was suspended, which is back in force. */
  lemma TemporariesLeft(s: Mach, ev: Event, i: nat)
    requires Good(s) && ev.Trap? && i < |s.t|
    ensures var s', e := Stopped(s, ev), s.t[i];
            && s'.t[i].addr == e.addr
            && (s'.t[i].kind == TEMP <==>
                  (e.kind == SUSPEND && e.oldkind == TEMP) || (e.kind == TEMP && (s'.saved == CONT || IsRom(e.addr))))
            && s'.saved == LookupKind(s.t, if ev.inSlot then Mod32((ev.epc as int) + 4) else ev.epc)
  {
    var s1 := s.(m := Written(s.m, ev.writes), regs := ev.after, epc := ev.epc);
    RemoveKinds(s.t, s.t, s1.m, Stopped(s, ev).saved, 0);
    hide Remove, Written, LookupKind, IsRom;
  }

  lemma StoppedKeeps(s: Mach, ev: Event)
    requires Good(s) && ev.Trap?
    ensures var s' := Stopped(s, ev);
            && Good(s') && CleanedUp(s'.t)
            && (forall b :: HasPerm(s.t, b) ==> HasPerm(s'.t, b))
            && s' == s.(t := s'.t, m := s'.m, saved := s'.saved, regs := ev.after, epc := ev.epc)
  {
    var s1 := s.(m := Written(s.m, ev.writes), regs := ev.after, epc := ev.epc);
    var s' := Stopped(s, ev);
    RemoveKinds(s.t, s.t, s1.m, s'.saved, 0);
    hide Remove, Written, LookupKind, IsRom;
    forall b | HasPerm(s.t, b) ensures HasPerm(s'.t, b) {
      var i :| 0 <= i < |s.t| && s.t[i].addr == b && (s.t[i].kind == PERM || (s.t[i].kind == SUSPEND && s.t[i].oldkind == PERM));
      assert s'.t[i].addr == b && s'.t[i].kind == PERM;
    }
  }

  // ----- the table over a run

  /** ev clears the breakpoint at b, or, in the event, its address turns out to be one that cannot be written. */
  ghost predicate Drops(st: End, ev: Event, b: word)
    requires Good(st.s)
  {
    || (Awaiting(st) && ev.ClearAll?)
    || (Awaiting(st) && ev.Unbrk? && ev.number < NBREAKPOINTS && st.s.t[ev.number].addr == b)
    || Next(st, ev).how == Failed(BadBreakpoint(b))
  }

  lemma CommandKeeps(st: End, ev: Event)
    requires Good(st.s) && Awaiting(st) && !ev.Trap?
    ensures var e := Command(st.s, ev);
            Good(e.s) && forall b :: HasPerm(st.s.t, b) ==> HasPerm(e.s.t, b) || Drops(st, ev, b)
  {
    hide DoStep1, DoStep2, PlaceAt, HasPerm, Inv, Continue, AddTemps, IsBrkpt, IsSuspended, Planted;
    var s := st.s;
    match ev
    case Brk(a) => PlaceAtPerm(s, a);
    case Unbrk(n) => ClearKeeps(s.t, n);
    case ClearAll => AllClear(s.t);
    case GoTo(addrs) =>
      AddTempsKeeps(s, addrs);
      ContinueKeeps(AddTemps(s, addrs).s.(count := 1));
    case Cont => ContinueKeeps(s);
    case Step(n) => StepKeeps(s.(count := n), TEMP);
    case StepOver(n) => OverKeeps(s.(count := n), TEMP);
    case Edit(m, regs, pc) =>
  }

  lemma AllClear(t: Table)
    ensures Inv(Cleared(t))
  {}

  lemma PlaceAtPerm(s: Mach, a: word)
    requires Good(s)
    ensures var e := PlaceAt(s, a, PERM);
            && Good(e.s) && OnlyAdds(s.t, e.s.t) && e.s == s.(t := e.s.t) && e.how != Prompt
  {
    if NewBrkpt(s.t, a, PERM).Changed? {
      NewKeepsInv(s.t, a, PERM);
      NewKeepsFirm(s.t, a, PERM);
    }
  }

  lemma ClearKeeps(t: Table, n: nat)
    requires Inv(t)
    ensures n < |t| ==>
              var t' := t[n := t[n].(kind := EMPTY)];
              Inv(t') && forall b :: HasPerm(t, b) && t[n].addr != b ==> HasPerm(t', b)
  {
    if n < |t| {
      var t' := t[n := t[n].(kind := EMPTY)];
      forall b | HasPerm(t, b) && t[n].addr != b ensures HasPerm(t', b) {
        var i :| 0 <= i < |t| && t[i].addr == b && (t[i].kind == PERM || (t[i].kind == SUSPEND && t[i].oldkind == PERM));
        assert t'[i] == t[i];
      }
    }
  }

  lemma BpFaultKeeps(s: Mach)
    requires Good(s)
    ensures var e := BpFault(s);
            Good(e.s) && forall b :: HasPerm(s.t, b) ==> HasPerm(e.s.t, b) || e.how == Failed(BadBreakpoint(b))
  {
    hide DoStep1, DoStep2, HasPerm, Inv, Resume, Planted;
    var s1 := s.(count := s.count - 1);
    StepKeeps(s1, TEMP);
    OverKeeps(s1, TEMP);
    ResumeKeeps(s);
  }

  lemma NextKeeps(st: End, ev: Event)
    requires Good(st.s)
    ensures Good(Next(st, ev).s)
    ensures forall b :: HasPerm(st.s.t, b) ==> HasPerm(Next(st, ev).s.t, b) || Drops(st, ev, b)
  {
    hide HasPerm, Inv, BpFault, Command, Stopped;
    if st.how == Running && ev.Trap? {
      StoppedKeeps(st.s, ev);
      BpFaultKeeps(Stopped(st.s, ev));
    } else if Awaiting(st) && !ev.Trap? {
      CommandKeeps(st, ev);
    }
  }

  function Run(st: End, evs: seq<Event>): (r: End)
    requires Good(st.s)
    ensures Good(r.s)
    decreases |evs|
  {
    if evs == [] then st
    else
      NextKeeps(st, evs[0]);
      Run(Next(st, evs[0]), evs[1..])
  }

  ghost predicate EverDropped(st: End, evs: seq<Event>, b: word)
    requires Good(st.s)
    decreases |evs|
  {
    evs != [] && (Drops(st, evs[0], b) || (NextKeeps(st, evs[0]); EverDropped(Next(st, evs[0]), evs[1..], b)))
  }

  /** Over any run, a permanent breakpoint stays in the table until it is cleared or cannot be written. */
  lemma {:induction false} PermSurvives(st: End, evs: seq<Event>, b: word)
    requires Good(st.s) && HasPerm(st.s.t, b) && !EverDropped(st, evs, b)
    ensures HasPerm(Run(st, evs).s.t, b)
    decreases |evs|
  {
    hide HasPerm, Inv, Next, Drops;
    if evs != [] {
      NextKeeps(st, evs[0]);
      PermSurvives(Next(st, evs[0]), evs[1..], b);
    }
  }

  /** How the monitor starts. */
  ghost predicate Initial(st: End) {
    st.how == Prompt && |st.s.regs| == 32 && forall i :: 0 <= i < |st.s.t| ==> st.s.t[i].kind == EMPTY
  }

  /** Over any run from the start: no two breakpoints share an address, and a suspended one was temporary or
      permanent; and each time the client stops, nothing is suspended and no "continue" breakpoint is left. */
  lemma TableIsSound(st: End, evs: seq<Event>)
    requires Initial(st)
    ensures Good(st.s) && var st' := Run(st, evs);
            Inv(st'.s.t) && forall ev: Event :: ev.Trap? ==> CleanedUp(Stopped(st'.s, ev).t)
  {
    assert Good(st.s);
    var st' := Run(st, evs);
    forall ev: Event | ev.Trap? ensures CleanedUp(Stopped(st'.s, ev).t) {
      StoppedKeeps(st'.s, ev);
    }
  }

  /** A client that stops at a permanent breakpoint is left there with a prompt; where it was suspended to
      get past it, the client is not expected there. */
  lemma PermStops(st: End, ev: Event, b: word)
    requires Good(st.s) && st.how == Running && ev.Trap? && ev.isBreak && HasPerm(st.s.t, b)
    requires b == if ev.inSlot then Mod32((ev.epc as int) + 4) else ev.epc
    ensures var e := Next(st, ev);
            && e.s.epc == ev.epc
            && e.how == if IsSuspended(st.s.t, b) then Failed(Fatal("_bp_fault")) else Prompt
  {
    hide Remove, Written;
    var t := st.s.t;
    var i := FindUsed(t, b, 0);
    var j :| 0 <= j < |t| && t[j].addr == b && (t[j].kind == PERM || (t[j].kind == SUSPEND && t[j].oldkind == PERM));
    assert Used(t[j], b);
    assert i == j;
    if IsSuspended(t, b) {
      var k :| 0 <= k < |t| && t[k].kind == SUSPEND && t[k].addr == b;
      assert k == j;
    }
  }

  /** A client that is being stepped, and stops where the instruction it was at leads (or where the ROM returns
      to), is left there with a prompt if no steps remain or a permanent breakpoint stands there; if not, it is
      stepped on from there, with one step less to go. */
  lemma StepsOn(s: Mach, next: word, coprocessor: bool, ev: Event)
    requires Good(s) && MayBeNext(s, next, coprocessor) && DoStep1(s, TEMP).how == Running
    requires ev.Trap? && ev.isBreak && !ev.inSlot && ev.epc == StopFor(s, next)
    ensures var e := DoStep1(s, TEMP);
            && Good(e.s)
            && var s', after := Stopped(e.s, ev), Next(e, ev);
            && s'.epc == StopFor(s, next) && (s'.saved == TEMP || s'.saved == PERM)
            && (s'.saved == PERM || s.count <= 1 ==> after.how == Prompt && after.s.epc == s'.epc)
            && (s'.saved == TEMP && s.count > 1 ==>
                  Good(s') && after == DoStep1(s'.(count := s.count - 1), TEMP))
  {
    hide DoStep1, DoStep2, MayBeNext, StopFor, IsFirm, IsBrkpt, Inv, IsBranch, IsRom, Remove, Planted, LookupKind, HasPerm,
      CleanedUp, Written, Stays;
    var e := DoStep1(s, TEMP);
    StepKeeps(s, TEMP);
    StepIsComplete(s, TEMP, next, coprocessor);
    Step1AfterStep1(s, TEMP);
    FirmKind(e.s.t, ev.epc);
    StoppedKeeps(e.s, ev);
  }

  /** A client at s.epc, started with text m, fetches the instruction there, the one in its delay slot if it is a
      branch, and then the one at `stop`: the first of them that is the breakpoint instruction stops it. */
  ghost predicate FetchStops(s: Mach, m: Text, stop: word, ev: Event) {
    var slot := Mod32((s.epc as int) + 4);
    ev.Trap? && ev.isBreak &&
    if s.epc in m.words && m.words[s.epc] == s.bp then ev.epc == s.epc && !ev.inSlot
    else if s.epc in m.words && IsBranch(m.words[s.epc]) && slot in m.words && m.words[slot] == s.bp then ev.epc == s.epc && ev.inSlot
    else stop in m.words && m.words[stop] == s.bp ==> ev.epc == stop && !ev.inSlot
  }

  /** The instruction the client is at, and its delay slot, are none of them a breakpoint of the client's own. */
  predicate NoOwnBreak(s: Mach) {
    s.epc in s.m.words && s.m.words[s.epc] != s.bp
    && (var slot := Mod32((s.epc as int) + 4); IsBranch(s.m.words[s.epc]) && slot in s.m.words ==> s.m.words[slot] != s.bp)
  }

  lemma PlantedElse(m: Text, t: Table, m': Text, bp: word, a: word)
    requires Planted(m, t, m', bp) && !IsBrkpt(t, a) && a in m.words
    ensures a in m'.words && m'.words[a] == m.words[a]
  {}

  /** The words that the client fetches, read from the text with the breakpoints in it, are its own. */
  predicate OwnFetched(s: Mach, m: Text) {
    var slot := Mod32((s.epc as int) + 4);
    && s.epc in s.m.words && s.epc in m.words && m.words[s.epc] == s.m.words[s.epc]
    && (IsBranch(s.m.words[s.epc]) && slot in s.m.words ==> slot in m.words && m.words[slot] == s.m.words[slot])
  }

  lemma FetchesOwn(s: Mach, e: End)
    requires s.epc in s.m.words && Planted(s.m, e.s.t, e.s.m, s.bp) && forall b :: IsBrkpt(e.s.t, b) ==> Stays(s, b)
    ensures OwnFetched(s, e.s.m)
  {
    hide IsBranch, IsBrkpt, Planted, Mod32;
    var slot := Mod32((s.epc as int) + 4);
    PlantedElse(s.m, e.s.t, e.s.m, s.bp, s.epc);
    if IsBranch(s.m.words[s.epc]) && slot in s.m.words {
      PlantedElse(s.m, e.s.t, e.s.m, s.bp, slot);
    }
  }

  /** A client that is being stepped fetches its own instructions, executes them, and is stopped where they lead. */
  lemma StopsWhereItGoes(s: Mach, next: word, coprocessor: bool, ev: Event)
    requires Good(s) && MayBeNext(s, next, coprocessor) && DoStep1(s, TEMP).how == Running
    requires NoOwnBreak(s) && !IsRom(StopFor(s, next)) && FetchStops(s, DoStep1(s, TEMP).s.m, StopFor(s, next), ev)
    ensures OwnFetched(s, DoStep1(s, TEMP).s.m)
    ensures ev.isBreak && !ev.inSlot && ev.epc == StopFor(s, next)
  {
    hide DoStep1, MayBeNext, IsBranch, IsRom, StopFor, IsBrkpt, Inv, IsFirm, Planted, HasPerm, Mod32, Stays, OwnFetched,
      FetchStops, NoOwnBreak;
    StepKeeps(s, TEMP);
    StepIsComplete(s, TEMP, next, coprocessor);
    NextIsRead(s, next, coprocessor);
    FetchesOwn(s, DoStep1(s, TEMP));
    PlantedWords(s.m, DoStep1(s, TEMP).s.t, DoStep1(s, TEMP).s.m, s.bp);
    StopsLast(s, DoStep1(s, TEMP).s.m, StopFor(s, next), ev);
  }

  lemma NextIsRead(s: Mach, next: word, coprocessor: bool)
    requires |s.regs| == 32 && MayBeNext(s, next, coprocessor)
    ensures s.epc in s.m.words
  {}

  lemma StopsLast(s: Mach, m: Text, stop: word, ev: Event)
    requires OwnFetched(s, m) && NoOwnBreak(s) && FetchStops(s, m, stop, ev) && m.words.Keys == s.m.words.Keys
    requires stop in m.words && m.words[stop] == s.bp
    ensures ev.isBreak && !ev.inSlot && ev.epc == stop
  {
    hide IsBranch, Mod32;
  }

  lemma PlantedWords(m: Text, t: Table, m': Text, bp: word)
    requires Planted(m, t, m', bp)
    ensures m'.words.Keys == m.words.Keys
  {}

  /** One step is one step: a client started by `s` and fetching from the text with the breakpoints in it stops
      after exactly one instruction (with its delay slot), with a prompt. */
  lemma OneStep(s: Mach, next: word, coprocessor: bool, ev: Event)
    requires Good(s) && MayBeNext(s, next, coprocessor) && Command(s, Step(1)).how == Running
    requires NoOwnBreak(s) && !IsRom(StopFor(s, next)) && FetchStops(s, Command(s, Step(1)).s.m, StopFor(s, next), ev)
    ensures Good(Command(s, Step(1)).s)
    ensures var e := Next(Command(s, Step(1)), ev);
            e.how == Prompt && e.s.epc == StopFor(s, next)
  {
    hide DoStep1, Successor, IsBranch, BranchTarget, IsJal, IsRom, Stopped, Next;
    var s1 := s.(count := 1);
    assert StopFor(s1, next) == StopFor(s, next) && MayBeNext(s1, next, coprocessor);
    assert FetchStops(s1, DoStep1(s1, TEMP).s.m, StopFor(s1, next), ev);
    StopsWhereItGoes(s1, next, coprocessor, ev);
    StepsOn(s1, next, coprocessor, ev);
  }

  // ----- the client's text over a run

  /** The client's own word at a: where the monitor has a breakpoint in place, the word it replaced. */
  function Own(st: End, a: word): word
    requires a in st.s.m.words
  {
    var i := FindUsed(st.s.t, a, 0);
    if st.how == Running && i < |st.s.t| && Patches(st.s.t[i]) then st.s.t[i].inst else st.s.m.words[a]
  }

  /** While the client runs, every breakpoint could be written. */
  ghost predicate Sound(st: End) {
    Good(st.s) && (st.how == Running ==> Writable(st.s.t, st.s.m, |st.s.t|))
  }

  lemma PlantedOwn(m: Text, st: End)
    requires Good(st.s) && st.how == Running && Planted(m, st.s.t, st.s.m, st.s.bp)
    ensures Sound(st) && st.s.m.words.Keys == m.words.Keys && st.s.m.readonly == m.readonly
    ensures forall a :: a in m.words ==> Own(st, a) == m.words[a]
  {
    var t := st.s.t;
    forall a | a in m.words ensures Own(st, a) == m.words[a] {
      var i := FindUsed(t, a, 0);
      if i < |t| && Patches(t[i]) {
        assert t[i].inst == m.words[a];
      }
    }
  }

  /** The breakpoints of the first n entries have been taken out of m0. */
  ghost predicate TakenOut(t: Table, m0: Text, m: Text, n: nat) {
    && n <= |t| && m.words.Keys == m0.words.Keys && m.readonly == m0.readonly
    && (forall j :: 0 <= j < n && Patches(t[j]) ==> t[j].addr in m.words && m.words[t[j].addr] == t[j].inst)
    && (forall a :: a in m.words && !PatchedAt(t, 0, n, a) ==> m.words[a] == m0.words[a])
  }

  lemma TakeOne(t: Table, m0: Text, m: Text, i: nat)
    requires Inv(t) && i < |t| && Writable(t, m0, |t|) && TakenOut(t, m0, m, i)
    ensures TakenOut(t, m0, if Patches(t[i]) then Put(m, t[i].addr, t[i].inst) else m, i + 1)
  {
    var m' := if Patches(t[i]) then Put(m, t[i].addr, t[i].inst) else m;
    forall a | a in m'.words && !PatchedAt(t, 0, i + 1, a) ensures m'.words[a] == m0.words[a] {
      assert !PatchedAt(t, 0, i, a);
      assert !(Patches(t[i]) && t[i].addr == a);
    }
    forall j | 0 <= j < i + 1 && Patches(t[j]) ensures t[j].addr in m'.words && m'.words[t[j].addr] == t[j].inst {
      if j < i && Patches(t[i]) {
        assert t[j].addr != t[i].addr;
      }
    }
    assert m'.words.Keys == m.words.Keys;
  }

  lemma {:induction false} RemoveTakesOut(t: Table, v: Table, m0: Text, m: Text, saved: Kind, i: nat)
    requires Inv(t) && i <= |t| && Writable(t, m0, |t|) && TakenOut(t, m0, m, i)
    requires forall l :: 0 <= l < |t| ==> v[l] == if l < i then t[l].(kind := RemovedKind(t[l], saved)) else t[l]
    ensures TakenOut(t, m0, Remove(v, m, saved, i).1, |t|)
    decreases |t| - i
  {
    hide TakenOut, RemovedKind, Put, Patches, Inv, Writable;
    if i < |t| {
      TakeOne(t, m0, m, i);
      var m' := if Patches(t[i]) then Put(m, t[i].addr, t[i].inst) else m;
      RemoveTakesOut(t, v[i := v[i].(kind := RemovedKind(v[i], saved))], m0, m', saved, i + 1);
    }
  }

  /** A store the client makes at a that is not lost: it can be written, and no breakpoint is in its place. */
  predicate Stores(st: End, ev: Event, a: word) {
    st.how == Running && ev.Trap? && a in ev.writes && CanWrite(st.s.m, a) && !IsRom(a) && !PatchedAt(st.s.t, 0, |st.s.t|, a)
  }

  lemma StoppedOwn(st: End, ev: Event)
    requires Sound(st) && st.how == Running && ev.Trap?
    ensures var m := Stopped(st.s, ev).m;
            && m.words.Keys == st.s.m.words.Keys && m.readonly == st.s.m.readonly
            && forall a :: a in m.words ==> m.words[a] == if Stores(st, ev, a) then ev.writes[a] else Own(st, a)
  {
    var t, m0 := st.s.t, Written(st.s.m, ev.writes);
    var s' := Stopped(st.s, ev);
    RemoveTakesOut(t, t, m0, m0, s'.saved, 0);
    hide Remove, Inv, Writable, LookupKind;
    forall a | a in s'.m.words ensures s'.m.words[a] == if Stores(st, ev, a) then ev.writes[a] else Own(st, a) {
      var i := FindUsed(t, a, 0);
      if PatchedAt(t, 0, |t|, a) {
        var j :| 0 <= j < |t| && Patches(t[j]) && t[j].addr == a;
        OnlyOne(t, a, j);
      }
    }
  }

  lemma OnlyOne(t: Table, a: word, j: nat)
    requires Inv(t) && j < |t| && Used(t[j], a)
    ensures FindUsed(t, a, 0) == j
  {}

  /** What a monitor operation does to the client's text: nothing. */
  lemma OwnKept(s: Mach, e: End)
    requires Good(s) && Kept(s, e)
    ensures Sound(e) && e.s.m.words.Keys == s.m.words.Keys && e.s.m.readonly == s.m.readonly
    ensures forall a :: a in s.m.words ==> Own(e, a) == s.m.words[a]
  {
    if e.how == Running {
      PlantedOwn(s.m, e);
    }
  }

  lemma CommandText(s: Mach, ev: Event)
    requires Good(s) && !ev.Trap? && !ev.Edit?
    ensures var e := Command(s, ev);
            && Sound(e) && e.s.m.words.Keys == s.m.words.Keys
            && forall a :: a in s.m.words ==> Own(e, a) == s.m.words[a]
  {
    hide DoStep1, DoStep2, PlaceAt, HasPerm, Inv, Continue, AddTemps, IsBrkpt, IsSuspended, Planted, Kept;
    match ev
    case Brk(a) => PlaceAtPerm(s, a);
    case Unbrk(n) => ClearKeeps(s.t, n);
    case ClearAll => AllClear(s.t);
    case GoTo(addrs) =>
      AddTempsKeeps(s, addrs);
      var s1 := AddTemps(s, addrs).s.(count := 1);
      ContinueKeeps(s1);
      OwnKept(s1, Continue(s1));
    case Cont =>
      ContinueKeeps(s);
      OwnKept(s, Continue(s));
    case Step(n) =>
      StepKeeps(s.(count := n), TEMP);
      OwnKept(s.(count := n), DoStep1(s.(count := n), TEMP));
    case StepOver(n) =>
      OverKeeps(s.(count := n), TEMP);
      OwnKept(s.(count := n, stepper := Step2), DoStep2(s.(count := n), TEMP));
  }

  lemma BpFaultText(s: Mach)
    requires Good(s)
    ensures var e := BpFault(s);
            && Sound(e) && e.s.m.words.Keys == s.m.words.Keys
            && forall a :: a in s.m.words ==> Own(e, a) == s.m.words[a]
  {
    hide DoStep1, DoStep2, HasPerm, Inv, Resume, Planted, Kept;
    var s1 := s.(count := s.count - 1);
    StepKeeps(s1, TEMP);
    OwnKept(s1, DoStep1(s1, TEMP));
    OverKeeps(s1, TEMP);
    OwnKept(s1.(stepper := Step2), DoStep2(s1, TEMP));
    ResumeKeeps(s);
    OwnKept(s, Resume(s));
  }

  /** Breakpoints never show in the client's text: whatever is set, stepped over or hit, each of its words is
      what the client itself last stored there. */
  lemma TextKept(st: End, ev: Event, a: word)
    requires Sound(st) && a in st.s.m.words && !ev.Edit?
    ensures var e := Next(st, ev);
            && Sound(e) && a in e.s.m.words
            && Own(e, a) == if Stores(st, ev, a) then ev.writes[a] else Own(st, a)
  {
    hide HasPerm, Inv, BpFault, Command, Stopped, Writable;
    if st.how == Running && ev.Trap? {
      StoppedKeeps(st.s, ev);
      StoppedOwn(st, ev);
      BpFaultText(Stopped(st.s, ev));
    } else if Awaiting(st) && !ev.Trap? {
      CommandText(st.s, ev);
    }
  }

  /** The word at a after a run, by the client's own stores alone. */
  ghost function LastStored(st: End, evs: seq<Event>, a: word, w: word): word
    requires Good(st.s)
    decreases |evs|
  {
    if evs == [] then w
    else
      NextKeeps(st, evs[0]);
      LastStored(Next(st, evs[0]), evs[1..], a, if Stores(st, evs[0], a) then evs[0].writes[a] else w)
  }

  lemma {:induction false} TextOverRun(st: End, evs: seq<Event>, a: word)
    requires Sound(st) && a in st.s.m.words && forall i :: 0 <= i < |evs| ==> !evs[i].Edit?
    ensures var e := Run(st, evs);
            a in e.s.m.words && Own(e, a) == LastStored(st, evs, a, Own(st, a))
    decreases |evs|
  {
    hide Next, Own, Stores;
    if evs != [] {
      TextKept(st, evs[0], a);
      TextOverRun(Next(st, evs[0]), evs[1..], a);
    }
  }
}
