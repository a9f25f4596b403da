/** What the monitor's commands are for: that breakpoints are where they were set, and that stepping and continuing
    do as many instructions as they should. */
module BrkptCommands {
  import opened Words
  import opened BrkptInst
  import opened BrkptTable
  import opened BrkptText
  import opened BrkptMachine
  import opened BrkptRun
  import opened BrkptStart

  // ----- setting and clearing

  /** `brk` succeeds exactly at an instruction boundary, if a breakpoint is there already or an entry is free; then a
      permanent one is there, and nothing else has changed. */
  lemma BrkSets(st: End, a: word)
    requires Good(st.s) && Awaiting(st)
    ensures var e, t := Next(st, Brk(a)), st.s.t;
            && (e.how == Prompt <==> a % 4 == 0 && !IsSuspended(t, a) && (IsBrkpt(t, a) || HasEmpty(t)))
            && (if e.how == Prompt then
                  && e.s == st.s.(t := e.s.t) && LookupKind(e.s.t, a) == PERM && HasPerm(e.s.t, a)
                  && forall b :: b != a ==> LookupKind(e.s.t, b) == LookupKind(t, b)
                else e.s == st.s)
  {
    var t := st.s.t;
    NewExactly(t, a, PERM);
    KindSays(t, a);
    if NewBrkpt(t, a, PERM).Changed? {
      NewKeepsInv(t, a, PERM);
      KindSays(NewBrkpt(t, a, PERM).t, a);
    }
    hide Inv, IsSuspended, IsBrkpt, HasPerm, LookupKind, NewBrkpt, IsFirm;
  }

  /** `unbrk` with a number in use leaves no breakpoint at that entry's address, and every other as it was. */
  lemma UnbrkClears(st: End, n: nat)
    requires Good(st.s) && Awaiting(st)
    ensures var e, t := Next(st, Unbrk(n)), st.s.t;
            && e.how == Prompt && e.s == st.s.(t := e.s.t)
            && forall b :: LookupKind(e.s.t, b) == if n < |t| && Used(t[n], b) then EMPTY else LookupKind(t, b)
  {
    var t := st.s.t;
    if n < |t| {
      var t' := t[n := t[n].(kind := EMPTY)];
      OthersSame(t, t', n, t[n].addr);
      if t[n].kind != EMPTY {
        forall j | 0 <= j < |t| ensures !Used(t'[j], t[n].addr) { assert j == n || t'[j] == t[j]; }
        NoKind(t', t[n].addr);
      } else {
        assert t' == t;
      }
    }
  }

  /** `unbrk` alone leaves none. */
  lemma AllCleared(st: End)
    requires Good(st.s) && Awaiting(st)
    ensures var e := Next(st, ClearAll);
            e.how == Prompt && e.s == st.s.(t := e.s.t) && forall b :: LookupKind(e.s.t, b) == EMPTY
  {
    forall b ensures LookupKind(Cleared(st.s.t), b) == EMPTY { NoKind(Cleared(st.s.t), b); }
  }

  lemma {:induction false} AddTempsFirm(s: Mach, addrs: seq<word>)
    requires Good(s) && AddTemps(s, addrs).how == Running
    ensures forall a :: a in addrs ==> IsFirm(AddTemps(s, addrs).s.t, a)
    decreases |addrs|
  {
    hide PlaceAt, IsSuspended, IsBrkpt, IsFirm, HasPerm, Inv;
    if addrs != [] {
      PlaceAtKeeps(s, addrs[0], TEMP);
      var s1 := PlaceAt(s, addrs[0], TEMP).s;
      AddTempsKeeps(s1, addrs[1..]);
      AddTempsFirm(s1, addrs[1..]);
      assert forall a :: a in addrs <==> a == addrs[0] || a in addrs[1..];
    }
  }

  /** If `go` starts the client, a breakpoint at which it really stops is at each of its addresses but where it starts
      from, and in the text outside the ROM. */
  lemma GoSets(st: End, addrs: seq<word>, a: word)
    requires Good(st.s) && Awaiting(st) && Next(st, GoTo(addrs)).how == Running && a in addrs && Stays(st.s, a)
    ensures var e := Next(st, GoTo(addrs));
            IsFirm(e.s.t, a) && IsBrkpt(e.s.t, a) && e.s.count == 1 && (!IsRom(a) ==> a in e.s.m.words && e.s.m.words[a] == e.s.bp)
  {
    hide PlaceAt, IsSuspended, IsBrkpt, IsFirm, HasPerm, Inv, Continue, AddTemps, Planted, IsRom, Mod32, IsBranch;
    AddTempsKeeps(st.s, addrs);
    AddTempsFirm(st.s, addrs);
    var s1 := AddTemps(st.s, addrs).s.(count := 1);
    ContinueKeeps(s1);
    var e := Continue(s1);
    FirmIsBrkpt(e.s.t, a);
    if !IsRom(a) { PlantedHas(st.s.m, e.s.t, e.s.m, e.s.bp, a); }
  }

  /** A client started by `go` that comes to one of its addresses is left there with a prompt. */
  lemma GoStops(st: End, addrs: seq<word>, a: word, ev: Event)
    requires Good(st.s) && Awaiting(st) && Next(st, GoTo(addrs)).how == Running && a in addrs && Stays(st.s, a)
    requires ev.Trap? && ev.isBreak && !ev.inSlot && ev.epc == a
    ensures var e := Next(st, GoTo(addrs));
            Good(e.s) && Next(e, ev).how == Prompt && Next(e, ev).s.epc == a
  {
    GoSets(st, addrs, a);
    NextKeeps(st, GoTo(addrs));
    var e := Next(st, GoTo(addrs));
    FirmKind(e.s.t, a);
    StoppedKeeps(e.s, ev);
    hide Command, Inv, IsFirm, IsBrkpt, Stays, LookupKind, HasPerm, CleanedUp, Remove, Written, IsRom;
  }

  /** A client that stops at a break instruction of its own is left with a prompt, past that instruction. */
  lemma OwnBreak(st: End, ev: Event)
    requires Good(st.s) && st.how == Running && ev.Trap? && ev.isBreak
    requires LookupKind(st.s.t, if ev.inSlot then Mod32((ev.epc as int) + 4) else ev.epc) == EMPTY
    ensures var e := Next(st, ev); e.how == Prompt && e.s.epc == Mod32((ev.epc as int) + 4)
  {
    hide Remove, Written, LookupKind, Inv, Mod32;
  }

  /** A client that stops for another reason is left where it is. */
  lemma OtherTrap(st: End, ev: Event)
    requires Good(st.s) && st.how == Running && ev.Trap? && !ev.isBreak
    ensures var e := Next(st, ev); e.how == Prompt && e.s.epc == ev.epc
  {
    hide Remove, Written, LookupKind, Inv;
  }

  lemma FirmIsBrkpt(t: Table, a: word)
    requires IsFirm(t, a)
    ensures IsBrkpt(t, a)
  {
    var i :| 0 <= i < |t| && t[i].addr == a && (t[i].kind == TEMP || t[i].kind == PERM);
    assert Live(t[i]);
  }

  // ----- over a session

  lemma {:induction false} RunOn(st: End, evs: seq<Event>, more: seq<Event>)
    requires Good(st.s)
    ensures Run(st, evs + more) == Run(Run(st, evs), more)
    decreases |evs|
  {
    hide Next, Inv;
    if evs == [] {
      assert evs + more == more;
    } else {
      NextKeeps(st, evs[0]);
      assert (evs + more)[1..] == evs[1..] + more;
      RunOn(Next(st, evs[0]), evs[1..], more);
    }
  }

  lemma RunOne(st: End, ev: Event)
    requires Good(st.s)
    ensures Run(st, [ev]) == Next(st, ev)
  {
    NextKeeps(st, ev);
    assert [ev][1..] == [];
  }

  /** A breakpoint set by `brk` at any time in a session stands at every later time, until it is cleared or cannot be
      written; so that a client that reaches it is left there with a prompt (PermStops). */
  lemma SetStands(st: End, before: seq<Event>, a: word, after: seq<Event>)
    requires Initial(st)
    requires Good(st.s) && var s1 := Run(st, before);
             Awaiting(s1) && Next(s1, Brk(a)).how == Prompt && Good(Next(s1, Brk(a)).s) && !EverDropped(Next(s1, Brk(a)), after, a)
    ensures HasPerm(Run(st, before + [Brk(a)] + after).s.t, a)
  {
    hide Next, Inv, HasPerm, LookupKind, EverDropped;
    var s1 := Run(st, before);
    RunOn(st, before + [Brk(a)], after);
    RunOn(st, before, [Brk(a)]);
    RunOne(s1, Brk(a));
    BrkSets(s1, a);
    PermSurvives(Next(s1, Brk(a)), after, a);
  }

  // ----- stepping more than once

  /** ev stops a client that is being stepped where its instruction leads, with no permanent breakpoint there. */
  ghost predicate StepsTo(s: Mach, ev: Event)
    requires Good(s) && s.epc in s.m.words
  {
    && ev.Trap? && ev.isBreak && !ev.inSlot
    && exists next, coprocessor :: MayBeNext(s, next, coprocessor) && ev.epc == StopFor(s, next)
  }

  /** The traps of a client that is stepped through as many instructions. */
  ghost predicate Walk(s: Mach, evs: seq<Event>)
    requires Good(s)
    decreases |evs|
  {
    evs == [] ||
    (DoStep1(s, TEMP).how == Running && s.epc in s.m.words && StepsTo(s, evs[0])
     && (StepKeeps(s, TEMP);
         StoppedKeeps(DoStep1(s, TEMP).s, evs[0]);
         var s' := Stopped(DoStep1(s, TEMP).s, evs[0]);
         s'.saved == TEMP && Walk(s'.(count := s.count - 1), evs[1..])))
  }

  /** `s n` executes n instructions: before the last the client is running, and after it there is a prompt where the
      client has got to. */
  lemma {:induction false} StepsCount(s: Mach, evs: seq<Event>, i: nat)
    requires Good(s) && s.count == |evs| && i <= |evs| && evs != [] && Walk(s, evs)
    ensures Good(DoStep1(s, TEMP).s)
    ensures var e := Run(DoStep1(s, TEMP), evs[..i]);
            if i < |evs| then e.how == Running else e.how == Prompt && evs[i - 1].Trap? && e.s.epc == evs[i - 1].epc
    decreases |evs|
  {
    hide DoStep1, Next, Inv, Stopped, StopFor, MayBeNext;
    StepKeeps(s, TEMP);
    var e := DoStep1(s, TEMP);
    if i == 0 {
      assert evs[..0] == [];
    } else {
      OneOfSteps(s, evs[0]);
      StoppedKeeps(e.s, evs[0]);
      NextKeeps(e, evs[0]);
      var s1 := Stopped(e.s, evs[0]).(count := s.count - 1);
      assert evs[..i][1..] == evs[1..][..i - 1];
      if |evs| > 1 {
        StepsCount(s1, evs[1..], i - 1);
      } else {
        assert evs[..i][1..] == [];
      }
    }
  }

  lemma OneOfSteps(s: Mach, ev: Event)
    requires Good(s) && s.epc in s.m.words && DoStep1(s, TEMP).how == Running && StepsTo(s, ev)
    ensures Good(DoStep1(s, TEMP).s)
    ensures var e := DoStep1(s, TEMP); var s', after := Stopped(e.s, ev), Next(e, ev);
            && Good(s') && s'.epc == ev.epc
            && (s'.saved == TEMP && s.count <= 1 ==> after.how == Prompt && after.s.epc == ev.epc)
            && (s'.saved == TEMP && s.count > 1 ==> after == DoStep1(s'.(count := s.count - 1), TEMP))
  {
    hide DoStep1, Next, Inv, Stopped, StopFor, MayBeNext;
    var next, coprocessor :| MayBeNext(s, next, coprocessor) && ev.epc == StopFor(s, next);
    StepsOn(s, next, coprocessor, ev);
    StoppedKeeps(DoStep1(s, TEMP).s, ev);
  }

  /** The same for the command: `s n` through the traps of a client that is stepped n times. */
  lemma StepsN(st: End, evs: seq<Event>, i: nat)
    requires Good(st.s) && Awaiting(st) && evs != [] && i <= |evs| && Walk(st.s.(count := |evs|), evs)
    ensures Good(Next(st, Step(|evs|)).s)
    ensures var e := Run(Next(st, Step(|evs|)), evs[..i]);
            if i < |evs| then e.how == Running else e.how == Prompt && evs[i - 1].Trap? && e.s.epc == evs[i - 1].epc
  {
    hide DoStep1, Inv, Walk, Next, Run, Awaiting;
    StepStarts(st, |evs|);
    StepsCount(st.s.(count := |evs|), evs, i);
  }

  lemma StepStarts(st: End, n: nat)
    requires Good(st.s) && Awaiting(st) && n > 0
    ensures Good(st.s.(count := n)) && Next(st, Step(n)) == DoStep1(st.s.(count := n), TEMP)
  {
    hide DoStep1, Inv;
  }

  // ----- stepping over

  /** A client that is being stepped over an instruction, and stops behind it, or behind the call that it is, is left
      there with a prompt if no steps remain or a permanent breakpoint stands there; if not, it is stepped on. */
  lemma StepsOver(s: Mach, next: word, coprocessor: bool, ev: Event)
    requires Good(s) && DoStep2(s, TEMP).how == Running && s.epc in s.m.words
    requires IsJal(s.m.words[s.epc]) || MayBeNext(s, next, coprocessor)
    requires !(RomSlotBranch(s) && OverStop(s, next) == Mod32((s.epc as int) + 4))
    requires ev.Trap? && ev.isBreak && !ev.inSlot && ev.epc == OverStop(s, next)
    ensures var e := DoStep2(s, TEMP);
            && Good(e.s)
            && var s', after := Stopped(e.s, ev), Next(e, ev);
            && s'.epc == OverStop(s, next) && (s'.saved == TEMP || s'.saved == PERM)
            && (s'.saved == PERM || s.count <= 1 ==> after.how == Prompt && after.s.epc == s'.epc)
            && (s'.saved == TEMP && s.count > 1 ==>
                  && Good(s')
                  && after == if AtBrkpt(s) || RomSlotBranch(s) then DoStep1(s'.(count := s.count - 1), TEMP)
                              else DoStep2(s'.(count := s.count - 1), TEMP))
  {
    hide DoStep1, DoStep2, MayBeNext, OverStop, IsFirm, IsBrkpt, Inv, IsBranch, IsJal, IsRom, Remove, Planted, LookupKind, HasPerm,
      CleanedUp, Written, Stays, AtBrkpt, RomSlotBranch;
    var e := DoStep2(s, TEMP);
    OverKeeps(s, TEMP);
    OverIsComplete(s, TEMP, next, coprocessor);
    StaysSteppingOver(s, TEMP);
    FirmKind(e.s.t, ev.epc);
    StoppedKeeps(e.s, ev);
  }

  // ----- continuing from a breakpoint

  /** The breakpoint that is meant to be at an address, suspended or not. */
  function Meant(t: Table, a: word): Kind {
    var i := FindUsed(t, a, 0);
    if i == |t| then EMPTY else if t[i].kind == SUSPEND then t[i].oldkind else t[i].kind
  }

  lemma MeantAt(t: Table, a: word, i: nat)
    requires Inv(t) && i < |t| && Used(t[i], a)
    ensures Meant(t, a) == if t[i].kind == SUSPEND then t[i].oldkind else t[i].kind
  {
    KindAt(t, a, i);
  }

  /** What is meant at each address follows from the entries in use there. */
  lemma MeantSame(t: Table, t': Table, b: word)
    requires Inv(t) && Inv(t') && forall i :: 0 <= i < |t| ==> t'[i].addr == t[i].addr || (!Used(t[i], b) && !Used(t'[i], b))
    requires forall i :: 0 <= i < |t| && (Used(t[i], b) || Used(t'[i], b)) ==>
               Used(t[i], b) && Used(t'[i], b)
               && (if t'[i].kind == SUSPEND then t'[i].oldkind else t'[i].kind) == (if t[i].kind == SUSPEND then t[i].oldkind else t[i].kind)
    ensures Meant(t', b) == Meant(t, b)
  {
    var i := FindUsed(t, b, 0);
    if i < |t| {
      MeantAt(t, b, i);
      MeantAt(t', b, i);
    }
  }

  lemma SuspendMeans(t: Table, pc: word)
    requires Inv(t) && IsBrkpt(t, pc) && Suspend(t, pc, 0).Changed?
    ensures forall b :: Meant(Suspend(t, pc, 0).t, b) == Meant(t, b)
  {
    SuspendFrom(t, pc, 0);
    SuspendKeepsInv(t, pc);
    forall b ensures Meant(Suspend(t, pc, 0).t, b) == Meant(t, b) { MeantSame(t, Suspend(t, pc, 0).t, b); }
  }

  /** A "continue" breakpoint changes nothing where another is meant to be. */
  lemma ContMeans(t: Table, a: word)
    requires Inv(t) && NewBrkpt(t, a, CONT).Changed?
    ensures var t' := NewBrkpt(t, a, CONT).t;
            && Inv(t') && Meant(t', a) == (if Meant(t, a) == EMPTY then CONT else Meant(t, a))
            && forall b :: b != a ==> Meant(t', b) == Meant(t, b)
  {
    NewKeepsInv(t, a, CONT);
    var t' := NewBrkpt(t, a, CONT).t;
    var i := FindUsed(t, a, 0);
    var k := if i < |t| then i else FindEmpty(t, 0);
    MeantAt(t', a, k);
    if i < |t| { MeantAt(t, a, i); }
    forall b | b != a ensures Meant(t', b) == Meant(t, b) {
      forall j | 0 <= j < |t| && j != k ensures t'[j] == t[j] {}
      MeantSame(t, t', b);
    }
  }

  /** A branch whose target is in the ROM: `step1` then sets a temporary breakpoint. */
  predicate RomBranch(s: Mach)
    requires |s.regs| == 32
  {
    s.epc in s.m.words && IsBranch(s.m.words[s.epc]) && IsRom(BranchTarget(s.m.words[s.epc], s.epc, s.regs))
  }

  /** What is meant when "continue" breakpoints have been set at the stops of the instruction. */
  function WithStops(s: Mach, b: word): Kind
    requires |s.regs| == 32
  {
    if Stop(s, b) && Meant(s.t, b) == EMPTY then CONT else Meant(s.t, b)
  }

  lemma PlaceMeans(s: Mach)
    requires Good(s) && !RomBranch(s) && Place(s, CONT).how == Running
    ensures forall b :: Meant(Place(s, CONT).s.t, b) == WithStops(s, b)
  {
    hide NewBrkpt, Inv, Meant, IsBranch, IsJal, IsConditional, BranchTarget, IsRom, Mod32;
    var pc: int := s.epc;
    var i := s.m.words[s.epc];
    if !IsBranch(i) {
      ContMeans(s.t, Mod32(pc + 4));
    } else {
      var target := BranchTarget(i, s.epc, s.regs);
      var t1 := if target == s.epc then s.t else NewBrkpt(s.t, target, CONT).t;
      if target != s.epc { ContMeans(s.t, target); }
      if IsConditional(i) { ContMeans(t1, Mod32(pc + 8)); }
    }
  }

  lemma ResumeMeans(s: Mach)
    requires Good(s) && Resume(s).how == Running
    ensures forall b :: Meant(Resume(s).s.t, b) == Meant(s.t, b)
  {
    InstallKeeps(s.t, s.m, s.bp);
    var t' := Install(s.t, s.m, s.bp, 0).t;
    SameSays(s.t, t');
    forall b ensures Meant(t', b) == Meant(s.t, b) { MeantSame(s.t, t', b); }
  }

  /** Getting past a breakpoint sets "continue" breakpoints at the stops of the instruction, and leaves all else as it
      is meant. */
  lemma PastBreakpoint(s: Mach)
    requires Good(s) && !RomBranch(s) && AtBrkpt(s) && Continue(s).how == Running
    ensures forall b :: Meant(Continue(s).s.t, b) == WithStops(s, b)
  {
    hide Resume, IsSuspended, IsBrkpt, IsFirm, HasPerm, Inv, IsBranch, Place, Unsuspended, Suspend, Stop, Mod32, Meant, RomBranch,
      Install, LookupKind;
    var slot := Mod32((s.epc as int) + 4);
    SlotIsNext(s.epc);
    var bp1 := IsBrkpt(s.t, s.epc);
    var bp2 := IsBranch(s.m.words[s.epc]) && IsBrkpt(s.t, slot);
    SuspendStep(s.t, s.epc, bp1);
    if bp1 { SuspendMeans(s.t, s.epc); }
    var c1 := if bp1 then Suspend(s.t, s.epc, 0) else Changed(s.t);
    SuspendStep(c1.t, slot, bp2);
    if bp2 { SuspendMeans(c1.t, slot); }
    var c2 := if bp2 then Suspend(c1.t, slot, 0) else Changed(c1.t);
    SuspendCounts(s.t, c1.t, c2.t, s.epc, bp1, bp2);
    var s2 := s.(t := c2.t);
    SameStopsAll(s, s2);
    PlaceKeeps(s2, CONT);
    PlaceMeans(s2);
    PlaceSetsReturn(s2, CONT);
    var p := Place(s2, CONT).s.(stepper := Step1);
    KindSays(s2.t, s.epc);
    KindSays(s2.t, slot);
    PlaceAdds(s2);
    StopElsewhere(s2);
    SameStops(s2, p, slot);
    if AtBrkpt(p) { SuspendedStopFails(p, slot); }
    StartsHere(p);
    ResumeMeans(p);
  }

  lemma PlaceAdds(s: Mach)
    requires Good(s) && !RomBranch(s) && Place(s, CONT).how == Running
    ensures forall b :: IsBrkpt(Place(s, CONT).s.t, b) ==> IsBrkpt(s.t, b) || Stop(s, b)
  {
    hide PlaceAt, Inv, IsBrkpt, IsBranch, IsJal, IsConditional, BranchTarget, IsRom, Mod32;
    var pc: int := s.epc;
    var i := s.m.words[s.epc];
    if !IsBranch(i) {
      PlaceAtAdds(s, Mod32(pc + 4), CONT);
    } else {
      var s1 := if IsJal(i) then s.(ret := Mod32(pc + 8)) else s;
      var target := BranchTarget(i, s.epc, s.regs);
      PlaceAtAdds(s1, target, CONT);
      PlaceAtAdds(s1, Mod32(pc + 8), CONT);
      PlaceAtAdds(PlaceAt(s1, target, CONT).s, Mod32(pc + 8), CONT);
    }
  }

  lemma StopElsewhere(s: Mach)
    requires |s.regs| == 32 && !RomBranch(s)
    ensures !Stop(s, s.epc)
  {
    hide IsBranch, IsJal, IsConditional, BranchTarget, IsRom;
    SlotIsNext(s.epc);
  }

  lemma SameStopsAll(s: Mach, s2: Mach)
    requires |s.regs| == 32 && s2 == s.(t := s2.t)
    ensures (RomBranch(s) <==> RomBranch(s2)) && forall b :: Stop(s2, b) <==> Stop(s, b)
  {
    hide IsBranch, IsJal, IsConditional, BranchTarget, IsRom, Mod32;
  }

  lemma StoppedMeans(s: Mach, ev: Event)
    requires Good(s) && ev.Trap? && !ev.inSlot && LookupKind(s.t, ev.epc) == CONT
    ensures var s' := Stopped(s, ev);
            s'.saved == CONT && Good(s')
            && forall b :: !IsRom(b) ==> LookupKind(s'.t, b) == if Meant(s.t, b) == CONT then EMPTY else Meant(s.t, b)
  {
    var s1 := s.(m := Written(s.m, ev.writes), regs := ev.after, epc := ev.epc);
    var s' := Stopped(s, ev);
    RemoveKinds(s.t, s.t, s1.m, s'.saved, 0);
    StoppedKeeps(s, ev);
    hide Remove, Written, IsRom;
    forall b | !IsRom(b) ensures LookupKind(s'.t, b) == if Meant(s.t, b) == CONT then EMPTY else Meant(s.t, b) {
      KindRemoved(s.t, s'.t, b);
    }
  }

  lemma KindRemoved(t: Table, t': Table, b: word)
    requires Inv(t) && Inv(t') && !IsRom(b) && forall l :: 0 <= l < |t| ==> t'[l] == t[l].(kind := RemovedKind(t[l], CONT))
    ensures LookupKind(t', b) == if Meant(t, b) == CONT then EMPTY else Meant(t, b)
  {
    hide IsRom;
    var i := FindUsed(t, b, 0);
    if i < |t| {
      MeantAt(t, b, i);
      if t'[i].kind != EMPTY {
        KindAt(t', b, i);
      } else {
        forall j | 0 <= j < |t| ensures !Used(t'[j], b) { assert j == i || !Used(t[j], b); }
        NoKind(t', b);
      }
    } else {
      forall j | 0 <= j < |t| ensures !Used(t'[j], b) {}
      NoKind(t', b);
    }
  }

  lemma MeantKind(t: Table, b: word)
    requires Inv(t)
    ensures Meant(t, b) == CONT ==> LookupKind(t, b) == CONT
    ensures CleanedUp(t) && !IsRom(b) ==> LookupKind(t, b) == Meant(t, b) && Meant(t, b) != CONT
  {
    hide IsRom;
    var i := FindUsed(t, b, 0);
    if i < |t| { assert Used(t[i], b); }
  }

  /** `cont` from a breakpoint runs on: where the instruction leads, unless something else is set there, the client is
      stopped only to be started again, and by then each breakpoint outside the ROM is what it was before. */
  lemma ContRunsOn(s: Mach, next: word, coprocessor: bool, ev: Event)
    requires Good(s) && CleanedUp(s.t) && AtBrkpt(s) && !RomBranch(s) && Continue(s).how == Running
    requires MayBeNext(s, next, coprocessor) && LookupKind(s.t, next) == EMPTY && !IsRom(next)
    requires ev.Trap? && ev.isBreak && !ev.inSlot && ev.epc == next
    ensures Good(Continue(s).s)
    ensures var e := Continue(s); var s' := Stopped(e.s, ev);
            && s'.saved == CONT && Good(s') && Next(e, ev) == Resume(s')
            && forall b :: !IsRom(b) ==> LookupKind(s'.t, b) == LookupKind(s.t, b)
  {
    hide Resume, Continue, Inv, MayBeNext, IsBranch, Stop, Mod32, Meant, AtBrkpt, LookupKind, Stopped, IsRom, CleanedUp;
    ContinueKeeps(s);
    PastBreakpoint(s);
    StopIsNext(s, next, coprocessor);
    var e := Continue(s);
    forall b ensures (Meant(e.s.t, b) == CONT ==> LookupKind(e.s.t, b) == CONT)
                     && (!IsRom(b) ==> LookupKind(s.t, b) == Meant(s.t, b) && Meant(s.t, b) != CONT)
    {
      MeantKind(e.s.t, b);
      MeantKind(s.t, b);
    }
    StoppedMeans(e.s, ev);
  }

  lemma StopIsNext(s: Mach, next: word, coprocessor: bool)
    requires |s.regs| == 32 && !RomBranch(s) && MayBeNext(s, next, coprocessor)
    ensures Stop(s, next)
  {
    hide IsBranch, IsJal, IsConditional, BranchTarget, IsRom, Successor, Mod32;
    StopsCover(s, next, coprocessor);
  }
}
