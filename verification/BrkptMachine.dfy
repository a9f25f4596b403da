/** Continuing, stepping and stopping the client: the mutual recursion of `bp_continue` and `step1`, and the
    monitor's whole state from command to command. */
module BrkptMachine {
  import opened Words
  import opened BrkptInst
  import opened BrkptTable
  import opened BrkptText

  /** Which routine `step_routine` points at. */
  datatype Stepper = Step1 | Step2

  datatype Mach = Mach(
    t: Table,
    m: Text,
    regs: seq<word>,     // the client's general registers
    epc: word,
    saved: Kind,         // bptype_save
    count: int,          // step_count
    stepper: Stepper,
    ret: word,           // return_addr
    bp: word)            // the breakpoint instruction

  ghost predicate Good(s: Mach) { Inv(s.t) && |s.regs| == 32 }

  /** How an operation ends: the client runs, or the monitor is left with a message, or the command is over. */
  datatype Ending = Running | Failed(why: Trouble) | Prompt

  datatype End = End(s: Mach, how: Ending)

  /** _resume: write the breakpoints and start the client. */
  function Resume(s: Mach): End {
    match Install(s.t, s.m, s.bp, 0)
    case Installed(t', m') => End(s.(t := t', m := m'), Running)
    case InstallFault(t', m', a) => End(s.(t := t', m := m'), Failed(BadBreakpoint(a)))
  }

  /** How many of the instruction and its delay slot are not yet suspended. */
  ghost function Unsuspended(t: Table, pc: word): nat {
    (if IsSuspended(t, pc) then 0 else 1) + (if IsSuspended(t, Mod32(pc + 4)) then 0 else 1)
  }

  /** bp_continue */
  function Continue(s: Mach): End
    requires Good(s)
    decreases Unsuspended(s.t, s.epc), 0
  {
    var pc: int := s.epc;
    if pc !in s.m.words then End(s, Failed(BadAddress(pc)))
    else
      var next := Mod32(pc + 4);
      var bp1 := IsBrkpt(s.t, pc);
      var bp2 := IsBranch(s.m.words[pc]) && IsBrkpt(s.t, next);
      if !bp1 && !bp2 then Resume(s)
      else
        var c1 := if bp1 then Suspend(s.t, pc, 0) else Changed(s.t);
        if c1.Refused? then End(s, Failed(c1.why))
        else
          SuspendStep(s.t, pc, bp1);
          var c2 := if bp2 then Suspend(c1.t, next, 0) else Changed(c1.t);
          if c2.Refused? then End(s.(t := c1.t), Failed(c2.why))
          else
            SuspendStep(c1.t, next, bp2);
            SuspendCounts(s.t, c1.t, c2.t, pc, bp1, bp2);
            DoStep1(s.(t := c2.t), CONT)
  }

  /** step1 */
  function DoStep1(s: Mach, kind: Kind): End
    requires Good(s) && (kind == CONT || kind == TEMP)
    decreases Unsuspended(s.t, s.epc), 1
  {
    var p := Place(s, kind);
    if p.how != Running then p else
      PlaceKeeps(s, kind);
      Continue(p.s.(stepper := Step1))
  }

  /** The part of `step1` that sets the breakpoints; `how` is Running if it gets to the end. */
  function Place(s: Mach, kind: Kind): End
    requires |s.regs| == 32
  {
    var pc: int := s.epc;
    if pc !in s.m.words then End(s, Failed(BadAddress(pc)))
    else
      var i := s.m.words[pc];
      if !IsBranch(i) then PlaceAt(s, Mod32(pc + 4), kind)
      else
        var s1 := if IsJal(i) then s.(ret := Mod32(pc + 8)) else s;
        var slot := Mod32(pc + 4);
        if slot !in s.m.words then End(s1, Failed(BadAddress(slot)))
        else if IsBranch(s.m.words[slot]) then End(s1, Failed(BranchInDelaySlot))
        else
          var target := BranchTarget(i, pc, s.regs);
          var e := if target == pc then (if IsConditional(i) then End(s1, Running) else End(s1, Failed(SelfBranch)))
                   else if IsRom(target) then PlaceAt(s1, s1.ret, TEMP)
                   else PlaceAt(s1, target, kind);
          if e.how != Running || !IsConditional(i) then e else PlaceAt(e.s, Mod32(pc + 8), kind)
  }

  function PlaceAt(s: Mach, a: word, kind: Kind): End {
    match NewBrkpt(s.t, a, kind)
    case Changed(t') => End(s.(t := t'), Running)
    case Refused(why) => End(s, Failed(why))
  }

  lemma SuspendStep(t: Table, pc: word, needed: bool)
    requires Inv(t) && (needed ==> IsBrkpt(t, pc))
    ensures var c := if needed then Suspend(t, pc, 0) else Changed(t);
            c.Changed? ==>
              && Inv(c.t) && (needed ==> !IsSuspended(t, pc) && IsSuspended(c.t, pc))
              && (forall b :: b != pc ==> (IsBrkpt(c.t, b) <==> IsBrkpt(t, b)) && (IsSuspended(c.t, b) <==> IsSuspended(t, b)))
              && (forall b :: HasPerm(t, b) ==> HasPerm(c.t, b))
              && (forall b :: b != pc && IsFirm(t, b) ==> IsFirm(c.t, b))
  {
    if needed && Suspend(t, pc, 0).Changed? {
      SuspendKeepsInv(t, pc);
      SuspendKeepsFirm(t, pc);
    }
  }

  lemma SuspendCounts(t: Table, t1: Table, t2: Table, pc: word, bp1: bool, bp2: bool)
    requires bp1 || bp2
    requires bp1 ==> !IsSuspended(t, pc) && IsSuspended(t1, pc)
    requires !bp1 ==> t1 == t
    requires forall b :: b != pc ==> (IsSuspended(t1, b) <==> IsSuspended(t, b))
    requires bp2 ==> !IsSuspended(t1, Mod32(pc + 4)) && IsSuspended(t2, Mod32(pc + 4))
    requires !bp2 ==> t2 == t1
    requires forall b :: b != Mod32(pc + 4) ==> (IsSuspended(t2, b) <==> IsSuspended(t1, b))
    ensures Unsuspended(t2, pc) < Unsuspended(t, pc)
  {
    assert Mod32(pc + 4) != pc;
  }

  /** What placing a breakpoint leaves alone. */
  ghost predicate OnlyAdds(t: Table, t': Table) {
    && (forall b :: IsSuspended(t', b) <==> IsSuspended(t, b))
    && (forall b :: IsBrkpt(t, b) ==> IsBrkpt(t', b))
    && (forall b :: HasPerm(t, b) ==> HasPerm(t', b))
    && (forall b :: IsFirm(t, b) ==> IsFirm(t', b))
  }

  lemma PlaceAtKeeps(s: Mach, a: word, kind: Kind)
    requires Good(s) && (kind == CONT || kind == TEMP)
    ensures var e := PlaceAt(s, a, kind);
            && Good(e.s) && e.s == s.(t := e.s.t) && OnlyAdds(s.t, e.s.t)
            && e.how != Prompt && (e.how == Running ==> IsBrkpt(e.s.t, a) && !IsSuspended(s.t, a) && (kind == TEMP ==> IsFirm(e.s.t, a)))
  {
    if NewBrkpt(s.t, a, kind).Changed? {
      NewKeepsInv(s.t, a, kind);
      NewKeepsFirm(s.t, a, kind);
    }
  }

  lemma PlaceKeeps(s: Mach, kind: Kind)
    requires Good(s) && (kind == CONT || kind == TEMP)
    ensures var e := Place(s, kind);
            && Good(e.s) && e.s == s.(t := e.s.t, ret := e.s.ret) && OnlyAdds(s.t, e.s.t)
            && Unsuspended(e.s.t, s.epc) == Unsuspended(s.t, s.epc)
  {
    hide PlaceAt, IsSuspended, IsBrkpt, IsFirm, HasPerm, Inv, IsBranch, IsJal, IsConditional, BranchTarget, IsRom;
    var pc: int := s.epc;
    if pc in s.m.words {
      var i := s.m.words[pc];
      if !IsBranch(i) {
        PlaceAtKeeps(s, Mod32(pc + 4), kind);
      } else {
        var s1 := if IsJal(i) then s.(ret := Mod32(pc + 8)) else s;
        var target := BranchTarget(i, pc, s.regs);
        PlaceAtKeeps(s1, s1.ret, TEMP);
        PlaceAtKeeps(s1, target, kind);
        PlaceAtKeeps(s1, Mod32(pc + 8), kind);
        PlaceAtKeeps(PlaceAt(s1, s1.ret, TEMP).s, Mod32(pc + 8), kind);
        PlaceAtKeeps(PlaceAt(s1, target, kind).s, Mod32(pc + 8), kind);
      }
    }
  }

  // ----- where stepping puts its breakpoints

  /** `next` may be executed next, and is not the instruction the client is at. */
  ghost predicate MayBeNext(s: Mach, next: word, coprocessor: bool)
    requires |s.regs| == 32
  {
    s.epc in s.m.words && next == Successor(s.m.words[s.epc], s.epc, s.regs, coprocessor) && next != s.epc
  }

  /** Where `step1` means to stop a client that goes to `next`: there, or, for a branch into the ROM, on the
      way back from it. */
  function StopFor(s: Mach, next: word): word
    requires |s.regs| == 32 && s.epc in s.m.words
  {
    var i := s.m.words[s.epc];
    if IsBranch(i) && next == BranchTarget(i, s.epc, s.regs) && IsRom(next) then
      if IsJal(i) then Mod32((s.epc as int) + 8) else s.ret
    else next
  }

  /** The addresses at which `step1` sets breakpoints. */
  predicate Stop(s: Mach, a: word)
    requires |s.regs| == 32
  {
    var pc: int := s.epc;
    s.epc in s.m.words &&
    var i := s.m.words[s.epc];
    if !IsBranch(i) then a == Mod32(pc + 4)
    else
      var target := BranchTarget(i, s.epc, s.regs);
      (target != s.epc && a == StopFor(s, target)) || (IsConditional(i) && a == Mod32(pc + 8))
  }

  /** They cover every way the client can go. */
  lemma StopsCover(s: Mach, next: word, coprocessor: bool)
    requires |s.regs| == 32 && MayBeNext(s, next, coprocessor)
    ensures Stop(s, StopFor(s, next))
  {
    hide IsBranch, IsJal, IsConditional, BranchTarget, IsRom, Successor, Mod32;
    SuccessorKnown(s.m.words[s.epc], s.epc, s.regs, coprocessor);
  }

  lemma PlacedAt(s: Mach, kind: Kind, a: word)
    requires Good(s) && (kind == CONT || kind == TEMP) && Stop(s, a) && Place(s, kind).how == Running
    ensures IsBrkpt(Place(s, kind).s.t, a) && !IsSuspended(s.t, a) && (kind == TEMP ==> IsFirm(Place(s, kind).s.t, a))
  {
    hide PlaceAt, IsSuspended, IsBrkpt, IsFirm, HasPerm, Inv, IsBranch, IsJal, IsConditional, BranchTarget, IsRom;
    var pc: int := s.epc;
    var i := s.m.words[pc];
    if !IsBranch(i) {
      PlaceAtKeeps(s, Mod32(pc + 4), kind);
    } else {
      var s1 := if IsJal(i) then s.(ret := Mod32(pc + 8)) else s;
      var target := BranchTarget(i, pc, s.regs);
      PlaceAtKeeps(s1, s1.ret, TEMP);
      PlaceAtKeeps(s1, target, kind);
      PlaceAtKeeps(s1, Mod32(pc + 8), kind);
      PlaceAtKeeps(PlaceAt(s1, s1.ret, TEMP).s, Mod32(pc + 8), kind);
      PlaceAtKeeps(PlaceAt(s1, target, kind).s, Mod32(pc + 8), kind);
    }
  }

  // ----- what continuing and stepping keep

  /** The table says the same about every address. */
  ghost predicate Same(t: Table, t': Table) {
    forall i :: 0 <= i < |t| ==> t'[i] == t[i].(inst := t'[i].inst)
  }

  lemma SameSays(t: Table, t': Table)
    requires Same(t, t')
    ensures Inv(t) <==> Inv(t')
    ensures forall b :: (IsBrkpt(t', b) <==> IsBrkpt(t, b)) && (IsSuspended(t', b) <==> IsSuspended(t, b)) && (HasPerm(t', b) <==> HasPerm(t, b))
    ensures forall b :: IsFirm(t, b) ==> IsFirm(t', b)
  {
    forall b | IsFirm(t, b) ensures IsFirm(t', b) {
      var i :| 0 <= i < |t| && t[i].addr == b && (t[i].kind == TEMP || t[i].kind == PERM);
      assert t'[i].addr == b;
    }
    forall b
      ensures (IsBrkpt(t', b) <==> IsBrkpt(t, b)) && (IsSuspended(t', b) <==> IsSuspended(t, b)) && (HasPerm(t', b) <==> HasPerm(t, b))
    {
      if IsBrkpt(t, b) { var i :| 0 <= i < |t| && Live(t[i]) && t[i].addr == b; assert Live(t'[i]) && t'[i].addr == b; }
      if IsBrkpt(t', b) { var i :| 0 <= i < |t| && Live(t'[i]) && t'[i].addr == b; assert Live(t[i]) && t[i].addr == b; }
      if IsSuspended(t, b) { var i :| 0 <= i < |t| && t[i].kind == SUSPEND && t[i].addr == b; assert t'[i].kind == SUSPEND; }
      if IsSuspended(t', b) { var i :| 0 <= i < |t| && t'[i].kind == SUSPEND && t'[i].addr == b; assert t[i].kind == SUSPEND; }
    }
  }

  /** The breakpoints of table t are in the text of the client, whose own words are those of m. */
  ghost predicate Planted(m: Text, t: Table, m': Text, bp: word) {
    Writable(t, m, |t|) && Recorded(t, t, m, |t|) && m' == Patched(m, t, bp, 0, |t|)
  }

  lemma InstallKeeps(t: Table, m: Text, bp: word)
    requires Inv(t)
    ensures var r := Install(t, m, bp, 0);
            if r.Installed? then Same(t, r.t) && Planted(m, r.t, r.m, bp)
            else r.m == m && Inv(r.t) && forall b :: HasPerm(t, b) ==> HasPerm(r.t, b) || b == r.addr
  {
    NonePatched(m, t, bp, 0);
    InstallsOrRestores(t, t, m, bp, 0);
    var r := Install(t, m, bp, 0);
    hide Install;
    if r.Installed? {
      forall a ensures PatchedAt(t, 0, |t|, a) <==> PatchedAt(r.t, 0, |t|, a) {
        forall i | 0 <= i < |t| ensures Patches(t[i]) == Patches(r.t[i]) && t[i].addr == r.t[i].addr {}
      }
      assert Patched(m, t, bp, 0, |t|).words == Patched(m, r.t, bp, 0, |t|).words;
    } else {
      var k :| FirstBad(t, m, k) && Undone(t, r, m, k);
      UndoneKeeps(t, r, m, k);
    }
  }

  lemma UndoneKeeps(t: Table, r: Installation, m: Text, k: nat)
    requires Inv(t) && Undone(t, r, m, k)
    ensures Inv(r.t) && forall b :: HasPerm(t, b) ==> HasPerm(r.t, b) || b == r.addr
  {
    forall l | 0 <= l < |t|
      ensures r.t[l].addr == t[l].addr && r.t[l].oldkind == t[l].oldkind
      ensures r.t[l].kind == (if l < k then UndoneKind(t[l]) else if l == k then EMPTY else t[l].kind)
    {
      var u := r.t[k := r.t[k].(kind := t[k].kind)];
      assert u[l].addr == r.t[l].addr;
    }
    forall b | HasPerm(t, b) && b != r.addr ensures HasPerm(r.t, b) {
      var i :| 0 <= i < |t| && t[i].addr == b && (t[i].kind == PERM || (t[i].kind == SUSPEND && t[i].oldkind == PERM));
      assert r.t[i].addr == b;
    }
  }

  /** What every ending keeps: the invariant, the client's registers, its text unless it now runs, and every
      permanent breakpoint but one that could not be written. */
  ghost predicate Kept(s: Mach, e: End) {
    && Good(e.s) && e.how != Prompt
    && e.s == s.(t := e.s.t, m := e.s.m, stepper := e.s.stepper, ret := e.s.ret)
    && (forall b :: HasPerm(s.t, b) ==> HasPerm(e.s.t, b) || e.how == Failed(BadBreakpoint(b)))
    && (e.s.stepper == s.stepper || e.s.stepper == Step1)
    && (if e.how == Running then Planted(s.m, e.s.t, e.s.m, s.bp) else e.s.m == s.m)
  }

  /** The client is at a breakpoint, or at a branch with one in its delay slot. */
  predicate AtBrkpt(s: Mach) {
    IsBrkpt(s.t, s.epc) || (s.epc in s.m.words && IsBranch(s.m.words[s.epc]) && IsBrkpt(s.t, Mod32((s.epc as int) + 4)))
  }

  /** A breakpoint that continuing from the current instruction leaves in place. */
  predicate Stays(s: Mach, b: word) {
    && b != s.epc
    && (s.epc in s.m.words && IsBranch(s.m.words[s.epc]) ==> b != Mod32((s.epc as int) + 4))
  }

  /** The breakpoints a running client is not at are still in place, and there is none where it is. */
  ghost predicate StopsKept(s: Mach, e: End) {
    e.how == Running ==>
      && (forall b :: IsBrkpt(s.t, b) && Stays(s, b) ==> IsBrkpt(e.s.t, b))
      && (forall b :: IsFirm(s.t, b) && Stays(s, b) ==> IsFirm(e.s.t, b))
      && (forall b :: IsBrkpt(e.s.t, b) ==> Stays(s, b))
  }

  lemma ResumeKeeps(s: Mach)
    requires Good(s)
    ensures Kept(s, Resume(s)) && (!AtBrkpt(s) ==> StopsKept(s, Resume(s)))
  {
    InstallKeeps(s.t, s.m, s.bp);
    var r := Install(s.t, s.m, s.bp, 0);
    if r.Installed? {
      SameSays(s.t, r.t);
    }
  }

  lemma {:induction false} ContinueKeeps(s: Mach)
    requires Good(s)
    ensures Kept(s, Continue(s)) && StopsKept(s, Continue(s))
    decreases Unsuspended(s.t, s.epc), 0
  {
    hide Resume, IsSuspended, IsBrkpt, IsFirm, HasPerm, Inv, IsBranch, Planted, DoStep1, Unsuspended, Suspend;
    var pc: int := s.epc;
    if pc in s.m.words {
      var next := Mod32(pc + 4);
      var bp1 := IsBrkpt(s.t, s.epc);
      var bp2 := IsBranch(s.m.words[s.epc]) && IsBrkpt(s.t, next);
      if !bp1 && !bp2 {
        ResumeKeeps(s);
      } else {
        SuspendStep(s.t, s.epc, bp1);
        var c1 := if bp1 then Suspend(s.t, s.epc, 0) else Changed(s.t);
        if c1.Changed? {
          SuspendStep(c1.t, next, bp2);
          var c2 := if bp2 then Suspend(c1.t, next, 0) else Changed(c1.t);
          if c2.Changed? {
            SuspendCounts(s.t, c1.t, c2.t, s.epc, bp1, bp2);
            StepKeeps(s.(t := c2.t), CONT);
          }
        }
      }
    }
  }

  lemma {:induction false} StepKeeps(s: Mach, kind: Kind)
    requires Good(s) && (kind == CONT || kind == TEMP)
    ensures Kept(s, DoStep1(s, kind)) && StopsKept(s, DoStep1(s, kind))
    decreases Unsuspended(s.t, s.epc), 1
  {
    hide Resume, IsSuspended, IsBrkpt, IsFirm, HasPerm, Inv, IsBranch, Planted, Continue, Place, Unsuspended;
    PlaceKeeps(s, kind);
    PlaceFails(s, kind);
    var p := Place(s, kind);
    if p.how == Running {
      ContinueKeeps(p.s.(stepper := Step1));
    }
  }

  lemma PlaceFails(s: Mach, kind: Kind)
    requires |s.regs| == 32
    ensures Place(s, kind).how != Prompt
  {}

  /** A client cannot be started when one of its stops is an instruction that must be suspended to continue:
      `step1` finds there the breakpoint it has just suspended. */
  lemma SuspendedStopFails(s: Mach, a: word)
    requires Good(s) && Stop(s, a) && !Stays(s, a) && IsBrkpt(s.t, a)
    ensures Continue(s).how != Running
  {
    hide Resume, IsSuspended, IsBrkpt, IsFirm, HasPerm, Inv, IsBranch, Place, Unsuspended, Suspend, Stop, Mod32;
    var pc: int := s.epc;
    if s.epc !in s.m.words { return; }
    var slot := Mod32(pc + 4);
    SlotIsNext(pc);
    var bp1 := IsBrkpt(s.t, s.epc);
    var bp2 := IsBranch(s.m.words[s.epc]) && IsBrkpt(s.t, slot);
    SuspendStep(s.t, s.epc, bp1);
    var c1 := if bp1 then Suspend(s.t, s.epc, 0) else Changed(s.t);
    if c1.Changed? {
      SuspendStep(c1.t, slot, bp2);
      var c2 := if bp2 then Suspend(c1.t, slot, 0) else Changed(c1.t);
      if c2.Changed? {
        SuspendCounts(s.t, c1.t, c2.t, s.epc, bp1, bp2);
        var s2 := s.(t := c2.t);
        SameStops(s, s2, a);
        if Place(s2, CONT).how == Running {
          PlacedAt(s2, CONT, a);
        }
      }
    }
  }

  lemma SameStops(s: Mach, s': Mach, a: word)
    requires |s.regs| == 32 && s' == s.(t := s'.t, stepper := s'.stepper, ret := s'.ret)
    requires (s.epc in s.m.words && IsJal(s.m.words[s.epc])) || s'.ret == s.ret
    ensures Stop(s', a) <==> Stop(s, a)
  {
    hide IsBranch, IsJal, IsConditional, BranchTarget, IsRom, Mod32;
  }

  lemma SlotIsNext(pc: word)
    ensures Mod32((pc as int) + 4) != pc && Mod32((pc as int) + 8) != pc && Mod32((pc as int) + 8) != Mod32((pc as int) + 4)
  {}

  /** Single-stepping is complete: if the client is started, then wherever the instruction it is at can lead,
      other than back to itself, a breakpoint stands, and is in the text unless it is in the ROM.  For a branch
      into the ROM it stands where the ROM returns to. */
  lemma StepIsComplete(s: Mach, kind: Kind, next: word, coprocessor: bool)
    requires Good(s) && (kind == CONT || kind == TEMP) && MayBeNext(s, next, coprocessor)
    requires DoStep1(s, kind).how == Running
    ensures var e, stop := DoStep1(s, kind), StopFor(s, next);
            && IsBrkpt(e.s.t, stop) && (kind == TEMP ==> IsFirm(e.s.t, stop))
            && (!IsRom(stop) ==> stop in e.s.m.words && e.s.m.words[stop] == s.bp)
  {
    hide Resume, IsSuspended, IsBrkpt, IsFirm, HasPerm, Inv, IsBranch, Planted, Continue, Place, Unsuspended, Successor, IsRom, IsJal, BranchTarget, Stop;
    PlaceKeeps(s, kind);
    var p := Place(s, kind).s.(stepper := Step1);
    var stop := StopFor(s, next);
    StopsCover(s, next, coprocessor);
    PlacedAt(s, kind, stop);
    if !Stays(p, stop) {
      PlaceSetsReturn(s, kind);
      SameStops(s, p, stop);
      SuspendedStopFails(p, stop);
    }
    ContinueKeeps(p);
    StepKeeps(s, kind);
    var e := DoStep1(s, kind);
    if !IsRom(stop) {
      PlantedHas(s.m, e.s.t, e.s.m, s.bp, stop);
    }
  }

  lemma PlaceSetsReturn(s: Mach, kind: Kind)
    requires |s.regs| == 32 && s.epc in s.m.words
    ensures Place(s, kind).s.ret == if IsJal(s.m.words[s.epc]) && IsBranch(s.m.words[s.epc]) then Mod32((s.epc as int) + 8) else s.ret
  {
    hide IsBranch, IsJal, IsConditional, BranchTarget, IsRom, NewBrkpt;
  }

  lemma PlantedHas(m: Text, t: Table, m': Text, bp: word, a: word)
    requires Planted(m, t, m', bp) && IsBrkpt(t, a) && !IsRom(a)
    ensures a in m'.words && m'.words[a] == bp
  {
    var i :| 0 <= i < |t| && Live(t[i]) && t[i].addr == a;
    assert Patches(t[i]);
  }

  // ----- stepping over subroutines

  /** The part of `step2` that sets the breakpoints. */
  function PlaceOver(s: Mach, kind: Kind): End
    requires |s.regs| == 32
  {
    var pc: int := s.epc;
    if s.epc !in s.m.words then End(s, Failed(BadAddress(s.epc)))
    else
      var i := s.m.words[s.epc];
      if !IsBranch(i) then PlaceAt(s, Mod32(pc + 4), kind)
      else
        var slot := Mod32(pc + 4);
        if slot !in s.m.words then End(s, Failed(BadAddress(slot)))
        else if IsBranch(s.m.words[slot]) then End(s, Failed(BranchInDelaySlot))
        else if IsJal(i) then PlaceAt(s, Mod32(pc + 8), kind)
        else
          var target := BranchTarget(i, s.epc, s.regs);
          var e := if target != s.epc then PlaceAt(s, target, kind)
                   else if IsConditional(i) then End(s, Running) else End(s, Failed(SelfBranch));
          if e.how != Running || !IsConditional(i) then e else PlaceAt(e.s, Mod32(pc + 8), kind)
  }

  /** step2 */
  function DoStep2(s: Mach, kind: Kind): End
    requires Good(s) && (kind == CONT || kind == TEMP)
  {
    var p := PlaceOver(s, kind);
    if p.how != Running then p else
      PlaceOverKeeps(s, kind);
      Continue(p.s.(stepper := Step2))
  }

  lemma PlaceOverKeeps(s: Mach, kind: Kind)
    requires Good(s) && (kind == CONT || kind == TEMP)
    ensures var e := PlaceOver(s, kind);
            && Good(e.s) && e.s == s.(t := e.s.t) && OnlyAdds(s.t, e.s.t) && e.how != Prompt
  {
    hide PlaceAt, IsSuspended, IsBrkpt, IsFirm, HasPerm, Inv, IsBranch, IsJal, IsConditional, BranchTarget;
    var pc: int := s.epc;
    if s.epc in s.m.words {
      var i := s.m.words[s.epc];
      if !IsBranch(i) {
        PlaceAtKeeps(s, Mod32(pc + 4), kind);
      } else {
        var target := BranchTarget(i, s.epc, s.regs);
        PlaceAtKeeps(s, target, kind);
        PlaceAtKeeps(s, Mod32(pc + 8), kind);
        PlaceAtKeeps(PlaceAt(s, target, kind).s, Mod32(pc + 8), kind);
      }
    }
  }

  lemma OverKeeps(s: Mach, kind: Kind)
    requires Good(s) && (kind == CONT || kind == TEMP)
    ensures Kept(s.(stepper := Step2), DoStep2(s, kind))
  {
    hide IsSuspended, IsBrkpt, IsFirm, HasPerm, Inv, IsBranch, Planted, Continue, PlaceOver;
    PlaceOverKeeps(s, kind);
    var p := PlaceOver(s, kind);
    if p.how == Running {
      ContinueKeeps(p.s.(stepper := Step2));
    }
  }

  lemma StepperAfter(s: Mach)
    requires Good(s) && Continue(s).how == Running
    ensures Continue(s).s.stepper == if AtBrkpt(s) then Step1 else s.stepper
  {
    hide IsSuspended, IsBrkpt, IsFirm, HasPerm, Inv, IsBranch, Planted, DoStep1, Unsuspended, Suspend, Install;
    var pc: int := s.epc;
    var next := Mod32(pc + 4);
    var bp1 := IsBrkpt(s.t, s.epc);
    var bp2 := IsBranch(s.m.words[s.epc]) && IsBrkpt(s.t, next);
    if bp1 || bp2 {
      SuspendStep(s.t, s.epc, bp1);
      var c1 := if bp1 then Suspend(s.t, s.epc, 0) else Changed(s.t);
      SuspendStep(c1.t, next, bp2);
      var c2 := if bp2 then Suspend(c1.t, next, 0) else Changed(c1.t);
      SuspendCounts(s.t, c1.t, c2.t, s.epc, bp1, bp2);
      Step1AfterStep1(s.(t := c2.t), CONT);
    }
  }

  lemma Step1AfterStep1(s: Mach, kind: Kind)
    requires Good(s) && (kind == CONT || kind == TEMP) && DoStep1(s, kind).how == Running
    ensures DoStep1(s, kind).s.stepper == Step1
  {
    hide IsSuspended, IsBrkpt, IsFirm, HasPerm, Inv, IsBranch, Planted, Continue, Unsuspended, Place;
    PlaceKeeps(s, kind);
    ContinueKeeps(Place(s, kind).s.(stepper := Step1));
  }

  /** A branch in the ROM into its own delay slot. */
  predicate RomSlotBranch(s: Mach)
    requires |s.regs| == 32
  {
    s.epc in s.m.words && IsBranch(s.m.words[s.epc]) && !IsJal(s.m.words[s.epc])
    && BranchTarget(s.m.words[s.epc], s.epc, s.regs) == Mod32((s.epc as int) + 4) && IsRom(Mod32((s.epc as int) + 4))
  }

  lemma PlacesElsewhere(s: Mach, kind: Kind)
    requires Good(s) && (kind == CONT || kind == TEMP) && PlaceOver(s, kind).how == Running
    ensures var p := PlaceOver(s, kind).s;
            && (IsBrkpt(p.t, s.epc) ==> IsBrkpt(s.t, s.epc))
            && (forall a :: IsBrkpt(p.t, a) && !IsBrkpt(s.t, a) && !RomSlotBranch(s) && a == Mod32((s.epc as int) + 4) && IsBranch(s.m.words[s.epc]) ==> Stop(s, a))
            && (RomSlotBranch(s) ==> IsBrkpt(p.t, Mod32((s.epc as int) + 4)))
  {
    hide PlaceAt, IsSuspended, IsBrkpt, IsFirm, HasPerm, Inv, IsBranch, IsJal, IsConditional, BranchTarget, IsRom;
    var pc: int := s.epc;
    SlotIsNext(pc);
    var i := s.m.words[s.epc];
    if !IsBranch(i) {
      PlaceAtAdds(s, Mod32(pc + 4), kind);
    } else {
      var target := BranchTarget(i, s.epc, s.regs);
      PlaceAtAdds(s, target, kind);
      PlaceAtAdds(s, Mod32(pc + 8), kind);
      PlaceAtKeeps(s, target, kind);
      PlaceAtAdds(PlaceAt(s, target, kind).s, Mod32(pc + 8), kind);
    }
  }

  lemma PlaceAtAdds(s: Mach, a: word, kind: Kind)
    requires Good(s) && (kind == CONT || kind == TEMP)
    ensures var e := PlaceAt(s, a, kind);
            Good(e.s) && (e.how == Running ==> forall b :: IsBrkpt(e.s.t, b) <==> b == a || IsBrkpt(s.t, b))
  {
    if NewBrkpt(s.t, a, kind).Changed? {
      NewKeepsInv(s.t, a, kind);
    }
  }

  /** Further steps of an `S` command step over subroutines again exactly when the first did not start from a
      breakpoint: `step1`, called to get past one, leaves itself as the stepping routine. */
  lemma StaysSteppingOver(s: Mach, kind: Kind)
    requires Good(s) && (kind == CONT || kind == TEMP) && DoStep2(s, kind).how == Running
    ensures DoStep2(s, kind).s.stepper == Step2 <==> !AtBrkpt(s) && !RomSlotBranch(s)
  {
    hide IsSuspended, IsBrkpt, IsFirm, HasPerm, Inv, IsBranch, Planted, Continue, Unsuspended, PlaceOver, Stop, RomSlotBranch;
    PlaceOverKeeps(s, kind);
    var p := PlaceOver(s, kind).s.(stepper := Step2);
    StepperAfter(p);
    PlacesElsewhere(s, kind);
    var slot := Mod32((s.epc as int) + 4);
    if AtBrkpt(p) && !AtBrkpt(s) && !RomSlotBranch(s) {
      SameStops(s, p, slot);
      SuspendedStopFails(p, slot);
    }
    assert RomSlotBranch(s) ==> AtBrkpt(p) by { RomSlotIsBranch(s); }
  }

  lemma RomSlotIsBranch(s: Mach)
    requires |s.regs| == 32
    ensures RomSlotBranch(s) ==> s.epc in s.m.words && IsBranch(s.m.words[s.epc])
  {}

  /** Where `step2` means to stop a client that goes to `next`: there, or behind a call. */
  function OverStop(s: Mach, next: word): word {
    if s.epc in s.m.words && IsJal(s.m.words[s.epc]) then Mod32((s.epc as int) + 8) else next
  }

  lemma OverPlaced(s: Mach, kind: Kind, next: word, coprocessor: bool)
    requires Good(s) && (kind == CONT || kind == TEMP) && PlaceOver(s, kind).how == Running
    requires IsJal(s.m.words[s.epc]) || MayBeNext(s, next, coprocessor)
    ensures var p := PlaceOver(s, kind).s;
            IsBrkpt(p.t, OverStop(s, next)) && (kind == TEMP ==> IsFirm(p.t, OverStop(s, next)))
  {
    hide PlaceAt, IsSuspended, IsBrkpt, IsFirm, HasPerm, Inv, IsBranch, IsJal, IsConditional, BranchTarget, IsRom, Successor;
    var pc: int := s.epc;
    var i := s.m.words[s.epc];
    JalIsBranch(i);
    if !IsJal(i) { SuccessorKnown(i, s.epc, s.regs, coprocessor); }
    if !IsBranch(i) {
      PlaceAtKeeps(s, Mod32(pc + 4), kind);
    } else {
      var target := BranchTarget(i, s.epc, s.regs);
      PlaceAtKeeps(s, target, kind);
      PlaceAtKeeps(s, Mod32(pc + 8), kind);
      PlaceAtKeeps(PlaceAt(s, target, kind).s, Mod32(pc + 8), kind);
    }
  }

  lemma JalIsBranch(i: word)
    ensures IsJal(i) ==> IsBranch(i)
  {}

  /** Stepping over is complete: if the client is started, a breakpoint stands behind a call, and for any other
      instruction wherever it can lead other than back to itself, and is in the text unless it is in the ROM.  The one
      exception is a branch in the ROM into its own delay slot. */
  lemma OverIsComplete(s: Mach, kind: Kind, next: word, coprocessor: bool)
    requires Good(s) && (kind == CONT || kind == TEMP) && DoStep2(s, kind).how == Running
    requires s.epc in s.m.words && (IsJal(s.m.words[s.epc]) || MayBeNext(s, next, coprocessor))
    ensures var e, stop := DoStep2(s, kind), OverStop(s, next);
            && (IsBrkpt(e.s.t, stop) <==> !(RomSlotBranch(s) && stop == Mod32((s.epc as int) + 4)))
            && (IsBrkpt(e.s.t, stop) && kind == TEMP ==> IsFirm(e.s.t, stop))
            && (!IsRom(stop) ==> stop in e.s.m.words && e.s.m.words[stop] == s.bp)
  {
    hide Resume, IsSuspended, IsBrkpt, IsFirm, HasPerm, Inv, IsBranch, Planted, Continue, PlaceOver, Unsuspended, Successor,
      IsRom, IsJal, BranchTarget, Stop, MayBeNext, RomSlotBranch, Mod32;
    PlaceOverKeeps(s, kind);
    var p := PlaceOver(s, kind).s.(stepper := Step2);
    var e, stop := DoStep2(s, kind), OverStop(s, next);
    OverPlaced(s, kind, next, coprocessor);
    ContinueKeeps(p);
    OverElsewhere(s, next, coprocessor);
    var slot := Mod32((s.epc as int) + 4);
    SlotIsNext(s.epc);
    if !Stays(p, stop) {
      RomSlotIs(s);
      if !RomSlotBranch(s) {
        SameStops(s, p, stop);
        SuspendedStopFails(p, stop);
      }
    } else {
      RomSlotIs(s);
    }
    if !IsRom(stop) {
      PlantedHas(s.m, e.s.t, e.s.m, s.bp, stop);
    }
  }

  /** A stop is not where the client is; only a branch into its own delay slot has it there. */
  lemma OverElsewhere(s: Mach, next: word, coprocessor: bool)
    requires |s.regs| == 32 && s.epc in s.m.words && (IsJal(s.m.words[s.epc]) || MayBeNext(s, next, coprocessor))
    ensures var stop, slot := OverStop(s, next), Mod32((s.epc as int) + 4);
            && stop != s.epc
            && (IsBranch(s.m.words[s.epc]) && stop == slot && !RomSlotBranch(s) ==> Stop(s, stop))
            && (IsBranch(s.m.words[s.epc]) && stop == slot && RomSlotBranch(s) ==> IsRom(slot))
  {
    hide IsBranch, IsJal, IsConditional, BranchTarget, IsRom, Successor;
    SlotIsNext(s.epc);
    var i := s.m.words[s.epc];
    JalIsBranch(i);
    if !IsJal(i) { SuccessorKnown(i, s.epc, s.regs, coprocessor); }
  }

  lemma RomSlotIs(s: Mach)
    requires |s.regs| == 32
    ensures RomSlotBranch(s) ==> s.epc in s.m.words && IsBranch(s.m.words[s.epc]) && IsRom(Mod32((s.epc as int) + 4))
  {}

  /** A client at a permanent breakpoint on a `nop` at 0x1000, with nothing else set. */
  ghost predicate AtFirstBreakpoint(s: Mach) {
    && |s.regs| == 32 && s.epc == 0x1000 && s.stepper == Step2
    && s.m.words == map[0x1000 := 0, 0x1004 := 0] && s.m.readonly == {}
    && s.t[0].addr == 0x1000 && s.t[0].kind == PERM && forall i :: 1 <= i < |s.t| ==> s.t[i].kind == EMPTY
  }

  /** Once `S` has started from there, further steps go into subroutines. */
  lemma StepsIntoFromBreakpoint(s: Mach)
    requires AtFirstBreakpoint(s)
    ensures Good(s) && DoStep2(s, TEMP).how == Running && DoStep2(s, TEMP).s.stepper == Step1
  {
    assert Good(s) && !IsBranch(0);
    var t1 := s.t[1 := s.t[1].(addr := 0x1004, kind := TEMP)];
    assert NewBrkpt(s.t, 0x1004, TEMP) == Changed(t1);
    assert PlaceOver(s, TEMP) == End(s.(t := t1), Running);
    PlaceOverKeeps(s, TEMP);
    FirstSuspended(s.(t := t1));
  }

  lemma FirstSuspended(s: Mach)
    requires Good(s) && s.epc == 0x1000 && s.m.words == map[0x1000 := 0, 0x1004 := 0] && s.m.readonly == {}
    requires s.t[0].addr == 0x1000 && s.t[0].kind == PERM && s.t[1].addr == 0x1004 && s.t[1].kind == TEMP
    requires forall i :: 2 <= i < |s.t| ==> s.t[i].kind == EMPTY
    ensures Continue(s).how == Running && Continue(s).s.stepper == Step1
  {
    assert !IsBranch(0) && IsBrkpt(s.t, 0x1000) by { assert Live(s.t[0]); }
    var t2 := s.t[0 := s.t[0].(oldkind := PERM, kind := SUSPEND)];
    SuspendFrom(s.t, 0x1000, 0);
    assert Suspend(s.t, 0x1000, 0) == Changed(t2);
    var s2 := s.(t := t2);
    SuspendStep(s.t, 0x1000, true);
    SuspendCounts(s.t, t2, t2, 0x1000, true, false);
    assert FindUsed(t2, 0x1004, 0) == 1;
    assert Place(s2, CONT) == End(s2, Running);
    assert !IsBrkpt(t2, 0x1000);
    assert Continue(s2.(stepper := Step1)) == Resume(s2.(stepper := Step1));
    AllWritten(t2, s.m, s.bp);
  }

  lemma AllWritten(t: Table, m: Text, bp: word)
    requires Inv(t) && forall k :: 0 <= k < |t| && Patches(t[k]) ==> CanWrite(m, t[k].addr)
    ensures Install(t, m, bp, 0).Installed?
  {
    NonePatched(m, t, bp, 0);
    InstallsOrRestores(t, t, m, bp, 0);
    assert forall k :: !FirstBad(t, m, k);
  }
}
