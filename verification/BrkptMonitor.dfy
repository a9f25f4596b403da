/** The routines of SA/dbgmon/brkpt.c as they are written, over a table and client state changed in place, each
    shown to do what BrkptMachine and BrkptRun say of it. */
module BrkptMonitor {
  import opened Words
  import opened BrkptInst
  import opened BrkptTable
  import opened BrkptText
  import opened BrkptMachine
  import opened BrkptRun

  class Monitor {
    const table: array<Entry>
    var text: Text
    var regs: Registers
    var epc: word
    var saved: Kind
    var count: int
    var stepper: Stepper
    var ret: word
    const bp: word

    predicate Valid()
      reads this
    {
      table.Length == NBREAKPOINTS
    }

    function State(): Mach
      requires Valid()
      reads this, table
    {
      Mach(table[..], text, regs, epc, saved, count, stepper, ret, bp)
    }

    constructor (m: Text, r: Registers, pc: word, kernelBp: word)
      ensures Valid() && fresh(table)
      ensures Initial(End(State(), Prompt)) && State().m == m && State().regs == r && State().epc == pc && bp == kernelBp
    {
      table := new Entry[NBREAKPOINTS](_ => Entry(0, 0, EMPTY, EMPTY));
      text, regs, epc, bp := m, r, pc, kernelBp;
      saved, count, stepper, ret := EMPTY, 0, Step1, 0;
    }

    /** new_brkpt */
    method NewBrkpt(a: word, kind: Kind) returns (how: Ending)
      requires Valid()
      modifies table
      ensures Valid() && End(State(), how) == PlaceAt(old(State()), a, kind)
    {
      if a % 4 != 0 {
        return Failed(NotOnBoundary);
      }
      ghost var t: Table := table[..];
      var ebt, bt := NBREAKPOINTS, 0;
      while bt < NBREAKPOINTS
        invariant 0 <= bt <= NBREAKPOINTS && table[..] == t
        invariant forall j :: 0 <= j < bt ==> !Used(t[j], a)
        invariant forall j :: 0 <= j < bt && j < ebt ==> t[j].kind != EMPTY
        invariant ebt == NBREAKPOINTS || (0 <= ebt < bt && t[ebt].kind == EMPTY)
      {
        assert table[bt] == t[bt];
        if table[bt].kind == EMPTY && ebt == NBREAKPOINTS {
          ebt := bt;
        }
        if table[bt].kind != EMPTY && a == table[bt].addr {
          assert FindUsed(t, a, 0) == bt;
          if table[bt].kind == SUSPEND {
            return Failed(Fatal("new_brkpt"));
          }
          if kind > table[bt].kind {
            table[bt] := table[bt].(kind := kind);
          }
          assert table[..] == t[bt := t[bt].(kind := if kind > t[bt].kind then kind else t[bt].kind)];
          return Running;
        }
        bt := bt + 1;
      }
      assert FindUsed(t, a, 0) == |t| && FindEmpty(t, 0) == ebt;
      if ebt == NBREAKPOINTS {
        return Failed(TableFull);
      }
      table[ebt] := table[ebt].(addr := a);
      table[ebt] := table[ebt].(kind := kind);
      assert table[..] == t[ebt := t[ebt].(addr := a, kind := kind)];
      how := Running;
    }

    /** suspend_brkpt */
    method SuspendBrkpt(pc: word) returns (how: Ending)
      requires Valid() && Inv(table[..])
      modifies table
      ensures Valid()
      ensures match Suspend(old(table[..]), pc, 0)
              case Changed(t) => table[..] == t && how == Running
              case Refused(why) => table[..] == old(table[..]) && how == Failed(why)
    {
      ghost var t: Table := table[..];
      SuspendFrom(t, pc, 0);
      var bt := 0;
      how := Running;
      while bt < NBREAKPOINTS
        invariant 0 <= bt <= NBREAKPOINTS && how == Running
        invariant Suspend(t, pc, 0) == Suspend(table[..], pc, bt)
        invariant table[..] == t || Suspend(t, pc, 0).Changed?
      {
        ghost var u: Table := table[..];
        assert table[bt] == u[bt];
        if table[bt].kind != EMPTY && table[bt].addr == pc {
          if table[bt].kind == PERM || table[bt].kind == TEMP {
            table[bt] := table[bt].(oldkind := table[bt].kind);
            table[bt] := table[bt].(kind := SUSPEND);
            assert table[..] == u[bt := u[bt].(oldkind := u[bt].kind, kind := SUSPEND)];
          } else {
            return Failed(Fatal("suspend_brkpt"));
          }
        }
        bt := bt + 1;
      }
    }

    /** is_brkpt */
    method IsBreakpoint(pc: word) returns (found: bool)
      requires Valid()
      ensures found == IsBrkpt(table[..], pc)
    {
      ghost var t: Table := table[..];
      var bt := 0;
      while bt < NBREAKPOINTS
        invariant 0 <= bt <= NBREAKPOINTS
        invariant forall j :: 0 <= j < bt ==> !(Live(t[j]) && t[j].addr == pc)
      {
        assert table[bt] == t[bt];
        if (table[bt].kind == TEMP || table[bt].kind == PERM || table[bt].kind == CONT) && table[bt].addr == pc {
          assert Live(t[bt]);
          return true;
        }
        bt := bt + 1;
      }
      found := false;
    }

    /** lookup_bptype */
    method LookupBptype(pc: word) returns (kind: Kind)
      requires Valid()
      ensures kind == LookupKind(table[..], pc)
    {
      ghost var t: Table := table[..];
      var bt := 0;
      while bt < NBREAKPOINTS
        invariant 0 <= bt <= NBREAKPOINTS
        invariant forall j :: 0 <= j < bt ==> !Used(t[j], pc)
      {
        assert table[bt] == t[bt];
        if table[bt].kind != EMPTY && table[bt].addr == pc {
          assert FindUsed(t, pc, 0) == bt;
          return table[bt].kind;
        }
        bt := bt + 1;
      }
      assert FindUsed(t, pc, 0) == |t|;
      kind := EMPTY;
    }

    /** _install_brkpts */
    method InstallBrkpts() returns (how: Ending)
      requires Valid()
      modifies `text, table
      ensures Valid()
      ensures match Install(old(table[..]), old(text), bp, 0)
              case Installed(t, m) => table[..] == t && text == m && how == Running
              case InstallFault(t, m, a) => table[..] == t && text == m && how == Failed(BadBreakpoint(a))
    {
      ghost var goal := Install(table[..], text, bp, 0);
      var bt := 0;
      while bt < NBREAKPOINTS
        invariant 0 <= bt <= NBREAKPOINTS && goal == Install(table[..], text, bp, bt)
      {
        ghost var t: Table := table[..];
        assert table[bt] == t[bt];
        var e := table[bt];
        if e.kind != EMPTY && e.kind != SUSPEND && !IsRom(e.addr) {
          if e.addr !in text.words {
            how := UndoInstall(bt);
            return;
          }
          table[bt] := e.(inst := text.words[e.addr]);
          assert table[..] == t[bt := t[bt].(inst := text.words[e.addr])];
          if !CanWrite(text, e.addr) {
            how := UndoInstall(bt);
            return;
          }
          text := Put(text, e.addr, bp);
        }
        bt := bt + 1;
      }
      how := Running;
    }

    /** The part of `_install_brkpts` that follows a fault. */
    method UndoInstall(bad: nat) returns (how: Ending)
      requires Valid() && bad < NBREAKPOINTS
      modifies `text, table
      ensures Valid()
      ensures var u := Undo(old(table[..]), old(text), 0, bad);
              u.InstallFault? && table[..] == u.t && text == u.m && how == Failed(BadBreakpoint(u.addr))
    {
      ghost var goal := Undo(table[..], text, 0, bad);
      var ebt := 0;
      while ebt < bad
        invariant 0 <= ebt <= bad && goal == Undo(table[..], text, ebt, bad)
      {
        ghost var t: Table := table[..];
        assert table[ebt] == t[ebt];
        if table[ebt].kind != EMPTY {
          if table[ebt].kind != SUSPEND {
            text := Put(text, table[ebt].addr, table[ebt].inst);
          }
          if table[ebt].kind == TEMP || table[ebt].kind == CONT {
            table[ebt] := table[ebt].(kind := EMPTY);
          }
          if table[ebt].kind == SUSPEND {
            table[ebt] := table[ebt].(kind := table[ebt].oldkind);
          }
          assert table[..] == t[ebt := t[ebt].(kind := UndoneKind(t[ebt]))];
        }
        ebt := ebt + 1;
      }
      ghost var t: Table := table[..];
      table[bad] := table[bad].(kind := EMPTY);
      assert table[..] == t[bad := t[bad].(kind := EMPTY)];
      how := Failed(BadBreakpoint(table[bad].addr));
    }

    /** _remove_brkpts; `inSlot` is the branch-delay bit of the cause register. */
    method RemoveBrkpts(inSlot: bool)
      requires Valid()
      modifies `text, `saved, table
      ensures Valid() && State() == TakeOut(old(State()), inSlot)
    {
      var bpPc: word := if inSlot then Mod32((epc as int) + 4) else epc;
      saved := LookupBptype(bpPc);
      ghost var kind, goal := saved, Remove(table[..], text, saved, 0);
      var bt := 0;
      while bt < NBREAKPOINTS
        invariant saved == kind
        invariant 0 <= bt <= NBREAKPOINTS && goal == Remove(table[..], text, saved, bt)
      {
        ghost var t: Table := table[..];
        ghost var m := text;
        assert table[bt] == t[bt];
        if table[bt].kind != EMPTY && (table[bt].kind == SUSPEND || !IsRom(table[bt].addr)) {
          if table[bt].kind != SUSPEND {
            text := Put(text, table[bt].addr, table[bt].inst);
          }
          if (table[bt].kind == TEMP && saved != CONT) || table[bt].kind == CONT {
            table[bt] := table[bt].(kind := EMPTY);
          }
          if table[bt].kind == SUSPEND {
            table[bt] := table[bt].(kind := table[bt].oldkind);
          }
        }
        assert table[..] == t[bt := t[bt].(kind := RemovedKind(t[bt], saved))];
        bt := bt + 1;
      }
    }

    /** _clear_brkpts */
    method ClearBrkpts()
      requires Valid()
      modifies table
      ensures Valid() && table[..] == Cleared(old(table[..]))
    {
      ghost var t: Table := table[..];
      var bt := 0;
      while bt < NBREAKPOINTS
        invariant 0 <= bt <= NBREAKPOINTS
        invariant forall j :: 0 <= j < NBREAKPOINTS ==> table[j] == if j < bt then t[j].(kind := EMPTY) else t[j]
      {
        table[bt] := table[bt].(kind := EMPTY);
        bt := bt + 1;
      }
    }

    /** _resume, up to the point where the client runs */
    method DoResume() returns (how: Ending)
      requires Valid()
      modifies `text, table
      ensures Valid() && End(State(), how) == Resume(old(State()))
    {
      how := InstallBrkpts();
    }

    /** bp_continue */
    method BpContinue() returns (how: Ending)
      requires Valid() && Good(State())
      modifies this, table
      ensures Valid() && End(State(), how) == Continue(old(State()))
      decreases Unsuspended(table[..], epc), 0
    {
      hide IsBrkpt, IsSuspended, Inv, HasPerm, DoStep1, Resume, Suspend, Unsuspended, IsBranch;
      ghost var s := State();
      var pc: int := epc;
      if epc !in text.words {
        return Failed(BadAddress(epc));
      }
      var next := Mod32(pc + 4);
      var bp1 := IsBreakpoint(epc);
      var bp2 := false;
      if IsBranch(text.words[epc]) {
        bp2 := IsBreakpoint(next);
      }
      if bp1 || bp2 {
        ghost var t0: Table := table[..];
        SuspendStep(t0, s.epc, bp1);
        if bp1 {
          how := SuspendBrkpt(epc);
          if how != Running { return; }
        }
        ghost var t1: Table := table[..];
        SuspendStep(t1, next, bp2);
        if bp2 {
          how := SuspendBrkpt(next);
          if how != Running { return; }
        }
        ghost var t2: Table := table[..];
        SuspendCounts(t0, t1, t2, s.epc, bp1, bp2);
        how := StepOnce(CONT);
        return;
      }
      how := DoResume();
    }

    /** step1 */
    method StepOnce(kind: Kind) returns (how: Ending)
      requires Valid() && Good(State()) && (kind == CONT || kind == TEMP)
      modifies this, table
      ensures Valid() && End(State(), how) == DoStep1(old(State()), kind)
      decreases Unsuspended(table[..], epc), 1
    {
      PlaceKeeps(State(), kind);
      how := SetStops(kind);
      if how == Running {
        stepper := Step1;
        how := BpContinue();
      }
    }

    /** The part of `step1` before `step_routine` is set. */
    method SetStops(kind: Kind) returns (how: Ending)
      requires Valid()
      modifies `ret, table
      ensures Valid() && End(State(), how) == Place(old(State()), kind)
    {
      var pc: int := epc;
      if epc !in text.words {
        return Failed(BadAddress(epc));
      }
      var inst := text.words[epc];
      if IsBranch(inst) {
        if IsJal(inst) {
          ret := Mod32(pc + 8);
        }
        var slot := Mod32(pc + 4);
        if slot !in text.words {
          return Failed(BadAddress(slot));
        }
        if IsBranch(text.words[slot]) {
          return Failed(BranchInDelaySlot);
        }
        var target := BranchTarget(inst, epc, regs);
        how := Running;
        if target == epc {
          if !IsConditional(inst) {
            return Failed(SelfBranch);
          }
        } else if IsRom(target) {
          how := NewBrkpt(ret, TEMP);
        } else {
          how := NewBrkpt(target, kind);
        }
        if how == Running && IsConditional(inst) {
          how := NewBrkpt(Mod32(pc + 8), kind);
        }
      } else {
        how := NewBrkpt(Mod32(pc + 4), kind);
      }
    }

    /** step2 */
    method StepOver(kind: Kind) returns (how: Ending)
      requires Valid() && Good(State()) && (kind == CONT || kind == TEMP)
      modifies this, table
      ensures Valid() && End(State(), how) == DoStep2(old(State()), kind)
    {
      PlaceOverKeeps(State(), kind);
      how := SetStopsOver(kind);
      if how == Running {
        stepper := Step2;
        how := BpContinue();
      }
    }

    /** The part of `step2` before `step_routine` is set. */
    method SetStopsOver(kind: Kind) returns (how: Ending)
      requires Valid()
      modifies table
      ensures Valid() && End(State(), how) == PlaceOver(old(State()), kind)
    {
      var pc: int := epc;
      if epc !in text.words {
        return Failed(BadAddress(epc));
      }
      var inst := text.words[epc];
      if IsBranch(inst) {
        var slot := Mod32(pc + 4);
        if slot !in text.words {
          return Failed(BadAddress(slot));
        }
        if IsBranch(text.words[slot]) {
          return Failed(BranchInDelaySlot);
        }
        if IsJal(inst) {
          how := NewBrkpt(Mod32(pc + 8), kind);
        } else {
          var target := BranchTarget(inst, epc, regs);
          how := Running;
          if target == epc {
            if !IsConditional(inst) {
              return Failed(SelfBranch);
            }
          } else {
            how := NewBrkpt(target, kind);
          }
          if how == Running && IsConditional(inst) {
            how := NewBrkpt(Mod32(pc + 8), kind);
          }
        }
      } else {
        how := NewBrkpt(Mod32(pc + 4), kind);
      }
    }

    /** _bp_fault */
    method TakeFault() returns (how: Ending)
      requires Valid() && Good(State())
      modifies this, table
      ensures Valid() && End(State(), how) == BpFault(old(State()))
    {
      if saved == TEMP {
        count := count - 1;
        if count > 0 {
          if stepper == Step1 {
            how := StepOnce(TEMP);
          } else {
            how := StepOver(TEMP);
          }
          return;
        }
        return Prompt;
      } else if saved == EMPTY {
        epc := Mod32((epc as int) + 4);
        return Prompt;
      } else if saved == PERM {
        return Prompt;
      } else if saved == CONT {
        how := DoResume();
      } else {
        how := Failed(Fatal("_bp_fault"));
      }
    }

    /** The breakpoints of a `go` command. */
    method AddTemporaries(addrs: seq<word>) returns (how: Ending)
      requires Valid()
      modifies table
      ensures Valid() && End(State(), how) == AddTemps(old(State()), addrs)
    {
      ghost var s := State();
      var i := 0;
      while i < |addrs|
        invariant 0 <= i <= |addrs| && AddTemps(s, addrs) == AddTemps(State(), addrs[i..])
        invariant State() == s.(t := table[..])
      {
        assert addrs[i..][1..] == addrs[i + 1..];
        how := NewBrkpt(addrs[i], TEMP);
        if how != Running { return; }
        i := i + 1;
      }
      how := Running;
    }

    /** The commands. */
    method Obey(ev: Event) returns (how: Ending)
      requires Valid() && Good(State()) && !ev.Trap?
      modifies this, table
      ensures Valid() && End(State(), how) == Command(old(State()), ev)
    {
      match ev
      case Brk(a) =>
        how := NewBrkpt(a, PERM);
        if how == Running { how := Prompt; }
      case Unbrk(n) =>
        if n < NBREAKPOINTS {
          ghost var t: Table := table[..];
          table[n] := table[n].(kind := EMPTY);
          assert table[..] == t[n := t[n].(kind := EMPTY)];
        }
        how := Prompt;
      case ClearAll =>
        ClearBrkpts();
        how := Prompt;
      case GoTo(addrs) =>
        AddTempsKeeps(State(), addrs);
        how := AddTemporaries(addrs);
        if how == Running {
          count := 1;
          how := BpContinue();
        }
      case Cont => how := BpContinue();
      case Step(n) =>
        if n == 0 { return Prompt; }
        count := n;
        how := StepOnce(TEMP);
      case StepOver(n) =>
        if n == 0 { return Prompt; }
        count := n;
        how := StepOver(TEMP);
      case Edit(m, r, pc) =>
        text, regs, epc := m, r, pc;
        how := Prompt;
    }

    /** The client has run and stopped. */
    method ClientStops(ev: Event) returns (how: Ending)
      requires Valid() && Good(State()) && ev.Trap?
      modifies this, table
      ensures Valid() && End(State(), how) == Next(End(old(State()), Running), ev)
    {
      StoppedKeeps(State(), ev);
      text, regs, epc := Written(text, ev.writes), ev.after, ev.epc;
      RemoveBrkpts(ev.inSlot);
      if ev.isBreak {
        how := TakeFault();
      } else {
        how := Prompt;
      }
    }
  }
}
