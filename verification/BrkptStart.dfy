/** When stepping and continuing start the client: the other half of what is proved of a client that runs. */
module BrkptStart {
  import opened Words
  import opened BrkptInst
  import opened BrkptTable
  import opened BrkptText
  import opened BrkptMachine

  // ----- setting breakpoints

  /** The number of free entries. */
  function Free(t: seq<Entry>): nat {
    if t == [] then 0 else Free(t[..|t| - 1]) + if t[|t| - 1].kind == EMPTY then 1 else 0
  }

  lemma {:induction false} FreeAfter(t: seq<Entry>, k: nat, e: Entry)
    requires k < |t|
    ensures Free(t[k := e]) + 1 >= Free(t) && (t[k].kind != EMPTY ==> Free(t[k := e]) >= Free(t))
    decreases |t|
  {
    var front, last := t[..|t| - 1], |t| - 1;
    if k < last {
      FreeAfter(front, k, e);
      assert t[k := e][..last] == front[k := e];
    } else {
      assert t[k := e][..last] == front;
    }
  }

  lemma {:induction false} FreeIsEmpty(t: seq<Entry>)
    ensures Free(t) > 0 ==> exists i :: 0 <= i < |t| && t[i].kind == EMPTY
    decreases |t|
  {
    if Free(t) > 0 && t[|t| - 1].kind != EMPTY {
      FreeIsEmpty(t[..|t| - 1]);
      var i :| 0 <= i < |t| - 1 && t[..|t| - 1][i].kind == EMPTY;
      assert t[i].kind == EMPTY;
    }
  }

  predicate Placeable(m: Text, a: word) {
    a % 4 == 0 && (IsRom(a) || CanWrite(m, a))
  }

  lemma NewRuns(t: Table, m: Text, a: word, kind: Kind)
    requires Inv(t) && (kind == CONT || kind == TEMP) && Placeable(m, a) && Writable(t, m, NBREAKPOINTS)
    requires LookupKind(t, a) != SUSPEND && (LookupKind(t, a) != EMPTY || Free(t) > 0)
    ensures var c := NewBrkpt(t, a, kind);
            && c.Changed? && Inv(c.t) && Writable(c.t, m, NBREAKPOINTS) && LookupKind(c.t, a) != SUSPEND && LookupKind(c.t, a) != EMPTY
            && (forall b :: b != a ==> LookupKind(c.t, b) == LookupKind(t, b)) && Free(c.t) + 1 >= Free(t)
  {
    FreeIsEmpty(t);
    NewExactly(t, a, kind);
    NewKeepsInv(t, a, kind);
    hide Inv, IsRom, LookupKind;
    var c := NewBrkpt(t, a, kind);
    var i := FindUsed(t, a, 0);
    var k := if i < |t| then i else FindEmpty(t, 0);
    FreeAfter(t, k, c.t[k]);
  }

  /** The instruction can be stepped: it and its delay slot can be read, the slot holds no branch, and it does not only
      lead back to itself. */
  predicate Steppable(s: Mach)
    requires |s.regs| == 32
  {
    s.epc in s.m.words &&
    var i, slot := s.m.words[s.epc], Mod32((s.epc as int) + 4);
    IsBranch(i) ==> slot in s.m.words && !IsBranch(s.m.words[slot]) && (BranchTarget(i, s.epc, s.regs) == s.epc ==> IsConditional(i))
  }

  /** Breakpoints can be set wherever `step1` wants them, which is not where the client is. */
  predicate StopsFine(s: Mach)
    requires |s.regs| == 32
  {
    forall a :: Stop(s, a) ==> Placeable(s.m, a) && Stays(s, a) && LookupKind(s.t, a) != SUSPEND
  }

  /** Room for the stops: they are there already, or two entries are free. */
  predicate RoomForStops(s: Mach)
    requires |s.regs| == 32
  {
    Free(s.t) >= 2 || forall a :: Stop(s, a) ==> LookupKind(s.t, a) != EMPTY
  }

  lemma PlaceRuns(s: Mach, kind: Kind)
    requires Good(s) && (kind == CONT || kind == TEMP) && Steppable(s) && StopsFine(s) && RoomForStops(s) && Writable(s.t, s.m, NBREAKPOINTS)
    ensures var e := Place(s, kind);
            && e.how == Running && Good(e.s) && Writable(e.s.t, s.m, NBREAKPOINTS) && e.s == s.(t := e.s.t, ret := e.s.ret)
            && (forall a :: Stop(s, a) ==> LookupKind(e.s.t, a) != SUSPEND && LookupKind(e.s.t, a) != EMPTY)
            && (forall b :: !Stop(s, b) ==> LookupKind(e.s.t, b) == LookupKind(s.t, b)) && Free(e.s.t) + 2 >= Free(s.t)
  {
    hide NewBrkpt, Inv, LookupKind, IsBranch, IsJal, IsConditional, BranchTarget, IsRom, Mod32, Placeable, Writable, Free,
      Stays;
    var pc: int := s.epc;
    var i := s.m.words[s.epc];
    if !IsBranch(i) {
      NewRuns(s.t, s.m, Mod32(pc + 4), kind);
    } else {
      var target := BranchTarget(i, s.epc, s.regs);
      var first := StopFor(s, target);
      var k := if IsRom(target) then TEMP else kind;
      if target != s.epc {
        assert Stop(s, first);
        NewRuns(s.t, s.m, first, k);
      }
      if IsConditional(i) {
        assert Stop(s, Mod32(pc + 8));
        NewRuns(if target == s.epc then s.t else NewBrkpt(s.t, first, k).t, s.m, Mod32(pc + 8), kind);
      }
    }
  }

  // ----- starting the client

  lemma SuspendRuns(t: Table, m: Text, a: word)
    requires Inv(t) && IsBrkpt(t, a) && LookupKind(t, a) != CONT && Writable(t, m, NBREAKPOINTS)
    ensures var c := Suspend(t, a, 0);
            && c.Changed? && Inv(c.t) && Writable(c.t, m, NBREAKPOINTS) && LookupKind(c.t, a) == SUSPEND
            && (forall b :: b != a ==> LookupKind(c.t, b) == LookupKind(t, b)) && Free(c.t) >= Free(t)
  {
    KindSays(t, a);
    SuspendFrom(t, a, 0);
    SuspendKeepsInv(t, a);
    var t', k := Suspend(t, a, 0).t, FindUsed(t, a, 0);
    KindSays(t', a);
    OthersSame(t, t', k, a);
    FreeAfter(t, k, t'[k]);
  }

  /** What the client needs to be started from where it is. */
  predicate Startable(s: Mach)
    requires |s.regs| == 32
  {
    && Steppable(s) && StopsFine(s) && RoomForStops(s) && LookupKind(s.t, s.epc) != CONT
    && (IsBranch(s.m.words[s.epc]) ==> LookupKind(s.t, Mod32((s.epc as int) + 4)) != CONT)
  }

  lemma ResumeRuns(s: Mach)
    requires Good(s) && Writable(s.t, s.m, NBREAKPOINTS)
    ensures Resume(s).how == Running
  {
    AllWritten(s.t, s.m, s.bp);
  }

  /** The same instruction with another table that says the same of all stops. */
  lemma StartableToo(s: Mach, s': Mach)
    requires |s.regs| == 32 && Steppable(s) && StopsFine(s) && s' == s.(t := s'.t, ret := s'.ret, stepper := s'.stepper)
    requires s'.ret == s.ret || IsJal(s.m.words[s.epc])
    requires forall a :: Stop(s, a) ==> LookupKind(s'.t, a) != SUSPEND
    ensures Steppable(s') && StopsFine(s') && forall a :: Stop(s', a) <==> Stop(s, a)
  {
    hide Inv, LookupKind, IsBranch, IsJal, IsConditional, BranchTarget, IsRom, Mod32, Placeable, Stop;
    forall a ensures Stop(s', a) <==> Stop(s, a) { SameStops(s, s', a); }
  }

  /** After its breakpoints have been set, the client starts, if none is where it is. */
  lemma PlacedRuns(s: Mach, kind: Kind)
    requires Good(s) && (kind == CONT || kind == TEMP) && Steppable(s) && StopsFine(s) && RoomForStops(s) && Writable(s.t, s.m, NBREAKPOINTS)
    requires !AtBrkpt(s)
    ensures DoStep1(s, kind).how == Running
  {
    hide Inv, LookupKind, IsBranch, IsJal, Stop, Mod32, Place, Writable, RoomForStops, IsBrkpt, Resume;
    PlaceRuns(s, kind);
    PlaceKeeps(s, kind);
    var p := Place(s, kind).s.(stepper := Step1);
    var slot := Mod32((s.epc as int) + 4);
    KindSays(s.t, s.epc);
    KindSays(s.t, slot);
    KindSays(p.t, s.epc);
    KindSays(p.t, slot);
    ResumeRuns(p);
  }

  lemma StartsHere(s: Mach)
    requires Good(s) && !AtBrkpt(s) && s.epc in s.m.words
    ensures Continue(s) == Resume(s)
  {
    hide Resume, IsBrkpt, IsBranch;
  }

  /** Continuing starts the client. */
  lemma ContinueRuns(s: Mach)
    requires Good(s) && Startable(s) && Writable(s.t, s.m, NBREAKPOINTS)
    ensures Continue(s).how == Running
  {
    hide Inv, LookupKind, IsBranch, IsJal, Stop, Mod32, DoStep1, Writable, IsBrkpt, IsSuspended, Resume, Free, Steppable, Suspend;
    var slot := Mod32((s.epc as int) + 4);
    SlotIsNext(s.epc);
    Readable(s);
    if !AtBrkpt(s) {
      StartsHere(s);
      ResumeRuns(s);
    } else {
      var bp1 := IsBrkpt(s.t, s.epc);
      var bp2 := IsBranch(s.m.words[s.epc]) && IsBrkpt(s.t, slot);
      if bp1 { SuspendRuns(s.t, s.m, s.epc); }
      SuspendStep(s.t, s.epc, bp1);
      var c1 := if bp1 then Suspend(s.t, s.epc, 0) else Changed(s.t);
      if bp2 { SuspendRuns(c1.t, s.m, slot); }
      SuspendStep(c1.t, slot, bp2);
      var c2 := if bp2 then Suspend(c1.t, slot, 0) else Changed(c1.t);
      SuspendCounts(s.t, c1.t, c2.t, s.epc, bp1, bp2);
      var s2 := s.(t := c2.t);
      KindSays(s2.t, s.epc);
      KindSays(s2.t, slot);
      StartableToo(s, s2);
      PlacedRuns(s2, CONT);
    }
  }

  lemma Readable(s: Mach)
    requires |s.regs| == 32 && Steppable(s)
    ensures s.epc in s.m.words
  {}

  /** Stepping starts the client. */
  lemma StepRuns(s: Mach, kind: Kind)
    requires Good(s) && (kind == CONT || kind == TEMP) && Startable(s) && Writable(s.t, s.m, NBREAKPOINTS)
    ensures DoStep1(s, kind).how == Running
  {
    hide Inv, LookupKind, IsBranch, IsJal, Stop, Mod32, Place, Writable, Continue, Free, Steppable;
    PlaceRuns(s, kind);
    PlaceKeeps(s, kind);
    Readable(s);
    PlaceSetsReturn(s, kind);
    var p := Place(s, kind).s.(stepper := Step1);
    StartableToo(s, p);
    ContinueRuns(p);
  }

  // ----- stepping over

  /** The addresses at which `step2` sets breakpoints. */
  predicate OverStops(s: Mach, a: word)
    requires |s.regs| == 32
  {
    var pc: int := s.epc;
    s.epc in s.m.words &&
    var i := s.m.words[s.epc];
    if !IsBranch(i) then a == Mod32(pc + 4)
    else if IsJal(i) then a == Mod32(pc + 8)
    else
      var target := BranchTarget(i, s.epc, s.regs);
      (target != s.epc && a == target) || (IsConditional(i) && a == Mod32(pc + 8))
  }

  predicate OverFine(s: Mach)
    requires |s.regs| == 32
  {
    forall a :: OverStops(s, a) ==> Placeable(s.m, a) && Stays(s, a) && LookupKind(s.t, a) != SUSPEND
  }

  lemma PlaceOverRuns(s: Mach)
    requires Good(s) && Steppable(s) && OverFine(s) && Free(s.t) >= 2 && Writable(s.t, s.m, NBREAKPOINTS)
    ensures var e := PlaceOver(s, TEMP);
            && e.how == Running && Good(e.s) && Writable(e.s.t, s.m, NBREAKPOINTS) && e.s == s.(t := e.s.t)
            && (forall a :: OverStops(s, a) ==> LookupKind(e.s.t, a) != SUSPEND)
            && (forall b :: !OverStops(s, b) ==> LookupKind(e.s.t, b) == LookupKind(s.t, b)) && Free(e.s.t) + 2 >= Free(s.t)
  {
    hide NewBrkpt, Inv, LookupKind, IsBranch, IsJal, IsConditional, BranchTarget, IsRom, Mod32, Placeable, Writable, Free,
      Stays;
    var pc: int := s.epc;
    var i := s.m.words[s.epc];
    JalIsBranch(i);
    if !IsBranch(i) {
      NewRuns(s.t, s.m, Mod32(pc + 4), TEMP);
    } else if IsJal(i) {
      NewRuns(s.t, s.m, Mod32(pc + 8), TEMP);
    } else {
      var target := BranchTarget(i, s.epc, s.regs);
      if target != s.epc {
        NewRuns(s.t, s.m, target, TEMP);
      }
      if IsConditional(i) {
        NewRuns(if target == s.epc then s.t else NewBrkpt(s.t, target, TEMP).t, s.m, Mod32(pc + 8), TEMP);
      }
    }
  }

  /** Stepping over starts the client, if there are entries enough for the stops of both kinds of step. */
  lemma OverRuns(s: Mach)
    requires Good(s) && Startable(s) && OverFine(s) && Free(s.t) >= 4 && Writable(s.t, s.m, NBREAKPOINTS)
    ensures DoStep2(s, TEMP).how == Running
  {
    hide Inv, LookupKind, IsBranch, IsJal, Stop, OverStops, Mod32, PlaceOver, Writable, Continue, Free, Steppable;
    PlaceOverRuns(s);
    Readable(s);
    var p := PlaceOver(s, TEMP).s.(stepper := Step2);
    StartableToo(s, p);
    ContinueRuns(p);
  }
}
