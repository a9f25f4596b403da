/** The breakpoint table of SA/dbgmon/brkpt.c as a value, and what each operation on it does. */
module BrkptTable {
  import opened Words
  import opened BrkptInst

  const NBREAKPOINTS := 16

  /** Breakpoint types; their order matters in `new_brkpt`. */
  type Kind = k: int | 0 <= k <= 4
  const EMPTY: Kind := 0
  const SUSPEND: Kind := 1
  const CONT: Kind := 2
  const TEMP: Kind := 3
  const PERM: Kind := 4

  datatype Entry = Entry(addr: word, inst: word, kind: Kind, oldkind: Kind)

  type Table = t: seq<Entry> | |t| == NBREAKPOINTS witness Blank(NBREAKPOINTS)

  function Blank(n: nat): (t: seq<Entry>)
    ensures |t| == n
  {
    if n == 0 then [] else [Entry(0, 0, EMPTY, EMPTY)] + Blank(n - 1)
  }

  predicate Used(e: Entry, a: word) { e.kind != EMPTY && e.addr == a }

  /** A breakpoint that will be put into the text. */
  predicate Live(e: Entry) { e.kind != EMPTY && e.kind != SUSPEND }

  /** No two entries share an address, a suspended entry remembers a temporary or permanent one, and every
      entry is at an instruction boundary. */
  ghost predicate Inv(t: Table) {
    && (forall i, j :: 0 <= i < j < |t| && t[i].kind != EMPTY && t[j].kind != EMPTY ==> t[i].addr != t[j].addr)
    && (forall i :: 0 <= i < |t| && t[i].kind == SUSPEND ==> t[i].oldkind == TEMP || t[i].oldkind == PERM)
    && (forall i :: 0 <= i < |t| && t[i].kind != EMPTY ==> t[i].addr % 4 == 0)
  }

  /** The index of the first entry from i on that is in use at a, or the length of the table. */
  function FindUsed(t: seq<Entry>, a: word, i: nat): (r: nat)
    requires i <= |t|
    ensures i <= r <= |t|
    ensures r < |t| ==> Used(t[r], a)
    ensures forall j :: i <= j < r ==> !Used(t[j], a)
    decreases |t| - i
  {
    if i == |t| || Used(t[i], a) then i else FindUsed(t, a, i + 1)
  }

  function FindEmpty(t: seq<Entry>, i: nat): (r: nat)
    requires i <= |t|
    ensures i <= r <= |t|
    ensures r < |t| ==> t[r].kind == EMPTY
    ensures forall j :: i <= j < r ==> t[j].kind != EMPTY
    decreases |t| - i
  {
    if i == |t| || t[i].kind == EMPTY then i else FindEmpty(t, i + 1)
  }

  /** What ends an operation early: `_dbg_error` goes back to the command loop, `_fatal_error` does not return. */
  datatype Trouble =
    | NotOnBoundary
    | TableFull
    | BranchInDelaySlot
    | SelfBranch
    | BadBreakpoint(addr: word)
    | BadAddress(addr: word)
    | Fatal(where: string)

  datatype Change = Changed(t: Table) | Refused(why: Trouble)

  /** new_brkpt */
  function NewBrkpt(t: Table, a: word, kind: Kind): Change {
    if a % 4 != 0 then Refused(NotOnBoundary)
    else
      var i := FindUsed(t, a, 0);
      if i < |t| then
        if t[i].kind == SUSPEND then Refused(Fatal("new_brkpt"))
        else Changed(t[i := t[i].(kind := if kind > t[i].kind then kind else t[i].kind)])
      else
        var e := FindEmpty(t, 0);
        if e == |t| then Refused(TableFull) else Changed(t[e := t[e].(addr := a, kind := kind)])
  }

  /** suspend_brkpt, from entry i on */
  function Suspend(t: Table, pc: word, i: nat): Change
    requires i <= |t|
    decreases |t| - i
  {
    if i == |t| then Changed(t)
    else if !Used(t[i], pc) then Suspend(t, pc, i + 1)
    else if t[i].kind == PERM || t[i].kind == TEMP then
      Suspend(t[i := t[i].(oldkind := t[i].kind, kind := SUSPEND)], pc, i + 1)
    else Refused(Fatal("suspend_brkpt"))
  }

  /** is_brkpt */
  predicate IsBrkpt(t: Table, pc: word) {
    exists i :: 0 <= i < |t| && Live(t[i]) && t[i].addr == pc
  }

  /** lookup_bptype */
  function LookupKind(t: Table, pc: word): Kind {
    var i := FindUsed(t, pc, 0);
    if i < |t| then t[i].kind else EMPTY
  }

  /** What removal does to one entry's type; `saved` is the type of the breakpoint that stopped the client. */
  function RemovedKind(e: Entry, saved: Kind): Kind {
    if e.kind == EMPTY then EMPTY
    else if e.kind != SUSPEND && IsRom(e.addr) then e.kind
    else if (e.kind == TEMP && saved != CONT) || e.kind == CONT then EMPTY
    else if e.kind == SUSPEND then e.oldkind
    else e.kind
  }

  /** What undoing a failed installation does to the type of an entry before the bad one. */
  function UndoneKind(e: Entry): Kind {
    if e.kind == TEMP || e.kind == CONT then EMPTY
    else if e.kind == SUSPEND then e.oldkind
    else e.kind
  }

  // ----- the invariant

  lemma NewKeepsInv(t: Table, a: word, kind: Kind)
    requires Inv(t) && (kind == CONT || kind == TEMP || kind == PERM) && NewBrkpt(t, a, kind).Changed?
    ensures var t' := NewBrkpt(t, a, kind).t;
            && Inv(t') && IsBrkpt(t', a)
            && (forall b :: b != a ==> (IsBrkpt(t', b) <==> IsBrkpt(t, b)))
            && (forall b :: IsSuspended(t', b) <==> IsSuspended(t, b))
            && (forall b :: HasPerm(t, b) ==> HasPerm(t', b))
            && !IsSuspended(t, a)
  {
    var t' := NewBrkpt(t, a, kind).t;
    var i := FindUsed(t, a, 0);
    var k := if i < |t| then i else FindEmpty(t, 0);
    assert Live(t'[k]) && t'[k].addr == a;
    forall b ensures IsSuspended(t', b) <==> IsSuspended(t, b) {
      forall j | 0 <= j < |t| ensures (t'[j].kind == SUSPEND && t'[j].addr == b) <==> (t[j].kind == SUSPEND && t[j].addr == b) {}
    }
    forall b | HasPerm(t, b) ensures HasPerm(t', b) {
      var j :| 0 <= j < |t| && t[j].addr == b && (t[j].kind == PERM || (t[j].kind == SUSPEND && t[j].oldkind == PERM));
      assert t'[j].addr == b && t'[j].kind == t[j].kind && t'[j].oldkind == t[j].oldkind;
    }
    forall j | 0 <= j < |t| ensures !(t[j].kind == SUSPEND && t[j].addr == a) {
      if j < k { assert i == |t| || !Used(t[j], a); }
    }
    forall b | b != a ensures IsBrkpt(t', b) <==> IsBrkpt(t, b) {
      forall j | 0 <= j < |t| ensures (Live(t'[j]) && t'[j].addr == b) <==> (Live(t[j]) && t[j].addr == b) {
        if j != k { assert t'[j] == t[j]; }
      }
    }
  }

  /** Suspending: exactly the entry at pc, if there is one, and only a temporary or permanent one. */
  lemma {:induction false} SuspendFrom(t: Table, pc: word, i: nat)
    requires Inv(t) && i <= |t| && forall j :: 0 <= j < i ==> !Used(t[j], pc) || t[j].kind == SUSPEND
    requires (exists j :: 0 <= j < i && Used(t[j], pc)) ==> forall j :: i <= j < |t| ==> !Used(t[j], pc)
    ensures var c := Suspend(t, pc, i);
            var k := FindUsed(t, pc, i);
            if k == |t| then c == Changed(t)
            else if t[k].kind == PERM || t[k].kind == TEMP then
              c == Changed(t[k := t[k].(oldkind := t[k].kind, kind := SUSPEND)])
            else c == Refused(Fatal("suspend_brkpt"))
    decreases |t| - i
  {
    if i < |t| {
      if !Used(t[i], pc) {
        SuspendFrom(t, pc, i + 1);
      } else if t[i].kind == PERM || t[i].kind == TEMP {
        var t' := t[i := t[i].(oldkind := t[i].kind, kind := SUSPEND)];
        forall j | i < j < |t| ensures !Used(t'[j], pc) {}
        SuspendRest(t', pc, i + 1);
      }
    }
  }

  lemma {:induction false} SuspendRest(t: Table, pc: word, i: nat)
    requires i <= |t| && forall j :: i <= j < |t| ==> !Used(t[j], pc)
    ensures Suspend(t, pc, i) == Changed(t)
    decreases |t| - i
  {
    if i < |t| {
      SuspendRest(t, pc, i + 1);
    }
  }

  /** An entry is suspended at a. */
  predicate IsSuspended(t: Table, a: word) {
    exists i :: 0 <= i < |t| && t[i].kind == SUSPEND && t[i].addr == a
  }

  /** A permanent breakpoint stands at a, perhaps suspended for the moment. */
  predicate HasPerm(t: Table, a: word) {
    exists i :: 0 <= i < |t| && t[i].addr == a && (t[i].kind == PERM || (t[i].kind == SUSPEND && t[i].oldkind == PERM))
  }

  /** A temporary or permanent breakpoint stands at a: a client that reaches it has really stopped. */
  predicate IsFirm(t: Table, a: word) {
    exists i :: 0 <= i < |t| && t[i].addr == a && (t[i].kind == TEMP || t[i].kind == PERM)
  }

  lemma NewKeepsFirm(t: Table, a: word, kind: Kind)
    requires Inv(t) && (kind == CONT || kind == TEMP || kind == PERM) && NewBrkpt(t, a, kind).Changed?
    ensures var t' := NewBrkpt(t, a, kind).t;
            (kind == TEMP ==> IsFirm(t', a)) && forall b :: IsFirm(t, b) ==> IsFirm(t', b)
  {
    var t' := NewBrkpt(t, a, kind).t;
    var i := FindUsed(t, a, 0);
    var k := if i < |t| then i else FindEmpty(t, 0);
    assert t'[k].addr == a && (kind == TEMP ==> t'[k].kind == TEMP || t'[k].kind == PERM);
    forall b | IsFirm(t, b) ensures IsFirm(t', b) {
      var j :| 0 <= j < |t| && t[j].addr == b && (t[j].kind == TEMP || t[j].kind == PERM);
      assert t'[j].addr == b && (t'[j].kind == TEMP || t'[j].kind == PERM);
    }
  }

  lemma SuspendKeepsFirm(t: Table, pc: word)
    requires Inv(t) && IsBrkpt(t, pc) && Suspend(t, pc, 0).Changed?
    ensures forall b :: b != pc && IsFirm(t, b) ==> IsFirm(Suspend(t, pc, 0).t, b)
  {
    SuspendFrom(t, pc, 0);
    var t' := Suspend(t, pc, 0).t;
    forall b | b != pc && IsFirm(t, b) ensures IsFirm(t', b) {
      var j :| 0 <= j < |t| && t[j].addr == b && (t[j].kind == TEMP || t[j].kind == PERM);
      assert t'[j] == t[j];
    }
  }

  /** What the table says of such an address when the client stops there. */
  lemma FirmKind(t: Table, a: word)
    requires Inv(t) && IsFirm(t, a)
    ensures LookupKind(t, a) == TEMP || LookupKind(t, a) == PERM
  {
    var j :| 0 <= j < |t| && t[j].addr == a && (t[j].kind == TEMP || t[j].kind == PERM);
    assert Used(t[j], a);
    assert FindUsed(t, a, 0) == j;
  }

  lemma SuspendKeepsInv(t: Table, pc: word)
    requires Inv(t) && IsBrkpt(t, pc) && Suspend(t, pc, 0).Changed?
    ensures var t' := Suspend(t, pc, 0).t;
            && Inv(t') && !IsSuspended(t, pc) && IsSuspended(t', pc) && !IsBrkpt(t', pc)
            && (forall b :: b != pc ==> (IsBrkpt(t', b) <==> IsBrkpt(t, b)) && (IsSuspended(t', b) <==> IsSuspended(t, b)))
            && (forall b :: HasPerm(t, b) <==> HasPerm(t', b))
  {
    SuspendFrom(t, pc, 0);
    var k := FindUsed(t, pc, 0);
    var t' := Suspend(t, pc, 0).t;
    assert t'[k].kind == SUSPEND && t'[k].addr == pc;
    OneEntryChanged(t, t', k, pc);
    forall j | 0 <= j < |t| ensures !(Live(t'[j]) && t'[j].addr == pc) && (t[j].kind == SUSPEND ==> t[j].addr != pc) {
      if j < k { assert !Used(t[j], pc); }
    }
  }

  /** When only entry k, for address a, differs, what the table says of other addresses is the same. */
  lemma OneEntryChanged(t: Table, t': Table, k: nat, a: word)
    requires k < |t| && t[k].kind != EMPTY ==> t[k].addr == a
    requires k < |t| && t'[k].addr == a && t' == t[k := t'[k]]
    ensures forall b :: b != a ==>
              (IsBrkpt(t', b) <==> IsBrkpt(t, b)) && (IsSuspended(t', b) <==> IsSuspended(t, b))
              && (HasPerm(t', b) <==> HasPerm(t, b))
  {
    forall b | b != a
      ensures (IsBrkpt(t', b) <==> IsBrkpt(t, b)) && (IsSuspended(t', b) <==> IsSuspended(t, b)) && (HasPerm(t', b) <==> HasPerm(t, b))
    {
      forall j | 0 <= j < |t| ensures t'[j] == t[j] || j == k {}
      if IsBrkpt(t, b) { var j :| 0 <= j < |t| && Live(t[j]) && t[j].addr == b; assert Live(t'[j]); }
      if IsBrkpt(t', b) { var j :| 0 <= j < |t| && Live(t'[j]) && t'[j].addr == b; assert Live(t[j]); }
      if IsSuspended(t, b) { var j :| 0 <= j < |t| && t[j].kind == SUSPEND && t[j].addr == b; assert t'[j] == t[j]; }
      if IsSuspended(t', b) { var j :| 0 <= j < |t| && t'[j].kind == SUSPEND && t'[j].addr == b; assert t'[j] == t[j]; }
    }
  }

  // ----- the type at each address

  /** An entry is free. */
  predicate HasEmpty(t: Table) {
    exists i :: 0 <= i < |t| && t[i].kind == EMPTY
  }

  lemma KindAt(t: Table, a: word, i: nat)
    requires Inv(t) && i < |t| && Used(t[i], a)
    ensures FindUsed(t, a, 0) == i && LookupKind(t, a) == t[i].kind
  {}

  lemma NoKind(t: Table, a: word)
    ensures LookupKind(t, a) == EMPTY <==> forall i :: 0 <= i < |t| ==> !Used(t[i], a)
  {}

  /** What the table says, by the type at an address. */
  lemma KindSays(t: Table, a: word)
    requires Inv(t)
    ensures var k := LookupKind(t, a);
            && (IsSuspended(t, a) <==> k == SUSPEND) && (IsBrkpt(t, a) <==> k == CONT || k == TEMP || k == PERM)
            && (IsFirm(t, a) <==> k == TEMP || k == PERM) && (k == PERM ==> HasPerm(t, a))
            && (HasPerm(t, a) ==> k == PERM || k == SUSPEND)
  {
    var i := FindUsed(t, a, 0);
    if i < |t| { assert Used(t[i], a); }
    forall j | 0 <= j < |t| && t[j].kind != EMPTY && t[j].addr == a ensures j == i { KindAt(t, a, j); }
    if IsFirm(t, a) {
      var j :| 0 <= j < |t| && t[j].addr == a && (t[j].kind == TEMP || t[j].kind == PERM);
      assert j == i;
    }
    if HasPerm(t, a) {
      var j :| 0 <= j < |t| && t[j].addr == a && (t[j].kind == PERM || (t[j].kind == SUSPEND && t[j].oldkind == PERM));
      assert j == i;
    }
  }

  /** new_brkpt succeeds exactly at an instruction boundary where nothing is suspended, if the address has an entry
      or one is free; and the type there becomes the stronger of the two, every other staying. */
  lemma NewExactly(t: Table, a: word, kind: Kind)
    requires Inv(t) && (kind == CONT || kind == TEMP || kind == PERM)
    ensures var c, before := NewBrkpt(t, a, kind), LookupKind(t, a);
            && (c.Changed? <==> a % 4 == 0 && before != SUSPEND && (before != EMPTY || HasEmpty(t)))
            && (c.Changed? ==>
                  && LookupKind(c.t, a) == (if kind > before then kind else before)
                  && forall b :: b != a ==> LookupKind(c.t, b) == LookupKind(t, b))
  {
    var c := NewBrkpt(t, a, kind);
    if c.Changed? {
      NewKeepsInv(t, a, kind);
      var i := FindUsed(t, a, 0);
      var k := if i < |t| then i else FindEmpty(t, 0);
      KindAt(c.t, a, k);
      OthersSame(t, c.t, k, a);
    }
  }

  /** When only entry k changes, and is for address a or not in use, the types at other addresses stay. */
  lemma OthersSame(t: Table, t': Table, k: nat, a: word)
    requires Inv(t) && Inv(t') && k < |t| && t' == t[k := t'[k]] && (t[k].kind == EMPTY || t[k].addr == a) && (t'[k].kind == EMPTY || t'[k].addr == a)
    ensures forall b :: b != a ==> LookupKind(t', b) == LookupKind(t, b)
  {
    forall b | b != a ensures LookupKind(t', b) == LookupKind(t, b) {
      var i := FindUsed(t, b, 0);
      if i < |t| {
        assert i != k && t'[i] == t[i];
        KindAt(t', b, i);
      } else {
        forall j | 0 <= j < |t| ensures !Used(t'[j], b) { assert j == k || t'[j] == t[j]; }
        NoKind(t', b);
      }
    }
  }
}
