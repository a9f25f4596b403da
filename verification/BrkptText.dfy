/** Putting breakpoints into the client's text and taking them out again. */
module BrkptText {
  import opened Words
  import opened BrkptInst
  import opened BrkptTable

  /** The client's memory: the words that can be read, and which of them fault when written. */
  datatype Text = Text(words: map<word, word>, readonly: set<word>)

  predicate CanWrite(m: Text, a: word) { a in m.words && a !in m.readonly }

  /** A store; into ROM it has no effect. */
  function Put(m: Text, a: word, w: word): Text {
    if CanWrite(m, a) && !IsRom(a) then m.(words := m.words[a := w]) else m
  }

  /** An entry whose breakpoint is written into the text. */
  predicate Patches(e: Entry) { Live(e) && !IsRom(e.addr) }

  datatype Installation = Installed(t: Table, m: Text) | InstallFault(t: Table, m: Text, addr: word)

  /** _install_brkpts, from entry i on; `bp` is the breakpoint instruction. */
  function Install(t: Table, m: Text, bp: word, i: nat): Installation
    requires i <= |t|
    decreases |t| - i
  {
    if i == |t| then Installed(t, m)
    else
      var a := t[i].addr;
      if !Patches(t[i]) then Install(t, m, bp, i + 1)
      else if a !in m.words then Undo(t, m, 0, i)
      else
        var t' := t[i := t[i].(inst := m.words[a])];
        if !CanWrite(m, a) then Undo(t', m, 0, i) else Install(t', Put(m, a, bp), bp, i + 1)
  }

  /** The clean-up after a fault at entry i, from entry j on. */
  function Undo(t: Table, m: Text, j: nat, i: nat): Installation
    requires j <= i < |t|
    decreases i - j
  {
    if j == i then InstallFault(t[i := t[i].(kind := EMPTY)], m, t[i].addr)
    else if t[j].kind == EMPTY then Undo(t, m, j + 1, i)
    else
      var m' := if t[j].kind != SUSPEND then Put(m, t[j].addr, t[j].inst) else m;
      Undo(t[j := t[j].(kind := UndoneKind(t[j]))], m', j + 1, i)
  }

  /** _remove_brkpts, from entry i on. */
  function Remove(t: Table, m: Text, saved: Kind, i: nat): (r: (Table, Text))
    requires i <= |t|
    decreases |t| - i
  {
    if i == |t| then (t, m)
    else
      var m' := if Patches(t[i]) then Put(m, t[i].addr, t[i].inst) else m;
      Remove(t[i := t[i].(kind := RemovedKind(t[i], saved))], m', saved, i + 1)
  }

  // ----- what they do

  predicate PatchedAt(t: seq<Entry>, lo: nat, hi: nat, a: word)
    requires hi <= |t|
  {
    exists i :: lo <= i < hi && Patches(t[i]) && t[i].addr == a
  }

  /** m with the breakpoints of entries lo to hi in it. */
  ghost function Patched(m: Text, t: seq<Entry>, bp: word, lo: nat, hi: nat): Text
    requires hi <= |t|
  {
    m.(words := map a | a in m.words :: if PatchedAt(t, lo, hi, a) then bp else m.words[a])
  }

  /** t' is t with the replaced instructions of entries below n recorded. */
  ghost predicate Recorded(t: Table, t': Table, m: Text, n: nat) {
    n <= |t| && forall i :: 0 <= i < |t| ==>
      t'[i] == if i < n && Patches(t[i]) && t[i].addr in m.words then t[i].(inst := m.words[t[i].addr]) else t[i]
  }

  /** All breakpoints below n could be written. */
  ghost predicate Writable(t: seq<Entry>, m: Text, n: nat) {
    n <= |t| && forall i :: 0 <= i < n && Patches(t[i]) ==> CanWrite(m, t[i].addr)
  }

  lemma NonePatched(m: Text, t: seq<Entry>, bp: word, n: nat)
    requires n <= |t|
    ensures Patched(m, t, bp, n, n) == m
  {
    assert Patched(m, t, bp, n, n).words == m.words;
  }

  lemma PatchOne(m: Text, t: Table, bp: word, i: nat)
    requires i < |t|
    ensures Patches(t[i]) && CanWrite(m, t[i].addr) ==>
              Put(Patched(m, t, bp, 0, i), t[i].addr, bp) == Patched(m, t, bp, 0, i + 1)
    ensures !Patches(t[i]) ==> Patched(m, t, bp, 0, i) == Patched(m, t, bp, 0, i + 1)
  {
    var m1, m2 := Patched(m, t, bp, 0, i), Patched(m, t, bp, 0, i + 1);
    forall a | a in m.words
      ensures PatchedAt(t, 0, i + 1, a) <==> PatchedAt(t, 0, i, a) || (Patches(t[i]) && t[i].addr == a)
    {}
    if Patches(t[i]) && CanWrite(m, t[i].addr) {
      assert Put(m1, t[i].addr, bp).words == m2.words;
    } else if !Patches(t[i]) {
      assert m1.words == m2.words;
    }
  }

  /** Taking out the breakpoint of the first patched entry. */
  lemma UnpatchOne(m: Text, t: Table, bp: word, j: nat, hi: nat)
    requires Inv(t) && j < hi <= |t| && Writable(t, m, hi)
    ensures Patches(t[j]) ==>
              && t[j].addr in m.words
              && Put(Patched(m, t, bp, j, hi), t[j].addr, m.words[t[j].addr]) == Patched(m, t, bp, j + 1, hi)
    ensures !Patches(t[j]) ==> Patched(m, t, bp, j, hi) == Patched(m, t, bp, j + 1, hi)
  {
    var m1, m2 := Patched(m, t, bp, j, hi), Patched(m, t, bp, j + 1, hi);
    forall a | a in m.words
      ensures PatchedAt(t, j, hi, a) <==> PatchedAt(t, j + 1, hi, a) || (Patches(t[j]) && t[j].addr == a)
    {}
    if Patches(t[j]) {
      var a := t[j].addr;
      assert !PatchedAt(t, j + 1, hi, a) by {
        forall k | j < k < hi ensures !(Patches(t[k]) && t[k].addr == a) {}
      }
      assert Put(m1, a, m.words[a]).words == m2.words;
    } else {
      assert m1.words == m2.words;
    }
  }

  /** The table while a failed installation is being undone: entries below j are done. */
  ghost predicate Undoing(t: Table, u: Table, m: Text, j: nat, i: nat) {
    j <= i < |t| && forall l :: 0 <= l < |t| ==>
      && u[l].addr == t[l].addr && u[l].oldkind == t[l].oldkind
      && u[l].kind == (if l < j then UndoneKind(t[l]) else t[l].kind)
      && (l < i && Patches(t[l]) && t[l].addr in m.words ==> u[l].inst == m.words[t[l].addr])
  }

  lemma {:induction false} UndoRestores(t: Table, u: Table, m: Text, bp: word, j: nat, i: nat)
    requires Inv(t) && Undoing(t, u, m, j, i) && Writable(t, m, i)
    ensures var r := Undo(u, Patched(m, t, bp, j, i), j, i);
            r.m == m && Undone(t, r, m, i)
    decreases i - j
  {
    if j == i {
      NonePatched(m, t, bp, i);
    } else {
      UnpatchOne(m, t, bp, j, i);
      var u' := u[j := u[j].(kind := UndoneKind(u[j]))];
      if u[j].kind == EMPTY {
        assert u' == u;
      } else if u[j].kind != SUSPEND && IsRom(t[j].addr) {
        assert Put(Patched(m, t, bp, j, i), u[j].addr, u[j].inst) == Patched(m, t, bp, j, i);
      }
      UndoRestores(t, u', m, bp, j + 1, i);
    }
  }

  /** Entry k was bad: it is dropped, those before it are undone, and those after it are as they were. */
  ghost predicate Undone(t: Table, r: Installation, m: Text, k: nat) {
    && k < |t| && r.InstallFault? && r.addr == t[k].addr && r.t[k].kind == EMPTY
    && Undoing(t, r.t[k := r.t[k].(kind := t[k].kind)], m, k, k)
  }

  /** The first entry that cannot be written. */
  ghost predicate FirstBad(t: Table, m: Text, k: nat) {
    k < |t| && Writable(t, m, k) && Patches(t[k]) && !CanWrite(m, t[k].addr)
  }

  /** Installation writes every breakpoint and records what was there; or, if some word cannot be read or
      written, puts back all the text already patched, undoes what was temporary, and drops the bad entry. */
  lemma {:induction false} InstallsOrRestores(t: Table, u: Table, m: Text, bp: word, i: nat)
    requires Inv(t) && i <= |t| && Recorded(t, u, m, i) && Writable(t, m, i)
    ensures var r := Install(u, Patched(m, t, bp, 0, i), bp, i);
            if r.Installed? then
              Writable(t, m, |t|) && Recorded(t, r.t, m, |t|) && r.m == Patched(m, t, bp, 0, |t|)
            else
              r.m == m && exists k :: FirstBad(t, m, k) && Undone(t, r, m, k)
    decreases |t| - i
  {
    if i < |t| {
      var m1 := Patched(m, t, bp, 0, i);
      PatchOne(m, t, bp, i);
      var a := t[i].addr;
      if !Patches(t[i]) {
        InstallsOrRestores(t, u, m, bp, i + 1);
      } else {
        assert a in m1.words <==> a in m.words;
        if a !in m.words {
          UndoRestores(t, u, m, bp, 0, i);
          assert FirstBad(t, m, i);
        } else {
          assert !PatchedAt(t, 0, i, a) by {
            forall k | 0 <= k < i ensures !(Patches(t[k]) && t[k].addr == a) {}
          }
          assert m1.words[a] == m.words[a];
          var u' := u[i := u[i].(inst := m.words[a])];
          if CanWrite(m, a) {
            InstallsOrRestores(t, u', m, bp, i + 1);
          } else {
            UndoRestores(t, u', m, bp, 0, i);
            assert FirstBad(t, m, i);
          }
        }
      }
    }
  }

  /** Removing what was recorded restores the text, and changes each entry's type as said. */
  lemma {:induction false} RemoveRestores(t: Table, u: Table, v: Table, m: Text, bp: word, saved: Kind, i: nat)
    requires Inv(t) && i <= |t| && Recorded(t, u, m, |t|) && Writable(t, m, |t|)
    requires forall l :: 0 <= l < |t| ==> v[l] == if l < i then u[l].(kind := RemovedKind(u[l], saved)) else u[l]
    ensures var r := Remove(v, Patched(m, t, bp, i, |t|), saved, i);
            r.1 == m && forall l :: 0 <= l < |t| ==> r.0[l] == u[l].(kind := RemovedKind(u[l], saved))
    decreases |t| - i
  {
    if i == |t| {
      NonePatched(m, t, bp, i);
    } else {
      UnpatchOne(m, t, bp, i, |t|);
      RemoveRestores(t, u, v[i := v[i].(kind := RemovedKind(v[i], saved))], m, bp, saved, i + 1);
    }
  }

  /** Installing and then removing breakpoints leaves the client's text as it was, whatever the table holds. */
  lemma InstallThenRemove(t: Table, m: Text, bp: word, saved: Kind)
    requires Inv(t)
    ensures var r := Install(t, m, bp, 0);
            if r.Installed? then Remove(r.t, r.m, saved, 0).1 == m else r.m == m
  {
    NonePatched(m, t, bp, 0);
    InstallsOrRestores(t, t, m, bp, 0);
    var r := Install(t, m, bp, 0);
    if r.Installed? {
      RemoveRestores(t, r.t, r.t, m, bp, saved, 0);
    }
  }
}
