/** What `compile` promises about the patterns it accepts, and the two halves of the header put together. */
module RegexpMeaning {
  import opened Words
  import opened RegexpPattern
  import opened RegexpParse
  import opened RegexpTermination
  import N = RegexpNotation
  import C = RegexpCompile
  import M = RegexpMatcher

  function Begun(items: seq<Item>): set<nat> {
    if items == [] then {} else
      var s := Begun(items[..|items| - 1]);
      match Last(items) case Open(g) => s + {g} case _ => s
  }

  function Ended(items: seq<Item>): set<nat> {
    if items == [] then {} else
      var s := Ended(items[..|items| - 1]);
      match Last(items) case Close(g) => s + {g} case _ => s
  }

  /** A reference that stands inside its own group: the group's end is not known there. */
  predicate RefersInside(items: seq<Item>) {
    items != [] &&
    (RefersInside(items[..|items| - 1]) ||
     match Last(items)
     case Back(g) => g in Begun(items) - Ended(items)
     case BackStar(g) => g in Begun(items) - Ended(items)
     case _ => false)
  }

  predicate NulFree(items: seq<Item>) {
    items == [] ||
    (NulFree(items[..|items| - 1]) &&
     match Last(items)
     case One(a) => NulFreeAtom(a)
     case Star(a) => NulFreeAtom(a)
     case Range(a, lo, hi) => NulFreeAtom(a) && lo <= hi
     case _ => true)
  }

  /** `Scoped`, built up from the front. */
  predicate ScopedStep(begun: set<nat>, done: set<nat>, i: Item) {
    match i
    case One(a) => NulFreeAtom(a)
    case Star(a) => NulFreeAtom(a)
    case Range(a, lo, hi) => NulFreeAtom(a) && lo <= hi
    case Dollar => true
    case Open(g) => g < NBRA && g !in begun
    case Close(g) => g in begun && g !in done
    case Back(g) => g in done
    case BackStar(g) => g in done
  }

  function OpensOf(i: Item): set<nat> {
    match i case Open(g) => {g} case _ => {}
  }

  function ClosesOf(i: Item): set<nat> {
    match i case Close(g) => {g} case _ => {}
  }

  lemma {:induction false} FirstGroups(items: seq<Item>)
    requires items != []
    ensures Begun(items) == OpensOf(items[0]) + Begun(items[1..])
    ensures Ended(items) == ClosesOf(items[0]) + Ended(items[1..])
    decreases |items|
  {
    var front := items[..|items| - 1];
    if front == [] {
      assert items[1..] == [];
    } else {
      FirstGroups(front);
      assert front[1..] == items[1..][..|items| - 2];
      assert Last(items[1..]) == Last(items);
    }
  }

  /** `Scoped`, seen from the back. */
  lemma {:induction false} ScopedLast(items: seq<Item>, begun: set<nat>, done: set<nat>)
    requires items != []
    ensures Scoped(items, begun, done) <==>
            Scoped(items[..|items| - 1], begun, done) &&
            ScopedStep(begun + Begun(items[..|items| - 1]), done + Ended(items[..|items| - 1]), Last(items))
    decreases |items|
  {
    var front := items[..|items| - 1];
    if front == [] {
      assert begun + {} == begun && done + {} == done;
      assert items[1..] == [];
    } else {
      var i := items[0];
      assert front[1..] == items[1..][..|items| - 2] && Last(items[1..]) == Last(items);
      FirstGroups(front);
      var b, d := begun + OpensOf(i), done + ClosesOf(i);
      ScopedLast(items[1..], b, d);
      assert b + Begun(front[1..]) == begun + Begun(front);
      assert d + Ended(front[1..]) == done + Ended(front);
      ScopedFirst(items, begun, done);
      ScopedFirst(front, begun, done);
    }
  }

  lemma ScopedFirst(items: seq<Item>, begun: set<nat>, done: set<nat>)
    requires items != []
    ensures Scoped(items, begun, done) <==>
            ScopedStep(begun, done, items[0]) && Scoped(items[1..], begun + OpensOf(items[0]), done + ClosesOf(items[0]))
  {
    assert begun + {} == begun && done + {} == done;
  }

  /** The numbers of the first n groups. */
  function Upto(n: nat): set<nat> {
    if n == 0 then {} else Upto(n - 1) + {n - 1}
  }

  lemma {:induction false} UptoHas(n: nat)
    ensures |Upto(n)| == n
    ensures forall g: nat :: g in Upto(n) <==> g < n
  {
    if n > 0 {
      UptoHas(n - 1);
    }
  }

  /** The stack holds each group begun and not ended, once. */
  ghost predicate StackIs(open: seq<byte>, begun: set<nat>, ended: set<nat>) {
    && ended <= begun
    && (forall g: nat :: g in begun - ended <==> g in open)
    && (forall i, j :: 0 <= i < j < |open| ==> open[i] != open[j])
  }

  lemma StackPush(open: seq<byte>, begun: set<nat>, ended: set<nat>, g: byte)
    requires StackIs(open, begun, ended) && g !in begun
    ensures StackIs(open + [g], begun + {g}, ended)
  {
    var open' := open + [g];
    forall h: nat ensures h in begun + {g} - ended <==> h in open' {
      assert h in open' <==> h in open || h == g;
    }
    forall i, j | 0 <= i < j < |open'| ensures open'[i] != open'[j] {
      assert open'[i] in open;
    }
  }

  lemma StackPop(open: seq<byte>, begun: set<nat>, ended: set<nat>)
    requires StackIs(open, begun, ended) && open != []
    ensures var g := open[|open| - 1];
            g in begun && g !in ended && StackIs(open[..|open| - 1], begun, ended + {g})
  {
    var g := open[|open| - 1];
    var open' := open[..|open| - 1];
    assert g in open;
    forall h: nat ensures h in begun - (ended + {g}) <==> h in open' {
      assert open == open' + [g];
      assert h in open <==> h in open' || h == g;
    }
  }

  /** What every state of the reader keeps: groups are numbered as they open, the stack holds exactly the
      open ones, and only a reference inside its own group, or a NUL, can make the items ill-scoped. */
  ghost predicate Ok(src: seq<byte>, st: State) {
    && st.nbra <= NBRA && Begun(st.items) == Upto(st.nbra) && |Ended(st.items)| == st.closed
    && StackIs(st.open, Begun(st.items), Ended(st.items))
    && (NulFree(st.items) || st.pos >= |src|)
    && (NulFree(st.items) ==> (Scoped(st.items, {}, {}) <==> !RefersInside(st.items)))
  }

  lemma GroupsAdd(items: seq<Item>, i: Item)
    ensures Begun(items + [i]) == Begun(items) + OpensOf(i)
    ensures Ended(items + [i]) == Ended(items) + ClosesOf(i)
    ensures NulFree(items + [i]) ==> NulFree(items)
    ensures Scoped(items + [i], {}, {}) <==> Scoped(items, {}, {}) && ScopedStep(Begun(items), Ended(items), i)
    ensures RefersInside(items + [i]) <==>
            (RefersInside(items) || ((i.Back? || i.BackStar?) && i.group in Begun(items) - Ended(items)))
  {
    assert (items + [i])[..|items|] == items && Last(items + [i]) == i;
    ScopedLast(items + [i], {}, {});
    var none: set<nat> := {};
    assert none + Begun(items) == Begun(items) && none + Ended(items) == Ended(items);
  }

  /** An item that is no group mark; a reference is to a group begun before. */
  lemma AddKeeps(src: seq<byte>, st: State, i: Item, p: nat)
    requires Ok(src, st) && !i.Open? && !i.Close?
    requires i.Back? || i.BackStar? ==> i.group < st.closed
    requires (i.One? || i.Star? || i.Range?) ==> NulFreeAtom(i.atom) || p >= |src|
    requires i.Range? ==> i.lo <= i.hi
    requires st.pos <= p && st.pos < |src|
    ensures Ok(src, st.(pos := p, items := st.items + [i]))
  {
    assert (st.items + [i])[..|st.items|] == st.items;
    GroupsAdd(st.items, i);
    UptoHas(st.nbra);
    SubsetSize(Ended(st.items), Begun(st.items));
  }

  lemma SubsetSize(a: set<nat>, b: set<nat>)
    requires a <= b
    ensures |a| <= |b|
  {
    assert b == a + (b - a);
  }

  lemma OpenKeeps(src: seq<byte>, st: State, p: nat)
    requires Ok(src, st) && st.nbra < NBRA && st.pos < |src| && st.pos <= p
    ensures Ok(src, st.(pos := p, items := st.items + [Open(st.nbra)], open := st.open + [st.nbra], nbra := st.nbra + 1))
  {
    NulFreeAdd(st.items, Open(st.nbra));
    GroupsAdd(st.items, Open(st.nbra));
    UptoHas(st.nbra);
    StackPush(st.open, Begun(st.items), Ended(st.items), st.nbra);
    hide StackIs, Begun, Ended, NulFree, Scoped, RefersInside;
    assert Ended(st.items) + {} == Ended(st.items);
  }

  lemma CloseKeeps(src: seq<byte>, st: State, p: nat)
    requires Ok(src, st) && st.open != [] && st.pos < |src| && st.pos <= p
    ensures var top := |st.open| - 1;
            Ok(src, st.(pos := p, items := st.items + [Close(st.open[top])], open := st.open[..top], closed := st.closed + 1))
  {
    var g := st.open[|st.open| - 1];
    NulFreeAdd(st.items, Close(g));
    GroupsAdd(st.items, Close(g));
    StackPop(st.open, Begun(st.items), Ended(st.items));
    hide StackIs, Begun, Ended, NulFree, Scoped, RefersInside;
    assert Begun(st.items) + {} == Begun(st.items);
  }

  lemma NulFreeAdd(items: seq<Item>, i: Item)
    requires i.Open? || i.Close?
    ensures NulFree(items + [i]) <==> NulFree(items)
  {
    assert (items + [i])[..|items|] == items && Last(items + [i]) == i;
  }

  /** Putting a quantifier on the last item. */
  lemma WithLastKeeps(src: seq<byte>, st: State, i: Item, p: nat)
    requires Ok(src, st) && st.items != [] && st.pos < |src| && st.pos <= p
    requires match Last(st.items)
             case One(a) => i == Star(a) || (i.Range? && i.atom == a && i.lo <= i.hi)
             case Star(a) => i.Range? && i.atom == a && i.lo <= i.hi
             case Back(g) => i == BackStar(g)
             case _ => false
    ensures Ok(src, st.(pos := p, items := WithLast(st.items, i)))
  {
    var front := st.items[..|st.items| - 1];
    assert st.items == front + [Last(st.items)] && (front + [i])[..|front|] == front;
    GroupsAdd(front, Last(st.items));
    GroupsAdd(front, i);
  }

  // ----- the reader keeps it

  lemma StarKeeps(src: seq<byte>, st: State, p: nat)
    requires Ok(src, st) && st.pos < |src| && st.pos <= p && ReadStar(st, p).More?
    ensures Ok(src, ReadStar(st, p).st)
  {
    hide Ok;
    if st.items == [] || Last(st.items).Open? || Last(st.items).Close? {
      AddKeeps(src, st, One(Chr(ASTERISK)), p);
    } else if Last(st.items).One? {
      WithLastKeeps(src, st, Star(Last(st.items).atom), p);
    } else if Last(st.items).Back? {
      WithLastKeeps(src, st, BackStar(Last(st.items).group), p);
    } else {
      MoveKeeps(src, st, p);
    }
  }

  lemma MoveKeeps(src: seq<byte>, st: State, p: nat)
    requires Ok(src, st) && st.pos <= p
    ensures Ok(src, st.(pos := p))
  {}

  lemma EscapeKeeps(src: seq<byte>, st: State, p: nat)
    requires Ok(src, st) && st.pos < p && ReadEscape(src, st, p).More?
    requires CString(src)
    ensures Ok(src, ReadEscape(src, st, p).st)
  {
    hide Ok;
    var c := src[p];
    if c == LPAREN {
      OpenKeeps(src, st, p + 1);
    } else if c == RPAREN {
      CloseKeeps(src, st, p + 1);
    } else if c == LBRACE {
      if st.items == [] {
        AddKeeps(src, st, One(Chr(LBRACE)), p + 1);
      } else {
        var n := ReadInterval(src, p + 1);
        WithLastKeeps(src, st, Range(Last(st.items).atom, n.lo, n.hi), n.pos);
      }
    } else if c == LOWER_N {
      AddKeeps(src, st, One(Chr(NL)), p + 1);
    } else if ZERO < c <= NINE {
      AddKeeps(src, st, Back(c - ZERO - 1), p + 1);
    } else {
      AddKeeps(src, st, One(Chr(c)), p + 1);
    }
  }

  /** A NUL gets into a class only as its very last byte, and then the pattern is read past its end. */
  lemma {:induction false} MembersNulFree(src: seq<byte>, p: nat, c: byte, lc: byte, members: set<byte>, used: nat, cap: int)
    requires CString(src) && 0 !in members && Members(src, p, c, lc, members, used, cap).ClassText?
    ensures 0 !in Members(src, p, c, lc, members, used, cap).members
    decreases |src| - p
  {
    if c == MINUS && lc != 0 {
      var c2 := src[p];
      if c2 != RBRACKET && src[p + 1] != RBRACKET {
        MembersNulFree(src, p + 2, src[p + 1], c2, members + Span(lc, c2) + {c2}, used, cap);
      }
    } else if src[p] != RBRACKET {
      MembersNulFree(src, p + 1, src[p], c, members + {c}, used, cap);
    }
  }

  lemma ClassKeeps(src: seq<byte>, st: State, p: nat, cap: int)
    requires Ok(src, st) && st.pos < p && CString(src) && ReadClass(src, st, p, cap).More?
    ensures Ok(src, ReadClass(src, st, p, cap).st)
  {
    hide Ok;
    var p1 := if src[p] == CARET then p + 1 else p;
    MembersNulFree(src, p1 + 1, src[p1], 0, {}, Used(st.items), cap);
    var r := ClassAt(src, p, Used(st.items), cap);
    AddKeeps(src, st, One(Class(src[p] == CARET, r.members)), r.pos);
  }

  lemma ItemKeeps(src: seq<byte>, eof: int, sed: bool, cap: int, st: State)
    requires Ok(src, st) && CString(src) && ReadItem(src, eof, sed, cap, st).More?
    ensures Ok(src, ReadItem(src, eof, sed, cap, st).st)
  {
    hide Ok, ReadEscape, ReadClass, ReadStar;
    var c, p := src[st.pos], st.pos + 1;
    if c == ASTERISK {
      StarKeeps(src, st, p);
    } else if c == LBRACKET {
      ClassKeeps(src, st, p, cap);
    } else if c == BACKSLASH {
      EscapeKeeps(src, st, p);
    } else {
      AddKeeps(src, st, Last(ReadItem(src, eof, sed, cap, st).st.items), p);
    }
  }

  lemma {:induction false} ReadKeeps(src: seq<byte>, eof: int, sed: bool, cap: int, st: State)
    requires Ok(src, st) && CString(src) && ReadItems(src, eof, sed, cap, st).Parsed?
    ensures var items := ReadItems(src, eof, sed, cap, st).items;
            Begun(items) == Ended(items) && (Scoped(items, {}, {}) <==> !RefersInside(items))
    decreases |src| - st.pos
  {
    var n := ReadItem(src, eof, sed, cap, st);
    if n.More? {
      ItemKeeps(src, eof, sed, cap, st);
      ReadKeeps(src, eof, sed, cap, n.st);
    } else {
      assert st.open == [];
      forall g: nat | g in Begun(st.items) ensures g in Ended(st.items) {
        assert g !in st.open;
      }
    }
  }

  /** In every accepted pattern all groups are closed, and the items make sense to the matcher exactly when no
      reference stands inside its own group, which the count of closed groups does not notice. */
  lemma AcceptedIsScoped(src: seq<byte>, eof: int, sed: bool, cap: int, previous: bool)
    requires CString(src) && Parse(src, eof, sed, cap, previous).Parsed?
    ensures var items := Parse(src, eof, sed, cap, previous).items;
            Begun(items) == Ended(items) && (Scoped(items, {}, {}) <==> !RefersInside(items))
  {
    ReadKeeps(src, eof, sed, cap, State(if src[0] == CARET then 1 else 0, [], [], 0, 0));
  }

  /** The pattern `\(\(\)\1\)` is accepted although \1 stands inside group 1. */
  lemma InsideReferenceAccepted(cap: int)
    requires cap > 20
    ensures exists src: seq<byte> :: CString(src) &&
              var o := Parse(src, 0, false, cap, false); o.Parsed? && RefersInside(o.items) && !Scoped(o.items, {}, {})
  {
    hide Parse, RefersInside, Scoped;
    var ks := [N.Begin, N.Begin, N.End, N.Ref(0), N.End];
    ExampleIsLegal(ks);
    SmallPattern(N.SaysAll(N.START, ks, 0).items);
    ShowMarks(ks);
    var src: seq<byte> := N.ShowAll(ks) + [0];
    assert N.WrittenAt(src, 0, N.START, ks, 0, false, false);
    N.WrittenIsRead(src, false, ks, 0, false, false, cap, false);
    assert CString(src);
  }

  lemma ExampleIsLegal(ks: seq<N.Token>)
    requires ks == [N.Begin, N.Begin, N.End, N.Ref(0), N.End]
    ensures N.Legal(N.START, ks, 0) && N.SaysAll(N.START, ks, 0).open == []
    ensures N.SaysAll(N.START, ks, 0).items == [Open(0), Open(1), Close(1), Back(0), Close(0)]
  {
    hide N.Legal, N.SaysAll;
    var s1 := State(0, [Open(0)], [0], 1, 0);
    var s2 := State(0, [Open(0), Open(1)], [0, 1], 2, 0);
    var s3 := State(0, [Open(0), Open(1), Close(1)], [0], 2, 1);
    var s4 := State(0, [Open(0), Open(1), Close(1), Back(0)], [0], 2, 1);
    var s5 := State(0, [Open(0), Open(1), Close(1), Back(0), Close(0)], [], 2, 2);
    LegalLast(s5);
    LegalFirst(s4, N.End, s5, []);
    assert [N.End] + [] == [N.End];
    LegalFirst(s3, N.Ref(0), s4, [N.End]);
    assert [N.Ref(0)] + [N.End] == [N.Ref(0), N.End];
    LegalFirst(s2, N.End, s3, [N.Ref(0), N.End]);
    assert [N.End] + [N.Ref(0), N.End] == [N.End, N.Ref(0), N.End];
    LegalFirst(s1, N.Begin, s2, [N.End, N.Ref(0), N.End]);
    assert [N.Begin] + [N.End, N.Ref(0), N.End] == [N.Begin, N.End, N.Ref(0), N.End];
    LegalFirst(N.START, N.Begin, s1, [N.Begin, N.End, N.Ref(0), N.End]);
    assert ks == [N.Begin] + [N.Begin, N.End, N.Ref(0), N.End];
  }

  lemma LegalLast(st: State)
    ensures N.Legal(st, [], 0) && N.SaysAll(st, [], 0) == st
  {}

  lemma LegalFirst(st: State, k: N.Token, st': State, rest: seq<N.Token>)
    requires N.Fits(st, k) && (k.Begin? || k.End? || k.Ref?) && N.Says(st, k) == st' && N.Legal(st', rest, 0)
    ensures N.Legal(st, [k] + rest, 0) && N.SaysAll(st, [k] + rest, 0) == N.SaysAll(st', rest, 0)
  {
    assert ([k] + rest)[1..] == rest;
  }

  lemma SmallPattern(items: seq<Item>)
    requires items == [Open(0), Open(1), Close(1), Back(0), Close(0)]
    ensures Used(items) == 10 && RefersInside(items) && !Scoped(items, {}, {})
  {
    var i1, i2, i3, i4 := [Open(0)], [Open(0), Open(1)], [Open(0), Open(1), Close(1)], [Open(0), Open(1), Close(1), Back(0)];
    assert items == i4 + [Close(0)] && i4 == i3 + [Back(0)] && i3 == i2 + [Close(1)] && i2 == i1 + [Open(1)] && i1 == [] + [Open(0)];
    SmallUsed(i1, i2, i3, i4, items);
    SmallGroups(i1, i2, i3, i4);
    GroupsAdd(i4, Close(0));
  }

  lemma SmallUsed(i1: seq<Item>, i2: seq<Item>, i3: seq<Item>, i4: seq<Item>, items: seq<Item>)
    requires items == i4 + [Close(0)] && i4 == i3 + [Back(0)] && i3 == i2 + [Close(1)] && i2 == i1 + [Open(1)] && i1 == [] + [Open(0)]
    ensures Used(items) == 10
  {
    hide Used;
    C.UsedAdd(i4, Close(0));
    C.UsedAdd(i3, Back(0));
    C.UsedAdd(i2, Close(1));
    C.UsedAdd(i1, Open(1));
    UsedNone();
  }

  lemma UsedNone()
    ensures Used([] + [Open(0)]) == 2
  {
    C.UsedAdd([], Open(0));
  }

  lemma SmallGroups(i1: seq<Item>, i2: seq<Item>, i3: seq<Item>, i4: seq<Item>)
    requires i4 == i3 + [Back(0)] && i3 == i2 + [Close(1)] && i2 == i1 + [Open(1)] && i1 == [] + [Open(0)]
    ensures RefersInside(i4) && !Scoped(i4, {}, {})
  {
    assert Begun([]) == {} && Ended([]) == {};
    hide RefersInside, Scoped, Begun, Ended;
    GroupsAdd([], Open(0));
    GroupsAdd(i1, Open(1));
    GroupsAdd(i2, Close(1));
    assert 0 in Begun(i3) - Ended(i3);
    GroupsAdd(i3, Back(0));
  }

  lemma ShowMarks(ks: seq<N.Token>)
    requires forall i :: 0 <= i < |ks| ==> ks[i].Begin? || ks[i].End? || ks[i].Ref?
    ensures 0 !in N.ShowAll(ks) && (ks != [] ==> N.ShowAll(ks)[0] == BACKSLASH)
  {
  }

  /** Compile an accepted pattern, then search a text with it: a match is reported exactly where the pattern's
      items first have a choice of repetitions that matches. */
  method CompileThenStep(c: C.Compiler, m: M.Matcher, src: seq<byte>, code: array<byte>, ep: nat, endbuf: nat, eof: int,
                         buf: seq<byte>, ghost t: seq<byte>, ghost items: seq<Item>)
    returns (found: M.Result)
    requires ep <= endbuf < code.Length && CString(src) && M.IsText(buf, t) && m.Valid()
    requires var o := Parse(src, eof, c.sed, endbuf - ep, code[ep] != 0);
             o.Parsed? && o.items == items && !RefersInside(items)
    modifies c, code, m, m.braslist, m.braelist
    ensures !C.Anchored(src) ==> m.Leftmost(found, t, items, 0)
    ensures C.Anchored(src) && found == M.Failed ==> NoChoice(t, m.locs, items, 0, NO_GROUPS)
    ensures C.Anchored(src) && found == M.Matched ==> m.loc1 == 0 && m.Found(t, items, 0)
    ensures C.Anchored(src) && found == M.Hangs ==> m.HangsAt(t, items, 0)
    ensures SafeStars(items, {}, {}, false) ==> found != M.Hangs
  {
    AcceptedIsScoped(src, eof, c.sed, endbuf - ep, code[ep] != 0);
    assert NO_GROUPS.bra.Keys == {} && NO_GROUPS.ket.Keys == {};
    var compiled := c.Compile(src, code, ep, endbuf, eof);
    m.circf := c.circf;
    found := m.Step(buf, code[..], 0, ep, t, items);
    SafeIffEnds(items);
  }
}
