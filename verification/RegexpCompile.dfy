/** `compile` of head/regexp.h: one pass over the pattern that fills the caller's buffer. */
module RegexpCompile {
  import opened Words
  import opened RegexpPattern
  import opened RegexpCode
  import opened RegexpBits
  import Masks
  import opened RegexpParse

  /** What a call ends with: RETURN(ep), ERROR(code), or a read past the end of the pattern. */
  datatype Result = Return(ep: nat) | Fault(code: int) | PastEnd

  /** The bytes from ep0 to ep encode the items, last item last. */
  ghost predicate Emitted(code: seq<byte>, ep0: nat, items: seq<Item>, ep: nat)
    decreases |items|
  {
    ep0 <= ep <= |code| && ep == ep0 + Used(items) &&
    (items == [] ||
     (ItemAt(code, ep - ItemSize(Last(items)), Last(items)) &&
      Emitted(code, ep0, items[..|items| - 1], ep - ItemSize(Last(items)))))
  }

  /** Bytes outside the encoded stretch do not matter. */
  lemma {:induction false} EmittedFrame(code: seq<byte>, code': seq<byte>, ep0: nat, items: seq<Item>, ep: nat)
    requires Emitted(code, ep0, items, ep) && ep <= |code'|
    requires forall i :: ep0 <= i < ep ==> code'[i] == code[i]
    ensures Emitted(code', ep0, items, ep)
    decreases |items|
  {
    if items != [] {
      var at := ep - ItemSize(Last(items));
      EmittedFrame(code, code', ep0, items[..|items| - 1], at);
      ItemFrame(code, code', at, Last(items));
    }
  }

  lemma ItemFrame(code: seq<byte>, code': seq<byte>, ep: nat, i: Item)
    requires ItemAt(code, ep, i) && ep + ItemSize(i) <= |code'|
    requires forall j :: ep <= j < ep + ItemSize(i) ==> code'[j] == code[j]
    ensures ItemAt(code', ep, i)
  {
    if (i.One? || i.Star? || i.Range?) && i.atom.Class? {
      AtomFrame(code, code', ep + 1, i.atom);
    }
  }

  lemma AtomFrame(code: seq<byte>, code': seq<byte>, ep: nat, a: Atom)
    requires AtomArgsAt(code, ep, a) && ep + AtomArgs(a) <= |code'|
    requires forall j :: ep <= j < ep + AtomArgs(a) ==> code'[j] == code[j]
    ensures AtomArgsAt(code', ep, a)
  {
    if a.Class? {
      forall c: byte | c / 8 < AtomArgs(a) ensures IsThere(code', ep, c) == IsThere(code, ep, c) {}
    }
  }

  lemma UsedAdd(items: seq<Item>, i: Item)
    ensures Used(items + [i]) == Used(items) + ItemSize(i)
  {
    assert (items + [i])[..|items|] == items;
  }

  /** Emitting one more item. */
  lemma EmitOne(code: seq<byte>, code': seq<byte>, ep0: nat, items: seq<Item>, ep: nat, i: Item)
    requires Emitted(code, ep0, items, ep)
    requires ep + ItemSize(i) <= |code'| && forall j :: ep0 <= j < ep ==> code'[j] == code[j]
    requires ItemAt(code', ep, i)
    ensures Emitted(code', ep0, items + [i], ep + ItemSize(i))
  {
    EmittedFrame(code, code', ep0, items, ep);
    UsedAdd(items, i);
    assert (items + [i])[..|items|] == items;
  }

  /** Changing the last item, and perhaps its size. */
  lemma EmitInstead(code: seq<byte>, code': seq<byte>, ep0: nat, items: seq<Item>, ep: nat, i: Item)
    requires items != [] && Emitted(code, ep0, items, ep)
    requires var at := ep - ItemSize(Last(items));
             at + ItemSize(i) <= |code'| && ItemAt(code', at, i) && forall j :: ep0 <= j < at ==> code'[j] == code[j]
    ensures Emitted(code', ep0, WithLast(items, i), ep - ItemSize(Last(items)) + ItemSize(i))
  {
    EmitOne(code, code', ep0, items[..|items| - 1], ep - ItemSize(Last(items)), i);
  }

  /** With the end mark after them, the emitted items are a program. */
  lemma EmittedEncodes(code: seq<byte>, ep0: nat, items: seq<Item>, ep: nat)
    requires Emitted(code, ep0, items, ep) && ep < |code| && code[ep] == CCEOF
    ensures Encodes(code, ep0, items)
  {
    EmittedPrefix(code, ep0, items, ep, []);
    assert items + [] == items;
  }

  lemma EncodesMore(code: seq<byte>, ep: nat, i: Item, tail: seq<Item>)
    requires ItemAt(code, ep, i) && Encodes(code, ep + ItemSize(i), tail)
    ensures Encodes(code, ep, [i] + tail)
  {
    assert ([i] + tail)[1..] == tail;
  }

  lemma {:induction false} EmittedPrefix(code: seq<byte>, ep0: nat, items: seq<Item>, ep: nat, tail: seq<Item>)
    requires Emitted(code, ep0, items, ep) && Encodes(code, ep, tail)
    ensures Encodes(code, ep0, items + tail)
    decreases |items|
  {
    hide Encodes;
    if items == [] {
      assert items + tail == tail;
    } else {
      var i := Last(items);
      var at := ep - ItemSize(i);
      EncodesMore(code, at, i, tail);
      EmittedPrefix(code, ep0, items[..|items| - 1], at, [i] + tail);
      assert items[..|items| - 1] + ([i] + tail) == items + tail;
    }
  }

  /** The local variables of the loop.  `lastep` is -1 for the null pointer. */
  datatype Regs = Regs(p: nat, ep: nat, lastep: int, bracketp: nat, nbra: nat, closed: nat)

  datatype Turn = Continue(k: Regs) | Stop(r: Result)

  ghost predicate Safe(src: seq<byte>, ep0: nat, endbuf: nat, k: Regs) {
    && k.p <= |src| && ep0 <= k.ep <= endbuf + 1
    && (k.lastep == -1 || ep0 <= k.lastep < k.ep)
    && k.bracketp <= k.nbra <= NBRA
  }

  /** The variables and the buffer are where reading has got to. */
  ghost predicate Tracks(code: seq<byte>, ep0: nat, bracket: seq<byte>, k: Regs, st: State) {
    && Emitted(code, ep0, st.items, k.ep) && k.ep == ep0 + Used(st.items)
    && k.lastep == (if st.items == [] then -1 else k.ep - ItemSize(Last(st.items)))
    && k.p == st.pos && k.nbra == st.nbra && k.closed == st.closed
    && k.bracketp <= |bracket| && st.open == bracket[..k.bracketp]
  }

  lemma TracksFields(code: seq<byte>, ep0: nat, bracket: seq<byte>, k: Regs, st: State)
    ensures Tracks(code, ep0, bracket, k, st) ==>
              && k.ep == ep0 + Used(st.items) && k.p == st.pos && k.nbra == st.nbra && k.closed == st.closed
              && k.bracketp == |st.open|
  {}

  /** One more item. */
  lemma TracksAdd(code: seq<byte>, code': seq<byte>, ep0: nat, bracket: seq<byte>, k: Regs, p: nat, st: State, i: Item)
    requires Tracks(code, ep0, bracket, k, st)
    requires k.ep + ItemSize(i) <= |code'| && forall j :: ep0 <= j < k.ep ==> code'[j] == code[j]
    requires ItemAt(code', k.ep, i)
    ensures Tracks(code', ep0, bracket, k.(p := p, ep := k.ep + ItemSize(i), lastep := k.ep),
                   st.(pos := p, items := st.items + [i]))
  {
    EmitOne(code, code', ep0, st.items, k.ep, i);
  }

  lemma TracksPush(code: seq<byte>, ep0: nat, bracket: seq<byte>, k: Regs, st: State, g: byte)
    requires Tracks(code, ep0, bracket, k, st) && k.bracketp < |bracket|
    ensures Tracks(code, ep0, bracket[k.bracketp := g], k.(bracketp := k.bracketp + 1, nbra := k.nbra + 1),
                   st.(open := st.open + [g], nbra := st.nbra + 1))
  {}

  lemma TracksPop(code: seq<byte>, ep0: nat, bracket: seq<byte>, k: Regs, st: State)
    requires Tracks(code, ep0, bracket, k, st) && 0 < k.bracketp
    ensures st.open != [] && st.open[|st.open| - 1] == bracket[k.bracketp - 1]
    ensures Tracks(code, ep0, bracket, k.(bracketp := k.bracketp - 1, closed := k.closed + 1),
                   st.(open := st.open[..|st.open| - 1], closed := st.closed + 1))
  {}

  lemma TracksNothing(code: seq<byte>, ep0: nat, bracket: seq<byte>, p: nat)
    requires ep0 <= |code|
    ensures Tracks(code, ep0, bracket, Regs(p, ep0, -1, 0, 0, 0), State(p, [], [], 0, 0))
  {}

  ghost predicate ResultIs(code: seq<byte>, ep0: nat, r: Result, o: Outcome) {
    match o
    case Parsed(items, _, _) => r == Return(ep0 + Used(items) + 1) && Encodes(code, ep0, items)
    case Reuse(_) => r == Return(ep0)
    case Error(e) => r == Fault(e)
    case Overrun => r == PastEnd
    case Unspecified => true
  }

  /** A turn of the loop did what the reading of one item says. */
  ghost predicate TurnIs(code: seq<byte>, ep0: nat, bracket: seq<byte>, turn: Turn, n: Next) {
    match n
    case More(st) => turn.Continue? && Tracks(code, ep0, bracket, turn.k, st)
    case Done(o) => o == Unspecified || (turn.Stop? && ResultIs(code, ep0, turn.r, o))
  }

  /** Only the bytes from ep0 to endbuf have changed. */
  twostate predicate Confined(buf: array<byte>, ep0: nat, endbuf: nat)
    reads buf
  {
    forall i :: 0 <= i < buf.Length && (i < ep0 || i > endbuf) ==> buf[i] == old(buf[i])
  }

  /** `|= STAR` and `|= RNGE` on an opcode byte. */
  function OrStar(b: byte): byte { if b % 2 == 0 then b + 1 else b }
  function OrRnge(b: byte): byte { b - b % 4 + 3 }

  /** Label defchar: a plain character. */
  method DefChar(src: seq<byte>, buf: array<byte>, ep0: nat, endbuf: nat, bracket: array<byte>, k: Regs, p: nat, c: byte,
                 ghost st: State)
    returns (turn: Turn)
    requires Safe(src, ep0, endbuf, k) && k.ep < endbuf < buf.Length && p <= |src| && buf != bracket
    modifies buf
    ensures Confined(buf, ep0, endbuf)
    ensures turn.Continue? && Safe(src, ep0, endbuf, turn.k) && turn.k.bracketp == k.bracketp && turn.k.p >= p
    ensures old(Tracks(buf[..], ep0, bracket[..], k, st)) ==>
              TurnIs(buf[..], ep0, bracket[..], turn, Add(st, One(Chr(c)), p))
  {
    hide Emitted, Encodes, Tracks;
    buf[k.ep] := CCHR;
    buf[k.ep + 1] := c;
    turn := Continue(k.(p := p, ep := k.ep + 2, lastep := k.ep));
    if old(Tracks(buf[..], ep0, bracket[..], k, st)) {
      TracksAdd(old(buf[..]), buf[..], ep0, bracket[..], k, p, st, One(Chr(c)));
    }
  }

  /** The cases '.' and '$': one byte. */
  method AnyChar(src: seq<byte>, buf: array<byte>, ep0: nat, endbuf: nat, bracket: array<byte>, k: Regs, p: nat, op: byte,
                 ghost st: State, ghost i: Item)
    returns (turn: Turn)
    requires Safe(src, ep0, endbuf, k) && k.ep < endbuf < buf.Length && p <= |src| && buf != bracket
    requires (i == One(Dot) && op == CDOT) || (i == Item.Dollar && op == CDOL)
    modifies buf
    ensures Confined(buf, ep0, endbuf)
    ensures turn.Continue? && Safe(src, ep0, endbuf, turn.k) && turn.k.bracketp == k.bracketp && turn.k.p >= p
    ensures old(Tracks(buf[..], ep0, bracket[..], k, st)) ==>
              TurnIs(buf[..], ep0, bracket[..], turn, Add(st, i, p))
  {
    hide Emitted, Encodes, Tracks;
    buf[k.ep] := op;
    turn := Continue(k.(p := p, ep := k.ep + 1, lastep := k.ep));
    if old(Tracks(buf[..], ep0, bracket[..], k, st)) {
      TracksAdd(old(buf[..]), buf[..], ep0, bracket[..], k, p, st, i);
    }
  }

  /** The case '*'. */
  method StarChar(src: seq<byte>, buf: array<byte>, ep0: nat, endbuf: nat, bracket: array<byte>, k: Regs, p: nat,
                  ghost st: State)
    returns (turn: Turn)
    requires Safe(src, ep0, endbuf, k) && k.ep < endbuf < buf.Length && p <= |src| && buf != bracket
    modifies buf
    ensures Confined(buf, ep0, endbuf)
    ensures turn.Continue? && Safe(src, ep0, endbuf, turn.k) && turn.k.bracketp == k.bracketp && turn.k.p >= p
    ensures old(Tracks(buf[..], ep0, bracket[..], k, st)) ==> TurnIs(buf[..], ep0, bracket[..], turn, ReadStar(st, p))
  {
    hide Emitted, Encodes, Tracks;
    ghost var tracked := Tracks(buf[..], ep0, bracket[..], k, st);
    if tracked { TracksLast(buf[..], ep0, bracket[..], k, st); }
    if k.lastep == -1 || buf[k.lastep] == CBRA || buf[k.lastep] == CKET {
      turn := DefChar(src, buf, ep0, endbuf, bracket, k, p, ASTERISK, st);
      return;
    }
    ghost var before := buf[..];
    buf[k.lastep] := OrStar(buf[k.lastep]);
    turn := Continue(k.(p := p));
    if tracked && ReadStar(st, p).More? {
      assert buf[..] == before[k.lastep := OrStar(before[k.lastep])];
      StarTracks(before, buf[..], ep0, bracket[..], k, st, p);
    }
  }

  /** What the opcode at lastep says about the last item. */
  lemma TracksLast(code: seq<byte>, ep0: nat, bracket: seq<byte>, k: Regs, st: State)
    requires Tracks(code, ep0, bracket, k, st)
    ensures k.lastep == -1 <==> st.items == []
    ensures st.items != [] ==>
              && 0 <= k.lastep < |code|
              && (code[k.lastep] == CBRA <==> Last(st.items).Open?)
              && (code[k.lastep] == CKET <==> Last(st.items).Close?)
  {}

  lemma StarTracks(code: seq<byte>, code': seq<byte>, ep0: nat, bracket: seq<byte>, k: Regs, st: State, p: nat)
    requires Tracks(code, ep0, bracket, k, st) && ReadStar(st, p).More? && st.items != []
    requires !Last(st.items).Open? && !Last(st.items).Close?
    requires 0 <= k.lastep < |code| && code' == code[k.lastep := OrStar(code[k.lastep])]
    ensures Tracks(code', ep0, bracket, k.(p := p), ReadStar(st, p).st)
  {
    StarEmitted(code, code', ep0, st, k.ep, p);
  }

  lemma StarEmitted(code: seq<byte>, code': seq<byte>, ep0: nat, st: State, ep: nat, p: nat)
    requires st.items != [] && Emitted(code, ep0, st.items, ep) && ReadStar(st, p).More?
    requires !Last(st.items).Open? && !Last(st.items).Close?
    requires var at := ep - ItemSize(Last(st.items)); code' == code[at := OrStar(code[at])]
    ensures var items := ReadStar(st, p).st.items;
            items != [] && Emitted(code', ep0, items, ep) && ItemSize(Last(items)) == ItemSize(Last(st.items))
  {
    var items := ReadStar(st, p).st.items;
    var at := ep - ItemSize(Last(st.items));
    if Last(items) == Last(st.items) {
      assert code' == code;
      assert items == st.items;
    } else {
      if Last(items).Star? {
        AtomFrame(code, code', at + 1, Last(items).atom);
      }
      EmitInstead(code, code', ep0, st.items, ep, Last(items));
      assert items == WithLast(st.items, Last(items));
    }
  }

  method Clear(buf: array<byte>, from: nat, to: nat)
    requires from <= to <= buf.Length
    modifies buf
    ensures forall i :: 0 <= i < buf.Length ==> buf[i] == if from <= i < to then 0 else old(buf[i])
  {
    for i := from to to
      invariant forall j :: 0 <= j < buf.Length ==> buf[j] == if from <= j < i then 0 else old(buf[j])
    {
      buf[i] := 0;
    }
  }

  method Place(buf: array<byte>, e: nat, c: byte, ghost n: nat, ghost s: set<byte>)
    requires BitmapIs(buf[..], e, n, s) && c < 8 * n
    modifies buf
    ensures BitmapIs(buf[..], e, n, s + {c})
    ensures forall i :: 0 <= i < buf.Length && (i < e || i >= e + n) ==> buf[i] == old(buf[i])
  {
    PlaceAdds(buf[..], e, n, s, c);
    buf[e + c / 8] := SetBit(buf[e + c / 8], c % 8);
  }

  /** The first wide character: the opcode changes and the bitmap doubles. */
  method Widen(buf: array<byte>, e: nat, ghost s: set<byte>)
    requires 0 < e && BitmapIs(buf[..], e, 16, s) && e + 32 <= buf.Length && !Wide(s)
    modifies buf
    ensures BitmapIs(buf[..], e, 32, s) && buf[e - 1] == CXCL
    ensures forall i :: 0 <= i < buf.Length && (i < e - 1 || i >= e + 32) ==> buf[i] == old(buf[i])
  {
    buf[e - 1] := CXCL;
    Clear(buf, e + 16, e + 32);
    forall c: byte ensures IsThere(buf[..], e, c) <==> c in s {
      if c < 128 {
        assert IsThere(old(buf[..]), e, c) <==> c in s;
      } else {
        ZeroHasNoBit(c % 8);
      }
    }
  }

  lemma ZeroHasNoBit(k: nat)
    ensures !HasBit(0, k)
  {
    if k > 0 { ZeroHasNoBit(k - 1); }
  }

  /** The bytes at e are the bitmap of s, under the opcode that fits its width. */
  ghost predicate Building(code: seq<byte>, e: nat, iflag: bool, s: set<byte>) {
    && 0 < e <= |code| && iflag == !Wide(s)
    && BitmapIs(code, e, if iflag then 16 else 32, s) && code[e - 1] == (if iflag then CCL else CXCL)
  }

  lemma WideAdd(s: set<byte>, c: byte)
    ensures Wide(s + {c}) <==> Wide(s) || c >= 128
  {
    if Wide(s) { var d :| d in s && d >= 128; assert d in s + {c}; }
    if c >= 128 { assert c in s + {c}; }
  }

  /** The do loop of the case '['.  `status` is 0, an error code, or -1 for a read past the end. */
  method ClassBody(src: seq<byte>, buf: array<byte>, e: nat, p0: nat, c0: byte, endbuf: nat, ghost used: nat, ghost cap: int)
    returns (status: int, p: nat, iflag: bool, ghost members: set<byte>)
    requires 0 < e && e + 16 < endbuf < buf.Length && e + 32 - endbuf == used + 33 - cap
    requires p0 <= |src| && Building(buf[..], e, true, {})
    requires forall i :: 0 <= i < |src| - 1 ==> src[i] != 0
    modifies buf
    ensures forall i :: 0 <= i < buf.Length && (i < e - 1 || i > endbuf) ==> buf[i] == old(buf[i])
    ensures match Members(src, p0, c0, 0, {}, used, cap)
            case ClassText(m, p') =>
              status == 0 && p == p' && members == m && 0 !in m && Building(buf[..], e, iflag, m)
              && (Wide(m) ==> e + 32 < endbuf)
            case BadClass(code) => status == code > 0
            case ClassOverrun => status == -1
  {
    p, iflag, members := p0, true, {};
    var c, lc := c0, 0 as byte;
    while true
      invariant p0 <= p <= |src| && Building(buf[..], e, iflag, members) && 0 !in members
      invariant Wide(members) ==> e + 32 < endbuf
      invariant forall i :: 0 <= i < buf.Length && (i < e - 1 || i > endbuf) ==> buf[i] == old(buf[i])
      invariant Members(src, p0, c0, 0, {}, used, cap) == Members(src, p, c, lc, members, used, cap)
      decreases |src| - p
    {
      if c == 0 || c == NL { return 49, p, iflag, members; }
      if c >= 128 && iflag {
        iflag := false;
        if e + 32 >= endbuf { return 50, p, iflag, members; }
        Widen(buf, e, members);
      }
      if c == MINUS && lc != 0 {
        if p >= |src| { return -1, p, iflag, members; }
        c, p := src[p], p + 1;
        if c == RBRACKET {
          Place(buf, e, MINUS, if iflag then 16 else 32, members);
          WideAdd(members, MINUS);
          return 0, p, iflag, members + {MINUS};
        }
        if c >= 128 && iflag {
          iflag := false;
          if e + 32 >= endbuf { return 50, p, iflag, members; }
          Widen(buf, e, members);
        }
        PlaceSpan(buf, e, lc, c, if iflag then 16 else 32, members);
        members := members + Span(lc, c);
      }
      lc := c;
      Place(buf, e, c, if iflag then 16 else 32, members);
      WideAdd(members, c);
      members := members + {c};
      if p >= |src| { return -1, p, iflag, members; }
      c, p := src[p], p + 1;
      if c == RBRACKET { return 0, p, iflag, members; }
    }
  }

  /** while(lc < c) PLACE(lc++) */
  method PlaceSpan(buf: array<byte>, e: nat, lo: byte, c: byte, ghost n: nat, ghost s: set<byte>)
    requires BitmapIs(buf[..], e, n, s) && c < 8 * n
    modifies buf
    ensures BitmapIs(buf[..], e, n, s + Span(lo, c))
    ensures forall i :: 0 <= i < buf.Length && (i < e || i >= e + n) ==> buf[i] == old(buf[i])
  {
    var lc: byte := lo;
    assert s + Span(lo, lo) == s;
    while lc < c
      invariant lo <= lc && (lc <= c || lc == lo)
      invariant BitmapIs(buf[..], e, n, s + Span(lo, lc))
      invariant forall i :: 0 <= i < buf.Length && (i < e || i >= e + n) ==> buf[i] == old(buf[i])
    {
      Place(buf, e, lc, n, s + Span(lo, lc));
      assert s + Span(lo, lc) + {lc} == s + Span(lo, lc + 1);
      lc := lc + 1;
    }
    assert lc == c || (c < lo && Span(lo, c) == Span(lo, lo));
  }

  /** Complementing the wide bitmap, all but the NUL. */
  method Negate(buf: array<byte>, e: nat, ghost s: set<byte>)
    requires BitmapIs(buf[..], e, 32, s) && e + 32 <= buf.Length
    modifies buf
    ensures forall c: byte :: IsThere(buf[..], e, c) <==> c != 0 && c !in s
    ensures forall i :: 0 <= i < buf.Length && (i < e || i >= e + 32) ==> buf[i] == old(buf[i])
  {
    assert Masks.Pow2(8) == 256;
    for cclcnt := 0 to 32
      invariant forall i :: 0 <= i < buf.Length && (i < e || i >= e + cclcnt) ==> buf[i] == old(buf[i])
      invariant forall i, k :: e <= i < e + cclcnt && 0 <= k < 8 ==> (HasBit(buf[i], k) <==> !HasBit(old(buf[i]), k))
    {
      InvertInverts(buf[e + cclcnt], 8);
      buf[e + cclcnt] := Invert(buf[e + cclcnt], 8);
    }
    LowBit(buf[e]);
    buf[e] := buf[e] - buf[e] % 2;
    forall c: byte ensures IsThere(buf[..], e, c) <==> c != 0 && c !in s {
      assert IsThere(old(buf[..]), e, c) <==> c in s;
    }
  }

  /** What follows the closing bracket: the bitmap gets its final sense. */
  method FinishClass(buf: array<byte>, e: nat, neg: bool, iflag: bool, ghost members: set<byte>)
    requires Building(buf[..], e, iflag, members) && 0 !in members
    modifies buf
    ensures forall i :: 0 <= i < buf.Length && (i < e - 1 || i >= e + if iflag then 16 else 32) ==> buf[i] == old(buf[i])
    ensures ItemAt(buf[..], e - 1, One(Class(neg, members)))
  {
    if neg {
      if !iflag {
        Negate(buf, e, members);
      } else {
        buf[e - 1] := NCCL;
        PlaceAdds(buf[..], e, 16, members, 0);
        buf[e] := SetBit(buf[e], 0);
      }
    }
  }

  /** The start of a class: its opcode and an empty bitmap. */
  method StartClass(buf: array<byte>, ep: nat)
    requires ep + 17 < buf.Length
    modifies buf
    ensures Building(buf[..], ep + 1, true, {})
    ensures forall i :: 0 <= i < buf.Length && (i < ep || i >= ep + 17) ==> buf[i] == old(buf[i])
  {
    buf[ep] := CCL;
    Clear(buf, ep + 1, ep + 17);
    var none: set<byte> := {};
    forall c: byte | c < 128 ensures IsThere(buf[..], ep + 1, c) <==> c in none { ZeroHasNoBit(c % 8); }
  }

  /** The case '[': `status` is as in ClassBody. */
  method CompileClass(src: seq<byte>, buf: array<byte>, ep: nat, p0: nat, endbuf: nat, ghost used: nat, ghost cap: int)
    returns (status: int, p: nat, ep': nat, ghost item: Item)
    requires ep < endbuf < buf.Length && ep - endbuf == used - cap && p0 <= |src|
    requires forall i :: 0 <= i < |src| - 1 ==> src[i] != 0
    modifies buf
    ensures forall i :: 0 <= i < buf.Length && (i < ep || i > endbuf) ==> buf[i] == old(buf[i])
    ensures match ClassAt(src, p0, used, cap)
            case ClassText(m, p') =>
              status == 0 && p == p' && item == One(Class(src[p0] == CARET, m))
              && ep' == ep + ItemSize(item) <= endbuf && ItemAt(buf[..], ep, item)
            case BadClass(code) => status == code > 0
            case ClassOverrun => status == -1
  {
    p, ep', item := p0, ep, One(Dot);
    if ep + 17 >= endbuf { return 50, p, ep', item; }
    StartClass(buf, ep);
    var neg := false;
    if p >= |src| { return -1, p, ep', item; }
    var c := src[p];
    p := p + 1;
    if c == CARET {
      neg := true;
      if p >= |src| { return -1, p, ep', item; }
      c, p := src[p], p + 1;
    }
    var iflag;
    ghost var members;
    status, p, iflag, members := ClassBody(src, buf, ep + 1, p, c, endbuf, used, cap);
    if status != 0 { return; }
    FinishClass(buf, ep + 1, neg, iflag, members);
    item := One(Class(neg, members));
    ep' := ep + 1 + if iflag then 16 else 32;
  }

  method Bracket(src: seq<byte>, buf: array<byte>, ep0: nat, endbuf: nat, bracket: array<byte>, k: Regs, p0: nat,
                 ghost st: State)
    returns (turn: Turn)
    requires Safe(src, ep0, endbuf, k) && k.ep < endbuf < buf.Length && p0 <= |src| && buf != bracket
    requires forall i :: 0 <= i < |src| - 1 ==> src[i] != 0
    modifies buf
    ensures Confined(buf, ep0, endbuf)
    ensures turn.Continue? ==> Safe(src, ep0, endbuf, turn.k) && turn.k.bracketp == k.bracketp && turn.k.p >= p0
    ensures old(Tracks(buf[..], ep0, bracket[..], k, st)) ==>
              TurnIs(buf[..], ep0, bracket[..], turn, ReadClass(src, st, p0, endbuf - ep0))
  {
    hide Emitted, Encodes, Tracks;
    TracksFields(buf[..], ep0, bracket[..], k, st);
    var status, p, ep;
    ghost var item;
    status, p, ep, item := CompileClass(src, buf, k.ep, p0, endbuf, k.ep - ep0, endbuf - ep0);
    if status == -1 { return Stop(PastEnd); }
    if status > 0 { return Stop(Fault(status)); }
    turn := Continue(k.(p := p, ep := ep, lastep := k.ep));
    if old(Tracks(buf[..], ep0, bracket[..], k, st)) {
      TracksAdd(old(buf[..]), buf[..], ep0, bracket[..], k, p, st, item);
    }
  }

  /** One number of an interval. */
  method ReadNumber(src: seq<byte>, p0: nat) returns (n: Number)
    requires p0 <= |src|
    ensures n == Digits(src, p0, 0)
  {
    var p := p0;
    if p >= |src| { return NumberOverrun; }
    var c := src[p];
    p := p + 1;
    var i := 0;
    while true
      invariant 0 < p <= |src| && c == src[p - 1]
      invariant Digits(src, p0, 0) == Digits(src, p - 1, i)
      decreases |src| - p
    {
      if IsDigit(c) { i := Wrap(10 * i + c - ZERO); } else { return BadNumber(16); }
      if p >= |src| { return NumberOverrun; }
      c, p := src[p], p + 1;
      if !(c != BACKSLASH && c != COMMA) { break; }
    }
    if i > 255 { return BadNumber(11); }
    return Number(i % 256, c, p);
  }

  /** What follows `\{`: the two bounds are stored at ep.  `status` is as in ClassBody. */
  method Bounds(src: seq<byte>, p0: nat, buf: array<byte>, ep: nat) returns (status: int, p: nat)
    requires p0 <= |src| && ep + 1 < buf.Length
    modifies buf
    ensures forall i :: 0 <= i < buf.Length && i != ep && i != ep + 1 ==> buf[i] == old(buf[i])
    ensures match ReadInterval(src, p0)
            case Interval(lo, hi, p') => status == 0 && p == p' && buf[ep] == lo && buf[ep + 1] == hi
            case BadInterval(code) => status == code > 0
            case IntervalOverrun => status == -1
  {
    p := p0;
    var cflg := false;
    var at := ep;
    while true
      invariant p0 <= p <= |src| && at == (if cflg then ep + 1 else ep)
      invariant !cflg ==> p == p0
      invariant cflg ==>
                  var first := Digits(src, p0, 0);
                  first.Number? && first.stop == COMMA && first.pos == p < |src| && src[p] != BACKSLASH && buf[ep] == first.value
      invariant forall i :: 0 <= i < buf.Length && i != ep && i != ep + 1 ==> buf[i] == old(buf[i])
      decreases !cflg
    {
      var n := ReadNumber(src, p);
      if n.NumberOverrun? { return -1, p; }
      if n.BadNumber? { return n.code, p; }
      buf[at] := n.value;
      at, p := at + 1, n.pos;
      if n.stop == COMMA {
        if cflg { return 44, p; }
        cflg := true;
        if p >= |src| { return -1, p; }
        if src[p] == BACKSLASH {
          p := p + 1;
          buf[at] := 255;
          at := at + 1;
        } else {
          continue;
        }
      }
      if p >= |src| { return -1, p; }
      if src[p] != RBRACE { return 45, p; }
      p := p + 1;
      if !cflg { buf[at] := n.value; }
      else if buf[at - 1] < buf[at - 2] { return 46, p; }
      return 0, p;
    }
  }

  lemma RangeEmitted(code: seq<byte>, code': seq<byte>, ep0: nat, items: seq<Item>, ep: nat, a: Atom, lo: byte, hi: byte)
    requires items != [] && Emitted(code, ep0, items, ep) && (Last(items) == One(a) || Last(items) == Star(a))
    requires ep + 2 <= |code'| && |code| == |code'|
    requires var at := ep - ItemSize(Last(items));
             && code'[at] == OrRnge(code[at]) && code'[ep] == lo && code'[ep + 1] == hi
             && forall j :: 0 <= j < |code| && j != at && j != ep && j != ep + 1 ==> code'[j] == code[j]
    ensures Emitted(code', ep0, WithLast(items, Range(a, lo, hi)), ep + 2)
  {
    var at := ep - ItemSize(Last(items));
    AtomFrame(code, code', at + 1, a);
    EmitInstead(code, code', ep0, items, ep, Range(a, lo, hi));
  }

  /** The case `\{`. */
  method Braces(src: seq<byte>, buf: array<byte>, ep0: nat, endbuf: nat, bracket: array<byte>, k: Regs, p0: nat,
                ghost st: State)
    returns (turn: Turn)
    requires Safe(src, ep0, endbuf, k) && k.ep < endbuf < buf.Length && p0 <= |src| && buf != bracket
    modifies buf
    ensures Confined(buf, ep0, endbuf)
    ensures turn.Continue? ==> Safe(src, ep0, endbuf, turn.k) && turn.k.bracketp == k.bracketp && turn.k.p >= p0
    ensures old(Tracks(buf[..], ep0, bracket[..], k, st)) ==>
              TurnIs(buf[..], ep0, bracket[..], turn, ReadBraces(src, st, p0))
  {
    hide Emitted, Encodes;
    if k.lastep == -1 {
      turn := DefChar(src, buf, ep0, endbuf, bracket, k, p0, LBRACE, st);
      return;
    }
    buf[k.lastep] := OrRnge(buf[k.lastep]);
    var status, p := Bounds(src, p0, buf, k.ep);
    if status == -1 { return Stop(PastEnd); }
    if status > 0 { return Stop(Fault(status)); }
    turn := Continue(k.(p := p, ep := k.ep + 2));
    if old(Tracks(buf[..], ep0, bracket[..], k, st)) && ReadBraces(src, st, p0).More? {
      RangeEmitted(old(buf[..]), buf[..], ep0, st.items, k.ep, Last(st.items).atom, buf[k.ep], buf[k.ep + 1]);
    }
  }

  /** Two bytes: an opcode and its group number. */
  method Mark(src: seq<byte>, buf: array<byte>, ep0: nat, endbuf: nat, bracket: array<byte>, k: Regs, p: nat,
              op: byte, g: byte, ghost st: State, ghost i: Item)
    returns (k': Regs)
    requires Safe(src, ep0, endbuf, k) && k.ep < endbuf < buf.Length && p <= |src| && buf != bracket
    requires (i == Open(g) && op == CBRA) || (i == Close(g) && op == CKET) || (i == Back(g) && op == CBACK)
    modifies buf
    ensures Confined(buf, ep0, endbuf)
    ensures Safe(src, ep0, endbuf, k') && k' == k.(p := p, ep := k'.ep, lastep := k'.lastep)
    ensures old(Tracks(buf[..], ep0, bracket[..], k, st)) ==>
              Tracks(buf[..], ep0, bracket[..], k', st.(pos := p, items := st.items + [i]))
  {
    hide Emitted, Encodes, Tracks;
    buf[k.ep] := op;
    buf[k.ep + 1] := g;
    k' := k.(p := p, ep := k.ep + 2, lastep := k.ep);
    if old(Tracks(buf[..], ep0, bracket[..], k, st)) {
      TracksAdd(old(buf[..]), buf[..], ep0, bracket[..], k, p, st, i);
    }
  }

  /** The case `\(`. */
  method GroupBegin(src: seq<byte>, buf: array<byte>, ep0: nat, endbuf: nat, bracket: array<byte>, k: Regs, p: nat,
                    ghost st: State)
    returns (k': Regs)
    requires Safe(src, ep0, endbuf, k) && k.ep < endbuf < buf.Length && p <= |src| && k.nbra < NBRA
    requires buf != bracket && bracket.Length == NBRA && forall i :: 0 <= i < k.bracketp ==> bracket[i] < NBRA
    modifies buf, bracket
    ensures Confined(buf, ep0, endbuf)
    ensures Safe(src, ep0, endbuf, k') && k'.p == p && forall i :: 0 <= i < k'.bracketp ==> bracket[i] < NBRA
    ensures old(Tracks(buf[..], ep0, bracket[..], k, st)) ==>
              Tracks(buf[..], ep0, bracket[..], k',
                     st.(pos := p, items := st.items + [Open(st.nbra)], open := st.open + [st.nbra], nbra := st.nbra + 1))
  {
    hide Emitted, Encodes, Tracks;
    TracksFields(buf[..], ep0, bracket[..], k, st);
    var g: byte := k.nbra;
    k' := Mark(src, buf, ep0, endbuf, bracket, k, p, CBRA, g, st, Open(g));
    if old(Tracks(buf[..], ep0, bracket[..], k, st)) {
      TracksPush(buf[..], ep0, bracket[..], k', st.(pos := p, items := st.items + [Open(g)]), g);
    }
    ghost var stack := bracket[..];
    bracket[k.bracketp] := g;
    assert bracket[..] == stack[k.bracketp := g];
    k' := k'.(bracketp := k.bracketp + 1, nbra := k.nbra + 1);
  }

  /** The case `\)`. */
  method GroupEnd(src: seq<byte>, buf: array<byte>, ep0: nat, endbuf: nat, bracket: array<byte>, k: Regs, p: nat,
                  ghost st: State)
    returns (k': Regs)
    requires Safe(src, ep0, endbuf, k) && k.ep < endbuf < buf.Length && p <= |src| && 0 < k.bracketp
    requires buf != bracket && bracket.Length == NBRA && forall i :: 0 <= i < k.bracketp ==> bracket[i] < NBRA
    modifies buf
    ensures Confined(buf, ep0, endbuf)
    ensures Safe(src, ep0, endbuf, k') && k'.p == p && k'.bracketp < k.bracketp
    ensures old(Tracks(buf[..], ep0, bracket[..], k, st)) ==>
              st.open != [] &&
              var top := |st.open| - 1;
              Tracks(buf[..], ep0, bracket[..], k',
                     st.(pos := p, items := st.items + [Close(st.open[top])], open := st.open[..top], closed := st.closed + 1))
  {
    hide Emitted, Encodes, Tracks;
    var g := bracket[k.bracketp - 1];
    k' := Mark(src, buf, ep0, endbuf, bracket, k, p, CKET, g, st, Close(g));
    if old(Tracks(buf[..], ep0, bracket[..], k, st)) {
      TracksPop(buf[..], ep0, bracket[..], k', st.(pos := p, items := st.items + [Close(g)]));
    }
    k' := k'.(bracketp := k.bracketp - 1, closed := k.closed + 1);
  }

  /** The case of a backslash. */
  method Escape(src: seq<byte>, buf: array<byte>, ep0: nat, endbuf: nat, bracket: array<byte>, k: Regs, p: nat,
                ghost st: State)
    returns (turn: Turn)
    requires Safe(src, ep0, endbuf, k) && k.ep < endbuf < buf.Length && p <= |src|
    requires buf != bracket && bracket.Length == NBRA && forall i :: 0 <= i < k.bracketp ==> bracket[i] < NBRA
    modifies buf, bracket
    ensures Confined(buf, ep0, endbuf)
    ensures turn.Continue? ==> Safe(src, ep0, endbuf, turn.k) && turn.k.p >= p
    ensures turn.Continue? ==> forall i :: 0 <= i < turn.k.bracketp ==> bracket[i] < NBRA
    ensures old(Tracks(buf[..], ep0, bracket[..], k, st)) ==>
              TurnIs(buf[..], ep0, bracket[..], turn, ReadEscape(src, st, p))
  {
    hide Emitted, Encodes, Tracks;
    TracksFields(buf[..], ep0, bracket[..], k, st);
    if p >= |src| { return Stop(PastEnd); }
    var c := src[p];
    if c == LPAREN {
      if k.nbra >= NBRA { return Stop(Fault(43)); }
      var k' := GroupBegin(src, buf, ep0, endbuf, bracket, k, p + 1, st);
      turn := Continue(k');
    } else if c == RPAREN {
      if k.bracketp <= 0 { return Stop(Fault(42)); }
      var k' := GroupEnd(src, buf, ep0, endbuf, bracket, k, p + 1, st);
      turn := Continue(k');
    } else if c == LBRACE {
      turn := Braces(src, buf, ep0, endbuf, bracket, k, p + 1, st);
    } else if c == NL {
      return Stop(Fault(36));
    } else if c == LOWER_N {
      turn := DefChar(src, buf, ep0, endbuf, bracket, k, p + 1, NL, st);
    } else if ZERO < c <= NINE {
      var g := c - ZERO - 1;
      if g >= k.closed { return Stop(Fault(25)); }
      var k' := Mark(src, buf, ep0, endbuf, bracket, k, p + 1, CBACK, g, st, Back(g));
      turn := Continue(k');
    } else {
      turn := DefChar(src, buf, ep0, endbuf, bracket, k, p + 1, c, st);
    }
  }

  /** RETURN after the end mark, unless a group is still open. */
  method Finished(buf: array<byte>, ep0: nat, endbuf: nat, bracket: array<byte>, k: Regs, ghost st: State, ghost newline: bool)
    returns (turn: Turn)
    requires ep0 <= k.ep < endbuf < buf.Length && buf != bracket
    modifies buf
    ensures Confined(buf, ep0, endbuf)
    ensures turn.Stop?
    ensures old(Tracks(buf[..], ep0, bracket[..], k, st)) ==>
              TurnIs(buf[..], ep0, bracket[..], turn, Finish(st, newline))
  {
    hide Emitted, Encodes;
    buf[k.ep] := CCEOF;
    if old(Tracks(buf[..], ep0, bracket[..], k, st)) {
      EmittedFrame(old(buf[..]), buf[..], ep0, st.items, k.ep);
      EmittedEncodes(buf[..], ep0, st.items, k.ep);
    }
    if k.bracketp != 0 { return Stop(Fault(42)); }
    return Stop(Return(k.ep + 1));
  }

  class Compiler {
    var sed: bool
    var circf: bool
    var nbra: nat
    var nodelim: bool

    /** compile: the buffer runs from ep0 to endbuf; a program of exactly that many bytes may still put its
        last byte at endbuf itself. */
    method Compile(src: seq<byte>, buf: array<byte>, ep0: nat, endbuf: nat, eof: int) returns (r: Result)
      requires ep0 <= endbuf < buf.Length && CString(src)
      modifies this, buf
      ensures sed == old(sed)
      ensures forall i :: 0 <= i < buf.Length && (i < ep0 || i > endbuf) ==> buf[i] == old(buf[i])
      ensures
        var o := Parse(src, eof, sed, endbuf - ep0, old(buf[ep0]) != 0);
        && ResultIs(buf[..], ep0, r, o)
        && match o
           case Parsed(_, groups, newline) =>
             circf == Anchored(src) && nbra == groups && nodelim == (newline || old(nodelim))
           case Reuse(newline) =>
             circf == old(circf) && nbra == old(nbra) && nodelim == (newline || old(nodelim)) && buf[..] == old(buf[..])
           case _ => true
    {
      hide Emitted, Encodes, Tracks, ReadItem;
      ghost var goal := Parse(src, eof, sed, endbuf - ep0, buf[ep0] != 0);
      if src == [] { return PastEnd; }
      var c := src[0];
      var p := 1;
      if c == eof || c == NL {
        if c == NL {
          p := p - 1;
          nodelim := true;
        }
        if buf[ep0] == 0 && !sed { return Fault(41); }
        return Return(ep0);
      }
      var bracket := new byte[NBRA];
      circf, nbra := false, 0;
      if c == CARET { circf := true; } else { p := p - 1; }
      var k := Regs(p, ep0, -1, 0, 0, 0);
      ghost var st := State(p, [], [], 0, 0);
      ghost var lost := false;
      TracksNothing(buf[..], ep0, bracket[..], p);
      while true
        invariant Safe(src, ep0, endbuf, k)
        invariant forall i :: 0 <= i < k.bracketp ==> bracket[i] < NBRA
        invariant forall i :: 0 <= i < buf.Length && (i < ep0 || i > endbuf) ==> buf[i] == old(buf[i])
        invariant sed == old(sed) && nodelim == old(nodelim) && circf == Anchored(src) && nbra == k.nbra
        invariant lost ==> goal == Unspecified
        invariant !lost ==> Tracks(buf[..], ep0, bracket[..], k, st)
        invariant !lost ==> goal == ReadItems(src, eof, sed, endbuf - ep0, st)
        decreases |src| - k.p
      {
        TracksFields(buf[..], ep0, bracket[..], k, st);
        var turn := OneTurn(src, buf, ep0, endbuf, bracket, k, eof, st);
        ghost var n := ReadItem(src, eof, sed, endbuf - ep0, st);
        match turn {
          case Stop(result) => return result;
          case Continue(k') => k := k';
        }
        nbra := k.nbra;
        if !lost {
          match n {
            case More(st') => st := st';
            case Done(o) => lost := true;
          }
        }
      }
    }

    method OneTurn(src: seq<byte>, buf: array<byte>, ep0: nat, endbuf: nat, bracket: array<byte>, k: Regs, eof: int,
                   ghost st: State)
      returns (turn: Turn)
      requires Safe(src, ep0, endbuf, k) && endbuf < buf.Length && CString(src)
      requires buf != bracket && bracket.Length == NBRA && forall i :: 0 <= i < k.bracketp ==> bracket[i] < NBRA
      modifies this`nodelim, buf, bracket
      ensures Confined(buf, ep0, endbuf)
      ensures turn.Continue? ==> Safe(src, ep0, endbuf, turn.k) && turn.k.p > k.p && nodelim == old(nodelim)
      ensures turn.Continue? ==> forall i :: 0 <= i < turn.k.bracketp ==> bracket[i] < NBRA
      ensures old(Tracks(buf[..], ep0, bracket[..], k, st)) ==>
                var n := ReadItem(src, eof, sed, endbuf - ep0, st);
                TurnIs(buf[..], ep0, bracket[..], turn, n) &&
                (n.Done? && n.outcome.Parsed? ==> nodelim == (n.outcome.newline || old(nodelim)))
    {
      hide Emitted, Encodes, Tracks;
      TracksFields(buf[..], ep0, bracket[..], k, st);
      if k.ep >= endbuf { return Stop(Fault(50)); }
      if k.p >= |src| { return Stop(PastEnd); }
      var c, p := src[k.p], k.p + 1;
      if c == BACKSLASH && p >= |src| { return Stop(PastEnd); }
      if c == eof {
        turn := Finished(buf, ep0, endbuf, bracket, k, st, false);
      } else if c == PERIOD {
        turn := AnyChar(src, buf, ep0, endbuf, bracket, k, p, CDOT, st, One(Dot));
      } else if c == NL {
        if sed { return Stop(Fault(36)); }
        nodelim := true;
        turn := Finished(buf, ep0, endbuf, bracket, k, st, true);
      } else if c == ASTERISK {
        turn := StarChar(src, buf, ep0, endbuf, bracket, k, p, st);
      } else if c == DOLLAR {
        if p >= |src| { return Stop(PastEnd); }
        if src[p] != eof && src[p] != NL {
          turn := DefChar(src, buf, ep0, endbuf, bracket, k, p, DOLLAR, st);
        } else {
          turn := AnyChar(src, buf, ep0, endbuf, bracket, k, p, CDOL, st, Item.Dollar);
        }
      } else if c == LBRACKET {
        turn := Bracket(src, buf, ep0, endbuf, bracket, k, p, st);
      } else if c == BACKSLASH {
        turn := Escape(src, buf, ep0, endbuf, bracket, k, p, st);
      } else {
        turn := DefChar(src, buf, ep0, endbuf, bracket, k, p, c, st);
      }
    }
  }

  predicate Anchored(src: seq<byte>) {
    src != [] && src[0] == CARET
  }
}
