/** `advance` and `step` of head/regexp.h: the backtracking interpreter and its static state. */
module RegexpMatcher {
  import opened Words
  import opened RegexpPattern
  import opened RegexpSearch
  import opened RegexpCode

  /** How a call ends.  `Hangs` stands for a call that never returns. */
  datatype Result = Failed | Matched | Hangs

  /** A text as C sees it: the characters and then a NUL. */
  ghost predicate IsText(buf: seq<byte>, t: seq<byte>) {
    buf == t + [0] && 0 !in t
  }

  function VerdictOf(p: Path): Verdict {
    if p.NoPath? then Fail else p.verdict
  }

  /** Captures lie in the part of the text already passed. */
  ghost predicate Sane(gs: Groups, pos: int) {
    && gs.ket.Keys <= gs.bra.Keys
    && (forall g :: g in gs.bra ==> g < NBRA && 0 <= gs.bra[g] <= pos)
    && (forall g :: g in gs.ket ==> gs.bra[g] <= gs.ket[g] <= pos)
  }

  ghost predicate Extends(gs: Groups, gs': Groups) {
    && (forall g :: g in gs.bra ==> g in gs'.bra && gs.bra[g] == gs'.bra[g])
    && (forall g :: g in gs.ket ==> g in gs'.ket && gs.ket[g] == gs'.ket[g])
  }

  /** strncmp(&buf[a], &buf[b], n) == 0 */
  predicate Ecmp(buf: seq<byte>, a: nat, b: nat, n: nat)
    requires a < |buf| && b < |buf| && 0 !in buf[..|buf| - 1] && buf[|buf| - 1] == 0
    decreases n
  {
    n == 0 || (buf[a] == buf[b] && (buf[a] == 0 || Ecmp(buf, a + 1, b + 1, n - 1)))
  }

  lemma CopyStartsAlike(t: seq<byte>, s: seq<byte>, p: nat)
    requires s != []
    ensures CopyAt(t, s, p) ==> p < |t| && t[p] == s[0]
  {
    if CopyAt(t, s, p) {
      assert t[p..p + |s|][0] == t[p];
    }
  }

  lemma {:induction false} EcmpIffCopy(buf: seq<byte>, t: seq<byte>, a: nat, b: nat, n: nat)
    requires IsText(buf, t) && a + n <= |t| && b <= |t|
    ensures Ecmp(buf, a, b, n) <==> CopyAt(t, t[a..a + n], b)
    decreases n
  {
    if n > 0 {
      if b < |t| && t[a] == t[b] {
        EcmpIffCopy(buf, t, a + 1, b + 1, n - 1);
        assert t[a..a + n] == [t[a]] + t[a + 1..a + n];
        if b + n <= |t| {
          assert t[b..b + n] == [t[b]] + t[b + 1..b + n];
        }
      } else {
        CopyStartsAlike(t, t[a..a + n], b);
      }
    }
  }

  lemma BackIsClosed(items: seq<Item>, begun: set<nat>, done: set<nat>)
    requires Scoped(items, begun, done) && items != [] && items[0].Back?
    ensures items[0].group in done
  {}

  class Matcher {
    const braslist: array<int>
    const braelist: array<int>
    var low: int
    var size: int
    var loc1: int
    var loc2: int
    var locs: int
    var circf: bool

    constructor ()
      ensures Valid()
      ensures fresh(braslist) && fresh(braelist) && locs == -1 && !circf
    {
      locs, circf := -1, false;
      braslist := new int[NBRA];
      braelist := new int[NBRA];
    }

    ghost predicate Valid() {
      braslist.Length == NBRA && braelist.Length == NBRA && braslist != braelist
    }

    /** The slot arrays hold the groups of the current path.  Other slots may hold anything. */
    ghost predicate SlotsHold(gs: Groups)
      requires Valid()
      reads braslist, braelist
    {
      && (forall g :: g in gs.bra && g < NBRA ==> braslist[g] == gs.bra[g])
      && (forall g :: g in gs.ket && g < NBRA ==> braelist[g] == gs.ket[g])
    }

    method GetRnge(code: seq<byte>, str: nat)
      requires str + 1 < |code|
      modifies this`low, this`size
      ensures low == code[str] && size == MaxCount(code[str], code[str + 1]) - code[str]
    {
      low := code[str];
      size := if code[str + 1] == 255 then 20000 else code[str + 1] - low;
    }

    /** A call's view of the world: `items` are encoded at ep, lp is in the text, and the slots of the
        groups passed so far are right. */
    ghost predicate Ready(buf: seq<byte>, t: seq<byte>, lp: int, code: seq<byte>, ep: int, items: seq<Item>, gs: Groups)
      reads braslist, braelist
    {
      && Valid() && IsText(buf, t) && 0 <= lp <= |t|
      && ep >= 0 && Encodes(code, ep, items)
      && Scoped(items, gs.bra.Keys, gs.ket.Keys) && Sane(gs, lp) && SlotsHold(gs)
    }

    /** The call's result is the verdict v; a failed call leaves loc2 alone. */
    ghost predicate Ends(r: Result, v: Verdict, loc2': int)
      requires Valid()
      reads this`loc2, braslist, braelist
    {
      match v
      case Fail => r == Failed && loc2 == loc2'
      case Accept(end, gs) => r == Matched && loc2 == end && SlotsHold(gs)
      case Hang => r == Hangs
    }

    /** advance: match the program at ep0 against the text at lp0. */
    method Advance(buf: seq<byte>, code: seq<byte>, lp0: nat, ep0: nat,
                   ghost t: seq<byte>, ghost items: seq<Item>, ghost gs0: Groups)
      returns (r: Result)
      requires Ready(buf, t, lp0, code, ep0, items, gs0)
      modifies this`low, this`size, this`loc2, braslist, braelist
      ensures SlotsHold(gs0)
      ensures Ends(r, VerdictOf(Search(t, locs, items, lp0, gs0)), old(loc2))
      decreases |code| - ep0, 0
    {
      var lp: nat, ep: nat := lp0, ep0;
      ghost var its, gs := items, gs0;
      while true
        invariant Ready(buf, t, lp, code, ep, its, gs)
        invariant Extends(gs0, gs) && ep0 <= ep < |code|
        invariant loc2 == old(loc2)
        invariant Search(t, locs, items, lp0, gs0) == Search(t, locs, its, lp, gs)
        decreases |code| - ep
      {
        OpcodeTells(code, ep, its);
        var op := code[ep];
        ep := ep + 1;
        if op == CCEOF {
          loc2 := lp;
          return Matched;
        }
        if op == CBACK + STAR {
          r := BackLoop(buf, code, lp, ep, t, its, gs);
          return;
        } else if op % 4 == STAR {
          r := StarCase(buf, code, op - STAR, lp, ep, t, its, gs);
          return;
        } else if op % 4 == RNGE {
          r := RangeCase(buf, code, op - RNGE, lp, ep, t, its, gs);
          return;
        }
        var ok;
        ok, lp, ep, gs := Unrepeated(buf, code, op, lp, ep, t, its, gs);
        if !ok { return Failed; }
        its := its[1..];
      }
    }

    /** The effect of one unrepeated item on a search in progress. */
    ghost predicate Steps(buf: seq<byte>, t: seq<byte>, code: seq<byte>, items: seq<Item>, lp0: nat, gs0: Groups,
                          ok: bool, lp: nat, ep: nat, gs: Groups)
      requires items != [] && lp0 <= |t|
      reads this`locs, braslist, braelist
    {
      if ok then
        && Ready(buf, t, lp, code, ep, items[1..], gs) && Extends(gs0, gs)
        && Search(t, locs, items, lp0, gs0) == Search(t, locs, items[1..], lp, gs)
      else
        Search(t, locs, items, lp0, gs0) == NoPath
    }

    /** The cases without a quantifier. */
    method Unrepeated(buf: seq<byte>, code: seq<byte>, op: byte, lp0: nat, ep0: nat,
                      ghost t: seq<byte>, ghost items: seq<Item>, ghost gs0: Groups)
      returns (ok: bool, lp: nat, ep: nat, ghost gs: Groups)
      requires Ready(buf, t, lp0, code, ep0 - 1, items, gs0)
      requires items != [] && code[ep0 - 1] == op
      requires !items[0].Star? && !items[0].Range? && !items[0].BackStar?
      modifies braslist, braelist
      ensures SlotsHold(gs0) && ep0 <= ep
      ensures Steps(buf, t, code, items, lp0, gs0, ok, lp, ep, gs)
    {
      OpcodeTells(code, ep0 - 1, items);
      if op == CDOL {
        ok, lp, ep, gs := buf[lp0] == 0, lp0, ep0, gs0;
      } else if op == CBRA {
        ep, gs := GroupBegin(buf, code, lp0, ep0, t, items, gs0);
        ok, lp := true, lp0;
      } else if op == CKET {
        ep, gs := GroupEnd(buf, code, lp0, ep0, t, items, gs0);
        ok, lp := true, lp0;
      } else if op == CBACK {
        ok, lp, ep := BackReference(buf, code, lp0, ep0, t, items, gs0);
        gs := gs0;
      } else {
        ok, lp, ep := Character(buf, code, op, lp0, ep0, t, items, gs0);
        gs := gs0;
      }
    }

    method Character(buf: seq<byte>, code: seq<byte>, op: byte, lp0: nat, ep0: nat,
                     ghost t: seq<byte>, ghost items: seq<Item>, ghost gs: Groups)
      returns (ok: bool, lp: nat, ep: nat)
      requires Ready(buf, t, lp0, code, ep0 - 1, items, gs)
      requires items != [] && items[0].One? && code[ep0 - 1] == op
      ensures ep0 <= ep
      ensures Steps(buf, t, code, items, lp0, gs, ok, lp, ep, gs)
    {
      lp := lp0 + 1;
      TestsIffAccepts(code, ep0, items[0].atom, buf[lp - 1]);
      ok := Tests(code, ep0, op, buf[lp - 1]);
      ep := ep0 + Operands(op);
    }

    /** CBRA overwrites the group's slot; nothing ever restores it. */
    method GroupBegin(buf: seq<byte>, code: seq<byte>, lp: nat, ep0: nat,
                      ghost t: seq<byte>, ghost items: seq<Item>, ghost gs0: Groups)
      returns (ep: nat, ghost gs: Groups)
      requires Ready(buf, t, lp, code, ep0 - 1, items, gs0)
      requires items != [] && items[0].Open?
      modifies braslist
      ensures SlotsHold(gs0) && ep0 <= ep
      ensures Steps(buf, t, code, items, lp, gs0, true, lp, ep, gs)
    {
      ghost var g := items[0].group;
      ep := ep0 + 1;
      braslist[code[ep0]] := lp;
      gs := gs0.(bra := gs0.bra[g := lp]);
      assert gs.bra.Keys == gs0.bra.Keys + {g};
    }

    /** CKET does the same for the end of the group. */
    method GroupEnd(buf: seq<byte>, code: seq<byte>, lp: nat, ep0: nat,
                    ghost t: seq<byte>, ghost items: seq<Item>, ghost gs0: Groups)
      returns (ep: nat, ghost gs: Groups)
      requires Ready(buf, t, lp, code, ep0 - 1, items, gs0)
      requires items != [] && items[0].Close?
      modifies braelist
      ensures SlotsHold(gs0) && ep0 <= ep
      ensures Steps(buf, t, code, items, lp, gs0, true, lp, ep, gs)
    {
      ghost var g := items[0].group;
      ep := ep0 + 1;
      braelist[code[ep0]] := lp;
      gs := gs0.(ket := gs0.ket[g := lp]);
      assert gs.ket.Keys == gs0.ket.Keys + {g};
    }

    /** CBACK compares with what the slots hold now. */
    method BackReference(buf: seq<byte>, code: seq<byte>, lp0: nat, ep0: nat,
                         ghost t: seq<byte>, ghost items: seq<Item>, ghost gs: Groups)
      returns (ok: bool, lp: nat, ep: nat)
      requires Ready(buf, t, lp0, code, ep0 - 1, items, gs)
      requires items != [] && items[0].Back?
      ensures ep0 <= ep
      ensures Steps(buf, t, code, items, lp0, gs, ok, lp, ep, gs)
    {
      hide Ready, Steps, Search, Captured;
      SlotsTell(buf, t, lp0, code, ep0, items, gs);
      lp := lp0;
      var bbeg := braslist[code[ep0]];
      var ct := braelist[code[ep0]] - bbeg;
      ep := ep0 + 1;
      EcmpIffCopy(buf, t, bbeg, lp, ct);
      ok := Ecmp(buf, bbeg, lp, ct);
      PastReference(buf, t, lp0, code, ep0, items, gs, ok);
      if ok { lp := lp + ct; }
    }

    /** The slots of a reference hold what its group captured. */
    lemma SlotsTell(buf: seq<byte>, t: seq<byte>, lp: nat, code: seq<byte>, ep: nat, items: seq<Item>, gs: Groups)
      requires Ready(buf, t, lp, code, ep - 1, items, gs) && items != [] && items[0].Back?
      ensures Valid() && IsText(buf, t) && lp <= |t| && ep < |code| && code[ep] == items[0].group < NBRA
      ensures var bbeg, bend := braslist[code[ep]], braelist[code[ep]];
              0 <= bbeg <= bend <= |t| && t[bbeg..bend] == Captured(t, gs, items[0].group)
    {
      hide Scoped;
      BackIsClosed(items, gs.bra.Keys, gs.ket.Keys);
    }

    lemma PastReference(buf: seq<byte>, t: seq<byte>, lp: nat, code: seq<byte>, ep: nat, items: seq<Item>, gs: Groups, ok: bool)
      requires Ready(buf, t, lp, code, ep - 1, items, gs) && items != [] && items[0].Back? && lp <= |t|
      requires ok == CopyAt(t, Captured(t, gs, items[0].group), lp)
      ensures Steps(buf, t, code, items, lp, gs, ok, if ok then lp + |Captured(t, gs, items[0].group)| else lp, ep + 1, gs)
    {
      hide Captured, IsText;
    }

    static function Operands(op: byte): nat {
      if op == CCHR then 1 else if op == CCL || op == NCCL then 16 else if op == CXCL then 32 else 0
    }

    /** The four cases `op | STAR`: run as far as the test holds. */
    method StarCase(buf: seq<byte>, code: seq<byte>, op: byte, lp0: nat, ep: nat,
                    ghost t: seq<byte>, ghost items: seq<Item>, ghost gs: Groups)
      returns (r: Result)
      requires Ready(buf, t, lp0, code, ep - 1, items, gs)
      requires items != [] && items[0].Star? && code[ep - 1] == op + STAR
      modifies this`low, this`size, this`loc2, braslist, braelist
      ensures SlotsHold(gs)
      ensures Ends(r, VerdictOf(Search(t, locs, items, lp0, gs)), old(loc2))
      decreases |code| - ep, 2
    {
      ghost var a := items[0].atom;
      var curlp := lp0;
      var lp := lp0 + 1;
      TestsIffAccepts(code, ep, a, buf[lp - 1]);
      while Tests(code, ep, op, buf[lp - 1])
        invariant lp0 < lp <= |t| + 1
        invariant Longest(t, a, lp0, |t|) == lp - 1 - lp0 + Longest(t, a, lp - 1, |t| - (lp - 1 - lp0))
        invariant Tests(code, ep, op, buf[lp - 1]) <==> Accepts(a, buf[lp - 1])
        decreases |buf| - lp
        modifies {}
      {
        lp := lp + 1;
        TestsIffAccepts(code, ep, a, buf[lp - 1]);
      }
      r := TryShorter(buf, code, lp, curlp, ep + Operands(op), t, items[1..], lp0, 0, gs);
    }

    /** The five cases `op | RNGE`: the required repetitions, then as many more as allowed. */
    method RangeCase(buf: seq<byte>, code: seq<byte>, op: byte, lp0: nat, ep: nat,
                     ghost t: seq<byte>, ghost items: seq<Item>, ghost gs: Groups)
      returns (r: Result)
      requires Ready(buf, t, lp0, code, ep - 1, items, gs)
      requires items != [] && items[0].Range? && code[ep - 1] == op + RNGE
      modifies this`low, this`size, this`loc2, braslist, braelist
      ensures SlotsHold(gs)
      ensures Ends(r, VerdictOf(Search(t, locs, items, lp0, gs)), old(loc2))
      decreases |code| - ep, 2
    {
      ghost var a, lo, max := items[0].atom, items[0].lo, MaxCount(items[0].lo, items[0].hi);
      GetRnge(code, ep + Operands(op));
      var ok, curlp := RequiredRun(buf, code, op, lp0, ep, t, a, max);
      if !ok { return Failed; }
      var lp := OptionalRun(buf, code, op, curlp, ep, t, a);
      r := TryShorter(buf, code, lp, curlp, ep + Operands(op) + 2, t, items[1..], lp0, lo, gs);
    }

    /** The loop on `low`. */
    method RequiredRun(buf: seq<byte>, code: seq<byte>, op: byte, lp0: nat, ep: nat,
                       ghost t: seq<byte>, ghost a: Atom, ghost max: int)
      returns (ok: bool, lp: nat)
      requires Valid() && IsText(buf, t) && lp0 <= |t|
      requires AtomArgsAt(code, ep, a) && NulFreeAtom(a) && op == AtomOp(a)
      requires 0 <= low <= max
      modifies this`low
      ensures !ok ==> Longest(t, a, lp0, max) < old(low)
      ensures ok ==> lp == lp0 + old(low) <= |t|
      ensures ok ==> Longest(t, a, lp0, max) == old(low) + Longest(t, a, lp, max - old(low))
    {
      lp := lp0;
      while low != 0
        invariant 0 <= low <= old(low) && lp == lp0 + (old(low) - low) <= |t|
        invariant Longest(t, a, lp0, max) == lp - lp0 + Longest(t, a, lp, max - (lp - lp0))
        decreases low
      {
        low := low - 1;
        lp := lp + 1;
        TestsIffAccepts(code, ep, a, buf[lp - 1]);
        if !Tests(code, ep, op, buf[lp - 1]) { return false, lp; }
      }
      low := low - 1;
      return true, lp;
    }

    /** The loop on `size`: ends one past the longest run that `size` allows. */
    method OptionalRun(buf: seq<byte>, code: seq<byte>, op: byte, curlp: nat, ep: nat, ghost t: seq<byte>, ghost a: Atom)
      returns (lp: nat)
      requires Valid() && IsText(buf, t) && curlp <= |t|
      requires AtomArgsAt(code, ep, a) && NulFreeAtom(a) && op == AtomOp(a)
      requires 0 <= size
      modifies this`size
      ensures lp == curlp + Longest(t, a, curlp, old(size)) + 1 <= |t| + 1
    {
      lp := curlp;
      while true
        invariant 0 <= size && curlp <= lp <= |t| && lp - curlp == old(size) - size
        invariant Longest(t, a, curlp, old(size)) == lp - curlp + Longest(t, a, lp, size)
        decreases size
      {
        size := size - 1;
        if size < 0 { break; }
        lp := lp + 1;
        TestsIffAccepts(code, ep, a, buf[lp - 1]);
        if !Tests(code, ep, op, buf[lp - 1]) { break; }
      }
      if size < 0 { lp := lp + 1; }
    }

    /** The label `star`: lp0 is one past the end of the longest run. */
    method TryShorter(buf: seq<byte>, code: seq<byte>, lp0: nat, curlp: nat, ep: nat,
                      ghost t: seq<byte>, ghost rest: seq<Item>, ghost p: nat, ghost lo: nat, ghost gs: Groups)
      returns (r: Result)
      requires p + lo == curlp < lp0 <= |t| + 1
      requires Ready(buf, t, p, code, ep, rest, gs)
      modifies this`low, this`size, this`loc2, braslist, braelist
      ensures SlotsHold(gs)
      ensures Ends(r, VerdictOf(TryFrom(t, locs, rest, p, lp0 - 1 - p, lo, gs)), old(loc2))
      decreases |code| - ep, 1
    {
      var lp := lp0;
      while true
        invariant curlp < lp <= lp0
        invariant SlotsHold(gs) && loc2 == old(loc2)
        invariant VerdictOf(TryFrom(t, locs, rest, p, lp0 - 1 - p, lo, gs)) == VerdictOf(TryFrom(t, locs, rest, p, lp - 1 - p, lo, gs))
        decreases lp
      {
        lp := lp - 1;
        if lp == locs { break; }
        r := Advance(buf, code, lp, ep, t, rest, gs);
        SearchIsFirst(t, locs, rest, lp, gs);
        if r != Failed { return; }
        if !(lp > curlp) { break; }
      }
      return Failed;
    }

    /** The case CBACK|STAR.  An empty capture makes the first loop run for ever. */
    method BackLoop(buf: seq<byte>, code: seq<byte>, lp0: nat, ep0: nat,
                    ghost t: seq<byte>, ghost items: seq<Item>, ghost gs: Groups)
      returns (r: Result)
      requires Ready(buf, t, lp0, code, ep0 - 1, items, gs)
      requires items != [] && items[0].BackStar?
      modifies this`low, this`size, this`loc2, braslist, braelist
      ensures SlotsHold(gs)
      ensures Ends(r, VerdictOf(Search(t, locs, items, lp0, gs)), old(loc2))
      decreases |code| - ep0, 2
    {
      var bbeg := braslist[code[ep0]];
      var ct := braelist[code[ep0]] - bbeg;
      var ep := ep0 + 1;
      ghost var s := Captured(t, gs, items[0].group);
      assert t[bbeg..bbeg + ct] == s;
      if ct == 0 { return Hangs; }
      ghost var n := MostCopies(t, s, lp0);
      var lp := AllCopies(buf, bbeg, ct, lp0, t, s);
      r := TryFewer(buf, code, lp, lp0, ep, ct, t, items[1..], n, gs);
    }

    method AllCopies(buf: seq<byte>, bbeg: nat, ct: nat, curlp: nat, ghost t: seq<byte>, ghost s: seq<byte>)
      returns (lp: nat)
      requires IsText(buf, t) && curlp <= |t| && bbeg + ct <= |t|
      requires ct > 0 && s == t[bbeg..bbeg + ct]
      ensures lp == curlp + MostCopies(t, s, curlp) * ct <= |t|
    {
      lp := curlp;
      ghost var k: nat := 0;
      EcmpIffCopy(buf, t, bbeg, lp, ct);
      while Ecmp(buf, bbeg, lp, ct)
        invariant lp == curlp + k * ct <= |t|
        invariant MostCopies(t, s, curlp) == k + MostCopies(t, s, lp)
        invariant Ecmp(buf, bbeg, lp, ct) <==> CopyAt(t, s, lp)
        decreases |t| - lp
      {
        assert (k + 1) * ct == k * ct + ct;
        lp, k := lp + ct, k + 1;
        EcmpIffCopy(buf, t, bbeg, lp, ct);
      }
    }

    method TryFewer(buf: seq<byte>, code: seq<byte>, lp0: nat, curlp: nat, ep: nat, ct: nat,
                    ghost t: seq<byte>, ghost rest: seq<Item>, ghost n: nat, ghost gs: Groups)
      returns (r: Result)
      requires ct > 0 && StepsAfter(curlp, lp0, n, ct) && lp0 <= |t|
      requires Ready(buf, t, curlp, code, ep, rest, gs)
      modifies this`low, this`size, this`loc2, braslist, braelist
      ensures SlotsHold(gs)
      ensures Ends(r, VerdictOf(TryCopies(t, locs, rest, curlp, lp0, ct, n, gs)), old(loc2))
      decreases |code| - ep, 1
    {
      hide StepsAfter;
      var lp: int := lp0;
      ghost var k: int := n;
      StepBack(curlp, lp, k, ct);
      while lp >= curlp
        invariant lp <= lp0 && StepsAfter(curlp, lp, k, ct) && (k >= 0 <==> lp >= curlp)
        invariant SlotsHold(gs) && loc2 == old(loc2)
        invariant VerdictOf(TryCopies(t, locs, rest, curlp, lp0, ct, n, gs)) ==
                  VerdictOf(TryCopies(t, locs, rest, curlp, lp, ct, k, gs))
        decreases lp
      {
        r := Advance(buf, code, lp, ep, t, rest, gs);
        SearchIsFirst(t, locs, rest, lp, gs);
        if r != Failed { return; }
        StepBack(curlp, lp, k, ct);
        lp, k := lp - ct, k - 1;
        StepBack(curlp, lp, k, ct);
      }
      return Failed;
    }

    /** What a search from p1 must report: the leftmost start with a choice that does not fail, and at that
        start the first such choice. */
    ghost predicate Leftmost(r: Result, t: seq<byte>, items: seq<Item>, p1: nat)
      requires Valid()
      reads this`loc1, this`loc2, this`locs, braslist, braelist
    {
      match r
      case Failed => forall i :: p1 <= i <= |t| ==> NoChoice(t, locs, items, i, NO_GROUPS)
      case Matched =>
        && p1 <= loc1 <= |t|
        && (forall i :: p1 <= i < loc1 ==> NoChoice(t, locs, items, i, NO_GROUPS))
        && Found(t, items, loc1)
      case Hangs =>
        exists i :: p1 <= i <= |t|
          && (forall j :: p1 <= j < i ==> NoChoice(t, locs, items, j, NO_GROUPS))
          && HangsAt(t, items, i)
    }

    /** The first choice that does not fail at `start` is one that never ends. */
    ghost predicate HangsAt(t: seq<byte>, items: seq<Item>, start: int)
      reads this`locs
    {
      exists c :: FirstChoice(t, locs, items, start, NO_GROUPS, c) && Follow(t, locs, items, start, NO_GROUPS, c).Hang?
    }

    /** loc2 and the group slots are those of the first choice that does not fail at `start`. */
    ghost predicate Found(t: seq<byte>, items: seq<Item>, start: int)
      requires Valid()
      reads this`loc2, this`locs, braslist, braelist
    {
      exists c, gs ::
        FirstChoice(t, locs, items, start, NO_GROUPS, c)
        && Follow(t, locs, items, start, NO_GROUPS, c) == Accept(loc2, gs) && SlotsHold(gs)
    }

    /** One attempt, in declarative terms. */
    method Attempt(buf: seq<byte>, code: seq<byte>, p1: nat, p2: nat, ghost t: seq<byte>, ghost items: seq<Item>)
      returns (r: Result)
      requires Ready(buf, t, p1, code, p2, items, NO_GROUPS)
      modifies this`low, this`size, this`loc2, braslist, braelist
      ensures r == Failed ==> NoChoice(t, locs, items, p1, NO_GROUPS) && loc2 == old(loc2)
      ensures r == Matched ==> Found(t, items, p1)
      ensures r == Hangs ==> HangsAt(t, items, p1)
    {
      r := Advance(buf, code, p1, p2, t, items, NO_GROUPS);
      SearchIsFirst(t, locs, items, p1, NO_GROUPS);
    }

    method Step(buf: seq<byte>, code: seq<byte>, p1_0: nat, p2: nat, ghost t: seq<byte>, ghost items: seq<Item>)
      returns (r: Result)
      requires Ready(buf, t, p1_0, code, p2, items, NO_GROUPS)
      modifies this`low, this`size, this`loc1, this`loc2, braslist, braelist
      ensures !circf ==> Leftmost(r, t, items, p1_0)
      ensures circf ==> loc1 == p1_0
      ensures circf && r == Failed ==> NoChoice(t, locs, items, p1_0, NO_GROUPS)
      ensures circf && r == Matched ==> Found(t, items, p1_0)
      ensures circf && r == Hangs ==> HangsAt(t, items, p1_0)
      ensures r == Failed ==> loc2 == old(loc2)
    {
      hide Follow, Search, Encodes, Scoped;
      OpcodeTells(code, p2, items);
      var p1 := p1_0;
      if circf {
        loc1 := p1;
        r := Attempt(buf, code, p1, p2, t, items);
        return;
      }
      if code[p2] == CCHR {
        FirstCharacter(code, p2, items);
        var c := code[p2 + 1];
        while true
          invariant p1_0 <= p1 <= |t| && loc2 == old(loc2)
          invariant forall i :: p1_0 <= i < p1 ==> NoChoice(t, locs, items, i, NO_GROUPS)
          decreases |t| - p1
        {
          if buf[p1] == c {
            r := Attempt(buf, code, p1, p2, t, items);
            if r == Hangs { return; }
            if r == Matched {
              loc1 := p1;
              return;
            }
          } else {
            WrongFirstCharacter(buf, t, locs, code, p2, items, p1);
          }
          p1 := p1 + 1;
          if buf[p1 - 1] == 0 { break; }
        }
        return Failed;
      }
      while true
        invariant p1_0 <= p1 <= |t| && loc2 == old(loc2)
        invariant forall i :: p1_0 <= i < p1 ==> NoChoice(t, locs, items, i, NO_GROUPS)
        decreases |t| - p1
      {
        r := Attempt(buf, code, p1, p2, t, items);
        if r == Hangs { return; }
        if r == Matched {
          loc1 := p1;
          return;
        }
        p1 := p1 + 1;
        if buf[p1 - 1] == 0 { break; }
      }
      return Failed;
    }
  }

  lemma FirstCharacter(code: seq<byte>, ep: nat, items: seq<Item>)
    requires Encodes(code, ep, items) && code[ep] == CCHR
    ensures ep + 1 < |code| && items != [] && items[0] == One(Chr(code[ep + 1]))
  {}

  /** The fast path of `step` skips only places where no choice could succeed. */
  lemma WrongFirstCharacter(buf: seq<byte>, t: seq<byte>, locs: int, code: seq<byte>, ep: nat, items: seq<Item>, p: nat)
    requires IsText(buf, t) && p <= |t|
    requires Encodes(code, ep, items) && code[ep] == CCHR && ep + 1 < |code| && buf[p] != code[ep + 1]
    ensures NoChoice(t, locs, items, p, NO_GROUPS)
  {
    assert !AtomRun(t, items[0].atom, p, 1);
  }
}
