/** The abstract form of a compiled regular expression, and what it means for one to match:
    the declarative side of head/regexp.h, with no bytecode and no search order in it. */
module RegexpPattern {
  import opened Words

  /** There are at most NBRA groups, \1 to \9. */
  const NBRA := 9

  /** Interval bound 255 means "no upper bound", which the matcher caps at 20000 extra repetitions. */
  const NO_BOUND: byte := 255
  const OPEN_EXTRA := 20000

  /** A one-character expression. */
  datatype Atom =
    | Chr(c: byte)
    | Dot
    | Class(negated: bool, members: set<byte>)

  /** No atom matches the NUL that ends the text. */
  predicate Accepts(a: Atom, c: byte) {
    c != 0 &&
    match a
    case Chr(d) => c == d
    case Dot => true
    case Class(negated, members) => (c in members) != negated
  }

  datatype Item =
    | One(atom: Atom)
    | Star(atom: Atom)
    | Range(atom: Atom, lo: byte, hi: byte)
    | Open(group: nat)
    | Close(group: nat)
    | Back(group: nat)
    | BackStar(group: nat)
    | Dollar

  function MaxCount(lo: byte, hi: byte): int {
    if hi == NO_BOUND then lo + OPEN_EXTRA else hi
  }

  /** Where the groups passed so far begin and end. */
  datatype Groups = Groups(bra: map<nat, int>, ket: map<nat, int>)

  const NO_GROUPS := Groups(map[], map[])

  /** The text a closed group captured. */
  function Captured(t: seq<byte>, gs: Groups, g: nat): seq<byte> {
    if g in gs.bra && g in gs.ket && 0 <= gs.bra[g] <= gs.ket[g] <= |t| then t[gs.bra[g]..gs.ket[g]] else []
  }

  /** k consecutive characters from p on are all accepted by the atom. */
  ghost predicate AtomRun(t: seq<byte>, a: Atom, p: int, k: int) {
    0 <= p && 0 <= k && p + k <= |t| && forall j :: p <= j < p + k ==> Accepts(a, t[j])
  }

  predicate CopyAt(t: seq<byte>, s: seq<byte>, p: int) {
    0 <= p && p + |s| <= |t| && t[p..p + |s|] == s
  }

  /** k back-to-back copies of s start at p. */
  ghost predicate Copies(t: seq<byte>, s: seq<byte>, p: int, k: nat)
    decreases k
  {
    k == 0 || (CopyAt(t, s, p) && Copies(t, s, p + |s|, k - 1))
  }

  /** The atom may be repeated k times from p: the count is within bounds, the characters match, and no
      repetition at least that long stops exactly at `locs` (the place a global substitution forbids). */
  ghost predicate Repeatable(t: seq<byte>, locs: int, a: Atom, lo: int, max: int, p: int, k: int) {
    && lo <= k <= max
    && AtomRun(t, a, p, k)
    && !(k <= locs - p <= max && AtomRun(t, a, p, locs - p))
  }

  /** How following one choice of repetition counts ends. */
  datatype Verdict = Fail | Accept(end: int, groups: Groups) | Hang

  /** Follow the items from position `pos`, taking the repetition counts in turn: one count for each
      repeated item reached.  `Hang` is a repeated reference to a group that captured the empty string,
      a choice that never gets as far as taking a count. */
  ghost function Follow(t: seq<byte>, locs: int, items: seq<Item>, pos: int, gs: Groups, counts: seq<nat>): Verdict {
    if items == [] then
      if counts == [] then Accept(pos, gs) else Fail
    else
      var rest := items[1..];
      match items[0]
      case One(a) =>
        if AtomRun(t, a, pos, 1) then Follow(t, locs, rest, pos + 1, gs, counts) else Fail
      case Dollar =>
        if pos == |t| then Follow(t, locs, rest, pos, gs, counts) else Fail
      case Open(g) =>
        Follow(t, locs, rest, pos, gs.(bra := gs.bra[g := pos]), counts)
      case Close(g) =>
        Follow(t, locs, rest, pos, gs.(ket := gs.ket[g := pos]), counts)
      case Back(g) =>
        var s := Captured(t, gs, g);
        if CopyAt(t, s, pos) then Follow(t, locs, rest, pos + |s|, gs, counts) else Fail
      case Star(a) =>
        // a run never has more than |t| characters: no bound at all
        if counts != [] && Repeatable(t, locs, a, 0, |t|, pos, counts[0])
        then Follow(t, locs, rest, pos + counts[0], gs, counts[1..]) else Fail
      case Range(a, lo, hi) =>
        if counts != [] && Repeatable(t, locs, a, lo, MaxCount(lo, hi), pos, counts[0])
        then Follow(t, locs, rest, pos + counts[0], gs, counts[1..]) else Fail
      case BackStar(g) =>
        var s := Captured(t, gs, g);
        if s == [] then (if counts == [] then Hang else Fail)
        else if counts != [] && Copies(t, s, pos, counts[0])
        then Follow(t, locs, rest, pos + counts[0] * |s|, gs, counts[1..]) else Fail
  }

  /** The search order: at the first choice that differs, more repetitions come first. */
  ghost predicate Precedes(c: seq<nat>, d: seq<nat>) {
    c != [] && d != [] && (c[0] > d[0] || (c[0] == d[0] && Precedes(c[1..], d[1..])))
  }

  /** `c` is the first choice, longest-first at each repeated item in turn, that does not fail. */
  ghost predicate FirstChoice(t: seq<byte>, locs: int, items: seq<Item>, pos: int, gs: Groups, c: seq<nat>) {
    && !Follow(t, locs, items, pos, gs, c).Fail?
    && forall d :: !Follow(t, locs, items, pos, gs, d).Fail? ==> d == c || Precedes(c, d)
  }

  ghost predicate NoChoice(t: seq<byte>, locs: int, items: seq<Item>, pos: int, gs: Groups) {
    forall d :: Follow(t, locs, items, pos, gs, d).Fail?
  }

  /** Every reference is to a group already closed, every group is opened once and closed once, and no atom
      is the NUL: `begun` and `done` are the groups passed before these items. */
  predicate Scoped(items: seq<Item>, begun: set<nat>, done: set<nat>) {
    items == [] ||
    var rest := items[1..];
    match items[0]
    case One(a) => NulFreeAtom(a) && Scoped(rest, begun, done)
    case Star(a) => NulFreeAtom(a) && Scoped(rest, begun, done)
    case Range(a, lo, hi) => NulFreeAtom(a) && lo <= hi && Scoped(rest, begun, done)
    case Dollar => Scoped(rest, begun, done)
    case Open(g) => g < NBRA && g !in begun && Scoped(rest, begun + {g}, done)
    case Close(g) => g in begun && g !in done && Scoped(rest, begun, done + {g})
    case Back(g) => g in done && Scoped(rest, begun, done)
    case BackStar(g) => g in done && Scoped(rest, begun, done)
  }

  predicate NulFreeAtom(a: Atom) {
    match a
    case Chr(c) => c != 0
    case Dot => true
    case Class(_, members) => 0 !in members
  }

  /** Some character is accepted. */
  predicate Possible(a: Atom) {
    exists c: byte :: Accepts(a, c)
  }

  ghost function Pick(a: Atom): (c: byte)
    requires Possible(a)
    ensures Accepts(a, c)
  {
    var c: byte :| Accepts(a, c);
    c
  }

  ghost function Needed(a: Atom, n: nat): (s: seq<byte>)
    ensures 0 !in s && |s| == (if Possible(a) then n else 0)
    ensures forall i :: 0 <= i < |s| ==> Accepts(a, s[i])
  {
    if Possible(a) then seq(n, _ => Pick(a)) else []
  }

  // ----- what the largest bound means

  lemma OneRange(t: seq<byte>, locs: int, a: Atom, lo: byte, hi: byte, n: nat)
    ensures !Follow(t, locs, [Range(a, lo, hi)], 0, NO_GROUPS, [n]).Fail? <==> Repeatable(t, locs, a, lo, MaxCount(lo, hi), 0, n)
  {
    assert [Range(a, lo, hi)][1..] == [] && [n][1..] == [];
  }

  /** An interval matches no more than its upper bound exactly if that bound is not 255, the code for no bound. */
  lemma BoundHeld(a: Atom, lo: byte, hi: byte)
    requires lo <= hi
    ensures (forall t, locs, n: nat :: 0 !in t && !Follow(t, locs, [Range(a, lo, hi)], 0, NO_GROUPS, [n]).Fail? ==> n <= hi)
            <==> hi != NO_BOUND || !Possible(a)
  {
    forall t, locs, n: nat | hi != NO_BOUND || !Possible(a)
      ensures !Follow(t, locs, [Range(a, lo, hi)], 0, NO_GROUPS, [n]).Fail? ==> n <= hi
    {
      OneRange(t, locs, a, lo, hi, n);
      if AtomRun(t, a, 0, n) && n > 0 { assert Accepts(a, t[0]); }
    }
    if hi == NO_BOUND && Possible(a) {
      var t := Needed(a, 256);
      OneRange(t, -1, a, lo, hi, 256);
      assert !Follow(t, -1, [Range(a, lo, hi)], 0, NO_GROUPS, [256]).Fail?;
    }
  }

  /** An interval without an upper bound takes every run that is long enough, exactly in texts of no more than
      its lower bound and 20000 characters. */
  lemma OpenBound(a: Atom, lo: byte, longest: nat)
    ensures (forall t, n: nat :: 0 !in t && |t| <= longest && lo <= n && AtomRun(t, a, 0, n)
               ==> !Follow(t, -1, [Range(a, lo, NO_BOUND)], 0, NO_GROUPS, [n]).Fail?)
            <==> longest <= lo + OPEN_EXTRA || !Possible(a)
  {
    if longest <= lo + OPEN_EXTRA || !Possible(a) {
      forall t, n: nat | 0 !in t && |t| <= longest && lo <= n && AtomRun(t, a, 0, n)
        ensures !Follow(t, -1, [Range(a, lo, NO_BOUND)], 0, NO_GROUPS, [n]).Fail?
      {
        OneRange(t, -1, a, lo, NO_BOUND, n);
        if n > 0 { assert Accepts(a, t[0]); }
      }
    } else {
      var n := lo + OPEN_EXTRA + 1;
      var t := Needed(a, n);
      OneRange(t, -1, a, lo, NO_BOUND, n);
      assert AtomRun(t, a, 0, n) && Follow(t, -1, [Range(a, lo, NO_BOUND)], 0, NO_GROUPS, [n]).Fail?;
    }
  }
}
