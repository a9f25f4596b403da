/** When a match attempt is sure to end: the one way to run for ever is a repeated reference to a group
    that captured the empty string, and a check of the pattern alone tells exactly which patterns can get to one. */
module RegexpTermination {
  import opened Words
  import opened RegexpPattern

  /** A check of the pattern alone: no path gets to a repeated reference whose group may have captured nothing.
      `solid` holds the groups, open or closed, that have passed at least one character on every path; `ended`
      says that a `$` has been passed, behind which no character can be. */
  predicate SafeStars(items: seq<Item>, open: set<nat>, solid: set<nat>, ended: bool) {
    items == [] ||
    var rest := items[1..];
    match items[0]
    case One(a) => ended || !Possible(a) || SafeStars(rest, open, solid + open, false)
    case Range(a, lo, _) =>
      if lo == 0 then SafeStars(rest, open, solid, ended)
      else ended || !Possible(a) || SafeStars(rest, open, solid + open, false)
    case Star(_) => SafeStars(rest, open, solid, ended)
    case Dollar => SafeStars(rest, open, solid, true)
    case Open(g) => SafeStars(rest, open + {g}, solid - {g}, ended)
    case Close(g) => SafeStars(rest, open - {g}, solid, ended)
    case Back(g) =>
      if g in solid then ended || SafeStars(rest, open, solid + open, false)
      else SafeStars(rest, open, solid, ended)
    case BackStar(g) => g in solid && SafeStars(rest, open, solid, ended)
  }

  /** The groups in `solid` have captured at least one character by position pos. */
  ghost predicate Filled(t: seq<byte>, gs: Groups, pos: int, begun: set<nat>, done: set<nat>, solid: set<nat>) {
    && begun == gs.bra.Keys && done == gs.ket.Keys && done <= begun && solid <= begun
    && 0 <= pos <= |t|
    && (forall g :: g in begun ==> 0 <= gs.bra[g] <= pos)
    && (forall g :: g in done ==> gs.bra[g] <= gs.ket[g] <= pos)
    && (forall g :: g in solid && g in done ==> gs.bra[g] < gs.ket[g])
    && (forall g :: g in solid && g !in done ==> gs.bra[g] < pos)
  }

  /** A pattern that passes the check never hangs, whatever the text and the counts. */
  lemma {:induction false} NeverHangs(t: seq<byte>, locs: int, items: seq<Item>, pos: int, gs: Groups,
                                      counts: seq<nat>, solid: set<nat>, ended: bool)
    requires Scoped(items, gs.bra.Keys, gs.ket.Keys)
    requires SafeStars(items, gs.bra.Keys - gs.ket.Keys, solid, ended) && (ended ==> pos == |t|)
    requires Filled(t, gs, pos, gs.bra.Keys, gs.ket.Keys, solid)
    ensures !Follow(t, locs, items, pos, gs, counts).Hang?
    decreases |items|, 1
  {
    if items != [] {
      var rest := items[1..];
      var open := gs.bra.Keys - gs.ket.Keys;
      match items[0]
      case One(a) =>
        if AtomRun(t, a, pos, 1) {
          assert Accepts(a, t[pos]);
          NeverHangs(t, locs, rest, pos + 1, gs, counts, solid + open, false);
        }
      case Dollar =>
        if pos == |t| {
          NeverHangs(t, locs, rest, pos, gs, counts, solid, true);
        }
      case Open(g) =>
        OpenNeverHangs(t, locs, items, pos, gs, counts, solid, ended);
      case Close(g) =>
        CloseNeverHangs(t, locs, items, pos, gs, counts, solid, ended);
      case Back(g) =>
        var s := Captured(t, gs, g);
        if CopyAt(t, s, pos) {
          NeverHangs(t, locs, rest, pos + |s|, gs, counts, if g in solid then solid + open else solid, g !in solid && ended);
        }
      case _ =>
        RepeatedNeverHangs(t, locs, items, pos, gs, counts, solid, ended);
    }
  }

  lemma {:induction false} OpenNeverHangs(t: seq<byte>, locs: int, items: seq<Item>, pos: int, gs: Groups,
                                          counts: seq<nat>, solid: set<nat>, ended: bool)
    requires items != [] && items[0].Open?
    requires Scoped(items, gs.bra.Keys, gs.ket.Keys)
    requires SafeStars(items, gs.bra.Keys - gs.ket.Keys, solid, ended) && (ended ==> pos == |t|)
    requires Filled(t, gs, pos, gs.bra.Keys, gs.ket.Keys, solid)
    ensures !Follow(t, locs, items, pos, gs, counts).Hang?
    decreases |items|, 0
  {
    var g := items[0].group;
    var gs' := gs.(bra := gs.bra[g := pos]);
    assert gs'.bra.Keys == gs.bra.Keys + {g};
    assert gs'.bra.Keys - gs'.ket.Keys == gs.bra.Keys - gs.ket.Keys + {g} by { assert g !in gs.ket; }
    NeverHangs(t, locs, items[1..], pos, gs', counts, solid - {g}, ended);
  }

  lemma {:induction false} CloseNeverHangs(t: seq<byte>, locs: int, items: seq<Item>, pos: int, gs: Groups,
                                          counts: seq<nat>, solid: set<nat>, ended: bool)
    requires items != [] && items[0].Close?
    requires Scoped(items, gs.bra.Keys, gs.ket.Keys)
    requires SafeStars(items, gs.bra.Keys - gs.ket.Keys, solid, ended) && (ended ==> pos == |t|)
    requires Filled(t, gs, pos, gs.bra.Keys, gs.ket.Keys, solid)
    ensures !Follow(t, locs, items, pos, gs, counts).Hang?
    decreases |items|, 0
  {
    var g := items[0].group;
    var gs' := gs.(ket := gs.ket[g := pos]);
    assert gs'.ket.Keys == gs.ket.Keys + {g};
    assert gs'.bra.Keys - gs'.ket.Keys == gs.bra.Keys - gs.ket.Keys - {g};
    NeverHangs(t, locs, items[1..], pos, gs', counts, solid, ended);
  }

  lemma {:induction false} RepeatedNeverHangs(t: seq<byte>, locs: int, items: seq<Item>, pos: int, gs: Groups,
                                              counts: seq<nat>, solid: set<nat>, ended: bool)
    requires items != [] && (items[0].Star? || items[0].Range? || items[0].BackStar?)
    requires Scoped(items, gs.bra.Keys, gs.ket.Keys)
    requires SafeStars(items, gs.bra.Keys - gs.ket.Keys, solid, ended) && (ended ==> pos == |t|)
    requires Filled(t, gs, pos, gs.bra.Keys, gs.ket.Keys, solid)
    ensures !Follow(t, locs, items, pos, gs, counts).Hang?
    decreases |items|, 0
  {
    var rest := items[1..];
    match items[0]
    case Star(a) =>
      if counts != [] && Repeatable(t, locs, a, 0, |t|, pos, counts[0]) {
        NeverHangs(t, locs, rest, pos + counts[0], gs, counts[1..], solid, ended);
      }
    case Range(a, lo, hi) =>
      if counts != [] && Repeatable(t, locs, a, lo, MaxCount(lo, hi), pos, counts[0]) {
        var open := gs.bra.Keys - gs.ket.Keys;
        assert lo > 0 ==> Accepts(a, t[pos]);
        NeverHangs(t, locs, rest, pos + counts[0], gs, counts[1..], if lo > 0 then solid + open else solid, lo == 0 && ended);
      }
    case BackStar(g) =>
      var s := Captured(t, gs, g);
      if counts != [] && Copies(t, s, pos, counts[0]) {
        CopiesFit(t, s, pos, counts[0]);
        NeverHangs(t, locs, rest, pos + counts[0] * |s|, gs, counts[1..], solid, ended);
      }
  }

  lemma {:induction false} CopiesFit(t: seq<byte>, s: seq<byte>, p: int, k: nat)
    requires 0 <= p <= |t| && Copies(t, s, p, k)
    ensures p <= p + k * |s| <= |t|
    decreases k
  {
    if k > 0 {
      CopiesFit(t, s, p + |s|, k - 1);
      assert k * |s| == |s| + (k - 1) * |s|;
    }
  }

  // ----- the check is exact: an unsafe pattern hangs on the text that takes every run at its least

  /** How far the shortest way through a pattern has got: the text so far, and what SafeStars knows. */
  datatype Way = Way(t: seq<byte>, gs: Groups, solid: set<nat>, ended: bool)

  /** Every run is taken at its least. */
  ghost function Next(i: Item, w: Way): Way {
    var grown := w.solid + (w.gs.bra.Keys - w.gs.ket.Keys);
    match i
    case One(a) => w.(t := w.t + Needed(a, 1), solid := grown, ended := false)
    case Range(a, lo, _) => if lo == 0 then w else w.(t := w.t + Needed(a, lo), solid := grown, ended := false)
    case Dollar => w.(ended := true)
    case Open(g) => w.(gs := w.gs.(bra := w.gs.bra[g := |w.t|]), solid := w.solid - {g})
    case Close(g) => w.(gs := w.gs.(ket := w.gs.ket[g := |w.t|]))
    case Back(g) =>
      if g in w.solid then w.(t := w.t + Captured(w.t, w.gs, g), solid := grown, ended := false) else w
    case Star(_) => w
    case BackStar(_) => w
  }

  /** The next item is a repeated reference to nothing. */
  predicate Stuck(items: seq<Item>, w: Way) {
    items != [] && items[0].BackStar? && items[0].group !in w.solid
  }

  /** The shortest text that gets to a repeated reference to nothing. */
  ghost function Shortest(items: seq<Item>, w: Way): (s: seq<byte>)
    ensures w.t <= s && (0 !in w.t ==> 0 !in s)
  {
    if items == [] || Stuck(items, w) then w.t else Shortest(items[1..], Next(items[0], w))
  }

  /** The groups that are not solid have captured nothing. */
  ghost predicate Thin(w: Way) {
    && Filled(w.t, w.gs, |w.t|, w.gs.bra.Keys, w.gs.ket.Keys, w.solid)
    && (forall g :: g in w.gs.ket && g !in w.solid ==> w.gs.bra[g] == w.gs.ket[g])
    && (forall g :: g in w.gs.bra && g !in w.gs.ket && g !in w.solid ==> w.gs.bra[g] == |w.t|)
  }

  ghost predicate Unsafe(items: seq<Item>, w: Way) {
    && Scoped(items, w.gs.bra.Keys, w.gs.ket.Keys) && Thin(w)
    && !SafeStars(items, w.gs.bra.Keys - w.gs.ket.Keys, w.solid, w.ended)
  }

  lemma ThinCapture(w: Way, g: nat, s: seq<byte>)
    requires Thin(w) && g in w.gs.ket && w.t <= s
    ensures Captured(s, w.gs, g) == Captured(w.t, w.gs, g) && |Captured(s, w.gs, g)| == w.gs.ket[g] - w.gs.bra[g]
    ensures g in w.solid <==> Captured(s, w.gs, g) != []
  {}

  lemma OpenThin(g: nat, w: Way)
    requires Thin(w) && g !in w.gs.bra.Keys
    ensures var n := Next(Open(g), w);
            && Thin(n) && n.gs.bra.Keys == w.gs.bra.Keys + {g} && n.gs.ket.Keys == w.gs.ket.Keys
            && n.gs.bra.Keys - n.gs.ket.Keys == w.gs.bra.Keys - w.gs.ket.Keys + {g}
  {}

  lemma CloseThin(g: nat, w: Way)
    requires Thin(w) && g in w.gs.bra.Keys && g !in w.gs.ket.Keys
    ensures var n := Next(Close(g), w);
            && Thin(n) && n.gs.bra.Keys == w.gs.bra.Keys && n.gs.ket.Keys == w.gs.ket.Keys + {g}
            && n.gs.bra.Keys - n.gs.ket.Keys == w.gs.bra.Keys - w.gs.ket.Keys - {g}
  {
    assert Next(Close(g), w).gs.ket.Keys == w.gs.ket.Keys + {g};
  }

  lemma MoreThin(w: Way, s: seq<byte>)
    requires Thin(w) && s != []
    ensures Thin(w.(t := w.t + s, solid := w.solid + (w.gs.bra.Keys - w.gs.ket.Keys), ended := false))
  {}

  /** The way goes on until it is stuck, and past a `$` without another character. */
  lemma NextUnsafe(items: seq<Item>, w: Way)
    requires Unsafe(items, w) && !Stuck(items, w)
    ensures items != [] && Unsafe(items[1..], Next(items[0], w))
    ensures w.ended ==> Next(items[0], w).ended && Next(items[0], w).t == w.t
    ensures match items[0] case One(a) => Possible(a) case Range(a, lo, hi) => lo <= hi && (lo > 0 ==> Possible(a)) case _ => true
  {
    hide Filled, Captured;
    match items[0]
    case One(a) =>
      MoreThin(w, Needed(a, 1));
    case Range(a, lo, _) =>
      if lo > 0 { MoreThin(w, Needed(a, lo)); }
    case Open(g) =>
      OpenThin(g, w);
    case Close(g) =>
      CloseThin(g, w);
    case Back(g) =>
      ThinCapture(w, g, w.t);
      if g in w.solid { MoreThin(w, Captured(w.t, w.gs, g)); }
    case _ =>
      assert Thin(Next(items[0], w));
  }

  lemma {:induction false} NoMoreText(items: seq<Item>, w: Way)
    requires Unsafe(items, w) && w.ended
    ensures Shortest(items, w) == w.t
  {
    if !Stuck(items, w) {
      NextUnsafe(items, w);
      NoMoreText(items[1..], Next(items[0], w));
    }
  }

  /** Groups passed by a path that is ahead of the shortest one: none has captured less. */
  ghost predicate Ahead(t: seq<byte>, w: Way, gs: Groups, pos: int) {
    && gs.ket.Keys == w.gs.ket.Keys <= gs.bra.Keys == w.gs.bra.Keys && |w.t| < pos <= |t|
    && (forall g :: g in gs.bra ==> 0 <= gs.bra[g] <= pos)
    && (forall g :: g in gs.ket ==> gs.bra[g] <= gs.ket[g] <= pos && gs.ket[g] - gs.bra[g] >= w.gs.ket[g] - w.gs.bra[g])
    && (forall g :: g in gs.bra && g !in gs.ket ==> pos - gs.bra[g] >= |w.t| - w.gs.bra[g])
  }

  lemma AheadMark(t: seq<byte>, w: Way, gs: Groups, pos: int, g: nat)
    requires Ahead(t, w, gs, pos)
    ensures g !in w.gs.bra ==> Ahead(t, Next(Open(g), w), Marked(Open(g), gs, pos), pos)
    ensures g in w.gs.bra && g !in w.gs.ket ==> Ahead(t, Next(Close(g), w), Marked(Close(g), gs, pos), pos)
  {}

  lemma AheadCapture(t: seq<byte>, w: Way, gs: Groups, pos: int, g: nat)
    requires Ahead(t, w, gs, pos) && Thin(w) && g in w.gs.ket
    ensures |Next(Back(g), w).t| - |w.t| <= |Captured(t, gs, g)|
    ensures g in w.solid ==> Captured(t, gs, g) != []
  {
    ThinCapture(w, g, w.t);
  }

  lemma NotAhead(w: Way, gs: Groups, pos: int)
    ensures !Ahead(w.t, w, gs, pos)
  {}

  predicate Counted(i: Item) { i.Star? || i.Range? || i.BackStar? }

  /** The fewest characters that an item passes. */
  function Least(t: seq<byte>, gs: Groups, i: Item): nat {
    match i case One(_) => 1 case Range(_, lo, _) => lo case Back(g) => |Captured(t, gs, g)| case _ => 0
  }

  /** An item that is no mark is passed by some number of characters. */
  lemma Passes(t: seq<byte>, items: seq<Item>, pos: nat, gs: Groups, d: seq<nat>) returns (k: nat, more: seq<nat>)
    requires items != [] && !items[0].Open? && !items[0].Close? && !items[0].Dollar? && pos <= |t|
    requires items[0].BackStar? ==> Captured(t, gs, items[0].group) != []
    requires !Follow(t, -1, items, pos, gs, d).Fail?
    ensures pos + k <= |t| && k >= Least(t, gs, items[0])
    ensures Follow(t, -1, items, pos, gs, d) == Follow(t, -1, items[1..], pos + k, gs, more)
    ensures if !Counted(items[0]) then more == d else
              d != [] && more == d[1..] && d[0] >= Least(t, gs, items[0]) && (d[0] > Least(t, gs, items[0]) ==> k > Least(t, gs, items[0]))
  {
    hide Captured, MaxCount;
    match items[0]
    case One(_) =>
      k, more := 1, d;
    case Back(g) =>
      k, more := |Captured(t, gs, g)|, d;
    case BackStar(g) =>
      var s := Captured(t, gs, g);
      CopiesFit(t, s, pos, d[0]);
      AtLeast(d[0], |s|);
      k, more := d[0] * |s|, d[1..];
    case Star(_) =>
      k, more := d[0], d[1..];
    case Range(_, _, _) =>
      k, more := d[0], d[1..];
  }

  function Marked(i: Item, gs: Groups, pos: int): Groups {
    match i
    case Open(g) => gs.(bra := gs.bra[g := pos])
    case Close(g) => gs.(ket := gs.ket[g := pos])
    case _ => gs
  }

  lemma MarksPass(t: seq<byte>, items: seq<Item>, pos: nat, gs: Groups, d: seq<nat>)
    ensures items != [] && (items[0].Open? || items[0].Close?) ==>
              Follow(t, -1, items, pos, gs, d) == Follow(t, -1, items[1..], pos, Marked(items[0], gs, pos), d)
    ensures items != [] && items[0].Dollar? && pos != |t| ==> Follow(t, -1, items, pos, gs, d).Fail?
  {}

  lemma AtLeast(k: nat, n: nat)
    ensures n > 0 ==> k * n >= k
  {}

  lemma AheadPast(t: seq<byte>, w: Way, gs: Groups, pos: int, i: Item, k: nat)
    requires Ahead(t, w, gs, pos) && !i.Open? && !i.Close? && pos + k <= |t| && k >= Least(t, gs, i)
    requires Thin(w) && (i.Back? ==> i.group in w.gs.ket)
    ensures Ahead(t, Next(i, w), gs, pos + k)
  {
    if i.Back? { AheadCapture(t, w, gs, pos, i.group); }
  }

  lemma AheadGoesOn(items: seq<Item>, w: Way, gs: Groups, pos: int)
    requires Unsafe(items, w) && Ahead(Shortest(items, w), w, gs, pos)
    ensures !Stuck(items, w) && pos <= |Shortest(items, w)|
  {}

  /** The shortest text has no room for more than the shortest way. */
  lemma {:induction false} TooLong(items: seq<Item>, w: Way, gs: Groups, pos: nat, d: seq<nat>)
    requires Unsafe(items, w) && Ahead(Shortest(items, w), w, gs, pos)
    ensures Follow(Shortest(items, w), -1, items, pos, gs, d).Fail?
    decreases |items|
  {
    hide Unsafe, Ahead, Next, Shortest, Thin, Captured, Marked, Stuck;
    var t := Shortest(items, w);
    AheadGoesOn(items, w, gs, pos);
    NextUnsafe(items, w);
    var rest, i, n := items[1..], items[0], Next(items[0], w);
    UnsafeSays(items, w);
    MarksPass(t, items, pos, gs, d);
    hide Follow;
    if i.Dollar? {
      NoMoreText(rest, n);
      NotAhead(w, gs, pos);
    } else if i.Open? {
      AheadMark(t, w, gs, pos, i.group);
      TooLong(rest, n, Marked(i, gs, pos), pos, d);
    } else if i.Close? {
      AheadMark(t, w, gs, pos, i.group);
      TooLong(rest, n, Marked(i, gs, pos), pos, d);
    } else if !Follow(t, -1, items, pos, gs, d).Fail? {
      if i.BackStar? { AheadCapture(t, w, gs, pos, i.group); }
      var k, more := Passes(t, items, pos, gs, d);
      AheadPast(t, w, gs, pos, i, k);
      TooLong(rest, n, gs, pos + k, more);
    }
  }

  lemma UnsafeSays(items: seq<Item>, w: Way)
    requires Unsafe(items, w)
    ensures Thin(w) && items != []
    ensures !Stuck(items, w) ==>
              && Shortest(items, w) == Shortest(items[1..], Next(items[0], w))
              && match items[0]
                 case One(a) => |Next(items[0], w).t| == |w.t| + 1
                 case Range(a, lo, _) => |Next(items[0], w).t| == |w.t| + lo
                 case Back(g) => g in w.gs.ket
                 case BackStar(g) => g in w.gs.ket && g in w.solid && Next(items[0], w).t == w.t
                 case Star(_) => Next(items[0], w).t == w.t
                 case Open(g) => g !in w.gs.bra
                 case Close(g) => g in w.gs.bra && g !in w.gs.ket
                 case Dollar => Next(items[0], w) == w.(ended := true)
  {
  }

  lemma BackCopies(w: Way, g: nat, t: seq<byte>)
    requires Thin(w) && g in w.gs.ket && Next(Back(g), w).t <= t
    ensures CopyAt(t, Captured(t, w.gs, g), |w.t|)
    ensures Next(Back(g), w).t == w.t + Captured(t, w.gs, g)
  {
    ThinCapture(w, g, t);
    ThinCapture(w, g, w.t);
    assert t[|w.t|..|Next(Back(g), w).t|] == Next(Back(g), w).t[|w.t|..];
  }

  lemma WaySays(items: seq<Item>, w: Way)
    requires Unsafe(items, w) && !Stuck(items, w)
    ensures var t, n, p := Shortest(items, w), Next(items[0], w), |w.t|;
            && n.t <= t && w.t <= n.t
            && match items[0]
               case One(a) => AtomRun(t, a, p, 1) && |n.t| == p + 1 && n.gs == w.gs
               case Dollar => |t| == p && n.t == w.t && n.gs == w.gs
               case Open(g) => n.t == w.t && n.gs == w.gs.(bra := w.gs.bra[g := p])
               case Close(g) => n.t == w.t && n.gs == w.gs.(ket := w.gs.ket[g := p])
               case Back(g) => CopyAt(t, Captured(t, w.gs, g), p) && |n.t| == p + |Captured(t, w.gs, g)| && n.gs == w.gs
               case Star(a) => n.t == w.t && n.gs == w.gs && AtomRun(t, a, p, 0)
               case Range(a, lo, hi) => |n.t| == p + lo && n.gs == w.gs && AtomRun(t, a, p, lo) && lo <= MaxCount(lo, hi)
               case BackStar(g) => n == w && Captured(t, w.gs, g) != []
  {
    UnsafeSays(items, w);
    NextUnsafe(items, w);
    var t, n, p := Shortest(items, w), Next(items[0], w), |w.t|;
    hide Unsafe, Shortest, Thin, Captured, Stuck, CopyAt, Accepts, Needed;
    if items[0].One? {
      assert w.t + Needed(items[0].atom, 1) == n.t;
    } else if items[0].Range? {
      if items[0].lo > 0 { assert w.t + Needed(items[0].atom, items[0].lo) == n.t; }
    } else if items[0].Dollar? {
      NoMoreText(items[1..], n);
    } else if items[0].Back? {
      BackCopies(w, items[0].group, t);
    } else if items[0].BackStar? {
      ThinCapture(w, items[0].group, t);
    }
  }

  lemma SameChoices(items: seq<Item>, w: Way, d: seq<nat>)
    requires Unsafe(items, w) && !Stuck(items, w) && !Counted(items[0])
    ensures var t, n := Shortest(items, w), Next(items[0], w);
            Follow(t, -1, items, |w.t|, w.gs, d) == Follow(t, -1, items[1..], |n.t|, n.gs, d)
  {
    WaySays(items, w);
    hide Unsafe, Next, Shortest, Captured, CopyAt, AtomRun;
  }

  /** The least count leads on from the shortest way to the shortest way. */
  lemma LeastLeadsOn(items: seq<Item>, w: Way, c: seq<nat>)
    requires Unsafe(items, w) && !Stuck(items, w) && Counted(items[0])
    requires c != [] && c[0] == Least(Shortest(items, w), w.gs, items[0])
    ensures var t, n := Shortest(items, w), Next(items[0], w);
            Follow(t, -1, items, |w.t|, w.gs, c) == Follow(t, -1, items[1..], |n.t|, n.gs, c[1..])
  {
    hide Unsafe, Next, Shortest, Captured, AtomRun, Thin, MaxCount, Stuck;
    WaySays(items, w);
    UnsafeSays(items, w);
    var t, p := Shortest(items, w), |w.t|;
    match items[0]
    case Star(a) =>
      assert Repeatable(t, -1, a, 0, |t|, p, c[0]);
    case Range(a, lo, hi) =>
      assert Repeatable(t, -1, a, lo, MaxCount(lo, hi), p, c[0]);
    case BackStar(g) =>
      assert Copies(t, Captured(t, w.gs, g), p, 0);
  }

  lemma SelfAhead(t: seq<byte>, w: Way, pos: int)
    requires Thin(w) && |w.t| < pos <= |t|
    ensures Ahead(t, w, w.gs, pos)
  {}

  /** On the shortest text a run longer than the least leaves no way to go on. */
  lemma OnlyLeast(items: seq<Item>, w: Way, d: seq<nat>)
    requires Unsafe(items, w) && !Stuck(items, w) && Counted(items[0])
    requires !Follow(Shortest(items, w), -1, items, |w.t|, w.gs, d).Fail?
    ensures d != [] && d[0] == Least(Shortest(items, w), w.gs, items[0])
    ensures !Follow(Shortest(items, w), -1, items[1..], |Next(items[0], w).t|, Next(items[0], w).gs, d[1..]).Fail?
  {
    hide Unsafe, Next, Shortest, Captured, Thin, Ahead, Stuck, Follow;
    WaySays(items, w);
    NextUnsafe(items, w);
    UnsafeSays(items, w);
    var t, n, p := Shortest(items, w), Next(items[0], w), |w.t|;
    UnsafeSays(items[1..], n);
    var k, more := Passes(t, items, p, w.gs, d);
    if d[0] > Least(t, w.gs, items[0]) {
      SelfAhead(t, n, p + k);
      TooLong(items[1..], n, n.gs, p + k, more);
    }
    LeastLeadsOn(items, w, d);
  }

  /** An unsafe pattern hangs on its shortest text: the only choice of counts that does not fail there is the
      least one, and it gets stuck. */
  lemma {:induction false} ShortestHangs(items: seq<Item>, w: Way) returns (c: seq<nat>)
    requires Unsafe(items, w)
    ensures Follow(Shortest(items, w), -1, items, |w.t|, w.gs, c).Hang?
    ensures forall d :: !Follow(Shortest(items, w), -1, items, |w.t|, w.gs, d).Fail? ==> d == c
    decreases |items|
  {
    UnsafeSays(items, w);
    var t, p := Shortest(items, w), |w.t|;
    if Stuck(items, w) {
      ThinCapture(w, items[0].group, t);
      c := [];
    } else {
      NextUnsafe(items, w);
      var n := Next(items[0], w);
      ghost var c' := ShortestHangs(items[1..], n);
      hide Unsafe, Next, Shortest, Follow;
      c := if Counted(items[0]) then [Least(t, w.gs, items[0])] + c' else c';
      if Counted(items[0]) {
        assert c[1..] == c';
        LeastLeadsOn(items, w, c);
      } else {
        SameChoices(items, w, c);
      }
      forall d | !Follow(t, -1, items, p, w.gs, d).Fail? ensures d == c {
        if Counted(items[0]) {
          OnlyLeast(items, w, d);
          assert d == [d[0]] + d[1..];
        } else {
          SameChoices(items, w, d);
        }
      }
    }
  }

  const START := Way([], NO_GROUPS, {}, false)

  /** The patterns that pass the check are exactly those with which every attempt, at every place of every text,
      comes to an end. */
  lemma SafeIffEnds(items: seq<Item>)
    requires Scoped(items, {}, {})
    ensures SafeStars(items, {}, {}, false) <==>
            (forall t, locs, pos, c :: 0 !in t && 0 <= pos <= |t| && FirstChoice(t, locs, items, pos, NO_GROUPS, c)
               ==> !Follow(t, locs, items, pos, NO_GROUPS, c).Hang?)
  {
    var none := NO_GROUPS.bra.Keys;
    assert none == NO_GROUPS.ket.Keys == none - none == {};
    if SafeStars(items, {}, {}, false) {
      forall t, locs, pos, c | 0 !in t && 0 <= pos <= |t| && FirstChoice(t, locs, items, pos, NO_GROUPS, c)
        ensures !Follow(t, locs, items, pos, NO_GROUPS, c).Hang?
      {
        NeverHangs(t, locs, items, pos, NO_GROUPS, c, {}, false);
      }
    } else {
      assert Thin(START) && Unsafe(items, START);
      var t := Shortest(items, START);
      var c := ShortestHangs(items, START);
      assert FirstChoice(t, -1, items, 0, NO_GROUPS, c);
    }
  }

  /** The check is needed: `\(a*\)\1*` hangs on the empty text, for a reason the pattern shows. */
  lemma EmptyReferenceHangs(locs: int)
    ensures
      var items := [Open(0), Star(Chr(97)), Close(0), BackStar(0)];
      && Scoped(items, {}, {}) && !SafeStars(items, {}, {}, false)
      && (locs != 0 ==> Follow([], locs, items, 0, NO_GROUPS, [0]).Hang?)
  {
    var items := [Open(0), Star(Chr(97)), Close(0), BackStar(0)];
    var tail := [Star(Chr(97)), Close(0), BackStar(0)];
    assert items[1..] == tail && tail[1..] == [Close(0), BackStar(0)] && tail[1..][1..] == [BackStar(0)];
    var none: set<nat> := {};
    assert none + {0} == {0};
    assert Scoped([BackStar(0)], {0}, {0});
    assert Scoped(tail, {0}, {});
    assert !SafeStars([BackStar(0)], {0} - {0}, {} - {0}, false);
    assert !SafeStars(tail, {0}, {} - {0}, false);
    if locs != 0 {
      var gs := Groups(map[0 := 0], map[]);
      assert Follow([], locs, [BackStar(0)], 0, Groups(map[0 := 0], map[0 := 0]), []).Hang?;
      assert Repeatable([], locs, Chr(97), 0, 0, 0, 0);
      assert [0][1..] == [];
      assert Follow([], locs, tail, 0, gs, [0]).Hang?;
    }
  }
}
