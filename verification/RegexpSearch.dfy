/** The backtracking search as a function on patterns, and the proof that what it finds is
    exactly the first choice of repetition counts that does not fail. */
module RegexpSearch {
  import opened Words
  import opened RegexpPattern

  datatype Path = NoPath | Path(counts: seq<nat>, verdict: Verdict)

  function Prepend(k: nat, p: Path): Path {
    match p
    case NoPath => NoPath
    case Path(counts, v) => Path([k] + counts, v)
  }

  /** The longest run of accepted characters from p, at most max. */
  function Longest(t: seq<byte>, a: Atom, p: nat, max: int): (n: nat)
    ensures AtomRun(t, a, p, n) || p > |t|
    ensures n <= max || n == 0
    ensures forall j :: 0 <= j <= max && AtomRun(t, a, p, j) ==> j <= n
    decreases |t| - p
  {
    if max <= 0 || p >= |t| || !Accepts(a, t[p]) then 0 else
      var n := Longest(t, a, p + 1, max - 1);
      assert forall j :: 0 < j <= max && AtomRun(t, a, p, j) ==> AtomRun(t, a, p + 1, j - 1);
      n + 1
  }

  function MostCopies(t: seq<byte>, s: seq<byte>, p: nat): (n: nat)
    requires s != [] && p <= |t|
    ensures p + n * |s| <= |t|
    decreases |t| - p
  {
    if CopyAt(t, s, p) then 1 + MostCopies(t, s, p + |s|) else 0
  }

  /** Search for a way to match `items` from pos, longest repetition first. */
  function Search(t: seq<byte>, locs: int, items: seq<Item>, pos: nat, gs: Groups): Path
    requires pos <= |t|
    decreases |items|, 0
  {
    if items == [] then Path([], Accept(pos, gs)) else
      var rest := items[1..];
      match items[0]
      case One(a) =>
        if pos < |t| && Accepts(a, t[pos]) then Search(t, locs, rest, pos + 1, gs) else NoPath
      case Dollar =>
        if pos == |t| then Search(t, locs, rest, pos, gs) else NoPath
      case Open(g) =>
        Search(t, locs, rest, pos, gs.(bra := gs.bra[g := pos]))
      case Close(g) =>
        Search(t, locs, rest, pos, gs.(ket := gs.ket[g := pos]))
      case Back(g) =>
        var s := Captured(t, gs, g);
        if CopyAt(t, s, pos) then Search(t, locs, rest, pos + |s|, gs) else NoPath
      case Star(a) =>
        var n := Longest(t, a, pos, |t|);
        TryFrom(t, locs, rest, pos, n, 0, gs)
      case Range(a, lo, hi) =>
        var n := Longest(t, a, pos, MaxCount(lo, hi));
        if n < lo then NoPath else TryFrom(t, locs, rest, pos, n, lo, gs)
      case BackStar(g) =>
        var s := Captured(t, gs, g);
        if s == [] then Path([], Hang)
        else
          var n := MostCopies(t, s, pos);
          TryCopies(t, locs, rest, pos, pos + n * |s|, |s|, n, gs)
  }

  /** Try the rest after k, k-1, ..., lo characters of a run that starts at p, giving up at `locs`. */
  function TryFrom(t: seq<byte>, locs: int, rest: seq<Item>, p: nat, k: nat, lo: nat, gs: Groups): Path
    requires lo <= k && p + k <= |t|
    decreases |rest|, 1, k
  {
    if p + k == locs then NoPath else
      var r := Search(t, locs, rest, p + k, gs);
      if r.Path? then Prepend(k, r)
      else if k > lo then TryFrom(t, locs, rest, p, k - 1, lo, gs)
      else NoPath
  }

  /** Try the rest after k, k-1, ..., 0 copies of length len; p is the place reached after k of them, and
      curlp the place reached after none. */
  function TryCopies(t: seq<byte>, locs: int, rest: seq<Item>, curlp: nat, p: int, len: nat, k: int, gs: Groups): Path
    requires p <= |t|
    decreases |rest|, 1, k
  {
    if p < curlp || k < 0 then NoPath else
      var r := Search(t, locs, rest, p, gs);
      if r.Path? then Prepend(k, r) else TryCopies(t, locs, rest, curlp, p - len, len, k - 1, gs)
  }

  /** The search finds the first choice that does not fail, and finds none only if all fail. */
  ghost predicate IsFirst(t: seq<byte>, locs: int, items: seq<Item>, pos: int, gs: Groups, r: Path) {
    match r
    case NoPath => NoChoice(t, locs, items, pos, gs)
    case Path(counts, v) => Follow(t, locs, items, pos, gs, counts) == v && FirstChoice(t, locs, items, pos, gs, counts)
  }

  lemma {:induction false} SearchIsFirst(t: seq<byte>, locs: int, items: seq<Item>, pos: nat, gs: Groups)
    requires pos <= |t|
    ensures IsFirst(t, locs, items, pos, gs, Search(t, locs, items, pos, gs))
    decreases |items|, 2
  {
    if items != [] {
      var rest := items[1..];
      match items[0]
      case One(a) =>
        if pos < |t| && Accepts(a, t[pos]) {
          assert AtomRun(t, a, pos, 1);
          SearchIsFirst(t, locs, rest, pos + 1, gs);
          assert forall d :: Follow(t, locs, items, pos, gs, d) == Follow(t, locs, rest, pos + 1, gs, d);
        } else {
          assert !AtomRun(t, a, pos, 1);
        }
      case Dollar =>
        if pos == |t| {
          SearchIsFirst(t, locs, rest, pos, gs);
          assert forall d :: Follow(t, locs, items, pos, gs, d) == Follow(t, locs, rest, pos, gs, d);
        }
      case Open(g) =>
        var gs' := gs.(bra := gs.bra[g := pos]);
        SearchIsFirst(t, locs, rest, pos, gs');
        assert forall d :: Follow(t, locs, items, pos, gs, d) == Follow(t, locs, rest, pos, gs', d);
      case Close(g) =>
        var gs' := gs.(ket := gs.ket[g := pos]);
        SearchIsFirst(t, locs, rest, pos, gs');
        assert forall d :: Follow(t, locs, items, pos, gs, d) == Follow(t, locs, rest, pos, gs', d);
      case Back(g) =>
        var s := Captured(t, gs, g);
        if CopyAt(t, s, pos) {
          SearchIsFirst(t, locs, rest, pos + |s|, gs);
          assert forall d :: Follow(t, locs, items, pos, gs, d) == Follow(t, locs, rest, pos + |s|, gs, d);
        }
      case Star(a) =>
        TryFromIsFirst(t, locs, items, a, 0, |t|, pos, Longest(t, a, pos, |t|), gs);
      case Range(a, lo, hi) =>
        var n := Longest(t, a, pos, MaxCount(lo, hi));
        if n >= lo {
          TryFromIsFirst(t, locs, items, a, lo, MaxCount(lo, hi), pos, n, gs);
        }
      case BackStar(g) =>
        BackStarIsFirst(t, locs, items, pos, gs);
    }
  }

  lemma {:induction false} BackStarIsFirst(t: seq<byte>, locs: int, items: seq<Item>, pos: nat, gs: Groups)
    requires items != [] && items[0].BackStar? && pos <= |t|
    ensures IsFirst(t, locs, items, pos, gs, Search(t, locs, items, pos, gs))
    decreases |items|, 1
  {
    var s := Captured(t, gs, items[0].group);
    if s == [] {
      assert forall d :: !Follow(t, locs, items, pos, gs, d).Fail? ==> d == [];
    } else {
      var n := MostCopies(t, s, pos);
      forall d: seq<nat> | d != [] && d[0] > n
        ensures Follow(t, locs, items, pos, gs, d).Fail?
      {
        MostCopiesIsMost(t, s, pos, d[0]);
      }
      TryCopiesIsFirst(t, locs, items, s, pos, pos + n * |s|, n, gs);
    }
  }

  /** The first item repeats atom a, from lo to max times. */
  ghost predicate RepeatsAtom(t: seq<byte>, items: seq<Item>, a: Atom, lo: int, max: int) {
    items != [] &&
    match items[0]
    case Star(b) => a == b && lo == 0 && max == |t|
    case Range(b, lo', hi) => a == b && lo == lo' && max == MaxCount(lo', hi)
    case _ => false
  }

  /** No choice with a first count above k succeeds. */
  ghost predicate NoneAbove(t: seq<byte>, locs: int, items: seq<Item>, pos: int, gs: Groups, k: int) {
    forall d :: d != [] && d[0] > k ==> Follow(t, locs, items, pos, gs, d).Fail?
  }

  lemma {:induction false} TryFromIsFirst(t: seq<byte>, locs: int, items: seq<Item>, a: Atom, lo: nat, max: int,
                                          pos: nat, k: nat, gs: Groups)
    requires RepeatsAtom(t, items, a, lo, max)
    requires pos <= |t| && lo <= k <= Longest(t, a, pos, max)
    requires NoneAbove(t, locs, items, pos, gs, k)
    requires !(k < locs - pos <= Longest(t, a, pos, max))
    ensures IsFirst(t, locs, items, pos, gs, TryFrom(t, locs, items[1..], pos, k, lo, gs))
    decreases |items|, 1, k
  {
    FollowRun(t, locs, items, a, lo, max, pos, gs);
    hide Follow;
    var rest := items[1..];
    if pos + k == locs {
      forall d | d != [] && d[0] <= k ensures !Repeatable(t, locs, a, lo, max, pos, d[0]) {
        assert AtomRun(t, a, pos, k);
      }
    } else {
      assert Repeatable(t, locs, a, lo, max, pos, k);
      var r := Search(t, locs, rest, pos + k, gs);
      SearchIsFirst(t, locs, rest, pos + k, gs);
      if r.Path? {
        PrependIsFirst(t, locs, items, rest, pos, pos + k, gs, k, r);
      } else if k > lo {
        TryFromIsFirst(t, locs, items, a, lo, max, pos, k - 1, gs);
      }
    }
  }

  lemma FollowRun(t: seq<byte>, locs: int, items: seq<Item>, a: Atom, lo: nat, max: int, pos: nat, gs: Groups)
    requires RepeatsAtom(t, items, a, lo, max)
    ensures Follow(t, locs, items, pos, gs, []).Fail?
    ensures forall d: seq<nat> :: d != [] ==>
              Follow(t, locs, items, pos, gs, d) ==
              if Repeatable(t, locs, a, lo, max, pos, d[0]) then Follow(t, locs, items[1..], pos + d[0], gs, d[1..]) else Fail
  {}

  /** If choices starting with k do what `rest` does, and none above k succeeds, then the first choice
      for `rest`, after k, is the first choice. */
  lemma PrependIsFirst(t: seq<byte>, locs: int, items: seq<Item>, rest: seq<Item>, pos: int, pos': int,
                       gs: Groups, k: nat, r: Path)
    requires items != [] && (items[0].Star? || items[0].Range? || items[0].BackStar?)
    requires Follow(t, locs, items, pos, gs, []).Fail?
    requires NoneAbove(t, locs, items, pos, gs, k)
    requires forall d: seq<nat> :: d != [] && d[0] == k ==>
               Follow(t, locs, items, pos, gs, d) == Follow(t, locs, rest, pos', gs, d[1..])
    requires r.Path? && IsFirst(t, locs, rest, pos', gs, r)
    ensures IsFirst(t, locs, items, pos, gs, Prepend(k, r))
  {
    var c := [k] + r.counts;
    assert c[1..] == r.counts;
    forall d | !Follow(t, locs, items, pos, gs, d).Fail?
      ensures d == c || Precedes(c, d)
    {
      if d[0] == k {
        assert d == [k] + d[1..];
      }
    }
  }

  lemma {:induction false} MostCopiesIsMost(t: seq<byte>, s: seq<byte>, p: nat, k: nat)
    requires s != [] && p <= |t|
    ensures Copies(t, s, p, k) <==> k <= MostCopies(t, s, p)
    decreases k
  {
    if k > 0 && CopyAt(t, s, p) {
      MostCopiesIsMost(t, s, p + |s|, k - 1);
    }
  }

  /** p is k steps of length n after pos. */
  ghost predicate StepsAfter(pos: int, p: int, k: int, n: int) {
    p == pos + k * n && -1 <= k
  }

  lemma StepBack(pos: int, p: int, k: int, n: int)
    requires StepsAfter(pos, p, k, n) && n > 0
    ensures (k >= 0 ==> StepsAfter(pos, p - n, k - 1, n)) && (k >= 0 <==> p >= pos)
  {
    if k >= 0 {
      assert (k - 1) * n == k * n - n && k * n >= 0;
    } else {
      assert k * n == 0 - n;
    }
  }

  lemma {:induction false} TryCopiesIsFirst(t: seq<byte>, locs: int, items: seq<Item>, s: seq<byte>,
                                            pos: nat, p: int, k: int, gs: Groups)
    requires items != [] && items[0].BackStar? && s == Captured(t, gs, items[0].group) && s != []
    requires pos <= |t| && k <= MostCopies(t, s, pos) && p <= |t| && StepsAfter(pos, p, k, |s|)
    requires NoneAbove(t, locs, items, pos, gs, k)
    ensures IsFirst(t, locs, items, pos, gs, TryCopies(t, locs, items[1..], pos, p, |s|, k, gs))
    decreases |items|, 0, k + 1
  {
    StepBack(pos, p, k, |s|);
    CountNeeded(t, locs, items, s, pos, gs);
    hide Follow, StepsAfter;
    if k >= 0 {
      var rest := items[1..];
      SearchIsFirst(t, locs, rest, p, gs);
      MostCopiesIsMost(t, s, pos, k);
      FollowCopies(t, locs, items, s, pos, p, k, gs);
      var r := Search(t, locs, rest, p, gs);
      if r.Path? {
        PrependIsFirst(t, locs, items, rest, pos, p, gs, k, r);
      } else {
        TryCopiesIsFirst(t, locs, items, s, pos, p - |s|, k - 1, gs);
      }
    }
  }

  lemma CountNeeded(t: seq<byte>, locs: int, items: seq<Item>, s: seq<byte>, pos: nat, gs: Groups)
    requires items != [] && items[0].BackStar? && s == Captured(t, gs, items[0].group) && s != []
    ensures Follow(t, locs, items, pos, gs, []).Fail?
  {}

  lemma FollowCopies(t: seq<byte>, locs: int, items: seq<Item>, s: seq<byte>, pos: nat, p: nat, k: nat, gs: Groups)
    requires items != [] && items[0].BackStar? && s == Captured(t, gs, items[0].group) && s != []
    requires StepsAfter(pos, p, k, |s|) && Copies(t, s, pos, k)
    ensures forall d: seq<nat> :: d != [] && d[0] == k ==>
              Follow(t, locs, items, pos, gs, d) == Follow(t, locs, items[1..], p, gs, d[1..])
  {}
}
