/** The pattern notation written out, and the proof that `compile` reads exactly what can be written in it: an
    inverse for the reader of RegexpParse. */
module RegexpNotation {
  import opened Words
  import opened RegexpPattern
  import opened RegexpCode
  import opened RegexpParse
  import opened RegexpNumbers

  /** A member of a bracket expression: `c`, or `-b` behind another, which adds what is between. */
  datatype Elem = Single(c: byte) | Onto(b: byte)

  /** A one-character expression as written.  `dash` is a `-` just before the closing bracket. */
  datatype Source = Literal(c: byte, escaped: bool) | AnyChar | Bracket(negated: bool, elems: seq<Elem>, dash: bool)

  /** The second number of an interval: none, none behind a comma, or digits. */
  datatype Upper = Same | Unbounded | To(digits: seq<byte>)

  datatype Token =
    | Plain(s: Source)
    | Repeat
    | Bounds(lo: seq<byte>, hi: Upper)
    | Begin
    | End
    | Ref(g: nat)
    | EndAnchor

  // ----- what it says

  /** The members of m and of the elements; lc is the last character before them. */
  function ElemsFrom(m: set<byte>, lc: byte, es: seq<Elem>): set<byte>
    decreases |es|
  {
    if es == [] then m
    else
      match es[0]
      case Single(c) => ElemsFrom(m + {c}, c, es[1..])
      case Onto(b) => ElemsFrom(m + Span(lc, b) + {b}, b, es[1..])
  }

  function Dashed(dash: bool): set<byte> {
    if dash then {MINUS} else {}
  }

  function AtomOf(s: Source): Atom {
    match s
    case Literal(c, _) => Chr(c)
    case AnyChar => Dot
    case Bracket(negated, es, dash) => Class(negated, ElemsFrom({}, 0, es) + Dashed(dash))
  }

  /** Digits that the reader takes: it sees their value modulo 2^32, and keeps its low byte. */
  predicate IsBound(ds: seq<byte>) {
    ds != [] && AllDigits(ds) && Wrap(ValueFrom(0, ds)) <= 255
  }

  function BoundOf(ds: seq<byte>): byte
    requires IsBound(ds)
  {
    Wrap(ValueFrom(0, ds)) % 256
  }

  predicate AreBounds(lo: seq<byte>, hi: Upper) {
    IsBound(lo) && (hi.To? ==> IsBound(hi.digits) && BoundOf(lo) <= BoundOf(hi.digits))
  }

  function UpperOf(lo: seq<byte>, hi: Upper): byte
    requires AreBounds(lo, hi)
  {
    match hi case Same => BoundOf(lo) case Unbounded => NO_BOUND case To(ds) => BoundOf(ds)
  }

  /** What a `*` makes of the item before it; a further one adds nothing. */
  function Repeated(i: Item): Item {
    match i case One(a) => Star(a) case Back(g) => BackStar(g) case _ => i
  }

  predicate AtMark(items: seq<Item>) {
    items == [] || Last(items).Open? || Last(items).Close?
  }

  /** Which characters stand for themselves: bare, or behind a backslash. */
  predicate Stands(items: seq<Item>, c: byte, escaped: bool) {
    if escaped then
      && c != 0 && c != LPAREN && c != RPAREN && c != LOWER_N && !(ZERO < c <= NINE) && (c == LBRACE ==> items == [])
    else
      && c != 0 && c != NL && c != PERIOD && c != LBRACKET && c != BACKSLASH && (c == ASTERISK ==> AtMark(items))
  }

  /** What may be written next.  Groups are numbered as they open; a reference must be to one of that many closed
      before. */
  predicate Fits(st: State, k: Token) {
    match k
    case Plain(Literal(c, escaped)) => Stands(st.items, c, escaped)
    case Plain(AnyChar) => true
    case Plain(Bracket(negated, es, _)) => IsClass(negated, es)
    case Repeat => !AtMark(st.items) && !Last(st.items).Dollar?
    case Bounds(lo, hi) => st.items != [] && (Last(st.items).One? || Last(st.items).Star?) && AreBounds(lo, hi)
    case Begin => st.nbra < NBRA
    case End => st.open != []
    case Ref(g) => g < st.closed && g < NBRA
    case EndAnchor => true
  }

  function Says(st: State, k: Token): State
    requires Fits(st, k)
  {
    match k
    case Plain(s) => st.(items := st.items + [One(AtomOf(s))])
    case Repeat => st.(items := WithLast(st.items, Repeated(Last(st.items))))
    case Bounds(lo, hi) => st.(items := WithLast(st.items, Range(Last(st.items).atom, BoundOf(lo), UpperOf(lo, hi))))
    case Begin => st.(items := st.items + [Open(st.nbra)], open := st.open + [st.nbra], nbra := st.nbra + 1)
    case End =>
      var top := |st.open| - 1;
      st.(items := st.items + [Close(st.open[top])], open := st.open[..top], closed := st.closed + 1)
    case Ref(g) => st.(items := st.items + [Back(g)])
    case EndAnchor => st.(items := st.items + [Dollar])
  }

  // ----- how it is written

  function ShowElem(e: Elem): seq<byte> {
    match e
    case Single(c) => [c]
    case Onto(b) => [MINUS, b]
  }

  function ShowElems(es: seq<Elem>): seq<byte> {
    if es == [] then [] else ShowElem(es[0]) + ShowElems(es[1..])
  }

  function Tail(dash: bool): seq<byte> {
    if dash then [MINUS, RBRACKET] else [RBRACKET]
  }

  function ShowSource(s: Source): seq<byte> {
    match s
    case Literal(c, escaped) => if !escaped then [c] else [BACKSLASH, if c == NL then LOWER_N else c]
    case AnyChar => [PERIOD]
    case Bracket(negated, es, dash) => (if negated then [LBRACKET, CARET] else [LBRACKET]) + (ShowElems(es) + Tail(dash))
  }

  function ShowUpper(hi: Upper): seq<byte> {
    match hi case Same => [] case Unbounded => [COMMA] case To(ds) => [COMMA] + ds
  }

  function ShowBounds(lo: seq<byte>, hi: Upper): seq<byte> {
    lo + ShowUpper(hi) + [BACKSLASH, RBRACE]
  }

  function Show(k: Token): (s: seq<byte>)
    ensures s != []
  {
    match k
    case Plain(s) => ShowSource(s)
    case Repeat => [ASTERISK]
    case Bounds(lo, hi) => [BACKSLASH, LBRACE] + ShowBounds(lo, hi)
    case Begin => [BACKSLASH, LPAREN]
    case End => [BACKSLASH, RPAREN]
    case Ref(g) => [BACKSLASH, if g < NBRA then ZERO + 1 + g else ZERO]
    case EndAnchor => [DOLLAR]
  }

  function ShowAll(ks: seq<Token>): seq<byte> {
    if ks == [] then [] else Show(ks[0]) + ShowAll(ks[1..])
  }

  // ----- what can be written

  /** Members other than the first start with none of NUL, newline, `]` and `-`, and an unnegated class not with
      `^`.  What follows the `-` of a range is neither NUL nor `]`. */
  predicate IsClass(negated: bool, es: seq<Elem>) {
    && es != [] && es[0].Single? && es[0].c != 0 && es[0].c != NL && (negated || es[0].c != CARET)
    && Members1(es[1..])
  }

  predicate Members1(es: seq<Elem>) {
    forall i :: 0 <= i < |es| ==> IsMember(es[i])
  }

  predicate IsMember(e: Elem) {
    match e
    case Single(c) => c != 0 && c != NL && c != RBRACKET && c != MINUS
    case Onto(b) => b != 0 && b != RBRACKET
  }

  const BARE_DOLLAR := Plain(Literal(DOLLAR, false))

  /** All tokens fit, one after the other, and none begins with the delimiter; an anchor comes last. */
  predicate Legal(st: State, ks: seq<Token>, eof: int)
    decreases |ks|
  {
    ks == [] ||
    (Fits(st, ks[0]) && Show(ks[0])[0] != eof && (ks[0] == EndAnchor ==> |ks| == 1) && Legal(Says(st, ks[0]), ks[1..], eof))
  }

  function SaysAll(st: State, ks: seq<Token>, eof: int): State
    requires Legal(st, ks, eof)
    decreases |ks|
  {
    if ks == [] then st else SaysAll(Says(st, ks[0]), ks[1..], eof)
  }

  const START := State(0, [], [], 0, 0)

  /** s occurs in src at p. */
  ghost predicate At(src: seq<byte>, p: nat, s: seq<byte>) {
    p + |s| <= |src| && forall i :: 0 <= i < |s| ==> src[p + i] == s[i]
  }

  lemma AtSplit(src: seq<byte>, p: nat, a: seq<byte>, b: seq<byte>)
    ensures At(src, p, a + b) <==> At(src, p, a) && At(src, p + |a|, b)
  {
    if At(src, p, a + b) {
      assert forall i :: 0 <= i < |a| ==> (a + b)[i] == a[i];
      assert forall i :: 0 <= i < |b| ==> (a + b)[|a| + i] == b[i];
    }
  }

  lemma AtIndex(src: seq<byte>, p: nat, s: seq<byte>, i: nat)
    requires At(src, p, s) && i < |s|
    ensures p + i < |src| && src[p + i] == s[i]
  {}

  /** Where a pattern ends: at its delimiter, or, unless sed is reading, at a newline. */
  predicate EndsAt(src: seq<byte>, p: nat, eof: int, sed: bool, newline: bool) {
    && p < |src| && (src[p] == BACKSLASH ==> p + 1 < |src|)
    && if newline then src[p] == NL && src[p] != eof && !sed else src[p] == eof
  }

  /** The tokens are written at p, and the pattern ends behind them: a `$` there is the anchor, and elsewhere
      stands for itself. */
  ghost predicate WrittenAt(src: seq<byte>, p: nat, st: State, ks: seq<Token>, eof: int, sed: bool, newline: bool) {
    && Legal(st, ks, eof) && At(src, p, ShowAll(ks)) && EndsAt(src, p + |ShowAll(ks)|, eof, sed, newline)
    && (ks != [] ==> ks[|ks| - 1] != BARE_DOLLAR)
  }

  // ----- intervals

  lemma DigitsOf(src: seq<byte>, p: nat, ds: seq<byte>, stop: byte)
    requires ds != [] && AllDigits(ds) && (stop == BACKSLASH || stop == COMMA) && At(src, p, ds + [stop])
    ensures Digits(src, p, 0) == Accepted(ValueFrom(0, ds), stop, p + |ds| + 1)
  {
    AtSplit(src, p, ds, [stop]);
    AtIndex(src, p + |ds|, [stop], 0);
    assert src[p..p + |ds|] == ds;
    DigitsModulo(src, p, 0, 0, ds, stop);
  }

  lemma {:induction false} DigitsText(src: seq<byte>, p: nat, i: int)
    requires Digits(src, p, i).Number?
    ensures var n := Digits(src, p, i);
            && p + 1 < n.pos <= |src| && AllDigits(src[p..n.pos - 1]) && src[n.pos - 1] == n.stop
    decreases |src| - p
  {
    var n := Digits(src, p, i);
    var i' := Wrap(10 * i + src[p] - ZERO);
    if !(src[p + 1] == BACKSLASH || src[p + 1] == COMMA) {
      DigitsText(src, p + 1, i');
      assert src[p..n.pos - 1] == [src[p]] + src[p + 1..n.pos - 1];
    }
  }

  /** A number that has been read was written. */
  lemma NumberSpelled(src: seq<byte>, p: nat) returns (ds: seq<byte>)
    requires Digits(src, p, 0).Number?
    ensures var n := Digits(src, p, 0);
            IsBound(ds) && n.value == BoundOf(ds) && At(src, p, ds + [n.stop]) && n.pos == p + |ds| + 1
  {
    var n := Digits(src, p, 0);
    DigitsText(src, p, 0);
    ds := src[p..n.pos - 1];
    assert At(src, p, ds + [n.stop]);
    DigitsOf(src, p, ds, n.stop);
  }

  /** What is read of an interval, by what stands where. */
  lemma IntervalIs(src: seq<byte>, p: nat, lo: byte, stop: byte, p1: nat)
    requires Digits(src, p, 0) == Number(lo, stop, p1)
    ensures stop == BACKSLASH ==> ReadInterval(src, p) == CloseBrace(src, p1, lo, lo)
    ensures stop == COMMA && p1 < |src| && src[p1] == BACKSLASH ==> ReadInterval(src, p) == CloseBrace(src, p1 + 1, lo, NO_BOUND)
    ensures stop == COMMA && p1 < |src| && src[p1] != BACKSLASH && Digits(src, p1, 0).Number? ==>
              var n := Digits(src, p1, 0);
              ReadInterval(src, p) == if n.stop == COMMA then BadInterval(44) else CloseBrace(src, n.pos, lo, n.value)
  {
    hide Digits;
  }

  lemma BraceIs(src: seq<byte>, p: nat, lo: byte, hi: byte)
    requires At(src, p, [RBRACE]) && lo <= hi
    ensures CloseBrace(src, p, lo, hi) == Interval(lo, hi, p + 1)
  {
    AtIndex(src, p, [RBRACE], 0);
  }

  /** Bounds read as they are written. */
  lemma BoundsRead(src: seq<byte>, p: nat, lo: seq<byte>, hi: Upper)
    requires AreBounds(lo, hi) && At(src, p, ShowBounds(lo, hi))
    ensures ReadInterval(src, p) == Interval(BoundOf(lo), UpperOf(lo, hi), p + |ShowBounds(lo, hi)|)
  {
    match hi
    case Same => SameRead(src, p, lo);
    case Unbounded => UnboundedRead(src, p, lo);
    case To(ds) => UpToRead(src, p, lo, ds);
  }

  lemma SameRead(src: seq<byte>, p: nat, lo: seq<byte>)
    requires IsBound(lo) && At(src, p, ShowBounds(lo, Same))
    ensures ReadInterval(src, p) == Interval(BoundOf(lo), BoundOf(lo), p + |ShowBounds(lo, Same)|)
  {
    hide Digits, At, ValueFrom, Wrap, ReadInterval, CloseBrace, AllDigits;
    assert ShowBounds(lo, Same) == (lo + [BACKSLASH]) + [RBRACE];
    AtSplit(src, p, lo + [BACKSLASH], [RBRACE]);
    DigitsOf(src, p, lo, BACKSLASH);
    IntervalIs(src, p, BoundOf(lo), BACKSLASH, p + |lo| + 1);
    BraceIs(src, p + |lo| + 1, BoundOf(lo), BoundOf(lo));
  }

  lemma UnboundedRead(src: seq<byte>, p: nat, lo: seq<byte>)
    requires IsBound(lo) && At(src, p, ShowBounds(lo, Unbounded))
    ensures ReadInterval(src, p) == Interval(BoundOf(lo), NO_BOUND, p + |ShowBounds(lo, Unbounded)|)
  {
    hide Digits, At, ValueFrom, Wrap, ReadInterval, CloseBrace, AllDigits;
    assert ShowBounds(lo, Unbounded) == (lo + [COMMA]) + ([BACKSLASH] + [RBRACE]);
    AtSplit(src, p, lo + [COMMA], [BACKSLASH] + [RBRACE]);
    AtSplit(src, p + |lo| + 1, [BACKSLASH], [RBRACE]);
    DigitsOf(src, p, lo, COMMA);
    AtIndex(src, p + |lo| + 1, [BACKSLASH], 0);
    IntervalIs(src, p, BoundOf(lo), COMMA, p + |lo| + 1);
    BraceIs(src, p + |lo| + 2, BoundOf(lo), NO_BOUND);
  }

  lemma UpToRead(src: seq<byte>, p: nat, lo: seq<byte>, ds: seq<byte>)
    requires AreBounds(lo, To(ds)) && At(src, p, ShowBounds(lo, To(ds)))
    ensures ReadInterval(src, p) == Interval(BoundOf(lo), BoundOf(ds), p + |ShowBounds(lo, To(ds))|)
  {
    hide Digits, At, ValueFrom, Wrap, ReadInterval, CloseBrace, AllDigits;
    var p1 := p + |lo| + 1;
    assert ShowBounds(lo, To(ds)) == (lo + [COMMA]) + ((ds + [BACKSLASH]) + [RBRACE]);
    AtSplit(src, p, lo + [COMMA], (ds + [BACKSLASH]) + [RBRACE]);
    AtSplit(src, p1, ds + [BACKSLASH], [RBRACE]);
    DigitsOf(src, p, lo, COMMA);
    DigitsOf(src, p1, ds, BACKSLASH);
    FirstDigit(src, p1, ds, BACKSLASH);
    IntervalIs(src, p, BoundOf(lo), COMMA, p1);
    BraceIs(src, p1 + |ds| + 1, BoundOf(lo), BoundOf(ds));
  }

  lemma FirstDigit(src: seq<byte>, p: nat, ds: seq<byte>, stop: byte)
    requires ds != [] && AllDigits(ds) && At(src, p, ds + [stop])
    ensures p < |src| && src[p] != BACKSLASH
  {
    AtIndex(src, p, ds + [stop], 0);
  }

  /** An interval that has been read was written. */
  lemma BoundsSpelled(src: seq<byte>, p: nat) returns (lo: seq<byte>, hi: Upper)
    requires ReadInterval(src, p).Interval?
    ensures var i := ReadInterval(src, p);
            AreBounds(lo, hi) && At(src, p, ShowBounds(lo, hi)) && i == Interval(BoundOf(lo), UpperOf(lo, hi), p + |ShowBounds(lo, hi)|)
  {
    hide Digits, At, ReadInterval, ShowBounds, AreBounds, IsBound;
    IntervalParts(src, p);
    var n := Digits(src, p, 0);
    lo := NumberSpelled(src, p);
    if n.stop == BACKSLASH {
      hi := Same;
    } else if src[n.pos] == BACKSLASH {
      hi := Unbounded;
    } else {
      var ds := NumberSpelled(src, n.pos);
      hi := To(ds);
    }
    BoundsAre(src, p, lo, hi);
    BoundsRead(src, p, lo, hi);
  }

  lemma IntervalParts(src: seq<byte>, p: nat)
    requires ReadInterval(src, p).Interval?
    ensures var n := Digits(src, p, 0);
            && n.Number? && (n.stop == BACKSLASH || n.stop == COMMA) && n.pos < |src|
            && (n.stop == BACKSLASH ==> At(src, n.pos, [RBRACE]))
            && (n.stop == COMMA && src[n.pos] == BACKSLASH ==> At(src, n.pos, [BACKSLASH, RBRACE]))
            && (n.stop == COMMA && src[n.pos] != BACKSLASH ==>
                  var n2 := Digits(src, n.pos, 0);
                  n2.Number? && n2.stop == BACKSLASH && At(src, n2.pos, [RBRACE]) && n.value <= n2.value)
  {
    hide Digits;
  }

  lemma BoundsAre(src: seq<byte>, p: nat, lo: seq<byte>, hi: Upper)
    requires IsBound(lo)
    requires match hi
             case Same => At(src, p, lo + [BACKSLASH]) && At(src, p + |lo| + 1, [RBRACE])
             case Unbounded => At(src, p, lo + [COMMA]) && At(src, p + |lo| + 1, [BACKSLASH, RBRACE])
             case To(ds) =>
               && IsBound(ds) && BoundOf(lo) <= BoundOf(ds) && At(src, p, lo + [COMMA])
               && At(src, p + |lo| + 1, ds + [BACKSLASH]) && At(src, p + |lo| + 1 + |ds| + 1, [RBRACE])
    ensures AreBounds(lo, hi) && At(src, p, ShowBounds(lo, hi))
  {
    hide At, IsBound, BoundOf;
    match hi
    case Same =>
      assert ShowBounds(lo, hi) == (lo + [BACKSLASH]) + [RBRACE];
      AtSplit(src, p, lo + [BACKSLASH], [RBRACE]);
    case Unbounded =>
      assert ShowBounds(lo, hi) == (lo + [COMMA]) + [BACKSLASH, RBRACE];
      AtSplit(src, p, lo + [COMMA], [BACKSLASH, RBRACE]);
    case To(ds) =>
      assert ShowBounds(lo, hi) == (lo + [COMMA]) + ((ds + [BACKSLASH]) + [RBRACE]);
      AtSplit(src, p + |lo| + 1, ds + [BACKSLASH], [RBRACE]);
      AtSplit(src, p, lo + [COMMA], (ds + [BACKSLASH]) + [RBRACE]);
  }

  lemma OneAt(src: seq<byte>, p: nat, c: byte)
    ensures At(src, p, [c]) <==> p < |src| && src[p] == c
  {
    assert [c][0] == c;
  }

  // ----- bracket expressions

  /** Room for the wide bitmap, if the class needs one. */
  predicate Room(m: set<byte>, used: nat, cap: int) {
    Wide(m) ==> used + 33 < cap
  }

  lemma RoomLess(m: set<byte>, all: set<byte>, used: nat, cap: int)
    requires m <= all && Room(all, used, cap)
    ensures Room(m, used, cap)
  {}

  lemma {:induction false} FromGrows(m: set<byte>, lc: byte, es: seq<Elem>)
    ensures m <= ElemsFrom(m, lc, es)
    decreases |es|
  {
    if es != [] {
      match es[0]
      case Single(c) => FromGrows(m + {c}, c, es[1..]);
      case Onto(b) => FromGrows(m + Span(lc, b) + {b}, b, es[1..]);
    }
  }

  /** The member may stand there: only the first may be `]` or `-`, and only others may go on from one before. */
  predicate MemberFits(e: Elem, lc: byte) {
    if lc == 0 then e.Single? && e.c != 0 && e.c != NL else IsMember(e)
  }

  function LastOf(e: Elem): byte {
    match e case Single(c) => c case Onto(b) => b
  }

  function SetAfter(m: set<byte>, lc: byte, e: Elem): set<byte> {
    match e case Single(c) => m + {c} case Onto(b) => m + Span(lc, b) + {b}
  }

  /** One member. */
  lemma ElemRead(src: seq<byte>, p: nat, lc: byte, m: set<byte>, e: Elem, used: nat, cap: int)
    requires 0 < p && p - 1 + |ShowElem(e)| < |src| && At(src, p - 1, ShowElem(e))
    requires MemberFits(e, lc) && Room(SetAfter(m, lc, e), used, cap)
    ensures var q := p - 1 + |ShowElem(e)|;
            LastOf(e) != 0 &&
            Members(src, p, src[p - 1], lc, m, used, cap) ==
            if src[q] == RBRACKET then ClassText(SetAfter(m, lc, e), q + 1)
            else Members(src, q + 1, src[q], LastOf(e), SetAfter(m, lc, e), used, cap)
  {
    var w := ShowElem(e);
    assert src[p - 1] == w[0];
    match e
    case Single(c) =>
      assert c in SetAfter(m, lc, e);
    case Onto(b) =>
      assert src[p] == w[1];
      assert b in SetAfter(m, lc, e);
  }

  /** The `-` before the closing bracket. */
  lemma DashRead(src: seq<byte>, p: nat, lc: byte, m: set<byte>, used: nat, cap: int)
    requires 0 < p < |src| && src[p - 1] == MINUS && lc != 0 && src[p] == RBRACKET
    ensures Members(src, p, MINUS, lc, m, used, cap) == ClassText(m + {MINUS}, p + 1)
  {}

  lemma ShowFirst(es: seq<Elem>, dash: bool)
    ensures es != [] ==> ShowElems(es) + Tail(dash) == ShowElem(es[0]) + (ShowElems(es[1..]) + Tail(dash))
    ensures (ShowElems(es) + Tail(dash))[0] == if es != [] then ShowElem(es[0])[0] else Tail(dash)[0]
  {}

  /** Reading the members, one at a time, p being past the first character of the first of them. */
  lemma {:induction false} ElemsRead(src: seq<byte>, p: nat, lc: byte, m: set<byte>, es: seq<Elem>, dash: bool,
                                     used: nat, cap: int)
    requires p > 0 && es != [] && At(src, p - 1, ShowElems(es) + Tail(dash))
    requires MemberFits(es[0], lc) && Members1(es[1..])
    requires Room(ElemsFrom(m, lc, es) + Dashed(dash), used, cap)
    ensures Members(src, p, src[p - 1], lc, m, used, cap) ==
            ClassText(ElemsFrom(m, lc, es) + Dashed(dash), p - 1 + |ShowElems(es) + Tail(dash)|)
    decreases |es|
  {
    hide Members, Room, At, Wide, Span, ShowElem, IsMember;
    var e, rest := es[0], es[1..];
    var w := ShowElems(rest) + Tail(dash);
    var m' := SetAfter(m, lc, e);
    ShowFirst(es, dash);
    ShowFirst(rest, dash);
    var q := p - 1 + |ShowElem(e)|;
    AtSplit(src, p - 1, ShowElem(e), w);
    AtIndex(src, q, w, 0);
    FromGrows(m', LastOf(e), rest);
    RoomLess(m', ElemsFrom(m, lc, es) + Dashed(dash), used, cap);
    ElemRead(src, p, lc, m, e, used, cap);
    if rest != [] {
      assert IsMember(rest[0]) && Members1(rest[1..]) by {
        assert forall i :: 0 <= i < |rest| - 1 ==> rest[1..][i] == rest[i + 1];
      }
      FirstNoBracket(rest[0]);
      ElemsRead(src, q + 1, LastOf(e), m', rest, dash, used, cap);
    } else if dash {
      AtIndex(src, q, w, 1);
      DashRead(src, q + 1, LastOf(e), m', used, cap);
    }
  }

  lemma FirstNoBracket(e: Elem)
    requires IsMember(e)
    ensures ShowElem(e)[0] != RBRACKET
  {}

  /** The member at hand. */
  function ElemAt(src: seq<byte>, p: nat, lc: byte): Elem
    requires 0 < p < |src|
  {
    if src[p - 1] == MINUS && lc != 0 then Onto(src[p]) else Single(src[p - 1])
  }

  lemma TurnSpelled(src: seq<byte>, p: nat, lc: byte, m: set<byte>, used: nat, cap: int)
    requires CString(src) && 0 < p <= |src| && Members(src, p, src[p - 1], lc, m, used, cap).ClassText?
    requires lc != 0 ==> src[p - 1] != RBRACKET
    ensures p < |src|
    ensures !(src[p - 1] == MINUS && lc != 0 && src[p] == RBRACKET) ==>
              var e := ElemAt(src, p, lc); var q, m' := p - 1 + |ShowElem(e)|, SetAfter(m, lc, e);
              && MemberFits(e, lc) && LastOf(e) != 0 && At(src, p - 1, ShowElem(e)) && p <= q < |src|
              && Members(src, p, src[p - 1], lc, m, used, cap) ==
                 if src[q] == RBRACKET then ClassText(m', q + 1) else Members(src, q + 1, src[q], LastOf(e), m', used, cap)
  {}

  /** A class that has been read was written. */
  lemma {:induction false} ElemsSpelled(src: seq<byte>, p: nat, lc: byte, m: set<byte>, used: nat, cap: int)
    returns (es: seq<Elem>, dash: bool)
    requires CString(src) && 0 < p <= |src| && Members(src, p, src[p - 1], lc, m, used, cap).ClassText?
    requires lc != 0 ==> src[p - 1] != RBRACKET
    ensures At(src, p - 1, ShowElems(es) + Tail(dash))
    ensures es != [] ==> MemberFits(es[0], lc) && Members1(es[1..])
    ensures es == [] ==> dash && lc != 0
    ensures Members(src, p, src[p - 1], lc, m, used, cap) ==
            ClassText(ElemsFrom(m, lc, es) + Dashed(dash), p - 1 + |ShowElems(es) + Tail(dash)|)
    decreases |src| - p
  {
    hide Members, At, ShowElem, MemberFits, SetAfter, Members1, CString;
    TurnSpelled(src, p, lc, m, used, cap);
    if src[p - 1] == MINUS && lc != 0 && src[p] == RBRACKET {
      es, dash := [], true;
      DashRead(src, p, lc, m, used, cap);
      JustDash(src, p - 1);
    } else {
      var e := ElemAt(src, p, lc);
      var q := p - 1 + |ShowElem(e)|;
      var rest;
      if src[q] == RBRACKET {
        rest, dash := [], false;
        JustBracket(src, q);
      } else {
        rest, dash := ElemsSpelled(src, q + 1, LastOf(e), SetAfter(m, lc, e), used, cap);
      }
      es := [e] + rest;
      ElemsAhead(e, rest, dash, m, lc);
      MembersAhead(rest, LastOf(e));
      AtSplit(src, p - 1, ShowElem(e), ShowElems(rest) + Tail(dash));
    }
  }

  lemma JustDash(src: seq<byte>, p: nat)
    requires p + 1 < |src| && src[p] == MINUS && src[p + 1] == RBRACKET
    ensures ShowElems([]) + Tail(true) == [MINUS, RBRACKET] && At(src, p, ShowElems([]) + Tail(true))
  {}

  lemma JustBracket(src: seq<byte>, p: nat)
    requires p < |src| && src[p] == RBRACKET
    ensures ShowElems([]) + Tail(false) == [RBRACKET] && At(src, p, ShowElems([]) + Tail(false))
  {}

  lemma MembersAhead(rest: seq<Elem>, lc: byte)
    requires lc != 0 && (rest != [] ==> MemberFits(rest[0], lc) && Members1(rest[1..]))
    ensures Members1(rest)
  {
    forall i | 0 <= i < |rest| ensures IsMember(rest[i]) {
      if i > 0 { assert rest[1..][i - 1] == rest[i]; }
    }
  }

  lemma ElemsAhead(e: Elem, rest: seq<Elem>, dash: bool, m: set<byte>, lc: byte)
    ensures var es := [e] + rest;
            && es[1..] == rest && ShowElems(es) + Tail(dash) == ShowElem(e) + (ShowElems(rest) + Tail(dash))
            && ElemsFrom(m, lc, es) == ElemsFrom(SetAfter(m, lc, e), LastOf(e), rest)
  {
    assert ([e] + rest)[1..] == rest;
  }

  // ----- tokens

  lemma UsedSplit(items: seq<Item>, i: Item)
    ensures Used(items + [i]) == Used(items) + ItemSize(i)
  {
    assert (items + [i])[..|items|] == items;
  }

  /** A token makes a program no shorter. */
  lemma UsedMore(st: State, k: Token)
    requires Fits(st, k)
    ensures Used(st.items) <= Used(Says(st, k).items)
    ensures k.Plain? ==> Used(Says(st, k).items) == Used(st.items) + 1 + AtomArgs(AtomOf(k.s))
  {
    hide Used, AtomOf, IsClass, AreBounds, BoundOf, UpperOf;
    if k.Repeat? || k.Bounds? {
      var front, last := st.items[..|st.items| - 1], Last(st.items);
      assert front + [last] == st.items;
      UsedSplit(front, last);
      UsedSplit(front, Last(Says(st, k).items));
    } else {
      UsedSplit(st.items, Last(Says(st, k).items));
    }
  }

  /** The state after a token, with the reading position moved past it. */
  function After(st: State, k: Token): State
    requires Fits(st, k)
  {
    Says(st, k).(pos := st.pos + |Show(k)|)
  }

  predicate Escaped(k: Token) {
    k.Begin? || k.End? || k.Ref? || k.Bounds? || (k.Plain? && k.s.Literal? && k.s.escaped)
  }

  lemma EscapeTurn(src: seq<byte>, eof: int, sed: bool, cap: int, st: State)
    requires Used(st.items) < cap && st.pos + 1 < |src| && src[st.pos] == BACKSLASH != eof
    ensures ReadItem(src, eof, sed, cap, st) == ReadEscape(src, st, st.pos + 1)
  {}

  lemma BracesTurn(src: seq<byte>, st: State, p: nat)
    requires p < |src| && src[p] == LBRACE && st.items != [] && (Last(st.items).One? || Last(st.items).Star?)
    ensures ReadEscape(src, st, p) == ReadRange(src, st, Last(st.items).atom, p + 1)
  {}

  lemma EscapeReads(src: seq<byte>, st: State, k: Token)
    requires Escaped(k) && Fits(st, k) && At(src, st.pos, Show(k))
    ensures st.pos + 1 < |src| && src[st.pos] == BACKSLASH && ReadEscape(src, st, st.pos + 1) == More(After(st, k))
  {
    AtIndex(src, st.pos, Show(k), 0);
    AtIndex(src, st.pos, Show(k), 1);
    if k.Bounds? {
      hide ReadEscape, ReadInterval, At, BoundOf, UpperOf, AreBounds;
      AtSplit(src, st.pos, [BACKSLASH, LBRACE], ShowBounds(k.lo, k.hi));
      BoundsRead(src, st.pos + 2, k.lo, k.hi);
      BracesTurn(src, st, st.pos + 1);
    }
  }

  lemma ClassReads(src: seq<byte>, cap: int, st: State, negated: bool, es: seq<Elem>, dash: bool)
    requires IsClass(negated, es) && At(src, st.pos, ShowSource(Bracket(negated, es, dash)))
    requires Used(st.items) + 1 + AtomArgs(AtomOf(Bracket(negated, es, dash))) < cap
    ensures var k := Plain(Bracket(negated, es, dash)); ReadClass(src, st, st.pos + 1, cap) == More(After(st, k))
  {
    hide Members, ShowElems, At;
    var s := Bracket(negated, es, dash);
    var w := ShowElems(es) + Tail(dash);
    var head := if negated then [LBRACKET, CARET] else [LBRACKET];
    AtSplit(src, st.pos, head, w);
    ShowFirst(es, dash);
    AtIndex(src, st.pos + |head|, w, 0);
    AtIndex(src, st.pos, head, |head| - 1);
    ElemsRead(src, st.pos + |head| + 1, 0, {}, es, dash, Used(st.items), cap);
  }

  predicate IsBracket(k: Token) { k.Plain? && k.s.Bracket? }

  /** What must follow a `$`: at the end of the pattern it is the anchor, elsewhere not. */
  predicate DollarFits(src: seq<byte>, eof: int, k: Token, p: nat) {
    && (k == EndAnchor ==> p < |src| && (src[p] == eof || src[p] == NL))
    && (k == BARE_DOLLAR ==> p < |src| && src[p] != eof && src[p] != NL)
  }

  /** Reading a written token gives what the token says. */
  lemma TokenReads(src: seq<byte>, eof: int, sed: bool, cap: int, st: State, k: Token)
    requires Fits(st, k) && Show(k)[0] != eof && At(src, st.pos, Show(k))
    requires Used(st.items) < cap && (IsBracket(k) ==> Used(Says(st, k).items) < cap)
    requires DollarFits(src, eof, k, st.pos + |Show(k)|)
    ensures ReadItem(src, eof, sed, cap, st) == More(After(st, k))
  {
    hide ReadItem, ReadEscape, ReadClass, At, Says, Fits, Used, AtomOf, IsClass, DollarFits;
    if Escaped(k) {
      EscapeReads(src, st, k);
      AtIndex(src, st.pos, Show(k), 0);
      EscapeTurn(src, eof, sed, cap, st);
    } else if IsBracket(k) {
      BracketReads(src, eof, sed, cap, st, k);
    } else {
      BareReads(src, eof, sed, cap, st, k);
    }
  }

  lemma BracketReads(src: seq<byte>, eof: int, sed: bool, cap: int, st: State, k: Token)
    requires IsBracket(k) && Fits(st, k) && Show(k)[0] != eof && At(src, st.pos, Show(k)) && Used(Says(st, k).items) < cap
    ensures ReadItem(src, eof, sed, cap, st) == More(After(st, k))
  {
    hide ReadClass, At, Used, AtomOf, IsClass;
    UsedMore(st, k);
    AtIndex(src, st.pos, Show(k), 0);
    ClassReads(src, cap, st, k.s.negated, k.s.elems, k.s.dash);
  }

  lemma BareReads(src: seq<byte>, eof: int, sed: bool, cap: int, st: State, k: Token)
    requires !Escaped(k) && !IsBracket(k) && Fits(st, k) && Show(k)[0] != eof && At(src, st.pos, Show(k)) && Used(st.items) < cap
    requires DollarFits(src, eof, k, st.pos + |Show(k)|)
    ensures ReadItem(src, eof, sed, cap, st) == More(After(st, k))
  {
    hide Used, At, ReadClass, ReadEscape;
    AtIndex(src, st.pos, Show(k), 0);
  }

  // ----- whole patterns

  /** Only the position tells the two states apart. */
  predicate SameBut(st: State, st': State) {
    st' == st.(pos := st'.pos)
  }

  lemma {:induction false} LegalAnywhere(st: State, st': State, ks: seq<Token>, eof: int)
    requires SameBut(st, st') && Legal(st, ks, eof)
    ensures Legal(st', ks, eof) && SameBut(SaysAll(st, ks, eof), SaysAll(st', ks, eof))
    decreases |ks|
  {
    hide Show, AtomOf, IsClass, AreBounds, BoundOf, UpperOf, Repeated, Stands;
    if ks != [] {
      LegalAnywhere(Says(st, ks[0]), Says(st', ks[0]), ks[1..], eof);
    }
  }

  lemma {:induction false} UsedGrows(st: State, ks: seq<Token>, eof: int)
    requires Legal(st, ks, eof)
    ensures Used(st.items) <= Used(SaysAll(st, ks, eof).items)
    decreases |ks|
  {
    hide Used, Fits, Says, Show;
    if ks != [] {
      UsedMore(st, ks[0]);
      UsedGrows(Says(st, ks[0]), ks[1..], eof);
    }
  }

  /** No token begins with a newline. */
  lemma NotNewline(st: State, k: Token)
    requires Fits(st, k)
    ensures Show(k)[0] != NL
  {}

  /** One turn of the reader. */
  lemma Turn(src: seq<byte>, eof: int, sed: bool, cap: int, st: State, st': State)
    requires ReadItem(src, eof, sed, cap, st) == More(st')
    ensures ReadItems(src, eof, sed, cap, st) == ReadItems(src, eof, sed, cap, st')
  {}

  /** What follows the tokens does not contradict a `$` among them. */
  predicate Follows(src: seq<byte>, eof: int, ks: seq<Token>, p: nat) {
    ks != [] ==> DollarFits(src, eof, ks[|ks| - 1], p)
  }

  /** The state behind all the tokens, from position p on. */
  function Behind(st: State, ks: seq<Token>, eof: int): State
    requires Legal(st, ks, eof)
  {
    SaysAll(st, ks, eof).(pos := st.pos + |ShowAll(ks)|)
  }

  /** The first of several tokens, and the state behind it. */
  lemma FirstOfAll(src: seq<byte>, eof: int, st: State, ks: seq<Token>)
    requires ks != [] && Legal(st, ks, eof) && At(src, st.pos, ShowAll(ks)) && Follows(src, eof, ks, st.pos + |ShowAll(ks)|)
    ensures var k, rest, st' := ks[0], ks[1..], After(st, ks[0]);
            && At(src, st.pos, Show(k)) && DollarFits(src, eof, k, st'.pos)
            && Legal(st', rest, eof) && At(src, st'.pos, ShowAll(rest)) && Follows(src, eof, rest, st'.pos + |ShowAll(rest)|)
            && Behind(st, ks, eof) == Behind(st', rest, eof)
            && SaysAll(Says(st, k), rest, eof).items == SaysAll(st', rest, eof).items
  {
    hide At, Says, Fits, Show;
    var k, rest, st' := ks[0], ks[1..], After(st, ks[0]);
    assert ShowAll(ks) == Show(k) + ShowAll(rest);
    AtSplit(src, st.pos, Show(k), ShowAll(rest));
    LegalAnywhere(Says(st, k), st', rest, eof);
    if rest != [] {
      assert ShowAll(rest)[0] == Show(rest[0])[0];
      AtIndex(src, st'.pos, ShowAll(rest), 0);
      NotNewline(Says(st, k), rest[0]);
      assert k != EndAnchor;
    }
  }

  lemma NoRoomLeft(src: seq<byte>, eof: int, sed: bool, cap: int, st: State)
    requires Used(st.items) >= cap
    ensures ReadItems(src, eof, sed, cap, st) == Error(50)
  {}

  /** Tokens that fit in the buffer are read one after the other; others end in error 50. */
  lemma {:induction false} TokensRead(src: seq<byte>, eof: int, sed: bool, cap: int, st: State, ks: seq<Token>)
    requires Legal(st, ks, eof) && At(src, st.pos, ShowAll(ks)) && Follows(src, eof, ks, st.pos + |ShowAll(ks)|)
    ensures ReadItems(src, eof, sed, cap, st) ==
            if Used(SaysAll(st, ks, eof).items) >= cap then Error(50) else ReadItems(src, eof, sed, cap, Behind(st, ks, eof))
    decreases |ks|
  {
    hide ReadItems, ReadItem, At, Fits, Says, Show, Used, Follows, DollarFits;
    if Used(st.items) >= cap {
      UsedGrows(st, ks, eof);
      NoRoomLeft(src, eof, sed, cap, st);
    } else if ks != [] {
      var k, rest, st' := ks[0], ks[1..], After(st, ks[0]);
      FirstOfAll(src, eof, st, ks);
      if IsBracket(k) && Used(Says(st, k).items) >= cap {
        UsedGrows(Says(st, k), rest, eof);
        BracketTooLong(src, eof, sed, cap, st, k);
      } else {
        TokenReads(src, eof, sed, cap, st, k);
        Turn(src, eof, sed, cap, st, st');
        TokensRead(src, eof, sed, cap, st', rest);
      }
    } else {
      assert st.(pos := st.pos + 0) == st;
    }
  }

  /** A class there is no room for. */
  lemma BracketTooLong(src: seq<byte>, eof: int, sed: bool, cap: int, st: State, k: Token)
    requires IsBracket(k) && Fits(st, k) && Show(k)[0] != eof && At(src, st.pos, Show(k))
    requires Used(st.items) < cap <= Used(Says(st, k).items)
    ensures ReadItems(src, eof, sed, cap, st) == Error(50)
  {
    hide ReadClass, At, Used, AtomOf, IsClass, ShowElems;
    AtIndex(src, st.pos, Show(k), 0);
    UsedMore(st, k);
    ClassTooLong(src, cap, st, k.s.negated, k.s.elems, k.s.dash);
  }

  lemma ClassTooLong(src: seq<byte>, cap: int, st: State, negated: bool, es: seq<Elem>, dash: bool)
    requires IsClass(negated, es) && At(src, st.pos, ShowSource(Bracket(negated, es, dash)))
    requires Used(st.items) < cap <= Used(st.items) + 1 + AtomArgs(AtomOf(Bracket(negated, es, dash)))
    ensures ReadClass(src, st, st.pos + 1, cap) == Done(Error(50))
  {
    hide Members, ShowElems, At, Used, ElemsFrom, Wide, Members1;
    var w := ShowElems(es) + Tail(dash);
    var head := if negated then [LBRACKET, CARET] else [LBRACKET];
    AtSplit(src, st.pos, head, w);
    ShowFirst(es, dash);
    AtIndex(src, st.pos + |head|, w, 0);
    AtIndex(src, st.pos, head, |head| - 1);
    if Used(st.items) + 17 < cap {
      NotWide();
      ElemsTooLong(src, st.pos + |head| + 1, 0, {}, es, dash, Used(st.items), cap);
    }
  }

  lemma NotWide()
    ensures !Wide({})
  {}

  lemma {:induction false} ElemsTooLong(src: seq<byte>, p: nat, lc: byte, m: set<byte>, es: seq<Elem>, dash: bool,
                                        used: nat, cap: int)
    requires p > 0 && es != [] && At(src, p - 1, ShowElems(es) + Tail(dash))
    requires MemberFits(es[0], lc) && Members1(es[1..]) && !Wide(m) && (lc == 0 || lc in m)
    requires Wide(ElemsFrom(m, lc, es) + Dashed(dash)) && used + 33 >= cap
    ensures p <= |src| && Members(src, p, src[p - 1], lc, m, used, cap) == BadClass(50)
    decreases |es|
  {
    hide Members, At, ShowElem, IsMember, MemberFits;
    var e, rest := es[0], es[1..];
    var w := ShowElems(rest) + Tail(dash);
    ShowFirst(es, dash);
    ShowFirst(rest, dash);
    var q := p - 1 + |ShowElem(e)|;
    AtSplit(src, p - 1, ShowElem(e), w);
    AtIndex(src, q, w, 0);
    WideOnce(src, p, lc, m, e, used, cap);
    if !Wide(SetAfter(m, lc, e)) {
      assert rest != [];
      ElemRead(src, p, lc, m, e, used, cap);
      assert IsMember(rest[0]) && Members1(rest[1..]) by {
        assert forall i :: 0 <= i < |rest| - 1 ==> rest[1..][i] == rest[i + 1];
      }
      FirstNoBracket(rest[0]);
      NextFits(rest[0], LastOf(e));
      ElemsTooLong(src, q + 1, LastOf(e), SetAfter(m, lc, e), rest, dash, used, cap);
    }
  }

  lemma NextFits(e: Elem, lc: byte)
    requires IsMember(e) && lc != 0
    ensures MemberFits(e, lc)
  {}

  /** The first character beyond 127 in a class needs the wide bitmap. */
  lemma WideOnce(src: seq<byte>, p: nat, lc: byte, m: set<byte>, e: Elem, used: nat, cap: int)
    requires 0 < p && p - 1 + |ShowElem(e)| < |src| && At(src, p - 1, ShowElem(e)) && MemberFits(e, lc)
    requires !Wide(m) && (lc == 0 || lc in m) && used + 33 >= cap
    ensures Wide(SetAfter(m, lc, e)) ==> Members(src, p, src[p - 1], lc, m, used, cap) == BadClass(50)
    ensures LastOf(e) != 0 && LastOf(e) in SetAfter(m, lc, e)
  {
    var w := ShowElem(e);
    assert src[p - 1] == w[0];
    if e.Onto? { assert src[p] == w[1]; }
    if Wide(SetAfter(m, lc, e)) {
      var c :| c in SetAfter(m, lc, e) && c >= 128;
      assert c !in m;
      assert LastOf(e) >= 128;
    }
  }

  lemma LastTurn(src: seq<byte>, eof: int, sed: bool, cap: int, st: State, newline: bool)
    requires EndsAt(src, st.pos, eof, sed, newline) && Used(st.items) < cap
    ensures ReadItems(src, eof, sed, cap, st) == if st.open != [] then Error(42) else Parsed(st.items, st.nbra, newline)
  {
    hide Used;
  }

  // ----- what has been read was written

  /** What has been read of an escape was a token. */
  lemma EscapeSpelled(src: seq<byte>, st: State) returns (k: Token)
    requires CString(src) && st.pos + 1 < |src| && src[st.pos] == BACKSLASH
    requires var n := ReadEscape(src, st, st.pos + 1); n.More? && n.st.pos < |src|
    ensures Escaped(k) && Fits(st, k) && At(src, st.pos, Show(k)) && ReadEscape(src, st, st.pos + 1) == More(After(st, k))
  {
    var c := src[st.pos + 1];
    if c == LBRACE && st.items != [] {
      k := BracesSpelled(src, st);
    } else {
      k := if c == LPAREN then Begin else if c == RPAREN then End
           else if ZERO < c <= NINE then Ref(c - ZERO - 1) else Plain(Literal(if c == LOWER_N then NL else c, true));
      hide ReadBraces;
      assert |Show(k)| == 2 && Show(k)[0] == src[st.pos] && Show(k)[1] == c;
    }
  }

  lemma BracesSpelled(src: seq<byte>, st: State) returns (k: Token)
    requires st.pos + 1 < |src| && src[st.pos] == BACKSLASH && src[st.pos + 1] == LBRACE && st.items != []
    requires ReadBraces(src, st, st.pos + 2).More?
    ensures k.Bounds? && Fits(st, k) && At(src, st.pos, Show(k)) && ReadBraces(src, st, st.pos + 2) == More(After(st, k))
  {
    hide ReadInterval, At, AreBounds, BoundOf, UpperOf, ShowBounds;
    var lo, hi := BoundsSpelled(src, st.pos + 2);
    k := Bounds(lo, hi);
    OneAt(src, st.pos, BACKSLASH);
    OneAt(src, st.pos + 1, LBRACE);
    AtSplit(src, st.pos, [BACKSLASH], [LBRACE]);
    AtSplit(src, st.pos, [BACKSLASH] + [LBRACE], ShowBounds(lo, hi));
    assert [BACKSLASH] + [LBRACE] == [BACKSLASH, LBRACE];
  }

  lemma ClassSpelled(src: seq<byte>, cap: int, st: State) returns (k: Token)
    requires CString(src) && st.pos + 1 < |src| && src[st.pos] == LBRACKET && ReadClass(src, st, st.pos + 1, cap).More?
    ensures IsBracket(k) && Fits(st, k) && At(src, st.pos, Show(k)) && ReadClass(src, st, st.pos + 1, cap) == More(After(st, k))
  {
    hide Members, At, ShowElems, CString, Members1, Used;
    var negated := src[st.pos + 1] == CARET;
    var p1 := if negated then st.pos + 2 else st.pos + 1;
    var es, dash := ElemsSpelled(src, p1 + 1, 0, {}, Used(st.items), cap);
    k := Plain(Bracket(negated, es, dash));
    ShowFirst(es, dash);
    AtIndex(src, p1, ShowElems(es) + Tail(dash), 0);
    BracketsAt(src, st.pos, negated, ShowElems(es) + Tail(dash));
  }

  lemma BracketsAt(src: seq<byte>, p: nat, negated: bool, members: seq<byte>)
    requires p + 1 < |src| && src[p] == LBRACKET && (src[p + 1] == CARET <==> negated)
    requires At(src, if negated then p + 2 else p + 1, members)
    ensures At(src, p, (if negated then [LBRACKET, CARET] else [LBRACKET]) + members)
  {
    hide At;
    OneAt(src, p, LBRACKET);
    OneAt(src, p + 1, CARET);
    AtSplit(src, p, [LBRACKET], [CARET]);
    assert [LBRACKET] + [CARET] == [LBRACKET, CARET];
    AtSplit(src, p, if negated then [LBRACKET, CARET] else [LBRACKET], members);
  }

  /** Where a turn of the loop that goes on leads. */
  lemma TurnLeads(src: seq<byte>, eof: int, sed: bool, cap: int, st: State)
    requires ReadItem(src, eof, sed, cap, st).More?
    ensures st.pos < |src| && src[st.pos] != eof
    ensures src[st.pos] == BACKSLASH ==>
              st.pos + 1 < |src| && ReadItem(src, eof, sed, cap, st) == ReadEscape(src, st, st.pos + 1)
    ensures src[st.pos] == LBRACKET ==> ReadItem(src, eof, sed, cap, st) == ReadClass(src, st, st.pos + 1, cap)
  {
    hide ReadEscape, ReadClass, Used;
  }

  /** What has been read in one turn was a token. */
  lemma TurnWritten(src: seq<byte>, eof: int, sed: bool, cap: int, st: State) returns (k: Token)
    requires CString(src) && ReadItem(src, eof, sed, cap, st).More? && ReadItem(src, eof, sed, cap, st).st.pos < |src|
    ensures Fits(st, k) && Show(k)[0] != eof && At(src, st.pos, Show(k)) && DollarFits(src, eof, k, st.pos + |Show(k)|)
    ensures ReadItem(src, eof, sed, cap, st) == More(After(st, k))
  {
    hide ReadItem, ReadEscape, ReadClass, IsClass, ShowBounds, AreBounds, Used, At, Says, Fits, CString;
    TurnLeads(src, eof, sed, cap, st);
    NotLast(src, eof, sed, cap, st);
    var c := src[st.pos];
    if c == BACKSLASH {
      k := EscapeSpelled(src, st);
      AtIndex(src, st.pos, Show(k), 0);
    } else if c == LBRACKET {
      k := ClassSpelled(src, cap, st);
      AtIndex(src, st.pos, Show(k), 0);
    } else {
      k := BareSpelled(src, eof, sed, cap, st);
    }
  }

  lemma NotLast(src: seq<byte>, eof: int, sed: bool, cap: int, st: State)
    requires ReadItem(src, eof, sed, cap, st).More? && ReadItem(src, eof, sed, cap, st).st.pos < |src|
    ensures st.pos + 1 < |src|
  {
    hide ReadItem;
  }

  lemma BareSpelled(src: seq<byte>, eof: int, sed: bool, cap: int, st: State) returns (k: Token)
    requires CString(src) && ReadItem(src, eof, sed, cap, st).More? && st.pos + 1 < |src|
    requires src[st.pos] != BACKSLASH && src[st.pos] != LBRACKET
    ensures Fits(st, k) && Show(k)[0] != eof && At(src, st.pos, Show(k)) && DollarFits(src, eof, k, st.pos + |Show(k)|)
    ensures ReadItem(src, eof, sed, cap, st) == More(After(st, k))
  {
    hide ReadEscape, ReadClass, IsClass, ShowBounds, AreBounds, Used;
    var c := src[st.pos];
    k := if c == PERIOD then Plain(AnyChar)
         else if c == ASTERISK && !AtMark(st.items) then Repeat
         else if c == DOLLAR && (src[st.pos + 1] == eof || src[st.pos + 1] == NL) then EndAnchor
         else Plain(Literal(c, false));
    assert Show(k) == [c];
  }

  /** What has been read as a program was written in tokens. */
  lemma {:induction false} AllSpelled(src: seq<byte>, eof: int, sed: bool, cap: int, st: State) returns (ks: seq<Token>)
    requires CString(src) && ReadItems(src, eof, sed, cap, st).Parsed?
    ensures var o := ReadItems(src, eof, sed, cap, st);
            && WrittenAt(src, st.pos, st, ks, eof, sed, o.newline)
            && var st' := SaysAll(st, ks, eof); st'.open == [] && Used(st'.items) < cap && o.items == st'.items && o.groups == st'.nbra
    decreases |src| - st.pos
  {
    var n := ReadItem(src, eof, sed, cap, st);
    if n.Done? {
      ks := [];
      Ended(src, eof, sed, cap, st);
    } else {
      hide ReadItem, At, Fits, Show, Says, Used;
      InText(src, eof, sed, cap, n.st);
      var k := TurnWritten(src, eof, sed, cap, st);
      var rest := AllSpelled(src, eof, sed, cap, n.st);
      ks := [k] + rest;
      WrittenFirst(src, st, k, rest, eof, sed, ReadItems(src, eof, sed, cap, st).newline);
    }
  }

  lemma Ended(src: seq<byte>, eof: int, sed: bool, cap: int, st: State)
    requires ReadItems(src, eof, sed, cap, st).Parsed? && ReadItem(src, eof, sed, cap, st).Done?
    ensures var o := ReadItems(src, eof, sed, cap, st);
            && EndsAt(src, st.pos, eof, sed, o.newline) && st.open == [] && Used(st.items) < cap && o.items == st.items && o.groups == st.nbra
  {
    hide Used, ReadEscape, ReadClass;
    EscapeNotParsed(src, st);
    ClassNotParsed(src, st, cap);
  }

  lemma EscapeNotParsed(src: seq<byte>, st: State)
    ensures var n := ReadEscape(src, st, st.pos + 1); n.Done? ==> !n.outcome.Parsed?
  {}

  lemma ClassNotParsed(src: seq<byte>, st: State, cap: int)
    requires st.pos + 1 <= |src|
    ensures var n := ReadClass(src, st, st.pos + 1, cap); n.Done? ==> !n.outcome.Parsed?
  {
    hide Members, Used;
  }

  lemma InText(src: seq<byte>, eof: int, sed: bool, cap: int, st: State)
    requires ReadItems(src, eof, sed, cap, st).Parsed?
    ensures st.pos < |src|
  {}

  /** A token before others that are written. */
  lemma WrittenFirst(src: seq<byte>, st: State, k: Token, rest: seq<Token>, eof: int, sed: bool, newline: bool)
    requires Fits(st, k) && Show(k)[0] != eof && At(src, st.pos, Show(k)) && DollarFits(src, eof, k, st.pos + |Show(k)|)
    requires WrittenAt(src, After(st, k).pos, After(st, k), rest, eof, sed, newline)
    ensures var ks := [k] + rest;
            WrittenAt(src, st.pos, st, ks, eof, sed, newline) && SameBut(SaysAll(st, ks, eof), SaysAll(After(st, k), rest, eof))
  {
    hide At, Fits, Show, Says;
    var ks, st' := [k] + rest, After(st, k);
    assert ks[1..] == rest;
    LegalAnywhere(st', Says(st, k), rest, eof);
    AtSplit(src, st.pos, Show(k), ShowAll(rest));
    if rest != [] {
      assert ShowAll(rest)[0] == Show(rest[0])[0];
      AtIndex(src, st'.pos, ShowAll(rest), 0);
      NotNewline(st', rest[0]);
      assert ks[|ks| - 1] == rest[|rest| - 1];
    }
  }

  /** A whole pattern is written: an anchor, if there is one, and tokens up to its end. */
  ghost predicate Written(src: seq<byte>, anchored: bool, ks: seq<Token>, eof: int, sed: bool, newline: bool) {
    && src != [] && src[0] != eof && src[0] != NL && (src[0] == CARET <==> anchored)
    && WrittenAt(src, if anchored then 1 else 0, START, ks, eof, sed, newline)
  }

  /** A pattern that is written is read as exactly the items it stands for, if they fit in the buffer and all groups
      are closed. */
  lemma WrittenIsRead(src: seq<byte>, anchored: bool, ks: seq<Token>, eof: int, sed: bool, newline: bool, cap: int, previous: bool)
    requires Written(src, anchored, ks, eof, sed, newline)
    ensures var st := SaysAll(START, ks, eof);
            Parse(src, eof, sed, cap, previous) ==
            if Used(st.items) >= cap then Error(50) else if st.open != [] then Error(42) else Parsed(st.items, st.nbra, newline)
  {
    hide ReadItems, At, SaysAll, ShowAll, Used;
    var st0 := START.(pos := if anchored then 1 else 0);
    LegalAnywhere(START, st0, ks, eof);
    TokensRead(src, eof, sed, cap, st0, ks);
    if Used(SaysAll(st0, ks, eof).items) < cap {
      LastTurn(src, eof, sed, cap, Behind(st0, ks, eof), newline);
    }
  }

  /** The patterns that are accepted are exactly those that can be written, fit, and have their groups closed; and
      they are read as what they say. */
  lemma ReadIffWritten(src: seq<byte>, eof: int, sed: bool, cap: int, previous: bool, items: seq<Item>, groups: nat, newline: bool)
    requires CString(src)
    ensures Parse(src, eof, sed, cap, previous) == Parsed(items, groups, newline) <==>
            exists anchored, ks :: Written(src, anchored, ks, eof, sed, newline) &&
              var st := SaysAll(START, ks, eof); st.open == [] && Used(st.items) < cap && items == st.items && groups == st.nbra
  {
    if Parse(src, eof, sed, cap, previous) == Parsed(items, groups, newline) {
      var anchored := src[0] == CARET;
      var st0 := State(if anchored then 1 else 0, [], [], 0, 0);
      var ks := AllSpelled(src, eof, sed, cap, st0);
      LegalAnywhere(st0, START, ks, eof);
      assert Written(src, anchored, ks, eof, sed, newline);
    }
    forall anchored, ks | Written(src, anchored, ks, eof, sed, newline)
      ensures var st := SaysAll(START, ks, eof);
              st.open == [] && Used(st.items) < cap ==> Parse(src, eof, sed, cap, previous) == Parsed(st.items, st.nbra, newline)
    {
      WrittenIsRead(src, anchored, ks, eof, sed, newline, cap, previous);
    }
  }
}
