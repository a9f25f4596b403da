/** How `compile` of head/regexp.h reads a pattern: the text to its items, with no bytecode. */
module RegexpParse {
  import opened Words
  import opened RegexpPattern
  import opened RegexpCode

  /** A text with a terminating NUL, or one cut short: no NUL before the last byte. */
  ghost predicate CString(src: seq<byte>) {
    forall i :: 0 <= i < |src| - 1 ==> src[i] != 0
  }

  /** The outcome of reading a pattern. */
  datatype Outcome =
    | Parsed(items: seq<Item>, groups: nat, newline: bool) // a program; `newline` if a newline ended it
    | Reuse(newline: bool)                                  // an empty pattern: the previous program stays
    | Error(code: int)
    | Overrun                                               // reads past the end of the pattern
    | Unspecified                                           // an interval after something else than one character

  /** Where reading has got to: the items so far, and the stack of open groups. */
  datatype State = State(pos: nat, items: seq<Item>, open: seq<byte>, nbra: nat, closed: nat)

  datatype Next = More(st: State) | Done(outcome: Outcome)

  function Used(items: seq<Item>): nat {
    if items == [] then 0 else Used(items[..|items| - 1]) + ItemSize(items[|items| - 1])
  }

  function Add(st: State, i: Item, pos: nat): Next {
    More(st.(pos := pos, items := st.items + [i]))
  }

  function Last(items: seq<Item>): Item
    requires items != []
  {
    items[|items| - 1]
  }

  function WithLast(items: seq<Item>, i: Item): seq<Item>
    requires items != []
  {
    items[..|items| - 1] + [i]
  }

  /** A pattern character: 'c' as a byte. */
  const NL: byte := 10
  const DOLLAR: byte := 36
  const LPAREN: byte := 40
  const RPAREN: byte := 41
  const ASTERISK: byte := 42
  const COMMA: byte := 44
  const MINUS: byte := 45
  const PERIOD: byte := 46
  const ZERO: byte := 48
  const NINE: byte := 57
  const LBRACKET: byte := 91
  const BACKSLASH: byte := 92
  const RBRACKET: byte := 93
  const CARET: byte := 94
  const LOWER_N: byte := 110
  const LBRACE: byte := 123
  const RBRACE: byte := 125

  /** 32-bit two's complement. */
  function Wrap(v: int): int {
    (v + 0x8000_0000) % 0x1_0000_0000 - 0x8000_0000
  }

  datatype Number = Number(value: byte, stop: byte, pos: nat) | BadNumber(code: int) | NumberOverrun

  predicate IsDigit(c: byte) { ZERO <= c <= NINE }

  /** Digits from p on, up to the `\` or `,` that ends them; `i` is the value so far. */
  function Digits(src: seq<byte>, p: nat, i: int): (n: Number)
    ensures n.Number? ==> p < n.pos <= |src| && (n.stop == BACKSLASH || n.stop == COMMA)
    ensures n.BadNumber? ==> n.code > 0
    decreases |src| - p
  {
    if p >= |src| then NumberOverrun
    else if !IsDigit(src[p]) then BadNumber(16)
    else
      var i' := Wrap(10 * i + src[p] - ZERO);
      if p + 1 >= |src| then NumberOverrun
      else if src[p + 1] == BACKSLASH || src[p + 1] == COMMA then
        if i' > 255 then BadNumber(11) else Number(i' % 256, src[p + 1], p + 2)
      else Digits(src, p + 1, i')
  }

  datatype Interval = Interval(lo: byte, hi: byte, pos: nat) | BadInterval(code: int) | IntervalOverrun

  /** What follows `\{`. */
  function ReadInterval(src: seq<byte>, p: nat): (i: Interval)
    ensures i.Interval? ==> p < i.pos <= |src| && i.lo <= i.hi
  {
    match Digits(src, p, 0)
    case NumberOverrun => IntervalOverrun
    case BadNumber(e) => BadInterval(e)
    case Number(lo, stop, p1) =>
      if stop == BACKSLASH then CloseBrace(src, p1, lo, lo)
      else if p1 >= |src| then IntervalOverrun
      else if src[p1] == BACKSLASH then CloseBrace(src, p1 + 1, lo, NO_BOUND)
      else
        match Digits(src, p1, 0)
        case NumberOverrun => IntervalOverrun
        case BadNumber(e) => BadInterval(e)
        case Number(hi, stop2, p2) =>
          if stop2 == COMMA then BadInterval(44) else CloseBrace(src, p2, lo, hi)
  }

  function CloseBrace(src: seq<byte>, p: nat, lo: byte, hi: byte): Interval {
    if p >= |src| then IntervalOverrun
    else if src[p] != RBRACE then BadInterval(45)
    else if hi < lo then BadInterval(46)
    else Interval(lo, hi, p + 1)
  }

  datatype ClassText = ClassText(members: set<byte>, pos: nat) | BadClass(code: int) | ClassOverrun

  predicate Within(lo: byte, c: byte, hi: byte) {
    lo <= c < hi
  }

  /** The characters from lo up to but not including hi. */
  function Span(lo: byte, hi: byte): set<byte> {
    set c: byte | Within(lo, c, hi)
  }

  /** The bytes of a class that has no room for the wide bitmap. */
  predicate NoRoom(members: set<byte>, c: byte, used: nat, cap: int) {
    c >= 128 && !Wide(members) && used + 33 >= cap
  }

  /** The members of a bracket expression, c being the character just read and p the next position. */
  function Members(src: seq<byte>, p: nat, c: byte, lc: byte, members: set<byte>, used: nat, cap: int): (r: ClassText)
    ensures r.ClassText? ==> p < r.pos <= |src|
    decreases |src| - p
  {
    if c == 0 || c == NL then BadClass(49)
    else if NoRoom(members, c, used, cap) then BadClass(50)
    else if p >= |src| then ClassOverrun
    else if c == MINUS && lc != 0 then
      var c2 := src[p];
      if c2 == RBRACKET then ClassText(members + {MINUS}, p + 1)
      else if NoRoom(members, c2, used, cap) then BadClass(50)
      else if p + 1 >= |src| then ClassOverrun
      else
        var members' := members + Span(lc, c2) + {c2};
        if src[p + 1] == RBRACKET then ClassText(members', p + 2)
        else Members(src, p + 2, src[p + 1], c2, members', used, cap)
    else if src[p] == RBRACKET then ClassText(members + {c}, p + 1)
    else Members(src, p + 1, src[p], c, members + {c}, used, cap)
  }

  /** A bracket expression, `used` bytes being in use before it: its members, less any `^` in front. */
  function ClassAt(src: seq<byte>, p: nat, used: nat, cap: int): (r: ClassText)
    ensures r.ClassText? ==> p < r.pos <= |src|
  {
    if used + 17 >= cap then BadClass(50)
    else if p >= |src| then ClassOverrun
    else
      var p1 := if src[p] == CARET then p + 1 else p;
      if p1 >= |src| then ClassOverrun else Members(src, p1 + 1, src[p1], 0, {}, used, cap)
  }

  function ReadClass(src: seq<byte>, st: State, p: nat, cap: int): Next {
    match ClassAt(src, p, Used(st.items), cap)
    case BadClass(e) => Done(Error(e))
    case ClassOverrun => Done(Overrun)
    case ClassText(members, p2) => Add(st, One(Class(src[p] == CARET, members)), p2)
  }

  /** A `*`: it repeats the character expression or reference before it, and is a plain character at the
      start and after a group mark. */
  function ReadStar(st: State, p: nat): Next {
    if st.items == [] then Add(st, One(Chr(ASTERISK)), p)
    else
      match Last(st.items)
      case Open(_) => Add(st, One(Chr(ASTERISK)), p)
      case Close(_) => Add(st, One(Chr(ASTERISK)), p)
      case One(a) => More(st.(pos := p, items := WithLast(st.items, Star(a))))
      case Star(_) => More(st.(pos := p))
      case Range(_, _, _) => More(st.(pos := p))
      case Back(g) => More(st.(pos := p, items := WithLast(st.items, BackStar(g))))
      case BackStar(_) => More(st.(pos := p))
      case Dollar => Done(Unspecified)
  }

  function ReadBraces(src: seq<byte>, st: State, p: nat): Next {
    if st.items == [] then Add(st, One(Chr(LBRACE)), p)
    else
      match Last(st.items)
      case One(a) => ReadRange(src, st, a, p)
      case Star(a) => ReadRange(src, st, a, p)
      case _ => Done(Unspecified)
  }

  function ReadRange(src: seq<byte>, st: State, a: Atom, p: nat): Next
    requires st.items != []
  {
    match ReadInterval(src, p)
    case IntervalOverrun => Done(Overrun)
    case BadInterval(e) => Done(Error(e))
    case Interval(lo, hi, p1) => More(st.(pos := p1, items := WithLast(st.items, Range(a, lo, hi))))
  }

  /** What follows a backslash. */
  function ReadEscape(src: seq<byte>, st: State, p: nat): Next {
    if p >= |src| then Done(Overrun)
    else
      var c := src[p];
      if c == LPAREN then
        if st.nbra >= NBRA then Done(Error(43))
        else Add(st.(open := st.open + [st.nbra], nbra := st.nbra + 1), Open(st.nbra), p + 1)
      else if c == RPAREN then
        if st.open == [] then Done(Error(42))
        else
          var top := |st.open| - 1;
          Add(st.(open := st.open[..top], closed := st.closed + 1), Close(st.open[top]), p + 1)
      else if c == LBRACE then ReadBraces(src, st, p + 1)
      else if c == NL then Done(Error(36))
      else if c == LOWER_N then Add(st, One(Chr(NL)), p + 1)
      else if ZERO < c <= NINE then
        var g := c - ZERO - 1;
        if g >= st.closed then Done(Error(25)) else Add(st, Back(g), p + 1)
      else Add(st, One(Chr(c)), p + 1)
  }

  /** The end of the pattern, at its delimiter or at a newline. */
  function Finish(st: State, newline: bool): Next {
    Done(if st.open != [] then Error(42) else Parsed(st.items, st.nbra, newline))
  }

  /** One turn of the loop: `cap` is the number of bytes there is room for. */
  function ReadItem(src: seq<byte>, eof: int, sed: bool, cap: int, st: State): (n: Next)
    ensures n.More? ==> st.pos < n.st.pos <= |src|
    ensures n.Done? ==> !n.outcome.Reuse? && (n.outcome.Parsed? ==> n.outcome.groups == st.nbra)
  {
    if Used(st.items) >= cap then Done(Error(50))
    else if st.pos >= |src| then Done(Overrun)
    else
      var c, p := src[st.pos], st.pos + 1;
      if c == BACKSLASH && p >= |src| then Done(Overrun)
      else if c == eof then Finish(st, false)
      else if c == PERIOD then Add(st, One(Dot), p)
      else if c == NL then (if sed then Done(Error(36)) else Finish(st, true))
      else if c == ASTERISK then ReadStar(st, p)
      else if c == DOLLAR then
        if p >= |src| then Done(Overrun)
        else Add(st, if src[p] == eof || src[p] == NL then Dollar else One(Chr(DOLLAR)), p)
      else if c == LBRACKET then ReadClass(src, st, p, cap)
      else if c == BACKSLASH then ReadEscape(src, st, p)
      else Add(st, One(Chr(c)), p)
  }

  function ReadItems(src: seq<byte>, eof: int, sed: bool, cap: int, st: State): Outcome
    decreases |src| - st.pos
  {
    var n := ReadItem(src, eof, sed, cap, st);
    match n
    case Done(o) => o
    case More(st') => ReadItems(src, eof, sed, cap, st')
  }

  /** The whole pattern.  `previous` says whether an earlier program is there to be reused. */
  function Parse(src: seq<byte>, eof: int, sed: bool, cap: int, previous: bool): Outcome {
    if src == [] then Overrun
    else if src[0] == eof || src[0] == NL then
      if !previous && !sed then Error(41) else Reuse(src[0] == NL)
    else
      var anchored := src[0] == CARET;
      ReadItems(src, eof, sed, cap, State(if anchored then 1 else 0, [], [], 0, 0))
  }
}
