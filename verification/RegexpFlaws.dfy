/** The patterns `compile` of head/regexp.h refuses: what is wrong with them, and the error each ends in. */
module RegexpFlaws {
  import opened Words
  import opened RegexpPattern
  import opened RegexpCode
  import opened RegexpParse
  import opened RegexpNumbers
  import opened RegexpNotation

  /** What may be wrong behind some tokens.  `before` is the first number of an interval with its comma, or nothing. */
  datatype Flaw =
    | RawNewline                                        // a newline, where sed reads
    | EscapedNewline                                    // a newline behind a backslash
    | NothingOpen                                       // `\)` without its `\(`
    | TenthGroup
    | NotClosed(g: nat)                                 // a reference to a group that is not closed
    | NoNumber(before: seq<byte>, ds: seq<byte>, c: byte)
    | TooLarge(before: seq<byte>, ds: seq<byte>, stop: byte)
    | ThirdNumber(lo: seq<byte>, hi: seq<byte>)
    | NoBrace(lo: seq<byte>, upper: Upper, c: byte)
    | Falling(lo: seq<byte>, hi: seq<byte>)
    | Unclosed(negated: bool, es: seq<Elem>, c: byte)   // a class that runs into the end of the line

  function CodeOf(f: Flaw): int {
    match f
    case RawNewline => 36
    case EscapedNewline => 36
    case NothingOpen => 42
    case TenthGroup => 43
    case NotClosed(_) => 25
    case NoNumber(_, _, _) => 16
    case TooLarge(_, _, _) => 11
    case ThirdNumber(_, _) => 44
    case NoBrace(_, _, _) => 45
    case Falling(_, _) => 46
    case Unclosed(_, _, _) => 49
  }

  predicate IsBefore(before: seq<byte>) {
    before == [] || (before[|before| - 1] == COMMA && IsBound(before[..|before| - 1]))
  }

  predicate InInterval(f: Flaw) {
    f.NoNumber? || f.TooLarge? || f.ThirdNumber? || f.NoBrace? || f.Falling?
  }

  /** Where the flaw is one. */
  predicate FlawFits(st: State, f: Flaw, sed: bool, cap: int) {
    && (InInterval(f) ==> st.items != [] && (Last(st.items).One? || Last(st.items).Star?))
    && match f
       case RawNewline => sed
       case EscapedNewline => true
       case NothingOpen => st.open == []
       case TenthGroup => st.nbra == NBRA
       case NotClosed(g) => st.closed <= g < NBRA
       case NoNumber(before, ds, c) =>
         IsBefore(before) && AllDigits(ds) && !IsDigit(c)
         && (ds != [] ==> c != BACKSLASH && c != COMMA) && (ds == [] && before != [] ==> c != BACKSLASH)
       case TooLarge(before, ds, stop) =>
         IsBefore(before) && ds != [] && AllDigits(ds) && Wrap(ValueFrom(0, ds)) > 255 && (stop == BACKSLASH || stop == COMMA)
       case ThirdNumber(lo, hi) => IsBound(lo) && IsBound(hi)
       case NoBrace(lo, hi, c) => IsBound(lo) && (hi.To? ==> IsBound(hi.digits)) && c != RBRACE
       case Falling(lo, hi) => IsBound(lo) && IsBound(hi) && BoundOf(hi) < BoundOf(lo)
       case Unclosed(negated, es, c) =>
         (es != [] ==> IsClass(negated, es)) && (c == 0 || c == NL) && Used(st.items) + 17 < cap && Room(ElemsFrom({}, 0, es), Used(st.items), cap)
  }

  function ShowInterval(f: Flaw): seq<byte>
    requires InInterval(f)
  {
    match f
    case NoNumber(before, ds, c) => before + (ds + [c])
    case TooLarge(before, ds, stop) => before + (ds + [stop])
    case ThirdNumber(lo, hi) => lo + [COMMA] + (hi + [COMMA])
    case NoBrace(lo, hi, c) => lo + ShowUpper(hi) + [BACKSLASH, c]
    case Falling(lo, hi) => lo + [COMMA] + (hi + [BACKSLASH]) + [RBRACE]
  }

  function ShowFlaw(f: Flaw): (s: seq<byte>)
    ensures s != []
  {
    match f
    case RawNewline => [NL]
    case EscapedNewline => [BACKSLASH, NL]
    case NothingOpen => [BACKSLASH, RPAREN]
    case TenthGroup => [BACKSLASH, LPAREN]
    case NotClosed(g) => [BACKSLASH, if g < NBRA then ZERO + 1 + g else ZERO]
    case Unclosed(negated, es, c) => (if negated then [LBRACKET, CARET] else [LBRACKET]) + (ShowElems(es) + [c])
    case _ => [BACKSLASH, LBRACE] + ShowInterval(f)
  }

  // ----- intervals

  lemma {:induction false} NoDigit(src: seq<byte>, p: nat, i: int, ds: seq<byte>, c: byte)
    requires At(src, p, ds + [c]) && AllDigits(ds) && !IsDigit(c) && (ds != [] ==> c != BACKSLASH && c != COMMA)
    ensures Digits(src, p, i) == BadNumber(16)
    decreases |ds|
  {
    AtSplit(src, p, ds, [c]);
    OneAt(src, p + |ds|, c);
    if ds != [] {
      assert src[p] == ds[0];
      var rest := ds[1..];
      assert ds == [ds[0]] + rest;
      assert ds + [c] == [ds[0]] + (rest + [c]);
      AtSplit(src, p, [ds[0]], rest + [c]);
      AtIndex(src, p + 1, rest + [c], 0);
      assert (rest + [c])[0] == if rest == [] then c else rest[0];
      NoDigit(src, p + 1, Wrap(10 * i + src[p] - ZERO), rest, c);
    }
  }

  /** Behind a first number and its comma. */
  lemma BeforeRead(src: seq<byte>, p: nat, before: seq<byte>, text: seq<byte>)
    requires IsBefore(before) && before != [] && At(src, p, before + text) && text != []
    ensures var p1 := p + |before|;
            && At(src, p1, text) && p1 < |src| && src[p1] == text[0]
            && Digits(src, p, 0) == Number(BoundOf(before[..|before| - 1]), COMMA, p1)
  {
    var lo := before[..|before| - 1];
    assert before == lo + [COMMA];
    AtSplit(src, p, before, text);
    AtIndex(src, p + |before|, text, 0);
    DigitsOf(src, p, lo, COMMA);
  }

  lemma NumberFlaw(src: seq<byte>, p: nat, before: seq<byte>, text: seq<byte>, code: int)
    requires IsBefore(before) && At(src, p, before + text) && text != [] && (before != [] ==> text[0] != BACKSLASH)
    requires At(src, p + |before|, text) ==> Digits(src, p + |before|, 0) == BadNumber(code)
    ensures ReadInterval(src, p) == BadInterval(code)
  {
    hide Digits, At, BoundOf, IsBound;
    AtSplit(src, p, before, text);
    if before != [] {
      BeforeRead(src, p, before, text);
    }
  }

  lemma IntervalRefused(src: seq<byte>, p: nat, st: State, f: Flaw, sed: bool, cap: int)
    requires InInterval(f) && FlawFits(st, f, sed, cap) && At(src, p, ShowInterval(f))
    ensures ReadInterval(src, p) == BadInterval(CodeOf(f))
  {
    match f
    case NoNumber(before, ds, c) => NoNumberRefused(src, p, before, ds, c);
    case TooLarge(before, ds, stop) => TooLargeRefused(src, p, before, ds, stop);
    case ThirdNumber(lo, hi) => ThirdRefused(src, p, lo, hi);
    case NoBrace(lo, hi, c) => NoBraceRefused(src, p, lo, hi, c);
    case Falling(lo, hi) => FallingRefused(src, p, lo, hi);
  }

  lemma NoNumberRefused(src: seq<byte>, p: nat, before: seq<byte>, ds: seq<byte>, c: byte)
    requires IsBefore(before) && AllDigits(ds) && !IsDigit(c) && At(src, p, before + (ds + [c]))
    requires (ds != [] ==> c != BACKSLASH && c != COMMA) && (ds == [] && before != [] ==> c != BACKSLASH)
    ensures ReadInterval(src, p) == BadInterval(16)
  {
    hide ReadInterval, Digits, At, IsBefore;
    AtSplit(src, p, before, ds + [c]);
    NoDigit(src, p + |before|, 0, ds, c);
    assert (ds + [c])[0] == if ds == [] then c else ds[0];
    NumberFlaw(src, p, before, ds + [c], 16);
  }

  lemma TooLargeRefused(src: seq<byte>, p: nat, before: seq<byte>, ds: seq<byte>, stop: byte)
    requires IsBefore(before) && ds != [] && AllDigits(ds) && Wrap(ValueFrom(0, ds)) > 255 && (stop == BACKSLASH || stop == COMMA)
    requires At(src, p, before + (ds + [stop]))
    ensures ReadInterval(src, p) == BadInterval(11)
  {
    hide ReadInterval, Digits, At, IsBefore;
    AtSplit(src, p, before, ds + [stop]);
    DigitsOf(src, p + |before|, ds, stop);
    assert (ds + [stop])[0] == ds[0];
    NumberFlaw(src, p, before, ds + [stop], 11);
  }

  lemma ThirdRefused(src: seq<byte>, p: nat, lo: seq<byte>, hi: seq<byte>)
    requires IsBound(lo) && IsBound(hi) && At(src, p, lo + [COMMA] + (hi + [COMMA]))
    ensures ReadInterval(src, p) == BadInterval(44)
  {
    hide Digits, At, ValueFrom, Wrap, AllDigits, ReadInterval;
    AtSplit(src, p, lo + [COMMA], hi + [COMMA]);
    DigitsOf(src, p, lo, COMMA);
    DigitsOf(src, p + |lo| + 1, hi, COMMA);
    FirstDigit(src, p + |lo| + 1, hi, COMMA);
    IntervalIs(src, p, BoundOf(lo), COMMA, p + |lo| + 1);
  }

  lemma FallingRefused(src: seq<byte>, p: nat, lo: seq<byte>, hi: seq<byte>)
    requires IsBound(lo) && IsBound(hi) && BoundOf(hi) < BoundOf(lo) && At(src, p, lo + [COMMA] + (hi + [BACKSLASH]) + [RBRACE])
    ensures ReadInterval(src, p) == BadInterval(46)
  {
    hide Digits, At, ValueFrom, Wrap, AllDigits, ReadInterval;
    AtSplit(src, p, lo + [COMMA] + (hi + [BACKSLASH]), [RBRACE]);
    AtSplit(src, p, lo + [COMMA], hi + [BACKSLASH]);
    DigitsOf(src, p, lo, COMMA);
    DigitsOf(src, p + |lo| + 1, hi, BACKSLASH);
    FirstDigit(src, p + |lo| + 1, hi, BACKSLASH);
    IntervalIs(src, p, BoundOf(lo), COMMA, p + |lo| + 1);
    AtIndex(src, p + |lo| + 1 + |hi| + 1, [RBRACE], 0);
  }

  lemma NoBraceRefused(src: seq<byte>, p: nat, lo: seq<byte>, hi: Upper, c: byte)
    requires IsBound(lo) && (hi.To? ==> IsBound(hi.digits)) && c != RBRACE && At(src, p, lo + ShowUpper(hi) + [BACKSLASH, c])
    ensures ReadInterval(src, p) == BadInterval(45)
  {
    hide Digits, At, ValueFrom, Wrap, AllDigits, ReadInterval;
    assert [BACKSLASH, c] == [BACKSLASH] + [c];
    match hi
    case Same =>
      assert lo + ShowUpper(hi) + [BACKSLASH, c] == (lo + [BACKSLASH]) + [c];
      AtSplit(src, p, lo + [BACKSLASH], [c]);
      DigitsOf(src, p, lo, BACKSLASH);
      IntervalIs(src, p, BoundOf(lo), BACKSLASH, p + |lo| + 1);
      AtIndex(src, p + |lo| + 1, [c], 0);
    case Unbounded =>
      assert lo + ShowUpper(hi) + [BACKSLASH, c] == (lo + [COMMA]) + ([BACKSLASH] + [c]);
      AtSplit(src, p, lo + [COMMA], [BACKSLASH] + [c]);
      AtSplit(src, p + |lo| + 1, [BACKSLASH], [c]);
      DigitsOf(src, p, lo, COMMA);
      AtIndex(src, p + |lo| + 1, [BACKSLASH], 0);
      IntervalIs(src, p, BoundOf(lo), COMMA, p + |lo| + 1);
      AtIndex(src, p + |lo| + 2, [c], 0);
    case To(ds) =>
      assert lo + ShowUpper(hi) + [BACKSLASH, c] == (lo + [COMMA]) + ((ds + [BACKSLASH]) + [c]);
      AtSplit(src, p, lo + [COMMA], (ds + [BACKSLASH]) + [c]);
      AtSplit(src, p + |lo| + 1, ds + [BACKSLASH], [c]);
      DigitsOf(src, p, lo, COMMA);
      DigitsOf(src, p + |lo| + 1, ds, BACKSLASH);
      FirstDigit(src, p + |lo| + 1, ds, BACKSLASH);
      IntervalIs(src, p, BoundOf(lo), COMMA, p + |lo| + 1);
      AtIndex(src, p + |lo| + 1 + |ds| + 1, [c], 0);
  }

  // ----- classes

  lemma {:induction false} ElemsCut(src: seq<byte>, p: nat, lc: byte, m: set<byte>, es: seq<Elem>, c: byte, used: nat, cap: int)
    requires p > 0 && At(src, p - 1, ShowElems(es) + [c]) && (c == 0 || c == NL)
    requires es != [] ==> MemberFits(es[0], lc) && Members1(es[1..])
    requires Room(ElemsFrom(m, lc, es), used, cap)
    ensures p <= |src| && Members(src, p, src[p - 1], lc, m, used, cap) == BadClass(49)
    decreases |es|
  {
    hide Members, Room, At, Wide, Span, ShowElem, IsMember, MemberFits;
    AtIndex(src, p - 1, ShowElems(es) + [c], 0);
    if es == [] {
      CutHere(src, p, lc, m, used, cap);
    } else {
      var e, rest := es[0], es[1..];
      var q := p - 1 + |ShowElem(e)|;
      assert ShowElems(es) + [c] == ShowElem(e) + (ShowElems(rest) + [c]);
      AtSplit(src, p - 1, ShowElem(e), ShowElems(rest) + [c]);
      AtIndex(src, q, ShowElems(rest) + [c], 0);
      CutFirst(rest, c);
      FromGrows(SetAfter(m, lc, e), LastOf(e), rest);
      RoomLess(SetAfter(m, lc, e), ElemsFrom(m, lc, es), used, cap);
      ElemRead(src, p, lc, m, e, used, cap);
      if rest != [] {
        assert IsMember(rest[0]) && Members1(rest[1..]) by {
          assert forall i :: 0 <= i < |rest| - 1 ==> rest[1..][i] == rest[i + 1];
        }
        FirstNoBracket(rest[0]);
        NextFits(rest[0], LastOf(e));
      }
      ElemsCut(src, q + 1, LastOf(e), SetAfter(m, lc, e), rest, c, used, cap);
    }
  }

  lemma CutFirst(es: seq<Elem>, c: byte)
    ensures (ShowElems(es) + [c])[0] == if es == [] then c else ShowElem(es[0])[0]
  {}

  lemma CutHere(src: seq<byte>, p: nat, lc: byte, m: set<byte>, used: nat, cap: int)
    requires 0 < p <= |src| && (src[p - 1] == 0 || src[p - 1] == NL)
    ensures Members(src, p, src[p - 1], lc, m, used, cap) == BadClass(49)
  {}

  lemma ClassRefused(src: seq<byte>, cap: int, st: State, negated: bool, es: seq<Elem>, c: byte)
    requires FlawFits(st, Unclosed(negated, es, c), false, cap) && At(src, st.pos, ShowFlaw(Unclosed(negated, es, c)))
    ensures ReadClass(src, st, st.pos + 1, cap) == Done(Error(49))
  {
    hide Members, ShowElems, At, Used, Room, Members1;
    var w := ShowElems(es) + [c];
    var head := if negated then [LBRACKET, CARET] else [LBRACKET];
    AtSplit(src, st.pos, head, w);
    AtIndex(src, st.pos + |head|, w, 0);
    AtIndex(src, st.pos, head, |head| - 1);
    ClassStarts(negated, es, c);
    ElemsCut(src, st.pos + |head| + 1, 0, {}, es, c, Used(st.items), cap);
  }

  lemma ClassStarts(negated: bool, es: seq<Elem>, c: byte)
    requires (es != [] ==> IsClass(negated, es)) && (c == 0 || c == NL)
    ensures var w := ShowElems(es) + [c]; w != [] && (negated || w[0] != CARET)
    ensures es != [] ==> MemberFits(es[0], 0) && Members1(es[1..])
  {
    if es != [] { assert ShowElems(es)[0] == ShowElem(es[0])[0]; }
  }

  // ----- whole patterns

  /** A flaw is found where it is. */
  lemma FlawFound(src: seq<byte>, eof: int, sed: bool, cap: int, st: State, f: Flaw)
    requires FlawFits(st, f, sed, cap) && ShowFlaw(f)[0] != eof && At(src, st.pos, ShowFlaw(f)) && Used(st.items) < cap
    ensures ReadItem(src, eof, sed, cap, st) == Done(Error(CodeOf(f)))
  {
    hide ReadItem, At, FlawFits, ShowFlaw, Used;
    if InInterval(f) {
      IntervalFlaw(src, eof, sed, cap, st, f);
    } else if f.Unclosed? {
      ClassFlaw(src, eof, sed, cap, st, f);
    } else {
      ShortFlaw(src, eof, sed, cap, st, f);
    }
  }

  lemma IntervalFlaw(src: seq<byte>, eof: int, sed: bool, cap: int, st: State, f: Flaw)
    requires InInterval(f) && FlawFits(st, f, sed, cap) && ShowFlaw(f)[0] != eof && At(src, st.pos, ShowFlaw(f)) && Used(st.items) < cap
    ensures ReadItem(src, eof, sed, cap, st) == Done(Error(CodeOf(f)))
  {
    hide ReadItem, ReadEscape, ReadInterval, At, ShowInterval, FlawFits, Used;
    AtSplit(src, st.pos, [BACKSLASH, LBRACE], ShowInterval(f));
    AtIndex(src, st.pos, [BACKSLASH, LBRACE], 0);
    AtIndex(src, st.pos, [BACKSLASH, LBRACE], 1);
    BehindCharacter(st, f, sed, cap);
    IntervalRefused(src, st.pos + 2, st, f, sed, cap);
    BracesTurn(src, st, st.pos + 1);
    EscapeTurn(src, eof, sed, cap, st);
  }

  lemma ClassFlaw(src: seq<byte>, eof: int, sed: bool, cap: int, st: State, f: Flaw)
    requires f.Unclosed? && FlawFits(st, f, sed, cap) && ShowFlaw(f)[0] != eof && At(src, st.pos, ShowFlaw(f)) && Used(st.items) < cap
    ensures ReadItem(src, eof, sed, cap, st) == Done(Error(CodeOf(f)))
  {
    hide ReadClass, At, Used, ShowFlaw, FlawFits;
    AtIndex(src, st.pos, ShowFlaw(f), 0);
    BracketFirst(f);
    AnyReader(st, f, sed, cap);
    ClassRefused(src, cap, st, f.negated, f.es, f.c);
  }

  lemma AnyReader(st: State, f: Flaw, sed: bool, cap: int)
    requires f.Unclosed? && FlawFits(st, f, sed, cap)
    ensures FlawFits(st, f, false, cap)
  {}

  lemma ShortFlaw(src: seq<byte>, eof: int, sed: bool, cap: int, st: State, f: Flaw)
    requires !InInterval(f) && !f.Unclosed?
    requires FlawFits(st, f, sed, cap) && ShowFlaw(f)[0] != eof && At(src, st.pos, ShowFlaw(f)) && Used(st.items) < cap
    ensures ReadItem(src, eof, sed, cap, st) == Done(Error(CodeOf(f)))
  {
    hide At, Used, ReadClass;
    AtIndex(src, st.pos, ShowFlaw(f), 0);
    if !f.RawNewline? {
      AtIndex(src, st.pos, ShowFlaw(f), 1);
      EscapeTurn(src, eof, sed, cap, st);
    }
  }

  lemma BehindCharacter(st: State, f: Flaw, sed: bool, cap: int)
    requires InInterval(f) && FlawFits(st, f, sed, cap)
    ensures st.items != [] && (Last(st.items).One? || Last(st.items).Star?)
  {}

  lemma BracketFirst(f: Flaw)
    requires f.Unclosed?
    ensures ShowFlaw(f)[0] == LBRACKET
  {}

  /** A flaw behind tokens that fit ends in its error, whatever follows. */
  lemma FlawIsRefused(src: seq<byte>, anchored: bool, ks: seq<Token>, f: Flaw, eof: int, sed: bool, cap: int, previous: bool)
    requires src != [] && src[0] != eof && src[0] != NL && (src[0] == CARET <==> anchored)
    requires var at := (if anchored then 1 else 0) + |ShowAll(ks)|;
             && Legal(START, ks, eof) && At(src, if anchored then 1 else 0, ShowAll(ks)) && Follows(src, eof, ks, at)
             && var st := SaysAll(START, ks, eof);
                Used(st.items) < cap && FlawFits(st, f, sed, cap) && ShowFlaw(f)[0] != eof && At(src, at, ShowFlaw(f))
    ensures Parse(src, eof, sed, cap, previous) == Error(CodeOf(f))
  {
    hide ReadItem, At, SaysAll, ShowAll, Used, FlawFits, ShowFlaw;
    var st0 := START.(pos := if anchored then 1 else 0);
    LegalAnywhere(START, st0, ks, eof);
    TokensRead(src, eof, sed, cap, st0, ks);
    FlawAnywhere(SaysAll(START, ks, eof), Behind(st0, ks, eof), f, sed, cap);
    FlawFound(src, eof, sed, cap, Behind(st0, ks, eof), f);
  }

  lemma FlawAnywhere(st: State, st': State, f: Flaw, sed: bool, cap: int)
    requires SameBut(st, st') && FlawFits(st, f, sed, cap)
    ensures FlawFits(st', f, sed, cap)
  {}

  /** An empty pattern stands for the one before, and is an error without one unless sed is reading. */
  lemma EmptyPattern(src: seq<byte>, eof: int, sed: bool, cap: int, previous: bool)
    requires src != []
    ensures (src[0] == eof || src[0] == NL) && (previous || sed) <==> Parse(src, eof, sed, cap, previous) == Reuse(src[0] == NL)
    ensures (src[0] == eof || src[0] == NL) && !previous && !sed ==> Parse(src, eof, sed, cap, previous) == Error(41)
  {
    NoReuse(src, eof, sed, cap, State(if src[0] == CARET then 1 else 0, [], [], 0, 0));
  }

  lemma {:induction false} NoReuse(src: seq<byte>, eof: int, sed: bool, cap: int, st: State)
    ensures !ReadItems(src, eof, sed, cap, st).Reuse?
    decreases |src| - st.pos
  {
    var n := ReadItem(src, eof, sed, cap, st);
    if n.More? { NoReuse(src, eof, sed, cap, n.st); }
  }
}
