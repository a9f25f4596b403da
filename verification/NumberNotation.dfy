/** The notations that atob of SA/saio/libc.c is for: how a number is written, and that it is read as written. */
module NumberNotation {
  import opened NumberText
  import opened NumberParse

  /** Which characters stand for a digit: both cases of the letters. */
  predicate Writes(c: char, d: nat) {
    d < 16 && (c == "0123456789abcdef"[d] || c == "0123456789ABCDEF"[d])
  }

  predicate IsDigit(c: char, base: nat) {
    exists d: nat :: d < base && Writes(c, d)
  }

  /** Blank, tab, newline, vertical tab, form feed and return. */
  predicate Blank(c: char) { c in " \t\n\U{B}\U{C}\r" }

  /** What stands before the digits fixes the base. */
  datatype Form = Decimal | Octal | Hex(upper: bool) | Binary(upper: bool)

  function BaseOf(f: Form): nat {
    match f
    case Decimal => 10
    case Octal => 8
    case Hex(_) => 16
    case Binary(_) => 2
  }

  function Mark(f: Form): string {
    match f
    case Decimal => ""
    case Octal => "0"
    case Hex(upper) => if upper then "0X" else "0x"
    case Binary(upper) => if upper then "0B" else "0b"
  }

  /** A number in a text: white space, minus signs, the mark of the form, the characters of the digits, and what
      follows them. */
  datatype Spelling = Spelling(blanks: string, minuses: nat, form: Form, text: string, digits: seq<nat>, rest: string)

  function Spelled(w: Spelling): string {
    w.blanks + Repeat('-', w.minuses) + Mark(w.form) + w.text + w.rest
  }

  /** The character c that follows is not taken for more of the number: it is no further digit, and where there
      is no digit it is nothing that belongs before one. */
  predicate Apart(c: char, form: Form, none: bool, minuses: nat) {
    && !IsDigit(c, BaseOf(form))
    && (none && form == Octal ==> c !in "xXbB")
    && (none && form == Decimal ==> c != '-' && (minuses == 0 ==> !Blank(c)))
  }

  predicate Proper(w: Spelling) {
    && (forall k :: 0 <= k < |w.blanks| ==> Blank(w.blanks[k]))
    && |w.text| == |w.digits|
    && (forall k :: 0 <= k < |w.text| ==> w.digits[k] < BaseOf(w.form) && Writes(w.text[k], w.digits[k]))
    && (w.form == Decimal && w.digits != [] ==> w.digits[0] != 0)
    && Apart(At(w.rest, 0), w.form, w.text == "", w.minuses)
  }

  /** A character is read as the digit it stands for, and as a digit of a base only if it stands for one. */
  lemma DigitIsWritten(c: char, d: nat, base: nat)
    requires base <= 16
    ensures d < 16 ==> (Digit(c) == d <==> Writes(c, d))
    ensures Digit(c) < base <==> IsDigit(c, base)
  {
    if Digit(c) < base {
      assert Writes(c, Digit(c));
    }
  }

  lemma BlankIsSpace(c: char)
    ensures Blank(c) <==> IsSpace(c)
  {
    if '\t' <= c <= '\r' {
      assert c as int == 9 || c as int == 10 || c as int == 11 || c as int == 12 || c as int == 13;
    }
  }

  /** A number is read as it is written, in each base and behind any white space and any number of signs: up to the
      first character that is no digit of its base. */
  lemma WrittenIsRead(w: Spelling)
    requires Proper(w)
    ensures Denoted(Spelled(w)) ==
              Number(w.minuses % 2 == 1, Value(w.digits, BaseOf(w.form)), |Spelled(w)| - |w.rest|)
  {
    hide Digit, IsSpace, Denoted, StartOf, DigitsAt, Value, Spelled, Proper, Mark, At;
    var i := |w.blanks|;
    var j := i + w.minuses;
    DigitsWritten(w);
    MarkRead(w);
    DenotedIs(Spelled(w), i, j, j + |Mark(w.form)|, BaseOf(w.form), w.digits);
  }

  /** Where the parts of a spelling are. */
  lemma Places(w: Spelling)
    ensures var s, i := Spelled(w), |w.blanks|;
            var j := i + w.minuses;
            var at := j + |Mark(w.form)|;
            && |s| == at + |w.text| + |w.rest|
            && (forall k :: 0 <= k < i ==> s[k] == w.blanks[k])
            && (forall k :: i <= k < j ==> s[k] == '-')
            && (forall k :: 0 <= k < |Mark(w.form)| ==> s[j + k] == Mark(w.form)[k])
            && (forall k :: 0 <= k < |w.text| ==> s[at + k] == w.text[k])
            && (forall k: nat :: At(s, at + |w.text| + k) == At(w.rest, k))
  {
    hide Mark;
  }

  lemma DigitsWritten(w: Spelling)
    requires Proper(w)
    ensures DigitsAt(Spelled(w), |w.blanks| + w.minuses + |Mark(w.form)|, BaseOf(w.form), w.digits)
  {
    Places(w);
    DigitIsWritten(At(w.rest, 0), 0, BaseOf(w.form));
    forall k | 0 <= k < |w.text|
      ensures Digit(w.text[k]) == w.digits[k]
    {
      DigitIsWritten(w.text[k], w.digits[k], BaseOf(w.form));
    }
    hide Digit, Spelled, Mark, Writes;
  }

  /** The character behind the signs: it ends them, and with the next it gives the form. */
  lemma MarkRead(w: Spelling)
    requires Proper(w)
    ensures var s, i := Spelled(w), |w.blanks|;
            var j := i + w.minuses;
            && |s| - |w.rest| == j + |Mark(w.form)| + |w.digits|
            && (forall k :: 0 <= k < i ==> IsSpace(s[k])) && !IsSpace(At(s, i))
            && (forall k :: i <= k < j ==> s[k] == '-') && At(s, j) != '-'
            && StartOf(s, j) == Start(BaseOf(w.form), j + |Mark(w.form)|)
  {
    var s, i := Spelled(w), |w.blanks|;
    var j := i + w.minuses;
    Places(w);
    BehindSigns(w);
    forall k | 0 <= k < i
      ensures IsSpace(s[k])
    {
      BlankIsSpace(w.blanks[k]);
    }
    BlankIsSpace(At(s, j));
    assert !IsSpace('-');
    hide Spelled, IsSpace, Blank, Proper, Apart;
  }

  lemma BehindSigns(w: Spelling)
    requires Proper(w)
    ensures var s, j := Spelled(w), |w.blanks| + w.minuses;
            && At(s, j) != '-' && (w.minuses == 0 ==> !Blank(At(s, j)))
            && (At(s, j) == '0' <==> w.form != Decimal)
            && (w.form == Octal ==> At(s, j + 1) !in "xXbB")
            && (w.form.Hex? ==> At(s, j + 1) in "xX")
            && (w.form.Binary? ==> At(s, j + 1) in "bB")
  {
    var s, j := Spelled(w), |w.blanks| + w.minuses;
    Places(w);
    if w.text != "" {
      WrittenApart(w.text[0], w.digits[0]);
    }
    RestApart(w);
    hide Spelled, Blank, Writes, IsDigit;
    if w.form == Decimal {
      assert At(s, j) == if w.text == "" then At(w.rest, 0) else w.text[0];
    } else if w.form == Octal {
      assert At(s, j + 1) == if w.text == "" then At(w.rest, 0) else w.text[0];
    } else {
      assert At(s, j + 1) == Mark(w.form)[1];
    }
  }

  lemma WrittenApart(c: char, d: nat)
    requires Writes(c, d)
    ensures c != '-' && !Blank(c) && (c == '0' <==> d == 0) && (d < 8 ==> c !in "xXbB")
  {}

  lemma RestApart(w: Spelling)
    requires Proper(w)
    ensures At(w.rest, 0) != '0'
  {
    assert Writes('0', 0);
  }

  /** Every string is a number so written, so the law above covers all that atob is given. */
  lemma Spell(s: string) returns (w: Spelling)
    ensures Proper(w) && Spelled(w) == s
  {
    hide SkipSpaces, SkipMinuses, DigitsFrom, StartOf, Repeat, IsSpace, Digit, Blank, Writes, Apart, FormAt, At, IsDigit;
    var i := SkipSpaces(s, 0);
    var j := SkipMinuses(s, i);
    var form := FormAt(s, j);
    var at := j + |Mark(form)|;
    w := ReadOff(s, i, j, form, DigitsFrom(s, at, BaseOf(form)));
    BlanksProper(s, i);
    DigitsProper(s, at, BaseOf(form));
    SpelledApart(s, i, j);
    FirstNotZero(s, j);
    Parts(s, i, j, w);
  }

  function FormAt(s: string, j: nat): (f: Form)
    requires j <= |s|
    ensures StartOf(s, j) == Start(BaseOf(f), j + |Mark(f)|) && s[j..j + |Mark(f)|] == Mark(f)
  {
    if At(s, j) != '0' then Decimal
    else if At(s, j + 1) in "xX" then Hex(At(s, j + 1) == 'X')
    else if At(s, j + 1) in "bB" then Binary(At(s, j + 1) == 'B')
    else Octal
  }

  function ReadOff(s: string, i: nat, j: nat, form: Form, ds: seq<nat>): Spelling
    requires i <= j && j + |Mark(form)| + |ds| <= |s|
  {
    var at := j + |Mark(form)|;
    Spelling(s[..i], j - i, form, s[at..at + |ds|], ds, s[at + |ds|..])
  }

  lemma Parts(s: string, i: nat, j: nat, w: Spelling)
    requires i <= j && j + |Mark(w.form)| + |w.digits| <= |s| && w == ReadOff(s, i, j, w.form, w.digits)
    requires forall k :: i <= k < j ==> s[k] == '-'
    requires s[j..j + |Mark(w.form)|] == Mark(w.form)
    ensures Spelled(w) == s
  {
    hide Mark;
    var at := j + |Mark(w.form)|;
    var e := at + |w.digits|;
    assert s[i..j] == Repeat('-', j - i);
    assert s == s[..i] + s[i..j] + s[j..at] + s[at..e] + s[e..];
  }

  lemma BlanksProper(s: string, i: nat)
    requires i <= |s| && forall k :: 0 <= k < i ==> IsSpace(s[k])
    ensures forall k :: 0 <= k < i ==> Blank(s[k])
  {
    forall k | 0 <= k < i
      ensures Blank(s[k])
    {
      BlankIsSpace(s[k]);
    }
  }

  lemma DigitsProper(s: string, at: nat, base: nat)
    requires at <= |s| && base <= 16
    ensures var ds := DigitsFrom(s, at, base);
            && at + |ds| <= |s| && !IsDigit(At(s, at + |ds|), base)
            && forall k :: 0 <= k < |ds| ==> Writes(s[at..at + |ds|][k], ds[k])
  {
    hide Writes, IsDigit, Digit;
    var ds := DigitsFrom(s, at, base);
    DigitIsWritten(At(s, at + |ds|), 0, base);
    forall k | 0 <= k < |ds|
      ensures Writes(s[at..at + |ds|][k], ds[k])
    {
      DigitIsWritten(s[at + k], ds[k], base);
    }
  }

  /** Behind signs that are all the signs there are, and the mark that is there. */
  lemma SpelledApart(s: string, i: nat, j: nat)
    requires i <= j <= |s| && !IsSpace(At(s, i)) && At(s, j) != '-'
    ensures var form := FormAt(s, j);
            var at := j + |Mark(form)|;
            var e := at + |DigitsFrom(s, at, BaseOf(form))|;
            e <= |s| && Apart(At(s[e..], 0), form, s[at..e] == "", j - i)
  {
    hide DigitsFrom, IsDigit, IsSpace, Blank, Digit;
    var form := FormAt(s, j);
    var at := j + |Mark(form)|;
    var e := at + |DigitsFrom(s, at, BaseOf(form))|;
    DigitsProper(s, at, BaseOf(form));
    BlankIsSpace(At(s, j));
    AtRest(s, e);
    assert s[at..e] == "" <==> at == e;
  }

  lemma AtRest(s: string, e: nat)
    requires e <= |s|
    ensures At(s[e..], 0) == At(s, e)
  {}

  lemma FirstNotZero(s: string, j: nat)
    requires j <= |s|
    ensures var ds := DigitsFrom(s, j, 10);
            FormAt(s, j) == Decimal && ds != [] ==> ds[0] != 0
  {
    if DigitsFrom(s, j, 10) != [] {
      DigitIsWritten(s[j], 0, 10);
    }
  }

  // ----- numbers printed

  lemma TextWritten(ds: seq<nat>)
    requires Below(ds, 16)
    ensures |Text(ds)| == |ds| && forall k :: 0 <= k < |ds| ==> Writes(Text(ds)[k], ds[k])
  {}

  /** The spelling of a number behind blanks and one sign or none, with nothing after it. */
  function Plain(k: nat, minus: bool, form: Form, ds: seq<nat>): Spelling
    requires Below(ds, 16)
  {
    Spelling(Repeat(' ', k), if minus then 1 else 0, form, Text(ds), ds, "")
  }

  lemma PlainIsRead(k: nat, minus: bool, form: Form, ds: seq<nat>)
    requires Below(ds, BaseOf(form)) && Below(ds, 16) && (form == Decimal ==> ds != [] && ds[0] != 0)
    ensures var s := Repeat(' ', k) + (if minus then "-" else "") + Mark(form) + Text(ds);
            Denoted(s) == Number(minus, Value(ds, BaseOf(form)), |s|)
  {
    hide Denoted, Value, Below, Repeat, Proper, Mark, Text, Spelled;
    PlainIsProper(k, minus, form, ds);
    PlainSpelled(k, minus, form, ds);
    WrittenIsRead(Plain(k, minus, form, ds));
  }

  lemma PlainIsProper(k: nat, minus: bool, form: Form, ds: seq<nat>)
    requires Below(ds, BaseOf(form)) && Below(ds, 16) && (form == Decimal ==> ds != [] && ds[0] != 0)
    ensures Proper(Plain(k, minus, form, ds))
  {
    TextWritten(ds);
    AtEnd(BaseOf(form));
    assert Blank(' ');
    hide Writes, IsDigit, Text, Blank;
  }

  lemma PlainSpelled(k: nat, minus: bool, form: Form, ds: seq<nat>)
    requires Below(ds, 16)
    ensures Spelled(Plain(k, minus, form, ds)) == Repeat(' ', k) + (if minus then "-" else "") + Mark(form) + Text(ds)
  {
    assert Repeat('-', if minus then 1 else 0) == if minus then "-" else "";
    hide Repeat, Mark, Text;
  }

  lemma AtEnd(base: nat)
    ensures !IsDigit(At("", 0), base) && !Blank(At("", 0)) && At("", 0) !in "xXbB" && At("", 0) != '-'
  {}

  /** A decimal number, with a minus sign or without, after any number of spaces. */
  lemma DecimalReadBack(k: nat, minus: bool, n: nat)
    ensures Denoted(Repeat(' ', k) + (if minus then "-" else "") + Text(Digits(n, 10))) ==
              Number(minus, n, k + (if minus then 1 else 0) + |Digits(n, 10)|)
  {
    hide Denoted, Repeat;
    ZeroText();
    ValueOfDigits(n, 10);
    NoLeadingZero(n, 10);
    hide Digits, Text, Value;
    var blanks, sign := Repeat(' ', k), if minus then "-" else "";
    if n == 0 {
      PlainIsRead(k, minus, Octal, []);
      assert blanks + sign + Mark(Octal) + Text([]) == blanks + sign + Text(Digits(0, 10));
    } else {
      PlainIsRead(k, minus, Decimal, Digits(n, 10));
      assert blanks + sign + Mark(Decimal) == blanks + sign;
    }
  }

  lemma ZeroText()
    ensures Text([]) == "" && Text([0]) == "0" && Value([], 8) == 0
  {
    assert Char(0) == '0';
    assert [0][..0] == [];
  }

  /** A hexadecimal, octal or binary number behind the mark of its base, with any number of zeros before it. */
  lemma MarkedReadBack(form: Form, zeros: nat, n: nat)
    requires form != Decimal
    ensures var s := Mark(form) + Repeat('0', zeros) + Text(Digits(n, BaseOf(form)));
            Denoted(s) == Number(false, n, |s|)
  {
    hide Denoted, Repeat, Digits, Text, Value, Zeros, Mark;
    var ds := Digits(n, BaseOf(form));
    ValueOfDigits(n, BaseOf(form));
    LeadingZeros(zeros, ds, BaseOf(form));
    ZerosText(zeros, ds);
    PlainIsRead(0, false, form, Zeros(zeros) + ds);
    var fill, text := Repeat('0', zeros), Text(ds);
    assert Repeat(' ', 0) + "" + Mark(form) + (fill + text) == Mark(form) + fill + text;
  }

  lemma ZerosText(zeros: nat, ds: seq<nat>)
    requires Below(ds, 16)
    ensures Below(Zeros(zeros) + ds, 16) && Text(Zeros(zeros) + ds) == Repeat('0', zeros) + Text(ds)
  {
    assert Char(0) == '0';
  }

  function Zeros(n: nat): (z: seq<nat>)
    ensures |z| == n && forall i :: 0 <= i < n ==> z[i] == 0
  {
    if n == 0 then [] else Zeros(n - 1) + [0]
  }

  lemma {:induction false} LeadingZeros(zeros: nat, ds: seq<nat>, base: nat)
    ensures Value(Zeros(zeros) + ds, base) == Value(ds, base)
    decreases |ds|, zeros
  {
    var z := Zeros(zeros);
    if ds != [] {
      assert (z + ds)[..|z + ds| - 1] == z + ds[..|ds| - 1];
      LeadingZeros(zeros, ds[..|ds| - 1], base);
    } else {
      assert z + ds == z;
      if zeros > 0 {
        LeadingZeros(zeros - 1, [], base);
        assert z[..zeros - 1] == Zeros(zeros - 1) + [];
      }
    }
  }
}
