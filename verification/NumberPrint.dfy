/** The printers: btoh of SA/dbgmon/rdebug.c, and dprint and bc of SA/prom/commands.c. */
module NumberPrint {
  import opened Words
  import opened NumberText
  import opened NumberParse
  import opened NumberNotation

  /** The digit that k others follow. */
  lemma {:induction false} DigitAt(n: nat, base: nat, k: nat)
    requires base >= 2
    ensures Power(base, k) > 0
    ensures k < |Digits(n, base)| ==> Digits(n, base)[|Digits(n, base)| - 1 - k] == n / Power(base, k) % base
    decreases k
  {
    PowerPositive(base, k);
    if k == 0 {
      if n < base { Small(n, base); }
    } else if n >= base {
      Quotient(n, base);
      DigitAt(n / base, base, k - 1);
      PowerPositive(base, k - 1);
      DivideTwice(n, base, Power(base, k - 1));
    }
  }

  lemma Small(n: nat, base: nat)
    requires n < base
    ensures n / 1 % base == n
  {}

  lemma {:induction false} PowerPositive(base: nat, k: nat)
    requires base > 0
    ensures Power(base, k) > 0
    decreases k
  {
    if k > 0 {
      PowerPositive(base, k - 1);
      Product(base, Power(base, k - 1));
    }
  }

  lemma Product(a: nat, b: nat)
    requires a > 0 && b > 0
    ensures a * b > 0
  {}

  lemma DivideTwice(n: nat, a: nat, b: nat)
    requires a > 0 && b > 0
    ensures a * b > 0 && n / a / b == n / (a * b)
  {
    Product(a, b);
    var p := n / a;
    Nested(n, a, b, p, p / b, n % a, p % b);
    QuotientIs(n, a * b, p / b, a * (p % b) + n % a);
  }

  lemma Nested(n: nat, a: nat, b: nat, p: nat, q: nat, r: nat, t: nat)
    requires n == a * p + r && p == b * q + t && r < a && t < b
    ensures a * t >= 0 && n == a * b * q + (a * t + r) && a * t + r < a * b
  {
    Scale(a, t + 1, b);
    assert a * (t + 1) == a * t + a;
    assert a * (b * q + t) == a * (b * q) + a * t;
    Associates(a, b, q);
  }

  lemma Associates(a: nat, b: nat, c: nat)
    ensures a * (b * c) == a * b * c
  {}

  lemma Scale(a: nat, x: nat, y: nat)
    requires x <= y
    ensures a * x <= a * y
  {}

  lemma LeadingDigit(n: nat, base: nat, k: nat)
    requires base >= 2 && |Digits(n, base)| <= k + 1
    ensures Power(base, k) > 0
    ensures k == 0 || n / Power(base, k) % base != 0 <==> |Digits(n, base)| == k + 1
  {
    PowerPositive(base, k);
    if k > 0 {
      if |Digits(n, base)| <= k {
        DigitCount(n, base, k);
        hide Digits, Power;
        ZeroQuotient(n, Power(base, k), base);
      } else {
        DigitAt(n, base, k);
        NoLeadingZero(n, base);
      }
    }
  }

  lemma ZeroQuotient(n: nat, p: nat, base: nat)
    requires n < p && base > 0
    ensures n / p % base == 0
  {
    QuotientIs(n, p, 0, n);
    Small(0, base);
  }

  lemma Powers16()
    ensures Power(16, 8) == TWO32
  {
    assert Power(16, 4) == 0x1_0000;
  }

  /** The place of the first hexadecimal digit that is not 0, or the last. */
  method FirstPlace(val: word) returns (i: int)
    ensures 0 <= i <= 7 && |Digits(val, 16)| == i + 1
  {
    Powers16();
    DigitCount(val, 16, 8);
    hide Digits, Power;
    i := 7;                              // 28 bits, in steps of four
    while i > 0
      invariant 0 <= i <= 7 && |Digits(val, 16)| <= i + 1
    {
      LeadingDigit(val, 16, i);
      if val / Power(16, i) % 16 != 0 {
        return;
      }
      i := i - 1;
    }
    LeadingDigit(val, 16, 0);
  }

  /** btoh */
  method Btoh(val: word) returns (s: string)
    ensures s == "0x" + Text(Digits(val, 16))
  {
    hide Digits, Char, Text, Power;
    ghost var ds := Digits(val, 16);
    var i := FirstPlace(val);
    ghost var k := i;
    var buf := new char[12];
    buf[0], buf[1] := '0', 'x';
    var cp := 2;
    while i >= 0
      invariant -1 <= i <= k && cp == 2 + (k - i) && buf[0] == '0' && buf[1] == 'x'
      invariant forall j :: 0 <= j < k - i ==> buf[2 + j] == Char(ds[j])
    {
      buf[cp] := NibbleChar(val, i);
      cp := cp + 1;
      i := i - 1;
    }
    buf[cp] := '\0';
    s := buf[..cp];
    Prefix0x(s, ds);
  }

  method NibbleChar(val: word, i: nat) returns (c: char)
    requires i < |Digits(val, 16)|
    ensures c == Char(Digits(val, 16)[|Digits(val, 16)| - 1 - i])
  {
    DigitAt(val, 16, i);
    hide Digits, Power, Char;
    var digit := val / Power(16, i) % 16;
    HexChar(digit);
    if digit < 10 {
      c := '0' + digit as char;
    } else {
      c := 'a' + (digit - 10) as char;
    }
  }

  lemma HexChar(d: nat)
    requires d < 16
    ensures Char(d) == if d < 10 then '0' + d as char else 'a' + (d - 10) as char
  {}

  lemma Prefix0x(s: string, ds: seq<nat>)
    requires |s| == 2 + |ds| && s[0] == '0' && s[1] == 'x' && Below(ds, 16)
    requires forall j :: 0 <= j < |ds| ==> s[2 + j] == Char(ds[j])
    ensures s == "0x" + Text(ds)
  {
    hide Text, Char;
    TextIs(ds, s[2..]);
    assert s == "0x" + s[2..];
  }

  lemma TextIs(ds: seq<nat>, s: string)
    requires Below(ds, 16) && |s| == |ds| && forall j :: 0 <= j < |ds| ==> s[j] == Char(ds[j])
    ensures s == Text(ds)
  {}

  /** What btoh prints, atob reads back: all of it, without a warning. */
  lemma BtohReadBack(val: word)
    ensures var s := "0x" + Text(Digits(val, 16));
            Denoted(s).end == |s| && Denoted(s).magnitude == val && Bits(Denoted(s)) == val
  {
    MarkedReadBack(Hex(false), 0, val);
    assert "0x" + Repeat('0', 0) + Text(Digits(val, 16)) == "0x" + Text(Digits(val, 16));
  }

  // ----- dprint

  const HEX := 16
  const DEC := -10
  const UNS := 10
  const OCT := 8
  const BIN := 2

  predicate Numeric(b: int) { b == HEX || b == DEC || b == UNS || b == OCT || b == BIN }

  /** The sign and the magnitude that dprint prints. */
  predicate Minus(n: word, b: int) { b < 0 && n >= 0x8000_0000 }

  function Magnitude(n: word, b: int): word {
    if Minus(n, b) then Low32(0 - n) else n
  }

  function Base(b: int): nat { if b < 0 then 0 - b else b }

  /** What dprint prints: filled on the left to the width, if it is shorter. */
  function Printed(n: word, b: int, fwidth: int, fill: bool): string
    requires Numeric(b)
  {
    var ds := Digits(Magnitude(n, b), Base(b));
    var used := |ds| + if Minus(n, b) then 1 else 0;
    Repeat(if fill then '0' else ' ', if used < fwidth then fwidth - used else 0) + (if Minus(n, b) then "-" else "") + Text(ds)
  }

  /** dprint, for the numeric bases */
  method Dprint(n: word, b: int, fwidth: int, fill: bool) returns (out: string)
    requires Numeric(b)
    ensures out == Printed(n, b, fwidth, fill)
  {
    hide Digits, Text, Repeat, Low32;
    var base: int, value: word, minus := b, n, false;
    if base < 0 {
      base := 0 - base;
      if value >= 0x8000_0000 {
        minus := true;
        value := Low32(0 - value);
      }
    }
    out := Emit(value, base, minus, fwidth, fill);
  }

  /** The part of dprint that prints a magnitude. */
  method Emit(n: word, base: nat, minus: bool, fwidth: int, fill: bool) returns (out: string)
    requires 2 <= base <= 16
    ensures var ds := Digits(n, base);
            var used := |ds| + if minus then 1 else 0;
            out == Repeat(if fill then '0' else ' ', if used < fwidth then fwidth - used else 0) + (if minus then "-" else "") + Text(ds)
  {
    AtMost32(n, base);
    hide Digits, Text, Repeat;
    var prbuf := new char[32];
    var cp := PutDigits(prbuf, n, base);
    var width := fwidth - cp;
    if minus {
      width := width - 1;
    }
    out := PutFill(if fill then '0' else ' ', width);
    if minus {
      out := out + "-";
    } else {
      assert out + "" == out;
    }
    var digits := PutBack(prbuf, cp, Text(Digits(n, base)));
    out := out + digits;
  }

  /** text is in the buffer from its end on. */
  ghost predicate Stacked(buf: seq<char>, text: string) {
    |text| <= |buf| && forall j :: 0 <= j < |text| ==> buf[j] == text[|text| - 1 - j]
  }

  lemma StackMore(buf: seq<char>, text: string, c: char)
    requires Stacked(buf, text) && |text| < |buf|
    ensures Stacked(buf[|text| := c], [c] + text)
  {}

  /** What was put into the buffer last comes out first. */
  method PutBack(prbuf: array<char>, count: nat, ghost text: string) returns (out: string)
    requires |text| == count && Stacked(prbuf[..], text)
    ensures out == text
  {
    out := "";
    var cp := count;
    while cp > 0
      invariant 0 <= cp <= count && out == text[..count - cp]
    {
      cp := cp - 1;
      assert prbuf[..][cp] == text[count - 1 - cp];
      out := out + [prbuf[cp]];
    }
  }

  /** The digits, the least significant first. */
  method PutDigits(prbuf: array<char>, n: nat, base: nat) returns (cp: nat)
    requires 2 <= base <= 16 && prbuf.Length == 32 && |Digits(n, base)| <= 32
    modifies prbuf
    ensures cp == |Digits(n, base)| == |Text(Digits(n, base))|
    ensures Stacked(prbuf[..], Text(Digits(n, base)))
  {
    ghost var whole := Text(Digits(n, base));
    ghost var text := "";
    var left: nat, more := n, true;
    TextOf(Digits(n, base));
    assert Text(Digits(left, base)) + text == whole && Stacked(prbuf[..], text);
    hide Digits, Char, Text, Rem, Quo, Stacked, Below;
    cp := 0;
    while more
      invariant cp == |text| && whole == (if more then Text(Digits(left, base)) else "") + text
      invariant Stacked(prbuf[..], text)
      decreases left, more
    {
      LastChar(left, base);
      var c := Char(Rem(left, base));
      ghost var before := if left < base then "" else Text(Digits(Quo(left, base), base));
      Regroup(before, c, text);
      StackMore(prbuf[..], text, c);
      ghost var next := prbuf[..][cp := c];
      prbuf[cp] := c;
      assert prbuf[..] == next;
      text := [c] + text;
      cp := cp + 1;
      left := Quo(left, base);
      more := left != 0;
    }
    assert whole == text;
  }

  lemma Regroup(a: string, c: char, b: string)
    ensures a + [c] + b == a + ([c] + b)
  {}

  lemma TextOf(ds: seq<nat>)
    requires Below(ds, 16)
    ensures |Text(ds)| == |ds|
  {}

  function Quo(n: nat, base: nat): nat
    requires base > 0
  {
    n / base
  }

  function Rem(n: nat, base: nat): (r: nat)
    requires base > 0
    ensures r < base
  {
    n % base
  }

  lemma LastChar(n: nat, base: nat)
    requires 2 <= base <= 16
    ensures (Quo(n, base) == 0 <==> n < base) && (n > 0 ==> Quo(n, base) < n)
    ensures Text(Digits(n, base)) == (if n < base then "" else Text(Digits(Quo(n, base), base))) + [Char(Rem(n, base))]
  {
    hide Digits, Text, Char;
    LastDigit(n, base);
    TextMore(if n < base then [] else Digits(n / base, base), n % base);
  }

  lemma LastDigit(n: nat, base: nat)
    requires base >= 2
    ensures n % base < base && (n / base == 0 <==> n < base) && (n > 0 ==> n / base < n)
    ensures Digits(n, base) == (if n < base then [] else Digits(n / base, base)) + [n % base]
  {
    if n < base {
      QuotientIs(n, base, 0, n);
    } else {
      Quotient(n, base);
    }
  }

  method PutFill(c: char, width: int) returns (out: string)
    ensures out == Repeat(c, if width > 0 then width else 0)
  {
    out := "";
    var left := width;
    while left > 0
      invariant left <= width && (left >= 0 || left == width) && out == Repeat(c, if width > 0 then width - left else 0)
    {
      out := out + [c];
      left := left - 1;
    }
  }

  lemma AtMost32(n: word, base: nat)
    requires base >= 2
    ensures |Digits(n, base)| <= 32
  {
    DigitCount(n, base, 32);
    PowerGrows(base, 32);
    PowersOf2();
  }

  lemma {:induction false} PowerGrows(base: nat, k: nat)
    requires base >= 2
    ensures Power(base, k) >= Power(2, k)
    decreases k
  {
    if k > 0 {
      PowerGrows(base, k - 1);
      Scale(base, Power(2, k - 1), Power(base, k - 1));
      assert base * Power(2, k - 1) >= 2 * Power(2, k - 1);
    }
  }

  lemma {:induction false} PowerAdd(base: nat, i: nat, j: nat)
    ensures Power(base, i + j) == Power(base, i) * Power(base, j)
    decreases i
  {
    if i > 0 {
      PowerAdd(base, i - 1, j);
      assert base * (Power(base, i - 1) * Power(base, j)) == base * Power(base, i - 1) * Power(base, j);
    }
  }

  lemma PowersOf2()
    ensures Power(2, 8) == 0x100 && Power(2, 16) == 0x1_0000 && Power(2, 32) == TWO32
  {
    assert Power(2, 4) == 16;
    PowerAdd(2, 4, 4);
    PowerAdd(2, 8, 8);
    PowerAdd(2, 16, 16);
  }

  /** bc: the number of characters a value of `width` bytes is printed in. */
  function Bc(b: int, width: nat): nat
    requires Numeric(b) && (width == 1 || width == 2 || width == 4)
  {
    if b == HEX then (width * 8 + 3) / 4
    else if b == DEC then (if width == 1 then 4 else if width == 2 then 6 else 11)
    else if b == UNS then (if width == 1 then 3 else if width == 2 then 5 else 10)
    else if b == OCT then (width * 8 + 2) / 3
    else width * 8
  }

  /** n is a value of that width: sign-extended to 32 bits, if the base is signed. */
  predicate OfWidth(n: word, b: int, width: nat) {
    if width == 4 then true
    else
      var bound := if width == 1 then 0x100 else 0x1_0000;
      if b < 0 then n < bound / 2 || n >= TWO32 - bound / 2 else n < bound
  }

  /** Printed to the width that bc gives, every value of `width` bytes takes exactly that many characters. */
  lemma ExactlyBc(n: word, b: int, width: nat, fill: bool)
    requires Numeric(b) && (width == 1 || width == 2 || width == 4) && OfWidth(n, b, width)
    ensures |Printed(n, b, Bc(b, width), fill)| == Bc(b, width)
  {
    hide Digits, Text, Repeat, Power;
    var m, count := Magnitude(n, b), Bc(b, width) - if Minus(n, b) then 1 else 0;
    BelowPower(n, b, width);
    DigitCount(m, Base(b), count);
  }

  lemma BelowPower(n: word, b: int, width: nat)
    requires Numeric(b) && (width == 1 || width == 2 || width == 4) && OfWidth(n, b, width)
    ensures Magnitude(n, b) < Power(Base(b), Bc(b, width) - if Minus(n, b) then 1 else 0)
  {
    Powers();
    hide Power;
  }

  lemma Powers()
    ensures Power(2, 8) == 0x100 && Power(2, 16) == 0x1_0000 && Power(2, 32) == TWO32
    ensures Power(16, 2) == 0x100 && Power(16, 4) == 0x1_0000 && Power(16, 8) == TWO32
    ensures Power(8, 3) == 512 && Power(8, 6) == 262144 && Power(8, 11) == 8589934592
    ensures Power(10, 3) == 1000 && Power(10, 4) == 10000 && Power(10, 5) == 100000 && Power(10, 6) == 1000000
    ensures Power(10, 10) == 10000000000 && Power(10, 11) == 100000000000
  {
    PowersOf2();
    PowerAdd(16, 2, 2);
    PowerAdd(16, 4, 4);
    PowerAdd(8, 3, 3);
    PowerAdd(8, 6, 3);
    PowerAdd(8, 9, 2);
    PowerAdd(10, 2, 2);
    PowerAdd(10, 3, 2);
    PowerAdd(10, 3, 3);
    PowerAdd(10, 5, 5);
    PowerAdd(10, 10, 1);
  }

  /** Whatever the base, width and fill: first fill characters up to the width, then a minus sign exactly for negative
      signed numbers, then digits without leading zeros; sign and digits denote the number. */
  lemma PrintedSays(n: word, b: int, fwidth: int, fill: bool) returns (before: string, ds: seq<nat>)
    requires Numeric(b)
    ensures var s, minus := Printed(n, b, fwidth, fill), b == DEC && n >= 0x8000_0000;
            && Below(ds, Base(b)) && ds != [] && (ds[0] == 0 <==> n == 0) && (n == 0 ==> ds == [0])
            && s == before + (if minus then "-" else "") + Text(ds)
            && (forall i :: 0 <= i < |before| ==> before[i] == if fill then '0' else ' ')
            && (if before == "" then |s| >= fwidth else |s| == fwidth)
            && n == Low32(if minus then 0 - Value(ds, Base(b)) else Value(ds, Base(b)))
  {
    hide Digits, Text, Repeat, Value, Low32, Magnitude, Minus;
    SignSays(n, b);
    ds := Digits(Magnitude(n, b), Base(b));
    NoLeadingZero(Magnitude(n, b), Base(b));
    ValueOfDigits(Magnitude(n, b), Base(b));
    TextOf(ds);
    var used := |ds| + if Minus(n, b) then 1 else 0;
    before := Repeat(if fill then '0' else ' ', if used < fwidth then fwidth - used else 0);
  }

  lemma SignSays(n: word, b: int)
    requires Numeric(b)
    ensures 2 <= Base(b) <= 16 && (Minus(n, b) <==> b == DEC && n >= 0x8000_0000) && (Magnitude(n, b) == 0 <==> n == 0)
    ensures n == Low32(if Minus(n, b) then 0 - Magnitude(n, b) else Magnitude(n, b))
  {}

  // ----- what is printed is read back

  /** In decimal, signed or not, filled with spaces to any width, every 32-bit value is read back to its end;
      only the least signed value draws a warning. */
  lemma DecimalsReadBack(n: word, b: int, fwidth: int)
    requires b == DEC || b == UNS
    ensures var s := Printed(n, b, fwidth, false);
            Denoted(s).end == |s| && Bits(Denoted(s)) == n && Denoted(s).magnitude < TWO32
            && (Denoted(s).negative && Denoted(s).magnitude == 0x8000_0000 <==> b == DEC && n == 0x8000_0000)
  {
    var k := PrintedDecimal(n, b, fwidth);
    DecimalReadBack(k, Minus(n, b), Magnitude(n, b));
    NumberBits(n, b, Denoted(Printed(n, b, fwidth, false)));
    hide Digits, Text, Repeat, Denoted, Printed, Low32, Magnitude, Minus, Bits;
  }

  lemma NumberBits(n: word, b: int, num: Number)
    requires num.negative == Minus(n, b) && num.magnitude == Magnitude(n, b)
    ensures Bits(num) == n && num.magnitude < TWO32
    ensures num.negative && num.magnitude == 0x8000_0000 <==> b < 0 && n == 0x8000_0000
  {
    MagnitudeBits(n, b);
  }

  lemma PrintedDecimal(n: word, b: int, fwidth: int) returns (k: nat)
    requires b == DEC || b == UNS
    ensures var s, ds := Printed(n, b, fwidth, false), Digits(Magnitude(n, b), 10);
            && s == Repeat(' ', k) + (if Minus(n, b) then "-" else "") + Text(ds)
            && |s| == k + (if Minus(n, b) then 1 else 0) + |ds|
  {
    var used := |Digits(Magnitude(n, b), 10)| + if Minus(n, b) then 1 else 0;
    k := if used < fwidth then fwidth - used else 0;
    hide Digits, Text, Repeat;
  }

  lemma MagnitudeBits(n: word, b: int)
    ensures Low32(if Minus(n, b) then 0 - Magnitude(n, b) else Magnitude(n, b)) == n
    ensures Minus(n, b) && Magnitude(n, b) == 0x8000_0000 <==> b < 0 && n == 0x8000_0000
  {}

  /** In the other bases, filled with zeros to any width and behind the mark of the base, every 32-bit value is read
      back to its end, without a warning. */
  lemma FilledReadBack(n: word, form: Form, fwidth: int)
    requires form != Decimal
    ensures var s := Mark(form) + Printed(n, BaseOf(form), fwidth, true);
            Denoted(s).end == |s| && Bits(Denoted(s)) == n && Denoted(s).magnitude < TWO32 && !Denoted(s).negative
  {
    hide Digits, Text, Repeat, Denoted, Printed, Low32, Mark;
    var zeros := PrintedFilled(n, form, fwidth);
    MarkedReadBack(form, zeros, n);
    FitsWord(n);
  }

  lemma FitsWord(n: word)
    ensures Low32(n) == n
  {}

  lemma PrintedFilled(n: word, form: Form, fwidth: int) returns (zeros: nat)
    requires form != Decimal
    ensures Mark(form) + Printed(n, BaseOf(form), fwidth, true) ==
              Mark(form) + Repeat('0', zeros) + Text(Digits(n, BaseOf(form)))
  {
    hide Digits, Text, Repeat, Mark;
    var ds := Digits(n, BaseOf(form));
    zeros := if |ds| < fwidth then fwidth - |ds| else 0;
    var fill, text, mark := Repeat('0', zeros), Text(ds), Mark(form);
    assert fill + "" + text == fill + text;
    assert mark + (fill + text) == mark + fill + text;
  }
}
