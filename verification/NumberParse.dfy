/** atob and _digit of SA/saio/libc.c: reading a number in any C notation. */
module NumberParse {
  import opened Words
  import opened NumberText

  /** A string as C sees it: past its last character there is a NUL. */
  function At(s: string, i: nat): char {
    if i < |s| then s[i] else '\0'
  }

  predicate IsSpace(c: char) { c == ' ' || '\t' <= c <= '\r' }

  const NO_DIGIT := 999999

  /** _digit */
  function Digit(c: char): nat {
    if '0' <= c <= '9' then c as nat - '0' as nat
    else if 'a' <= c <= 'z' then c as nat - 'a' as nat + 10
    else if 'A' <= c <= 'Z' then c as nat - 'A' as nat + 10
    else NO_DIGIT
  }

  function SkipSpaces(s: string, i: nat): (r: nat)
    requires i <= |s|
    ensures i <= r <= |s| && (forall k :: i <= k < r ==> IsSpace(s[k])) && !IsSpace(At(s, r))
    decreases |s| - i
  {
    if IsSpace(At(s, i)) then SkipSpaces(s, i + 1) else i
  }

  function SkipMinuses(s: string, i: nat): (r: nat)
    requires i <= |s|
    ensures i <= r <= |s| && (forall k :: i <= k < r ==> s[k] == '-') && At(s, r) != '-'
    decreases |s| - i
  {
    if At(s, i) == '-' then SkipMinuses(s, i + 1) else i
  }

  /** The base a number is written in, by its first characters, and where its digits begin. */
  datatype Start = Start(base: nat, at: nat)

  function StartOf(s: string, i: nat): (r: Start)
    requires i <= |s|
    ensures i <= r.at <= |s| && (r.base == 10 || r.base == 8 || r.base == 16 || r.base == 2)
  {
    if At(s, i) != '0' then Start(10, i)
    else if At(s, i + 1) == 'X' || At(s, i + 1) == 'x' then Start(16, i + 2)
    else if At(s, i + 1) == 'B' || At(s, i + 1) == 'b' then Start(2, i + 2)
    else Start(8, i + 1)
  }

  /** The digits of a base from i on. */
  function DigitsFrom(s: string, i: nat, base: nat): (ds: seq<nat>)
    requires i <= |s| && base <= 16
    ensures i + |ds| <= |s| && Digit(At(s, i + |ds|)) >= base
    ensures forall k :: 0 <= k < |ds| ==> ds[k] == Digit(s[i + k]) < base
    decreases |s| - i
  {
    if Digit(At(s, i)) < base then [Digit(At(s, i))] + DigitsFrom(s, i + 1, base) else []
  }

  /** The sign and magnitude written in s, and where what is left of it begins. */
  datatype Number = Number(negative: bool, magnitude: nat, end: nat)

  function Denoted(s: string): Number {
    var i := SkipSpaces(s, 0);
    var j := SkipMinuses(s, i);
    var start := StartOf(s, j);
    var ds := DigitsFrom(s, start.at, start.base);
    Number((j - i) % 2 == 1, Value(ds, start.base), start.at + |ds|)
  }

  /** The 32 bits stored for a number. */
  function Bits(n: Number): word {
    Low32(if n.negative then 0 - n.magnitude else n.magnitude)
  }

  /** One digit more: what the two tests for overflow see, and what is left in 32 bits. */
  lemma DigitMore(v: nat, base: nat, d: nat)
    requires 2 <= base <= 16 && d < base
    ensures var w := Low32(v);
            var w1 := Low32(w * base);
            && Low32(w1 + d) == Low32(v * base + d)
            && (v < TWO32 ==> ((w > (TWO32 - 1) / base || w1 > TWO32 - 1 - d) <==> v * base + d >= TWO32))
            && (v >= TWO32 ==> v * base + d >= TWO32)
  {
    var w, q := v % TWO32, v / TWO32;
    var w1 := w * base % TWO32;
    assert v == q * TWO32 + w;
    Distribute(q, w, base, d);
    Wraps(q * base, w * base + d);
    Wraps(w * base / TWO32, w1 + d);
    assert w * base + d == w * base / TWO32 * TWO32 + (w1 + d);
    if v >= TWO32 { Grows(v, base); }
    if v < TWO32 { Fits(v, base, d); }
  }

  lemma Distribute(q: nat, w: nat, base: nat, d: nat)
    ensures (q * TWO32 + w) * base + d == q * base * TWO32 + (w * base + d)
  {}

  lemma Wraps(k: nat, x: nat)
    ensures (k * TWO32 + x) % TWO32 == x % TWO32
  {}

  lemma Grows(v: nat, base: nat)
    requires base >= 2
    ensures v * base >= v
  {}

  lemma Fits(v: nat, base: nat, d: nat)
    requires 2 <= base <= 16 && d < base && v < TWO32
    ensures v > (TWO32 - 1) / base || v * base % TWO32 > TWO32 - 1 - d <==> v * base + d >= TWO32
  {
    var m := (TWO32 - 1) / base;
    assert m * base <= TWO32 - 1 < m * base + base;
    if v > m {
      assert v * base >= (m + 1) * base;
    } else {
      assert v * base <= m * base;
    }
  }

  /** One turn of the loop that reads the digits; v is the number so far. */
  method AddDigit(before: word, base: nat, d: nat, flag: bool, ghost v: nat) returns (value: word, overflow: bool)
    requires 2 <= base <= 16 && d < base && before == Low32(v) && (flag <==> v >= TWO32)
    ensures value == Low32(v * base + d) && (overflow <==> v * base + d >= TWO32)
  {
    DigitMore(v, base, d);
    hide Low32;
    overflow := flag;
    if before > (TWO32 - 1) / base {
      overflow := true;
    }
    value := Low32(before * base);
    if value > TWO32 - 1 - d {
      overflow := true;
    }
    value := Low32(value + d);
  }

  /** The loop that reads the digits. */
  method ReadDigits(s: string, start: nat, base: nat) returns (cp: nat, value: word, overflow: bool)
    requires start <= |s| && 2 <= base <= 16
    ensures var v := Value(DigitsFrom(s, start, base), base);
            cp == start + |DigitsFrom(s, start, base)| && value == Low32(v) && (overflow <==> v >= TWO32)
  {
    assert Low32(0) == 0 == Value([], base);
    hide Digit, Low32, Value, DigitsFrom, At;
    cp, value, overflow := start, 0, false;
    ghost var ds: seq<nat> := [];
    assert DigitsFrom(s, start, base) == ds + DigitsFrom(s, cp, base);
    var d := Digit(At(s, cp));
    while d < base
      invariant start <= cp <= |s| && d == Digit(At(s, cp)) && cp == start + |ds|
      invariant DigitsFrom(s, start, base) == ds + DigitsFrom(s, cp, base)
      invariant value == Low32(Value(ds, base)) && (overflow <==> Value(ds, base) >= TWO32)
      decreases |s| - cp
    {
      OneMore(s, start, cp, base, ds);
      value, overflow := AddDigit(value, base, d, overflow, Value(ds, base));
      ds := ds + [d];
      cp := cp + 1;
      d := Digit(At(s, cp));
    }
    NoMoreDigits(s, cp, base);
    assert ds + [] == ds;
  }

  lemma NoMoreDigits(s: string, i: nat, base: nat)
    requires i <= |s| && base <= 16 && Digit(At(s, i)) >= base
    ensures DigitsFrom(s, i, base) == []
  {}

  lemma OneMore(s: string, start: nat, i: nat, base: nat, ds: seq<nat>)
    requires start <= i <= |s| && base <= 16 && Digit(At(s, i)) < base
    requires DigitsFrom(s, start, base) == ds + DigitsFrom(s, i, base)
    ensures i < |s| && Value(ds + [Digit(At(s, i))], base) == Value(ds, base) * base + Digit(At(s, i))
    ensures DigitsFrom(s, start, base) == ds + [Digit(At(s, i))] + DigitsFrom(s, i + 1, base)
  {
    var d := Digit(At(s, i));
    ValueMore(ds, d, base);
    assert DigitsFrom(s, i, base) == [d] + DigitsFrom(s, i + 1, base);
    hide Digit, DigitsFrom, At, Value;
    assert ds + ([d] + DigitsFrom(s, i + 1, base)) == ds + [d] + DigitsFrom(s, i + 1, base);
  }

  lemma ValueMore(ds: seq<nat>, d: nat, base: nat)
    ensures Value(ds + [d], base) == Value(ds, base) * base + d
  {
    assert (ds + [d])[..|ds|] == ds;
  }

  /** atob: stores the number's 32 bits, and warns exactly if the digits denote more than 32 bits hold, or if
      the number is the least signed one. */
  method Atob(s: string) returns (end: nat, value: word, warned: bool)
    ensures var n := Denoted(s);
            && end == n.end && value == Bits(n)
            && (warned <==> n.magnitude >= TWO32 || (n.negative && n.magnitude == 0x8000_0000))
  {
    hide Digit, Value, DigitsFrom, Low32, SkipSpaces, SkipMinuses, StartOf;
    var cp, base, minus, overflow;
    cp, base, minus := ReadStart(s);
    ghost var v := Value(DigitsFrom(s, cp, base), base);
    cp, value, overflow := ReadDigits(s, cp, base);
    NegatedBits(v);
    warned := overflow || (value == 0x8000_0000 && minus);
    if minus {
      value := Low32(0 - value);
    }
    end := cp;
  }

  /** Spaces, signs, and the base. */
  method ReadStart(s: string) returns (cp: nat, base: nat, minus: bool)
    ensures var i := SkipSpaces(s, 0);
            var j := SkipMinuses(s, i);
            StartOf(s, j) == Start(base, cp) && minus == ((j - i) % 2 == 1)
  {
    hide IsSpace;
    cp, base, minus := 0, 10, false;
    while IsSpace(At(s, cp))
      invariant cp <= |s| && SkipSpaces(s, 0) == SkipSpaces(s, cp)
      decreases |s| - cp
    {
      SpaceInside(s, cp);
      cp := cp + 1;
    }
    ghost var i := cp;
    while At(s, cp) == '-'
      invariant i <= cp <= |s| && SkipMinuses(s, i) == SkipMinuses(s, cp) && minus == ((cp - i) % 2 == 1)
      decreases |s| - cp
    {
      cp := cp + 1;
      minus := !minus;
    }
    if At(s, cp) == '0' {
      cp := cp + 1;
      var c := At(s, cp);
      if c == 'X' || c == 'x' {
        base, cp := 16, cp + 1;
      } else if c == 'B' || c == 'b' {
        base, cp := 2, cp + 1;
      } else {
        base := 8;
      }
    }
  }

  lemma SpaceInside(s: string, i: nat)
    requires i <= |s| && IsSpace(At(s, i))
    ensures i < |s|
  {}

  lemma NegatedBits(v: nat)
    ensures Low32(0 - Low32(v)) == Low32(0 - v)
    ensures Low32(v) == 0x8000_0000 <==> v == 0x8000_0000 || (v >= TWO32 && Low32(v) == 0x8000_0000)
  {}

  // ----- reading what is written

  /** From `at` on there are the characters of these digits, and then no other digit of the base. */
  predicate DigitsAt(s: string, at: nat, base: nat, ds: seq<nat>) {
    && at + |ds| <= |s|
    && (forall k :: 0 <= k < |ds| ==> Digit(s[at + k]) == ds[k] < base)
    && Digit(At(s, at + |ds|)) >= base
  }

  lemma {:induction false} DigitsRead(s: string, at: nat, base: nat, ds: seq<nat>)
    requires base <= 16 && DigitsAt(s, at, base, ds)
    ensures DigitsFrom(s, at, base) == ds
    decreases |ds|
  {
    hide Digit;
    if ds != [] {
      assert Digit(s[at + 0]) == ds[0];
      forall k | 0 <= k < |ds| - 1
        ensures Digit(s[at + 1 + k]) == ds[1..][k] < base
      {
        assert Digit(s[at + (k + 1)]) == ds[k + 1];
      }
      DigitsRead(s, at + 1, base, ds[1..]);
    }
  }

  /** A string made of white space, minus signs, what fixes the base, digits, and anything that is no digit. */
  lemma DenotedIs(s: string, i: nat, j: nat, at: nat, base: nat, ds: seq<nat>)
    requires i <= j <= at <= |s| && (forall k :: 0 <= k < i ==> IsSpace(s[k])) && !IsSpace(At(s, i))
    requires (forall k :: i <= k < j ==> s[k] == '-') && At(s, j) != '-'
    requires StartOf(s, j) == Start(base, at) && DigitsAt(s, at, base, ds)
    ensures Denoted(s) == Number((j - i) % 2 == 1, Value(ds, base), at + |ds|)
  {
    hide Digit, IsSpace, SkipSpaces, SkipMinuses, DigitsFrom, StartOf, Value, At, DigitsAt;
    SpacesEnd(s, i);
    MinusesEnd(s, i, j);
    DigitsRead(s, at, base, ds);
  }

  lemma SpacesEnd(s: string, i: nat)
    requires i <= |s| && (forall k :: 0 <= k < i ==> IsSpace(s[k])) && !IsSpace(At(s, i))
    ensures SkipSpaces(s, 0) == i
  {
    hide IsSpace;
    var r := SkipSpaces(s, 0);
  }

  lemma MinusesEnd(s: string, i: nat, j: nat)
    requires i <= j <= |s| && (forall k :: i <= k < j ==> s[k] == '-') && At(s, j) != '-'
    ensures SkipMinuses(s, i) == j
  {
    var r := SkipMinuses(s, i);
    hide SkipMinuses;
  }
}
