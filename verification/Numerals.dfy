/**
 itoa, strrev and the %#x conversion of student-distrib/lib.c.
 */
module Numerals {
  import opened Bytes
  import opened Support

  const ZERO: Byte := 48
  const LETTER_A: Byte := 65

  /** lookup[d] in itoa. */
  function Digit(d: nat): Byte
    requires d < 36
  {
    if d < 10 then ZERO + d else LETTER_A + (d - 10)
  }

  function DigitValue(c: Byte): nat {
    if 48 <= c < 58 then c - 48 else if 65 <= c < 91 then c - 55 else 0
  }

  /** A string of digits from 0 to 9 and A to Z, each less than the radix. */
  predicate Denotes(s: seq<Byte>, radix: nat) {
    forall k :: 0 <= k < |s| ==> (48 <= s[k] < 58 || 65 <= s[k] < 91) && DigitValue(s[k]) < radix
  }

  /** The number that a string denotes, by the places of its digits. */
  function Value(s: seq<Byte>, radix: nat): nat {
    if s == [] then 0 else Value(s[..|s| - 1], radix) * radix + DigitValue(s[|s| - 1])
  }

  function Reversed(s: seq<Byte>): (r: seq<Byte>)
    ensures |r| == |s|
    ensures forall k :: 0 <= k < |s| ==> r[k] == s[|s| - 1 - k]
  {
    seq(|s|, k requires 0 <= k < |s| => s[|s| - 1 - k])
  }

  lemma ReversedTwice(s: seq<Byte>)
    ensures Reversed(Reversed(s)) == s
  {}

  /** The digits of a number, the lowest place first; none for zero. */
  function LowDigits(v: nat, radix: nat): (s: seq<Byte>)
    requires 2 <= radix <= 36
    ensures (v == 0 <==> s == []) && NulFree(s)
    decreases v
  {
    if v == 0 then [] else [Digit(v % radix)] + LowDigits(v / radix, radix)
  }

  function Numeral(v: nat, radix: nat): (s: seq<Byte>)
    requires 2 <= radix <= 36
    ensures s != [] && NulFree(s)
  {
    if v == 0 then [ZERO] else Reversed(LowDigits(v, radix))
  }

  lemma ValueSnoc(s: seq<Byte>, d: nat, radix: nat)
    requires d < 36
    ensures Value(s + [Digit(d)], radix) == Value(s, radix) * radix + d
  {
    assert (s + [Digit(d)])[..|s|] == s;
  }

  lemma DivMod(v: nat, radix: nat)
    requires radix >= 2
    ensures v / radix * radix + v % radix == v
  {}

  lemma TwiceAtMost(q: nat, radix: nat)
    requires radix >= 2
    ensures 2 * q <= q * radix
  {}

  lemma QuotientSmaller(v: nat, radix: nat)
    requires radix >= 2 && v > 0
    ensures v / radix < v && v % radix < radix
  {
    var q := v / radix;
    DivMod(v, radix);
    TwiceAtMost(q, radix);
  }

  lemma LowDigitsSnoc(rest: seq<Byte>, d: nat, radix: nat)
    requires d < 36
    ensures Value(Reversed([Digit(d)] + rest), radix) == Value(Reversed(rest), radix) * radix + d
  {
    assert Reversed([Digit(d)] + rest) == Reversed(rest) + [Digit(d)];
    ValueSnoc(Reversed(rest), d, radix);
  }

  lemma {:induction false} LowDigitsValue(v: nat, radix: nat)
    requires 2 <= radix <= 36
    ensures Value(Reversed(LowDigits(v, radix)), radix) == v
    decreases v
  {
    if v > 0 {
      var q, d := v / radix, v % radix;
      QuotientSmaller(v, radix);
      LowDigitsValue(q, radix);
      LowDigitsSnoc(LowDigits(q, radix), d, radix);
      DivMod(v, radix);
    }
  }

  lemma {:induction false} LowDigitsDenote(v: nat, radix: nat)
    requires 2 <= radix <= 36
    ensures Denotes(LowDigits(v, radix), radix)
    decreases v
  {
    if v > 0 {
      QuotientSmaller(v, radix);
      LowDigitsDenote(v / radix, radix);
    }
  }

  lemma {:induction false} LeadingDigit(v: nat, radix: nat)
    requires 2 <= radix <= 36 && v > 0
    ensures var low := LowDigits(v, radix);
      low[|low| - 1] != ZERO
    decreases v
  {
    QuotientSmaller(v, radix);
    var q, d := v / radix, v % radix;
    var rest := LowDigits(q, radix);
    if q > 0 {
      LeadingDigit(q, radix);
      assert ([Digit(d)] + rest)[|rest|] == rest[|rest| - 1];
    } else {
      assert d == v;
    }
  }

  /** The numeral denotes the number, and has a leading zero only when it is zero. */
  lemma NumeralRoundTrip(v: nat, radix: nat)
    requires 2 <= radix <= 36
    ensures Denotes(Numeral(v, radix), radix) && Value(Numeral(v, radix), radix) == v
    ensures Numeral(v, radix)[0] == 48 <==> v == 0
  {
    LowDigitsValue(v, radix);
    LowDigitsDenote(v, radix);
    if v > 0 {
      LeadingDigit(v, radix);
    } else {
      assert Numeral(v, radix)[..0] == [];
    }
  }

  function Power(radix: nat, k: nat): nat {
    if k == 0 then 1 else radix * Power(radix, k - 1)
  }

  lemma {:induction false} NumeralLength(v: nat, radix: nat, k: nat)
    requires 2 <= radix <= 36 && v < Power(radix, k)
    ensures |LowDigits(v, radix)| <= k
    decreases k
  {
    if v > 0 {
      QuotientSmaller(v, radix);
      QuotientBelow(v, radix, Power(radix, k - 1));
      NumeralLength(v / radix, radix, k - 1);
    }
  }

  lemma QuotientBelow(v: nat, radix: nat, p: nat)
    requires radix >= 2 && v < radix * p
    ensures v / radix < p
  {
    DivMod(v, radix);
    Cancel(v / radix, p, radix);
  }

  lemma Cancel(a: nat, b: nat, factor: nat)
    requires a * factor < factor * b
    ensures a < b
  {}

  /** strrev: the string is swapped end for end in place. */
  method Strrev(buf: array<Byte>, at: nat, ghost end: nat)
    requires StringAt(buf, at, end)
    modifies buf
    ensures buf[at..end] == Reversed(old(buf[at..end])) && StringAt(buf, at, end)
    ensures forall k :: 0 <= k < buf.Length && !(at <= k < end) ==> buf[k] == old(buf[k])
  {
    var len := Strlen(buf, at, end);
    var beg, last := 0, len as int - 1;
    while beg < last
      invariant 0 <= beg <= last + 2 && beg + last + 1 == len
      invariant forall k :: at <= k < at + beg || at + last < k < end ==> buf[k] == old(buf[at + end - 1 - k])
      invariant forall k :: at + beg <= k <= at + last ==> buf[k] == old(buf[k])
      invariant forall k :: 0 <= k < buf.Length && !(at <= k < end) ==> buf[k] == old(buf[k])
    {
      var tmp := buf[at + last];
      buf[at + last] := buf[at + beg];
      buf[at + beg] := tmp;
      beg, last := beg + 1, last - 1;
    }
    assert forall k :: at <= k < end ==> buf[k] == old(buf[at + end - 1 - k]);
    assert buf[at..end] == Reversed(old(buf[at..end]));
  }

  /** itoa: the digits are written lowest first and then turned round. */
  method Itoa(value: nat, buf: array<Byte>, at: nat, radix: nat) returns (ghost end: nat)
    requires 2 <= radix <= 36 && at + |Numeral(value, radix)| < buf.Length
    modifies buf
    ensures end == at + |Numeral(value, radix)| && StringAt(buf, at, end)
    ensures buf[at..end] == Numeral(value, radix)
    ensures forall k :: 0 <= k < buf.Length && !(at <= k <= end) ==> buf[k] == old(buf[k])
  {
    ghost var numeral := Numeral(value, radix);
    if value == 0 {
      buf[at], buf[at + 1] := ZERO, NUL;
      assert buf[at..at + 1] == [ZERO] == numeral;
      return at + 1;
    }
    var n := WriteLow(value, buf, at, radix);
    buf[at + n] := NUL;
    end := at + n;
    ghost var low := buf[at..end];
    assert low == LowDigits(value, radix) && Reversed(low) == numeral;
    Strrev(buf, at, end);
  }

  /** One place value: the digit, and the number without it. */
  method NextDigit(v: nat, radix: nat) returns (digit: Byte, rest: nat)
    requires 2 <= radix <= 36 && v > 0
    ensures rest < v && LowDigits(v, radix) == [digit] + LowDigits(rest, radix)
  {
    QuotientSmaller(v, radix);
    digit, rest := Digit(v % radix), v / radix;
  }

  /** The loop of itoa. */
  method WriteLow(value: nat, buf: array<Byte>, at: nat, radix: nat) returns (n: nat)
    requires 2 <= radix <= 36 && at + |LowDigits(value, radix)| < buf.Length
    modifies buf
    ensures n == |LowDigits(value, radix)|
    ensures forall k :: at <= k < at + n ==> buf[k] == LowDigits(value, radix)[k - at]
    ensures forall k :: 0 <= k < buf.Length && !(at <= k < at + n) ==> buf[k] == old(buf[k])
  {
    ghost var low := LowDigits(value, radix);
    var newval: nat := value;
    n := 0;
    while newval > 0
      invariant n <= |low| && low[n..] == LowDigits(newval, radix)
      invariant forall k :: at <= k < at + n ==> buf[k] == low[k - at]
      invariant forall k :: 0 <= k < buf.Length && !(at <= k < at + n) ==> buf[k] == old(buf[k])
    {
      ghost var left := low[n..];
      var digit;
      digit, newval := NextDigit(newval, radix);
      assert low[n] == left[0] == digit && low[n + 1..] == left[1..];
      buf[at + n] := digit;
      n := n + 1;
    }
  }

  /** The %#x conversion: eight digits, the missing ones made up by zeros in front. */
  method PrintHex(value: nat, buf: array<Byte>) returns (out: seq<Byte>)
    requires value < 0x1_0000_0000 && buf.Length == 64
    modifies buf
    ensures |out| == 8 && Denotes(out, 16) && Value(out, 16) == value
  {
    HexLength(value);
    ghost var end := Itoa(value, buf, 8, 16);
    var start := Strlen(buf, 8, end);
    ghost var digits := buf[8..end];
    var i := start;
    while i < 8
      invariant start <= i <= 8
      invariant forall k :: start <= k < i ==> buf[k] == ZERO
      invariant buf[8..end] == digits && StringAt(buf, 8, end)
    {
      buf[i] := ZERO;
      i := i + 1;
    }
    var len := Strlen(buf, start, end);
    out := buf[start..start + len];
    assert out == buf[start..8] + digits;
    ZerosInFront(buf[start..8], digits, 16);
    NumeralRoundTrip(value, 16);
    MoreDigits(buf[start..8], digits, 16);
  }

  lemma MoreDigits(zeros: seq<Byte>, s: seq<Byte>, radix: nat)
    requires radix > 0 && Denotes(s, radix) && forall k :: 0 <= k < |zeros| ==> zeros[k] == ZERO
    ensures Denotes(zeros + s, radix)
  {}

  lemma HexLength(value: nat)
    requires value < 0x1_0000_0000
    ensures 1 <= |Numeral(value, 16)| <= 8
  {
    assert Power(16, 8) == 0x1_0000_0000;
    NumeralLength(value, 16, 8);
  }

  lemma {:induction false} ZerosInFront(zeros: seq<Byte>, s: seq<Byte>, radix: nat)
    requires forall k :: 0 <= k < |zeros| ==> zeros[k] == ZERO
    ensures Value(zeros + s, radix) == Value(s, radix)
    decreases |zeros| + |s|
  {
    if s != [] {
      assert (zeros + s)[..|zeros + s| - 1] == zeros + s[..|s| - 1];
      ZerosInFront(zeros, s[..|s| - 1], radix);
    } else if zeros != [] {
      assert (zeros + s)[..|zeros + s| - 1] == zeros[..|zeros| - 1] + s;
      ZerosInFront(zeros[..|zeros| - 1], s, radix);
    }
  }
}
