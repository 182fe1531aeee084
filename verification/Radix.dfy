/**
 _i64toa and _ui64toa (stdlib_win.cpp) for every radix but ten, which they leave to sprintf.
 The digits are pushed on a stack by repeated division and popped into the buffer.
 */
module Radix {

  const TWO_63: int := 0x8000_0000_0000_0000
  const TWO_64: int := 0x1_0000_0000_0000_0000

  type UInt64 = x: int | 0 <= x < TWO_64
  type Int64 = x: int | -TWO_63 <= x < TWO_63
  type Radix = x: int | 2 <= x <= 36 witness 2

  /** `*(uint64_t*)(&_Value)` */
  function UnsignedView(v: Int64): UInt64 {
    if v < 0 then v + TWO_64 else v
  }

  // ------------------------------------------------ digits

  /** The digits of a value, the most significant first; none for zero. */
  function Digits(v: nat, r: Radix): seq<nat> {
    if v == 0 then [] else Digits(v / r, r) + [v % r]
  }

  lemma Division(v: nat, r: Radix)
    ensures v / r * r + v % r == v && 0 <= v % r < r && (v > 0 ==> v / r <= v / 2 < v) && (v < r ==> v / r == 0)
  {
  }

  /** Horner's rule, from the most significant digit on. */
  function Horner(ds: seq<nat>, r: Radix): nat {
    if ds == [] then 0 else Horner(ds[..|ds| - 1], r) * r + ds[|ds| - 1]
  }

  lemma {:induction false} HornerOfDigits(v: nat, r: Radix)
    ensures Horner(Digits(v, r), r) == v
  {
    if v > 0 {
      Division(v, r);
      var q, d := v / r, v % r;
      HornerOfDigits(q, r);
      assert Digits(v, r) == Digits(q, r) + [d];
      assert (Digits(q, r) + [d])[..|Digits(q, r)|] == Digits(q, r);
    }
  }

  /** A numeral in the radix: digits in range, and no zero in front. */
  predicate Numeral(ds: seq<nat>, r: Radix) {
    (forall k | 0 <= k < |ds| :: ds[k] < r) && (ds != [] ==> ds[0] != 0)
  }

  lemma {:induction false} DigitsAreNumeral(v: nat, r: Radix)
    ensures Numeral(Digits(v, r), r)
  {
    if v > 0 {
      Division(v, r);
      var q, d := v / r, v % r;
      DigitsAreNumeral(q, r);
      assert Digits(v, r) == Digits(q, r) + [d];
      assert q == 0 ==> d == v;
    }
  }

  lemma {:induction false} HornerIsPositive(ds: seq<nat>, r: Radix)
    requires Numeral(ds, r) && ds != []
    ensures Horner(ds, r) > 0
  {
    if |ds| > 1 {
      HornerIsPositive(ds[..|ds| - 1], r);
    }
  }

  lemma QuotientAndRemainder(q: nat, d: nat, r: Radix)
    requires d < r
    ensures (q * r + d) / r == q && (q * r + d) % r == d
  {
    var v := q * r + d;
    Division(v, r);
    QuotientUnique(q, d, v / r, v % r, r);
  }

  lemma OneRadixMore(a: nat, b: nat, r: Radix)
    ensures a < b ==> a * r + r <= b * r
  {
    if a < b {
      assert b * r == a * r + (b - a) * r;
    }
  }

  lemma QuotientUnique(q: nat, d: nat, p: nat, e: nat, r: Radix)
    requires d < r && e < r && q * r + d == p * r + e
    ensures q == p && d == e
  {
    OneRadixMore(q, p, r);
    OneRadixMore(p, q, r);
  }

  /** The other direction: every numeral is the printed form of its value. */
  lemma {:induction false} DigitsOfHorner(ds: seq<nat>, r: Radix)
    requires Numeral(ds, r)
    ensures Digits(Horner(ds, r), r) == ds
  {
    if ds != [] {
      var init, last := ds[..|ds| - 1], ds[|ds| - 1];
      HornerIsPositive(ds, r);
      DigitsOfHorner(init, r);
      QuotientAndRemainder(Horner(init, r), last, r);
      assert ds == init + [last];
    }
  }

  function PowerOfTwo(n: nat): nat {
    if n == 0 then 1 else 2 * PowerOfTwo(n - 1)
  }

  /** A value below 2^n has at most n digits. */
  lemma {:induction false} DigitCount(v: nat, r: Radix, n: nat)
    requires v < PowerOfTwo(n)
    ensures |Digits(v, r)| <= n
  {
    if v > 0 {
      Division(v, r);
      DigitCount(v / r, r, n - 1);
    }
  }

  lemma EightMore(n: nat)
    ensures PowerOfTwo(n + 8) == 256 * PowerOfTwo(n)
  {
    assert PowerOfTwo(n + 4) == 16 * PowerOfTwo(n) by {
      assert PowerOfTwo(n + 2) == 4 * PowerOfTwo(n);
    }
    assert PowerOfTwo(n + 6) == 4 * PowerOfTwo(n + 4);
  }

  lemma WordSize()
    ensures PowerOfTwo(64) == TWO_64
  {
    EightMore(0);
    EightMore(8);
    EightMore(16);
    EightMore(24);
    EightMore(32);
    EightMore(40);
    EightMore(48);
    EightMore(56);
  }

  // ------------------------------------------------ characters

  function DigitChar(d: nat): char
    requires d < 36
  {
    if d < 10 then '0' + d as char else 'a' + d as char - 10 as char
  }

  function DigitValue(c: char): (d: int) {
    if '0' <= c <= '9' then c as int - '0' as int
    else if 'a' <= c <= 'z' then c as int - 'a' as int + 10
    else -1
  }

  function Chars(ds: seq<nat>): (s: string)
    requires forall k | 0 <= k < |ds| :: ds[k] < 36
    ensures |s| == |ds| && forall k | 0 <= k < |ds| :: s[k] == DigitChar(ds[k])
  {
    seq(|ds|, k requires 0 <= k < |ds| => DigitChar(ds[k]))
  }

  /** What is printed for an unsigned value. */
  function Printed(v: UInt64, r: Radix): string {
    DigitsAreNumeral(v, r);
    Chars(Digits(v, r))
  }

  /** Reading a printed text back by Horner's rule. */
  function Read(s: string, r: Radix): nat
    requires forall k | 0 <= k < |s| :: DigitValue(s[k]) >= 0
  {
    Horner(seq(|s|, k requires 0 <= k < |s| => DigitValue(s[k])), r)
  }

  /**
   The round trip: the printed text is made of digits of the radix, at most 64, has no zero in
   front, holds no NUL, and reads back as the value.
   */
  lemma ReadsBack(v: UInt64, r: Radix)
    ensures var s := Printed(v, r);
            |s| <= 64 && (forall k | 0 <= k < |s| :: 0 <= DigitValue(s[k]) < r && s[k] != '\0') &&
            (s != "" ==> s[0] != '0') && (s == "" <==> v == 0) && Read(s, r) == v
  {
    var s, ds := Printed(v, r), Digits(v, r);
    DigitsAreNumeral(v, r);
    WordSize();
    DigitCount(v, r, 64);
    HornerOfDigits(v, r);
    assert seq(|s|, k requires 0 <= k < |s| => DigitValue(s[k])) == ds;
  }

  /** Different values print differently, signed ones too. */
  lemma PrintingIsInjective(a: Int64, b: Int64, r: Radix)
    requires Printed(UnsignedView(a), r) == Printed(UnsignedView(b), r)
    ensures a == b
  {
    ReadsBack(UnsignedView(a), r);
    ReadsBack(UnsignedView(b), r);
  }

  // ------------------------------------------------ the loops

  lemma LastDigit(v: nat, r: Radix, ds: seq<nat>)
    requires v > 0 && ds == Digits(v, r)
    ensures 0 <= v / r < v && 0 <= v % r < r
    ensures ds != [] && ds[..|ds| - 1] == Digits(v / r, r) && ds[|ds| - 1] == v % r
  {
    Division(v, r);
    var init := Digits(v / r, r);
    assert ds == init + [v % r];
    assert |ds| - 1 == |init|;
  }

  /** The division loop; the last element of the sequence is the top of the stack. */
  method PushDigits(value: UInt64, r: Radix) returns (vx: seq<nat>)
    ensures |vx| == |Digits(value, r)| && forall k | 0 <= k < |vx| :: vx[k] == Digits(value, r)[|vx| - 1 - k]
  {
    var v: nat := value;
    vx := [];
    ghost var ds, left := Digits(value, r), Digits(value, r);
    while v != 0
      invariant left == Digits(v, r) && |left| + |vx| == |ds| && left == ds[..|left|]
      invariant forall k | 0 <= k < |vx| :: vx[k] == ds[|ds| - 1 - k]
    {
      LastDigit(v, r, left);
      left := left[..|left| - 1];
      vx := vx + [v % r];
      v := v / r;
    }
  }

  /** The pop loop: the text and its terminator go to the front of the buffer. */
  method PopDigits(stack: seq<nat>, buffer: array<char>, ghost ds: seq<nat>)
    requires |stack| == |ds| < buffer.Length && forall k | 0 <= k < |ds| :: ds[k] < 36
    requires forall k | 0 <= k < |stack| :: stack[k] == ds[|ds| - 1 - k]
    modifies buffer
    ensures buffer[..] == Chars(ds) + ['\0'] + old(buffer[|ds| + 1..])
  {
    var vx, at := stack, 0;
    while |vx| > 0
      invariant at + |vx| == |ds| && vx == stack[..|vx|]
      invariant forall k | 0 <= k < at :: buffer[k] == Chars(ds)[k]
      invariant forall k | at <= k < buffer.Length :: buffer[k] == old(buffer[k])
    {
      var top := vx[|vx| - 1];
      buffer[at] := DigitChar(top);
      vx := vx[..|vx| - 1];
      at := at + 1;
    }
    buffer[at] := '\0';
  }

  /** text is the numeral of value: digits of the radix, no zero in front, and value by Horner's rule. */
  ghost predicate IsNumeralOf(text: string, value: int, r: Radix) {
    |text| <= 64 && (forall k | 0 <= k < |text| :: 0 <= DigitValue(text[k]) < r) &&
    (text != "" ==> text[0] != '0') && Read(text, r) == value
  }

  /** A value has one numeral, and it is what is printed. */
  lemma NumeralUnique(text: string, v: UInt64, r: Radix)
    requires IsNumeralOf(text, v, r)
    ensures text == Printed(v, r)
  {
    var ds := seq(|text|, k requires 0 <= k < |text| => DigitValue(text[k]));
    if text != "" {
      assert ds[0] != 0;
    }
    DigitsOfHorner(ds, r);
    assert ds == Digits(v, r);
    DigitsAreNumeral(v, r);
    forall k | 0 <= k < |text|
      ensures text[k] == Printed(v, r)[k]
    {
      assert DigitValue(text[k]) == ds[k];
    }
  }

  /** The shape of every accepted call: n digits, a terminator, and the rest of the buffer as it was. */
  twostate predicate PrintsNumeral(buffer: array<char>, n: nat, value: int, r: Radix)
    reads buffer
  {
    n < buffer.Length && IsNumeralOf(buffer[..n], value, r) && buffer[n] == '\0' &&
    buffer[n + 1..] == old(buffer[n + 1..])
  }

  /** _ui64toa: the numeral of the value, unless the arguments are refused. */
  method Ui64toa(value: UInt64, buffer: array?<char>, radix: int) returns (ghost n: nat)
    requires radix != 10
    requires buffer != null && 2 <= radix <= 36 ==> |Printed(value, radix)| < buffer.Length
    modifies buffer
    ensures buffer != null && 2 <= radix <= 36 ==> PrintsNumeral(buffer, n, value, radix)
    ensures buffer != null && !(2 <= radix <= 36) ==> buffer[..] == old(buffer[..])
  {
    if buffer == null || radix < 2 || radix > 36 {
      return 0;
    }
    n := PrintUnsigned(value, buffer, radix);
  }

  /** _i64toa: a negative value comes out as the numeral of value + 2^64, without a sign. */
  method I64toa(value: Int64, buffer: array?<char>, radix: int) returns (ghost n: nat)
    requires radix != 10
    requires buffer != null && 2 <= radix <= 36 ==> |Printed(UnsignedView(value), radix)| < buffer.Length
    modifies buffer
    ensures buffer != null && 2 <= radix <= 36 && 0 <= value ==> PrintsNumeral(buffer, n, value, radix)
    ensures buffer != null && 2 <= radix <= 36 && value < 0 ==>
              PrintsNumeral(buffer, n, value + 0x1_0000_0000_0000_0000, radix)
    ensures buffer != null && !(2 <= radix <= 36) ==> buffer[..] == old(buffer[..])
  {
    if buffer == null || radix < 2 || radix > 36 {
      return 0;
    }
    var t := UnsignedView(value);
    n := PrintUnsigned(t, buffer, radix);
  }

  /** The loops that both functions share. */
  method PrintUnsigned(value: UInt64, buffer: array<char>, r: Radix) returns (ghost n: nat)
    requires |Printed(value, r)| < buffer.Length
    modifies buffer
    ensures PrintsNumeral(buffer, n, value, r)
  {
    DigitsAreNumeral(value, r);
    ReadsBack(value, r);
    n := |Digits(value, r)|;
    var vx := PushDigits(value, r);
    PopDigits(vx, buffer, Digits(value, r));
    assert buffer[..n] == Printed(value, r);
    assert buffer[n] == buffer[..][n];
  }
}
