/**
 * The few pieces of the Kotlin standard library that the score logic relies on:
 * 32-bit `Int` arithmetic, `String.toIntOrNull()`, `Int.toString()`,
 * `trimStart('0')`, `take(n)` and `uppercase()`.
 */
module Primitives {

  datatype Option<+T> = None | Some(value: T)

  datatype Result<+T, +E> = Success(value: T) | Failure(error: E)

  const MinInt32: int := -0x8000_0000
  const MaxInt32: int := 0x7FFF_FFFF
  const Modulus32: int := 0x1_0000_0000

  /** Kotlin's `Int`. */
  type Int32 = x: int | MinInt32 <= x <= MaxInt32

  /** Two's-complement wrap-around of an exact result into `Int`. */
  function Wrap32(x: int): (r: Int32)
    ensures MinInt32 <= x <= MaxInt32 ==> r == x
    ensures (x - r) % Modulus32 == 0
  {
    var k := (x - MinInt32) / Modulus32;
    assert x - MinInt32 == k * Modulus32 + (x - MinInt32) % Modulus32;
    (x - MinInt32) % Modulus32 + MinInt32
  }

  // ---------------------------------------------------------------------------
  // Decimal digits

  predicate IsDigit(c: char) { '0' <= c <= '9' }

  predicate AllDigits(s: string) { forall i | 0 <= i < |s| :: IsDigit(s[i]) }

  function DigitValue(c: char): nat
    requires IsDigit(c)
  {
    c as int - '0' as int
  }

  function DigitChar(d: nat): (c: char)
    requires d < 10
    ensures IsDigit(c) && DigitValue(c) == d
  {
    ('0' as int + d) as char
  }

  /** The value of a string of decimal digits, most significant first. */
  function DigitsValue(s: string): nat
    requires AllDigits(s)
  {
    if s == [] then 0 else DigitsValue(s[..|s| - 1]) * 10 + DigitValue(s[|s| - 1])
  }

  /** Leading zeros do not change the value of a digit string. */
  lemma {:induction false} DigitsValueLeadingZero(s: string)
    requires AllDigits(s)
    ensures AllDigits("0" + s) && DigitsValue("0" + s) == DigitsValue(s)
  {
    if s != [] {
      var t := s[..|s| - 1];
      DigitsValueLeadingZero(t);
      assert ("0" + s)[..|"0" + s| - 1] == "0" + t;
    }
  }

  /** `String.toIntOrNull()`: an optional sign, at least one ASCII digit, and a value inside `Int`. */
  function ParseInt(s: string): Option<Int32>
  {
    if |s| == 0 then None
    else if s[0] == '-' || s[0] == '+' then
      var body := s[1..];
      if body == [] || !AllDigits(body) then None
      else
        var m: int := if s[0] == '-' then -(DigitsValue(body) as int) else DigitsValue(body);
        if MinInt32 <= m <= MaxInt32 then Some(m) else None
    else if !AllDigits(s) then None
    else if DigitsValue(s) <= MaxInt32 then Some(DigitsValue(s)) else None
  }

  /** The decimal digits of `n`, without leading zeros. */
  function NatToDigits(n: nat): (s: string)
    ensures |s| >= 1 && AllDigits(s)
    ensures DigitsValue(s) == n
    ensures s[0] == '0' ==> n == 0
  {
    if n < 10 then [DigitChar(n)]
    else
      var front := NatToDigits(n / 10);
      var s := front + [DigitChar(n % 10)];
      assert s[..|s| - 1] == front;
      s
  }

  /** `Int.toString()`. */
  function IntToString(v: int): string
  {
    if v < 0 then "-" + NatToDigits(-v) else NatToDigits(v)
  }

  /** `toIntOrNull` reads back every `toString` of an `Int`. */
  lemma IntToStringRoundTrip(v: Int32)
    ensures ParseInt(IntToString(v)) == Some(v)
  {
    var s := IntToString(v);
    if v < 0 {
      var n: nat := -(v as int);
      assert s[1..] == NatToDigits(n);
    } else {
      var d := NatToDigits(v);
      assert IsDigit(d[0]);
    }
  }

  /** `toString` of an `Int` never starts with the digit zero unless the value is zero. */
  lemma IntToStringNoLeadingZero(v: int)
    requires v != 0
    ensures IntToString(v) != [] && IntToString(v)[0] != '0'
  {
  }

  // ---------------------------------------------------------------------------
  // Strings

  /** `trimStart('0')`: drops every leading zero character. */
  function TrimLeadingZeros(s: string): (r: string)
    ensures |r| <= |s| && r == s[|s| - |r|..]
    ensures forall i | 0 <= i < |s| - |r| :: s[i] == '0'
    ensures r == [] || r[0] != '0'
  {
    if s != [] && s[0] == '0' then TrimLeadingZeros(s[1..]) else s
  }

  /** Trimming the zeros in front of a digit string keeps its value. */
  lemma {:induction false} TrimKeepsDigitsValue(s: string)
    requires AllDigits(s)
    ensures AllDigits(TrimLeadingZeros(s)) && DigitsValue(TrimLeadingZeros(s)) == DigitsValue(s)
  {
    if s != [] && s[0] == '0' {
      var t := s[1..];
      assert s == "0" + t;
      TrimKeepsDigitsValue(t);
      DigitsValueLeadingZero(t);
    }
  }

  /** `take(n)`. */
  function Take(s: string, n: nat): (r: string)
    ensures |r| <= n && |r| <= |s| && r == s[..|r|]
    ensures |s| >= n ==> |r| == n
  {
    if |s| <= n then s else s[..n]
  }

  function UpperChar(c: char): char
  {
    if 'a' <= c <= 'z' then (c as int - 32) as char else c
  }

  /** `uppercase()` restricted to the ASCII letters. */
  function Uppercase(s: string): (r: string)
    ensures |r| == |s|
    ensures forall i | 0 <= i < |s| :: r[i] == UpperChar(s[i])
  {
    seq(|s|, i requires 0 <= i < |s| => UpperChar(s[i]))
  }
}
