/** Decimal printing without the C library (asNumDigits and asitoa in pxr/base/arch/stackTrace.cpp). */
module Decimals {

  const LONG_MAX: int := 0x7fff_ffff_ffff_ffff

  /** digits10 of long, and the four more places of numericBufferSize. */
  const NUMERIC_BUFFER_SIZE: nat := 18 + 1 + 1 + 1 + 1

  /** A long whose negation is one. */
  type Long = x: int | -LONG_MAX <= x <= LONG_MAX

  function Digit(d: nat): char
    requires d < 10
  {
    '0' + d as char
  }

  /** Without leading zeros, so that zero has no digits. */
  function DigitsOf(n: nat): string {
    if n == 0 then [] else DigitsOf(n / 10) + [Digit(n % 10)]
  }

  function Decimal(x: int): string {
    if x == 0 then "0" else if x < 0 then "-" + DigitsOf(-x) else DigitsOf(x)
  }

  // ---------------------------------------------------------------- reading back

  function ValueOf(s: string): int {
    if s == [] then 0 else 10 * ValueOf(s[..|s| - 1]) + (s[|s| - 1] as int - '0' as int)
  }

  /** What strtol makes of a printed number. */
  function Parse(s: string): int {
    if s != [] && s[0] == '-' then -ValueOf(s[1..]) else ValueOf(s)
  }

  predicate AllDigits(s: string) {
    forall i | 0 <= i < |s| :: '0' <= s[i] <= '9'
  }

  lemma {:induction false} ValueOfDigits(n: nat)
    ensures ValueOf(DigitsOf(n)) == n && AllDigits(DigitsOf(n))
  {
    if n > 0 {
      ValueOfDigits(n / 10);
      var s := DigitsOf(n);
      assert s[..|s| - 1] == DigitsOf(n / 10);
    }
  }

  lemma SignReads(digits: string)
    requires AllDigits(digits)
    ensures Parse("-" + digits) == -ValueOf(digits) && Parse(digits) == ValueOf(digits)
    ensures '\0' !in "-" + digits && '\0' !in digits
  {
    assert ("-" + digits)[1..] == digits;
  }

  lemma ZeroReads()
    ensures Parse("0") == 0 && '\0' !in "0"
  {
    assert ValueOf("0") == 10 * ValueOf([]) + 0;
  }

  /** Printing loses nothing: the number reads back, whatever its sign. */
  lemma ParsesBack(x: int)
    ensures Parse(Decimal(x)) == x
    ensures '\0' !in Decimal(x)
  {
    var n := if x < 0 then -x else x;
    if x == 0 {
      ZeroReads();
    } else {
      ValueOfDigits(n);
      SignReads(DigitsOf(n));
    }
  }

  // ---------------------------------------------------------------- lengths

  function TenTo(k: nat): nat {
    if k == 0 then 1 else 10 * TenTo(k - 1)
  }

  lemma {:induction false} FewDigits(n: nat, k: nat)
    requires n < TenTo(k)
    ensures |DigitsOf(n)| <= k
  {
    if n > 0 {
      FewDigits(n / 10, k - 1);
    }
  }

  /** Every printed long fits the buffer that aswriteLong gives it, with its NUL. */
  lemma FitsNumericBuffer(x: Long)
    ensures |Decimal(x)| + 1 <= NUMERIC_BUFFER_SIZE
  {
    assert TenTo(5) == 10_0000;
    assert TenTo(10) == 100_0000_0000;
    assert TenTo(15) == 1000_0000_0000_0000;
    assert TenTo(19) == 1000_0000_0000_0000_0000;
    FewDigits(if x < 0 then -x else x, 19);
  }

  /** asNumDigits */
  method AsNumDigits(x: Long) returns (result: nat)
    ensures result == |Decimal(x)|
  {
    var rest := x;
    result := 1;
    if rest < 0 {
      rest := -rest;
      result := result + 1;
    }
    ghost var sign := result - 1;
    while rest >= 10
      invariant rest >= 0 && (x != 0 ==> rest > 0 && result + |DigitsOf(rest)| - 1 == |Decimal(x)|)
      invariant x == 0 ==> rest == 0 && result == 1
    {
      result := result + 1;
      rest := rest / 10;
    }
    assert rest > 0 ==> DigitsOf(rest) == DigitsOf(0) + [Digit(rest)];
  }

  // ---------------------------------------------------------------- printing

  /** The loop of asitoa: digits from the ones' column backwards. */
  method WriteDigits(buf: array<char>, start: nat, end: nat, x: Long)
    requires 0 <= x && start + |DigitsOf(x)| == end <= buf.Length
    modifies buf
    ensures forall i | start <= i < end :: buf[i] == DigitsOf(x)[i - start]
    ensures forall i | 0 <= i < buf.Length && !(start <= i < end) :: buf[i] == old(buf[i])
  {
    var rest, s := x, end;
    ghost var digits := DigitsOf(x);
    while rest > 0
      invariant 0 <= rest && start <= s <= end
      invariant DigitsOf(rest) == digits[..s - start]
      invariant forall i | s <= i < end :: buf[i] == digits[i - start]
      invariant forall i | 0 <= i < buf.Length && !(s <= i < end) :: buf[i] == old(buf[i])
    {
      assert DigitsOf(rest) == DigitsOf(rest / 10) + [Digit(rest % 10)];
      s := s - 1;
      assert DigitsOf(rest)[s - start] == digits[s - start];
      buf[s] := Digit(rest % 10);
      rest := rest / 10;
      assert digits[..s - start] == digits[..s + 1 - start][..s - start];
    }
  }

  /** asitoa: prints x at a place of the buffer, with a NUL after it, and gives back the NUL's place. */
  method AsItoa(buf: array<char>, start: nat, x: Long) returns (end: nat)
    requires start + |Decimal(x)| < buf.Length
    modifies buf
    ensures end == start + |Decimal(x)| && buf[end] == '\0'
    ensures forall i | start <= i < end :: buf[i] == Decimal(x)[i - start]
    ensures forall i | 0 <= i < buf.Length && !(start <= i <= end) :: buf[i] == old(buf[i])
  {
    if x == 0 {
      buf[start] := '0';
      buf[start + 1] := '\0';
      return start + 1;
    }
    var rest, s := x, start;
    if rest < 0 {
      rest := -rest;
      buf[s] := '-';
      s := s + 1;
    }
    var n := AsNumDigits(rest);
    end := s + n;
    buf[end] := '\0';
    WriteDigits(buf, s, end, rest);
  }
}
