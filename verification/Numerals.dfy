/**
 Positional numerals in the two bases that text formats use (decimal lengths
 and octal header fields), written most significant digit first in ASCII.
 */
module Numerals {
  import opened Base

  datatype Radix = Octal | Decimal {
    function Size(): (r: nat)
      ensures 8 <= r <= 10
    {
      if Octal? then 8 else 10
    }

    function Times(n: nat): nat {
      if Octal? then 8 * n else 10 * n
    }

    function Quotient(n: nat): (q: nat)
      ensures Times(q) <= n
      ensures n >= Size() ==> 0 < q < n
    {
      if Octal? then n / 8 else n / 10
    }

    function Remainder(n: nat): (r: nat)
      ensures r < Size() && n == Times(Quotient(n)) + r
    {
      if Octal? then n % 8 else n % 10
    }
  }

  const DIGIT_ZERO: Byte := 48

  function Digit(n: nat): Byte
    requires n < 10
  {
    DIGIT_ZERO + n as Byte
  }

  /** `n.to_string()` for decimal and `{n:o}` for octal. */
  function Digits(n: nat, radix: Radix): (r: Bytes)
    ensures |r| >= 1
  {
    if n < radix.Size() then [Digit(n)]
    else Digits(radix.Quotient(n), radix) + [Digit(radix.Remainder(n))]
  }

  predicate IsDigit(b: Byte, radix: Radix) {
    DIGIT_ZERO <= b && (b as int) < DIGIT_ZERO as int + radix.Size()
  }

  function ParseDigits(s: Bytes, radix: Radix): Option<nat> {
    if s == [] || !IsDigit(s[|s| - 1], radix) then None
    else if |s| == 1 then Some((s[0] - DIGIT_ZERO) as nat)
    else
      match ParseDigits(s[..|s| - 1], radix)
      case None => None
      case Some(v) => Some(radix.Times(v) + (s[|s| - 1] - DIGIT_ZERO) as nat)
  }

  lemma ParseAppended(front: Bytes, digit: nat, radix: Radix)
    requires digit < radix.Size() && front != []
    ensures ParseDigits(front + [Digit(digit)], radix) ==
            match ParseDigits(front, radix)
            case None => None
            case Some(v) => Some(radix.Times(v) + digit)
  {
    assert (front + [Digit(digit)])[..|front|] == front;
  }

  /** Leading zeros do not change the value a numeral denotes. */
  lemma {:induction false} ParseOfPadded(zeros: Bytes, n: nat, radix: Radix)
    requires forall i | 0 <= i < |zeros| :: zeros[i] == DIGIT_ZERO
    ensures ParseDigits(zeros + Digits(n, radix), radix) == Some(n)
    decreases n
  {
    if n >= radix.Size() {
      var front := zeros + Digits(radix.Quotient(n), radix);
      ParseOfPadded(zeros, radix.Quotient(n), radix);
      ParseAppended(front, radix.Remainder(n), radix);
      assert front + [Digit(radix.Remainder(n))] == zeros + Digits(n, radix);
    } else {
      ParseOfPaddedDigit(zeros, n, radix);
    }
  }

  lemma ParseOfPaddedDigit(zeros: Bytes, n: nat, radix: Radix)
    requires n < radix.Size() && forall i | 0 <= i < |zeros| :: zeros[i] == DIGIT_ZERO
    ensures ParseDigits(zeros + [Digit(n)], radix) == Some(n)
  {
    if zeros == [] {
      assert zeros + [Digit(n)] == [Digit(n)];
    } else {
      ParseZeros(zeros, radix);
      ParseAppended(zeros, n, radix);
    }
  }

  lemma ParseOfDigits(n: nat, radix: Radix)
    ensures ParseDigits(Digits(n, radix), radix) == Some(n)
  {
    ParseOfPadded([], n, radix);
    assert [] + Digits(n, radix) == Digits(n, radix);
  }

  lemma {:induction false} ParseZeros(zeros: Bytes, radix: Radix)
    requires zeros != [] && forall i | 0 <= i < |zeros| :: zeros[i] == DIGIT_ZERO
    ensures ParseDigits(zeros, radix) == Some(0)
  {
    if |zeros| > 1 {
      ParseZeros(zeros[..|zeros| - 1], radix);
    }
  }

  lemma {:induction false} DigitsAreDigits(n: nat, radix: Radix)
    ensures forall i | 0 <= i < |Digits(n, radix)| :: IsDigit(Digits(n, radix)[i], radix)
    decreases n
  {
    if n >= radix.Size() {
      DigitsAreDigits(radix.Quotient(n), radix);
    }
  }

  lemma {:induction false} DigitsMonotone(m: nat, n: nat, radix: Radix)
    requires m <= n
    ensures |Digits(m, radix)| <= |Digits(n, radix)|
    decreases n
  {
    if m >= radix.Size() {
      DigitsMonotone(radix.Quotient(m), radix.Quotient(n), radix);
    }
  }

  /** A decimal numeral is at most half as long as its value, plus one. */
  lemma {:induction false} DecimalLengthBound(n: nat)
    ensures |Digits(n, Decimal)| <= n / 2 + 1
  {
    if n >= 10 {
      DecimalLengthBound(n / 10);
    }
  }

  /** The first value that no longer fits in `width` digits. */
  function Capacity(radix: Radix, width: nat): (r: nat)
    ensures r > 0
  {
    if width == 0 then 1 else radix.Times(Capacity(radix, width - 1))
  }

  lemma {:induction false} DigitsFit(n: nat, radix: Radix, width: nat)
    requires width > 0
    ensures |Digits(n, radix)| <= width <==> n < Capacity(radix, width)
    decreases width
  {
    if width > 1 && n >= radix.Size() {
      DigitsFit(radix.Quotient(n), radix, width - 1);
    } else if width == 1 {
      assert Capacity(radix, 1) == radix.Times(Capacity(radix, 0)) == radix.Size();
    }
  }
}
