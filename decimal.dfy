/** The `%d` conversion of `format_str`: an integer written in decimal,
    with a leading `-` when it is negative, and a reader that takes such
    text back to the number. */
module Decimal {

  predicate IsDigit(c: char)
  {
    '0' <= c <= '9'
  }

  function DigitChar(d: nat): (c: char)
    requires d < 10
    ensures IsDigit(c) && (c as int) - ('0' as int) == d
  {
    ['0', '1', '2', '3', '4', '5', '6', '7', '8', '9'][d]
  }

  /** The decimal digits of `n`, most significant first, without leading zeros. */
  function NatToDecimal(n: nat): (s: string)
    ensures 1 <= |s|
    ensures forall i :: 0 <= i < |s| ==> IsDigit(s[i])
    ensures s[0] != '0' || n == 0
  {
    if n < 10 then [DigitChar(n)] else NatToDecimal(n / 10) + [DigitChar(n % 10)]
  }

  /** The number a string of digits spells. */
  function DecimalToNat(s: string): nat
  {
    if |s| == 0 then 0
    else DecimalToNat(s[..|s| - 1]) * 10
         + (if IsDigit(s[|s| - 1]) then (s[|s| - 1] as int) - ('0' as int) else 0)
  }

  /** `%d` of a signed integer. */
  function IntToDecimal(i: int): (s: string)
    ensures 1 <= |s|
    ensures s[0] == '-' <==> i < 0
    ensures forall k :: 0 <= k < |s| ==> s[k] != '/' && s[k] != ')' && s[k] != '('
  {
    if i < 0 then "-" + NatToDecimal(-i) else NatToDecimal(i)
  }

  function DecimalToInt(s: string): int
  {
    if 0 < |s| && s[0] == '-' then -(DecimalToNat(s[1..]) as int) else DecimalToNat(s)
  }

  lemma {:induction false} NatRoundTrip(n: nat)
    ensures DecimalToNat(NatToDecimal(n)) == n
  {
    if n >= 10 {
      var s := NatToDecimal(n);
      assert s[..|s| - 1] == NatToDecimal(n / 10);
      NatRoundTrip(n / 10);
    }
  }

  /** Reading back what `%d` wrote gives the number; so different numbers
      are written differently. */
  lemma IntRoundTrip(i: int, j: int)
    ensures DecimalToInt(IntToDecimal(i)) == i
    ensures IntToDecimal(i) == IntToDecimal(j) ==> i == j
  {
    RoundTripOne(i);
    RoundTripOne(j);
  }

  lemma RoundTripOne(i: int)
    ensures DecimalToInt(IntToDecimal(i)) == i
  {
    if i < 0 {
      NegativeRoundTrip(i);
    } else {
      NonNegativeRoundTrip(i);
    }
  }

  lemma NegativeRoundTrip(i: int)
    requires i < 0
    ensures DecimalToInt(IntToDecimal(i)) == i
  {
    var digits := NatToDecimal(-i);
    assert IntToDecimal(i) == "-" + digits;
    MinusSign(digits);
    NatRoundTrip(-i);
  }

  /** A leading minus sign negates the number that follows it. */
  lemma MinusSign(digits: string)
    ensures DecimalToInt("-" + digits) == -(DecimalToNat(digits) as int)
  {
    var s := "-" + digits;
    assert s[0] == '-' && s[1..] == digits;
  }

  lemma NonNegativeRoundTrip(i: int)
    requires 0 <= i
    ensures DecimalToInt(IntToDecimal(i)) == i
  {
    var s := NatToDecimal(i);
    assert IntToDecimal(i) == s;
    assert IsDigit(s[0]);
    NatRoundTrip(i);
  }

}
