/**
  Decimal notation of integers, and reading it back: the shortest notation of a natural
  number, the notation of an integer with its sign, the notations with at least two and at
  least four digits that dates and clock times are printed in, and the number a run of
  digits stands for. Every notation is read back as the number it was written from, leading
  zeros included; the parsers and printers of literals, of period keys and of clock times
  are built on it.
 */
module Decimals {

  predicate IsDigit(c: char) { '0' <= c <= '9' }

  predicate AllDigits(s: string) { forall i :: 0 <= i < |s| ==> IsDigit(s[i]) }

  function DigitChar(d: nat): (c: char)
    requires d < 10
    ensures IsDigit(c)
  {
    ('0' as int + d) as char
  }

  function Digits(n: nat): string {
    if n < 10 then [DigitChar(n)] else Digits(n / 10) + [DigitChar(n % 10)]
  }

  function ReadDigits(s: string): nat
    requires AllDigits(s)
  {
    if s == [] then 0 else 10 * ReadDigits(s[..|s| - 1]) + (s[|s| - 1] as int - '0' as int)
  }

  lemma {:induction false} DigitsRoundTrip(n: nat)
    ensures Digits(n) != [] && AllDigits(Digits(n)) && ReadDigits(Digits(n)) == n
  {
    if n < 10 {
      assert Digits(n)[..0] == [];
      assert ReadDigits([]) == 0;
    } else {
      DigitsRoundTrip(n / 10);
      assert Digits(n)[..|Digits(n)| - 1] == Digits(n / 10);
    }
  }

  function IntText(i: int): string {
    if i < 0 then "-" + Digits(-i) else Digits(i)
  }

  /** At least two digits. */
  function TwoDigits(n: nat): string {
    if n < 10 then "0" + Digits(n) else Digits(n)
  }

  /** At least four digits. */
  function FourDigits(n: nat): string {
    if n < 10 then "000" + Digits(n) else if n < 100 then "00" + Digits(n) else if n < 1000 then "0" + Digits(n)
    else Digits(n)
  }

  lemma {:induction false} LeadingZero(s: string)
    requires AllDigits(s)
    ensures AllDigits("0" + s) && ReadDigits("0" + s) == ReadDigits(s)
  {
    if s == [] {
      assert ("0" + s)[..0] == [];
      assert ReadDigits([]) == 0;
    } else {
      LeadingZero(s[..|s| - 1]);
      assert ("0" + s)[..|s|] == "0" + s[..|s| - 1];
    }
  }

  lemma TwoDigitsRoundTrip(n: nat)
    ensures AllDigits(TwoDigits(n)) && ReadDigits(TwoDigits(n)) == n
  {
    DigitsRoundTrip(n);
    LeadingZero(Digits(n));
  }

  lemma FourDigitsRoundTrip(n: nat)
    ensures AllDigits(FourDigits(n)) && ReadDigits(FourDigits(n)) == n
  {
    DigitsRoundTrip(n);
    LeadingZero(Digits(n));
    LeadingZero("0" + Digits(n));
    LeadingZero("0" + ("0" + Digits(n)));
    assert "0" + ("0" + Digits(n)) == "00" + Digits(n);
    assert "0" + ("0" + ("0" + Digits(n))) == "000" + Digits(n);
  }

  /** The shortest notation: no zero in front. */
  lemma {:induction false} NoLeadingZero(n: nat)
    ensures Digits(n) != [] && (Digits(n)[0] == '0' <==> n == 0)
  {
    if n >= 10 {
      NoLeadingZero(n / 10);
      assert Digits(n)[0] == Digits(n / 10)[0];
    }
  }

  lemma Widths(n: nat)
    ensures n < 100 ==> |TwoDigits(n)| == 2
    ensures n < 10000 ==> |FourDigits(n)| == 4
  {
    DigitCount(n);
  }

  lemma DigitCount(n: nat)
    ensures |Digits(n)| == 1 <==> n < 10
    ensures |Digits(n)| == 2 <==> 10 <= n < 100
    ensures |Digits(n)| == 3 <==> 100 <= n < 1000
    ensures |Digits(n)| == 4 <==> 1000 <= n < 10000
  {
    assert n < 100 ==> n / 10 < 10;
    assert n < 1000 ==> n / 10 / 10 < 10;
    assert n < 10000 ==> n / 10 / 10 / 10 < 10;
    DigitsNonempty(n / 10);
    DigitsNonempty(n / 10 / 10);
    DigitsNonempty(n / 10 / 10 / 10);
    DigitsNonempty(n / 10 / 10 / 10 / 10);
  }

  lemma DigitsNonempty(n: nat)
    ensures Digits(n) != []
    ensures n >= 10 ==> |Digits(n)| == |Digits(n / 10)| + 1
  {
  }
}
