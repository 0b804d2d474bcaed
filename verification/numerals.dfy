/** Decimal numerals as the formatters of the sources print them. */
module Numerals {
  import opened Words

  const ZERO: byte := '0' as int

  predicate IsNumeral(c: byte) { 0x30 <= c <= 0x39 }

  function Decimal(n: nat): (d: seq<byte>)
    ensures |d| >= 1
  {
    if n < 10 then [ZERO + n] else Decimal(n / 10) + [ZERO + n % 10]
  }

  function Pow10(k: nat): (p: nat)
    ensures p >= 1
  {
    if k == 0 then 1 else 10 * Pow10(k - 1)
  }

  /** The number a numeral denotes. */
  function NumeralValue(d: seq<byte>): int {
    if d == [] then 0 else 10 * NumeralValue(d[..|d| - 1]) + d[|d| - 1] - 0x30
  }

  lemma {:induction false} ValueOfDecimal(n: nat)
    ensures NumeralValue(Decimal(n)) == n
  {
    if n >= 10 {
      ValueOfDecimal(n / 10);
      assert Decimal(n)[..|Decimal(n)| - 1] == Decimal(n / 10);
    }
  }

  lemma {:induction false} DecimalIsNumeral(n: nat)
    ensures forall i | 0 <= i < |Decimal(n)| :: IsNumeral(Decimal(n)[i])
    ensures Decimal(n)[0] == ZERO <==> n == 0
    ensures n == 0 ==> Decimal(n) == [ZERO]
  {
    if n >= 10 {
      DecimalIsNumeral(n / 10);
    }
  }

  lemma {:induction false} DecimalLength(n: nat, k: nat)
    requires k >= 1
    ensures |Decimal(n)| <= k <==> n < Pow10(k)
  {
    if k == 1 {
      assert Pow10(1) == 10;
    } else if n >= 10 {
      DecimalLength(n / 10, k - 1);
    }
  }

  /** The numeral of `n`, zero-filled on the left to at least `width` characters. */
  function ZeroFilled(n: nat, width: nat): (d: seq<byte>)
    ensures |d| == if |Decimal(n)| < width then width else |Decimal(n)|
  {
    var digits := Decimal(n);
    if |digits| >= width then digits else seq(width - |digits|, _ => ZERO) + digits
  }

  lemma {:induction false} ZeroFilledValue(n: nat, width: nat)
    ensures NumeralValue(ZeroFilled(n, width)) == n
  {
    ValueOfDecimal(n);
    var digits := Decimal(n);
    if |digits| < width {
      LeadingZeros(width - |digits|, digits);
    }
  }

  lemma {:induction false} LeadingZeros(k: nat, d: seq<byte>)
    ensures NumeralValue(seq(k, _ => ZERO) + d) == NumeralValue(d)
  {
    var zeros: seq<byte> := seq(k, _ => ZERO);
    if d != [] {
      assert (zeros + d)[..|zeros + d| - 1] == zeros + d[..|d| - 1];
      LeadingZeros(k, d[..|d| - 1]);
    } else if k > 0 {
      assert (zeros + d)[..k - 1] == seq(k - 1, _ => ZERO) + d;
      LeadingZeros(k - 1, d);
    }
  }

  /** The numeral of a signed number. */
  function Signed(n: int): (d: seq<byte>)
    ensures |d| >= 1
  {
    if n < 0 then ['-' as int] + Decimal(-n) else Decimal(n)
  }
}
