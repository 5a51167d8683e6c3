/** Numbers as decimal digits, the way `%d` prints them. */
module Decimals {

  predicate Digit(c: char) { '0' <= c <= '9' }

  predicate AllDigits(d: string) { forall i | 0 <= i < |d| :: Digit(d[i]) }

  function Number(d: string): nat
    requires AllDigits(d)
  {
    if d == "" then 0 else 10 * Number(d[..|d| - 1]) + (d[|d| - 1] - '0') as nat
  }

  function DigitChar(n: nat): (c: char)
    requires n < 10
    ensures Digit(c) && (c - '0') as nat == n
  {
    '0' + n as char
  }

  function Decimal(n: nat): (d: string)
    ensures d != "" && AllDigits(d)
  {
    if n < 10 then [DigitChar(n)] else Decimal(n / 10) + [DigitChar(n % 10)]
  }

  lemma {:induction false} NumberOfDecimal(n: nat)
    ensures Number(Decimal(n)) == n
  {
    if n >= 10 {
      NumberOfDecimal(n / 10);
      var d := Decimal(n / 10);
      assert (d + [DigitChar(n % 10)])[..|d|] == d;
    } else {
      assert [DigitChar(n)][..0] == "";
    }
  }

  function Power10(k: nat): nat { if k == 0 then 1 else 10 * Power10(k - 1) }

  lemma {:induction false} DecimalLength(n: nat, k: nat)
    requires k >= 1 && n < Power10(k)
    ensures |Decimal(n)| <= k
  {
    if n >= 10 {
      assert k > 1 by { assert Power10(0) == 1; }
      DecimalLength(n / 10, k - 1);
    }
  }

  /** An unsigned number of 32 bits, printed with `%d`: as a signed one. */
  function PrintedSigned(n: nat): string {
    if n < 0x8000_0000 then Decimal(n) else "-" + Decimal(if n < 0x1_0000_0000 then 0x1_0000_0000 - n else 0)
  }

  /** 31 bits take ten digits at most. */
  lemma TenDigits(n: nat)
    requires n <= 0x8000_0000
    ensures |Decimal(n)| <= 10
  {
    assert Power10(10) == 10 * Power10(9) == 100 * Power10(8) == 1000 * Power10(7) == 10000 * Power10(6)
      == 100000 * Power10(5);
    assert Power10(5) == 10 * Power10(4) == 100 * Power10(3) == 1000 * Power10(2) == 10000 * Power10(1)
      == 100000 * Power10(0);
    DecimalLength(n, 10);
  }
}
