/** Positional numerals: what the formatter prints, strftime shows and the scanner reads back. */
module NumberText {
  import CArith

  function DigitChar(d: int, upper: bool): char
    requires 0 <= d < 16
  {
    if upper then "0123456789ABCDEF"[d] else "0123456789abcdef"[d]
  }

  /** The numeral of n, most significant digit first, without leading zeros. */
  function Digits(n: nat, base: nat, upper: bool): (s: string)
    requires 2 <= base <= 16
    ensures |s| >= 1 && '\0' !in s
    ensures n == 0 ==> s == "0"
    decreases n
  {
    if n < base then [DigitChar(n, upper)]
    else
      QuotientShrinks(n, base);
      Digits(n / base, base, upper) + [DigitChar(n % base, upper)]
  }

  lemma QuotientShrinks(n: nat, base: nat)
    requires 2 <= base <= n
    ensures 0 < n / base < n
  {
    var q := n / base;
    assert n == q * base + n % base;
    assert q * base >= q * 2;
  }

  function Power(base: nat, k: nat): nat {
    if k == 0 then 1 else base * Power(base, k - 1)
  }

  /** A number below base^k has at most k digits. */
  lemma {:induction false} DigitCount(n: nat, base: nat, upper: bool, k: nat)
    requires 2 <= base <= 16 && k >= 1
    requires n < Power(base, k)
    ensures |Digits(n, base, upper)| <= k
    decreases k
  {
    if n >= base {
      var q, p := n / base, Power(base, k - 1);
      assert base * q <= n < base * p;
      FactorBound(q, p, base);
      DigitCount(q, base, upper, k - 1);
    }
  }

  lemma FactorBound(q: nat, p: nat, base: nat)
    requires base * q < base * p
    ensures q < p
  {
    if q >= p {
      CArith.MulMonotone(p, q, base);
      assert false;
    }
  }

  function Reverse(s: string): (r: string)
    ensures |r| == |s|
  {
    seq(|s|, i requires 0 <= i < |s| => s[|s| - 1 - i])
  }

  lemma ReverseAppend(s: string, c: char)
    ensures Reverse(s + [c]) == [c] + Reverse(s)
  {
  }
}
