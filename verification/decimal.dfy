/** Decimal rendering of the 1-based failure position, as `format!("{}", i)`
    renders a `usize` (src/lib.rs:48, src/lib.rs:78), and the reading of such a
    rendering back into a number. */
module Decimal {

  predicate IsDigit(c: char) {
    '0' <= c <= '9'
  }

  predicate AllDigits(s: string) {
    forall j :: 0 <= j < |s| ==> IsDigit(s[j])
  }

  function DigitChar(d: nat): (c: char)
    requires d < 10
    ensures IsDigit(c)
  {
    ('0' as int + d) as char
  }

  function DigitValue(c: char): (d: nat)
    requires IsDigit(c)
    ensures d < 10
  {
    c as int - '0' as int
  }

  function Pow10(k: nat): (p: nat)
    ensures p >= 1
  {
    if k == 0 then 1 else 10 * Pow10(k - 1)
  }

  /** The decimal rendering: at least one digit, only digits, and a leading
      zero exactly when the number is zero. */
  function Dec(n: nat): (s: string)
    ensures 1 <= |s|
    ensures AllDigits(s)
    ensures (s[0] == '0') <==> (n == 0)
    decreases n
  {
    if n < 10 then [DigitChar(n)] else Dec(n / 10) + [DigitChar(n % 10)]
  }

  /** The value a string of digits denotes, most significant digit first. */
  function Parse(s: string): nat
    requires AllDigits(s)
    decreases |s|
  {
    if |s| == 0 then 0 else Parse(s[..|s| - 1]) * 10 + DigitValue(s[|s| - 1])
  }

  /** Reading a rendering back gives the number that was rendered. */
  lemma {:induction false} ParseDec(n: nat)
    ensures Parse(Dec(n)) == n
    decreases n
  {
    if n >= 10 {
      var s := Dec(n);
      assert s[..|s| - 1] == Dec(n / 10);
      ParseDec(n / 10);
      assert DigitValue(DigitChar(n % 10)) == n % 10;
    } else {
      assert DigitValue(DigitChar(n)) == n;
    }
  }

  /** The rendering has exactly as many characters as the number has decimal
      digits: the width w satisfies 10^(w-1) <= n < 10^w (for n > 0). */
  lemma {:induction false} DecWidth(n: nat)
    ensures n < Pow10(|Dec(n)|)
    ensures n == 0 || Pow10(|Dec(n)| - 1) <= n
    decreases n
  {
    if n >= 10 {
      DecWidth(n / 10);
      var w := |Dec(n / 10)|;
      assert |Dec(n)| == w + 1;
      assert Pow10(w + 1) == 10 * Pow10(w);
      assert n / 10 <= Pow10(w) - 1;
      assert n == 10 * (n / 10) + n % 10;
      assert Pow10(w - 1) <= n / 10;
      assert Pow10(w) == 10 * Pow10(w - 1);
    }
  }
}
