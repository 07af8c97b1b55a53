/** Decimal numerals: what Ruby's Integer#to_s prints for a non-negative integer and what
    String#to_i reads back from a string of ASCII digits (the strings the version patterns
    capture with \d+). */
module Decimal {

  predicate IsDigit(c: char) {
    '0' <= c <= '9'
  }

  predicate AllDigits(s: string) {
    forall i :: 0 <= i < |s| ==> IsDigit(s[i])
  }

  /** A numeral as Integer#to_s prints it: non-empty and without a superfluous leading zero. */
  predicate Canonical(s: string) {
    |s| > 0 && AllDigits(s) && (s[0] == '0' ==> |s| == 1)
  }

  function DigitChar(d: nat): (c: char)
    requires d < 10
    ensures IsDigit(c) && c as int - '0' as int == d
  {
    ('0' as int + d) as char
  }

  /** String#to_i on a string of digits (leading zeros are accepted and carry no weight). */
  function ToNat(s: string): nat
    requires AllDigits(s)
  {
    if s == [] then 0 else 10 * ToNat(s[..|s| - 1]) + (s[|s| - 1] as int - '0' as int)
  }

  /** Integer#to_s for a non-negative integer. */
  function FromNat(n: nat): (s: string)
    ensures Canonical(s)
    ensures s[0] == '0' <==> n == 0
  {
    if n < 10 then [DigitChar(n)] else FromNat(n / 10) + [DigitChar(n % 10)]
  }

  lemma {:induction false} ToNatFromNat(n: nat)
    ensures ToNat(FromNat(n)) == n
  {
    if n >= 10 {
      var s := FromNat(n);
      assert s[..|s| - 1] == FromNat(n / 10);
      ToNatFromNat(n / 10);
    }
  }

  lemma {:induction false} ToNatPositive(s: string)
    requires |s| > 0 && AllDigits(s) && s[0] != '0'
    ensures ToNat(s) >= 1
  {
    if |s| > 1 {
      ToNatPositive(s[..|s| - 1]);
    }
  }

  /** Reading a canonical numeral and printing it again gives back the same text. */
  lemma {:induction false} FromNatToNat(s: string)
    requires Canonical(s)
    ensures FromNat(ToNat(s)) == s
  {
    if |s| > 1 {
      var init := s[..|s| - 1];
      assert Canonical(init);
      ToNatPositive(init);
      FromNatToNat(init);
      assert s == init + [s[|s| - 1]];
    }
  }

  /** A dot after a numeral marks where the numeral ends: two texts "a.b" and "c.d" with a
      and c made of digits are equal only when a is c and b is d. */
  lemma {:induction false} SplitAtDot(a: string, b: string, c: string, d: string)
    requires AllDigits(a) && AllDigits(c) && a + "." + b == c + "." + d
    ensures a == c && b == d
  {
    var s := a + "." + b;
    assert s[|a|] == '.' && (c + "." + d)[|c|] == '.';
    assert |a| == |c|;
    assert a == s[..|a|] && c == s[..|c|];
    assert b == s[|a| + 1..] && d == s[|c| + 1..];
  }

  /** Integer#to_s prints different numbers differently. */
  lemma {:induction false} FromNatInjective(m: nat, n: nat)
    ensures FromNat(m) == FromNat(n) <==> m == n
  {
    ToNatFromNat(m);
    ToNatFromNat(n);
  }
}
