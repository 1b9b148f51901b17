/**
 * Digit strings as Go's fmt package prints integers: `%X` (base 16,
 * upper-case letters) and `%v` on an integer (base 10), with a leading
 * '-' for negative values.
 */
module Numerals {

  type Base = b: int | 2 <= b <= 16 witness 10

  predicate IsDigit(c: char) {
    '0' <= c <= '9' || 'A' <= c <= 'F'
  }

  function DigitChar(d: nat): (c: char)
    requires d < 16
    ensures IsDigit(c)
  {
    if d < 10 then ('0' as int + d) as char else ('A' as int + d - 10) as char
  }

  function DigitValue(c: char): nat {
    if '0' <= c <= '9' then c as int - '0' as int
    else if 'A' <= c <= 'F' then c as int - 'A' as int + 10
    else 0
  }

  lemma DigitRoundTrip(d: nat)
    requires d < 16
    ensures DigitValue(DigitChar(d)) == d
  {
  }

  /** The digits of `n` in `base`, most significant first, without leading zeros. */
  function Digits(n: nat, base: Base): (s: string)
    ensures |s| >= 1
    ensures forall i :: 0 <= i < |s| ==> IsDigit(s[i])
    ensures n < base <==> |s| == 1
    decreases n
  {
    if n < base then [DigitChar(n)]
    else DivDecreases(n, base); Digits(n / base, base) + [DigitChar(n % base)]
  }

  /** The number a digit string denotes in `base`: the partner of Digits. */
  function Value(s: string, base: Base): nat {
    if s == [] then 0 else Value(s[..|s| - 1], base) * base + DigitValue(s[|s| - 1])
  }

  lemma {:induction false} ValueOfDigits(n: nat, base: Base)
    ensures Value(Digits(n, base), base) == n
    decreases n
  {
    var s := Digits(n, base);
    if n < base {
      DigitRoundTrip(n);
      assert s[..|s| - 1] == [];
    } else {
      var q, r := n / base, n % base;
      var p := Digits(q, base);
      assert s == p + [DigitChar(r)];
      assert s[..|s| - 1] == p;
      DivDecreases(n, base);
      ValueOfDigits(q, base);
      DigitRoundTrip(r);
      calc {
        Value(s, base);
        Value(p, base) * base + DigitValue(DigitChar(r));
        q * base + r;
        { DivMod(n, base); }
        n;
      }
    }
  }

  lemma DivDecreases(n: nat, base: Base)
    requires n >= base
    ensures 0 < n / base < n
  {
    var q := n / base;
    assert q * base <= n;
    assert q * base >= q * 2;
  }

  lemma DivMod(n: nat, base: Base)
    ensures (n / base) * base + n % base == n
  {
  }

  /** Digits prints different numbers differently. */
  lemma DigitsInjective(m: nat, n: nat, base: Base)
    requires Digits(m, base) == Digits(n, base)
    ensures m == n
  {
    ValueOfDigits(m, base);
    ValueOfDigits(n, base);
  }

  /** A signed integer: '-' and the digits of its magnitude when negative. */
  function Signed(n: int, base: Base): (s: string)
    ensures |s| >= 1
    ensures s[0] == '-' <==> n < 0
    ensures forall i :: 0 < i < |s| ==> IsDigit(s[i])
    ensures forall i :: 0 <= i < |s| ==> s[i] == '-' || IsDigit(s[i])
  {
    if n < 0 then "-" + Digits(-n, base) else Digits(n, base)
  }

  function SignedValue(s: string, base: Base): int {
    if |s| > 0 && s[0] == '-' then 0 - Value(s[1..], base) else Value(s, base)
  }

  lemma SignedRoundTrip(n: int, base: Base)
    ensures SignedValue(Signed(n, base), base) == n
  {
    if n < 0 {
      assert Signed(n, base)[1..] == Digits(-n, base);
      ValueOfDigits(-n, base);
    } else {
      ValueOfDigits(n, base);
    }
  }

  lemma SignedInjective(m: int, n: int, base: Base)
    requires Signed(m, base) == Signed(n, base)
    ensures m == n
  {
    SignedRoundTrip(m, base);
    SignedRoundTrip(n, base);
  }

  /** `%X` of an unsigned value: upper-case hex digits; ValueOfDigits reads them back. */
  function Hex(n: nat): (s: string)
    ensures |s| >= 1 && forall i :: 0 <= i < |s| ==> IsDigit(s[i])
  {
    Digits(n, 16)
  }

  /** `%v` of a signed integer: '-' first exactly when negative; SignedRoundTrip reads it back. */
  function Decimal(n: int): (s: string)
    ensures |s| >= 1 && (s[0] == '-' <==> n < 0)
  {
    Signed(n, 10)
  }
}
