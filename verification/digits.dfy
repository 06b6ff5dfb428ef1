/** Positional numerals: digits least significant first, and the strings that show them. */
module Digits {
  import opened Arithmetic
  import opened Memory

  function Power(base: nat, e: nat): (p: nat)
    requires base > 0
    ensures p > 0
  {
    if e == 0 then 1 else
      assert base * Power(base, e - 1) >= base by { MulAtLeast(Power(base, e - 1), base); }
      base * Power(base, e - 1)
  }

  /** The digits of x, least significant first; none for zero. */
  function DigitsOf(x: nat, base: nat): seq<nat>
    requires base >= 2
  {
    if x == 0 then [] else [x % base] + DigitsOf(x / base, base)
  }

  /** The number the digits stand for. */
  function Number(digits: seq<nat>, base: nat): nat {
    if digits == [] then 0 else digits[0] + base * Number(digits[1..], base)
  }

  predicate AreDigits(digits: seq<nat>, base: nat) {
    forall i :: 0 <= i < |digits| ==> digits[i] < base
  }

  lemma {:induction false} DigitsDenote(x: nat, base: nat)
    requires base >= 2
    ensures Number(DigitsOf(x, base), base) == x && AreDigits(DigitsOf(x, base), base)
    ensures x > 0 ==> DigitsOf(x, base) != [] && DigitsOf(x, base)[|DigitsOf(x, base)| - 1] > 0
    decreases x
  {
    if x > 0 {
      Quotient(x, base);
      DigitsDenote(x / base, base);
      assert DigitsOf(x, base)[1..] == DigitsOf(x / base, base);
    }
  }

  lemma Quotient(x: nat, d: nat)
    requires d >= 2 && x > 0
    ensures x / d < x && x == d * (x / d) + x % d
  {
  }

  /** Leading zeros, at the far end of the digits, change nothing. */
  lemma {:induction false} PaddingKeepsNumber(digits: seq<nat>, n: nat, base: nat)
    ensures Number(digits + Zeros(n), base) == Number(digits, base)
    decreases |digits| + n
  {
    if digits == [] {
      assert digits + Zeros(n) == Zeros(n);
      if n > 0 {
        PaddingKeepsNumber([], n - 1, base);
        assert [] + Zeros(n - 1) == Zeros(n - 1);
        assert Zeros(n)[1..] == Zeros(n - 1);
      }
    } else {
      assert (digits + Zeros(n))[1..] == digits[1..] + Zeros(n);
      PaddingKeepsNumber(digits[1..], n, base);
    }
  }

  function Zeros(n: nat): (z: seq<nat>)
    ensures |z| == n && forall i :: 0 <= i < n ==> z[i] == 0
  {
    seq(n, i => 0)
  }

  /** A number and a length have at most one numeral. */
  lemma {:induction false} NumeralUnique(a: seq<nat>, b: seq<nat>, base: nat)
    requires base >= 2 && AreDigits(a, base) && AreDigits(b, base) && |a| == |b|
    requires Number(a, base) == Number(b, base)
    ensures a == b
    decreases |a|
  {
    if a != [] {
      DivModUnique(Number(a[1..], base), base, a[0]);
      DivModUnique(Number(b[1..], base), base, b[0]);
      assert base * Number(a[1..], base) == Number(a[1..], base) * base;
      assert base * Number(b[1..], base) == Number(b[1..], base) * base;
      NumeralUnique(a[1..], b[1..], base);
    }
  }

  /** A number below base^n has at most n digits, and a number of that size or more has more. */
  lemma {:induction false} DigitCountIff(x: nat, base: nat, n: nat)
    requires base >= 2
    ensures |DigitsOf(x, base)| <= n <==> x < Power(base, n)
    decreases n
  {
    if x > 0 && n > 0 {
      DigitCountIff(x / base, base, n - 1);
      QuotientBelowIff(x, base, Power(base, n - 1));
    }
  }

  lemma QuotientBelowIff(x: nat, d: nat, p: nat)
    requires d > 0
    ensures x / d < p <==> x < d * p
  {
    assert x == d * (x / d) + x % d;
    if x / d < p {
      MulMonotone(x / d + 1, p, d);
    } else {
      MulMonotone(p, x / d, d);
    }
  }

  /** The digit at position i is what division by base^i and remainder by base leave; past the digits that
      is zero. */
  lemma {:induction false} DigitAt(x: nat, base: nat, i: nat)
    requires base >= 2
    ensures x / Power(base, i) % base == if i < |DigitsOf(x, base)| then DigitsOf(x, base)[i] else 0
    decreases i
  {
    if i == 0 {
      FirstDigit(x, base);
    } else {
      DigitAt(x / base, base, i - 1);
      NextPower(x, base, i);
      HigherDigits(x, base);
    }
  }

  lemma FirstDigit(x: nat, base: nat)
    requires base >= 2
    ensures x / Power(base, 0) == x
    ensures x % base == if 0 < |DigitsOf(x, base)| then DigitsOf(x, base)[0] else 0
  {
  }

  lemma NextPower(x: nat, base: nat, i: nat)
    requires base >= 2 && i > 0
    ensures x / Power(base, i) == x / base / Power(base, i - 1)
  {
    DivideTwice(x, base, Power(base, i - 1));
  }

  lemma HigherDigits(x: nat, base: nat)
    requires base >= 2
    ensures |DigitsOf(x / base, base)| == if x == 0 then 0 else |DigitsOf(x, base)| - 1
    ensures forall i :: 1 <= i < |DigitsOf(x, base)| ==> DigitsOf(x, base)[i] == DigitsOf(x / base, base)[i - 1]
  {
    assert 0 / base == 0;
  }

  lemma Parts(x: nat, d: nat) returns (q: nat, r: nat)
    requires d > 0
    ensures q == x / d && r == x % d && x == q * d + r
  {
    q, r := x / d, x % d;
  }

  /** Cutting off the higher digits first makes no difference to a digit. */
  lemma CutThenDivide(x: nat, p: nat, base: nat, m: nat)
    requires p > 0 && base > 0 && m == p * base
    ensures m > 0 && x % m / p == x / p % base
  {
    MulAtLeast(base, p);
    var y, r := Parts(x, p);
    var q, d := Parts(y, base);
    CutDigit(p, base, q, d, r, x, m);
  }

  lemma CutDigit(p: nat, base: nat, q: nat, d: nat, r: nat, x: nat, m: nat)
    requires r < p && d < base && m == p * base && m > 0 && x == (q * base + d) * p + r
    ensures x % m / p == d
  {
    var t := d * p + r;
    CutBounds(p, base, q, d, r, m);
    Remainder(x, q, m, t);
    Remainder(t, d, p, r);
  }

  lemma CutBounds(p: nat, base: nat, q: nat, d: nat, r: nat, m: nat)
    requires r < p && d < base && m == p * base
    ensures d * p + r < m && (q * base + d) * p + r == q * m + (d * p + r)
  {
    MulMonotone(d + 1, base, p);
    assert (d + 1) * p == d * p + p;
    assert q * base * p == q * (p * base);
    assert (q * base + d) * p == q * base * p + d * p;
  }

  lemma Remainder(x: nat, q: nat, d: nat, r: nat)
    requires r < d && x == q * d + r
    ensures x / d == q && x % d == r
  {
    DivModUnique(q, d, r);
  }

  lemma DivideTwice(x: nat, a: nat, b: nat)
    requires a > 0 && b > 0
    ensures a * b > 0 && x / (a * b) == x / a / b
  {
    MulAtLeast(b, a);
    var q := x / a / b;
    var r := x / a % b;
    assert x == a * (x / a) + x % a;
    assert x / a == b * q + r;
    assert a * (b * q + r) == q * (a * b) + a * r;
    MulMonotone(r + 1, b, a);
    assert (r + 1) * a == a * r + a && b * a == a * b;
    DivModUnique(q, a * b, a * r + x % a);
  }

  // --- strings ---

  const CHAR_0: Byte := 0x30
  const CHAR_A: Byte := 0x61

  /** The character for a digit. */
  function Letter(d: nat): Byte
    requires d < 36
  {
    if d < 10 then CHAR_0 + d else CHAR_A - 10 + d
  }

  function Letters(digits: seq<nat>): (s: Bytes)
    requires AreDigits(digits, 36)
    ensures |s| == |digits| && forall i :: 0 <= i < |s| ==> s[i] == Letter(digits[i])
  {
    seq(|digits|, i requires 0 <= i < |digits| && AreDigits(digits, 36) => Letter(digits[i]))
  }

  function Reversed<T>(s: seq<T>): (r: seq<T>)
    ensures |r| == |s| && forall i :: 0 <= i < |s| ==> r[i] == s[|s| - 1 - i]
  {
    seq(|s|, i requires 0 <= i < |s| => s[|s| - 1 - i])
  }

  /** The digits of x with zeros up to the given length, and at least one digit. */
  function PaddedDigits(x: nat, base: nat, pad: int): (digits: seq<nat>)
    requires 2 <= base <= 36
    ensures AreDigits(digits, base)
  {
    DigitsDenote(x, base);
    var ds := DigitsOf(x, base);
    var length := if pad < 1 then 1 else pad;
    ds + if |ds| < length then Zeros(length - |ds|) else []
  }

  /** The numeral of x as a string, most significant digit first. */
  function Numeral(x: nat, base: nat, pad: int): Bytes
    requires 2 <= base <= 36
  {
    Reversed(Letters(PaddedDigits(x, base, pad)))
  }

  lemma PaddedDenote(x: nat, base: nat, pad: int)
    requires 2 <= base <= 36
    ensures Number(PaddedDigits(x, base, pad), base) == x
    ensures var n := |DigitsOf(x, base)|;
            |PaddedDigits(x, base, pad)| == if n < pad then pad else if n < 1 then 1 else n
  {
    DigitsDenote(x, base);
    var ds := DigitsOf(x, base);
    var length := if pad < 1 then 1 else pad;
    if |ds| < length {
      PaddingKeepsNumber(ds, length - |ds|, base);
    } else {
      assert ds + [] == ds;
    }
  }

  // --- reading back ---

  /** The number a string of decimal digits shows, as atoi sums it: from the last character on. */
  function DecimalValue(s: Bytes): int
    decreases |s|
  {
    if s == [] then 0 else s[|s| - 1] as int - CHAR_0 as int + 10 * DecimalValue(s[..|s| - 1])
  }

  lemma {:induction false} ValueOfLetters(digits: seq<nat>)
    requires AreDigits(digits, 10)
    ensures DecimalValue(Reversed(Letters(digits))) == Number(digits, 10)
    decreases |digits|
  {
    if digits != [] {
      ValueOfLetters(digits[1..]);
      var s := Reversed(Letters(digits));
      assert s[..|s| - 1] == Reversed(Letters(digits[1..]));
    }
  }

  predicate IsLetter(c: Byte) {
    '0' as int <= c <= '9' as int || 'a' as int <= c <= 'z' as int
  }

  /** The digit that a character from '0' to '9' or 'a' to 'z' stands for. */
  function DigitOf(c: Byte): int {
    if c < 'a' as int then c - '0' as int else c - 'a' as int + 10
  }

  /** The number a string shows in the given base. */
  function ValueIn(s: Bytes, base: nat): int
    decreases |s|
  {
    if s == [] then 0 else DigitOf(s[|s| - 1]) + base * ValueIn(s[..|s| - 1], base)
  }

  lemma {:induction false} LettersInBase(digits: seq<nat>, base: nat)
    requires AreDigits(digits, 36)
    ensures ValueIn(Reversed(Letters(digits)), base) == Number(digits, base)
    decreases |digits|
  {
    if digits != [] {
      LettersInBase(digits[1..], base);
      var s := Reversed(Letters(digits));
      assert s[..|s| - 1] == Reversed(Letters(digits[1..]));
    }
  }

  /** A numeral in any base up to 36 is made of that base's digits, '0' to '9' and then 'a' to 'z', and
      shows its number. */
  lemma NumeralInBase(x: nat, base: nat, pad: int)
    requires 2 <= base <= 36
    ensures forall i :: 0 <= i < |Numeral(x, base, pad)| ==>
              IsLetter(Numeral(x, base, pad)[i]) && DigitOf(Numeral(x, base, pad)[i]) < base
    ensures ValueIn(Numeral(x, base, pad), base) == x
  {
    PaddedDenote(x, base, pad);
    LettersInBase(PaddedDigits(x, base, pad), base);
  }

  /** Reading the numeral of x gives x back, whatever the padding. */
  lemma NumeralReadsBack(x: nat, pad: int)
    ensures DecimalValue(Numeral(x, 10, pad)) == x
  {
    PaddedDenote(x, 10, pad);
    ValueOfLetters(PaddedDigits(x, 10, pad));
  }
}
