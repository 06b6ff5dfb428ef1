/** The conversions of libc and of the user library between numbers and strings. */
module Numerals {
  import opened Arithmetic
  import opened Memory
  import opened Digits

  /** The C string in the buffer. */
  predicate HoldsString(buf: array<Byte>, s: Bytes)
    reads buf
  {
    |s| < buf.Length && buf[..|s|] == s && buf[|s|] == 0 && 0 !in s
  }

  /** reverse, with the length found by strlen. */
  method Reverse(buf: array<Byte>, ghost s: Bytes)
    requires HoldsString(buf, s)
    modifies buf
    ensures HoldsString(buf, Reversed(s))
    ensures buf[|s| + 1..] == old(buf[|s| + 1..])
  {
    var n := StrLen(buf, s);
    var i: int, j: int := 0, n - 1;
    while i < j
      invariant 0 <= i && j == n - 1 - i && i <= j + 1
      invariant forall k :: 0 <= k < i ==> buf[k] == s[n - 1 - k] && buf[n - 1 - k] == s[k]
      invariant forall k :: i <= k <= j ==> buf[k] == s[k]
      invariant buf[n..] == old(buf[n..])
    {
      var c := buf[i];
      buf[i] := buf[j];
      buf[j] := c;
      i, j := i + 1, j - 1;
    }
    assert buf[..n] == Reversed(s);
    assert buf[n..][1..] == buf[n + 1..];
  }

  method StrLen(buf: array<Byte>, ghost s: Bytes) returns (len: nat)
    requires HoldsString(buf, s)
    ensures len == |s|
  {
    len := 0;
    while buf[len] != 0
      invariant len <= |s|
      decreases |s| - len
    {
      assert buf[len] == s[len];
      len := len + 1;
    }
  }

  lemma LettersAreText(digits: seq<nat>)
    requires AreDigits(digits, 36)
    ensures 0 !in Letters(digits)
  {
  }

  /** utoa: writes the decimal numeral of x with at least pad digits. */
  method Utoa(x: nat, buf: array<Byte>, pad: int)
    requires |PaddedDigits(x, 10, pad)| < buf.Length
    modifies buf
    ensures HoldsString(buf, Numeral(x, 10, pad))
  {
    ghost var digits := PaddedDigits(x, 10, pad);
    var i := PutDigits(x, buf);
    var left := (if pad < 1 then 1 else pad) - i;
    while left > 0
      invariant |DigitsOf(x, 10)| <= i <= |digits| && (if left > 0 then i + left == |digits| else i == |digits|)
      invariant forall k :: 0 <= k < i ==> buf[k] == Letter(digits[k])
    {
      buf[i] := CHAR_0;
      i := i + 1;
      left := left - 1;
    }
    buf[i] := 0;
    assert buf[..i] == Letters(digits);
    LettersAreText(digits);
    Reverse(buf, Letters(digits));
  }

  /** utoa's first loop: the digits of x, least significant first. */
  method PutDigits(x: nat, buf: array<Byte>) returns (i: nat)
    requires |DigitsOf(x, 10)| < buf.Length
    modifies buf
    ensures i == |DigitsOf(x, 10)| && AreDigits(DigitsOf(x, 10), 10)
    ensures forall k :: 0 <= k < i ==> buf[k] == Letter(DigitsOf(x, 10)[k])
  {
    DigitsDenote(x, 10);
    ghost var digits := DigitsOf(x, 10);
    var rest := x;
    i := 0;
    while rest > 0
      invariant i <= |digits| && digits[i..] == DigitsOf(rest, 10)
      invariant forall k :: 0 <= k < i ==> buf[k] == Letter(digits[k])
      decreases rest
    {
      var rem := rest % 10;
      assert digits[i..][0] == rem && digits[i..][1..] == digits[i + 1..];
      buf[i] := Letter(rem);
      rest := rest / 10;
      i := i + 1;
    }
  }

  /** atoi sums from the last digit on. Up to nine digits, sum and weight stay within a 32-bit int. */
  method Atoi(buf: array<Byte>, ghost s: Bytes) returns (x: int)
    requires HoldsString(buf, s) && |s| <= 9
    requires forall i :: 0 <= i < |s| ==> CHAR_0 <= s[i] < CHAR_0 + 10
    ensures x == DecimalValue(s)
  {
    var len := StrLen(buf, s);
    x := 0;
    var base: int := 1;
    var i: int := len as int - 1;
    assert s[..len] == s;
    while i >= 0
      invariant -1 <= i < len && buf[..len] == s
      invariant Summed(s, i + 1, x, base)
    {
      AtoiStep(s, i, x, base);
      assert buf[i] == s[i];
      var d := buf[i] as int - CHAR_0 as int;
      x := x + d * base;
      base := base * 10;
      i := i - 1;
    }
    assert s[..0] == [];
  }

  /** atoi has summed all but the first k characters, within the range of an int. */
  predicate Summed(s: Bytes, k: nat, x: int, base: int)
    requires k <= |s|
  {
    && base == Power(10, |s| - k) <= INT_MAX && 0 <= x < base
    && DecimalValue(s) == x + base * DecimalValue(s[..k])
  }

  lemma AtoiStep(s: Bytes, i: nat, x: int, base: int)
    requires i < |s| <= 9 && Summed(s, i + 1, x, base) && CHAR_0 <= s[i] < CHAR_0 + 10
    ensures Summed(s, i, x + (s[i] as int - CHAR_0 as int) * base, base * 10)
  {
    var d := s[i] as int - CHAR_0 as int;
    TakeLastDigit(s, i, base);
    PowersOfTen(|s| - i);
    MulMonotone(d, 9, base);
    MulMonotone(0, d, base);
  }

  const INT_MAX: int := 0x7fff_ffff

  lemma TakeLastDigit(s: Bytes, i: nat, base: int)
    requires i < |s|
    ensures base * DecimalValue(s[..i + 1]) == (s[i] as int - CHAR_0 as int) * base + base * 10 * DecimalValue(s[..i])
  {
    var d := s[i] as int - CHAR_0 as int;
    var rest := DecimalValue(s[..i]);
    assert s[..i + 1][..i] == s[..i];
    assert DecimalValue(s[..i + 1]) == d + 10 * rest;
    assert base * (d + 10 * rest) == d * base + base * 10 * rest;
  }

  lemma {:induction false} PowersOfTen(n: nat)
    requires n <= 9
    ensures Power(10, n) <= 1000000000
    ensures n > 0 ==> Power(10, n) == 10 * Power(10, n - 1)
    ensures n == 0 ==> Power(10, n) == 1
  {
    PowerValues();
  }

  /** The weight atoi multiplies by after n characters stays within an int exactly up to nine. */
  lemma WeightFitsIff(n: nat)
    ensures Power(10, n) <= INT_MAX <==> n <= 9
  {
    if n <= 9 {
      PowersOfTen(n);
    } else {
      PowerValues();
      PowerGrows(10, 10, n);
      assert Power(10, 10) == 10 * Power(10, 9);
    }
  }

  lemma PowerValues()
    ensures Power(10, 0) == 1 && Power(10, 3) == 1000 && Power(10, 6) == 1000000 && Power(10, 9) == 1000000000
  {
    assert Power(10, 1) == 10 && Power(10, 2) == 100;
    assert Power(10, 4) == 10000 && Power(10, 5) == 100000;
    assert Power(10, 7) == 10000000 && Power(10, 8) == 100000000;
  }

  // --- hexadecimal ---

  const HEX_DIGITS: nat := 8

  /** (x >> 4 * i) & 0xf */
  function Nibble(x: nat, i: nat): (d: nat)
    ensures d < 16
  {
    x / Power(16, i) % 16
  }

  /** xtoa: the hexadecimal numeral of a 32-bit x, with at least pad digits but never more than eight. */
  method Xtoa(x: nat, buf: array<Byte>, pad: int)
    requires x < WORD_LIMIT && buf.Length > HEX_DIGITS
    modifies buf
    ensures HoldsString(buf, Numeral(x, 16, if pad > HEX_DIGITS then HEX_DIGITS else pad))
  {
    var atLeast := if pad < 1 then 1 else pad;
    var n := 0;
    var begin := true;
    var i: int := HEX_DIGITS - 1;
    ghost var digits := PaddedDigits(x, 16, if pad > HEX_DIGITS then HEX_DIGITS else pad);
    HexLength(x, pad);
    while i >= 0
      invariant -1 <= i < HEX_DIGITS
      invariant begin ==> n == 0 && i + 1 >= |digits|
      invariant !begin ==> i + 1 < |digits| && n == |digits| - (i + 1)
      invariant forall k :: 0 <= k < n ==> buf[k] == Letter(digits[|digits| - 1 - k])
    {
      var d := Nibble(x, i);
      HexDigit(x, pad, i);
      if d == 0 && begin && i >= atLeast {
      } else {
        begin := false;
        buf[n] := Letter(d);
        n := n + 1;
      }
      i := i - 1;
    }
    buf[n] := 0;
    LettersShown(buf[..n], digits);
  }

  lemma LettersShown(s: Bytes, digits: seq<nat>)
    requires AreDigits(digits, 36) && |s| == |digits|
    requires forall k :: 0 <= k < |s| ==> s[k] == Letter(digits[|digits| - 1 - k])
    ensures s == Reversed(Letters(digits)) && 0 !in s
  {
    var letters := Letters(digits);
    forall k | 0 <= k < |s|
      ensures s[k] == Reversed(letters)[k] && s[k] != 0
    {
    }
  }

  lemma HexLength(x: nat, pad: int)
    requires x < WORD_LIMIT
    ensures |PaddedDigits(x, 16, if pad > HEX_DIGITS then HEX_DIGITS else pad)| <= HEX_DIGITS
  {
    assert Power(16, 8) == WORD_LIMIT by {
      assert Power(16, 2) == 0x100 && Power(16, 4) == 0x1_0000 && Power(16, 6) == 0x100_0000;
    }
    DigitCountIff(x, 16, 8);
    PaddedDenote(x, 16, if pad > HEX_DIGITS then HEX_DIGITS else pad);
  }

  /** The nibble at position i is the numeral's digit there; above the numeral it is zero and the test for
      a leading zero passes, and at the numeral's first digit it fails. */
  lemma HexDigit(x: nat, pad: int, i: nat)
    requires x < WORD_LIMIT && i < HEX_DIGITS
    ensures var digits := PaddedDigits(x, 16, if pad > HEX_DIGITS then HEX_DIGITS else pad);
            && (i < |digits| ==> Nibble(x, i) == digits[i])
            && (i >= |digits| ==> Nibble(x, i) == 0 && i >= pad && i >= 1)
            && (i == |digits| - 1 ==> Nibble(x, i) != 0 || i < pad || i < 1)
  {
    HexLength(x, pad);
    PaddedDenote(x, 16, if pad > HEX_DIGITS then HEX_DIGITS else pad);
    DigitAt(x, 16, i);
    DigitsDenote(x, 16);
  }

  // --- itoa of the user library ---

  /** The divisor stays within an int. */
  predicate DivisorFits(n: nat, base: nat)
    requires base >= 2
  {
    n == 0 || Power(base, |DigitsOf(n, base)| + 1) <= INT_MAX
  }

  /** In base ten that is so exactly below 10^8. */
  lemma DivisorFitsIff(n: nat)
    ensures DivisorFits(n, 10) <==> n < 100000000
  {
    PowerValues();
    DigitCountIff(n, 10, 8);
    var k := |DigitsOf(n, 10)|;
    if k <= 8 {
      PowersOfTen(k + 1);
    } else {
      PowerGrows(10, 9, k);
      assert Power(10, k + 1) == 10 * Power(10, k);
    }
  }

  lemma {:induction false} PowerGrows(base: nat, a: nat, b: nat)
    requires base >= 2 && a <= b
    ensures Power(base, a) <= Power(base, b)
    decreases b - a
  {
    if a < b {
      PowerGrows(base, a, b - 1);
      MulMonotone(1, base, Power(base, b - 1));
    }
  }

  /** itoa for a number that is not negative: the numeral without padding, the one utoa writes in base ten
      for a padding of one. */
  method Itoa(n: nat, buf: array<Byte>, base: nat)
    requires 2 <= base <= 36 && DivisorFits(n, base) && |PaddedDigits(n, base, 1)| < buf.Length
    modifies buf
    ensures HoldsString(buf, Numeral(n, base, 1))
  {
    ghost var digits := PaddedDigits(n, base, 1);
    if n == 0 {
      buf[0], buf[1] := CHAR_0, 0;
      assert buf[..1] == Letters(digits);
      assert Reversed(Letters(digits)) == Letters(digits);
      return;
    }
    DigitsDenote(n, base);
    assert digits == DigitsOf(n, base);
    var k := 0;
    var lastDiv, div := 1, base;
    DigitCountIff(n, base, 0);
    while n / lastDiv != 0
      invariant k <= |digits| && lastDiv == Power(base, k) && div == Power(base, k + 1) <= INT_MAX
      invariant forall j :: 0 <= j < k ==> buf[j] == Letter(digits[j])
      decreases |digits| - k
    {
      ItoaStep(n, base, k);
      buf[k] := Letter(n % div / lastDiv);
      k := k + 1;
      lastDiv := div;
      div := div * base;
    }
    ItoaEnd(n, base, k);
    buf[k] := 0;
    assert buf[..k] == Letters(digits);
    LettersAreText(digits);
    Reverse(buf, Letters(digits));
  }

  lemma ItoaStep(n: nat, base: nat, k: nat)
    requires 2 <= base && DivisorFits(n, base) && n / Power(base, k) != 0
    ensures k < |DigitsOf(n, base)|
    ensures n % Power(base, k + 1) / Power(base, k) == DigitsOf(n, base)[k]
    ensures Power(base, k + 1) * base == Power(base, k + 2) <= INT_MAX
  {
    ItoaEnd(n, base, k);
    DigitAt(n, base, k);
    var p := Power(base, k);
    MulAtLeast(base, p);
    CutThenDivide(n, p, base, Power(base, k + 1));
    PowerGrows(base, k + 2, |DigitsOf(n, base)| + 1);
  }

  lemma ItoaEnd(n: nat, base: nat, k: nat)
    requires 2 <= base
    ensures n / Power(base, k) == 0 <==> |DigitsOf(n, base)| <= k
  {
    DigitCountIff(n, base, k);
    QuotientBelowIff(n, Power(base, k), 1);
  }

  /** What utoa writes for a number below 10^9, padded to nine digits at most, is within atoi's domain, and
      atoi gives the number back. */
  lemma ReadsBackWithinInt(x: nat, pad: int)
    requires x < 1000000000 && pad <= 9
    ensures |Numeral(x, 10, pad)| <= 9
    ensures forall i :: 0 <= i < |Numeral(x, 10, pad)| ==> CHAR_0 <= Numeral(x, 10, pad)[i] < CHAR_0 + 10
    ensures DecimalValue(Numeral(x, 10, pad)) == x
  {
    PowerValues();
    DigitCountIff(x, 10, 9);
    PaddedDenote(x, 10, pad);
    NumeralReadsBack(x, pad);
  }
}
