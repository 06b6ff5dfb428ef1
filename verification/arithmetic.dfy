/** Division facts that the address computations and the digit loops need. */
module Arithmetic {
  lemma MulAtLeast(a: int, d: int)
    requires a >= 1 && d > 0
    ensures a * d >= d
  {
    assert a * d == (a - 1) * d + d;
    assert (a - 1) * d >= 0;
  }

  /** Quotient and remainder are unique. */
  lemma DivModUnique(q: int, d: int, r: int)
    requires 0 <= r < d
    ensures (q * d + r) / d == q && (q * d + r) % d == r
  {
    var x := q * d + r;
    var q', r' := x / d, x % d;
    assert x == q' * d + r';
    assert (q - q') * d == r' - r;
    if q > q' {
      MulAtLeast(q - q', d);
    } else if q < q' {
      assert (q' - q) * d == r - r';
      MulAtLeast(q' - q, d);
    }
  }

  lemma MulMonotone(a: nat, b: nat, c: nat)
    requires a <= b
    ensures a * c <= b * c
  {
    assert b * c == a * c + (b - a) * c;
    assert (b - a) * c >= 0;
  }

  // --- bitwise OR ---

  /** a | b */
  function BitOr(a: nat, b: nat): nat
    decreases a + b
  {
    if a == 0 && b == 0 then 0
    else (if a % 2 == 1 || b % 2 == 1 then 1 else 0) + 2 * BitOr(a / 2, b / 2)
  }

  lemma {:induction false} BitOrZero(a: nat)
    ensures BitOr(a, 0) == a && BitOr(0, a) == a
  {
    if a > 0 {
      BitOrZero(a / 2);
    }
  }

  function TwoTo(k: nat): (p: nat)
    ensures p > 0
  {
    if k == 0 then 1 else 2 * TwoTo(k - 1)
  }

  lemma BitOrStep(a: nat, b: nat)
    ensures BitOr(a, b) == (if a % 2 == 1 || b % 2 == 1 then 1 else 0) + 2 * BitOr(a / 2, b / 2)
  {
  }

  /** What is above the low k bits stays out of an OR with low bits. */
  lemma {:induction false} BitOrLow(q: nat, k: nat, f: nat, g: nat)
    requires f < TwoTo(k) && g < TwoTo(k)
    ensures BitOr(q * TwoTo(k) + f, g) == q * TwoTo(k) + BitOr(f, g)
    decreases k
  {
    if k == 0 {
      BitOrZero(q);
    } else {
      var half := q * TwoTo(k - 1);
      Doubled(q, k);
      BitOrLow(q, k - 1, f / 2, g / 2);
      BitOrDoubled(half, f, g);
    }
  }

  lemma Doubled(q: nat, k: nat)
    requires k > 0
    ensures q * TwoTo(k) == 2 * (q * TwoTo(k - 1))
  {
    assert q * (2 * TwoTo(k - 1)) == 2 * (q * TwoTo(k - 1));
  }

  lemma BitOrDoubled(a: nat, f: nat, g: nat)
    requires BitOr(a + f / 2, g / 2) == a + BitOr(f / 2, g / 2)
    ensures BitOr(2 * a + f, g) == 2 * a + BitOr(f, g)
  {
    DoubledPlus(a, f);
    BitOrStep(2 * a + f, g);
    BitOrStep(f, g);
  }

  lemma DoubledPlus(a: nat, f: nat)
    ensures (2 * a + f) / 2 == a + f / 2 && (2 * a + f) % 2 == f % 2
  {
  }
}
