/** Small facts about division, remainders and sums that several components share. */
module Arith {
  /** The number of values of C's `unsigned long` on the targets of these tools. */
  const WORD: nat := 0x1_0000_0000_0000_0000

  type Word = x: nat | x < WORD

  /** Multiplication by a positive factor is monotone. */
  lemma MulMono(a: nat, b: nat, d: nat)
    requires a <= b
    ensures a * d <= b * d
  {
    assert (b - a) * d >= 0;
  }

  /** Quotients are what comparisons against a product say they are. */
  lemma DivIsBound(a: nat, d: nat, q: nat)
    requires d > 0
    ensures q * d <= a <==> q <= a / d
  {
    if q <= a / d {
      MulMono(q, a / d, d);
    } else {
      MulMono(a / d + 1, q, d);
    }
  }

  /** Quotient and remainder are unique. */
  lemma DivModUnique(a: nat, d: nat, q: nat, r: nat)
    requires r < d && a == q * d + r
    ensures a / d == q && a % d == r
  {
    DivIsBound(a, d, q);
    DivIsBound(a, d, q + 1);
    assert (q + 1) * d == q * d + d;
  }

  /** Remainders of consecutive numbers: count up, or fall back to 0. */
  lemma ModSucc(a: nat, d: nat)
    requires d > 0
    ensures (a + 1) % d == if a % d + 1 < d then a % d + 1 else 0
  {
    var q, r := a / d, a % d;
    assert a == q * d + r;
    if r + 1 < d {
      DivModUnique(a + 1, d, q, r + 1);
    } else {
      assert (q + 1) * d == q * d + d;
      DivModUnique(a + 1, d, q + 1, 0);
    }
  }

  /** Adding whole multiples of the divisor does not change the remainder. */
  lemma ModAddMultiple(a: nat, d: nat, k: nat)
    requires d > 0
    ensures (a + k * d) % d == a % d
  {
    assert a + k * d == (a / d + k) * d + a % d;
    DivModUnique(a + k * d, d, a / d + k, a % d);
  }

  lemma DivMono(a: nat, b: nat, d: nat)
    requires d > 0 && a <= b
    ensures a / d <= b / d
  {
    DivIsBound(b, d, a / d);
  }

  lemma MultipleApart(x: nat, y: nat, d: nat, r: nat)
    requires d > 0 && x <= y
    ensures x * d + r <= y * d + r && ((y * d + r) - (x * d + r)) % d == 0
  {
    MulMono(x, y, d);
    assert y * d - x * d == (y - x) * d;
    DivModUnique(y * d - x * d, d, y - x, 0);
  }

  lemma MultiplesAway(a: nat, b: nat, d: nat)
    requires d > 0 && a <= b && (b - a) % d == 0
    ensures a % d == b % d
  {
    var k := (b - a) / d;
    assert b == a + k * d;
    ModAddMultiple(a, d, k);
  }

  lemma SameRemainder(a: nat, b: nat, d: nat)
    requires d > 0 && a <= b && a % d == b % d
    ensures (b - a) % d == 0
  {
    DivMono(a, b, d);
    MultipleApart(a / d, b / d, d, a % d);
    assert a == a / d * d + a % d && b == b / d * d + b % d;
  }

  /** Equal remainders mean a difference of whole multiples. */
  lemma ModEqualIff(a: nat, b: nat, d: nat)
    requires d > 0 && a <= b
    ensures a % d == b % d <==> (b - a) % d == 0
  {
    if (b - a) % d == 0 {
      MultiplesAway(a, b, d);
    } else if a % d == b % d {
      SameRemainder(a, b, d);
    }
  }

  /** Reducing a summand first does not change a reduced sum. */
  lemma ModAbsorb(a: nat, b: nat, d: nat)
    requires d > 0
    ensures (a % d + b) % d == (a + b) % d
  {
    assert a + b == (a % d + b) + (a / d) * d;
    ModAddMultiple(a % d + b, d, a / d);
  }

  function Sum(xs: seq<nat>): nat
  {
    if xs == [] then 0 else xs[0] + Sum(xs[1..])
  }

  lemma {:induction false} SumAppend(xs: seq<nat>, ys: seq<nat>)
    ensures Sum(xs + ys) == Sum(xs) + Sum(ys)
  {
    if xs == [] {
      assert xs + ys == ys;
    } else {
      assert (xs + ys)[1..] == xs[1..] + ys;
      SumAppend(xs[1..], ys);
    }
  }

  lemma {:induction false} SumMono(xs: seq<nat>, ys: seq<nat>)
    requires |xs| == |ys|
    requires forall i :: 0 <= i < |xs| ==> xs[i] <= ys[i]
    ensures Sum(xs) <= Sum(ys)
  {
    if xs != [] {
      SumMono(xs[1..], ys[1..]);
    }
  }

  lemma SumUpdate(xs: seq<nat>, i: nat, v: nat)
    requires i < |xs|
    ensures Sum(xs[i := v]) + xs[i] == Sum(xs) + v
  {
    assert xs == xs[..i] + ([xs[i]] + xs[i + 1..]);
    assert xs[i := v] == xs[..i] + ([v] + xs[i + 1..]);
    SumAppend(xs[..i], [xs[i]] + xs[i + 1..]);
    SumAppend(xs[..i], [v] + xs[i + 1..]);
  }

  /** Splitting off the element at position i of a prefix or a suffix. */
  lemma SumPrefixStep(xs: seq<nat>, i: nat)
    requires i < |xs|
    ensures Sum(xs[..i + 1]) == Sum(xs[..i]) + xs[i]
    ensures Sum(xs[i..]) == xs[i] + Sum(xs[i + 1..])
  {
    assert xs[..i + 1] == xs[..i] + [xs[i]];
    SumAppend(xs[..i], [xs[i]]);
    assert xs[i..][1..] == xs[i + 1..];
  }
}
