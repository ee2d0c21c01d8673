/** Positional numbers: the value of a digit sequence, most significant digit
    first, and its two inverses (minimal digits, and digits of a fixed width). */
module Radix {
  import opened Base

  predicate DigitsBelow(base: nat, d: seq<nat>) {
    forall i :: 0 <= i < |d| ==> d[i] < base
  }

  function Pow(base: nat, e: nat): nat {
    if e == 0 then 1 else base * Pow(base, e - 1)
  }

  /** The number `d` writes in `base`. */
  function Value(base: nat, d: seq<nat>): nat {
    if d == [] then 0 else Value(base, d[..|d| - 1]) * base + d[|d| - 1]
  }

  /** `n` in `base` with no leading zero (zero is the empty sequence). */
  function Digits(base: nat, n: nat): (d: seq<nat>)
    requires base >= 2
    ensures DigitsBelow(base, d)
    ensures d != [] ==> d[0] != 0
    ensures d == [] <==> n == 0
    decreases n
  {
    if n == 0 then [] else
      DivShrinks(n, base);
      Digits(base, n / base) + [n % base]
  }

  /** The low `width` digits of `n`. */
  function Fixed(base: nat, n: nat, width: nat): (d: seq<nat>)
    requires base >= 2
    ensures |d| == width
    ensures DigitsBelow(base, d)
    decreases width
  {
    if width == 0 then [] else Fixed(base, n / base, width - 1) + [n % base]
  }

  lemma DivShrinks(n: nat, base: nat)
    requires base >= 2 && n > 0
    ensures n / base < n
  {
    MulMono(2, base, n);
    DivBelow(base, n, n);
  }

  lemma DivMod(n: nat, base: nat)
    requires base > 0
    ensures (n / base) * base + n % base == n
  {
  }

  lemma MulMono(a: nat, b: nat, k: nat)
    requires a <= b
    ensures a * k <= b * k && k * a <= k * b
  {
  }

  lemma {:induction false} PowMono(base: nat, e: nat, f: nat)
    requires base >= 2 && e <= f
    ensures 1 <= Pow(base, e) <= Pow(base, f)
    decreases f
  {
    if f > 0 {
      PowMono(base, if e == f then e - 1 else e, f - 1);
      MulMono(1, base, Pow(base, f - 1));
    }
  }

  lemma DivBelow(base: nat, n: nat, p: nat)
    requires base > 0
    ensures n / base < p <==> n < p * base
  {
    assert n == (n / base) * base + n % base;
    if n / base < p {
      MulMono(n / base + 1, p, base);
      assert (n / base + 1) * base == (n / base) * base + base;
    } else {
      MulMono(p, n / base, base);
    }
  }

  /** Division with remainder is unique. */
  lemma DivModUnique(base: nat, q: nat, r: nat)
    requires r < base
    ensures (q * base + r) / base == q && (q * base + r) % base == r
  {
    var n := q * base + r;
    assert (q + 1) * base == q * base + base;
    DivBelow(base, n, q);
    DivBelow(base, n, q + 1);
    assert n == (n / base) * base + n % base;
  }

  /** Writing a number and reading it back. */
  lemma {:induction false} ValueOfDigits(base: nat, n: nat)
    requires base >= 2
    ensures Value(base, Digits(base, n)) == n
    decreases n
  {
    if n > 0 {
      DivShrinks(n, base);
      ValueOfDigits(base, n / base);
      ValueSnoc(base, Digits(base, n / base), n % base);
      DivMod(n, base);
    }
  }

  lemma {:induction false} ValuePositive(base: nat, d: seq<nat>)
    requires base >= 2 && d != [] && d[0] != 0
    ensures Value(base, d) > 0
  {
    if |d| > 1 {
      ValuePositive(base, d[..|d| - 1]);
      MulMono(1, Value(base, d[..|d| - 1]), base);
    }
  }

  /** Reading digits with no leading zero and writing the number gives them back. */
  lemma {:induction false} DigitsOfValue(base: nat, d: seq<nat>)
    requires base >= 2 && DigitsBelow(base, d) && (d != [] ==> d[0] != 0)
    ensures Digits(base, Value(base, d)) == d
  {
    if d != [] {
      var front, last := d[..|d| - 1], d[|d| - 1];
      DigitsOfValue(base, front);
      DivModUnique(base, Value(base, front), last);
      ValuePositive(base, d);
    }
  }

  /** A number below `base^width` has at most `width` digits, and conversely. */
  lemma {:induction false} DigitsLength(base: nat, n: nat, width: nat)
    requires base >= 2
    ensures n < Pow(base, width) <==> |Digits(base, n)| <= width
    decreases n
  {
    if n == 0 {
      PowMono(base, 0, width);
    } else if width > 0 {
      DivShrinks(n, base);
      DigitsLength(base, n / base, width - 1);
      DivBelow(base, n, Pow(base, width - 1));
    }
  }

  lemma {:induction false} ValueBound(base: nat, d: seq<nat>)
    requires base >= 2 && DigitsBelow(base, d)
    ensures Value(base, d) < Pow(base, |d|)
  {
    if d != [] {
      var front := d[..|d| - 1];
      ValueBound(base, front);
      MulMono(Value(base, front) + 1, Pow(base, |d| - 1), base);
      assert (Value(base, front) + 1) * base == Value(base, front) * base + base;
    }
  }

  /** Leading zeros do not change the value. */
  lemma {:induction false} ValueSkipsZeros(base: nat, k: nat, d: seq<nat>)
    ensures Value(base, seq(k, _ => 0) + d) == Value(base, d)
    decreases k + |d|
  {
    var z: seq<nat> := seq(k, _ => 0);
    var s := z + d;
    if d != [] {
      assert s[..|s| - 1] == z + d[..|d| - 1];
      ValueSkipsZeros(base, k, d[..|d| - 1]);
    } else if k > 0 {
      assert s[..|s| - 1] == seq(k - 1, _ => 0) + d;
      ValueSkipsZeros(base, k - 1, d);
    }
  }

  /** Fixed-width digits round trip in both directions. */
  lemma {:induction false} ValueOfFixed(base: nat, n: nat, width: nat)
    requires base >= 2 && n < Pow(base, width)
    ensures Value(base, Fixed(base, n, width)) == n
    decreases width
  {
    if width > 0 {
      QuotientBound(base, n, width);
      ValueOfFixed(base, n / base, width - 1);
      ValueSnoc(base, Fixed(base, n / base, width - 1), n % base);
    }
  }

  lemma QuotientBound(base: nat, n: nat, width: nat)
    requires base >= 2 && width > 0 && n < Pow(base, width)
    ensures n / base < Pow(base, width - 1)
    ensures (n / base) * base + n % base == n
  {
    DivBelow(base, n, Pow(base, width - 1));
  }

  lemma ValueSnoc(base: nat, d: seq<nat>, last: nat)
    ensures Value(base, d + [last]) == Value(base, d) * base + last
  {
    assert (d + [last])[..|d|] == d;
  }

  lemma {:induction false} FixedOfValue(base: nat, d: seq<nat>)
    requires base >= 2 && DigitsBelow(base, d)
    ensures Fixed(base, Value(base, d), |d|) == d
  {
    if d != [] {
      FixedOfValue(base, d[..|d| - 1]);
      DivModUnique(base, Value(base, d[..|d| - 1]), d[|d| - 1]);
    }
  }
}
