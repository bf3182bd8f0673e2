/** Integer rounding and the real remainder used by the alignment arithmetic. */
module Rounding {

  /** Divide and round to the nearest integer; halves round up. Counts of picoseconds are unsigned. */
  function DivNearest(numerator: nat, denominator: nat): nat
    requires denominator > 0
  {
    (numerator + denominator / 2) / denominator
  }

  lemma DivNearestIsNearest(n: nat, d: nat)
    requires d > 0
    ensures var r := DivNearest(n, d); 2 * n - d <= 2 * (d * r) <= 2 * n + d
    ensures var r := DivNearest(n, d); d * r <= n + d / 2 < d * r + d
  {
    var m := n + d / 2;
    assert m == d * (m / d) + m % d;
  }

  /** Division that drops the fraction, as C++ divides. */
  function Truncate(n: int, d: nat): int
    requires d > 0
  {
    if n >= 0 then n / d else -(-n / d)
  }

  /** The same rounding for any sign. */
  function DivNearestSigned(n: int, d: nat): (r: int)
    requires d > 0
    ensures n >= 0 ==> r == DivNearest(n, d)
  {
    if n < 0 then Truncate(n - d / 2 + 1, d) else Truncate(n + d / 2, d)
  }

  // A negative numerator is rounded as its absolute value is, one less than half a denominator added.
  lemma NegativeRounds(n: int, d: nat)
    requires n < 0 && d > 0
    ensures var r := DivNearestSigned(n, d);
            r <= 0 && d * -r <= -n + d / 2 - 1 < d * -r + d
  {
    var x := -n + d / 2 - 1;
    TruncatedNegative(x, d);
    assert n - d / 2 + 1 == -x;
  }

  lemma TruncatedNegative(x: int, d: nat)
    requires x >= 0 && d > 0
    ensures Truncate(-x, d) <= 0 && d * -Truncate(-x, d) <= x < d * -Truncate(-x, d) + d
  {
    var q: int := x / d;
    assert x == d * q + x % d;
    assert Truncate(-x, d) == -q;
  }

  /** For a negative numerator the result is nearest exactly unless d is odd and n is just past the middle. */
  lemma NegativeIsNearestIff(n: int, d: nat)
    requires n < 0 && d > 0
    ensures var r := DivNearestSigned(n, d);
            2 * n - d <= 2 * (d * r) <= 2 * n + d <==> d % 2 == 0 || (-n + d / 2) % d != 0
  {
    var h := d / 2;
    var x := -n + h - 1;
    var q, t := x / d, x % d;
    assert x == d * q + t;
    assert DivNearestSigned(n, d) == -q by {
      assert n - h + 1 == -x;
    }
    assert d * -q == -(d * q);
    if t == d - 1 {
      assert (q + 1) * d == d * q + d;
      DivUnique(-n + h, d, q + 1, 0);
    } else {
      DivUnique(-n + h, d, q, t + 1);
    }
  }

  lemma AtLeastOnce(x: int, d: nat)
    requires x >= 1
    ensures x * d >= d
  {
  }

  lemma SameQuotient(q: int, r: int, q': int, r': int, d: nat)
    requires 0 <= r < d && 0 <= r' < d && q * d + r == q' * d + r'
    ensures q == q' && r == r'
  {
    if q > q' { AtLeastOnce(q - q', d); }
    if q < q' { AtLeastOnce(q' - q, d); }
  }

  lemma DivUnique(a: nat, d: nat, q: nat, r: nat)
    requires d > 0 && r < d && a == q * d + r
    ensures a / d == q && a % d == r
  {
    SameQuotient(q, r, a / d, a % d, d);
  }

  lemma DivAdd(a: nat, m: nat, d: nat)
    requires d > 0
    ensures (a + m * d) / d == a / d + m
    ensures (a + m * d) % d == a % d
  {
    assert a + m * d == (a / d + m) * d + a % d by {
      assert a == a / d * d + a % d;
    }
    DivUnique(a + m * d, d, a / d + m, a % d);
  }

  lemma ModSum(a: nat, b: nat, d: nat)
    requires d > 0
    ensures (a % d + b) % d == (a + b) % d
  {
    DivAdd(a % d + b, a / d, d);
    assert a == a / d * d + a % d;
  }

  /** The remainder of a non-negative x. */
  function Fmod(x: real, y: nat): (r: real)
    requires x >= 0.0 && y > 0
  {
    x - y as real * (x / y as real).Floor as real
  }

  lemma RemainderRange(x: real, d: real, q: real, f: real)
    requires d > 0.0 && x == d * q && f <= q < f + 1.0
    ensures 0.0 <= x - d * f < d
  {
    var t := q - f;
    assert x - d * f == d * t;
    assert d * t >= 0.0 && d * (1.0 - t) > 0.0;
  }

  lemma FmodRange(x: real, y: nat)
    requires x >= 0.0 && y > 0
    ensures 0.0 <= Fmod(x, y) < y as real
  {
    var q := x / y as real;
    assert x == y as real * q;
    RemainderRange(x, y as real, q, q.Floor as real);
  }

  lemma FmodCongruent(x: real, z: real, y: nat, n: int)
    requires x >= 0.0 && z >= 0.0 && y > 0 && x == z + y as real * n as real
    ensures Fmod(x, y) == Fmod(z, y)
  {
    var d := y as real;
    var q := z / d;
    assert z == d * q;
    assert x / d == q + n as real by {
      assert (q + n as real) * d == x;
    }
    assert (x / d).Floor == q.Floor + n;
    assert d * (q.Floor + n) as real == d * q.Floor as real + d * n as real;
  }

  lemma SignOfProduct(x: real, y: real)
    requires y > 0.0
    ensures x * y >= 0.0 <==> x >= 0.0
    ensures x * y == 0.0 <==> x == 0.0
  {
  }

  function Multiple(d: real, m: int): real {
    d * m as real
  }

  lemma MultipleOfDifference(d: real, f: int, g: int)
    ensures Multiple(d, f - g) == Multiple(d, f) - Multiple(d, g)
  {
    assert (f - g) as real == f as real - g as real;
  }

  lemma MultipleOfOne(d: real)
    ensures Multiple(d, 1) == d && Multiple(d, -1) == -d
  {
  }

  lemma SignOfMultiple(d: real, m: int)
    requires d > 0.0
    ensures Multiple(d, m) >= 0.0 <==> m >= 0
    ensures Multiple(d, m) == 0.0 <==> m == 0
  {
    SignOfProduct(m as real, d);
  }

  // The only multiple of d between -d and d is zero.
  lemma SmallMultiple(d: real, m: int)
    requires d > 0.0 && -d < Multiple(d, m) < d
    ensures m == 0
  {
    hide Multiple;
    MultipleOfDifference(d, m, 1);
    MultipleOfDifference(d, m, -1);
    MultipleOfOne(d);
    SignOfMultiple(d, m - 1);
    SignOfMultiple(d, m + 1);
  }

  // Numbers below d that differ by a multiple of d are equal.
  lemma SameRemainder(a: real, b: real, d: real, f: int, g: int)
    requires 0.0 <= a < d && 0.0 <= b < d && a - Multiple(d, f) == b - Multiple(d, g)
    ensures a == b
  {
    hide Multiple;
    MultipleOfDifference(d, f, g);
    SmallMultiple(d, f - g);
  }

  // Numbers with the same remainder differ by a multiple.
  lemma EqualRemainders(x: real, z: real, y: nat) returns (m: int)
    requires x >= 0.0 && z >= 0.0 && y > 0 && Fmod(x, y) == Fmod(z, y)
    ensures x - z == Multiple(y as real, m)
  {
    var f, g := (x / y as real).Floor, (z / y as real).Floor;
    m := f - g;
    MultipleOfDifference(y as real, f, g);
  }

  // Two remainders that meet after the same step were equal before it.
  lemma FmodCancel(a: real, b: real, k: nat, y: nat)
    requires y > 0 && 0.0 <= a < y as real && 0.0 <= b < y as real
    ensures Fmod(a + k as real, y) == Fmod(b + k as real, y) <==> a == b
  {
    if Fmod(a + k as real, y) == Fmod(b + k as real, y) {
      SameRemainder(a, b, y as real, ((a + k as real) / y as real).Floor, ((b + k as real) / y as real).Floor);
    }
  }

  lemma FmodOfRemainder(x: real, y: nat)
    requires y > 0 && 0.0 <= x < y as real
    ensures Fmod(x, y) == x
  {
    Proportion(x, y as real);
  }

  lemma Proportion(x: real, d: real)
    requires 0.0 <= x < d
    ensures 0.0 <= x / d < 1.0
  {
    var q := x / d;
    assert q * d == x;
    assert (1.0 - q) * d == d - x;
    SignOfProduct(q, d);
    SignOfProduct(1.0 - q, d);
  }
}
