/** Division and remainder by a positive number that is not a constant. */
module Arithmetic {

  lemma {:induction false} Grows(d: nat, q: nat, k: nat)
    requires k >= 1
    ensures d * (q + k) >= d * q + d
    decreases k
  {
    assert d * (q + 1) == d * q + d;
    if k == 1 {
    } else {
      Grows(d, q + 1, k - 1);
    }
  }

  lemma UniqueQuotient(d: nat, q: nat, r: nat, q': nat, r': nat)
    requires d * q + r == d * q' + r' && r < d && r' < d
    ensures q == q' && r == r'
  {
    if q < q' {
      Grows(d, q, q' - q);
    } else if q' < q {
      Grows(d, q', q - q');
    }
  }

  lemma Euclid(q: nat, r: nat, d: nat)
    requires r < d
    ensures (r + d * q) / d == q && (r + d * q) % d == r
  {
    var x := r + d * q;
    UniqueQuotient(d, q, r, x / d, x % d);
  }

  // Multiples less than one step apart are the same.
  lemma NearMultiples(x: nat, y: nat, a: nat)
    requires a > 0 && x % a == 0 && y % a == 0 && x <= y < x + a
    ensures x == y
  {
    assert x == a * (x / a) && y == a * (y / a);
    UniqueQuotient(a, x / a, y - x, y / a, 0);
  }

  // The next multiple of `a`.
  function RoundUp(x: int, a: int): int
    requires a > 0
  {
    (x + a - 1) / a * a
  }

  /** It is the least multiple that is not smaller. */
  lemma RoundingUp(x: nat, a: nat)
    requires a > 0
    ensures x <= RoundUp(x, a) < x + a && RoundUp(x, a) % a == 0
    ensures RoundUp(x, a) == x <==> x % a == 0
  {
    var n := x + a - 1;
    var q, r := n / a, n % a;
    assert n == a * q + r;
    assert RoundUp(x, a) == q * a == 0 + a * q;
    Euclid(q, 0, a);
    if x % a == 0 {
      NearMultiples(x, RoundUp(x, a), a);
    }
  }

  // Where rounding to a smaller step is enough, rounding to a greater one agrees if it can.
  lemma RoundingFurther(x: nat, small: nat, a: nat)
    requires 0 < small <= a
    ensures RoundUp(x, a) == RoundUp(x, small) <==> RoundUp(x, small) % a == 0
  {
    RoundingUp(x, small);
    RoundingUp(x, a);
    var y, z := RoundUp(x, small), RoundUp(x, a);
    if y % a == 0 {
      if y <= z {
        NearMultiples(y, z, a);
      } else {
        NearMultiples(z, y, a);
      }
    }
  }
}
