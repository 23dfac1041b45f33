/** Quotient and alignment facts shared by the page tables, the SEV memory code and the clock. */
module Arith {

  lemma MulMonotone(x: int, y: int, c: nat)
    requires x <= y
    ensures x * c <= y * c
  {
    assert (y - x) * c >= 0;
  }

  lemma QuotientUnique(a: nat, c: nat, q: nat, r: nat)
    requires r < c && a == q * c + r
    ensures a / c == q && a % c == r
  {
    var q' := a / c;
    assert a == q' * c + a % c;
    if q' > q {
      MulMonotone(q + 1, q', c);
      assert false;
    }
    if q' < q {
      MulMonotone(q' + 1, q, c);
      assert false;
    }
  }

  /** A range of whole blocks, seen as blocks. */
  lemma RangeQuotient(base: nat, size: nat, a: nat, c: nat)
    requires c > 0 && base % c == 0 && size % c == 0
    ensures base <= a < base + size <==> base / c <= a / c < base / c + size / c
  {
    var q, n, p := base / c, size / c, a / c;
    assert base == q * c && size == n * c && a == p * c + a % c;
    if p < q { MulMonotone(p + 1, q, c); } else { MulMonotone(q, p, c); }
    assert base + size == (q + n) * c;
    if p < q + n { MulMonotone(p + 1, q + n, c); } else { MulMonotone(q + n, p, c); }
  }

  lemma Recombine(c: nat, n: nat, m: nat, i: nat, r: nat)
    requires r < c && i < n
    ensures (m * n + i) * c + r == m * (n * c) + (i * c + r)
    ensures 0 <= i * c + r < n * c
  {
    MulMonotone(0, i, c);
    MulMonotone(i + 1, n, c);
  }

  lemma Regroup(a: nat, c: nat, n: nat, q: nat, r: nat, m: nat, i: nat, d: nat)
    requires a == q * c + r && q == m * n + i && d == n * c && r < c && i < n
    ensures a == m * d + (i * c + r) && 0 <= i * c + r < d
  {
    Recombine(c, n, m, i, r);
  }

  /** Splitting off one factor of a quotient. */
  lemma Requotient(a: nat, c: nat, n: nat)
    requires c > 0 && n > 0
    ensures n * c > 0 && a / (n * c) == a / c / n
  {
    var q, r := a / c, a % c;
    var m, i := q / n, q % n;
    var d := n * c;
    Regroup(a, c, n, q, r, m, i, d);
    var s := i * c + r;
    QuotientUnique(a, d, m, s);
  }

  lemma Expand(m: int, n: int, i: int, c: int)
    ensures (m * n + i) * c == m * (n * c) + i * c
  {
  }

  lemma QuotientBound(a: nat, c: nat)
    requires c > 0
    ensures 0 <= a / c <= a
  {
    var q := a / c;
    assert a == q * c + a % c;
    MulMonotone(1, c, q);
  }

  lemma QuotientHalf(a: nat, c: nat)
    requires c > 1
    ensures 2 * (a / c) <= a
  {
    var q := a / c;
    assert a == q * c + a % c;
    MulMonotone(2, c, q);
  }

  lemma QuotientBelow(a: nat, c: nat, n: nat)
    requires c > 0 && a < n * c
    ensures a / c < n
  {
    var q := a / c;
    assert a == q * c + a % c;
    if n <= q {
      MulMonotone(n, q, c);
      assert false;
    }
  }

  lemma QuotientMonotone(a: nat, b: nat, c: nat)
    requires c > 0 && a <= b
    ensures a / c <= b / c
  {
    var q, q' := a / c, b / c;
    assert a == q * c + a % c && b == q' * c + b % c;
    if q' < q {
      MulMonotone(q' + 1, q, c);
      assert false;
    }
  }

  /** Quotients round down, for negative numbers too. */
  lemma FloorMonotone(a: int, b: int, c: nat)
    requires c > 0 && a <= b
    ensures a / c <= b / c
    ensures a / c == b / c ==> a % c <= b % c
  {
    var q, q' := a / c, b / c;
    assert a == q * c + a % c && b == q' * c + b % c;
    if q' < q {
      MulMonotone(q' + 1, q, c);
      assert false;
    }
  }

  lemma FloorUnique(a: int, c: nat, q: int, r: nat)
    requires r < c && a == q * c + r
    ensures a / c == q && a % c == r
  {
    var q' := a / c;
    assert a == q' * c + a % c;
    if q' > q {
      MulMonotone(q + 1, q', c);
      assert false;
    }
    if q' < q {
      MulMonotone(q' + 1, q, c);
      assert false;
    }
  }

  /** Adding with carry: the seconds and ticks of a sum. */
  lemma Carry(a: nat, b: nat, s: int, c: nat)
    requires c > 0
    ensures (s * c + b + a) / c == a / c + s + (a % c + b) / c
    ensures (s * c + b + a) % c == (a % c + b) % c
  {
    var q, r := a / c, a % c;
    var k, t := (r + b) / c, (r + b) % c;
    assert a == q * c + r && r + b == k * c + t;
    assert s * c + b + a == (q + s + k) * c + t;
    FloorUnique(s * c + b + a, c, q + s + k, t);
  }

  /** A quotient grows by no more than the dividend does. */
  lemma QuotientGrowth(a: int, b: int, c: nat)
    requires c > 0 && a <= b
    ensures b / c - a / c <= b - a
  {
    var d, q, r := b - a, a / c, a % c;
    var e := d * c;
    MulMonotone(1, c, d);
    assert a + e == (q + d) * c + r by { assert a == q * c + r; }
    FloorUnique(a + e, c, q + d, r);
    FloorMonotone(b, a + e, c);
  }

  /** Scaling by n / c, rounding down, and back by c / n, rounding down. */
  lemma RoundTrip(x: nat, n: nat, c: nat)
    requires n > 0 && c > 0
    ensures x * n / c * c / n <= x
    ensures (x - x * n / c * c / n) * n < n + c
  {
    var y := x * n / c;
    var z := y * c / n;
    assert x * n == y * c + x * n % c;
    assert y * c == z * n + y * c % n;
    if z > x {
      MulMonotone(x + 1, z, n);
      assert false;
    }
    assert (x - z) * n == x * n - z * n;
  }
}
