/** Integer facts that the models share. */
module Arith {
  const TWO64 := 0x1_0000_0000_0000_0000

  /** uint64_t arithmetic. */
  function U64(x: int): nat {
    x % TWO64
  }

  function Over(x: nat, p: nat): nat
    requires p > 0
  {
    x / p
  }

  lemma Apart(n: nat, a: nat, b: nat)
    requires a < b
    ensures n * b >= n * a + n
  {
    assert n * b == n * (a + 1) + n * (b - a - 1);
    assert n * (a + 1) == n * a + n;
  }

  lemma MulMonotone(p: nat, x: nat, y: nat)
    requires x <= y
    ensures p * x <= p * y
  {
    if x < y {
      Apart(p, x, y);
    }
  }

  /** Quotient and remainder are determined by x == n * q + r with r below n. */
  lemma DivMod(n: nat, q: nat, r: nat)
    requires r < n
    ensures (n * q + r) / n == q && (n * q + r) % n == r
  {
    var x := n * q + r;
    var q' := x / n;
    assert x == n * q' + x % n;
    if q' > q {
      Apart(n, q, q');
    } else if q' < q {
      Apart(n, q', q);
    }
  }

  lemma Quotient(p: nat, a: nat) returns (q: nat, r: nat)
    requires p > 0
    ensures q == a / p && r == a % p && a == p * q + r && r < p
  {
    q, r := a / p, a % p;
  }

  lemma QuotientMonotone(p: nat, a: nat, b: nat)
    requires p > 0 && a <= b
    ensures a / p <= b / p
  {
    var x, r := Quotient(p, a);
    var y, s := Quotient(p, b);
    if y < x {
      Apart(p, y, x);
    }
  }

  lemma QuotientStep(p: nat, a: nat, b: nat)
    requires p > 0 && a <= b < a + p
    ensures b / p <= a / p + 1
  {
    var x, r := Quotient(p, a);
    var y, s := Quotient(p, b);
    if x + 1 < y {
      Apart(p, x, x + 1);
      Apart(p, x + 1, y);
    }
  }

  lemma HalfThenQuotient(p: nat, a: nat)
    requires p > 0
    ensures a / 2 / p == a / (2 * p)
  {
    var q, r := Quotient(2 * p, a);
    assert 2 * p * q == 2 * (p * q);
    DivMod(p, q, r / 2);
  }

  lemma ModMultiple(m: nat, q: nat, y: nat)
    requires m > 0
    ensures (m * q + y) % m == y % m
  {
    var p, r := Quotient(m, y);
    assert m * q + y == m * (q + p) + r;
    DivMod(m, q + p, r);
  }

  lemma ModAdd(m: nat, x: nat, k: nat)
    requires m > 0
    ensures (x % m + k) % m == (x + k) % m
  {
    var q, r := Quotient(m, x);
    ModMultiple(m, q, r + k);
  }

  /** The remainder of a number below 2m. */
  lemma ModSmall(m: nat, y: nat)
    requires 0 < m && y < 2 * m
    ensures y % m == if y < m then y else y - m
  {
    if y < m {
      DivMod(m, 0, y);
    } else {
      DivMod(m, 1, y - m);
    }
  }

  /** Two numbers less than m apart have different remainders. */
  lemma ModDistinct(m: nat, x: nat, d: nat)
    requires 0 < d < m
    ensures (x + d) % m != x % m
  {
    ModAdd(m, x, d);
    ModSmall(m, x % m + d);
  }
}
