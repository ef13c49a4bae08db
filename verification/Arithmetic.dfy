// The few non-linear facts the proofs need, each stated once.

module Arithmetic {

  lemma MulAtLeast(k: int, p: nat)
    requires k >= 1
    ensures k * p >= p
  {
    assert (k - 1) * p >= 0;
  }

  /** Quotient and remainder are determined by their equation. */
  lemma DivModUnique(n: int, p: nat, q: int, r: int)
    requires 0 <= r < p && n == q * p + r
    ensures n / p == q && n % p == r
  {
    var k := n / p - q;
    assert k * p == r - n % p;
    if k >= 1 {
      MulAtLeast(k, p);
    } else if k <= -1 {
      MulAtLeast(-k, p);
    }
  }

  /** Different numbers differ in quotient or remainder. */
  lemma DivModDiffer(i: nat, j: nat, p: nat)
    requires p > 0 && i != j
    ensures i / p != j / p || i % p != j % p
    ensures p == 1 ==> i % p == j % p == 0
  {
    DivModUnique(i, p, i / p, i % p);
    DivModUnique(j, p, j / p, j % p);
    if i / p == j / p {
      assert i / p * p == j / p * p;
    }
  }

  lemma CancelLess(a: int, b: int, p: nat)
    requires a * p < b * p
    ensures a < b
  {
  }

  lemma DivBound(n: nat, q: nat, p: nat)
    requires p > 0 && n < q * p
    ensures n / p < q && n % p < p
  {
    assert (n / p) * p <= n;
    CancelLess(n / p, q, p);
  }

  lemma MulLess(q: nat, m: nat, p: nat, r: nat)
    requires q < m && r < p
    ensures q * p + r < m * p
  {
    assert (q + 1) * p <= m * p;
  }

  lemma MulMonotone(a: nat, b: nat, p: nat)
    requires a <= b
    ensures a * p <= b * p
  {
  }

  lemma MulStep(n: nat, p: nat)
    requires n > 0
    ensures n * p == (n - 1) * p + p >= p
  {
  }

  /** The i-th of n items of size p ends within the room n of them have. */
  lemma StepFits(i: nat, n: nat, p: nat, limit: nat)
    requires i < n && n * p <= limit
    ensures (i + 1) * p == i * p + p <= limit
  {
    MulMonotone(i + 1, n, p);
  }

  lemma DivMonotone(a: nat, b: nat, p: nat)
    requires p > 0 && a <= b
    ensures a / p <= b / p
  {
    assert (a / p) * p <= a < (b / p + 1) * p;
    CancelLess(a / p, b / p + 1, p);
  }

  /** As many items of size p fit as division says, and no more. */
  lemma CountFits(n: nat, p: nat, room: nat)
    requires p > 0
    ensures n <= room / p <==> n * p <= room
    ensures room / p * p <= room
  {
    var q := room / p;
    assert q * p <= room < (q + 1) * p;
    if n <= q {
      MulMonotone(n, q, p);
    } else {
      MulMonotone(q + 1, n, p);
    }
  }

  lemma AddMultiple(n: int, m: nat, k: int)
    requires m > 0
    ensures (n + k * m) % m == n % m
  {
    var q := n / m;
    assert n + k * m == (q + k) * m + n % m;
    DivModUnique(n + k * m, m, q + k, n % m);
  }

  /** Reducing modulo a multiple first changes nothing. */
  lemma ModOfMod(n: int, m: nat, k: nat)
    requires m > 0 && k > 0
    ensures m * k > 0 && (n % (m * k)) % m == n % m
  {
    MulAtLeast(k, m);
    var q := n / (m * k);
    assert n == q * (m * k) + n % (m * k);
    assert q * (m * k) == (q * k) * m;
    AddMultiple(n % (m * k), m, q * k);
  }

  lemma ModAdd(a: int, b: int, m: nat)
    requires m > 0
    ensures (a + b) % m == (a % m + b % m) % m
  {
    assert a + b == a % m + b % m + (a / m + b / m) * m;
    AddMultiple(a % m + b % m, m, a / m + b / m);
  }

  lemma SmallMod(v: nat, m: nat)
    requires v < m
    ensures v % m == v
  {
    DivModUnique(v, m, 0, v);
  }
}
