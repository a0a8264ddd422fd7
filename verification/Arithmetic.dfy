/** Facts about products and quotients of variables. */
module Arithmetic {
  lemma {:induction false} MulStep(a: nat, b: nat, n: nat)
    requires a < b
    ensures a * n + n <= b * n
    decreases b
  {
    if a + 1 < b {
      MulStep(a, b - 1, n);
      assert b * n == (b - 1) * n + n;
    } else {
      assert b * n == a * n + n;
    }
  }

  lemma DivMod(n: nat, b: nat, r: nat)
    requires r < n
    ensures (b * n + r) / n == b && (b * n + r) % n == r
  {
    var x := b * n + r;
    var q := x / n;
    assert x == q * n + x % n;
    if q < b {
      MulStep(q, b, n);
    } else if b < q {
      MulStep(b, q, n);
    }
  }

  lemma MulOrder(n: nat, a: nat, b: nat)
    requires 0 < n
    ensures a < b <==> a * n < b * n
    ensures a < b ==> a * n + n <= b * n
    ensures a * n == b * n <==> a == b
  {
    if a < b {
      MulStep(a, b, n);
    } else if b < a {
      MulStep(b, a, n);
    }
  }

  // Multiples of `n` are at least `n` apart.
  lemma Multiples(n: nat, x: nat, y: nat)
    requires 0 < n && x % n == 0 && y % n == 0
    ensures x < y ==> x + n <= y
    ensures (x + n) % n == 0 && (x + y) % n == 0
  {
    var a, b := x / n, y / n;
    assert x == a * n && y == b * n;
    MulOrder(n, a, b);
    assert x + n == (a + 1) * n + 0;
    DivMod(n, a + 1, 0);
    assert x + y == (a + b) * n + 0;
    DivMod(n, a + b, 0);
  }
}
