/** Multiplication and division facts that the solver does not find reliably on its own. */
module Arithmetic {
  lemma {:induction false} MulOrder(a: nat, b: nat, k: nat)
    requires a <= b
    ensures a * k <= b * k
    decreases b
  {
    if a < b {
      MulOrder(a, b - 1, k);
      Distribute(b - 1, 1, k);
    }
  }

  lemma Distribute(a: nat, b: nat, k: nat)
    ensures (a + b) * k == a * k + b * k
  {
  }

  lemma Assoc(a: nat, b: nat, c: nat)
    ensures (a * b) * c == a * (b * c)
  {
  }

  lemma DivMod(a: nat, m: nat)
    requires m > 0
    ensures a == a / m * m + a % m && a % m < m
  {
  }

  lemma DivUnique(a: nat, m: nat, q: nat, r: nat)
    requires m > 0 && r < m && a == q * m + r
    ensures a / m == q && a % m == r
  {
    var p := a / m;
    DivMod(a, m);
    if p < q {
      MulOrder(p + 1, q, m);
      Distribute(p, 1, m);
    } else if p > q {
      MulOrder(q + 1, p, m);
      Distribute(q, 1, m);
    }
  }

  lemma MulDiv(q: nat, m: nat)
    requires m > 0
    ensures q * m / m == q && q * m % m == 0
  {
    DivUnique(q * m, m, q, 0);
  }

  lemma AddMulDiv(q: nat, d: nat, y: nat)
    requires d > 0
    ensures (q * d + y) / d == q + y / d && (q * d + y) % d == y % d
  {
    DivMod(y, d);
    Distribute(q, y / d, d);
    DivUnique(q * d + y, d, q + y / d, y % d);
  }

  /** A quotient below a bound. */
  lemma DivBelow(a: nat, m: nat, q: nat)
    requires m > 0 && a < q * m
    ensures a / m < q
  {
    DivMod(a, m);
    if a / m >= q {
      MulOrder(q, a / m, m);
    }
  }

  lemma DivDiv(a: nat, b: nat, c: nat)
    requires b > 0 && c > 0
    ensures b * c > 0 && a / (b * c) == a / b / c
  {
    var x := a / b;
    var q, r := x / c, x % c;
    DivMod(a, b);
    DivMod(x, c);
    MulOrder(1, c, b);
    MulOrder(r + 1, c, b);
    Distribute(r, 1, b);
    Distribute(q * c, r, b);
    Assoc(q, c, b);
    DivUnique(a, c * b, q, r * b + a % b);
  }

  /** Reducing by a multiple of d * m first does not show in the digit that d and m select. */
  lemma DigitAfterMod(x: nat, d: nat, m: nat, k: nat)
    requires d > 0 && m > 0 && k > 0
    ensures k * m * d > 0 && x % (k * m * d) / d % m == x / d % m
  {
    MulOrder(1, k, m);
    MulOrder(1, k * m, d);
    var p := k * m * d;
    var q, y := x / p, x % p;
    DivMod(x, p);
    Assoc(q, k * m, d);
    AddMulDiv(q * (k * m), d, y);
    Assoc(q, k, m);
    AddMulDiv(q * k, m, y / d);
  }
}
