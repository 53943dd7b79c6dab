/** Facts about products and quotients that the solver does not find alone. */
module Arithmetic {

  lemma {:induction false} MulNext(a: nat, b: nat, k: nat)
    requires a < b
    ensures a * k + k <= b * k
    decreases b
  {
    if a + 1 < b {
      MulNext(a, b - 1, k);
    }
    assert b * k == (b - 1) * k + k;
  }

  lemma DivLess(x: nat, b: nat, n: nat)
    requires b > 0 && x < n * b
    ensures x / b < n
  {
    DivSplit(x, b);
    if n < x / b {
      MulNext(n, x / b, b);
    }
  }

  lemma DivSplit(x: nat, b: nat)
    requires b > 0
    ensures x == (x / b) * b + x % b
  {
  }

  lemma DivModUnique(q1: nat, r1: nat, q2: nat, r2: nat, b: nat)
    requires r1 < b && r2 < b && q1 * b + r1 == q2 * b + r2
    ensures q1 == q2 && r1 == r2
  {
    if q1 < q2 {
      MulNext(q1, q2, b);
    } else if q2 < q1 {
      MulNext(q2, q1, b);
    }
  }
}
