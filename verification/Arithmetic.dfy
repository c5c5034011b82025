/** Quotients, remainders and products of natural numbers. */
module Arithmetic {
  lemma Distribute(x: nat, y: nat, d: nat)
    ensures (x + y) * d == x * d + y * d
  {
  }

  lemma Parts(n: nat, d: nat)
    requires d > 0
    ensures n == (n / d) * d + n % d
  {
  }

  lemma QuotientAtLeast(n: nat, q: nat, d: nat)
    requires d > 0 && q * d <= n
    ensures q <= n / d
  {
    var p := n / d;
    Parts(n, d);
    Distribute(p, 1, d);
    Monotone(p + 1, q, d);
  }

  lemma Monotone(a: nat, b: nat, d: nat)
    ensures a <= b ==> a * d <= b * d
  {
    if a <= b {
      Distribute(a, b - a, d);
    }
  }

  lemma DivSum(a: nat, b: nat, d: nat)
    requires d > 0
    ensures a / d + b / d <= (a + b) / d
  {
    var x, y := a / d, b / d;
    assert x * d <= a && y * d <= b by {
      Parts(a, d);
      Parts(b, d);
    }
    assert (x + y) * d <= a + b by {
      Distribute(x, y, d);
    }
    QuotientAtLeast(a + b, x + y, d);
  }

  lemma QuotientAtMost(m: nat, n: nat, d: nat)
    requires d > 0 && m <= n
    ensures m / d <= n / d
  {
    assert m == (m / d) * d + m % d;
    QuotientAtLeast(n, m / d, d);
  }

  lemma ModOfMultiple(q: nat, d: nat)
    requires d > 0
    ensures q * d % d == 0
  {
    var n := q * d;
    var p, r := n / d, n % d;
    assert n == p * d + r by {
      Parts(n, d);
    }
    QuotientAtLeast(n, q, d);
    assert p * d == (p - q) * d + q * d by {
      Distribute(p - q, q, d);
    }
  }
}
