/** Quotients and products of numbers, as the codecs and the tile index need them */
module Quotients {
  lemma MultipleGrows(d: int, z: int)
    requires d > 0
    ensures (z >= 1 ==> d * z >= d) && (z <= -1 ==> d * z <= -d)
  {
    assert d * z == d * (z - 1) + d == d * (z + 1) - d;
  }

  lemma LessOrEqualTimes(a: nat, b: nat, c: nat)
    requires a <= b
    ensures a * c <= b * c
  {
  }

  lemma LessTimes(a: nat, b: nat, c: nat)
    requires a < b && c > 0
    ensures a * c < b * c
  {
  }

  lemma DivideUnique(n: nat, d: nat, q: nat, r: nat)
    requires d > 0 && n == d * q + r && r < d
    ensures n / d == q && n % d == r
  {
    MultipleGrows(d, n / d - q);
    assert d * (n / d - q) == d * (n / d) - d * q;
  }

  lemma QuotientAtLeast(n: int, d: int, q: int)
    requires d > 0
    ensures q <= n / d <==> q * d <= n
    ensures n / d <= q <==> n < q * d + d
  {
    MultipleGrows(d, n / d - q);
    assert d * (n / d - q) == d * (n / d) - q * d;
  }

  lemma NestedQuotient(n: int, d: nat, k: nat, q: int, r: nat)
    requires d > 0 && k > 0 && n / d == q * k + r && r < k
    ensures n / (d * k) == q
  {
    assert d * k > 0 by { MultipleGrows(d, k); }
    var m := n / d;
    QuotientAtLeast(n, d, m);
    assert q * (d * k) == (q * k) * d;
    assert (q * k + r) * d == q * (d * k) + r * d;
    LessOrEqualTimes(r + 1, k, d);
    assert (r + 1) * d == r * d + d && k * d == d * k;
    QuotientAtLeast(n, d * k, q);
  }

  lemma DivideTwice(n: nat, a: nat, b: nat, c: nat)
    requires a > 0 && b > 0 && c > 0 && c == a * b
    ensures n / a / b == n / c
  {
    var m := n / a;
    assert m == (m / b) * b + m % b;
    MultipleGrows(a, b);
    NestedQuotient(n, a, b, m / b, m % b);
  }
}
