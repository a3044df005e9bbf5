/** Facts about products and quotients that the solver does not find on its own. */
module Arithmetic {

  lemma NextMultiple(n: int, c: int)
    ensures (n + 1) * c == n * c + c
  {
  }

  lemma NextProduct(c: int, n: int)
    ensures c * (n + 1) == c * n + c
  {
  }

  lemma MonotoneProduct(c: nat, a: int, b: int)
    requires a <= b
    ensures c * a <= c * b
  {
  }

  lemma DivisionIsUnique(n: nat, c: nat, q: nat, r: nat)
    requires c > 0 && n == c * q + r && r < c
    ensures q == n / c && r == n % c
  {
    var q', r' := n / c, n % c;
    assert n == c * q' + r';
    if q < q' {
      MonotoneProduct(c, q + 1, q');
    } else if q' < q {
      MonotoneProduct(c, q' + 1, q);
    }
  }

  lemma SignsOfProduct(a: int, b: int)
    ensures a * -b == -(a * b) && -a * b == -(a * b) && -a * -b == a * b
  {
  }

  lemma Regroup(a: int, b: int, q: int, r: int)
    ensures a * (b * q + r) == a * b * q + a * r
  {
  }

  lemma DividedTwice(n: nat, a: nat, b: nat)
    requires a > 0 && b > 0
    ensures a * b > 0 && n / a / b == n / (a * b)
  {
    var q, r := n / a, n % a;
    var q', r' := q / b, q % b;
    Regroup(a, b, q', r');
    assert n == a * b * q' + (a * r' + r);
    MonotoneProduct(a, r' + 1, b);
    NextProduct(a, r');
    DivisionIsUnique(n, a * b, q', a * r' + r);
  }

  /** Quotient and remainder of the next number. */
  lemma NextQuotient(n: nat, c: nat)
    requires c > 0
    ensures n % c == c - 1 ==> (n + 1) / c == n / c + 1 && (n + 1) % c == 0
    ensures n % c != c - 1 ==> (n + 1) / c == n / c && (n + 1) % c == n % c + 1
  {
    var q, r := n / c, n % c;
    assert n == c * q + r;
    if r == c - 1 {
      NextProduct(c, q);
      DivisionIsUnique(n + 1, c, q + 1, 0);
    } else {
      DivisionIsUnique(n + 1, c, q, r + 1);
    }
  }
}
