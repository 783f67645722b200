/** Facts about products and quotients. */
module Division {

  lemma Product(d: nat, x: int)
    requires d > 0
    ensures x >= 1 ==> d * x >= d
    ensures x <= -1 ==> d * x + d <= 0
  {
    if x >= 1 { Grows(d, x - 1); assert d * x == d * (x - 1) + d; }
    if x <= -1 { Grows(d, -x - 1); assert d * x + d == -(d * (-x - 1)); }
  }

  lemma Grows(d: nat, x: nat)
    ensures d * x >= 0
  {
  }

  lemma Quotient(a: nat, d: nat, q: nat, r: nat)
    requires d > 0 && a == d * q + r && r < d
    ensures a / d == q && a % d == r
  {
    var q', r' := a / d, a % d;
    var x := q - q';
    Product(d, x);
    Spread(d, q, q');
  }

  lemma Spread(d: int, q: int, q': int)
    ensures d * (q - q') == d * q - d * q'
  {
  }

  lemma Distribute(a: int, b: int, c: int)
    ensures a * (b + c) == a * b + a * c
  {
  }

  lemma Associate(c: int, b: int, q: int)
    ensures c * (b * q) == (b * c) * q
  {
  }
}
