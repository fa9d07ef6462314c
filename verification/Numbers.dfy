/** Integer arithmetic that the verifier has to be led through step by step. */
module Numbers {

  lemma MulLe(a: int, b: int, d: int)
    requires a <= b && d >= 0
    ensures a * d <= b * d
  {
  }

  lemma DivUnique(x: int, q: int, r: int, d: int)
    requires 0 <= r < d && x == q * d + r
    ensures x / d == q && x % d == r
  {
    var a := x / d;
    assert x == a * d + x % d;
    if a < q {
      MulLe(a + 1, q, d);
    } else if q < a {
      MulLe(q + 1, a, d);
    }
  }

  lemma Cancel(b: int, x: int, y: int)
    requires b > 0
    ensures b * x <= b * y ==> x <= y
    ensures b * x < b * y ==> x < y
  {
    if x > y {
      MulLe(y + 1, x, b);
      assert (y + 1) * b == y * b + b;
    }
  }

  lemma Cross(a: int, b: int, c: int, d: int)
    requires a > b && c > d
    ensures a * c - a * d - b * c + b * d > 0
  {
    assert (a - b) * (c - d) == a * c - a * d - b * c + b * d;
    MulLe(1, a - b, c - d);
  }

  lemma CrossLe(a: int, b: int, c: int, d: int)
    requires a >= b && c >= d
    ensures a * c - a * d - b * c + b * d >= 0
  {
    assert (a - b) * (c - d) == a * c - a * d - b * c + b * d;
    MulLe(0, a - b, c - d);
  }

  lemma Diff(x: int, y: int, z: int)
    ensures (x - y) * z == x * z - y * z
  {
  }

  lemma Sum(x: int, y: int, z: int)
    ensures (x + y) * z == x * z + y * z
  {
  }

  lemma SameProduct(a: int, b: int, c: int)
    requires a == b
    ensures a * c == b * c
  {
  }

  lemma Nest(x: int, y: int, z: int)
    ensures (x * y) * z == x * (z * y) == x * (y * z)
  {
  }

  lemma Commute(x: int, y: int)
    ensures x * y == y * x
  {
  }

  lemma AtLeastOnce(p: nat, x: int)
    requires x >= 1
    ensures p <= p * x
  {
    MulLe(1, x, p);
  }

  lemma Lexicographic(x: nat, y: nat, p: nat, a: int, b: int)
    requires x < p && a < b
    ensures x + p * a < y + p * b
  {
    MulLe(a + 1, b, p);
    assert p * (a + 1) == p * a + p;
  }

  lemma Euclid(x: nat, d: nat)
    requires d > 0
    ensures x == (x / d) * d + x % d && 0 <= x / d && 0 <= x % d < d
  {
    if x / d < 0 { MulLe(x / d, -1, d); }
  }

  lemma ModMultiple(x: nat, k: int, d: nat)
    requires d > 0
    ensures (x + k * d) % d == x % d && (x + k * d) / d == x / d + k
  {
    Euclid(x, d);
    Sum(x / d, k, d);
    DivUnique(x + k * d, x / d + k, x % d, d);
  }

  /** Reducing modulo a multiple first changes nothing. */
  lemma ModMod(x: nat, d: nat, e: nat)
    requires d > 0 && e > 0 && d * e > 0
    ensures (x % (d * e)) % d == x % d
  {
    var q, r := x / (d * e), x % (d * e);
    Euclid(x, d * e);
    Nest(q, e, d);
    ModMultiple(r, q * e, d);
  }

  lemma DivDiv(x: nat, d: nat, e: nat)
    requires d > 0 && e > 0
    ensures d * e > 0 && x / (d * e) == (x / d) / e
  {
    MulLe(1, d, e);
    var q := x / d;
    Euclid(x, d);
    Euclid(q, e);
    var s, r, t := q / e, q % e, x % d;
    Nest(s, e, d);
    Sum(s * e, r, d);
    MulLe(r, e - 1, d);
    MulLe(0, r, d);
    Diff(e, 1, d);
    DivUnique(x, s, r * d + t, d * e);
  }
}
