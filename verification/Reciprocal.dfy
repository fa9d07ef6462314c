/** Why division with a precomputed reciprocal works (T. Granlund and N. Moeller's method, used in
    src/mini-gmp.c): the candidate quotient is at most one off, in a way that shows in its remainder.
    `b` is the size of a limb. */
module Reciprocal {
  import opened Numbers

  lemma QuotientFits(n: int, d: int, b: int, q: int, r: int)
    requires 0 <= n < d * b && n == q * d + r && 0 <= r < d
    ensures 0 <= q < b
  {
    if q >= b { MulLe(b, q, d); }
    if q < 0 { MulLe(q, -1, d); }
  }

  // ------------------------------------------------------------------ two limbs by one

  /** `v` is floor((b^2 - 1) / d) - b. */
  ghost predicate Inverse2(b: int, d: int, v: int) {
    b <= 2 * d && 0 < d < b && v >= 0 && 1 <= b * b - (b + v) * d <= d
  }

  lemma Inverse2Is(b: int, d: int, v: int)
    requires b <= 2 * d && 0 < d < b && v >= 0
    ensures Inverse2(b, d, v) <==> v == (b * b - 1) / d - b
  {
    var q := (b * b - 1) / d;
    assert (b + v) * d == b * d + v * d;
    if Inverse2(b, d, v) { DivUnique(b * b - 1, b + v, b * b - 1 - (b + v) * d, d); }
    if v == q - b { assert b * b - 1 == (b + v) * d + (b * b - 1) % d; }
  }

  /** With `r` the remainder of the candidate quotient `q`, b * r as a sum of small parts. */
  lemma Remainder2(b: int, nh: int, nl: int, d: int, v: int, q: int, ql: int)
    requires nh * (b + v) + b + nl == q * b + ql
    ensures var e, r := b * b - (b + v) * d, nh * b + nl - q * d;
            b * r == nh * e + nl * (b - d) + ql * d - b * d
  {
    var e, x := b * b - (b + v) * d, nh * (b + v);
    assert (q * b) * d == (x + b + nl - ql) * d;
    assert x * d == nh * ((b + v) * d);
    assert nh * e == nh * (b * b) - nh * ((b + v) * d);
    assert b * (nh * b + nl - q * d) == nh * (b * b) + b * nl - (q * b) * d;
  }

  lemma LowD(b: int, d: int, ql: int, r: int, t: int)
    requires 0 < b && 0 < d && 0 <= ql && b * r == t + ql * d - b * d && t >= 0
    ensures -d <= r
  {
    MulLe(0, ql, d);
    assert b * (-d) == -(b * d);
    Cancel(b, -d, r);
  }

  lemma LowQ2(b: int, d: int, ql: int, r: int, t: int)
    requires 0 < d < b && ql < b && b * r == t + ql * d - b * d && t >= 0
    ensures ql - b < r
  {
    Cross(b, ql, b, d);
    assert b * (ql - b) == b * ql - b * b;
    Cancel(b, ql - b, r);
  }

  lemma High2(b: int, d: int, ql: int, r: int, t: int)
    requires 0 < d < b && 0 <= ql < b && b * r == t + ql * d - b * d
    requires t <= d * d - b * d + b * b - b
    ensures r < b - d || r < ql
  {
    assert (b - d) * d == b * d - d * d;
    if ql <= b - d {
      MulLe(ql, b - d, d);
      assert b * (b - d) == b * b - b * d;
      Cancel(b, r, b - d);
    } else {
      Cross(ql, b - d, b, d);
      assert (b - d) * b == b * b - b * d;
      Cancel(b, r, ql);
    }
  }

  lemma Parts2(b: int, nh: int, nl: int, d: int, e: int)
    requires 0 <= nh < d < b && 0 <= nl < b && 1 <= e <= d
    ensures 0 <= nh * e + nl * (b - d) <= d * d - b * d + b * b - b
  {
    SmallProduct(nh, d - 1, e, d);
    SmallProduct(nl, b - 1, b - d, b - d);
    Diff(d, 1, d);
    Diff(b, 1, b - d);
    Diff(b, d, b);
  }

  lemma SmallProduct(x: int, x1: int, y: int, y1: int)
    requires 0 <= x <= x1 && 0 <= y <= y1
    ensures 0 <= x * y <= x1 * y1
  {
    MulLe(0, x, y);
    MulLe(x, x1, y);
    MulLe(y, y1, x1);
  }

  lemma Candidate2(b: int, nh: int, nl: int, d: int, v: int, q: int, ql: int)
    requires Inverse2(b, d, v) && 0 <= nh < d && 0 <= nl < b && 0 <= ql < b
    requires nh * (b + v) + b + nl == q * b + ql
    ensures var r := nh * b + nl - q * d;
            -d <= r && ql - b < r && (r < b - d || r < ql)
  {
    var e, r := b * b - (b + v) * d, nh * b + nl - q * d;
    var t := nh * e + nl * (b - d);
    Remainder2(b, nh, nl, d, v, q, ql);
    Parts2(b, nh, nl, d, e);
    LowD(b, d, ql, r, t);
    LowQ2(b, d, ql, r, t);
    High2(b, d, ql, r, t);
  }

  // ------------------------------------------------------------------ three limbs by two

  /** `v` is floor((b^3 - 1) / (d1 b + d0)) - b. */
  ghost predicate Inverse3(b: int, d: int, v: int) {
    b * b <= 2 * d && 0 < d < b * b && v >= 0 && 1 <= b * b * b - (b + v) * d <= d
  }

  lemma Inverse3Is(b: int, d: int, v: int)
    requires b * b <= 2 * d && 0 < d < b * b && v >= 0
    ensures Inverse3(b, d, v) <==> v == (b * b * b - 1) / d - b
  {
    var n := b * b * b - 1;
    assert (b + v) * d == b * d + v * d;
    if Inverse3(b, d, v) { DivUnique(n, b + v, n - (b + v) * d, d); }
    if v == n / d - b { assert n == (b + v) * d + n % d; }
  }

  lemma Remainder3(b: int, n2: int, n1: int, n0: int, d: int, v: int, q: int, q0: int)
    requires n2 * (b + v) + n1 == q * b + q0
    ensures var e, r := b * b * b - (b + v) * d, n2 * (b * b) + n1 * b + n0 - (q + 1) * d;
            b * r == n2 * e + n1 * (b * b - d) + b * n0 + q0 * d - b * d
  {
    var e, x := b * b * b - (b + v) * d, n2 * (b + v);
    assert (q * b) * d == (x + n1 - q0) * d;
    assert x * d == n2 * ((b + v) * d);
    assert n2 * e == n2 * (b * b * b) - n2 * ((b + v) * d);
    assert b * (n2 * (b * b)) == n2 * (b * b * b);
    assert b * (n1 * b) == n1 * (b * b);
    assert b * ((q + 1) * d) == (q * b) * d + b * d;
    assert n1 * (b * b - d) == n1 * (b * b) - n1 * d;
  }

  lemma LowQ3(b: int, d: int, q0: int, r: int, t: int)
    requires 0 < d < b * b && 0 <= q0 < b && b * r == t + q0 * d - b * d && t >= 0
    ensures q0 * b - b * b < r
  {
    Cross(b, q0, b * b, d);
    assert b * (q0 * b - b * b) == q0 * (b * b) - b * (b * b);
    Cancel(b, q0 * b - b * b, r);
  }

  /** The bound on the small parts from which the upper bound of the remainder follows. */
  ghost predicate SmallParts(b: int, d: int, t: int) {
    b * t - (b * b) * d < (b * b - d) * (b * b - d)
  }

  lemma High3(b: int, d: int, q0: int, r: int, t: int)
    requires 0 < d < b * b && 0 <= q0 < b && b * r == t + q0 * d - b * d && SmallParts(b, d, t)
    ensures r < b * b - d || r < q0 * b
  {
    var s, w := b * b, q0 * b;
    Scale3(b, d, q0, r, t);
    High3Numbers(s, s - d, w, d, r, b * t);
  }

  lemma Scale3(b: int, d: int, q0: int, r: int, t: int)
    requires b * r == t + q0 * d - b * d
    ensures (b * b) * r == b * t + (q0 * b) * d - (b * b) * d
  {
    assert (b * b) * r == b * (b * r);
    assert b * (q0 * d) == (q0 * b) * d && b * (b * d) == (b * b) * d;
    assert b * (t + q0 * d - b * d) == b * t + b * (q0 * d) - b * (b * d);
  }

  lemma High3Numbers(s: int, m: int, w: int, d: int, r: int, bt: int)
    requires s > 0 && m > 0 && d > 0 && w >= 0 && s == m + d
    requires s * r == bt + w * d - s * d && bt - s * d < m * m
    ensures r < m || r < w
  {
    assert s * m == m * m + d * m && s * w == m * w + d * w;
    if w <= m {
      MulLe(w, m, d);
      Cancel(s, r, m);
    } else {
      MulLe(m, w, m);
      Cancel(s, r, w);
    }
  }

  lemma Candidate3(b: int, n2: int, n1: int, n0: int, d1: int, d0: int, v: int, q: int, q0: int)
    requires Inverse3(b, d1 * b + d0, v) && 0 <= d0 < b && 0 <= n1 < b && 0 <= n0 < b && 0 <= q0 < b
    requires 0 <= n2 && n2 * b + n1 < d1 * b + d0
    requires n2 * (b + v) + n1 == q * b + q0
    ensures var d := d1 * b + d0; var r := n2 * (b * b) + n1 * b + n0 - (q + 1) * d;
            -d <= r && q0 * b - b * b < r && (r < b * b - d || r < q0 * b)
  {
    var d := d1 * b + d0;
    var e, r := b * b * b - (b + v) * d, n2 * (b * b) + n1 * b + n0 - (q + 1) * d;
    var t := n2 * e + n1 * (b * b - d) + b * n0;
    Remainder3(b, n2, n1, n0, d, v, q, q0);
    MulLe(0, n2, e);
    MulLe(0, n1, b * b - d);
    MulLe(0, n0, b);
    LowD(b, d, q0, r, t);
    LowQ3(b, d, q0, r, t);
    Parts3(b, n2, n1, n0, d1, d0, v, e);
    High3(b, d, q0, r, t);
  }

  lemma TopOrder(b: int, n2: int, n1: int, d1: int, d0: int)
    requires 0 <= n1 < b && 0 <= d0 < b && n2 * b + n1 < d1 * b + d0
    ensures n2 < d1 || (n2 == d1 && n1 < d0)
  {
    assert (d1 + 1) * b == d1 * b + b;
    if n2 > d1 { MulLe(d1 + 1, n2, b); }
  }

  lemma Parts3(b: int, n2: int, n1: int, n0: int, d1: int, d0: int, v: int, e: int)
    requires Inverse3(b, d1 * b + d0, v) && 0 <= d0 < b && 0 <= n1 < b && 0 <= n0 < b
    requires 0 <= n2 && n2 * b + n1 < d1 * b + d0 && e == b * b * b - (b + v) * (d1 * b + d0)
    ensures var d := d1 * b + d0; SmallParts(b, d, n2 * e + n1 * (b * b - d) + b * n0)
  {
    var d := d1 * b + d0;
    var m := b * b - d;
    MulLe(n0, b - 1, b);
    assert (b - 1) * b == b * b - b;
    TopOrder(b, n2, n1, d1, d0);
    if n2 < d1 {
      Parts3Below(b, n2, n1, n0, d1, d0, e);
    } else if b * m >= d {
      Parts3Equal(b, n1, n0, d1, d0, e);
    } else {
      Parts3Top(b, n2, n1, n0, d, v, e);
    }
  }

  lemma Parts3Below(b: int, n2: int, n1: int, n0: int, d1: int, d0: int, e: int)
    requires 0 <= n2 < d1 && 0 <= n1 < b && 0 <= n0 < b && 0 <= d0 < b
    requires 1 <= e <= d1 * b + d0 < b * b
    ensures var d := d1 * b + d0; SmallParts(b, d, n2 * e + n1 * (b * b - d) + b * n0)
  {
    var d := d1 * b + d0;
    BelowParts(b, n2, n1, n0, d1, d, e, b * b - d);
    BelowNumbers(b, d1, d0, d, b * b, b * b - d, n2 * e + n1 * (b * b - d) + b * n0);
  }

  lemma BelowParts(b: int, n2: int, n1: int, n0: int, d1: int, d: int, e: int, m: int)
    requires 0 <= n2 < d1 && 0 <= n1 < b && 0 <= n0 < b && 1 <= e <= d && m >= 0
    ensures n2 * e + n1 * m + b * n0 <= (d1 - 1) * d + (b - 1) * m + (b - 1) * b
  {
    MulLe(n2, d1 - 1, e);
    MulLe(e, d, d1 - 1);
    MulLe(n1, b - 1, m);
    MulLe(n0, b - 1, b);
  }

  lemma BelowNumbers(b: int, d1: int, d0: int, d: int, s: int, m: int, t: int)
    requires 0 < b && 0 <= d0 && d == d1 * b + d0 && s == b * b && s == m + d && d > 0
    requires t <= (d1 - 1) * d + (b - 1) * m + (b - 1) * b
    ensures b * t - s * d < m * m
  {
    ScaledBound(b, t, d1 - 1, d, b - 1, m, b - 1);
    SameProduct(b * (d1 - 1), d - d0 - b, d);
    SameProduct(b * (b - 1), s - b, m);
    SameProduct(b * (b - 1), s - b, b);
    BelowFinish(b, d0, d, s, m, b * t);
  }

  lemma ScaledBound(b: int, t: int, x: int, d: int, y: int, m: int, z: int)
    requires b > 0 && t <= x * d + y * m + z * b
    ensures b * t <= (b * x) * d + (b * y) * m + (b * z) * b
  {
    MulLe(t, x * d + y * m + z * b, b);
    ScaleSum(b, x, d, y, m, z);
  }

  lemma ScaleSum(b: int, x: int, d: int, y: int, m: int, z: int)
    ensures b * (x * d + y * m + z * b) == (b * x) * d + (b * y) * m + (b * z) * b
  {
    assert b * (x * d) == (b * x) * d && b * (y * m) == (b * y) * m && b * (z * b) == (b * z) * b;
  }

  lemma BelowFinish(b: int, d0: int, d: int, s: int, m: int, bt: int)
    requires bt <= (d - d0 - b) * d + (s - b) * m + (s - b) * b
    requires s == b * b && s == m + d && s > 0 && d0 >= 0 && d > 0
    ensures bt - s * d < m * m
  {
    Diff(d - d0, b, d);
    Diff(d, d0, d);
    Diff(s, b, m);
    Diff(s, b, b);
    SameProduct(s, m + d, b);
    Sum(m, d, b);
    SameProduct(s, m + d, m);
    Sum(m, d, m);
    SameProduct(s, m + d, d);
    Sum(m, d, d);
    MulLe(0, d0, d);
  }

  lemma Parts3Equal(b: int, n1: int, n0: int, d1: int, d0: int, e: int)
    requires 0 <= n1 < d0 < b && 0 <= n0 < b && 0 <= d1 && 1 <= e <= d1 * b + d0 < b * b
    requires b * (b * b - (d1 * b + d0)) >= d1 * b + d0
    ensures var d := d1 * b + d0; SmallParts(b, d, d1 * e + n1 * (b * b - d) + b * n0)
  {
    var d := d1 * b + d0;
    EqualParts(b, n1, n0, d1, d0, d, e, b * b - d);
    EqualNumbers(b, d1, d0, d, b * b, b * b - d, d1 * e + n1 * (b * b - d) + b * n0);
  }

  lemma EqualParts(b: int, n1: int, n0: int, d1: int, d0: int, d: int, e: int, m: int)
    requires 0 <= n1 < d0 && 0 <= n0 < b && 0 <= d1 && 1 <= e <= d && m >= 0
    ensures d1 * e + n1 * m + b * n0 <= d1 * d + (d0 - 1) * m + (b - 1) * b
  {
    MulLe(e, d, d1);
    MulLe(n1, d0 - 1, m);
    MulLe(n0, b - 1, b);
  }

  lemma EqualNumbers(b: int, d1: int, d0: int, d: int, s: int, m: int, t: int)
    requires 0 <= d0 < b && d == d1 * b + d0 && s == b * b && s == m + d && b * m >= d
    requires t <= d1 * d + (d0 - 1) * m + (b - 1) * b
    ensures b * t - s * d < m * m
  {
    var k := b * m;
    ScaledBound(b, t, d1, d, d0 - 1, m, b - 1);
    SameProduct(b * d1, d - d0, d);
    SameProduct(b * (b - 1), s - b, b);
    Nest3(b, d0 - 1, m);
    Diff(d0, 1, k);
    SameProduct(b * b, s, m);
    Nest3(b, b, m);
    EqualFinish(b, d0, d, s, m, k, b * t);
  }

  lemma EqualFinish(b: int, d0: int, d: int, s: int, m: int, k: int, bt: int)
    requires bt <= (d - d0) * d + d0 * k - k + (s - b) * b
    requires s == b * b && s == m + d && s > 0 && 0 <= d0 < b && k == m * b && b * k == s * m && k >= d
    ensures bt - s * d < m * m
  {
    Diff(d, d0, d);
    Diff(s, b, b);
    SameProduct(s, m + d, b);
    Sum(m, d, b);
    SameProduct(s, m + d, m);
    Sum(m, d, m);
    SameProduct(s, m + d, d);
    Sum(m, d, d);
    CrossLe(b, d0, k, d);
  }

  lemma Parts3Top(b: int, n2: int, n1: int, n0: int, d: int, v: int, e: int)
    requires 0 < b && 0 < d < b * b && v >= 0 && 0 <= n0 < b && n2 * b + n1 < d
    requires b * (b * b - d) < d && e == b * b * b - (b + v) * d && e >= 1
    ensures SmallParts(b, d, n2 * e + n1 * (b * b - d) + b * n0)
  {
    var s := b * b;
    var m := s - d;
    TopRemainder(b, d, v, e, s, m);
    var t := n2 * e + n1 * m + b * n0;
    TopDigits(b, n2, n1, n0, d, m, e);
    Commute(b, n0);
    TopNumbers(b, d, s, m, t);
  }

  lemma TopRemainder(b: int, d: int, v: int, e: int, s: int, m: int)
    requires d > 0 && v >= 0 && s == b * b && m == s - d && b * m < d && e == s * b - (b + v) * d && e >= 1
    ensures e == b * m
  {
    Commute(s, b);
    Diff(s, d, b);
    Commute(m, b);
    Commute(b, d);
    Sum(b, v, d);
    if v >= 1 { MulLe(1, v, d); }
  }

  lemma TopDigits(b: int, n2: int, n1: int, n0: int, d: int, m: int, e: int)
    requires n2 * b + n1 < d && e == b * m && m >= 0 && 0 <= n0 < b
    ensures n2 * e + n1 * m <= (d - 1) * m && n0 * b <= (b - 1) * b
  {
    Nest(n2, b, m);
    Sum(n2 * b, n1, m);
    MulLe(n2 * b + n1, d - 1, m);
    MulLe(n0, b - 1, b);
  }

  lemma TopNumbers(b: int, d: int, s: int, m: int, t: int)
    requires 0 < b && 0 < d && 0 < m && s == b * b && s == m + d && b * m < d
    requires t <= (d - 1) * m + (b - 1) * b
    ensures b * t - s * d < m * m
  {
    TopBound(b, d, s, m, t);
    TopSmall(b, d, s, m);
    TopProducts(b, d, s, m);
    MulLe(0, m, m);
    TopFinish(b * t, d * (b * m), b * m, s * b, s, s * d, d * b, m * m);
  }

  lemma TopProducts(b: int, d: int, s: int, m: int)
    requires 0 < d && 0 < b && s == b * b && s == m + d && m < b
    ensures s * b == b * m + d * b && d * (b * m) <= s * d - d * b
  {
    Sum(m, d, b);
    Commute(m, b);
    MulLe(m, b - 1, b);
    Diff(b, 1, b);
    MulLe(b * m, s - b, d);
    Commute(d, b * m);
    Diff(s, b, d);
    Commute(d, b);
  }

  lemma TopFinish(bt: int, dk: int, k: int, sb: int, s: int, sd: int, db: int, mm: int)
    requires bt <= dk - k + sb - s && sb == k + db && dk <= sd - db && mm >= 0 && s > 0
    ensures bt - sd < mm
  {
  }

  lemma TopBound(b: int, d: int, s: int, m: int, t: int)
    requires 0 < b && s == b * b && t <= (d - 1) * m + (b - 1) * b
    ensures b * t <= d * (b * m) - b * m + s * b - s
  {
    MulLe(t, (d - 1) * m + (b - 1) * b, b);
    Sum((d - 1) * m, (b - 1) * b, b);
    Nest(d - 1, m, b);
    Nest(b - 1, b, b);
    SameProduct(s, b * b, b);
    Diff(d, 1, b * m);
    Diff(b, 1, b * b);
  }

  lemma TopSmall(b: int, d: int, s: int, m: int)
    requires 0 < b && 0 < d && s == b * b && s == m + d && b * m < d
    ensures m < b
  {
    if m >= b { MulLe(b, m, b); }
  }

  lemma Nest3(b: int, x: int, m: int)
    ensures (b * x) * m == x * (b * m)
  {
  }

  /** The quotient candidate of the three-by-two division needs only two limbs. */
  lemma Candidate3Fits(b: int, n2: int, n1: int, d1: int, d0: int, v: int)
    requires 0 < b && Inverse3(b, d1 * b + d0, v) && 0 <= d0 < b && 0 <= n1 < b && 0 <= d1
    requires 0 <= n2 && n2 * b + n1 < d1 * b + d0
    ensures 0 <= n2 * (b + v) + n1 < b * b
  {
    var d := d1 * b + d0;
    TopTimes(b, d1, d0, b + v);
    TopOrder(b, n2, n1, d1, d0);
    FitsNumbers(b, n2, n1, d1, d0, b + v, b * b);
  }

  lemma TopTimes(b: int, d1: int, d0: int, w: int)
    ensures w * (d1 * b + d0) == b * (d1 * w) + d0 * w
  {
  }

  lemma FitsNumbers(b: int, n2: int, n1: int, d1: int, d0: int, w: int, s: int)
    requires 0 < b <= w && 0 <= n1 < b && 0 <= d0 && 0 <= n2 && 0 <= d1
    requires n2 < d1 || (n2 == d1 && n1 < d0)
    requires b * (d1 * w) + d0 * w < b * s
    ensures 0 <= n2 * w + n1 < s
  {
    MulLe(0, n2, w);
    MulLe(b, w, d0);
    var x := d1 * w;
    if n2 < d1 {
      MulLe(0, d0, w);
      Cancel(b, x, s);
      MulLe(n2 + 1, d1, w);
      assert (n2 + 1) * w == n2 * w + w;
    } else {
      assert b * (x + d0) == b * x + b * d0;
      Cancel(b, x + d0, s);
    }
  }
}
