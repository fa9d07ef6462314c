/** mpn_invert_3by2 (src/mini-gmp.c): the reciprocal of a normalized double limb, computed half a limb
    at a time. */
module Invert {
  import opened Numbers
  import opened Bits
  import opened Limbs
  import opened Reciprocal
  import opened DivLimb

  /** What is left of H^3 - 1, when H + q times `u1` is taken away. */
  ghost function Rest3(u1: int, q: int): int {
    H * (B - 1 - u1) + H - 1 - q * u1
  }

  /** The same for B^2 - 1. */
  ghost function Rest2(u1: int, q: int): int {
    B * (B - 1 - u1) + B - 1 - q * u1
  }

  lemma Rest3Steps(u1: int, q: int)
    ensures Rest3(u1, q - 1) == Rest3(u1, q) + u1
    ensures H * H * H - (H + q) * u1 == Rest3(u1, q) + 1
  {
    StepQuotient(q, u1);
    Sum(H, q, u1);
  }

  // ------------------------------------------------------------------ the high half

  /** The first approximation of the high half of the quotient is at most two too large. */
  lemma HighStart(u1: Limb, uh: int, ul: int, q: int, x: int)
    requires u1 >= HIGH_BIT && u1 == H * uh + ul && 0 <= ul < H
    requires x == B - 1 - u1 - q * uh && 0 <= x < uh && q >= 0
    ensures q < H && H * x + H - 1 < u1
    ensures 0 <= q * ul <= (H - 1) * (H - 1) && (H * x + H - 1) - q * ul == Rest3(u1, q)
    ensures q <= 1 ==> q * ul <= H - 1
  {
    if q >= H { MulLe(H, q, uh); }
    HalfProduct(q, ul);
    assert q * (H * uh + ul) == H * (q * uh) + q * ul;
    if q <= 1 { MulLe(q, 1, ul); }
  }

  /** `(x << 32) | GMP_LLIMB_MASK` */
  function WithOnes(x: Limb): (r: Limb)
    requires x < H
    ensures r == H * x + H - 1
  {
    OrHalf(x);
    Bitwise(Or, Up(x), H - 1)
  }

  lemma OrHalf(x: Limb)
    requires x < H
    ensures Bitwise(Or, Up(x), H - 1) == H * x + H - 1
  {
    hide Pow2, Bitwise, Up, Lo;
    LowHalf(x);
    WordSizes();
    OrLow(x, H - 1, 32);
  }

  lemma LowHalf(x: Limb)
    requires x < H
    ensures Lo(x) == x && Up(x) == H * x
  {
    hide Up;
  }

  lemma Quotient(n: nat, d: nat)
    requires d > 0
    ensures 0 <= n / d && n / d * d == n - n % d && 0 <= n % d < d
  {
    var q := n / d;
    assert n == q * d + n % d;
    if q <= -1 { MulLe(q, -1, d); }
  }

  /** The first half of mpn_invert_3by2: floor((H^3 - 1) / u1) - H and the remainder. */
  method InvertHigh(u1: Limb) returns (qh: Limb, r: Limb)
    requires u1 >= HIGH_BIT
    ensures qh < H && r < u1 && r == Rest3(u1, qh)
  {
    hide Hi, Lo, HalfMul, WithOnes, Rest3;
    var ul, uh := Lo(u1), Hi(u1);
    var nu := Not(u1);
    Quotient(nu, uh);
    var q: Limb := nu / uh;
    HighStart(u1, uh, ul, q, nu % uh);
    r := WithOnes(Sub(nu, HalfMul(q, uh)));
    qh, r := AdjustHigh(u1, q, r, HalfMul(q, ul));
  }

  /** The adjustment of the approximation. */
  method AdjustHigh(u1: Limb, q: Limb, r0: Limb, p: Limb) returns (qh: Limb, r: Limb)
    requires u1 >= HIGH_BIT && q < H && r0 < u1 && r0 - p == Rest3(u1, q)
    requires p <= (H - 1) * (H - 1) && (q <= 1 ==> p <= r0)
    ensures qh < H && r < u1 && r == Rest3(u1, qh)
  {
    Rest3Steps(u1, q);
    Rest3Steps(u1, q - 1);
    hide Rest3;
    qh, r := q, r0;
    if r < p {
      qh := qh - 1;
      r := Add(r, u1);
      if r >= u1 {
        if r < p {
          qh := qh - 1;
          r := Add(r, u1);
        }
      }
    }
    r := Sub(r, p);
  }

  // ------------------------------------------------------------------ the low half

  /** The high half is the reciprocal that the division for the low half needs. */
  lemma HighIsInverse(u1: Limb, qh: Limb)
    requires u1 >= HIGH_BIT && 0 <= Rest3(u1, qh) < u1
    ensures Inverse3(H, u1, qh)
  {
    Rest3Steps(u1, qh);
    hide Rest3;
  }

  lemma JoinHalves(u1: int, qh: int, q: int)
    ensures H * Rest3(u1, qh) + H - 1 - q * u1 == Rest2(u1, H * qh + q)
    ensures B * B - (B + (H * qh + q)) * u1 == Rest2(u1, H * qh + q) + 1
  {
    var m := H * qh + q;
    assert H * (qh * u1) + q * u1 == m * u1;
    Sum(B, m, u1);
  }

  /** The second half: floor((B^2 - 1) / u1) - B and the remainder. */
  method InvertLow(u1: Limb, qh: Limb, r0: Limb) returns (m: Limb, r: Limb)
    requires u1 >= HIGH_BIT && qh < H && r0 < u1 && r0 == Rest3(u1, qh)
    ensures r < u1 && r == Rest2(u1, m)
  {
    HighIsInverse(u1, qh);
    hide Rest3, Inverse3, Hi, Lo, Up, HalfMul, Mul;
    var rh, rl := Hi(r0), Lo(r0);
    assert rh * (H + qh) == H * rh + rh * qh by { Sum(H, qh, rh); }
    Candidate3Fits(H, rh, rl, Hi(u1), Lo(u1), qh);
    var p := Add(HalfMul(rh, qh), r0);
    Candidate3(H, rh, rl, H - 1, Hi(u1), Lo(u1), qh, Hi(p), Lo(p));
    var ql := Hi(p) + 1;
    r := Sub(Add(Up(r0), H - 1), Mul(ql, u1));
    WrappedLow(u1, rh, rl, ql, r);
    m, r := AdjustLow(u1, qh, ql, r, Up(p), H * r0 + H - 1 - ql * u1, H * r0 + H - 1);
    JoinHalves(u1, qh, m - H * qh);
  }

  lemma WrappedLow(u1: Limb, rh: int, rl: Limb, ql: Limb, r: Limb)
    requires rl < H && r == Sub(Add(H * rl, H - 1), Mul(ql, u1))
    ensures var t: int := H * (H * rh + rl) + H - 1 - ql * u1;
            0 <= t + B < 2 * B ==> r == if t < 0 then t + B else t
  {
    var p: int := ql * u1;
    var j := p / B;
    var t: int := H * (H * rh + rl) + H - 1 - p;
    assert Mul(ql, u1) == p - j * B;
    var k := j - rh + if Add(H * rl, H - 1) < Mul(ql, u1) then 1 else 0;
    hide Mul, Add;
    Wrapped(B, r, t, k);
  }

  /** The adjustment of the low half, for the candidate `ql` with remainder `t`; `c` is what the
      remainder is compared with. */
  method AdjustLow(u1: Limb, qh: Limb, ql: Limb, r0: Limb, c: Limb, ghost t: int, ghost n: int)
      returns (m: Limb, r: Limb)
    requires u1 >= HIGH_BIT && qh < H && 0 < ql <= H && 0 <= n < u1 * H && n == ql * u1 + t
    requires 0 <= t + u1 && c - B < t && (t < B - u1 || t < c)
    requires r0 == if t < 0 then t + B else t
    ensures r < u1 && r == n - (m - H * qh) * u1
  {
    var q: Limb := ql;
    r := r0;
    StepQuotient(ql, u1);
    if r >= c {
      q := q - 1;
      r := Add(r, u1);
    }
    StepQuotient(q, u1);
    assert n == q * u1 + r;
    if r >= u1 {
      QuotientFits(n, u1, H, q + 1, r - u1);
    } else {
      QuotientFits(n, u1, H, q, r);
    }
    assert Lo(qh) == qh;
    m := Add(Up(qh), q);
    if r >= u1 {
      m := Add(m, 1);
      r := Sub(r, u1);
    }
  }

  // ------------------------------------------------------------------ the second limb

  /** How far B + m times the double limb is above B^3. */
  ghost function Excess(u1: int, u0: int, m: int): int {
    (B + m) * (u1 * B + u0) - B * B * B
  }

  lemma ExcessSteps(u1: int, u0: int, m: int)
    requires 0 <= u1 < B && 0 <= u0 < B
    ensures Excess(u1, u0, m - 1) == Excess(u1, u0, m) - (u1 * B + u0)
    ensures Excess(u1, u0, m) == m * u0 - B * (Rest2(u1, m) + 1 - u0)
    ensures m <= 0 ==> Excess(u1, u0, m) < 0
  {
    var u := u1 * B + u0;
    StepQuotient(m, u);
    Sum(B, m, u);
    ExcessIs(u1, u0, m);
    if m <= 0 { MulLe(m, 0, u); }
  }

  lemma ExcessIs(u1: int, u0: int, m: int)
    ensures m * (u1 * B + u0) == B * (m * u1) + m * u0
  {
  }

  lemma ExcessInverse(u1: Limb, u0: Limb, m: Limb)
    requires u1 >= HIGH_BIT && 0 <= Excess(u1, u0, m) + (u1 * B + u0) && Excess(u1, u0, m) < 0
    ensures Inverse3(B, Two(u1, u0), m)
  {
  }

  /** The excess is never zero: a number whose product with another is a power of two is one itself. */
  lemma {:induction false} PowerDivisor(x: nat, y: nat, n: nat) returns (k: nat)
    requires x * y == Pow2(n)
    ensures k <= n && x == Pow2(k)
    decreases n
  {
    if n == 0 {
      UnitDivisor(x, y);
      k := 0;
    } else if x % 2 == 0 {
      assert (2 * (x / 2)) * y == 2 * ((x / 2) * y);
      k := PowerDivisor(x / 2, y, n - 1);
      k := k + 1;
    } else {
      OddProduct(x, y);
      assert x * (2 * (y / 2)) == 2 * (x * (y / 2));
      k := PowerDivisor(x, y / 2, n - 1);
    }
  }

  lemma UnitDivisor(x: nat, y: nat)
    requires x * y == 1
    ensures x == 1
  {
    if x > 1 && y > 0 { MulLe(2, x, y); }
  }

  lemma OddProduct(x: nat, y: nat)
    requires x % 2 == 1 && (x * y) % 2 == 0
    ensures y % 2 == 0
  {
    var h := x / 2;
    assert x * y == 2 * (h * y) + y;
  }

  lemma NeverExact(u1: Limb, u0: Limb, m: int)
    requires u1 >= HIGH_BIT && u0 > 0 && m > 0
    ensures Excess(u1, u0, m) != 0
  {
    if Excess(u1, u0, m) == 0 {
      CubeOfB();
      var k := PowerDivisor(u1 * B + u0, B + m, 192);
      hide Pow2;
      CubeOfB();
      if k >= 128 { Pow2Grows(128, k); } else if k <= 126 { Pow2Grows(k, 126); }
    }
  }

  lemma CubeOfB()
    ensures Pow2(192) == B * B * B && Pow2(128) == B * B && Pow2(127) == B * HIGH_BIT && 2 * Pow2(126) == B * HIGH_BIT
  {
    assert Pow2(1) == 2;
    hide Pow2;
    WordSizes();
    Pow2Add(64, 64);
    Pow2Add(128, 64);
    Pow2Add(64, 63);
    Pow2Add(1, 126);
  }

  /** The last part of mpn_invert_3by2. */
  method InvertSecond(u1: Limb, u0: Limb, m0: Limb, r0: Limb) returns (m: Limb)
    requires u1 >= HIGH_BIT && r0 < u1 && r0 == Rest2(u1, m0)
    ensures Inverse3(B, Two(u1, u0), m)
  {
    ExcessSteps(u1, u0, m0);
    hide Excess, Rest2, Inverse3;
    if u0 == 0 {
      ExcessInverse(u1, u0, m0);
      return m0;
    }
    var r;
    m, r := SecondLow(u1, u0, m0, r0);
    m := SecondHigh(u1, u0, m, r);
  }

  /** The first correction, by `u0` itself. */
  method SecondLow(u1: Limb, u0: Limb, m0: Limb, r0: Limb) returns (m: Limb, r: Limb)
    requires u1 >= HIGH_BIT && u0 > 0 && r0 < u1 && r0 == Rest2(u1, m0)
    ensures Excess(u1, u0, m) == B * (r - B) + m * u0 && 0 <= Excess(u1, u0, m) + (u1 * B + u0)
  {
    ExcessSteps(u1, u0, m0);
    ExcessSteps(u1, u0, m0 - 1);
    StepQuotient(m0, u0);
    StepQuotient(m0 - 1, u0);
    MulLe(0, m0, u0);
    hide Excess, Rest2;
    m, r := m0, Not(r0);
    r := Add(r, u0);
    if r < u0 {
      m := m - 1;
      MulLe(0, m, u0);
      if r >= u1 {
        m := m - 1;
        r := r - u1;
      }
      r := Sub(r, u1);
    }
  }

  /** The second correction, by the product of `u0` and the quotient. */
  method SecondHigh(u1: Limb, u0: Limb, m0: Limb, r0: Limb) returns (m: Limb)
    requires u1 >= HIGH_BIT && u0 > 0
    requires Excess(u1, u0, m0) == B * (r0 - B) + m0 * u0 && 0 <= Excess(u1, u0, m0) + (u1 * B + u0)
    ensures Inverse3(B, Two(u1, u0), m)
  {
    var th, tl := Umul(u0, m0);
    Product(u0, m0);
    ExcessSteps(u1, u0, m0);
    ExcessSteps(u1, u0, m0 - 1);
    if m0 > 1 { NeverExact(u1, u0, m0 - 1); }
    hide Excess, Inverse3;
    m := m0;
    var r: Limb := Add(r0, th);
    if r < th {
      m := m - 1;
      m := m - Flag(r > u1 || (r == u1 && tl > u0));
    }
    ExcessInverse(u1, u0, m);
  }

  /** mpn_invert_3by2 */
  method Invert3by2(u1: Limb, u0: Limb) returns (m: Limb)
    requires u1 >= HIGH_BIT
    ensures Inverse3(B, Two(u1, u0), m)
    ensures m == (B * B * B - 1) / (u1 * B + u0) - B
  {
    var qh, r := InvertHigh(u1);
    m, r := InvertLow(u1, qh, r);
    m := InvertSecond(u1, u0, m, r);
    Inverse3Is(B, Two(u1, u0), m);
  }

  /** mpn_invert_limb: the reciprocal of a single limb is that of the double limb with a zero below. */
  method InvertLimb(u1: Limb) returns (m: Limb)
    requires u1 >= HIGH_BIT
    ensures Inverse2(B, u1, m)
    ensures m == (B * B - 1) / u1 - B
  {
    m := Invert3by2(u1, 0);
    assert (B + m) * (u1 * B) == ((B + m) * u1) * B;
    Inverse2Is(B, u1, m);
  }
}
