/** Division of two limbs by one and of three limbs by two with a precomputed reciprocal
    (gmp_udiv_qrnnd_preinv and gmp_udiv_qr_3by2 in src/mini-gmp.c). */
module DivLimb {
  import opened Numbers
  import opened Bits
  import opened Limbs
  import opened Reciprocal

  function BitAnd(a: Limb, b: Limb): (r: Limb)
  {
    AndNat(a, b);
    Bitwise(And, a, b)
  }

  lemma MaskAnd(c: bool, d: Limb)
    ensures BitAnd(MaskOf(c), d) == if c then d else 0
  {
    AllOnes();
    hide Pow2, Mask, Bitwise;
    if c {
      Commutes(And, B - 1, d);
      AndMask(d, 64);
    } else {
      AndNat(0, d);
    }
  }

  lemma AllOnes()
    ensures Mask(64) == B - 1 && Pow2(64) == B
  {
    WordSizes();
    hide Pow2;
  }

  /** Numbers that differ by a multiple of `b`, one of them reduced. */
  lemma Wrapped(b: int, r: int, t: int, k: int)
    requires 0 <= r < b && r == t + k * b
    ensures -b <= t < b ==> r == if t < 0 then t + b else t
  {
    if -b <= t < b {
      if k >= 2 { MulLe(2, k, b); }
      if k <= -1 { MulLe(k, -1, b); }
    }
  }

  // ------------------------------------------------------------------ two limbs by one

  /** gmp_udiv_qrnnd_preinv */
  method UdivQrnndPreinv(nh: Limb, nl: Limb, d: Limb, di: Limb) returns (q: Limb, r: Limb)
    requires Inverse2(B, d, di) && nh < d
    ensures nh * B + nl == q * d + r && r < d
  {
    var qh, ql := Umul(nh, di);
    qh, ql := AddTwo(qh, ql, nh + 1, nl);
    ghost var s := nh * di + (nh + 1) * B + nl;
    ghost var qt := if s < B * B then qh else qh + B;
    Product(nh, di);
    assert s == qt * B + ql;
    assert nh * (B + di) == nh * B + nh * di;
    Candidate2(B, nh, nl, d, di, qt, ql);
    r := Sub(nl, Mul(qh, d));
    WrappedRemainder2(nh, nl, d, qh, qt, r);
    assert nh * B + nl < d * B;
    q, r := Correct2(qh, r, ql, d, qt, nh * B + nl - qt * d, nh * B + nl);
  }

  lemma WrappedRemainder2(nh: int, nl: Limb, d: Limb, qh: Limb, qt: int, r: Limb)
    requires r == Sub(nl, Mul(qh, d)) && (qt == qh || qt == qh + B)
    ensures var t: int := nh * B + nl - qt * d;
            0 <= t + B < 2 * B ==> r == if t < 0 then t + B else t
  {
    var p: int := qh * d;
    var j := p / B;
    var t := nh * B + nl - qt * d;
    assert Mul(qh, d) == p - j * B;
    hide Mul;
    var c := if qt == qh then 0 else 1;
    assert qt * d == p + (c * d) * B by { if c == 1 { assert (qh + B) * d == p + B * d; } }
    Wrapped(B, r, t, j - nh + c * d + (if nl < Mul(qh, d) then 1 else 0));
  }

  /** The adjustment steps of gmp_udiv_qrnnd_preinv, for the candidate `qt` with remainder `t`. */
  method Correct2(qh: Limb, r0: Limb, ql: Limb, d: Limb, ghost qt: int, ghost t: int, ghost n: int)
      returns (q: Limb, r: Limb)
    requires B <= 2 * d && (qt == qh || qt == qh + B) && 0 <= n < d * B && n == qt * d + t
    requires -(d as int) <= t && ql - B < t && (t < B - d || t < ql)
    requires r0 == if t < 0 then t + B else t
    ensures n == q * d + r && r < d
  {
    var mask := MaskOf(r0 > ql);
    MaskAnd(r0 > ql, d);
    hide BitAnd, MaskOf;
    q := Add(qh, mask);
    r := Add(r0, BitAnd(mask, d));
    ghost var qf, rf := if r0 > ql then qt - 1 else qt, if r0 > ql then t + d else t;
    StepQuotient(qt, d);
    StepQuotient(qf, d);
    if r >= d {
      r := Sub(r, d);
      q := Add(q, 1);
      qf, rf := qf + 1, rf - d;
    }
    QuotientFits(n, d, B, qf, rf);
  }

  lemma StepQuotient(q: int, d: int)
    ensures (q - 1) * d == q * d - d && (q + 1) * d == q * d + d
  {
  }

  // ------------------------------------------------------------------ three limbs by two

  ghost function Two(h: Limb, l: Limb): int {
    h * B + l
  }

  /** gmp_udiv_qr_3by2 */
  method UdivQr3by2(n2: Limb, n1: Limb, n0: Limb, d1: Limb, d0: Limb, dinv: Limb)
      returns (q: Limb, r1: Limb, r0: Limb)
    requires Inverse3(B, Two(d1, d0), dinv) && Two(n2, n1) < Two(d1, d0)
    ensures Two(n2, n1) * B + n0 == q * Two(d1, d0) + Two(r1, r0) && Two(r1, r0) < Two(d1, d0)
  {
    var q0;
    q, q0 := Umul(n2, dinv);
    Candidate3Fits(B, n2, n1, d1, d0, dinv);
    assert n2 * (B + dinv) == n2 * B + n2 * dinv;
    q, q0 := AddTwo(q, q0, n2, n1);
    Candidate3(B, n2, n1, n0, d1, d0, dinv, q, q0);
    r1 := Sub(n1, Mul(d1, q));
    ghost var m := r1;
    r0 := n0;
    r1, r0 := SubTwo(r1, r0, d1, d0);
    var t1, t0 := Umul(d0, q);
    ghost var s := Two(r1, r0);
    r1, r0 := SubTwo(r1, r0, t1, t0);
    WrappedRemainder3(n2, n1, n0, d1, d0, q, m, s, Two(r1, r0));
    q, r1, r0 := Correct3(q, q0, r1, r0, d1, d0, Two(d1, d0), Two(n2, n1) * B + n0 - (q + 1) * Two(d1, d0),
                            Two(n2, n1) * B + n0);
  }

  /** `r` is the value of (r1, r0) when the candidate is q + 1, modulo B^2. */
  lemma WrappedRemainder3(n2: Limb, n1: Limb, n0: Limb, d1: Limb, d0: Limb, q: Limb, m: Limb, s: int, r: int)
    requires m == Sub(n1, Mul(d1, q)) && 0 <= r < B * B
    requires s == Two(m, n0) - Two(d1, d0) || s == Two(m, n0) - Two(d1, d0) + B * B
    requires r == s - d0 * q || r == s - d0 * q + B * B
    ensures var t := Two(n2, n1) * B + n0 - (q + 1) * Two(d1, d0);
            0 <= t + B * B < 2 * (B * B) ==> r == if t < 0 then t + B * B else t
  {
    hide Mul;
    var p: int, e: int := d1 * q, d0 * q;
    var j := p / B;
    MulIs(d1, q);
    ScaledTwo(d1, d0, q);
    var t := Two(n2, n1) * B + n0 - (q + 1) * Two(d1, d0);
    var borrow := if n1 < Mul(d1, q) then 1 else 0;
    var k := (if s == Two(m, n0) - Two(d1, d0) then 0 else 1) + if r == s - e then 0 else 1;
    TurnsAround(n2, n1, n0, d1, d0, p, e, j, borrow, m, k, r, t);
    Wrapped(B * B, r, t, j + borrow - n2 + k);
  }

  lemma MulIs(a: Limb, b: Limb)
    ensures Mul(a, b) == a * b - (a * b / B) * B
  {
  }

  lemma ScaledTwo(d1: int, d0: int, q: int)
    ensures (q + 1) * (d1 * B + d0) == (d1 * q) * B + d0 * q + (d1 * B + d0)
  {
    Sum(q, 1, d1 * B + d0);
    Commute(q, d1 * B + d0);
    Sum(d1 * B, d0, q);
    Nest(d1, B, q);
    Nest(d1, q, B);
  }

  lemma TurnsAround(n2: int, n1: int, n0: int, d1: int, d0: int, p: int, e: int, j: int, borrow: int, m: int, k: int,
                    r: int,
                    t: int)
    requires m == n1 - p + (j + borrow) * B
    requires r == (m * B + n0) - (d1 * B + d0) - e + k * (B * B)
    requires t == (n2 * B + n1) * B + n0 - (p * B + e + (d1 * B + d0))
    ensures r == t + (j + borrow - n2 + k) * (B * B)
  {
  }

  /** The adjustment steps of gmp_udiv_qr_3by2, for the candidate q0 + 1 with remainder `t`. */
  method Correct3(q0: Limb, ql: Limb, x1: Limb, x0: Limb, d1: Limb, d0: Limb, ghost d: int, ghost t: int, ghost n: int)
      returns (q: Limb, r1: Limb, r0: Limb)
    requires d == Two(d1, d0) && B * B <= 2 * d && 0 <= n < d * B && n == (q0 + 1) * d + t
    requires -d <= t && ql * B - B * B < t && (t < B * B - d || t < ql * B)
    requires Two(x1, x0) == if t < 0 then t + B * B else t
    ensures n == q * d + Two(r1, r0) && Two(r1, r0) < d
  {
    ghost var qf, rf;
    q, r1, r0, qf, rf := Mask3(q0, ql, x1, x0, d1, d0, d, t);
    StepQuotient(q0 + 1, d);
    StepQuotient(qf, d);
    if r1 >= d1 {
      if r1 > d1 || r0 >= d0 {
        q := Add(q, 1);
        r1, r0 := SubTwo(r1, r0, d1, d0);
        qf, rf := qf + 1, rf - d;
      }
    }
    QuotientFits(n, d, B, qf, rf);
  }

  /** The first of them, decided by the mask. */
  method Mask3(q0: Limb, ql: Limb, x1: Limb, x0: Limb, d1: Limb, d0: Limb, ghost d: int, ghost t: int)
      returns (q: Limb, r1: Limb, r0: Limb, ghost qf: int, ghost rf: int)
    requires d == Two(d1, d0) && B * B <= 2 * d
    requires -d <= t && ql * B - B * B < t && (t < B * B - d || t < ql * B)
    requires Two(x1, x0) == if t < 0 then t + B * B else t
    ensures (qf == q0 + 1 && rf == t) || (qf == q0 && rf == t + d)
    ensures 0 <= rf == Two(r1, r0) && rf < 2 * d
    ensures q == if qf == B then 0 else qf
  {
    q := Add(q0, 1);
    var mask := MaskOf(x1 >= ql);
    MaskAnd(x1 >= ql, d1);
    MaskAnd(x1 >= ql, d0);
    hide BitAnd, MaskOf;
    q := Add(q, mask);
    r1, r0 := AddTwo(x1, x0, BitAnd(mask, d1), BitAnd(mask, d0));
    qf, rf := if x1 >= ql then q0 else q0 + 1, if x1 >= ql then t + d else t;
  }
}
