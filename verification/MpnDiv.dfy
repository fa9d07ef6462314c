/** Division of vectors of limbs (mpn_div_qr and what it is made of, in src/mini-gmp.c). */
module MpnDiv {
  import opened Numbers
  import opened Bits
  import opened Limbs
  import opened Mpn
  import opened MpnShift
  import opened Reciprocal
  import opened DivLimb
  import opened Invert

  /** struct gmp_div_inverse */
  datatype DivInverse = DivInverse(shift: nat, d1: Limb, d0: Limb, di: Limb)

  // ------------------------------------------------------------------ long division, one limb at a time

  /** Above limb `k` the quotient `q` has been found, and `r` is the remainder so far, when the number
      is `high` in front of the `n` limbs at `si`. */
  ghost predicate Divided(s: seq<Limb>, si: nat, n: nat, k: nat, high: int, d: int, q: int, r: int) {
    && k <= n && si + n <= |s|
    && q * d + r == high * P(n - k) + V(s, si + k, n - k)
  }

  lemma DivideNext(s: seq<Limb>, si: nat, n: nat, k: nat, high: int, d: int, q: int, r: int, x: int, r': int)
    requires Divided(s, si, n, k + 1, high, d, q, r) && r * B + s[si + k] == x * d + r'
    ensures Divided(s, si, n, k, high, d, x + B * q, r')
  {
    assert V(s, si + k, n - k) == s[si + k] + B * V(s, si + k + 1, n - k - 1);
    assert P(n - k) == B * P(n - k - 1);
    hide V, P;
    Sum(x, B * q, d);
    assert (B * q) * d == B * (q * d);
    assert high * (B * P(n - k - 1)) == B * (high * P(n - k - 1));
  }

  /** The quotient limbs stored so far. */
  ghost predicate Quotient(qp: array?<Limb>, qi: nat, k: nat, n: nat, q: int)
    reads qp
  {
    && k <= n && q >= 0
    && (qp != null ==> qi + n <= qp.Length && V(qp[..], qi + k, n - k) == q)
  }

  method StoreQuotient(qp: array?<Limb>, qi: nat, k: nat, ghost n: nat, x: Limb, ghost q: int)
    requires Quotient(qp, qi, k + 1, n, q)
    modifies qp
    ensures Quotient(qp, qi, k, n, x + B * q)
    ensures qp != null ==> Outside(old(qp[..]), qp[..], qi + k, 1)
  {
    if qp != null {
      ghost var t := qp[..];
      qp[qi + k] := x;
      VKeep(t, qp[..], qi + k + 1, n - k - 1);
    }
  }

  // ------------------------------------------------------------------ one limb

  /** mpn_div_qr_1_invert */
  method Div1Invert(d: Limb) returns (inv: DivInverse)
    requires d > 0
    ensures inv.shift < 64 && inv.d1 == d * Pow2(inv.shift) && Inverse2(B, inv.d1, inv.di)
  {
    var shift := CountLeadingZeros(d);
    var d1: Limb := ShiftLeft(d, shift);
    ShiftWhole(d, shift);
    var di := InvertLimb(d1);
    inv := DivInverse(shift, d1, 0, di);
  }

  lemma ShiftWhole(d: Limb, n: nat)
    requires d * Pow2(n) < B
    ensures ShiftLeft(d, n) == d * Pow2(n)
    ensures n <= 64 ==> d * Pow2(n) <= B - Pow2(n)
  {
    MulLe(0, d, Pow2(n));
    hide Pow2;
    if n <= 64 { WholeFits(d, n); }
  }

  lemma WholeFits(d: Limb, n: nat)
    requires n <= 64 && d * Pow2(n) < B
    ensures d * Pow2(n) <= B - Pow2(n)
  {
    hide Pow2;
    WordParts(n);
    MultipleBelow(d, Pow2(n), Pow2(64 - n));
  }

  lemma MultipleBelow(d: int, c: int, t: int)
    requires c > 0 && c * t == B && d * c < B
    ensures d * c <= B - c
  {
    if d >= t { MulLe(t, d, c); } else { MulLe(d, t - 1, c); }
    Diff(t, 1, c);
  }

  /** The inner loop of mpn_div_qr_1_preinv, on a normalized divisor. */
  method Div1Loop(qp: array?<Limb>, qi: nat, np: array<Limb>, ni: nat, n: nat, high: Limb, d: Limb, di: Limb)
      returns (r: Limb, ghost q: int)
    requires ni + n <= np.Length && Inverse2(B, d, di) && high < d
    requires qp != null ==> qi + n <= qp.Length && (qp == np ==> ni <= qi)
    modifies qp
    ensures r < d && q * d + r == high * P(n) + V(old(np[..]), ni, n)
    ensures Quotient(qp, qi, 0, n, q) && (qp != null ==> Outside(old(qp[..]), qp[..], qi, n))
  {
    ghost var S := np[..];
    ghost var Q := if qp == null then [] else qp[..];
    r, q := high, 0;
    var k: nat := n;
    hide Inverse2, V, P;
    StartDivision(S, ni, n, high, d);
    StartQuotient(qp, qi, n);
    while k > 0
      invariant k <= n && r < d
      invariant Divided(S, ni, n, k, high, d, q, r) && Quotient(qp, qi, k, n, q)
      invariant qp != null ==> Outside(Q, qp[..], qi + k, n - k)
    {
      k := k - 1;
      assert np[ni + k] == S[ni + k];
      var x;
      ghost var r' := r;
      x, r := UdivQrnndPreinv(r, np[ni + k], d, di);
      DivideNext(S, ni, n, k, high, d, q, r', x, r);
      hide Divided, Quotient;
      StoreQuotient(qp, qi, k, n, x, q);
      q := x + B * q;
    }
  }

  lemma StartDivision(s: seq<Limb>, si: nat, n: nat, high: int, d: int)
    requires si + n <= |s|
    ensures Divided(s, si, n, n, high, d, 0, high)
  {
  }

  lemma StartQuotient(qp: array?<Limb>, qi: nat, n: nat)
    requires qp != null ==> qi + n <= qp.Length
    ensures Quotient(qp, qi, n, n, 0)
  {
  }

  /** Undoing the normalization: if the shifted number has been divided by the shifted divisor, the
      quotient is right and the remainder is the shifted one. */
  lemma Unnormalize(c: int, d: int, n: int, q: int, r: int)
    requires c > 0 && d > 0 && q * (d * c) + r == n * c && 0 <= r < d * c
    ensures var r' := n - q * d; r == r' * c && 0 <= r' < d && r / c == r' && r % c == 0
  {
    var r' := n - q * d;
    assert q * (d * c) == (q * d) * c;
    Diff(n, q * d, c);
    Cancel(c, 0, r');
    Cancel(c, r', d);
    if r' < 0 { MulLe(r', -1, c); }
    DivUnique(r, r', 0, c);
  }

  /** mpn_div_qr_1_preinv: quotient and remainder of any vector by any limb. */
  method DivQr1Preinv(qp: array?<Limb>, qi: nat, np: array<Limb>, ni: nat, n: nat, inv: DivInverse, ghost d: Limb)
      returns (r: Limb, ghost q: int)
    requires n > 0 && ni + n <= np.Length && inv.shift < 64
    requires d > 0 && inv.d1 == d * Pow2(inv.shift) && Inverse2(B, inv.d1, inv.di)
    requires qp != null ==> qi + n <= qp.Length && (qp == np ==> ni <= qi)
    modifies qp
    ensures r < d && q * d + r == V(old(np[..]), ni, n)
    ensures Quotient(qp, qi, 0, n, q) && (qp != null ==> Outside(old(qp[..]), qp[..], qi, n))
  {
    ghost var N, c := V(np[..], ni, n), Pow2(inv.shift);
    hide V, P, Inverse2, Quotient, Pow2, ShiftRight;
    if inv.shift > 0 {
      var tp := new Limb[n];
      var high := LShift(tp, 0, np, ni, n, inv.shift);
      HighBelow(inv.shift, inv.d1);
      r, q := Div1Loop(qp, qi, tp, 0, n, high, inv.d1, inv.di);
    } else {
      assert Pow2(0) == 1 by { Pow2Zero(); }
      r, q := Div1Loop(qp, qi, np, ni, n, 0, inv.d1, inv.di);
    }
    assert q * (d * c) + r == N * c;
    Unnormalize(c, d, N, q, r);
    r := ShiftRight(r, inv.shift);
    assert r == N - q * d;
  }

  lemma Pow2Zero()
    ensures Pow2(0) == 1
  {
  }

  /** What is shifted out is less than a normalized limb. */
  lemma HighBelow(shift: nat, d1: Limb)
    requires shift < 64 && d1 >= HIGH_BIT
    ensures Pow2(shift) <= d1
  {
    hide Pow2;
    WordSizes();
    Pow2Grows(shift, 63);
  }

  // ------------------------------------------------------------------ two limbs

  /** The inner loop of mpn_div_qr_2_preinv. */
  method Div2Loop(qp: array?<Limb>, qi: nat, np: array<Limb>, ni: nat, n: nat, high: Limb, d1: Limb, d0: Limb, di: Limb)
      returns (r1: Limb, r0: Limb, ghost q: int)
    requires n >= 2 && ni + n <= np.Length && Inverse3(B, Two(d1, d0), di) && high < d1
    requires qp != null ==> qi + n - 1 <= qp.Length && qp != np
    modifies qp
    ensures Two(r1, r0) < Two(d1, d0)
    ensures q * Two(d1, d0) + Two(r1, r0) == high * P(n) + V(np[..], ni, n)
    ensures Quotient(qp, qi, 0, n - 1, q) && (qp != null ==> Outside(old(qp[..]), qp[..], qi, n - 1))
  {
    ghost var S := np[..];
    ghost var Q := if qp == null then [] else qp[..];
    r1, r0, q := high, np[ni + n - 1], 0;
    var k: nat := n - 1;
    StartDivision2(S, ni, n, high, Two(d1, d0), r0);
    StartQuotient(qp, qi, n - 1);
    hide Inverse3, V, P;
    while k > 0
      invariant k <= n - 1 && Two(r1, r0) < Two(d1, d0)
      invariant Divided(S, ni, n, k, high, Two(d1, d0), q, Two(r1, r0)) && Quotient(qp, qi, k, n - 1, q)
      invariant qp != null ==> Outside(Q, qp[..], qi + k, n - 1 - k)
    {
      k := k - 1;
      assert np[ni + k] == S[ni + k];
      var x;
      ghost var r' := Two(r1, r0);
      x, r1, r0 := UdivQr3by2(r1, r0, np[ni + k], d1, d0, di);
      DivideNext(S, ni, n, k, high, Two(d1, d0), q, r', x, Two(r1, r0));
      hide Divided, Quotient, Two;
      StoreQuotient(qp, qi, k, n - 1, x, q);
      q := x + B * q;
    }
  }

  lemma StartDivision2(s: seq<Limb>, si: nat, n: nat, high: int, d: int, x: Limb)
    requires si + n <= |s| && n > 0 && x == s[si + n - 1]
    ensures Divided(s, si, n, n - 1, high, d, 0, high * B + x)
  {
    FirstLimb(s, si + n - 1);
    assert P(1) == B;
  }

  /** Shifting a double limb right. */
  lemma ShiftTwo(r1: Limb, r0: Limb, shift: nat)
    requires 0 < shift < 64 && Two(r1, r0) % Pow2(shift) == 0
    ensures ShiftLeft(r0, 64 - shift) == 0
    ensures var x0 := Bitwise(Or, ShiftRight(r0, shift), ShiftLeft(r1, 64 - shift));
            0 <= x0 < B && Two(ShiftRight(r1, shift), x0) == Two(r1, r0) / Pow2(shift)
  {
    hide ShiftLeft, ShiftRight, Bitwise, Pow2;
    var c, t := Pow2(shift), Pow2(64 - shift);
    assert t * c == B == c * t by { ShiftLimb(r1, shift); }
    ShiftLimb(r1, 64 - shift);
    ShiftLimb(r0, 64 - shift);
    OrShifted(r1, r0, 64 - shift);
    var a1, b1, a0, b0 := ShiftRight(r1, shift), ShiftLeft(r1, 64 - shift), ShiftRight(r0, shift),
        ShiftLeft(r0, 64 - shift);
    ShiftTwoNumbers(c, t, r1, r0, a1, b1, a0, b0, Two(r1, r0));
  }

  lemma ShiftTwoNumbers(c: int, t: int, r1: int, r0: int, a1: int, b1: int, a0: int, b0: int, w: int)
    requires c > 0 && t > 0 && c * t == B && w % c == 0 && w == r1 * B + r0
    requires r1 * t == a1 * B + b1 && r0 * t == a0 * B + b0 && 0 <= b0 <= B - t
    ensures b0 == 0 && a1 * B + (a0 + b1) == w / c
  {
    var k := w / c;
    assert w == k * c;
    assert w * t == k * B by { Nest(k, c, t); }
    Sum(r1 * B, r0, t);
    assert (r1 * B) * t == (a1 * B + b1) * B;
    assert k * B == (a1 * B + b1 + a0) * B + b0;
  }

  /** mpn_div_qr_2_preinv */
  method DivQr2Preinv(qp: array?<Limb>, qi: nat, rp: array<Limb>, ri: nat, np: array<Limb>, ni: nat, n: nat,
                      inv: DivInverse, ghost d: int) returns (ghost q: int)
    requires n >= 2 && ni + n <= np.Length && ri + 2 <= rp.Length && inv.shift < 64
    requires d > 0 && Two(inv.d1, inv.d0) == d * Pow2(inv.shift) && Inverse3(B, Two(inv.d1, inv.d0), inv.di)
    requires qp != null ==> qi + n - 1 <= qp.Length && qp != np && qp != rp
    modifies qp, rp
    ensures Outside(old(rp[..]), rp[..], ri, 2) && V(rp[..], ri, 2) < d
    ensures q * d + V(rp[..], ri, 2) == V(old(np[..]), ni, n)
    ensures Quotient(qp, qi, 0, n - 1, q) && (qp != null ==> Outside(old(qp[..]), qp[..], qi, n - 1))
  {
    hide V, P, Inverse3, Quotient, Pow2;
    ghost var N, c := V(np[..], ni, n), Pow2(inv.shift);
    var r1, r0;
    r1, r0, q := Div2Shifted(qp, qi, np, ni, n, inv);
    assert Two(inv.d1, inv.d0) == d * c;
    Unnormalize(c, d, N, q, Two(r1, r0));
    r1, r0 := ShiftDown(r1, r0, inv.shift);
    rp[ri + 1] := r1;
    rp[ri] := r0;
    TwoLimbs(rp[..], ri);
  }

  /** The division of the shifted number. */
  method Div2Shifted(qp: array?<Limb>, qi: nat, np: array<Limb>, ni: nat, n: nat, inv: DivInverse)
      returns (r1: Limb, r0: Limb, ghost q: int)
    requires n >= 2 && ni + n <= np.Length && inv.shift < 64 && Inverse3(B, Two(inv.d1, inv.d0), inv.di)
    requires qp != null ==> qi + n - 1 <= qp.Length && qp != np
    modifies qp
    ensures Two(r1, r0) < Two(inv.d1, inv.d0)
    ensures q * Two(inv.d1, inv.d0) + Two(r1, r0) == V(np[..], ni, n) * Pow2(inv.shift)
    ensures Quotient(qp, qi, 0, n - 1, q) && (qp != null ==> Outside(old(qp[..]), qp[..], qi, n - 1))
  {
    InverseHigh(inv.d1, inv.d0, inv.di);
    hide V, P, Inverse3, Quotient, Pow2, Two;
    if inv.shift > 0 {
      var tp := new Limb[n];
      var high := LShift(tp, 0, np, ni, n, inv.shift);
      HighBelow(inv.shift, inv.d1);
      r1, r0, q := Div2Loop(qp, qi, tp, 0, n, high, inv.d1, inv.d0, inv.di);
    } else {
      Pow2Zero();
      r1, r0, q := Div2Loop(qp, qi, np, ni, n, 0, inv.d1, inv.d0, inv.di);
    }
  }

  /** The remainder is shifted back. */
  method ShiftDown(r1: Limb, r0: Limb, shift: nat) returns (x1: Limb, x0: Limb)
    requires shift < 64 && Two(r1, r0) % Pow2(shift) == 0
    ensures Two(x1, x0) == Two(r1, r0) / Pow2(shift)
  {
    x1, x0 := r1, r0;
    hide Pow2, ShiftLeft, ShiftRight, Bitwise;
    Pow2Zero();
    if shift > 0 {
      ShiftTwo(r1, r0, shift);
      assert ShiftLeft(r0, 64 - shift) == 0;
      x0 := Bitwise(Or, ShiftRight(r0, shift), ShiftLeft(r1, 64 - shift));
      x1 := ShiftRight(r1, shift);
    }
  }

  lemma TwoLimbs(s: seq<Limb>, i: nat)
    requires i + 2 <= |s|
    ensures V(s, i, 2) == Two(s[i + 1], s[i])
  {
    assert V(s, i + 1, 1) == s[i + 1];
  }

  lemma InverseHigh(d1: Limb, d0: Limb, di: Limb)
    requires Inverse3(B, Two(d1, d0), di)
    ensures d1 >= HIGH_BIT
  {
  }

  // ------------------------------------------------------------------ three limbs and more

  /** Where the partial remainder and the divisor agree in their two high limbs, the next quotient
      limb is B - 1. */
  lemma LargestQuotient(d: int, p: int, dl: int, vl: int, low: int)
    requires 0 <= dl < p && 0 <= vl < p && d >= B && 0 <= low < B
    requires d * p + vl < d * p + dl
    ensures var D, w := d * p + dl, (d * p + vl) * B + low; 0 <= w - (B - 1) * D < D
  {
    var x := d * p;
    MulLe(B, d, p);
  }

  /** Otherwise the quotient limb found from the high limbs is at most one too large. */
  lemma NearQuotient(d: int, p: int, dl: int, three: int, vl: int, q: int, r: int)
    requires 0 <= dl < p && 0 <= vl < p && d >= B && 0 <= q < B
    requires three == q * d + r && 0 <= r < d
    ensures var D, w := d * p + dl, three * p + vl;
            && w - q * D == r * p + vl - q * dl
            && 0 <= w - q * D + D && w - q * D < D
  {
    Sum(q * d, r, p);
    Nest(q, d, p);
    assert q * (d * p + dl) == q * (d * p) + q * dl;
    MulLe(0, q, dl);
    MulLe(q, B - 1, dl);
    MulLe(0, r, p);
    MulLe(r + 1, d, p);
    MulLe(B, d, p);
    Sum(r, 1, p);
  }

  /** A vector by its two high limbs. */
  lemma ByHighLimbs(s: seq<Limb>, i: nat, n: nat)
    requires n >= 2 && i + n <= |s|
    ensures var p, v := P(n - 2), V(s, i, n - 2);
            && v < p && P(n - 1) == B * p && P(n) == B * (B * p)
            && V(s, i, n - 1) == v + p * s[i + n - 2]
            && V(s, i, n) == v + p * (s[i + n - 1] * B + s[i + n - 2])
  {
    VTop(s, i, n - 1);
    VTop(s, i, n - 2);
    VBound(s, i, n - 2);
    assert P(n - 1) == B * P(n - 2) && P(n) == B * P(n - 1);
    hide V, P;
    var p: int, x: int, y: int := P(n - 2), s[i + n - 1], s[i + n - 2];
    HighLimbsNumbers(p, x, y);
  }

  lemma HighLimbsNumbers(p: int, x: int, y: int)
    ensures p * (x * B + y) == (B * p) * x + p * y
  {
  }

  /** The numbers that the loop of mpn_div_qr_pi1 works with: the divisor at `di`, and the partial
      remainder with the next limb, which stand in `top` and the `dn` limbs at `off`. */
  ghost predicate Window(s: seq<Limb>, off: nat, top: int, t: seq<Limb>, di: nat, dn: nat, w: int, d: int) {
    && dn > 2 && off + dn <= |s| && di + dn <= |t|
    && d == V(t, di, dn) && t[di + dn - 1] >= HIGH_BIT
    && w == top * P(dn) + V(s, off, dn)
    && 0 <= top < B && top * P(dn - 1) + V(s, off + 1, dn - 1) < d
  }

  /** What a round leaves: the remainder in `top` and the `dn - 1` limbs at `off`. */
  ghost predicate Reduced(s: seq<Limb>, off: nat, top: int, dn: nat, q: int, w: int, d: int) {
    && dn > 2 && off + dn <= |s|
    && top * P(dn - 1) + V(s, off, dn - 1) == w - q * d && 0 <= w - q * d < d
  }

  /** The window in terms of the two high limbs of the divisor. */
  lemma WindowParts(s: seq<Limb>, off: nat, top: Limb, t: seq<Limb>, di: nat, dn: nat, w: int, d: int)
    requires Window(s, off, top, t, di, dn, w, d)
    ensures var p, d2, r2 := P(dn - 2), Two(t[di + dn - 1], t[di + dn - 2]), Two(top, s[off + dn - 1]);
            var v1, v0, dl := V(s, off + 1, dn - 2), V(s, off, dn - 2), V(t, di, dn - 2);
            && d == d2 * p + dl && dl < p && v1 < p && v0 < p && B <= d2
            && w == (r2 * p + v1) * B + s[off] && r2 * p + v1 < d
            && w == (r2 * B + s[off + dn - 2]) * p + v0
            && d < P(dn) == B * (B * p)
  {
    ByHighLimbs(t, di, dn);
    ByHighLimbs(s, off, dn);
    VBound(t, di, dn);
    WindowLow(s, off, dn);
    hide V, P;
    var p: int, x: int, y: int := P(dn - 2), s[off + dn - 1], s[off + dn - 2];
    WindowNumbers(p, top, x, y, V(s, off + 1, dn - 2), V(s, off, dn - 2), s[off]);
    Commute(p, Two(t[di + dn - 1], t[di + dn - 2]));
  }

  lemma WindowLow(s: seq<Limb>, off: nat, dn: nat)
    requires dn > 2 && off + dn <= |s|
    ensures V(s, off, dn) == s[off] + B * (V(s, off + 1, dn - 2) + P(dn - 2) * s[off + dn - 1])
    ensures V(s, off + 1, dn - 1) == V(s, off + 1, dn - 2) + P(dn - 2) * s[off + dn - 1]
    ensures V(s, off + 1, dn - 2) < P(dn - 2)
  {
    VTop(s, off + 1, dn - 2);
    VBound(s, off + 1, dn - 2);
  }

  lemma WindowNumbers(p: int, top: int, x: int, y: int, v1: int, v0: int, low: int)
    ensures top * (B * p) + (v1 + p * x) == (top * B + x) * p + v1
    ensures top * (B * (B * p)) + (low + B * (v1 + p * x)) == ((top * B + x) * p + v1) * B + low
    ensures top * (B * (B * p)) + (v0 + p * (x * B + y)) == ((top * B + x) * B + y) * p + v0
  {
    Sum(top * B, x, p);
    Sum(top * B * B + x * B, y, p);
    Sum(top * B * B, x * B, p);
  }

  /** A round whose quotient limb is B - 1. */
  method MaxRound(np: array<Limb>, off: nat, n1: Limb, dp: array<Limb>, di: nat, dn: nat, ghost w: int, ghost d: int)
      returns (n1': Limb)
    requires np != dp && Window(np[..], off, n1, dp[..], di, dn, w, d)
    requires n1 == dp[di + dn - 1] && np[off + dn - 1] == dp[di + dn - 2]
    modifies np
    ensures Outside(old(np[..]), np[..], off, dn) && Reduced(np[..], off, n1', dn, B - 1, w, d)
  {
    ghost var s := np[..];
    WindowParts(s, off, n1, dp[..], di, dn, w, d);
    LargestQuotient(Two(n1, np[off + dn - 1]), P(dn - 2), V(dp[..], di, dn - 2), V(s, off + 1, dn - 2), s[off]);
    hide V, P;
    var cl := SubMul1(np, off, dp, di, dn, B - 1);
    n1' := np[off + dn - 1];
    MaxRoundExact(s, np[..], off, n1, dp[..], di, dn, w, d, cl);
  }

  lemma MaxRoundExact(s: seq<Limb>, s': seq<Limb>, off: nat, n1: int, t: seq<Limb>, di: nat, dn: nat, w: int, d: int,
                      cl: int)
    requires Window(s, off, n1, t, di, dn, w, d) && off + dn <= |s'|
    requires 0 <= w - (B - 1) * d < d && V(s', off, dn) - cl * P(dn) == V(s, off, dn) - d * (B - 1)
    ensures Reduced(s', off, s'[off + dn - 1], dn, B - 1, w, d)
  {
    hide V, P;
    VTop(s', off, dn - 1);
    VBound(s', off, dn);
    VBound(t, di, dn);
    RoundNumbers(P(dn), n1, cl, V(s, off, dn), V(s', off, dn), w - (B - 1) * d, d * (B - 1));
    var x: int := s'[off + dn - 1];
    assert P(dn - 1) * x == x * P(dn - 1);
  }

  lemma RoundNumbers(p: int, n1: int, cl: int, v: int, v': int, x: int, y: int)
    requires x == n1 * p + v - y && v' - cl * p == v - y && 0 <= x < p && 0 <= v' < p
    ensures x == v'
  {
    Diff(n1, cl, p);
    SameResidue(p, x, v', n1 - cl);
  }

  lemma SameResidue(b: int, x: int, y: int, k: int)
    requires 0 <= x < b && 0 <= y < b && x == k * b + y
    ensures k == 0 && x == y
  {
    if k >= 1 { MulLe(1, k, b); }
    if k <= -1 { MulLe(k, -1, b); }
  }

  /** A round whose quotient limb is found from three limbs. */
  method NearRound(np: array<Limb>, off: nat, n1: Limb, dp: array<Limb>, di: nat, dn: nat, dinv: Limb, ghost w: int,
                   ghost d: int)
      returns (q: Limb, n1': Limb)
    requires np != dp && Window(np[..], off, n1, dp[..], di, dn, w, d)
    requires !(n1 == dp[di + dn - 1] && np[off + dn - 1] == dp[di + dn - 2])
    requires Inverse3(B, Two(dp[di + dn - 1], dp[di + dn - 2]), dinv)
    modifies np
    ensures Outside(old(np[..]), np[..], off, dn) && Reduced(np[..], off, n1', dn, q, w, d)
  {
    assert dn > 2 && off + dn <= np.Length && di + dn <= dp.Length;
    hide V, P, Inverse3, Window, Reduced;
    var d1, d0, n0 := dp[di + dn - 1], dp[di + dn - 2], np[off + dn - 1];
    var r1, r0, borrow;
    NearBefore(np[..], off, n1, dp[..], di, dn, w, d);
    q, r1, r0 := UdivQr3by2(n1, n0, np[off + dn - 2], d1, d0, dinv);
    NearAfter(np[..], off, n1, dp[..], di, dn, w, d, q, Two(r1, r0));
    n1', borrow := SubtractLow(np, off, dp, di, dn, q, r1, r0, w - q * d);
    StepQuotient(q, d);
    if borrow != 0 {
      n1' := AddBack(np, off, n1', dp, di, dn, w - q * d, d);
      q := q - 1;
    }
    NearReduced(np[..], off, n1', dn, q, w, d);
  }

  lemma NearBefore(s: seq<Limb>, off: nat, top: Limb, t: seq<Limb>, di: nat, dn: nat, w: int, d: int)
    requires Window(s, off, top, t, di, dn, w, d)
    requires !(top == t[di + dn - 1] && s[off + dn - 1] == t[di + dn - 2])
    ensures Two(top, s[off + dn - 1]) < Two(t[di + dn - 1], t[di + dn - 2]) && d == V(t, di, dn)
  {
    assert d == V(t, di, dn);
    SameTwo(top, s[off + dn - 1], t[di + dn - 1], t[di + dn - 2]);
    assert dn > 2 && off + dn <= |s| && di + dn <= |t|;
    hide V, P, Two, Window;
    WindowOrder(s, off, top, t, di, dn, w, d);
    BelowDivisor(Two(top, s[off + dn - 1]), Two(t[di + dn - 1], t[di + dn - 2]), P(dn - 2), V(s, off + 1, dn - 2),
                 V(t, di, dn - 2));
  }

  lemma SameTwo(a: Limb, b: Limb, c: Limb, d: Limb)
    ensures Two(a, b) == Two(c, d) <==> a == c && b == d
  {
  }

  lemma WindowOrder(s: seq<Limb>, off: nat, top: Limb, t: seq<Limb>, di: nat, dn: nat, w: int, d: int)
    requires Window(s, off, top, t, di, dn, w, d)
    ensures var p, v1, dl := P(dn - 2), V(s, off + 1, dn - 2), V(t, di, dn - 2);
            dl < p && v1 < p && Two(top, s[off + dn - 1]) * p + v1 < Two(t[di + dn - 1], t[di + dn - 2]) * p + dl
  {
    assert dn > 2 && off + dn <= |s| && di + dn <= |t|;
    hide V, P, Two, Window;
    WindowParts(s, off, top, t, di, dn, w, d);
  }

  lemma NearAfter(s: seq<Limb>, off: nat, top: Limb, t: seq<Limb>, di: nat, dn: nat, w: int, d: int, q: Limb, r: int)
    requires Window(s, off, top, t, di, dn, w, d)
    requires var d2 := Two(t[di + dn - 1], t[di + dn - 2]);
             Two(top, s[off + dn - 1]) * B + s[off + dn - 2] == q * d2 + r && 0 <= r < d2
    ensures w - q * d == r * P(dn - 2) + V(s, off, dn - 2) - q * V(t, di, dn - 2)
    ensures 0 <= w - q * d + d && w - q * d < d < P(dn) && (w - q * d < 0 ==> q > 0)
  {
    WindowParts(s, off, top, t, di, dn, w, d);
    WindowSign(s, off, top, t, di, dn, w, d);
    hide V, P, Two;
    NearQuotient(Two(t[di + dn - 1], t[di + dn - 2]), P(dn - 2), V(t, di, dn - 2),
                 Two(top, s[off + dn - 1]) * B + s[off + dn - 2], V(s, off, dn - 2), q, r);
    RemainderSign(w, d, q);
  }

  lemma WindowSign(s: seq<Limb>, off: nat, top: Limb, t: seq<Limb>, di: nat, dn: nat, w: int, d: int)
    requires Window(s, off, top, t, di, dn, w, d)
    ensures w >= 0
  {
    MulLe(0, top, P(dn));
  }

  lemma RemainderSign(w: int, d: int, q: nat)
    requires w >= 0
    ensures w - q * d < 0 ==> q > 0
  {
  }

  lemma NearReduced(s: seq<Limb>, off: nat, n1: Limb, dn: nat, q: int, w: int, d: int)
    requires dn > 2 && off + dn <= |s| && n1 * P(dn - 1) + V(s, off, dn - 1) == w - q * d < d
    ensures Reduced(s, off, n1, dn, q, w, d)
  {
    MulLe(0, n1, P(dn - 1));
  }

  /** The product of the quotient limb and the low limbs of the divisor is taken away from the low limbs and
      the two-limb remainder. */
  method SubtractLow(np: array<Limb>, off: nat, dp: array<Limb>, di: nat, dn: nat, q: Limb, r1: Limb, r0: Limb,
                     ghost x: int)
      returns (n1: Limb, borrow: Limb)
    requires np != dp && dn > 2 && off + dn <= np.Length && di + dn <= dp.Length
    requires x == Two(r1, r0) * P(dn - 2) + V(np[..], off, dn - 2) - q * V(dp[..], di, dn - 2)
    modifies np
    ensures Outside(old(np[..]), np[..], off, dn) && borrow <= 1
    ensures n1 * P(dn - 1) + V(np[..], off, dn - 1) == if borrow == 0 then x else x + P(dn)
    ensures borrow != 0 ==> x < 0
  {
    hide V, P, Two;
    var cy := SubMul1(np, off, dp, di, dn - 2, q);
    ghost var v: int := V(np[..], off, dn - 2);
    ghost var t := np[..];
    var n0;
    n1, n0, borrow := BorrowLimbs(r1, r0, cy);
    np[off + dn - 2] := n0;
    assert np[..] == t[off + (dn - 2) := n0];
    BorrowNumbers(P(dn - 2), Two(r1, r0), cy, Two(n1, n0), borrow, v, x);
    SubtractLowExact(t, np[..], off, dn, n1, n0, v);
    SizeOfLimbs(np[..], off, n1, dn);
  }

  method BorrowLimbs(r1: Limb, r0: Limb, cy: Limb) returns (n1: Limb, n0: Limb, borrow: Limb)
    ensures Two(r1, r0) - cy == Two(n1, n0) - borrow * (B * B) && borrow <= 1
  {
    var cy1 := Flag(r0 < cy);
    n0 := Sub(r0, cy);
    borrow := Flag(r1 < cy1);
    n1 := Sub(r1, cy1);
  }

  lemma SubtractLowExact(s: seq<Limb>, t: seq<Limb>, off: nat, dn: nat, n1: Limb, n0: Limb, v: int)
    requires dn > 2 && off + dn <= |s| && t == s[off + (dn - 2) := n0] && v == V(s, off, dn - 2)
    ensures n1 * P(dn - 1) + V(t, off, dn - 1) == Two(n1, n0) * P(dn - 2) + v
    ensures P(dn) == B * (B * P(dn - 2))
  {
    PowersAbove(dn);
    hide V, P;
    Stored(s, t, off, dn - 2, n0);
    JoinNumbers(P(dn - 2), n1, n0, v);
  }

  lemma SizeOfLimbs(s: seq<Limb>, off: nat, n1: Limb, dn: nat)
    requires dn > 0 && off + dn <= |s|
    ensures n1 * P(dn - 1) + V(s, off, dn - 1) < P(dn)
  {
    VBound(s, off, dn - 1);
    MulLe(n1, B - 1, P(dn - 1));
  }

  lemma PowersAbove(n: nat)
    requires n >= 2
    ensures P(n - 1) == B * P(n - 2) && P(n) == B * (B * P(n - 2))
  {
    assert P(n) == B * P(n - 1);
  }

  lemma BorrowNumbers(p: int, r: int, cy: int, n: int, borrow: int, v: int, x: int)
    requires r - cy == n - borrow * (B * B) && x == r * p + v - cy * p
    ensures n * p + v == x + borrow * (B * (B * p))
  {
    Diff(r, cy, p);
    Diff(n, borrow * (B * B), p);
    Nest(borrow, B * B, p);
  }

  lemma JoinNumbers(p: int, x: int, y: int, v: int)
    ensures (x * B + y) * p + v == x * (B * p) + (v + p * y)
  {
  }

  /** The quotient limb was one too large: the divisor is added back. */
  method AddBack(np: array<Limb>, off: nat, n1: Limb, dp: array<Limb>, di: nat, dn: nat, ghost x: int, ghost d: int)
      returns (n1': Limb)
    requires np != dp && dn > 2 && off + dn <= np.Length && di + dn <= dp.Length && d == V(dp[..], di, dn)
    requires n1 * P(dn - 1) + V(np[..], off, dn - 1) == x + P(dn) && 0 <= x + d < d
    modifies np
    ensures Outside(old(np[..]), np[..], off, dn)
    ensures n1' * P(dn - 1) + V(np[..], off, dn - 1) == x + d
  {
    VTop(dp[..], di, dn - 1);
    VBound(dp[..], di, dn);
    assert P(dn) == B * P(dn - 1);
    hide V, P;
    ghost var d1 := dp[di + dn - 1];
    ghost var v := V(np[..], off, dn - 1);
    var c := AddN(np, off, np, off, dp, di, dn - 1);
    VBound(np[..], off, dn - 1);
    BackNumbers(P(dn - 1), n1, d1, c, v, V(dp[..], di, dn - 1), V(np[..], off, dn - 1), x, d);
    n1' := Add(n1, Add(dp[di + dn - 1], c));
  }

  lemma BackNumbers(p: int, n1: int, d1: int, c: int, v: int, dl: int, v': int, x: int, d: int)
    requires n1 * p + v == x + B * p && d == dl + p * d1 && v' + c * p == v + dl
    requires 0 <= x + d < B * p && 0 <= v' < p
    ensures 0 <= n1 + d1 + c - B < B && (n1 + d1 + c - B) * p + v' == x + d
  {
    var k := n1 + d1 + c - B;
    Sum(n1, d1, p);
    Sum(n1 + d1, c, p);
    Diff(n1 + d1 + c, B, p);
    if k < 0 { MulLe(k, -1, p); }
    if k >= B { MulLe(B, k, p); }
  }

  lemma BelowDivisor(r2: int, d2: int, p: int, v: int, dl: int)
    requires 0 <= dl < p && 0 <= v < p && r2 * p + v < d2 * p + dl && r2 != d2
    ensures r2 < d2
  {
    if r2 > d2 { Lexicographic(dl, v, p, d2, r2); }
  }

  /** The partial remainder `r` stands in `n1` and the `dn - 1` limbs at `at`. */
  ghost predicate Remaining(s: seq<Limb>, at: nat, n1: Limb, dn: nat, r: int, d: int) {
    dn > 2 && at + dn - 1 <= |s| && n1 * P(dn - 1) + V(s, at, dn - 1) == r < d
  }

  lemma OpenWindow(s: seq<Limb>, off: nat, n1: Limb, t: seq<Limb>, di: nat, dn: nat, r: int, d: int)
    requires Remaining(s, off + 1, n1, dn, r, d)
    requires di + dn <= |t| && d == V(t, di, dn) && t[di + dn - 1] >= HIGH_BIT
    ensures Window(s, off, n1, t, di, dn, r * B + s[off], d)
  {
    assert V(s, off, dn) == s[off] + B * V(s, off + 1, dn - 1);
    assert P(dn) == B * P(dn - 1);
    hide V, P;
    WindowValue(P(dn - 1), n1, V(s, off + 1, dn - 1), s[off]);
  }

  lemma WindowValue(p: int, n1: int, v: int, low: int)
    ensures (n1 * p + v) * B + low == n1 * (B * p) + (low + B * v)
  {
  }

  lemma CloseWindow(s: seq<Limb>, off: nat, n1: Limb, dn: nat, x: int, w: int, d: int)
    requires Reduced(s, off, n1, dn, x, w, d)
    ensures Remaining(s, off, n1, dn, w - x * d, d)
  {
  }

  lemma StartRemaining(s: seq<Limb>, si: nat, n: nat, dn: nat, high: Limb, d: int)
    requires 2 < dn <= n && si + n <= |s| && high * P(dn - 1) + V(s, si + n - dn + 1, dn - 1) < d
    ensures var r := high * P(dn - 1) + V(s, si + n - dn + 1, dn - 1);
            Remaining(s, si + n - dn + 1, high, dn, r, d) && Divided(s, si, n, n - dn + 1, high, d, 0, r)
  {
    assert n - (n - dn + 1) == dn - 1;
  }

  lemma LastRemaining(s: seq<Limb>, s': seq<Limb>, at: nat, n1: Limb, dn: nat, r: int, d: int)
    requires Remaining(s, at, n1, dn, r, d) && at + dn <= |s| && s' == s[at + dn - 1 := n1]
    ensures V(s', at, dn) == r < d
  {
    Stored(s, s', at, dn - 1, n1);
  }

  lemma DividedWhole(s: seq<Limb>, si: nat, n: nat, high: int, d: int, q: int, r: int)
    requires si + n <= |s|
    ensures Divided(s, si, n, 0, high, d, q, r) <==> q * d + r == high * P(n) + V(s, si, n)
  {
  }

  /** One round of mpn_div_qr_pi1. */
  method Pi1Round(np: array<Limb>, off: nat, n1: Limb, dp: array<Limb>, di: nat, dn: nat, dinv: Limb, ghost r: int,
                  ghost d: int)
      returns (q: Limb, n1': Limb)
    requires np != dp && off + dn <= np.Length && Remaining(np[..], off + 1, n1, dn, r, d)
    requires di + dn <= dp.Length && d == V(dp[..], di, dn) && dp[di + dn - 1] >= HIGH_BIT
    requires Inverse3(B, Two(dp[di + dn - 1], dp[di + dn - 2]), dinv)
    modifies np
    ensures Outside(old(np[..]), np[..], off, dn)
    ensures Remaining(np[..], off, n1', dn, r * B + old(np[off]) - q * d, d)
  {
    ghost var w := r * B + np[off];
    OpenWindow(np[..], off, n1, dp[..], di, dn, r, d);
    hide Remaining, V, Inverse3, Window, Two, Reduced;
    if n1 == dp[di + dn - 1] && np[off + dn - 1] == dp[di + dn - 2] {
      q := B - 1;
      n1' := MaxRound(np, off, n1, dp, di, dn, w, d);
    } else {
      q, n1' := NearRound(np, off, n1, dp, di, dn, dinv, w, d);
    }
    CloseWindow(np[..], off, n1', dn, q, w, d);
  }

  /** mpn_div_qr_pi1: the remainder replaces the low limbs of the number. */
  method DivQrPi1(qp: array?<Limb>, qi: nat, np: array<Limb>, ni: nat, nn: nat, high: Limb, dp: array<Limb>, di: nat,
                  dn: nat,
                  dinv: Limb) returns (ghost q: int)
    requires 2 < dn <= nn && ni + nn <= np.Length && di + dn <= dp.Length && np != dp
    requires qp != null ==> qi + nn - dn + 1 <= qp.Length && qp != np && qp != dp
    requires dp[di + dn - 1] >= HIGH_BIT && Inverse3(B, Two(dp[di + dn - 1], dp[di + dn - 2]), dinv)
    requires high * P(dn - 1) + V(np[..], ni + nn - dn + 1, dn - 1) < V(dp[..], di, dn)
    modifies qp, np
    ensures Outside(old(np[..]), np[..], ni, nn) && V(np[..], ni, dn) < V(dp[..], di, dn)
    ensures q * V(dp[..], di, dn) + V(np[..], ni, dn) == high * P(nn) + V(old(np[..]), ni, nn)
    ensures Quotient(qp, qi, 0, nn - dn + 1, q) && (qp != null ==> Outside(old(qp[..]), qp[..], qi, nn - dn + 1))
  {
    ghost var S, d := np[..], V(dp[..], di, dn);
    ghost var Q := if qp == null then [] else qp[..];
    var n1 := high;
    var k: nat := nn - dn + 1;
    ghost var r := high * P(dn - 1) + V(np[..], ni + nn - dn + 1, dn - 1);
    q := 0;
    StartRemaining(S, ni, nn, dn, high, d);
    StartQuotient(qp, qi, k);
    hide V, P, Inverse3, Divided, Quotient, Remaining, Two;
    while k > 0
      invariant k <= nn - dn + 1 && Outside(S, np[..], ni + k, nn - k)
      invariant Remaining(np[..], ni + k, n1, dn, r, d) && Divided(S, ni, nn, k, high, d, q, r)
      invariant Quotient(qp, qi, k, nn - dn + 1, q)
      invariant qp != null ==> Outside(Q, qp[..], qi + k, nn - dn + 1 - k)
    {
      k := k - 1;
      assert np[ni + k] == S[ni + k];
      var x;
      ghost var r' := r;
      x, n1 := Pi1Round(np, ni + k, n1, dp, di, dn, dinv, r, d);
      r := r * B + S[ni + k] - x * d;
      DivideNext(S, ni, nn, k, high, d, q, r', x, r);
      StoreQuotient(qp, qi, k, nn - dn + 1, x, q);
      q := x + B * q;
    }
    DividedWhole(S, ni, nn, high, d, q, r);
    ghost var t := np[..];
    np[ni + dn - 1] := n1;
    LastRemaining(t, np[..], ni, n1, dn, r, d);
  }

  // ------------------------------------------------------------------ any divisor

  /** Shifting left within a limb, with the bits that come in from the limb below. */
  function ShiftIn(d1: Limb, d0: Limb, shift: nat): (r: Limb)
    requires shift <= 64
    ensures r == ShiftLeft(d1, shift) + ShiftRight(d0, 64 - shift)
  {
    OrShifted(d1, d0, shift);
    Bitwise(Or, ShiftLeft(d1, shift), ShiftRight(d0, 64 - shift))
  }

  /** The part of a shifted vector below its two high limbs: what carries into them. */
  lemma ShiftedLow(s: seq<Limb>, i: nat, n: nat, shift: nat) returns (low: int)
    requires i + n <= |s| && 0 < shift < 64
    ensures var hi := if n == 0 then 0 else ShiftRight(s[i + n - 1], 64 - shift);
            V(s, i, n) * Pow2(shift) == P(n) * hi + low && 0 <= low < P(n)
  {
    if n == 0 {
      low := 0;
    } else {
      VTop(s, i, n - 1);
      VBound(s, i, n - 1);
      ShiftLimb(s[i + n - 1], shift);
      assert P(n) == B * P(n - 1);
      hide V, P, Pow2, ShiftLeft, ShiftRight;
      low := ShiftedLowNumbers(P(n - 1), V(s, i, n - 1), s[i + n - 1], Pow2(shift),
                               ShiftRight(s[i + n - 1], 64 - shift),
                               ShiftLeft(s[i + n - 1], shift));
    }
  }

  lemma ShiftedLowNumbers(p: int, u: int, z: int, c: int, hi: int, lo: int) returns (low: int)
    requires 0 <= u < p && z * c == hi * B + lo && 0 <= lo <= B - c && c > 0
    ensures (u + p * z) * c == (B * p) * hi + low && 0 <= low < B * p
  {
    low := u * c + p * lo;
    assert (u + p * z) * c == u * c + p * (z * c);
    assert p * (hi * B + lo) == (B * p) * hi + p * lo;
    MulLe(0, u, c);
    MulLe(0, lo, p);
    MulLe(u + 1, p, c);
    MulLe(lo, B - c, p);
    assert (u + 1) * c == u * c + c && (B - c) * p == B * p - c * p;
  }

  /** The high limbs of a shifted vector. */
  lemma ShiftedHigh(s: seq<Limb>, i: nat, t: seq<Limb>, n: nat, shift: nat)
    requires n >= 2 && i + n <= |s| && n <= |t| && 0 < shift < 64
    requires s[i + n - 1] * Pow2(shift) < B && V(t, 0, n) == V(s, i, n) * Pow2(shift)
    ensures t[n - 1] == ShiftIn(s[i + n - 1], s[i + n - 2], shift)
    ensures t[n - 2] == if n == 2 then ShiftLeft(s[i], shift) else ShiftIn(s[i + n - 2], s[i + n - 3], shift)
  {
    hide V, P, Pow2, ShiftLeft, ShiftRight, ShiftIn;
    var x: Limb, y: Limb := s[i + n - 1], s[i + n - 2];
    ShiftedTwo(s, i, t, n, shift);
    ShiftWhole(x, shift);
    ShiftLimb(y, shift);
    var y' := if n == 2 then ShiftLeft(y, shift) else ShiftIn(y, s[i + n - 3], shift);
    assert Two(t[n - 1], t[n - 2]) == Two(ShiftIn(x, y, shift), y');
  }

  lemma ShiftedTwo(s: seq<Limb>, i: nat, t: seq<Limb>, n: nat, shift: nat)
    requires n >= 2 && i + n <= |s| && n <= |t| && 0 < shift < 64
    requires V(t, 0, n) == V(s, i, n) * Pow2(shift)
    ensures Two(t[n - 1], t[n - 2])
            == (s[i + n - 1] * Pow2(shift)) * B + s[i + n - 2] * Pow2(shift)
               + if n == 2 then 0 else ShiftRight(s[i + n - 3], 64 - shift)
  {
    hide V, P, Pow2, ShiftRight;
    ByHighLimbs(s, i, n);
    ByHighLimbs(t, 0, n);
    var low := ShiftedLow(s, i, n - 2, shift);
    var hi: int := if n == 2 then 0 else ShiftRight(s[i + n - 3], 64 - shift);
    ShiftedHighNumbers(P(n - 2), V(s, i, n - 2), s[i + n - 1], s[i + n - 2], Pow2(shift), hi, low, V(t, 0, n - 2),
                       Two(t[n - 1], t[n - 2]));
  }

  lemma ShiftedHighNumbers(p: int, v: int, x: int, y: int, c: int, hi: int, low: int, vt: int, two: int)
    requires p > 0 && v * c == p * hi + low && 0 <= low < p && 0 <= vt < p
    requires vt + p * two == (v + p * (x * B + y)) * c
    ensures two == (x * c) * B + y * c + hi
  {
    var z := (x * c) * B + y * c + hi;
    assert p * (x * B + y) * c == p * ((x * c) * B + y * c);
    assert (v + p * (x * B + y)) * c == v * c + p * (x * B + y) * c;
    DivUnique(vt + p * two, z, low, p);
    DivUnique(vt + p * two, two, vt, p);
  }

  /** mpn_div_qr_invert */
  method DivQrInvert(dp: array<Limb>, di: nat, dn: nat) returns (inv: DivInverse)
    requires 0 < dn && di + dn <= dp.Length && dp[di + dn - 1] > 0
    ensures inv.shift < 64 && HIGH_BIT <= dp[di + dn - 1] * Pow2(inv.shift) < B
    ensures dn == 1 ==> inv.d1 == dp[di] * Pow2(inv.shift) && Inverse2(B, inv.d1, inv.di)
    ensures dn >= 2 ==> Inverse3(B, Two(inv.d1, inv.d0), inv.di)
    ensures dn >= 2 ==> TopOf(dp[..], di, dn, inv)
  {
    if dn == 1 {
      inv := Div1Invert(dp[di]);
      return;
    }
    hide Inverse2, Inverse3, Two, ShiftLeft, ShiftRight;
    var d1, d0 := dp[di + dn - 1], dp[di + dn - 2];
    var shift := CountLeadingZeros(d1);
    Pow2Zero();
    ShiftWhole(d1, shift);
    if shift > 0 {
      d1 := ShiftIn(d1, d0, shift);
      d0 := if dn == 2 then ShiftLeft(d0, shift) else ShiftIn(d0, dp[di + dn - 3], shift);
    }
    var m := Invert3by2(d1, d0);
    inv := DivInverse(shift, d1, d0, m);
  }

  /** `inv` holds the two high limbs of the shifted vector. */
  ghost predicate TopOf(s: seq<Limb>, i: nat, n: nat, inv: DivInverse) {
    && n >= 2 && i + n <= |s| && inv.shift < 64
    && var d1, d0 := s[i + n - 1], s[i + n - 2];
       if inv.shift == 0 then inv.d1 == d1 && inv.d0 == d0
       else
         && inv.d1 == ShiftIn(d1, d0, inv.shift)
         && inv.d0 == if n == 2 then ShiftLeft(d0, inv.shift) else ShiftIn(d0, s[i + n - 3], inv.shift)
  }

  lemma TwoTop(s: seq<Limb>, i: nat, inv: DivInverse)
    requires TopOf(s, i, 2, inv) && s[i + 1] * Pow2(inv.shift) < B
    ensures Two(inv.d1, inv.d0) == V(s, i, 2) * Pow2(inv.shift)
  {
    hide V, Pow2, ShiftLeft, ShiftRight;
    TwoLimbs(s, i);
    var d1: Limb, d0: Limb := s[i + 1], s[i];
    if inv.shift == 0 {
      Pow2Zero();
    } else {
      ShiftWhole(d1, inv.shift);
      ShiftLimb(d0, inv.shift);
      TwoTopNumbers(d1, d0, Pow2(inv.shift), ShiftRight(d0, 64 - inv.shift), ShiftLeft(d0, inv.shift), inv.d1);
    }
  }

  lemma TwoTopNumbers(d1: int, d0: int, c: int, hi: int, lo: int, x: int)
    requires d0 * c == hi * B + lo && x == d1 * c + hi
    ensures x * B + lo == (d1 * B + d0) * c
  {
    Sum(d1 * B, d0, c);
    Nest(d1, B, c);
    Nest(d1, c, B);
    Sum(d1 * c, hi, B);
  }

  /** Normalizing a divisor shifts nothing out. */
  lemma NothingOut(s: seq<Limb>, i: nat, n: nat, shift: nat)
    requires n > 0 && i + n <= |s| && shift < 64 && s[i + n - 1] * Pow2(shift) < B
    ensures V(s, i, n) * Pow2(shift) < P(n)
  {
    hide V, P, Pow2, ShiftLeft, ShiftRight;
    var x: Limb := s[i + n - 1];
    PStep(n);
    VTop(s, i, n - 1);
    VBound(s, i, n - 1);
    ShiftWhole(x, shift);
    NothingOutNumbers(P(n - 1), V(s, i, n - 1), x, Pow2(shift));
  }

  lemma NothingOutNumbers(p: int, u: int, z: int, c: int)
    requires 0 <= u < p && z * c <= B - c && c > 0
    ensures (u + p * z) * c < B * p
  {
    Sum(u, p * z, c);
    Nest(p, z, c);
    MulLe(z * c, B - c, p);
    MulLe(u + 1, p, c);
    Diff(B, c, p);
    Sum(u, 1, c);
  }

  lemma NoCarry(p: int, ret: int, v: int, w: int)
    requires v + ret * p == w < p && v >= 0 && ret >= 0 && p > 0
    ensures ret == 0 && v == w
  {
    if ret >= 1 { MulLe(1, ret, p); }
  }

  /** The high limbs that the division of three and more limbs starts with are below the divisor. */
  lemma HighFits(high: Limb, s: seq<Limb>, i: nat, t: seq<Limb>, j: nat, n: nat)
    requires n > 1 && i + n - 1 <= |s| && j + n <= |t| && high < t[j + n - 1]
    ensures high * P(n - 1) + V(s, i, n - 1) < V(t, j, n)
  {
    VBound(s, i, n - 1);
    VTop(t, j, n - 1);
    hide V, P;
    Lexicographic(V(s, i, n - 1), V(t, j, n - 1), P(n - 1), high, t[j + n - 1]);
  }

  /** What mpn_div_qr_preinv is given: the divisor `d` is shifted in the vector only if it has more than two limbs. */
  ghost predicate Prepared(inv: DivInverse, t: seq<Limb>, di: nat, dn: nat, d: int) {
    && inv.shift < 64 && 0 < dn && di + dn <= |t| && d > 0
    && (dn == 1 ==> d < B && inv.d1 == d * Pow2(inv.shift) && Inverse2(B, inv.d1, inv.di))
    && (dn == 2 ==> Two(inv.d1, inv.d0) == d * Pow2(inv.shift) && Inverse3(B, Two(inv.d1, inv.d0), inv.di))
    && (dn > 2 ==> && inv.d1 == t[di + dn - 1] && inv.d0 == t[di + dn - 2] && V(t, di, dn) == d * Pow2(inv.shift)
                   && Inverse3(B, Two(inv.d1, inv.d0), inv.di))
  }

  /** mpn_div_qr_preinv for more than two limbs. */
  method DivQrLong(qp: array?<Limb>, qi: nat, np: array<Limb>, ni: nat, nn: nat, dp: array<Limb>, di: nat, dn: nat,
                   inv: DivInverse, ghost d: int) returns (ghost q: int)
    requires 2 < dn <= nn && ni + nn <= np.Length && np != dp && Prepared(inv, dp[..], di, dn, d)
    requires qp != null ==> qi + nn - dn + 1 <= qp.Length && qp != np && qp != dp
    modifies qp, np
    ensures Outside(old(np[..]), np[..], ni, nn) && V(np[..], ni, dn) < d
    ensures q * d + V(np[..], ni, dn) == V(old(np[..]), ni, nn)
    ensures Quotient(qp, qi, 0, nn - dn + 1, q) && (qp != null ==> Outside(old(qp[..]), qp[..], qi, nn - dn + 1))
  {
    ghost var N, c := V(np[..], ni, nn), Pow2(inv.shift);
    InverseHigh(inv.d1, inv.d0, inv.di);
    HighBelow(inv.shift, inv.d1);
    Pow2Zero();
    assert V(dp[..], di, dn) == d * c;
    hide V, P, Pow2, Inverse3, Two, Quotient;
    var nh: Limb := 0;
    if inv.shift > 0 {
      nh := LShift(np, ni, np, ni, nn, inv.shift);
    }
    ghost var M := V(np[..], ni, nn);
    assert nh * P(nn) + M == N * c;
    HighFits(nh, np[..], ni + nn - dn + 1, dp[..], di, dn);
    q := DivQrPi1(qp, qi, np, ni, nn, nh, dp, di, dn, inv.di);
    Unnormalize(c, d, N, q, V(np[..], ni, dn));
    ShiftBack(np, ni, dn, inv.shift, N - q * d);
  }

  /** The remainder is shifted back; no bit is lost. */
  method ShiftBack(np: array<Limb>, ni: nat, dn: nat, shift: nat, ghost r: int)
    requires 0 < dn && ni + dn <= np.Length && shift < 64 && V(np[..], ni, dn) == r * Pow2(shift)
    modifies np
    ensures Outside(old(np[..]), np[..], ni, dn) && V(np[..], ni, dn) == r
  {
    Pow2Zero();
    hide V, Pow2, ShiftLeft, ShiftRight;
    if shift > 0 {
      assert Pow2(shift) * Pow2(64 - shift) == B by { ShiftLimb(0, shift); }
      var retval := RShift(np, ni, np, ni, dn, shift);
      Nest(r, Pow2(shift), Pow2(64 - shift));
      SameResidue(B, 0, retval, V(np[..], ni, dn) - r);
    }
  }

  /** mpn_div_qr_preinv */
  method DivQrPreinv(qp: array?<Limb>, qi: nat, np: array<Limb>, ni: nat, nn: nat, dp: array<Limb>, di: nat, dn: nat,
                     inv: DivInverse, ghost d: int) returns (ghost q: int)
    requires dn <= nn && ni + nn <= np.Length && np != dp && Prepared(inv, dp[..], di, dn, d)
    requires qp != null ==> qi + nn - dn + 1 <= qp.Length && qp != np && qp != dp
    modifies qp, np
    ensures Outside(old(np[..]), np[..], ni, nn) && V(np[..], ni, dn) < d
    ensures q * d + V(np[..], ni, dn) == V(old(np[..]), ni, nn)
    ensures Quotient(qp, qi, 0, nn - dn + 1, q) && (qp != null ==> Outside(old(qp[..]), qp[..], qi, nn - dn + 1))
  {
    hide V, Inverse2, Inverse3, Quotient, Two;
    if dn == 1 {
      var r;
      r, q := DivQr1Preinv(qp, qi, np, ni, nn, inv, d);
      np[ni] := r;
      FirstLimb(np[..], ni);
    } else if dn == 2 {
      q := DivQr2Preinv(qp, qi, np, ni, np, ni, nn, inv, d);
    } else {
      q := DivQrLong(qp, qi, np, ni, nn, dp, di, dn, inv, d);
    }
  }

  /** mpn_div_qr: for any number and any divisor that has no leading zero limb and no more limbs, the
      quotient is stored and the remainder replaces the low limbs of the number. */
  method DivQr(qp: array?<Limb>, qi: nat, np: array<Limb>, ni: nat, nn: nat, dp: array<Limb>, di: nat, dn: nat)
      returns (ghost q: int)
    requires 0 < dn <= nn && ni + nn <= np.Length && di + dn <= dp.Length && np != dp
    requires dp[di + dn - 1] > 0
    requires qp != null ==> qi + nn - dn + 1 <= qp.Length && qp != np && qp != dp
    modifies qp, np
    ensures Outside(old(np[..]), np[..], ni, nn) && V(np[..], ni, dn) < V(dp[..], di, dn)
    ensures q * V(dp[..], di, dn) + V(np[..], ni, dn) == V(old(np[..]), ni, nn)
    ensures q >= 0 && (qp != null ==> && Outside(old(qp[..]), qp[..], qi, nn - dn + 1)
                                      && V(qp[..], qi, nn - dn + 1) == q)
  {
    ghost var d := V(dp[..], di, dn);
    var inv := DivQrInvert(dp, di, dn);
    NormalizedBounds(dp[..], di, dn);
    NothingOut(dp[..], di, dn, inv.shift);
    if dn > 2 && inv.shift > 0 {
      var tp := new Limb[dn];
      var ret := LShift(tp, 0, dp, di, dn, inv.shift);
      NoCarry(P(dn), ret, V(tp[..], 0, dn), d * Pow2(inv.shift));
      ShiftedHigh(dp[..], di, tp[..], dn, inv.shift);
      PreparedIs(inv, dp[..], di, tp[..], 0, dn);
      hide V, Prepared, TopOf;
      q := DivQrPreinv(qp, qi, np, ni, nn, tp, 0, dn, inv, d);
    } else {
      PreparedIs(inv, dp[..], di, dp[..], di, dn);
      hide V, Prepared, TopOf;
      q := DivQrPreinv(qp, qi, np, ni, nn, dp, di, dn, inv, d);
    }
  }

  lemma PreparedIs(inv: DivInverse, s: seq<Limb>, i: nat, t: seq<Limb>, j: nat, n: nat)
    requires n > 0 && i + n <= |s| && j + n <= |t| && inv.shift < 64
    requires s[i + n - 1] > 0 && s[i + n - 1] * Pow2(inv.shift) < B
    requires n == 1 ==> inv.d1 == s[i] * Pow2(inv.shift) && Inverse2(B, inv.d1, inv.di)
    requires n >= 2 ==> Inverse3(B, Two(inv.d1, inv.d0), inv.di) && TopOf(s, i, n, inv)
    requires if n > 2 && inv.shift > 0
             then V(t, j, n) == V(s, i, n) * Pow2(inv.shift) && TopOf(s, i, n, inv)
                  && t[j + n - 1] == inv.d1 && t[j + n - 2] == inv.d0
             else s == t && i == j
    ensures Prepared(inv, t, j, n, V(s, i, n))
  {
    NormalizedBounds(s, i, n);
    FirstLimb(s, i);
    Pow2Zero();
    hide V, Pow2, Inverse2, Inverse3, Two;
    if n == 2 { TwoTop(s, i, inv); }
  }

  // ------------------------------------------------------------------ one limb, with the case of a power of two

  /** A vector and its lowest limb leave the same remainder when divided by a power of two. */
  lemma LowRemainder(s: seq<Limb>, i: nat, n: nat, k: nat)
    requires 0 < n && i + n <= |s| && k < 64
    ensures V(s, i, n) % Pow2(k) == s[i] % Pow2(k)
  {
    assert V(s, i, n) == s[i] + B * V(s, i + 1, n - 1);
    hide V, Pow2;
    ShiftLimb(0, k);
    SameLow(Pow2(k), Pow2(64 - k), s[i], V(s, i + 1, n - 1));
  }

  lemma SameLow(c: nat, t: int, x: nat, w: int)
    requires c > 0 && c * t == B
    ensures (x + B * w) % c == x % c
  {
    var q, r := x / c, x % c;
    assert x == q * c + r;
    Nest(c, t, w);
    Nest(t, w, c);
    Sum(q, t * w, c);
    DivUnique(x + B * w, q + t * w, r, c);
  }

  /** mpn_div_qr_1 */
  method DivQr1(qp: array?<Limb>, qi: nat, np: array<Limb>, ni: nat, n: nat, d: Limb) returns (r: Limb, ghost q: int)
    requires 0 < n && ni + n <= np.Length && d > 0
    requires qp != null ==> qi + n <= qp.Length && qp != np
    modifies qp
    ensures r < d && q * d + r == V(old(np[..]), ni, n)
    ensures Quotient(qp, qi, 0, n, q) && (qp != null ==> Outside(old(qp[..]), qp[..], qi, n))
  {
    hide V, Inverse2, Pow2, Bitwise, Quotient;
    if BitAnd(d, d - 1) == 0 {
      r, q := DivPowerOfTwo(qp, qi, np, ni, n, d);
    } else {
      var inv := Div1Invert(d);
      r, q := DivQr1Preinv(qp, qi, np, ni, n, inv, d);
    }
  }

  method DivPowerOfTwo(qp: array?<Limb>, qi: nat, np: array<Limb>, ni: nat, n: nat, d: Limb)
      returns (r: Limb, ghost q: int)
    requires 0 < n && ni + n <= np.Length && d > 0 && BitAnd(d, d - 1) == 0
    requires qp != null ==> qi + n <= qp.Length && qp != np
    modifies qp
    ensures r < d && q * d + r == V(old(np[..]), ni, n)
    ensures Quotient(qp, qi, 0, n, q) && (qp != null ==> Outside(old(qp[..]), qp[..], qi, n))
  {
    ghost var k := PowerOfTwo(d);
    TrailingZerosOfPower(k);
    ghost var N := V(np[..], ni, n);
    hide V, Pow2, Bitwise;
    PowerBelow(k);
    AndMask(np[ni], k);
    LowRemainder(np[..], ni, n, k);
    r := BitAnd(np[ni], d - 1);
    q := N / d;
    StartPowerQuotient(N, d);
    hide BitAnd;
    if qp != null {
      StoreShifted(qp, qi, np, ni, n, d, k);
    }
  }

  lemma StartPowerQuotient(n: nat, d: nat)
    requires d > 0
    ensures n / d >= 0 && (n / d) * d + n % d == n && n % d < d
  {
    var q := n / d;
    assert n == q * d + n % d;
    if q < 0 { MulLe(q, -1, d); }
  }

  lemma PowerBelow(k: nat)
    requires Pow2(k) < B
    ensures k < 64
  {
    hide Pow2;
    WordSizes();
    if k >= 64 { Pow2Grows(64, k); }
  }

  method StoreShifted(qp: array<Limb>, qi: nat, np: array<Limb>, ni: nat, n: nat, d: Limb, ghost k: nat)
    requires 0 < n && ni + n <= np.Length && qi + n <= qp.Length && qp != np
    requires k < 64 && d == Pow2(k) && TrailingZeros(d) == k
    modifies qp
    ensures Outside(old(qp[..]), qp[..], qi, n) && V(qp[..], qi, n) == V(np[..], ni, n) / d
  {
    hide V, TrailingZeros;
    if d <= 1 {
      CopyI(qp, qi, np, ni, n);
      VCopy(qp[..], np[..], qi, ni, n);
    } else {
      Pow2Zero();
      hide Pow2;
      var shift := CountTrailingZeros(d);
      var out := RShift(qp, qi, np, ni, n, shift);
      ShiftLimb(0, shift);
      ShiftedQuotient(V(np[..], ni, n), Pow2(shift), Pow2(64 - shift), V(qp[..], qi, n), out);
    }
  }

  lemma ShiftedQuotient(n: nat, c: nat, t: nat, q: int, out: int)
    requires c > 0 && t > 0 && c * t == B && q * B + out == n * t && 0 <= out < B
    ensures q == n / c
  {
    var a, r := n / c, n % c;
    assert n == a * c + r;
    Sum(a * c, r, t);
    Nest(a, c, t);
    MulLe(0, r, t);
    MulLe(r + 1, c, t);
    Sum(r, 1, t);
    DivUnique(n * t, a, r * t, B);
    DivUnique(n * t, q, out, B);
  }
}
