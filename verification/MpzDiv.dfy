/** Division of signed numbers with each of the three roundings (mpz_div_qr in src/mini-gmp.c). */
module MpzDiv {
  import opened Numbers
  import opened Limbs
  import opened Mpn
  import opened MpnDiv
  import opened Mpz

  /** enum mpz_div_round_mode */
  datatype Mode = Floor | Ceil | Trunc

  /** What rounding means: the quotient is the integer next to the exact one in the wanted direction. */
  ghost predicate Rounded(mode: Mode, n: int, d: int, q: int) {
    var r := n - q * d;
    && Abs(r) < Abs(d)
    && (r != 0 ==>
          match mode
          case Floor => (r < 0) == (d < 0)
          case Ceil => (r < 0) != (d < 0)
          case Trunc => (r < 0) == (n < 0))
  }

  /** There is only one such quotient. */
  lemma RoundedUnique(mode: Mode, n: int, d: int, q: int, q': int)
    requires d != 0 && Rounded(mode, n, d, q) && Rounded(mode, n, d, q')
    ensures q == q'
  {
    var r, r' := n - q * d, n - q' * d;
    Diff(q', q, d);
    if q' > q {
      UniqueStep(mode, n, d, q' - q, r, r');
    } else if q > q' {
      Diff(q, q', d);
      UniqueStep(mode, n, d, q - q', r', r);
    }
  }

  lemma UniqueStep(mode: Mode, n: int, d: int, k: int, r: int, r': int)
    requires d != 0 && k >= 1 && r - r' == k * d && Abs(r) < Abs(d) && Abs(r') < Abs(d)
    ensures k == 1 && r != 0 && r' != 0 && (r < 0) == (d < 0) && (r' < 0) != (d < 0)
  {
    if d > 0 {
      MulLe(1, k, d);
      if k >= 2 { MulLe(2, k, d); }
    } else {
      MulLe(1, k, -d);
      if k >= 2 { MulLe(2, k, -d); }
      assert k * (-d) == -(k * d);
    }
  }

  /** The quotient of the magnitudes with its sign, and the remainder with the sign of the dividend. */
  function SignedQuotient(v: int, w: int, q: int): int {
    if (v < 0) != (w < 0) then -q else q
  }

  function SignedRemainder(v: int, r: int): int {
    if v < 0 then -r else r
  }

  /** What has to be added to that quotient. */
  function Step(mode: Mode, v: int, w: int, r: int): int {
    if r != 0 && mode == Floor && (v < 0) != (w < 0) then -1
    else if r != 0 && mode == Ceil && (v < 0) == (w < 0) then 1
    else 0
  }

  lemma FromMagnitudes(mode: Mode, v: int, w: int, q: int, r: int)
    requires w != 0 && Abs(v) == q * Abs(w) + r && 0 <= r < Abs(w)
    ensures v == SignedQuotient(v, w, q) * w + SignedRemainder(v, r)
    ensures var k := Step(mode, v, w, r);
            && Rounded(mode, v, w, SignedQuotient(v, w, q) + k)
            && v - (SignedQuotient(v, w, q) + k) * w == SignedRemainder(v, r) - k * w
  {
    Negate(q, w);
    var q0, k := SignedQuotient(v, w, q), Step(mode, v, w, r);
    assert v == q0 * w + SignedRemainder(v, r);
    Sum(q0, k, w);
  }

  lemma Negate(q: int, w: int)
    ensures -q * w == -(q * w) == q * (-w)
  {
  }

  // ------------------------------------------------------------------ the magnitudes

  /** A number that may be left out, and its limbs. */
  ghost function Cells(x: Number?): set<object>
    reads x
  {
    if x == null then {}
    else
      var y: Number := x;
      {y, y.d}
  }

  ghost predicate Holds(x: Number?, v: int)
    reads Cells(x)
  {
    x == null || x.Is(v)
  }

  /** `x` can be written without changing `y`. */
  ghost predicate Apart(x: Number?, y: Number?)
    reads x, y
  {
    x == null || y == null || (x != y && x.d != y.d)
  }

  /** The size of the quotient: its highest limb may be zero, the one below is not. */
  lemma QuotientSize(s: seq<Limb>, n: nat, u: seq<Limb>, nn: nat, w: seq<Limb>, dn: nat, q: int, r: int)
    requires 0 < dn <= nn <= |u| && dn <= |w| && n == nn - dn + 1 <= |s| && Normalized(u, 0, nn)
    requires V(s, 0, n) == q && q * V(w, 0, dn) + r == V(u, 0, nn) && 0 <= r < V(w, 0, dn)
    ensures var m := n - (if s[n - 1] == 0 then 1 else 0); Magnitude(s, m, q)
  {
    hide V, P;
    SignedMagnitude(s, n, q);
    if s[n - 1] == 0 {
      TopZero(s, n);
      QuotientLarge(s, n, u, nn, w, dn, q, r);
    }
  }

  lemma TopZero(s: seq<Limb>, n: nat)
    requires 0 < n <= |s| && s[n - 1] == 0
    ensures V(s, 0, n) == V(s, 0, n - 1)
  {
    hide V, P;
    VTop(s, 0, n - 1);
  }

  lemma QuotientLarge(s: seq<Limb>, n: nat, u: seq<Limb>, nn: nat, w: seq<Limb>, dn: nat, q: int, r: int)
    requires 0 < dn <= nn <= |u| && dn <= |w| && n == nn - dn + 1 <= |s| && Normalized(u, 0, nn)
    requires V(s, 0, n - 1) == q && q * V(w, 0, dn) + r == V(u, 0, nn) && 0 <= r < V(w, 0, dn)
    ensures Normalized(s, 0, n - 1)
  {
    hide V, P;
    NormalizedBounds(u, 0, nn);
    VBound(w, 0, dn);
    if n > 1 {
      PAdd(n - 2, dn);
      LargeQuotient(P(n - 2), P(dn), q, V(w, 0, dn), r, V(u, 0, nn));
    }
    TopNotZero(s, n - 1);
  }

  lemma LargeQuotient(p: int, pd: int, q: int, w: int, r: int, u: int)
    requires p > 0 && 0 <= r < w < pd && q * w + r == u && p * pd <= u
    ensures p <= q
  {
    if q < p {
      MulLe(q + 1, p, w);
      Sum(q, 1, w);
      MulLe(w, pd - 1, p);
      Diff(pd, 1, p);
    }
  }

  /** The division of the magnitudes in mpz_div_qr: the remainder replaces the copy of the dividend. */
  method DivMagnitudes(tq: Number?, tr: Number, nn: nat, d: Number, qs: bool, ghost v: int, ghost w: int)
      returns (rn: nat, ghost q: int, ghost r: int)
    requires tr.Is(v) && d.Is(w) && w != 0 && nn == Abs(tr.size) >= Abs(d.size) && Apart(tr, d)
    requires qs == ((v < 0) != (w < 0))
    requires tq != null ==> Apart(tq, tr) && Apart(tq, d) && tq.d.Length >= nn - Abs(d.size) + 1
    modifies tr, tr.d, Cells(tq)
    ensures Abs(v) == q * Abs(w) + r && 0 <= r < Abs(w) && (rn == 0 <==> r == 0)
    ensures tr.d == old(tr.d) && tr.Is(SignedRemainder(v, r))
    ensures tq != null ==> tq.d == old(tq.d) && tq.Is(SignedQuotient(v, w, q))
  {
    ghost var U, W := tr.d[..], d.d[..];
    var dn := Abs(d.size);
    Opened(U, tr.size, v, U);
    Opened(W, d.size, w, W);
    hide V, P, Represents, Magnitude;
    var qp: array?<Limb> := if tq == null then null else tq.d;
    q := MpnDiv.DivQr(qp, 0, tr.d, 0, nn, d.d, 0, dn);
    r := V(tr.d[..], 0, dn);
    if tq != null {
      StoreSize(tq, nn - dn + 1, qs, U, nn, W, dn, q, r);
    }
    rn := StoreRemainderSize(tr, dn, r);
  }

  method StoreSize(tq: Number, qn: nat, qs: bool, ghost u: seq<Limb>, ghost nn: nat, ghost w: seq<Limb>, ghost dn: nat,
                   ghost q: int, ghost r: int)
    requires 0 < dn <= nn <= |u| && dn <= |w| && qn == nn - dn + 1 <= tq.d.Length && Normalized(u, 0, nn)
    requires V(tq.d[..], 0, qn) == q && q * V(w, 0, dn) + r == V(u, 0, nn) && 0 <= r < V(w, 0, dn)
    modifies tq`size
    ensures tq.Is(if qs then -q else q)
  {
    QuotientSize(tq.d[..], qn, u, nn, w, dn, q, r);
    hide V, P;
    var n := qn;
    if tq.d[n - 1] == 0 { n := n - 1; }
    tq.size := if qs then -(n as int) else n;
    SignedMagnitude(tq.d[..], n, q);
  }

  method StoreRemainderSize(tr: Number, dn: nat, ghost r: int) returns (rn: nat)
    requires dn <= tr.d.Length && V(tr.d[..], 0, dn) == r
    modifies tr`size
    ensures tr.Is(if old(tr.size) < 0 then -r else r) && (rn == 0 <==> r == 0)
  {
    rn := NormalizedSize(tr.d, 0, dn);
    NormalizedBounds(tr.d[..], 0, rn);
    hide V, P;
    SignedMagnitude(tr.d[..], rn, r);
    tr.size := if tr.size < 0 then -(rn as int) else rn;
  }

  // ------------------------------------------------------------------ mpz_div_qr

  /** The case of a divisor with more limbs than the dividend: the quotient is 0, 1 or -1. */
  method DivSmall(q: Number?, r: Number?, n: Number, d: Number, mode: Mode, ghost v: int, ghost w: int)
      returns (ghost Q: int)
    requires n.Is(v) && d.Is(w) && v != 0 && w != 0 && Abs(n.size) < Abs(d.size)
    requires Apart(q, r)
    requires (q == n || Apart(q, n)) && (q == d || Apart(q, d)) && (r == n || Apart(r, n)) && (r == d || Apart(r, d))
    modifies Cells(q), Cells(r)
    ensures Rounded(mode, v, w, Q) && Holds(q, Q) && Holds(r, v - Q * w) && v - Q * w != 0
  {
    SmallQuotient(n.d[..], n.size, d.d[..], d.size, mode, v, w);
    hide Represents, Rounded, V, SameSign;
    var same := SameSign(d.size, n.size);
    var k := if mode == Ceil && same then 1 else if mode == Floor && !same then -1 else 0;
    Q := k;
    if r != null { StoreRemainder(r, n, d, k, v, w); }
    if q != null { StoreSmall(q, k); }
  }

  lemma SmallQuotient(s: seq<Limb>, m: int, t: seq<Limb>, n: int, mode: Mode, v: int, w: int)
    requires Represents(s, m, v) && Represents(t, n, w) && v != 0 && w != 0 && Abs(m) < Abs(n)
    ensures var k := if mode == Ceil && SameSign(n, m) then 1 else if mode == Floor && !SameSign(n, m) then -1 else 0;
            Rounded(mode, v, w, k) && v - k * w != 0
  {
    Opened(s, m, v, s);
    Opened(t, n, w, t);
    SizeDecides(s, 0, Abs(m), t, 0, Abs(n));
    FromMagnitudes(mode, v, w, 0, Abs(v));
  }

  /** `r` becomes n - k * d. */
  method StoreRemainder(r: Number, n: Number, d: Number, k: int, ghost v: int, ghost w: int)
    requires n.Is(v) && d.Is(w) && -1 <= k <= 1 && (r == n || r.d != n.d) && (r == d || r.d != d.d)
    modifies r, r.d
    ensures r.Is(v - k * w) && (r.d == old(r.d) || fresh(r.d))
  {
    hide Represents;
    if k == 1 {
      SubNumbers(r, n, d, v, w);
    } else if k == -1 {
      AddNumbers(r, n, d, v, w);
    } else {
      Set(r, n, v);
    }
  }

  method StoreSmall(q: Number, k: int)
    requires -1 <= k <= 1
    modifies q, q.d
    ensures q.Is(k) && (q.d == old(q.d) || fresh(q.d))
  {
    if k == 1 {
      SetUi(q, 1);
    } else if k == -1 {
      SetMinusOne(q);
    } else {
      q.size := 0;
    }
  }

  /** The truncated quotient and remainder, in new numbers. */
  method DivTruncated(wantQ: bool, n: Number, d: Number, qs: bool, ghost v: int, ghost w: int)
      returns (tq: Number?, tr: Number, rn: nat, ghost q: int, ghost r: int)
    requires n.Is(v) && d.Is(w) && w != 0 && Abs(n.size) >= Abs(d.size) && qs == ((v < 0) != (w < 0))
    ensures Abs(v) == q * Abs(w) + r && 0 <= r < Abs(w) && (rn == 0 <==> r == 0)
    ensures tr.Is(SignedRemainder(v, r)) && (wantQ <==> tq != null) && Holds(tq, SignedQuotient(v, w, q))
    ensures fresh(tr) && fresh(tr.d) && fresh(Cells(tq)) && Apart(tq, tr)
  {
    hide Represents, V, SameSign, SignedQuotient, SignedRemainder;
    tr := new Number();
    Set(tr, n, v);
    tq := null;
    if wantQ {
      tq := new Number();
      tq.d := new Limb[Abs(n.size) - Abs(d.size) + 1];
    }
    rn, q, r := DivMagnitudes(tq, tr, Abs(n.size), d, qs, v, w);
  }

  /** The case where the magnitudes are divided. */
  method DivLarge(wantQ: bool, wantR: bool, n: Number, d: Number, mode: Mode, ghost v: int, ghost w: int)
      returns (tq: Number?, tr: Number, rn: nat, ghost Q: int)
    requires n.Is(v) && d.Is(w) && v != 0 && w != 0 && Abs(n.size) >= Abs(d.size)
    ensures Rounded(mode, v, w, Q) && (wantQ <==> tq != null) && Holds(tq, Q) && (wantR ==> tr.Is(v - Q * w))
    ensures rn != 0 <==> v - Q * w != 0
    ensures fresh(tr) && fresh(tr.d) && fresh(Cells(tq)) && Apart(tq, tr)
  {
    Opened(n.d[..], n.size, v, n.d[..]);
    Opened(d.d[..], d.size, w, d.d[..]);
    hide Represents, Rounded, V, SameSign, Step, SignedQuotient, SignedRemainder;
    var qs := !SameSign(d.size, n.size);
    ghost var q, r;
    tq, tr, rn, q, r := DivTruncated(wantQ, n, d, qs, v, w);
    FromMagnitudes(mode, v, w, q, r);
    RemainderNonzero(mode, v, w, q, r);
    StepIs(mode, v, w, r, rn, qs);
    Q := SignedQuotient(v, w, q) + Step(mode, v, w, r);
    Adjust(tq, wantR, tr, d, mode, qs, rn, SignedQuotient(v, w, q), SignedRemainder(v, r), w, Step(mode, v, w, r));
  }

  lemma StepIs(mode: Mode, v: int, w: int, r: int, rn: nat, qs: bool)
    requires qs == ((v < 0) != (w < 0)) && (rn == 0 <==> r == 0)
    ensures Step(mode, v, w, r)
            == if mode == Floor && qs && rn != 0 then -1 else if mode == Ceil && !qs && rn != 0 then 1 else 0
  {
  }

  lemma RemainderNonzero(mode: Mode, v: int, w: int, q: int, r: int)
    requires w != 0 && Abs(v) == q * Abs(w) + r && 0 <= r < Abs(w)
    ensures r != 0 <==> v - (SignedQuotient(v, w, q) + Step(mode, v, w, r)) * w != 0
  {
    FromMagnitudes(mode, v, w, q, r);
  }

  /** The last part of mpz_div_qr: one more or one less for the quotient, and the remainder accordingly. */
  method Adjust(tq: Number?, wantR: bool, tr: Number, d: Number, mode: Mode, qs: bool, rn: nat,
                ghost q: int, ghost r: int, ghost w: int, ghost k: int)
    requires Holds(tq, q) && tr.Is(r) && d.Is(w) && Apart(tq, tr) && Apart(tq, d) && Apart(tr, d)
    requires k == if mode == Floor && qs && rn != 0 then -1 else if mode == Ceil && !qs && rn != 0 then 1 else 0
    modifies Cells(tq), tr, tr.d
    ensures Holds(tq, q + k) && (wantR ==> tr.Is(r - k * w)) && Apart(tq, tr)
    ensures (tr.d == old(tr.d) || fresh(tr.d)) && (tq != null ==> tq.d == old(tq.d) || fresh(tq.d))
  {
    hide Represents;
    if mode == Floor && qs && rn != 0 {
      if tq != null { SubUi(tq, tq, 1, q); }
      if wantR { AddNumbers(tr, tr, d, r, w); }
    } else if mode == Ceil && !qs && rn != 0 {
      if tq != null { AddUi(tq, tq, 1, q); }
      if wantR { SubNumbers(tr, tr, d, r, w); }
    }
  }

  /** mpz_div_qr: whatever the signs and the rounding, and whichever of the two results are wanted; the
      dividend and the divisor may be overwritten by the results. */
  method DivideNumbers(q: Number?, r: Number?, n: Number, d: Number, mode: Mode, ghost v: int, ghost w: int)
      returns (inexact: bool, ghost Q: int)
    requires n.Is(v) && d.Is(w) && w != 0 && Apart(q, r)
    requires (q == n || Apart(q, n)) && (q == d || Apart(q, d)) && (r == n || Apart(r, n)) && (r == d || Apart(r, d))
    modifies Cells(q), Cells(r)
    ensures Rounded(mode, v, w, Q) && Holds(q, Q) && Holds(r, v - Q * w)
    ensures inexact <==> v - Q * w != 0
  {
    Opened(n.d[..], n.size, v, n.d[..]);
    if n.size == 0 {
      if q != null { q.size := 0; }
      if r != null { r.size := 0; }
      Q := 0;
      return false, Q;
    }
    hide Represents, Rounded;
    if Abs(n.size) < Abs(d.size) {
      Q := DivSmall(q, r, n, d, mode, v, w);
      inexact := true;
    } else {
      var tq, tr, rn;
      tq, tr, rn, Q := DivLarge(q != null, r != null, n, d, mode, v, w);
      if q != null { Swap(tq, q, Q); }
      if r != null { Swap(tr, r, v - Q * w); }
      inexact := rn != 0;
    }
  }

  /** mpz_swap */
  method Swap(u: Number, v: Number, ghost x: int)
    requires u.Is(x)
    modifies u, v
    ensures v.Is(x) && v.d == old(u.d) && u.d == old(v.d) && v.size == old(u.size) && u.size == old(v.size)
  {
    u.size, v.size := v.size, u.size;
    u.d, v.d := v.d, u.d;
  }
}