/** Conversion between limbs and digits in a base that is no power of two: digits are handled in groups,
    as many as fit in one limb (mpn_get_base_info, mpn_limb_get_str, mpn_get_str_other and
    mpn_set_str_other in src/mini-gmp.c). */
module StrOther {
  import opened Numbers
  import opened Bits
  import opened Limbs
  import opened Mpn
  import opened MpnShift
  import opened Reciprocal
  import opened DivLimb
  import opened MpnDiv
  import opened Digits

  /** struct mpn_base_info */
  datatype BaseInfo = BaseInfo(exp: nat, bb: Limb)

  /** `bb` is the power of the base with `exp` digits, and no larger power fits in a limb. */
  ghost predicate Largest(info: BaseInfo, b: nat) {
    info.exp > 0 && info.bb == Power(b, info.exp) && B <= info.bb * b
  }

  /** mpn_get_base_info */
  method GetBaseInfo(b: Limb) returns (info: BaseInfo)
    requires b >= 2
    ensures Largest(info, b)
  {
    var m: nat := (B - 1) / b;
    var exp, p: nat := 1, b;
    while p <= m
      invariant exp > 0 && p == Power(b, exp) && 0 < p < B
      decreases B - p
    {
      NextPower(b, exp, p, m);
      p := p * b;
      exp := exp + 1;
    }
    info := BaseInfo(exp, p);
    TooLarge(b, p, m);
  }

  lemma NextPower(b: nat, exp: nat, p: nat, m: int)
    requires b >= 2 && p == Power(b, exp) && p > 0 && p <= m == (B - 1) / b
    ensures p * b == Power(b, exp + 1) && p < p * b < B
  {
    Nest(p, b, 1);
    assert B - 1 == m * b + (B - 1) % b;
    MulLe(p, m, b);
    MulLe(2, b, p);
  }

  lemma TooLarge(b: nat, p: nat, m: int)
    requires b >= 2 && m < p && m == (B - 1) / b
    ensures B <= p * b
  {
    assert B - 1 == m * b + (B - 1) % b;
    MulLe(m + 1, p, b);
    Sum(m, 1, b);
  }

  // ------------------------------------------------------------------ limbs to digits

  /** `ds` are digits of `n`, least significant first, and `w` is what is left above them. */
  ghost predicate Produced(b: nat, ds: seq<nat>, w: nat, n: nat) {
    AreDigits(b, ds) && b > 0 && FromLow(b, ds) + Power(b, |ds|) * w == n
  }

  lemma ProducedNext(b: nat, ds: seq<nat>, w: nat, n: nat, es: seq<nat>, q: nat)
    requires Produced(b, ds, w, n) && AreDigits(b, es) && w == FromLow(b, es) + Power(b, |es|) * q
    ensures Produced(b, ds + es, q, n)
  {
    hide FromLow, Power, AreDigits;
    DigitsAppend(b, ds, es);
    FromLowAppend(b, ds, es);
    PowerAdd(b, |ds|, |es|);
    ProducedNumbers(Power(b, |ds|), Power(b, |es|), FromLow(b, es), q, w);
  }

  lemma DigitsAppend(b: nat, ds: seq<nat>, es: seq<nat>)
    requires AreDigits(b, ds) && AreDigits(b, es)
    ensures AreDigits(b, ds + es)
  {
  }

  lemma ProducedNumbers(p: int, pe: int, f: int, q: int, w: int)
    requires w == f + pe * q
    ensures p * w == p * f + (p * pe) * q
  {
    Nest(p, pe, q);
    Distribute(p, f, pe * q);
  }

  /** The divisor of mpn_div_qr_1_invert for `d`. */
  ghost predicate InverseOf(inv: DivInverse, d: Limb) {
    d > 0 && inv.shift < 64 && inv.d1 == d * Pow2(inv.shift) && Inverse2(B, inv.d1, inv.di)
  }

  /** mpn_limb_get_str: the digits of one limb, least significant first and without zeros above. */
  method LimbGetStr(w0: Limb, binv: DivInverse, b: Limb) returns (sp: seq<nat>)
    requires InverseOf(binv, b) && 2 <= b <= 36
    ensures Produced(b, sp, 0, w0) && (w0 > 0 ==> sp != [] && sp[|sp| - 1] != 0) && (w0 == 0 ==> sp == [])
  {
    var w := w0;
    sp := [];
    assert Power(b, 0) == 1 && FromLow(b, []) == 0;
    hide Produced, InverseOf, FromLow, Power;
    assert Produced(b, [], w, w0) by { StartProduced(b, w0); }
    while w > 0
      invariant Produced(b, sp, w, w0) && (w == 0 && w0 > 0 ==> sp != [] && sp[|sp| - 1] != 0)
      invariant w0 == 0 ==> sp == [] && w == 0
    {
      var q, r := LimbDigit(w, binv, b);
      ProducedNext(b, sp, w, w0, [r], q);
      sp := sp + [r];
      w := q;
    }
  }

  lemma StartProduced(b: nat, w: nat)
    requires b > 0
    ensures Produced(b, [], w, w)
  {
  }

  /** One digit of mpn_limb_get_str. */
  method LimbDigit(w: Limb, binv: DivInverse, b: Limb) returns (q: Limb, r: Limb)
    requires InverseOf(binv, b) && 2 <= b <= 36 && w > 0
    ensures w == r + b * q && r < b && q < w && (q == 0 ==> r > 0)
  {
    var shift := binv.shift;
    ghost var c := Pow2(shift);
    assert shift > 0 by { Pow2Zero(); }
    ShiftLimb(w, shift);
    HighBelow(shift, binv.d1);
    hide Pow2, ShiftLeft, ShiftRight, Inverse2;
    var h, l := ShiftRight(w, 64 - shift), ShiftLeft(w, shift);
    q, r := UdivQrnndPreinv(h, l, binv.d1, binv.di);
    Unnormalize(c, b, w, q, r);
    NothingBelow(r, shift);
    assert ShiftLeft(r, 64 - shift) == 0;
    r := RightBy(r, shift);
    SmallerQuotient(w, q, b, r);
  }

  method RightBy(a: Limb, n: nat) returns (r: Limb)
    ensures r == a / Pow2(n)
  {
    r := ShiftRight(a, n);
  }

  lemma NothingBelow(r: Limb, shift: nat)
    requires shift <= 64 && r % Pow2(shift) == 0
    ensures ShiftLeft(r, 64 - shift) == 0
  {
    ShiftLimb(r, 64 - shift);
  }

  lemma SmallerQuotient(w: int, q: int, b: int, r: int)
    requires b >= 2 && q >= 0 && r == w - q * b && 0 <= r < b && w > 0
    ensures w == r + b * q && q < w && (q == 0 ==> r > 0)
  {
    if q > 0 { MulLe(2, b, q); }
  }

  /** The digits of a group, filled up with zeros to `exp` of them. */
  method Pad(ds: seq<nat>, exp: nat, b: nat, ghost w: nat) returns (es: seq<nat>)
    requires Produced(b, ds, 0, w) && |ds| <= exp
    ensures |es| == exp && AreDigits(b, es) && FromLow(b, es) == w
  {
    es := ds;
    var done := |ds|;
    StartPad(b, ds);
    hide FromLow, Power, Produced;
    while done < exp
      invariant |es| == done <= exp && AreDigits(b, es) && FromLow(b, es) == w && b > 0
    {
      FromLowAppend(b, es, [0]);
      es := es + [0];
      done := done + 1;
    }
  }

  lemma StartPad(b: nat, ds: seq<nat>)
    requires b > 0
    ensures Power(b, |ds|) * 0 == 0
  {
  }

  /** Digits with a nonzero digit on top are no more than fit below a power of the base. */
  lemma FewDigits(b: nat, ds: seq<nat>, exp: nat, w: nat)
    requires Produced(b, ds, 0, w) && w < Power(b, exp) && (ds != [] ==> ds[|ds| - 1] != 0)
    ensures |ds| <= exp
  {
    if |ds| > exp {
      var n := |ds| - 1;
      assert ds == ds[..n] + [ds[n]];
      FromLowAppend(b, ds[..n], [ds[n]]);
      hide FromLow, Power;
      AtLeastOnce(Power(b, n), ds[n]);
      PowerAdd(b, exp, n - exp);
      AtLeastOnce(Power(b, exp), Power(b, n - exp));
    }
  }

  /** The size of a quotient by a limb: its highest limb may be zero, the one below is not. */
  lemma QuotientTop(s: seq<Limb>, t: seq<Limb>, n: nat, d: Limb, q: int, r: int)
    requires 1 < n <= |s| && n <= |t| && Normalized(s, 0, n) && d > 0
    requires V(t, 0, n) == q && q * d + r == V(s, 0, n) && 0 <= r < d
    ensures var m := if t[n - 1] == 0 then n - 1 else n; Normalized(t, 0, m) && V(t, 0, m) == q && q > 0
  {
    hide V, P;
    NormalizedBounds(s, 0, n);
    assert P(n - 1) == B * P(n - 2) by { PStep(n - 1); }
    QuotientNumbers(P(n - 2), q, d, r, V(s, 0, n));
    if t[n - 1] == 0 {
      VTop(t, 0, n - 1);
      TopNotZero(t, n - 1);
    }
  }

  lemma QuotientNumbers(p: int, q: int, d: Limb, r: int, v: int)
    requires p > 0 && q * d + r == v && 0 <= r < d && B * p <= v
    ensures p <= q
  {
    if q < p {
      MulLe(q + 1, p, d);
      Sum(q, 1, d);
      MulLe(d, B - 1, p);
    }
  }

  /** One group: the remainder of the number by the largest power. */
  method GetGroup(b: Limb, info: BaseInfo, up: array<Limb>, un0: nat, binv: DivInverse, bbinv: DivInverse, ghost n: nat,
                  ghost ds: seq<nat>) returns (un: nat, es: seq<nat>)
    requires 2 <= b <= 36 && Largest(info, b) && InverseOf(binv, b) && InverseOf(bbinv, info.bb)
    requires 1 < un0 <= up.Length && Normalized(up[..], 0, un0) && Produced(b, ds, V(up[..], 0, un0), n)
    modifies up
    ensures 0 < un <= un0 && Normalized(up[..], 0, un) && AreDigits(b, es) && V(up[..], 0, un) > 0
    ensures Produced(b, ds + es, V(up[..], 0, un), n) && V(up[..], 0, un) < V(old(up[..]), 0, un0)
  {
    ghost var S := up[..];
    var w;
    ghost var q;
    hide V, P, Inverse2, Produced;
    w, q := DivQr1Preinv(up, 0, up, 0, un0, bbinv, info.bb);
    QuotientTop(S, up[..], un0, info.bb, q, w);
    un := if up[un0 - 1] == 0 then un0 - 1 else un0;
    es := LimbGetStr(w, binv, b);
    FewDigits(b, es, info.exp, w);
    es := Pad(es, info.exp, b, w);
    hide FromLow, Power, InverseOf;
    SmallerGroup(V(S, 0, un0), q, info.bb, w);
    ProducedNext(b, ds, V(S, 0, un0), n, es, q);
  }

  lemma SmallerGroup(v: int, q: int, d: Limb, w: int)
    requires d >= 2 && q > 0 && q * d + w == v && w >= 0
    ensures q < v && v == w + d * q
  {
    MulLe(2, d, q);
  }

  lemma LargestBase(info: BaseInfo, b: nat)
    requires b >= 2 && Largest(info, b)
    ensures info.exp > 0
    ensures info.bb >= 2 && Power(b, info.exp) == info.bb
  {
    var p := Power(b, info.exp - 1);
    assert info.bb == b * p;
    AtLeastOnce(b, p);
  }

  /** The last loop of mpn_get_str_other. */
  method ReverseOrder(sp0: seq<nat>) returns (sp: seq<nat>)
    ensures sp == Reversed(sp0)
  {
    sp := sp0;
    var sn := |sp|;
    var i := 0;
    while 2 * i + 1 < sn
      invariant 0 <= 2 * i <= sn && |sp| == sn
      invariant forall k :: i <= k < sn - i ==> sp[k] == sp0[k]
      invariant forall k :: 0 <= k < i ==> sp[k] == sp0[sn - 1 - k] && sp[sn - 1 - k] == sp0[k]
    {
      var t := sp[i];
      sp := sp[i := sp[sn - i - 1]];
      sp := sp[sn - i - 1 := t];
      i := i + 1;
    }
  }

  /** mpn_get_str_other: the digits, most significant first; the limbs are used up. */
  method GetStrOther(b: Limb, info: BaseInfo, up: array<Limb>, un0: nat) returns (sp: seq<nat>)
    requires 2 <= b <= 36 && Largest(info, b)
    requires 0 < un0 <= up.Length && Normalized(up[..], 0, un0)
    modifies up
    ensures AreDigits(b, sp) && FromHigh(b, sp) == V(old(up[..]), 0, un0) && sp != [] && sp[0] != 0
  {
    ghost var n := V(up[..], 0, un0);
    var un := un0;
    var binv := Div1Invert(b);
    LargestBase(info, b);
    StartProduced(b, n);
    NormalizedBounds(up[..], 0, un0);
    hide V, P, Largest, Inverse2, Produced;
    sp := [];
    if un > 1 {
      var bbinv := Div1Invert(info.bb);
      hide InverseOf;
      while un > 1
        invariant 0 < un <= up.Length && Normalized(up[..], 0, un) && V(up[..], 0, un) > 0
        invariant Produced(b, sp, V(up[..], 0, un), n)
        decreases V(up[..], 0, un)
      {
        var es;
        un, es := GetGroup(b, info, up, un, binv, bbinv, n, sp);
        sp := sp + es;
      }
    }
    FirstLimb(up[..], 0);
    var es := LimbGetStr(up[0], binv, b);
    LastGroup(b, sp, up[0], n, es);
    sp := sp + es;
    ReversedValue(b, sp);
    sp := ReverseOrder(sp);
  }

  lemma LastGroup(b: nat, ds: seq<nat>, w: nat, n: nat, es: seq<nat>)
    requires Produced(b, ds, w, n) && Produced(b, es, 0, w)
    ensures AreDigits(b, ds + es) && FromLow(b, ds + es) == n
  {
    hide FromLow, Power;
    ProducedNext(b, ds, w, n, es, 0);
  }

  // ------------------------------------------------------------------ digits to limbs

  /** A group of `n` digits from position `j` on, as a limb. */
  method Group(sp: seq<nat>, j: nat, n: nat, b: Limb, info: BaseInfo) returns (w: Limb)
    requires b >= 2 && Largest(info, b) && AreDigits(b, sp) && 0 < n <= info.exp && j + n <= |sp|
    ensures w == FromHigh(b, sp[j..j + n])
  {
    w := sp[j];
    var k := 1;
    assert sp[j..j + 1] == [sp[j]] && FromHigh(b, []) == 0;
    assert [sp[j]][..0] == [];
    while k < n
      invariant 0 < k <= n && w == FromHigh(b, sp[j..j + k])
    {
      GroupFits(sp, j, k, b, info);
      w := Add(Mul(w, b), sp[j + k]);
      k := k + 1;
    }
  }

  lemma GroupFits(sp: seq<nat>, j: nat, k: nat, b: Limb, info: BaseInfo)
    requires b >= 2 && Largest(info, b) && AreDigits(b, sp) && k < info.exp && j + k < |sp|
    ensures var x := FromHigh(b, sp[j..j + k]) * b;
            FromHigh(b, sp[j..j + (k + 1)]) == x + sp[j + k] && x + sp[j + k] < B && 0 <= x
  {
    var s, t := sp[j..j + k], sp[j..j + (k + 1)];
    assert t[..|t| - 1] == s && t[|t| - 1] == sp[j + k];
    FromHighBound(b, t);
    PowerAdd(b, k + 1, info.exp - k - 1);
    AtLeastOnce(Power(b, k + 1), Power(b, info.exp - k - 1));
    MulLe(0, FromHigh(b, s), b);
  }

  /** The number so far times the group's power plus the group: multiplied and added in place, with a carry limb. */
  method AddGroup(rp: array<Limb>, rn0: nat, bb: Limb, w: Limb) returns (rn: nat)
    requires 0 < rn0 < rp.Length && bb >= 2 && (rn0 > 1 ==> rp[rn0 - 1] != 0)
    modifies rp
    ensures rn0 <= rn <= rn0 + 1 && (rn > 1 ==> rp[rn - 1] != 0)
    ensures V(rp[..], 0, rn) == V(old(rp[..]), 0, rn0) * bb + w
  {
    ghost var S := rp[..];
    hide V, P;
    var c := Mul1(rp, 0, rp, 0, rn0, bb);
    ghost var m := V(rp[..], 0, rn0);
    var c' := Add1(rp, 0, rp, 0, rn0, w);
    CarriesFit(S, rp[..], rn0, bb, w, m, c, c');
    var cy := Add(c, c');
    rn := rn0;
    if cy > 0 {
      ghost var t := rp[..];
      rp[rn] := cy;
      Stored(t, rp[..], 0, rn, cy);
      rn := rn + 1;
    }
  }

  lemma CarriesFit(s: seq<Limb>, t: seq<Limb>, n: nat, bb: Limb, w: Limb, m: int, c: Limb, c': Limb)
    requires 0 < n <= |s| && n <= |t| && bb >= 2 && (n > 1 ==> s[n - 1] != 0)
    requires m + c * P(n) == V(s, 0, n) * bb && V(t, 0, n) + c' * P(n) == m + w
    ensures c + c' < B && V(t, 0, n) + P(n) * (c + c') == V(s, 0, n) * bb + w
    ensures c + c' == 0 && n > 1 ==> t[n - 1] != 0
  {
    hide V, P;
    VBound(s, 0, n);
    VBound(t, 0, n);
    CarryNumbers(V(s, 0, n), V(t, 0, n), P(n), bb, w, m, c, c');
    if c + c' == 0 && n > 1 {
      NormalizedBounds(s, 0, n);
      TopNotZero(t, n);
    }
  }

  lemma CarryNumbers(v: int, u: int, p: int, bb: Limb, w: Limb, m: int, c: int, c': int)
    requires 0 <= v < p && 0 <= u < p && bb >= 2 && c >= 0 && c' >= 0
    requires m + c * p == v * bb && u + c' * p == m + w
    ensures c + c' < B && u + p * (c + c') == v * bb + w && (c + c' == 0 ==> v <= u)
  {
    Sum(c, c', p);
    Commute(p, c + c');
    MulLe(v, p - 1, bb);
    MulLe(bb, B - 1, p - 1);
    Diff(p, 1, bb);
    if c + c' >= B { MulLe(B, c + c', p); }
    MulLe(2, bb, v);
  }

  lemma GroupsLeft(b: Limb, info: BaseInfo, sp: seq<nat>, j: nat, v: nat, w: nat)
    requires Largest(info, b) && b > 0 && j + info.exp <= |sp|
    requires v == FromHigh(b, sp[..j]) && w == FromHigh(b, sp[j..j + info.exp])
    ensures v * info.bb + w == FromHigh(b, sp[..j + info.exp])
  {
    assert sp[..j + info.exp] == sp[..j] + sp[j..j + info.exp];
    FromHighAppend(b, sp[..j], sp[j..j + info.exp]);
  }

  /** How many groups there are: the first may be short. */
  lemma GroupCount(sn: nat, exp: nat) returns (groups: nat)
    requires sn > 0 && exp > 0
    ensures var k := 1 + (sn - 1) % exp; k <= exp && sn == k + groups * exp && groups >= 0
    ensures (sn + exp - 1) / exp == groups + 1
  {
    groups := (sn - 1) / exp;
    var r := (sn - 1) % exp;
    assert sn - 1 == groups * exp + r;
    if groups < 0 { MulLe(groups, -1, exp); }
    Sum(groups, 1, exp);
    DivUnique(sn + exp - 1, groups + 1, r, exp);
  }

  /** mpn_set_str_other: the limbs of the number with the given digits. Leading zeros are possible
      only if it is zero. */
  method SetStrOther(rp: array<Limb>, sp: seq<nat>, b: Limb, info: BaseInfo) returns (rn: nat)
    requires b >= 2 && Largest(info, b) && AreDigits(b, sp) && sp != []
    requires (|sp| + info.exp - 1) / info.exp <= rp.Length
    modifies rp
    ensures 0 < rn <= (|sp| + info.exp - 1) / info.exp && V(rp[..], 0, rn) == FromHigh(b, sp)
    ensures rn > 1 ==> rp[rn - 1] != 0
  {
    hide V, Largest, FromHigh;
    LargestBase(info, b);
    var sn := |sp|;
    ghost var left := GroupCount(sn, info.exp);
    var k := 1 + (sn - 1) % info.exp;
    ghost var groups := left + 1;
    var w := Group(sp, 0, k, b, info);
    var j: nat := k;
    rp[0] := w;
    FirstLimb(rp[..], 0);
    rn := 1;
    assert sp[0..0 + k] == sp[..k];
    while j < sn
      invariant 0 < rn <= groups - left && j <= sn && left >= 0 && sn == j + left * info.exp
      invariant V(rp[..], 0, rn) == FromHigh(b, sp[..j]) && (rn > 1 ==> rp[rn - 1] != 0)
      decreases left
    {
      OneGroup(left, info.exp);
      w := Group(sp, j, info.exp, b, info);
      GroupsLeft(b, info, sp, j, V(rp[..], 0, rn), w);
      rn := AddGroup(rp, rn, info.bb, w);
      j := j + info.exp;
      left := left - 1;
    }
    assert j == sn;
    assert sp[..j] == sp;
  }

  lemma OneGroup(left: nat, exp: nat)
    requires left * exp > 0
    ensures left > 0 && left * exp == exp + (left - 1) * exp && (left - 1) * exp >= 0
  {
    Diff(left, 1, exp);
    MulLe(0, left - 1, exp);
  }
}
