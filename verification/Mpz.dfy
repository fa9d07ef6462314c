/** Signed numbers: sign and size in one field, magnitude in an array of limbs (the mpz functions of
    src/mini-gmp.c). A number owns its array. */
module Mpz {
  import opened Numbers
  import opened Bits
  import opened Limbs
  import opened Mpn

  /** GMP_ABS */
  function Abs(x: int): nat {
    if x >= 0 then x else -x
  }

  /** The number with the limbs `s` and the signed size `n`. */
  ghost function Signed(s: seq<Limb>, n: int): int
    requires Abs(n) <= |s|
  {
    if n < 0 then -(V(s, 0, Abs(n)) as int) else V(s, 0, Abs(n))
  }

  /** `s` and `n` represent `v`, without leading zero limbs. */
  ghost predicate Represents(s: seq<Limb>, n: int, v: int) {
    Abs(n) <= |s| && Normalized(s, 0, Abs(n)) && Signed(s, n) == v
  }

  class Number {
    var size: int
    var d: array<Limb>

    /** mpz_init */
    constructor ()
      ensures Represents(d[..], size, 0) && fresh(d)
    {
      size, d := 0, new Limb[0];
    }

    ghost predicate Is(v: int)
      reads this, d
    {
      Represents(d[..], size, v)
    }

    /** MPZ_REALLOC */
    method Realloc(n: nat) returns (rp: array<Limb>)
      modifies `d
      ensures rp == d && n <= rp.Length && (rp == old(d) || fresh(rp))
      ensures old(d.Length) <= rp.Length && rp[..old(d.Length)] == old(d[..])
    {
      rp := d;
      if n > d.Length {
        rp := new Limb[if n == 0 then 1 else n];
        forall i | 0 <= i < d.Length {
          rp[i] := d[i];
        }
        d := rp;
      }
    }
  }

  /** The magnitude alone. */
  ghost predicate Magnitude(s: seq<Limb>, n: nat, v: int) {
    n <= |s| && Normalized(s, 0, n) && V(s, 0, n) == v
  }

  lemma SignedMagnitude(s: seq<Limb>, n: nat, v: int)
    ensures Magnitude(s, n, v) <==> Represents(s, n, v)
    ensures Magnitude(s, n, v) ==> Represents(s, -(n as int), -v)
  {
  }

  /** What a number says about its limbs; its array may have grown. */
  lemma Opened(s: seq<Limb>, n: int, v: int, t: seq<Limb>)
    requires Represents(s, n, v) && |s| <= |t| && t[..|s|] == s
    ensures Represents(t, n, v) && Magnitude(t, Abs(n), Abs(v))
    ensures (v < 0 <==> n < 0) && (v == 0 <==> n == 0)
  {
    assert forall i :: 0 <= i < |s| ==> t[i] == t[..|s|][i];
    VKeep(s, t, 0, Abs(n));
    NormalizedBounds(s, 0, Abs(n));
  }

  // ------------------------------------------------------------------ assignment

  /** mpz_set_ui */
  method SetUi(r: Number, x: Limb)
    modifies r, r.d
    ensures r.Is(x) && (r.d == old(r.d) || fresh(r.d))
  {
    if x > 0 {
      r.size := 1;
      var rp := r.Realloc(1);
      rp[0] := x;
      FirstLimb(rp[..], 0);
    } else {
      r.size := 0;
    }
  }

  /** mpz_set_si, for the one negative value it is used with here. */
  method SetMinusOne(r: Number)
    modifies r, r.d
    ensures r.Is(-1) && (r.d == old(r.d) || fresh(r.d))
  {
    r.size := -1;
    var rp := r.Realloc(1);
    rp[0] := 1;
    FirstLimb(rp[..], 0);
  }

  /** mpz_set */
  method Set(r: Number, x: Number, ghost v: int)
    requires x.Is(v) && (r == x || r.d != x.d)
    modifies r, r.d
    ensures r.Is(v) && (r.d == old(r.d) || fresh(r.d)) && r.size == old(x.size)
  {
    if r != x {
      var n := Abs(x.size);
      var rp := r.Realloc(n);
      CopyI(rp, 0, x.d, 0, n);
      VCopy(rp[..], x.d[..], 0, 0, n);
      assert n > 0 ==> rp[0..0 + n][n - 1] == x.d[0..0 + n][n - 1];
      r.size := x.size;
    }
  }

  // ------------------------------------------------------------------ addition of magnitudes

  /** mpz_abs_add: the new size, which is not stored. */
  method AbsAdd(r: Number, a: Number, b: Number, ghost v: int, ghost w: int) returns (n: nat)
    requires a.Is(v) && b.Is(w) && (r == a || r.d != a.d) && (r == b || r.d != b.d)
    modifies r`d, r.d
    ensures Magnitude(r.d[..], n, Abs(v) + Abs(w)) && (r.d == old(r.d) || fresh(r.d))
  {
    hide Represents, Magnitude;
    if Abs(a.size) < Abs(b.size) {
      n := AbsAddOrdered(r, b, a, w, v);
    } else {
      n := AbsAddOrdered(r, a, b, v, w);
    }
  }

  method AbsAddOrdered(r: Number, a: Number, b: Number, ghost v: int, ghost w: int) returns (n: nat)
    requires a.Is(v) && b.Is(w) && (r == a || r.d != a.d) && (r == b || r.d != b.d)
    requires Abs(b.size) <= Abs(a.size)
    modifies r`d, r.d
    ensures Magnitude(r.d[..], n, Abs(v) + Abs(w)) && (r.d == old(r.d) || fresh(r.d))
  {
    ghost var S, T := a.d[..], b.d[..];
    var an, bn := Abs(a.size), Abs(b.size);
    var rp := r.Realloc(an + 1);
    Opened(S, a.size, v, a.d[..]);
    Opened(T, b.size, w, b.d[..]);
    hide V, P, Represents, Normalized;
    n := AddInto(rp, a.d, an, b.d, bn);
  }

  /** The sum with its carry limb. */
  method AddInto(rp: array<Limb>, ap: array<Limb>, an: nat, bp: array<Limb>, bn: nat) returns (n: nat)
    requires bn <= an < rp.Length && an <= ap.Length && bn <= bp.Length && Normalized(ap[..], 0, an)
    modifies rp
    ensures Magnitude(rp[..], n, V(old(ap[..]), 0, an) + V(old(bp[..]), 0, bn))
  {
    ghost var X, Y := ap[..], bp[..];
    hide V, P;
    var cy := AddLong(rp, ap, an, bp, bn);
    ghost var t := rp[..];
    rp[an] := cy;
    n := an + cy;
    AddNormalized(t, rp[..], X, an, cy, V(Y, 0, bn));
  }

  lemma AddNormalized(t: seq<Limb>, t': seq<Limb>, s: seq<Limb>, an: nat, cy: Limb, w: nat)
    requires an < |t| && an <= |s| && cy <= 1 && t' == t[an := cy] && Normalized(s, 0, an)
    requires V(t, 0, an) + cy * P(an) == V(s, 0, an) + w
    ensures Magnitude(t', an + cy, V(s, 0, an) + w)
  {
    hide V, P;
    VKeep(t, t', 0, an);
    NormalizedBounds(s, 0, an);
    if cy == 0 {
      TopNotZero(t', an);
    } else {
      assert cy == 1;
      Stored(t, t', 0, an, 1);
      OneTimes(P(an));
    }
  }

  lemma OneTimes(p: int)
    ensures 1 * p == p * 1 == p
  {
  }

  // ------------------------------------------------------------------ subtraction of magnitudes

  /** mpn_cmp4 */
  method Cmp4(ap: array<Limb>, an: nat, bp: array<Limb>, bn: nat) returns (c: int)
    requires an <= ap.Length && bn <= bp.Length && Normalized(ap[..], 0, an) && Normalized(bp[..], 0, bn)
    ensures c < 0 <==> V(ap[..], 0, an) < V(bp[..], 0, bn)
    ensures c > 0 <==> V(ap[..], 0, an) > V(bp[..], 0, bn)
    ensures (c > 0 ==> an >= bn) && (c < 0 ==> an <= bn)
  {
    if an != bn {
      if an < bn {
        SizeDecides(ap[..], 0, an, bp[..], 0, bn);
      } else {
        SizeDecides(bp[..], 0, bn, ap[..], 0, an);
      }
      c := if an < bn then -1 else 1;
    } else {
      c := Cmp(ap, 0, bp, 0, an);
    }
  }

  /** The branches of mpz_abs_sub where the magnitudes differ: the larger minus the smaller. */
  method AbsSubOrdered(r: Number, a: Number, b: Number, ghost v: int, ghost w: int) returns (n: nat)
    requires a.Is(v) && b.Is(w) && (r == a || r.d != a.d) && (r == b || r.d != b.d)
    requires Abs(w) <= Abs(v) && Abs(b.size) <= Abs(a.size)
    modifies r`d, r.d
    ensures Magnitude(r.d[..], n, Abs(v) - Abs(w)) && (r.d == old(r.d) || fresh(r.d))
  {
    ghost var S, T := a.d[..], b.d[..];
    var an, bn := Abs(a.size), Abs(b.size);
    var rp := r.Realloc(an);
    Opened(S, a.size, v, a.d[..]);
    Opened(T, b.size, w, b.d[..]);
    hide V, P, Represents;
    var cy := SubLong(rp, a.d, an, b.d, bn);
    NothingBorrowed(rp[..], an, cy, Abs(v) - Abs(w));
    n := NormalizedSize(rp, 0, an);
  }

  lemma NothingBorrowed(s: seq<Limb>, n: nat, cy: Limb, v: int)
    requires n <= |s| && V(s, 0, n) - cy * P(n) == v >= 0
    ensures cy == 0 && V(s, 0, n) == v
  {
    VBound(s, 0, n);
    hide V, P;
    if cy >= 1 { MulLe(1, cy, P(n)); }
  }

  /** mpz_abs_sub: the new size with the sign of the difference. */
  method AbsSub(r: Number, a: Number, b: Number, ghost v: int, ghost w: int) returns (n: int)
    requires a.Is(v) && b.Is(w) && (r == a || r.d != a.d) && (r == b || r.d != b.d)
    modifies r`d, r.d
    ensures Represents(r.d[..], n, Abs(v) - Abs(w)) && (r.d == old(r.d) || fresh(r.d))
  {
    Opened(a.d[..], a.size, v, a.d[..]);
    Opened(b.d[..], b.size, w, b.d[..]);
    var cmp := Cmp4(a.d, Abs(a.size), b.d, Abs(b.size));
    if cmp > 0 {
      hide V, Represents, Magnitude;
      n := AbsSubOrdered(r, a, b, v, w);
      SignedMagnitude(r.d[..], n, Abs(v) - Abs(w));
    } else if cmp < 0 {
      hide V, Represents, Magnitude;
      var m := AbsSubOrdered(r, b, a, w, v);
      SignedMagnitude(r.d[..], m, Abs(w) - Abs(v));
      n := -(m as int);
    } else {
      n := 0;
    }
  }

  // ------------------------------------------------------------------ addition and subtraction

  lemma WithSign(s: seq<Limb>, n: int, v: int, negative: bool)
    requires Represents(s, n, v)
    ensures Represents(s, if negative then -n else n, if negative then -v else v)
  {
    if n == 0 { assert V(s, 0, 0) == 0; }
  }

  /** The sign test of mpz_add and mpz_sub, `(a->_mp_size ^ b->_mp_size) >= 0`. */
  function SameSign(m: int, n: int): (c: bool)
    ensures c <==> ((m < 0) == (n < 0))
  {
    BitwiseSign(Xor, m, n);
    Bitwise(Xor, m, n) >= 0
  }

  /** The sum of the magnitudes, or their difference. */
  method AddOrSub(r: Number, a: Number, b: Number, add: bool, ghost v: int, ghost w: int) returns (n: int)
    requires a.Is(v) && b.Is(w) && (r == a || r.d != a.d) && (r == b || r.d != b.d)
    modifies r`d, r.d
    ensures Represents(r.d[..], n, if add then Abs(v) + Abs(w) else Abs(v) - Abs(w))
    ensures r.d == old(r.d) || fresh(r.d)
  {
    hide Represents, Magnitude;
    if add {
      n := AbsAdd(r, a, b, v, w);
      SignedMagnitude(r.d[..], n, Abs(v) + Abs(w));
    } else {
      n := AbsSub(r, a, b, v, w);
    }
  }

  /** mpz_add */
  method AddNumbers(r: Number, a: Number, b: Number, ghost v: int, ghost w: int)
    requires a.Is(v) && b.Is(w) && (r == a || r.d != a.d) && (r == b || r.d != b.d)
    modifies r, r.d
    ensures r.Is(v + w) && (r.d == old(r.d) || fresh(r.d))
  {
    Opened(a.d[..], a.size, v, a.d[..]);
    Opened(b.d[..], b.size, w, b.d[..]);
    hide SameSign, Represents, Magnitude;
    var add := SameSign(a.size, b.size);
    var rn := AddOrSub(r, a, b, add, v, w);
    WithSign(r.d[..], rn, if add then Abs(v) + Abs(w) else Abs(v) - Abs(w), a.size < 0);
    r.size := if a.size >= 0 then rn else -rn;
  }

  /** mpz_sub */
  method SubNumbers(r: Number, a: Number, b: Number, ghost v: int, ghost w: int)
    requires a.Is(v) && b.Is(w) && (r == a || r.d != a.d) && (r == b || r.d != b.d)
    modifies r, r.d
    ensures r.Is(v - w) && (r.d == old(r.d) || fresh(r.d))
  {
    Opened(a.d[..], a.size, v, a.d[..]);
    Opened(b.d[..], b.size, w, b.d[..]);
    hide SameSign, Represents, Magnitude;
    var sub := SameSign(a.size, b.size);
    var rn := AddOrSub(r, a, b, !sub, v, w);
    WithSign(r.d[..], rn, if !sub then Abs(v) + Abs(w) else Abs(v) - Abs(w), a.size < 0);
    r.size := if a.size >= 0 then rn else -rn;
  }

  // ------------------------------------------------------------------ addition and subtraction of a limb

  /** mpz_abs_add_ui */
  method AbsAddUi(r: Number, a: Number, b: Limb, ghost v: int) returns (n: nat)
    requires a.Is(v) && (r == a || r.d != a.d)
    modifies r`d, r.d
    ensures Magnitude(r.d[..], n, Abs(v) + b) && (r.d == old(r.d) || fresh(r.d))
  {
    hide V, P, Represents;
    ghost var S := a.d[..];
    var an := Abs(a.size);
    Opened(S, a.size, v, S);
    if an == 0 {
      var rp := r.Realloc(1);
      rp[0] := b;
      OneLimb(rp[..], b);
      return if b > 0 then 1 else 0;
    }
    var rp := r.Realloc(an + 1);
    Opened(S, a.size, v, a.d[..]);
    ghost var X := a.d[..];
    var cy := Add1(rp, 0, a.d, 0, an, b);
    FirstCarry(rp[..], X, an, b, cy);
    ghost var t := rp[..];
    rp[an] := cy;
    n := an + cy;
    AddNormalized(t, rp[..], X, an, cy, b);
  }

  lemma OneLimb(s: seq<Limb>, b: Limb)
    requires |s| > 0 && s[0] == b
    ensures Magnitude(s, if b > 0 then 1 else 0, b)
  {
    FirstLimb(s, 0);
  }

  lemma FirstCarry(r: seq<Limb>, s: seq<Limb>, n: nat, b: Limb, cy: Limb)
    requires 0 < n <= |r| && n <= |s| && V(r, 0, n) + cy * P(n) == V(s, 0, n) + b
    ensures cy <= 1
  {
    VBound(s, 0, n);
    assert P(1) == B;
    PGrows(1, n);
    hide V, P;
    if cy >= 2 { MulLe(2, cy, P(n)); }
  }

  /** mpz_abs_sub_ui: the new size with the sign of the difference. */
  method AbsSubUi(r: Number, a: Number, b: Limb, ghost v: int) returns (n: int)
    requires a.Is(v) && (r == a || r.d != a.d)
    modifies r`d, r.d
    ensures Represents(r.d[..], n, Abs(v) - b) && (r.d == old(r.d) || fresh(r.d))
  {
    var an := Abs(a.size);
    Opened(a.d[..], a.size, v, a.d[..]);
    if an > 0 { FirstLimb(a.d[..], 0); }
    if an == 0 {
      var rp := r.Realloc(1);
      rp[0] := b;
      FirstLimb(rp[..], 0);
      n := if b > 0 then -1 else 0;
    } else if an == 1 && a.d[0] < b {
      var x := b - a.d[0];
      var rp := r.Realloc(1);
      rp[0] := x;
      FirstLimb(rp[..], 0);
      n := -1;
    } else {
      n := AbsSubLarge(r, a, b, v);
    }
  }

  method AbsSubLarge(r: Number, a: Number, b: Limb, ghost v: int) returns (n: nat)
    requires a.Is(v) && (r == a || r.d != a.d) && a.size != 0 && (Abs(a.size) == 1 ==> b <= a.d[0])
    modifies r`d, r.d
    ensures Represents(r.d[..], n, Abs(v) - b) && (r.d == old(r.d) || fresh(r.d))
  {
    ghost var S := a.d[..];
    var an := Abs(a.size);
    Opened(S, a.size, v, S);
    LargeEnough(S, an, b);
    var rp := r.Realloc(an);
    Opened(S, a.size, v, a.d[..]);
    hide V, P, Represents;
    var cy := Sub1(rp, 0, a.d, 0, an, b);
    NothingBorrowed(rp[..], an, cy, Abs(v) - b);
    n := NormalizedSize(rp, 0, an);
    SignedMagnitude(rp[..], n, Abs(v) - b);
  }

  lemma LargeEnough(s: seq<Limb>, n: nat, b: Limb)
    requires 0 < n <= |s| && Normalized(s, 0, n) && (n == 1 ==> b <= s[0])
    ensures b <= V(s, 0, n)
  {
    FirstLimb(s, 0);
    NormalizedBounds(s, 0, n);
    assert P(1) == B;
    if n > 1 { PGrows(1, n - 1); }
  }

  /** mpz_add_ui */
  method AddUi(r: Number, a: Number, b: Limb, ghost v: int)
    requires a.Is(v) && (r == a || r.d != a.d)
    modifies r, r.d
    ensures r.Is(v + b) && (r.d == old(r.d) || fresh(r.d))
  {
    Opened(a.d[..], a.size, v, a.d[..]);
    hide Represents, Magnitude;
    if a.size >= 0 {
      var n := AbsAddUi(r, a, b, v);
      SignedMagnitude(r.d[..], n, Abs(v) + b);
      r.size := n;
    } else {
      var n := AbsSubUi(r, a, b, v);
      WithSign(r.d[..], n, Abs(v) - b, true);
      r.size := -n;
    }
  }

  /** mpz_sub_ui */
  method SubUi(r: Number, a: Number, b: Limb, ghost v: int)
    requires a.Is(v) && (r == a || r.d != a.d)
    modifies r, r.d
    ensures r.Is(v - b) && (r.d == old(r.d) || fresh(r.d))
  {
    Opened(a.d[..], a.size, v, a.d[..]);
    hide Represents, Magnitude;
    if a.size < 0 {
      var n := AbsAddUi(r, a, b, v);
      SignedMagnitude(r.d[..], n, Abs(v) + b);
      WithSign(r.d[..], n, Abs(v) + b, true);
      r.size := -(n as int);
    } else {
      var n := AbsSubUi(r, a, b, v);
      r.size := n;
    }
  }
}
