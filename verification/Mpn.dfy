/** Vectors of limbs changed in place (the mpn functions of src/mini-gmp.c). A pointer is an array and
    a position in it. Source and destination may be the same array as long as no limb is overwritten
    before it has been read. */
module Mpn {
  import opened Numbers
  import opened Limbs

  /** `t` is `s` but for the `n` entries from `i` on. */
  ghost predicate Outside(s: seq<Limb>, t: seq<Limb>, i: nat, n: nat) {
    |s| == |t| && forall j :: 0 <= j < |s| && (j < i || i + n <= j) ==> t[j] == s[j]
  }

  /** The first `i` limbs at `ri` have been computed: with the carry (negative for a borrow) they make up `y`. */
  ghost predicate Computed(r: seq<Limb>, ri: nat, i: nat, cy: int, y: int) {
    ri + i <= |r| && V(r, ri, i) + cy * P(i) == y
  }

  lemma Start(r: seq<Limb>, ri: nat, cy: int, y: int)
    requires ri <= |r| && cy == y
    ensures Computed(r, ri, 0, cy, y)
  {
    assert P(0) == 1 && V(r, ri, 0) == 0;
  }

  lemma Finish(r: seq<Limb>, ri: nat, n: nat, cy: int, y: int)
    requires ri + n <= |r|
    ensures Computed(r, ri, n, cy, y) <==> V(r, ri, n) + cy * P(n) == y
    ensures Computed(r, ri, n, -cy, y) <==> V(r, ri, n) - cy * P(n) == y
  {
    Borrowed(cy, P(n));
  }

  /** What is to be computed grows by `a` at the place of limb `i`. */
  ghost predicate Grows(i: nat, y: int, a: int, y': int) {
    y' == y + P(i) * a
  }

  /** The first `i` limbs times `v`. */
  ghost function Scaled(s: seq<Limb>, si: nat, i: nat, v: int): int
    requires si + i <= |s|
  {
    V(s, si, i) * v
  }

  /** One more limb. */
  lemma Next(r: seq<Limb>, ri: nat, i: nat, cy: int, y: int, x: Limb, c: int, a: int, y': int)
    requires ri + i < |r| && Computed(r, ri, i, cy, y) && a + cy == x + B * c && Grows(i, y, a, y')
    ensures Computed(r[ri + i := x], ri, i + 1, c, y')
  {
    Stored(r, r[ri + i := x], ri, i, x);
    Carry(P(i), V(r, ri, i), y, cy, x, a, c);
  }

  /** Storing that limb. */
  method StoreNext(rp: array<Limb>, ri: nat, i: nat, x: Limb, ghost R: seq<Limb>, ghost cy: int, ghost y: int,
                   ghost c: int,
                   ghost a: int, ghost y': int)
    requires ri + i < rp.Length && Outside(R, rp[..], ri, i) && Computed(rp[..], ri, i, cy, y)
    requires a + cy == x + B * c && Grows(i, y, a, y')
    modifies rp
    ensures Outside(R, rp[..], ri, i + 1) && Computed(rp[..], ri, i + 1, c, y')
    ensures Outside(old(rp[..]), rp[..], ri + i, 1)
  {
    hide Computed, Grows;
    Next(rp[..], ri, i, cy, y, x, c, a, y');
    ghost var t := rp[..];
    rp[ri + i] := x;
    assert rp[..] == t[ri + i := x];
  }

  lemma Distribute(p: int, a: int, b: int)
    ensures p * (a + b) == p * a + p * b && p * (a - b) == p * a - p * b
  {
  }

  lemma Borrowed(c: int, p: int)
    ensures -c * p == -(c * p)
  {
  }

  // ------------------------------------------------------------------ addition and subtraction

  /** One limb of mpn_add_n. */
  method AddLimb(a: Limb, b: Limb, cy: Limb) returns (r: Limb, c: Limb)
    requires cy <= 1
    ensures a + b + cy == r + B * c && c <= 1
  {
    r := Add(a, cy);
    c := Flag(r < cy);
    r := Add(r, b);
    c := c + Flag(r < b);
  }

  lemma SumNext(s: seq<Limb>, si: nat, t: seq<Limb>, ti: nat, i: nat)
    requires si + i < |s| && ti + i < |t|
    ensures var a: int, b: int := s[si + i], t[ti + i];
            && Grows(i, V(s, si, i) + V(t, ti, i), a + b, V(s, si, i + 1) + V(t, ti, i + 1))
            && Grows(i, V(s, si, i) - V(t, ti, i), a - b, V(s, si, i + 1) - V(t, ti, i + 1))
  {
    VTop(s, si, i);
    VTop(t, ti, i);
    Distribute(P(i), s[si + i], t[ti + i]);
  }

  lemma LimbNext(s: seq<Limb>, si: nat, i: nat, b: int)
    requires si + i < |s|
    ensures Grows(i, V(s, si, i) + b, s[si + i], V(s, si, i + 1) + b)
  {
    VTop(s, si, i);
  }

  /** mpn_add_n */
  method AddN(rp: array<Limb>, ri: nat, ap: array<Limb>, ai: nat, bp: array<Limb>, bi: nat, n: nat)
      returns (cy: Limb)
    requires ri + n <= rp.Length && ai + n <= ap.Length && bi + n <= bp.Length
    requires (rp == ap ==> ri <= ai) && (rp == bp ==> ri <= bi)
    modifies rp
    ensures Outside(old(rp[..]), rp[..], ri, n) && cy <= 1
    ensures V(rp[..], ri, n) + cy * P(n) == V(old(ap[..]), ai, n) + V(old(bp[..]), bi, n)
  {
    hide V, P, Computed, Grows;
    ghost var R, S, T := rp[..], ap[..], bp[..];
    cy := 0;
    StartScaled(S, ai, T, bi, 0);
    StartScaled(T, bi, S, ai, 0);
    Start(R, ri, cy, V(S, ai, 0) + V(T, bi, 0));
    for i := 0 to n
      invariant Outside(R, rp[..], ri, i) && cy <= 1
      invariant Computed(rp[..], ri, i, cy, V(S, ai, i) + V(T, bi, i))
    {
      var a, b := ap[ai + i], bp[bi + i];
      assert a == S[ai + i] && b == T[bi + i];
      var r, c := AddLimb(a, b, cy);
      SumNext(S, ai, T, bi, i);
      StoreNext(rp, ri, i, r, R, cy, V(S, ai, i) + V(T, bi, i), c, a as int + b as int,
                V(S, ai, i + 1) + V(T, bi, i + 1));
      cy := c;
    }
    Finish(rp[..], ri, n, cy, V(S, ai, n) + V(T, bi, n));
  }

  /** mpn_add_1 */
  method Add1(rp: array<Limb>, ri: nat, ap: array<Limb>, ai: nat, n: nat, b: Limb) returns (cy: Limb)
    requires n > 0 && ri + n <= rp.Length && ai + n <= ap.Length
    requires rp == ap ==> ri <= ai
    modifies rp
    ensures Outside(old(rp[..]), rp[..], ri, n)
    ensures V(rp[..], ri, n) + cy * P(n) == V(old(ap[..]), ai, n) + b
  {
    hide V, P, Computed, Grows;
    ghost var R, S := rp[..], ap[..];
    var i := 0;
    cy := b;
    StartScaled(R, ri, S, ai, 0);
    StartScaled(S, ai, S, ai, 0);
    Start(R, ri, cy, V(S, ai, 0) + b);
    while i < n
      invariant i <= n && Outside(R, rp[..], ri, i)
      invariant Computed(rp[..], ri, i, cy, V(S, ai, i) + b)
    {
      var a := ap[ai + i];
      assert a == S[ai + i];
      var r: Limb := Add(a, cy);
      var c: Limb := Flag(r < cy);
      LimbNext(S, ai, i, b);
      StoreNext(rp, ri, i, r, R, cy, V(S, ai, i) + b, c, a, V(S, ai, i + 1) + b);
      cy, i := c, i + 1;
    }
    Finish(rp[..], ri, n, cy, V(S, ai, n) + b);
  }

  /** One limb of mpn_sub_n. */
  method SubLimb(a: Limb, b: Limb, cy: Limb) returns (r: Limb, c: Limb)
    requires cy <= 1
    ensures a - b - cy == r - B * c && c <= 1
  {
    var b' := Add(b, cy);
    c := Flag(b' < cy);
    c := c + Flag(a < b');
    r := Sub(a, b');
  }

  /** mpn_sub_n */
  method SubN(rp: array<Limb>, ri: nat, ap: array<Limb>, ai: nat, bp: array<Limb>, bi: nat, n: nat)
      returns (cy: Limb)
    requires ri + n <= rp.Length && ai + n <= ap.Length && bi + n <= bp.Length
    requires (rp == ap ==> ri <= ai) && (rp == bp ==> ri <= bi)
    modifies rp
    ensures Outside(old(rp[..]), rp[..], ri, n) && cy <= 1
    ensures V(rp[..], ri, n) - cy * P(n) == V(old(ap[..]), ai, n) - V(old(bp[..]), bi, n)
  {
    hide V, P, Computed, Grows;
    ghost var R, S, T := rp[..], ap[..], bp[..];
    cy := 0;
    StartScaled(S, ai, T, bi, 0);
    StartScaled(T, bi, S, ai, 0);
    Start(R, ri, -(cy as int), V(S, ai, 0) - V(T, bi, 0));
    for i := 0 to n
      invariant Outside(R, rp[..], ri, i) && cy <= 1
      invariant Computed(rp[..], ri, i, -(cy as int), V(S, ai, i) - V(T, bi, i))
    {
      var a, b := ap[ai + i], bp[bi + i];
      assert a == S[ai + i] && b == T[bi + i];
      var r, c := SubLimb(a, b, cy);
      SumNext(S, ai, T, bi, i);
      StoreNext(rp, ri, i, r, R, -(cy as int), V(S, ai, i) - V(T, bi, i), -(c as int), a as int - b as int,
                V(S, ai, i + 1) - V(T, bi, i + 1));
      cy := c;
    }
    Finish(rp[..], ri, n, cy, V(S, ai, n) - V(T, bi, n));
  }

  /** mpn_sub_1 */
  method Sub1(rp: array<Limb>, ri: nat, ap: array<Limb>, ai: nat, n: nat, b: Limb) returns (cy: Limb)
    requires n > 0 && ri + n <= rp.Length && ai + n <= ap.Length
    requires rp == ap ==> ri <= ai
    modifies rp
    ensures Outside(old(rp[..]), rp[..], ri, n)
    ensures V(rp[..], ri, n) - cy * P(n) == V(old(ap[..]), ai, n) - b
  {
    hide V, P, Computed, Grows;
    ghost var R, S := rp[..], ap[..];
    var i := 0;
    cy := b;
    StartScaled(R, ri, S, ai, 0);
    StartScaled(S, ai, S, ai, 0);
    Start(R, ri, -(cy as int), V(S, ai, 0) - b);
    while i < n
      invariant i <= n && Outside(R, rp[..], ri, i)
      invariant Computed(rp[..], ri, i, -(cy as int), V(S, ai, i) - b)
    {
      var a := ap[ai + i];
      assert a == S[ai + i];
      var c: Limb := Flag(a < cy);
      var r: Limb := Sub(a, cy);
      LimbNext(S, ai, i, -(b as int));
      StoreNext(rp, ri, i, r, R, -(cy as int), V(S, ai, i) - b, -(c as int), a, V(S, ai, i + 1) - b);
      cy, i := c, i + 1;
    }
    Finish(rp[..], ri, n, cy, V(S, ai, n) - b);
  }

  // ------------------------------------------------------------------ multiplication by a limb

  /** One limb of mpn_mul_1. */
  method MulLimb(ul: Limb, vl: Limb, cl: Limb) returns (r: Limb, c: Limb)
    ensures ul * vl + cl == r + B * c
  {
    Product(ul, vl);
    var hpl, lpl := Umul(ul, vl);
    ghost var p := ul * vl;
    assert hpl * B + lpl + cl < B * B;
    r := Add(lpl, cl);
    c := Add(Flag(r < cl), hpl);
  }

  /** One limb of mpn_addmul_1. */
  ghost function LimbProduct(a: Limb, b: Limb): int {
    a * b
  }

  method AddMulLimb(rl: Limb, ul: Limb, vl: Limb, cl: Limb) returns (r: Limb, c: Limb)
    ensures rl + LimbProduct(ul, vl) + cl == r + B * c
  {
    Product(ul, vl);
    var lpl, h := MulLimb(ul, vl, cl);
    r := Add(rl, lpl);
    c := Add(h, Flag(r < rl));
  }

  /** One limb of mpn_submul_1. */
  method SubMulLimb(rl: Limb, ul: Limb, vl: Limb, cl: Limb) returns (r: Limb, c: Limb)
    ensures rl - LimbProduct(ul, vl) - cl == r - B * c
  {
    Product(ul, vl);
    var lpl, h := MulLimb(ul, vl, cl);
    r := Sub(rl, lpl);
    c := Add(h, Flag(r > rl));
  }

  lemma ScaleNext(s: seq<Limb>, si: nat, i: nat, v: int)
    requires si + i < |s|
    ensures Grows(i, Scaled(s, si, i, v), s[si + i] * v, Scaled(s, si, i + 1, v))
  {
    VTop(s, si, i);
    Nest(P(i), s[si + i], v);
  }

  /** Limbs of another vector, and the multiple of `s` added or subtracted. */
  lemma AddScaledNext(r: seq<Limb>, ri: nat, s: seq<Limb>, si: nat, i: nat, v: Limb)
    requires ri + i < |r| && si + i < |s|
    ensures Grows(i, V(r, ri, i) + Scaled(s, si, i, v), r[ri + i] + LimbProduct(s[si + i], v),
                  V(r, ri, i + 1) + Scaled(s, si, i + 1, v))
    ensures Grows(i, V(r, ri, i) - Scaled(s, si, i, v), r[ri + i] - LimbProduct(s[si + i], v),
                  V(r, ri, i + 1) - Scaled(s, si, i + 1, v))
  {
    ScaleNext(s, si, i, v);
    VTop(r, ri, i);
    Distribute(P(i), r[ri + i], s[si + i] * v);
  }

  lemma StartScaled(r: seq<Limb>, ri: nat, s: seq<Limb>, si: nat, v: int)
    requires ri <= |r| && si <= |s|
    ensures Scaled(s, si, 0, v) == 0 && V(r, ri, 0) == 0
  {
  }

  lemma WholeScaled(s: seq<Limb>, si: nat, n: nat, v: int)
    requires si + n <= |s|
    ensures Scaled(s, si, n, v) == V(s, si, n) * v
  {
  }

  /** mpn_mul_1 */
  method Mul1(rp: array<Limb>, ri: nat, up: array<Limb>, ui: nat, n: nat, vl: Limb) returns (cl: Limb)
    requires n > 0 && ri + n <= rp.Length && ui + n <= up.Length
    requires rp == up ==> ri <= ui
    modifies rp
    ensures Outside(old(rp[..]), rp[..], ri, n)
    ensures V(rp[..], ri, n) + cl * P(n) == V(old(up[..]), ui, n) * vl
  {
    hide V, P, Computed, Grows, Scaled;
    ghost var R, U := rp[..], up[..];
    var i := 0;
    cl := 0;
    StartScaled(R, ri, U, ui, vl);
    Start(R, ri, cl, Scaled(U, ui, 0, vl));
    while i < n
      invariant i <= n && Outside(R, rp[..], ri, i)
      invariant Computed(rp[..], ri, i, cl, Scaled(U, ui, i, vl))
    {
      var ul := up[ui + i];
      assert ul == U[ui + i];
      var r, c := MulLimb(ul, vl, cl);
      ScaleNext(U, ui, i, vl);
      StoreNext(rp, ri, i, r, R, cl, Scaled(U, ui, i, vl), c, ul * vl, Scaled(U, ui, i + 1, vl));
      cl, i := c, i + 1;
    }
    Finish(rp[..], ri, n, cl, Scaled(U, ui, n, vl));
    WholeScaled(U, ui, n, vl);
  }

  /** mpn_addmul_1 */
  method AddMul1(rp: array<Limb>, ri: nat, up: array<Limb>, ui: nat, n: nat, vl: Limb) returns (cl: Limb)
    requires n > 0 && ri + n <= rp.Length && ui + n <= up.Length
    requires rp == up ==> ri <= ui
    modifies rp
    ensures Outside(old(rp[..]), rp[..], ri, n)
    ensures V(rp[..], ri, n) + cl * P(n) == V(old(rp[..]), ri, n) + V(old(up[..]), ui, n) * vl
  {
    hide V, P, Computed, Grows, Scaled, LimbProduct;
    ghost var R, U := rp[..], up[..];
    var i := 0;
    cl := 0;
    StartScaled(R, ri, U, ui, vl);
    Start(R, ri, cl, V(R, ri, 0) + Scaled(U, ui, 0, vl));
    while i < n
      invariant i <= n && Outside(R, rp[..], ri, i)
      invariant Computed(rp[..], ri, i, cl, V(R, ri, i) + Scaled(U, ui, i, vl))
    {
      var ul, rl := up[ui + i], rp[ri + i];
      assert ul == U[ui + i] && rl == R[ri + i];
      var r, c := AddMulLimb(rl, ul, vl, cl);
      AddScaledNext(R, ri, U, ui, i, vl);
      StoreNext(rp, ri, i, r, R, cl, V(R, ri, i) + Scaled(U, ui, i, vl), c, rl as int + LimbProduct(ul, vl),
                V(R, ri, i + 1) + Scaled(U, ui, i + 1, vl));
      cl, i := c, i + 1;
    }
    Finish(rp[..], ri, n, cl, V(R, ri, n) + Scaled(U, ui, n, vl));
    WholeScaled(U, ui, n, vl);
  }

  /** mpn_submul_1 */
  method SubMul1(rp: array<Limb>, ri: nat, up: array<Limb>, ui: nat, n: nat, vl: Limb) returns (cl: Limb)
    requires n > 0 && ri + n <= rp.Length && ui + n <= up.Length
    requires rp == up ==> ri <= ui
    modifies rp
    ensures Outside(old(rp[..]), rp[..], ri, n)
    ensures V(rp[..], ri, n) - cl * P(n) == V(old(rp[..]), ri, n) - V(old(up[..]), ui, n) * vl
  {
    hide V, P, Computed, Grows, Scaled, LimbProduct;
    ghost var R, U := rp[..], up[..];
    var i := 0;
    cl := 0;
    StartScaled(R, ri, U, ui, vl);
    Start(R, ri, -(cl as int), V(R, ri, 0) - Scaled(U, ui, 0, vl));
    while i < n
      invariant i <= n && Outside(R, rp[..], ri, i)
      invariant Computed(rp[..], ri, i, -(cl as int), V(R, ri, i) - Scaled(U, ui, i, vl))
    {
      var ul, rl := up[ui + i], rp[ri + i];
      assert ul == U[ui + i] && rl == R[ri + i];
      var r, c := SubMulLimb(rl, ul, vl, cl);
      AddScaledNext(R, ri, U, ui, i, vl);
      StoreNext(rp, ri, i, r, R, -(cl as int), V(R, ri, i) - Scaled(U, ui, i, vl), -(c as int),
                rl as int - LimbProduct(ul, vl),
                V(R, ri, i + 1) - Scaled(U, ui, i + 1, vl));
      cl, i := c, i + 1;
    }
    Finish(rp[..], ri, n, cl, V(R, ri, n) - Scaled(U, ui, n, vl));
    WholeScaled(U, ui, n, vl);
  }

  // ------------------------------------------------------------------ product of vectors

  /** The limbs at `ri` are the product of the two numbers. */
  ghost predicate Multiplied(r: seq<Limb>, ri: nat, n: nat, u: int, w: int) {
    ri + n <= |r| && V(r, ri, n) == u * w
  }

  lemma ProductNext(r: seq<Limb>, t: seq<Limb>, ri: nat, un: nat, j: nat, u: int, w: int, v: Limb, cl: Limb, w': int)
    requires ri + un + j < |r| && Outside(r, t, ri + j, un + 1) && t[ri + j + un] == cl
    requires Multiplied(r, ri, un + j, u, w) && Grows(j, w, v, w')
    requires V(t, ri + j, un) + cl * P(un) == V(r, ri + j, un) + u * v
    ensures Multiplied(t, ri, un + (j + 1), u, w')
  {
    hide V, P;
    VSplit(r, ri, j, un);
    VSplit(t, ri, j, un + 1);
    VTop(t, ri + j, un);
    VKeep(r, t, ri, j);
    assert j + un == un + j && j + (un + 1) == un + (j + 1);
    ProductNumbers(P(j), P(un), V(r, ri, j), V(r, ri + j, un), V(t, ri + j, un), V(t, ri + j, un + 1), cl, u, w, v, w');
  }

  lemma ProductNumbers(p: int, q: int, low: int, high: int, high': int, top: int, cl: int, u: int, w: int, v: int,
                       w': int)
    requires low + p * high == u * w && w' == w + p * v && top == high' + q * cl && high' + cl * q == high + u * v
    ensures low + p * top == u * w'
  {
    Commute(cl, q);
    ProductTerms(p, high, u, w, v);
  }

  lemma ProductTerms(p: int, high: int, u: int, w: int, v: int)
    ensures p * (high + u * v) == p * high + u * (w + p * v) - u * w
  {
    Distribute(p, high, u * v);
    Distribute(u, w, p * v);
    Nest(u, p, v);
    Nest(p, u, v);
    Commute(p, u);
  }

  lemma ProductIs(r: seq<Limb>, ri: nat, n: nat, u: int, w: int)
    requires ri + n <= |r|
    ensures Multiplied(r, ri, n, u, w) <==> V(r, ri, n) == u * w
  {
  }

  /** One round of mpn_mul: another multiple of `up`, one limb further up. */
  method MulNext(rp: array<Limb>, ri: nat, up: array<Limb>, ui: nat, un: nat, v: Limb, j: nat, ghost w: int,
                 ghost w': int)
    requires un >= 1 && ri + un + j < rp.Length && ui + un <= up.Length && rp != up
    requires Multiplied(rp[..], ri, un + j, V(up[..], ui, un), w) && Grows(j, w, v, w')
    modifies rp
    ensures Outside(old(rp[..]), rp[..], ri, un + (j + 1))
    ensures Multiplied(rp[..], ri, un + (j + 1), V(up[..], ui, un), w')
  {
    hide V, P, Multiplied, Grows;
    ghost var r, U := rp[..], up[..];
    var cl := AddMul1(rp, ri + j, up, ui, un, v);
    ghost var t := rp[..];
    rp[ri + j + un] := cl;
    assert up[..] == U;
    VKeep(t, rp[..], ri + j, un);
    ProductNext(r, rp[..], ri, un, j, V(U, ui, un), w, v, cl, w');
  }

  /** mpn_mul */
  method MulVectors(rp: array<Limb>, ri: nat, up: array<Limb>, ui: nat, un: nat, vp: array<Limb>, vi: nat, vn: nat)
      returns (high: Limb)
    requires un >= vn >= 1
    requires ri + un + vn <= rp.Length && ui + un <= up.Length && vi + vn <= vp.Length && rp != up && rp != vp
    modifies rp
    ensures Outside(old(rp[..]), rp[..], ri, un + vn)
    ensures V(rp[..], ri, un + vn) == V(up[..], ui, un) * V(vp[..], vi, vn)
    ensures high == rp[ri + un + vn - 1]
  {
    hide V, P, Multiplied, Grows;
    ghost var R, U, W := rp[..], up[..], vp[..];
    var cl := Mul1(rp, ri, up, ui, un, vp[vi]);
    ghost var t := rp[..];
    rp[ri + un] := cl;
    assert rp[..] == t[ri + un := cl];
    Stored(t, rp[..], ri, un, cl);
    FirstLimb(W, vi);
    Commute(cl, P(un));
    ProductIs(rp[..], ri, un + 1, V(U, ui, un), V(W, vi, 1));
    var j := 1;
    while j < vn
      invariant 1 <= j <= vn && Outside(R, rp[..], ri, un + j)
      invariant Multiplied(rp[..], ri, un + j, V(U, ui, un), V(W, vi, j))
    {
      assert up[..] == U && vp[vi + j] == W[vi + j];
      LimbNext(W, vi, j, 0);
      MulNext(rp, ri, up, ui, un, vp[vi + j], j, V(W, vi, j), V(W, vi, j + 1));
      j := j + 1;
    }
    assert up[..] == U && vp[..] == W;
    ProductIs(rp[..], ri, un + vn, V(U, ui, un), V(W, vi, vn));
    high := rp[ri + un + vn - 1];
  }

  lemma FirstLimb(s: seq<Limb>, i: nat)
    requires i < |s|
    ensures V(s, i, 1) == s[i]
  {
  }

  // ------------------------------------------------------------------ comparison

  lemma HighLimbDecides(s: seq<Limb>, i: nat, t: seq<Limb>, j: nat, k: nat, n: nat)
    requires i + n <= |s| && j + n <= |t| && k < n
    requires V(s, i + k + 1, n - k - 1) == V(t, j + k + 1, n - k - 1)
    ensures s[i + k] < t[j + k] ==> V(s, i, n) < V(t, j, n)
    ensures s[i + k] == t[j + k] ==> V(s, i + k, n - k) == V(t, j + k, n - k)
  {
    hide V, P;
    VSplit(s, i, k, n - k);
    VSplit(t, j, k, n - k);
    VBound(s, i, k);
    var w: int := V(s, i + k + 1, n - k - 1);
    VFirst(s, i + k, n - k);
    VFirst(t, j + k, n - k);
    if s[i + k] < t[j + k] { Lexicographic(V(s, i, k), V(t, j, k), P(k), s[i + k] + B * w, t[j + k] + B * w); }
  }

  /** mpn_cmp */
  method Cmp(ap: array<Limb>, ai: nat, bp: array<Limb>, bi: nat, n: nat) returns (c: int)
    requires ai + n <= ap.Length && bi + n <= bp.Length
    ensures -1 <= c <= 1
    ensures c < 0 <==> V(ap[..], ai, n) < V(bp[..], bi, n)
    ensures c > 0 <==> V(ap[..], ai, n) > V(bp[..], bi, n)
  {
    var k: nat := n;
    while k > 0
      invariant k <= n
      invariant V(ap[..], ai + k, n - k) == V(bp[..], bi + k, n - k)
    {
      k := k - 1;
      hide V;
      assert V(ap[..], ai + k + 1, n - k - 1) == V(bp[..], bi + k + 1, n - k - 1);
      HighLimbDecides(ap[..], ai, bp[..], bi, k, n);
      HighLimbDecides(bp[..], bi, ap[..], ai, k, n);
      if ap[ai + k] != bp[bi + k] {
        return if ap[ai + k] > bp[bi + k] then 1 else -1;
      }
    }
    c := 0;
  }

  /** No leading zero limb. */
  ghost predicate Normalized(s: seq<Limb>, i: nat, n: nat)
    requires i + n <= |s|
  {
    n > 0 ==> s[i + n - 1] != 0
  }

  /** mpn_normalized_size */
  method NormalizedSize(xp: array<Limb>, xi: nat, n: nat) returns (m: nat)
    requires xi + n <= xp.Length
    ensures m <= n && Normalized(xp[..], xi, m) && V(xp[..], xi, m) == V(xp[..], xi, n)
    ensures forall j :: xi + m <= j < xi + n ==> xp[j] == 0
  {
    m := n;
    while m > 0 && xp[xi + m - 1] == 0
      invariant m <= n && V(xp[..], xi, m) == V(xp[..], xi, n)
      invariant forall j :: xi + m <= j < xi + n ==> xp[j] == 0
    {
      VTop(xp[..], xi, m - 1);
      m := m - 1;
    }
  }

  /** The size of a normalized vector bounds its value on both sides. */
  lemma NormalizedBounds(s: seq<Limb>, i: nat, n: nat)
    requires i + n <= |s| && Normalized(s, i, n)
    ensures V(s, i, n) < P(n) && (n > 0 ==> P(n - 1) <= V(s, i, n)) && (V(s, i, n) == 0 <==> n == 0)
  {
    assert n == 0 ==> V(s, i, n) == 0;
    hide V, P;
    VBound(s, i, n);
    if n > 0 {
      VTop(s, i, n - 1);
      var x: int := s[i + n - 1];
      AtLeastOnce(P(n - 1), x);
    }
  }

  /** A vector that is large enough has no leading zero limb. */
  lemma TopNotZero(s: seq<Limb>, n: nat)
    requires n <= |s| && (n > 0 ==> P(n - 1) <= V(s, 0, n))
    ensures Normalized(s, 0, n)
  {
    hide V, P;
    if n > 0 && s[n - 1] == 0 {
      VTop(s, 0, n - 1);
      VBound(s, 0, n - 1);
    }
  }

  lemma {:induction false} PGrows(m: nat, n: nat)
    requires m <= n
    ensures P(m) <= P(n)
  {
    if m < n { PGrows(m, n - 1); }
  }

  /** Normalized vectors of different size compare as their sizes do. */
  lemma SizeDecides(s: seq<Limb>, i: nat, m: nat, t: seq<Limb>, j: nat, n: nat)
    requires i + m <= |s| && j + n <= |t| && Normalized(t, j, n) && m < n
    ensures V(s, i, m) < V(t, j, n)
  {
    VBound(s, i, m);
    NormalizedBounds(t, j, n);
    PGrows(m, n - 1);
  }

  /** A number has only one representation as a normalized vector. */
  lemma {:induction false} NormalizedUnique(s: seq<Limb>, i: nat, m: nat, t: seq<Limb>, j: nat, n: nat)
    requires i + m <= |s| && j + n <= |t| && Normalized(s, i, m) && Normalized(t, j, n)
    requires V(s, i, m) == V(t, j, n)
    ensures m == n && s[i..i + m] == t[j..j + n]
    decreases m
  {
    hide V, Normalized;
    if m < n {
      SizeDecides(s, i, m, t, j, n);
    } else if n < m {
      SizeDecides(t, j, n, s, i, m);
    } else if m > 0 {
      SameFirstLimb(s, i, m, t, j);
      NormalizedUnique(s, i + 1, m - 1, t, j + 1, n - 1);
      assert s[i..i + m] == [s[i]] + s[i + 1..i + 1 + (m - 1)] && t[j..j + n] == [t[j]] + t[j + 1..j + 1 + (n - 1)];
    }
  }

  lemma SameFirstLimb(s: seq<Limb>, i: nat, m: nat, t: seq<Limb>, j: nat)
    requires m > 0 && i + m <= |s| && j + m <= |t| && V(s, i, m) == V(t, j, m) && Normalized(s, i, m)
             && Normalized(t, j, m)
    ensures s[i] == t[j] && V(s, i + 1, m - 1) == V(t, j + 1, m - 1)
    ensures Normalized(s, i + 1, m - 1) && Normalized(t, j + 1, m - 1)
  {
    hide V;
    VFirst(s, i, m);
    VFirst(t, j, m);
    var v, w := V(s, i + 1, m - 1), V(t, j + 1, m - 1);
    DivUnique(V(s, i, m), v, s[i], B);
    DivUnique(V(s, i, m), w, t[j], B);
  }

  // ------------------------------------------------------------------ vectors of different length

  /** mpn_copyi */
  method CopyI(rp: array<Limb>, ri: nat, up: array<Limb>, ui: nat, n: nat)
    requires ri + n <= rp.Length && ui + n <= up.Length && (rp == up ==> ri <= ui)
    modifies rp
    ensures Outside(old(rp[..]), rp[..], ri, n) && rp[ri..ri + n] == old(up[ui..ui + n])
  {
    ghost var R, U := rp[..], up[..];
    for i := 0 to n
      invariant Outside(R, rp[..], ri, i) && rp[ri..ri + i] == U[ui..ui + i]
    {
      assert up[ui + i] == U[ui + i];
      ghost var t := rp[ri..ri + i];
      rp[ri + i] := up[ui + i];
      assert rp[ri..ri + i] == t && rp[ri..ri + (i + 1)] == t + [U[ui + i]];
    }
  }

  /** mpn_add */
  method AddLong(rp: array<Limb>, ap: array<Limb>, an: nat, bp: array<Limb>, bn: nat) returns (cy: Limb)
    requires bn <= an <= rp.Length && an <= ap.Length && bn <= bp.Length
    modifies rp
    ensures Outside(old(rp[..]), rp[..], 0, an) && cy <= 1
    ensures V(rp[..], 0, an) + cy * P(an) == V(old(ap[..]), 0, an) + V(old(bp[..]), 0, bn)
  {
    ghost var S, T := ap[..], bp[..];
    hide V, P;
    cy := AddN(rp, 0, ap, 0, bp, 0, bn);
    if an > bn {
      ghost var R, c := rp[..], cy;
      VKeep(S, ap[..], bn, an - bn);
      cy := Add1(rp, bn, ap, bn, an - bn, cy);
      LongSum(R, rp[..], S, an, bn, V(T, 0, bn), c, cy);
      CarryIsFlag(rp[..], bn, S, an - bn, c, cy);
    }
  }

  /** Low and high part joined; carries are negative for a subtraction. */
  lemma LongSum(r: seq<Limb>, r': seq<Limb>, s: seq<Limb>, an: nat, bn: nat, v: int, c: int, cy: int)
    requires bn < an <= |s| && Outside(r, r', bn, an - bn) && an <= |r|
    requires V(r, 0, bn) + c * P(bn) == V(s, 0, bn) + v
    requires V(r', bn, an - bn) + cy * P(an - bn) == V(s, bn, an - bn) + c
    ensures V(r', 0, an) + cy * P(an) == V(s, 0, an) + v
  {
    hide V, P;
    VKeep(r, r', 0, bn);
    VSplit(s, 0, bn, an - bn);
    VSplit(r', 0, bn, an - bn);
    PAdd(bn, an - bn);
  }

  lemma CarryIsFlag(r: seq<Limb>, i: nat, s: seq<Limb>, n: nat, c: Limb, cy: int)
    requires i + n <= |r| && i + n <= |s| && c <= 1
    requires V(r, i, n) + cy * P(n) == V(s, i, n) + c
    ensures cy <= 1
  {
    VBound(s, i, n);
    if cy >= 2 { MulLe(2, cy, P(n)); }
  }

  /** mpn_sub */
  method SubLong(rp: array<Limb>, ap: array<Limb>, an: nat, bp: array<Limb>, bn: nat) returns (cy: Limb)
    requires bn <= an <= rp.Length && an <= ap.Length && bn <= bp.Length
    modifies rp
    ensures Outside(old(rp[..]), rp[..], 0, an)
    ensures V(rp[..], 0, an) - cy * P(an) == V(old(ap[..]), 0, an) - V(old(bp[..]), 0, bn)
  {
    ghost var S, T := ap[..], bp[..];
    hide V, P;
    cy := SubN(rp, 0, ap, 0, bp, 0, bn);
    if an > bn {
      ghost var R, c := rp[..], cy;
      VKeep(S, ap[..], bn, an - bn);
      cy := Sub1(rp, bn, ap, bn, an - bn, cy);
      Borrowed(c, P(bn));
      Borrowed(cy, P(an - bn));
      LongSum(R, rp[..], S, an, bn, -(V(T, 0, bn) as int), -(c as int), -(cy as int));
      Borrowed(cy, P(an));
    }
  }
}
