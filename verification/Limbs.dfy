/** Limbs of 64 bits and their wrap-around arithmetic, and what vectors of limbs stand for
    (src/mini-gmp.c). */
module Limbs {
  import opened Numbers
  import opened Bits

  /** 2^64 and 2^32 */
  const B: nat := 0x1_0000_0000_0000_0000
  const H: nat := 0x1_0000_0000
  const HIGH_BIT: nat := 0x8000_0000_0000_0000

  type Limb = x: int | 0 <= x < B witness 0

  // ------------------------------------------------------------------ operators on mp_limb_t

  function Add(a: Limb, b: Limb): (r: Limb)
    ensures r == if a + b < B then a + b else a + b - B
  {
    (a + b) % B
  }

  function Sub(a: Limb, b: Limb): (r: Limb)
    ensures r == if a < b then a - b + B else a - b
  {
    (a - b) % B
  }

  function Mul(a: Limb, b: Limb): (r: Limb)
  {
    (a * b) % B
  }

  /** The complement. */
  function Not(a: Limb): Limb {
    B - 1 - a
  }

  /** The half limbs, and the shift by half a limb. */
  function Hi(a: Limb): (r: Limb)
    ensures r < H && a == H * r + Lo(a)
  {
    a / H
  }

  function Lo(a: Limb): (r: Limb)
    ensures r < H
  {
    a % H
  }

  function Up(a: Limb): (r: Limb)
    ensures r == H * Lo(a)
  {
    (a * H) % B
  }

  function HalfMul(a: Limb, b: Limb): (r: Limb)
    requires a < H && b < H
    ensures r == a * b <= (H - 1) * (H - 1)
  {
    HalfProduct(a, b);
    (a * b) % B
  }

  /** The value of a comparison. */
  function Flag(c: bool): (r: Limb)
    ensures r <= 1
  {
    if c then 1 else 0
  }

  /** `-(mp_limb_t) c`: all ones or zero. */
  function MaskOf(c: bool): (m: Limb)
    ensures m == if c then B - 1 else 0
  {
    Sub(0, Flag(c))
  }

  lemma HalfProduct(x: nat, y: nat)
    requires x < H && y < H
    ensures 0 <= x * y <= (H - 1) * (H - 1)
  {
    MulLe(x, H - 1, y);
    MulLe(y, H - 1, H - 1);
    MulLe(0, x, y);
  }

  lemma Product(x: Limb, y: Limb)
    ensures 0 <= x * y <= (B - 1) * (B - 1)
  {
    MulLe(x, B - 1, y);
    MulLe(y, B - 1, B - 1);
    MulLe(0, x, y);
  }

  lemma Square(n: nat, v: nat)
    requires Pow2(n) == v
    ensures Pow2(n + n) == v * v
  {
    hide Pow2;
    Pow2Add(n, n);
  }

  lemma Doubled(n: nat)
    ensures Pow2(n + 1) == 2 * Pow2(n)
  {
  }

  lemma WordSizes()
    ensures Pow2(64) == B && Pow2(32) == H && Pow2(63) == HIGH_BIT && Pow2(8) == 256
  {
    assert Pow2(8) == 256;
    hide Pow2;
    Square(8, 256);
    Square(16, 65536);
    Square(32, H);
    Doubled(63);
  }

  lemma WordParts(n: nat)
    requires n <= 64
    ensures Pow2(n) * Pow2(64 - n) == B
  {
    hide Pow2;
    WordSizes();
    Pow2Add(n, 64 - n);
  }

  // ------------------------------------------------------------------ double limbs

  /** gmp_umul_ppmm: the product of two limbs as two limbs. */
  method Umul(u: Limb, v: Limb) returns (w1: Limb, w0: Limb)
    ensures w1 * B + w0 == u * v
  {
    hide Hi, Lo, HalfMul;
    var ul, uh, vl, vh := Lo(u), Hi(u), Lo(v), Hi(v);
    var x0, x1, x2, x3 := HalfMul(ul, vl), HalfMul(ul, vh), HalfMul(uh, vl), HalfMul(uh, vh);
    Product(u, v);
    w1, w0 := UmulJoin(x0, x1, x2, x3);
  }

  /** The second half of gmp_umul_ppmm, on the four half products. */
  method UmulJoin(x0: Limb, x1: Limb, x2: Limb, x3: Limb) returns (w1: Limb, w0: Limb)
    requires x0 <= (H - 1) * (H - 1) && x1 <= (H - 1) * (H - 1)
    requires x0 + H * x1 + H * x2 + B * x3 < B * B
    ensures w1 * B + w0 == x0 + H * x1 + H * x2 + B * x3
  {
    hide Add, Hi, Lo, Up;
    var y1 := Add(x1, Hi(x0));
    var z1 := Add(y1, x2);
    var z3 := x3;
    ghost var carry, part := if z1 < x2 then B else 0, if z1 < x2 then H else 0;
    assert x1 + Hi(x0) + x2 == z1 + carry;
    assert x0 + H * x1 + H * x2 + B * x3 == Lo(x0) + H * Lo(z1) + B * (x3 + part + Hi(z1));
    if z1 < x2 {
      z3 := Add(z3, H);
    }
    w1 := Add(z3, Hi(z1));
    w0 := Add(Up(z1), Lo(x0));
  }

  /** gmp_add_ssaaaa: addition of double limbs, modulo B^2. */
  method AddTwo(ah: Limb, al: Limb, bh: Limb, bl: Limb) returns (sh: Limb, sl: Limb)
    ensures var s := ah * B + al + bh * B + bl;
            sh * B + sl == if s < B * B then s else s - B * B
  {
    var x := Add(al, bl);
    sh := Add(Add(ah, bh), Flag(x < al));
    sl := x;
  }

  /** gmp_sub_ddmmss: subtraction of double limbs, modulo B^2. */
  method SubTwo(ah: Limb, al: Limb, bh: Limb, bl: Limb) returns (sh: Limb, sl: Limb)
    ensures var s := ah * B + al - bh * B - bl;
            sh * B + sl == if s < 0 then s + B * B else s
  {
    var x := Sub(al, bl);
    sh := Sub(Sub(ah, bh), Flag(al < bl));
    sl := x;
  }

  // ------------------------------------------------------------------ vectors

  /** B^n */
  function P(n: nat): (p: nat)
    ensures p > 0
  {
    if n == 0 then 1 else B * P(n - 1)
  }

  /** The value of the `n` limbs of `s` from position `i` on, least significant first. */
  function V(s: seq<Limb>, i: nat, n: nat): nat
    requires i + n <= |s|
    decreases n
  {
    if n == 0 then 0 else s[i] + B * V(s, i + 1, n - 1)
  }

  lemma PStep(n: nat)
    requires n > 0
    ensures P(n) == B * P(n - 1)
  {
  }

  lemma VFirst(s: seq<Limb>, i: nat, n: nat)
    requires 0 < n && i + n <= |s|
    ensures V(s, i, n) == s[i] + B * V(s, i + 1, n - 1)
  {
  }

  lemma {:induction false} PAdd(m: nat, n: nat)
    ensures P(m + n) == P(m) * P(n)
  {
    if m > 0 { PAdd(m - 1, n); }
  }

  lemma {:induction false} VBound(s: seq<Limb>, i: nat, n: nat)
    requires i + n <= |s|
    ensures V(s, i, n) < P(n)
    decreases n
  {
    if n > 0 { VBound(s, i + 1, n - 1); }
  }

  lemma {:induction false} VKeep(s: seq<Limb>, t: seq<Limb>, i: nat, n: nat)
    requires i + n <= |s| && i + n <= |t| && forall k :: i <= k < i + n ==> s[k] == t[k]
    ensures V(s, i, n) == V(t, i, n)
    decreases n
  {
    if n > 0 { VKeep(s, t, i + 1, n - 1); }
  }

  lemma {:induction false} VCopy(s: seq<Limb>, t: seq<Limb>, i: nat, j: nat, n: nat)
    requires i + n <= |s| && j + n <= |t| && s[i..i + n] == t[j..j + n]
    ensures V(s, i, n) == V(t, j, n)
    decreases n
  {
    if n > 0 {
      var u, v := s[i..i + n], t[j..j + n];
      assert u[0] == s[i] && v[0] == t[j];
      assert u[1..] == s[i + 1..i + n] && v[1..] == t[j + 1..j + n];
      VCopy(s, t, i + 1, j + 1, n - 1);
    }
  }

  /** A vector is a low part and a high part. */
  lemma {:induction false} VSplit(s: seq<Limb>, i: nat, m: nat, n: nat)
    requires i + m + n <= |s|
    ensures V(s, i, m + n) == V(s, i, m) + P(m) * V(s, i + m, n)
    decreases m
  {
    if m > 0 {
      VSplit(s, i + 1, m - 1, n);
      Nest(B, P(m - 1), V(s, i + m, n));
    }
  }

  lemma VTop(s: seq<Limb>, i: nat, n: nat)
    requires i + n + 1 <= |s|
    ensures V(s, i, n + 1) == V(s, i, n) + P(n) * s[i + n]
  {
    VSplit(s, i, n, 1);
    assert V(s, i + n, 1) == s[i + n];
  }

  /** The next limb of a result has been stored. */
  lemma Stored(s: seq<Limb>, t: seq<Limb>, i: nat, n: nat, r: Limb)
    requires i + n + 1 <= |s| && t == s[i + n := r]
    ensures V(t, i, n + 1) == V(s, i, n) + P(n) * r
  {
    VKeep(s, t, i, n);
    VTop(t, i, n);
  }

  /** One step of a carry chain. */
  lemma Carry(p: int, x: int, y: int, cy: int, r: int, a: int, cy': int)
    requires x + cy * p == y && a + cy == r + B * cy'
    ensures (x + p * r) + cy' * (B * p) == y + p * a
  {
    assert p * (a + cy) == p * (r + B * cy');
    assert p * (B * cy') == cy' * (B * p);
  }
}
