/** Conversion between limbs and digits in a base that is a power of two (mpn_get_str_bits and
    mpn_set_str_bits in src/mini-gmp.c). A digit may lie across two limbs. */
module StrBits {
  import opened Numbers
  import opened Bits
  import opened Limbs
  import opened Mpn
  import opened MpnShift
  import opened Digits

  lemma {:induction false} PowerOfPow2(bits: nat, n: nat)
    ensures Power(Pow2(bits), n) == Pow2(bits * n)
  {
    if n == 0 {
      assert bits * n == 0;
    } else {
      PowerOfPow2(bits, n - 1);
      PowerNext(Pow2(bits), n - 1);
      hide Pow2, Power;
      Distribute(bits, n - 1, 1);
      Pow2Add(bits, bits * (n - 1));
    }
  }

  lemma PowerNext(b: nat, n: nat)
    requires b > 0
    ensures Power(b, n + 1) == b * Power(b, n)
  {
  }

  lemma {:induction false} PIsPow2(n: nat)
    ensures P(n) == Pow2(64 * n)
  {
    if n > 0 {
      PIsPow2(n - 1);
      hide Pow2;
      WordSizes();
      Pow2Add(64, 64 * (n - 1));
    }
  }

  // ------------------------------------------------------------------ one digit out of the limbs

  /** What is left of the number when `shift` bits of limb `i` and all below have been used. */
  ghost function Left(s: seq<Limb>, n: nat, i: nat, shift: nat): nat
    requires i <= n <= |s|
  {
    Euclid(V(s, i, n - i), Pow2(shift));
    V(s, i, n - i) / Pow2(shift)
  }

  lemma LeftParts(s: seq<Limb>, n: nat, i: nat, shift: nat)
    requires i < n <= |s| && shift <= 64
    ensures Left(s, n, i, shift) == ShiftRight(s[i], shift) + Pow2(64 - shift) * V(s, i + 1, n - i - 1)
    ensures ShiftRight(s[i], shift) < Pow2(64 - shift)
  {
    hide V, Pow2;
    var u: Limb, w := s[i], V(s, i + 1, n - i - 1);
    VFirst(s, i, n - i);
    WordParts(64 - shift);
    RightShift(u, shift);
    PartsNumbers(u, w, Pow2(shift), Pow2(64 - shift));
  }

  lemma RightShift(u: Limb, shift: nat)
    requires shift <= 64
    ensures ShiftRight(u, shift) == u / Pow2(shift) < Pow2(64 - shift)
  {
    ShiftLimb(u, 64 - shift);
  }

  lemma PartsNumbers(u: nat, w: nat, c: nat, t: nat)
    requires c > 0 && t * c == B
    ensures (u + B * w) / c == u / c + t * w
  {
    Nest(t, w, c);
    ModMultiple(u, t * w, c);
  }

  /** The next digit when it lies in one limb, or in the highest limb. */
  lemma DigitWithin(a: nat, m: nat, w: nat, bits: nat)
    requires a < Pow2(m) && bits <= 8 && (m > bits || w == 0)
    ensures var x := a + Pow2(m) * w; x >= 0 && (a % 256) % Pow2(bits) == x % Pow2(bits)
  {
    hide Pow2;
    LowByte(a, bits);
    if m > bits {
      Pow2Add(bits, m - bits);
      var d, e := Pow2(bits), Pow2(m - bits);
      Nest(e, w, d);
      MulLe(0, e, w);
      ModMultiple(a, e * w, d);
      MulLe(0, Pow2(m), w);
      assert Pow2(m) * w == (e * w) * d by { Nest(d, e, w); }
    }
  }

  lemma LowByte(a: nat, bits: nat)
    requires bits <= 8
    ensures (a % 256) % Pow2(bits) == a % Pow2(bits)
  {
    hide Pow2;
    WordSizes();
    Pow2Add(bits, 8 - bits);
    ModMod(a, Pow2(bits), Pow2(8 - bits));
  }

  /** The next digit when its upper bits are in the next limb. */
  lemma DigitAcross(a: nat, m: nat, u: Limb, w: nat, bits: nat)
    requires m <= bits <= 8 && a < Pow2(m)
    ensures var d := Bitwise(Or, a % 256, ShiftLeft(u, m) % 256); var x := a + Pow2(m) * (u + B * w);
            0 <= d < 512 && x >= 0 && d % Pow2(bits) == x % Pow2(bits) && x / Pow2(m) == u + B * w
  {
    hide Pow2, Bitwise, ShiftLeft;
    AcrossByte(a, m, u);
    MulLe(0, u, Pow2(m));
    LowByte(a + (u * Pow2(m)) % 256, bits);
    ModSum(a, u * Pow2(m), bits);
    WordParts(bits);
    AcrossNumbers(a, Pow2(m), u, w, Pow2(bits), Pow2(64 - bits), u * Pow2(m));
  }

  /** Bits of the next limb come in above. */
  lemma AcrossByte(a: nat, m: nat, u: Limb)
    requires m <= 8 && a < Pow2(m)
    ensures Bitwise(Or, a % 256, ShiftLeft(u, m) % 256) == a + (u * Pow2(m)) % 256 && a < 256
  {
    hide Pow2, Bitwise, ShiftLeft, ShiftRight;
    WordSizes();
    Pow2Grows(m, 8);
    Pow2Add(m, 8 - m);
    ShiftLimb(u, m);
    ShiftedByte(u * Pow2(m), ShiftLeft(u, m), ShiftRight(u, 64 - m));
    ByteIsMultiple(u, Pow2(m), Pow2(8 - m));
    Euclid(u, Pow2(8 - m));
    OrLow(u % Pow2(8 - m), a, m);
  }

  lemma ModSum(a: nat, z: nat, bits: nat)
    requires bits <= 8
    ensures (a + z % 256) % Pow2(bits) == (a + z) % Pow2(bits)
  {
    hide Pow2;
    WordSizes();
    Pow2Add(bits, 8 - bits);
    Nest(z / 256, Pow2(8 - bits), Pow2(bits));
    ModMultiple(a + z % 256, (z / 256) * Pow2(8 - bits), Pow2(bits));
  }

  lemma ShiftedByte(z: int, low: Limb, high: int)
    requires z == high * B + low
    ensures low % 256 == z % 256
  {
    ModMultiple(low, high * 0x100_0000_0000_0000, 256);
  }

  lemma ByteIsMultiple(u: nat, p: nat, q: nat)
    requires p > 0 && q > 0 && p * q == 256
    ensures (u * p) % 256 == (u % q) * p
  {
    Euclid(u, q);
    var k, r := u / q, u % q;
    Sum(k * q, r, p);
    Nest(k, q, p);
    MulLe(r, q - 1, p);
    Diff(q, 1, p);
    MulLe(0, r, p);
    DivUnique(u * p, k, r * p, 256);
  }

  lemma AcrossNumbers(a: nat, p: nat, u: Limb, w: nat, d: nat, e: nat, z: nat)
    requires p > 0 && a < p && d > 0 && d * e == B && z == u * p
    ensures var x := a + p * (u + B * w); x >= 0 && x / p == u + B * w && x % d == (a + z) % d
  {
    AcrossMultiple(p, w, d, e);
    AcrossSum(a, p, u, w, z);
    ModMultiple(a + z, e * (w * p), d);
    DivUnique(a + p * (u + B * w), u + B * w, a, p);
  }

  lemma AcrossMultiple(p: int, w: int, d: int, e: int)
    requires d * e == B
    ensures p * (B * w) == (e * (w * p)) * d
  {
    Nest(e, w * p, d);
    Nest(d, e, w * p);
    Nest(w, p, B);
    Commute(d, e * (w * p));
    Commute(B, w);
    Commute(p, B * w);
    Commute(w * p, B);
    Nest(w, B, p);
    Nest(B, w, p);
  }

  lemma AcrossSum(a: nat, p: nat, u: Limb, w: nat, z: nat)
    requires z == u * p
    ensures a + p * (u + B * w) == (a + z) + p * (B * w) >= 0
    ensures a + p * (u + B * w) == (u + B * w) * p + a
  {
    Distribute(p, u, B * w);
    Commute(p, u);
    Commute(p, u + B * w);
    MulLe(0, u + B * w, p);
  }

  lemma StepWithin(s: seq<Limb>, n: nat, i: nat, shift: nat, bits: nat)
    requires i < n <= |s| && shift + bits < 64 && bits <= 8
    ensures (ShiftRight(s[i], shift) % 256) % Pow2(bits) == Left(s, n, i, shift) % Pow2(bits)
    ensures Left(s, n, i, shift) / Pow2(bits) == Left(s, n, i, shift + bits)
  {
    hide V, Pow2, Left, ShiftRight;
    LeftParts(s, n, i, shift);
    DigitWithin(ShiftRight(s[i], shift), 64 - shift, V(s, i + 1, n - i - 1), bits);
    LeftFurther(s, n, i, shift, bits);
  }

  lemma LeftFurther(s: seq<Limb>, n: nat, i: nat, shift: nat, bits: nat)
    requires i <= n <= |s|
    ensures Left(s, n, i, shift) / Pow2(bits) == Left(s, n, i, shift + bits)
  {
    hide V, Pow2;
    FurtherDown(V(s, i, n - i), shift, bits);
  }

  lemma StepTop(s: seq<Limb>, n: nat, i: nat, shift: nat, bits: nat)
    requires i + 1 == n <= |s| && shift < 64 <= shift + bits && bits <= 8
    ensures (ShiftRight(s[i], shift) % 256) % Pow2(bits) == Left(s, n, i, shift) % Pow2(bits)
    ensures Left(s, n, i, shift) / Pow2(bits) == 0
  {
    hide V, Pow2, Left, ShiftRight;
    LastLeft(s, n, i, shift);
    DigitWithin(ShiftRight(s[i], shift), 64 - shift, 0, bits);
    Pow2Grows(64 - shift, bits);
    DivUnique(Left(s, n, i, shift), 0, Left(s, n, i, shift), Pow2(bits));
  }

  lemma LastLeft(s: seq<Limb>, n: nat, i: nat, shift: nat)
    requires i + 1 == n <= |s| && shift < 64
    ensures Left(s, n, i, shift) == ShiftRight(s[i], shift) < Pow2(64 - shift)
    ensures ShiftRight(s[i], shift) + Pow2(64 - shift) * 0 == ShiftRight(s[i], shift)
  {
    hide Pow2, Left, ShiftRight;
    LeftParts(s, n, i, shift);
    assert V(s, n, 0) == 0;
  }

  lemma StepAcross(s: seq<Limb>, n: nat, i: nat, shift: nat, bits: nat)
    requires i + 1 < n <= |s| && shift < 64 <= shift + bits && bits <= 8
    ensures var d := Bitwise(Or, ShiftRight(s[i], shift) % 256, ShiftLeft(s[i + 1], 64 - shift) % 256);
            d >= 0 && d % Pow2(bits) == Left(s, n, i, shift) % Pow2(bits)
    ensures Left(s, n, i, shift) / Pow2(bits) == Left(s, n, i + 1, shift + bits - 64)
  {
    var m, w := 64 - shift, V(s, i + 2, n - i - 2);
    var v := V(s, i + 1, n - i - 1);
    assert v == s[i + 1] + B * w;
    assert Left(s, n, i + 1, bits - m) == v / Pow2(bits - m);
    hide V, Pow2, Left, Bitwise, ShiftLeft, ShiftRight;
    LeftParts(s, n, i, shift);
    AcrossLimbs(ShiftRight(s[i], shift), m, s[i + 1], w, bits, Left(s, n, i, shift));
  }

  lemma AcrossLimbs(a: nat, m: nat, u: Limb, w: nat, bits: nat, x: nat)
    requires m <= bits <= 8 && a < Pow2(m) && x == a + Pow2(m) * (u + B * w)
    ensures var d := Bitwise(Or, a % 256, ShiftLeft(u, m) % 256); d >= 0 && d % Pow2(bits) == x % Pow2(bits)
    ensures x / Pow2(bits) == (u + B * w) / Pow2(bits - m)
  {
    hide Pow2, Bitwise, ShiftLeft;
    DigitAcross(a, m, u, w, bits);
    FurtherDown(x, m, bits - m);
  }

  lemma FurtherDown(x: nat, m: nat, k: nat)
    ensures x / Pow2(m + k) == (x / Pow2(m)) / Pow2(k)
  {
    hide Pow2;
    Pow2Add(m, k);
    DivDiv(x, Pow2(m), Pow2(k));
  }

  /** The loop body of mpn_get_str_bits: the next digit, and the place of the one after it. */
  method NextDigit(up: array<Limb>, un: nat, i0: nat, shift0: nat, bits: nat) returns (digit: nat, i: nat, shift: nat)
    requires i0 < un <= up.Length && shift0 < 64 && 1 <= bits <= 8
    ensures digit == Left(up[..], un, i0, shift0) % Pow2(bits)
    ensures i0 <= i <= un && (i < un ==> shift < 64)
    ensures Left(up[..], un, i0, shift0) / Pow2(bits) == if i == un then 0 else Left(up[..], un, i, shift)
  {
    hide V, Pow2, Left, ShiftLeft, ShiftRight, Bitwise;
    ghost var s := up[..];
    i, shift := i0, shift0;
    var byte: nat := ShiftRight(up[i], shift) % 256;
    shift := shift + bits;
    if shift >= 64 {
      i := i + 1;
      if i < un {
        shift := shift - 64;
        StepAcross(s, un, i0, shift0, bits);
        byte := Bitwise(Or, byte, ShiftLeft(up[i], bits - shift) % 256);
      } else {
        StepTop(s, un, i0, shift0, bits);
      }
    } else {
      StepWithin(s, un, i0, shift0, bits);
    }
    digit := byte % Pow2(bits);
  }

  // ------------------------------------------------------------------ limbs to digits

  /** mpn_limb_size_in_base_2 */
  method LimbSizeInBase2(u: Limb) returns (r: nat)
    requires u > 0
    ensures 0 < r <= 64 && Pow2(r - 1) <= u < Pow2(r)
  {
    var shift := CountLeadingZeros(u);
    LimbBits(u, shift);
    r := 64 - shift;
  }

  lemma LimbBits(u: Limb, shift: nat)
    requires shift < 64 && HIGH_BIT <= u * Pow2(shift) < B
    ensures Pow2(63 - shift) <= u < Pow2(64 - shift)
  {
    hide Pow2;
    WordSizes();
    Pow2Add(shift, 64 - shift);
    Pow2Add(shift, 63 - shift);
    Cancel(Pow2(shift), u, Pow2(64 - shift));
    Cancel(Pow2(shift), Pow2(63 - shift), u);
  }

  lemma SizeInBits(s: seq<Limb>, n: nat, r: nat)
    requires 0 < n <= |s| && r > 0 && Pow2(r - 1) <= s[n - 1] < Pow2(r)
    ensures Pow2(64 * (n - 1) + r - 1) <= V(s, 0, n) < Pow2(64 * (n - 1) + r)
  {
    hide V, P, Pow2;
    var m := n - 1;
    VTop(s, 0, m);
    VBound(s, 0, m);
    PIsPow2(m);
    Pow2Add(64 * m, r - 1);
    Pow2Add(64 * m, r);
    TopNumbers(P(m), V(s, 0, m), s[m], Pow2(r - 1), Pow2(r));
  }

  lemma TopNumbers(p: int, v: int, x: int, c: int, d: int)
    requires p > 0 && 0 <= v < p && c <= x < d
    ensures p * c <= v + p * x < p * d
  {
    MulLe(c, x, p);
    MulLe(x + 1, d, p);
    Sum(x, 1, p);
  }

  /** The digits still to come: `x` has exactly `j` of them. */
  ghost predicate HasDigits(x: nat, b: nat, j: nat) {
    if j == 0 then x == 0 else Power(b, j - 1) <= x < Power(b, j)
  }

  lemma DigitCount(x: nat, bits: nat, total: nat) returns (sn: nat)
    requires bits > 0 && total > 0 && Pow2(total - 1) <= x < Pow2(total)
    ensures sn == (total + bits - 1) / bits && sn > 0 && HasDigits(x, Pow2(bits), sn)
  {
    var n: int := (total + bits - 1) / bits;
    Euclid(total + bits - 1, bits);
    if n <= 0 { MulLe(n, 0, bits); }
    sn := n;
    Diff(sn, 1, bits);
    Commute(sn, bits);
    Commute(sn - 1, bits);
    hide Pow2, Power;
    PowerOfPow2(bits, sn);
    PowerOfPow2(bits, sn - 1);
    Pow2Grows(total, bits * sn);
    Pow2Grows(bits * (sn - 1), total - 1);
  }

  lemma OneDigitLess(x: nat, b: nat, j: nat)
    requires b > 0 && j > 0 && HasDigits(x, b, j)
    ensures x / b >= 0 && HasDigits(x / b, b, j - 1)
    ensures j == 1 ==> x % b > 0
    ensures x == x % b + b * (x / b) && 0 <= x % b < b && x > 0
  {
    PowerNext(b, j - 1);
    if j > 1 { PowerNext(b, j - 2); }
    assert Power(b, 0) == 1;
    hide Power;
    Euclid(x, b);
    Commute(x / b, b);
    if j == 1 {
      DivUnique(x, 0, x, b);
    } else {
      Between(x, b, Power(b, j - 2), Power(b, j - 1));
    }
  }

  lemma Between(x: nat, d: nat, m: nat, n: nat)
    requires d > 0 && d * m <= x < d * n
    ensures m <= x / d < n
  {
    Euclid(x, d);
    Commute(x / d, d);
    Cancel(d, x / d, n);
    LeastQuotient(x, d, m);
  }

  lemma LeastQuotient(x: nat, d: nat, m: nat)
    requires d > 0 && d * m <= x
    ensures m <= x / d
  {
    Euclid(x, d);
    if x / d < m {
      MulLe(x / d + 1, m, d);
      Sum(x / d, 1, d);
    }
  }

  /** The digits `sp` have been produced of `n`, and `x` is left above them. */
  ghost predicate Written(b: nat, sp: seq<nat>, x: nat, n: nat) {
    n == FromHigh(b, sp) + x * Power(b, |sp|)
  }

  lemma NothingWritten(b: nat, n: nat)
    ensures Written(b, [], n, n)
  {
    assert FromHigh(b, []) == 0 && Power(b, 0) == 1;
  }

  lemma AllWritten(b: nat, sp: seq<nat>, x: nat, n: nat)
    requires Written(b, sp, x, n) && HasDigits(x, b, 0)
    ensures FromHigh(b, sp) == n
  {
    NothingLeft(x, b, Power(b, |sp|));
  }

  lemma Prepend(b: nat, d: nat, sp: seq<nat>, x: nat, x': nat, n: nat)
    requires b > 0 && Written(b, sp, x, n) && x == d + b * x'
    ensures Written(b, [d] + sp, x', n)
  {
    hide FromHigh, Power;
    FromHighAppend(b, [d], sp);
    PowerNext(b, |sp|);
    FromHighOne(b, d);
    Sum(d, b * x', Power(b, |sp|));
    Nest(x', b, Power(b, |sp|));
  }

  /** mpn_get_str_bits: the digits, most significant first. */
  method GetStrBits(bits: nat, up: array<Limb>, un: nat) returns (sp: seq<nat>)
    requires 1 <= bits <= 8 && 0 < un <= up.Length && Normalized(up[..], 0, un)
    ensures AreDigits(Pow2(bits), sp) && FromHigh(Pow2(bits), sp) == V(up[..], 0, un) && sp != [] && sp[0] != 0
  {
    hide V, Pow2, FromHigh, Power, HasDigits, Left, Written;
    ghost var s, n, b := up[..], V(up[..], 0, un), Pow2(bits);
    var size := LimbSizeInBase2(up[un - 1]);
    SizeInBits(s, un, size);
    StartLeft(s, un);
    ghost var count := DigitCount(n, bits, (un - 1) * 64 + size);
    var sn := ((un - 1) * 64 + size + bits - 1) / bits;
    var i, j: nat, shift := 0, sn, 0;
    sp := [];
    ghost var x := n;
    NothingWritten(b, n);
    while j > 0
      invariant i <= un && (i < un ==> shift < 64) && x == if i == un then 0 else Left(s, un, i, shift)
      invariant HasDigits(x, b, j) && |sp| == sn - j && AreDigits(b, sp) && (j == 0 ==> sp != [] && sp[0] != 0)
      invariant Written(b, sp, x, n)
    {
      OneDigitLess(x, b, j);
      var digit;
      digit, i, shift := NextDigit(up, un, i, shift, bits);
      Prepend(b, digit, sp, x, x / b, n);
      sp := [digit] + sp;
      x := x / b;
      j := j - 1;
    }
    AllWritten(b, sp, x, n);
  }

  lemma StartLeft(s: seq<Limb>, n: nat)
    requires n <= |s|
    ensures Left(s, n, 0, 0) == V(s, 0, n)
  {
  }

  lemma NothingLeft(x: nat, b: nat, p: int)
    requires HasDigits(x, b, 0)
    ensures x * p == 0
  {
  }

  // ------------------------------------------------------------------ digits to limbs

  /** The next digit goes to bit `pos`; `shift` of the bits of the highest limb are in use, all of them if it is 0. */
  ghost predicate At(pos: nat, rn: nat, shift: nat) {
    shift < 64 && if shift == 0 then pos == 64 * rn else rn > 0 && pos == 64 * (rn - 1) + shift
  }

  lemma TopInUse(s: seq<Limb>, rn: nat, shift: nat, pos: nat)
    requires At(pos, rn, shift) && shift > 0 && rn <= |s| && V(s, 0, rn) < Pow2(pos)
    ensures s[rn - 1] < Pow2(shift)
  {
    hide V, P, Pow2;
    var m := rn - 1;
    VTop(s, 0, m);
    PIsPow2(m);
    Pow2Add(64 * m, shift);
    TopBelow(P(m), Pow2(shift), s[m], V(s, 0, m));
  }

  lemma TopBelow(p: int, q: int, x: int, low: int)
    requires p > 0 && low >= 0 && low + p * x < p * q
    ensures x < q
  {
    Cancel(p, x, q);
  }

  /** The body of the loop of mpn_set_str_bits. */
  method PutDigit(rp: array<Limb>, rn0: nat, shift0: nat, digit: Limb, bits: nat, ghost pos: nat)
      returns (rn: nat, shift: nat)
    requires 1 <= bits <= 8 && digit < Pow2(bits) && At(pos, rn0, shift0)
    requires rn0 <= rp.Length && V(rp[..], 0, rn0) < Pow2(pos) && pos + bits <= 64 * rp.Length
    modifies rp
    ensures At(pos + bits, rn, shift) && rn <= rp.Length
    ensures V(rp[..], 0, rn) == V(old(rp[..]), 0, rn0) + digit * Pow2(pos)
  {
    ghost var s := rp[..];
    hide V, P, Pow2, ShiftLeft, ShiftRight, Bitwise;
    if shift0 == 0 {
      rp[rn0] := digit;
      rn, shift := rn0 + 1, bits;
      Stored(s, rp[..], 0, rn0, digit);
      PIsPow2(rn0);
      Commute(P(rn0), digit);
    } else {
      TopInUse(s, rn0, shift0, pos);
      ghost var hi := ShiftRight(digit, 64 - shift0);
      DigitParts(digit, s[rn0 - 1], shift0, bits);
      PIsPow2(rn0 - 1);
      Pow2Add(64 * (rn0 - 1), shift0);
      rp[rn0 - 1] := Bitwise(Or, rp[rn0 - 1], ShiftLeft(digit, shift0));
      ghost var x, t := rp[rn0 - 1], rp[..];
      rn, shift := rn0, shift0 + bits;
      if shift >= 64 {
        shift := shift - 64;
        if shift > 0 {
          rp[rn] := ShiftRight(digit, bits - shift);
          rn := rn + 1;
        }
      }
      PutExact(s, t, rp[..], rn0, rn, x, hi, digit, Pow2(shift0), ShiftLeft(digit, shift0), pos);
    }
  }

  /** The digit and the bits in use fill a limb and possibly run over into the next. */
  lemma DigitParts(digit: Limb, top: Limb, shift: nat, bits: nat)
    requires 0 < shift < 64 && bits <= 8 && digit < Pow2(bits) && top < Pow2(shift)
    ensures Bitwise(Or, top, ShiftLeft(digit, shift)) == top + ShiftLeft(digit, shift) < B
    ensures digit * Pow2(shift) == ShiftRight(digit, 64 - shift) * B + ShiftLeft(digit, shift)
    ensures shift + bits <= 64 ==> ShiftRight(digit, 64 - shift) == 0
  {
    hide Pow2, Bitwise, ShiftLeft, ShiftRight;
    ShiftLimb(digit, shift);
    Euclid(digit, Pow2(64 - shift));
    OrLow(digit % Pow2(64 - shift), top, shift);
    if shift + bits <= 64 { NothingAbove(digit, shift, bits); }
  }

  lemma NothingAbove(digit: Limb, shift: nat, bits: nat)
    requires shift <= 64 && shift + bits <= 64 && digit < Pow2(bits)
    ensures ShiftRight(digit, 64 - shift) == 0
  {
    hide Pow2, ShiftRight;
    RightShift(digit, 64 - shift);
    Pow2Grows(bits, 64 - shift);
    DivUnique(digit, 0, digit, Pow2(64 - shift));
  }

  lemma PutExact(s: seq<Limb>, t: seq<Limb>, u: seq<Limb>, rn0: nat, rn: nat, x: Limb, hi: Limb, digit: int, c: int,
                 low: int, pos: nat)
    requires 0 < rn0 <= |s| && t == s[rn0 - 1 := x] && x == s[rn0 - 1] + low
    requires if rn == rn0 then u == t && hi == 0 else rn == rn0 + 1 && rn0 < |t| && u == t[rn0 := hi]
    requires digit * c == hi * B + low && Pow2(pos) == P(rn0 - 1) * c
    ensures V(u, 0, rn) == V(s, 0, rn0) + digit * Pow2(pos)
  {
    var p := P(rn0 - 1);
    assert P(rn0) == B * p;
    hide V, P, Pow2;
    PutTop(s, t, rn0 - 1, x, low);
    if rn > rn0 {
      Stored(t, u, 0, rn0, hi);
    }
    PutNumbers(p, c, digit, low, hi);
  }

  lemma PutTop(s: seq<Limb>, t: seq<Limb>, n: nat, x: Limb, low: int)
    requires n < |s| && t == s[n := x] && x == s[n] + low
    ensures V(t, 0, n + 1) == V(s, 0, n + 1) + P(n) * low
  {
    hide V, P;
    Stored(s, t, 0, n, x);
    VTop(s, 0, n);
    Distribute(P(n), s[n], low);
  }

  lemma PutNumbers(p: int, c: int, digit: int, low: int, hi: int)
    requires digit * c == hi * B + low
    ensures digit * (p * c) == p * low + (B * p) * hi
    ensures hi == 0 ==> digit * (p * c) == p * low
  {
    assert digit * (p * c) == p * (digit * c);
    Distribute(p, hi * B, low);
    Nest(hi, B, p);
    Commute(hi, B * p);
  }

  lemma AddHigh(b: nat, sp: seq<nat>, j: nat)
    requires 0 < j <= |sp| && b > 0
    ensures FromHigh(b, sp[j - 1..]) == FromHigh(b, sp[j..]) + sp[j - 1] * Power(b, |sp| - j)
  {
    assert sp[j - 1..] == [sp[j - 1]] + sp[j..];
    FromHighOne(b, sp[j - 1]);
    hide FromHigh, Power;
    FromHighAppend(b, [sp[j - 1]], sp[j..]);
  }

  /** mpn_set_str_bits: the limbs of the number with the given digits. */
  method SetStrBits(rp: array<Limb>, sp: seq<nat>, bits: nat) returns (rn: nat)
    requires 1 <= bits <= 8 && AreDigits(Pow2(bits), sp) && bits * |sp| <= 64 * rp.Length
    modifies rp
    ensures rn <= rp.Length && Normalized(rp[..], 0, rn) && V(rp[..], 0, rn) == FromHigh(Pow2(bits), sp)
  {
    ghost var b := Pow2(bits);
    var sn := |sp|;
    var j: nat, shift: nat := sn, 0;
    rn := 0;
    assert sp[sn..] == [] && FromHigh(b, []) == 0 && V(rp[..], 0, 0) == 0 && bits * 0 == 0;
    BitsFit(bits);
    hide V, P, Pow2, FromHigh, Power;
    while j > 0
      invariant j <= sn && rn <= rp.Length && At(bits * (sn - j), rn, shift)
      invariant V(rp[..], 0, rn) == FromHigh(b, sp[j..])
    {
      FromHighBound(b, sp[j..]);
      PowerOfPow2(bits, sn - j);
      AddHigh(b, sp, j);
      Distribute(bits, sn - j, 1);
      Distribute(bits, j - 1, sn - (j - 1));
      MulLe(0, bits, j - 1);
      rn, shift := PutDigit(rp, rn, shift, sp[j - 1], bits, bits * (sn - j));
      j := j - 1;
    }
    assert sp[0..] == sp;
    rn := NormalizedSize(rp, 0, rn);
  }

  lemma BitsFit(bits: nat)
    requires bits <= 8
    ensures Pow2(bits) < B
  {
    hide Pow2;
    WordSizes();
    Pow2Grows(bits, 8);
  }
}
