/** Shifting limbs and vectors of limbs, and counting zeros (mpn_lshift, mpn_rshift, gmp_clz and gmp_ctz
    in src/mini-gmp.c). */
module MpnShift {
  import opened Numbers
  import opened Bits
  import opened Limbs
  import opened Mpn

  /** `a << n` and `a >> n` on a limb. */
  function ShiftLeft(a: Limb, n: nat): Limb {
    (a * Pow2(n)) % B
  }

  function ShiftRight(a: Limb, n: nat): (r: Limb)
    ensures r <= a
  {
    ShrinkDiv(a, Pow2(n));
    a / Pow2(n)
  }

  lemma ShrinkDiv(a: nat, p: nat)
    requires p > 0
    ensures 0 <= a / p <= a
  {
    var q := a / p;
    assert a == q * p + a % p;
    MulLe(1, p, q);
  }

  lemma SplitAt(a: nat, c: nat, t: nat)
    requires t > 0 && c * t == B && a < B
    ensures a * c == (a / t) * B + (a % t) * c
    ensures 0 <= (a % t) * c <= B - c && a / t < c
  {
    var q, r := a / t, a % t;
    assert a == q * t + r;
    assert a * c == q * (t * c) + r * c;
    MulLe(r, t - 1, c);
    MulLe(0, r, c);
    assert (t - 1) * c == t * c - c;
    if q >= c { MulLe(c, q, t); }
  }

  /** A shift by `n` splits a limb into what goes out and what stays. */
  lemma ShiftLimb(a: Limb, n: nat)
    requires n <= 64
    ensures Pow2(n) * Pow2(64 - n) == B
    ensures a * Pow2(n) == ShiftRight(a, 64 - n) * B + ShiftLeft(a, n)
    ensures ShiftRight(a, 64 - n) < Pow2(n)
    ensures ShiftLeft(a, n) == (a % Pow2(64 - n)) * Pow2(n) <= B - Pow2(n)
  {
    hide Pow2;
    WordSizes();
    Pow2Add(n, 64 - n);
    var c, t := Pow2(n), Pow2(64 - n);
    SplitAt(a, c, t);
    DivUnique(a * c, a / t, (a % t) * c, B);
  }

  /** Or-ing what came out of one limb into the free bits of its neighbour adds it. */
  lemma OrShifted(a: Limb, b: Limb, n: nat)
    requires n <= 64
    ensures var x, y := ShiftLeft(a, n), ShiftRight(b, 64 - n);
            Bitwise(Or, x, y) == x + y == Bitwise(Or, y, x) && x + y < B
  {
    hide Pow2, ShiftLeft, ShiftRight, Bitwise;
    ShiftLimb(a, n);
    ShiftLimb(b, n);
    OrLow(a % Pow2(64 - n), ShiftRight(b, 64 - n), n);
  }

  // ------------------------------------------------------------------ counting zeros

  ghost function LeftBy(x: nat, n: nat): nat {
    x * Pow2(n)
  }

  /** gmp_clz: first by bytes, then by bits. */
  method CountLeadingZeros(x: Limb) returns (n: nat)
    requires x > 0
    ensures n < 64 && HIGH_BIT <= x * Pow2(n) < B
  {
    assert LeftBy(x, 0) == x;
    hide Pow2, LeftBy;
    var z: Limb;
    z, n := SkipBytes(x);
    while z / HIGH_BIT == 0
      invariant z > 0 && z == LeftBy(x, n)
      decreases B - z
    {
      MoreShift(x, n);
      z := (z * 2) % B;
      n := n + 1;
    }
    ShiftInLimb(x, n);
  }

  method SkipBytes(x: Limb) returns (z: Limb, n: nat)
    requires x > 0
    ensures z > 0 && z == LeftBy(x, n)
  {
    n, z := 0, x;
    assert LeftBy(x, 0) == x;
    hide Pow2, LeftBy;
    while z / 0x100_0000_0000_0000 == 0
      invariant z > 0 && z == LeftBy(x, n)
      decreases B - z
    {
      MoreShift(x, n);
      z := (z * 256) % B;
      n := n + 8;
    }
  }

  lemma ShiftInLimb(x: nat, n: nat)
    requires x > 0 && LeftBy(x, n) < B
    ensures n < 64 && LeftBy(x, n) == x * Pow2(n)
  {
    hide Pow2;
    WordSizes();
    MulLe(1, x, Pow2(n));
    if n >= 64 { Pow2Grows(64, n); }
  }

  lemma MoreShift(x: nat, n: nat)
    ensures LeftBy(x, n + 8) == 256 * LeftBy(x, n) && LeftBy(x, n + 1) == 2 * LeftBy(x, n)
  {
    assert Pow2(n + 1) == 2 * Pow2(n);
    hide Pow2;
    WordSizes();
    Pow2Add(n, 8);
    Nest(x, Pow2(n), 256);
    Nest(x, Pow2(n), 2);
  }

  /** The number of zeros below the lowest one bit. */
  function TrailingZeros(x: nat): (k: nat)
    requires x > 0
    ensures k > 0 <==> x % 2 == 0
  {
    if x % 2 == 1 then 0 else 1 + TrailingZeros(x / 2)
  }

  lemma {:induction false} OddPart(x: nat) returns (m: nat)
    requires x > 0
    ensures m % 2 == 1 && x == m * Pow2(TrailingZeros(x))
  {
    if x % 2 == 1 {
      m := x;
    } else {
      m := OddPart(x / 2);
      Nest(m, Pow2(TrailingZeros(x / 2)), 2);
    }
  }

  lemma {:induction false} TrailingZerosOfPower(k: nat)
    ensures TrailingZeros(Pow2(k)) == k
  {
    if k > 0 { TrailingZerosOfPower(k - 1); }
  }

  /** The lowest one bit: what `x & -x` leaves. */
  lemma {:induction false} LowestBit(x: nat, n: nat)
    requires 0 < x < Pow2(n)
    ensures Bitwise(And, x, Pow2(n) - x) == Pow2(TrailingZeros(x))
    decreases x
  {
    var p, h, q := Pow2(n), x / 2, Pow2(n - 1);
    AndHalves(x, p - x);
    if x % 2 == 1 {
      assert (p - x) / 2 == q - 1 - h && (p - x) % 2 == 1;
      AndComplement(h, n - 1);
    } else {
      assert (p - x) / 2 == q - h && (p - x) % 2 == 0;
      LowestBit(h, n - 1);
    }
  }

  lemma AndHalves(x: nat, y: nat)
    requires x > 0
    ensures Bitwise(And, x, y) == 2 * Bitwise(And, x / 2, y / 2) + BitOf(x % 2 == 1 && y % 2 == 1)
  {
  }

  lemma {:induction false} AndComplement(h: nat, n: nat)
    requires h < Pow2(n)
    ensures Bitwise(And, h, Pow2(n) - 1 - h) == 0
    decreases n
  {
    if n > 0 {
      var h' := Pow2(n) - 1 - h;
      assert h' / 2 == Pow2(n - 1) - 1 - h / 2 && h' % 2 != h % 2;
      AndComplement(h / 2, n - 1);
    }
  }

  /** gmp_ctz */
  method CountTrailingZeros(x: Limb) returns (n: nat)
    requires x > 0
    ensures n == TrailingZeros(x) < 64
  {
    hide Pow2, Bitwise;
    WordSizes();
    LowestBit(x, 64);
    AndNat(x, B - x);
    var low := Bitwise(And, x, (B - x) % B);
    var c := CountLeadingZeros(low);
    Pow2Add(TrailingZeros(x), c);
    TopBit(TrailingZeros(x) + c);
    n := 64 - 1 - c;
  }

  lemma TopBit(n: nat)
    requires HIGH_BIT <= Pow2(n) < B
    ensures n == 63
  {
    hide Pow2;
    WordSizes();
    if n < 63 { Pow2Grows(n, 63); }
    if n > 63 { Pow2Grows(63, n); }
  }

  /** The test for a power of two. */
  lemma {:induction false} PowerOfTwo(d: nat) returns (k: nat)
    requires d > 0 && Bitwise(And, d, d - 1) == 0
    ensures d == Pow2(k)
  {
    AndHalves(d, d - 1);
    if d % 2 == 0 {
      assert (d - 1) / 2 == d / 2 - 1;
      k := PowerOfTwo(d / 2);
      k := k + 1;
    } else {
      assert (d - 1) / 2 == d / 2;
      AndSelf(d / 2);
      k := 0;
    }
  }

  lemma {:induction false} AndSelf(x: nat)
    ensures Bitwise(And, x, x) == x
  {
    if x > 0 { AndSelf(x / 2); }
  }

  // ------------------------------------------------------------------ vectors

  /** mpn_lshift */
  method LShift(rp: array<Limb>, ri: nat, up: array<Limb>, ui: nat, n: nat, cnt: nat) returns (retval: Limb)
    requires n >= 1 && 1 <= cnt < 64 && ri + n <= rp.Length && ui + n <= up.Length
    requires rp == up ==> ui <= ri
    modifies rp
    ensures Outside(old(rp[..]), rp[..], ri, n)
    ensures V(rp[..], ri, n) + retval * P(n) == V(old(up[..]), ui, n) * Pow2(cnt)
    ensures retval < Pow2(cnt)
  {
    ghost var R, U, c := rp[..], up[..], Pow2(cnt);
    var tnc := 64 - cnt;
    var k: nat := n - 1;
    var lowLimb := up[ui + k];
    retval := ShiftRight(lowLimb, tnc);
    var highLimb := ShiftLeft(lowLimb, cnt);
    ghost var last := lowLimb;
    LShiftStarts(R, ri, U, ui, n, cnt);
    while k != 0
      invariant k < n && Outside(R, rp[..], ri + k + 1, n - k - 1)
      invariant highLimb == ShiftLeft(last, cnt) && retval < Pow2(cnt)
      invariant Shifted(rp[..], ri, U, ui, n, k, c, retval, highLimb)
    {
      k := k - 1;
      lowLimb := up[ui + k];
      assert lowLimb == U[ui + k];
      hide V, P, Shifted, ShiftLeft, ShiftRight, Pow2, Bitwise;
      OrShifted(last, lowLimb, cnt);
      var x: Limb := Bitwise(Or, highLimb, ShiftRight(lowLimb, tnc));
      ghost var t := rp[..];
      rp[ri + k + 1] := x;
      ShiftLimb(lowLimb, cnt);
      ShiftedNext(t, rp[..], ri, U, ui, n, k, c, retval, highLimb, x, ShiftLeft(lowLimb, cnt),
                  ShiftRight(lowLimb, tnc));
      highLimb := ShiftLeft(lowLimb, cnt);
      last := lowLimb;
    }
    ghost var t := rp[..];
    rp[ri] := highLimb;
    ShiftedEnds(t, rp[..], ri, U, ui, n, c, retval, highLimb);
  }

  /** The limbs above `k` have been stored, and `high` is what has been computed for limb `k`. */
  ghost predicate Shifted(r: seq<Limb>, ri: nat, u: seq<Limb>, ui: nat, n: nat, k: nat, c: int, retval: int,
                          high: int) {
    && ri + n <= |r| && ui + n <= |u| && k < n
    && retval * P(n - k) + B * V(r, ri + k + 1, n - k - 1) + high == V(u, ui + k, n - k) * c
  }

  lemma LShiftStarts(r: seq<Limb>, ri: nat, u: seq<Limb>, ui: nat, n: nat, cnt: nat)
    requires 0 < n && ri + n <= |r| && ui + n <= |u| && 0 < cnt < 64
    ensures var x := u[ui + n - 1];
            Shifted(r, ri, u, ui, n, n - 1, Pow2(cnt), ShiftRight(x, 64 - cnt), ShiftLeft(x, cnt))
            && ShiftRight(x, 64 - cnt) < Pow2(cnt)
  {
    ShiftLimb(u[ui + n - 1], cnt);
    FirstLimb(u, ui + n - 1);
    hide ShiftRight, ShiftLeft;
    assert P(1) == B;
  }

  lemma ShiftedNext(r: seq<Limb>, t: seq<Limb>, ri: nat, u: seq<Limb>, ui: nat, n: nat, k: nat, c: int, retval: int,
                    high: int, x: Limb, high': int, out: int)
    requires Shifted(r, ri, u, ui, n, k + 1, c, retval, high) && t == r[ri + k + 1 := x]
    requires x == high + out && u[ui + k] * c == out * B + high'
    ensures Shifted(t, ri, u, ui, n, k, c, retval, high')
  {
    var m := n - k - 2;
    VKeep(r, t, ri + k + 2, m);
    var w, v, w' := V(u, ui + k + 1, m + 1), V(r, ri + k + 2, m), V(t, ri + k + 1, m + 1);
    assert w' == x + B * v;
    assert V(u, ui + k, m + 2) == u[ui + k] + B * w;
    assert P(m + 2) == B * P(m + 1);
    hide V, P;
    assert (u[ui + k] + B * w) * c == u[ui + k] * c + B * (w * c);
    assert retval * (B * P(m + 1)) == B * (retval * P(m + 1));
  }

  lemma ShiftedEnds(r: seq<Limb>, t: seq<Limb>, ri: nat, u: seq<Limb>, ui: nat, n: nat, c: int, retval: int, high: Limb)
    requires Shifted(r, ri, u, ui, n, 0, c, retval, high) && t == r[ri := high]
    ensures V(t, ri, n) + retval * P(n) == V(u, ui, n) * c
  {
    VKeep(r, t, ri + 1, n - 1);
  }

  /** mpn_rshift: the bits shifted out come back at the top of a limb. */
  method RShift(rp: array<Limb>, ri: nat, up: array<Limb>, ui: nat, n: nat, cnt: nat) returns (retval: Limb)
    requires n >= 1 && 1 <= cnt < 64 && ri + n <= rp.Length && ui + n <= up.Length
    requires rp == up ==> ri <= ui
    modifies rp
    ensures Outside(old(rp[..]), rp[..], ri, n)
    ensures V(rp[..], ri, n) * B + retval == V(old(up[..]), ui, n) * Pow2(64 - cnt)
  {
    ghost var R, U, c := rp[..], up[..], Pow2(64 - cnt);
    var tnc := 64 - cnt;
    var highLimb := up[ui];
    retval := ShiftLeft(highLimb, tnc);
    var lowLimb := ShiftRight(highLimb, cnt);
    ghost var last := highLimb;
    var k: nat := 0;
    ShiftLimb(highLimb, tnc);
    RShiftStarts(R, ri, U, ui, c, retval, lowLimb);
    while k + 1 != n
      invariant k < n && Outside(R, rp[..], ri, k)
      invariant lowLimb == ShiftRight(last, cnt)
      invariant Unshifted(rp[..], ri, U, ui, k, c, retval, lowLimb)
    {
      highLimb := up[ui + k + 1];
      assert highLimb == U[ui + k + 1];
      hide V, P, Unshifted, ShiftLeft, ShiftRight, Pow2, Bitwise;
      OrShifted(highLimb, last, tnc);
      var x: Limb := Bitwise(Or, lowLimb, ShiftLeft(highLimb, tnc));
      ghost var t := rp[..];
      rp[ri + k] := x;
      ShiftLimb(highLimb, tnc);
      UnshiftedNext(t, rp[..], ri, U, ui, k, c, retval, lowLimb, x, ShiftRight(highLimb, cnt),
                    ShiftLeft(highLimb, tnc));
      lowLimb := ShiftRight(highLimb, cnt);
      last := highLimb;
      k := k + 1;
    }
    ghost var t := rp[..];
    rp[ri + k] := lowLimb;
    Stored(t, rp[..], ri, k, lowLimb);
    Unfold(t, ri, U, ui, k, c, retval, lowLimb);
  }

  /** The limbs below `k` have been stored, and `low` is what has been computed for limb `k`. */
  ghost predicate Unshifted(r: seq<Limb>, ri: nat, u: seq<Limb>, ui: nat, k: nat, c: int, retval: int, low: int) {
    && ri + k < |r| && ui + k < |u|
    && V(r, ri, k) * B + (P(k) * low) * B + retval == V(u, ui, k + 1) * c
  }

  lemma RShiftStarts(r: seq<Limb>, ri: nat, u: seq<Limb>, ui: nat, c: int, retval: int, low: int)
    requires ri < |r| && ui < |u| && u[ui] * c == low * B + retval
    ensures Unshifted(r, ri, u, ui, 0, c, retval, low)
  {
    FirstLimb(u, ui);
  }

  lemma UnshiftedNext(r: seq<Limb>, t: seq<Limb>, ri: nat, u: seq<Limb>, ui: nat, k: nat, c: int, retval: int,
                      low: int, x: Limb, low': int, back: int)
    requires Unshifted(r, ri, u, ui, k, c, retval, low) && ri + k + 1 < |r| && ui + k + 1 < |u| && t == r[ri + k := x]
    requires x == low + back && u[ui + k + 1] * c == low' * B + back
    ensures Unshifted(t, ri, u, ui, k + 1, c, retval, low')
  {
    Stored(r, t, ri, k, x);
    VTop(u, ui, k + 1);
    var w: int, v: int, y: int, p: int := V(u, ui, k + 1), V(r, ri, k), u[ui + k + 1], P(k);
    assert P(k + 1) == B * p;
    hide V, P;
    UnshiftNumbers(w, v, y, p, c, low, low', back, retval);
    assert p * x == p * low + p * back by { Distribute(p, low, back); }
  }

  lemma UnshiftNumbers(w: int, v: int, y: int, p: int, c: int, low: int, low': int, back: int, retval: int)
    requires v * B + (p * low) * B + retval == w * c && y * c == low' * B + back
    ensures (v + (p * low + p * back)) * B + ((B * p) * low') * B + retval == (w + (B * p) * y) * c
  {
    Distribute(c, w, (B * p) * y);
    Nest(B * p, y, c);
    Distribute(B * p, low' * B, back);
    Nest(B * p, low', B);
    Nest(B, p, back);
  }

  lemma Unfold(r: seq<Limb>, ri: nat, u: seq<Limb>, ui: nat, k: nat, c: int, retval: int, low: int)
    requires Unshifted(r, ri, u, ui, k, c, retval, low)
    ensures (V(r, ri, k) + P(k) * low) * B + retval == V(u, ui, k + 1) * c
  {
  }
}
