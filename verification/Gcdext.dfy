/** The extended binary gcd (mpz_gcdext in src/mini-gmp.c), on the values of its numbers. */
module Gcdext {
  import opened Numbers
  import opened Bits
  import opened Limbs
  import opened MpnShift
  import opened Mpz

  // ------------------------------------------------------------------ what a gcd is

  ghost predicate Divides(a: int, b: int) {
    exists k: int :: b == k * a
  }

  /** The nonnegative common divisor that every common divisor divides. */
  ghost predicate IsGcd(g: int, u: int, v: int) {
    && g >= 0 && Divides(g, u) && Divides(g, v)
    && forall c: int :: Divides(c, u) && Divides(c, v) ==> Divides(c, g)
  }

  /** A common divisor that is a combination of the two numbers is their gcd. */
  lemma CombinationIsGcd(g: int, u: int, v: int, a: int, b: int, s: int, t: int)
    requires g >= 0 && u == a * g && v == b * g && g == s * u + t * v
    ensures IsGcd(g, u, v)
  {
    forall c: int | Divides(c, u) && Divides(c, v) ensures Divides(c, g) {
      var k: int :| u == k * c;
      var l: int :| v == l * c;
      Combine(s, k, t, l, c);
    }
  }

  lemma Combine(s: int, k: int, t: int, l: int, c: int)
    ensures s * (k * c) + t * (l * c) == (s * k + t * l) * c
  {
    Sum(s * k, t * l, c);
    Nest(s, k, c);
    Nest(t, l, c);
  }

  // ------------------------------------------------------------------ the binary loop

  /** u = t0 tu + t1 tv, v = s0 tu + s1 tv, and the determinant is 2^p. */
  ghost predicate Cofactors(u: int, v: int, tu: int, tv: int, t0: int, t1: int, s0: int, s1: int, p: nat) {
    && u == t0 * tu + t1 * tv && v == s0 * tu + s1 * tv && t0 * s1 - t1 * s0 == Pow2(p)
    && t0 >= 0 && t1 >= 0 && s0 >= 0 && s1 >= 0
  }

  /** The form in which the invariant is stated in the source. */
  lemma CofactorsSolve(u: int, v: int, tu: int, tv: int, t0: int, t1: int, s0: int, s1: int, p: nat)
    requires Cofactors(u, v, tu, tv, t0, t1, s0, s1, p)
    ensures Pow2(p) * tu == s1 * u - t1 * v
    ensures Pow2(p) * tv == -s0 * u + t0 * v
  {
    hide Pow2;
    SameProduct(Pow2(p), t0 * s1 - t1 * s0, tu);
    SameProduct(Pow2(p), t0 * s1 - t1 * s0, tv);
  }

  /** A number without its factors of two. */
  function OddOf(n: nat): nat
    requires n > 0
  {
    Euclid(n, Pow2(TrailingZeros(n)));
    n / Pow2(TrailingZeros(n))
  }

  /** mpz_make_odd */
  method MakeOdd(n: nat) returns (m: nat, shift: nat)
    requires n > 0
    ensures m % 2 == 1 && n == m * Pow2(shift) && m <= n && m == OddOf(n)
  {
    shift := TrailingZeros(n);
    var odd := OddPart(n);
    DivUnique(n, odd, 0, Pow2(shift));
    MulLe(1, Pow2(shift), odd);
    m := n / Pow2(shift);
  }

  /** Taking twos out of `tu` moves them into the cofactors that go with it. */
  lemma ShiftFirst(u: int, v: int, tu: int, shift: nat, tv: int, t0: int, t1: int, s0: int, s1: int, p: nat)
    requires Cofactors(u, v, tu * Pow2(shift), tv, t0, t1, s0, s1, p)
    ensures Cofactors(u, v, tu, tv, t0 * Pow2(shift), t1, s0 * Pow2(shift), s1, p + shift)
  {
    hide Pow2;
    Pow2Add(p, shift);
    var c := Pow2(shift);
    Nest(t0, c, tu);
    Nest(s0, c, tu);
    SameProduct(Pow2(p), t0 * s1 - t1 * s0, c);
    MulLe(0, t0, c);
    MulLe(0, s0, c);
  }

  /** The same for `tv`. */
  lemma ShiftSecond(u: int, v: int, tu: int, tv: int, shift: nat, t0: int, t1: int, s0: int, s1: int, p: nat)
    requires Cofactors(u, v, tu, tv * Pow2(shift), t0, t1, s0, s1, p)
    ensures Cofactors(u, v, tu, tv, t0, t1 * Pow2(shift), s0, s1 * Pow2(shift), p + shift)
  {
    hide Pow2;
    Pow2Add(p, shift);
    var c := Pow2(shift);
    Nest(t1, c, tv);
    Nest(s1, c, tv);
    SameProduct(Pow2(p), t0 * s1 - t1 * s0, c);
    MulLe(0, t1, c);
    MulLe(0, s1, c);
  }

  /** Taking `tu` off `tv`. */
  lemma SubtractFirst(u: int, v: int, tu: int, tv: int, t0: int, t1: int, s0: int, s1: int, p: nat)
    requires Cofactors(u, v, tu, tv, t0, t1, s0, s1, p)
    ensures Cofactors(u, v, tu, tv - tu, t0 + t1, t1, s0 + s1, s1, p)
  {
    Sum(t0, t1, tu);
    Sum(s0, s1, tu);
    Sum(t0, t1, s1);
    assert t1 * (tv - tu) == t1 * tv - t1 * tu && s1 * (tv - tu) == s1 * tv - s1 * tu;
    assert t1 * (s0 + s1) == t1 * s0 + t1 * s1;
  }

  lemma SubtractSecond(u: int, v: int, tu: int, tv: int, t0: int, t1: int, s0: int, s1: int, p: nat)
    requires Cofactors(u, v, tu, tv, t0, t1, s0, s1, p)
    ensures Cofactors(u, v, tu - tv, tv, t0, t0 + t1, s0, s0 + s1, p)
  {
    Sum(t0, t1, tv);
    Sum(s0, s1, tv);
    Sum(t0, t1, s0);
    assert t0 * (tu - tv) == t0 * tu - t0 * tv && s0 * (tu - tv) == s0 * tu - s0 * tv;
    assert t0 * (s0 + s1) == t0 * s0 + t0 * s1;
  }

  /** One round of the loop, for numbers that differ. */
  method Round(tu: nat, tv: nat, t0: int, t1: int, s0: int, s1: int, p: nat, ghost u: int, ghost v: int)
      returns (tu': nat, tv': nat, t0': int, t1': int, s0': int, s1': int, p': nat)
    requires Cofactors(u, v, tu, tv, t0, t1, s0, s1, p) && tu % 2 == 1 && tv % 2 == 1 && tu != tv
    ensures Cofactors(u, v, tu', tv', t0', t1', s0', s1', p') && tu' % 2 == 1 && tv' % 2 == 1 && tu' + tv' < tu + tv
  {
    tu', tv', t0', t1', s0', s1' := tu, tv, t0, t1, s0, s1;
    var shift;
    if tu < tv {
      SubtractFirst(u, v, tu, tv, t0, t1, s0, s1, p);
      hide Cofactors, Pow2;
      tv' := tv' - tu';
      t0' := t0' + t1';
      s0' := s0' + s1';
      ghost var x := tv';
      tv', shift := MakeOdd(tv');
      ShiftSecond(u, v, tu', tv', shift, t0', t1', s0', s1', p);
      t1' := t1' * Pow2(shift);
      s1' := s1' * Pow2(shift);
    } else {
      SubtractSecond(u, v, tu, tv, t0, t1, s0, s1, p);
      hide Cofactors, Pow2;
      tu' := tu' - tv';
      t1' := t0' + t1';
      s1' := s0' + s1';
      tu', shift := MakeOdd(tu');
      ShiftFirst(u, v, tu', shift, tv', t0', t1', s0', s1', p);
      t0' := t0' * Pow2(shift);
      s0' := s0' * Pow2(shift);
    }
    p' := p + shift;
  }

  lemma StartCofactors(tu: nat, tv: nat, uz: nat, vz: nat)
    requires tv > 0
    ensures Cofactors(tu * Pow2(uz), tv * Pow2(vz), tu % tv, tv, Pow2(uz), (tu / tv) * Pow2(uz), 0, Pow2(vz), uz + vz)
  {
    Pow2Add(uz, vz);
    hide Pow2;
    QuotientParts(tu, tv, Pow2(uz));
  }

  lemma QuotientParts(n: nat, d: nat, c: nat)
    requires d > 0
    ensures n * c == c * (n % d) + ((n / d) * c) * d && 0 <= (n / d) * c
  {
    var q, r := n / d, n % d;
    assert n == q * d + r;
    if q < 0 { MulLe(q, -1, d); }
    Sum(q * d, r, c);
    Nest(q, d, c);
    Nest(q, c, d);
    MulLe(0, q, c);
  }

  /** The whole loop. It ends with the odd part of the gcd in `tv`, of which both numbers are multiples. */
  method OddGcd(tu0: nat, tv0: nat, uz: nat, vz: nat)
      returns (tv: nat, s0: int, t0: int, power: nat, ghost a: int, ghost b: int)
    requires tu0 % 2 == 1 && tv0 % 2 == 1
    ensures tv > 0 && tu0 * Pow2(uz) == a * tv && tv0 * Pow2(vz) == b * tv
    ensures Pow2(power) * tv == -s0 * (a * tv) + t0 * (b * tv) && 0 <= s0 <= b
  {
    ghost var u, v := tu0 * Pow2(uz), tv0 * Pow2(vz);
    StartCofactors(tu0, tv0, uz, vz);
    hide Cofactors, Pow2;
    var tu: nat, t1: int, s1: int := tu0 % tv0, (tu0 / tv0) * Pow2(uz), Pow2(vz);
    tv, t0, s0, power := tv0, Pow2(uz), 0, uz + vz;
    if tu > 0 {
      var shift;
      var x := tu;
      tu, shift := MakeOdd(tu);
      ShiftFirst(u, v, tu, shift, tv, t0, t1, s0, s1, power);
      t0 := t0 * Pow2(shift);
      s0 := s0 * Pow2(shift);
      power := power + shift;
      while tu != tv
        invariant Cofactors(u, v, tu, tv, t0, t1, s0, s1, power) && tu % 2 == 1 && tv % 2 == 1
        decreases tu + tv
      {
        tu, tv, t0, t1, s0, s1, power := Round(tu, tv, t0, t1, s0, s1, power, u, v);
      }
      a, b := t0 + t1, s0 + s1;
    } else {
      a, b := t1, s1;
    }
    LoopEnds(u, v, tu, tv, t0, t1, s0, s1, power);
  }

  lemma LoopEnds(u: int, v: int, tu: int, tv: int, t0: int, t1: int, s0: int, s1: int, p: nat)
    requires Cofactors(u, v, tu, tv, t0, t1, s0, s1, p) && (tu == tv || tu == 0)
    ensures var a, b := if tu == tv then t0 + t1 else t1, if tu == tv then s0 + s1 else s1;
            && u == a * tv && v == b * tv && Pow2(p) * tv == -s0 * u + t0 * v
            && (tu == tv || s0 == 0 ==> 0 <= s0 <= b)
  {
    CofactorsSolve(u, v, tu, tv, t0, t1, s0, s1, p);
    Sum(t0, t1, tv);
    Sum(s0, s1, tv);
  }

  // ------------------------------------------------------------------ eliminating the powers of two

  lemma ProductParity(x: int, y: int)
    ensures (x * y) % 2 == 1 <==> x % 2 == 1 && y % 2 == 1
  {
    Sum(2 * (x / 2), x % 2, y);
    Nest(2, x / 2, y);
  }

  /** The step before a halving leaves both cofactors even. */
  lemma BothEven(s: int, t: int, a: int, b: int)
    requires (s * a + t * b) % 2 == 0 && (a % 2 == 1 || b % 2 == 1)
    ensures s % 2 == 1 || t % 2 == 1 ==> (s - b) % 2 == 0 && (t + a) % 2 == 0
    ensures (s - b) * a + (t + a) * b == s * a + t * b
  {
    Diff(s, b, a);
    Sum(t, a, b);
    ProductParity(s, a);
    ProductParity(t, b);
    EvenSum(s, t, a, b, s * a, t * b);
  }

  lemma EvenSum(s: int, t: int, a: int, b: int, x: int, y: int)
    requires (x % 2 == 1 <==> s % 2 == 1 && a % 2 == 1) && (y % 2 == 1 <==> t % 2 == 1 && b % 2 == 1)
    requires (x + y) % 2 == 0 && (a % 2 == 1 || b % 2 == 1)
    ensures s % 2 == 1 || t % 2 == 1 ==> (s - b) % 2 == 0 && (t + a) % 2 == 0
  {
  }

  lemma Halves(s: int, t: int, a: int, b: int, n: int)
    requires s % 2 == 0 && t % 2 == 0 && s * a + t * b == 2 * n
    ensures (s / 2) * a + (t / 2) * b == n
  {
    var h, k := s / 2, t / 2;
    assert s == 2 * h && t == 2 * k;
    assert (2 * h) * a == 2 * (h * a) && (2 * k) * b == 2 * (k * b);
  }

  /** The second loop of mpz_gcdext. */
  method Eliminate(s0: int, t0: int, power0: nat, a: int, b: int) returns (s: int, t: int)
    requires s0 * a + t0 * b == Pow2(power0) && (a % 2 == 1 || b % 2 == 1) && -b <= s0 <= 0
    ensures s * a + t * b == 1 && -b <= s <= 0
  {
    s, t := s0, t0;
    var power := power0;
    while power > 0
      invariant s * a + t * b == Pow2(power) && -b <= s <= 0
    {
      power := power - 1;
      assert Pow2(power + 1) == 2 * Pow2(power);
      BothEven(s, t, a, b);
      hide Pow2;
      if s % 2 == 1 || t % 2 == 1 {
        s := s - b;
        t := t + a;
      }
      Halves(s, t, a, b, Pow2(power));
      assert s % 2 == 0 && t % 2 == 0;
      s, t := s / 2, t / 2;
    }
  }

  // ------------------------------------------------------------------ mpz_gcdext

  /** The number of limbs of a magnitude. */
  function LimbCount(n: nat): nat {
    if n == 0 then 0 else 1 + LimbCount(n / B)
  }

  /** mpz_sgn */
  function Sign(x: int): int {
    if x > 0 then 1 else if x < 0 then -1 else 0
  }

  /** The magnitudes in terms of their odd parts and the power of two they share. */
  ghost predicate Parts(m: nat, odd: nat, z: nat, gz: nat) {
    odd % 2 == 1 && m == (odd * Pow2(z)) * Pow2(gz)
  }

  lemma PartsOf(m: nat, odd: nat, uz: nat, gz: nat)
    requires odd % 2 == 1 && m == odd * Pow2(uz) && gz <= uz
    ensures Parts(m, odd, uz - gz, gz)
  {
    Pow2Add(uz - gz, gz);
    Nest(odd, Pow2(uz - gz), Pow2(gz));
  }

  /** At least one of the two reduced numbers is odd. */
  lemma OneOdd(tu: nat, tv: nat, uz: nat, vz: nat, a: int, b: int, g: int)
    requires tu % 2 == 1 && tv % 2 == 1 && (uz == 0 || vz == 0)
    requires tu * Pow2(uz) == a * g && tv * Pow2(vz) == b * g
    ensures a % 2 == 1 || b % 2 == 1
  {
    assert Pow2(0) == 1;
    hide Pow2;
    ProductParity(a, g);
    ProductParity(b, g);
  }

  lemma CancelGcd(p: int, s: int, t: int, a: int, b: int, g: int)
    requires g > 0 && p * g == s * (a * g) + t * (b * g)
    ensures s * a + t * b == p
  {
    Combine(s, a, t, b, g);
    Cancel(g, s * a + t * b, p);
    Cancel(g, p, s * a + t * b);
  }

  /** The gcd of the magnitudes, and cofactors of a power of two times it. */
  method PowerGcdext(tu: nat, tv: nat, uz: nat, vz: nat, gz: nat, u: nat, v: nat)
      returns (g: nat, s: int, t: int, power: nat, ghost a: int, ghost b: int)
    requires Parts(u, tu, uz, gz) && Parts(v, tv, vz, gz) && (uz == 0 || vz == 0)
    ensures g > 0 && u == a * g && v == b * g && (a % 2 == 1 || b % 2 == 1)
    ensures s * a + t * b == Pow2(power) && -b <= s <= 0
  {
    var odd;
    odd, s, t, power, a, b := OddGcd(tu, tv, uz, vz);
    OneOdd(tu, tv, uz, vz, a, b, odd);
    CancelGcd(Pow2(power), -s, t, a, b, odd);
    hide Pow2;
    g := odd * Pow2(gz);
    s := -s;
    Nest(a, odd, Pow2(gz));
    Nest(b, odd, Pow2(gz));
    MulLe(1, odd, Pow2(gz));
  }

  /** From the odd parts to the cofactors of the magnitudes; the first cofactor is the one that is made small. */
  method MagnitudeGcdext(tu: nat, tv: nat, uz: nat, vz: nat, gz: nat, u: nat, v: nat)
      returns (g: nat, s: int, t: int, ghost a: int, ghost b: int)
    requires Parts(u, tu, uz, gz) && Parts(v, tv, vz, gz) && (uz == 0 || vz == 0)
    ensures g > 0 && g == s * u + t * v && -(v as int) <= 2 * s * g < v && u == a * g && v == b * g
  {
    var power;
    hide Pow2, Parts;
    g, s, t, power, a, b := PowerGcdext(tu, tv, uz, vz, gz, u, v);
    DivUnique(v, b, 0, g);
    DivUnique(u, a, 0, g);
    var s1, t1 := Abs(v / g), Abs(u / g);
    s, t := Eliminate(s, t, power, t1, s1);
    s, t := Choose(s, t, t1, s1);
    ScaleUp(s, t, a, b, g);
  }

  lemma ScaleUp(s: int, t: int, a: int, b: int, g: int)
    requires s * a + t * b == 1 && -b <= 2 * s < b && g > 0
    ensures g == s * (a * g) + t * (b * g) && -(b * g) <= 2 * s * g < b * g
  {
    Combine(s, a, t, b, g);
    MulLe(-b, 2 * s, g);
    MulLe(2 * s + 1, b, g);
    Sum(2 * s, 1, g);
  }

  /** The end of mpz_gcdext: the other pair of cofactors is taken if its first one is smaller. */
  method Choose(s0: int, t0: int, a: int, b: int) returns (s: int, t: int)
    requires s0 * a + t0 * b == 1 && -b <= s0 <= 0 && b > 0
    ensures s * a + t * b == 1 && -b <= 2 * s < b
  {
    Sum(s0, b, a);
    Diff(t0, a, b);
    s, t := s0, t0;
    var s1 := s + b;
    if Abs(s) > Abs(s1) {
      s, s1 := s1, s;
      t := t - a;
    }
  }

  /** The first cofactor is made small: for positive numbers, -v <= 2 s g < v. */
  ghost predicate SmallFirst(u: int, v: int, g: int, s: int) {
    -(Abs(v) as int) <= 2 * (if u < 0 then -s else s) * g < Abs(v)
  }

  /** mpz_gcdext swaps the two numbers if the odd part of the first has fewer limbs. */
  predicate Swapped(u: int, v: int)
    requires u != 0 && v != 0
  {
    LimbCount(OddOf(Abs(u))) < LimbCount(OddOf(Abs(v)))
  }

  /** The first odd part has fewer limbs: a power of the limb base lies between the two. */
  lemma SwappedIff(u: int, v: int)
    requires u != 0 && v != 0
    ensures Swapped(u, v) <==> exists n: nat :: OddOf(Abs(u)) < P(n) <= OddOf(Abs(v))
  {
    var x, y := OddOf(Abs(u)), OddOf(Abs(v));
    hide OddOf, LimbCount, P;
    if LimbCount(x) < LimbCount(y) {
      LimbCountIs(x, LimbCount(x));
      LimbCountIs(y, LimbCount(x));
      assert x < P(LimbCount(x)) <= y;
    }
    if exists n: nat :: x < P(n) <= y {
      var n: nat :| x < P(n) <= y;
      LimbCountIs(x, n);
      LimbCountIs(y, n);
    }
  }

  lemma {:induction false} LimbCountIs(x: nat, n: nat)
    ensures LimbCount(x) <= n <==> x < P(n)
    decreases n
  {
    if n == 0 {
      assert P(0) == 1;
    } else {
      Euclid(x, B);
      LimbCountIs(x / B, n - 1);
      PStep(n);
      LimbOver(x, P(n - 1));
      hide P;
    }
  }

  lemma LimbOver(x: nat, p: nat)
    ensures x / B < p <==> x < B * p
  {
    Euclid(x, B);
    if x / B < p { MulLe(x / B + 1, p, B); }
    if x / B >= p { MulLe(p, x / B, B); }
  }

  /** What mpz_gcdext computes. */
  ghost predicate Answer(u: int, v: int, g: int, s: int, t: int) {
    && IsGcd(g, u, v) && g == s * u + t * v
    && if u == 0 then s == 0 && t == Sign(v)
       else if v == 0 then s == Sign(u) && t == 0
       else if Swapped(u, v) then SmallFirst(v, u, g, t)
       else SmallFirst(u, v, g, s)
  }

  /** mpz_gcdext: for all signed numbers, the gcd and its cofactors, of which one is small. */
  method Gcdext(u0: int, v0: int) returns (g: nat, s: int, t: int)
    ensures Answer(u0, v0, g, s, t)
  {
    if u0 == 0 {
      g, s, t := Abs(v0), 0, Sign(v0);
      CombinationIsGcd(g, u0, v0, 0, t, s, t);
      return;
    }
    if v0 == 0 {
      g, s, t := Abs(u0), Sign(u0), 0;
      CombinationIsGcd(g, u0, v0, s, 0, s, t);
      return;
    }
    var tu, uz := MakeOdd(Abs(u0));
    var tv, vz := MakeOdd(Abs(v0));
    var gz := if uz < vz then uz else vz;
    PartsOf(Abs(u0), tu, uz, gz);
    PartsOf(Abs(v0), tv, vz, gz);
    hide Parts, Pow2, IsGcd, OddOf, LimbCount, SmallFirst;
    uz, vz := uz - gz, vz - gz;
    if LimbCount(tu) < LimbCount(tv) {
      g, t, s := SignedGcdext(tv, tu, vz, uz, gz, v0, u0);
    } else {
      g, s, t := SignedGcdext(tu, tv, uz, vz, gz, u0, v0);
    }
  }

  /** The part of mpz_gcdext after the two numbers have been ordered, with the signs. */
  method SignedGcdext(tu: nat, tv: nat, uz: nat, vz: nat, gz: nat, u: int, v: int) returns (g: nat, s: int, t: int)
    requires Parts(Abs(u), tu, uz, gz) && Parts(Abs(v), tv, vz, gz) && (uz == 0 || vz == 0)
    requires u != 0 && v != 0
    ensures IsGcd(g, u, v) && IsGcd(g, v, u) && g == s * u + t * v && SmallFirst(u, v, g, s)
  {
    hide Parts, IsGcd;
    ghost var a, b;
    g, s, t, a, b := MagnitudeGcdext(tu, tv, uz, vz, gz, Abs(u), Abs(v));
    WithSigns(u, v, g, s, t, a, b);
    if u < 0 { s := -s; }
    if v < 0 { t := -t; }
  }

  lemma WithSigns(u: int, v: int, g: nat, s: int, t: int, a: int, b: int)
    requires Abs(u) == a * g && Abs(v) == b * g && g == s * Abs(u) + t * Abs(v)
    ensures IsGcd(g, u, v) && IsGcd(g, v, u) && g == (if u < 0 then -s else s) * u + (if v < 0 then -t else t) * v
  {
    var a', b' := if u < 0 then -a else a, if v < 0 then -b else b;
    var s', t' := if u < 0 then -s else s, if v < 0 then -t else t;
    assert u == a' * g && v == b' * g;
    assert s' * u == s * Abs(u) && t' * v == t * Abs(v);
    CombinationIsGcd(g, u, v, a', b', s', t');
    CombinationIsGcd(g, v, u, b', a', t', s');
  }

  // ------------------------------------------------------------------ the cofactors are determined

  lemma DividesBoth(g: int, h: int)
    requires g >= 0 && h >= 0 && Divides(g, h) && Divides(h, g)
    ensures g == h
  {
    var k: int :| h == k * g;
    var l: int :| g == l * h;
    if g > 0 && h > 0 {
      if k < 1 { MulLe(k, 0, g); }
      if l < 1 { MulLe(l, 0, h); }
      MulLe(1, k, g);
      MulLe(1, l, h);
    }
  }

  /** The numbers divided by their gcd, and the equation for the cofactors. */
  lemma Reduced(u: int, v: int, g: int, s: int, t: int) returns (a: int, b: int)
    requires IsGcd(g, u, v) && g == s * u + t * v && u != 0
    ensures g > 0 && u == a * g && v == b * g && s * a + t * b == 1
  {
    a :| u == a * g;
    b :| v == b * g;
    assert g != 0;
    Combine(s, a, t, b, g);
    Cancel(g, 1, s * a + t * b);
    Cancel(g, s * a + t * b, 1);
  }

  /** Two first cofactors differ by a multiple of the second number. */
  lemma SameFirst(a: int, b: int, s: int, t: int, s': int, t': int)
    requires s * a + t * b == 1 && s' * a + t' * b == 1 && b > 0 && -b < s - s' < b
    ensures s == s' && t == t'
  {
    var d := s - s';
    var k := s * (t' - t) + t * d;
    assert d * a == (t' - t) * b by { Diff(s, s', a); Diff(t', t, b); }
    calc {
      d;
      d * (s * a + t * b);
      s * (d * a) + (t * d) * b;
      s * ((t' - t) * b) + (t * d) * b;
      k * b;
    }
    if k > 0 { MulLe(1, k, b); }
    if k < 0 { MulLe(k, -1, b); }
    if t' > t { MulLe(1, t' - t, b); }
    if t' < t { MulLe(t' - t, -1, b); }
  }

  /** The same for the magnitudes of nonzero numbers. */
  lemma Positive(u: int, v: int, g: int, s: int, t: int) returns (a: int, b: int, s0: int, t0: int)
    requires IsGcd(g, u, v) && g == s * u + t * v && u != 0 && v != 0 && SmallFirst(u, v, g, s)
    ensures g > 0 && Abs(u) == a * g && Abs(v) == b * g && a > 0 && b > 0
    ensures s0 * a + t0 * b == 1 && -b <= 2 * s0 < b
    ensures s0 == (if u < 0 then -s else s) && t0 == if v < 0 then -t else t
  {
    a, b := Reduced(u, v, g, s, t);
    s0, t0 := s, t;
    assert -(Abs(v) as int) <= 2 * (if u < 0 then -s else s) * g < Abs(v);
    hide IsGcd, SmallFirst;
    if u < 0 {
      Negated(a, g);
      Negated(s, a);
      s0, a := -s0, -a;
    }
    if v < 0 {
      Negated(b, g);
      Negated(t, b);
      t0, b := -t0, -b;
    }
    PositiveFactor(a, g);
    PositiveFactor(b, g);
    CancelBounds(b, 2 * s0, g);
  }

  lemma Negated(x: int, y: int)
    ensures (-x) * y == -(x * y) && (-x) * (-y) == x * y
  {
  }

  lemma PositiveFactor(x: int, y: int)
    requires x * y > 0 && y > 0
    ensures x > 0
  {
    if x <= 0 { MulLe(x, 0, y); }
  }

  lemma CancelBounds(b: int, x: int, g: int)
    requires g > 0 && -(b * g) <= x * g < b * g
    ensures -b <= x < b
  {
    if x < -b { MulLe(x + 1, -b, g); Sum(x, 1, g); }
    if x >= b { MulLe(b, x, g); }
  }

  /** One of the numbers in front, whichever it is: the cofactors are determined. */
  lemma FirstUnique(u: int, v: int, g: int, s: int, t: int, s': int, t': int)
    requires IsGcd(g, u, v) && g == s * u + t * v && SmallFirst(u, v, g, s) && u != 0 && v != 0
    requires g == s' * u + t' * v && SmallFirst(u, v, g, s')
    ensures s == s' && t == t'
  {
    var a, b, s0, t0 := Positive(u, v, g, s, t);
    var a', b', s0', t0' := Positive(u, v, g, s', t');
    hide IsGcd, SmallFirst;
    DivUnique(a * g, a, 0, g);
    DivUnique(a' * g, a', 0, g);
    DivUnique(b * g, b, 0, g);
    DivUnique(b' * g, b', 0, g);
    SameFirst(a, b, s0, t0, s0', t0');
  }

  /** mpz_gcdext has only one possible answer. */
  lemma AnswerUnique(u: int, v: int, g: nat, s: int, t: int, g': nat, s': int, t': int)
    requires Answer(u, v, g, s, t) && Answer(u, v, g', s', t')
    ensures g == g' && s == s' && t == t'
  {
    DividesBoth(g, g');
    GcdCommutes(g, u, v);
    hide IsGcd, SmallFirst, Swapped;
    if u != 0 && v != 0 {
      if Swapped(u, v) { FirstUnique(v, u, g, t, s, t', s'); } else { FirstUnique(u, v, g, s, t, s', t'); }
    }
  }

  lemma GcdCommutes(g: int, u: int, v: int)
    requires IsGcd(g, u, v)
    ensures IsGcd(g, v, u)
  {
  }

  // ------------------------------------------------------------------ how small the cofactors are

  ghost predicate BothSmall(u: int, v: int, g: int, s: int, t: int) {
    2 * Abs(s) * g < Abs(v) && 2 * Abs(t) * g < Abs(u)
  }

  lemma SmallNumbers(a: int, b: int, s: int, t: int)
    requires a > 0 && b > 0 && s * a + t * b == 1 && -b <= 2 * s < b
    ensures 2 * Abs(s) < b && 2 * Abs(t) < a <==> a != 2 && b != 2 && a != b
  {
    if a == b {
      Sum(s, t, a);
      OneFactor(s + t, a);
    } else if a != 2 && b != 2 {
      if 2 * s == -b {
        assert s * a + t * b == s * (a - 2 * t);
        Negated(s, a - 2 * t);
        Commute(s, a - 2 * t);
        OneFactor(-(a - 2 * t), -s);
      }
      if b > 2 { SecondSmall(a, b, s, t); }
    }
  }

  /** If a product is 1, the positive factor is. */
  lemma OneFactor(x: int, y: int)
    requires x * y == 1 && y > 0
    ensures y == 1
  {
    if x <= 0 { MulLe(x, 0, y); }
    if y > 1 { MulLe(1, x, y); }
  }

  lemma SecondSmall(a: int, b: int, s: int, t: int)
    requires a > 0 && b > 2 && s * a + t * b == 1 && 2 * Abs(s) < b && a != 2
    ensures 2 * Abs(t) < a
  {
    if a == 1 {
      if t > 0 { MulLe(1, t, b); }
      if t < 0 { MulLe(t, -1, b); }
    } else {
      if 2 * t >= a { MulLe(a, 2 * t, b); MulLe(-(b - 1), 2 * s, a); Diff(b, 1, a); }
      if 2 * t <= -a { MulLe(2 * t, -a, b); MulLe(2 * s, b - 1, a); Diff(b, 1, a); }
    }
  }

  /** Both cofactors are less than half of the other number divided by the gcd, except when one number is
      twice the gcd or the magnitudes are equal. */
  lemma BothSmallIff(u: int, v: int, g: nat, s: int, t: int)
    requires Answer(u, v, g, s, t) && u != 0 && v != 0
    ensures BothSmall(u, v, g, s, t) <==> Abs(u) != 2 * g && Abs(v) != 2 * g && Abs(u) != Abs(v)
  {
    GcdCommutes(g, u, v);
    hide IsGcd, Swapped;
    if Swapped(u, v) { FirstSmallIff(v, u, g, t, s); } else { FirstSmallIff(u, v, g, s, t); }
  }

  lemma FirstSmallIff(u: int, v: int, g: nat, s: int, t: int)
    requires IsGcd(g, u, v) && g == s * u + t * v && SmallFirst(u, v, g, s) && u != 0 && v != 0
    ensures BothSmall(u, v, g, s, t) <==> Abs(u) != 2 * g && Abs(v) != 2 * g && Abs(u) != Abs(v)
  {
    var a, b, s0, t0 := Positive(u, v, g, s, t);
    hide IsGcd, SmallFirst;
    SmallNumbers(a, b, s0, t0);
    CancelLess(2 * Abs(s), b, g);
    CancelLess(2 * Abs(t), a, g);
    CancelLess(a, 2, g);
    CancelLess(b, 2, g);
    CancelLess(a, b, g);
    CancelLess(2, a, g);
    CancelLess(2, b, g);
    CancelLess(b, a, g);
  }

  lemma CancelLess(x: int, y: int, g: int)
    requires g > 0
    ensures x * g < y * g <==> x < y
  {
    if x < y { MulLe(x + 1, y, g); Sum(x, 1, g); } else { MulLe(y, x, g); }
  }

  /** What the comment in front of the last step promises, |s| < |u| / 2g, for the numbers after they have been
      swapped. */
  ghost predicate AsCommented(u: int, v: int, g: int, s: int, t: int)
    requires u != 0 && v != 0
  {
    if Swapped(u, v) then 2 * Abs(t) * g < Abs(v) else 2 * Abs(s) * g < Abs(u)
  }

  /** It holds if the first number is no smaller than the second. */
  lemma CommentHolds(u: int, v: int, g: nat, s: int, t: int)
    requires Answer(u, v, g, s, t) && u != 0 && v != 0
    requires if Swapped(u, v) then Abs(u) <= Abs(v) else Abs(v) <= Abs(u)
    ensures AsCommented(u, v, g, s, t)
  {
    GcdCommutes(g, u, v);
    hide IsGcd, Swapped;
    if Swapped(u, v) { FirstBelow(v, u, g, t, s); } else { FirstBelow(u, v, g, s, t); }
  }

  lemma FirstBelow(u: int, v: int, g: nat, s: int, t: int)
    requires IsGcd(g, u, v) && g == s * u + t * v && SmallFirst(u, v, g, s) && u != 0 && v != 0 && Abs(v) <= Abs(u)
    ensures 2 * Abs(s) * g < Abs(u)
  {
    var a, b, s0, t0 := Positive(u, v, g, s, t);
    hide IsGcd, SmallFirst;
    CancelLess(a, b, g);
    CancelLess(2 * Abs(s), a, g);
    if a == b { Sum(s0, t0, a); OneFactor(s0 + t0, a); }
  }

  /** It fails for 1 and 2, and for 5 and 7. */
  lemma CommentFails(g: nat, s: int, t: int)
    ensures Answer(1, 2, g, s, t) ==> g == 1 && s == -1 && t == 1 && !AsCommented(1, 2, g, s, t)
    ensures Answer(5, 7, g, s, t) ==> g == 1 && s == 3 && t == -2 && !AsCommented(5, 7, g, s, t)
  {
    NotSwapped();
    CombinationIsGcd(1, 1, 2, 1, 2, -1, 1);
    CombinationIsGcd(1, 5, 7, 5, 7, 3, -2);
    hide IsGcd, Swapped;
    assert Answer(1, 2, 1, -1, 1) && Answer(5, 7, 1, 3, -2);
    if Answer(1, 2, g, s, t) { AnswerUnique(1, 2, g, s, t, 1, -1, 1); }
    if Answer(5, 7, g, s, t) { AnswerUnique(5, 7, g, s, t, 1, 3, -2); }
  }

  lemma NotSwapped()
    ensures !Swapped(1, 2) && !Swapped(5, 7)
  {
    assert TrailingZeros(1) == 0 && TrailingZeros(2) == 1 && TrailingZeros(5) == 0 && TrailingZeros(7) == 0;
    assert Pow2(0) == 1 && Pow2(1) == 2;
    assert LimbCount(0) == 0 && LimbCount(1) == 1 && LimbCount(5) == 1 && LimbCount(7) == 1;
  }
}
