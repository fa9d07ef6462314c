/** How many digits a number has in a base (mpz_sizeinbase in src/mini-gmp.c), which is how large the buffer
    for its text is made. */
module StrSize {
  import opened Numbers
  import opened Bits
  import opened Limbs
  import opened Mpn
  import opened Reciprocal
  import opened MpnDiv
  import opened Mpz
  import opened Digits
  import opened StrBits
  import opened StrOther

  /** mpn_base_power_of_two_p, for the bases that texts can have */
  function PowerOfTwoBits(b: nat): (bits: nat)
    ensures bits > 0 ==> bits <= 8 && b == Pow2(bits)
  {
    match b
    case 2 => 1
    case 4 => 2
    case 8 => 3
    case 16 => 4
    case 32 => 5
    case 64 => 6
    case 128 => 7
    case 256 => 8
    case _ => 0
  }

  /** `n` has exactly `k` digits in base `b`; zero is written with one. */
  ghost predicate SizeOf(n: nat, b: nat, k: nat) {
    if n == 0 then k == 1 else k > 0 && HasDigits(n, b, k)
  }

  /** Only one number of digits is right. */
  lemma SizeUnique(n: nat, b: nat, k: nat, k': nat)
    requires b > 0 && SizeOf(n, b, k) && SizeOf(n, b, k')
    ensures k == k'
  {
    if n > 0 {
      if k < k' { PowerGrows(b, k, k' - 1); }
      if k' < k { PowerGrows(b, k', k - 1); }
    }
  }

  lemma PowerGrows(b: nat, m: nat, n: nat)
    requires b > 0 && m <= n
    ensures Power(b, m) <= Power(b, n)
  {
    PowerAdd(b, m, n - m);
    PowerPositive(b, n - m);
    hide Power;
    AtLeastOnce(Power(b, m), Power(b, n - m));
  }

  lemma {:induction false} PowerPositive(b: nat, n: nat)
    requires b > 0
    ensures Power(b, n) >= 1
  {
    if n > 0 {
      PowerPositive(b, n - 1);
      AtLeastOnce(b, Power(b, n - 1));
    }
  }

  /** Digits of which the first is not zero are as many as the number has. */
  lemma DigitsSize(b: nat, ds: seq<nat>)
    requires b > 0 && AreDigits(b, ds) && ds != [] && ds[0] != 0
    ensures SizeOf(FromHigh(b, ds), b, |ds|)
  {
    FromHighBound(b, ds);
    assert ds == [ds[0]] + ds[1..];
    FromHighAppend(b, [ds[0]], ds[1..]);
    FromHighOne(b, ds[0]);
    PowerPositive(b, |ds| - 1);
    hide Power, FromHigh;
    AtLeastOnce(Power(b, |ds| - 1), ds[0]);
    Commute(Power(b, |ds| - 1), ds[0]);
  }

  /** After `j` divisions by the base the quotient `x` is left of `n`. */
  ghost predicate DividedTo(n: nat, b: nat, j: nat, x: int) {
    Power(b, j) * x <= n < Power(b, j) * (x + 1)
  }

  lemma DivideOnce(n: nat, b: nat, j: nat, x: int, q: int, r: int)
    requires DividedTo(n, b, j, x) && b > 0 && x > 0 && q >= 0 && q * b + r == x && 0 <= r < b
    ensures DividedTo(n, b, j + 1, q) && (q == 0 ==> HasDigits(n, b, j + 1)) && n > 0
  {
    var p := Power(b, j);
    PowerPositive(b, j);
    assert Power(b, j + 1) == b * p;
    hide Power;
    Sum(q, 1, b);
    Nest(p, b, q);
    Nest(p, b, q + 1);
    Commute(p, b);
    Commute(p, x);
    Commute(p, x + 1);
    Commute(p, b * q);
    Commute(p, b * (q + 1));
    Commute(b, q);
    Commute(b, q + 1);
    MulLe(b * q, x, p);
    MulLe(x + 1, b * (q + 1), p);
    MulLe(1, x, p);
  }

  /** The loop of mpz_sizeinbase divides a copy of the limbs in place until nothing is left. */
  method CountDigits(tp: array<Limb>, un0: nat, base: Limb) returns (ndigits: nat)
    requires 2 <= base <= 36 && 0 < un0 <= tp.Length && Normalized(tp[..], 0, un0)
    modifies tp
    ensures ndigits > 0 && HasDigits(V(old(tp[..]), 0, un0), base, ndigits)
  {
    ghost var n := V(tp[..], 0, un0);
    ghost var x: int := n;
    var bi := Div1Invert(base);
    var un := un0;
    ndigits := 0;
    assert Power(base, 0) == 1;
    NormalizedBounds(tp[..], 0, un);
    hide V, P, Power, HasDigits, Inverse2;
    while un > 0
      invariant un <= tp.Length && Normalized(tp[..], 0, un)
      invariant if un > 0 then x == V(tp[..], 0, un) > 0 && DividedTo(n, base, ndigits, x)
                else ndigits > 0 && HasDigits(n, base, ndigits)
      decreases if un > 0 then x else 0
    {
      ghost var s := tp[..];
      var r;
      ghost var q;
      r, q := DivQr1Preinv(tp, 0, tp, 0, un, bi, base);
      DivideOnce(n, base, ndigits, x, q, r);
      SmallerSize(s, tp[..], un, base, q, r);
      ndigits := ndigits + 1;
      if tp[un - 1] == 0 {
        un := un - 1;
      }
      x := q;
    }
  }

  /** The size of the quotient; it is zero only if the number had one limb. */
  lemma SmallerSize(s: seq<Limb>, t: seq<Limb>, n: nat, d: Limb, q: int, r: int)
    requires 0 < n <= |s| && n <= |t| && Normalized(s, 0, n) && d >= 2
    requires V(t, 0, n) == q >= 0 && q * d + r == V(s, 0, n) > 0 && 0 <= r < d
    ensures var m := if t[n - 1] == 0 then n - 1 else n;
            Normalized(t, 0, m) && q < V(s, 0, n) && if m == 0 then q == 0 else V(t, 0, m) == q > 0
  {
    if n > 1 {
      QuotientTop(s, t, n, d, q, r);
    } else {
      FirstLimb(t, 0);
    }
    if q > 0 { MulLe(2, d, q); }
  }

  /** mpz_sizeinbase: exactly the number of digits. */
  method SizeInBase(u: Number, base: Limb, ghost v: int) returns (size: nat)
    requires u.Is(v) && 2 <= base <= 36
    ensures SizeOf(Abs(v), base, size)
  {
    var un := Abs(u.size);
    Opened(u.d[..], u.size, v, u.d[..]);
    if un == 0 {
      return 1;
    }
    var high := LimbSizeInBase2(u.d[un - 1]);
    var bits := (un - 1) * 64 + high;
    SizeInBits(u.d[..], un, high);
    var k := PowerOfTwoBits(base);
    hide V, P, Pow2, Power, HasDigits, Represents;
    if k > 0 {
      ghost var count := DigitCount(Abs(v), k, bits);
      return (bits + k - 1) / k;
    }
    var tp := new Limb[un];
    CopyI(tp, 0, u.d, 0, un);
    VCopy(u.d[..], tp[..], 0, 0, un);
    assert tp[0..0 + un][un - 1] == u.d[0..0 + un][un - 1];
    size := CountDigits(tp, un, base);
  }
}
