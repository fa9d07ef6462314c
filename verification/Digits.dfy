/** Numbers written with digits, least significant first or most significant first. */
module Digits {
  import opened Numbers

  function Power(b: nat, n: nat): (p: nat)
    ensures b > 0 ==> p > 0
    decreases n
  {
    if n == 0 then 1 else if b == 0 then 0 else PowerPositive(b, Power(b, n - 1))
  }

  function PowerPositive(b: nat, p: nat): (r: nat)
    requires b > 0 && p > 0
    ensures r == b * p && r > 0
  {
    MulLe(1, b, p);
    b * p
  }

  predicate AreDigits(b: nat, ds: seq<nat>) {
    forall i :: 0 <= i < |ds| ==> ds[i] < b
  }

  /** The value of digits, least significant first. */
  function FromLow(b: nat, ds: seq<nat>): nat {
    if ds == [] then 0 else ds[0] + b * FromLow(b, ds[1..])
  }

  /** The value of digits, most significant first. */
  function FromHigh(b: nat, ds: seq<nat>): nat {
    if ds == [] then 0 else FromHigh(b, ds[..|ds| - 1]) * b + ds[|ds| - 1]
  }

  function Reversed(ds: seq<nat>): (r: seq<nat>)
    ensures |r| == |ds| && forall i :: 0 <= i < |ds| ==> r[i] == ds[|ds| - 1 - i]
  {
    if ds == [] then [] else Reversed(ds[1..]) + [ds[0]]
  }

  lemma {:induction false} ReversedValue(b: nat, ds: seq<nat>)
    ensures FromHigh(b, Reversed(ds)) == FromLow(b, ds)
  {
    if ds != [] {
      ReversedValue(b, ds[1..]);
      var r := Reversed(ds);
      assert r[..|r| - 1] == Reversed(ds[1..]);
    }
  }

  lemma {:induction false} PowerAdd(b: nat, m: nat, n: nat)
    ensures Power(b, m + n) == Power(b, m) * Power(b, n)
  {
    if m > 0 && b > 0 {
      PowerAdd(b, m - 1, n);
      Nest(b, Power(b, m - 1), Power(b, n));
    }
  }

  /** More digits above. */
  lemma {:induction false} FromLowAppend(b: nat, ds: seq<nat>, es: seq<nat>)
    requires b > 0
    ensures FromLow(b, ds + es) == FromLow(b, ds) + Power(b, |ds|) * FromLow(b, es)
  {
    if ds == [] {
      assert ds + es == es;
    } else {
      FromLowAppend(b, ds[1..], es);
      assert (ds + es)[1..] == ds[1..] + es;
      AppendNumbers(b, ds[0], FromLow(b, ds[1..]), Power(b, |ds| - 1), FromLow(b, es), FromLow(b, ds[1..] + es));
    }
  }

  lemma AppendNumbers(b: int, d: int, f: int, p: int, g: int, fg: int)
    requires fg == f + p * g
    ensures d + b * fg == (d + b * f) + (b * p) * g
  {
    Nest(b, p, g);
    Sum(f, p * g, b);
    Commute(b, f);
    Commute(b, p * g);
    Commute(b, f + p * g);
  }

  /** One digit below a number that is smaller than `p`. */
  lemma PlaceBound(b: nat, d: nat, f: nat, p: nat)
    requires d < b && f < p
    ensures d + b * f < b * p
  {
    MulLe(f + 1, p, b);
    Sum(f, 1, b);
    Commute(b, f);
    Commute(b, p);
  }

  lemma {:induction false} FromLowBound(b: nat, ds: seq<nat>)
    requires b > 0 && AreDigits(b, ds)
    ensures FromLow(b, ds) < Power(b, |ds|)
  {
    if ds != [] {
      FromLowBound(b, ds[1..]);
      PlaceBound(b, ds[0], FromLow(b, ds[1..]), Power(b, |ds| - 1));
    }
  }

  lemma {:induction false} FromHighAppend(b: nat, ds: seq<nat>, es: seq<nat>)
    requires b > 0
    ensures FromHigh(b, ds + es) == FromHigh(b, ds) * Power(b, |es|) + FromHigh(b, es)
  {
    if es == [] {
      assert ds + es == ds;
    } else {
      var n := |es| - 1;
      FromHighAppend(b, ds, es[..n]);
      assert (ds + es)[..|ds + es| - 1] == ds + es[..n];
      Nest(FromHigh(b, ds), Power(b, n), b);
      Sum(FromHigh(b, ds) * Power(b, n), FromHigh(b, es[..n]), b);
    }
  }

  lemma {:induction false} FromHighBound(b: nat, ds: seq<nat>)
    requires b > 0 && AreDigits(b, ds)
    ensures FromHigh(b, ds) < Power(b, |ds|)
  {
    if ds != [] {
      var n := |ds| - 1;
      FromHighBound(b, ds[..n]);
      PlaceBound(b, ds[n], FromHigh(b, ds[..n]), Power(b, n));
      Commute(b, FromHigh(b, ds[..n]));
    }
  }

  lemma FromHighOne(b: nat, d: nat)
    ensures FromHigh(b, [d]) == d
  {
    assert [d][..0] == [] && FromHigh(b, []) == 0;
  }
}
