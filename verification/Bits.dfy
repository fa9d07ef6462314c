/** Powers of two and bitwise operations on integers in infinite two's complement:
    bit `i` of a negative number is bit `i` of floor(x / 2^i), as in the GMP manual. */
module Bits {
  import opened Numbers

  function Pow2(n: nat): (p: nat)
    ensures p > 0
    ensures n > 0 ==> p % 2 == 0
  {
    if n == 0 then 1 else 2 * Pow2(n - 1)
  }

  function Bit(x: int, i: nat): bool
    decreases i
  {
    if i == 0 then x % 2 == 1 else Bit(x / 2, i - 1)
  }

  datatype Op = And | Or | Xor {
    function Apply(a: bool, b: bool): bool {
      match this
      case And => a && b
      case Or => a || b
      case Xor => a != b
    }
  }

  /** How far `x` is from the two numbers whose bits are all equal, 0 and -1. */
  function Span(x: int): nat {
    if x >= 0 then x else -x - 1
  }

  function BitOf(b: bool): int {
    if b then 1 else 0
  }

  function Bitwise(op: Op, x: int, y: int): int
    decreases Span(x) + Span(y)
  {
    if Span(x) + Span(y) == 0 then -BitOf(op.Apply(x < 0, y < 0))
    else 2 * Bitwise(op, x / 2, y / 2) + BitOf(op.Apply(x % 2 == 1, y % 2 == 1))
  }

  /** The operation works on each bit separately. */
  lemma {:induction false} BitwiseBit(op: Op, x: int, y: int, i: nat)
    ensures Bit(Bitwise(op, x, y), i) == op.Apply(Bit(x, i), Bit(y, i))
    decreases i
  {
    if Span(x) + Span(y) == 0 {
      SignBit(x, i);
      SignBit(y, i);
      SignBit(Bitwise(op, x, y), i);
    } else {
      BitwiseHalves(op, x, y);
      if i > 0 { BitwiseBit(op, x / 2, y / 2, i - 1); }
    }
  }

  lemma BitwiseHalves(op: Op, x: int, y: int)
    requires Span(x) + Span(y) > 0
    ensures Bitwise(op, x, y) / 2 == Bitwise(op, x / 2, y / 2)
    ensures Bitwise(op, x, y) % 2 == 1 <==> op.Apply(x % 2 == 1, y % 2 == 1)
  {
  }

  lemma {:induction false} SignBit(x: int, i: nat)
    requires -1 <= x <= 0
    ensures Bit(x, i) == (x < 0)
  {
    if i > 0 { SignBit(x / 2, i - 1); }
  }

  /** A number is determined by its bits. */
  lemma {:induction false} SameBits(x: int, y: int)
    requires forall i: nat :: Bit(x, i) == Bit(y, i)
    ensures x == y
    decreases Span(x) + Span(y)
  {
    assert Bit(x, 0) == Bit(y, 0);
    if Span(x) + Span(y) == 0 {
    } else {
      forall i: nat ensures Bit(x / 2, i) == Bit(y / 2, i) {
        assert Bit(x, i + 1) == Bit(y, i + 1);
      }
      SameBits(x / 2, y / 2);
    }
  }

  // ------------------------------------------------------------------ powers of two

  lemma Pow2One()
    ensures Pow2(0) == 1
  {
  }

  lemma Pow2Step(n: nat)
    requires n > 0
    ensures Pow2(n) == 2 * Pow2(n - 1)
  {
  }

  lemma BitOfDouble(x: int, b: bool, i: nat)
    ensures Bit(2 * x + BitOf(b), i) == if i == 0 then b else Bit(x, i - 1)
  {
  }

  lemma {:induction false} Pow2Add(m: nat, n: nat)
    ensures Pow2(m + n) == Pow2(m) * Pow2(n)
  {
    if m > 0 { Pow2Add(m - 1, n); }
  }

  lemma {:induction false} Pow2Grows(m: nat, n: nat)
    requires m <= n
    ensures Pow2(m) <= Pow2(n)
    ensures m < n ==> 2 * Pow2(m) <= Pow2(n)
  {
    if m < n { Pow2Grows(m, n - 1); }
  }

  /** A right shift moves the bits down. */
  lemma {:induction false} BitShift(x: int, n: nat, i: nat)
    ensures Bit(x / Pow2(n), i) == Bit(x, n + i)
    decreases n
  {
    if n > 0 {
      HalveFirst(x, Pow2(n - 1));
      BitShift(x / 2, n - 1, i);
    }
  }

  lemma HalveFirst(x: int, p: nat)
    requires p > 0
    ensures x / (2 * p) == (x / 2) / p
  {
    var h := x / 2;
    var q, r := h / p, h % p;
    assert h == q * p + r;
    var s := 2 * r + x % 2;
    assert x == q * (2 * p) + s;
    DivUnique(x, q, s, 2 * p);
  }

  /** A left shift moves the bits up and brings in zeros. */
  lemma {:induction false} BitLeft(x: int, n: nat, i: nat)
    ensures Bit(x * Pow2(n), i) == (i >= n && Bit(x, i - n))
    decreases n
  {
    if n > 0 {
      assert x * Pow2(n) == 2 * (x * Pow2(n - 1));
      if i > 0 { BitLeft(x, n - 1, i - 1); }
    }
  }

  /** Reducing modulo 2^n keeps the low n bits. */
  lemma {:induction false} BitMod(x: int, n: nat, i: nat)
    ensures Bit(x % Pow2(n), i) == (i < n && Bit(x, i))
    decreases n
  {
    hide Pow2;
    if n == 0 {
      Pow2One();
      SignBit(0, i);
    } else {
      Pow2Step(n);
      ModHalves(x, Pow2(n - 1));
      BitOfDouble((x / 2) % Pow2(n - 1), x % 2 == 1, i);
      if i > 0 { BitMod(x / 2, n - 1, i - 1); }
    }
  }

  lemma ModHalves(x: int, p: nat)
    requires p > 0
    ensures x % (2 * p) == 2 * ((x / 2) % p) + x % 2
  {
    var h := x / 2;
    var q, r := h / p, h % p;
    assert h == q * p + r;
    DivUnique(x, q, 2 * r + x % 2, 2 * p);
  }

  /** A number below 2^n has no bits from n on. */
  lemma {:induction false} BitHigh(x: int, n: nat, i: nat)
    requires 0 <= x < Pow2(n) && i >= n
    ensures !Bit(x, i)
    decreases n
  {
    if n == 0 {
      SignBit(0, i);
    } else {
      BitHigh(x / 2, n - 1, i - 1);
    }
  }

  /** The mask of `n` ones (mpz_bitmask). */
  function Mask(n: nat): nat {
    Pow2(n) - 1
  }

  lemma {:induction false} BitMask(n: nat, i: nat)
    ensures Bit(Mask(n), i) == (i < n)
  {
    if n == 0 {
      SignBit(0, i);
    } else {
      assert Mask(n) == 2 * Mask(n - 1) + 1;
      if i > 0 { BitMask(n - 1, i - 1); }
    }
  }

  lemma AndMask(x: int, n: nat)
    ensures Bitwise(And, x, Mask(n)) == x % Pow2(n)
  {
    forall i: nat ensures Bit(Bitwise(And, x, Mask(n)), i) == Bit(x % Pow2(n), i) {
      BitwiseBit(And, x, Mask(n), i);
      BitMask(n, i);
      BitMod(x, n, i);
    }
    SameBits(Bitwise(And, x, Mask(n)), x % Pow2(n));
  }

  /** Numbers without a common bit: or, exclusive or and sum are the same. */
  lemma {:induction false} DisjointSum(x: nat, y: nat)
    requires Bitwise(And, x, y) == 0
    ensures Bitwise(Or, x, y) == x + y == Bitwise(Xor, x, y)
    decreases x + y
  {
    if x + y > 0 {
      assert 2 * Bitwise(And, x / 2, y / 2) + BitOf(And.Apply(x % 2 == 1, y % 2 == 1)) == 0;
      AndNat(x / 2, y / 2);
      DisjointSum(x / 2, y / 2);
    }
  }

  lemma {:induction false} AndNat(x: nat, y: nat)
    ensures 0 <= Bitwise(And, x, y) <= x
    decreases x + y
  {
    if x + y > 0 { AndNat(x / 2, y / 2); }
  }

  /** Or adds at most what the sum does, and as much only if there is no common bit. */
  lemma {:induction false} OrPlusAnd(x: nat, y: nat)
    ensures Bitwise(Or, x, y) + Bitwise(And, x, y) == x + y
    decreases x + y
  {
    if x + y > 0 { OrPlusAnd(x / 2, y / 2); }
  }

  lemma {:induction false} Commutes(op: Op, x: int, y: int)
    ensures Bitwise(op, x, y) == Bitwise(op, y, x)
    decreases Span(x) + Span(y)
  {
    if Span(x) + Span(y) > 0 { Commutes(op, x / 2, y / 2); }
  }

  lemma {:induction false} BelowPow2(op: Op, x: nat, y: nat, n: nat)
    requires x < Pow2(n) && y < Pow2(n)
    ensures 0 <= Bitwise(op, x, y) < Pow2(n)
  {
    if n == 0 {
    } else if x + y > 0 {
      BelowPow2(op, x / 2, y / 2, n - 1);
    }
  }

  /** Numbers without a common bit: or-ing a small number into the free low bits adds it. */
  lemma OrLow(x: nat, y: nat, n: nat)
    requires y < Pow2(n)
    ensures Bitwise(Or, x * Pow2(n), y) == x * Pow2(n) + y == Bitwise(Or, y, x * Pow2(n))
    ensures Bitwise(Xor, x * Pow2(n), y) == x * Pow2(n) + y == Bitwise(Xor, y, x * Pow2(n))
  {
    var z := x * Pow2(n);
    forall i: nat ensures Bit(Bitwise(And, z, y), i) == Bit(0, i) {
      BitwiseBit(And, z, y, i);
      BitLeft(x, n, i);
      SignBit(0, i);
      if i >= n { BitHigh(y, n, i); }
    }
    SameBits(Bitwise(And, z, y), 0);
    DisjointSum(z, y);
    Commutes(Or, z, y);
    Commutes(Xor, z, y);
  }

  /** The sign of the result is that of the operation on the signs. */
  lemma {:induction false} BitwiseSign(op: Op, x: int, y: int)
    ensures Bitwise(op, x, y) < 0 <==> op.Apply(x < 0, y < 0)
    decreases Span(x) + Span(y)
  {
    if Span(x) + Span(y) > 0 { BitwiseSign(op, x / 2, y / 2); }
  }

  /** The defining equation holds at 0 and -1 too. */
  lemma BitwiseStep(op: Op, x: int, y: int)
    ensures Bitwise(op, x, y) == 2 * Bitwise(op, x / 2, y / 2) + BitOf(op.Apply(x % 2 == 1, y % 2 == 1))
  {
  }

  /** An exclusive or undoes itself. */
  lemma XorTwice(x: int, k: int)
    ensures Bitwise(Xor, Bitwise(Xor, x, k), k) == x
  {
    var y := Bitwise(Xor, Bitwise(Xor, x, k), k);
    hide Bitwise, Bit;
    forall i: nat ensures Bit(y, i) == Bit(x, i) {
      BitwiseBit(Xor, Bitwise(Xor, x, k), k, i);
      BitwiseBit(Xor, x, k, i);
    }
    SameBits(y, x);
  }

  /** Low and high bits can be worked on separately. */
  lemma {:induction false} BitwiseSplit(op: Op, a: nat, b: nat, x: int, y: int, n: nat)
    requires a < Pow2(n) && b < Pow2(n)
    ensures Bitwise(op, a + Pow2(n) * x, b + Pow2(n) * y) == Bitwise(op, a, b) + Pow2(n) * Bitwise(op, x, y)
  {
    hide Bitwise, Pow2;
    if n == 0 {
      Pow2One();
      SplitNothing(op, x, y);
    } else {
      var p := Pow2(n - 1);
      Pow2Step(n);
      BitwiseSplit(op, a / 2, b / 2, x, y, n - 1);
      SplitHalf(op, a, b, p, x, y);
      BitwiseStep(op, a, b);
      Nest(2, p, Bitwise(op, x, y));
    }
  }

  lemma SplitNothing(op: Op, x: int, y: int)
    ensures Bitwise(op, 0 + Pow2(0) * x, 0 + Pow2(0) * y) == Bitwise(op, 0, 0) + Pow2(0) * Bitwise(op, x, y)
  {
    assert Pow2(0) == 1 && Bitwise(op, 0, 0) == 0;
    hide Bitwise, Pow2;
  }

  lemma SplitHalf(op: Op, a: nat, b: nat, p: int, x: int, y: int)
    ensures Bitwise(op, a + (2 * p) * x, b + (2 * p) * y)
            == 2 * Bitwise(op, a / 2 + p * x, b / 2 + p * y) + BitOf(op.Apply(a % 2 == 1, b % 2 == 1))
  {
    hide Bitwise;
    BitwiseStep(op, a + (2 * p) * x, b + (2 * p) * y);
    HalfOf(a, p, x);
    HalfOf(b, p, y);
  }

  lemma HalfOf(a: nat, p: int, x: int)
    ensures (a + (2 * p) * x) / 2 == a / 2 + p * x && (a + (2 * p) * x) % 2 == a % 2
  {
    Nest(2, p, x);
  }
}
