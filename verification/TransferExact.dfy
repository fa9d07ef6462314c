/** Exactly when comparisons survive the transfer of an exclusive or or of a left shift (src/evaluate.c):
    unlike a right shift, these operations do not keep the order of all values. */
module TransferExact {
  import opened Numbers
  import opened Bits
  import opened BinopTransfer

  // ------------------------------------------------------------------ exclusive or, values

  lemma XorMoves(x: nat, k: nat, v: nat, l: nat)
    requires k < Pow2(l) && v < Pow2(l)
    ensures Bitwise(Xor, x, k) == v <==> x == Folded(OpXor, v, k, l)
  {
    hide Pow2, Bitwise, Bit;
    XorTwice(x, k);
    XorTwice(v, k);
    XorFolded(v, k, l);
  }

  // ------------------------------------------------------------------ exclusive or, ranges

  /** `k` has no bit at or below the highest bit in which `a` and `b` differ. */
  predicate Aligned(a: nat, b: nat, k: nat)
    decreases a + b
  {
    a == b || (k % 2 == 0 && Aligned(a / 2, b / 2, k / 2))
  }

  /** If `a` and `b` differ in bit `i`, then `k` does not have the bit `j` at or below it. */
  ghost predicate Spared(a: nat, b: nat, k: nat, i: nat, j: nat) {
    j <= i && Bit(a, i) != Bit(b, i) ==> !Bit(k, j)
  }

  lemma {:induction false} AlignedBits(a: nat, b: nat, k: nat)
    ensures Aligned(a, b, k) <==> forall i: nat, j: nat :: Spared(a, b, k, i, j)
    decreases a + b
  {
    if a != b {
      AlignedBits(a / 2, b / 2, k / 2);
      if Aligned(a, b, k) {
        forall i: nat, j: nat ensures Spared(a, b, k, i, j) {
          if 0 < j <= i { assert Spared(a / 2, b / 2, k / 2, i - 1, j - 1); }
        }
      }
      if forall i: nat, j: nat :: Spared(a, b, k, i, j) {
        var i := DifferentBit(a, b);
        assert Spared(a, b, k, i, 0);
        forall i: nat, j: nat ensures Spared(a / 2, b / 2, k / 2, i, j) {
          assert Spared(a, b, k, i + 1, j + 1);
        }
      }
    }
  }

  lemma DifferentBit(a: nat, b: nat) returns (i: nat)
    requires a != b
    ensures Bit(a, i) != Bit(b, i)
  {
    if forall i: nat :: Bit(a, i) == Bit(b, i) {
      SameBits(a, b);
    }
    i :| Bit(a, i) != Bit(b, i);
  }

  /** `x` exclusive-ored into the range from `a` to `b`, and `x` in the range between the bounds exclusive-ored. */
  ghost predicate KeepsRange(a: nat, b: nat, k: nat, x: nat) {
    a <= Bitwise(Xor, x, k) <= b <==> Bitwise(Xor, a, k) <= x <= Bitwise(Xor, b, k)
  }

  lemma XorEqual(x: int, y: int, k: int)
    ensures Bitwise(Xor, x, k) == y <==> x == Bitwise(Xor, y, k)
  {
    hide Bitwise;
    XorTwice(x, k);
    XorTwice(y, k);
  }

  lemma XorHalves(x: int, k: int)
    ensures k % 2 == 0 ==> Bitwise(Xor, x, k) == 2 * Bitwise(Xor, x / 2, k / 2) + x % 2
    ensures k % 2 == 1 ==> Bitwise(Xor, x, k) == 2 * Bitwise(Xor, x / 2, k / 2) + 1 - x % 2
  {
    BitwiseStep(Xor, x, k);
  }

  lemma {:induction false} RangeKept(a: nat, b: nat, k: nat, x: nat)
    requires a <= b && Aligned(a, b, k)
    ensures KeepsRange(a, b, k, x)
    decreases a + b
  {
    XorEqual(x, a, k);
    if a != b {
      RangeKept(a / 2, b / 2, k / 2, x / 2);
      hide Bitwise, Aligned;
      XorHalves(x, k);
      XorHalves(a, k);
      XorHalves(b, k);
      XorEqual(x / 2, a / 2, k / 2);
      XorEqual(x / 2, b / 2, k / 2);
    }
  }

  lemma {:induction false} RangeBroken(a: nat, b: nat, k: nat, l: nat) returns (x: nat)
    requires a <= b < Pow2(l) && k < Pow2(l) && !Aligned(a, b, k)
    ensures x < Pow2(l) && !KeepsRange(a, b, k, x)
    decreases a + b
  {
    if k % 2 == 1 {
      x := OddBreaks(a, b, k, l);
    } else {
      var x' := RangeBroken(a / 2, b / 2, k / 2, l - 1);
      assert Pow2(l) == 2 * Pow2(l - 1);
      hide Pow2;
      x := EvenBreaks(a, b, k, x');
    }
  }

  /** The last bit of the value can be chosen so that the ranges are still told apart. */
  lemma EvenBreaks(a: nat, b: nat, k: nat, x': nat) returns (x: nat)
    requires a <= b && a / 2 != b / 2 && k % 2 == 0 && !KeepsRange(a / 2, b / 2, k / 2, x')
    ensures x / 2 == x' && !KeepsRange(a, b, k, x)
  {
    var y := Bitwise(Xor, x', k / 2);
    var c := if y == a / 2 then a % 2 else if y == b / 2 then b % 2 else 0;
    x := 2 * x' + c;
    hide Bitwise;
    XorHalves(x, k);
    XorHalves(a, k);
    XorHalves(b, k);
    XorEqual(x', a / 2, k / 2);
    XorEqual(x', b / 2, k / 2);
    LastBits(a, b, x', y, c, Bitwise(Xor, a / 2, k / 2), Bitwise(Xor, b / 2, k / 2));
  }

  lemma LastBits(a: nat, b: nat, x: nat, y: int, c: nat, xa: int, xb: int)
    requires a <= b && a / 2 != b / 2 && (y == a / 2 <==> x == xa) && (y == b / 2 <==> x == xb)
    requires !(a / 2 <= y <= b / 2 <==> xa <= x <= xb)
    requires c == if y == a / 2 then a % 2 else if y == b / 2 then b % 2 else 0
    ensures !(a <= 2 * y + c <= b <==> 2 * xa + a % 2 <= 2 * x + c <= 2 * xb + b % 2)
  {
  }

  /** An odd `k` swaps neighbours; one of the bounds, or the value next to one, tells the two ranges apart. */
  lemma OddBreaks(a: nat, b: nat, k: nat, l: nat) returns (x: nat)
    requires a < b < Pow2(l) && k < Pow2(l) && k % 2 == 1
    ensures x < Pow2(l) && !KeepsRange(a, b, k, x)
  {
    var xa, xb := Bitwise(Xor, a, k), Bitwise(Xor, b, k);
    var y := if a % 2 == 0 then a + 1 else if b % 2 == 1 then b - 1 else if xa > xb then a else a - 1;
    hide Bitwise, Pow2;
    BelowPow2(Xor, y, k, l);
    XorHalves(a, k);
    XorHalves(b, k);
    XorHalves(y, k);
    Neighbours(a, b, y, Bitwise(Xor, a / 2, k / 2), Bitwise(Xor, b / 2, k / 2), Bitwise(Xor, y / 2, k / 2), xa, xb);
    XorTwice(y, k);
    x := Bitwise(Xor, y, k);
  }

  lemma Neighbours(a: nat, b: nat, y: nat, ha: int, hb: int, hy: int, xa: int, xb: int)
    requires a < b && xa == 2 * ha + 1 - a % 2 && xb == 2 * hb + 1 - b % 2
    requires (y / 2 == a / 2 ==> hy == ha) && (y / 2 == b / 2 ==> hy == hb)
    requires y == if a % 2 == 0 then a + 1 else if b % 2 == 1 then b - 1 else if xa > xb then a else a - 1
    ensures !(a <= y <= b <==> xa <= 2 * hy + 1 - y % 2 <= xb)
  {
  }

  /** What an exclusive or on the packet side becomes on the constant side. */
  function XorOf(k: nat, l: nat): Left {
    Binop(OpXor, Load(l), k, l)
  }

  /** The comparison of `x ^ k` with a constant has the same answer after the transfer, for every `x` of `l` bits. */
  ghost predicate XorSurvives(rel: Relation, k: nat, l: nat, c: Const) {
    SameAnswer(rel, XorOf(k, l), c, Load(l), Moved(OpXor, k, l, c))
  }

  lemma XorSurvivesIf(rel: Relation, k: nat, l: nat, c: Const)
    ensures TransferredTo(XorOf(k, l), c, l, Load(l), Moved(OpXor, k, l, c))
    ensures XorSurvives(rel, k, l, c) <==>
            forall x: nat :: x < Pow2(l) ==>
              (Holds(rel, Bitwise(Xor, x, k), c) <==> Holds(rel, x, Moved(OpXor, k, l, c)))
  {
    hide Holds, Moved, Bitwise, Pow2;
    forall x: nat ensures Eval(XorOf(k, l), x) == Bitwise(Xor, x, k) && (Fits(XorOf(k, l), x) <==> x < Pow2(l)) {
      assert Eval(Load(l), x) == x;
    }
    if XorSurvives(rel, k, l, c) {
      forall x: nat | x < Pow2(l)
        ensures Holds(rel, Bitwise(Xor, x, k), c) <==> Holds(rel, x, Moved(OpXor, k, l, c)) {
        assert Fits(XorOf(k, l), x);
      }
    }
  }

  function RangeOf(a: nat, b: nat, l: nat): Const {
    Range(Value(a, l), Value(b, l))
  }

  lemma RangeHolds(rel: Relation, x: nat, a: nat, b: nat, k: nat, l: nat)
    requires a < Pow2(l) && b < Pow2(l) && k < Pow2(l) && (rel == Eq || rel == Neq)
    ensures KeepsRange(a, b, k, x)
            <==> (Holds(rel, Bitwise(Xor, x, k), RangeOf(a, b, l))
                  <==> Holds(rel, x, Moved(OpXor, k, l, RangeOf(a, b, l))))
  {
    XorFolded(a, k, l);
    XorFolded(b, k, l);
    hide Bitwise, Pow2, Folded;
  }

  /** A range survives iff its bounds are equal or `k` has no bit at or below the highest one in which they differ. */
  lemma XorRangeIff(rel: Relation, a: nat, b: nat, k: nat, l: nat)
    requires a <= b < Pow2(l) && k < Pow2(l) && (rel == Eq || rel == Neq)
    ensures Evaluated(RangeOf(a, b, l), l)
    ensures XorSurvives(rel, k, l, RangeOf(a, b, l)) <==> Aligned(a, b, k)
  {
    var c := RangeOf(a, b, l);
    XorSurvivesIf(rel, k, l, c);
    if Aligned(a, b, k) {
      forall x: nat | x < Pow2(l)
        ensures Holds(rel, Bitwise(Xor, x, k), c) <==> Holds(rel, x, Moved(OpXor, k, l, c)) {
        RangeKept(a, b, k, x);
        RangeHolds(rel, x, a, b, k, l);
      }
    } else {
      var x := RangeBroken(a, b, k, l);
      RangeHolds(rel, x, a, b, k, l);
    }
  }

  /** All ranges survive iff there is nothing to transfer. */
  lemma XorRangesIff(k: nat, l: nat)
    requires k < Pow2(l)
    ensures (forall a: nat, b: nat :: a <= b < Pow2(l) ==> XorSurvives(Eq, k, l, RangeOf(a, b, l))) <==> k == 0
  {
    if k == 0 {
      forall a: nat, b: nat | a <= b < Pow2(l) ensures XorSurvives(Eq, k, l, RangeOf(a, b, l)) {
        XorRangeIff(Eq, a, b, k, l);
        ZeroAligned(a, b);
      }
    } else {
      XorRangeIff(Eq, 0, k, k, l);
      NeverAligned(k);
    }
  }

  lemma {:induction false} ZeroAligned(a: nat, b: nat)
    ensures Aligned(a, b, 0)
    decreases a + b
  {
    if a != b { ZeroAligned(a / 2, b / 2); }
  }

  lemma {:induction false} NeverAligned(k: nat)
    requires k > 0
    ensures !Aligned(0, k, k)
  {
    if k % 2 == 0 { NeverAligned(k / 2); }
  }

  // ------------------------------------------------------------------ exclusive or, order

  predicate IsOrder(rel: Relation) {
    rel != Eq && rel != Neq
  }

  /** An ordered comparison, with whatever value, survives iff there is nothing to transfer: otherwise the value
      itself is compared differently. */
  lemma XorOrderIff(rel: Relation, v: nat, k: nat, l: nat)
    requires IsOrder(rel) && v < Pow2(l) && k < Pow2(l)
    ensures Evaluated(Value(v, l), l)
    ensures XorSurvives(rel, k, l, Value(v, l)) <==> k == 0
  {
    var c := Value(v, l);
    XorSurvivesIf(rel, k, l, c);
    XorFolded(v, k, l);
    if k == 0 {
      forall x: nat | x < Pow2(l)
        ensures Holds(rel, Bitwise(Xor, x, k), c) <==> Holds(rel, x, Moved(OpXor, k, l, c)) {
        XorZero(x);
        XorZero(v);
      }
    } else {
      XorChanges(v, k);
      assert Holds(rel, Bitwise(Xor, v, k), c) <==> !Holds(rel, v, Moved(OpXor, k, l, c));
    }
  }

  lemma {:induction false} XorZero(x: nat)
    ensures Bitwise(Xor, x, 0) == x
  {
    if x > 0 { XorZero(x / 2); }
  }

  lemma XorChanges(v: nat, k: nat)
    requires k != 0
    ensures Bitwise(Xor, v, k) != v
  {
    if Bitwise(Xor, v, k) == v {
      var i := DifferentBit(k, 0);
      hide Bitwise, Bit;
      BitwiseBit(Xor, v, k, i);
      SignBit(0, i);
    }
  }

  // ------------------------------------------------------------------ exclusive or, any constant

  /** Constants in which all ranges survive. */
  ghost predicate Unbroken(k: nat, c: Const) {
    match c
    case Value(_, _) => true
    case Range(a, b) => a.Value? && b.Value? && a.v <= b.v && Aligned(a.v, b.v, k)
    case SetElem(key) => Unbroken(k, key)
    case Mapping(key) => Unbroken(k, key)
    case ConstSet(elems) => forall i :: 0 <= i < |elems| ==> Unbroken(k, elems[i])
    case NamedSet => false
  }

  lemma {:induction false} XorMember(x: nat, k: nat, l: nat, c: Const)
    requires Evaluated(c, l) && Unbroken(k, c) && k < Pow2(l)
    ensures Member(Bitwise(Xor, x, k), c) <==> Member(x, Moved(OpXor, k, l, c))
  {
    match c
    case Value(v, _) => XorMoves(x, k, v, l);
    case Range(a, b) =>
      RangeKept(a.v, b.v, k, x);
      XorFolded(a.v, k, l);
      XorFolded(b.v, k, l);
      hide Bitwise, Pow2, Folded;
    case SetElem(key) => XorMember(x, k, l, key);
    case Mapping(key) => XorMember(x, k, l, key);
    case ConstSet(elems) =>
      var y, moved := Bitwise(Xor, x, k), MovedAll(OpXor, k, l, elems);
      assert Moved(OpXor, k, l, c) == ConstSet(moved);
      hide Moved, MovedAll, Bitwise;
      forall i | 0 <= i < |elems| ensures Member(y, elems[i]) <==> Member(x, moved[i]) {
        XorMember(x, k, l, elems[i]);
      }
  }

  /** Comparisons for equality with values, with unbroken ranges and with sets of these have the same answer. */
  lemma XorTransferPreserves(left: Left, right: Const, l: nat, left': Left, right': Const)
    requires left.Binop? && left.op == OpXor && left.right < Pow2(l) && Evaluated(right, l)
             && Unbroken(left.right, right)
    requires TransferredTo(left, right, l, left', right')
    ensures SameAnswer(Eq, left, right, left', right') && SameAnswer(Neq, left, right, left', right')
  {
    forall w: nat | Fits(left, w) ensures Member(Eval(left, w), right) <==> Member(Eval(left', w), right') {
      XorMember(Eval(left.left, w), left.right, l, right);
    }
  }

  /** A two-bit key: `x ^ 1` in 1-2 and below 2. */
  lemma XorRangeFails()
    ensures !XorSurvives(Eq, 1, 2, RangeOf(1, 2, 2)) && !XorSurvives(Lt, 1, 2, Value(2, 2))
  {
    assert Pow2(2) == 4;
    XorRangeIff(Eq, 1, 2, 1, 2);
    XorOrderIff(Lt, 2, 1, 2);
  }

  // ------------------------------------------------------------------ left shift

  /** A multiple of 2^n compares with a shifted value as its quotient does with the value. */
  lemma UnshiftedOrder(x: int, v: nat, n: nat, len: nat)
    requires v < Pow2(len) && v % Pow2(n) == 0
    ensures var q := Folded(OpRshift, v, n, len);
            && (x < q <==> x * Pow2(n) < v) && (x == q <==> x * Pow2(n) == v) && (q < x <==> v < x * Pow2(n))
  {
    FoldRight(v, n, len);
    hide Pow2, Folded;
    Euclid(v, Pow2(n));
    ScaledOrder(x, v / Pow2(n), Pow2(n));
    ScaledOrder(v / Pow2(n), x, Pow2(n));
  }

  lemma {:induction false} UnshiftedMember(x: int, n: nat, len: nat, c: Const)
    requires Evaluated(c, len) && LowBitsZero(c, n)
    ensures Member(x * Pow2(n), c) <==> Member(x, Moved(OpLshift, n, len, c))
  {
    match c
    case Value(v, _) => UnshiftedOrder(x, v, n, len);
    case Range(a, b) =>
      UnshiftedOrder(x, a.v, n, len);
      UnshiftedOrder(x, b.v, n, len);
    case SetElem(key) => UnshiftedMember(x, n, len, key);
    case Mapping(key) => UnshiftedMember(x, n, len, key);
    case ConstSet(elems) =>
      var y, moved := x * Pow2(n), MovedAll(OpLshift, n, len, elems);
      assert Moved(OpLshift, n, len, c) == ConstSet(moved);
      hide Moved, MovedAll;
      forall i | 0 <= i < |elems| ensures Member(y, elems[i]) <==> Member(x, moved[i]) {
        UnshiftedMember(x, n, len, elems[i]);
      }
    case NamedSet =>
  }

  lemma UnshiftedHolds(rel: Relation, x: int, n: nat, len: nat, c: Const)
    requires Evaluated(c, len) && LowBitsZero(c, n)
    ensures Holds(rel, x * Pow2(n), c) <==> Holds(rel, x, Moved(OpLshift, n, len, c))
  {
    UnshiftedMember(x, n, len, c);
    if c.Value? { UnshiftedOrder(x, c.v, n, len); }
  }

  /** The constants that binop_transfer moves a left shift to. */
  ghost predicate Accepted(c: Const, n: nat, len: nat) {
    Evaluated(c, len) && LowBitsZero(c, n) && CanFold(OpLshift, n, len, c)
  }

  /** A field of `width` bits shifted left by `n` in an expression of `len` bits. */
  function ShiftOf(width: nat, n: nat, len: nat): Left {
    Binop(OpLshift, Load(width), n, len)
  }

  ghost predicate ShiftSurvives(rel: Relation, width: nat, n: nat, len: nat, c: Const) {
    SameAnswer(rel, ShiftOf(width, n, len), c, Load(width), Moved(OpLshift, n, len, c))
  }

  lemma ShiftValue(width: nat, n: nat, len: nat, w: nat)
    ensures Eval(ShiftOf(width, n, len), w) == (w * Pow2(n)) % Pow2(len)
    ensures Fits(ShiftOf(width, n, len), w) <==> w < Pow2(width)
    ensures forall c :: TransferredTo(ShiftOf(width, n, len), c, len, Load(width), Moved(OpLshift, n, len, c))
  {
    assert Eval(Load(width), w) == w;
  }

  /** No bit is dropped. */
  lemma WideEnough(w: nat, width: nat, n: nat, len: nat)
    requires w < Pow2(width) && width + n <= len
    ensures (w * Pow2(n)) % Pow2(len) == w * Pow2(n)
  {
    hide Pow2;
    Pow2Add(width, n);
    Pow2Grows(width + n, len);
    MulLe(0, w, Pow2(n));
    MulLe(w + 1, Pow2(width), Pow2(n));
    Sum(w, 1, Pow2(n));
    DivUnique(w * Pow2(n), 0, w * Pow2(n), Pow2(len));
  }

  /** A left shift: every comparison that is transferred has the same answer iff the expression has room for
      the field and the shift. */
  lemma LeftShiftIff(width: nat, n: nat, len: nat)
    requires n < len
    ensures (forall rel, c :: Accepted(c, n, len) ==> ShiftSurvives(rel, width, n, len, c)) <==> width + n <= len
  {
    if width + n <= len {
      forall rel, c | Accepted(c, n, len) ensures ShiftSurvives(rel, width, n, len, c) {
        WideShiftSurvives(rel, width, n, len, c);
      }
    } else {
      NarrowShiftFails(width, n, len);
    }
  }

  lemma WideShiftSurvives(rel: Relation, width: nat, n: nat, len: nat, c: Const)
    requires width + n <= len && Accepted(c, n, len)
    ensures ShiftSurvives(rel, width, n, len, c)
  {
    var left, c' := ShiftOf(width, n, len), Moved(OpLshift, n, len, c);
    hide Holds, Moved, Pow2;
    forall w: nat | Fits(left, w) ensures Holds(rel, Eval(left, w), c) <==> Holds(rel, Eval(Load(width), w), c') {
      ShiftValue(width, n, len, w);
      WideEnough(w, width, n, len);
      UnshiftedHolds(rel, w, n, len, c);
    }
  }

  /** Otherwise a field with only the first dropped bit set is taken for zero before the transfer, and not after it. */
  lemma NarrowShiftFails(width: nat, n: nat, len: nat)
    requires n < len < width + n
    ensures Accepted(Value(0, len), n, len) && !ShiftSurvives(Eq, width, n, len, Value(0, len))
  {
    var w, zero := Pow2(len - n), Value(0, len);
    ZeroAccepted(n, len);
    FirstDropped(width, n, len);
    ShiftValue(width, n, len, w);
    hide Pow2, Folded, Accepted, Fits;
    assert Holds(Eq, Eval(ShiftOf(width, n, len), w), zero);
    assert Eval(Load(width), w) == w;
    assert !Holds(Eq, w, Moved(OpLshift, n, len, zero));
  }

  lemma ZeroAccepted(n: nat, len: nat)
    requires n < len
    ensures Accepted(Value(0, len), n, len) && Folded(OpRshift, 0, n, len) == 0
  {
    PowerAbove(n);
    Pow2Grows(n, len);
    FoldRight(0, n, len);
    DivUnique(0, 0, 0, Pow2(n));
    hide Pow2, Folded;
  }

  lemma FirstDropped(width: nat, n: nat, len: nat)
    requires n < len < width + n
    ensures 0 < Pow2(len - n) < Pow2(width) && (Pow2(len - n) * Pow2(n)) % Pow2(len) == 0
  {
    hide Pow2;
    Pow2Grows(len - n, width);
    Pow2Add(len - n, n);
    DivUnique(Pow2(len - n) * Pow2(n), 1, 0, Pow2(len));
  }

  /** expr_evaluate_shift gives the expression the width of the field, so that no shift survives for all constants. */
  lemma EvaluatedShiftFails(width: nat, n: nat)
    requires 0 < n < width
    ensures Accepted(Value(0, width), n, width) && !ShiftSurvives(Eq, width, n, width, Value(0, width))
  {
    NarrowShiftFails(width, n, width);
  }
}
