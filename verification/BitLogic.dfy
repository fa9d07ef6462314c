/** Logical operations on signed numbers (mpz_and, mpz_ior and mpz_xor in src/mini-gmp.c). The numbers
    are stored as sign and magnitude; the operations are those of infinite two's complement. */
module BitLogic {
  import opened Bits
  import opened Limbs
  import opened Mpn
  import opened Mpz

  /** A limb-wise operation. */
  function LimbOp(op: Op, a: Limb, b: Limb): (r: Limb)
  {
    WordSizes();
    BelowPow2(op, a, b, 64);
    Bitwise(op, a, b)
  }

  lemma XorMask(x: Limb, c: bool)
    ensures LimbOp(Xor, x, MaskOf(c)) == if c then Not(x) else x
  {
    hide Pow2;
    WordSizes();
    if c { XorOnes(x, 64); } else { WithZero(Xor, x); }
  }

  lemma {:induction false} XorOnes(x: nat, n: nat)
    requires x < Pow2(n)
    ensures Bitwise(Xor, x, Pow2(n) - 1) == Pow2(n) - 1 - x
  {
    hide Bitwise, Pow2;
    if n > 0 {
      OnesHalves(n);
      HalfBelow(x, n);
      BitwiseStep(Xor, x, Pow2(n) - 1);
      XorOnes(x / 2, n - 1);
    } else {
      XorNothing(x);
    }
  }

  lemma OnesHalves(n: nat)
    requires n > 0
    ensures Pow2(n) == 2 * Pow2(n - 1) && (Pow2(n) - 1) / 2 == Pow2(n - 1) - 1 && (Pow2(n) - 1) % 2 == 1
  {
  }

  lemma HalfBelow(x: nat, n: nat)
    requires n > 0 && x < Pow2(n)
    ensures 0 <= x / 2 < Pow2(n - 1)
  {
  }

  lemma XorNothing(x: nat)
    requires x < Pow2(0)
    ensures Pow2(0) == 1 && Bitwise(Xor, x, 0) == 0
  {
  }

  // ------------------------------------------------------------------ two's complement, limb by limb

  /** What is left of a number when the limbs so far have been taken off its two's complement: `c` is the
      carry, `m` the magnitude from the current limb on. The same formula turns the rest of a result into
      the rest of its magnitude. */
  ghost function Rest(neg: bool, c: int, m: int): int {
    if neg then c - 1 - m else m
  }

  /** The next limb of a number in two's complement, with the carry: `(up[i] ^ ux) + uc`. */
  method NextLimb(x: Limb, neg: bool, c: Limb) returns (l: Limb, c': Limb)
    requires c <= 1 && (!neg ==> c == 0)
    ensures c' <= 1 && (!neg ==> c' == 0 && l == x) && (neg ==> l == B - 1 - x + c - B * c')
    ensures neg && c' == 1 ==> c == 1 && x == 0
  {
    XorMask(x, neg);
    hide LimbOp;
    l := Add(LimbOp(Xor, x, MaskOf(neg)), c);
    c' := Flag(l < c);
  }

  /** One limb less to go. */
  lemma RestStep(neg: bool, c: int, x: int, m: int, l: int, c': int)
    requires if neg then l == B - 1 - x + c - B * c' else l == x
    ensures Rest(neg, c, x + B * m) == l + B * Rest(neg, c', m)
  {
  }

  lemma OpStep(op: Op, a: Limb, b: Limb, x: int, y: int)
    ensures Bitwise(op, a + B * x, b + B * y) == LimbOp(op, a, b) + B * Bitwise(op, x, y)
  {
    hide Pow2, Bitwise;
    WordSizes();
    BitwiseSplit(op, a, b, x, y, 64);
  }

  /** `x` is what is left of the first number, `y` of the second. The limbs stored so far and what is left
      of the result make up its magnitude `v`. */
  ghost predicate Underway(op: Op, r: seq<Limb>, i: nat, rneg: bool, rc: int, x: int, y: int, v: int) {
    i <= |r| && V(r, 0, i) + P(i) * Rest(rneg, rc, Bitwise(op, x, y)) == v
  }

  lemma UnderwayNext(op: Op, r: seq<Limb>, i: nat, rneg: bool, rc: int, x: int, y: int, v: int,
                     ul: Limb, x': int, vl: Limb, y': int, rl: Limb, rc': int)
    requires Underway(op, r, i, rneg, rc, x, y, v) && i < |r| && x == ul + B * x' && y == vl + B * y'
    requires if rneg then rl == B - 1 - LimbOp(op, ul, vl) + rc - B * rc' else rl == LimbOp(op, ul, vl)
    ensures Underway(op, r[i := rl], i + 1, rneg, rc', x', y', v)
  {
    hide V, P, LimbOp, Bitwise;
    Stored(r, r[i := rl], 0, i, rl);
    PStep(i + 1);
    OpStep(op, ul, vl, x', y');
    var z := Bitwise(op, x', y');
    RestStep(rneg, rc, LimbOp(op, ul, vl), z, rl, rc');
    StepNumbers(P(i), rl, Rest(rneg, rc', z));
  }

  lemma StepNumbers(p: int, l: int, m: int)
    ensures p * (l + B * m) == p * l + (B * p) * m
  {
    assert p * (B * m) == (B * p) * m;
  }

  /** What is known of a carry: it is set only while all limbs of a negative number have been zero. */
  ghost predicate CarryOk(neg: bool, c: int, s: seq<Limb>, i: nat) {
    i <= |s| && 0 <= c <= 1 && (!neg ==> c == 0) && (neg && c == 1 ==> V(s, 0, i) == 0)
  }

  lemma CarryNext(neg: bool, c: int, s: seq<Limb>, i: nat, c': int)
    requires CarryOk(neg, c, s, i) && i < |s| && 0 <= c' <= 1 && (!neg ==> c' == 0)
    requires neg && c' == 1 ==> c == 1 && s[i] == 0
    ensures CarryOk(neg, c', s, i + 1)
  {
    VTop(s, 0, i);
  }

  /** At the end of a number that is not zero there is no carry left. */
  lemma CarryEnds(neg: bool, c: int, s: seq<Limb>, n: nat)
    requires CarryOk(neg, c, s, n) && Normalized(s, 0, n) && n > 0
    ensures c == 0 && Rest(neg, c, 0) == if neg then -1 else 0
  {
    NormalizedBounds(s, 0, n);
  }

  lemma RestLimb(neg: bool, c: int, s: seq<Limb>, i: nat, n: nat, l: int, c': int)
    requires i < n <= |s| && if neg then l == B - 1 - s[i] + c - B * c' else l == s[i]
    ensures Rest(neg, c, V(s, i, n - i)) == l + B * Rest(neg, c', V(s, i + 1, n - i - 1))
  {
    assert V(s, i, n - i) == s[i] + B * V(s, i + 1, n - i - 1);
    hide V;
    RestStep(neg, c, s[i], V(s, i + 1, n - i - 1), l, c');
  }

  /** The first loop: both numbers still have limbs. */
  method LowLoop(op: Op, rp: array<Limb>, up: array<Limb>, un: nat, vp: array<Limb>, vn: nat,
                 uneg: bool, vneg: bool, rneg: bool, uc0: Limb, vc0: Limb, rc0: Limb, ghost v: int)
      returns (uc: Limb, vc: Limb, rc: Limb)
    requires vn <= un <= up.Length && vn <= vp.Length && vn <= rp.Length && rc0 <= 1 && (!rneg ==> rc0 == 0)
    requires CarryOk(uneg, uc0, up[..], 0) && CarryOk(vneg, vc0, vp[..], 0)
    requires Underway(op, rp[..], 0, rneg, rc0, Rest(uneg, uc0, V(up[..], 0, un)), Rest(vneg, vc0, V(vp[..], 0, vn)), v)
    modifies rp
    ensures Outside(old(rp[..]), rp[..], 0, vn) && rc <= 1 && (!rneg ==> rc == 0)
    ensures CarryOk(uneg, uc, old(up[..]), vn) && CarryOk(vneg, vc, old(vp[..]), vn)
    ensures Underway(op, rp[..], vn, rneg, rc, Rest(uneg, uc, V(old(up[..]), vn, un - vn)), Rest(vneg, vc, 0), v)
  {
    hide V, P, Underway, CarryOk, Rest;
    ghost var R, S, T := rp[..], up[..], vp[..];
    uc, vc, rc := uc0, vc0, rc0;
    var i := 0;
    while i < vn
      invariant i <= vn && Outside(R, rp[..], 0, i) && rc <= 1 && (!rneg ==> rc == 0)
      invariant CarryOk(uneg, uc, S, i) && CarryOk(vneg, vc, T, i)
      invariant Underway(op, rp[..], i, rneg, rc, Rest(uneg, uc, V(S, i, un - i)), Rest(vneg, vc, V(T, i, vn - i)), v)
    {
      assert up[i] == S[i] && vp[i] == T[i];
      uc, vc, rc := LowLimb(op, rp, i, S, un, T, vn, up[i], vp[i], uneg, vneg, rneg, uc, vc, rc, v);
      i := i + 1;
    }
    EmptyRest(T, vn);
  }

  lemma EmptyRest(s: seq<Limb>, n: nat)
    requires n <= |s|
    ensures V(s, n, 0) == 0
  {
  }

  method LowLimb(op: Op, rp: array<Limb>, i: nat, ghost s: seq<Limb>, ghost un: nat, ghost t: seq<Limb>, ghost vn: nat,
                 x: Limb, y: Limb, uneg: bool, vneg: bool, rneg: bool, uc0: Limb, vc0: Limb, rc0: Limb, ghost v: int)
      returns (uc: Limb, vc: Limb, rc: Limb)
    requires i < un <= |s| && i < vn <= |t| && i < rp.Length && x == s[i] && y == t[i]
    requires rc0 <= 1 && (!rneg ==> rc0 == 0) && CarryOk(uneg, uc0, s, i) && CarryOk(vneg, vc0, t, i)
    requires Underway(op, rp[..], i, rneg, rc0, Rest(uneg, uc0, V(s, i, un - i)), Rest(vneg, vc0, V(t, i, vn - i)), v)
    modifies rp
    ensures Outside(old(rp[..]), rp[..], i, 1) && rc <= 1 && (!rneg ==> rc == 0)
    ensures CarryOk(uneg, uc, s, i + 1) && CarryOk(vneg, vc, t, i + 1)
    ensures Underway(op, rp[..], i + 1, rneg, rc, Rest(uneg, uc, V(s, i + 1, un - (i + 1))),
                     Rest(vneg, vc, V(t, i + 1, vn - (i + 1))), v)
  {
    var ul, vl, rl;
    hide V, Underway, Rest, LimbOp;
    ul, uc := NextLimb(x, uneg, uc0);
    vl, vc := NextLimb(y, vneg, vc0);
    rl, rc := NextLimb(LimbOp(op, ul, vl), rneg, rc0);
    CarryNext(uneg, uc0, s, i, uc);
    CarryNext(vneg, vc0, t, i, vc);
    hide CarryOk;
    RestLimb(uneg, uc0, s, i, un, ul, uc);
    RestLimb(vneg, vc0, t, i, vn, vl, vc);
    ghost var r := rp[..];
    UnderwayNext(op, r, i, rneg, rc0, Rest(uneg, uc0, V(s, i, un - i)), Rest(vneg, vc0, V(t, i, vn - i)), v,
                 ul, Rest(uneg, uc, V(s, i + 1, un - i - 1)), vl, Rest(vneg, vc, V(t, i + 1, vn - i - 1)), rl, rc);
    rp[i] := rl;
    assert rp[..] == r[i := rl];
  }

  /** The second loop: the second number continues with the limbs of its sign. */
  method HighLoop(op: Op, rp: array<Limb>, up: array<Limb>, un: nat, vn: nat, rn: nat,
                  uneg: bool, vneg: bool, rneg: bool, uc0: Limb, rc0: Limb, ghost S: seq<Limb>, ghost v: int)
      returns (uc: Limb, rc: Limb)
    requires vn <= rn <= un <= up.Length && rn <= rp.Length && rneg == op.Apply(uneg, vneg)
    requires |S| == up.Length && forall j :: vn <= j < un ==> up[j] == S[j]
    requires rc0 <= 1 && (!rneg ==> rc0 == 0) && CarryOk(uneg, uc0, S, vn)
    requires Underway(op, rp[..], vn, rneg, rc0, Rest(uneg, uc0, V(S, vn, un - vn)), if vneg then -1 else 0, v)
    modifies rp
    ensures rc <= 1 && (!rneg ==> rc == 0) && CarryOk(uneg, uc, S, rn)
    ensures Underway(op, rp[..], rn, rneg, rc, Rest(uneg, uc, V(S, rn, un - rn)), if vneg then -1 else 0, v)
  {
    ghost var R := rp[..];
    uc, rc := uc0, rc0;
    hide V, P, Underway, CarryOk, Rest;
    var i := vn;
    while i < rn
      invariant vn <= i <= rn && Outside(R, rp[..], vn, i - vn) && rc <= 1 && (!rneg ==> rc == 0)
      invariant CarryOk(uneg, uc, S, i)
      invariant Underway(op, rp[..], i, rneg, rc, Rest(uneg, uc, V(S, i, un - i)), if vneg then -1 else 0, v)
    {
      assert up[i] == S[i];
      uc, rc := HighLimb(op, rp, i, S, un, up[i], uneg, vneg, rneg, uc, rc, v);
      i := i + 1;
    }
  }

  method HighLimb(op: Op, rp: array<Limb>, i: nat, ghost s: seq<Limb>, ghost un: nat, x: Limb,
                  uneg: bool, vneg: bool, rneg: bool, uc0: Limb, rc0: Limb, ghost v: int)
      returns (uc: Limb, rc: Limb)
    requires i < un <= |s| && i < rp.Length && x == s[i] && rneg == op.Apply(uneg, vneg)
    requires rc0 <= 1 && (!rneg ==> rc0 == 0) && CarryOk(uneg, uc0, s, i)
    requires Underway(op, rp[..], i, rneg, rc0, Rest(uneg, uc0, V(s, i, un - i)), if vneg then -1 else 0, v)
    modifies rp
    ensures Outside(old(rp[..]), rp[..], i, 1) && rc <= 1 && (!rneg ==> rc == 0) && CarryOk(uneg, uc, s, i + 1)
    ensures Underway(op, rp[..], i + 1, rneg, rc, Rest(uneg, uc, V(s, i + 1, un - (i + 1))), if vneg then -1 else 0, v)
  {
    var ul, rl;
    var vx: Limb := MaskOf(vneg);
    hide V, Underway, Rest, LimbOp, MaskOf;
    ul, uc := NextLimb(x, uneg, uc0);
    rl, rc := NextHigh(op, ul, uneg, vneg, rneg, rc0);
    CarryNext(uneg, uc0, s, i, uc);
    hide CarryOk;
    RestLimb(uneg, uc0, s, i, un, ul, uc);
    ghost var r := rp[..];
    ghost var y := if vneg then -1 else 0;
    UnderwayNext(op, r, i, rneg, rc0, Rest(uneg, uc0, V(s, i, un - i)), y, v,
                 ul, Rest(uneg, uc, V(s, i + 1, un - i - 1)), vx, y, rl, rc);
    rp[i] := rl;
    assert rp[..] == r[i := rl];
  }

  /** The limb that the second loop stores; mpz_xor leaves out the two masks that cancel. */
  method NextHigh(op: Op, ul: Limb, uneg: bool, vneg: bool, rneg: bool, rc0: Limb) returns (rl: Limb, rc: Limb)
    requires rneg == op.Apply(uneg, vneg) && rc0 <= 1 && (!rneg ==> rc0 == 0)
    ensures var w := LimbOp(op, ul, MaskOf(vneg));
            && rc <= 1 && (!rneg ==> rc == 0 && rl == w) && (rneg ==> rl == B - 1 - w + rc0 - B * rc)
  {
    if op == Xor {
      XorMask(ul, vneg);
      XorMask(ul, uneg);
      hide LimbOp;
      rl := Add(LimbOp(Xor, ul, MaskOf(uneg)), rc0);
      rc := Flag(rl < rc0);
    } else {
      rl, rc := NextLimb(LimbOp(op, ul, MaskOf(vneg)), rneg, rc0);
    }
  }

  // ------------------------------------------------------------------ the three operations

  /** What is left when the loops end: only the sign of the result. */
  lemma LoopsEnd(op: Op, x: int, uneg: bool, vneg: bool)
    requires (x == if uneg then -1 else 0) || (op == And && !vneg) || (op == Or && vneg)
    ensures Bitwise(op, x, if vneg then -1 else 0) == if op.Apply(uneg, vneg) then -1 else 0
  {
    if op == And && !vneg {
      WithZero(And, x);
    } else if op == Or && vneg {
      OrOnes(x);
    }
  }

  lemma {:induction false} OrOnes(x: int)
    ensures Bitwise(Or, x, -1) == -1
    decreases Span(x)
  {
    if Span(x) > 0 { OrOnes(x / 2); }
  }

  /** The result is complete with its carry limb. */
  lemma Complete(op: Op, r: seq<Limb>, n: nat, rneg: bool, rc: int, x: int, y: int, v: int)
    requires Underway(op, r, n, rneg, rc, x, y, v) && Bitwise(op, x, y) == (if rneg then -1 else 0)
    requires 0 <= rc <= 1 && (!rneg ==> rc == 0)
    ensures V(r, 0, n) + P(n) * rc == v
  {
  }

  /** The carry limb, or normalization. */
  method Close(rp: array<Limb>, rn: nat, rc: Limb, ghost v: int) returns (n: nat)
    requires rn <= rp.Length && rc <= 1 && (rc == 1 ==> rn < rp.Length) && V(rp[..], 0, rn) + P(rn) * rc == v
    modifies rp
    ensures Magnitude(rp[..], n, v)
  {
    if rc != 0 {
      ghost var t := rp[..];
      rp[rn] := rc;
      Stored(t, rp[..], 0, rn, rc);
      n := rn + 1;
    } else {
      n := NormalizedSize(rp, 0, rn);
    }
  }

  /** The number of limbs that the loops go through. */
  function LoopLimbs(op: Op, un: nat, vn: nat, vneg: bool): nat {
    match op
    case And => if vneg then un else vn
    case Or => if vneg then vn else un
    case Xor => un
  }

  /** The magnitude and sign with which the loops start. */
  lemma LoopsStart(op: Op, r: seq<Limb>, s: seq<Limb>, un: nat, uneg: bool, t: seq<Limb>, vn: nat, vneg: bool, v: int,
                   w: int)
    requires Magnitude(s, un, Abs(v)) && Magnitude(t, vn, Abs(w)) && (uneg <==> v < 0) && (vneg <==> w < 0)
    ensures var rneg := op.Apply(uneg, vneg); var z := Bitwise(op, v, w);
            && (rneg <==> z < 0) && CarryOk(uneg, Flag(uneg), s, 0) && CarryOk(vneg, Flag(vneg), t, 0)
            && Underway(op, r, 0, rneg, Flag(rneg), Rest(uneg, Flag(uneg), V(s, 0, un)),
                        Rest(vneg, Flag(vneg), V(t, 0, vn)), Abs(z))
  {
    BitwiseSign(op, v, w);
    hide Bitwise;
    assert Rest(uneg, Flag(uneg), V(s, 0, un)) == v && Rest(vneg, Flag(vneg), V(t, 0, vn)) == w;
  }

  lemma LoopsDone(op: Op, r: seq<Limb>, rn: nat, rneg: bool, rc: int, s: seq<Limb>, un: nat, uneg: bool, uc: int,
                  vn: nat, vneg: bool, z: int)
    requires rneg == op.Apply(uneg, vneg) && 0 < un <= |s| && Normalized(s, 0, un)
             && rn == LoopLimbs(op, un, vn, vneg) <= un
    requires CarryOk(uneg, uc, s, rn) && 0 <= rc <= 1 && (!rneg ==> rc == 0)
    requires Underway(op, r, rn, rneg, rc, Rest(uneg, uc, V(s, rn, un - rn)), if vneg then -1 else 0, z)
    ensures V(r, 0, rn) + P(rn) * rc == z
  {
    var x := Rest(uneg, uc, V(s, rn, un - rn));
    if rn == un {
      CarryEnds(uneg, uc, s, un);
      EmptyRest(s, un);
    }
    LoopsEnd(op, x, uneg, vneg);
    Complete(op, r, rn, rneg, rc, x, if vneg then -1 else 0, z);
  }

  /** Both loops and the end, on the limbs. */
  method LogicLimbs(op: Op, rp: array<Limb>, up: array<Limb>, un: nat, uneg: bool, vp: array<Limb>, vn: nat, vneg: bool,
                    rn0: nat, ghost v: int, ghost w: int) returns (n: nat)
    requires 0 < vn <= un && rn0 == LoopLimbs(op, un, vn, vneg)
    requires rn0 + (if op.Apply(uneg, vneg) then 1 else 0) <= rp.Length
    requires Magnitude(up[..], un, Abs(v)) && Magnitude(vp[..], vn, Abs(w)) && (uneg <==> v < 0) && (vneg <==> w < 0)
    modifies rp
    ensures Magnitude(rp[..], n, Abs(Bitwise(op, v, w)))
  {
    ghost var S, T, z := up[..], vp[..], Abs(Bitwise(op, v, w));
    LoopsStart(op, rp[..], S, un, uneg, T, vn, vneg, v, w);
    var rneg := op.Apply(uneg, vneg);
    hide V, P, Bitwise, Underway, CarryOk, Rest;
    var uc, vc, rc := Flag(uneg), Flag(vneg), Flag(rneg);
    uc, vc, rc := LowLoop(op, rp, up, un, vp, vn, uneg, vneg, rneg, uc, vc, rc, z);
    CarryEnds(vneg, vc, T, vn);
    assert vc == 0;
    uc, rc := HighLoop(op, rp, up, un, vn, rn0, uneg, vneg, rneg, uc, rc, S, z);
    LoopsDone(op, rp[..], rn0, rneg, rc, S, un, uneg, uc, vn, vneg, z);
    n := Close(rp, rn0, rc, z);
  }

  /** mpz_and, mpz_ior and mpz_xor for a second number that is not zero and not longer than the first. */
  method LogicOrdered(op: Op, r: Number, a: Number, b: Number, ghost v: int, ghost w: int)
    requires a.Is(v) && b.Is(w) && (r == a || r.d != a.d) && (r == b || r.d != b.d)
    requires 0 < Abs(b.size) <= Abs(a.size)
    modifies r, r.d
    ensures r.Is(Bitwise(op, v, w)) && (r.d == old(r.d) || fresh(r.d))
  {
    var un, vn := Abs(a.size), Abs(b.size);
    var uneg, vneg := a.size < 0, b.size < 0;
    var rneg := op.Apply(uneg, vneg);
    var rn := LoopLimbs(op, un, vn, vneg);
    ghost var S, T := a.d[..], b.d[..];
    var rp := r.Realloc(rn + if rneg then 1 else 0);
    Opened(S, a.size, v, a.d[..]);
    Opened(T, b.size, w, b.d[..]);
    BitwiseSign(op, v, w);
    hide Represents, Magnitude, Bitwise;
    var n := LogicLimbs(op, rp, a.d, un, uneg, b.d, vn, vneg, rn, v, w);
    SignedMagnitude(rp[..], n, Abs(Bitwise(op, v, w)));
    r.size := if rneg then -(n as int) else n;
  }

  /** mpz_and, mpz_ior (Or) and mpz_xor: the operation of infinite two's complement on any two signed numbers. */
  method Logic(op: Op, r: Number, a: Number, b: Number, ghost v: int, ghost w: int)
    requires a.Is(v) && b.Is(w) && (r == a || r.d != a.d) && (r == b || r.d != b.d)
    modifies r, r.d
    ensures r.Is(Bitwise(op, v, w)) && (r.d == old(r.d) || fresh(r.d))
  {
    Commutes(op, v, w);
    hide Bitwise, Represents;
    if Abs(a.size) < Abs(b.size) {
      LogicSwapped(op, r, b, a, w, v);
    } else {
      LogicSwapped(op, r, a, b, v, w);
    }
  }

  method LogicSwapped(op: Op, r: Number, a: Number, b: Number, ghost v: int, ghost w: int)
    requires a.Is(v) && b.Is(w) && (r == a || r.d != a.d) && (r == b || r.d != b.d) && Abs(b.size) <= Abs(a.size)
    modifies r, r.d
    ensures r.Is(Bitwise(op, v, w)) && (r.d == old(r.d) || fresh(r.d))
  {
    if b.size == 0 {
      Opened(b.d[..], b.size, w, b.d[..]);
      WithZero(op, v);
      hide Bitwise;
      if op == And {
        r.size := 0;
      } else {
        Set(r, a, v);
      }
    } else {
      LogicOrdered(op, r, a, b, v, w);
    }
  }

  lemma {:induction false} WithZero(op: Op, x: int)
    ensures Bitwise(op, x, 0) == if op == And then 0 else x
    decreases Span(x)
  {
    if Span(x) > 0 { WithZero(op, x / 2); }
  }
}
