/** Moving a shift or an exclusive or from the packet side of a comparison to the constant side
    (binop_can_transfer, binop_transfer_one, binop_transfer_handle_lhs and __binop_transfer in
    src/evaluate.c, with the constant folding they cause). Keys are big endian integers. */
module BinopTransfer {
  import opened Numbers
  import opened Bits
  import Payload

  datatype Operator = OpAnd | OpXor | OpLshift | OpRshift

  /** The packet side: a load of `len` bits, or an operation with a constant on such an expression. */
  datatype Left =
    | Load(len: nat)
    | Binop(op: Operator, left: Left, right: nat, len: nat)

  /** The constant side. `len` is the width the constant was evaluated with. */
  datatype Const =
    | Value(v: nat, len: nat)
    | Range(left: Const, right: Const)
    | SetElem(key: Const)
    | Mapping(key: Const)
    | ConstSet(elems: seq<Const>)
    | NamedSet

  datatype Relation = Eq | Neq | Lt | Gt | Lte | Gte

  // ------------------------------------------------------------------ meaning

  /** The value of the packet side when `w` has been loaded. */
  function Eval(l: Left, w: nat): int {
    match l
    case Load(_) => w
    case Binop(OpAnd, x, c, _) => Bitwise(And, Eval(x, w), c)
    case Binop(OpXor, x, c, _) => Bitwise(Xor, Eval(x, w), c)
    case Binop(OpLshift, x, n, len) => (Eval(x, w) * Pow2(n)) % Pow2(len)
    case Binop(OpRshift, x, n, _) => Eval(x, w) / Pow2(n)
  }

  /** `x` is equal to a value, in a range, or in a set. */
  ghost predicate Member(x: int, c: Const) {
    match c
    case Value(v, _) => x == v
    case Range(a, b) => a.Value? && b.Value? && a.v <= x <= b.v
    case SetElem(key) => Member(x, key)
    case Mapping(key) => Member(x, key)
    case ConstSet(elems) => exists i :: 0 <= i < |elems| && Member(x, elems[i])
    case NamedSet => false
  }

  ghost predicate Holds(rel: Relation, x: int, c: Const) {
    match rel
    case Eq => Member(x, c)
    case Neq => !Member(x, c)
    case Lt => c.Value? && x < c.v
    case Gt => c.Value? && x > c.v
    case Lte => c.Value? && x <= c.v
    case Gte => c.Value? && x >= c.v
  }

  /** A constant that has been evaluated in a context of `len` bits. */
  ghost predicate Evaluated(c: Const, len: nat) {
    match c
    case Value(v, l) => l == len && v < Pow2(len)
    case Range(a, b) => a.Value? && b.Value? && Evaluated(a, len) && Evaluated(b, len)
    case SetElem(key) => !key.ConstSet? && !key.NamedSet? && Evaluated(key, len)
    case Mapping(key) => !key.ConstSet? && !key.NamedSet? && Evaluated(key, len)
    case ConstSet(elems) =>
      forall i :: 0 <= i < |elems| ==> !elems[i].ConstSet? && !elems[i].NamedSet? && Evaluated(elems[i], len)
    case NamedSet => true
  }

  // ------------------------------------------------------------------ the context

  /** What the functions return as -1, 0 and 1. */
  datatype Status = Failed | Untouched | Transferred

  /** ctx->ectx, as far as it matters here. */
  class EvalCtx {
    var len: nat

    constructor (len: nat)
      ensures this.len == len
    {
      this.len := len;
    }

    /** expr_evaluate_integer: a constant must fit the width of the context. */
    method CheckInteger(v: nat) returns (ok: bool)
      ensures ok <==> v < Pow2(len)
    {
      ok := v <= Mask(len);
    }

    /** expr_evaluate on an operation of two constants, with constant_binop_simplify. */
    method FoldConstants(op: Operator, v: nat, n: nat) returns (ok: bool, c: Const)
      ensures ok <==> v < Pow2(len) && n < Pow2(len) && (op == OpLshift || op == OpRshift ==> n < len)
      ensures ok ==> c == Value(Folded(op, v, n, len), len)
      ensures ok ==> match op
                     case OpXor => c.v == Bitwise(Xor, v, n)
                     case OpAnd => c.v == Bitwise(And, v, n)
                     case OpLshift => c.v == (v * Pow2(n)) % Pow2(len)
                     case OpRshift => c.v == v / Pow2(n)
    {
      hide Folded, Bitwise, Pow2;
      c := Value(v, len);
      ok := CheckInteger(v);
      if !ok { return; }
      ok := CheckInteger(n);
      if !ok { return; }
      if (op == OpLshift || op == OpRshift) && n >= len {
        return false, c;
      }
      c := Value(Folded(op, v, n, len), len);
      XorFolded(v, n, len);
      AndFolded(v, n, len);
      LeftFolded(v, n, len);
      FoldRight(v, n, len);
      ok := CheckInteger(c.v);
    }

    /** binop_can_transfer, for one constant. The context is widened so that a constant shifted left keeps
        all its bits; `l` is the width the constants were evaluated with. */
    method CanTransfer(left: Left, right: Const, ghost l: nat) returns (status: Status)
      requires left.Binop? && One(right) && Evaluated(right, l)
               && (left.op == OpRshift ==> len == l || len == l + left.right)
      modifies this
      ensures len == if left.op == OpRshift then l + left.right else old(len)
      ensures left.op == OpRshift || left.op == OpXor ==> status == Transferred
      ensures left.op == OpAnd ==> status == Untouched
      ensures left.op == OpLshift ==> status == if LowBitsZero(right, left.right) then Transferred else Failed
      decreases right
    {
      hide Pow2;
      match right {
        case Value(v, width) =>
          match left.op {
            case OpLshift =>
              if v > 0 && v % Pow2(left.right) != 0 {
                return Failed;
              }
              return Transferred;
            case OpRshift =>
              if len < width + left.right {
                len := len + left.right;
              }
              return Transferred;
            case OpXor =>
              return Transferred;
            case OpAnd =>
              return Untouched;
          }
        case SetElem(key) =>
          status := CanTransfer(left, key, l);
        case Mapping(key) =>
          status := CanTransfer(left, key, l);
        case Range(a, b) =>
          status := CanTransfer(left, a, l);
          if status == Transferred {
            status := CanTransfer(left, b, l);
          }
      }
    }

    /** binop_transfer_one: the inverse operation is put on the constant and folded. */
    method TransferOne(left: Left, right: Const) returns (ok: bool, right': Const)
      requires left.Binop? && left.op != OpAnd && One(right) && WellFormed(right)
      ensures ok ==> right' == Moved(left.op, left.right, len, right)
      ensures ok <==> CanFold(left.op, left.right, len, right)
      decreases right
    {
      right' := right;
      match right {
        case Mapping(key) =>
          var k;
          ok, k := TransferOne(left, key);
          right' := Mapping(k);
        case Value(v, _) =>
          ok, right' := FoldConstants(Inverse(left.op), v, left.right);
        case SetElem(key) =>
          var k;
          ok, k := TransferOne(left, key);
          right' := SetElem(k);
        case Range(a, b) =>
          var a', b';
          ok, a' := TransferOne(left, a);
          if ok {
            ok, b' := TransferOne(left, b);
            right' := Range(a', b');
          }
      }
    }

    /** __binop_transfer for a value or a range. */
    method TransferPlain(left: Left, right: Const, ghost l: nat) returns (status: Status, right': Const)
      requires left.Binop? && One(right) && Evaluated(right, l) && len == l
      modifies this
      ensures len == if left.op == OpRshift then l + left.right else l
      ensures status == Transferred ==> left.op != OpAnd && right' == Moved(left.op, left.right, len, right)
      ensures status == Untouched ==> right' == right && left.op == OpAnd
      ensures status == Expected(left, right, l)
    {
      hide Pow2, CanFold, Moved, Foldable;
      right' := right;
      status := CanTransfer(left, right, l);
      if status != Transferred { return; }
      var ok;
      WellFormedOne(right, l);
      FoldsIff(left.op, left.right, l, len, right);
      ok, right' := TransferOne(left, right);
      status := if ok then Transferred else Failed;
    }

    /** __binop_transfer for the elements of an anonymous set. */
    method TransferSet(left: Left, elems: seq<Const>, ghost l: nat) returns (status: Status, right': Const)
      requires left.Binop? && Evaluated(ConstSet(elems), l) && len == l
      modifies this
      ensures left.op == OpRshift && elems != [] ==> len == l + left.right
      ensures left.op != OpRshift || elems == [] ==> len == l
      ensures status == Transferred && elems != [] ==> left.op != OpAnd
      ensures status == Transferred ==> right' == Moved(left.op, left.right, len, ConstSet(elems))
      ensures status == Untouched ==> right' == ConstSet(elems) && left.op == OpAnd
      ensures status == if elems == [] then Transferred else Expected(left, ConstSet(elems), l)
    {
      hide Pow2, Foldable;
      right' := ConstSet(elems);
      var i := 0;
      while i < |elems|
        invariant i <= |elems| && (i > 0 ==> left.op != OpAnd)
        invariant left.op == OpLshift ==> forall j :: 0 <= j < i ==> LowBitsZero(elems[j], left.right)
        invariant len == if left.op == OpRshift && i > 0 then l + left.right else l
      {
        ElementOf(elems, i, l);
        hide Evaluated, One;
        status := CanTransfer(left, elems[i], l);
        if status != Transferred { return; }
        i := i + 1;
      }
      status, right' := MoveElements(left, elems, l);
    }

    /** The second loop of __binop_transfer over a set. */
    method MoveElements(left: Left, elems: seq<Const>, ghost l: nat) returns (status: Status, right': Const)
      requires left.Binop? && Evaluated(ConstSet(elems), l) && (elems != [] ==> left.op != OpAnd)
      requires left.op == OpRshift && elems != [] ==> len == l + left.right
      requires left.op != OpRshift && elems != [] ==> len == l
      ensures status == Transferred ==> right' == Moved(left.op, left.right, len, ConstSet(elems))
      ensures status == if elems == [] || Foldable(left.op, left.right, l) then Transferred else Failed
    {
      hide Foldable;
      var moved: seq<Const> := [];
      right' := ConstSet(elems);
      var i := 0;
      hide MovedAll, Moved;
      while i < |elems|
        invariant i <= |elems| && (i > 0 ==> Foldable(left.op, left.right, l))
        invariant moved + MovedAll(left.op, left.right, len, elems[i..]) == MovedAll(left.op, left.right, len, elems)
      {
        ElementOf(elems, i, l);
        hide Evaluated, One;
        MovedNext(left.op, left.right, len, elems, i, moved);
        var ok, m := MoveElement(left, elems[i], l);
        if !ok {
          return Failed, right';
        }
        moved := moved + [m];
        i := i + 1;
      }
      MovedEnds(left.op, left.right, len, elems, moved);
      status, right' := Transferred, ConstSet(moved);
    }

    method MoveElement(left: Left, c: Const, ghost l: nat) returns (ok: bool, m: Const)
      requires left.Binop? && One(c) && Evaluated(c, l) && WellFormed(c) && left.op != OpAnd
      requires len == if left.op == OpRshift then l + left.right else l
      ensures ok ==> m == Moved(left.op, left.right, len, c)
      ensures ok <==> Foldable(left.op, left.right, l)
    {
      hide Evaluated, WellFormed, CanFold, Moved, Foldable;
      FoldsIff(left.op, left.right, l, len, c);
      ok, m := TransferOne(left, c);
    }

    /** __binop_transfer */
    method Transfer(left: Left, right: Const, ghost l: nat) returns (status: Status, right': Const)
      requires left.Binop? && Evaluated(right, l) && len == l
      modifies this
      ensures status == Transferred ==>
                (left.op != OpAnd || right == ConstSet([])) && right' == Moved(left.op, left.right, len, right)
      ensures status == Transferred ==> right.Value? || right.Range? || right.ConstSet?
      ensures len == if Widens(left, right) then l + left.right else l
      ensures status == Untouched ==>
                right' == right && (left.op == OpAnd || right.SetElem? || right.Mapping? || right.NamedSet?)
      ensures right.NamedSet? || right.SetElem? || right.Mapping? ==> status == Untouched
      ensures (right.Value? || right.Range? || right.ConstSet?) && right != ConstSet([])
              ==> status == Expected(left, right, l)
    {
      right' := right;
      match right {
        case Value(_, _) =>
          status, right' := TransferPlain(left, right, l);
        case Range(_, _) =>
          status, right' := TransferPlain(left, right, l);
        case ConstSet(elems) =>
          status, right' := TransferSet(left, elems, l);
        case SetElem(_) => status := Untouched;
        case Mapping(_) => status := Untouched;
        case NamedSet => status := Untouched;
      }
    }
  }

  /** A single constant: a value or a range, possibly as the key of a set element. */
  predicate One(c: Const) {
    !c.ConstSet? && !c.NamedSet?
  }

  /** Ranges have values as bounds, keys are single constants. */
  ghost predicate WellFormed(c: Const) {
    match c
    case Value(_, _) => true
    case Range(a, b) => a.Value? && b.Value?
    case SetElem(key) => One(key) && WellFormed(key)
    case Mapping(key) => One(key) && WellFormed(key)
    case ConstSet(elems) => forall i :: 0 <= i < |elems| ==> One(elems[i]) && WellFormed(elems[i])
    case NamedSet => true
  }

  lemma {:induction false} WellFormedOne(c: Const, l: nat)
    requires One(c) && Evaluated(c, l)
    ensures WellFormed(c)
  {
    match c
    case Value(_, _) =>
    case Range(_, _) =>
    case SetElem(key) => WellFormedOne(key, l);
    case Mapping(key) => WellFormedOne(key, l);
  }

  lemma ElementOf(elems: seq<Const>, i: nat, l: nat)
    requires Evaluated(ConstSet(elems), l) && i < |elems|
    ensures One(elems[i]) && Evaluated(elems[i], l) && WellFormed(elems[i])
  {
    WellFormedOne(elems[i], l);
  }

  function Inverse(op: Operator): Operator {
    match op
    case OpLshift => OpRshift
    case OpRshift => OpLshift
    case OpXor => OpXor
    case OpAnd => OpAnd
  }

  /** The constant with the inverse operation done on every value in it. */
  function Moved(op: Operator, n: nat, len: nat, c: Const): Const {
    match c
    case Value(v, _) => Value(Folded(Inverse(op), v, n, len), len)
    case Range(a, b) => Range(Moved(op, n, len, a), Moved(op, n, len, b))
    case SetElem(key) => SetElem(Moved(op, n, len, key))
    case Mapping(key) => Mapping(Moved(op, n, len, key))
    case ConstSet(elems) => ConstSet(MovedAll(op, n, len, elems))
    case NamedSet => NamedSet
  }

  function MovedAll(op: Operator, n: nat, len: nat, elems: seq<Const>): (r: seq<Const>)
    ensures |r| == |elems| && forall i :: 0 <= i < |elems| ==> r[i] == Moved(op, n, len, elems[i])
  {
    if elems == [] then [] else [Moved(op, n, len, elems[0])] + MovedAll(op, n, len, elems[1..])
  }

  lemma MovedEnds(op: Operator, n: nat, len: nat, elems: seq<Const>, moved: seq<Const>)
    requires moved + MovedAll(op, n, len, elems[|elems|..]) == MovedAll(op, n, len, elems)
    ensures ConstSet(moved) == Moved(op, n, len, ConstSet(elems))
  {
    assert moved + [] == moved;
  }

  lemma MovedNext(op: Operator, n: nat, len: nat, elems: seq<Const>, i: nat, moved: seq<Const>)
    requires i < |elems|
    ensures moved + MovedAll(op, n, len, elems[i..])
            == (moved + [Moved(op, n, len, elems[i])]) + MovedAll(op, n, len, elems[i + 1..])
  {
    assert elems[i..][1..] == elems[i + 1..];
  }

  /** All the folding succeeds. */
  ghost predicate CanFold(op: Operator, n: nat, len: nat, c: Const) {
    match c
    case Value(v, _) => v < Pow2(len) && n < Pow2(len) && (op != OpXor ==> n < len)
    case Range(a, b) => CanFold(op, n, len, a) && CanFold(op, n, len, b)
    case SetElem(key) => CanFold(op, n, len, key)
    case Mapping(key) => CanFold(op, n, len, key)
    case ConstSet(elems) => forall i :: 0 <= i < |elems| ==> CanFold(op, n, len, elems[i])
    case NamedSet => true
  }

  lemma {:induction false} PowerAbove(n: nat)
    ensures n < Pow2(n)
  {
    if n > 0 { PowerAbove(n - 1); }
  }

  /** When the inverse operation can be evaluated on constants of `l` bits: a right shift always, a left shift if it
      is below the width, an exclusive or if the operand fits it. */
  ghost predicate Foldable(op: Operator, n: nat, l: nat) {
    match op
    case OpRshift => l > 0
    case OpLshift => n < l
    case OpXor => n < Pow2(l)
    case OpAnd => false
  }

  /** When the context grows by the shift, so that no constant is truncated. */
  predicate Widens(left: Left, right: Const) {
    left.Binop? && left.op == OpRshift && (right.Value? || right.Range? || (right.ConstSet? && right.elems != []))
  }

  /** What becomes of the transfer of an operation to a value, a range or an anonymous set. */
  ghost function Expected(left: Left, right: Const, l: nat): Status
    requires left.Binop?
  {
    if left.op == OpAnd then Untouched
    else if Foldable(left.op, left.right, l) && (left.op == OpLshift ==> LowBitsZero(right, left.right)) then
      Transferred
    else Failed
  }

  lemma {:induction false} FoldsIff(op: Operator, n: nat, l: nat, len: nat, c: Const)
    requires op != OpAnd && One(c) && Evaluated(c, l) && len == if op == OpRshift then l + n else l
    ensures CanFold(op, n, len, c) <==> Foldable(op, n, l)
  {
    match c
    case Value(v, _) =>
      Pow2Grows(l, len);
      Pow2Grows(n, if n < len then len else n);
      PowerAbove(n);
    case Range(a, b) =>
      FoldsIff(op, n, l, len, a);
      FoldsIff(op, n, l, len, b);
    case SetElem(key) => FoldsIff(op, n, l, len, key);
    case Mapping(key) => FoldsIff(op, n, l, len, key);
  }

  /** A left shift can only be undone if the bits it would have cleared are zero. */
  ghost predicate LowBitsZero(c: Const, n: nat) {
    match c
    case Value(v, _) => v % Pow2(n) == 0
    case Range(a, b) => LowBitsZero(a, n) && LowBitsZero(b, n)
    case SetElem(key) => LowBitsZero(key, n)
    case Mapping(key) => LowBitsZero(key, n)
    case ConstSet(elems) => forall i :: 0 <= i < |elems| ==> LowBitsZero(elems[i], n)
    case NamedSet => true
  }

  /** The value of a folded operation. */
  function Folded(op: Operator, v: nat, n: nat, len: nat): (r: nat)
    ensures r < Pow2(len)
  {
    FoldedFits(op, v, n, len);
    match op
    case OpXor => Bitwise(And, Bitwise(Xor, v, n), Mask(len))
    case OpLshift => Payload.FoldShift(v, n, len)
    case OpRshift => Bitwise(And, v, Mask(len)) / Pow2(n)
    case OpAnd => Bitwise(And, Bitwise(And, v, n), Mask(len))
  }

  lemma FoldedFits(op: Operator, v: nat, n: nat, len: nat)
    ensures 0 <= Bitwise(And, Bitwise(Xor, v, n), Mask(len)) < Pow2(len)
    ensures 0 <= Bitwise(And, v * Pow2(n), Mask(len)) < Pow2(len)
    ensures 0 <= Bitwise(And, v, Mask(len)) / Pow2(n) < Pow2(len)
    ensures 0 <= Bitwise(And, Bitwise(And, v, n), Mask(len)) < Pow2(len)
  {
    hide Bitwise, Pow2;
    AndMask(Bitwise(Xor, v, n), len);
    AndMask(v * Pow2(n), len);
    AndMask(v, len);
    AndMask(Bitwise(And, v, n), len);
    Euclid(v % Pow2(len), Pow2(n));
    var q := (v % Pow2(len)) / Pow2(n);
    MulLe(1, Pow2(n), q);
  }

  /** What the operations compute on constants that fit the width. */
  lemma XorFolded(v: nat, k: nat, l: nat)
    requires k < Pow2(l) && v < Pow2(l)
    ensures Folded(OpXor, v, k, l) == Bitwise(Xor, v, k)
  {
    hide Pow2, Bitwise;
    BelowPow2(Xor, v, k, l);
    AndMask(Bitwise(Xor, v, k), l);
    DivUnique(Bitwise(Xor, v, k), 0, Bitwise(Xor, v, k), Pow2(l));
  }

  lemma FoldRight(v: nat, n: nat, len: nat)
    requires v < Pow2(len)
    ensures Folded(OpRshift, v, n, len) == v / Pow2(n)
  {
    hide Bitwise, Pow2;
    AndMask(v, len);
    DivUnique(v, 0, v, Pow2(len));
  }

  lemma AndFolded(v: nat, k: nat, l: nat)
    requires k < Pow2(l) && v < Pow2(l)
    ensures Folded(OpAnd, v, k, l) == Bitwise(And, v, k)
  {
    hide Pow2, Bitwise;
    BelowPow2(And, v, k, l);
    AndMask(Bitwise(And, v, k), l);
    DivUnique(Bitwise(And, v, k), 0, Bitwise(And, v, k), Pow2(l));
  }

  lemma LeftFolded(v: nat, n: nat, l: nat)
    ensures Folded(OpLshift, v, n, l) == (v * Pow2(n)) % Pow2(l)
  {
    hide Pow2, Bitwise;
    AndMask(v * Pow2(n), l);
  }

  // ------------------------------------------------------------------ the packet side

  function LenOf(l: Left): nat {
    match l
    case Load(len) => len
    case Binop(_, _, _, len) => len
  }

  /** The operand of the operation has no more bits than its length says. */
  predicate Fits(left: Left, w: nat)
    requires left.Binop?
  {
    0 <= Eval(left.left, w) < Pow2(LenOf(left.left))
  }

  /** binop_transfer_handle_lhs: a right shift becomes the mask of the bits it would have kept, so that the
      value is the old one shifted back; without an exclusive or or a left shift, the value is what the
      operation was applied to. */
  method HandleLhs(left: Left) returns (left': Left)
    requires left.Binop? && left.op != OpAnd
    ensures left.op == OpRshift && left.right < 256 ==>
              forall w: nat :: Fits(left, w) ==> Eval(left', w) == Eval(left, w) * Pow2(left.right)
    ensures left.op == OpXor ==> forall w: nat :: Eval(left', w) == Bitwise(Xor, Eval(left, w), left.right)
    ensures left.op == OpLshift ==>
              forall w: nat :: Eval(left, w) == (Eval(left', w) * Pow2(left.right)) % Pow2(left.len)
    ensures left' == if left.op == OpRshift
                     then Binop(OpAnd, left.left, ShiftedMask(LenOf(left.left), left.right % 256), left.len)
                     else left.left
  {
    if left.op == OpRshift {
      var shift := left.right % 256;
      left' := Binop(OpAnd, left.left, ShiftedMask(LenOf(left.left), shift), left.len);
    } else {
      left' := left.left;
    }
    hide Eval, Fits, Bitwise, Pow2, Mask;
    if left.op == OpRshift && left.right < 256 { ShiftedBack(left, left'); }
    if left.op == OpXor { XorUndone(left); }
    if left.op == OpLshift { ShiftUndone(left); }
  }

  lemma ShiftedBack(left: Left, left': Left)
    requires left.Binop? && left.op == OpRshift
    requires left' == Binop(OpAnd, left.left, ShiftedMask(LenOf(left.left), left.right), left.len)
    ensures forall w: nat :: Fits(left, w) ==> Eval(left', w) == Eval(left, w) * Pow2(left.right)
  {
    hide Bitwise, Pow2, Mask;
    forall w: nat | Fits(left, w) ensures Eval(left', w) == Eval(left, w) * Pow2(left.right) {
      MaskedShift(Eval(left.left, w), LenOf(left.left), left.right);
    }
  }

  lemma XorUndone(left: Left)
    requires left.Binop? && left.op == OpXor
    ensures forall w: nat :: Eval(left.left, w) == Bitwise(Xor, Eval(left, w), left.right)
  {
    hide Bitwise;
    forall w: nat ensures Eval(left.left, w) == Bitwise(Xor, Eval(left, w), left.right) {
      XorTwice(Eval(left.left, w), left.right);
    }
  }

  lemma ShiftUndone(left: Left)
    requires left.Binop? && left.op == OpLshift
    ensures forall w: nat :: Eval(left, w) == (Eval(left.left, w) * Pow2(left.right)) % Pow2(left.len)
  {
    hide Pow2;
  }

  function ShiftedMask(len: nat, shift: nat): (m: nat) {
    Mask(len) * Pow2(shift)
  }

  /** Masking off the low bits is shifting them out and zeros back in. */
  lemma MaskedShift(y: nat, len: nat, n: nat)
    requires y < Pow2(len)
    ensures Bitwise(And, y, Mask(len) * Pow2(n)) == (y / Pow2(n)) * Pow2(n)
  {
    var a, b := Bitwise(And, y, Mask(len) * Pow2(n)), (y / Pow2(n)) * Pow2(n);
    hide *;
    forall i: nat ensures Bit(a, i) == Bit(b, i) {
      MaskedBit(y, len, n, i);
    }
    SameBits(a, b);
  }

  lemma MaskedBit(y: nat, len: nat, n: nat, i: nat)
    requires y < Pow2(len)
    ensures Bit(Bitwise(And, y, Mask(len) * Pow2(n)), i) == Bit((y / Pow2(n)) * Pow2(n), i)
  {
    hide Bitwise, Pow2, Mask, Bit;
    BitwiseBit(And, y, Mask(len) * Pow2(n), i);
    BitLeft(Mask(len), n, i);
    BitLeft(y / Pow2(n), n, i);
    if i >= n {
      BitMask(len, i - n);
      BitShift(y, n, i - n);
      if i - n >= len { BitHigh(y, len, i); }
    }
  }

  // ------------------------------------------------------------------ the comparison survives

  /** No bit of a constant is lost in the widened context. */
  lemma ShiftFolds(v: nat, n: nat, l: nat)
    requires v < Pow2(l)
    ensures Folded(OpLshift, v, n, l + n) == v * Pow2(n)
  {
    hide Pow2, Bitwise, Mask;
    ScaledFits(v, n, l);
    AndMask(v * Pow2(n), l + n);
    DivUnique(v * Pow2(n), 0, v * Pow2(n), Pow2(l + n));
  }

  lemma ScaledFits(v: nat, n: nat, l: nat)
    requires v < Pow2(l)
    ensures 0 <= v * Pow2(n) < Pow2(l + n)
  {
    hide Pow2;
    Pow2Add(l, n);
    MulLe(0, v, Pow2(n));
    MulLe(v + 1, Pow2(l), Pow2(n));
    Sum(v, 1, Pow2(n));
  }

  lemma ScaledOrder(x: int, v: int, p: nat)
    requires p > 0
    ensures x < v <==> x * p < v * p
    ensures x == v <==> x * p == v * p
  {
    Cancel(p, x, v);
    Cancel(p, v, x);
    if x < v { MulLe(x + 1, v, p); Sum(x, 1, p); }
  }

  lemma {:induction false} ShiftedMember(x: int, n: nat, l: nat, c: Const)
    requires Evaluated(c, l)
    ensures Member(x, c) <==> Member(x * Pow2(n), Moved(OpRshift, n, l + n, c))
  {
    match c
    case Value(v, _) =>
      ShiftFolds(v, n, l);
      ScaledOrder(x, v, Pow2(n));
    case Range(a, b) =>
      ShiftFolds(a.v, n, l);
      ShiftFolds(b.v, n, l);
      ScaledOrder(x, a.v, Pow2(n));
      ScaledOrder(b.v, x, Pow2(n));
    case SetElem(key) => ShiftedMember(x, n, l, key);
    case Mapping(key) => ShiftedMember(x, n, l, key);
    case ConstSet(elems) =>
      var y, moved := x * Pow2(n), MovedAll(OpRshift, n, l + n, elems);
      assert Moved(OpRshift, n, l + n, c) == ConstSet(moved);
      hide Moved, MovedAll;
      forall i | 0 <= i < |elems| ensures Member(x, elems[i]) <==> Member(y, moved[i]) {
        ShiftedMember(x, n, l, elems[i]);
      }
    case NamedSet =>
  }

  lemma ShiftedHolds(rel: Relation, x: int, n: nat, l: nat, c: Const)
    requires Evaluated(c, l)
    ensures Holds(rel, x, c) <==> Holds(rel, x * Pow2(n), Moved(OpRshift, n, l + n, c))
  {
    ShiftedMember(x, n, l, c);
    if c.Value? {
      ShiftFolds(c.v, n, l);
      ScaledOrder(x, c.v, Pow2(n));
      ScaledOrder(c.v, x, Pow2(n));
    }
  }

  /** The comparison has the same answer for everything that can be loaded. */
  ghost predicate SameAnswer(rel: Relation, left: Left, right: Const, left': Left, right': Const)
    requires left.Binop?
  {
    forall w: nat :: Fits(left, w) ==> (Holds(rel, Eval(left, w), right) <==> Holds(rel, Eval(left', w), right'))
  }

  /** What binop_transfer does to the two sides. */
  ghost predicate TransferredTo(left: Left, right: Const, l: nat, left': Left, right': Const)
    requires left.Binop? && left.op != OpAnd
  {
    var n := left.right;
    if left.op == OpRshift then
      left' == Binop(OpAnd, left.left, ShiftedMask(LenOf(left.left), n % 256), left.len)
          && right' == Moved(OpRshift, n, l + n, right)
    else
      left' == left.left && right' == Moved(left.op, n, l, right)
  }

  /** binop_transfer, for a constant that is no empty set (there are none in comparisons). To values, ranges and
      anonymous sets a right shift is always transferred, an exclusive or if its operand fits the context, and a
      left shift if it is below the width of the context and drops only zeros of every value; otherwise the
      transfer fails. */
  method TransferBinop(ctx: EvalCtx, left: Left, right: Const) returns (ok: bool, left': Left, right': Const)
    requires Evaluated(right, ctx.len) && right != ConstSet([])
    modifies ctx
    ensures ctx.len == if left.Binop? && left.op == OpRshift && (right.Value? || right.Range? || right.ConstSet?)
                       then old(ctx.len) + left.right else old(ctx.len)
    ensures left.Load? || left.op == OpAnd || right.NamedSet? || right.SetElem? || right.Mapping?
            ==> ok && left' == left && right' == right
    ensures left.Binop? && (right.Value? || right.Range? || right.ConstSet?) ==>
              && (left.op == OpRshift ==> (ok <==> old(ctx.len) > 0))
              && (left.op == OpXor ==> (ok <==> left.right < Pow2(old(ctx.len))))
              && (left.op == OpLshift ==> (ok <==> left.right < old(ctx.len) && LowBitsZero(right, left.right)))
    ensures ok && left.Binop? && left.op != OpAnd && (right.Value? || right.Range? || right.ConstSet?)
            ==> TransferredTo(left, right, old(ctx.len), left', right')
  {
    left', right', ok := left, right, true;
    if left.Load? { return; }
    ghost var l := ctx.len;
    hide Evaluated, Moved, ShiftedMask, LenOf, LowBitsZero, Pow2;
    var status, r := ctx.Transfer(left, right, l);
    if status != Transferred {
      return status != Failed, left, right;
    }
    right' := r;
    left' := HandleLhs(left);
  }

  /** A right shift: every comparison has the same answer afterwards, for everything that can be loaded. */
  lemma ShiftTransferPreserves(left: Left, right: Const, l: nat, left': Left, right': Const, rel: Relation)
    requires left.Binop? && left.op == OpRshift && left.right < 256 && Evaluated(right, l)
    requires TransferredTo(left, right, l, left', right')
    ensures SameAnswer(rel, left, right, left', right')
  {
    hide Holds, Moved, Bitwise, Pow2, Mask;
    forall w: nat | Fits(left, w) ensures Holds(rel, Eval(left, w), right) <==> Holds(rel, Eval(left', w), right') {
      MaskedShift(Eval(left.left, w), LenOf(left.left), left.right);
      ShiftedHolds(rel, Eval(left, w), left.right, l, right);
    }
  }

  /** A comparison of a bit field, as expr_evaluate_bits loads it, has the field's answer for every packet
      after the shift has been moved. */
  lemma FieldComparison(pkt: seq<nat>, offset: nat, len: nat, e: Payload.BitsExpr, rel: Relation, right: Const,
                        left': Left, right': Const)
    requires offset / 8 + Payload.BytesLoaded(e.loadLen) <= |pkt| && offset + len <= 8 * |pkt|
    requires e.shift < 8 && e.maskLen == len + e.shift && e.mask == Mask(len) * Pow2(e.shift)
    requires Payload.EvalBits(e, offset, pkt) == Payload.Field(pkt, offset, len) && Evaluated(right, len)
    requires TransferredTo(Binop(OpRshift, Binop(OpAnd, Load(e.loadLen), e.mask, e.maskLen), e.shift, e.maskLen),
                           right, len,
                           left', right')
    ensures var w := Payload.Load(pkt, offset / 8, Payload.BytesLoaded(e.loadLen));
            Holds(rel, Payload.Field(pkt, offset, len), right) <==> Holds(rel, Eval(left', w), right')
  {
    var left := Binop(OpRshift, Binop(OpAnd, Load(e.loadLen), e.mask, e.maskLen), e.shift, e.maskLen);
    var w := Payload.Load(pkt, offset / 8, Payload.BytesLoaded(e.loadLen));
    assert Payload.EvalBits(e, offset, pkt) == Bitwise(And, w, e.mask) / Pow2(e.shift);
    hide Holds, Eval, Evaluated, TransferredTo, Payload.Load, Payload.EvalBits, Payload.Field, Fits, Pow2, Bitwise,
         Mask;
    BitsValue(w, e.loadLen, e.mask, e.maskLen, e.shift);
    MaskedFits(w, len, e.shift);
    ShiftTransferPreserves(left, right, len, left', right', rel);
  }

  lemma BitsValue(w: nat, loadLen: nat, mask: nat, maskLen: nat, shift: nat)
    ensures var left := Binop(OpRshift, Binop(OpAnd, Load(loadLen), mask, maskLen), shift, maskLen);
            && Eval(left, w) == Bitwise(And, w, mask) / Pow2(shift)
            && (0 <= Bitwise(And, w, mask) < Pow2(maskLen) ==> Fits(left, w))
  {
    var and := Binop(OpAnd, Load(loadLen), mask, maskLen);
    assert Eval(Load(loadLen), w) == w;
    assert Eval(and, w) == Bitwise(And, w, mask) && LenOf(and) == maskLen;
  }

  lemma MaskedFits(w: nat, len: nat, shift: nat)
    ensures 0 <= Bitwise(And, w, Mask(len) * Pow2(shift)) < Pow2(len + shift)
  {
    Payload.FieldMaskFits(len, shift, len + shift);
    Commutes(And, w, Mask(len) * Pow2(shift));
    AndNat(Mask(len) * Pow2(shift), w);
  }
}
