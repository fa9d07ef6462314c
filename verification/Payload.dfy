/** Fields of a packet that do not start or end on a byte: loading them and writing them
    (expr_offset_shift, expr_evaluate_bits and stmt_evaluate_payload in src/evaluate.c).
    A packet is a sequence of bytes; its bits are numbered from the most significant one of the first byte. */
module Payload {
  import opened Numbers
  import opened Bits
  import opened Digits

  ghost predicate IsPacket(pkt: seq<nat>) {
    AreDigits(256, pkt)
  }

  ghost function PacketBit(pkt: seq<nat>, i: nat): bool
    requires i < 8 * |pkt|
  {
    Bit(pkt[i / 8], 7 - i % 8)
  }

  /** The value of the field with `len` bits from bit `offset` on, most significant bit first. */
  ghost function Field(pkt: seq<nat>, offset: nat, len: nat): nat
    requires offset + len <= 8 * |pkt|
  {
    if len == 0 then 0
    else 2 * Field(pkt, offset, len - 1) + if PacketBit(pkt, offset + len - 1) then 1 else 0
  }

  lemma {:induction false} FieldBit(pkt: seq<nat>, offset: nat, len: nat, j: nat)
    requires offset + len <= 8 * |pkt|
    ensures Bit(Field(pkt, offset, len), j) == (j < len && PacketBit(pkt, offset + len - 1 - j))
    decreases len
  {
    if len == 0 {
      SignBit(0, j);
    } else {
      BitOfDouble(Field(pkt, offset, len - 1), PacketBit(pkt, offset + len - 1), j);
      hide PacketBit;
      if j > 0 { FieldBit(pkt, offset, len - 1, j - 1); }
    }
  }

  /** A payload load of the kernel: `size` bytes as a big endian number. */
  ghost function Load(pkt: seq<nat>, at: nat, size: nat): nat
    requires at + size <= |pkt|
  {
    FromHigh(256, pkt[at..at + size])
  }

  lemma {:induction false} LoadBit(pkt: seq<nat>, at: nat, size: nat, j: nat)
    requires at + size <= |pkt| && IsPacket(pkt)
    ensures Bit(Load(pkt, at, size), j) == (j < 8 * size && PacketBit(pkt, 8 * (at + size) - 1 - j))
    decreases size
  {
    if size == 0 {
      SignBit(0, j);
    } else {
      var w := pkt[at..at + size];
      var high, low := Load(pkt, at, size - 1), pkt[at + size - 1];
      assert w[..|w| - 1] == pkt[at..at + size - 1] && w[|w| - 1] == low;
      assert Load(pkt, at, size) == high * 256 + low;
      ByteBelow(high, low, j);
      if j >= 8 { LoadBit(pkt, at, size - 1, j - 8); }
    }
  }

  /** A number with one more byte below. */
  lemma ByteBelow(high: nat, low: nat, j: nat)
    requires low < 256
    ensures Bit(high * 256 + low, j) == if j < 8 then Bit(low, j) else Bit(high, j - 8)
  {
    assert Pow2(8) == 256;
    hide Pow2, Bit;
    DivUnique(high * 256 + low, high, low, 256);
    if j < 8 {
      DivUnique(low, 0, low, 256);
      BitMod(high * 256 + low, 8, j);
      BitMod(low, 8, j);
    } else {
      BitShift(high * 256 + low, 8, j - 8);
    }
  }

  /** `size` bytes of a number, most significant first (mpz_export_data with big endian byte order). */
  function ToBytes(v: nat, size: nat): (bs: seq<nat>)
    ensures |bs| == size && AreDigits(256, bs)
    decreases size
  {
    if size == 0 then [] else ToBytes(v / 256, size - 1) + [v % 256]
  }

  /** A payload write of the kernel. */
  ghost function Store(pkt: seq<nat>, at: nat, size: nat, v: nat): seq<nat>
    requires at + size <= |pkt|
  {
    pkt[..at] + ToBytes(v, size) + pkt[at + size..]
  }

  lemma {:induction false} BytesBit(v: nat, size: nat, i: nat)
    requires i < 8 * size
    ensures PacketBit(ToBytes(v, size), i) == Bit(v, 8 * size - 1 - i)
    decreases size
  {
    var bs, n := ToBytes(v, size), size - 1;
    var high := ToBytes(v / 256, n);
    assert bs == high + [v % 256];
    assert v == (v / 256) * 256 + v % 256;
    ByteBelow(v / 256, v % 256, 8 * size - 1 - i);
    if i < 8 * n {
      BytesBit(v / 256, n, i);
      assert bs[i / 8] == high[i / 8];
    } else {
      assert bs[i / 8] == v % 256;
    }
  }

  lemma StoreBit(pkt: seq<nat>, at: nat, size: nat, v: nat, i: nat)
    requires at + size <= |pkt| && i < 8 * |pkt|
    ensures var p := Store(pkt, at, size, v);
            && |p| == |pkt|
            && PacketBit(p, i)
               == if 8 * at <= i < 8 * (at + size) then Bit(v, 8 * (at + size) - 1 - i) else PacketBit(pkt, i)
  {
    var p := Store(pkt, at, size, v);
    if 8 * at <= i < 8 * (at + size) {
      BytesBit(v, size, i - 8 * at);
      assert p[i / 8] == ToBytes(v, size)[i / 8 - at];
      assert (i - 8 * at) / 8 == i / 8 - at && (i - 8 * at) % 8 == i % 8;
    } else if i < 8 * at {
      assert p[i / 8] == pkt[i / 8];
    } else {
      assert p[i / 8] == pkt[i / 8];
    }
  }

  // ------------------------------------------------------------------ where the field is in what is loaded

  /** round_up(len, BITS_PER_BYTE) */
  function RoundUp(len: nat): (n: nat)
    ensures len <= n < len + 8 && n % 8 == 0
  {
    (len + 7) / 8 * 8
  }

  /** expr_offset_shift: how far the field is from the end of the bytes that are loaded, and how many more
      bits have to be loaded because it crosses a byte boundary. */
  method OffsetShift(offset: nat, len: nat) returns (shift: nat, extraLen: nat)
    ensures shift < 8 && (extraLen == 0 || extraLen == 8)
    ensures RoundUp(len) + extraLen == offset % 8 + len + shift
  {
    var newOffset := offset % 8;
    var s: int := RoundUp(len) - (newOffset + len);
    extraLen := 0;
    while s < 0
      invariant -8 < s < 8 && RoundUp(len) + extraLen == newOffset + len + s
      invariant extraLen == 0 || (extraLen == 8 && s >= 0)
    {
      s := s + 8;
      extraLen := extraLen + 8;
    }
    shift := s;
  }

  /** What expr_evaluate_bits makes of a payload expression: ((load & mask) >> shift). The load has `loadLen` bits,
      mask and shift are `maskLen` bits wide. */
  datatype BitsExpr = BitsExpr(loadLen: nat, mask: nat, maskLen: nat, shift: nat)

  ghost function BytesLoaded(len: nat): nat {
    (len + 7) / 8
  }

  /** The value of the expression on a packet. */
  ghost function EvalBits(e: BitsExpr, offset: nat, pkt: seq<nat>): int
    requires offset / 8 + BytesLoaded(e.loadLen) <= |pkt|
  {
    Bitwise(And, Load(pkt, offset / 8, BytesLoaded(e.loadLen)), e.mask) / Pow2(e.shift)
  }

  /** expr_evaluate_bits, with the expression's own length widened to what has to be loaded. For every packet
      the value is that of the field. */
  method EvaluateBits(offset: nat, len: nat) returns (e: BitsExpr)
    requires len > 0
    ensures e.maskLen == len + e.shift && e.mask == Mask(len) * Pow2(e.shift) && e.shift < 8
    ensures (e.loadLen == len || e.loadLen == len + 8) && offset / 8 + (e.loadLen + 7) / 8 == (offset + len + 7) / 8
    ensures forall pkt: seq<nat> ::
              IsPacket(pkt) && offset + len <= 8 * |pkt| && offset / 8 + BytesLoaded(e.loadLen) <= |pkt|
              ==> EvalBits(e, offset, pkt) == Field(pkt, offset, len)
  {
    hide Load, Field, Pow2, Mask, IsPacket, Bitwise, BytesLoaded;
    var shift, extraLen := OffsetShift(offset, len);
    var maskLen := len + shift;
    var mask := Mask(len) * Pow2(shift);
    e := BitsExpr(len + extraLen, mask, maskLen, shift);
    MaskPositive(len, shift);
    forall pkt: seq<nat> | IsPacket(pkt) && offset + len <= 8 * |pkt| && offset / 8 + BytesLoaded(e.loadLen) <= |pkt|
      ensures EvalBits(e, offset, pkt) == Field(pkt, offset, len)
    {
      BitsAreField(pkt, offset, len, shift, extraLen);
    }
  }

  lemma MaskPositive(len: nat, shift: nat)
    ensures 0 <= Mask(len) * Pow2(shift)
  {
    MulLe(0, Mask(len), Pow2(shift));
  }

  lemma BitsAreField(pkt: seq<nat>, offset: nat, len: nat, shift: nat, extraLen: nat)
    requires IsPacket(pkt) && offset + len <= 8 * |pkt| && (extraLen == 0 || extraLen == 8)
    requires RoundUp(len) + extraLen == offset % 8 + len + shift
    requires offset / 8 + BytesLoaded(len + extraLen) <= |pkt|
    ensures var w := Load(pkt, offset / 8, BytesLoaded(len + extraLen));
            Bitwise(And, w, Mask(len) * Pow2(shift)) / Pow2(shift) == Field(pkt, offset, len)
  {
    WindowEnd(offset, len, shift, extraLen);
    MaskedField(pkt, offset / 8, BytesLoaded(len + extraLen), offset, len, shift);
  }

  /** A field that ends `shift` bits before the end of what has been loaded. */
  lemma MaskedField(pkt: seq<nat>, at: nat, size: nat, offset: nat, len: nat, shift: nat)
    requires IsPacket(pkt) && at + size <= |pkt| && 8 * (at + size) == offset + len + shift && len + shift <= 8 * size
    ensures Bitwise(And, Load(pkt, at, size), Mask(len) * Pow2(shift)) / Pow2(shift) == Field(pkt, offset, len)
  {
    hide IsPacket, PacketBit, Bitwise, Pow2, Mask, Bit, Load, Field;
    var x, f := Bitwise(And, Load(pkt, at, size), Mask(len) * Pow2(shift)) / Pow2(shift), Field(pkt, offset, len);
    forall j: nat ensures Bit(x, j) == Bit(f, j) {
      MaskedBit(Load(pkt, at, size), len, shift, j);
      LoadBit(pkt, at, size, shift + j);
      FieldBit(pkt, offset, len, j);
      if j < len { assert 8 * (at + size) - 1 - (shift + j) == offset + len - 1 - j; }
    }
    SameBits(x, f);
  }

  lemma MaskedBit(w: nat, len: nat, shift: nat, j: nat)
    ensures Bit(Bitwise(And, w, Mask(len) * Pow2(shift)) / Pow2(shift), j) == (j < len && Bit(w, shift + j))
  {
    hide Bitwise, Pow2, Mask, Bit;
    BitShift(Bitwise(And, w, Mask(len) * Pow2(shift)), shift, j);
    BitwiseBit(And, w, Mask(len) * Pow2(shift), shift + j);
    BitLeft(Mask(len), shift, shift + j);
    BitMask(len, j);
  }

  lemma WindowEnd(offset: nat, len: nat, shift: nat, extraLen: nat)
    requires RoundUp(len) + extraLen == offset % 8 + len + shift && (extraLen == 0 || extraLen == 8)
    ensures 8 * (offset / 8 + BytesLoaded(len + extraLen)) == offset + len + shift
    ensures len + shift <= 8 * BytesLoaded(len + extraLen)
  {
  }

  // ------------------------------------------------------------------ writing a field

  /** What a payload statement stores: a value, or ((window & mask) ^ value) of what is there. */
  datatype Write =
    | Plain(value: nat)
    | ReadModify(mask: nat, value: nat)

  /** The payload expression of a statement, with its place in bits. */
  class PayloadExpr {
    var offset: nat
    var len: nat

    constructor (offset: nat, len: nat)
      ensures this.offset == offset && this.len == len
    {
      this.offset, this.len := offset, len;
    }
  }

  /** The packet after a statement that writes the bytes from bit `offset` on. */
  ghost function Written(pkt: seq<nat>, offset: nat, len: nat, w: Write): seq<nat>
    requires offset / 8 + len / 8 <= |pkt|
  {
    var v := match w
             case Plain(value) => value
             case ReadModify(mask, value) => Bitwise(Xor, Bitwise(And, Load(pkt, offset / 8, len / 8), mask), value);
    Store(pkt, offset / 8, len / 8, if v < 0 then 0 else v)
  }

  /** Exactly the field has changed, and it is `value` now. */
  ghost predicate FieldWritten(p: seq<nat>, p': seq<nat>, offset: nat, len: nat, value: nat) {
    && |p| == |p'|
    && forall i: nat :: i < 8 * |p| ==>
         PacketBit(p', i) == if offset <= i < offset + len then Bit(value, offset + len - 1 - i) else PacketBit(p, i)
  }

  /** The statement writes the field and nothing else, on every packet that has the bytes it works on. */
  ghost predicate WritesField(offset: nat, len: nat, w: Write, field: nat, fieldLen: nat, value: nat) {
    forall pkt: seq<nat> :: IsPacket(pkt) && offset / 8 + len / 8 <= |pkt| ==>
      FieldWritten(pkt, Written(pkt, offset, len, w), field, fieldLen, value)
  }

  /** What becomes of a constant shifted left: constant_binop_simplify with the width of the window. */
  function FoldShift(value: nat, shift: nat, width: nat): int {
    Bitwise(And, value * Pow2(shift), Mask(width))
  }

  /** stmt_evaluate_payload for a big endian field and a constant that fits into it. */
  method StmtEvaluatePayload(payload: PayloadExpr, needCsum: bool, value: nat) returns (w: Write)
    requires payload.len > 0 && value < Pow2(payload.len)
    modifies payload
    ensures WritesField(payload.offset, payload.len, w, old(payload.offset), old(payload.len), value)
    ensures payload.len % 8 == 0 && (needCsum ==> payload.len / 8 % 2 == 0)
    ensures var first, end := old(payload.offset) / 8, (old(payload.offset) + old(payload.len) + 7) / 8;
            && payload.offset % 8 == 0
            && if needCsum && (end - first) % 2 == 1
               then payload.len / 8 == end - first + 1 && payload.offset / 8 == first - first % 2
               else payload.len / 8 == end - first && payload.offset / 8 == first
    ensures w == Plain(value) <==>
              old(payload.offset) % 8 == 0 && old(payload.len) % 8 == 0 && (needCsum ==> old(payload.len) / 8 % 2 == 0)
  {
    hide WritesField, Pow2, Mask;
    var offset, len := payload.offset, payload.len;
    if offset % 8 == 0 && len % 8 == 0 {
      if !needCsum || len / 8 % 2 == 0 {
        w := Plain(value);
        PlainWrites(offset, len, value);
        return;
      }
    }
    var byteOffset, byteSize, shift := WindowOf(offset, len, needCsum);
    w := WindowWrite(value, len, shift, byteSize * 8);
    WindowWrites(byteOffset, byteSize, offset, len, shift, value, w);
    payload.offset, payload.len := byteOffset * 8, byteSize * 8;
  }

  /** The bytes that stmt_evaluate_payload works on, an even number of them if a checksum has to be updated. */
  method WindowOf(offset: nat, len: nat, needCsum: bool) returns (byteOffset: nat, byteSize: nat, shift: nat)
    requires len > 0
    ensures len + shift <= 8 * byteSize && 8 * (byteOffset + byteSize) == offset + len + shift
    ensures needCsum ==> byteSize % 2 == 0
    ensures var first, end := offset / 8, (offset + len + 7) / 8;
            if needCsum && (end - first) % 2 == 1 then byteSize == end - first + 1 && byteOffset == first - first % 2
            else byteSize == end - first && byteOffset == first
  {
    var extraLen;
    byteOffset := offset / 8;
    shift, extraLen := OffsetShift(offset, len);
    byteSize := (len + extraLen + 7) / 8;
    WindowEnd(offset, len, shift, extraLen);
    TouchedIs(offset, len, shift, byteSize);
    hide RoundUp;
    if needCsum && byteSize % 2 == 1 {
      byteSize := byteSize + 1;
      if byteOffset % 2 == 1 {
        byteOffset := byteOffset - 1;
        assert offset >= 8;
      } else {
        shift := shift + 8;
      }
    }
  }

  lemma TouchedIs(offset: nat, len: nat, shift: nat, size: nat)
    requires 8 * (offset / 8 + size) == offset + len + shift && shift < 8
    ensures (offset + len + 7) / 8 - offset / 8 == size
  {
  }

  /** The expression of the window: the mask keeps everything outside the field. */
  method WindowWrite(value: nat, len: nat, shift: nat, maskLen: nat) returns (w: Write)
    requires value < Pow2(len) && len + shift <= maskLen
    ensures w == ReadModify(MaskOutside(len, shift, maskLen), value * Pow2(shift))
  {
    var val: nat := value;
    if shift > 0 {
      FoldExact(value, len, shift, maskLen);
      val := FoldShift(value, shift, maskLen);
    } else {
      assert Pow2(0) == 1;
    }
    w := ReadModify(MaskOutside(len, shift, maskLen), val);
  }

  /** ff ^ (bitmask << shift) */
  function MaskOutside(len: nat, shift: nat, maskLen: nat): (m: nat)
    requires len + shift <= maskLen
  {
    FieldMaskFits(len, shift, maskLen);
    BelowPow2(Xor, Mask(maskLen), Mask(len) * Pow2(shift), maskLen);
    Bitwise(Xor, Mask(maskLen), Mask(len) * Pow2(shift))
  }

  lemma FieldMaskFits(len: nat, shift: nat, maskLen: nat)
    requires len + shift <= maskLen
    ensures 0 <= Mask(len) * Pow2(shift) < Pow2(maskLen)
  {
    MaskPositive(len, shift);
    hide Pow2;
    Pow2Add(len, shift);
    Pow2Grows(len + shift, maskLen);
    MulLe(Mask(len) + 1, Pow2(len), Pow2(shift));
    Sum(Mask(len), 1, Pow2(shift));
  }

  /** The width of the window is enough for the shifted constant. */
  lemma FoldExact(value: nat, len: nat, shift: nat, width: nat)
    requires value < Pow2(len) && len + shift <= width
    ensures FoldShift(value, shift, width) == value * Pow2(shift) >= 0
  {
    hide Pow2, Mask;
    Pow2Add(len, shift);
    Pow2Grows(len + shift, width);
    MulLe(0, value, Pow2(shift));
    MulLe(value + 1, Pow2(len), Pow2(shift));
    Sum(value, 1, Pow2(shift));
    AndMask(value * Pow2(shift), width);
    DivUnique(value * Pow2(shift), 0, value * Pow2(shift), Pow2(width));
  }

  /** The number `v` has the bits that the window is to have. */
  ghost predicate NewBits(old': nat, v: int, size: nat, len: nat, shift: nat, value: nat) {
    forall j: nat :: j < 8 * size ==>
      Bit(v, j) == if shift <= j < shift + len then Bit(value, j - shift) else Bit(old', j)
  }

  lemma StoredField(pkt: seq<nat>, at: nat, size: nat, v: nat, offset: nat, len: nat, shift: nat, value: nat)
    requires at + size <= |pkt| && IsPacket(pkt) && 8 * (at + size) == offset + len + shift && len + shift <= 8 * size
    requires NewBits(Load(pkt, at, size), v, size, len, shift, value)
    ensures FieldWritten(pkt, Store(pkt, at, size, v), offset, len, value)
  {
    var p' := Store(pkt, at, size, v);
    StoreLength(pkt, at, size, v);
    hide Store, PacketBit, Load, Bit, IsPacket;
    forall i: nat | i < 8 * |pkt|
      ensures PacketBit(p', i)
              == if offset <= i < offset + len then Bit(value, offset + len - 1 - i) else PacketBit(pkt, i)
    {
      StoreBit(pkt, at, size, v, i);
      if 8 * at <= i < 8 * (at + size) {
        var j := 8 * (at + size) - 1 - i;
        assert Bit(v, j) == if shift <= j < shift + len then Bit(value, j - shift) else Bit(Load(pkt, at, size), j);
        LoadBit(pkt, at, size, j);
      }
    }
  }

  lemma PlainWrites(offset: nat, len: nat, value: nat)
    requires offset % 8 == 0 && len % 8 == 0
    ensures WritesField(offset, len, Plain(value), offset, len, value)
  {
    forall pkt: seq<nat> | IsPacket(pkt) && offset / 8 + len / 8 <= |pkt|
      ensures FieldWritten(pkt, Written(pkt, offset, len, Plain(value)), offset, len, value)
    {
      hide Store, FieldWritten, IsPacket, Load;
      StoredField(pkt, offset / 8, len / 8, value, offset, len, 0, value);
    }
  }

  lemma StoreLength(pkt: seq<nat>, at: nat, size: nat, v: nat)
    requires at + size <= |pkt|
    ensures |Store(pkt, at, size, v)| == |pkt|
  {
  }

  /** A bit of what is written to the window. */
  lemma WindowBit(w: nat, len: nat, shift: nat, maskLen: nat, value: nat, j: nat)
    requires len + shift <= maskLen && j < maskLen && value < Pow2(len)
    ensures Bit(Bitwise(Xor, Bitwise(And, w, MaskOutside(len, shift, maskLen)), value * Pow2(shift)), j)
            == if shift <= j < shift + len then Bit(value, j - shift) else Bit(w, j)
  {
    var m := Mask(len) * Pow2(shift);
    hide Bitwise, Pow2, Mask, Bit;
    BitwiseBit(Xor, Bitwise(And, w, MaskOutside(len, shift, maskLen)), value * Pow2(shift), j);
    BitwiseBit(And, w, MaskOutside(len, shift, maskLen), j);
    BitwiseBit(Xor, Mask(maskLen), m, j);
    BitMask(maskLen, j);
    BitLeft(Mask(len), shift, j);
    BitLeft(value, shift, j);
    if j >= shift {
      BitMask(len, j - shift);
      if j - shift >= len { BitHigh(value, len, j - shift); }
    }
  }

  lemma WindowWrites(at: nat, size: nat, offset: nat, len: nat, shift: nat, value: nat, w: Write)
    requires value < Pow2(len) && len + shift <= 8 * size && 8 * (at + size) == offset + len + shift
    requires w == ReadModify(MaskOutside(len, shift, size * 8), value * Pow2(shift))
    ensures WritesField(at * 8, size * 8, w, offset, len, value)
  {
    assert at * 8 / 8 == at && size * 8 / 8 == size;
    forall pkt: seq<nat> | IsPacket(pkt) && (at * 8) / 8 + (size * 8) / 8 <= |pkt|
      ensures FieldWritten(pkt, Written(pkt, at * 8, size * 8, w), offset, len, value)
    {
      hide Written, FieldWritten, IsPacket, MaskOutside, Pow2;
      WindowWritten(pkt, at * 8, size * 8, at, size, offset, len, shift, value, w);
    }
  }

  lemma WindowWritten(pkt: seq<nat>, bitOffset: nat, bitLen: nat, at: nat, size: nat, offset: nat, len: nat, shift: nat,
                      value: nat, w: Write)
    requires value < Pow2(len) && len + shift <= 8 * size && 8 * (at + size) == offset + len + shift
    requires bitOffset / 8 == at && bitLen / 8 == size && IsPacket(pkt) && at + size <= |pkt|
    requires w == ReadModify(MaskOutside(len, shift, size * 8), value * Pow2(shift))
    ensures FieldWritten(pkt, Written(pkt, bitOffset, bitLen, w), offset, len, value)
  {
    var old' := Load(pkt, at, size);
    var v := Bitwise(Xor, Bitwise(And, old', w.mask), w.value);
    NotNegative(old', w.mask, w.value);
    assert Written(pkt, bitOffset, bitLen, w) == Store(pkt, at, size, v);
    hide Written, Store, FieldWritten, Load, IsPacket;
    WindowBits(old', size, len, shift, value);
    StoredField(pkt, at, size, v, offset, len, shift, value);
  }

  lemma WindowBits(old': nat, size: nat, len: nat, shift: nat, value: nat)
    requires value < Pow2(len) && len + shift <= 8 * size
    ensures NewBits(old', Bitwise(Xor, Bitwise(And, old', MaskOutside(len, shift, size * 8)), value * Pow2(shift)),
                    size, len, shift, value)
  {
    var v := Bitwise(Xor, Bitwise(And, old', MaskOutside(len, shift, size * 8)), value * Pow2(shift));
    hide Bitwise, Pow2, Bit, MaskOutside;
    forall j: nat | j < 8 * size
      ensures Bit(v, j) == if shift <= j < shift + len then Bit(value, j - shift) else Bit(old', j)
    {
      WindowBit(old', len, shift, size * 8, value, j);
    }
  }

  lemma NotNegative(x: nat, mask: nat, value: nat)
    ensures Bitwise(Xor, Bitwise(And, x, mask), value) >= 0
  {
    BitwiseSign(And, x, mask);
    BitwiseSign(Xor, Bitwise(And, x, mask), value);
  }
}
