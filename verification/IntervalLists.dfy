/** The in-place code of src/intervals.c on lists of set elements, proved against the functions of
    Automerge and SetDelete. A list is a sequence of element objects; a bound is an object of its own,
    shared by whoever holds a reference to it (expr_get), because some of the code updates it in place. */
module IntervalLists {
  import opened Numbers
  import opened Bits
  import opened Automerge
  import opened SetDelete

  /** A constant expression. */
  class Value {
    var v: int

    constructor (v: int)
      ensures this.v == v
    {
      this.v := v;
    }
  }

  /** The key of a set element. */
  datatype Key =
    | KeyValue(value: Value)
    | KeyPrefix(base: Value, len: nat, prefixLen: nat)
    | KeyRange(left: Value, right: Value)

  class Elem {
    var key: Key
    /** EXPR_F_KERNEL */
    var kernel: bool
    /** EXPR_F_REMOVE */
    var remove: bool

    constructor (key: Key, kernel: bool)
      ensures this.key == key && this.kernel == kernel && !remove
    {
      this.key, this.kernel, this.remove := key, kernel, false;
    }
  }

  // ------------------------------------------------------------------ bounds

  function KeyValues(key: Key): set<Value> {
    match key
    case KeyValue(value) => {value}
    case KeyPrefix(base, _, _) => {base}
    case KeyRange(left, right) => {left, right}
  }

  /** range_expr_value_low */
  function ValueLow(key: Key): int
    reads KeyValues(key)
  {
    match key
    case KeyValue(value) => value.v
    case KeyPrefix(base, _, _) => base.v
    case KeyRange(left, _) => left.v
  }

  /** range_expr_value_high: for a prefix, the base plus the mask of the uncovered bits. */
  function ValueHigh(key: Key): int
    requires key.KeyPrefix? ==> key.prefixLen <= key.len
    reads KeyValues(key)
  {
    match key
    case KeyValue(value) => value.v
    case KeyPrefix(base, len, prefixLen) => base.v + Mask(len - prefixLen)
    case KeyRange(_, right) => right.v
  }

  /** setelem_expr_to_range: a value or prefix becomes a range with bounds that are not shared with
      each other. The upper bound of a prefix is the base or-ed with the mask; it is the one that
      range_expr_value_high() computes exactly when the base has no bit under the mask. */
  method ToRange(e: Elem)
    requires e.key.KeyPrefix? ==> e.key.prefixLen <= e.key.len && e.key.base.v >= 0
    modifies e`key
    ensures e.key.KeyRange?
    ensures !old(e.key.KeyRange?) ==> e.key.left != e.key.right
    ensures old(e.key.KeyRange?) ==> e.key == old(e.key)
    ensures old(e.key.KeyValue?) ==> e.key.left.v == e.key.right.v == old(e.key.value.v) == old(ValueHigh(e.key))
    ensures old(e.key.KeyPrefix?) ==>
              var k, base := old(e.key.len - e.key.prefixLen), old(e.key.base);
              && e.key.left == base
              && (forall x :: base.v <= x <= e.key.right.v <==> base.v <= x && x / Pow2(k) == base.v / Pow2(k))
              && (base.v % Pow2(k) == 0 ==>
                    forall x :: base.v <= x <= e.key.right.v <==> x / Pow2(k) == base.v / Pow2(k))
    ensures ValueLow(e.key) == old(ValueLow(e.key))
    ensures ValueHigh(e.key) <= old(ValueHigh(e.key))
    ensures ValueHigh(e.key) == old(ValueHigh(e.key)) <==>
            old(e.key.KeyPrefix? ==> Bitwise(And, Mask(e.key.len - e.key.prefixLen), e.key.base.v) == 0)
  {
    match e.key {
      case KeyRange(_, _) =>
      case KeyPrefix(base, len, prefixLen) =>
        OrPlusAnd(Mask(len - prefixLen), base.v);
        AndNat(Mask(len - prefixLen), base.v);
        var value := new Value(Bitwise(Or, Mask(len - prefixLen), base.v));
        e.key := KeyRange(base, value);
        PrefixBlock(base.v, len - prefixLen);
      case KeyValue(value) =>
        var clone := new Value(value.v);
        e.key := KeyRange(clone, value);
    }
  }

  /** The base or-ed with the mask is the last value with the same prefix. */
  lemma PrefixBlock(base: nat, k: nat)
    ensures var high := Bitwise(Or, Mask(k), base);
            && (forall x :: base <= x <= high <==> base <= x && x / Pow2(k) == base / Pow2(k))
            && (base % Pow2(k) == 0 ==> forall x :: base <= x <= high <==> x / Pow2(k) == base / Pow2(k))
  {
    hide Bitwise, Pow2, Mask;
    var high, p := Bitwise(Or, Mask(k), base), Pow2(k);
    HighOfBlock(base, k);
    forall x ensures base <= x <= high <==> base <= x && x / p == base / p { SameBlock(base, p, x); }
    if base % p == 0 {
      forall x ensures base <= x <= high <==> x / p == base / p { BlockStart(base, p, x); }
    }
  }

  lemma HighOfBlock(base: nat, k: nat)
    ensures Bitwise(Or, Mask(k), base) == base - base % Pow2(k) + Pow2(k) - 1
  {
    hide Bitwise, Pow2;
    OrPlusAnd(Mask(k), base);
    Commutes(And, Mask(k), base);
    AndMask(base, k);
  }

  lemma SameBlock(base: nat, p: nat, x: int)
    requires p > 0
    ensures base <= x <= base - base % p + p - 1 <==> base <= x && x / p == base / p
  {
    Euclid(base, p);
    var q, r := base / p, base % p;
    if base <= x <= q * p + p - 1 {
      DivUnique(x, q, x - q * p, p);
    }
    if base <= x && x / p == q {
      Euclid(x, p);
    }
  }

  lemma BlockStart(base: nat, p: nat, x: int)
    requires p > 0 && base % p == 0
    ensures base <= x <= base + p - 1 <==> x / p == base / p
  {
    Euclid(base, p);
    var q := base / p;
    if base <= x <= base + p - 1 {
      DivUnique(x, q, x - base, p);
    }
    if x / p == q {
      assert x == (x / p) * p + x % p;
    }
  }

  // ------------------------------------------------------------------ lists

  ghost function View(e: Elem): Iv
    requires e.key.KeyRange?
    reads e, KeyValues(e.key)
  {
    Iv(e.key.left.v, e.key.right.v, e.kernel)
  }

  ghost predicate Distinct(es: seq<Elem>) {
    forall i, j :: 0 <= i < j < |es| ==> es[i] != es[j]
  }

  /** The list `es` holds the ranges `vs`, none of them to be removed; its elements are in `E`
      and their bounds in `W`. */
  ghost predicate Holds(E: set<Elem>, W: set<Value>, es: seq<Elem>, vs: seq<Iv>)
    reads E, W
  {
    && |es| == |vs| && Distinct(es)
    && (forall i :: 0 <= i < |es| ==>
          && es[i] in E && es[i].key.KeyRange? && !es[i].remove
          && es[i].key.left in W && es[i].key.right in W)
    && (forall i :: 0 <= i < |es| ==> View(es[i]) == vs[i])
  }

  /** struct set_automerge_ctx, with init->size. */
  class AutomergeCtx {
    var init: seq<Elem>
    var purge: seq<Elem>
    var size: int
    const automerge: bool

    constructor (automerge: bool, init: seq<Elem>)
      ensures this.automerge == automerge && this.init == init && purge == [] && size == |init|
    {
      this.automerge, this.init, this.purge, this.size := automerge, init, [], |init|;
    }

    /** The lists hold `vs` and `ps`, and share no element. */
    ghost predicate Lists(E: set<Elem>, P: set<Elem>, W: set<Value>, vs: seq<Iv>, ps: seq<Iv>)
      reads this, E, P, W
    {
      E !! P && Holds(E, W, init, vs) && Holds(P, W, purge, ps)
    }

    /** purge_elem: move element `k` to the end of the purge list. */
    method PurgeElem(k: nat, ghost E: set<Elem>, ghost P: set<Elem>, ghost W: set<Value>, ghost vs: seq<Iv>,
                     ghost ps: seq<Iv>)
      requires Lists(E, P, W, vs, ps) && k < |vs|
      modifies `init, `purge
      ensures init == old(init)[..k] + old(init)[k + 1..] && purge == old(purge) + [old(init)[k]]
      ensures Lists(E - {old(init)[k]}, P + {old(init)[k]}, W, vs[..k] + vs[k + 1..], ps + [vs[k]])
    {
      purge := purge + [init[k]];
      init := init[..k] + init[k + 1..];
    }

    /** list_del and expr_free of element `k`. */
    method FreeElem(k: nat, ghost E: set<Elem>, ghost P: set<Elem>, ghost W: set<Value>, ghost vs: seq<Iv>,
                    ghost ps: seq<Iv>)
      requires Lists(E, P, W, vs, ps) && k < |vs|
      modifies `init, `size
      ensures init == old(init)[..k] + old(init)[k + 1..] && size == old(size) - 1
      ensures Lists(E, P, W, vs[..k] + vs[k + 1..], ps)
    {
      init := init[..k] + init[k + 1..];
      size := size - 1;
    }

    /** Give element `k` other bounds. */
    method SetKey(k: nat, left: Value, right: Value,
                  ghost E: set<Elem>, ghost P: set<Elem>, ghost W: set<Value>, ghost vs: seq<Iv>, ghost ps: seq<Iv>)
      requires Lists(E, P, W, vs, ps) && k < |vs| && left in W && right in W
      modifies init[k]
      ensures init[k].key == KeyRange(left, right)
      ensures Lists(E, P, W, vs[k := Iv(left.v, right.v, vs[k].kernel)], ps)
      ensures init[k].kernel == old(init[k].kernel)
    {
      init[k].key := KeyRange(left, right);
    }

    /** remove_overlapping_range */
    method RemoveOverlappingRange(k: nat, ghost E: set<Elem>, ghost P: set<Elem>, ghost W: set<Value>,
                                  ghost vs: seq<Iv>, ghost ps: seq<Iv>)
        returns (ghost E': set<Elem>, ghost P': set<Elem>)
      requires Lists(E, P, W, vs, ps) && k < |vs|
      modifies this
      ensures init == old(init)[..k] + old(init)[k + 1..]
      ensures Lists(E', P', W, vs[..k] + vs[k + 1..], ps + if vs[k].kernel then [vs[k]] else []) && E' + P' == E + P
      ensures size == old(size) - if vs[k].kernel then 0 else 1
    {
      assert View(init[k]) == vs[k];
      if init[k].kernel {
        E', P' := E - {init[k]}, P + {init[k]};
        PurgeElem(k, E, P, W, vs, ps);
      } else {
        E', P' := E, P;
        FreeElem(k, E, P, W, vs, ps);
      }
    }

    /** merge_ranges: elements `k - 1` and `k` become one, which holds the joint range; the result
        tells whether it is the second of the two. */
    method MergeRanges(prev: Elem, i: Elem, k: nat, ghost E: set<Elem>, ghost P: set<Elem>, ghost W: set<Value>,
                       ghost vs: seq<Iv>, ghost ps: seq<Iv>)
        returns (replaced: bool, ghost E': set<Elem>, ghost P': set<Elem>)
      requires Lists(E, P, W, vs, ps) && 0 < k < |vs| && prev == init[k - 1] && i == init[k]
      modifies this, prev, i
      ensures replaced == vs[k - 1].kernel
      ensures var a, b := vs[k - 1], vs[k];
              && Lists(E', P', W, (vs[..k - 1] + vs[k..])[k - 1 := Iv(a.lo, b.hi, a.kernel && b.kernel)],
                       ps + if a.kernel then [a] else if b.kernel then [b] else [])
              && E' + P' == E + P
              && size == old(size) - if a.kernel || b.kernel then 0 else 1
      ensures init == old(init)[..k - 1] + [if replaced then i else prev] + old(init)[k + 1..]
    {
      HoldsAt(E, W, init, vs, k - 1);
      HoldsAt(E, W, init, vs, k);
      hide *;
      if prev.kernel {
        E', P' := MergeUp(prev, i, k, E, P, W, vs, ps);
      } else {
        E', P' := MergeDown(prev, i, k, E, P, W, vs, ps);
      }
      replaced := prev.kernel;
    }

    /** The first of the two goes to the purge list. */
    method MergeUp(prev: Elem, i: Elem, k: nat, ghost E: set<Elem>, ghost P: set<Elem>, ghost W: set<Value>,
                   ghost vs: seq<Iv>, ghost ps: seq<Iv>)
        returns (ghost E': set<Elem>, ghost P': set<Elem>)
      requires Lists(E, P, W, vs, ps) && 0 < k < |vs| && prev == init[k - 1] && i == init[k]
      modifies this, prev, i
      ensures var a, b := vs[k - 1], vs[k];
              Lists(E', P', W, (vs[..k - 1] + vs[k..])[k - 1 := Iv(a.lo, b.hi, b.kernel)], ps + [a])
      ensures E' + P' == E + P && size == old(size) && prev.kernel == old(prev.kernel)
      ensures init == old(init)[..k - 1] + [i] + old(init)[k + 1..]
    {
      HoldsAt(E, W, init, vs, k - 1);
      HoldsAt(E, W, init, vs, k);
      ghost var us := vs[..k - 1] + vs[k - 1 + 1..];
      assert us == vs[..k - 1] + vs[k..];
      hide Holds, View, Distinct;
      var left, right := prev.key.left, i.key.right;
      PurgeElem(k - 1, E, P, W, vs, ps);
      E', P' := E - {prev}, P + {prev};
      SetKey(k - 1, left, right, E', P', W, us, ps + [vs[k - 1]]);
    }

    /** The second of the two leaves the list. */
    method MergeDown(prev: Elem, i: Elem, k: nat, ghost E: set<Elem>, ghost P: set<Elem>, ghost W: set<Value>,
                     ghost vs: seq<Iv>, ghost ps: seq<Iv>)
        returns (ghost E': set<Elem>, ghost P': set<Elem>)
      requires Lists(E, P, W, vs, ps) && 0 < k < |vs| && prev == init[k - 1] && i == init[k]
      modifies this, prev, i
      ensures var a, b := vs[k - 1], vs[k];
              Lists(E', P', W, (vs[..k - 1] + vs[k..])[k - 1 := Iv(a.lo, b.hi, a.kernel)],
                    ps + if b.kernel then [b] else [])
      ensures E' + P' == E + P && size == old(size) - (if vs[k].kernel then 0 else 1)
      ensures prev.kernel == old(prev.kernel)
      ensures init == old(init)[..k - 1] + [prev] + old(init)[k + 1..]
    {
      HoldsAt(E, W, init, vs, k - 1);
      HoldsAt(E, W, init, vs, k);
      MergedViews(vs, k, Iv(vs[k - 1].lo, vs[k].hi, vs[k - 1].kernel));
      hide Holds, View, Distinct;
      var left, right := prev.key.left, i.key.right;
      E', P' := RemoveOverlappingRange(k, E, P, W, vs, ps);
      SetKey(k - 1, left, right, E', P', W, vs[..k] + vs[k + 1..], ps + if vs[k].kernel then [vs[k]] else []);
    }

    /** Where the loop of setelem_automerge stands: `prev` is element `k - 1`, with its bounds cached. */
    ghost predicate AtPrev(prev: Elem, low: int, high: int, k: nat,
                           E: set<Elem>, P: set<Elem>, W: set<Value>, ws: seq<Iv>, ps: seq<Iv>)
      reads this, E, P, W
    {
      && Lists(E, P, W, ws, ps) && 0 < k <= |init| == |ws| && prev == init[k - 1]
      && low == ws[k - 1].lo && high == ws[k - 1].hi
    }

    /** The loop body of setelem_automerge once there is a `prev`. */
    method Round(prev: Elem, prevLow: int, prevHigh: int, k: nat,
                 ghost E: set<Elem>, ghost P: set<Elem>, ghost W: set<Value>, ghost vs: seq<Iv>, ghost ps: seq<Iv>)
        returns (prev': Elem, low': int, high': int, k': nat, ghost E': set<Elem>, ghost P': set<Elem>)
      requires AtPrev(prev, prevLow, prevHigh, k, E, P, W, vs, ps) && k < |vs|
      modifies this, E
      ensures var r := Absorb(automerge, vs[k - 1], vs[k]);
              && k' == k + |r.kept| && E' + P' == E + P
              && AtPrev(prev', low', high', k', E', P', W, AfterRound(r, vs, k), ps + r.purged)
              && size == old(size) - (if r.kept == [] && r.purged == [] then 1 else 0)
    {
      HoldsAt(E, W, init, vs, k - 1);
      HoldsAt(E, W, init, vs, k);
      RoundViews(automerge, vs, k);
      hide Holds, AfterRound;
      var i := init[k];
      var low, high := i.key.left.v, i.key.right.v;
      E', P' := E, P;
      if prevLow <= low && prevHigh >= high {
        E', P' := RemoveOverlappingRange(k, E, P, W, vs, ps);
        prev', low', high', k' := prev, prevLow, prevHigh, k;
      } else if low <= prevHigh || (automerge && low - prevHigh == 1) {
        var replaced;
        replaced, E', P' := MergeRanges(prev, i, k, E, P, W, vs, ps);
        prev' := if replaced then i else prev;
        low', high', k' := prevLow, high, k;
      } else {
        prev', low', high', k' := i, low, high, k + 1;
        assert ps + [] == ps;
      }
    }

    /** setelem_automerge: the list and the purge list come out as MergeList() says, and init->size
        drops by one for every element that was freed rather than kept or purged. */
    method SetelemAutomerge(ghost E: set<Elem>, ghost W: set<Value>, ghost vs: seq<Iv>)
        returns (ghost E': set<Elem>, ghost P': set<Elem>)
      requires Holds(E, W, init, vs) && purge == []
      modifies this, E
      ensures var d := MergeList(automerge, vs);
              && Lists(E', P', W, d.left, d.purge) && E' + P' == E
              && size == old(size) - (|vs| - |d.left| - |d.purge|)
    {
      E', P' := E, {};
      if |init| == 0 {
        return;
      }
      E', P' := MergeLoop(E, W, vs);
    }

    method MergeLoop(ghost E: set<Elem>, ghost W: set<Value>, ghost vs: seq<Iv>)
        returns (ghost E': set<Elem>, ghost P': set<Elem>)
      requires Holds(E, W, init, vs) && purge == [] && vs != []
      modifies this, E
      ensures var d := MergeList(automerge, vs);
              && Lists(E', P', W, d.left, d.purge) && E' + P' == E
              && size == old(size) - (|vs| - |d.left| - |d.purge|)
    {
      var prev: Elem, k: nat := init[0], 1;
      var low, high := prev.key.left.v, prev.key.right.v;
      ghost var ws, ps, n := vs, [], size;
      E', P' := E, {};
      HoldsAt(E, W, init, vs, 0);
      MergeStarts(automerge, vs);
      assert LoopState(prev, low, high, k, E', P', W, vs, ws, ps, n) && |init| == |ws|;
      hide *;
      while k < |init|
        invariant 0 < k <= |init| == |ws| && E' + P' == E
        invariant LoopState(prev, low, high, k, E', P', W, vs, ws, ps, n)
        decreases |ws| - k
      {
        prev, low, high, k, E', P', ws, ps := MergeStep(prev, low, high, k, E', P', W, vs, ws, ps, n);
      }
      LoopEnds(prev, low, high, k, E', P', W, vs, ws, ps, n);
    }

    /** Invariant of the loop: what is in the lists is on the way to MergeList(), and so is the size. */
    ghost predicate LoopState(prev: Elem, low: int, high: int, k: nat, E: set<Elem>, P: set<Elem>, W: set<Value>,
                              vs: seq<Iv>, ws: seq<Iv>, ps: seq<Iv>, n: int)
      reads this, E, P, W
    {
      && AtPrev(prev, low, high, k, E, P, W, ws, ps)
      && Building(automerge, vs, ws, ps, k)
      && size == n - (|vs| - |ws| - |ps|)
    }

    method MergeStep(prev: Elem, low: int, high: int, k: nat, ghost E: set<Elem>, ghost P: set<Elem>,
                     ghost W: set<Value>,
                     ghost vs: seq<Iv>, ghost ws: seq<Iv>, ghost ps: seq<Iv>, ghost n: int)
        returns (prev': Elem, low': int, high': int, k': nat, ghost E': set<Elem>, ghost P': set<Elem>,
                 ghost ws': seq<Iv>, ghost ps': seq<Iv>)
      requires LoopState(prev, low, high, k, E, P, W, vs, ws, ps, n) && k < |ws|
      modifies this, E
      ensures LoopState(prev', low', high', k', E', P', W, vs, ws', ps', n) && E' + P' == E + P
      ensures 0 < k' <= |init| == |ws'| && |ws'| - k' < |ws| - k
    {
      hide Absorb, AfterRound, Building, Holds;
      RoundMerges(automerge, vs, ws, ps, k);
      ghost var r := Absorb(automerge, ws[k - 1], ws[k]);
      ws', ps' := AfterRound(r, ws, k), ps + r.purged;
      prev', low', high', k', E', P' := Round(prev, low, high, k, E, P, W, ws, ps);
    }

    lemma LoopEnds(prev: Elem, low: int, high: int, k: nat, E: set<Elem>, P: set<Elem>, W: set<Value>,
                   vs: seq<Iv>, ws: seq<Iv>, ps: seq<Iv>, n: int)
      requires LoopState(prev, low, high, k, E, P, W, vs, ws, ps, n) && k == |ws|
      ensures Lists(E, P, W, ws, ps) && MergeList(automerge, vs) == Delta(ws, ps) && size == n - (|vs| - |ws| - |ps|)
    {
      MergeEnds(automerge, vs, ws, ps);
    }
  }

  /** The views after one round of the loop. */
  ghost function AfterRound(r: Automerge.Round, vs: seq<Iv>, k: nat): seq<Iv>
    requires 0 < k < |vs|
  {
    vs[..k - 1] + r.kept + [r.prev] + vs[k + 1..]
  }

  lemma RoundViews(automerge: bool, vs: seq<Iv>, k: nat)
    requires 0 < k < |vs|
    ensures var a, b, r := vs[k - 1], vs[k], Absorb(automerge, vs[k - 1], vs[k]);
            && (r.prev == a ==> r.kept == [] ==> AfterRound(r, vs, k) == vs[..k] + vs[k + 1..])
            && (r.kept == [] ==> AfterRound(r, vs, k) == (vs[..k - 1] + vs[k..])[k - 1 := r.prev])
            && (r.kept != [] ==> AfterRound(r, vs, k) == vs)
  {
  }

  /** With `ws` and `ps` in the lists and `ws[k - 1]` the last range kept, the rest of the loop builds
      what MergeList() makes of `vs`. */
  ghost predicate Building(automerge: bool, vs: seq<Iv>, ws: seq<Iv>, ps: seq<Iv>, k: nat)
    requires 0 < k <= |ws|
  {
    var d, e := MergeList(automerge, vs), MergeFrom(automerge, ws[k - 1], ws[k..]);
    d.left == ws[..k - 1] + e.left && d.purge == ps + e.purge
  }

  /** One round of the loop is one step of MergeFrom. */
  lemma RoundMerges(automerge: bool, vs: seq<Iv>, ws: seq<Iv>, ps: seq<Iv>, k: nat)
    requires 0 < k < |ws| && Building(automerge, vs, ws, ps, k)
    ensures var r := Absorb(automerge, ws[k - 1], ws[k]);
            var us, n := AfterRound(r, ws, k), k + |r.kept|;
            && n <= |us| == |ws| - 1 + |r.kept| && |r.kept| + |r.purged| <= 1
            && Building(automerge, vs, us, ps + r.purged, n)
  {
    hide Absorb, AfterRound, MergeFrom;
    var r := Absorb(automerge, ws[k - 1], ws[k]);
    AbsorbShape(automerge, ws[k - 1], ws[k]);
    AfterParts(r, ws, k);
    MergeFromNext(automerge, ws, k);
    var e := MergeFrom(automerge, r.prev, ws[k + 1..]);
    Regroup(ws[..k - 1], r.kept, e.left);
    Regroup(ps, r.purged, e.purge);
  }

  lemma AbsorbShape(automerge: bool, prev: Iv, i: Iv)
    ensures var r := Absorb(automerge, prev, i); |r.kept| + |r.purged| <= 1
  {
  }

  lemma AfterParts(r: Automerge.Round, ws: seq<Iv>, k: nat)
    requires 0 < k < |ws| && |r.kept| <= 1
    ensures var us, n := AfterRound(r, ws, k), k + |r.kept|;
            && n <= |us| == |ws| - 1 + |r.kept| && us[n - 1] == r.prev
            && us[n..] == ws[k + 1..] && us[..n - 1] == ws[..k - 1] + r.kept
  {
  }

  lemma MergeFromNext(automerge: bool, ws: seq<Iv>, k: nat)
    requires 0 < k < |ws|
    ensures var r := Absorb(automerge, ws[k - 1], ws[k]);
            var e := MergeFrom(automerge, r.prev, ws[k + 1..]);
            MergeFrom(automerge, ws[k - 1], ws[k..]) == Delta(r.kept + e.left, r.purged + e.purge)
  {
    hide Absorb;
    assert ws[k..][0] == ws[k] && ws[k..][1..] == ws[k + 1..];
  }

  lemma Regroup(a: seq<Iv>, b: seq<Iv>, c: seq<Iv>)
    ensures a + (b + c) == (a + b) + c
  {
  }

  lemma MergeStarts(automerge: bool, vs: seq<Iv>)
    requires vs != []
    ensures Building(automerge, vs, vs, [], 1)
  {
  }

  lemma MergeEnds(automerge: bool, vs: seq<Iv>, ws: seq<Iv>, ps: seq<Iv>)
    requires ws != [] && Building(automerge, vs, ws, ps, |ws|)
    ensures MergeList(automerge, vs) == Delta(ws, ps)
  {
  }

  lemma MergedViews(vs: seq<Iv>, k: nat, joined: Iv)
    requires 0 < k < |vs|
    ensures (vs[..k] + vs[k + 1..])[k - 1 := joined] == (vs[..k - 1] + vs[k..])[k - 1 := joined]
  {
  }

  lemma HoldsAt(E: set<Elem>, W: set<Value>, es: seq<Elem>, vs: seq<Iv>, k: nat)
    requires Holds(E, W, es, vs) && k < |es|
    ensures es[k] in E && es[k].key.KeyRange? && es[k].key.left in W && es[k].key.right in W && !es[k].remove
    ensures es[k].key.left.v == vs[k].lo && es[k].key.right.v == vs[k].hi && es[k].kernel == vs[k].kernel
    ensures forall i :: 0 <= i < |es| && i != k ==> es[i] != es[k]
  {
  }

  // ------------------------------------------------------------------ deletion

  /** Lists keep what they hold when more objects come into view. */
  lemma HoldsMore(E: set<Elem>, W: set<Value>, F: set<Elem>, V: set<Value>, es: seq<Elem>, vs: seq<Iv>)
    requires Holds(E, W, es, vs) && E <= F && W <= V
    ensures Holds(F, V, es, vs)
  {
  }

  /** Element `k` of the list taken to the front. */
  lemma HoldsToFront(E: set<Elem>, W: set<Value>, es: seq<Elem>, vs: seq<Iv>, k: nat)
    requires Holds(E, W, es, vs) && k < |es|
    ensures Holds(E, W, [es[k]] + es[..k] + es[k + 1..], [vs[k]] + vs[..k] + vs[k + 1..])
  {
    var fs := [es[k]] + es[..k] + es[k + 1..];
    forall i | 0 <= i < |fs| ensures fs[i] == es[if i == 0 then k else if i <= k then i - 1 else i] {}
  }

  /** The list with `i` at position `k`. */
  ghost function Around(es: seq<Elem>, i: Elem, k: nat): seq<Elem>
    requires k <= |es|
  {
    es[..k] + [i] + es[k..]
  }

  /** The list with `v` in front instead of the element before position `k`. */
  ghost function Fronted(v: Iv, vs: seq<Iv>, k: nat): seq<Iv>
    requires 0 < k <= |vs|
  {
    [v] + vs[..k - 1] + vs[k..]
  }

  /** The list with what is left of the element before position `k`. */
  ghost function WithTrimmed(t: Trimmed, vs: seq<Iv>, k: nat): seq<Iv>
    requires 0 < k <= |vs| && t.Trimmed?
  {
    t.front + vs[..k - 1] + t.place + vs[k..] + t.back
  }

  /** Unlinking `i`, alone or together with the element before it. */
  lemma Unlinked(es: seq<Elem>, i: Elem, k: nat)
    requires 0 < k <= |es|
    ensures var a := Around(es, i, k);
            && |a| == |es| + 1 && a[..k] + a[k + 1..] == es && |a[..k - 1] + a[k..]| == |es|
            && (a[..k - 1] + a[k..])[..k - 1] + (a[..k - 1] + a[k..])[k..] == es[..k - 1] + es[k - 1 + 1..]
            && [es[k - 1]] + a[..k - 1] + a[k + 1..] == [es[k - 1]] + es[..k - 1] + es[k - 1 + 1..]
  {
    var a := Around(es, i, k);
    assert a[..k - 1] == es[..k - 1] && a[k + 1..] == es[k..];
    var b := a[..k - 1] + a[k..];
    assert b[..k - 1] == es[..k - 1] && b[k..] == es[k..];
  }

  lemma FrontReplaced(v: Iv, vs: seq<Iv>, k: nat)
    requires 0 < k <= |vs|
    ensures [v] + ([vs[k - 1]] + vs[..k - 1] + vs[k - 1 + 1..])[1..] == Fronted(v, vs, k)
  {
  }

  /** What is left, and what is purged, when a whole element goes. */
  lemma MatchGone(automerge: bool, vs: seq<Iv>, k: nat, ps: seq<Iv>)
    requires 0 < k <= |vs|
    ensures WithTrimmed(Trim(automerge, vs[k - 1], vs[k - 1]), vs, k)
            == if vs[k - 1].kernel then vs[..k - 1] + vs[k - 1 + 1..] else vs
    ensures Kernels(vs[k - 1]) == if vs[k - 1].kernel then [vs[k - 1]] else []
    ensures ps + [] == ps
  {
    assert vs[..k - 1] + [vs[k - 1]] + vs[k..] == vs;
  }

  lemma HoldsAppend(P: set<Elem>, W: set<Value>, es: seq<Elem>, vs: seq<Iv>, e: Elem)
    requires Holds(P, W, es, vs) && e !in P && e.key.KeyRange? && !e.remove && e.key.left in W && e.key.right in W
    ensures Holds(P + {e}, W, es + [e], vs + [View(e)])
  {
  }

  /** What is purged when an element changes. */
  ghost function Kernels(a: Iv): seq<Iv> {
    if a.kernel then [a] else []
  }

  /** The existing set, its elements in existing_set->init, and the list of what is to be purged. */
  class IntervalSet {
    var init: seq<Elem>
    var purge: seq<Elem>
    const automerge: bool

    constructor (automerge: bool, init: seq<Elem>)
      ensures this.automerge == automerge && this.init == init && purge == []
    {
      this.automerge, this.init, this.purge := automerge, init, [];
    }

    /** The set without the REMOVE element holds `vs`, the purge list `ps`. */
    ghost predicate State(E: set<Elem>, P: set<Elem>, W: set<Value>, es: seq<Elem>, vs: seq<Iv>, ps: seq<Iv>)
      reads this, E, P, W
    {
      E !! P && Holds(E, W, es, vs) && Holds(P, W, purge, ps)
    }

    /** The REMOVE element: it shares no bound with anything, nor its two bounds with each other. */
    ghost predicate Remover(i: Elem, E: set<Elem>, P: set<Elem>, W: set<Value>)
      reads i
    {
      && i !in E && i !in P && i.remove && i.key.KeyRange?
      && i.key.left != i.key.right && i.key.left !in W && i.key.right !in W
    }

    /** remove_elem: purge a copy of an element that is about to change, if the kernel has it. */
    method RemoveElem(prev: Elem, ghost n: nat, ghost E: set<Elem>, ghost P: set<Elem>, ghost W: set<Value>,
                      ghost es: seq<Elem>, ghost vs: seq<Iv>, ghost ps: seq<Iv>, ghost keep: set<Value>)
        returns (ghost P': set<Elem>, ghost W': set<Value>)
      requires State(E, P, W, es, vs, ps) && n < |es| && prev == es[n] && keep !! W
      modifies `purge
      ensures State(E, P', W', es, vs, ps + Kernels(vs[n])) && keep !! W'
    {
      hide Holds;
      HoldsAt(E, W, es, vs, n);
      P', W' := P, W;
      if prev.kernel {
        var left := new Value(prev.key.left.v);
        var right := new Value(prev.key.right.v);
        var clone := new Elem(KeyRange(left, right), true);
        P', W' := P + {clone}, W + {left, right};
        HoldsMore(E, W, E, W', es, vs);
        HoldsMore(P, W, P, W', purge, ps);
        HoldsAppend(P, W', purge, ps, clone);
        purge := purge + [clone];
      } else {
        assert ps + [] == ps;
      }
    }

    /** The rest of __adjust_elem_left and __adjust_elem_right: the element, with its new bound already
        stored, is the kernel's no longer and moves to the front; the REMOVE element is freed. */
    method MoveTrimmed(prev: Elem, i: Elem, k: nat, left: Value, right: Value,
                       ghost E: set<Elem>, ghost P: set<Elem>, ghost W: set<Value>,
                       ghost es: seq<Elem>, ghost vs: seq<Iv>, ghost ps: seq<Iv>)
      requires State(E, P, W, es, vs, ps) && 0 < k <= |es| && prev == es[k - 1]
      requires init == Around(es, i, k) && left in W && right in W
      modifies `init, prev
      ensures State(E, P, W, init, Fronted(Iv(left.v, right.v, false), vs, k), ps)
    {
      hide Holds, Around;
      HoldsToFront(E, W, es, vs, k - 1);
      Unlinked(es, i, k);
      StateLength(E, P, W, es, vs, ps);
      init := [prev] + init[..k - 1] + init[k + 1..];
      SetFirst(prev, left, right, E, P, W, [vs[k - 1]] + vs[..k - 1] + vs[k - 1 + 1..], ps);
      FrontReplaced(Iv(left.v, right.v, false), vs, k);
    }

    lemma StateLength(E: set<Elem>, P: set<Elem>, W: set<Value>, es: seq<Elem>, vs: seq<Iv>, ps: seq<Iv>)
      requires State(E, P, W, es, vs, ps)
      ensures |es| == |vs|
    {
    }

    lemma StateAt(E: set<Elem>, P: set<Elem>, W: set<Value>, es: seq<Elem>, vs: seq<Iv>, ps: seq<Iv>, k: nat)
      requires State(E, P, W, es, vs, ps) && k < |es|
      ensures |es| == |vs| && es[k] in E && es[k].key.KeyRange? && es[k].key.left in W && es[k].key.right in W
      ensures es[k].key.left.v == vs[k].lo && es[k].key.right.v == vs[k].hi && es[k].kernel == vs[k].kernel
    {
      HoldsAt(E, W, es, vs, k);
    }

    method SetFirst(prev: Elem, left: Value, right: Value, ghost E: set<Elem>, ghost P: set<Elem>, ghost W: set<Value>,
                    ghost vs: seq<Iv>, ghost ps: seq<Iv>)
      requires State(E, P, W, init, vs, ps) && vs != [] && prev == init[0] && left in W && right in W
      modifies prev
      ensures State(E, P, W, init, [Iv(left.v, right.v, false)] + vs[1..], ps)
    {
      prev.kernel := false;
      prev.key := KeyRange(left, right);
    }

    /** The set is a list without the REMOVE element `i`, which stands at position `k`. */
    ghost predicate Scanning(i: Elem, k: nat, E: set<Elem>, P: set<Elem>, W: set<Value>,
                             es: seq<Elem>, vs: seq<Iv>, ps: seq<Iv>)
      reads this, i, E, P, W
    {
      && State(E, P, W, es, vs, ps) && Remover(i, E, P, W)
      && k <= |es| && init == Around(es, i, k)
    }

    /** adjust_elem_left: `i` covers the lower part of `prev`. The upper bound object of `i` is taken
        over as the new lower bound and increased in place. */
    method AdjustElemLeft(prev: Elem, i: Elem, k: nat, ghost E: set<Elem>, ghost P: set<Elem>, ghost W: set<Value>,
                          ghost es: seq<Elem>, ghost vs: seq<Iv>, ghost ps: seq<Iv>)
        returns (ghost P': set<Elem>, ghost W': set<Value>)
      requires Scanning(i, k, E, P, W, es, vs, ps) && 0 < k && prev == es[k - 1]
      modifies this, prev, i.key.right
      ensures var a := vs[k - 1];
              State(E, P', W', init, Fronted(Iv(old(i.key.right.v) + 1, a.hi, false), vs, k), ps + Kernels(a))
    {
      hide State, Kernels, Fronted, Around;
      StateLength(E, P, W, es, vs, ps);
      P', W' := RemoveElem(prev, k - 1, E, P, W, es, vs, ps, {i.key.right});
      W' := RaisedPart(prev, i, k, i.key.right, E, P', W', es, vs, ps + Kernels(vs[k - 1]));
    }

    /** __adjust_elem_left */
    method RaisedPart(prev: Elem, i: Elem, k: nat, left: Value, ghost E: set<Elem>, ghost P: set<Elem>,
                      ghost W: set<Value>,
                      ghost es: seq<Elem>, ghost vs: seq<Iv>, ghost ps: seq<Iv>)
        returns (ghost W': set<Value>)
      requires State(E, P, W, es, vs, ps) && 0 < k <= |es| && prev == es[k - 1]
      requires init == Around(es, i, k) && left !in W
      modifies `init, prev, left
      ensures W' == W + {left}
      ensures State(E, P, W', init, Fronted(Iv(old(left.v) + 1, vs[k - 1].hi, false), vs, k), ps)
    {
      hide State, Fronted, Around;
      StateAt(E, P, W, es, vs, ps, k - 1);
      left.v := left.v + 1;
      W' := BoundMoved(left, E, P, W, es, vs, ps);
      MoveTrimmed(prev, i, k, left, prev.key.right, E, P, W', es, vs, ps);
    }

    /** A bound object that no list uses may have any value. */
    lemma BoundMoved(v: Value, E: set<Elem>, P: set<Elem>, W: set<Value>,
                     es: seq<Elem>, vs: seq<Iv>, ps: seq<Iv>) returns (W': set<Value>)
      requires State(E, P, W, es, vs, ps)
      ensures W' == W + {v} && State(E, P, W', es, vs, ps)
    {
      W' := W + {v};
      HoldsMore(E, W, E, W', es, vs);
      HoldsMore(P, W, P, W', purge, ps);
    }

    /** __adjust_elem_right */
    method LowerPart(prev: Elem, i: Elem, k: nat, right: Value, ghost E: set<Elem>, ghost P: set<Elem>,
                     ghost W: set<Value>,
                     ghost es: seq<Elem>, ghost vs: seq<Iv>, ghost ps: seq<Iv>)
        returns (ghost W': set<Value>)
      requires State(E, P, W, es, vs, ps) && 0 < k <= |es| && prev == es[k - 1]
      requires init == Around(es, i, k) && right !in W
      modifies `init, prev, right
      ensures W' == W + {right}
      ensures State(E, P, W', init, Fronted(Iv(vs[k - 1].lo, old(right.v) - 1, false), vs, k), ps)
    {
      hide State, Fronted, Around;
      StateAt(E, P, W, es, vs, ps, k - 1);
      right.v := right.v - 1;
      W' := BoundMoved(right, E, P, W, es, vs, ps);
      MoveTrimmed(prev, i, k, prev.key.left, right, E, P, W', es, vs, ps);
    }

    /** adjust_elem_right: `i` covers the upper part of `prev`. The lower bound object of `i` is taken over
        as the new upper bound and decreased in place. */
    method AdjustElemRight(prev: Elem, i: Elem, k: nat, ghost E: set<Elem>, ghost P: set<Elem>, ghost W: set<Value>,
                           ghost es: seq<Elem>, ghost vs: seq<Iv>, ghost ps: seq<Iv>)
        returns (ghost P': set<Elem>, ghost W': set<Value>)
      requires Scanning(i, k, E, P, W, es, vs, ps) && 0 < k && prev == es[k - 1]
      modifies this, prev, i.key.left
      ensures var a := vs[k - 1];
              State(E, P', W', init, Fronted(Iv(a.lo, old(i.key.left.v) - 1, false), vs, k), ps + Kernels(a))
    {
      hide State, Kernels, Fronted, Around;
      StateLength(E, P, W, es, vs, ps);
      P', W' := RemoveElem(prev, k - 1, E, P, W, es, vs, ps, {i.key.left});
      W' := LowerPart(prev, i, k, i.key.left, E, P', W', es, vs, ps + Kernels(vs[k - 1]));
    }

    /** split_range: `i` lies strictly inside `prev`. The part above becomes a new element at the end. */
    method SplitRange(prev: Elem, i: Elem, k: nat, ghost E: set<Elem>, ghost P: set<Elem>, ghost W: set<Value>,
                      ghost es: seq<Elem>, ghost vs: seq<Iv>, ghost ps: seq<Iv>)
        returns (ghost E': set<Elem>, ghost P': set<Elem>, ghost W': set<Value>)
      requires Scanning(i, k, E, P, W, es, vs, ps) && 0 < k && prev == es[k - 1]
      modifies this, prev, i.key.left, i.key.right
      ensures var a := vs[k - 1];
              State(E', P', W', init,
                    Fronted(Iv(a.lo, old(i.key.left.v) - 1, false), vs, k) + [Iv(old(i.key.right.v) + 1, a.hi, false)],
                    ps + Kernels(a))
    {
      hide State, Kernels, Fronted, Around;
      StateLength(E, P, W, es, vs, ps);
      P', W' := RemoveElem(prev, k - 1, E, P, W, es, vs, ps, {i.key.left, i.key.right});
      E', W' := SplitParts(prev, i, k, i.key.right, i.key.left, E, P', W', es, vs, ps + Kernels(vs[k - 1]));
    }

    /** Both bound objects of the removed part go to the two pieces. */
    method SplitParts(prev: Elem, i: Elem, k: nat, left: Value, right: Value,
                      ghost E: set<Elem>, ghost P: set<Elem>, ghost W: set<Value>,
                      ghost es: seq<Elem>, ghost vs: seq<Iv>, ghost ps: seq<Iv>)
        returns (ghost E': set<Elem>, ghost W': set<Value>)
      requires State(E, P, W, es, vs, ps) && 0 < k <= |es| && prev == es[k - 1]
      requires init == Around(es, i, k) && left !in W && right !in W && left != right
      modifies `init, prev, left, right
      ensures State(E', P, W', init,
                    Fronted(Iv(vs[k - 1].lo, old(right.v) - 1, false), vs, k)
                    + [Iv(old(left.v) + 1, vs[k - 1].hi, false)], ps)
    {
      hide *;
      StateAt(E, P, W, es, vs, ps, k - 1);
      var high := prev.key.right.v;
      ghost var low := right.v;
      W' := LowerPart(prev, i, k, right, E, P, W, es, vs, ps);
      E', W' := UpperPart(left, high, E, P, W', Fronted(Iv(vs[k - 1].lo, low - 1, false), vs, k), ps);
    }

    /** The clone of split_range: it takes over the upper bound object of the removed part, increased
        in place, as its lower bound. */
    method UpperPart(left: Value, high: int, ghost E: set<Elem>, ghost P: set<Elem>, ghost W: set<Value>,
                     ghost vs: seq<Iv>, ghost ps: seq<Iv>)
        returns (ghost E': set<Elem>, ghost W': set<Value>)
      requires State(E, P, W, init, vs, ps) && left !in W
      modifies `init, left
      ensures State(E', P, W', init, vs + [Iv(old(left.v) + 1, high, false)], ps)
    {
      left.v := left.v + 1;
      var upper := new Value(high);
      var clone := new Elem(KeyRange(left, upper), false);
      W' := BoundMoved(left, E, P, W, init, vs, ps);
      W' := BoundMoved(upper, E, P, W', init, vs, ps);
      E' := E + {clone};
      AppendElem(clone, E, P, W', vs, ps);
    }

    /** list_add_tail of a new element. */
    method AppendElem(e: Elem, ghost E: set<Elem>, ghost P: set<Elem>, ghost W: set<Value>, ghost vs: seq<Iv>,
                      ghost ps: seq<Iv>)
      requires State(E, P, W, init, vs, ps) && e !in E && e !in P && !e.remove
      requires e.key.KeyRange? && e.key.left in W && e.key.right in W
      modifies `init
      ensures State(E + {e}, P, W, init, vs + [View(e)], ps)
    {
      init := init + [e];
    }

    /** setelem_adjust: what becomes of `prev` when the part `i` is removed; fails unless `i` lies
        inside `prev` and is not all of it. */
    method SetelemAdjust(prev: Elem, i: Elem, k: nat, ghost E: set<Elem>, ghost P: set<Elem>, ghost W: set<Value>,
                         ghost es: seq<Elem>, ghost vs: seq<Iv>, ghost ps: seq<Iv>)
        returns (ok: bool, ghost E': set<Elem>, ghost P': set<Elem>, ghost W': set<Value>)
      requires Scanning(i, k, E, P, W, es, vs, ps) && 0 < k && prev == es[k - 1]
      requires !Same(vs[k - 1], Iv(i.key.left.v, i.key.right.v, false))
      modifies this, prev, i.key.left, i.key.right
      ensures var t := Trim(true, vs[k - 1], old(Iv(i.key.left.v, i.key.right.v, false)));
              && ok == t.Trimmed?
              && (ok ==> State(E', P', W', init, WithTrimmed(t, vs, k),
                               ps + Kernels(vs[k - 1])))
    {
      hide State, Holds, Fronted, WithTrimmed, Around, Kernels;
      StateAt(E, P, W, es, vs, ps, k - 1);
      E', P', W' := E, P, W;
      ok := true;
      var low, high := i.key.left.v, i.key.right.v;
      var prevLow, prevHigh := prev.key.left.v, prev.key.right.v;
      if prevLow == low && prevHigh > high {
        P', W' := AdjustElemLeft(prev, i, k, E, P, W, es, vs, ps);
        Rearranged(Iv(high + 1, prevHigh, false), vs, k, []);
      } else if prevLow < low && prevHigh == high {
        P', W' := AdjustElemRight(prev, i, k, E, P, W, es, vs, ps);
        Rearranged(Iv(prevLow, low - 1, false), vs, k, []);
      } else if prevLow < low && prevHigh > high {
        E', P', W' := SplitRange(prev, i, k, E, P, W, es, vs, ps);
        Rearranged(Iv(prevLow, low - 1, false), vs, k, [Iv(high + 1, prevHigh, false)]);
      } else {
        ok := false;
      }
    }

    /** The removed range is the whole of `prev`: `prev` goes to the purge list if the kernel has it, and
        stays otherwise; the REMOVE element is freed. */
    method DeleteMatch(prev: Elem, i: Elem, k: nat, ghost E: set<Elem>, ghost P: set<Elem>, ghost W: set<Value>,
                       ghost es: seq<Elem>, ghost vs: seq<Iv>, ghost ps: seq<Iv>)
        returns (ghost E': set<Elem>, ghost P': set<Elem>)
      requires Scanning(i, k, E, P, W, es, vs, ps) && 0 < k && prev == es[k - 1]
      modifies `init, `purge
      ensures State(E', P', W, init, WithTrimmed(Trim(automerge, vs[k - 1], vs[k - 1]), vs, k), ps + Kernels(vs[k - 1]))
    {
      hide Holds, Around, Kernels;
      HoldsAt(E, W, es, vs, k - 1);
      Unlinked(es, i, k);
      StateLength(E, P, W, es, vs, ps);
      MatchGone(automerge, vs, k, ps);
      E', P' := E, P;
      if prev.kernel {
        HoldsBut(E, W, es, vs, k - 1);
        HoldsAppend(P, W, purge, ps, prev);
        E', P' := E - {prev}, P + {prev};
        init := init[..k - 1] + init[k..];
        purge := purge + [prev];
        init := init[..k - 1] + init[k..];
      } else {
        init := init[..k] + init[k + 1..];
      }
    }

    /** What the loop of setelem_delete does when it gets to the REMOVE element `i`. */
    method DeleteFrom(prev: Elem, i: Elem, k: nat, ghost E: set<Elem>, ghost P: set<Elem>, ghost W: set<Value>,
                      ghost es: seq<Elem>, ghost vs: seq<Iv>, ghost ps: seq<Iv>)
        returns (ok: bool, ghost E': set<Elem>, ghost P': set<Elem>, ghost W': set<Value>)
      requires Scanning(i, k, E, P, W, es, vs, ps) && 0 < k && prev == es[k - 1]
      modifies this, prev, i.key.left, i.key.right
      ensures var t := Trim(automerge, vs[k - 1], old(Iv(i.key.left.v, i.key.right.v, false)));
              && ok == t.Trimmed?
              && (ok ==> State(E', P', W', init, WithTrimmed(t, vs, k),
                               ps + Kernels(vs[k - 1])))
    {
      hide State, Holds, WithTrimmed, Around, Kernels;
      StateAt(E, P, W, es, vs, ps, k - 1);
      SameTrim(automerge, vs[k - 1], Iv(i.key.left.v, i.key.right.v, false));
      E', P', W' := E, P, W;
      if prev.key.left.v == i.key.left.v && prev.key.right.v == i.key.right.v {
        E', P' := DeleteMatch(prev, i, k, E, P, W, es, vs, ps);
        ok := true;
      } else if automerge {
        ok, E', P', W' := SetelemAdjust(prev, i, k, E, P, W, es, vs, ps);
      } else {
        ok := false;
      }
    }

    /** setelem_delete: the scan for the REMOVE element `i`, which the sort has put at position `k`. */
    method SetelemDelete(i: Elem, ghost k: nat, ghost E: set<Elem>, ghost P: set<Elem>, ghost W: set<Value>,
                         ghost es: seq<Elem>, ghost vs: seq<Iv>, ghost ps: seq<Iv>)
        returns (ok: bool, ghost E': set<Elem>, ghost P': set<Elem>, ghost W': set<Value>)
      requires Scanning(i, k, E, P, W, es, vs, ps)
      modifies this, E, i.key.left, i.key.right
      ensures var o := DeleteAt(automerge, vs[..k] + [old(Iv(i.key.left.v, i.key.right.v, false))] + vs[k..], k);
              && ok == o.Done?
              && (ok ==> State(E', P', W', init, o.set_, ps + o.purge))
    {
      hide *;
      ScanSees(this, i, k, E, P, W, es, vs, ps);
      ghost var r := Iv(i.key.left.v, i.key.right.v, false);
      var elems, prev: Elem?, n := init, null, 0;
      assert elems[k] == i;
      DeleteAtTrim(automerge, vs, k, r);
      E', P', W' := E, P, W;
      while n < |elems|
        invariant 0 <= n <= |elems|
        invariant n <= k ==> i.key == old(i.key) && i.key.KeyRange? && elems[k] == i
        invariant n <= k ==> Scanning(i, k, E, P, W, es, vs, ps) && r == Iv(i.key.left.v, i.key.right.v, false)
        invariant n <= k ==> prev == if n == 0 then null else es[n - 1]
        invariant n <= k ==> forall j :: 0 <= j < |elems| ==> elems[j].remove == (j == k)
        invariant n > k ==> 0 < k && (forall j :: k < j < |elems| ==> !elems[j].remove)
        invariant n > k ==> var t := Trim(automerge, vs[k - 1], r);
                            && t.Trimmed?
                            && State(E', P', W', init, WithTrimmed(t, vs, k),
                                     ps + Kernels(vs[k - 1]))
      {
        var e := elems[n];
        n := n + 1;
        if prev == null && e.remove {
          return false, E', P', W';
        }
        if !e.remove {
          prev := e;
          continue;
        }
        ok, E', P', W' := DeleteFrom(prev, e, n - 1, E, P, W, es, vs, ps);
        if !ok { return; }
        prev := null;
      }
      ok := true;
    }
  }

  /** What the elements of the list are, with the REMOVE element `i` at position `k`. */
  lemma ScanSees(set_: IntervalSet, i: Elem, k: nat, E: set<Elem>, P: set<Elem>, W: set<Value>,
                 es: seq<Elem>, vs: seq<Iv>, ps: seq<Iv>)
    requires set_.Scanning(i, k, E, P, W, es, vs, ps)
    ensures |es| == |vs| && k <= |es| && |set_.init| == |es| + 1 && i.key.KeyRange?
    ensures forall j :: 0 <= j < |set_.init| ==> set_.init[j].remove == (j == k)
    ensures forall j :: 0 <= j < |set_.init| ==>
              set_.init[j] == if j < k then es[j] else if j == k then i else es[j - 1]
    ensures set_.init[k] == i && (k > 0 ==> forall j :: k < j < |set_.init| ==> set_.init[j] != es[k - 1])
    ensures forall j :: 0 <= j < |es| ==> es[j] in E
  {
  }

  lemma DeleteAtTrim(automerge: bool, vs: seq<Iv>, k: nat, r: Iv)
    requires k <= |vs|
    ensures var o := DeleteAt(automerge, vs[..k] + [r] + vs[k..], k);
            if k == 0 then o.Missing?
            else
              var t := Trim(automerge, vs[k - 1], r);
              && o.Done? == t.Trimmed?
              && (t.Trimmed? ==> o == Done(WithTrimmed(t, vs, k), Kernels(vs[k - 1])))
  {
    var us := vs[..k] + [r] + vs[k..];
    assert us[k] == r && us[k + 1..] == vs[k..];
    if k > 0 { assert us[k - 1] == vs[k - 1] && us[..k - 1] == vs[..k - 1]; }
    hide Trim;
  }

  lemma HoldsBut(E: set<Elem>, W: set<Value>, es: seq<Elem>, vs: seq<Iv>, k: nat)
    requires Holds(E, W, es, vs) && k < |es|
    ensures Holds(E - {es[k]}, W, es[..k] + es[k + 1..], vs[..k] + vs[k + 1..])
  {
  }

  /** An exact match is trimmed whatever the setting of auto-merge, and nothing else is without it. */
  lemma SameTrim(automerge: bool, prev: Iv, r: Iv)
    ensures Same(prev, r) ==>
              Trim(automerge, prev, r) == Trim(automerge, prev, prev) && Trim(automerge, prev, r).Trimmed?
    ensures !Same(prev, r) && !automerge ==> Trim(automerge, prev, r).NoMatch?
  {
  }

  lemma Rearranged(v: Iv, vs: seq<Iv>, k: nat, back: seq<Iv>)
    requires 0 < k <= |vs|
    ensures WithTrimmed(Trimmed([v], [], back), vs, k) == Fronted(v, vs, k) + back
    ensures Fronted(v, vs, k) + [] == Fronted(v, vs, k)
  {
  }
}
