/** Translation of an interval set to segment endpoints (set_to_intervals in src/intervals.c).

    The kernel stores each range as a start entry and, one past the end, an entry flagged
    INTERVAL_END; a key is in the set when the last entry at or below it is a start. */
module Segments {
  import opened Bits
  import opened Automerge

  /** An element of init->expressions: a range before the translation, an endpoint after it. */
  datatype SetElem =
    | Range(lo: int, hi: int)
    | Point(key: int, intervalEnd: bool, open: bool)

  ghost predicate ArePoints(ps: seq<SetElem>) {
    forall i :: 0 <= i < |ps| ==> ps[i].Point?
  }

  /** What segtree_needs_first_segment looks at in `set->init`. */
  datatype SetInit = NoInit | SameInit(size: int) | OtherInit(size: int)

  datatype SetInfo = SetInfo(anonymous: bool, hasRoot: bool, init: SetInit, keyLen: nat)

  /** segtree_needs_first_segment */
  predicate NeedsFirstSegment(set_: SetInfo, add: bool) {
    add && !set_.hasRoot
    && (set_.anonymous || set_.init.NoInit? || set_.init.SameInit? || set_.init.size == 0)
  }

  /** mpz_scan0(x, 0) for nonnegative `x`: the position of the lowest zero bit. */
  function Scan0(x: nat): (n: nat)
    ensures !Bit(x, n) && forall i: nat :: i < n ==> Bit(x, i)
  {
    if x % 2 == 0 then 0
    else
      var n := 1 + Scan0(x / 2);
      assert forall i: nat :: 0 < i < n ==> Bit(x, i) == Bit(x / 2, i - 1);
      n
  }

  /** The test on the upper bound singles out the largest key. */
  lemma Scan0AllOnes(x: nat, len: nat)
    requires x < Pow2(len)
    ensures Scan0(x) == len <==> x == Mask(len)
  {
    var n := Scan0(x);
    BitMask(len, n);
    if n == len {
      forall i: nat ensures Bit(x, i) == Bit(Mask(len), i) {
        BitMask(len, i);
        if i >= len { BitHigh(x, len, i); }
      }
      SameBits(x, Mask(len));
    } else if n > len {
      BitHigh(x, len, len);
    }
  }

  // ------------------------------------------------------------------ what is computed

  /** The endpoint after `r`, unless `r` reaches the largest key. */
  function EndOf(len: nat, r: Iv): seq<SetElem> {
    if r.hi == Mask(len) then [] else [Point(r.hi + 1, true, false)]
  }

  /** The endpoint `end` is left out where an anonymous set has a range that starts right there. */
  function Flushed(anonymous: bool, end: seq<SetElem>, rest: seq<Iv>): seq<SetElem>
    requires ArePoints(end)
  {
    if end != [] && rest != [] && anonymous && end[0].key == rest[0].lo then [] else end
  }

  function Points(anonymous: bool, len: nat, rs: seq<Iv>): (ps: seq<SetElem>)
    ensures ArePoints(ps)
  {
    if rs == [] then []
    else
      [Point(rs[0].lo, false, rs[0].hi == Mask(len))]
      + Flushed(anonymous, EndOf(len, rs[0]), rs[1..])
      + Points(anonymous, len, rs[1..])
  }

  function FirstSegment(set_: SetInfo, add: bool, rs: seq<Iv>): (ps: seq<SetElem>)
    ensures ArePoints(ps)
  {
    if NeedsFirstSegment(set_, add) && rs != [] && rs[0].lo != 0 then [Point(0, true, false)] else []
  }

  function Intervals(set_: SetInfo, add: bool, rs: seq<Iv>): (ps: seq<SetElem>)
    ensures ArePoints(ps)
  {
    FirstSegment(set_, add, rs) + Points(set_.anonymous, set_.keyLen, rs)
  }

  // ------------------------------------------------------------------ the loop

  ghost function RangeElems(rs: seq<Iv>): (es: seq<SetElem>)
    ensures |es| == |rs| && forall i :: 0 <= i < |rs| ==> es[i] == Range(rs[i].lo, rs[i].hi)
  {
    if rs == [] then [] else [Range(rs[0].lo, rs[0].hi)] + RangeElems(rs[1..])
  }

  class SetExpr {
    var expressions: seq<SetElem>
    var size: int

    constructor (expressions: seq<SetElem>)
      ensures this.expressions == expressions && size == |expressions|
    {
      this.expressions, size := expressions, |expressions|;
    }

    /** set_to_intervals. Elements move one by one to the list of endpoints; the end of the last range
        waits in `newelem` until it is known what comes next. */
    method SetToIntervals(set_: SetInfo, add: bool, ghost rs: seq<Iv>)
      requires expressions == RangeElems(rs) && forall i :: 0 <= i < |rs| ==> 0 <= rs[i].hi < Pow2(set_.keyLen)
      modifies this
      ensures expressions == Intervals(set_, add, rs)
      ensures size == old(size) + |rs| + |FirstSegment(set_, add, rs)|
    {
      var intervals: seq<SetElem>, newelem: seq<SetElem>, first := [], [], true;
      ghost var rest, n := rs, size + |rs| + |FirstSegment(set_, add, rs)|;
      LoopEnds(set_, add, rs, intervals, newelem, first);
      hide *;
      while expressions != []
        invariant expressions == RangeElems(rest) && (expressions == [] <==> rest == [])
        invariant forall i :: 0 <= i < |rest| ==> 0 <= rest[i].hi < Pow2(set_.keyLen)
        invariant ArePoints(newelem) && (first ==> intervals == [] && newelem == [])
        invariant Expected(set_, add, rest, intervals, newelem, first) == Intervals(set_, add, rs)
        invariant size + |rest| + (if first then |FirstSegment(set_, add, rest)| else 0) == n
        decreases |rest|
      {
        intervals, newelem := Step(set_, add, rest, intervals, newelem, first);
        first, rest := false, rest[1..];
      }
      LoopEnds(set_, add, rest, intervals, newelem, first);
      expressions := intervals + newelem;
    }

    method Step(set_: SetInfo, add: bool, ghost rest: seq<Iv>, intervals: seq<SetElem>, newelem: seq<SetElem>,
                first: bool)
        returns (intervals': seq<SetElem>, newelem': seq<SetElem>)
      requires rest != [] && expressions == RangeElems(rest) && 0 <= rest[0].hi < Pow2(set_.keyLen)
      requires ArePoints(newelem)
      requires first ==> intervals == [] && newelem == []
      modifies this
      ensures expressions == RangeElems(rest[1..]) && (expressions == [] <==> rest[1..] == [])
      ensures ArePoints(newelem')
      ensures Expected(set_, add, rest[1..], intervals', newelem', false)
              == Expected(set_, add, rest, intervals, newelem, first)
      ensures size == old(size) + 1 + if first then |FirstSegment(set_, add, rest)| else 0
    {
      hide Points, Scan0, Expected;
      Scan0AllOnes(rest[0].hi, set_.keyLen);
      ghost var add0 := if first then FirstSegment(set_, add, rest) else [];
      ExpectedNext(set_, add, rest, intervals, newelem, first);
      var elem := expressions[0];
      intervals' := intervals;
      if first && NeedsFirstSegment(set_, add) && elem.lo != 0 {
        intervals' := [Point(0, true, false)] + intervals';
        size := size + 1;
      }
      assert intervals' == intervals + add0;
      if newelem != [] {
        if !set_.anonymous || newelem[0].key != elem.lo {
          intervals' := intervals' + newelem;
        }
      }
      assert intervals' == intervals + add0 + Flushed(set_.anonymous, newelem, rest);
      var open := Scan0(elem.hi) == set_.keyLen;
      newelem' := if open then [] else [Point(elem.hi + 1, true, false)];
      expressions := expressions[1..];
      intervals' := intervals' + [Point(elem.lo, false, open)];
      size := size + 1;
    }
  }

  /** What the loop is going to produce from where it stands: `first` before the first element. */
  ghost function Expected(set_: SetInfo, add: bool, rest: seq<Iv>, intervals: seq<SetElem>, newelem: seq<SetElem>,
                          first: bool): seq<SetElem>
    requires ArePoints(newelem)
  {
    intervals + (if first then FirstSegment(set_, add, rest) else [])
    + Flushed(set_.anonymous, newelem, rest) + Points(set_.anonymous, set_.keyLen, rest)
  }

  lemma ExpectedNext(set_: SetInfo, add: bool, rest: seq<Iv>, intervals: seq<SetElem>, newelem: seq<SetElem>,
                     first: bool)
    requires rest != [] && ArePoints(newelem)
    ensures var done := intervals + (if first then FirstSegment(set_, add, rest) else [])
                        + Flushed(set_.anonymous, newelem, rest)
                        + [Point(rest[0].lo, false, rest[0].hi == Mask(set_.keyLen))];
            Expected(set_, add, rest, intervals, newelem, first)
            == Expected(set_, add, rest[1..], done, EndOf(set_.keyLen, rest[0]), false)
  {
  }

  lemma LoopEnds(set_: SetInfo, add: bool, rest: seq<Iv>, intervals: seq<SetElem>, newelem: seq<SetElem>, first: bool)
    requires ArePoints(newelem)
    ensures rest == [] ==> Expected(set_, add, rest, intervals, newelem, first) == intervals + newelem
                           && FirstSegment(set_, add, rest) == []
    ensures intervals == [] && newelem == [] && first
            ==> Expected(set_, add, rest, intervals, newelem, first) == Intervals(set_, add, rest)
  {
  }

  // ------------------------------------------------------------------ what it means

  /** The keys that the endpoints stand for: those whose last entry at or below is a start. */
  ghost predicate Matches(ps: seq<SetElem>, x: int)
    requires ArePoints(ps)
  {
    exists i :: 0 <= i < |ps| && StartsAt(ps, i, x)
  }

  ghost predicate StartsAt(ps: seq<SetElem>, i: nat, x: int)
    requires i < |ps| && ArePoints(ps)
  {
    ps[i].key <= x && !ps[i].intervalEnd && forall j :: i < j < |ps| ==> x < ps[j].key
  }

  ghost predicate AllAbove(ps: seq<SetElem>, x: int)
    requires ArePoints(ps)
  {
    forall j :: 0 <= j < |ps| ==> x < ps[j].key
  }

  lemma AboveCons(p: SetElem, ps: seq<SetElem>, x: int)
    requires p.Point? && ArePoints(ps)
    ensures AllAbove([p] + ps, x) <==> x < p.key && AllAbove(ps, x)
  {
    var s := [p] + ps;
    assert s[0] == p;
    assert forall j :: 0 <= j < |ps| ==> s[j + 1] == ps[j];
    if AllAbove(s, x) {
      forall j | 0 <= j < |ps| ensures x < ps[j].key { assert s[j + 1] == ps[j]; }
    }
  }

  lemma MatchesCons(p: SetElem, ps: seq<SetElem>, x: int)
    requires p.Point? && ArePoints(ps)
    ensures Matches([p] + ps, x) <==> Matches(ps, x) || (p.key <= x && !p.intervalEnd && AllAbove(ps, x))
  {
    var s := [p] + ps;
    assert forall j :: 1 <= j < |s| ==> s[j] == ps[j - 1];
    if Matches(ps, x) {
      var i :| 0 <= i < |ps| && StartsAt(ps, i, x);
      assert StartsAt(s, i + 1, x);
    }
    if p.key <= x && !p.intervalEnd && AllAbove(ps, x) { assert StartsAt(s, 0, x); }
    if Matches(s, x) {
      var i :| 0 <= i < |s| && StartsAt(s, i, x);
      forall j | i <= j < |ps| ensures x < ps[j].key { assert s[j + 1] == ps[j]; }
      if i > 0 { assert StartsAt(ps, i - 1, x); }
    }
  }

  /** Sorted, disjoint ranges of keys of `len` bits. */
  ghost predicate InKeys(len: nat, rs: seq<Iv>) {
    && Nonempty(rs) && Separated(0, rs)
    && forall i :: 0 <= i < |rs| ==> 0 <= rs[i].lo && rs[i].hi <= Mask(len)
  }

  lemma InKeysTail(len: nat, rs: seq<Iv>)
    requires InKeys(len, rs) && rs != []
    ensures InKeys(len, rs[1..]) && forall i :: 1 <= i < |rs| ==> rs[0].hi < rs[i].lo
  {
    forall i | 1 <= i < |rs| ensures rs[0].hi < rs[i].lo { assert rs[1..][i - 1] == rs[i]; }
  }

  lemma PointsCons(anonymous: bool, len: nat, r: Iv, rest: seq<Iv>)
    ensures var tail, end := Points(anonymous, len, rest), EndOf(len, r);
            && Points(anonymous, len, [r] + rest)
               == [Point(r.lo, false, r.hi == Mask(len))] + (Flushed(anonymous, end, rest) + tail)
            && (rest == [] ==> tail == [])
            && (rest != [] ==> tail != [] && tail[0].key == rest[0].lo && !tail[0].intervalEnd)
  {
    assert ([r] + rest)[1..] == rest;
  }

  lemma FlushedCons(anonymous: bool, len: nat, r: Iv, rest: seq<Iv>, tail: seq<SetElem>)
    ensures var end := Flushed(anonymous, EndOf(len, r), rest);
            if r.hi == Mask(len) || (anonymous && rest != [] && rest[0].lo == r.hi + 1) then end + tail == tail
            else end + tail == [Point(r.hi + 1, true, false)] + tail
  {
  }

  /** One range: its endpoints match the keys of the range, and those that the endpoints after them match. */
  lemma OneMatches(anonymous: bool, len: nat, r: Iv, rest: seq<Iv>, x: int)
    requires 0 <= r.lo <= r.hi <= Mask(len) && x <= Mask(len)
    requires AllAbove(Points(anonymous, len, rest), x) <==> rest == [] || x < rest[0].lo
    requires Matches(Points(anonymous, len, rest), x) ==> r.hi < x
    requires rest != [] ==> r.hi < rest[0].lo
    ensures var ps := Points(anonymous, len, [r] + rest);
            && (Matches(ps, x) <==> r.lo <= x <= r.hi || Matches(Points(anonymous, len, rest), x))
            && (AllAbove(ps, x) <==> x < r.lo)
  {
    var start, last, tail := Point(r.lo, false, r.hi == Mask(len)), Point(r.hi + 1, true, false),
        Points(anonymous, len, rest);
    var after := Flushed(anonymous, EndOf(len, r), rest) + tail;
    PointsCons(anonymous, len, r, rest);
    FlushedCons(anonymous, len, r, rest, tail);
    hide *;
    MatchesCons(last, tail, x);
    AboveCons(last, tail, x);
    MatchesCons(start, after, x);
    AboveCons(start, after, x);
  }

  /** Reading the endpoints gives back the ranges, and says what lies below all endpoints. */
  lemma {:induction false} PointsMatch(anonymous: bool, len: nat, rs: seq<Iv>, x: int)
    requires InKeys(len, rs) && x <= Mask(len)
    ensures Matches(Points(anonymous, len, rs), x) <==> Covers(rs, x)
    ensures AllAbove(Points(anonymous, len, rs), x) <==> rs == [] || x < rs[0].lo
  {
    if rs != [] {
      var r, rest := rs[0], rs[1..];
      assert rs == [r] + rest;
      InKeysTail(len, rs);
      assert forall i :: 0 <= i < |rest| ==> rest[i] == rs[i + 1];
      PointsMatch(anonymous, len, rest, x);
      CoversAppend([r], rest, x);
      CoversOne(r, x);
      CoversAbove(rest, x, r.hi);
      hide Points, Matches, AllAbove, Covers;
      OneMatches(anonymous, len, r, rest, x);
    }
  }

  lemma CoversAbove(rs: seq<Iv>, x: int, hi: int)
    requires forall i :: 0 <= i < |rs| ==> hi < rs[i].lo
    ensures Covers(rs, x) ==> hi < x
  {
  }

  /** A key is in the set iff the last entry at or below it exists and is no INTERVAL_END. */
  lemma MembershipPreserved(set_: SetInfo, add: bool, rs: seq<Iv>, x: int)
    requires InKeys(set_.keyLen, rs) && 0 <= x < Pow2(set_.keyLen)
    ensures Matches(Intervals(set_, add, rs), x) <==> Covers(rs, x)
  {
    var ps := Points(set_.anonymous, set_.keyLen, rs);
    PointsMatch(set_.anonymous, set_.keyLen, rs, x);
    MatchesCons(Point(0, true, false), ps, x);
    assert [] + ps == ps;
  }

  // ------------------------------------------------------------------ reading the ranges back

  lemma PointsFollow(p: SetElem, ps: seq<SetElem>)
    requires p.Point? && ArePoints(ps)
    ensures ArePoints([p] + ps) && ([p] + ps)[1..] == ps
  {
  }

  /** Each start opens a range that goes on to just before the next entry, or to the largest key. */
  function Decode(len: nat, ps: seq<SetElem>): seq<SetElem>
    requires ArePoints(ps)
  {
    if ps == [] then []
    else
      (if ps[0].intervalEnd then [] else [Range(ps[0].key, if |ps| > 1 then ps[1].key - 1 else Mask(len))])
      + Decode(len, ps[1..])
  }

  lemma DecodeCons(len: nat, p: SetElem, ps: seq<SetElem>)
    requires p.Point? && ArePoints(ps)
    ensures ArePoints([p] + ps)
    ensures Decode(len, [p] + ps)
            == (if p.intervalEnd then [] else [Range(p.key, if ps != [] then ps[0].key - 1 else Mask(len))])
                + Decode(len, ps)
  {
    PointsFollow(p, ps);
  }

  lemma DecodeOne(anonymous: bool, len: nat, r: Iv, rest: seq<Iv>)
    requires r.hi <= Mask(len) && (rest != [] ==> r.hi < rest[0].lo <= Mask(len))
    ensures Decode(len, Points(anonymous, len, [r] + rest))
            == [Range(r.lo, r.hi)] + Decode(len, Points(anonymous, len, rest))
  {
    hide Decode, Points, Flushed, Mask;
    var tail := Points(anonymous, len, rest);
    var after := Flushed(anonymous, EndOf(len, r), rest) + tail;
    PointsCons(anonymous, len, r, rest);
    FlushedCons(anonymous, len, r, rest, tail);
    DecodeCons(len, Point(r.lo, false, r.hi == Mask(len)), after);
    DecodeCons(len, Point(r.hi + 1, true, false), tail);
  }

  lemma {:induction false} DecodePoints(anonymous: bool, len: nat, rs: seq<Iv>)
    requires InKeys(len, rs)
    ensures Decode(len, Points(anonymous, len, rs)) == RangeElems(rs)
  {
    if rs != [] {
      InKeysTail(len, rs);
      DecodePoints(anonymous, len, rs[1..]);
      assert |rs| > 1 ==> rs[1..][0] == rs[1];
      assert rs == [rs[0]] + rs[1..];
      hide Decode, Points;
      DecodeOne(anonymous, len, rs[0], rs[1..]);
    }
  }

  /** The ranges can be read back from the endpoints, adjacent ranges as separate ones. */
  lemma RangesReadBack(set_: SetInfo, add: bool, rs: seq<Iv>)
    requires InKeys(set_.keyLen, rs)
    ensures Decode(set_.keyLen, Intervals(set_, add, rs)) == RangeElems(rs)
  {
    var ps := Points(set_.anonymous, set_.keyLen, rs);
    DecodePoints(set_.anonymous, set_.keyLen, rs);
    DecodeCons(set_.keyLen, Point(0, true, false), ps);
    assert [] + ps == ps;
  }

  /** Keys increase; only in a named set may an end and a start have the same key. */
  ghost predicate Ascending(anonymous: bool, ps: seq<SetElem>)
    requires ArePoints(ps)
  {
    forall i :: 0 <= i < |ps| - 1 ==>
      ps[i].key < ps[i + 1].key
      || (!anonymous && ps[i].key == ps[i + 1].key && ps[i].intervalEnd && !ps[i + 1].intervalEnd)
  }

  lemma {:induction false} PointsAscend(anonymous: bool, len: nat, rs: seq<Iv>)
    requires InKeys(len, rs)
    ensures Ascending(anonymous, Points(anonymous, len, rs))
  {
    if rs != [] {
      var r, rest := rs[0], rs[1..];
      InKeysTail(len, rs);
      PointsAscend(anonymous, len, rest);
      assert rest != [] ==> rest[0] == rs[1];
    }
  }

  lemma IntervalsAscend(set_: SetInfo, add: bool, rs: seq<Iv>)
    requires InKeys(set_.keyLen, rs)
    ensures Ascending(set_.anonymous, Intervals(set_, add, rs))
  {
    PointsAscend(set_.anonymous, set_.keyLen, rs);
  }

  // ------------------------------------------------------------------ which entries there are

  /** The first entry is the end of a segment from 0 exactly if the lowest range starts later, elements are
      added, the set has no root, and it is anonymous, empty, not there yet, or created with these elements.
      Otherwise the entries start where the lowest range starts. */
  lemma FirstEntry(set_: SetInfo, add: bool, rs: seq<Iv>)
    requires InKeys(set_.keyLen, rs) && rs != []
    ensures var ps := Intervals(set_, add, rs);
            && ps != []
            && (ps[0] == Point(0, true, false) <==>
                  && rs[0].lo > 0 && add && !set_.hasRoot
                  && (set_.anonymous || set_.init.NoInit? || set_.init.SameInit?
                      || (set_.init.OtherInit? && set_.init.size == 0)))
            && (ps[0] != Point(0, true, false) ==> ps[0] == Point(rs[0].lo, false, rs[0].hi == Pow2(set_.keyLen) - 1))
  {
    var tail := Points(set_.anonymous, set_.keyLen, rs);
    assert tail[0] == Point(rs[0].lo, false, rs[0].hi == Mask(set_.keyLen));
  }

  ghost predicate StartsWith(rs: seq<Iv>, k: int) {
    exists j :: 0 <= j < |rs| && rs[j].lo == k
  }

  /** The start of a range, flagged as open if the range goes up to the largest key; or the end of one that does
      not, which an anonymous set has only if no range starts there. */
  ghost predicate EntryOf(anonymous: bool, len: nat, rs: seq<Iv>, r: Iv, p: SetElem) {
    || p == Point(r.lo, false, r.hi == Pow2(len) - 1)
    || (p == Point(r.hi + 1, true, false) && r.hi < Pow2(len) - 1 && !(anonymous && StartsWith(rs, r.hi + 1)))
  }

  ghost predicate SomeEntry(anonymous: bool, len: nat, rs: seq<Iv>, p: SetElem) {
    exists i :: 0 <= i < |rs| && EntryOf(anonymous, len, rs, rs[i], p)
  }

  lemma StartsWithCons(r: Iv, rest: seq<Iv>, k: int)
    ensures StartsWith([r] + rest, k) <==> r.lo == k || StartsWith(rest, k)
  {
    var rs := [r] + rest;
    assert rs[0] == r;
    if StartsWith(rs, k) {
      var j :| 0 <= j < |rs| && rs[j].lo == k;
      assert j > 0 ==> rest[j - 1] == rs[j];
    }
    if StartsWith(rest, k) {
      var j :| 0 <= j < |rest| && rest[j].lo == k;
      assert rs[j + 1] == rest[j];
    }
  }

  /** After a range only the next one can start right behind it. */
  lemma StartsNext(r: Iv, rest: seq<Iv>)
    requires Nonempty([r] + rest) && Separated(0, [r] + rest)
    ensures StartsWith([r] + rest, r.hi + 1) <==> rest != [] && rest[0].lo == r.hi + 1
  {
    var rs := [r] + rest;
    StartsWithCons(r, rest, r.hi + 1);
    assert rs[0] == r && rs[1..] == rest;
    SeparatedFirst(rest);
    if rest != [] && rest[0].lo == r.hi + 1 { assert StartsWith(rest, r.hi + 1); }
  }

  lemma SeparatedFirst(rs: seq<Iv>)
    requires Separated(0, rs) && Nonempty(rs)
    ensures forall j :: 1 <= j < |rs| ==> rs[0].lo < rs[j].lo
  {
    forall j | 1 <= j < |rs| ensures rs[0].lo < rs[j].lo { assert rs[1..][j - 1] == rs[j]; }
  }

  /** The entries of the later ranges are as without the first one. */
  lemma SomeEntryCons(anonymous: bool, len: nat, r: Iv, rest: seq<Iv>, p: SetElem)
    requires forall i :: 0 <= i < |rest| ==> r.lo < rest[i].lo <= rest[i].hi
    ensures SomeEntry(anonymous, len, [r] + rest, p)
            <==> EntryOf(anonymous, len, [r] + rest, r, p) || SomeEntry(anonymous, len, rest, p)
  {
    var rs := [r] + rest;
    forall i | 0 <= i < |rest|
      ensures EntryOf(anonymous, len, rest, rest[i], p) <==> EntryOf(anonymous, len, rs, rest[i], p) {
      StartsWithCons(r, rest, rest[i].hi + 1);
    }
    hide EntryOf;
    assert rs[0] == r;
    if SomeEntry(anonymous, len, rs, p) {
      var i :| 0 <= i < |rs| && EntryOf(anonymous, len, rs, rs[i], p);
      assert i > 0 ==> rs[i] == rest[i - 1];
    }
    if SomeEntry(anonymous, len, rest, p) {
      var i :| 0 <= i < |rest| && EntryOf(anonymous, len, rest, rest[i], p);
      assert rs[i + 1] == rest[i];
    }
  }

  lemma {:induction false} PointsEntries(anonymous: bool, len: nat, rs: seq<Iv>, p: SetElem)
    requires InKeys(len, rs)
    ensures p in Points(anonymous, len, rs) <==> SomeEntry(anonymous, len, rs, p)
  {
    hide Points, Pow2, SomeEntry, Flushed, StartsWith;
    if rs == [] {
      NoEntries(anonymous, len, p);
    } else {
      var r, rest := rs[0], rs[1..];
      assert rs == [r] + rest;
      InKeysTail(len, rs);
      PointsEntries(anonymous, len, rest, p);
      PointsCons(anonymous, len, r, rest);
      FlushedCons(anonymous, len, r, rest, Points(anonymous, len, rest));
      StartsNext(r, rest);
      assert forall i :: 0 <= i < |rest| ==> rest[i] == rs[i + 1];
      SomeEntryCons(anonymous, len, r, rest, p);
    }
  }

  lemma NoEntries(anonymous: bool, len: nat, p: SetElem)
    ensures p !in Points(anonymous, len, []) && !SomeEntry(anonymous, len, [], p)
  {
  }

  /** All the entries there are, apart from the end of a segment from 0. */
  lemma EntriesExact(set_: SetInfo, add: bool, rs: seq<Iv>, p: SetElem)
    requires InKeys(set_.keyLen, rs) && p != Point(0, true, false)
    ensures p in Intervals(set_, add, rs) <==> SomeEntry(set_.anonymous, set_.keyLen, rs, p)
  {
    hide Points, Pow2, SomeEntry;
    PointsEntries(set_.anonymous, set_.keyLen, rs, p);
  }
}
