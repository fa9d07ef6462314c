/** Deleting ranges from an interval set (src/intervals.c): setelem_delete with setelem_adjust,
    and set_delete, on lists of ranges. The in-place code is in IntervalLists. */
module SetDelete {
  import opened MergeSort
  import opened Automerge

  /** setelem_delete fails with "element does not exist", or leaves a list and what it moved to the purge list. */
  datatype Outcome = Missing | Done(set_: seq<Iv>, purge: seq<Iv>)

  function Same(prev: Iv, r: Iv): bool {
    prev.lo == r.lo && prev.hi == r.hi
  }

  /** What setelem_delete leaves of `prev`, and where: moved to the front of the list, in its old
      place, or appended at the back. */
  datatype Trimmed = NoMatch | Trimmed(front: seq<Iv>, place: seq<Iv>, back: seq<Iv>)

  /** An exact match takes the element off the list only if the kernel has it. Otherwise setelem_adjust
      moves the trimmed element to the front, and after a split the new upper part to the back. */
  function Trim(automerge: bool, prev: Iv, r: Iv): Trimmed {
    if Same(prev, r) then
      Trimmed([], if prev.kernel then [] else [prev], [])
    else if automerge && prev.lo == r.lo && prev.hi > r.hi then
      Trimmed([Iv(r.hi + 1, prev.hi, false)], [], [])
    else if automerge && prev.lo < r.lo && prev.hi == r.hi then
      Trimmed([Iv(prev.lo, r.lo - 1, false)], [], [])
    else if automerge && prev.lo < r.lo && prev.hi > r.hi then
      Trimmed([Iv(prev.lo, r.lo - 1, false)], [], [Iv(r.hi + 1, prev.hi, false)])
    else NoMatch
  }

  /** setelem_delete on a sorted list whose element `k` is the one flagged REMOVE. */
  function DeleteAt(automerge: bool, es: seq<Iv>, k: nat): Outcome
    requires k < |es|
  {
    if k == 0 then Missing
    else
      match Trim(automerge, es[k - 1], es[k])
      case NoMatch => Missing
      case Trimmed(front, place, back) =>
        Done(front + es[..k - 1] + place + es[k + 1..] + back, if es[k - 1].kernel then [es[k - 1]] else [])
  }

  /** How many leading elements start at or below `lo`. */
  function Upto(es: seq<Iv>, lo: int): (k: nat)
    ensures k <= |es|
    ensures forall i :: 0 <= i < k ==> es[i].lo <= lo
    ensures k < |es| ==> lo < es[k].lo
  {
    if es == [] || lo < es[0].lo then 0 else 1 + Upto(es[1..], lo)
  }

  /** __set_delete: the REMOVE element goes to the head of the list, the list is sorted, then scanned. */
  function DeleteOne(automerge: bool, es: seq<Iv>, r: Iv): Outcome {
    var sorted := Sort(Low(), [r] + es);
    var k := Upto(Sort(Low(), es), r.lo);
    if k < |sorted| then DeleteAt(automerge, sorted, k) else Missing
  }

  // ------------------------------------------------------------------ the set in order

  /** The set as it is when sorted: ranges that are not empty and further apart than `gap`. */
  ghost predicate Ordered(gap: int, es: seq<Iv>) {
    Nonempty(es) && Separated(gap, Sort(Low(), es))
  }

  /** What remains of `prev` without `r`, in order. */
  function Cut(prev: Iv, r: Iv): seq<Iv> {
    if Same(prev, r) && !prev.kernel then [prev]
    else
      (if prev.lo < r.lo then [Iv(prev.lo, r.lo - 1, false)] else []) +
      (if r.hi < prev.hi then [Iv(r.hi + 1, prev.hi, false)] else [])
  }

  ghost predicate Inside(r: Iv, e: Iv) {
    e.lo <= r.lo && r.hi <= e.hi
  }

  ghost predicate InsideSome(r: Iv, es: seq<Iv>) {
    exists i :: 0 <= i < |es| && Inside(r, es[i])
  }

  lemma {:induction false} SeparatedPairs(gap: int, es: seq<Iv>)
    ensures Separated(gap, es) <==> forall i, j :: 0 <= i < j < |es| ==> es[i].hi + gap < es[j].lo
  {
    if es != [] {
      var tail := es[1..];
      SeparatedPairs(gap, tail);
      if Separated(gap, es) {
        forall i, j | 0 <= i < j < |es| ensures es[i].hi + gap < es[j].lo {
          assert es[j] == tail[j - 1];
          if i > 0 { assert es[i] == tail[i - 1]; }
        }
      }
    }
  }

  /** In the sorted list the REMOVE element stands right after the last element that starts no later. */
  lemma RemovePlace(es: seq<Iv>, r: Iv)
    ensures var s, k := Sort(Low(), es), Upto(Sort(Low(), es), r.lo);
            |s| == |es| && Sort(Low(), [r] + es) == s[..k] + [r] + s[k..]
  {
    var s := Sort(Low(), es);
    var k := Upto(s, r.lo);
    SortElements(Low(), es);
    SortSorts(Low(), es);
    SortedPairs(Low(), s);
    hide Sort, Sorted;
    forall i | k <= i < |s| ensures Low()(r) < Low()(s[i]) {
      assert Low()(s[k]) <= Low()(s[i]) by { if k < i { assert Low()(s[k]) <= Low()(s[i]); } }
    }
    SortPlacesHeadAfterTie(Low(), r, es, k);
  }

  lemma TrimIsCut(prev: Iv, r: Iv)
    requires prev.lo <= r.lo
    ensures var t := Trim(true, prev, r);
            && (t.Trimmed? <==> Inside(r, prev))
            && (t.Trimmed? ==> multiset(t.front) + multiset(t.place) + multiset(t.back) == multiset(Cut(prev, r)))
  {
  }

  lemma BagPieces(front: seq<Iv>, before: seq<Iv>, place: seq<Iv>, after: seq<Iv>, back: seq<Iv>, cut: seq<Iv>)
    requires multiset(front) + multiset(place) + multiset(back) == multiset(cut)
    ensures multiset(front + before + place + after + back) == multiset(before + cut + after)
  {
  }

  /** The element before the gap is replaced by what remains of it. */
  function Replaced(s: seq<Iv>, k: nat, r: Iv): seq<Iv>
    requires 0 < k <= |s|
  {
    s[..k - 1] + Cut(s[k - 1], r) + s[k..]
  }

  /** DeleteOne in terms of the ordered set `s`. */
  lemma DeleteOrdered(es: seq<Iv>, r: Iv)
    ensures var s, k := Sort(Low(), es), Upto(Sort(Low(), es), r.lo);
            var o := DeleteOne(true, es, r);
            && (o.Done? <==> k > 0 && Inside(r, s[k - 1]))
            && (o.Done? ==> multiset(o.set_) == multiset(Replaced(s, k, r)))
            && (o.Done? ==> o.purge == if s[k - 1].kernel then [s[k - 1]] else [])
  {
    var s, k := Sort(Low(), es), Upto(Sort(Low(), es), r.lo);
    var t := Sort(Low(), [r] + es);
    RemovePlace(es, r);
    hide Sort, Upto, Trim;
    assert |t| == |es| + 1 && t[k] == r && t[k + 1..] == s[k..];
    if k > 0 {
      assert t[k - 1] == s[k - 1] && t[..k - 1] == s[..k - 1];
      TrimIsCut(s[k - 1], r);
      var m := Trim(true, s[k - 1], r);
      if m.Trimmed? { BagPieces(m.front, s[..k - 1], m.place, s[k..], m.back, Cut(s[k - 1], r)); }
    }
  }

  // ------------------------------------------------------------------ one removal

  lemma CutCovers(prev: Iv, r: Iv, x: int)
    requires prev.lo <= r.lo <= r.hi <= prev.hi && !(Same(prev, r) && !prev.kernel)
    ensures Covers(Cut(prev, r), x) <==> prev.lo <= x <= prev.hi && !(r.lo <= x <= r.hi)
  {
    var a := if prev.lo < r.lo then [Iv(prev.lo, r.lo - 1, false)] else [];
    var b := if r.hi < prev.hi then [Iv(r.hi + 1, prev.hi, false)] else [];
    CoversAppend(a, b, x);
    CoversOne(Iv(prev.lo, r.lo - 1, false), x);
    CoversOne(Iv(r.hi + 1, prev.hi, false), x);
  }

  /** Replacing a range by ranges inside it keeps everything apart. */
  lemma ReplaceSeparated(gap: int, before: seq<Iv>, prev: Iv, after: seq<Iv>, cut: seq<Iv>)
    requires Separated(gap, before + [prev] + after) && Separated(gap, cut)
    requires forall i :: 0 <= i < |cut| ==> prev.lo <= cut[i].lo && cut[i].hi <= prev.hi
    ensures Separated(gap, before + cut + after)
  {
    var s, t, n, m := before + [prev] + after, before + cut + after, |before|, |cut|;
    SeparatedPairs(gap, s);
    SeparatedPairs(gap, cut);
    SeparatedPairs(gap, t);
    hide Separated;
    forall i, j | 0 <= i < j < |t| ensures t[i].hi + gap < t[j].lo {
      var a := if i < n then i else if i < n + m then n else i - m + 1;
      var b := if j < n then j else if j < n + m then n else j - m + 1;
      PartAt(before, cut, after, i);
      PartAt(before, cut, after, j);
      PartAt(before, [prev], after, a);
      PartAt(before, [prev], after, b);
      if a < b {
        assert s[a].hi + gap < s[b].lo;
      } else {
        assert cut[i - n].hi + gap < cut[j - n].lo;
      }
    }
  }

  lemma PartAt(before: seq<Iv>, mid: seq<Iv>, after: seq<Iv>, i: nat)
    requires i < |before| + |mid| + |after|
    ensures var n, m := |before|, |mid|;
            (before + mid + after)[i] == if i < n then before[i] else if i < n + m then mid[i - n] else after[i - n - m]
  {
  }

  lemma {:induction false} CountTimes(es: seq<Iv>, v: Iv)
    ensures Count(es, v) == if v.kernel then Times(es, v) else 0
  {
    if es != [] {
      assert es == [es[0]] + es[1..];
      CountTimes(es[1..], v);
      CountCons(es[0], es[1..], v);
      TimesCons(es[0], es[1..], v);
    }
  }

  lemma CountPermuted(es: seq<Iv>, fs: seq<Iv>, v: Iv)
    requires multiset(es) == multiset(fs)
    ensures Count(es, v) == Count(fs, v)
  {
    CountTimes(es, v);
    CountTimes(fs, v);
  }

  lemma InsidePermuted(es: seq<Iv>, fs: seq<Iv>, r: Iv)
    requires multiset(es) == multiset(fs) && InsideSome(r, es)
    ensures InsideSome(r, fs)
  {
    var i :| 0 <= i < |es| && Inside(r, es[i]);
    assert es[i] in multiset(fs);
    var j :| 0 <= j < |fs| && fs[j] == es[i];
  }

  /** Only the last range that starts no later than `r` can contain it. */
  lemma InsideLast(gap: int, s: seq<Iv>, r: Iv)
    requires gap >= 0 && Separated(gap, s) && Nonempty(s) && r.lo <= r.hi
    ensures var k := Upto(s, r.lo); InsideSome(r, s) <==> k > 0 && Inside(r, s[k - 1])
  {
    hide Separated;
    var k := Upto(s, r.lo);
    SeparatedPairs(gap, s);
    if InsideSome(r, s) {
      var i :| 0 <= i < |s| && Inside(r, s[i]);
    }
  }

  /** The set may be read in order: nothing that matters depends on the order of the list. */
  lemma OrderedView(gap: int, es: seq<Iv>, v: Iv, x: int, r: Iv)
    requires Ordered(gap, es)
    ensures var s := Sort(Low(), es);
            && Nonempty(s) && |s| == |es|
            && Count(s, v) == Count(es, v)
            && (Covers(s, x) <==> Covers(es, x))
            && (InsideSome(r, s) <==> InsideSome(r, es))
  {
    var s := Sort(Low(), es);
    SortElements(Low(), es);
    SortPermutes(Low(), es);
    hide Sort;
    CountPermuted(s, es, v);
    if Covers(s, x) { CoversPermuted(s, es, x); }
    if Covers(es, x) { CoversPermuted(es, s, x); }
    if InsideSome(r, s) { InsidePermuted(s, es, r); }
    if InsideSome(r, es) { InsidePermuted(es, s, r); }
  }

  /** A list that is a permutation of an ordered set sorts to it. */
  lemma OrderedFromParts(gap: int, es: seq<Iv>, t: seq<Iv>)
    requires gap >= 0 && multiset(es) == multiset(t) && Nonempty(t) && Separated(gap, t)
    ensures Sort(Low(), es) == t && Ordered(gap, es)
  {
    SortSorts(Low(), es);
    SortPermutes(Low(), es);
    SeparatedPairs(gap, t);
    hide Sort, Sorted;
    SortedOrder(Low(), Sort(Low(), es), t);
    forall i | 0 <= i < |es| ensures es[i].lo <= es[i].hi { assert es[i] in multiset(t); }
  }

  /** `r` does not name exactly an element that is not flagged KERNEL: such an element would stay. */
  ghost predicate Removable(es: seq<Iv>, r: Iv) {
    forall i :: 0 <= i < |es| && Same(es[i], r) ==> es[i].kernel
  }

  lemma ReplacedFacts(gap: int, s: seq<Iv>, k: nat, r: Iv)
    requires 0 <= gap <= 1 && Separated(gap, s) && Nonempty(s) && r.lo <= r.hi
    requires 0 < k <= |s| && Inside(r, s[k - 1])
    ensures Separated(gap, Replaced(s, k, r)) && Nonempty(Replaced(s, k, r))
  {
    var before, prev, after := s[..k - 1], s[k - 1], s[k..];
    var cut := Cut(prev, r);
    assert s == before + [prev] + after;
    assert Replaced(s, k, r) == before + cut + after;
    CutApart(gap, prev, r);
    assert Nonempty(before) && Nonempty(after);
    hide Cut, Separated;
    ReplaceSeparated(gap, before, prev, after, cut);
    forall i | 0 <= i < |before + cut + after| ensures (before + cut + after)[i].lo <= (before + cut + after)[i].hi {
      PartAt(before, cut, after, i);
    }
  }

  lemma CutApart(gap: int, prev: Iv, r: Iv)
    requires 0 <= gap <= 1 && Inside(r, prev) && r.lo <= r.hi
    ensures Separated(gap, Cut(prev, r)) && Nonempty(Cut(prev, r))
    ensures forall c :: 0 <= c < |Cut(prev, r)| ==> prev.lo <= Cut(prev, r)[c].lo && Cut(prev, r)[c].hi <= prev.hi
  {
    hide Separated;
    var cut := Cut(prev, r);
    SeparatedPairs(gap, cut);
    forall i, j | 0 <= i < j < |cut| ensures cut[i].hi + gap < cut[j].lo {
      assert cut[0] == Iv(prev.lo, r.lo - 1, false) && cut[1] == Iv(r.hi + 1, prev.hi, false);
      assert i == 0 && j == 1;
    }
  }

  lemma ReplacedCovers(gap: int, s: seq<Iv>, k: nat, r: Iv, x: int)
    requires gap >= 0 && Separated(gap, s) && Nonempty(s) && r.lo <= r.hi
    requires 0 < k <= |s| && Inside(r, s[k - 1]) && !(Same(s[k - 1], r) && !s[k - 1].kernel)
    ensures Covers(Replaced(s, k, r), x) <==> Covers(s, x) && !(r.lo <= x <= r.hi)
  {
    var before, prev, after := s[..k - 1], s[k - 1], s[k..];
    assert s == before + [prev] + after;
    SeparatedPairs(gap, s);
    CutCovers(prev, r, x);
    hide Cut, Separated, Covers, Nonempty;
    CoversAppend(before + [prev], after, x);
    CoversAppend(before, [prev], x);
    CoversOne(prev, x);
    CoversAppend(before + Cut(prev, r), after, x);
    CoversAppend(before, Cut(prev, r), x);
  }

  lemma ReplacedCounts(s: seq<Iv>, k: nat, r: Iv, v: Iv)
    requires 0 < k <= |s| && Inside(r, s[k - 1]) && r.lo <= r.hi && !(Same(s[k - 1], r) && !s[k - 1].kernel)
    ensures Count(Replaced(s, k, r), v) + (if s[k - 1].kernel && s[k - 1] == v then 1 else 0) == Count(s, v)
  {
    var before, prev, after := s[..k - 1], s[k - 1], s[k..];
    assert s == before + [prev] + after;
    var cut := Cut(prev, r);
    KernelNone(cut);
    assert Count(cut, v) == 0;
    hide *;
    CountAppend(before + [prev], after, v);
    CountAppend(before, [prev], v);
    CountOne(prev, v);
    CountAppend(before + cut, after, v);
    CountAppend(before, cut, v);
    assert Replaced(s, k, r) == before + cut + after by { ReplacedParts(s, k, r); }
  }

  lemma ReplacedParts(s: seq<Iv>, k: nat, r: Iv)
    requires 0 < k <= |s|
    ensures Replaced(s, k, r) == s[..k - 1] + Cut(s[k - 1], r) + s[k..]
  {
  }

  /** A range that does not meet `r` is inside an element exactly as before. */
  lemma ReplacedInside(s: seq<Iv>, k: nat, r: Iv, q: Iv)
    requires 0 < k <= |s| && Inside(r, s[k - 1]) && r.lo <= r.hi && q.lo <= q.hi
    requires q.hi < r.lo || r.hi < q.lo
    ensures InsideSome(q, Replaced(s, k, r)) <==> InsideSome(q, s)
  {
    var t, prev, cut := Replaced(s, k, r), s[k - 1], Cut(s[k - 1], r);
    if InsideSome(q, s) {
      var i :| 0 <= i < |s| && Inside(q, s[i]);
      if i < k - 1 { assert t[i] == s[i]; }
      else if i >= k { assert t[i - 1 + |cut|] == s[i]; }
      else {
        var c := CutHolds(prev, r, q);
        assert t[k - 1 + c] == cut[c];
      }
    }
    if InsideSome(q, t) {
      var i :| 0 <= i < |t| && Inside(q, t[i]);
      if i < k - 1 { assert t[i] == s[i]; }
      else if i >= k - 1 + |cut| { assert t[i] == s[i + 1 - |cut|]; }
      else {
        assert t[i] == cut[i - k + 1];
        assert Inside(q, s[k - 1]);
      }
    }
  }

  lemma CutHolds(prev: Iv, r: Iv, q: Iv) returns (c: nat)
    requires Inside(r, prev) && Inside(q, prev) && r.lo <= r.hi && q.lo <= q.hi
    requires q.hi < r.lo || r.hi < q.lo
    ensures c < |Cut(prev, r)| && Inside(q, Cut(prev, r)[c])
  {
    c := if q.hi < r.lo then 0 else |Cut(prev, r)| - 1;
  }

  /** One REMOVE element. It is found iff it lies inside one element of the set; then exactly its points
      go, the set stays ordered, an element of the kernel's goes to the purge list iff it is no longer
      in the set as it was, and other ranges are inside an element exactly as before. */
  lemma DeleteOneExact(gap: int, es: seq<Iv>, r: Iv)
    requires 0 <= gap <= 1 && Ordered(gap, es) && r.lo <= r.hi && Removable(es, r)
    ensures var o := DeleteOne(true, es, r);
            && (o.Done? <==> InsideSome(r, es))
            && (o.Done? ==>
                  && Ordered(gap, o.set_)
                  && (forall x :: Covers(o.set_, x) <==> Covers(es, x) && !(r.lo <= x <= r.hi))
                  && (forall v :: Count(o.set_, v) + Times(o.purge, v) == Count(es, v)))
  {
    var s, k, o := Sort(Low(), es), Upto(Sort(Low(), es), r.lo), DeleteOne(true, es, r);
    DeleteOrdered(es, r);
    OrderedView(gap, es, r, 0, r);
    InsideLast(gap, s, r);
    if o.Done? {
      RemovableInOrder(es, r, k - 1);
      ReplacedFacts(gap, s, k, r);
      OrderedFromParts(gap, o.set_, Replaced(s, k, r));
      hide *;
      forall x ensures Covers(o.set_, x) <==> Covers(es, x) && !(r.lo <= x <= r.hi) {
        OneCovers(gap, es, r, x);
      }
      forall v ensures Count(o.set_, v) + Times(o.purge, v) == Count(es, v) {
        OneCounts(gap, es, r, v);
      }
    }
  }

  lemma OneCovers(gap: int, es: seq<Iv>, r: Iv, x: int)
    requires 0 <= gap <= 1 && Ordered(gap, es) && r.lo <= r.hi && Removable(es, r)
    requires DeleteOne(true, es, r).Done? && Ordered(gap, DeleteOne(true, es, r).set_)
    ensures Covers(DeleteOne(true, es, r).set_, x) <==> Covers(es, x) && !(r.lo <= x <= r.hi)
  {
    var s, k, t := Sort(Low(), es), Upto(Sort(Low(), es), r.lo), DeleteOne(true, es, r).set_;
    DeleteOrdered(es, r);
    OrderedView(gap, es, r, x, r);
    RemovableInOrder(es, r, k - 1);
    ReplacedCovers(gap, s, k, r, x);
    hide Sort, DeleteOne, Upto, Ordered, Replaced;
    if Covers(t, x) { CoversPermuted(t, Replaced(s, k, r), x); }
    if Covers(Replaced(s, k, r), x) { CoversPermuted(Replaced(s, k, r), t, x); }
  }

  lemma OneCounts(gap: int, es: seq<Iv>, r: Iv, v: Iv)
    requires 0 <= gap <= 1 && Ordered(gap, es) && r.lo <= r.hi && Removable(es, r)
    requires DeleteOne(true, es, r).Done?
    ensures Count(DeleteOne(true, es, r).set_, v) + Times(DeleteOne(true, es, r).purge, v) == Count(es, v)
  {
    var s, k, t := Sort(Low(), es), Upto(Sort(Low(), es), r.lo), DeleteOne(true, es, r).set_;
    DeleteOrdered(es, r);
    OrderedView(gap, es, v, 0, r);
    RemovableInOrder(es, r, k - 1);
    ReplacedCounts(s, k, r, v);
    hide Sort, DeleteOne, Upto, Ordered, Replaced, Times, Count;
    CountPermuted(t, Replaced(s, k, r), v);
  }

  lemma RemovableInOrder(es: seq<Iv>, r: Iv, i: nat)
    requires Removable(es, r) && i < |Sort(Low(), es)| == |es|
    ensures !(Same(Sort(Low(), es)[i], r) && !Sort(Low(), es)[i].kernel)
  {
    SortElements(Low(), es);
    var e := Sort(Low(), es)[i];
    assert e in es;
  }

  // ------------------------------------------------------------------ the exact condition

  /** What happens when the exact match is an element that is not flagged KERNEL (one that the set has been
      declared with in the same batch): it stays in the set, so nothing at all is removed. */
  lemma DeleteOneKeepsUnflagged(es: seq<Iv>, r: Iv)
    requires Ordered(0, es) && r.lo <= r.hi && !Removable(es, r)
    ensures var o := DeleteOne(true, es, r);
            o.Done? && multiset(o.set_) == multiset(es) && o.purge == []
  {
    var s, k := Sort(Low(), es), Upto(Sort(Low(), es), r.lo);
    FindUnflagged(es, r);
    SortPermutes(Low(), es);
    DeleteOrdered(es, r);
    ReplacedSame(s, k, r);
    hide *;
  }

  lemma ReplacedSame(s: seq<Iv>, k: nat, r: Iv)
    requires 0 < k <= |s| && Same(s[k - 1], r) && !s[k - 1].kernel
    ensures Replaced(s, k, r) == s && Inside(r, s[k - 1])
  {
  }

  lemma SortMember(es: seq<Iv>, i: nat) returns (j: nat)
    requires i < |es|
    ensures j < |Sort(Low(), es)| && Sort(Low(), es)[j] == es[i]
  {
    var s := Sort(Low(), es);
    SortPermutes(Low(), es);
    hide Sort;
    assert es[i] in multiset(s);
    j :| 0 <= j < |s| && s[j] == es[i];
  }

  lemma FindUnflagged(es: seq<Iv>, r: Iv)
    requires Ordered(0, es) && r.lo <= r.hi && !Removable(es, r)
    ensures var s, k := Sort(Low(), es), Upto(Sort(Low(), es), r.lo);
            k > 0 && Same(s[k - 1], r) && !s[k - 1].kernel
  {
    hide Sort, Upto, Separated, Nonempty;
    var s := Sort(Low(), es);
    var k := Upto(s, r.lo);
    var i :| 0 <= i < |es| && Same(es[i], r) && !es[i].kernel;
    var j := SortMember(es, i);
    SortedNonempty(es);
    SameAt(s, r, j);
  }

  lemma SortedNonempty(es: seq<Iv>)
    requires Nonempty(es)
    ensures Nonempty(Sort(Low(), es))
  {
    SortElements(Low(), es);
  }

  lemma SameAt(s: seq<Iv>, r: Iv, j: nat)
    requires Nonempty(s) && Separated(0, s) && j < |s| && Same(s[j], r)
    ensures Upto(s, r.lo) == j + 1
  {
    SeparatedPairs(0, s);
    var k := Upto(s, r.lo);
  }

  /** One removal takes exactly its points off the set iff it is not an exact match of an element that
      is not flagged KERNEL. */
  lemma DeleteOneExactIff(es: seq<Iv>, r: Iv)
    requires Ordered(0, es) && r.lo <= r.hi && DeleteOne(true, es, r).Done?
    ensures (forall x :: Covers(DeleteOne(true, es, r).set_, x) <==> Covers(es, x) && !(r.lo <= x <= r.hi))
            <==> Removable(es, r)
  {
    var o := DeleteOne(true, es, r);
    if Removable(es, r) {
      DeleteOneExact(0, es, r);
    } else {
      DeleteOneKeepsUnflagged(es, r);
      var i :| 0 <= i < |es| && Same(es[i], r) && !es[i].kernel;
      assert Covers(es, r.lo);
      CoversPermuted(es, o.set_, r.lo);
    }
  }

  // ------------------------------------------------------------------ one removal, whatever the flags

  lemma OrderedPermuted(gap: int, es: seq<Iv>, fs: seq<Iv>)
    requires gap >= 0 && Ordered(gap, es) && multiset(fs) == multiset(es)
    ensures Ordered(gap, fs)
    ensures forall x :: Covers(fs, x) <==> Covers(es, x)
    ensures forall v :: Count(fs, v) == Count(es, v)
    ensures forall q :: (InsideSome(q, fs) <==> InsideSome(q, es)) && (Removable(fs, q) <==> Removable(es, q))
  {
    SortPermutes(Low(), es);
    SortedNonempty(es);
    hide Sort;
    OrderedFromParts(gap, fs, Sort(Low(), es));
    hide Ordered, Count, Removable, Covers, InsideSome;
    forall x ensures Covers(fs, x) <==> Covers(es, x) {
      if Covers(es, x) { CoversPermuted(es, fs, x); }
      if Covers(fs, x) { CoversPermuted(fs, es, x); }
    }
    forall v ensures Count(fs, v) == Count(es, v) { CountPermuted(fs, es, v); }
    forall q ensures (InsideSome(q, fs) <==> InsideSome(q, es)) && (Removable(fs, q) <==> Removable(es, q)) {
      if InsideSome(q, es) { InsidePermuted(es, fs, q); }
      if InsideSome(q, fs) { InsidePermuted(fs, es, q); }
      if Removable(es, q) { RemovablePermuted(es, fs, q); }
      if Removable(fs, q) { RemovablePermuted(fs, es, q); }
    }
  }

  lemma RemovablePermuted(es: seq<Iv>, fs: seq<Iv>, q: Iv)
    requires multiset(es) == multiset(fs) && Removable(es, q)
    ensures Removable(fs, q)
  {
    forall i | 0 <= i < |fs| && Same(fs[i], q) ensures fs[i].kernel { assert fs[i] in multiset(es); }
  }

  /** One REMOVE element: its points go unless it is an exact match of an element that is not flagged KERNEL. */
  lemma DeleteOneEffect(gap: int, es: seq<Iv>, r: Iv)
    requires 0 <= gap <= 1 && Ordered(gap, es) && r.lo <= r.hi
    ensures var o := DeleteOne(true, es, r);
            && (o.Done? <==> InsideSome(r, es))
            && (o.Done? ==>
                  && Ordered(gap, o.set_)
                  && (forall x :: Covers(o.set_, x) <==> Covers(es, x) && !(Removable(es, r) && r.lo <= x <= r.hi))
                  && (forall v :: Count(o.set_, v) + Times(o.purge, v) == Count(es, v)))
  {
    if Removable(es, r) {
      DeleteOneExact(gap, es, r);
    } else {
      var o := DeleteOne(true, es, r);
      OrderedWeakens(gap, es);
      DeleteOneKeepsUnflagged(es, r);
      var i :| 0 <= i < |es| && Same(es[i], r) && !es[i].kernel;
      assert Inside(r, es[i]);
      hide DeleteOne, Ordered, Covers, Count;
      OrderedPermuted(gap, es, o.set_);
    }
  }

  lemma OrderedWeakens(gap: int, es: seq<Iv>)
    requires gap >= 0 && Ordered(gap, es)
    ensures Ordered(0, es)
  {
    SeparatedPairs(gap, Sort(Low(), es));
    SeparatedPairs(0, Sort(Low(), es));
  }

  /** At least one value lies between the two ranges. */
  predicate ApartFrom(r: Iv, q: Iv) {
    r.hi + 1 < q.lo || q.hi + 1 < r.lo
  }

  lemma ReplacedRemovable(s: seq<Iv>, k: nat, r: Iv, q: Iv)
    requires 0 < k <= |s| && Inside(r, s[k - 1]) && r.lo <= r.hi && q.lo <= q.hi && ApartFrom(r, q)
    ensures Removable(Replaced(s, k, r), q) <==> Removable(s, q)
  {
    var t, cut := Replaced(s, k, r), Cut(s[k - 1], r);
    assert forall c :: 0 <= c < |cut| ==> !Same(cut[c], q);
    hide Cut;
    if Removable(s, q) {
      forall i | 0 <= i < |t| ensures Same(t[i], q) ==> t[i].kernel {
        if i < k - 1 { assert t[i] == s[i]; }
        else if i >= k - 1 + |cut| { assert t[i] == s[i + 1 - |cut|]; }
        else { assert t[i] == cut[i - k + 1]; }
      }
    }
    if Removable(t, q) {
      forall i | 0 <= i < |s| && Same(s[i], q) ensures s[i].kernel {
        if i < k - 1 { assert t[i] == s[i]; }
        else if i >= k { assert t[i - 1 + |cut|] == s[i]; }
      }
    }
  }

  /** A removal makes no difference to what happens to one that is apart from it. */
  lemma DeleteOneOthers(gap: int, es: seq<Iv>, r: Iv, q: Iv)
    requires 0 <= gap <= 1 && Ordered(gap, es) && r.lo <= r.hi && q.lo <= q.hi && ApartFrom(r, q)
    requires DeleteOne(true, es, r).Done?
    ensures InsideSome(q, DeleteOne(true, es, r).set_) <==> InsideSome(q, es)
    ensures Removable(DeleteOne(true, es, r).set_, q) <==> Removable(es, q)
  {
    var s, k, o := Sort(Low(), es), Upto(Sort(Low(), es), r.lo), DeleteOne(true, es, r);
    DeleteOrdered(es, r);
    SortPermutes(Low(), es);
    OrderedPermuted(gap, es, s);
    SortedNonempty(es);
    ReplacedFacts(gap, s, k, r);
    ReplacedInside(s, k, r, q);
    ReplacedRemovable(s, k, r, q);
    hide DeleteOne, Sort, Upto, Replaced, InsideSome, Removable, Inside, Nonempty, Separated;
    SortedAgain(gap, o.set_, Replaced(s, k, r));
    OrderedPermuted(gap, Replaced(s, k, r), o.set_);
  }

  /** A separated list is an ordered set. */
  lemma SortedAgain(gap: int, es: seq<Iv>, t: seq<Iv>)
    requires gap >= 0 && Nonempty(t) && Separated(gap, t)
    ensures Ordered(gap, t)
  {
    OrderedFromParts(gap, t, t);
  }

  // ------------------------------------------------------------------ without auto-merge

  ghost predicate Matches(es: seq<Iv>, r: Iv) {
    exists i :: 0 <= i < |es| && Same(es[i], r)
  }

  /** Only the last element that starts no later can be an exact match. */
  lemma MatchPlace(es: seq<Iv>, r: Iv)
    requires Ordered(0, es) && r.lo <= r.hi
    ensures var s, k := Sort(Low(), es), Upto(Sort(Low(), es), r.lo);
            |s| == |es| && (Matches(es, r) <==> k > 0 && Same(s[k - 1], r))
  {
    var s, k := Sort(Low(), es), Upto(Sort(Low(), es), r.lo);
    SortedNonempty(es);
    SortElements(Low(), es);
    hide Sort;
    if Matches(es, r) {
      var i :| 0 <= i < |es| && Same(es[i], r);
      var j := SortMember(es, i);
      SameAt(s, r, j);
    }
    if k > 0 && Same(s[k - 1], r) {
      assert s[k - 1] in es;
    }
  }

  /** Without auto-merge only an exact match is found; then the same happens to it. */
  lemma DeleteOnePlain(es: seq<Iv>, r: Iv)
    requires Ordered(0, es) && r.lo <= r.hi
    ensures DeleteOne(false, es, r) == if Matches(es, r) then DeleteOne(true, es, r) else Missing
  {
    var s, k := Sort(Low(), es), Upto(Sort(Low(), es), r.lo);
    var t := Sort(Low(), [r] + es);
    RemovePlace(es, r);
    MatchPlace(es, r);
    assert DeleteOne(false, es, r) == DeleteAt(false, t, k) && DeleteOne(true, es, r) == DeleteAt(true, t, k);
    hide Sort, Upto, Ordered, DeleteOne, Matches;
    if k > 0 {
      assert t[k - 1] == s[k - 1] && t[k] == r;
    }
  }

  /** What a removal leaves matches what it matched before, except for the removed element. */
  lemma DeleteOneMatches(es: seq<Iv>, r: Iv, q: Iv)
    requires Ordered(0, es) && r.lo <= r.hi && q.lo <= q.hi && Matches(es, r)
    requires DeleteOne(true, es, r).Done?
    ensures Matches(DeleteOne(true, es, r).set_, q) <==> Matches(es, q) && !(Same(r, q) && Removable(es, r))
    ensures Removable(DeleteOne(true, es, r).set_, q) <==> Removable(es, q)
  {
    var s, k, o := Sort(Low(), es), Upto(Sort(Low(), es), r.lo), DeleteOne(true, es, r);
    DeleteOrdered(es, r);
    SortPermutes(Low(), es);
    MatchPlace(es, r);
    OnlyMatch(es, r, k - 1);
    ReplacedMatches(s, k, r, q);
    hide DeleteOne, Sort, Upto, Replaced, Separated, Nonempty, Matches, Removable;
    MatchesPermuted(es, s, q);
    MatchesPermuted(es, s, r);
    MatchesPermuted(o.set_, Replaced(s, k, r), q);
  }

  lemma OnlyMatch(es: seq<Iv>, r: Iv, k: nat)
    requires Ordered(0, es) && k < |Sort(Low(), es)| && Same(Sort(Low(), es)[k], r) && r.lo <= r.hi
    ensures var s := Sort(Low(), es); forall i :: 0 <= i < |s| && i != k ==> !Same(s[i], r)
  {
    SeparatedPairs(0, Sort(Low(), es));
    hide Sort, Separated;
  }

  lemma MatchesPermuted(es: seq<Iv>, fs: seq<Iv>, q: Iv)
    requires multiset(es) == multiset(fs)
    ensures Matches(es, q) <==> Matches(fs, q)
    ensures Removable(es, q) <==> Removable(fs, q)
  {
    if Matches(es, q) { MatchMoves(es, fs, q); }
    if Matches(fs, q) { MatchMoves(fs, es, q); }
    if Removable(es, q) { RemovablePermuted(es, fs, q); }
    if Removable(fs, q) { RemovablePermuted(fs, es, q); }
  }

  lemma MatchMoves(es: seq<Iv>, fs: seq<Iv>, q: Iv)
    requires multiset(es) == multiset(fs) && Matches(es, q)
    ensures Matches(fs, q)
  {
    var i :| 0 <= i < |es| && Same(es[i], q);
    assert es[i] in multiset(fs);
    var j :| 0 <= j < |fs| && fs[j] == es[i];
  }

  lemma ReplacedMatches(s: seq<Iv>, k: nat, r: Iv, q: Iv)
    requires 0 < k <= |s| && Same(s[k - 1], r) && forall i :: 0 <= i < |s| && i != k - 1 ==> !Same(s[i], r)
    ensures Matches(Replaced(s, k, r), q) <==> Matches(s, q) && !(Same(r, q) && Removable(s, r))
    ensures Removable(Replaced(s, k, r), q) <==> Removable(s, q)
  {
    var t := Replaced(s, k, r);
    assert Removable(s, r) <==> s[k - 1].kernel;
    if s[k - 1].kernel {
      ReplacedGone(s, k, r);
      WithoutMatches(s, k, r, q, t);
    } else {
      ReplacedSame(s, k, r);
    }
  }

  lemma ReplacedGone(s: seq<Iv>, k: nat, r: Iv)
    requires 0 < k <= |s| && Same(s[k - 1], r) && s[k - 1].kernel
    ensures |Replaced(s, k, r)| == |s| - 1
    ensures forall i :: 0 <= i < |s| - 1 ==> Replaced(s, k, r)[i] == s[if i < k - 1 then i else i + 1]
  {
    assert Replaced(s, k, r) == s[..k - 1] + s[k..];
  }

  lemma WithoutMatches(s: seq<Iv>, k: nat, r: Iv, q: Iv, t: seq<Iv>)
    requires 0 < k <= |s| && Same(s[k - 1], r) && s[k - 1].kernel
    requires forall i :: 0 <= i < |s| && i != k - 1 ==> !Same(s[i], r)
    requires |t| == |s| - 1 && forall i :: 0 <= i < |t| ==> t[i] == s[if i < k - 1 then i else i + 1]
    ensures Matches(t, q) <==> Matches(s, q) && !Same(r, q)
    ensures Removable(t, q) <==> Removable(s, q)
  {
    if Matches(t, q) {
      var i :| 0 <= i < |t| && Same(t[i], q);
      assert !Same(s[if i < k - 1 then i else i + 1], r);
    }
    if Matches(s, q) && !Same(r, q) {
      var i :| 0 <= i < |s| && Same(s[i], q);
      assert t[if i < k - 1 then i else i - 1] == s[i];
    }
    if Removable(t, q) {
      forall i | 0 <= i < |s| && Same(s[i], q) ensures s[i].kernel {
        if i != k - 1 { assert t[if i < k - 1 then i else i - 1] == s[i]; }
      }
    }
  }
}
