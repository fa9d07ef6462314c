/** Auto-merge of interval sets (src/intervals.c): what setelem_automerge and set_automerge
    compute on lists of ranges, and why executing the resulting delta takes the kernel's
    set to the merged one. The in-place code is in IntervalLists. */
module Automerge {
  import opened MergeSort

  /** A set element after set_to_range: a closed range, and whether the kernel already has it. */
  datatype Iv = Iv(lo: int, hi: int, kernel: bool)

  /** What a merge leaves in the list, and what it moves to the purge list. */
  datatype Delta = Delta(left: seq<Iv>, purge: seq<Iv>)

  /** One round of the loop: the new `prev`, what is kept in front of it for good, what is purged. */
  datatype Round = Round(prev: Iv, kept: seq<Iv>, purged: seq<Iv>)

  function Low(): Iv -> int {
    (e: Iv) => e.lo
  }

  /** Consecutive ranges further apart than this are not merged. */
  function Gap(automerge: bool): int {
    if automerge then 1 else 0
  }

  /** The loop body of setelem_automerge for `i`, when `prev` is the last range kept. */
  function Absorb(automerge: bool, prev: Iv, i: Iv): Round {
    if prev.lo <= i.lo && prev.hi >= i.hi then
      Round(prev, [], if i.kernel then [i] else [])
    else if i.lo <= prev.hi || (automerge && i.lo - prev.hi == 1) then
      if prev.kernel then Round(Iv(prev.lo, i.hi, i.kernel), [], [prev])
      else Round(Iv(prev.lo, i.hi, false), [], if i.kernel then [i] else [])
    else
      Round(i, [prev], [])
  }

  /** The loop of setelem_automerge from the point where `prev` is the last range kept. */
  function MergeFrom(automerge: bool, prev: Iv, rest: seq<Iv>): Delta
    decreases |rest|
  {
    if rest == [] then Delta([prev], [])
    else
      var r := Absorb(automerge, prev, rest[0]);
      var d := MergeFrom(automerge, r.prev, rest[1..]);
      Delta(r.kept + d.left, r.purged + d.purge)
  }

  function MergeList(automerge: bool, es: seq<Iv>): Delta {
    if es == [] then Delta([], []) else MergeFrom(automerge, es[0], es[1..])
  }

  // ------------------------------------------------------------------ vocabulary

  ghost predicate Nonempty(es: seq<Iv>) {
    forall i :: 0 <= i < |es| ==> es[i].lo <= es[i].hi
  }

  ghost predicate Covers(es: seq<Iv>, x: int) {
    exists i :: 0 <= i < |es| && es[i].lo <= x <= es[i].hi
  }

  /** Every range of `es` starts more than `gap` after `hi`. */
  ghost predicate Beyond(gap: int, hi: int, es: seq<Iv>) {
    forall i :: 0 <= i < |es| ==> hi + gap < es[i].lo
  }

  /** Ordered, and any two ranges further apart than `gap`. */
  ghost predicate Separated(gap: int, es: seq<Iv>) {
    es == [] || (Beyond(gap, es[0].hi, es[1..]) && Separated(gap, es[1..]))
  }

  /** The elements the kernel has. */
  function Kernel(es: seq<Iv>): (r: seq<Iv>)
    ensures forall i :: 0 <= i < |r| ==> r[i].kernel && r[i] in es
  {
    if es == [] then [] else (if es[0].kernel then [es[0]] else []) + Kernel(es[1..])
  }

  /** How often the kernel has `v`, going by the flags in the list. */
  ghost function Count(es: seq<Iv>, v: Iv): nat {
    multiset(Kernel(es))[v]
  }

  /** What set_automerge needs of one sorted list: the kernel's elements are further apart than the gap. */
  ghost predicate Ready(automerge: bool, prev: Iv, rest: seq<Iv>) {
    && prev.lo <= prev.hi && Nonempty(rest)
    && NoneBelow(Low(), prev.lo, rest) && Sorted(Low(), rest)
  }

  lemma CoversAppend(es: seq<Iv>, fs: seq<Iv>, x: int)
    ensures Covers(es + fs, x) <==> Covers(es, x) || Covers(fs, x)
  {
    var s := es + fs;
    if Covers(es, x) {
      var i :| 0 <= i < |es| && es[i].lo <= x <= es[i].hi;
      assert s[i] == es[i];
    }
    if Covers(fs, x) {
      var i :| 0 <= i < |fs| && fs[i].lo <= x <= fs[i].hi;
      assert s[|es| + i] == fs[i];
    }
    if Covers(s, x) {
      var i :| 0 <= i < |s| && s[i].lo <= x <= s[i].hi;
      assert s[i] == if i < |es| then es[i] else fs[i - |es|];
    }
  }

  lemma CoversOne(e: Iv, x: int)
    ensures Covers([e], x) <==> e.lo <= x <= e.hi
  {
    assert [e][0] == e;
  }

  lemma {:induction false} KernelAppend(es: seq<Iv>, fs: seq<Iv>)
    ensures Kernel(es + fs) == Kernel(es) + Kernel(fs)
  {
    if es == [] {
      assert es + fs == fs;
      assert [] + Kernel(fs) == Kernel(fs);
    } else {
      KernelAppend(es[1..], fs);
      assert (es + fs)[1..] == es[1..] + fs;
      Regroup(if es[0].kernel then [es[0]] else [], Kernel(es[1..]), Kernel(fs));
    }
  }

  lemma KernelCons(e: Iv, es: seq<Iv>)
    ensures Kernel([e] + es) == (if e.kernel then [e] else []) + Kernel(es)
  {
    assert ([e] + es)[1..] == es;
  }

  lemma SeparatedCons(gap: int, e: Iv, es: seq<Iv>)
    ensures Separated(gap, [e] + es) <==> Beyond(gap, e.hi, es) && Separated(gap, es)
  {
    assert ([e] + es)[1..] == es;
  }

  lemma BeyondCons(gap: int, hi: int, e: Iv, es: seq<Iv>)
    ensures Beyond(gap, hi, [e] + es) <==> hi + gap < e.lo && Beyond(gap, hi, es)
  {
    var s := [e] + es;
    if Beyond(gap, hi, s) {
      assert s[0] == e;
      forall i | 0 <= i < |es| ensures hi + gap < es[i].lo { assert s[i + 1] == es[i]; }
    }
  }

  lemma CountAppend(es: seq<Iv>, fs: seq<Iv>, v: Iv)
    ensures Count(es + fs, v) == Count(es, v) + Count(fs, v)
  {
    KernelAppend(es, fs);
  }

  lemma CountOne(e: Iv, v: Iv)
    ensures Count([e], v) == if e.kernel && e == v then 1 else 0
  {
    assert Kernel([e]) == if e.kernel then [e] else [];
  }

  /** The rest of a sorted list is ready behind its first element, and behind anything joined with it. */
  lemma ReadyNext(automerge: bool, prev: Iv, rest: seq<Iv>)
    requires rest != [] && Ready(automerge, prev, rest)
    ensures prev.lo <= rest[0].lo <= rest[0].hi
    ensures Ready(automerge, Absorb(automerge, prev, rest[0]).prev, rest[1..])
  {
    assert Low()(rest[0]) >= prev.lo;
    assert NoneBelow(Low(), prev.lo, rest[1..]);
  }

  // ------------------------------------------------------------------ the points

  /** No point is lost and none is gained. */
  lemma {:induction false} MergeFromCovers(automerge: bool, prev: Iv, rest: seq<Iv>, x: int)
    requires Ready(automerge, prev, rest)
    ensures Covers(MergeFrom(automerge, prev, rest).left, x) <==> Covers([prev] + rest, x)
    decreases |rest|
  {
    if rest == [] {
      assert [prev] + rest == [prev];
    } else {
      var i, tail := rest[0], rest[1..];
      ReadyNext(automerge, prev, rest);
      var r := Absorb(automerge, prev, i);
      MergeFromCovers(automerge, r.prev, tail, x);
      assert rest == [i] + tail;
      hide Covers, Ready, MergeFrom;
      CoversAppend([prev], rest, x);
      CoversAppend([i], tail, x);
      CoversAppend([r.prev], tail, x);
      CoversAppend(r.kept, MergeFrom(automerge, r.prev, tail).left, x);
      CoversOne(prev, x);
      CoversOne(i, x);
      CoversOne(r.prev, x);
      CoversAppend(r.kept, [r.prev], x);
      AbsorbCovers(automerge, prev, i, x);
    }
  }

  lemma AbsorbCovers(automerge: bool, prev: Iv, i: Iv, x: int)
    requires prev.lo <= i.lo
    ensures var r := Absorb(automerge, prev, i);
            Covers(r.kept + [r.prev], x) <==> prev.lo <= x <= prev.hi || i.lo <= x <= i.hi
  {
    var r := Absorb(automerge, prev, i);
    CoversAppend(r.kept, [r.prev], x);
    CoversOne(r.prev, x);
    CoversOne(prev, x);
  }

  // ------------------------------------------------------------------ the shape

  /** What is left is ordered, starts where `prev` started, and its ranges are further apart than the gap. */
  lemma {:induction false} MergeFromSeparates(automerge: bool, prev: Iv, rest: seq<Iv>)
    requires Ready(automerge, prev, rest)
    ensures var left := MergeFrom(automerge, prev, rest).left;
            && left != [] && Separated(Gap(automerge), left) && Nonempty(left)
            && forall n :: 0 <= n < |left| ==> prev.lo <= left[n].lo
    decreases |rest|
  {
    if rest != [] {
      ReadyNext(automerge, prev, rest);
      var r := Absorb(automerge, prev, rest[0]);
      MergeFromSeparates(automerge, r.prev, rest[1..]);
      var left := MergeFrom(automerge, r.prev, rest[1..]).left;
      assert MergeFrom(automerge, prev, rest).left == r.kept + left;
      hide MergeFrom, Ready;
      if r.kept == [] {
        assert r.kept + left == left;
      } else {
        SeparatedCons(Gap(automerge), prev, left);
      }
    } else {
      assert MergeFrom(automerge, prev, rest).left == [prev];
    }
  }

  // ------------------------------------------------------------------ the delta

  /** If the kernel's elements are further apart than the gap, every element still flagged KERNEL is
      one the kernel has, with its bounds unchanged, and the others of the kernel's are all purged. */
  lemma {:induction false} MergeFromAccounts(automerge: bool, prev: Iv, rest: seq<Iv>, v: Iv)
    requires Ready(automerge, prev, rest)
    requires Separated(Gap(automerge), Kernel([prev] + rest))
    ensures var d := MergeFrom(automerge, prev, rest);
            Count(d.left, v) + Times(d.purge, v) == Count([prev] + rest, v)
    decreases |rest|
  {
    hide Kernel, Separated, Count, Times, Ready;
    if rest == [] {
      assert [prev] + rest == [prev];
      NothingPurged(v);
    } else {
      var i, tail := rest[0], rest[1..];
      var r := Absorb(automerge, prev, i);
      ReadyNext(automerge, prev, rest);
      assert rest == [i] + tail;
      KernelApart(automerge, prev, i, tail);
      MergeFromAccounts(automerge, r.prev, tail, v);
      AccountsStep(automerge, prev, i, tail, MergeFrom(automerge, r.prev, tail), v);
    }
  }

  lemma NothingPurged(v: Iv)
    ensures Times([], v) == 0
  {
  }

  lemma AccountsStep(automerge: bool, prev: Iv, i: Iv, tail: seq<Iv>, d: Delta, v: Iv)
    requires prev.lo <= i.lo && !(prev.kernel && i.kernel && i.lo <= prev.hi + Gap(automerge))
    requires Count(d.left, v) + Times(d.purge, v) == Count([Absorb(automerge, prev, i).prev] + tail, v)
    ensures var r := Absorb(automerge, prev, i);
            Count(r.kept + d.left, v) + Times(r.purged + d.purge, v) == Count([prev] + ([i] + tail), v)
  {
    hide Kernel, Count, Times, Absorb;
    var r := Absorb(automerge, prev, i);
    CountAppend([prev], [i] + tail, v);
    CountAppend([i], tail, v);
    CountAppend([r.prev], tail, v);
    CountAppend(r.kept, d.left, v);
    AbsorbCounts(automerge, prev, i, v);
    TimesAppend(r.purged, d.purge, v);
  }

  lemma TimesAppend(es: seq<Iv>, fs: seq<Iv>, v: Iv)
    ensures Times(es + fs, v) == Times(es, v) + Times(fs, v)
  {
  }

  lemma AbsorbCounts(automerge: bool, prev: Iv, i: Iv, v: Iv)
    requires prev.lo <= i.lo && !(prev.kernel && i.kernel && i.lo <= prev.hi + Gap(automerge))
    ensures var r := Absorb(automerge, prev, i);
            Count(r.kept, v) + Count([r.prev], v) + Times(r.purged, v) == Count([prev], v) + Count([i], v)
  {
    CountOne(prev, v);
    CountOne(i, v);
    CountOne(Absorb(automerge, prev, i).prev, v);
  }

  lemma KernelApart(automerge: bool, prev: Iv, i: Iv, tail: seq<Iv>)
    requires Separated(Gap(automerge), Kernel([prev] + ([i] + tail)))
    ensures !(prev.kernel && i.kernel && i.lo <= prev.hi + Gap(automerge))
    ensures Separated(Gap(automerge), Kernel([Absorb(automerge, prev, i).prev] + tail))
  {
    var gap, k, r := Gap(automerge), Kernel(tail), Absorb(automerge, prev, i).prev;
    KernelCons(prev, [i] + tail);
    KernelCons(i, tail);
    KernelCons(r, tail);
    hide Kernel, Separated, Beyond;
    SeparatedCons(gap, prev, [i] + k);
    SeparatedCons(gap, prev, k);
    SeparatedCons(gap, i, k);
    BeyondCons(gap, prev.hi, i, k);
    assert [] + k == k && [] + ([i] + k) == [i] + k;
  }

  // ------------------------------------------------------------------ one add command

  /** The elements as the kernel has them once they have been added. */
  function Installed(es: seq<Iv>): (r: seq<Iv>)
    ensures |r| == |es|
    ensures forall i :: 0 <= i < |r| ==> r[i] == Iv(es[i].lo, es[i].hi, true)
  {
    if es == [] then [] else [Iv(es[0].lo, es[0].hi, true)] + Installed(es[1..])
  }

  /** The elements the command adds: those left that the kernel does not have. */
  function Adds(es: seq<Iv>): seq<Iv> {
    if es == [] then [] else (if es[0].kernel then [] else [es[0]]) + Adds(es[1..])
  }

  /** What a command leaves: the existing set, the elements to delete, and those to add. */
  datatype Commands = Commands(existing: seq<Iv>, purge: seq<Iv>, adds: seq<Iv>)

  function SetAutomerge(existing: seq<Iv>, batch: seq<Iv>): Commands {
    var d := MergeList(true, Merge(Low(), existing, Sort(Low(), batch)));
    Commands(Installed(d.left), d.purge, Adds(d.left))
  }

  /** The kernel's set after it has executed the delete and then the add. */
  ghost function Execute(kernel: multiset<Iv>, c: Commands): multiset<Iv> {
    kernel - multiset(c.purge) + multiset(Installed(c.adds))
  }

  /** What existing_set->init holds before a command: also elements that are not flagged KERNEL, if the set
      has been declared with them in the same batch. */
  ghost predicate Stored(gap: int, es: seq<Iv>) {
    Nonempty(es) && Separated(gap, es)
  }

  /** What it holds after one, and in every later batch. */
  ghost predicate Existing(gap: int, es: seq<Iv>) {
    Stored(gap, es) && forall i :: 0 <= i < |es| ==> es[i].kernel
  }

  /** What the parser hands in: ranges in any order, overlapping or not, none from the kernel. */
  ghost predicate Batch(es: seq<Iv>) {
    Nonempty(es) && forall i :: 0 <= i < |es| ==> !es[i].kernel
  }

  lemma {:induction false} KernelOfMerge(ks: seq<Iv>, bs: seq<Iv>)
    requires forall i :: 0 <= i < |bs| ==> !bs[i].kernel
    ensures Kernel(Merge(Low(), ks, bs)) == Kernel(ks)
  {
    if ks == [] {
      KernelNone(bs);
    } else if bs == [] || ks[0].lo < bs[0].lo {
      KernelOfMerge(ks[1..], bs);
      KernelCons(ks[0], Merge(Low(), ks[1..], bs));
      KernelCons(ks[0], ks[1..]);
      assert [ks[0]] + ks[1..] == ks;
    } else {
      KernelOfMerge(ks, bs[1..]);
      KernelCons(bs[0], Merge(Low(), ks, bs[1..]));
    }
  }

  /** The kernel's elements of a separated list are separated. */
  lemma {:induction false} KernelSeparated(gap: int, es: seq<Iv>)
    requires Separated(gap, es)
    ensures Separated(gap, Kernel(es))
  {
    if es != [] {
      var e, tail := es[0], es[1..];
      assert es == [e] + tail;
      KernelSeparated(gap, tail);
      KernelCons(e, tail);
      hide Kernel, Separated;
      SeparatedCons(gap, e, tail);
      SeparatedCons(gap, e, Kernel(tail));
      assert [] + Kernel(tail) == Kernel(tail);
    }
  }

  lemma {:induction false} KernelNone(es: seq<Iv>)
    requires forall i :: 0 <= i < |es| ==> !es[i].kernel
    ensures Kernel(es) == []
  {
    if es != [] { KernelNone(es[1..]); }
  }

  lemma {:induction false} KernelAll(es: seq<Iv>)
    requires forall i :: 0 <= i < |es| ==> es[i].kernel
    ensures Kernel(es) == es
  {
    if es != [] { KernelAll(es[1..]); }
  }

  lemma CoversPermuted(es: seq<Iv>, fs: seq<Iv>, x: int)
    requires multiset(es) == multiset(fs) && Covers(es, x)
    ensures Covers(fs, x)
  {
    var i :| 0 <= i < |es| && es[i].lo <= x <= es[i].hi;
    assert es[i] in multiset(fs);
  }

  lemma {:induction false} SeparatedSorted(gap: int, es: seq<Iv>)
    requires gap >= 0 && Separated(gap, es) && Nonempty(es)
    ensures Sorted(Low(), es)
  {
    if es != [] { SeparatedSorted(gap, es[1..]); }
  }

  /** The list set_sort_splice builds: sorted, with all the elements of both. */
  lemma SpliceReady(gap: int, existing: seq<Iv>, batch: seq<Iv>)
    requires gap >= 0 && Stored(gap, existing) && Batch(batch)
    ensures var es := Merge(Low(), existing, Sort(Low(), batch));
            && Nonempty(es) && Kernel(es) == Kernel(existing)
            && multiset(es) == multiset(existing) + multiset(batch)
            && (es != [] ==> Ready(true, es[0], es[1..]))
            && forall x :: Covers(es, x) <==> Covers(existing, x) || Covers(batch, x)
  {
    var bs := Sort(Low(), batch);
    var es := Merge(Low(), existing, bs);
    SortPermutes(Low(), batch);
    SortSorts(Low(), batch);
    SeparatedSorted(gap, existing);
    MergePermutes(Low(), existing, bs);
    MergeSorted(Low(), existing, bs);
    hide Merge, Sort, Sorted, Separated;
    SplicedElements(existing, batch, bs, es);
    KernelOfMerge(existing, bs);
    hide Covers, Kernel;
    forall x ensures Covers(es, x) <==> Covers(existing, x) || Covers(batch, x) { CoversUnion(es, existing, batch, x); }
    if es != [] { SortedHead(es); }
  }

  lemma SplicedElements(existing: seq<Iv>, batch: seq<Iv>, bs: seq<Iv>, es: seq<Iv>)
    requires Nonempty(existing) && Batch(batch) && multiset(bs) == multiset(batch)
    requires multiset(es) == multiset(existing) + multiset(bs)
    ensures multiset(es) == multiset(existing + batch) && Nonempty(es)
    ensures forall i :: 0 <= i < |bs| ==> !bs[i].kernel
  {
    assert multiset(es) == multiset(existing + batch);
    forall i | 0 <= i < |es| ensures es[i].lo <= es[i].hi { assert es[i] in multiset(existing + batch); }
    forall i | 0 <= i < |bs| ensures !bs[i].kernel { assert bs[i] in multiset(batch); }
  }

  lemma CoversUnion(es: seq<Iv>, fs: seq<Iv>, gs: seq<Iv>, x: int)
    requires multiset(es) == multiset(fs + gs)
    ensures Covers(es, x) <==> Covers(fs, x) || Covers(gs, x)
  {
    if Covers(es, x) { CoversPermuted(es, fs + gs, x); }
    if Covers(fs + gs, x) { CoversPermuted(fs + gs, es, x); }
    CoversAppend(fs, gs, x);
  }

  lemma SortedHead(es: seq<Iv>)
    requires es != [] && Sorted(Low(), es) && Nonempty(es)
    ensures Ready(true, es[0], es[1..])
  {
  }

  /** How often `v` occurs. */
  ghost function Times(es: seq<Iv>, v: Iv): nat {
    multiset(es)[v]
  }

  lemma TimesCons(e: Iv, es: seq<Iv>, v: Iv)
    ensures Times([e] + es, v) == (if e == v then 1 else 0) + Times(es, v)
  {
  }

  lemma CountCons(e: Iv, es: seq<Iv>, v: Iv)
    ensures Count([e] + es, v) == (if e.kernel && e == v then 1 else 0) + Count(es, v)
  {
    CountAppend([e], es, v);
    CountOne(e, v);
  }

  lemma InstalledTimes(e: Iv, es: seq<Iv>, v: Iv)
    ensures Times(Installed([e] + es), v) == (if Iv(e.lo, e.hi, true) == v then 1 else 0) + Times(Installed(es), v)
  {
    assert ([e] + es)[1..] == es;
    TimesCons(Iv(e.lo, e.hi, true), Installed(es), v);
  }

  lemma AddsTimes(e: Iv, es: seq<Iv>, v: Iv)
    ensures Times(Installed(Adds([e] + es)), v) ==
            (if !e.kernel && Iv(e.lo, e.hi, true) == v then 1 else 0) + Times(Installed(Adds(es)), v)
  {
    assert ([e] + es)[1..] == es;
    if e.kernel {
      assert Adds([e] + es) == Adds(es);
    } else {
      InstalledTimes(e, Adds(es), v);
    }
  }

  lemma {:induction false} InstalledCounts(es: seq<Iv>, v: Iv)
    ensures Times(Installed(es), v) == Count(es, v) + Times(Installed(Adds(es)), v)
  {
    if es != [] {
      var e, tail := es[0], es[1..];
      assert es == [e] + tail;
      InstalledCounts(tail, v);
      hide *;
      CountCons(e, tail, v);
      InstalledTimes(e, tail, v);
      AddsTimes(e, tail, v);
    }
  }

  lemma InstalledShape(gap: int, es: seq<Iv>)
    requires Separated(gap, es) && Nonempty(es)
    ensures Existing(gap, Installed(es))
    ensures forall x :: Covers(Installed(es), x) <==> Covers(es, x)
  {
    hide Installed, Separated;
    InstalledSeparated(gap, es);
    forall x ensures Covers(Installed(es), x) <==> Covers(es, x) {
      var s := Installed(es);
      if Covers(s, x) {
        var i :| 0 <= i < |s| && s[i].lo <= x <= s[i].hi;
        assert es[i].lo <= x <= es[i].hi;
      }
      if Covers(es, x) {
        var i :| 0 <= i < |es| && es[i].lo <= x <= es[i].hi;
        assert s[i].lo <= x <= s[i].hi;
      }
    }
  }

  lemma {:induction false} InstalledSeparated(gap: int, es: seq<Iv>)
    requires Separated(gap, es)
    ensures Separated(gap, Installed(es))
  {
    if es != [] {
      InstalledSeparated(gap, es[1..]);
      assert Installed(es)[1..] == Installed(es[1..]);
    }
  }

  /** One add command: deleting the purge list and then adding the rest takes the kernel's elements exactly
      to the merged set, whose points are those it had and those that were asked for; nothing is
      purged that the kernel does not have; and existing_set->init is fit for the next command. */
  lemma AddCommandExact(existing: seq<Iv>, batch: seq<Iv>)
    requires Stored(1, existing) && Batch(batch)
    ensures var c := SetAutomerge(existing, batch);
            && Existing(1, c.existing)
            && multiset(c.purge) <= multiset(Kernel(existing))
            && DeltaExact(existing, batch)
            && forall x :: Covers(c.existing, x) <==> Covers(existing, x) || Covers(batch, x)
  {
    var es := Merge(Low(), existing, Sort(Low(), batch));
    var d := MergeList(true, es);
    var c := SetAutomerge(existing, batch);
    var kernel := Kernel(existing);
    SpliceReady(1, existing, batch);
    KernelSeparated(1, existing);
    MergeListExact(true, es);
    InstalledShape(1, d.left);
    assert c == Commands(Installed(d.left), d.purge, Adds(d.left));
    hide SetAutomerge, Merge, Sort, MergeList, Separated, Kernel, Covers, Nonempty, Adds, Installed, Execute;
    forall v ensures Times(c.purge, v) <= Times(kernel, v)
                  && Times(c.existing, v) == Times(kernel, v) - Times(c.purge, v) + Times(Installed(c.adds), v) {
      InstalledCounts(d.left, v);
      assert Count(es, v) == Times(kernel, v);
    }
    ExecuteTimes(kernel, c);
  }

  lemma ExecuteTimes(existing: seq<Iv>, c: Commands)
    requires forall v :: Times(c.purge, v) <= Times(existing, v)
    requires forall v :: Times(c.existing, v) == Times(existing, v) - Times(c.purge, v) + Times(Installed(c.adds), v)
    ensures multiset(c.purge) <= multiset(existing)
    ensures Execute(multiset(existing), c) == multiset(c.existing)
  {
    hide Installed;
    assert forall v :: Times(c.purge, v) == multiset(c.purge)[v];
    assert forall v :: Times(c.existing, v) == multiset(c.existing)[v];
  }

  lemma MergeWhole(automerge: bool, es: seq<Iv>)
    requires es != [] && Ready(automerge, es[0], es[1..]) && Separated(Gap(automerge), Kernel(es))
    ensures var d := MergeList(automerge, es);
            && Separated(Gap(automerge), d.left) && Nonempty(d.left)
            && (forall x :: Covers(d.left, x) <==> Covers(es, x))
            && forall v :: Count(d.left, v) + Times(d.purge, v) == Count(es, v)
  {
    hide MergeFrom, Ready, Separated, Kernel, Covers, Count, Times, Nonempty;
    var d := MergeList(automerge, es);
    assert es == [es[0]] + es[1..];
    MergeFromSeparates(automerge, es[0], es[1..]);
    forall x ensures Covers(d.left, x) <==> Covers(es, x) {
      MergeFromCovers(automerge, es[0], es[1..], x);
    }
    forall v ensures Count(d.left, v) + Times(d.purge, v) == Count(es, v) {
      MergeFromAccounts(automerge, es[0], es[1..], v);
    }
  }

  /** setelem_automerge as a whole. */
  lemma MergeListExact(automerge: bool, es: seq<Iv>)
    requires es != [] ==> Ready(automerge, es[0], es[1..])
    requires Separated(Gap(automerge), Kernel(es))
    ensures var d := MergeList(automerge, es);
            && Separated(Gap(automerge), d.left) && Nonempty(d.left)
            && (forall x :: Covers(d.left, x) <==> Covers(es, x))
            && forall v :: Count(d.left, v) + Times(d.purge, v) == Count(es, v)
  {
    if es != [] { MergeWhole(automerge, es); }
  }

  /** Without auto-merge two ranges that are left may touch, with auto-merge there is a value between them. */
  lemma MergedApart(automerge: bool, es: seq<Iv>, i: nat, j: nat)
    requires es != [] ==> Ready(automerge, es[0], es[1..])
    requires i < j < |MergeList(automerge, es).left|
    ensures var left := MergeList(automerge, es).left;
            left[i].hi < left[j].lo && (automerge ==> left[i].hi + 1 < left[j].lo)
  {
    MergeFromSeparates(automerge, es[0], es[1..]);
    hide MergeFrom, Ready;
    SeparatedAt(Gap(automerge), MergeList(automerge, es).left, i, j);
  }

  lemma {:induction false} SeparatedAt(gap: int, es: seq<Iv>, i: nat, j: nat)
    requires Separated(gap, es) && i < j < |es|
    ensures es[i].hi + gap < es[j].lo
  {
    if i > 0 { SeparatedAt(gap, es[1..], i - 1, j - 1); }
  }

  /** Ranges that touch are kept apart without auto-merge. */
  lemma TouchingKept(es: seq<Iv>)
    requires es != [] && Ready(false, es[0], es[1..]) && Separated(0, es)
    ensures MergeList(false, es) == Delta(es, [])
  {
    assert es == [es[0]] + es[1..];
    KeepsAll(es[0], es[1..]);
  }

  lemma {:induction false} KeepsAll(prev: Iv, rest: seq<Iv>)
    requires Ready(false, prev, rest) && Separated(0, [prev] + rest)
    ensures MergeFrom(false, prev, rest) == Delta([prev] + rest, [])
    decreases |rest|
  {
    SeparatedCons(0, prev, rest);
    if rest == [] {
      assert [prev] + rest == [prev];
    } else {
      ReadyNext(false, prev, rest);
      assert rest == [rest[0]] + rest[1..];
      KeepsAll(rest[0], rest[1..]);
      hide Ready, Separated;
    }
  }

  // ------------------------------------------------------------------ any run of adds

  /** What the tool believes after a run of add commands, and what the kernel has. */
  datatype World = World(existing: seq<Iv>, kernel: multiset<Iv>)

  ghost function Run(w: World, batches: seq<seq<Iv>>): World
    decreases |batches|
  {
    if batches == [] then w
    else
      var c := SetAutomerge(w.existing, batches[0]);
      Run(World(c.existing, Execute(w.kernel, c)), batches[1..])
  }

  ghost predicate Asked(batches: seq<seq<Iv>>, x: int) {
    exists i :: 0 <= i < |batches| && Covers(batches[i], x)
  }

  lemma AskedCons(batches: seq<seq<Iv>>, x: int)
    requires batches != []
    ensures Asked(batches, x) <==> Covers(batches[0], x) || Asked(batches[1..], x)
  {
    if Asked(batches, x) {
      var i :| 0 <= i < |batches| && Covers(batches[i], x);
      if i > 0 { assert batches[1..][i - 1] == batches[i]; }
    }
    if Asked(batches[1..], x) {
      var i :| 0 <= i < |batches| - 1 && Covers(batches[1..][i], x);
      assert batches[i + 1] == batches[1..][i];
    }
  }

  /** After any run of adds the kernel has exactly what the tool believes it has, and its points are
      all those ever asked for. */
  lemma {:induction false} RunExact(w: World, batches: seq<seq<Iv>>)
    requires Stored(1, w.existing) && w.kernel == multiset(Kernel(w.existing))
    requires forall i :: 0 <= i < |batches| ==> Batch(batches[i])
    ensures var v := Run(w, batches);
            && Stored(1, v.existing) && v.kernel == multiset(Kernel(v.existing))
            && (batches != [] ==> Existing(1, v.existing) && v.kernel == multiset(v.existing))
            && forall x :: Covers(v.existing, x) <==> Covers(w.existing, x) || Asked(batches, x)
    decreases |batches|
  {
    if batches != [] {
      AddCommandExact(w.existing, batches[0]);
      var c := SetAutomerge(w.existing, batches[0]);
      var w1 := World(c.existing, Execute(w.kernel, c));
      assert Run(w, batches) == Run(w1, batches[1..]);
      KernelAll(c.existing);
      hide SetAutomerge, Execute, Existing, Covers, Batch, Asked, Run;
      RunExact(w1, batches[1..]);
      forall x ensures Asked(batches, x) <==> Covers(batches[0], x) || Asked(batches[1..], x) { AskedCons(batches, x); }
    }
  }

  // ------------------------------------------------------------------ when it goes wrong

  /** Joining two kernel elements keeps the KERNEL flag on a range the kernel does not have. */
  lemma {:induction false} MergeKeepsHead(prev: Iv, rest: seq<Iv>)
    requires Ready(true, prev, rest) && prev.kernel && forall i :: 0 <= i < |rest| ==> rest[i].kernel
    ensures var left := MergeFrom(true, prev, rest).left;
            && left != [] && left[0].lo == prev.lo && left[0].hi >= prev.hi
            && forall i :: 0 <= i < |left| ==> left[i].kernel && left[i].lo >= prev.lo
    decreases |rest|
  {
    if rest != [] {
      ReadyNext(true, prev, rest);
      var r := Absorb(true, prev, rest[0]);
      MergeKeepsHead(r.prev, rest[1..]);
      assert [] + MergeFrom(true, r.prev, rest[1..]).left == MergeFrom(true, r.prev, rest[1..]).left;
    }
  }

  lemma {:induction false} AdjacentForges(prev: Iv, rest: seq<Iv>) returns (e: Iv)
    requires Existing(0, [prev] + rest) && !Separated(1, [prev] + rest)
    ensures e in MergeFrom(true, prev, rest).left && e.lo >= prev.lo && e !in [prev] + rest
    decreases |rest|
  {
    hide MergeFrom, Absorb, Separated, Ready;
    ApartOrAdjacent(prev, rest);
    var i, tail := rest[0], rest[1..];
    var r := Absorb(true, prev, i);
    MergeFromStep(prev, rest);
    AbsorbBeyond(prev, i);
    ReadyNext(true, prev, rest);
    if i.lo - prev.hi == 1 {
      MergeKeepsHead(r.prev, tail);
      e := MergeFrom(true, r.prev, tail).left[0];
      assert r.kept == [];
      NotAmong(prev, rest, e);
    } else {
      e := AdjacentForges(i, tail);
      assert e in [prev] + MergeFrom(true, i, tail).left;
      NotHead(prev, rest, e);
    }
  }

  /** Either the first two elements are adjacent, or two later ones are. */
  lemma ApartOrAdjacent(prev: Iv, rest: seq<Iv>)
    requires Existing(0, [prev] + rest) && !Separated(1, [prev] + rest)
    ensures rest != [] && Ready(true, prev, rest) && prev.kernel && forall n :: 0 <= n < |rest| ==> rest[n].kernel
    ensures prev.lo <= prev.hi < rest[0].lo <= rest[0].hi && forall n :: 0 <= n < |rest| ==> prev.lo < rest[n].lo
    ensures Existing(0, [rest[0]] + rest[1..])
    ensures rest[0].lo - prev.hi != 1 ==> !Separated(1, [rest[0]] + rest[1..])
  {
    hide Separated;
    ExistingCons(0, prev, rest);
    SeparatedCons(1, prev, rest);
    if rest == [] { NothingSeparated(); }
    SeparatedSorted(0, rest);
    assert rest == [rest[0]] + rest[1..];
    if rest[0].lo - prev.hi != 1 { LaterBeyond(prev, rest); }
  }

  lemma NothingSeparated()
    ensures Separated(1, []) && Beyond(1, 0, [])
  {
  }

  lemma ExistingCons(gap: int, e: Iv, es: seq<Iv>)
    requires Existing(gap, [e] + es)
    ensures e.lo <= e.hi && e.kernel && Beyond(gap, e.hi, es) && Existing(gap, es)
  {
    var s := [e] + es;
    SeparatedCons(gap, e, es);
    hide Separated;
    assert s[0] == e && forall n :: 0 <= n < |es| ==> s[n + 1] == es[n];
  }

  lemma LaterBeyond(prev: Iv, rest: seq<Iv>)
    requires rest != [] && Nonempty(rest) && Separated(0, rest) && rest[0].lo - prev.hi != 1 && prev.hi < rest[0].lo
    ensures Beyond(1, prev.hi, rest)
  {
  }

  lemma MergeFromStep(prev: Iv, rest: seq<Iv>)
    requires rest != []
    ensures var r := Absorb(true, prev, rest[0]);
            MergeFrom(true, prev, rest).left == r.kept + MergeFrom(true, r.prev, rest[1..]).left
  {
    hide Absorb;
  }

  lemma AbsorbBeyond(prev: Iv, i: Iv)
    requires prev.lo <= prev.hi < i.lo <= i.hi && prev.kernel && i.kernel
    ensures var r := Absorb(true, prev, i);
            if i.lo - prev.hi == 1 then r == Round(Iv(prev.lo, i.hi, true), [], [prev]) else r == Round(i, [prev], [])
  {
  }

  lemma NotAmong(prev: Iv, rest: seq<Iv>, e: Iv)
    requires e.lo == prev.lo && e.hi > prev.hi && forall n :: 0 <= n < |rest| ==> prev.lo < rest[n].lo
    ensures e !in [prev] + rest
  {
  }

  lemma NotHead(prev: Iv, rest: seq<Iv>, e: Iv)
    requires rest != [] && e.lo >= rest[0].lo > prev.lo && e !in [rest[0]] + rest[1..]
    ensures e !in [prev] + rest
  {
    assert rest == [rest[0]] + rest[1..];
  }

  /** Exactly when the delta is right whatever is added: when no two of the kernel's (disjoint)
      elements are adjacent. With an adjacent pair even an empty add loses the first of the two. */
  lemma AddsExactIff(existing: seq<Iv>)
    requires Existing(0, existing)
    ensures (forall batch :: Batch(batch) ==> DeltaExact(existing, batch)) <==> Separated(1, existing)
  {
    if Separated(1, existing) {
      forall batch | Batch(batch) ensures DeltaExact(existing, batch) { AddCommandExact(existing, batch); }
    } else {
      EmptyAddLoses(existing);
      assert Batch([]);
    }
  }

  /** Executing the command leaves the kernel with what the tool believes it has. */
  ghost predicate DeltaExact(existing: seq<Iv>, batch: seq<Iv>) {
    var c := SetAutomerge(existing, batch);
    Execute(multiset(Kernel(existing)), c) == multiset(c.existing)
  }

  lemma EmptyAddLoses(existing: seq<Iv>)
    requires Existing(0, existing) && !Separated(1, existing)
    ensures !DeltaExact(existing, [])
  {
    var c := SetAutomerge(existing, []);
    var prev, rest := existing[0], existing[1..];
    assert existing == [prev] + rest;
    var left := MergeFrom(true, prev, rest).left;
    EmptyAdd(existing);
    var e := AdjacentForges(prev, rest);
    KernelAll(existing);
    var n :| 0 <= n < |left| && left[n] == e;
    hide MergeFrom, SetAutomerge, Separated, Existing, Kernel;
    assert left[n].kernel && c.existing[n] == e;
    assert e in multiset(c.existing) && e !in multiset(existing);
  }

  /** An empty add adds nothing, whatever it merges. */
  lemma EmptyAdd(existing: seq<Iv>)
    requires Existing(0, existing) && existing != []
    ensures var left, c := MergeFrom(true, existing[0], existing[1..]).left, SetAutomerge(existing, []);
            (forall i :: 0 <= i < |left| ==> left[i].kernel) && c.existing == Installed(left)
                && c.adds == [] == Installed(c.adds)
  {
    MergeNothing(existing);
    SeparatedSorted(0, existing);
    SortedHead(existing);
    MergeKeepsHead(existing[0], existing[1..]);
    AddsNone(MergeFrom(true, existing[0], existing[1..]).left);
  }

  lemma {:induction false} MergeNothing(es: seq<Iv>)
    ensures Merge(Low(), es, []) == es
  {
    if es != [] { MergeNothing(es[1..]); }
  }

  lemma {:induction false} AddsNone(es: seq<Iv>)
    requires forall i :: 0 <= i < |es| ==> es[i].kernel
    ensures Adds(es) == []
  {
    if es != [] { AddsNone(es[1..]); }
  }
}
