/** Whole delete commands (set_delete in src/intervals.c), on lists of ranges: the removals one after another,
    and the commands that take the kernel's set to the new one. */
module DeleteCommands {
  import opened Wrappers
  import opened MergeSort
  import opened Automerge
  import opened SetDelete

  /** The loop of set_delete over the elements to remove. */
  function DeleteAll(automerge: bool, es: seq<Iv>, rs: seq<Iv>): Outcome
    decreases |rs|
  {
    if rs == [] then Done(es, [])
    else
      match DeleteOne(automerge, es, rs[0])
      case Missing => Missing
      case Done(set1, purge1) =>
        match DeleteAll(automerge, set1, rs[1..])
        case Missing => Missing
        case Done(set2, purge2) => Done(set2, purge1 + purge2)
  }

  /** The ranges that are removed: automerge_delete merges those asked for among themselves. */
  function Removals(automerge: bool, init: seq<Iv>): seq<Iv> {
    if automerge then MergeList(true, Sort(Low(), init)).left else init
  }

  /** set_delete: what remains of cut elements is added back, as is any other element not flagged KERNEL,
      and all count as the kernel's from then on. */
  function DeleteCommand(automerge: bool, existing: seq<Iv>, init: seq<Iv>): Option<Commands> {
    match DeleteAll(automerge, existing, Removals(automerge, init))
    case Missing => None
    case Done(set1, purge) => Some(Commands(Installed(set1), purge, Adds(set1)))
  }

  // ------------------------------------------------------------------ a run of removals

  ghost predicate AllInside(rs: seq<Iv>, es: seq<Iv>) {
    forall i :: 0 <= i < |rs| ==> InsideSome(rs[i], es)
  }

  ghost predicate AllRemovable(es: seq<Iv>, rs: seq<Iv>) {
    forall i :: 0 <= i < |rs| ==> Removable(es, rs[i])
  }

  /** A point of a removal that does not just match an element that is not flagged KERNEL. */
  ghost predicate Taken(es: seq<Iv>, rs: seq<Iv>, x: int) {
    exists i :: 0 <= i < |rs| && rs[i].lo <= x <= rs[i].hi && Removable(es, rs[i])
  }

  /** Removals of which any two have a value between them, in any order. */
  ghost predicate AllApart(rs: seq<Iv>) {
    forall i, j :: 0 <= i < j < |rs| ==> ApartFrom(rs[i], rs[j])
  }

  lemma AllInsideCons(r: Iv, rs: seq<Iv>, es: seq<Iv>)
    ensures AllInside([r] + rs, es) <==> InsideSome(r, es) && AllInside(rs, es)
  {
    if AllInside([r] + rs, es) {
      assert ([r] + rs)[0] == r;
      forall i | 0 <= i < |rs| ensures InsideSome(rs[i], es) { assert ([r] + rs)[i + 1] == rs[i]; }
    }
  }

  lemma TakenCons(es: seq<Iv>, r: Iv, rs: seq<Iv>, x: int)
    ensures Taken(es, [r] + rs, x) <==> (Removable(es, r) && r.lo <= x <= r.hi) || Taken(es, rs, x)
  {
    var s := [r] + rs;
    hide Removable;
    if Taken(es, s, x) {
      var i :| 0 <= i < |s| && s[i].lo <= x <= s[i].hi && Removable(es, s[i]);
      assert i > 0 ==> s[i] == rs[i - 1];
    }
    if Taken(es, rs, x) {
      var i :| 0 <= i < |rs| && rs[i].lo <= x <= rs[i].hi && Removable(es, rs[i]);
      assert s[i + 1] == rs[i];
    }
    assert s[0] == r;
  }

  lemma TakenSame(es: seq<Iv>, fs: seq<Iv>, rs: seq<Iv>, x: int)
    requires forall i :: 0 <= i < |rs| ==> (Removable(es, rs[i]) <==> Removable(fs, rs[i]))
    ensures Taken(es, rs, x) <==> Taken(fs, rs, x)
  {
    hide Removable;
  }

  /** The removals still to come are found as before, and are as removable as before. */
  lemma OthersAsBefore(gap: int, es: seq<Iv>, r: Iv, rs: seq<Iv>)
    requires 0 <= gap <= 1 && Ordered(gap, es) && r.lo <= r.hi && DeleteOne(true, es, r).Done?
    requires Nonempty(rs) && forall i :: 0 <= i < |rs| ==> ApartFrom(r, rs[i])
    ensures var t := DeleteOne(true, es, r).set_;
            && (AllInside(rs, t) <==> AllInside(rs, es))
            && forall x :: Taken(t, rs, x) <==> Taken(es, rs, x)
  {
    var t := DeleteOne(true, es, r).set_;
    hide DeleteOne, Ordered, InsideSome, Removable, Taken;
    forall i | 0 <= i < |rs|
      ensures (InsideSome(rs[i], t) <==> InsideSome(rs[i], es)) && (Removable(t, rs[i]) <==> Removable(es, rs[i])) {
      DeleteOneOthers(gap, es, r, rs[i]);
    }
    forall x ensures Taken(t, rs, x) <==> Taken(es, rs, x) { TakenSame(t, es, rs, x); }
  }

  /** What is left and what is purged after a run of removals, from what the first one does. */
  ghost predicate Effect(gap: int, es: seq<Iv>, rs: seq<Iv>, o: Outcome)
    requires o.Done?
  {
    && Ordered(gap, o.set_)
    && (forall x :: Covers(o.set_, x) <==> Covers(es, x) && !Taken(es, rs, x))
    && (forall v :: Count(o.set_, v) + Times(o.purge, v) == Count(es, v))
  }

  lemma NoEffect(gap: int, es: seq<Iv>)
    requires Ordered(gap, es)
    ensures Effect(gap, es, [], Done(es, []))
  {
  }

  lemma EffectJoins(gap: int, es: seq<Iv>, r: Iv, rs: seq<Iv>, o: Outcome, o': Outcome)
    requires o.Done? && o'.Done? && Effect(gap, o.set_, rs, o')
    requires forall x :: Covers(o.set_, x) <==> Covers(es, x) && !(Removable(es, r) && r.lo <= x <= r.hi)
    requires forall v :: Count(o.set_, v) + Times(o.purge, v) == Count(es, v)
    requires forall x :: Taken(o.set_, rs, x) <==> Taken(es, rs, x)
    ensures Effect(gap, es, [r] + rs, Done(o'.set_, o.purge + o'.purge))
  {
    var joined := Done(o'.set_, o.purge + o'.purge);
    hide Ordered, Covers, Taken, Count, Removable;
    forall x ensures Covers(joined.set_, x) <==> Covers(es, x) && !Taken(es, [r] + rs, x) { TakenCons(es, r, rs, x); }
    forall v ensures Count(joined.set_, v) + Times(joined.purge, v) == Count(es, v) {
      TimesAppend(o.purge, o'.purge, v);
    }
  }

  lemma ApartTail(rs: seq<Iv>)
    requires rs != [] && AllApart(rs)
    ensures AllApart(rs[1..]) && forall i :: 0 <= i < |rs| - 1 ==> ApartFrom(rs[0], rs[1..][i])
  {
    var tail := rs[1..];
    hide ApartFrom;
    forall i, j | 0 <= i < j < |tail| ensures ApartFrom(tail[i], tail[j]) {
      assert ApartFrom(rs[i + 1], rs[j + 1]);
    }
    forall i | 0 <= i < |tail| ensures ApartFrom(rs[0], tail[i]) { assert ApartFrom(rs[0], rs[i + 1]); }
  }

  /** Any sequence of removals that are apart: all are found iff each lies inside an element, whatever the
      flags of the elements; then exactly the points of the removable ones go. */
  lemma {:induction false} DeleteAllExact(gap: int, es: seq<Iv>, rs: seq<Iv>)
    requires 0 <= gap <= 1 && Ordered(gap, es) && Nonempty(rs) && AllApart(rs)
    ensures var o := DeleteAll(true, es, rs);
            (o.Done? <==> AllInside(rs, es)) && (o.Done? ==> Effect(gap, es, rs, o))
    decreases |rs|
  {
    if rs == [] {
      NoEffect(gap, es);
    } else {
      var r, tail := rs[0], rs[1..];
      var o := DeleteOne(true, es, r);
      DeleteOneEffect(gap, es, r);
      ApartTail(rs);
      assert rs == [r] + tail && Nonempty(tail);
      AllInsideCons(r, tail, es);
      if o.Done? {
        OthersAsBefore(gap, es, r, tail);
        hide Covers, Taken, AllInside, Ordered, Times, Count, DeleteOne, Effect, Removable, AllApart;
        DeleteAllExact(gap, o.set_, tail);
        var o' := DeleteAll(true, o.set_, tail);
        if o'.Done? { EffectJoins(gap, es, r, tail, o, o'); }
      }
    }
  }

  /** Removals that are all found take exactly their points off the set iff none of them just matches an
      element that is not flagged KERNEL. */
  lemma DeleteAllExactIff(gap: int, es: seq<Iv>, rs: seq<Iv>)
    requires 0 <= gap <= 1 && Ordered(gap, es) && Nonempty(rs) && AllApart(rs) && DeleteAll(true, es, rs).Done?
    ensures (forall x :: Covers(DeleteAll(true, es, rs).set_, x) <==> Covers(es, x) && !Covers(rs, x))
            <==> AllRemovable(es, rs)
  {
    var t := DeleteAll(true, es, rs).set_;
    DeleteAllExact(gap, es, rs);
    if AllRemovable(es, rs) {
      forall x ensures Taken(es, rs, x) <==> Covers(rs, x) { AllTaken(es, rs, x); }
    } else {
      var x := SpareRemoval(es, rs);
      assert Covers(t, x);
    }
  }

  lemma AllTaken(es: seq<Iv>, rs: seq<Iv>, x: int)
    requires AllRemovable(es, rs)
    ensures Taken(es, rs, x) <==> Covers(rs, x)
  {
    hide Removable;
    if Covers(rs, x) {
      var i :| 0 <= i < |rs| && rs[i].lo <= x <= rs[i].hi;
      assert Removable(es, rs[i]);
    }
  }

  /** A point that is asked for and stays. */
  lemma SpareRemoval(es: seq<Iv>, rs: seq<Iv>) returns (x: int)
    requires Nonempty(rs) && AllApart(rs) && !AllRemovable(es, rs)
    ensures Covers(rs, x) && Covers(es, x) && !Taken(es, rs, x)
  {
    var i :| 0 <= i < |rs| && !Removable(es, rs[i]);
    x := rs[i].lo;
    assert rs[i].lo <= rs[i].hi;
    var j :| 0 <= j < |es| && Same(es[j], rs[i]) && !es[j].kernel;
    assert es[j].lo <= x <= es[j].hi;
    hide Removable, ApartFrom;
    forall k | 0 <= k < |rs| && k != i ensures !(rs[k].lo <= x <= rs[k].hi) {
      if k < i { ApartPoint(rs[k], rs[i], x); } else { ApartPoint(rs[i], rs[k], x); }
    }
  }

  lemma ApartPoint(r: Iv, q: Iv, x: int)
    requires ApartFrom(r, q) && r.lo <= r.hi && q.lo <= q.hi
    ensures !(r.lo <= x <= r.hi && q.lo <= x <= q.hi)
  {
  }

  // ------------------------------------------------------------------ a whole delete command

  /** What existing_set->init holds after a command: ranges of the kernel's, in any order, further apart than `gap`. */
  ghost predicate Known(gap: int, es: seq<Iv>) {
    Ordered(gap, es) && forall i :: 0 <= i < |es| ==> es[i].kernel
  }

  /** automerge_delete: any two removals come out with a value between them, and with the same points. */
  lemma RemovalsMerged(init: seq<Iv>)
    requires Batch(init)
    ensures var rs := Removals(true, init);
            && Nonempty(rs) && AllApart(rs)
            && forall x :: Covers(rs, x) <==> Covers(init, x)
  {
    var none: seq<Iv> := [];
    var rs := Removals(true, init);
    SpliceReady(1, none, init);
    MergeListExact(true, Sort(Low(), init));
    SeparatedPairs(1, rs);
  }

  /** In a set whose ranges are further apart than one value, a range all of whose values are in the
      set lies inside a single element. */
  lemma CoveredInside(es: seq<Iv>, r: Iv)
    requires Ordered(1, es) && r.lo <= r.hi
    requires forall x :: r.lo <= x <= r.hi ==> Covers(es, x)
    ensures InsideSome(r, es)
  {
    var s := Sort(Low(), es);
    SortPermutes(Low(), es);
    SeparatedPairs(1, s);
    hide Sort, Separated;
    CoversPermuted(es, s, r.lo);
    var i :| 0 <= i < |s| && s[i].lo <= r.lo <= s[i].hi;
    if s[i].hi < r.hi {
      var x := s[i].hi + 1;
      assert Covers(es, x);
      CoversPermuted(es, s, x);
    }
    assert Inside(r, s[i]);
    InsidePermuted(s, es, r);
  }

  lemma AllInsideIff(rs: seq<Iv>, es: seq<Iv>)
    requires Ordered(1, es) && Nonempty(rs)
    ensures AllInside(rs, es) <==> forall x :: Covers(rs, x) ==> Covers(es, x)
  {
    if forall x :: Covers(rs, x) ==> Covers(es, x) {
      forall i | 0 <= i < |rs| ensures InsideSome(rs[i], es) {
        forall x | rs[i].lo <= x <= rs[i].hi ensures Covers(es, x) { assert Covers(rs, x); }
        CoveredInside(es, rs[i]);
      }
    }
  }

  lemma KnownRemovable(es: seq<Iv>, rs: seq<Iv>)
    requires Known(1, es)
    ensures AllRemovable(es, rs) && Kernel(es) == es
  {
    KernelAll(es);
  }

  lemma InstalledKnown(gap: int, es: seq<Iv>)
    requires gap >= 0 && Ordered(gap, es)
    ensures Known(gap, Installed(es))
  {
    var s := Sort(Low(), es);
    SortedNonempty(es);
    InstalledSeparated(gap, s);
    SortPermutes(Low(), es);
    InstalledPermuted(es, s);
    assert Nonempty(Installed(s));
    hide Sort, Separated, Nonempty;
    OrderedFromParts(gap, Installed(es), Installed(s));
  }

  lemma InstalledCovers(es: seq<Iv>, x: int)
    ensures Covers(Installed(es), x) <==> Covers(es, x)
  {
    var t := Installed(es);
    if Covers(t, x) {
      var i :| 0 <= i < |t| && t[i].lo <= x <= t[i].hi;
      assert es[i].lo <= x <= es[i].hi;
    }
    if Covers(es, x) {
      var i :| 0 <= i < |es| && es[i].lo <= x <= es[i].hi;
      assert t[i].lo <= x <= t[i].hi;
    }
  }

  lemma InstalledPermuted(es: seq<Iv>, fs: seq<Iv>)
    requires multiset(es) == multiset(fs)
    ensures multiset(Installed(es)) == multiset(Installed(fs))
  {
    forall v ensures Times(Installed(es), v) == Times(Installed(fs), v) {
      InstalledSplit(es, v);
      InstalledSplit(fs, v);
    }
    TimesBags(Installed(es), Installed(fs));
  }

  lemma TimesBags(es: seq<Iv>, fs: seq<Iv>)
    requires forall v :: Times(es, v) == Times(fs, v)
    ensures multiset(es) == multiset(fs)
  {
    forall v ensures multiset(es)[v] == multiset(fs)[v] { assert Times(es, v) == Times(fs, v); }
  }

  lemma {:induction false} InstalledSplit(es: seq<Iv>, v: Iv)
    ensures Times(Installed(es), v) ==
            if v.kernel then Times(es, v) + Times(es, Iv(v.lo, v.hi, false)) else 0
  {
    if es != [] {
      var e, tail := es[0], es[1..];
      assert es == [e] + tail;
      InstalledSplit(tail, v);
      InstalledTimes(e, tail, v);
      TimesCons(e, tail, v);
      TimesCons(e, tail, Iv(v.lo, v.hi, false));
    }
  }

  /** The command that results from removals with this effect. */
  lemma CommandsExact(gap: int, existing: seq<Iv>, rs: seq<Iv>, o: Outcome)
    requires gap >= 0 && o.Done? && Effect(gap, existing, rs, o)
    ensures var c := Commands(Installed(o.set_), o.purge, Adds(o.set_));
            CommandEffect(gap, existing, rs, c)
  {
    InstalledKnown(gap, o.set_);
    forall x ensures Covers(Installed(o.set_), x) <==> Covers(o.set_, x) { InstalledCovers(o.set_, x); }
    hide Covers, Ordered, Taken, Installed, Adds;
    DeleteBalance(existing, o.set_, o.purge);
  }

  /** Deleting the purge list and adding what is to be added takes the kernel's elements exactly to what the tool
      holds; that covers what was there and is not taken; and the set is fit for the next command. */
  ghost predicate CommandEffect(gap: int, existing: seq<Iv>, rs: seq<Iv>, c: Commands) {
    && Known(gap, c.existing)
    && multiset(c.purge) <= multiset(Kernel(existing))
    && Execute(multiset(Kernel(existing)), c) == multiset(c.existing)
    && forall x :: Covers(c.existing, x) <==> Covers(existing, x) && !Taken(existing, rs, x)
  }

  /** One delete command with auto-merge, on a set whose elements may touch (gap 0) and have any flags. It
      succeeds iff every merged removal lies inside a single element. */
  lemma SetDeleteInside(gap: int, existing: seq<Iv>, init: seq<Iv>)
    requires 0 <= gap <= 1 && Ordered(gap, existing) && Batch(init)
    ensures var c := DeleteCommand(true, existing, init);
            && (c.Some? <==> AllInside(Removals(true, init), existing))
            && (c.Some? ==> CommandEffect(gap, existing, Removals(true, init), c.value))
  {
    hide Ordered, Covers, AllInside, AllApart, Effect, CommandEffect, DeleteAll, Nonempty, Removals, Batch;
    var rs := Removals(true, init);
    var o := DeleteAll(true, existing, rs);
    RemovalsMerged(init);
    DeleteAllExact(gap, existing, rs);
    if o.Done? { CommandsExact(gap, existing, rs, o); }
  }

  /** On a set whose elements do not touch it succeeds iff every point to remove is in the set. */
  lemma SetDeleteExact(existing: seq<Iv>, init: seq<Iv>)
    requires Ordered(1, existing) && Batch(init)
    ensures var c := DeleteCommand(true, existing, init);
            && (c.Some? <==> forall x :: Covers(init, x) ==> Covers(existing, x))
            && (c.Some? ==> CommandEffect(1, existing, Removals(true, init), c.value))
  {
    hide Ordered, Covers, AllInside, CommandEffect, DeleteCommand, Nonempty, Removals, Batch;
    RemovalsMerged(init);
    SetDeleteInside(1, existing, init);
    AllInsideIff(Removals(true, init), existing);
  }

  /** A command that succeeds removes exactly the points it has been asked to remove iff none of its merged
      removals just matches an element that is not flagged KERNEL. */
  lemma SetDeleteExactIff(gap: int, existing: seq<Iv>, init: seq<Iv>)
    requires 0 <= gap <= 1 && Ordered(gap, existing) && Batch(init) && DeleteCommand(true, existing, init).Some?
    ensures (forall x :: Covers(DeleteCommand(true, existing, init).value.existing, x)
                         <==> Covers(existing, x) && !Covers(init, x))
            <==> AllRemovable(existing, Removals(true, init))
  {
    hide Removals, DeleteAll, AllRemovable, Ordered, Covers, Batch;
    var rs := Removals(true, init);
    var t := DeleteAll(true, existing, rs).set_;
    RemovalsMerged(init);
    DeleteAllExactIff(gap, existing, rs);
    forall x ensures Covers(Installed(t), x) <==> Covers(t, x) { InstalledCovers(t, x); }
  }

  /** A set declared with the element 1-5 and asked to delete it in the same batch keeps it, without an error. */
  lemma DeclaredElementStays()
    ensures var e := Iv(1, 5, false);
            && Ordered(1, [e]) && Batch([e]) && !AllRemovable([e], Removals(true, [e]))
            && DeleteCommand(true, [e], [e]) == Some(Commands([Iv(1, 5, true)], [], [e]))
  {
    var e := Iv(1, 5, false);
    OneRemoval(e);
    Matching(e);
    hide DeleteOne;
    assert DeleteAll(true, [e], [e]) == Done([e], []);
    assert Installed([e]) == [Iv(1, 5, true)];
    assert Adds([e]) == [e] by { assert Adds([]) == []; }
  }

  lemma OneRemoval(e: Iv)
    requires e.lo <= e.hi && !e.kernel
    ensures Ordered(1, [e]) && Batch([e]) && Removals(true, [e]) == [e] && !AllRemovable([e], [e])
  {
    assert Sort(Low(), [e]) == [e];
    assert !Removable([e], e) by { assert Same([e][0], e); }
    assert [e][0] == e;
  }

  lemma Matching(e: Iv)
    requires !e.kernel
    ensures DeleteOne(true, [e], e) == Done([e], [])
  {
    var two := [e] + [e];
    SortTwo(e);
    hide Sort;
    assert Upto([e], e.lo) == 1 by { assert Upto([], e.lo) == 0; }
    assert DeleteOne(true, [e], e) == DeleteAt(true, two, 1);
  }

  lemma SortTwo(e: Iv)
    ensures Sort(Low(), [e]) == [e] && Sort(Low(), [e] + [e]) == [e] + [e]
  {
    var two := [e] + [e];
    assert Middle(2) == 1 && two[..1] == [e] && two[1..] == [e];
    assert Merge(Low(), [], [e]) == [e] && Merge(Low(), [e], []) == [e];
    assert Sort(Low(), two) == Merge(Low(), [e], [e]) == two;
  }

  lemma DeleteBalance(existing: seq<Iv>, left: seq<Iv>, purge: seq<Iv>)
    requires forall v :: Count(left, v) + Times(purge, v) == Count(existing, v)
    ensures multiset(purge) <= multiset(Kernel(existing))
    ensures Execute(multiset(Kernel(existing)), Commands(Installed(left), purge, Adds(left)))
            == multiset(Installed(left))
  {
    var kernel, c := Kernel(existing), Commands(Installed(left), purge, Adds(left));
    forall v ensures Times(c.purge, v) <= Times(kernel, v)
                  && Times(c.existing, v) == Times(kernel, v) - Times(c.purge, v) + Times(Installed(c.adds), v) {
      InstalledCounts(left, v);
      assert Count(left, v) + Times(purge, v) == Count(existing, v) == Times(kernel, v);
    }
    ExecuteTimes(kernel, c);
  }

  // ------------------------------------------------------------------ any run of deletes

  /** A run of delete commands; one that fails changes nothing. */
  ghost function RunDeletes(w: World, inits: seq<seq<Iv>>): World
    decreases |inits|
  {
    if inits == [] then w else RunDeletes(AfterDelete(w, inits[0]), inits[1..])
  }

  ghost function AfterDelete(w: World, init: seq<Iv>): World {
    var c := DeleteCommand(true, w.existing, init);
    if c.None? then w else World(c.value.existing, Execute(w.kernel, c.value))
  }

  /** Points that a command of the run was asked to remove when all it was asked to remove was in the set. */
  ghost predicate Deleted(w: World, inits: seq<seq<Iv>>, x: int)
    decreases |inits|
  {
    inits != []
    && (((forall y :: Covers(inits[0], y) ==> Covers(w.existing, y)) && Covers(inits[0], x))
        || Deleted(AfterDelete(w, inits[0]), inits[1..], x))
  }

  lemma OneDelete(w: World, init: seq<Iv>)
    requires Known(1, w.existing) && w.kernel == multiset(w.existing) && Batch(init)
    ensures var v := AfterDelete(w, init);
            && Known(1, v.existing) && v.kernel == multiset(v.existing)
            && forall x :: Covers(v.existing, x) <==>
                 Covers(w.existing, x) && !((forall y :: Covers(init, y) ==> Covers(w.existing, y)) && Covers(init, x))
  {
    SetDeleteExact(w.existing, init);
    KnownRemovable(w.existing, Removals(true, init));
    if DeleteCommand(true, w.existing, init).Some? {
      SetDeleteExactIff(1, w.existing, init);
    }
  }

  /** After any run of deletes the kernel has exactly what the tool holds, and that covers what was there and
      has not been deleted. */
  lemma {:induction false} RunDeletesExact(w: World, inits: seq<seq<Iv>>)
    requires Known(1, w.existing) && w.kernel == multiset(w.existing)
    requires forall i :: 0 <= i < |inits| ==> Batch(inits[i])
    ensures var v := RunDeletes(w, inits);
            && Known(1, v.existing) && v.kernel == multiset(v.existing)
            && forall x :: Covers(v.existing, x) <==> Covers(w.existing, x) && !Deleted(w, inits, x)
    decreases |inits|
  {
    if inits != [] {
      OneDelete(w, inits[0]);
      hide AfterDelete, Covers, Known, Batch;
      RunDeletesExact(AfterDelete(w, inits[0]), inits[1..]);
    }
  }

  // ------------------------------------------------------------------ without auto-merge

  ghost predicate AllMatch(es: seq<Iv>, rs: seq<Iv>) {
    forall i :: 0 <= i < |rs| ==> Matches(es, rs[i])
  }

  /** No removal of an element of the kernel's is asked for twice. */
  ghost predicate NoneTwice(es: seq<Iv>, rs: seq<Iv>) {
    forall i, j :: 0 <= i < j < |rs| && Same(rs[i], rs[j]) ==> !Removable(es, rs[j])
  }

  ghost predicate AllFound(es: seq<Iv>, rs: seq<Iv>) {
    AllMatch(es, rs) && NoneTwice(es, rs)
  }

  /** After a removal the rest is found iff it was before and does not ask for the removed element again. */
  lemma FoundNext(es: seq<Iv>, r: Iv, rs: seq<Iv>, t: seq<Iv>)
    requires Matches(es, r)
    requires forall i :: 0 <= i < |rs| ==>
               (Matches(t, rs[i]) <==> Matches(es, rs[i]) && !(Same(r, rs[i]) && Removable(es, r)))
    requires forall i :: 0 <= i < |rs| ==> (Removable(t, rs[i]) <==> Removable(es, rs[i]))
    ensures AllFound(es, [r] + rs) <==> AllFound(t, rs)
  {
    var s := [r] + rs;
    assert forall q :: Same(r, q) ==> (Removable(es, r) <==> Removable(es, q));
    hide Matches, Removable, Same;
    if AllFound(es, s) {
      forall i | 0 <= i < |rs| ensures Matches(t, rs[i]) { assert s[i + 1] == rs[i] && s[0] == r; }
      forall i, j | 0 <= i < j < |rs| && Same(rs[i], rs[j]) ensures !Removable(t, rs[j]) {
        assert s[i + 1] == rs[i] && s[j + 1] == rs[j];
      }
    }
    if AllFound(t, rs) {
      forall i | 0 <= i < |s| ensures Matches(es, s[i]) { assert i > 0 ==> s[i] == rs[i - 1]; }
      forall i, j | 0 <= i < j < |s| && Same(s[i], s[j]) ensures !Removable(es, s[j]) {
        assert s[j] == rs[j - 1] && s[i] == if i == 0 then r else rs[i - 1];
        assert Matches(t, rs[j - 1]);
      }
    }
  }

  /** Any sequence of removals without auto-merge: all are found iff each is exactly an element of the set, and
      no element of the kernel's is removed twice. */
  lemma {:induction false} DeleteAllPlain(es: seq<Iv>, rs: seq<Iv>)
    requires Ordered(0, es) && Nonempty(rs)
    ensures var o := DeleteAll(false, es, rs);
            (o.Done? <==> AllFound(es, rs)) && (o.Done? ==> Effect(0, es, rs, o))
    decreases |rs|
  {
    if rs == [] {
      NoEffect(0, es);
    } else {
      var r, tail := rs[0], rs[1..];
      assert rs == [r] + tail && Nonempty(tail) && r.lo <= r.hi;
      DeleteOnePlain(es, r);
      if Matches(es, r) {
        PlainStep(es, r, tail);
        var o := DeleteOne(true, es, r);
        hide Covers, Taken, AllFound, Ordered, Times, Count, DeleteOne, Effect, Removable, Matches;
        DeleteAllPlain(o.set_, tail);
        var o' := DeleteAll(false, o.set_, tail);
        if o'.Done? { EffectJoins(0, es, r, tail, o, o'); }
      } else {
        assert !AllMatch(es, rs);
      }
    }
  }

  lemma PlainStep(es: seq<Iv>, r: Iv, rs: seq<Iv>)
    requires Ordered(0, es) && r.lo <= r.hi && Nonempty(rs) && Matches(es, r)
    ensures var o := DeleteOne(true, es, r);
            && o.Done? && Ordered(0, o.set_)
            && (AllFound(es, [r] + rs) <==> AllFound(o.set_, rs))
            && (forall x :: Covers(o.set_, x) <==> Covers(es, x) && !(Removable(es, r) && r.lo <= x <= r.hi))
            && (forall v :: Count(o.set_, v) + Times(o.purge, v) == Count(es, v))
            && (forall x :: Taken(o.set_, rs, x) <==> Taken(es, rs, x))
  {
    var o := DeleteOne(true, es, r);
    DeleteOneEffect(0, es, r);
    var i :| 0 <= i < |es| && Same(es[i], r);
    assert Inside(r, es[i]);
    hide DeleteOne, Ordered, Covers, Count, Matches, Removable, Taken;
    forall i | 0 <= i < |rs|
      ensures Matches(o.set_, rs[i]) <==> Matches(es, rs[i]) && !(Same(r, rs[i]) && Removable(es, r))
      ensures Removable(o.set_, rs[i]) <==> Removable(es, rs[i]) {
      DeleteOneMatches(es, r, rs[i]);
    }
    FoundNext(es, r, rs, o.set_);
    forall x ensures Taken(o.set_, rs, x) <==> Taken(es, rs, x) { TakenSame(o.set_, es, rs, x); }
  }

  /** One delete command on a set without auto-merge. */
  lemma SetDeletePlain(existing: seq<Iv>, init: seq<Iv>)
    requires Ordered(0, existing) && Nonempty(init)
    ensures var c := DeleteCommand(false, existing, init);
            && (c.Some? <==> AllFound(existing, init))
            && (c.Some? ==> CommandEffect(0, existing, init, c.value))
  {
    DeleteAllPlain(existing, init);
    var o := DeleteAll(false, existing, init);
    hide Ordered, AllFound, Effect, CommandEffect, DeleteAll;
    if o.Done? { CommandsExact(0, existing, init, o); }
  }
}
