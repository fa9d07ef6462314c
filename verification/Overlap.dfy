/** Adding to an interval set without auto-merge (setelem_overlap and set_overlap in src/intervals.c):
    a command is refused exactly when two of the elements overlap without being the same range. */
module Overlap {
  import opened MergeSort
  import opened Automerge

  /** Which element the error is put on, by position in the sorted list. */
  datatype Verdict =
    | Accepted
    | OverlapsExisting(at: nat)
    | Conflicting(at: nat, other: nat)

  predicate SameRange(a: Iv, b: Iv) {
    a.lo == b.lo && a.hi == b.hi
  }

  /** Two elements can both be in the set. */
  predicate Agree(a: Iv, b: Iv) {
    SameRange(a, b) || a.hi < b.lo || b.hi < a.lo
  }

  ghost predicate AllAgree(es: seq<Iv>) {
    forall a, b :: a in es && b in es ==> Agree(a, b)
  }

  /** No value is in two elements with different bounds. */
  ghost predicate NoClash(es: seq<Iv>) {
    forall a, b, x :: a in es && b in es && Has(a, x) && Has(b, x) ==> a.lo == b.lo && a.hi == b.hi
  }

  ghost predicate Has(e: Iv, x: int) {
    e.lo <= x <= e.hi
  }

  lemma AgreeMeans(es: seq<Iv>)
    requires Nonempty(es)
    ensures AllAgree(es) <==> NoClash(es)
  {
    if NoClash(es) {
      forall a, b | a in es && b in es ensures Agree(a, b) {
        var x := if a.lo < b.lo then b.lo else a.lo;
        if Has(a, x) && Has(b, x) { assert SameRange(a, b); }
      }
    }
    if AllAgree(es) {
      forall a, b, x | a in es && b in es && Has(a, x) && Has(b, x) ensures a.lo == b.lo && a.hi == b.hi {
        assert Agree(a, b);
      }
    }
  }

  /** What is found at the first two neighbours that do not agree. */
  lemma Clashing(es: seq<Iv>, k: nat)
    requires Nonempty(es) && 0 < k < |es| && AllAgree(es[..k]) && !Agree(es[k - 1], es[k])
    ensures !AllAgree(es) && NoClash(es[..k]) && !NoClash([es[k - 1], es[k]])
  {
    var two := [es[k - 1], es[k]];
    assert es[k - 1] in es && es[k] in es;
    assert two[0] in two && two[1] in two;
    hide Agree, NoClash;
    AgreeMeans(es[..k]);
    AgreeMeans(two);
  }

  /** setelem_overlap: the error is on the first two neighbours that do not agree. It is put on the second of them
      as overlapping an existing element if the kernel has the first, else on the first if the kernel has the
      second, and on both if they are new. */
  method SetelemOverlap(es: seq<Iv>) returns (v: Verdict)
    requires Nonempty(es) && Sorted(Low(), es)
    ensures v == Accepted <==> AllAgree(es)
    ensures v == Accepted <==> NoClash(es)
    ensures v != Accepted ==>
              exists k :: 0 < k < |es| && NoClash(es[..k]) && !NoClash([es[k - 1], es[k]])
                          && v == if es[k - 1].kernel then OverlapsExisting(k)
                                  else if es[k].kernel then OverlapsExisting(k - 1)
                                  else Conflicting(k, k - 1)
  {
    var k := 0;
    hide NoClash, AllAgree, Sorted;
    SortedPairs(Low(), es);
    AgreeMeans(es);
    NothingClashes(es);
    while k < |es|
      invariant k <= |es| && AllAgree(es[..k])
    {
      var i := es[k];
      if k > 0 {
        var prev := es[k - 1];
        if prev.lo == i.lo && prev.hi == i.hi {
        } else if (prev.lo <= i.lo && prev.hi >= i.hi) || i.lo <= prev.hi {
          Clashing(es, k);
          return if prev.kernel then OverlapsExisting(k)
                 else if i.kernel then OverlapsExisting(k - 1)
                 else Conflicting(k, k - 1);
        }
        AgreesFurther(es, k);
      } else {
        OneAgrees(es);
      }
      k := k + 1;
    }
    assert es[..k] == es;
    v := Accepted;
  }

  lemma NothingClashes(es: seq<Iv>)
    ensures AllAgree(es[..0])
  {
  }

  lemma OneAgrees(es: seq<Iv>)
    requires es != []
    ensures AllAgree(es[..1])
  {
  }

  /** In a sorted list agreement passes from neighbours to all. */
  lemma AgreesFurther(es: seq<Iv>, k: nat)
    requires 0 < k < |es| && Nonempty(es) && AllAgree(es[..k]) && Agree(es[k - 1], es[k])
    requires forall i, j :: 0 <= i < j < |es| ==> Low()(es[i]) <= Low()(es[j])
    ensures AllAgree(es[..k + 1])
  {
    var prev, e := es[k - 1], es[k];
    forall a | a in es[..k] ensures Agree(a, e) && Agree(e, a) {
      var i :| 0 <= i < k && es[i] == a;
      assert es[..k][k - 1] == prev && Agree(a, prev);
      assert Low()(prev) <= Low()(e) && (i < k - 1 ==> Low()(es[i]) <= Low()(prev));
    }
    assert es[..k + 1] == es[..k] + [e];
  }

  // ------------------------------------------------------------------ commands

  /** The list that set_overlap checks. */
  function Spliced(existing: seq<Iv>, batch: seq<Iv>): seq<Iv> {
    Merge(Low(), existing, Sort(Low(), batch))
  }

  /** set_overlap: elements of the kernel go back to the existing set; the others are added, and
      copies of them flagged KERNEL go to the existing set. */
  method SetOverlap(existing: seq<Iv>, batch: seq<Iv>) returns (v: Verdict, existing': seq<Iv>, adds: seq<Iv>)
    requires OverlapExisting(existing) && Batch(batch)
    ensures v == Accepted <==> AllAgree(existing + batch)
    ensures v == Accepted <==> NoClash(existing + batch)
    ensures existing' == Installed(Spliced(existing, batch)) && adds == Adds(Spliced(existing, batch))
    ensures forall e :: multiset(adds)[e] == if e.kernel then 0 else multiset(existing)[e] + multiset(batch)[e]
    ensures forall e :: multiset(existing')[e] == if !e.kernel then 0 else
              multiset(existing + batch)[e] + multiset(existing + batch)[e.(kernel := false)]
    ensures forall i, j :: 0 <= i < j < |existing'| ==> existing'[i].lo <= existing'[j].lo
  {
    hide *;
    var es := Spliced(existing, batch);
    SplicedExact(existing, batch);
    NonemptyBoth(existing, batch);
    AgreeMeans(existing + batch);
    v := SetelemOverlap(es);
    existing', adds := Install(es);
    Counts(es, existing, batch);
  }

  lemma NonemptyBoth(existing: seq<Iv>, batch: seq<Iv>)
    requires OverlapExisting(existing) && Batch(batch)
    ensures Nonempty(existing + batch)
  {
    hide Sorted;
  }

  /** What is in the two lists, for every element, and that the set stays sorted. */
  lemma Counts(es: seq<Iv>, existing: seq<Iv>, batch: seq<Iv>)
    requires multiset(es) == multiset(existing) + multiset(batch) && Sorted(Low(), es)
    ensures forall e :: multiset(Adds(es))[e] == if e.kernel then 0 else multiset(existing)[e] + multiset(batch)[e]
    ensures forall e :: multiset(Installed(es))[e] == if !e.kernel then 0 else
              multiset(existing + batch)[e] + multiset(existing + batch)[e.(kernel := false)]
    ensures var ks := Installed(es); forall i, j :: 0 <= i < j < |ks| ==> ks[i].lo <= ks[j].lo
  {
    SortedPairs(Low(), es);
    hide Sorted, Installed, Adds;
    forall e ensures multiset(Adds(es))[e] == if e.kernel then 0 else multiset(es)[e] { AddsCount(es, e); }
    forall e ensures multiset(Installed(es))[e]
                     == if !e.kernel then 0 else multiset(es)[e] + multiset(es)[e.(kernel := false)] {
      InstalledCount(es, e);
    }
    assert multiset(existing + batch) == multiset(es);
    var ks := Installed(es);
    forall i, j | 0 <= i < j < |ks| ensures ks[i].lo <= ks[j].lo {
      assert Low()(es[i]) <= Low()(es[j]);
    }
  }

  lemma {:induction false} AddsCount(es: seq<Iv>, e: Iv)
    ensures multiset(Adds(es))[e] == if e.kernel then 0 else multiset(es)[e]
  {
    if es != [] {
      AddsCount(es[1..], e);
      assert es == [es[0]] + es[1..];
    }
  }

  lemma {:induction false} InstalledCount(es: seq<Iv>, e: Iv)
    ensures multiset(Installed(es))[e] == if !e.kernel then 0 else multiset(es)[e] + multiset(es)[e.(kernel := false)]
  {
    if es != [] {
      InstalledCount(es[1..], e);
      assert es == [es[0]] + es[1..];
    }
  }

  /** The loop of set_overlap over the checked list. */
  method Install(es: seq<Iv>) returns (existing': seq<Iv>, adds: seq<Iv>)
    ensures existing' == Installed(es) && adds == Adds(es)
  {
    existing', adds := [], [];
    InstallStarts(es);
    hide *;
    for n := 0 to |es|
      invariant Installing(es, n, existing', adds)
    {
      InstallNext(es, n, existing', adds);
      if es[n].kernel {
        existing' := existing' + [es[n]];
      } else {
        existing' := existing' + [es[n].(kernel := true)];
        adds := adds + [es[n]];
      }
    }
    InstallEnds(es, existing', adds);
  }

  /** What has been done up to element `n`, together with what is to come, is all. */
  ghost predicate Installing(es: seq<Iv>, n: nat, xs: seq<Iv>, ys: seq<Iv>) {
    n <= |es| && xs + Installed(es[n..]) == Installed(es) && ys + Adds(es[n..]) == Adds(es)
  }

  lemma InstallStarts(es: seq<Iv>)
    ensures Installing(es, 0, [], [])
  {
    assert es[0..] == es;
    assert [] + Installed(es) == Installed(es) && [] + Adds(es) == Adds(es);
  }

  lemma InstallEnds(es: seq<Iv>, xs: seq<Iv>, ys: seq<Iv>)
    requires Installing(es, |es|, xs, ys)
    ensures xs == Installed(es) && ys == Adds(es)
  {
    assert es[|es|..] == [];
    assert xs + [] == xs && ys + [] == ys;
  }

  lemma InstallNext(es: seq<Iv>, n: nat, xs: seq<Iv>, ys: seq<Iv>)
    requires n < |es| && Installing(es, n, xs, ys)
    ensures var k := if es[n].kernel then es[n] else es[n].(kernel := true);
            Installing(es, n + 1, xs + [k], if es[n].kernel then ys else ys + [es[n]])
  {
    var tail := es[n + 1..];
    assert es[n..][1..] == tail;
    var k := if es[n].kernel then es[n] else es[n].(kernel := true);
    assert Installed(es[n..]) == [k] + Installed(tail);
    Regroup(xs, k, Installed(tail));
    if es[n].kernel {
      assert Adds(es[n..]) == Adds(tail);
    } else {
      assert Adds(es[n..]) == [es[n]] + Adds(tail);
      Regroup(ys, es[n], Adds(tail));
    }
  }

  lemma Regroup(a: seq<Iv>, k: Iv, b: seq<Iv>)
    ensures a + ([k] + b) == (a + [k]) + b
  {
  }

  /** What existing_set->init holds between commands when there is no auto-merge, flagged KERNEL or not. */
  ghost predicate OverlapExisting(es: seq<Iv>) {
    Nonempty(es) && Sorted(Low(), es)
  }

  ghost predicate SameElements(es: seq<Iv>, fs: seq<Iv>) {
    forall e :: e in es <==> e in fs
  }

  lemma SplicedExact(existing: seq<Iv>, batch: seq<Iv>)
    requires OverlapExisting(existing) && Batch(batch)
    ensures var es := Spliced(existing, batch);
            && Nonempty(es) && Sorted(Low(), es) && SameElements(es, existing + batch)
            && (AllAgree(es) <==> AllAgree(existing + batch))
            && multiset(es) == multiset(existing) + multiset(batch)
  {
    var bs := Sort(Low(), batch);
    var es := Spliced(existing, batch);
    SortPermutes(Low(), batch);
    SortSorts(Low(), batch);
    MergePermutes(Low(), existing, bs);
    MergeSorted(Low(), existing, bs);
    hide Merge, Sort, Sorted, AllAgree;
    SameMembers(es, existing + batch);
    NonemptyAll(es, existing, batch);
    AgreeSame(es, existing + batch);
  }

  lemma NonemptyAll(es: seq<Iv>, existing: seq<Iv>, batch: seq<Iv>)
    requires OverlapExisting(existing) && Batch(batch) && SameElements(es, existing + batch)
    ensures Nonempty(es)
  {
    hide AllAgree, Sorted;
    forall i | 0 <= i < |es| ensures es[i].lo <= es[i].hi {
      assert es[i] in existing + batch;
    }
  }

  lemma SameMembers(es: seq<Iv>, fs: seq<Iv>)
    requires multiset(es) == multiset(fs)
    ensures SameElements(es, fs)
  {
    forall e ensures e in es <==> e in fs {
      assert e in es <==> e in multiset(es);
      assert e in fs <==> e in multiset(fs);
    }
  }

  /** Flagging the elements KERNEL changes nothing else about them. */
  lemma InstalledExisting(es: seq<Iv>, fs: seq<Iv>)
    requires Nonempty(es) && Sorted(Low(), es)
    ensures OverlapExisting(Installed(es))
    ensures AllAgree(Installed(es) + fs) <==> AllAgree(es + fs)
  {
    var ks := Installed(es);
    SortedPairs(Low(), es);
    SortedPairs(Low(), ks);
    hide Installed, Sorted;
    forall i, j | 0 <= i < j < |ks| ensures Low()(ks[i]) <= Low()(ks[j]) {
      assert Low()(es[i]) <= Low()(es[j]);
    }
    SameRanges(es, ks, fs);
    SameRanges(ks, es, fs);
  }

  lemma SameRanges(es: seq<Iv>, ks: seq<Iv>, fs: seq<Iv>)
    requires |es| == |ks| && forall i :: 0 <= i < |es| ==> SameRange(es[i], ks[i])
    ensures AllAgree(es + fs) ==> AllAgree(ks + fs)
  {
    if AllAgree(es + fs) {
      forall a, b | a in ks + fs && b in ks + fs ensures Agree(a, b) {
        var i :| 0 <= i < |ks + fs| && (ks + fs)[i] == a;
        var j :| 0 <= j < |ks + fs| && (ks + fs)[j] == b;
        assert (es + fs)[i] in es + fs && (es + fs)[j] in es + fs;
        assert Agree((es + fs)[i], (es + fs)[j]);
      }
    }
  }

  /** A run of commands; it ends with the first that is refused. */
  ghost predicate AllAccepted(existing: seq<Iv>, batches: seq<seq<Iv>>)
    decreases |batches|
  {
    batches != [] ==>
      AllAgree(existing + batches[0]) && AllAccepted(Installed(Spliced(existing, batches[0])), batches[1..])
  }

  ghost function Concat(batches: seq<seq<Iv>>): seq<Iv> {
    if batches == [] then [] else batches[0] + Concat(batches[1..])
  }

  /** A run of adds is accepted exactly when no two elements of all of them clash, in whatever
      commands they come. */
  lemma {:induction false} RunAccepted(existing: seq<Iv>, batches: seq<seq<Iv>>)
    requires OverlapExisting(existing) && AllAgree(existing)
    requires forall i :: 0 <= i < |batches| ==> Batch(batches[i])
    ensures AllAccepted(existing, batches) <==> AllAgree(existing + Concat(batches))
    decreases |batches|
  {
    if batches == [] {
      assert existing + [] == existing;
    } else {
      var b, rest := batches[0], Concat(batches[1..]);
      var ks := Installed(Spliced(existing, b));
      assert Concat(batches) == b + rest;
      hide Spliced, Installed, OverlapExisting, Batch, AllAgree, Concat;
      RunStep(existing, b, rest);
      if AllAgree(existing + b) { RunAccepted(ks, batches[1..]); }
    }
  }

  lemma RunStep(existing: seq<Iv>, b: seq<Iv>, rest: seq<Iv>)
    requires OverlapExisting(existing) && Batch(b)
    ensures var ks := Installed(Spliced(existing, b));
            && OverlapExisting(ks) && (AllAgree(existing + b) <==> AllAgree(ks))
            && (AllAgree(existing + (b + rest)) <==> AllAgree(ks + rest))
            && (AllAgree(existing + (b + rest)) ==> AllAgree(existing + b))
  {
    var es := Spliced(existing, b);
    var ks := Installed(es);
    hide *;
    SplicedExact(existing, b);
    InstalledExisting(es, []);
    InstalledExisting(es, rest);
    AgreeWith(es, existing + b, rest);
    AgreePart(existing + b, rest);
    assert existing + (b + rest) == (existing + b) + rest;
    assert ks + [] == ks && es + [] == es;
  }

  lemma AgreeWith(es: seq<Iv>, fs: seq<Iv>, gs: seq<Iv>)
    requires SameElements(es, fs)
    ensures AllAgree(es + gs) <==> AllAgree(fs + gs)
  {
    AgreeSame(es + gs, fs + gs);
  }

  lemma AgreeSame(es: seq<Iv>, fs: seq<Iv>)
    requires SameElements(es, fs)
    ensures AllAgree(es) <==> AllAgree(fs)
  {
  }

  lemma AgreePart(es: seq<Iv>, fs: seq<Iv>)
    ensures AllAgree(es + fs) ==> AllAgree(es)
  {
    forall e | e in es ensures e in es + fs {}
  }
}
