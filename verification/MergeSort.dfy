/** The set element sort (src/mergesort.c).

    Equal keys come out in exactly the reverse of their input order: the merge
    puts an entry of the first half before one of the second only when its key
    is strictly smaller. */
module MergeSort {
  import opened CircularList

  // ------------------------------------------------------------------ what it computes

  /** `ls` spliced into `hs`: an entry of `ls` goes before an entry of `hs` iff its key is smaller. */
  function Merge<T>(key: T -> int, ls: seq<T>, hs: seq<T>): seq<T> {
    if ls == [] then hs
    else if hs == [] || key(ls[0]) < key(hs[0]) then [ls[0]] + Merge(key, ls[1..], hs)
    else [hs[0]] + Merge(key, ls, hs[1..])
  }

  /** The size of the part that list_cut_middle cuts off. */
  function Middle(n: nat): (m: nat)
    ensures n > 1 ==> 0 < m < n
  {
    (n + 1) / 2
  }

  function Sort<T>(key: T -> int, xs: seq<T>): seq<T> {
    if |xs| <= 1 then xs
    else
      var m := Middle(|xs|);
      Merge(key, Sort(key, xs[..m]), Sort(key, xs[m..]))
  }

  // ------------------------------------------------------------------ what is asked of it

  ghost predicate NoneBelow<T>(key: T -> int, b: int, xs: seq<T>) {
    forall i :: 0 <= i < |xs| ==> b <= key(xs[i])
  }

  ghost predicate Sorted<T>(key: T -> int, xs: seq<T>) {
    xs == [] || (NoneBelow(key, key(xs[0]), xs[1..]) && Sorted(key, xs[1..]))
  }

  /** Sortedness read as a statement about any two positions. */
  lemma {:induction false} SortedPairs<T>(key: T -> int, xs: seq<T>)
    ensures Sorted(key, xs) <==> forall i, j :: 0 <= i < j < |xs| ==> key(xs[i]) <= key(xs[j])
  {
    if xs != [] {
      SortedPairs(key, xs[1..]);
      if Sorted(key, xs) {
        forall i, j | 0 <= i < j < |xs| ensures key(xs[i]) <= key(xs[j]) {
          assert xs[j] == xs[1..][j - 1];
          if i > 0 { assert xs[i] == xs[1..][i - 1]; }
        }
      }
    }
  }

  /** The elements with key `k`, in order. */
  function WithKey<T>(key: T -> int, k: int, xs: seq<T>): seq<T> {
    if xs == [] then []
    else (if key(xs[0]) == k then [xs[0]] else []) + WithKey(key, k, xs[1..])
  }

  function Reverse<T>(xs: seq<T>): (r: seq<T>)
    ensures |r| == |xs|
  {
    if xs == [] then [] else Reverse(xs[1..]) + [xs[0]]
  }

  // ------------------------------------------------------------------ lemmas

  lemma BagCons<T>(x: T, xs: seq<T>)
    ensures multiset([x] + xs) == multiset{x} + multiset(xs)
  {
  }

  lemma {:induction false} MergePermutes<T>(key: T -> int, ls: seq<T>, hs: seq<T>)
    ensures multiset(Merge(key, ls, hs)) == multiset(ls) + multiset(hs)
  {
    if ls == [] {
    } else if hs == [] || key(ls[0]) < key(hs[0]) {
      MergePermutes(key, ls[1..], hs);
      TakenFirst(ls[0], ls[1..], hs, Merge(key, ls[1..], hs), ls);
    } else {
      MergePermutes(key, ls, hs[1..]);
      TakenFirst(hs[0], hs[1..], ls, Merge(key, ls, hs[1..]), hs);
    }
  }

  lemma TakenFirst<T>(x: T, tail: seq<T>, others: seq<T>, merged: seq<T>, xs: seq<T>)
    requires xs != [] && x == xs[0] && tail == xs[1..]
    requires multiset(merged) == multiset(tail) + multiset(others)
    ensures multiset([x] + merged) == multiset(xs) + multiset(others)
  {
    assert xs == [x] + tail;
    BagCons(x, tail);
    BagCons(x, merged);
  }

  lemma {:induction false} SortPermutes<T>(key: T -> int, xs: seq<T>)
    ensures multiset(Sort(key, xs)) == multiset(xs)
  {
    if |xs| > 1 {
      var m := Middle(|xs|);
      SortPermutes(key, xs[..m]);
      SortPermutes(key, xs[m..]);
      MergePermutes(key, Sort(key, xs[..m]), Sort(key, xs[m..]));
      BagSplit(xs, m);
      hide Merge;
    }
  }

  lemma BagSplit<T>(xs: seq<T>, m: nat)
    requires m <= |xs|
    ensures multiset(xs[..m]) + multiset(xs[m..]) == multiset(xs)
  {
    assert xs == xs[..m] + xs[m..];
  }

  lemma SortElements<T>(key: T -> int, xs: seq<T>)
    ensures |Sort(key, xs)| == |xs|
    ensures forall i :: 0 <= i < |xs| ==> Sort(key, xs)[i] in xs
  {
    SortPermutes(key, xs);
    hide Sort;
    var s := Sort(key, xs);
    assert |multiset(s)| == |multiset(xs)|;
    forall i | 0 <= i < |s| ensures s[i] in xs { assert s[i] in multiset(s); }
  }

  lemma {:induction false} MergeNoneBelow<T>(key: T -> int, b: int, ls: seq<T>, hs: seq<T>)
    requires NoneBelow(key, b, ls) && NoneBelow(key, b, hs)
    ensures NoneBelow(key, b, Merge(key, ls, hs))
  {
    MergePermutes(key, ls, hs);
    var m := Merge(key, ls, hs);
    forall i | 0 <= i < |m| ensures b <= key(m[i]) {
      assert m[i] in multiset(m);
    }
  }

  lemma {:induction false} MergeSorted<T>(key: T -> int, ls: seq<T>, hs: seq<T>)
    requires Sorted(key, ls) && Sorted(key, hs)
    ensures Sorted(key, Merge(key, ls, hs))
  {
    if ls == [] {
    } else if hs == [] || key(ls[0]) < key(hs[0]) {
      MergeSorted(key, ls[1..], hs);
      MergeNoneBelow(key, key(ls[0]), ls[1..], hs);
    } else {
      MergeSorted(key, ls, hs[1..]);
      MergeNoneBelow(key, key(hs[0]), ls, hs[1..]);
    }
  }

  /** Every input comes out ordered. */
  lemma {:induction false} SortSorts<T>(key: T -> int, xs: seq<T>)
    ensures Sorted(key, Sort(key, xs))
  {
    if |xs| > 1 {
      var m := Middle(|xs|);
      SortSorts(key, xs[..m]);
      SortSorts(key, xs[m..]);
      MergeSorted(key, Sort(key, xs[..m]), Sort(key, xs[m..]));
    }
  }

  lemma {:induction false} WithKeyAppend<T>(key: T -> int, k: int, xs: seq<T>, ys: seq<T>)
    ensures WithKey(key, k, xs + ys) == WithKey(key, k, xs) + WithKey(key, k, ys)
  {
    if xs == [] {
      assert xs + ys == ys;
      assert [] + WithKey(key, k, ys) == WithKey(key, k, ys);
    } else {
      WithKeyAppend(key, k, xs[1..], ys);
      assert (xs + ys)[1..] == xs[1..] + ys;
      Regroup(if key(xs[0]) == k then [xs[0]] else [], WithKey(key, k, xs[1..]), WithKey(key, k, ys));
    }
  }

  lemma Regroup<T>(a: seq<T>, b: seq<T>, c: seq<T>)
    ensures a + (b + c) == (a + b) + c
  {
  }

  lemma {:induction false} WithKeyNone<T>(key: T -> int, k: int, xs: seq<T>)
    requires forall i :: 0 <= i < |xs| ==> key(xs[i]) != k
    ensures WithKey(key, k, xs) == []
  {
    if xs != [] { WithKeyNone(key, k, xs[1..]); }
  }

  lemma {:induction false} ReverseAppend<T>(xs: seq<T>, ys: seq<T>)
    ensures Reverse(xs + ys) == Reverse(ys) + Reverse(xs)
  {
    if xs == [] {
      assert xs + ys == ys;
      assert Reverse(ys) + [] == Reverse(ys);
    } else {
      ReverseAppend(xs[1..], ys);
      assert (xs + ys)[1..] == xs[1..] + ys;
      Regroup(Reverse(ys), Reverse(xs[1..]), [xs[0]]);
    }
  }

  /** Among equal keys the merge puts all of `hs` before all of `ls`. */
  lemma {:induction false} MergeTies<T>(key: T -> int, k: int, ls: seq<T>, hs: seq<T>)
    requires Sorted(key, ls) && Sorted(key, hs)
    ensures WithKey(key, k, Merge(key, ls, hs)) == WithKey(key, k, hs) + WithKey(key, k, ls)
  {
    if ls == [] {
    } else if hs == [] || key(ls[0]) < key(hs[0]) {
      MergeTies(key, k, ls[1..], hs);
      if key(ls[0]) == k { WithKeyNone(key, k, hs); }
      TieLeft(key, k, ls[0], Merge(key, ls[1..], hs), ls[1..], hs);
      assert ls == [ls[0]] + ls[1..];
    } else {
      MergeTies(key, k, ls, hs[1..]);
      TieRight(key, k, hs[0], Merge(key, ls, hs[1..]), ls, hs[1..]);
      assert hs == [hs[0]] + hs[1..];
    }
  }

  lemma TieLeft<T>(key: T -> int, k: int, x: T, m: seq<T>, ls: seq<T>, hs: seq<T>)
    requires WithKey(key, k, m) == WithKey(key, k, hs) + WithKey(key, k, ls)
    requires key(x) == k ==> WithKey(key, k, hs) == []
    ensures WithKey(key, k, [x] + m) == WithKey(key, k, hs) + WithKey(key, k, [x] + ls)
  {
    WithKeyCons(key, k, x, m);
    WithKeyCons(key, k, x, ls);
  }

  lemma TieRight<T>(key: T -> int, k: int, x: T, m: seq<T>, ls: seq<T>, hs: seq<T>)
    requires WithKey(key, k, m) == WithKey(key, k, hs) + WithKey(key, k, ls)
    ensures WithKey(key, k, [x] + m) == WithKey(key, k, [x] + hs) + WithKey(key, k, ls)
  {
    WithKeyCons(key, k, x, m);
    WithKeyCons(key, k, x, hs);
  }

  lemma WithKeyCons<T>(key: T -> int, k: int, x: T, xs: seq<T>)
    ensures WithKey(key, k, [x] + xs) == (if key(x) == k then [x] else []) + WithKey(key, k, xs)
  {
    assert ([x] + xs)[1..] == xs;
  }

  /** Equal keys come out in exactly the reverse of their input order. */
  lemma {:induction false} SortReversesTies<T>(key: T -> int, k: int, xs: seq<T>)
    ensures WithKey(key, k, Sort(key, xs)) == Reverse(WithKey(key, k, xs))
  {
    if |xs| > 1 {
      var m := Middle(|xs|);
      var a, b := xs[..m], xs[m..];
      assert xs == a + b;
      assert Sort(key, xs) == Merge(key, Sort(key, a), Sort(key, b));
      hide *;
      SortReversesTies(key, k, a);
      SortReversesTies(key, k, b);
      SortSorts(key, a);
      SortSorts(key, b);
      MergeTies(key, k, Sort(key, a), Sort(key, b));
      WithKeyAppend(key, k, a, b);
      ReverseAppend(WithKey(key, k, a), WithKey(key, k, b));
    } else if |xs| == 1 {
      assert xs == [xs[0]];
    }
  }

  lemma {:induction false} WithKeyMember<T>(key: T -> int, x: T, xs: seq<T>)
    requires x in xs
    ensures x in WithKey(key, key(x), xs)
  {
    if x != xs[0] { WithKeyMember(key, x, xs[1..]); }
  }

  lemma {:induction false} WithKeySubset<T>(key: T -> int, k: int, xs: seq<T>, x: T)
    requires x in WithKey(key, k, xs)
    ensures x in xs && key(x) == k
  {
    if x in WithKey(key, k, xs[1..]) { WithKeySubset(key, k, xs[1..], x); }
  }

  /** Order and ties pin the result down: two sorted sequences with the same elements per key are equal. */
  lemma {:induction false} SortedUnique<T>(key: T -> int, xs: seq<T>, ys: seq<T>)
    requires Sorted(key, xs) && Sorted(key, ys)
    requires forall k :: WithKey(key, k, xs) == WithKey(key, k, ys)
    ensures xs == ys
  {
    if ys != [] { WithKeyMember(key, ys[0], ys); }
    if xs != [] {
      WithKeyMember(key, xs[0], xs);
      assert xs[0] in WithKey(key, key(xs[0]), ys);
      WithKeySubset(key, key(xs[0]), ys, xs[0]);
      WithKeyMember(key, ys[0], ys);
      assert ys[0] in WithKey(key, key(ys[0]), xs);
      WithKeySubset(key, key(ys[0]), xs, ys[0]);
      var k0 := key(xs[0]);
      assert key(ys[0]) == k0;
      assert WithKey(key, k0, xs)[0] == xs[0] && WithKey(key, k0, ys)[0] == ys[0];
      forall k ensures WithKey(key, k, xs[1..]) == WithKey(key, k, ys[1..]) {
        var a, b := WithKey(key, k, xs[1..]), WithKey(key, k, ys[1..]);
        assert WithKey(key, k, xs) == WithKey(key, k, ys);
        if k == k0 {
          assert a == ([xs[0]] + a)[1..] && b == ([ys[0]] + b)[1..];
        } else {
          assert a == WithKey(key, k, xs) && b == WithKey(key, k, ys);
        }
      }
      SortedUnique(key, xs[1..], ys[1..]);
    }
  }

  /** What __set_delete relies on: an entry put at the head of the list sorts to just after all the
      entries whose key is no larger, in particular after one with the same key. */
  lemma SortPlacesHeadAfterTie<T>(key: T -> int, r: T, xs: seq<T>, k: nat)
    requires k <= |xs| == |Sort(key, xs)|
    requires forall i :: 0 <= i < k ==> key(Sort(key, xs)[i]) <= key(r)
    requires forall i :: k <= i < |xs| ==> key(r) < key(Sort(key, xs)[i])
    ensures Sort(key, [r] + xs) == Sort(key, xs)[..k] + [r] + Sort(key, xs)[k..]
  {
    var s, t := Sort(key, [r] + xs), Sort(key, xs)[..k] + [r] + Sort(key, xs)[k..];
    SortSorts(key, [r] + xs);
    SortSorts(key, xs);
    forall q ensures WithKey(key, q, s) == WithKey(key, q, t) {
      SortReversesTies(key, q, [r] + xs);
      SortReversesTies(key, q, xs);
      HeadTies(key, q, r, xs, Sort(key, xs), k);
    }
    SortedInsert(key, r, Sort(key, xs), k);
    SortedUnique(key, s, t);
  }

  lemma {:induction false} SortedInsert<T>(key: T -> int, r: T, xs: seq<T>, k: nat)
    requires Sorted(key, xs) && k <= |xs|
    requires forall i :: 0 <= i < k ==> key(xs[i]) <= key(r)
    requires forall i :: k <= i < |xs| ==> key(r) < key(xs[i])
    ensures Sorted(key, xs[..k] + [r] + xs[k..])
  {
    var t := xs[..k] + [r] + xs[k..];
    if k == 0 {
      assert t == [r] + xs;
      ConsSorted(key, r, xs, t);
    } else {
      TailSorted(key, xs);
      hide Sorted;
      SortedInsert(key, r, xs[1..], k - 1);
      InsertBehind(key, r, xs[0], xs[1..], k - 1);
      assert xs == [xs[0]] + xs[1..];
      ConsSorted(key, xs[0], xs[1..][..k - 1] + [r] + xs[1..][k - 1..], t);
    }
  }

  /** The first element stays the smallest and in front. */
  lemma InsertBehind<T>(key: T -> int, r: T, x: T, tail: seq<T>, k: nat)
    requires k <= |tail| && key(x) <= key(r) && forall i :: 0 <= i < |tail| ==> key(x) <= key(tail[i])
    ensures var u := tail[..k] + [r] + tail[k..];
            (forall i :: 0 <= i < |u| ==> key(x) <= key(u[i]))
                && ([x] + tail)[..k + 1] + [r] + ([x] + tail)[k + 1..] == [x] + u
  {
    var u := tail[..k] + [r] + tail[k..];
    forall i | 0 <= i < |u| ensures key(x) <= key(u[i]) {
      assert u[i] == if i < k then tail[i] else if i == k then r else tail[i - 1];
    }
  }

  lemma ConsSorted<T>(key: T -> int, x: T, u: seq<T>, t: seq<T>)
    requires t == [x] + u && Sorted(key, u) && forall i :: 0 <= i < |u| ==> key(x) <= key(u[i])
    ensures Sorted(key, t)
  {
    assert t[1..] == u;
  }

  lemma HeadTies<T>(key: T -> int, q: int, r: T, xs: seq<T>, s: seq<T>, k: nat)
    requires k <= |s| && WithKey(key, q, s) == Reverse(WithKey(key, q, xs))
    requires forall i :: k <= i < |s| ==> key(r) < key(s[i])
    ensures Reverse(WithKey(key, q, [r] + xs)) == WithKey(key, q, s[..k] + [r] + s[k..])
  {
    var a, b := s[..k], s[k..];
    assert s == a + b && a + [r] + b == a + ([r] + b);
    var w, wa, wb := WithKey(key, q, xs), WithKey(key, q, a), WithKey(key, q, b);
    WithKeyAppend(key, q, a, b);
    WithKeyAppend(key, q, a, [r] + b);
    WithKeyCons(key, q, r, b);
    WithKeyCons(key, q, r, xs);
    if key(r) == q {
      WithKeyNone(key, q, b);
      ReverseAppend([r], w);
      assert Reverse([r]) == [r];
      hide *;
      assert wa + wb == wa && [r] + wb == [r];
    } else {
      hide *;
      assert [] + w == w && [] + wb == wb;
    }
  }

  /** With distinct keys there is only one sorted order. */
  ghost predicate SameBag<T>(xs: seq<T>, ys: seq<T>) {
    multiset(xs) == multiset(ys)
  }

  ghost predicate Ascends<T>(key: T -> int, ys: seq<T>) {
    forall i, j :: 0 <= i < j < |ys| ==> key(ys[i]) < key(ys[j])
  }

  lemma {:induction false} SortedOrder<T>(key: T -> int, xs: seq<T>, ys: seq<T>)
    requires Sorted(key, xs) && SameBag(xs, ys) && Ascends(key, ys)
    ensures xs == ys
  {
    hide Sorted, SameBag, Ascends;
    SameLength(xs, ys);
    if xs != [] {
      HeadsAgree(key, xs, ys);
      TailSorted(key, xs);
      TailBags(xs, ys);
      TailAscends(key, ys);
      SortedOrder(key, xs[1..], ys[1..]);
      assert xs == [xs[0]] + xs[1..] && ys == [ys[0]] + ys[1..];
    }
  }

  lemma TailSorted<T>(key: T -> int, xs: seq<T>)
    requires xs != [] && Sorted(key, xs)
    ensures Sorted(key, xs[1..]) && forall i :: 0 <= i < |xs| - 1 ==> key(xs[0]) <= key(xs[1..][i])
  {
  }

  lemma TailAscends<T>(key: T -> int, ys: seq<T>)
    requires ys != [] && Ascends(key, ys)
    ensures Ascends(key, ys[1..])
  {
  }

  lemma SameLength<T>(xs: seq<T>, ys: seq<T>)
    requires SameBag(xs, ys)
    ensures |xs| == |ys|
  {
    assert |multiset(xs)| == |xs| && |multiset(ys)| == |ys|;
  }

  lemma TailBags<T>(xs: seq<T>, ys: seq<T>)
    requires SameBag(xs, ys) && xs != [] && ys != [] && xs[0] == ys[0]
    ensures SameBag(xs[1..], ys[1..])
  {
    TailBag(xs);
    TailBag(ys);
  }

  lemma TailBag<T>(xs: seq<T>)
    requires xs != []
    ensures multiset(xs[1..]) == multiset(xs) - multiset{xs[0]}
  {
    assert xs == [xs[0]] + xs[1..];
  }

  lemma HeadsAgree<T>(key: T -> int, xs: seq<T>, ys: seq<T>)
    requires xs != [] && ys != [] && Sorted(key, xs) && SameBag(xs, ys) && Ascends(key, ys)
    ensures xs[0] == ys[0]
  {
    assert xs[0] in multiset(ys) && ys[0] in multiset(xs);
    var i :| 0 <= i < |ys| && ys[i] == xs[0];
    var j :| 0 <= j < |xs| && xs[j] == ys[0];
    assert j > 0 ==> xs[j] == xs[1..][j - 1];
  }

  // ------------------------------------------------------------------ the code

  function KeyOf(): ListHead -> int {
    (n: ListHead) => n.key
  }

  /** What is left of `list` from position `i` on: its nodes are in `V` and linked one to the next. */
  ghost predicate Unspliced(V: set<ListHead>, list: ListHead, ls: seq<ListHead>, i: nat)
    reads V
  {
    && list in V && NoDup(ls)
    && (forall n :: i <= n < |ls| ==> ls[n] in V && ls[n] != list)
    && (forall n :: i < n <= |ls| ==> Linked(list, ls, n))
  }

  /** What list_splice_sorted has made of `head`: `xs[..i + j]` is final, `xs[i + j..]` is still to be merged. */
  ghost predicate Merging(ls: seq<ListHead>, hs: seq<ListHead>, xs: seq<ListHead>, i: nat, j: nat) {
    && i <= |ls| && j <= |hs| && |xs| == i + |hs|
    && (forall n :: j <= n < |hs| ==> xs[i + n] == hs[n])
    && Merge(KeyOf(), ls, hs) == xs[..i + j] + Merge(KeyOf(), ls[i..], hs[j..])
  }

  lemma MergeLeft<T>(key: T -> int, ls: seq<T>, hs: seq<T>, i: nat, j: nat)
    requires i < |ls| && j <= |hs| && (j == |hs| || key(ls[i]) < key(hs[j]))
    ensures Merge(key, ls[i..], hs[j..]) == [ls[i]] + Merge(key, ls[i + 1..], hs[j..])
  {
    assert ls[i..][1..] == ls[i + 1..];
  }

  lemma MergeRight<T>(key: T -> int, ls: seq<T>, hs: seq<T>, i: nat, j: nat)
    requires i < |ls| && j < |hs| && key(hs[j]) <= key(ls[i])
    ensures Merge(key, ls[i..], hs[j..]) == [hs[j]] + Merge(key, ls[i..], hs[j + 1..])
  {
    assert hs[j..][1..] == hs[j + 1..];
  }

  lemma MergingLeft(ls: seq<ListHead>, hs: seq<ListHead>, xs: seq<ListHead>, i: nat, j: nat)
    requires Merging(ls, hs, xs, i, j)
    requires i < |ls| && (j == |hs| || ls[i].key < hs[j].key)
    ensures Merging(ls, hs, Insert(xs, i + j, ls[i]), i + 1, j)
  {
    var ys := Insert(xs, i + j, ls[i]);
    MergeLeft(KeyOf(), ls, hs, i, j);
    hide Merge;
    var m := Merge(KeyOf(), ls[i + 1..], hs[j..]);
    assert ys[..i + 1 + j] == xs[..i + j] + [ls[i]];
    assert xs[..i + j] + ([ls[i]] + m) == ys[..i + 1 + j] + m;
  }

  lemma MergingRight(ls: seq<ListHead>, hs: seq<ListHead>, xs: seq<ListHead>, i: nat, j: nat)
    requires Merging(ls, hs, xs, i, j)
    requires i < |ls| && j < |hs| && hs[j].key <= ls[i].key
    ensures Merging(ls, hs, xs, i, j + 1)
  {
    MergeRight(KeyOf(), ls, hs, i, j);
    hide Merge;
    var m := Merge(KeyOf(), ls[i..], hs[j + 1..]);
    assert xs[..i + j + 1] == xs[..i + j] + [hs[j]];
    assert xs[..i + j] + ([hs[j]] + m) == xs[..i + j + 1] + m;
  }

  /** The branch of list_splice_sorted that moves `ls[i]`, found through the next node of `list`. */
  method SpliceNode(l: ListHead, h: ListHead,
                    ghost V: set<ListHead>, ghost list: ListHead, ghost ls: seq<ListHead>, ghost i: nat,
                    ghost U: set<ListHead>, ghost head: ListHead, ghost xs: seq<ListHead>, ghost p: nat)
      returns (l': ListHead)
    requires i < |ls| && Unspliced(V, list, ls, i) && l == ls[i]
    requires p <= |xs| && IsList(U, head, xs) && h == At(head, xs, p + 1) && V !! U
    modifies U, l
    ensures l' == At(list, ls, i + 2)
    ensures IsList(U + {l}, head, Insert(xs, p, l)) && Unspliced(V - {l}, list, ls, i + 1)
  {
    assert Linked(list, ls, i + 1);
    l' := l.next;
    AddBefore(l'.prev, h, At(head, xs, p), U, head, xs, p);
    forall n | i + 1 < n <= |ls| ensures Linked(list, ls, n) {
      assert old(Linked(list, ls, n));
    }
  }

  /** The loop state of list_splice_sorted: the nodes not yet moved are in `V`, those of `head` in `U`. */
  ghost predicate Splicing(V: set<ListHead>, U: set<ListHead>, l: ListHead, h: ListHead,
                           list: ListHead, ls: seq<ListHead>, i: nat,
                           head: ListHead, hs: seq<ListHead>, j: nat, xs: seq<ListHead>)
    reads V, U
  {
    && V !! U && Unspliced(V, list, ls, i) && IsList(U, head, xs) && Merging(ls, hs, xs, i, j)
    && l == At(list, ls, i + 1) && h == At(head, xs, i + j + 1)
  }

  /** list_splice_sorted: walk both lists, moving each node of `list` in front of the first remaining
      node of `head` with a larger key. */
  method SpliceSorted(list: ListHead, head: ListHead, ghost S: set<ListHead>, ghost ls: seq<ListHead>,
                      ghost T: set<ListHead>, ghost hs: seq<ListHead>)
    requires IsList(S, list, ls) && IsList(T, head, hs) && S !! T
    modifies S, T
    ensures IsList(S - {list} + T, head, Merge(KeyOf(), ls, hs))
  {
    hide *;
    SpliceStarts(list, head, S, ls, T, hs);
    var h: ListHead := head.next;
    var l: ListHead := list.next;
    ghost var xs, V, U := hs, S, T;
    ghost var i: nat, j: nat := 0, 0;
    while l != list
      invariant Splicing(V, U, l, h, list, ls, i, head, hs, j, xs) && V + U == S + T
      invariant i <= |ls| && j <= |hs|
      decreases |ls| - i + |hs| - j
    {
      l, h, xs, i, j, V, U := SpliceStep(V, U, l, h, list, ls, i, head, hs, j, xs);
    }
    SpliceEnds(V, U, h, list, ls, i, head, hs, j, xs);
    IsListGrows(U, S - {list} + T, head, xs);
  }

  /** What the comparison of the two cursors says about the two lists. */
  lemma StepKeys(V: set<ListHead>, U: set<ListHead>, l: ListHead, h: ListHead, list: ListHead, ls: seq<ListHead>,
                 i: nat,
                 head: ListHead, hs: seq<ListHead>, j: nat, xs: seq<ListHead>)
    requires Splicing(V, U, l, h, list, ls, i, head, hs, j, xs) && l != list
    ensures i < |ls| && l == ls[i] && j <= |hs| && |xs| == i + |hs| && (h == head <==> j == |hs|)
    ensures h != head ==> h == hs[j]
  {
    hide Merge;
  }

  lemma SpliceStarts(list: ListHead, head: ListHead, S: set<ListHead>, ls: seq<ListHead>, T: set<ListHead>,
                     hs: seq<ListHead>)
    requires IsList(S, list, ls) && IsList(T, head, hs) && S !! T
    ensures head in T && list in S && head.next != null && list.next != null
            && Splicing(S, T, list.next, head.next, list, ls, 0, head, hs, 0, hs)
  {
    ListLinked(T, head, hs, 0);
    ListLinked(S, list, ls, 0);
  }

  lemma SpliceEnds(V: set<ListHead>, U: set<ListHead>, h: ListHead, list: ListHead, ls: seq<ListHead>, i: nat,
                   head: ListHead, hs: seq<ListHead>, j: nat, xs: seq<ListHead>)
    requires Splicing(V, U, list, h, list, ls, i, head, hs, j, xs)
    ensures list in V && V !! U && IsList(U, head, xs) && xs == Merge(KeyOf(), ls, hs)
  {
  }

  /** One round of the loop: exactly one of the two lists advances. */
  method SpliceStep(ghost V: set<ListHead>, ghost U: set<ListHead>, l: ListHead, h: ListHead,
                    list: ListHead, ghost ls: seq<ListHead>, ghost i: nat,
                    head: ListHead, ghost hs: seq<ListHead>, ghost j: nat, ghost xs: seq<ListHead>)
      returns (l': ListHead, h': ListHead, ghost xs': seq<ListHead>, ghost i': nat, ghost j': nat,
               ghost V': set<ListHead>, ghost U': set<ListHead>)
    requires Splicing(V, U, l, h, list, ls, i, head, hs, j, xs) && l != list
    modifies V, U
    ensures Splicing(V', U', l', h', list, ls, i', head, hs, j', xs')
    ensures V' + U' == V + U && i' <= |ls| && j' <= |hs| && i' + j' == i + j + 1
  {
    hide Merging;
    l', h', xs', i', j', V', U' := l, h, xs, i, j, V, U;
    StepKeys(V, U, l, h, list, ls, i, head, hs, j, xs);
    if h == head || l.key < h.key {
      l' := SpliceNode(l, h, V, list, ls, i, U, head, xs, i + j);
      MergingLeft(ls, hs, xs, i, j);
      xs', V', U', i' := Insert(xs, i + j, l), V - {l}, U + {l}, i + 1;
    } else {
      MergingRight(ls, hs, xs, i, j);
      ListLinked(U, head, xs, i + j + 1);
      h' := h.next;
      j' := j + 1;
    }
  }

  lemma IsListGrows(U: set<ListHead>, S: set<ListHead>, head: ListHead, xs: seq<ListHead>)
    requires IsList(U, head, xs) && U <= S
    ensures IsList(S, head, xs)
  {
  }

  /** list_cut_middle: close in on the middle from both ends, then cut there. */
  method CutMiddle(list: ListHead, head: ListHead, ghost S: set<ListHead>, ghost xs: seq<ListHead>)
      returns (ghost A: set<ListHead>)
    requires IsList(S, head, xs) && |xs| > 1 && list !in S
    modifies list, S
    ensures list in A && A <= S + {list} && Middle(|xs|) == (|xs| + 1) / 2
    ensures IsList(A, list, xs[..Middle(|xs|)]) && IsList(S - A, head, xs[Middle(|xs|)..])
  {
    ListLinked(S, head, xs, 0);
    ListLinked(S, head, xs, |xs|);
    var s := head.next;
    var e := head.prev;
    ghost var a, b := 0, |xs| - 1;
    while e != s
      invariant IsList(S, head, xs)
      invariant 0 <= a <= b < |xs| && s == xs[a] && e == xs[b]
      invariant a + b == |xs| - 1 || (a == b && a + b == |xs| - 2)
      decreases b - a
    {
      ListLinked(S, head, xs, b);
      ListLinked(S, head, xs, a + 1);
      e := e.prev;
      b := b - 1;
      if e != s {
        s := s.next;
        a := a + 1;
      }
    }
    assert a + 1 == Middle(|xs|);
    A := CutPosition(list, head, s, S, xs, a);
  }

  /** list_expr_sort: the ring comes out holding exactly Sort() of what it held. */
  method ListExprSort(head: ListHead, ghost S: set<ListHead>, ghost xs: seq<ListHead>)
    requires IsList(S, head, xs)
    modifies S
    ensures IsList(S, head, Sort(KeyOf(), xs))
    decreases |xs|
  {
    var empty := Empty(head, S, xs);
    var singular := IsSingular(head, S, xs);
    if empty || singular {
      return;
    }
    var list := new ListHead(0);
    ghost var m := Middle(|xs|);
    ghost var A := CutMiddle(list, head, S, xs);
    ListExprSort(head, S - A, xs[m..]);
    ListExprSort(list, A, xs[..m]);
    SpliceSorted(list, head, A, Sort(KeyOf(), xs[..m]), S - A, Sort(KeyOf(), xs[m..]));
    IsListGrows(A - {list} + (S - A), S, head, Sort(KeyOf(), xs));
  }
}
