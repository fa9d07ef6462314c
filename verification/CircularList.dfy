/** Circular doubly linked lists with a head node (include/list.h).

    A list is a head node, the ghost sequence of its entries and a ghost set that holds
    all of these nodes. Going round once from the head visits `At(head, xs, 0)`,
    `At(head, xs, 1)` and so on up to the head again. */
module CircularList {

  class ListHead {
    var next: ListHead?
    var prev: ListHead?
    /** What expr_msort_value() reads from the expression the node is embedded in. */
    const key: int

    /** LIST_HEAD_INIT: a head that points at itself. */
    constructor (key: int)
      ensures this.key == key
      ensures next == this && prev == this
    {
      this.key := key;
      next, prev := this, this;
    }
  }

  /** The `i`-th node of one round trip, which starts and ends at the head. */
  ghost function At(head: ListHead, xs: seq<ListHead>, i: nat): ListHead
    requires i <= |xs| + 1
  {
    if i == 0 || i > |xs| then head else xs[i - 1]
  }

  ghost predicate Linked(head: ListHead, xs: seq<ListHead>, i: nat)
    requires i <= |xs|
    reads At(head, xs, i), At(head, xs, i + 1)
  {
    At(head, xs, i).next == At(head, xs, i + 1) && At(head, xs, i + 1).prev == At(head, xs, i)
  }

  ghost predicate NoDup<T>(xs: seq<T>) {
    forall i, j :: 0 <= i < j < |xs| ==> xs[i] != xs[j]
  }

  /** `head` and the entries `xs` are different nodes, all in `S`. */
  ghost predicate Nodes(S: set<ListHead>, head: ListHead, xs: seq<ListHead>) {
    head in S && NoDup(xs) && forall i :: 0 <= i < |xs| ==> xs[i] in S && xs[i] != head
  }

  /** The nodes from `head` round to `head` are exactly `xs`, linked both ways, and all in `S`. */
  ghost predicate IsList(S: set<ListHead>, head: ListHead, xs: seq<ListHead>)
    reads S
  {
    Nodes(S, head, xs) && forall i :: 0 <= i <= |xs| ==> Linked(head, xs, i)
  }

  ghost function Remove<T>(xs: seq<T>, k: nat): (r: seq<T>)
    requires k < |xs|
    ensures |r| == |xs| - 1
    ensures forall i :: 0 <= i < |r| ==> r[i] == if i < k then xs[i] else xs[i + 1]
  {
    xs[..k] + xs[k + 1..]
  }

  ghost function Insert<T>(xs: seq<T>, k: nat, x: T): (r: seq<T>)
    requires k <= |xs|
    ensures |r| == |xs| + 1
    ensures forall i :: 0 <= i < |r| ==> r[i] == if i < k then xs[i] else if i == k then x else xs[i - 1]
  {
    xs[..k] + [x] + xs[k..]
  }

  lemma ListLinked(S: set<ListHead>, head: ListHead, xs: seq<ListHead>, i: nat)
    requires IsList(S, head, xs) && i <= |xs|
    ensures Linked(head, xs, i)
  {
  }

  lemma InsertNodes(S: set<ListHead>, head: ListHead, xs: seq<ListHead>, k: nat, x: ListHead)
    requires k <= |xs| && Nodes(S, head, xs) && x !in S
    ensures Nodes(S + {x}, head, Insert(xs, k, x))
  {
    var ys := Insert(xs, k, x);
    forall i, j | 0 <= i < j < |ys| ensures ys[i] != ys[j] {
      assert j == k || ys[j] == xs[if j < k then j else j - 1];
      assert i == k || ys[i] == xs[if i < k then i else i - 1];
    }
  }

  /** __list_add: link `node` between two consecutive nodes of a ring. */
  method AddBetween(node: ListHead, prev: ListHead, next: ListHead,
                    ghost S: set<ListHead>, ghost head: ListHead, ghost xs: seq<ListHead>, ghost k: nat)
    requires IsList(S, head, xs) && k <= |xs| && node !in S
    requires prev == At(head, xs, k) && next == At(head, xs, k + 1)
    modifies node`next, node`prev, prev`next, next`prev
    ensures IsList(S + {node}, head, Insert(xs, k, node))
    ensures node.next == next && node.prev == prev
  {
    ghost var ys := Insert(xs, k, node);
    InsertNodes(S, head, xs, k, node);
    next.prev := node;
    node.next := next;
    node.prev := prev;
    prev.next := node;
    forall i | 0 <= i <= |ys| ensures Linked(head, ys, i) {
      if i < k {
        assert old(Linked(head, xs, i));
      } else if i > k + 1 {
        assert old(Linked(head, xs, i - 1));
      }
    }
  }

  /** list_add: the new entry becomes the first. */
  method Add(node: ListHead, head: ListHead, ghost S: set<ListHead>, ghost xs: seq<ListHead>)
    requires IsList(S, head, xs) && node !in S
    modifies node`next, node`prev, S
    ensures IsList(S + {node}, head, [node] + xs)
  {
    ListLinked(S, head, xs, 0);
    AddBetween(node, head, head.next, S, head, xs, 0);
    assert Insert(xs, 0, node) == [node] + xs;
  }

  /** list_add_tail at any node of the ring, as the sorted splice uses it. */
  method AddBefore(node: ListHead, at: ListHead, ghost before: ListHead,
                   ghost S: set<ListHead>, ghost head: ListHead, ghost xs: seq<ListHead>, ghost k: nat)
    requires IsList(S, head, xs) && k <= |xs| && node !in S
    requires before == At(head, xs, k) && at == At(head, xs, k + 1)
    modifies node`next, node`prev, before`next, at`prev
    ensures IsList(S + {node}, head, Insert(xs, k, node))
  {
    ListLinked(S, head, xs, k);
    AddBetween(node, at.prev, at, S, head, xs, k);
  }

  /** list_add_tail at the head: the new entry becomes the last. */
  method AddTail(node: ListHead, head: ListHead, ghost S: set<ListHead>, ghost xs: seq<ListHead>)
    requires IsList(S, head, xs) && node !in S
    modifies node`next, node`prev, S
    ensures IsList(S + {node}, head, xs + [node])
  {
    ListLinked(S, head, xs, |xs|);
    AddBefore(node, head, At(head, xs, |xs|), S, head, xs, |xs|);
    assert Insert(xs, |xs|, node) == xs + [node];
  }

  lemma RemoveNodes(S: set<ListHead>, head: ListHead, xs: seq<ListHead>, k: nat)
    requires k < |xs| && Nodes(S, head, xs)
    ensures Nodes(S - {xs[k]}, head, Remove(xs, k))
  {
    var ys := Remove(xs, k);
    forall i | 0 <= i < |ys| ensures ys[i] != xs[k] {
      assert ys[i] == xs[if i < k then i else i + 1];
    }
    forall i, j | 0 <= i < j < |ys| ensures ys[i] != ys[j] {
      assert ys[i] == xs[if i < k then i else i + 1];
      assert ys[j] == xs[if j < k then j else j + 1];
    }
  }

  /** __list_del: make the neighbours of `xs[k]` point at each other. */
  method DelBetween(prev: ListHead, next: ListHead,
                    ghost S: set<ListHead>, ghost head: ListHead, ghost xs: seq<ListHead>, ghost k: nat)
    requires IsList(S, head, xs) && k < |xs|
    requires prev == At(head, xs, k) && next == At(head, xs, k + 2)
    modifies prev`next, next`prev
    ensures IsList(S - {xs[k]}, head, Remove(xs, k))
  {
    ghost var ys := Remove(xs, k);
    RemoveNodes(S, head, xs, k);
    next.prev := prev;
    prev.next := next;
    forall i | 0 <= i <= |ys| ensures Linked(head, ys, i) {
      if i != k {
        assert old(Linked(head, xs, if i < k then i else i + 1));
      }
    }
  }

  /** list_del: the removed entry is left poisoned (here: null). */
  method Del(entry: ListHead, ghost S: set<ListHead>, ghost head: ListHead, ghost xs: seq<ListHead>, ghost k: nat)
    requires IsList(S, head, xs) && k < |xs| && entry == xs[k]
    modifies S
    ensures IsList(S - {entry}, head, Remove(xs, k))
    ensures entry.next == null && entry.prev == null
  {
    ListLinked(S, head, xs, k);
    ListLinked(S, head, xs, k + 1);
    DelBetween(entry.prev, entry.next, S, head, xs, k);
    entry.next := null;
    entry.prev := null;
  }

  /** list_move: take an entry off its list and put it first on another list. */
  method Move(entry: ListHead, head: ListHead, ghost T: set<ListHead>, ghost ys: seq<ListHead>,
              ghost S: set<ListHead>, ghost src: ListHead, ghost xs: seq<ListHead>, ghost k: nat)
    requires IsList(S, src, xs) && k < |xs| && entry == xs[k]
    requires if head == src then S == T && xs == ys else IsList(T, head, ys) && S !! T
    modifies S, T
    ensures head == src ==> IsList(S, head, [entry] + Remove(xs, k))
    ensures head != src ==> IsList(S - {entry}, src, Remove(xs, k)) && IsList(T + {entry}, head, [entry] + ys)
  {
    ListLinked(S, src, xs, k);
    ListLinked(S, src, xs, k + 1);
    DelBetween(entry.prev, entry.next, S, src, xs, k);
    ghost var same := head == src;
    assert S - {entry} + {entry} == S;
    Add(entry, head, if same then S - {entry} else T, if same then Remove(xs, k) else ys);
  }

  /** list_move_tail: as list_move, but the entry becomes the last. */
  method MoveTail(entry: ListHead, head: ListHead, ghost T: set<ListHead>, ghost ys: seq<ListHead>,
                  ghost S: set<ListHead>, ghost src: ListHead, ghost xs: seq<ListHead>, ghost k: nat)
    requires IsList(S, src, xs) && k < |xs| && entry == xs[k]
    requires if head == src then S == T && xs == ys else IsList(T, head, ys) && S !! T
    modifies S, T
    ensures head == src ==> IsList(S, head, Remove(xs, k) + [entry])
    ensures head != src ==> IsList(S - {entry}, src, Remove(xs, k)) && IsList(T + {entry}, head, ys + [entry])
  {
    ListLinked(S, src, xs, k);
    ListLinked(S, src, xs, k + 1);
    DelBetween(entry.prev, entry.next, S, src, xs, k);
    ghost var same := head == src;
    assert S - {entry} + {entry} == S;
    AddTail(entry, head, if same then S - {entry} else T, if same then Remove(xs, k) else ys);
  }

  /** list_empty */
  method Empty(head: ListHead, ghost S: set<ListHead>, ghost xs: seq<ListHead>) returns (b: bool)
    requires IsList(S, head, xs)
    ensures b == (xs == [])
  {
    ListLinked(S, head, xs, 0);
    b := head.next == head;
  }

  /** list_is_singular */
  method IsSingular(head: ListHead, ghost S: set<ListHead>, ghost xs: seq<ListHead>) returns (b: bool)
    requires IsList(S, head, xs)
    ensures b == (|xs| == 1)
  {
    ListLinked(S, head, xs, 0);
    ListLinked(S, head, xs, |xs|);
    var empty := Empty(head, S, xs);
    b := !empty && head.next == head.prev;
  }

  /** __list_cut_position: move the entries up to and including `entry` onto `list`. */
  method CutPosition(list: ListHead, head: ListHead, entry: ListHead,
                     ghost S: set<ListHead>, ghost xs: seq<ListHead>, ghost k: nat)
      returns (ghost A: set<ListHead>)
    requires IsList(S, head, xs) && k < |xs| && entry == xs[k] && list !in S
    modifies list, S
    ensures list in A && A <= S + {list}
    ensures IsList(A, list, xs[..k + 1]) && IsList(S - A, head, xs[k + 1..])
  {
    ghost var a, b := xs[..k + 1], xs[k + 1..];
    ListLinked(S, head, xs, 0);
    ListLinked(S, head, xs, k + 1);
    A := CutNodes(S, list, head, xs, k);
    var newFirst := entry.next;
    list.next := head.next;
    list.next.prev := list;
    list.prev := entry;
    entry.next := list;
    head.next := newFirst;
    newFirst.prev := head;
    forall i | 0 <= i <= |a| ensures Linked(list, a, i) {
      assert old(Linked(head, xs, i));
      assert At(list, a, i) in A && At(list, a, i + 1) in A;
    }
    forall i | 0 <= i <= |b| ensures Linked(head, b, i) {
      assert old(Linked(head, xs, i + k + 1));
      assert At(head, b, i) in S - A && At(head, b, i + 1) in S - A;
    }
  }

  lemma CutNodes(S: set<ListHead>, list: ListHead, head: ListHead, xs: seq<ListHead>, k: nat)
      returns (A: set<ListHead>)
    requires Nodes(S, head, xs) && k < |xs| && list !in S
    ensures A <= S + {list}
    ensures Nodes(A, list, xs[..k + 1]) && Nodes(S - A, head, xs[k + 1..])
  {
    A := {list} + set i | 0 <= i <= k :: xs[i];
    var b := xs[k + 1..];
    forall i | 0 <= i < |b| ensures b[i] !in A {
      assert b[i] == xs[i + k + 1];
    }
  }

  /** list_splice: insert all entries of `list` at the front of `head`; `list` itself is left as it was. */
  method Splice(list: ListHead, head: ListHead, ghost S: set<ListHead>, ghost xs: seq<ListHead>,
                ghost T: set<ListHead>, ghost ys: seq<ListHead>)
    requires IsList(S, list, xs) && IsList(T, head, ys) && S !! T
    modifies S, T
    ensures IsList(S - {list} + T, head, xs + ys)
    ensures list.next == old(list.next) && list.prev == old(list.prev)
  {
    var empty := Empty(list, S, xs);
    ghost var zs := xs + ys;
    if empty {
      assert zs == ys;
    } else {

      SpliceNodes(S, list, xs, T, head, ys);
      ListLinked(S, list, xs, 0);
      ListLinked(S, list, xs, |xs|);
      ListLinked(T, head, ys, 0);
      var first, last, at := list.next, list.prev, head.next;
      first.prev := head;
      head.next := first;
      last.next := at;
      at.prev := last;
      forall i | 0 <= i <= |zs| ensures Linked(head, zs, i) {
        ghost var n := |xs|;
        if 0 < i < n {
          assert old(Linked(list, xs, i));
        } else if n < i {
          assert old(Linked(head, ys, i - n));
        }
      }
    }
  }

  lemma SpliceNodes(S: set<ListHead>, list: ListHead, xs: seq<ListHead>, T: set<ListHead>, head: ListHead,
                    ys: seq<ListHead>)
    requires Nodes(S, list, xs) && Nodes(T, head, ys) && S !! T
    ensures Nodes(S - {list} + T, head, xs + ys)
  {
  }
}
