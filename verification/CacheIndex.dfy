/** The hash index of the cache (cache_add, cache_del and the *_cache_find functions in src/cache.c):
    every item is on one list with all items and on one of 8192 lists chosen by a hash of its name. */
module CacheIndex {

  /** A table, chain, set, object or flowtable. The tag is what has to match besides the name: the family
      of a table, the type of an object, nothing otherwise. */
  class Item {
    const name: string
    const tag: int

    constructor (name: string, tag: int)
      ensures this.name == name && this.tag == tag
    {
      this.name, this.tag := name, tag;
    }
  }

  /** NFT_CACHE_HSIZE */
  const HASH_SIZE: nat := 8192

  /** djb_hash, in 32 bits */
  function DjbHash(name: string): (h: nat)
    ensures h < 0x1_0000_0000
  {
    HashFrom(5381, name)
  }

  function HashFrom(h: nat, name: string): (r: nat)
    requires h < 0x1_0000_0000
    ensures r < 0x1_0000_0000
    decreases |name|
  {
    if name == "" then h else HashFrom((h * 33 + CharValue(name[0])) % 0x1_0000_0000, name[1..])
  }

  /** The value of a char, which is signed. */
  function CharValue(c: char): int {
    var b := c as int % 256;
    if b < 128 then b else b - 256
  }

  function Bucket(name: string): (b: nat)
    ensures b < HASH_SIZE
  {
    DjbHash(name) % HASH_SIZE
  }

  // ------------------------------------------------------------------ lists of items

  /** The items that belong on list `b`, in the order of the list of all items. */
  function InBucket(items: seq<Item>, b: nat): seq<Item> {
    if items == [] then []
    else (if Bucket(items[0].name) == b then [items[0]] else []) + InBucket(items[1..], b)
  }

  predicate IsMatch(i: Item, name: string, tag: int) {
    i.name == name && i.tag == tag
  }

  /** The first item of a list that matches, if there is one: what a search of the whole list finds. */
  function FirstMatch(items: seq<Item>, name: string, tag: int): (r: Item?)
    ensures r == null <==> forall i :: 0 <= i < |items| ==> !IsMatch(items[i], name, tag)
    ensures r != null ==> r in items && IsMatch(r, name, tag)
  {
    if items == [] then null
    else if IsMatch(items[0], name, tag) then items[0]
    else FirstMatch(items[1..], name, tag)
  }

  lemma {:induction false} FirstIs(items: seq<Item>, name: string, tag: int)
    ensures var r := FirstMatch(items, name, tag);
            r != null ==>
              exists i :: 0 <= i < |items| && r == items[i] && r.name == name && r.tag == tag
                          && forall j :: 0 <= j < i ==> !(items[j].name == name && items[j].tag == tag)
  {
    var r := FirstMatch(items, name, tag);
    if r != null {
      if r == items[0] && items[0].name == name && items[0].tag == tag {
      } else {
        var tail := items[1..];
        FirstIs(tail, name, tag);
        var i :| 0 <= i < |tail| && r == tail[i] && r.name == name && r.tag == tag
                 && forall j :: 0 <= j < i ==> !(tail[j].name == name && tail[j].tag == tag);
        assert items[i + 1] == tail[i];
        forall j | 0 <= j < i + 1 ensures !(items[j].name == name && items[j].tag == tag) {
          if j > 0 { assert items[j] == tail[j - 1]; }
        }
      }
    }
  }

  /** The list without an item (list_del). */
  function Without(items: seq<Item>, x: Item): (r: seq<Item>)
    ensures x !in items ==> r == items
  {
    if items == [] then []
    else if items[0] == x then items[1..]
    else [items[0]] + Without(items[1..], x)
  }

  ghost predicate Distinct(items: seq<Item>) {
    forall i, j :: 0 <= i < j < |items| ==> items[i] != items[j]
  }

  lemma HeadOnlyOnce(items: seq<Item>)
    requires Distinct(items) && items != []
    ensures items[0] !in items[1..]
  {
    assert forall j :: 0 <= j < |items| - 1 ==> items[1..][j] == items[j + 1];
  }

  lemma {:induction false} InBucketMembers(items: seq<Item>, b: nat)
    ensures forall x :: x in InBucket(items, b) <==> x in items && Bucket(x.name) == b
  {
    if items != [] {
      InBucketMembers(items[1..], b);
      assert items == [items[0]] + items[1..];
      hide Bucket;
    }
  }

  lemma {:induction false} InBucketAppend(items: seq<Item>, x: Item, b: nat)
    ensures InBucket(items + [x], b) == InBucket(items, b) + if Bucket(x.name) == b then [x] else []
  {
    if items == [] {
      assert items + [x] == [x] && [x][1..] == [];
    } else {
      InBucketAppend(items[1..], x, b);
      assert (items + [x])[1..] == items[1..] + [x];
      hide Bucket;
    }
  }

  lemma {:induction false} InBucketWithout(items: seq<Item>, x: Item, b: nat)
    requires Distinct(items)
    ensures InBucket(Without(items, x), b) == Without(InBucket(items, b), x)
  {
    hide Bucket;
    if items != [] {
      var tail := items[1..];
      InBucketWithout(tail, x, b);
      InBucketMembers(tail, b);
      if items[0] == x {
        HeadOnlyOnce(items);
      } else {
        assert Without(items, x) == [items[0]] + Without(tail, x);
        assert ([items[0]] + Without(tail, x))[1..] == Without(tail, x);
        if Bucket(items[0].name) == b {
          assert ([items[0]] + InBucket(tail, b))[1..] == InBucket(tail, b);
        } else {
          assert [] + InBucket(tail, b) == InBucket(tail, b);
        }
      }
    }
  }

  /** A search of the right bucket finds what a search of the whole list finds. */
  lemma {:induction false} BucketSuffices(items: seq<Item>, name: string, tag: int)
    ensures FirstMatch(InBucket(items, Bucket(name)), name, tag) == FirstMatch(items, name, tag)
  {
    hide Bucket;
    if items != [] {
      var b, rest := Bucket(name), InBucket(items[1..], Bucket(name));
      BucketSuffices(items[1..], name, tag);
      if Bucket(items[0].name) == b {
        assert ([items[0]] + rest)[1..] == rest;
      } else {
        assert [] + rest == rest;
      }
    }
  }

  lemma {:induction false} WithoutMembers(items: seq<Item>, x: Item)
    requires Distinct(items)
    ensures Distinct(Without(items, x)) && forall y :: y in Without(items, x) <==> y in items && y != x
  {
    if items != [] {
      var tail := items[1..];
      forall i, j | 0 <= i < j < |tail| ensures tail[i] != tail[j] { assert items[i + 1] != items[j + 1]; }
      HeadOnlyOnce(items);
      assert items == [items[0]] + tail;
      if items[0] != x {
        WithoutMembers(tail, x);
        var w := Without(tail, x);
        var r := [items[0]] + w;
        assert Without(items, x) == r;
        forall i, j | 0 <= i < j < |r| ensures r[i] != r[j] {
          assert r[j] == w[j - 1];
          if i > 0 { assert r[i] == w[i - 1]; }
        }
      }
    }
  }

  // ------------------------------------------------------------------ the cache

  /** struct cache */
  class Cache {
    var ht: seq<seq<Item>>
    var list: seq<Item>

    /** The index agrees with the list: every bucket holds the items of the list with its hash, in the same order. */
    ghost predicate Valid()
      reads this
    {
      && |ht| == HASH_SIZE && Distinct(list)
      && forall b :: 0 <= b < HASH_SIZE ==> ht[b] == InBucket(list, b)
    }

    /** cache_init */
    constructor ()
      ensures Valid() && list == []
    {
      ht := seq(HASH_SIZE, _ => []);
      list := [];
    }

    /** cache_add, with the hash that the functions around it compute: the item is not in the cache yet. */
    method Add(item: Item)
      requires Valid() && item !in list
      modifies this
      ensures Valid() && list == old(list) + [item]
    {
      var hash := Bucket(item.name);
      forall b | 0 <= b < HASH_SIZE
        ensures InBucket(list + [item], b) == InBucket(list, b) + if hash == b then [item] else [] {
        InBucketAppend(list, item, b);
      }
      hide Bucket, InBucket;
      ht := ht[hash := ht[hash] + [item]];
      list := list + [item];
    }

    /** cache_del: the item leaves the list of its bucket and the list of all items. */
    method Del(item: Item)
      requires Valid() && item in list
      modifies this
      ensures Valid() && list == Without(old(list), item)
    {
      var hash := Bucket(item.name);
      WithoutMembers(list, item);
      forall b | 0 <= b < HASH_SIZE
        ensures InBucket(Without(list, item), b) == if b == hash then Without(ht[b], item) else ht[b] {
        InBucketWithout(list, item, b);
        InBucketMembers(list, b);
      }
      hide Bucket, InBucket, Without;
      ht := ht[hash := Without(ht[hash], item)];
      list := Without(list, item);
    }

    /** table_cache_find, chain_cache_find, set_cache_find, obj_cache_find, ft_cache_find: a search of one bucket. */
    method Find(name: string, tag: int) returns (r: Item?)
      requires Valid()
      ensures r == FirstMatch(list, name, tag)
      ensures r == null <==> forall i :: 0 <= i < |list| ==> !(list[i].name == name && list[i].tag == tag)
      ensures r != null ==>
                exists i :: 0 <= i < |list| && r == list[i] && r.name == name && r.tag == tag
                            && forall j :: 0 <= j < i ==> !(list[j].name == name && list[j].tag == tag)
    {
      FirstIs(list, name, tag);
      var hash := Bucket(name);
      BucketSuffices(list, name, tag);
      hide Bucket, InBucket;
      var bucket := ht[hash];
      var i := 0;
      assert bucket[0..] == bucket;
      while i < |bucket|
        invariant i <= |bucket| && FirstMatch(bucket[i..], name, tag) == FirstMatch(bucket, name, tag)
      {
        assert bucket[i..][0] == bucket[i] && bucket[i..][1..] == bucket[i + 1..];
        if bucket[i].tag == tag && bucket[i].name == name {
          return bucket[i];
        }
        i := i + 1;
      }
      r := null;
    }

    /** An item is in the bucket of its name exactly when it is on the list, and in no other bucket. */
    lemma IndexExact(x: Item, b: nat)
      requires Valid() && b < HASH_SIZE
      ensures x in ht[b] <==> x in list && Bucket(x.name) == b
    {
      InBucketMembers(list, b);
    }
  }
}
