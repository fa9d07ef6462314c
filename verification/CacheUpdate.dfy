/** Refreshing the ruleset cache from a kernel whose ruleset may change between any two requests
    (nft_cache_update and nft_cache_release in src/cache.c, mnl_genid_get in src/mnl.c). */
module CacheUpdate {

  /** The bits of enum cache_level_flags. */
  datatype Flag =
    | TableBit | ChainBit | SetBit | FlowtableBit | ObjectBit | SetelemBit | RuleBit
    | Terse | SetelemMaybe | Refresh | Update | Flushed

  /** An object in the cache, with the generation of the kernel's ruleset that it was read from. */
  datatype Item = Item(id: int, gen: nat)

  datatype Cache = Cache(genid: nat, flags: set<Flag>, items: seq<Item>)

  /** What nft_cache_release leaves. */
  const RELEASED := Cache(0, {}, [])

  // ------------------------------------------------------------------ the kernel

  /** The generation id as netlink reports it, in 16 bits. */
  function Genid(gen: nat): nat {
    gen % 0x1_0000
  }

  /** The answer to one dump request. A dump is reported as interrupted when the ruleset changes during it. */
  datatype Dump =
    | Dumped(gen: nat, ids: seq<int>)
    | Interrupted(gen: nat)
    | Broken(gen: nat)

  /** What the kernel answers in one pass: the generation when the pass asks for it first, the dumps, and the
      generation when it asks again. */
  datatype Pass = Pass(start: nat, dumps: seq<Dump>, stop: nat)

  /** Generations never go back, so that the dumps are between the two requests for the id. */
  ghost predicate Within(p: Pass) {
    p.start <= p.stop && forall i :: 0 <= i < |p.dumps| ==> p.start <= p.dumps[i].gen <= p.stop
  }

  /** The ids of the generation a pass starts with and of the one it stops with: the first is not 0, and
      they are equal only if it is the same generation. */
  predicate Telling(start: nat, stop: nat) {
    Genid(start) != 0 && (Genid(start) == Genid(stop) ==> start == stop)
  }

  ghost predicate Possible(p: Pass) {
    Within(p) && Telling(p.start, p.stop)
  }

  // ------------------------------------------------------------------ one pass

  /** How a pass ends: nft_cache_update returns, or starts again. */
  datatype Outcome =
    | Return(cache: Cache, ret: int)
    | Replay(cache: Cache)

  function Items(gen: nat, ids: seq<int>): (r: seq<Item>)
    ensures |r| == |ids| && forall i :: 0 <= i < |ids| ==> r[i] == Item(ids[i], gen)
  {
    if ids == [] then [] else [Item(ids[0], gen)] + Items(gen, ids[1..])
  }

  datatype InitResult = InitOk | InitInterrupted | InitFailed

  /** check_genid: every message of a dump carries the id of the generation it is from; one that is not the id
      of this pass interrupts it. */
  predicate Checked(gen: nat, ids: seq<int>, genid: nat) {
    ids == [] || Genid(gen) == genid
  }

  /** nft_cache_init: the requests are answered one after another. */
  function Init(items: seq<Item>, dumps: seq<Dump>, genid: nat): (InitResult, seq<Item>)
    decreases |dumps|
  {
    if dumps == [] then (InitOk, items)
    else
      match dumps[0]
      case Dumped(gen, ids) =>
        if Checked(gen, ids, genid) then Init(items + Items(gen, ids), dumps[1..], genid) else (InitInterrupted, items)
      case Interrupted(_) => (InitInterrupted, items)
      case Broken(_) => (InitFailed, items)
  }

  /** nft_cache_is_updated, with nft_cache_is_complete and nft_cache_needs_refresh */
  predicate UpToDate(c: Cache, flags: set<Flag>, genid: nat) {
    Refresh !in c.flags && flags <= c.flags && genid != 0 && genid == c.genid
  }

  function FlushedFlags(flags: set<Flag>): set<Flag> {
    if Update in flags then {Update} else {}
  }

  function OnePass(c: Cache, flags: set<Flag>, p: Pass): Outcome {
    var genid := Genid(p.start);
    if UpToDate(c, flags, genid) then Return(c, 0)
    else
      var c1 := if c.genid != 0 then RELEASED else c;
      if Flushed in flags then Return(Cache(genid, FlushedFlags(flags), c1.items), 0)
      else
        var (result, items) := if flags == {} then (InitOk, c1.items) else Init(c1.items, p.dumps, genid);
        if result == InitInterrupted then Replay(RELEASED)
        else if result == InitFailed then Return(RELEASED, -1)
        else if genid != Genid(p.stop) then Replay(RELEASED)
        else Return(Cache(genid, flags, items), 0)
  }

  /** A call, pass by pass; none if it is still running when the answers end. */
  datatype Result = Running(cache: Cache) | Finished(cache: Cache, ret: int, passes: nat)

  function Call(c: Cache, flags: set<Flag>, passes: seq<Pass>): Result
    decreases |passes|
  {
    if passes == [] then Running(c)
    else
      match OnePass(c, flags, passes[0])
      case Return(c', ret) => Finished(c', ret, 1)
      case Replay(c') =>
        match Call(c', flags, passes[1..])
        case Running(c'') => Running(c'')
        case Finished(c'', ret, n) => Finished(c'', ret, n + 1)
  }

  // ------------------------------------------------------------------ the code

  /** struct nft_cache */
  class NftCache {
    var genid: nat
    var flags: set<Flag>
    var items: seq<Item>
    var seqnum: nat

    constructor ()
      ensures State() == RELEASED && seqnum == 0
    {
      genid, flags, items, seqnum := 0, {}, [], 0;
    }

    function State(): Cache
      reads this
    {
      Cache(genid, flags, items)
    }

    /** nft_cache_release */
    method Release()
      modifies `genid, `flags, `items
      ensures State() == RELEASED
    {
      items := [];
      genid := 0;
      flags := {};
    }

    /** nft_cache_init */
    method InitFrom(flags_: set<Flag>, dumps: seq<Dump>, genid_: nat) returns (result: InitResult)
      modifies `items
      ensures var (r, s) := if flags_ == {} then (InitOk, old(items)) else Init(old(items), dumps, genid_);
              result == r && items == s
    {
      if flags_ == {} {
        return InitOk;
      }
      var i := 0;
      assert dumps[0..] == dumps;
      while i < |dumps|
        invariant 0 <= i <= |dumps| && Init(items, dumps[i..], genid_) == Init(old(items), dumps, genid_)
      {
        assert dumps[i..][0] == dumps[i] && dumps[i..][1..] == dumps[i + 1..];
        match dumps[i] {
          case Dumped(gen, ids) =>
            if ids != [] && Genid(gen) != genid_ {
              return InitInterrupted;
            }
            items := items + Items(gen, ids);
          case Interrupted(_) => return InitInterrupted;
          case Broken(_) => return InitFailed;
        }
        i := i + 1;
      }
      result := InitOk;
    }

    /** nft_cache_update from the label replay to where it returns or goes back there. */
    method Attempt(flags0: set<Flag>, p: Pass) returns (again: bool, ret: int)
      modifies `genid, `flags, `items
      ensures match OnePass(old(State()), flags0, p)
              case Return(c, r) => !again && State() == c && ret == r
              case Replay(c) => again && State() == c
    {
      hide Init, Genid;
      var flags_ := flags0;
      var genid_ := Genid(p.start);
      if !(Refresh in flags) && flags_ <= flags && genid_ != 0 && genid_ == genid {
        return false, 0;
      }
      if genid != 0 {
        Release();
      }
      if Flushed in flags_ {
        flags_ := if Update in flags_ then {Update} else {};
        genid, flags := genid_, flags_;
        return false, 0;
      }
      var result := InitFrom(flags_, p.dumps, genid_);
      if result == InitInterrupted {
        Release();
        return true, 0;
      }
      if result == InitFailed {
        Release();
        return false, -1;
      }
      if genid_ != Genid(p.stop) {
        Release();
        return true, 0;
      }
      genid, flags := genid_, flags_;
      return false, 0;
    }

    /** nft_cache_update against a kernel that gives the answers `passes`. The call is over when it
        returns; until then it uses one element of `passes` each time it starts again. */
    method UpdateFrom(flags0: set<Flag>, passes: seq<Pass>) returns (done: bool, ret: int, used: nat)
      modifies this
      ensures match Call(old(State()), flags0, passes)
              case Running(c) => !done && State() == c && used == |passes|
              case Finished(c, r, n) => done && State() == c && ret == r && used == n
      ensures seqnum == old(seqnum) + used
    {
      hide OnePass;
      used, ret, done := 0, 0, false;
      assert passes[0..] == passes;
      while used < |passes|
        invariant used <= |passes| && seqnum == old(seqnum) + used
        invariant Ahead(Call(State(), flags0, passes[used..]), used) == Call(old(State()), flags0, passes)
      {
        var p := passes[used];
        assert passes[used..][0] == p && passes[used..][1..] == passes[used + 1..];
        seqnum := seqnum + 1;
        used := used + 1;
        var again;
        again, ret := Attempt(flags0, p);
        if !again {
          return true, ret, used;
        }
      }
    }
  }

  /** The result of a call of which `n` passes are over. */
  function Ahead(r: Result, n: nat): Result {
    match r
    case Running(c) => Running(c)
    case Finished(c, ret, m) => Finished(c, ret, m + n)
  }

  // ------------------------------------------------------------------ consistency

  /** Everything in the cache is from generation `gen`, whose id the cache holds. */
  ghost predicate FromGeneration(c: Cache, gen: nat) {
    c.genid == Genid(gen) && forall i :: 0 <= i < |c.items| ==> c.items[i].gen == gen
  }

  /** A cache is empty, or has the id of the one generation that it is from. */
  ghost predicate Consistent(c: Cache) {
    if c.genid == 0 then c == RELEASED else exists gen :: FromGeneration(c, gen)
  }

  /** Everything that the dumps delivered, in order. */
  function AllItems(dumps: seq<Dump>): seq<Item> {
    if dumps == [] then []
    else (match dumps[0]
          case Dumped(gen, ids) => Items(gen, ids)
          case Interrupted(_) => []
          case Broken(_) => []) + AllItems(dumps[1..])
  }

  lemma {:induction false} InitDelivers(items: seq<Item>, dumps: seq<Dump>, genid: nat)
    requires Init(items, dumps, genid).0 == InitOk
    ensures Init(items, dumps, genid).1 == items + AllItems(dumps)
    decreases |dumps|
  {
    if dumps == [] {
      assert items + [] == items;
    } else {
      var here, rest := Items(dumps[0].gen, dumps[0].ids), AllItems(dumps[1..]);
      InitStep(items, dumps, genid);
      InitDelivers(items + here, dumps[1..], genid);
      Regroup(items, here, rest);
      hide *;
    }
  }

  lemma Regroup(a: seq<Item>, b: seq<Item>, c: seq<Item>)
    ensures (a + b) + c == a + (b + c)
  {
  }

  lemma InitStep(items: seq<Item>, dumps: seq<Dump>, genid: nat)
    requires dumps != [] && Init(items, dumps, genid).0 == InitOk
    ensures dumps[0].Dumped?
    ensures Init(items, dumps, genid) == Init(items + Items(dumps[0].gen, dumps[0].ids), dumps[1..], genid)
    ensures AllItems(dumps) == Items(dumps[0].gen, dumps[0].ids) + AllItems(dumps[1..])
  {
  }

  lemma {:induction false} ItemsFrom(dumps: seq<Dump>, gen: nat)
    requires forall i :: 0 <= i < |dumps| ==> dumps[i].gen == gen
    ensures forall i :: 0 <= i < |AllItems(dumps)| ==> AllItems(dumps)[i].gen == gen
    decreases |dumps|
  {
    if dumps != [] {
      assert dumps[0].gen == gen;
      ItemsFrom(dumps[1..], gen);
    }
  }

  /** What a call that returns has done, if the pass it ended with was `p`. */
  ghost predicate EndsWell(c: Cache, flags: set<Flag>, p: Pass, c': Cache, ret: int) {
    || (ret == -1 && c' == RELEASED)
    // nothing to do: the cache has all that is asked for and is of the kernel's generation
    || (ret == 0 && c' == c && Refresh !in c.flags && flags <= c.flags && c.genid == Genid(p.start) != 0)
    // the kernel's ruleset is about to be flushed: an empty cache of the kernel's generation
    || (ret == 0 && Flushed in flags && c' == Cache(Genid(p.start), if Update in flags then {Update} else {}, []))
    // all dumps are from one generation, the kernel's still when the last one is over
    || (ret == 0 && p.start == p.stop && FromGeneration(c', p.start) && c'.flags == flags
        && c'.items == if flags == {} then [] else AllItems(p.dumps))
  }

  lemma PassExact(c: Cache, flags: set<Flag>, p: Pass)
    requires Consistent(c) && Possible(p)
    ensures match OnePass(c, flags, p)
            case Replay(c') => c' == RELEASED
            case Return(c', ret) => Consistent(c') && EndsWell(c, flags, p, c', ret)
  {
    var genid := Genid(p.start);
    var c1 := if c.genid != 0 then RELEASED else c;
    assert c1 == RELEASED;
    if !UpToDate(c, flags, genid) {
      if Flushed in flags {
        assert FromGeneration(Cache(genid, FlushedFlags(flags), []), p.start);
      } else if genid == Genid(p.stop) {
        if flags != {} && Init([], p.dumps, genid).0 == InitOk {
          InitDelivers([], p.dumps, genid);
          ItemsFrom(p.dumps, p.start);
          assert [] + AllItems(p.dumps) == AllItems(p.dumps);
        }
        var items := if flags == {} then [] else AllItems(p.dumps);
        assert FromGeneration(Cache(genid, flags, []), p.start);
        if flags != {} && Init([], p.dumps, genid).0 == InitOk {
          assert FromGeneration(Cache(genid, flags, items), p.start);
        }
      }
    }
  }

  // ------------------------------------------------------------------ when a cache may be reused

  /** Whatever is asked for, a pass that returns 0 leaves a cache with at least that, of the kernel's
      generation. */
  lemma ReturnsComplete(c: Cache, flags: set<Flag>, p: Pass)
    requires Consistent(c) && Possible(p) && Flushed !in flags
    requires OnePass(c, flags, p).Return? && OnePass(c, flags, p).ret == 0
    ensures flags <= OnePass(c, flags, p).cache.flags && OnePass(c, flags, p).cache.genid == Genid(p.start)
  {
    hide Init;
  }

  /** A cache is returned as it is, whatever the kernel would answer, exactly if it need not be refreshed, has
      all that is asked for, and has the id of the kernel's generation. (Before a flush it may also come out the
      same because it was empty.) */
  lemma ReusedIff(c: Cache, flags: set<Flag>, start: nat)
    ensures Refresh !in c.flags && flags <= c.flags && c.genid == Genid(start) != 0 ==>
              forall dumps, stop :: OnePass(c, flags, Pass(start, dumps, stop)) == Return(c, 0)
    ensures Flushed !in flags && (forall dumps, stop :: OnePass(c, flags, Pass(start, dumps, stop)) == Return(c, 0)) ==>
              Refresh !in c.flags && flags <= c.flags && c.genid == Genid(start) != 0
  {
    hide Init;
    if Flushed !in flags && !(Refresh !in c.flags && flags <= c.flags && c.genid == Genid(start) != 0) {
      var stop := start + 1;
      assert Genid(stop) != Genid(start);
      assert OnePass(c, flags, Pass(start, [], stop)) != Return(c, 0);
    }
  }

  /** A request before a flush, which needs no dumps. */
  lemma FlushedOutcome(c: Cache, flags: set<Flag>, p: Pass)
    requires Flushed in flags && !(Refresh !in c.flags && flags <= c.flags && c.genid == Genid(p.start) != 0)
    ensures OnePass(c, flags, p)
            == Return(Cache(Genid(p.start), if Update in flags then {Update} else {},
                            if c.genid != 0 then [] else c.items), 0)
  {
  }

  /** A dump from which all messages are accepted: they carry the id that the pass has started with. */
  ghost predicate Accepts(d: Dump, start: nat) {
    d.Dumped? && (d.ids == [] || d.gen % 0x1_0000 == start % 0x1_0000)
  }

  /** The dumps before number `n` are accepted. */
  ghost predicate AcceptsUpto(dumps: seq<Dump>, n: nat, start: nat) {
    n <= |dumps| && forall i :: 0 <= i < n ==> Accepts(dumps[i], start)
  }

  /** The first dump that is not accepted decides: an error ends the call, anything else starts it again. */
  lemma {:induction false} InitStops(items: seq<Item>, dumps: seq<Dump>, start: nat, n: nat)
    requires n < |dumps| && AcceptsUpto(dumps, n, start) && !Accepts(dumps[n], start)
    ensures Init(items, dumps, Genid(start)).0 == if dumps[n].Broken? then InitFailed else InitInterrupted
    decreases n
  {
    if n > 0 {
      assert Accepts(dumps[0], start);
      InitStops(items + Items(dumps[0].gen, dumps[0].ids), dumps[1..], start, n - 1);
    }
  }

  lemma {:induction false} InitAccepts(items: seq<Item>, dumps: seq<Dump>, start: nat)
    requires AcceptsUpto(dumps, |dumps|, start)
    ensures Init(items, dumps, Genid(start)).0 == InitOk
    decreases |dumps|
  {
    if dumps != [] {
      assert Accepts(dumps[0], start);
      InitAccepts(items + Items(dumps[0].gen, dumps[0].ids), dumps[1..], start);
    }
  }

  /** How a pass ends that cannot reuse the cache and asks for something. */
  lemma PassOutcome(c: Cache, flags: set<Flag>, p: Pass)
    requires Flushed !in flags && flags != {}
    requires !(Refresh !in c.flags && flags <= c.flags && c.genid == Genid(p.start) != 0)
    ensures AcceptsUpto(p.dumps, |p.dumps|, p.start) ==>
              if p.start % 0x1_0000 == p.stop % 0x1_0000 then
                && OnePass(c, flags, p).Return? && OnePass(c, flags, p).ret == 0
                && OnePass(c, flags, p).cache.flags == flags
              else OnePass(c, flags, p) == Replay(RELEASED)
    ensures forall n :: 0 <= n < |p.dumps| && AcceptsUpto(p.dumps, n, p.start) && !Accepts(p.dumps[n], p.start) ==>
              OnePass(c, flags, p) == if p.dumps[n].Broken? then Return(RELEASED, -1) else Replay(RELEASED)
  {
    hide Init, Accepts;
    var items := if c.genid != 0 then [] else c.items;
    if AcceptsUpto(p.dumps, |p.dumps|, p.start) { InitAccepts(items, p.dumps, p.start); }
    forall n | 0 <= n < |p.dumps| && AcceptsUpto(p.dumps, n, p.start) && !Accepts(p.dumps[n], p.start)
      ensures OnePass(c, flags, p) == if p.dumps[n].Broken? then Return(RELEASED, -1) else Replay(RELEASED) {
      InitStops(items, p.dumps, p.start, n);
    }
  }

  /** A request for nothing needs no dumps. */
  lemma EmptyOutcome(c: Cache, p: Pass)
    requires !(Refresh !in c.flags && c.genid == Genid(p.start) != 0)
    ensures OnePass(c, {}, p)
            == if p.start % 0x1_0000 == p.stop % 0x1_0000
               then Return(Cache(Genid(p.start), {}, if c.genid != 0 then [] else c.items), 0)
               else Replay(RELEASED)
  {
  }

  /** Equal ids mean the same generation, if a pass sees fewer than 2^16 of them. */
  lemma FewGenerations(start: nat, stop: nat)
    requires start <= stop < start + 0x1_0000 && Genid(start) != 0
    ensures Telling(start, stop)
  {
  }

  /** nft_cache_update, however often it has to start again: the passes before the last leave an empty cache behind. */
  lemma {:induction false} CallExact(c: Cache, flags: set<Flag>, passes: seq<Pass>)
    requires Consistent(c) && forall i :: 0 <= i < |passes| ==> Possible(passes[i])
    ensures match Call(c, flags, passes)
            case Running(c') => Consistent(c')
            case Finished(c', ret, n) =>
              && 0 < n <= |passes| && Consistent(c')
              && EndsWell(if n == 1 then c else RELEASED, flags, passes[n - 1], c', ret)
    decreases |passes|
  {
    if passes != [] {
      PassExact(c, flags, passes[0]);
      hide Consistent, EndsWell;
      if OnePass(c, flags, passes[0]).Replay? {
        assert Consistent(RELEASED) by { ReleasedConsistent(); }
        CallExact(RELEASED, flags, passes[1..]);
        var r := Call(RELEASED, flags, passes[1..]);
        if r.Finished? {
          assert passes[1..][r.passes - 1] == passes[r.passes];
        }
      }
    }
  }

  lemma ReleasedConsistent()
    ensures Consistent(RELEASED)
  {
  }

  // ------------------------------------------------------------------ any run of calls

  datatype Request = Request(flags: set<Flag>, passes: seq<Pass>)

  /** The cache after a run of calls; a call that does not return ends the run. */
  function AfterCalls(c: Cache, requests: seq<Request>): Cache
    decreases |requests|
  {
    if requests == [] then c
    else
      match Call(c, requests[0].flags, requests[0].passes)
      case Running(c') => c'
      case Finished(c', _, _) => AfterCalls(c', requests[1..])
  }

  /** Whatever is asked for and whenever the ruleset changes: the cache never mixes generations. */
  lemma {:induction false} CallsConsistent(c: Cache, requests: seq<Request>)
    requires Consistent(c)
    requires forall i, j :: 0 <= i < |requests| && 0 <= j < |requests[i].passes| ==> Possible(requests[i].passes[j])
    ensures Consistent(AfterCalls(c, requests))
    decreases |requests|
  {
    if requests != [] {
      var r := requests[0];
      assert forall j :: 0 <= j < |r.passes| ==> Possible(r.passes[j]);
      CallExact(c, r.flags, r.passes);
      var result := Call(c, r.flags, r.passes);
      if result.Finished? {
        var rest := requests[1..];
        forall i, j | 0 <= i < |rest| && 0 <= j < |rest[i].passes| ensures Possible(rest[i].passes[j]) {
          assert rest[i] == requests[i + 1];
        }
        CallsConsistent(result.cache, rest);
      }
    }
  }

  // ------------------------------------------------------------------ exactly when

  /** Whatever is asked for and whatever is dumped between two generations: a pass that returns leaves a
      consistent cache. */
  ghost predicate PassesSafe(start: nat, stop: nat) {
    forall c, flags, dumps ::
      Consistent(c) && Within(Pass(start, dumps, stop)) ==> LeavesConsistent(c, flags, Pass(start, dumps, stop))
  }

  ghost predicate LeavesConsistent(c: Cache, flags: set<Flag>, p: Pass) {
    var o := OnePass(c, flags, p);
    o.Return? ==> Consistent(o.cache)
  }

  /** The ids of the two generations decide it. */
  lemma PassesSafeIff(start: nat, stop: nat)
    requires start <= stop
    ensures PassesSafe(start, stop) <==> Telling(start, stop)
  {
    if Telling(start, stop) {
      forall c, flags, dumps | Consistent(c) && Within(Pass(start, dumps, stop))
        ensures LeavesConsistent(c, flags, Pass(start, dumps, stop)) {
        PassExact(c, flags, Pass(start, dumps, stop));
      }
    } else {
      ReleasedConsistent();
      var flags, p := Unsafe(start, stop);
      assert !LeavesConsistent(RELEASED, flags, Pass(start, p.dumps, stop));
    }
  }

  /** What goes wrong: with the id 0 a flushed cache looks like one that was never filled, and with equal ids
      two generations are taken for one. */
  lemma Unsafe(start: nat, stop: nat) returns (flags: set<Flag>, p: Pass)
    requires start <= stop && !Telling(start, stop)
    ensures p.start == start && p.stop == stop && Within(p) && !LeavesConsistent(RELEASED, flags, p)
  {
    if Genid(start) == 0 {
      flags, p := {Flushed, Update}, Pass(start, [], stop);
      assert OnePass(RELEASED, flags, p) == Return(Cache(0, {Update}, []), 0);
      assert Update in Cache(0, {Update}, []).flags;
    } else {
      flags, p := {TableBit}, Pass(start, [Dumped(start, [7]), Dumped(stop, [8])], stop);
      TwoDumps(p);
    }
  }

  lemma TwoDumps(p: Pass)
    requires p.start != p.stop && Genid(p.start) == Genid(p.stop) != 0
    requires p.dumps == [Dumped(p.start, [7]), Dumped(p.stop, [8])]
    ensures OnePass(RELEASED, {TableBit}, p)
            == Return(Cache(Genid(p.start), {TableBit}, [Item(7, p.start), Item(8, p.stop)]), 0)
    ensures !Consistent(Cache(Genid(p.start), {TableBit}, [Item(7, p.start), Item(8, p.stop)]))
  {
    var c := Cache(Genid(p.start), {TableBit}, [Item(7, p.start), Item(8, p.stop)]);
    ItemsOne(7, p.start);
    ItemsOne(8, p.stop);
    assert p.dumps[1..] == [Dumped(p.stop, [8])];
    OneDump([Item(7, p.start)], Pass(p.start, p.dumps[1..], p.stop));
    assert [] + [Item(7, p.start)] == [Item(7, p.start)] && [Item(7, p.start)] + [Item(8, p.stop)] == c.items;
    assert Init([], p.dumps, Genid(p.start)) == (InitOk, c.items);
    assert c.items[0].gen != c.items[1].gen;
  }

  /** With the id 0, which a generation has that is a multiple of 2^16, the cache is filled a second time
      without being emptied. */
  lemma ZeroGenidDuplicates()
    ensures var p := Pass(0x1_0000, [Dumped(0x1_0000, [7])], 0x1_0000);
            var item := Item(7, 0x1_0000);
            && !Telling(p.start, p.stop)
            && Call(RELEASED, {TableBit}, [p]) == Finished(Cache(0, {TableBit}, [item]), 0, 1)
            && Call(Cache(0, {TableBit}, [item]), {TableBit}, [p]) == Finished(Cache(0, {TableBit}, [item, item]), 0, 1)
  {
    var g := 0x1_0000;
    var p := Pass(g, [Dumped(g, [7])], g);
    var item := Item(7, g);
    ItemsOne(7, g);
    OneDump([], p);
    OneDump([item], p);
    assert [] + [item] == [item] && [item] + [item] == [item, item];
    hide Init;
    assert OnePass(RELEASED, {TableBit}, p) == Return(Cache(0, {TableBit}, [item]), 0);
    assert OnePass(Cache(0, {TableBit}, [item]), {TableBit}, p) == Return(Cache(0, {TableBit}, [item, item]), 0);
  }

  lemma ItemsOne(id: int, gen: nat)
    ensures Items(gen, [id]) == [Item(id, gen)]
  {
    assert [id][1..] == [];
  }

  lemma OneDump(items: seq<Item>, p: Pass)
    requires |p.dumps| == 1 && p.dumps[0].Dumped? && Genid(p.dumps[0].gen) == Genid(p.start)
    ensures Init(items, p.dumps, Genid(p.start)) == (InitOk, items + Items(p.dumps[0].gen, p.dumps[0].ids))
  {
    assert p.dumps[1..] == [];
  }

  /** If the ids wrap around during a pass, dumps of different generations are taken for one. */
  lemma WrapMixes()
    ensures var p := Pass(1, [Dumped(1, [7]), Dumped(0x1_0001, [8])], 0x1_0001);
            && !Telling(p.start, p.stop)
            && Call(RELEASED, {TableBit}, [p]) == Finished(Cache(1, {TableBit}, [Item(7, 1), Item(8, 0x1_0001)]), 0, 1)
            && !Consistent(Cache(1, {TableBit}, [Item(7, 1), Item(8, 0x1_0001)]))
  {
    var p := Pass(1, [Dumped(1, [7]), Dumped(0x1_0001, [8])], 0x1_0001);
    TwoDumps(p);
    hide OnePass;
  }
}
