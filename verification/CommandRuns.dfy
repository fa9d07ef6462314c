/** Any run of add and delete commands on an auto-merged set (src/intervals.c), one command in a batch: before
    each the set is read from the kernel and sorted. */
module CommandRuns {
  import opened Wrappers
  import opened MergeSort
  import opened Automerge
  import opened SetDelete
  import opened DeleteCommands

  datatype Command = Add(batch: seq<Iv>) | Delete(init: seq<Iv>)

  ghost predicate Asking(c: Command) {
    match c
    case Add(batch) => Batch(batch)
    case Delete(init) => Batch(init)
  }

  /** The set as it is read for the next command. */
  function Reread(es: seq<Iv>): seq<Iv> {
    Sort(Low(), es)
  }

  /** One command; a delete that fails changes nothing. */
  ghost function Step(w: World, c: Command): World {
    match c
    case Add(batch) => Executed(w, SetAutomerge(w.existing, batch))
    case Delete(init) =>
      match DeleteCommand(true, w.existing, init)
      case None => w
      case Some(s) => Executed(w, s)
  }

  ghost function Executed(w: World, s: Commands): World {
    World(Reread(s.existing), Execute(w.kernel, s))
  }

  ghost function RunCommands(w: World, cs: seq<Command>): World
    decreases |cs|
  {
    if cs == [] then w else RunCommands(Step(w, cs[0]), cs[1..])
  }

  // ------------------------------------------------------------------ what the commands mean

  ghost function Points(es: seq<Iv>): iset<int> {
    iset x: int | Covers(es, x)
  }

  /** An add puts points into the set; a delete takes them out if they are all in it. */
  ghost function Meaning(s: iset<int>, cs: seq<Command>): iset<int>
    decreases |cs|
  {
    if cs == [] then s else Meaning(MeaningOf(s, cs[0]), cs[1..])
  }

  ghost function MeaningOf(s: iset<int>, c: Command): iset<int> {
    match c
    case Add(batch) => s + Points(batch)
    case Delete(init) => if Points(init) <= s then s - Points(init) else s
  }

  /** The tool and the kernel have the same elements, in order and further apart than one value. */
  ghost predicate InStep(w: World) {
    Existing(1, w.existing) && w.kernel == multiset(w.existing)
  }

  lemma ExistingKnown(es: seq<Iv>)
    requires Existing(1, es)
    ensures Known(1, es)
  {
    SortedAgain(1, es, es);
  }

  lemma RereadExisting(es: seq<Iv>)
    requires Known(1, es)
    ensures Existing(1, Reread(es)) && multiset(Reread(es)) == multiset(es) && Points(Reread(es)) == Points(es)
  {
    var s := Reread(es);
    SortElements(Low(), es);
    SortPermutes(Low(), es);
    SortedNonempty(es);
    hide Sort, Separated, Nonempty;
    forall i | 0 <= i < |s| ensures s[i].kernel { assert s[i] in es; }
    forall x ensures Covers(s, x) <==> Covers(es, x) {
      if Covers(s, x) { CoversPermuted(s, es, x); }
      if Covers(es, x) { CoversPermuted(es, s, x); }
    }
  }

  lemma AddStep(w: World, batch: seq<Iv>)
    requires InStep(w) && Batch(batch)
    ensures var v := Step(w, Add(batch));
            InStep(v) && Points(v.existing) == MeaningOf(Points(w.existing), Add(batch))
  {
    AddCommandExact(w.existing, batch);
    KernelAll(w.existing);
    var s := SetAutomerge(w.existing, batch);
    hide SetAutomerge, Existing, Covers, Batch, Reread, Kernel, Execute;
    ExistingKnown(s.existing);
    RereadExisting(s.existing);
  }

  lemma DeleteStep(w: World, init: seq<Iv>)
    requires InStep(w) && Batch(init)
    ensures var v := Step(w, Delete(init));
            InStep(v) && Points(v.existing) == MeaningOf(Points(w.existing), Delete(init))
  {
    hide DeleteCommand, Covers, Batch, Reread, Known, Execute, Existing, MeaningOf, Points;
    ExistingKnown(w.existing);
    OneDelete(w, init);
    KnownCommand(w, init);
    var c := DeleteCommand(true, w.existing, init);
    DeletedPoints(w.existing, AfterDelete(w, init).existing, init);
    if c.Some? {
      RereadExisting(c.value.existing);
    }
  }

  lemma KnownCommand(w: World, init: seq<Iv>)
    requires Known(1, w.existing) && Batch(init)
    ensures DeleteCommand(true, w.existing, init).Some? <==> forall x :: Covers(init, x) ==> Covers(w.existing, x)
  {
    SetDeleteExact(w.existing, init);
  }

  lemma DeletedPoints(es: seq<Iv>, fs: seq<Iv>, init: seq<Iv>)
    requires forall x :: Covers(fs, x) <==>
               Covers(es, x) && !((forall y :: Covers(init, y) ==> Covers(es, y)) && Covers(init, x))
    ensures Points(fs) == MeaningOf(Points(es), Delete(init))
  {
    hide Covers;
    SamePoints(es, init);
  }

  lemma SamePoints(es: seq<Iv>, init: seq<Iv>)
    ensures Points(init) <= Points(es) <==> forall x :: Covers(init, x) ==> Covers(es, x)
  {
    hide Covers;
    if Points(init) <= Points(es) {
      forall x | Covers(init, x) ensures Covers(es, x) { assert x in Points(init); }
    }
  }

  /** After any run of adds and deletes the kernel has exactly what the tool holds, and its points are what the
      commands mean. */
  lemma {:induction false} RunCommandsExact(w: World, cs: seq<Command>)
    requires InStep(w) && forall i :: 0 <= i < |cs| ==> Asking(cs[i])
    ensures var v := RunCommands(w, cs);
            InStep(v) && Points(v.existing) == Meaning(Points(w.existing), cs)
    decreases |cs|
  {
    if cs != [] {
      assert Asking(cs[0]);
      match cs[0] {
        case Add(batch) => AddStep(w, batch);
        case Delete(init) => DeleteStep(w, init);
      }
      hide Step, InStep, Asking, Points, MeaningOf;
      RunCommandsExact(Step(w, cs[0]), cs[1..]);
    }
  }
}
