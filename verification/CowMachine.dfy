/** Processes that fork, write, fault, grow, shrink and end over copy-on-write pages refine eager copying. */
module CowMachine {
  import opened PageKeys
  import opened CowTable

  /**
   Calls and user stores, one at a time. `NewSpace` is setupkvm alone, `Hide` is clearpteu; `Take` and `Give` are kalloc
   and kfree for anything but user pages. `ForkFails` is a fork for which mapping page `n` fails.
   */
  datatype Event =
    | NewSpace(pg: nat)
    | Grow(k: Key)
    | Shrink(pg: nat, lo: nat, hi: nat)
    | Fork(pg: nat, d: nat, n: nat)
    | ForkFails(pg: nat, d: nat, n: nat)
    | Fault(k: Key)
    | Store(k: Key, i: nat, b: int)
    | Hide(k: Key)
    | FreeVm(pg: nat)
    | Take
    | Give(f: nat)

  /** The hardware lets user code write here. */
  predicate UserWrites(s: Sys, k: Key) {
    k in s.ptes && s.ptes[k].write && s.ptes[k].user
  }

  /** A write fault on a copy-on-write page, with a frame to be had if one is needed. */
  predicate FaultRuns(s: Sys, k: Key) {
    k in s.ptes && s.ptes[k].cow && (Count(s, s.ptes[k].frame) > 1 ==> s.free != [])
  }

  predicate Enabled(s: Sys, e: Event) {
    match e
    case NewSpace(pg) => pg !in s.spaces
    case Grow(k) => s.free != [] && k !in s.ptes && k.0 in s.spaces && k.1 < UPAGES
    case Shrink(pg, lo, hi) => lo <= hi <= UPAGES
    case Fork(pg, d, n) => CanFork(s, pg, d, n)
    case ForkFails(pg, d, n) => CanFork(s, pg, d, n + 1)
    case Fault(k) => FaultRuns(s, k)
    case Store(k, i, b) => UserWrites(s, k) && i < |Bytes(s, s.ptes[k].frame)|
    case Hide(k) => k in s.ptes
    case FreeVm(pg) => pg in s.spaces
    case Take => s.free != []
    case Give(f) => f in s.held
  }

  function Hidden(s: Sys, k: Key): Sys
    requires k in s.ptes
  {
    s.(ptes := s.ptes[k := s.ptes[k].(user := false)])
  }

  /** kfree of a frame the kernel held. */
  function GivenBack(s: Sys, f: nat): Sys {
    Kfree(s, f).(held := s.held - {f})
  }

  function Apply(s: Sys, e: Event): Sys
    requires Enabled(s, e)
  {
    match e
    case NewSpace(pg) => WithSpace(s, pg)
    case Grow(k) => Grown(s, k)
    case Shrink(pg, lo, hi) => Emptied(s, pg, lo, hi)
    case Fork(pg, d, n) => Forked(s, pg, d, n)
    case ForkFails(pg, d, n) => Failed(s, pg, d, n)
    case Fault(k) => Faulted(s, k)
    case Store(k, i, b) => Stored(s, k, i, b)
    case Hide(k) => Hidden(s, k)
    case FreeVm(pg) => Freed(s, pg)
    case Take => Kalloc(s)
    case Give(f) => GivenBack(s, f)
  }

  // --- Eager copying ---

  datatype Action =
    | Make(pg: nat)
    | Add(k: Key, page: Page)
    | Remove(pg: nat, lo: nat, hi: nat)
    | Duplicate(pg: nat, d: nat, n: nat)
    | Write(k: Key, i: nat, b: int)
    | Show(k: Key, user: bool)
    | Destroy(pg: nat)
    | Stutter

  /** A store needs a page that is there and may be written; so does a change of its visibility. */
  predicate Allowed(a: Eager, act: Action) {
    match act
    case Write(k, i, b) => k in a.cells && a.cells[k].writable && a.cells[k].user && i < |a.cells[k].page|
    case Show(k, user) => k in a.cells
    case _ => true
  }

  function Perform(a: Eager, act: Action): Eager
    requires Allowed(a, act)
  {
    match act
    case Make(pg) => a.(spaces := a.spaces + {pg})
    case Add(k, page) => a.(cells := a.cells[k := Cell(page, true, true)])
    case Remove(pg, lo, hi) => a.(cells := map k | k in a.cells && !Within(k, pg, lo, hi) :: a.cells[k])
    case Duplicate(pg, d, n) => EagerFork(a, pg, d, n)
    case Write(k, i, b) => EagerStore(a, k, i, b)
    case Show(k, user) => a.(cells := a.cells[k := a.cells[k].(user := user)])
    case Destroy(pg) => EagerFree(a, pg)
    case Stutter => a
  }

  /**
   What eager copying does meanwhile: a fault is nothing to it, unless it copies a page kept from the user, which the
   handler then shows.
   */
  function ActionOf(s: Sys, e: Event): Action
    requires Enabled(s, e)
  {
    match e
    case NewSpace(pg) => Make(pg)
    case Grow(k) => Add(k, Zeros(|Bytes(s, s.free[0])|))
    case Shrink(pg, lo, hi) => Remove(pg, lo, hi)
    case Fork(pg, d, n) => Duplicate(pg, d, n)
    case Fault(k) => if s.ptes[k].user || Count(s, s.ptes[k].frame) <= 1 then Stutter else Show(k, true)
    case Store(k, i, b) => Write(k, i, b)
    case Hide(k) => Show(k, false)
    case FreeVm(pg) => Destroy(pg)
    case _ => Stutter
  }

  // --- One step ---

  lemma HideStep(s: Sys, k: Key)
    requires Inv(s) && k in s.ptes
    ensures Inv(Hidden(s, k)) && View(Hidden(s, k)) == Perform(View(s), Show(k, false))
  {
    var t := Hidden(s, k);
    forall f
      ensures CountOk(t, f)
    {
      assert CountOk(s, f);
      assert Refs(t.ptes, f) == Refs(s.ptes, f);
    }
    forall q | q in t.ptes
      ensures EntryOk(t, q)
    {
      assert EntryOk(s, q);
    }
    assert View(t).cells == View(s).cells[k := View(s).cells[k].(user := false)];
  }

  lemma GiveStep(s: Sys, f: nat)
    requires Inv(s) && f in s.held
    ensures Inv(GivenBack(s, f)) && View(GivenBack(s, f)) == View(s)
  {
    var t := GivenBack(s, f);
    assert CountOk(s, f);
    FreeHead(s.free, f);
    forall g
      ensures CountOk(t, g)
    {
      assert CountOk(s, g);
    }
    forall k | k in t.ptes
      ensures EntryOk(t, k) && CellOf(t, t.ptes[k]) == CellOf(s, s.ptes[k])
    {
      assert EntryOk(s, k);
      MappedCounted(s, k);
    }
    assert View(t).cells == View(s).cells;
  }

  lemma ShrinkStep(s: Sys, pg: nat, lo: nat, hi: nat)
    requires Inv(s) && lo <= hi
    ensures Inv(Emptied(s, pg, lo, hi)) && View(Emptied(s, pg, lo, hi)) == Perform(View(s), Remove(pg, lo, hi))
  {
    EmptiedInv(s, pg, lo, hi);
    LessView(s, Emptied(s, pg, lo, hi), pg, lo, hi);
  }

  lemma LessView(s: Sys, t: Sys, pg: nat, lo: nat, hi: nat)
    requires Less(s, t, pg, lo, hi)
    ensures View(t).cells == Perform(View(s), Remove(pg, lo, hi)).cells
  {
  }

  lemma FaultStep(s: Sys, k: Key)
    requires Inv(s) && FaultRuns(s, k)
    ensures Inv(Faulted(s, k)) && View(Faulted(s, k)) == Perform(View(s), ActionOf(s, Fault(k)))
  {
    FaultView(s, k);
    if !(s.ptes[k].user || Count(s, s.ptes[k].frame) <= 1) {
      CopyInv(s, k);
    }
    MappedCounted(s, k);
  }

  /** Each step keeps the counts right and shows every process what eager copying would. */
  lemma Step(s: Sys, e: Event)
    requires Inv(s) && Enabled(s, e)
    ensures Inv(Apply(s, e)) && Allowed(View(s), ActionOf(s, e)) &&
            View(Apply(s, e)) == Perform(View(s), ActionOf(s, e))
  {
    match e
    case NewSpace(pg) => WithSpaceInv(s, pg);
    case Grow(k) => GrowInv(s, k);
    case Shrink(pg, lo, hi) => ShrinkStep(s, pg, lo, hi);
    case Fork(pg, d, n) => ForkedInv(s, pg, d, n);
    case ForkFails(pg, d, n) => FailedFork(s, pg, d, n);
    case Fault(k) => FaultStep(s, k);
    case Store(k, i, b) => StoreStep(s, k, i, b);
    case Hide(k) => HideStep(s, k);
    case FreeVm(pg) => FreedInv(s, pg);
    case Take => KallocInv(s);
    case Give(f) => GiveStep(s, f);
  }

  lemma StoreStep(s: Sys, k: Key, i: nat, b: int)
    requires Inv(s) && UserWrites(s, k) && i < |Bytes(s, s.ptes[k].frame)|
    ensures Inv(Stored(s, k, i, b)) && Allowed(View(s), Write(k, i, b)) &&
            View(Stored(s, k, i, b)) == Perform(View(s), Write(k, i, b))
  {
    StoreInv(s, k, i, b);
  }

  // --- Stores go through ---

  /**
   A page its process could write under eager copying can be written, or faults and then can, or waits for a frame that
   others share while none is free; and the handler runs on no other such page.
   */
  lemma StoreGoesThrough(s: Sys, k: Key)
    requires Inv(s) && k in View(s).cells && View(s).cells[k].writable && View(s).cells[k].user
    ensures FaultRuns(s, k) <==>
              !UserWrites(s, k) &&
              (s.free == [] ==> forall q | q in s.ptes && q != k :: s.ptes[q].frame != s.ptes[k].frame)
    ensures FaultRuns(s, k) ==> UserWrites(Apply(s, Fault(k)), k)
  {
    var f := s.ptes[k].frame;
    assert EntryOk(s, k) && CountOk(s, f) && k in Refs(s.ptes, f);
    if forall q | q in s.ptes && q != k :: s.ptes[q].frame != f {
      assert Refs(s.ptes, f) == {k};
    } else {
      var q :| q in s.ptes && q != k && s.ptes[q].frame == f;
      TwoRefs(s.ptes, k, q);
    }
  }

  // --- Whole runs ---

  ghost predicate Run(s: Sys, es: seq<Event>)
    decreases |es|
  {
    es == [] || (Enabled(s, es[0]) && Run(Apply(s, es[0]), es[1..]))
  }

  ghost function Final(s: Sys, es: seq<Event>): Sys
    requires Run(s, es)
    decreases |es|
  {
    if es == [] then s else Final(Apply(s, es[0]), es[1..])
  }

  ghost function Actions(s: Sys, es: seq<Event>): (r: seq<Action>)
    requires Run(s, es)
    ensures |r| == |es|
    decreases |es|
  {
    if es == [] then [] else [ActionOf(s, es[0])] + Actions(Apply(s, es[0]), es[1..])
  }

  ghost predicate EagerRun(a: Eager, acts: seq<Action>)
    decreases |acts|
  {
    acts == [] || (Allowed(a, acts[0]) && EagerRun(Perform(a, acts[0]), acts[1..]))
  }

  ghost function EagerFinal(a: Eager, acts: seq<Action>): Eager
    requires EagerRun(a, acts)
    decreases |acts|
  {
    if acts == [] then a else EagerFinal(Perform(a, acts[0]), acts[1..])
  }

  /** No process, and every frame on the free list. */
  function Boot(bytes: map<nat, Page>, free: seq<nat>): Sys {
    Sys({}, {}, map[], bytes, map f | f in bytes :: 0, free, {})
  }

  lemma BootInv(bytes: map<nat, Page>, free: seq<nat>)
    requires (forall f :: f in free <==> f in bytes) && Distinct(free)
    ensures Inv(Boot(bytes, free)) && View(Boot(bytes, free)) == Eager({}, map[])
  {
    var s := Boot(bytes, free);
    forall f
      ensures CountOk(s, f)
    {
      assert Refs(s.ptes, f) == {};
    }
    assert View(s).cells == map[];
  }

  lemma {:induction false} RunRefines(s: Sys, es: seq<Event>)
    requires Inv(s) && Run(s, es)
    ensures Inv(Final(s, es)) && EagerRun(View(s), Actions(s, es))
    ensures View(Final(s, es)) == EagerFinal(View(s), Actions(s, es))
    decreases |es|
  {
    if es != [] {
      Step(s, es[0]);
      RunRefines(Apply(s, es[0]), es[1..]);
      assert Actions(s, es)[1..] == Actions(Apply(s, es[0]), es[1..]);
    }
  }

  /**
   In every run from boot, whatever is shared, every process sees at the end what it would see if each fork had copied
   every page, and every frame is free exactly when no page maps it and the kernel does not hold it.
   */
  lemma RefinesEagerCopy(bytes: map<nat, Page>, free: seq<nat>, es: seq<Event>)
    requires (forall f :: f in free <==> f in bytes) && Distinct(free)
    requires Run(Boot(bytes, free), es)
    ensures EagerRun(Eager({}, map[]), Actions(Boot(bytes, free), es))
    ensures var s := Final(Boot(bytes, free), es);
            View(s) == EagerFinal(Eager({}, map[]), Actions(Boot(bytes, free), es)) &&
            forall f | f in s.refc :: f in s.free <==> f !in s.held && forall k | k in s.ptes :: s.ptes[k].frame != f
  {
    BootInv(bytes, free);
    RunRefines(Boot(bytes, free), es);
    var s := Final(Boot(bytes, free), es);
    forall f | f in s.refc
      ensures f in s.free <==> f !in s.held && forall k | k in s.ptes :: s.ptes[k].frame != f
    {
      NothingLeaks(s, f);
    }
  }

  /** What can change or remove page `k` of its process: its own stores, and giving the page up. */
  predicate Touches(e: Event, k: Key) {
    match e
    case Store(q, _, _) => q == k
    case Shrink(pg, lo, hi) => Within(k, pg, lo, hi)
    case FreeVm(pg) => k.0 == pg
    case _ => false
  }

  /** Eager copying leaves a page alone that the event does not touch. */
  lemma UntouchedCell(a: Eager, s: Sys, e: Event, k: Key)
    requires Inv(s) && a == View(s) && Enabled(s, e) && k in a.cells && !Touches(e, k) && Allowed(a, ActionOf(s, e))
    ensures k in Perform(a, ActionOf(s, e)).cells && Perform(a, ActionOf(s, e)).cells[k].page == a.cells[k].page
  {
    assert EntryOk(s, k);
    match e
    case Fork(pg, d, n) => ForkCells(a, pg, d, n, k);
    case Grow(q) => assert q != k;
    case _ =>
  }

  lemma UntouchedStep(s: Sys, e: Event, k: Key)
    requires Inv(s) && Enabled(s, e) && k in s.ptes && !Touches(e, k)
    ensures k in Apply(s, e).ptes && View(Apply(s, e)).cells[k].page == View(s).cells[k].page
  {
    Step(s, e);
    UntouchedCell(View(s), s, e, k);
  }

  /** Nothing others do to the frames they share with a process changes what it reads. */
  lemma {:induction false} Isolated(s: Sys, es: seq<Event>, k: Key)
    requires Inv(s) && Run(s, es) && k in s.ptes && forall e | e in es :: !Touches(e, k)
    ensures k in Final(s, es).ptes && View(Final(s, es)).cells[k].page == View(s).cells[k].page
    decreases |es|
  {
    if es != [] {
      assert es[0] in es;
      Step(s, es[0]);
      UntouchedStep(s, es[0], k);
      Isolated(Apply(s, es[0]), es[1..], k);
    }
  }
}
