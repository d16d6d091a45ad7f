/** Processes that reserve, fault, store, fork, grow, shrink and end over lazy pages refine eager growth. */
module LazyMachine {
  import opened PageKeys
  import opened LazyTable
  import opened LazyCalls

  /**
   Calls, page faults and user stores, one at a time. `Open` is setupkvm for a process of size 0; `GrowFails` and
   `ForkFails` run out of memory at page `m` or `n`; `Take` and `Give` are kalloc and kfree for anything but user pages.
   */
  datatype Event =
    | Open(pg: nat)
    | Mmap(pg: nat, n: nat)
    | Grow(pg: nat, n: nat)
    | GrowFails(pg: nat, n: nat, m: nat)
    | Shrink(pg: nat, sz: nat)
    | Fork(pg: nat, d: nat)
    | ForkFails(pg: nat, d: nat, n: nat)
    | Fault(k: Key)
    | Store(k: Key, i: nat, b: int)
    | FreeVm(pg: nat)
    | Take
    | Give(f: nat)

  /** What a process may ask for and the memory allows; mmap must not reach the kernel's addresses. */
  predicate Enabled(s: Sys, e: Event) {
    match e
    case Open(pg) => pg !in s.sizes
    case Mmap(pg, n) => pg in s.sizes && n % PGSIZE == 0 && s.sizes[pg] + n <= KERNBASE
    case Grow(pg, n) => pg in s.sizes && CanGrow(s, pg, n, NewCount(s.sizes[pg], n))
    case GrowFails(pg, n, m) => CanGrow(s, pg, n, m)
    case Shrink(pg, sz) => pg in s.sizes && sz <= s.sizes[pg]
    case Fork(pg, d) => pg in s.sizes && CanFork(s, pg, d, PageUp(s.sizes[pg]))
    case ForkFails(pg, d, n) => CanFork(s, pg, d, n)
    case Fault(k) => k in s.ptes && s.ptes[k].Lazy?
    case Store(k, i, b) => CanStore(s, k, i)
    case FreeVm(pg) => true
    case Take => |s.free| > 0
    case Give(f) => f in s.held
  }

  function Apply(s: Sys, e: Event): Sys
    requires Enabled(s, e)
  {
    match e
    case Open(pg) => Opened(s, pg, 0)
    case Mmap(pg, n) => Mmapped(s, pg, n)
    case Grow(pg, n) => Grown(s, pg, n)
    case GrowFails(pg, n, m) => GrowFailed(s, pg, n, m)
    case Shrink(pg, sz) => Shrunk(s, pg, sz)
    case Fork(pg, d) => Forked(s, pg, d, PageUp(s.sizes[pg]))
    case ForkFails(pg, d, n) => ForkFailed(s, pg, d, n)
    case Fault(k) => Faulted(s, k)
    case Store(k, i, b) => Stored(s, k, i, b)
    case FreeVm(pg) => Freed(s, pg)
    case Take => Taken(s)
    case Give(f) => Given(s, f)
  }

  /** The size is a whole number of pages at an mmap, nothing lazy is given up, and a fault finds its frame. */
  ghost predicate Smooth(s: Sys, e: Event)
    requires Enabled(s, e)
  {
    match e
    case Mmap(pg, n) => n == 0 || s.sizes[pg] % PGSIZE == 0
    case Shrink(pg, sz) => CanShrink(s, pg, sz)
    case Fault(k) => CanAlloc(s, k)
    case _ => true
  }

  // --- Eager growth ---

  /** Eager growth has no faults, no marks and no frames: only sizes and pages. */
  function Perform(a: Eager, e: Event): Eager
    requires Allowed(a, e)
  {
    match e
    case Open(pg) => a.(sizes := a.sizes[pg := 0])
    case Mmap(pg, n) => EagerGrow(a, pg, n)
    case Grow(pg, n) => EagerGrow(a, pg, n)
    case Shrink(pg, sz) => if sz > 0 then EagerShrink(a, pg, sz) else a
    case Fork(pg, d) => EagerFork(a, pg, d)
    case Store(k, i, b) => EagerStore(a, k, i, b)
    case FreeVm(pg) => EagerFree(a, pg)
    case _ => a
  }

  predicate Allowed(a: Eager, e: Event) {
    match e
    case Mmap(pg, n) => pg in a.sizes
    case Grow(pg, n) => pg in a.sizes
    case Fork(pg, d) => pg in a.sizes
    case Store(k, i, b) => k in a.cells && i < |a.cells[k]|
    case _ => true
  }

  // --- Steps ---

  /** A step that runs smoothly shows every process what eager growth would. */
  lemma Step(s: Sys, e: Event)
    requires Inv(s) && Enabled(s, e) && Smooth(s, e)
    ensures Inv(Apply(s, e)) && Allowed(View(s), e) && View(Apply(s, e)) == Perform(View(s), e)
  {
    match e
    case Open(pg) => OpenStep(s, pg);
    case Mmap(pg, n) => MmapExactly(s, pg, n);
    case Grow(pg, n) => GrowOk(s, pg, n);
    case GrowFails(pg, n, m) => GrowFailedOk(s, pg, n, m);
    case Shrink(pg, sz) => ShrinkExactly(s, pg, sz);
    case Fork(pg, d) => ForkOk(s, pg, d);
    case ForkFails(pg, d, n) => ForkFailedOk(s, pg, d, n);
    case Fault(k) => FaultExactly(s, k);
    case Store(k, i, b) => StoreOk(s, k, i, b);
    case FreeVm(pg) => FreeOk(s, pg);
    case Take =>
      TakenOk(s);
      SizedView(s, Taken(s));
    case Give(f) =>
      GivenOk(s, f);
      SizedView(s, Given(s, f));
  }

  lemma OpenStep(s: Sys, pg: nat)
    requires Inv(s) && pg !in s.sizes
    ensures Inv(Opened(s, pg, 0)) && View(Opened(s, pg, 0)) == Perform(View(s), Open(pg))
  {
    OpenedOk(s, pg, 0);
    var t := Opened(s, pg, 0);
    forall k | k in t.ptes
      ensures Seen(t, k) == Seen(s, k)
    {
    }
    assert View(t).cells == View(s).cells;
  }

  /** A step that does not takes pages and size out of step. */
  lemma StepExactly(s: Sys, e: Event)
    requires Inv(s) && Enabled(s, e)
    ensures Inv(Apply(s, e)) <==> Smooth(s, e)
  {
    if Smooth(s, e) {
      Step(s, e);
    } else {
      match e
      case Mmap(pg, n) => MmapExactly(s, pg, n);
      case Shrink(pg, sz) => ShrinkExactly(s, pg, sz);
      case Fault(k) => FaultExactly(s, k);
    }
  }

  // --- Runs ---

  ghost predicate Run(s: Sys, es: seq<Event>)
    decreases |es|
  {
    es == [] || (Enabled(s, es[0]) && Run(Apply(s, es[0]), es[1..]))
  }

  ghost function Final(s: Sys, es: seq<Event>): Sys
    requires Run(s, es)
    decreases |es|
  {
    if es == [] then s else Final(Apply(s, es[0]), es[1..])
  }

  /** Every step of the run goes smoothly. */
  ghost predicate SmoothRun(s: Sys, es: seq<Event>)
    requires Run(s, es)
    decreases |es|
  {
    es == [] || (Smooth(s, es[0]) && SmoothRun(Apply(s, es[0]), es[1..]))
  }

  /** Frames, pages and sizes agree all along the run. */
  ghost predicate InvThroughout(s: Sys, es: seq<Event>)
    requires Run(s, es)
    decreases |es|
  {
    Inv(s) && (es == [] || InvThroughout(Apply(s, es[0]), es[1..]))
  }

  ghost predicate EagerRun(a: Eager, es: seq<Event>)
    decreases |es|
  {
    es == [] || (Allowed(a, es[0]) && EagerRun(Perform(a, es[0]), es[1..]))
  }

  ghost function EagerFinal(a: Eager, es: seq<Event>): Eager
    requires EagerRun(a, es)
    decreases |es|
  {
    if es == [] then a else EagerFinal(Perform(a, es[0]), es[1..])
  }

  lemma {:induction false} RunRefines(s: Sys, es: seq<Event>)
    requires Inv(s) && Run(s, es) && SmoothRun(s, es)
    ensures Inv(Final(s, es)) && EagerRun(View(s), es) && View(Final(s, es)) == EagerFinal(View(s), es)
    decreases |es|
  {
    if es != [] {
      Step(s, es[0]);
      RunRefines(Apply(s, es[0]), es[1..]);
    }
  }

  lemma {:induction false} RunExactly(s: Sys, es: seq<Event>)
    requires Inv(s) && Run(s, es)
    ensures InvThroughout(s, es) <==> SmoothRun(s, es)
    decreases |es|
  {
    if es != [] {
      StepExactly(s, es[0]);
      if Smooth(s, es[0]) {
        RunExactly(Apply(s, es[0]), es[1..]);
      } else {
        NotThroughout(Apply(s, es[0]), es[1..]);
      }
    }
  }

  lemma NotThroughout(s: Sys, es: seq<Event>)
    requires Run(s, es) && !Inv(s)
    ensures !InvThroughout(s, es)
  {
  }

  /** No process, and every frame on the free list. */
  function Boot(bytes: map<nat, Page>, free: seq<nat>): Sys {
    Sys(map[], {}, map[], bytes, free, {})
  }

  lemma BootInv(bytes: map<nat, Page>, free: seq<nat>)
    requires (forall f :: f in free <==> f in bytes) && Distinct(free)
    ensures Inv(Boot(bytes, free)) && View(Boot(bytes, free)) == Eager(map[], map[])
  {
    assert View(Boot(bytes, free)).cells == map[];
  }

  /**
   From boot, pages and sizes stay in step exactly in the runs all of whose steps go smoothly. In those, whatever is
   reserved and whenever it is touched, every process sees at the end what it would if every page had been allocated
   when it was asked for, and a frame is free exactly when no page maps it and the kernel does not hold it.
   */
  lemma RefinesEagerGrowth(bytes: map<nat, Page>, free: seq<nat>, es: seq<Event>)
    requires (forall f :: f in free <==> f in bytes) && Distinct(free) && Run(Boot(bytes, free), es)
    ensures InvThroughout(Boot(bytes, free), es) <==> SmoothRun(Boot(bytes, free), es)
    ensures SmoothRun(Boot(bytes, free), es) ==>
              EagerRun(Eager(map[], map[]), es) &&
              View(Final(Boot(bytes, free), es)) == EagerFinal(Eager(map[], map[]), es)
    ensures SmoothRun(Boot(bytes, free), es) ==> NoneLost(Final(Boot(bytes, free), es))
  {
    BootInv(bytes, free);
    RunExactly(Boot(bytes, free), es);
    if SmoothRun(Boot(bytes, free), es) {
      RunRefines(Boot(bytes, free), es);
      NothingLeaks(Final(Boot(bytes, free), es));
    }
  }

  ghost predicate NoneLost(s: Sys) {
    (forall f | f in s.bytes :: f in s.free <==> f !in s.held && !IsMapped(s, f)) &&
    forall k, q | k in s.ptes && q in s.ptes && s.ptes[k].Present? && s.ptes[k] == s.ptes[q] :: k == q
  }

  lemma NothingLeaks(s: Sys)
    requires Frames(s)
    ensures NoneLost(s)
  {
    forall f | f in s.bytes && IsMapped(s, f)
      ensures f !in s.free
    {
      var k :| k in s.ptes && s.ptes[k] == Present(f);
      assert FrameOk(s, k);
    }
    forall k, q | k in s.ptes && q in s.ptes && s.ptes[k].Present? && s.ptes[k] == s.ptes[q]
      ensures k == q
    {
      assert Unshared(s, k, q);
    }
  }
}
