/** allocuvm, deallocuvm, growproc, sys_mmap, the page-fault branch of trap, copyuvm and sys_numpp (Activity B). */
module LazyCode {
  import opened PageKeys
  import opened LazyTable
  import opened LazyCalls

  /**
   How sys_mmap ends: refused, done, gone through a null pointer where a page table was not to be had, or with the
   kernel's first page marked absent.
   */
  datatype MmapEnd = Refused | Done | NullTable | KernelPage

  /** How a page fault ends: with the page present, the process killed, or the page neither lazy nor present. */
  datatype FaultEnd = Fixed | Killed | Unfilled

  /** How copyuvm ends; NoTable is a null pointer followed. */
  datatype CopyEnd = Whole | Failed | NoTable

  /** New pages allocuvm gets: frames may run out, and there may be no table for page `room`. */
  function Gets(s: Sys, lo: nat, hi: nat, room: nat): (m: nat)
    requires lo <= hi
    ensures lo + m <= hi && m <= |s.free|
  {
    var pages := if lo <= room < hi then room - lo else hi - lo;
    if pages <= |s.free| then pages else |s.free|
  }

  /** Whether allocuvm gives what was asked for. */
  function Suffices(s: Sys, oldsz: nat, newsz: nat, room: nat): bool
    requires oldsz <= newsz
  {
    PagesOrdered(oldsz, newsz);
    newsz < KERNBASE && Gets(s, PageUp(oldsz), PageUp(newsz), room) == PageUp(newsz) - PageUp(oldsz)
  }

  /** What allocuvm leaves. */
  function Allocated(s: Sys, pg: nat, oldsz: nat, newsz: nat, room: nat): Sys {
    if newsz >= KERNBASE || newsz < oldsz then s
    else
      PagesOrdered(oldsz, newsz);
      var lo, hi := PageUp(oldsz), PageUp(newsz);
      var m := Gets(s, lo, hi, room);
      if m == hi - lo then GrownTo(s, pg, lo, hi) else TakenBack(GrownTo(s, pg, lo, lo + m), pg, lo, hi)
  }

  function GrowprocRuns(s: Sys, pg: nat, n: int, room: nat): bool
    requires pg in s.sizes
  {
    var sz := s.sizes[pg];
    if n > 0 then Suffices(s, sz, sz + n, room) else n == 0 || (sz > 0 && sz + n != 0)
  }

  /** What growproc leaves: a negative amount beyond the size wraps round and changes nothing. */
  function AfterGrowproc(s: Sys, pg: nat, n: int, room: nat): Sys
    requires pg in s.sizes
  {
    var sz := s.sizes[pg];
    if n > 0 then
      PagesOrdered(sz, sz + n);
      if Suffices(s, sz, sz + n, room) then Grown(s, pg, n)
      else if sz + n >= KERNBASE then s
      else GrowFailed(s, pg, n, Gets(s, PageUp(sz), PageUp(sz + n), room))
    else if n < 0 && sz + n >= 0 then Shrunk(s, pg, sz + n)
    else s
  }

  lemma GrowprocGrows(s: Sys, pg: nat, n: nat, room: nat)
    requires Inv(s) && pg in s.sizes && n > 0
    ensures Inv(AfterGrowproc(s, pg, n, room))
  {
    var sz := s.sizes[pg];
    PagesOrdered(sz, sz + n);
    if Suffices(s, sz, sz + n, room) {
      GrowOk(s, pg, n);
      assert AfterGrowproc(s, pg, n, room) == Grown(s, pg, n);
    } else if sz + n < KERNBASE {
      var m := Gets(s, PageUp(sz), PageUp(sz + n), room);
      GrowFailedOk(s, pg, n, m);
      assert AfterGrowproc(s, pg, n, room) == GrowFailed(s, pg, n, m);
    } else {
      assert AfterGrowproc(s, pg, n, room) == s;
    }
  }

  /**
   Pages and size stay in step unless shrinking passes over a lazy page or gives a present page up for a size of 0.
   */
  lemma GrowprocExactly(s: Sys, pg: nat, n: int, room: nat)
    requires Inv(s) && pg in s.sizes
    ensures Inv(AfterGrowproc(s, pg, n, room)) <==> n >= 0 || s.sizes[pg] + n < 0 || CanShrink(s, pg, s.sizes[pg] + n)
  {
    if n > 0 {
      GrowprocGrows(s, pg, n, room);
    } else if n < 0 && s.sizes[pg] + n >= 0 {
      ShrinkExactly(s, pg, s.sizes[pg] + n);
    }
  }

  /** How sys_mmap ends, by the page numbers it goes through. */
  function MmapOutcome(s: Sys, pg: nat, n: int, room: nat): MmapEnd
    requires pg in s.sizes
  {
    if n < 0 || n % PGSIZE != 0 then Refused
    else
      var lo, hi := s.sizes[pg] / PGSIZE, s.sizes[pg] / PGSIZE + n / PGSIZE;
      if lo <= room < hi && room < UPAGES then NullTable else if hi > UPAGES then KernelPage else Done
  }

  lemma MmapDone(s: Sys, pg: nat, n: nat)
    requires Inv(s) && pg in s.sizes && n % PGSIZE == 0 && s.sizes[pg] / PGSIZE + n / PGSIZE <= UPAGES
    ensures Inv(Mmapped(s, pg, n)) <==> n == 0 || s.sizes[pg] % PGSIZE == 0
    ensures n == 0 || s.sizes[pg] % PGSIZE == 0 ==> View(Mmapped(s, pg, n)) == EagerGrow(View(s), pg, n)
  {
    if n == 0 || s.sizes[pg] % PGSIZE == 0 {
      assert SizeOk(s, pg);
      MmapAligned(s, pg, n);
    } else {
      MmapUnaligned(s, pg, n);
    }
  }

  /** Where sys_mmap's loop is. */
  lemma MmapAt(addr: nat, n: nat, v: nat)
    requires n % PGSIZE == 0 && addr / PGSIZE <= v
    ensures var va := addr + (v - addr / PGSIZE) * PGSIZE;
            va / PGSIZE == v && (va < addr + n <==> v < addr / PGSIZE + n / PGSIZE)
  {
    var j := v - addr / PGSIZE;
    assert addr == addr / PGSIZE * PGSIZE + addr % PGSIZE;
    assert addr + j * PGSIZE == v * PGSIZE + addr % PGSIZE;
  }

  /** copyuvm of `n` pages comes to page `m` and cannot map it. */
  ghost predicate FailsAt(s: Sys, t: Sys, pg: nat, d: nat, m: nat, room: nat) {
    CanFork(s, pg, d, m) && m < PageUp(s.sizes[pg]) && (pg, m) in s.ptes && s.ptes[(pg, m)].Present? &&
    (m == room || (m < room && Needed(s.ptes, pg, 0, m + 1) > |s.free|)) && t == ForkFailed(s, pg, d, m)
  }

  /** Frames and page tables suffice. */
  ghost predicate CopyFits(s: Sys, pg: nat, n: nat, room: nat) {
    n <= room && Needed(s.ptes, pg, 0, n) <= |s.free|
  }

  /** The table that is missing is one for a lazy page, and the frames last until there. */
  ghost predicate MeetsNull(s: Sys, pg: nat, n: nat, room: nat) {
    room < n && (pg, room) in s.ptes && s.ptes[(pg, room)].Lazy? && Needed(s.ptes, pg, 0, room) <= |s.free|
  }

  lemma FailsOnly(s: Sys, t: Sys, pg: nat, d: nat, m: nat, room: nat)
    requires FailsAt(s, t, pg, d, m, room)
    ensures !CopyFits(s, pg, PageUp(s.sizes[pg]), room) && !MeetsNull(s, pg, PageUp(s.sizes[pg]), room)
  {
    NeededGrows(s.ptes, pg, 0, m + 1, PageUp(s.sizes[pg]));
    if m < room {
      NeededGrows(s.ptes, pg, 0, m + 1, room);
    }
  }

  /** One turn of copyuvm's loop. */
  lemma CopyTurn(s: Sys, pg: nat, d: nat, v: nat)
    requires Inv(s) && CanFork(s, pg, d, v) && v < PageUp(s.sizes[pg])
    ensures var t, k := Forked(s, pg, d, v), (pg, v);
            Frames(t) && k in s.ptes && k in t.ptes && t.ptes[k] == s.ptes[k] &&
            |t.free| == |s.free| - Needed(s.ptes, pg, 0, v) &&
            Needed(s.ptes, pg, 0, v + 1) == Needed(s.ptes, pg, 0, v) + (if s.ptes[k].Present? then 1 else 0) &&
            (CanFork(s, pg, d, v + 1) ==> Forked(s, pg, d, v + 1) == Copied(t, k, (d, v)))
  {
    assert SizeOk(s, pg);
    ForkCopies(s, pg, d, v);
    NeededSnoc(s.ptes, pg, 0, v);
    CopySnoc(Opened(s, d, s.sizes[pg]), pg, d, 0, v);
  }

  lemma CopyFails(s: Sys, pg: nat, d: nat, v: nat)
    requires Inv(s) && CanFork(s, pg, d, v) && v < PageUp(s.sizes[pg])
    ensures Inv(ForkFailed(s, pg, d, v)) && View(ForkFailed(s, pg, d, v)) == View(s)
    ensures var t := Forked(s, pg, d, v);
            Frames(t) && Frames(Spilled(t)) && (|t.free| > 0 ==> Spilled(t) == Given(Taken(t), t.free[0]))
  {
    ForkCopies(s, pg, d, v);
    SpilledOk(Forked(s, pg, d, v));
    ForkFailedOk(s, pg, d, v);
  }

  /** A lazy page at which a fault finds no frame is left without an entry. */
  lemma FaultFrames(s: Sys, k: Key)
    requires Frames(s) && k in s.ptes && s.ptes[k].Lazy?
    ensures Frames(Faulted(s, k))
  {
    assert FrameOk(s, k);
    if CanAlloc(s, k) {
      MappedOk(s, k, ZeroPage());
    } else {
      UnmarkedOk(s, k);
    }
  }

  /** allocuvm for the one page of a fault. */
  lemma OnePage(s: Sys, k: Key, room: nat)
    requires k in s.ptes && s.ptes[k].Lazy? && room > k.1
    ensures var base := k.1 * PGSIZE;
            PageUp(base) == k.1 && PageUp(base + PGSIZE) == k.1 + 1 &&
            Allocated(s, k.0, base, base + PGSIZE, room) == if CanAlloc(s, k) then Mapped(s, k, ZeroPage()) else s
  {
    var base, v := k.1 * PGSIZE, k.1;
    assert k == (k.0, k.1) && PageUp(base) == v && PageUp(base + PGSIZE) == v + 1;
    assert GrownTo(s, k.0, v, v) == s;
    if |s.free| > 0 {
      var t := Mapped(s, k, ZeroPage());
      assert GrownTo(t, k.0, v + 1, v + 1) == t;
      assert GrownTo(s, k.0, v, v + 1) == t;
    } else {
      assert Emptied(s, k.0, v + 1, v + 1) == s;
      assert Dropped(s, k) == s && Emptied(s, k.0, v, v + 1) == s;
    }
  }

  /** Pages under a missing table have no entry: passing over them changes nothing. */
  lemma {:induction false} SkipTable(s: Sys, pg: nat, lo: nat, mid: nat, hi: nat)
    requires Frames(s) && lo <= mid <= hi
    requires forall v: nat | lo <= v < mid :: Table(pg, v / NENTRIES) !in s.tabs
    ensures Emptied(s, pg, lo, hi) == Emptied(s, pg, mid, hi)
    decreases mid - lo
  {
    if lo < mid {
      assert Table(pg, lo / NENTRIES) !in s.tabs;
      assert (pg, lo) in s.ptes ==> FrameOk(s, (pg, lo));
      SkipTable(s, pg, lo + 1, mid, hi);
    }
  }

  lemma SizesSame(s: Sys, pg: nat)
    requires Sized(s) && pg in s.sizes
    ensures s.sizes[pg] <= KERNBASE && s.sizes[pg := s.sizes[pg]] == s.sizes
  {
    assert SizeOk(s, pg);
  }

  lemma SkipRest(s: Sys, pg: nat, v: nat, w: nat, top: nat)
    requires Frames(s) && v < top && w == (v / NENTRIES + 1) * NENTRIES && Table(pg, v / NENTRIES) !in s.tabs
    ensures w > v && Emptied(s, pg, w, top) == Emptied(s, pg, v, top)
  {
    SkipTable(s, pg, v, if w < top then w else top, top);
  }

  lemma EmptiedNext(s: Sys, pg: nat, v: nat, top: nat)
    requires Frames(s) && v < top
    ensures Frames(Dropped(s, (pg, v))) && Emptied(Dropped(s, (pg, v)), pg, v + 1, top) == Emptied(s, pg, v, top)
  {
    DroppedOk(s, (pg, v));
  }

  lemma {:induction false} NeededSnoc(ptes: map<Key, Pte>, pg: nat, lo: nat, hi: nat)
    requires lo <= hi
    ensures Needed(ptes, pg, lo, hi + 1) ==
            Needed(ptes, pg, lo, hi) + if (pg, hi) in ptes && ptes[(pg, hi)].Present? then 1 else 0
    decreases hi - lo
  {
    if lo < hi {
      NeededSnoc(ptes, pg, lo + 1, hi);
    }
  }

  lemma {:induction false} NeededGrows(ptes: map<Key, Pte>, pg: nat, lo: nat, mid: nat, hi: nat)
    requires lo <= mid <= hi
    ensures Needed(ptes, pg, lo, mid) <= Needed(ptes, pg, lo, hi)
    decreases hi - mid
  {
    if mid < hi {
      NeededSnoc(ptes, pg, lo, hi - 1);
      NeededGrows(ptes, pg, lo, mid, hi - 1);
    }
  }

  /** copyuvm's next page comes last. */
  lemma {:induction false} CopySnoc(s: Sys, pg: nat, d: nat, lo: nat, hi: nat)
    requires lo <= hi && pg != d && Needed(s.ptes, pg, lo, hi) <= |s.free|
    requires forall v: nat | lo <= v <= hi :: (pg, v) in s.ptes
    ensures (pg, hi) in CopiedAll(s, pg, d, lo, hi).ptes &&
            CopiedAll(s, pg, d, lo, hi).ptes[(pg, hi)] == s.ptes[(pg, hi)]
    ensures |CopiedAll(s, pg, d, lo, hi).free| == |s.free| - Needed(s.ptes, pg, lo, hi)
    ensures (s.ptes[(pg, hi)].Present? ==> |CopiedAll(s, pg, d, lo, hi).free| > 0) ==>
              CopiedAll(s, pg, d, lo, hi + 1) == Copied(CopiedAll(s, pg, d, lo, hi), (pg, hi), (d, hi))
    decreases hi - lo
  {
    if lo < hi {
      NeededGrows(s.ptes, pg, lo, lo + 1, hi);
      var t := Copied(s, (pg, lo), (d, lo));
      NeededSame(s.ptes, t.ptes, pg, lo + 1, hi);
      CopySnoc(t, pg, d, lo + 1, hi);
    } else if s.ptes[(pg, hi)].Present? ==> |s.free| > 0 {
      var t := Copied(s, (pg, hi), (d, hi));
      assert CopiedAll(t, pg, d, lo + 1, hi + 1) == t;
    }
  }

  /** Making the next page lazy comes last. */
  lemma {:induction false} ReservedSnoc(s: Sys, pg: nat, lo: nat, hi: nat)
    requires lo <= hi
    ensures Reserved(s, pg, lo, hi + 1) == Marked(Reserved(s, pg, lo, hi), (pg, hi))
    decreases hi - lo
  {
    if lo < hi {
      ReservedSnoc(Marked(s, (pg, lo)), pg, lo + 1, hi);
    } else {
      assert Reserved(Marked(s, (pg, lo)), pg, lo + 1, hi + 1) == Marked(s, (pg, lo));
    }
  }

  /** Frames stay in order when a lazy mark is taken off. */
  lemma UnmarkedOk(s: Sys, k: Key)
    requires Frames(s) && k in s.ptes && s.ptes[k].Lazy?
    ensures Frames(s.(ptes := s.ptes - {k}))
  {
    var t := s.(ptes := s.ptes - {k});
    forall q | q in t.ptes
      ensures FrameOk(t, q)
    {
      assert FrameOk(s, q);
    }
    forall p, q | p in t.ptes && q in t.ptes
      ensures Unshared(t, p, q)
    {
      assert Unshared(s, p, q);
    }
    forall f | f in t.bytes
      ensures f in t.free || f in t.held || IsMapped(t, f)
    {
      if IsMapped(s, f) {
        var q :| q in s.ptes && s.ptes[q] == Present(f);
        assert t.ptes[q] == Present(f);
      }
    }
  }

  class Vm {
    var sizes: map<nat, nat>
    var tabs: set<Table>
    var ptes: map<Key, Pte>
    var bytes: map<nat, Page>
    var freelist: seq<nat>
    ghost var held: set<nat>

    /** The state as a value. */
    ghost function Now(): Sys
      reads this
    {
      Sys(sizes, tabs, ptes, bytes, freelist, held)
    }

    ghost predicate Valid()
      reads this
    {
      Inv(Now())
    }

    constructor (frames: map<nat, Page>, list: seq<nat>)
      requires (forall f :: f in list <==> f in frames) && Distinct(list)
      ensures Valid() && sizes == map[] && ptes == map[] && freelist == list
    {
      sizes, tabs, ptes, held := map[], {}, map[], {};
      bytes, freelist := frames, list;
    }

    method Kalloc() returns (got: bool, f: nat)
      modifies this`freelist, this`held
      ensures got <==> |old(freelist)| > 0
      ensures got ==> f == old(freelist)[0] && Now() == Taken(old(Now()))
      ensures !got ==> Now() == old(Now())
    {
      got, f := false, 0;
      if |freelist| > 0 {
        f := freelist[0];
        freelist := freelist[1..];
        held := held + {f};
        got := true;
      }
    }

    method Kfree(f: nat)
      modifies this`bytes, this`freelist, this`held
      ensures Now() == Given(old(Now()), f)
    {
      bytes := bytes[f := Ones(PGSIZE)];
      freelist := [f] + freelist;
      held := held - {f};
    }

    /** One page of deallocuvm: nothing but a present page is looked at. */
    method DropPage(k: Key)
      modifies this`ptes, this`bytes, this`freelist
      ensures Now() == Dropped(old(Now()), k)
    {
      if k in ptes && ptes[k].Present? {
        var f := ptes[k].frame;
        bytes := bytes[f := Ones(PGSIZE)];
        freelist := [f] + freelist;
        ptes := ptes - {k};
      }
    }

    /** deallocuvm: a scan page by page, passing over what a missing table would have covered. */
    method DeallocUvm(pg: nat, oldsz: nat, newsz: nat) returns (r: nat)
      requires Frames(Now())
      modifies this`ptes, this`bytes, this`freelist
      ensures Frames(Now()) && r == if newsz >= oldsz then oldsz else newsz
      ensures Now() == if newsz >= oldsz then old(Now()) else Emptied(old(Now()), pg, PageUp(newsz), PageUp(oldsz))
    {
      if newsz >= oldsz {
        return oldsz;
      }
      ghost var top, goal := PageUp(oldsz), Emptied(Now(), pg, PageUp(newsz), PageUp(oldsz));
      ghost var v := PageUp(newsz);
      var a := PageUp(newsz) * PGSIZE;
      PagesBelow(v, oldsz);
      while a < oldsz
        invariant a == v * PGSIZE && (a < oldsz <==> v < top) && Frames(Now()) && Emptied(Now(), pg, v, top) == goal
        decreases oldsz - a
      {
        ghost var next;
        a, next := DropTurn(pg, a, v, top);
        v := next;
        PagesBelow(v, oldsz);
      }
      r := newsz;
    }

    /** One turn of deallocuvm's loop, up to where the next one starts. */
    method DropTurn(pg: nat, a: nat, ghost v: nat, ghost top: nat) returns (next: nat, ghost w: nat)
      requires Frames(Now()) && a == v * PGSIZE && v < top
      modifies this`ptes, this`bytes, this`freelist
      ensures Frames(Now()) && next == w * PGSIZE && w > v
      ensures Emptied(Now(), pg, w, top) == Emptied(old(Now()), pg, v, top)
    {
      var page := a / PGSIZE;
      assert page == v;
      if Table(pg, page / NENTRIES) !in tabs {
        w := (page / NENTRIES + 1) * NENTRIES;
        SkipRest(Now(), pg, v, w, top);
        next := (page / NENTRIES + 1) * NENTRIES * PGSIZE - PGSIZE;
      } else {
        w := v + 1;
        ghost var was := Now();
        EmptiedNext(was, pg, v, top);
        DropPage((pg, page));
        assert Now() == Dropped(was, (pg, v));
        next := a;
      }
      next := next + PGSIZE;
    }

    /** freevm: the user pages, then page tables and directory. */
    method FreeVm(pg: nat)
      requires Frames(Now())
      modifies this
      ensures Frames(Now()) && Now() == Freed(old(Now()), pg) && (old(Valid()) ==> Valid())
      ensures View(Now()) == EagerFree(View(old(Now())), pg)
    {
      FreedOk(Now(), pg);
      if Valid() {
        FreeOk(Now(), pg);
      }
      var _ := DeallocUvm(pg, KERNBASE, 0);
      tabs := set tab | tab in tabs && tab.pg != pg;
      ptes := map k | k in ptes && k.0 != pg :: ptes[k];
      sizes := sizes - {pg};
    }

    /**
     allocuvm; there is no page table for page `room` and no memory for one. A page that was lazy may be among the new
     ones.
     */
    method AllocUvm(pg: nat, oldsz: nat, newsz: nat, room: nat) returns (r: nat)
      requires Frames(Now()) && pg in sizes && Unmapped(Now(), pg, PageUp(oldsz), PageUp(newsz))
      modifies this`ptes, this`bytes, this`freelist, this`held, this`tabs
      ensures Now() == Allocated(old(Now()), pg, oldsz, newsz, room)
      ensures newsz < oldsz && newsz < KERNBASE ==> r == oldsz
      ensures newsz >= oldsz ==> r == if Suffices(old(Now()), oldsz, newsz, room) then newsz else 0
    {
      if newsz >= KERNBASE {
        return 0;
      }
      if newsz < oldsz {
        return oldsz;
      }
      PagesOrdered(oldsz, newsz);
      UserPages(newsz);
      var got := AllocPages(pg, oldsz, newsz, room, PageUp(oldsz), PageUp(newsz));
      r := if got then newsz else 0;
    }

    /** allocuvm's loop. */
    method AllocPages(pg: nat, oldsz: nat, newsz: nat, room: nat, ghost lo: nat, ghost hi: nat) returns (got: bool)
      requires Frames(Now()) && pg in sizes && Unmapped(Now(), pg, lo, hi)
      requires oldsz <= newsz && PageUp(oldsz) == lo <= hi == PageUp(newsz) && hi <= UPAGES
      modifies this`ptes, this`bytes, this`freelist, this`held, this`tabs
      ensures got == (Gets(old(Now()), lo, hi, room) == hi - lo)
      ensures got ==> Now() == GrownTo(old(Now()), pg, lo, hi)
      ensures !got ==> Now() == TakenBack(GrownTo(old(Now()), pg, lo, lo + Gets(old(Now()), lo, hi, room)), pg, lo, hi)
    {
      ghost var start, v := Now(), lo;
      ghost var m := Gets(start, lo, hi, room);
      var a := PageUp(oldsz) * PGSIZE;
      PagesBelow(v, newsz);
      while a < newsz
        invariant a == v * PGSIZE && lo <= v <= lo + m && (a < newsz <==> v < hi)
        invariant Now() == GrownTo(start, pg, lo, v)
      {
        GrowTurn(start, pg, lo, v, hi);
        assert a / PGSIZE == v;
        got := MapTurn(pg, a / PGSIZE, oldsz, newsz, room);
        if !got {
          return;
        }
        a, v := a + PGSIZE, v + 1;
        PagesBelow(v, newsz);
      }
      got := true;
    }

    /** One turn of allocuvm's loop, with the error paths. */
    method MapTurn(pg: nat, page: nat, oldsz: nat, newsz: nat, room: nat) returns (got: bool)
      requires Frames(Now()) && oldsz <= newsz && (|freelist| > 0 ==> Frames(Taken(Now())))
      requires |freelist| > 0 ==> freelist[0] !in held
      modifies this`ptes, this`bytes, this`freelist, this`held, this`tabs
      ensures got <==> |old(freelist)| > 0 && page != room
      ensures got ==> Now() == Mapped(old(Now()), (pg, page), ZeroPage())
      ensures !got ==> Frames(Now()) && Now() == TakenBack(old(Now()), pg, PageUp(oldsz), PageUp(newsz))
    {
      PagesOrdered(oldsz, newsz);
      var mem;
      got, mem := Kalloc();
      if !got || page == room {
        TakeBackFrames(pg, oldsz, newsz, got, mem);
        return false;
      }
      bytes := bytes[mem := ZeroPage()];
      tabs := tabs + {Tab((pg, page))};
      ptes := ptes[(pg, page) := Present(mem)];
      held := held - {mem};
    }

    /** The error paths: without a frame, or with one that could not be mapped. */
    method TakeBackFrames(pg: nat, oldsz: nat, newsz: nat, got: bool, mem: nat)
      requires Frames(Now()) && oldsz <= newsz && (got ==> mem in held)
      modifies this`ptes, this`bytes, this`freelist, this`held
      ensures var t := Emptied(old(Now()), pg, PageUp(oldsz), PageUp(newsz));
              Frames(Now()) && Now() == if got then Given(t, mem) else t
    {
      EmptiedOk(Now(), pg, PageUp(oldsz), PageUp(newsz));
      if oldsz == newsz {
        assert Emptied(Now(), pg, PageUp(oldsz), PageUp(newsz)) == Now();
      }
      var _ := DeallocUvm(pg, newsz, oldsz);
      if got {
        GivenOk(Now(), mem);
        Kfree(mem);
      }
    }

    /** growproc. */
    method Growproc(pg: nat, n: int, room: nat) returns (ok: bool)
      requires Valid() && pg in sizes && -0x8000_0000 <= n < 0x8000_0000
      modifies this
      ensures ok == GrowprocRuns(old(Now()), pg, n, room) && Now() == AfterGrowproc(old(Now()), pg, n, room)
      ensures Valid() <==> n >= 0 || old(sizes)[pg] + n < 0 || CanShrink(old(Now()), pg, old(sizes)[pg] + n)
    {
      GrowprocExactly(Now(), pg, n, room);
      ok := Resize(pg, n, room);
    }

    /** Its body. */
    method Resize(pg: nat, n: int, room: nat) returns (ok: bool)
      requires Valid() && pg in sizes && -0x8000_0000 <= n < 0x8000_0000
      modifies this
      ensures ok == GrowprocRuns(old(Now()), pg, n, room) && Now() == AfterGrowproc(old(Now()), pg, n, room)
    {
      ghost var start := Now();
      var sz := sizes[pg];
      SizesSame(start, pg);
      if n > 0 {
        AboveNew(Now(), pg, PageUp(sz + n));
        sz := AllocUvm(pg, sz, sz + n, room);
        if sz == 0 {
          return false;
        }
      } else if n < 0 {
        sz := DeallocUvm(pg, sz, if sz + n >= 0 then sz + n else sz + n + 0x1_0000_0000);
        if sz == 0 {
          return false;
        }
      }
      sizes := sizes[pg := sz];
      ok := true;
    }

    /** sys_mmap; there is no page table for page `room` and no memory for one. */
    method Mmap(pg: nat, n: int, room: nat) returns (r: MmapEnd, addr: nat)
      requires Valid() && pg in sizes
      modifies this`sizes, this`ptes, this`tabs
      ensures r == MmapOutcome(old(Now()), pg, n, room)
      ensures r == Refused ==> addr == 0 && Now() == old(Now())
      ensures r == Done ==> addr == old(sizes)[pg] && Now() == Mmapped(old(Now()), pg, n)
      ensures r == Done ==> (Valid() <==> n == 0 || old(sizes)[pg] % PGSIZE == 0)
      ensures r == Done && Valid() ==> View(Now()) == EagerGrow(View(old(Now())), pg, n)
      ensures r == NullTable || r == KernelPage ==>
                Now() == Reserved(old(Now()), pg, old(sizes)[pg] / PGSIZE, if r == NullTable then room else UPAGES)
                         .(sizes := old(sizes)[pg := old(sizes)[pg] + n])
    {
      if n < 0 || n % PGSIZE != 0 {
        return Refused, 0;
      }
      ghost var start := Now();
      if MmapOutcome(Now(), pg, n, room) == Done {
        MmapDone(Now(), pg, n);
      }
      addr := sizes[pg];
      sizes := sizes[pg := sizes[pg] + n];
      r := MarkPages(pg, addr, n, room, start);
    }

    /** sys_mmap's loop. */
    method MarkPages(pg: nat, addr: nat, n: nat, room: nat, ghost start: Sys) returns (r: MmapEnd)
      requires pg in start.sizes && start.sizes[pg] == addr && n % PGSIZE == 0 && addr <= KERNBASE
      requires Now() == start.(sizes := start.sizes[pg := addr + n])
      modifies this`ptes, this`tabs
      ensures r == MmapOutcome(start, pg, n, room)
      ensures r == Done ==> Now() == Mmapped(start, pg, n)
      ensures r == NullTable || r == KernelPage ==>
                Now() == Reserved(start, pg, addr / PGSIZE, if r == NullTable then room else UPAGES)
                         .(sizes := start.sizes[pg := addr + n])
    {
      var va := addr;
      ghost var v := addr / PGSIZE;
      MmapAt(addr, n, v);
      while va < addr + n
        invariant addr / PGSIZE <= v <= UPAGES && va == addr + (v - addr / PGSIZE) * PGSIZE
        invariant v <= addr / PGSIZE + n / PGSIZE && !(addr / PGSIZE <= room < v)
        invariant va < addr + n <==> v < addr / PGSIZE + n / PGSIZE
        invariant Now() == Reserved(start, pg, addr / PGSIZE, v).(sizes := start.sizes[pg := addr + n])
      {
        MmapAt(addr, n, v);
        if va / PGSIZE >= UPAGES {
          return KernelPage;
        }
        if va / PGSIZE == room {
          return NullTable;
        }
        ReservedSnoc(start, pg, addr / PGSIZE, v);
        tabs := tabs + {Tab((pg, va / PGSIZE))};
        ptes := ptes[(pg, va / PGSIZE) := Lazy];
        va, v := va + PGSIZE, v + 1;
        MmapAt(addr, n, v);
      }
      r := Done;
    }

    /**
     The page-fault branch of trap. A fault on a lazy page that finds a frame changes nothing anybody sees and takes a
     frame nobody maps; any other fault on a lazy page leaves it neither lazy nor present.
     */
    method Fault(pg: nat, va: nat) returns (r: FaultEnd)
      requires Frames(Now())
      modifies this`ptes, this`bytes, this`freelist, this`held, this`tabs
      ensures var k := (pg, va / PGSIZE);
              if k in old(ptes) && old(ptes)[k].Lazy? then
                Now() == Faulted(old(Now()), k) && r == if CanAlloc(old(Now()), k) then Fixed else Unfilled
              else r == Killed && Now() == old(Now())
      ensures Frames(Now()) && (old(Valid()) ==> (Valid() <==> r != Unfilled))
      ensures old(Valid()) && r == Fixed ==> View(Now()) == View(old(Now()))
    {
      var k := (pg, va / PGSIZE);
      assert k in ptes ==> FrameOk(Now(), k);
      if Tab(k) !in tabs {
        return Killed;
      }
      if !(k in ptes && ptes[k].Lazy?) {
        return Killed;
      }
      FaultFrames(Now(), k);
      if Valid() {
        FaultExactly(Now(), k);
      }
      r := Fill(k);
    }

    /** A frame for the page, and its mark taken off. */
    method Fill(k: Key) returns (r: FaultEnd)
      requires Frames(Now()) && k in ptes && ptes[k].Lazy?
      modifies this`ptes, this`bytes, this`freelist, this`held, this`tabs
      ensures Now() == Faulted(old(Now()), k) && r == if CanAlloc(old(Now()), k) then Fixed else Unfilled
    {
      OnePage(Now(), k, k.1 + 1);
      assert k == (k.0, k.1) && FrameOk(Now(), k);
      var base := k.1 * PGSIZE;
      var got := AllocUvm(k.0, base, base + PGSIZE, k.1 + 1);
      if ptes[k].Lazy? {
        ptes := ptes - {k};
        return Unfilled;
      }
      r := Fixed;
    }

    /**
     copyuvm into the directory `d` from setupkvm; there is no memory for the child's page table at page `room`. The
     path for lazy pages does not look at what walkpgdir returns.
     */
    method CopyUvm(pg: nat, d: nat, room: nat) returns (r: CopyEnd)
      requires Valid() && pg in sizes && d !in sizes
      modifies this
      ensures r == Whole ==>
                Now() == Forked(old(Now()), pg, d, PageUp(old(sizes)[pg])) &&
                Valid() && View(Now()) == EagerFork(View(old(Now())), pg, d)
      ensures r == Whole <==> CopyFits(old(Now()), pg, PageUp(old(sizes)[pg]), room)
      ensures r == Failed ==> Valid() && View(Now()) == View(old(Now()))
      ensures r == Failed ==> exists m: nat :: FailsAt(old(Now()), Now(), pg, d, m, room)
      ensures r == NoTable ==> Now() == Forked(old(Now()), pg, d, room)
      ensures r == NoTable <==> MeetsNull(old(Now()), pg, PageUp(old(sizes)[pg]), room)
    {
      ghost var start, n := Now(), PageUp(sizes[pg]);
      var sz := sizes[pg];
      sizes := sizes[d := sz];
      r := CopyPages(pg, d, sz, room, n, start);
      if r == Whole {
        ForkOk(start, pg, d);
      } else if r == Failed {
        ghost var m: nat :| FailsAt(start, Now(), pg, d, m, room);
        FailsOnly(start, Now(), pg, d, m, room);
      }
    }

    /** copyuvm's loop. */
    method CopyPages(pg: nat, d: nat, sz: nat, room: nat, ghost n: nat, ghost start: Sys) returns (r: CopyEnd)
      requires Inv(start) && pg in start.sizes && d !in start.sizes && start.sizes[pg] == sz && n == PageUp(sz)
      requires Now() == Opened(start, d, sz)
      modifies this
      ensures r == Whole ==> Now() == Forked(start, pg, d, n) && n <= room && CanFork(start, pg, d, n)
      ensures r == Failed ==> Valid() && View(Now()) == View(start)
      ensures r == Failed ==> exists m: nat :: FailsAt(start, Now(), pg, d, m, room)
      ensures r == NoTable ==> Now() == Forked(start, pg, d, room) && MeetsNull(start, pg, n, room)
    {
      var i := 0;
      ghost var v := 0;
      PagesBelow(v, sz);
      while i < sz
        invariant i == v * PGSIZE && v <= n && (i < sz <==> v < n) && v <= room
        invariant CanFork(start, pg, d, v) && Now() == Forked(start, pg, d, v)
      {
        r := CopyPage(pg, d, i / PGSIZE, room, start);
        if r != Whole {
          return;
        }
        i, v := i + PGSIZE, v + 1;
        PagesBelow(v, sz);
      }
      r := Whole;
    }

    /** One turn, with the error path. */
    method CopyPage(pg: nat, d: nat, page: nat, room: nat, ghost start: Sys) returns (r: CopyEnd)
      requires Inv(start) && CanFork(start, pg, d, page) && page < PageUp(start.sizes[pg]) && page <= room
      requires Now() == Forked(start, pg, d, page)
      modifies this
      ensures r == Whole ==> page < room && CanFork(start, pg, d, page + 1) && Now() == Forked(start, pg, d, page + 1)
      ensures r == Failed ==> FailsAt(start, Now(), pg, d, page, room) && Valid() && View(Now()) == View(start)
      ensures r == NoTable ==>
                page == room && Now() == old(Now()) && (pg, page) in start.ptes && start.ptes[(pg, page)].Lazy?
    {
      CopyTurn(start, pg, d, page);
      var e := ptes[(pg, page)];
      if e.Lazy? {
        if page == room {
          return NoTable;
        }
        tabs := tabs + {Tab((d, page))};
        ptes := ptes[(d, page) := Lazy];
        return Whole;
      }
      var got, mem := Kalloc();
      if !got || page == room {
        CopyFails(start, pg, d, page);
        if got {
          Kfree(mem);
        }
        FreeVm(d);
        return Failed;
      }
      bytes := bytes[mem := if e.frame in bytes then bytes[e.frame] else []];
      tabs := tabs + {Tab((d, page))};
      ptes := ptes[(d, page) := Present(mem)];
      held := held - {mem};
      r := Whole;
    }

    /** A store by user code to a present page. */
    method Store(k: Key, i: nat, b: int)
      requires Valid() && CanStore(Now(), k, i)
      modifies this`bytes
      ensures Valid() && Now() == Stored(old(Now()), k, i, b)
      ensures View(Now()) == EagerStore(View(old(Now())), k, i, b)
    {
      StoreOk(Now(), k, i, b);
      var f := ptes[k].frame;
      assert FrameOk(Now(), k);
      bytes := bytes[f := bytes[f][i := b]];
    }

    /** sys_numpp: the pages that have a frame. */
    method NumPp(pg: nat) returns (count: nat)
      requires Valid() && pg in sizes
      ensures count == |PresentPages(Now(), pg, PageUp(sizes[pg]))|
    {
      count := 0;
      var sz := sizes[pg];
      var addr := 0;
      ghost var v := 0;
      PagesBelow(v, sz);
      assert PresentPages(Now(), pg, 0) == {};
      while addr < sz
        invariant addr == v * PGSIZE && v <= PageUp(sz) && (addr < sz <==> v < PageUp(sz))
        invariant count == |PresentPages(Now(), pg, v)|
      {
        PageThere(Now(), pg, v);
        OneMorePresent(Now(), pg, v);
        if ptes[(pg, addr / PGSIZE)].Present? {
          count := count + 1;
        }
        addr, v := addr + PGSIZE, v + 1;
        PagesBelow(v, sz);
      }
    }
  }

  /** One more page of allocuvm's loop. */
  lemma GrowTurn(s: Sys, pg: nat, lo: nat, v: nat, hi: nat)
    requires Frames(s) && pg in s.sizes && Unmapped(s, pg, lo, hi) && lo <= v < hi <= UPAGES && v - lo <= |s.free|
    ensures var t := GrownTo(s, pg, lo, v);
            Frames(t) && |t.free| == |s.free| - (v - lo) &&
            (|t.free| > 0 ==>
               Frames(Taken(t)) && t.free[0] !in t.held && Mapped(t, (pg, v), ZeroPage()) == GrownTo(s, pg, lo, v + 1))
  {
    var t := GrownTo(s, pg, lo, v);
    GrownFrames(s, pg, lo, v);
    if |t.free| > 0 {
      TakenOk(t);
      assert t.free[0] in t.free;
      GrownSnoc(s, pg, lo, v);
    }
  }

  lemma {:induction false} GrownSnoc(s: Sys, pg: nat, lo: nat, hi: nat)
    requires lo <= hi && hi - lo < |s.free|
    ensures |GrownTo(s, pg, lo, hi).free| > 0
    ensures GrownTo(s, pg, lo, hi + 1) == Mapped(GrownTo(s, pg, lo, hi), (pg, hi), ZeroPage())
    decreases hi - lo
  {
    var t := Mapped(s, (pg, lo), ZeroPage());
    if lo < hi {
      GrownSnoc(t, pg, lo + 1, hi);
    } else {
      assert GrownTo(t, pg, lo + 1, hi + 1) == t;
    }
  }

  /** Pages of `pg` below `n` that have a frame. */
  ghost function PresentPages(s: Sys, pg: nat, n: nat): set<nat> {
    set v: nat | v < n && (pg, v) in s.ptes && s.ptes[(pg, v)].Present?
  }

  lemma OneMorePresent(s: Sys, pg: nat, n: nat)
    requires (pg, n) in s.ptes
    ensures |PresentPages(s, pg, n + 1)| == |PresentPages(s, pg, n)| + if s.ptes[(pg, n)].Present? then 1 else 0
  {
    if s.ptes[(pg, n)].Present? {
      assert PresentPages(s, pg, n + 1) == PresentPages(s, pg, n) + {n};
    } else {
      assert PresentPages(s, pg, n + 1) == PresentPages(s, pg, n);
    }
  }

  lemma OneMoreLazy(s: Sys, pg: nat, n: nat)
    requires (pg, n) in s.ptes
    ensures |LazyPages(s, pg, n + 1)| == |LazyPages(s, pg, n)| + if s.ptes[(pg, n)].Lazy? then 1 else 0
  {
    if s.ptes[(pg, n)].Lazy? {
      assert LazyPages(s, pg, n + 1) == LazyPages(s, pg, n) + {n};
    } else {
      assert LazyPages(s, pg, n + 1) == LazyPages(s, pg, n);
    }
  }

  /** Forking takes as many frames as the parent has present pages. */
  lemma {:induction false} PresentNeeded(s: Sys, pg: nat, n: nat)
    requires forall v: nat | v < n :: (pg, v) in s.ptes
    ensures |PresentPages(s, pg, n)| == Needed(s.ptes, pg, 0, n)
  {
    if n == 0 {
      assert PresentPages(s, pg, 0) == {};
    } else {
      PresentNeeded(s, pg, n - 1);
      OneMorePresent(s, pg, n - 1);
      NeededSnoc(s.ptes, pg, 0, n - 1);
    }
  }

  ghost function LazyPages(s: Sys, pg: nat, n: nat): set<nat> {
    set v: nat | v < n && (pg, v) in s.ptes && s.ptes[(pg, v)].Lazy?
  }

  lemma PageThere(s: Sys, pg: nat, v: nat)
    requires Inv(s) && pg in s.sizes && v < PageUp(s.sizes[pg])
    ensures (pg, v) in s.ptes
  {
    assert SizeOk(s, pg);
  }

  /** sys_numpp is short of the process's pages by those still lazy. */
  lemma PresentLess(s: Sys, pg: nat)
    requires Inv(s) && pg in s.sizes
    ensures var n := PageUp(s.sizes[pg]); |PresentPages(s, pg, n)| + |LazyPages(s, pg, n)| == n
  {
    assert SizeOk(s, pg);
    EitherKind(s, pg, PageUp(s.sizes[pg]));
  }

  lemma {:induction false} EitherKind(s: Sys, pg: nat, n: nat)
    requires forall v: nat | v < n :: (pg, v) in s.ptes
    ensures |PresentPages(s, pg, n)| + |LazyPages(s, pg, n)| == n
  {
    if n == 0 {
      assert PresentPages(s, pg, 0) == {} == LazyPages(s, pg, 0);
    } else {
      EitherKind(s, pg, n - 1);
      OneMorePresent(s, pg, n - 1);
      OneMoreLazy(s, pg, n - 1);
    }
  }
}
