/** When sys_mmap, sbrk and the fault answer what, in terms of the sizes and of the calls the machine allows. */
module LazyAnswers {
  import opened PageKeys
  import opened LazyTable
  import opened LazyCalls
  import opened LazyMachine
  import opened LazyCode

  /** There is no page table, and no memory for one, for a page among [lo, hi). */
  predicate NoTableFor(room: nat, lo: nat, hi: nat) {
    lo <= room < hi
  }

  /**
   sys_mmap refuses exactly a negative amount or one that is no whole number of pages. What the machine allows it grants
   if page tables are to be had; from a size of whole pages it grants nothing else.
   */
  lemma MmapAnswers(s: Sys, pg: nat, n: int, room: nat)
    requires Inv(s) && pg in s.sizes
    ensures MmapOutcome(s, pg, n, room) == Refused <==> n < 0 || n % 4096 != 0
    ensures n >= 0 && Enabled(s, Mmap(pg, n)) && !NoTableFor(room, s.sizes[pg] / 4096, (s.sizes[pg] + n) / 4096) ==>
              MmapOutcome(s, pg, n, room) == Done && Apply(s, Mmap(pg, n)).sizes[pg] == s.sizes[pg] + n
    ensures s.sizes[pg] % 4096 == 0 ==>
              (MmapOutcome(s, pg, n, room) == Done <==>
                 n >= 0 && Enabled(s, Mmap(pg, n)) &&
                 !NoTableFor(room, s.sizes[pg] / 4096, (s.sizes[pg] + n) / 4096))
  {
    assert SizeOk(s, pg);
    if n >= 0 && n % PGSIZE == 0 {
      WholePages(s.sizes[pg], n);
    }
  }

  lemma WholePages(sz: nat, n: nat)
    requires n % 4096 == 0
    ensures sz / 4096 + n / 4096 == (sz + n) / 4096
    ensures sz + n <= KERNBASE ==> (sz + n) / 4096 <= UPAGES
    ensures sz % 4096 == 0 && (sz + n) / 4096 <= UPAGES ==> sz + n <= KERNBASE
  {
  }

  /**
   growproc for a positive amount succeeds exactly when the machine can grow so far and page tables are to be had; the
   size is then larger by the amount, and otherwise as it was.
   */
  lemma GrowAnswers(s: Sys, pg: nat, n: nat, room: nat)
    requires Inv(s) && pg in s.sizes && n > 0
    ensures GrowprocRuns(s, pg, n, room) <==>
              Enabled(s, Grow(pg, n)) && !NoTableFor(room, PageUp(s.sizes[pg]), PageUp(s.sizes[pg] + n))
    ensures pg in AfterGrowproc(s, pg, n, room).sizes
    ensures AfterGrowproc(s, pg, n, room).sizes[pg] ==
            if GrowprocRuns(s, pg, n, room) then s.sizes[pg] + n else s.sizes[pg]
    ensures GrowprocRuns(s, pg, n, room) ==> AfterGrowproc(s, pg, n, room) == Apply(s, Grow(pg, n))
  {
    var sz := s.sizes[pg];
    PagesOrdered(sz, sz + n);
    if !GrowprocRuns(s, pg, n, room) && sz + n < KERNBASE {
      var m := Gets(s, PageUp(sz), PageUp(sz + n), room);
      GrowFailedOk(s, pg, n, m);
      assert View(GrowFailed(s, pg, n, m)).sizes == View(s).sizes;
    }
  }

  /**
   For a negative one: within the size it succeeds exactly when something is left, and the size then follows; beyond the
   size it wraps round and answers yes, changing nothing, unless the size is 0.
   */
  lemma ShrinkAnswers(s: Sys, pg: nat, n: int, room: nat)
    requires Inv(s) && pg in s.sizes && n < 0
    ensures s.sizes[pg] + n >= 0 ==>
              Enabled(s, Shrink(pg, s.sizes[pg] + n)) &&
              AfterGrowproc(s, pg, n, room) == Apply(s, Shrink(pg, s.sizes[pg] + n)) &&
              (GrowprocRuns(s, pg, n, room) <==> s.sizes[pg] + n > 0)
    ensures s.sizes[pg] + n < 0 ==>
              AfterGrowproc(s, pg, n, room) == s && (GrowprocRuns(s, pg, n, room) <==> s.sizes[pg] > 0)
    ensures pg in AfterGrowproc(s, pg, n, room).sizes
    ensures s.sizes[pg] + n >= 0 ==>
              AfterGrowproc(s, pg, n, room).sizes[pg] ==
              if GrowprocRuns(s, pg, n, room) then s.sizes[pg] + n else s.sizes[pg]
  {
    if s.sizes[pg] + n >= 0 {
      EmptiedOk(s, pg, PageUp(s.sizes[pg] + n), PageUp(s.sizes[pg])) by {
        PagesOrdered(s.sizes[pg] + n, s.sizes[pg]);
      }
    }
  }

  /** A fault on a lazy page is served exactly when the machine lets it go smoothly; on any other page it kills. */
  lemma FaultAnswers(s: Sys, k: Key)
    requires Inv(s)
    ensures k in s.ptes && s.ptes[k].Lazy? <==> Enabled(s, Fault(k))
    ensures Enabled(s, Fault(k)) ==> (Smooth(s, Fault(k)) <==> |s.free| > 0 && (k.1 + 1) * 4096 < KERNBASE)
    ensures Enabled(s, Fault(k)) && Smooth(s, Fault(k)) ==>
              k in Apply(s, Fault(k)).ptes && Apply(s, Fault(k)).ptes[k] == Present(s.free[0])
  {
  }

  /**
   A store that eager growth would take goes to a present page, or faults on a lazy one and then goes there if a frame
   can be had; without one the page is gone.
   */
  lemma StoreAnswers(s: Sys, k: Key, i: nat)
    requires Inv(s) && k in View(s).cells && i < |View(s).cells[k]|
    ensures Enabled(s, Store(k, i, 0)) <==> !Enabled(s, Fault(k))
    ensures Enabled(s, Fault(k)) && |s.free| > 0 && (k.1 + 1) * 4096 < KERNBASE ==>
              Enabled(Apply(s, Fault(k)), Store(k, i, 0)) && View(Apply(s, Fault(k))) == View(s)
    ensures Enabled(s, Fault(k)) && !(|s.free| > 0 && (k.1 + 1) * 4096 < KERNBASE) ==>
              k !in View(Apply(s, Fault(k))).cells
  {
    if Enabled(s, Fault(k)) && Smooth(s, Fault(k)) {
      Step(s, Fault(k));
    }
  }
}
