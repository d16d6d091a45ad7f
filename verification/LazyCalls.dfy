/** Reserving, faulting, growing, shrinking and forking over lazy pages, call by call, against eager growth. */
module LazyCalls {
  import opened PageKeys
  import opened LazyTable

  // --- Whole calls ---

  /** sys_mmap: one page after another from the page of the old size on. */
  function Mmapped(s: Sys, pg: nat, n: nat): Sys
    requires pg in s.sizes
  {
    var sz := s.sizes[pg];
    Reserved(s, pg, sz / PGSIZE, sz / PGSIZE + n / PGSIZE).(sizes := s.sizes[pg := sz + n])
  }

  /** growproc by allocuvm, with a frame for every new page. */
  function Grown(s: Sys, pg: nat, n: nat): Sys
    requires pg in s.sizes
  {
    var sz := s.sizes[pg];
    GrownTo(s, pg, PageUp(sz), PageUp(sz + n)).(sizes := s.sizes[pg := sz + n])
  }

  /** The same when page `m` of the new ones cannot be mapped: allocuvm takes the others back, and then its frame. */
  function GrowFailed(s: Sys, pg: nat, n: nat, m: nat): Sys
    requires pg in s.sizes
  {
    var lo, hi := PageUp(s.sizes[pg]), PageUp(s.sizes[pg] + n);
    TakenBack(GrownTo(s, pg, lo, lo + m), pg, lo, hi)
  }

  /** The error paths of allocuvm: without a frame, or with one that could not be mapped. */
  function TakenBack(t: Sys, pg: nat, lo: nat, hi: nat): Sys {
    if |t.free| == 0 then Emptied(t, pg, lo, hi) else Given(Emptied(Taken(t), pg, lo, hi), t.free[0])
  }

  /**
   growproc by deallocuvm, which gives back present pages and does not look at lazy ones; a new size of 0 is taken for a
   failure, and the size stays.
   */
  function Shrunk(s: Sys, pg: nat, sz: nat): Sys
    requires pg in s.sizes
  {
    Emptied(s, pg, PageUp(sz), PageUp(s.sizes[pg])).(sizes := if sz == 0 then s.sizes else s.sizes[pg := sz])
  }

  /** The frame of allocuvm for one page: there is one, and the page does not end at KERNBASE. */
  predicate CanAlloc(s: Sys, k: Key) {
    |s.free| > 0 && (k.1 + 1) * PGSIZE < KERNBASE
  }

  /** The fault branch of trap: allocuvm for the page, and the lazy bit is cleared whatever came of it. */
  function Faulted(s: Sys, k: Key): Sys {
    if CanAlloc(s, k) then Mapped(s, k, ZeroPage()) else s.(ptes := s.ptes - {k})
  }

  function Opened(s: Sys, d: nat, sz: nat): Sys {
    s.(sizes := s.sizes[d := sz])
  }

  /** copyuvm of the first `n` pages into `d`. */
  function Forked(s: Sys, pg: nat, d: nat, n: nat): Sys
    requires pg in s.sizes
  {
    CopiedAll(Opened(s, d, s.sizes[pg]), pg, d, 0, n)
  }

  /** Page tables and directory go, and lazy entries with them. */
  function Closed(s: Sys, pg: nat): Sys {
    s.(ptes := (map k | k in s.ptes && k.0 != pg :: s.ptes[k]), tabs := (set tab | tab in s.tabs && tab.pg != pg),
       sizes := s.sizes - {pg})
  }

  /** freevm. */
  function Freed(s: Sys, pg: nat): Sys {
    Closed(Emptied(s, pg, 0, UPAGES), pg)
  }

  function Stored(s: Sys, k: Key, i: nat, b: int): Sys
    requires k in s.ptes && s.ptes[k].Present? && i < |Bytes(s, s.ptes[k].frame)|
  {
    var f := s.ptes[k].frame;
    s.(bytes := s.bytes[f := Bytes(s, f)[i := b]])
  }

  function Taken(s: Sys): Sys
    requires |s.free| > 0
  {
    s.(free := s.free[1..], held := s.held + {s.free[0]})
  }

  function Given(s: Sys, f: nat): Sys {
    s.(free := [f] + s.free, held := s.held - {f}, bytes := s.bytes[f := Ones(PGSIZE)])
  }

  /** A frame is taken and given back at once. */
  function Spilled(s: Sys): Sys {
    if |s.free| == 0 then s else Given(Taken(s), s.free[0])
  }

  /** copyuvm when page `n` cannot be mapped. */
  function ForkFailed(s: Sys, pg: nat, d: nat, n: nat): Sys
    requires pg in s.sizes
  {
    Freed(Spilled(Forked(s, pg, d, n)), d)
  }

  // --- Eager growth ---

  function EagerGrow(e: Eager, pg: nat, n: nat): Eager
    requires pg in e.sizes
  {
    var sz := e.sizes[pg];
    Eager(e.sizes[pg := sz + n],
          e.cells + map v: nat | PageUp(sz) <= v < PageUp(sz + n) :: (pg, v) := ZeroPage())
  }

  function EagerShrink(e: Eager, pg: nat, sz: nat): Eager {
    Eager(e.sizes[pg := sz], map k | k in e.cells && !(k.0 == pg && PageUp(sz) <= k.1) :: e.cells[k])
  }

  function EagerFork(e: Eager, pg: nat, d: nat): Eager
    requires pg in e.sizes
  {
    Eager(e.sizes[d := e.sizes[pg]],
          e.cells + map v: nat | v < PageUp(e.sizes[pg]) && (pg, v) in e.cells :: (d, v) := e.cells[(pg, v)])
  }

  function EagerFree(e: Eager, pg: nat): Eager {
    Eager(e.sizes - {pg}, map k | k in e.cells && k.0 != pg :: e.cells[k])
  }

  function EagerStore(e: Eager, k: Key, i: nat, b: int): Eager
    requires k in e.cells && i < |e.cells[k]|
  {
    e.(cells := e.cells[k := e.cells[k][i := b]])
  }

  // --- Each call ---

  lemma PagesSum(sz: nat, n: nat)
    requires n % PGSIZE == 0
    ensures sz % PGSIZE == 0 ==> PageUp(sz) == sz / PGSIZE && PageUp(sz + n) == sz / PGSIZE + n / PGSIZE
    ensures sz % PGSIZE != 0 ==> PageUp(sz) == sz / PGSIZE + 1 && PageUp(sz + n) == sz / PGSIZE + n / PGSIZE + 1
    ensures sz + n <= KERNBASE ==> PageUp(sz + n) <= UPAGES && sz / PGSIZE + n / PGSIZE <= UPAGES
  {
  }

  lemma UserPages(sz: nat)
    requires sz <= KERNBASE
    ensures PageUp(sz) <= UPAGES
  {
  }

  lemma PagesOrdered(a: nat, b: nat)
    requires a <= b
    ensures PageUp(a) <= PageUp(b)
  {
  }

  /** The pages above the size are new. */
  lemma AboveNew(s: Sys, pg: nat, hi: nat)
    requires Inv(s) && pg in s.sizes
    ensures NewPages(s, pg, PageUp(s.sizes[pg]), hi)
  {
    assert SizeOk(s, pg);
  }

  /** New pages up to the new size: what the process sees is eager growth. */
  lemma ExtendedGrows(s: Sys, t: Sys, u: Sys, pg: nat, n: nat)
    requires Inv(s) && pg in s.sizes && s.sizes[pg] + n <= KERNBASE && Frames(t)
    requires Extended(s, t, pg, PageUp(s.sizes[pg]), PageUp(s.sizes[pg] + n))
    requires u == t.(sizes := s.sizes[pg := s.sizes[pg] + n])
    ensures Inv(u) && View(u) == EagerGrow(View(s), pg, n)
  {
    var sz := s.sizes[pg];
    PagesOrdered(sz, sz + n);
    SizesKept(t, u);
    GrowsSized(s, t, u, pg, PageUp(sz), PageUp(sz + n));
    GrowsView(s, t, u, pg, n);
  }

  lemma GrowsSized(s: Sys, t: Sys, u: Sys, pg: nat, lo: nat, hi: nat)
    requires Sized(s) && pg in s.sizes && Extended(s, t, pg, lo, hi) && pg in u.sizes && u.sizes[pg] <= KERNBASE
    requires lo == PageUp(s.sizes[pg]) <= hi == PageUp(u.sizes[pg])
    requires u == t.(sizes := s.sizes[pg := u.sizes[pg]])
    ensures Sized(u)
  {
    forall p | p in u.sizes
      ensures SizeOk(u, p)
    {
      assert SizeOk(s, p);
    }
  }

  lemma GrowsView(s: Sys, t: Sys, u: Sys, pg: nat, n: nat)
    requires Sized(s) && pg in s.sizes && Extended(s, t, pg, PageUp(s.sizes[pg]), PageUp(s.sizes[pg] + n))
    requires u == t.(sizes := s.sizes[pg := s.sizes[pg] + n])
    ensures View(u) == EagerGrow(View(s), pg, n)
  {
    var e, lo, hi := EagerGrow(View(s), pg, n), PageUp(s.sizes[pg]), PageUp(s.sizes[pg] + n);
    forall k: Key
      ensures CellSame(u, e, k)
    {
      GrowCells(View(s), pg, n, k);
      GrowsCell(s, t, u, e, pg, lo, hi, k);
    }
    CellsSame(u, e);
  }

  predicate CellSame(s: Sys, e: Eager, k: Key) {
    (k in s.ptes <==> k in e.cells) && (k in s.ptes && k in e.cells ==> Seen(s, k) == e.cells[k])
  }

  lemma CellsSame(s: Sys, e: Eager)
    requires forall k :: CellSame(s, e, k)
    ensures View(s).cells == e.cells
  {
    forall k: Key
      ensures k in View(s).cells <==> k in e.cells
      ensures k in e.cells && k in s.ptes ==> View(s).cells[k] == e.cells[k]
    {
      assert CellSame(s, e, k);
    }
  }

  lemma GrowsCell(s: Sys, t: Sys, u: Sys, e: Eager, pg: nat, lo: nat, hi: nat, k: Key)
    requires pg in s.sizes && SizeOk(s, pg) && lo == PageUp(s.sizes[pg]) && Extended(s, t, pg, lo, hi)
    requires u.ptes == t.ptes && u.bytes == t.bytes
    requires k in e.cells <==> k in s.ptes || Within(k, pg, lo, hi)
    requires k in e.cells ==> e.cells[k] == if Within(k, pg, lo, hi) then ZeroPage() else View(s).cells[k]
    ensures CellSame(u, e, k)
  {
    assert k == (k.0, k.1);
    assert k in u.ptes ==> Seen(u, k) == Seen(t, k);
  }

  lemma GrowCells(e: Eager, pg: nat, n: nat, k: Key)
    requires pg in e.sizes
    ensures var lo, hi, cells := PageUp(e.sizes[pg]), PageUp(e.sizes[pg] + n), EagerGrow(e, pg, n).cells;
            (k in cells <==> k in e.cells || Within(k, pg, lo, hi)) &&
            (k in cells ==> cells[k] == if Within(k, pg, lo, hi) then ZeroPage() else e.cells[k])
  {
    assert k == (k.0, k.1);
  }

  /** Frames do not depend on the sizes of processes that exist. */
  lemma SizesKept(t: Sys, u: Sys)
    requires Frames(t) && u == t.(sizes := u.sizes) && forall pg | pg in t.sizes :: pg in u.sizes
    ensures Frames(u)
  {
    forall k | k in u.ptes
      ensures FrameOk(u, k)
    {
      assert FrameOk(t, k);
    }
    forall k, q | k in u.ptes && q in u.ptes
      ensures Unshared(u, k, q)
    {
      assert Unshared(t, k, q);
    }
    forall f | f in u.bytes
      ensures f in u.free || f in u.held || IsMapped(u, f)
    {
      if IsMapped(t, f) {
        var k :| k in t.ptes && t.ptes[k] == Present(f);
        assert u.ptes[k] == Present(f);
      }
    }
  }

  /**
   sys_mmap shows the process what eager growth would, when the size is a whole number of pages; otherwise, unless it
   asks for nothing, the pages do not fit the size afterwards.
   */
  lemma MmapExactly(s: Sys, pg: nat, n: nat)
    requires Inv(s) && pg in s.sizes && n % PGSIZE == 0 && s.sizes[pg] + n <= KERNBASE
    ensures Inv(Mmapped(s, pg, n)) <==> n == 0 || s.sizes[pg] % PGSIZE == 0
    ensures n == 0 || s.sizes[pg] % PGSIZE == 0 ==> View(Mmapped(s, pg, n)) == EagerGrow(View(s), pg, n)
  {
    if n == 0 || s.sizes[pg] % PGSIZE == 0 {
      MmapAligned(s, pg, n);
    } else {
      MmapUnaligned(s, pg, n);
    }
  }

  lemma MmapAligned(s: Sys, pg: nat, n: nat)
    requires Inv(s) && pg in s.sizes && n % PGSIZE == 0 && s.sizes[pg] + n <= KERNBASE
    requires n == 0 || s.sizes[pg] % PGSIZE == 0
    ensures Inv(Mmapped(s, pg, n)) && View(Mmapped(s, pg, n)) == EagerGrow(View(s), pg, n)
  {
    var sz := s.sizes[pg];
    var lo, hi := sz / PGSIZE, sz / PGSIZE + n / PGSIZE;
    PagesSum(sz, n);
    if n == 0 {
      assert Reserved(s, pg, lo, hi) == s;
      assert Extended(s, s, pg, PageUp(sz), PageUp(sz));
    } else {
      AboveNew(s, pg, hi);
      ReservedOk(s, pg, lo, hi);
    }
    ExtendedGrows(s, Reserved(s, pg, lo, hi), Mmapped(s, pg, n), pg, n);
  }

  lemma MmapUnaligned(s: Sys, pg: nat, n: nat)
    requires Inv(s) && pg in s.sizes && n % PGSIZE == 0 && n > 0 && s.sizes[pg] % PGSIZE != 0
    ensures !Inv(Mmapped(s, pg, n))
  {
    var lo, hi := s.sizes[pg] / PGSIZE, s.sizes[pg] / PGSIZE + n / PGSIZE;
    PagesSum(s.sizes[pg], n);
    ReservedKeys(s, pg, lo, hi, (pg, hi));
    assert SizeOk(s, pg) && (pg, hi) !in s.ptes;
    assert !SizeOk(Mmapped(s, pg, n), pg);
  }

  lemma {:induction false} ReservedKeys(s: Sys, pg: nat, lo: nat, hi: nat, k: Key)
    ensures k in Reserved(s, pg, lo, hi).ptes <==> k in s.ptes || Within(k, pg, lo, hi)
    ensures !Within(k, pg, lo, hi) && k in s.ptes ==> Reserved(s, pg, lo, hi).ptes[k] == s.ptes[k]
    decreases hi - lo
  {
    if lo < hi {
      ReservedKeys(Marked(s, (pg, lo)), pg, lo + 1, hi, k);
      assert k == (k.0, k.1);
    }
  }

  /** Then the page that holds the end of the process becomes lazy: what it held reads as zeroes. */
  lemma MmapHides(s: Sys, pg: nat, n: nat)
    requires Inv(s) && pg in s.sizes && n % PGSIZE == 0 && n > 0 && s.sizes[pg] % PGSIZE != 0
    ensures var k := (pg, s.sizes[pg] / PGSIZE);
            k in s.ptes && k in Mmapped(s, pg, n).ptes && Mmapped(s, pg, n).ptes[k] == Lazy
  {
    var lo, hi := s.sizes[pg] / PGSIZE, s.sizes[pg] / PGSIZE + n / PGSIZE;
    PagesSum(s.sizes[pg], n);
    assert SizeOk(s, pg);
    MarkedLazy(s, pg, lo, hi, lo);
  }

  lemma {:induction false} MarkedLazy(s: Sys, pg: nat, lo: nat, hi: nat, v: nat)
    requires lo <= v < hi
    ensures (pg, v) in Reserved(s, pg, lo, hi).ptes && Reserved(s, pg, lo, hi).ptes[(pg, v)] == Lazy
    decreases hi - lo
  {
    if lo < v {
      MarkedLazy(Marked(s, (pg, lo)), pg, lo + 1, hi, v);
    } else {
      ReservedKeys(Marked(s, (pg, lo)), pg, lo + 1, hi, (pg, v));
    }
  }

  /** allocuvm with frames for the first `m` new pages. */
  predicate CanGrow(s: Sys, pg: nat, n: nat, m: nat) {
    pg in s.sizes && s.sizes[pg] + n < KERNBASE && PageUp(s.sizes[pg]) + m <= PageUp(s.sizes[pg] + n) && m <= |s.free|
  }

  /** Pages that come with `n` more bytes. */
  function NewCount(sz: nat, n: nat): nat {
    PagesOrdered(sz, sz + n);
    PageUp(sz + n) - PageUp(sz)
  }

  lemma GrowOk(s: Sys, pg: nat, n: nat)
    requires Inv(s) && pg in s.sizes && CanGrow(s, pg, n, NewCount(s.sizes[pg], n))
    ensures Inv(Grown(s, pg, n)) && View(Grown(s, pg, n)) == EagerGrow(View(s), pg, n)
  {
    var sz := s.sizes[pg];
    PagesOrdered(sz, sz + n);
    UserPages(sz + n);
    AboveNew(s, pg, PageUp(sz + n));
    GrownOk(s, pg, PageUp(sz), PageUp(sz + n));
    ExtendedGrows(s, GrownTo(s, pg, PageUp(sz), PageUp(sz + n)), Grown(s, pg, n), pg, n);
  }

  lemma TakenOk(s: Sys)
    requires Frames(s) && |s.free| > 0
    ensures Frames(Taken(s)) && View(Taken(s)) == View(s)
  {
    var t := Taken(s);
    FreeTail(s.free);
    assert s.free[0] in s.free;
    forall k | k in t.ptes
      ensures FrameOk(t, k)
    {
      assert FrameOk(s, k);
    }
    StillMapped(s, t);
  }

  lemma GivenOk(s: Sys, f: nat)
    requires Frames(s) && f in s.held
    ensures Frames(Given(s, f)) && View(Given(s, f)) == View(s)
  {
    var t := Given(s, f);
    FreeHead(s.free, f);
    forall k | k in t.ptes
      ensures FrameOk(t, k) && Seen(t, k) == Seen(s, k)
    {
      assert FrameOk(s, k);
    }
    StillMapped(s, t);
    assert View(t).cells == View(s).cells;
  }

  lemma StillMapped(s: Sys, t: Sys)
    requires Frames(s) && t.ptes == s.ptes
    ensures forall k, q | k in t.ptes && q in t.ptes :: Unshared(t, k, q)
    ensures forall f :: IsMapped(s, f) <==> IsMapped(t, f)
  {
    forall k, q | k in t.ptes && q in t.ptes
      ensures Unshared(t, k, q)
    {
      assert Unshared(s, k, q);
    }
  }

  lemma SpilledOk(s: Sys)
    requires Frames(s)
    ensures Frames(Spilled(s)) && View(Spilled(s)) == View(s) && Spilled(s).ptes == s.ptes && Spilled(s).held == s.held
  {
    if |s.free| > 0 {
      TakenOk(s);
      GivenOk(Taken(s), s.free[0]);
      assert Spilled(s).held == s.held;
    }
  }

  lemma GrowFailedOk(s: Sys, pg: nat, n: nat, m: nat)
    requires Inv(s) && CanGrow(s, pg, n, m)
    ensures Inv(GrowFailed(s, pg, n, m)) && View(GrowFailed(s, pg, n, m)) == View(s)
  {
    var lo, hi := PageUp(s.sizes[pg]), PageUp(s.sizes[pg] + n);
    UserPages(s.sizes[pg] + n);
    AboveNew(s, pg, hi);
    GrowFailedAt(s, pg, lo, lo + m, hi);
    assert GrowFailed(s, pg, n, m) == TakenBack(GrownTo(s, pg, lo, lo + m), pg, lo, hi);
  }

  lemma GrowFailedAt(s: Sys, pg: nat, lo: nat, mid: nat, hi: nat)
    requires Frames(s) && Sized(s) && pg in s.sizes && lo <= mid <= hi <= UPAGES && mid - lo <= |s.free|
    requires NewPages(s, pg, lo, hi)
    ensures var u := TakenBack(GrownTo(s, pg, lo, mid), pg, lo, hi); Inv(u) && View(u) == View(s)
  {
    GrownOk(s, pg, lo, mid);
    NewPresent(s, pg, lo, mid);
    TakeBack(s, GrownTo(s, pg, lo, mid), pg, lo, mid, hi);
  }

  lemma TakeBack(s: Sys, t: Sys, pg: nat, lo: nat, mid: nat, hi: nat)
    requires Sized(s) && Frames(t) && Extended(s, t, pg, lo, mid) && lo <= mid <= hi && NewPages(s, pg, lo, hi)
    requires forall v: nat | lo <= v < mid :: (pg, v) in t.ptes && t.ptes[(pg, v)].Present?
    ensures Inv(TakenBack(t, pg, lo, hi)) && View(TakenBack(t, pg, lo, hi)) == View(s)
  {
    var u := TakenBack(t, pg, lo, hi);
    if |t.free| == 0 {
      EmptiedOk(t, pg, lo, hi);
      WereNew(s, t, t, u, pg, lo, mid, hi);
    } else {
      TakenOk(t);
      EmptiedOk(Taken(t), pg, lo, hi);
      var w := Emptied(Taken(t), pg, lo, hi);
      WereNew(s, t, Taken(t), w, pg, lo, mid, hi);
      GivenOk(w, t.free[0]);
      SizedView(w, u);
    }
  }

  /** Processes that see the same have sizes in step alike. */
  lemma SizedView(s: Sys, t: Sys)
    requires Sized(s) && View(t) == View(s)
    ensures Sized(t)
  {
    assert forall k :: k in t.ptes <==> k in View(t).cells;
    forall p | p in t.sizes
      ensures SizeOk(t, p)
    {
      assert SizeOk(s, p);
    }
  }

  /** Same sizes, pages and contents. */
  lemma SameView(s: Sys, t: Sys)
    requires Sized(s) && t.sizes == s.sizes && forall k :: k in t.ptes <==> k in s.ptes
    requires forall k | k in t.ptes :: Seen(t, k) == Seen(s, k)
    ensures Sized(t) && View(t) == View(s)
  {
    forall p | p in t.sizes
      ensures SizeOk(t, p)
    {
      assert SizeOk(s, p);
    }
    assert View(t).cells == View(s).cells;
  }

  /** allocuvm's pages are present. */
  lemma {:induction false} NewPresent(s: Sys, pg: nat, lo: nat, hi: nat)
    requires lo <= hi && hi - lo <= |s.free|
    ensures forall v: nat | lo <= v < hi ::
              (pg, v) in GrownTo(s, pg, lo, hi).ptes && GrownTo(s, pg, lo, hi).ptes[(pg, v)].Present?
    ensures forall k | k in s.ptes && !Within(k, pg, lo, hi) ::
              k in GrownTo(s, pg, lo, hi).ptes && GrownTo(s, pg, lo, hi).ptes[k] == s.ptes[k]
    decreases hi - lo
  {
    if lo < hi {
      NewPresent(Mapped(s, (pg, lo), ZeroPage()), pg, lo + 1, hi);
    }
  }

  lemma WereNew(s: Sys, t: Sys, u: Sys, w: Sys, pg: nat, lo: nat, mid: nat, hi: nat)
    requires Sized(s) && Extended(s, t, pg, lo, mid) && Less(u, w, pg, lo, hi) && lo <= mid <= hi
    requires u.ptes == t.ptes && u.bytes == t.bytes && u.sizes == t.sizes && NewPages(s, pg, lo, hi)
    requires forall v: nat | lo <= v < mid :: (pg, v) in t.ptes && t.ptes[(pg, v)].Present?
    ensures Sized(w) && View(w) == View(s)
  {
    forall k: Key
      ensures k in w.ptes <==> k in s.ptes
      ensures k in w.ptes && k in s.ptes ==> Seen(w, k) == Seen(s, k)
    {
      assert k == (k.0, k.1);
      assert k in u.ptes ==> Seen(u, k) == Seen(t, k);
    }
    SameView(s, w);
  }

  /** Every page of `pg` in [lo, hi) is present. */
  ghost predicate NoLazy(s: Sys, pg: nat, lo: nat, hi: nat) {
    forall v: nat | lo <= v < hi && (pg, v) in s.ptes :: s.ptes[(pg, v)].Present?
  }

  /** None is. */
  ghost predicate OnlyLazy(s: Sys, pg: nat, lo: nat, hi: nat) {
    forall v: nat | lo <= v < hi && (pg, v) in s.ptes :: s.ptes[(pg, v)].Lazy?
  }

  /** No page given up is lazy; or everything is to go and all of it is lazy, so that nothing does. */
  ghost predicate CanShrink(s: Sys, pg: nat, sz: nat)
    requires pg in s.sizes
  {
    if sz > 0 then NoLazy(s, pg, PageUp(sz), PageUp(s.sizes[pg])) else OnlyLazy(s, pg, 0, PageUp(s.sizes[pg]))
  }

  /**
   Shrinking keeps pages and size in step exactly then, and what the process has left is what eager growth has left.
   */
  lemma ShrinkExactly(s: Sys, pg: nat, sz: nat)
    requires Inv(s) && pg in s.sizes && sz <= s.sizes[pg]
    ensures Inv(Shrunk(s, pg, sz)) <==> CanShrink(s, pg, sz)
    ensures CanShrink(s, pg, sz) ==>
              View(Shrunk(s, pg, sz)) == if sz > 0 then EagerShrink(View(s), pg, sz) else View(s)
  {
    var lo, hi := PageUp(sz), PageUp(s.sizes[pg]);
    PagesOrdered(sz, s.sizes[pg]);
    EmptiedOk(s, pg, lo, hi);
    var t, u := Emptied(s, pg, lo, hi), Shrunk(s, pg, sz);
    SizesKept(t, u);
    assert SizeOk(s, pg);
    if CanShrink(s, pg, sz) {
      if sz > 0 {
        ShrinkView(s, t, u, pg, sz);
      } else {
        SameView(s, u);
      }
    } else {
      var v: nat :| lo <= v < hi && (pg, v) in s.ptes && s.ptes[(pg, v)].Present? == (sz == 0);
      assert (pg, v) in u.ptes <==> sz > 0;
      assert !SizeOk(u, pg);
    }
  }

  lemma ShrinkView(s: Sys, t: Sys, u: Sys, pg: nat, sz: nat)
    requires Inv(s) && pg in s.sizes && sz <= s.sizes[pg] && NoLazy(s, pg, PageUp(sz), PageUp(s.sizes[pg]))
    requires Less(s, t, pg, PageUp(sz), PageUp(s.sizes[pg])) && u == t.(sizes := s.sizes[pg := sz])
    ensures Sized(u) && View(u) == EagerShrink(View(s), pg, sz)
  {
    PagesOrdered(sz, s.sizes[pg]);
    assert SizeOk(s, pg);
    ShrinkKeys(s, t, pg, PageUp(sz), PageUp(s.sizes[pg]));
    ShrinkSized(s, u, pg, sz);
    forall k: Key
      ensures CellSame(u, EagerShrink(View(s), pg, sz), k)
    {
      if k in u.ptes {
        assert Seen(t, k) == Seen(s, k) && Seen(u, k) == Seen(t, k);
      }
    }
    CellsSame(u, EagerShrink(View(s), pg, sz));
  }

  lemma ShrinkKeys(s: Sys, t: Sys, pg: nat, lo: nat, hi: nat)
    requires Less(s, t, pg, lo, hi) && NoLazy(s, pg, lo, hi) && forall v: nat :: (pg, v) in s.ptes <==> v < hi
    ensures forall k :: k in t.ptes <==> k in s.ptes && !(k.0 == pg && lo <= k.1)
  {
    forall k: Key
      ensures k in t.ptes <==> k in s.ptes && !(k.0 == pg && lo <= k.1)
    {
      assert k == (k.0, k.1);
    }
  }

  lemma ShrinkSized(s: Sys, u: Sys, pg: nat, sz: nat)
    requires Sized(s) && pg in s.sizes && sz <= s.sizes[pg] && u.sizes == s.sizes[pg := sz]
    requires forall k :: k in u.ptes <==> k in s.ptes && !(k.0 == pg && PageUp(sz) <= k.1)
    ensures Sized(u)
  {
    PagesOrdered(sz, s.sizes[pg]);
    forall p | p in u.sizes
      ensures SizeOk(u, p)
    {
      assert SizeOk(s, p);
    }
  }

  /** A lazy page that was given up can still be touched: the fault makes it present above the size. */
  lemma StaleFault(s: Sys, pg: nat, sz: nat, v: nat)
    requires Inv(s) && pg in s.sizes && sz <= s.sizes[pg] && PageUp(sz) <= v < PageUp(s.sizes[pg])
    requires sz > 0 && (pg, v) in s.ptes && s.ptes[(pg, v)].Lazy? && CanAlloc(Shrunk(s, pg, sz), (pg, v))
    ensures var k, t := (pg, v), Faulted(Shrunk(s, pg, sz), (pg, v));
            v >= PageUp(t.sizes[pg]) && k in t.ptes && t.ptes[k].Present? && Seen(t, k) == ZeroPage()
  {
  }

  /**
   With a frame, the fault gives the page one nobody maps and changes nothing anybody sees; it keeps pages and size in
   step exactly then.
   */
  lemma FaultExactly(s: Sys, k: Key)
    requires Inv(s) && k in s.ptes && s.ptes[k].Lazy?
    ensures Inv(Faulted(s, k)) <==> CanAlloc(s, k)
    ensures CanAlloc(s, k) ==>
              View(Faulted(s, k)) == View(s) && Faulted(s, k).ptes == s.ptes[k := Present(s.free[0])] &&
              !IsMapped(s, s.free[0])
  {
    assert FrameOk(s, k) && SizeOk(s, k.0) && k == (k.0, k.1);
    if CanAlloc(s, k) {
      MappedOk(s, k, ZeroPage());
      var t := Faulted(s, k);
      assert View(t).cells == View(s).cells;
      forall p | p in t.sizes
        ensures SizeOk(t, p)
      {
        assert SizeOk(s, p);
      }
    } else {
      assert !SizeOk(Faulted(s, k), k.0);
    }
  }

  // --- fork ---

  /** copyuvm with frames for the first `n` pages. */
  predicate CanFork(s: Sys, pg: nat, d: nat, n: nat) {
    pg in s.sizes && d !in s.sizes && n <= PageUp(s.sizes[pg]) && Needed(s.ptes, pg, 0, n) <= |s.free|
  }

  lemma OpenedOk(s: Sys, d: nat, sz: nat)
    requires Inv(s) && d !in s.sizes
    ensures Frames(Opened(s, d, sz)) && (sz == 0 ==> Inv(Opened(s, d, sz)))
    ensures forall k | k in s.ptes :: k.0 != d
  {
    var t := Opened(s, d, sz);
    SizesKept(s, t);
    forall k | k in s.ptes
      ensures k.0 != d
    {
      assert FrameOk(s, k);
    }
    if sz == 0 {
      forall p | p in t.sizes
        ensures SizeOk(t, p)
      {
        if p != d {
          assert SizeOk(s, p);
        }
      }
    }
  }

  lemma ForkCopies(s: Sys, pg: nat, d: nat, n: nat)
    requires Inv(s) && CanFork(s, pg, d, n)
    ensures Frames(Forked(s, pg, d, n)) && CopyOf(Opened(s, d, s.sizes[pg]), Forked(s, pg, d, n), pg, d, 0, n)
  {
    var o := Opened(s, d, s.sizes[pg]);
    OpenedOk(s, d, s.sizes[pg]);
    assert SizeOk(s, pg);
    UserPages(s.sizes[pg]);
    forall v: nat | v < n
      ensures ToCopy(o, pg, d, v)
    {
    }
    CopiedAllOk(o, pg, d, 0, n);
  }

  lemma ForkCells(e: Eager, pg: nat, d: nat, k: Key)
    requires pg in e.sizes
    ensures var cells, hi := EagerFork(e, pg, d).cells, PageUp(e.sizes[pg]);
            (k in cells <==> k in e.cells || (Within(k, d, 0, hi) && (pg, k.1) in e.cells)) &&
            (k in cells ==>
               cells[k] == if Within(k, d, 0, hi) && (pg, k.1) in e.cells then e.cells[(pg, k.1)] else e.cells[k])
  {
    assert k == (k.0, k.1);
  }

  /** fork gives the child the contents of every page, in frames of its own. */
  lemma ForkOk(s: Sys, pg: nat, d: nat)
    requires Inv(s) && pg in s.sizes && CanFork(s, pg, d, PageUp(s.sizes[pg]))
    ensures var t := Forked(s, pg, d, PageUp(s.sizes[pg])); Inv(t) && View(t) == EagerFork(View(s), pg, d)
  {
    var n := PageUp(s.sizes[pg]);
    var o, t := Opened(s, d, s.sizes[pg]), Forked(s, pg, d, n);
    OpenedOk(s, d, s.sizes[pg]);
    ForkCopies(s, pg, d, n);
    ForkSized(s, o, t, pg, d, n);
    ForkView(s, o, t, pg, d);
  }

  lemma ForkSized(s: Sys, o: Sys, t: Sys, pg: nat, d: nat, n: nat)
    requires Sized(s) && pg in s.sizes && d !in s.sizes && o == Opened(s, d, s.sizes[pg]) && CopyOf(o, t, pg, d, 0, n)
    requires n == PageUp(s.sizes[pg]) && forall k | k in s.ptes :: k.0 != d
    ensures Sized(t)
  {
    assert SizeOk(s, pg);
    forall p | p in t.sizes
      ensures SizeOk(t, p)
    {
      if p != d {
        assert SizeOk(s, p);
      }
    }
  }

  lemma ForkView(s: Sys, o: Sys, t: Sys, pg: nat, d: nat)
    requires Sized(s) && pg in s.sizes && d !in s.sizes && o == Opened(s, d, s.sizes[pg])
    requires CopyOf(o, t, pg, d, 0, PageUp(s.sizes[pg])) && forall k | k in s.ptes :: k.0 != d
    ensures View(t) == EagerFork(View(s), pg, d)
  {
    assert SizeOk(s, pg);
    var e := EagerFork(View(s), pg, d);
    forall k: Key
      ensures CellSame(t, e, k)
    {
      ForkCells(View(s), pg, d, k);
      ForkCell(s, o, t, e, pg, d, PageUp(s.sizes[pg]), k);
    }
    CellsSame(t, e);
  }

  lemma ForkCell(s: Sys, o: Sys, t: Sys, e: Eager, pg: nat, d: nat, n: nat, k: Key)
    requires o.ptes == s.ptes && o.bytes == s.bytes && CopyOf(o, t, pg, d, 0, n) && (k in s.ptes ==> k.0 != d)
    requires k in e.cells <==> k in s.ptes || (Within(k, d, 0, n) && (pg, k.1) in s.ptes)
    requires k in e.cells ==>
               e.cells[k] ==
               if Within(k, d, 0, n) && (pg, k.1) in s.ptes then View(s).cells[(pg, k.1)] else View(s).cells[k]
    ensures CellSame(t, e, k)
  {
    assert k == (k.0, k.1);
    if Within(k, d, 0, n) {
      assert PageCopied(o, t, pg, d, k.1);
      assert Seen(o, (pg, k.1)) == Seen(s, (pg, k.1));
    }
    if k in s.ptes {
      assert Seen(o, k) == Seen(s, k);
    }
  }

  // --- freevm ---

  lemma ClosedOk(s: Sys, pg: nat)
    requires Frames(s) && forall k | k in s.ptes && k.0 == pg :: s.ptes[k].Lazy?
    ensures Frames(Closed(s, pg)) && View(Closed(s, pg)) == EagerFree(View(s), pg)
  {
    var t := Closed(s, pg);
    forall k | k in t.ptes
      ensures FrameOk(t, k)
    {
      assert FrameOk(s, k);
    }
    forall k, q | k in t.ptes && q in t.ptes
      ensures Unshared(t, k, q)
    {
      assert Unshared(s, k, q);
    }
    forall f | f in t.bytes
      ensures f in t.free || f in t.held || IsMapped(t, f)
    {
      if IsMapped(s, f) {
        var q :| q in s.ptes && s.ptes[q] == Present(f);
        assert t.ptes[q] == Present(f);
      }
    }
    assert View(t).cells == EagerFree(View(s), pg).cells;
  }

  /** Every frame of the address space comes back, and nobody else's page changes. */
  lemma FreedOk(s: Sys, pg: nat)
    requires Frames(s)
    ensures Frames(Freed(s, pg)) && View(Freed(s, pg)) == EagerFree(View(s), pg)
    ensures forall k | k in Freed(s, pg).ptes :: k.0 != pg
  {
    var t := Emptied(s, pg, 0, UPAGES);
    EmptiedOk(s, pg, 0, UPAGES);
    forall k | k in t.ptes && k.0 == pg
      ensures t.ptes[k].Lazy?
    {
      assert FrameOk(s, k);
    }
    ClosedOk(t, pg);
    FreedView(s, t, Freed(s, pg), pg);
  }

  lemma FreedView(s: Sys, t: Sys, u: Sys, pg: nat)
    requires Less(s, t, pg, 0, UPAGES) && View(u) == EagerFree(View(t), pg)
    ensures View(u) == EagerFree(View(s), pg) && forall k | k in u.ptes :: k.0 != pg
  {
    var e := EagerFree(View(s), pg);
    forall k: Key
      ensures CellSame(u, e, k) && (k in u.ptes ==> k.0 != pg)
    {
      assert k in u.ptes <==> k in View(u).cells;
      if k in u.ptes {
        assert View(u).cells[k] == View(t).cells[k];
      }
    }
    CellsSame(u, e);
  }

  lemma FreeOk(s: Sys, pg: nat)
    requires Inv(s)
    ensures Inv(Freed(s, pg)) && View(Freed(s, pg)) == EagerFree(View(s), pg)
  {
    FreedOk(s, pg);
    var t := Freed(s, pg);
    assert forall k :: k in t.ptes <==> k in View(t).cells;
    forall p | p in t.sizes
      ensures SizeOk(t, p)
    {
      assert SizeOk(s, p);
    }
  }

  /** A fork that fails at any page leaves every process as it was. */
  lemma ForkFailedOk(s: Sys, pg: nat, d: nat, n: nat)
    requires Inv(s) && CanFork(s, pg, d, n)
    ensures Inv(ForkFailed(s, pg, d, n)) && View(ForkFailed(s, pg, d, n)) == View(s)
  {
    var o, t := Opened(s, d, s.sizes[pg]), Forked(s, pg, d, n);
    OpenedOk(s, d, s.sizes[pg]);
    ForkCopies(s, pg, d, n);
    SpilledOk(t);
    FreedOk(Spilled(t), d);
    ForkTakenBack(s, o, t, ForkFailed(s, pg, d, n), pg, d, n);
  }

  lemma ForkTakenBack(s: Sys, o: Sys, t: Sys, u: Sys, pg: nat, d: nat, n: nat)
    requires Sized(s) && d !in s.sizes && pg in s.sizes && o == Opened(s, d, s.sizes[pg])
    requires CopyOf(o, t, pg, d, 0, n) && View(u) == EagerFree(View(t), d) && forall k | k in s.ptes :: k.0 != d
    ensures Sized(u) && View(u) == View(s)
  {
    assert u.sizes == s.sizes;
    forall k: Key
      ensures k in u.ptes <==> k in s.ptes
      ensures k in u.ptes && k in s.ptes ==> Seen(u, k) == Seen(s, k)
    {
      assert k in u.ptes <==> k in View(u).cells;
      if k in u.ptes && k in s.ptes {
        assert View(u).cells[k] == View(t).cells[k] && Seen(o, k) == Seen(s, k);
      }
    }
    SameView(s, u);
  }

  // --- Stores ---

  predicate CanStore(s: Sys, k: Key, i: nat) {
    k in s.ptes && s.ptes[k].Present? && i < |Bytes(s, s.ptes[k].frame)|
  }

  lemma StoreOk(s: Sys, k: Key, i: nat, b: int)
    requires Inv(s) && CanStore(s, k, i)
    ensures Inv(Stored(s, k, i, b)) && View(Stored(s, k, i, b)) == EagerStore(View(s), k, i, b)
  {
    var t := Stored(s, k, i, b);
    StoreFrames(s, k, i, b);
    forall q: Key
      ensures CellSame(t, EagerStore(View(s), k, i, b), q)
    {
    }
    CellsSame(t, EagerStore(View(s), k, i, b));
    forall p | p in t.sizes
      ensures SizeOk(t, p)
    {
      assert SizeOk(s, p);
    }
  }

  /** The frame stored to is nobody else's. */
  lemma StoreFrames(s: Sys, k: Key, i: nat, b: int)
    requires Frames(s) && CanStore(s, k, i)
    ensures Frames(Stored(s, k, i, b))
    ensures forall q | q in s.ptes :: Seen(Stored(s, k, i, b), q) == if q == k then Seen(s, k)[i := b] else Seen(s, q)
  {
    var t := Stored(s, k, i, b);
    assert FrameOk(s, k);
    forall q | q in t.ptes
      ensures FrameOk(t, q) && Seen(t, q) == if q == k then Seen(s, k)[i := b] else Seen(s, q)
    {
      assert FrameOk(s, q) && Unshared(s, k, q);
    }
    StillMapped(s, t);
  }
}
