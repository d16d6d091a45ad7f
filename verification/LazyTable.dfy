/** Lazily reserved pages (Activity B: sys_mmap, the page-fault branch of trap, copyuvm) over frames, as values. */
module LazyTable {
  import opened PageKeys

  /** A page table entry that is not empty: marked lazy, or present and naming a frame. */
  datatype Pte = Lazy | Present(frame: nat)

  /** Sizes of the processes, page tables, entries, frames, the free list, and frames used for anything else. */
  datatype Sys = Sys(
    sizes: map<nat, nat>,
    tabs: set<Table>,
    ptes: map<Key, Pte>,
    bytes: map<nat, Page>,
    free: seq<nat>,
    held: set<nat>)

  function Bytes(s: Sys, f: nat): Page {
    if f in s.bytes then s.bytes[f] else []
  }

  function ZeroPage(): Page {
    Zeros(PGSIZE)
  }

  // --- One page ---

  /** kalloc of a frame for page `k`, with its contents. */
  function Mapped(s: Sys, k: Key, page: Page): Sys
    requires |s.free| > 0
  {
    var g := s.free[0];
    s.(ptes := s.ptes[k := Present(g)], bytes := s.bytes[g := page], free := s.free[1..], tabs := s.tabs + {Tab(k)})
  }

  /** The entry made lazy: the present bit is cleared, whatever frame it named. */
  function Marked(s: Sys, k: Key): Sys {
    s.(ptes := s.ptes[k := Lazy], tabs := s.tabs + {Tab(k)})
  }

  /** deallocuvm for one page: only a present one is given back. */
  function Dropped(s: Sys, k: Key): Sys {
    if k in s.ptes && s.ptes[k].Present? then
      var f := s.ptes[k].frame;
      s.(ptes := s.ptes - {k}, bytes := s.bytes[f := Ones(PGSIZE)], free := [f] + s.free)
    else s
  }

  /** copyuvm for one page: a present one is copied, a lazy one stays lazy. */
  function Copied(s: Sys, k: Key, d: Key): Sys
    requires k in s.ptes && (s.ptes[k].Present? ==> |s.free| > 0)
  {
    if s.ptes[k].Present? then Mapped(s, d, Bytes(s, s.ptes[k].frame)) else Marked(s, d)
  }

  // --- What is kept ---

  ghost predicate FrameOk(s: Sys, k: Key)
    requires k in s.ptes
  {
    k.0 in s.sizes && k.1 < UPAGES && Tab(k) in s.tabs &&
    (s.ptes[k].Present? ==> s.ptes[k].frame in s.bytes && s.ptes[k].frame !in s.free && s.ptes[k].frame !in s.held)
  }

  /** No frame is mapped twice. */
  predicate Unshared(s: Sys, k: Key, q: Key)
    requires k in s.ptes && q in s.ptes
  {
    s.ptes[k].Present? && s.ptes[k] == s.ptes[q] ==> k == q
  }

  ghost predicate IsMapped(s: Sys, f: nat) {
    exists k :: k in s.ptes && s.ptes[k] == Present(f)
  }

  /** Every frame is free, used for something else, or mapped by one page; none is lost. */
  ghost predicate Frames(s: Sys) {
    (forall k | k in s.ptes :: FrameOk(s, k)) && (forall k, q | k in s.ptes && q in s.ptes :: Unshared(s, k, q)) &&
    Distinct(s.free) && (forall f | f in s.free :: f in s.bytes && f !in s.held) &&
    (forall f | f in s.held :: f in s.bytes) &&
    forall f | f in s.bytes :: f in s.free || f in s.held || IsMapped(s, f)
  }

  /** The pages below the size are present or lazy, and there are no others. */
  ghost predicate SizeOk(s: Sys, pg: nat)
    requires pg in s.sizes
  {
    s.sizes[pg] <= KERNBASE && forall v: nat :: (pg, v) in s.ptes <==> v < PageUp(s.sizes[pg])
  }

  ghost predicate Sized(s: Sys) {
    forall pg | pg in s.sizes :: SizeOk(s, pg)
  }

  ghost predicate Inv(s: Sys) {
    Frames(s) && Sized(s)
  }

  // --- What a process sees ---

  /** A lazy page reads as zeroes. */
  function Seen(s: Sys, k: Key): Page
    requires k in s.ptes
  {
    if s.ptes[k].Present? then Bytes(s, s.ptes[k].frame) else ZeroPage()
  }

  datatype Eager = Eager(sizes: map<nat, nat>, cells: map<Key, Page>)

  function View(s: Sys): (e: Eager)
    ensures e.sizes == s.sizes && forall k :: k in e.cells <==> k in s.ptes
    ensures forall k | k in s.ptes :: e.cells[k] == Seen(s, k)
  {
    Eager(s.sizes, map k | k in s.ptes :: Seen(s, k))
  }

  // --- One page at a time ---

  /** A page that had no entry gets a frame nobody maps. */
  lemma MappedOk(s: Sys, k: Key, page: Page)
    requires Frames(s) && |s.free| > 0 && (k in s.ptes ==> s.ptes[k].Lazy?) && k.0 in s.sizes && k.1 < UPAGES
    ensures Frames(Mapped(s, k, page)) && Mapped(s, k, page).ptes[k] == Present(s.free[0]) && !IsMapped(s, s.free[0])
    ensures View(Mapped(s, k, page)).cells == View(s).cells[k := page]
  {
    var g, t := s.free[0], Mapped(s, k, page);
    FreeTail(s.free);
    assert g in s.free;
    forall q | q in s.ptes && s.ptes[q].Present?
      ensures s.ptes[q].frame != g
    {
      assert FrameOk(s, q);
    }
    MappedFrames(s, k, page);
    MappedView(s, k, page);
  }

  lemma MappedView(s: Sys, k: Key, page: Page)
    requires |s.free| > 0 && forall q | q in s.ptes && s.ptes[q].Present? :: s.ptes[q].frame != s.free[0]
    ensures View(Mapped(s, k, page)).cells == View(s).cells[k := page]
  {
    assert View(Mapped(s, k, page)).cells == View(s).cells[k := page];
  }

  lemma MappedFrames(s: Sys, k: Key, page: Page)
    requires Frames(s) && |s.free| > 0 && (k in s.ptes ==> s.ptes[k].Lazy?) && k.0 in s.sizes && k.1 < UPAGES
    requires forall q | q in s.ptes && s.ptes[q].Present? :: s.ptes[q].frame != s.free[0]
    ensures Frames(Mapped(s, k, page))
  {
    var g, t := s.free[0], Mapped(s, k, page);
    FreeTail(s.free);
    assert g in s.free;
    forall q | q in t.ptes
      ensures FrameOk(t, q)
    {
      if q != k {
        assert FrameOk(s, q);
      }
    }
    forall p, q | p in t.ptes && q in t.ptes
      ensures Unshared(t, p, q)
    {
      if p != k && q != k {
        assert Unshared(s, p, q);
      }
    }
    forall f | f in t.bytes
      ensures f in t.free || f in t.held || IsMapped(t, f)
    {
      if f == g {
        assert t.ptes[k] == Present(f);
      } else if IsMapped(s, f) {
        var q :| q in s.ptes && s.ptes[q] == Present(f);
        assert t.ptes[q] == Present(f);
      }
    }
  }

  lemma MarkedOk(s: Sys, k: Key)
    requires Frames(s) && k !in s.ptes && k.0 in s.sizes && k.1 < UPAGES
    ensures Frames(Marked(s, k)) && View(Marked(s, k)).cells == View(s).cells[k := ZeroPage()]
  {
    var t := Marked(s, k);
    forall q | q in t.ptes
      ensures FrameOk(t, q)
    {
      if q != k {
        assert FrameOk(s, q);
      }
    }
    MarkedFrames(s, k);
    MarkedView(s, k);
  }

  lemma MarkedFrames(s: Sys, k: Key)
    requires Frames(s) && k !in s.ptes
    ensures var t := Marked(s, k);
            (forall p, q | p in t.ptes && q in t.ptes :: Unshared(t, p, q)) &&
            forall f | f in t.bytes :: f in t.free || f in t.held || IsMapped(t, f)
  {
    var t := Marked(s, k);
    forall p, q | p in t.ptes && q in t.ptes
      ensures Unshared(t, p, q)
    {
      if p != k && q != k {
        assert Unshared(s, p, q);
      }
    }
    forall f | f in t.bytes
      ensures f in t.free || f in t.held || IsMapped(t, f)
    {
      if IsMapped(s, f) {
        var q :| q in s.ptes && s.ptes[q] == Present(f);
        assert t.ptes[q] == Present(f);
      }
    }
  }

  lemma MarkedView(s: Sys, k: Key)
    ensures View(Marked(s, k)).cells == View(s).cells[k := ZeroPage()]
  {
    assert View(Marked(s, k)).cells == View(s).cells[k := ZeroPage()];
  }

  /** Marking a present page lazy loses its frame. */
  lemma MarkLoses(s: Sys, k: Key)
    requires Frames(s) && k in s.ptes && s.ptes[k].Present?
    ensures var t, f := Marked(s, k), s.ptes[k].frame;
            f in t.bytes && f !in t.free && f !in t.held && !IsMapped(t, f) && !Frames(t)
  {
    var t, f := Marked(s, k), s.ptes[k].frame;
    assert FrameOk(s, k);
    forall q | q in t.ptes
      ensures t.ptes[q] != Present(f)
    {
      if q != k {
        assert Unshared(s, k, q);
      }
    }
  }

  lemma DroppedOk(s: Sys, k: Key)
    requires Frames(s)
    ensures Frames(Dropped(s, k))
    ensures View(Dropped(s, k)).cells ==
            if k in s.ptes && s.ptes[k].Present? then View(s).cells - {k} else View(s).cells
  {
    if k in s.ptes && s.ptes[k].Present? {
      DropFrames(s, k);
      var t := Dropped(s, k);
      forall q | q in t.ptes
        ensures Seen(t, q) == Seen(s, q)
      {
        assert Unshared(s, k, q);
      }
      assert View(t).cells == View(s).cells - {k};
    }
  }

  lemma DropFrames(s: Sys, k: Key)
    requires Frames(s) && k in s.ptes && s.ptes[k].Present?
    ensures Frames(Dropped(s, k))
  {
    var t, f0 := Dropped(s, k), s.ptes[k].frame;
    assert FrameOk(s, k);
    FreeHead(s.free, f0);
    forall q | q in t.ptes
      ensures FrameOk(t, q)
    {
      assert FrameOk(s, q) && Unshared(s, k, q);
    }
    forall p, q | p in t.ptes && q in t.ptes
      ensures Unshared(t, p, q)
    {
      assert Unshared(s, p, q);
    }
    forall f | f in t.bytes
      ensures f in t.free || f in t.held || IsMapped(t, f)
    {
      if f != f0 && IsMapped(s, f) {
        var q :| q in s.ptes && s.ptes[q] == Present(f);
        assert t.ptes[q] == Present(f);
      }
    }
  }

  lemma CopiedOk(s: Sys, k: Key, d: Key)
    requires Frames(s) && k in s.ptes && (s.ptes[k].Present? ==> |s.free| > 0)
    requires d !in s.ptes && d.0 in s.sizes && d.1 < UPAGES
    ensures Frames(Copied(s, k, d)) && View(Copied(s, k, d)).cells == View(s).cells[d := View(s).cells[k]]
  {
    if s.ptes[k].Present? {
      MappedOk(s, d, Bytes(s, s.ptes[k].frame));
    } else {
      MarkedOk(s, d);
    }
  }

  // --- Loops ---

  /** make_mmap_pte over the pages [lo, hi) of `pg`. */
  function Reserved(s: Sys, pg: nat, lo: nat, hi: nat): Sys
    decreases hi - lo, pg
  {
    if lo >= hi then s else Reserved(Marked(s, (pg, lo)), pg, lo + 1, hi)
  }

  /** allocuvm over them, as long as there are frames. */
  function GrownTo(s: Sys, pg: nat, lo: nat, hi: nat): Sys
    decreases hi - lo, pg
  {
    if lo >= hi || |s.free| == 0 then s else GrownTo(Mapped(s, (pg, lo), ZeroPage()), pg, lo + 1, hi)
  }

  /** deallocuvm over them. */
  function Emptied(s: Sys, pg: nat, lo: nat, hi: nat): Sys
    decreases hi - lo, pg
  {
    if lo >= hi then s else Emptied(Dropped(s, (pg, lo)), pg, lo + 1, hi)
  }

  /** copyuvm over them, as long as there are pages and frames. */
  function CopiedAll(s: Sys, pg: nat, d: nat, lo: nat, hi: nat): Sys
    decreases hi - lo, pg
  {
    if lo >= hi || (pg, lo) !in s.ptes || (s.ptes[(pg, lo)].Present? && |s.free| == 0) then s
    else CopiedAll(Copied(s, (pg, lo), (d, lo)), pg, d, lo + 1, hi)
  }

  /** Present pages among [lo, hi) of `pg`. */
  function Needed(ptes: map<Key, Pte>, pg: nat, lo: nat, hi: nat): nat
    decreases hi - lo, pg
  {
    if lo >= hi then 0
    else (if (pg, lo) in ptes && ptes[(pg, lo)].Present? then 1 else 0) + Needed(ptes, pg, lo + 1, hi)
  }

  /** The pages [lo, hi) of `pg` are new and read as zeroes; every other page is as it was. */
  ghost predicate Extended(s: Sys, t: Sys, pg: nat, lo: nat, hi: nat) {
    t.sizes == s.sizes && t.held == s.held && (forall k :: k in t.ptes <==> k in s.ptes || Within(k, pg, lo, hi)) &&
    forall k | k in t.ptes :: Seen(t, k) == if k in s.ptes then Seen(s, k) else ZeroPage()
  }

  predicate NewPages(s: Sys, pg: nat, lo: nat, hi: nat) {
    forall v: nat | lo <= v < hi :: (pg, v) !in s.ptes
  }

  /** Nothing present among the pages [lo, hi) of `pg`. */
  predicate Unmapped(s: Sys, pg: nat, lo: nat, hi: nat) {
    forall v: nat | lo <= v < hi && (pg, v) in s.ptes :: s.ptes[(pg, v)].Lazy?
  }

  lemma OneExtended(s: Sys, t: Sys, k: Key)
    requires t.sizes == s.sizes && t.held == s.held && k !in s.ptes && View(t).cells == View(s).cells[k := ZeroPage()]
    ensures Extended(s, t, k.0, k.1, k.1 + 1)
  {
    forall q: Key
      ensures q in t.ptes <==> q in s.ptes || Within(q, k.0, k.1, k.1 + 1)
      ensures q in t.ptes ==> Seen(t, q) == if q in s.ptes then Seen(s, q) else ZeroPage()
    {
      assert q in t.ptes <==> q in View(t).cells;
      assert q == (q.0, q.1) && k == (k.0, k.1);
    }
  }

  lemma ExtendedOn(s: Sys, t: Sys, u: Sys, pg: nat, lo: nat, mid: nat, hi: nat)
    requires Extended(s, t, pg, lo, mid) && Extended(t, u, pg, mid, hi) && lo <= mid <= hi
    ensures Extended(s, u, pg, lo, hi)
  {
  }

  lemma {:induction false} ReservedOk(s: Sys, pg: nat, lo: nat, hi: nat)
    requires Frames(s) && pg in s.sizes && lo <= hi <= UPAGES && NewPages(s, pg, lo, hi)
    ensures var t := Reserved(s, pg, lo, hi); Frames(t) && Extended(s, t, pg, lo, hi) && t.free == s.free
    decreases hi - lo
  {
    if lo < hi {
      var k, t := (pg, lo), Marked(s, (pg, lo));
      MarkedOk(s, k);
      OneExtended(s, t, k);
      ReservedOk(t, pg, lo + 1, hi);
      ExtendedOn(s, t, Reserved(s, pg, lo, hi), pg, lo, lo + 1, hi);
    }
  }

  lemma GrowOne(s: Sys, pg: nat, lo: nat, hi: nat)
    requires Frames(s) && pg in s.sizes && lo < hi <= UPAGES && NewPages(s, pg, lo, hi) && |s.free| > 0
    ensures var t := Mapped(s, (pg, lo), ZeroPage());
            Frames(t) && Extended(s, t, pg, lo, lo + 1) && NewPages(t, pg, lo + 1, hi) && |t.free| == |s.free| - 1
  {
    MappedOk(s, (pg, lo), ZeroPage());
    OneExtended(s, Mapped(s, (pg, lo), ZeroPage()), (pg, lo));
  }

  lemma {:induction false} GrownFrames(s: Sys, pg: nat, lo: nat, hi: nat)
    requires Frames(s) && pg in s.sizes && lo <= hi <= UPAGES && Unmapped(s, pg, lo, hi) && hi - lo <= |s.free|
    ensures Frames(GrownTo(s, pg, lo, hi)) && |GrownTo(s, pg, lo, hi).free| == |s.free| - (hi - lo)
    decreases hi - lo
  {
    if lo < hi {
      MappedOk(s, (pg, lo), ZeroPage());
      GrownFrames(Mapped(s, (pg, lo), ZeroPage()), pg, lo + 1, hi);
    }
  }

  lemma GrownOk(s: Sys, pg: nat, lo: nat, hi: nat)
    requires Frames(s) && pg in s.sizes && lo <= hi <= UPAGES && NewPages(s, pg, lo, hi) && hi - lo <= |s.free|
    ensures Frames(GrownTo(s, pg, lo, hi)) && Extended(s, GrownTo(s, pg, lo, hi), pg, lo, hi)
  {
    GrownFrames(s, pg, lo, hi);
    GrownExtended(s, pg, lo, hi);
  }

  lemma {:induction false} GrownExtended(s: Sys, pg: nat, lo: nat, hi: nat)
    requires Frames(s) && pg in s.sizes && lo <= hi <= UPAGES && NewPages(s, pg, lo, hi) && hi - lo <= |s.free|
    ensures Extended(s, GrownTo(s, pg, lo, hi), pg, lo, hi)
    decreases hi - lo
  {
    if lo < hi {
      var t := Mapped(s, (pg, lo), ZeroPage());
      GrowOne(s, pg, lo, hi);
      GrownExtended(t, pg, lo + 1, hi);
      ExtendedOn(s, t, GrownTo(t, pg, lo + 1, hi), pg, lo, lo + 1, hi);
    }
  }

  /** The present pages of `pg` in [lo, hi) are gone; every other page, a lazy one there too, is as it was. */
  ghost predicate Less(s: Sys, t: Sys, pg: nat, lo: nat, hi: nat) {
    t.sizes == s.sizes && t.held == s.held && t.tabs == s.tabs &&
    (forall k :: k in t.ptes <==> k in s.ptes && !(Within(k, pg, lo, hi) && s.ptes[k].Present?)) &&
    forall k | k in t.ptes && k in s.ptes :: t.ptes[k] == s.ptes[k] && Seen(t, k) == Seen(s, k)
  }

  lemma OneLess(s: Sys, pg: nat, v: nat)
    requires Frames(s)
    ensures Frames(Dropped(s, (pg, v))) && Less(s, Dropped(s, (pg, v)), pg, v, v + 1)
  {
    DroppedOk(s, (pg, v));
    DroppedLess(s, pg, v);
  }

  lemma DroppedLess(s: Sys, pg: nat, v: nat)
    requires View(Dropped(s, (pg, v))).cells ==
             if (pg, v) in s.ptes && s.ptes[(pg, v)].Present? then View(s).cells - {(pg, v)} else View(s).cells
    ensures Less(s, Dropped(s, (pg, v)), pg, v, v + 1)
  {
    var t := Dropped(s, (pg, v));
    forall q: Key | q in t.ptes && q in s.ptes
      ensures t.ptes[q] == s.ptes[q] && Seen(t, q) == Seen(s, q)
    {
      assert View(t).cells[q] == View(s).cells[q];
    }
    forall q: Key
      ensures q in t.ptes <==> q in s.ptes && !(Within(q, pg, v, v + 1) && s.ptes[q].Present?)
    {
      assert q == (q.0, q.1);
    }
  }

  lemma LessOn(s: Sys, t: Sys, u: Sys, pg: nat, lo: nat, mid: nat, hi: nat)
    requires Less(s, t, pg, lo, mid) && Less(t, u, pg, mid, hi) && lo <= mid <= hi
    ensures Less(s, u, pg, lo, hi)
  {
  }

  lemma {:induction false} EmptiedOk(s: Sys, pg: nat, lo: nat, hi: nat)
    requires Frames(s) && lo <= hi
    ensures Frames(Emptied(s, pg, lo, hi)) && Less(s, Emptied(s, pg, lo, hi), pg, lo, hi)
    decreases hi - lo
  {
    if lo < hi {
      OneLess(s, pg, lo);
      EmptiedOk(Dropped(s, (pg, lo)), pg, lo + 1, hi);
      LessOn(s, Dropped(s, (pg, lo)), Emptied(s, pg, lo, hi), pg, lo, lo + 1, hi);
    }
  }

  /** `d` has a copy of the pages [lo, hi) of `pg`, lazy where the original is; every other page is as it was. */
  ghost predicate CopyOf(s: Sys, t: Sys, pg: nat, d: nat, lo: nat, hi: nat) {
    t.sizes == s.sizes && t.held == s.held && (forall k :: k in t.ptes <==> k in s.ptes || Within(k, d, lo, hi)) &&
    (forall k | k in s.ptes && k in t.ptes :: t.ptes[k] == s.ptes[k] && Seen(t, k) == Seen(s, k)) &&
    forall v: nat | lo <= v < hi :: PageCopied(s, t, pg, d, v)
  }

  predicate PageCopied(s: Sys, t: Sys, pg: nat, d: nat, v: nat) {
    (pg, v) in s.ptes && (d, v) in t.ptes && Seen(t, (d, v)) == Seen(s, (pg, v)) &&
    (t.ptes[(d, v)].Lazy? <==> s.ptes[(pg, v)].Lazy?)
  }

  /** The parent has the pages, and the child none of them yet. */
  predicate ToCopy(s: Sys, pg: nat, d: nat, v: nat) {
    (pg, v) in s.ptes && (d, v) !in s.ptes
  }

  lemma OneCopy(s: Sys, pg: nat, d: nat, v: nat)
    requires Frames(s) && ToCopy(s, pg, d, v) && (s.ptes[(pg, v)].Present? ==> |s.free| > 0)
    requires d in s.sizes && v < UPAGES
    ensures var t := Copied(s, (pg, v), (d, v));
            Frames(t) && CopyOf(s, t, pg, d, v, v + 1) &&
            |t.free| == |s.free| - if s.ptes[(pg, v)].Present? then 1 else 0
  {
    CopiedOk(s, (pg, v), (d, v));
    CopiedCopies(s, pg, d, v);
  }

  lemma CopiedCopies(s: Sys, pg: nat, d: nat, v: nat)
    requires ToCopy(s, pg, d, v) && (s.ptes[(pg, v)].Present? ==> |s.free| > 0)
    requires View(Copied(s, (pg, v), (d, v))).cells == View(s).cells[(d, v) := View(s).cells[(pg, v)]]
    ensures CopyOf(s, Copied(s, (pg, v), (d, v)), pg, d, v, v + 1)
  {
    var k, t := (d, v), Copied(s, (pg, v), (d, v));
    forall q: Key
      ensures q in t.ptes <==> q in s.ptes || Within(q, d, v, v + 1)
      ensures q in s.ptes ==> q in t.ptes && t.ptes[q] == s.ptes[q] && Seen(t, q) == Seen(s, q)
    {
      assert q == (q.0, q.1);
      if q in s.ptes {
        assert View(t).cells[q] == View(s).cells[q];
      }
    }
    assert View(t).cells[k] == View(s).cells[(pg, v)];
  }

  lemma CopyOn(s: Sys, t: Sys, u: Sys, pg: nat, d: nat, lo: nat, mid: nat, hi: nat)
    requires CopyOf(s, t, pg, d, lo, mid) && CopyOf(t, u, pg, d, mid, hi) && lo <= mid <= hi && pg != d
    requires forall v: nat | lo <= v < hi :: ToCopy(s, pg, d, v)
    ensures CopyOf(s, u, pg, d, lo, hi)
  {
    forall v: nat | lo <= v < hi
      ensures PageCopied(s, u, pg, d, v)
    {
      assert ToCopy(s, pg, d, v);
      if v < mid {
        assert PageCopied(s, t, pg, d, v);
      } else {
        assert PageCopied(t, u, pg, d, v);
      }
    }
  }

  lemma {:induction false} NeededSame(a: map<Key, Pte>, b: map<Key, Pte>, pg: nat, lo: nat, hi: nat)
    requires forall v: nat | lo <= v < hi :: (pg, v) in a && (pg, v) in b && a[(pg, v)] == b[(pg, v)]
    ensures Needed(a, pg, lo, hi) == Needed(b, pg, lo, hi)
    decreases hi - lo
  {
    if lo < hi {
      NeededSame(a, b, pg, lo + 1, hi);
    }
  }

  /** One page on, the rest is still to copy and there are frames for it. */
  lemma StillToCopy(s: Sys, pg: nat, d: nat, lo: nat, hi: nat)
    requires pg != d && lo < hi && Needed(s.ptes, pg, lo, hi) <= |s.free| && ToCopy(s, pg, d, lo)
    requires forall v: nat | lo <= v < hi :: ToCopy(s, pg, d, v)
    ensures s.ptes[(pg, lo)].Present? ==> |s.free| > 0
    ensures var t := Copied(s, (pg, lo), (d, lo));
            Needed(t.ptes, pg, lo + 1, hi) <= |t.free| && forall v: nat | lo + 1 <= v < hi :: ToCopy(t, pg, d, v)
  {
    var t := Copied(s, (pg, lo), (d, lo));
    forall v: nat | lo + 1 <= v < hi
      ensures ToCopy(t, pg, d, v) && s.ptes[(pg, v)] == t.ptes[(pg, v)]
    {
      assert ToCopy(s, pg, d, v);
    }
    NeededSame(s.ptes, t.ptes, pg, lo + 1, hi);
  }

  lemma {:induction false} CopiedAllOk(s: Sys, pg: nat, d: nat, lo: nat, hi: nat)
    requires Frames(s) && d in s.sizes && pg != d && lo <= hi <= UPAGES && Needed(s.ptes, pg, lo, hi) <= |s.free|
    requires forall v: nat | lo <= v < hi :: ToCopy(s, pg, d, v)
    ensures Frames(CopiedAll(s, pg, d, lo, hi)) && CopyOf(s, CopiedAll(s, pg, d, lo, hi), pg, d, lo, hi)
    decreases hi - lo
  {
    if lo < hi {
      assert ToCopy(s, pg, d, lo);
      StillToCopy(s, pg, d, lo, hi);
      OneCopy(s, pg, d, lo);
      CopiedAllOk(Copied(s, (pg, lo), (d, lo)), pg, d, lo + 1, hi);
      CopyOn(s, Copied(s, (pg, lo), (d, lo)), CopiedAll(s, pg, d, lo, hi), pg, d, lo, lo + 1, hi);
    }
  }
}
