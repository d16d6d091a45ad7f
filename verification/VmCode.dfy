/** The page table code of vm.c over the free list of kalloc.c. */
module VmCode {
  import opened VmPages
  import opened VmCounts

  const KERNBASE: nat := 0x8000_0000
  const PTE_W_U: nat := 6
  const PTE_ALL: nat := 7

  /** One entry of kmap: `n` pages from page `v` on, showing frames from `frame` on. */
  datatype Region = Region(v: nat, n: nat, frame: nat, flags: nat)

  predicate RegionOk(r: Region) {
    UPAGES <= r.v && r.n >= 1 && r.v + r.n <= NPAGES
  }

  predicate Beside(r: Region, q: Region) {
    r.v + r.n <= q.v || q.v + q.n <= r.v
  }

  predicate KmapOk(kmap: seq<Region>) {
    (forall i | 0 <= i < |kmap| :: RegionOk(kmap[i])) &&
    (forall i, j | 0 <= i < j < |kmap| :: Beside(kmap[i], kmap[j]))
  }

  function PageUp(sz: nat): nat {
    (sz + PGSIZE - 1) / PGSIZE
  }

  /** The directory with tables for pages [lo, hi). */
  function WithTabs(dir: Entries, lo: nat, hi: nat): Entries {
    seq<Pte>(1024, d requires 0 <= d < 1024 => if Covers(d, lo, hi) then Pte(0, 0) else dir[d])
  }

  /** Page tables the regions from the k-th on take. */
  function KernelNeeds(dir: Entries, kmap: seq<Region>, k: nat): nat
    requires k <= |kmap| && forall i | 0 <= i < |kmap| :: RegionOk(kmap[i])
    decreases |kmap| - k
  {
    if k == |kmap| then 0
    else
      var r := kmap[k];
      assert RegionOk(r);
      MoreTabs(dir, r.v, r.v + r.n) + KernelNeeds(WithTabs(dir, r.v, r.v + r.n), kmap, k + 1)
  }

  /** The same entries have tables. */
  ghost predicate SameTabs(a: Entries, b: Entries) {
    forall d: nat | d < NENTRIES :: TabAt(a, b, d, false)
  }

  lemma {:induction false} NeedsSame(a: Entries, b: Entries, kmap: seq<Region>, k: nat)
    requires k <= |kmap| && (forall i | 0 <= i < |kmap| :: RegionOk(kmap[i])) && SameTabs(a, b)
    ensures KernelNeeds(a, kmap, k) == KernelNeeds(b, kmap, k)
    decreases |kmap| - k
  {
    if k < |kmap| {
      var lo, hi := kmap[k].v, kmap[k].v + kmap[k].n;
      assert RegionOk(kmap[k]);
      forall d: nat | lo / NENTRIES <= d < (hi - 1) / NENTRIES + 1
        ensures TabAt(a, b, d, false)
      {
      }
      MissingSame(a, b, lo / NENTRIES, (hi - 1) / NENTRIES + 1);
      forall d: nat | d < NENTRIES
        ensures TabAt(WithTabs(a, lo, hi), WithTabs(b, lo, hi), d, false)
      {
        assert TabAt(a, b, d, false);
      }
      NeedsSame(WithTabs(a, lo, hi), WithTabs(b, lo, hi), kmap, k + 1);
    }
  }

  /** One region less to come, and what it took less to spend. */
  lemma RegionPaid(was: Means, now: Means, kmap: seq<Region>, k: nat, ok: bool)
    requires k < |kmap| && (forall i | 0 <= i < |kmap| :: RegionOk(kmap[i]))
    requires kmap[k].v + kmap[k].n <= NPAGES && RunDone(was, now, kmap[k].v, kmap[k].v + kmap[k].n, ok)
    ensures ok ==> KernelNeeds(now.dir, kmap, k + 1) - now.frames == KernelNeeds(was.dir, kmap, k) - was.frames
    ensures !ok ==> KernelNeeds(was.dir, kmap, k) > was.frames
    ensures ok && LowFree(was.dir) ==> LowFree(now.dir)
  {
    var lo, hi := kmap[k].v, kmap[k].v + kmap[k].n;
    assert RegionOk(kmap[k]);
    if ok {
      forall d: nat | d < NENTRIES
        ensures TabAt(WithTabs(was.dir, lo, hi), now.dir, d, false)
        ensures LowFree(was.dir) && d < UPAGES / NENTRIES ==> now.dir[d].Absent?
      {
        assert TabAt(was.dir, now.dir, d, Covers(d, lo, hi));
      }
      NeedsSame(WithTabs(was.dir, lo, hi), now.dir, kmap, k + 1);
    }
  }

  /** No table for user pages. */
  ghost predicate LowFree(dir: Entries) {
    forall d: nat | d < UPAGES / NENTRIES :: dir[d].Absent?
  }

  lemma {:induction false} MissingAll(dir: Entries, a: nat, b: nat)
    requires LowFree(dir) && a <= b <= UPAGES / NENTRIES
    ensures Missing(dir, a, b) == b - a
    decreases b - a
  {
    if a < b {
      MissingAll(dir, a + 1, b);
    }
  }

  /** A new address space needs a frame for each page and one for every 1024 of them. */
  lemma FreshCost(dir: Entries, n: nat)
    requires LowFree(dir) && n <= UPAGES
    ensures Cost(dir, 0, n) == n + (n + 1023) / 1024
  {
    if n > 0 {
      MissingAll(dir, 0, (n - 1) / NENTRIES + 1);
    }
  }

  lemma PageBelow(v: nat, sz: nat)
    ensures v * PGSIZE < sz <==> v < PageUp(sz)
  {
  }

  lemma UserPages(sz: nat)
    requires sz <= KERNBASE
    ensures PageUp(sz) <= UPAGES
  {
  }

  lemma PagesUser(oldsz: nat, newsz: nat)
    requires oldsz <= newsz < KERNBASE
    ensures PageUp(oldsz) <= PageUp(newsz) <= UPAGES
  {
  }

  function Min(a: nat, b: nat): nat {
    if a < b then a else b
  }

  function Zeros(): (p: seq<int>)
    ensures |p| == 4096 && forall i | 0 <= i < 4096 :: p[i] == 0
  {
    seq(PGSIZE, i => 0)
  }

  /** User pages keep their bytes. */
  ghost predicate SameData(mem: Memory, owner: Owner, now: Memory) {
    forall f {:trigger DataAt(now, f)} | f in owner && owner[f].User? :: DataAt(now, f) == DataAt(mem, f)
  }

  function DataAt(mem: Memory, f: nat): Content {
    if f in mem then mem[f] else Junk
  }

  /** All that was added for address space `pg` are page tables and the user pages [lo, hi). */
  ghost predicate GrownBy(owner: Owner, now: Owner, pg: nat, lo: nat, hi: nat) {
    (forall f | f in owner :: f in now && now[f] == owner[f]) &&
    (forall f | f in now && f !in owner :: now[f].pg == pg && (now[f].Tab? || (now[f].User? && lo <= now[f].v < hi)))
  }

  /** Every entry but those of `pg` in [lo, hi) is the same. */
  ghost predicate SameOutside(mem: Memory, now: Memory, spaces: set<nat>, pg: nat, lo: nat, hi: nat) {
    forall q, w: nat {:trigger Lookup(now, q, w)} | q in spaces && w < NPAGES && !(q == pg && lo <= w < hi) ::
      Lookup(now, q, w) == Lookup(mem, q, w)
  }

  ghost predicate SameLookups(mem: Memory, now: Memory, spaces: set<nat>) {
    forall pg, v: nat {:trigger Lookup(now, pg, v)} | pg in spaces && v < NPAGES ::
      Lookup(now, pg, v) == Lookup(mem, pg, v)
  }

  /** `n` pages from `v` on map the frames from `frame` on. */
  ghost predicate MappedRun(mem: Memory, pg: nat, v: nat, n: nat, frame: nat, flags: nat) {
    forall w: nat | v <= w < v + n && w < NPAGES :: Lookup(mem, pg, w) == Pte(frame + (w - v), flags)
  }

  lemma OutsideOn(a: Memory, b: Memory, c: Memory, spaces: set<nat>, pg: nat, lo: nat, mid: nat)
    requires SameOutside(a, b, spaces, pg, lo, mid) && SameOutside(b, c, spaces, pg, mid, mid + 1) && lo <= mid
    ensures SameOutside(a, c, spaces, pg, lo, mid + 1)
    ensures mid < NPAGES && pg in spaces && Lookup(c, pg, mid) == Lookup(b, pg, mid) ==>
              SameOutside(a, c, spaces, pg, lo, mid)
  {
  }

  lemma RunOn(mem: Memory, now: Memory, spaces: set<nat>, pg: nat, v: nat, k: nat, frame: nat, flags: nat)
    requires MappedRun(mem, pg, v, k, frame, flags) && pg in spaces && v + k < NPAGES
    requires SameOutside(mem, now, spaces, pg, v + k, v + k + 1) && Lookup(now, pg, v + k) == Pte(frame + k, flags)
    ensures MappedRun(now, pg, v, k + 1, frame, flags)
  {
  }

  lemma HeldFree(free: seq<nat>, owner: Owner, total: set<nat>, held: nat)
    requires Shared(free, owner, total - {held}) && 0 !in total
    ensures held !in owner
  {
    assert held !in total - {held};
  }

  /** The user pages [lo, hi) of `pg` gave up their frames; every other role is as before. */
  ghost predicate UsersDropped(owner: Owner, now: Owner, pg: nat, lo: nat, hi: nat) {
    forall f :: (f in now <==> f in owner && !(owner[f].User? && owner[f].pg == pg && lo <= owner[f].v < hi)) &&
                (f in now && f in owner ==> now[f] == owner[f])
  }

  /** User pages keep their entries and bytes from one region to the next. */
  lemma KernelOn(a: Memory, b: Memory, c: Memory, first: Owner, own: Owner, spaces: set<nat>, pg: nat)
    requires SameOutside(a, b, spaces, pg, UPAGES, NPAGES) && SameData(a, first, b) && GrownBy(first, own, pg, 0, 0)
    requires SameOutside(b, c, spaces, pg, UPAGES, NPAGES) && SameData(b, own, c)
    ensures SameOutside(a, c, spaces, pg, UPAGES, NPAGES) && SameData(a, first, c)
  {
  }

  /** What it means to the other pages that one is taken away. */
  lemma PageGone(mem: Memory, owner: Owner, spaces: set<nat>, pg: nat, v: nat, f: nat)
    requires Owned(mem, owner, spaces) && pg in spaces && v < UPAGES && Lookup(mem, pg, v).Pte?
    requires f == Lookup(mem, pg, v).frame
    ensures f in owner && owner[f] == User(pg, v)
    ensures var now := WithPte(mem, pg, v, Absent)[f := Junk];
            Owned(now, owner - {f}, spaces) && SameOutside(mem, now, spaces, pg, v, v + 1) &&
            Lookup(now, pg, v).Absent? &&
            UsersDropped(owner, owner - {f}, pg, v, v + 1) && SameData(mem, owner - {f}, now) &&
            forall h | h !in owner :: DataAt(now, h) == DataAt(mem, h)
  {
    UnmapOwned(mem, owner, spaces, pg, v);
    PteWritten(mem, owner, spaces, pg, v, Absent);
    assert NameOwned(mem, owner, spaces, Tab(pg, v / NENTRIES));
    var cut := WithPte(mem, pg, v, Absent);
    SameEntries(cut, cut[f := Junk], owner - {f}, spaces);
    OnlyUser(mem, owner, spaces, pg, v, f);
  }

  /** No other role has the frame of the page. */
  lemma OnlyUser(mem: Memory, owner: Owner, spaces: set<nat>, pg: nat, v: nat, f: nat)
    requires Owned(mem, owner, spaces) && f in owner && owner[f] == User(pg, v)
    requires pg in spaces && v < UPAGES && Lookup(mem, pg, v).Pte? && f == Lookup(mem, pg, v).frame
    ensures UsersDropped(owner, owner - {f}, pg, v, v + 1)
  {
    forall g | g in owner && owner[g] == User(pg, v)
      ensures g == f
    {
      assert OwnerNames(mem, owner, spaces, g);
    }
  }

  /** A missing page table: the pages it would cover are unmapped, and own nothing. */
  lemma SkipTable(mem: Memory, owner: Owner, spaces: set<nat>, pg: nat, v: nat, was: Owner, lo: nat)
    requires Owned(mem, owner, spaces) && pg in spaces && v < UPAGES && EntriesAt(mem, pg)[v / NENTRIES].Absent?
    requires UsersDropped(was, owner, pg, lo, v)
    ensures forall w: nat | v <= w < (v / NENTRIES + 1) * NENTRIES :: Lookup(mem, pg, w).Absent?
    ensures forall hi: nat | v <= hi <= (v / NENTRIES + 1) * NENTRIES :: UsersDropped(was, owner, pg, lo, hi)
  {
    forall w: nat | v <= w < (v / NENTRIES + 1) * NENTRIES
      ensures Lookup(mem, pg, w).Absent?
    {
      assert w / NENTRIES == v / NENTRIES;
    }
    forall f | f in owner
      ensures owner[f].User? && owner[f].pg == pg ==> !(v <= owner[f].v < (v / NENTRIES + 1) * NENTRIES)
    {
      assert OwnerNames(mem, owner, spaces, f);
    }
  }

  /** Page `v` shows a frame that was in nobody's use before, with the given contents, user-writable. */
  ghost predicate Fresh(was: Owner, owner: Owner, mem: Memory, pg: nat, v: nat, c: Content) {
    v < UPAGES && Lookup(mem, pg, v).Pte? && FreshFrame(was, owner, mem, pg, v, Lookup(mem, pg, v).frame, c)
  }

  predicate FreshFrame(was: Owner, owner: Owner, mem: Memory, pg: nat, v: nat, f: nat, c: Content) {
    f !in was && f in owner && owner[f] == User(pg, v) && DataAt(mem, f) == c
  }

  lemma GrowOn(a: Owner, b: Owner, c: Owner, pg: nat, lo: nat, mid: nat, hi: nat)
    requires GrownBy(a, b, pg, lo, mid) && GrownBy(b, c, pg, mid, hi) && lo <= mid <= hi
    ensures GrownBy(a, c, pg, lo, hi)
  {
  }

  /** The pages [lo, hi) of `pg` are there, with zeroed frames of their own; every other page is as it was. */
  ghost predicate Grown(
    was: Memory, had: Owner, mem: Memory, owner: Owner, spaces: set<nat>, pg: nat, lo: nat, hi: nat)
  {
    SameOutside(was, mem, spaces, pg, lo, hi) && SameData(was, had, mem) && GrownBy(had, owner, pg, lo, hi) &&
    forall v: nat | lo <= v < hi :: Fresh(had, owner, mem, pg, v, Data(Zeros())) && Lookup(mem, pg, v).flags == 6
  }

  /** Pages mapped earlier are not disturbed by the next one. */
  lemma FreshKept(first: Owner, had: Owner, was: Memory, owner: Owner, mem: Memory, spaces: set<nat>, pg: nat, lo: nat,
                  v: nat)
    requires forall w: nat | lo <= w < v :: Fresh(first, had, was, pg, w, Data(Zeros()))
    requires pg in spaces && SameOutside(was, mem, spaces, pg, v, v + 1) && SameData(was, had, mem)
    requires GrownBy(first, had, pg, lo, v) && GrownBy(had, owner, pg, v, v + 1)
    requires Fresh(had, owner, mem, pg, v, Data(Zeros()))
    ensures forall w: nat | lo <= w < v + 1 :: Fresh(first, owner, mem, pg, w, Data(Zeros()))
  {
    forall w: nat | lo <= w < v + 1
      ensures Fresh(first, owner, mem, pg, w, Data(Zeros()))
    {
      if w < v {
        assert Fresh(first, had, was, pg, w, Data(Zeros()));
      }
    }
  }

  /** Filling a frame nobody uses changes no entry and no user page. */
  lemma Filled(mem: Memory, owner: Owner, spaces: set<nat>, pg: nat, f: nat, c: Content)
    requires Owned(mem, owner, spaces) && f !in owner && pg in spaces
    ensures var now := mem[f := c];
            Owned(now, owner, spaces) && SameLookups(mem, now, spaces) && SameData(mem, owner, now) &&
            EntriesAt(now, pg) == EntriesAt(mem, pg)
  {
    SameEntries(mem, mem[f := c], owner, spaces);
  }

  lemma FilledOn(mem: Memory, owner: Owner, mid: Memory, now: Memory, spaces: set<nat>, pg: nat, v: nat)
    requires SameLookups(mem, mid, spaces) && SameData(mem, owner, mid) && pg in spaces && v < NPAGES
    requires SameOutside(mid, now, spaces, pg, v, v + 1) && SameData(mid, owner, now)
    ensures SameOutside(mem, now, spaces, pg, v, v + 1) && SameData(mem, owner, now)
    ensures Lookup(now, pg, v) == Lookup(mid, pg, v) ==> SameLookups(mem, now, spaces)
  {
    if Lookup(now, pg, v) == Lookup(mid, pg, v) {
      forall q, w: nat | q in spaces && w < NPAGES
        ensures Lookup(now, q, w) == Lookup(mem, q, w)
      {
        assert Lookup(mid, q, w) == Lookup(mem, q, w);
      }
    }
  }

  lemma GrownOn(was: Memory, had: Owner, cur: Memory, own: Owner, mem: Memory, owner: Owner, spaces: set<nat>, pg: nat,
                lo: nat, v: nat)
    requires Grown(was, had, cur, own, spaces, pg, lo, v) && pg in spaces && lo <= v
    requires SameOutside(cur, mem, spaces, pg, v, v + 1) && SameData(cur, own, mem)
    requires GrownBy(own, owner, pg, v, v + 1) && Fresh(own, owner, mem, pg, v, Data(Zeros()))
    requires Lookup(mem, pg, v).flags == 6
    ensures Grown(was, had, mem, owner, spaces, pg, lo, v + 1)
  {
    GrowOn(had, own, owner, pg, lo, v, v + 1);
    FreshKept(had, own, cur, owner, mem, spaces, pg, lo, v);
  }

  /** Dropping the user pages that were added leaves page tables as the only growth. */
  lemma GrowthUndone(was: Memory, had: Owner, spaces: set<nat>, held: Owner, now: Owner, pg: nat, lo: nat, hi: nat,
                     v: nat)
    requires Owned(was, had, spaces) && pg in spaces && v <= hi < NPAGES
    requires GrownBy(had, held, pg, lo, v) && UsersDropped(held, now, pg, lo, hi)
    requires forall w: nat | lo <= w < hi :: Lookup(was, pg, w).Absent?
    ensures GrownBy(had, now, pg, 0, 0)
  {
    forall f | f in had
      ensures f in now && now[f] == had[f]
    {
      assert OwnerNames(was, had, spaces, f);
    }
  }

  /** The tables under the first `i` directory entries of `pg` gave up their frames. */
  ghost predicate TablesLeft(was: Owner, now: Owner, pg: nat, i: nat) {
    forall f :: (f in now <==> f in was && !(was[f].Tab? && was[f].pg == pg && was[f].d < i)) &&
                (f in now && f in was ==> now[f] == was[f])
  }

  lemma NoTable(mem: Memory, owner: Owner, spaces: set<nat>, pg: nat, i: nat, now: Owner)
    requires Owned(mem, owner, spaces) && pg in spaces && i < NENTRIES && EntriesAt(mem, pg)[i].Absent?
    requires TablesLeft(owner, now, pg, i)
    ensures TablesLeft(owner, now, pg, i + 1)
  {
    forall f | f in owner
      ensures owner[f] != Tab(pg, i)
    {
      assert OwnerNames(mem, owner, spaces, f);
    }
  }

  lemma OnlyDir(mem: Memory, owner: Owner, spaces: set<nat>, pg: nat, now: Owner)
    requires Owned(mem, owner, spaces) && pg in spaces && TablesLeft(owner, now, pg, NENTRIES)
    requires forall f | f in owner && owner[f].pg == pg :: !owner[f].User?
    ensures pg in now && now[pg] == Dir(pg) && now == Without(owner, pg)[pg := Dir(pg)]
  {
    assert NameOwned(mem, owner, spaces, Dir(pg));
    forall f | f in owner
      ensures owner[f].pg == pg ==> f == pg || (owner[f].Tab? && owner[f].d < NENTRIES)
    {
      assert OwnerNames(mem, owner, spaces, f);
    }
  }

  /** After every user page is gone, what else the address space owns is tables and its directory. */
  lemma UsersGone(was: Owner, now: Owner, pg: nat, mem: Memory, spaces: set<nat>)
    requires UsersDropped(was, now, pg, 0, UPAGES) && Owned(mem, now, spaces)
    requires forall f | f in was :: was[f].User? ==> was[f].v < UPAGES
    ensures forall f | f in now && now[f].pg == pg :: !now[f].User?
    ensures Without(now, pg) == Without(was, pg)
  {
  }

  lemma OwnersPlaced(mem: Memory, owner: Owner, spaces: set<nat>)
    requires Owned(mem, owner, spaces)
    ensures forall f | f in owner :: owner[f].User? ==> owner[f].v < UPAGES
  {
    forall f | f in owner
      ensures owner[f].User? ==> owner[f].v < UPAGES
    {
      assert OwnerNames(mem, owner, spaces, f);
    }
  }

  lemma DirLeft(rest: Owner, pg: nat)
    requires pg !in rest && forall f | f in rest :: rest[f].pg != pg
    ensures Without(rest[pg := Dir(pg)], pg) == rest == rest[pg := Dir(pg)] - {pg}
  {
  }

  lemma JoinSame(a: Memory, b: Memory, c: Memory, spaces: set<nat>, with: set<nat>, pg: nat, owner: Owner)
    requires spaces == with - {pg} && SameOutside(a, b, with, pg, 0, UPAGES) && SameLookups(b, c, spaces)
    requires SameData(a, owner, b) && SameData(b, owner, c)
    ensures SameLookups(a, c, spaces) && SameData(a, owner, c)
  {
  }

  predicate InRegion(r: Region, v: nat) {
    r.v <= v < r.v + r.n
  }

  /** The pages of the first `k` regions show the frames the regions say. */
  ghost predicate KernelMapped(kmap: seq<Region>, mem: Memory, pg: nat, k: nat)
    requires KmapOk(kmap) && k <= |kmap|
  {
    forall i, v: nat | 0 <= i < k && InRegion(kmap[i], v) :: ShowsRegion(mem, pg, kmap[i], v)
  }

  predicate ShowsRegion(mem: Memory, pg: nat, r: Region, v: nat) {
    v < NPAGES && r.v <= v && Lookup(mem, pg, v) == Pte(r.frame + (v - r.v), r.flags)
  }

  /** The pages of the later regions show nothing yet. */
  ghost predicate Unmapped(kmap: seq<Region>, mem: Memory, pg: nat, k: nat)
    requires KmapOk(kmap) && k <= |kmap|
  {
    forall i, v: nat | k <= i < |kmap| && InRegion(kmap[i], v) && v < NPAGES :: Lookup(mem, pg, v).Absent?
  }

  lemma RegionMapped(kmap: seq<Region>, was: Memory, mem: Memory, spaces: set<nat>, pg: nat, k: nat)
    requires KmapOk(kmap) && k < |kmap| && pg in spaces
    requires KernelMapped(kmap, was, pg, k) && Unmapped(kmap, was, pg, k)
    requires SameOutside(was, mem, spaces, pg, kmap[k].v, kmap[k].v + kmap[k].n)
    requires RegionOk(kmap[k]) && forall w: nat | kmap[k].v <= w < kmap[k].v + kmap[k].n ::
               Lookup(mem, pg, w) == Pte(kmap[k].frame + (w - kmap[k].v), kmap[k].flags)
    ensures KernelMapped(kmap, mem, pg, k + 1) && Unmapped(kmap, mem, pg, k + 1)
  {
    forall i, v: nat | 0 <= i < k + 1 && InRegion(kmap[i], v)
      ensures ShowsRegion(mem, pg, kmap[i], v)
    {
      if i < k {
        assert ShowsRegion(was, pg, kmap[i], v) && Beside(kmap[i], kmap[k]);
      }
    }
    forall i, v: nat | k + 1 <= i < |kmap| && InRegion(kmap[i], v) && v < NPAGES
      ensures Lookup(mem, pg, v).Absent?
    {
      assert Beside(kmap[k], kmap[i]);
    }
  }

  lemma NoRolesOf(mem: Memory, owner: Owner, spaces: set<nat>, pg: nat)
    requires Owned(mem, owner, spaces) && pg !in spaces
    ensures forall f | f in owner :: owner[f].pg != pg
  {
    forall f | f in owner
      ensures owner[f].pg != pg
    {
      assert OwnerNames(mem, owner, spaces, f);
    }
  }

  /** Leaving out a new address space gives back what was owned before. */
  lemma WithoutNew(was: Owner, first: Owner, now: Owner, pg: nat, lo: nat, hi: nat)
    requires pg !in was && first == was[pg := Dir(pg)] && (forall f | f in was :: was[f].pg != pg)
    requires GrownBy(first, now, pg, lo, hi)
    ensures Without(now, pg) == was
  {
  }

  /** Page `v` of the copy: a new frame with the bytes the original had, under the same flags. */
  ghost predicate Copied(was: Memory, had: Owner, owner: Owner, mem: Memory, pg: nat, d: nat, v: nat) {
    v < UPAGES && Lookup(was, pg, v).Pte? && Lookup(mem, d, v).Pte? &&
    Lookup(mem, d, v).flags == Lookup(was, pg, v).flags &&
    FreshFrame(had, owner, mem, d, v, Lookup(mem, d, v).frame, DataAt(was, Lookup(was, pg, v).frame))
  }

  lemma WithoutGrown(was: Owner, first: Owner, now: Owner, pg: nat, lo: nat, hi: nat)
    requires Without(first, pg) == was && GrownBy(first, now, pg, lo, hi)
    ensures Without(now, pg) == was
  {
  }

  /** The pages copied so far, and the originals, survive one more turn. */
  lemma CopyKept(start: Memory, begun: Owner, had: Owner, was: Memory, owner: Owner, mem: Memory,
                 before: set<nat>, spaces: set<nat>, pg: nat, d: nat, v: nat, ok: bool)
    requires spaces == before + {d} && d !in before && pg in before && v < UPAGES
    requires Owned(start, begun, before) && SameLookups(start, was, before) && SameData(start, begun, was)
    requires Without(had, d) == begun
    requires SameOutside(was, mem, spaces, d, v, v + 1) && SameData(was, had, mem)
    requires GrownBy(had, owner, d, v, if ok then v + 1 else v)
    requires forall w: nat | w < v :: Copied(start, begun, had, was, pg, d, w)
    requires Lookup(start, pg, v).Pte? && Lookup(was, pg, v) == Lookup(start, pg, v)
    requires ok ==> Lookup(mem, d, v).Pte? && Lookup(mem, d, v).flags == Lookup(was, pg, v).flags
    requires ok ==> Fresh(had, owner, mem, d, v, DataAt(was, Lookup(was, pg, v).frame))
    requires forall w: nat | v <= w < UPAGES :: Lookup(was, d, w).Absent?
    ensures SameLookups(start, mem, before) && SameData(start, begun, mem) && Without(owner, d) == begun
    ensures forall w: nat | v + 1 <= w < UPAGES :: Lookup(mem, d, w).Absent?
    ensures forall w: nat | w < (if ok then v + 1 else v) :: Copied(start, begun, owner, mem, pg, d, w)
  {
    WithoutGrown(begun, had, owner, d, v, if ok then v + 1 else v);
    forall pg, w: nat | pg in before && w < NPAGES
      ensures Lookup(mem, pg, w) == Lookup(start, pg, w)
    {
      assert Lookup(was, pg, w) == Lookup(start, pg, w);
    }
    forall w: nat | w < v
      ensures Copied(start, begun, owner, mem, pg, d, w)
    {
      CopiedStays(start, begun, had, was, owner, mem, spaces, pg, d, w, v);
    }
    if ok {
      CopiedNow(start, begun, had, was, owner, mem, before, pg, d, v);
    }
  }

  lemma CopiedStays(start: Memory, begun: Owner, had: Owner, was: Memory, owner: Owner, mem: Memory, spaces: set<nat>,
                    pg: nat, d: nat, w: nat, v: nat)
    requires Copied(start, begun, had, was, pg, d, w) && w < v < UPAGES && d in spaces
    requires SameOutside(was, mem, spaces, d, v, v + 1) && SameData(was, had, mem)
    requires forall f | f in had :: f in owner && owner[f] == had[f]
    ensures Copied(start, begun, owner, mem, pg, d, w)
  {
  }

  lemma CopiedNow(start: Memory, begun: Owner, had: Owner, was: Memory, owner: Owner, mem: Memory, before: set<nat>,
                  pg: nat, d: nat, v: nat)
    requires Owned(start, begun, before) && pg in before && v < UPAGES && Lookup(start, pg, v).Pte?
    requires SameData(start, begun, was) && Without(had, d) == begun && Lookup(was, pg, v) == Lookup(start, pg, v)
    requires Lookup(mem, d, v).Pte? && Lookup(mem, d, v).flags == Lookup(was, pg, v).flags
    requires Fresh(had, owner, mem, d, v, DataAt(was, Lookup(was, pg, v).frame))
    ensures Copied(start, begun, owner, mem, pg, d, v)
  {
    OwnersReal(start, begun, before, pg, v);
    assert forall f | f in begun :: f in had && had[f] == begun[f];
  }

  lemma OwnersReal(mem: Memory, owner: Owner, spaces: set<nat>, pg: nat, v: nat)
    requires Owned(mem, owner, spaces) && pg in spaces && v < UPAGES && Lookup(mem, pg, v).Pte?
    ensures var f := Lookup(mem, pg, v).frame; f in owner && owner[f] == User(pg, v)
  {
    assert NameOwned(mem, owner, spaces, User(pg, v));
  }

  /** How far one turn of deallocuvm's loop gets. */
  function TableEnd(v: nat, skip: bool): (e: nat)
    ensures v < e && (v < UPAGES ==> e <= UPAGES)
  {
    if skip then (v / NENTRIES + 1) * NENTRIES else v + 1
  }

  lemma NoUserAt(mem: Memory, owner: Owner, spaces: set<nat>, pg: nat, v: nat)
    requires Owned(mem, owner, spaces) && pg in spaces && v < UPAGES && Lookup(mem, pg, v).Absent?
    ensures UsersDropped(owner, owner, pg, v, v + 1)
  {
    forall f | f in owner
      ensures owner[f] != User(pg, v)
    {
      assert OwnerNames(mem, owner, spaces, f);
    }
  }

  lemma DropOn(a: Memory, b: Memory, c: Memory, spaces: set<nat>, x: Owner, y: Owner, z: Owner, pg: nat, lo: nat,
               v: nat, end: nat, top: nat)
    requires pg in spaces && lo <= v < top <= UPAGES && v < end <= UPAGES
    requires SameOutside(a, b, spaces, pg, lo, v) && SameOutside(b, c, spaces, pg, v, v + 1)
    requires forall w: nat | lo <= w < v :: Lookup(b, pg, w).Absent?
    requires forall w: nat | v <= w < end :: Lookup(c, pg, w).Absent?
    requires UsersDropped(x, y, pg, lo, v) && forall hi: nat | v < hi <= end :: UsersDropped(y, z, pg, v, hi)
    ensures SameOutside(a, c, spaces, pg, lo, Min(end, top))
    ensures forall w: nat | lo <= w < end :: Lookup(c, pg, w).Absent?
    ensures UsersDropped(x, z, pg, lo, Min(end, top))
  {
    assert UsersDropped(y, z, pg, v, Min(end, top));
    forall w: nat | lo <= w < v
      ensures Lookup(c, pg, w).Absent?
    {
      assert Lookup(c, pg, w) == Lookup(b, pg, w);
    }
  }

  /** Everything a new page table leaves alone. */
  lemma TableDone(mem: Memory, owner: Owner, spaces: set<nat>, pg: nat, d: nat, f: nat, held: nat)
    requires Owned(mem, owner, spaces) && pg in spaces && d < NENTRIES && EntriesAt(mem, pg)[d].Absent?
    requires f != 0 && f !in owner && f != held && held !in owner
    ensures var now, owns := WithTable(mem, pg, d, f, PTE_ALL), owner[f := Tab(pg, d)];
            Owned(now, owns, spaces) && SameLookups(mem, now, spaces) && SameData(mem, owner, now) &&
            GrownBy(owner, owns, pg, 0, 0) && DataAt(now, held) == DataAt(mem, held) &&
            EntriesAt(now, pg)[d] == Pte(f, PTE_ALL)
    ensures f != pg
  {
    NewTable(mem, owner, spaces, pg, d, f, PTE_ALL);
    NewTableOwned(mem, owner, spaces, pg, d, f, PTE_ALL);
    assert NameOwned(mem, owner, spaces, Dir(pg));
  }

  /** Everything that follows from storing one entry. */
  lemma PteDone(mem: Memory, owner: Owner, spaces: set<nat>, pg: nat, v: nat, p: Pte, held: nat)
    requires Owned(mem, owner, spaces) && pg in spaces && v < NPAGES && !EntriesAt(mem, pg)[v / NENTRIES].Absent?
    requires Lookup(mem, pg, v).Absent? && p.Pte? && (v < UPAGES ==> p.frame == held != 0) && held !in owner
    ensures var now := WithPte(mem, pg, v, p);
            var owns := if v < UPAGES then owner[held := User(pg, v)] else owner;
            Owned(now, owns, spaces) && SameOutside(mem, now, spaces, pg, v, v + 1) && Lookup(now, pg, v) == p &&
            SameData(mem, owner, now) && DataAt(now, held) == DataAt(mem, held) &&
            GrownBy(owner, owns, pg, v, if v < UPAGES then v + 1 else v) && EntriesAt(now, pg) == EntriesAt(mem, pg)
  {
    PteWritten(mem, owner, spaces, pg, v, p);
    assert NameOwned(mem, owner, spaces, Tab(pg, v / NENTRIES));
    if v < UPAGES {
      MapOwned(mem, owner, spaces, pg, v, held, p.flags);
    } else {
      KernelOwned(mem, owner, spaces, pg, v, p);
    }
  }

  class Vm {
    const kmap: seq<Region>
    var free: seq<nat>
    var mem: Memory
    ghost var owner: Owner
    ghost var spaces: set<nat>
    ghost const total: set<nat>

    /** Consistent, apart from one frame taken from the free list and not yet in use. */
    ghost predicate ValidBut(f: nat)
      reads this
    {
      KmapOk(kmap) && Owned(mem, owner, spaces) && Shared(free, owner, total - {f}) && 0 !in total &&
      (f != 0 ==> f in total)
    }

    ghost predicate Valid()
      reads this
    {
      ValidBut(0)
    }

    /** The directory of `pg` and the free frames. */
    ghost function Left(pg: nat): Means
      reads this
    {
      Means(EntriesAt(mem, pg), |free|)
    }

    constructor (kmap: seq<Region>, frames: seq<nat>)
      requires KmapOk(kmap) && 0 !in frames && forall i, j | 0 <= i < j < |frames| :: frames[i] != frames[j]
      ensures Valid() && this.kmap == kmap && spaces == {} && owner == map[] && free == frames
    {
      this.kmap := kmap;
      free, mem, owner, spaces := frames, map[], map[], {};
      total := set f | f in frames;
    }

    method Kalloc() returns (f: nat)
      requires Valid()
      modifies this`free
      ensures f == 0 <==> old(free) == []
      ensures f == 0 ==> free == old(free)
      ensures f != 0 ==> |free| == |old(free)| - 1
      ensures ValidBut(f) && (f != 0 ==> f !in owner && f !in free)
    {
      if free == [] {
        return 0;
      }
      Popped(free, owner, total);
      f := free[0];
      free := free[1..];
    }

    /** kfree: the frame is filled with junk and put first on the list. */
    method Kfree(f: nat)
      modifies this`free, this`mem
      ensures free == [f] + old(free) && mem == old(mem)[f := Junk]
    {
      mem := mem[f := Junk];
      free := [f] + free;
    }

    /** kfree of a frame in nobody's use. */
    method GiveBack(f: nat)
      requires ValidBut(f) && f != 0
      modifies this`free, this`mem
      ensures Valid() && SameLookups(old(mem), mem, spaces) && SameData(old(mem), owner, mem)
    {
      Pushed(free, owner, total, f);
      SameEntries(mem, mem[f := Junk], owner, spaces);
      Kfree(f);
    }

    /** walkpgdir: the page table for page `v`, made if missing and wanted. */
    method Walk(pg: nat, v: nat, alloc: bool, ghost held: nat) returns (pt: nat)
      requires ValidBut(held) && pg in spaces && v < NPAGES
      modifies this`free, this`mem, this`owner
      ensures ValidBut(held) && (held !in old(owner) ==> held !in owner)
      ensures SameLookups(old(mem), mem, spaces) && SameData(old(mem), old(owner), mem) &&
              DataAt(mem, held) == old(DataAt(mem, held))
      ensures GrownBy(old(owner), owner, pg, 0, 0)
      ensures pt == 0 <==> old(EntriesAt(mem, pg)[v / NENTRIES]).Absent? && (!alloc || old(free) == [])
      ensures pt != 0 ==> !EntriesAt(mem, pg)[v / NENTRIES].Absent? && pt == EntriesAt(mem, pg)[v / NENTRIES].frame
      ensures pt == 0 || !alloc ==> mem == old(mem) && owner == old(owner) && free == old(free)
      ensures alloc ==> MapSpent(old(Left(pg)), Left(pg), v, pt != 0)
      ensures pt != 0 && old(EntriesAt(mem, pg)[v / NENTRIES]).Absent? ==>
                EntriesAt(mem, pg)[v / NENTRIES] == Pte(pt, 7)
    {
      var d := EntriesAt(mem, pg)[v / NENTRIES];
      if !d.Absent? {
        assert NameOwned(mem, owner, spaces, Tab(pg, v / NENTRIES));
        return d.frame;
      }
      if !alloc || free == [] {
        return 0;
      }
      pt := free[0];
      Popped(free, owner, total - {held});
      Assigned(free[1..], owner, total - {held}, pt, Tab(pg, v / NENTRIES));
      free := free[1..];
      HeldFree(old(free), owner, total, held);
      TableDone(mem, owner, spaces, pg, v / NENTRIES, pt, held);
      mem := mem[pt := Table(NoEntries())];
      mem := mem[pg := Table(EntriesAt(mem, pg)[v / NENTRIES := Pte(pt, PTE_ALL)])];
      owner := owner[pt := Tab(pg, v / NENTRIES)];
      assert mem == WithTable(old(mem), pg, v / NENTRIES, pt, PTE_ALL);
      TableMade(old(EntriesAt(mem, pg)), EntriesAt(mem, pg), v / NENTRIES, v);
    }

    /** One turn of mappages: the table, the remap check, the entry. */
    method MapPage(pg: nat, v: nat, p: Pte, ghost held: nat) returns (ok: bool)
      requires ValidBut(held) && pg in spaces && v < NPAGES && p.Pte? && Lookup(mem, pg, v).Absent?
      requires v < UPAGES ==> p.frame == held != 0
      modifies this`free, this`mem, this`owner
      ensures ok && v < UPAGES ==> Valid() && held !in old(owner) && held in owner && owner[held] == User(pg, v)
      ensures !(ok && v < UPAGES) ==> ValidBut(held) && (held !in old(owner) ==> held !in owner)
      ensures SameOutside(old(mem), mem, spaces, pg, v, v + 1) && Lookup(mem, pg, v) == if ok then p else Absent
      ensures SameData(old(mem), old(owner), mem) && DataAt(mem, held) == old(DataAt(mem, held))
      ensures GrownBy(old(owner), owner, pg, v, if ok && v < UPAGES then v + 1 else v)
      ensures MapSpent(old(Left(pg)), Left(pg), v, ok)
    {
      HeldFree(free, owner, total, held);
      var pt := Walk(pg, v, true, held);
      if pt == 0 {
        return false;
      }
      HeldFree(free, owner, total, held);
      ghost var was := mem;
      PteDone(mem, owner, spaces, pg, v, p, held);
      if v < UPAGES {
        Assigned(free, owner, total, held, User(pg, v));
        owner := owner[held := User(pg, v)];
      }
      mem := mem[pt := Table(EntriesAt(mem, pt)[v % NENTRIES := p])];
      assert mem == WithPte(was, pg, v, p);
      ok := true;
    }

    /** The first `k` pages of the run are mapped. */
    ghost predicate MappedSoFar(was: Memory, had: Owner, pg: nat, v: nat, k: nat, frame: nat, flags: nat, held: nat)
      reads this
    {
      ValidBut(held) && pg in spaces && SameOutside(was, mem, spaces, pg, v, v + k) &&
      MappedRun(mem, pg, v, k, frame, flags) && SameData(was, had, mem) && DataAt(mem, held) == DataAt(was, held) &&
      GrownBy(had, owner, pg, v, v) && (held !in had ==> held !in owner)
    }

    /** mappages over whole pages: one fresh user frame, or a run of kernel pages. */
    method MapPages(pg: nat, v: nat, n: nat, frame: nat, flags: nat, ghost held: nat) returns (ok: bool)
      requires ValidBut(held) && pg in spaces && n >= 1 && v + n <= NPAGES
      requires forall w: nat | v <= w < v + n :: Lookup(mem, pg, w).Absent?
      requires if v < UPAGES then n == 1 && frame == held != 0 else held == 0
      modifies this`free, this`mem, this`owner
      ensures ok && v < UPAGES ==> UserMapped(old(mem), old(owner), pg, v, frame, flags, held)
      ensures ok && v >= UPAGES ==> MappedSoFar(old(mem), old(owner), pg, v, n, frame, flags, held)
      ensures !ok ==> NotMapped(old(mem), old(owner), pg, v, n, held)
      ensures RunDone(old(Left(pg)), Left(pg), v, v + n, ok)
    {
      var k := 0;
      ghost var start := Left(pg);
      RunStarts(start, v);
      while true
        invariant 0 <= k < n && (v < UPAGES ==> k == 0)
        invariant MappedSoFar(old(mem), old(owner), pg, v, k, frame, flags, held)
        invariant RunSpent(start, Left(pg), v, v + k)
        decreases n - k
      {
        ok := MapCounted(pg, v, k, n, frame, flags, held, old(mem), old(owner), start);
        if !ok {
          return;
        }
        k := k + 1;
        if k == n {
          return;
        }
      }
    }

    /** The run could not be mapped; at most page tables and some of its kernel pages are new. */
    ghost predicate NotMapped(was: Memory, had: Owner, pg: nat, v: nat, n: nat, held: nat)
      reads this
    {
      ValidBut(held) && pg in spaces && SameOutside(was, mem, spaces, pg, v, v + n) && SameData(was, had, mem) &&
      DataAt(mem, held) == DataAt(was, held) && GrownBy(had, owner, pg, v, v) && (held !in had ==> held !in owner) &&
      (v < UPAGES ==> Lookup(mem, pg, v).Absent?)
    }

    /** A user page is mapped, to the frame that was in hand. */
    ghost predicate UserMapped(was: Memory, had: Owner, pg: nat, v: nat, frame: nat, flags: nat, held: nat)
      reads this
    {
      Valid() && pg in spaces && held !in had && held in owner && owner[held] == User(pg, v) &&
      SameOutside(was, mem, spaces, pg, v, v + 1) && MappedRun(mem, pg, v, 1, frame, flags) &&
      SameData(was, had, mem) && DataAt(mem, held) == DataAt(was, held) && GrownBy(had, owner, pg, v, v + 1)
    }

    /** One turn of mappages, with the frames it and the ones before took. */
    method MapCounted(pg: nat, v: nat, k: nat, n: nat, frame: nat, flags: nat, ghost held: nat, ghost was: Memory,
                      ghost had: Owner, ghost start: Means)
      returns (ok: bool)
      requires MappedSoFar(was, had, pg, v, k, frame, flags, held) && k < n && v + n <= NPAGES
      requires Lookup(mem, pg, v + k).Absent? && (v < UPAGES ==> k == 0 && frame == held != 0)
      requires RunSpent(start, Left(pg), v, v + k)
      modifies this`free, this`mem, this`owner
      ensures ok && v < UPAGES ==> UserMapped(was, had, pg, v, frame, flags, held)
      ensures ok && v >= UPAGES ==> MappedSoFar(was, had, pg, v, k + 1, frame, flags, held)
      ensures !ok ==> MappedSoFar(was, had, pg, v, k, frame, flags, held) && Lookup(mem, pg, v + k).Absent?
      ensures if !ok || k + 1 == n then RunDone(start, Left(pg), v, v + n, ok)
              else RunSpent(start, Left(pg), v, v + k + 1)
    {
      ghost var mid := Left(pg);
      ok := MapNext(pg, v, k, n, frame, flags, held, was, had);
      RunSpentOn(start, mid, Left(pg), v, v + k, v + n, ok);
    }

    /** One turn of mappages, added to the ones before. */
    method MapNext(pg: nat, v: nat, k: nat, n: nat, frame: nat, flags: nat, ghost held: nat, ghost was: Memory,
                   ghost had: Owner)
      returns (ok: bool)
      requires MappedSoFar(was, had, pg, v, k, frame, flags, held) && k < n && v + n <= NPAGES
      requires Lookup(mem, pg, v + k).Absent? && (v < UPAGES ==> k == 0 && frame == held != 0)
      modifies this`free, this`mem, this`owner
      ensures ok && v < UPAGES ==> UserMapped(was, had, pg, v, frame, flags, held)
      ensures ok && v >= UPAGES ==> MappedSoFar(was, had, pg, v, k + 1, frame, flags, held)
      ensures !ok ==> MappedSoFar(was, had, pg, v, k, frame, flags, held) && Lookup(mem, pg, v + k).Absent?
      ensures MapSpent(old(Left(pg)), Left(pg), v + k, ok)
    {
      ghost var cur := mem;
      ok := MapPage(pg, v + k, Pte(frame + k, flags), held);
      OutsideOn(was, cur, mem, spaces, pg, v, v + k);
      if ok {
        RunOn(cur, mem, spaces, pg, v, k, frame, flags);
      }
    }

    /** deallocuvm: page by page, skipping what a missing page table would have covered. */
    method DeallocUvm(pg: nat, oldsz: nat, newsz: nat, ghost held: nat) returns (r: nat)
      requires ValidBut(held) && pg in spaces && oldsz <= KERNBASE
      modifies this`free, this`mem, this`owner
      ensures ValidBut(held) && r == if newsz >= oldsz then oldsz else newsz
      ensures newsz >= oldsz ==> mem == old(mem) && owner == old(owner) && free == old(free)
      ensures newsz < oldsz ==> SameOutside(old(mem), mem, spaces, pg, PageUp(newsz), PageUp(oldsz))
      ensures newsz < oldsz ==> forall v: nat | PageUp(newsz) <= v < PageUp(oldsz) :: Lookup(mem, pg, v).Absent?
      ensures newsz < oldsz ==> UsersDropped(old(owner), owner, pg, PageUp(newsz), PageUp(oldsz))
      ensures SameData(old(mem), owner, mem) && (held !in old(owner) ==> DataAt(mem, held) == old(DataAt(mem, held)))
    {
      if newsz >= oldsz {
        return oldsz;
      }
      ghost var lo, top := PageUp(newsz), PageUp(oldsz);
      var a := PageUp(newsz) * PGSIZE;
      while a < oldsz
        invariant a % PGSIZE == 0 && lo <= a / PGSIZE && ValidBut(held) && pg in spaces
        invariant SameOutside(old(mem), mem, spaces, pg, lo, Min(a / PGSIZE, top))
        invariant forall v: nat | lo <= v < a / PGSIZE && v < NPAGES :: Lookup(mem, pg, v).Absent?
        invariant UsersDropped(old(owner), owner, pg, lo, Min(a / PGSIZE, top))
        invariant SameData(old(mem), owner, mem) &&
                  (held !in old(owner) ==> DataAt(mem, held) == old(DataAt(mem, held)))
      {
        var v := a / PGSIZE;
        ghost var was, had := mem, owner;
        var skip := DropPage(pg, v, held);
        DropOn(old(mem), was, mem, spaces, old(owner), had, owner, pg, lo, v, TableEnd(v, skip), top);
        if skip {
          a := (v / NENTRIES + 1) * NENTRIES * PGSIZE - PGSIZE;
        }
        a := a + PGSIZE;
      }
      r := newsz;
    }

    /** One turn of deallocuvm's loop; `skip` when the whole page table is missing. */
    method DropPage(pg: nat, v: nat, ghost held: nat) returns (skip: bool)
      requires ValidBut(held) && pg in spaces && v < UPAGES
      modifies this`free, this`mem, this`owner
      ensures ValidBut(held) && SameOutside(old(mem), mem, spaces, pg, v, v + 1)
      ensures forall w: nat | v <= w < TableEnd(v, skip) :: Lookup(mem, pg, w).Absent?
      ensures forall hi: nat | v < hi <= TableEnd(v, skip) :: UsersDropped(old(owner), owner, pg, v, hi)
      ensures SameData(old(mem), owner, mem) && (held !in old(owner) ==> DataAt(mem, held) == old(DataAt(mem, held)))
    {
      var pt := Walk(pg, v, false, held);
      skip := pt == 0;
      if skip {
        SkipTable(mem, owner, spaces, pg, v, owner, v);
      } else if EntriesAt(mem, pt)[v % NENTRIES].Pte? {
        Unmap(pg, v, pt, held);
      } else {
        NoUserAt(mem, owner, spaces, pg, v);
      }
    }

    /** The page at `v` gives up its frame. */
    method Unmap(pg: nat, v: nat, pt: nat, ghost held: nat)
      requires ValidBut(held) && pg in spaces && v < UPAGES && Lookup(mem, pg, v).Pte?
      requires pt == FrameOf(EntriesAt(mem, pg)[v / NENTRIES])
      modifies this`free, this`mem, this`owner
      ensures ValidBut(held) && SameOutside(old(mem), mem, spaces, pg, v, v + 1) && Lookup(mem, pg, v).Absent?
      ensures UsersDropped(old(owner), owner, pg, v, v + 1)
      ensures SameData(old(mem), owner, mem) && (held !in old(owner) ==> DataAt(mem, held) == old(DataAt(mem, held)))
    {
      var f := EntriesAt(mem, pt)[v % NENTRIES].frame;
      PageGone(mem, owner, spaces, pg, v, f);
      assert NameOwned(mem, owner, spaces, Tab(pg, v / NENTRIES));
      Dismissed(free, owner, total - {held}, f);
      ghost var cut := WithPte(mem, pg, v, Absent);
      Pushed(free, owner - {f}, total - {held}, f);
      Kfree(f);
      mem := mem[pt := Table(EntriesAt(mem, pt)[v % NENTRIES := Absent])];
      assert mem == cut[f := Junk];
      owner := owner - {f};
    }

    /** allocuvm: zeroed frames for every page from the old size up to the new, or everything as before. */
    method AllocUvm(pg: nat, oldsz: nat, newsz: nat) returns (r: nat)
      requires Valid() && pg in spaces
      requires forall v: nat | PageUp(oldsz) <= v < PageUp(newsz) && v < NPAGES :: Lookup(mem, pg, v).Absent?
      modifies this`free, this`mem, this`owner
      ensures Valid() && r == (if newsz >= KERNBASE then 0 else if newsz < oldsz then oldsz else r)
      ensures newsz >= KERNBASE || newsz < oldsz ==> mem == old(mem) && owner == old(owner) && free == old(free)
      ensures oldsz <= newsz < KERNBASE ==> r == newsz || r == 0
      ensures SameOutside(old(mem), mem, spaces, pg, PageUp(oldsz), PageUp(newsz)) &&
              SameData(old(mem), old(owner), mem)
      ensures oldsz <= newsz < KERNBASE && r == newsz ==>
                GrownBy(old(owner), owner, pg, PageUp(oldsz), PageUp(newsz)) &&
                forall v: nat | PageUp(oldsz) <= v < PageUp(newsz) ::
                  Fresh(old(owner), owner, mem, pg, v, Data(Zeros())) && Lookup(mem, pg, v).flags == 6
      ensures oldsz <= newsz < KERNBASE ==>
                PageUp(oldsz) <= PageUp(newsz) <= NPAGES &&
                (r == newsz <==>
                   Cost(old(Left(pg)).dir, PageUp(oldsz), PageUp(newsz)) <= old(Left(pg)).frames)
      ensures oldsz <= newsz < KERNBASE && r != newsz ==>
                SameLookups(old(mem), mem, spaces) && GrownBy(old(owner), owner, pg, 0, 0)
    {
      if newsz >= KERNBASE {
        return 0;
      }
      if newsz < oldsz {
        return oldsz;
      }
      PagesUser(oldsz, newsz);
      var ok := AllocPages(pg, oldsz, newsz, PageUp(oldsz), PageUp(newsz));
      r := if ok then newsz else 0;
    }

    /** allocuvm's loop. */
    method AllocPages(pg: nat, oldsz: nat, newsz: nat, ghost lo: nat, ghost hi: nat) returns (ok: bool)
      requires Valid() && pg in spaces && oldsz <= newsz < KERNBASE && PageUp(oldsz) == lo <= hi == PageUp(newsz)
      requires hi <= UPAGES && forall v: nat | lo <= v < hi :: Lookup(mem, pg, v).Absent?
      modifies this`free, this`mem, this`owner
      ensures ok ==> GrownSoFar(old(mem), old(owner), pg, lo, hi)
      ensures !ok ==>
                Valid() && SameLookups(old(mem), mem, spaces) && GrownBy(old(owner), owner, pg, 0, 0) &&
                SameData(old(mem), old(owner), mem)
      ensures ok <==> Cost(old(Left(pg)).dir, lo, hi) <= old(Left(pg)).frames
    {
      ghost var start, v := Left(pg), lo;
      var a := PageUp(oldsz) * PGSIZE;
      PageBelow(v, newsz);
      while a < newsz
        invariant a == v * PGSIZE && lo <= v <= hi && (a < newsz <==> v < hi)
        invariant GrownSoFar(old(mem), old(owner), pg, lo, v)
        invariant Cost(Left(pg).dir, v, hi) - Left(pg).frames == Cost(start.dir, lo, hi) - start.frames
      {
        ghost var before := Left(pg);
        ok := AllocTurn(pg, a / PGSIZE, oldsz, newsz, old(mem), old(owner));
        PaidFor(before, Left(pg), v, hi, ok);
        if !ok {
          return;
        }
        a, v := a + PGSIZE, v + 1;
        PageBelow(v, newsz);
      }
      ok := true;
    }

    /** Pages [lo, hi) are there so far. */
    ghost predicate GrownSoFar(was: Memory, had: Owner, pg: nat, lo: nat, hi: nat)
      reads this
    {
      Valid() && pg in spaces && Grown(was, had, mem, owner, spaces, pg, lo, hi)
    }

    /** One turn of allocuvm's loop, with the error paths. */
    method AllocTurn(pg: nat, v: nat, oldsz: nat, newsz: nat, ghost was: Memory, ghost had: Owner) returns (ok: bool)
      requires GrownSoFar(was, had, pg, PageUp(oldsz), v)
      requires oldsz < newsz < KERNBASE && PageUp(oldsz) <= v < PageUp(newsz) && Owned(was, had, spaces)
      requires forall w: nat | PageUp(oldsz) <= w < PageUp(newsz) :: Lookup(was, pg, w).Absent?
      modifies this`free, this`mem, this`owner
      ensures PageSpent(old(Left(pg)), Left(pg), v, ok)
      ensures ok ==> GrownSoFar(was, had, pg, PageUp(oldsz), v + 1)
      ensures !ok ==> Valid() && SameLookups(was, mem, spaces) && SameData(was, had, mem)
      ensures !ok ==> GrownBy(had, owner, pg, 0, 0)
    {
      ghost var cur, own, before := mem, owner, Left(pg);
      var f;
      ok, f := NewPage(pg, v, Data(Zeros()), PTE_W_U);
      if ok {
        GrownOn(was, had, cur, own, mem, owner, spaces, pg, PageUp(oldsz), v);
      } else {
        GrowOn(had, own, owner, pg, PageUp(oldsz), v, v);
        ghost var mid := Left(pg);
        Undo(pg, newsz, oldsz, f, v, was, had);
        NotSpent(before, mid, Left(pg), v);
      }
    }

    /**
     A new frame with the given contents mapped at page `v`; on failure the frame, if there was one, is still in
     hand.
     */
    method NewPage(pg: nat, v: nat, c: Content, flags: nat) returns (ok: bool, f: nat)
      requires Valid() && pg in spaces && v < UPAGES && Lookup(mem, pg, v).Absent?
      modifies this`free, this`mem, this`owner
      ensures ok ==> Valid() && Fresh(old(owner), owner, mem, pg, v, c) && Lookup(mem, pg, v) == Pte(f, flags)
      ensures ok ==> SameOutside(old(mem), mem, spaces, pg, v, v + 1) && GrownBy(old(owner), owner, pg, v, v + 1)
      ensures !ok ==>
                ValidBut(f) && SameLookups(old(mem), mem, spaces) && GrownBy(old(owner), owner, pg, v, v) && f !in owner
      ensures SameData(old(mem), old(owner), mem)
      ensures PageSpent(old(Left(pg)), Left(pg), v, ok)
    {
      f := Kalloc();
      if f == 0 {
        HeldFree(free, owner, total, 0);
        return false, 0;
      }
      ok := MapFresh(pg, v, f, c, flags);
    }

    /** The frame in hand, filled and mapped. */
    method MapFresh(pg: nat, v: nat, f: nat, c: Content, flags: nat) returns (ok: bool)
      requires ValidBut(f) && f != 0 && f !in owner && pg in spaces && v < UPAGES && Lookup(mem, pg, v).Absent?
      modifies this`free, this`mem, this`owner
      ensures ok ==> Valid() && Fresh(old(owner), owner, mem, pg, v, c) && Lookup(mem, pg, v) == Pte(f, flags)
      ensures ok ==> SameOutside(old(mem), mem, spaces, pg, v, v + 1) && GrownBy(old(owner), owner, pg, v, v + 1)
      ensures !ok ==>
                ValidBut(f) && SameLookups(old(mem), mem, spaces) && GrownBy(old(owner), owner, pg, v, v) && f !in owner
      ensures SameData(old(mem), old(owner), mem)
      ensures MapSpent(old(Left(pg)), Left(pg), v, ok)
    {
      Filled(mem, owner, spaces, pg, f, c);
      mem := mem[f := c];
      ghost var before, mid := Left(pg), mem;
      ok := MapPages(pg, v, 1, f, flags, f);
      OnePageRun(before, Left(pg), v, ok);
      FilledOn(old(mem), old(owner), mid, mem, spaces, pg, v);
    }

    /** The error path of allocuvm: the new pages go, and the frame in hand. */
    method Undo(pg: nat, newsz: nat, oldsz: nat, f: nat, v: nat, ghost was: Memory, ghost had: Owner)
      requires ValidBut(f) && f !in owner && pg in spaces && oldsz < newsz < KERNBASE &&
               PageUp(oldsz) <= v <= PageUp(newsz)
      requires Owned(was, had, spaces) && GrownBy(had, owner, pg, PageUp(oldsz), v) && SameData(was, had, mem)
      requires SameOutside(was, mem, spaces, pg, PageUp(oldsz), v)
      requires forall w: nat | PageUp(oldsz) <= w < PageUp(newsz) :: Lookup(was, pg, w).Absent?
      modifies this`free, this`mem, this`owner
      ensures Valid() && SameLookups(was, mem, spaces) && GrownBy(had, owner, pg, 0, 0) && SameData(was, had, mem)
    {
      ghost var mid, held := mem, owner;
      var _ := DeallocUvm(pg, newsz, oldsz, f);
      GrowthUndone(was, had, spaces, held, owner, pg, PageUp(oldsz), PageUp(newsz), v);
      if f != 0 {
        GiveBack(f);
      }
    }

    /** freevm: every frame of the address space goes back, user pages, page tables and directory. */
    method FreeVm(pg: nat)
      requires Valid() && pg in spaces
      modifies this`free, this`mem, this`owner, this`spaces
      ensures Valid() && spaces == old(spaces) - {pg} && owner == Without(old(owner), pg)
      ensures SameLookups(old(mem), mem, spaces) && SameData(old(mem), owner, mem)
    {
      ghost var with := spaces;
      var _ := DeallocUvm(pg, KERNBASE, 0, 0);
      OwnersPlaced(old(mem), old(owner), with);
      UsersGone(old(owner), owner, pg, mem, with);
      ghost var mid, rest := mem, Without(owner, pg);
      SpaceDropped(mem, owner, with, pg);
      spaces := spaces - {pg};
      FreeTables(pg, with);
      DirLeft(rest, pg);
      FreeDir(pg);
      JoinSame(old(mem), mid, mem, spaces, with, pg, owner);
    }

    /** The loop of freevm over the directory. */
    method FreeTables(pg: nat, ghost with: set<nat>)
      requires KmapOk(kmap) && 0 !in total && Shared(free, owner, total) && spaces == with - {pg} && pg in with
      requires Owned(mem, owner, with) && Owned(mem, Without(owner, pg), spaces)
      requires forall f | f in owner && owner[f].pg == pg :: !owner[f].User?
      modifies this`free, this`mem, this`owner
      ensures Shared(free, owner, total) && Owned(mem, Without(old(owner), pg), spaces)
      ensures pg !in Without(old(owner), pg) && owner == Without(old(owner), pg)[pg := Dir(pg)]
      ensures SameLookups(old(mem), mem, spaces) && SameData(old(mem), Without(old(owner), pg), mem)
    {
      ghost var entries := EntriesAt(mem, pg);
      assert NameOwned(mem, owner, with, Dir(pg));
      var i := 0;
      while i < NENTRIES
        invariant 0 <= i <= NENTRIES && Shared(free, owner, total) && Owned(mem, Without(old(owner), pg), spaces)
        invariant EntriesAt(mem, pg) == entries && TablesLeft(old(owner), owner, pg, i)
        invariant SameLookups(old(mem), mem, spaces) && SameData(old(mem), Without(old(owner), pg), mem)
      {
        if EntriesAt(mem, pg)[i].Pte? {
          assert NameOwned(old(mem), old(owner), with, Tab(pg, i));
          FreeTable(pg, i, EntriesAt(mem, pg)[i].frame, old(owner));
        } else {
          NoTable(old(mem), old(owner), with, pg, i, owner);
        }
        i := i + 1;
      }
      OnlyDir(old(mem), old(owner), with, pg, owner);
    }

    method FreeTable(pg: nat, i: nat, f: nat, ghost was: Owner)
      requires Shared(free, owner, total) && 0 !in total && Owned(mem, Without(was, pg), spaces)
      requires TablesLeft(was, owner, pg, i) && f in was && was[f] == Tab(pg, i) && f != pg
      requires forall g | g in was && was[g] == Tab(pg, i) :: g == f
      modifies this`free, this`mem, this`owner
      ensures Shared(free, owner, total) && Owned(mem, Without(was, pg), spaces)
      ensures TablesLeft(was, owner, pg, i + 1) && EntriesAt(mem, pg) == old(EntriesAt(mem, pg))
      ensures SameLookups(old(mem), mem, spaces) && SameData(old(mem), Without(was, pg), mem)
    {
      Dismissed(free, owner, total, f);
      Pushed(free, owner - {f}, total, f);
      SameEntries(mem, mem[f := Junk], Without(was, pg), spaces);
      Kfree(f);
      owner := owner - {f};
    }

    method FreeDir(pg: nat)
      requires KmapOk(kmap) && 0 !in total && Shared(free, owner, total) && pg in owner && owner[pg] == Dir(pg)
      requires Owned(mem, Without(owner, pg), spaces) && Without(owner, pg) == owner - {pg}
      modifies this`free, this`mem, this`owner
      ensures Valid() && owner == Without(old(owner), pg)
      ensures SameLookups(old(mem), mem, spaces) && SameData(old(mem), owner, mem)
    {
      Dismissed(free, owner, total, pg);
      Pushed(free, owner - {pg}, total, pg);
      SameEntries(mem, mem[pg := Junk], owner - {pg}, spaces);
      Kfree(pg);
      owner := owner - {pg};
    }

    /** setupkvm: a new address space showing the kernel's regions and no user page, or every frame back. */
    method SetupKvm() returns (pg: nat)
      requires Valid()
      modifies this`free, this`mem, this`owner, this`spaces
      ensures Valid() && SameLookups(old(mem), mem, old(spaces)) && SameData(old(mem), old(owner), mem)
      ensures pg == 0 ==> spaces == old(spaces) && owner == old(owner)
      ensures pg != 0 ==> pg !in old(spaces) && spaces == old(spaces) + {pg} && Without(owner, pg) == old(owner)
      ensures pg != 0 ==> KernelMapped(kmap, mem, pg, |kmap|)
      ensures pg != 0 ==> forall v: nat | v < UPAGES :: Lookup(mem, pg, v).Absent?
      ensures pg != 0 ==> forall f | f in owner && f !in old(owner) :: owner[f].pg == pg && !owner[f].User?
      ensures pg != 0 <==> 1 + KernelNeeds(NoEntries(), kmap, 0) <= |old(free)|
      ensures pg != 0 ==> |free| == |old(free)| - 1 - KernelNeeds(NoEntries(), kmap, 0) && LowFree(Left(pg).dir)
    {
      pg := Kalloc();
      if pg == 0 {
        return;
      }
      NewSpace(mem, owner, spaces, pg);
      Assigned(free, owner, total, pg, Dir(pg));
      NoRolesOf(mem, owner, spaces, pg);
      mem := Cleared(mem, pg);
      owner := owner[pg := Dir(pg)];
      spaces := spaces + {pg};
      assert Left(pg).dir == NoEntries() && LowFree(Left(pg).dir);
      var ok := MapKernel(pg, mem, owner, old(owner));
      if !ok {
        FreeVm(pg);
        assert spaces == old(spaces);
        pg := 0;
      }
    }

    /** The kernel's part of `pg` is being mapped; nothing else changed. */
    ghost predicate KernelKept(begun: Memory, first: Owner, had: Owner, pg: nat)
      reads this
    {
      Valid() && pg in spaces && SameOutside(begun, mem, spaces, pg, UPAGES, NPAGES) && SameData(begun, first, mem) &&
      GrownBy(first, owner, pg, 0, 0) && Without(owner, pg) == had
    }

    /** The first `k` regions are mapped. */
    ghost predicate KernelSoFar(begun: Memory, first: Owner, had: Owner, pg: nat, k: nat)
      requires k <= |kmap|
      reads this
    {
      KernelKept(begun, first, had, pg) && KernelMapped(kmap, mem, pg, k) && Unmapped(kmap, mem, pg, k)
    }

    /** The loop of setupkvm over kmap. */
    method MapKernel(pg: nat, ghost begun: Memory, ghost first: Owner, ghost had: Owner) returns (ok: bool)
      requires Valid() && pg in spaces && mem == begun && owner == first && first == had[pg := Dir(pg)]
      requires pg !in had && forall f | f in had :: had[f].pg != pg
      requires forall v: nat | v < NPAGES :: Lookup(mem, pg, v).Absent?
      modifies this`free, this`mem, this`owner
      ensures KernelKept(begun, first, had, pg) && (ok ==> KernelMapped(kmap, mem, pg, |kmap|))
      ensures ok <==> KernelNeeds(old(Left(pg)).dir, kmap, 0) <= old(Left(pg)).frames
      ensures ok ==> Left(pg).frames == old(Left(pg)).frames - KernelNeeds(old(Left(pg)).dir, kmap, 0)
      ensures ok && LowFree(old(Left(pg)).dir) ==> LowFree(Left(pg).dir)
    {
      var k := 0;
      ghost var start := Left(pg);
      WithoutNew(had, first, owner, pg, 0, 0);
      while k < |kmap|
        invariant 0 <= k <= |kmap| && KernelSoFar(begun, first, had, pg, k)
        invariant KernelNeeds(Left(pg).dir, kmap, k) - Left(pg).frames == KernelNeeds(start.dir, kmap, 0) - start.frames
        invariant LowFree(start.dir) ==> LowFree(Left(pg).dir)
      {
        ok := RegionTurn(pg, k, begun, first, had);
        if !ok {
          return;
        }
        k := k + 1;
      }
      ok := true;
    }

    /** One turn, with what it keeps. */
    method RegionTurn(pg: nat, k: nat, ghost begun: Memory, ghost first: Owner, ghost had: Owner) returns (ok: bool)
      requires k < |kmap| && KernelSoFar(begun, first, had, pg, k)
      modifies this`free, this`mem, this`owner
      ensures KernelKept(begun, first, had, pg) && (ok ==> KernelSoFar(begun, first, had, pg, k + 1))
      ensures ok ==>
                KernelNeeds(Left(pg).dir, kmap, k + 1) - Left(pg).frames ==
                KernelNeeds(old(Left(pg)).dir, kmap, k) - old(Left(pg)).frames
      ensures !ok ==> KernelNeeds(old(Left(pg)).dir, kmap, k) > old(Left(pg)).frames
      ensures ok && LowFree(old(Left(pg)).dir) ==> LowFree(Left(pg).dir)
    {
      ghost var was, own, mid := mem, owner, Left(pg);
      ok := MapRegion(pg, k);
      RegionPaid(mid, Left(pg), kmap, k, ok);
      WithoutGrown(had, own, owner, pg, 0, 0);
      GrowOn(first, own, owner, pg, 0, 0, 0);
      KernelOn(begun, was, mem, first, own, spaces, pg);
    }

    /** One region of the kernel's part. */
    method MapRegion(pg: nat, k: nat) returns (ok: bool)
      requires Valid() && pg in spaces && k < |kmap| && KernelMapped(kmap, mem, pg, k) && Unmapped(kmap, mem, pg, k)
      modifies this`free, this`mem, this`owner
      ensures Valid() && SameOutside(old(mem), mem, spaces, pg, UPAGES, NPAGES) && SameData(old(mem), old(owner), mem)
      ensures GrownBy(old(owner), owner, pg, 0, 0)
      ensures ok ==> KernelMapped(kmap, mem, pg, k + 1) && Unmapped(kmap, mem, pg, k + 1)
      ensures kmap[k].v + kmap[k].n <= NPAGES && RunDone(old(Left(pg)), Left(pg), kmap[k].v, kmap[k].v + kmap[k].n, ok)
    {
      ghost var was := mem;
      assert RegionOk(kmap[k]);
      ok := MapPages(pg, kmap[k].v, kmap[k].n, kmap[k].frame, kmap[k].flags, 0);
      if ok {
        RegionMapped(kmap, was, mem, spaces, pg, k);
      }
    }

    /** copyuvm: the same pages with the same bytes and flags in frames of their own, or every frame back. */
    method CopyUvm(pg: nat, sz: nat) returns (d: nat)
      requires Valid() && pg in spaces && sz <= KERNBASE
      requires forall v: nat | v < PageUp(sz) :: Lookup(mem, pg, v).Pte?
      modifies this`free, this`mem, this`owner, this`spaces
      ensures Valid() && SameLookups(old(mem), mem, old(spaces)) && SameData(old(mem), old(owner), mem)
      ensures d == 0 ==> spaces == old(spaces) && owner == old(owner)
      ensures d != 0 ==> d !in old(spaces) && spaces == old(spaces) + {d} && Without(owner, d) == old(owner)
      ensures d != 0 ==> forall v: nat | v < PageUp(sz) :: Copied(old(mem), old(owner), owner, mem, pg, d, v)
      ensures d != 0 ==> forall v: nat | PageUp(sz) <= v < UPAGES :: Lookup(mem, d, v).Absent?
      ensures d != 0 <==>
                1 + KernelNeeds(NoEntries(), kmap, 0) + PageUp(sz) + (PageUp(sz) + 1023) / 1024 <= |old(free)|
    {
      UserPages(sz);
      d := SetupKvm();
      if d == 0 {
        return;
      }
      FreshCost(Left(d).dir, PageUp(sz));
      var ok := CopyPages(pg, d, sz, old(mem), old(owner), old(spaces));
      if !ok {
        d := 0;
      }
    }

    /** What copyuvm's loop keeps: the originals are as at the start and the first `n` pages of `d` are copies. */
    ghost predicate Copying(pg: nat, d: nat, n: nat, start: Memory, begun: Owner, before: set<nat>)
      reads this
    {
      Valid() && d !in before && pg in before && spaces == before + {d} && Without(owner, d) == begun && n <= UPAGES &&
      Owned(start, begun, before) && SameLookups(start, mem, before) && SameData(start, begun, mem) &&
      (forall v: nat | v < n :: Copied(start, begun, owner, mem, pg, d, v)) &&
      (forall v: nat | n <= v < UPAGES :: Lookup(mem, d, v).Absent?)
    }

    /** The loop of copyuvm, into the new address space `d`. */
    method CopyPages(pg: nat, d: nat, sz: nat, ghost start: Memory, ghost begun: Owner, ghost before: set<nat>)
      returns (ok: bool)
      requires Copying(pg, d, 0, start, begun, before) && sz <= KERNBASE
      requires forall v: nat | v < PageUp(sz) :: Lookup(start, pg, v).Pte?
      modifies this`free, this`mem, this`owner, this`spaces
      ensures ok ==> Copying(pg, d, PageUp(sz), start, begun, before)
      ensures !ok ==> Valid() && SameLookups(start, mem, before) && SameData(start, begun, mem)
      ensures !ok ==> spaces == before && owner == begun
      ensures PageUp(sz) <= NPAGES && (ok <==> Cost(old(Left(d)).dir, 0, PageUp(sz)) <= old(Left(d)).frames)
    {
      UserPages(sz);
      ghost var first := Left(d);
      var i := 0;
      ghost var v := 0;
      PageBelow(0, sz);
      while i < sz
        invariant i == v * PGSIZE && (i < sz <==> v < PageUp(sz)) && v <= PageUp(sz)
        invariant Copying(pg, d, v, start, begun, before)
        invariant Cost(Left(d).dir, v, PageUp(sz)) - Left(d).frames == Cost(first.dir, 0, PageUp(sz)) - first.frames
      {
        ghost var mid := Left(d);
        ok := CopyStep(pg, d, i / PGSIZE, start, begun, before);
        PaidFor(mid, Left(d), v, PageUp(sz), ok);
        if !ok {
          return;
        }
        i := i + PGSIZE;
        v := v + 1;
        PageBelow(v, sz);
      }
      ok := true;
    }

    /** One turn of the loop, with its error path. */
    method CopyStep(pg: nat, d: nat, v: nat, ghost start: Memory, ghost begun: Owner, ghost before: set<nat>)
      returns (ok: bool)
      requires Copying(pg, d, v, start, begun, before) && v < UPAGES && Lookup(start, pg, v).Pte?
      modifies this`free, this`mem, this`owner, this`spaces
      ensures ok ==> Copying(pg, d, v + 1, start, begun, before)
      ensures !ok ==> Valid() && SameLookups(start, mem, before) && SameData(start, begun, mem)
      ensures !ok ==> spaces == before && owner == begun
      ensures PageSpent(old(Left(d)), Left(d), v, ok)
    {
      ghost var was, had := mem, owner;
      var f: nat;
      ok, f := CopyPage(pg, d, v);
      CopyKept(start, begun, had, was, owner, mem, before, spaces, pg, d, v, ok);
      if !ok {
        Abandon(d, f);
        assert spaces == before;
      }
    }

    /** The error path of copyuvm: the frame in hand, if any, and the half-made copy. */
    method Abandon(d: nat, f: nat)
      requires ValidBut(f) && f !in owner && d in spaces
      modifies this`free, this`mem, this`owner, this`spaces
      ensures Valid() && spaces == old(spaces) - {d} && owner == Without(old(owner), d)
      ensures SameLookups(old(mem), mem, spaces) && SameData(old(mem), owner, mem)
    {
      if f != 0 {
        GiveBack(f);
      }
      FreeVm(d);
    }

    /** One turn of copyuvm's loop. */
    method CopyPage(pg: nat, d: nat, v: nat) returns (ok: bool, f: nat)
      requires Valid() && pg in spaces && d in spaces && pg != d && v < UPAGES
      requires Lookup(mem, pg, v).Pte? && Lookup(mem, d, v).Absent?
      modifies this`free, this`mem, this`owner
      ensures ok ==> Valid() && Lookup(mem, d, v) == Pte(f, old(Lookup(mem, pg, v)).flags)
      ensures ok ==> Fresh(old(owner), owner, mem, d, v, old(DataAt(mem, Lookup(mem, pg, v).frame)))
      ensures !ok ==> ValidBut(f) && f !in owner
      ensures SameOutside(old(mem), mem, spaces, d, v, v + 1) && SameData(old(mem), old(owner), mem)
      ensures GrownBy(old(owner), owner, d, v, if ok then v + 1 else v)
      ensures PageSpent(old(Left(d)), Left(d), v, ok)
    {
      var pt := Walk(pg, v, false, 0);
      var p := EntriesAt(mem, pt)[v % NENTRIES];
      ok, f := NewPage(d, v, DataAt(mem, p.frame), p.flags);
    }
  }
}
