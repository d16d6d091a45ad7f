/**
 Copy-on-write address spaces (vm.c, trap.c and kalloc.c of the copy-on-write tree) as values, against eager copying.
 */
module CowTable {
  import opened PageKeys

  /** A present page table entry. */
  datatype Pte = Pte(frame: nat, write: bool, user: bool, cow: bool)

  /** Page tables, frames with their counts, the free list, and the frames the kernel itself holds. */
  datatype Sys = Sys(
    spaces: set<nat>,
    tabs: set<Table>,
    ptes: map<Key, Pte>,
    bytes: map<nat, Page>,
    refc: map<nat, int>,
    free: seq<nat>,
    held: set<nat>)

  function Count(s: Sys, f: nat): int {
    if f in s.refc then s.refc[f] else 0
  }

  function Bytes(s: Sys, f: nat): Page {
    if f in s.bytes then s.bytes[f] else []
  }

  // --- The operations ---

  /** kfree: one reference less; with none left the frame is filled with junk and heads the free list. */
  function Kfree(s: Sys, f: nat): Sys {
    var n := if Count(s, f) > 0 then Count(s, f) - 1 else Count(s, f);
    var t := s.(refc := s.refc[f := n]);
    if n == 0 then t.(free := [f] + s.free, bytes := s.bytes[f := Ones(|Bytes(s, f)|)]) else t
  }

  /** kalloc with a frame on the list: its count becomes 1 and the kernel holds it. */
  function Kalloc(s: Sys): Sys
    requires s.free != []
  {
    s.(refc := s.refc[s.free[0] := 1], free := s.free[1..], held := s.held + {s.free[0]})
  }

  /** A held frame is mapped. */
  function Place(s: Sys, k: Key, p: Pte): Sys {
    s.(ptes := s.ptes[k := p], held := s.held - {p.frame})
  }

  /** deallocuvm for one page. */
  function Unmap(s: Sys, k: Key): Sys
    requires k in s.ptes
  {
    Kfree(s, s.ptes[k].frame).(ptes := s.ptes - {k})
  }

  function UnmapAny(s: Sys, k: Key): Sys {
    if k in s.ptes then Unmap(s, k) else s
  }

  /** deallocuvm over the pages [lo, hi) of `pg`. */
  function Emptied(s: Sys, pg: nat, lo: nat, hi: nat): Sys
    decreases hi - lo, pg
  {
    if lo >= hi then s else Emptied(UnmapAny(s, (pg, lo)), pg, lo + 1, hi)
  }

  function Protected(p: Pte): Pte {
    if p.write then p.(write := false, cow := true) else p
  }

  /** One turn of copyuvm: the parent's page loses its write bit and both map the frame. */
  function Share(s: Sys, k: Key, d: Key): Sys
    requires k in s.ptes
  {
    var p := Protected(s.ptes[k]);
    s.(ptes := s.ptes[k := p][d := p], refc := s.refc[p.frame := Count(s, p.frame) + 1], tabs := s.tabs + {Tab(d)})
  }

  function ShareAny(s: Sys, k: Key, d: Key): Sys {
    if k in s.ptes then Share(s, k, d) else s
  }

  /** copyuvm over the pages [lo, hi) of `pg`. */
  function Shared(s: Sys, pg: nat, d: nat, lo: nat, hi: nat): Sys
    decreases hi - lo
  {
    if lo >= hi then s else Shared(ShareAny(s, (pg, lo), (d, lo)), pg, d, lo + 1, hi)
  }

  /** A user store, which the hardware allows on pages the user may write. */
  function Stored(s: Sys, k: Key, i: nat, b: int): Sys
    requires k in s.ptes && i < |Bytes(s, s.ptes[k].frame)|
  {
    var f := s.ptes[k].frame;
    s.(bytes := s.bytes[f := Bytes(s, f)[i := b]])
  }

  /** The fault handler's copy into the frame `g` taken from the list. */
  function Copied(s: Sys, k: Key): Sys
    requires k in s.ptes && s.free != []
  {
    var f, g := s.ptes[k].frame, s.free[0];
    var t := Kalloc(s.(refc := s.refc[f := Count(s, f) - 1]));
    Place(t.(bytes := t.bytes[g := Bytes(t, f)]), k, Pte(g, true, true, false))
  }

  /** The fault handler when the page is nobody else's. */
  function Reclaimed(s: Sys, k: Key): Sys
    requires k in s.ptes
  {
    s.(ptes := s.ptes[k := s.ptes[k].(write := true, cow := false)])
  }

  function Faulted(s: Sys, k: Key): Sys
    requires k in s.ptes && (Count(s, s.ptes[k].frame) > 1 ==> s.free != [])
  {
    if Count(s, s.ptes[k].frame) > 1 then Copied(s, k) else Reclaimed(s, k)
  }

  /** allocuvm for one page: a zeroed frame, user and writable. */
  function Grown(s: Sys, k: Key): Sys
    requires s.free != []
  {
    var g := s.free[0];
    var t := Kalloc(s);
    Place(t.(bytes := t.bytes[g := Zeros(|Bytes(s, g)|)], tabs := s.tabs + {Tab(k)}), k, Pte(g, true, true, false))
  }

  // --- What every operation keeps ---

  /** The pages that map frame `f`. */
  ghost function Refs(ptes: map<Key, Pte>, f: nat): set<Key> {
    set k | k in ptes && ptes[k].frame == f
  }

  ghost function Holds(s: Sys, f: nat): nat {
    if f in s.held then 1 else 0
  }

  /** The count of a frame is the number of pages that map it, or 1 when the kernel holds it. */
  ghost predicate CountOk(s: Sys, f: nat) {
    Count(s, f) == |Refs(s.ptes, f)| + Holds(s, f) && (f in s.held ==> Refs(s.ptes, f) == {})
  }

  /** A page with the write bit has its frame to itself. */
  ghost predicate EntryOk(s: Sys, k: Key)
    requires k in s.ptes
  {
    var p := s.ptes[k];
    p.frame in s.refc && k.0 in s.spaces && k.1 < UPAGES && Tab(k) in s.tabs &&
    (p.write ==> !p.cow && s.refc[p.frame] == 1)
  }

  ghost predicate FreeOk(s: Sys) {
    Distinct(s.free) && forall f :: f in s.free <==> f in s.refc && s.refc[f] == 0
  }

  ghost predicate Counts(s: Sys) {
    forall f :: CountOk(s, f)
  }

  ghost predicate Entries(s: Sys) {
    forall k | k in s.ptes :: EntryOk(s, k)
  }

  ghost predicate Frames(s: Sys) {
    (forall f :: f in s.bytes <==> f in s.refc) && (forall f | f in s.held :: f in s.refc)
  }

  ghost predicate Inv(s: Sys) {
    Frames(s) && Counts(s) && Entries(s) && FreeOk(s)
  }

  // --- What a process can tell: eager copying ---

  /** A page as its process sees it; a copy-on-write page is as good as writable. */
  datatype Cell = Cell(page: Page, writable: bool, user: bool)

  datatype Eager = Eager(spaces: set<nat>, cells: map<Key, Cell>)

  function CellOf(s: Sys, p: Pte): Cell {
    Cell(Bytes(s, p.frame), p.write || p.cow, p.user)
  }

  function View(s: Sys): (e: Eager)
    ensures e.spaces == s.spaces && forall k :: k in e.cells <==> k in s.ptes
    ensures forall k | k in s.ptes :: e.cells[k] == CellOf(s, s.ptes[k])
  {
    Eager(s.spaces, map k | k in s.ptes :: CellOf(s, s.ptes[k]))
  }

  /** Every page of `pg` below `n` copied to `d`. */
  function EagerFork(e: Eager, pg: nat, d: nat, n: nat): Eager {
    Eager(e.spaces + {d}, e.cells + map v: nat | v < n && (pg, v) in e.cells :: (d, v) := e.cells[(pg, v)])
  }

  function EagerStore(e: Eager, k: Key, i: nat, b: int): Eager
    requires k in e.cells && i < |e.cells[k].page|
  {
    e.(cells := e.cells[k := e.cells[k].(page := e.cells[k].page[i := b])])
  }

  function EagerFree(e: Eager, pg: nat): Eager {
    Eager(e.spaces - {pg}, map k | k in e.cells && k.0 != pg :: e.cells[k])
  }

  // --- Counting ---

  lemma RefsPut(ptes: map<Key, Pte>, k: Key, p: Pte, f: nat)
    ensures Refs(ptes[k := p], f) == if p.frame == f then Refs(ptes, f) + {k} else Refs(ptes, f) - {k}
  {
  }

  lemma RefsDrop(ptes: map<Key, Pte>, k: Key, f: nat)
    ensures Refs(ptes - {k}, f) == Refs(ptes, f) - {k}
  {
  }

  lemma TwoRefs(ptes: map<Key, Pte>, k: Key, q: Key)
    requires k in ptes && q in ptes && k != q && ptes[k].frame == ptes[q].frame
    ensures |Refs(ptes, ptes[k].frame)| >= 2
  {
    var r := Refs(ptes, ptes[k].frame);
    assert {k, q} <= r;
    Subset({k, q}, r);
  }

  lemma {:induction false} Subset<T>(a: set<T>, b: set<T>)
    requires a <= b
    ensures |a| <= |b|
  {
    if a != {} {
      var x :| x in a;
      Subset(a - {x}, b - {x});
    }
  }

  /** A page with the write bit shares its frame with no other page, and no one holds it. */
  lemma WriterAlone(s: Sys, k: Key, q: Key)
    requires Inv(s) && k in s.ptes && q in s.ptes && s.ptes[k].write && s.ptes[q].frame == s.ptes[k].frame
    ensures k == q
  {
    assert EntryOk(s, k) && CountOk(s, s.ptes[k].frame);
    if k != q {
      TwoRefs(s.ptes, k, q);
    }
  }

  /** A mapped frame has a positive count and is not held; it is not free. */
  lemma MappedCounted(s: Sys, k: Key)
    requires Inv(s) && k in s.ptes
    ensures var f := s.ptes[k].frame; f in s.refc && s.refc[f] >= 1 && f !in s.held && f !in s.free
    ensures s.refc[s.ptes[k].frame] == |Refs(s.ptes, s.ptes[k].frame)|
  {
    var f := s.ptes[k].frame;
    assert EntryOk(s, k) && CountOk(s, f) && k in Refs(s.ptes, f);
  }

  /** A frame from the free list is mapped by nobody and held by nobody. */
  lemma FreeUnused(s: Sys, g: nat)
    requires Inv(s) && g in s.free
    ensures g in s.refc && s.refc[g] == 0 && Refs(s.ptes, g) == {} && g !in s.held
  {
    assert CountOk(s, g);
  }

  // --- One operation at a time ---

  lemma KallocInv(s: Sys)
    requires Inv(s) && s.free != []
    ensures Inv(Kalloc(s)) && View(Kalloc(s)) == View(s)
    ensures s.free[0] in Kalloc(s).held && Refs(s.ptes, s.free[0]) == {} && Kalloc(s).refc[s.free[0]] == 1
  {
    var g, t := s.free[0], Kalloc(s);
    FreeUnused(s, g);
    FreeTail(s.free);
    forall f
      ensures CountOk(t, f)
    {
      assert CountOk(s, f);
    }
    forall k | k in t.ptes
      ensures EntryOk(t, k)
    {
      assert EntryOk(s, k);
      MappedCounted(s, k);
    }
  }

  lemma PlaceCounts(s: Sys, k: Key, p: Pte, c: Page)
    requires Inv(s) && k !in s.ptes && p.frame in s.held
    ensures Counts(Place(s.(bytes := s.bytes[p.frame := c]), k, p))
  {
    var t := Place(s.(bytes := s.bytes[p.frame := c]), k, p);
    forall f
      ensures CountOk(t, f)
    {
      assert CountOk(s, f) && k !in Refs(s.ptes, f);
      RefsPut(s.ptes, k, p, f);
      if f == p.frame {
        assert Refs(t.ptes, f) == {k};
      } else {
        assert Refs(t.ptes, f) == Refs(s.ptes, f);
      }
    }
  }

  /** A held frame, given its contents, is mapped at a page that had no frame: only that page appears. */
  lemma PlaceInv(s: Sys, k: Key, p: Pte, c: Page)
    requires Inv(s) && k !in s.ptes && p.frame in s.held && !p.cow && k.0 in s.spaces && k.1 < UPAGES &&
             Tab(k) in s.tabs
    ensures var t := Place(s.(bytes := s.bytes[p.frame := c]), k, p);
            Inv(t) && View(t) == View(s).(cells := View(s).cells[k := Cell(c, p.write, p.user)])
  {
    var t := Place(s.(bytes := s.bytes[p.frame := c]), k, p);
    PlaceCounts(s, k, p, c);
    assert CountOk(s, p.frame);
    forall q | q in t.ptes
      ensures EntryOk(t, q) && CellOf(t, t.ptes[q]) == if q == k then Cell(c, p.write, p.user) else CellOf(s, s.ptes[q])
    {
      if q != k {
        assert EntryOk(s, q);
        MappedCounted(s, q);
      }
    }
    assert View(t).cells == View(s).cells[k := Cell(c, p.write, p.user)];
  }

  lemma UnmapInv(s: Sys, k: Key)
    requires Inv(s) && k in s.ptes
    ensures Inv(Unmap(s, k)) && View(Unmap(s, k)) == View(s).(cells := View(s).cells - {k})
    ensures forall f :: f in Unmap(s, k).free <==> f in s.free || Refs(s.ptes, f) == {k}
  {
    var f0, t := s.ptes[k].frame, Unmap(s, k);
    MappedCounted(s, k);
    FreeHead(s.free, f0);
    forall f
      ensures CountOk(t, f) && (f != f0 ==> Refs(s.ptes, f) != {k})
    {
      assert CountOk(s, f);
      RefsDrop(s.ptes, k, f);
      assert f != f0 ==> k !in Refs(s.ptes, f);
      assert Refs(s.ptes, f) - {k} == if f == f0 then Refs(s.ptes, f) - {k} else Refs(s.ptes, f);
    }
    OneLeft(s.ptes, k);
    forall q | q in t.ptes
      ensures EntryOk(t, q) && CellOf(t, t.ptes[q]) == CellOf(s, s.ptes[q])
    {
      assert EntryOk(s, q);
      if s.ptes[q].frame == f0 {
        TwoRefs(s.ptes, k, q);
      }
    }
    assert View(t).cells == View(s).cells - {k};
  }

  lemma OneLeft(ptes: map<Key, Pte>, k: Key)
    requires k in ptes
    ensures |Refs(ptes, ptes[k].frame)| == 1 <==> Refs(ptes, ptes[k].frame) == {k}
  {
    var r := Refs(ptes, ptes[k].frame);
    assert k in r;
    if |r| == 1 {
      assert |r - {k}| == 0;
    }
  }

  lemma ShareCounts(s: Sys, k: Key, d: Key)
    requires Inv(s) && k in s.ptes && d !in s.ptes
    ensures Counts(Share(s, k, d))
  {
    var p := Protected(s.ptes[k]);
    var t := Share(s, k, d);
    assert k in Refs(s.ptes, p.frame);
    MappedCounted(s, k);
    forall f
      ensures CountOk(t, f)
    {
      assert CountOk(s, f) && d !in Refs(s.ptes, f);
      RefsPut(s.ptes, k, p, f);
      RefsPut(s.ptes[k := p], d, p, f);
      if f == p.frame {
        assert Refs(t.ptes, f) == Refs(s.ptes, f) + {d};
      } else {
        assert Refs(t.ptes, f) == Refs(s.ptes, f);
      }
    }
  }

  lemma ShareEntries(s: Sys, k: Key, d: Key)
    requires Inv(s) && k in s.ptes && d !in s.ptes && d.0 in s.spaces && d.1 < UPAGES
    ensures Entries(Share(s, k, d))
  {
    var p := Protected(s.ptes[k]);
    var t := Share(s, k, d);
    assert EntryOk(s, k);
    forall q | q in t.ptes
      ensures EntryOk(t, q)
    {
      if q != d && q != k {
        assert EntryOk(s, q);
        if s.ptes[q].frame == p.frame && s.ptes[q].write {
          WriterAlone(s, q, k);
        }
      }
    }
  }

  lemma ShareView(s: Sys, k: Key, d: Key)
    requires k in s.ptes && d !in s.ptes
    ensures View(Share(s, k, d)) == View(s).(cells := View(s).cells[d := View(s).cells[k]])
  {
    var t := Share(s, k, d);
    forall q | q in t.ptes
      ensures CellOf(t, t.ptes[q]) == if q == d then CellOf(s, s.ptes[k]) else CellOf(s, s.ptes[q])
    {
    }
    assert View(t).cells == View(s).cells[d := View(s).cells[k]];
  }

  lemma ShareInv(s: Sys, k: Key, d: Key)
    requires Inv(s) && k in s.ptes && d !in s.ptes && d.0 in s.spaces && d.1 < UPAGES
    ensures Inv(Share(s, k, d)) && View(Share(s, k, d)) == View(s).(cells := View(s).cells[d := View(s).cells[k]])
    ensures Share(s, k, d).free == s.free && Share(s, k, d).held == s.held
  {
    ShareCounts(s, k, d);
    ShareEntries(s, k, d);
    ShareView(s, k, d);
    MappedCounted(s, k);
  }

  /** A user store reaches one page of one process, however many had shared its frame. */
  lemma StoreInv(s: Sys, k: Key, i: nat, b: int)
    requires Inv(s) && k in s.ptes && s.ptes[k].write && i < |Bytes(s, s.ptes[k].frame)|
    ensures Inv(Stored(s, k, i, b)) && View(Stored(s, k, i, b)) == EagerStore(View(s), k, i, b)
  {
    var t := Stored(s, k, i, b);
    MappedCounted(s, k);
    forall f
      ensures CountOk(t, f)
    {
      assert CountOk(s, f);
    }
    forall q | q in t.ptes
      ensures EntryOk(t, q)
      ensures CellOf(t, t.ptes[q]) == if q == k then CellOf(s, s.ptes[k]).(page := Bytes(s, s.ptes[k].frame)[i := b])
                                      else CellOf(s, s.ptes[q])
    {
      assert EntryOk(s, q);
      if s.ptes[q].frame == s.ptes[k].frame {
        WriterAlone(s, k, q);
      }
    }
    assert View(t).cells == EagerStore(View(s), k, i, b).cells;
  }

  lemma ReclaimInv(s: Sys, k: Key)
    requires Inv(s) && k in s.ptes && s.ptes[k].cow && Count(s, s.ptes[k].frame) <= 1
    ensures Inv(Reclaimed(s, k)) && View(Reclaimed(s, k)) == View(s)
  {
    var t := Reclaimed(s, k);
    MappedCounted(s, k);
    forall f
      ensures CountOk(t, f)
    {
      assert CountOk(s, f);
      RefsPut(s.ptes, k, t.ptes[k], f);
      assert f == t.ptes[k].frame ==> k in Refs(s.ptes, f);
      assert f != t.ptes[k].frame ==> k !in Refs(s.ptes, f);
      assert Refs(t.ptes, f) == Refs(s.ptes, f);
    }
    forall q | q in t.ptes
      ensures EntryOk(t, q) && CellOf(t, t.ptes[q]) == CellOf(s, s.ptes[q])
    {
      assert EntryOk(s, q);
    }
    assert View(t).cells == View(s).cells;
  }

  lemma CopyCounts(s: Sys, k: Key)
    requires Inv(s) && k in s.ptes && Count(s, s.ptes[k].frame) > 1 && s.free != []
    ensures Counts(Copied(s, k))
  {
    var f0, g, t := s.ptes[k].frame, s.free[0], Copied(s, k);
    MappedCounted(s, k);
    FreeUnused(s, g);
    forall f
      ensures CountOk(t, f)
    {
      assert CountOk(s, f);
      RefsPut(s.ptes, k, t.ptes[k], f);
      if f == f0 {
        assert k in Refs(s.ptes, f);
      } else if f == g {
        assert Refs(t.ptes, f) == {k};
      } else {
        assert Refs(t.ptes, f) == Refs(s.ptes, f);
      }
    }
  }

  lemma CopyEntries(s: Sys, k: Key)
    requires Inv(s) && k in s.ptes && Count(s, s.ptes[k].frame) > 1 && s.free != []
    ensures Entries(Copied(s, k))
  {
    var t := Copied(s, k);
    assert EntryOk(s, k);
    MappedCounted(s, k);
    FreeUnused(s, s.free[0]);
    forall q | q in t.ptes
      ensures EntryOk(t, q)
    {
      assert EntryOk(s, q);
      MappedCounted(s, q);
    }
  }

  lemma CopyView(s: Sys, k: Key)
    requires Inv(s) && k in s.ptes && s.ptes[k].cow && s.free != []
    ensures View(Copied(s, k)) == View(s).(cells := View(s).cells[k := View(s).cells[k].(user := true)])
  {
    var t := Copied(s, k);
    forall q | q in t.ptes
      ensures CellOf(t, t.ptes[q]) == if q == k then CellOf(s, s.ptes[k]).(user := true) else CellOf(s, s.ptes[q])
    {
      MappedCounted(s, q);
    }
    assert View(t).cells == View(s).cells[k := View(s).cells[k].(user := true)];
  }

  /** The copy leaves every page as its process saw it, except that a page kept from the user is shown. */
  lemma CopyInv(s: Sys, k: Key)
    requires Inv(s) && k in s.ptes && s.ptes[k].cow && Count(s, s.ptes[k].frame) > 1 && s.free != []
    ensures Inv(Copied(s, k)) &&
            View(Copied(s, k)) == View(s).(cells := View(s).cells[k := View(s).cells[k].(user := true)])
    ensures Copied(s, k).ptes[k].write
  {
    CopyCounts(s, k);
    CopyEntries(s, k);
    CopyView(s, k);
    MappedCounted(s, k);
    FreeUnused(s, s.free[0]);
    FreeTail(s.free);
  }

  /** A write fault keeps what every process sees just when the page was the user's, or its frame its own. */
  lemma FaultView(s: Sys, k: Key)
    requires Inv(s) && k in s.ptes && s.ptes[k].cow && (Count(s, s.ptes[k].frame) > 1 ==> s.free != [])
    ensures Inv(Faulted(s, k)) && Faulted(s, k).ptes[k].write
    ensures View(Faulted(s, k)) == View(s) <==> s.ptes[k].user || Count(s, s.ptes[k].frame) == 1
    ensures forall q | q in s.ptes && q != k :: View(Faulted(s, k)).cells[q] == View(s).cells[q]
  {
    MappedCounted(s, k);
    if Count(s, s.ptes[k].frame) > 1 {
      CopyInv(s, k);
      assert View(Copied(s, k)).cells[k] == View(s).cells[k].(user := true);
      if s.ptes[k].user {
        assert View(s).cells[k := View(s).cells[k].(user := true)] == View(s).cells;
      }
    } else {
      ReclaimInv(s, k);
    }
  }

  lemma GrowInv(s: Sys, k: Key)
    requires Inv(s) && s.free != [] && k !in s.ptes && k.0 in s.spaces && k.1 < UPAGES
    ensures Inv(Grown(s, k))
    ensures View(Grown(s, k)) == View(s).(cells := View(s).cells[k := Cell(Zeros(|Bytes(s, s.free[0])|), true, true)])
  {
    var g, u := s.free[0], s.(tabs := s.tabs + {Tab(k)});
    TabsInv(s, Tab(k));
    KallocInv(u);
    PlaceInv(Kalloc(u), k, Pte(g, true, true, false), Zeros(|Bytes(s, g)|));
  }

  lemma TabsInv(s: Sys, tab: Table)
    requires Inv(s)
    ensures Inv(s.(tabs := s.tabs + {tab})) && View(s.(tabs := s.tabs + {tab})) == View(s)
  {
    var t := s.(tabs := s.tabs + {tab});
    forall f
      ensures CountOk(t, f)
    {
      assert CountOk(s, f);
    }
    forall k | k in t.ptes
      ensures EntryOk(t, k)
    {
      assert EntryOk(s, k);
    }
  }

  // --- Loops ---

  /** The page of `s` that page `k` shows once `d` is a copy of `pg` below `n`. */
  function Source(k: Key, pg: nat, d: nat, n: nat): Key {
    if k.0 == d && k.1 < n then (pg, k.1) else k
  }

  /** The first `n` pages of `pg` are shared with `d`: every page shows what eager copying would show there. */
  ghost predicate ForkedTo(s: Sys, t: Sys, pg: nat, d: nat, n: nat) {
    t.spaces == s.spaces && t.free == s.free && t.held == s.held &&
    (forall k :: k in t.ptes <==> Source(k, pg, d, n) in s.ptes) &&
    (forall k | k in t.ptes && Source(k, pg, d, n) in s.ptes ::
       t.ptes[k].frame == s.ptes[Source(k, pg, d, n)].frame &&
       CellOf(t, t.ptes[k]) == CellOf(s, s.ptes[Source(k, pg, d, n)]))
  }

  lemma ForkStep(s: Sys, t: Sys, pg: nat, d: nat, v: nat)
    requires Inv(t) && ForkedTo(s, t, pg, d, v) && pg != d && d in s.spaces && v < UPAGES
    requires (pg, v) in s.ptes && (d, v) !in s.ptes
    ensures (pg, v) in t.ptes && (d, v) !in t.ptes
    ensures Inv(Share(t, (pg, v), (d, v))) && ForkedTo(s, Share(t, (pg, v), (d, v)), pg, d, v + 1)
  {
    var u := Share(t, (pg, v), (d, v));
    ShareInv(t, (pg, v), (d, v));
    forall k
      ensures k in u.ptes <==> Source(k, pg, d, v + 1) in s.ptes
      ensures k in u.ptes ==> u.ptes[k].frame == s.ptes[Source(k, pg, d, v + 1)].frame &&
                              CellOf(u, u.ptes[k]) == CellOf(s, s.ptes[Source(k, pg, d, v + 1)])
    {
      if k == (d, v) {
        assert View(u).cells[k] == View(t).cells[(pg, v)];
      } else if k in t.ptes {
        assert Source(k, pg, d, v + 1) == Source(k, pg, d, v) && View(u).cells[k] == View(t).cells[k];
      }
    }
  }

  /** The parent has the page and the child does not yet. */
  predicate ToShare(s: Sys, pg: nat, d: nat, v: nat) {
    (pg, v) in s.ptes && (d, v) !in s.ptes
  }

  /** copyuvm from page `lo` on. */
  lemma {:induction false} SharedInv(s: Sys, t: Sys, pg: nat, d: nat, lo: nat, hi: nat)
    requires Inv(t) && ForkedTo(s, t, pg, d, lo) && pg != d && d in s.spaces && lo <= hi <= UPAGES
    requires forall v: nat | v < hi :: ToShare(s, pg, d, v)
    ensures Inv(Shared(t, pg, d, lo, hi)) && ForkedTo(s, Shared(t, pg, d, lo, hi), pg, d, hi)
    decreases hi - lo
  {
    if lo < hi {
      assert ToShare(s, pg, d, lo);
      ForkStep(s, t, pg, d, lo);
      SharedInv(s, ShareAny(t, (pg, lo), (d, lo)), pg, d, lo + 1, hi);
    }
  }

  /** The pages of `pg` in [lo, hi) are gone, and every other page is as it was. */
  ghost predicate Less(s: Sys, t: Sys, pg: nat, lo: nat, hi: nat) {
    t.spaces == s.spaces && t.tabs == s.tabs && t.held == s.held &&
    (forall k :: k in t.ptes <==> k in s.ptes && !Within(k, pg, lo, hi)) &&
    (forall k | k in t.ptes && k in s.ptes :: t.ptes[k] == s.ptes[k] && CellOf(t, t.ptes[k]) == CellOf(s, s.ptes[k]))
  }

  lemma UnmapLess(s: Sys, pg: nat, v: nat)
    requires Inv(s)
    ensures Inv(UnmapAny(s, (pg, v))) && Less(s, UnmapAny(s, (pg, v)), pg, v, v + 1)
  {
    var k := (pg, v);
    if k in s.ptes {
      UnmapInv(s, k);
      var t := Unmap(s, k);
      forall q | q in t.ptes && q in s.ptes
        ensures t.ptes[q] == s.ptes[q] && CellOf(t, t.ptes[q]) == CellOf(s, s.ptes[q])
      {
        assert View(t).cells[q] == View(s).cells[q];
      }
    }
  }

  lemma LessOn(s: Sys, t: Sys, u: Sys, pg: nat, lo: nat, mid: nat, hi: nat)
    requires Less(s, t, pg, lo, mid) && Less(t, u, pg, mid, hi) && lo <= mid <= hi
    ensures Less(s, u, pg, lo, hi)
  {
    forall k
      ensures k in u.ptes <==> k in s.ptes && !Within(k, pg, lo, hi)
    {
    }
  }

  /** deallocuvm takes away exactly the pages in range. */
  lemma {:induction false} EmptiedInv(s: Sys, pg: nat, lo: nat, hi: nat)
    requires Inv(s) && lo <= hi
    ensures Inv(Emptied(s, pg, lo, hi)) && Less(s, Emptied(s, pg, lo, hi), pg, lo, hi)
    decreases hi - lo
  {
    if lo < hi {
      UnmapLess(s, pg, lo);
      EmptiedInv(UnmapAny(s, (pg, lo)), pg, lo + 1, hi);
      LessOn(s, UnmapAny(s, (pg, lo)), Emptied(s, pg, lo, hi), pg, lo, lo + 1, hi);
    }
  }

  // --- Whole calls ---

  lemma ForkCells(e: Eager, pg: nat, d: nat, n: nat, k: Key)
    requires forall v: nat | v < n :: (pg, v) in e.cells
    ensures k in EagerFork(e, pg, d, n).cells <==> Source(k, pg, d, n) in e.cells
    ensures Source(k, pg, d, n) in e.cells ==> EagerFork(e, pg, d, n).cells[k] == e.cells[Source(k, pg, d, n)]
  {
    assert k == (k.0, k.1);
  }

  lemma SourceCells(e: Eager, now: Eager, pg: nat, d: nat, n: nat)
    requires forall v: nat | v < n :: (pg, v) in e.cells
    requires forall k :: k in now.cells <==> Source(k, pg, d, n) in e.cells
    requires forall k | k in now.cells && Source(k, pg, d, n) in e.cells :: now.cells[k] == e.cells[Source(k, pg, d, n)]
    ensures now.cells == EagerFork(e, pg, d, n).cells
  {
    forall k: Key
      ensures k in now.cells <==> k in EagerFork(e, pg, d, n).cells
      ensures k in now.cells ==> now.cells[k] == EagerFork(e, pg, d, n).cells[k]
    {
      ForkCells(e, pg, d, n, k);
    }
  }

  lemma ForkView(s: Sys, t: Sys, pg: nat, d: nat, n: nat)
    requires ForkedTo(s, t, pg, d, n) && d in s.spaces && forall v: nat | v < n :: ToShare(s, pg, d, v)
    ensures View(t) == EagerFork(View(s), pg, d, n)
  {
    var e, now := View(s), View(t);
    forall v: nat | v < n
      ensures (pg, v) in e.cells
    {
      assert ToShare(s, pg, d, v);
    }
    forall k: Key
      ensures k in now.cells <==> Source(k, pg, d, n) in e.cells
      ensures k in now.cells && Source(k, pg, d, n) in e.cells ==> now.cells[k] == e.cells[Source(k, pg, d, n)]
    {
    }
    SourceCells(e, now, pg, d, n);
  }

  function WithSpace(s: Sys, d: nat): Sys {
    s.(spaces := s.spaces + {d})
  }

  lemma WithSpaceInv(s: Sys, d: nat)
    requires Inv(s)
    ensures Inv(WithSpace(s, d)) && View(WithSpace(s, d)) == Eager(s.spaces + {d}, View(s).cells)
    ensures d !in s.spaces ==> forall v: nat :: (d, v) !in s.ptes
  {
    var t := WithSpace(s, d);
    forall f
      ensures CountOk(t, f)
    {
      assert CountOk(s, f);
    }
    forall k | k in t.ptes
      ensures EntryOk(t, k)
    {
      assert EntryOk(s, k);
    }
    forall v: nat
      ensures d !in s.spaces ==> (d, v) !in s.ptes
    {
      if (d, v) in s.ptes {
        assert EntryOk(s, (d, v));
      }
    }
    assert View(t).cells == View(s).cells;
  }

  function Closed(t: Sys, pg: nat): Sys {
    t.(spaces := t.spaces - {pg}, tabs := set tab | tab in t.tabs && tab.pg != pg)
  }

  /** freevm: every user page goes, then the page tables and the directory. */
  function Freed(s: Sys, pg: nat): Sys {
    Closed(Emptied(s, pg, 0, UPAGES), pg)
  }

  lemma SpaceDropped(t: Sys, pg: nat)
    requires Inv(t) && forall k | k in t.ptes :: k.0 != pg
    ensures Inv(Closed(t, pg))
  {
    var u := Closed(t, pg);
    forall f
      ensures CountOk(u, f)
    {
      assert CountOk(t, f);
    }
    forall k | k in u.ptes
      ensures EntryOk(u, k)
    {
      assert EntryOk(t, k);
    }
  }

  /** Every page of `pg` is gone, and every other entry is as it was. */
  ghost predicate Without(s: Sys, t: Sys, pg: nat) {
    (forall k :: k in t.ptes <==> k in s.ptes && k.0 != pg) &&
    (forall k | k in t.ptes && k in s.ptes :: t.ptes[k] == s.ptes[k] && CellOf(t, t.ptes[k]) == CellOf(s, s.ptes[k]))
  }

  lemma LessAll(s: Sys, t: Sys, pg: nat)
    requires Inv(s) && Less(s, t, pg, 0, UPAGES)
    ensures Without(s, t, pg)
  {
    forall k
      ensures k in t.ptes <==> k in s.ptes && k.0 != pg
    {
      if k in s.ptes {
        assert EntryOk(s, k);
      }
    }
  }

  lemma WithoutView(s: Sys, t: Sys, pg: nat)
    requires Without(s, t, pg)
    ensures View(t).cells == EagerFree(View(s), pg).cells
  {
  }

  lemma ClosedInv(s: Sys, t: Sys, pg: nat)
    requires Inv(s) && Inv(t) && Less(s, t, pg, 0, UPAGES)
    ensures Inv(Closed(t, pg)) && View(Closed(t, pg)) == EagerFree(View(s), pg) && Closed(t, pg).held == s.held
    ensures Without(s, Closed(t, pg), pg)
  {
    LessAll(s, t, pg);
    SpaceDropped(t, pg);
    WithoutView(s, Closed(t, pg), pg);
  }

  lemma FreedInv(s: Sys, pg: nat)
    requires Inv(s)
    ensures Inv(Freed(s, pg)) && View(Freed(s, pg)) == EagerFree(View(s), pg) && Freed(s, pg).held == s.held
    ensures Without(s, Freed(s, pg), pg)
  {
    EmptiedInv(s, pg, 0, UPAGES);
    ClosedInv(s, Emptied(s, pg, 0, UPAGES), pg);
  }

  /** A frame is free exactly when no page maps it and the kernel does not hold it: nothing leaks. */
  lemma NothingLeaks(s: Sys, f: nat)
    requires Inv(s) && f in s.refc
    ensures f in s.free <==> f !in s.held && forall k | k in s.ptes :: s.ptes[k].frame != f
  {
    assert CountOk(s, f);
    if k :| k in s.ptes && s.ptes[k].frame == f {
      assert k in Refs(s.ptes, f);
    }
  }

  /** copyuvm of the first `n` pages into the new address space `d`. */
  function Forked(s: Sys, pg: nat, d: nat, n: nat): Sys {
    Shared(WithSpace(s, d), pg, d, 0, n)
  }

  /** What copyuvm asks for: a new directory, and the pages there. */
  predicate CanFork(s: Sys, pg: nat, d: nat, n: nat) {
    pg in s.spaces && d !in s.spaces && n <= UPAGES && forall v: nat | v < n :: (pg, v) in s.ptes
  }

  lemma ForkedInv(s: Sys, pg: nat, d: nat, n: nat)
    requires Inv(s) && CanFork(s, pg, d, n)
    ensures Inv(Forked(s, pg, d, n)) && ForkedTo(WithSpace(s, d), Forked(s, pg, d, n), pg, d, n)
    ensures View(Forked(s, pg, d, n)) == EagerFork(View(s), pg, d, n)
  {
    var a := WithSpace(s, d);
    WithSpaceInv(s, d);
    forall v: nat | v < n
      ensures ToShare(a, pg, d, v)
    {
    }
    assert ForkedTo(a, a, pg, d, 0);
    SharedInv(a, a, pg, d, 0, n);
    ForkView(a, Forked(s, pg, d, n), pg, d, n);
    assert EagerFork(View(a), pg, d, n) == EagerFork(View(s), pg, d, n);
  }

  /** The entries of the others after a copy of the first `n` pages was given up. */
  lemma OthersAfter(s: Sys, b: Sys, t: Sys, pg: nat, d: nat, n: nat)
    requires Inv(s) && d !in s.spaces && ForkedTo(WithSpace(s, d), b, pg, d, n) && Without(b, t, d)
    ensures forall k :: k in t.ptes <==> k in s.ptes
    ensures forall k | k in s.ptes :: t.ptes[k].frame == s.ptes[k].frame && CellOf(t, t.ptes[k]) == CellOf(s, s.ptes[k])
  {
    forall k
      ensures k in t.ptes <==> k in s.ptes
      ensures k in t.ptes ==> t.ptes[k].frame == s.ptes[k].frame && CellOf(t, t.ptes[k]) == CellOf(s, s.ptes[k])
    {
      if k in s.ptes {
        assert EntryOk(s, k);
      }
      if k.0 != d {
        assert Source(k, pg, d, n) == k;
      }
    }
  }

  /** Giving up a copy of the first `n` pages. */
  lemma AfterFailure(s: Sys, b: Sys, t: Sys, pg: nat, d: nat, n: nat)
    requires Inv(s) && Inv(t) && d !in s.spaces && ForkedTo(WithSpace(s, d), b, pg, d, n) && Without(b, t, d)
    requires t.spaces == b.spaces - {d} && t.held == b.held
    ensures View(t) == View(s) && forall f :: Count(t, f) == Count(s, f)
  {
    OthersAfter(s, b, t, pg, d, n);
    assert View(t).cells == View(s).cells;
    forall f
      ensures Count(t, f) == Count(s, f)
    {
      assert CountOk(t, f) && CountOk(s, f) && Refs(t.ptes, f) == Refs(s.ptes, f);
    }
  }

  function ProtectedAt(s: Sys, k: Key): Sys
    requires k in s.ptes
  {
    s.(ptes := s.ptes[k := Protected(s.ptes[k])])
  }

  lemma ProtectInv(s: Sys, k: Key)
    requires Inv(s) && k in s.ptes
    ensures Inv(ProtectedAt(s, k)) && View(ProtectedAt(s, k)) == View(s)
  {
    var t := ProtectedAt(s, k);
    forall f
      ensures CountOk(t, f)
    {
      assert CountOk(s, f) && Refs(t.ptes, f) == Refs(s.ptes, f);
    }
    forall q | q in t.ptes
      ensures EntryOk(t, q)
    {
      assert EntryOk(s, q);
    }
    assert View(t).cells == View(s).cells;
  }

  /** A copyuvm for which mapping page `n` fails: that page is protected already, and the half-made copy goes. */
  function Failed(s: Sys, pg: nat, d: nat, n: nat): Sys {
    var b := Forked(s, pg, d, n);
    Freed(if (pg, n) in b.ptes then ProtectedAt(b, (pg, n)) else b, d)
  }

  lemma ForkedPage(s: Sys, b: Sys, pg: nat, d: nat, n: nat)
    requires ForkedTo(WithSpace(s, d), b, pg, d, n) && pg != d && (pg, n) in s.ptes
    ensures (pg, n) in b.ptes
  {
    assert Source((pg, n), pg, d, n) == (pg, n);
  }

  /** A failed copyuvm leaves what everybody sees, and every count, as before. */
  lemma FailedFork(s: Sys, pg: nat, d: nat, n: nat)
    requires Inv(s) && CanFork(s, pg, d, n + 1)
    ensures Inv(Failed(s, pg, d, n)) && View(Failed(s, pg, d, n)) == View(s)
    ensures forall f :: Count(Failed(s, pg, d, n), f) == Count(s, f)
  {
    var b := Forked(s, pg, d, n);
    ForkedInv(s, pg, d, n);
    ForkedPage(s, b, pg, d, n);
    var c := ProtectedAt(b, (pg, n));
    ProtectInv(b, (pg, n));
    SameForked(WithSpace(s, d), b, c, pg, d, n);
    FreedInv(c, d);
    AfterFailure(s, c, Freed(c, d), pg, d, n);
  }

  lemma SameForked(a: Sys, b: Sys, c: Sys, pg: nat, d: nat, n: nat)
    requires ForkedTo(a, b, pg, d, n) && (pg, n) in b.ptes && c == ProtectedAt(b, (pg, n))
    ensures ForkedTo(a, c, pg, d, n)
  {
  }

  /** Two pages show one frame, which nobody else maps; neither may write it yet. */
  ghost predicate Pair(t: Sys, k: Key, q: Key, f: nat) {
    k in t.ptes && q in t.ptes && t.ptes[k].frame == t.ptes[q].frame == f && Refs(t.ptes, f) == {k, q} &&
    t.ptes[k].cow && t.ptes[q].cow && !t.ptes[k].write && !t.ptes[q].write
  }

  lemma OnlyPair(s: Sys, t: Sys, pg: nat, d: nat, n: nat, v: nat)
    requires Inv(s) && (pg, v) in s.ptes && s.ptes[(pg, v)].write && pg != d && v < n && (d, v) !in s.ptes
    requires ForkedTo(s, t, pg, d, n)
    ensures Refs(t.ptes, s.ptes[(pg, v)].frame) == {(pg, v), (d, v)}
    ensures forall k | k in {(pg, v), (d, v)} :: k in t.ptes && CellOf(t, t.ptes[k]).writable
  {
    var k, q, f := (pg, v), (d, v), s.ptes[(pg, v)].frame;
    assert Source(k, pg, d, n) == k && Source(q, pg, d, n) == k;
    forall p: Key | p in t.ptes && t.ptes[p].frame == f
      ensures p == k || p == q
    {
      WriterAlone(s, k, Source(p, pg, d, n));
      assert p == (p.0, p.1);
    }
    assert Refs(t.ptes, f) == {k, q};
  }

  lemma PairShut(t: Sys, k: Key, q: Key, f: nat)
    requires Inv(t) && k != q && Refs(t.ptes, f) == {k, q}
    requires forall p | p in {k, q} :: p in t.ptes && CellOf(t, t.ptes[p]).writable
    ensures Pair(t, k, q, f)
  {
    assert k in Refs(t.ptes, f) && q in Refs(t.ptes, f);
    if t.ptes[k].write {
      WriterAlone(t, k, q);
    }
    if t.ptes[q].write {
      WriterAlone(t, q, k);
    }
  }

  /** After a fork each page the parent could write is shared by exactly the two. */
  lemma ForkShares(s: Sys, pg: nat, d: nat, n: nat, v: nat)
    requires Inv(s) && CanFork(s, pg, d, n) && v < n && s.ptes[(pg, v)].write
    ensures Inv(Forked(s, pg, d, n)) && Pair(Forked(s, pg, d, n), (pg, v), (d, v), s.ptes[(pg, v)].frame)
  {
    WithSpaceInv(s, d);
    ForkedInv(s, pg, d, n);
    OnlyPair(WithSpace(s, d), Forked(s, pg, d, n), pg, d, n, v);
    PairShut(Forked(s, pg, d, n), (pg, v), (d, v), s.ptes[(pg, v)].frame);
  }
}
