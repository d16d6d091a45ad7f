/** copyuvm, deallocuvm, freevm and the write-fault handler of the copy-on-write tree, over its kalloc.c. */
module CowCode {
  import opened PageKeys
  import opened CowTable
  import Machine = CowMachine

  /** How the handler ends: the page is writable, the process is killed, or the kernel goes through a null pointer. */
  datatype Outcome = Fixed | Killed | NoTable | NoFrame

  /** What the handler does, as the checks decide. */
  function FaultOutcome(s: Sys, k: Key): Outcome {
    if Tab(k) !in s.tabs then NoTable
    else if k !in s.ptes || !s.ptes[k].cow then Killed
    else if Count(s, s.ptes[k].frame) > 1 && s.free == [] then NoFrame
    else Fixed
  }

  /** The handler succeeds exactly on a copy-on-write page with a frame to be had if its own is shared. */
  lemma FixedExactly(s: Sys, k: Key)
    requires Inv(s)
    ensures FaultOutcome(s, k) == Fixed <==> Machine.FaultRuns(s, k)
    ensures FaultOutcome(s, k) == Killed <==> Tab(k) in s.tabs && (k !in s.ptes || !s.ptes[k].cow)
    ensures FaultOutcome(s, k) == NoTable <==> Tab(k) !in s.tabs
  {
    if k in s.ptes {
      assert EntryOk(s, k);
    }
  }

  /** Pages under a missing table are not mapped: passing over them changes nothing. */
  lemma {:induction false} SkipTable(s: Sys, pg: nat, lo: nat, mid: nat, hi: nat)
    requires Entries(s) && lo <= mid <= hi
    requires forall v: nat | lo <= v < mid :: Table(pg, v / NENTRIES) !in s.tabs
    ensures Emptied(s, pg, lo, hi) == Emptied(s, pg, mid, hi)
    decreases mid - lo
  {
    if lo < mid {
      assert Table(pg, lo / NENTRIES) !in s.tabs;
      if (pg, lo) in s.ptes {
        assert false;
      }
      SkipTable(s, pg, lo + 1, mid, hi);
    }
  }

  class Vm {
    var spaces: set<nat>
    var tabs: set<Table>
    var ptes: map<Key, Pte>
    var bytes: map<nat, Page>
    var refc: map<nat, int>
    var freelist: seq<nat>
    ghost var held: set<nat>

    /** The state as a value. */
    ghost function Now(): Sys
      reads this
    {
      Sys(spaces, tabs, ptes, bytes, refc, freelist, held)
    }

    ghost predicate Valid()
      reads this
    {
      Inv(Now())
    }

    constructor (frames: map<nat, Page>, list: seq<nat>)
      requires (forall f :: f in list <==> f in frames) && Distinct(list)
      ensures Valid() && spaces == {} && ptes == map[] && freelist == list
    {
      spaces, tabs, ptes, held := {}, {}, map[], {};
      bytes, freelist := frames, list;
      refc := map f | f in frames :: 0;
      new;
      forall f
        ensures CountOk(Now(), f)
      {
        assert Refs(ptes, f) == {};
      }
    }

    /** kfree; it panics on a negative count, which no consistent state has. */
    method Kfree(f: nat) returns (panic: bool)
      requires f in refc && f in bytes
      modifies this`refc, this`bytes, this`freelist
      ensures panic <==> old(refc)[f] < 0
      ensures Now() == if panic then old(Now()) else CowTable.Kfree(old(Now()), f)
    {
      if refc[f] < 0 {
        return true;
      }
      panic := false;
      ghost var was := refc;
      if refc[f] > 0 {
        refc := refc[f := refc[f] - 1];
      }
      assert refc == was[f := refc[f]];
      if refc[f] == 0 {
        bytes := bytes[f := Ones(|bytes[f]|)];
        freelist := [f] + freelist;
      }
    }

    /** kalloc; it panics when the first free frame has a count, which no consistent state allows. */
    method Kalloc() returns (got: bool, f: nat, panic: bool)
      requires forall g | g in freelist :: g in refc
      modifies this`refc, this`freelist, this`held
      ensures got <==> old(freelist) != [] && !panic
      ensures panic <==> old(freelist) != [] && old(refc)[old(freelist)[0]] != 0
      ensures old(Valid()) ==> !panic
      ensures got ==> f == old(freelist)[0] && Now() == CowTable.Kalloc(old(Now()))
      ensures !got ==> Now() == old(Now())
    {
      got, f, panic := false, 0, false;
      if freelist != [] {
        assert freelist[0] in freelist;
        if refc[freelist[0]] != 0 {
          return false, 0, true;
        }
        f := freelist[0];
        refc := refc[f := 1];
        freelist := freelist[1..];
        held := held + {f};
        got := true;
      }
    }

    /** One page of deallocuvm. */
    method DropPage(k: Key)
      requires Valid() && k in ptes
      modifies this
      ensures Valid() && Now() == Unmap(old(Now()), k)
    {
      MappedCounted(Now(), k);
      UnmapInv(Now(), k);
      var panic := Kfree(ptes[k].frame);
      ptes := ptes - {k};
    }

    /** deallocuvm: a scan page by page, passing over what a missing table would have covered. */
    method DeallocUvm(pg: nat, oldsz: nat, newsz: nat) returns (r: nat)
      requires Valid() && oldsz <= KERNBASE
      modifies this
      ensures Valid() && r == if newsz >= oldsz then oldsz else newsz
      ensures Now() == if newsz >= oldsz then old(Now()) else Emptied(old(Now()), pg, PageUp(newsz), PageUp(oldsz))
    {
      if newsz >= oldsz {
        return oldsz;
      }
      ghost var top, goal := PageUp(oldsz), Emptied(Now(), pg, PageUp(newsz), PageUp(oldsz));
      ghost var v := PageUp(newsz);
      var a := PageUp(newsz) * PGSIZE;
      PagesBelow(v, oldsz);
      while a < oldsz
        invariant a == v * PGSIZE && (a < oldsz <==> v < top) && Valid() && Emptied(Now(), pg, v, top) == goal
        decreases oldsz - a
      {
        ghost var next;
        a, next := DropTurn(pg, a, v, top);
        v := next;
        PagesBelow(v, oldsz);
      }
      r := newsz;
    }

    /** One turn of deallocuvm's loop, up to where the next one starts. */
    method DropTurn(pg: nat, a: nat, ghost v: nat, ghost top: nat) returns (next: nat, ghost w: nat)
      requires Valid() && a == v * PGSIZE && v < top
      modifies this
      ensures Valid() && next == w * PGSIZE && w > v
      ensures Emptied(Now(), pg, w, top) == Emptied(old(Now()), pg, v, top)
    {
      var page := a / PGSIZE;
      if Table(pg, page / NENTRIES) !in tabs {
        w := (page / NENTRIES + 1) * NENTRIES;
        SkipTable(Now(), pg, v, if w < top then w else top, top);
        next := (page / NENTRIES + 1) * NENTRIES * PGSIZE - PGSIZE;
      } else {
        w := v + 1;
        if (pg, page) in ptes {
          DropPage((pg, page));
        }
        next := a;
      }
      next := next + PGSIZE;
    }

    /** freevm: the user pages, then page tables and directory. */
    method FreeVm(pg: nat)
      requires Valid()
      modifies this
      ensures Valid() && Now() == Freed(old(Now()), pg)
    {
      FreedInv(Now(), pg);
      var _ := DeallocUvm(pg, KERNBASE, 0);
      tabs := set tab | tab in tabs && tab.pg != pg;
      spaces := spaces - {pg};
    }

    /**
     copyuvm into the directory `d` from setupkvm; mapping page `room`, if there is one, finds no memory for a table.
     */
    method CopyUvm(pg: nat, sz: nat, d: nat, room: nat) returns (ok: bool)
      requires Valid() && sz <= KERNBASE && CanFork(Now(), pg, d, PageUp(sz))
      modifies this
      ensures Valid() && ok == (room >= PageUp(sz))
      ensures Now() == if ok then Forked(old(Now()), pg, d, PageUp(sz)) else Failed(old(Now()), pg, d, room)
    {
      ghost var start, n, v := Now(), PageUp(sz), 0;
      spaces := spaces + {d};
      var i := 0;
      while i < sz
        invariant i == v * PGSIZE && v <= n && v <= room && Now() == Forked(start, pg, d, v)
      {
        PagesBelow(v, sz);
        ok := ShareTurn(pg, d, i, v, room, n, start);
        if !ok {
          GiveUp(pg, d, v, n, start);
          return;
        }
        i, v := i + PGSIZE, v + 1;
      }
      PagesBelow(v, sz);
      ForkedInv(start, pg, d, v);
      ok := true;
    }

    /** One turn of copyuvm's loop up to its error path. */
    method ShareTurn(pg: nat, d: nat, i: nat, ghost v: nat, room: nat, ghost n: nat, ghost start: Sys)
      returns (ok: bool)
      requires i == v * PGSIZE && v < n && Inv(start) && CanFork(start, pg, d, n) && Now() == Forked(start, pg, d, v)
      modifies this
      ensures ok <==> v != room
      ensures ok ==> Now() == Forked(start, pg, d, v + 1)
      ensures !ok ==> (pg, v) in Forked(start, pg, d, v).ptes && Now() == ProtectedAt(Forked(start, pg, d, v), (pg, v))
    {
      ghost var was := Now();
      TurnDone(start, was, pg, d, v, n);
      var page := i / PGSIZE;
      Protect((pg, page));
      ok := page != room;
      if ok {
        MapShared((pg, page), (d, page));
        assert Now() == Share(was, (pg, v), (d, v));
      }
    }

    /** The error path of copyuvm. */
    method GiveUp(pg: nat, d: nat, ghost v: nat, ghost n: nat, ghost start: Sys)
      requires v < n && Inv(start) && CanFork(start, pg, d, n) && (pg, v) in Forked(start, pg, d, v).ptes
      requires Now() == ProtectedAt(Forked(start, pg, d, v), (pg, v))
      modifies this
      ensures Valid() && Now() == Failed(start, pg, d, v)
    {
      TurnDone(start, Forked(start, pg, d, v), pg, d, v, n);
      FreeVm(d);
    }

    /** The write bit gives way to the copy-on-write bit. */
    method Protect(k: Key)
      requires k in ptes
      modifies this`ptes
      ensures Now() == ProtectedAt(old(Now()), k)
    {
      if ptes[k].write {
        ptes := ptes[k := ptes[k].(cow := true)];
        ptes := ptes[k := ptes[k].(write := false)];
      }
    }

    /** mappages for the child, and increase_refcount. */
    method MapShared(k: Key, d: Key)
      requires k in ptes && ptes[k].frame in refc && k != d && !ptes[k].write
      modifies this`ptes, this`tabs, this`refc
      ensures ptes == old(ptes)[d := old(ptes)[k]] && tabs == old(tabs) + {Tab(d)}
      ensures refc == old(refc)[old(ptes)[k].frame := old(refc)[old(ptes)[k].frame] + 1]
    {
      tabs := tabs + {Tab(d)};
      ptes := ptes[d := ptes[k]];
      refc := refc[ptes[k].frame := refc[ptes[k].frame] + 1];
    }

    /** The write-fault branch of trap, at a user address. */
    method Fault(pg: nat, va: nat) returns (r: Outcome)
      requires Valid() && va < KERNBASE
      modifies this
      ensures r == FaultOutcome(old(Now()), (pg, va / PGSIZE))
      ensures r == Fixed <==> Machine.FaultRuns(old(Now()), (pg, va / PGSIZE))
      ensures r == Fixed ==> Now() == Faulted(old(Now()), (pg, va / PGSIZE))
      ensures r == Killed || r == NoTable ==> Now() == old(Now())
      ensures Valid() <==> r != NoFrame
    {
      var k := (pg, va / PGSIZE);
      FixedExactly(Now(), k);
      if Tab(k) !in tabs {
        return NoTable;
      }
      if k !in ptes || !ptes[k].cow {
        return Killed;
      }
      FaultKeeps(Now(), k);
      var f := ptes[k].frame;
      if refc[f] > 1 {
        var ok := CopyFrame(k, f);
        if !ok {
          return NoFrame;
        }
      }
      ptes := ptes[k := ptes[k].(cow := false)];
      ptes := ptes[k := ptes[k].(write := true)];
      r := Fixed;
    }

    /** The copying half of the handler; without a frame it has given its reference up already. */
    method CopyFrame(k: Key, f: nat) returns (ok: bool)
      requires Valid() && k in ptes && ptes[k].frame == f && f in refc && refc[f] > 1
      modifies this
      ensures ok <==> old(freelist) != []
      ensures ok ==>
                k in ptes &&
                Now() == Copied(old(Now()), k).(ptes := old(ptes)[k := Pte(old(freelist)[0], false, true, false)])
      ensures !ok ==> !Valid()
    {
      ghost var start := Now();
      assert CountOk(start, f);
      MappedCounted(start, k);
      refc := refc[f := refc[f] - 1];
      if freelist != [] {
        FreeUnused(start, freelist[0]);
      }
      var got, g, panic := Kalloc();
      if !got {
        assert !CountOk(Now(), f);
        return false;
      }
      bytes := bytes[g := bytes[f]];
      ptes := ptes[k := Pte(g, false, true, false)];
      held := held - {g};
      ok := true;
    }

    /** A store by user code, which the hardware allows where both the write and the user bit are set. */
    method Store(k: Key, i: nat, b: int)
      requires Valid() && k in ptes && ptes[k].write && ptes[k].user && ptes[k].frame in bytes &&
               i < |bytes[ptes[k].frame]|
      modifies this`bytes
      ensures Valid() && Now() == Stored(old(Now()), k, i, b)
      ensures View(Now()) == EagerStore(View(old(Now())), k, i, b)
    {
      StoreInv(Now(), k, i, b);
      var f := ptes[k].frame;
      bytes := bytes[f := bytes[f][i := b]];
    }
  }

  lemma FaultKeeps(s: Sys, k: Key)
    requires Inv(s) && k in s.ptes && s.ptes[k].cow
    ensures s.ptes[k].frame in s.refc
    ensures (Count(s, s.ptes[k].frame) > 1 ==> s.free != []) ==> Inv(Faulted(s, k))
  {
    MappedCounted(s, k);
    if Count(s, s.ptes[k].frame) > 1 ==> s.free != [] {
      FaultView(s, k);
    }
  }

  lemma TurnDone(start: Sys, was: Sys, pg: nat, d: nat, v: nat, n: nat)
    requires v < n && Inv(start) && CanFork(start, pg, d, n) && was == Forked(start, pg, d, v)
    ensures (pg, v) in was.ptes && was.ptes[(pg, v)].frame in was.refc && Inv(ProtectedAt(was, (pg, v)))
    ensures Share(was, (pg, v), (d, v)) == Forked(start, pg, d, v + 1)
  {
    ForkedInv(start, pg, d, v);
    ForkedPage(start, was, pg, d, v);
    SharedOneMore(WithSpace(start, d), was, pg, d, v);
    MappedCounted(was, (pg, v));
    ProtectInv(was, (pg, v));
  }

  lemma SharedOneMore(base: Sys, t: Sys, pg: nat, d: nat, v: nat)
    requires t == Shared(base, pg, d, 0, v)
    ensures Shared(base, pg, d, 0, v + 1) == ShareAny(t, (pg, v), (d, v))
  {
    SharedSnoc(base, pg, d, 0, v);
  }

  lemma {:induction false} SharedSnoc(s: Sys, pg: nat, d: nat, lo: nat, hi: nat)
    requires lo <= hi
    ensures Shared(s, pg, d, lo, hi + 1) == ShareAny(Shared(s, pg, d, lo, hi), (pg, hi), (d, hi))
    decreases hi - lo
  {
    if lo < hi {
      SharedSnoc(ShareAny(s, (pg, lo), (d, lo)), pg, d, lo + 1, hi);
    } else {
      assert Shared(ShareAny(s, (pg, lo), (d, lo)), pg, d, lo + 1, hi + 1) == ShareAny(s, (pg, lo), (d, lo));
    }
  }
}
