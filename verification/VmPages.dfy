/** Page directories, page tables and who owns which physical frame (vm.c, kalloc.c), as values. */
module VmPages {
  const NENTRIES: nat := 1024
  const NPAGES: nat := 0x10_0000
  /** User pages lie below KERNBASE. */
  const UPAGES: nat := 0x8_0000
  const PGSIZE: nat := 4096

  /** A page table or directory entry: 0, or a present one naming a frame. */
  datatype Pte = Absent | Pte(frame: nat, flags: nat)

  type Entries = e: seq<Pte> | |e| == 1024 witness seq(1024, i => Absent)

  /** What a frame was last used for. */
  datatype Content = Table(e: Entries) | Data(bytes: seq<int>) | Junk

  type Memory = map<nat, Content>

  function NoEntries(): (e: Entries)
    ensures forall i | 0 <= i < 1024 :: e[i] == Absent
  {
    seq(1024, i => Absent)
  }

  /** The entries of the table in frame `f`. */
  function EntriesAt(mem: Memory, f: nat): Entries {
    if f in mem && mem[f].Table? then mem[f].e else NoEntries()
  }

  /** The entry for virtual page `v` in the address space of directory `pg`. */
  function Lookup(mem: Memory, pg: nat, v: nat): Pte
    requires v < NPAGES
  {
    var d := EntriesAt(mem, pg)[v / NENTRIES];
    if d.Absent? then Absent else EntriesAt(mem, d.frame)[v % NENTRIES]
  }

  /** What a frame in use is for: a directory, the table under a directory entry, or a user page. */
  datatype Role = Dir(pg: nat) | Tab(pg: nat, d: nat) | User(pg: nat, v: nat)

  type Owner = map<nat, Role>

  predicate RoleOk(r: Role, spaces: set<nat>) {
    r.pg in spaces && (r.Tab? ==> r.d < NENTRIES) && (r.User? ==> r.v < UPAGES)
  }

  function FrameOf(p: Pte): nat {
    if p.Absent? then 0 else p.frame
  }

  /** The frame named for a role, or 0. */
  function Named(mem: Memory, r: Role): nat
    requires (r.Tab? ==> r.d < NENTRIES) && (r.User? ==> r.v < UPAGES)
  {
    match r
    case Dir(pg) => pg
    case Tab(pg, d) => FrameOf(EntriesAt(mem, pg)[d])
    case User(pg, v) => FrameOf(Lookup(mem, pg, v))
  }

  /** Present entries name real frames. */
  ghost predicate Present(mem: Memory, spaces: set<nat>) {
    (forall pg, d: nat | pg in spaces && d < NENTRIES ::
       EntriesAt(mem, pg)[d].Absent? || EntriesAt(mem, pg)[d].frame != 0) &&
    (forall pg, v: nat | pg in spaces && v < UPAGES :: Lookup(mem, pg, v).Absent? || Lookup(mem, pg, v).frame != 0)
  }

  predicate OwnerNames(mem: Memory, owner: Owner, spaces: set<nat>, f: nat)
    requires f in owner
  {
    f != 0 && RoleOk(owner[f], spaces) && Named(mem, owner[f]) == f
  }

  predicate NameOwned(mem: Memory, owner: Owner, spaces: set<nat>, r: Role) {
    RoleOk(r, spaces) && Named(mem, r) != 0 ==> Named(mem, r) in owner && owner[Named(mem, r)] == r
  }

  /** Every frame in use has one role, and every role names a frame of its own: no frame is used twice. */
  ghost predicate Owned(mem: Memory, owner: Owner, spaces: set<nat>) {
    Present(mem, spaces) && 0 !in spaces &&
    (forall f | f in owner :: OwnerNames(mem, owner, spaces, f)) &&
    (forall r: Role :: NameOwned(mem, owner, spaces, r))
  }

  /** The managed frames are the free ones and the ones in use, each once. */
  ghost predicate Shared(free: seq<nat>, owner: Owner, total: set<nat>) {
    (forall i, j | 0 <= i < j < |free| :: free[i] != free[j]) &&
    (forall f :: f in total <==> f in free || f in owner) && (forall f | f in owner :: f !in free) && 0 !in total
  }

  lemma FirstAndRest(free: seq<nat>, f: nat)
    requires |free| > 0
    ensures f in free <==> f == free[0] || f in free[1..]
  {
    assert free == [free[0]] + free[1..];
  }

  /** kalloc takes the first frame out of circulation. */
  lemma Popped(free: seq<nat>, owner: Owner, total: set<nat>)
    requires Shared(free, owner, total) && |free| > 0
    ensures Shared(free[1..], owner, total - {free[0]}) && free[0] !in owner && free[0] !in free[1..] &&
            free[0] in total
  {
    forall f
      ensures f in free <==> f == free[0] || f in free[1..]
    {
      FirstAndRest(free, f);
    }
    assert free[0] !in free[1..];
  }

  /** kfree puts a frame back. */
  lemma Pushed(free: seq<nat>, owner: Owner, total: set<nat>, f: nat)
    requires Shared(free, owner, total - {f}) && f in total && 0 !in total
    ensures Shared([f] + free, owner, total) && f !in owner
  {
    var more := [f] + free;
    assert f !in free;
    forall i, j | 0 <= i < j < |more|
      ensures more[i] != more[j]
    {
      assert more[j] == free[j - 1];
    }
  }

  /** A frame out of circulation gets a role. */
  lemma Assigned(free: seq<nat>, owner: Owner, total: set<nat>, f: nat, r: Role)
    requires Shared(free, owner, total - {f}) && f in total && 0 !in total
    ensures Shared(free, owner[f := r], total)
  {
  }

  /** A role given up takes its frame out of circulation. */
  lemma Dismissed(free: seq<nat>, owner: Owner, total: set<nat>, f: nat)
    requires Shared(free, owner, total) && f in owner
    ensures Shared(free, owner - {f}, total - {f}) && f in total
  {
  }

  /** Same roles in use, same frames free. */
  lemma SameFree(free: seq<nat>, owner: Owner, later: seq<nat>, after: Owner, total: set<nat>)
    requires Shared(free, owner, total) && Shared(later, after, total) && owner.Keys == after.Keys
    ensures forall f :: f in free <==> f in later
  {
    forall f
      ensures f in free <==> f in later
    {
      assert f in owner <==> f in after.Keys;
    }
  }

  // --- Writes that leave the tables alone ---

  predicate Tables(owner: Owner, f: nat) {
    f in owner && !owner[f].User?
  }

  lemma SameEntries(mem: Memory, now: Memory, owner: Owner, spaces: set<nat>)
    requires Owned(mem, owner, spaces)
    requires forall f | Tables(owner, f) :: EntriesAt(now, f) == EntriesAt(mem, f)
    ensures forall pg | pg in spaces :: EntriesAt(now, pg) == EntriesAt(mem, pg)
    ensures forall pg, v: nat | pg in spaces && v < NPAGES :: Lookup(now, pg, v) == Lookup(mem, pg, v)
    ensures Owned(now, owner, spaces)
  {
    forall pg | pg in spaces
      ensures EntriesAt(now, pg) == EntriesAt(mem, pg)
    {
      assert NameOwned(mem, owner, spaces, Dir(pg));
    }
    forall pg, v: nat | pg in spaces && v < NPAGES
      ensures Lookup(now, pg, v) == Lookup(mem, pg, v)
    {
      assert NameOwned(mem, owner, spaces, Tab(pg, v / NENTRIES));
    }
    forall f | f in owner
      ensures OwnerNames(now, owner, spaces, f)
    {
      assert OwnerNames(mem, owner, spaces, f);
    }
    forall r: Role
      ensures NameOwned(now, owner, spaces, r)
    {
      assert NameOwned(mem, owner, spaces, r);
    }
  }

  // --- A new page table ---

  /** walkpgdir with alloc: a zeroed frame becomes the table under directory entry `d`. */
  function WithTable(mem: Memory, pg: nat, d: nat, f: nat, flags: nat): Memory
    requires d < NENTRIES
  {
    mem[f := Table(NoEntries())][pg := Table(EntriesAt(mem, pg)[d := Pte(f, flags)])]
  }

  lemma NewTable(mem: Memory, owner: Owner, spaces: set<nat>, pg: nat, d: nat, f: nat, flags: nat)
    requires Owned(mem, owner, spaces) && pg in spaces && d < NENTRIES && EntriesAt(mem, pg)[d].Absent?
    requires f != 0 && f !in owner
    ensures f !in spaces
    ensures var now := WithTable(mem, pg, d, f, flags);
            (forall p | p in spaces && p != pg :: EntriesAt(now, p) == EntriesAt(mem, p)) &&
            EntriesAt(now, pg) == EntriesAt(mem, pg)[d := Pte(f, flags)] && EntriesAt(now, f) == NoEntries() &&
            (forall p, v: nat | p in spaces && v < NPAGES :: Lookup(now, p, v) == Lookup(mem, p, v))
  {
    var now := WithTable(mem, pg, d, f, flags);
    forall p | p in spaces
      ensures p != f
    {
      assert NameOwned(mem, owner, spaces, Dir(p));
    }
    forall p, v: nat | p in spaces && v < NPAGES
      ensures Lookup(now, p, v) == Lookup(mem, p, v)
    {
      assert NameOwned(mem, owner, spaces, Tab(p, v / NENTRIES));
      assert NameOwned(mem, owner, spaces, Dir(pg));
    }
  }

  lemma NewTableOwned(mem: Memory, owner: Owner, spaces: set<nat>, pg: nat, d: nat, f: nat, flags: nat)
    requires Owned(mem, owner, spaces) && pg in spaces && d < NENTRIES && EntriesAt(mem, pg)[d].Absent?
    requires f != 0 && f !in owner
    ensures Owned(WithTable(mem, pg, d, f, flags), owner[f := Tab(pg, d)], spaces)
  {
    var now, owns := WithTable(mem, pg, d, f, flags), owner[f := Tab(pg, d)];
    NewTable(mem, owner, spaces, pg, d, f, flags);
    forall r: Role
      ensures NameOwned(now, owns, spaces, r)
    {
      assert NameOwned(mem, owner, spaces, r);
    }
    forall g | g in owns
      ensures OwnerNames(now, owns, spaces, g)
    {
      if g != f {
        assert OwnerNames(mem, owner, spaces, g);
      }
    }
  }

  // --- One entry of a page table ---

  /** Entry for page `v` changed, in the table that is there for it. */
  function WithPte(mem: Memory, pg: nat, v: nat, p: Pte): Memory
    requires v < NPAGES
  {
    var pt := FrameOf(EntriesAt(mem, pg)[v / NENTRIES]);
    mem[pt := Table(EntriesAt(mem, pt)[v % NENTRIES := p])]
  }

  lemma PteWritten(mem: Memory, owner: Owner, spaces: set<nat>, pg: nat, v: nat, p: Pte)
    requires Owned(mem, owner, spaces) && pg in spaces && v < NPAGES && !EntriesAt(mem, pg)[v / NENTRIES].Absent?
    ensures var now := WithPte(mem, pg, v, p);
            (forall q | q in spaces :: EntriesAt(now, q) == EntriesAt(mem, q)) &&
            (forall q, w: nat | q in spaces && w < NPAGES ::
               Lookup(now, q, w) == if q == pg && w == v then p else Lookup(mem, q, w))
  {
    var now := WithPte(mem, pg, v, p);
    var pt := EntriesAt(mem, pg)[v / NENTRIES].frame;
    assert NameOwned(mem, owner, spaces, Tab(pg, v / NENTRIES));
    forall q | q in spaces
      ensures EntriesAt(now, q) == EntriesAt(mem, q)
    {
      assert NameOwned(mem, owner, spaces, Dir(q));
    }
    forall q, w: nat | q in spaces && w < NPAGES
      ensures Lookup(now, q, w) == if q == pg && w == v then p else Lookup(mem, q, w)
    {
      assert NameOwned(mem, owner, spaces, Tab(q, w / NENTRIES));
      if q == pg && w / NENTRIES == v / NENTRIES {
        assert w % NENTRIES == v % NENTRIES ==> w == v;
      }
    }
  }

  /** A fresh frame mapped at an empty user page. */
  lemma MapOwned(mem: Memory, owner: Owner, spaces: set<nat>, pg: nat, v: nat, f: nat, flags: nat)
    requires Owned(mem, owner, spaces) && pg in spaces && v < UPAGES && !EntriesAt(mem, pg)[v / NENTRIES].Absent?
    requires Lookup(mem, pg, v).Absent? && f != 0 && f !in owner
    ensures Owned(WithPte(mem, pg, v, Pte(f, flags)), owner[f := User(pg, v)], spaces)
  {
    var now, owns := WithPte(mem, pg, v, Pte(f, flags)), owner[f := User(pg, v)];
    PteWritten(mem, owner, spaces, pg, v, Pte(f, flags));
    forall r: Role
      ensures NameOwned(now, owns, spaces, r)
    {
      assert NameOwned(mem, owner, spaces, r);
    }
    forall g | g in owns
      ensures OwnerNames(now, owns, spaces, g)
    {
      if g != f {
        assert OwnerNames(mem, owner, spaces, g);
      }
    }
  }

  /** A kernel page: the frame it shows is not owned by the address space. */
  lemma KernelOwned(mem: Memory, owner: Owner, spaces: set<nat>, pg: nat, v: nat, p: Pte)
    requires Owned(mem, owner, spaces) && pg in spaces && UPAGES <= v < NPAGES &&
             !EntriesAt(mem, pg)[v / NENTRIES].Absent?
    ensures Owned(WithPte(mem, pg, v, p), owner, spaces)
  {
    var now := WithPte(mem, pg, v, p);
    PteWritten(mem, owner, spaces, pg, v, p);
    forall r: Role
      ensures NameOwned(now, owner, spaces, r)
    {
      assert NameOwned(mem, owner, spaces, r);
    }
    forall g | g in owner
      ensures OwnerNames(now, owner, spaces, g)
    {
      assert OwnerNames(mem, owner, spaces, g);
    }
  }

  /** A user page unmapped: its frame has no role any more. */
  lemma UnmapOwned(mem: Memory, owner: Owner, spaces: set<nat>, pg: nat, v: nat)
    requires Owned(mem, owner, spaces) && pg in spaces && v < UPAGES && !Lookup(mem, pg, v).Absent?
    ensures var f := Lookup(mem, pg, v).frame;
            f in owner && owner[f] == User(pg, v) && Owned(WithPte(mem, pg, v, Absent), owner - {f}, spaces)
  {
    var f := Lookup(mem, pg, v).frame;
    assert NameOwned(mem, owner, spaces, User(pg, v));
    var now, owns := WithPte(mem, pg, v, Absent), owner - {f};
    PteWritten(mem, owner, spaces, pg, v, Absent);
    forall r: Role
      ensures NameOwned(now, owns, spaces, r)
    {
      assert NameOwned(mem, owner, spaces, r);
    }
    forall g | g in owns
      ensures OwnerNames(now, owns, spaces, g)
    {
      assert OwnerNames(mem, owner, spaces, g);
    }
  }

  // --- Whole address spaces ---

  /** A frame cleared to hold no entry. */
  function Cleared(mem: Memory, f: nat): Memory {
    mem[f := Table(NoEntries())]
  }

  lemma NewSpace(mem: Memory, owner: Owner, spaces: set<nat>, f: nat)
    requires Owned(mem, owner, spaces) && f != 0 && f !in owner
    ensures f !in spaces
    ensures Owned(Cleared(mem, f), owner[f := Dir(f)], spaces + {f})
    ensures forall pg, v: nat | pg in spaces && v < NPAGES :: Lookup(Cleared(mem, f), pg, v) == Lookup(mem, pg, v)
    ensures forall v: nat | v < NPAGES :: Lookup(Cleared(mem, f), f, v).Absent?
  {
    var now, owns, more := Cleared(mem, f), owner[f := Dir(f)], spaces + {f};
    forall pg | pg in spaces
      ensures pg != f
    {
      assert NameOwned(mem, owner, spaces, Dir(pg));
    }
    SameEntries(mem, now, owner, spaces);
    forall r: Role
      ensures NameOwned(now, owns, more, r)
    {
      assert NameOwned(now, owner, spaces, r);
    }
    forall g | g in owns
      ensures OwnerNames(now, owns, more, g)
    {
      if g != f {
        assert OwnerNames(now, owner, spaces, g);
      }
    }
  }

  /** What is owned outside address space `pg`. */
  function Without(owner: Owner, pg: nat): Owner {
    map f | f in owner && owner[f].pg != pg :: owner[f]
  }

  /** The other address spaces stand on their own. */
  lemma SpaceDropped(mem: Memory, owner: Owner, spaces: set<nat>, pg: nat)
    requires Owned(mem, owner, spaces)
    ensures Owned(mem, Without(owner, pg), spaces - {pg})
  {
    var less, fewer := Without(owner, pg), spaces - {pg};
    forall r: Role
      ensures NameOwned(mem, less, fewer, r)
    {
      assert NameOwned(mem, owner, spaces, r);
    }
    forall g | g in less
      ensures OwnerNames(mem, less, fewer, g)
    {
      assert OwnerNames(mem, owner, spaces, g);
    }
  }
}
