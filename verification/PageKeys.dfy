/** User pages of address spaces, shared by the models of copy-on-write and of lazy pages. */
module PageKeys {
  const PGSIZE: nat := 4096
  const KERNBASE: nat := 0x8000_0000
  /** User pages lie below KERNBASE. */
  const UPAGES: nat := 0x8_0000
  /** Entries of one page table. */
  const NENTRIES: nat := 1024

  type Page = seq<int>

  /** A page of an address space: the directory and the page number. */
  type Key = (nat, nat)

  /** A page table: the directory and the position in it. */
  datatype Table = Table(pg: nat, d: nat)

  /** The page table an entry lies in. */
  function Tab(k: Key): Table {
    Table(k.0, k.1 / NENTRIES)
  }

  /** What kfree fills a page with. */
  function Ones(n: nat): (p: Page)
    ensures |p| == n && forall i | 0 <= i < n :: p[i] == 1
  {
    seq(n, i => 1)
  }

  function Zeros(n: nat): (p: Page)
    ensures |p| == n && forall i | 0 <= i < n :: p[i] == 0
  {
    seq(n, i => 0)
  }

  function PageUp(sz: nat): nat {
    (sz + PGSIZE - 1) / PGSIZE
  }

  lemma PagesBelow(v: nat, sz: nat)
    ensures v * PGSIZE < sz <==> v < PageUp(sz)
  {
  }

  predicate Within(k: Key, pg: nat, lo: nat, hi: nat) {
    k.0 == pg && lo <= k.1 < hi
  }

  /** No two frames on a free list are the same. */
  ghost predicate Distinct(free: seq<nat>) {
    forall i, j | 0 <= i < j < |free| :: free[i] != free[j]
  }

  lemma FreeTail(free: seq<nat>)
    requires free != [] && Distinct(free)
    ensures forall f :: f in free[1..] <==> f in free && f != free[0]
    ensures Distinct(free[1..])
  {
    forall f
      ensures f in free[1..] <==> f in free && f != free[0]
    {
      if f in free && f != free[0] {
        var i :| 0 <= i < |free| && free[i] == f;
        assert free[1..][i - 1] == f;
      }
    }
  }

  lemma FreeHead(free: seq<nat>, f: nat)
    requires f !in free && Distinct(free)
    ensures Distinct([f] + free)
    ensures forall g :: g in [f] + free <==> g == f || g in free
  {
  }
}
