/** The first-fit page allocator of malloc-code/alloc.c: a byte map and a table that must agree. */
module FirstFit {
  const PAGESIZE: nat := 4096
  const MINALLOC: nat := 8
  const SLOTS: nat := 512

  datatype MemInfo = MemInfo(start: int, length: int, used: bool)

  const UNUSED: MemInfo := MemInfo(0, 0, false)

  /** Byte `b` of the page belongs to the range of `m`. */
  predicate Covers(page: int, m: MemInfo, b: int) {
    m.used && m.start - page <= b < m.start - page + m.length
  }

  /** A live entry: a non-empty run of whole units inside the page. */
  predicate EntryOk(page: int, m: MemInfo) {
    if m.used then
      page <= m.start && (m.start - page) % MINALLOC == 0 &&
      m.length >= MINALLOC && m.length % MINALLOC == 0 && m.start - page + m.length <= PAGESIZE
    else
      m == UNUSED
  }

  /** `owner` names the entry each byte belongs to, or -1: the live ranges are disjoint. */
  ghost predicate OwnerOk(page: int, table: seq<MemInfo>, owner: seq<int>) {
    |owner| == PAGESIZE && |table| == SLOTS &&
    (forall b | 0 <= b < PAGESIZE :: -1 <= owner[b] < SLOTS) &&
    (forall k | 0 <= k < SLOTS :: EntryOk(page, table[k])) &&
    (forall k, b | 0 <= k < SLOTS && 0 <= b < PAGESIZE :: owner[b] == k <==> Covers(page, table[k], b))
  }

  /** The byte map marks exactly the bytes of the live ranges. */
  ghost predicate BitsOk(bits: seq<int>, owner: seq<int>) {
    |bits| == |owner| == PAGESIZE && forall b | 0 <= b < PAGESIZE :: bits[b] == if owner[b] >= 0 then 1 else 0
  }

  predicate FreeRun(bits: seq<int>, s: int, size: int) {
    0 <= s && s + size <= |bits| && forall b | s <= b < s + size :: bits[b] == 0
  }

  /** Set the bytes [s, s+n) to `v`. */
  function Fill(bits: seq<int>, s: nat, n: nat, v: int): (r: seq<int>)
    requires s + n <= |bits|
    ensures |r| == |bits|
    ensures forall b | 0 <= b < |bits| :: r[b] == if s <= b < s + n then v else bits[b]
  {
    seq<int>(|bits|, b requires 0 <= b < |bits| => if s <= b < s + n then v else bits[b])
  }

  // --- A free byte leaves a free entry ---

  function Unit(page: int, m: MemInfo): int {
    (m.start - page) / MINALLOC
  }

  /** The first units of the first `n` entries. */
  ghost function Units(page: int, table: seq<MemInfo>, n: nat): set<int>
    requires n <= |table|
  {
    if n == 0 then {} else Units(page, table, n - 1) + {Unit(page, table[n - 1])}
  }

  lemma {:induction false} UnitsCount(page: int, table: seq<MemInfo>, owner: seq<int>, n: nat)
    requires OwnerOk(page, table, owner) && n <= SLOTS && forall k | 0 <= k < n :: table[k].used
    ensures |Units(page, table, n)| == n
    ensures forall u | u in Units(page, table, n) :: 0 <= u < SLOTS && 0 <= owner[u * MINALLOC] < n
    decreases n
  {
    if n > 0 {
      UnitsCount(page, table, owner, n - 1);
      var u := Unit(page, table[n - 1]);
      assert EntryOk(page, table[n - 1]);
      assert u * MINALLOC == table[n - 1].start - page;
      assert Covers(page, table[n - 1], u * MINALLOC);
    }
  }

  ghost function Below(n: nat): (r: set<int>)
    ensures |r| == n && forall u :: u in r <==> 0 <= u < n
  {
    if n == 0 then {} else Below(n - 1) + {n - 1}
  }

  lemma SubsetFull(a: set<int>, b: set<int>)
    requires a <= b && |a| == |b|
    ensures a == b
  {
    var rest := b - a;
    assert b == a + rest;
    assert |rest| == 0;
    assert rest == {};
  }

  /** Bytes of one unit are all owned alike. */
  lemma UnitAlike(page: int, table: seq<MemInfo>, owner: seq<int>, b: nat)
    requires OwnerOk(page, table, owner) && b < PAGESIZE
    ensures owner[b / MINALLOC * MINALLOC] == owner[b]
  {
    var c := b / MINALLOC * MINALLOC;
    if owner[c] >= 0 {
      assert EntryOk(page, table[owner[c]]) && Covers(page, table[owner[c]], c);
      assert Covers(page, table[owner[c]], b);
    }
    if owner[b] >= 0 {
      assert EntryOk(page, table[owner[b]]) && Covers(page, table[owner[b]], b);
      assert Covers(page, table[owner[b]], c);
    }
  }

  /** 512 live entries of at least one unit each would fill the page: while a byte is free, an entry is. */
  lemma EntryLeft(page: int, table: seq<MemInfo>, owner: seq<int>, b: nat)
    requires OwnerOk(page, table, owner) && b < PAGESIZE && owner[b] < 0
    ensures exists k :: 0 <= k < SLOTS && !table[k].used
  {
    if forall k | 0 <= k < SLOTS :: table[k].used {
      UnitsCount(page, table, owner, SLOTS);
      assert Units(page, table, SLOTS) <= Below(SLOTS);
      SubsetFull(Units(page, table, SLOTS), Below(SLOTS));
      assert b / MINALLOC in Units(page, table, SLOTS);
      UnitAlike(page, table, owner, b);
    }
  }

  // --- One entry more, one less ---

  lemma Added(page: int, table: seq<MemInfo>, owner: seq<int>, k: nat, s: nat, size: nat)
    requires OwnerOk(page, table, owner) && k < SLOTS && !table[k].used
    requires s % MINALLOC == 0 && size >= MINALLOC && size % MINALLOC == 0 && s + size <= PAGESIZE
    requires forall b | s <= b < s + size :: owner[b] < 0
    ensures OwnerOk(page, table[k := MemInfo(page + s, size, true)], Fill(owner, s, size, k))
  {
    var more, owns := table[k := MemInfo(page + s, size, true)], Fill(owner, s, size, k);
    forall j, b | 0 <= j < SLOTS && 0 <= b < PAGESIZE
      ensures owns[b] == j <==> Covers(page, more[j], b)
    {
      assert owner[b] == j <==> Covers(page, table[j], b);
    }
  }

  lemma Removed(page: int, table: seq<MemInfo>, owner: seq<int>, k: nat)
    requires OwnerOk(page, table, owner) && k < SLOTS && table[k].used
    ensures var s := table[k].start - page;
            0 <= s && table[k].length >= 0 && s + table[k].length <= PAGESIZE &&
            OwnerOk(page, table[k := UNUSED], Fill(owner, s, table[k].length, -1))
  {
    assert EntryOk(page, table[k]);
    var s := table[k].start - page;
    var less, owns := table[k := UNUSED], Fill(owner, s, table[k].length, -1);
    forall j, b | 0 <= j < SLOTS && 0 <= b < PAGESIZE
      ensures owns[b] == j <==> Covers(page, less[j], b)
    {
      assert owner[b] == j <==> Covers(page, table[j], b);
      assert owner[b] == k <==> Covers(page, table[k], b);
    }
  }

  /** The first byte of a maximal free run starts a unit. */
  lemma RunAligned(page: int, table: seq<MemInfo>, owner: seq<int>, s: nat)
    requires OwnerOk(page, table, owner) && s < PAGESIZE && owner[s] < 0 && (s > 0 ==> owner[s - 1] >= 0)
    ensures s % MINALLOC == 0
  {
    UnitAlike(page, table, owner, s);
    if s > 0 {
      UnitAlike(page, table, owner, s - 1);
    }
  }

  predicate IsAt(m: MemInfo, addr: int) {
    m.used && m.start == addr
  }

  /** An unused entry became `m`; the others are as before. */
  predicate EntryAdded(was: seq<MemInfo>, now: seq<MemInfo>, m: MemInfo) {
    exists k :: 0 <= k < |was| && !was[k].used && now == was[k := m]
  }

  /** Entry `k` became unused and exactly its bytes are free; everything else is as before. */
  predicate EntryDropped(page: int, was: seq<MemInfo>, now: seq<MemInfo>, bits: seq<int>, later: seq<int>, k: nat) {
    k < |was| && now == was[k := UNUSED] &&
    page <= was[k].start && 0 <= was[k].length && was[k].start - page + was[k].length <= |bits| &&
    later == Fill(bits, was[k].start - page, was[k].length, 0)
  }

  /** At most one live entry starts at an address, and a live entry is found before any unused one. */
  lemma SameStart(page: int, table: seq<MemInfo>, owner: seq<int>, i: nat, addr: int)
    requires OwnerOk(page, table, owner) && page > 0 && i < SLOTS && table[i].start == addr
    ensures forall k: nat | k < SLOTS && IsAt(table[k], addr) :: k == i
  {
    forall k: nat | k < SLOTS && IsAt(table[k], addr)
      ensures k == i
    {
      assert EntryOk(page, table[k]) && EntryOk(page, table[i]);
      var b := addr - page;
      assert Covers(page, table[k], b) && owner[b] == k;
      assert Covers(page, table[i], b) && owner[b] == i;
    }
  }

  class Page {
    const start: int
    const bits: array<int>
    const table: array<MemInfo>
    ghost var owner: seq<int>

    ghost predicate Valid()
      reads this, bits, table
    {
      start > 0 && bits.Length == PAGESIZE && table.Length == SLOTS &&
      OwnerOk(start, table[..], owner) && BitsOk(bits[..], owner)
    }

    /** init_alloc on a page mapped at `at`. */
    constructor (at: int)
      requires at > 0
      ensures Valid() && fresh(bits) && fresh(table) && start == at
      ensures forall b | 0 <= b < PAGESIZE :: bits[b] == 0
    {
      start := at;
      bits := new int[PAGESIZE](b => 0);
      table := new MemInfo[SLOTS](k => UNUSED);
      owner := seq<int>(PAGESIZE, b => -1);
    }

    /** Where the free run that starts at `i` ends. */
    method RunEnd(i: nat) returns (end: nat)
      requires Valid() && i < PAGESIZE && bits[i] == 0
      ensures i <= end < PAGESIZE && (forall b | i <= b <= end :: bits[b] == 0) &&
              (end + 1 < PAGESIZE ==> bits[end + 1] != 0)
    {
      end := PAGESIZE - 1;
      var j := i + 1;
      while j < PAGESIZE
        invariant i < j <= PAGESIZE && end == PAGESIZE - 1 && forall b | i <= b < j :: bits[b] == 0
      {
        assert bits[j] == bits[..][j];
        if bits[j] == 1 {
          end := j - 1;
          return;
        }
        j := j + 1;
      }
    }

    /** The first unused entry of the table, which exists while any byte is free. */
    method FindEntry(ghost b: nat) returns (k: nat)
      requires Valid() && b < PAGESIZE && bits[b] == 0
      ensures k < SLOTS && !table[k].used
    {
      assert bits[b] == bits[..][b];
      EntryLeft(start, table[..], owner, b);
      k := 0;
      while table[k].used
        invariant 0 <= k < SLOTS
        invariant exists j :: k <= j < SLOTS && !table[..][j].used
        decreases SLOTS - k
      {
        k := k + 1;
      }
    }

    /** alloc: the lowest run of `size` free bytes, or 0 just when there is none or the size is no multiple of 8. */
    method Alloc(size: int) returns (r: int)
      requires Valid() && size > 0
      modifies this, bits, table
      ensures Valid()
      ensures r == 0 <==> size % MINALLOC != 0 || forall s :: !FreeRun(old(bits[..]), s, size)
      ensures r == 0 ==> bits[..] == old(bits[..]) && table[..] == old(table[..])
      ensures r != 0 ==> FreeRun(old(bits[..]), r - start, size)
      ensures r != 0 ==> forall s | 0 <= s < r - start :: !FreeRun(old(bits[..]), s, size)
      ensures r != 0 ==> bits[..] == Fill(old(bits[..]), r - start, size, 1)
      ensures r != 0 ==> EntryAdded(old(table[..]), table[..], MemInfo(r, size, true))
    {
      if size % MINALLOC != 0 {
        return 0;
      }
      ghost var was := bits[..];
      var i := 0;
      while i < PAGESIZE
        invariant 0 <= i <= PAGESIZE && Valid() && bits[..] == was && table[..] == old(table[..])
        invariant forall s | 0 <= s < i :: !FreeRun(was, s, size)
        invariant 0 < i < PAGESIZE && was[i] == 0 ==> was[i - 1] != 0
      {
        if bits[i] == 0 {
          var end := RunEnd(i);
          if end - i + 1 >= size {
            var k := FindEntry(i);
            RunAligned(start, table[..], owner, i);
            assert FreeRun(was, i, size);
            r := Take(k, i, size);
            return;
          }
          forall s | i <= s <= end
            ensures !FreeRun(was, s, size)
          {
            assert end + 1 < PAGESIZE ==> was[end + 1] != 0;
          }
          i := end;
        } else {
          assert was[i] != 0;
        }
        i := i + 1;
      }
      r := 0;
    }

    /** Fill in entry `k` and mark its bytes. */
    method Take(k: nat, i: nat, size: nat) returns (r: int)
      requires Valid() && k < SLOTS && !table[k].used
      requires i % MINALLOC == 0 && size > 0 && size % MINALLOC == 0 && FreeRun(bits[..], i, size)
      modifies this, bits, table
      ensures Valid() && r == start + i && r != 0
      ensures bits[..] == Fill(old(bits[..]), i, size, 1)
      ensures table[..] == old(table[..])[k := MemInfo(r, size, true)]
    {
      Added(start, table[..], owner, k, i, size);
      table[k] := MemInfo(start + i, size, true);
      Mark(i, size, 1);
      owner := Fill(owner, i, size, k);
      assert table[..] == old(table[..])[k := MemInfo(start + i, size, true)];
      r := table[k].start;
    }

    /** The byte loops of alloc and dealloc. */
    method Mark(s: nat, n: nat, v: int)
      requires bits.Length == PAGESIZE && s + n <= PAGESIZE
      modifies bits
      ensures bits[..] == Fill(old(bits[..]), s, n, v)
    {
      var bit := s;
      while bit < s + n
        invariant s <= bit <= s + n
        invariant bits[..] == Fill(old(bits[..]), s, bit - s, v)
      {
        bits[bit] := v;
        bit := bit + 1;
      }
    }

    /** dealloc: the range of a live address becomes free and its entry unused; any other address changes nothing. */
    method Dealloc(addr: int)
      requires Valid()
      modifies this, bits, table
      ensures Valid()
      ensures forall k: nat | k < SLOTS && IsAt(old(table[..])[k], addr) ::
                EntryDropped(start, old(table[..]), table[..], old(bits[..]), bits[..], k)
      ensures !(exists k: nat :: k < SLOTS && IsAt(old(table[..])[k], addr)) ==>
                table[..] == old(table[..]) && bits[..] == old(bits[..])
    {
      var i := 0;
      while i < SLOTS
        invariant 0 <= i <= SLOTS && Valid() && table[..] == old(table[..]) && bits[..] == old(bits[..])
        invariant forall k | 0 <= k < i :: old(table[..])[k].start != addr
      {
        if table[i].start == addr {
          SameStart(start, table[..], owner, i, addr);
          Give(i, addr);
          return;
        }
        i := i + 1;
      }
    }

    /** The body of dealloc's loop for the first entry with that address, live or not. */
    method Give(i: nat, addr: int)
      requires Valid() && i < SLOTS && table[i].start == addr
      modifies this, bits, table
      ensures Valid()
      ensures table[..] == old(table[..])[i := UNUSED]
      ensures old(table[i]).used ==> EntryDropped(start, old(table[..]), table[..], old(bits[..]), bits[..], i)
      ensures !old(table[i]).used ==> table[..] == old(table[..]) && bits[..] == old(bits[..])
    {
      assert EntryOk(start, table[..][i]);
      if table[i].used {
        Removed(start, table[..], owner, i);
        Mark(addr - start, table[i].length, 0);
        owner := Fill(owner, addr - start, table[i].length, -1);
      }
      table[i] := UNUSED;
      assert table[..] == old(table[..])[i := UNUSED];
    }
  }
}
