/** What umalloc.c keeps true of its memory: the linked free list, the live blocks, and the units they share out. */
module HeapState {
  import opened FreeList

  /** One header: the address in its `ptr` field and its `size` field, in header units. */
  datatype Header = Header(ptr: int, size: nat)

  type Memory = map<int, Header>

  predicate Within(p: int, n: nat, u: int) {
    p <= u < p + n
  }

  function Run(p: int, n: nat): set<int> {
    set u | p <= u < p + n && Within(p, n, u)
  }

  predicate LinkAt(mem: Memory, f: seq<Blk>, i: nat)
    requires i < |f|
  {
    f[i].addr in mem && mem[f[i].addr] == Header(Next(f, i), f[i].size)
  }

  /** The headers in memory form the circular list `f`: each one points to the next, the last to the first. */
  ghost predicate Links(mem: Memory, f: seq<Blk>) {
    forall i | 0 <= i < |f| :: LinkAt(mem, f, i)
  }

  ghost predicate IsLive(live: map<int, nat>, u: int) {
    exists a :: a in live && a <= u < a + live[a]
  }

  /** Blocks handed out keep their size in their header and never share a unit. */
  ghost predicate LiveOk(mem: Memory, live: map<int, nat>) {
    (forall a | a in live :: live[a] >= 1 && a in mem && mem[a].size == live[a]) &&
    (forall a, b | a in live && b in live && a != b :: Apart(a, live[a], b, live[b]))
  }

  /** The units obtained from sbrk are exactly the free and the live ones, and no unit is both. */
  ghost predicate Shared(f: seq<Blk>, live: map<int, nat>, arena: set<int>) {
    forall u :: (u in arena <==> IsFree(f, u) || IsLive(live, u)) && !(IsFree(f, u) && IsLive(live, u))
  }

  ghost predicate Placed(mem: Memory, arena: set<int>, base: int, brk: int) {
    0 < base < brk && forall u | u in arena :: base < u < brk && u in mem
  }

  ghost predicate HeapOk(mem: Memory, f: seq<Blk>, live: map<int, nat>, arena: set<int>, base: int, brk: int) {
    Good(f, base) && Links(mem, f) && LiveOk(mem, live) && Shared(f, live, arena) && Placed(mem, arena, base, brk)
  }

  /** The words of every block in `live` are the same in both memories. */
  ghost predicate Untouched(was: Memory, now: Memory, live: map<int, nat>) {
    forall u | IsLive(live, u) :: u in was && u in now && now[u] == was[u]
  }

  // --- Linking ---

  lemma SpliceNext(f: seq<Blk>, a: nat, c: nat, b: Blk, i: nat)
    requires 1 <= a <= c <= |f| && i < a + 1 + |f| - c
    ensures var r := Splice(f, a, c, b);
            (i < a - 1 ==> r[i] == f[i] && Next(r, i) == Next(f, i)) &&
            (i == a - 1 ==> r[i] == f[i] && Next(r, i) == b.addr) &&
            (i == a ==> r[i] == b && Next(r, i) == if c < |f| then f[c].addr else f[0].addr) &&
            (i > a ==> r[i] == f[i - a - 1 + c] && Next(r, i) == Next(f, i - a - 1 + c))
  {
  }

  lemma RemoveNext(f: seq<Blk>, k: nat, i: nat)
    requires 1 <= k < |f| && i < |f| - 1
    ensures var r := f[..k] + f[k + 1..];
            (i < k - 1 ==> r[i] == f[i] && Next(r, i) == Next(f, i)) &&
            (i == k - 1 ==> r[i] == f[i] && Next(r, i) == Next(f, k)) &&
            (i >= k ==> r[i] == f[i + 1] && Next(r, i) == Next(f, i + 1))
  {
  }

  /** Replacing positions [a, c) by `b` needs two headers written: the one before, and b's own. */
  lemma SpliceLinks(now: Memory, f: seq<Blk>, a: nat, c: nat, b: Blk)
    requires 1 <= a <= c <= |f|
    requires forall i | 0 <= i < |f| && !(a - 1 <= i < c) :: LinkAt(now, f, i)
    requires f[a - 1].addr in now && now[f[a - 1].addr] == Header(b.addr, f[a - 1].size)
    requires b.addr in now && now[b.addr] == Header(if c < |f| then f[c].addr else f[0].addr, b.size)
    ensures Links(now, Splice(f, a, c, b))
  {
    var r := Splice(f, a, c, b);
    forall i | 0 <= i < |r|
      ensures LinkAt(now, r, i)
    {
      SpliceNext(f, a, c, b, i);
      if i < a - 1 {
        assert LinkAt(now, f, i);
      } else if i > a {
        assert LinkAt(now, f, i - a - 1 + c);
      }
    }
  }

  /** The memory after the two tests of free, with `p` the block before the gap. */
  function Relinked(mem: Memory, p: int, bp: int): Memory
    requires p in mem && bp in mem && mem[p].ptr in mem
  {
    var m := mem[bp := if bp + mem[bp].size == mem[p].ptr
                       then Header(mem[mem[p].ptr].ptr, mem[bp].size + mem[mem[p].ptr].size)
                       else Header(mem[p].ptr, mem[bp].size)];
    m[p := if p + m[p].size == bp then Header(m[bp].ptr, m[p].size + m[bp].size) else Header(bp, m[p].size)]
  }

  lemma PutLinks(mem: Memory, f: seq<Blk>, base: int, g: nat, bp: int, s: nat)
    requires Good(f, base) && Links(mem, f) && Fits(f, g, bp, s) && base < bp
    requires bp in mem && mem[bp].size == s && f[g].addr in mem && mem[f[g].addr].ptr in mem
    ensures Links(Relinked(mem, f[g].addr, bp), Put(f, g, bp, s))
  {
    var now := Relinked(mem, f[g].addr, bp);
    var b := Merged(f, g, bp, s);
    var up := g + 1 < |f| && bp + s == f[g + 1].addr;
    assert LinkAt(mem, f, g);
    assert bp + s == Next(f, g) <==> up;
    if up {
      assert LinkAt(mem, f, g + 1);
    }
    forall i | 0 <= i < |f| && i != g
      ensures LinkAt(now, f, i)
    {
      assert LinkAt(mem, f, i) && f[i].addr != f[g].addr && f[i].addr != bp;
    }
    if f[g].addr + f[g].size == bp {
      assert LinkAt(mem, f, g - 1);
      SpliceLinks(now, f, g, if up then g + 2 else g + 1, b);
    } else {
      SpliceLinks(now, f, g + 1, if up then g + 2 else g + 1, b);
    }
  }

  /** Unlinking block `k` takes one write: the header before it skips it. */
  lemma RemoveLinks(mem: Memory, f: seq<Blk>, base: int, k: nat)
    requires Good(f, base) && Links(mem, f) && 1 <= k < |f|
    ensures Links(mem[f[k - 1].addr := Header(Next(f, k), f[k - 1].size)], f[..k] + f[k + 1..])
  {
    var r := f[..k] + f[k + 1..];
    var now := mem[f[k - 1].addr := Header(Next(f, k), f[k - 1].size)];
    forall i | 0 <= i < |r|
      ensures LinkAt(now, r, i)
    {
      RemoveNext(f, k, i);
      var j := if i < k then i else i + 1;
      assert LinkAt(mem, f, k - 1);
      assert LinkAt(mem, f, j) && (f[j].addr == f[k - 1].addr ==> j == k - 1);
    }
  }

  // --- Sharing out the arena ---

  lemma WithoutBlock(live: map<int, nat>, mem: Memory, bp: int, u: int)
    requires LiveOk(mem, live) && bp in live
    ensures IsLive(live - {bp}, u) <==> IsLive(live, u) && !(bp <= u < bp + live[bp])
  {
    var rest := live - {bp};
    if IsLive(live, u) && !(bp <= u < bp + live[bp]) {
      var a :| a in live && a <= u < a + live[a];
      assert a in rest && rest[a] == live[a];
    }
    if IsLive(rest, u) {
      var a :| a in rest && a <= u < a + rest[a];
      assert a in live && Apart(a, live[a], bp, live[bp]);
    }
  }

  lemma WithBlock(live: map<int, nat>, bp: int, s: nat, u: int)
    requires bp !in live
    ensures IsLive(live[bp := s], u) <==> IsLive(live, u) || bp <= u < bp + s
  {
    var more := live[bp := s];
    if IsLive(live, u) {
      var a :| a in live && a <= u < a + live[a];
      assert a in more && more[a] == live[a];
    }
    if bp <= u < bp + s {
      assert bp in more;
    }
  }

  /** No unit is free just when its block is apart from every other. */
  lemma NewBlockApart(mem: Memory, live: map<int, nat>, bp: int, s: nat)
    requires LiveOk(mem, live) && s >= 1
    requires forall u | bp <= u < bp + s :: !IsLive(live, u)
    ensures bp !in live
    ensures forall a | a in live :: Apart(a, live[a], bp, s)
  {
    if bp in live {
      assert bp <= bp < bp + live[bp];
      assert IsLive(live, bp);
      assert false;
    }
    forall a | a in live
      ensures Apart(a, live[a], bp, s)
    {
      if !Apart(a, live[a], bp, s) {
        var u := if a < bp then bp else a;
        assert a <= u < a + live[a];
        assert IsLive(live, u) && bp <= u < bp + s;
        assert false;
      }
    }
  }

  /** A live block always lies at a gap of the free list, clear of its neighbours. */
  lemma LiveFits(f: seq<Blk>, live: map<int, nat>, arena: set<int>, base: int, g: nat, bp: int)
    requires Good(f, base) && Shared(f, live, arena)
    requires bp in live && live[bp] >= 1 && Gap(f, g, bp)
    ensures Fits(f, g, bp, live[bp])
  {
    assert IsLive(live, bp);
    if f[g].addr + f[g].size > bp {
      assert Covers(f[g], bp);
      assert false;
    }
    if g + 1 < |f| && bp + live[bp] > f[g + 1].addr {
      var u := f[g + 1].addr;
      assert Covers(f[g + 1], u);
      assert bp <= u < bp + live[bp];
      assert IsLive(live, u);
      assert false;
    }
  }

  // --- The three changes keep the heap whole ---

  /** A header of the list is no unit of a live block. */
  lemma ListNotLive(mem: Memory, f: seq<Blk>, live: map<int, nat>, arena: set<int>, base: int, brk: int, i: nat)
    requires HeapOk(mem, f, live, arena, base, brk) && i < |f|
    ensures f[i].addr in mem && !IsLive(live, f[i].addr)
    ensures i >= 1 ==> f[i].addr in arena
  {
    assert LinkAt(mem, f, i);
    if i == 0 {
      assert base !in arena;
    } else {
      assert Covers(f[i], f[i].addr);
    }
  }

  lemma FreeShares(mem: Memory, f: seq<Blk>, live: map<int, nat>, arena: set<int>, base: int, brk: int, g: nat, bp: int)
    requires HeapOk(mem, f, live, arena, base, brk) && bp in live && Gap(f, g, bp)
    ensures Fits(f, g, bp, live[bp])
    ensures Shared(Put(f, g, bp, live[bp]), live - {bp}, arena)
  {
    LiveFits(f, live, arena, base, g, bp);
    forall u
      ensures IsFree(Put(f, g, bp, live[bp]), u) <==> IsFree(f, u) || bp <= u < bp + live[bp]
      ensures IsLive(live - {bp}, u) <==> IsLive(live, u) && !(bp <= u < bp + live[bp])
      ensures bp <= u < bp + live[bp] ==> IsLive(live, u)
    {
      PutFrees(f, base, g, bp, live[bp], u);
      WithoutBlock(live, mem, bp, u);
    }
  }

  /** free, with `g` the gap its loop finds. */
  lemma FreeKeeps(mem: Memory, f: seq<Blk>, live: map<int, nat>, arena: set<int>, base: int, brk: int, g: nat, bp: int)
    requires HeapOk(mem, f, live, arena, base, brk) && bp in live && Gap(f, g, bp)
    ensures bp in mem && f[g].addr in mem && mem[f[g].addr].ptr in mem
    ensures var now := Relinked(mem, f[g].addr, bp);
            HeapOk(now, Put(f, g, bp, live[bp]), live - {bp}, arena, base, brk) && Untouched(mem, now, live - {bp})
  {
    FreeShares(mem, f, live, arena, base, brk, g, bp);
    ListNotLive(mem, f, live, arena, base, brk, g);
    ListNotLive(mem, f, live, arena, base, brk, if g + 1 < |f| then g + 1 else 0);
    assert LinkAt(mem, f, g);
    assert IsLive(live, bp) && bp in arena;
    PutKeepsGood(f, base, g, bp, live[bp]);
    PutLinks(mem, f, base, g, bp, live[bp]);
    OthersUntouched(mem, Relinked(mem, f[g].addr, bp), live, arena, base, brk, bp, f[g].addr);
  }

  /** Writing one live header and one word outside every live block leaves the other live blocks alone. */
  lemma OthersUntouched(was: Memory, now: Memory, live: map<int, nat>, arena: set<int>, base: int, brk: int, bp: int,
                        p: int)
    requires LiveOk(was, live) && Placed(was, arena, base, brk) && bp in live && !IsLive(live, p)
    requires forall u | IsLive(live, u) :: u in arena
    requires forall u | u in was :: u in now && (u != bp && u != p ==> now[u] == was[u])
    ensures LiveOk(now, live - {bp}) && Untouched(was, now, live - {bp}) && Placed(now, arena, base, brk)
  {
    var rest := live - {bp};
    forall u | IsLive(rest, u)
      ensures u in was && u in now && now[u] == was[u]
    {
      WithoutBlock(live, was, bp, u);
    }
    forall a | a in rest
      ensures a in now && now[a] == was[a]
    {
      assert IsLive(rest, a);
    }
  }

  lemma LiveWith(was: Memory, now: Memory, live: map<int, nat>, bp: int, n: nat)
    requires LiveOk(was, live) && bp !in live && n >= 1 && bp in now && now[bp].size == n
    requires forall a | a in live :: Apart(a, live[a], bp, n)
    requires forall u | IsLive(live, u) && u in was :: u in now && now[u] == was[u]
    ensures LiveOk(now, live[bp := n])
  {
    forall a | a in live
      ensures a in now && now[a] == was[a]
    {
      assert IsLive(live, a);
    }
  }

  /** A run of units outside the arena may become a live block. */
  lemma GrowKeeps(was: Memory, now: Memory, f: seq<Blk>, live: map<int, nat>, arena: set<int>, base: int, brk: int,
                  more: set<int>, top: int, bp: int, s: nat)
    requires HeapOk(was, f, live, arena, base, brk) && s >= 1
    requires brk <= bp && bp + s <= top
    requires forall u :: u in more <==> u in arena || bp <= u < bp + s
    requires forall u | u in was && !(bp <= u < bp + s) :: u in now && now[u] == was[u]
    requires forall u | bp <= u < bp + s :: u in now
    requires now[bp].size == s
    ensures HeapOk(now, f, live[bp := s], more, base, top)
    ensures Untouched(was, now, live)
    ensures bp !in live
  {
    NewBlockApart(was, live, bp, s);
    forall u
      ensures IsLive(live[bp := s], u) <==> IsLive(live, u) || bp <= u < bp + s
    {
      WithBlock(live, bp, s, u);
    }
    forall i | 0 <= i < |f|
      ensures LinkAt(now, f, i)
    {
      ListNotLive(was, f, live, arena, base, brk, i);
      assert LinkAt(was, f, i) && f[i].addr < brk;
    }
    LiveWith(was, now, live, bp, s);
  }

  lemma TakeShares(mem: Memory, f: seq<Blk>, live: map<int, nat>, arena: set<int>, base: int, brk: int, k: nat, n: nat)
    requires HeapOk(mem, f, live, arena, base, brk) && k < |f| && 1 <= n <= f[k].size
    ensures var bp := f[k].addr + f[k].size - n;
            bp !in live && Shared(Take(f, k, n), live[bp := n], arena)
    ensures var bp := f[k].addr + f[k].size - n;
            (forall u | bp <= u < bp + n :: u in arena && !IsLive(live, u)) &&
            (forall a | a in live :: Apart(a, live[a], bp, n))
  {
    var bp := f[k].addr + f[k].size - n;
    forall u
      ensures IsFree(f, u) && !(bp <= u < bp + n) <==> IsFree(Take(f, k, n), u)
      ensures bp <= u < bp + n ==> IsFree(f, u)
    {
      TakeUses(f, base, k, n, u);
    }
    NewBlockApart(mem, live, bp, n);
    forall u
      ensures IsLive(live[bp := n], u) <==> IsLive(live, u) || bp <= u < bp + n
    {
      WithBlock(live, bp, n, u);
    }
  }

  lemma TailInMemory(mem: Memory, f: seq<Blk>, live: map<int, nat>, arena: set<int>, base: int, brk: int, k: nat,
                     n: nat)
    requires HeapOk(mem, f, live, arena, base, brk) && k < |f| && 1 <= n <= f[k].size
    ensures f[k].addr + f[k].size - n in mem && f[k].addr + f[k].size - n > 0
  {
    assert Covers(f[k], f[k].addr + f[k].size - n);
  }

  /** malloc taking a block that fits exactly: the header before it now skips it. */
  lemma TakeWholeKeeps(mem: Memory, f: seq<Blk>, live: map<int, nat>, arena: set<int>, base: int, brk: int, k: nat)
    requires HeapOk(mem, f, live, arena, base, brk) && 1 <= k < |f|
    ensures var now := mem[f[k - 1].addr := Header(Next(f, k), f[k - 1].size)];
            HeapOk(now, Take(f, k, f[k].size), live[f[k].addr := f[k].size], arena, base, brk) &&
            Untouched(mem, now, live)
    ensures f[k].addr !in live && f[k].addr in arena
  {
    var now := mem[f[k - 1].addr := Header(Next(f, k), f[k - 1].size)];
    TakeShares(mem, f, live, arena, base, brk, k, f[k].size);
    TakeKeepsGood(f, base, k, f[k].size);
    RemoveLinks(mem, f, base, k);
    ListNotLive(mem, f, live, arena, base, brk, k - 1);
    assert LinkAt(mem, f, k) && f[k - 1].addr != f[k].addr;
    LiveWith(mem, now, live, f[k].addr, f[k].size);
  }

  /** malloc cutting the tail off a larger block: its header shrinks and the tail gets one of its own. */
  lemma TakeTailKeeps(mem: Memory, f: seq<Blk>, live: map<int, nat>, arena: set<int>, base: int, brk: int, k: nat,
                      n: nat, now: Memory)
    requires HeapOk(mem, f, live, arena, base, brk) && k < |f| && 1 <= n < f[k].size
    requires var p := f[k].addr;
             var bp := p + f[k].size - n;
             (forall u | u in mem :: u in now && (u != p && u != bp ==> now[u] == mem[u])) &&
             p in now && now[p] == Header(Next(f, k), f[k].size - n) && bp in now && now[bp].size == n
    ensures HeapOk(now, Take(f, k, n), live[f[k].addr + f[k].size - n := n], arena, base, brk)
    ensures f[k].addr + f[k].size - n !in live
    ensures Untouched(mem, now, live)
  {
    var bp := f[k].addr + f[k].size - n;
    TakeShares(mem, f, live, arena, base, brk, k, n);
    TakeKeepsGood(f, base, k, n);
    ListNotLive(mem, f, live, arena, base, brk, k);
    var r := Take(f, k, n);
    forall i | 0 <= i < |r|
      ensures LinkAt(now, r, i)
    {
      assert LinkAt(mem, f, i) && r[i].addr == f[i].addr && Next(r, i) == Next(f, i);
      assert i < k ==> f[i].addr < f[k].addr;
      assert i > k ==> f[k].addr + f[k].size < f[i].addr;
    }
    LiveWith(mem, now, live, bp, n);
  }

  lemma SameUntouched(mem: Memory, f: seq<Blk>, live: map<int, nat>, arena: set<int>, base: int, brk: int)
    requires HeapOk(mem, f, live, arena, base, brk)
    ensures Untouched(mem, mem, live)
  {
  }

  lemma ChainUntouched(was: Memory, mid: Memory, now: Memory, live: map<int, nat>)
    requires Untouched(was, mid, live) && Untouched(mid, now, live)
    ensures Untouched(was, now, live)
  {
  }

  lemma EmptyHeap(mem: Memory, base: int, brk: int)
    requires 0 < base < brk && base in mem && mem[base] == Header(base, 0)
    ensures HeapOk(mem, [Blk(base, 0)], map[], {}, base, brk)
  {
    var f := [Blk(base, 0)];
    assert LinkAt(mem, f, 0);
    forall u
      ensures !IsFree(f, u) && !IsLive(map[], u)
    {
    }
  }
}
