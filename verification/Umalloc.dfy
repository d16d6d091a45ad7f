/** The Kernighan-Ritchie allocator of umalloc.c over a memory of headers. */
module Umalloc {
  import opened FreeList
  import opened HeapState

  const UINT_RANGE: nat := 0x1_0000_0000
  const HEADER_BYTES: nat := 8
  const MORECORE_UNITS: nat := 4096

  /** The units malloc asks for: the payload rounded up, in 32-bit arithmetic, and one header. */
  function NUnits(nbytes: nat): nat {
    (nbytes + HEADER_BYTES - 1) % UINT_RANGE / HEADER_BYTES + 1
  }

  /** What morecore asks sbrk for. */
  function MoreUnits(units: nat): nat {
    if units < MORECORE_UNITS then MORECORE_UNITS else units
  }

  /** The block handed out holds the bytes asked for just when the rounding did not wrap. */
  lemma PayloadSuffices(nbytes: nat)
    requires nbytes < UINT_RANGE
    ensures (NUnits(nbytes) - 1) * HEADER_BYTES >= nbytes <==> nbytes <= UINT_RANGE - HEADER_BYTES
    ensures nbytes <= UINT_RANGE - HEADER_BYTES ==> (NUnits(nbytes) - 1) * HEADER_BYTES < nbytes + HEADER_BYTES
  {
    if nbytes > UINT_RANGE - HEADER_BYTES {
      assert (nbytes + HEADER_BYTES - 1) % UINT_RANGE == nbytes + HEADER_BYTES - 1 - UINT_RANGE;
    }
  }

  /** Every address above the static header that is not in the list lies at exactly one gap. */
  lemma {:induction false} GapFor(f: seq<Blk>, base: int, bp: int, n: nat) returns (g: nat)
    requires Good(f, base) && base < bp && 1 <= n <= |f|
    requires forall i | 0 <= i < |f| :: f[i].addr != bp
    requires n < |f| ==> bp < f[n].addr
    ensures Gap(f, g, bp)
  {
    if f[n - 1].addr < bp {
      g := n - 1;
    } else {
      g := GapFor(f, base, bp, n - 1);
    }
  }

  /** The two tests of free's loop stop the walk at block `i` just when the gap follows it. */
  lemma StopsAtGap(f: seq<Blk>, base: int, i: nat, g: nat, bp: int)
    requires Good(f, base) && base < bp && i < |f| && Gap(f, g, bp)
    ensures var p, next := f[i].addr, Next(f, i);
            (p < bp < next || (p >= next && (bp > p || bp < next))) <==> i == g
  {
    if i < g {
      assert f[i + 1].addr <= f[g].addr;
    } else if i > g {
      assert f[g + 1].addr <= f[i].addr;
    }
  }

  ghost predicate HasFit(f: seq<Blk>, n: nat) {
    exists j :: 0 <= j < |f| && f[j].size >= n
  }

  /** All blocks passed on the way from just after `from` to `k` are smaller than `n`. */
  ghost predicate Passed(f: seq<Blk>, from: nat, k: nat, n: nat)
    requires from < |f| && k < |f|
  {
    forall j | 0 <= j < |f| && Dist(|f|, j, from) > Dist(|f|, k, from) :: f[j].size < n
  }

  /** Block `k` is the first one after `freep`, going round, that has room for `n` units. */
  ghost predicate NextFit(f: seq<Blk>, freep: int, k: nat, n: nat) {
    k < |f| && f[k].size >= n && exists i :: 0 <= i < |f| && f[i].addr == freep && Passed(f, i, k, n)
  }

  lemma FitFound(f: seq<Blk>, freep: int, from: nat, k: nat, n: nat)
    requires from < |f| && f[from].addr == freep && k < |f| && Passed(f, from, k, n) && f[k].size >= n
    ensures NextFit(f, freep, k, n) && HasFit(f, n)
  {
  }

  function After(f: seq<Blk>, k: nat): nat {
    if k + 1 < |f| then k + 1 else 0
  }

  /** `p` and `prevp` are the k-th block and the one before it on the way round. */
  predicate Position(f: seq<Blk>, k: nat, p: int, prevp: int) {
    k < |f| && f[k].addr == p && f[if k > 0 then k - 1 else |f| - 1].addr == prevp
  }

  lemma Advance(mem: Memory, f: seq<Blk>, k: nat, p: int)
    requires Links(mem, f) && k < |f| && f[k].addr == p
    ensures p in mem && mem[p].size == f[k].size && Position(f, After(f, k), mem[p].ptr, p)
  {
    assert LinkAt(mem, f, k);
  }

  /** Going on past a block that is too small. */
  lemma PassOn(f: seq<Blk>, from: nat, k: nat, n: nat)
    requires from < |f| && k < |f| && k != from && Passed(f, from, k, n) && f[k].size < n
    ensures Passed(f, from, After(f, k), n) && Dist(|f|, After(f, k), from) < Dist(|f|, k, from)
  {
  }

  lemma PassNone(f: seq<Blk>, from: nat, n: nat)
    requires from < |f|
    ensures Passed(f, from, After(f, from), n)
  {
  }

  /** Once round without success: no block has room. */
  lemma PassedAll(f: seq<Blk>, from: nat, n: nat)
    requires from < |f| && Passed(f, from, from, n) && f[from].size < n
    ensures !HasFit(f, n)
  {
    forall j | 0 <= j < |f|
      ensures f[j].size < n
    {
      assert j == from || Dist(|f|, j, from) > 0;
    }
  }

  lemma SameBlock(f: seq<Blk>, base: int, k: nat, i: nat)
    requires Good(f, base) && k < |f| && i < |f| && f[k].addr == f[i].addr
    ensures k == i
  {
  }

  lemma FitPosition(f: seq<Blk>, base: int, k: nat, n: nat)
    requires Good(f, base) && k < |f| && f[k].size >= n >= 1
    ensures k >= 1
  {
  }

  lemma TakeKeepsBelow(f: seq<Blk>, k: nat, n: nat)
    requires 1 <= k < |f| && f[k].size >= n
    ensures |Take(f, k, n)| >= k && Take(f, k, n)[k - 1] == f[k - 1] && Take(f, k, n)[0].addr == f[0].addr
  {
  }

  lemma PutFits(f: seq<Blk>, g: nat, bp: int, s: nat)
    requires g < |f|
    ensures HasFit(Put(f, g, bp, s), s)
    ensures g < |Put(f, g, bp, s)| && Put(f, g, bp, s)[g].addr == f[g].addr
  {
    var r := Put(f, g, bp, s);
    if f[g].addr + f[g].size == bp {
      assert r[g] == Merged(f, g, bp, s);
    } else {
      assert r[g] == f[g] && r[g + 1] == Merged(f, g, bp, s);
    }
  }

  /** The new units, looking like a block that was handed out. */
  lemma Extended(was: Memory, now: Memory, f: seq<Blk>, live: map<int, nat>, arena: set<int>, base: int, top: int,
                 brk: int, hp: int, nu: nat)
    requires HeapOk(was, f, live, arena, base, top) && nu >= 1 && top <= hp && brk == hp + nu
    requires now == (was + map u | u in Run(hp, nu) :: Header(0, 0))[hp := Header(0, nu)]
    ensures HeapOk(now, f, live[hp := nu], arena + Run(hp, nu), base, brk) && Untouched(was, now, live)
    ensures hp !in live && hp in arena + Run(hp, nu) && hp !in arena
  {
    assert Within(hp, nu, hp);
    GrowKeeps(was, now, f, live, arena, base, top, arena + Run(hp, nu), brk, hp, nu);
  }

  lemma PutBack(live: map<int, nat>, hp: int, nu: nat)
    requires hp !in live
    ensures live[hp := nu] - {hp} == live
  {
  }

  /** A request to sbrk, in units, and whether it was granted. */
  datatype Request = Request(units: nat, granted: bool)

  class Heap {
    var mem: Memory
    const base: int
    var freep: int
    var brk: int
    ghost var free: seq<Blk>
    ghost var live: map<int, nat>
    ghost var arena: set<int>
    ghost var asked: seq<Request>    // every call of sbrk so far, with its outcome

    ghost predicate Valid()
      reads this
    {
      if freep == 0 then
        free == [] && live == map[] && arena == {} && 0 < base < brk && base in mem
      else
        HeapOk(mem, free, live, arena, base, brk) && exists i :: 0 <= i < |free| && free[i].addr == freep
    }

    /** A process just started: the static header below the break, nothing allocated. */
    constructor (header: int, top: int)
      requires 0 < header < top
      ensures Valid() && freep == 0 && base == header && brk == top && live == map[] && asked == []
    {
      mem, base, freep, brk := map[header := Header(0, 0)], header, 0, top;
      free, live, arena, asked := [], map[], {}, [];
    }

    /** sbrk: the new zeroed units start at the break, which others may have raised; or it refuses. */
    method Sbrk(nu: nat) returns (p: int)
      requires 0 < brk
      modifies this`mem, this`brk, this`asked
      ensures asked == old(asked) + [Request(nu, p != -1)]
      ensures p == -1 ==> mem == old(mem) && brk == old(brk)
      ensures p != -1 ==> old(brk) <= p && brk == p + nu
      ensures p != -1 ==> mem == old(mem) + map u | u in Run(p, nu) :: Header(0, 0)
    {
      var refused: bool := *;
      asked := asked + [Request(nu, !refused)];
      if refused {
        return -1;
      }
      var raised :| raised >= 0;
      p := brk + raised;
      mem := mem + map u | u in Run(p, nu) :: Header(0, 0);
      brk := p + nu;
    }

    /** The search of free: round the list from freep to the block the freed one belongs after. */
    method FindGap(bp: int, ghost g: nat) returns (p: int)
      requires Valid() && freep != 0 && base < bp && Gap(free, g, bp)
      ensures p == free[g].addr
    {
      p := freep;
      ghost var i: nat :| i < |free| && free[i].addr == freep;
      assert LinkAt(mem, free, i);
      while !(bp > p && bp < mem[p].ptr)
        invariant i < |free| && p == free[i].addr && LinkAt(mem, free, i)
        decreases Dist(|free|, i, g)
      {
        StopsAtGap(free, base, i, g, bp);
        if p >= mem[p].ptr && (bp > p || bp < mem[p].ptr) {
          return;
        }
        p := mem[p].ptr;
        i := if i + 1 < |free| then i + 1 else 0;
        assert LinkAt(mem, free, i);
      }
      StopsAtGap(free, base, i, g, bp);
    }

    /** The two tests of free: merge the block with the one above, then the one below with it. */
    method Relink(p: int, bp: int)
      requires p in mem && bp in mem && mem[p].ptr in mem
      modifies this`mem, this`freep
      ensures mem == Relinked(old(mem), p, bp) && freep == p
    {
      if bp + mem[bp].size == mem[p].ptr {
        var above := mem[p].ptr;
        mem := mem[bp := Header(mem[bp].ptr, mem[bp].size + mem[above].size)];
        mem := mem[bp := Header(mem[above].ptr, mem[bp].size)];
      } else {
        mem := mem[bp := Header(mem[p].ptr, mem[bp].size)];
      }
      if p + mem[p].size == bp {
        mem := mem[p := Header(mem[p].ptr, mem[p].size + mem[bp].size)];
        mem := mem[p := Header(mem[bp].ptr, mem[p].size)];
      } else {
        mem := mem[p := Header(bp, mem[p].size)];
      }
      freep := p;
    }

    /** free: the units of the block become free, merged with what they touch, and nothing else moves. */
    method Free(ap: int) returns (ghost g: nat)
      requires Valid() && ap - 1 in live
      modifies this`mem, this`freep, this`free, this`live
      ensures Valid() && freep != 0
      ensures live == old(live) - {ap - 1}
      ensures Gap(old(free), g, ap - 1) && free == Put(old(free), g, ap - 1, old(live[ap - 1]))
      ensures g < |free| && free[g].addr == freep == old(free)[g].addr
      ensures HasFit(free, old(live[ap - 1]))
      ensures Untouched(old(mem), mem, live)
    {
      var bp := ap - 1;
      assert IsLive(live, bp);
      forall j | 0 <= j < |free|
        ensures free[j].addr != bp
      {
        ListNotLive(mem, free, live, arena, base, brk, j);
      }
      g := GapFor(free, base, bp, |free|);
      FreeKeeps(mem, free, live, arena, base, brk, g, bp);
      PutFits(free, g, bp, live[bp]);
      var p := FindGap(bp, g);
      assert LinkAt(mem, free, g);
      Relink(p, bp);
      free := Put(free, g, bp, live[bp]);
      live := live - {bp};
    }

    /** The first half of morecore: new units from sbrk, made to look like a block that was handed out. */
    method Extend(nu: nat) returns (hp: int)
      requires Valid() && freep != 0 && nu >= 1
      modifies this`mem, this`brk, this`live, this`arena, this`asked
      ensures Valid() && asked == old(asked) + [Request(nu, hp != -1)]
      ensures hp == -1 ==> mem == old(mem) && live == old(live) && arena == old(arena)
      ensures hp != -1 ==> old(brk) <= hp && arena == old(arena) + Run(hp, nu) && hp in arena && hp !in old(arena)
      ensures hp != -1 ==> hp !in old(live) && live == old(live)[hp := nu] && Untouched(old(mem), mem, old(live))
    {
      ghost var was, top := mem, brk;
      hp := Sbrk(nu);
      if hp == -1 {
        return;
      }
      mem := mem[hp := Header(mem[hp].ptr, nu)];
      Extended(was, mem, free, live, arena, base, top, brk, hp, nu);
      arena := arena + Run(hp, nu);
      live := live[hp := nu];
    }

    /** morecore: at least 4096 new units, freed into the list. */
    method Morecore(units: nat) returns (r: int, ghost at: nat)
      requires Valid() && freep != 0 && units >= 1
      modifies this
      ensures Valid() && live == old(live) && freep != 0
      ensures asked == old(asked) + [Request(if units < 4096 then 4096 else units, r != 0)]
      ensures r == 0 ==> mem == old(mem) && free == old(free) && arena == old(arena) && freep == old(freep)
      ensures r != 0 ==> r == freep && at < |free| && free[at].addr == freep
      ensures r != 0 ==> HasFit(free, units) && old(arena) < arena
      ensures r != 0 ==> exists p :: old(brk) <= p && arena == old(arena) + Run(p, MoreUnits(units))
      ensures Untouched(old(mem), mem, live)
    {
      ghost var was := mem;
      var hp := Extend(MoreUnits(units));
      if hp == -1 {
        SameUntouched(mem, free, live, arena, base, brk);
        return 0, 0;
      }
      ghost var grown := mem;
      PutBack(old(live), hp, MoreUnits(units));
      at := Free(hp + 1);
      ChainUntouched(was, grown, mem, live);
      r := freep;
    }

    /** Hand out block `k`, or its tail when it is larger than needed. */
    method Allot(nunits: nat, prevp: int, p: int, ghost k: nat) returns (bp: int)
      requires HeapOk(mem, free, live, arena, base, brk) && 1 <= k < |free| && 1 <= nunits <= free[k].size
      requires p == free[k].addr && prevp == free[k - 1].addr
      modifies this`mem, this`freep, this`free, this`live
      ensures Valid() && freep != 0
      ensures bp == old(free)[k].addr + old(free)[k].size - nunits && bp > 0
      ensures bp !in old(live) && live == old(live)[bp := nunits]
      ensures free == Take(old(free), k, nunits)
      ensures Untouched(old(mem), mem, old(live))
    {
      assert LinkAt(mem, free, k);
      TailInMemory(mem, free, live, arena, base, brk, k, nunits);
      TakeKeepsBelow(free, k, nunits);
      if mem[p].size == nunits {
        bp := Unlink(prevp, p, k);
      } else {
        bp := CutTail(nunits, p, k);
      }
      freep := prevp;
      free := Take(free, k, nunits);
      assert base in mem && freep >= base by {
        assert free[0].addr == base && LinkAt(mem, free, 0);
      }
    }

    method Unlink(prevp: int, p: int, ghost k: nat) returns (bp: int)
      requires HeapOk(mem, free, live, arena, base, brk) && 1 <= k < |free|
      requires p == free[k].addr && prevp == free[k - 1].addr
      modifies this`mem, this`live
      ensures HeapOk(mem, Take(free, k, free[k].size), live, arena, base, brk)
      ensures bp == p && bp !in old(live) && live == old(live)[bp := free[k].size]
      ensures Untouched(old(mem), mem, old(live))
    {
      TakeWholeKeeps(mem, free, live, arena, base, brk, k);
      assert LinkAt(mem, free, k) && LinkAt(mem, free, k - 1);
      mem := mem[prevp := Header(mem[p].ptr, mem[prevp].size)];
      live := live[p := free[k].size];
      bp := p;
    }

    method CutTail(nunits: nat, at: int, ghost k: nat) returns (bp: int)
      requires HeapOk(mem, free, live, arena, base, brk) && k < |free| && 1 <= nunits < free[k].size
      requires at == free[k].addr
      modifies this`mem, this`live
      ensures HeapOk(mem, Take(free, k, nunits), live, arena, base, brk)
      ensures bp == at + free[k].size - nunits && bp !in old(live) && live == old(live)[bp := nunits]
      ensures Untouched(old(mem), mem, old(live))
    {
      ghost var was := mem;
      var p := at;
      assert LinkAt(mem, free, k);
      TailInMemory(mem, free, live, arena, base, brk, k, nunits);
      mem := mem[p := Header(mem[p].ptr, mem[p].size - nunits)];
      p := p + mem[p].size;
      mem := mem[p := Header(mem[p].ptr, nunits)];
      TakeTailKeeps(was, free, live, arena, base, brk, k, nunits, mem);
      live := live[p := nunits];
      bp := p;
    }

    /** The loop of malloc: on to the first block with room, asking morecore once after a round without one. */
    method FindFit(nunits: nat, start: int) returns (p: int, prevp: int, ghost k: nat)
      requires Valid() && freep != 0 && start == freep && nunits >= 1
      modifies this
      ensures Valid() && freep != 0 && live == old(live) && Untouched(old(mem), mem, live)
      ensures asked == if HasFit(old(free), nunits) then old(asked)
                       else old(asked) + [Request(if nunits < 4096 then 4096 else nunits, p != 0)]
      ensures p == 0 ==> arena == old(arena) && !HasFit(old(free), nunits)
      ensures p != 0 ==> Position(free, k, p, prevp) && NextFit(free, freep, k, nunits)
      ensures HasFit(old(free), nunits) ==> free == old(free) && freep == old(freep) && arena == old(arena)
      ensures p != 0 && !HasFit(old(free), nunits) ==> old(arena) < arena
    {
      prevp := start;
      ghost var from: nat :| from < |free| && free[from].addr == freep;
      ghost var grown := false;
      Advance(mem, free, from, prevp);
      p := mem[prevp].ptr;
      PassNone(free, from, nunits);
      k := After(free, from);
      SameUntouched(mem, free, live, arena, base, brk);
      while true
        invariant Valid() && freep != 0 && live == old(live) && Untouched(old(mem), mem, live)
        invariant from < |free| && free[from].addr == freep
        invariant Position(free, k, p, prevp) && Passed(free, from, k, nunits)
        invariant grown ==> HasFit(free, nunits) && !HasFit(old(free), nunits) && old(arena) < arena
        invariant grown ==> asked == old(asked) + [Request(if nunits < 4096 then 4096 else nunits, true)]
        invariant !grown ==> mem == old(mem) && free == old(free) && arena == old(arena) && freep == old(freep)
        invariant !grown ==> asked == old(asked)
        decreases if grown then 0 else 1, Dist(|free|, k, from)
      {
        Advance(mem, free, k, p);
        if mem[p].size >= nunits {
          FitFound(free, freep, from, k, nunits);
          return;
        }
        if p == freep {
          ghost var seen := mem;
          p, from := AfterRound(nunits, from, k, p);
          ChainUntouched(old(mem), seen, mem, live);
          if p == 0 {
            return;
          }
          grown := true;
          k := from;
          Advance(mem, free, from, p);
        } else {
          PassOn(free, from, k, nunits);
        }
        prevp := p;
        p := mem[p].ptr;
        k := After(free, k);
      }
    }

    /** A full round without success: more from the kernel, starting over at freep. */
    method AfterRound(nunits: nat, ghost from: nat, ghost k: nat, p: int) returns (r: int, ghost at: nat)
      requires Valid() && freep != 0 && nunits >= 1 && p == freep
      requires from < |free| && free[from].addr == freep && k < |free| && free[k].addr == p && free[k].size < nunits
      requires Passed(free, from, k, nunits)
      modifies this
      ensures Valid() && live == old(live) && freep != 0 && !HasFit(old(free), nunits)
      ensures asked == old(asked) + [Request(if nunits < 4096 then 4096 else nunits, r != 0)]
      ensures r == 0 ==> mem == old(mem) && free == old(free) && arena == old(arena) && freep == old(freep)
      ensures r != 0 ==>
                r == freep && at < |free| && free[at].addr == freep && Passed(free, at, After(free, at), nunits)
      ensures r != 0 ==> HasFit(free, nunits) && old(arena) < arena
      ensures Untouched(old(mem), mem, live)
    {
      SameBlock(free, base, k, from);
      PassedAll(free, from, nunits);
      r, at := Morecore(nunits);
      if r != 0 {
        PassNone(free, at, nunits);
      }
    }

    /** The circular list of the empty heap, at the first call. */
    method Prepare() returns (start: int)
      requires Valid()
      modifies this`mem, this`freep, this`free
      ensures Valid() && freep != 0 && start == freep && Untouched(old(mem), mem, live)
      ensures old(freep) == 0 ==> free == [Blk(base, 0)]
      ensures old(freep) != 0 ==> free == old(free) && freep == old(freep) && mem == old(mem)
    {
      start := freep;
      if start == 0 {
        start := base;
        freep := start;
        mem := mem[base := Header(freep, mem[base].size)];
        mem := mem[base := Header(mem[base].ptr, 0)];
        free := [Blk(base, 0)];
        assert LinkAt(mem, free, 0);
        EmptyHeap(mem, base, brk);
      }
      SameUntouched(mem, free, live, arena, base, brk);
    }

    /**
     malloc: a block of its own, next fit from freep. It asks sbrk exactly when no block fits, once, for at least 4096
     units, and fails exactly when that is refused.
     */
    method Malloc(nbytes: nat) returns (r: int)
      requires Valid() && nbytes < UINT_RANGE && NUnits(nbytes) * HEADER_BYTES < 0x8000_0000
      modifies this
      ensures Valid() && freep != 0
      ensures HasFit(old(free), NUnits(nbytes)) ==> r != 0 && asked == old(asked)
      ensures !HasFit(old(free), NUnits(nbytes)) ==>
                asked ==
                old(asked) + [Request(if NUnits(nbytes) < 4096 then 4096 else NUnits(nbytes), r != 0)]
      ensures r != 0 ==> r - 1 !in old(live) && live == old(live)[r - 1 := NUnits(nbytes)]
      ensures r == 0 ==> live == old(live) && arena == old(arena) && !HasFit(old(free), NUnits(nbytes))
      ensures HasFit(old(free), NUnits(nbytes)) ==> arena == old(arena)
      ensures r != 0 && arena == old(arena) ==>
                exists k: nat :: NextFit(old(free), old(freep), k, NUnits(nbytes)) &&
                  free == Take(old(free), k, NUnits(nbytes)) &&
                  r - 1 == old(free)[k].addr + old(free)[k].size - NUnits(nbytes)
      ensures old(arena) <= arena
      ensures Untouched(old(mem), mem, old(live))
    {
      var nunits := NUnits(nbytes);
      var start := Prepare();
      assert HasFit(free, nunits) <==> HasFit(old(free), nunits);
      ghost var was := mem;
      var p, prevp, k := FindFit(nunits, start);
      if p == 0 {
        return 0;
      }
      FitPosition(free, base, k, nunits);
      ghost var found := mem;
      var bp := Allot(nunits, prevp, p, k);
      ChainUntouched(was, found, mem, old(live));
      r := bp + 1;
      assert r - 1 == bp;
    }
  }
}
