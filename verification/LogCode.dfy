/** The code of log.c over the buffer cache, one process at a time, with every disk write recorded. */
module LogCode {
  import opened Blocks
  import opened LogLayout
  import opened LogWrites
  import opened BufferCache
  import opened CacheView
  import Machine = LogMachine

  /** How a call ends: normally or in one of the source's panics. */
  datatype Outcome = Done | TooBigTransaction | OutsideTransaction | LogCommitting | NoBuffers

  // The cache operations, by their effect on contents and pinned blocks.

  ghost predicate CacheOk(bc: Cache)
    reads bc, bc.buf, bc.next, bc.prev
  {
    bc.Valid() && DirtyOnDisk(bc.buf[..])
  }

  method ReadBlock(bc: Cache, b: uint) returns (ok: bool, i: nat)
    requires CacheOk(bc) && b < |bc.disk| && NotLocked(bc.buf[..], DISK, b)
    modifies bc`disk, bc`trail, bc.buf
    ensures CacheOk(bc) && bc.disk == old(bc.disk) && bc.trail == old(bc.trail)
    ensures View(bc.buf[..], bc.disk) == old(View(bc.buf[..], bc.disk))
    ensures Dirty(bc.buf[..]) == old(Dirty(bc.buf[..]))
    ensures ok ==
            (InCache(old(bc.buf[..]), DISK, b) || exists j :: 0 <= j < bc.buf.Length && Recyclable(old(bc.buf[..])[j]))
    ensures !ok ==> bc.buf[..] == old(bc.buf[..])
    ensures ok ==> i < bc.buf.Length && Acquired(old(bc.buf[..]), bc.buf[..], bc.disk, b, i) &&
                   bc.buf[i].data == View(bc.buf[..], bc.disk)[b]
  {
    ghost var was := bc.buf[..];
    ok, i := bc.Bread(b);
    if ok {
      AcquireKeepsView(was, bc.buf[..], bc.disk, b, i);
      DirtyKept(was, bc.buf[..], i);
    }
  }

  /** memmove into a locked buffer. */
  method Fill(bc: Cache, i: nat, v: Block)
    requires CacheOk(bc) && i < bc.buf.Length && bc.buf[i].locked && bc.buf[i].valid
    requires bc.buf[i].dev == DISK && bc.buf[i].blockno < |bc.disk|
    modifies bc.buf
    ensures CacheOk(bc) && bc.buf[..] == old(bc.buf[..])[i := old(bc.buf[..])[i].(data := v)]
    ensures View(bc.buf[..], bc.disk) == old(View(bc.buf[..], bc.disk))[old(bc.buf[i].blockno) := v]
    ensures Dirty(bc.buf[..]) == old(Dirty(bc.buf[..]))
  {
    ghost var was := bc.buf[..];
    bc.buf[i] := bc.buf[i].(data := v);
    assert bc.buf[..] == was[i := bc.buf[i]];
    UpdateView(was, bc.buf[..], bc.disk, bc.disk, i);
    DirtyKept(was, bc.buf[..], i);
  }

  method WriteBack(bc: Cache, i: nat)
    requires CacheOk(bc) && i < bc.buf.Length && bc.buf[i].locked && bc.buf[i].valid
    requires bc.buf[i].dev == DISK && bc.buf[i].blockno < |bc.disk|
    modifies bc`disk, bc`trail, bc.buf
    ensures CacheOk(bc) && bc.buf[..] == old(bc.buf[..])[i := old(bc.buf[..])[i].(dirty := false)]
    ensures bc.disk == old(bc.disk)[old(bc.buf[i].blockno) := old(bc.buf[i].data)]
    ensures bc.trail == old(bc.trail) + [bc.disk]
    ensures View(bc.buf[..], bc.disk) == old(View(bc.buf[..], bc.disk))
    ensures Dirty(bc.buf[..]) == old(Dirty(bc.buf[..])) - {old(bc.buf[i].blockno)}
  {
    ghost var was, d := bc.buf[..], bc.disk;
    bc.Bwrite(i);
    UpdateView(was, bc.buf[..], d, bc.disk, i);
    DirtyWritten(was, bc.buf[..], i);
  }

  method Release(bc: Cache, i: nat)
    requires CacheOk(bc) && i < bc.buf.Length && bc.buf[i].locked && bc.buf[i].valid
    requires bc.buf[i].dev == DISK && bc.buf[i].blockno < |bc.disk|
    requires bc.buf[i].dirty || bc.buf[i].data == bc.disk[bc.buf[i].blockno]
    modifies bc`order, bc`released, bc.buf, bc.next, bc.prev
    ensures CacheOk(bc)
    ensures bc.buf[..] ==
            old(bc.buf[..])[i := old(bc.buf[..])[i].(locked := false, refcnt := old(bc.buf[..])[i].refcnt - 1)]
    ensures View(bc.buf[..], bc.disk) == old(View(bc.buf[..], bc.disk))
    ensures Dirty(bc.buf[..]) == old(Dirty(bc.buf[..]))
  {
    ghost var was := bc.buf[..];
    bc.Brelse(i);
    UpdateView(was, bc.buf[..], bc.disk, bc.disk, i);
    DirtyKept(was, bc.buf[..], i);
  }

  /** Change a locked buffer that nobody else wants, write it and let it go. */
  method Store(bc: Cache, i: nat, v: Block)
    requires CacheOk(bc) && i < bc.buf.Length && Usable(bc.buf[i], |bc.disk|)
    requires forall k | 0 <= k < bc.buf.Length :: bc.buf[k].refcnt == if k == i then 1 else 0
    modifies bc, bc.buf, bc.next, bc.prev
    ensures CacheOk(bc) && Idle(bc.buf[..])
    ensures bc.disk == old(bc.disk)[old(bc.buf[i].blockno) := v] && bc.trail == old(bc.trail) + [bc.disk]
    ensures View(bc.buf[..], bc.disk) == old(View(bc.buf[..], bc.disk))[old(bc.buf[i].blockno) := v]
    ensures Dirty(bc.buf[..]) == old(Dirty(bc.buf[..])) - {old(bc.buf[i].blockno)}
  {
    Fill(bc, i, v);
    WriteBack(bc, i);
    Release(bc, i);
  }

  predicate Usable(x: Buffer, nblocks: nat) {
    x.locked && x.valid && x.dev == DISK && x.blockno < nblocks
  }

  /** The common end of both copying loops: memmove, bwrite of the destination, brelse of both buffers. */
  method Transfer(bc: Cache, dst: nat, src: nat)
    requires CacheOk(bc) && dst < bc.buf.Length && src < bc.buf.Length && dst != src
    requires Usable(bc.buf[dst], |bc.disk|) && Usable(bc.buf[src], |bc.disk|)
    requires bc.buf[src].dirty || bc.buf[src].data == bc.disk[bc.buf[src].blockno]
    requires bc.buf[src].blockno != bc.buf[dst].blockno
    modifies bc, bc.buf, bc.next, bc.prev
    ensures CacheOk(bc)
    ensures bc.buf[..] == old(bc.buf[..])
              [src := old(bc.buf[..])[src].(locked := false, refcnt := old(bc.buf[..])[src].refcnt - 1)]
              [dst := old(bc.buf[..])[dst].(data := old(bc.buf[src].data), dirty := false, locked := false,
                                            refcnt := old(bc.buf[..])[dst].refcnt - 1)]
    ensures (forall k | 0 <= k < bc.buf.Length :: old(bc.buf[k].refcnt) == if k == src || k == dst then 1 else 0) ==>
              Idle(bc.buf[..])
    ensures bc.disk == old(bc.disk)[old(bc.buf[dst].blockno) := old(bc.buf[src].data)]
    ensures bc.trail == old(bc.trail) + [bc.disk]
    ensures View(bc.buf[..], bc.disk) ==
            old(View(bc.buf[..], bc.disk))[old(bc.buf[dst].blockno) := old(bc.buf[src].data)]
    ensures Dirty(bc.buf[..]) == old(Dirty(bc.buf[..])) - {old(bc.buf[dst].blockno)}
  {
    Fill(bc, dst, bc.buf[src].data);
    WriteBack(bc, dst);
    Release(bc, src);
    Release(bc, dst);
  }

  lemma DirtyMembers(bs: seq<Buffer>)
    ensures forall i | 0 <= i < |bs| :: bs[i].dirty ==> bs[i].blockno in Dirty(bs)
  {
  }

  /** A block that is cached but not pinned occupies a buffer that is not dirty. */
  lemma CachedUnpinned(bs: seq<Buffer>, b: uint)
    requires Unique(bs) && DirtyOnDisk(bs) && InCache(bs, DISK, b) && b !in Dirty(bs)
    ensures |Dirty(bs)| < |bs|
  {
    DirtyMembers(bs);
    DirtyCounted(bs);
  }

  lemma UnpinnedClean(bs: seq<Buffer>, disk: Disk, b: nat)
    requires Unique(bs) && Coherent(bs, disk) && Idle(bs) && b < |disk| && b !in Dirty(bs)
    ensures View(bs, disk)[b] == disk[b]
  {
    DirtyMembers(bs);
    CleanContent(bs, disk, b);
  }

  lemma IdleUnlocked(bs: seq<Buffer>, disk: Disk, b: uint)
    requires Idle(bs) && Coherent(bs, disk)
    ensures NotLocked(bs, DISK, b)
  {
  }

  /** One bread of a block that is not pinned, while nobody else holds a buffer. */
  method ReadUnpinned(bc: Cache, b: uint) returns (ok: bool, i: nat)
    requires CacheOk(bc) && Idle(bc.buf[..]) && b < |bc.disk| && b !in Dirty(bc.buf[..])
    modifies bc`disk, bc`trail, bc.buf
    ensures CacheOk(bc) && bc.disk == old(bc.disk) && bc.trail == old(bc.trail)
    ensures View(bc.buf[..], bc.disk) == old(View(bc.buf[..], bc.disk))
    ensures Dirty(bc.buf[..]) == old(Dirty(bc.buf[..]))
    ensures ok <==> |old(Dirty(bc.buf[..]))| < bc.buf.Length
    ensures !ok ==> Idle(bc.buf[..])
    ensures ok ==> i < bc.buf.Length && Usable(bc.buf[i], |bc.disk|) && bc.buf[i].blockno == b
    ensures ok ==> bc.buf[i].data == bc.disk[b]
    ensures ok ==> forall k | 0 <= k < bc.buf.Length :: bc.buf[k].refcnt == if k == i then 1 else 0
  {
    UnpinnedClean(bc.buf[..], bc.disk, b);
    if InCache(bc.buf[..], DISK, b) {
      CachedUnpinned(bc.buf[..], b);
    }
    FreeBuffer(bc.buf[..]);
    IdleUnlocked(bc.buf[..], bc.disk, b);
    ok, i := ReadBlock(bc, b);
  }

  /** The common start of both copying loops: two breads. */
  method ReadPair(bc: Cache, a: uint, b: uint) returns (ok: bool, i: nat, j: nat)
    requires CacheOk(bc) && Idle(bc.buf[..]) && a != b && a < |bc.disk| && b < |bc.disk|
    requires b in Dirty(bc.buf[..]) || (Dirty(bc.buf[..]) == {} && bc.buf.Length >= 2)
    requires a !in Dirty(bc.buf[..])
    modifies bc`disk, bc`trail, bc.buf
    ensures CacheOk(bc) && bc.disk == old(bc.disk) && bc.trail == old(bc.trail)
    ensures View(bc.buf[..], bc.disk) == old(View(bc.buf[..], bc.disk))
    ensures Dirty(bc.buf[..]) == old(Dirty(bc.buf[..]))
    ensures ok <==> |old(Dirty(bc.buf[..]))| < bc.buf.Length
    ensures !ok ==> Idle(bc.buf[..])
    ensures ok ==> i < bc.buf.Length && j < bc.buf.Length && i != j
    ensures ok ==> Usable(bc.buf[i], |bc.disk|) && bc.buf[i].blockno == a && bc.buf[i].data == bc.disk[a]
    ensures ok ==> Usable(bc.buf[j], |bc.disk|) && bc.buf[j].blockno == b
    ensures ok ==> bc.buf[j].data == View(bc.buf[..], bc.disk)[b]
    ensures ok ==> forall k | 0 <= k < bc.buf.Length :: bc.buf[k].refcnt == if k == i || k == j then 1 else 0
  {
    ok, i := ReadUnpinned(bc, a);
    j := 0;
    if !ok {
      return;
    }
    ghost var mid := bc.buf[..];
    if b in Dirty(mid) {
      DirtyCached(mid, bc.disk, b);
    } else {
      var free := if i == 0 then 1 else 0;
      DirtyMembers(mid);
      assert Recyclable(mid[free]);
    }
    OneHeldUnlocked(mid, bc.disk, b, i);
    ghost var two;
    two, j := ReadBlock(bc, b);
  }

  lemma OneHeldUnlocked(bs: seq<Buffer>, disk: Disk, b: uint, i: nat)
    requires Coherent(bs, disk) && i < |bs| && bs[i].blockno != b
    requires forall k | 0 <= k < |bs| && k != i :: bs[k].refcnt == 0
    ensures NotLocked(bs, DISK, b)
  {
  }

  /** One turn of write_log's loop: read log block `a` and home block `b`, write the second's data to the first. */
  method CopyToLog(bc: Cache, a: uint, b: uint) returns (ok: bool)
    requires CacheOk(bc) && Idle(bc.buf[..]) && a != b && a < |bc.disk| && b < |bc.disk|
    requires b in Dirty(bc.buf[..]) || (Dirty(bc.buf[..]) == {} && bc.buf.Length >= 2)
    requires a !in Dirty(bc.buf[..])
    modifies bc, bc.buf, bc.next, bc.prev
    ensures CacheOk(bc) && Idle(bc.buf[..])
    ensures ok <==> |old(Dirty(bc.buf[..]))| < bc.buf.Length
    ensures !ok ==> bc.disk == old(bc.disk) && bc.trail == old(bc.trail)
    ensures !ok ==> View(bc.buf[..], bc.disk) == old(View(bc.buf[..], bc.disk))
    ensures !ok ==> Dirty(bc.buf[..]) == old(Dirty(bc.buf[..]))
    ensures ok ==> bc.trail == old(bc.trail) + [bc.disk]
    ensures ok ==> bc.disk == old(bc.disk)[a := old(View(bc.buf[..], bc.disk))[b]]
    ensures ok ==> View(bc.buf[..], bc.disk) == old(View(bc.buf[..], bc.disk))[a := old(View(bc.buf[..], bc.disk))[b]]
    ensures ok ==> Dirty(bc.buf[..]) == old(Dirty(bc.buf[..]))
  {
    var i, j;
    UnpinnedClean(bc.buf[..], bc.disk, a);
    ok, i, j := ReadPair(bc, a, b);
    if ok {
      Transfer(bc, i, j);
      assert old(Dirty(bc.buf[..])) - {a} == old(Dirty(bc.buf[..]));
    }
  }

  /** One turn of install_trans's loop: the other way round. */
  method CopyFromLog(bc: Cache, a: uint, b: uint) returns (ok: bool)
    requires CacheOk(bc) && Idle(bc.buf[..]) && a != b && a < |bc.disk| && b < |bc.disk|
    requires b in Dirty(bc.buf[..]) || (Dirty(bc.buf[..]) == {} && bc.buf.Length >= 2)
    requires a !in Dirty(bc.buf[..])
    modifies bc, bc.buf, bc.next, bc.prev
    ensures CacheOk(bc) && Idle(bc.buf[..])
    ensures ok <==> |old(Dirty(bc.buf[..]))| < bc.buf.Length
    ensures !ok ==> bc.disk == old(bc.disk) && bc.trail == old(bc.trail)
    ensures !ok ==> View(bc.buf[..], bc.disk) == old(View(bc.buf[..], bc.disk))
    ensures !ok ==> Dirty(bc.buf[..]) == old(Dirty(bc.buf[..]))
    ensures ok ==> bc.trail == old(bc.trail) + [bc.disk]
    ensures ok ==> bc.disk == old(bc.disk)[b := old(View(bc.buf[..], bc.disk))[a]]
    ensures ok ==> View(bc.buf[..], bc.disk) == old(View(bc.buf[..], bc.disk))[b := old(View(bc.buf[..], bc.disk))[a]]
    ensures ok ==> Dirty(bc.buf[..]) == old(Dirty(bc.buf[..])) - {b}
  {
    var i, j;
    UnpinnedClean(bc.buf[..], bc.disk, a);
    ok, i, j := ReadPair(bc, a, b);
    if ok {
      Transfer(bc, j, i);
    }
  }

  function Elems(lh: seq<uint>): set<uint> {
    set i | 0 <= i < |lh| :: lh[i]
  }

  lemma ElemsSnoc(lh: seq<uint>, b: uint)
    ensures Elems(lh + [b]) == Elems(lh) + {b}
  {
    assert (lh + [b])[|lh|] == b;
    forall c | c in Elems(lh) ensures c in Elems(lh + [b]) {
      var i :| 0 <= i < |lh| && lh[i] == c;
      assert (lh + [b])[i] == c;
    }
  }

  lemma {:induction false} ElemsCount(lh: seq<uint>)
    requires Distinct(lh)
    ensures |Elems(lh)| == |lh|
  {
    if lh != [] {
      var n := |lh| - 1;
      ElemsCount(lh[..n]);
      ElemsSnoc(lh[..n], lh[n]);
      assert lh[..n] + [lh[n]] == lh;
    }
  }

  lemma ElemsTail(lh: seq<uint>, k: nat)
    requires Distinct(lh) && k < |lh|
    ensures lh[k] in Elems(lh[k..]) && Elems(lh[k..]) - {lh[k]} == Elems(lh[k + 1..])
  {
    assert lh[k..][0] == lh[k];
    forall b | b in Elems(lh[k..]) && b != lh[k] ensures b in Elems(lh[k + 1..]) {
      var i :| 0 <= i < |lh| - k && lh[k..][i] == b;
      assert lh[k + 1..][i - 1] == b;
    }
    forall b | b in Elems(lh[k + 1..]) ensures b in Elems(lh[k..]) && b != lh[k] {
      var i :| 0 <= i < |lh| - k - 1 && lh[k + 1..][i] == b;
      assert lh[k..][i + 1] == b;
    }
  }

  lemma {:induction false} Fewer(a: set<uint>, b: set<uint>)
    requires a <= b
    ensures |a| <= |b|
  {
    if exists x :: x in a {
      var x :| x in a;
      Fewer(a - {x}, b - {x});
    }
  }

  /** Disk, contents and recording after `k` entries were installed. */
  ghost predicate Progressed(l: Layout, d: Disk, v: Disk, t: seq<Disk>, lh: seq<uint>, k: nat, disk: Disk, view: Disk,
                             trail: seq<Disk>)
  {
    l.Ok() && EntriesOk(l, lh) && |d| == |v| == l.nblocks && k <= |lh| &&
    disk == Installed(l, d, lh, k) && view == Installed(l, v, lh, k) && trail == t + InstallTrail(l, d, lh, k)
  }

  class Log {
    const l: Layout
    const bc: Cache
    const block: array<uint>   // log.lh.block
    var n: nat                 // log.lh.n
    var outstanding: int
    var committing: bool

    /** A machine just switched on: an empty cache, nothing logged. */
    constructor (l: Layout, disk: Disk, nbuf: nat)
      requires l.Ok() && |disk| == l.nblocks
      ensures Valid() && this.l == l && bc.buf.Length == nbuf && bc.disk == disk && bc.trail == []
      ensures n == 0 && outstanding == 0 && !committing
      ensures Idle(bc.buf[..]) && Dirty(bc.buf[..]) == {} && FsView() == disk
      ensures fresh(bc) && fresh(bc.buf) && fresh(bc.next) && fresh(bc.prev) && fresh(block)
    {
      this.l := l;
      bc := new Cache(nbuf, disk);
      block := new uint[LOGSIZE](i => 0);
      n := 0;
      outstanding := 0;
      committing := false;
    }

    ghost predicate Valid()
      reads this, block, bc, bc.buf, bc.next, bc.prev
    {
      l.Ok() && CacheOk(bc) && block.Length == LOGSIZE && n <= LOGSIZE && |bc.disk| == l.nblocks &&
      EntriesOk(l, Entries()) && forall b | b in Dirty(bc.buf[..]) :: l.Home(b)
    }

    ghost function Entries(): (lh: seq<uint>)
      requires n <= block.Length
      reads this, block
      ensures |lh| == n
    {
      block[..n]
    }

    /** What the file system sees: the disk through the cache. */
    ghost function FsView(): (v: Disk)
      reads bc, bc.buf
      ensures |v| == |bc.disk|
    {
      View(bc.buf[..], bc.disk)
    }

    ghost predicate AllPinned()
      requires n <= block.Length
      reads this, block, bc, bc.buf
    {
      Dirty(bc.buf[..]) == Elems(Entries())
    }

    /** `tail` turns of write_log's loop are done, since disk `d`, contents `v` and recording `t`. */
    ghost predicate CopyProgress(d: Disk, v: Disk, t: seq<Disk>, tail: nat)
      reads this, block, bc, bc.buf, bc.next, bc.prev
    {
      Valid() && Idle(bc.buf[..]) && AllPinned() && |d| == |v| == l.nblocks && tail <= n &&
      bc.disk == Copied(l, d, v, Entries(), tail) && FsView() == Copied(l, v, v, Entries(), tail) &&
      bc.trail == t + CommitTrail(l, d, v, Entries(), tail)
    }

    /** The body of write_log's loop. */
    method CopyEntry(ghost d: Disk, ghost v: Disk, ghost t: seq<Disk>, tail: nat) returns (ok: bool)
      requires CopyProgress(d, v, t, tail) && tail < n
      modifies bc, bc.buf, bc.next, bc.prev
      ensures Valid() && Idle(bc.buf[..]) && AllPinned()
      ensures ok <==> n < bc.buf.Length
      ensures ok ==> CopyProgress(d, v, t, tail + 1)
      ensures !ok ==> bc.disk == old(bc.disk) && bc.trail == old(bc.trail)
    {
      var a: uint := l.start + tail + 1;
      ghost var lh := Entries();
      ElemsCount(lh);
      assert !l.Home(a) && block[tail] == lh[tail] && lh[tail] in Elems(lh) && l.Home(lh[tail]);
      assert FsView()[lh[tail]] == v[lh[tail]];
      CommitTrailSnoc(l, d, v, lh, tail);
      ghost var t0 := CommitTrail(l, d, v, lh, tail);
      ok := CopyToLog(bc, a, block[tail]);
      assert Entries() == lh;
      assert (t + t0) + [bc.disk] == t + (t0 + [bc.disk]);
    }

    /** write_log: copy the pinned buffers to the log blocks. Panics if every buffer is pinned. */
    method WriteLog() returns (ok: bool)
      requires Valid() && Idle(bc.buf[..]) && AllPinned()
      modifies bc, bc.buf, bc.next, bc.prev
      ensures Valid() && Idle(bc.buf[..]) && AllPinned()
      ensures ok <==> n == 0 || n < bc.buf.Length
      ensures ok ==> CopyProgress(old(bc.disk), old(FsView()), old(bc.trail), n)
      ensures !ok ==> bc.disk == old(bc.disk) && bc.trail == old(bc.trail)
    {
      ghost var d, v, t := bc.disk, FsView(), bc.trail;
      var tail: nat := 0;
      while tail < n
        invariant tail <= n && CopyProgress(d, v, t, tail)
        invariant tail > 0 ==> n < bc.buf.Length
      {
        ok := CopyEntry(d, v, t, tail);
        if !ok {
          return;
        }
        tail := tail + 1;
      }
      ok := true;
    }

    /** The stores of write_head into the header block. */
    method StoreHead(was: Block) returns (h: Block)
      requires block.Length == LOGSIZE && n <= LOGSIZE
      ensures h == HeadBlock(was, Entries())
    {
      h := SetWord(was, 0, n);
      var k: nat := 0;
      while k < n
        invariant k <= n && h == PutEntries(SetWord(was, 0, n), Entries(), k)
      {
        h := SetWord(h, 1 + k, block[k]);
        k := k + 1;
      }
    }

    /** write_head: store the in-memory header into the header block and write it. */
    method WriteHead() returns (ok: bool)
      requires Valid() && Idle(bc.buf[..])
      modifies bc, bc.buf, bc.next, bc.prev
      ensures Valid() && Idle(bc.buf[..]) && Dirty(bc.buf[..]) == old(Dirty(bc.buf[..]))
      ensures ok <==> |Dirty(bc.buf[..])| < bc.buf.Length
      ensures ok ==> var h := HeadBlock(old(bc.disk)[l.start], Entries());
                     bc.disk == old(bc.disk)[l.start := h] && FsView() == old(FsView())[l.start := h]
      ensures ok ==> bc.trail == old(bc.trail) + [bc.disk]
      ensures !ok ==> bc.disk == old(bc.disk) && bc.trail == old(bc.trail) && FsView() == old(FsView())
    {
      assert !l.Home(l.start);
      var i;
      ok, i := ReadUnpinned(bc, l.start);
      if !ok {
        return;
      }
      var h := StoreHead(bc.buf[i].data);
      assert old(Dirty(bc.buf[..])) - {l.start} == old(Dirty(bc.buf[..]));
      Store(bc, i, h);
    }

    /** `tail` turns of install_trans's loop are done, since disk `d`, contents `v` and recording `t`. */
    ghost predicate InstallProgress(d: Disk, v: Disk, t: seq<Disk>, tail: nat)
      reads this, block, bc, bc.buf, bc.next, bc.prev
    {
      Valid() && Idle(bc.buf[..]) && Progressed(l, d, v, t, Entries(), tail, bc.disk, FsView(), bc.trail)
    }

    /** Either the blocks still to be installed are pinned, as in commit(), or nothing is, as in recovery. */
    ghost predicate ToInstall(tail: nat)
      requires tail <= n <= block.Length
      reads this, block, bc, bc.buf
    {
      |Dirty(bc.buf[..])| < bc.buf.Length &&
      (Dirty(bc.buf[..]) == Elems(Entries()[tail..]) || (Dirty(bc.buf[..]) == {} && bc.buf.Length >= 2))
    }

    /** The body of install_trans's loop. */
    method InstallEntry(ghost d: Disk, ghost v: Disk, ghost t: seq<Disk>, tail: nat)
      requires InstallProgress(d, v, t, tail) && tail < n && ToInstall(tail)
      requires v[l.start + tail + 1] == d[l.start + tail + 1]
      modifies bc, bc.buf, bc.next, bc.prev
      ensures InstallProgress(d, v, t, tail + 1) && ToInstall(tail + 1)
    {
      ghost var lh, dirty := Entries(), Dirty(bc.buf[..]);
      var a: uint := l.start + tail + 1;
      NextInstall(l, d, v, t, lh, tail, bc.disk, FsView(), bc.trail);
      ElemsTail(lh, tail);
      Fewer(dirty - {lh[tail]}, dirty);
      ghost var ok := CopyFromLog(bc, a, block[tail]);
      assert Entries() == lh;
    }

    /** install_trans: copy the log blocks to their home blocks. */
    method InstallTrans()
      requires Valid() && Idle(bc.buf[..]) && (n > 0 ==> ToInstall(0))
      requires forall b | l.start < b <= l.start + n :: FsView()[b] == bc.disk[b]
      modifies bc, bc.buf, bc.next, bc.prev
      ensures InstallProgress(old(bc.disk), old(FsView()), old(bc.trail), n)
      ensures old(n) > 0 ==> Dirty(bc.buf[..]) == {}
      ensures old(n) == 0 ==> Dirty(bc.buf[..]) == old(Dirty(bc.buf[..]))
    {
      ghost var d, v, t := bc.disk, FsView(), bc.trail;
      assert InstallProgress(d, v, t, 0);
      var tail: nat := 0;
      while tail < n
        invariant tail <= n && InstallProgress(d, v, t, tail) && (n > 0 ==> ToInstall(tail))
        invariant n == 0 ==> Dirty(bc.buf[..]) == old(Dirty(bc.buf[..]))
      {
        assert v[l.start + (tail + 1)] == d[l.start + (tail + 1)];
        InstallEntry(d, v, t, tail);
        tail := tail + 1;
      }
    }

    /** read_head: load the header on disk. */
    method ReadHead() returns (ok: bool)
      requires Valid() && Idle(bc.buf[..]) && Dirty(bc.buf[..]) == {} && DiskOk(l, bc.disk)
      modifies this`n, block, bc, bc.buf, bc.next, bc.prev
      ensures Valid() && Idle(bc.buf[..]) && Dirty(bc.buf[..]) == {} && FsView() == old(FsView())
      ensures ok <==> bc.buf.Length > 0
      ensures bc.disk == old(bc.disk) && bc.trail == old(bc.trail)
      ensures ok ==> Entries() == DiskEntries(l, bc.disk)
      ensures !ok ==> Entries() == old(Entries())
    {
      var i;
      ok, i := ReadUnpinned(bc, l.start);
      if ok {
        LoadHead(bc.buf[i].data);
        Release(bc, i);
      }
    }

    /** The loads of read_head from the header block. */
    method LoadHead(h: Block)
      requires block.Length == LOGSIZE && Word(h, 0) <= LOGSIZE
      modifies this`n, block
      ensures n <= LOGSIZE && this.Entries() == LogLayout.Entries(h)
    {
      n := Word(h, 0);
      var i: nat := 0;
      while i < n
        invariant i <= n == Word(h, 0) && forall k | 0 <= k < i :: block[k] == Word(h, 1 + k)
      {
        block[i] := Word(h, 1 + i);
        i := i + 1;
      }
    }

    /** The common end of commit and recovery: install_trans, lh.n = 0, write_head. */
    method InstallAndClear()
      requires Valid() && Idle(bc.buf[..]) &&
               (if n > 0 then ToInstall(0) else Dirty(bc.buf[..]) == {} && bc.buf.Length > 0)
      requires forall b | l.start < b <= l.start + n :: FsView()[b] == bc.disk[b]
      modifies this`n, bc, bc.buf, bc.next, bc.prev
      ensures Valid() && Idle(bc.buf[..]) && Dirty(bc.buf[..]) == {} && n == 0
      ensures bc.disk == Cleared(l, old(bc.disk), old(Entries()))
      ensures bc.trail == old(bc.trail) + ClearTrail(l, old(bc.disk), old(Entries()))
    {
      ghost var d, lh, t := bc.disk, Entries(), bc.trail;
      InstallTrans();
      ghost var t1 := bc.trail;
      InstalledLogArea(l, d, lh, n);
      n := 0;
      assert Entries() == [];
      var ok := WriteHead();
      assert t1 + [bc.disk] == t + ClearTrail(l, d, lh);
    }

    /**
     recover_from_log: the home blocks end up holding what the disk stood for, and so does every
     disk on the way: a crash during recovery is recovered by the next one.
     */
    method Recover(ghost store: Disk)
      requires Valid() && Idle(bc.buf[..]) && Dirty(bc.buf[..]) == {} && StandsFor(l, bc.disk, store)
      requires bc.buf.Length >= 2
      modifies this`n, block, bc, bc.buf, bc.next, bc.prev
      ensures Valid() && Idle(bc.buf[..]) && Dirty(bc.buf[..]) == {} && n == 0
      ensures bc.trail == old(bc.trail) + ClearTrail(l, old(bc.disk), DiskEntries(l, old(bc.disk)))
      ensures SameHome(l, bc.disk, store) && StandsFor(l, bc.disk, store) && DiskEntries(l, bc.disk) == []
      ensures forall j | |old(bc.trail)| <= j < |bc.trail| :: StandsFor(l, bc.trail[j], store)
    {
      ghost var d := bc.disk;
      var ok := ReadHead();
      CleanView();
      InstallAndClear();
      RecoverySafe(l, d, store);
    }

    /** With nothing pinned or held the file system sees the disk itself. */
    lemma CleanView()
      requires Valid() && Idle(bc.buf[..]) && Dirty(bc.buf[..]) == {}
      ensures FsView() == bc.disk
    {
      forall b: nat | b < |bc.disk| ensures FsView()[b] == bc.disk[b] {
        UnpinnedClean(bc.buf[..], bc.disk, b);
      }
    }

    /** A block that is not pinned, a log block in particular, is seen as it is on disk. */
    lemma UnpinnedView(b: nat)
      requires Valid() && Idle(bc.buf[..]) && b < |bc.disk| && b !in Dirty(bc.buf[..])
      ensures FsView()[b] == bc.disk[b]
    {
      UnpinnedClean(bc.buf[..], bc.disk, b);
    }

    /**
     commit: atomic. The disk goes through the log blocks, the header, the home blocks and the
     header again; up to the first header write it stands for the old contents, from then on for
     everything the group wrote. It panics exactly when every buffer is pinned.
     */
    method Commit(ghost store: Disk) returns (ok: bool)
      requires Valid() && Idle(bc.buf[..]) && AllPinned()
      requires StandsFor(l, bc.disk, store) && DiskEntries(l, bc.disk) == []
      modifies this`n, bc, bc.buf, bc.next, bc.prev
      ensures Valid() && Idle(bc.buf[..])
      ensures ok <==> old(n) == 0 || old(n) < bc.buf.Length
      ensures ok && old(n) > 0 ==>
                bc.trail == old(bc.trail) + CommitTrail(l, old(bc.disk), old(FsView()), old(Entries()), 2 * old(n) + 2)
      ensures ok && old(n) == 0 ==> bc.trail == old(bc.trail) && bc.disk == old(bc.disk) && FsView() == old(FsView())
      ensures ok ==> n == 0 && Dirty(bc.buf[..]) == {} && DiskOk(l, bc.disk) && DiskEntries(l, bc.disk) == []
      ensures ok ==> SameHome(l, bc.disk, old(FsView())) && FsView() == bc.disk
      ensures AtomicSince(l, bc.trail, |old(bc.trail)|, old(n), store, old(FsView()))
      ensures !ok ==> bc.disk == old(bc.disk) && bc.trail == old(bc.trail)
    {
      ok := true;
      if n > 0 {
        ok := CommitListed(store);
      } else {
        assert Elems(Entries()) == {};
        CleanView();
        EmptyHeadMeansHome(l, bc.disk, store);
        NothingSince(l, bc.trail, n, store, FsView());
      }
    }

    /** The same for a list that is not empty. */
    method CommitListed(ghost store: Disk) returns (ok: bool)
      requires Valid() && Idle(bc.buf[..]) && AllPinned() && n > 0
      requires StandsFor(l, bc.disk, store) && DiskEntries(l, bc.disk) == []
      modifies this`n, bc, bc.buf, bc.next, bc.prev
      ensures Valid() && Idle(bc.buf[..]) && (ok <==> old(n) < bc.buf.Length)
      ensures ok ==>
                bc.trail == old(bc.trail) + CommitTrail(l, old(bc.disk), old(FsView()), old(Entries()), 2 * old(n) + 2)
      ensures ok ==> n == 0 && Dirty(bc.buf[..]) == {} && DiskOk(l, bc.disk) && DiskEntries(l, bc.disk) == []
      ensures ok ==> SameHome(l, bc.disk, old(FsView())) && FsView() == bc.disk
      ensures AtomicSince(l, bc.trail, |old(bc.trail)|, old(n), store, old(FsView()))
      ensures !ok ==> bc.disk == old(bc.disk) && bc.trail == old(bc.trail)
    {
      ghost var d, v, t, lh := bc.disk, FsView(), bc.trail, Entries();
      OnlyLoggedNow();
      ok := WriteLog();
      if !ok {
        NothingSince(l, t, |lh|, store, v);
        return;
      }
      CommitTail(d, v, t);
      CommitSafe(l, d, v, lh, store, t, bc.disk, bc.trail);
    }

    /** begin_op, one turn of its loop under log.lock: admit the operation, or have it sleep. */
    method BeginOp() returns (admitted: bool)
      modifies this`outstanding
      ensures admitted <==> !committing && n + (old(outstanding) + 1) * MAXOPBLOCKS <= LOGSIZE
      ensures outstanding == old(outstanding) + if admitted then 1 else 0
    {
      admitted := false;
      if !committing {
        if !(n + (outstanding + 1) * MAXOPBLOCKS > LOGSIZE) {
          outstanding := outstanding + 1;
          admitted := true;
        }
      }
    }

    /** The search of log_write for a block that is on the list already. */
    method FindLogged(b: uint) returns (k: nat)
      requires n <= block.Length
      ensures k <= n && (forall j | 0 <= j < k :: block[j] != b) && (k < n ==> block[k] == b)
    {
      k := 0;
      while k < n
        invariant k <= n && forall j | 0 <= j < k :: block[j] != b
      {
        if block[k] == b {
          break;
        }
        k := k + 1;
      }
    }

    /**
     log_write: put the block of a locked buffer on the list, once, and pin the buffer. The guards
     come first, so a full list panics even for a block that is already on it.
     */
    method LogWrite(i: nat) returns (r: Outcome)
      requires Valid() && AllPinned() && i < bc.buf.Length && Usable(bc.buf[i], |bc.disk|) && l.Home(bc.buf[i].blockno)
      modifies this`n, block, bc.buf
      ensures Valid() && AllPinned()
      ensures r == if old(n) >= l.Capacity() then TooBigTransaction
                   else if outstanding < 1 then OutsideTransaction else Done
      ensures r.Done? ==> Entries() == Machine.Absorb(old(Entries()), old(bc.buf[i].blockno))
      ensures r.Done? ==> bc.buf[..] == old(bc.buf[..])[i := old(bc.buf[..])[i].(dirty := true)]
      ensures r.Done? ==> FsView() == old(FsView())
      ensures !r.Done? ==> Entries() == old(Entries()) && bc.buf[..] == old(bc.buf[..])
    {
      if n >= LOGSIZE || n >= l.size - 1 {
        return TooBigTransaction;
      }
      if outstanding < 1 {
        return OutsideTransaction;
      }
      Record(bc.buf[i].blockno);
      Pin(i);
      r := Done;
    }

    /** The list takes the block up, once. */
    method Record(b: uint)
      requires block.Length == LOGSIZE && n < l.Capacity() && EntriesOk(l, Entries()) && l.Home(b)
      modifies this`n, block
      ensures n <= LOGSIZE && Entries() == Machine.Absorb(old(Entries()), b) && EntriesOk(l, Entries())
      ensures Elems(Entries()) == Elems(old(Entries())) + {b}
    {
      ghost var lh := Entries();
      var k := FindLogged(b);
      block[k] := b;
      if k == n {
        n := n + 1;
      }
      AbsorbedAt(l, lh, b, k);
      assert Entries() == Machine.Absorb(lh, b);
    }

    /** The dirty bit keeps the buffer in the cache. */
    method Pin(i: nat)
      requires CacheOk(bc) && i < bc.buf.Length && Usable(bc.buf[i], |bc.disk|)
      modifies bc.buf
      ensures CacheOk(bc) && bc.buf[..] == old(bc.buf[..])[i := old(bc.buf[..])[i].(dirty := true)]
      ensures FsView() == old(FsView()) && Dirty(bc.buf[..]) == old(Dirty(bc.buf[..])) + {old(bc.buf[i].blockno)}
    {
      ghost var was := bc.buf[..];
      bc.buf[i] := bc.buf[i].(dirty := true);
      assert bc.buf[..] == was[i := was[i].(dirty := true)];
      DirtyAdded(was, bc.buf[..], i);
      UpdateView(was, bc.buf[..], bc.disk, bc.disk, i);
    }

    /** end_op: the last operation commits the whole group before others are let in again. */
    method EndOp(ghost store: Disk) returns (r: Outcome)
      requires Valid() && AllPinned() && (outstanding == 1 && !committing ==> Idle(bc.buf[..]))
      requires StandsFor(l, bc.disk, store) && DiskEntries(l, bc.disk) == []
      modifies this`n, this`outstanding, this`committing, bc, bc.buf, bc.next, bc.prev
      ensures outstanding == old(outstanding) - 1
      ensures r == if old(committing) then LogCommitting
                   else if outstanding == 0 && old(n) > 0 && old(n) >= bc.buf.Length then NoBuffers else Done
      ensures !r.LogCommitting? && outstanding != 0 ==>
                !committing && n == old(n) && FsView() == old(FsView()) && bc.trail == old(bc.trail)
      ensures r.Done? && outstanding == 0 ==>
                !committing && n == 0 && DiskOk(l, bc.disk) && DiskEntries(l, bc.disk) == [] &&
                SameHome(l, bc.disk, old(FsView())) && FsView() == bc.disk
      ensures AtomicSince(l, bc.trail, |old(bc.trail)|, old(n), store, old(FsView()))
    {
      outstanding := outstanding - 1;
      if committing {
        NothingSince(l, bc.trail, n, store, FsView());
        return LogCommitting;
      }
      if outstanding == 0 {
        committing := true;
        var ok := Commit(store);
        if !ok {
          return NoBuffers;
        }
        committing := false;
      } else {
        NothingSince(l, bc.trail, n, store, FsView());
      }
      r := Done;
    }

    lemma OnlyLoggedNow()
      requires Valid() && Idle(bc.buf[..]) && AllPinned()
      ensures OnlyLogged(l, bc.disk, FsView(), Entries())
    {
      forall b | l.Home(b) && b !in Entries() ensures FsView()[b] == bc.disk[b] {
        assert b !in Elems(Entries());
        UnpinnedView(b);
      }
    }

    /** commit after write_log: from the header write on. */
    method CommitTail(ghost d: Disk, ghost v: Disk, ghost t: seq<Disk>)
      requires n > 0 && CopyProgress(d, v, t, n) && n < bc.buf.Length
      modifies this`n, bc, bc.buf, bc.next, bc.prev
      ensures Valid() && Idle(bc.buf[..]) && Dirty(bc.buf[..]) == {} && n == 0
      ensures bc.disk == CommitDisk(l, d, v, old(Entries()), 2 * old(n) + 2)
      ensures bc.trail == t + CommitTrail(l, d, v, old(Entries()), 2 * old(n) + 2)
      ensures FsView() == bc.disk
    {
      ghost var lh := Entries();
      CommitHead(d, v, t);
      ghost var mid, trail := bc.disk, bc.trail;
      InstallAndClear();
      CleanView();
      TrailJoins(l, d, v, lh, t, mid, trail, bc.trail);
    }

    /** The header write of commit. */
    method CommitHead(ghost d: Disk, ghost v: Disk, ghost t: seq<Disk>)
      requires n > 0 && CopyProgress(d, v, t, n) && n < bc.buf.Length
      modifies bc, bc.buf, bc.next, bc.prev
      ensures Valid() && Idle(bc.buf[..]) && ToInstall(0) && Entries() == old(Entries())
      ensures bc.disk == Committed(l, d, v, Entries())
      ensures bc.trail == (t + CommitTrail(l, d, v, Entries(), n)) + [bc.disk]
      ensures forall b | l.start < b <= l.start + n :: FsView()[b] == bc.disk[b]
    {
      ghost var lh := Entries();
      ElemsCount(lh);
      assert !l.Home(l.start) && bc.disk[l.start] == d[l.start];
      var ok := WriteHead();
      assert Entries() == lh && lh[0..] == lh;
    }
  }

  /** One more entry installed: what it makes of disk, contents and recording. */
  lemma NextInstall(l: Layout, d: Disk, v: Disk, t: seq<Disk>, lh: seq<uint>, k: nat, disk: Disk, view: Disk,
                    trail: seq<Disk>)
    requires l.Ok() && EntriesOk(l, lh) && k < |lh| && Progressed(l, d, v, t, lh, k, disk, view, trail)
    requires v[l.start + k + 1] == d[l.start + k + 1]
    ensures var a := l.start + k + 1;
            !l.Home(a) && l.Home(lh[k]) && a != lh[k] &&
            var now := disk[lh[k] := view[a]];
            Progressed(l, d, v, t, lh, k + 1, now, view[lh[k] := view[a]], trail + [now])
  {
    InstalledLogArea(l, v, lh, k);
    InstalledLogArea(l, d, lh, k);
    InstallTrailSnoc(l, d, lh, k);
  }

  /** The writes of a commit up to the header, and from there on. */
  lemma TrailJoins(l: Layout, d: Disk, v: Disk, lh: seq<uint>, t: seq<Disk>, mid: Disk, trail: seq<Disk>,
                   all: seq<Disk>)
    requires Fits(l, d, lh) && |v| == |d| && mid == Committed(l, d, v, lh)
    requires trail == (t + CommitTrail(l, d, v, lh, |lh|)) + [mid] && all == trail + ClearTrail(l, mid, lh)
    ensures all == t + CommitTrail(l, d, v, lh, 2 * |lh| + 2)
    ensures Cleared(l, mid, lh) == CommitDisk(l, d, v, lh, 2 * |lh| + 2)
  {
    JoinAfter(t, CommitTrail(l, d, v, lh, |lh|), mid, ClearTrail(l, mid, lh));
    CommitRecorded(l, d, v, lh);
    CommitDiskTail(l, d, v, lh, |lh| + 1);
  }

  lemma AbsorbedAt(l: Layout, lh: seq<uint>, b: uint, k: nat)
    requires EntriesOk(l, lh) && |lh| < l.Capacity() && l.Home(b)
    requires k <= |lh| && (forall j | 0 <= j < k :: lh[j] != b) && (k < |lh| ==> lh[k] == b)
    ensures Machine.Absorb(lh, b) == if k == |lh| then lh + [b] else lh
    ensures Elems(Machine.Absorb(lh, b)) == Elems(lh) + {b} && EntriesOk(l, Machine.Absorb(lh, b))
  {
    ElemsSnoc(lh, b);
    if k < |lh| {
      assert b in Elems(lh);
    }
  }

  lemma DirtyAdded(was: seq<Buffer>, now: seq<Buffer>, i: nat)
    requires i < |was| == |now| && now == was[i := was[i].(dirty := true)]
    ensures Dirty(now) == Dirty(was) + {was[i].blockno}
  {
    assert now[i].dirty && now[i].blockno == was[i].blockno;
    forall b | b in Dirty(was) ensures b in Dirty(now) {
      var j :| 0 <= j < |was| && was[j].dirty && was[j].blockno == b;
      assert now[j].dirty && now[j].blockno == b;
    }
  }

  lemma RecoverySafe(l: Layout, d: Disk, store: Disk)
    requires StandsFor(l, d, store)
    ensures var lh := DiskEntries(l, d);
            StandsFor(l, Cleared(l, d, lh), store) && SameHome(l, Cleared(l, d, lh), store) &&
            DiskEntries(l, Cleared(l, d, lh)) == [] &&
            forall j | 0 <= j < |lh| + 1 :: StandsFor(l, ClearTrail(l, d, lh)[j], store)
  {
    var lh := DiskEntries(l, d);
    RecoveryRecorded(l, d);
    RecoveryCrashSafe(l, d, store, |lh| + 1);
    forall j: nat | j < |lh| + 1 ensures StandsFor(l, ClearTrail(l, d, lh)[j], store) {
      RecoveryCrashSafe(l, d, store, j + 1);
    }
  }

  /** Of the disks recorded from position `from` on, the first `n` stand for `before`, the rest for `after`. */
  ghost predicate AtomicSince(l: Layout, trail: seq<Disk>, from: nat, n: nat, before: Disk, after: Disk) {
    (forall j | from <= j < |trail| && j < from + n :: StandsFor(l, trail[j], before)) &&
    (forall j | from + n <= j < |trail| :: StandsFor(l, trail[j], after))
  }

  lemma Suffix(t: seq<Disk>, trail: seq<Disk>)
    ensures forall j | |t| <= j < |t + trail| :: (t + trail)[j] == trail[j - |t|]
  {
  }

  lemma NothingSince(l: Layout, trail: seq<Disk>, n: nat, before: Disk, after: Disk)
    ensures AtomicSince(l, trail, |trail|, n, before, after)
  {
  }

  lemma CommitSafe(l: Layout, d: Disk, v: Disk, lh: seq<uint>, store: Disk, t: seq<Disk>, disk: Disk, all: seq<Disk>)
    requires StandsFor(l, d, store) && DiskEntries(l, d) == [] && Fits(l, d, lh) && OnlyLogged(l, d, v, lh)
    requires disk == CommitDisk(l, d, v, lh, 2 * |lh| + 2) && all == t + CommitTrail(l, d, v, lh, 2 * |lh| + 2)
    ensures SameHome(l, disk, v) && DiskOk(l, disk) && DiskEntries(l, disk) == []
    ensures AtomicSince(l, all, |t|, |lh|, store, v)
  {
    CommitCrashSafe(l, d, v, lh, store, 2 * |lh| + 2);
    var trail := CommitTrail(l, d, v, lh, 2 * |lh| + 2);
    forall j: nat | j < |trail| ensures StandsFor(l, trail[j], if j < |lh| then store else v) {
      CommitCrashSafe(l, d, v, lh, store, j + 1);
    }
    Suffix(t, trail);
  }
}
