/** The contents of the disk as seen through the buffer cache, and what each cache operation does to them. */
module CacheView {
  import opened Blocks
  import opened LogLayout
  import opened BufferCache

  ghost predicate Holds(bs: seq<Buffer>, b: nat, i: int) {
    0 <= i < |bs| && bs[i].dev == DISK && bs[i].blockno == b && bs[i].valid
  }

  /** The contents of block `b`: those of its buffer, if it has a valid one. */
  ghost function Content(bs: seq<Buffer>, disk: Disk, b: nat): Block
    requires b < |disk|
  {
    if exists i :: Holds(bs, b, i) then
      var i :| Holds(bs, b, i); bs[i].data
    else disk[b]
  }

  ghost function View(bs: seq<Buffer>, disk: Disk): (v: Disk)
    ensures |v| == |disk|
    ensures forall b | 0 <= b < |disk| :: v[b] == Content(bs, disk, b)
  {
    seq(|disk|, b requires 0 <= b < |disk| => Content(bs, disk, b))
  }

  lemma ContentIs(bs: seq<Buffer>, disk: Disk, b: nat, i: nat)
    requires Unique(bs) && b < |disk| && Holds(bs, b, i)
    ensures Content(bs, disk, b) == bs[i].data
  {
    forall j | Holds(bs, b, j) ensures j == i {
      assert bs[i].dev != 0 && bs[j].dev != 0;
    }
  }

  lemma ContentMissing(bs: seq<Buffer>, disk: Disk, b: nat)
    requires b < |disk| && forall i :: !Holds(bs, b, i)
    ensures Content(bs, disk, b) == disk[b]
  {
  }

  /** A change of one buffer can only affect the contents of the blocks it held and holds. */
  lemma ContentFrame(was: seq<Buffer>, now: seq<Buffer>, disk: Disk, disk': Disk, i: nat, b: nat)
    requires Unique(was) && Unique(now) && i < |was| == |now| && now == was[i := now[i]]
    requires b < |disk| == |disk'| && disk'[b] == disk[b] && !Holds(was, b, i) && !Holds(now, b, i)
    ensures Content(now, disk', b) == Content(was, disk, b)
  {
    if exists j :: Holds(was, b, j) {
      var j :| Holds(was, b, j);
      assert Holds(now, b, j);
      ContentIs(was, disk, b, j);
      ContentIs(now, disk', b, j);
    } else {
      forall j ensures !Holds(now, b, j) {
        assert !Holds(was, b, j);
      }
    }
  }

  /** bread changes no contents, even when it recycles a buffer, and returns those of its block. */
  lemma AcquireKeepsView(was: seq<Buffer>, now: seq<Buffer>, disk: Disk, b: uint, i: nat)
    requires i < |was| == |now| && b < |disk| && Acquired(was, now, disk, b, i)
    requires Unique(was) && Unique(now) && Coherent(was, disk)
    ensures View(now, disk) == View(was, disk)
    ensures now[i].data == View(was, disk)[b]
  {
    assert Holds(now, b, i);
    ContentIs(now, disk, b, i);
    assert now[i].data == Content(was, disk, b) by {
      if Holds(was, b, i) {
        ContentIs(was, disk, b, i);
      } else {
        forall j ensures !Holds(was, b, j) {
          assert Holds(was, b, j) ==> Caches(was[j], DISK, b);
        }
        ContentMissing(was, disk, b);
      }
    }
    forall c | 0 <= c < |disk| ensures Content(now, disk, c) == Content(was, disk, c) {
      if c != b {
        if Holds(was, c, i) {
          ContentIs(was, disk, c, i);
          forall j ensures !Holds(now, c, j) {
            assert Holds(was, c, j) ==> j == i;
          }
          ContentMissing(now, disk, c);
        } else {
          ContentFrame(was, now, disk, disk, i, c);
        }
      }
    }
  }

  /** Changing a buffer's flags, its data or its block on disk along with it. */
  lemma UpdateView(was: seq<Buffer>, now: seq<Buffer>, disk: Disk, disk': Disk, i: nat)
    requires i < |was| == |now| && now == was[i := now[i]] && Unique(was) && Unique(now)
    requires was[i].valid && now[i].valid && was[i].dev == now[i].dev == DISK && was[i].blockno == now[i].blockno
    requires |disk| == |disk'| && was[i].blockno < |disk|
    requires forall c | 0 <= c < |disk| && c != was[i].blockno :: disk'[c] == disk[c]
    ensures View(now, disk') == View(was, disk)[was[i].blockno := now[i].data]
    ensures View(was, disk)[was[i].blockno] == was[i].data
  {
    var b := was[i].blockno;
    assert Holds(was, b, i) && Holds(now, b, i);
    ContentIs(was, disk, b, i);
    ContentIs(now, disk', b, i);
    forall c | 0 <= c < |disk| && c != b ensures Content(now, disk', c) == Content(was, disk, c) {
      ContentFrame(was, now, disk, disk', i, c);
    }
  }

  /** A block without a dirty or locked buffer has the same contents on disk. */
  lemma CleanContent(bs: seq<Buffer>, disk: Disk, b: nat)
    requires Unique(bs) && Coherent(bs, disk) && b < |disk|
    requires forall i :: Holds(bs, b, i) ==> !bs[i].dirty && !bs[i].locked
    ensures View(bs, disk)[b] == disk[b]
  {
    if exists i :: Holds(bs, b, i) {
      var i :| Holds(bs, b, i);
      ContentIs(bs, disk, b, i);
    }
  }

  // Dirty buffers: the blocks log_write pinned.

  /** Blocks with a dirty buffer. */
  ghost function Dirty(bs: seq<Buffer>): set<uint> {
    set i | 0 <= i < |bs| && bs[i].dirty :: bs[i].blockno
  }

  ghost predicate DirtyOnDisk(bs: seq<Buffer>) {
    forall i | 0 <= i < |bs| && bs[i].dirty :: bs[i].dev == DISK
  }

  /** Nobody holds a buffer. */
  ghost predicate Idle(bs: seq<Buffer>) {
    forall i | 0 <= i < |bs| :: bs[i].refcnt == 0
  }

  lemma DirtyCached(bs: seq<Buffer>, disk: Disk, b: uint)
    requires b in Dirty(bs) && DirtyOnDisk(bs) && Coherent(bs, disk)
    ensures InCache(bs, DISK, b) && exists i :: Holds(bs, b, i) && bs[i].dirty
  {
    var i :| 0 <= i < |bs| && bs[i].dirty && bs[i].blockno == b;
    assert Caches(bs[i], DISK, b) && Holds(bs, b, i);
  }

  lemma DirtyKept(was: seq<Buffer>, now: seq<Buffer>, i: nat)
    requires i < |was| == |now| && now == was[i := now[i]] && now[i].dirty == was[i].dirty
    requires was[i].dirty ==> now[i].blockno == was[i].blockno && now[i].dev == was[i].dev
    ensures Dirty(now) == Dirty(was)
    ensures DirtyOnDisk(was) ==> DirtyOnDisk(now)
  {
    forall b | b in Dirty(was) ensures b in Dirty(now) {
      var j :| 0 <= j < |was| && was[j].dirty && was[j].blockno == b;
      assert now[j].dirty && now[j].blockno == b;
    }
    forall b | b in Dirty(now) ensures b in Dirty(was) {
      var j :| 0 <= j < |now| && now[j].dirty && now[j].blockno == b;
      assert was[j].dirty && was[j].blockno == b;
    }
  }

  lemma DirtyWritten(was: seq<Buffer>, now: seq<Buffer>, i: nat)
    requires i < |was| == |now| && now == was[i := now[i]] && !now[i].dirty
    requires Unique(was) && DirtyOnDisk(was) && was[i].dev == DISK
    ensures Dirty(now) == Dirty(was) - {was[i].blockno} && DirtyOnDisk(now)
  {
    forall b | b in Dirty(was) && b != was[i].blockno ensures b in Dirty(now) {
      var j :| 0 <= j < |was| && was[j].dirty && was[j].blockno == b;
      assert now[j].dirty && now[j].blockno == b;
    }
    forall b | b in Dirty(now) ensures b in Dirty(was) && b != was[i].blockno {
      var j :| 0 <= j < |now| && now[j].dirty && now[j].blockno == b;
      assert was[j].dirty && was[j].blockno == b;
    }
  }

  ghost function DirtyCount(bs: seq<Buffer>): (n: nat)
    ensures n <= |bs|
    ensures n == |bs| <==> forall i | 0 <= i < |bs| :: bs[i].dirty
  {
    if bs == [] then 0
    else DirtyCount(bs[..|bs| - 1]) + (if bs[|bs| - 1].dirty then 1 else 0)
  }

  lemma DirtySnoc(bs: seq<Buffer>, x: Buffer)
    ensures Dirty(bs + [x]) == Dirty(bs) + if x.dirty then {x.blockno} else {}
  {
    var more := bs + [x];
    assert more[|bs|] == x;
    forall b | b in Dirty(bs) ensures b in Dirty(more) {
      var i :| 0 <= i < |bs| && bs[i].dirty && bs[i].blockno == b;
      assert more[i].dirty && more[i].blockno == b;
    }
  }

  lemma {:induction false} DirtyCounted(bs: seq<Buffer>)
    requires Unique(bs) && DirtyOnDisk(bs)
    ensures |Dirty(bs)| == DirtyCount(bs)
  {
    if bs != [] {
      var n := |bs| - 1;
      var x := bs[n];
      DirtyCounted(bs[..n]);
      DirtySnoc(bs[..n], x);
      assert bs[..n] + [x] == bs;
      if x.dirty {
        forall j | 0 <= j < n ensures !bs[..n][j].dirty || bs[..n][j].blockno != x.blockno {
          assert bs[..n][j] == bs[j] && bs[n] == x;
        }
      }
    }
  }

  /** A pinned block takes one buffer, so a buffer is free exactly if fewer blocks are pinned than there are buffers. */
  lemma FreeBuffer(bs: seq<Buffer>)
    requires Unique(bs) && DirtyOnDisk(bs) && Idle(bs)
    ensures (exists i :: 0 <= i < |bs| && Recyclable(bs[i])) <==> |Dirty(bs)| < |bs|
  {
    DirtyCounted(bs);
    forall i | 0 <= i < |bs| ensures Recyclable(bs[i]) <==> !bs[i].dirty {
    }
  }
}
