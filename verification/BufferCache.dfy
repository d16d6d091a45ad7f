/**
 The buffer cache of bio.c over the in-memory disk of memide.c: a circular doubly linked LRU list
 threaded through a fixed array of buffers. Pointers into the array are indices; the list head is
 the index one past the last buffer.
 */
module BufferCache {
  import opened Blocks
  import opened LogLayout

  /** struct buf, without its list links. `locked` is the buffer's sleep lock. */
  datatype Buffer = Buffer(
    dev: nat, blockno: uint, valid: bool, dirty: bool, locked: bool, refcnt: nat, data: Block)

  /** The only disk device. */
  const DISK: nat := 1

  predicate Caches(x: Buffer, dev: nat, b: uint) {
    x.dev == dev && x.blockno == b
  }

  /** bget may recycle the buffer. */
  predicate Recyclable(x: Buffer) {
    x.refcnt == 0 && !x.dirty
  }

  predicate InCache(bs: seq<Buffer>, dev: nat, b: uint) {
    exists i :: 0 <= i < |bs| && Caches(bs[i], dev, b)
  }

  /** No one holds the sleep lock of the buffer for block `b`. */
  predicate NotLocked(bs: seq<Buffer>, dev: nat, b: uint) {
    forall i | 0 <= i < |bs| && Caches(bs[i], dev, b) :: !bs[i].locked
  }

  /** A block has at most one buffer; unused buffers carry device 0. */
  ghost predicate Unique(bs: seq<Buffer>) {
    forall i, j | 0 <= i < j < |bs| && bs[i].dev != 0 :: bs[i].dev != bs[j].dev || bs[i].blockno != bs[j].blockno
  }

  /** A buffer that is neither locked nor waiting to be committed repeats the disk. */
  ghost predicate Coherent(bs: seq<Buffer>, disk: Disk) {
    forall i | 0 <= i < |bs| ::
      (bs[i].locked ==> bs[i].refcnt > 0) && (bs[i].dirty ==> bs[i].valid) &&
      (bs[i].dev == DISK && bs[i].valid && !bs[i].dirty && !bs[i].locked ==>
         bs[i].blockno < |disk| && bs[i].data == disk[bs[i].blockno])
  }

  // The linked list.

  /** The k-th node of the circle: the head at -1 and at |order|. */
  function Node(order: seq<nat>, head: nat, k: int): nat
    requires -1 <= k <= |order|
  {
    if 0 <= k < |order| then order[k] else head
  }

  ghost predicate NoDuplicates(order: seq<nat>) {
    forall i, j | 0 <= i < j < |order| :: order[i] != order[j]
  }

  /** `next` and `prev` run through head and `order`, most recently used first, and are inverse. */
  ghost predicate Linked(order: seq<nat>, head: nat, next: seq<nat>, prev: seq<nat>) {
    |next| == |prev| == head + 1 && NoDuplicates(order) &&
    (forall k | 0 <= k < |order| :: order[k] < head) &&
    (forall k | -1 <= k < |order| :: next[Node(order, head, k)] == Node(order, head, k + 1)) &&
    (forall k | 0 <= k <= |order| :: prev[Node(order, head, k)] == Node(order, head, k - 1))
  }

  function Without(order: seq<nat>, p: nat): seq<nat>
    requires p < |order|
  {
    order[..p] + order[p + 1..]
  }

  lemma UnlinkKeepsLinked(order: seq<nat>, head: nat, next: seq<nat>, prev: seq<nat>, p: nat)
    requires Linked(order, head, next, prev) && p < |order|
    ensures var b := order[p];
            next[b] <= head && prev[b] <= head &&
            Linked(Without(order, p), head, next[prev[b] := next[b]], prev[next[b] := prev[b]])
  {
    var b := order[p];
    var rest := Without(order, p);
    assert Node(order, head, p) == b;
    assert prev[b] == Node(order, head, p - 1) && next[b] == Node(order, head, p + 1);
    var next', prev' := next[prev[b] := next[b]], prev[next[b] := prev[b]];
    assert forall k | -1 <= k <= |rest| ::
      Node(rest, head, k) == Node(order, head, if k < p then k else k + 1);
    forall k | -1 <= k < |rest| ensures next'[Node(rest, head, k)] == Node(rest, head, k + 1) {
      var m := if k < p then k else k + 1;
      assert next[Node(order, head, m)] == Node(order, head, m + 1);
    }
    forall k | 0 <= k <= |rest| ensures prev'[Node(rest, head, k)] == Node(rest, head, k - 1) {
      var m := if k < p then k else k + 1;
      assert prev[Node(order, head, m)] == Node(order, head, m - 1);
    }
  }

  lemma PushKeepsLinked(order: seq<nat>, head: nat, next: seq<nat>, prev: seq<nat>, b: nat)
    requires Linked(order, head, next, prev) && b < head && b !in order
    ensures next[head] <= head &&
            Linked([b] + order, head, next[b := next[head]][head := b], prev[b := head][next[head] := b])
  {
    var more := [b] + order;
    assert next[Node(order, head, -1)] == Node(order, head, 0);
    assert forall k | 0 <= k <= |more| :: Node(more, head, k) == if k == 0 then b else Node(order, head, k - 1);
    var next', prev' := next[b := next[head]][head := b], prev[b := head][next[head] := b];
    forall k | -1 <= k < |more| ensures next'[Node(more, head, k)] == Node(more, head, k + 1) {
      if k >= 1 {
        assert next[Node(order, head, k - 1)] == Node(order, head, k);
      }
    }
    forall k | 0 <= k <= |more| ensures prev'[Node(more, head, k)] == Node(more, head, k - 1) {
      if k >= 1 {
        assert prev[Node(order, head, k - 1)] == Node(order, head, k - 2) || k == 1;
      }
    }
  }

  /** Buffer `i` may be recycled and every buffer used less recently may not. */
  ghost predicate LeastRecent(bs: seq<Buffer>, order: seq<nat>, i: nat)
    requires forall k | 0 <= k < |order| :: order[k] < |bs|
  {
    exists p :: 0 <= p < |order| && order[p] == i && Recyclable(bs[i]) &&
                forall m | p < m < |order| :: !Recyclable(bs[order[m]])
  }

  /** Buffer `i` may be recycled, and no other that may was given up by its last holder longer ago. */
  ghost predicate LongestUnused(bs: seq<Buffer>, h: seq<nat>, i: nat) {
    i < |bs| && Recyclable(bs[i]) &&
    forall j | 0 <= j < |bs| && Recyclable(bs[j]) :: LastUse(h, |bs|, i) <= LastUse(h, |bs|, j)
  }

  /** Buffer `i` is the locked buffer of block `b`; the block's contents did not change. */
  ghost predicate Acquired(was: seq<Buffer>, now: seq<Buffer>, disk: Disk, b: uint, i: nat)
    requires i < |was| == |now| && b < |disk|
  {
    now == was[i := now[i]] && now[i].locked && now[i].valid && Caches(now[i], DISK, b) &&
    if Caches(was[i], DISK, b) && was[i].valid then
      now[i] == was[i].(refcnt := was[i].refcnt + 1, locked := true)
    else if Caches(was[i], DISK, b) then
      now[i] == was[i].(refcnt := was[i].refcnt + 1, locked := true, valid := true, data := disk[b])
    else
      Recyclable(was[i]) && !InCache(was, DISK, b) &&
      now[i] == Buffer(DISK, b, true, false, true, 1, disk[b])
  }

  function Position(order: seq<nat>, i: nat): (p: nat)
    requires i in order
    ensures p < |order| && order[p] == i
  {
    if order[0] == i then 0 else 1 + Position(order[1..], i)
  }

  function MovedToFront(order: seq<nat>, i: nat): seq<nat>
    requires i in order
  {
    [i] + Without(order, Position(order, i))
  }

  /** Buffer `a` stands before `b` in the list. */
  ghost predicate Ahead(order: seq<nat>, a: nat, b: nat) {
    exists j, k :: 0 <= j < k < |order| && order[j] == a && order[k] == b
  }

  /** `i` comes first, and any two others stand as they stood. */
  lemma MovedToFrontOrder(order: seq<nat>, i: nat)
    requires i in order
    ensures MovedToFront(order, i)[0] == i
    ensures forall a, b :: a != i && b != i && Ahead(order, a, b) ==> Ahead(MovedToFront(order, i), a, b)
  {
    var p := Position(order, i);
    var r := MovedToFront(order, i);
    forall a, b | a != i && b != i && Ahead(order, a, b)
      ensures Ahead(r, a, b)
    {
      var j, k :| 0 <= j < k < |order| && order[j] == a && order[k] == b;
      var j', k' := if j < p then j + 1 else j, if k < p then k + 1 else k;
      assert r[j'] == a && r[k'] == b;
    }
  }

  /**
   When buffer `i` of `n` was last given up, by the list `h` of all such releases so far; binit leaves the ones never
   used with the highest first.
   */
  function LastUse(h: seq<nat>, n: nat, i: nat): int {
    if h == [] then i - n
    else if h[|h| - 1] == i then |h| - 1
    else LastUse(h[..|h| - 1], n, i)
  }

  lemma {:induction false} LastUseHolds(h: seq<nat>, n: nat, i: nat)
    requires i < n
    ensures i !in h ==> LastUse(h, n, i) == i - n
    ensures i in h ==> 0 <= LastUse(h, n, i) < |h| && h[LastUse(h, n, i)] == i && i !in h[LastUse(h, n, i) + 1..]
  {
    if h != [] {
      var m := |h| - 1;
      assert h == h[..m] + [h[m]];
      LastUseHolds(h[..m], n, i);
      if h[m] != i && i in h {
        var k := LastUse(h, n, i);
        assert h[k + 1..] == h[..m][k + 1..] + [h[m]];
      }
    }
  }

  /** The list runs from the buffer last given up to the one given up longest ago. */
  ghost predicate ByAge(order: seq<nat>, h: seq<nat>, n: nat) {
    forall p, q | 0 <= p < q < |order| :: LastUse(h, n, order[p]) > LastUse(h, n, order[q])
  }

  lemma AgesAfter(order: seq<nat>, h: seq<nat>, n: nat, i: nat)
    requires i in order && NoDuplicates(order) && ByAge(order, h, n) && forall k | 0 <= k < |order| :: order[k] < n
    ensures ByAge(MovedToFront(order, i), h + [i], n)
  {
    var r, later, p := MovedToFront(order, i), h + [i], Position(order, i);
    assert later[..|h|] == h;
    forall j: nat | j < n
      ensures LastUse(later, n, j) == if j == i then |h| else LastUse(h, n, j)
      ensures LastUse(h, n, j) < |h|
    {
      LastUseHolds(h, n, j);
    }
    forall a, b | 0 <= a < b < |r|
      ensures LastUse(later, n, r[a]) > LastUse(later, n, r[b])
    {
      assert r[b] == order[if b <= p then b - 1 else b];
      if a > 0 {
        assert r[a] == order[if a <= p then a - 1 else a];
      }
    }
  }

  /** Of the buffers that may be recycled, the least recent one in the list was given up longest ago. */
  lemma OldestVictim(bs: seq<Buffer>, order: seq<nat>, h: seq<nat>, i: nat, j: nat)
    requires (forall k | 0 <= k < |order| :: order[k] < |bs|) && ByAge(order, h, |bs|) && LeastRecent(bs, order, i)
    requires j in order && Recyclable(bs[j])
    ensures LastUse(h, |bs|, i) <= LastUse(h, |bs|, j)
  {
    var p :| 0 <= p < |order| && order[p] == i && Recyclable(bs[i]) &&
             forall m | p < m < |order| :: !Recyclable(bs[order[m]]);
    var q :| 0 <= q < |order| && order[q] == j;
    assert q <= p;
  }

  lemma MovedToFrontHolds(order: seq<nat>, i: nat)
    requires i in order
    ensures |MovedToFront(order, i)| == |order|
    ensures forall j | j in order :: j in MovedToFront(order, i)
  {
    var p := Position(order, i);
    var r := MovedToFront(order, i);
    forall j | j in order ensures j in r {
      var k :| 0 <= k < |order| && order[k] == j;
      if k < p {
        assert r[k + 1] == j;
      } else if k > p {
        assert r[k] == j;
      } else {
        assert r[0] == j;
      }
    }
  }

  class Cache {
    const buf: array<Buffer>
    const next: array<nat>
    const prev: array<nat>
    var disk: Disk
    ghost var order: seq<nat>        // the list, most recently used first
    ghost var released: seq<nat>     // the buffers given up by their last holder, in the order in which they were
    ghost var trail: seq<Disk>       // the disk after each write: where a crash may leave it

    ghost predicate Valid()
      reads this, buf, next, prev
    {
      next != prev && next.Length == prev.Length == buf.Length + 1 && |order| == buf.Length &&
      Linked(order, buf.Length, next[..], prev[..]) && (forall i | 0 <= i < buf.Length :: i in order) &&
      ByAge(order, released, buf.Length) && Unique(buf[..]) && Coherent(buf[..], disk)
    }

    /** binit: every buffer on the list, none in use. */
    constructor (nbuf: nat, disk: Disk)
      ensures Valid() && buf.Length == nbuf && this.disk == disk && trail == [] && released == []
      ensures fresh(buf) && fresh(next) && fresh(prev)
      ensures forall i | 0 <= i < nbuf :: buf[i] == Buffer(0, 0, false, false, false, 0, ZeroBlock())
    {
      buf := new Buffer[nbuf](i => Buffer(0, 0, false, false, false, 0, ZeroBlock()));
      next := new nat[nbuf + 1](i => 0);
      prev := new nat[nbuf + 1](i => 0);
      this.disk := disk;
      order := [];
      trail := [];
      released := [];
      new;
      prev[nbuf] := nbuf;
      next[nbuf] := nbuf;
      var b: nat := 0;
      while b < nbuf
        modifies this`order, next, prev
        invariant 0 <= b <= nbuf && |order| == b
        invariant Linked(order, nbuf, next[..], prev[..])
        invariant forall k | 0 <= k < b :: order[k] == b - 1 - k
      {
        PushKeepsLinked(order, nbuf, next[..], prev[..], b);
        ghost var n0: seq<nat>, p0: seq<nat> := next[..], prev[..];
        next[b] := next[nbuf];
        prev[b] := nbuf;
        prev[next[nbuf]] := b;
        next[nbuf] := b;
        assert next[..] == n0[b := n0[nbuf]][nbuf := b];
        assert prev[..] == p0[b := nbuf][n0[nbuf] := b];
        order := [b] + order;
        b := b + 1;
      }
      forall i | 0 <= i < nbuf
        ensures i in order
      {
        assert order[nbuf - 1 - i] == i;
      }
    }

    /** First loop of bget: the buffer that holds the block, or the head. */
    method FindCached(dev: nat, b: uint) returns (i: nat)
      requires Valid()
      ensures i <= buf.Length
      ensures i < buf.Length ==> Caches(buf[i], dev, b)
      ensures i == buf.Length <==> !InCache(buf[..], dev, b)
    {
      var head := buf.Length;
      assert Node(order, head, -1) == head;
      i := next[head];
      ghost var k := 0;
      while i != head
        invariant 0 <= k <= |order| && i == Node(order, head, k)
        invariant forall j | 0 <= j < k :: !Caches(buf[order[j]], dev, b)
        decreases |order| - k
      {
        if buf[i].dev == dev && buf[i].blockno == b {
          return;
        }
        assert next[Node(order, head, k)] == Node(order, head, k + 1);
        i := next[i];
        k := k + 1;
      }
      forall x | 0 <= x < buf.Length ensures !Caches(buf[x], dev, b) {
        assert x in order;
      }
    }

    /** Second loop of bget: the least recently used buffer that is free to be recycled, or the head. */
    method FindVictim() returns (i: nat)
      requires Valid()
      ensures i <= buf.Length
      ensures i == buf.Length <==> forall j | 0 <= j < buf.Length :: !Recyclable(buf[j])
      ensures i < buf.Length ==>
                exists k :: 0 <= k < |order| && order[k] == i && Recyclable(buf[i]) &&
                            forall m | k < m < |order| :: !Recyclable(buf[order[m]])
    {
      var head := buf.Length;
      assert Node(order, head, |order|) == head;
      i := prev[head];
      ghost var k := |order| - 1;
      while i != head
        invariant -1 <= k < |order| && i == Node(order, head, k)
        invariant forall j | k < j < |order| :: !Recyclable(buf[order[j]])
        decreases k
      {
        if buf[i].refcnt == 0 && !buf[i].dirty {
          return;
        }
        assert prev[Node(order, head, k)] == Node(order, head, k - 1);
        i := prev[i];
        k := k - 1;
      }
      forall x | 0 <= x < buf.Length ensures !Recyclable(buf[x]) {
        assert x in order;
      }
    }

    /** bget: the buffer for a block, locked; `ok` is false where the source panics. */
    method Bget(dev: nat, b: uint) returns (ok: bool, i: nat)
      requires Valid() && dev != 0 && NotLocked(buf[..], dev, b)
      modifies buf
      ensures Valid()
      ensures ok ==> i < buf.Length
      ensures InCache(old(buf[..]), dev, b) ==>
                ok && Caches(old(buf[..])[i], dev, b) &&
                buf[..] == old(buf[..])[i := old(buf[..])[i].(refcnt := old(buf[..])[i].refcnt + 1, locked := true)]
      ensures !InCache(old(buf[..]), dev, b) ==>
                ok == exists j :: 0 <= j < buf.Length && Recyclable(old(buf[..])[j])
      ensures !InCache(old(buf[..]), dev, b) && ok ==>
                LeastRecent(old(buf[..]), order, i) && LongestUnused(old(buf[..]), released, i) &&
                buf[..] == old(buf[..])[i := Buffer(dev, b, false, false, true, 1, old(buf[..])[i].data)]
      ensures !ok ==> buf[..] == old(buf[..])
    {
      ghost var was := buf[..];
      i := FindCached(dev, b);
      if i != buf.Length {
        buf[i] := buf[i].(refcnt := buf[i].refcnt + 1, locked := true);
        return true, i;
      }
      i := FindVictim();
      if i != buf.Length {
        forall j | 0 <= j < buf.Length && Recyclable(buf[j])
          ensures LastUse(released, buf.Length, i) <= LastUse(released, buf.Length, j)
        {
          OldestVictim(buf[..], order, released, i, j);
        }
        buf[i] := Buffer(dev, b, false, false, true, 1, buf[i].data);
        assert buf[..] == was[i := buf[i]];
        return true, i;
      }
      ok := false;
    }

    /** iderw: write a dirty buffer to the disk, or else fill it from the disk. */
    method Iderw(i: nat)
      requires Valid() && i < buf.Length && buf[i].locked && (buf[i].dirty || !buf[i].valid)
      requires buf[i].dev == DISK && buf[i].blockno < |disk|
      modifies this`disk, this`trail, buf
      ensures Valid()
      ensures old(buf[i].dirty) ==>
                disk == old(disk)[old(buf[i].blockno) := old(buf[i].data)] && trail == old(trail) + [disk] &&
                buf[..] == old(buf[..])[i := old(buf[..])[i].(dirty := false, valid := true)]
      ensures !old(buf[i].dirty) ==>
                disk == old(disk) && trail == old(trail) &&
                buf[..] == old(buf[..])[i := old(buf[..])[i].(data := disk[old(buf[i].blockno)], valid := true)]
    {
      ghost var was := buf[..];
      if buf[i].dirty {
        disk := disk[buf[i].blockno := buf[i].data];
        trail := trail + [disk];
        buf[i] := buf[i].(dirty := false);
      } else {
        buf[i] := buf[i].(data := disk[buf[i].blockno]);
      }
      buf[i] := buf[i].(valid := true);
      assert buf[..] == was[i := buf[i]];
    }

    /** bread: the locked buffer of block `b`, holding its cached contents or else those on disk. */
    method Bread(b: uint) returns (ok: bool, i: nat)
      requires Valid() && b < |disk| && NotLocked(buf[..], DISK, b)
      modifies this`disk, this`trail, buf
      ensures Valid() && disk == old(disk) && trail == old(trail)
      ensures ok == (InCache(old(buf[..]), DISK, b) || exists j :: 0 <= j < buf.Length && Recyclable(old(buf[..])[j]))
      ensures !ok ==> buf[..] == old(buf[..])
      ensures ok ==> i < buf.Length && Acquired(old(buf[..]), buf[..], disk, b, i)
      ensures ok && !InCache(old(buf[..]), DISK, b) ==> LongestUnused(old(buf[..]), released, i)
    {
      ok, i := Bget(DISK, b);
      if ok && !buf[i].valid {
        Iderw(i);
      }
    }

    /** bwrite: the buffer reaches the disk now. */
    method Bwrite(i: nat)
      requires Valid() && i < buf.Length && buf[i].locked && buf[i].valid
      requires buf[i].dev == DISK && buf[i].blockno < |disk|
      modifies this`disk, this`trail, buf
      ensures Valid()
      ensures disk == old(disk)[old(buf[i].blockno) := old(buf[i].data)] && trail == old(trail) + [disk]
      ensures buf[..] == old(buf[..])[i := old(buf[..])[i].(dirty := false, valid := true)]
    {
      ghost var was := buf[..];
      buf[i] := buf[i].(dirty := true);
      Iderw(i);
      assert buf[..] == was[i := was[i].(dirty := false, valid := true)];
    }

    /** brelse: unlock; a buffer nobody refers to becomes the most recently used one. */
    method Brelse(i: nat)
      requires Valid() && i < buf.Length && buf[i].locked
      requires buf[i].dev == DISK && buf[i].valid && !buf[i].dirty ==>
                 buf[i].blockno < |disk| && buf[i].data == disk[buf[i].blockno]
      modifies this`order, this`released, buf, next, prev
      ensures Valid()
      ensures buf[..] == old(buf[..])[i := old(buf[..])[i].(locked := false, refcnt := old(buf[..])[i].refcnt - 1)]
      ensures buf[i].refcnt != 0 ==> order == old(order) && released == old(released)
      ensures buf[i].refcnt == 0 ==> released == old(released) + [i] && order[0] == i
      ensures buf[i].refcnt == 0 ==>
                forall a, b :: a != i && b != i && Ahead(old(order), a, b) ==> Ahead(order, a, b)
    {
      ghost var was := buf[..];
      buf[i] := buf[i].(locked := false);
      buf[i] := buf[i].(refcnt := buf[i].refcnt - 1);
      assert buf[..] == was[i := buf[i]];
      if buf[i].refcnt == 0 {
        ToFront(i);
      }
    }

    /** The buffer is unlinked and inserted behind the head. */
    method ToFront(i: nat)
      requires Valid() && i < buf.Length
      modifies this`order, this`released, next, prev
      ensures Valid() && released == old(released) + [i] && order[0] == i
      ensures forall a, b :: a != i && b != i && Ahead(old(order), a, b) ==> Ahead(order, a, b)
    {
      var head := buf.Length;
      assert i in order;
      ghost var p := Position(order, i);
      ghost var n0: seq<nat>, p0: seq<nat> := next[..], prev[..];
      UnlinkKeepsLinked(order, head, n0, p0, p);
      prev[next[i]] := prev[i];
      next[prev[i]] := next[i];
      ghost var n1: seq<nat>, p1: seq<nat> := next[..], prev[..];
      assert n1 == n0[p0[i] := n0[i]] && p1 == p0[n0[i] := p0[i]];
      PushKeepsLinked(Without(order, p), head, n1, p1, i);
      next[i] := next[head];
      prev[i] := head;
      prev[next[head]] := i;
      next[head] := i;
      assert next[..] == n1[i := n1[head]][head := i] && prev[..] == p1[i := head][n1[head] := i];
      MovedToFrontHolds(order, i);
      MovedToFrontOrder(order, i);
      AgesAfter(order, released, buf.Length, i);
      order := MovedToFront(order, i);
      released := released + [i];
    }
  }
}
