/**
 Block allocation, file mapping, truncation and file I/O of fs.c, over the block contents bread and log_write
 present.
 */
module FsCode {
  import opened Blocks
  import opened FsLayout
  import opened FsOwner

  /** `blk` with `bytes` copied over it from `o` on. */
  function Overlay(blk: Block, o: nat, bytes: seq<byte>): (r: Block)
    requires o + |bytes| <= BSIZE
    ensures forall x | 0 <= x < BSIZE :: r[x] == if o <= x < o + |bytes| then bytes[x - o] else blk[x]
  {
    blk[..o] + bytes + blk[o + |bytes|..]
  }

  /** The metadata below the bitmap (boot, log, inodes) is the same. */
  ghost predicate SameLow(sb: Super, disk: Disk, now: Disk) {
    |disk| == |now| == sb.size && forall c | 0 <= c < sb.bmapstart && c < sb.size :: now[c] == disk[c]
  }

  /** Writing an inode block disturbs no bitmap bit, no slot and no file byte. */
  lemma LowWriteKeeps(sb: Super, disk: Disk, inodes: Inodes, owner: Owner, c: nat, blk: Block)
    requires Owned(sb, disk, inodes, owner, NONE) && c < sb.bmapstart
    ensures Owned(sb, disk[c := blk], inodes, owner, NONE)
    ensures forall k, s: nat | k in inodes && s < NSLOTS ::
              SlotBlock(disk[c := blk], inodes[k], s) == SlotBlock(disk, inodes[k], s)
    ensures forall k, i: nat | k in inodes && i < MAXFILE * BSIZE ::
              FileByte(disk[c := blk], inodes[k], i) == FileByte(disk, inodes[k], i)
  {
    var now := disk[c := blk];
    SlotsKept(sb, disk, now, inodes, owner, NONE);
    forall k, s: nat | k in inodes && s < NSLOTS && !NONE.Has(k, s)
      ensures NameOwned(now, inodes[k], owner, k, s)
    {
      assert NameOwned(disk, inodes[k], owner, k, s);
    }
    forall b: nat | b < sb.size
      ensures Used(sb, now, b) == Used(sb, disk, b)
    {
      assert sb.BBlock(b) >= sb.bmapstart;
    }
    forall k, i: nat | k in inodes && i < MAXFILE * BSIZE
      ensures FileByte(now, inodes[k], i) == FileByte(disk, inodes[k], i)
    {
      assert NameOwned(disk, inodes[k], owner, k, i / BSIZE);
    }
    assert OwnersName(sb, now, inodes, owner, NONE);
  }

  lemma BytesChain(a: Disk, x: Inodes, b: Disk, y: Inodes, c: Disk, z: Inodes)
    requires SameBytes(a, x, b, y) && SlotsGrow(a, x, b, y) && SameBytes(b, y, c, z) && SlotsGrow(b, y, c, z)
    ensures SameBytes(a, x, c, z) && SlotsGrow(a, x, c, z)
  {
  }

  lemma MappedBelow(sb: Super, disk: Disk, inodes: Inodes, owner: Owner, k: nat, s: nat)
    requires Owned(sb, disk, inodes, owner, NONE) && k in inodes && s < MAXFILE && SlotBlock(disk, inodes[k], s) != 0
    ensures SlotBlock(disk, inodes[k], s) < |disk|
  {
    assert NameOwned(disk, inodes[k], owner, k, s);
  }

  /** Bytes from `pos` to the end of its block. */
  function Room(pos: nat): (r: nat)
    ensures 1 <= r <= BSIZE && pos % BSIZE + r == BSIZE
  {
    BSIZE - pos % BSIZE
  }

  lemma Sliced(s: seq<byte>, a: nat, b: nat, c: nat)
    requires a <= b <= c <= |s|
    ensures s[a..c] == s[a..b] + s[b..c]
  {
  }

  lemma WithinBlock(pos: nat, i: nat)
    requires pos % BSIZE + i < BSIZE
    ensures (pos + i) / BSIZE == pos / BSIZE && (pos + i) % BSIZE == pos % BSIZE + i
  {
  }

  /** Bytes of a file that lie within one block are the bytes of that block. */
  lemma ChunkRead(disk: Disk, n: INode, pos: nat, m: nat, addr: nat)
    requires n.size <= MAXFILE * BSIZE && pos + m <= n.size && pos % BSIZE + m <= BSIZE && m > 0
    requires addr == SlotBlock(disk, n, pos / BSIZE) && 0 < addr < |disk|
    ensures disk[addr][pos % BSIZE..pos % BSIZE + m] == Contents(disk, n)[pos..pos + m]
  {
    var chunk, part := disk[addr][pos % BSIZE..pos % BSIZE + m], Contents(disk, n)[pos..pos + m];
    forall i | 0 <= i < |chunk|
      ensures chunk[i] == part[i]
    {
      WithinBlock(pos, i);
      assert part[i] == FileByte(disk, n, pos + i);
    }
  }

  /** Every block that holds a byte below `size` is there. */
  ghost predicate Mapped(disk: Disk, n: INode, size: nat) {
    forall s: nat | s < MAXFILE && s * BSIZE < size :: SlotBlock(disk, n, s) != 0
  }

  /** A file's bytes with `src` laid over them from `off` on, longer if it reaches past the end. */
  function Patched(file: seq<byte>, off: nat, src: seq<byte>): seq<byte>
    requires off <= |file|
  {
    file[..off] + src + (if off + |src| < |file| then file[off + |src|..] else [])
  }

  /** Bytes [off, off+|src|) of file `k` are `src`; every other byte of every file is as before. */
  ghost predicate Overwritten(disk: Disk, inodes: Inodes, now: Disk, later: Inodes, k: nat, off: nat, src: seq<byte>) {
    inodes.Keys == later.Keys &&
    forall x, i: nat | x in inodes && i < MAXFILE * BSIZE ::
      FileByte(now, later[x], i) ==
      if x == k && off <= i < off + |src| then src[i - off] else FileByte(disk, inodes[x], i)
  }

  lemma OverwrittenGrows(disk: Disk, inodes: Inodes, mid: Disk, held: Inodes, now: Disk, later: Inodes, k: nat,
                         off: nat, src: seq<byte>, tot: nat, m: nat)
    requires tot + m <= |src| && Overwritten(disk, inodes, mid, held, k, off, src[..tot])
    requires Overwritten(mid, held, now, later, k, off + tot, src[tot..tot + m])
    ensures Overwritten(disk, inodes, now, later, k, off, src[..tot + m])
  {
  }

  lemma MappedGrows(mid: Disk, held: Inodes, now: Disk, later: Inodes, k: nat, size: nat, pos: nat, m: nat)
    requires SlotsGrow(mid, held, now, later) && k in held
    requires Mapped(mid, held[k], size) && Mapped(mid, held[k], pos)
    requires pos < MAXFILE * BSIZE && 0 < m <= Room(pos) && SlotBlock(now, later[k], pos / BSIZE) != 0
    ensures Mapped(now, later[k], size) && Mapped(now, later[k], pos + m)
  {
    forall s: nat | s < MAXFILE && s * BSIZE < pos + m
      ensures SlotBlock(now, later[k], s) != 0
    {
      assert s * BSIZE < pos || s == pos / BSIZE;
    }
  }

  /** The on-disk inodes other than `k` are the same. */
  ghost predicate SameOthers(sb: Super, disk: Disk, now: Disk, inodes: Inodes, k: nat) {
    forall x | x in inodes && x != k :: SameDInode(sb, disk, now, x)
  }

  predicate SameDInode(sb: Super, disk: Disk, now: Disk, x: nat) {
    sb.IBlock(x) < |disk| && sb.IBlock(x) < |now| &&
    GetInode(now[sb.IBlock(x)], x % IPB) == GetInode(disk[sb.IBlock(x)], x % IPB)
  }

  lemma SameOthersLow(sb: Super, was: Disk, mid: Disk, now: Disk, inodes: Inodes, k: nat)
    requires sb.Ok() && SameLow(sb, was, mid) && SameOthers(sb, mid, now, inodes, k)
    requires forall x | x in inodes :: x < sb.ninodes
    ensures SameOthers(sb, was, now, inodes, k)
  {
    forall x | x in inodes && x != k
      ensures SameDInode(sb, was, now, x)
    {
      assert SameDInode(sb, mid, now, x) && sb.IBlock(x) < sb.bmapstart;
    }
  }

  lemma MappedKept(mid: Disk, held: Inodes, now: Disk, later: Inodes, k: nat, size: nat)
    requires SlotsGrow(mid, held, now, later) && k in held && Mapped(mid, held[k], size)
    ensures Mapped(now, later[k], size)
  {
  }

  lemma SameBytesOverwritten(disk: Disk, inodes: Inodes, mid: Disk, held: Inodes, now: Disk, later: Inodes, k: nat,
                             off: nat, src: seq<byte>)
    requires Overwritten(disk, inodes, mid, held, k, off, src) && SameBytes(mid, held, now, later)
    ensures Overwritten(disk, inodes, now, later, k, off, src)
  {
  }

  /** Overwriting and then growing the size to cover it is patching the byte sequence. */
  lemma PatchedContents(disk: Disk, inodes: Inodes, now: Disk, later: Inodes, k: nat, off: nat, src: seq<byte>)
    requires Overwritten(disk, inodes, now, later, k, off, src) && k in inodes
    requires off <= inodes[k].size <= MAXFILE * BSIZE && off + |src| <= MAXFILE * BSIZE
    requires later[k].size == if off + |src| > inodes[k].size then off + |src| else inodes[k].size
    ensures Contents(now, later[k]) == Patched(Contents(disk, inodes[k]), off, src)
  {
    var a, b := Contents(now, later[k]), Patched(Contents(disk, inodes[k]), off, src);
    forall i | 0 <= i < |a|
      ensures a[i] == b[i]
    {
      assert a[i] == FileByte(now, later[k], i);
    }
  }

  lemma OverlayByte(blk: Block, pos: nat, bytes: seq<byte>, i: nat)
    requires pos % BSIZE + |bytes| <= BSIZE && i / BSIZE == pos / BSIZE
    ensures Overlay(blk, pos % BSIZE, bytes)[i % BSIZE] ==
            if pos <= i < pos + |bytes| then bytes[i - pos] else blk[i % BSIZE]
  {
    assert i - pos == i % BSIZE - pos % BSIZE;
  }

  /** The size field plays no part in who owns what. */
  lemma SizeKeepsOwned(sb: Super, disk: Disk, inodes: Inodes, owner: Owner, k: nat, size: uint)
    requires Owned(sb, disk, inodes, owner, NONE) && k in inodes
    ensures var later := inodes[k := inodes[k].(size := size)];
            Owned(sb, disk, later, owner, NONE) && SameBytes(disk, inodes, disk, later) &&
            SlotsGrow(disk, inodes, disk, later)
  {
    var later := inodes[k := inodes[k].(size := size)];
    forall x, s: nat | x in later && s < NSLOTS && !NONE.Has(x, s)
      ensures NameOwned(disk, later[x], owner, x, s)
    {
      assert NameOwned(disk, inodes[x], owner, x, s);
    }
  }

  /** Reading back the range just written gives the bytes written; the rest of the file is untouched. */
  lemma PatchedReads(file: seq<byte>, off: nat, src: seq<byte>)
    requires off <= |file|
    ensures var r := Patched(file, off, src);
            off + |src| <= |r| && r[off..off + |src|] == src && r[..off] == file[..off] &&
            |r| == (if off + |src| > |file| then off + |src| else |file|) &&
            r[off + |src|..] == file[if off + |src| < |file| then off + |src| else |file|..]
  {
  }

  /** mkfs rounds the root directory's size up to one more block: that leaves a hole just when it was already whole. */
  lemma RoundedRoot(disk: Disk, n: INode)
    requires n.size <= (MAXFILE - 1) * BSIZE
    requires forall s: nat | s < MAXFILE :: SlotBlock(disk, n, s) != 0 <==> s * BSIZE < n.size
    ensures NoHoles(disk, n.(size := (n.size / BSIZE + 1) * BSIZE)) <==> n.size % BSIZE != 0
  {
    var r := n.(size := (n.size / BSIZE + 1) * BSIZE);
    forall s: nat | s < MAXFILE
      ensures SlotBlock(disk, r, s) == SlotBlock(disk, n, s)
    {
    }
    if n.size % BSIZE == 0 {
      assert SlotBlock(disk, r, n.size / BSIZE) == 0;
    } else {
      forall s: nat | s < MAXFILE && s * BSIZE < r.size
        ensures SlotBlock(disk, r, s) != 0
      {
        assert s <= n.size / BSIZE;
      }
    }
  }

  // --- Allocation ---

  /** No block below `n` is free. */
  ghost predicate AllUsed(sb: Super, disk: Disk, n: nat)
    requires sb.Ok() && |disk| == sb.size
  {
    forall c: nat | c < n && c < sb.size :: Used(sb, disk, c)
  }

  lemma BitPlace(sb: Super, b: nat, bi: nat)
    requires b % BPB == 0 && bi < BPB
    ensures sb.BBlock(b + bi) == sb.BBlock(b) && (b + bi) % BPB == bi
  {
  }

  lemma UsedOn(sb: Super, disk: Disk, n: nat)
    requires sb.Ok() && |disk| == sb.size && n < sb.size && AllUsed(sb, disk, n) && Used(sb, disk, n)
    ensures AllUsed(sb, disk, n + 1)
  {
  }

  /** Blocks bmap has to allocate: none, one, or an indirect block and one. */
  function Lacking(disk: Disk, n: INode, bn: nat): nat
    requires bn < MAXFILE
  {
    if SlotBlock(disk, n, bn) != 0 then 0 else if bn < NDIRECT || n.addrs[NDIRECT] != 0 then 1 else 2
  }

  /** Positions of the range that name no block. */
  ghost function Holes(disk: Disk, n: INode, lo: nat, hi: nat): set<nat> {
    set s: nat | lo <= s < hi && s < MAXFILE && SlotBlock(disk, n, s) == 0
  }

  /** Blocks writei has to allocate for positions [lo, hi): the holes, and the indirect block once. */
  ghost function RangeLacks(disk: Disk, n: INode, lo: nat, hi: nat): nat {
    |Holes(disk, n, lo, hi)| + if n.addrs[NDIRECT] == 0 && lo < hi && NDIRECT < hi then 1 else 0
  }

  /** The position after the last one that `len` bytes from `off` on touch. */
  function EndBlock(off: nat, len: nat): (hi: nat)
    ensures off / BSIZE <= hi
    ensures len > 0 ==> off / BSIZE < hi && (hi - 1) * BSIZE < off + len <= hi * BSIZE
  {
    if len == 0 then off / BSIZE else (off + len - 1) / BSIZE + 1
  }

  /** Nothing is lacking below the size of a file without holes. */
  lemma NoneLacking(disk: Disk, n: INode, off: nat, len: nat)
    requires NoHoles(disk, n) && off + len <= n.size
    ensures RangeLacks(disk, n, off / BSIZE, EndBlock(off, len)) == 0
  {
    var lo, hi := off / BSIZE, EndBlock(off, len);
    forall s: nat | lo <= s < hi && s < MAXFILE
      ensures SlotBlock(disk, n, s) != 0
    {
      assert s * BSIZE < n.size;
    }
    assert Holes(disk, n, lo, hi) == {};
    if lo < hi && NDIRECT < hi {
      assert SlotBlock(disk, n, hi - 1) != 0;
    }
  }

  /** Filling position `s` takes what it lacks off what the range lacks. */
  lemma LacksLess(disk: Disk, x: Inodes, now: Disk, y: Inodes, k: nat, s: nat, hi: nat)
    requires OnlySlots(disk, x, now, y, k, s) && k in x && s < hi <= MAXFILE && SlotBlock(now, y[k], s) != 0
    ensures RangeLacks(disk, x[k], s, hi) == Lacking(disk, x[k], s) + RangeLacks(now, y[k], s + 1, hi)
    ensures RangeLacks(now, y[k], s, hi) == RangeLacks(now, y[k], s + 1, hi)
  {
    assert SlotBlock(now, y[k], IND) == y[k].addrs[NDIRECT] && SlotBlock(disk, x[k], IND) == x[k].addrs[NDIRECT];
    var rest := Holes(now, y[k], s + 1, hi);
    assert Holes(now, y[k], s, hi) == rest;
    forall j: nat | s + 1 <= j < hi
      ensures SlotBlock(now, y[k], j) == SlotBlock(disk, x[k], j)
    {
    }
    if SlotBlock(disk, x[k], s) == 0 {
      assert Holes(disk, x[k], s, hi) == rest + {s};
    } else {
      assert Holes(disk, x[k], s, hi) == rest;
    }
  }

  lemma NoneLeft(disk: Disk, n: INode, off: nat, len: nat)
    requires off + len <= MAXFILE * BSIZE && Mapped(disk, n, off + len)
    ensures RangeLacks(disk, n, (off + len) / BSIZE, EndBlock(off, len)) == 0
  {
    var lo, hi := (off + len) / BSIZE, EndBlock(off, len);
    forall s: nat | lo <= s < hi && s < MAXFILE
      ensures SlotBlock(disk, n, s) != 0
    {
      assert s * BSIZE < off + len;
    }
    assert Holes(disk, n, lo, hi) == {};
    if lo < hi && NDIRECT < hi {
      assert SlotBlock(disk, n, hi - 1) != 0;
    }
  }

  /** A turn of the loop ends in its own block, or starts the next one. */
  lemma EndsWithin(off: nat, n: nat, tot: nat, m: nat)
    requires tot + m <= n && 0 < m <= Room(off + tot) && off + n <= MAXFILE * BSIZE
    ensures (off + tot) / BSIZE < EndBlock(off, n) <= MAXFILE
    ensures (off + tot + m) / BSIZE == (off + tot) / BSIZE || (off + tot + m) / BSIZE == (off + tot) / BSIZE + 1
  {
  }

  lemma LacksAtLeast(disk: Disk, n: INode, s: nat, hi: nat)
    requires s < hi <= MAXFILE
    ensures Lacking(disk, n, s) <= RangeLacks(disk, n, s, hi)
  {
    if SlotBlock(disk, n, s) == 0 {
      assert s in Holes(disk, n, s, hi);
    }
  }

  /** No slot is different but that of position `bn` of inode `k`, and for an indirect position the indirect block's. */
  ghost predicate OnlySlots(disk: Disk, inodes: Inodes, now: Disk, later: Inodes, k: nat, bn: nat) {
    inodes.Keys == later.Keys &&
    forall x, s: nat | x in inodes && s < NSLOTS && !(x == k && (s == bn || (s == IND && NDIRECT <= bn))) ::
      SlotBlock(now, later[x], s) == SlotBlock(disk, inodes[x], s)
  }

  /** An indirect block, and then an entry of it. */
  lemma TwoPlaced(a: Disk, x: Inodes, b: Disk, y: Inodes, c: Disk, k: nat, bn: nat, ia: nat)
    requires Placed(a, x, b, y, k, IND, ia) && OnlySlots(b, y, c, y, k, bn) && NDIRECT <= bn < MAXFILE
    ensures OnlySlots(a, x, c, y, k, bn)
  {
  }

  // --- Truncation ---

  function Blockless(n: INode): INode {
    n.(addrs := seq<uint>(13, i => 0))
  }

  /** An inode without blocks and without bytes. */
  function Emptied(n: INode): INode {
    Blockless(n).(size := 0)
  }

  lemma EmptiedInTwo(had: Inodes, held: Inodes, later: Inodes, k: nat)
    requires k in had && held == had[k := Blockless(had[k])] && later == held[k := held[k].(size := 0)]
    ensures later == had[k := Emptied(had[k])]
  {
  }

  /** `now` is `was` without what inode `k` owned through its slots below `lim`. */
  ghost predicate Dropped(was: Owner, now: Owner, k: nat, lim: nat) {
    forall b ::
      (b in now <==> b in was && !(was[b].0 == k && was[b].1 < lim)) && (b in now && b in was ==> now[b] == was[b])
  }

  /** The bytes of every file but `k` are the same. */
  ghost predicate OthersKept(disk: Disk, inodes: Inodes, now: Disk, later: Inodes, k: nat) {
    inodes.Keys == later.Keys &&
    forall x, i: nat | x in inodes && x != k && i < MAXFILE * BSIZE ::
      FileByte(now, later[x], i) == FileByte(disk, inodes[x], i)
  }

  lemma OthersThen(a: Disk, x: Inodes, b: Disk, y: Inodes, c: Disk, z: Inodes, k: nat)
    requires OthersKept(a, x, b, y, k) && SameBytes(b, y, c, z)
    ensures OthersKept(a, x, c, z, k)
  {
  }

  lemma SlotPlaced(sb: Super, disk: Disk, inodes: Inodes, owner: Owner, st: Stale, k: nat, s: nat)
    requires Owned(sb, disk, inodes, owner, st) && k in inodes && s < NSLOTS && !st.Has(k, s)
    requires SlotBlock(disk, inodes[k], s) != 0
    ensures var b := SlotBlock(disk, inodes[k], s);
            b in owner && owner[b] == (k, s) && sb.meta <= b < sb.size && Used(sb, disk, b)
  {
    assert NameOwned(disk, inodes[k], owner, k, s);
  }

  lemma DropOne(sb: Super, disk: Disk, inodes: Inodes, owner: Owner, st: Stale, k: nat, s: nat, b: nat, was: Owner)
    requires Owned(sb, disk, inodes, owner, st) && b in owner && owner[b] == (k, s) && Dropped(was, owner, k, s)
    ensures Dropped(was, owner - {b}, k, s + 1)
  {
    var less := owner - {b};
    forall c
      ensures (c in less <==> c in was && !(was[c].0 == k && was[c].1 < s + 1)) &&
              (c in less && c in was ==> less[c] == was[c])
    {
      if c in owner && owner[c] == (k, s) {
        assert SlotBlock(disk, inodes[k], s) == c;
      }
    }
  }

  lemma NothingDropped(sb: Super, disk: Disk, inodes: Inodes, owner: Owner, st: Stale, k: nat, s: nat, was: Owner)
    requires Owned(sb, disk, inodes, owner, st) && k in inodes && s < NSLOTS && SlotBlock(disk, inodes[k], s) == 0
    requires Dropped(was, owner, k, s)
    ensures Dropped(was, owner, k, s + 1)
  {
    forall c
      ensures (c in owner <==> c in was && !(was[c].0 == k && was[c].1 < s + 1)) &&
              (c in owner && c in was ==> owner[c] == was[c])
    {
    }
  }

  /** Without an indirect block nothing is owned beyond the direct slots. */
  lemma NoneIndirect(sb: Super, disk: Disk, inodes: Inodes, owner: Owner, k: nat, was: Owner)
    requires Owned(sb, disk, inodes, owner, NONE) && k in inodes && inodes[k].addrs[NDIRECT] == 0
    requires Dropped(was, owner, k, NDIRECT)
    ensures Dropped(was, owner, k, NSLOTS)
  {
    forall c
      ensures (c in owner <==> c in was && !(was[c].0 == k && was[c].1 < NSLOTS)) &&
              (c in owner && c in was ==> owner[c] == was[c])
    {
    }
  }

  /** Clearing a bit changes no file's bytes. */
  lemma MarkedOthers(was: Disk, had: Inodes, sb: Super, disk: Disk, inodes: Inodes, owner: Owner, st: Stale, k: nat,
                     b: nat, now: Disk, later: Inodes)
    requires OthersKept(was, had, disk, inodes, k)
    requires Owned(sb, disk, inodes, owner, st) && StaleOk(st) && (st.k == k || st == NONE)
    requires b in owner && b < sb.size && now == Mark(sb, disk, b, false)
    requires later.Keys == inodes.Keys && forall x | x in inodes && x != k :: later[x] == inodes[x]
    ensures OthersKept(was, had, now, later, k)
  {
    ReleasedSlots(sb, disk, inodes, now, owner, st, b);
    forall x, i: nat | x in inodes && x != k && i < MAXFILE * BSIZE
      ensures FileByte(now, inodes[x], i) == FileByte(disk, inodes[x], i)
    {
      assert NameOwned(disk, inodes[x], owner, x, i / BSIZE);
      assert sb.BBlock(b) < sb.meta;
    }
  }

  /** Exactly the blocks inode `k` owned are free now and were not before. */
  ghost predicate FreedExactly(sb: Super, was: Disk, now: Disk, owned: Owner, k: nat)
    requires sb.Ok() && |was| == |now| == sb.size
  {
    forall b: nat | b < sb.size :: Used(sb, now, b) <==> Used(sb, was, b) && !(b in owned && owned[b].0 == k)
  }

  lemma BitsDropped(sb: Super, was: Disk, had: Inodes, owned: Owner, now: Disk, later: Inodes, owner: Owner, k: nat)
    requires Owned(sb, was, had, owned, NONE) && Owned(sb, now, later, owner, NONE) && Dropped(owned, owner, k, NSLOTS)
    ensures FreedExactly(sb, was, now, owned, k)
  {
  }

  /** First the blocks of inode `k` went, then the inode was written. */
  ghost predicate Stripped(sb: Super, was: Disk, had: Inodes, owned: Owner, mid: Disk, held: Inodes, now: Disk,
                           later: Inodes, owner: Owner, k: nat)
  {
    Dropped(owned, owner, k, NSLOTS) && OthersKept(was, had, mid, held, k) && SameBytes(mid, held, now, later) &&
    SameLow(sb, was, mid) && SameOthers(sb, mid, now, later, k)
  }

  lemma TruncDone(sb: Super, was: Disk, had: Inodes, owned: Owner, mid: Disk, held: Inodes, now: Disk, later: Inodes,
                  owner: Owner, k: nat)
    requires Owned(sb, was, had, owned, NONE) && Owned(sb, now, later, owner, NONE)
    requires Stripped(sb, was, had, owned, mid, held, now, later, owner, k) && forall x | x in later :: x < sb.ninodes
    ensures Dropped(owned, owner, k, NSLOTS)
    ensures FreedExactly(sb, was, now, owned, k) && OthersKept(was, had, now, later, k) &&
            SameOthers(sb, was, now, later, k)
  {
    OthersThen(was, had, mid, held, now, later, k);
    BitsDropped(sb, was, had, owned, now, later, owner, k);
    SameOthersLow(sb, was, mid, now, later, k);
  }

  lemma EntryDone(was: Disk, had: Inodes, owned: Owner, sb: Super, disk: Disk, inodes: Inodes, owner: Owner, k: nat,
                  j: nat, b: nat, now: Disk)
    requires k in inodes && j < NINDIRECT && Owned(sb, disk, inodes, owner, Stale(k, NDIRECT, NDIRECT + j))
    requires b == SlotBlock(disk, inodes[k], NDIRECT + j) && 0 < b < sb.size && now == Mark(sb, disk, b, false)
    requires Dropped(owned, owner, k, NDIRECT + j) && OthersKept(was, had, disk, inodes, k)
    ensures Owned(sb, now, inodes, owner - {b}, Stale(k, NDIRECT, NDIRECT + j + 1))
    ensures Dropped(owned, owner - {b}, k, NDIRECT + j + 1) && OthersKept(was, had, now, inodes, k)
  {
    var st := Stale(k, NDIRECT, NDIRECT + j);
    SlotPlaced(sb, disk, inodes, owner, st, k, NDIRECT + j);
    EntryFreed(sb, disk, inodes, owner, k, j, now);
    DropOne(sb, disk, inodes, owner, st, k, NDIRECT + j, b, owned);
    MarkedOthers(was, had, sb, disk, inodes, owner, st, k, b, now, inodes);
  }

  class Fs {
    const sb: Super
    var disk: Disk
    var inodes: Inodes
    ghost var owner: Owner

    ghost predicate Valid()
      reads this
    {
      Owned(sb, disk, inodes, owner, NONE) && forall k | k in inodes :: k < sb.ninodes
    }

    /** The inode on disk agrees with the one in memory. */
    ghost predicate InSync(k: nat)
      requires sb.Ok() && |disk| == sb.size && k < sb.ninodes && k in inodes
      reads this
    {
      GetInode(disk[sb.IBlock(k)], k % IPB) == inodes[k]
    }

    constructor (sb: Super, disk: Disk, inodes: Inodes, ghost owner: Owner)
      requires Owned(sb, disk, inodes, owner, NONE) && forall k | k in inodes :: k < sb.ninodes
      ensures Valid() && this.sb == sb && this.disk == disk && this.inodes == inodes && this.owner == owner
    {
      this.sb, this.disk, this.inodes, this.owner := sb, disk, inodes, owner;
    }

    method Bzero(b: nat)
      requires b < |disk|
      modifies this`disk
      ensures disk == Zeroed(old(disk), b)
    {
      disk := disk[b := ZeroBlock()];
    }

    /** balloc: the lowest free block, marked and zeroed; it fails only when every block is in use. */
    method Balloc() returns (ok: bool, r: nat)
      requires sb.Ok() && |disk| == sb.size
      modifies this`disk
      ensures ok ==> r < sb.size && !Used(sb, old(disk), r) && disk == Allocated(sb, old(disk), r)
      ensures ok ==> AllUsed(sb, old(disk), r)
      ensures !ok ==> disk == old(disk) && AllUsed(sb, disk, sb.size)
    {
      var b := 0;
      while b < sb.size
        invariant b % BPB == 0 && disk == old(disk) && AllUsed(sb, disk, b)
      {
        ok, r := TakeFrom(b);
        if ok {
          return;
        }
        b := b + BPB;
      }
      ok, r := false, 0;
    }

    /** The blocks whose bits share the bitmap block of `b`. */
    method TakeFrom(b: nat) returns (ok: bool, r: nat)
      requires sb.Ok() && |disk| == sb.size && b % BPB == 0 && b < sb.size && AllUsed(sb, disk, b)
      modifies this`disk
      ensures ok ==> r < sb.size && !Used(sb, old(disk), r) && disk == Allocated(sb, old(disk), r)
      ensures ok ==> AllUsed(sb, old(disk), r)
      ensures !ok ==> disk == old(disk) && AllUsed(sb, disk, b + BPB)
    {
      var bb := sb.BBlock(b);
      var bi := 0;
      while bi < BPB && b + bi < sb.size
        invariant bi <= BPB && disk == old(disk) && AllUsed(sb, disk, b + bi)
      {
        BitPlace(sb, b, bi);
        if !BlockBit(disk[bb], bi) {
          disk := disk[bb := PutBlockBit(disk[bb], bi, true)];
          Bzero(b + bi);
          return true, b + bi;
        }
        UsedOn(sb, disk, b + bi);
        bi := bi + 1;
      }
      ok, r := false, 0;
    }

    /** bfree: clear the bit; it panics on a block already free. */
    method Bfree(b: nat) returns (ok: bool)
      requires sb.Ok() && |disk| == sb.size && b < sb.size
      modifies this`disk
      ensures ok == Used(sb, old(disk), b)
      ensures disk == if ok then Mark(sb, old(disk), b, false) else old(disk)
    {
      var bb, bi := sb.BBlock(b), b % BPB;
      if !BlockBit(disk[bb], bi) {
        return false;
      }
      disk := disk[bb := PutBlockBit(disk[bb], bi, false)];
      ok := true;
    }

    /** A new block for one of the 13 addresses of inode `k`. */
    method NewAddr(k: nat, i: nat) returns (ok: bool, addr: nat)
      requires Valid() && k in inodes && i < 13 && inodes[k].addrs[i] == 0
      modifies this`disk, this`inodes, this`owner
      ensures Valid() && SameBytes(old(disk), old(inodes), disk, inodes) &&
              SlotsGrow(old(disk), old(inodes), disk, inodes)
      ensures SameLow(sb, old(disk), disk)
      ensures !ok ==> disk == old(disk) && inodes == old(inodes) && Spare(sb, disk) == {}
      ensures ok ==> 0 < addr < sb.size && inodes == old(inodes)[k := WithAddr(old(inodes)[k], i, addr)]
      ensures ok ==> Placed(old(disk), old(inodes), disk, inodes, k, if i == NDIRECT then IND else i, addr)
      ensures ok ==> addr in Spare(sb, old(disk)) && Spare(sb, disk) == Spare(sb, old(disk)) - {addr}
    {
      ok, addr := Balloc();
      if !ok {
        return;
      }
      AllocatedSlots(sb, old(disk), inodes, owner, addr);
      AllocatedGrown(sb, old(disk), inodes, owner, addr);
      AddrPlaced(sb, old(disk), inodes, owner, k, i, addr);
      ghost var s := if i == NDIRECT then IND else i;
      inodes := inodes[k := WithAddr(inodes[k], i, addr)];
      PlacedOwned(sb, old(disk), old(inodes), owner, disk, inodes, k, s, addr);
      PlacedBytes(sb, old(disk), old(inodes), owner, disk, inodes, k, s, addr);
      SpareLess(sb, old(disk), disk, owner, addr);
      owner := owner[addr := (k, s)];
    }

    /** A new block for an entry of the indirect block of inode `k`. */
    method NewEntry(k: nat, j: nat) returns (ok: bool, addr: nat)
      requires Valid() && k in inodes && j < NINDIRECT && inodes[k].addrs[NDIRECT] != 0
      requires SlotBlock(disk, inodes[k], NDIRECT + j) == 0
      modifies this`disk, this`owner
      ensures Valid() && SameBytes(old(disk), inodes, disk, inodes) && SlotsGrow(old(disk), inodes, disk, inodes)
      ensures SameLow(sb, old(disk), disk)
      ensures !ok ==> disk == old(disk) && Spare(sb, disk) == {}
      ensures ok ==> addr != 0 && Placed(old(disk), inodes, disk, inodes, k, NDIRECT + j, addr)
      ensures ok ==> addr in Spare(sb, old(disk)) && Spare(sb, disk) == Spare(sb, old(disk)) - {addr}
    {
      var ia := inodes[k].addrs[NDIRECT];
      ok, addr := Balloc();
      if !ok {
        return;
      }
      EntryKept(sb, old(disk), inodes, owner, k, j, addr);
      disk := disk[ia := SetWord(disk[ia], j, addr)];
      owner := owner[addr := (k, NDIRECT + j)];
    }

    /**
     bmap: the block at position `bn`, allocated if missing. It fails beyond the largest file, and when there are fewer
     free blocks than it lacks; no byte of any file changes, and no slot but the ones it fills.
     */
    method Bmap(k: nat, bn: nat) returns (ok: bool, addr: nat)
      requires Valid() && k in inodes
      modifies this`disk, this`inodes, this`owner
      ensures Valid() && SameLow(sb, old(disk), disk)
      ensures SameBytes(old(disk), old(inodes), disk, inodes) && SlotsGrow(old(disk), old(inodes), disk, inodes)
      ensures OnlySlots(old(disk), old(inodes), disk, inodes, k, bn)
      ensures inodes == old(inodes)[k := old(inodes)[k].(addrs := inodes[k].addrs)]
      ensures ok <==> bn < MAXFILE && Lacking(old(disk), old(inodes)[k], bn) <= |Spare(sb, old(disk))|
      ensures ok ==> addr != 0 && addr == SlotBlock(disk, inodes[k], bn)
      ensures ok ==> |Spare(sb, disk)| == |Spare(sb, old(disk))| - Lacking(old(disk), old(inodes)[k], bn)
      ensures bn < MAXFILE && SlotBlock(old(disk), old(inodes)[k], bn) != 0 ==>
                ok && disk == old(disk) && inodes == old(inodes) && owner == old(owner)
    {
      assert old(inodes)[k].(addrs := old(inodes)[k].addrs) == old(inodes)[k];
      if bn < NDIRECT {
        ok, addr := Direct(k, bn);
        return;
      }
      if bn - NDIRECT < NINDIRECT {
        ok, addr := Indirect(k, bn - NDIRECT);
        return;
      }
      ok, addr := false, 0;
    }

    /** A direct address. */
    method Direct(k: nat, bn: nat) returns (ok: bool, addr: nat)
      requires Valid() && k in inodes && bn < NDIRECT
      modifies this`disk, this`inodes, this`owner
      ensures Valid() && SameLow(sb, old(disk), disk)
      ensures SameBytes(old(disk), old(inodes), disk, inodes) && SlotsGrow(old(disk), old(inodes), disk, inodes)
      ensures OnlySlots(old(disk), old(inodes), disk, inodes, k, bn)
      ensures inodes == old(inodes)[k := old(inodes)[k].(addrs := inodes[k].addrs)]
      ensures ok <==> Lacking(old(disk), old(inodes)[k], bn) <= |Spare(sb, old(disk))|
      ensures ok ==> addr != 0 && addr == SlotBlock(disk, inodes[k], bn)
      ensures ok ==> |Spare(sb, disk)| == |Spare(sb, old(disk))| - Lacking(old(disk), old(inodes)[k], bn)
      ensures SlotBlock(old(disk), old(inodes)[k], bn) != 0 ==>
                disk == old(disk) && inodes == old(inodes) && owner == old(owner)
    {
      assert old(inodes)[k].(addrs := old(inodes)[k].addrs) == old(inodes)[k];
      addr := inodes[k].addrs[bn];
      ok := true;
      if addr == 0 {
        ok, addr := NewAddr(k, bn);
      }
    }

    /** An address in the indirect block, which is allocated if missing. */
    method Indirect(k: nat, j: nat) returns (ok: bool, addr: nat)
      requires Valid() && k in inodes && j < NINDIRECT
      modifies this`disk, this`inodes, this`owner
      ensures Valid() && SameLow(sb, old(disk), disk)
      ensures SameBytes(old(disk), old(inodes), disk, inodes) && SlotsGrow(old(disk), old(inodes), disk, inodes)
      ensures OnlySlots(old(disk), old(inodes), disk, inodes, k, NDIRECT + j)
      ensures inodes == old(inodes)[k := old(inodes)[k].(addrs := inodes[k].addrs)]
      ensures ok <==> Lacking(old(disk), old(inodes)[k], NDIRECT + j) <= |Spare(sb, old(disk))|
      ensures ok ==> addr != 0 && addr == SlotBlock(disk, inodes[k], NDIRECT + j)
      ensures ok ==> |Spare(sb, disk)| == |Spare(sb, old(disk))| - Lacking(old(disk), old(inodes)[k], NDIRECT + j)
      ensures SlotBlock(old(disk), old(inodes)[k], NDIRECT + j) != 0 ==>
                disk == old(disk) && inodes == old(inodes) && owner == old(owner)
    {
      assert old(inodes)[k].(addrs := old(inodes)[k].addrs) == old(inodes)[k];
      addr := inodes[k].addrs[NDIRECT];
      if addr != 0 {
        ok, addr := Entry(k, j);
        return;
      }
      ok, addr := NewAddr(k, NDIRECT);
      if !ok {
        return;
      }
      ghost var mid, held, ia := disk, inodes, addr;
      ok, addr := Entry(k, j);
      BytesChain(old(disk), old(inodes), mid, held, disk, inodes);
      TwoPlaced(old(disk), old(inodes), mid, held, disk, k, NDIRECT + j, ia);
    }

    /** The entry of the indirect block, which is there by now. */
    method Entry(k: nat, j: nat) returns (ok: bool, addr: nat)
      requires Valid() && k in inodes && j < NINDIRECT && inodes[k].addrs[NDIRECT] != 0
      modifies this`disk, this`owner
      ensures Valid() && SameLow(sb, old(disk), disk)
      ensures SameBytes(old(disk), inodes, disk, inodes) && SlotsGrow(old(disk), inodes, disk, inodes)
      ensures OnlySlots(old(disk), inodes, disk, inodes, k, NDIRECT + j)
      ensures ok <==> Lacking(old(disk), inodes[k], NDIRECT + j) <= |Spare(sb, old(disk))|
      ensures ok ==> addr != 0 && addr == SlotBlock(disk, inodes[k], NDIRECT + j)
      ensures ok ==> |Spare(sb, disk)| == |Spare(sb, old(disk))| - Lacking(old(disk), inodes[k], NDIRECT + j)
      ensures SlotBlock(old(disk), inodes[k], NDIRECT + j) != 0 ==> disk == old(disk) && owner == old(owner)
    {
      IndirectPlaced(sb, disk, inodes, owner, NONE, k);
      addr := Word(disk[inodes[k].addrs[NDIRECT]], j);
      ok := true;
      if addr == 0 {
        ok, addr := NewEntry(k, j);
      }
    }

    /** iupdate: inode `k` as it is in memory goes to its place on disk. */
    method Iupdate(k: nat)
      requires Valid() && k in inodes
      modifies this`disk
      ensures Valid() && InSync(k)
      ensures SameBytes(old(disk), inodes, disk, inodes)
      ensures SlotsGrow(old(disk), inodes, disk, inodes) && SameOthers(sb, old(disk), disk, inodes, k)
    {
      var ib := sb.IBlock(k);
      ghost var was := disk;
      disk := disk[ib := PutInode(disk[ib], k % IPB, inodes[k], 16)];
      LowWriteKeeps(sb, was, inodes, owner, ib, disk[ib]);
      forall x | x in inodes
        ensures GetInode(disk[sb.IBlock(x)], x % IPB) ==
                if x == k then inodes[k] else GetInode(was[sb.IBlock(x)], x % IPB)
      {
        PutInodeReads(was[ib], k % IPB, inodes[k], x % IPB);
        assert x / IPB == k / IPB && x % IPB == k % IPB ==> x == k;
      }
    }

    /** One turn of readi's loop. */
    method ReadChunk(k: nat, pos: nat, m: nat, ghost file: seq<byte>) returns (chunk: seq<byte>)
      requires Valid() && k in inodes && NoHoles(disk, inodes[k])
      requires 0 < m <= Room(pos) && pos + m <= inodes[k].size && file == Contents(disk, inodes[k])
      modifies this`disk, this`inodes, this`owner
      ensures disk == old(disk) && inodes == old(inodes) && owner == old(owner)
      ensures chunk == file[pos..pos + m]
    {
      assert SlotBlock(disk, inodes[k], pos / BSIZE) != 0;
      var _, addr := Bmap(k, pos / BSIZE);
      MappedBelow(sb, disk, inodes, owner, k, pos / BSIZE);
      ChunkRead(disk, inodes[k], pos, m, addr);
      chunk := disk[addr][pos % BSIZE..pos % BSIZE + m];
    }

    /** readi: exactly the stored bytes, clamped to the size; on a file without holes nothing is allocated. */
    method Readi(k: nat, off: uint, n: uint) returns (r: int, data: seq<byte>)
      requires Valid() && k in inodes && inodes[k].kind != T_DEV && NoHoles(disk, inodes[k])
      modifies this`disk, this`inodes, this`owner
      ensures disk == old(disk) && inodes == old(inodes) && owner == old(owner)
      ensures r == -1 <==> off > inodes[k].size || off + n >= UINT_SIZE
      ensures r != -1 ==> r == if off + n > inodes[k].size then inodes[k].size - off else n
      ensures r != -1 ==> |data| == r && data == Contents(disk, inodes[k])[off..off + r]
    {
      data := [];
      if off > inodes[k].size || off + n >= UINT_SIZE {
        return -1, [];
      }
      var len: int := n;
      if off + n > inodes[k].size {
        len := inodes[k].size - off;
      }
      data := ReadBlocks(k, off, len);
      r := len;
    }

    /** The loop of readi. */
    method ReadBlocks(k: nat, off: nat, len: nat) returns (data: seq<byte>)
      requires Valid() && k in inodes && NoHoles(disk, inodes[k]) && off + len <= inodes[k].size
      modifies this`disk, this`inodes, this`owner
      ensures disk == old(disk) && inodes == old(inodes) && owner == old(owner)
      ensures data == Contents(disk, inodes[k])[off..off + len]
    {
      data := [];
      var tot := 0;
      ghost var file := Contents(disk, inodes[k]);
      while tot < len
        invariant 0 <= tot <= len && data == file[off..off + tot]
        invariant disk == old(disk) && inodes == old(inodes) && owner == old(owner)
      {
        var pos := off + tot;
        var m := if len - tot < Room(pos) then len - tot else Room(pos);
        var chunk := ReadChunk(k, pos, m, file);
        Sliced(file, off, pos, pos + m);
        data := data + chunk;
        tot := tot + m;
      }
    }

    /** One turn of writei's loop: `bytes` go into the one block they fit in. */
    method WriteChunk(k: nat, pos: nat, bytes: seq<byte>) returns (ok: bool)
      requires Valid() && k in inodes && pos < MAXFILE * BSIZE && 0 < |bytes| <= Room(pos)
      modifies this`disk, this`inodes, this`owner
      ensures Valid() && SameLow(sb, old(disk), disk) && SlotsGrow(old(disk), old(inodes), disk, inodes)
      ensures inodes == old(inodes)[k := old(inodes)[k].(addrs := inodes[k].addrs)]
      ensures SlotBlock(old(disk), old(inodes)[k], pos / BSIZE) != 0 ==> ok && inodes == old(inodes)
      ensures ok <==> Lacking(old(disk), old(inodes)[k], pos / BSIZE) <= |Spare(sb, old(disk))|
      ensures ok ==> |Spare(sb, disk)| == |Spare(sb, old(disk))| - Lacking(old(disk), old(inodes)[k], pos / BSIZE)
      ensures ok ==> OnlySlots(old(disk), old(inodes), disk, inodes, k, pos / BSIZE)
      ensures ok ==> SlotBlock(disk, inodes[k], pos / BSIZE) != 0
      ensures ok ==> forall x, i: nat | x in inodes && i < MAXFILE * BSIZE ::
                FileByte(disk, inodes[x], i) ==
                if x == k && pos <= i < pos + |bytes| then bytes[i - pos] else FileByte(old(disk), old(inodes)[x], i)
    {
      var addr: nat;
      ok, addr := Bmap(k, pos / BSIZE);
      if !ok {
        return;
      }
      ghost var mid := disk;
      var s := pos / BSIZE;
      MappedBelow(sb, disk, inodes, owner, k, s);
      var blk := Overlay(disk[addr], pos % BSIZE, bytes);
      DataKeepsOwned(sb, disk, inodes, owner, k, s, addr, blk);
      disk := disk[addr := blk];
      forall x, i: nat | x in inodes && i < MAXFILE * BSIZE
        ensures FileByte(disk, inodes[x], i) ==
                if x == k && pos <= i < pos + |bytes| then bytes[i - pos] else FileByte(old(disk), old(inodes)[x], i)
      {
        DataWritten(sb, mid, inodes, owner, k, s, addr, blk, x, i);
        if i / BSIZE == s {
          OverlayByte(mid[addr], pos, bytes, i);
        }
        assert FileByte(mid, inodes[x], i) == FileByte(old(disk), old(inodes)[x], i);
      }
    }

    /** The end of writei on a file that grew: the new size, and the inode to disk. */
    method Resize(k: nat, size: uint)
      requires Valid() && k in inodes
      modifies this`disk, this`inodes
      ensures Valid() && inodes == old(inodes)[k := old(inodes)[k].(size := size)] && InSync(k)
      ensures SameBytes(old(disk), old(inodes), disk, inodes) && SlotsGrow(old(disk), old(inodes), disk, inodes)
      ensures SameOthers(sb, old(disk), disk, inodes, k)
    {
      SizeKeepsOwned(sb, disk, inodes, owner, k, size);
      ghost var held := inodes;
      inodes := inodes[k := inodes[k].(size := size)];
      Iupdate(k);
      BytesChain(old(disk), held, old(disk), inodes, disk, inodes);
    }

    /** writei: bytes [off, off+n) are replaced or appended; afterwards memory and disk agree on the inode. */
    method Writei(k: nat, src: seq<byte>, off: uint) returns (ok: bool, r: int)
      requires Valid() && k in inodes && inodes[k].kind != T_DEV && NoHoles(disk, inodes[k]) && InSync(k)
      requires |src| < UINT_SIZE
      modifies this`disk, this`inodes, this`owner
      ensures Valid() && k in inodes
      ensures ok <==>
                off > old(inodes)[k].size || off + |src| >= UINT_SIZE || off + |src| > MAXFILE * BSIZE ||
                RangeLacks(old(disk), old(inodes)[k], off / BSIZE, EndBlock(off, |src|)) <= |Spare(sb, old(disk))|
      ensures off + |src| <= old(inodes)[k].size ==> ok
      ensures ok ==>
                (r == -1 <==> off > old(inodes)[k].size || off + |src| >= UINT_SIZE || off + |src| > MAXFILE * BSIZE)
      ensures ok && r == -1 ==> disk == old(disk) && inodes == old(inodes)
      ensures ok && r != -1 ==> r == |src| && NoHoles(disk, inodes[k]) && InSync(k)
      ensures ok && r != -1 ==> Contents(disk, inodes[k]) == Patched(old(Contents(disk, inodes[k])), off, src)
      ensures ok && r != -1 ==> Overwritten(old(disk), old(inodes), disk, inodes, k, off, src)
      ensures ok ==> SameOthers(sb, old(disk), disk, inodes, k)
      ensures ok ==> forall x | x in inodes && x != k :: x in old(inodes) && inodes[x] == old(inodes)[x]
    {
      var n := |src|;
      if off > inodes[k].size || off + n >= UINT_SIZE {
        return true, -1;
      }
      if off + n > MAXFILE * BSIZE {
        return true, -1;
      }
      if off + n <= inodes[k].size {
        NoneLacking(disk, inodes[k], off, n);
      }
      ok := WriteBlocks(k, src, off);
      if !ok {
        return false, -1;
      }
      ghost var mid, held := disk, inodes;
      if n > 0 && off + n > inodes[k].size {
        Resize(k, off + n);
        SameBytesOverwritten(old(disk), old(inodes), mid, held, disk, inodes, k, off, src);
      }
      MappedKept(mid, held, disk, inodes, k, inodes[k].size);
      PatchedContents(old(disk), old(inodes), disk, inodes, k, off, src);
      r := n;
    }

    /** The first `tot` bytes are written, into a file that had `size` bytes. */
    ghost predicate Written(k: nat, src: seq<byte>, off: nat, tot: nat, size: nat, was: Disk, had: Inodes)
      reads this
    {
      Valid() && k in inodes && k in had && SameLow(sb, was, disk) && tot <= |src| &&
      inodes == had[k := had[k].(addrs := inodes[k].addrs)] && (off + tot <= size ==> inodes == had) &&
      Mapped(disk, inodes[k], size) && Mapped(disk, inodes[k], off + tot) &&
      Overwritten(was, had, disk, inodes, k, off, src[..tot])
    }

    /** The loop of writei. */
    method WriteBlocks(k: nat, src: seq<byte>, off: uint) returns (ok: bool)
      requires Valid() && k in inodes && NoHoles(disk, inodes[k])
      requires off <= inodes[k].size && off + |src| <= MAXFILE * BSIZE
      modifies this`disk, this`inodes, this`owner
      ensures Valid() && k in inodes && SameLow(sb, old(disk), disk)
      ensures inodes == old(inodes)[k := old(inodes)[k].(addrs := inodes[k].addrs)]
      ensures off + |src| <= old(inodes)[k].size ==> inodes == old(inodes)
      ensures ok ==> Overwritten(old(disk), old(inodes), disk, inodes, k, off, src)
      ensures ok ==> Mapped(disk, inodes[k], old(inodes)[k].size) && Mapped(disk, inodes[k], off + |src|)
      ensures ok <==>
                RangeLacks(old(disk), old(inodes)[k], off / BSIZE, EndBlock(off, |src|)) <= |Spare(sb, old(disk))|
    {
      var n := |src|;
      ghost var lacks := RangeLacks(disk, inodes[k], off / BSIZE, EndBlock(off, n)) - |Spare(sb, disk)|;
      ghost var size := inodes[k].size;
      var tot := 0;
      assert inodes[k := inodes[k].(addrs := inodes[k].addrs)] == inodes;
      while tot < n
        invariant 0 <= tot <= n && Written(k, src, off, tot, size, old(disk), old(inodes))
        invariant RangeLacks(disk, inodes[k], (off + tot) / BSIZE, EndBlock(off, n)) - |Spare(sb, disk)| == lacks
      {
        var m;
        ok, m := WriteNext(k, src, off, tot, size, old(disk), old(inodes));
        if !ok {
          return;
        }
        tot := tot + m;
      }
      assert src[..n] == src;
      NoneLeft(disk, inodes[k], off, n);
      ok := true;
    }

    /** One turn, added to the ones before. */
    method WriteNext(k: nat, src: seq<byte>, off: nat, tot: nat, ghost size: nat, ghost was: Disk, ghost had: Inodes)
      returns (ok: bool, m: nat)
      requires off + |src| <= MAXFILE * BSIZE && tot < |src|
      requires Written(k, src, off, tot, size, was, had)
      modifies this`disk, this`inodes, this`owner
      ensures Valid() && k in inodes && SameLow(sb, was, disk)
      ensures inodes == had[k := had[k].(addrs := inodes[k].addrs)]
      ensures off + tot < size ==> inodes == had
      ensures 0 < m && tot + m <= |src| && (ok ==> Written(k, src, off, tot + m, size, was, had))
      ensures var lo, hi := (off + tot) / BSIZE, EndBlock(off, |src|);
              if ok then
                RangeLacks(disk, inodes[k], (off + tot + m) / BSIZE, hi) - |Spare(sb, disk)| ==
                RangeLacks(old(disk), old(inodes)[k], lo, hi) - |Spare(sb, old(disk))|
              else RangeLacks(old(disk), old(inodes)[k], lo, hi) > |Spare(sb, old(disk))|
    {
      ghost var mid, held := disk, inodes;
      m := if |src| - tot < Room(off + tot) then |src| - tot else Room(off + tot);
      ok := WriteTurn(k, src, off, tot, m, size);
      if ok {
        OverwrittenGrows(was, had, mid, held, disk, inodes, k, off, src, tot, m);
      }
    }

    /** One turn, within one block. */
    method WriteTurn(k: nat, src: seq<byte>, off: nat, tot: nat, m: nat, ghost size: nat) returns (ok: bool)
      requires Valid() && k in inodes && off + |src| <= MAXFILE * BSIZE && tot + m <= |src| && 0 < m <= Room(off + tot)
      requires Mapped(disk, inodes[k], size) && Mapped(disk, inodes[k], off + tot)
      modifies this`disk, this`inodes, this`owner
      ensures Valid() && k in inodes && SameLow(sb, old(disk), disk)
      ensures inodes == old(inodes)[k := old(inodes)[k].(addrs := inodes[k].addrs)]
      ensures off + tot < size ==> inodes == old(inodes)
      ensures ok ==> Mapped(disk, inodes[k], size) && Mapped(disk, inodes[k], off + tot + m)
      ensures ok ==> Overwritten(old(disk), old(inodes), disk, inodes, k, off + tot, src[tot..tot + m])
      ensures var lo, hi := (off + tot) / BSIZE, EndBlock(off, |src|);
              if ok then
                RangeLacks(disk, inodes[k], (off + tot + m) / BSIZE, hi) - |Spare(sb, disk)| ==
                RangeLacks(old(disk), old(inodes)[k], lo, hi) - |Spare(sb, old(disk))|
              else RangeLacks(old(disk), old(inodes)[k], lo, hi) > |Spare(sb, old(disk))|
    {
      var pos := off + tot;
      ghost var mid, held := disk, inodes;
      EndsWithin(off, |src|, tot, m);
      LacksAtLeast(disk, inodes[k], pos / BSIZE, EndBlock(off, |src|));
      assert pos < size ==> SlotBlock(disk, inodes[k], pos / BSIZE) != 0;
      ok := WriteChunk(k, pos, src[tot..tot + m]);
      if ok {
        MappedGrows(mid, held, disk, inodes, k, size, pos, m);
        LacksLess(mid, held, disk, inodes, k, pos / BSIZE, EndBlock(off, |src|));
      }
    }

    /** itrunc: the inode loses all its blocks, and exactly those become free; no bfree meets a free block. */
    method Itrunc(k: nat)
      requires Valid() && k in inodes
      modifies this`disk, this`inodes, this`owner
      ensures Valid() && k in inodes && InSync(k)
      ensures inodes == old(inodes)[k := Emptied(old(inodes)[k])]
      ensures inodes[k].size == 0 && (forall j | 0 <= j < 13 :: inodes[k].addrs[j] == 0)
      ensures inodes[k].kind == old(inodes)[k].kind && inodes[k].nlink == old(inodes)[k].nlink
      ensures Dropped(old(owner), owner, k, NSLOTS)
      ensures FreedExactly(sb, old(disk), disk, old(owner), k)
      ensures OthersKept(old(disk), old(inodes), disk, inodes, k) && SameOthers(sb, old(disk), disk, inodes, k)
    {
      ghost var mid, held := Strip(k);
      TruncDone(sb, old(disk), old(inodes), old(owner), mid, held, disk, inodes, owner, k);
    }

    /** The blocks given back, as of `mid`, and then the empty inode written. */
    method Strip(k: nat) returns (ghost mid: Disk, ghost held: Inodes)
      requires Valid() && k in inodes
      modifies this`disk, this`inodes, this`owner
      ensures Valid() && inodes == old(inodes)[k := Emptied(old(inodes)[k])] && InSync(k)
      ensures Stripped(sb, old(disk), old(inodes), old(owner), mid, held, disk, inodes, owner, k)
    {
      FreeBlocks(k);
      mid, held := disk, inodes;
      Resize(k, 0);
      EmptiedInTwo(old(inodes), held, inodes, k);
    }

    method FreeBlocks(k: nat)
      requires Valid() && k in inodes
      modifies this`disk, this`inodes, this`owner
      ensures Valid() && k in inodes && SameLow(sb, old(disk), disk)
      ensures inodes == old(inodes)[k := Blockless(old(inodes)[k])]
      ensures Dropped(old(owner), owner, k, NSLOTS) && OthersKept(old(disk), old(inodes), disk, inodes, k)
    {
      FreeDirect(k);
      if inodes[k].addrs[NDIRECT] != 0 {
        FreeIndirect(k, old(owner), old(disk), old(inodes));
      } else {
        NoneIndirect(sb, disk, inodes, owner, k, old(owner));
      }
      assert inodes[k].addrs == Blockless(old(inodes)[k]).addrs;
    }

    /** The first loop of itrunc. */
    method FreeDirect(k: nat)
      requires Valid() && k in inodes
      modifies this`disk, this`inodes, this`owner
      ensures Valid() && k in inodes && SameLow(sb, old(disk), disk)
      ensures inodes == old(inodes)[k := old(inodes)[k].(addrs := inodes[k].addrs)]
      ensures inodes[k].addrs[NDIRECT] == old(inodes)[k].addrs[NDIRECT]
      ensures forall j | 0 <= j < NDIRECT :: inodes[k].addrs[j] == 0
      ensures Dropped(old(owner), owner, k, NDIRECT) && OthersKept(old(disk), old(inodes), disk, inodes, k)
    {
      var i := 0;
      assert inodes[k := inodes[k].(addrs := inodes[k].addrs)] == inodes;
      while i < NDIRECT
        invariant 0 <= i <= NDIRECT && Valid() && k in inodes && SameLow(sb, old(disk), disk)
        invariant inodes == old(inodes)[k := old(inodes)[k].(addrs := inodes[k].addrs)]
        invariant forall j | 0 <= j < 13 :: inodes[k].addrs[j] == if j < i then 0 else old(inodes)[k].addrs[j]
        invariant Dropped(old(owner), owner, k, i) && OthersKept(old(disk), old(inodes), disk, inodes, k)
      {
        if inodes[k].addrs[i] != 0 {
          FreeAddr(k, i, old(disk), old(inodes), old(owner));
        } else {
          NothingDropped(sb, disk, inodes, owner, NONE, k, i, old(owner));
        }
        i := i + 1;
      }
    }

    /** One direct block given back. */
    method FreeAddr(k: nat, i: nat, ghost was: Disk, ghost had: Inodes, ghost owned: Owner)
      requires Valid() && k in inodes && i < NDIRECT && inodes[k].addrs[i] != 0
      requires Dropped(owned, owner, k, i) && OthersKept(was, had, disk, inodes, k)
      modifies this`disk, this`inodes, this`owner
      ensures Valid() && SameLow(sb, old(disk), disk)
      ensures inodes == old(inodes)[k := WithAddr(old(inodes)[k], i, 0)]
      ensures Dropped(owned, owner, k, i + 1) && OthersKept(was, had, disk, inodes, k)
    {
      var b := inodes[k].addrs[i];
      SlotPlaced(sb, disk, inodes, owner, NONE, k, i);
      var _ := Bfree(b);
      DirectFreed(sb, old(disk), inodes, owner, k, i, disk);
      DropOne(sb, old(disk), inodes, owner, NONE, k, i, b, owned);
      inodes := inodes[k := WithAddr(inodes[k], i, 0)];
      MarkedOthers(was, had, sb, old(disk), old(inodes), owner, NONE, k, b, disk, inodes);
      owner := owner - {b};
    }

    /** The second half of itrunc: the blocks the indirect block lists, then the indirect block. */
    method FreeIndirect(k: nat, ghost owned: Owner, ghost was: Disk, ghost had: Inodes)
      requires Valid() && k in inodes && inodes[k].addrs[NDIRECT] != 0
      requires Dropped(owned, owner, k, NDIRECT) && OthersKept(was, had, disk, inodes, k)
      modifies this`disk, this`inodes, this`owner
      ensures Valid() && k in inodes && SameLow(sb, old(disk), disk)
      ensures inodes == old(inodes)[k := WithAddr(old(inodes)[k], NDIRECT, 0)]
      ensures Dropped(owned, owner, k, NSLOTS) && OthersKept(was, had, disk, inodes, k)
    {
      var ia := inodes[k].addrs[NDIRECT];
      var j := 0;
      while j < NINDIRECT
        invariant 0 <= j <= NINDIRECT && Owned(sb, disk, inodes, owner, Stale(k, NDIRECT, NDIRECT + j))
        invariant inodes == old(inodes) && SameLow(sb, old(disk), disk)
        invariant Dropped(owned, owner, k, NDIRECT + j) && OthersKept(was, had, disk, inodes, k)
      {
        IndirectPlaced(sb, disk, inodes, owner, Stale(k, NDIRECT, NDIRECT + j), k);
        FreeEntry(k, j, Word(disk[ia], j), was, had, owned);
        j := j + 1;
      }
      FreeLast(k, was, had, owned);
    }

    /** The indirect block itself. */
    method FreeLast(k: nat, ghost was: Disk, ghost had: Inodes, ghost owned: Owner)
      requires Owned(sb, disk, inodes, owner, Stale(k, NDIRECT, IND)) && k in inodes && inodes[k].addrs[NDIRECT] != 0
      requires forall x | x in inodes :: x < sb.ninodes
      requires Dropped(owned, owner, k, IND) && OthersKept(was, had, disk, inodes, k)
      modifies this`disk, this`inodes, this`owner
      ensures Valid() && k in inodes && SameLow(sb, old(disk), disk)
      ensures inodes == old(inodes)[k := WithAddr(old(inodes)[k], NDIRECT, 0)]
      ensures Dropped(owned, owner, k, NSLOTS) && OthersKept(was, had, disk, inodes, k)
    {
      ghost var st := Stale(k, NDIRECT, IND);
      var ia := inodes[k].addrs[NDIRECT];
      IndirectPlaced(sb, disk, inodes, owner, st, k);
      var _ := Bfree(ia);
      IndirectFreed(sb, old(disk), inodes, owner, k, disk);
      DropOne(sb, old(disk), inodes, owner, st, k, IND, ia, owned);
      inodes := inodes[k := WithAddr(inodes[k], NDIRECT, 0)];
      MarkedOthers(was, had, sb, old(disk), old(inodes), owner, st, k, ia, disk, inodes);
      owner := owner - {ia};
    }

    /** One entry of the indirect block. */
    method FreeEntry(k: nat, j: nat, b: nat, ghost was: Disk, ghost had: Inodes, ghost owned: Owner)
      requires k in inodes && j < NINDIRECT && Owned(sb, disk, inodes, owner, Stale(k, NDIRECT, NDIRECT + j))
      requires b == SlotBlock(disk, inodes[k], NDIRECT + j) && OthersKept(was, had, disk, inodes, k)
      requires Dropped(owned, owner, k, NDIRECT + j)
      modifies this`disk, this`owner
      ensures Owned(sb, disk, inodes, owner, Stale(k, NDIRECT, NDIRECT + j + 1))
      ensures SameLow(sb, old(disk), disk) && OthersKept(was, had, disk, inodes, k)
      ensures Dropped(owned, owner, k, NDIRECT + j + 1)
    {
      ghost var st := Stale(k, NDIRECT, NDIRECT + j);
      if b == 0 {
        EntrySkipped(sb, disk, inodes, owner, k, j);
        NothingDropped(sb, disk, inodes, owner, st, k, NDIRECT + j, owned);
      } else {
        SlotPlaced(sb, disk, inodes, owner, st, k, NDIRECT + j);
        EntryDone(was, had, owned, sb, disk, inodes, owner, k, j, b, Mark(sb, disk, b, false));
        var _ := Bfree(b);
        owner := owner - {b};
      }
    }
  }
}
