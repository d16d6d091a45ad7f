/** Who owns which disk block, and what bytes a file holds (fs.c: bitmap, bmap, itrunc). */
module FsOwner {
  import opened Blocks
  import opened FsLayout

  /**
   Positions in an inode that can name a block: 12 direct, 128 in the indirect block, and the indirect block itself.
   */
  const IND: nat := 140
  const NSLOTS: nat := 141

  type Inodes = map<nat, INode>

  /** Each block in use beyond the metadata, with the inode and slot that name it. */
  type Owner = map<nat, (nat, nat)>

  /** The block named by slot `s` of an inode, or 0. */
  function SlotBlock(disk: Disk, n: INode, s: nat): nat
    requires s < NSLOTS
  {
    if s < NDIRECT then n.addrs[s]
    else if s == IND then n.addrs[NDIRECT]
    else if n.addrs[NDIRECT] == 0 || n.addrs[NDIRECT] >= |disk| then 0
    else Word(disk[n.addrs[NDIRECT]], s - NDIRECT)
  }

  /** Slots of inode `k` from `lo` up to `hi` may be stale: their blocks were already given back. */
  datatype Stale = Stale(k: nat, lo: nat, hi: nat) {
    predicate Has(i: nat, s: nat) {
      i == k && lo <= s < hi
    }
  }

  const NONE: Stale := Stale(0, 0, 0)

  /** An owned block is a data block, and the slot that owns it names it. */
  ghost predicate OwnersName(sb: Super, disk: Disk, inodes: Inodes, owner: Owner, st: Stale) {
    forall b | b in owner ::
      sb.meta <= b < sb.size && owner[b].0 in inodes && owner[b].1 < NSLOTS && !st.Has(owner[b].0, owner[b].1) &&
      SlotBlock(disk, inodes[owner[b].0], owner[b].1) == b
  }

  /** Every block a slot names is owned by that slot: no block is named twice. */
  ghost predicate NamesOwned(disk: Disk, inodes: Inodes, owner: Owner, st: Stale) {
    forall k, s: nat | k in inodes && s < NSLOTS && !st.Has(k, s) :: NameOwned(disk, inodes[k], owner, k, s)
  }

  predicate NameOwned(disk: Disk, n: INode, owner: Owner, k: nat, s: nat)
    requires s < NSLOTS
  {
    var b := SlotBlock(disk, n, s);
    b != 0 ==> b in owner && owner[b] == (k, s)
  }

  /** The set bits are the metadata and the owned blocks. */
  ghost predicate BitmapExact(sb: Super, disk: Disk, owner: Owner)
    requires sb.Ok() && |disk| == sb.size
  {
    forall b: nat | b < sb.size :: Used(sb, disk, b) <==> b < sb.meta || b in owner
  }

  ghost predicate Owned(sb: Super, disk: Disk, inodes: Inodes, owner: Owner, st: Stale) {
    sb.Ok() && |disk| == sb.size &&
    OwnersName(sb, disk, inodes, owner, st) && NamesOwned(disk, inodes, owner, st) && BitmapExact(sb, disk, owner)
  }

  /** Only indirect slots may be stale. */
  predicate StaleOk(st: Stale) {
    st.lo == st.hi || (NDIRECT <= st.lo <= st.hi <= IND)
  }

  /** An indirect block lies beyond the metadata. */
  lemma IndirectPlaced(sb: Super, disk: Disk, inodes: Inodes, owner: Owner, st: Stale, k: nat)
    requires Owned(sb, disk, inodes, owner, st) && StaleOk(st) && k in inodes && inodes[k].addrs[NDIRECT] != 0
    ensures var b := inodes[k].addrs[NDIRECT]; b in owner && owner[b] == (k, IND) && sb.meta <= b < sb.size
  {
    assert NameOwned(disk, inodes[k], owner, k, IND);
  }

  /** Changing no indirect block changes no slot. */
  lemma SameSlots(disk: Disk, now: Disk, n: INode)
    requires |now| == |disk|
    requires n.addrs[NDIRECT] != 0 && n.addrs[NDIRECT] < |disk| ==> now[n.addrs[NDIRECT]] == disk[n.addrs[NDIRECT]]
    ensures forall s | 0 <= s < NSLOTS :: SlotBlock(now, n, s) == SlotBlock(disk, n, s)
  {
  }

  /** Writes to the metadata, or to data blocks that are no indirect block, leave every slot alone. */
  lemma SlotsKept(sb: Super, disk: Disk, now: Disk, inodes: Inodes, owner: Owner, st: Stale)
    requires Owned(sb, disk, inodes, owner, st) && StaleOk(st) && |now| == |disk|
    requires forall b | 0 <= b < |disk| && b in owner && owner[b].1 == IND :: now[b] == disk[b]
    ensures forall k, s: nat | k in inodes && s < NSLOTS ::
              SlotBlock(now, inodes[k], s) == SlotBlock(disk, inodes[k], s)
  {
    forall k, s: nat | k in inodes && s < NSLOTS
      ensures SlotBlock(now, inodes[k], s) == SlotBlock(disk, inodes[k], s)
    {
      if inodes[k].addrs[NDIRECT] != 0 {
        IndirectPlaced(sb, disk, inodes, owner, st, k);
      }
      SameSlots(disk, now, inodes[k]);
    }
  }

  // --- What a file holds ---

  function FileByte(disk: Disk, n: INode, i: nat): byte
    requires i < MAXFILE * BSIZE
  {
    var b := SlotBlock(disk, n, i / BSIZE);
    if b == 0 || b >= |disk| then 0 else disk[b][i % BSIZE]
  }

  function Contents(disk: Disk, n: INode): (r: seq<byte>)
    requires n.size <= MAXFILE * BSIZE
    ensures |r| == n.size
    ensures forall i | 0 <= i < n.size :: r[i] == FileByte(disk, n, i)
  {
    seq<byte>(n.size, i requires 0 <= i < n.size => FileByte(disk, n, i))
  }

  /** Every block below the size is there. */
  ghost predicate NoHoles(disk: Disk, n: INode) {
    n.size <= MAXFILE * BSIZE && forall s: nat | s < MAXFILE && s * BSIZE < n.size :: SlotBlock(disk, n, s) != 0
  }

  /** No byte of any file differs. */
  ghost predicate SameBytes(disk: Disk, inodes: Inodes, now: Disk, later: Inodes) {
    inodes.Keys == later.Keys &&
    forall k, i: nat | k in inodes && i < MAXFILE * BSIZE :: FileByte(now, later[k], i) == FileByte(disk, inodes[k], i)
  }

  /** Slots once filled stay as they are. */
  ghost predicate SlotsGrow(disk: Disk, inodes: Inodes, now: Disk, later: Inodes) {
    inodes.Keys == later.Keys &&
    forall k, s: nat | k in inodes && s < NSLOTS && SlotBlock(disk, inodes[k], s) != 0 ::
      SlotBlock(now, later[k], s) == SlotBlock(disk, inodes[k], s)
  }

  // --- Allocation ---

  function Zeroed(disk: Disk, b: nat): Disk
    requires b < |disk|
  {
    disk[b := ZeroBlock()]
  }

  /** The disk after balloc chose block `b`: its bit set, its contents zero. */
  function Allocated(sb: Super, disk: Disk, b: nat): Disk
    requires sb.Ok() && |disk| == sb.size && b < sb.size
  {
    Zeroed(Mark(sb, disk, b, true), b)
  }

  lemma AllocatedBits(sb: Super, disk: Disk, b: nat, c: nat)
    requires sb.Ok() && |disk| == sb.size && sb.meta <= b < sb.size && c < sb.size
    ensures Used(sb, Allocated(sb, disk, b), c) <==> Used(sb, disk, c) || c == b
  {
    MarkReads(sb, disk, b, true, c);
  }

  /** A free block is named by no slot, and allocating it moves no slot. */
  lemma AllocatedSlots(sb: Super, disk: Disk, inodes: Inodes, owner: Owner, b: nat)
    requires Owned(sb, disk, inodes, owner, NONE) && b < sb.size && !Used(sb, disk, b)
    ensures sb.meta <= b && b !in owner
    ensures forall k, s: nat | k in inodes && s < NSLOTS ::
              SlotBlock(Allocated(sb, disk, b), inodes[k], s) == SlotBlock(disk, inodes[k], s)
    ensures forall k, s: nat | k in inodes && s < NSLOTS :: SlotBlock(disk, inodes[k], s) != b
  {
    var now := Allocated(sb, disk, b);
    forall c | 0 <= c < |disk| && c in owner && owner[c].1 == IND
      ensures now[c] == disk[c]
    {
      assert sb.BBlock(b) < sb.meta;
    }
    SlotsKept(sb, disk, now, inodes, owner, NONE);
    forall k, s: nat | k in inodes && s < NSLOTS
      ensures SlotBlock(disk, inodes[k], s) != b
    {
      assert NameOwned(disk, inodes[k], owner, k, s);
    }
  }

  // --- Putting a new block into a slot ---

  /** Slot `s` of inode `k` went from empty to `b`; no other slot changed. */
  ghost predicate Placed(disk: Disk, inodes: Inodes, now: Disk, later: Inodes, k: nat, s: nat, b: nat) {
    inodes.Keys == later.Keys && k in inodes && s < NSLOTS && SlotBlock(disk, inodes[k], s) == 0 &&
    forall i, j: nat | i in inodes && j < NSLOTS ::
      SlotBlock(now, later[i], j) == if i == k && j == s then b else SlotBlock(disk, inodes[i], j)
  }

  /** What a bmap that allocates does to the disk: the bit, a zeroed block, and at most one indirect block. */
  ghost predicate Grown(sb: Super, disk: Disk, now: Disk, owner: Owner, b: nat)
    requires sb.Ok() && |disk| == sb.size && |now| == sb.size && b < sb.size
  {
    (forall c: nat | c < sb.size :: Used(sb, now, c) <==> Used(sb, disk, c) || c == b) &&
    (forall c | 0 <= c < |disk| && c in owner && owner[c].1 != IND :: now[c] == disk[c]) &&
    now[b] == ZeroBlock()
  }

  /** The block ownership survives, with the new block owned by the slot that names it. */
  lemma PlacedOwned(sb: Super, disk: Disk, inodes: Inodes, owner: Owner, now: Disk, later: Inodes, k: nat, s: nat,
                    b: nat)
    requires Owned(sb, disk, inodes, owner, NONE) && 0 < b < sb.size && !Used(sb, disk, b)
    requires Placed(disk, inodes, now, later, k, s, b) && |now| == sb.size && Grown(sb, disk, now, owner, b)
    ensures Owned(sb, now, later, owner[b := (k, s)], NONE)
  {
    var more := owner[b := (k, s)];
    AllocatedSlots(sb, disk, inodes, owner, b);
    forall i, j: nat | i in later && j < NSLOTS && !NONE.Has(i, j)
      ensures NameOwned(now, later[i], more, i, j)
    {
      assert NameOwned(disk, inodes[i], owner, i, j);
    }
    assert OwnersName(sb, now, later, more, NONE);
  }

  /** A hole and a freshly allocated block read the same, so no byte of any file changed. */
  lemma PlacedBytes(sb: Super, disk: Disk, inodes: Inodes, owner: Owner, now: Disk, later: Inodes, k: nat, s: nat,
                    b: nat)
    requires Owned(sb, disk, inodes, owner, NONE) && 0 < b < sb.size && !Used(sb, disk, b)
    requires Placed(disk, inodes, now, later, k, s, b) && |now| == sb.size && Grown(sb, disk, now, owner, b)
    ensures SameBytes(disk, inodes, now, later) && SlotsGrow(disk, inodes, now, later)
  {
    forall i, j: nat | i in inodes && j < MAXFILE * BSIZE
      ensures FileByte(now, later[i], j) == FileByte(disk, inodes[i], j)
    {
      assert NameOwned(disk, inodes[i], owner, i, j / BSIZE);
    }
  }

  /** The free blocks. */
  ghost function Spare(sb: Super, disk: Disk): set<nat>
    requires sb.Ok() && |disk| == sb.size
  {
    set b: nat | b < sb.size && !Used(sb, disk, b)
  }

  lemma SpareLess(sb: Super, disk: Disk, now: Disk, owner: Owner, b: nat)
    requires sb.Ok() && |disk| == sb.size && |now| == sb.size && b < sb.size && Grown(sb, disk, now, owner, b)
    ensures Spare(sb, now) == Spare(sb, disk) - {b}
  {
  }

  function WithAddr(n: INode, i: nat, b: uint): INode
    requires i < 13
  {
    n.(addrs := n.addrs[i := b])
  }

  lemma AllocatedGrown(sb: Super, disk: Disk, inodes: Inodes, owner: Owner, b: nat)
    requires Owned(sb, disk, inodes, owner, NONE) && b < sb.size && !Used(sb, disk, b)
    ensures Grown(sb, disk, Allocated(sb, disk, b), owner, b)
  {
    AllocatedSlots(sb, disk, inodes, owner, b);
    forall c: nat | c < sb.size
      ensures Used(sb, Allocated(sb, disk, b), c) <==> Used(sb, disk, c) || c == b
    {
      AllocatedBits(sb, disk, b, c);
    }
    assert sb.BBlock(b) < sb.meta;
  }

  /** A new block in one of the 13 addresses; as an indirect block its zeroes name nothing. */
  lemma AddrPlaced(sb: Super, disk: Disk, inodes: Inodes, owner: Owner, k: nat, i: nat, b: uint)
    requires Owned(sb, disk, inodes, owner, NONE) && b < sb.size && !Used(sb, disk, b)
    requires k in inodes && i < 13 && inodes[k].addrs[i] == 0
    ensures Placed(disk, inodes, Allocated(sb, disk, b), inodes[k := WithAddr(inodes[k], i, b)],
                   k, if i == NDIRECT then IND else i, b)
  {
    AllocatedSlots(sb, disk, inodes, owner, b);
    var now := Allocated(sb, disk, b);
    var n := WithAddr(inodes[k], i, b);
    forall j: nat | j < NSLOTS
      ensures SlotBlock(now, n, j) ==
              if j == (if i == NDIRECT then IND else i) then b else SlotBlock(disk, inodes[k], j)
    {
      assert SlotBlock(now, inodes[k], j) == SlotBlock(disk, inodes[k], j);
    }
  }

  /** The indirect block with one entry filled in. */
  function WithEntry(disk: Disk, ia: nat, j: nat, b: uint): Disk
    requires ia < |disk| && j < NINDIRECT
  {
    disk[ia := SetWord(disk[ia], j, b)]
  }

  lemma EntryPlaced(sb: Super, disk: Disk, inodes: Inodes, owner: Owner, k: nat, j: nat, b: uint)
    requires Owned(sb, disk, inodes, owner, NONE) && b < sb.size && !Used(sb, disk, b)
    requires k in inodes && j < NINDIRECT && inodes[k].addrs[NDIRECT] != 0 &&
             SlotBlock(disk, inodes[k], NDIRECT + j) == 0
    ensures var ia := inodes[k].addrs[NDIRECT];
            ia < |disk| && ia != b && Allocated(sb, disk, b)[ia] == disk[ia] &&
            Placed(disk, inodes, WithEntry(Allocated(sb, disk, b), ia, j, b), inodes, k, NDIRECT + j, b)
  {
    var ia := inodes[k].addrs[NDIRECT];
    IndirectPlaced(sb, disk, inodes, owner, NONE, k);
    AllocatedSlots(sb, disk, inodes, owner, b);
    var mid := Allocated(sb, disk, b);
    assert sb.BBlock(b) < sb.meta;
    var now := WithEntry(mid, ia, j, b);
    forall i, s: nat | i in inodes && s < NSLOTS
      ensures SlotBlock(now, inodes[i], s) == if i == k && s == NDIRECT + j then b else SlotBlock(disk, inodes[i], s)
    {
      assert SlotBlock(mid, inodes[i], s) == SlotBlock(disk, inodes[i], s);
      if i != k && inodes[i].addrs[NDIRECT] != 0 {
        IndirectPlaced(sb, disk, inodes, owner, NONE, i);
        SameSlots(mid, now, inodes[i]);
      }
    }
  }

  lemma EntryGrown(sb: Super, disk: Disk, inodes: Inodes, owner: Owner, k: nat, j: nat, b: uint)
    requires Owned(sb, disk, inodes, owner, NONE) && b < sb.size && !Used(sb, disk, b)
    requires k in inodes && j < NINDIRECT && inodes[k].addrs[NDIRECT] != 0
    requires inodes[k].addrs[NDIRECT] < |disk| && inodes[k].addrs[NDIRECT] != b
    ensures Grown(sb, disk, WithEntry(Allocated(sb, disk, b), inodes[k].addrs[NDIRECT], j, b), owner, b)
  {
    AllocatedGrown(sb, disk, inodes, owner, b);
    IndirectPlaced(sb, disk, inodes, owner, NONE, k);
    var ia := inodes[k].addrs[NDIRECT];
    var mid := Allocated(sb, disk, b);
    var now := WithEntry(mid, ia, j, b);
    forall c: nat | c < sb.size
      ensures Used(sb, now, c) == Used(sb, mid, c)
    {
      assert sb.BBlock(c) < sb.meta;
    }
  }

  /** Filling an empty indirect entry keeps the ownership, every byte and every other slot. */
  lemma EntryKept(sb: Super, disk: Disk, inodes: Inodes, owner: Owner, k: nat, j: nat, b: uint)
    requires Owned(sb, disk, inodes, owner, NONE) && b < sb.size && !Used(sb, disk, b)
    requires k in inodes && j < NINDIRECT && inodes[k].addrs[NDIRECT] != 0 &&
             SlotBlock(disk, inodes[k], NDIRECT + j) == 0
    ensures b != 0 && inodes[k].addrs[NDIRECT] < |disk| && sb.bmapstart <= inodes[k].addrs[NDIRECT]
    ensures var now := WithEntry(Allocated(sb, disk, b), inodes[k].addrs[NDIRECT], j, b);
            Owned(sb, now, inodes, owner[b := (k, NDIRECT + j)], NONE) &&
            SameBytes(disk, inodes, now, inodes) && SlotsGrow(disk, inodes, now, inodes) &&
            Placed(disk, inodes, now, inodes, k, NDIRECT + j, b) && Spare(sb, now) == Spare(sb, disk) - {b}
    ensures forall c | 0 <= c < sb.bmapstart ::
              WithEntry(Allocated(sb, disk, b), inodes[k].addrs[NDIRECT], j, b)[c] == disk[c]
  {
    var ia := inodes[k].addrs[NDIRECT];
    AllocatedSlots(sb, disk, inodes, owner, b);
    EntryPlaced(sb, disk, inodes, owner, k, j, b);
    EntryGrown(sb, disk, inodes, owner, k, j, b);
    IndirectPlaced(sb, disk, inodes, owner, NONE, k);
    var now := WithEntry(Allocated(sb, disk, b), ia, j, b);
    PlacedOwned(sb, disk, inodes, owner, now, inodes, k, NDIRECT + j, b);
    PlacedBytes(sb, disk, inodes, owner, now, inodes, k, NDIRECT + j, b);
    SpareLess(sb, disk, now, owner, b);
  }

  // --- Writing data ---

  /** Overwriting the block of one slot moves no slot and no bit. */
  lemma DataKeepsOwned(sb: Super, disk: Disk, inodes: Inodes, owner: Owner, k: nat, s: nat, b: nat, blk: Block)
    requires Owned(sb, disk, inodes, owner, NONE) && k in inodes && s < MAXFILE
    requires b == SlotBlock(disk, inodes[k], s) != 0
    ensures sb.meta <= b < |disk| && Owned(sb, disk[b := blk], inodes, owner, NONE)
    ensures Spare(sb, disk[b := blk]) == Spare(sb, disk)
    ensures forall i, j: nat | i in inodes && j < NSLOTS ::
              SlotBlock(disk[b := blk], inodes[i], j) == SlotBlock(disk, inodes[i], j)
  {
    assert NameOwned(disk, inodes[k], owner, k, s);
    var now := disk[b := blk];
    SlotsKept(sb, disk, now, inodes, owner, NONE);
    forall i, j: nat | i in inodes && j < NSLOTS && !NONE.Has(i, j)
      ensures NameOwned(now, inodes[i], owner, i, j)
    {
      assert NameOwned(disk, inodes[i], owner, i, j);
    }
    forall c: nat | c < sb.size
      ensures Used(sb, now, c) == Used(sb, disk, c)
    {
      assert sb.BBlock(c) < sb.meta;
    }
    assert OwnersName(sb, now, inodes, owner, NONE);
  }

  /** It changes the bytes under that slot and no other byte of any file. */
  lemma DataWritten(sb: Super, disk: Disk, inodes: Inodes, owner: Owner, k: nat, s: nat, b: nat, blk: Block, i: nat,
                    j: nat)
    requires Owned(sb, disk, inodes, owner, NONE) && k in inodes && s < MAXFILE
    requires b == SlotBlock(disk, inodes[k], s) != 0
    requires i in inodes && j < MAXFILE * BSIZE
    ensures b < |disk| && FileByte(disk[b := blk], inodes[i], j) ==
            if i == k && j / BSIZE == s then blk[j % BSIZE] else FileByte(disk, inodes[i], j)
  {
    DataKeepsOwned(sb, disk, inodes, owner, k, s, b, blk);
    assert NameOwned(disk, inodes[k], owner, k, s);
    assert NameOwned(disk, inodes[i], owner, i, j / BSIZE);
  }

  // --- Giving blocks back ---

  /** The bit of an owned block cleared and the block no longer owned. */
  ghost predicate Released(sb: Super, disk: Disk, now: Disk, owner: Owner, b: nat)
    requires sb.Ok() && |disk| == sb.size
  {
    b in owner && sb.meta <= b < sb.size && now == Mark(sb, disk, b, false)
  }

  lemma ReleasedBits(sb: Super, disk: Disk, now: Disk, owner: Owner, b: nat)
    requires sb.Ok() && |disk| == sb.size && BitmapExact(sb, disk, owner) && Released(sb, disk, now, owner, b)
    ensures Used(sb, disk, b) && BitmapExact(sb, now, owner - {b})
  {
    forall c: nat | c < sb.size
      ensures Used(sb, now, c) <==> c < sb.meta || c in owner - {b}
    {
      MarkReads(sb, disk, b, false, c);
    }
  }

  lemma ReleasedSlots(sb: Super, disk: Disk, inodes: Inodes, now: Disk, owner: Owner, st: Stale, b: nat)
    requires Owned(sb, disk, inodes, owner, st) && StaleOk(st) && Released(sb, disk, now, owner, b)
    ensures forall k, s: nat | k in inodes && s < NSLOTS ::
              SlotBlock(now, inodes[k], s) == SlotBlock(disk, inodes[k], s)
  {
    forall c | 0 <= c < |disk| && c in owner && owner[c].1 == IND
      ensures now[c] == disk[c]
    {
      assert sb.BBlock(b) < sb.meta;
    }
    SlotsKept(sb, disk, now, inodes, owner, st);
  }

  /** itrunc frees a direct block and clears its address. */
  lemma DirectFreed(sb: Super, disk: Disk, inodes: Inodes, owner: Owner, k: nat, i: nat, now: Disk)
    requires Owned(sb, disk, inodes, owner, NONE) && k in inodes && i < NDIRECT && 0 < inodes[k].addrs[i] < sb.size
    requires now == Mark(sb, disk, inodes[k].addrs[i], false)
    ensures Owned(sb, now, inodes[k := WithAddr(inodes[k], i, 0)], owner - {inodes[k].addrs[i]}, NONE)
  {
    var b := inodes[k].addrs[i];
    var later := inodes[k := WithAddr(inodes[k], i, 0)];
    assert NameOwned(disk, inodes[k], owner, k, i);
    ReleasedBits(sb, disk, now, owner, b);
    ReleasedSlots(sb, disk, inodes, now, owner, NONE, b);
    forall x, s: nat | x in later && s < NSLOTS
      ensures SlotBlock(now, later[x], s) == if x == k && s == i then 0 else SlotBlock(disk, inodes[x], s)
    {
      assert SlotBlock(now, inodes[x], s) == SlotBlock(disk, inodes[x], s);
    }
    FreedOwned(sb, disk, inodes, owner, NONE, now, later, NONE, k, i, b);
  }

  /** The common part: every slot but the freed one is as before. */
  lemma FreedOwned(sb: Super, disk: Disk, inodes: Inodes, owner: Owner, st: Stale, now: Disk, later: Inodes, st': Stale,
                   k: nat, i: nat, b: nat)
    requires Owned(sb, disk, inodes, owner, st) && b in owner && owner[b] == (k, i)
    requires |now| == sb.size && BitmapExact(sb, now, owner - {b}) && later.Keys == inodes.Keys
    requires forall x, s: nat | x in inodes && s < NSLOTS && !(x == k && s == i) ::
               SlotBlock(now, later[x], s) == SlotBlock(disk, inodes[x], s)
    requires forall x, s: nat | x in inodes && s < NSLOTS && !st'.Has(x, s) ::
               (!st.Has(x, s) && !(x == k && s == i)) || SlotBlock(now, later[x], s) == 0
    requires forall x, s: nat | st'.Has(x, s) :: st.Has(x, s) || (x == k && s == i)
    ensures Owned(sb, now, later, owner - {b}, st')
  {
    var less := owner - {b};
    forall x, s: nat | x in later && s < NSLOTS && !st'.Has(x, s)
      ensures NameOwned(now, later[x], less, x, s)
    {
      if SlotBlock(now, later[x], s) != 0 {
        assert NameOwned(disk, inodes[x], owner, x, s);
      }
    }
  }

  /**
   itrunc frees the block of an indirect entry; the entry itself stays, stale, until the whole indirect block goes.
   */
  lemma EntryFreed(sb: Super, disk: Disk, inodes: Inodes, owner: Owner, k: nat, j: nat, now: Disk)
    requires Owned(sb, disk, inodes, owner, Stale(k, NDIRECT, NDIRECT + j)) && k in inodes && j < NINDIRECT
    requires var b := SlotBlock(disk, inodes[k], NDIRECT + j);
             b != 0 && b < sb.size && now == Mark(sb, disk, b, false)
    ensures Owned(sb, now, inodes, owner - {SlotBlock(disk, inodes[k], NDIRECT + j)},
                  Stale(k, NDIRECT, NDIRECT + j + 1))
    ensures forall s | 0 <= s < NSLOTS :: SlotBlock(now, inodes[k], s) == SlotBlock(disk, inodes[k], s)
  {
    var st, st' := Stale(k, NDIRECT, NDIRECT + j), Stale(k, NDIRECT, NDIRECT + j + 1);
    var b := SlotBlock(disk, inodes[k], NDIRECT + j);
    assert NameOwned(disk, inodes[k], owner, k, NDIRECT + j);
    ReleasedBits(sb, disk, now, owner, b);
    ReleasedSlots(sb, disk, inodes, now, owner, st, b);
    FreedOwned(sb, disk, inodes, owner, st, now, inodes, st', k, NDIRECT + j, b);
  }

  lemma EntrySkipped(sb: Super, disk: Disk, inodes: Inodes, owner: Owner, k: nat, j: nat)
    requires Owned(sb, disk, inodes, owner, Stale(k, NDIRECT, NDIRECT + j)) && k in inodes && j < NINDIRECT
    requires SlotBlock(disk, inodes[k], NDIRECT + j) == 0
    ensures Owned(sb, disk, inodes, owner, Stale(k, NDIRECT, NDIRECT + j + 1))
  {
  }

  /** With every entry given back, the indirect block goes last and takes the stale entries with it. */
  lemma IndirectFreed(sb: Super, disk: Disk, inodes: Inodes, owner: Owner, k: nat, now: Disk)
    requires Owned(sb, disk, inodes, owner, Stale(k, NDIRECT, IND)) && k in inodes && inodes[k].addrs[NDIRECT] != 0
    requires inodes[k].addrs[NDIRECT] < sb.size && now == Mark(sb, disk, inodes[k].addrs[NDIRECT], false)
    ensures Owned(sb, now, inodes[k := WithAddr(inodes[k], NDIRECT, 0)], owner - {inodes[k].addrs[NDIRECT]}, NONE)
  {
    var st := Stale(k, NDIRECT, IND);
    var b := inodes[k].addrs[NDIRECT];
    var later := inodes[k := WithAddr(inodes[k], NDIRECT, 0)];
    IndirectPlaced(sb, disk, inodes, owner, st, k);
    ReleasedBits(sb, disk, now, owner, b);
    ReleasedSlots(sb, disk, inodes, now, owner, st, b);
    TruncOwned(sb, disk, inodes, owner, now, later, k, b);
  }

  lemma TruncOwned(sb: Super, disk: Disk, inodes: Inodes, owner: Owner, now: Disk, later: Inodes, k: nat, b: nat)
    requires Owned(sb, disk, inodes, owner, Stale(k, NDIRECT, IND)) && k in inodes
    requires b != 0 && b == inodes[k].addrs[NDIRECT] && b in owner && owner[b] == (k, IND)
    requires later == inodes[k := WithAddr(inodes[k], NDIRECT, 0)]
    requires |now| == sb.size && BitmapExact(sb, now, owner - {b})
    requires forall x, s: nat | x in inodes && s < NSLOTS ::
               SlotBlock(now, inodes[x], s) == SlotBlock(disk, inodes[x], s)
    ensures Owned(sb, now, later, owner - {b}, NONE)
  {
    var less := owner - {b};
    forall x, s: nat | x in later && s < NSLOTS
      ensures NameOwned(now, later[x], less, x, s)
    {
      if x != k || s < NDIRECT {
        assert SlotBlock(now, inodes[x], s) == SlotBlock(disk, inodes[x], s);
        assert NameOwned(disk, inodes[x], owner, x, s);
      }
    }
    assert OwnersName(sb, now, later, less, NONE);
  }
}
