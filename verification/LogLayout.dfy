/** On-disk format of the redo log (log.c), and what a disk means to crash recovery. */
module LogLayout {
  import opened Blocks

  const MAXOPBLOCKS: nat := 10
  const LOGSIZE: nat := 30

  type Disk = seq<Block>

  /** Where the log lies on the disk, as the superblock says, and the most blocks an operation logs. */
  datatype Layout = Layout(start: nat, size: nat, nblocks: nat, quota: nat) {
    ghost predicate Ok() {
      size >= 1 && start + size <= nblocks <= UINT_SIZE && quota <= MAXOPBLOCKS
    }

    /** The log is longer than any group of operations within their quota can make the list. */
    predicate Roomy() {
      size > Longest()
    }

    /** begin_op admits a second operation while ten blocks are listed, and a third only while none is. */
    function Longest(): nat {
      MAXOPBLOCKS + 2 * quota
    }

    /** A block that is neither the log header nor a log data block. */
    predicate Home(b: int) {
      0 <= b < nblocks && !(start <= b < start + size)
    }

    /** How many blocks one group commit may hold before log_write panics. */
    function Capacity(): int {
      if LOGSIZE < size - 1 then LOGSIZE else size - 1
    }
  }

  /** The block numbers a log header lists. */
  function Entries(h: Block): (lh: seq<uint>)
    requires Word(h, 0) <= LOGSIZE
    ensures |lh| == Word(h, 0)
  {
    seq(Word(h, 0), i requires 0 <= i < Word(h, 0) => Word(h, 1 + i))
  }

  /** The header block after the first `i` entries of `lh` were stored into it. */
  function PutEntries(h: Block, lh: seq<uint>, i: nat): Block
    requires i <= |lh| <= LOGSIZE
  {
    if i == 0 then h else SetWord(PutEntries(h, lh, i - 1), i, lh[i - 1])
  }

  /** What write_head puts into the header block: entries beyond the count keep stale values. */
  function HeadBlock(h: Block, lh: seq<uint>): Block
    requires |lh| <= LOGSIZE
  {
    PutEntries(SetWord(h, 0, |lh|), lh, |lh|)
  }

  lemma {:induction false} PutEntriesWords(h: Block, lh: seq<uint>, i: nat)
    requires i <= |lh| <= LOGSIZE
    ensures forall j: nat | j < NWORDS ::
              Word(PutEntries(h, lh, i), j) == if 1 <= j <= i then lh[j - 1] else Word(h, j)
  {
    if i > 0 {
      PutEntriesWords(h, lh, i - 1);
    }
  }

  /** Reading a header back gives the block numbers that were written. */
  lemma HeaderRoundTrip(h: Block, lh: seq<uint>)
    requires |lh| <= LOGSIZE
    ensures Word(HeadBlock(h, lh), 0) == |lh|
    ensures Entries(HeadBlock(h, lh)) == lh
  {
    PutEntriesWords(SetWord(h, 0, |lh|), lh, |lh|);
  }

  /** The last position below `k` where `lh` lists block `b`, or -1. */
  function SlotBelow(lh: seq<uint>, k: nat, b: nat): (i: int)
    requires k <= |lh|
    ensures -1 <= i < k
    ensures i >= 0 ==> lh[i] == b
    ensures forall j | i < j < k :: lh[j] != b
  {
    if k == 0 then -1
    else if lh[k - 1] == b then k - 1
    else SlotBelow(lh, k - 1, b)
  }

  function Slot(lh: seq<uint>, b: nat): int {
    SlotBelow(lh, |lh|, b)
  }

  ghost predicate Distinct(lh: seq<uint>) {
    forall i, j | 0 <= i < j < |lh| :: lh[i] != lh[j]
  }

  /** The entries name different home blocks, and the log has a data block for each of them. */
  ghost predicate EntriesOk(l: Layout, lh: seq<uint>) {
    |lh| <= LOGSIZE && |lh| < l.size && Distinct(lh) && forall i | 0 <= i < |lh| :: l.Home(lh[i])
  }

  /** A disk whose log header recovery can follow. */
  ghost predicate DiskOk(l: Layout, d: Disk) {
    l.Ok() && |d| == l.nblocks && Word(d[l.start], 0) <= LOGSIZE && EntriesOk(l, Entries(d[l.start]))
  }

  /** The entries of the header on disk: empty unless a transaction is committed. */
  function DiskEntries(l: Layout, d: Disk): seq<uint>
    requires DiskOk(l, d)
  {
    Entries(d[l.start])
  }

  /** What a reader finds in home block `b` once the log has been replayed over disk `d`. */
  function Replayed(l: Layout, d: Disk, b: nat): Block
    requires DiskOk(l, d) && l.Home(b)
  {
    var i := Slot(DiskEntries(l, d), b);
    if i >= 0 then d[l.start + 1 + i] else d[b]
  }

  /** Disk `d` stands for the file system contents `store`: a crash now would recover exactly those. */
  ghost predicate StandsFor(l: Layout, d: Disk, store: Disk) {
    DiskOk(l, d) && |store| == l.nblocks &&
    forall b | l.Home(b) :: Replayed(l, d, b) == store[b]
  }

  /** The home blocks of `d` hold `store`. */
  ghost predicate SameHome(l: Layout, d: Disk, store: Disk) {
    |d| == |store| == l.nblocks && forall b | l.Home(b) :: d[b] == store[b]
  }

  // What each kind of disk write does to the contents a disk stands for.

  /** A log data block is invisible to recovery while the header on disk is empty. */
  lemma LogDataWriteInvisible(l: Layout, d: Disk, store: Disk, i: nat, v: Block)
    requires StandsFor(l, d, store) && DiskEntries(l, d) == [] && i + 1 < l.size
    ensures StandsFor(l, d[l.start + 1 + i := v], store)
  {
    var d' := d[l.start + 1 + i := v];
    assert d'[l.start] == d[l.start];
    forall b | l.Home(b) ensures Replayed(l, d', b) == store[b] {
      assert Replayed(l, d, b) == store[b];
    }
  }

  /** Copying log slot `k` over its home block leaves what the disk stands for unchanged. */
  lemma InstallInvisible(l: Layout, d: Disk, store: Disk, k: nat)
    requires StandsFor(l, d, store) && k < |DiskEntries(l, d)|
    ensures StandsFor(l, d[DiskEntries(l, d)[k] := d[l.start + 1 + k]], store)
    ensures DiskEntries(l, d[DiskEntries(l, d)[k] := d[l.start + 1 + k]]) == DiskEntries(l, d)
  {
    var lh := DiskEntries(l, d);
    var d' := d[lh[k] := d[l.start + 1 + k]];
    assert l.Home(lh[k]);
    assert d'[l.start] == d[l.start];
    forall b | l.Home(b) ensures Replayed(l, d', b) == store[b] {
      assert Replayed(l, d, b) == store[b];
    }
  }

  /** Writing the header is the commit point: the disk now stands for the logged contents. */
  lemma HeadWriteCommits(l: Layout, d: Disk, lh: seq<uint>, h: Block, next: Disk)
    requires DiskOk(l, d) && EntriesOk(l, lh) && |next| == l.nblocks
    requires forall i | 0 <= i < |lh| :: d[l.start + 1 + i] == next[lh[i]]
    requires forall b | l.Home(b) && b !in lh :: d[b] == next[b]
    ensures StandsFor(l, d[l.start := HeadBlock(h, lh)], next)
    ensures DiskEntries(l, d[l.start := HeadBlock(h, lh)]) == lh
  {
    HeaderRoundTrip(h, lh);
    var d' := d[l.start := HeadBlock(h, lh)];
    assert DiskEntries(l, d') == lh;
    forall b | l.Home(b) ensures Replayed(l, d', b) == next[b] {
      var i := Slot(lh, b);
      if i < 0 {
        assert b !in lh;
      }
    }
  }

  /** Once the home blocks hold the contents, the header may be emptied. */
  lemma HeadClearKeeps(l: Layout, d: Disk, h: Block, store: Disk)
    requires DiskOk(l, d) && SameHome(l, d, store)
    ensures StandsFor(l, d[l.start := HeadBlock(h, [])], store)
    ensures DiskEntries(l, d[l.start := HeadBlock(h, [])]) == []
  {
    HeadWriteCommits(l, d, [], h, store);
  }

  /** With an empty header the home blocks are the contents. */
  lemma EmptyHeadMeansHome(l: Layout, d: Disk, store: Disk)
    requires DiskOk(l, d) && DiskEntries(l, d) == []
    ensures StandsFor(l, d, store) <==> SameHome(l, d, store)
  {
    forall b | l.Home(b) ensures |store| == l.nblocks ==> (Replayed(l, d, b) == store[b] <==> d[b] == store[b]) {
    }
    if SameHome(l, d, store) {
      forall b | l.Home(b) ensures Replayed(l, d, b) == store[b] {
      }
    }
    if StandsFor(l, d, store) {
      forall b | l.Home(b) ensures d[b] == store[b] {
        assert Replayed(l, d, b) == store[b];
      }
    }
  }
}
