/** The on-disk format of the file system: bitmap bits and inodes packed into blocks (fs.h, fs.c). */
module FsLayout {
  import opened Blocks

  const BPB: nat := 4096
  const IPB: nat := 8
  const NDIRECT: nat := 12
  const NINDIRECT: nat := 128
  const MAXFILE: nat := 140
  const T_DEV: nat := 3

  type Disk = seq<Block>

  type ushort = x: int | 0 <= x < 0x1_0000

  type Addrs = a: seq<uint> | |a| == 13 witness seq(13, i => 0)

  /** An inode's fields, on disk or in memory; the shorts as their 16-bit patterns. */
  datatype INode = INode(kind: ushort, major: ushort, minor: ushort, nlink: ushort, size: uint, addrs: Addrs)

  /** The superblock fields in use; the blocks below `meta` hold boot, log, inodes and bitmap. */
  datatype Super = Super(size: nat, ninodes: nat, inodestart: nat, bmapstart: nat, meta: nat) {
    ghost predicate Ok() {
      1 <= size < UINT_SIZE && inodestart + ninodes / IPB < bmapstart && bmapstart + size / BPB < meta <= size
    }

    function IBlock(k: nat): nat {
      k / IPB + inodestart
    }

    function BBlock(b: nat): nat {
      b / BPB + bmapstart
    }
  }

  // --- Bits ---

  /** Bit `k` of a byte, counted from the low end. */
  predicate Bit(x: nat, k: nat) {
    if k == 0 then x % 2 == 1 else Bit(x / 2, k - 1)
  }

  /** `x |= 1 << k` or `x &= ~(1 << k)`. */
  function PutBit(x: nat, k: nat, v: bool): nat {
    if k == 0 then x / 2 * 2 + (if v then 1 else 0) else PutBit(x / 2, k - 1, v) * 2 + x % 2
  }

  lemma {:induction false} PutBitReads(x: nat, k: nat, v: bool, j: nat)
    ensures Bit(PutBit(x, k, v), j) == if j == k then v else Bit(x, j)
    decreases k
  {
    if k > 0 && j > 0 {
      PutBitReads(x / 2, k - 1, v, j - 1);
    }
  }

  /** A byte stays a byte. */
  lemma {:induction false} PutBitBound(x: nat, k: nat, v: bool, size: nat, w: nat)
    requires k < w && size == Pow2(w) && x < size
    ensures PutBit(x, k, v) < size
    decreases w
  {
    if k > 0 {
      PutBitBound(x / 2, k - 1, v, Pow2(w - 1), w - 1);
    }
  }

  function Pow2(n: nat): nat {
    if n == 0 then 1 else 2 * Pow2(n - 1)
  }

  predicate BlockBit(b: Block, i: nat)
    requires i < BPB
  {
    Bit(b[i / 8], i % 8)
  }

  function PutBlockBit(b: Block, i: nat, v: bool): Block
    requires i < BPB
  {
    assert Pow2(8) == 256;
    PutBitBound(b[i / 8], i % 8, v, 256, 8);
    b[i / 8 := PutBit(b[i / 8], i % 8, v)]
  }

  lemma PutBlockBitReads(b: Block, i: nat, v: bool, j: nat)
    requires i < BPB && j < BPB
    ensures BlockBit(PutBlockBit(b, i, v), j) == if j == i then v else BlockBit(b, j)
  {
    PutBitReads(b[i / 8], i % 8, v, j % 8);
    assert i / 8 == j / 8 && i % 8 == j % 8 ==> i == j;
  }

  // --- The bitmap ---

  predicate Used(sb: Super, disk: Disk, b: nat)
    requires sb.Ok() && |disk| == sb.size && b < sb.size
  {
    BlockBit(disk[sb.BBlock(b)], b % BPB)
  }

  /** The bitmap with block `b`'s bit changed. */
  function Mark(sb: Super, disk: Disk, b: nat, v: bool): (r: Disk)
    requires sb.Ok() && |disk| == sb.size && b < sb.size
    ensures |r| == |disk|
    ensures forall c | 0 <= c < |disk| && c != sb.BBlock(b) :: r[c] == disk[c]
  {
    disk[sb.BBlock(b) := PutBlockBit(disk[sb.BBlock(b)], b % BPB, v)]
  }

  lemma MarkReads(sb: Super, disk: Disk, b: nat, v: bool, c: nat)
    requires sb.Ok() && |disk| == sb.size && b < sb.size && c < sb.size
    ensures Used(sb, Mark(sb, disk, b, v), c) == if c == b then v else Used(sb, disk, c)
  {
    if sb.BBlock(b) == sb.BBlock(c) {
      PutBlockBitReads(disk[sb.BBlock(b)], b % BPB, v, c % BPB);
      assert b / BPB == c / BPB && b % BPB == c % BPB ==> b == c;
    }
  }

  // --- Inodes in their blocks: 16 words each ---

  function InodeWord(n: INode, j: nat): uint
    requires j < 16
  {
    if j == 0 then n.kind + 0x1_0000 * n.major
    else if j == 1 then n.minor + 0x1_0000 * n.nlink
    else if j == 2 then n.size
    else n.addrs[j - 3]
  }

  function GetAddrs(b: Block, i: nat): (a: seq<uint>)
    requires i < IPB
    ensures |a| == 13
  {
    seq<uint>(13, j requires 0 <= j < 13 => Word(b, 16 * i + 3 + j))
  }

  /** The i-th inode of a block. */
  function GetInode(b: Block, i: nat): INode
    requires i < IPB
  {
    var w0, w1 := Word(b, 16 * i), Word(b, 16 * i + 1);
    INode(w0 % 0x1_0000, w0 / 0x1_0000, w1 % 0x1_0000, w1 / 0x1_0000, Word(b, 16 * i + 2),
          GetAddrs(b, i))
  }

  /** A block after the first `m` words of inode `n` were stored into its i-th place. */
  function PutInode(b: Block, i: nat, n: INode, m: nat): Block
    requires i < IPB && m <= 16
  {
    if m == 0 then b else SetWord(PutInode(b, i, n, m - 1), 16 * i + m - 1, InodeWord(n, m - 1))
  }

  lemma {:induction false} PutInodeWords(b: Block, i: nat, n: INode, m: nat, j: nat)
    requires i < IPB && m <= 16 && j < NWORDS
    ensures Word(PutInode(b, i, n, m), j) == if 16 * i <= j < 16 * i + m then InodeWord(n, j - 16 * i) else Word(b, j)
    decreases m
  {
    if m > 0 {
      PutInodeWords(b, i, n, m - 1, j);
    }
  }

  lemma SameWords(b: Block, c: Block, i: nat)
    requires i < IPB && forall j: nat | 16 * i <= j < 16 * i + 16 :: Word(b, j) == Word(c, j)
    ensures GetInode(b, i) == GetInode(c, i)
  {
    assert GetAddrs(b, i) == GetAddrs(c, i);
  }

  lemma Halves(lo: ushort, hi: ushort)
    ensures (lo + 0x1_0000 * hi) % 0x1_0000 == lo && (lo + 0x1_0000 * hi) / 0x1_0000 == hi
  {
  }

  lemma OwnWords(b: Block, i: nat, n: INode)
    requires i < IPB && forall j: nat | 16 * i <= j < 16 * i + 16 :: Word(b, j) == InodeWord(n, j - 16 * i)
    ensures GetInode(b, i) == n
  {
    var a := GetAddrs(b, i);
    forall j | 0 <= j < 13
      ensures a[j] == n.addrs[j]
    {
      assert Word(b, 16 * i + 3 + j) == InodeWord(n, 3 + j);
    }
    assert a == n.addrs;
    Halves(n.kind, n.major);
    Halves(n.minor, n.nlink);
    assert Word(b, 16 * i) == InodeWord(n, 0) && Word(b, 16 * i + 1) == InodeWord(n, 1);
  }

  /** iupdate then ilock gives back the same inode; its neighbours in the block are untouched. */
  lemma PutInodeReads(b: Block, i: nat, n: INode, k: nat)
    requires i < IPB && k < IPB
    ensures GetInode(PutInode(b, i, n, 16), k) == if k == i then n else GetInode(b, k)
  {
    var r := PutInode(b, i, n, 16);
    forall j: nat | 16 * k <= j < 16 * k + 16
      ensures Word(r, j) == if k == i then InodeWord(n, j - 16 * k) else Word(b, j)
    {
      PutInodeWords(b, i, n, 16, j);
    }
    if k == i {
      OwnWords(r, k, n);
    } else {
      SameWords(r, b, k);
    }
  }
}
