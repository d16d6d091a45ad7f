/** The bitmap and the inodes as mkfs.c lays them down, byte by byte, and that the kernel reads them as meant. */
module MkfsImage {
  import opened Blocks
  import opened FsLayout

  // --- The bitmap ---

  lemma {:induction false} Pow2Positive(n: nat)
    ensures Pow2(n) > 0
  {
    if n > 0 {
      Pow2Positive(n - 1);
    }
  }

  /** `x | (1 << k)`. */
  function Or(x: nat, k: nat): nat {
    Pow2Positive(k);
    if x / Pow2(k) % 2 == 1 then x else x + Pow2(k)
  }

  /** A byte whose lowest `n` bits are set. */
  function Low(n: nat): nat
    requires n <= 8
  {
    Pow2Positive(n);
    Pow2(n) - 1
  }

  lemma {:induction false} LowBit(n: nat, k: nat)
    ensures Pow2(n) > 0 && (Bit(Pow2(n) - 1, k) <==> k < n)
    decreases k
  {
    Pow2Positive(n);
    Pow2Positive(if n > 0 then n - 1 else 0);
    if n > 0 && k > 0 {
      assert (Pow2(n) - 1) / 2 == Pow2(n - 1) - 1;
      LowBit(n - 1, k - 1);
    } else if n == 0 && k > 0 {
      LowBit(0, k - 1);
    }
  }

  lemma LowBits(n: nat)
    requires n <= 8
    ensures 0 <= Low(n) < 256 && (n < 8 ==> Or(Low(n), n) == Low(n + 1))
    ensures forall k: nat :: Bit(Low(n), k) <==> k < n
  {
    assert Pow2(8) == 256;
    LowGrows(n, 8);
    forall k: nat
      ensures Bit(Low(n), k) <==> k < n
    {
      LowBit(n, k);
    }
    assert Low(n) / Pow2(n) == 0;
  }

  lemma {:induction false} LowGrows(n: nat, m: nat)
    requires n <= m
    ensures Pow2(n) <= Pow2(m)
    decreases m
  {
    if n < m {
      LowGrows(n, m - 1);
    }
  }

  /** How many of the eight bits of byte `j` are set when the first `used` of all are. */
  function Share(used: nat, j: nat): (n: nat)
    ensures n <= 8
  {
    if used >= 8 * j + 8 then 8 else if used > 8 * j then used - 8 * j else 0
  }

  /** mkfs's balloc: the block whose first `used` bits are set; the kernel reads it as just those blocks in use. */
  method Balloc(used: nat) returns (buf: Block)
    requires used < BSIZE * 8
    ensures forall j: nat | j < BSIZE :: buf[j] == Pow2(Share(used, j)) - 1
    ensures forall i: nat | i < BPB :: BlockBit(buf, i) <==> i < used
  {
    buf := ZeroBlock();
    var i := 0;
    while i < used
      invariant i <= used
      invariant forall j: nat | j < BSIZE :: buf[j] == Low(Share(i, j))
    {
      LowBits(i % 8);
      LowBits(i % 8 + 1);
      assert Share(i, i / 8) == i % 8 && Share(i + 1, i / 8) == i % 8 + 1;
      assert forall j: nat | j != i / 8 :: Share(i + 1, j) == Share(i, j);
      buf := buf[i / 8 := Or(buf[i / 8], i % 8)];
      i := i + 1;
    }
    forall k: nat | k < BPB
      ensures BlockBit(buf, k) <==> k < used
    {
      LowBits(Share(used, k / 8));
    }
  }

  // --- Inodes ---

  function Short(x: ushort): (s: seq<byte>)
    ensures |s| == 2
  {
    [x % 0x100, x / 0x100]
  }

  function Int(x: uint): (s: seq<byte>)
    ensures |s| == 4
  {
    [x % 0x100, x / 0x100 % 0x100, x / 0x1_0000 % 0x100, x / 0x100_0000]
  }

  function Ints(a: seq<uint>): (s: seq<byte>)
    ensures |s| == 4 * |a|
  {
    if |a| == 0 then [] else Int(a[0]) + Ints(a[1..])
  }

  /** struct dinode: type, major, minor, nlink, size and addresses, in little-endian bytes. */
  function Dinode(n: INode): (s: seq<byte>)
    ensures |s| == 64
  {
    Short(n.kind) + Short(n.major) + Short(n.minor) + Short(n.nlink) + Int(n.size) + Ints(n.addrs)
  }

  /** winode: the structure copied to its place in the block. */
  function Winode(b: Block, i: nat, n: INode): Block
    requires i < IPB
  {
    b[..64 * i] + Dinode(n) + b[64 * i + 64..]
  }

  lemma {:induction false} IntsAt(a: seq<uint>, j: nat)
    requires j < |a|
    ensures Ints(a)[4 * j..4 * j + 4] == Int(a[j])
  {
    if j > 0 {
      IntsAt(a[1..], j - 1);
      assert Ints(a)[4 * j..4 * j + 4] == Ints(a[1..])[4 * (j - 1)..4 * (j - 1) + 4];
    }
  }

  lemma IntDigits(x: uint)
    ensures var s := Int(x);
            s[0] as int + 0x100 * (s[1] as int) + 0x1_0000 * (s[2] as int) + 0x100_0000 * (s[3] as int) == x
  {
    Digits(x);
  }

  /** Two shorts, one after the other, make the word the kernel takes apart again. */
  lemma ShortsDigits(x: ushort, y: ushort)
    ensures var s := Short(x) + Short(y);
            s[0] as int + 0x100 * (s[1] as int) + 0x1_0000 * (s[2] as int) + 0x100_0000 * (s[3] as int) ==
            x + 0x1_0000 * y
  {
  }

  /** The bytes of the j-th word of an inode. */
  function WordBytes(n: INode, j: nat): (s: seq<byte>)
    requires j < 16
    ensures |s| == 4
  {
    if j == 0 then Short(n.kind) + Short(n.major)
    else if j == 1 then Short(n.minor) + Short(n.nlink)
    else if j == 2 then Int(n.size)
    else Int(n.addrs[j - 3])
  }

  lemma DinodeAt(n: INode, j: nat)
    requires j < 16
    ensures Dinode(n)[4 * j..4 * j + 4] == WordBytes(n, j)
  {
    var head := Short(n.kind) + Short(n.major) + Short(n.minor) + Short(n.nlink) + Int(n.size);
    assert Dinode(n) == head + Ints(n.addrs);
    if j >= 3 {
      IntsAt(n.addrs, j - 3);
      assert Dinode(n)[4 * j..4 * j + 4] == Ints(n.addrs)[4 * (j - 3)..4 * (j - 3) + 4];
    }
  }

  lemma WordOf(b: Block, j: nat, s: seq<byte>)
    requires j < NWORDS && |s| == 4 && b[4 * j..4 * j + 4] == s
    ensures Word(b, j) ==
            s[0] as int + 0x100 * (s[1] as int) + 0x1_0000 * (s[2] as int) + 0x100_0000 * (s[3] as int)
  {
    assert b[4 * j] == b[4 * j..4 * j + 4][0] && b[4 * j + 1] == b[4 * j..4 * j + 4][1];
    assert b[4 * j + 2] == b[4 * j..4 * j + 4][2] && b[4 * j + 3] == b[4 * j..4 * j + 4][3];
  }

  lemma WinodeWord(b: Block, i: nat, n: INode, j: nat)
    requires i < IPB && j < NWORDS
    ensures Word(Winode(b, i, n), j) == if 16 * i <= j < 16 * i + 16 then InodeWord(n, j - 16 * i) else Word(b, j)
  {
    var r := Winode(b, i, n);
    if 16 * i <= j < 16 * i + 16 {
      var k := j - 16 * i;
      DinodeAt(n, k);
      assert r[4 * j..4 * j + 4] == Dinode(n)[4 * k..4 * k + 4];
      WordOf(r, j, WordBytes(n, k));
      IntDigits(n.size);
      ShortsDigits(n.kind, n.major);
      ShortsDigits(n.minor, n.nlink);
      if k >= 3 {
        IntDigits(n.addrs[k - 3]);
      }
    } else {
      assert r[4 * j..4 * j + 4] == b[4 * j..4 * j + 4];
      WordOf(r, j, b[4 * j..4 * j + 4]);
      WordOf(b, j, b[4 * j..4 * j + 4]);
    }
  }

  /** What mkfs stores as an inode the kernel loads as that inode, and the neighbours are untouched. */
  lemma WinodeReads(b: Block, i: nat, n: INode, k: nat)
    requires i < IPB && k < IPB
    ensures GetInode(Winode(b, i, n), k) == if k == i then n else GetInode(b, k)
  {
    var r := Winode(b, i, n);
    forall j: nat | 16 * k <= j < 16 * k + 16
      ensures Word(r, j) == if k == i then InodeWord(n, j - 16 * k) else Word(b, j)
    {
      WinodeWord(b, i, n, j);
    }
    if k == i {
      OwnWords(r, k, n);
    } else {
      SameWords(r, b, k);
    }
  }

  /** And iupdate stores the very bytes mkfs does. */
  lemma IupdateBytes(b: Block, i: nat, n: INode)
    requires i < IPB
    ensures PutInode(b, i, n, 16) == Winode(b, i, n)
  {
    var x, y := PutInode(b, i, n, 16), Winode(b, i, n);
    forall j: nat | j < NWORDS
      ensures Word(x, j) == Word(y, j)
    {
      PutInodeWords(b, i, n, 16, j);
      WinodeWord(b, i, n, j);
    }
    forall k | 0 <= k < BSIZE
      ensures x[k] == y[k]
    {
      assert Word(x, k / 4) == Word(y, k / 4);
      SameDigits(x, y, k / 4);
    }
  }

  lemma LowDigit(a: int, u: int, b: int, v: int)
    requires 0 <= a < 0x100 && 0 <= b < 0x100 && a + 0x100 * u == b + 0x100 * v
    ensures a == b && u == v
  {
  }

  lemma SameDigits(x: Block, y: Block, j: nat)
    requires j < NWORDS && Word(x, j) == Word(y, j)
    ensures forall k | 4 * j <= k < 4 * j + 4 :: x[k] == y[k]
  {
    var x1, x2, x3 := x[4 * j + 1] as int, x[4 * j + 2] as int, x[4 * j + 3] as int;
    var y1, y2, y3 := y[4 * j + 1] as int, y[4 * j + 2] as int, y[4 * j + 3] as int;
    LowDigit(x[4 * j], x1 + 0x100 * x2 + 0x1_0000 * x3, y[4 * j], y1 + 0x100 * y2 + 0x1_0000 * y3);
    LowDigit(x1, x2 + 0x100 * x3, y1, y2 + 0x100 * y3);
    LowDigit(x2, x3, y2, y3);
  }

  /** mkfs's ialloc: a fresh inode with one link, no bytes and no blocks. */
  function NewInode(kind: ushort): INode {
    INode(kind, 0, 0, 1, 0, seq<uint>(13, j => 0))
  }

  /** The kernel finds the type mkfs meant, one link, and an empty file. */
  lemma NewInodeReads(b: Block, i: nat, kind: ushort)
    requires i < IPB
    ensures var n := GetInode(Winode(b, i, NewInode(kind)), i);
            n.kind == kind && n.nlink == 1 && n.size == 0 && n.major == 0 && n.minor == 0 &&
            forall j | 0 <= j < 13 :: n.addrs[j] == 0
    ensures var s := Winode(b, i, NewInode(kind));
            s[64 * i] == kind % 0x100 && s[64 * i + 1] == kind / 0x100 && s[64 * i + 6] == 1 && s[64 * i + 7] == 0
  {
    WinodeReads(b, i, NewInode(kind), i);
  }
}
