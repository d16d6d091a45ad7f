/** Disk blocks as bytes, and the 32-bit little-endian words stored in them (fs.h). */
module Blocks {
  const BSIZE: nat := 512
  const NWORDS: nat := 128
  const UINT_SIZE: nat := 0x1_0000_0000

  type byte = x: int | 0 <= x < 256
  type uint = x: int | 0 <= x < 0x1_0000_0000

  type Block = b: seq<byte> | |b| == 512 witness seq(512, i => 0)

  function ZeroBlock(): (b: Block)
    ensures forall i | 0 <= i < 512 :: b[i] == 0
  {
    seq(512, i => 0)
  }

  /** The j-th uint of a block, read through a uint pointer. */
  function Word(b: Block, j: nat): uint
    requires j < NWORDS
  {
    b[4 * j] as int + 0x100 * (b[4 * j + 1] as int)
    + 0x1_0000 * (b[4 * j + 2] as int) + 0x100_0000 * (b[4 * j + 3] as int)
  }

  /** The four bytes stored for a uint. */
  function PutWord(b: Block, j: nat, w: uint): Block
    requires j < NWORDS
  {
    b[4 * j := w % 0x100]
     [4 * j + 1 := w / 0x100 % 0x100]
     [4 * j + 2 := w / 0x1_0000 % 0x100]
     [4 * j + 3 := w / 0x100_0000]
  }

  lemma PutWordReads(b: Block, j: nat, w: uint, k: nat)
    requires j < NWORDS && k < NWORDS
    ensures Word(PutWord(b, j, w), k) == if k == j then w else Word(b, k)
  {
    var r := PutWord(b, j, w);
    if k == j {
      Digits(w);
      assert r[4 * k] as int == w % 0x100 && r[4 * k + 1] as int == w / 0x100 % 0x100;
      assert r[4 * k + 2] as int == w / 0x1_0000 % 0x100 && r[4 * k + 3] as int == w / 0x100_0000;
    } else {
      assert 4 * k + 3 < 4 * j || 4 * j + 3 < 4 * k;
      assert r[4 * k] == b[4 * k] && r[4 * k + 1] == b[4 * k + 1];
      assert r[4 * k + 2] == b[4 * k + 2] && r[4 * k + 3] == b[4 * k + 3];
    }
  }

  lemma Digits(w: uint)
    ensures w ==
            w % 0x100 + 0x100 * (w / 0x100 % 0x100) + 0x1_0000 * (w / 0x1_0000 % 0x100) + 0x100_0000 * (w / 0x100_0000)
    ensures w / 0x100_0000 < 0x100
  {
  }

  /** Storing through a uint pointer changes that uint and no other. */
  function SetWord(b: Block, j: nat, w: uint): (r: Block)
    requires j < NWORDS
    ensures forall k: nat | k < NWORDS :: Word(r, k) == if k == j then w else Word(b, k)
  {
    forall k: nat | k < NWORDS
      ensures Word(PutWord(b, j, w), k) == if k == j then w else Word(b, k)
    {
      PutWordReads(b, j, w, k);
    }
    PutWord(b, j, w)
  }
}
