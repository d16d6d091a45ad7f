/** The free list of umalloc.c as a value: blocks in address order, the static header first. */
module FreeList {
  /** A free block: the address of its header and its size, both in units of one header. */
  datatype Blk = Blk(addr: int, size: nat)

  predicate Covers(b: Blk, u: int) {
    b.addr <= u < b.addr + b.size
  }

  predicate IsFree(f: seq<Blk>, u: int) {
    exists i :: 0 <= i < |f| && Covers(f[i], u)
  }

  /** Address-ordered from the empty static header on, no block empty, no two blocks touching. */
  ghost predicate Good(f: seq<Blk>, base: int) {
    |f| >= 1 && f[0] == Blk(base, 0) &&
    (forall i | 1 <= i < |f| :: f[i].size >= 1) &&
    (forall i, j | 0 <= i < j < |f| :: f[i].addr + f[i].size < f[j].addr)
  }

  /** The address in the `ptr` field of the i-th block: the last one points back to the static header. */
  function Next(f: seq<Blk>, i: nat): int
    requires i < |f|
  {
    f[if i + 1 < |f| then i + 1 else 0].addr
  }

  /** Steps from the i-th block forward to the one at `to`. */
  function Dist(n: nat, i: nat, to: nat): nat
    requires i < n && to < n
  {
    if i <= to then to - i else n - i + to
  }

  predicate Apart(a: int, s: nat, b: int, t: nat) {
    a + s <= b || b + t <= a
  }

  /** Where a block at `bp` belongs: just after position `g`. */
  ghost predicate Gap(f: seq<Blk>, g: nat, bp: int) {
    g < |f| && f[g].addr < bp && (g + 1 < |f| ==> bp < f[g + 1].addr)
  }

  /** The list with the blocks at positions [a, c) replaced by `b`. */
  function Splice(f: seq<Blk>, a: nat, c: nat, b: Blk): seq<Blk>
    requires a <= c <= |f|
  {
    f[..a] + [b] + f[c..]
  }

  /** The free block at `bp` once merged with the neighbours it touches. */
  function Merged(f: seq<Blk>, g: nat, bp: int, s: nat): Blk
    requires g < |f|
  {
    var upper := if g + 1 < |f| && bp + s == f[g + 1].addr then s + f[g + 1].size else s;
    if f[g].addr + f[g].size == bp then Blk(f[g].addr, f[g].size + upper) else Blk(bp, upper)
  }

  /** The list after the block at `bp` was put at gap `g`, merged with its neighbours where they touch. */
  function Put(f: seq<Blk>, g: nat, bp: int, s: nat): seq<Blk>
    requires g < |f|
  {
    Splice(f, if f[g].addr + f[g].size == bp then g else g + 1,
           if g + 1 < |f| && bp + s == f[g + 1].addr then g + 2 else g + 1, Merged(f, g, bp, s))
  }

  /** What free needs of the block it is given: it lies at a gap and touches no free unit. */
  ghost predicate Fits(f: seq<Blk>, g: nat, bp: int, s: nat) {
    Gap(f, g, bp) && s >= 1 && f[g].addr + f[g].size <= bp && (g + 1 < |f| ==> bp + s <= f[g + 1].addr)
  }

  lemma SpliceGood(f: seq<Blk>, base: int, a: nat, c: nat, b: Blk)
    requires Good(f, base) && 1 <= a <= c <= |f| && b.size >= 1
    requires f[a - 1].addr + f[a - 1].size < b.addr
    requires c < |f| ==> b.addr + b.size < f[c].addr
    ensures Good(Splice(f, a, c, b), base)
  {
    var r := Splice(f, a, c, b);
    forall i | 0 <= i < |r| && i != a
      ensures var k := if i < a then i else i - a - 1 + c; r[i] == f[k]
    {
    }
    forall i, j | 0 <= i < j < |r|
      ensures r[i].addr + r[i].size < r[j].addr
    {
      if j == a {
        assert r[i] == f[i];
      } else if i == a {
        assert r[j] == f[j - a - 1 + c];
      }
    }
  }

  lemma SpliceFree(f: seq<Blk>, a: nat, c: nat, b: Blk, u: int)
    requires a <= c <= |f|
    ensures IsFree(Splice(f, a, c, b), u) <==> IsFree(f[..a], u) || Covers(b, u) || IsFree(f[c..], u)
  {
    var r := Splice(f, a, c, b);
    if IsFree(f[..a], u) {
      var i :| 0 <= i < a && Covers(f[..a][i], u);
      assert Covers(r[i], u);
    }
    if Covers(b, u) {
      assert Covers(r[a], u);
    }
    if IsFree(f[c..], u) {
      var i :| 0 <= i < |f| - c && Covers(f[c..][i], u);
      assert Covers(r[a + 1 + i], u);
    }
    if IsFree(r, u) {
      var j :| 0 <= j < |r| && Covers(r[j], u);
      if j < a {
        assert Covers(f[..a][j], u);
      } else if j > a {
        assert Covers(f[c..][j - a - 1], u);
      }
    }
  }

  lemma Parted(f: seq<Blk>, k: nat, u: int)
    requires k <= |f|
    ensures IsFree(f, u) <==> IsFree(f[..k], u) || IsFree(f[k..], u)
  {
    if IsFree(f, u) {
      var i :| 0 <= i < |f| && Covers(f[i], u);
      if i < k {
        assert Covers(f[..k][i], u);
      } else {
        assert Covers(f[k..][i - k], u);
      }
    }
    if IsFree(f[..k], u) {
      var i :| 0 <= i < k && Covers(f[..k][i], u);
      assert Covers(f[i], u);
    }
    if IsFree(f[k..], u) {
      var i :| 0 <= i < |f| - k && Covers(f[k..][i], u);
      assert Covers(f[k + i], u);
    }
  }

  lemma FirstFree(f: seq<Blk>, k: nat, u: int)
    requires k < |f|
    ensures IsFree(f[k..], u) <==> Covers(f[k], u) || IsFree(f[k + 1..], u)
  {
    Parted(f[k..], 1, u);
    assert f[k..][1..] == f[k + 1..];
    assert f[k..][..1] == [f[k]];
  }

  /** Freeing keeps the list ordered and fully coalesced ... */
  lemma PutKeepsGood(f: seq<Blk>, base: int, g: nat, bp: int, s: nat)
    requires Good(f, base) && Fits(f, g, bp, s)
    ensures Good(Put(f, g, bp, s), base)
  {
    var b := Merged(f, g, bp, s);
    var c := if g + 1 < |f| && bp + s == f[g + 1].addr then g + 2 else g + 1;
    assert c < |f| ==> b.addr + b.size < f[c].addr by {
      if c < |f| && c == g + 2 {
        assert f[g + 1].addr + f[g + 1].size < f[g + 2].addr;
      }
    }
    if f[g].addr + f[g].size == bp {
      assert f[g - 1].addr + f[g - 1].size < f[g].addr;
      SpliceGood(f, base, g, c, b);
    } else {
      SpliceGood(f, base, g + 1, c, b);
    }
  }

  /** ... and makes exactly the units of the block free. */
  lemma PutFrees(f: seq<Blk>, base: int, g: nat, bp: int, s: nat, u: int)
    requires g < |f| && Fits(f, g, bp, s)
    ensures IsFree(Put(f, g, bp, s), u) <==> IsFree(f, u) || bp <= u < bp + s
  {
    var low := f[g].addr + f[g].size == bp;
    var up := g + 1 < |f| && bp + s == f[g + 1].addr;
    var a, c := if low then g else g + 1, if up then g + 2 else g + 1;
    SpliceFree(f, a, c, Merged(f, g, bp, s), u);
    Parted(f, g, u);
    Parted(f, g + 1, u);
    FirstFree(f, g, u);
    if up {
      FirstFree(f, g + 1, u);
    }
  }

  /** The list after `n` units were taken from the end of block `k`, or all of it. */
  function Take(f: seq<Blk>, k: nat, n: nat): seq<Blk>
    requires k < |f| && f[k].size >= n
  {
    if f[k].size == n then f[..k] + f[k + 1..] else f[k := Blk(f[k].addr, f[k].size - n)]
  }

  lemma TakeKeepsGood(f: seq<Blk>, base: int, k: nat, n: nat)
    requires Good(f, base) && k < |f| && 1 <= n <= f[k].size
    ensures Good(Take(f, k, n), base)
  {
  }

  lemma TakeFree(f: seq<Blk>, k: nat, n: nat, u: int)
    requires k < |f| && f[k].size >= n
    ensures IsFree(Take(f, k, n), u) <==>
            IsFree(f[..k], u) || Covers(Blk(f[k].addr, f[k].size - n), u) || IsFree(f[k + 1..], u)
  {
    var r := Take(f, k, n);
    if f[k].size == n {
      Parted(r, k, u);
      assert r[..k] == f[..k] && r[k..] == f[k + 1..];
    } else {
      SpliceFree(f, k, k + 1, Blk(f[k].addr, f[k].size - n), u);
      assert r == Splice(f, k, k + 1, Blk(f[k].addr, f[k].size - n));
    }
  }

  lemma OnlyOneCovers(f: seq<Blk>, base: int, k: nat, u: int)
    requires Good(f, base) && k < |f| && Covers(f[k], u)
    ensures !IsFree(f[..k], u) && !IsFree(f[k + 1..], u)
  {
    forall i | 0 <= i < k
      ensures !Covers(f[..k][i], u)
    {
      assert f[i].addr + f[i].size < f[k].addr;
    }
    var above := f[k + 1..];
    forall i | 0 <= i < |above|
      ensures !Covers(above[i], u)
    {
      assert above[i] == f[k + 1 + i] && f[k].addr + f[k].size < f[k + 1 + i].addr;
    }
  }

  /** Allocation makes exactly the last `n` units of the chosen block not free. */
  lemma TakeUses(f: seq<Blk>, base: int, k: nat, n: nat, u: int)
    requires Good(f, base) && k < |f| && 1 <= n <= f[k].size
    ensures var p := f[k].addr + f[k].size - n;
            IsFree(f, u) && !(p <= u < p + n) <==> IsFree(Take(f, k, n), u)
    ensures var p := f[k].addr + f[k].size - n;
            p <= u < p + n ==> IsFree(f, u)
  {
    TakeFree(f, k, n, u);
    Parted(f, k, u);
    FirstFree(f, k, u);
    if Covers(f[k], u) {
      OnlyOneCovers(f, base, k, u);
    }
  }
}
