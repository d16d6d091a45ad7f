/** The pipe of pipe.c: a 512-byte ring with 32-bit counters that wrap. */
module Pipe {
  import opened Blocks

  const PIPESIZE: nat := 512

  function Wrap(n: int): uint {
    n % UINT_SIZE
  }

  /** Counters that only ever grow, seen through 32 bits: the tests and ring positions are the same. */
  lemma WrapFaithful(r: nat, w: nat)
    requires r <= w <= r + PIPESIZE
    ensures Wrap(w) == Wrap(Wrap(r) + PIPESIZE) <==> w == r + PIPESIZE
    ensures Wrap(r) == Wrap(w) <==> r == w
    ensures Wrap(w) % PIPESIZE == w % PIPESIZE && Wrap(w + 1) == Wrap(Wrap(w) + 1)
  {
    var q := r / UINT_SIZE;
    assert r == q * UINT_SIZE + Wrap(r);
    if w < (q + 1) * UINT_SIZE {
      Same(w, q);
    } else {
      Same(w, q + 1);
    }
    var p := w / UINT_SIZE;
    assert w == p * UINT_SIZE + Wrap(w) == PIPESIZE * (p * 0x80_0000) + Wrap(w);
  }

  lemma Same(w: nat, q: nat)
    requires q * UINT_SIZE <= w < (q + 1) * UINT_SIZE
    ensures Wrap(w) == w - q * UINT_SIZE
  {
  }

  /** How a turn with the lock held ends. */
  datatype Turn = Done | Failed | Asleep

  class Pipe {
    const data: array<byte>
    var nread: uint
    var nwrite: uint
    var readopen: bool
    var writeopen: bool
    /** Every byte ever accepted, and how many of them were delivered. */
    ghost var accepted: seq<byte>
    ghost var delivered: nat

    ghost predicate Valid()
      reads this, data
    {
      data.Length == PIPESIZE && delivered <= |accepted| <= delivered + PIPESIZE &&
      nread == Wrap(delivered) && nwrite == Wrap(|accepted|) &&
      forall k | delivered <= k < |accepted| :: data[k % PIPESIZE] == accepted[k]
    }

    constructor ()
      ensures Valid() && fresh(data) && accepted == [] && delivered == 0 && readopen && writeopen
    {
      data := new byte[PIPESIZE](i => 0);
      nread, nwrite, readopen, writeopen := 0, 0, true, true;
      accepted, delivered := [], 0;
    }

    /**
     pipewrite from taking the lock to giving it up: bytes from `from` on go in until all are in or the ring is full.
     */
    method WriteTurn(src: seq<byte>, from: nat, killed: bool) returns (i: nat, turn: Turn)
      requires Valid() && from <= |src|
      modifies this`nwrite, this`accepted, data
      ensures Valid() && from <= i <= |src| && accepted == old(accepted) + src[from..i]
      ensures turn == Done <==> i == |src|
      ensures turn != Done ==> |accepted| - delivered == PIPESIZE
      ensures turn == Failed ==> !readopen || killed
      ensures turn == Asleep ==> readopen && !killed
    {
      i := from;
      while i < |src|
        invariant from <= i <= |src| && Valid() && accepted == old(accepted) + src[from..i]
      {
        WrapFaithful(delivered, |accepted|);
        if nwrite == Wrap(nread + PIPESIZE) {
          turn := if !readopen || killed then Failed else Asleep;
          return;
        }
        Put(src[i]);
        assert src[from..i + 1] == src[from..i] + [src[i]];
        i := i + 1;
      }
      turn := Done;
    }

    method Put(b: byte)
      requires Valid() && |accepted| < delivered + PIPESIZE
      modifies this`nwrite, this`accepted, data
      ensures Valid() && accepted == old(accepted) + [b]
    {
      WrapFaithful(delivered, |accepted|);
      ghost var w := |accepted|;
      forall k | delivered <= k < w
        ensures k % PIPESIZE != w % PIPESIZE
      {
        RingApart(k, w);
      }
      data[nwrite % PIPESIZE] := b;
      nwrite := Wrap(nwrite + 1);
      accepted := accepted + [b];
    }

    /** piperead from taking the lock to giving it up. */
    method ReadTurn(n: nat, killed: bool) returns (dst: seq<byte>, turn: Turn)
      requires Valid()
      modifies this`nread, this`delivered
      ensures Valid() && delivered == old(delivered) + |dst| && |dst| <= n
      ensures dst == accepted[old(delivered)..delivered]
      ensures turn == Done ==> |dst| == if |accepted| - old(delivered) < n then |accepted| - old(delivered) else n
      ensures turn != Done <==> old(delivered) == |accepted| && writeopen
      ensures turn == Failed ==> killed
      ensures turn == Asleep ==> !killed
    {
      dst := [];
      WrapFaithful(delivered, |accepted|);
      if nread == nwrite && writeopen {
        turn := if killed then Failed else Asleep;
        return;
      }
      while |dst| < n
        invariant Valid() && delivered == old(delivered) + |dst| && |dst| <= n
        invariant dst == accepted[old(delivered)..delivered]
      {
        WrapFaithful(delivered, |accepted|);
        if nread == nwrite {
          break;
        }
        WrapFaithful(delivered, delivered);
        dst := dst + [data[nread % PIPESIZE]];
        nread := Wrap(nread + 1);
        delivered := delivered + 1;
      }
      turn := Done;
    }

    /** pipeclose: one end shuts; the page is freed when both have. */
    method Close(writable: bool) returns (freed: bool)
      requires Valid()
      modifies this`readopen, this`writeopen
      ensures Valid()
      ensures writeopen == (old(writeopen) && !writable) && readopen == (old(readopen) && writable)
      ensures freed <==> !readopen && !writeopen
    {
      if writable {
        writeopen := false;
      } else {
        readopen := false;
      }
      freed := !readopen && !writeopen;
    }
  }

  lemma RingApart(k: nat, w: nat)
    requires k < w < k + PIPESIZE
    ensures k % PIPESIZE != w % PIPESIZE
  {
  }
}
