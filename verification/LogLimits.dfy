/** How far the list of log_write can grow: when its panic can happen, and when two processes overrun the log. */
module LogLimits {
  import opened Blocks
  import opened LogLayout
  import opened LogMachine
  import opened LogProofs
  import opened LogTheorems

  /** An operation within its quota is about to call log_write for block `b`. */
  ghost predicate Wants(l: Layout, s: State, p: nat, b: uint) {
    Working(s, p) && HeldBy(s, b, p) && l.Home(b) && |s.procs[p].logged + {b}| <= l.quota
  }

  // Upper bounds, in every run.

  /** With room in the log a block that is not listed meets neither guard, in every interleaving. */
  lemma RoomForNewBlock(l: Layout, disk: Disk, nproc: nat, store: Disk, es: seq<Event>, s: State, t: Spec, p: nat,
                        b: uint)
    requires Reaches(l, disk, nproc, store, es, s, t) && Wants(l, s, p, b) && b !in s.lh
    ensures |s.lh| < LOGSIZE && |s.lh| < l.Longest() && !TooBig(l, s)
  {
    ReachesInv(l, disk, nproc, store, es, s, t);
    assert b !in s.procs[p].logged;
    assert |s.procs[p].logged + {b}| == |s.procs[p].logged| + 1;
    BudgetCovers(MAXOPBLOCKS, s.procs, p);
    BudgetCovers(l.quota, s.procs, p);
    CountZero(l.quota, s.procs);
  }

  lemma ListBounded(l: Layout, disk: Disk, nproc: nat, store: Disk, es: seq<Event>, s: State, t: Spec, p: nat)
    requires Reaches(l, disk, nproc, store, es, s, t) && p < |s.procs| && s.procs[p].InOp?
    ensures |s.lh| <= l.Longest()
  {
    ReachesInv(l, disk, nproc, store, es, s, t);
    CountZero(l.quota, s.procs);
    Unspent(l, s.procs);
  }

  // Runs, built from their end.

  ghost predicate Reach(l: Layout, s0: State, s: State) {
    exists es :: Run(l, s0, es) && Final(l, s0, es) == s
  }

  lemma {:induction false} RunSnoc(l: Layout, s: State, es: seq<Event>, e: Event)
    requires Run(l, s, es) && l.start < |Final(l, s, es).disk| && Enabled(l, Final(l, s, es), e)
    ensures Run(l, s, es + [e]) && Final(l, s, es + [e]) == Apply(l, Final(l, s, es), e)
    decreases |es|
  {
    if es == [] {
      assert es + [e] == [e] && [e][1..] == [];
    } else {
      RunSnoc(l, Apply(l, s, es[0]), es[1..], e);
      assert (es + [e])[1..] == es[1..] + [e];
    }
  }

  lemma ReachStep(l: Layout, s0: State, s: State, e: Event)
    requires Reach(l, s0, s) && l.start < |s.disk| && Enabled(l, s, e)
    ensures Reach(l, s0, Apply(l, s, e))
  {
    var es :| Run(l, s0, es) && Final(l, s0, es) == s;
    RunSnoc(l, s0, es, e);
  }

  // Filling the log.

  /** Home blocks to log, all different. */
  ghost predicate Supply(l: Layout, hb: seq<uint>) {
    l.Ok() && l.quota >= 1 && Distinct(hb) && |hb| == LOGSIZE + 1 && forall j | 0 <= j < |hb| :: l.Home(hb[j])
  }

  predicate Logged(q: Proc, lh: seq<uint>, c: nat) {
    q.InOp? && q.passed == None && |q.logged| == c && forall b | b in q.logged :: b in lh
  }

  /** No buffer is held. */
  ghost predicate Still(s: State) {
    forall b | b in s.cache :: s.cache[b].holder == None && !s.cache[b].touched
  }

  /**
   The first `k` blocks of `hb` are listed and no buffer is held. Process 0 is in an operation and has logged `c0` of
   them; with `two` process 1 is in another and has logged `c1`, otherwise it is outside.
   */
  ghost predicate Filled(l: Layout, s: State, hb: seq<uint>, k: nat, two: bool, c0: nat, c1: nat) {
    k <= |hb| && s.phase == Normal && !s.committing && |s.disk| == l.nblocks && |s.procs| >= 2 && s.lh == hb[..k] &&
    s.outstanding == (if two then 2 else 1) && Still(s) && Logged(s.procs[0], s.lh, c0) &&
    if two then Logged(s.procs[1], s.lh, c1) else s.procs[1] == Outside && c1 == 0
  }

  /** Process `p` holds the buffer of the next block, still as on disk, and is past the guard. */
  ghost predicate Past(l: Layout, s: State, s2: State, hb: seq<uint>, k: nat, p: nat)
    requires k < |hb| && p < |s.procs|
  {
    var b := hb[k];
    b < |s.disk| && s.procs[p].InOp? &&
    s2 == s.(cache := s2.cache, procs := s.procs[p := s.procs[p].(passed := Some(b))]) &&
    b in s2.cache && s2.cache[b].holder == Some(p) && !s2.cache[b].touched &&
    forall c | c in s2.cache && c != b :: c in s.cache && s2.cache[c] == s.cache[c]
  }

  /** bread and the guard of log_write for the next block. */
  lemma PassGuard(l: Layout, s0: State, s: State, hb: seq<uint>, k: nat, c0: nat, c1: nat, p: nat) returns (t: State)
    requires Supply(l, hb) && Reach(l, s0, s) && Filled(l, s, hb, k, true, c0, c1) && k < LOGSIZE && k < l.Capacity()
    requires p < 2 && (if p == 0 then c0 else c1) < l.quota
    ensures Reach(l, s0, t) && Past(l, s, t, hb, k, p)
  {
    var b := hb[k];
    OneMore(s.procs[p].logged, b);
    ReachStep(l, s0, s, Bread(p, b));
    t := Apply(l, s, Bread(p, b));
    ReachStep(l, s0, t, LogGuard(p, b));
    t := Apply(l, t, LogGuard(p, b));
  }

  /** The rest of log_write and brelse. */
  lemma AppendOne(l: Layout, s0: State, s: State, s2: State, hb: seq<uint>, k: nat, c0: nat, c1: nat, p: nat)
    returns (t: State)
    requires Supply(l, hb) && Filled(l, s, hb, k, true, c0, c1) && k < LOGSIZE && p < 2
    requires Reach(l, s0, s2) && Past(l, s, s2, hb, k, p)
    ensures Reach(l, s0, t)
    ensures Filled(l, t, hb, k + 1, true, if p == 0 then c0 + 1 else c0, if p == 0 then c1 else c1 + 1)
  {
    var b := hb[k];
    NotListed(hb, k);
    assert b !in s.procs[p].logged;
    assert |s.procs[p].logged + {b}| == |s.procs[p].logged| + 1;
    ReachStep(l, s0, s2, LogAppend(p));
    t := Apply(l, s2, LogAppend(p));
    assert t.lh == hb[..k + 1] && t.procs == s.procs[p := InOp(s.procs[p].logged + {b}, None)];
    t := LetGo(l, s0, t, p, b);
  }

  /** brelse of the only buffer held. */
  lemma LetGo(l: Layout, s0: State, s: State, p: nat, b: uint) returns (t: State)
    requires Reach(l, s0, s) && l.start < |s.disk| && HeldBy(s, b, p) && !s.cache[b].touched && Working(s, p)
    requires forall c | c in s.cache && c != b :: s.cache[c].holder == None && !s.cache[c].touched
    ensures Reach(l, s0, t) && t == s.(cache := t.cache) && Still(t)
  {
    ReachStep(l, s0, s, Brelse(p, b));
    t := Apply(l, s, Brelse(p, b));
  }

  /** bread, log_write and brelse of the next block by process `p`. */
  lemma LogOne(l: Layout, s0: State, s: State, hb: seq<uint>, k: nat, c0: nat, c1: nat, p: nat) returns (t: State)
    requires Supply(l, hb) && Reach(l, s0, s) && Filled(l, s, hb, k, true, c0, c1) && k < LOGSIZE && k < l.Capacity()
    requires p < 2 && (if p == 0 then c0 else c1) < l.quota
    ensures Reach(l, s0, t)
    ensures Filled(l, t, hb, k + 1, true, if p == 0 then c0 + 1 else c0, if p == 0 then c1 else c1 + 1)
  {
    t := PassGuard(l, s0, s, hb, k, c0, c1, p);
    t := AppendOne(l, s0, s, t, hb, k, c0, c1, p);
  }

  lemma NotListed(hb: seq<uint>, k: nat)
    requires Distinct(hb) && k < |hb|
    ensures hb[k] !in hb[..k] && hb[..k] + [hb[k]] == hb[..k + 1]
  {
  }

  /** begin_op by process 1 while at most ten blocks are listed. */
  lemma OpenSecond(l: Layout, s0: State, s: State, hb: seq<uint>, k: nat, c0: nat) returns (t: State)
    requires Supply(l, hb) && Reach(l, s0, s) && Filled(l, s, hb, k, false, c0, 0) && k <= MAXOPBLOCKS
    ensures Reach(l, s0, t) && Filled(l, t, hb, k, true, c0, 0)
  {
    ReachStep(l, s0, s, BeginOp(1));
    t := Apply(l, s, BeginOp(1));
  }

  /** end_op by process 1. */
  lemma CloseSecond(l: Layout, s0: State, s: State, hb: seq<uint>, k: nat, c0: nat, c1: nat) returns (t: State)
    requires Supply(l, hb) && Reach(l, s0, s) && Filled(l, s, hb, k, true, c0, c1)
    ensures Reach(l, s0, t) && Filled(l, t, hb, k, false, c0, 0)
  {
    ReachStep(l, s0, s, EndOp(1));
    t := Apply(l, s, EndOp(1));
  }

  /** Short operations of process 1 list blocks one by one, up to ten, while process 0 stays in its own. */
  lemma {:induction false} FillSingly(l: Layout, s0: State, s: State, hb: seq<uint>, k: nat, target: nat)
    returns (t: State)
    requires Supply(l, hb) && Reach(l, s0, s) && Filled(l, s, hb, k, false, 0, 0)
    requires k <= target <= MAXOPBLOCKS && target <= l.Capacity()
    ensures Reach(l, s0, t) && Filled(l, t, hb, target, false, 0, 0)
    decreases target - k
  {
    t := s;
    if k < target {
      t := OpenSecond(l, s0, t, hb, k, 0);
      t := LogOne(l, s0, t, hb, k, 0, 0, 1);
      t := CloseSecond(l, s0, t, hb, k + 1, 0, 1);
      t := FillSingly(l, s0, t, hb, k + 1, target);
    }
  }

  /** Both operations go on: process 1 first, then process 0, neither beyond `r` blocks. */
  lemma {:induction false} FillBoth(l: Layout, s0: State, s: State, hb: seq<uint>, k: nat, c0: nat, c1: nat, r: nat,
                                    target: nat)
    returns (t: State, d0: nat, d1: nat)
    requires Supply(l, hb) && Reach(l, s0, s) && Filled(l, s, hb, k, true, c0, c1)
    requires k <= target <= l.Capacity() && c0 <= r && c1 <= r <= l.quota && target - k <= 2 * r - c0 - c1
    requires c0 > 0 ==> c1 == r
    ensures Reach(l, s0, t) && Filled(l, t, hb, target, true, d0, d1)
    ensures d0 <= r && d1 <= r && d0 + d1 == c0 + c1 + (target - k) && (d0 > 0 ==> d1 == r)
    decreases target - k
  {
    t, d0, d1 := s, c0, c1;
    if k < target {
      if c1 < r {
        t := LogOne(l, s0, s, hb, k, c0, c1, 1);
        t, d0, d1 := FillBoth(l, s0, t, hb, k + 1, c0, c1 + 1, r, target);
      } else {
        t := LogOne(l, s0, s, hb, k, c0, c1, 0);
        t, d0, d1 := FillBoth(l, s0, t, hb, k + 1, c0 + 1, c1, r, target);
      }
    }
  }

  /**
   Two operations, neither beyond `r` blocks, can bring the list to any length up to 10 + 2r that the guards allow.
   */
  lemma FillTo(l: Layout, disk: Disk, nproc: nat, hb: seq<uint>, r: nat, target: nat)
    returns (t: State, d0: nat, d1: nat)
    requires Supply(l, hb) && DiskOk(l, disk) && DiskEntries(l, disk) == [] && nproc >= 2
    requires r <= l.quota && target <= MAXOPBLOCKS + 2 * r && target <= l.Capacity()
    ensures Reach(l, PowerOn(disk, nproc), t) && Filled(l, t, hb, target, true, d0, d1)
    ensures d0 <= r && d1 <= r && (d0 > 0 ==> d1 == r)
    ensures d0 + d1 == if target <= MAXOPBLOCKS then 0 else target - MAXOPBLOCKS
  {
    var s0 := PowerOn(disk, nproc);
    t := StartUp(l, disk, nproc, hb);
    var first := if target <= MAXOPBLOCKS then target else MAXOPBLOCKS;
    t := FillSingly(l, s0, t, hb, 0, first);
    t := OpenSecond(l, s0, t, hb, first, 0);
    t, d0, d1 := FillBoth(l, s0, t, hb, first, 0, 0, r, target);
  }

  /** Recovery of a disk with an empty log has nothing to install; then process 0 begins an operation. */
  lemma StartUp(l: Layout, disk: Disk, nproc: nat, hb: seq<uint>) returns (t: State)
    requires Supply(l, hb) && DiskOk(l, disk) && DiskEntries(l, disk) == [] && nproc >= 2
    ensures Reach(l, PowerOn(disk, nproc), t) && Filled(l, t, hb, 0, false, 0, 0)
  {
    var s0 := PowerOn(disk, nproc);
    assert Run(l, s0, []) && Final(l, s0, []) == s0;
    ReachStep(l, s0, s0, ReadHead);
    var s1 := Apply(l, s0, ReadHead);
    assert s1.lh == DiskEntries(l, disk) == [];
    ReachStep(l, s0, s1, ClearHead);
    var s2 := Apply(l, s1, ClearHead);
    ReachStep(l, s0, s2, BeginOp(0));
    t := Apply(l, s2, BeginOp(0));
  }

  // The panic "too big a transaction".

  /** An operation within its quota can meet the panic. */
  ghost predicate CanPanic(l: Layout, disk: Disk, nproc: nat) {
    exists s, p, b :: Reach(l, PowerOn(disk, nproc), s) && Wants(l, s, p, b) && TooBig(l, s)
  }

  /** It can meet it with a block that is not listed yet. */
  ghost predicate CanPanicOnNew(l: Layout, disk: Disk, nproc: nat) {
    exists s, p, b :: Reach(l, PowerOn(disk, nproc), s) && Wants(l, s, p, b) && b !in s.lh && TooBig(l, s)
  }

  /** A reachable state, with what the specification makes of it. */
  lemma Explain(l: Layout, disk: Disk, nproc: nat, s: State) returns (es: seq<Event>, t: Spec)
    requires DiskOk(l, disk) && DiskEntries(l, disk) == [] && l.Roomy() && Reach(l, PowerOn(disk, nproc), s)
    ensures Reaches(l, disk, nproc, disk, es, s, t)
  {
    EmptyHeadMeansHome(l, disk, disk);
    es :| Run(l, PowerOn(disk, nproc), es) && Final(l, PowerOn(disk, nproc), es) == s;
    RefinesGroupCommit(l, disk, nproc, disk, es);
    t := SpecFinal(Fresh(disk), Actions(l, PowerOn(disk, nproc), es));
  }

  /** Process 0 reads block `b` at the end of a filling. */
  lemma ReadsAgain(l: Layout, s0: State, s: State, hb: seq<uint>, k: nat, c0: nat, c1: nat, b: uint) returns (t: State)
    requires Supply(l, hb) && Reach(l, s0, s) && Filled(l, s, hb, k, true, c0, c1) && l.Home(b)
    requires |s.procs[0].logged + {b}| <= l.quota
    ensures Reach(l, s0, t) && Wants(l, t, 0, b) && t.lh == s.lh
  {
    ReachStep(l, s0, s, Bread(0, b));
    t := Apply(l, s, Bread(0, b));
  }

  /**
   log_write tests its guards before it looks for the block in the list, so the panic can happen exactly when the list
   can get as long as the guards allow: always at the full quota of ten blocks, and with at most nine per operation only
   on a log with fewer than 30 blocks.
   */
  lemma PanicExactly(l: Layout, disk: Disk, nproc: nat, hb: seq<uint>)
    requires Supply(l, hb) && DiskOk(l, disk) && DiskEntries(l, disk) == [] && nproc >= 2
    ensures CanPanic(l, disk, nproc) <==> l.Capacity() <= l.Longest()
  {
    if l.Capacity() <= l.Longest() {
      var s, c0, c1 := FillTo(l, disk, nproc, hb, l.quota, l.Capacity());
      var b := hb[0];
      if c0 == l.quota {
        b :| b in s.procs[0].logged;
        assert s.procs[0].logged + {b} == s.procs[0].logged;
      } else {
        OneMore(s.procs[0].logged, b);
      }
      var t := ReadsAgain(l, PowerOn(disk, nproc), s, hb, l.Capacity(), c0, c1, b);
      assert TooBig(l, t);
    } else if CanPanic(l, disk, nproc) {
      var s, p, b :| Reach(l, PowerOn(disk, nproc), s) && Wants(l, s, p, b) && TooBig(l, s);
      var es, t := Explain(l, disk, nproc, s);
      ListBounded(l, disk, nproc, disk, es, s, t, p);
    }
  }

  lemma OneMore(a: set<uint>, b: uint)
    ensures |a + {b}| <= |a| + 1
  {
    if b in a {
      assert a + {b} == a;
    }
  }

  /** With a block that is not listed yet it takes a list that leaves some operation a block to log. */
  lemma NewBlockPanicExactly(l: Layout, disk: Disk, nproc: nat, hb: seq<uint>)
    requires Supply(l, hb) && DiskOk(l, disk) && DiskEntries(l, disk) == [] && nproc >= 2
    ensures CanPanicOnNew(l, disk, nproc) <==> l.Capacity() < l.Longest()
  {
    if l.Capacity() < l.Longest() {
      var k := l.Capacity();
      var s, c0, c1 := FillTo(l, disk, nproc, hb, l.quota, k);
      OneMore(s.procs[0].logged, hb[k]);
      NotListed(hb, k);
      var t := ReadsAgain(l, PowerOn(disk, nproc), s, hb, k, c0, c1, hb[k]);
      assert TooBig(l, t) && hb[k] !in t.lh;
    } else if CanPanicOnNew(l, disk, nproc) {
      var s, p, b :| Reach(l, PowerOn(disk, nproc), s) && Wants(l, s, p, b) && b !in s.lh && TooBig(l, s);
      if l.Roomy() {
        var es, t := Explain(l, disk, nproc, s);
        RoomForNewBlock(l, disk, nproc, disk, es, s, t, p, b);
      }
    }
  }

  // Two processes between guard and append.

  /** The list can get longer than the log has data blocks. */
  ghost predicate CanOverrun(l: Layout, disk: Disk, nproc: nat) {
    exists s :: Reach(l, PowerOn(disk, nproc), s) && |s.lh| >= l.size
  }

  /** Both processes pass the guard with one data block left, and both append. */
  lemma BothPass(l: Layout, s0: State, s: State, hb: seq<uint>, k: nat, c0: nat, c1: nat) returns (t: State)
    requires Supply(l, hb) && Reach(l, s0, s) && Filled(l, s, hb, k, true, c0, c1) && c0 < l.quota && c1 < l.quota
    requires k + 2 == l.size <= LOGSIZE
    ensures Reach(l, s0, t) && |t.lh| == l.size
  {
    var a, b := hb[k], hb[k + 1];
    NotListed(hb, k);
    assert b !in hb[..k] && a != b;
    t := PassGuard(l, s0, s, hb, k, c0, c1, 0);
    OneMore(s.procs[1].logged, b);
    t := PassToo(l, s0, s, t, hb, k);
    t := BothAppend(l, s0, t, a, b);
  }

  lemma BothAppend(l: Layout, s0: State, s: State, a: uint, b: uint) returns (t: State)
    requires Reach(l, s0, s) && l.start < |s.disk| && Inside(s, 0) && Inside(s, 1) && a != b && a !in s.lh && b !in s.lh
    requires s.procs[0].passed == Some(a) && s.procs[1].passed == Some(b)
    ensures Reach(l, s0, t) && |t.lh| == |s.lh| + 2
  {
    ReachStep(l, s0, s, LogAppend(0));
    t := Apply(l, s, LogAppend(0));
    assert t.lh == s.lh + [a] && Inside(t, 1);
    ReachStep(l, s0, t, LogAppend(1));
    t := Apply(l, t, LogAppend(1));
  }

  /** Process 1 passes the guard while process 0 is between guard and lock. */
  lemma PassToo(l: Layout, s0: State, s: State, s2: State, hb: seq<uint>, k: nat) returns (t: State)
    requires Supply(l, hb) && k + 2 == l.size <= LOGSIZE && |s.procs| >= 2 && s.phase == Normal && |s.disk| == l.nblocks
    requires s.lh == hb[..k] && Still(s) && Reach(l, s0, s2) && Past(l, s, s2, hb, k, 0)
    requires Working(s, 1) && |s.procs[1].logged + {hb[k + 1]}| <= l.quota
    ensures Reach(l, s0, t) && t.lh == s.lh && t.disk == s.disk && Inside(t, 0) && t.procs[0].passed == Some(hb[k])
    ensures Inside(t, 1) && t.procs[1].passed == Some(hb[k + 1])
  {
    var b := hb[k + 1];
    ReachStep(l, s0, s2, Bread(1, b));
    t := Apply(l, s2, Bread(1, b));
    ReachStep(l, s0, t, LogGuard(1, b));
    t := Apply(l, t, LogGuard(1, b));
  }

  /**
   The guard, which log_write evaluates before it takes log.lock, keeps the list inside the log exactly when the log is
   longer than the list can get anyway: at the full quota exactly when log.size > LOGSIZE, which mkfs does not provide.
   */
  lemma OverrunExactly(l: Layout, disk: Disk, nproc: nat, hb: seq<uint>)
    requires Supply(l, hb) && DiskOk(l, disk) && DiskEntries(l, disk) == [] && nproc >= 2 && l.size >= 2
    ensures CanOverrun(l, disk, nproc) <==> !l.Roomy()
  {
    if !l.Roomy() {
      var k := l.size - 2;
      var s, c0, c1 := FillTo(l, disk, nproc, hb, l.quota - 1, k);
      var t := BothPass(l, PowerOn(disk, nproc), s, hb, k, c0, c1);
    } else if CanOverrun(l, disk, nproc) {
      var s :| Reach(l, PowerOn(disk, nproc), s) && |s.lh| >= l.size;
      var es, t := Explain(l, disk, nproc, s);
      ReachesInv(l, disk, nproc, disk, es, s, t);
    }
  }

  /** What write_log does with a list that outgrew the log: it overwrites the block after the log region. */
  lemma OverrunHits(l: Layout, s: State)
    requires l.start < |s.disk| && s.phase.Copy? && s.phase.i == l.size - 1 && Enabled(l, s, CopyBlock)
    ensures var b := l.start + l.size;
            (b < l.nblocks ==> l.Home(b)) && Apply(l, s, CopyBlock).disk == s.disk[b := View(s, s.lh[l.size - 1])]
  {
  }
}
