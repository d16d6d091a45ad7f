/** Every step of the logging protocol keeps the invariant and is a step of the specification. */
module LogProofs {
  import opened Blocks
  import opened LogLayout
  import opened LogMachine

  /** What one step has to establish. */
  ghost predicate Simulates(l: Layout, s: State, t: Spec, e: Event)
    requires l.start < |s.disk| && Enabled(l, s, e)
  {
    var a := ActionOf(s, e);
    Allowed(t, a) && Core(l, Apply(l, s, e), Perform(t, a))
  }

  lemma Becomes(l: Layout, s: State, t: Spec, e: Event, s': State, t': Spec)
    requires l.start < |s.disk| && Enabled(l, s, e) && s' == Apply(l, s, e)
    requires Allowed(t, ActionOf(s, e)) && t' == Perform(t, ActionOf(s, e)) && Core(l, s', t')
    ensures Simulates(l, s, t, e)
  {
  }

  lemma ActiveNone(s: State, t: Spec)
    requires Counts(s, t) && s.outstanding == 0
    ensures t.active == {}
    ensures forall p | 0 <= p < |s.procs| :: !s.procs[p].InOp?
  {
    CountZero(MAXOPBLOCKS, s.procs);
  }

  /** The part of the invariant about contents does not look at begin_op and end_op bookkeeping. */
  lemma ContentsFrame(l: Layout, s: State, t: Spec, s': State, t': Spec)
    requires Core(l, s, t) && Shape(l, s', t')
    requires s'.disk == s.disk && s'.cache == s.cache && s'.lh == s.lh
    requires t'.commits == t.commits && t'.current == t.current
    requires s'.phase == s.phase || (s.phase.Normal? && s'.phase == Copy(0)) ||
             (s.phase.Normal? && s'.phase == Finish && s.lh == []) || (s.phase.Finish? && s'.phase.Normal?)
    ensures Recoverable(l, s', t') && LogCopied(l, s', t') && HomeAgrees(l, s', t')
  {
    if s.phase.Normal? && s'.phase.Finish? {
      EmptyHeadMeansHome(l, s.disk, Durable(t));
    }
    HomeFrame(l, s, t, s', t');
  }

  lemma HomeFrame(l: Layout, s: State, t: Spec, s': State, t': Spec)
    requires Shape(l, s, t) && HomeAgrees(l, s, t) && Shape(l, s', t')
    requires s'.disk == s.disk && s'.cache == s.cache && s'.lh == s.lh && t'.current == t.current
    requires InstalledCount(s') == InstalledCount(s) && Booting(s'.phase) == Booting(s.phase)
    requires s.phase.Boot? ==> s'.phase.Boot?
    ensures HomeAgrees(l, s', t')
  {
    assert forall b: uint | l.Home(b) :: Pending(s, b) <==> Pending(s', b);
  }

  /** Disk writes leave the bookkeeping of operations alone. */
  lemma ControlFrame(l: Layout, s: State, t: Spec, s': State, t': Spec)
    requires Counts(s, t) && LogSpace(l, s) && SleepersAwaited(s)
    requires s'.procs == s.procs && s'.outstanding == s.outstanding && s'.committing == s.committing
    requires s'.lh == s.lh && t'.active == t.active
    requires s'.phase.Normal? == s.phase.Normal? && Booting(s'.phase) == Booting(s.phase)
    ensures Counts(s', t') && LogSpace(l, s') && SleepersAwaited(s')
  {
  }

  lemma BeginStep(l: Layout, s: State, t: Spec, p: nat)
    requires Core(l, s, t) && Enabled(l, s, BeginOp(p))
    ensures Simulates(l, s, t, BeginOp(p))
  {
    var s' := Apply(l, s, BeginOp(p));
    var t' := Perform(t, ActionOf(s, BeginOp(p)));
    assert Shape(l, s', t');
    ContentsFrame(l, s, t, s', t');
    assert CacheOk(l, s');
    BeginControl(l, s, t, s', t', p);
  }

  lemma BeginControl(l: Layout, s: State, t: Spec, s': State, t': Spec, p: nat)
    requires Counts(s, t) && LogSpace(l, s) && SleepersAwaited(s)
    requires l.Ok() && p < |s.procs| && s.procs[p] == Outside && !Booting(s.phase)
    requires if s.committing || NoRoom(s) then s' == s.(procs := s.procs[p := Asleep]) && t' == t
             else s' == s.(procs := s.procs[p := InOp({}, None)], outstanding := s.outstanding + 1) &&
                  t' == t.(active := t.active + {p})
    ensures Counts(s', t') && LogSpace(l, s') && SleepersAwaited(s')
    ensures p !in t.active
  {
    Recount(l, s.procs, p, s'.procs[p]);
    if !(s.committing || NoRoom(s)) {
      Admitted(l, s, t);
    }
  }

  /** One more operation fits: nothing is listed unless another one runs, and ten blocks at most unless two do. */
  lemma Admitted(l: Layout, s: State, t: Spec)
    requires l.Ok() && Counts(s, t) && LogSpace(l, s) && !Booting(s.phase) && !s.committing && !NoRoom(s)
    ensures |s.lh| + Budget(MAXOPBLOCKS, s.procs) + MAXOPBLOCKS <= LOGSIZE
    ensures |s.lh| + Budget(l.quota, s.procs) + l.quota <= l.Longest()
  {
    BudgetBound(MAXOPBLOCKS, s.procs);
    BudgetBound(l.quota, s.procs);
    if s.outstanding == 0 {
      assert s.lh == [];
    }
    assert s.outstanding == 0 || s.outstanding == 1 || s.outstanding == 2;
  }

  /** One process moves on. */
  lemma Recount(l: Layout, procs: seq<Proc>, p: nat, q: Proc)
    requires p < |procs|
    ensures CountOps(procs[p := q]) == CountOps(procs) - (if procs[p].InOp? then 1 else 0) + (if q.InOp? then 1 else 0)
    ensures Budget(MAXOPBLOCKS, procs[p := q]) ==
            Budget(MAXOPBLOCKS, procs) - Unused(MAXOPBLOCKS, procs[p]) + Unused(MAXOPBLOCKS, q)
    ensures Budget(l.quota, procs[p := q]) == Budget(l.quota, procs) - Unused(l.quota, procs[p]) + Unused(l.quota, q)
  {
    CountUpdate(MAXOPBLOCKS, procs, p, q);
    CountUpdate(l.quota, procs, p, q);
  }

  /** Nobody enters or leaves an operation. */
  lemma Resame(l: Layout, a: seq<Proc>, b: seq<Proc>)
    requires |a| == |b|
    requires forall p | 0 <= p < |a| :: a[p].InOp? == b[p].InOp? && (a[p].InOp? ==> a[p] == b[p])
    ensures CountOps(a) == CountOps(b) && Budget(MAXOPBLOCKS, a) == Budget(MAXOPBLOCKS, b)
    ensures Budget(l.quota, a) == Budget(l.quota, b)
  {
    CountSame(MAXOPBLOCKS, a, b);
    CountSame(l.quota, a, b);
  }

  lemma NoOps(l: Layout, procs: seq<Proc>)
    requires forall p | 0 <= p < |procs| :: !procs[p].InOp?
    ensures CountOps(procs) == 0 && Budget(MAXOPBLOCKS, procs) == Budget(l.quota, procs) == 0
  {
    CountZero(MAXOPBLOCKS, procs);
    CountZero(l.quota, procs);
  }

  lemma EndStep(l: Layout, s: State, t: Spec, p: nat)
    requires Core(l, s, t) && Enabled(l, s, EndOp(p))
    ensures Simulates(l, s, t, EndOp(p))
  {
    var s' := Apply(l, s, EndOp(p));
    var t' := Perform(t, ActionOf(s, EndOp(p)));
    EndShape(l, s, t, s', t', p);
    EndControl(l, s, t, s', t', p);
    ContentsFrame(l, s, t, s', t');
  }

  lemma EndShape(l: Layout, s: State, t: Spec, s': State, t': Spec, p: nat)
    requires Shape(l, s, t) && Counts(s, t) && CacheOk(l, s)
    requires Enabled(l, s, EndOp(p))
    requires s' == Apply(l, s, EndOp(p)) && t' == t.(active := t.active - {p})
    ensures s.phase.Normal? && p in t.active && Shape(l, s', t') && CacheOk(l, s')
  {
    CountZero(MAXOPBLOCKS, s.procs);
  }

  /** The table of processes once `p` left its operation. */
  function Left(s: State, p: nat): seq<Proc>
    requires p < |s.procs|
  {
    if s.outstanding == 1 then s.procs[p := Committing] else Wakeup(s.procs[p := Outside])
  }

  lemma LeftCounts(l: Layout, s: State, p: nat)
    requires p < |s.procs| && s.procs[p].InOp?
    ensures |Left(s, p)| == |s.procs| && !Left(s, p)[p].InOp?
    ensures forall i | 0 <= i < |s.procs| && i != p ::
              Left(s, p)[i].InOp? == s.procs[i].InOp? && (s.procs[i].InOp? ==> Left(s, p)[i] == s.procs[i])
    ensures CountOps(Left(s, p)) == CountOps(s.procs) - 1
    ensures Budget(MAXOPBLOCKS, Left(s, p)) == Budget(MAXOPBLOCKS, s.procs) - Unused(MAXOPBLOCKS, s.procs[p])
    ensures Budget(l.quota, Left(s, p)) == Budget(l.quota, s.procs) - Unused(l.quota, s.procs[p])
  {
    var q := s.procs[p := if s.outstanding == 1 then Committing else Outside];
    Recount(l, s.procs, p, q[p]);
    Resame(l, q, Left(s, p));
  }

  lemma EndControl(l: Layout, s: State, t: Spec, s': State, t': Spec, p: nat)
    requires l.Ok() && Counts(s, t) && LogSpace(l, s) && SleepersAwaited(s) && s.phase.Normal?
    requires l.start < |s.disk| && Enabled(l, s, EndOp(p))
    requires s' == Apply(l, s, EndOp(p)) && t' == t.(active := t.active - {p})
    ensures Counts(s', t') && LogSpace(l, s') && SleepersAwaited(s')
  {
    CountZero(MAXOPBLOCKS, s.procs);
    LeftCounts(l, s, p);
    assert s'.procs == Left(s, p);
  }

  lemma FinishStep(l: Layout, s: State, t: Spec)
    requires Core(l, s, t) && Enabled(l, s, FinishCommit)
    ensures Simulates(l, s, t, FinishCommit)
  {
    var s' := Apply(l, s, FinishCommit);
    ContentsFrame(l, s, t, s', t);
    FinishControl(l, s, t, s');
  }

  lemma FinishControl(l: Layout, s: State, t: Spec, s': State)
    requires Counts(s, t) && LogSpace(l, s) && CacheOk(l, s) && s.phase.Finish? && s.lh == []
    requires l.start < |s.disk| && s' == Apply(l, s, FinishCommit)
    ensures Counts(s', t) && LogSpace(l, s') && SleepersAwaited(s') && CacheOk(l, s')
  {
    Resame(l, s.procs, s'.procs);
  }

  lemma CrashStep(l: Layout, s: State, t: Spec)
    requires Core(l, s, t)
    ensures Simulates(l, s, t, Crash)
  {
    CrashInv(l, s, t, Apply(l, s, Crash), Perform(t, Lose));
  }

  lemma CrashInv(l: Layout, s: State, t: Spec, s': State, t': Spec)
    requires Shape(l, s, t) && Recoverable(l, s, t)
    requires s' == State(s.disk, map[], [], 0, false, s'.procs, Boot) && |s'.procs| == |s.procs|
    requires forall p | 0 <= p < |s'.procs| :: s'.procs[p] == Outside
    requires t' == Spec(t.commits, Durable(t), {})
    ensures Core(l, s', t')
  {
    NoOps(l, s'.procs);
    assert forall b | l.Home(b) :: Replayed(l, s.disk, b) == Durable(t)[b];
  }

  lemma ReadHeadStep(l: Layout, s: State, t: Spec)
    requires Core(l, s, t) && Enabled(l, s, ReadHead)
    ensures Simulates(l, s, t, ReadHead)
  {
    var s' := Apply(l, s, ReadHead);
    assert DiskEntries(l, s.disk) == s'.lh;
    if s'.lh == [] {
      EmptyHeadMeansHome(l, s.disk, Durable(t));
    }
    forall j | 0 <= j < |s'.lh| ensures s.disk[l.start + 1 + j] == t.current[s'.lh[j]] {
      assert Slot(s'.lh, s'.lh[j]) == j;
      assert Replayed(l, s.disk, s'.lh[j]) == Durable(t)[s'.lh[j]];
    }
    ReadHeadHome(l, s, t, s');
    CountZero(MAXOPBLOCKS, s.procs);
    NoOps(l, s.procs);
    Becomes(l, s, t, ReadHead, s', t);
  }

  lemma ReadHeadHome(l: Layout, s: State, t: Spec, s': State)
    requires Shape(l, s, t) && Recoverable(l, s, t) && s.phase.Boot? && Shape(l, s', t)
    requires s' == Apply(l, s, ReadHead)
    ensures HomeAgrees(l, s', t)
  {
    forall b: uint | l.Home(b) && !Pending(s', b) ensures s.disk[b] == t.current[b] {
      assert Replayed(l, s.disk, b) == Durable(t)[b];
      if Slot(s'.lh, b) >= 0 {
        assert s'.phase == Install(0, true);
        assert Pending(s', b);
      }
    }
  }

  // Steps that change only the buffer cache.

  lemma CacheFrame(l: Layout, s: State, t: Spec, s': State)
    requires Core(l, s, t) && s' == s.(cache := s'.cache) && !s.phase.Boot?
    ensures Shape(l, s', t) && Counts(s', t) && LogSpace(l, s') && SleepersAwaited(s')
    ensures Recoverable(l, s', t) && LogCopied(l, s', t)
    ensures forall b: uint | l.Home(b) :: Pending(s', b) <==> Pending(s, b)
  {
  }

  /** A cache change that respects `BufAgrees`, pinning and the log buffers keeps the invariant. */
  lemma CacheStep(l: Layout, s: State, t: Spec, s': State, b: uint)
    requires Core(l, s, t) && s' == s.(cache := s'.cache) && !s.phase.Boot?
    requires forall c: uint | c != b ::
               (c in s'.cache <==> c in s.cache) && (c in s.cache ==> s'.cache[c] == s.cache[c])
    requires b < l.nblocks
    requires l.Home(b) || b !in s'.cache
    requires l.Home(b) ==>
      if Pending(s, b) then if Booting(s.phase) then b !in s'.cache else BufAgrees(l, s', t, b) && s'.cache[b].dirty
      else b in s'.cache ==> BufAgrees(l, s', t, b) && !s'.cache[b].dirty
    requires b in s'.cache && s'.cache[b].touched ==>
      s'.cache[b].holder.Some? && s'.cache[b].holder.value < |s.procs| && s.procs[s'.cache[b].holder.value].InOp?
    ensures Core(l, s', t)
  {
    CacheFrame(l, s, t, s');
    assert HomeAgrees(l, s', t);
  }

  lemma BreadStep(l: Layout, s: State, t: Spec, p: nat, b: uint)
    requires Core(l, s, t) && Enabled(l, s, Bread(p, b))
    ensures Simulates(l, s, t, Bread(p, b))
  {
    CacheStep(l, s, t, Apply(l, s, Bread(p, b)), b);
  }

  lemma ModifyStep(l: Layout, s: State, t: Spec, p: nat, b: uint, v: Block)
    requires Core(l, s, t) && Enabled(l, s, Modify(p, b, v))
    ensures Simulates(l, s, t, Modify(p, b, v))
  {
    ModifyCache(l, s, t, p, b, v);
    assert Perform(t, Stutter) == t;
  }

  lemma ModifyCache(l: Layout, s: State, t: Spec, p: nat, b: uint, v: Block)
    requires Core(l, s, t) && p < |s.procs| && s.procs[p].InOp? && HeldBy(s, b, p)
    ensures Core(l, s.(cache := s.cache[b := s.cache[b].(data := v, touched := true)]), t)
  {
    var held := s.cache[b];
    var s' := s.(cache := s.cache[b := held.(data := v, touched := true)]);
    assert l.Home(b) && !s.phase.Boot?;
    assert BufAgrees(l, s', t, b) && s'.cache[b].dirty == held.dirty;
    CacheStep(l, s, t, s', b);
  }

  lemma BrelseStep(l: Layout, s: State, t: Spec, p: nat, b: uint)
    requires Core(l, s, t) && Enabled(l, s, Brelse(p, b))
    ensures Simulates(l, s, t, Brelse(p, b))
  {
    CacheStep(l, s, t, Apply(l, s, Brelse(p, b)), b);
  }

  lemma EvictStep(l: Layout, s: State, t: Spec, b: uint)
    requires Core(l, s, t) && Enabled(l, s, Evict(b))
    ensures Simulates(l, s, t, Evict(b))
  {
    CacheStep(l, s, t, Apply(l, s, Evict(b)), b);
  }

  // log_write: the append is the only step that changes what the running group has written.

  lemma GuardStep(l: Layout, s: State, t: Spec, p: nat, b: uint)
    requires Core(l, s, t) && Enabled(l, s, LogGuard(p, b))
    ensures Simulates(l, s, t, LogGuard(p, b))
  {
    var s' := Apply(l, s, LogGuard(p, b));
    assert s' == s.(procs := s.procs[p := s.procs[p].(passed := Some(b))]);
    GuardCore(l, s, t, s', p);
    Becomes(l, s, t, LogGuard(p, b), s', t);
  }

  lemma GuardCore(l: Layout, s: State, t: Spec, s': State, p: nat)
    requires Core(l, s, t) && p < |s.procs| && s.procs[p].InOp? && |s'.procs| == |s.procs|
    requires s' == s.(procs := s.procs[p := s'.procs[p]])
    requires s'.procs[p].InOp? && s'.procs[p].logged == s.procs[p].logged
    ensures Core(l, s', t)
  {
    assert Shape(l, s', t);
    GuardControl(l, s, t, s', p);
    ContentsFrame(l, s, t, s', t);
    assert CacheOk(l, s');
  }

  lemma GuardControl(l: Layout, s: State, t: Spec, s': State, p: nat)
    requires Counts(s, t) && LogSpace(l, s) && SleepersAwaited(s)
    requires p < |s.procs| && s.procs[p].InOp? && |s'.procs| == |s.procs|
    requires s' == s.(procs := s.procs[p := s'.procs[p]])
    requires s'.procs[p].InOp? && s'.procs[p].logged == s.procs[p].logged
    ensures Counts(s', t) && LogSpace(l, s') && SleepersAwaited(s')
  {
    Recount(l, s.procs, p, s'.procs[p]);
  }

  lemma AppendStep(l: Layout, s: State, t: Spec, p: nat)
    requires Core(l, s, t) && Passing(l, s) && Enabled(l, s, LogAppend(p))
    ensures Simulates(l, s, t, LogAppend(p))
  {
    var b := s.procs[p].passed.value;
    var s' := Apply(l, s, LogAppend(p));
    AppendCore(l, s, t, s', t.(current := t.current[b := s.cache[b].data]), p, b);
  }

  /** log_write under the lock. */
  ghost predicate Appends(s: State, s': State, p: nat, b: uint)
    requires p < |s.procs| && s.procs[p].InOp? && b in s.cache
  {
    s' == s.(lh := Absorb(s.lh, b),
             cache := s.cache[b := s.cache[b].(dirty := true, touched := false)],
             procs := s.procs[p := InOp(s.procs[p].logged + {b}, None)])
  }

  lemma AppendCore(l: Layout, s: State, t: Spec, s': State, t': Spec, p: nat, b: uint)
    requires Core(l, s, t) && p < |s.procs| && s.procs[p].InOp? && HeldBy(s, b, p) && l.Home(b)
    requires |s.procs[p].logged + {b}| <= l.quota
    requires Appends(s, s', p, b) && t' == t.(current := t.current[b := s.cache[b].data])
    ensures p in t.active && Core(l, s', t')
  {
    CountZero(MAXOPBLOCKS, s.procs);
    AppendControl(l, s, t, s', t', p, b);
    AppendHome(l, s, t, s', t', p, b);
    assert CacheOk(l, s');
  }

  lemma AppendControl(l: Layout, s: State, t: Spec, s': State, t': Spec, p: nat, b: uint)
    requires Shape(l, s, t) && Counts(s, t) && LogSpace(l, s) && SleepersAwaited(s) && s.phase.Normal?
    requires p < |s.procs| && s.procs[p].InOp? && b in s.cache && l.Home(b) && |s.procs[p].logged + {b}| <= l.quota
    requires Appends(s, s', p, b) && t' == t.(current := t'.current) && |t'.current| == |t.current|
    ensures Shape(l, s', t') && Counts(s', t') && LogSpace(l, s') && SleepersAwaited(s')
  {
    AppendSpace(l, s, s', p, b);
    CountZero(MAXOPBLOCKS, s.procs);
    assert b !in s.lh ==> s'.lh[|s.lh|] == b;
  }

  /** A block the operation had not logged uses up one of those it may still log. */
  lemma AppendSpace(l: Layout, s: State, s': State, p: nat, b: uint)
    requires l.Ok() && l.Roomy() && LogSpace(l, s) && s.phase.Normal?
    requires p < |s.procs| && s.procs[p].InOp? && b in s.cache && |s.procs[p].logged + {b}| <= l.quota
    requires Appends(s, s', p, b)
    ensures LogSpace(l, s') && CountOps(s'.procs) == CountOps(s.procs) && |s'.lh| < l.size && |s'.lh| <= LOGSIZE
  {
    Recount(l, s.procs, p, s'.procs[p]);
    var logged := s.procs[p].logged;
    if b in logged {
      assert logged + {b} == logged;
    } else {
      assert |logged + {b}| == |logged| + 1;
    }
    assert s'.lh == if b in s.lh then s.lh else s.lh + [b];
    Unspent(l, s'.procs);
  }

  lemma Unspent(l: Layout, procs: seq<Proc>)
    requires l.Ok() && forall p | 0 <= p < |procs| && procs[p].InOp? :: |procs[p].logged| <= l.quota
    ensures Budget(MAXOPBLOCKS, procs) >= 0 && Budget(l.quota, procs) >= 0
  {
    if |procs| > 0 {
      BudgetCovers(MAXOPBLOCKS, procs, 0);
      BudgetCovers(l.quota, procs, 0);
    }
  }

  lemma AppendHome(l: Layout, s: State, t: Spec, s': State, t': Spec, p: nat, b: uint)
    requires Shape(l, s, t) && Recoverable(l, s, t) && HomeAgrees(l, s, t) && s.phase.Normal?
    requires p < |s.procs| && s.procs[p].InOp? && l.Home(b) && HeldBy(s, b, p)
    requires Appends(s, s', p, b) && t' == t.(current := t.current[b := s.cache[b].data]) && Shape(l, s', t')
    ensures Recoverable(l, s', t') && LogCopied(l, s', t') && HomeAgrees(l, s', t')
  {
    assert b in s'.lh by {
      assert b !in s.lh ==> s'.lh[|s.lh|] == b;
    }
    assert forall c: uint | c != b :: Pending(s', c) <==> Pending(s, c) by {
      forall c: uint | c != b && Pending(s, c) ensures Pending(s', c) {
        var i :| 0 <= i < |s.lh| && s.lh[i] == c;
        assert s'.lh[i] == c;
      }
    }
  }

  // The disk writes of commit() and recover_from_log().

  lemma CopyStep(l: Layout, s: State, t: Spec)
    requires Core(l, s, t) && Enabled(l, s, CopyBlock)
    ensures Simulates(l, s, t, CopyBlock)
  {
    var s' := Apply(l, s, CopyBlock);
    CopyInv(l, s, t, s');
    Becomes(l, s, t, CopyBlock, s', t);
  }

  lemma CopyInv(l: Layout, s: State, t: Spec, s': State)
    requires Core(l, s, t) && s.phase.Copy? && s.lh[s.phase.i] < |s.disk| && l.start + 1 + s.phase.i < UINT_SIZE
    requires Unheld(s, s.lh[s.phase.i])
    requires s' == WriteBlock(s, l.start + 1 + s.phase.i, View(s, s.lh[s.phase.i]))
                     .(phase := if s.phase.i + 1 < |s.lh| then Copy(s.phase.i + 1) else Head)
    ensures Core(l, s', t)
  {
    CopyRest(l, s, t, s');
    ControlFrame(l, s, t, s', t);
    LogAreaWriteFrame(l, s, t, s', l.start + 1 + s.phase.i, View(s, s.lh[s.phase.i]));
  }

  /** The log block gets what the file system sees, and recovery does not look at it yet. */
  lemma CopyRest(l: Layout, s: State, t: Spec, s': State)
    requires Shape(l, s, t) && Recoverable(l, s, t) && LogCopied(l, s, t) && HomeAgrees(l, s, t) && CacheOk(l, s)
    requires s.phase.Copy? && s.lh[s.phase.i] < |s.disk| && l.start + 1 + s.phase.i < UINT_SIZE
    requires Unheld(s, s.lh[s.phase.i])
    requires s' == WriteBlock(s, l.start + 1 + s.phase.i, View(s, s.lh[s.phase.i]))
                     .(phase := if s.phase.i + 1 < |s.lh| then Copy(s.phase.i + 1) else Head)
    ensures Shape(l, s', t) && Recoverable(l, s', t) && LogCopied(l, s', t)
  {
    var i := s.phase.i;
    var b := s.lh[i];
    assert l.Home(b) && Pending(s, b);
    assert View(s, b) == t.current[b];
    LogDataWriteInvisible(l, s.disk, Durable(t), i, View(s, b));
    assert s'.disk[l.start] == s.disk[l.start];
  }

  /** A write of a log block leaves the agreement of the home blocks alone. */
  lemma LogAreaWriteFrame(l: Layout, s: State, t: Spec, s': State, b: uint, v: Block)
    requires Shape(l, s, t) && HomeAgrees(l, s, t) && CacheOk(l, s) && Shape(l, s', t)
    requires !s.phase.Boot? && b < |s.disk| && !l.Home(b)
    requires s'.disk == s.disk[b := v] && s'.cache == s.cache[b := Clean(v)] && s'.procs == s.procs
    requires s'.lh == s.lh && InstalledCount(s') == InstalledCount(s) && Booting(s'.phase) == Booting(s.phase)
    ensures HomeAgrees(l, s', t) && CacheOk(l, s')
  {
    assert forall c: uint | l.Home(c) :: Pending(s', c) <==> Pending(s, c);
  }

  lemma HeadStep(l: Layout, s: State, t: Spec)
    requires Core(l, s, t) && Enabled(l, s, WriteHead)
    ensures Simulates(l, s, t, WriteHead)
  {
    ActiveNone(s, t);
    HeadInv(l, s, t, Apply(l, s, WriteHead), Perform(t, Commit));
  }

  lemma HeadInv(l: Layout, s: State, t: Spec, s': State, t': Spec)
    requires Core(l, s, t) && s.phase.Head? && l.start < UINT_SIZE
    requires s' == WriteBlock(s, l.start, HeadBlock(View(s, l.start), s.lh)).(phase := Install(0, false))
    requires t' == t.(commits := t.commits + [t.current])
    ensures Core(l, s', t')
  {
    ControlFrame(l, s, t, s', t');
    LogAreaWriteFrame(l, s, t, s', l.start, HeadBlock(View(s, l.start), s.lh));
    HeadRest(l, s, t, s', t');
  }

  lemma HeadRest(l: Layout, s: State, t: Spec, s': State, t': Spec)
    requires Shape(l, s, t) && Recoverable(l, s, t) && LogCopied(l, s, t) && HomeAgrees(l, s, t)
    requires s.phase.Head? && l.start < UINT_SIZE
    requires s' == WriteBlock(s, l.start, HeadBlock(View(s, l.start), s.lh)).(phase := Install(0, false))
    requires t' == t.(commits := t.commits + [t.current])
    ensures Shape(l, s', t') && LogCopied(l, s', t') && Recoverable(l, s', t')
  {
    HeadDisk(l, s, t, View(s, l.start));
    assert Durable(t') == t.current;
    assert s'.disk == s.disk[l.start := HeadBlock(View(s, l.start), s.lh)];
  }

  lemma HeadDisk(l: Layout, s: State, t: Spec, h: Block)
    requires Shape(l, s, t) && Recoverable(l, s, t) && LogCopied(l, s, t) && HomeAgrees(l, s, t) && s.phase.Head?
    ensures StandsFor(l, s.disk[l.start := HeadBlock(h, s.lh)], t.current)
    ensures DiskEntries(l, s.disk[l.start := HeadBlock(h, s.lh)]) == s.lh
  {
    forall b | l.Home(b) && b !in s.lh ensures s.disk[b] == t.current[b] {
      var c: uint := b;
      assert !Pending(s, c);
    }
    HeadWriteCommits(l, s.disk, s.lh, h, t.current);
  }

  /** install_trans writes the buffer and the disk block of entry `k`. */
  ghost predicate Installs(l: Layout, s: State, s': State)
    requires s.phase.Install? && s.phase.k < |s.lh| && s.lh[s.phase.k] < |s.disk|
    requires l.start + 1 + s.phase.k < |s.disk| <= UINT_SIZE
  {
    var k := s.phase.k;
    var v := View(s, l.start + 1 + k);
    s' == WriteBlock(s.(cache := s.cache[l.start + 1 + k := Clean(v)]), s.lh[k], v)
            .(phase := if k + 1 < |s.lh| then Install(k + 1, s.phase.boot) else Clear(s.phase.boot))
  }

  lemma InstallStep(l: Layout, s: State, t: Spec)
    requires Core(l, s, t) && Enabled(l, s, InstallBlock)
    ensures Simulates(l, s, t, InstallBlock)
  {
    InstallApplies(l, s);
    var s' := Apply(l, s, InstallBlock);
    InstallInv(l, s, t, s');
    Becomes(l, s, t, InstallBlock, s', t);
  }

  lemma InstallApplies(l: Layout, s: State)
    requires l.start < |s.disk| && Enabled(l, s, InstallBlock)
    ensures Installs(l, s, Apply(l, s, InstallBlock))
    ensures ActionOf(s, InstallBlock) == Stutter
  {
  }

  lemma InstallInv(l: Layout, s: State, t: Spec, s': State)
    requires Core(l, s, t)
    requires s.phase.Install? && s.lh[s.phase.k] < |s.disk| && l.start + 1 + s.phase.k < |s.disk| <= UINT_SIZE
    requires Installs(l, s, s')
    ensures Core(l, s', t)
  {
    ControlFrame(l, s, t, s', t);
    InstallDisk(l, s, t, s');
    InstallHome(l, s, t, s');
  }

  lemma InstallDisk(l: Layout, s: State, t: Spec, s': State)
    requires Shape(l, s, t) && Recoverable(l, s, t) && LogCopied(l, s, t) && CacheOk(l, s)
    requires s.phase.Install? && s.lh[s.phase.k] < |s.disk| && l.start + 1 + s.phase.k < |s.disk| <= UINT_SIZE
    requires Installs(l, s, s')
    ensures View(s, l.start + 1 + s.phase.k) == t.current[s.lh[s.phase.k]] == s.disk[l.start + 1 + s.phase.k]
    ensures Shape(l, s', t) && Recoverable(l, s', t) && LogCopied(l, s', t)
  {
    var k := s.phase.k;
    var c: uint := l.start + 1 + k;
    assert !l.Home(c) && View(s, c) == s.disk[c];
    assert s'.disk == s.disk[s.lh[k] := s.disk[c]];
    InstallInvisible(l, s.disk, Durable(t), k);
    assert s'.disk[l.start] == s.disk[l.start];
    InstallLog(l, s, t, s');
  }

  /** The log blocks are not home blocks. */
  lemma InstallLog(l: Layout, s: State, t: Spec, s': State)
    requires Shape(l, s, t) && LogCopied(l, s, t) && s.phase.Install? && s.lh[s.phase.k] < |s.disk|
    requires l.start + 1 + s.phase.k < |s.disk| <= UINT_SIZE && Installs(l, s, s')
    ensures Shape(l, s', t) && LogCopied(l, s', t)
  {
    assert l.Home(s.lh[s.phase.k]);
  }

  lemma InstallHome(l: Layout, s: State, t: Spec, s': State)
    requires Shape(l, s, t) && HomeAgrees(l, s, t) && CacheOk(l, s) && Shape(l, s', t)
    requires s.phase.Install? && s.lh[s.phase.k] < |s.disk| && l.start + 1 + s.phase.k < |s.disk| <= UINT_SIZE
    requires Installs(l, s, s')
    requires View(s, l.start + 1 + s.phase.k) == t.current[s.lh[s.phase.k]] == s.disk[l.start + 1 + s.phase.k]
    ensures HomeAgrees(l, s', t) && CacheOk(l, s')
  {
    var b := s.lh[s.phase.k];
    assert !l.Home(l.start + 1 + s.phase.k);
    assert forall c: uint | l.Home(c) && c != b :: Pending(s', c) <==> Pending(s, c);
    assert !Pending(s', b);
  }

  lemma ClearStep(l: Layout, s: State, t: Spec)
    requires Core(l, s, t) && Enabled(l, s, ClearHead)
    ensures Simulates(l, s, t, ClearHead)
  {
    ClearInv(l, s, t, Apply(l, s, ClearHead));
  }

  lemma ClearHome(l: Layout, s: State, t: Spec, s': State)
    requires Shape(l, s, t) && HomeAgrees(l, s, t) && CacheOk(l, s) && s.phase.Clear? && l.start < UINT_SIZE &&
             Shape(l, s', t)
    requires s' == WriteBlock(s, l.start, HeadBlock(View(s, l.start), []))
                     .(lh := [], phase := if s.phase.boot then Normal else Finish)
    ensures HomeAgrees(l, s', t) && CacheOk(l, s')
  {
    assert forall b: uint | l.Home(b) :: !Pending(s, b) && !Pending(s', b);
  }

  lemma ClearInv(l: Layout, s: State, t: Spec, s': State)
    requires Core(l, s, t) && s.phase.Clear? && l.start < UINT_SIZE
    requires s' == WriteBlock(s, l.start, HeadBlock(View(s, l.start), []))
                     .(lh := [], phase := if s.phase.boot then Normal else Finish)
    ensures Core(l, s', t)
  {
    assert forall b: uint | l.Home(b) :: !Pending(s, b) && !Pending(s', b);
    assert SameHome(l, s.disk, Durable(t));
    HeadClearKeeps(l, s.disk, View(s, l.start), Durable(t));
    CountZero(MAXOPBLOCKS, s.procs);
    NoOps(l, s.procs);
    ClearHome(l, s, t, s');
  }

  // Whole runs.

  /** Nobody takes the block away from a process inside log_write. */
  lemma PassingStep(l: Layout, s: State, e: Event)
    requires Passing(l, s) && l.start < |s.disk| && Enabled(l, s, e)
    ensures Passing(l, Apply(l, s, e))
  {
    var s' := Apply(l, s, e);
    forall p | 0 <= p < |s'.procs| && s'.procs[p].InOp? && s'.procs[p].passed.Some?
      ensures HeldBy(s', s'.procs[p].passed.value, p) && l.Home(s'.procs[p].passed.value)
      ensures |s'.procs[p].logged + {s'.procs[p].passed.value}| <= l.quota
    {
      if !e.LogGuard? || e.p != p {
        StillPassing(l, s, e, p);
      }
    }
  }

  lemma StillPassing(l: Layout, s: State, e: Event, p: nat)
    requires Passing(l, s) && l.start < |s.disk| && Enabled(l, s, e) && (e.LogGuard? ==> e.p != p)
    requires p < |Apply(l, s, e).procs| && Apply(l, s, e).procs[p].InOp? && Apply(l, s, e).procs[p].passed.Some?
    ensures p < |s.procs| && s.procs[p] == Apply(l, s, e).procs[p]
    ensures HeldBy(Apply(l, s, e), s.procs[p].passed.value, p)
  {
    var s' := Apply(l, s, e);
    assert s'.procs[p] == s.procs[p];
    var b := s.procs[p].passed.value;
    assert HeldBy(s, b, p);
  }

  lemma Step(l: Layout, s: State, t: Spec, e: Event)
    requires Inv(l, s, t) && Enabled(l, s, e)
    ensures Allowed(t, ActionOf(s, e)) && Inv(l, Apply(l, s, e), Perform(t, ActionOf(s, e)))
  {
    PassingStep(l, s, e);
    CoreStep(l, s, t, e);
  }

  lemma CoreStep(l: Layout, s: State, t: Spec, e: Event)
    requires Core(l, s, t) && Passing(l, s) && Enabled(l, s, e)
    ensures Simulates(l, s, t, e)
  {
    match e
    case BeginOp(p) => BeginStep(l, s, t, p);
    case EndOp(p) => EndStep(l, s, t, p);
    case Bread(p, b) => BreadStep(l, s, t, p, b);
    case Modify(p, b, v) => ModifyStep(l, s, t, p, b, v);
    case LogGuard(p, b) => GuardStep(l, s, t, p, b);
    case LogAppend(p) => AppendStep(l, s, t, p);
    case Brelse(p, b) => BrelseStep(l, s, t, p, b);
    case Evict(b) => EvictStep(l, s, t, b);
    case CopyBlock => CopyStep(l, s, t);
    case WriteHead => HeadStep(l, s, t);
    case InstallBlock => InstallStep(l, s, t);
    case ClearHead => ClearStep(l, s, t);
    case FinishCommit => FinishStep(l, s, t);
    case Crash => CrashStep(l, s, t);
    case ReadHead => ReadHeadStep(l, s, t);
  }
}
