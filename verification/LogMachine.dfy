/**
 The logging protocol of log.c as a state machine: any number of processes, code between
 acquire and release of log.lock as one step, every disk write as one step, and a crash
 after any step, recovery included.
 */
module LogMachine {
  import opened Blocks
  import opened LogLayout

  datatype Option<T> = None | Some(value: T)

  /** A cached block. `touched` says that its holder changed the data and did not log_write it since. */
  datatype Buf = Buf(data: Block, dirty: bool, holder: Option<nat>, touched: bool)

  /**
   Where a process stands: `logged` are the blocks its operation has passed to log_write, and `passed` is the block for
   which it is between log_write's guard and the lock.
   */
  datatype Proc = Outside | Asleep | InOp(logged: set<uint>, passed: Option<uint>) | Committing

  /** Progress of commit() and, with `boot` set, of recover_from_log(). */
  datatype Phase =
    | Boot
    | Normal
    | Copy(i: nat)
    | Head
    | Install(k: nat, boot: bool)
    | Clear(boot: bool)
    | Finish

  datatype State = State(
    disk: Disk,
    cache: map<uint, Buf>,
    lh: seq<uint>,
    outstanding: int,
    committing: bool,
    procs: seq<Proc>,
    phase: Phase)

  datatype Event =
    | BeginOp(p: nat)
    | EndOp(p: nat)
    | Bread(p: nat, b: uint)
    | Modify(p: nat, b: uint, v: Block)
    | LogGuard(p: nat, b: uint)
    | LogAppend(p: nat)
    | Brelse(p: nat, b: uint)
    | Evict(b: uint)
    | CopyBlock
    | WriteHead
    | InstallBlock
    | ClearHead
    | FinishCommit
    | Crash
    | ReadHead

  predicate Booting(ph: Phase) {
    ph.Boot? || (ph.Install? && ph.boot) || (ph.Clear? && ph.boot)
  }

  /** What bread would return for block `b`. */
  function View(s: State, b: uint): Block
    requires b < |s.disk|
  {
    if b in s.cache then s.cache[b].data else s.disk[b]
  }

  predicate Unheld(s: State, b: uint) {
    b in s.cache ==> s.cache[b].holder == None
  }

  predicate HeldBy(s: State, b: uint, p: nat) {
    b in s.cache && s.cache[b].holder == Some(p)
  }

  /** The room test of begin_op. */
  predicate NoRoom(s: State) {
    |s.lh| + (s.outstanding + 1) * MAXOPBLOCKS > LOGSIZE
  }

  /** wakeup(&log): sleepers return to the loop of begin_op. */
  function Wakeup(procs: seq<Proc>): (r: seq<Proc>)
    ensures |r| == |procs|
    ensures forall p | 0 <= p < |r| :: r[p] == if procs[p].Asleep? then Outside else procs[p]
  {
    seq(|procs|, p requires 0 <= p < |procs| => if procs[p].Asleep? then Outside else procs[p])
  }

  /** The block list after log_write of block `b`: absorbed if it is already there. */
  function Absorb(lh: seq<uint>, b: uint): seq<uint> {
    if b in lh then lh else lh + [b]
  }

  /** The panic "too big a transaction", whose test comes before the search for an absorbed block. */
  predicate TooBig(l: Layout, s: State) {
    |s.lh| >= LOGSIZE || |s.lh| >= l.size - 1
  }

  /** The process is in an operation and not inside log_write. */
  predicate Working(s: State, p: nat) {
    p < |s.procs| && s.procs[p].InOp? && s.procs[p].passed == None
  }

  /** The process passed the guard of log_write for a block it holds. */
  predicate Inside(s: State, p: nat) {
    p < |s.procs| && s.procs[p].InOp? && s.procs[p].passed.Some? && s.procs[p].passed.value in s.cache
  }

  /**
   When an event can happen. For the file system's own steps this is what fs.c does: an
   operation changes only buffers it holds, logs a changed buffer before brelse, holds none at
   end_op, and logs at most `quota` different blocks. log_write looks at its guard before it takes log.lock, so the
   guard and the rest are two events.
   */
  predicate Enabled(l: Layout, s: State, e: Event)
    requires l.start < |s.disk|
  {
    match e
    case BeginOp(p) => p < |s.procs| && s.procs[p] == Outside && !Booting(s.phase)
    case EndOp(p) => Working(s, p) && forall b | b in s.cache :: !HeldBy(s, b, p)
    case Bread(p, b) =>
      p < |s.procs| && (s.procs[p] == Outside || Working(s, p)) && !Booting(s.phase) && l.Home(b) &&
      b < |s.disk| && Unheld(s, b)
    case Modify(p, b, v) => Working(s, p) && HeldBy(s, b, p)
    case LogGuard(p, b) =>
      Working(s, p) && HeldBy(s, b, p) && l.Home(b) && !TooBig(l, s) && |s.procs[p].logged + {b}| <= l.quota
    case LogAppend(p) => Inside(s, p)
    case Brelse(p, b) => HeldBy(s, b, p) && !Inside(s, p) && !s.cache[b].touched
    case Evict(b) => b in s.cache && Unheld(s, b) && !s.cache[b].dirty
    case CopyBlock =>
      s.phase.Copy? && s.phase.i < |s.lh| && l.start + 1 + s.phase.i < |s.disk| <= UINT_SIZE &&
      s.lh[s.phase.i] < |s.disk| && Unheld(s, s.lh[s.phase.i]) && Unheld(s, l.start + 1 + s.phase.i)
    case WriteHead => s.phase.Head? && |s.lh| <= LOGSIZE && l.start < UINT_SIZE && Unheld(s, l.start)
    case InstallBlock =>
      s.phase.Install? && s.phase.k < |s.lh| && l.start + 1 + s.phase.k < |s.disk| <= UINT_SIZE &&
      s.lh[s.phase.k] < |s.disk| && Unheld(s, s.lh[s.phase.k]) && Unheld(s, l.start + 1 + s.phase.k)
    case ClearHead => s.phase.Clear? && l.start < UINT_SIZE && Unheld(s, l.start)
    case FinishCommit => s.phase.Finish?
    case Crash => true
    case ReadHead => s.phase.Boot? && Word(s.disk[l.start], 0) <= LOGSIZE
  }

  function Clean(v: Block): Buf {
    Buf(v, false, None, false)
  }

  /** bwrite: the block reaches the disk and its buffer is clean again. */
  function WriteBlock(s: State, b: uint, v: Block): State
    requires b < |s.disk|
  {
    s.(disk := s.disk[b := v], cache := s.cache[b := Clean(v)])
  }

  function Apply(l: Layout, s: State, e: Event): State
    requires l.start < |s.disk| && Enabled(l, s, e)
  {
    match e
    case BeginOp(p) =>
      if s.committing || NoRoom(s) then s.(procs := s.procs[p := Asleep])
      else s.(procs := s.procs[p := InOp({}, None)], outstanding := s.outstanding + 1)
    case EndOp(p) =>
      if s.outstanding - 1 == 0 then
        s.(outstanding := 0, committing := true, procs := s.procs[p := Committing],
           phase := if |s.lh| > 0 then Copy(0) else Finish)
      else
        s.(outstanding := s.outstanding - 1, procs := Wakeup(s.procs[p := Outside]))
    case Bread(p, b) =>
      s.(cache := s.cache[b := Buf(View(s, b), b in s.cache && s.cache[b].dirty, Some(p), false)])
    case Modify(p, b, v) => s.(cache := s.cache[b := s.cache[b].(data := v, touched := true)])
    case LogGuard(p, b) => s.(procs := s.procs[p := s.procs[p].(passed := Some(b))])
    case LogAppend(p) =>
      var b := s.procs[p].passed.value;
      s.(lh := Absorb(s.lh, b),
         cache := s.cache[b := s.cache[b].(dirty := true, touched := false)],
         procs := s.procs[p := InOp(s.procs[p].logged + {b}, None)])
    case Brelse(p, b) => s.(cache := s.cache[b := s.cache[b].(holder := None)])
    case Evict(b) => s.(cache := s.cache - {b})
    case CopyBlock =>
      var i := s.phase.i;
      var v := View(s, s.lh[i]);
      WriteBlock(s, l.start + 1 + i, v).(phase := if i + 1 < |s.lh| then Copy(i + 1) else Head)
    case WriteHead =>
      WriteBlock(s, l.start, HeadBlock(View(s, l.start), s.lh)).(phase := Install(0, false))
    case InstallBlock =>
      var k := s.phase.k;
      var v := View(s, l.start + 1 + k);
      WriteBlock(s.(cache := s.cache[l.start + 1 + k := Clean(v)]), s.lh[k], v)
        .(phase := if k + 1 < |s.lh| then Install(k + 1, s.phase.boot) else Clear(s.phase.boot))
    case ClearHead =>
      WriteBlock(s, l.start, HeadBlock(View(s, l.start), []))
        .(lh := [], phase := if s.phase.boot then Normal else Finish)
    case FinishCommit =>
      s.(committing := false, phase := Normal,
         procs := Wakeup(seq(|s.procs|, p requires 0 <= p < |s.procs| =>
                             if s.procs[p] == Committing then Outside else s.procs[p])))
    case Crash =>
      State(s.disk, map[], [], 0, false, seq(|s.procs|, p => Outside), Boot)
    case ReadHead =>
      var lh := Entries(s.disk[l.start]);
      s.(lh := lh, phase := if |lh| > 0 then Install(0, true) else Clear(true))
  }

  // The specification: file system operations whose effects become durable in atomic groups.

  /** `commits` are the contents made durable by each group commit, the newest last. */
  datatype Spec = Spec(commits: seq<Disk>, current: Disk, active: set<nat>)

  datatype Action =
    | Begin(p: nat)
    | Write(p: nat, b: uint, v: Block)
    | End(p: nat)
    | Commit
    | Lose
    | Stutter

  /** Only a running operation writes, and a group commits only when no operation is running. */
  predicate Allowed(t: Spec, a: Action) {
    match a
    case Begin(p) => p !in t.active
    case Write(p, b, v) => p in t.active && b < |t.current|
    case End(p) => p in t.active
    case Commit => t.active == {}
    case Lose => |t.commits| > 0
    case Stutter => true
  }

  function Perform(t: Spec, a: Action): Spec
    requires Allowed(t, a)
  {
    match a
    case Begin(p) => t.(active := t.active + {p})
    case Write(p, b, v) => t.(current := t.current[b := v])
    case End(p) => t.(active := t.active - {p})
    case Commit => t.(commits := t.commits + [t.current])
    case Lose => t.(current := t.commits[|t.commits| - 1], active := {})
    case Stutter => t
  }

  /** The specification's view of an event. */
  function ActionOf(s: State, e: Event): Action {
    match e
    case BeginOp(p) => if s.committing || NoRoom(s) then Stutter else Begin(p)
    case EndOp(p) => End(p)
    case LogAppend(p) =>
      if Inside(s, p) then Write(p, s.procs[p].passed.value, s.cache[s.procs[p].passed.value].data) else Stutter
    case WriteHead => Commit
    case Crash => Lose
    case _ => Stutter
  }

  // The invariant.

  function CountOps(procs: seq<Proc>): nat {
    if procs == [] then 0 else CountOps(procs[..|procs| - 1]) + (if procs[|procs| - 1].InOp? then 1 else 0)
  }

  function Unused(m: nat, q: Proc): int {
    if q.InOp? then m - |q.logged| else 0
  }

  /** Log blocks that running operations may still claim when each may log `m`. */
  function Budget(m: nat, procs: seq<Proc>): int {
    if procs == [] then 0 else Budget(m, procs[..|procs| - 1]) + Unused(m, procs[|procs| - 1])
  }

  /** How many entries of the transaction are already in their home blocks. */
  function InstalledCount(s: State): nat {
    match s.phase
    case Install(k, _) => k
    case Clear(_) => |s.lh|
    case Finish => |s.lh|
    case _ => 0
  }

  predicate Pending(s: State, b: uint) {
    exists i :: InstalledCount(s) <= i < |s.lh| && s.lh[i] == b
  }

  /** How many entries of the transaction are already in the log blocks on disk. */
  function CopiedCount(s: State): nat {
    match s.phase
    case Copy(i) => i
    case Head => |s.lh|
    case Install(_, _) => |s.lh|
    case Clear(_) => |s.lh|
    case _ => 0
  }

  function Durable(t: Spec): Disk
    requires |t.commits| > 0
  {
    t.commits[|t.commits| - 1]
  }

  ghost predicate Shape(l: Layout, s: State, t: Spec) {
    l.Ok() && l.Roomy() && |s.disk| == |t.current| == l.nblocks && |t.commits| > 0 &&
    EntriesOk(l, s.lh) &&
    InstalledCount(s) <= |s.lh| && CopiedCount(s) <= |s.lh| &&
    (s.phase.Boot? ==> s.lh == [] && s.cache == map[]) &&
    (s.phase.Copy? ==> s.phase.i < |s.lh|) &&
    (s.phase.Head? ==> s.lh != []) &&
    (s.phase.Install? ==> s.phase.k < |s.lh|) &&
    (s.phase.Finish? ==> s.lh == [])
  }

  ghost predicate Counts(s: State, t: Spec) {
    t.active == (set p: nat | p < |s.procs| && s.procs[p].InOp?) &&
    s.outstanding == CountOps(s.procs) &&
    (s.committing <==> !s.phase.Normal? && !Booting(s.phase)) &&
    (s.committing || Booting(s.phase) ==> s.outstanding == 0) &&
    (s.phase.Normal? && s.outstanding == 0 ==> s.lh == [])
  }

  /** The log never runs out: what is logged plus what may still be logged fits the header and the log region. */
  ghost predicate LogSpace(l: Layout, s: State) {
    |s.lh| + Budget(MAXOPBLOCKS, s.procs) <= LOGSIZE &&
    (!Booting(s.phase) ==> |s.lh| + Budget(l.quota, s.procs) <= l.Longest()) &&
    forall p | 0 <= p < |s.procs| && s.procs[p].InOp? ::
      |s.procs[p].logged| <= l.quota && forall b | b in s.procs[p].logged :: b in s.lh
  }

  /** A process inside log_write still holds the block, which is within its quota. */
  ghost predicate Passing(l: Layout, s: State) {
    forall p | 0 <= p < |s.procs| && s.procs[p].InOp? && s.procs[p].passed.Some? ::
      HeldBy(s, s.procs[p].passed.value, p) && l.Home(s.procs[p].passed.value) &&
      |s.procs[p].logged + {s.procs[p].passed.value}| <= l.quota
  }

  /** A process asleep in begin_op waits for something that is under way. */
  ghost predicate SleepersAwaited(s: State) {
    forall p | 0 <= p < |s.procs| && s.procs[p].Asleep? ::
      s.committing || (s.outstanding > 0 && NoRoom(s))
  }

  ghost predicate Recoverable(l: Layout, s: State, t: Spec)
    requires |t.commits| > 0
  {
    StandsFor(l, s.disk, Durable(t)) &&
    (s.phase.Install? || s.phase.Clear? ==> DiskEntries(l, s.disk) == s.lh) &&
    (s.phase.Normal? || s.phase.Copy? || s.phase.Head? || s.phase.Finish? ==> DiskEntries(l, s.disk) == []) &&
    (s.phase.Install? || s.phase.Clear? || s.phase.Finish? || s.phase.Boot? ==>
       SameHome(l, t.current, Durable(t)))
  }

  ghost predicate LogCopied(l: Layout, s: State, t: Spec)
    requires Shape(l, s, t)
  {
    forall j | 0 <= j < CopiedCount(s) :: s.disk[l.start + 1 + j] == t.current[s.lh[j]]
  }

  ghost predicate BufAgrees(l: Layout, s: State, t: Spec, b: uint)
    requires b < |t.current|
  {
    b in s.cache && (!s.cache[b].touched ==> s.cache[b].data == t.current[b])
  }

  /** Home blocks: pinned in the cache while pending, equal on disk and in the cache otherwise. */
  ghost predicate HomeAgrees(l: Layout, s: State, t: Spec)
    requires Shape(l, s, t)
  {
    !s.phase.Boot? ==>
      forall b: uint | l.Home(b) ::
        if Pending(s, b) then
          if Booting(s.phase) then b !in s.cache else BufAgrees(l, s, t, b) && s.cache[b].dirty
        else
          s.disk[b] == t.current[b] && (b in s.cache ==> BufAgrees(l, s, t, b) && !s.cache[b].dirty)
  }

  ghost predicate CacheOk(l: Layout, s: State) {
    |s.disk| == l.nblocks &&
    forall b: uint | b in s.cache ::
      b < l.nblocks &&
      (!l.Home(b) ==> s.cache[b] == Clean(s.disk[b])) &&
      (s.cache[b].touched ==> s.cache[b].holder.Some? && s.cache[b].holder.value < |s.procs| &&
                              s.procs[s.cache[b].holder.value].InOp?)
  }

  ghost predicate Core(l: Layout, s: State, t: Spec) {
    Shape(l, s, t) && Counts(s, t) && LogSpace(l, s) && SleepersAwaited(s) && Recoverable(l, s, t) &&
    LogCopied(l, s, t) && HomeAgrees(l, s, t) && CacheOk(l, s)
  }

  ghost predicate Inv(l: Layout, s: State, t: Spec) {
    Core(l, s, t) && Passing(l, s)
  }

  // Counting lemmas.

  lemma {:induction false} CountUpdate(m: nat, procs: seq<Proc>, p: nat, q: Proc)
    requires p < |procs|
    ensures CountOps(procs[p := q]) ==
            CountOps(procs) - (if procs[p].InOp? then 1 else 0) + (if q.InOp? then 1 else 0)
    ensures Budget(m, procs[p := q]) == Budget(m, procs) - Unused(m, procs[p]) + Unused(m, q)
  {
    var n := |procs| - 1;
    var procs' := procs[p := q];
    if p == n {
      assert procs'[..n] == procs[..n];
    } else {
      assert procs'[..n] == procs[..n][p := q];
      CountUpdate(m, procs[..n], p, q);
    }
  }

  lemma {:induction false} CountSame(m: nat, a: seq<Proc>, b: seq<Proc>)
    requires |a| == |b|
    requires forall p | 0 <= p < |a| :: a[p].InOp? == b[p].InOp? && (a[p].InOp? ==> a[p] == b[p])
    ensures CountOps(a) == CountOps(b) && Budget(m, a) == Budget(m, b)
  {
    if a != [] {
      CountSame(m, a[..|a| - 1], b[..|b| - 1]);
    }
  }

  lemma {:induction false} CountZero(m: nat, procs: seq<Proc>)
    ensures CountOps(procs) == 0 <==> forall p | 0 <= p < |procs| :: !procs[p].InOp?
    ensures CountOps(procs) == 0 ==> Budget(m, procs) == 0
  {
    if procs != [] {
      var n := |procs| - 1;
      CountZero(m, procs[..n]);
      assert forall p | 0 <= p < n :: procs[..n][p] == procs[p];
    }
  }

  lemma {:induction false} BudgetBound(m: nat, procs: seq<Proc>)
    ensures Budget(m, procs) <= m * CountOps(procs)
  {
    if procs != [] {
      BudgetBound(m, procs[..|procs| - 1]);
    }
  }

  /** A running operation's unused part is inside the total, when no operation overdrew. */
  lemma {:induction false} BudgetCovers(m: nat, procs: seq<Proc>, p: nat)
    requires p < |procs|
    requires forall i | 0 <= i < |procs| :: Unused(m, procs[i]) >= 0
    ensures Budget(m, procs) >= Unused(m, procs[p]) && Budget(m, procs) >= 0
  {
    var n := |procs| - 1;
    if n > 0 {
      BudgetCovers(m, procs[..n], if p < n then p else 0);
    } else {
      assert procs[..n] == [];
    }
  }
}
