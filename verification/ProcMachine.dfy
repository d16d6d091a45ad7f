/** fork, exit, wait, kill and scheduling by any number of processes, one lock-held step at a time (proc.c). */
module ProcMachine {
  import opened ProcTable

  /**
   Where a process is in its kernel code: in fork before or after it set the child's parent, in wait, or elsewhere.
   */
  datatype Pc = User | Forking(child: nat) | Linked(child: nat) | Waiting

  /**
   The table, and what has happened so far: the pids started, exited and returned by wait, those a failed fork gave up,
   and the entries kill marked since they were last reaped.
   */
  datatype State = State(
    t: seq<Proc>,
    pc: seq<Pc>,
    nextpid: nat,
    started: set<nat>,
    exited: set<nat>,
    reaped: seq<nat>,
    abandoned: set<nat>,
    hit: set<nat>)

  datatype Event =
    | Alloc(i: nat) | ForkFail(i: nat) | SetParent(i: nat) | ForkDone(i: nat)
    | Exit(i: nat) | Wait(i: nat)
    | Schedule(i: nat) | Yield(i: nat) | SleepOn(i: nat, x: int) | Wakeup(x: int) | Kill(pid: nat)

  predicate At(s: State, i: nat, pc: Pc) {
    i < |s.t| == |s.pc| && s.t[i].state == RUNNING && s.pc[i] == pc
  }

  predicate Enabled(s: State, init: nat, e: Event) {
    match e
    case Alloc(i) => At(s, i, User) && FirstUnused(s.t, 0) < |s.t|
    case ForkFail(i) => i < |s.t| == |s.pc| && s.pc[i].Forking? && At(s, i, s.pc[i]) && s.pc[i].child < |s.t|
    case SetParent(i) => i < |s.t| == |s.pc| && s.pc[i].Forking? && At(s, i, s.pc[i]) && s.pc[i].child < |s.t|
    case ForkDone(i) => i < |s.t| == |s.pc| && s.pc[i].Linked? && At(s, i, s.pc[i]) && s.pc[i].child < |s.t|
    case Exit(i) => At(s, i, User) && i != init
    case Wait(i) => At(s, i, User)
    case Schedule(i) => i < |s.t| == |s.pc| && s.t[i].state == RUNNABLE
    case Yield(i) => i < |s.t| == |s.pc| && s.t[i].state == RUNNING
    case SleepOn(i, x) => At(s, i, User)
    case Wakeup(x) => true
    case Kill(pid) => FirstPid(s.t, pid, 0) < |s.t|
  }

  /** wait from the top of its loop until the lock is released: a reaped child, -1, or asleep. */
  function DoWait(s: State, i: nat): State
    requires i < |s.t| == |s.pc|
  {
    match ScanOf(s.t, i)
    case Reap(z) =>
      s.(t := s.t[z := Reaped(s.t[z])], pc := s.pc[i := User], reaped := s.reaped + [s.t[z].pid], hit := s.hit - {z})
    case GiveUp => s.(pc := s.pc[i := User])
    case Sleep => s.(t := s.t[i := s.t[i].(chan := OnProc(i), state := SLEEPING)], pc := s.pc[i := Waiting])
  }

  /** The scheduler's switch; a process woken inside sleep clears its channel and goes on in wait. */
  function Scheduled(s: State, i: nat): State
    requires i < |s.t|
  {
    s.(t := s.t[i := s.t[i].(state := RUNNING, chan := NoChan)])
  }

  function Apply(s: State, init: nat, e: Event): State
    requires Enabled(s, init, e)
  {
    match e
    case Alloc(i) =>
      var u := FirstUnused(s.t, 0);
      s.(t := s.t[u := s.t[u].(state := EMBRYO, pid := s.nextpid)], pc := s.pc[i := Forking(u)],
         nextpid := s.nextpid + 1)
    case ForkFail(i) =>
      var c := s.pc[i].child;
      s.(t := s.t[c := s.t[c].(state := UNUSED)], pc := s.pc[i := User], abandoned := s.abandoned + {s.t[c].pid})
    case SetParent(i) =>
      var c := s.pc[i].child;
      s.(t := s.t[c := s.t[c].(parent := i)], pc := s.pc[i := Linked(c)])
    case ForkDone(i) =>
      var c := s.pc[i].child;
      s.(t := s.t[c := s.t[c].(state := RUNNABLE)], pc := s.pc[i := User], started := s.started + {s.t[c].pid})
    case Exit(i) => s.(t := Exited(s.t, i, init), exited := s.exited + {s.t[i].pid})
    case Wait(i) => DoWait(s, i)
    case Schedule(i) => if s.pc[i] == Waiting then DoWait(Scheduled(s, i), i) else Scheduled(s, i)
    case Yield(i) => s.(t := s.t[i := s.t[i].(state := RUNNABLE)])
    case SleepOn(i, x) => s.(t := s.t[i := s.t[i].(chan := OnOther(x), state := SLEEPING)])
    case Wakeup(x) => s.(t := Woken(s.t, OnOther(x)))
    case Kill(pid) =>
      var k := FirstPid(s.t, pid, 0);
      s.(t := s.t[k := Killed(s.t[k])], hit := s.hit + {k})
  }

  // --- What every step keeps ---

  predicate Shape(s: State, init: nat) {
    |s.t| == |s.pc| == NPROC && init < NPROC && s.nextpid >= 1 && Alive(s.t[init]) && s.t[init].parent == -1
  }

  /** A parent is alive, and everybody but init has one. */
  predicate FamilyOk(t: seq<Proc>, init: nat, i: nat)
    requires i < |t|
  {
    var p := t[i];
    (p.parent == -1 || (0 <= p.parent < |t| && p.parent != i && p.state != UNUSED && Alive(t[p.parent]))) &&
    (p.state == ZOMBIE || (Alive(p) && i != init) ==> p.parent != -1)
  }

  /** The code position fits the table entry. */
  predicate CodeOk(t: seq<Proc>, pc: seq<Pc>, i: nat)
    requires i < |t| == |pc|
  {
    match pc[i]
    case User => t[i].state == SLEEPING ==> !t[i].chan.OnProc?
    case Forking(c) =>
      (t[i].state == RUNNING || t[i].state == RUNNABLE) && c < |t| && t[c].state == EMBRYO && t[c].parent == -1
    case Linked(c) =>
      (t[i].state == RUNNING || t[i].state == RUNNABLE) && c < |t| && t[c].state == EMBRYO && t[c].parent == i
    case Waiting => t[i].state == RUNNABLE || (t[i].state == SLEEPING && t[i].chan == OnProc(i))
  }

  /** An embryo that has a parent is being forked by that parent. */
  predicate EmbryoOk(t: seq<Proc>, pc: seq<Pc>, c: nat)
    requires c < |t| == |pc|
  {
    t[c].state == EMBRYO && 0 <= t[c].parent < |pc| ==> pc[t[c].parent] == Linked(c)
  }

  /** No two processes fork into the same entry. */
  predicate ForksApart(pc: seq<Pc>, i: nat, j: nat)
    requires i < |pc| && j < |pc|
  {
    ChildOf(pc[i]) >= 0 && ChildOf(pc[i]) == ChildOf(pc[j]) ==> i == j
  }

  function ChildOf(pc: Pc): int {
    match pc
    case Forking(c) => c
    case Linked(c) => c
    case _ => -1
  }

  predicate AsleepInWait(t: seq<Proc>, p: int) {
    0 <= p < |t| && t[p].state == SLEEPING && t[p].chan == OnProc(p)
  }

  /** A zombie's parent is not asleep in wait. */
  predicate NotMissed(t: seq<Proc>, z: nat)
    requires z < |t|
  {
    t[z].state == ZOMBIE ==> !AsleepInWait(t, t[z].parent)
  }

  predicate Owes(t: seq<Proc>, p: int, c: nat) {
    c < |t| && t[c].parent == p && Alive(t[c])
  }

  /** A process asleep in wait has a living child, whose exit will wake it. */
  ghost predicate Owed(t: seq<Proc>, p: nat)
    requires p < |t|
  {
    AsleepInWait(t, p) ==> exists c :: Owes(t, p, c)
  }

  /** Pids in use, or left behind by a failed fork, are distinct. */
  predicate PidsApart(t: seq<Proc>, i: nat, j: nat)
    requires i < |t| && j < |t|
  {
    t[i].pid != 0 && t[i].pid == t[j].pid ==> i == j
  }

  ghost predicate Control(s: State, init: nat) {
    Shape(s, init) &&
    (forall i | 0 <= i < NPROC :: FamilyOk(s.t, init, i)) &&
    (forall i | 0 <= i < NPROC :: CodeOk(s.t, s.pc, i) && EmbryoOk(s.t, s.pc, i)) &&
    (forall i, j | 0 <= i < NPROC && 0 <= j < NPROC :: ForksApart(s.pc, i, j))
  }

  ghost predicate Wakes(s: State) {
    (forall z | 0 <= z < |s.t| :: NotMissed(s.t, z)) && (forall p | 0 <= p < |s.t| :: Owed(s.t, p))
  }

  /** An entry's pid, with the fate recorded for it. */
  predicate FateOk(s: State, i: nat)
    requires i < |s.t|
  {
    var p := s.t[i];
    p.pid < s.nextpid && p.pid !in s.reaped &&
    (p.state != UNUSED ==> p.pid > 0) &&
    (Alive(p) ==> p.pid in s.started && p.pid !in s.exited) &&
    (p.state == ZOMBIE ==> p.pid in s.started && p.pid in s.exited) &&
    (p.pid in s.started ==> Alive(p) || p.state == ZOMBIE)
  }

  predicate InTable(t: seq<Proc>, pid: nat) {
    exists i :: 0 <= i < |t| && t[i].pid == pid && (Alive(t[i]) || t[i].state == ZOMBIE)
  }

  /** Every pid that was started is still in the table or was returned by wait once; only exited ones were. */
  ghost predicate Fates(s: State) {
    (forall i | 0 <= i < |s.t| :: FateOk(s, i)) &&
    (forall i, j | 0 <= i < |s.t| && 0 <= j < |s.t| :: PidsApart(s.t, i, j)) &&
    (forall i, j | 0 <= i < j < |s.reaped| :: s.reaped[i] != s.reaped[j]) &&
    (forall pid | pid in s.reaped :: 0 < pid < s.nextpid && pid in s.started && pid in s.exited) &&
    (forall pid | pid in s.started :: 0 < pid < s.nextpid && (InTable(s.t, pid) || pid in s.reaped)) &&
    s.exited <= s.started
  }

  ghost predicate Inv(s: State, init: nat) {
    Control(s, init) && Wakes(s) && Fates(s)
  }

  /** An unused entry has no pid or one given up, which nobody else has; the killed flag records kill. */
  predicate MarkOk(s: State, i: nat)
    requires i < |s.t|
  {
    (s.t[i].state == UNUSED ==> s.t[i].pid == 0 || s.t[i].pid in s.abandoned) &&
    (s.t[i].state != UNUSED ==> s.t[i].pid !in s.abandoned) && (s.t[i].killed <==> i in s.hit)
  }

  ghost predicate Marks(s: State) {
    (forall i | 0 <= i < |s.t| :: MarkOk(s, i)) && forall pid | pid in s.abandoned :: 0 < pid < s.nextpid
  }
}
