/** The logging protocol can always go on: a commit under way finishes, and what a process stores can reach the disk. */
module LogProgress {
  import opened Blocks
  import opened LogLayout
  import opened LogMachine
  import opened LogProofs
  import opened LogTheorems
  import opened LogLimits

  /** No buffer is held. */
  ghost predicate AllFree(s: State) {
    forall b: uint | b in s.cache :: Unheld(s, b)
  }

  /** How many steps of the commit under way are left. */
  function StepsLeft(s: State): int {
    match s.phase
    case Copy(i) => 2 * |s.lh| - i + 3
    case Head => |s.lh| + 3
    case Install(k, _) => |s.lh| - k + 2
    case Clear(_) => 2
    case _ => 1
  }

  function NextCommitStep(s: State): Event {
    match s.phase
    case Copy(_) => CopyBlock
    case Head => WriteHead
    case Install(_, _) => InstallBlock
    case Clear(_) => ClearHead
    case _ => FinishCommit
  }

  /** Nothing is under way, and the home blocks on disk are the contents `d`. */
  ghost predicate Quiet(l: Layout, s: State, d: Disk) {
    s.phase == Normal && s.outstanding == 0 && s.lh == [] && AllFree(s) && SameHome(l, s.disk, d) &&
    forall p | 0 <= p < |s.procs| :: s.procs[p] == Outside
  }

  /** A commit is under way and no buffer is held. */
  ghost predicate Committing(l: Layout, s: State) {
    l.Ok() && l.Roomy() && |s.disk| == l.nblocks && EntriesOk(l, s.lh) && AllFree(s) && s.committing &&
    match s.phase
    case Copy(i) => i < |s.lh|
    case Install(k, boot) => k < |s.lh| && !boot
    case Head => true
    case Clear(boot) => !boot
    case Finish => s.lh == []
    case _ => false
  }

  lemma UnderWay(l: Layout, s: State, t: Spec)
    requires Inv(l, s, t) && s.committing && AllFree(s)
    ensures Committing(l, s) && s.outstanding == 0 && forall p | 0 <= p < |s.procs| :: !s.procs[p].InOp?
    ensures s.phase == Finish ==> SameHome(l, s.disk, t.current)
  {
    CountZero(0, s.procs);
    if s.phase == Finish {
      EmptyHeadMeansHome(l, s.disk, Durable(t));
    }
  }

  lemma StepPossible(l: Layout, s: State)
    requires Committing(l, s)
    ensures Enabled(l, s, NextCommitStep(s))
  {
    if s.phase.Copy? {
      assert s.lh[s.phase.i] < l.nblocks;
    }
    if s.phase.Install? {
      assert s.lh[s.phase.k] < l.nblocks;
    }
  }

  lemma StepLeads(l: Layout, s: State)
    requires Committing(l, s) && Enabled(l, s, NextCommitStep(s))
    ensures var u := Apply(l, s, NextCommitStep(s));
            AllFree(u) && |u.procs| == |s.procs| && (s.phase != Finish ==> u.committing && StepsLeft(u) < StepsLeft(s))
  {
  }

  lemma LastStep(l: Layout, s: State, d: Disk)
    requires Committing(l, s) && s.phase == Finish && SameHome(l, s.disk, d)
    requires s.outstanding == 0 && forall p | 0 <= p < |s.procs| :: !s.procs[p].InOp?
    ensures Quiet(l, Apply(l, s, FinishCommit), d)
  {
  }

  // --- Runs, event by event ---

  /** A state of a run, with the specification's. */
  datatype Point = Point(s: State, t: Spec)

  /** The run `es` from `s0` leads to the point `at`. */
  ghost predicate Leads(l: Layout, s0: State, es: seq<Event>, at: Point) {
    Run(l, s0, es) && Final(l, s0, es) == at.s && Inv(l, at.s, at.t)
  }

  /** One event more. */
  lemma Extend(l: Layout, s0: State, es: seq<Event>, at: Point, e: Event) returns (now: Point, more: seq<Event>)
    requires Leads(l, s0, es, at) && Enabled(l, at.s, e)
    ensures now.s == Apply(l, at.s, e)
    ensures Allowed(at.t, ActionOf(at.s, e)) && now.t == Perform(at.t, ActionOf(at.s, e))
    ensures more == es + [e] && Leads(l, s0, more, now)
  {
    Step(l, at.s, at.t, e);
    now := Point(Apply(l, at.s, e), Perform(at.t, ActionOf(at.s, e)));
    RunSnoc(l, s0, es, e);
    more := es + [e];
  }

  /** With no buffer held, a commit under way finishes, and the disk then holds what was logged. */
  lemma {:induction false} CommitFinishes(l: Layout, s0: State, before: seq<Event>, at: Point)
    returns (now: Point, es: seq<Event>)
    requires Leads(l, s0, before, at) && at.s.committing && AllFree(at.s)
    ensures Leads(l, s0, es, now) && Quiet(l, now.s, at.t.current) && |now.s.procs| == |at.s.procs|
    decreases StepsLeft(at.s)
  {
    UnderWay(l, at.s, at.t);
    StepPossible(l, at.s);
    StepLeads(l, at.s);
    now, es := Extend(l, s0, before, at, NextCommitStep(at.s));
    if at.s.phase == Finish {
      LastStep(l, at.s, at.t.current);
    } else {
      now, es := CommitFinishes(l, s0, es, now);
    }
  }

  // --- A store on its way to the disk ---

  /** Process `p` alone is in an operation that has logged `logged`, and holds block `b` if any. */
  ghost predicate Alone(l: Layout, s: State, p: nat, logged: set<uint>, held: Option<uint>) {
    s.phase == Normal && s.outstanding == 1 && !s.committing && p < |s.procs| && s.procs[p] == InOp(logged, None) &&
    s.lh == (if logged == {} then [] else s.lh) &&
    forall b: uint | b in s.cache :: s.cache[b].holder == if held == Some(b) then Some(p) else None
  }

  lemma Begins(l: Layout, s: State, t: Spec, p: nat)
    requires Inv(l, s, t) && Quiet(l, s, t.current) && p < |s.procs|
    ensures Enabled(l, s, BeginOp(p))
    ensures var u := Apply(l, s, BeginOp(p));
            Alone(l, u, p, {}, None) && u.cache == s.cache && |u.procs| == |s.procs| &&
            ActionOf(s, BeginOp(p)) == Begin(p)
  {
  }

  /** bread and the store. */
  lemma Stores(l: Layout, s: State, p: nat, b: uint, v: Block)
    requires Alone(l, s, p, {}, None) && l.Home(b) && |s.disk| == l.nblocks && l.Ok()
    ensures Enabled(l, s, Bread(p, b))
    ensures var s1 := Apply(l, s, Bread(p, b));
            Enabled(l, s1, Modify(p, b, v)) &&
            var s2 := Apply(l, s1, Modify(p, b, v));
            Alone(l, s2, p, {}, Some(b)) && s2.procs == s.procs && b in s2.cache && s2.cache[b].data == v
  {
  }

  /** log_write. */
  lemma Logs(l: Layout, s: State, p: nat, b: uint)
    requires Alone(l, s, p, {}, Some(b)) && b in s.cache && l.Home(b) && |s.disk| == l.nblocks
    requires l.Ok() && l.Roomy() && l.quota >= 1
    ensures Enabled(l, s, LogGuard(p, b))
    ensures var s1 := Apply(l, s, LogGuard(p, b));
            Enabled(l, s1, LogAppend(p)) && ActionOf(s1, LogAppend(p)) == Write(p, b, s.cache[b].data) &&
            var s2 := Apply(l, s1, LogAppend(p));
            Alone(l, s2, p, {b}, Some(b)) && s2.lh == [b] && b in s2.cache && !s2.cache[b].touched &&
            |s2.procs| == |s.procs|
  {
    assert |{} + {b}| == 1;
  }

  /** brelse and end_op. */
  lemma Ends(l: Layout, s: State, p: nat, b: uint)
    requires Alone(l, s, p, {b}, Some(b)) && s.lh == [b] && b in s.cache && !s.cache[b].touched && l.start < |s.disk|
    ensures Enabled(l, s, Brelse(p, b))
    ensures var s1 := Apply(l, s, Brelse(p, b));
            Enabled(l, s1, EndOp(p)) &&
            var s2 := Apply(l, s1, EndOp(p));
            s2.committing && AllFree(s2) && |s2.procs| == |s.procs|
  {
  }

  /** The first half of the operation: begin_op, bread, the store and log_write. */
  lemma FirstHalf(l: Layout, s: State, t: Spec, p: nat, b: uint, v: Block) returns (now: Point, es: seq<Event>)
    requires Inv(l, s, t) && Quiet(l, s, t.current) && p < |s.procs| && l.Home(b) && l.quota >= 1
    ensures Leads(l, s, es, now)
    ensures Alone(l, now.s, p, {b}, Some(b)) && now.s.lh == [b] && b in now.s.cache && !now.s.cache[b].touched
    ensures b < |t.current| && now.t.current == t.current[b := v] && |now.s.procs| == |s.procs|
  {
    Begins(l, s, t, p);
    now, es := Extend(l, s, [], Point(s, t), BeginOp(p));
    now, es := Middle(l, s, es, now, p, b, v);
  }

  lemma Middle(l: Layout, s: State, before: seq<Event>, at: Point, p: nat, b: uint, v: Block)
    returns (now: Point, es: seq<Event>)
    requires Leads(l, s, before, at) && Alone(l, at.s, p, {}, None) && l.Home(b) && l.quota >= 1
    ensures Leads(l, s, es, now)
    ensures Alone(l, now.s, p, {b}, Some(b)) && now.s.lh == [b] && b in now.s.cache && !now.s.cache[b].touched
    ensures b < |at.t.current| && now.t.current == at.t.current[b := v] && |now.s.procs| == |at.s.procs|
  {
    Stores(l, at.s, p, b, v);
    now, es := Extend(l, s, before, at, Bread(p, b));
    now, es := Extend(l, s, es, now, Modify(p, b, v));
    now, es := Second(l, s, es, now, p, b);
  }

  lemma Second(l: Layout, s: State, before: seq<Event>, at: Point, p: nat, b: uint) returns (now: Point, es: seq<Event>)
    requires Leads(l, s, before, at) && Alone(l, at.s, p, {}, Some(b)) && b in at.s.cache && l.Home(b) && l.quota >= 1
    ensures Leads(l, s, es, now)
    ensures Alone(l, now.s, p, {b}, Some(b)) && now.s.lh == [b] && b in now.s.cache && !now.s.cache[b].touched
    ensures b < |at.t.current| && now.t.current == at.t.current[b := at.s.cache[b].data]
    ensures |now.s.procs| == |at.s.procs|
  {
    Logs(l, at.s, p, b);
    now, es := Extend(l, s, before, at, LogGuard(p, b));
    now, es := Extend(l, s, es, now, LogAppend(p));
  }

  /** The other half: brelse, end_op and the commit. */
  lemma OtherHalf(l: Layout, s: State, before: seq<Event>, at: Point, p: nat, b: uint)
    returns (now: Point, es: seq<Event>)
    requires Leads(l, s, before, at) && Alone(l, at.s, p, {b}, Some(b)) && at.s.lh == [b]
    requires b in at.s.cache && !at.s.cache[b].touched
    ensures Leads(l, s, es, now) && Quiet(l, now.s, at.t.current)
  {
    Ends(l, at.s, p, b);
    now, es := Extend(l, s, before, at, Brelse(p, b));
    now, es := Extend(l, s, es, now, EndOp(p));
    now, es := CommitFinishes(l, s, es, now);
  }

  /**
   Whenever nothing is under way, a process can store `v` in block `b` in one operation, and when its commit is done
   that block of the disk holds `v` and every other home block what it held.
   */
  lemma WriteReachesDisk(l: Layout, s: State, t: Spec, p: nat, b: uint, v: Block) returns (es: seq<Event>)
    requires Inv(l, s, t) && Quiet(l, s, t.current) && p < |s.procs| && l.Home(b) && l.quota >= 1
    ensures Run(l, s, es) && b < |s.disk| && Quiet(l, Final(l, s, es), s.disk[b := v])
  {
    var now, first := FirstHalf(l, s, t, p, b, v);
    now, es := OtherHalf(l, s, first, now, p, b);
  }
}
