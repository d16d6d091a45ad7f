/** What the logging protocol guarantees over whole runs, crashes and repeated recoveries included. */
module LogTheorems {
  import opened Blocks
  import opened LogLayout
  import opened LogMachine
  import opened LogProofs

  ghost predicate Run(l: Layout, s: State, es: seq<Event>)
    decreases |es|
  {
    es == [] ||
    (l.start < |s.disk| && Enabled(l, s, es[0]) && Run(l, Apply(l, s, es[0]), es[1..]))
  }

  ghost function Final(l: Layout, s: State, es: seq<Event>): State
    requires Run(l, s, es)
    decreases |es|
  {
    if es == [] then s else Final(l, Apply(l, s, es[0]), es[1..])
  }

  /** The specification's view of a run. */
  ghost function Actions(l: Layout, s: State, es: seq<Event>): (r: seq<Action>)
    requires Run(l, s, es)
    ensures |r| == |es|
    decreases |es|
  {
    if es == [] then [] else [ActionOf(s, es[0])] + Actions(l, Apply(l, s, es[0]), es[1..])
  }

  ghost predicate SpecRun(t: Spec, acts: seq<Action>)
    decreases |acts|
  {
    acts == [] || (Allowed(t, acts[0]) && SpecRun(Perform(t, acts[0]), acts[1..]))
  }

  ghost function SpecFinal(t: Spec, acts: seq<Action>): Spec
    requires SpecRun(t, acts)
    decreases |acts|
  {
    if acts == [] then t else SpecFinal(Perform(t, acts[0]), acts[1..])
  }

  /** The machine is switched on with `disk`; nothing is cached and no process runs yet. */
  function PowerOn(disk: Disk, nproc: nat): State {
    State(disk, map[], [], 0, false, seq(nproc, p => Outside), Boot)
  }

  function Fresh(store: Disk): Spec {
    Spec([store], store, {})
  }

  lemma PowerOnInv(l: Layout, disk: Disk, nproc: nat, store: Disk)
    requires StandsFor(l, disk, store) && l.Roomy()
    ensures Inv(l, PowerOn(disk, nproc), Fresh(store))
  {
    NoOps(l, PowerOn(disk, nproc).procs);
  }

  lemma {:induction false} RunSimulates(l: Layout, s: State, t: Spec, es: seq<Event>)
    requires Inv(l, s, t) && Run(l, s, es)
    ensures SpecRun(t, Actions(l, s, es))
    ensures Inv(l, Final(l, s, es), SpecFinal(t, Actions(l, s, es)))
    decreases |es|
  {
    if es != [] {
      Step(l, s, t, es[0]);
      RunSimulates(l, Apply(l, s, es[0]), Perform(t, ActionOf(s, es[0])), es[1..]);
      assert Actions(l, s, es)[1..] == Actions(l, Apply(l, s, es[0]), es[1..]);
    }
  }

  /** The state and the specification's state after a run from power-on. */
  ghost predicate Reaches(l: Layout, disk: Disk, nproc: nat, store: Disk, es: seq<Event>, s: State, t: Spec) {
    var s0 := PowerOn(disk, nproc);
    StandsFor(l, disk, store) && l.Roomy() && Run(l, s0, es) && s == Final(l, s0, es) &&
    SpecRun(Fresh(store), Actions(l, s0, es)) && t == SpecFinal(Fresh(store), Actions(l, s0, es))
  }

  /**
   Every run of the kernel on a log with room for what operations within their quota can list is a run of the
   specification: operations become durable in atomic groups, whatever the interleaving and wherever the machine
   crashes. Without that room the list outgrows the log (`LogLimits.OverrunExactly`).
   */
  lemma RefinesGroupCommit(l: Layout, disk: Disk, nproc: nat, store: Disk, es: seq<Event>)
    requires StandsFor(l, disk, store) && l.Roomy() && Run(l, PowerOn(disk, nproc), es)
    ensures SpecRun(Fresh(store), Actions(l, PowerOn(disk, nproc), es))
    ensures Reaches(l, disk, nproc, store, es, Final(l, PowerOn(disk, nproc), es),
                    SpecFinal(Fresh(store), Actions(l, PowerOn(disk, nproc), es)))
  {
    PowerOnInv(l, disk, nproc, store);
    RunSimulates(l, PowerOn(disk, nproc), Fresh(store), es);
  }

  lemma ReachesInv(l: Layout, disk: Disk, nproc: nat, store: Disk, es: seq<Event>, s: State, t: Spec)
    requires Reaches(l, disk, nproc, store, es, s, t)
    ensures Inv(l, s, t)
  {
    PowerOnInv(l, disk, nproc, store);
    RunSimulates(l, PowerOn(disk, nproc), Fresh(store), es);
  }

  /**
   At every moment the disk alone determines the newest group commit; when recovery has
   completed, and whenever no transaction is open, the home blocks hold exactly that commit.
   */
  lemma RecoveryRestoresLastCommit(l: Layout, disk: Disk, nproc: nat, store: Disk, es: seq<Event>, s: State, t: Spec)
    requires Reaches(l, disk, nproc, store, es, s, t)
    ensures |t.commits| > 0 && StandsFor(l, s.disk, Durable(t))
    ensures s.phase == Normal && s.lh == [] ==> SameHome(l, s.disk, Durable(t)) && SameHome(l, t.current, Durable(t))
    ensures es != [] && es[|es| - 1] == ClearHead ==> SameHome(l, s.disk, Durable(t))
  {
    ReachesInv(l, disk, nproc, store, es, s, t);
    if s.phase == Normal && s.lh == [] {
      EmptyHeadMeansHome(l, s.disk, Durable(t));
      forall b | l.Home(b) ensures t.current[b] == s.disk[b] {
        var c: uint := b;
        assert !Pending(s, c);
      }
    }
    if es != [] && es[|es| - 1] == ClearHead {
      LastEvent(l, PowerOn(disk, nproc), es);
      EmptyHeadMeansHome(l, s.disk, Durable(t));
    }
  }

  lemma {:induction false} LastEvent(l: Layout, s: State, es: seq<Event>)
    requires Run(l, s, es) && es != []
    ensures es[|es| - 1] == ClearHead ==>
              Final(l, s, es).phase == Normal || Final(l, s, es).phase == Finish
    decreases |es|
  {
    if |es| == 1 {
      assert es[1..] == [];
    } else {
      LastEvent(l, Apply(l, s, es[0]), es[1..]);
    }
  }

  /** No commit is lost or altered by anything that happens later, and each one is a header write. */
  lemma {:induction false} CommitsOnlyGrow(l: Layout, s: State, t: Spec, es: seq<Event>)
    requires Run(l, s, es) && SpecRun(t, Actions(l, s, es))
    ensures t.commits <= SpecFinal(t, Actions(l, s, es)).commits
    ensures |SpecFinal(t, Actions(l, s, es)).commits| == |t.commits| + multiset(es)[WriteHead]
    decreases |es|
  {
    if es != [] {
      var acts := Actions(l, s, es);
      var s' := Apply(l, s, es[0]);
      assert acts[1..] == Actions(l, s', es[1..]);
      CommitsOnlyGrow(l, s', Perform(t, acts[0]), es[1..]);
      assert es == [es[0]] + es[1..];
    } else {
      assert multiset(es) == multiset{};
    }
  }

  // What a group consists of.

  /** The blocks written since the last commit or crash. */
  function Group(acts: seq<Action>): seq<(uint, Block)> {
    if acts == [] then []
    else
      var a := acts[|acts| - 1];
      if a.Commit? || a.Lose? then []
      else Group(acts[..|acts| - 1]) + (if a.Write? then [(a.b, a.v)] else [])
  }

  function Overwrite(store: Disk, ws: seq<(uint, Block)>): (r: Disk)
    ensures |r| == |store|
  {
    if ws == [] then store
    else
      var r := Overwrite(store, ws[..|ws| - 1]);
      var w := ws[|ws| - 1];
      if w.0 < |r| then r[w.0 := w.1] else r
  }

  lemma {:induction false} SpecPrefix(t: Spec, acts: seq<Action>, n: nat)
    requires SpecRun(t, acts) && n <= |acts|
    ensures SpecRun(t, acts[..n]) && SpecRun(SpecFinal(t, acts[..n]), acts[n..])
    ensures SpecFinal(SpecFinal(t, acts[..n]), acts[n..]) == SpecFinal(t, acts)
    decreases n
  {
    if n == 0 {
      assert acts[..0] == [] && acts[0..] == acts;
    } else {
      SpecPrefix(Perform(t, acts[0]), acts[1..], n - 1);
      assert acts[..n][1..] == acts[1..][..n - 1];
      assert acts[n..] == acts[1..][n - 1..];
    }
  }

  lemma SpecLast(t: Spec, acts: seq<Action>)
    requires SpecRun(t, acts) && acts != []
    ensures var n := |acts| - 1;
            SpecRun(t, acts[..n]) && Allowed(SpecFinal(t, acts[..n]), acts[n]) &&
            SpecFinal(t, acts) == Perform(SpecFinal(t, acts[..n]), acts[n])
  {
    var n := |acts| - 1;
    SpecPrefix(t, acts, n);
    assert acts[n..] == [acts[n]] && acts[n..][1..] == [];
  }

  lemma OverwriteOne(store: Disk, ws: seq<(uint, Block)>, b: uint, v: Block)
    requires b < |store|
    ensures Overwrite(store, ws + [(b, v)]) == Overwrite(store, ws)[b := v]
  {
    assert (ws + [(b, v)])[..|ws|] == ws;
  }

  lemma {:induction false} CurrentLength(store: Disk, acts: seq<Action>)
    requires SpecRun(Fresh(store), acts)
    ensures var t := SpecFinal(Fresh(store), acts);
            |t.commits| > 0 && |t.current| == |store| && |Durable(t)| == |store|
    decreases |acts|
  {
    if acts != [] {
      SpecLast(Fresh(store), acts);
      CurrentLength(store, acts[..|acts| - 1]);
    }
  }

  /** The open transaction is the newest commit overwritten by the writes of the group, in order. */
  lemma {:induction false} GroupContents(store: Disk, acts: seq<Action>)
    requires SpecRun(Fresh(store), acts)
    ensures |SpecFinal(Fresh(store), acts).commits| > 0
    ensures SpecFinal(Fresh(store), acts).current ==
            Overwrite(Durable(SpecFinal(Fresh(store), acts)), Group(acts))
    decreases |acts|
  {
    CurrentLength(store, acts);
    if acts != [] {
      var n := |acts| - 1;
      SpecLast(Fresh(store), acts);
      GroupContents(store, acts[..n]);
      CurrentLength(store, acts[..n]);
      var t := SpecFinal(Fresh(store), acts[..n]);
      if acts[n].Write? {
        OverwriteOne(Durable(t), Group(acts[..n]), acts[n].b, acts[n].v);
      } else {
        assert Group(acts[..n]) + [] == Group(acts[..n]);
      }
    }
  }

  /** Whether process `p` is between begin_op and end_op after `acts`. */
  predicate Running(acts: seq<Action>, p: nat) {
    acts != [] &&
    var a := acts[|acts| - 1];
    a == Begin(p) || (a != End(p) && !a.Lose? && Running(acts[..|acts| - 1], p))
  }

  lemma {:induction false} ActiveMeansRunning(store: Disk, acts: seq<Action>, p: nat)
    requires SpecRun(Fresh(store), acts)
    ensures p in SpecFinal(Fresh(store), acts).active <==> Running(acts, p)
    decreases |acts|
  {
    if acts != [] {
      SpecLast(Fresh(store), acts);
      ActiveMeansRunning(store, acts[..|acts| - 1], p);
    }
  }

  /**
   No operation is partly in a commit: a group commits only while no operation is running, so all
   writes of an operation lie in one group.
   */
  lemma OperationsAreWhole(store: Disk, acts: seq<Action>, j: nat, p: nat)
    requires SpecRun(Fresh(store), acts) && j < |acts| && acts[j] == Commit
    ensures !Running(acts[..j], p)
  {
    SpecPrefix(Fresh(store), acts, j);
    ActiveMeansRunning(store, acts[..j], p);
    assert acts[j..][0] == Commit;
  }

  // What processes see while the system runs.

  /** bread returns the contents last logged for the block, also while a commit is being installed. */
  lemma ReadsSeeLatest(l: Layout, disk: Disk, nproc: nat, store: Disk, es: seq<Event>, s: State, t: Spec, b: uint)
    requires Reaches(l, disk, nproc, store, es, s, t)
    requires !Booting(s.phase) && l.Home(b) && Unheld(s, b)
    ensures b < |s.disk| && b < |t.current| && View(s, b) == t.current[b]
  {
    ReachesInv(l, disk, nproc, store, es, s, t);
  }

  /**
   Group commit is isolated: end_op's panic cannot happen, log_write is always inside an
   operation, and nothing is left in the log when no operation is outstanding.
   */
  lemma CommitIsolated(l: Layout, disk: Disk, nproc: nat, store: Disk, es: seq<Event>, s: State, t: Spec)
    requires Reaches(l, disk, nproc, store, es, s, t)
    ensures s.committing ==> s.outstanding == 0
    ensures s.outstanding == 0 <==> t.active == {}
    ensures forall p | 0 <= p < |s.procs| && s.procs[p].InOp? :: !s.committing && s.outstanding >= 1
    ensures s.outstanding == 0 && !s.committing && !Booting(s.phase) ==> s.lh == []
  {
    ReachesInv(l, disk, nproc, store, es, s, t);
    CountZero(MAXOPBLOCKS, s.procs);
    forall p | 0 <= p < |s.procs| && s.procs[p].InOp? ensures p in t.active {
    }
  }

  /** Nobody sleeps in begin_op without a wakeup to come. */
  lemma NoStrandedSleeper(l: Layout, disk: Disk, nproc: nat, store: Disk, es: seq<Event>, s: State, t: Spec, p: nat)
    requires Reaches(l, disk, nproc, store, es, s, t)
    requires p < |s.procs| && s.procs[p].Asleep?
    ensures s.committing || (NoRoom(s) && exists q :: 0 <= q < |s.procs| && s.procs[q].InOp?)
  {
    ReachesInv(l, disk, nproc, store, es, s, t);
    CountZero(MAXOPBLOCKS, s.procs);
  }
}
