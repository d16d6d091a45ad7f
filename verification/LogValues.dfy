/**
 What ends up in a commit, told from the events alone: no cache and no disk, only who read, stored, logged and
 committed what, and when.
 */
module LogValues {
  import opened Blocks
  import opened LogLayout
  import opened LogMachine
  import opened LogProofs
  import opened LogTheorems

  function Before(es: seq<Event>): seq<Event>
    requires es != []
  {
    es[..|es| - 1]
  }

  function Last(es: seq<Event>): Event
    requires es != []
  {
    es[|es| - 1]
  }

  /** The block process `p` last passed to log_write. */
  function Passed(es: seq<Event>, p: nat): Option<uint>
    decreases |es|
  {
    if es == [] then None
    else if Last(es).LogGuard? && Last(es).p == p then Some(Last(es).b)
    else Passed(Before(es), p)
  }

  /** What process `p` has in its hands for block `b`: its last store since it read the block, else what it read. */
  function InHand(store: Disk, es: seq<Event>, p: nat, b: uint): Block
    requires b < |store|
    decreases |es|
  {
    if es == [] then store[b]
    else if Last(es).Modify? && Last(es).p == p && Last(es).b == b then Last(es).v
    else if Last(es).Bread? && Last(es).p == p && Last(es).b == b then Logged(store, Before(es), b)
    else InHand(store, Before(es), p, b)
  }

  /** What was last logged for block `b`; a crash takes that back to the last commit. */
  function Logged(store: Disk, es: seq<Event>, b: uint): Block
    requires b < |store|
    decreases |es|
  {
    if es == [] then store[b]
    else if Last(es).LogAppend? && Passed(Before(es), Last(es).p) == Some(b) then
      InHand(store, Before(es), Last(es).p, b)
    else if Last(es).Crash? then Committed(store, Before(es), b)
    else Logged(store, Before(es), b)
  }

  /** What had been logged for block `b` at the last header write of a commit. */
  function Committed(store: Disk, es: seq<Event>, b: uint): Block
    requires b < |store|
    decreases |es|
  {
    if es == [] then store[b]
    else if Last(es).WriteHead? then Logged(store, Before(es), b)
    else Committed(store, Before(es), b)
  }

  ghost predicate SpecTracks(store: Disk, es: seq<Event>, t: Spec) {
    |t.commits| > 0 && |t.current| == |Durable(t)| == |store| &&
    (forall b: uint | b < |store| :: t.current[b] == Logged(store, es, b)) &&
    forall b: uint | b < |store| :: Durable(t)[b] == Committed(store, es, b)
  }

  ghost predicate HandsTrack(store: Disk, es: seq<Event>, s: State) {
    forall b: uint, p: nat | b < |store| && HeldBy(s, b, p) :: s.cache[b].data == InHand(store, es, p, b)
  }

  ghost predicate PassedTracks(es: seq<Event>, s: State) {
    forall p | 0 <= p < |s.procs| && s.procs[p].InOp? && s.procs[p].passed.Some? :: s.procs[p].passed == Passed(es, p)
  }

  /** Cache, open transaction and newest commit agree with the events so far. */
  ghost predicate Tracks(store: Disk, es: seq<Event>, s: State, t: Spec) {
    |s.disk| == |store| && SpecTracks(store, es, t) && HandsTrack(store, es, s) && PassedTracks(es, s)
  }

  lemma Snoc(es: seq<Event>, e: Event)
    ensures Last(es + [e]) == e && Before(es + [e]) == es
  {
  }

  /** bread gives what was last logged. */
  lemma ReadLogged(l: Layout, store: Disk, es: seq<Event>, s: State, t: Spec, p: nat, b: uint)
    requires Inv(l, s, t) && Tracks(store, es, s, t) && Enabled(l, s, Bread(p, b))
    ensures b < |store| && View(s, b) == Logged(store, es, b)
  {
    assert View(s, b) == t.current[b];
  }

  lemma HeldStep(l: Layout, store: Disk, es: seq<Event>, s: State, e: Event, b: uint, p: nat)
    requires l.start < |s.disk| && Enabled(l, s, e) && b < |store| && HeldBy(Apply(l, s, e), b, p)
    requires HeldBy(s, b, p) ==> s.cache[b].data == InHand(store, es, p, b)
    requires e == Bread(p, b) ==> View(s, b) == Logged(store, es, b)
    ensures Apply(l, s, e).cache[b].data == InHand(store, es + [e], p, b)
  {
    Snoc(es, e);
  }

  /** What log_write is about to log. */
  ghost predicate AppendTracks(store: Disk, es: seq<Event>, s: State, e: Event) {
    e.LogAppend? && Inside(s, e.p) ==>
      var b := s.procs[e.p].passed.value;
      Passed(es, e.p) == Some(b) && b < |store| && s.cache[b].data == InHand(store, es, e.p, b)
  }

  lemma AppendTracked(l: Layout, store: Disk, es: seq<Event>, s: State, t: Spec, e: Event)
    requires Inv(l, s, t) && Tracks(store, es, s, t)
    ensures AppendTracks(store, es, s, e)
  {
    if e.LogAppend? && Inside(s, e.p) {
      assert HeldBy(s, s.procs[e.p].passed.value, e.p);
    }
  }

  lemma CurrentStep(store: Disk, es: seq<Event>, s: State, t: Spec, e: Event, b: uint)
    requires AppendTracks(store, es, s, e) && b < |store| == |t.current| && Allowed(t, ActionOf(s, e))
    requires |t.commits| > 0 && |Durable(t)| == |store| && (e.LogAppend? ==> Inside(s, e.p))
    requires t.current[b] == Logged(store, es, b) && Durable(t)[b] == Committed(store, es, b)
    ensures b < |Perform(t, ActionOf(s, e)).current|
    ensures Perform(t, ActionOf(s, e)).current[b] == Logged(store, es + [e], b)
  {
    Snoc(es, e);
  }

  lemma DurableStep(store: Disk, es: seq<Event>, s: State, t: Spec, e: Event, b: uint)
    requires b < |store| == |t.current| && |t.commits| > 0 && |Durable(t)| == |store| && Allowed(t, ActionOf(s, e))
    requires t.current[b] == Logged(store, es, b) && Durable(t)[b] == Committed(store, es, b)
    ensures var u := Perform(t, ActionOf(s, e));
            |u.commits| > 0 && b < |Durable(u)| && Durable(u)[b] == Committed(store, es + [e], b)
  {
    Snoc(es, e);
  }

  lemma PassedStep(l: Layout, store: Disk, es: seq<Event>, s: State, t: Spec, e: Event, p: nat)
    requires Inv(l, s, t) && Tracks(store, es, s, t) && Enabled(l, s, e)
    requires p < |Apply(l, s, e).procs| && Apply(l, s, e).procs[p].InOp? && Apply(l, s, e).procs[p].passed.Some?
    ensures Apply(l, s, e).procs[p].passed == Passed(es + [e], p)
  {
    Snoc(es, e);
  }

  lemma SpecStep(store: Disk, es: seq<Event>, s: State, t: Spec, e: Event)
    requires SpecTracks(store, es, t) && AppendTracks(store, es, s, e) && Allowed(t, ActionOf(s, e))
    requires e.LogAppend? ==> Inside(s, e.p)
    ensures SpecTracks(store, es + [e], Perform(t, ActionOf(s, e)))
  {
    var t' := Perform(t, ActionOf(s, e));
    forall b: uint | b < |store|
      ensures b < |t'.current| && t'.current[b] == Logged(store, es + [e], b)
    {
      CurrentStep(store, es, s, t, e, b);
    }
    forall b: uint | b < |store|
      ensures |t'.commits| > 0 && b < |Durable(t')| && Durable(t')[b] == Committed(store, es + [e], b)
    {
      DurableStep(store, es, s, t, e, b);
    }
  }

  lemma HandsStep(l: Layout, store: Disk, es: seq<Event>, s: State, t: Spec, e: Event)
    requires Inv(l, s, t) && Tracks(store, es, s, t) && Enabled(l, s, e)
    ensures HandsTrack(store, es + [e], Apply(l, s, e))
  {
    forall b: uint, p: nat | b < |store| && HeldBy(Apply(l, s, e), b, p)
      ensures Apply(l, s, e).cache[b].data == InHand(store, es + [e], p, b)
    {
      if e == Bread(p, b) {
        ReadLogged(l, store, es, s, t, p, b);
      }
      HeldStep(l, store, es, s, e, b, p);
    }
  }

  lemma TracksStep(l: Layout, store: Disk, es: seq<Event>, s: State, t: Spec, e: Event)
    requires Inv(l, s, t) && Tracks(store, es, s, t) && Enabled(l, s, e) && Allowed(t, ActionOf(s, e))
    ensures Tracks(store, es + [e], Apply(l, s, e), Perform(t, ActionOf(s, e)))
  {
    AppendTracked(l, store, es, s, t, e);
    SpecStep(store, es, s, t, e);
    HandsStep(l, store, es, s, t, e);
    forall p | 0 <= p < |Apply(l, s, e).procs| && Apply(l, s, e).procs[p].InOp? && Apply(l, s, e).procs[p].passed.Some?
      ensures Apply(l, s, e).procs[p].passed == Passed(es + [e], p)
    {
      PassedStep(l, store, es, s, t, e, p);
    }
  }

  lemma OneTrack(l: Layout, store: Disk, past: seq<Event>, s: State, t: Spec, e: Event)
    requires Inv(l, s, t) && Tracks(store, past, s, t) && Enabled(l, s, e)
    ensures Allowed(t, ActionOf(s, e))
    ensures Inv(l, Apply(l, s, e), Perform(t, ActionOf(s, e)))
    ensures Tracks(store, past + [e], Apply(l, s, e), Perform(t, ActionOf(s, e)))
  {
    Step(l, s, t, e);
    TracksStep(l, store, past, s, t, e);
  }

  /** They agree all along the run. */
  ghost predicate TracksAlong(l: Layout, store: Disk, past: seq<Event>, s: State, t: Spec, es: seq<Event>)
    requires Run(l, s, es) && SpecRun(t, Actions(l, s, es))
    decreases |es|
  {
    Tracks(store, past, s, t) &&
    (es == [] ||
     TracksAlong(l, store, past + [es[0]], Apply(l, s, es[0]), Perform(t, ActionOf(s, es[0])), es[1..]))
  }

  lemma {:induction false} RunTracks(l: Layout, store: Disk, past: seq<Event>, s: State, t: Spec, es: seq<Event>)
    requires Inv(l, s, t) && Tracks(store, past, s, t) && Run(l, s, es) && SpecRun(t, Actions(l, s, es))
    ensures TracksAlong(l, store, past, s, t, es)
    decreases |es|
  {
    if es != [] {
      OneTrack(l, store, past, s, t, es[0]);
      RunTracks(l, store, past + [es[0]], Apply(l, s, es[0]), Perform(t, ActionOf(s, es[0])), es[1..]);
    }
  }

  lemma {:induction false} TracksAtEnd(l: Layout, store: Disk, past: seq<Event>, s: State, t: Spec, es: seq<Event>)
    requires Run(l, s, es) && SpecRun(t, Actions(l, s, es)) && TracksAlong(l, store, past, s, t, es)
    ensures Tracks(store, past + es, Final(l, s, es), SpecFinal(t, Actions(l, s, es)))
    decreases |es|
  {
    if es == [] {
      assert past + es == past;
    } else {
      TracksAtEnd(l, store, past + [es[0]], Apply(l, s, es[0]), Perform(t, ActionOf(s, es[0])), es[1..]);
      assert past + es == past + [es[0]] + es[1..];
    }
  }

  lemma ReachesTracks(l: Layout, disk: Disk, nproc: nat, store: Disk, es: seq<Event>, s: State, t: Spec)
    requires Reaches(l, disk, nproc, store, es, s, t)
    ensures Tracks(store, es, s, t)
  {
    PowerOnInv(l, disk, nproc, store);
    RunTracks(l, store, [], PowerOn(disk, nproc), Fresh(store), es);
    TracksAtEnd(l, store, [], PowerOn(disk, nproc), Fresh(store), es);
    assert [] + es == es;
  }

  // Prefixes of runs.

  lemma {:induction false} RunPrefix(l: Layout, s: State, es: seq<Event>, j: nat)
    requires Run(l, s, es) && j < |es|
    ensures Run(l, s, es[..j]) && Actions(l, s, es[..j]) == Actions(l, s, es)[..j]
    ensures l.start < |Final(l, s, es[..j]).disk| && Enabled(l, Final(l, s, es[..j]), es[j])
    ensures Actions(l, s, es)[j] == ActionOf(Final(l, s, es[..j]), es[j])
    decreases j
  {
    if j > 0 {
      RunPrefix(l, Apply(l, s, es[0]), es[1..], j - 1);
      assert es[..j][1..] == es[1..][..j - 1];
    } else {
      assert es[..0] == [];
    }
  }

  lemma ReachesPrefix(l: Layout, disk: Disk, nproc: nat, store: Disk, es: seq<Event>, j: nat)
    requires StandsFor(l, disk, store) && l.Roomy() && Run(l, PowerOn(disk, nproc), es) && j < |es|
    ensures var s0 := PowerOn(disk, nproc);
            var acts := Actions(l, s0, es);
            Run(l, s0, es[..j]) && SpecRun(Fresh(store), acts[..j]) &&
            Reaches(l, disk, nproc, store, es[..j], Final(l, s0, es[..j]), SpecFinal(Fresh(store), acts[..j])) &&
            Tracks(store, es[..j], Final(l, s0, es[..j]), SpecFinal(Fresh(store), acts[..j]))
  {
    var s0 := PowerOn(disk, nproc);
    RunPrefix(l, s0, es, j);
    RefinesGroupCommit(l, disk, nproc, store, es[..j]);
    ReachesTracks(l, disk, nproc, store, es[..j], Final(l, s0, es[..j]),
                  SpecFinal(Fresh(store), Actions(l, s0, es[..j])));
  }

  // Main results.

  /**
   Every write of the specification is a log_write by that process for the block it passed the guard with, and its
   value is the process's own last store to the block since it read it, or without one what it read.
   */
  lemma WritesAreStores(l: Layout, disk: Disk, nproc: nat, store: Disk, es: seq<Event>, j: nat)
    requires StandsFor(l, disk, store) && l.Roomy() && Run(l, PowerOn(disk, nproc), es) && j < |es|
    ensures var a := Actions(l, PowerOn(disk, nproc), es)[j];
            a.Write? <==> es[j].LogAppend?
    ensures var a := Actions(l, PowerOn(disk, nproc), es)[j];
            a.Write? ==>
              a.p == es[j].p && Passed(es[..j], a.p) == Some(a.b) && a.b < |store| &&
              a.v == InHand(store, es[..j], a.p, a.b)
  {
    var s0 := PowerOn(disk, nproc);
    RunPrefix(l, s0, es, j);
    ReachesPrefix(l, disk, nproc, store, es, j);
    var s, t := Final(l, s0, es[..j]), SpecFinal(Fresh(store), Actions(l, s0, es)[..j]);
    ReachesInv(l, disk, nproc, store, es[..j], s, t);
  }

  /** A commit holds, block by block, exactly what was last logged when its header was written. */
  lemma CommitHoldsLogged(l: Layout, disk: Disk, nproc: nat, store: Disk, es: seq<Event>, j: nat, b: uint)
    requires StandsFor(l, disk, store) && l.Roomy() && Run(l, PowerOn(disk, nproc), es)
    requires j < |es| && es[j] == WriteHead && b < |store|
    ensures var acts := Actions(l, PowerOn(disk, nproc), es);
            SpecRun(Fresh(store), acts) && SpecRun(Fresh(store), acts[..j]) &&
            var n := |SpecFinal(Fresh(store), acts[..j]).commits|;
            n < |SpecFinal(Fresh(store), acts).commits| && b < |SpecFinal(Fresh(store), acts).commits[n]| &&
            SpecFinal(Fresh(store), acts).commits[n][b] == Logged(store, es[..j], b)
  {
    var s0 := PowerOn(disk, nproc);
    var acts := Actions(l, s0, es);
    RunPrefix(l, s0, es, j);
    ReachesPrefix(l, disk, nproc, store, es, j);
    RefinesGroupCommit(l, disk, nproc, store, es);
    SpecPrefix(Fresh(store), acts, j);
    var t := SpecFinal(Fresh(store), acts[..j]);
    var u := Perform(t, acts[j]);
    assert acts[j..][0] == acts[j] && u.commits == t.commits + [t.current];
    CommitsKept(u, acts[j..][1..]);
  }

  lemma {:induction false} CommitsKept(t: Spec, acts: seq<Action>)
    requires SpecRun(t, acts)
    ensures t.commits <= SpecFinal(t, acts).commits
    decreases |acts|
  {
    if acts != [] {
      CommitsKept(Perform(t, acts[0]), acts[1..]);
    }
  }

  /** bread of an unheld block gives what was last logged for it; what a holder has is its own last store. */
  lemma ReadsFromEvents(l: Layout, disk: Disk, nproc: nat, store: Disk, es: seq<Event>, s: State, t: Spec, b: uint)
    requires Reaches(l, disk, nproc, store, es, s, t) && !Booting(s.phase) && l.Home(b)
    ensures b < |s.disk| == |store|
    ensures Unheld(s, b) ==> View(s, b) == Logged(store, es, b)
    ensures forall p | HeldBy(s, b, p) :: View(s, b) == InHand(store, es, p, b)
  {
    ReachesTracks(l, disk, nproc, store, es, s, t);
    ReachesInv(l, disk, nproc, store, es, s, t);
    if Unheld(s, b) {
      ReadsSeeLatest(l, disk, nproc, store, es, s, t, b);
    }
  }

  /** After recovery, and whenever no transaction is open, every home block holds what was last committed for it. */
  lemma DiskFromEvents(l: Layout, disk: Disk, nproc: nat, store: Disk, es: seq<Event>, s: State, t: Spec, b: uint)
    requires Reaches(l, disk, nproc, store, es, s, t) && l.Home(b)
    requires (s.phase == Normal && s.lh == []) || (es != [] && es[|es| - 1] == ClearHead)
    ensures b < |s.disk| == |store| && s.disk[b] == Committed(store, es, b)
  {
    ReachesTracks(l, disk, nproc, store, es, s, t);
    ReachesInv(l, disk, nproc, store, es, s, t);
    RecoveryRestoresLastCommit(l, disk, nproc, store, es, s, t);
  }
}
