/** What wakes a sleeping process, exactly: wakeup on its channel, the exits its wait is about, or kill. */
module ProcWakes {
  import opened ProcTable
  import opened ProcMachine
  import opened ProcProofs

  /** An exit that its parent, or init for the zombies it inherits, must not sleep through. */
  predicate ExitConcerns(t: seq<Proc>, init: nat, cur: nat, q: int)
    requires cur < |t|
  {
    t[cur].parent == q || (q == init && HasZombie(t, cur))
  }

  /** The event wakes process `i`. */
  predicate WakesUp(s: State, init: nat, e: Event, i: nat)
    requires i < |s.t|
  {
    match e
    case Wakeup(x) => s.t[i].chan == OnOther(x)
    case Exit(j) => j < |s.t| && s.t[i].chan.OnProc? && ExitConcerns(s.t, init, j, s.t[i].chan.i)
    case Kill(pid) => s.t[i].pid == pid && forall j | 0 <= j < i :: s.t[j].pid != pid
    case _ => false
  }

  lemma ExitEach(t: seq<Proc>, cur: nat, init: nat, i: nat)
    requires cur < |t| && i < |t|
    ensures var p := Exited(t, cur, init)[i];
            p.pid == t[i].pid && p.killed == t[i].killed && p.chan == t[i].chan &&
            p.parent == (if t[i].parent == cur then init else t[i].parent) &&
            p.state ==
            (if i == cur then ZOMBIE
             else if t[i].state == SLEEPING && t[i].chan.OnProc? && ExitConcerns(t, init, cur, t[i].chan.i)
             then RUNNABLE else t[i].state)
  {
    var w := Woken(t, OnProc(t[cur].parent));
    assert w[i] == Woke(t[i], OnProc(t[cur].parent));
    assert ZombieChild(w, cur, |t|) <==> HasZombie(t, cur) by {
      if HasZombie(t, cur) {
        var z :| 0 <= z < |t| && t[z].parent == cur && t[z].state == ZOMBIE;
        assert w[z].parent == cur && w[z].state == ZOMBIE;
      }
    }
    assert Adopted(w, cur, init, |t|)[i] == Adopt1(w, cur, init, |t|, i);
  }

  /** A sleeper is made runnable by exactly those events, and sleeps on through every other. */
  lemma WakesExactly(s: State, init: nat, e: Event, i: nat)
    requires Inv(s, init) && Enabled(s, init, e) && i < |s.t| && s.t[i].state == SLEEPING
    ensures var t := Apply(s, init, e).t;
            |t| == |s.t| && t[i].state == (if WakesUp(s, init, e, i) then RUNNABLE else SLEEPING) &&
            t[i].chan == s.t[i].chan && t[i].pid == s.t[i].pid
  {
    match e
    case Exit(j) => ExitEach(s.t, j, init, i);
    case ForkFail(j) => assert CodeOk(s.t, s.pc, j);
    case ForkDone(j) => assert CodeOk(s.t, s.pc, j);
    case _ =>
  }

  /** Through a whole run without such an event it sleeps on. */
  lemma {:induction false} SleepsOn(s: State, init: nat, es: seq<Event>, i: nat)
    requires Inv(s, init) && Run(s, init, es) && i < |s.t| && s.t[i].state == SLEEPING
    requires forall n | 0 <= n < |es| :: !CanWake(es[n], s.t[i].chan, s.t[i].pid)
    ensures i < |Final(s, init, es).t| && Final(s, init, es).t[i].state == SLEEPING
    decreases |es|
  {
    if es != [] {
      WakesExactly(s, init, es[0], i);
      Step(s, init, es[0]);
      SleepsOn(Apply(s, init, es[0]), init, es[1..], i);
    }
  }

  /** By its channel and pid alone: what could wake such a process. */
  predicate CanWake(e: Event, ch: Chan, pid: nat) {
    match e
    case Wakeup(x) => ch == OnOther(x)
    case Exit(_) => ch.OnProc?
    case Kill(p) => p == pid
    case _ => false
  }

  /** A killed process does not stay in wait: woken there it reaps a child or gives up. */
  lemma KilledLeavesWait(s: State, init: nat, i: nat)
    requires Inv(s, init) && Enabled(s, init, Schedule(i)) && s.pc[i] == Waiting && s.t[i].killed
    ensures At(Apply(s, init, Schedule(i)), i, User)
  {
    WaitAnswers(Scheduled(s, i).t, i);
    assert FamilyOk(s.t, init, i);
  }
}
