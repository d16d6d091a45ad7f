/** Every step of the process machine keeps its invariant, and what follows for whole runs. */
module ProcProofs {
  import opened ProcTable
  import opened ProcMachine

  /** Only who runs, who is runnable and who sleeps on what may differ. */
  ghost predicate Restless(t: seq<Proc>, u: seq<Proc>) {
    |t| == |u| && forall i | 0 <= i < |t| :: SameBut(t[i], u[i])
  }

  predicate SameBut(p: Proc, q: Proc) {
    q.parent == p.parent && q.pid == p.pid && (if Alive(p) then Alive(q) else q.state == p.state)
  }

  lemma RestlessFamily(t: seq<Proc>, u: seq<Proc>, init: nat, i: nat)
    requires Restless(t, u) && i < |t| && FamilyOk(t, init, i)
    ensures FamilyOk(u, init, i)
  {
    assert SameBut(t[i], u[i]);
    if t[i].parent != -1 {
      assert SameBut(t[t[i].parent], u[t[i].parent]);
    }
  }

  lemma RestlessFates(s: State, u: seq<Proc>, pc: seq<Pc>)
    requires Fates(s) && Restless(s.t, u)
    ensures Fates(s.(t := u, pc := pc))
  {
    var s' := s.(t := u, pc := pc);
    forall i | 0 <= i < |u|
      ensures FateOk(s', i)
    {
      assert SameBut(s.t[i], u[i]) && FateOk(s, i);
    }
    forall i, j | 0 <= i < |u| && 0 <= j < |u|
      ensures PidsApart(u, i, j)
    {
      assert SameBut(s.t[i], u[i]) && SameBut(s.t[j], u[j]) && PidsApart(s.t, i, j);
    }
    forall pid | pid in s.started
      ensures InTable(u, pid) || pid in s.reaped
    {
      if InTable(s.t, pid) {
        var i :| 0 <= i < |s.t| && s.t[i].pid == pid && (Alive(s.t[i]) || s.t[i].state == ZOMBIE);
        assert SameBut(s.t[i], u[i]);
        assert u[i].pid == pid;
      }
    }
  }

  /** What kill marked does not matter to the pids. */
  lemma HitFates(s: State, hit: set<nat>)
    requires Fates(s)
    ensures Fates(s.(hit := hit))
  {
    forall i | 0 <= i < |s.t|
      ensures FateOk(s.(hit := hit), i)
    {
      assert FateOk(s, i);
    }
  }

  /** Nobody new fell asleep in wait: no wakeup can be missed or no longer owed. */
  lemma RestlessWakes(s: State, u: seq<Proc>)
    requires Wakes(s) && Restless(s.t, u) && forall p | 0 <= p < |u| :: AsleepInWait(u, p) ==> AsleepInWait(s.t, p)
    ensures Wakes(s.(t := u))
  {
    forall z | 0 <= z < |u|
      ensures NotMissed(u, z)
    {
      assert SameBut(s.t[z], u[z]) && NotMissed(s.t, z);
    }
    forall p | 0 <= p < |u|
      ensures Owed(u, p)
    {
      if AsleepInWait(u, p) {
        assert Owed(s.t, p);
        var c: nat :| Owes(s.t, p, c);
        assert SameBut(s.t[c], u[c]);
        assert Owes(u, p, c);
      }
    }
  }

  lemma RestlessControl(s: State, u: seq<Proc>, pc: seq<Pc>, init: nat)
    requires Control(s, init) && Restless(s.t, u) && |pc| == NPROC
    requires forall i | 0 <= i < NPROC :: CodeOk(u, pc, i)
    requires forall i | 0 <= i < NPROC :: ChildOf(pc[i]) == ChildOf(s.pc[i]) && (s.pc[i].Linked? ==> pc[i] == s.pc[i])
    ensures Control(s.(t := u, pc := pc), init)
  {
    var s' := s.(t := u, pc := pc);
    assert SameBut(s.t[init], u[init]);
    forall i | 0 <= i < NPROC
      ensures FamilyOk(u, init, i) && EmbryoOk(u, pc, i)
    {
      RestlessFamily(s.t, u, init, i);
      assert SameBut(s.t[i], u[i]) && EmbryoOk(s.t, s.pc, i);
    }
    forall i, j | 0 <= i < NPROC && 0 <= j < NPROC
      ensures ForksApart(pc, i, j)
    {
      assert ForksApart(s.pc, i, j);
    }
  }

  // --- Steps that only move processes between running, runnable and asleep ---

  /** Entry `i` changed its way of being alive. */
  lemma OneRestless(t: seq<Proc>, i: nat, p: Proc)
    requires i < |t| && SameBut(t[i], p)
    ensures Restless(t, t[i := p])
  {
  }

  lemma WokenRestless(t: seq<Proc>, ch: Chan)
    ensures Restless(t, Woken(t, ch))
    ensures forall p | 0 <= p < |t| :: AsleepInWait(Woken(t, ch), p) ==> AsleepInWait(t, p) && ch != OnProc(p)
  {
  }

  lemma WakeupStep(s: State, init: nat, x: int)
    requires Inv(s, init)
    ensures Inv(s.(t := Woken(s.t, OnOther(x))), init)
  {
    var u := Woken(s.t, OnOther(x));
    WokenRestless(s.t, OnOther(x));
    RestlessFates(s, u, s.pc);
    RestlessWakes(s, u);
    forall i | 0 <= i < NPROC
      ensures CodeOk(u, s.pc, i)
    {
      assert CodeOk(s.t, s.pc, i);
      assert u[i] == Woke(s.t[i], OnOther(x));
      if ChildOf(s.pc[i]) >= 0 {
        assert u[ChildOf(s.pc[i])] == Woke(s.t[ChildOf(s.pc[i])], OnOther(x));
      }
    }
    RestlessControl(s, u, s.pc, init);
    assert s.(t := u, pc := s.pc) == s.(t := u);
  }

  /** One process changes between running, runnable and asleep, other than falling asleep in wait. */
  lemma OneStep(s: State, init: nat, i: nat, p: Proc)
    requires Inv(s, init) && i < NPROC && SameBut(s.t[i], p)
    requires p.state == SLEEPING ==> !p.chan.OnProc? && s.pc[i] == User
    requires p.state == RUNNING ==> s.pc[i] != Waiting
    ensures Inv(s.(t := s.t[i := p]), init)
  {
    var u := s.t[i := p];
    OneRestless(s.t, i, p);
    RestlessFates(s, u, s.pc);
    assert forall q | 0 <= q < |u| :: AsleepInWait(u, q) ==> AsleepInWait(s.t, q);
    RestlessWakes(s, u);
    forall j | 0 <= j < NPROC
      ensures CodeOk(u, s.pc, j)
    {
      assert CodeOk(s.t, s.pc, j);
    }
    RestlessControl(s, u, s.pc, init);
    assert s.(t := u, pc := s.pc) == s.(t := u);
  }

  lemma KillStep(s: State, init: nat, pid: nat)
    requires Inv(s, init) && Enabled(s, init, Kill(pid))
    ensures Inv(Apply(s, init, Kill(pid)), init)
  {
    var k := FirstPid(s.t, pid, 0);
    assert CodeOk(s.t, s.pc, k);
    OneStep(s, init, k, Killed(s.t[k]));
    HitFates(s.(t := s.t[k := Killed(s.t[k])]), s.hit + {k});
  }

  // --- wait ---

  /** A process woken in wait runs again, about to scan. */
  lemma ResumeStep(s: State, init: nat, i: nat)
    requires Inv(s, init) && i < NPROC && s.t[i].state == RUNNABLE && s.pc[i] == Waiting
    ensures Inv(Scheduled(s, i).(pc := s.pc[i := User]), init)
  {
    var pcs := s.pc[i := User];
    var u := s.t[i := s.t[i].(state := RUNNING, chan := NoChan)];
    OneRestless(s.t, i, u[i]);
    RestlessFates(s, u, pcs);
    assert forall q | 0 <= q < |u| :: AsleepInWait(u, q) ==> AsleepInWait(s.t, q);
    RestlessWakes(s, u);
    forall j | 0 <= j < NPROC
      ensures CodeOk(u, pcs, j)
    {
      assert CodeOk(s.t, s.pc, j);
    }
    RestlessControl(s, u, pcs, init);
  }

  lemma SleepInWaitWakes(s: State, init: nat, i: nat)
    requires Inv(s, init) && At(s, i, User) && ScanOf(s.t, i) == Sleep
    ensures Wakes(DoWait(s, i))
  {
    var u := DoWait(s, i).t;
    assert FirstZombie(s.t, i, 0) == |s.t|;
    forall z | 0 <= z < |u|
      ensures NotMissed(u, z)
    {
      assert NotMissed(s.t, z);
    }
    forall p | 0 <= p < |u|
      ensures Owed(u, p)
    {
      if p == i {
        var c: nat :| c < |s.t| && s.t[c].parent == i;
        assert FamilyOk(s.t, init, c) && EmbryoOk(s.t, s.pc, c);
        assert Owes(u, p, c);
      } else if AsleepInWait(u, p) {
        assert Owed(s.t, p);
        var c: nat :| Owes(s.t, p, c);
        assert Owes(u, p, c);
      }
    }
  }

  lemma SleepInWaitStep(s: State, init: nat, i: nat)
    requires Inv(s, init) && At(s, i, User) && ScanOf(s.t, i) == Sleep
    ensures Inv(DoWait(s, i), init)
  {
    var s' := DoWait(s, i);
    OneRestless(s.t, i, s'.t[i]);
    RestlessFates(s, s'.t, s'.pc);
    SleepInWaitWakes(s, init, i);
    forall j | 0 <= j < NPROC
      ensures CodeOk(s'.t, s'.pc, j)
    {
      assert CodeOk(s.t, s.pc, j);
    }
    RestlessControl(s, s'.t, s'.pc, init);
  }

  lemma ReapControl(s: State, init: nat, i: nat, z: nat)
    requires Inv(s, init) && At(s, i, User) && z < NPROC && s.t[z].state == ZOMBIE
    ensures Control(s.(t := s.t[z := Reaped(s.t[z])]), init) && Wakes(s.(t := s.t[z := Reaped(s.t[z])]))
  {
    var u := s.t[z := Reaped(s.t[z])];
    forall j | 0 <= j < NPROC
      ensures FamilyOk(u, init, j) && CodeOk(u, s.pc, j) && EmbryoOk(u, s.pc, j) && NotMissed(u, j)
    {
      assert FamilyOk(s.t, init, j) && CodeOk(s.t, s.pc, j) && EmbryoOk(s.t, s.pc, j) && NotMissed(s.t, j);
    }
    forall p | 0 <= p < NPROC
      ensures Owed(u, p)
    {
      if AsleepInWait(u, p) {
        assert Owed(s.t, p);
        var c: nat :| Owes(s.t, p, c);
        assert Owes(u, p, c);
      }
    }
  }

  /** A zombie's pid is handed out once: it leaves the table for good. */
  lemma ReapFates(s: State, init: nat, z: nat)
    requires Inv(s, init) && z < NPROC && s.t[z].state == ZOMBIE
    ensures Fates(s.(t := s.t[z := Reaped(s.t[z])], reaped := s.reaped + [s.t[z].pid]))
  {
    var pid := s.t[z].pid;
    var s' := s.(t := s.t[z := Reaped(s.t[z])], reaped := s.reaped + [pid]);
    assert FateOk(s, z);
    forall j | 0 <= j < NPROC
      ensures FateOk(s', j)
    {
      assert FateOk(s, j) && PidsApart(s.t, j, z);
    }
    forall i, j | 0 <= i < NPROC && 0 <= j < NPROC
      ensures PidsApart(s'.t, i, j)
    {
      assert PidsApart(s.t, i, j);
    }
    forall p | p in s.started
      ensures 0 < p < s.nextpid && (InTable(s'.t, p) || p in s'.reaped)
    {
      if InTable(s.t, p) && p != pid {
        var j :| 0 <= j < |s.t| && s.t[j].pid == p && (Alive(s.t[j]) || s.t[j].state == ZOMBIE);
        assert s'.t[j] == s.t[j];
      }
    }
  }

  lemma WaitStep(s: State, init: nat, i: nat)
    requires Inv(s, init) && At(s, i, User)
    ensures Inv(DoWait(s, i), init)
  {
    match ScanOf(s.t, i)
    case Reap(z) =>
      ReapControl(s, init, i, z);
      ReapFates(s, init, z);
      HitFates(s.(t := s.t[z := Reaped(s.t[z])], reaped := s.reaped + [s.t[z].pid]), s.hit - {z});
      assert s.pc[i := User] == s.pc;
    case GiveUp =>
      assert s.pc[i := User] == s.pc;
    case Sleep =>
      SleepInWaitStep(s, init, i);
  }

  lemma ScheduleStep(s: State, init: nat, i: nat)
    requires Inv(s, init) && Enabled(s, init, Schedule(i))
    ensures Inv(Apply(s, init, Schedule(i)), init)
  {
    if s.pc[i] == Waiting {
      ResumeStep(s, init, i);
      var mid := Scheduled(s, i).(pc := s.pc[i := User]);
      WaitStep(mid, init, i);
      assert DoWait(mid, i) == DoWait(Scheduled(s, i), i);
    } else {
      OneStep(s, init, i, s.t[i].(state := RUNNING, chan := NoChan));
    }
  }

  // --- fork ---

  lemma AllocStep(s: State, init: nat, i: nat)
    requires Inv(s, init) && Enabled(s, init, Alloc(i))
    ensures Inv(Apply(s, init, Alloc(i)), init)
  {
    var s' := Apply(s, init, Alloc(i));
    var c := FirstUnused(s.t, 0);
    forall j | 0 <= j < NPROC
      ensures FamilyOk(s'.t, init, j) && CodeOk(s'.t, s'.pc, j) && EmbryoOk(s'.t, s'.pc, j)
      ensures NotMissed(s'.t, j) && FateOk(s', j)
    {
      assert FamilyOk(s.t, init, j) && CodeOk(s.t, s.pc, j) && EmbryoOk(s.t, s.pc, j) && NotMissed(s.t, j) &&
             FateOk(s, j);
      assert FamilyOk(s.t, init, c);
    }
    forall x, y | 0 <= x < NPROC && 0 <= y < NPROC
      ensures ForksApart(s'.pc, x, y) && PidsApart(s'.t, x, y)
    {
      assert ForksApart(s.pc, x, y) && PidsApart(s.t, x, y);
      assert CodeOk(s.t, s.pc, x) && CodeOk(s.t, s.pc, y) && FateOk(s, x) && FateOk(s, y);
    }
    SteadyRest(s, s');
  }

  /** Living and zombie entries are as before, so nothing owed or recorded changes. */
  lemma SteadyRest(s: State, s': State)
    requires |s'.t| == |s.t| && s'.started == s.started && s'.reaped == s.reaped && s.nextpid <= s'.nextpid
    requires Wakes(s) && Fates(s)
    requires forall j | 0 <= j < |s.t| && (Alive(s.t[j]) || s.t[j].state == ZOMBIE) ::
               s'.t[j].pid == s.t[j].pid && s'.t[j].parent == s.t[j].parent && s'.t[j].state == s.t[j].state
    requires forall j | 0 <= j < |s.t| :: AsleepInWait(s'.t, j) ==> AsleepInWait(s.t, j)
    ensures forall p | 0 <= p < |s'.t| :: Owed(s'.t, p)
    ensures forall pid | pid in s'.started :: 0 < pid < s'.nextpid && (InTable(s'.t, pid) || pid in s'.reaped)
  {
    forall p | 0 <= p < |s'.t|
      ensures Owed(s'.t, p)
    {
      if AsleepInWait(s'.t, p) {
        assert Owed(s.t, p);
        var c: nat :| Owes(s.t, p, c);
        assert Owes(s'.t, p, c);
      }
    }
    forall pid | pid in s'.started
      ensures InTable(s'.t, pid) || pid in s'.reaped
    {
      if InTable(s.t, pid) {
        var j :| 0 <= j < |s.t| && s.t[j].pid == pid && (Alive(s.t[j]) || s.t[j].state == ZOMBIE);
        assert s'.t[j].pid == pid;
      }
    }
  }

  lemma ForkFailStep(s: State, init: nat, i: nat)
    requires Inv(s, init) && Enabled(s, init, ForkFail(i))
    ensures Inv(Apply(s, init, ForkFail(i)), init)
  {
    var s' := Apply(s, init, ForkFail(i));
    var c := s.pc[i].child;
    assert CodeOk(s.t, s.pc, i);
    forall j | 0 <= j < NPROC
      ensures FamilyOk(s'.t, init, j) && CodeOk(s'.t, s'.pc, j) && EmbryoOk(s'.t, s'.pc, j)
      ensures NotMissed(s'.t, j) && FateOk(s', j)
    {
      assert FamilyOk(s.t, init, j) && CodeOk(s.t, s.pc, j) && EmbryoOk(s.t, s.pc, j) && NotMissed(s.t, j) &&
             FateOk(s, j);
      assert ForksApart(s.pc, i, j);
    }
    forall x, y | 0 <= x < NPROC && 0 <= y < NPROC
      ensures ForksApart(s'.pc, x, y) && PidsApart(s'.t, x, y)
    {
      assert ForksApart(s.pc, x, y) && PidsApart(s.t, x, y);
    }
    SteadyRest(s, s');
  }

  lemma SetParentStep(s: State, init: nat, i: nat)
    requires Inv(s, init) && Enabled(s, init, SetParent(i))
    ensures Inv(Apply(s, init, SetParent(i)), init)
  {
    var s' := Apply(s, init, SetParent(i));
    var c := s.pc[i].child;
    assert CodeOk(s.t, s.pc, i);
    forall j | 0 <= j < NPROC
      ensures FamilyOk(s'.t, init, j) && CodeOk(s'.t, s'.pc, j) && EmbryoOk(s'.t, s'.pc, j)
      ensures NotMissed(s'.t, j) && FateOk(s', j)
    {
      assert FamilyOk(s.t, init, j) && CodeOk(s.t, s.pc, j) && EmbryoOk(s.t, s.pc, j) && NotMissed(s.t, j) &&
             FateOk(s, j);
      assert ForksApart(s.pc, i, j);
    }
    forall x, y | 0 <= x < NPROC && 0 <= y < NPROC
      ensures ForksApart(s'.pc, x, y) && PidsApart(s'.t, x, y)
    {
      assert ForksApart(s.pc, x, y) && PidsApart(s.t, x, y);
    }
    SteadyRest(s, s');
  }

  lemma ForkDoneStep(s: State, init: nat, i: nat)
    requires Inv(s, init) && Enabled(s, init, ForkDone(i))
    ensures Inv(Apply(s, init, ForkDone(i)), init)
  {
    var s' := Apply(s, init, ForkDone(i));
    var c := s.pc[i].child;
    assert CodeOk(s.t, s.pc, i) && FateOk(s, c);
    forall j | 0 <= j < NPROC
      ensures FamilyOk(s'.t, init, j) && CodeOk(s'.t, s'.pc, j) && EmbryoOk(s'.t, s'.pc, j)
      ensures NotMissed(s'.t, j) && FateOk(s', j)
    {
      assert FamilyOk(s.t, init, j) && CodeOk(s.t, s.pc, j) && EmbryoOk(s.t, s.pc, j) && NotMissed(s.t, j) &&
             FateOk(s, j);
      assert ForksApart(s.pc, i, j) && PidsApart(s.t, j, c);
      assert CodeOk(s.t, s.pc, c);
    }
    forall x, y | 0 <= x < NPROC && 0 <= y < NPROC
      ensures ForksApart(s'.pc, x, y) && PidsApart(s'.t, x, y)
    {
      assert ForksApart(s.pc, x, y) && PidsApart(s.t, x, y);
    }
    assert InTable(s'.t, s.t[c].pid) by {
      assert s'.t[c].pid == s.t[c].pid;
    }
    SteadyRest(s, s'.(started := s.started));
  }

  // --- exit ---

  /** The table after exit, entry by entry. */
  lemma ExitedAt(t: seq<Proc>, i: nat, init: nat, j: nat)
    requires i < |t| && j < |t| && t[i].state == RUNNING
    ensures var u := Exited(t, i, init);
            |u| == |t| && u[j].pid == t[j].pid && u[j].chan == t[j].chan &&
            u[j].parent == (if t[j].parent == i then init else t[j].parent) &&
            (if j == i then u[j].state == ZOMBIE
             else if Alive(t[j]) then
               Alive(u[j]) && (u[j].state == t[j].state || (t[j].state == SLEEPING && u[j].state == RUNNABLE))
             else u[j].state == t[j].state)
  {
    assert Woken(t, OnProc(t[i].parent))[j] == Woke(t[j], OnProc(t[i].parent));
  }

  /** The parent is not asleep in wait afterwards, nor is init if it got a zombie. */
  lemma ExitedWakes(t: seq<Proc>, i: nat, init: nat, p: nat)
    requires i < |t| && p < |t| && t[i].state == RUNNING && p != i
    requires p == t[i].parent || (p == init && ZombieChild(t, i, |t|))
    ensures !AsleepInWait(Exited(t, i, init), p)
  {
    var w := Woken(t, OnProc(t[i].parent));
    assert w[p] == Woke(t[p], OnProc(t[i].parent));
    if ZombieChild(t, i, |t|) {
      var z :| 0 <= z < |t| && t[z].parent == i && t[z].state == ZOMBIE;
      assert w[z].parent == i && w[z].state == ZOMBIE;
      assert ZombieChild(w, i, |t|);
    }
  }

  lemma ExitControl(s: State, init: nat, i: nat)
    requires Inv(s, init) && Enabled(s, init, Exit(i))
    ensures Control(Apply(s, init, Exit(i)), init)
  {
    var u := Exited(s.t, i, init);
    ExitedAt(s.t, i, init, init);
    assert FamilyOk(s.t, init, i);
    forall j | 0 <= j < NPROC
      ensures FamilyOk(u, init, j) && CodeOk(u, s.pc, j) && EmbryoOk(u, s.pc, j)
    {
      assert FamilyOk(s.t, init, j) && CodeOk(s.t, s.pc, j) && EmbryoOk(s.t, s.pc, j);
      ExitedAt(s.t, i, init, j);
      if s.t[j].parent != -1 {
        ExitedAt(s.t, i, init, s.t[j].parent);
      }
      if ChildOf(s.pc[j]) >= 0 {
        ExitedAt(s.t, i, init, ChildOf(s.pc[j]));
      }
    }
  }

  lemma ExitWakes(s: State, init: nat, i: nat)
    requires Inv(s, init) && Enabled(s, init, Exit(i))
    ensures Wakes(Apply(s, init, Exit(i)))
  {
    var u := Exited(s.t, i, init);
    assert FamilyOk(s.t, init, i);
    forall z | 0 <= z < NPROC
      ensures NotMissed(u, z)
    {
      assert NotMissed(s.t, z) && FamilyOk(s.t, init, z);
      ExitedAt(s.t, i, init, z);
      if u[z].state == ZOMBIE {
        if z == i {
          ExitedWakes(s.t, i, init, s.t[i].parent);
        } else if s.t[z].parent == i {
          assert ZombieChild(s.t, i, |s.t|);
          ExitedWakes(s.t, i, init, init);
        } else if 0 <= s.t[z].parent {
          ExitedAt(s.t, i, init, s.t[z].parent);
        }
      }
    }
    forall p | 0 <= p < NPROC
      ensures Owed(u, p)
    {
      ExitedAt(s.t, i, init, p);
      if AsleepInWait(u, p) {
        assert Owed(s.t, p);
        var c: nat :| Owes(s.t, p, c);
        ExitedAt(s.t, i, init, c);
        if c == i {
          ExitedWakes(s.t, i, init, p);
        }
        assert Owes(u, p, c);
      }
    }
  }

  lemma ExitFates(s: State, init: nat, i: nat)
    requires Inv(s, init) && Enabled(s, init, Exit(i))
    ensures Fates(Apply(s, init, Exit(i)))
  {
    var s' := Apply(s, init, Exit(i));
    assert FateOk(s, i);
    forall j | 0 <= j < NPROC
      ensures FateOk(s', j)
    {
      assert FateOk(s, j) && PidsApart(s.t, j, i);
      ExitedAt(s.t, i, init, j);
    }
    forall x, y | 0 <= x < NPROC && 0 <= y < NPROC
      ensures PidsApart(s'.t, x, y)
    {
      assert PidsApart(s.t, x, y);
      ExitedAt(s.t, i, init, x);
      ExitedAt(s.t, i, init, y);
    }
    forall pid | pid in s.started
      ensures InTable(s'.t, pid) || pid in s.reaped
    {
      if InTable(s.t, pid) {
        var j :| 0 <= j < |s.t| && s.t[j].pid == pid && (Alive(s.t[j]) || s.t[j].state == ZOMBIE);
        ExitedAt(s.t, i, init, j);
        assert s'.t[j].pid == pid;
      }
    }
  }

  // --- Whole runs ---

  /** Every step any process can take keeps the invariant. */
  lemma Step(s: State, init: nat, e: Event)
    requires Inv(s, init) && Enabled(s, init, e)
    ensures Inv(Apply(s, init, e), init)
  {
    match e
    case Alloc(i) => AllocStep(s, init, i);
    case ForkFail(i) => ForkFailStep(s, init, i);
    case SetParent(i) => SetParentStep(s, init, i);
    case ForkDone(i) => ForkDoneStep(s, init, i);
    case Exit(i) =>
      ExitControl(s, init, i);
      ExitWakes(s, init, i);
      ExitFates(s, init, i);
    case Wait(i) => WaitStep(s, init, i);
    case Schedule(i) => ScheduleStep(s, init, i);
    case Yield(i) => OneStep(s, init, i, s.t[i].(state := RUNNABLE));
    case SleepOn(i, x) => OneStep(s, init, i, s.t[i].(chan := OnOther(x), state := SLEEPING));
    case Wakeup(x) => WakeupStep(s, init, x);
    case Kill(pid) => KillStep(s, init, pid);
  }

  /** After userinit: one runnable process, with pid 1. */
  ghost predicate Boot(s: State, init: nat) {
    |s.t| == |s.pc| == NPROC && init < NPROC && s.nextpid == 2 &&
    s.t[init] == Proc(RUNNABLE, 1, -1, NoChan, false) &&
    (forall i | 0 <= i < NPROC && i != init :: s.t[i] == Proc(UNUSED, 0, -1, NoChan, false)) &&
    (forall i | 0 <= i < NPROC :: s.pc[i] == User) &&
    s.started == {1} && s.exited == {} && s.reaped == [] && s.abandoned == {} && s.hit == {}
  }

  lemma BootInv(s: State, init: nat)
    requires Boot(s, init)
    ensures Inv(s, init)
  {
    forall i | 0 <= i < NPROC
      ensures FamilyOk(s.t, init, i) && CodeOk(s.t, s.pc, i) && EmbryoOk(s.t, s.pc, i) && NotMissed(s.t, i) &&
              Owed(s.t, i) &&
              FateOk(s, i)
    {
    }
    assert InTable(s.t, 1) by {
      assert s.t[init].pid == 1;
    }
  }

  ghost predicate Run(s: State, init: nat, es: seq<Event>)
    decreases |es|
  {
    |es| > 0 ==> Enabled(s, init, es[0]) && Run(Apply(s, init, es[0]), init, es[1..])
  }

  ghost function Final(s: State, init: nat, es: seq<Event>): State
    requires Run(s, init, es)
    decreases |es|
  {
    if |es| == 0 then s else Final(Apply(s, init, es[0]), init, es[1..])
  }

  lemma {:induction false} RunInv(s: State, init: nat, es: seq<Event>)
    requires Inv(s, init) && Run(s, init, es)
    ensures Inv(Final(s, init, es), init)
    decreases |es|
  {
    if |es| > 0 {
      Step(s, init, es[0]);
      RunInv(Apply(s, init, es[0]), init, es[1..]);
    }
  }

  /**
   In every reachable state no parent sleeps in wait on a zombie child, and a sleeper has a living child to wake it.
   */
  lemma NoLostChild(s: State, init: nat, es: seq<Event>, p: nat)
    requires Boot(s, init) && Run(s, init, es) && p < |Final(s, init, es).t|
    requires AsleepInWait(Final(s, init, es).t, p)
    ensures forall z | 0 <= z < |Final(s, init, es).t| && Final(s, init, es).t[z].parent == p ::
              Final(s, init, es).t[z].state != ZOMBIE
    ensures exists c :: Owes(Final(s, init, es).t, p, c)
  {
    BootInv(s, init);
    RunInv(s, init, es);
    var f := Final(s, init, es);
    forall z | 0 <= z < |f.t| && f.t[z].parent == p
      ensures f.t[z].state != ZOMBIE
    {
      assert NotMissed(f.t, z);
    }
    assert Owed(f.t, p);
  }

  /** No child points to a dead or free parent, and only init and free or half-made entries lack one. */
  lemma ParentsAlive(s: State, init: nat, es: seq<Event>, c: nat)
    requires Boot(s, init) && Run(s, init, es) && c < |Final(s, init, es).t|
    ensures var t := Final(s, init, es).t;
            (t[c].parent != -1 ==> 0 <= t[c].parent < |t| && Alive(t[t[c].parent])) &&
            (Alive(t[c]) && c != init ==> t[c].parent != -1) && (t[c].state == ZOMBIE ==> t[c].parent != -1)
  {
    BootInv(s, init);
    RunInv(s, init, es);
    assert FamilyOk(Final(s, init, es).t, init, c);
  }

  /** wait returns each pid at most once, only after its exit, and every started process is accounted for. */
  lemma ReapedOnce(s: State, init: nat, es: seq<Event>)
    requires Boot(s, init) && Run(s, init, es)
    ensures var f := Final(s, init, es);
            (forall i, j | 0 <= i < j < |f.reaped| :: f.reaped[i] != f.reaped[j]) &&
            (forall pid | pid in f.reaped :: pid in f.exited && !InTable(f.t, pid)) &&
            (forall pid | pid in f.started :: InTable(f.t, pid) != (pid in f.reaped))
  {
    BootInv(s, init);
    RunInv(s, init, es);
    var f := Final(s, init, es);
    forall pid | pid in f.reaped
      ensures !InTable(f.t, pid)
    {
      forall i | 0 <= i < |f.t|
        ensures !(f.t[i].pid == pid && (Alive(f.t[i]) || f.t[i].state == ZOMBIE))
      {
        assert FateOk(f, i);
      }
    }
  }

  predicate HasZombie(t: seq<Proc>, cur: int) {
    exists i :: 0 <= i < |t| && t[i].parent == cur && t[i].state == ZOMBIE
  }

  /**
   wait reaps the first zombie child; without one it gives up exactly when it has no children or was killed, and
   otherwise sleeps.
   */
  lemma WaitAnswers(t: seq<Proc>, cur: nat)
    requires cur < |t|
    ensures ScanOf(t, cur).Reap? <==> HasZombie(t, cur)
    ensures ScanOf(t, cur).Reap? ==>
              var z := ScanOf(t, cur).z;
              z < |t| && t[z].parent == cur && t[z].state == ZOMBIE &&
              forall j | 0 <= j < z :: !(t[j].parent == cur && t[j].state == ZOMBIE)
    ensures ScanOf(t, cur) == GiveUp <==>
              !HasZombie(t, cur) && (t[cur].killed || forall i | 0 <= i < |t| :: t[i].parent != cur)
    ensures ScanOf(t, cur) == Sleep <==>
              !HasZombie(t, cur) && !t[cur].killed && exists i :: 0 <= i < |t| && t[i].parent == cur
  {
    var z := FirstZombie(t, cur, 0);
    assert forall j | 0 <= j < z :: !(t[j].parent == cur && t[j].state == ZOMBIE);
    if z < |t| {
      assert HasZombie(t, cur);
    }
  }

  lemma {:induction false} FirstUnusedIs(t: seq<Proc>, i: nat, u: nat)
    requires i <= u < |t| && t[u].state == UNUSED && forall j | i <= j < u :: t[j].state != UNUSED
    ensures FirstUnused(t, i) == u
    decreases u - i
  {
    if i < u {
      FirstUnusedIs(t, i + 1, u);
    }
  }

  lemma {:induction false} FirstPidIs(t: seq<Proc>, pid: nat, i: nat, k: nat)
    requires i <= k < |t| && t[k].pid == pid && forall j | i <= j < k :: t[j].pid != pid
    ensures FirstPid(t, pid, i) == k
    decreases k - i
  {
    if i < k {
      FirstPidIs(t, pid, i + 1, k);
    }
  }

  /** A failed fork leaves its pid in the free entry, and kill does not look at the state: the flag it sets there
      outlives the entry, so the next process made in it is born killed though nobody killed its pid. */
  lemma BornKilled(s: State, init: nat, i: nat)
    requires Inv(s, init) && Enabled(s, init, Alloc(i))
    ensures var es := [Alloc(i), ForkFail(i), Kill(s.nextpid), Alloc(i), SetParent(i), ForkDone(i)];
            Run(s, init, es) &&
            var u := FirstUnused(s.t, 0);
            u < |Final(s, init, es).t| && Final(s, init, es).t[u] == Proc(RUNNABLE, s.nextpid + 1, i, s.t[u].chan, true)
  {
    var u := FirstUnused(s.t, 0);
    var s1 := Apply(s, init, Alloc(i));
    var s2 := Apply(s1, init, ForkFail(i));
    var s3 := LeftMarked(s, init, i);
    ForkAgain(s3, init, i, u);
    var rest := [Alloc(i), SetParent(i), ForkDone(i)];
    RunOne(s2, init, Kill(s.nextpid), rest);
    RunOne(s1, init, ForkFail(i), [Kill(s.nextpid)] + rest);
    RunOne(s, init, Alloc(i), [ForkFail(i)] + ([Kill(s.nextpid)] + rest));
    assert [Alloc(i)] + ([ForkFail(i)] + ([Kill(s.nextpid)] + rest)) ==
           [Alloc(i), ForkFail(i), Kill(s.nextpid), Alloc(i), SetParent(i), ForkDone(i)];
  }

  /** The failed fork and the kill. */
  lemma LeftMarked(s: State, init: nat, i: nat) returns (s3: State)
    requires Inv(s, init) && Enabled(s, init, Alloc(i))
    ensures var s1 := Apply(s, init, Alloc(i));
            Enabled(s1, init, ForkFail(i)) &&
            var s2 := Apply(s1, init, ForkFail(i));
            Enabled(s2, init, Kill(s.nextpid)) && s3 == Apply(s2, init, Kill(s.nextpid))
    ensures var u := FirstUnused(s.t, 0);
            At(s3, i, User) && u < |s3.t| && u == FirstUnused(s3.t, 0) && u != i && s3.nextpid == s.nextpid + 1 &&
            s3.t[u] == Proc(UNUSED, s.nextpid, -1, s.t[u].chan, true)
  {
    var u := FirstUnused(s.t, 0);
    assert FamilyOk(s.t, init, u);
    var s2 := Apply(Apply(s, init, Alloc(i)), init, ForkFail(i));
    forall j | 0 <= j < u
      ensures s2.t[j].pid != s.nextpid
    {
      assert FateOk(s, j);
    }
    FirstPidIs(s2.t, s.nextpid, 0, u);
    s3 := Apply(s2, init, Kill(s.nextpid));
    FirstUnusedIs(s3.t, 0, u);
  }

  /**
   After kill(0) the next process made starts killed exactly if its entry is the one kill marked, or was marked
   before.
   */
  lemma KillZero(s: State, init: nat, i: nat)
    requires Inv(s, init) && Enabled(s, init, Alloc(i)) && Enabled(s, init, Kill(0))
    ensures var es := [Kill(0), Alloc(i), SetParent(i), ForkDone(i)];
            Run(s, init, es) &&
            var u := FirstUnused(s.t, 0);
            u < |Final(s, init, es).t| && Final(s, init, es).t[u].state == RUNNABLE &&
            (Final(s, init, es).t[u].killed <==> FirstPid(s.t, 0, 0) == u || s.t[u].killed)
  {
    var u, k := FirstUnused(s.t, 0), FirstPid(s.t, 0, 0);
    assert FamilyOk(s.t, init, u) && FateOk(s, k);
    var s1 := Apply(s, init, Kill(0));
    FirstUnusedIs(s1.t, 0, u);
    ForkAgain(s1, init, i, u);
    RunOne(s, init, Kill(0), [Alloc(i), SetParent(i), ForkDone(i)]);
    assert [Kill(0)] + [Alloc(i), SetParent(i), ForkDone(i)] == [Kill(0), Alloc(i), SetParent(i), ForkDone(i)];
  }

  // --- What kill marks ---

  lemma ExitMarks(t: seq<Proc>, i: nat, init: nat, j: nat)
    requires i < |t| && j < |t| && t[i].state == RUNNING
    ensures var u := Exited(t, i, init);
            |u| == |t| && u[j].pid == t[j].pid && u[j].killed == t[j].killed &&
            (u[j].state == UNUSED <==> t[j].state == UNUSED)
  {
    assert Woken(t, OnProc(t[i].parent))[j] == Woke(t[j], OnProc(t[i].parent));
  }

  /** allocproc's pid is new. */
  lemma AllocMarks(s: State, init: nat, i: nat)
    requires Marks(s) && Enabled(s, init, Alloc(i))
    ensures Marks(Apply(s, init, Alloc(i)))
  {
    var s' := Apply(s, init, Alloc(i));
    assert s.nextpid !in s.abandoned;
    forall j | 0 <= j < |s'.t|
      ensures MarkOk(s', j)
    {
      assert MarkOk(s, j);
    }
  }

  lemma ForkMarks(s: State, init: nat, e: Event)
    requires Inv(s, init) && Marks(s) && Enabled(s, init, e) && (e.ForkFail? || e.SetParent? || e.ForkDone?)
    ensures Marks(Apply(s, init, e))
  {
    var s' := Apply(s, init, e);
    assert CodeOk(s.t, s.pc, e.i);
    forall j | 0 <= j < |s'.t|
      ensures MarkOk(s', j)
    {
      assert MarkOk(s, j) && FateOk(s, j);
      if e.ForkFail? {
        assert PidsApart(s.t, j, s.pc[e.i].child) && FateOk(s, s.pc[e.i].child);
      }
    }
    if e.ForkFail? {
      assert FateOk(s, s.pc[e.i].child);
    }
  }

  lemma WaitMarks(s: State, i: nat)
    requires Marks(s) && i < |s.t| == |s.pc| && s.t[i].state != UNUSED
    ensures Marks(DoWait(s, i))
  {
    var s' := DoWait(s, i);
    assert MarkOk(s, i);
    forall j | 0 <= j < |s'.t|
      ensures MarkOk(s', j)
    {
      assert MarkOk(s, j);
    }
  }

  lemma MarksStep(s: State, init: nat, e: Event)
    requires Inv(s, init) && Marks(s) && Enabled(s, init, e)
    ensures Marks(Apply(s, init, e))
  {
    match e
    case Wait(i) => WaitMarks(s, i);
    case Schedule(i) =>
      ScheduledMarks(s, i);
      WaitMarks(Scheduled(s, i), i);
    case Exit(i) =>
      var s' := Apply(s, init, e);
      forall j | 0 <= j < |s'.t|
        ensures MarkOk(s', j)
      {
        assert MarkOk(s, j);
        ExitMarks(s.t, i, init, j);
      }
    case Wakeup(x) =>
      var s' := Apply(s, init, e);
      forall j | 0 <= j < |s'.t|
        ensures MarkOk(s', j)
      {
        assert MarkOk(s, j) && s'.t[j] == Woke(s.t[j], OnOther(x));
      }
    case Kill(pid) => KillMarks(s, init, pid);
    case Yield(i) => OneMark(s, i, s.t[i].(state := RUNNABLE));
    case SleepOn(i, x) => OneMark(s, i, s.t[i].(chan := OnOther(x), state := SLEEPING));
    case Alloc(i) => AllocMarks(s, init, i);
    case _ => ForkMarks(s, init, e);
  }

  lemma KillMarks(s: State, init: nat, pid: nat)
    requires Marks(s) && Enabled(s, init, Kill(pid))
    ensures Marks(Apply(s, init, Kill(pid)))
  {
    var s' := Apply(s, init, Kill(pid));
    forall j | 0 <= j < |s'.t|
      ensures MarkOk(s', j)
    {
      assert MarkOk(s, j);
    }
  }

  lemma OneMark(s: State, i: nat, p: Proc)
    requires Marks(s) && i < |s.t| && s.t[i].state != UNUSED && p.state != UNUSED
    requires p.pid == s.t[i].pid && p.killed == s.t[i].killed
    ensures Marks(s.(t := s.t[i := p]))
  {
    var s' := s.(t := s.t[i := p]);
    forall j | 0 <= j < |s'.t|
      ensures MarkOk(s', j)
    {
      assert MarkOk(s, j) && MarkOk(s, i);
    }
  }

  lemma ScheduledMarks(s: State, i: nat)
    requires Marks(s) && i < |s.t| && s.t[i].state == RUNNABLE
    ensures Marks(Scheduled(s, i))
  {
    OneMark(s, i, s.t[i].(state := RUNNING, chan := NoChan));
  }

  lemma {:induction false} RunMarks(s: State, init: nat, es: seq<Event>)
    requires Inv(s, init) && Marks(s) && Run(s, init, es)
    ensures Inv(Final(s, init, es), init) && Marks(Final(s, init, es))
    decreases |es|
  {
    if |es| > 0 {
      Step(s, init, es[0]);
      MarksStep(s, init, es[0]);
      RunMarks(Apply(s, init, es[0]), init, es[1..]);
    }
  }

  lemma BootMarks(s: State, init: nat)
    requires Boot(s, init)
    ensures Marks(s)
  {
    forall i | 0 <= i < |s.t|
      ensures MarkOk(s, i)
    {
    }
  }

  /** kill marks a free entry exactly when the pid is 0 or one that a failed fork gave up; else it finds the process. */
  lemma KillTarget(s: State, init: nat, es: seq<Event>, pid: nat)
    requires Boot(s, init) && Run(s, init, es)
    ensures var f := Final(s, init, es);
            var k := FirstPid(f.t, pid, 0);
            k < |f.t| ==> (f.t[k].state == UNUSED <==> pid == 0 || pid in f.abandoned)
  {
    BootInv(s, init);
    BootMarks(s, init);
    RunMarks(s, init, es);
    var f := Final(s, init, es);
    var k := FirstPid(f.t, pid, 0);
    if k < |f.t| {
      assert MarkOk(f, k) && FateOk(f, k);
    }
  }

  /** A process starts killed exactly when kill hit its entry since the entry was last reaped. */
  lemma StartsKilled(s: State, init: nat, es: seq<Event>, i: nat)
    requires Boot(s, init) && Run(s, init, es) && Enabled(Final(s, init, es), init, ForkDone(i))
    ensures var f := Final(s, init, es);
            var c := f.pc[i].child;
            var t := Apply(f, init, ForkDone(i)).t;
            c < |t| && t[c].state == RUNNABLE && (t[c].killed <==> c in f.hit)
  {
    BootInv(s, init);
    BootMarks(s, init);
    RunMarks(s, init, es);
    assert MarkOk(Final(s, init, es), Final(s, init, es).pc[i].child);
  }

  /** A fork that succeeds keeps the killed flag it found in the entry. */
  lemma ForkAgain(s: State, init: nat, i: nat, u: nat)
    requires At(s, i, User) && u < |s.t| && u == FirstUnused(s.t, 0) && s.t[u].state == UNUSED && u != i
    ensures var es := [Alloc(i), SetParent(i), ForkDone(i)];
            Run(s, init, es) && u < |Final(s, init, es).t| &&
            Final(s, init, es).t[u] == Proc(RUNNABLE, s.nextpid, i, s.t[u].chan, s.t[u].killed)
  {
    var s4 := Apply(s, init, Alloc(i));
    var s5 := Apply(s4, init, SetParent(i));
    RunOne(s5, init, ForkDone(i), []);
    RunOne(s4, init, SetParent(i), [ForkDone(i)]);
    RunOne(s, init, Alloc(i), [SetParent(i), ForkDone(i)]);
    assert [Alloc(i)] + [SetParent(i), ForkDone(i)] == [Alloc(i), SetParent(i), ForkDone(i)];
    assert [SetParent(i)] + [ForkDone(i)] == [SetParent(i), ForkDone(i)];
    assert [ForkDone(i)] + [] == [ForkDone(i)];
  }

  lemma RunOne(s: State, init: nat, e: Event, rest: seq<Event>)
    requires Enabled(s, init, e) && Run(Apply(s, init, e), init, rest)
    ensures Run(s, init, [e] + rest) && Final(s, init, [e] + rest) == Final(Apply(s, init, e), init, rest)
  {
    assert ([e] + rest)[1..] == rest;
  }
}
