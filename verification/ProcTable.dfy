/** The process table of proc.c and the scans made under ptable.lock. */
module ProcTable {
  const NPROC: nat := 64

  datatype PState = UNUSED | EMBRYO | SLEEPING | RUNNABLE | RUNNING | ZOMBIE

  /** What a process sleeps on: a process's own table entry (wait) or anything else. */
  datatype Chan = NoChan | OnProc(i: int) | OnOther(x: int)

  /** `parent` is the index of the parent's entry, -1 for none. */
  datatype Proc = Proc(state: PState, pid: nat, parent: int, chan: Chan, killed: bool)

  predicate Alive(p: Proc) {
    p.state == SLEEPING || p.state == RUNNABLE || p.state == RUNNING
  }

  // --- wakeup1 ---

  function Woke(p: Proc, ch: Chan): Proc {
    if p.state == SLEEPING && p.chan == ch then p.(state := RUNNABLE) else p
  }

  /** Every process asleep on `ch` may run again. */
  function Woken(t: seq<Proc>, ch: Chan): (r: seq<Proc>)
    ensures |r| == |t|
    ensures forall i | 0 <= i < |t| :: r[i] == Woke(t[i], ch)
  {
    seq(|t|, i requires 0 <= i < |t| => Woke(t[i], ch))
  }

  // --- exit ---

  /** One of the first `m` entries is a zombie child of `cur`. */
  predicate ZombieChild(t: seq<Proc>, cur: int, m: nat)
    requires m <= |t|
  {
    exists i :: 0 <= i < m && t[i].parent == cur && t[i].state == ZOMBIE
  }

  function Adopt(p: Proc, cur: int, init: int): Proc {
    if p.parent == cur then p.(parent := init) else p
  }

  /** The table after the first `m` entries were handed from `cur` to init, which is woken when it gets a zombie. */
  function Adopted(t: seq<Proc>, cur: int, init: int, m: nat): (r: seq<Proc>)
    requires m <= |t|
    ensures |r| == |t|
    ensures forall i | 0 <= i < |t| ::
              r[i] == Adopt1(t, cur, init, m, i)
  {
    seq(|t|, i requires 0 <= i < |t| => Adopt1(t, cur, init, m, i))
  }

  function Adopt1(t: seq<Proc>, cur: int, init: int, m: nat, i: nat): Proc
    requires m <= |t| && i < |t|
  {
    var p := if ZombieChild(t, cur, m) then Woke(t[i], OnProc(init)) else t[i];
    if i < m then Adopt(p, cur, init) else p
  }

  /** exit under the lock: wake the parent, pass the children to init, become a zombie. */
  function Exited(t: seq<Proc>, cur: nat, init: int): seq<Proc>
    requires cur < |t|
  {
    var a := Adopted(Woken(t, OnProc(t[cur].parent)), cur, init, |t|);
    a[cur := a[cur].(state := ZOMBIE)]
  }

  // --- wait ---

  /** The first zombie child of `cur` at or after `i`, or |t|. */
  function FirstZombie(t: seq<Proc>, cur: int, i: nat): (z: nat)
    requires i <= |t|
    ensures i <= z <= |t|
    ensures z < |t| ==> t[z].parent == cur && t[z].state == ZOMBIE
    ensures forall j | i <= j < z :: !(t[j].parent == cur && t[j].state == ZOMBIE)
    decreases |t| - i
  {
    if i == |t| || (t[i].parent == cur && t[i].state == ZOMBIE) then i else FirstZombie(t, cur, i + 1)
  }

  predicate HasKids(t: seq<Proc>, cur: int, m: nat)
    requires m <= |t|
  {
    exists i :: 0 <= i < m && t[i].parent == cur
  }

  /** wait frees the child's entry; the stale channel stays. */
  function Reaped(p: Proc): Proc {
    Proc(UNUSED, 0, -1, p.chan, false)
  }

  // --- allocproc and kill ---

  function FirstUnused(t: seq<Proc>, i: nat): (u: nat)
    requires i <= |t|
    ensures i <= u <= |t|
    ensures u < |t| ==> t[u].state == UNUSED
    ensures forall j | i <= j < u :: t[j].state != UNUSED
    decreases |t| - i
  {
    if i == |t| || t[i].state == UNUSED then i else FirstUnused(t, i + 1)
  }

  function FirstPid(t: seq<Proc>, pid: nat, i: nat): (k: nat)
    requires i <= |t|
    ensures i <= k <= |t|
    ensures k < |t| ==> t[k].pid == pid
    ensures forall j | i <= j < k :: t[j].pid != pid
    decreases |t| - i
  {
    if i == |t| || t[i].pid == pid then i else FirstPid(t, pid, i + 1)
  }

  function Killed(p: Proc): Proc {
    p.(killed := true, state := if p.state == SLEEPING then RUNNABLE else p.state)
  }

  /** How one pass of wait's scan ends. */
  datatype Scan = Reap(z: nat) | GiveUp | Sleep

  function ScanOf(t: seq<Proc>, cur: nat): Scan
    requires cur < |t|
  {
    var z := FirstZombie(t, cur, 0);
    if z < |t| then Reap(z)
    else if !HasKids(t, cur, |t|) || t[cur].killed then GiveUp
    else Sleep
  }

  class Table {
    const proc: array<Proc>
    const initproc: nat
    var nextpid: nat

    constructor (init: nat)
      requires init < NPROC
      ensures fresh(proc) && proc.Length == NPROC && initproc == init && nextpid == 1
      ensures forall i | 0 <= i < NPROC :: proc[i] == Proc(UNUSED, 0, -1, NoChan, false)
    {
      proc := new Proc[NPROC](i => Proc(UNUSED, 0, -1, NoChan, false));
      initproc := init;
      nextpid := 1;
    }

    method Wakeup1(ch: Chan)
      modifies proc
      ensures proc[..] == Woken(old(proc[..]), ch)
    {
      var p := 0;
      while p < proc.Length
        invariant 0 <= p <= proc.Length
        invariant forall i | 0 <= i < proc.Length :: proc[i] == if i < p then Woke(old(proc[i]), ch) else old(proc[i])
      {
        if proc[p].state == SLEEPING && proc[p].chan == ch {
          proc[p] := proc[p].(state := RUNNABLE);
        }
        p := p + 1;
      }
    }

    /** The locked part of allocproc. */
    method AllocProc() returns (p: nat)
      modifies this, proc
      ensures p == FirstUnused(old(proc[..]), 0)
      ensures if p == proc.Length then proc[..] == old(proc[..]) && nextpid == old(nextpid)
              else proc[..] == old(proc[..])[p := old(proc[..])[p].(state := EMBRYO, pid := old(nextpid))] &&
                   nextpid == old(nextpid) + 1
    {
      p := 0;
      while p < proc.Length && proc[p].state != UNUSED
        invariant 0 <= p <= proc.Length && FirstUnused(proc[..], p) == FirstUnused(proc[..], 0)
      {
        p := p + 1;
      }
      if p < proc.Length {
        proc[p] := proc[p].(state := EMBRYO, pid := nextpid);
        nextpid := nextpid + 1;
      }
    }

    /** The locked part of exit. */
    method Exit(cur: nat)
      requires cur < proc.Length
      modifies proc
      ensures proc[..] == Exited(old(proc[..]), cur, initproc)
    {
      Wakeup1(OnProc(proc[cur].parent));
      ghost var t := proc[..];
      var p := 0;
      while p < proc.Length
        invariant 0 <= p <= proc.Length
        invariant proc[..] == Adopted(t, cur, initproc, p)
      {
        ghost var was := proc[..];
        assert proc[p] == was[p] == Adopt1(t, cur, initproc, p, p);
        if proc[p].parent == cur {
          proc[p] := proc[p].(parent := initproc);
          if proc[p].state == ZOMBIE {
            Wakeup1(OnProc(initproc));
          }
        }
        AdoptMore(t, cur, initproc, p, proc[..]);
        p := p + 1;
      }
      proc[cur] := proc[cur].(state := ZOMBIE);
    }

    /** One pass of wait's loop over the table. */
    method WaitScan(cur: nat) returns (r: Scan)
      requires cur < proc.Length
      ensures r == ScanOf(proc[..], cur)
    {
      var havekids := false;
      var p := 0;
      while p < proc.Length
        invariant 0 <= p <= proc.Length && FirstZombie(proc[..], cur, p) == FirstZombie(proc[..], cur, 0)
        invariant havekids == HasKids(proc[..], cur, p)
      {
        if proc[p].parent == cur {
          havekids := true;
          if proc[p].state == ZOMBIE {
            return Reap(p);
          }
        }
        p := p + 1;
      }
      r := if !havekids || proc[cur].killed then GiveUp else Sleep;
    }

    /** wait, from one acquire of the lock to its release or to going to sleep. */
    method Wait(cur: nat) returns (pid: int, slept: bool)
      requires cur < proc.Length
      modifies proc
      ensures var t := old(proc[..]);
              match ScanOf(t, cur)
              case Reap(z) => proc[..] == t[z := Reaped(t[z])] && pid == t[z].pid && !slept
              case GiveUp => proc[..] == t && pid == -1 && !slept
              case Sleep => proc[..] == t[cur := t[cur].(chan := OnProc(cur), state := SLEEPING)] && slept
    {
      var r := WaitScan(cur);
      match r
      case Reap(z) =>
        pid, slept := proc[z].pid, false;
        proc[z] := proc[z].(pid := 0);
        proc[z] := proc[z].(parent := -1);
        proc[z] := proc[z].(killed := false);
        proc[z] := proc[z].(state := UNUSED);
      case GiveUp =>
        pid, slept := -1, false;
      case Sleep =>
        pid, slept := -1, true;
        proc[cur] := proc[cur].(chan := OnProc(cur));
        proc[cur] := proc[cur].(state := SLEEPING);
    }

    method Kill(pid: nat) returns (r: int)
      modifies proc
      ensures var k := FirstPid(old(proc[..]), pid, 0);
              if k == proc.Length then r == -1 && proc[..] == old(proc[..])
              else r == 0 && proc[..] == old(proc[..])[k := Killed(old(proc[..])[k])]
    {
      var p := 0;
      while p < proc.Length
        invariant 0 <= p <= proc.Length && FirstPid(proc[..], pid, p) == FirstPid(proc[..], pid, 0)
        invariant proc[..] == old(proc[..])
      {
        if proc[p].pid == pid {
          proc[p] := proc[p].(killed := true);
          if proc[p].state == SLEEPING {
            proc[p] := proc[p].(state := RUNNABLE);
          }
          return 0;
        }
        p := p + 1;
      }
      r := -1;
    }
  }

  /** One turn of exit's loop over the table. */
  lemma AdoptMore(t: seq<Proc>, cur: int, init: int, p: nat, now: seq<Proc>)
    requires p < |t|
    requires var was := Adopted(t, cur, init, p);
             now == if was[p].parent != cur then was
                    else if was[p].state == ZOMBIE then Woken(was[p := was[p].(parent := init)], OnProc(init))
                    else was[p := was[p].(parent := init)]
    ensures now == Adopted(t, cur, init, p + 1)
  {
    assert t[p].parent == cur && t[p].state == ZOMBIE <==>
           Adopted(t, cur, init, p)[p].parent == cur && Adopted(t, cur, init, p)[p].state == ZOMBIE;
    assert ZombieChild(t, cur, p + 1) <==> ZombieChild(t, cur, p) || (t[p].parent == cur && t[p].state == ZOMBIE);
  }
}
