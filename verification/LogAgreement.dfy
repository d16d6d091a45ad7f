/**
 The state machine and the code agree on what reaches the disk: whatever other processes do
 meanwhile, a commit takes the disk through exactly the contents that commit() writes.
 */
module LogAgreement {
  import opened Blocks
  import opened LogLayout
  import opened LogWrites
  import opened LogMachine
  import opened LogProofs

  /** How many disk writes of a commit of `n` blocks are done. */
  function WritesDone(ph: Phase, n: nat): nat {
    match ph
    case Copy(i) => i
    case Head => n
    case Install(k, _) => n + 1 + k
    case Clear(_) => 2 * n + 1
    case _ => 2 * n + 2
  }

  /** The commit under way started on disk `d` with list `lh`, and the disk is where commit() would have it. */
  ghost predicate OnTrack(l: Layout, s: State, t: Spec, d: Disk, lh: seq<uint>) {
    s.committing && Fits(l, d, lh) && lh != [] && |t.current| == |d| &&
    (s.phase.Finish? || s.lh == lh) && WritesDone(s.phase, |lh|) <= 2 * |lh| + 2 &&
    s.disk == CommitDisk(l, d, t.current, lh, WritesDone(s.phase, |lh|))
  }

  /** end_op by the last operation starts a commit at its beginning. */
  lemma CommitStarts(l: Layout, s: State, t: Spec, p: nat)
    requires Inv(l, s, t) && Enabled(l, s, EndOp(p)) && s.outstanding == 1 && s.lh != []
    ensures OnTrack(l, Apply(l, s, EndOp(p)), Perform(t, End(p)), s.disk, s.lh)
  {
    EndStep(l, s, t, p);
  }

  predicate WritesDisk(e: Event) {
    e.CopyBlock? || e.WriteHead? || e.InstallBlock? || e.ClearHead?
  }

  /** Every step short of a crash and of the end of the commit keeps the disk on commit()'s course. */
  lemma StaysOnTrack(l: Layout, s: State, t: Spec, e: Event, d: Disk, lh: seq<uint>)
    requires Inv(l, s, t) && Enabled(l, s, e) && OnTrack(l, s, t, d, lh)
    requires !e.Crash? && !e.FinishCommit?
    ensures var a := ActionOf(s, e);
            Allowed(t, a) && OnTrack(l, Apply(l, s, e), Perform(t, a), d, lh)
  {
    StepAllowed(l, s, t, e);
    ActiveNone(s, t);
    PhaseAdvances(l, s, t, e);
    DiskWrite(l, s, t, e);
    DiskAdvances(l, s, t, e, Apply(l, s, e), d, lh);
  }

  /** A commit's phases count its disk writes, and nothing else changes while it runs. */
  lemma PhaseAdvances(l: Layout, s: State, t: Spec, e: Event)
    requires l.start < |s.disk| && Enabled(l, s, e) && s.committing && !e.Crash? && !e.FinishCommit?
    requires !s.phase.Normal? && !Booting(s.phase) && forall p | 0 <= p < |s.procs| :: !s.procs[p].InOp?
    requires Allowed(t, ActionOf(s, e))
    ensures var s' := Apply(l, s, e);
            s'.committing && Perform(t, ActionOf(s, e)).current == t.current &&
            (if WritesDisk(e) then
               !s.phase.Finish? && WritesDone(s'.phase, |s.lh|) == WritesDone(s.phase, |s.lh|) + 1 &&
               (s'.phase.Finish? || s'.lh == s.lh)
             else s'.phase == s.phase && s'.lh == s.lh)
  {
  }

  lemma DiskAdvances(l: Layout, s: State, t: Spec, e: Event, s': State, d: Disk, lh: seq<uint>)
    requires OnTrack(l, s, t, d, lh) && DiskWritten(l, s, t, e, s'.disk)
    requires WritesDisk(e) ==> !s.phase.Finish? && WritesDone(s'.phase, |lh|) == WritesDone(s.phase, |lh|) + 1
    requires !WritesDisk(e) ==> s'.phase == s.phase
    ensures WritesDone(s'.phase, |lh|) <= 2 * |lh| + 2
    ensures s'.disk == CommitDisk(l, d, t.current, lh, WritesDone(s'.phase, |lh|))
  {
    if WritesDisk(e) {
      NextDisk(l, s, t, e, s'.disk, d, lh);
    }
  }

  /** One disk write further. */
  lemma NextDisk(l: Layout, s: State, t: Spec, e: Event, disk: Disk, d: Disk, lh: seq<uint>)
    requires OnTrack(l, s, t, d, lh) && WritesDisk(e) && !s.phase.Finish? && DiskWritten(l, s, t, e, disk)
    ensures WritesDone(s.phase, |lh|) + 1 <= 2 * |lh| + 2
    ensures disk == CommitDisk(l, d, t.current, lh, WritesDone(s.phase, |lh|) + 1)
  {
    match e {
      case CopyBlock => CommitDiskCopy(l, d, t.current, lh, s.phase.i);
      case WriteHead => CommitDiskHead(l, d, t.current, lh);
      case InstallBlock => CommitDiskInstall(l, d, t.current, lh, s.phase.k);
      case ClearHead => CommitDiskClear(l, d, t.current, lh);
    }
  }

  lemma StepAllowed(l: Layout, s: State, t: Spec, e: Event)
    requires Inv(l, s, t) && Enabled(l, s, e)
    ensures Allowed(t, ActionOf(s, e))
  {
    Step(l, s, t, e);
  }

  /** The disk after a step, in terms of the disk before and of the contents the file system sees. */
  ghost predicate DiskWritten(l: Layout, s: State, t: Spec, e: Event, disk: Disk)
    requires l.start < |s.disk|
  {
    match e
    case CopyBlock =>
      s.phase.Copy? && s.phase.i < |s.lh| && s.lh[s.phase.i] < |t.current| && l.start + 1 + s.phase.i < |s.disk| &&
      disk == s.disk[l.start + 1 + s.phase.i := t.current[s.lh[s.phase.i]]]
    case WriteHead =>
      s.phase.Head? && |s.lh| <= LOGSIZE && disk == s.disk[l.start := HeadBlock(s.disk[l.start], s.lh)]
    case InstallBlock =>
      s.phase.Install? && s.phase.k < |s.lh| && s.lh[s.phase.k] < |s.disk| && l.start + 1 + s.phase.k < |s.disk| &&
      disk == s.disk[s.lh[s.phase.k] := s.disk[l.start + 1 + s.phase.k]]
    case ClearHead =>
      s.phase.Clear? && disk == s.disk[l.start := HeadBlock(s.disk[l.start], [])]
    case _ => disk == s.disk
  }

  lemma DiskWrite(l: Layout, s: State, t: Spec, e: Event)
    requires Inv(l, s, t) && Enabled(l, s, e)
    ensures DiskWritten(l, s, t, e, Apply(l, s, e).disk)
  {
    match e {
      case CopyBlock => CopyWrites(l, s, t);
      case WriteHead => LogBlockView(l, s, l.start);
      case InstallBlock => InstallWrites(l, s, t);
      case ClearHead => LogBlockView(l, s, l.start);
      case _ =>
    }
  }

  lemma CopyWrites(l: Layout, s: State, t: Spec)
    requires Inv(l, s, t) && Enabled(l, s, CopyBlock)
    ensures DiskWritten(l, s, t, CopyBlock, Apply(l, s, CopyBlock).disk)
  {
    PendingView(l, s, t, s.phase.i);
  }

  lemma InstallWrites(l: Layout, s: State, t: Spec)
    requires Inv(l, s, t) && Enabled(l, s, InstallBlock)
    ensures DiskWritten(l, s, t, InstallBlock, Apply(l, s, InstallBlock).disk)
  {
    LogBlockView(l, s, l.start + 1 + s.phase.k);
  }

  lemma PendingView(l: Layout, s: State, t: Spec, i: nat)
    requires Shape(l, s, t) && HomeAgrees(l, s, t) && s.phase.Copy? && i < |s.lh| && Unheld(s, s.lh[i]) && CacheOk(l, s)
    ensures s.lh[i] < |s.disk| && View(s, s.lh[i]) == t.current[s.lh[i]]
  {
    assert l.Home(s.lh[i]) && Pending(s, s.lh[i]);
  }

  lemma LogBlockView(l: Layout, s: State, b: uint)
    requires CacheOk(l, s) && b < |s.disk| && !l.Home(b)
    ensures View(s, b) == s.disk[b]
  {
  }
}
