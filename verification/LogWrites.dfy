/** The sequence of disk contents that commit() and recover_from_log() leave behind, write by write. */
module LogWrites {
  import opened Blocks
  import opened LogLayout

  /** `d` after write_log copied the first `k` logged blocks from `view` into the log blocks. */
  function Copied(l: Layout, d: Disk, view: Disk, lh: seq<uint>, k: nat): (r: Disk)
    requires k <= |lh| && l.start + |lh| < |d| == |view| && forall i | 0 <= i < |lh| :: lh[i] < |view|
    ensures |r| == |d|
    ensures forall b | 0 <= b < |d| ::
              r[b] == if l.start < b <= l.start + k then view[lh[b - l.start - 1]] else d[b]
  {
    if k == 0 then d else Copied(l, d, view, lh, k - 1)[l.start + k := view[lh[k - 1]]]
  }

  /** `d` after install_trans copied the first `k` log blocks to their home blocks. */
  function Installed(l: Layout, d: Disk, lh: seq<uint>, k: nat): (r: Disk)
    requires k <= |lh| && l.start + |lh| < |d| && forall i | 0 <= i < |lh| :: lh[i] < |d|
    ensures |r| == |d|
  {
    if k == 0 then d else Installed(l, d, lh, k - 1)[lh[k - 1] := d[l.start + k]]
  }

  /** The log entries can be followed on disks of the layout. */
  ghost predicate Fits(l: Layout, d: Disk, lh: seq<uint>) {
    l.Ok() && EntriesOk(l, lh) && |d| == l.nblocks
  }

  /** `d` after all log blocks were installed and the header was emptied. */
  function Cleared(l: Layout, d: Disk, lh: seq<uint>): (r: Disk)
    requires Fits(l, d, lh)
    ensures |r| == |d|
  {
    Installed(l, d, lh, |lh|)[l.start := HeadBlock(d[l.start], [])]
  }

  /** The disk after `k` of the writes of commit(): n log blocks, the header, n home blocks, the header. */
  function CommitDisk(l: Layout, d: Disk, view: Disk, lh: seq<uint>, k: nat): (r: Disk)
    requires Fits(l, d, lh) && |view| == |d| && k <= 2 * |lh| + 2
    ensures |r| == |d|
  {
    var n := |lh|;
    if k <= n then Copied(l, d, view, lh, k)
    else
      var committed := Committed(l, d, view, lh);
      if k <= 2 * n + 1 then Installed(l, committed, lh, k - n - 1) else Cleared(l, committed, lh)
  }

  /** The disk after `k` of the writes of recover_from_log(): n home blocks and the header. */
  function RecoveryDisk(l: Layout, d: Disk, k: nat): (r: Disk)
    requires DiskOk(l, d) && k <= |DiskEntries(l, d)| + 1
    ensures |r| == |d|
  {
    var lh := DiskEntries(l, d);
    if k <= |lh| then Installed(l, d, lh, k) else Cleared(l, d, lh)
  }

  /** After `k` turns a block holds the last of the first `k` log blocks that is meant for it. */
  lemma {:induction false} InstalledAt(l: Layout, d: Disk, lh: seq<uint>, k: nat)
    requires Fits(l, d, lh) && k <= |lh|
    ensures forall b: nat | b < |d| ::
              var i := SlotBelow(lh, k, b);
              Installed(l, d, lh, k)[b] == if i >= 0 then d[l.start + 1 + i] else d[b]
  {
    if k > 0 {
      InstalledAt(l, d, lh, k - 1);
    }
  }

  /** Installing changes neither the header nor the log blocks. */
  lemma InstalledLogArea(l: Layout, d: Disk, lh: seq<uint>, k: nat)
    requires Fits(l, d, lh) && k <= |lh|
    ensures forall b: nat | l.start <= b < l.start + l.size :: Installed(l, d, lh, k)[b] == d[b]
  {
    InstalledAt(l, d, lh, k);
  }

  lemma InstalledNext(l: Layout, d: Disk, lh: seq<uint>, k: nat)
    requires Fits(l, d, lh) && k < |lh|
    ensures var r := Installed(l, d, lh, k);
            r[lh[k] := r[l.start + 1 + k]] == Installed(l, d, lh, k + 1)
  {
    InstalledLogArea(l, d, lh, k);
  }

  lemma ClearedNext(l: Layout, d: Disk, lh: seq<uint>)
    requires Fits(l, d, lh)
    ensures var r := Installed(l, d, lh, |lh|);
            r[l.start := HeadBlock(r[l.start], [])] == Cleared(l, d, lh)
  {
    InstalledLogArea(l, d, lh, |lh|);
  }

  /** A crash now would recover `store`, by following `lh`. */
  ghost predicate Recovers(l: Layout, d: Disk, store: Disk, lh: seq<uint>) {
    StandsFor(l, d, store) && DiskEntries(l, d) == lh
  }

  lemma InstallStep(l: Layout, d: Disk, store: Disk, lh: seq<uint>, k: nat)
    requires Recovers(l, d, store, lh) && k < |lh|
    ensures Recovers(l, d[lh[k] := d[l.start + 1 + k]], store, lh)
  {
    InstallInvisible(l, d, store, k);
  }

  lemma InstallMore(l: Layout, d: Disk, store: Disk, lh: seq<uint>, k: nat)
    requires Fits(l, d, lh) && k < |lh| && Recovers(l, Installed(l, d, lh, k), store, lh)
    ensures Recovers(l, Installed(l, d, lh, k + 1), store, lh)
  {
    InstalledNext(l, d, lh, k);
    InstallStep(l, Installed(l, d, lh, k), store, lh, k);
  }

  /** While log blocks are installed the disk goes on standing for the same contents. */
  lemma {:induction false} InstallCrashSafe(l: Layout, d: Disk, store: Disk, lh: seq<uint>, k: nat)
    requires Recovers(l, d, store, lh) && k <= |lh|
    ensures Recovers(l, Installed(l, d, lh, k), store, lh)
  {
    if k > 0 {
      InstallCrashSafe(l, d, store, lh, k - 1);
      InstallMore(l, d, store, lh, k - 1);
    }
  }

  lemma InstallComplete(l: Layout, d: Disk, store: Disk)
    requires StandsFor(l, d, store)
    ensures SameHome(l, Installed(l, d, DiskEntries(l, d), |DiskEntries(l, d)|), store)
  {
    var lh := DiskEntries(l, d);
    var r := Installed(l, d, lh, |lh|);
    InstalledAt(l, d, lh, |lh|);
    forall b | l.Home(b) ensures r[b] == store[b] {
      assert Replayed(l, d, b) == store[b];
    }
  }

  /** A crash during recovery, however often, only ever leaves disks that recover to the same contents. */
  lemma RecoveryCrashSafe(l: Layout, d: Disk, store: Disk, k: nat)
    requires StandsFor(l, d, store) && k <= |DiskEntries(l, d)| + 1
    ensures StandsFor(l, RecoveryDisk(l, d, k), store)
    ensures k == |DiskEntries(l, d)| + 1 ==>
              SameHome(l, RecoveryDisk(l, d, k), store) && DiskEntries(l, RecoveryDisk(l, d, k)) == []
  {
    TailCrashSafe(l, d, store, DiskEntries(l, d), k);
  }

  /** `view` differs from `d` only in logged home blocks and in the log itself. */
  ghost predicate OnlyLogged(l: Layout, d: Disk, view: Disk, lh: seq<uint>) {
    |view| == |d| == l.nblocks && forall b | l.Home(b) && b !in lh :: view[b] == d[b]
  }

  /**
   Commit is atomic: after any number of its writes the disk stands for the old contents or, from
   the header write on, for the contents of the whole group.
   */
  lemma CommitCrashSafe(l: Layout, d: Disk, view: Disk, lh: seq<uint>, store: Disk, k: nat)
    requires StandsFor(l, d, store) && DiskEntries(l, d) == [] && Fits(l, d, lh) && OnlyLogged(l, d, view, lh)
    requires k <= 2 * |lh| + 2
    ensures StandsFor(l, CommitDisk(l, d, view, lh, k), if k <= |lh| then store else view)
    ensures k == 2 * |lh| + 2 ==>
              SameHome(l, CommitDisk(l, d, view, lh, k), view) && DiskEntries(l, CommitDisk(l, d, view, lh, k)) == []
  {
    if k <= |lh| {
      CopyCrashSafe(l, d, view, lh, store, k);
    } else {
      CommittedTail(l, d, view, lh, store, k - |lh| - 1);
    }
  }

  lemma CommittedTail(l: Layout, d: Disk, view: Disk, lh: seq<uint>, store: Disk, m: nat)
    requires StandsFor(l, d, store) && DiskEntries(l, d) == [] && Fits(l, d, lh) && OnlyLogged(l, d, view, lh)
    requires m <= |lh| + 1
    ensures StandsFor(l, CommitDisk(l, d, view, lh, |lh| + 1 + m), view)
    ensures m == |lh| + 1 ==>
              SameHome(l, CommitDisk(l, d, view, lh, |lh| + 1 + m), view) &&
              DiskEntries(l, CommitDisk(l, d, view, lh, |lh| + 1 + m)) == []
  {
    var e := Committed(l, d, view, lh);
    CommittedRecovers(l, d, view, lh, store);
    CommitDiskTail(l, d, view, lh, m);
    TailCrashSafe(l, e, view, lh, m);
  }

  /** The header write is the commit point. */
  lemma CommittedRecovers(l: Layout, d: Disk, view: Disk, lh: seq<uint>, store: Disk)
    requires StandsFor(l, d, store) && DiskEntries(l, d) == [] && Fits(l, d, lh) && OnlyLogged(l, d, view, lh)
    ensures Recovers(l, Committed(l, d, view, lh), view, lh)
  {
    CopyCrashSafe(l, d, view, lh, store, |lh|);
    HeadWriteCommits(l, Copied(l, d, view, lh, |lh|), lh, d[l.start], view);
  }

  lemma TailCrashSafe(l: Layout, d: Disk, store: Disk, lh: seq<uint>, m: nat)
    requires Recovers(l, d, store, lh) && m <= |lh| + 1
    ensures m <= |lh| ==> Recovers(l, Installed(l, d, lh, m), store, lh)
    ensures m == |lh| + 1 ==> Recovers(l, Cleared(l, d, lh), store, []) && SameHome(l, Cleared(l, d, lh), store)
  {
    if m <= |lh| {
      InstallCrashSafe(l, d, store, lh, m);
    } else {
      InstallCrashSafe(l, d, store, lh, |lh|);
      InstallComplete(l, d, store);
      HeadClearKeeps(l, Installed(l, d, lh, |lh|), d[l.start], store);
    }
  }

  lemma {:induction false} CopyCrashSafe(l: Layout, d: Disk, view: Disk, lh: seq<uint>, store: Disk, k: nat)
    requires StandsFor(l, d, store) && DiskEntries(l, d) == [] && Fits(l, d, lh) && |view| == |d| && k <= |lh|
    ensures StandsFor(l, Copied(l, d, view, lh, k), store)
    ensures DiskEntries(l, Copied(l, d, view, lh, k)) == []
  {
    if k > 0 {
      CopyCrashSafe(l, d, view, lh, store, k - 1);
      LogDataWriteInvisible(l, Copied(l, d, view, lh, k - 1), store, k - 1, view[lh[k - 1]]);
    }
  }

  // The same as sequences: what a recording of the writes shows.

  function CommitTrail(l: Layout, d: Disk, view: Disk, lh: seq<uint>, k: nat): (r: seq<Disk>)
    requires Fits(l, d, lh) && |view| == |d| && k <= 2 * |lh| + 2
    ensures |r| == k && forall j | 0 <= j < k :: r[j] == CommitDisk(l, d, view, lh, j + 1)
  {
    seq(k, j requires 0 <= j < k => CommitDisk(l, d, view, lh, j + 1))
  }

  function InstallTrail(l: Layout, d: Disk, lh: seq<uint>, k: nat): (r: seq<Disk>)
    requires Fits(l, d, lh) && k <= |lh|
    ensures |r| == k && forall j | 0 <= j < k :: r[j] == Installed(l, d, lh, j + 1)
  {
    seq(k, j requires 0 <= j < k => Installed(l, d, lh, j + 1))
  }

  lemma CommitTrailSnoc(l: Layout, d: Disk, view: Disk, lh: seq<uint>, k: nat)
    requires Fits(l, d, lh) && |view| == |d| && k < |lh|
    ensures CommitTrail(l, d, view, lh, k + 1) == CommitTrail(l, d, view, lh, k) + [Copied(l, d, view, lh, k + 1)]
  {
  }

  lemma InstallTrailSnoc(l: Layout, d: Disk, lh: seq<uint>, k: nat)
    requires Fits(l, d, lh) && k < |lh|
    ensures InstallTrail(l, d, lh, k + 1) == InstallTrail(l, d, lh, k) + [Installed(l, d, lh, k + 1)]
  {
  }

  /** Installing everything and emptying the header. */
  function ClearTrail(l: Layout, d: Disk, lh: seq<uint>): (r: seq<Disk>)
    requires Fits(l, d, lh)
    ensures |r| == |lh| + 1
  {
    InstallTrail(l, d, lh, |lh|) + [Cleared(l, d, lh)]
  }

  lemma RecoveryRecorded(l: Layout, d: Disk)
    requires DiskOk(l, d)
    ensures forall j | 0 <= j <= |DiskEntries(l, d)| ::
              ClearTrail(l, d, DiskEntries(l, d))[j] == RecoveryDisk(l, d, j + 1)
  {
  }

  /** The disk at the commit point: everything copied, the header written. */
  function Committed(l: Layout, d: Disk, view: Disk, lh: seq<uint>): (r: Disk)
    requires Fits(l, d, lh) && |view| == |d|
    ensures |r| == |d|
  {
    Copied(l, d, view, lh, |lh|)[l.start := HeadBlock(d[l.start], lh)]
  }

  lemma CommitDiskTail(l: Layout, d: Disk, view: Disk, lh: seq<uint>, m: nat)
    requires Fits(l, d, lh) && |view| == |d| && m <= |lh| + 1
    ensures CommitDisk(l, d, view, lh, |lh| + 1 + m) ==
            if m <= |lh| then Installed(l, Committed(l, d, view, lh), lh, m)
            else Cleared(l, Committed(l, d, view, lh), lh)
  {
  }

  // One write of a commit after another.

  lemma CommitDiskCopy(l: Layout, d: Disk, view: Disk, lh: seq<uint>, i: nat)
    requires Fits(l, d, lh) && |view| == |d| && i < |lh|
    ensures CommitDisk(l, d, view, lh, i + 1) == CommitDisk(l, d, view, lh, i)[l.start + 1 + i := view[lh[i]]]
  {
  }

  lemma CommitDiskHead(l: Layout, d: Disk, view: Disk, lh: seq<uint>)
    requires Fits(l, d, lh) && |view| == |d|
    ensures var r := CommitDisk(l, d, view, lh, |lh|);
            CommitDisk(l, d, view, lh, |lh| + 1) == r[l.start := HeadBlock(r[l.start], lh)]
  {
    CommitDiskTail(l, d, view, lh, 0);
  }

  lemma CommitDiskInstall(l: Layout, d: Disk, view: Disk, lh: seq<uint>, k: nat)
    requires Fits(l, d, lh) && |view| == |d| && k < |lh|
    ensures var r := CommitDisk(l, d, view, lh, |lh| + 1 + k);
            CommitDisk(l, d, view, lh, |lh| + 2 + k) == r[lh[k] := r[l.start + 1 + k]]
  {
    CommitDiskTail(l, d, view, lh, k);
    CommitDiskTail(l, d, view, lh, k + 1);
    InstalledNext(l, Committed(l, d, view, lh), lh, k);
  }

  lemma CommitDiskClear(l: Layout, d: Disk, view: Disk, lh: seq<uint>)
    requires Fits(l, d, lh) && |view| == |d|
    ensures var r := CommitDisk(l, d, view, lh, 2 * |lh| + 1);
            CommitDisk(l, d, view, lh, 2 * |lh| + 2) == r[l.start := HeadBlock(r[l.start], [])]
  {
    CommitDiskTail(l, d, view, lh, |lh|);
    CommitDiskTail(l, d, view, lh, |lh| + 1);
    ClearedNext(l, Committed(l, d, view, lh), lh);
  }

  /** The recording of a commit: copies, header, installs, header. */
  lemma CommitRecorded(l: Layout, d: Disk, view: Disk, lh: seq<uint>)
    requires Fits(l, d, lh) && |view| == |d|
    ensures Join(CommitTrail(l, d, view, lh, |lh|), Committed(l, d, view, lh),
                 ClearTrail(l, Committed(l, d, view, lh), lh)) ==
            CommitTrail(l, d, view, lh, 2 * |lh| + 2)
  {
    var n, c := |lh|, Committed(l, d, view, lh);
    var a, b := CommitTrail(l, d, view, lh, n), ClearTrail(l, c, lh);
    CommitDiskTail(l, d, view, lh, 0);
    forall j: nat | j < 2 * n + 2 ensures Join(a, c, b)[j] == CommitDisk(l, d, view, lh, j + 1) {
      if j > n {
        CommitDiskTail(l, d, view, lh, j - n);
        ClearTrailAt(l, c, lh, j - n - 1);
      }
    }
  }

  function Join(a: seq<Disk>, b: Disk, c: seq<Disk>): (r: seq<Disk>)
    ensures |r| == |a| + 1 + |c| && r[|a|] == b
    ensures forall j | 0 <= j < |a| :: r[j] == a[j]
    ensures forall j | |a| < j < |r| :: r[j] == c[j - |a| - 1]
  {
    a + [b] + c
  }

  lemma JoinAfter(t: seq<Disk>, a: seq<Disk>, b: Disk, c: seq<Disk>)
    ensures t + a + [b] + c == t + Join(a, b, c)
  {
  }

  lemma ClearTrailAt(l: Layout, d: Disk, lh: seq<uint>, j: nat)
    requires Fits(l, d, lh) && j <= |lh|
    ensures ClearTrail(l, d, lh)[j] == if j < |lh| then Installed(l, d, lh, j + 1) else Cleared(l, d, lh)
  {
  }
}
