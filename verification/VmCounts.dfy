/** How many frames page tables take: what allocuvm, copyuvm and setupkvm need to succeed (vm.c). */
module VmCounts {
  import opened VmPages

  /** Entries [a, b) of the directory that have no page table. */
  function Missing(dir: Entries, a: nat, b: nat): nat
    requires b <= NENTRIES
    decreases b - a
  {
    if a >= b then 0 else (if dir[a].Absent? then 1 else 0) + Missing(dir, a + 1, b)
  }

  /** Page tables to be made for pages [lo, hi). */
  function MoreTabs(dir: Entries, lo: nat, hi: nat): nat
    requires hi <= NPAGES
  {
    if lo < hi then Missing(dir, lo / NENTRIES, (hi - 1) / NENTRIES + 1) else 0
  }

  /** A frame for the table of page `v`, unless it is there. */
  function TabCost(dir: Entries, v: nat): nat
    requires v < NPAGES
  {
    if dir[v / NENTRIES].Absent? then 1 else 0
  }

  /** Frames for fresh pages [lo, hi), tables included. */
  function Cost(dir: Entries, lo: nat, hi: nat): nat
    requires lo <= hi <= NPAGES
  {
    hi - lo + MoreTabs(dir, lo, hi)
  }

  /** Page `v` is among [lo, hi), by its directory entry. */
  predicate Covers(d: nat, lo: nat, hi: nat) {
    lo < hi && lo / NENTRIES <= d <= (hi - 1) / NENTRIES
  }

  predicate TabAt(was: Entries, now: Entries, d: nat, made: bool)
    requires d < NENTRIES
  {
    now[d].Absent? <==> was[d].Absent? && !made
  }

  /** The tables of pages [lo, hi) are there now, and no others were made. */
  ghost predicate TabsMade(was: Entries, now: Entries, lo: nat, hi: nat) {
    forall d: nat | d < NENTRIES :: TabAt(was, now, d, Covers(d, lo, hi))
  }

  lemma {:induction false} MissingSame(was: Entries, now: Entries, a: nat, b: nat)
    requires b <= NENTRIES && forall d: nat | a <= d < b :: TabAt(was, now, d, false)
    ensures Missing(was, a, b) == Missing(now, a, b)
    decreases b - a
  {
    if a < b {
      assert TabAt(was, now, a, false);
      MissingSame(was, now, a + 1, b);
    }
  }

  lemma {:induction false} MissingSnoc(dir: Entries, a: nat, b: nat)
    requires a <= b < NENTRIES
    ensures Missing(dir, a, b + 1) == Missing(dir, a, b) + if dir[b].Absent? then 1 else 0
    decreases b - a
  {
    if a < b {
      MissingSnoc(dir, a + 1, b);
    }
  }

  lemma {:induction false} MissingMore(dir: Entries, a: nat, b: nat, c: nat)
    requires a <= b <= c <= NENTRIES
    ensures Missing(dir, a, b) <= Missing(dir, a, c)
    decreases c - b
  {
    if b < c {
      MissingSnoc(dir, a, c - 1);
      MissingMore(dir, a, b, c - 1);
    }
  }

  /** The next page and the ones behind it. */
  lemma NextTab(was: Entries, now: Entries, v: nat, hi: nat)
    requires TabsMade(was, now, v, v + 1) && v < hi <= NPAGES
    ensures MoreTabs(was, v, hi) == TabCost(was, v) + MoreTabs(now, v + 1, hi)
  {
    var d, b := v / NENTRIES, (hi - 1) / NENTRIES + 1;
    assert TabAt(was, now, d, Covers(d, v, v + 1));
    forall e: nat | d + 1 <= e < b
      ensures TabAt(was, now, e, false)
    {
      assert TabAt(was, now, e, Covers(e, v, v + 1));
    }
    MissingSame(was, now, d + 1, b);
  }

  /** The last page of a run. */
  lemma LastTab(was: Entries, mid: Entries, lo: nat, hi: nat)
    requires TabsMade(was, mid, lo, hi) && lo <= hi < NPAGES
    ensures MoreTabs(was, lo, hi + 1) == MoreTabs(was, lo, hi) + TabCost(mid, hi)
  {
    var d := hi / NENTRIES;
    assert TabAt(was, mid, d, Covers(d, lo, hi));
    if lo < hi && (hi - 1) / NENTRIES != d {
      assert (hi - 1) / NENTRIES + 1 == d;
      MissingSnoc(was, lo / NENTRIES, d);
    }
  }

  lemma MoreGrows(dir: Entries, lo: nat, mid: nat, hi: nat)
    requires lo <= mid <= hi <= NPAGES
    ensures MoreTabs(dir, lo, mid) <= MoreTabs(dir, lo, hi)
  {
    if lo < mid {
      MissingMore(dir, lo / NENTRIES, (mid - 1) / NENTRIES + 1, (hi - 1) / NENTRIES + 1);
    }
  }

  /** A page directory and the free frames. */
  datatype Means = Means(dir: Entries, frames: nat)

  /** What mapping one page did: it fails only for want of a frame for the table. */
  ghost predicate MapSpent(was: Means, now: Means, v: nat, ok: bool)
    requires v < NPAGES
  {
    (ok <==> TabCost(was.dir, v) <= was.frames) &&
    (ok ==> TabsMade(was.dir, now.dir, v, v + 1) && now.frames == was.frames - TabCost(was.dir, v))
  }

  /** What mapping the run of pages [lo, hi) has done so far. */
  ghost predicate RunSpent(was: Means, now: Means, lo: nat, hi: nat)
    requires hi <= NPAGES
  {
    TabsMade(was.dir, now.dir, lo, hi) && now.frames == was.frames - MoreTabs(was.dir, lo, hi)
  }

  /** What mapping all of it did. */
  ghost predicate RunDone(was: Means, now: Means, lo: nat, hi: nat, ok: bool)
    requires hi <= NPAGES
  {
    (ok <==> MoreTabs(was.dir, lo, hi) <= was.frames) && (ok ==> RunSpent(was, now, lo, hi))
  }

  lemma RunStarts(m: Means, v: nat)
    requires v <= NPAGES
    ensures RunSpent(m, m, v, v)
  {
  }

  lemma MadeOn(was: Entries, mid: Entries, now: Entries, lo: nat, hi: nat)
    requires TabsMade(was, mid, lo, hi) && TabsMade(mid, now, hi, hi + 1) && lo <= hi < NPAGES
    ensures TabsMade(was, now, lo, hi + 1)
  {
    var top := hi + 1;
    forall d: nat | d < NENTRIES
      ensures TabAt(was, now, d, Covers(d, lo, top))
    {
      assert TabAt(was, mid, d, Covers(d, lo, hi)) && TabAt(mid, now, d, Covers(d, hi, hi + 1));
    }
  }

  lemma RunSpentOn(was: Means, mid: Means, now: Means, lo: nat, hi: nat, top: nat, ok: bool)
    requires lo <= hi < top <= NPAGES && RunSpent(was, mid, lo, hi) && MapSpent(mid, now, hi, ok)
    ensures ok ==> RunSpent(was, now, lo, hi + 1)
    ensures !ok ==> RunDone(was, now, lo, top, false)
    ensures ok && hi + 1 == top ==> RunDone(was, now, lo, top, true)
  {
    LastTab(was.dir, mid.dir, lo, hi);
    MoreGrows(was.dir, lo, hi + 1, top);
    if ok {
      MadeOn(was.dir, mid.dir, now.dir, lo, hi);
    }
  }

  /** The same for one page with a frame of its own. */
  ghost predicate PageSpent(was: Means, now: Means, v: nat, ok: bool)
    requires v < NPAGES
  {
    (ok <==> 1 + TabCost(was.dir, v) <= was.frames) &&
    (ok ==> TabsMade(was.dir, now.dir, v, v + 1) && now.frames == was.frames - 1 - TabCost(was.dir, v))
  }

  /** What failed for want of frames had too few, whatever is left afterwards. */
  lemma NotSpent(was: Means, mid: Means, now: Means, v: nat)
    requires v < NPAGES && PageSpent(was, mid, v, false)
    ensures PageSpent(was, now, v, false)
  {
  }

  lemma OnePageRun(was: Means, now: Means, v: nat, ok: bool)
    requires v < NPAGES && RunDone(was, now, v, v + 1, ok)
    ensures MapSpent(was, now, v, ok)
  {
    RunStarts(was, v);
    LastTab(was.dir, was.dir, v, v);
  }

  /** One page less to come, and what it took less to spend. */
  lemma PaidFor(was: Means, now: Means, v: nat, hi: nat, ok: bool)
    requires v < hi <= NPAGES && PageSpent(was, now, v, ok)
    ensures ok ==> Cost(now.dir, v + 1, hi) - now.frames == Cost(was.dir, v, hi) - was.frames
    ensures !ok ==> Cost(was.dir, v, hi) > was.frames
  {
    if ok {
      NextTab(was.dir, now.dir, v, hi);
    } else {
      var some := was.dir[v / NENTRIES := Pte(0, 0)];
      TableMade(was.dir, some, v / NENTRIES, v);
      NextTab(was.dir, some, v, hi);
    }
  }

  lemma TableMade(was: Entries, now: Entries, d: nat, v: nat)
    requires d == v / NENTRIES < NENTRIES && now == was[d := now[d]] && now[d].Pte?
    ensures TabsMade(was, now, v, v + 1)
  {
  }
}
