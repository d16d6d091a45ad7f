/** What goes wrong in the write-fault handler when no page of a frame stays, and that it goes wrong exactly then. */
module CowHazards {
  import opened PageKeys
  import opened CowTable
  import opened CowRace
  import Machine = CowMachine

  // --- The condition is exact ---

  /** Frame `f` is lost to the free list, or free though mapped, or mapped by two pages of which one may be written. */
  ghost predicate WrongAt(s: Sys, f: nat) {
    (f in s.refc && Count(s, f) == 0 && f !in s.free) ||
    (f in s.free && exists k :: k in s.ptes && s.ptes[k].frame == f) ||
    (exists k, q :: k in s.ptes && q in s.ptes && k != q && s.ptes[k].frame == s.ptes[q].frame == f && s.ptes[q].write)
  }

  ghost predicate Wrong(s: Sys) {
    exists f :: WrongAt(s, f)
  }

  /** Faults under way go on, and user code stores; nothing else begins. */
  predicate Finishing(es: seq<Event>) {
    forall i | 0 <= i < |es| :: es[i].Next? || es[i].Store?
  }

  /** Memory is right while some page of each frame being copied stays. */
  lemma StayingNotWrong(st: State)
    requires Good(st) && Staying(st)
    ensures !Wrong(st.s)
  {
    forall f
      ensures !WrongAt(st.s, f)
    {
      forall k | k in st.s.ptes && st.s.ptes[k].frame == f
        ensures f !in st.s.free
        ensures forall q | q in st.s.ptes && q != k && st.s.ptes[q].frame == f :: !st.s.ptes[q].write
      {
        FrameUsed(st, k);
      }
    }
  }

  lemma FrameUsed(st: State, k: Key)
    requires Good(st) && Staying(st) && k in st.s.ptes
    ensures st.s.ptes[k].frame !in st.s.free
    ensures forall q | q in st.s.ptes && q != k && st.s.ptes[q].frame == st.s.ptes[k].frame :: !st.s.ptes[q].write
  {
    if k in Lent(st) {
      LentFrame(st, k);
    } else {
      MappedCounted(Counted(st), k);
    }
    forall q | q in st.s.ptes && q != k && st.s.ptes[q].frame == st.s.ptes[k].frame
      ensures !st.s.ptes[q].write
    {
      if k in Lent(st) {
        assert NoWriter(st, k, q);
      } else if q in Lent(st) {
        assert NoWriter(st, q, q);
      } else if st.s.ptes[q].write {
        WriterAlone(Counted(st), q, k);
      }
    }
  }

  lemma {:induction false} FinishesRight(st: State, es: seq<Event>)
    requires Good(st) && Staying(st) && Run(st, es) && Finishing(es)
    ensures !Wrong(Final(st, es).s)
    decreases |es|
  {
    if es == [] {
      StayingNotWrong(st);
    } else {
      assert es[0].Next? || es[0].Store?;
      FinishingStays(st, es[0]);
      StepRight(st, es[0]);
      FinishesRight(Apply(st, es[0]), es[1..]);
    }
  }

  lemma RunCons(st: State, e: Event, es: seq<Event>)
    requires Enabled(st, e) && Run(Apply(st, e), es)
    ensures Run(st, [e] + es) && Final(st, [e] + es) == Final(Apply(st, e), es)
  {
    assert ([e] + es)[1..] == es;
  }

  /** Every counted page of frame `f` belongs to a CPU that read a count above 1. */
  ghost predicate AllSaw(st: State, f: nat) {
    f in st.s.refc && f !in st.s.free && Count(st.s, f) == |Refs(Counted(st).ptes, f)| &&
    forall k | k in Refs(Counted(st).ptes, f) :: SawAbove(st, k)
  }

  ghost predicate SawAbove(st: State, k: Key) {
    exists c :: 0 <= c < |st.pcs| && SawBy(st, c, k)
  }

  predicate SawBy(st: State, c: nat, k: Key)
    requires c < |st.pcs|
  {
    st.pcs[c].Saw? && st.pcs[c].k == k && st.pcs[c].n > 1
  }

  /** They all give their references up, and the frame is on no list. */
  lemma {:induction false} DropAll(st: State, f: nat) returns (es: seq<Event>)
    requires AllSaw(st, f)
    ensures Run(st, es) && Finishing(es) && Wrong(Final(st, es).s)
    decreases |Refs(Counted(st).ptes, f)|
  {
    var r := Refs(Counted(st).ptes, f);
    if r == {} {
      es := [];
      assert WrongAt(st.s, f);
    } else {
      var k :| k in r;
      assert SawAbove(st, k);
      var c :| 0 <= c < |st.pcs| && SawBy(st, c, k);
      var now := Apply(st, Next(c));
      DropLent(st, now, c);
      assert Refs(Counted(now).ptes, f) == r - {k};
      DropOne(st, now, c, f);
      es := DropAll(now, f);
      RunCons(st, Next(c), es);
      es := [Next(c)] + es;
    }
  }

  lemma DropOne(st: State, now: State, c: nat, f: nat)
    requires AllSaw(st, f) && c < |st.pcs| && st.pcs[c].Saw? && st.pcs[c].n > 1
    requires Enabled(st, Next(c)) && now == Apply(st, Next(c)) && st.pcs[c].k in Refs(Counted(st).ptes, f)
    requires Refs(Counted(now).ptes, f) == Refs(Counted(st).ptes, f) - {st.pcs[c].k}
    ensures AllSaw(now, f)
  {
    forall k | k in Refs(Counted(now).ptes, f)
      ensures SawAbove(now, k)
    {
      assert SawAbove(st, k);
      var d :| 0 <= d < |st.pcs| && SawBy(st, d, k);
      assert SawBy(now, d, k);
    }
  }

  /** The frame some handler is to copy, or is copying, although no page of it stays. */
  lemma Unstayed(st: State) returns (c: nat, f: nat)
    requires !Staying(st)
    ensures c < |st.pcs| && Copying(st.pcs[c]) && st.pcs[c].k in st.s.ptes && st.s.ptes[st.pcs[c].k].frame == f
    ensures forall p :: !Stays(st, f, p)
  {
    c :| 0 <= c < |st.pcs| && !HasStayer(st, c);
    f := st.s.ptes[st.pcs[c].k].frame;
  }

  /** A counted page in the handler has read the count, above 1 when another page maps the frame. */
  lemma OthersSaw(st: State, d: nat, k: Key, q: Key)
    requires Good(st) && d < |st.pcs| && !st.pcs[d].Idle? && st.pcs[d].k == k && k in Counted(st).ptes
    requires q in st.s.ptes && q != k && st.s.ptes[q].frame == st.s.ptes[k].frame
    ensures SawBy(st, d, k)
  {
    assert HandlerOk(st, d) && q in Refs(st.s.ptes, st.s.ptes[k].frame);
    assert Gave(st.pcs[d]) ==> k in Lent(st);
  }

  /** Entering with the last page that stayed. */
  lemma EnterGoesWrong(st: State, c: nat, k: Key) returns (es: seq<Event>)
    requires Good(st) && Staying(st) && Enabled(st, Enter(c, k)) && !Staying(Apply(st, Enter(c, k)))
    ensures Run(Apply(st, Enter(c, k)), es) && Finishing(es) && Wrong(Final(Apply(st, Enter(c, k)), es).s)
  {
    var now := Apply(st, Enter(c, k));
    var d, f := Unstayed(now);
    NotLent(st, k);
    SameLent(st, now);
    EnterFrame(st, c, k, d, f);
    MappedCounted(Counted(st), k);
    if Count(st.s, f) > 1 {
      forall q | q in Refs(Counted(now).ptes, f)
        ensures SawAbove(now, q)
      {
        EnterSaw(st, c, k, f, q);
      }
      es := DropAll(now, f);
    } else {
      GaveBefore(st, c, k, d, f);
      var last := Apply(now, Next(c));
      assert last.s.ptes[k].write && now.pcs[d].k in last.s.ptes && last.s.ptes[now.pcs[d].k].frame == f;
      assert WrongAt(last.s, f);
      RunCons(now, Next(c), []);
      es := [Next(c)] + [];
    }
  }

  lemma EnterFrame(st: State, c: nat, k: Key, d: nat, f: nat)
    requires Good(st) && Staying(st) && Enabled(st, Enter(c, k)) && d < |st.pcs|
    requires var now := Apply(st, Enter(c, k));
             Copying(now.pcs[d]) && now.pcs[d].k in now.s.ptes && now.s.ptes[now.pcs[d].k].frame == f &&
             forall p :: !Stays(now, f, p)
    ensures st.s.ptes[k].frame == f
  {
    var now := Apply(st, Enter(c, k));
    if d != c {
      assert HasStayer(st, d);
      var p :| Stays(st, f, p);
      assert !Stays(now, f, p) && InHandler(now, p);
    }
  }

  lemma EnterSaw(st: State, c: nat, k: Key, f: nat, q: Key)
    requires Good(st) && Staying(st) && Enabled(st, Enter(c, k)) && k in Counted(st).ptes && st.s.ptes[k].frame == f
    requires Count(st.s, f) > 1 && q in Refs(Counted(st).ptes, f) && !Stays(Apply(st, Enter(c, k)), f, q)
    ensures SawAbove(Apply(st, Enter(c, k)), q)
  {
    var now := Apply(st, Enter(c, k));
    assert InHandler(now, q);
    var d :| 0 <= d < |now.pcs| && !now.pcs[d].Idle? && now.pcs[d].k == q;
    if d != c {
      assert q.0 != k.0;
      OthersSaw(st, d, q, k);
    }
    assert SawBy(now, d, q);
  }

  /** With a count of 1 the other page gave its reference up. */
  lemma GaveBefore(st: State, c: nat, k: Key, d: nat, f: nat)
    requires Good(st) && Staying(st) && Enabled(st, Enter(c, k)) && d < |st.pcs| && Count(st.s, f) <= 1
    requires k in Counted(st).ptes && st.s.ptes[k].frame == f
    requires var now := Apply(st, Enter(c, k));
             Copying(now.pcs[d]) && now.pcs[d].k in now.s.ptes && now.s.ptes[now.pcs[d].k].frame == f
    ensures d != c && st.pcs[d].k != k && Gave(st.pcs[d])
  {
    assert st.pcs[d].k.0 != k.0;
    if st.pcs[d].Saw? {
      SawCounted(st, d);
    }
  }

  /** Unmapping the last page that stayed. */
  lemma UnmapGoesWrong(st: State, k: Key) returns (es: seq<Event>)
    requires Good(st) && Staying(st) && Enabled(st, Unmap(k)) && !Staying(Apply(st, Unmap(k)))
    ensures Run(Apply(st, Unmap(k)), es) && Finishing(es) && Wrong(Final(Apply(st, Unmap(k)), es).s)
  {
    var now := Apply(st, Unmap(k));
    var d, f := Unstayed(now);
    NotLent(st, k);
    UnmapFrame(st, k, d, f);
    MappedCounted(Counted(st), k);
    if Count(st.s, f) > 1 {
      UnmapAllSaw(st, k, f);
      es := DropAll(now, f);
    } else {
      es := [];
      assert now.s.free[0] == f && now.pcs[d].k in now.s.ptes;
      assert WrongAt(now.s, f);
    }
  }

  lemma UnmapFrame(st: State, k: Key, d: nat, f: nat)
    requires Good(st) && Staying(st) && Enabled(st, Unmap(k)) && d < |st.pcs|
    requires var now := Apply(st, Unmap(k));
             Copying(now.pcs[d]) && now.pcs[d].k in now.s.ptes && now.s.ptes[now.pcs[d].k].frame == f &&
             forall p :: !Stays(now, f, p)
    ensures st.s.ptes[k].frame == f
  {
    assert HasStayer(st, d);
    var p :| Stays(st, f, p);
    assert !Stays(Apply(st, Unmap(k)), f, p);
  }

  lemma UnmapAllSaw(st: State, k: Key, f: nat)
    requires Good(st) && Enabled(st, Unmap(k)) && k in Counted(st).ptes && st.s.ptes[k].frame == f && Count(st.s, f) > 1
    requires forall p :: !Stays(Apply(st, Unmap(k)), f, p)
    ensures AllSaw(Apply(st, Unmap(k)), f)
  {
    var now := Apply(st, Unmap(k));
    UnmapCounted(st, k);
    MappedCounted(Counted(st), k);
    RefsDrop(Counted(st).ptes, k, f);
    assert Refs(Counted(now).ptes, f) == Refs(Counted(st).ptes, f) - {k};
    forall q | q in Refs(Counted(now).ptes, f)
      ensures SawAbove(now, q)
    {
      assert !Stays(now, f, q) && InHandler(now, q);
      var d :| 0 <= d < |now.pcs| && !now.pcs[d].Idle? && now.pcs[d].k == q;
      OthersSaw(st, d, q, k);
      assert SawBy(now, d, q);
    }
  }

  /** No other event takes the page that stays away. */
  lemma OthersStay(st: State, e: Event)
    requires Good(st) && Staying(st) && Enabled(st, e) && !e.Enter? && !e.Unmap? && !e.Next? && !e.Store?
    ensures Staying(Apply(st, e))
  {
    var now := Apply(st, e);
    forall c | 0 <= c < |now.pcs|
      ensures HasStayer(now, c)
    {
      if Copying(now.pcs[c]) {
        assert HandlerOk(st, c) && HasStayer(st, c);
        var f := st.s.ptes[st.pcs[c].k].frame;
        var p :| Stays(st, f, p);
        assert Stays(now, f, p);
      }
    }
  }

  /**
   Whatever happens next, the faults under way can end without losing, freeing or exposing a frame, if and only if some
   page of every frame being copied stays out of the handler and mapped.
   */
  lemma StayingExactly(st: State, e: Event)
    requires Good(st) && Staying(st) && Enabled(st, e)
    ensures Staying(Apply(st, e)) <==>
            forall es :: Finishing(es) && Run(Apply(st, e), es) ==> !Wrong(Final(Apply(st, e), es).s)
  {
    var now := Apply(st, e);
    if Staying(now) {
      StepRight(st, e);
      forall es | Finishing(es) && Run(now, es)
        ensures !Wrong(Final(now, es).s)
      {
        FinishesRight(now, es);
      }
    } else if e.Enter? {
      var es := EnterGoesWrong(st, e.c, e.k);
    } else if e.Unmap? {
      var es := UnmapGoesWrong(st, e.k);
    } else if e.Next? || e.Store? {
      FinishingStays(st, e);
    } else {
      OthersStay(st, e);
    }
  }

  // --- What processes see of it ---

  /** Two processes share a frame, both copy-on-write, and nobody else maps it. */
  ghost predicate SharedByTwo(s: Sys, k: Key, q: Key) {
    Inv(s) && k in s.ptes && q in s.ptes && k.0 != q.0 && s.ptes[k].frame == s.ptes[q].frame &&
    s.ptes[k].cow && s.ptes[q].cow && Count(s, s.ptes[k].frame) == 2
  }

  lemma PairCounted(t: Sys, k: Key, q: Key, f: nat)
    requires Inv(t) && Pair(t, k, q, f) && k.0 != q.0
    ensures SharedByTwo(t, k, q)
  {
    MappedCounted(t, k);
    assert |{k, q}| == 2;
  }

  /** Every fork of a process with a writable page leads to such a state. */
  lemma ForkLeadsThere(s: Sys, pg: nat, d: nat, n: nat, v: nat)
    requires Inv(s) && CanFork(s, pg, d, n) && v < n && s.ptes[(pg, v)].write
    ensures SharedByTwo(Forked(s, pg, d, n), (pg, v), (d, v))
  {
    ForkShares(s, pg, d, n, v);
    PairCounted(Forked(s, pg, d, n), (pg, v), (d, v), s.ptes[(pg, v)].frame);
  }

  lemma RunTwo(st: State, e: Event, mid: State, es: seq<Event>, last: State)
    requires Enabled(st, e) && Apply(st, e) == mid && Run(mid, es) && Final(mid, es) == last
    ensures Run(st, [e] + es) && Final(st, [e] + es) == last
  {
    RunCons(st, e, es);
  }

  /** The first CPU saw the count of 2 and gave its reference up. */
  lemma GivesUp(s: Sys, k: Key, q: Key) returns (st: State)
    requires SharedByTwo(s, k, q)
    ensures st == State(Decreased(s, s.ptes[k].frame), [Dropped(k), Idle]) && Count(st.s, s.ptes[k].frame) == 1
    ensures Enabled(State(s, [Idle, Idle]), Enter(0, k))
    ensures Enabled(Apply(State(s, [Idle, Idle]), Enter(0, k)), Next(0))
    ensures Apply(Apply(State(s, [Idle, Idle]), Enter(0, k)), Next(0)) == st
  {
    st := State(Decreased(s, s.ptes[k].frame), [Dropped(k), Idle]);
  }

  lemma After(s: Sys, k: Key, q: Key, es: seq<Event>, last: State)
    requires SharedByTwo(s, k, q)
    requires Run(State(Decreased(s, s.ptes[k].frame), [Dropped(k), Idle]), es)
    requires Final(State(Decreased(s, s.ptes[k].frame), [Dropped(k), Idle]), es) == last
    ensures Run(State(s, [Idle, Idle]), [Enter(0, k)] + ([Next(0)] + es))
    ensures Final(State(s, [Idle, Idle]), [Enter(0, k)] + ([Next(0)] + es)) == last
  {
    var st := GivesUp(s, k, q);
    RunTwo(Apply(State(s, [Idle, Idle]), Enter(0, k)), Next(0), st, es, last);
    RunTwo(State(s, [Idle, Idle]), Enter(0, k), Apply(State(s, [Idle, Idle]), Enter(0, k)), [Next(0)] + es, last);
  }

  /** alloc and copy: what the first CPU's page is after its handler ended. */
  lemma Ends(st: State, k: Key) returns (last: State)
    requires st.pcs == [Dropped(k), Idle] && k in st.s.ptes && st.s.free != []
    ensures Run(st, [Next(0)] + ([Next(0)] + [])) && Final(st, [Next(0)] + ([Next(0)] + [])) == last && AllIdle(last)
    ensures last.s == Moved(Kalloc(st.s), k, st.s.free[0])
  {
    var mid := Apply(st, Next(0));
    assert mid == State(Kalloc(st.s), [Holding(k, st.s.free[0]), Idle]);
    last := Apply(mid, Next(0));
    RunTwo(mid, Next(0), last, [], last);
    RunTwo(st, Next(0), mid, [Next(0)] + [], last);
  }

  /**
   Both fault at once. The first has given its reference up when the second reads the count, so the second keeps the
   frame and writes to it; the first then copies what the second wrote.
   */
  lemma IsolationLost(s: Sys, k: Key, q: Key, i: nat, b: int) returns (es: seq<Event>)
    requires SharedByTwo(s, k, q) && s.ptes[q].user && s.free != []
    requires i < |Bytes(s, s.ptes[k].frame)| && Bytes(s, s.ptes[k].frame)[i] != b
    ensures Run(State(s, [Idle, Idle]), es) && AllIdle(Final(State(s, [Idle, Idle]), es))
    ensures forall e | e in es && e.Store? :: e.k == q
    ensures var t := Final(State(s, [Idle, Idle]), es).s;
            k in t.ptes && View(t).cells[k].page == View(s).cells[k].page[i := b] != View(s).cells[k].page
  {
    var f, g := s.ptes[k].frame, s.free[0];
    FreeUnused(s, g);
    var s1 := GivesUp(s, k, q);
    var s2 := Apply(s1, Enter(1, q));
    assert s2 == State(s1.s, [Dropped(k), Saw(q, 1)]);
    var s3 := Apply(s2, Next(1));
    assert s3 == State(Reclaimed(s1.s, q), [Dropped(k), Idle]);
    var s4 := Apply(s3, Store(q, i, b));
    assert Bytes(s4.s, f) == Bytes(s, f)[i := b];
    var last := Ends(s4, k);
    es := [Next(0)] + ([Next(0)] + []);
    RunTwo(s3, Store(q, i, b), s4, es, last);
    es := [Store(q, i, b)] + es;
    RunTwo(s2, Next(1), s3, es, last);
    es := [Next(1)] + es;
    RunTwo(s1, Enter(1, q), s2, es, last);
    es := [Enter(1, q)] + es;
    After(s, k, q, es, last);
    es := [Enter(0, k)] + ([Next(0)] + es);
  }

  /**
   The first has given its reference up when the second process goes away: kfree fills the frame with junk and puts it
   first on the list, where the handler's own kalloc takes it. No other CPU is in the handler.
   */
  lemma FreedUnderCopy(s: Sys, k: Key, q: Key) returns (es: seq<Event>)
    requires SharedByTwo(s, k, q)
    ensures Run(State(s, [Idle, Idle]), es) && AllIdle(Final(State(s, [Idle, Idle]), es))
    ensures forall e | e in es :: !e.Store? && (e.Enter? ==> e.k == k)
    ensures var t := Final(State(s, [Idle, Idle]), es).s;
            k in t.ptes && View(t).cells[k].page == Ones(|View(s).cells[k].page|)
  {
    var f := s.ptes[k].frame;
    var s1 := GivesUp(s, k, q);
    var s2 := Apply(s1, Unmap(q));
    assert s2.s.free == [f] + s.free && Bytes(s2.s, f) == Ones(|Bytes(s, f)|) && s2.s.ptes[k].frame == f;
    var last := Ends(s2, k);
    es := [Next(0)] + ([Next(0)] + []);
    RunTwo(s1, Unmap(q), s2, es, last);
    es := [Unmap(q)] + es;
    After(s, k, q, es, last);
    es := [Enter(0, k)] + ([Next(0)] + es);
  }

  /** The frame is mapped nowhere, held by nobody and on no list. */
  ghost predicate Lost(t: Sys, f: nat) {
    Count(t, f) == 0 && f !in t.free && f !in t.held && forall p | p in t.ptes :: t.ptes[p].frame != f
  }

  lemma OnlyTwo(s: Sys, k: Key, q: Key)
    requires SharedByTwo(s, k, q)
    ensures forall p | p in s.ptes && s.ptes[p].frame == s.ptes[k].frame :: p == k || p == q
    ensures s.ptes[k].frame !in s.free && s.ptes[k].frame !in s.held
  {
    MappedCounted(s, k);
    var r := Refs(s.ptes, s.ptes[k].frame);
    forall p | p in s.ptes && s.ptes[p].frame == s.ptes[k].frame
      ensures p == k || p == q
    {
      assert {k, q} <= r && p in r;
      if p != k && p != q {
        Subset({k, q, p}, r);
      }
    }
  }

  /** The second process goes away after the first read the count of 2. No other CPU is in the handler. */
  lemma LostToExit(s: Sys, k: Key, q: Key) returns (es: seq<Event>)
    requires SharedByTwo(s, k, q) && s.free != []
    ensures Run(State(s, [Idle, Idle]), es) && AllIdle(Final(State(s, [Idle, Idle]), es))
    ensures forall e | e in es :: e.Enter? ==> e.k == k
    ensures Lost(Final(State(s, [Idle, Idle]), es).s, s.ptes[k].frame)
  {
    var f, g := s.ptes[k].frame, s.free[0];
    FreeUnused(s, g);
    OnlyTwo(s, k, q);
    var s0 := State(s, [Idle, Idle]);
    var s1 := Apply(s0, Enter(0, k));
    assert s1 == State(s, [Saw(k, 2), Idle]);
    var s2 := Apply(s1, Unmap(q));
    assert s2.s == s.(refc := s.refc[f := 1], ptes := s.ptes - {q});
    var s3 := Apply(s2, Next(0));
    assert s3 == State(Decreased(s2.s, f), [Dropped(k), Idle]);
    var last := Ends(s3, k);
    FreeTail(s.free);
    es := [Next(0)] + ([Next(0)] + []);
    RunTwo(s2, Next(0), s3, es, last);
    es := [Next(0)] + es;
    RunTwo(s1, Unmap(q), s2, es, last);
    es := [Unmap(q)] + es;
    RunTwo(s0, Enter(0, k), s1, es, last);
    es := [Enter(0, k)] + es;
  }

  /** Both read the count before either gives its reference up. */
  lemma FrameLost(s: Sys, k: Key, q: Key) returns (es: seq<Event>)
    requires SharedByTwo(s, k, q) && |s.free| >= 2
    ensures Run(State(s, [Idle, Idle]), es) && AllIdle(Final(State(s, [Idle, Idle]), es))
    ensures Lost(Final(State(s, [Idle, Idle]), es).s, s.ptes[k].frame)
  {
    OnlyTwo(s, k, q);
    var s0 := State(s, [Idle, Idle]);
    var s1 := Apply(s0, Enter(0, k));
    assert s1 == State(s, [Saw(k, 2), Idle]);
    var s2 := Apply(s1, Enter(1, q));
    assert s2 == State(s, [Saw(k, 2), Saw(q, 2)]);
    var last;
    es, last := BothDrop(s, k, q);
    RunTwo(s1, Enter(1, q), s2, es, last);
    es := [Enter(1, q)] + es;
    RunTwo(s0, Enter(0, k), s1, es, last);
    es := [Enter(0, k)] + es;
  }

  /** Both handlers have seen the count 2: each gives its reference up and takes a frame of its own. */
  lemma BothDrop(s: Sys, k: Key, q: Key) returns (es: seq<Event>, last: State)
    requires SharedByTwo(s, k, q) && |s.free| >= 2
    ensures Run(State(s, [Saw(k, 2), Saw(q, 2)]), es) && Final(State(s, [Saw(k, 2), Saw(q, 2)]), es) == last
    ensures AllIdle(last) && Lost(last.s, s.ptes[k].frame)
  {
    var f := s.ptes[k].frame;
    OnlyTwo(s, k, q);
    FreeUnused(s, s.free[0]);
    FreeUnused(s, s.free[1]);
    FreeTail(s.free);
    var s2 := State(s, [Saw(k, 2), Saw(q, 2)]);
    var s3 := Apply(s2, Next(1));
    assert s3 == State(Decreased(s, f), [Saw(k, 2), Dropped(q)]);
    var s4, rest := EndsSecond(s3, k, q);
    var s5 := Apply(s4, Next(0));
    assert s5 == State(Decreased(s4.s, f), [Dropped(k), Idle]);
    assert s5.s.free == s.free[1..] && Count(s5.s, f) == 0;
    last := Ends(s5, k);
    FreeTail(s.free[1..]);
    es := [Next(0)] + ([Next(0)] + []);
    RunTwo(s4, Next(0), s5, es, last);
    RunThrough(s3, rest, s4, [Next(0)] + es, last);
    es := rest + ([Next(0)] + es);
    RunTwo(s2, Next(1), s3, es, last);
    es := [Next(1)] + es;
  }

  /** alloc and copy by the second CPU. */
  lemma EndsSecond(st: State, k: Key, q: Key) returns (last: State, es: seq<Event>)
    requires st.pcs == [Saw(k, 2), Dropped(q)] && q in st.s.ptes && st.s.free != []
    ensures Run(st, es) && Final(st, es) == last
    ensures last == State(Moved(Kalloc(st.s), q, st.s.free[0]), [Saw(k, 2), Idle])
  {
    var mid := Apply(st, Next(1));
    assert mid == State(Kalloc(st.s), [Saw(k, 2), Holding(q, st.s.free[0])]);
    last := Apply(mid, Next(1));
    RunTwo(mid, Next(1), last, [], last);
    es := [Next(1)] + ([Next(1)] + []);
    RunTwo(st, Next(1), mid, [Next(1)] + [], last);
  }

  lemma {:induction false} RunThrough(st: State, a: seq<Event>, mid: State, b: seq<Event>, last: State)
    requires Run(st, a) && Final(st, a) == mid && Run(mid, b) && Final(mid, b) == last
    ensures Run(st, a + b) && Final(st, a + b) == last
    decreases |a|
  {
    if a == [] {
      assert a + b == b;
    } else {
      RunThrough(Apply(st, a[0]), a[1..], mid, b, last);
      assert (a + b)[1..] == a[1..] + b;
    }
  }
}
