/**
 The write-fault handler of the copy-on-write tree on several CPUs, one access to shared data at a time, while other
 CPUs fork, exit, grow and shrink page by page.
 */
module CowRace {
  import opened PageKeys
  import opened CowTable
  import Machine = CowMachine

  /** Where a CPU stands in the handler: it read a count, gave its reference up, or has its new frame. */
  datatype Pc = Idle | Saw(k: Key, n: int) | Dropped(k: Key) | Holding(k: Key, g: nat)

  datatype State = State(s: Sys, pcs: seq<Pc>)

  /**
   `Enter` checks the page and reads the count, `Next` goes on; `Store` is user code. The others are what the kernel
   does to one page for a process elsewhere: `Unmap` is a turn of deallocuvm, for sbrk, exec or the exit of a child,
   `Share` a turn of copyuvm, `Open` setupkvm, `Grow` a turn of allocuvm, `Hide` clearpteu, `Take` and `Give` are
   kalloc and kfree for anything but user pages.
   */
  datatype Event =
    | Enter(c: nat, k: Key)
    | Next(c: nat)
    | Store(k: Key, i: nat, b: int)
    | Unmap(k: Key)
    | Share(k: Key, d: Key)
    | Open(pg: nat)
    | Grow(k: Key)
    | Hide(k: Key)
    | Take
    | Give(f: nat)

  /** A CPU is in the handler for a page of `pg`: the process does nothing else meanwhile. */
  predicate Busy(st: State, pg: nat) {
    exists c :: 0 <= c < |st.pcs| && !st.pcs[c].Idle? && st.pcs[c].k.0 == pg
  }

  predicate InHandler(st: State, k: Key) {
    exists c :: 0 <= c < |st.pcs| && !st.pcs[c].Idle? && st.pcs[c].k == k
  }

  predicate Enabled(st: State, e: Event) {
    match e
    case Enter(c, k) =>
      c < |st.pcs| && st.pcs[c].Idle? && k in st.s.ptes && st.s.ptes[k].cow && !Busy(st, k.0)
    case Next(c) =>
      c < |st.pcs| && !st.pcs[c].Idle? && st.pcs[c].k in st.s.ptes && (st.pcs[c].Dropped? ==> st.s.free != [])
    case Store(k, i, b) => Machine.UserWrites(st.s, k) && i < |Bytes(st.s, st.s.ptes[k].frame)| && !Busy(st, k.0)
    case Unmap(k) => k in st.s.ptes && !Busy(st, k.0)
    case Share(k, d) =>
      k in st.s.ptes && d !in st.s.ptes && d.0 in st.s.spaces && d.0 != k.0 && d.1 == k.1 && d.1 < UPAGES &&
      !Busy(st, k.0) && !Busy(st, d.0)
    case Open(pg) => pg !in st.s.spaces
    case Grow(k) => st.s.free != [] && k !in st.s.ptes && k.0 in st.s.spaces && k.1 < UPAGES && !Busy(st, k.0)
    case Hide(k) => k in st.s.ptes && !Busy(st, k.0)
    case Take => st.s.free != []
    case Give(f) => f in st.s.held && forall c | 0 <= c < |st.pcs| && st.pcs[c].Holding? :: st.pcs[c].g != f
  }

  /** decrease_refcount. */
  function Decreased(s: Sys, f: nat): Sys {
    s.(refc := s.refc[f := Count(s, f) - 1])
  }

  /** memmove to the new frame, and the entry that names it. */
  function Moved(s: Sys, k: Key, g: nat): Sys
    requires k in s.ptes
  {
    Place(s.(bytes := s.bytes[g := Bytes(s, s.ptes[k].frame)]), k, Pte(g, true, true, false))
  }

  function Apply(st: State, e: Event): State
    requires Enabled(st, e)
  {
    match e
    case Enter(c, k) => st.(pcs := st.pcs[c := Saw(k, Count(st.s, st.s.ptes[k].frame))])
    case Next(c) =>
      (match st.pcs[c]
       case Saw(k, n) =>
         if n > 1 then State(Decreased(st.s, st.s.ptes[k].frame), st.pcs[c := Dropped(k)])
         else State(Reclaimed(st.s, k), st.pcs[c := Idle])
       case Dropped(k) => State(Kalloc(st.s), st.pcs[c := Holding(k, st.s.free[0])])
       case Holding(k, g) => State(Moved(st.s, k, g), st.pcs[c := Idle]))
    case Store(k, i, b) => st.(s := Stored(st.s, k, i, b))
    case Unmap(k) => st.(s := CowTable.Unmap(st.s, k))
    case Share(k, d) => st.(s := CowTable.Share(st.s, k, d))
    case Open(pg) => st.(s := WithSpace(st.s, pg))
    case Grow(k) => st.(s := Grown(st.s, k))
    case Hide(k) => st.(s := Machine.Hidden(st.s, k))
    case Take => st.(s := Kalloc(st.s))
    case Give(f) => st.(s := Machine.GivenBack(st.s, f))
  }

  /** What eager copying makes of an event: a fault is nothing to it, except that its copy is shown to the user. */
  function Eagerly(a: Eager, st: State, e: Event): Eager
    requires Enabled(st, e)
  {
    match e
    case Next(c) =>
      if st.pcs[c].Holding? && st.pcs[c].k in a.cells
      then a.(cells := a.cells[st.pcs[c].k := a.cells[st.pcs[c].k].(user := true)]) else a
    case Store(k, i, b) => if k in a.cells && i < |a.cells[k].page| then EagerStore(a, k, i, b) else a
    case Unmap(k) => a.(cells := a.cells - {k})
    case Share(k, d) => if k in a.cells then a.(cells := a.cells[d := a.cells[k]]) else a
    case Open(pg) => a.(spaces := a.spaces + {pg})
    case Grow(k) => a.(cells := a.cells[k := Cell(Zeros(|Bytes(st.s, st.s.free[0])|), true, true)])
    case Hide(k) => if k in a.cells then a.(cells := a.cells[k := a.cells[k].(user := false)]) else a
    case _ => a
  }

  ghost predicate Run(st: State, es: seq<Event>)
    decreases |es|
  {
    es == [] || (Enabled(st, es[0]) && Run(Apply(st, es[0]), es[1..]))
  }

  ghost function Final(st: State, es: seq<Event>): State
    requires Run(st, es)
    decreases |es|
  {
    if es == [] then st else Final(Apply(st, es[0]), es[1..])
  }

  ghost function EagerlyAll(a: Eager, st: State, es: seq<Event>): Eager
    requires Run(st, es)
    decreases |es|
  {
    if es == [] then a else EagerlyAll(Eagerly(a, st, es[0]), Apply(st, es[0]), es[1..])
  }

  // --- The pages whose reference is given up ---

  /** The handler has given the page's reference up and still reads its frame. */
  predicate Gave(pc: Pc) {
    pc.Dropped? || pc.Holding?
  }

  function Lent(st: State): set<Key> {
    set c | 0 <= c < |st.pcs| && Gave(st.pcs[c]) :: st.pcs[c].k
  }

  /** The memory with those pages left out: its counts are right. */
  function Counted(st: State): Sys {
    st.s.(ptes := st.s.ptes - Lent(st))
  }

  // --- The condition ---

  /** The handler is to copy the frame, or is copying it. */
  predicate Copying(pc: Pc) {
    Gave(pc) || (pc.Saw? && pc.n > 1)
  }

  /** Page `p` maps frame `f` and is not in the handler. */
  predicate Stays(st: State, f: nat, p: Key) {
    p in st.s.ptes && st.s.ptes[p].frame == f && !InHandler(st, p)
  }

  ghost predicate HasStayer(st: State, c: nat)
    requires c < |st.pcs|
  {
    Copying(st.pcs[c]) && st.pcs[c].k in st.s.ptes ==> exists p :: Stays(st, st.s.ptes[st.pcs[c].k].frame, p)
  }

  /** While a frame is being copied, some page that maps it stays out of the handler. */
  ghost predicate Staying(st: State) {
    forall c | 0 <= c < |st.pcs| :: HasStayer(st, c)
  }

  // --- What a step keeps while the condition holds ---

  ghost predicate HandlerOk(st: State, c: nat)
    requires c < |st.pcs|
  {
    var pc := st.pcs[c];
    !pc.Idle? ==>
      pc.k in st.s.ptes &&
      var p := st.s.ptes[pc.k];
      p.cow && !p.write && pc.k.0 in st.s.spaces && pc.k.1 < UPAGES && Tab(pc.k) in st.s.tabs &&
      (pc.Holding? ==> pc.g in st.s.held) && (pc.Saw? && pc.n <= 1 ==> Refs(st.s.ptes, p.frame) == {pc.k})
  }

  /** One fault per process, and a frame of its own for each. */
  predicate Apart(st: State, c: nat, d: nat)
    requires c < |st.pcs| && d < |st.pcs|
  {
    !st.pcs[c].Idle? && !st.pcs[d].Idle? && c != d ==>
      st.pcs[c].k.0 != st.pcs[d].k.0 && (st.pcs[c].Holding? && st.pcs[d].Holding? ==> st.pcs[c].g != st.pcs[d].g)
  }

  ghost predicate NoWriter(st: State, k: Key, q: Key)
    requires k in st.s.ptes && q in st.s.ptes
  {
    st.s.ptes[q].frame == st.s.ptes[k].frame ==> !st.s.ptes[q].write
  }

  /** Nobody may write a frame that is being copied. */
  ghost predicate Frozen(st: State) {
    forall k, q | k in Lent(st) && k in st.s.ptes && q in st.s.ptes :: NoWriter(st, k, q)
  }

  ghost predicate Handlers(st: State) {
    (forall c | 0 <= c < |st.pcs| :: HandlerOk(st, c)) &&
    (forall c, d | 0 <= c < |st.pcs| && 0 <= d < |st.pcs| :: Apart(st, c, d))
  }

  ghost predicate Good(st: State) {
    Inv(Counted(st)) && Handlers(st) && Frozen(st)
  }

  /** A page not in the handler is counted. */
  lemma StayerCounted(st: State, f: nat, p: Key)
    requires Stays(st, f, p)
    ensures p in Counted(st).ptes && Counted(st).ptes[p].frame == f
  {
  }

  /** A frame being copied is in use: it has a count, it is not free, and the kernel does not hold it. */
  lemma LentFrame(st: State, k: Key)
    requires Good(st) && Staying(st) && k in Lent(st)
    ensures k in st.s.ptes && st.s.ptes[k].frame in st.s.refc
    ensures st.s.ptes[k].frame !in st.s.free && st.s.ptes[k].frame !in st.s.held
  {
    var c :| 0 <= c < |st.pcs| && Gave(st.pcs[c]) && st.pcs[c].k == k;
    assert HandlerOk(st, c) && HasStayer(st, c);
    var p :| Stays(st, st.s.ptes[k].frame, p);
    StayerCounted(st, st.s.ptes[k].frame, p);
    MappedCounted(Counted(st), p);
  }

  /** What a step has to establish. */
  ghost predicate Right(st: State, e: Event)
    requires Enabled(st, e)
  {
    Good(Apply(st, e)) && View(Apply(st, e).s) == Eagerly(View(st.s), st, e)
  }

  /** A process that is not busy has no page in the handler. */
  lemma NotLent(st: State, k: Key)
    requires !Busy(st, k.0)
    ensures k !in Lent(st) && !InHandler(st, k) && (k in st.s.ptes ==> k in Counted(st).ptes)
  {
  }

  /** Entries of the pages in the handler, and what they need to end well, are as before. */
  ghost predicate Undisturbed(st: State, now: State, c: nat)
    requires c < |st.pcs|
  {
    !st.pcs[c].Idle? && st.pcs[c].k in st.s.ptes ==>
      st.pcs[c].k in now.s.ptes && now.s.ptes[st.pcs[c].k] == st.s.ptes[st.pcs[c].k] &&
      (forall q | q in now.s.ptes && now.s.ptes[q].frame == st.s.ptes[st.pcs[c].k].frame ::
         q in st.s.ptes && st.s.ptes[q].frame == now.s.ptes[q].frame && (now.s.ptes[q].write ==> st.s.ptes[q].write)) &&
      (st.pcs[c].Holding? ==> st.pcs[c].g in now.s.held)
  }

  /** Other pages of a shared frame may come, but then the count the handler saw was not 1. */
  ghost predicate Joined(st: State, now: State, c: nat)
    requires c < |st.pcs|
  {
    !st.pcs[c].Idle? && st.pcs[c].k in st.s.ptes ==>
      st.pcs[c].k in now.s.ptes && now.s.ptes[st.pcs[c].k] == st.s.ptes[st.pcs[c].k] &&
      (forall q | q in now.s.ptes && now.s.ptes[q].frame == st.s.ptes[st.pcs[c].k].frame :: !now.s.ptes[q].write) &&
      !(st.pcs[c].Saw? && st.pcs[c].n <= 1) && (st.pcs[c].Holding? ==> st.pcs[c].g in now.s.held)
  }

  ghost predicate Kept(st: State, now: State, c: nat)
    requires c < |st.pcs|
  {
    Undisturbed(st, now, c) || Joined(st, now, c)
  }

  lemma HandlersKept(st: State, now: State)
    requires Good(st) && now.pcs == st.pcs && st.s.spaces <= now.s.spaces && st.s.tabs <= now.s.tabs
    requires forall c | 0 <= c < |st.pcs| :: Kept(st, now, c)
    ensures Handlers(now) && Frozen(now)
  {
    forall c | 0 <= c < |now.pcs|
      ensures HandlerOk(now, c)
    {
      assert HandlerOk(st, c) && Kept(st, now, c);
      if !now.pcs[c].Idle? && now.pcs[c].Saw? && now.pcs[c].n <= 1 {
        var k := now.pcs[c].k;
        assert k in Refs(st.s.ptes, st.s.ptes[k].frame);
        assert Refs(now.s.ptes, now.s.ptes[k].frame) == {k};
      }
    }
    forall c, d | 0 <= c < |now.pcs| && 0 <= d < |now.pcs|
      ensures Apart(now, c, d)
    {
      assert Apart(st, c, d);
    }
    FrozenKept(st, now);
  }

  lemma FrozenKept(st: State, now: State)
    requires Good(st) && now.pcs == st.pcs
    requires forall c | 0 <= c < |st.pcs| :: Kept(st, now, c)
    ensures Frozen(now)
  {
    forall k, q | k in Lent(now) && k in now.s.ptes && q in now.s.ptes
      ensures NoWriter(now, k, q)
    {
      var c :| 0 <= c < |st.pcs| && Gave(st.pcs[c]) && st.pcs[c].k == k;
      assert HandlerOk(st, c) && k in Lent(st) && Kept(st, now, c);
      if Undisturbed(st, now, c) && q in st.s.ptes {
        assert NoWriter(st, k, q);
      }
    }
  }

  /** The frames being copied keep their bytes. */
  ghost predicate BytesKept(st: State, now: State) {
    forall k | k in Lent(st) && k in st.s.ptes :: Bytes(now.s, st.s.ptes[k].frame) == Bytes(st.s, st.s.ptes[k].frame)
  }

  lemma LentThere(st: State)
    requires Good(st)
    ensures forall k | k in Lent(st) :: k in st.s.ptes
  {
    forall k | k in Lent(st)
      ensures k in st.s.ptes
    {
      var c :| 0 <= c < |st.pcs| && Gave(st.pcs[c]) && st.pcs[c].k == k;
      assert HandlerOk(st, c);
    }
  }

  /** How the pages that gave their references up are seen. */
  ghost function Aside(st: State): (m: map<Key, Cell>)
    ensures forall k :: k in m <==> k in Lent(st) && k in st.s.ptes
  {
    map k | k in Lent(st) && k in st.s.ptes :: View(st.s).cells[k]
  }

  /** A step of the kernel elsewhere, or of user code, that does to the counts' memory what it does to the whole. */
  lemma QuietStep(st: State, now: State)
    requires Good(st) && now.pcs == st.pcs && Inv(Counted(now))
    requires st.s.spaces <= now.s.spaces && st.s.tabs <= now.s.tabs && BytesKept(st, now)
    requires forall c | 0 <= c < |st.pcs| :: Kept(st, now, c)
    ensures Good(now)
    ensures View(now.s).cells == View(Counted(now)).cells + Aside(st)
    ensures View(st.s).cells == View(Counted(st)).cells + Aside(st)
  {
    HandlersKept(st, now);
    assert Lent(now) == Lent(st);
    forall k | k in Lent(st)
      ensures k in st.s.ptes && k in now.s.ptes && now.s.ptes[k] == st.s.ptes[k]
    {
      var c :| 0 <= c < |st.pcs| && Gave(st.pcs[c]) && st.pcs[c].k == k;
      assert HandlerOk(st, c) && Kept(st, now, c);
    }
    assert BytesKept(st, st);
    Parts(st, st);
    Parts(st, now);
  }

  /** Pages the counts cover are seen as the counts' memory has them, the others as before. */
  lemma Parts(st: State, now: State)
    requires Lent(now) == Lent(st) && BytesKept(st, now)
    requires forall k | k in Lent(st) :: k in st.s.ptes && k in now.s.ptes && now.s.ptes[k] == st.s.ptes[k]
    ensures View(now.s).cells == View(Counted(now)).cells + Aside(st)
  {
    var all, some := View(now.s).cells, View(Counted(now)).cells;
    forall k | k in Lent(st)
      ensures all[k] == View(st.s).cells[k]
    {
    }
    forall k | k in some
      ensures all[k] == some[k] && k !in Lent(st)
    {
    }
  }

  // --- Steps elsewhere ---

  /** The frames being copied are not the first free one. */
  lemma TakenBytes(st: State, now: State)
    requires Good(st) && Staying(st)
    requires forall f | f in st.s.refc && f !in st.s.free && f !in st.s.held :: Bytes(now.s, f) == Bytes(st.s, f)
    ensures BytesKept(st, now)
  {
    forall k | k in Lent(st) && k in st.s.ptes
      ensures Bytes(now.s, st.s.ptes[k].frame) == Bytes(st.s, st.s.ptes[k].frame)
    {
      LentFrame(st, k);
    }
  }

  lemma PutUnder(some: map<Key, Cell>, aside: map<Key, Cell>, k: Key, v: Cell)
    requires k !in aside
    ensures some[k := v] + aside == (some + aside)[k := v]
    ensures k in some ==> (some + aside)[k] == some[k]
  {
  }

  lemma RemoveUnder(some: map<Key, Cell>, aside: map<Key, Cell>, k: Key)
    requires k !in aside
    ensures (some - {k}) + aside == (some + aside) - {k}
  {
  }

  lemma StoreKept(st: State, k: Key, i: nat, b: int, c: nat)
    requires Good(st) && Enabled(st, Store(k, i, b)) && c < |st.pcs|
    ensures Kept(st, Apply(st, Store(k, i, b)), c)
  {
    assert HandlerOk(st, c) && Undisturbed(st, Apply(st, Store(k, i, b)), c);
  }

  lemma StoreCounted(st: State, k: Key, i: nat, b: int)
    requires Good(st) && Enabled(st, Store(k, i, b))
    ensures k in Counted(st).ptes && Counted(Apply(st, Store(k, i, b))) == Stored(Counted(st), k, i, b)
    ensures BytesKept(st, Apply(st, Store(k, i, b)))
  {
    NotLent(st, k);
    forall q | q in Lent(st) && q in st.s.ptes
      ensures st.s.ptes[q].frame != st.s.ptes[k].frame
    {
      assert NoWriter(st, q, k);
    }
  }

  lemma StoreRight(st: State, k: Key, i: nat, b: int)
    requires Good(st) && Staying(st) && Enabled(st, Store(k, i, b))
    ensures Right(st, Store(k, i, b))
  {
    var now := Apply(st, Store(k, i, b));
    NotLent(st, k);
    StoreCounted(st, k, i, b);
    StoreInv(Counted(st), k, i, b);
    forall c | 0 <= c < |st.pcs|
      ensures Kept(st, now, c)
    {
      StoreKept(st, k, i, b, c);
    }
    QuietStep(st, now);
    var cells := View(Counted(st)).cells;
    PutUnder(cells, Aside(st), k, cells[k].(page := cells[k].page[i := b]));
  }

  lemma UnmapKept(st: State, k: Key, c: nat)
    requires Good(st) && Enabled(st, Unmap(k)) && c < |st.pcs|
    ensures Kept(st, Apply(st, Unmap(k)), c)
  {
    assert HandlerOk(st, c) && Undisturbed(st, Apply(st, Unmap(k)), c);
  }

  lemma UnmapCounted(st: State, k: Key)
    requires Enabled(st, Unmap(k))
    ensures k in Counted(st).ptes && Counted(Apply(st, Unmap(k))) == CowTable.Unmap(Counted(st), k)
  {
    NotLent(st, k);
    assert (st.s.ptes - {k}) - Lent(st) == (st.s.ptes - Lent(st)) - {k};
  }

  lemma UnmapRight(st: State, k: Key)
    requires Good(st) && Staying(st) && Enabled(st, Unmap(k)) && Staying(Apply(st, Unmap(k)))
    ensures Right(st, Unmap(k))
  {
    var now := Apply(st, Unmap(k));
    NotLent(st, k);
    UnmapCounted(st, k);
    UnmapInv(Counted(st), k);
    UnmapBytes(st, k);
    forall c | 0 <= c < |st.pcs|
      ensures Kept(st, now, c)
    {
      UnmapKept(st, k, c);
    }
    QuietStep(st, now);
    RemoveUnder(View(Counted(st)).cells, Aside(st), k);
  }

  /** The page that stays keeps the frame from being freed. */
  lemma UnmapBytes(st: State, k: Key)
    requires Good(st) && Staying(st) && Enabled(st, Unmap(k)) && Staying(Apply(st, Unmap(k)))
    ensures BytesKept(st, Apply(st, Unmap(k)))
  {
    var now := Apply(st, Unmap(k));
    NotLent(st, k);
    forall q | q in Lent(st) && q in st.s.ptes
      ensures Bytes(now.s, st.s.ptes[q].frame) == Bytes(st.s, st.s.ptes[q].frame)
    {
      if st.s.ptes[q].frame == st.s.ptes[k].frame {
        var c :| 0 <= c < |st.pcs| && Gave(st.pcs[c]) && st.pcs[c].k == q;
        assert HasStayer(now, c);
        var p :| Stays(now, st.s.ptes[q].frame, p);
        StayerCounted(now, st.s.ptes[q].frame, p);
        TwoRefs(Counted(st).ptes, k, p);
        MappedCounted(Counted(st), k);
      }
    }
  }

  lemma ShareCounted(st: State, k: Key, d: Key)
    requires Enabled(st, Share(k, d))
    ensures k in Counted(st).ptes && d !in Counted(st).ptes
    ensures Counted(Apply(st, Share(k, d))) == CowTable.Share(Counted(st), k, d)
  {
    NotLent(st, k);
    NotLent(st, d);
    var p := Protected(st.s.ptes[k]);
    assert st.s.ptes[k := p][d := p] - Lent(st) == (st.s.ptes - Lent(st))[k := p][d := p];
  }

  lemma ShareRight(st: State, k: Key, d: Key)
    requires Good(st) && Staying(st) && Enabled(st, Share(k, d))
    ensures Right(st, Share(k, d))
  {
    var now := Apply(st, Share(k, d));
    NotLent(st, d);
    ShareCounted(st, k, d);
    ShareInv(Counted(st), k, d);
    forall c | 0 <= c < |st.pcs|
      ensures Kept(st, now, c)
    {
      ShareKept(st, k, d, c);
    }
    QuietStep(st, now);
    NotLent(st, k);
    var cells := View(Counted(st)).cells;
    PutUnder(cells, Aside(st), k, cells[k]);
    PutUnder(cells, Aside(st), d, cells[k]);
  }

  lemma ShareKept(st: State, k: Key, d: Key, c: nat)
    requires Good(st) && Enabled(st, Share(k, d)) && c < |st.pcs|
    ensures Kept(st, Apply(st, Share(k, d)), c)
  {
    var now := Apply(st, Share(k, d));
    if !st.pcs[c].Idle? {
      assert HandlerOk(st, c);
      var q := st.pcs[c].k;
      var f := st.s.ptes[q].frame;
      if f != st.s.ptes[k].frame {
        assert Undisturbed(st, now, c);
      } else {
        assert k != q && k in Refs(st.s.ptes, f);
        SharedFrozen(st, k, c);
        assert Joined(st, now, c);
      }
    } else {
      assert Undisturbed(st, now, c);
    }
  }

  /** Nobody may write a frame of which one page is in the handler and another is counted. */
  lemma SharedFrozen(st: State, k: Key, c: nat)
    requires Good(st) && c < |st.pcs| && !st.pcs[c].Idle? && k in Counted(st).ptes && st.pcs[c].k in st.s.ptes
    requires k != st.pcs[c].k && st.s.ptes[k].frame == st.s.ptes[st.pcs[c].k].frame
    ensures forall p | p in st.s.ptes && p != k && st.s.ptes[p].frame == st.s.ptes[k].frame :: !st.s.ptes[p].write
  {
    var q := st.pcs[c].k;
    assert HandlerOk(st, c);
    forall p | p in st.s.ptes && p != k && st.s.ptes[p].frame == st.s.ptes[k].frame
      ensures !st.s.ptes[p].write
    {
      if q in Lent(st) {
        assert NoWriter(st, q, p);
      } else if p in Lent(st) {
        assert NoWriter(st, p, p);
      } else if st.s.ptes[p].write {
        WriterAlone(Counted(st), p, k);
      }
    }
  }

  lemma OpenRight(st: State, pg: nat)
    requires Good(st) && Staying(st) && Enabled(st, Open(pg))
    ensures Right(st, Open(pg))
  {
    var now := Apply(st, Open(pg));
    WithSpaceInv(Counted(st), pg);
    assert Counted(now) == WithSpace(Counted(st), pg);
    forall c | 0 <= c < |st.pcs|
      ensures Kept(st, now, c)
    {
      assert HandlerOk(st, c) && Undisturbed(st, now, c);
    }
    QuietStep(st, now);
  }

  lemma GrowKept(st: State, k: Key, c: nat)
    requires Good(st) && Staying(st) && Enabled(st, Grow(k)) && c < |st.pcs|
    ensures Kept(st, Apply(st, Grow(k)), c)
  {
    if !st.pcs[c].Idle? {
      HandlerFrame(st, c);
    }
    FreeUnused(Counted(st), st.s.free[0]);
    assert HandlerOk(st, c) && Undisturbed(st, Apply(st, Grow(k)), c);
  }

  lemma GrowCounted(st: State, k: Key)
    requires Enabled(st, Grow(k))
    ensures k !in Counted(st).ptes && Counted(Apply(st, Grow(k))) == Grown(Counted(st), k)
  {
    NotLent(st, k);
    var p := Pte(st.s.free[0], true, true, false);
    assert st.s.ptes[k := p] - Lent(st) == (st.s.ptes - Lent(st))[k := p];
  }

  lemma GrowRight(st: State, k: Key)
    requires Good(st) && Staying(st) && Enabled(st, Grow(k))
    ensures Right(st, Grow(k))
  {
    var now := Apply(st, Grow(k));
    NotLent(st, k);
    GrowCounted(st, k);
    GrowInv(Counted(st), k);
    TakenBytes(st, now);
    forall c | 0 <= c < |st.pcs|
      ensures Kept(st, now, c)
    {
      GrowKept(st, k, c);
    }
    QuietStep(st, now);
    PutUnder(View(Counted(st)).cells, Aside(st), k, Cell(Zeros(|Bytes(st.s, st.s.free[0])|), true, true));
  }

  /** A page in the handler that has not given its reference up is counted. */
  lemma LentAlone(st: State, c: nat)
    requires Handlers(st) && c < |st.pcs| && !st.pcs[c].Idle? && st.pcs[c].k in Lent(st)
    ensures Gave(st.pcs[c])
  {
    var d :| 0 <= d < |st.pcs| && Gave(st.pcs[d]) && st.pcs[d].k == st.pcs[c].k;
    assert Apart(st, c, d);
  }

  /** The frame of a page in the handler is not free. */
  lemma HandlerFrame(st: State, c: nat)
    requires Good(st) && Staying(st) && c < |st.pcs| && !st.pcs[c].Idle?
    ensures st.pcs[c].k in st.s.ptes && st.s.ptes[st.pcs[c].k].frame !in st.s.free
    ensures st.s.ptes[st.pcs[c].k].frame !in st.s.held
  {
    assert HandlerOk(st, c);
    if Gave(st.pcs[c]) {
      LentFrame(st, st.pcs[c].k);
    } else {
      if st.pcs[c].k in Lent(st) {
        LentAlone(st, c);
      }
      MappedCounted(Counted(st), st.pcs[c].k);
    }
  }

  lemma HideKept(st: State, k: Key, c: nat)
    requires Good(st) && Enabled(st, Hide(k)) && c < |st.pcs|
    ensures Kept(st, Apply(st, Hide(k)), c)
  {
    assert HandlerOk(st, c) && Undisturbed(st, Apply(st, Hide(k)), c);
  }

  lemma HideCounted(st: State, k: Key)
    requires Enabled(st, Hide(k))
    ensures k in Counted(st).ptes && Counted(Apply(st, Hide(k))) == Machine.Hidden(Counted(st), k)
  {
    NotLent(st, k);
    var p := st.s.ptes[k].(user := false);
    assert st.s.ptes[k := p] - Lent(st) == (st.s.ptes - Lent(st))[k := p];
  }

  lemma HideSeen(s: Sys, k: Key)
    requires Inv(s) && k in s.ptes
    ensures Inv(Machine.Hidden(s, k))
    ensures View(Machine.Hidden(s, k)).cells == View(s).cells[k := View(s).cells[k].(user := false)]
  {
    Machine.HideStep(s, k);
  }

  lemma HideRight(st: State, k: Key)
    requires Good(st) && Staying(st) && Enabled(st, Hide(k))
    ensures Right(st, Hide(k))
  {
    var now := Apply(st, Hide(k));
    NotLent(st, k);
    HideCounted(st, k);
    HideSeen(Counted(st), k);
    forall c | 0 <= c < |st.pcs|
      ensures Kept(st, now, c)
    {
      HideKept(st, k, c);
    }
    QuietStep(st, now);
    var cells := View(Counted(st)).cells;
    PutUnder(cells, Aside(st), k, cells[k].(user := false));
  }

  lemma TakeRight(st: State)
    requires Good(st) && Staying(st) && Enabled(st, Take)
    ensures Right(st, Take)
  {
    var now := Apply(st, Take);
    KallocInv(Counted(st));
    assert Counted(now) == Kalloc(Counted(st));
    forall c | 0 <= c < |st.pcs|
      ensures Kept(st, now, c)
    {
      assert HandlerOk(st, c) && Undisturbed(st, now, c);
    }
    QuietStep(st, now);
  }

  lemma GiveRight(st: State, f: nat)
    requires Good(st) && Staying(st) && Enabled(st, Give(f))
    ensures Right(st, Give(f))
  {
    var now := Apply(st, Give(f));
    Machine.GiveStep(Counted(st), f);
    assert Counted(now) == Machine.GivenBack(Counted(st), f);
    TakenBytes(st, now);
    forall c | 0 <= c < |st.pcs|
      ensures Kept(st, now, c)
    {
      assert HandlerOk(st, c) && Undisturbed(st, now, c);
    }
    QuietStep(st, now);
  }

  // --- Steps of the handler ---

  lemma EnterRight(st: State, c: nat, k: Key)
    requires Good(st) && Staying(st) && Enabled(st, Enter(c, k)) && Staying(Apply(st, Enter(c, k)))
    ensures Right(st, Enter(c, k))
  {
    var now := Apply(st, Enter(c, k));
    NotLent(st, k);
    SameLent(st, now);
    assert EntryOk(Counted(st), k);
    MappedCounted(Counted(st), k);
    if Count(st.s, st.s.ptes[k].frame) <= 1 {
      EnterAlone(st, c, k);
    }
    OthersHandled(st, now, c);
  }

  lemma SameLent(st: State, now: State)
    requires |now.pcs| == |st.pcs| && forall d | 0 <= d < |st.pcs| :: Gave(st.pcs[d]) == Gave(now.pcs[d])
    requires forall d | 0 <= d < |st.pcs| && Gave(st.pcs[d]) :: Gave(now.pcs[d]) && now.pcs[d].k == st.pcs[d].k
    ensures Lent(now) == Lent(st)
  {
    forall k
      ensures k in Lent(now) <==> k in Lent(st)
    {
      if k in Lent(st) {
        var d :| 0 <= d < |st.pcs| && Gave(st.pcs[d]) && st.pcs[d].k == k;
        assert Gave(now.pcs[d]) && now.pcs[d].k == k;
      }
      if k in Lent(now) {
        var d :| 0 <= d < |now.pcs| && Gave(now.pcs[d]) && now.pcs[d].k == k;
        assert Gave(st.pcs[d]) && st.pcs[d].k == k;
      }
    }
  }

  /** A count of 1 means that nobody else maps the frame, not even a page whose reference is given up. */
  lemma EnterAlone(st: State, c: nat, k: Key)
    requires Good(st) && Staying(st) && Enabled(st, Enter(c, k)) && Staying(Apply(st, Enter(c, k)))
    requires Count(st.s, st.s.ptes[k].frame) <= 1
    ensures Refs(st.s.ptes, st.s.ptes[k].frame) == {k}
  {
    var now, f := Apply(st, Enter(c, k)), st.s.ptes[k].frame;
    NotLent(st, k);
    MappedCounted(Counted(st), k);
    forall q | q in st.s.ptes && st.s.ptes[q].frame == f
      ensures q == k
    {
      if q != k {
        if q in Lent(st) {
          var d :| 0 <= d < |st.pcs| && Gave(st.pcs[d]) && st.pcs[d].k == q;
          assert now.pcs[d] == st.pcs[d] && HasStayer(now, d);
          var p :| Stays(now, f, p);
          assert now.pcs[c].k == k;
          assert InHandler(now, k);
          StayerCounted(now, f, p);
          SameLent(st, now);
          TwoRefs(Counted(st).ptes, k, p);
        } else {
          TwoRefs(Counted(st).ptes, k, q);
        }
      }
    }
    assert k in Refs(st.s.ptes, f);
  }

  /** One CPU moved on without touching memory or giving a reference up. */
  lemma OthersHandled(st: State, now: State, c: nat)
    requires Good(st) && c < |st.pcs| && now.s == st.s && Lent(now) == Lent(st)
    requires |now.pcs| == |st.pcs| && now.pcs == st.pcs[c := now.pcs[c]] && HandlerOk(now, c)
    requires forall d | 0 <= d < |st.pcs| :: Apart(now, c, d) && Apart(now, d, c)
    ensures Good(now)
  {
    forall d | 0 <= d < |now.pcs|
      ensures HandlerOk(now, d)
    {
      assert HandlerOk(st, d);
    }
    forall a, b | 0 <= a < |now.pcs| && 0 <= b < |now.pcs|
      ensures Apart(now, a, b)
    {
      assert Apart(st, a, b);
    }
    forall k, q | k in Lent(now) && k in now.s.ptes && q in now.s.ptes
      ensures NoWriter(now, k, q)
    {
      assert NoWriter(st, k, q);
    }
  }

  /** The page of a CPU that has not given its reference up is counted, twice with a page that stays. */
  lemma SawCounted(st: State, c: nat)
    requires Good(st) && Staying(st) && c < |st.pcs| && st.pcs[c].Saw?
    ensures st.pcs[c].k in Counted(st).ptes && st.pcs[c].k !in Lent(st)
    ensures st.pcs[c].n > 1 ==> Count(st.s, st.s.ptes[st.pcs[c].k].frame) > 1
  {
    var k := st.pcs[c].k;
    assert HandlerOk(st, c);
    if k in Lent(st) {
      LentAlone(st, c);
    }
    if st.pcs[c].n > 1 {
      assert HasStayer(st, c);
      var p :| Stays(st, st.s.ptes[k].frame, p);
      StayerCounted(st, st.s.ptes[k].frame, p);
      TwoRefs(Counted(st).ptes, k, p);
      MappedCounted(Counted(st), k);
    }
  }

  lemma DropRight(st: State, c: nat)
    requires Good(st) && Staying(st) && c < |st.pcs| && st.pcs[c].Saw? && st.pcs[c].n > 1 && Enabled(st, Next(c))
    ensures Right(st, Next(c))
  {
    var now, k := Apply(st, Next(c)), st.pcs[c].k;
    SawCounted(st, c);
    DropLent(st, now, c);
    UnmapInv(Counted(st), k);
    DropCounted(st, now, c);
    DropHandlers(st, now, c);
    DropFrozen(st, now, c);
    SameView(st.s, now.s);
  }

  lemma SameView(s: Sys, t: Sys)
    requires t.spaces == s.spaces && t.ptes == s.ptes && t.bytes == s.bytes
    ensures View(t) == View(s)
  {
    assert View(t).cells == View(s).cells;
  }

  /** Giving a reference up is what deallocuvm does to a frame others map. */
  lemma DropCounted(st: State, now: State, c: nat)
    requires c < |st.pcs| && st.pcs[c].Saw? && st.pcs[c].k in Counted(st).ptes
    requires Count(st.s, st.s.ptes[st.pcs[c].k].frame) > 1 && Lent(now) == Lent(st) + {st.pcs[c].k}
    requires now.s == Decreased(st.s, st.s.ptes[st.pcs[c].k].frame)
    ensures Counted(now) == CowTable.Unmap(Counted(st), st.pcs[c].k)
  {
    assert Counted(now).ptes == Counted(st).ptes - {st.pcs[c].k};
  }

  lemma DropLent(st: State, now: State, c: nat)
    requires c < |st.pcs| == |now.pcs| && !Gave(st.pcs[c]) && now.pcs == st.pcs[c := now.pcs[c]] && Gave(now.pcs[c])
    ensures Lent(now) == Lent(st) + {now.pcs[c].k}
  {
    forall k
      ensures k in Lent(now) <==> k in Lent(st) + {now.pcs[c].k}
    {
      if k in Lent(st) {
        var d :| 0 <= d < |st.pcs| && Gave(st.pcs[d]) && st.pcs[d].k == k;
        assert now.pcs[d] == st.pcs[d];
      }
      assert Gave(now.pcs[c]);
    }
  }

  lemma DropHandlers(st: State, now: State, c: nat)
    requires Good(st) && c < |st.pcs| && st.pcs[c].Saw? && now.pcs == st.pcs[c := Dropped(st.pcs[c].k)]
    requires now.s == st.s.(refc := now.s.refc)
    ensures Handlers(now)
  {
    forall d | 0 <= d < |now.pcs|
      ensures HandlerOk(now, d)
    {
      assert HandlerOk(st, d);
    }
    forall a, b | 0 <= a < |now.pcs| && 0 <= b < |now.pcs|
      ensures Apart(now, a, b)
    {
      assert Apart(st, a, b);
    }
  }

  /** A frame of two counted pages has no writer. */
  lemma DropFrozen(st: State, now: State, c: nat)
    requires Good(st) && Staying(st) && c < |st.pcs| && st.pcs[c].Saw? && st.pcs[c].n > 1
    requires now.s == st.s.(refc := now.s.refc) && Lent(now) == Lent(st) + {st.pcs[c].k}
    ensures Frozen(now)
  {
    SawCounted(st, c);
    LentThere(st);
    forall k, q | k in Lent(now) && k in now.s.ptes && q in now.s.ptes
      ensures NoWriter(now, k, q)
    {
      if k in Lent(st) {
        assert NoWriter(st, k, q);
      } else if q in Lent(st) {
        assert NoWriter(st, q, q);
      } else {
        assert EntryOk(Counted(st), q);
      }
    }
  }

  lemma ReclaimRight(st: State, c: nat)
    requires Good(st) && Staying(st) && c < |st.pcs| && st.pcs[c].Saw? && st.pcs[c].n <= 1 && Enabled(st, Next(c))
    ensures Right(st, Next(c))
  {
    var now, k := Apply(st, Next(c)), st.pcs[c].k;
    SawCounted(st, c);
    assert HandlerOk(st, c);
    ReclaimLent(st, now, c);
    MappedCounted(Counted(st), k);
    assert Refs(Counted(st).ptes, st.s.ptes[k].frame) == {k};
    ReclaimInv(Counted(st), k);
    assert Counted(now).ptes == Reclaimed(Counted(st), k).ptes;
    ReclaimHandlers(st, now, c);
    ReclaimFrozen(st, now, c);
    assert View(now.s).cells == View(st.s).cells;
  }

  lemma ReclaimLent(st: State, now: State, c: nat)
    requires c < |st.pcs| && !Gave(st.pcs[c]) && now.pcs == st.pcs[c := Idle]
    ensures Lent(now) == Lent(st)
  {
    SameLent(st, now);
  }

  lemma ReclaimHandlers(st: State, now: State, c: nat)
    requires Good(st) && c < |st.pcs| && !st.pcs[c].Idle? && now.pcs == st.pcs[c := Idle]
    requires st.pcs[c].k in st.s.ptes && now.s == Reclaimed(st.s, st.pcs[c].k)
    ensures Handlers(now)
  {
    forall d | 0 <= d < |now.pcs|
      ensures HandlerOk(now, d)
    {
      assert HandlerOk(st, d) && Apart(st, c, d);
      if !now.pcs[d].Idle? {
        var f := st.s.ptes[st.pcs[d].k].frame;
        assert Refs(now.s.ptes, f) == Refs(st.s.ptes, f);
      }
    }
    forall a, b | 0 <= a < |now.pcs| && 0 <= b < |now.pcs|
      ensures Apart(now, a, b)
    {
      assert Apart(st, a, b);
    }
  }

  lemma ReclaimFrozen(st: State, now: State, c: nat)
    requires Good(st) && c < |st.pcs| && !st.pcs[c].Idle? && st.pcs[c].k in st.s.ptes && st.pcs[c].k !in Lent(st)
    requires Refs(st.s.ptes, st.s.ptes[st.pcs[c].k].frame) == {st.pcs[c].k}
    requires now.s == Reclaimed(st.s, st.pcs[c].k) && Lent(now) == Lent(st)
    ensures Frozen(now)
  {
    forall k, q | k in Lent(now) && k in now.s.ptes && q in now.s.ptes
      ensures NoWriter(now, k, q)
    {
      assert NoWriter(st, k, q);
      assert k !in Refs(st.s.ptes, st.s.ptes[st.pcs[c].k].frame);
    }
  }

  lemma AllocRight(st: State, c: nat)
    requires Good(st) && Staying(st) && c < |st.pcs| && st.pcs[c].Dropped? && Enabled(st, Next(c))
    ensures Right(st, Next(c))
  {
    var now, g := Apply(st, Next(c)), st.s.free[0];
    SameLent(st, now);
    KallocInv(Counted(st));
    FreeUnused(Counted(st), g);
    assert Counted(now) == Kalloc(Counted(st));
    forall d | 0 <= d < |now.pcs|
      ensures HandlerOk(now, d)
    {
      assert HandlerOk(st, d);
    }
    forall a, b | 0 <= a < |now.pcs| && 0 <= b < |now.pcs|
      ensures Apart(now, a, b)
    {
      assert Apart(st, a, b) && HandlerOk(st, a) && HandlerOk(st, b);
    }
    assert Frozen(now) by {
      forall k, q | k in Lent(now) && k in now.s.ptes && q in now.s.ptes
        ensures NoWriter(now, k, q)
      {
        assert NoWriter(st, k, q);
      }
    }
    assert View(now.s).cells == View(st.s).cells;
  }

  lemma MoveRight(st: State, c: nat)
    requires Good(st) && Staying(st) && c < |st.pcs| && st.pcs[c].Holding? && Enabled(st, Next(c))
    ensures Right(st, Next(c))
  {
    var now, k, g := Apply(st, Next(c)), st.pcs[c].k, st.pcs[c].g;
    var p, page := Pte(g, true, true, false), Bytes(st.s, st.s.ptes[k].frame);
    assert HandlerOk(st, c) && k in Lent(st);
    MoveLent(st, now, c);
    PlaceInv(Counted(st), k, p, page);
    assert Counted(now).ptes == Counted(st).ptes[k := p];
    assert Counted(now) == Place(Counted(st).(bytes := st.s.bytes[g := page]), k, p);
    MoveHandlers(st, now, c);
    MoveView(st, now, c);
  }

  lemma MoveLent(st: State, now: State, c: nat)
    requires Handlers(st) && c < |st.pcs| && Gave(st.pcs[c]) && now.pcs == st.pcs[c := Idle]
    ensures Lent(now) == Lent(st) - {st.pcs[c].k}
  {
    forall k
      ensures k in Lent(now) <==> k in Lent(st) - {st.pcs[c].k}
    {
      if k in Lent(st) && k != st.pcs[c].k {
        var d :| 0 <= d < |st.pcs| && Gave(st.pcs[d]) && st.pcs[d].k == k;
        assert now.pcs[d] == st.pcs[d];
      }
      if k in Lent(now) {
        var d :| 0 <= d < |now.pcs| && Gave(now.pcs[d]) && now.pcs[d].k == k;
        assert Apart(st, c, d) && now.pcs[d] == st.pcs[d];
      }
    }
  }

  lemma MoveHandlers(st: State, now: State, c: nat)
    requires Good(st) && Staying(st) && c < |st.pcs| && st.pcs[c].Holding? && Enabled(st, Next(c))
    requires now == Apply(st, Next(c)) && Lent(now) == Lent(st) - {st.pcs[c].k}
    ensures Handlers(now) && Frozen(now)
  {
    var k := st.pcs[c].k;
    assert HandlerOk(st, c);
    forall d | 0 <= d < |now.pcs|
      ensures HandlerOk(now, d)
    {
      assert HandlerOk(st, d) && Apart(st, c, d);
      if !now.pcs[d].Idle? {
        HandlerFrame(st, d);
        var f := st.s.ptes[st.pcs[d].k].frame;
        assert Refs(now.s.ptes, f) == Refs(st.s.ptes, f) - {k};
        assert k != st.pcs[d].k && (Refs(st.s.ptes, f) == {st.pcs[d].k} ==> k !in Refs(st.s.ptes, f));
      }
    }
    forall a, b | 0 <= a < |now.pcs| && 0 <= b < |now.pcs|
      ensures Apart(now, a, b)
    {
      assert Apart(st, a, b);
    }
    forall q, r | q in Lent(now) && q in now.s.ptes && r in now.s.ptes
      ensures NoWriter(now, q, r)
    {
      LentFrame(st, q);
      if r != k {
        assert NoWriter(st, q, r);
      }
    }
  }

  lemma MoveView(st: State, now: State, c: nat)
    requires Good(st) && Staying(st) && c < |st.pcs| && st.pcs[c].Holding? && Enabled(st, Next(c))
    requires now == Apply(st, Next(c))
    ensures View(now.s) == Eagerly(View(st.s), st, Next(c))
  {
    var k, g := st.pcs[c].k, st.pcs[c].g;
    assert HandlerOk(st, c) && CountOk(Counted(st), g);
    forall q | q in st.s.ptes && q != k
      ensures st.s.ptes[q].frame != g
    {
      if q in Lent(st) {
        LentFrame(st, q);
      } else {
        assert q !in Refs(Counted(st).ptes, g);
      }
    }
    assert View(now.s).cells == Eagerly(View(st.s), st, Next(c)).cells;
  }

  /** While some page stays, a step keeps the memory right and shows what eager copying would. */
  lemma StepRight(st: State, e: Event)
    requires Good(st) && Staying(st) && Enabled(st, e) && Staying(Apply(st, e))
    ensures Right(st, e)
  {
    match e
    case Enter(c, k) => EnterRight(st, c, k);
    case Next(c) => NextRight(st, c);
    case Store(k, i, b) => StoreRight(st, k, i, b);
    case Unmap(k) => UnmapRight(st, k);
    case Share(k, d) => ShareRight(st, k, d);
    case Open(pg) => OpenRight(st, pg);
    case Grow(k) => GrowRight(st, k);
    case Hide(k) => HideRight(st, k);
    case Take => TakeRight(st);
    case Give(f) => GiveRight(st, f);
  }

  lemma NextRight(st: State, c: nat)
    requires Good(st) && Staying(st) && Enabled(st, Next(c))
    ensures Right(st, Next(c))
  {
    match st.pcs[c]
    case Saw(k, n) =>
      if n > 1 {
        DropRight(st, c);
      } else {
        ReclaimRight(st, c);
      }
    case Dropped(k) => AllocRight(st, c);
    case Holding(k, g) => MoveRight(st, c);
  }

  // --- Whole runs ---

  ghost predicate StayingRun(st: State, es: seq<Event>)
    decreases |es|
  {
    Staying(st) && (es == [] || (Enabled(st, es[0]) && StayingRun(Apply(st, es[0]), es[1..])))
  }

  /** A run in which some page always stays shows every process what eager copying would, and keeps every count. */
  lemma {:induction false} StayingRefines(st: State, es: seq<Event>)
    requires Good(st) && StayingRun(st, es)
    ensures Run(st, es) && Good(Final(st, es)) && Staying(Final(st, es))
    ensures View(Final(st, es).s) == EagerlyAll(View(st.s), st, es)
    decreases |es|
  {
    if es != [] {
      StepRight(st, es[0]);
      StayingRefines(Apply(st, es[0]), es[1..]);
    }
  }

  predicate AllIdle(st: State) {
    forall c | 0 <= c < |st.pcs| :: st.pcs[c].Idle?
  }

  lemma IdleGood(st: State)
    requires AllIdle(st)
    ensures Staying(st) && Lent(st) == {} && Counted(st) == st.s && (Inv(st.s) <==> Good(st))
  {
    assert st.s.ptes - {} == st.s.ptes;
  }

  /** From consistent memory, with no fault under way at either end. */
  lemma StayingSuffices(s: Sys, ncpu: nat, es: seq<Event>)
    requires Inv(s) && StayingRun(State(s, seq(ncpu, c => Idle)), es)
    ensures var st := State(s, seq(ncpu, c => Idle));
            Run(st, es) && View(Final(st, es).s) == EagerlyAll(View(s), st, es) &&
            (AllIdle(Final(st, es)) ==> Inv(Final(st, es).s))
  {
    var st := State(s, seq(ncpu, c => Idle));
    IdleGood(st);
    StayingRefines(st, es);
    if AllIdle(Final(st, es)) {
      IdleGood(Final(st, es));
    }
  }

  /** The handler going on, or a user store, takes no page out of its place. */
  lemma FinishingStays(st: State, e: Event)
    requires Good(st) && Staying(st) && Enabled(st, e) && (e.Next? || e.Store?)
    ensures Staying(Apply(st, e))
  {
    var now := Apply(st, e);
    forall c | 0 <= c < |now.pcs|
      ensures HasStayer(now, c)
    {
      if Copying(now.pcs[c]) && now.pcs[c].k in now.s.ptes {
        StillStays(st, e, c);
      }
    }
  }

  lemma StillStays(st: State, e: Event, c: nat)
    requires Good(st) && Staying(st) && Enabled(st, e) && (e.Next? || e.Store?) && c < |Apply(st, e).pcs|
    requires Copying(Apply(st, e).pcs[c]) && Apply(st, e).pcs[c].k in Apply(st, e).s.ptes
    ensures HasStayer(Apply(st, e), c)
  {
    var now := Apply(st, e);
    assert HasStayer(st, c) && HandlerOk(st, c) && now.pcs[c].k == st.pcs[c].k;
    var k := st.pcs[c].k;
    var f := st.s.ptes[k].frame;
    var p :| Stays(st, f, p);
    assert now.s.ptes[k].frame == f by {
      if e.Next? && st.pcs[e.c].Holding? {
        assert Apart(st, e.c, c);
      }
    }
    if e.Next? {
      assert st.pcs[e.c].k != p;
    }
    assert Stays(now, f, p);
  }

  /** The handler is entered, and the kernel changes pages elsewhere, only while no CPU is in the handler. */
  ghost predicate LockedRun(st: State, es: seq<Event>)
    decreases |es|
  {
    es == [] ||
    (Enabled(st, es[0]) && (es[0].Next? || es[0].Store? || AllIdle(st)) && LockedRun(Apply(st, es[0]), es[1..]))
  }

  /** A fault on a frame of several pages, while no other is under way, leaves the others in their place. */
  lemma FirstEntry(st: State, e: Event)
    requires Good(st) && AllIdle(st) && Enabled(st, e)
    ensures Staying(Apply(st, e))
  {
    var now := Apply(st, e);
    if e.Enter? {
      IdleGood(st);
      var f := st.s.ptes[e.k].frame;
      MappedCounted(st.s, e.k);
      if Count(st.s, f) > 1 {
        Another(st.s.ptes, e.k);
        var p :| p in st.s.ptes && st.s.ptes[p].frame == f && p != e.k;
        assert Stays(now, f, p);
      }
    }
  }

  lemma Another(ptes: map<Key, Pte>, k: Key)
    requires k in ptes && |Refs(ptes, ptes[k].frame)| > 1
    ensures exists p :: p in ptes && ptes[p].frame == ptes[k].frame && p != k
  {
    var r := Refs(ptes, ptes[k].frame);
    assert |r - {k}| == |r| - 1;
    var p :| p in r - {k};
  }

  lemma {:induction false} LockedStays(st: State, es: seq<Event>)
    requires Good(st) && Staying(st) && LockedRun(st, es)
    ensures StayingRun(st, es)
    decreases |es|
  {
    if es != [] {
      if es[0].Next? || es[0].Store? {
        FinishingStays(st, es[0]);
      } else {
        FirstEntry(st, es[0]);
      }
      StepRight(st, es[0]);
      LockedStays(Apply(st, es[0]), es[1..]);
    }
  }

  /** One lock around the handler and around every change of pages elsewhere is enough. */
  lemma OneLockSuffices(s: Sys, ncpu: nat, es: seq<Event>)
    requires Inv(s) && LockedRun(State(s, seq(ncpu, c => Idle)), es)
    ensures var st := State(s, seq(ncpu, c => Idle));
            Run(st, es) && View(Final(st, es).s) == EagerlyAll(View(s), st, es) &&
            (AllIdle(Final(st, es)) ==> Inv(Final(st, es).s))
  {
    var st := State(s, seq(ncpu, c => Idle));
    IdleGood(st);
    LockedStays(st, es);
    StayingSuffices(s, ncpu, es);
  }
}
