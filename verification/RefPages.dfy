/** The reference-counted page allocator of the copy-on-write tree: a linked free list, counts, and a cached length. */
module RefPages {
  /** The list from `head` through `next` runs through `list` and ends at 0. */
  predicate Chain(next: seq<nat>, head: nat, list: seq<nat>)
    decreases |list|
  {
    if |list| == 0 then head == 0
    else head == list[0] != 0 && head < |next| && Chain(next, next[head], list[1..])
  }

  ghost predicate Distinct(list: seq<nat>) {
    forall i, j | 0 <= i < j < |list| :: list[i] != list[j]
  }

  /** The free list holds exactly the managed pages with count 0, each once, and the cached number is its length. */
  ghost predicate Consistent(next: seq<nat>, head: nat, refc: seq<int>, num: int, managed: set<nat>, list: seq<nat>) {
    |next| == |refc| && Chain(next, head, list) && Distinct(list) && num == |list| &&
    (forall p | p in managed :: 0 < p < |refc| && refc[p] >= 0) &&
    (forall p :: p in list <==> p in managed && refc[p] == 0) &&
    (forall p | 0 <= p < |refc| && p !in managed :: refc[p] == 0)
  }

  lemma {:induction false} ChainKept(next: seq<nat>, now: seq<nat>, head: nat, list: seq<nat>)
    requires Chain(next, head, list) && |now| == |next|
    requires forall p | p in list && p < |next| :: now[p] == next[p]
    ensures Chain(now, head, list)
    decreases |list|
  {
    if |list| > 0 {
      assert list[0] in list;
      forall p | p in list[1..] && p < |next|
        ensures now[p] == next[p]
      {
        assert p in list;
      }
      ChainKept(next, now, next[head], list[1..]);
    }
  }

  /** The k-th element is followed by the next one, the last by 0. */
  lemma {:induction false} ChainAt(next: seq<nat>, head: nat, list: seq<nat>, k: nat)
    requires Chain(next, head, list) && k < |list|
    ensures list[k] < |next| && list[k] != 0 && next[list[k]] == if k + 1 < |list| then list[k + 1] else 0
    decreases |list|
  {
    if k > 0 {
      ChainAt(next, next[head], list[1..], k - 1);
    }
  }

  /** A page that was not free goes to the front. */
  lemma PushConsistent(next: seq<nat>, head: nat, refc: seq<int>, num: int, managed: set<nat>, list: seq<nat>, v: nat)
    requires Consistent(next, head, refc, num, managed, list) && 0 < v < |refc|
    requires if v in managed then refc[v] == 1 else refc[v] == 0
    ensures Consistent(next[v := head], v, refc[v := 0], num + 1, managed + {v}, [v] + list)
  {
    assert v !in list;
    ChainKept(next, next[v := head], head, list);
    assert ([v] + list)[1..] == list;
    forall p
      ensures p in [v] + list <==> p == v || p in list
    {
    }
  }

  /** kalloc takes the first page and gives it count 1. */
  lemma PopConsistent(next: seq<nat>, head: nat, refc: seq<int>, num: int, managed: set<nat>, list: seq<nat>)
    requires Consistent(next, head, refc, num, managed, list) && head != 0
    ensures |list| > 0 && list[0] == head && head < |refc| && refc[head] == 0 && head in managed
    ensures Consistent(next, next[head], refc[head := 1], num - 1, managed, list[1..])
  {
    assert head in list;
    assert list == [head] + list[1..];
    forall p
      ensures p in list <==> p == head || p in list[1..]
    {
      if p in list && p != head {
        var i :| 0 <= i < |list| && list[i] == p;
        assert list[1..][i - 1] == p;
      }
    }
    assert forall i | 0 <= i < |list[1..]| :: list[1..][i] == list[i + 1];
  }

  lemma {:induction false} NoFiniteChain(next: seq<nat>, head: nat, list: seq<nat>, v: nat, k: nat, j: nat,
                                         loop: seq<nat>)
    requires Chain(next, head, list) && Distinct(list) && k < |list| && list[k] == v && j <= k && v < |next|
    ensures !Chain(next[v := head], list[j], loop)
    decreases |loop|, k - j
  {
    ChainAt(next, head, list, j);
    if |loop| > 0 && Chain(next[v := head], list[j], loop) {
      NoFiniteChain(next, head, list, v, k, if j < k then j + 1 else 0, loop[1..]);
    }
  }

  /** kfree of a page that is already free closes the list into a cycle: it has no end and no length. */
  lemma DoubleFreeCycles(next: seq<nat>, head: nat, refc: seq<int>, num: int, managed: set<nat>, list: seq<nat>, v: nat,
                         now: seq<nat>)
    requires Consistent(next, head, refc, num, managed, list) && v in managed && refc[v] == 0 && now == next[v := head]
    ensures forall loop :: !Chain(now, v, loop)
  {
    assert v in list;
    var k :| 0 <= k < |list| && list[k] == v;
    forall loop
      ensures !Chain(now, v, loop)
    {
      NoFiniteChain(next, head, list, v, k, k, loop);
    }
  }

  /** Changing a count by hand keeps the books just when the page had and keeps a positive count. */
  lemma CountConsistent(next: seq<nat>, head: nat, refc: seq<int>, num: int, managed: set<nat>, list: seq<nat>, v: nat,
                        counts: seq<int>)
    requires Consistent(next, head, refc, num, managed, list) && v in managed
    requires |counts| == |refc| && counts[v] != refc[v] && counts == refc[v := counts[v]]
    ensures (exists l :: Consistent(next, head, counts, num, managed, l)) <==> refc[v] > 0 && counts[v] > 0
  {
    if refc[v] > 0 && counts[v] > 0 {
      assert Consistent(next, head, counts, num, managed, list);
    }
    if exists l :: Consistent(next, head, counts, num, managed, l) {
      var l :| Consistent(next, head, counts, num, managed, l);
      SameChain(next, head, list, l);
      assert v in l <==> counts[v] == 0;
    }
  }

  lemma {:induction false} SameChain(next: seq<nat>, head: nat, a: seq<nat>, b: seq<nat>)
    requires Chain(next, head, a) && Chain(next, head, b)
    ensures a == b
    decreases |a|
  {
    if |a| > 0 && |b| > 0 {
      SameChain(next, next[head], a[1..], b[1..]);
      assert a == [a[0]] + a[1..] && b == [b[0]] + b[1..];
    }
  }

  class Kmem {
    const next: array<nat>
    const refc: array<int>
    var freelist: nat
    var num: int
    ghost var managed: set<nat>
    ghost var list: seq<nat>

    ghost predicate Valid()
      reads this, next, refc
    {
      Consistent(next[..], freelist, refc[..], num, managed, list)
    }

    /** Counts and the list before kinit1: zero and empty. */
    constructor (npages: nat)
      ensures Valid() && fresh(next) && fresh(refc) && next.Length == refc.Length == npages && managed == {}
    {
      next := new nat[npages](i => 0);
      refc := new int[npages](i => 0);
      freelist, num, managed, list := 0, 0, {}, [];
    }

    /** freerange over whole pages. */
    method FreeRange(from: nat, to: nat)
      requires Valid() && 0 < from <= to <= refc.Length && forall p | from <= p < to :: p !in managed
      modifies this, next, refc
      ensures Valid() && forall p :: p in managed <==> p in old(managed) || from <= p < to
    {
      var p := from;
      while p < to
        invariant from <= p <= to && Valid() && forall q :: q in managed <==> q in old(managed) || from <= q < p
      {
        ghost var was := refc[..];
        refc[p] := 0;
        assert refc[..] == was;
        Kfree(p);
        p := p + 1;
      }
    }

    /** kfree: one reference less; the last one puts the page on the list. */
    method Kfree(v: nat)
      requires Valid() && 0 < v < refc.Length && (v in managed ==> refc[v] > 0)
      modifies this, next, refc
      ensures Valid() && managed == old(managed) + {v}
      ensures refc[..] == old(refc[..])[v := if old(refc[v]) > 0 then old(refc[v]) - 1 else 0]
      ensures list == if old(refc[v]) <= 1 then [v] + old(list) else old(list)
    {
      ghost var count := refc[v];
      if count <= 1 {
        PushConsistent(next[..], freelist, refc[..], num, managed, list, v);
      }
      if refc[v] > 0 {
        refc[v] := refc[v] - 1;
      }
      if refc[v] == 0 {
        next[v] := freelist;
        num := num + 1;
        freelist := v;
        managed, list := managed + {v}, [v] + list;
      } else {
        assert managed == managed + {v};
      }
    }

    /** kalloc: a page of count 0 leaves the list with count 1, or 0 when every page has references. */
    method Kalloc() returns (r: nat)
      requires Valid()
      modifies this, refc
      ensures Valid() && managed == old(managed)
      ensures r == 0 ==> refc[..] == old(refc[..]) && forall p | p in managed :: refc[p] > 0
      ensures r != 0 ==> r in managed && r < refc.Length && old(refc[..])[r] == 0 && refc[..] == old(refc[..])[r := 1]
    {
      r := freelist;
      if r != 0 {
        PopConsistent(next[..], freelist, refc[..], num, managed, list);
        freelist := next[r];
        refc[r] := 1;
        num := num - 1;
        list := list[1..];
      } else {
        assert list == [];
      }
    }

    method Increment(v: nat)
      requires Valid() && v in managed && refc[v] > 0
      modifies refc
      ensures Valid() && refc[..] == old(refc[..])[v := old(refc[v]) + 1]
    {
      refc[v] := refc[v] + 1;
    }

    method Decrement(v: nat)
      requires Valid() && v in managed && refc[v] >= 2
      modifies refc
      ensures Valid() && refc[..] == old(refc[..])[v := old(refc[v]) - 1]
    {
      refc[v] := refc[v] - 1;
    }

    /** get_count_of_free_pages_right_now: walking the list agrees with the cached number. */
    method CountFree() returns (count: int)
      requires Valid()
      ensures count == num == |list|
    {
      count := 0;
      var r := freelist;
      while r != 0
        invariant 0 <= count <= |list| && Chain(next[..], r, list[count..])
        decreases |list| - count
      {
        assert list[count..][1..] == list[count + 1..];
        r := next[r];
        count := count + 1;
      }
    }
  }
}
