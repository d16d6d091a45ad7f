/** Link counts against directory entries: create, link and unlink of sysfile.c over the directory code of fs.c. */
module LinkCounts {
  const ROOT: nat := 1

  datatype Kind = TDir | TFile | TDev

  /** A directory entry; inode number 0 marks a free one. */
  datatype Dirent = Dirent(inum: nat, name: string)

  const NOENT: Dirent := Dirent(0, "")

  /** An allocated inode, with its entries when it is a directory. */
  datatype Ino = Ino(kind: Kind, nlink: int, ents: seq<Dirent>)

  type Inodes = map<nat, Ino>

  predicate Linked(fs: Inodes, d: nat) {
    d in fs && fs[d].kind == TDir && fs[d].nlink > 0
  }

  /** Slot `s` of linked directory `d` names `i`; slot 0 is the directory's own "." and does not count. */
  predicate Names(fs: Inodes, d: nat, s: nat, i: nat) {
    Linked(fs, d) && 0 < s < |fs[d].ents| && fs[d].ents[s].inum == i
  }

  /** Every entry that counts as a link to `i`. */
  ghost function Refs(fs: Inodes, i: nat): set<(nat, nat)> {
    set d, s | d in fs && 0 <= s < |fs[d].ents| && Names(fs, d, s, i) :: (d, s)
  }

  lemma RefsAre(fs: Inodes, i: nat, d: nat, s: nat)
    ensures (d, s) in Refs(fs, i) <==> Names(fs, d, s, i)
  {
  }

  // --- Directories ---

  predicate NamesApart(ents: seq<Dirent>) {
    forall a, b | 0 <= a < b < |ents| && ents[a].inum != 0 && ents[b].inum != 0 :: ents[a].name != ents[b].name
  }

  /** "." and ".." first, live names distinct; a directory that was unlinked holds nothing else. */
  predicate DirOk(fs: Inodes, d: nat)
    requires d in fs
  {
    var e := fs[d].ents;
    if fs[d].kind != TDir then e == []
    else
      |e| >= 2 && e[0] == Dirent(d, ".") && e[1].name == ".." && e[1].inum != 0 && NamesApart(e) &&
      (fs[d].nlink <= 0 ==> forall s | 2 <= s < |e| :: e[s].inum == 0)
  }

  /** For each linked directory but the root, the slot of its parent that names it. */
  type Home = map<nat, nat>

  /** An entry of a linked directory names an inode; ".." names a directory. */
  predicate EntryOk(fs: Inodes, home: Home, d: nat, s: nat)
    requires Linked(fs, d) && 0 < s < |fs[d].ents|
  {
    var i := fs[d].ents[s].inum;
    i != 0 ==> (i in fs && if s == 1 then fs[i].kind == TDir else fs[i].kind == TDir ==> HomeAt(fs, home, i, d, s))
  }

  /** Directory `c` belongs at slot `s` of `d`: no other entry may name it. */
  predicate HomeAt(fs: Inodes, home: Home, c: nat, d: nat, s: nat)
    requires c in fs
  {
    c != ROOT && |fs[c].ents| >= 2 && fs[c].ents[1].inum == d && c in home && home[c] == s
  }

  /** A linked directory other than the root is named by its parent, which is linked. */
  predicate Hangs(fs: Inodes, home: Home, c: nat)
    requires Linked(fs, c)
  {
    |fs[c].ents| >= 2 &&
    if c == ROOT then fs[c].ents[1].inum == ROOT
    else c in home && home[c] >= 2 && Names(fs, fs[c].ents[1].inum, home[c], c)
  }

  ghost predicate Tree(fs: Inodes, home: Home) {
    Linked(fs, ROOT) && 0 !in fs &&
    (forall d {:trigger DirOk(fs, d)} | d in fs :: DirOk(fs, d)) &&
    (forall d, s {:trigger EntryOk(fs, home, d, s)} | Linked(fs, d) && 0 < s < |fs[d].ents| ::
       EntryOk(fs, home, d, s)) &&
    (forall c {:trigger Hangs(fs, home, c)} | Linked(fs, c) :: Hangs(fs, home, c))
  }

  /** How many sys_link calls have counted a link to each inode and not yet made its entry. */
  type Pending = map<nat, int>

  function Owing(pending: Pending, i: nat): int {
    if i in pending then pending[i] else 0
  }

  /** nlink counts the entries, plus links begun by sys_link whose entry is not there yet. */
  ghost predicate CountOk(fs: Inodes, pending: Pending, i: nat)
    requires i in fs
  {
    fs[i].nlink == |Refs(fs, i)| + Owing(pending, i)
  }

  ghost predicate Inv(fs: Inodes, home: Home, pending: Pending) {
    Tree(fs, home) && (forall i {:trigger CountOk(fs, pending, i)} | i in fs :: CountOk(fs, pending, i)) &&
    forall i | Owing(pending, i) != 0 :: i in fs && fs[i].kind != TDir && Owing(pending, i) > 0
  }

  // --- Looking up and adding entries ---

  /** dirlookup: the first live entry with that name from `s` on, or the end. */
  function LookupFrom(ents: seq<Dirent>, name: string, s: nat): (r: nat)
    requires s <= |ents|
    ensures s <= r <= |ents|
    ensures r < |ents| ==> ents[r].inum != 0 && ents[r].name == name
    ensures forall k | s <= k < r :: ents[k].inum == 0 || ents[k].name != name
    decreases |ents| - s
  {
    if s == |ents| || (ents[s].inum != 0 && ents[s].name == name) then s else LookupFrom(ents, name, s + 1)
  }

  /** Where dirlink puts a new entry: the first free one, or the end. */
  function FreeFrom(ents: seq<Dirent>, s: nat): (r: nat)
    requires s <= |ents|
    ensures s <= r <= |ents|
    ensures r < |ents| ==> ents[r].inum == 0
    ensures forall k | s <= k < r :: ents[k].inum != 0
    decreases |ents| - s
  {
    if s == |ents| || ents[s].inum == 0 then s else FreeFrom(ents, s + 1)
  }

  function PutEnt(ents: seq<Dirent>, s: nat, e: Dirent): (r: seq<Dirent>)
    requires s <= |ents|
    ensures |r| == if s == |ents| then |ents| + 1 else |ents|
    ensures forall k | 0 <= k < |r| :: r[k] == if k == s then e else ents[k]
  {
    if s == |ents| then ents + [e] else ents[s := e]
  }

  /** Directory `d` with an entry for `i`. */
  function WithEntry(fs: Inodes, d: nat, name: string, i: nat): Inodes
    requires d in fs
  {
    fs[d := fs[d].(ents := PutEnt(fs[d].ents, FreeFrom(fs[d].ents, 0), Dirent(i, name)))]
  }

  function WithLinks(fs: Inodes, i: nat, delta: int): Inodes
    requires i in fs
  {
    fs[i := fs[i].(nlink := fs[i].nlink + delta)]
  }

  // --- Changes to counts alone ---

  /** Same kinds, same entries, same directories linked. */
  ghost predicate SameShape(fs: Inodes, now: Inodes) {
    fs.Keys == now.Keys &&
    forall d | d in fs :: now[d].kind == fs[d].kind && now[d].ents == fs[d].ents && (Linked(now, d) <==> Linked(fs, d))
  }

  lemma SameRefs(fs: Inodes, now: Inodes, i: nat)
    requires SameShape(fs, now)
    ensures Refs(now, i) == Refs(fs, i)
  {
    forall d: nat, s: nat
      ensures (d, s) in Refs(now, i) <==> (d, s) in Refs(fs, i)
    {
      RefsAre(fs, i, d, s);
      RefsAre(now, i, d, s);
    }
  }

  lemma SameTree(fs: Inodes, now: Inodes, home: Home)
    requires Tree(fs, home) && SameShape(fs, now)
    ensures Tree(now, home)
  {
    forall d | d in now
      ensures DirOk(now, d)
    {
      assert DirOk(fs, d);
    }
    forall d, s | Linked(now, d) && 0 < s < |now[d].ents|
      ensures EntryOk(now, home, d, s)
    {
      assert EntryOk(fs, home, d, s);
    }
    forall c | Linked(now, c)
      ensures Hangs(now, home, c)
    {
      assert DirOk(fs, c) && Hangs(fs, home, c);
    }
  }

  lemma LinksMovedCount(fs: Inodes, pending: Pending, i: nat, delta: int, later: Pending, j: nat)
    requires i in fs && j in fs && SameShape(fs, WithLinks(fs, i, delta)) && CountOk(fs, pending, j)
    requires later == pending[i := Owing(pending, i) + delta]
    ensures CountOk(WithLinks(fs, i, delta), later, j)
  {
    SameRefs(fs, WithLinks(fs, i, delta), j);
  }

  /** sys_link's first half on a file, or its undo: the count and the pending links move together. */
  lemma LinksMoved(fs: Inodes, home: Home, pending: Pending, i: nat, delta: int)
    requires Inv(fs, home, pending) && i in fs && fs[i].kind != TDir && Owing(pending, i) + delta >= 0
    ensures Inv(WithLinks(fs, i, delta), home, pending[i := Owing(pending, i) + delta])
  {
    var now, later := WithLinks(fs, i, delta), pending[i := Owing(pending, i) + delta];
    assert SameShape(fs, now);
    SameTree(fs, now, home);
    forall j | j in now
      ensures CountOk(now, later, j)
    {
      assert CountOk(fs, pending, j);
      LinksMovedCount(fs, pending, i, delta, later, j);
    }
    PendingMoved(fs, pending, i, delta);
  }

  lemma PendingMoved(fs: Inodes, pending: Pending, i: nat, delta: int)
    requires i in fs && fs[i].kind != TDir && Owing(pending, i) + delta >= 0
    requires forall j | Owing(pending, j) != 0 :: j in fs && fs[j].kind != TDir && Owing(pending, j) > 0
    ensures var now, later := WithLinks(fs, i, delta), pending[i := Owing(pending, i) + delta];
            forall j | Owing(later, j) != 0 :: j in now && now[j].kind != TDir && Owing(later, j) > 0
  {
  }

  // --- New entries ---

  /** The slot dirlink fills comes after "." and "..". */
  lemma FreeSlot(fs: Inodes, d: nat)
    requires d in fs && fs[d].kind == TDir && DirOk(fs, d) && d != 0
    ensures FreeFrom(fs[d].ents, 0) >= 2
  {
  }

  /** An entry for a file that exists, under a name not in use. */
  lemma EntryAdded(fs: Inodes, home: Home, d: nat, name: string, i: nat)
    requires Tree(fs, home) && Linked(fs, d) && i in fs && fs[i].kind != TDir
    requires LookupFrom(fs[d].ents, name, 0) == |fs[d].ents|
    ensures Tree(WithEntry(fs, d, name, i), home)
  {
    var now := WithEntry(fs, d, name, i);
    assert DirOk(fs, d);
    FreeSlot(fs, d);
    forall e | e in now
      ensures DirOk(now, e)
    {
      assert DirOk(fs, e);
    }
    forall e, s | Linked(now, e) && 0 < s < |now[e].ents|
      ensures EntryOk(now, home, e, s)
    {
      assert (e == d && s == FreeFrom(fs[d].ents, 0)) || EntryOk(fs, home, e, s);
    }
    forall c | Linked(now, c)
      ensures Hangs(now, home, c)
    {
      assert Hangs(fs, home, c) && DirOk(fs, c);
    }
  }

  lemma EntryAddedRefs(fs: Inodes, home: Home, d: nat, name: string, i: nat, j: nat)
    requires Tree(fs, home) && Linked(fs, d) && i != 0 && j != 0
    ensures var s := FreeFrom(fs[d].ents, 0);
            (d, s) !in Refs(fs, j) &&
            Refs(WithEntry(fs, d, name, i), j) == if j == i then Refs(fs, j) + {(d, s)} else Refs(fs, j)
  {
    var now, s := WithEntry(fs, d, name, i), FreeFrom(fs[d].ents, 0);
    assert DirOk(fs, d);
    FreeSlot(fs, d);
    RefsAre(fs, j, d, s);
    forall e: nat, t: nat
      ensures (e, t) in Refs(now, j) <==> (e, t) in Refs(fs, j) || (j == i && (e, t) == (d, s))
    {
      RefsAre(fs, j, e, t);
      RefsAre(now, j, e, t);
    }
  }

  lemma LinkMadeCount(fs: Inodes, home: Home, pending: Pending, d: nat, name: string, i: nat, later: Pending, j: nat)
    requires Tree(fs, home) && Linked(fs, d) && i in fs && j in fs && i != 0 && j != 0 && fs[i].kind != TDir
    requires CountOk(fs, pending, j) && later == pending[i := Owing(pending, i) - 1]
    ensures CountOk(WithEntry(fs, d, name, i), later, j)
  {
    EntryAddedRefs(fs, home, d, name, i, j);
  }

  /** sys_link's second half: the entry the count was raised for. */
  lemma LinkMade(fs: Inodes, home: Home, pending: Pending, d: nat, name: string, i: nat)
    requires Inv(fs, home, pending) && Linked(fs, d) && Owing(pending, i) > 0
    requires LookupFrom(fs[d].ents, name, 0) == |fs[d].ents|
    ensures Inv(WithEntry(fs, d, name, i), home, pending[i := Owing(pending, i) - 1])
  {
    var now, later := WithEntry(fs, d, name, i), pending[i := Owing(pending, i) - 1];
    EntryAdded(fs, home, d, name, i);
    forall j | j in now
      ensures CountOk(now, later, j)
    {
      assert CountOk(fs, pending, j);
      LinkMadeCount(fs, home, pending, d, name, i, later, j);
    }
  }

  // --- create ---

  /** No entry names an inode that is not allocated. */
  lemma NoRefs(fs: Inodes, home: Home, i: nat)
    requires Tree(fs, home) && i !in fs && i != 0
    ensures Refs(fs, i) == {}
  {
    forall d: nat, s: nat
      ensures (d, s) !in Refs(fs, i)
    {
      RefsAre(fs, i, d, s);
      if Linked(fs, d) && 0 < s < |fs[d].ents| {
        assert EntryOk(fs, home, d, s);
      }
    }
  }

  lemma FileAllocatedTree(fs: Inodes, home: Home, i: nat, n: Ino)
    requires Tree(fs, home) && i !in fs && i != 0 && n.kind != TDir && n.ents == []
    ensures Tree(fs[i := n], home)
  {
    var now := fs[i := n];
    forall d | d in now
      ensures DirOk(now, d)
    {
      assert d == i || DirOk(fs, d);
    }
    forall d, s | Linked(now, d) && 0 < s < |now[d].ents|
      ensures EntryOk(now, home, d, s)
    {
      assert EntryOk(fs, home, d, s);
    }
    forall c | Linked(now, c)
      ensures Hangs(now, home, c)
    {
      assert Hangs(fs, home, c);
    }
  }

  lemma FileAllocatedRefs(fs: Inodes, home: Home, i: nat, n: Ino, j: nat)
    requires Tree(fs, home) && i !in fs && i != 0 && n.kind != TDir && j != 0
    ensures Refs(fs[i := n], j) == Refs(fs, j) && (j == i ==> Refs(fs, j) == {})
  {
    NoRefs(fs, home, i);
    forall d: nat, s: nat
      ensures (d, s) in Refs(fs[i := n], j) <==> (d, s) in Refs(fs, j)
    {
      RefsAre(fs, j, d, s);
      RefsAre(fs[i := n], j, d, s);
    }
  }

  /** A new file with one link and no entry yet. */
  lemma FileAllocated(fs: Inodes, home: Home, pending: Pending, i: nat, kind: Kind)
    requires Inv(fs, home, pending) && i !in fs && i != 0 && kind != TDir
    ensures Inv(fs[i := Ino(kind, 1, [])], home, pending[i := 1])
  {
    var n := Ino(kind, 1, []);
    var now, later := fs[i := n], pending[i := 1];
    FileAllocatedTree(fs, home, i, n);
    forall j | j in now
      ensures CountOk(now, later, j)
    {
      assert j == i || CountOk(fs, pending, j);
      FileAllocatedRefs(fs, home, i, n, j);
    }
  }

  /** create of a directory: its dots, one more link for the parent, and its entry there. */
  function WithDir(fs: Inodes, d: nat, name: string, i: nat): Inodes
    requires d in fs
  {
    var up := fs[d].(nlink := fs[d].nlink + 1, ents := PutEnt(fs[d].ents, FreeFrom(fs[d].ents, 0), Dirent(i, name)));
    fs[d := up][i := Ino(TDir, 1, [Dirent(i, "."), Dirent(d, "..")])]
  }

  lemma DirRefs(fs: Inodes, home: Home, d: nat, name: string, i: nat, j: nat)
    requires Tree(fs, home) && Linked(fs, d) && i !in fs && i != 0 && j != 0
    ensures var s := FreeFrom(fs[d].ents, 0);
            (i, 1) !in Refs(fs, j) &&
            Refs(WithDir(fs, d, name, i), j) ==
            if j == i then {(d, s)} else if j == d then Refs(fs, j) + {(i, 1)} else Refs(fs, j)
  {
    var now, s := WithDir(fs, d, name, i), FreeFrom(fs[d].ents, 0);
    assert DirOk(fs, d);
    FreeSlot(fs, d);
    NoRefs(fs, home, i);
    RefsAre(fs, j, i, 1);
    forall e: nat, t: nat
      ensures (e, t) in Refs(now, j) <==>
              if j == i then (e, t) == (d, s) else (e, t) in Refs(fs, j) || (j == d && (e, t) == (i, 1))
    {
      RefsAre(fs, j, e, t);
      RefsAre(fs, i, e, t);
      RefsAre(now, j, e, t);
    }
  }

  lemma DirAddedTree(fs: Inodes, home: Home, d: nat, name: string, i: nat)
    requires Tree(fs, home) && Linked(fs, d) && i !in fs && i != 0
    requires LookupFrom(fs[d].ents, name, 0) == |fs[d].ents|
    ensures Tree(WithDir(fs, d, name, i), home[i := FreeFrom(fs[d].ents, 0)])
  {
    var now, homes, s := WithDir(fs, d, name, i), home[i := FreeFrom(fs[d].ents, 0)], FreeFrom(fs[d].ents, 0);
    assert DirOk(fs, d);
    FreeSlot(fs, d);
    forall e | e in now
      ensures DirOk(now, e)
    {
      assert e == i || DirOk(fs, e);
    }
    forall e, t | Linked(now, e) && 0 < t < |now[e].ents|
      ensures EntryOk(now, homes, e, t)
    {
      if e != i && !(e == d && t == s) {
        assert EntryOk(fs, home, e, t);
        if fs[e].ents[t].inum != 0 {
          assert DirOk(fs, fs[e].ents[t].inum);
        }
      }
    }
    forall c | Linked(now, c)
      ensures Hangs(now, homes, c)
    {
      assert c == i || (Hangs(fs, home, c) && DirOk(fs, c));
    }
  }

  lemma DirMade(fs: Inodes, home: Home, pending: Pending, d: nat, name: string, i: nat)
    requires Inv(fs, home, pending) && Linked(fs, d) && i !in fs && i != 0
    requires LookupFrom(fs[d].ents, name, 0) == |fs[d].ents|
    ensures Inv(WithDir(fs, d, name, i), home[i := FreeFrom(fs[d].ents, 0)], pending)
  {
    var now := WithDir(fs, d, name, i);
    DirAddedTree(fs, home, d, name, i);
    forall j | j in now
      ensures CountOk(now, pending, j)
    {
      assert j == i || CountOk(fs, pending, j);
      DirRefs(fs, home, d, name, i, j);
    }
  }

  // --- sys_unlink ---

  /** The entry cleared; an unlinked directory takes its parent's link with it. */
  function WithoutEntry(fs: Inodes, d: nat, s: nat): Inodes
    requires d in fs && s < |fs[d].ents| && fs[d].ents[s].inum in fs
  {
    var i := fs[d].ents[s].inum;
    var down := if fs[i].kind == TDir then 1 else 0;
    var cut := fs[d := fs[d].(nlink := fs[d].nlink - down, ents := fs[d].ents[s := NOENT])];
    cut[i := cut[i].(nlink := cut[i].nlink - 1)]
  }

  /** isdirempty: nothing but the dots. */
  predicate Bare(ents: seq<Dirent>) {
    forall k | 2 <= k < |ents| :: ents[k].inum == 0
  }

  /** What sys_unlink removes: a name other than the dots, of a file or of an empty directory. */
  predicate Removable(fs: Inodes, d: nat, name: string)
    requires d in fs
  {
    var s := LookupFrom(fs[d].ents, name, 0);
    name != "." && name != ".." && s < |fs[d].ents| && fs[d].ents[s].inum in fs &&
    (fs[fs[d].ents[s].inum].kind == TDir ==> Bare(fs[fs[d].ents[s].inum].ents))
  }

  /** An empty directory is named once, by its entry in its parent, and its own ".." is one link to the parent. */
  lemma BareRefs(fs: Inodes, home: Home, d: nat, s: nat, i: nat)
    requires Tree(fs, home) && Names(fs, d, s, i) && s >= 2 && i in fs && fs[i].kind == TDir && Linked(fs, i) &&
             Bare(fs[i].ents)
    ensures Refs(fs, i) == {(d, s)} && i != ROOT && i != d && (i, 1) in Refs(fs, d) && (i, 1) != (d, s)
  {
    assert EntryOk(fs, home, d, s) && DirOk(fs, i);
    RefsAre(fs, d, i, 1);
    forall e: nat, t: nat
      ensures (e, t) in Refs(fs, i) <==> (e, t) == (d, s)
    {
      RefsAre(fs, i, e, t);
      if Linked(fs, e) && 0 < t < |fs[e].ents| {
        assert EntryOk(fs, home, e, t) && DirOk(fs, e) && Hangs(fs, home, e);
      }
    }
  }

  lemma UnlinkFileTree(fs: Inodes, home: Home, d: nat, s: nat)
    requires Tree(fs, home) && Linked(fs, d) && 2 <= s < |fs[d].ents| && fs[d].ents[s].inum in fs
    requires fs[fs[d].ents[s].inum].kind != TDir
    ensures Tree(WithoutEntry(fs, d, s), home)
  {
    var now := WithoutEntry(fs, d, s);
    forall e | e in now
      ensures DirOk(now, e)
    {
      assert DirOk(fs, e);
    }
    forall e, t | Linked(now, e) && 0 < t < |now[e].ents|
      ensures EntryOk(now, home, e, t)
    {
      assert EntryOk(fs, home, e, t);
      if fs[e].ents[t].inum in fs {
        assert DirOk(fs, fs[e].ents[t].inum);
      }
    }
    forall c | Linked(now, c)
      ensures Hangs(now, home, c)
    {
      assert Hangs(fs, home, c) && DirOk(fs, c);
    }
  }

  lemma UnlinkFileRefs(fs: Inodes, d: nat, s: nat, j: nat)
    requires Linked(fs, d) && 2 <= s < |fs[d].ents| && fs[d].ents[s].inum in fs && j != 0
    requires fs[fs[d].ents[s].inum].kind != TDir
    ensures Refs(WithoutEntry(fs, d, s), j) == Refs(fs, j) - {(d, s)}
    ensures (d, s) in Refs(fs, j) <==> j == fs[d].ents[s].inum
  {
    var now := WithoutEntry(fs, d, s);
    RefsAre(fs, j, d, s);
    forall e: nat, t: nat
      ensures (e, t) in Refs(now, j) <==> (e, t) in Refs(fs, j) && (e, t) != (d, s)
    {
      RefsAre(fs, j, e, t);
      RefsAre(now, j, e, t);
    }
  }

  lemma FileUnlinked(fs: Inodes, home: Home, pending: Pending, d: nat, s: nat)
    requires Inv(fs, home, pending) && Linked(fs, d) && 2 <= s < |fs[d].ents| && fs[d].ents[s].inum in fs
    requires fs[fs[d].ents[s].inum].kind != TDir
    ensures fs[fs[d].ents[s].inum].nlink >= 1 && Inv(WithoutEntry(fs, d, s), home, pending)
  {
    var now, i := WithoutEntry(fs, d, s), fs[d].ents[s].inum;
    UnlinkFileTree(fs, home, d, s);
    UnlinkFileRefs(fs, d, s, i);
    assert CountOk(fs, pending, i);
    forall j | j in now
      ensures CountOk(now, pending, j)
    {
      assert CountOk(fs, pending, j) && DirOk(fs, j);
      FileUncounted(fs, pending, d, s, j);
    }
  }

  lemma FileUncounted(fs: Inodes, pending: Pending, d: nat, s: nat, j: nat)
    requires Linked(fs, d) && 2 <= s < |fs[d].ents| && fs[d].ents[s].inum in fs && j != 0
    requires fs[fs[d].ents[s].inum].kind != TDir && j in fs && CountOk(fs, pending, j)
    requires fs[fs[d].ents[s].inum].nlink >= 1
    ensures CountOk(WithoutEntry(fs, d, s), pending, j)
  {
    UnlinkFileRefs(fs, d, s, j);
  }

  /** Removing an empty directory: its links and its parent's. */
  lemma UnlinkDirRefs(fs: Inodes, home: Home, d: nat, s: nat, i: nat, j: nat)
    requires Tree(fs, home) && Names(fs, d, s, i) && s >= 2 && i in fs && fs[i].kind == TDir && Bare(fs[i].ents)
    requires fs[i].nlink == 1 && fs[d].nlink >= 2 && j != 0
    ensures Refs(WithoutEntry(fs, d, s), j) ==
            if j == i then {} else if j == d then Refs(fs, j) - {(i, 1)} else Refs(fs, j)
  {
    var now := WithoutEntry(fs, d, s);
    BareRefs(fs, home, d, s, i);
    assert EntryOk(fs, home, d, s);
    forall e: nat, t: nat
      ensures (e, t) in Refs(now, j) <==> j != i && (e, t) in Refs(fs, j) && !(j == d && (e, t) == (i, 1))
    {
      RefsAre(fs, j, e, t);
      RefsAre(fs, i, e, t);
      RefsAre(now, j, e, t);
    }
  }

  lemma UnlinkDirTree(fs: Inodes, home: Home, d: nat, s: nat, i: nat)
    requires Tree(fs, home) && Names(fs, d, s, i) && s >= 2 && i in fs && fs[i].kind == TDir && Bare(fs[i].ents)
    requires fs[i].nlink == 1 && fs[d].nlink >= 2
    ensures Tree(WithoutEntry(fs, d, s), home)
  {
    var now := WithoutEntry(fs, d, s);
    BareRefs(fs, home, d, s, i);
    forall e | e in now
      ensures DirOk(now, e)
    {
      assert DirOk(fs, e);
    }
    forall e, t | Linked(now, e) && 0 < t < |now[e].ents|
      ensures EntryOk(now, home, e, t)
    {
      assert EntryOk(fs, home, e, t);
      if fs[e].ents[t].inum in fs {
        assert DirOk(fs, fs[e].ents[t].inum);
      }
    }
    forall c | Linked(now, c)
      ensures Hangs(now, home, c)
    {
      HangsStill(fs, home, d, s, i, c);
    }
  }

  /** No other linked directory hangs in the one removed. */
  lemma HangsStill(fs: Inodes, home: Home, d: nat, s: nat, i: nat, c: nat)
    requires Tree(fs, home) && Names(fs, d, s, i) && s >= 2 && i in fs && fs[i].kind == TDir && Bare(fs[i].ents)
    requires fs[i].nlink == 1 && fs[d].nlink >= 2 && Linked(fs, c) && c != i && i != d
    ensures Hangs(WithoutEntry(fs, d, s), home, c)
  {
    assert Hangs(fs, home, c) && DirOk(fs, c) && DirOk(fs, i);
  }

  /** rmdir: both counts come out right, and the parent stays linked. */
  lemma DirUnlinked(fs: Inodes, home: Home, pending: Pending, d: nat, s: nat, i: nat)
    requires Inv(fs, home, pending) && Names(fs, d, s, i) && s >= 2 && i in fs && fs[i].kind == TDir && Bare(fs[i].ents)
    ensures fs[i].nlink == 1 && fs[d].nlink >= 2 && Inv(WithoutEntry(fs, d, s), home, pending)
  {
    DirCounts(fs, home, pending, d, s, i);
    var now := WithoutEntry(fs, d, s);
    BareRefs(fs, home, d, s, i);
    UnlinkDirTree(fs, home, d, s, i);
    forall j | j in now
      ensures CountOk(now, pending, j)
    {
      assert CountOk(fs, pending, j);
      UnlinkDirRefs(fs, home, d, s, i, j);
    }
  }

  /** A named directory is linked; an empty one has one link, its parent at least two. */
  lemma DirCounts(fs: Inodes, home: Home, pending: Pending, d: nat, s: nat, i: nat)
    requires Inv(fs, home, pending) && Names(fs, d, s, i) && s >= 2 && i in fs && fs[i].kind == TDir
    ensures Linked(fs, i)
    ensures Bare(fs[i].ents) ==> fs[i].nlink == 1 && fs[d].nlink >= 2
  {
    RefsAre(fs, i, d, s);
    assert CountOk(fs, pending, i) && CountOk(fs, pending, d);
    assert |Refs(fs, i)| >= 1 by {
      assert {(d, s)} <= Refs(fs, i);
      Smaller({(d, s)}, Refs(fs, i));
    }
    if Bare(fs[i].ents) {
      BareRefs(fs, home, d, s, i);
      assert DirOk(fs, d) && Hangs(fs, home, d);
      var up := if d == ROOT then (ROOT, 1) else (fs[d].ents[1].inum, home[d]);
      RefsAre(fs, d, up.0, up.1);
      Smaller({(i, 1), up}, Refs(fs, d));
    }
  }

  lemma {:induction false} Smaller(a: set<(nat, nat)>, b: set<(nat, nat)>)
    requires a <= b
    ensures |a| <= |b|
    decreases b
  {
    if b != {} {
      var x :| x in b;
      Smaller(a - {x}, b - {x});
    }
  }

  // --- iput of an inode without links ---

  /** An inode whose count reached 0 is named by nothing and can go. */
  lemma Freed(fs: Inodes, home: Home, pending: Pending, i: nat)
    requires Inv(fs, home, pending) && i in fs && fs[i].nlink == 0
    ensures Refs(fs, i) == {} && Inv(fs - {i}, home, pending)
  {
    assert CountOk(fs, pending, i);
    var now := fs - {i};
    forall j: nat | j != 0
      ensures Refs(now, j) == Refs(fs, j)
    {
      forall d: nat, s: nat
        ensures (d, s) in Refs(now, j) <==> (d, s) in Refs(fs, j)
      {
        RefsAre(fs, j, d, s);
        RefsAre(now, j, d, s);
      }
    }
    FreedTree(fs, home, i);
    forall j | j in now
      ensures CountOk(now, pending, j)
    {
      assert CountOk(fs, pending, j);
    }
  }

  lemma FreedTree(fs: Inodes, home: Home, i: nat)
    requires Tree(fs, home) && i in fs && fs[i].nlink <= 0 && Refs(fs, i) == {}
    ensures Tree(fs - {i}, home)
  {
    var now := fs - {i};
    forall d | d in now
      ensures DirOk(now, d)
    {
      assert DirOk(fs, d);
    }
    forall d, s | Linked(now, d) && 0 < s < |now[d].ents|
      ensures EntryOk(now, home, d, s)
    {
      assert EntryOk(fs, home, d, s);
      RefsAre(fs, i, d, s);
    }
    forall c | Linked(now, c)
      ensures Hangs(now, home, c)
    {
      assert Hangs(fs, home, c);
    }
  }

  // --- What may be removed ---

  /** Nothing but the dots is found by name in directory `i`. */
  ghost predicate OnlyDots(fs: Inodes, i: nat)
    requires i in fs
  {
    forall name | name != "." && name != ".." :: LookupFrom(fs[i].ents, name, 0) == |fs[i].ents|
  }

  /** A directory counts as empty exactly then, however many cleared entries it holds. */
  lemma BareExactly(fs: Inodes, home: Home, i: nat)
    requires Tree(fs, home) && i in fs && fs[i].kind == TDir
    ensures Bare(fs[i].ents) <==> OnlyDots(fs, i)
  {
    var e := fs[i].ents;
    assert DirOk(fs, i);
    if !Bare(e) {
      var k :| 2 <= k < |e| && e[k].inum != 0;
      assert e[k].name != e[0].name && e[k].name != e[1].name;
      assert LookupFrom(e, e[k].name, 0) <= k;
    }
  }

  /** sys_unlink removes a name exactly if it is no dot, is there, and is not a directory where others are found. */
  lemma RemovableExactly(fs: Inodes, home: Home, d: nat, name: string)
    requires Tree(fs, home) && Linked(fs, d)
    ensures Removable(fs, d, name) <==>
              name != "." && name != ".." &&
              exists s ::
                0 <= s < |fs[d].ents| && fs[d].ents[s].inum in fs && fs[d].ents[s].name == name &&
                (fs[fs[d].ents[s].inum].kind == TDir ==> OnlyDots(fs, fs[d].ents[s].inum))
  {
    var e := fs[d].ents;
    var s := LookupFrom(e, name, 0);
    assert DirOk(fs, d);
    if name != "." && name != ".." && s < |e| {
      assert EntryOk(fs, home, d, s);
      if fs[e[s].inum].kind == TDir {
        BareExactly(fs, home, e[s].inum);
      }
      forall r | 0 <= r < |e| && e[r].inum in fs && e[r].name == name
        ensures r == s
      {
      }
    }
  }

  // --- What is found by name ---

  /** The inode a name stands for in a directory, or 0. */
  function Named(ents: seq<Dirent>, name: string): nat {
    var s := LookupFrom(ents, name, 0);
    if s < |ents| then ents[s].inum else 0
  }

  lemma {:induction false} LookupSame(a: seq<Dirent>, b: seq<Dirent>, name: string, s: nat)
    requires s <= |a| <= |b|
    requires forall k | s <= k < |a| :: (a[k].inum != 0 && a[k].name == name) <==> (b[k].inum != 0 && b[k].name == name)
    requires forall k | |a| <= k < |b| :: b[k].inum == 0 || b[k].name != name
    ensures LookupFrom(a, name, s) < |a| ==> LookupFrom(b, name, s) == LookupFrom(a, name, s)
    ensures LookupFrom(a, name, s) == |a| ==> LookupFrom(b, name, s) == |b|
    decreases |a| - s
  {
    if s < |a| && !(a[s].inum != 0 && a[s].name == name) {
      LookupSame(a, b, name, s + 1);
    }
  }

  /** dirlink: the name stands for the inode now, and every other for what it stood for. */
  lemma EntryNamed(fs: Inodes, d: nat, name: string, i: nat, other: string)
    requires d in fs && i != 0 && LookupFrom(fs[d].ents, name, 0) == |fs[d].ents|
    ensures Named(WithEntry(fs, d, name, i)[d].ents, other) == if other == name then i else Named(fs[d].ents, other)
  {
    var a, b := fs[d].ents, WithEntry(fs, d, name, i)[d].ents;
    var s := FreeFrom(a, 0);
    assert b[s] == Dirent(i, name);
    if other == name {
      assert LookupFrom(b, name, 0) <= s;
    } else {
      LookupSame(a, b, other, 0);
    }
  }

  /** sys_unlink: the name stands for nothing now, and every other for what it stood for. */
  lemma EntryUnnamed(fs: Inodes, d: nat, s: nat, other: string)
    requires d in fs && s < |fs[d].ents| && fs[d].ents[s].inum in fs && fs[d].ents[s].inum != 0
    requires NamesApart(fs[d].ents)
    ensures Named(WithoutEntry(fs, d, s)[d].ents, other) ==
            if other == fs[d].ents[s].name then 0 else Named(fs[d].ents, other)
  {
    var a, b := fs[d].ents, WithoutEntry(fs, d, s)[d].ents;
    assert b == a[s := NOENT];
    if other == a[s].name {
      assert forall k | 0 <= k < |b| :: b[k].inum == 0 || b[k].name != other;
    } else {
      LookupSame(a, b, other, 0);
    }
  }

  /** mkdir: the name stands for the new directory, whose dots stand for itself and its parent. */
  lemma DirNamed(fs: Inodes, d: nat, name: string, i: nat, other: string)
    requires d in fs && i !in fs && i != 0 && d != 0 && LookupFrom(fs[d].ents, name, 0) == |fs[d].ents|
    ensures var now := WithDir(fs, d, name, i);
            d in now && i in now &&
            Named(now[d].ents, other) == (if other == name then i else Named(fs[d].ents, other)) &&
            Named(now[i].ents, other) == (if other == "." then i else if other == ".." then d else 0)
  {
    EntryNamed(fs, d, name, i, other);
    var e := WithDir(fs, d, name, i)[i].ents;
    assert |e| == 2 && e[0] == Dirent(i, ".") && e[1] == Dirent(d, "..");
  }
}
