/** The system calls of sysfile.c that change link counts, step by lock-protected step. */
module LinkCode {
  import opened LinkCounts

  class Namespace {
    var fs: Inodes
    ghost var home: Home
    ghost var pending: Pending

    ghost predicate Valid()
      reads this
    {
      Inv(fs, home, pending)
    }

    /** An empty root, whose dots both name itself. */
    constructor ()
      ensures Valid() && fs == map[ROOT := Ino(TDir, 1, [Dirent(ROOT, "."), Dirent(ROOT, "..")])]
    {
      fs := map[ROOT := Ino(TDir, 1, [Dirent(ROOT, "."), Dirent(ROOT, "..")])];
      home, pending := map[], map[];
      new;
      forall d: nat, s: nat
        ensures (d, s) in Refs(fs, ROOT) <==> (d, s) == (ROOT, 1)
      {
        RefsAre(fs, ROOT, d, s);
      }
      assert Refs(fs, ROOT) == {(ROOT, 1)};
      assert CountOk(fs, pending, ROOT) && DirOk(fs, ROOT) && EntryOk(fs, home, ROOT, 1) && Hangs(fs, home, ROOT);
    }

    /** dirlookup: the slot of the entry, or the end of the directory. */
    method DirLookup(d: nat, name: string) returns (s: nat)
      requires d in fs
      ensures s == LookupFrom(fs[d].ents, name, 0)
    {
      s := 0;
      while s < |fs[d].ents|
        invariant s <= |fs[d].ents| && LookupFrom(fs[d].ents, name, s) == LookupFrom(fs[d].ents, name, 0)
      {
        if fs[d].ents[s].inum != 0 && fs[d].ents[s].name == name {
          return;
        }
        s := s + 1;
      }
    }

    /** dirlink: refused when the name is there; otherwise the first free slot. */
    method DirLink(d: nat, name: string, i: nat) returns (ok: bool)
      requires d in fs
      modifies this`fs
      ensures ok <==> LookupFrom(old(fs)[d].ents, name, 0) == |old(fs)[d].ents|
      ensures fs == if ok then WithEntry(old(fs), d, name, i) else old(fs)
    {
      var at := DirLookup(d, name);
      if at < |fs[d].ents| {
        return false;
      }
      var s := 0;
      while s < |fs[d].ents| && fs[d].ents[s].inum != 0
        invariant s <= |fs[d].ents| && FreeFrom(fs[d].ents, s) == FreeFrom(fs[d].ents, 0)
      {
        s := s + 1;
      }
      fs := fs[d := fs[d].(ents := PutEnt(fs[d].ents, s, Dirent(i, name)))];
      ok := true;
    }

    method IsDirEmpty(d: nat) returns (empty: bool)
      requires d in fs
      ensures empty <==> Bare(fs[d].ents)
    {
      var s := 2;
      while s < |fs[d].ents|
        invariant 2 <= s && forall k | 2 <= k < s && k < |fs[d].ents| :: fs[d].ents[k].inum == 0
      {
        if fs[d].ents[s].inum != 0 {
          return false;
        }
        s := s + 1;
      }
      empty := true;
    }

    /** sys_link up to the release of the inode: directories are refused. */
    method LinkBegin(i: nat) returns (ok: bool)
      requires Valid() && i in fs
      modifies this`fs, this`pending
      ensures Valid() && ok == (old(fs)[i].kind != TDir)
      ensures fs == if ok then WithLinks(old(fs), i, 1) else old(fs)
      ensures pending == if ok then old(pending)[i := Owing(old(pending), i) + 1] else old(pending)
    {
      if fs[i].kind == TDir {
        return false;
      }
      LinksMoved(fs, home, pending, i, 1);
      fs := fs[i := fs[i].(nlink := fs[i].nlink + 1)];
      pending := pending[i := Owing(pending, i) + 1];
      ok := true;
    }

    /** The rest of sys_link: the entry in the parent `d`, or with no parent or a name in use, the undo. */
    method LinkEnd(i: nat, parent: bool, d: nat, name: string) returns (ok: bool)
      requires Valid() && Owing(pending, i) > 0 && (parent ==> Linked(fs, d))
      modifies this`fs, this`pending
      ensures Valid() && pending == old(pending)[i := Owing(old(pending), i) - 1]
      ensures ok <==> parent && LookupFrom(old(fs)[d].ents, name, 0) == |old(fs)[d].ents|
      ensures fs == if ok then WithEntry(old(fs), d, name, i) else WithLinks(old(fs), i, -1)
    {
      ok := false;
      ghost var was := fs;
      if parent {
        ok := DirLink(d, name, i);
      }
      if ok {
        LinkMade(was, home, pending, d, name, i);
      } else {
        LinksMoved(fs, home, pending, i, -1);
        fs := fs[i := fs[i].(nlink := fs[i].nlink - 1)];
      }
      pending := pending[i := Owing(pending, i) - 1];
    }

    /** sys_unlink in parent `d`; its panic over a missing link cannot happen. */
    method Unlink(d: nat, name: string) returns (ok: bool)
      requires Valid() && d in fs && fs[d].kind == TDir
      modifies this`fs
      ensures Valid()
      ensures ok <==> Removable(old(fs), d, name)
      ensures !ok ==> fs == old(fs)
      ensures var s := LookupFrom(old(fs)[d].ents, name, 0);
              ok ==> 2 <= s && old(fs)[old(fs)[d].ents[s].inum].nlink >= 1 && fs == WithoutEntry(old(fs), d, s)
    {
      if name == "." || name == ".." {
        return false;
      }
      var s := DirLookup(d, name);
      if s == |fs[d].ents| {
        return false;
      }
      var i := fs[d].ents[s].inum;
      Found(fs, home, d, name, s, i);
      if fs[i].kind == TDir {
        assert DirOk(fs, i);
        var empty := IsDirEmpty(i);
        if !empty {
          return false;
        }
        DirUnlinked(fs, home, pending, d, s, i);
        BareRefs(fs, home, d, s, i);
      } else {
        FileUnlinked(fs, home, pending, d, s);
      }
      ghost var was := fs;
      fs := fs[d := fs[d].(ents := fs[d].ents[s := NOENT])];
      if fs[i].kind == TDir {
        fs := fs[d := fs[d].(nlink := fs[d].nlink - 1)];
      }
      fs := fs[i := fs[i].(nlink := fs[i].nlink - 1)];
      assert fs == WithoutEntry(was, d, s);
      ok := true;
    }

    /** create in parent `d`: an existing file is reused for a file; otherwise inode `i`, which ialloc found free. */
    method Create(d: nat, name: string, kind: Kind, i: nat) returns (r: nat)
      requires Valid() && Linked(fs, d) && i !in fs && i != 0 && Owing(pending, i) == 0
      modifies this`fs, this`home, this`pending
      ensures Valid() && forall j :: Owing(pending, j) == Owing(old(pending), j)
      ensures var s := LookupFrom(old(fs)[d].ents, name, 0);
              if s == |old(fs)[d].ents| then
                r == i && fs == if kind == TDir then WithDir(old(fs), d, name, i)
                                else WithEntry(old(fs)[i := Ino(kind, 1, [])], d, name, i)
              else
                var j := old(fs)[d].ents[s].inum;
                fs == old(fs) && r == if kind == TFile && j in old(fs) && old(fs)[j].kind == TFile then j else 0
    {
      var s := DirLookup(d, name);
      if s < |fs[d].ents| {
        r := fs[d].ents[s].inum;
        AnyEntry(fs, home, d, s);
        if !(kind == TFile && fs[r].kind == TFile) {
          r := 0;
        }
        return;
      }
      if kind == TDir {
        NewDir(d, name, i);
      } else {
        NewFile(d, name, kind, i);
      }
      r := i;
    }

    method NewFile(d: nat, name: string, kind: Kind, i: nat)
      requires Valid() && Linked(fs, d) && i !in fs && i != 0 && kind != TDir && Owing(pending, i) == 0
      requires LookupFrom(fs[d].ents, name, 0) == |fs[d].ents|
      modifies this`fs, this`pending
      ensures Valid() && forall j :: Owing(pending, j) == Owing(old(pending), j)
      ensures fs == WithEntry(old(fs)[i := Ino(kind, 1, [])], d, name, i)
    {
      FileAllocated(fs, home, pending, i, kind);
      LinkMade(fs[i := Ino(kind, 1, [])], home, pending[i := 1], d, name, i);
      fs := fs[i := Ino(kind, 1, [])];
      var _ := DirLink(d, name, i);
      pending := pending[i := 1][i := 0];
    }

    method NewDir(d: nat, name: string, i: nat)
      requires Valid() && Linked(fs, d) && i !in fs && i != 0
      requires LookupFrom(fs[d].ents, name, 0) == |fs[d].ents|
      modifies this`fs, this`home
      ensures Valid() && fs == WithDir(old(fs), d, name, i)
    {
      DirMade(fs, home, pending, d, name, i);
      ghost var s := FreeFrom(fs[d].ents, 0);
      fs := fs[i := Ino(TDir, 1, [])];
      fs := fs[d := fs[d].(nlink := fs[d].nlink + 1)];
      var _ := DirLink(i, ".", i);
      var _ := DirLink(i, "..", d);
      assert fs[i].ents == [Dirent(i, "."), Dirent(d, "..")];
      var _ := DirLink(d, name, i);
      assert fs == WithDir(old(fs), d, name, i);
      home := home[i := s];
    }

    /** iput on the last reference: an inode without links goes. */
    method Free(i: nat)
      requires Valid() && i in fs && fs[i].nlink == 0
      modifies this`fs
      ensures Valid() && fs == old(fs) - {i}
    {
      Freed(fs, home, pending, i);
      fs := fs - {i};
    }
  }

  /** What dirlookup finds under a name other than the dots. */
  lemma Found(fs: Inodes, home: Home, d: nat, name: string, s: nat, i: nat)
    requires Tree(fs, home) && d in fs && fs[d].kind == TDir && name != "." && name != ".."
    requires s < |fs[d].ents| && fs[d].ents[s] == Dirent(i, name) && i != 0
    ensures s >= 2 && Names(fs, d, s, i) && i in fs
  {
    assert DirOk(fs, d);
    if Linked(fs, d) {
      assert EntryOk(fs, home, d, s);
    }
  }

  lemma AnyEntry(fs: Inodes, home: Home, d: nat, s: nat)
    requires Tree(fs, home) && Linked(fs, d) && s < |fs[d].ents| && fs[d].ents[s].inum != 0
    ensures fs[d].ents[s].inum in fs
  {
    assert DirOk(fs, d);
    if s > 0 {
      assert EntryOk(fs, home, d, s);
    }
  }
}
