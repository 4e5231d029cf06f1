/** Who holds which inode open, and what that means for counters, memory and sectors. */
module InodeTable {
  import opened Prelude

  datatype DiskInode = DiskInode(start: nat, length: nat)

  /** An inode in memory. */
  datatype Inode = Inode(sector: nat, openCnt: nat, removed: bool, denyWriteCnt: nat, data: DiskInode)

  datatype File = File(inode: nat, denyWrite: bool)

  // Inodes and files are known by their addresses.
  type Inodes = map<nat, Inode>
  type Files = map<nat, File>
  type Disk = map<nat, DiskInode>

  // ---------------------------------------------------------------------
  // Counting holders.

  ghost function Holders(files: Files, a: nat): set<nat> {
    set f | f in files && files[f].inode == a
  }

  ghost function Deniers(files: Files, a: nat): set<nat> {
    set f | f in files && files[f].inode == a && files[f].denyWrite
  }

  /** The inode's counters count its openers: bare references and files. */
  ghost predicate InodeOk(a: nat, inode: Inode, files: Files, refs: multiset<nat>) {
    && inode.openCnt == refs[a] + |Holders(files, a)| && inode.openCnt > 0
    && inode.denyWriteCnt == |Deniers(files, a)|
  }

  ghost predicate CountsOk(inodes: Inodes, files: Files, refs: multiset<nat>) {
    && (forall a {:trigger InodeOk(a, inodes[a], files, refs)} :: a in inodes ==> InodeOk(a, inodes[a], files, refs))
    && (forall f :: f in files ==> files[f].inode in inodes)
    && (forall a :: a in refs ==> a in inodes)
  }

  /** No more files deny writes than hold the inode open. */
  lemma DeniersFew(a: nat, inode: Inode, files: Files, refs: multiset<nat>)
    requires InodeOk(a, inode, files, refs)
    ensures inode.denyWriteCnt <= inode.openCnt
  {
    SubsetCard(Deniers(files, a), Holders(files, a));
  }

  lemma SubsetCard(s: set<nat>, t: set<nat>)
    requires s <= t
    ensures |s| <= |t|
  {
    assert |t - s| == |t| - |s|;
  }

  /** Holders of other inodes do not notice a change to one file. */
  lemma OthersSame(files: Files, f: nat, file: File, b: nat)
    requires file.inode != b && (f in files ==> files[f].inode != b)
    ensures Holders(files[f := file], b) == Holders(files, b) == Holders(files - {f}, b)
    ensures Deniers(files[f := file], b) == Deniers(files, b) == Deniers(files - {f}, b)
  {
  }

  // ---------------------------------------------------------------------
  // Steps on the counters.

  /** The inode with other counts. */
  function Counted(inodes: Inodes, a: nat, openCnt: nat, denyWriteCnt: nat): Inodes
    requires a in inodes
  {
    inodes[a := inodes[a].(openCnt := openCnt, denyWriteCnt := denyWriteCnt)]
  }

  lemma RefAdded(inodes: Inodes, files: Files, refs: multiset<nat>, a: nat)
    requires CountsOk(inodes, files, refs) && a in inodes
    ensures CountsOk(Counted(inodes, a, inodes[a].openCnt + 1, inodes[a].denyWriteCnt), files, refs + multiset{a})
  {
    forall b | b in inodes ensures InodeOk(b, inodes[b], files, refs) {
    }
  }

  lemma InodeAdded(inodes: Inodes, files: Files, refs: multiset<nat>, a: nat, sector: nat, data: DiskInode)
    requires CountsOk(inodes, files, refs) && a !in inodes
    ensures CountsOk(inodes[a := Inode(sector, 1, false, 0, data)], files, refs + multiset{a})
  {
    assert Holders(files, a) == {} && Deniers(files, a) == {} && refs[a] == 0;
    forall b | b in inodes ensures InodeOk(b, inodes[b], files, refs) {
    }
  }

  lemma RefDropped(inodes: Inodes, files: Files, refs: multiset<nat>, a: nat)
    requires CountsOk(inodes, files, refs) && refs[a] > 0
    ensures a in inodes && 0 < inodes[a].openCnt
    ensures inodes[a].openCnt > 1 ==>
      CountsOk(Counted(inodes, a, inodes[a].openCnt - 1, inodes[a].denyWriteCnt), files, refs - multiset{a})
    ensures inodes[a].openCnt == 1 ==> CountsOk(inodes - {a}, files, refs - multiset{a}) && inodes[a].denyWriteCnt == 0
  {
    forall b | b in inodes ensures InodeOk(b, inodes[b], files, refs) {
    }
    if inodes[a].openCnt == 1 {
      assert Holders(files, a) == {};
      assert Deniers(files, a) == {};
      assert forall f :: f in files ==> f !in Holders(files, a);
    }
  }

  lemma RefToFile(inodes: Inodes, files: Files, refs: multiset<nat>, a: nat, f: nat)
    requires CountsOk(inodes, files, refs) && refs[a] > 0 && f !in files
    ensures CountsOk(inodes, files[f := File(a, false)], refs - multiset{a})
  {
    var after := files[f := File(a, false)];
    assert Holders(after, a) == Holders(files, a) + {f} && Deniers(after, a) == Deniers(files, a);
    forall b | b in inodes ensures InodeOk(b, inodes[b], after, refs - multiset{a}) {
      assert InodeOk(b, inodes[b], files, refs);
      if b != a {
        OthersSame(files, f, File(a, false), b);
      }
    }
  }

  lemma FileToRef(inodes: Inodes, files: Files, refs: multiset<nat>, f: nat)
    requires CountsOk(inodes, files, refs) && f in files && !files[f].denyWrite
    ensures CountsOk(inodes, files - {f}, refs + multiset{files[f].inode})
  {
    var a, after := files[f].inode, files - {f};
    assert Holders(after, a) == Holders(files, a) - {f} && Deniers(after, a) == Deniers(files, a);
    forall b | b in inodes ensures InodeOk(b, inodes[b], after, refs + multiset{a}) {
      assert InodeOk(b, inodes[b], files, refs);
      if b != a {
        OthersSame(files, f, File(a, false), b);
      }
    }
  }

  /** Setting or clearing a file's flag moves its inode's count by one. */
  lemma FlagMoved(inodes: Inodes, files: Files, refs: multiset<nat>, f: nat)
    requires CountsOk(inodes, files, refs) && f in files && files[f].inode in inodes
    ensures var a := files[f].inode; var inode := inodes[a];
            if files[f].denyWrite
            then 0 < inode.denyWriteCnt <= inode.openCnt &&
                 CountsOk(Counted(inodes, a, inode.openCnt, inode.denyWriteCnt - 1), files[f := File(a, false)], refs)
            else inode.denyWriteCnt + 1 <= inode.openCnt &&
                 CountsOk(Counted(inodes, a, inode.openCnt, inode.denyWriteCnt + 1), files[f := File(a, true)], refs)
  {
    var a := files[f].inode;
    var after := files[f := File(a, !files[f].denyWrite)];
    assert InodeOk(a, inodes[a], files, refs);
    assert Holders(after, a) == Holders(files, a);
    if files[f].denyWrite {
      assert Deniers(after, a) == Deniers(files, a) - {f} && f in Deniers(files, a);
    } else {
      assert Deniers(after, a) == Deniers(files, a) + {f};
      SubsetCard(Deniers(after, a), Holders(after, a));
    }
    DeniersFew(a, inodes[a], files, refs);
    forall b | b in inodes && b != a ensures InodeOk(b, inodes[b], after, refs) {
      assert InodeOk(b, inodes[b], files, refs);
      OthersSame(files, f, after[f], b);
    }
  }
}
