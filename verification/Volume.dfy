/** A mounted volume with its open files and a working directory, over every run of open, close, read,
    write, link, unlink and chdir (fs/sysfile.c, fs/file.c). */
module Volume {
  import opened Minix
  import opened Bitmap
  import opened BufferCache
  import opened Files
  import opened FsState
  import opened Truncate
  import opened InodeRefs
  import opened InodeLayer
  import opened DirEntries
  import opened Directory
  import opened PathNames
  import opened PathWalk
  import opened Wrappers
  import opened DirectoryBytes
  import opened VolumeState
  import opened VolumeCalls
  import opened VolumeSpec
  import opened VolumeViews
  import opened FileIo
  import Links

  /** The open files on slot k. */
  function On(files: seq<OpenFile>, k: nat): nat {
    if files == [] then 0 else On(files[..|files| - 1], k) + if files[|files| - 1].ip == k then 1 else 0
  }

  /** And with them the working directory and the leaked references. */
  function UsesOf(files: seq<OpenFile>, cwd: nat, leaked: seq<nat>, k: nat): nat {
    On(files, k) + (if k == cwd then 1 else 0) + multiset(leaked)[k]
  }

  lemma {:induction false} OnSome(files: seq<OpenFile>, i: nat)
    requires i < |files|
    ensures On(files, files[i].ip) >= 1
  {
    if i < |files| - 1 {
      OnSome(files[..|files| - 1], i);
    }
  }

  lemma {:induction false} OnWho(files: seq<OpenFile>, k: nat)
    requires On(files, k) > 0
    ensures exists j :: 0 <= j < |files| && files[j].ip == k
  {
    if files[|files| - 1].ip != k {
      OnWho(files[..|files| - 1], k);
      var j :| 0 <= j < |files| - 1 && files[..|files| - 1][j].ip == k;
      assert files[j].ip == k;
    }
  }

  lemma {:induction false} OnWithout(files: seq<OpenFile>, i: nat, k: nat)
    requires i < |files|
    ensures On(files[..i] + files[i + 1..], k) + (if files[i].ip == k then 1 else 0) == On(files, k)
  {
    var n := |files| - 1;
    if i == n {
      assert files[..i] + files[i + 1..] == files[..n];
    } else {
      OnWithout(files[..n], i, k);
      assert (files[..i] + files[i + 1..])[..n - 1] == files[..n][..i] + files[..n][i + 1..];
    }
  }

  // ---------------------------------------------------------------------------------------
  // Reading and writing files of a sound volume

  /** The slot of an unlocked inode has been read, or the inode in it written. */
  lemma SlotRenewed(sb: SuperBlock, ipb: nat, disk0: Disk, disk: Disk, ic: seq<MemInode>, inodes0: Inodes,
                    inodes: Inodes, k: nat, m: MemInode)
    requires InodeTable(sb, ipb, disk0, ic, inodes0) && Marked(sb, disk0, ic, inodes0) && ReadIn(ic, inodes0)
    requires Calm(sb, ipb, disk0, ic, {}) && LocksRead(ic, {})
    requires k < |ic| && ic[k].ref > 0 && m == ic[k].(valid := true, d := m.d) && 0 < ipb * DINODE <= BSIZE
    requires m.ino >= 1
    requires OtherInodesKept(sb, ipb, disk0, disk, m.ino) && SameInodeMap(sb, disk0, disk)
    requires DiskInode(sb, ipb, disk, m.ino) == m.d
    requires m.ino in inodes0 && inodes == inodes0[m.ino := m.d] && m.d.mode == inodes0[m.ino].mode
    requires m.d.nlinks == inodes0[m.ino].nlinks
    ensures Marked(sb, disk, ic[k := m], inodes) && ReadIn(ic[k := m], inodes) && Calm(sb, ipb, disk, ic[k := m], {})
    ensures LocksRead(ic[k := m], {})
  {
    InUseFacts(sb, ipb, disk0, ic, inodes0, k);
    Unlocked(sb, ipb, disk0, ic, {}, k);
    StillFreeable(sb, disk0, disk, m.ino);
    RefsSet(ic, k, m, m.ino);
    hide DiskInode, Refs, Freeable, Calm, OtherInodesKept, SameInodeMap, Bare, InodeTable, Marked, ReadIn;
    CacheKept(sb, ipb, disk0, disk, ic, inodes0, inodes, k, m, {}, {});
  }

  /** The inodes on the disk, by number. */
  function DiskTable(sb: SuperBlock, ipb: nat, disk: Disk): seq<Inode>
    requires 0 < ipb * DINODE <= BSIZE
  {
    seq(sb.ninodes + 1, i requires 0 <= i => DiskInode(sb, ipb, disk, if i == 0 then 1 else i))
  }

  /** What a write of src at the offset makes of inode `ino`: a file anything, a directory one that has
      whole slots, differing names that lead to inodes with links, and every file as often as before. */
  predicate TidyWrite(sb: SuperBlock, ipb: nat, disk: Disk, ino: nat, off: nat, src: seq<Byte>) {
    0 < ipb * DINODE <= BSIZE && ino >= 1 && var d := DiskInode(sb, ipb, disk, ino);
    IsDir(d.mode) ==>
      && d.size <= MAXSIZE && off <= d.size
      && Tidy(DiskTable(sb, ipb, disk), Contents(disk, d), Overwrite(Contents(disk, d), off, src))
  }

  /** In a sound volume the disk has the current value of every inode. */
  lemma DiskIsCurrent(sb: SuperBlock, ipb: nat, disk: Disk, ic: seq<MemInode>, inodes: Inodes)
    requires InodeTable(sb, ipb, disk, ic, inodes) && Calm(sb, ipb, disk, ic, {})
    ensures forall i :: i in inodes ==> i >= 1 && inodes[i] == DiskInode(sb, ipb, disk, i)
    ensures TableOf(DiskTable(sb, ipb, disk), inodes)
  {
    hide DiskInode;
    forall i | i in inodes ensures i >= 1 && inodes[i] == DiskInode(sb, ipb, disk, i) {
      if Resident(ic, i) {
        var k :| 0 <= k < |ic| && ic[k].ref > 0 && ic[k].valid && ic[k].ino == i;
        assert CalmSlot(sb, ipb, disk, ic[k], k in {});
      }
    }
  }

  /** An inode was overwritten: all is as it should be but what depends on the entries of a directory. */
  lemma WrittenRest(sb: SuperBlock, ipb: nat, disk0: Disk, disk: Disk, ic: seq<MemInode>, inodes0: Inodes,
                    inodes: Inodes, k: nat, m: MemInode,
                    off: nat, src: seq<Byte>)
    requires InodeTable(sb, ipb, disk0, ic, inodes0) && Sound(sb, ipb, disk0, ic, inodes0, {}, 0, 0)
    requires 0 < ipb * DINODE <= BSIZE
    requires k < |ic| && ic[k].ref > 0 && m == ic[k].(valid := true, d := m.d) && m.ino >= 1 && m.ino in inodes0
    requires FileOverwritten(disk0, disk, inodes0, inodes, m.ino, off, src) && inodes[m.ino] == m.d
    requires DiskInode(sb, ipb, disk, m.ino) == m.d
    requires OtherInodesKept(sb, ipb, disk0, disk, m.ino) && SameInodeMap(sb, disk0, disk)
    ensures OnlyChanged(disk0, disk, inodes0, inodes, m.ino)
    ensures SameOutside(Entries(disk0, inodes0), Entries(disk, inodes), m.ino)
    ensures Sound(sb, ipb, disk, ic[k := m], inodes, {}, 0, 0) <==>
              Tree(disk, inodes) && Counted(Entries(disk, inodes), inodes, 0, 0)
    ensures ReadsBut(disk0, disk, inodes0, inodes, m.ino)
  {
    hide DiskInode, Refs, Calm, LocksRead, Freeable, HoleFree, Tree, Whole, WholeInode, Entries, Children, Marked,
         ReadIn, OtherInodesKept, MarkedInode, Bare,
         FilesBut, GoodDirectory, Links.Names, InodeTable, SameInodeMap, Counted, SameBytes, ReadsBut,
         FileOverwritten, SameLinks, SameOutside;
    WrittenFile(disk0, disk, inodes0, inodes, m.ino, off, src);
    WholeKept(disk0, disk, inodes0, inodes, m.ino);
    EntriesRebound(disk0, disk, inodes0, inodes, m.ino);
    ReadsOthers(disk0, disk, inodes0, inodes, m.ino);
    SlotRenewed(sb, ipb, disk0, disk, ic, inodes0, inodes, k, m);
  }

  /** A file that is not a directory was overwritten. */
  lemma FileWritten(disk0: Disk, disk: Disk, inodes0: Inodes, inodes: Inodes, x: nat)
    requires OnlyChanged(disk0, disk, inodes0, inodes, x) && x in inodes0 && !IsDir(inodes0[x].mode)
    requires Whole(disk0, inodes0)
    requires Tree(disk0, inodes0) && Counted(Entries(disk0, inodes0), inodes0, 0, 0) && inodes.Keys == inodes0.Keys
    requires forall i :: i in inodes ==> inodes[i].mode == inodes0[i].mode && inodes[i].nlinks == inodes0[i].nlinks
    ensures Tree(disk, inodes) && Counted(Entries(disk, inodes), inodes, 0, 0)
    ensures Entries(disk, inodes) == Entries(disk0, inodes0)
  {
    hide HoleFree, Tree, Whole, Entries, Children, FilesBut, GoodDirectory, Links.Names, Counted;
    HasLinksOrNone(disk0, inodes0, x);
    TreeKept(disk0, disk, inodes0, inodes, x);
    EntriesKept(disk0, disk, inodes0, inodes, x);
    CountedSame(Entries(disk, inodes), inodes0, inodes, 0, 0);
  }

  /** A directory was overwritten by t. */
  lemma DirectoryWritten(disk0: Disk, disk: Disk, inodes0: Inodes, inodes: Inodes, x: nat, table: seq<Inode>,
                         s: seq<Byte>, t: seq<Byte>)
    requires OnlyChanged(disk0, disk, inodes0, inodes, x) && x in inodes0 && IsDir(inodes0[x].mode)
    requires inodes0[x].nlinks > 0 && Whole(disk0, inodes0)
    requires Tree(disk0, inodes0) && Counted(Entries(disk0, inodes0), inodes0, 0, 0) && inodes.Keys == inodes0.Keys
    requires forall i :: i in inodes ==> inodes[i].mode == inodes0[i].mode && inodes[i].nlinks == inodes0[i].nlinks
    requires WellFormedInode(inodes0[x]) && inodes0[x].size <= MAXSIZE && Contents(disk0, inodes0[x]) == s
    requires TableOf(table, inodes0)
    requires WellFormedInode(inodes[x]) && inodes[x].size <= MAXSIZE && Contents(disk, inodes[x]) == t
    ensures Tree(disk, inodes) && Counted(Entries(disk, inodes), inodes, 0, 0) <==> Tidy(table, s, t)
    ensures DirBinds(Entries(disk, inodes), x, Bindings(t))
  {
    hide HoleFree, Whole, Entries, FilesBut, Links.Names, Counted, IsDirectory, Contents, Bindings, Tidy, DirBinds,
         SameOutside, Bound;
    assert GoodDirectory(disk0, inodes0, x);
    TidyIff(table, inodes0, s, t);
    EntriesRebound(disk0, disk, inodes0, inodes, x);
    EntriesOf(disk0, inodes0, x);
    EntriesOf(disk, inodes, x);
    CountedRebound(Entries(disk0, inodes0), Entries(disk, inodes), inodes0, inodes, x, Bindings(s), Bindings(t));
    if IsDirectory(t) && Fitting(inodes0, Bindings(s), Bindings(t)) {
      TreeKept(disk0, disk, inodes0, inodes, x);
    }
    if Tree(disk, inodes) {
      assert GoodDirectory(disk, inodes, x);
    }
  }

  /** An open file was overwritten: the volume stays sound if and only if that is no directory, or the
      bytes are tidy. */
  lemma WrittenSound(sb: SuperBlock, ipb: nat, disk0: Disk, disk: Disk, ic: seq<MemInode>, inodes0: Inodes,
                     inodes: Inodes, k: nat, m: MemInode,
                     off: nat, src: seq<Byte>)
    requires InodeTable(sb, ipb, disk0, ic, inodes0) && Sound(sb, ipb, disk0, ic, inodes0, {}, 0, 0)
    requires 0 < ipb * DINODE <= BSIZE
    requires k < |ic| && ic[k].ref > 0 && m == ic[k].(valid := true, d := m.d) && m.ino >= 1 && m.ino in inodes0
    requires FileOverwritten(disk0, disk, inodes0, inodes, m.ino, off, src) && inodes[m.ino] == m.d
    requires DiskInode(sb, ipb, disk, m.ino) == m.d
    requires OtherInodesKept(sb, ipb, disk0, disk, m.ino) && SameInodeMap(sb, disk0, disk)
    ensures Sound(sb, ipb, disk, ic[k := m], inodes, {}, 0, 0) <==> TidyWrite(sb, ipb, disk0, m.ino, off, src)
    ensures ReadsBut(disk0, disk, inodes0, inodes, m.ino)
    ensures EntriesWritten(disk0, disk, inodes0, inodes, m.ino)
  {
    hide DiskInode, Refs, Calm, LocksRead, HoleFree, Tree, Whole, WholeInode, Entries, Children, Marked, ReadIn,
         OtherInodesKept, MarkedInode,
         FilesBut, GoodDirectory, Links.Names, InodeTable, SameInodeMap, Counted, SameBytes, ReadsBut, SameLinks,
         SameOutside, Contents,
         Tidy, DirBinds, Bindings, TableOf, SameFile;
    WrittenRest(sb, ipb, disk0, disk, ic, inodes0, inodes, k, m, off, src);
    WrittenFile(disk0, disk, inodes0, inodes, m.ino, off, src);
    DiskIsCurrent(sb, ipb, disk0, ic, inodes0);
    if IsDir(inodes0[m.ino].mode) {
      InUseFacts(sb, ipb, disk0, ic, inodes0, k);
      DirectoryWritten(disk0, disk, inodes0, inodes, m.ino, DiskTable(sb, ipb, disk0), Contents(disk0, inodes0[m.ino]),
                       Overwrite(Contents(disk0, inodes0[m.ino]), off, src));
    } else {
      FileWritten(disk0, disk, inodes0, inodes, m.ino);
    }
  }

  lemma WrittenFile(disk0: Disk, disk: Disk, inodes0: Inodes, inodes: Inodes, x: nat, off: nat, src: seq<Byte>)
    requires FileOverwritten(disk0, disk, inodes0, inodes, x, off, src) && Whole(disk0, inodes0)
    ensures HoleFree(disk, inodes[x]) && x in inodes0 && inodes == inodes0[x := inodes[x]]
    ensures inodes.Keys == inodes0.Keys
    ensures inodes[x].mode == inodes0[x].mode && inodes[x].nlinks == inodes0[x].nlinks
    ensures FilesBut(disk0, disk, inodes0, inodes, x)
    ensures forall i :: i in inodes ==> inodes[i].mode == inodes0[i].mode && inodes[i].nlinks == inodes0[i].nlinks
    ensures off + |src| > inodes0[x].size || AllPresent(inodes0[x], off / BSIZE, EndBlock(off, |src|))
  {
    assert WholeInode(disk0, inodes0[x]);
    hide HoleFree, Contents, SameFile, AllPresent, EndBlock;
    HoleFreeWrite(disk0, disk, inodes0, inodes, x, off, src);
    OverwrittenOthers(disk0, disk, inodes0, inodes, x, off, src);
  }

  lemma HasLinksOrNone(disk: Disk, inodes: Inodes, x: nat)
    requires Tree(disk, inodes) && x in inodes
    ensures inodes[x].nlinks > 0 || (x != ROOT_INO && Nameless(Entries(disk, inodes), x))
  {
    if inodes[x].nlinks == 0 {
      NoLinksNoNames(disk, inodes, x);
    }
  }

  /** fread of an open file: its bytes, and nothing changes but the offset. */
  method ReadFile(fs: FileSystem, file: OpenFile, n: nat) returns (len: int, data: seq<Byte>)
    requires Settled(fs, {}, 0, 0) && file.ip < fs.icache.Length && fs.icache[file.ip].ref > 0
    requires fs.icache[file.ip].ino in fs.inodes
    requires file.off <= fs.inodes[fs.icache[file.ip].ino].size && file.off + n < 0x1_0000_0000
    modifies file`off, fs`inodes, fs`owner, fs.icache, fs.c, fs.c.buf
    ensures Settled(fs, {}, 0, 0) && fs.c.disk == old(fs.c.disk) && fs.inodes == old(fs.inodes)
    ensures Borrowed(old(fs.icache[..]), fs.icache[..], multiset{})
    ensures ReadResult(fs.c.disk, fs.inodes, old(fs.icache[file.ip].ino), file.readable, old(file.off), file.off, n,
                       len, data)
  {
    hide BufferCache.Valid, Inv, Tree, Whole, Marked, ReadIn, Counted, Entries, DiskInode, CalmSlot, MarkedInode,
         Calm, LocksRead, InodeTable, Contents,
         ReadNeed, Refs, Extended, FreeZones, Sound, OtherInodesKept, SameInodeMap;
    ghost var ic, ino := fs.icache[..], fs.icache[file.ip].ino;
    ghost var ip := fs.inodes[ino];
    FileReady(fs, file, n);
    CacheFacts(fs);
    SlotFacts(fs, file.ip);
    len, data := file.Fread(fs, n);
    assert file.Meta(fs) == ip;
    ReadDone(fs, ic, file.ip);
    BorrowNone(ic);
    BorrowSame(ic, ic, fs.icache[..], multiset{});
  }

  /** In a sound volume an unlocked file can be read and written, and reading it takes no zones. */
  lemma FileReady(fs: FileSystem, file: OpenFile, n: nat)
    requires Settled(fs, {}, 0, 0) && file.ip < fs.icache.Length && fs.icache[file.ip].ref > 0
    requires fs.icache[file.ip].ino in fs.inodes
    requires file.off <= fs.inodes[fs.icache[file.ip].ino].size
    ensures file.Usable(fs) && file.Meta(fs) == fs.inodes[fs.icache[file.ip].ino]
    ensures ReadNeed(fs.c.disk, file.Meta(fs), file.off, n) == 0
    ensures Sound(fs.sb, fs.ipb, fs.c.disk, fs.icache[..], fs.inodes, {}, 0, 0) && file.Agrees(fs)
    ensures WellFormedInode(file.Meta(fs)) && file.Meta(fs).size <= MAXSIZE && Whole(fs.c.disk, fs.inodes)
  {
    hide BufferCache.Valid, Inv, Tree, Marked, ReadIn, Counted, Entries, DiskInode, MarkedInode, LocksRead,
         HoleFree, EndBlock, ReadNeed, Need;
    SlotFacts(fs, file.ip);
    Unlocked(fs.sb, fs.ipb, fs.c.disk, fs.icache[..], {}, file.ip);
    assert WholeInode(fs.c.disk, fs.inodes[fs.icache[file.ip].ino]);
    NoReadNeed(fs.c.disk, fs.inodes[fs.icache[file.ip].ino], file.off, n);
  }

  lemma NoReadNeed(disk: Disk, ip: Inode, off: nat, n: nat)
    requires HoleFree(disk, ip) && off <= ip.size
    ensures WellFormedInode(ip) && ip.size <= MAXSIZE && ReadNeed(disk, ip, off, n) == 0
  {
    var m := Clipped(ip, off, n);
    if m > 0 {
      HoleFreeRead(disk, ip, off, m);
    } else {
      assert EndBlock(off, m) == off / BSIZE;
    }
  }

  lemma ReadDone(fs: FileSystem, ic: seq<MemInode>, k: nat)
    requires fs.Valid() && fs.c.held == map[] && Sound(fs.sb, fs.ipb, fs.c.disk, ic, fs.inodes, {}, 0, 0)
    requires InodeTable(fs.sb, fs.ipb, fs.c.disk, ic, fs.inodes)
    requires k < |ic| && ic[k].ref > 0 && ic[k].ino in fs.inodes && ic[k].ino >= 1
    requires fs.icache[..] == ic[k := ic[k].(valid := true, d := fs.inodes[ic[k].ino])] || fs.icache[..] == ic
    ensures Settled(fs, {}, 0, 0)
  {
    hide BufferCache.Valid, Inv, Tree, Whole, Marked, ReadIn, Counted, Entries, DiskInode, MarkedInode, LocksRead,
         Refs, InodeTable;
    CacheFacts(fs);
    if fs.icache[..] != ic {
      ReadFromDisk(fs.sb, fs.ipb, fs.c.disk, ic, fs.inodes, k);
      SelfKept(fs.sb, fs.ipb, fs.c.disk, ic[k].ino);
      assert fs.inodes == fs.inodes[ic[k].ino := fs.inodes[ic[k].ino]];
      SlotRenewed(fs.sb, fs.ipb, fs.c.disk, fs.c.disk, ic, fs.inodes, fs.inodes, k, fs.icache[..][k]);
    }
  }

  lemma ReadFromDisk(sb: SuperBlock, ipb: nat, disk: Disk, ic: seq<MemInode>, inodes: Inodes, k: nat)
    requires InodeTable(sb, ipb, disk, ic, inodes) && Calm(sb, ipb, disk, ic, {}) && k < |ic| && ic[k].ref > 0
    ensures 0 < ipb * DINODE <= BSIZE && ic[k].ino >= 1 && ic[k].ino in inodes
    ensures DiskInode(sb, ipb, disk, ic[k].ino) == inodes[ic[k].ino]
    ensures SameInodeMap(sb, disk, disk)
  {
    assert CalmSlot(sb, ipb, disk, ic[k], k in {});
    if !ic[k].valid {
      LoadStep(sb, ipb, disk, ic, inodes, k);
    }
  }

  /** fwrite of an open file: its bytes are overwritten, and no other file's; without room the kernel
      stops.  The volume stays sound if and only if the write is a tidy one, as every write to a file is. */
  method WriteFile(fs: FileSystem, file: OpenFile, src: seq<Byte>) returns (stopped: bool, len: int)
    requires Settled(fs, {}, 0, 0) && file.ip < fs.icache.Length && fs.icache[file.ip].ref > 0
    requires fs.icache[file.ip].ino in fs.inodes
    requires file.off <= fs.inodes[fs.icache[file.ip].ino].size
    modifies file`off, fs`inodes, fs`owner, fs.icache, fs.c, fs.c.buf
    ensures stopped <==>
              file.writeable && !CanStore(fs.sb, old(fs.c.disk), old(fs.inodes)[old(fs.icache[file.ip].ino)],
                                          old(file.off), |src|)
    ensures !stopped ==> (Settled(fs, {}, 0, 0) <==>
                            !file.writeable || TidyWrite(fs.sb, fs.ipb, old(fs.c.disk), old(fs.icache[file.ip].ino),
                                                         old(file.off), src))
    ensures !stopped ==> fs.Valid()
    ensures !stopped ==> Borrowed(old(fs.icache[..]), fs.icache[..], multiset{})
    ensures !file.writeable ==>
              len == -1 && file.off == old(file.off) && fs.c.disk == old(fs.c.disk) && fs.inodes == old(fs.inodes)
    ensures !file.writeable ==> fs.icache[..] == old(fs.icache[..])
    ensures !stopped && file.writeable ==>
              && len == |src| && file.off == old(file.off) + |src|
              && WriteResult(old(fs.c.disk), fs.c.disk, old(fs.inodes), fs.inodes, old(fs.icache[file.ip].ino),
                             old(file.off), src)
  {
    hide BufferCache.Valid, Inv, Tree, Whole, Marked, ReadIn, Counted, Entries, DiskInode, CalmSlot, MarkedInode,
         Calm, LocksRead, InodeTable, Contents,
         Refs, CanStore, FileOverwritten, Sound, OtherInodesKept, SameInodeMap, ReadsBut, AllPresent, EndBlock,
         OpenFile.Agrees, TidyWrite, EntriesWritten;
    ghost var ic, ino, disk0, inodes0 := fs.icache[..], fs.icache[file.ip].ino, fs.c.disk, fs.inodes;
    ghost var off := file.off;
    FileReady(fs, file, 0);
    CacheFacts(fs);
    SlotFacts(fs, file.ip);
    BorrowNone(ic);
    stopped, len := file.Fwrite(fs, src);
    if stopped {
      return;
    }
    BorrowSame(ic, ic, fs.icache[..], multiset{});
    if !file.writeable {
      assert fs.icache[..] == ic;
      ReadDone(fs, ic, file.ip);
      return;
    }
    WrittenFile(disk0, fs.c.disk, inodes0, fs.inodes, ino, off, src);
    assert fs.DiskAgrees(file.ip);
    WrittenSound(fs.sb, fs.ipb, disk0, fs.c.disk, ic, inodes0, fs.inodes, file.ip, fs.icache[..][file.ip], off, src);
  }

  // ---------------------------------------------------------------------------------------
  // Open files

  /** An open file's offset is inside the file. */
  ghost predicate Good(ic: seq<MemInode>, inodes: Inodes, ip: nat, off: nat) {
    && ip < |ic| && ic[ip].ref > 0 && ic[ip].ino in inodes && off <= inodes[ic[ip].ino].size
  }

  /** Every inode in use reads as before. */
  ghost predicate UsedRead(ic: seq<MemInode>, disk0: Disk, disk: Disk, inodes0: Inodes, inodes: Inodes) {
    && inodes.Keys == inodes0.Keys
    && forall k :: 0 <= k < |ic| && ic[k].ref > 0 && ic[k].ino in inodes0 ==>
        Reads(disk0, disk, inodes0[ic[k].ino], inodes[ic[k].ino])
  }

  lemma AllUsedRead(ic: seq<MemInode>, disk0: Disk, disk: Disk, inodes0: Inodes, inodes: Inodes)
    requires ReadsBut(disk0, disk, inodes0, inodes, 0) && 0 !in inodes0
    ensures UsedRead(ic, disk0, disk, inodes0, inodes)
  {
    hide Reads;
  }

  /** sys_unlink changes no file that is in use. */
  lemma UnlinkUsedRead(ic: seq<MemInode>, disk0: Disk, disk: Disk, inodes0: Inodes, inodes: Inodes, x: nat)
    requires UnlinkReads(disk0, disk, inodes0, inodes, ic, x) && 0 !in inodes0
    ensures UsedRead(ic, disk0, disk, inodes0, inodes)
  {
    hide Reads;
  }

  /** Files stay as they are while nobody writes or frees them. */
  lemma StaysGood(ic0: seq<MemInode>, ic: seq<MemInode>, refs: multiset<nat>, disk0: Disk, disk: Disk,
                  inodes0: Inodes, inodes: Inodes,
                  ip: nat, off: nat)
    requires Good(ic0, inodes0, ip, off) && Borrowed(ic0, ic, refs)
    requires inodes.Keys == inodes0.Keys && Reads(disk0, disk, inodes0[ic0[ip].ino], inodes[ic0[ip].ino])
    ensures Good(ic, inodes, ip, off) && inodes[ic[ip].ino].mode == inodes0[ic0[ip].ino].mode
  {
    assert ic[ip].ref == ic0[ip].ref + refs[ip];
  }

  /** And so do other users of an inode that grows. */
  lemma GrowsGood(ic0: seq<MemInode>, ic: seq<MemInode>, disk0: Disk, disk: Disk, inodes0: Inodes, inodes: Inodes,
                  x: nat, o: nat, src: seq<Byte>,
                  ip: nat, off: nat)
    requires Good(ic0, inodes0, ip, off) && Borrowed(ic0, ic, multiset{}) && ReadsBut(disk0, disk, inodes0, inodes, x)
    requires FileOverwritten(disk0, disk, inodes0, inodes, x, o, src)
    ensures Good(ic, inodes, ip, off) && inodes[ic[ip].ino].mode == inodes0[ic0[ip].ino].mode
  {
    assert ic[ip].ref == ic0[ip].ref + multiset{}[ip];
    if ic0[ip].ino != x {
      StaysGood(ic0, ic, multiset{}, disk0, disk, inodes0, inodes, ip, off);
    }
  }

  /** Every slot that a file, the working directory or a leaked reference has is in use. */
  ghost predicate Used(ic: seq<MemInode>, files: seq<OpenFile>, cwd: nat, leaked: seq<nat>) {
    && cwd < |ic| && ic[cwd].ref > 0
    && (forall j :: 0 <= j < |files| ==> files[j].ip < |ic| && ic[files[j].ip].ref > 0)
    && forall j :: 0 <= j < |leaked| ==> leaked[j] < |ic| && ic[leaked[j]].ref > 0
  }

  /** The open files as programs see them. */
  ghost predicate SeenAs(ic: seq<MemInode>, files: seq<OpenFile>, d: seq<Descr>)
    reads files
  {
    |d| == |files| && forall j :: 0 <= j < |files| ==>
        d[j] == Descr(InoOf(ic, files[j].ip), files[j].off, files[j].readable, files[j].writeable)
  }

  /** The same for given offsets. */
  ghost predicate SeenAt(ic: seq<MemInode>, files: seq<OpenFile>, offs: seq<nat>, d: seq<Descr>) {
    |d| == |files| == |offs| && forall j :: 0 <= j < |files| ==>
        d[j] == Descr(InoOf(ic, files[j].ip), offs[j], files[j].readable, files[j].writeable)
  }

  /** Slots that stay in use keep their inode. */
  ghost predicate SlotsStay(ic0: seq<MemInode>, ic: seq<MemInode>) {
    |ic| == |ic0| && forall k :: 0 <= k < |ic| && ic0[k].ref > 0 && ic[k].ref > 0 ==> ic[k].ino == ic0[k].ino
  }

  /** One reference to slot k went. */
  ghost predicate OneLess(ic0: seq<MemInode>, ic: seq<MemInode>, k: nat) {
    k < |ic0| == |ic| && ic == ic0[k := ic[k]] && ic[k].ref == ic0[k].ref - 1
        && (ic[k].ref > 0 ==> ic[k].ino == ic0[k].ino)
  }

  /** It was the last use of its inode exactly if nobody has the inode now and it has no names. */
  lemma LastIff(ic0: seq<MemInode>, ic: seq<MemInode>, inodes: Inodes, k: nat)
    requires OneSlot(ic0) && OneLess(ic0, ic, k) && ic0[k].ref > 0 && ic0[k].ino in inodes
    requires IsDir(inodes[ic0[k].ino].mode) ==> inodes[ic0[k].ino].nlinks > 0
    ensures LastUse(ic0, inodes, k) <==>
              !(IsDir(inodes[ic0[k].ino].mode) || UsedIn(ic, ic0[k].ino) || inodes[ic0[k].ino].nlinks > 0)
  {
    if ic[k].ref > 0 {
      assert ic[k].ino == ic0[k].ino;
    }
  }

  lemma NotWritten(v: View, i: nat, src: seq<Byte>)
    requires i < |v.open| && !v.open[i].writeable
    ensures StoreStep(v, i, src, Wrote(-1), v)
  {
  }

  lemma MarkedInUse(fs: FileSystem, k: nat)
    requires Settled(fs, {}, 0, 0) && k < fs.icache.Length && fs.icache[k].ref > 0
    ensures fs.icache[k].ino in fs.inodes && InodeBit(fs.c.disk, fs.icache[k].ino)
  {
    hide BufferCache.Valid, Image, Quiet, Owned, Fresh, Tree, Whole, Counted, Entries, DiskInode, Calm, LocksRead;
    CacheFacts(fs);
    InUseFacts(fs.sb, fs.ipb, fs.c.disk, fs.icache[..], fs.inodes, k);
  }

  lemma DirLinked(fs: FileSystem, k: nat)
    requires Settled(fs, {}, 0, 0) && k < fs.icache.Length && fs.icache[k].ref > 0
    ensures fs.icache[k].ino in fs.inodes
    ensures IsDir(fs.inodes[fs.icache[k].ino].mode) ==> fs.inodes[fs.icache[k].ino].nlinks > 0
    ensures WellFormedInode(fs.inodes[fs.icache[k].ino]) && fs.inodes[fs.icache[k].ino].size <= MAXSIZE
  {
    hide BufferCache.Valid, Image, Quiet, Owned, Fresh, Tree, Whole, Counted, Entries, DiskInode, Calm, LocksRead;
    CacheFacts(fs);
    InUseFacts(fs.sb, fs.ipb, fs.c.disk, fs.icache[..], fs.inodes, k);
  }

  lemma BorrowedStay(ic0: seq<MemInode>, ic: seq<MemInode>, refs: multiset<nat>)
    requires Borrowed(ic0, ic, refs)
    ensures SlotsStay(ic0, ic)
  {
  }

  lemma StayTwice(ic0: seq<MemInode>, ic1: seq<MemInode>, ic: seq<MemInode>, k: nat)
    requires SlotsStay(ic0, ic1) && k < |ic| == |ic1| && ic == ic1[k := ic[k]]
    requires ic[k].ref > 0 ==> ic[k].ino == ic1[k].ino
    requires ic1[k].ref > 0
    ensures SlotsStay(ic0, ic)
  {
  }

  ghost function InoOf(ic: seq<MemInode>, k: nat): nat { if k < |ic| then ic[k].ino else 0 }

  /** What iput of another reference leaves of an open file. */
  lemma PutGood(ic0: seq<MemInode>, ic: seq<MemInode>, inodes0: Inodes, inodes: Inodes, k: nat, ip: nat, off: nat)
    requires Good(ic0, inodes0, ip, off) && k < |ic0| == |ic| && ic == ic0[k := ic[k]] && ic[ip].ref > 0
    requires ic0[k].ref > 0
    requires ic[k].ref > 0 ==> ic[k].ino == ic0[k].ino
    requires OneSlot(ic0) && (inodes == inodes0 || (ic[k].ref == 0 && OnlyInode(inodes0, inodes, ic0[k].ino)))
    ensures Good(ic, inodes, ip, off) && inodes[ic[ip].ino] == inodes0[ic0[ip].ino]
  {
    if ip != k {
      assert ic[ip] == ic0[ip] && ic0[ip].ino != ic0[k].ino;
    }
  }

  lemma GoodSlot(ic: seq<MemInode>, inodes: Inodes, ip: nat, off: nat)
    requires Good(ic, inodes, ip, off)
    ensures ip < |ic| && ic[ip].ref > 0 && ic[ip].ino in inodes && off <= inodes[ic[ip].ino].size
  {
  }

  /** The offset after a write is inside the file. */
  lemma WrittenEnd(ic0: seq<MemInode>, ic: seq<MemInode>, disk0: Disk, disk: Disk, inodes0: Inodes, inodes: Inodes,
                   k: nat, off: nat, src: seq<Byte>)
    requires Good(ic, inodes, k, off) && Good(ic0, inodes0, k, off) && Borrowed(ic0, ic, multiset{})
    requires FileOverwritten(disk0, disk, inodes0, inodes, InoOf(ic0, k), off, src)
    ensures Good(ic, inodes, k, off + |src|)
  {
    assert ic[k].ref == ic0[k].ref + multiset{}[k];
  }

  lemma FewerFiles(files0: seq<OpenFile>, files: seq<OpenFile>, i: nat)
    requires i < |files0| && files == files0[..i] + files0[i + 1..]
    ensures forall j :: 0 <= j < |files| ==> files[j] == files0[if j < i then j else j + 1]
  {
  }

  lemma SlotsApart(fs: FileSystem)
    requires Settled(fs, {}, 0, 0)
    ensures OneSlot(fs.icache[..])
  {
    CacheFacts(fs);
  }

  lemma LastIsOne(fs: FileSystem, ip: nat)
    requires Settled(fs, {}, 0, 0) && LastUse(fs.icache[..], fs.inodes, ip)
    ensures ip < fs.icache.Length && fs.icache[ip].ref == 1 && fs.icache[ip].ino in fs.inodes
    ensures Whole(fs.c.disk, fs.inodes)
    ensures fs.icache[ip].d == fs.inodes[fs.icache[ip].ino] && fs.icache[ip].d.nlinks == 0
  {
    hide BufferCache.Valid, Inv, Tree, Marked, Counted, Entries, DiskInode, WholeInode;
    assert fs.icache[..][ip].ref == 1;
    SlotFacts(fs, ip);
  }

  lemma GoneFile(disk0: Disk, disk: Disk, inodes0: Inodes, inodes: Inodes, x: nat, d: Inode)
    requires Whole(disk0, inodes0) && FilesBut(disk0, disk, inodes0, inodes, x) && x in inodes0 && d == inodes0[x]
    requires WellFormedInode(d)
    requires inodes == inodes0[x := Truncated(d)]
    ensures Emptied(inodes0, inodes, x) && ReadsBut(disk0, disk, inodes0, inodes, x) && inodes[x].nlinks == d.nlinks
  {
    ReadsOthers(disk0, disk, inodes0, inodes, x);
  }

  /** iput, and what programs see of it: a file that had no names and no other user is empty. */
  method Drop(fs: FileSystem, ip: nat)
    requires Settled(fs, {}, 0, 0) && ip < fs.icache.Length && fs.icache[ip].ref > 0
    modifies fs`inodes, fs.icache, fs.c, fs.c.buf
    ensures Settled(fs, {}, 0, 0) && Entries(fs.c.disk, fs.inodes) == old(Entries(fs.c.disk, fs.inodes))
    ensures var ino := old(fs.icache[ip].ino);
            if old(LastUse(fs.icache[..], fs.inodes, ip)) then
              && Emptied(old(fs.inodes), fs.inodes, ino) && Bare(fs.inodes[ino]) && !InodeBit(fs.c.disk, ino)
              && fs.inodes[ino].nlinks == 0
              && ReadsBut(old(fs.c.disk), fs.c.disk, old(fs.inodes), fs.inodes, ino)
            else fs.c.disk == old(fs.c.disk) && fs.inodes == old(fs.inodes)
    ensures fs.icache[..] == old(fs.icache[..])[ip := fs.icache[ip]] && fs.icache[ip].ref == old(fs.icache[ip].ref) - 1
    ensures fs.icache[ip].ref > 0 ==> fs.icache[ip].ino == old(fs.icache[ip].ino)
    ensures fs.inodes == old(fs.inodes)
              || (fs.icache[ip].ref == 0 && OnlyInode(old(fs.inodes), fs.inodes, old(fs.icache[ip].ino)))
    ensures SlotsStay(old(fs.icache[..]), fs.icache[..])
  {
    hide Settled, Entries, FilesBut, Returned, InodeBit, Truncated, Bare, LastUse, ReadsBut, Emptied;
    ghost var ic, disk0, inodes0 := fs.icache[..], fs.c.disk, fs.inodes;
    if LastUse(ic, inodes0, ip) {
      LastIsOne(fs, ip);
    }
    Put(fs, ip, {}, 0, 0);
    if LastUse(ic, inodes0, ip) {
      BareAfter(fs.c.disk, ic[ip].d);
      GoneFile(disk0, fs.c.disk, inodes0, fs.inodes, ic[ip].ino, ic[ip].d);
    }
  }

  ghost predicate OnlyInode(inodes0: Inodes, inodes: Inodes, x: nat) {
    inodes.Keys == inodes0.Keys && forall j :: j in inodes0 && j != x ==> inodes[j] == inodes0[j]
  }

  class Volume {
    const fs: FileSystem
    var cwd: nat
    var files: seq<OpenFile>
    ghost var leaked: seq<nat> // slots whose references no one will give back

    /** The volume is sound, and every reference to an inode in memory is an open file's, the working
        directory's, or was leaked. */
    ghost predicate Valid()
      reads this, fs, fs.icache, fs.c, fs.c.buf, files
    {
      && Settled(fs, {}, 0, 0)
      && cwd < fs.icache.Length && Good(fs.icache[..], fs.inodes, cwd, 0) && IsDir(fs.inodes[fs.icache[cwd].ino].mode)
      && (forall k :: 0 <= k < fs.icache.Length ==> fs.icache[k].ref == Uses(k))
      && (forall i :: 0 <= i < |files| ==> Good(fs.icache[..], fs.inodes, files[i].ip, files[i].off))
      && (forall i, j :: 0 <= i < j < |files| ==> files[i] != files[j])
      && forall j :: 0 <= j < |leaked| ==> leaked[j] < fs.icache.Length
    }

    ghost function Uses(k: nat): nat
      reads this
    {
      UsesOf(files, cwd, leaked, k)
    }

    /** A sound volume is mounted: the working directory is the one in slot `root`, and nothing is open. */
    constructor (fs: FileSystem, root: nat)
      requires Settled(fs, {}, 0, 0) && root < fs.icache.Length && Good(fs.icache[..], fs.inodes, root, 0)
      requires IsDir(fs.inodes[fs.icache[root].ino].mode)
      requires forall k :: 0 <= k < fs.icache.Length ==> fs.icache[k].ref == if k == root then 1 else 0
      ensures Valid() && this.fs == fs && files == [] && leaked == []
    {
      hide Settled;
      this.fs, cwd, files, leaked := fs, root, [], [];
    }

    predicate CanFind(path: Path)
      reads fs, fs.icache
    {
      Fit(path) && FreeSlots(fs.icache[..], fs.icache.Length) >= 3
    }

    lemma WalkReady(path: Path)
      requires Valid() && CanFind(path)
      ensures CanWalk(fs, path, cwd)
    {
      hide Settled, FreeSlots;
    }

    /** fclose of the last descriptor of file i. */
    method CloseFile(i: nat)
      requires Valid() && i < |files|
      modifies this`files, fs`inodes, fs.icache, fs.c, fs.c.buf
      ensures Valid() && files == old(files)[..i] + old(files)[i + 1..]
      ensures Entries(fs.c.disk, fs.inodes) == old(Entries(fs.c.disk, fs.inodes))
      ensures var ino := old(fs.icache[files[i].ip].ino);
              if old(LastUse(fs.icache[..], fs.inodes, files[i].ip)) then
                && Emptied(old(fs.inodes), fs.inodes, ino) && Bare(fs.inodes[ino]) && !InodeBit(fs.c.disk, ino)
                && fs.inodes[ino].nlinks == 0
                && ReadsBut(old(fs.c.disk), fs.c.disk, old(fs.inodes), fs.inodes, ino)
              else fs.c.disk == old(fs.c.disk) && fs.inodes == old(fs.inodes)
      ensures SlotsStay(old(fs.icache[..]), fs.icache[..])
      ensures OneLess(old(fs.icache[..]), fs.icache[..], old(files)[i].ip)
    {
      hide Settled, Entries, InodeBit, Bare, LastUse, On, OneSlot, OnlyInode, Emptied, ReadsBut, SlotsStay;
      assert Good(fs.icache[..], fs.inodes, files[i].ip, files[i].off);
      hide Good;
      GoodSlot(fs.icache[..], fs.inodes, files[i].ip, files[i].off);
      ghost var ic, files0, inodes0, ip := fs.icache[..], files, fs.inodes, files[i].ip;
      SlotsApart(fs);
      Drop(fs, files[i].ip);
      files := files[..i] + files[i + 1..];
      forall k | 0 <= k < fs.icache.Length ensures fs.icache[k].ref == Uses(k) {
        OnWithout(files0, i, k);
      }
      FewerFiles(files0, files, i);
      StayGood(ic, inodes0, ip);
    }

    /** The references that are left are good ones. */
    lemma StayGood(ic0: seq<MemInode>, inodes0: Inodes, k: nat)
      requires cwd < fs.icache.Length == |ic0| && Good(ic0, inodes0, cwd, 0) && IsDir(inodes0[ic0[cwd].ino].mode)
      requires forall j :: 0 <= j < |files| ==> Good(ic0, inodes0, files[j].ip, files[j].off)
      requires forall l :: 0 <= l < fs.icache.Length ==> fs.icache[l].ref == Uses(l)
      requires k < |ic0| && ic0[k].ref > 0 && fs.icache[..] == ic0[k := fs.icache[k]]
      requires fs.icache[k].ref > 0 ==> fs.icache[k].ino == ic0[k].ino
      requires OneSlot(ic0)
      requires fs.inodes == inodes0 || (fs.icache[k].ref == 0 && OnlyInode(inodes0, fs.inodes, ic0[k].ino))
      ensures Good(fs.icache[..], fs.inodes, cwd, 0) && IsDir(fs.inodes[fs.icache[cwd].ino].mode)
      ensures forall j :: 0 <= j < |files| ==> Good(fs.icache[..], fs.inodes, files[j].ip, files[j].off)
    {
      hide Good, OnlyInode, On;
      assert fs.icache[cwd].ref == Uses(cwd) && fs.icache[..][cwd].ref > 0;
      PutGood(ic0, fs.icache[..], inodes0, fs.inodes, k, cwd, 0);
      forall j | 0 <= j < |files| ensures Good(fs.icache[..], fs.inodes, files[j].ip, files[j].off) {
        OnSome(files, j);
        assert files[j].ip < |ic0| by { GoodSlot(ic0, inodes0, files[j].ip, files[j].off); }
        assert fs.icache[files[j].ip].ref == Uses(files[j].ip) && fs.icache[..][files[j].ip].ref > 0;
        PutGood(ic0, fs.icache[..], inodes0, fs.inodes, k, files[j].ip, files[j].off);
      }
    }

    /** After a call that gave back what it borrowed and changed no file in use. */
    lemma AllStay(ic0: seq<MemInode>, disk0: Disk, inodes0: Inodes)
      requires cwd < fs.icache.Length == |ic0| && Good(ic0, inodes0, cwd, 0) && IsDir(inodes0[ic0[cwd].ino].mode)
      requires forall j :: 0 <= j < |files| ==> Good(ic0, inodes0, files[j].ip, files[j].off)
      requires forall l :: 0 <= l < |ic0| ==> ic0[l].ref == Uses(l)
      requires Borrowed(ic0, fs.icache[..], multiset{}) && UsedRead(ic0, disk0, fs.c.disk, inodes0, fs.inodes)
      ensures forall l :: 0 <= l < fs.icache.Length ==> fs.icache[l].ref == Uses(l)
      ensures Good(fs.icache[..], fs.inodes, cwd, 0) && IsDir(fs.inodes[fs.icache[cwd].ino].mode)
      ensures forall j :: 0 <= j < |files| ==> Good(fs.icache[..], fs.inodes, files[j].ip, files[j].off)
    {
      hide Good, Reads, On, Uses;
      assert Good(ic0, inodes0, cwd, 0);
      GoodSlot(ic0, inodes0, cwd, 0);
      StaysGood(ic0, fs.icache[..], multiset{}, disk0, fs.c.disk, inodes0, fs.inodes, cwd, 0);
      FilesStay(ic0, multiset{}, disk0, inodes0);
      forall l | 0 <= l < fs.icache.Length ensures fs.icache[l].ref == Uses(l) {
        assert fs.icache[..][l].ref == ic0[l].ref + multiset{}[l];
      }
    }

    /** Also while it holds references. */
    lemma FilesStay(ic0: seq<MemInode>, refs: multiset<nat>, disk0: Disk, inodes0: Inodes)
      requires forall j :: 0 <= j < |files| ==> Good(ic0, inodes0, files[j].ip, files[j].off)
      requires Borrowed(ic0, fs.icache[..], refs) && UsedRead(ic0, disk0, fs.c.disk, inodes0, fs.inodes)
      ensures forall j :: 0 <= j < |files| ==> Good(fs.icache[..], fs.inodes, files[j].ip, files[j].off)
    {
      hide Good, Reads, On;
      forall j | 0 <= j < |files| ensures Good(fs.icache[..], fs.inodes, files[j].ip, files[j].off) {
        GoodSlot(ic0, inodes0, files[j].ip, files[j].off);
        StaysGood(ic0, fs.icache[..], refs, disk0, fs.c.disk, inodes0, fs.inodes, files[j].ip, files[j].off);
      }
    }

    /** The file's bytes came, its offset moved, and nothing else changed. */
    twostate predicate DidRead(file: OpenFile, n: nat, len: int, data: seq<Byte>)
      reads this, fs, fs.icache, fs.c, file
    {
      && fs.c.disk == old(fs.c.disk) && fs.inodes == old(fs.inodes)
      && ReadResult(fs.c.disk, fs.inodes, InoOf(old(fs.icache[..]), file.ip), file.readable, old(file.off),
                    file.off, n, len, data)
    }

    /** fread */
    method Fread(file: OpenFile, n: nat) returns (len: int, data: seq<Byte>)
      requires Valid() && file in files && file.off + n < 0x1_0000_0000
      modifies file, fs`inodes, fs`owner, fs.icache, fs.c, fs.c.buf
      ensures Valid() && DidRead(file, n, len, data)
      ensures SlotsStay(old(fs.icache[..]), fs.icache[..])
    {
      hide Settled, Contents, On, ReadsBut, Borrowed, Clipped;
      ghost var ic := fs.icache[..];
      SlotsApart(fs);
      ReadsNow(fs, {}, 0, 0);
      assert Good(ic, fs.inodes, file.ip, file.off);
      len, data := ReadFile(fs, file, n);
      BorrowedStay(ic, fs.icache[..], multiset{});
      forall j | 0 <= j < |files| ensures Good(ic, fs.inodes, files[j].ip, files[j].off) {
        assert files[j] != file ==> files[j].off == old(files[j].off);
        assert old(Good(fs.icache[..], fs.inodes, files[j].ip, files[j].off));
      }
      AllUsedRead(ic, fs.c.disk, fs.c.disk, fs.inodes, fs.inodes);
      AllStay(ic, fs.c.disk, fs.inodes);
    }

    /** The file was overwritten at its offset, which moved, and no other file reads differently. */
    twostate predicate DidWrite(file: OpenFile, src: seq<Byte>, len: int)
      reads this, fs, fs.icache, fs.c, file
    {
      if !file.writeable then len == -1 && file.off == old(file.off) && fs.c.disk == old(fs.c.disk)
          && fs.inodes == old(fs.inodes)
      else
        && len == |src| && file.off == old(file.off) + |src|
        && WriteResult(old(fs.c.disk), fs.c.disk, old(fs.inodes), fs.inodes, InoOf(old(fs.icache[..]), file.ip),
                       old(file.off), src)
    }

    /** A file, or a directory that is one afterwards, with right counts. */
    predicate KeepsOrder(file: OpenFile, src: seq<Byte>)
      reads this, fs, fs.icache, fs.c, file
    {
      file.writeable && file.ip < fs.icache.Length ==>
          TidyWrite(fs.sb, fs.ipb, fs.c.disk, fs.icache[file.ip].ino, file.off, src)
    }

    /** No room: the largest size or the zones. */
    ghost predicate Full(file: OpenFile, n: nat)
      reads this, fs, fs.icache, fs.c, file
    {
      var ino := InoOf(fs.icache[..], file.ip);
      file.writeable && ino in fs.inodes && !CanStore(fs.sb, fs.c.disk, fs.inodes[ino], file.off, n)
    }

    /** fwrite: the volume stays sound if and only if that is so. */
    method Fwrite(file: OpenFile, src: seq<Byte>) returns (stopped: bool, len: int)
      requires Valid() && file in files
      modifies file, fs`inodes, fs`owner, fs.icache, fs.c, fs.c.buf
      ensures stopped <==> old(Full(file, |src|))
      ensures !stopped ==> fs.Valid() && DidWrite(file, src, len) && (Valid() <==> old(KeepsOrder(file, src)))
      ensures !stopped ==> SlotsStay(old(fs.icache[..]), fs.icache[..])
    {
      hide Volume.Valid, Settled, CanStore, Uses, Borrowed, TidyWrite, WriteResult, Good, ReadsBut, SlotsStay;
      ghost var ic, disk0, inodes0, off := fs.icache[..], fs.c.disk, fs.inodes, file.off;
      Parts(ic);
      GoodSlot(ic, fs.inodes, file.ip, file.off);
      stopped, len := WriteFile(fs, file, src);
      if stopped {
        return;
      }
      BorrowedStay(ic, fs.icache[..], multiset{});
      if file.writeable {
        AllGrow(ic, disk0, inodes0, file, off, src);
      } else {
        forall k | 0 <= k < fs.icache.Length ensures fs.icache[k] == old(fs.icache[k]) {
          assert fs.icache[..][k] == ic[k];
        }
        NothingChanged(ic);
      }
    }

    lemma Parts(ic: seq<MemInode>)
      requires Valid() && ic == fs.icache[..]
      ensures Settled(fs, {}, 0, 0) && cwd < |ic| && Good(ic, fs.inodes, cwd, 0) && IsDir(fs.inodes[ic[cwd].ino].mode)
      ensures forall l :: 0 <= l < |ic| ==> ic[l].ref == Uses(l)
      ensures forall j :: 0 <= j < |files| ==> Good(ic, fs.inodes, files[j].ip, files[j].off)
      ensures forall i, j :: 0 <= i < j < |files| ==> files[i] != files[j]
      ensures forall j :: 0 <= j < |leaked| ==> leaked[j] < |ic|
    {
      hide Settled, Uses;
    }

    lemma NothingChanged(ic: seq<MemInode>)
      requires fs.icache[..] == ic && cwd < |ic| && Good(ic, fs.inodes, cwd, 0) && IsDir(fs.inodes[ic[cwd].ino].mode)
      requires forall l :: 0 <= l < |ic| ==> ic[l].ref == Uses(l)
      requires forall j :: 0 <= j < |files| ==> Good(ic, fs.inodes, files[j].ip, files[j].off)
      requires forall i, j :: 0 <= i < j < |files| ==> files[i] != files[j]
      requires forall j :: 0 <= j < |leaked| ==> leaked[j] < |ic|
      ensures Valid() <==> Settled(fs, {}, 0, 0)
    {
      hide Settled, Uses, Good;
    }

    /** After a write to an open file. */
    lemma AllGrow(ic0: seq<MemInode>, disk0: Disk, inodes0: Inodes, file: OpenFile, off: nat, src: seq<Byte>)
      requires cwd < fs.icache.Length == |ic0| && Good(ic0, inodes0, cwd, 0) && IsDir(inodes0[ic0[cwd].ino].mode)
      requires file in files && file.off == off + |src|
      requires forall j :: 0 <= j < |files| ==>
                 Good(ic0, inodes0, files[j].ip, if files[j] == file then off else files[j].off)
      requires forall l :: 0 <= l < |ic0| ==> ic0[l].ref == Uses(l)
      requires forall i, j :: 0 <= i < j < |files| ==> files[i] != files[j]
      requires forall j :: 0 <= j < |leaked| ==> leaked[j] < |ic0|
      requires Borrowed(ic0, fs.icache[..], multiset{})
      requires WriteResult(disk0, fs.c.disk, inodes0, fs.inodes, InoOf(ic0, file.ip), off, src)
      ensures Valid() <==> Settled(fs, {}, 0, 0)
    {
      hide Good, ReadsBut, On, Uses, FileOverwritten, Settled, EntriesWritten;
      ghost var x := InoOf(ic0, file.ip);
      assert Good(ic0, inodes0, cwd, 0);
      GrowsGood(ic0, fs.icache[..], disk0, fs.c.disk, inodes0, fs.inodes, x, off, src, cwd, 0);
      forall j | 0 <= j < |files| ensures Good(fs.icache[..], fs.inodes, files[j].ip, files[j].off) {
        var o := if files[j] == file then off else files[j].off;
        GoodSlot(ic0, inodes0, files[j].ip, o);
        GrowsGood(ic0, fs.icache[..], disk0, fs.c.disk, inodes0, fs.inodes, x, off, src, files[j].ip, o);
        if files[j] == file {
          WrittenEnd(ic0, fs.icache[..], disk0, fs.c.disk, inodes0, fs.inodes, file.ip, off, src);
        }
      }
      forall l | 0 <= l < fs.icache.Length ensures fs.icache[l].ref == Uses(l) {
        assert fs.icache[..][l].ref == ic0[l].ref + multiset{}[l];
      }
    }

    /** sys_link */
    method Link(path: Path, newPath: Path, field: seq<Byte>) returns (r: Outcome)
      requires Valid() && CanFind(path) && CanFind(newPath) && |field| == NAME_LEN
      modifies fs`inodes, fs`owner, fs.icache, fs.c, fs.c.buf
      ensures Returns(r) ==> Valid() && SlotsStay(old(fs.icache[..]), fs.icache[..])
      ensures Linking(r, fs.sb, old(fs.c.disk), fs.c.disk, old(fs.inodes), fs.inodes,
                      Resolve(old(fs.c.disk), old(fs.inodes), StartOf(old(fs.icache[..]), path, cwd), Components(path)),
                      StartOf(old(fs.icache[..]), newPath, cwd), Components(newPath))
    {
      hide Settled, On, ReadsBut, Borrowed, Entries, Resolve, Components, FreeSlots, NewName, Meets, Place;
      ghost var ic, disk0, inodes0 := fs.icache[..], fs.c.disk, fs.inodes;
      WalkReady(path);
      WalkReady(newPath);
      ReadsNow(fs, {}, 0, 0);
      r := SysLink(fs, path, newPath, cwd, field);
      if Returns(r) {
        BorrowedStay(ic, fs.icache[..], multiset{});
        AllUsedRead(ic, disk0, fs.c.disk, inodes0, fs.inodes);
        AllStay(ic, disk0, inodes0);
      }
    }

    twostate predicate DidUnlink(path: Path, r: Outcome)
      reads this, fs, fs.icache, fs.c
    {
      Unlinking(r, old(fs.c.disk), fs.c.disk, old(fs.inodes), fs.inodes, old(fs.icache[..]),
                StartOf(old(fs.icache[..]), path, cwd), Components(path))
    }

    /** sys_unlink: files that are open read as before, also the one that lost its name. */
    method Unlink(path: Path) returns (r: Outcome)
      requires Valid() && CanFind(path)
      modifies fs`inodes, fs`owner, fs.icache, fs.c, fs.c.buf
      ensures r == Stuck || (Returns(r) && Valid())
      ensures DidUnlink(path, r)
      ensures Returns(r) ==> SlotsStay(old(fs.icache[..]), fs.icache[..])
      ensures Returns(r) ==> UsedRead(old(fs.icache[..]), old(fs.c.disk), fs.c.disk, old(fs.inodes), fs.inodes)
    {
      hide Settled, On, ReadsBut, Borrowed, Entries, ResolveParent, Components, FreeSlots, UnlinkReads, Good, Uses,
           UsedRead;
      ghost var ic, disk0, inodes0 := fs.icache[..], fs.c.disk, fs.inodes;
      WalkReady(path);
      ReadsNow(fs, {}, 0, 0);
      r := SysUnlink(fs, path, cwd);
      if !Returns(r) {
        return;
      }
      BorrowedStay(ic, fs.icache[..], multiset{});
      if r == Refused {
        AllUsedRead(ic, disk0, disk0, inodes0, inodes0);
      } else {
        ghost var at := Place(disk0, inodes0, StartOf(ic, path, cwd), Components(path));
        UnlinkUsedRead(ic, disk0, fs.c.disk, inodes0, fs.inodes, Entries(disk0, inodes0)[at]);
      }
      AllStay(ic, disk0, inodes0);
    }

    /** What the path leads to. */
    ghost function Found(path: Path): Option<nat>
      reads this, fs, fs.icache, fs.c
    {
      VolumeViews.Found(fs.c.disk, fs.inodes, StartOf(fs.icache[..], path, cwd), Components(path))
    }

    /** Something that may be opened this way. */
    ghost predicate Openable(path: Path, omode: int)
      reads this, fs, fs.icache, fs.c
    {
      Found(path).Some? && Found(path).value in fs.inodes
          && (IsDir(fs.inodes[Found(path).value].mode) ==> omode == O_RONLY)
    }

    /** p2i, ilock, the test for a directory, iunlock: a reference to what the path leads to. */
    method Pick(path: Path) returns (ok: bool, dir: bool, ip: nat)
      requires Valid() && CanFind(path)
      modifies fs`inodes, fs`owner, fs.icache, fs.c, fs.c.buf
      ensures Settled(fs, {}, 0, 0) && fs.c.disk == old(fs.c.disk) && fs.inodes == old(fs.inodes)
      ensures ok <==> old(Found(path)).Some?
      ensures !ok ==> Borrowed(old(fs.icache[..]), fs.icache[..], multiset{})
      ensures ok ==> Borrowed(old(fs.icache[..]), fs.icache[..], multiset{ip}) && Good(fs.icache[..], fs.inodes, ip, 0)
      ensures ok ==>
                && fs.icache[ip].ino in fs.inodes && old(Found(path)) == Some(fs.icache[ip].ino)
                && dir == IsDir(fs.inodes[fs.icache[ip].ino].mode)
      ensures ok ==> !LastUse(fs.icache[..], fs.inodes, ip)
    {
      hide Settled, Borrowed, Resolve, Components, FreeSlots, LastUse, Meets, LockedInos;
      ghost var ic := fs.icache[..];
      WalkReady(path);
      BorrowNone(ic);
      var stuck, name;
      stuck, ok, ip, name := Find(fs, path, false, cwd, {}, 0, 0);
      assert !stuck by { NotStuck(fs.c.disk, fs.inodes, StartOf(ic, path, cwd), Components(path), ic); }
      dir := false;
      if !ok {
        BorrowBack(ic, ic, fs.icache[..], multiset{});
        return;
      }
      BorrowMore(ic, ic, fs.icache[..], multiset{}, ip);
      assert multiset{} + multiset{ip} == multiset{ip} && {} + {ip} == {ip} && {ip} - {ip} == {};
      ghost var ic1 := fs.icache[..];
      LockOne(fs, ip, {}, 0, 0, ic, multiset{ip});
      StillUsed(ic1, fs.icache[..], fs.inodes, ip);
      dir := IsDir(fs.icache[ip].d.mode);
      ghost var ic2 := fs.icache[..];
      VolumeCalls.Unlock(fs, ip, {ip}, 0, 0);
      StillUsed(ic2, fs.icache[..], fs.inodes, ip);
      BorrowSame(ic, ic2, fs.icache[..], multiset{ip});
    }

    /** And a directory only with O_RONLY. */
    method PickFor(path: Path, omode: int) returns (ok: bool, ip: nat)
      requires Valid() && CanFind(path)
      modifies fs`inodes, fs`owner, fs.icache, fs.c, fs.c.buf
      ensures Settled(fs, {}, 0, 0) && fs.c.disk == old(fs.c.disk) && fs.inodes == old(fs.inodes)
      ensures ok <==> old(Openable(path, omode))
      ensures !ok ==> Borrowed(old(fs.icache[..]), fs.icache[..], multiset{})
      ensures ok ==> Borrowed(old(fs.icache[..]), fs.icache[..], multiset{ip}) && Good(fs.icache[..], fs.inodes, ip, 0)
      ensures ok ==> old(Found(path)) == Some(InoOf(fs.icache[..], ip))
    {
      hide Settled, UsesOf, ReadsBut, Borrowed, Good, UsedRead, LastUse, Volume.Found, CanFind;
      ghost var ic := fs.icache[..];
      var dir;
      ok, dir, ip := Pick(path);
      if ok {
        GoodSlot(fs.icache[..], fs.inodes, ip, 0);
        if dir && omode != O_RONLY {
          ghost var ic1 := fs.icache[..];
          Put(fs, ip, {}, 0, 0);
          BorrowLess(ic, ic1, fs.icache[..], multiset{ip}, ip);
          assert multiset{ip} - multiset{ip} == multiset{};
          ok := false;
        }
      }
    }

    /** sys_open of a file that exists, with a descriptor left: a new open file at the start of what the
        path leads to, unless that is a directory and the mode is not O_RONLY.  The file is readable unless
        the mode has O_WONLY, and always writeable, because O_RONLY is 0 and the test of its bit fails. */
    method Open(path: Path, omode: int) returns (ok: bool)
      requires Valid() && CanFind(path) && omode / O_CREATE % 2 == 0
      modifies this`files, fs`inodes, fs`owner, fs.icache, fs.c, fs.c.buf
      ensures Valid() && fs.c.disk == old(fs.c.disk) && fs.inodes == old(fs.inodes)
      ensures ok <==> old(Openable(path, omode))
      ensures SlotsStay(old(fs.icache[..]), fs.icache[..])
      ensures !ok ==> files == old(files)
      ensures ok ==> |files| > 0 && files[..|files| - 1] == old(files) && fresh(files[|files| - 1])
      ensures ok ==>
                && Opened(files[|files| - 1], omode)
                && old(Found(path)) == Some(InoOf(fs.icache[..], files[|files| - 1].ip))
    {
      hide Settled, UsesOf, ReadsBut, Borrowed, Good, UsedRead, LastUse, Volume.Found, CanFind;
      ghost var ic, disk0, inodes0 := fs.icache[..], fs.c.disk, fs.inodes;
      ReadsNow(fs, {}, 0, 0);
      AllUsedRead(ic, disk0, disk0, inodes0, inodes0);
      var ip;
      ok, ip := PickFor(path, omode);
      BorrowedStay(ic, fs.icache[..], if ok then multiset{ip} else multiset{});
      if !ok {
        AllStay(ic, disk0, inodes0);
        return false;
      }
      Keep(ic, disk0, inodes0, ip);
      var file := new OpenFile(ip, omode % 2 == 0, true);
      ghost var files0 := files;
      files := files + [file];
      FilesPlus(ic, files0, file, inodes0);
    }

    ghost predicate Opened(file: OpenFile, omode: int)
      reads file
    {
      (file.readable <==> omode % 2 == 0) && file.writeable && file.off == 0
    }

    /** What there is stays good while a reference more is held. */
    lemma Keep(ic: seq<MemInode>, disk0: Disk, inodes0: Inodes, ip: nat)
      requires cwd < |ic| && Good(ic, inodes0, cwd, 0) && IsDir(inodes0[ic[cwd].ino].mode)
      requires forall j :: 0 <= j < |files| ==> Good(ic, inodes0, files[j].ip, files[j].off)
      requires Borrowed(ic, fs.icache[..], multiset{ip}) && UsedRead(ic, disk0, fs.c.disk, inodes0, fs.inodes)
      ensures forall j :: 0 <= j < |files| ==> Good(fs.icache[..], fs.inodes, files[j].ip, files[j].off)
      ensures Good(fs.icache[..], fs.inodes, cwd, 0) && IsDir(fs.inodes[fs.icache[cwd].ino].mode)
    {
      hide Good, On, Reads;
      FilesStay(ic, multiset{ip}, disk0, inodes0);
      GoodSlot(ic, inodes0, cwd, 0);
      StaysGood(ic, fs.icache[..], multiset{ip}, disk0, fs.c.disk, inodes0, fs.inodes, cwd, 0);
    }

    /** The new file has the reference. */
    lemma FilesPlus(ic: seq<MemInode>, files0: seq<OpenFile>, file: OpenFile, inodes0: Inodes)
      requires files == files0 + [file] && |ic| == fs.icache.Length && Borrowed(ic, fs.icache[..], multiset{file.ip})
      requires forall l :: 0 <= l < |ic| ==> ic[l].ref == UsesOf(files0, cwd, leaked, l)
      ensures forall l :: 0 <= l < fs.icache.Length ==> fs.icache[l].ref == Uses(l)
    {
      assert files[..|files| - 1] == files0;
      forall l | 0 <= l < fs.icache.Length ensures fs.icache[l].ref == Uses(l) {
        assert fs.icache[..][l].ref == ic[l].ref + multiset{file.ip}[l];
      }
    }

    /** sys_chdir: the new directory's reference replaces the old one's.  A path that leads to a file is
        refused, and the reference to the file is never given back. */
    method Chdir(path: Path) returns (ok: bool)
      requires Valid() && CanFind(path)
      modifies this`cwd, this`leaked, fs`inodes, fs`owner, fs.icache, fs.c, fs.c.buf
      ensures Valid() && fs.c.disk == old(fs.c.disk) && fs.inodes == old(fs.inodes)
      ensures var found := old(Found(path));
              && (ok <==> found.Some? && found.value in fs.inodes && IsDir(fs.inodes[found.value].mode))
              && (ok ==> leaked == old(leaked) && found == Some(InoOf(fs.icache[..], cwd)))
              && (!ok ==> cwd == old(cwd))
              && (!ok && found.None? ==> leaked == old(leaked))
              && (!ok && found.Some? ==> |leaked| == |old(leaked)| + 1 && leaked[..|old(leaked)|] == old(leaked)
                                         && InoOf(fs.icache[..], leaked[|old(leaked)|]) == found.value)
      ensures SlotsStay(old(fs.icache[..]), fs.icache[..])
    {
      hide Settled, UsesOf, ReadsBut, Borrowed, Good, UsedRead, LastUse, Volume.Found, CanFind;
      ghost var ic, disk0, inodes0 := fs.icache[..], fs.c.disk, fs.inodes;
      ReadsNow(fs, {}, 0, 0);
      AllUsedRead(ic, disk0, disk0, inodes0, inodes0);
      var found, dir, ip := Pick(path);
      BorrowedStay(ic, fs.icache[..], if found then multiset{ip} else multiset{});
      if !found {
        AllStay(ic, disk0, inodes0);
        return false;
      }
      GoodSlot(fs.icache[..], fs.inodes, ip, 0);
      Keep(ic, disk0, inodes0, ip);
      GoodSlot(fs.icache[..], fs.inodes, cwd, 0);
      if !dir {
        ghost var leaked0 := leaked;
        leaked := leaked + [ip];
        LeakCounted(ic, ip, leaked0);
        return false;
      }
      ok := true;
      ghost var ic1 := fs.icache[..];
      SlotsApart(fs);
      DirInUse(fs, {}, 0, 0, cwd);
      var was := cwd;
      Put(fs, cwd, {}, 0, 0);
      cwd := ip;
      MoveCounted(ic, ic1, was);
      StayGood(ic1, fs.inodes, was);
      GoodSlot(fs.icache[..], fs.inodes, cwd, 0);
      assert fs.icache[..][cwd].ino == ic1[cwd].ino;
      StayTwice(ic, ic1, fs.icache[..], was);
    }

    lemma LeakCounted(ic: seq<MemInode>, ip: nat, leaked0: seq<nat>)
      requires |ic| == fs.icache.Length && Borrowed(ic, fs.icache[..], multiset{ip}) && leaked == leaked0 + [ip]
      requires forall l :: 0 <= l < |ic| ==> ic[l].ref == UsesOf(files, cwd, leaked0, l)
      ensures forall l :: 0 <= l < fs.icache.Length ==> fs.icache[l].ref == Uses(l)
    {
      forall l | 0 <= l < fs.icache.Length ensures fs.icache[l].ref == Uses(l) {
        assert fs.icache[..][l].ref == ic[l].ref + multiset{ip}[l];
      }
    }

    lemma MoveCounted(ic: seq<MemInode>, ic1: seq<MemInode>, was: nat)
      requires was < |ic| == |ic1| == fs.icache.Length && Borrowed(ic, ic1, multiset{cwd})
      requires fs.icache[..] == ic1[was := fs.icache[was]]
      requires fs.icache[was].ref == ic1[was].ref - 1
      requires forall l :: 0 <= l < |ic| ==> ic[l].ref == UsesOf(files, was, leaked, l)
      ensures forall l :: 0 <= l < fs.icache.Length ==> fs.icache[l].ref == Uses(l)
    {
      forall l | 0 <= l < fs.icache.Length ensures fs.icache[l].ref == Uses(l) {
        assert ic1[l].ref == ic[l].ref + multiset{cwd}[l];
        assert fs.icache[..][l] == if l == was then fs.icache[was] else ic1[l];
      }
    }

    // What programs see

    ghost function Descrs(): (d: seq<Descr>)
      reads this, fs, fs.icache, files
      ensures |d| == |files|
    {
      seq(|files|, j requires 0 <= j < |files| reads this, fs, fs.icache, files =>
        Descr(InoOf(fs.icache[..], files[j].ip), files[j].off, files[j].readable, files[j].writeable))
    }

    ghost function Lost(): (l: seq<nat>)
      reads this, fs, fs.icache
      ensures |l| == |leaked|
    {
      seq(|leaked|, j requires 0 <= j < |leaked| reads this, fs, fs.icache => InoOf(fs.icache[..], leaked[j]))
    }

    ghost function V(): View
      reads this, fs, fs.icache, fs.c, files
    {
      ViewOf(fs.c.disk, fs.inodes, Descrs(), InoOf(fs.icache[..], cwd), Lost())
    }

    lemma AllUsed()
      requires Valid()
      ensures Used(fs.icache[..], files, cwd, leaked) && SeenAs(fs.icache[..], files, Descrs())
    {
      hide Settled, On;
      forall j | 0 <= j < |leaked| ensures fs.icache[leaked[j]].ref > 0 {
        assert fs.icache[leaked[j]].ref == Uses(leaked[j]) && leaked[j] in multiset(leaked);
      }
    }

    /** They lead to the inodes they led to. */
    lemma SameSlots(ic0: seq<MemInode>, files0: seq<OpenFile>, d0: seq<Descr>, cwd0: nat, leaked0: seq<nat>)
      requires Used(ic0, files0, cwd0, leaked0) && SeenAs(ic0, files0, d0) && Used(fs.icache[..], files, cwd, leaked)
      requires SlotsStay(ic0, fs.icache[..])
      ensures files == files0 ==> Descrs() == d0
      ensures cwd == cwd0 ==> InoOf(fs.icache[..], cwd) == InoOf(ic0, cwd)
      ensures leaked == leaked0 ==> forall j :: 0 <= j < |leaked| ==>
                InoOf(fs.icache[..], leaked[j]) == InoOf(ic0, leaked[j])
    {
    }

    lemma ViewFacts()
      requires Valid()
      ensures Counted(Entries(fs.c.disk, fs.inodes), fs.inodes, 0, 0) && 0 !in fs.inodes
      ensures forall j :: 0 <= j < |files| ==> InoOf(fs.icache[..], files[j].ip) in fs.inodes
    {
      hide Tree, Whole, Marked, Calm, LocksRead, Entries, Counted;
      CacheFacts(fs);
    }

    method SeeLink(path: Path, newPath: Path, field: seq<Byte>) returns (r: Outcome)
      requires Valid() && CanFind(path) && CanFind(newPath) && |field| == NAME_LEN
      modifies fs`inodes, fs`owner, fs.icache, fs.c, fs.c.buf
      ensures Returns(r) ==> Valid() && Step(old(V()), Command.Link(path, newPath, field), Ended(r), V())
      ensures Returns(r) <==>
                !Stops(fs.sb, old(fs.c.disk), old(fs.inodes), old(V()), Command.Link(path, newPath, field))
    {
      hide Valid, CanFind, Linking, LinkStep, Stops, UsesOf, Used, SeenAs;
      AllUsed();
      ViewFacts();
      ghost var ic, d0, v, disk0, inodes0, lost := fs.icache[..], Descrs(), V(), fs.c.disk, fs.inodes, Lost();
      r := Link(path, newPath, field);
      LinkStops(fs.sb, disk0, fs.c.disk, inodes0, fs.inodes, v, path, newPath, field, r);
      if Returns(r) {
        AllUsed();
        SameSlots(ic, files, d0, cwd, leaked);
        assert Lost() == lost;
        LinkSeen(fs.sb, disk0, fs.c.disk, inodes0, fs.inodes, v, V(), path, newPath, r);
      }
    }

    /** The inodes in use are those that somebody has. */
    lemma HeldIs()
      requires Valid()
      ensures forall i :: UsedIn(fs.icache[..], i) <==> HasUser(V(), i)
    {
      hide Settled, ViewOf, On;
      AllUsed();
      var ic := fs.icache[..];
      forall i ensures UsedIn(ic, i) <==> HasUser(V(), i) {
        if UsedIn(ic, i) {
          var k :| 0 <= k < |ic| && ic[k].ref > 0 && ic[k].ino == i;
          assert fs.icache[k].ref == Uses(k);
          SomeUse(k);
          HeldBy(k);
        }
        if HasUser(V(), i) {
          HeldSlot(i);
        }
      }
    }

    /** A slot in use is that of a file, the working directory, or a leaked reference. */
    lemma SomeUse(k: nat)
      requires Uses(k) > 0
      ensures k == cwd || k in leaked || exists j :: 0 <= j < |files| && files[j].ip == k
    {
      if On(files, k) > 0 {
        OnWho(files, k);
      }
    }

    lemma HeldBy(k: nat)
      requires k == cwd || k in leaked || exists j :: 0 <= j < |files| && files[j].ip == k
      ensures HasUser(V(), InoOf(fs.icache[..], k))
    {
      hide ViewOf;
      var v := V();
      assert v.open == Descrs() && v.cwd == InoOf(fs.icache[..], cwd) && v.lost == Lost() by { ViewParts(); }
      if k in leaked {
        var j :| 0 <= j < |leaked| && leaked[j] == k;
        assert Lost()[j] == InoOf(fs.icache[..], k);
      } else if k != cwd {
        var j :| 0 <= j < |files| && files[j].ip == k;
        assert Descrs()[j].ino == InoOf(fs.icache[..], k);
      }
    }

    lemma ViewParts()
      ensures V().open == Descrs() && V().cwd == InoOf(fs.icache[..], cwd) && V().lost == Lost()
    {
    }

    lemma HeldSlot(i: nat)
      requires HasUser(V(), i) && Used(fs.icache[..], files, cwd, leaked)
      ensures UsedIn(fs.icache[..], i)
    {
      hide ViewOf;
      ViewParts();
      var v, ic := V(), fs.icache[..];
      if i in v.lost {
        var j :| 0 <= j < |v.lost| && v.lost[j] == i;
        assert ic[leaked[j]].ino == i;
      } else if i == v.cwd {
        assert ic[cwd].ino == i;
      } else {
        var j :| 0 <= j < |v.open| && v.open[j].ino == i;
        assert ic[files[j].ip].ino == i;
      }
    }

    method SeeUnlink(path: Path) returns (r: Outcome)
      requires Valid() && CanFind(path)
      modifies fs`inodes, fs`owner, fs.icache, fs.c, fs.c.buf
      ensures Returns(r) ==> Valid() && Step(old(V()), Command.Unlink(path), Ended(r), V())
      ensures Returns(r) <==> !Stops(fs.sb, old(fs.c.disk), old(fs.inodes), old(V()), Command.Unlink(path))
    {
      hide Valid, CanFind, Unlinking, UnlinkStep, Stops, UsesOf, Used, HasUser, UsedIn, SeenAs;
      AllUsed();
      ViewFacts();
      HeldIs();
      ghost var ic, d0, v, disk0, inodes0, lost := fs.icache[..], Descrs(), V(), fs.c.disk, fs.inodes, Lost();
      r := Unlink(path);
      UnlinkStops(fs.sb, disk0, fs.c.disk, inodes0, fs.inodes, v, ic, path, r);
      if Returns(r) {
        AllUsed();
        ViewFacts();
        SameSlots(ic, files, d0, cwd, leaked);
        assert Lost() == lost;
        UnlinkSeen(disk0, fs.c.disk, inodes0, fs.inodes, v, V(), ic, path, r);
      }
    }

    method SeeOpen(path: Path, omode: int) returns (ok: bool)
      requires Valid() && CanFind(path) && omode / O_CREATE % 2 == 0
      modifies this`files, fs`inodes, fs`owner, fs.icache, fs.c, fs.c.buf
      ensures Valid() && Step(old(V()), Command.Open(path, omode), Told(ok), V())
      ensures forall f :: f in files ==> f in old(files) || fresh(f)
    {
      hide Valid, CanFind, UsesOf, Used, SeenAs, Step, VolumeViews.Found, Openable, SlotsStay, ViewOf, InoOf;
      AllUsed();
      OpenableIs(path, omode);
      ViewParts();
      ghost var ic, d0, v, files0 := fs.icache[..], Descrs(), V(), files;
      LostIs(ic);
      ok := Open(path, omode);
      AfterOpen(ic, d0, v, files0, path, omode, ok);
    }

    lemma AfterOpen(ic: seq<MemInode>, d0: seq<Descr>, v: View, files0: seq<OpenFile>, path: Path, omode: int, ok: bool)
      requires Valid() && SlotsStay(ic, fs.icache[..]) && Used(ic, files0, cwd, leaked) && SeenAs(ic, files0, d0)
      requires if ok then |files| == |files0| + 1 && files[..|files0|] == files0 else files == files0
      requires LostAre(ic, v.lost) && v == ViewOf(fs.c.disk, fs.inodes, d0, InoOf(ic, cwd), v.lost)
      requires var found := VolumeViews.Found(fs.c.disk, fs.inodes, From(v, path), Components(path));
               && (ok <==> found.Some? && (IsDir(fs.inodes[found.value].mode) ==> omode == O_RONLY))
               && (ok ==> Opened(files[|files0|], omode) && found == Some(InoOf(fs.icache[..], files[|files0|].ip)))
      ensures Step(v, Command.Open(path, omode), Told(ok), V())
    {
      hide Valid, UsesOf, Used, SeenAs, OpenStep, VolumeViews.Found, From, Entries, BytesOf;
      AllUsed();
      OpenSlots(ic, d0, files0, ok);
      SameSlots(ic, files0, d0, cwd, leaked);
      assert Lost() == v.lost;
      OpenSeen(fs.c.disk, fs.inodes, v, V(), path, omode, ok);
    }

    lemma OpenableIs(path: Path, omode: int)
      requires Valid() && CanFind(path)
      ensures var found := VolumeViews.Found(fs.c.disk, fs.inodes, From(V(), path), Components(path));
              Found(path) == found
                  && (Openable(path, omode) <==>
                        found.Some? && (IsDir(fs.inodes[found.value].mode) ==> omode == O_RONLY))
    {
      hide Resolve, Components, Settled, BytesOf, Entries;
    }

    lemma OpenSlots(ic0: seq<MemInode>, d0: seq<Descr>, files0: seq<OpenFile>, ok: bool)
      requires Used(ic0, files0, cwd, leaked) && SeenAs(ic0, files0, d0) && Used(fs.icache[..], files, cwd, leaked)
      requires SlotsStay(ic0, fs.icache[..])
      requires if ok then |files| == |files0| + 1 && files[..|files0|] == files0 else files == files0
      ensures Descrs() == if ok then d0 + [Descrs()[|files0|]] else d0
    {
      forall j | 0 <= j < |files0| ensures Descrs()[j] == d0[j] {
        assert files[j] == files0[j];
      }
    }

    method SeeChdir(path: Path) returns (ok: bool)
      requires Valid() && CanFind(path)
      modifies this`cwd, this`leaked, fs`inodes, fs`owner, fs.icache, fs.c, fs.c.buf
      ensures Valid() && Step(old(V()), Command.Chdir(path), Told(ok), V()) && old(leaked) <= leaked
    {
      hide Valid, CanFind, UsesOf, Used, SeenAs, ChdirStep, VolumeViews.Found;
      AllUsed();
      ghost var ic, d0, v, lost, cwd0, leaked0 := fs.icache[..], Descrs(), V(), Lost(), cwd, leaked;
      OpenableIs(path, O_RONLY);
      ok := Chdir(path);
      AllUsed();
      ChdirSlots(ic, d0, cwd0, leaked0);
      assert leaked == leaked0 ==> Lost() == lost;
      assert leaked != leaked0 ==> Lost() == lost + [InoOf(fs.icache[..], leaked[|leaked0|])];
      ChdirSeen(fs.c.disk, fs.inodes, v, V(), path, ok);
    }

    lemma ChdirSlots(ic0: seq<MemInode>, d0: seq<Descr>, cwd0: nat, leaked0: seq<nat>)
      requires Used(ic0, files, cwd0, leaked0) && SeenAs(ic0, files, d0) && Used(fs.icache[..], files, cwd, leaked)
      requires SlotsStay(ic0, fs.icache[..])
      requires |leaked| >= |leaked0| && leaked[..|leaked0|] == leaked0
      ensures Descrs() == d0 && (cwd == cwd0 ==> InoOf(fs.icache[..], cwd) == InoOf(ic0, cwd))
      ensures forall j :: 0 <= j < |leaked0| ==>
                leaked[j] == leaked0[j] && InoOf(fs.icache[..], leaked[j]) == InoOf(ic0, leaked0[j])
    {
      forall j | 0 <= j < |leaked0| ensures leaked[j] == leaked0[j] {
        assert leaked[..|leaked0|][j] == leaked[j];
      }
    }

    method SeeClose(i: nat)
      requires Valid() && i < |files|
      modifies this`files, fs`inodes, fs.icache, fs.c, fs.c.buf
      ensures Valid() && Step(old(V()), Command.Close(i), Told(true), V())
      ensures forall f :: f in files ==> f in old(files)
    {
      hide Valid, UsesOf, Used, SeenAs, CloseStep, Entries, LastUse, Emptied, ReadsBut, Bare, InodeBit;
      AllUsed();
      ViewFacts();
      ghost var ic, d0, v, lost, files0, disk0, inodes0 := fs.icache[..], Descrs(), V(), Lost(), files, fs.c.disk,
          fs.inodes;
      FileFacts(i);
      CloseFile(i);
      FewerFiles(files0, files, i);
      AllUsed();
      ViewFacts();
      CloseSlots(ic, d0, files0, i);
      assert Lost() == lost;
      HeldIs();
      LastIff(ic, fs.icache[..], inodes0, files0[i].ip);
      CloseSeen(disk0, fs.c.disk, inodes0, fs.inodes, v, V(), i);
    }

    lemma FileFacts(i: nat)
      requires Valid() && i < |files|
      ensures OneSlot(fs.icache[..]) && files[i].ip < fs.icache.Length && fs.icache[files[i].ip].ref > 0
      ensures fs.icache[files[i].ip].ino in fs.inodes
      ensures var ip := fs.inodes[fs.icache[files[i].ip].ino]; IsDir(ip.mode) ==> ip.nlinks > 0
      ensures var ip := fs.inodes[fs.icache[files[i].ip].ino]; WellFormedInode(ip) && ip.size <= MAXSIZE
      ensures V().open == Descrs()
      ensures V().open[i] == Descr(fs.icache[files[i].ip].ino, files[i].off, files[i].readable, files[i].writeable)
      ensures forall j :: 0 <= j < |files| && j != i ==> files[j] != files[i]
    {
      hide Settled, ViewOf;
      SlotsApart(fs);
      DirLinked(fs, files[i].ip);
      ViewParts();
    }

    lemma CloseSlots(ic0: seq<MemInode>, d0: seq<Descr>, files0: seq<OpenFile>, i: nat)
      requires Used(ic0, files0, cwd, leaked) && SeenAs(ic0, files0, d0) && Used(fs.icache[..], files, cwd, leaked)
      requires SlotsStay(ic0, fs.icache[..])
      requires i < |files0| && files == files0[..i] + files0[i + 1..]
      ensures Descrs() == d0[..i] + d0[i + 1..] && InoOf(fs.icache[..], cwd) == InoOf(ic0, cwd)
      ensures forall j :: 0 <= j < |leaked| ==> InoOf(fs.icache[..], leaked[j]) == InoOf(ic0, leaked[j])
    {
      FewerFiles(files0, files, i);
      forall j | 0 <= j < |files| ensures Descrs()[j] == (d0[..i] + d0[i + 1..])[j] {
        assert files[j] == files0[if j < i then j else j + 1];
      }
    }

    method SeeRead(i: nat, n: nat) returns (len: int, data: seq<Byte>)
      requires Valid() && i < |files| && files[i].off + n < 0x1_0000_0000
      modifies files[i], fs`inodes, fs`owner, fs.icache, fs.c, fs.c.buf
      ensures Valid() && Step(old(V()), Command.Read(i, n), Got(len, data), V())
    {
      hide Valid, UsesOf, Used, SeenAs, SeenAt, ReadStep, ReadResult, Contents, BytesOf, DirsOf, Entries;
      AllUsed();
      SeenThere();
      ghost var ic, d0, v, lost, offs := fs.icache[..], Descrs(), V(), Lost(), Offs();
      FileFacts(i);
      len, data := Fread(files[i], n);
      AllUsed();
      OffsetSlots(ic, offs, d0, i);
      assert Lost() == lost;
      ReadSeen(fs.c.disk, fs.inodes, v, V(), i, n, len, data);
    }

    ghost function Offs(): (o: seq<nat>)
      reads this, files
      ensures |o| == |files| && forall j :: 0 <= j < |files| ==> o[j] == files[j].off
    {
      seq(|files|, j requires 0 <= j < |files| reads this, files => files[j].off)
    }

    lemma SeenThere()
      ensures SeenAt(fs.icache[..], files, Offs(), Descrs())
    {
    }

    /** Only the offset of file i moved. */
    lemma OffsetSlots(ic0: seq<MemInode>, offs: seq<nat>, d0: seq<Descr>, i: nat)
      requires Used(ic0, files, cwd, leaked) && Used(fs.icache[..], files, cwd, leaked)
      requires SlotsStay(ic0, fs.icache[..]) && i < |files| == |offs|
      requires SeenAt(ic0, files, offs, d0) && forall j :: 0 <= j < |files| && j != i ==> files[j].off == offs[j]
      ensures Descrs() == d0[i := d0[i].(off := files[i].off)] && InoOf(fs.icache[..], cwd) == InoOf(ic0, cwd)
      ensures forall j :: 0 <= j < |leaked| ==> InoOf(fs.icache[..], leaked[j]) == InoOf(ic0, leaked[j])
    {
    }

    lemma FullStops(i: nat, src: seq<Byte>)
      requires Valid() && i < |files|
      ensures Full(files[i], |src|) <==> Stops(fs.sb, fs.c.disk, fs.inodes, V(), Command.Write(i, src))
    {
      FileFacts(i);
      hide Valid, ViewOf, CanStore;
    }

    method SeeWrite(i: nat, src: seq<Byte>) returns (stopped: bool, len: int)
      requires Valid() && i < |files| && KeepsOrder(files[i], src)
      modifies files[i], fs`inodes, fs`owner, fs.icache, fs.c, fs.c.buf
      ensures stopped <==> Stops(fs.sb, old(fs.c.disk), old(fs.inodes), old(V()), Command.Write(i, src))
      ensures !stopped ==> Valid() && Step(old(V()), Command.Write(i, src), Wrote(len), V())
    {
      hide Valid, UsesOf, Used, Step, Stops, WriteResult, KeepsOrder, Full, SeenAs, SeenAt, Counted, ViewOf, InoOf,
           SlotsStay, Entries;
      AllUsed();
      ViewFacts();
      ViewParts();
      SeenThere();
      FileFacts(i);
      ghost var ic, offs, d0, v, disk0, inodes0 := fs.icache[..], Offs(), Descrs(), V(), fs.c.disk, fs.inodes;
      LostIs(ic);
      FullStops(i, src);
      stopped, len := Fwrite(files[i], src);
      if !stopped {
        AfterWrite(ic, offs, d0, disk0, inodes0, v, i, src, len);
      }
    }

    ghost predicate LostAre(ic: seq<MemInode>, lost: seq<nat>)
      reads this
    {
      |lost| == |leaked| && forall j :: 0 <= j < |leaked| ==> lost[j] == InoOf(ic, leaked[j])
    }

    lemma LostIs(ic: seq<MemInode>)
      requires ic == fs.icache[..]
      ensures LostAre(ic, V().lost) && V() == ViewOf(fs.c.disk, fs.inodes, Descrs(), InoOf(ic, cwd), V().lost)
    {
      ViewParts();
    }

    lemma AfterWrite(ic: seq<MemInode>, offs: seq<nat>, d0: seq<Descr>, disk0: Disk, inodes0: Inodes, v: View,
                     i: nat, src: seq<Byte>, len: int)
      requires Valid() && SlotsStay(ic, fs.icache[..]) && Used(ic, files, cwd, leaked) && i < |files| == |offs|
      requires SeenAt(ic, files, offs, d0) && forall j :: 0 <= j < |files| && j != i ==> files[j].off == offs[j]
      requires LostAre(ic, v.lost) && v == ViewOf(disk0, inodes0, d0, InoOf(ic, cwd), v.lost)
      requires if files[i].writeable then
                 && len == |src| && files[i].off == offs[i] + |src|
                 && WriteResult(disk0, fs.c.disk, inodes0, fs.inodes, InoOf(ic, files[i].ip), offs[i], src)
                 && InoOf(ic, files[i].ip) in inodes0 && WellFormedInode(inodes0[InoOf(ic, files[i].ip)])
                 && inodes0[InoOf(ic, files[i].ip)].size <= MAXSIZE
                 && Counted(Entries(disk0, inodes0), inodes0, 0, 0)
               else len == -1 && files[i].off == offs[i] && fs.c.disk == disk0 && fs.inodes == inodes0
      ensures Step(v, Command.Write(i, src), Wrote(len), V())
    {
      hide Valid, UsesOf, Used, Step, WriteResult, BytesOf, DirsOf, Entries, Counted;
      AllUsed();
      ViewFacts();
      OffsetSlots(ic, offs, d0, i);
      assert Lost() == v.lost;
      SeenWritten(disk0, inodes0, v, d0, i, src, len);
    }

    lemma SeenWritten(disk0: Disk, inodes0: Inodes, v: View, d0: seq<Descr>, i: nat, src: seq<Byte>, len: int)
      requires i < |files| == |d0| && Descrs() == d0[i := d0[i].(off := files[i].off)]
      requires d0[i].writeable == files[i].writeable
      requires v == ViewOf(disk0, inodes0, d0, InoOf(fs.icache[..], cwd), Lost())
      requires if files[i].writeable then
                 && len == |src| && files[i].off == d0[i].off + |src|
                 && WriteResult(disk0, fs.c.disk, inodes0, fs.inodes, d0[i].ino, d0[i].off, src)
                 && d0[i].ino in inodes0 && WellFormedInode(inodes0[d0[i].ino]) && inodes0[d0[i].ino].size <= MAXSIZE
                 && Counted(Entries(disk0, inodes0), inodes0, 0, 0)
                 && Counted(Entries(fs.c.disk, fs.inodes), fs.inodes, 0, 0)
               else len == -1 && files[i].off == d0[i].off && fs.c.disk == disk0 && fs.inodes == inodes0
      ensures Step(v, Command.Write(i, src), Wrote(len), V())
    {
      hide StoreStep, WriteResult, Entries, Counted, BytesOf, DirsOf;
      if files[i].writeable {
        WriteSeen(disk0, fs.c.disk, inodes0, fs.inodes, v, V(), i, src);
      } else {
        NotWritten(v, i, src);
        assert V() == v;
      }
    }

    // Every run

    /** What the calls take for granted: names that fit, free slots of the inode table, a file that is
        open, and that nobody spoils a directory. */
    predicate Allowed(c: Command)
      reads this, fs, fs.icache, fs.c, files
    {
      match c
      case Open(path, omode) => CanFind(path) && omode / O_CREATE % 2 == 0
      case Close(i) => i < |files|
      case Read(i, n) => i < |files| && files[i].off + n < 0x1_0000_0000
      case Write(i, src) => i < |files| && KeepsOrder(files[i], src)
      case Link(path, newPath, field) => CanFind(path) && CanFind(newPath) && |field| == NAME_LEN
      case Unlink(path) => CanFind(path)
      case Chdir(path) => CanFind(path)
    }

    /** A file-system call that is none of read, write and close. */
    method DoPath(c: Command) returns (goes: bool, ghost r: Result)
      requires Valid() && Allowed(c) && !c.Close? && !c.Read? && !c.Write?
      modifies this`files, this`cwd, this`leaked, fs`inodes, fs`owner, fs.icache, fs.c, fs.c.buf
      ensures goes ==> Valid() && Step(old(V()), c, r, V())
      ensures goes <==> !Stops(fs.sb, old(fs.c.disk), old(fs.inodes), old(V()), c)
      ensures old(leaked) <= leaked
      ensures forall f :: f in files ==> f in old(files) || fresh(f)
    {
      hide Volume.Valid, CanFind, Step, ViewOf, Goal, At, Crosses, HasRoom;
      goes := true;
      match c {
        case Open(path, omode) =>
          var ok := SeeOpen(path, omode);
          r := Told(ok);
        case Link(path, newPath, field) =>
          var o := SeeLink(path, newPath, field);
          goes, r := Returns(o), Ended(o);
        case Unlink(path) =>
          var o := SeeUnlink(path);
          goes, r := Returns(o), Ended(o);
        case Chdir(path) =>
          var ok := SeeChdir(path);
          r := Told(ok);
      }
    }

    /** One call, and whether the kernel goes on afterwards. */
    method Do(c: Command) returns (goes: bool, ghost r: Result)
      requires Valid() && Allowed(c)
      modifies this`files, this`cwd, this`leaked, files, fs`inodes, fs`owner, fs.icache, fs.c, fs.c.buf
      ensures goes ==> Valid() && Step(old(V()), c, r, V())
      ensures goes <==> !Stops(fs.sb, old(fs.c.disk), old(fs.inodes), old(V()), c)
      ensures old(leaked) <= leaked
      ensures forall f :: f in files ==> f in old(files) || fresh(f)
    {
      hide Volume.Valid, CanFind, Step, ViewOf, KeepsOrder, Goal, At, Crosses, HasRoom, CanStore;
      goes := true;
      match c {
        case Close(i) =>
          SeeClose(i);
          r := Told(true);
        case Read(i, n) =>
          var len, data := SeeRead(i, n);
          r := Got(len, data);
        case Write(i, src) =>
          var stopped, len := SeeWrite(i, src);
          goes, r := !stopped, Wrote(len);
        case _ => goes, r := DoPath(c);
      }
    }

    /** The inode is in the table of inodes, in use, and marked in the inode bitmap. */
    ghost predicate NeverFreed(i: nat)
      reads fs, fs.icache, fs.c
    {
      i in fs.inodes && UsedIn(fs.icache[..], i) && InodeBit(fs.c.disk, i)
    }

    lemma LostKept(i: nat)
      requires Valid() && i in Lost()
      ensures NeverFreed(i)
    {
      hide Settled, InodeBit;
      AllUsed();
      var j :| 0 <= j < |leaked| && Lost()[j] == i;
      assert fs.icache[..][leaked[j]].ino == i;
      MarkedInUse(fs, leaked[j]);
    }

    lemma IsRooted()
      requires Valid()
      ensures Rooted(V())
    {
      hide Whole, Marked, Calm, LocksRead, Entries, Counted, Resolve, FileBytes, GoodDirectory;
      ViewFacts();
      ViewParts();
    }

    /** Every run of calls, up to the first one that is not allowed or that stops the kernel, leaves the volume
        sound, and is a run of what VolumeSpec says of the calls.  When the kernel stops, that is for one of
        the reasons in Stops, on the disk and the inodes there were before the call. */
    method Run(commands: seq<Command>)
        returns (goes: bool, ghost views: seq<View>, ghost results: seq<Result>, ghost disk: Disk, ghost inodes: Inodes)
      requires Valid()
      modifies this`files, this`cwd, this`leaked, files, fs`inodes, fs`owner, fs.icache, fs.c, fs.c.buf
      ensures IsTrace(views, commands, results) && views[0] == old(V()) && Rooted(views[0])
      ensures goes ==> Valid() && V() == views[|results|] && (|results| == |commands| || !Allowed(commands[|results|]))
      ensures !goes ==> |results| < |commands| && Stopped(disk, inodes, views[|results|], commands[|results|])
      ensures old(leaked) <= leaked && (goes ==> forall i :: i in old(Lost()) ==> i in Lost() && NeverFreed(i))
    {
      hide Volume.Valid, CanFind, Allowed, Step, Stops, ViewOf, Rooted;
      var n := 0;
      goes := true;
      IsRooted();
      ViewParts();
      views, results, disk, inodes := [V()], [], fs.c.disk, fs.inodes;
      while goes && n < |commands| && Allowed(commands[n])
        invariant IsTrace(views, commands, results) && views[0] == old(V())
        invariant |results| <= n <= |commands| && (goes ==> n == |results| && Valid() && V() == views[n])
        invariant !goes ==> |results| < |commands| && Stopped(disk, inodes, views[|results|], commands[|results|])
        invariant old(leaked) <= leaked
        invariant forall k :: 0 <= k < |files| ==> files[k] in old(files) || fresh(files[k])
        decreases |commands| - n
      {
        disk, inodes := fs.c.disk, fs.inodes;
        ViewParts();
        label Before:
        ghost var r;
        goes, r := Do(commands[n]);
        forall k | 0 <= k < |files| ensures files[k] in old(files) || fresh(files[k]) {
          assert files[k] in files;
          if files[k] in old@Before(files) {
            var j :| 0 <= j < |old@Before(files)| && old@Before(files)[j] == files[k];
          }
        }
        if goes {
          Longer(views, commands, results, r, V());
          views, results := views + [V()], results + [r];
        }
        n := n + 1;
      }
      if goes {
        ghost var lost := old(Lost());
        forall f | f in lost ensures f in Lost() && NeverFreed(f) {
          LostForGood(views, commands, results, |results|, f);
          ViewParts();
          LostKept(f);
        }
      }
    }

    /** The call stops the kernel on this disk with these inodes, which look like v. */
    ghost predicate Stopped(disk: Disk, inodes: Inodes, v: View, c: Command) {
      v == ViewOf(disk, inodes, v.open, v.cwd, v.lost) && Stops(fs.sb, disk, inodes, v, c)
    }
  }

  lemma Longer(views: seq<View>, cs: seq<Command>, rs: seq<Result>, r: Result, v: View)
    requires IsTrace(views, cs, rs) && |rs| < |cs| && Step(views[|rs|], cs[|rs|], r, v)
    ensures IsTrace(views + [v], cs, rs + [r])
  {
    hide Step;
  }
}
