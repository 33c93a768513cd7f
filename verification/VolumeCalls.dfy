/** Whole calls on a sound volume: p2i and p2ip, iput, sys_link and sys_unlink. */
module VolumeCalls {
  import opened Minix
  import opened Bitmap
  import opened BufferCache
  import opened Files
  import opened FsState
  import opened Truncate
  import opened InodeRefs
  import opened InodeLayer
  import opened DirEntries
  import opened Directory
  import opened PathNames
  import opened PathWalk
  import opened Wrappers
  import opened VolumeState
  import Links

  /** Between two steps of a call: the slots lk are locked, and the count of file x is e too high. */
  ghost predicate Settled(fs: FileSystem, lk: set<nat>, x: nat, e: nat)
    reads fs, fs.icache, fs.c, fs.c.buf
  {
    && fs.Valid() && fs.c.held == map[]
    && Sound(fs.sb, fs.ipb, fs.c.disk, fs.icache[..], fs.inodes, lk, x, e)
  }

  lemma CacheFacts(fs: FileSystem)
    requires fs.Valid()
    ensures fs.icache.Length == NINODE && InodeTable(fs.sb, fs.ipb, fs.c.disk, fs.icache[..], fs.inodes)
    ensures WellFormed(fs.inodes)
    ensures 0 < fs.ipb * DINODE <= BSIZE && forall i :: i in fs.inodes <==> 1 <= i <= fs.sb.ninodes
  {
  }

  lemma SlotFacts(fs: FileSystem, k: nat)
    requires fs.Valid() && k < fs.icache.Length && fs.icache[k].ref > 0
    ensures fs.icache[k].ino in fs.inodes && 1 <= fs.icache[k].ino <= fs.sb.ninodes
    ensures fs.icache[k].valid ==> fs.icache[k].d == fs.inodes[fs.icache[k].ino]
  {
  }

  /** A locked slot of a sound volume is what the inode layer calls locked. */
  lemma LockedSlot(fs: FileSystem, lk: set<nat>, x: nat, e: nat, ip: nat)
    requires Settled(fs, lk, x, e) && ip in lk
    ensures ip < fs.icache.Length && fs.IsLocked(ip) && fs.icache[ip].ref > 0 && fs.icache[ip].valid
    ensures fs.icache[ip].busy
    ensures fs.icache[ip].ino in fs.inodes && fs.icache[ip].d == fs.inodes[fs.icache[ip].ino] && fs.DiskAgrees(ip)
    ensures WholeInode(fs.c.disk, fs.icache[ip].d)
  {
    hide BufferCache.Valid, Tree, Marked, ReadIn, Counted, Entries, DiskInode, HoleFree;
    SlotFacts(fs, ip);
    assert CalmSlot(fs.sb, fs.ipb, fs.c.disk, fs.icache[..][ip], ip in lk);
    assert WholeInode(fs.c.disk, fs.inodes[fs.icache[ip].ino]);
  }

  /** ilock of an inode nobody has locked */
  method Lock(fs: FileSystem, ip: nat, ghost lk: set<nat>, ghost x: nat, ghost e: nat)
    requires Settled(fs, lk, x, e) && ip < fs.icache.Length && fs.icache[ip].ref > 0 && ip !in lk
    modifies fs.icache, fs.c, fs.c.buf
    ensures Settled(fs, lk + {ip}, x, e) && fs.c.disk == old(fs.c.disk)
    ensures old(fs.icache[ip].ino) in fs.inodes
    ensures fs.icache[..]
              == old(fs.icache[..])[ip := old(fs.icache[ip]).(busy := true, valid := true,
                                                              d := fs.inodes[old(fs.icache[ip].ino)])]
  {
    hide BufferCache.Valid, Inv, Tree, Whole, Marked, ReadIn, Counted, Entries, DiskInode, CalmSlot, RefsChange,
         MarkedInode, LocksRead;
    ghost var ic, ino := fs.icache[..], fs.icache[ip].ino;
    CacheFacts(fs);
    LoadedAgrees(fs, ip);
    Unlocked(fs.sb, fs.ipb, fs.c.disk, ic, lk, ip);
    fs.Ilock(ip);
    LockTable(fs.sb, fs.ipb, fs.c.disk, ic, fs.inodes, ip, fs.icache[ip], lk, lk + {ip});
  }

  lemma Unlocked(sb: SuperBlock, ipb: nat, disk: Disk, ic: seq<MemInode>, lk: set<nat>, ip: nat)
    requires Calm(sb, ipb, disk, ic, lk) && ip < |ic| && ic[ip].ref > 0
    ensures ic[ip].busy <==> ip in lk
    ensures CalmSlot(sb, ipb, disk, ic[ip], ip in lk)
  {
  }

  /** The lock of a slot changes, and what has been read of its inode. */
  lemma LockTable(sb: SuperBlock, ipb: nat, disk: Disk, ic: seq<MemInode>, inodes: Inodes, k: nat, m: MemInode,
                  lk: set<nat>, lk': set<nat>)
    requires InodeTable(sb, ipb, disk, ic, inodes) && Marked(sb, disk, ic, inodes) && ReadIn(ic, inodes)
    requires Calm(sb, ipb, disk, ic, lk) && LocksRead(ic, lk)
    requires k < |ic| && ic[k].ref > 0 && m.ino == ic[k].ino && m.ref == ic[k].ref && m.valid
    requires 0 < ipb * DINODE <= BSIZE && m.ino >= 1
    requires m.busy == (k in lk') && DiskInode(sb, ipb, disk, m.ino) == m.d
    requires forall l :: l != k ==> (l in lk' <==> l in lk)
    ensures Marked(sb, disk, ic[k := m], inodes) && ReadIn(ic[k := m], inodes) && Calm(sb, ipb, disk, ic[k := m], lk')
    ensures LocksRead(ic[k := m], lk')
  {
    hide DiskInode, Refs, MarkedInode, Calm, ReadIn, LocksRead;
    SelfKept(sb, ipb, disk, m.ino);
    RefsSet(ic, k, m, m.ino);
    assert MarkedInode(sb, disk, inodes[m.ino], m.ino, Refs(ic, m.ino));
    CacheKept(sb, ipb, disk, disk, ic, inodes, inodes, k, m, lk, lk');
  }

  /** iunlock */
  method Unlock(fs: FileSystem, ip: nat, ghost lk: set<nat>, ghost x: nat, ghost e: nat)
    requires Settled(fs, lk, x, e) && ip in lk && ip < fs.icache.Length
    modifies fs.icache
    ensures Settled(fs, lk - {ip}, x, e)
    ensures fs.icache[..] == old(fs.icache[..])[ip := old(fs.icache[ip]).(busy := false)]
  {
    hide BufferCache.Valid, Inv, Tree, Whole, Marked, ReadIn, Counted, Entries, DiskInode, CalmSlot, RefsChange,
         MarkedInode, Calm;
    ghost var ic := fs.icache[..];
    CacheFacts(fs);
    LockedSlot(fs, lk, x, e, ip);
    fs.Iunlock(ip);
    LockTable(fs.sb, fs.ipb, fs.c.disk, ic, fs.inodes, ip, fs.icache[ip], lk, lk - {ip});
  }

  /** The last reference to an inode without links. */
  ghost predicate LastUse(ic: seq<MemInode>, inodes: Inodes, ip: nat) {
    ip < |ic| && ic[ip].ref == 1 && ic[ip].ino in inodes && inodes[ic[ip].ino].nlinks == 0
  }

  /** In a sound volume iput may be called, and it frees the inode exactly on the last use. */
  lemma PutAllowed(fs: FileSystem, ip: nat, lk: set<nat>, x: nat, e: nat)
    requires Settled(fs, lk, x, e) && ip < fs.icache.Length && fs.icache[ip].ref > 0 && ip !in lk
    ensures fs.MayDrop(ip) && (fs.Dies(ip) <==> LastUse(fs.icache[..], fs.inodes, ip))
    ensures MarkedInode(fs.sb, fs.c.disk, fs.inodes[fs.icache[ip].ino], fs.icache[ip].ino,
                        Refs(fs.icache[..], fs.icache[ip].ino))
  {
    hide BufferCache.Valid, Inv, Tree, Counted, Entries, DiskInode, HoleFree, Refs, InodeBit;
    var ic, ino := fs.icache[..], fs.icache[ip].ino;
    SlotFacts(fs, ip);
    RefsAtLeast(ic, ip);
    assert CalmSlot(fs.sb, fs.ipb, fs.c.disk, ic[ip], ip in lk);
    assert MarkedInode(fs.sb, fs.c.disk, fs.inodes[ino], ino, Refs(ic, ino));
    assert WholeInode(fs.c.disk, fs.inodes[ino]);
  }

  /** One reference fewer, and the inode is still in use. */
  lemma PutTable(sb: SuperBlock, ipb: nat, disk: Disk, ic: seq<MemInode>, inodes: Inodes, k: nat, lk: set<nat>)
    requires InodeTable(sb, ipb, disk, ic, inodes) && Marked(sb, disk, ic, inodes) && ReadIn(ic, inodes)
    requires Calm(sb, ipb, disk, ic, lk) && LocksRead(ic, lk)
    requires k < |ic| && ic[k].ref > 0 && k !in lk && !LastUse(ic, inodes, k)
    ensures var ic' := ic[k := ic[k].(ref := ic[k].ref - 1)];
            Marked(sb, disk, ic', inodes) && ReadIn(ic', inodes) && Calm(sb, ipb, disk, ic', lk) && LocksRead(ic', lk)
  {
    hide DiskInode, Refs, Calm, LocksRead, Freeable;
    var m, ino := ic[k].(ref := ic[k].ref - 1), ic[k].ino;
    Unlocked(sb, ipb, disk, ic, lk, k);
    SelfKept(sb, ipb, disk, ino);
    RefsAtLeast(ic, k);
    RefsAtLeast(ic[k := m], k);
    assert MarkedInode(sb, disk, inodes[ino], ino, Refs(ic, ino));
    CacheKept(sb, ipb, disk, disk, ic, inodes, inodes, k, m, lk, lk);
  }

  /** The last reference went and the inode was freed. */
  lemma FreedTable(sb: SuperBlock, ipb: nat, disk0: Disk, disk: Disk, ic: seq<MemInode>, inodes: Inodes, k: nat,
                   m: MemInode, lk: set<nat>, ip': Inode)
    requires InodeTable(sb, ipb, disk0, ic, inodes) && Marked(sb, disk0, ic, inodes) && ReadIn(ic, inodes)
    requires Calm(sb, ipb, disk0, ic, lk) && LocksRead(ic, lk)
    requires k < |ic| && LastUse(ic, inodes, k) && k !in lk && m.ref == 0 && m.ino == ic[k].ino
    requires 0 < ipb * DINODE <= BSIZE
    requires OtherInodesKept(sb, ipb, disk0, disk, m.ino) && Bare(ip') && ip'.nlinks == 0 && !InodeBit(disk, m.ino)
    ensures var ic', inodes' := ic[k := m], inodes[m.ino := ip'];
            Marked(sb, disk, ic', inodes') && ReadIn(ic', inodes') && Calm(sb, ipb, disk, ic', lk) && LocksRead(ic', lk)
  {
    hide DiskInode, Refs, Calm, LocksRead, Freeable, Bare;
    RefsExact(sb, ipb, disk0, ic, inodes, k);
    RefsSet(ic, k, m, m.ino);
    CacheKept(sb, ipb, disk0, disk, ic, inodes, inodes[m.ino := ip'], k, m, lk, lk);
  }

  /** iput: one reference fewer; the last use of an inode frees it, with all its zones.  No entry of any
      directory changes, and no other file. */
  method Put(fs: FileSystem, ip: nat, ghost lk: set<nat>, ghost x: nat, ghost e: nat)
    requires Settled(fs, lk, x, e) && ip < fs.icache.Length && fs.icache[ip].ref > 0 && ip !in lk
    modifies fs`inodes, fs.icache, fs.c, fs.c.buf
    ensures Settled(fs, lk, x, e)
    ensures Entries(fs.c.disk, fs.inodes) == old(Entries(fs.c.disk, fs.inodes))
    ensures fs.icache[..] == old(fs.icache[..])[ip := fs.icache[ip]] && fs.icache[ip].ref == old(fs.icache[ip].ref) - 1
    ensures fs.icache[ip].ref > 0 ==> fs.icache[ip] == old(fs.icache[ip]).(ref := fs.icache[ip].ref)
    ensures !old(LastUse(fs.icache[..], fs.inodes, ip)) ==> fs.c.disk == old(fs.c.disk) && fs.inodes == old(fs.inodes)
    ensures old(LastUse(fs.icache[..], fs.inodes, ip)) ==>
              && WellFormedInode(old(fs.icache[ip].d))
              && fs.inodes == old(fs.inodes)[old(fs.icache[ip].ino) := Truncated(old(fs.icache[ip].d))]
              && Returned(fs.sb, old(fs.c.disk), fs.c.disk, old(fs.icache[ip].d))
              && !InodeBit(fs.c.disk, old(fs.icache[ip].ino))
              && FilesBut(old(fs.c.disk), fs.c.disk, old(fs.inodes), fs.inodes, old(fs.icache[ip].ino))
  {
    hide BufferCache.Valid, Inv, Tree, Whole, Marked, ReadIn, Counted, Entries, DiskInode, CalmSlot, RefsChange,
         MarkedInode, Calm, LocksRead, InodeTable,
         Truncated, Returned, OthersRead, OtherInodesKept, InodeBit, FilesBut, InodeLayer.FileSystem.MayDrop, LastUse;
    ghost var ic, ino, disk0, inodes0 := fs.icache[..], fs.icache[ip].ino, fs.c.disk, fs.inodes;
    CacheFacts(fs);
    PutAllowed(fs, ip, lk, x, e);
    fs.Iput(ip);
    if LastUse(ic, inodes0, ip) {
      FreedSound(fs.sb, fs.ipb, disk0, fs.c.disk, ic, fs.icache[..], inodes0, fs.inodes, ip, lk, x, e);
    } else {
      PutTable(fs.sb, fs.ipb, disk0, ic, inodes0, ip, lk);
    }
  }

  lemma LastUseFacts(sb: SuperBlock, ipb: nat, disk: Disk, ic: seq<MemInode>, inodes: Inodes, k: nat, lk: set<nat>,
                     x: nat, e: nat)
    requires InodeTable(sb, ipb, disk, ic, inodes) && WellFormed(inodes) && Sound(sb, ipb, disk, ic, inodes, lk, x, e)
    requires LastUse(ic, inodes, k) && ic[k].valid
    ensures ic[k].ino in inodes && inodes[ic[k].ino] == ic[k].d && WellFormedInode(ic[k].d) && !IsDir(ic[k].d.mode)
    ensures ic[k].d.nlinks == 0
  {
    hide DiskInode, Refs, Calm, LocksRead, Freeable, Tree, Whole, Entries, ReadIn;
    var i := ic[k].ino;
    assert MarkedInode(sb, disk, inodes[i], i, Refs(ic, i));
    RefsAtLeast(ic, k);
  }

  /** The volume after the last use of an inode. */
  lemma FreedSound(sb: SuperBlock, ipb: nat, disk0: Disk, disk: Disk, ic: seq<MemInode>, ic': seq<MemInode>,
                   inodes0: Inodes, inodes: Inodes,
                   k: nat, lk: set<nat>, x: nat, e: nat)
    requires InodeTable(sb, ipb, disk0, ic, inodes0) && WellFormed(inodes0)
    requires Sound(sb, ipb, disk0, ic, inodes0, lk, x, e) && 0 < ipb * DINODE <= BSIZE
    requires LastUse(ic, inodes0, k) && k !in lk && ic[k].valid
    requires inodes == inodes0[ic[k].ino := Truncated(ic[k].d)] && OthersRead(disk0, disk, inodes, ic[k].ino)
    requires OtherInodesKept(sb, ipb, disk0, disk, ic[k].ino) && !InodeBit(disk, ic[k].ino)
    requires |ic'| == |ic| && ic' == ic[k := ic'[k]] && ic'[k].ref == 0 && ic'[k].ino == ic[k].ino
    ensures Sound(sb, ipb, disk, ic', inodes, lk, x, e)
    ensures Entries(disk, inodes) == Entries(disk0, inodes0) && FilesBut(disk0, disk, inodes0, inodes, ic[k].ino)
  {
    hide DiskInode, Refs, Calm, LocksRead, Freeable, HoleFree, Tree, Whole, Entries, Children, Truncated, Marked,
         ReadIn, OtherInodesKept, OthersRead,
         MarkedInode, Bare, FilesBut, GoodDirectory, Counted;
    var i := ic[k].ino;
    LastUseFacts(sb, ipb, disk0, ic, inodes0, k, lk, x, e);
    BareAfter(disk, ic[k].d);
    FreedFiles(disk0, disk, inodes0, inodes, i);
    NoLinksNoNames(disk0, inodes0, i);
    TreeKept(disk0, disk, inodes0, inodes, i);
    WholeKept(disk0, disk, inodes0, inodes, i);
    EntriesKept(disk0, disk, inodes0, inodes, i);
    CountedSame(Entries(disk, inodes), inodes0, inodes, x, e);
    FreedTable(sb, ipb, disk0, disk, ic, inodes0, k, ic'[k], lk, inodes[i]);
  }

  // ---------------------------------------------------------------------------------------
  // Link counts and entries

  lemma NamesNone(entries: map<Links.Place, nat>, i: nat)
    requires |Links.Names(entries, i)| == 0
    ensures Nameless(entries, i)
  {
    forall p | p in entries ensures entries[p] != i {
      assert entries[p] == i ==> p in Links.Names(entries, i);
    }
  }

  /** A slot of a file that is in use: its number can be freed, and is not a directory's. */
  lemma InUseFacts(sb: SuperBlock, ipb: nat, disk: Disk, ic: seq<MemInode>, inodes: Inodes, k: nat)
    requires InodeTable(sb, ipb, disk, ic, inodes) && Marked(sb, disk, ic, inodes) && k < |ic| && ic[k].ref > 0
    ensures ic[k].ino in inodes && Freeable(sb, disk, ic[k].ino)
    ensures IsDir(inodes[ic[k].ino].mode) ==> inodes[ic[k].ino].nlinks > 0
    ensures Refs(ic, ic[k].ino) > 0
  {
    hide DiskInode, Refs, Freeable;
    RefsAtLeast(ic, k);
    assert MarkedInode(sb, disk, inodes[ic[k].ino], ic[k].ino, Refs(ic, ic[k].ino));
  }

  /** The slot of a locked inode after the inode changed in memory and on the disk. */
  lemma ChangedTable(sb: SuperBlock, ipb: nat, disk0: Disk, disk: Disk, ic: seq<MemInode>, inodes0: Inodes,
                     inodes: Inodes, k: nat, m: MemInode, lk: set<nat>)
    requires InodeTable(sb, ipb, disk0, ic, inodes0) && Marked(sb, disk0, ic, inodes0) && ReadIn(ic, inodes0)
    requires Calm(sb, ipb, disk0, ic, lk) && LocksRead(ic, lk)
    requires k < |ic| && k in lk && m == ic[k].(d := m.d) && 0 < ipb * DINODE <= BSIZE
    requires OtherInodesKept(sb, ipb, disk0, disk, m.ino) && SameInodeMap(sb, disk0, disk)
    requires m.ino >= 1 ==> DiskInode(sb, ipb, disk, m.ino) == m.d
    requires inodes == inodes0[m.ino := m.d] && (IsDir(m.d.mode) ==> m.d.nlinks > 0)
    ensures Marked(sb, disk, ic[k := m], inodes) && ReadIn(ic[k := m], inodes) && Calm(sb, ipb, disk, ic[k := m], lk)
    ensures LocksRead(ic[k := m], lk)
  {
    InUseFacts(sb, ipb, disk0, ic, inodes0, k);
    Unlocked(sb, ipb, disk0, ic, lk, k);
    StillFreeable(sb, disk0, disk, m.ino);
    RefsSet(ic, k, m, m.ino);
    hide DiskInode, Refs, Freeable, Calm, OtherInodesKept, SameInodeMap, Bare, InodeTable, Marked, ReadIn;
    assert ic[k].valid && ic[k].ref > 0;
    CacheKept(sb, ipb, disk0, disk, ic, inodes0, inodes, k, m, lk, lk);
  }

  lemma FileFacts(disk: Disk, inodes: Inodes, i: nat)
    requires Tree(disk, inodes) && Whole(disk, inodes) && i in inodes
    ensures WholeInode(disk, inodes[i]) && (i == ROOT_INO ==> IsDir(inodes[i].mode))
  {
  }

  lemma UpdateMap(sb: SuperBlock, ipb: nat, disk: Disk, disk': Disk, inodes: Inodes, i: nat)
    requires Updated(sb, ipb, disk, disk', inodes, i)
    ensures SameInodeMap(sb, disk, disk') && i >= 1 && i in inodes && 0 < ipb * DINODE <= BSIZE
    ensures DiskInode(sb, ipb, disk', i) == inodes[i]
  {
  }

  /** One file's count changes. */
  lemma CountChanged(entries: map<Links.Place, nat>, inodes0: Inodes, inodes: Inodes, x: nat, e: nat, i: nat, e': nat)
    requires Counted(entries, inodes0, x, e) && (e == 0 || x == i) && i in inodes0 && i in inodes
    requires inodes == inodes0[i := inodes[i]]
    requires inodes[i].nlinks == |Links.Names(entries, i)| + e'
    ensures Counted(entries, inodes, i, e')
  {
    hide Links.Names;
  }

  lemma CountSound(sb: SuperBlock, ipb: nat, disk0: Disk, disk: Disk, ic: seq<MemInode>, inodes0: Inodes,
                   inodes: Inodes, k: nat, m: MemInode,
                   lk: set<nat>, x: nat, e: nat, e': nat)
    requires InodeTable(sb, ipb, disk0, ic, inodes0) && WellFormed(inodes0)
    requires Sound(sb, ipb, disk0, ic, inodes0, lk, x, e) && 0 < ipb * DINODE <= BSIZE
    requires k < |ic| && k in lk && m == ic[k].(d := ic[k].d.(nlinks := m.d.nlinks)) && !IsDir(ic[k].d.mode)
    requires e == 0 || x == m.ino
    requires ic[k].ino in inodes0 && inodes0[ic[k].ino] == ic[k].d && ic[k].ino >= 1
    requires inodes == inodes0[m.ino := m.d] && Updated(sb, ipb, disk0, disk, inodes, m.ino)
    requires OtherInodesKept(sb, ipb, disk0, disk, m.ino)
    requires m.d.nlinks == |Links.Names(Entries(disk0, inodes0), m.ino)| + e'
    ensures Sound(sb, ipb, disk, ic[k := m], inodes, lk, m.ino, e')
    ensures Entries(disk, inodes) == Entries(disk0, inodes0) && ReadsBut(disk0, disk, inodes0, inodes, 0)
    ensures SameRoom(sb, disk0, disk, inodes0, inodes)
  {
    hide SameRoom, DiskInode, Refs, Calm, LocksRead, Freeable, HoleFree, Tree, Whole, WholeInode, Entries, Children,
         Marked, ReadIn, OtherInodesKept, MarkedInode, Bare,
         FilesBut, GoodDirectory, Links.Names, InodeTable, Updated, SameInodeMap, Counted, WellFormed, SameBytes,
         ReadsBut;
    FileFacts(disk0, inodes0, m.ino);
    UpdateMap(sb, ipb, disk0, disk, inodes, m.ino);
    CountChanged(Entries(disk0, inodes0), inodes0, inodes, x, e, m.ino, e');
    UpdatedFiles(sb, ipb, disk0, disk, inodes0, inodes, m.ino);
    EntriesKept(disk0, disk, inodes0, inodes, m.ino);
    WholeKept(disk0, disk, inodes0, inodes, m.ino);
    if m.d.nlinks == 0 {
      NamesNone(Entries(disk0, inodes0), m.ino);
    }
    TreeKept(disk0, disk, inodes0, inodes, m.ino);
    ReadsAll(disk0, disk, inodes0, inodes, m.ino);
    CountRoom(sb, ipb, disk0, disk, inodes0, inodes, m.ino);
    ChangedTable(sb, ipb, disk0, disk, ic, inodes0, inodes, k, m, lk);
  }

  /** `ip->nlinks++` or `ip->nlinks--`, and `iupdate(ip)`, of a file that is not a directory */
  method SetCount(fs: FileSystem, ip: nat, n: Byte, ghost lk: set<nat>, ghost x: nat, ghost e: nat, ghost e': nat)
    requires Settled(fs, lk, x, e) && ip in lk && ip < fs.icache.Length && !IsDir(fs.icache[ip].d.mode)
    requires e == 0 || x == fs.icache[ip].ino
    requires n == |Links.Names(Entries(fs.c.disk, fs.inodes), fs.icache[ip].ino)| + e'
    modifies fs`inodes, fs.icache, fs.c, fs.c.buf
    ensures Settled(fs, lk, old(fs.icache[ip].ino), e')
    ensures Entries(fs.c.disk, fs.inodes) == old(Entries(fs.c.disk, fs.inodes))
    ensures fs.icache[..] == old(fs.icache[..])[ip := old(fs.icache[ip]).(d := old(fs.icache[ip]).d.(nlinks := n))]
    ensures fs.inodes == old(fs.inodes)[old(fs.icache[ip].ino) := fs.icache[ip].d]
    ensures ReadsBut(old(fs.c.disk), fs.c.disk, old(fs.inodes), fs.inodes, 0)
    ensures SameRoom(fs.sb, old(fs.c.disk), fs.c.disk, old(fs.inodes), fs.inodes)
  {
    hide BufferCache.Valid, Inv, Tree, Whole, Marked, ReadIn, Counted, Entries, DiskInode, CalmSlot, MarkedInode,
         Calm, LocksRead, InodeTable, ReadsBut,
         Updated, OtherInodesKept, FilesBut, Links.Names, Locked, Sound, WholeInode, SameRoom;
    ghost var ic, ino, disk0, inodes0 := fs.icache[..], fs.icache[ip].ino, fs.c.disk, fs.inodes;
    CacheFacts(fs);
    LockedSlot(fs, lk, x, e, ip);
    SlotFacts(fs, ip);
    fs.SetLinks(ip, n);
    UpdateKeepsOthers(fs.sb, fs.ipb, disk0, fs.c.disk, fs.inodes, ino);
    CountSound(fs.sb, fs.ipb, disk0, fs.c.disk, ic, inodes0, fs.inodes, ip, fs.icache[ip], lk, x, e, e');
  }

  /** A locked directory of a sound volume can be searched and written. */
  lemma DirSlot(fs: FileSystem, lk: set<nat>, x: nat, e: nat, dp: nat)
    requires Settled(fs, lk, x, e) && dp in lk && dp < fs.icache.Length && IsDir(fs.icache[dp].d.mode)
    ensures DirReady(fs, dp) && fs.DiskAgrees(dp) && fs.icache[dp].ref > 0
    ensures fs.icache[dp].ino in fs.inodes && fs.icache[dp].d == fs.inodes[fs.icache[dp].ino]
    ensures Bindings(Bytes(fs, dp)) == Children(fs.c.disk, fs.inodes[fs.icache[dp].ino])
    ensures GoodDirectory(fs.c.disk, fs.inodes, fs.icache[dp].ino)
  {
    hide BufferCache.Valid, Whole, Marked, ReadIn, Counted, Entries, DiskInode, Calm, LocksRead, Bindings, Contents,
         IsDirectory, EndBlock, ZoneAt;
    LockedSlot(fs, lk, x, e, dp);
    assert GoodDirectory(fs.c.disk, fs.inodes, fs.icache[dp].ino);
  }

  lemma ChildGettable(fs: FileSystem, lk: set<nat>, x: nat, e: nat, dp: nat, name: Name)
    requires Settled(fs, lk, x, e) && dp in lk && dp < fs.icache.Length && IsDir(fs.icache[dp].d.mode)
    requires FreeSlots(fs.icache[..], |fs.icache[..]|) >= 1 && name in Bindings(Bytes(fs, dp))
    ensures CanGet(fs.icache[..], fs.inodes, Bindings(Bytes(fs, dp))[name])
    ensures Bindings(Bytes(fs, dp))[name] in fs.inodes && fs.inodes[Bindings(Bytes(fs, dp))[name]].nlinks > 0
  {
    DirSlot(fs, lk, x, e, dp);
    hide BufferCache.Valid, Inv, Whole, Marked, ReadIn, Counted, Entries, DiskInode, Calm, LocksRead, Bindings,
         Bytes, HoleFree, Children, IsDirectory;
    SomeFreeSlot(fs.icache[..], |fs.icache[..]|);
  }

  lemma WrittenDir(disk0: Disk, disk: Disk, inodes0: Inodes, inodes: Inodes, d: nat)
    requires FilesBut(disk0, disk, inodes0, inodes, d) && SameLinks(inodes0, inodes, d)
    requires GoodDirectory(disk, inodes, d)
    ensures OnlyChanged(disk0, disk, inodes0, inodes, d) && inodes == inodes0[d := inodes[d]]
    ensures inodes.Keys == inodes0.Keys
    ensures forall i :: i in inodes ==> inodes[i].mode == inodes0[i].mode && inodes[i].nlinks == inodes0[i].nlinks
  {
    hide Contents, SameFile, Children, IsDirectory;
  }

  /** A locked directory was written: what remains to be said is what it binds now. */
  lemma DirChanged(sb: SuperBlock, ipb: nat, disk0: Disk, disk: Disk, ic: seq<MemInode>, inodes0: Inodes,
                   inodes: Inodes, k: nat, m: MemInode,
                   lk: set<nat>, x: nat, e: nat, e': nat)
    requires InodeTable(sb, ipb, disk0, ic, inodes0) && Sound(sb, ipb, disk0, ic, inodes0, lk, x, e)
    requires 0 < ipb * DINODE <= BSIZE
    requires k < |ic| && k in lk && m == ic[k].(d := m.d) && ic[k].ino in inodes0 && inodes0[ic[k].ino] == ic[k].d
    requires IsDir(ic[k].d.mode)
    requires FilesBut(disk0, disk, inodes0, inodes, m.ino) && SameLinks(inodes0, inodes, m.ino) && inodes[m.ino] == m.d
    requires SameInodeMap(sb, disk0, disk) && OtherInodesKept(sb, ipb, disk0, disk, m.ino)
    requires m.ino >= 1 ==> DiskInode(sb, ipb, disk, m.ino) == m.d
    requires GoodDirectory(disk, inodes, m.ino)
    requires Counted(Entries(disk, inodes), inodes0, x, e')
    ensures Sound(sb, ipb, disk, ic[k := m], inodes, lk, x, e')
  {
    assert ic[k].ref > 0;
    hide DiskInode, Refs, Calm, LocksRead, Freeable, HoleFree, Tree, Whole, Entries, Children, Marked, ReadIn,
         OtherInodesKept, MarkedInode, Bare,
         FilesBut, GoodDirectory, Links.Names, InodeTable, Counted, SameInodeMap, SameLinks;
    InUseFacts(sb, ipb, disk0, ic, inodes0, k);
    WrittenDir(disk0, disk, inodes0, inodes, m.ino);
    assert m.ino in inodes && inodes[m.ino].nlinks == inodes0[m.ino].nlinks > 0;
    CountedSame(Entries(disk, inodes), inodes0, inodes, x, e');
    WholeKept(disk0, disk, inodes0, inodes, m.ino);
    TreeKept(disk0, disk, inodes0, inodes, m.ino);
    ChangedTable(sb, ipb, disk0, disk, ic, inodes0, inodes, k, m, lk);
  }

  /** dir_link of a locked file, whose count is one too high, into a locked directory. */
  method AddEntry(fs: FileSystem, dp: nat, name: Name, ip: nat, field: seq<Byte>, ghost lk: set<nat>, ghost x: nat)
      returns (room: bool, ok: bool)
    requires Settled(fs, lk, x, 1) && dp in lk && ip in lk && dp < fs.icache.Length && ip < fs.icache.Length
    requires IsDir(fs.icache[dp].d.mode) && !IsDir(fs.icache[ip].d.mode) && fs.icache[ip].ino == x
    requires IsName(name) && |field| == NAME_LEN && FreeSlots(fs.icache[..], |fs.icache[..]|) >= 1
    modifies fs`inodes, fs`owner, fs.icache, fs.c, fs.c.buf
    ensures ok <==> room && Links.Place(old(fs.icache[dp].ino), name) !in old(Entries(fs.c.disk, fs.inodes))
    ensures room <==> Links.Place(old(fs.icache[dp].ino), name) in old(Entries(fs.c.disk, fs.inodes))
                      || old(HasRoom(fs.sb, fs.c.disk, fs.inodes, fs.icache[dp].ino))
    ensures room && ok ==>
              && Settled(fs, lk, x, 0)
              && Entries(fs.c.disk, fs.inodes)
                  == old(Entries(fs.c.disk, fs.inodes))[Links.Place(old(fs.icache[dp].ino), name) := x]
              && ReadsBut(old(fs.c.disk), fs.c.disk, old(fs.inodes), fs.inodes, 0)
              && fs.icache[..] == old(fs.icache[..])[dp := old(fs.icache[dp]).(d := fs.icache[dp].d)]
              && SameLinks(old(fs.inodes), fs.inodes, old(fs.icache[dp].ino))
              && fs.inodes[old(fs.icache[dp].ino)].size <= old(fs.inodes)[old(fs.icache[dp].ino)].size + ENTRY
    ensures room && !ok ==>
              && Settled(fs, lk, x, 1) && fs.c.disk == old(fs.c.disk) && fs.inodes == old(fs.inodes)
              && SlotsBack(old(fs.icache[..]), fs.icache[..])
  {
    hide BufferCache.Valid, Inv, Tree, Whole, Marked, ReadIn, Counted, Entries, DiskInode, CalmSlot, MarkedInode,
         Calm, LocksRead, InodeTable,
         OtherInodesKept, SameInodeMap, FilesBut, Links.Names, Locked, WholeInode, Bindings, Bytes, HoleFree,
         DirReady, Children, GoodDirectory, SameLinks,
         SlotsBack, Refs, Room, HasRoom, CanGet, SlotFilled, ReadsBut, SameBytes;
    ghost var ic, d, disk0, inodes0 := fs.icache[..], fs.icache[dp].ino, fs.c.disk, fs.inodes;
    CacheFacts(fs);
    DirSlot(fs, lk, x, 1, dp);
    LockedSlot(fs, lk, x, 1, ip);
    ghost var s := Bytes(fs, dp);
    EntryAt(disk0, inodes0, d, name);
    RoomNow(fs, dp);
    if name in Bindings(s) {
      ChildGettable(fs, lk, x, 1, dp, name);
    }
    DirFacts(fs, dp);
    DirNow(fs, dp);
    room, ok := DirLink(fs, dp, name, ip, field, s);
    DirFacts(fs, dp);
    if !ok {
      if room {
        BackSound(fs.sb, fs.ipb, disk0, ic, fs.icache[..], inodes0, lk, x, 1);
      }
      return;
    }
    DirNow(fs, dp);
    OneMoreSlot(s, Bytes(fs, dp), name, ic[ip].ino);
    ReadsAll(disk0, fs.c.disk, inodes0, fs.inodes, d);
    Linked(fs.sb, fs.ipb, disk0, fs.c.disk, ic, inodes0, fs.inodes, dp, fs.icache[dp], lk, x, name);
  }

  lemma OneMoreSlot(s: seq<Byte>, t: seq<Byte>, name: Name, ino: nat)
    requires exists i: nat :: SlotFilled(s, t, i, name, ino)
    ensures |t| <= |s| + ENTRY
  {
    var i: nat :| SlotFilled(s, t, i, name, ino);
  }

  /** The directory as it is on the disk and in memory. */
  lemma DirNow(fs: FileSystem, dp: nat)
    requires DirReady(fs, dp) && dp < fs.icache.Length && fs.DiskAgrees(dp)
    ensures fs.icache[dp].ino in fs.inodes && fs.inodes[fs.icache[dp].ino] == fs.icache[dp].d
    ensures WellFormedInode(fs.icache[dp].d) && fs.icache[dp].d.size <= MAXSIZE && HoleFree(fs.c.disk, fs.icache[dp].d)
    ensures IsDirectory(Contents(fs.c.disk, fs.icache[dp].d))
    ensures Bindings(Bytes(fs, dp)) == Children(fs.c.disk, fs.icache[dp].d)
    ensures fs.icache[dp].ino >= 1 ==> DiskInode(fs.sb, fs.ipb, fs.c.disk, fs.icache[dp].ino) == fs.icache[dp].d
  {
    hide BufferCache.Valid, Inv, DiskInode, Bindings, Contents, IsDirectory, EndBlock, ZoneAt;
  }

  lemma RoomNow(fs: FileSystem, dp: nat)
    requires DirReady(fs, dp) && dp < fs.icache.Length && fs.DiskAgrees(dp)
    ensures Room(fs, dp, Bytes(fs, dp)) <==> HasRoom(fs.sb, fs.c.disk, fs.inodes, fs.icache[dp].ino)
  {
    DirNow(fs, dp);
    hide InodeLayer.FileSystem.Valid, RoomIn, Contents, DirReady;
  }

  lemma Linked(sb: SuperBlock, ipb: nat, disk0: Disk, disk: Disk, ic: seq<MemInode>, inodes0: Inodes,
               inodes: Inodes, k: nat, m: MemInode,
               lk: set<nat>, x: nat, name: Name)
    requires InodeTable(sb, ipb, disk0, ic, inodes0) && Sound(sb, ipb, disk0, ic, inodes0, lk, x, 1)
    requires 0 < ipb * DINODE <= BSIZE
    requires k < |ic| && k in lk && m == ic[k].(d := m.d) && ic[k].ino in inodes0 && inodes0[ic[k].ino] == ic[k].d
    requires IsDir(ic[k].d.mode)
    requires FilesBut(disk0, disk, inodes0, inodes, m.ino) && SameLinks(inodes0, inodes, m.ino) && inodes[m.ino] == m.d
    requires SameInodeMap(sb, disk0, disk) && OtherInodesKept(sb, ipb, disk0, disk, m.ino)
    requires m.ino >= 1 ==> DiskInode(sb, ipb, disk, m.ino) == m.d
    requires WellFormedInode(m.d) && m.d.size <= MAXSIZE && HoleFree(disk, m.d) && IsDirectory(Contents(disk, m.d))
    requires name !in Children(disk0, inodes0[m.ino])
    requires Children(disk, m.d) == Children(disk0, inodes0[m.ino])[name := x]
    requires x in inodes0 && !IsDir(inodes0[x].mode)
    ensures Sound(sb, ipb, disk, ic[k := m], inodes, lk, x, 0)
    ensures Entries(disk, inodes) == Entries(disk0, inodes0)[Links.Place(m.ino, name) := x]
  {
    var e0, at := Entries(disk0, inodes0), Links.Place(m.ino, name);
    hide DiskInode, Refs, Calm, LocksRead, Freeable, HoleFree, Tree, Whole, Entries, Children, Marked, ReadIn,
         OtherInodesKept, MarkedInode, Bare,
         FilesBut, GoodDirectory, Links.Names, InodeTable, SameInodeMap, SameLinks, IsDirectory, Contents, Counted,
         WholeInode, CalmSlot;
    HasLink(e0, inodes0, x);
    NewChild(disk0, disk, inodes0, inodes, m.ino, name, x);
    WrittenDir(disk0, disk, inodes0, inodes, m.ino);
    EntryAdded(disk0, disk, inodes0, inodes, m.ino, name, x);
    CountedAdd(e0, at, inodes0, x);
    DirChanged(sb, ipb, disk0, disk, ic, inodes0, inodes, k, m, lk, x, 1, 0);
  }

  /** The missing name is there now. */
  lemma CountedAdd(entries: map<Links.Place, nat>, at: Links.Place, inodes: Inodes, x: nat)
    requires Counted(entries, inodes, x, 1) && at !in entries
    ensures Counted(entries[at := x], inodes, x, 0)
  {
    Links.NamesAdd(entries, at, x);
    hide Links.Names;
  }

  lemma HasLink(entries: map<Links.Place, nat>, inodes: Inodes, x: nat)
    requires Counted(entries, inodes, x, 1) && x in inodes && !IsDir(inodes[x].mode)
    ensures inodes[x].nlinks > 0
  {
  }

  /** The directory with one more child is good. */
  lemma NewChild(disk0: Disk, disk: Disk, inodes0: Inodes, inodes: Inodes, d: nat, name: Name, x: nat)
    requires Tree(disk0, inodes0) && d in inodes0 && d in inodes && IsDir(inodes0[d].mode)
    requires SameLinks(inodes0, inodes, d)
    requires FilesBut(disk0, disk, inodes0, inodes, d) && HoleFree(disk, inodes[d])
    requires IsDirectory(Contents(disk, inodes[d]))
    requires x in inodes0 && inodes0[x].nlinks > 0
    requires Children(disk, inodes[d]) == Children(disk0, inodes0[d])[name := x]
    ensures GoodDirectory(disk, inodes, d)
  {
    assert GoodDirectory(disk0, inodes0, d);
    hide Children, HoleFree, Contents, SameFile, IsDirectory;
  }

  /** sys_unlink's write of an empty entry: the entry goes, and the count of the file is one too high. */
  method RemoveEntry(fs: FileSystem, dp: nat, name: Name, off: nat, ghost i: nat, ghost lk: set<nat>, ghost x: nat)
    requires Settled(fs, lk, x, 0) && dp in lk && dp < fs.icache.Length && IsDir(fs.icache[dp].d.mode)
    requires off % ENTRY == 0 && Binds(Bytes(fs, dp), off / ENTRY, name, i)
    modifies fs`inodes, fs`owner, fs.icache, fs.c, fs.c.buf
    ensures Settled(fs, lk, i, 1)
    ensures Links.Place(old(fs.icache[dp].ino), name) in old(Entries(fs.c.disk, fs.inodes))
    ensures old(Entries(fs.c.disk, fs.inodes))[Links.Place(old(fs.icache[dp].ino), name)] == i
    ensures Entries(fs.c.disk, fs.inodes)
              == old(Entries(fs.c.disk, fs.inodes)) - {Links.Place(old(fs.icache[dp].ino), name)}
    ensures ReadsBut(old(fs.c.disk), fs.c.disk, old(fs.inodes), fs.inodes, 0)
    ensures SameLinks(old(fs.inodes), fs.inodes, old(fs.icache[dp].ino))
    ensures fs.icache[..] == old(fs.icache[..])[dp := old(fs.icache[dp]).(d := fs.icache[dp].d)]
  {
    hide BufferCache.Valid, Inv, Tree, Whole, Marked, ReadIn, Counted, Entries, DiskInode, CalmSlot, MarkedInode,
         Calm, LocksRead, InodeTable,
         OtherInodesKept, SameInodeMap, FilesBut, Links.Names, Locked, WholeInode, Bindings, Bytes, HoleFree,
         DirReady, Children, GoodDirectory, SameLinks, Binds,
         IsDirectory, ReadsBut, SameBytes;
    ghost var ic, d, disk0, inodes0 := fs.icache[..], fs.icache[dp].ino, fs.c.disk, fs.inodes;
    CacheFacts(fs);
    DirSlot(fs, lk, x, 0, dp);
    DirNow(fs, dp);
    ghost var s := Bytes(fs, dp);
    DirFacts(fs, dp);
    BoundAt(s, off / ENTRY, name, i);
    ClearSlot(fs, dp, name, off, i, s);
    DirFacts(fs, dp);
    DirNow(fs, dp);
    ReadsAll(disk0, fs.c.disk, inodes0, fs.inodes, d);
    Unlinked(fs.sb, fs.ipb, disk0, fs.c.disk, ic, inodes0, fs.inodes, dp, fs.icache[dp], lk, x, name);
  }

  lemma Unlinked(sb: SuperBlock, ipb: nat, disk0: Disk, disk: Disk, ic: seq<MemInode>, inodes0: Inodes,
                 inodes: Inodes, k: nat, m: MemInode,
                 lk: set<nat>, x: nat, name: Name)
    requires InodeTable(sb, ipb, disk0, ic, inodes0) && Sound(sb, ipb, disk0, ic, inodes0, lk, x, 0)
    requires 0 < ipb * DINODE <= BSIZE
    requires k < |ic| && k in lk && m == ic[k].(d := m.d) && ic[k].ino in inodes0 && inodes0[ic[k].ino] == ic[k].d
    requires IsDir(ic[k].d.mode)
    requires FilesBut(disk0, disk, inodes0, inodes, m.ino) && SameLinks(inodes0, inodes, m.ino) && inodes[m.ino] == m.d
    requires SameInodeMap(sb, disk0, disk) && OtherInodesKept(sb, ipb, disk0, disk, m.ino)
    requires m.ino >= 1 ==> DiskInode(sb, ipb, disk, m.ino) == m.d
    requires WellFormedInode(m.d) && m.d.size <= MAXSIZE && HoleFree(disk, m.d) && IsDirectory(Contents(disk, m.d))
    requires name in Children(disk0, inodes0[m.ino]) && Children(disk, m.d) == Children(disk0, inodes0[m.ino]) - {name}
    ensures Sound(sb, ipb, disk, ic[k := m], inodes, lk, Children(disk0, inodes0[m.ino])[name], 1)
    ensures Links.Place(m.ino, name) in Entries(disk0, inodes0)
    ensures Entries(disk0, inodes0)[Links.Place(m.ino, name)] == Children(disk0, inodes0[m.ino])[name]
    ensures Entries(disk, inodes) == Entries(disk0, inodes0) - {Links.Place(m.ino, name)}
  {
    var e0, at := Entries(disk0, inodes0), Links.Place(m.ino, name);
    var i := Children(disk0, inodes0[m.ino])[name];
    hide DiskInode, Refs, Calm, LocksRead, Freeable, HoleFree, Tree, Whole, Entries, Children, Marked, ReadIn,
         OtherInodesKept, MarkedInode, Bare,
         FilesBut, GoodDirectory, Links.Names, InodeTable, SameInodeMap, SameLinks, IsDirectory, Contents, Counted,
         WholeInode, CalmSlot;
    FewerChildren(disk0, disk, inodes0, inodes, m.ino, name);
    WrittenDir(disk0, disk, inodes0, inodes, m.ino);
    EntryRemoved(disk0, disk, inodes0, inodes, m.ino, name);
    CountedRemove(e0, at, inodes0, x);
    AnyFile(e0, inodes0, x, i);
    DirChanged(sb, ipb, disk0, disk, ic, inodes0, inodes, k, m, lk, i, 0, 1);
  }

  /** A name that is gone is still counted. */
  lemma CountedRemove(entries: map<Links.Place, nat>, at: Links.Place, inodes: Inodes, x: nat)
    requires Counted(entries, inodes, x, 0) && at in entries
    ensures Counted(entries - {at}, inodes, entries[at], 1)
  {
    Links.NamesRemove(entries, at);
    hide Links.Names;
  }

  /** With no call between its changes, no file is special. */
  lemma AnyFile(entries: map<Links.Place, nat>, inodes: Inodes, x: nat, y: nat)
    requires Counted(entries, inodes, x, 0)
    ensures Counted(entries, inodes, y, 0)
  {
  }

  lemma FewerChildren(disk0: Disk, disk: Disk, inodes0: Inodes, inodes: Inodes, d: nat, name: Name)
    requires Tree(disk0, inodes0) && d in inodes0 && d in inodes && IsDir(inodes0[d].mode)
    requires SameLinks(inodes0, inodes, d)
    requires FilesBut(disk0, disk, inodes0, inodes, d) && HoleFree(disk, inodes[d])
    requires IsDirectory(Contents(disk, inodes[d]))
    requires Children(disk, inodes[d]) == Children(disk0, inodes0[d]) - {name}
    ensures GoodDirectory(disk, inodes, d)
  {
    assert GoodDirectory(disk0, inodes0, d);
    hide Children, HoleFree, Contents, SameFile, IsDirectory;
  }

  // ---------------------------------------------------------------------------------------
  // Path walks

  lemma {:induction false} FreeSlotsKept(ic0: seq<MemInode>, ic: seq<MemInode>, ip: int, n: nat)
    requires OneMore(ic0, ic, ip) && n <= |ic|
    ensures FreeSlots(ic, n) + (if 0 <= ip < n then 1 else 0) >= FreeSlots(ic0, n)
  {
    if n > 0 {
      FreeSlotsKept(ic0, ic, ip, n - 1);
      assert ic[n - 1].ref == ic0[n - 1].ref + (if n - 1 == ip then 1 else 0);
    }
  }

  lemma {:induction false} ParentIsDir(disk: Disk, inodes: Inodes, ino: nat, names: seq<Name>)
    requires ResolveParent(disk, inodes, ino, names).Some?
    ensures var d := ResolveParent(disk, inodes, ino, names).value; d in inodes && IsDir(inodes[d].mode)
    decreases |names|
  {
    if |names| > 1 {
      ParentIsDir(disk, inodes, Children(disk, inodes[ino])[names[0]], names[1..]);
    }
  }

  function StartOf(ic: seq<MemInode>, path: Path, cwd: nat): (start: nat)
    ensures start == if path != [] && path[0] == 47 then 1 else if cwd < |ic| then ic[cwd].ino else 0
  {
    if IsAbsolute(path) then ROOT_INO else if cwd < |ic| then ic[cwd].ino else 0
  }

  ghost predicate HasStart(ic: seq<MemInode>, path: Path, cwd: nat) {
    IsAbsolute(path) || (cwd < |ic| && ic[cwd].ref > 0)
  }

  /** p2i and p2ip leave the volume sound, with one reference more or none. */
  method Find(fs: FileSystem, path: Path, parent: bool, cwd: nat, ghost lk: set<nat>, ghost x: nat, ghost e: nat)
      returns (stuck: bool, ok: bool, ip: nat, name: Name)
    requires Settled(fs, lk, x, e) && HasStart(fs.icache[..], path, cwd)
    requires FreeSlots(fs.icache[..], |fs.icache[..]|) >= 2 && Fit(path)
    modifies fs`inodes, fs`owner, fs.icache, fs.c, fs.c.buf
    ensures fs.c.disk == old(fs.c.disk) && fs.inodes == old(fs.inodes)
    ensures var start := StartOf(old(fs.icache[..]), path, cwd);
            var target := Target(fs.c.disk, fs.inodes, parent, start, Components(path));
            && (stuck <==> Meets(fs.c.disk, fs.inodes, start, Components(path), LockedInos(old(fs.icache[..]), lk)))
            && (!stuck ==>
                  && (ok <==> target.Some?) && Settled(fs, lk, x, e)
                  && OneMore(old(fs.icache[..]), fs.icache[..], if ok then ip else -1))
            && (!stuck && ok ==>
                  ip < fs.icache.Length && fs.icache[ip].ino == target.value && fs.icache[ip].ino in fs.inodes)
    ensures !stuck && ok ==> !LastUse(fs.icache[..], fs.inodes, ip)
    ensures !stuck && ok && parent ==>
              && Components(path) != [] && name == Components(path)[|Components(path)| - 1] && IsName(name)
              && IsDir(fs.inodes[fs.icache[ip].ino].mode)
  {
    hide BufferCache.Valid, Inv, Tree, Whole, Marked, ReadIn, Counted, Entries, DiskInode, CalmSlot, MarkedInode,
         Calm, InodeTable, Children, Components,
         FreeSlots, Refs, IsName, Meets, LockedInos;
    ghost var ic := fs.icache[..];
    stuck, ok, ip, name := Path2Inode(fs, path, parent, cwd, lk);
    if stuck {
      return;
    }
    if ok {
      WalkEnd(fs, ip, ic, lk);
      WalkSound(fs.sb, fs.ipb, fs.c.disk, ic, fs.icache[..], fs.inodes, ip, lk, x, e);
      if parent {
        ParentIsDir(fs.c.disk, fs.inodes, StartOf(ic, path, cwd), Components(path));
      }
    } else {
      WalkSound(fs.sb, fs.ipb, fs.c.disk, ic, fs.icache[..], fs.inodes, -1, lk, x, e);
    }
  }

  lemma WalkEnd(fs: FileSystem, ip: nat, ic: seq<MemInode>, lk: set<nat>)
    requires Walking(fs, ip, ic, false, lk)
    ensures ip < fs.icache.Length && OneMore(ic, fs.icache[..], ip) && Calm(fs.sb, fs.ipb, fs.c.disk, fs.icache[..], lk)
    ensures RefsChange(ic, fs.icache[..], fs.icache[ip].ino, 1) && fs.icache[ip].ino in fs.inodes
    ensures fs.icache[ip].ref > 1 || fs.inodes[fs.icache[ip].ino].nlinks > 0
  {
    hide BufferCache.Valid, Inv, Tree, DiskInode, Refs, FreeSlots;
    forall k | 0 <= k < |fs.icache[..]| ensures CalmSlot(fs.sb, fs.ipb, fs.c.disk, fs.icache[..][k], k in lk) {
      assert k != ip ==> CalmSlot(fs.sb, fs.ipb, fs.c.disk, fs.icache[..][k], k in lk);
    }
  }

  // ---------------------------------------------------------------------------------------
  // What a call has borrowed of the inode table

  /** Against the table ic0 the call holds the references `refs` more; slots in use keep their inode. */
  ghost predicate Borrowed(ic0: seq<MemInode>, ic: seq<MemInode>, refs: multiset<nat>) {
    && |ic| == |ic0|
    && forall k :: 0 <= k < |ic| ==> ic[k].ref == ic0[k].ref + refs[k] && (ic0[k].ref > 0 ==> ic[k].ino == ic0[k].ino)
  }

  lemma BorrowNone(ic: seq<MemInode>)
    ensures Borrowed(ic, ic, multiset{})
  {
  }

  lemma BorrowMore(ic0: seq<MemInode>, ic1: seq<MemInode>, ic2: seq<MemInode>, refs: multiset<nat>, ip: nat)
    requires Borrowed(ic0, ic1, refs) && OneMore(ic1, ic2, ip)
    ensures Borrowed(ic0, ic2, refs + multiset{ip})
  {
    forall k | 0 <= k < |ic2|
      ensures ic2[k].ref == ic0[k].ref + (refs + multiset{ip})[k] && (ic0[k].ref > 0 ==> ic2[k].ino == ic0[k].ino)
    {
      assert ic1[k].ref == ic0[k].ref + refs[k] && SlotKept(ic1[k], ic2[k]);
    }
  }

  lemma BorrowSame(ic0: seq<MemInode>, ic1: seq<MemInode>, ic2: seq<MemInode>, refs: multiset<nat>)
    requires Borrowed(ic0, ic1, refs) && |ic2| == |ic1|
    requires forall k :: 0 <= k < |ic2| ==> ic2[k].ref == ic1[k].ref && (ic1[k].ref > 0 ==> ic2[k].ino == ic1[k].ino)
    ensures Borrowed(ic0, ic2, refs)
  {
    forall k | 0 <= k < |ic2|
      ensures ic2[k].ref == ic0[k].ref + refs[k] && (ic0[k].ref > 0 ==> ic2[k].ino == ic0[k].ino)
    {
      assert ic1[k].ref == ic0[k].ref + refs[k];
    }
  }

  lemma BorrowLess(ic0: seq<MemInode>, ic1: seq<MemInode>, ic2: seq<MemInode>, refs: multiset<nat>, ip: nat)
    requires Borrowed(ic0, ic1, refs) && refs[ip] > 0 && ip < |ic1| == |ic2| && ic2 == ic1[ip := ic2[ip]]
    requires ic2[ip].ref == ic1[ip].ref - 1
    requires ic2[ip].ref > 0 ==> ic2[ip].ino == ic1[ip].ino
    ensures Borrowed(ic0, ic2, refs - multiset{ip})
  {
    forall k | 0 <= k < |ic2|
      ensures ic2[k].ref == ic0[k].ref + (refs - multiset{ip})[k] && (ic0[k].ref > 0 ==> ic2[k].ino == ic0[k].ino)
    {
      assert ic1[k].ref == ic0[k].ref + refs[k];
    }
  }

  lemma {:induction false} SameFreeSlots(ic: seq<MemInode>, ic': seq<MemInode>, n: nat)
    requires n <= |ic| == |ic'| && forall k :: 0 <= k < |ic| ==> ic'[k].ref == ic[k].ref
    ensures FreeSlots(ic', n) == FreeSlots(ic, n)
  {
    if n > 0 {
      SameFreeSlots(ic, ic', n - 1);
    }
  }

  lemma OneLocked(ic: seq<MemInode>, ip: nat)
    requires ip < |ic|
    ensures LockedInos(ic, {ip}) == {ic[ip].ino}
  {
    assert ic[ip].ino in LockedInos(ic, {ip});
  }

  /** A directory in use has links. */
  lemma DirInUse(fs: FileSystem, lk: set<nat>, x: nat, e: nat, dp: nat)
    requires Settled(fs, lk, x, e) && dp < fs.icache.Length && fs.icache[dp].ref > 0 && fs.icache[dp].ino in fs.inodes
    requires IsDir(fs.inodes[fs.icache[dp].ino].mode)
    ensures !LastUse(fs.icache[..], fs.inodes, dp)
  {
    CacheFacts(fs);
    hide BufferCache.Valid, Inv, Tree, Whole, ReadIn, Counted, Entries, DiskInode, Calm, LocksRead;
    InUseFacts(fs.sb, fs.ipb, fs.c.disk, fs.icache[..], fs.inodes, dp);
  }

  /** Walks depend on the entries and on which inodes are directories. */
  lemma {:induction false} SameWalk(disk: Disk, disk': Disk, inodes: Inodes, inodes': Inodes, ino: nat,
                                    names: seq<Name>, l: set<nat>)
    requires Entries(disk', inodes') == Entries(disk, inodes) && inodes'.Keys == inodes.Keys
    requires forall i :: i in inodes ==> inodes'[i].mode == inodes[i].mode
    ensures Resolve(disk', inodes', ino, names) == Resolve(disk, inodes, ino, names)
    ensures ResolveParent(disk', inodes', ino, names) == ResolveParent(disk, inodes, ino, names)
    ensures Meets(disk', inodes', ino, names, l) <==> Meets(disk, inodes, ino, names, l)
    decreases |names|
  {
    hide Entries, Children;
    if names != [] && ino in inodes && IsDir(inodes[ino].mode) {
      EntryAt(disk, inodes, ino, names[0]);
      EntryAt(disk', inodes', ino, names[0]);
      if names[0] in Children(disk, inodes[ino]) {
        SameWalk(disk, disk', inodes, inodes', Children(disk, inodes[ino])[names[0]], names[1..], l);
      }
    }
  }

  // ---------------------------------------------------------------------------------------
  // sys_link

  /** How a call ends: it did its work, it returned -1, or it stopped the kernel: waiting for an inode
      that it has locked itself, without room on the disk, or at the limit of a link count. */
  datatype Outcome = Done | Refused | Stuck | NoRoom | CountFull

  predicate Returns(r: Outcome) { r.Done? || r.Refused? }

  /** ilock as seen from the table of references. */
  method LockOne(fs: FileSystem, ip: nat, ghost lk: set<nat>, ghost x: nat, ghost e: nat, ghost ic0: seq<MemInode>,
                 ghost refs: multiset<nat>)
    requires Settled(fs, lk, x, e) && ip < fs.icache.Length && fs.icache[ip].ref > 0 && ip !in lk
    requires Borrowed(ic0, fs.icache[..], refs)
    modifies fs.icache, fs.c, fs.c.buf
    ensures Settled(fs, lk + {ip}, x, e) && fs.c.disk == old(fs.c.disk) && Borrowed(ic0, fs.icache[..], refs)
    ensures FreeSlots(fs.icache[..], fs.icache.Length) == old(FreeSlots(fs.icache[..], fs.icache.Length))
    ensures fs.icache[ip].ino == old(fs.icache[ip].ino) && fs.icache[ip].ref == old(fs.icache[ip].ref)
    ensures fs.icache[ip].ino in fs.inodes && fs.icache[ip].d == fs.inodes[fs.icache[ip].ino]
    ensures forall k :: 0 <= k < fs.icache.Length && k != ip ==> fs.icache[k] == old(fs.icache[k])
  {
    hide Settled, Borrowed;
    ghost var ic := fs.icache[..];
    Lock(fs, ip, lk, x, e);
    BorrowSame(ic0, ic, fs.icache[..], refs);
    SameFreeSlots(ic, fs.icache[..], |ic|);
  }

  /** iunlockput */
  method UnlockPut(fs: FileSystem, ip: nat, ghost lk: set<nat>, ghost x: nat, ghost e: nat,
                   ghost ic0: seq<MemInode>, ghost refs: multiset<nat>)
    requires Settled(fs, lk + {ip}, x, e) && ip < fs.icache.Length && fs.icache[ip].ref > 0 && ip !in lk
    requires Borrowed(ic0, fs.icache[..], refs) && refs[ip] > 0
    modifies fs`inodes, fs.icache, fs.c, fs.c.buf
    ensures Settled(fs, lk, x, e) && Borrowed(ic0, fs.icache[..], refs - multiset{ip})
    ensures Entries(fs.c.disk, fs.inodes) == old(Entries(fs.c.disk, fs.inodes))
    ensures !old(LastUse(fs.icache[..], fs.inodes, ip)) ==> fs.c.disk == old(fs.c.disk) && fs.inodes == old(fs.inodes)
    ensures old(LastUse(fs.icache[..], fs.inodes, ip)) ==>
              && WellFormedInode(old(fs.icache[ip].d))
              && fs.inodes == old(fs.inodes)[old(fs.icache[ip].ino) := Truncated(old(fs.icache[ip].d))]
              && Returned(fs.sb, old(fs.c.disk), fs.c.disk, old(fs.icache[ip].d))
              && !InodeBit(fs.c.disk, old(fs.icache[ip].ino))
              && FilesBut(old(fs.c.disk), fs.c.disk, old(fs.inodes), fs.inodes, old(fs.icache[ip].ino))
    ensures forall k :: 0 <= k < fs.icache.Length && k != ip ==> fs.icache[k] == old(fs.icache[k])
  {
    hide Settled, Borrowed, Entries, FilesBut, Truncated, Returned, InodeBit;
    ghost var ic := fs.icache[..];
    Unlock(fs, ip, lk + {ip}, x, e);
    assert lk + {ip} - {ip} == lk;
    BorrowSame(ic0, ic, fs.icache[..], refs);
    ghost var ic1 := fs.icache[..];
    Put(fs, ip, lk, x, e);
    BorrowLess(ic0, ic1, fs.icache[..], refs, ip);
  }

  /** The directory exists and does not have the last name. */
  ghost predicate NewName(disk: Disk, inodes: Inodes, start: nat, names: seq<Name>) {
    && names != [] && ResolveParent(disk, inodes, start, names).Some?
    && Place(disk, inodes, start, names) !in Entries(disk, inodes)
  }

  ghost function Place(disk: Disk, inodes: Inodes, start: nat, names: seq<Name>): Links.Place
    requires names != [] && ResolveParent(disk, inodes, start, names).Some?
  {
    Links.Place(ResolveParent(disk, inodes, start, names).value, names[|names| - 1])
  }

  /** The directory exists and does not have the last name, but no entry can be written into it. */
  ghost predicate NoPlace(sb: SuperBlock, disk: Disk, inodes: Inodes, start: nat, names: seq<Name>) {
    NewName(disk, inodes, start, names) && !HasRoom(sb, disk, inodes, Place(disk, inodes, start, names).dir)
  }

  /** Raising the count of a file leaves all directories as they are. */
  lemma SamePlace(sb: SuperBlock, disk: Disk, disk': Disk, inodes: Inodes, inodes': Inodes, start: nat,
                  names: seq<Name>)
    requires Entries(disk', inodes') == Entries(disk, inodes) && SameRoom(sb, disk, disk', inodes, inodes')
    requires ResolveParent(disk', inodes', start, names) == ResolveParent(disk, inodes, start, names)
    ensures NewName(disk', inodes', start, names) <==> NewName(disk, inodes, start, names)
    ensures NewName(disk, inodes, start, names) ==>
              Place(disk', inodes', start, names) == Place(disk, inodes, start, names)
    ensures NoPlace(sb, disk', inodes', start, names) <==> NoPlace(sb, disk, inodes, start, names)
  {
    hide Entries, HasRoom, ResolveParent;
    if names != [] && ResolveParent(disk, inodes, start, names).Some? {
      ParentIsDir(disk, inodes, start, names);
    }
  }

  /** A new entry for file x, whose count has been raised. */
  ghost predicate Entering(r: Outcome, sb: SuperBlock, disk0: Disk, disk: Disk, inodes0: Inodes, inodes: Inodes,
                           x: nat, start: nat, names: seq<Name>)
  {
    && r != CountFull && (r == Stuck <==> Meets(disk0, inodes0, start, names, {x}))
    && (r == NoRoom <==> !Meets(disk0, inodes0, start, names, {x}) && NoPlace(sb, disk0, inodes0, start, names))
    && (r == Done ==>
          && NewName(disk0, inodes0, start, names)
          && Entries(disk, inodes) == Entries(disk0, inodes0)[Place(disk0, inodes0, start, names) := x])
    && (r == Refused ==>
          && !NewName(disk0, inodes0, start, names) && Entries(disk, inodes) == Entries(disk0, inodes0)
          && inodes == inodes0)
    && (Returns(r) ==> ReadsBut(disk0, disk, inodes0, inodes, 0))
  }

  /** The file is not a directory, and its count can be raised. */
  ghost predicate Linkable(inodes: Inodes, target: Option<nat>) {
    IsFile(inodes, target) && inodes[target.value].nlinks < 255
  }

  ghost predicate IsFile(inodes: Inodes, target: Option<nat>) {
    target.Some? && target.value in inodes && !IsDir(inodes[target.value].mode)
  }

  /** What sys_link does about a file and a new name for it. */
  ghost predicate Linking(r: Outcome, sb: SuperBlock, disk0: Disk, disk: Disk, inodes0: Inodes, inodes: Inodes,
                          target: Option<nat>, start: nat, names: seq<Name>)
  {
    && (r == CountFull <==> IsFile(inodes0, target) && inodes0[target.value].nlinks == 255)
    && (r == Stuck <==> Linkable(inodes0, target) && Meets(disk0, inodes0, start, names, {target.value}))
    && (r == NoRoom <==>
          && Linkable(inodes0, target) && !Meets(disk0, inodes0, start, names, {target.value})
          && NoPlace(sb, disk0, inodes0, start, names))
    && (r == Done ==>
          && Linkable(inodes0, target) && NewName(disk0, inodes0, start, names)
          && Entries(disk, inodes) == Entries(disk0, inodes0)[Place(disk0, inodes0, start, names) := target.value])
    && (r == Refused ==>
          && !(Linkable(inodes0, target) && NewName(disk0, inodes0, start, names))
          && Entries(disk, inodes) == Entries(disk0, inodes0) && inodes == inodes0)
    && (Returns(r) ==> ReadsBut(disk0, disk, inodes0, inodes, 0))
  }

  /** sys_link with the file locked and its count raised: the new entry, or none when the directory does
      not exist or has the name already. */
  method LinkTo(fs: FileSystem, ip: nat, path: Path, cwd: nat, field: seq<Byte>, ghost x: nat,
                ghost ic0: seq<MemInode>, ghost refs: multiset<nat>)
      returns (r: Outcome)
    requires Settled(fs, {ip}, x, 1) && ip < fs.icache.Length && fs.icache[ip].ino == x && fs.icache[ip].ref > 0
    requires !IsDir(fs.icache[ip].d.mode)
    requires HasStart(fs.icache[..], path, cwd) && FreeSlots(fs.icache[..], fs.icache.Length) >= 2 && Fit(path)
    requires |field| == NAME_LEN
    requires Borrowed(ic0, fs.icache[..], refs)
    modifies fs`inodes, fs`owner, fs.icache, fs.c, fs.c.buf
    ensures Entering(r, fs.sb, old(fs.c.disk), fs.c.disk, old(fs.inodes), fs.inodes, x,
                     StartOf(old(fs.icache[..]), path, cwd), Components(path))
    ensures r == Done ==> Settled(fs, {ip}, x, 0)
    ensures r == Refused ==> Settled(fs, {ip}, x, 1)
    ensures Returns(r) ==>
              && Borrowed(ic0, fs.icache[..], refs) && fs.icache[ip].ino == x && fs.icache[ip].ref > 0
              && fs.icache[ip].d == old(fs.icache[ip].d)
  {
    hide Settled, Borrowed, Entries, FreeSlots, Components, Resolve, ResolveParent, Meets, LockedInos, LastUse,
         FilesBut, HasRoom, ReadsBut;
    ghost var ic := fs.icache[..];
    OneLocked(ic, ip);
    ReadsNow(fs, {ip}, x, 1);
    assert fs.icache[ip].valid by { LockedSlot(fs, {ip}, x, 1, ip); }
    var stuck, ok, dp, name := Find(fs, path, true, cwd, {ip}, x, 1);
    if stuck {
      return Stuck;
    }
    if !ok {
      BorrowBack(ic0, ic, fs.icache[..], refs);
      assert SlotKept(ic[ip], fs.icache[..][ip]);
      return Refused;
    }
    BorrowMore(ic0, ic, fs.icache[..], refs, dp);
    FreeSlotsKept(ic, fs.icache[..], dp, |ic|);
    assert SlotKept(ic[ip], fs.icache[..][ip]);
    assert dp != ip by { LockedSlot(fs, {ip}, x, 1, ip); }
    LockOne(fs, dp, {ip}, x, 1, ic0, refs + multiset{dp});
    r := EnterName(fs, dp, name, ip, field, x, ic0, refs);
  }

  /** What sys_link and sys_unlink are called with: paths that start somewhere and names that fit, and
      three free slots of the inode table. */
  ghost predicate CanWalk(fs: FileSystem, path: Path, cwd: nat)
    reads fs, fs.icache
  {
    HasStart(fs.icache[..], path, cwd) && Fit(path) && FreeSlots(fs.icache[..], fs.icache.Length) >= 3
  }

  /** sys_link: exactly one entry more, for the file that the old path leads to, or nothing changes when
      there is no such file, it is a directory, the new name's directory does not exist or has the
      name.  The kernel gets stuck if and only if the new path passes through the file, and stops for want
      of room if and only if the new name's directory can take no entry. */
  method SysLink(fs: FileSystem, oldPath: Path, newPath: Path, cwd: nat, field: seq<Byte>) returns (r: Outcome)
    requires Settled(fs, {}, 0, 0) && CanWalk(fs, oldPath, cwd) && CanWalk(fs, newPath, cwd) && |field| == NAME_LEN
    modifies fs`inodes, fs`owner, fs.icache, fs.c, fs.c.buf
    ensures var ic := old(fs.icache[..]);
            var target := Resolve(old(fs.c.disk), old(fs.inodes), StartOf(ic, oldPath, cwd), Components(oldPath));
            Linking(r, fs.sb, old(fs.c.disk), fs.c.disk, old(fs.inodes), fs.inodes, target,
                    StartOf(ic, newPath, cwd), Components(newPath))
    ensures Returns(r) ==> Settled(fs, {}, 0, 0) && Borrowed(old(fs.icache[..]), fs.icache[..], multiset{})
  {
    hide Settled, Borrowed, Entries, FreeSlots, Components, Resolve, ResolveParent, Meets, LockedInos, LastUse,
         FilesBut, HasRoom, ReadsBut;
    ReadsNow(fs, {}, 0, 0);
    ghost var ic0, disk0, inodes0 := fs.icache[..], fs.c.disk, fs.inodes;
    BorrowNone(ic0);
    var stuck, ok, ip, name := Find(fs, oldPath, false, cwd, {}, 0, 0);
    assert !stuck by { NotStuck(fs.c.disk, fs.inodes, StartOf(ic0, oldPath, cwd), Components(oldPath), ic0); }
    if !ok {
      BorrowBack(ic0, ic0, fs.icache[..], multiset{});
      return Refused;
    }
    BorrowMore(ic0, ic0, fs.icache[..], multiset{}, ip);
    assert multiset{} + multiset{ip} == multiset{ip};
    FreeSlotsKept(ic0, fs.icache[..], ip, |ic0|);
    StartKept(ic0, fs.icache[..], newPath, cwd, ip);
    ghost var ic1 := fs.icache[..];
    LockOne(fs, ip, {}, 0, 0, ic0, multiset{ip});
    assert {} + {ip} == {ip};
    SameStart(ic1, fs.icache[..], newPath, cwd);
    StillUsed(ic1, fs.icache[..], fs.inodes, ip);
    r := LinkFile(fs, ip, newPath, cwd, field, ic0);
  }

  lemma {:induction false} NotStuck(disk: Disk, inodes: Inodes, ino: nat, names: seq<Name>, ic: seq<MemInode>)
    ensures !Meets(disk, inodes, ino, names, LockedInos(ic, {}))
    decreases |names|
  {
    hide Children;
    assert LockedInos(ic, {}) == {};
    if names != [] && ino in inodes && IsDir(inodes[ino].mode) && names[0] in Children(disk, inodes[ino]) {
      NotStuck(disk, inodes, Children(disk, inodes[ino])[names[0]], names[1..], ic);
    }
  }

  lemma StartKept(ic: seq<MemInode>, ic': seq<MemInode>, path: Path, cwd: nat, ip: int)
    requires OneMore(ic, ic', ip) && HasStart(ic, path, cwd)
    ensures HasStart(ic', path, cwd) && StartOf(ic', path, cwd) == StartOf(ic, path, cwd)
  {
    if !IsAbsolute(path) {
      assert ic'[cwd].ref == ic[cwd].ref + (if cwd == ip then 1 else 0) && SlotKept(ic[cwd], ic'[cwd]);
    }
  }

  lemma SameStart(ic: seq<MemInode>, ic': seq<MemInode>, path: Path, cwd: nat)
    requires |ic'| == |ic| && HasStart(ic, path, cwd)
    requires forall k :: 0 <= k < |ic| ==> ic'[k].ref == ic[k].ref && (ic[k].ref > 0 ==> ic'[k].ino == ic[k].ino)
    ensures HasStart(ic', path, cwd) && StartOf(ic', path, cwd) == StartOf(ic, path, cwd)
  {
  }

  lemma StillUsed(ic: seq<MemInode>, ic': seq<MemInode>, inodes: Inodes, ip: nat)
    requires !LastUse(ic, inodes, ip) && |ic'| == |ic| && ip < |ic| && ic'[ip].ref == ic[ip].ref
    requires ic'[ip].ino == ic[ip].ino
    ensures !LastUse(ic', inodes, ip)
  {
  }

  /** A count that is not being changed is the number of names. */
  lemma CountIs(fs: FileSystem, lk: set<nat>, x: nat, e: nat, i: nat)
    requires Settled(fs, lk, x, e) && i in fs.inodes && !IsDir(fs.inodes[i].mode)
    ensures fs.inodes[i].nlinks == |Links.Names(Entries(fs.c.disk, fs.inodes), i)| + if i == x then e else 0
  {
    hide BufferCache.Valid, Inv, Tree, Whole, Marked, ReadIn, Entries, Calm, LocksRead, Links.Names;
  }

  lemma NoneSpecial(fs: FileSystem, lk: set<nat>, x: nat, y: nat)
    requires Settled(fs, lk, x, 0)
    ensures Settled(fs, lk, y, 0)
  {
    hide BufferCache.Valid, Inv, Tree, Whole, Marked, ReadIn, Entries, Calm, LocksRead, Links.Names;
    AnyFile(Entries(fs.c.disk, fs.inodes), fs.inodes, x, y);
  }

  /** sys_link once the file is locked. */
  method LinkFile(fs: FileSystem, ip: nat, path: Path, cwd: nat, field: seq<Byte>, ghost ic0: seq<MemInode>)
      returns (r: Outcome)
    requires Settled(fs, {ip}, 0, 0) && Borrowed(ic0, fs.icache[..], multiset{ip}) && ip < fs.icache.Length
    requires fs.icache[ip].ref > 0
    requires fs.icache[ip].ino in fs.inodes && fs.icache[ip].d == fs.inodes[fs.icache[ip].ino]
    requires !LastUse(fs.icache[..], fs.inodes, ip)
    requires HasStart(fs.icache[..], path, cwd) && FreeSlots(fs.icache[..], fs.icache.Length) >= 2 && Fit(path)
    requires |field| == NAME_LEN
    modifies fs`inodes, fs`owner, fs.icache, fs.c, fs.c.buf
    ensures Linking(r, fs.sb, old(fs.c.disk), fs.c.disk, old(fs.inodes), fs.inodes, Some(old(fs.icache[ip].ino)),
                    StartOf(old(fs.icache[..]), path, cwd), Components(path))
    ensures Returns(r) ==> Settled(fs, {}, 0, 0) && Borrowed(ic0, fs.icache[..], multiset{})
  {
    hide Settled, Borrowed, Entries, FreeSlots, Components, ResolveParent, Meets, LastUse, ReadsBut, NewName,
         NoPlace, Place, HasStart, StartOf, Fit;
    ReadsNow(fs, {ip}, 0, 0);
    if IsDir(fs.icache[ip].d.mode) {
      assert multiset{ip} - multiset{ip} == multiset{} && {} + {ip} == {ip};
      UnlockPut(fs, ip, {}, 0, 0, ic0, multiset{ip});
      return Refused;
    }
    if fs.icache[ip].d.nlinks == 255 {
      return CountFull;
    }
    r := RaiseAndEnter(fs, ip, path, cwd, field, ic0);
  }

  /** The count is raised, and lowered again when no entry could be made. */
  method RaiseAndEnter(fs: FileSystem, ip: nat, path: Path, cwd: nat, field: seq<Byte>, ghost ic0: seq<MemInode>)
      returns (r: Outcome)
    requires Settled(fs, {ip}, 0, 0) && Borrowed(ic0, fs.icache[..], multiset{ip}) && ip < fs.icache.Length
    requires fs.icache[ip].ref > 0
    requires fs.icache[ip].ino in fs.inodes && fs.icache[ip].d == fs.inodes[fs.icache[ip].ino]
    requires !LastUse(fs.icache[..], fs.inodes, ip)
    requires !IsDir(fs.icache[ip].d.mode) && fs.icache[ip].d.nlinks < 255
    requires HasStart(fs.icache[..], path, cwd) && FreeSlots(fs.icache[..], fs.icache.Length) >= 2 && Fit(path)
    requires |field| == NAME_LEN
    modifies fs`inodes, fs`owner, fs.icache, fs.c, fs.c.buf
    ensures Entering(r, fs.sb, old(fs.c.disk), fs.c.disk, old(fs.inodes), fs.inodes, old(fs.icache[ip].ino),
                     StartOf(old(fs.icache[..]), path, cwd), Components(path))
    ensures Returns(r) ==> Settled(fs, {}, 0, 0) && Borrowed(ic0, fs.icache[..], multiset{})
  {
    hide Settled, Borrowed, Entries, FreeSlots, Components, ResolveParent, Meets, LastUse, FilesBut, Links.Names,
         ReadsBut, HasRoom, SameRoom, NewName, NoPlace, Place;
    ReadsNow(fs, {ip}, 0, 0);
    ghost var ic, disk0, inodes0, x := fs.icache[..], fs.c.disk, fs.inodes, fs.icache[ip].ino;
    var n := fs.icache[ip].d.nlinks;
    CountIs(fs, {ip}, 0, 0, x);
    SetCount(fs, ip, n + 1, {ip}, 0, 0, 1);
    BorrowSame(ic0, ic, fs.icache[..], multiset{ip});
    SameStart(ic, fs.icache[..], path, cwd);
    SameFreeSlots(ic, fs.icache[..], |ic|);
    SameWalk(disk0, fs.c.disk, inodes0, fs.inodes, StartOf(ic, path, cwd), Components(path), {x});
    SamePlace(fs.sb, disk0, fs.c.disk, inodes0, fs.inodes, StartOf(ic, path, cwd), Components(path));
    ghost var disk1, inodes1 := fs.c.disk, fs.inodes;
    r := LinkTo(fs, ip, path, cwd, field, x, ic0, multiset{ip});
    if !Returns(r) {
      return;
    }
    ReadsTwice(disk0, disk1, fs.c.disk, inodes0, inodes1, fs.inodes, 0);
    ghost var disk2, inodes2 := fs.c.disk, fs.inodes;
    if r == Refused {
      CountIs(fs, {ip}, x, 1, x);
      ghost var ic2 := fs.icache[..];
      SetCount(fs, ip, n, {ip}, x, 1, 0);
      BorrowSame(ic0, ic2, fs.icache[..], multiset{ip});
      assert fs.inodes == inodes0;
      ReadsTwice(disk0, disk2, fs.c.disk, inodes0, inodes2, fs.inodes, 0);
    }
    FinishLink(fs, ip, x, ic, inodes0, ic0);
  }

  /** iunlockput of the linked file, which has at least the links it had. */
  method FinishLink(fs: FileSystem, ip: nat, ghost x: nat, ghost ic: seq<MemInode>, ghost inodes0: Inodes,
                    ghost ic0: seq<MemInode>)
    requires Settled(fs, {ip}, x, 0) && Borrowed(ic0, fs.icache[..], multiset{ip}) && ip < fs.icache.Length == |ic|
    requires fs.icache[ip].ref > 0
    requires !LastUse(ic, inodes0, ip) && Borrowed(ic0, ic, multiset{ip}) && ic[ip].ino == x == fs.icache[ip].ino
    requires x in inodes0
    requires fs.icache[ip].d.nlinks >= inodes0[x].nlinks
    modifies fs`inodes, fs.icache, fs.c, fs.c.buf
    ensures Settled(fs, {}, 0, 0) && Borrowed(ic0, fs.icache[..], multiset{}) && fs.c.disk == old(fs.c.disk)
    ensures fs.inodes == old(fs.inodes)
  {
    hide Settled, Borrowed, Entries, LastUse;
    assert multiset{ip} - multiset{ip} == multiset{} && {} + {ip} == {ip};
    LockedSlot(fs, {ip}, x, 0, ip);
    NotLast(ic, fs.icache[..], inodes0, fs.inodes, ip, ic0);
    UnlockPut(fs, ip, {}, x, 0, ic0, multiset{ip});
    NoneSpecial(fs, {}, x, 0);
  }

  /** A file that did not lose its links is still in use. */
  lemma NotLast(ic: seq<MemInode>, ic': seq<MemInode>, inodes: Inodes, inodes': Inodes, ip: nat, ic0: seq<MemInode>)
    requires !LastUse(ic, inodes, ip) && ip < |ic| == |ic'| && ic'[ip].ino == ic[ip].ino
    requires Borrowed(ic0, ic, multiset{ip}) && Borrowed(ic0, ic', multiset{ip})
    requires ic[ip].ino in inodes && ic[ip].ino in inodes' && inodes'[ic[ip].ino].nlinks >= inodes[ic[ip].ino].nlinks
    ensures !LastUse(ic', inodes', ip)
  {
    assert ic[ip].ref == ic0[ip].ref + 1 && ic'[ip].ref == ic0[ip].ref + 1;
  }

  lemma ReadsNow(fs: FileSystem, lk: set<nat>, x: nat, e: nat)
    requires Settled(fs, lk, x, e)
    ensures ReadsBut(fs.c.disk, fs.c.disk, fs.inodes, fs.inodes, 0) && 0 !in fs.inodes
  {
    CacheFacts(fs);
    ReadsSelf(fs.c.disk, fs.inodes);
  }

  lemma BorrowBack(ic0: seq<MemInode>, ic1: seq<MemInode>, ic2: seq<MemInode>, refs: multiset<nat>)
    requires Borrowed(ic0, ic1, refs) && OneMore(ic1, ic2, -1)
    ensures Borrowed(ic0, ic2, refs)
  {
    forall k | 0 <= k < |ic2| ensures ic2[k].ref == ic1[k].ref && (ic1[k].ref > 0 ==> ic2[k].ino == ic1[k].ino) {
      assert SlotKept(ic1[k], ic2[k]);
    }
    BorrowSame(ic0, ic1, ic2, refs);
  }

  lemma AfterEntry(ic: seq<MemInode>, ic': seq<MemInode>, dp: nat, ok: bool)
    requires |ic'| == |ic| && dp < |ic|
    requires if ok then ic' == ic[dp := ic[dp].(d := ic'[dp].d)] else SlotsBack(ic, ic')
    ensures forall k :: 0 <= k < |ic| ==>
              ic'[k].ref == ic[k].ref && (ic[k].ref > 0 ==> ic'[k].ino == ic[k].ino && (k != dp ==> ic'[k] == ic[k]))
  {
    forall k | 0 <= k < |ic|
      ensures ic'[k].ref == ic[k].ref && (ic[k].ref > 0 ==> ic'[k].ino == ic[k].ino && (k != dp ==> ic'[k] == ic[k]))
    {
      assert !ok ==> if ic[k].ref > 0 then ic'[k] == ic[k] else ic'[k].ref == 0;
    }
  }

  /** dir_link into the directory found, and iunlockput of it */
  method EnterName(fs: FileSystem, dp: nat, name: Name, ip: nat, field: seq<Byte>, ghost x: nat,
                   ghost ic0: seq<MemInode>, ghost refs: multiset<nat>)
      returns (r: Outcome)
    requires Settled(fs, {ip} + {dp}, x, 1) && dp != ip && dp < fs.icache.Length && ip < fs.icache.Length
    requires fs.icache[ip].ino == x && fs.icache[ip].ref > 0
    requires fs.icache[dp].ref > 0 && IsDir(fs.icache[dp].d.mode) && !IsDir(fs.icache[ip].d.mode) && IsName(name)
    requires |field| == NAME_LEN
    requires FreeSlots(fs.icache[..], fs.icache.Length) >= 1 && Borrowed(ic0, fs.icache[..], refs + multiset{dp})
    modifies fs`inodes, fs`owner, fs.icache, fs.c, fs.c.buf
    ensures r != Stuck && r != CountFull
    ensures r == NoRoom <==> Links.Place(old(fs.icache[dp].ino), name) !in old(Entries(fs.c.disk, fs.inodes))
                             && !old(HasRoom(fs.sb, fs.c.disk, fs.inodes, fs.icache[dp].ino))
    ensures Returns(r) ==> ReadsBut(old(fs.c.disk), fs.c.disk, old(fs.inodes), fs.inodes, 0)
    ensures var at, entries := Links.Place(old(fs.icache[dp].ino), name), old(Entries(fs.c.disk, fs.inodes));
            && (r == Done ==>
                  at !in entries && Settled(fs, {ip}, x, 0) && Entries(fs.c.disk, fs.inodes) == entries[at := x])
            && (r == Refused ==>
                  && at in entries && Settled(fs, {ip}, x, 1) && Entries(fs.c.disk, fs.inodes) == entries
                  && fs.inodes == old(fs.inodes))
    ensures Returns(r) ==> Borrowed(ic0, fs.icache[..], refs) && fs.icache[ip] == old(fs.icache[ip])
  {
    hide Settled, Borrowed, Entries, FreeSlots, LastUse, FilesBut, HasRoom, ReadsBut;
    ghost var ic := fs.icache[..];
    ReadsNow(fs, {ip} + {dp}, x, 1);
    LockedSlot(fs, {ip} + {dp}, x, 1, dp);
    var room, ok := AddEntry(fs, dp, name, ip, field, {ip} + {dp}, x);
    if !room {
      return NoRoom;
    }
    AfterEntry(ic, fs.icache[..], dp, ok);
    BorrowSame(ic0, ic, fs.icache[..], refs + multiset{dp});
    assert fs.icache[..][ip] == ic[ip] && fs.icache[..][dp].ref == ic[dp].ref;
    assert IsDir(fs.inodes[ic[dp].ino].mode);
    DirInUse(fs, {ip} + {dp}, x, if ok then 0 else 1, dp);
    UnlockPut(fs, dp, {ip}, x, if ok then 0 else 1, ic0, refs + multiset{dp});
    assert refs + multiset{dp} - multiset{dp} == refs;
    r := if ok then Done else Refused;
  }

  // ---------------------------------------------------------------------------------------
  // sys_unlink

  const DOT: seq<Byte> := [46]
  const DOTDOT: seq<Byte> := [46, 46]

  /** sys_unlink: exactly the entry that the path leads to goes, and with the last name and the last use
      the file itself; or nothing changes, when there is no such entry, it is `.` or `..`, or a
      directory, which is refused as one that is not empty.  The kernel gets stuck if and only if a
      directory has an entry for itself under another name. */
  method SysUnlink(fs: FileSystem, path: Path, cwd: nat) returns (r: Outcome)
    requires Settled(fs, {}, 0, 0) && CanWalk(fs, path, cwd)
    modifies fs`inodes, fs`owner, fs.icache, fs.c, fs.c.buf
    ensures var names, parent := Components(path),
              old(ResolveParent(fs.c.disk, fs.inodes, StartOf(fs.icache[..], path, cwd), Components(path)));
            && (parent.None? || names == [] ==> r == Refused)
            && (parent.Some? && names != [] ==>
                  Removal(r, old(fs.c.disk), fs.c.disk, old(fs.inodes), fs.inodes, old(fs.icache[..]),
                                                        Links.Place(parent.value, names[|names| - 1])))
    ensures r == Refused ==> fs.c.disk == old(fs.c.disk) && fs.inodes == old(fs.inodes)
    ensures Returns(r) ==> Settled(fs, {}, 0, 0) && Borrowed(old(fs.icache[..]), fs.icache[..], multiset{})
    ensures Returns(r) || r == Stuck
  {
    hide Settled, Borrowed, Entries, FreeSlots, Components, ResolveParent, Meets, LockedInos, LastUse, FilesBut,
         Removal;
    ghost var ic0 := fs.icache[..];
    BorrowNone(ic0);
    var stuck, ok, dp, name := Find(fs, path, true, cwd, {}, 0, 0);
    assert !stuck by { NotStuck(fs.c.disk, fs.inodes, StartOf(ic0, path, cwd), Components(path), ic0); }
    if !ok {
      BorrowBack(ic0, ic0, fs.icache[..], multiset{});
      return Refused;
    }
    BorrowMore(ic0, ic0, fs.icache[..], multiset{}, dp);
    assert multiset{} + multiset{dp} == multiset{dp};
    FreeSlotsKept(ic0, fs.icache[..], dp, |ic0|);
    LockOne(fs, dp, {}, 0, 0, ic0, multiset{dp});
    assert {} + {dp} == {dp};
    r := UnlinkName(fs, dp, name, ic0);
  }

  ghost predicate Emptied(inodes0: Inodes, inodes: Inodes, i: nat) {
    i in inodes0 && i in inodes && inodes[i].mode == inodes0[i].mode && inodes[i].size == 0
        && WellFormedInode(inodes[i])
  }

  /** Unlinking changes no file's bytes, except that it frees file i when that has neither a name left
      nor a user. */
  ghost predicate UnlinkReads(disk0: Disk, disk: Disk, inodes0: Inodes, inodes: Inodes, ic0: seq<MemInode>, i: nat) {
    && ReadsBut(disk0, disk, inodes0, inodes, i)
    && (if UsedIn(ic0, i) || (i in inodes && inodes[i].nlinks > 0) then ReadsBut(disk0, disk, inodes0, inodes, 0)
          else Emptied(inodes0, inodes, i))
  }

  /** What sys_unlink does about the entry at a place. */
  ghost predicate Removal(r: Outcome, disk0: Disk, disk: Disk, inodes0: Inodes, inodes: Inodes, ic0: seq<MemInode>,
                          at: Links.Place)
  {
    var entries := Entries(disk0, inodes0);
    && (r == Stuck <==> at in entries && at.name != DOT && at.name != DOTDOT && entries[at] == at.dir)
    && (r == Refused ==>
          || at !in entries || at.name == DOT || at.name == DOTDOT
          || (entries[at] in inodes0 && IsDir(inodes0[entries[at]].mode)))
    && (r == Done ==>
          && at in entries && at.name != DOT && at.name != DOTDOT && entries[at] in inodes0
          && !IsDir(inodes0[entries[at]].mode) && Entries(disk, inodes) == entries - {at}
          && UnlinkReads(disk0, disk, inodes0, inodes, ic0, entries[at]))
  }

  /** sys_unlink in the locked directory */
  method UnlinkName(fs: FileSystem, dp: nat, name: Name, ghost ic0: seq<MemInode>) returns (r: Outcome)
    requires Settled(fs, {dp}, 0, 0) && Borrowed(ic0, fs.icache[..], multiset{dp}) && dp < fs.icache.Length
    requires fs.icache[dp].ref > 0
    requires IsDir(fs.icache[dp].d.mode) && IsName(name) && FreeSlots(fs.icache[..], fs.icache.Length) >= 2
    modifies fs`inodes, fs`owner, fs.icache, fs.c, fs.c.buf
    ensures Removal(r, old(fs.c.disk), fs.c.disk, old(fs.inodes), fs.inodes, ic0,
                    Links.Place(old(fs.icache[dp].ino), name))
    ensures r == Refused ==> fs.c.disk == old(fs.c.disk) && fs.inodes == old(fs.inodes)
    ensures Returns(r) ==> Settled(fs, {}, 0, 0) && Borrowed(ic0, fs.icache[..], multiset{})
    ensures Returns(r) || r == Stuck
  {
    hide Settled, Borrowed, Entries, FreeSlots, LastUse, FilesBut, Bindings, Contents, DirReady, IsDirectory, Binds,
         GotRef, CanGet, Children, GoodDirectory,
         Sound, UnlinkReads, Emptied;
    ghost var ic, d := fs.icache[..], fs.icache[dp].ino;
    assert multiset{dp} - multiset{dp} == multiset{};
    assert {} + {dp} == {dp};
    DirSlot(fs, {dp}, 0, 0, dp);
    DirInUse(fs, {dp}, 0, 0, dp);
    EntryAt(fs.c.disk, fs.inodes, d, name);
    if name == DOT || name == DOTDOT {
      UnlockPut(fs, dp, {}, 0, 0, ic0, multiset{dp});
      return Refused;
    }
    ghost var s := Bytes(fs, dp);
    if name in Bindings(s) {
      ChildGettable(fs, {dp}, 0, 0, dp, name);
    }
    SoundOf(fs, {dp}, 0, 0);
    var found, ip, off := DirLookup(fs, dp, name, s);
    DirFacts(fs, dp);
    if !found {
      SameTable(fs, ic, {dp}, 0, 0);
      UnlockPut(fs, dp, {}, 0, 0, ic0, multiset{dp});
      return Refused;
    }
    r := UnlinkFound(fs, dp, name, ip, off, Bindings(s)[name], ic, ic0);
  }

  /** sys_unlink once dir_lookup has found the entry */
  method UnlinkFound(fs: FileSystem, dp: nat, name: Name, ip: nat, off: nat, ghost i: nat, ghost ic: seq<MemInode>,
                     ghost ic0: seq<MemInode>) returns (r: Outcome)
    requires fs.Valid() && fs.c.held == map[] && Sound(fs.sb, fs.ipb, fs.c.disk, ic, fs.inodes, {dp}, 0, 0)
    requires GotRef(ic, fs.icache[..], ip, i)
    requires i in fs.inodes && fs.inodes[i].nlinks > 0 && Borrowed(ic0, ic, multiset{dp})
    requires dp < |ic| == fs.icache.Length && ic[dp].ref > 0 && IsDir(ic[dp].d.mode)
    requires off % ENTRY == 0 && Binds(Bytes(fs, dp), off / ENTRY, name, i)
    requires Links.Place(ic[dp].ino, name) in Entries(fs.c.disk, fs.inodes)
    requires Entries(fs.c.disk, fs.inodes)[Links.Place(ic[dp].ino, name)] == i
    requires name != DOT && name != DOTDOT
    modifies fs`inodes, fs`owner, fs.icache, fs.c, fs.c.buf
    ensures Removal(r, old(fs.c.disk), fs.c.disk, old(fs.inodes), fs.inodes, ic0, Links.Place(ic[dp].ino, name))
    ensures r == Refused ==> fs.c.disk == old(fs.c.disk) && fs.inodes == old(fs.inodes)
    ensures Returns(r) ==> Settled(fs, {}, 0, 0) && Borrowed(ic0, fs.icache[..], multiset{})
    ensures Returns(r) || r == Stuck
  {
    hide Settled, Sound, Borrowed, Entries, LastUse, FilesBut, Contents, Binds, GotRef, UnlinkReads;
    GotFound(fs, ic, ip, i, dp, ic0);
    if fs.icache[ip].busy {
      return Stuck;
    }
    LockOne(fs, ip, {dp}, 0, 0, ic0, multiset{dp, ip});
    assert {dp} + {ip} == {dp, ip};
    r := UnlinkFile(fs, dp, name, ip, off, i, ic0);
  }

  lemma SoundOf(fs: FileSystem, lk: set<nat>, x: nat, e: nat)
    requires Settled(fs, lk, x, e)
    ensures fs.c.held == map[] && Sound(fs.sb, fs.ipb, fs.c.disk, fs.icache[..], fs.inodes, lk, x, e)
  {
  }

  /** dir_lookup found inode i, in slot ip; that is the locked directory itself exactly when the slot is busy. */
  lemma GotFound(fs: FileSystem, ic: seq<MemInode>, ip: nat, i: nat, dp: nat, ic0: seq<MemInode>)
    requires fs.Valid() && fs.c.held == map[] && Sound(fs.sb, fs.ipb, fs.c.disk, ic, fs.inodes, {dp}, 0, 0)
    requires GotRef(ic, fs.icache[..], ip, i)
    requires i in fs.inodes && fs.inodes[i].nlinks > 0 && Borrowed(ic0, ic, multiset{dp})
    ensures Settled(fs, {dp}, 0, 0) && Borrowed(ic0, fs.icache[..], multiset{dp, ip})
    ensures ip < fs.icache.Length && dp < fs.icache.Length == |ic| && fs.icache[ip].ref > 0 && fs.icache[ip].ino == i
    ensures fs.icache[dp] == ic[dp].(ref := fs.icache[dp].ref) && fs.icache[dp].ref > 0
    ensures fs.icache[ip].busy <==> ip == dp
    ensures ip == dp <==> i == ic[dp].ino
    ensures FreeSlots(fs.icache[..], fs.icache.Length) + 1 >= FreeSlots(ic, |ic|)
  {
    hide BufferCache.Valid, Inv, Tree, Whole, Marked, ReadIn, Entries, DiskInode, Counted, Refs, FreeSlots, Image,
         Quiet, InodeTable, Borrowed, MarkedInode,
         RefsChange;
    CacheFacts(fs);
    SlotApart(fs, ip, dp);
    assert ic[dp].ref > 0;
    FoundSound(fs.sb, fs.ipb, fs.c.disk, ic, fs.icache[..], fs.inodes, ip, i, {dp}, 0, 0);
    BorrowMore(ic0, ic, fs.icache[..], multiset{dp}, ip);
    assert multiset{dp} + multiset{ip} == multiset{dp, ip};
    Unlocked(fs.sb, fs.ipb, fs.c.disk, fs.icache[..], {dp}, ip);
    FreeSlotsKept(ic, fs.icache[..], ip, |ic|);
  }

  lemma SlotApart(fs: FileSystem, k: nat, l: nat)
    requires fs.Valid() && k < fs.icache.Length && l < fs.icache.Length && fs.icache[k].ref > 0 && fs.icache[l].ref > 0
    ensures k == l <==> fs.icache[k].ino == fs.icache[l].ino
  {
    hide BufferCache.Valid, Image, Quiet, Owned, Fresh, DiskInode;
    assert fs.icache[..][k].ref > 0 && fs.icache[..][l].ref > 0;
  }

  lemma ReadsMost(disk0: Disk, disk: Disk, inodes0: Inodes, inodes: Inodes, i: nat)
    requires ReadsBut(disk0, disk, inodes0, inodes, 0) && 0 !in inodes0
    ensures ReadsBut(disk0, disk, inodes0, inodes, i)
  {
    hide SameBytes;
  }

  /** The last use of an inode is nobody else's. */
  lemma LastUnused(fs: FileSystem, ip: nat, ic0: seq<MemInode>)
    requires fs.Valid() && ip < fs.icache.Length && fs.icache[ip].ref > 0 && Borrowed(ic0, fs.icache[..], multiset{ip})
    ensures LastUse(fs.icache[..], fs.inodes, ip) ==> !UsedIn(ic0, fs.icache[ip].ino)
  {
    hide BufferCache.Valid, Inv;
    if LastUse(fs.icache[..], fs.inodes, ip) && UsedIn(ic0, fs.icache[ip].ino) {
      var k :| 0 <= k < |ic0| && ic0[k].ref > 0 && ic0[k].ino == fs.icache[ip].ino;
      assert fs.icache[..][k].ref == ic0[k].ref + multiset{ip}[k] && fs.icache[..][k].ino == ic0[k].ino;
      assert fs.icache[..][ip].ref == ic0[ip].ref + 1;
      SlotApart(fs, k, ip);
    }
  }

  lemma GoneLinks(disk0: Disk, disk: Disk, inodes0: Inodes, inodes: Inodes, inodes': Inodes, ic: seq<MemInode>, ip: nat)
    requires LastUse(ic, inodes, ip) && WellFormedInode(ic[ip].d) && ic[ip].d.nlinks == 0
    requires ic[ip].d == inodes[ic[ip].ino]
    requires inodes' == inodes[ic[ip].ino := Truncated(ic[ip].d)] && ReadsBut(disk0, disk, inodes0, inodes, 0)
    requires 0 !in inodes0
    ensures inodes'[ic[ip].ino].nlinks == 0 && Emptied(inodes0, inodes', ic[ip].ino)
  {
  }

  /** sys_unlink of the file it has found and locked */
  method UnlinkFile(fs: FileSystem, dp: nat, name: Name, ip: nat, off: nat, ghost i: nat, ghost ic0: seq<MemInode>)
      returns (r: Outcome)
    requires Settled(fs, {dp, ip}, 0, 0) && Borrowed(ic0, fs.icache[..], multiset{dp, ip}) && dp != ip
    requires dp < fs.icache.Length && ip < fs.icache.Length
    requires fs.icache[dp].ref > 0 && IsDir(fs.icache[dp].d.mode) && fs.icache[ip].ref > 0 && fs.icache[ip].ino == i
    requires i in fs.inodes && fs.icache[ip].d == fs.inodes[i]
    requires off % ENTRY == 0 && Binds(Bytes(fs, dp), off / ENTRY, name, i) && fs.inodes[i].nlinks > 0
    modifies fs`inodes, fs`owner, fs.icache, fs.c, fs.c.buf
    ensures var at, entries := Links.Place(old(fs.icache[dp].ino), name), old(Entries(fs.c.disk, fs.inodes));
            && (r == Refused ==>
                  IsDir(old(fs.inodes)[i].mode) && fs.c.disk == old(fs.c.disk) && fs.inodes == old(fs.inodes))
            && (r == Done ==>
                  && !IsDir(old(fs.inodes)[i].mode) && at in entries && entries[at] == i
                  && Entries(fs.c.disk, fs.inodes) == entries - {at})
    ensures Returns(r) && Settled(fs, {}, 0, 0) && Borrowed(ic0, fs.icache[..], multiset{})
    ensures r == Done ==> UnlinkReads(old(fs.c.disk), fs.c.disk, old(fs.inodes), fs.inodes, ic0, i)
  {
    hide Settled, Borrowed, Entries, LastUse, FilesBut, Bytes, Binds, Links.Names, ReadsBut, UnlinkReads, Truncated;
    ghost var ic, d := fs.icache[..], fs.icache[dp].ino;
    assert multiset{dp, ip} - multiset{ip} == multiset{dp} && multiset{dp, ip} - multiset{dp} == multiset{ip};
    assert multiset{dp} - multiset{dp} == multiset{} && multiset{ip} - multiset{ip} == multiset{};
    assert {dp} + {ip} == {dp, ip} && {ip} + {dp} == {dp, ip} && {} + {dp} == {dp} && {} + {ip} == {ip};
    LockedSlot(fs, {dp, ip}, 0, 0, dp);
    DirInUse(fs, {dp, ip}, 0, 0, dp);
    if IsDir(fs.icache[ip].d.mode) {
      DirInUse(fs, {dp, ip}, 0, 0, ip);
      UnlockPut(fs, ip, {dp}, 0, 0, ic0, multiset{dp, ip});
      DirInUse(fs, {dp}, 0, 0, dp);
      UnlockPut(fs, dp, {}, 0, 0, ic0, multiset{dp});
      return Refused;
    }
    RemoveEntry(fs, dp, name, off, i, {dp, ip}, 0);
    BorrowSame(ic0, ic, fs.icache[..], multiset{dp, ip});
    DirInUse(fs, {dp, ip}, i, 1, dp);
    UnlockPut(fs, dp, {ip}, i, 1, ic0, multiset{dp, ip});
    LowerCount(fs, ip, i, ic0, old(fs.c.disk), old(fs.inodes));
    r := Done;
  }

  /** `ip->nlinks--; iupdate(ip); iunlockput(ip)` */
  method LowerCount(fs: FileSystem, ip: nat, ghost i: nat, ghost ic0: seq<MemInode>, ghost disk0: Disk,
                    ghost inodes0: Inodes)
    requires Settled(fs, {ip}, i, 1) && Borrowed(ic0, fs.icache[..], multiset{ip}) && ip < fs.icache.Length
    requires fs.icache[ip].ref > 0
    requires fs.icache[ip].ino == i && !IsDir(fs.icache[ip].d.mode) && ReadsBut(disk0, fs.c.disk, inodes0, fs.inodes, 0)
    modifies fs`inodes, fs.icache, fs.c, fs.c.buf
    ensures Settled(fs, {}, 0, 0) && Borrowed(ic0, fs.icache[..], multiset{})
    ensures Entries(fs.c.disk, fs.inodes) == old(Entries(fs.c.disk, fs.inodes))
    ensures UnlinkReads(disk0, fs.c.disk, inodes0, fs.inodes, ic0, i)
  {
    hide Settled, Borrowed, Entries, LastUse, Links.Names, ReadsBut, UnlinkReads;
    ReadsNow(fs, {ip}, i, 1);
    ReadsKeys(disk0, fs.c.disk, inodes0, fs.inodes);
    LockedSlot(fs, {ip}, i, 1, ip);
    CountIs(fs, {ip}, i, 1, i);
    ghost var ic1, disk1, inodes1 := fs.icache[..], fs.c.disk, fs.inodes;
    SetCount(fs, ip, fs.icache[ip].d.nlinks - 1, {ip}, i, 1, 0);
    BorrowSame(ic0, ic1, fs.icache[..], multiset{ip});
    ReadsTwice(disk0, disk1, fs.c.disk, inodes0, inodes1, fs.inodes, 0);
    LastPut(fs, ip, i, ic0, disk0, inodes0);
  }

  /** iunlockput of a file that may have lost its last name */
  method LastPut(fs: FileSystem, ip: nat, ghost i: nat, ghost ic0: seq<MemInode>, ghost disk0: Disk,
                 ghost inodes0: Inodes)
    requires Settled(fs, {ip}, i, 0) && Borrowed(ic0, fs.icache[..], multiset{ip}) && ip < fs.icache.Length
    requires fs.icache[ip].ref > 0
    requires fs.icache[ip].ino == i && ReadsBut(disk0, fs.c.disk, inodes0, fs.inodes, 0) && 0 !in inodes0
    modifies fs`inodes, fs.icache, fs.c, fs.c.buf
    ensures Settled(fs, {}, 0, 0) && Borrowed(ic0, fs.icache[..], multiset{})
    ensures Entries(fs.c.disk, fs.inodes) == old(Entries(fs.c.disk, fs.inodes))
    ensures UnlinkReads(disk0, fs.c.disk, inodes0, fs.inodes, ic0, i)
  {
    hide Settled, Borrowed, Entries, LastUse, FilesBut, ReadsBut, UsedIn, Truncated;
    assert multiset{ip} - multiset{ip} == multiset{} && {} + {ip} == {ip};
    UnlockedFacts(fs, ip, i, ic0);
    ghost var ic1, disk1, inodes1 := fs.icache[..], fs.c.disk, fs.inodes;
    UnlockPut(fs, ip, {}, i, 0, ic0, multiset{ip});
    if LastUse(ic1, inodes1, ip) {
      ReadsOthers(disk1, fs.c.disk, inodes1, fs.inodes, i);
      ReadsTwice(disk0, disk1, fs.c.disk, inodes0, inodes1, fs.inodes, i);
      GoneLinks(disk0, disk1, inodes0, inodes1, fs.inodes, ic1, ip);
    } else {
      StillHad(ic0, ic1, inodes1, ip);
      ReadsMost(disk0, fs.c.disk, inodes0, fs.inodes, i);
    }
    NoneSpecial(fs, {}, i, 0);
  }

  /** What is not the last use of an inode in the table has a name or another user. */
  lemma StillHad(ic0: seq<MemInode>, ic: seq<MemInode>, inodes: Inodes, ip: nat)
    requires !LastUse(ic, inodes, ip) && ip < |ic| && ic[ip].ref > 0 && ic[ip].ino in inodes
    requires Borrowed(ic0, ic, multiset{ip})
    ensures UsedIn(ic0, ic[ip].ino) || inodes[ic[ip].ino].nlinks > 0
  {
    assert ic[ip].ref == ic0[ip].ref + multiset{ip}[ip];
  }

  lemma UnlockedFacts(fs: FileSystem, ip: nat, i: nat, ic0: seq<MemInode>)
    requires Settled(fs, {ip}, i, 0) && Borrowed(ic0, fs.icache[..], multiset{ip}) && ip < fs.icache.Length
    requires fs.icache[ip].ref > 0
    ensures Whole(fs.c.disk, fs.inodes) && fs.icache[ip].ino in fs.inodes
    ensures fs.icache[ip].d == fs.inodes[fs.icache[ip].ino]
    ensures LastUse(fs.icache[..], fs.inodes, ip) ==> !UsedIn(ic0, fs.icache[ip].ino) && fs.icache[ip].d.nlinks == 0
  {
    LockedSlot(fs, {ip}, i, 0, ip);
    LastUnused(fs, ip, ic0);
  }

  lemma ReadsKeys(disk0: Disk, disk: Disk, inodes0: Inodes, inodes: Inodes)
    requires ReadsBut(disk0, disk, inodes0, inodes, 0) && 0 !in inodes
    ensures 0 !in inodes0
  {
  }

  /** The table did not change. */
  lemma SameTable(fs: FileSystem, ic: seq<MemInode>, lk: set<nat>, x: nat, e: nat)
    requires fs.Valid() && fs.c.held == map[] && ic == fs.icache[..]
    requires Sound(fs.sb, fs.ipb, fs.c.disk, ic, fs.inodes, lk, x, e)
    ensures Settled(fs, lk, x, e)
  {
  }
}
