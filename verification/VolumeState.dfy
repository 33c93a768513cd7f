/** A sound volume, on values: what every call of the file system finds and leaves behind
    (fs/inode.c, fs/dir.c, fs/p2i.c, fs/sysfile.c). */
module VolumeState {
  import opened Minix
  import opened Bitmap
  import opened Files
  import opened FsState
  import opened Truncate
  import opened InodeRefs
  import opened DirEntries
  import opened Directory
  import opened PathWalk
  import opened DirectoryBytes
  import Links

  // ---------------------------------------------------------------------------------------
  // All entries of all directories

  ghost function Entries(disk: Disk, inodes: Inodes): map<Links.Place, nat> {
    map d: nat, n: Name | d in inodes && IsDir(inodes[d].mode) && n in Children(disk, inodes[d]) ::
        Links.Place(d, n) := Children(disk, inodes[d])[n]
  }

  lemma EntryAt(disk: Disk, inodes: Inodes, d: nat, n: Name)
    ensures Links.Place(d, n) in Entries(disk, inodes) <==>
              d in inodes && IsDir(inodes[d].mode) && n in Children(disk, inodes[d])
    ensures Links.Place(d, n) in Entries(disk, inodes) ==>
              Entries(disk, inodes)[Links.Place(d, n)] == Children(disk, inodes[d])[n]
  {
    hide Children;
  }

  lemma EntryName(disk: Disk, inodes: Inodes, p: Links.Place) returns (n: Name)
    requires p in Entries(disk, inodes)
    ensures p == Links.Place(p.dir, n) && p.dir in inodes && IsDir(inodes[p.dir].mode)
    ensures n in Children(disk, inodes[p.dir])
    ensures Entries(disk, inodes)[p] == Children(disk, inodes[p.dir])[n]
  {
    hide Children;
    n :| p == Links.Place(p.dir, n) && p.dir in inodes && IsDir(inodes[p.dir].mode)
        && n in Children(disk, inodes[p.dir]);
  }

  // ---------------------------------------------------------------------------------------
  // Soundness

  /** _ifree can take the number: its assertions hold and its bit lies in the block. */
  ghost predicate Freeable(sb: SuperBlock, disk: Disk, i: nat) {
    InodeBit(disk, i) && i < sb.ninodes && IMapBlk(i) < 2 + sb.imapBlk
  }

  /** No file has holes; devices are left out. */
  ghost predicate Whole(disk: Disk, inodes: Inodes) {
    forall i :: i in inodes ==> WholeInode(disk, inodes[i])
  }

  ghost predicate WholeInode(disk: Disk, ip: Inode) {
    !IsChr(ip.mode) && HoleFree(disk, ip)
  }

  /** Exactly the inodes in use are marked in the inode bitmap; directories among them have links, and
      inodes out of use own no zones. */
  ghost predicate Marked(sb: SuperBlock, disk: Disk, ic: seq<MemInode>, inodes: Inodes) {
    forall i :: i in inodes ==> MarkedInode(sb, disk, inodes[i], i, Refs(ic, i))
  }

  ghost predicate MarkedInode(sb: SuperBlock, disk: Disk, ip: Inode, i: nat, refs: nat) {
    if ip.nlinks > 0 || refs > 0 then Freeable(sb, disk, i) && (IsDir(ip.mode) ==> ip.nlinks > 0)
    else Bare(ip) && (i >= 1 && IMapBlk(i) < 2 + sb.imapBlk ==> !InodeBit(disk, i))
  }

  ghost predicate Bare(ip: Inode) {
    WellFormedInode(ip) && ip.size == 0 && forall k :: 0 <= k <= NDIRECT ==> ip.zone[k] == 0
  }

  /** An inode without links that is in memory has been read. */
  ghost predicate ReadIn(ic: seq<MemInode>, inodes: Inodes) {
    forall k :: 0 <= k < |ic| && ic[k].ref > 0 && ic[k].ino in inodes && inodes[ic[k].ino].nlinks == 0 ==> ic[k].valid
  }

  /** The count of a file is the number of its names; that of file x may be e too high, while a call is
      between its two changes. */
  ghost predicate Counted(entries: map<Links.Place, nat>, inodes: Inodes, x: nat, e: nat) {
    forall i :: i in inodes && !IsDir(inodes[i].mode) ==>
        inodes[i].nlinks == |Links.Names(entries, i)| + if i == x then e else 0
  }

  /** Locked inodes are in use and have been read. */
  ghost predicate LocksRead(ic: seq<MemInode>, lk: set<nat>) { Locks(ic, lk) && forall k :: k in lk ==> ic[k].valid }

  /** The volume is sound, and locked are the slots lk. */
  ghost predicate Sound(sb: SuperBlock, ipb: nat, disk: Disk, ic: seq<MemInode>, inodes: Inodes, lk: set<nat>,
                        x: nat, e: nat)
  {
    && Tree(disk, inodes) && Whole(disk, inodes) && Marked(sb, disk, ic, inodes) && ReadIn(ic, inodes)
    && Calm(sb, ipb, disk, ic, lk) && LocksRead(ic, lk) && Counted(Entries(disk, inodes), inodes, x, e)
  }

  /** A new entry of directory d can be written: there is a free slot, or the directory can grow. */
  ghost predicate HasRoom(sb: SuperBlock, disk: Disk, inodes: Inodes, d: nat) {
    d in inodes && WellFormedInode(inodes[d]) && inodes[d].size <= MAXSIZE
        && RoomIn(sb, disk, inodes[d], Contents(disk, inodes[d]))
  }

  ghost predicate SameRoom(sb: SuperBlock, disk0: Disk, disk: Disk, inodes0: Inodes, inodes: Inodes) {
    forall d :: d in inodes0 && IsDir(inodes0[d].mode) ==>
        (HasRoom(sb, disk, inodes, d) <==> HasRoom(sb, disk0, inodes0, d))
  }

  lemma WriteNeedSame(disk0: Disk, disk: Disk, ip: Inode, off: nat, n: nat)
    requires WellFormedInode(ip) && SameZones(disk0, disk, ip) && off + n <= MAXSIZE
    ensures WriteNeed(disk, ip, off, n) == WriteNeed(disk0, ip, off, n)
  {
    HolesKept(disk0, ip, disk, ip, off / BSIZE, EndBlock(off, n));
  }

  /** A count was written: no directory has more or less room. */
  lemma CountRoom(sb: SuperBlock, ipb: nat, disk0: Disk, disk: Disk, inodes0: Inodes, inodes: Inodes, x: nat)
    requires Updated(sb, ipb, disk0, disk, inodes, x) && x in inodes0 && inodes == inodes0[x := inodes[x]]
    requires !IsDir(inodes0[x].mode)
    requires Whole(disk0, inodes0) && FilesBut(disk0, disk, inodes0, inodes, x)
    ensures SameRoom(sb, disk0, disk, inodes0, inodes)
  {
    hide SlotWritable, AllLive;
    forall d | d in inodes0 && IsDir(inodes0[d].mode)
      ensures HasRoom(sb, disk, inodes, d) <==> HasRoom(sb, disk0, inodes0, d)
    {
      assert WholeInode(disk0, inodes0[d]);
      assert inodes[d] == inodes0[d] && Contents(disk, inodes[d]) == Contents(disk0, inodes0[d])
               && SameZones(disk0, disk, inodes[d]);
      hide Updated, FilesBut, Whole, WholeInode, SameZones;
      forall i: nat ensures SlotWritable(sb, disk, inodes[d], i) <==> SlotWritable(sb, disk0, inodes[d], i) {
        SlotWritableSame(sb, disk0, disk, inodes[d], i);
      }
    }
  }

  lemma SlotWritableSame(sb: SuperBlock, disk0: Disk, disk: Disk, d: Inode, i: nat)
    requires WellFormedInode(d) && SameZones(disk0, disk, d) && FreeZones(sb, disk) == FreeZones(sb, disk0)
    ensures SlotWritable(sb, disk, d, i) <==> SlotWritable(sb, disk0, d, i)
  {
    hide FreeZones, WriteNeed, SameZones;
    if ENTRY * i + ENTRY <= MAXSIZE {
      WriteNeedSame(disk0, disk, d, ENTRY * i, ENTRY);
    }
  }

  // ---------------------------------------------------------------------------------------
  // What a change of one inode keeps

  /** Only inode x changed, and it kept its type and has no holes. */
  ghost predicate OnlyChanged(disk0: Disk, disk: Disk, inodes0: Inodes, inodes: Inodes, x: nat) {
    FilesBut(disk0, disk, inodes0, inodes, x) && x in inodes0 && inodes[x].mode == inodes0[x].mode
        && HoleFree(disk, inodes[x])
  }

  lemma OtherInode(disk0: Disk, disk: Disk, inodes0: Inodes, inodes: Inodes, x: nat, j: nat)
    requires FilesBut(disk0, disk, inodes0, inodes, x) && j in inodes0 && j != x && !IsChr(inodes0[j].mode)
    ensures j in inodes && inodes[j] == inodes0[j] && Children(disk, inodes[j]) == Children(disk0, inodes0[j])
    ensures Contents(disk, inodes[j]) == Contents(disk0, inodes0[j])
    ensures HoleFree(disk0, inodes0[j]) ==> HoleFree(disk, inodes[j])
  {
    assert SameFile(disk0, disk, inodes0[j], inodes[j]);
    hide Contents, Bindings, EndBlock, ByteAt, ZoneAt;
  }

  lemma WholeKept(disk0: Disk, disk: Disk, inodes0: Inodes, inodes: Inodes, x: nat)
    requires Whole(disk0, inodes0) && OnlyChanged(disk0, disk, inodes0, inodes, x)
    ensures Whole(disk, inodes)
  {
    forall j | j in inodes ensures WholeInode(disk, inodes[j]) {
      assert WholeInode(disk0, inodes0[j]);
      if j != x {
        OtherInode(disk0, disk, inodes0, inodes, x, j);
      }
      hide FilesBut, HoleFree;
    }
  }

  /** No entry leads to inode x. */
  ghost predicate Nameless(entries: map<Links.Place, nat>, x: nat) { forall p :: p in entries ==> entries[p] != x }

  lemma TreeKept(disk0: Disk, disk: Disk, inodes0: Inodes, inodes: Inodes, x: nat)
    requires Tree(disk0, inodes0) && Whole(disk0, inodes0) && OnlyChanged(disk0, disk, inodes0, inodes, x)
    requires IsDir(inodes[x].mode) ==> GoodDirectory(disk, inodes, x)
    requires inodes[x].nlinks > 0 || (x != ROOT_INO && Nameless(Entries(disk0, inodes0), x))
    ensures Tree(disk, inodes)
  {
    forall d | d in inodes && IsDir(inodes[d].mode) && d != x ensures GoodDirectory(disk, inodes, d) {
      assert WholeInode(disk0, inodes0[d]) && GoodDirectory(disk0, inodes0, d);
      OtherInode(disk0, disk, inodes0, inodes, x, d);
      forall n | n in Children(disk, inodes[d])
        ensures Children(disk, inodes[d])[n] in inodes && inodes[Children(disk, inodes[d])[n]].nlinks > 0
      {
        EntryAt(disk0, inodes0, d, n);
        hide Children, Entries;
      }
      hide FilesBut, HoleFree, Children, Entries;
    }
  }

  lemma EntriesKept(disk0: Disk, disk: Disk, inodes0: Inodes, inodes: Inodes, x: nat)
    requires Whole(disk0, inodes0) && OnlyChanged(disk0, disk, inodes0, inodes, x)
    requires IsDir(inodes[x].mode) ==> Children(disk, inodes[x]) == Children(disk0, inodes0[x])
    ensures Entries(disk, inodes) == Entries(disk0, inodes0)
  {
    hide Children, HoleFree;
    var e0, e := Entries(disk0, inodes0), Entries(disk, inodes);
    forall d: nat, m: Name ensures Links.Place(d, m) in e <==> Links.Place(d, m) in e0
                           ensures Links.Place(d, m) in e ==> e[Links.Place(d, m)] == e0[Links.Place(d, m)] {
      EntryAt(disk0, inodes0, d, m);
      EntryAt(disk, inodes, d, m);
      if d in inodes0 && d != x {
        assert WholeInode(disk0, inodes0[d]);
        OtherInode(disk0, disk, inodes0, inodes, x, d);
      }
    }
    SameEntries(disk0, disk, inodes0, inodes, e0, x, []);
  }

  lemma EntryAdded(disk0: Disk, disk: Disk, inodes0: Inodes, inodes: Inodes, x: nat, n: Name, i: nat)
    requires Whole(disk0, inodes0) && OnlyChanged(disk0, disk, inodes0, inodes, x) && IsDir(inodes[x].mode)
    requires n !in Children(disk0, inodes0[x]) && Children(disk, inodes[x]) == Children(disk0, inodes0[x])[n := i]
    ensures Links.Place(x, n) !in Entries(disk0, inodes0)
    ensures Entries(disk, inodes) == Entries(disk0, inodes0)[Links.Place(x, n) := i]
  {
    hide Children, HoleFree;
    var e0, e := Entries(disk0, inodes0), Entries(disk, inodes);
    EntryAt(disk0, inodes0, x, n);
    forall d: nat, m: Name ensures Links.Place(d, m) in e <==> Links.Place(d, m) in e0 || (d == x && m == n)
                           ensures Links.Place(d, m) in e ==>
                                     e[Links.Place(d, m)] == if d == x && m == n then i else e0[Links.Place(d, m)] {
      EntryAt(disk0, inodes0, d, m);
      EntryAt(disk, inodes, d, m);
      if d in inodes0 && d != x {
        assert WholeInode(disk0, inodes0[d]);
        OtherInode(disk0, disk, inodes0, inodes, x, d);
      }
    }
    SameEntries(disk0, disk, inodes0, inodes, e0[Links.Place(x, n) := i], x, n);
  }

  /** Entries outside directory x are the same. */
  ghost predicate SameOutside(e0: map<Links.Place, nat>, e: map<Links.Place, nat>, x: nat) {
    forall p: Links.Place :: p.dir != x ==> (p in e <==> p in e0) && (p in e ==> e[p] == e0[p])
  }

  lemma EntriesRebound(disk0: Disk, disk: Disk, inodes0: Inodes, inodes: Inodes, x: nat)
    requires Whole(disk0, inodes0) && OnlyChanged(disk0, disk, inodes0, inodes, x)
    ensures SameOutside(Entries(disk0, inodes0), Entries(disk, inodes), x)
  {
    hide Children, HoleFree;
    var e0, e := Entries(disk0, inodes0), Entries(disk, inodes);
    forall d: nat, m: Name | d != x ensures Links.Place(d, m) in e <==> Links.Place(d, m) in e0
                                    ensures Links.Place(d, m) in e ==> e[Links.Place(d, m)] == e0[Links.Place(d, m)] {
      EntryAt(disk0, inodes0, d, m);
      EntryAt(disk, inodes, d, m);
      if d in inodes0 {
        assert WholeInode(disk0, inodes0[d]);
        OtherInode(disk0, disk, inodes0, inodes, x, d);
      }
    }
    forall p: Links.Place | p.dir != x ensures (p in e <==> p in e0) && (p in e ==> e[p] == e0[p]) {
      if p in e {
        var m := EntryName(disk, inodes, p);
      }
      if p in e0 {
        var m := EntryName(disk0, inodes0, p);
      }
    }
  }

  lemma EntriesOf(disk: Disk, inodes: Inodes, x: nat)
    requires x in inodes && IsDir(inodes[x].mode)
    ensures DirBinds(Entries(disk, inodes), x, Children(disk, inodes[x]))
  {
    var e, b := Entries(disk, inodes), Children(disk, inodes[x]);
    forall n: Name ensures (Links.Place(x, n) in e <==> n in b) && (n in b ==> e[Links.Place(x, n)] == b[n]) {
      EntryAt(disk, inodes, x, n);
    }
    forall p | p in e && p.dir == x ensures exists n: Name :: p == Links.Place(x, n) {
      var n := EntryName(disk, inodes, p);
    }
    hide Entries, Children;
  }

  /** The counts are right again exactly if the rewritten directory names every file as often as before. */
  lemma CountedRebound(e0: map<Links.Place, nat>, e: map<Links.Place, nat>, inodes0: Inodes, inodes: Inodes, x: nat,
                       b0: map<Name, nat>, b: map<Name, nat>)
    requires DirBinds(e0, x, b0) && DirBinds(e, x, b) && SameOutside(e0, e, x) && Counted(e0, inodes0, 0, 0)
    requires inodes.Keys == inodes0.Keys
    requires forall i :: i in inodes ==> inodes[i].mode == inodes0[i].mode && inodes[i].nlinks == inodes0[i].nlinks
    ensures Counted(e, inodes, 0, 0) <==> forall i :: i in inodes && !IsDir(inodes[i].mode) ==>
              |Bound(b, i)| == |Bound(b0, i)|
  {
    hide DirBinds, Bound, Links.Names;
    forall i | i in inodes && !IsDir(inodes[i].mode)
      ensures inodes[i].nlinks == |Links.Names(e, i)| <==> |Bound(b, i)| == |Bound(b0, i)|
    {
      ReboundNames(e0, e, x, b0, b, i);
    }
  }

  /** Entries are compared place by place. */
  lemma SameEntries(disk0: Disk, disk: Disk, inodes0: Inodes, inodes: Inodes, t: map<Links.Place, nat>, x: nat, n: Name)
    requires t.Keys <= Entries(disk0, inodes0).Keys + {Links.Place(x, n)}
    requires forall d: nat, m: Name :: Links.Place(d, m) in Entries(disk, inodes) <==> Links.Place(d, m) in t
    requires forall d: nat, m: Name :: Links.Place(d, m) in t ==>
               Entries(disk, inodes)[Links.Place(d, m)] == t[Links.Place(d, m)]
    ensures Entries(disk, inodes) == t
  {
    var e := Entries(disk, inodes);
    forall p | p in e ensures p in t && e[p] == t[p] {
      var m := EntryName(disk, inodes, p);
    }
    forall p | p in t ensures p in e {
      if p != Links.Place(x, n) {
        var m := EntryName(disk0, inodes0, p);
      }
    }
  }

  lemma EntryRemoved(disk0: Disk, disk: Disk, inodes0: Inodes, inodes: Inodes, x: nat, n: Name)
    requires Whole(disk0, inodes0) && OnlyChanged(disk0, disk, inodes0, inodes, x) && IsDir(inodes[x].mode)
    requires n in Children(disk0, inodes0[x]) && Children(disk, inodes[x]) == Children(disk0, inodes0[x]) - {n}
    ensures Links.Place(x, n) in Entries(disk0, inodes0)
    ensures Entries(disk0, inodes0)[Links.Place(x, n)] == Children(disk0, inodes0[x])[n]
    ensures Entries(disk, inodes) == Entries(disk0, inodes0) - {Links.Place(x, n)}
  {
    hide Children, HoleFree;
    var e0, e := Entries(disk0, inodes0), Entries(disk, inodes);
    EntryAt(disk0, inodes0, x, n);
    forall d: nat, m: Name ensures Links.Place(d, m) in e <==> Links.Place(d, m) in e0 && !(d == x && m == n)
                           ensures Links.Place(d, m) in e ==> e[Links.Place(d, m)] == e0[Links.Place(d, m)] {
      EntryAt(disk0, inodes0, d, m);
      EntryAt(disk, inodes, d, m);
      if d in inodes0 && d != x {
        assert WholeInode(disk0, inodes0[d]);
        OtherInode(disk0, disk, inodes0, inodes, x, d);
      }
    }
    SameEntries(disk0, disk, inodes0, inodes, e0 - {Links.Place(x, n)}, x, n);
  }

  // ---------------------------------------------------------------------------------------
  // What a change of the inode table keeps

  lemma {:induction false} RefsBelowAtLeast(ic: seq<MemInode>, k: nat, n: nat)
    requires k < n <= |ic|
    ensures RefsBelow(ic, ic[k].ino, n) >= ic[k].ref
  {
    if k < n - 1 {
      RefsBelowAtLeast(ic, k, n - 1);
    }
  }

  /** An inode is referred to at least as often as a slot of it says. */
  lemma RefsAtLeast(ic: seq<MemInode>, k: nat)
    requires k < |ic|
    ensures Refs(ic, ic[k].ino) >= ic[k].ref
  {
    RefsBelowAtLeast(ic, k, |ic|);
  }

  ghost predicate OneSlot(ic: seq<MemInode>) {
    forall k, l :: 0 <= k < l < |ic| && ic[k].ref > 0 && ic[l].ref > 0 ==> ic[k].ino != ic[l].ino
  }

  lemma {:induction false} RefsBelowExact(ic: seq<MemInode>, k: nat, n: nat)
    requires OneSlot(ic) && k < |ic| && n <= |ic| && ic[k].ref > 0
    ensures RefsBelow(ic, ic[k].ino, n) == if k < n then ic[k].ref else 0
  {
    if n > 0 {
      RefsBelowExact(ic, k, n - 1);
      assert n - 1 != k && ic[n - 1].ino == ic[k].ino ==> ic[n - 1].ref == 0;
    }
  }

  /** No inode is in two slots, so the slot's count is the inode's. */
  lemma RefsExact(sb: SuperBlock, ipb: nat, disk: Disk, ic: seq<MemInode>, inodes: Inodes, k: nat)
    requires InodeTable(sb, ipb, disk, ic, inodes) && k < |ic| && ic[k].ref > 0
    ensures Refs(ic, ic[k].ino) == ic[k].ref
  {
    RefsBelowExact(ic, k, |ic|);
  }

  /** Slot k and inode x in it change; the bitmap and all other inodes are as before. */
  lemma CacheKept(sb: SuperBlock, ipb: nat, disk: Disk, disk': Disk, ic: seq<MemInode>, inodes: Inodes, inodes': Inodes,
                  k: nat, m: MemInode, lk: set<nat>, lk': set<nat>)
    requires InodeTable(sb, ipb, disk, ic, inodes) && Marked(sb, disk, ic, inodes) && ReadIn(ic, inodes)
    requires Calm(sb, ipb, disk, ic, lk) && LocksRead(ic, lk)
    requires k < |ic| && ic[k].ref > 0 && m.ino == ic[k].ino
    requires inodes'.Keys == inodes.Keys && forall j :: j in inodes && j != m.ino ==> inodes'[j] == inodes[j]
    requires OtherInodesKept(sb, ipb, disk, disk', m.ino)
    requires CalmSlot(sb, ipb, disk', m, k in lk') && (k in lk' ==> m.ref > 0 && m.valid)
    requires forall l :: l != k ==> (l in lk' <==> l in lk)
    requires m.ref > 0 && m.ino in inodes' && inodes'[m.ino].nlinks == 0 ==> m.valid
    requires m.ino in inodes' && MarkedInode(sb, disk', inodes'[m.ino], m.ino, Refs(ic[k := m], m.ino))
    ensures Marked(sb, disk', ic[k := m], inodes') && ReadIn(ic[k := m], inodes')
    ensures Calm(sb, ipb, disk', ic[k := m], lk') && LocksRead(ic[k := m], lk')
  {
    hide DiskInode, InodeBit, Refs;
    var ic' := ic[k := m];
    forall j | j in inodes' && j != m.ino ensures MarkedInode(sb, disk', inodes'[j], j, Refs(ic', j)) {
      assert MarkedInode(sb, disk, inodes[j], j, Refs(ic, j));
      RefsSet(ic, k, m, j);
    }
    forall l | 0 <= l < |ic'| && l != k ensures CalmSlot(sb, ipb, disk', ic'[l], l in lk') {
      assert CalmSlot(sb, ipb, disk, ic[l], l in lk);
      assert ic[l].ref > 0 ==> ic[l].ino != m.ino && 1 <= ic[l].ino <= sb.ninodes;
    }
  }

  /** The bitmap is the same: the mark of the changed inode too. */
  lemma StillFreeable(sb: SuperBlock, disk: Disk, disk': Disk, i: nat)
    requires Freeable(sb, disk, i) && SameInodeMap(sb, disk, disk')
    ensures Freeable(sb, disk', i)
  {
    InodeBitKept(sb, disk, disk', i);
  }

  /** A reference more or less leaves the rest of the volume alone. */
  lemma ReferenceKept(sb: SuperBlock, disk: Disk, ic: seq<MemInode>, ic': seq<MemInode>, inodes: Inodes)
    requires Marked(sb, disk, ic, inodes)
    requires forall j :: j in inodes ==> (Refs(ic', j) > 0 <==> Refs(ic, j) > 0) || inodes[j].nlinks > 0
    ensures Marked(sb, disk, ic', inodes)
  {
    hide Refs, Freeable, Bare;
    forall j | j in inodes ensures MarkedInode(sb, disk, inodes[j], j, Refs(ic', j)) {
      assert MarkedInode(sb, disk, inodes[j], j, Refs(ic, j));
    }
  }

  /** A walk that ends with a reference more, or with none, leaves the volume sound. */
  lemma WalkSound(sb: SuperBlock, ipb: nat, disk: Disk, ic0: seq<MemInode>, ic: seq<MemInode>, inodes: Inodes,
                  ip: int, lk: set<nat>, x: nat, e: nat)
    requires Sound(sb, ipb, disk, ic0, inodes, lk, x, e) && OneMore(ic0, ic, ip) && Calm(sb, ipb, disk, ic, lk)
    requires if 0 <= ip < |ic| then
               RefsChange(ic0, ic, ic[ip].ino, 1) && ic[ip].ino in inodes
               && (ic[ip].ref > 1 || inodes[ic[ip].ino].nlinks > 0)
             else forall j: nat :: Refs(ic, j) == Refs(ic0, j)
    ensures Sound(sb, ipb, disk, ic, inodes, lk, x, e)
  {
    hide Tree, Whole, Counted, Entries, DiskInode, Refs, MarkedInode;
    if 0 <= ip < |ic| {
      assert ic[ip].ref == ic0[ip].ref + 1 && SlotKept(ic0[ip], ic[ip]);
      RefsAtLeast(ic0, ip);
    }
    ReferenceKept(sb, disk, ic0, ic, inodes);
    forall k | 0 <= k < |ic| && ic[k].ref > 0 && ic[k].ino in inodes && inodes[ic[k].ino].nlinks == 0
      ensures ic[k].valid
    {
      assert ic[k].ref == ic0[k].ref + (if k == ip then 1 else 0) && SlotKept(ic0[k], ic[k]);
    }
    forall k | k in lk ensures k < |ic| && ic[k].ref > 0 && ic[k].valid {
      assert ic[k].ref == ic0[k].ref + (if k == ip then 1 else 0) && SlotKept(ic0[k], ic[k]);
    }
  }

  /** So does dir_lookup's reference to an inode that has links. */
  lemma FoundSound(sb: SuperBlock, ipb: nat, disk: Disk, ic0: seq<MemInode>, ic: seq<MemInode>, inodes: Inodes,
                   k: nat, i: nat, lk: set<nat>, x: nat, e: nat)
    requires Sound(sb, ipb, disk, ic0, inodes, lk, x, e) && GotRef(ic0, ic, k, i) && i in inodes && i >= 1
    requires inodes[i].nlinks > 0 && 0 < ipb * DINODE <= BSIZE
    ensures Sound(sb, ipb, disk, ic, inodes, lk, x, e) && OneMore(ic0, ic, k)
  {
    hide Tree, Whole, Counted, Entries, DiskInode, Refs, MarkedInode, Marked, ReadIn;
    assert CalmSlot(sb, ipb, disk, ic0[k], k in lk);
    forall l | 0 <= l < |ic| && l != k ensures CalmSlot(sb, ipb, disk, ic[l], l in lk) {
      assert ic[l] == ic0[l];
    }
    WalkSound(sb, ipb, disk, ic0, ic, inodes, k, lk, x, e);
  }

  /** And a reference that was taken and given back. */
  lemma BackSound(sb: SuperBlock, ipb: nat, disk: Disk, ic0: seq<MemInode>, ic: seq<MemInode>, inodes: Inodes,
                  lk: set<nat>, x: nat, e: nat)
    requires Sound(sb, ipb, disk, ic0, inodes, lk, x, e) && SlotsBack(ic0, ic) && 0 < ipb * DINODE <= BSIZE
    requires forall j: nat :: Refs(ic, j) == Refs(ic0, j)
    ensures Sound(sb, ipb, disk, ic, inodes, lk, x, e) && OneMore(ic0, ic, -1)
  {
    hide Tree, Whole, Counted, Entries, DiskInode, Refs, MarkedInode, Marked, ReadIn;
    forall l | 0 <= l < |ic| ensures CalmSlot(sb, ipb, disk, ic[l], l in lk) {
      assert if ic0[l].ref > 0 then ic[l] == ic0[l] else ic[l].ref == 0;
      assert CalmSlot(sb, ipb, disk, ic0[l], l in lk);
    }
    forall l | 0 <= l < |ic| ensures ic[l].ref == ic0[l].ref + (if l == -1 then 1 else 0) && SlotKept(ic0[l], ic[l]) {
      assert if ic0[l].ref > 0 then ic[l] == ic0[l] else ic[l].ref == 0;
    }
    WalkSound(sb, ipb, disk, ic0, ic, inodes, -1, lk, x, e);
  }

  /** An inode without links has no names. */
  lemma NoLinksNoNames(disk: Disk, inodes: Inodes, x: nat)
    requires Tree(disk, inodes) && x in inodes && inodes[x].nlinks == 0
    ensures x != ROOT_INO && Nameless(Entries(disk, inodes), x)
  {
    forall p | p in Entries(disk, inodes) ensures Entries(disk, inodes)[p] != x {
      var n := EntryName(disk, inodes, p);
      assert GoodDirectory(disk, inodes, p.dir);
      hide Entries, Children, HoleFree, IsDirectory;
    }
  }

  /** What is left after iput has freed an inode. */
  lemma BareAfter(disk: Disk, ip: Inode)
    requires WellFormedInode(ip)
    ensures Bare(Truncated(ip)) && HoleFree(disk, Truncated(ip)) && Truncated(ip).mode == ip.mode
    ensures Truncated(ip).nlinks == ip.nlinks
  {
  }

  lemma CountedSame(entries: map<Links.Place, nat>, inodes0: Inodes, inodes: Inodes, x: nat, e: nat)
    requires Counted(entries, inodes0, x, e) && inodes.Keys == inodes0.Keys
    requires forall i :: i in inodes ==> inodes[i].mode == inodes0[i].mode && inodes[i].nlinks == inodes0[i].nlinks
    ensures Counted(entries, inodes, x, e)
  {
    hide Links.Names;
  }

  lemma SelfKept(sb: SuperBlock, ipb: nat, disk: Disk, ino: nat)
    requires 0 < ipb * DINODE <= BSIZE
    ensures OtherInodesKept(sb, ipb, disk, disk, ino)
  {
  }

  /** All files but the truncated one read the same. */
  lemma FreedFiles(disk0: Disk, disk: Disk, inodes0: Inodes, inodes: Inodes, x: nat)
    requires WellFormed(inodes0) && OthersRead(disk0, disk, inodes, x) && x in inodes0 && x in inodes
    requires inodes == inodes0[x := inodes[x]]
    ensures FilesBut(disk0, disk, inodes0, inodes, x)
  {
    hide ByteAt, ZoneAt;
    forall j | j in inodes0 && j != x && !IsChr(inodes0[j].mode)
      ensures Contents(disk, inodes[j]) == Contents(disk0, inodes0[j])
    {
      SameContents(disk0, disk, inodes0[j], inodes[j]);
    }
  }

  /** And so do all files when only a count was written. */
  lemma UpdatedFiles(sb: SuperBlock, ipb: nat, disk0: Disk, disk: Disk, inodes0: Inodes, inodes: Inodes, x: nat)
    requires WellFormed(inodes0) && Updated(sb, ipb, disk0, disk, inodes, x) && x in inodes0 && x in inodes
    requires inodes == inodes0[x := inodes[x]]
    requires inodes[x] == inodes0[x].(nlinks := inodes[x].nlinks) && WholeInode(disk0, inodes0[x])
    ensures OnlyChanged(disk0, disk, inodes0, inodes, x) && Children(disk, inodes[x]) == Children(disk0, inodes0[x])
    ensures SameBytes(disk0, disk, inodes0[x], inodes[x])
  {
    forall j | j in inodes0 && j != x && !IsChr(inodes0[j].mode)
      ensures Contents(disk, inodes[j]) == Contents(disk0, inodes0[j])
    {
      assert SameFile(disk0, disk, inodes[j], inodes[j]);
      SameContents(disk0, disk, inodes0[j], inodes[j]);
    }
    assert SameFile(disk0, disk, inodes[x], inodes[x]);
    assert forall bn :: 0 <= bn < MAXFILE ==> ZoneAt(disk0, inodes[x], bn) == ZoneAt(disk0, inodes0[x], bn);
    forall i | 0 <= i < MAXSIZE ensures ByteAt(disk0, inodes[x], i) == ByteAt(disk0, inodes0[x], i) {
      assert ZoneAt(disk0, inodes[x], i / BSIZE) == ZoneAt(disk0, inodes0[x], i / BSIZE);
    }
    SameContents(disk0, disk, inodes0[x], inodes[x]);
    hide Bindings;
  }

  // ---------------------------------------------------------------------------------------
  // Files read the same

  ghost predicate SameBytes(disk0: Disk, disk: Disk, ip0: Inode, ip: Inode) {
    && WellFormedInode(ip0) && WellFormedInode(ip) && ip.mode == ip0.mode && ip.size == ip0.size <= MAXSIZE
    && Contents(disk, ip) == Contents(disk0, ip0)
  }

  /** A directory may have grown; every other file reads the same. */
  ghost predicate Reads(disk0: Disk, disk: Disk, ip0: Inode, ip: Inode) {
    if IsDir(ip0.mode) then ip.mode == ip0.mode && ip.size >= ip0.size else SameBytes(disk0, disk, ip0, ip)
  }

  /** This holds of all inodes but x; 0 is none. */
  ghost predicate ReadsBut(disk0: Disk, disk: Disk, inodes0: Inodes, inodes: Inodes, x: nat) {
    && inodes.Keys == inodes0.Keys
    && forall j :: j in inodes0 && j != x ==> Reads(disk0, disk, inodes0[j], inodes[j])
  }

  lemma ReadsSelf(disk: Disk, inodes: Inodes)
    requires WellFormed(inodes)
    ensures ReadsBut(disk, disk, inodes, inodes, 0)
  {
  }

  lemma ReadsTwice(disk0: Disk, disk1: Disk, disk2: Disk, inodes0: Inodes, inodes1: Inodes, inodes2: Inodes, x: nat)
    requires ReadsBut(disk0, disk1, inodes0, inodes1, 0) && ReadsBut(disk1, disk2, inodes1, inodes2, x)
    requires 0 !in inodes0
    ensures ReadsBut(disk0, disk2, inodes0, inodes2, x)
  {
    hide Contents;
    forall j | j in inodes0 && j != x ensures Reads(disk0, disk2, inodes0[j], inodes2[j]) {
      assert Reads(disk0, disk1, inodes0[j], inodes1[j]) && Reads(disk1, disk2, inodes1[j], inodes2[j]);
    }
  }

  /** One inode changed. */
  lemma ReadsOthers(disk0: Disk, disk: Disk, inodes0: Inodes, inodes: Inodes, x: nat)
    requires Whole(disk0, inodes0) && FilesBut(disk0, disk, inodes0, inodes, x)
    ensures ReadsBut(disk0, disk, inodes0, inodes, x)
  {
    hide Contents, SameFile, HoleFree;
    forall j | j in inodes0 && j != x ensures Reads(disk0, disk, inodes0[j], inodes[j]) {
      assert WholeInode(disk0, inodes0[j]);
    }
  }

  /** And it is a directory, or reads the same. */
  lemma ReadsAll(disk0: Disk, disk: Disk, inodes0: Inodes, inodes: Inodes, x: nat)
    requires Whole(disk0, inodes0) && FilesBut(disk0, disk, inodes0, inodes, x) && x in inodes0
    requires if IsDir(inodes0[x].mode) then SameLinks(inodes0, inodes, x)
               else SameBytes(disk0, disk, inodes0[x], inodes[x])
    ensures ReadsBut(disk0, disk, inodes0, inodes, 0)
  {
    ReadsOthers(disk0, disk, inodes0, inodes, x);
  }

  /** Some slot of the table is in use for the inode. */
  ghost predicate UsedIn(ic: seq<MemInode>, i: nat) { exists k :: 0 <= k < |ic| && ic[k].ref > 0 && ic[k].ino == i }

  /** The bytes of inode `ino` from the offset on, as many as there are up to n; the offset moves past them. */
  ghost predicate ReadResult(disk: Disk, inodes: Inodes, ino: nat, readable: bool, off0: nat, off: nat, n: nat,
                             len: int, data: seq<Byte>)
  {
    if !readable then len == -1 && off == off0
    else
      && ino in inodes && WellFormedInode(inodes[ino]) && off0 <= off <= inodes[ino].size <= MAXSIZE
      && len == Clipped(inodes[ino], off0, n) && off == off0 + len && data == Contents(disk, inodes[ino])[off0..off]
  }

  /** The entries after a write to inode x: all as before, or those of directory x are what it binds now. */
  ghost predicate EntriesWritten(disk0: Disk, disk: Disk, inodes0: Inodes, inodes: Inodes, x: nat) {
    && x in inodes0 && x in inodes
    && if IsDir(inodes0[x].mode) then
         && SameOutside(Entries(disk0, inodes0), Entries(disk, inodes), x) && WellFormedInode(inodes[x])
         && inodes[x].size <= MAXSIZE
         && DirBinds(Entries(disk, inodes), x, Bindings(Contents(disk, inodes[x])))
       else Entries(disk, inodes) == Entries(disk0, inodes0)
  }

  /** Inode `ino` was overwritten at the offset; no other file reads differently, and no other directory
      binds differently. */
  ghost predicate WriteResult(disk0: Disk, disk: Disk, inodes0: Inodes, inodes: Inodes, ino: nat, off: nat,
                              src: seq<Byte>)
  {
    && FileOverwritten(disk0, disk, inodes0, inodes, ino, off, src) && ReadsBut(disk0, disk, inodes0, inodes, ino)
    && EntriesWritten(disk0, disk, inodes0, inodes, ino)
  }
}
