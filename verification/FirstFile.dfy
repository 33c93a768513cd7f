/** A small volume at work: the disk of EmptyImage with one file, named as create names a new file, and what
    the calls do to it where one might expect something else (fs/sysfile.c). */
module FirstFile {
  import opened Minix
  import opened Bitmap
  import opened Files
  import opened FsState
  import opened InodeRefs
  import opened InodeLayer
  import opened DirEntries
  import opened Directory
  import opened PathNames
  import opened PathWalk
  import opened Wrappers
  import opened DirectoryBytes
  import opened VolumeState
  import opened VolumeCalls
  import opened VolumeSpec
  import opened VolumeViews
  import Links
  import EmptyImage
  import Volume
  import FileIo

  const A: Name := [97]
  const B: Name := [98]

  /** A new regular file, which counts the name it is about to get. */
  function NewFile(): EmptyImage.Second { Inode(0x8000, 0, 0, 0, 0, 1, [0, 0, 0, 0, 0, 0, 0, 0, 0]) }

  /** The root directory has the one entry "a", which is a file. */
  ghost predicate OneFile(disk: Disk, inodes: Inodes) {
    && Entries(disk, inodes) == map[Links.Place(ROOT_INO, A) := 2]
    && ROOT_INO in inodes && IsDir(inodes[ROOT_INO].mode) && inodes[ROOT_INO].size <= ENTRY
    && 2 in inodes && !IsDir(inodes[2].mode)
  }

  lemma FirstFacts()
    ensures var disk, inodes := EmptyImage.NewDisk(NewFile()), EmptyImage.Inodes(NewFile());
            && 2 in inodes && inodes[2] == NewFile() && ROOT_INO in inodes && inodes[ROOT_INO].size == 0
            && IsDir(inodes[ROOT_INO].mode)
            && Entries(disk, inodes) == map[] && HasRoom(EmptyImage.Super(), disk, inodes, ROOT_INO)
  {
    hide EmptyImage.NewDisk, DiskInode, EmptyImage.Inodes, FreeZones, HoleFree, WriteNeed;
    EmptyImage.SecondReads(NewFile());
    EmptyImage.RootReads(NewFile());
    EmptyImage.InodeNumbers(NewFile());
    EmptyImage.NoEntryAtAll(NewFile());
    EmptyImage.RoomForEntry(NewFile());
  }

  /** iget of a file that has links, in a sound volume */
  method Take(fs: FileSystem, i: nat, ghost x: nat, ghost e: nat) returns (ip: nat)
    requires Settled(fs, {}, x, e) && i in fs.inodes && fs.inodes[i].nlinks > 0
    requires exists l :: 0 <= l < fs.icache.Length && (CachedAt(fs.icache[..], i, l) || fs.icache[l].ref == 0)
    modifies fs.icache
    ensures Settled(fs, {}, x, e) && GotRef(old(fs.icache[..]), fs.icache[..], ip, i)
  {
    hide BufferCache.BufferCache.Valid, Inv, Tree, Whole, Marked, ReadIn, Calm, Counted, Entries, RefsChange, Image,
         InodeTable, LocksRead;
    CacheFacts(fs);
    ghost var ic := fs.icache[..];
    SoundOf(fs, {}, x, e);
    ip := fs.Iget(i);
    FoundSound(fs.sb, fs.ipb, fs.c.disk, ic, fs.icache[..], fs.inodes, ip, i, {}, x, e);
  }

  /** One slot is taken, so another one is free, and inode i is not in it. */
  lemma EmptySlot(ic: seq<MemInode>, root: nat)
    requires |ic| == NINODE && forall k :: 0 <= k < |ic| ==> ic[k].ref == if k == root then 1 else 0
    ensures exists l :: 0 <= l < |ic| && ic[l].ref == 0
  {
    var l := if root == 0 then 1 else 0;
    assert ic[l].ref == 0;
  }

  /** Only some of the slots are taken. */
  lemma {:induction false} FreeLeft(ic: seq<MemInode>, used: set<nat>, n: nat)
    requires n <= |ic| && forall k :: 0 <= k < n && k !in used ==> ic[k].ref == 0
    ensures FreeSlots(ic, n) + |used| >= n
  {
    if n > 0 {
      if n - 1 in used {
        FreeLeft(ic, used - {n - 1}, n - 1);
      } else {
        FreeLeft(ic, used, n - 1);
      }
    }
  }

  /** The root directory and the new file are locked. */
  method LockBoth(fs: FileSystem, root: nat) returns (ip: nat)
    requires Settled(fs, {}, 2, 1) && root < fs.icache.Length && fs.icache[root].ino == ROOT_INO && 2 in fs.inodes
    requires fs.inodes[2].nlinks > 0
    requires forall k :: 0 <= k < fs.icache.Length ==> fs.icache[k].ref == if k == root then 1 else 0
    modifies fs.icache, fs.c, fs.c.buf
    ensures Settled(fs, {root, ip}, 2, 1) && fs.c.disk == old(fs.c.disk) && ROOT_INO in fs.inodes
    ensures ip < fs.icache.Length && ip != root && fs.icache[root].ino == ROOT_INO && fs.icache[ip].ino == 2
    ensures fs.icache[root].d == fs.inodes[ROOT_INO] && fs.icache[ip].d == fs.inodes[2]
    ensures forall k :: 0 <= k < fs.icache.Length ==> fs.icache[k].ref == if k == root || k == ip then 1 else 0
    ensures FreeSlots(fs.icache[..], fs.icache.Length) >= 1
  {
    hide Settled, DiskInode, RefsChange, FreeSlots;
    TableSize(fs, {}, 2, 1);
    ghost var ic := fs.icache[..];
    EmptySlot(ic, root);
    assert exists l :: 0 <= l < fs.icache.Length && fs.icache[l].ref == 0 by {
      var l :| 0 <= l < |ic| && ic[l].ref == 0;
      assert fs.icache[l].ref == 0;
    }
    ip := Take(fs, 2, 2, 1);
    assert fs.icache[..][root] == ic[root] && fs.icache[..][ip].ref == 1;
    forall k | 0 <= k < fs.icache.Length ensures fs.icache[k].ref == if k == root || k == ip then 1 else 0 {
      assert fs.icache[..][k].ref == if k == ip then 1 else ic[k].ref;
    }
    Lock(fs, root, {}, 2, 1);
    Lock(fs, ip, {} + {root}, 2, 1);
    FreeLeft(fs.icache[..], {root, ip}, fs.icache.Length);
    assert {} + {root} + {ip} == {root, ip};
  }

  /** create's last step: the file of the new inode gets the name "a" in the root directory. */
  method GiveName(fs: FileSystem, root: nat, field: seq<Byte>)
    requires Settled(fs, {}, 2, 1) && fs.sb == EmptyImage.Super() && |field| == NAME_LEN
    requires fs.c.disk == EmptyImage.NewDisk(NewFile()) && fs.inodes == EmptyImage.Inodes(NewFile())
    requires root < fs.icache.Length && fs.icache[root].ino == ROOT_INO
    requires forall k :: 0 <= k < fs.icache.Length ==> fs.icache[k].ref == if k == root then 1 else 0
    modifies fs`inodes, fs`owner, fs.icache, fs.c, fs.c.buf
    ensures Settled(fs, {}, 0, 0) && OneFile(fs.c.disk, fs.inodes) && fs.icache[root].ino == ROOT_INO
    ensures forall k :: 0 <= k < fs.icache.Length ==> fs.icache[k].ref == if k == root then 1 else 0
  {
    hide Settled, EmptyImage.NewDisk, EmptyImage.Inodes, EmptyImage.Root, DiskInode, Entries, HasRoom, FreeSlots,
         LastUse, FilesBut, InodeBit;
    FirstFacts();
    var ip := LockBoth(fs, root);
    var room, ok := AddEntry(fs, root, A, ip, field, {root, ip}, 2);
    assert fs.icache[ip].ref == 1;
    assert {root, ip} - {root} == {ip} && {ip} - {ip} == {};
    VolumeCalls.Unlock(fs, root, {root, ip}, 2, 0);
    VolumeCalls.Unlock(fs, ip, {ip}, 2, 0);
    Put(fs, ip, {}, 2, 0);
    NoneSpecial(fs, {}, 2, 0);
  }

  lemma TableSize(fs: FileSystem, lk: set<nat>, x: nat, e: nat)
    requires Settled(fs, lk, x, e)
    ensures fs.icache.Length == NINODE
  {
    CacheFacts(fs);
  }

  /** The volume with this one file and the root as working directory. */
  method WithFile(field: seq<Byte>) returns (v: Volume.Volume)
    requires |field| == NAME_LEN
    ensures v.Valid() && v.files == [] && v.leaked == [] && fresh(v) && fresh(v.fs) && fresh(v.fs.icache)
    ensures fresh(v.fs.c) && fresh(v.fs.c.buf)
    ensures OneFile(v.fs.c.disk, v.fs.inodes) && v.cwd < v.fs.icache.Length && v.fs.icache[v.cwd].ino == ROOT_INO
    ensures v.fs.sb == EmptyImage.Super()
  {
    hide Settled, EmptyImage.NewDisk, EmptyImage.Inodes, DiskInode, Entries, FreeSlots;
    var fs, root := EmptyImage.Settle(NewFile());
    GiveName(fs, root, field);
    v := new Volume.Volume(fs, root);
  }

  // ---------------------------------------------------------------------------------------
  // Paths

  const SlashOnly: Path := [SLASH]
  const PathA: Path := A
  const PathB: Path := B
  const PathAB: Path := A + [SLASH] + B

  lemma Names()
    ensures Components(SlashOnly) == [] && Components(PathA) == [A] && Components(PathB) == [B]
    ensures Components(PathAB) == [A, B]
    ensures IsName(A) && IsName(B)
  {
    ElementIs(A, 1);
    ElementIs(B, 1);
    ElementIs(PathAB, 1);
    assert A[..1] == A && B[..1] == B;
    assert A[|Element(A)|..] == [] && B[|Element(B)|..] == [];
    assert PathAB[..1] == A && PathAB[1..] == [SLASH] + B && PathAB[1..][1..] == B;
    assert Components([SLASH] + B) == Components(B) == [B];
    assert Element(PathAB) == A && Components(PathAB) == [A] + Components(PathAB[1..]);
  }

  /** What the paths lead to. */
  lemma Ways(disk: Disk, inodes: Inodes)
    requires OneFile(disk, inodes)
    ensures && Resolve(disk, inodes, ROOT_INO, []) == Some(ROOT_INO) && Resolve(disk, inodes, ROOT_INO, [A]) == Some(2)
            && ResolveParent(disk, inodes, ROOT_INO, [A]) == Some(ROOT_INO)
            && ResolveParent(disk, inodes, ROOT_INO, [B]) == Some(ROOT_INO)
            && Meets(disk, inodes, ROOT_INO, [A, B], {2}) && !Meets(disk, inodes, ROOT_INO, [B], {2})
  {
    hide Children, Entries;
    EntryAt(disk, inodes, ROOT_INO, A);
    EntryAt(disk, inodes, ROOT_INO, B);
    assert Links.Place(ROOT_INO, B) != Links.Place(ROOT_INO, A);
    assert [A][1..] == [] && [A, B][1..] == [B] && [B][1..] == [];
  }

  // ---------------------------------------------------------------------------------------
  // Calls

  /** With nothing open there is room in the inode table. */
  lemma Idle(v: Volume.Volume)
    requires v.Valid() && v.files == [] && v.leaked == []
    ensures FreeSlots(v.fs.icache[..], v.fs.icache.Length) >= 3
  {
    hide Settled, FreeSlots;
    TableSize(v.fs, {}, 0, 0);
    forall k | 0 <= k < v.fs.icache.Length && k != v.cwd ensures v.fs.icache[..][k].ref == 0 {
      assert v.fs.icache[k].ref == v.Uses(k);
    }
    FreeLeft(v.fs.icache[..], {v.cwd}, v.fs.icache.Length);
  }

  /** The file has one link, and the root directory has room for one more entry. */
  lemma FileLinks(v: Volume.Volume)
    requires v.Valid() && OneFile(v.fs.c.disk, v.fs.inodes)
    ensures v.fs.inodes[2].nlinks == 1
  {
    hide Entries, Tree, Whole, Marked, Calm, LocksRead;
    CountSeen(v.fs.c.disk, v.fs.inodes, 2);
    assert Links.Names(Entries(v.fs.c.disk, v.fs.inodes), 2) == {Links.Place(ROOT_INO, A)};
  }

  lemma RootBytes(v: Volume.Volume)
    requires v.Valid() && OneFile(v.fs.c.disk, v.fs.inodes)
    ensures var d := v.fs.inodes[ROOT_INO]; WellFormedInode(d) && d.size == ENTRY && ZoneAt(v.fs.c.disk, d, 0) != 0
    ensures |Contents(v.fs.c.disk, v.fs.inodes[ROOT_INO])| == ENTRY
  {
    hide Entries, Marked, Calm, LocksRead, Counted, Contents, BufferCache.BufferCache.Valid, Inv, ZoneAt;
    var disk, d := v.fs.c.disk, v.fs.inodes[ROOT_INO];
    EntryAt(disk, v.fs.inodes, ROOT_INO, A);
    assert GoodDirectory(disk, v.fs.inodes, ROOT_INO);
    NoSlots(Contents(disk, d));
  }

  lemma NoSlots(s: seq<Byte>)
    ensures |s| < ENTRY ==> Bindings(s) == map[]
  {
  }

  lemma RootRoom(v: Volume.Volume)
    requires v.Valid() && OneFile(v.fs.c.disk, v.fs.inodes)
    ensures HasRoom(v.fs.sb, v.fs.c.disk, v.fs.inodes, ROOT_INO)
  {
    hide Settled, Contents, FreeZones, ZoneAt;
    RootBytes(v);
    var disk, d := v.fs.c.disk, v.fs.inodes[ROOT_INO];
    assert EndBlock(ENTRY, ENTRY) == 1;
    assert WriteNeed(disk, d, ENTRY, ENTRY) == 0;
  }

  /** What link("a", "a/b") does about this file: it locks the file, and then waits for it. */
  lemma WaitsForItself(sb: SuperBlock, disk0: Disk, disk: Disk, inodes0: Inodes, inodes: Inodes, r: Outcome)
    requires OneFile(disk0, inodes0) && inodes0[2].nlinks == 1
    requires Linking(r, sb, disk0, disk, inodes0, inodes, Resolve(disk0, inodes0, ROOT_INO, Components(PathA)),
                     ROOT_INO, Components(PathAB))
    ensures r == Stuck
  {
    hide Entries, Components, Resolve, ResolveParent, Meets, NoPlace, NewName, ReadsBut;
    Names();
    Ways(disk0, inodes0);
  }

  /** And so it does. */
  method LinkBelowItself(v: Volume.Volume, field: seq<Byte>) returns (r: Outcome)
    requires v.Valid() && OneFile(v.fs.c.disk, v.fs.inodes) && v.files == [] && v.leaked == [] && |field| == NAME_LEN
    requires v.cwd < v.fs.icache.Length && v.fs.icache[v.cwd].ino == ROOT_INO
    modifies v.fs`inodes, v.fs`owner, v.fs.icache, v.fs.c, v.fs.c.buf
    ensures r == Stuck
  {
    hide Volume.Volume.Valid, OneFile, FreeSlots, Components, Resolve, Linking;
    Idle(v);
    Names();
    FileLinks(v);
    ghost var disk0, inodes0 := v.fs.c.disk, v.fs.inodes;
    assert StartOf(v.fs.icache[..], PathA, v.cwd) == StartOf(v.fs.icache[..], PathAB, v.cwd) == ROOT_INO;
    r := v.Link(PathA, PathAB, field);
    WaitsForItself(v.fs.sb, disk0, v.fs.c.disk, inodes0, v.fs.inodes, r);
  }

  /** link("a", "b") and unlink("a") rename the file. */
  method LinkAndUnlink(field: seq<Byte>, field1: seq<Byte>) returns (v: Volume.Volume)
    requires |field| == |field1| == NAME_LEN
    ensures v.Valid() && Entries(v.fs.c.disk, v.fs.inodes) == map[Links.Place(ROOT_INO, B) := 2]
  {
    hide Volume.Volume.Valid, Entries, FreeSlots, Components, Resolve, ResolveParent, Meets, HasRoom, ReadsBut;
    v := WithFile(field);
    Idle(v);
    Names();
    Ways(v.fs.c.disk, v.fs.inodes);
    FileLinks(v);
    RootRoom(v);
    ghost var start := StartOf(v.fs.icache[..], PathB, v.cwd);
    assert Place(v.fs.c.disk, v.fs.inodes, start, [B]) == Links.Place(ROOT_INO, B);
    assert Links.Place(ROOT_INO, B) !in Entries(v.fs.c.disk, v.fs.inodes);
    ghost var disk0, inodes0 := v.fs.c.disk, v.fs.inodes;
    v.AllUsed();
    var r := v.Link(PathA, PathB, field1);
    assert r == Done;
    KindsKept(disk0, v.fs.c.disk, inodes0, v.fs.inodes);
    v.AllUsed();
    Idle(v);
    OneName(v.fs.c.disk, v.fs.inodes, ROOT_INO, A);
    assert Links.Place(ROOT_INO, A) != Links.Place(ROOT_INO, B);
    r := v.Unlink(PathA);
    assert r == Done;
  }

  lemma OneName(disk: Disk, inodes: Inodes, d: nat, name: Name)
    requires d in inodes && IsDir(inodes[d].mode)
    ensures ResolveParent(disk, inodes, d, [name]) == Some(d)
  {
  }

  lemma KindsKept(disk0: Disk, disk: Disk, inodes0: Inodes, inodes: Inodes)
    requires ReadsBut(disk0, disk, inodes0, inodes, 0)
    ensures inodes.Keys == inodes0.Keys && forall i :: i in inodes0 && i != 0 ==> inodes[i].mode == inodes0[i].mode
  {
    forall i | i in inodes0 && i != 0 ensures inodes[i].mode == inodes0[i].mode {
      assert Reads(disk0, disk, inodes0[i], inodes[i]);
    }
  }

  /** chdir("a") is refused, and the file's reference is lost. */
  method ChdirToFile(field: seq<Byte>) returns (v: Volume.Volume, ok: bool)
    requires |field| == NAME_LEN
    ensures v.Valid() && !ok && |v.leaked| == 1 && v.Lost()[0] == 2
  {
    hide Volume.Volume.Valid, Entries, FreeSlots, Components, Resolve;
    v := WithFile(field);
    Idle(v);
    Names();
    Ways(v.fs.c.disk, v.fs.inodes);
    ok := v.Chdir(PathA);
  }

  // ---------------------------------------------------------------------------------------
  // Writing over a directory

  /** An entry "x" for inode 65535, which does not exist. */
  function Junk(): seq<Byte> { [255, 255, 120, 0, 0, 0, 0, 0, 0, 0, 0, 0, 0, 0, 0, 0] }

  lemma JunkBinds()
    ensures Binds(Junk(), 0, [120], 65535)
  {
    assert SlotBytes(Junk(), 0) == Junk();
    CStringIs(Junk()[2..], [120]);
  }

  lemma RootSpoilt(disk0: Disk, disk: Disk, inodes0: Inodes, inodes: Inodes)
    requires WriteResult(disk0, disk, inodes0, inodes, ROOT_INO, 0, Junk()) && IsDir(inodes0[ROOT_INO].mode)
    requires WellFormedInode(inodes0[ROOT_INO]) && inodes0[ROOT_INO].size == ENTRY && 65535 !in inodes0
    ensures !Tree(disk, inodes)
  {
    hide Contents, SameFile, HoleFree, EndBlock, AllMapped, Bindings, ReadsBut, EntriesWritten;
    assert Contents(disk, inodes[ROOT_INO]) == Junk();
    JunkBinds();
    JunkIsDirectory();
    assert Children(disk, inodes[ROOT_INO])[[120]] == 65535;
    assert Tree(disk, inodes) ==> GoodDirectory(disk, inodes, ROOT_INO);
  }

  lemma JunkIsDirectory()
    ensures IsDirectory(Junk()) && [120] in Bindings(Junk()) && Bindings(Junk())[[120]] == 65535
  {
    DirectoryIff(Junk());
    JunkBinds();
    BindingsIsMap(Junk());
  }

  lemma RootFits(v: Volume.Volume)
    requires v.Valid() && OneFile(v.fs.c.disk, v.fs.inodes)
    ensures FileIo.CanStore(v.fs.sb, v.fs.c.disk, v.fs.inodes[ROOT_INO], 0, ENTRY)
  {
    hide Settled, Contents, FreeZones, ZoneAt;
    RootBytes(v);
    assert EndBlock(0, ENTRY) == 1;
    assert WriteNeed(v.fs.c.disk, v.fs.inodes[ROOT_INO], 0, ENTRY) == 0;
  }

  lemma NoSuchInode(v: Volume.Volume)
    requires v.Valid() && v.fs.sb == EmptyImage.Super()
    ensures 65535 !in v.fs.inodes
  {
    hide Sound;
    CacheFacts(v.fs);
  }

  lemma NotSound(v: Volume.Volume)
    requires !Tree(v.fs.c.disk, v.fs.inodes)
    ensures !v.Valid()
  {
  }

  /** fd = open("/", O_RONLY) and write(fd, junk, 16) spoil the root directory. */
  method SpoilRoot(field: seq<Byte>) returns (v: Volume.Volume)
    requires |field| == NAME_LEN
    ensures v.fs.Valid() && !Tree(v.fs.c.disk, v.fs.inodes) && !v.Valid()
  {
    hide Volume.Volume.Valid, Entries, FreeSlots, Components, Resolve, WriteResult, FileIo.CanStore,
         InodeLayer.FileSystem.Valid, Tree;
    v := WithFile(field);
    Idle(v);
    Names();
    Ways(v.fs.c.disk, v.fs.inodes);
    RootBytes(v);
    RootFits(v);
    NoSuchInode(v);
    var ok := v.Open(SlashOnly, O_RONLY);
    assert ok && v.files[0].writeable;
    ghost var disk0, inodes0 := v.fs.c.disk, v.fs.inodes;
    var stopped, len := v.Fwrite(v.files[0], Junk());
    RootSpoilt(disk0, v.fs.c.disk, inodes0, v.fs.inodes);
    NotSound(v);
  }
}
