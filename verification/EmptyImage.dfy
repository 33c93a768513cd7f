/** Mountable images of twelve blocks: an empty root directory and one more inode, a file without zones
    or none.  They stand in for the image that mkfs makes. */
module EmptyImage {
  import opened Minix
  import opened Bits
  import opened Bitmap
  import opened Files
  import opened FsState
  import opened InodeRefs
  import opened InodeLayer
  import BufferCache
  import DirEntries
  import Directory
  import PathNames
  import PathWalk
  import VolumeState
  import VolumeCalls
  import Volume
  import Links
  import Sets

  const IPB: nat := 21 // BSIZE / sizeof(struct inode)

  /** One block each for the inode map, the zone map and the inodes, then seven data zones. */
  function Super(): SuperBlock { SuperBlock(21, 12, 1, 1, 5) }

  function Root(): Inode { Inode(0x41ff, 0, 0, 0, 0, 2, [0, 0, 0, 0, 0, 0, 0, 0, 0]) }

  function SuperBlockBytes(): Block {
    var b: Block := ZeroBlock();
    var b0: Block := SetWord(b, 0, 21);
    var b1: Block := SetWord(b0, 1, 12);
    var b2: Block := SetWord(b1, 2, 1);
    var b3: Block := SetWord(b2, 3, 1);
    SetWord(b3, 4, 5)
  }

  /** Bit 0 and the bits from 8 on are set. */
  function ZoneMap(): Block { ZeroBlock()[0 := 1][1 := 255] }

  /** Inode 2 is marked when it has links. */
  function InodeMap(two: Second): Block { ZeroBlock()[0 := if two.nlinks > 0 then 7 else 3] }

  /** No file. */
  function Blank(): Inode { Inode(0, 0, 0, 0, 0, 0, [0, 0, 0, 0, 0, 0, 0, 0, 0]) }

  /** What inode 2 may be: a file whose blocks, if it has any, have no zones. */
  predicate Zoneless(ip: Inode) {
    WellFormedInode(ip) && ip.size <= MAXSIZE && !IsDir(ip.mode) && !IsChr(ip.mode) && forall i :: 0 <= i < 9 ==>
        ip.zone[i] == 0
  }

  type Second = ip: Inode | Zoneless(ip) witness Blank()

  function InodeBlock(two: Second): Block {
    Splice(Splice(ZeroBlock(), 0, EncodeInode(Root())), DINODE, EncodeInode(two))
  }

  function NewDisk(two: Second): Disk {
    [ZeroBlock(), SuperBlockBytes(), InodeMap(two), ZoneMap(), InodeBlock(two)] + seq(7, i => ZeroBlock())
  }

  ghost function Inodes(two: Second): map<nat, Inode> {
    map ino: nat | ino in Sets.Below(22) && ino > 0 :: DiskInode(Super(), IPB, NewDisk(two), ino)
  }

  lemma SuperBlockReads()
    ensures SuperBlockOf(SuperBlockBytes()) == Super()
  {
    var b: Block := ZeroBlock();
    var b0: Block := SetWord(b, 0, 21);
    var b1: Block := SetWord(b0, 1, 12);
    var b2: Block := SetWord(b1, 2, 1);
    var b3: Block := SetWord(b2, 3, 1);
    SetWordAt(b, 0, 21);
    SetWordAt(b0, 1, 12);
    SetWordAt(b1, 2, 1);
    SetWordAt(b2, 3, 1);
    SetWordAt(b3, 4, 5);
  }

  lemma AllOnes(k: nat)
    requires k < 4
    ensures Bit(255, k)
  {
    assert Bit(31, 0) && Bit(63, 0) && Bit(127, 0) && Bit(255, 0);
    assert Bit(63, 1) && Bit(127, 1) && Bit(255, 1);
    assert Bit(127, 2) && Bit(255, 2);
  }

  lemma ReservedBits(two: Second)
    ensures Reserved(Super(), NewDisk(two))
  {
    var sb := Super();
    forall k | 0 <= k < sb.nzones && (k == 0 || k > sb.nzones - sb.fstDataZone) ensures MapBit(sb, NewDisk(two), k) {
      assert ZMapBlk(sb, k) == 3 && NewDisk(two)[3] == ZoneMap();
      if k > 0 {
        AllOnes(k - 8);
      }
    }
  }

  /** Seven zones are free. */
  lemma FreeZone(two: Second, z: nat)
    requires 5 <= z < 12
    ensures IsDataZone(Super(), z) && !InUse(Super(), NewDisk(two), z)
  {
    var k := BitOf(Super(), z);
    assert 1 <= k <= 7 && ZMapBlk(Super(), k) == 3 && NewDisk(two)[3] == ZoneMap();
    NoBit(k);
  }

  lemma NoBit(k: nat)
    requires 1 <= k
    ensures !Bit(1, k)
  {
    NoBits(k - 1);
  }

  lemma {:induction false} NoBits(k: nat)
    ensures !Bit(0, k)
  {
    if k > 0 {
      NoBits(k - 1);
    }
  }

  lemma GoodImage(two: Second)
    ensures Bitmap.Image(Super(), IPB, NewDisk(two))
  {
    SuperBlockReads();
    ReservedBits(two);
  }

  lemma RootReads(two: Second)
    ensures DiskInode(Super(), IPB, NewDisk(two), 1) == Root()
  {
    InodeRoundTrip(Root());
    assert NewDisk(two)[4] == InodeBlock(two);
    assert InodeBlock(two)[0..DINODE] == EncodeInode(Root());
  }

  lemma SecondReads(two: Second)
    ensures DiskInode(Super(), IPB, NewDisk(two), 2) == two
  {
    InodeRoundTrip(two);
    assert NewDisk(two)[4] == InodeBlock(two);
    assert InodeBlock(two)[DINODE..2 * DINODE] == EncodeInode(two);
  }

  lemma DecodesToZero(s: seq<Byte>)
    requires |s| == DINODE && forall j :: 0 <= j < DINODE ==> s[j] == 0
    ensures var ip := DecodeInode(s); ip.mode == 0 && ip.size == 0 && ip.nlinks == 0 && forall i :: 0 <= i < 9 ==>
              ip.zone[i] == 0
  {
  }

  lemma ZeroSlot(two: Second, o: nat, s: seq<Byte>)
    requires 2 * DINODE <= o && o + DINODE <= BSIZE && s == InodeBlock(two)[o..o + DINODE]
    ensures forall j :: 0 <= j < DINODE ==> s[j] == 0
  {
    hide EncodeInode, Root;
    var b := InodeBlock(two);
    forall j | 0 <= j < DINODE ensures s[j] == 0 {
      assert s[j] == b[o + j];
    }
  }

  lemma OthersAreZero(two: Second, ino: nat)
    requires 3 <= ino <= 21
    ensures var ip := DiskInode(Super(), IPB, NewDisk(two), ino);
              ip.mode == 0 && ip.size == 0 && ip.nlinks == 0 && forall i :: 0 <= i < 9 ==> ip.zone[i] == 0
  {
    assert NewDisk(two)[4] == InodeBlock(two) && IBlk(Super(), IPB, ino) == 4;
    hide NewDisk, InodeBlock, DecodeInode;
    var o := InodeOffset(IPB, ino);
    assert 2 * DINODE <= o && o + DINODE <= BSIZE;
    ZeroSlot(two, o, InodeBlock(two)[o..o + DINODE]);
    DecodesToZero(InodeBlock(two)[o..o + DINODE]);
  }

  lemma InodeNumbers(two: Second)
    ensures forall ino :: ino in Inodes(two) <==> 1 <= ino <= 21
    ensures forall ino :: ino in Inodes(two) ==> Inodes(two)[ino] == DiskInode(Super(), IPB, NewDisk(two), ino)
  {
    hide NewDisk, DiskInode;
  }

  predicate Empty(ino: nat, ip: Inode) {
    |ip.zone| == 9 && (ino != 2 ==> ip.size == 0) && (forall i :: 0 <= i < 9 ==> ip.zone[i] == 0)
        && (IsDir(ip.mode) ==> ino == 1)
  }

  lemma InodesAre(two: Second, ino: nat)
    requires ino in Inodes(two)
    ensures 1 <= ino <= 21 && Empty(ino, Inodes(two)[ino]) && Inodes(two)[ino].size <= MAXSIZE
  {
    hide NewDisk, DiskInode;
    InodeNumbers(two);
    hide Inodes;
    if ino == 1 {
      RootReads(two);
      RootIsEmpty();
    } else if ino == 2 {
      SecondReads(two);
    } else {
      OthersAreZero(two, ino);
    }
  }

  lemma RootIsEmpty()
    ensures Empty(1, Root())
  {
  }

  lemma NoZones(two: Second)
    ensures WellFormed(Inodes(two))
    ensures forall s: Slot :: IsSlot(Inodes(two), s) ==> ZoneIn(NewDisk(two), Inodes(two)[s.ino], s) == 0
  {
    hide NewDisk, Inodes, DiskInode;
    forall ino | ino in Inodes(two) ensures WellFormedInode(Inodes(two)[ino]) && Inodes(two)[ino].size <= MAXSIZE {
      InodesAre(two, ino);
    }
    forall s: Slot | IsSlot(Inodes(two), s) ensures ZoneIn(NewDisk(two), Inodes(two)[s.ino], s) == 0 {
      InodesAre(two, s.ino);
    }
  }

  lemma NothingOwned(two: Second)
    ensures Owned(Super(), NewDisk(two), Inodes(two), map[])
    ensures Fresh(NewDisk(two), Inodes(two), {})
  {
    NoZones(two);
    hide NewDisk, Inodes, DiskInode, ZoneIn;
  }

  /** The file system's invariant holds of the image with no inode in memory. */
  lemma Mountable(two: Second)
    ensures Inv(Super(), IPB, NewDisk(two), map[], {}, seq(NINODE, i => NoInode()), Inodes(two), map[])
  {
    hide Bitmap.Image, DiskInode, NewDisk, Owned;
    InodeNumbers(two);
    NothingOwned(two);
    hide Inodes;
    GoodImage(two);
    NoZones(two);
  }

  lemma NoEntries()
    ensures DirEntries.IsDirectory([]) && DirEntries.Bindings([]) == map[]
  {
  }

  /** And its directories are good. */
  lemma GoodTree(two: Second)
    ensures PathWalk.Tree(NewDisk(two), Inodes(two))
  {
    hide NewDisk, DiskInode;
    RootReads(two);
    InodeNumbers(two);
    hide Inodes;
    forall ino | ino in Inodes(two) && IsDir(Inodes(two)[ino].mode)
      ensures PathWalk.GoodDirectory(NewDisk(two), Inodes(two), ino)
    {
      InodesAre(two, ino);
      assert Contents(NewDisk(two), Inodes(two)[ino]) == [];
      NoEntries();
    }
  }

  lemma {:induction false} AllFree(ic: seq<MemInode>, n: nat)
    requires n <= |ic| && forall k :: 0 <= k < n ==> ic[k].ref == 0
    ensures PathWalk.FreeSlots(ic, n) == n
  {
    if n > 0 {
      AllFree(ic, n - 1);
    }
  }

  /** The kernel mounts it, and proc_init's walk to "/" finds the root directory. */
  method Boot(ghost two: Second, disk: Disk) returns (fs: FileSystem, root: nat)
    requires disk == NewDisk(two)
    ensures fs.Valid() && root < fs.icache.Length && fs.icache[root].ref > 0 && fs.icache[root].ino == ROOT_INO
    ensures !fs.icache[root].busy
    ensures fresh(fs) && fresh(fs.icache) && fresh(fs.c) && fresh(fs.c.buf)
    ensures fs.sb == Super() && fs.ipb == IPB && fs.c.disk == NewDisk(two) && fs.inodes == Inodes(two)
    ensures fs.c.held == map[]
    ensures PathWalk.OneMore(seq(NINODE, i => NoInode()), fs.icache[..], root)
  {
    hide Inv, BufferCache.BufferCache.Valid, PathWalk.Tree, PathWalk.FreeSlots, NewDisk, Inodes, Super, DiskInode;
    Mountable(two);
    GoodTree(two);
    var c := new BufferCache.BufferCache(disk);
    fs := new FileSystem(c, Super(), IPB, Inodes(two), map[]);
    ghost var ic := fs.icache[..];
    assert ic == seq(NINODE, i => NoInode());
    AllFree(ic, NINODE);
    var path := [PathNames.SLASH];
    NoNames();
    var stuck, ok, ip, name := PathWalk.Path2Inode(fs, path, false, 0, {});
    root := ip;
  }

  const DOT: seq<Byte> := [46]

  /** What can be relied on when the first zone is taken. */
  lemma RoomForZone(two: Second)
    ensures |FreeZones(Super(), NewDisk(two))| >= 1
  {
    FreeZone(two, 5);
    assert 5 in FreeZones(Super(), NewDisk(two));
    Sets.SubsetSize({5}, FreeZones(Super(), NewDisk(two)));
  }

  lemma RoomForEntry(two: Second)
    ensures |FreeZones(Super(), NewDisk(two))| >= 1
    ensures 1 in Inodes(two) && Inodes(two)[1] == Root()
    ensures Directory.HoleFree(NewDisk(two), Root()) && Contents(NewDisk(two), Root()) == []
    ensures WriteNeed(NewDisk(two), Root(), 0, 16) == 1
  {
    hide NewDisk, DiskInode;
    RootReads(two);
    InodeNumbers(two);
    RoomForZone(two);
  }

  /** The root directory gets its entry for itself, the way create makes one. */
  method FirstEntry(field: seq<Byte>) returns (fs: FileSystem, root: nat)
    requires |field| == DirEntries.NAME_LEN
    ensures fs.Valid() && DirEntries.Bindings(Directory.Bytes(fs, root)) == map[DOT := ROOT_INO]
  {
    hide Inv, BufferCache.BufferCache.Valid, NewDisk, Inodes, DiskInode, FreeZones, DirEntries.Bindings,
         DirEntries.IsDirectory,
         Directory.HoleFree, WriteNeed, Contents;
    fs, root := Boot(Blank(), NewDisk(Blank()));
    RoomForEntry(Blank());
    NoEntries();
    fs.Ilock(root);
    assert fs.IsLocked(root);
    assert DirEntries.IsName(DOT);
    var room, ok := Directory.DirLink(fs, root, DOT, root, field, []);
  }

  lemma NoNames()
    ensures PathNames.Components([PathNames.SLASH]) == []
  {
  }

  // A file with a hole

  /** A regular file of one byte whose only block has no zone. */
  function OneHole(): Second { Inode(0x8000, 0, 1, 0, 0, 1, [0, 0, 0, 0, 0, 0, 0, 0, 0]) }

  /** What its writer relies on: the first block is missing, and one zone is enough. */
  lemma HoleFacts()
    ensures 2 in Inodes(OneHole()) && Inodes(OneHole())[2] == OneHole()
    ensures DiskInode(Super(), IPB, NewDisk(OneHole()), 2) == OneHole()
    ensures WriteNeed(NewDisk(OneHole()), OneHole(), 0, 1) == 1
    ensures EndBlock(0, 1) == 1 && !AllPresent(OneHole(), 0, 1)
  {
    hide NewDisk, DiskInode;
    SecondReads(OneHole());
    InodeNumbers(OneHole());
    assert Missing(OneHole(), 0);
  }

  /** The kernel mounts an image that holds this file, refers to it and locks it, which reads it from
      the disk, and writes its byte: afterwards the inode on the disk differs from the one in memory. */
  method HoleWriteDiverges(b: Byte) returns (fs: FileSystem, ip: nat)
    ensures fs.Valid() && ip < fs.icache.Length && fs.icache[ip].ref > 0 && fs.icache[ip].valid
    ensures fs.icache[ip].ino == 2
    ensures 0 < fs.ipb * DINODE <= BSIZE && DiskInode(fs.sb, fs.ipb, fs.c.disk, 2) != fs.icache[ip].d
    ensures !fs.DiskAgrees(ip)
  {
    hide Inv, BufferCache.BufferCache.Valid, NewDisk, Inodes, DiskInode, FreeZones, WriteNeed, AllPresent, EndBlock,
         FileOverwritten, Refs, SameInodeMap,
         OtherInodesKept, Super, PathWalk.Tree;
    var root;
    fs, root := Boot(OneHole(), NewDisk(OneHole()));
    HoleFacts();
    RoomForZone(OneHole());
    EmptySlot(fs, root);
    ip := fs.Iget(2);
    fs.Ilock(ip);
    assert fs.DiskAgrees(ip);
    assert fs.IsLocked(ip);
    var n := fs.Iwrite(ip, [b], 0);
  }

  lemma EmptySlot(fs: FileSystem, root: nat)
    requires fs.icache.Length == NINODE && PathWalk.OneMore(seq(NINODE, i => NoInode()), fs.icache[..], root)
    ensures exists l :: 0 <= l < fs.icache.Length && fs.icache[l].ref == 0
  {
    var l := if root == 0 then 1 else 0;
    assert fs.icache[..][l].ref == 0;
    assert fs.icache[l].ref == 0;
  }

  // The whole volume

  lemma MapBits(i: nat)
    requires 1 <= i <= 21
    ensures IMapBlk(i) == 2 && i / 8 < 3
    ensures Bit(if i / 8 == 0 then 3 else 0, i % 8) <==> i == 1
    ensures Bit(if i / 8 == 0 then 7 else 0, i % 8) <==> i == 1 || i == 2
  {
    if i == 1 {
      assert Bit(3, 1) && Bit(7, 1);
    } else if i == 2 {
      assert Bit(7, 2) == Bit(3, 1) && Bit(3, 2) == Bit(1, 1) && Bit(1, 1) == Bit(0, 0);
    } else if i < 8 {
      assert Bit(3, i) == Bit(1, i - 1) && Bit(7, i) == Bit(3, i - 1) && Bit(3, i - 1) == Bit(1, i - 2);
      NoBit(i - 1);
      NoBit(i - 2);
    } else {
      NoBits(i % 8);
    }
  }

  lemma InodeMarks(two: Second, i: nat)
    requires 1 <= i <= 21
    ensures InodeBit(NewDisk(two), i) <==> i == 1 || (i == 2 && two.nlinks > 0)
  {
    MapBits(i);
    assert NewDisk(two)[2] == InodeMap(two);
  }

  lemma NoEntryAtAll(two: Second)
    ensures VolumeState.Entries(NewDisk(two), Inodes(two)) == map[]
  {
    hide NewDisk, DiskInode, Inodes;
    var disk, inodes := NewDisk(two), Inodes(two);
    forall d | d in inodes && IsDir(inodes[d].mode) ensures PathWalk.Children(disk, inodes[d]) == map[] {
      InodesAre(two, d);
      assert Contents(disk, inodes[d]) == [];
      NoEntries();
    }
  }

  lemma EachInode(two: Second, i: nat)
    requires i in Inodes(two) && two.size == 0
    ensures 1 <= i <= 21 && VolumeState.WholeInode(NewDisk(two), Inodes(two)[i])
    ensures VolumeState.MarkedInode(Super(), NewDisk(two), Inodes(two)[i], i, 0)
    ensures i > 1 ==> Inodes(two)[i].nlinks == if i == 2 then two.nlinks else 0
  {
    hide NewDisk, DiskInode, Inodes, InodeBit;
    InodesAre(two, i);
    InodeNumbers(two);
    NoZones(two);
    InodeMarks(two, i);
    if i == 1 {
      RootReads(two);
    } else if i == 2 {
      SecondReads(two);
    } else {
      OthersAreZero(two, i);
    }
    EmptyIsWhole(NewDisk(two), Inodes(two)[i]);
  }

  lemma EmptyIsWhole(disk: Disk, ip: Inode)
    requires WellFormedInode(ip) && ip.size == 0 && !IsChr(ip.mode)
    ensures VolumeState.WholeInode(disk, ip)
  {
  }

  lemma NoRefs(ic: seq<MemInode>, i: nat, n: nat)
    requires n <= |ic| && forall k :: 0 <= k < n ==> ic[k].ref == 0
    ensures RefsBelow(ic, i, n) == 0
  {
  }

  lemma NoNames0(entries: map<Links.Place, nat>, i: nat)
    requires entries == map[]
    ensures Links.Names(entries, i) == {}
  {
  }

  /** With no inode in memory the volume is sound, but for the links of inode 2, which has no name yet. */
  lemma SoundImage(two: Second, ic: seq<MemInode>)
    requires ic == seq(NINODE, i => NoInode()) && two.size == 0
    ensures VolumeState.Sound(Super(), IPB, NewDisk(two), ic, Inodes(two), {}, 2, two.nlinks)
  {
    hide NewDisk, DiskInode, Inodes, InodeBit, VolumeState.WholeInode, VolumeState.MarkedInode, Links.Names,
         PathWalk.Tree, VolumeState.Entries;
    GoodTree(two);
    NoEntryAtAll(two);
    forall i | i in Inodes(two)
      ensures VolumeState.WholeInode(NewDisk(two), Inodes(two)[i])
      ensures VolumeState.MarkedInode(Super(), NewDisk(two), Inodes(two)[i], i, Refs(ic, i))
      ensures i > 1 ==> Inodes(two)[i].nlinks == |Links.Names(map[], i)| + if i == 2 then two.nlinks else 0
    {
      EachInode(two, i);
      NoRefs(ic, i, |ic|);
      NoNames0(map[], i);
    }
    InodeNumbers(two);
    RootReads(two);
  }

  lemma RootFound(fs: FileSystem, ic: seq<MemInode>, root: nat)
    requires ic == seq(NINODE, i => NoInode()) && PathWalk.OneMore(ic, fs.icache[..], root) && root < fs.icache.Length
    requires fs.icache[root].ino == ROOT_INO && ROOT_INO in fs.inodes && IsDir(fs.inodes[ROOT_INO].mode)
    ensures Volume.Good(fs.icache[..], fs.inodes, root, 0) && IsDir(fs.inodes[fs.icache[root].ino].mode)
    ensures forall k :: 0 <= k < fs.icache.Length ==> fs.icache[k].ref == if k == root then 1 else 0
  {
    forall k | 0 <= k < fs.icache.Length ensures fs.icache[k].ref == if k == root then 1 else 0 {
      assert fs.icache[..][k].ref == ic[k].ref + (if k == root then 1 else 0);
    }
  }

  lemma RootIsDir(two: Second)
    ensures ROOT_INO in Inodes(two) && IsDir(Inodes(two)[ROOT_INO].mode)
  {
    hide NewDisk, DiskInode;
    InodeNumbers(two);
    RootReads(two);
  }

  /** The kernel mounts the image and walks to its root, which is to be the working directory. */
  method Settle(two: Second) returns (fs: FileSystem, root: nat)
    requires two.size == 0
    ensures VolumeCalls.Settled(fs, {}, 2, two.nlinks) && fresh(fs) && fresh(fs.icache) && fresh(fs.c)
    ensures fresh(fs.c.buf)
    ensures fs.sb == Super() && fs.ipb == IPB && fs.c.disk == NewDisk(two) && fs.inodes == Inodes(two)
    ensures root < fs.icache.Length && fs.icache[root].ino == ROOT_INO
    ensures forall k :: 0 <= k < fs.icache.Length ==> fs.icache[k].ref == if k == root then 1 else 0
  {
    hide Inv, BufferCache.BufferCache.Valid, PathWalk.Tree, NewDisk, Inodes, Super, DiskInode, VolumeState.Sound;
    Mountable(two);
    var c := new BufferCache.BufferCache(NewDisk(two));
    fs := new FileSystem(c, Super(), IPB, Inodes(two), map[]);
    ghost var ic := fs.icache[..];
    assert ic == seq(NINODE, i => NoInode());
    SoundImage(two, ic);
    AllFree(ic, NINODE);
    NoNames();
    var stuck, ok, name;
    stuck, ok, root, name := VolumeCalls.Find(fs, [PathNames.SLASH], false, 0, {}, 2, two.nlinks);
    RootIsDir(two);
    RootFound(fs, ic, root);
  }

  /** An empty volume: the calls can begin. */
  method Mount() returns (v: Volume.Volume)
    ensures v.Valid() && v.files == [] && v.leaked == [] && fresh(v)
  {
    hide VolumeCalls.Settled, NewDisk, Inodes, Super, DiskInode;
    var fs, root := Settle(Blank());
    VolumeCalls.NoneSpecial(fs, {}, 2, 0);
    RootIsDir(Blank());
    v := new Volume.Volume(fs, root);
  }
}
