/** Disks by their bytes, mounted and read: the fields of an inode and the bytes of a file are those that stand
    at their addresses, on any disk and on one that is given byte by byte. */
module KnownDisk {
  import opened Minix
  import opened Bitmap
  import opened Files
  import opened FsState
  import opened InodeRefs
  import opened InodeLayer
  import opened RawDisk
  import BufferCache

  // ---------------------------------------------------------------------------------------
  // Any disk

  lemma OnDisk(fs: FileSystem, ino: nat)
    requires fs.Valid() && ino in fs.inodes
    requires forall l: nat :: l < fs.icache.Length ==> !CachedAt(fs.icache[..], ino, l)
    ensures |fs.c.disk| > 1 && 0 < fs.ipb * DINODE <= BSIZE && ino >= 1 && SuperBlockOf(fs.c.disk[1]) == fs.sb
    ensures fs.inodes[ino] == DiskInode(fs.sb, fs.ipb, fs.c.disk, ino) && fs.inodes[ino].size <= MAXSIZE
  {
    hide DiskInode, BufferCache.BufferCache.Valid;
    forall l | 0 <= l < fs.icache.Length ensures !(fs.icache[..][l].ref > 0 && fs.icache[..][l].ino == ino) {
      assert !CachedAt(fs.icache[..], ino, l);
    }
    assert !Resident(fs.icache[..], ino);
  }

  /** iget and ilock of an inode that is not in memory, and iread of n bytes that need no new zone: the inode's
      fields are those at its address, and the bytes are the file's. */
  method ReadFile(fs: FileSystem, ino: nat, off: nat, n: nat) returns (k: nat, bytes: seq<Byte>)
    requires fs.Valid() && ino in fs.inodes && fs.c.held == map[] && !IsChr(fs.inodes[ino].mode)
    requires forall l: nat :: l < fs.icache.Length ==> !CachedAt(fs.icache[..], ino, l)
    requires exists l :: 0 <= l < fs.icache.Length && fs.icache[l].ref == 0
    requires 0 < fs.ipb * DINODE <= BSIZE && ino >= 1
    requires WellFormedInode(fs.inodes[ino]) && off <= fs.inodes[ino].size <= MAXSIZE && off + n < 0x1_0000_0000
    requires ReadNeed(fs.c.disk, fs.inodes[ino], off, n) == 0
    modifies fs`inodes, fs`owner, fs.icache, fs.c, fs.c.buf
    ensures fs.Valid() && fs.c.disk == old(fs.c.disk)
    ensures var a := InodeAt(fs.c.disk, fs.ipb, ino);
            && k < fs.icache.Length && InodeIs(fs.c.disk, a, fs.icache[k].d)
            && |bytes| == (if off + n > Four(fs.c.disk, a + 4) then Four(fs.c.disk, a + 4) - off else n)
            && forall j :: 0 <= j < |bytes| ==> bytes[j] == FileByte(fs.c.disk, a, off + j)
  {
    hide BufferCache.BufferCache.Valid, Inv, DiskInode, InodeAt, InodeIs, FileByte, Contents, ReadNeed, AllPresent,
         EndBlock, FreeZones, Extended, RefsChange, Four, SuperBlockOf;
    OnDisk(fs, ino);
    ghost var disk := fs.c.disk;
    InodeFields(fs.sb, fs.ipb, disk, ino);
    FileBytes(disk, InodeAt(disk, fs.ipb, ino), fs.inodes[ino]);
    SizeIs(disk, InodeAt(disk, fs.ipb, ino), fs.inodes[ino]);
    k := fs.Iget(ino);
    assert !fs.icache[..][k].busy && fs.icache[..][k].ref > 0;
    fs.Ilock(k);
    assert fs.IsLocked(k);
    var r;
    r, bytes := fs.Iread(k, off, n);
  }

  // ---------------------------------------------------------------------------------------
  // One disk

  /** Byte o of the inode of a file of 308 blocks, of which only the first and the last have zones. */
  function InodeByte(o: nat): Byte {
    match o
    case 0 => 0xa4 case 1 => 0x81                                 // mode
    case 2 => 1 case 3 => 2                                       // uid
    case 5 => 0xd0 case 6 => 4                                    // size: 4, 0xd0 and 0
    case 8 => 1 case 9 => 2 case 10 => 3 case 11 => 4             // mtime
    case 12 => 7 case 13 => 1                                     // gid, nlinks
    case 14 => 13                                                 // zone[0]
    case 28 => 6                                                  // zone[7]
    case _ => 0
  }

  /** Byte o of block b: 21 inodes, 264 zones, one block for each map, data from zone 5 on.  All zones are marked.
      The table of inode 2 is zone 6, and its entry 300 names zone 0x104. */
  function DiskByte(b: nat, o: nat): Byte {
    match b
    case 1 => (match o case 0 => 21 case 2 => 8 case 3 => 1 case 4 => 1 case 6 => 1 case 8 => 5 case _ => 0)
    case 2 => if o == 0 then 7 else 0
    case 3 => 255
    case 4 => if o < 32 then 0 else InodeByte(o - 32)
    case 6 => if o == 600 then 4 else if o == 601 then 1 else 0
    case 13 => (match o case 0 => 79 case 1 => 83 case 2 => 54 case 3 => 55 case _ => 0)
    case 260 => (match o case 0 => 116 case 1 => 97 case 2 => 105 case 3 => 108 case _ => 0)
    case _ => 0
  }

  function BlockOf(b: nat): Block { seq(1024, o requires 0 <= o < 1024 => DiskByte(b, o)) }

  function TheDisk(): Disk { seq(264, b requires 0 <= b < 264 => BlockOf(b)) }

  function TheSuper(): SuperBlock { SuperBlock(21, 264, 1, 1, 5) }

  const IPB: nat := 21

  function TheInode(): Inode { Inode(0x81a4, 0x201, 315392, 0x4030201, 7, 1, [13, 0, 0, 0, 0, 0, 0, 6, 0]) }

  lemma ByteIs(a: nat)
    requires a < 264 * 1024
    ensures At(TheDisk(), a) == DiskByte(a / 1024, a % 1024)
  {
  }

  lemma TheSuperBlock()
    ensures |TheDisk()| == 264 && SuperBlockOf(TheDisk()[1]) == TheSuper()
  {
    assert TheDisk()[1] == BlockOf(1);
    hide TheDisk;
  }

  lemma AllMarked(k: nat)
    requires k < 264
    ensures MapBit(TheSuper(), TheDisk(), k)
  {
    assert TheDisk()[3] == BlockOf(3) && BlockOf(3)[k / 8] == 255;
    BitIs(255, k % 8);
    hide TheDisk, BlockOf;
    assert k % 8 == 0 || k % 8 == 1 || k % 8 == 2 || k % 8 == 3 || k % 8 == 4 || k % 8 == 5 || k % 8 == 6 || k % 8 == 7;
  }

  lemma InodeTwo()
    ensures DiskInode(TheSuper(), IPB, TheDisk(), 2) == TheInode()
  {
    hide TheDisk, InodeByte, DiskByte, InodeIs, DecodeInode;
    TheSuperBlock();
    SuperBlockAt(TheDisk());
    InodeFields(TheSuper(), IPB, TheDisk(), 2);
    assert InodeAt(TheDisk(), IPB, 2) == 4128;
    SameFields(DiskInode(TheSuper(), IPB, TheDisk(), 2));
  }

  lemma InodeByteAt(o: nat, a: nat)
    requires o < 32 && a == 4128 + o
    ensures At(TheDisk(), a) == InodeByte(o)
  {
    ByteIs(a);
    assert a / 1024 == 4 && a % 1024 == 32 + o;
  }

  lemma InodeTwoBytes()
    ensures var disk := TheDisk();
            && At(disk, 4128) == 0xa4 && At(disk, 4129) == 0x81 && At(disk, 4130) == 1 && At(disk, 4131) == 2
            && At(disk, 4132) == 0 && At(disk, 4133) == 0xd0 && At(disk, 4134) == 4 && At(disk, 4135) == 0
            && At(disk, 4136) == 1 && At(disk, 4137) == 2 && At(disk, 4138) == 3 && At(disk, 4139) == 4
            && At(disk, 4140) == 7 && At(disk, 4141) == 1
  {
    hide TheDisk, At;
    InodeByteAt(0, 4128); InodeByteAt(1, 4129); InodeByteAt(2, 4130); InodeByteAt(3, 4131); InodeByteAt(4, 4132);
    InodeByteAt(5, 4133); InodeByteAt(6, 4134); InodeByteAt(7, 4135); InodeByteAt(8, 4136); InodeByteAt(9, 4137);
    InodeByteAt(10, 4138); InodeByteAt(11, 4139); InodeByteAt(12, 4140); InodeByteAt(13, 4141);
  }

  lemma InodeTwoFields()
    ensures var disk := TheDisk();
            && Two(disk, 4128) == 0x81a4 && Two(disk, 4130) == 0x201 && Four(disk, 4132) == 315392
            && Four(disk, 4136) == 0x4030201 && At(disk, 4140) == 7 && At(disk, 4141) == 1
            && forall i :: 0 <= i < 9 ==> Two(disk, 4142 + 2 * i) == TheInode().zone[i]
  {
    hide TheDisk, At;
    InodeTwoBytes();
    forall i | 0 <= i < 9 ensures Two(TheDisk(), 4142 + 2 * i) == TheInode().zone[i] {
      InodeByteAt(14 + 2 * i, 4142 + 2 * i);
      InodeByteAt(15 + 2 * i, 4142 + 2 * i + 1);
    }
  }

  lemma ZeroByteAt(ino: nat, a: nat, o: nat)
    requires 1 <= ino <= 21 && ino != 2 && o < 32 && a == 4096 + 32 * (ino - 1) + o
    ensures At(TheDisk(), a) == 0
  {
    ByteIs(a);
    assert a / 1024 == 4 && a % 1024 == 32 * (ino - 1) + o;
  }

  lemma ZeroFields(ino: nat, a: nat, ip: Inode)
    requires 1 <= ino <= 21 && ino != 2 && a == 4096 + 32 * (ino - 1) && InodeIs(TheDisk(), a, ip)
    ensures ip.size == 0 && ip.mode == 0 && |ip.zone| == 9 && forall i :: 0 <= i < 9 ==> ip.zone[i] == 0
  {
    hide TheDisk, At;
    ZeroByteAt(ino, a, 0);
    ZeroByteAt(ino, a + 1, 1);
    ZeroByteAt(ino, a + 4, 4);
    ZeroByteAt(ino, a + 4 + 1, 5);
    ZeroByteAt(ino, a + 4 + 2, 6);
    ZeroByteAt(ino, a + 4 + 3, 7);
    forall i | 0 <= i < 9 ensures ip.zone[i] == 0 {
      ZeroByteAt(ino, a + 14 + 2 * i, 14 + 2 * i);
      ZeroByteAt(ino, a + 14 + 2 * i + 1, 15 + 2 * i);
    }
  }

  lemma OtherInodes(ino: nat)
    requires 1 <= ino <= 21 && ino != 2
    ensures var ip := DiskInode(TheSuper(), IPB, TheDisk(), ino);
            ip.size == 0 && ip.mode == 0 && |ip.zone| == 9 && forall i :: 0 <= i < 9 ==> ip.zone[i] == 0
  {
    hide TheDisk, DecodeInode, InodeIs;
    TheSuperBlock();
    SuperBlockAt(TheDisk());
    InodeFields(TheSuper(), IPB, TheDisk(), ino);
    assert InodeAt(TheDisk(), IPB, ino) == 4096 + 32 * (ino - 1);
    ZeroFields(ino, InodeAt(TheDisk(), IPB, ino), DiskInode(TheSuper(), IPB, TheDisk(), ino));
  }

  ghost function TheInodes(): Inodes {
    map ino: nat | 1 <= ino <= 21 :: DiskInode(TheSuper(), IPB, TheDisk(), ino)
  }

  function TheOwner(): map<nat, Slot> { map[13 := Data(2, 0), 6 := Table(2), 260 := Data(2, 307)] }

  lemma TheZones(bn: nat)
    requires bn < MAXFILE
    ensures ZoneAt(TheDisk(), TheInode(), bn) == if bn == 0 then 13 else if bn == 307 then 260 else 0
  {
    if bn >= 7 {
      assert TheDisk()[6] == BlockOf(6);
      hide TheDisk;
    }
  }

  lemma AllOwned()
    ensures WellFormed(TheInodes()) && Owned(TheSuper(), TheDisk(), TheInodes(), TheOwner())
    ensures Fresh(TheDisk(), TheInodes(), {})
  {
    hide TheDisk, DiskInode, ZoneAt;
    var inodes := TheInodes();
    forall ino | ino in inodes ensures WellFormedInode(inodes[ino]) && inodes[ino].size <= MAXSIZE {
      if ino == 2 { InodeTwo(); } else { OtherInodes(ino); }
    }
    forall s: Slot | IsSlot(inodes, s) && ZoneIn(TheDisk(), inodes[s.ino], s) != 0
      ensures var z := ZoneIn(TheDisk(), inodes[s.ino], s);
              InUse(TheSuper(), TheDisk(), z) && z in TheOwner() && TheOwner()[z] == s
    {
      var z := OneSlot(s);
      AllMarked(BitOf(TheSuper(), z));
    }
  }

  lemma OneSlot(s: Slot) returns (z: nat)
    requires s.ino in TheInodes() && (s.Data? ==> s.bn < MAXFILE) && WellFormedInode(TheInodes()[s.ino])
    requires ZoneIn(TheDisk(), TheInodes()[s.ino], s) != 0
    ensures z == ZoneIn(TheDisk(), TheInodes()[s.ino], s) && z in TheOwner() && TheOwner()[z] == s
  {
    hide TheDisk, DiskInode;
    z := ZoneIn(TheDisk(), TheInodes()[s.ino], s);
    if s.ino == 2 {
      InodeTwo();
      if s.Data? {
        TheZones(s.bn);
      }
    } else {
      OtherInodes(s.ino);
    }
  }

  lemma Consistent()
    ensures Inv(TheSuper(), IPB, TheDisk(), map[], {}, seq(NINODE, i => NoInode()), TheInodes(), TheOwner())
  {
    hide TheDisk, DiskInode, Owned, MapBit;
    TheSuperBlock();
    AllOwned();
    forall k | 0 <= k < 264 ensures MapBit(TheSuper(), TheDisk(), k) {
      AllMarked(k);
    }
  }

  lemma Inside(off: nat)
    requires off == 0 || off == 314368
    ensures WellFormedInode(TheInode()) && TheInode().size <= MAXSIZE && ReadNeed(TheDisk(), TheInode(), off, 4) == 0
  {
    hide TheDisk, ZoneAt;
    var b := off / 1024;
    TheZones(b);
    assert EndBlock(off, 4) == b + 1;
    assert Holes(TheDisk(), TheInode(), b, b + 1) == 0;
  }

  /** What stands in zones 13 and 0x104. */
  function Text(off: nat): seq<Byte> { if off == 0 then [79, 83, 54, 55] else [116, 97, 105, 108] }

  lemma TextIs(off: nat, j: nat)
    requires (off == 0 || off == 314368) && j < 4
    ensures FileByte(TheDisk(), 4128, off + j) == Text(off)[j]
  {
    var disk := TheDisk();
    hide TheDisk, At;
    var b := off / 1024;
    assert (off + j) / 1024 == b && (off + j) % 1024 == j;
    if off == 0 {
      InodeByteAt(14, 4142);
      InodeByteAt(15, 4143);
      ByteIs(1024 * 13 + j);
      assert (1024 * 13 + j) / 1024 == 13 && (1024 * 13 + j) % 1024 == j;
    } else {
      InodeByteAt(28, 4156);
      InodeByteAt(29, 4157);
      ByteIs(6744);
      ByteIs(6745);
      assert Two(disk, 1024 * 6 + 2 * 300) == 0x104;
      ByteIs(1024 * 260 + j);
      assert (1024 * 260 + j) / 1024 == 260 && (1024 * 260 + j) % 1024 == j;
    }
  }

  lemma FirstSlot(fs: FileSystem)
    requires fs.icache.Length == NINODE && forall k :: 0 <= k < NINODE ==> fs.icache[k] == NoInode()
    ensures exists l :: 0 <= l < fs.icache.Length && fs.icache[l].ref == 0
    ensures forall l: nat :: l < fs.icache.Length ==> !CachedAt(fs.icache[..], 2, l)
  {
    assert fs.icache[0].ref == 0;
  }

  lemma SameFields(d: Inode)
    requires InodeIs(TheDisk(), 4128, d)
    ensures d == TheInode()
  {
    hide At, Two, Four, TheDisk;
    InodeTwoFields();
    forall i | 0 <= i < 9 ensures d.zone[i] == TheInode().zone[i] {
      assert d.zone[i] == Two(TheDisk(), 4128 + 14 + 2 * i);
    }
    assert d.zone == TheInode().zone;
  }

  /** What was read, in numbers. */
  lemma Numbers(d: Inode, off: nat, bytes: seq<Byte>)
    requires (off == 0 || off == 314368) && InodeIs(TheDisk(), 4128, d)
    requires |bytes| == (if off + 4 > Four(TheDisk(), 4132) then Four(TheDisk(), 4132) - off else 4)
    requires forall j :: 0 <= j < |bytes| ==> bytes[j] == FileByte(TheDisk(), 4128, off + j)
    ensures d == Inode(0x81a4, 0x201, 315392, 0x4030201, 7, 1, [13, 0, 0, 0, 0, 0, 0, 6, 0])
    ensures bytes == if off == 0 then [79, 83, 54, 55] else [116, 97, 105, 108]
  {
    hide TheDisk, FileByte, Four, InodeIs;
    InodeTwoFields();
    SameFields(d);
    forall j | 0 <= j < 4 ensures bytes[j] == Text(off)[j] {
      TextIs(off, j);
    }
  }

  lemma PlaceOfTwo()
    ensures |TheDisk()| == 264 && InodeAt(TheDisk(), IPB, 2) == 4128
  {
    TheSuperBlock();
    SuperBlockAt(TheDisk());
  }

  /** The kernel mounts this disk and reads from inode 2: its first four bytes through a direct zone, or those at
      the beginning of its last block through the table. */
  method ReadIt(off: nat) returns (d: Inode, bytes: seq<Byte>)
    requires off == 0 || off == 314368
    ensures d == Inode(0x81a4, 0x201, 315392, 0x4030201, 7, 1, [13, 0, 0, 0, 0, 0, 0, 6, 0])
    ensures bytes == if off == 0 then [79, 83, 54, 55] else [116, 97, 105, 108]
  {
    hide TheDisk, DiskInode, Inv, BufferCache.BufferCache.Valid, FileByte, ReadNeed, Four, SuperBlockOf, InodeIs,
         InodeAt;
    Consistent();
    InodeTwo();
    Inside(off);
    PlaceOfTwo();
    var c := new BufferCache.BufferCache(TheDisk());
    var fs := new FileSystem(c, TheSuper(), IPB, TheInodes(), TheOwner());
    FirstSlot(fs);
    var k;
    k, bytes := ReadFile(fs, 2, off, 4);
    d := fs.icache[k].d;
    Numbers(d, off, bytes);
  }
}
