/** The disk as bytes at addresses: where the C structures of inc/minix.h have their fields, without any of
    the functions that decode and encode them elsewhere.  Two bytes are a uint16_t, the lower one first. */
module RawDisk {
  import opened Minix
  import opened Bits
  import opened Bitmap
  import opened Files
  import opened FsState
  import opened InodeRefs
  import opened DirEntries

  function At(disk: Disk, a: nat): Byte { if a / 1024 < |disk| then disk[a / 1024][a % 1024] else 0 }

  function Two(disk: Disk, a: nat): U16 { (At(disk, a) as int) + 256 * (At(disk, a + 1) as int) }

  function Four(disk: Disk, a: nat): U32 {
    (At(disk, a) as int) + 256 * (At(disk, a + 1) as int) + 65536 * (At(disk, a + 2) as int)
    + 16777216 * (At(disk, a + 3) as int)
  }

  /** `1 << k` */
  function Mask(k: nat): nat
    requires k < 8
  {
    [1, 2, 4, 8, 16, 32, 64, 128][k]
  }

  /** Bit k of the byte at address a. */
  predicate Set(disk: Disk, a: nat, k: nat)
    requires k < 8
  {
    At(disk, a) as nat / Mask(k) % 2 == 1
  }

  lemma {:induction false} BitIs(x: Byte, k: nat)
    requires k < 8
    ensures Bit(x, k) <==> x / Mask(k) % 2 == 1
  {
    if k > 0 {
      BitIs(x / 2, k - 1);
      assert k == 1 || k == 2 || k == 3 || k == 4 || k == 5 || k == 6 || k == 7;
    }
  }

  /** Byte o of block b. */
  lemma InBlock(disk: Disk, b: nat, o: nat)
    requires o < 1024
    ensures At(disk, 1024 * b + o) == BlockAt(disk, b)[o]
  {
    assert (1024 * b + o) / 1024 == b && (1024 * b + o) % 1024 == o;
  }

  // ---------------------------------------------------------------------------------------
  // The superblock, the inodes and the files

  /** struct super_block lies at the beginning of block 1. */
  lemma SuperBlockAt(disk: Disk)
    requires |disk| > 1
    ensures var sb := SuperBlockOf(disk[1]);
            && sb.ninodes == Two(disk, 1024) && sb.nzones == Two(disk, 1026) && sb.imapBlk == Two(disk, 1028)
            && sb.zmapBlk == Two(disk, 1030) && sb.fstDataZone == Two(disk, 1032)
  {
  }

  /** Where inode ino lies: behind the boot block, the superblock and the two maps. */
  function InodeAt(disk: Disk, ipb: nat, ino: nat): nat
    requires ipb > 0 && ino >= 1
  {
    1024 * (2 + Two(disk, 1028) + Two(disk, 1030) + (ino - 1) / ipb) + 32 * ((ino - 1) % ipb)
  }

  /** struct d_inode at address a. */
  predicate InodeIs(disk: Disk, a: nat, ip: Inode) {
    && ip.mode == Two(disk, a) && ip.uid == Two(disk, a + 2) && ip.size == Four(disk, a + 4)
    && ip.mtime == Four(disk, a + 8) && ip.gid == At(disk, a + 12) && ip.nlinks == At(disk, a + 13)
    && |ip.zone| == 9 && forall i :: 0 <= i < 9 ==> ip.zone[i] == Two(disk, a + 14 + 2 * i)
  }

  lemma Fields(disk: Disk, a: nat, s: seq<Byte>)
    requires |s| == 32 && forall o :: 0 <= o < 32 ==> s[o] == At(disk, a + o)
    ensures InodeIs(disk, a, DecodeInode(s))
  {
    hide At;
    assert s[0] == At(disk, a + 0);
    var ip := DecodeInode(s);
    forall i | 0 <= i < 9 ensures ip.zone[i] == Two(disk, a + 14 + 2 * i) {
      assert s[14 + 2 * i] == At(disk, a + (14 + 2 * i)) && s[15 + 2 * i] == At(disk, a + (15 + 2 * i));
    }
  }

  /** What ilock reads of an inode are these fields. */
  lemma InodeFields(sb: SuperBlock, ipb: nat, disk: Disk, ino: nat)
    requires |disk| > 1 && SuperBlockOf(disk[1]) == sb && 0 < ipb * DINODE <= BSIZE && ino >= 1
    ensures InodeIs(disk, InodeAt(disk, ipb, ino), DiskInode(sb, ipb, disk, ino))
  {
    SuperBlockAt(disk);
    InodeOffsetFits(ipb, ino);
    var b, o := IBlk(sb, ipb, ino), InodeOffset(ipb, ino);
    var s := BlockAt(disk, b)[o..o + DINODE];
    assert InodeAt(disk, ipb, ino) == 1024 * b + o;
    forall j | 0 <= j < 32 ensures s[j] == At(disk, 1024 * b + o + j) {
      InBlock(disk, b, o + j);
    }
    Fields(disk, 1024 * b + o, s);
  }

  /** The zone of block b of the file whose inode lies at address a: one of seven in the inode, or an entry of
      the table that the eighth one names. */
  function ZoneOf(disk: Disk, a: nat, b: nat): U16 {
    if b < 7 then Two(disk, a + 14 + 2 * b)
    else if Two(disk, a + 28) == 0 then 0
    else Two(disk, 1024 * Two(disk, a + 28) + 2 * (b - 7))
  }

  /** Byte i of that file. */
  function FileByte(disk: Disk, a: nat, i: nat): Byte {
    if ZoneOf(disk, a, i / 1024) == 0 then 0 else At(disk, 1024 * ZoneOf(disk, a, i / 1024) + i % 1024)
  }

  lemma ZoneIs(disk: Disk, a: nat, ip: Inode, b: nat)
    requires InodeIs(disk, a, ip) && b < 519
    ensures ZoneAt(disk, ip, b) == ZoneOf(disk, a, b)
  {
    if b >= 7 {
      var z := ip.zone[7];
      assert z == Two(disk, a + 28);
      hide InodeIs;
      InBlock(disk, z, 2 * (b - 7));
      InBlock(disk, z, 2 * (b - 7) + 1);
    }
  }

  /** The bytes of a file, by addresses. */
  lemma FileBytes(disk: Disk, a: nat, ip: Inode)
    requires InodeIs(disk, a, ip) && ip.size <= 531456
    ensures |Contents(disk, ip)| == Four(disk, a + 4)
    ensures forall i :: 0 <= i < ip.size ==> Contents(disk, ip)[i] == FileByte(disk, a, i)
  {
    hide InodeIs, Two, Four, At, BlockAt, ZoneOf, ZoneAt;
    assert ip.size == Four(disk, a + 4) && |ip.zone| == 9 by { SizeIs(disk, a, ip); }
    forall i | 0 <= i < ip.size ensures Contents(disk, ip)[i] == FileByte(disk, a, i) {
      ZoneIs(disk, a, ip, i / 1024);
      InBlock(disk, ZoneOf(disk, a, i / 1024), i % 1024);
    }
  }

  /** The kind of file: the upper half of the second byte. */
  lemma KindAt(disk: Disk, a: nat, ip: Inode)
    requires InodeIs(disk, a, ip)
    ensures IsDir(ip.mode) <==> At(disk, a + 1) as nat / 16 == 4
    ensures IsChr(ip.mode) <==> At(disk, a + 1) as nat / 16 == 2
  {
    var lo, hi := At(disk, a) as nat, At(disk, a + 1) as nat;
    assert ip.mode as nat == lo + 256 * hi;
    assert (lo + 256 * hi) / 4096 == hi / 16;
  }

  lemma SizeIs(disk: Disk, a: nat, ip: Inode)
    requires InodeIs(disk, a, ip)
    ensures ip.size == Four(disk, a + 4) && |ip.zone| == 9
  {
  }

  // ---------------------------------------------------------------------------------------
  // The maps and the directories

  /** The bit of data zone z, counted from the first data zone's, which is bit 1. */
  lemma ZoneMark(sb: SuperBlock, disk: Disk, z: nat)
    requires |disk| > 1 && SuperBlockOf(disk[1]) == sb && Two(disk, 1032) <= z < Two(disk, 1026)
    ensures var k := z - Two(disk, 1032) + 1;
            InUse(sb, disk, z) <==> Set(disk, 1024 * (2 + Two(disk, 1028)) + k / 8, k % 8)
  {
    SuperBlockAt(disk);
    var k := z - Two(disk, 1032) + 1;
    var b, o := ZMapBlk(sb, k), k % BPB / 8;
    assert 1024 * (2 + Two(disk, 1028)) + k / 8 == 1024 * b + o;
    InBlock(disk, b, o);
    BitIs(BlockAt(disk, b)[o], k % 8);
    if b >= |disk| {
      assert 0 / Mask(k % 8) == 0;
    }
  }

  /** The bit of an inode in the first block of the inode map. */
  lemma InodeMark(disk: Disk, ino: nat)
    requires 1 <= ino < 8192
    ensures InodeBit(disk, ino) <==> Set(disk, 2048 + ino / 8, ino % 8)
  {
    InBlock(disk, 2, ino / 8);
    BitIs(BlockAt(disk, 2)[ino / 8], ino % 8);
    if 2 >= |disk| {
      assert 0 / Mask(ino % 8) == 0;
    }
  }

  /** struct dir_entry: the inode's number, and the characters of the name up to a zero or the end. */
  lemma EntryAt(s: seq<Byte>, i: nat, n: nat)
    requires 16 * i + 16 <= |s| && n <= 14
    requires 0 !in s[16 * i + 2..16 * i + 2 + n] && (n == 14 || s[16 * i + 2 + n] == 0)
    ensures i < Slots(s) && InoAt(s, i) == (s[16 * i] as int) + 256 * (s[16 * i + 1] as int)
    ensures NameAt(s, i) == s[16 * i + 2..16 * i + 2 + n]
  {
    assert 16 * i + 16 <= |s|;
    var e := SlotBytes(s, i);
    var field, name := e[2..], s[16 * i + 2..16 * i + 2 + n];
    assert field[..n] == name;
    if n < 14 {
      CStringIs(field, name);
    } else {
      assert field == name;
      WholeField(field);
    }
  }

  lemma {:induction false} WholeField(field: seq<Byte>)
    requires 0 !in field
    ensures CString(field) == field
  {
    if field != [] {
      WholeField(field[1..]);
      assert field == [field[0]] + field[1..];
    }
  }
}
