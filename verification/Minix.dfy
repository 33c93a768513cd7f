/** Minix v1 on-disk layout (inc/minix.h): sizes, bytes and 16-bit words inside a block,
    the 32-byte disk inode, the superblock and the places of the bitmaps. */
module Minix {
  const BSIZE: nat := 1024
  const NDIRECT: nat := 7
  const NINDIRECT: nat := 512
  const MAXFILE: nat := 519
  const BPB: nat := 8192
  const DINODE: nat := 32 // sizeof(struct d_inode)
  const ROOT_INO: nat := 1

  type Byte = x: int | 0 <= x < 256
  type U16 = x: int | 0 <= x < 0x1_0000
  type U32 = x: int | 0 <= x < 0x1_0000_0000

  type Block = b: seq<Byte> | |b| == BSIZE witness seq(BSIZE, i => 0)

  /** A block of zero bytes. */
  function ZeroBlock(): (b: Block)
    ensures forall i :: 0 <= i < BSIZE ==> b[i] == 0
  {
    seq(BSIZE, i => 0)
  }

  type Disk = seq<Block>

  /** memcpy into the middle of a byte sequence. */
  function Splice<T>(s: seq<T>, off: nat, src: seq<T>): (r: seq<T>)
    requires off + |src| <= |s|
    ensures |r| == |s|
    ensures forall i :: 0 <= i < |s| ==> r[i] == if off <= i < off + |src| then src[i - off] else s[i]
  {
    s[..off] + src + s[off + |src|..]
  }

  /** The j-th 16-bit little-endian word of a block: one entry of an indirect table. */
  function Word(b: Block, j: nat): (w: U16)
    requires j < NINDIRECT
  {
    (b[2 * j] as int) + 256 * (b[2 * j + 1] as int)
  }

  function SetWord(b: Block, j: nat, w: U16): (r: Block)
    requires j < NINDIRECT
  {
    b[2 * j := w % 256][2 * j + 1 := w / 256]
  }

  lemma SetWordAt(b: Block, j: nat, w: U16)
    requires j < NINDIRECT
    ensures Word(SetWord(b, j, w), j) == w
    ensures forall k :: 0 <= k < NINDIRECT && k != j ==> Word(SetWord(b, j, w), k) == Word(b, k)
  {
    var r := SetWord(b, j, w);
    assert r[2 * j] == w % 256 && r[2 * j + 1] == w / 256;
    forall k | 0 <= k < NINDIRECT && k != j
      ensures Word(r, k) == Word(b, k)
    {
      assert r[2 * k] == b[2 * k] && r[2 * k + 1] == b[2 * k + 1];
    }
  }

  /** struct d_inode, and the same fields inside struct inode. */
  datatype Inode = Inode(mode: U16, uid: U16, size: U32, mtime: U32, gid: Byte, nlinks: Byte, zone: seq<U16>)

  predicate WellFormedInode(ip: Inode) {
    |ip.zone| == NDIRECT + 2
  }

  function Lo(w: U16): Byte { w % 256 }
  function Hi(w: U16): Byte { w / 256 }

  function EncodeInode(ip: Inode): (s: seq<Byte>)
    requires WellFormedInode(ip)
    ensures |s| == DINODE
  {
    [Lo(ip.mode), Hi(ip.mode), Lo(ip.uid), Hi(ip.uid),
     Lo(ip.size % 0x1_0000), Hi(ip.size % 0x1_0000), Lo(ip.size / 0x1_0000), Hi(ip.size / 0x1_0000),
     Lo(ip.mtime % 0x1_0000), Hi(ip.mtime % 0x1_0000), Lo(ip.mtime / 0x1_0000), Hi(ip.mtime / 0x1_0000),
     ip.gid, ip.nlinks]
    + seq(18, i requires 0 <= i < 18 => if i % 2 == 0 then Lo(ip.zone[i / 2]) else Hi(ip.zone[i / 2]))
  }

  function WordOf(s: seq<Byte>, i: nat): (w: U16)
    requires i + 1 < |s|
  {
    (s[i] as int) + 256 * (s[i + 1] as int)
  }

  function DecodeInode(s: seq<Byte>): (ip: Inode)
    requires |s| == DINODE
    ensures WellFormedInode(ip)
  {
    Inode(WordOf(s, 0), WordOf(s, 2), WordOf(s, 4) + 0x1_0000 * WordOf(s, 6),
          WordOf(s, 8) + 0x1_0000 * WordOf(s, 10), s[12], s[13],
          seq(9, i requires 0 <= i < 9 => WordOf(s, 14 + 2 * i)))
  }

  lemma InodeRoundTrip(ip: Inode)
    requires WellFormedInode(ip)
    ensures DecodeInode(EncodeInode(ip)) == ip
  {
    var s := EncodeInode(ip);
    var r := DecodeInode(s);
    forall i | 0 <= i < 9
      ensures r.zone[i] == ip.zone[i]
    {
      assert s[14 + 2 * i] == Lo(ip.zone[i]);
      assert s[15 + 2 * i] == Hi(ip.zone[i]);
    }
    assert r.zone == ip.zone;
  }

  /** S_ISCHR and S_ISDIR (inc/stat.h): the mask 0170000 keeps the top four bits. */
  predicate IsChr(mode: U16) { mode / 0x1000 == 2 }
  predicate IsDir(mode: U16) { mode / 0x1000 == 4 }

  /** struct super_block, the fields the code uses. */
  datatype SuperBlock = SuperBlock(ninodes: U16, nzones: U16, imapBlk: U16, zmapBlk: U16, fstDataZone: U16)

  /** read_sb's copy out of block 1. */
  function SuperBlockOf(b: Block): SuperBlock {
    SuperBlock(Word(b, 0), Word(b, 1), Word(b, 2), Word(b, 3), Word(b, 4))
  }

  function ZMapBlk(sb: SuperBlock, k: nat): nat { 2 + sb.imapBlk + k / BPB }
  function IMapBlk(ino: nat): nat requires ino >= 1 { 2 + (ino - 1) / BPB }

  /** IBLK: `ipb` is IPB, the number of inodes the kernel places in a block. */
  function IBlk(sb: SuperBlock, ipb: nat, ino: nat): nat
    requires ipb > 0 && ino >= 1
  {
    2 + sb.imapBlk + sb.zmapBlk + (ino - 1) / ipb
  }
}
