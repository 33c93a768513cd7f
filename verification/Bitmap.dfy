/** The zone bitmap of fs/bitmap.c. */
module Bits {
  import opened Minix

  function Pow2(n: nat): (p: nat)
    ensures p > 0
  {
    if n == 0 then 1 else 2 * Pow2(n - 1)
  }

  /** `x & (1 << k)` */
  predicate Bit(x: nat, k: nat) {
    if k == 0 then x % 2 == 1 else Bit(x / 2, k - 1)
  }

  /** `x | (1 << k)` when v, `x & ~(1 << k)` otherwise. */
  function PutBit(x: nat, k: nat, v: bool): nat {
    if k == 0 then x - x % 2 + (if v then 1 else 0) else 2 * PutBit(x / 2, k - 1, v) + x % 2
  }

  lemma {:induction false} PutBitFits(x: nat, k: nat, v: bool, width: nat)
    requires x < Pow2(width) && k < width
    ensures PutBit(x, k, v) < Pow2(width)
  {
    if k > 0 {
      PutBitFits(x / 2, k - 1, v, width - 1);
    }
  }

  lemma {:induction false} PutBitAt(x: nat, k: nat, v: bool, j: nat)
    ensures Bit(PutBit(x, k, v), j) == if j == k then v else Bit(x, j)
  {
    if k > 0 && j > 0 {
      PutBitAt(x / 2, k - 1, v, j - 1);
    }
  }

  function PutBitByte(x: Byte, k: nat, v: bool): Byte
    requires k < 8
  {
    assert x < Pow2(8) == 256;
    PutBitFits(x, k, v, 8);
    PutBit(x, k, v)
  }
}

module Bitmap {
  import opened Minix
  import opened Bits
  import opened BufferCache

  /** The zone map has a bit for every zone, and the inodes end before the data zones.  The code
      places `ipb` inodes of 32 bytes in a block. */
  ghost predicate Geometry(sb: SuperBlock, ipb: nat) {
    && 0 < ipb * DINODE <= BSIZE
    && sb.nzones <= sb.zmapBlk * BPB
    && 2 + sb.imapBlk + sb.zmapBlk <= sb.fstDataZone <= sb.nzones
    && forall ino :: 1 <= ino <= sb.ninodes ==> IBlk(sb, ipb, ino) < sb.fstDataZone
  }

  /** A mountable image. */
  ghost predicate Image(sb: SuperBlock, ipb: nat, disk: Disk) {
    && Geometry(sb, ipb)
    && sb.nzones <= |disk|
    && SuperBlockOf(disk[1]) == sb
    && Reserved(sb, disk)
  }

  /** Bit k of the zone map. */
  predicate MapBit(sb: SuperBlock, disk: Disk, k: nat) {
    ZMapBlk(sb, k) < |disk| && Bit(disk[ZMapBlk(sb, k)][k % BPB / 8], k % 8)
  }

  /** mkfs sets bit 0 and every bit that stands for no zone. */
  ghost predicate Reserved(sb: SuperBlock, disk: Disk) {
    forall k :: 0 <= k < sb.nzones && (k == 0 || k > sb.nzones - sb.fstDataZone) ==> MapBit(sb, disk, k)
  }

  function BitOf(sb: SuperBlock, z: nat): nat
    requires z >= sb.fstDataZone
  {
    z - sb.fstDataZone + 1
  }

  predicate IsDataZone(sb: SuperBlock, z: nat) { sb.fstDataZone <= z < sb.nzones }

  /** The bitmap marks data zone z as used. */
  predicate InUse(sb: SuperBlock, disk: Disk, z: nat) {
    IsDataZone(sb, z) && MapBit(sb, disk, BitOf(sb, z))
  }

  /** The zone map block of a zone lies in front of the inodes. */
  lemma MapBlockBounds(sb: SuperBlock, ipb: nat, disk: Disk, k: nat)
    requires Image(sb, ipb, disk) && k < sb.nzones
    ensures 2 <= ZMapBlk(sb, k) < 2 + sb.imapBlk + sb.zmapBlk <= sb.fstDataZone <= |disk|
  {
    DivBelow(k, sb.zmapBlk);
  }

  lemma DivBelow(k: nat, n: nat)
    requires k < n * BPB
    ensures k / BPB < n
  {
  }

  /** A block, byte and bit of the zone map name one bit number. */
  lemma SameBit(j: nat, k: nat)
    requires j / BPB == k / BPB && j % BPB / 8 == k % BPB / 8 && j % 8 == k % 8
    ensures j == k
  {
    WithinBlock(j);
    WithinBlock(k);
    assert j % BPB == 8 * (j % BPB / 8) + j % BPB % 8;
    assert k % BPB == 8 * (k % BPB / 8) + k % BPB % 8;
  }

  lemma WithinBlock(k: nat)
    ensures k % BPB % 8 == k % 8
    ensures k % BPB / 8 < BSIZE
  {
    assert k == BPB * (k / BPB) + k % BPB;
  }

  function FreeZones(sb: SuperBlock, disk: Disk): (s: set<nat>)
  {
    set z: nat | sb.fstDataZone <= z < sb.nzones && !InUse(sb, disk, z)
  }

  /** `bp->data[bi/8] |= m` or `&= ~m`, written to the disk. */
  function MarkZone(sb: SuperBlock, disk: Disk, k: nat, v: bool): (d: Disk)
    ensures |d| == |disk|
  {
    if ZMapBlk(sb, k) >= |disk| then disk else
    var b := disk[ZMapBlk(sb, k)];
    disk[ZMapBlk(sb, k) := b[k % BPB / 8 := PutBitByte(b[k % BPB / 8], k % 8, v)]]
  }

  lemma MarkZoneBit(sb: SuperBlock, disk: Disk, k: nat, v: bool, j: nat)
    requires ZMapBlk(sb, k) < |disk|
    ensures MapBit(sb, MarkZone(sb, disk, k, v), j) == if j == k then v else MapBit(sb, disk, j)
  {
    PutBitAt(disk[ZMapBlk(sb, k)][k % BPB / 8], k % 8, v, j % 8);
    if ZMapBlk(sb, j) == ZMapBlk(sb, k) && j % BPB / 8 == k % BPB / 8 && j % 8 == k % 8 {
      SameBit(j, k);
    }
  }

  // ---------------------------------------------------------------------------------------
  // The operations

  /** Between operations the busy buffers hold used data zones only, and no block in front of
      the data zones is stale. */
  ghost predicate Quiet(sb: SuperBlock, disk: Disk, held: map<nat, Held>, stale: set<nat>) {
    && (forall b :: b in held ==> InUse(sb, disk, held[b].blkno))
    && (forall x :: x in stale ==> x >= sb.fstDataZone)
  }

  ghost predicate Ready(sb: SuperBlock, ipb: nat, c: BufferCache)
    reads c, c.buf
  {
    && c.Valid()
    && Image(sb, ipb, c.disk)
    && Quiet(sb, c.disk, c.held, c.stale)
  }

  /** Where the superblock is, and that nobody holds it. */
  lemma SuperBlockReadable(sb: SuperBlock, ipb: nat, disk: Disk, held: map<nat, Held>, stale: set<nat>)
    requires Image(sb, ipb, disk) && Quiet(sb, disk, held, stale)
    ensures 1 < |disk| && 1 !in stale && SuperBlockOf(disk[1]) == sb
    ensures forall h :: h in held ==> held[h].blkno != 1
  {
  }

  /** read_sb (fs/sb.c): the superblock is read afresh by every operation. */
  method ReadSb(c: BufferCache) returns (sb: SuperBlock)
    requires c.Valid() && 1 < |c.disk| && 1 !in c.stale && (forall h :: h in c.held ==> c.held[h].blkno != 1)
    requires |c.held| < BufferList.NBUF
    modifies c, c.buf
    ensures c.Valid() && c.disk == old(c.disk) && c.held == old(c.held) && c.stale == old(c.stale)
    ensures sb == SuperBlockOf(c.disk[1])
  {
    hide BufferCache.Valid, MapBit, Geometry, Reserved, Bit;
    var bp := c.Bread(1);
    var data := c.Load(bp);
    sb := SuperBlockOf(data);
    c.Brelse(bp);
    assert c.held == old(c.held);
  }

  /** bzero */
  method Bzero(c: BufferCache, blkno: nat)
    requires c.Valid() && blkno < |c.disk| && (forall h :: h in c.held ==> c.held[h].blkno != blkno)
    requires |c.held| < BufferList.NBUF
    modifies c, c.buf
    ensures c.Valid() && c.disk == old(c.disk)[blkno := ZeroBlock()]
    ensures c.held == old(c.held) && c.stale == old(c.stale) - {blkno}
  {
    hide BufferCache.Valid, MapBit, Geometry, Reserved, Bit;
    var bp := c.Bread(blkno);
    c.Store(bp, ZeroBlock());
    c.Bwrite(bp);
    c.Brelse(bp);
    assert c.held == old(c.held);
  }

  /** A store into a data zone leaves the map and the superblock alone. */
  lemma DataWriteKeepsImage(sb: SuperBlock, ipb: nat, disk: Disk, z: nat, data: Block)
    requires Image(sb, ipb, disk) && IsDataZone(sb, z)
    ensures Image(sb, ipb, disk[z := data])
    ensures forall k :: 0 <= k < sb.nzones ==> MapBit(sb, disk[z := data], k) == MapBit(sb, disk, k)
  {
    var d := disk[z := data];
    forall k | 0 <= k < sb.nzones
      ensures MapBit(sb, d, k) == MapBit(sb, disk, k)
    {
      MapBlockBounds(sb, ipb, disk, k);
    }
    assert Reserved(sb, d);
  }

  /** So does marking a zone, except for the zone's own bit. */
  lemma MarkKeepsImage(sb: SuperBlock, ipb: nat, disk: Disk, z: nat, v: bool)
    requires Image(sb, ipb, disk) && IsDataZone(sb, z)
    ensures ZMapBlk(sb, BitOf(sb, z)) < sb.fstDataZone <= |disk|
    ensures Image(sb, ipb, MarkZone(sb, disk, BitOf(sb, z), v))
    ensures forall k :: 0 <= k < sb.nzones ==>
              MapBit(sb, MarkZone(sb, disk, BitOf(sb, z), v), k) == if k == BitOf(sb, z) then v else MapBit(sb, disk, k)
  {
    var n := BitOf(sb, z);
    var d := MarkZone(sb, disk, n, v);
    MapBlockBounds(sb, ipb, disk, n);
    forall k | 0 <= k < sb.nzones
      ensures MapBit(sb, d, k) == if k == n then v else MapBit(sb, disk, k)
    {
      MapBlockBounds(sb, ipb, disk, k);
      MarkZoneBit(sb, disk, n, v, k);
    }
    assert Reserved(sb, d);
  }

  /** The disk after balloc has handed out z. */
  ghost function Allocated(sb: SuperBlock, disk: Disk, z: nat): (d: Disk)
    requires IsDataZone(sb, z) && z < |disk|
    ensures |d| == |disk|
  {
    MarkZone(sb, disk, BitOf(sb, z), true)[z := ZeroBlock()]
  }

  lemma AllocatedReady(sb: SuperBlock, ipb: nat, disk: Disk, held: map<nat, Held>, stale: set<nat>, z: nat)
    requires Image(sb, ipb, disk) && IsDataZone(sb, z)
    requires Quiet(sb, disk, held, stale)
    ensures Image(sb, ipb, Allocated(sb, disk, z))
    ensures Quiet(sb, Allocated(sb, disk, z), held, stale - {z})
    ensures forall y :: IsDataZone(sb, y) ==> InUse(sb, Allocated(sb, disk, z), y) == (y == z || InUse(sb, disk, y))
  {
    MarkKeepsImage(sb, ipb, disk, z, true);
    var d := MarkZone(sb, disk, BitOf(sb, z), true);
    DataWriteKeepsImage(sb, ipb, d, z, ZeroBlock());
    forall y | IsDataZone(sb, y)
      ensures InUse(sb, Allocated(sb, disk, z), y) == (y == z || InUse(sb, disk, y))
    {
      assert MapBit(sb, d, BitOf(sb, y)) == if BitOf(sb, y) == BitOf(sb, z) then true
               else MapBit(sb, disk, BitOf(sb, y));
    }
  }

  /** The bits of one map block, counted from the bit b the outer scan stands at. */
  lemma ScanPosition(b: nat, bi: nat)
    requires b % BPB == 0 && bi < BPB
    ensures (b + bi) / BPB == b / BPB && (b + bi) % BPB == bi && (b + bi) % 8 == bi % 8
  {
    WithinBlock(b + bi);
  }

  /** balloc's inner loop: the first clear bit of a map block, or where the scan stops. */
  method FirstClear(data: Block, limit: nat) returns (bi: nat)
    ensures bi <= BPB && bi <= limit
    ensures forall i :: 0 <= i < bi ==> Bit(data[i / 8], i % 8)
    ensures bi < BPB && bi < limit ==> !Bit(data[bi / 8], bi % 8)
  {
    bi := 0;
    while bi < BPB && bi < limit
      invariant bi <= BPB && bi <= limit
      invariant forall i :: 0 <= i < bi ==> Bit(data[i / 8], i % 8)
    {
      if !Bit(data[bi / 8], bi % 8) {
        return;
      }
      bi := bi + 1;
    }
  }

  /** Bits below b are all set. */
  ghost predicate FullBelow(sb: SuperBlock, disk: Disk, b: nat) {
    forall k :: 0 <= k < b && k < sb.nzones ==> MapBit(sb, disk, k)
  }

  lemma ScannedBlock(sb: SuperBlock, disk: Disk, b: nat, bi: nat)
    requires b % BPB == 0 && bi <= BPB && b + bi <= sb.nzones && ZMapBlk(sb, b) < |disk|
    requires FullBelow(sb, disk, b)
    requires forall i :: 0 <= i < bi ==> Bit(disk[ZMapBlk(sb, b)][i / 8], i % 8)
    ensures FullBelow(sb, disk, b + bi)
  {
    forall k | 0 <= k < b + bi && k < sb.nzones ensures MapBit(sb, disk, k) {
      if k >= b {
        ScanPosition(b, k - b);
      }
    }
  }

  /** With everything scanned there is no free zone. */
  lemma FullMeansNone(sb: SuperBlock, ipb: nat, disk: Disk, y: nat)
    requires Image(sb, ipb, disk) && FullBelow(sb, disk, sb.nzones) && IsDataZone(sb, y)
    ensures InUse(sb, disk, y)
  {
  }

  /** The first clear bit is a data zone's, because every other bit is set. */
  lemma ClearBitIsZone(sb: SuperBlock, ipb: nat, disk: Disk, b: nat, bi: nat)
    requires b % BPB == 0 && bi < BPB && b + bi < sb.nzones && ZMapBlk(sb, b) < |disk|
    requires Image(sb, ipb, disk) && FullBelow(sb, disk, b + bi)
    requires !Bit(disk[ZMapBlk(sb, b)][bi / 8], bi % 8)
    ensures b + bi > 0
    ensures var z := sb.fstDataZone + b + bi - 1;
            && IsDataZone(sb, z) && z < |disk| && BitOf(sb, z) == b + bi
            && ZMapBlk(sb, BitOf(sb, z)) == ZMapBlk(sb, b) < z
            && !InUse(sb, disk, z)
            && forall y :: sb.fstDataZone <= y < z ==> InUse(sb, disk, y)
  {
    ScanPosition(b, bi);
    assert !MapBit(sb, disk, b + bi);
    MapBlockBounds(sb, ipb, disk, b);
  }

  /** balloc: the lowest free zone, marked and zeroed. */
  method Balloc(c: BufferCache, ghost sb0: SuperBlock, ghost ipb: nat) returns (z: nat)
    requires Ready(sb0, ipb, c) && |c.held| < BufferList.NBUF
    requires exists y :: IsDataZone(sb0, y) && !InUse(sb0, c.disk, y)
    modifies c, c.buf
    ensures Ready(sb0, ipb, c)
    ensures IsDataZone(sb0, z) && z < |c.disk|
    ensures !InUse(sb0, old(c.disk), z)
    ensures forall y :: sb0.fstDataZone <= y < z ==> InUse(sb0, old(c.disk), y)
    ensures c.disk == Allocated(sb0, old(c.disk), z)
    ensures c.held == old(c.held) && c.stale == old(c.stale) - {z}
  {
    hide BufferCache.Valid, MapBit, Geometry, Reserved, Bit;
    SuperBlockReadable(sb0, ipb, c.disk, c.held, c.stale);
    var sb := ReadSb(c);
    var b, found := 0, false;
    while b < sb.nzones
      invariant b % BPB == 0
      invariant c.Valid() && c.disk == old(c.disk) && c.held == old(c.held) && c.stale == old(c.stale)
      invariant FullBelow(sb, c.disk, b)
    {
      found, z := ScanMapBlock(c, sb, ipb, b);
      if found {
        AllocatedReady(sb, ipb, old(c.disk), c.held, old(c.stale), z);
        return;
      }
      b := b + BPB;
    }
    ghost var y :| IsDataZone(sb0, y) && !InUse(sb0, c.disk, y);
    FullMeansNone(sb, ipb, c.disk, y);
    assert false; // "out of blocks"
  }

  /** One round of balloc's outer loop. */
  method ScanMapBlock(c: BufferCache, sb: SuperBlock, ghost ipb: nat, b: nat) returns (found: bool, z: nat)
    requires c.Valid() && Image(sb, ipb, c.disk) && Quiet(sb, c.disk, c.held, c.stale) && |c.held| < BufferList.NBUF
    requires b % BPB == 0 && b < sb.nzones && FullBelow(sb, c.disk, b)
    modifies c, c.buf
    ensures c.Valid() && c.held == old(c.held)
    ensures !found ==> c.disk == old(c.disk) && c.stale == old(c.stale) && FullBelow(sb, c.disk, b + BPB)
    ensures found ==> IsDataZone(sb, z) && z < |c.disk| && !InUse(sb, old(c.disk), z)
    ensures found ==> forall y :: sb.fstDataZone <= y < z ==> InUse(sb, old(c.disk), y)
    ensures found ==> c.disk == Allocated(sb, old(c.disk), z) && c.stale == old(c.stale) - {z}
  {
    hide BufferCache.Valid, MapBit, Geometry, Reserved, Bit;
    MapBlockBounds(sb, ipb, c.disk, b);
    var bp := c.Bread(ZMapBlk(sb, b));
    var data := c.Load(bp);
    var bi := FirstClear(data, sb.nzones - b);
    ScannedBlock(sb, c.disk, b, bi);
    found, z := false, 0;
    if bi < BPB && b + bi < sb.nzones {
      ClearBitIsZone(sb, ipb, c.disk, b, bi);
      found, z := true, sb.fstDataZone + b + bi - 1;
      Take(c, sb, ipb, bp, z);
    } else {
      c.Brelse(bp);
    }
    assert c.held == old(c.held);
  }

  /** balloc's found branch: mark, write, release, zero. */
  method Take(c: BufferCache, sb: SuperBlock, ghost ipb: nat, bp: nat, z: nat)
    requires c.Valid() && Image(sb, ipb, c.disk) && IsDataZone(sb, z)
    requires ZMapBlk(sb, BitOf(sb, z)) < |c.disk| && ZMapBlk(sb, BitOf(sb, z)) !in c.stale
    requires bp in c.held && c.held[bp] == Held(ZMapBlk(sb, BitOf(sb, z)), c.disk[ZMapBlk(sb, BitOf(sb, z))])
    requires (forall h :: h in c.held ==> c.held[h].blkno != z) && |c.held| <= BufferList.NBUF
    modifies c, c.buf
    ensures c.Valid() && c.disk == Allocated(sb, old(c.disk), z)
    ensures c.held == old(c.held) - {bp} && c.stale == old(c.stale) - {z}
  {
    hide BufferCache.Valid, MapBit, Geometry, Reserved, Bit;
    var bi := BitOf(sb, z) % BPB;
    WithinBlock(BitOf(sb, z));
    var data := c.Load(bp);
    c.Store(bp, data[bi / 8 := PutBitByte(data[bi / 8], BitOf(sb, z) % 8, true)]);
    c.Bwrite(bp);
    c.Brelse(bp);
    assert |c.held| == |old(c.held)| - 1;
    Bzero(c, z);
  }

  /** The disk after bfree has returned z. */
  ghost function Freed(sb: SuperBlock, disk: Disk, z: nat): (d: Disk)
    requires IsDataZone(sb, z)
    ensures |d| == |disk|
  {
    MarkZone(sb, disk, BitOf(sb, z), false)
  }

  lemma FreedReady(sb: SuperBlock, ipb: nat, disk: Disk, held: map<nat, Held>, stale: set<nat>, z: nat)
    requires Image(sb, ipb, disk) && IsDataZone(sb, z)
    requires Quiet(sb, disk, held, stale) && forall h :: h in held ==> held[h].blkno != z
    ensures Image(sb, ipb, Freed(sb, disk, z))
    ensures Quiet(sb, Freed(sb, disk, z), held, stale)
    ensures forall y :: IsDataZone(sb, y) ==> InUse(sb, Freed(sb, disk, z), y) == (y != z && InUse(sb, disk, y))
  {
    MarkKeepsImage(sb, ipb, disk, z, false);
    var d := Freed(sb, disk, z);
    forall y | IsDataZone(sb, y)
      ensures InUse(sb, d, y) == (y != z && InUse(sb, disk, y))
    {
      assert MapBit(sb, d, BitOf(sb, y)) == if BitOf(sb, y) == BitOf(sb, z) then false
               else MapBit(sb, disk, BitOf(sb, y));
    }
  }

  /** The map block of a data zone can be read by somebody who holds used data zones only. */
  lemma MapBlockReadable(sb: SuperBlock, ipb: nat, disk: Disk, held: map<nat, Held>, stale: set<nat>, z: nat)
    requires Image(sb, ipb, disk) && Quiet(sb, disk, held, stale) && IsDataZone(sb, z)
    ensures ZMapBlk(sb, BitOf(sb, z)) < |disk| && ZMapBlk(sb, BitOf(sb, z)) !in stale
    ensures forall h :: h in held ==> held[h].blkno != ZMapBlk(sb, BitOf(sb, z))
  {
    MapBlockBounds(sb, ipb, disk, BitOf(sb, z));
  }

  /** bfree; its three assertions are the precondition. */
  method Bfree(c: BufferCache, ghost sb0: SuperBlock, ghost ipb: nat, z: nat)
    requires Ready(sb0, ipb, c) && |c.held| < BufferList.NBUF
    requires InUse(sb0, c.disk, z) && (forall h :: h in c.held ==> c.held[h].blkno != z)
    modifies c, c.buf
    ensures Ready(sb0, ipb, c)
    ensures c.disk == Freed(sb0, old(c.disk), z)
    ensures c.held == old(c.held) && c.stale == old(c.stale)
  {
    hide BufferCache.Valid, MapBit, Geometry, Reserved, Bit;
    SuperBlockReadable(sb0, ipb, c.disk, c.held, c.stale);
    var sb := ReadSb(c);
    FreedReady(sb, ipb, c.disk, c.held, c.stale, z);
    MapBlockReadable(sb, ipb, c.disk, c.held, c.stale, z);
    ClearMapBit(c, sb, z);
  }

  method ClearMapBit(c: BufferCache, sb: SuperBlock, z: nat)
    requires c.Valid() && IsDataZone(sb, z) && |c.held| < BufferList.NBUF
    requires ZMapBlk(sb, BitOf(sb, z)) < |c.disk| && ZMapBlk(sb, BitOf(sb, z)) !in c.stale
    requires forall h :: h in c.held ==> c.held[h].blkno != ZMapBlk(sb, BitOf(sb, z))
    modifies c, c.buf
    ensures c.Valid() && c.disk == Freed(sb, old(c.disk), z)
    ensures c.held == old(c.held) && c.stale == old(c.stale)
  {
    hide BufferCache.Valid, Bit;
    var k := BitOf(sb, z);
    WithinBlock(k);
    var bp := c.Bread(ZMapBlk(sb, k));
    var data := c.Load(bp);
    c.Store(bp, data[k % BPB / 8 := PutBitByte(data[k % BPB / 8], k % 8, false)]);
    c.Bwrite(bp);
    c.Brelse(bp);
    assert c.held == old(c.held);
  }
}
