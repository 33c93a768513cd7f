/** Reference counts of the in-memory inodes on values: iget, ilock and iput. */
module InodeRefs {
  import opened Minix
  import opened Bits
  import opened Bitmap
  import opened BufferCache
  import opened Files
  import opened FsState
  import opened Truncate

  /** The references to inode `ino` in the first n slots. */
  function RefsBelow(ic: seq<MemInode>, ino: nat, n: nat): nat
    requires n <= |ic|
  {
    if n == 0 then 0 else RefsBelow(ic, ino, n - 1) + if ic[n - 1].ino == ino then ic[n - 1].ref else 0
  }

  function Refs(ic: seq<MemInode>, ino: nat): nat { RefsBelow(ic, ino, |ic|) }

  lemma {:induction false} RefsBelowSet(ic: seq<MemInode>, k: nat, m: MemInode, ino: nat, n: nat)
    requires k < |ic| && n <= |ic|
    ensures RefsBelow(ic[k := m], ino, n) + (if k < n && ic[k].ino == ino then ic[k].ref else 0)
         == RefsBelow(ic, ino, n) + (if k < n && m.ino == ino then m.ref else 0)
  {
    if n > 0 {
      RefsBelowSet(ic, k, m, ino, n - 1);
    }
  }

  /** Changing one slot changes the counts by what it held and holds. */
  lemma RefsSet(ic: seq<MemInode>, k: nat, m: MemInode, ino: nat)
    requires k < |ic|
    ensures Refs(ic[k := m], ino) + (if ic[k].ino == ino then ic[k].ref else 0)
         == Refs(ic, ino) + (if m.ino == ino then m.ref else 0)
  {
    RefsBelowSet(ic, k, m, ino, |ic|);
  }

  /** The counts after one reference to `ino` came (d == 1) or went (d == -1). */
  ghost predicate RefsChange(ic: seq<MemInode>, ic': seq<MemInode>, ino: nat, d: int) {
    forall j: nat :: Refs(ic', j) == Refs(ic, j) + if j == ino then d else 0
  }

  lemma CountUp(ic: seq<MemInode>, k: nat, m: MemInode, d: int)
    requires k < |ic|
    requires ic[k].ref == 0 || ic[k].ino == m.ino
    requires m.ref == ic[k].ref + d
    ensures RefsChange(ic, ic[k := m], m.ino, d)
  {
    forall j: nat ensures Refs(ic[k := m], j) == Refs(ic, j) + if j == m.ino then d else 0 {
      RefsSet(ic, k, m, j);
    }
  }

  lemma RefsBack(ic0: seq<MemInode>, ic1: seq<MemInode>, ic2: seq<MemInode>, ino: nat)
    requires RefsChange(ic0, ic1, ino, 1) && RefsChange(ic1, ic2, ino, -1)
    ensures forall j: nat :: Refs(ic2, j) == Refs(ic0, j)
  {
    forall j: nat ensures Refs(ic2, j) == Refs(ic0, j) {
      assert Refs(ic1, j) == Refs(ic0, j) + if j == ino then 1 else 0;
    }
  }

  /** Other fields do not count. */
  lemma RefsSame(ic: seq<MemInode>, k: nat, m: MemInode)
    requires k < |ic| && m.ino == ic[k].ino && m.ref == ic[k].ref
    ensures forall j: nat :: Refs(ic[k := m], j) == Refs(ic, j)
  {
    forall j: nat ensures Refs(ic[k := m], j) == Refs(ic, j) {
      RefsSet(ic, k, m, j);
    }
  }

  /** A slot with a reference to the inode. */
  ghost predicate CachedAt(ic: seq<MemInode>, ino: nat, k: nat) {
    k < |ic| && ic[k].ref > 0 && ic[k].ino == ino
  }

  /** Slot k refers to inode `ino` once more than before; a slot that was empty is neither locked nor
      read yet.  No other slot changed. */
  ghost predicate GotRef(ic0: seq<MemInode>, ic: seq<MemInode>, k: nat, ino: nat) {
    && k < |ic0| == |ic| && ic[k].ino == ino && ic[k].ref == ic0[k].ref + 1
    && ic == ic0[k := ic[k]]
    && (if CachedAt(ic0, ino, k) then ic[k] == ic0[k].(ref := ic0[k].ref + 1)
        else ic0[k].ref == 0 && !ic[k].busy && !ic[k].valid)
    && RefsChange(ic0, ic, ino, 1)
  }

  /** Another reference to a cached inode, or one fewer of several, or a change of the lock. */
  lemma RecountStep(sb: SuperBlock, ipb: nat, disk: Disk, ic: seq<MemInode>, inodes: Inodes, k: nat, ref: nat,
                    busy: bool)
    requires InodeTable(sb, ipb, disk, ic, inodes) && k < NINODE && ic[k].ref > 0 && ref > 0
    ensures InodeTable(sb, ipb, disk, ic[k := ic[k].(ref := ref, busy := busy)], inodes)
  {
    var ic' := ic[k := ic[k].(ref := ref, busy := busy)];
    forall ino | Resident(ic, ino) ensures Resident(ic', ino) {
      var l :| 0 <= l < |ic| && ic[l].ref > 0 && ic[l].valid && ic[l].ino == ino;
      assert ic'[l].ref > 0 && ic'[l].valid && ic'[l].ino == ino;
    }
  }

  /** An empty slot taken for an inode that is not in memory. */
  lemma OccupyStep(sb: SuperBlock, ipb: nat, disk: Disk, ic: seq<MemInode>, inodes: Inodes, k: nat, ino: nat)
    requires InodeTable(sb, ipb, disk, ic, inodes) && k < NINODE && ic[k].ref == 0 && ino in inodes
    requires forall l :: 0 <= l < NINODE ==> !CachedAt(ic, ino, l)
    ensures InodeTable(sb, ipb, disk, ic[k := ic[k].(ino := ino, ref := 1, busy := false, valid := false)], inodes)
  {
    var ic' := ic[k := ic[k].(ino := ino, ref := 1, busy := false, valid := false)];
    forall j | Resident(ic, j) ensures Resident(ic', j) {
      var l :| 0 <= l < |ic| && ic[l].ref > 0 && ic[l].valid && ic[l].ino == j;
      assert ic'[l].ref > 0 && ic'[l].valid && ic'[l].ino == j;
    }
    forall l | 0 <= l < NINODE && ic[l].ref > 0 ensures ic[l].ino != ino {
      assert !CachedAt(ic, ino, l);
    }
  }

  /** ilock reads the inode: what it reads is the inode's current value. */
  lemma LoadStep(sb: SuperBlock, ipb: nat, disk: Disk, ic: seq<MemInode>, inodes: Inodes, k: nat)
    requires InodeTable(sb, ipb, disk, ic, inodes) && k < NINODE && ic[k].ref > 0 && !ic[k].valid
    ensures ic[k].ino >= 1 && DiskInode(sb, ipb, disk, ic[k].ino) == inodes[ic[k].ino]
    ensures InodeTable(sb, ipb, disk, ic[k := ic[k].(busy := true, valid := true, d := inodes[ic[k].ino])], inodes)
  {
    var ic' := ic[k := ic[k].(busy := true, valid := true, d := inodes[ic[k].ino])];
    assert !Resident(ic, ic[k].ino);
    forall ino | Resident(ic, ino) ensures Resident(ic', ino) {
      var l :| 0 <= l < |ic| && ic[l].ref > 0 && ic[l].valid && ic[l].ino == ino;
      assert ic'[l].ref > 0 && ic'[l].valid && ic'[l].ino == ino;
    }
  }

  /** The last reference goes: the disk copy must be the current one. */
  lemma DropStep(sb: SuperBlock, ipb: nat, disk: Disk, ic: seq<MemInode>, inodes: Inodes, k: nat)
    requires InodeTable(sb, ipb, disk, ic, inodes) && k < NINODE && ic[k].ref == 1 && ic[k].ino >= 1
    requires ic[k].valid ==> DiskInode(sb, ipb, disk, ic[k].ino) == ic[k].d
    ensures InodeTable(sb, ipb, disk, ic[k := ic[k].(ref := 0)], inodes)
  {
    var ic' := ic[k := ic[k].(ref := 0)];
    forall ino | Resident(ic, ino) && ino != ic[k].ino ensures Resident(ic', ino) {
      var l :| 0 <= l < |ic| && ic[l].ref > 0 && ic[l].valid && ic[l].ino == ino;
      assert ic'[l].ref > 0 && ic'[l].valid && ic'[l].ino == ino;
    }
    if !ic[k].valid { assert !Resident(ic, ic[k].ino); }
  }

  /** Only the inode table is involved. */
  lemma TableChange(sb: SuperBlock, ipb: nat, disk: Disk, held: map<nat, Held>, stale: set<nat>, ic: seq<MemInode>,
                    ic': seq<MemInode>,
                    inodes: Inodes, owner: map<nat, Slot>)
    requires Inv(sb, ipb, disk, held, stale, ic, inodes, owner)
    ensures InodeTable(sb, ipb, disk, ic, inodes)
    ensures InodeTable(sb, ipb, disk, ic', inodes) ==> Inv(sb, ipb, disk, held, stale, ic', inodes, owner)
  {
  }

  // ---------------------------------------------------------------------------------------
  // The inode bitmap

  /** The bit _ifree clears: byte ino/8 of the block that IMAP_BLK names. */
  predicate InodeBit(disk: Disk, ino: nat) {
    ino >= 1 && IMapBlk(ino) < |disk| && ino / 8 < BSIZE && Bit(disk[IMapBlk(ino)][ino / 8], ino % 8)
  }

  ghost function InodeFreed(disk: Disk, ino: nat): (d: Disk)
    requires InodeBit(disk, ino)
    ensures |d| == |disk|
  {
    var b := disk[IMapBlk(ino)];
    disk[IMapBlk(ino) := b[ino / 8 := PutBitByte(b[ino / 8], ino % 8, false)]]
  }

  /** The inode's bit is clear now, and nothing the files depend on changed. */
  ghost predicate BitOnly(sb: SuperBlock, ipb: nat, disk: Disk, disk': Disk, inodes: Inodes, ino: nat) {
    && WellFormed(inodes) && 0 < ipb * DINODE <= BSIZE
    && SameDiskInodes(sb, ipb, disk, disk')
    && FreeZones(sb, disk') == FreeZones(sb, disk)
    && !InodeBit(disk', ino) && (forall j :: j != ino ==> InodeBit(disk', j) == InodeBit(disk, j))
    && forall j :: j in inodes && !IsChr(inodes[j].mode) ==> SameFile(disk, disk', inodes[j], inodes[j])
  }

  lemma InodeBitKept(sb: SuperBlock, disk: Disk, disk': Disk, ino: nat)
    requires SameInodeMap(sb, disk, disk') && InodeBit(disk, ino) && IMapBlk(ino) < 2 + sb.imapBlk
    ensures InodeBit(disk', ino)
  {
  }

  lemma OtherBit(disk: Disk, ino: nat, j: nat)
    requires InodeBit(disk, ino) && j != ino
    ensures InodeBit(InodeFreed(disk, ino), j) == InodeBit(disk, j)
  {
    if j >= 1 && IMapBlk(j) == IMapBlk(ino) && j / 8 == ino / 8 {
      PutBitAt(disk[IMapBlk(ino)][ino / 8], ino % 8, false, j % 8);
      assert j % 8 != ino % 8;
    }
  }

  /** On the disk every inode but `ino` is as before, and so is its bit. */
  ghost predicate OtherInodesKept(sb: SuperBlock, ipb: nat, disk: Disk, disk': Disk, ino: nat) {
    && 0 < ipb * DINODE <= BSIZE
    && forall j :: 1 <= j <= sb.ninodes && j != ino ==>
         && DiskInode(sb, ipb, disk', j) == DiskInode(sb, ipb, disk, j)
         && (IMapBlk(j) < 2 + sb.imapBlk ==> InodeBit(disk', j) == InodeBit(disk, j))
  }

  lemma BlocksKeepOthers(sb: SuperBlock, ipb: nat, disk: Disk, disk': Disk, ino: nat)
    requires 0 < ipb * DINODE <= BSIZE && SameInodeBlocks(sb, ipb, disk, disk')
    ensures OtherInodesKept(sb, ipb, disk, disk', ino)
  {
  }

  lemma SameMapInBlocks(sb: SuperBlock, ipb: nat, disk: Disk, disk': Disk)
    requires 0 < ipb * DINODE <= BSIZE && SameInodeBlocks(sb, ipb, disk, disk')
    ensures SameInodeMap(sb, disk, disk')
  {
  }

  lemma SameMapInUpdate(sb: SuperBlock, ipb: nat, disk0: Disk, disk1: Disk, disk2: Disk, inodes: Inodes, ino: nat)
    requires SameInodeMap(sb, disk0, disk1) && Updated(sb, ipb, disk1, disk2, inodes, ino)
    ensures SameInodeMap(sb, disk0, disk2)
  {
  }

  lemma UpdateKeepsOthers(sb: SuperBlock, ipb: nat, disk: Disk, disk': Disk, inodes: Inodes, ino: nat)
    requires Updated(sb, ipb, disk, disk', inodes, ino) && forall j :: 1 <= j <= sb.ninodes ==> j in inodes
    ensures OtherInodesKept(sb, ipb, disk, disk', ino)
  {
  }

  lemma FreeKeepsOthers(sb: SuperBlock, ipb: nat, disk: Disk, disk': Disk, inodes: Inodes, ino: nat)
    requires BitOnly(sb, ipb, disk, disk', inodes, ino)
    ensures OtherInodesKept(sb, ipb, disk, disk', ino)
  {
  }

  lemma FreeingKeepsOthers(sb: SuperBlock, ipb: nat, disk: Disk, disk': Disk, freed: set<nat>, ino: nat)
    requires Freeing(sb, ipb, disk, disk', freed)
    ensures OtherInodesKept(sb, ipb, disk, disk', ino)
  {
  }

  lemma OthersKeptTwice(sb: SuperBlock, ipb: nat, disk0: Disk, disk1: Disk, disk2: Disk, ino: nat)
    requires OtherInodesKept(sb, ipb, disk0, disk1, ino) && OtherInodesKept(sb, ipb, disk1, disk2, ino)
    ensures OtherInodesKept(sb, ipb, disk0, disk2, ino)
  {
  }

  lemma InodeNumbers(sb: SuperBlock, ipb: nat, disk: Disk, held: map<nat, Held>, stale: set<nat>, ic: seq<MemInode>,
                     inodes: Inodes, owner: map<nat, Slot>)
    requires Inv(sb, ipb, disk, held, stale, ic, inodes, owner)
    ensures forall j :: j in inodes <==> 1 <= j <= sb.ninodes
  {
  }

  /** Clearing an inode's bit clears that bit and touches nothing the files depend on. */
  lemma FreeInodeStep(sb: SuperBlock, ipb: nat, disk: Disk, held: map<nat, Held>, stale: set<nat>, ic: seq<MemInode>,
                      inodes: Inodes, owner: map<nat, Slot>, ino: nat)
    requires Inv(sb, ipb, disk, held, stale, ic, inodes, owner) && InodeBit(disk, ino) && IMapBlk(ino) < 2 + sb.imapBlk
    ensures var disk' := InodeFreed(disk, ino);
            && Inv(sb, ipb, disk', held, stale, ic, inodes, owner)
            && BitOnly(sb, ipb, disk, disk', inodes, ino)
  {
    var disk' := InodeFreed(disk, ino);
    PutBitAt(disk[IMapBlk(ino)][ino / 8], ino % 8, false, ino % 8);
    forall k | 0 <= k < sb.nzones ensures MapBit(sb, disk', k) == MapBit(sb, disk, k) {
      MapBlockBounds(sb, ipb, disk, k);
    }
    assert Reserved(sb, disk');
    InodeBlocksKept(sb, ipb, disk, disk');
    forall j | j != ino ensures InodeBit(disk', j) == InodeBit(disk, j) {
      OtherBit(disk, ino, j);
    }
    forall j | j in inodes && !IsChr(inodes[j].mode)
      ensures SameZones(disk, disk', inodes[j]) && SameFile(disk, disk', inodes[j], inodes[j])
    {
      OtherFileUntouched(sb, disk, disk', inodes, owner, j, IMapBlk(ino));
      UntouchedSame(disk, disk', inodes[j]);
    }
    forall s: Slot | IsSlot(inodes, s) ensures ZoneIn(disk', inodes[s.ino], s) == ZoneIn(disk, inodes[s.ino], s) {
      assert SameZones(disk, disk', inodes[s.ino]);
    }
  }

  /** A block in front of the data zones can be read by a holder of used data zones. */
  lemma MetaReadable(sb: SuperBlock, ipb: nat, disk: Disk, held: map<nat, Held>, stale: set<nat>, b: nat)
    requires Image(sb, ipb, disk) && Quiet(sb, disk, held, stale) && b < 2 + sb.imapBlk
    ensures b < |disk| && b !in stale && forall h :: h in held ==> held[h].blkno != b
  {
  }

  /** The inode's bit is cleared last. */
  lemma AfterFree(sb: SuperBlock, ipb: nat, disk0: Disk, disk1: Disk, disk2: Disk, inodes: Inodes, ino: nat, ip0: Inode)
    requires WellFormedInode(ip0) && Returned(sb, disk0, disk1, ip0) && OthersRead(disk0, disk1, inodes, ino)
    requires BitOnly(sb, ipb, disk1, disk2, inodes, ino) && 1 <= ino <= sb.ninodes
    ensures Returned(sb, disk0, disk2, ip0) && OthersRead(disk0, disk2, inodes, ino) && !InodeBit(disk2, ino)
    ensures 0 < ipb * DINODE <= BSIZE && DiskInode(sb, ipb, disk2, ino) == DiskInode(sb, ipb, disk1, ino)
  {
    forall y | IsDataZone(sb, y) ensures InUse(sb, disk2, y) == InUse(sb, disk1, y) {
      assert y in FreeZones(sb, disk2) <==> y in FreeZones(sb, disk1);
    }
    forall j | j in inodes && j != ino && !IsChr(inodes[j].mode) ensures SameFile(disk0, disk2, inodes[j], inodes[j]) {
      SameFileTwice(disk0, disk1, disk2, inodes[j]);
    }
  }
}
