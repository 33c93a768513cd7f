/** The state of the file system as values: disk, buffer cache view, the in-memory inodes of
    fs/inode.c, and the invariant that ties them together. */
module FsState {
  import opened Minix
  import opened Bitmap
  import opened BufferCache
  import opened Files

  const NINODE: nat := 500

  /** struct inode: the reference count and the flags next to the fields of the disk inode. */
  datatype MemInode = MemInode(ino: nat, ref: nat, busy: bool, valid: bool, d: Inode)

  /** A zeroed slot. */
  function NoInode(): MemInode {
    MemInode(0, 0, false, false, Inode(0, 0, 0, 0, 0, 0, [0, 0, 0, 0, 0, 0, 0, 0, 0]))
  }

  /** Where inode `ino` starts in its block. */
  function InodeOffset(ipb: nat, ino: nat): nat
    requires ipb > 0 && ino >= 1
  {
    DINODE * ((ino - 1) % ipb)
  }

  lemma InodeOffsetFits(ipb: nat, ino: nat)
    requires 0 < ipb * DINODE <= BSIZE && ino >= 1
    ensures ipb > 0 && InodeOffset(ipb, ino) + DINODE <= BSIZE
  {
  }

  /** The inode as the disk has it. */
  function DiskInode(sb: SuperBlock, ipb: nat, disk: Disk, ino: nat): (ip: Inode)
    requires 0 < ipb * DINODE <= BSIZE && ino >= 1
    ensures WellFormedInode(ip)
  {
    InodeOffsetFits(ipb, ino);
    DecodeInode(BlockAt(disk, IBlk(sb, ipb, ino))[InodeOffset(ipb, ino)..InodeOffset(ipb, ino) + DINODE])
  }

  /** A valid copy of inode `ino` is in memory. */
  ghost predicate Resident(ic: seq<MemInode>, ino: nat) {
    exists k :: 0 <= k < |ic| && ic[k].ref > 0 && ic[k].valid && ic[k].ino == ino
  }

  /** `inodes` gives every inode's current fields: those of its valid copy in memory, or else
      those on the disk.  No inode occupies two slots. */
  ghost predicate InodeTable(sb: SuperBlock, ipb: nat, disk: Disk, ic: seq<MemInode>, inodes: Inodes) {
    && 0 < ipb * DINODE <= BSIZE
    && |ic| == NINODE
    && (forall ino :: ino in inodes <==> 1 <= ino <= sb.ninodes)
    && (forall k :: 0 <= k < NINODE && ic[k].ref > 0 ==>
          && ic[k].ino in inodes
          && (ic[k].valid ==> inodes[ic[k].ino] == ic[k].d))
    && (forall k, l :: 0 <= k < l < NINODE && ic[k].ref > 0 && ic[l].ref > 0 ==> ic[k].ino != ic[l].ino)
    && (forall ino :: ino in inodes && !Resident(ic, ino) ==> inodes[ino] == DiskInode(sb, ipb, disk, ino))
  }

  /** No zone of a file is stale in the buffer cache. */
  ghost predicate Fresh(disk: Disk, inodes: Inodes, stale: set<nat>)
    requires WellFormed(inodes)
  {
    forall s: Slot :: IsSlot(inodes, s) && ZoneIn(disk, inodes[s.ino], s) != 0 ==>
        ZoneIn(disk, inodes[s.ino], s) !in stale
  }

  ghost predicate Inv(sb: SuperBlock, ipb: nat, disk: Disk, held: map<nat, Held>, stale: set<nat>,
                      ic: seq<MemInode>, inodes: Inodes, owner: map<nat, Slot>) {
    && Image(sb, ipb, disk)
    && Quiet(sb, disk, held, stale)
    && Owned(sb, disk, inodes, owner)
    && InodeTable(sb, ipb, disk, ic, inodes)
    && Fresh(disk, inodes, stale)
  }

  ghost predicate SameDiskInodes(sb: SuperBlock, ipb: nat, disk: Disk, disk': Disk)
    requires 0 < ipb * DINODE <= BSIZE
  {
    forall ino :: 1 <= ino <= sb.ninodes ==> DiskInode(sb, ipb, disk', ino) == DiskInode(sb, ipb, disk, ino)
  }

  /** All inodes and the inode bitmap are the same on both disks. */
  ghost predicate SameInodeBlocks(sb: SuperBlock, ipb: nat, disk: Disk, disk': Disk)
    requires 0 < ipb * DINODE <= BSIZE
  {
    SameInodeMap(sb, disk, disk') && SameDiskInodes(sb, ipb, disk, disk')
  }

  /** The inode bitmap is the same on both disks. */
  ghost predicate SameInodeMap(sb: SuperBlock, disk: Disk, disk': Disk) {
    |disk'| == |disk| && forall b :: 2 <= b < 2 + sb.imapBlk && b < |disk| ==> disk'[b] == disk[b]
  }

  lemma InodeBlocksKept(sb: SuperBlock, ipb: nat, disk: Disk, disk': Disk)
    requires Geometry(sb, ipb) && |disk'| == |disk| && sb.fstDataZone <= |disk|
    requires forall b :: 2 + sb.imapBlk + sb.zmapBlk <= b < sb.fstDataZone ==> disk'[b] == disk[b]
    ensures SameDiskInodes(sb, ipb, disk, disk')
  {
    hide DecodeInode;
    forall ino | 1 <= ino <= sb.ninodes ensures DiskInode(sb, ipb, disk', ino) == DiskInode(sb, ipb, disk, ino) {
      InodeBlockBounds(sb, ipb, ino);
      assert BlockAt(disk', IBlk(sb, ipb, ino)) == BlockAt(disk, IBlk(sb, ipb, ino));
    }
  }

  lemma InodeBlockBounds(sb: SuperBlock, ipb: nat, ino: nat)
    requires Geometry(sb, ipb) && 1 <= ino <= sb.ninodes
    ensures 2 + sb.imapBlk + sb.zmapBlk <= IBlk(sb, ipb, ino) < sb.fstDataZone
  {
    BehindTheMaps(sb, ipb, ino);
    hide IBlk;
  }

  lemma BehindTheMaps(sb: SuperBlock, ipb: nat, ino: nat)
    requires ipb > 0 && ino >= 1
    ensures 2 + sb.imapBlk + sb.zmapBlk <= IBlk(sb, ipb, ino)
  {
    var q: nat := (ino - 1) / ipb;
  }

  lemma MarkKeepsInodeBlocks(sb: SuperBlock, ipb: nat, disk: Disk, z: nat, v: bool)
    requires Image(sb, ipb, disk) && IsDataZone(sb, z)
    ensures SameInodeBlocks(sb, ipb, disk, MarkZone(sb, disk, BitOf(sb, z), v))
    ensures SameInodeMap(sb, disk, MarkZone(sb, disk, BitOf(sb, z), v))
  {
    MapBlockBounds(sb, ipb, disk, BitOf(sb, z));
    InodeBlocksKept(sb, ipb, disk, MarkZone(sb, disk, BitOf(sb, z), v));
  }

  lemma DataWriteKeepsInodeBlocks(sb: SuperBlock, ipb: nat, disk: Disk, z: nat, data: Block)
    requires Image(sb, ipb, disk) && IsDataZone(sb, z)
    ensures SameInodeBlocks(sb, ipb, disk, disk[z := data])
  {
    InodeBlocksKept(sb, ipb, disk, disk[z := data]);
  }

  lemma SameDisk(sb: SuperBlock, ipb: nat, disk: Disk, disk': Disk)
    requires 0 < ipb * DINODE <= BSIZE && SameInodeBlocks(sb, ipb, disk, disk')
    ensures forall ino :: 1 <= ino <= sb.ninodes ==> DiskInode(sb, ipb, disk', ino) == DiskInode(sb, ipb, disk, ino)
  {
  }

  /** Changing the copy of an inode that is valid in memory. */
  lemma SetResident(sb: SuperBlock, ipb: nat, disk: Disk, disk': Disk, ic: seq<MemInode>, inodes: Inodes, k: nat,
                    ip': Inode)
    requires InodeTable(sb, ipb, disk, ic, inodes) && SameInodeBlocks(sb, ipb, disk, disk')
    requires k < NINODE && ic[k].ref > 0 && ic[k].valid
    ensures InodeTable(sb, ipb, disk', ic[k := ic[k].(d := ip')], inodes[ic[k].ino := ip'])
  {
    hide DiskInode, SameInodeMap, SameDiskInodes;
    var ic' := ic[k := ic[k].(d := ip')];
    assert ic'[k].ref > 0 && ic'[k].valid && ic'[k].ino == ic[k].ino;
    SameDisk(sb, ipb, disk, disk');
    forall ino | Resident(ic, ino) ensures Resident(ic', ino) {
      var l :| 0 <= l < |ic| && ic[l].ref > 0 && ic[l].valid && ic[l].ino == ino;
      assert ic'[l].ref > 0 && ic'[l].valid && ic'[l].ino == ino;
    }
  }

  // ---------------------------------------------------------------------------------------
  // Counting free zones

  /** Blocks lo..hi-1 that have no zone. */
  function Holes(disk: Disk, ip: Inode, lo: nat, hi: nat): nat
    requires WellFormedInode(ip) && hi <= MAXFILE
    decreases hi - lo
  {
    if lo >= hi then 0 else (if ZoneAt(disk, ip, lo) == 0 then 1 else 0) + Holes(disk, ip, lo + 1, hi)
  }

  /** How many zones bmap allocates for blocks lo..hi-1, the indirect table included. */
  function Need(disk: Disk, ip: Inode, lo: nat, hi: nat): nat
    requires WellFormedInode(ip) && hi <= MAXFILE
  {
    Holes(disk, ip, lo, hi) + if lo < hi && hi > NDIRECT && ip.zone[NDIRECT] == 0 then 1 else 0
  }

  lemma {:induction false} HolesKept(disk: Disk, ip: Inode, disk': Disk, ip': Inode, lo: nat, hi: nat)
    requires WellFormedInode(ip) && WellFormedInode(ip') && hi <= MAXFILE
    requires forall k :: lo <= k < hi ==> ZoneAt(disk', ip', k) == ZoneAt(disk, ip, k)
    ensures Holes(disk', ip', lo, hi) == Holes(disk, ip, lo, hi)
    decreases hi - lo
  {
    if lo < hi {
      HolesKept(disk, ip, disk', ip', lo + 1, hi);
    }
  }

  /** Mapping the first block pays its part of the bill. */
  lemma NeedStep(disk: Disk, ip: Inode, disk': Disk, ip': Inode, lo: nat, hi: nat)
    requires WellFormedInode(ip) && WellFormedInode(ip') && lo < hi <= MAXFILE
    requires forall k :: lo < k < hi ==> ZoneAt(disk', ip', k) == ZoneAt(disk, ip, k)
    requires ip'.zone[NDIRECT] == 0 <==> lo < NDIRECT && ip.zone[NDIRECT] == 0
    ensures Need(disk, ip, lo, hi) == Need(disk, ip, lo, lo + 1) + Need(disk', ip', lo + 1, hi)
  {
    HolesKept(disk, ip, disk', ip', lo + 1, hi);
    assert Holes(disk, ip, lo + 1, lo + 1) == 0;
  }

  lemma FreeCountTakes(sb: SuperBlock, disk: Disk, disk': Disk, z: nat)
    requires TakesZone(sb, disk, disk', z)
    ensures |FreeZones(sb, disk')| == |FreeZones(sb, disk)| - 1
  {
    assert FreeZones(sb, disk') == FreeZones(sb, disk) - {z};
    assert z in FreeZones(sb, disk);
  }

  // ---------------------------------------------------------------------------------------
  // The invariant across bmap's allocations and block writes

  /** Slot k of the inode table holds a valid regular file or directory. */
  ghost predicate Loaded(ic: seq<MemInode>, inodes: Inodes, k: nat) {
    && k < |ic| && ic[k].ref > 0 && ic[k].valid
    && ic[k].ino in inodes && inodes[ic[k].ino] == ic[k].d && !IsChr(ic[k].d.mode)
  }

  /** The place inside the inode where block bn starts is empty: the direct zone, or the table. */
  predicate Missing(ip: Inode, bn: nat)
    requires WellFormedInode(ip)
  {
    if bn < NDIRECT then ip.zone[bn] == 0 else ip.zone[NDIRECT] == 0
  }

  ghost predicate ZonesGrow(ip: Inode, ip': Inode) {
    && WellFormedInode(ip) && WellFormedInode(ip')
    && forall k :: 0 <= k < |ip.zone| && ip.zone[k] != 0 ==> ip'.zone[k] == ip.zone[k]
  }

  /** What mapping block bn of inode `ino` does: z is its zone, the table's slot may have been
      filled too, and every file reads the same. */
  ghost predicate MapEffect(sb: SuperBlock, disk: Disk, disk': Disk, inodes: Inodes, inodes': Inodes, ino: nat,
                            bn: nat, z: nat)
    requires bn < MAXFILE
  {
    && WellFormed(inodes) && WellFormed(inodes') && ino in inodes && ino in inodes'
    && inodes' == inodes[ino := inodes'[ino]]
    && inodes'[ino] == inodes[ino].(zone := inodes'[ino].zone)
    && z != 0 && ZoneAt(disk', inodes'[ino], bn) == z
    && (forall k :: 0 <= k < MAXFILE && k != bn ==> ZoneAt(disk', inodes'[ino], k) == ZoneAt(disk, inodes[ino], k))
    && (inodes'[ino].zone[NDIRECT] == 0 <==> bn < NDIRECT && inodes[ino].zone[NDIRECT] == 0)
    && ZonesGrow(inodes[ino], inodes'[ino])
    && (inodes'[ino] == inodes[ino] <==> !Missing(inodes[ino], bn))
    && (forall j :: j in inodes && !IsChr(inodes[j].mode) ==> SameFile(disk, disk', inodes[j], inodes'[j]))
    && |FreeZones(sb, disk')| == |FreeZones(sb, disk)| - Need(disk, inodes[ino], bn, bn + 1)
    && |disk'| == |disk|
  }

  lemma GrowsFresh(sb: SuperBlock, disk: Disk, disk': Disk, inodes: Inodes, ip': Inode, owner: map<nat, Slot>,
                   s: Slot, z: nat, stale: set<nat>)
    requires WellFormed(inodes) && IsSlot(inodes, s) && WellFormedInode(ip') && ip'.mode == inodes[s.ino].mode
    requires Grows(sb, disk, disk', inodes, ip', owner, s, z) && Fresh(disk, inodes, stale)
    ensures Fresh(disk', inodes[s.ino := ip'], stale - {z})
  {
    var inodes' := inodes[s.ino := ip'];
    forall t: Slot | IsSlot(inodes', t) && ZoneIn(disk', inodes'[t.ino], t) != 0
      ensures ZoneIn(disk', inodes'[t.ino], t) !in stale - {z}
    {
      assert IsSlot(inodes, t);
      if t.ino != s.ino {
        assert SameZones(disk, disk', inodes[t.ino]);
        assert ZoneIn(disk', inodes'[t.ino], t) == ZoneIn(disk, inodes[t.ino], t);
      }
    }
  }

  lemma DirectStep(sb: SuperBlock, ipb: nat, disk: Disk, held: map<nat, Held>, stale: set<nat>, ic: seq<MemInode>,
                   inodes: Inodes, owner: map<nat, Slot>, k: nat, bn: nat, z: U16)
    requires Inv(sb, ipb, disk, held, stale, ic, inodes, owner) && Loaded(ic, inodes, k)
    requires bn < NDIRECT && ic[k].d.zone[bn] == 0 && IsDataZone(sb, z) && !InUse(sb, disk, z)
    ensures var ino, ip' := ic[k].ino, WithZone(ic[k].d, bn, z);
            var disk' := Allocated(sb, disk, z);
            && MapEffect(sb, disk, disk', inodes, inodes[ino := ip'], ino, bn, z)
            && Inv(sb, ipb, disk', held, stale - {z}, ic[k := ic[k].(d := ip')], inodes[ino := ip'],
                   owner[z := Data(ino, bn)])
            && SameInodeBlocks(sb, ipb, disk, disk')
            && |FreeZones(sb, disk')| == |FreeZones(sb, disk)| - 1
  {
    var ino, ip', disk' := ic[k].ino, WithZone(ic[k].d, bn, z), Allocated(sb, disk, z);
    FillDirect(sb, ipb, disk, inodes, owner, ino, bn, z);
    AllocatedStep(sb, ipb, disk, held, stale, z);
    GrowsFresh(sb, disk, disk', inodes, ip', owner, Data(ino, bn), z, stale);
    SetResident(sb, ipb, disk, disk', ic, inodes, k, ip');
    GrowsMaps(sb, ipb, disk, disk', inodes, ip', owner, ino, bn, z);
  }

  /** Growing a data slot is what bmap promises for its block. */
  lemma GrowsMaps(sb: SuperBlock, ipb: nat, disk: Disk, disk': Disk, inodes: Inodes, ip': Inode, owner: map<nat, Slot>,
                  ino: nat, bn: nat, z: nat)
    requires WellFormed(inodes) && IsSlot(inodes, Data(ino, bn)) && WellFormedInode(ip') && z != 0 && |disk'| == |disk|
    requires ip' == inodes[ino].(zone := ip'.zone) && ip'.zone[NDIRECT] == inodes[ino].zone[NDIRECT]
    requires bn >= NDIRECT ==> ip'.zone[NDIRECT] != 0
    requires ZonesGrow(inodes[ino], ip') && (ip' == inodes[ino] <==> !Missing(inodes[ino], bn))
    requires ZoneAt(disk, inodes[ino], bn) == 0
    requires Grows(sb, disk, disk', inodes, ip', owner, Data(ino, bn), z)
    requires |FreeZones(sb, disk')| == |FreeZones(sb, disk)| - 1
    ensures MapEffect(sb, disk, disk', inodes, inodes[ino := ip'], ino, bn, z)
  {
    forall k | 0 <= k < MAXFILE && k != bn ensures ZoneAt(disk', ip', k) == ZoneAt(disk, inodes[ino], k) {
      assert ZoneIn(disk', ip', Data(ino, k)) == ZoneIn(disk, inodes[ino], Data(ino, k));
    }
    assert ZoneIn(disk', ip', Data(ino, bn)) == z;
    assert Holes(disk, inodes[ino], bn + 1, bn + 1) == 0;
  }

  lemma TableStep(sb: SuperBlock, ipb: nat, disk: Disk, held: map<nat, Held>, stale: set<nat>, ic: seq<MemInode>,
                  inodes: Inodes, owner: map<nat, Slot>, k: nat, z: U16)
    requires Inv(sb, ipb, disk, held, stale, ic, inodes, owner) && Loaded(ic, inodes, k)
    requires ic[k].d.zone[NDIRECT] == 0 && IsDataZone(sb, z) && !InUse(sb, disk, z)
    ensures var ino, ip' := ic[k].ino, WithZone(ic[k].d, NDIRECT, z);
            var disk' := Allocated(sb, disk, z);
            && TableEffect(sb, disk, disk', inodes, inodes[ino := ip'], ino)
            && Inv(sb, ipb, disk', held, stale - {z}, ic[k := ic[k].(d := ip')], inodes[ino := ip'],
                   owner[z := Table(ino)])
            && SameInodeBlocks(sb, ipb, disk, disk')
            && |FreeZones(sb, disk')| == |FreeZones(sb, disk)| - 1
  {
    var ino, ip', disk' := ic[k].ino, WithZone(ic[k].d, NDIRECT, z), Allocated(sb, disk, z);
    FillTable(sb, ipb, disk, inodes, owner, ino, z);
    AllocatedStep(sb, ipb, disk, held, stale, z);
    GrowsFresh(sb, disk, disk', inodes, ip', owner, Table(ino), z, stale);
    SetResident(sb, ipb, disk, disk', ic, inodes, k, ip');
    GrowsTable(sb, disk, disk', inodes, ip', owner, ino, z);
  }

  /** What giving inode `ino` an empty indirect table does. */
  ghost predicate TableEffect(sb: SuperBlock, disk: Disk, disk': Disk, inodes: Inodes, inodes': Inodes, ino: nat) {
    && WellFormed(inodes) && WellFormed(inodes') && ino in inodes && ino in inodes'
    && inodes' == inodes[ino := inodes'[ino]]
    && inodes'[ino] == inodes[ino].(zone := inodes'[ino].zone)
    && inodes[ino].zone[NDIRECT] == 0 && inodes'[ino].zone[NDIRECT] != 0
    && ZonesGrow(inodes[ino], inodes'[ino])
    && (forall k :: 0 <= k < MAXFILE ==> ZoneAt(disk', inodes'[ino], k) == ZoneAt(disk, inodes[ino], k))
    && (forall j :: j in inodes && !IsChr(inodes[j].mode) ==> SameFile(disk, disk', inodes[j], inodes'[j]))
    && |FreeZones(sb, disk')| == |FreeZones(sb, disk)| - 1
    && |disk'| == |disk|
  }

  lemma GrowsTable(sb: SuperBlock, disk: Disk, disk': Disk, inodes: Inodes, ip': Inode, owner: map<nat, Slot>,
                   ino: nat, z: nat)
    requires WellFormed(inodes) && IsSlot(inodes, Table(ino)) && WellFormedInode(ip') && z != 0 && |disk'| == |disk|
    requires ip' == inodes[ino].(zone := ip'.zone) && inodes[ino].zone[NDIRECT] == 0 && ZonesGrow(inodes[ino], ip')
    requires Grows(sb, disk, disk', inodes, ip', owner, Table(ino), z)
    requires |FreeZones(sb, disk')| == |FreeZones(sb, disk)| - 1
    ensures TableEffect(sb, disk, disk', inodes, inodes[ino := ip'], ino)
  {
    forall k | 0 <= k < MAXFILE ensures ZoneAt(disk', ip', k) == ZoneAt(disk, inodes[ino], k) {
      assert ZoneIn(disk', ip', Data(ino, k)) == ZoneIn(disk, inodes[ino], Data(ino, k));
    }
    assert ZoneIn(disk', ip', Table(ino)) == z;
  }

  /** A block that has its zone is mapped as it is. */
  lemma MapIdentity(sb: SuperBlock, disk: Disk, inodes: Inodes, ino: nat, bn: nat)
    requires WellFormed(inodes) && ino in inodes && bn < MAXFILE && ZoneAt(disk, inodes[ino], bn) != 0
    ensures MapEffect(sb, disk, disk, inodes, inodes, ino, bn, ZoneAt(disk, inodes[ino], bn))
  {
    assert inodes[ino := inodes[ino]] == inodes;
    assert Holes(disk, inodes[ino], bn + 1, bn + 1) == 0;
  }

  /** First the table, then the entry. */
  lemma TableThenMap(sb: SuperBlock, disk0: Disk, disk1: Disk, disk2: Disk, inodes0: Inodes, inodes1: Inodes,
                     inodes2: Inodes,
                     ino: nat, bn: nat, z: nat)
    requires NDIRECT <= bn < MAXFILE
    requires TableEffect(sb, disk0, disk1, inodes0, inodes1, ino)
    requires MapEffect(sb, disk1, disk2, inodes1, inodes2, ino, bn, z)
    ensures MapEffect(sb, disk0, disk2, inodes0, inodes2, ino, bn, z)
  {
    assert Holes(disk0, inodes0[ino], bn + 1, bn + 1) == Holes(disk1, inodes1[ino], bn + 1, bn + 1) == 0;
    forall j | j in inodes0 && !IsChr(inodes0[j].mode) ensures SameFile(disk0, disk2, inodes0[j], inodes2[j]) {
      assert SameFile(disk0, disk1, inodes0[j], inodes1[j]) && SameFile(disk1, disk2, inodes1[j], inodes2[j]);
    }
  }

  /** What an allocation keeps besides the files. */
  lemma AllocatedStep(sb: SuperBlock, ipb: nat, disk: Disk, held: map<nat, Held>, stale: set<nat>, z: nat)
    requires Image(sb, ipb, disk) && Quiet(sb, disk, held, stale) && IsDataZone(sb, z) && !InUse(sb, disk, z)
    ensures var disk' := Allocated(sb, disk, z);
            && Image(sb, ipb, disk') && Quiet(sb, disk', held, stale - {z})
            && SameInodeBlocks(sb, ipb, disk, disk')
            && |FreeZones(sb, disk')| == |FreeZones(sb, disk)| - 1
  {
    var disk' := Allocated(sb, disk, z);
    AllocatedReady(sb, ipb, disk, held, stale, z);
    FreeCountTakes(sb, disk, disk', z);
    MarkKeepsInodeBlocks(sb, ipb, disk, z, true);
    MarkKeepsImage(sb, ipb, disk, z, true);
    DataWriteKeepsInodeBlocks(sb, ipb, MarkZone(sb, disk, BitOf(sb, z), true), z, ZeroBlock());
  }

  /** The same for an allocation whose number is stored in a table. */
  lemma EntryStoredStep(sb: SuperBlock, ipb: nat, disk: Disk, held: map<nat, Held>, stale: set<nat>, t: nat, j: nat,
                        z: U16)
    requires Image(sb, ipb, disk) && Quiet(sb, disk, held, stale) && IsDataZone(sb, z) && !InUse(sb, disk, z)
    requires IsDataZone(sb, t) && t < |disk| && j < NINDIRECT
    ensures z < |disk|
    ensures var disk' := EntryStored(sb, disk, t, j, z);
            && Image(sb, ipb, disk') && Quiet(sb, disk', held, stale - {z})
            && SameInodeBlocks(sb, ipb, disk, disk')
            && |FreeZones(sb, disk')| == |FreeZones(sb, disk)| - 1
  {
    var disk1 := Allocated(sb, disk, z);
    var disk' := EntryStored(sb, disk, t, j, z);
    AllocatedStep(sb, ipb, disk, held, stale, z);
    DataWriteKeepsImage(sb, ipb, disk1, t, disk'[t]);
    DataWriteKeepsInodeBlocks(sb, ipb, disk1, t, disk'[t]);
    InodeBlocksCompose(sb, ipb, disk, disk1, disk');
    hide SameInodeBlocks;
    assert forall y :: IsDataZone(sb, y) ==> InUse(sb, disk', y) == InUse(sb, disk1, y);
    assert FreeZones(sb, disk') == FreeZones(sb, disk1);
  }

  lemma TableKept(sb: SuperBlock, ipb: nat, disk: Disk, disk': Disk, ic: seq<MemInode>, inodes: Inodes)
    requires InodeTable(sb, ipb, disk, ic, inodes) && SameInodeBlocks(sb, ipb, disk, disk')
    ensures InodeTable(sb, ipb, disk', ic, inodes)
  {
  }

  /** An indirect table is a used data zone, and no stale one. */
  lemma TableInUse(sb: SuperBlock, ipb: nat, disk: Disk, held: map<nat, Held>, stale: set<nat>, ic: seq<MemInode>,
                   inodes: Inodes, owner: map<nat, Slot>, k: nat)
    requires Inv(sb, ipb, disk, held, stale, ic, inodes, owner) && Loaded(ic, inodes, k) && WellFormedInode(ic[k].d)
    requires ic[k].d.zone[NDIRECT] != 0
    ensures IsDataZone(sb, ic[k].d.zone[NDIRECT]) && ic[k].d.zone[NDIRECT] < |disk| && ic[k].d.zone[NDIRECT] !in stale
    ensures forall z: nat :: IsDataZone(sb, z) ==> 0 < z < |disk|
  {
    assert IsSlot(inodes, Table(ic[k].ino)) && ZoneIn(disk, ic[k].d, Table(ic[k].ino)) == ic[k].d.zone[NDIRECT];
    hide SameFile, InodeTable, Reserved;
  }

  lemma EntryStep(sb: SuperBlock, ipb: nat, disk: Disk, held: map<nat, Held>, stale: set<nat>, ic: seq<MemInode>,
                  inodes: Inodes, owner: map<nat, Slot>, k: nat, bn: nat, z: U16)
    requires Inv(sb, ipb, disk, held, stale, ic, inodes, owner) && Loaded(ic, inodes, k)
    requires NDIRECT <= bn < MAXFILE && ic[k].d.zone[NDIRECT] != 0 && ZoneAt(disk, ic[k].d, bn) == 0
    requires IsDataZone(sb, z) && !InUse(sb, disk, z)
    ensures ic[k].d.zone[NDIRECT] < |disk| && ic[k].d.zone[NDIRECT] !in stale
    ensures var ino := ic[k].ino;
            var disk' := EntryStored(sb, disk, ic[k].d.zone[NDIRECT], bn - NDIRECT, z);
            && MapEffect(sb, disk, disk', inodes, inodes, ino, bn, z)
            && Inv(sb, ipb, disk', held, stale - {z}, ic, inodes, owner[z := Data(ino, bn)])
            && SameInodeBlocks(sb, ipb, disk, disk')
            && |FreeZones(sb, disk')| == |FreeZones(sb, disk)| - 1
  {
    hide SameFile, Image, Quiet, InodeTable, SameInodeBlocks, FreeZones, Allocated;
    var ino, ip, t := ic[k].ino, ic[k].d, ic[k].d.zone[NDIRECT];
    TableInUse(sb, ipb, disk, held, stale, ic, inodes, owner, k);
    FillEntry(sb, ipb, disk, inodes, owner, ino, bn, z);
    var disk' := EntryStored(sb, disk, t, bn - NDIRECT, z);
    EntryStoredStep(sb, ipb, disk, held, stale, t, bn - NDIRECT, z);
    TableKept(sb, ipb, disk, disk', ic, inodes);
    assert inodes[ino := ip] == inodes;
    GrowsFresh(sb, disk, disk', inodes, ip, owner, Data(ino, bn), z, stale);
    GrowsMaps(sb, ipb, disk, disk', inodes, ip, owner, ino, bn, z);
  }

  /** Slot k is locked and loaded; buffers that are busy belong to the files of others. */
  ghost predicate Locked(ic: seq<MemInode>, inodes: Inodes, owner: map<nat, Slot>, held: map<nat, Held>, k: nat) {
    && Loaded(ic, inodes, k) && ic[k].busy
    && forall h :: h in held ==> held[h].blkno in owner && owner[held[h].blkno].ino != ic[k].ino
  }

  lemma LoadedWhenLocked(ic: seq<MemInode>, inodes: Inodes, owner: map<nat, Slot>, held: map<nat, Held>, k: nat)
    requires Locked(ic, inodes, owner, held, k)
    ensures Loaded(ic, inodes, k)
  {
  }

  lemma StaysLocked(sb: SuperBlock, ipb: nat, disk: Disk, held: map<nat, Held>, stale: set<nat>, ic: seq<MemInode>,
                    inodes: Inodes, owner: map<nat, Slot>, k: nat, ip': Inode, s: Slot, z: nat)
    requires Inv(sb, ipb, disk, held, stale, ic, inodes, owner) && Locked(ic, inodes, owner, held, k)
    requires !InUse(sb, disk, z) && ip'.mode == ic[k].d.mode
    ensures Locked(ic[k := ic[k].(d := ip')], inodes[ic[k].ino := ip'], owner[z := s], held, k)
  {
  }

  /** What a holder of used data zones may rely on when it calls the bitmap code. */
  lemma InvParts(sb: SuperBlock, ipb: nat, disk: Disk, held: map<nat, Held>, stale: set<nat>, ic: seq<MemInode>,
                 inodes: Inodes, owner: map<nat, Slot>)
    requires Inv(sb, ipb, disk, held, stale, ic, inodes, owner)
    ensures Image(sb, ipb, disk) && Quiet(sb, disk, held, stale)
    ensures WellFormed(inodes) && 0 < ipb * DINODE <= BSIZE
    ensures SameInodeBlocks(sb, ipb, disk, disk)
  {
  }

  lemma SomeZoneIsFree(sb: SuperBlock, disk: Disk)
    requires |FreeZones(sb, disk)| > 0
    ensures exists y :: IsDataZone(sb, y) && !InUse(sb, disk, y)
  {
    var y :| y in FreeZones(sb, disk);
  }

  /** A zone of the locked inode can be read: nobody else holds it, and it is not stale. */
  lemma ZoneReadable(sb: SuperBlock, ipb: nat, disk: Disk, held: map<nat, Held>, stale: set<nat>, ic: seq<MemInode>,
                     inodes: Inodes, owner: map<nat, Slot>, k: nat, s: Slot)
    requires Inv(sb, ipb, disk, held, stale, ic, inodes, owner) && Locked(ic, inodes, owner, held, k)
    requires WellFormedInode(ic[k].d) && s.ino == ic[k].ino && (s.Data? ==> s.bn < MAXFILE)
    requires ZoneIn(disk, ic[k].d, s) != 0
    ensures var z := ZoneIn(disk, ic[k].d, s);
            && sb.fstDataZone <= z < |disk| && z !in stale && InUse(sb, disk, z)
            && forall h :: h in held ==> held[h].blkno != z
  {
    assert IsSlot(inodes, s);
  }

  /** Holding one more used data zone. */
  lemma QuietWith(sb: SuperBlock, disk: Disk, held: map<nat, Held>, stale: set<nat>, bp: nat, h: Held)
    requires Quiet(sb, disk, held, stale) && InUse(sb, disk, h.blkno)
    ensures Quiet(sb, disk, held[bp := h], stale)
  {
  }

  lemma TableFacts(sb: SuperBlock, disk: Disk, disk': Disk, inodes: Inodes, inodes': Inodes, ino: nat, bn: nat)
    requires TableEffect(sb, disk, disk', inodes, inodes', ino) && bn < MAXFILE
    ensures ino in inodes' && WellFormedInode(inodes'[ino]) && inodes'[ino].zone[NDIRECT] != 0
    ensures ZoneAt(disk', inodes'[ino], bn) == ZoneAt(disk, inodes[ino], bn)
    ensures |FreeZones(sb, disk')| == |FreeZones(sb, disk)| - 1
  {
  }

  lemma InodeBlocksCompose(sb: SuperBlock, ipb: nat, disk0: Disk, disk1: Disk, disk2: Disk)
    requires 0 < ipb * DINODE <= BSIZE
    requires SameInodeBlocks(sb, ipb, disk0, disk1) && SameInodeBlocks(sb, ipb, disk1, disk2)
    ensures SameInodeBlocks(sb, ipb, disk0, disk2)
  {
    forall ino | 1 <= ino <= sb.ninodes ensures DiskInode(sb, ipb, disk2, ino) == DiskInode(sb, ipb, disk0, ino) {
      assert DiskInode(sb, ipb, disk1, ino) == DiskInode(sb, ipb, disk0, ino);
    }
  }

  // ---------------------------------------------------------------------------------------
  // Reading and writing a range of bytes

  /** Inode `ino` may have got zones; no file's bytes changed. */
  ghost predicate Extended(disk: Disk, disk': Disk, inodes: Inodes, inodes': Inodes, ino: nat) {
    && WellFormed(inodes) && WellFormed(inodes') && ino in inodes && ino in inodes'
    && inodes' == inodes[ino := inodes'[ino]]
    && inodes'[ino] == inodes[ino].(zone := inodes'[ino].zone)
    && ZonesGrow(inodes[ino], inodes'[ino])
    && (forall j :: j in inodes && !IsChr(inodes[j].mode) ==> SameFile(disk, disk', inodes[j], inodes'[j]))
    && |disk'| == |disk|
  }

  /** Of inode `ino` the bytes from `off` on became `src`; every other byte of every file is as before. */
  ghost predicate Written(disk: Disk, disk': Disk, inodes: Inodes, inodes': Inodes, ino: nat, off: nat,
                          src: seq<Byte>)
  {
    && WellFormed(inodes) && WellFormed(inodes') && ino in inodes && ino in inodes'
    && inodes' == inodes[ino := inodes'[ino]]
    && inodes'[ino] == inodes[ino].(zone := inodes'[ino].zone)
    && ZonesGrow(inodes[ino], inodes'[ino])
    && (forall j :: j in inodes && j != ino && !IsChr(inodes[j].mode) ==> SameFile(disk, disk', inodes[j], inodes'[j]))
    && (forall i :: 0 <= i < MAXSIZE ==>
          ByteAt(disk', inodes'[ino], i) == if off <= i < off + |src| then src[i - off]
              else ByteAt(disk, inodes[ino], i))
    && |disk'| == |disk|
  }

  lemma MapExtends(sb: SuperBlock, disk: Disk, disk': Disk, inodes: Inodes, inodes': Inodes, ino: nat, bn: nat, z: nat)
    requires bn < MAXFILE && MapEffect(sb, disk, disk', inodes, inodes', ino, bn, z)
    ensures Extended(disk, disk', inodes, inodes', ino)
    ensures WellFormedInode(inodes'[ino]) && ZoneAt(disk', inodes'[ino], bn) == z != 0
  {
  }

  lemma ExtendedSelf(disk: Disk, inodes: Inodes, ino: nat)
    requires WellFormed(inodes) && ino in inodes
    ensures Extended(disk, disk, inodes, inodes, ino)
    ensures Written(disk, disk, inodes, inodes, ino, 0, [])
  {
    assert inodes[ino := inodes[ino]] == inodes;
  }

  lemma ExtendedTwice(disk0: Disk, disk1: Disk, disk2: Disk, inodes0: Inodes, inodes1: Inodes, inodes2: Inodes,
                      ino: nat)
    requires Extended(disk0, disk1, inodes0, inodes1, ino) && Extended(disk1, disk2, inodes1, inodes2, ino)
    ensures Extended(disk0, disk2, inodes0, inodes2, ino)
  {
    forall j | j in inodes0 && !IsChr(inodes0[j].mode) ensures SameFile(disk0, disk2, inodes0[j], inodes2[j]) {
      assert SameFile(disk0, disk1, inodes0[j], inodes1[j]) && SameFile(disk1, disk2, inodes1[j], inodes2[j]);
    }
  }

  /** One past the last block of a range. */
  function EndBlock(off: nat, n: nat): nat {
    if n == 0 then off / BSIZE else (off + n - 1) / BSIZE + 1
  }

  /** How much of a read of n bytes lies inside the file. */
  function Clipped(ip: Inode, off: nat, n: nat): nat
    requires off <= ip.size
  {
    if off + n > ip.size then ip.size - off else n
  }

  /** The zones a read allocates: none unless it meets a hole. */
  function ReadNeed(disk: Disk, ip: Inode, off: nat, n: nat): nat
    requires WellFormedInode(ip) && off <= ip.size <= MAXSIZE
  {
    Need(disk, ip, off / BSIZE, EndBlock(off, Clipped(ip, off, n)))
  }

  /** The zones a write allocates. */
  function WriteNeed(disk: Disk, ip: Inode, off: nat, n: nat): nat
    requires WellFormedInode(ip) && off + n <= MAXSIZE
  {
    Need(disk, ip, off / BSIZE, EndBlock(off, n))
  }

  /** A mapped block leaves the bill for the rest of the range. */
  lemma MapPays(sb: SuperBlock, disk: Disk, disk': Disk, inodes: Inodes, inodes': Inodes, ino: nat, bn: nat, z: nat,
                hi: nat)
    requires bn < hi <= MAXFILE && MapEffect(sb, disk, disk', inodes, inodes', ino, bn, z)
    requires |FreeZones(sb, disk)| >= Need(disk, inodes[ino], bn, hi)
    ensures |FreeZones(sb, disk')| >= Need(disk', inodes'[ino], bn + 1, hi)
    ensures Need(disk, inodes[ino], bn, hi) == 0 ==> Need(disk', inodes'[ino], bn + 1, hi) == 0
  {
    NeedStep(disk, inodes[ino], disk', inodes'[ino], bn, hi);
  }

  lemma NeedFirst(disk: Disk, ip: Inode, lo: nat, hi: nat)
    requires WellFormedInode(ip) && lo < hi <= MAXFILE
    ensures Need(disk, ip, lo, lo + 1) <= Need(disk, ip, lo, hi)
  {
    assert Holes(disk, ip, lo + 1, lo + 1) == 0;
  }

  /** Blocks lo..hi-1 have their places inside the inode. */
  ghost predicate AllPresent(ip: Inode, lo: nat, hi: nat)
    requires WellFormedInode(ip)
  {
    forall bn :: lo <= bn < hi ==> !Missing(ip, bn)
  }

  /** The inode itself changes exactly when a place is filled for the first time. */
  lemma InodeChanges(sb: SuperBlock, disk: Disk, disk': Disk, ip0: Inode, inodes: Inodes, inodes': Inodes, ino: nat,
                     lo: nat, bn: nat, z: nat)
    requires lo <= bn < MAXFILE && MapEffect(sb, disk, disk', inodes, inodes', ino, bn, z)
    requires ZonesGrow(ip0, inodes[ino]) && (inodes[ino] == ip0 <==> AllPresent(ip0, lo, bn))
    requires inodes[ino] == ip0.(zone := inodes[ino].zone)
    ensures inodes'[ino] == ip0 <==> AllPresent(ip0, lo, bn + 1)
  {
    if inodes[ino] != ip0 {
      var k :| 0 <= k < NDIRECT + 2 && inodes[ino].zone[k] != ip0.zone[k];
      assert inodes'[ino].zone[k] == inodes[ino].zone[k];
    }
  }

  /** The arithmetic of one round of the loops in iread and iwrite. */
  lemma ChunkSteps(off: nat, tot: nat, total: nat, m: nat)
    requires tot < total && (tot == 0 || (off + tot) % BSIZE == 0)
    requires m == if total - tot < BSIZE - (off + tot) % BSIZE then total - tot else BSIZE - (off + tot) % BSIZE
    ensures 0 < m && (off + tot) % BSIZE + m <= BSIZE && tot + m <= total
    ensures EndBlock(off, tot) == (off + tot) / BSIZE < EndBlock(off, total)
    ensures EndBlock(off, tot + m) == (off + tot) / BSIZE + 1
    ensures tot + m < total ==> (off + tot + m) % BSIZE == 0
  {
    var o := off + tot;
    assert o == BSIZE * (o / BSIZE) + o % BSIZE;
    assert (o + m - 1) / BSIZE == o / BSIZE by { assert o + m - 1 == BSIZE * (o / BSIZE) + (o % BSIZE + m - 1); }
    if tot > 0 {
      assert (o - 1) / BSIZE == o / BSIZE - 1 by { assert o - 1 == BSIZE * (o / BSIZE - 1) + BSIZE - 1; }
    }
  }

  lemma NextBlock(off: nat, tot: nat, m: nat, total: nat)
    requires 0 < m && (tot + m < total ==> (off + tot + m) % BSIZE == 0)
    requires EndBlock(off, tot + m) == (off + tot) / BSIZE + 1
    ensures tot + m < total ==> (off + (tot + m)) / BSIZE == (off + tot) / BSIZE + 1
  {
  }

  lemma EndBlockBound(off: nat, n: nat)
    requires off + n <= MAXSIZE
    ensures EndBlock(off, n) <= MAXFILE
  {
  }

  /** iread's loop has copied tot bytes. */
  ghost predicate ReadSoFar(disk0: Disk, disk: Disk, inodes0: Inodes, inodes: Inodes, ino: nat, off: nat, tot: nat,
                            dest: seq<Byte>)
  {
    && Extended(disk0, disk, inodes0, inodes, ino)
    && (inodes[ino] == inodes0[ino] <==> AllPresent(inodes0[ino], off / BSIZE, EndBlock(off, tot)))
    && |dest| == tot
    && forall i :: off <= i < off + tot && i < MAXSIZE ==> dest[i - off] == ByteAt(disk0, inodes0[ino], i)
  }

  lemma ReadNothing(disk: Disk, inodes: Inodes, ino: nat, off: nat)
    requires WellFormed(inodes) && ino in inodes
    ensures ReadSoFar(disk, disk, inodes, inodes, ino, off, 0, [])
  {
    ExtendedSelf(disk, inodes, ino);
  }

  lemma ReadMore(sb: SuperBlock, disk0: Disk, disk1: Disk, disk2: Disk, inodes0: Inodes, inodes1: Inodes,
                 inodes2: Inodes,
                 ino: nat, off: nat, tot: nat, dest: seq<Byte>, chunk: seq<Byte>, z: nat)
    requires ReadSoFar(disk0, disk1, inodes0, inodes1, ino, off, tot, dest)
    requires !IsChr(inodes0[ino].mode) && off + tot < MAXSIZE
    requires EndBlock(off, tot) == (off + tot) / BSIZE && EndBlock(off, tot + |chunk|) == (off + tot) / BSIZE + 1
    requires MapEffect(sb, disk1, disk2, inodes1, inodes2, ino, (off + tot) / BSIZE, z)
    requires forall i :: off + tot <= i < off + tot + |chunk| && i < MAXSIZE ==>
               chunk[i - (off + tot)] == ByteAt(disk2, inodes2[ino], i)
    ensures ReadSoFar(disk0, disk2, inodes0, inodes2, ino, off, tot + |chunk|, dest + chunk)
  {
    MapExtends(sb, disk1, disk2, inodes1, inodes2, ino, (off + tot) / BSIZE, z);
    ExtendedTwice(disk0, disk1, disk2, inodes0, inodes1, inodes2, ino);
    InodeChanges(sb, disk1, disk2, inodes0[ino], inodes1, inodes2, ino, off / BSIZE, (off + tot) / BSIZE, z);
    forall i | off <= i < off + tot + |chunk| && i < MAXSIZE
      ensures (dest + chunk)[i - off] == ByteAt(disk0, inodes0[ino], i)
    {
      assert ByteAt(disk2, inodes2[ino], i) == ByteAt(disk0, inodes0[ino], i);
    }
  }

  lemma ReadDone(disk0: Disk, disk: Disk, inodes0: Inodes, inodes: Inodes, ino: nat, off: nat, n: nat, dest: seq<Byte>)
    requires ReadSoFar(disk0, disk, inodes0, inodes, ino, off, n, dest)
    requires off + n <= inodes0[ino].size
    ensures dest == Contents(disk0, inodes0[ino])[off..off + n]
    ensures Extended(disk0, disk, inodes0, inodes, ino)
    ensures inodes[ino] == inodes0[ino] <==> AllPresent(inodes0[ino], off / BSIZE, EndBlock(off, n))
  {
    forall i | 0 <= i < n ensures dest[i] == Contents(disk0, inodes0[ino])[off + i] {
      assert dest[off + i - off] == ByteAt(disk0, inodes0[ino], off + i);
    }
  }

  // ---------------------------------------------------------------------------------------
  // Writing

  /** Block bn of inode `ino` became `data`; nothing else of any file changed. */
  ghost predicate BlockStored(sb: SuperBlock, disk: Disk, disk': Disk, inodes: Inodes, ino: nat, bn: nat, data: Block) {
    && WellFormed(inodes) && ino in inodes && |disk'| == |disk|
    && FreeZones(sb, disk') == FreeZones(sb, disk)
    && SameZones(disk, disk', inodes[ino])
    && (forall j :: j in inodes && j != ino && !IsChr(inodes[j].mode) ==> SameFile(disk, disk', inodes[j], inodes[j]))
    && (forall i :: 0 <= i < MAXSIZE ==>
          ByteAt(disk', inodes[ino], i) == if i / BSIZE == bn then data[i % BSIZE] else ByteAt(disk, inodes[ino], i))
  }

  lemma StoredKeepsNeed(sb: SuperBlock, disk: Disk, disk': Disk, inodes: Inodes, ino: nat, bn: nat, data: Block,
                        lo: nat, hi: nat)
    requires BlockStored(sb, disk, disk', inodes, ino, bn, data) && hi <= MAXFILE
    ensures Need(disk', inodes[ino], lo, hi) == Need(disk, inodes[ino], lo, hi)
    ensures FreeZones(sb, disk') == FreeZones(sb, disk)
  {
    HolesKept(disk, inodes[ino], disk', inodes[ino], lo, hi);
  }

  /** Storing a block of a loaded file. */
  lemma WriteStep(sb: SuperBlock, ipb: nat, disk: Disk, held: map<nat, Held>, stale: set<nat>, ic: seq<MemInode>,
                  inodes: Inodes, owner: map<nat, Slot>, k: nat, bn: nat, data: Block)
    requires Inv(sb, ipb, disk, held, stale, ic, inodes, owner) && Loaded(ic, inodes, k)
    requires WellFormedInode(ic[k].d) && bn < MAXFILE && ZoneAt(disk, ic[k].d, bn) != 0
    ensures ZoneAt(disk, ic[k].d, bn) < |disk|
    ensures var ino, disk' := ic[k].ino, disk[ZoneAt(disk, ic[k].d, bn) := data];
            && Inv(sb, ipb, disk', held, stale - {ZoneAt(disk, ic[k].d, bn)}, ic, inodes, owner)
            && SameInodeBlocks(sb, ipb, disk, disk')
            && BlockStored(sb, disk, disk', inodes, ino, bn, data)
  {
    var ino, z := ic[k].ino, ZoneAt(disk, ic[k].d, bn);
    assert ZoneIn(disk, ic[k].d, Data(ino, bn)) == z && IsSlot(inodes, Data(ino, bn));
    WriteBlock(sb, ipb, disk, inodes, owner, ino, bn, data);
    DataWriteKeepsImage(sb, ipb, disk, z, data);
    DataWriteKeepsInodeBlocks(sb, ipb, disk, z, data);
    var disk' := disk[z := data];
    assert forall y :: IsDataZone(sb, y) ==> InUse(sb, disk', y) == InUse(sb, disk, y);
    forall s: Slot | IsSlot(inodes, s) ensures ZoneIn(disk', inodes[s.ino], s) == ZoneIn(disk, inodes[s.ino], s) {
      assert SameZones(disk, disk', inodes[s.ino]);
    }
  }

  /** Blocks lo..hi-1 have zones. */
  ghost predicate AllMapped(disk: Disk, ip: Inode, lo: nat, hi: nat)
    requires WellFormedInode(ip) && hi <= MAXFILE
  {
    forall bn :: lo <= bn < hi ==> ZoneAt(disk, ip, bn) != 0
  }

  ghost predicate KeepsMapped(disk: Disk, ip: Inode, disk': Disk, ip': Inode)
    requires WellFormedInode(ip) && WellFormedInode(ip')
  {
    forall bn :: 0 <= bn < MAXFILE && ZoneAt(disk, ip, bn) != 0 ==> ZoneAt(disk', ip', bn) != 0
  }

  /** iwrite's loop has stored tot bytes. */
  ghost predicate WroteSoFar(disk0: Disk, disk: Disk, inodes0: Inodes, inodes: Inodes, ino: nat, off: nat,
                             src: seq<Byte>)
  {
    && Written(disk0, disk, inodes0, inodes, ino, off, src)
    && EndBlock(off, |src|) <= MAXFILE
    && AllMapped(disk, inodes[ino], off / BSIZE, EndBlock(off, |src|))
    && KeepsMapped(disk0, inodes0[ino], disk, inodes[ino])
    && (inodes[ino] == inodes0[ino] <==> AllPresent(inodes0[ino], off / BSIZE, EndBlock(off, |src|)))
  }

  lemma WroteNothing(disk: Disk, inodes: Inodes, ino: nat, off: nat)
    requires WellFormed(inodes) && ino in inodes && off <= MAXSIZE
    ensures WroteSoFar(disk, disk, inodes, inodes, ino, off, [])
  {
    ExtendedSelf(disk, inodes, ino);
  }

  /** One more chunk: its block is mapped (disk1 to disk2) and stored (disk2 to disk3). */
  lemma WroteMore(sb: SuperBlock, disk0: Disk, disk1: Disk, disk2: Disk, disk3: Disk,
                  inodes0: Inodes, inodes1: Inodes, inodes2: Inodes,
                  ino: nat, off: nat, src: seq<Byte>, chunk: seq<Byte>, z: nat)
    requires WroteSoFar(disk0, disk1, inodes0, inodes1, ino, off, src)
    requires !IsChr(inodes0[ino].mode) && |chunk| > 0 && off + |src| + |chunk| <= MAXSIZE
    requires EndBlock(off, |src|) == (off + |src|) / BSIZE
    requires EndBlock(off, |src| + |chunk|) == (off + |src|) / BSIZE + 1
    requires (off + |src|) % BSIZE + |chunk| <= BSIZE
    requires MapEffect(sb, disk1, disk2, inodes1, inodes2, ino, (off + |src|) / BSIZE, z) && z < |disk2|
    requires BlockStored(sb, disk2, disk3, inodes2, ino, (off + |src|) / BSIZE,
                         Splice(disk2[z], (off + |src|) % BSIZE, chunk))
    ensures WroteSoFar(disk0, disk3, inodes0, inodes2, ino, off, src + chunk)
  {
    var bn := (off + |src|) / BSIZE;
    MapExtends(sb, disk1, disk2, inodes1, inodes2, ino, bn, z);
    InodeChanges(sb, disk1, disk2, inodes0[ino], inodes1, inodes2, ino, off / BSIZE, bn, z);
    forall j | j in inodes0 && j != ino && !IsChr(inodes0[j].mode)
      ensures SameFile(disk0, disk3, inodes0[j], inodes2[j])
    {
      assert SameFile(disk0, disk1, inodes0[j], inodes1[j]) && SameFile(disk1, disk2, inodes1[j], inodes2[j]);
    }
    assert SameFile(disk1, disk2, inodes1[ino], inodes2[ino]);
    ChunkBytes(disk0, disk1, disk2, disk3, inodes0[ino], inodes1[ino], inodes2[ino], off, src, chunk, z);
  }

  lemma ChunkBytes(disk0: Disk, disk1: Disk, disk2: Disk, disk3: Disk, ip0: Inode, ip1: Inode, ip2: Inode,
                   off: nat, src: seq<Byte>, chunk: seq<Byte>, z: nat)
    requires WellFormedInode(ip0) && WellFormedInode(ip1) && WellFormedInode(ip2)
    requires |chunk| > 0 && off + |src| + |chunk| <= MAXSIZE && (off + |src|) % BSIZE + |chunk| <= BSIZE
    requires z < |disk2| && ZoneAt(disk2, ip2, (off + |src|) / BSIZE) == z != 0
    requires SameFile(disk1, disk2, ip1, ip2)
    requires forall i :: 0 <= i < MAXSIZE ==>
               ByteAt(disk1, ip1, i) == if off <= i < off + |src| then src[i - off] else ByteAt(disk0, ip0, i)
    requires forall i :: 0 <= i < MAXSIZE ==>
               ByteAt(disk3, ip2, i) == if i / BSIZE == (off + |src|) / BSIZE then
                   Splice(disk2[z], (off + |src|) % BSIZE, chunk)[i % BSIZE]
                                        else ByteAt(disk2, ip2, i)
    ensures forall i :: 0 <= i < MAXSIZE ==>
              ByteAt(disk3, ip2, i) == if off <= i < off + |src + chunk| then (src + chunk)[i - off]
                  else ByteAt(disk0, ip0, i)
  {
    forall i | 0 <= i < MAXSIZE
      ensures ByteAt(disk3, ip2, i) == if off <= i < off + |src + chunk| then (src + chunk)[i - off]
                else ByteAt(disk0, ip0, i)
    {
      assert ByteAt(disk2, ip2, i) == ByteAt(disk1, ip1, i);
      SplicedByte(disk2[z], off + |src|, chunk, i);
    }
  }

  /** Which bytes of its block a chunk replaces. */
  lemma SplicedByte(b: Block, off: nat, chunk: seq<Byte>, i: nat)
    requires off % BSIZE + |chunk| <= BSIZE && |chunk| > 0
    ensures off <= i < off + |chunk| ==> i / BSIZE == off / BSIZE
    ensures i / BSIZE == off / BSIZE ==>
              Splice(b, off % BSIZE, chunk)[i % BSIZE] == if off <= i < off + |chunk| then chunk[i - off]
                  else b[i % BSIZE]
  {
    if off <= i < off + |chunk| {
      ChunkByte(off, |chunk|, i);
    } else if i / BSIZE == off / BSIZE {
      SameBlockOffset(off, i, |chunk|);
    }
  }

  /** The bytes of a chunk lie in one block. */
  lemma ChunkByte(off: nat, m: nat, i: nat)
    requires off % BSIZE + m <= BSIZE && off <= i < off + m
    ensures i / BSIZE == off / BSIZE && i % BSIZE == off % BSIZE + (i - off)
  {
    assert i == BSIZE * (off / BSIZE) + (off % BSIZE + (i - off));
  }

  /** Bytes of the block outside the chunk stay outside of it. */
  lemma SameBlockOffset(off: nat, i: nat, m: nat)
    requires i / BSIZE == off / BSIZE && !(off <= i < off + m)
    ensures !(off % BSIZE <= i % BSIZE < off % BSIZE + m)
  {
  }

  // ---------------------------------------------------------------------------------------
  // iupdate

  /** The disk after iupdate has copied `ip` to inode `ino`. */
  ghost function InodeStored(sb: SuperBlock, ipb: nat, disk: Disk, ino: nat, ip: Inode): (d: Disk)
    requires 0 < ipb * DINODE <= BSIZE && ino >= 1 && WellFormedInode(ip)
    ensures |d| == |disk|
  {
    InodeOffsetFits(ipb, ino);
    if IBlk(sb, ipb, ino) >= |disk| then disk else
    disk[IBlk(sb, ipb, ino) := Splice(disk[IBlk(sb, ipb, ino)], InodeOffset(ipb, ino), EncodeInode(ip))]
  }

  /** Two inodes in one block do not overlap. */
  lemma InodeSlotsApart(sb: SuperBlock, ipb: nat, i: nat, j: nat)
    requires ipb > 0 && i >= 1 && j >= 1 && i != j && IBlk(sb, ipb, i) == IBlk(sb, ipb, j)
    ensures InodeOffset(ipb, i) + DINODE <= InodeOffset(ipb, j) || InodeOffset(ipb, j) + DINODE <= InodeOffset(ipb, i)
  {
    var q := (i - 1) / ipb;
    assert i - 1 == q * ipb + (i - 1) % ipb && j - 1 == q * ipb + (j - 1) % ipb;
    assert (i - 1) % ipb != (j - 1) % ipb;
  }

  /** The copy on disk decodes to what was stored, and every other inode is as before. */
  lemma InodeStoredReads(sb: SuperBlock, ipb: nat, disk: Disk, ino: nat, ip: Inode, j: nat)
    requires 0 < ipb * DINODE <= BSIZE && ino >= 1 && j >= 1 && WellFormedInode(ip) && IBlk(sb, ipb, ino) < |disk|
    ensures DiskInode(sb, ipb, InodeStored(sb, ipb, disk, ino, ip), j) == if j == ino then ip
              else DiskInode(sb, ipb, disk, j)
  {
    hide DecodeInode, EncodeInode;
    InodeOffsetFits(ipb, ino);
    InodeOffsetFits(ipb, j);
    var disk' := InodeStored(sb, ipb, disk, ino, ip);
    var b, b' := BlockAt(disk, IBlk(sb, ipb, j)), BlockAt(disk', IBlk(sb, ipb, j));
    var o := InodeOffset(ipb, j);
    if j == ino {
      assert b'[o..o + DINODE] == EncodeInode(ip);
      InodeRoundTrip(ip);
    } else {
      if IBlk(sb, ipb, ino) == IBlk(sb, ipb, j) {
        InodeSlotsApart(sb, ipb, ino, j);
      }
      assert b'[o..o + DINODE] == b[o..o + DINODE];
    }
  }

  /** Only block b differs, and it lies between the zone map and the data zones. */
  ghost predicate OnlyInodeBlock(sb: SuperBlock, disk: Disk, disk': Disk, b: nat) {
    && |disk'| == |disk| && 2 + sb.imapBlk + sb.zmapBlk <= b < sb.fstDataZone
    && forall a :: 0 <= a < |disk| && a != b ==> disk'[a] == disk[a]
  }

  /** Files, zone map and superblock do not notice a change of an inode block. */
  lemma InodeBlockWrite(sb: SuperBlock, ipb: nat, disk: Disk, disk': Disk, b: nat, held: map<nat, Held>,
                        stale: set<nat>,
                        inodes: Inodes, owner: map<nat, Slot>)
    requires Image(sb, ipb, disk) && Quiet(sb, disk, held, stale) && Owned(sb, disk, inodes, owner)
    requires Fresh(disk, inodes, stale)
    requires OnlyInodeBlock(sb, disk, disk', b)
    ensures Image(sb, ipb, disk') && Quiet(sb, disk', held, stale) && Owned(sb, disk', inodes, owner)
    ensures Fresh(disk', inodes, stale)
    ensures FreeZones(sb, disk') == FreeZones(sb, disk)
    ensures forall j :: j in inodes && !IsChr(inodes[j].mode) ==>
              SameZones(disk, disk', inodes[j]) && SameFile(disk, disk', inodes[j], inodes[j])
  {
    MapKept(sb, ipb, disk, disk', b);
    forall j | j in inodes && !IsChr(inodes[j].mode)
      ensures SameZones(disk, disk', inodes[j]) && SameFile(disk, disk', inodes[j], inodes[j])
    {
      OtherFileUntouched(sb, disk, disk', inodes, owner, j, b);
      UntouchedSame(disk, disk', inodes[j]);
    }
    forall s: Slot | IsSlot(inodes, s) ensures ZoneIn(disk', inodes[s.ino], s) == ZoneIn(disk, inodes[s.ino], s) {
      assert SameZones(disk, disk', inodes[s.ino]);
    }
  }

  lemma MapKept(sb: SuperBlock, ipb: nat, disk: Disk, disk': Disk, b: nat)
    requires Image(sb, ipb, disk) && OnlyInodeBlock(sb, disk, disk', b)
    ensures Image(sb, ipb, disk')
    ensures forall y :: IsDataZone(sb, y) ==> InUse(sb, disk', y) == InUse(sb, disk, y)
    ensures FreeZones(sb, disk') == FreeZones(sb, disk)
  {
    forall k | 0 <= k < sb.nzones ensures MapBit(sb, disk', k) == MapBit(sb, disk, k) {
      MapBlockBounds(sb, ipb, disk, k);
    }
    assert Reserved(sb, disk');
  }

  /** Writing a resident inode's fields to its place on the disk. */
  lemma UpdateStep(sb: SuperBlock, ipb: nat, disk: Disk, held: map<nat, Held>, stale: set<nat>, ic: seq<MemInode>,
                   inodes: Inodes, owner: map<nat, Slot>, k: nat)
    requires Inv(sb, ipb, disk, held, stale, ic, inodes, owner)
    requires k < NINODE && ic[k].ref > 0 && ic[k].valid && 0 < ipb * DINODE <= BSIZE
    ensures WellFormedInode(ic[k].d) && ic[k].ino >= 1
    ensures var disk' := InodeStored(sb, ipb, disk, ic[k].ino, ic[k].d);
            && Inv(sb, ipb, disk', held, stale, ic, inodes, owner)
            && Updated(sb, ipb, disk, disk', inodes, ic[k].ino)
  {
    var ino, ip := ic[k].ino, ic[k].d;
    assert ino in inodes && WellFormedInode(ip);
    var disk' := InodeStored(sb, ipb, disk, ino, ip);
    InodeBlockBounds(sb, ipb, ino);
    InodeBlockWrite(sb, ipb, disk, disk', IBlk(sb, ipb, ino), held, stale, inodes, owner);
    forall j | j in inodes
      ensures DiskInode(sb, ipb, disk', j) == if j == ino then ip else DiskInode(sb, ipb, disk, j)
    {
      InodeStoredReads(sb, ipb, disk, ino, ip, j);
    }
    assert Resident(ic, ino);
  }

  /** The effect of iupdate: the disk copy of one inode agrees with memory, all else is as before. */
  ghost predicate Updated(sb: SuperBlock, ipb: nat, disk: Disk, disk': Disk, inodes: Inodes, ino: nat) {
    && WellFormed(inodes) && ino in inodes && ino >= 1 && 0 < ipb * DINODE <= BSIZE && |disk'| == |disk|
    && DiskInode(sb, ipb, disk', ino) == inodes[ino]
    && SameInodeMap(sb, disk, disk')
    && (forall j :: j in inodes && j >= 1 && j != ino ==> DiskInode(sb, ipb, disk', j) == DiskInode(sb, ipb, disk, j))
    && (forall j :: j in inodes && !IsChr(inodes[j].mode) ==>
          SameFile(disk, disk', inodes[j], inodes[j]) && SameZones(disk, disk', inodes[j]))
    && FreeZones(sb, disk') == FreeZones(sb, disk)
  }

  /** An inode block can be read by a holder of used data zones. */
  lemma InodeBlockReadable(sb: SuperBlock, ipb: nat, disk: Disk, held: map<nat, Held>, stale: set<nat>, ino: nat)
    requires Image(sb, ipb, disk) && Quiet(sb, disk, held, stale) && 1 <= ino <= sb.ninodes
    ensures ipb > 0 && IBlk(sb, ipb, ino) < |disk| && IBlk(sb, ipb, ino) !in stale
    ensures forall h :: h in held ==> held[h].blkno != IBlk(sb, ipb, ino)
    ensures InodeOffset(ipb, ino) + DINODE <= BSIZE
  {
    InodeBlockBounds(sb, ipb, ino);
    InodeOffsetFits(ipb, ino);
  }

  lemma SlotInRange(sb: SuperBlock, ipb: nat, disk: Disk, held: map<nat, Held>, stale: set<nat>, ic: seq<MemInode>,
                    inodes: Inodes, owner: map<nat, Slot>, k: nat)
    requires Inv(sb, ipb, disk, held, stale, ic, inodes, owner) && k < NINODE && ic[k].ref > 0
    ensures ic[k].ino in inodes && 1 <= ic[k].ino <= sb.ninodes
    ensures ic[k].valid ==> inodes[ic[k].ino] == ic[k].d && WellFormedInode(ic[k].d)
  {
  }

  // ---------------------------------------------------------------------------------------
  // iwrite as a whole

  /** `src` written over the sequence s at `off`, which may end past the end of s. */
  function Overwrite(s: seq<Byte>, off: nat, src: seq<Byte>): seq<Byte>
    requires off <= |s|
  {
    s[..off] + src + if off + |src| < |s| then s[off + |src|..] else []
  }

  lemma OverwrittenByte(s: seq<Byte>, off: nat, src: seq<Byte>, i: nat)
    requires off <= |s|
    ensures |Overwrite(s, off, src)| == if off + |src| > |s| then off + |src| else |s|
    ensures i < |Overwrite(s, off, src)| ==>
              Overwrite(s, off, src)[i] == if off <= i < off + |src| then src[i - off] else s[i]
  {
  }

  function Max(a: nat, b: nat): nat { if a < b then b else a }

  /** The zones of an inode are its own whatever its size and its link count are. */
  lemma SizeOwned(sb: SuperBlock, disk: Disk, stale: set<nat>, inodes: Inodes, owner: map<nat, Slot>, ino: nat,
                  size: U32, nlinks: Byte)
    requires Owned(sb, disk, inodes, owner) && Fresh(disk, inodes, stale) && ino in inodes && size <= MAXSIZE
    ensures var ip' := inodes[ino].(size := size, nlinks := nlinks);
            && WellFormedInode(ip') && Owned(sb, disk, inodes[ino := ip'], owner)
            && Fresh(disk, inodes[ino := ip'], stale)
            && WellFormedInode(inodes[ino]) && SameFile(disk, disk, inodes[ino], ip')
  {
    var inodes' := inodes[ino := inodes[ino].(size := size, nlinks := nlinks)];
    assert forall bn :: 0 <= bn < MAXFILE ==> ZoneAt(disk, inodes'[ino], bn) == ZoneAt(disk, inodes[ino], bn);
    forall s: Slot | IsSlot(inodes', s)
      ensures IsSlot(inodes, s) && ZoneIn(disk, inodes'[s.ino], s) == ZoneIn(disk, inodes[s.ino], s)
    {
    }
  }

  /** The inode after its size has been set. */
  lemma SizeStep(sb: SuperBlock, ipb: nat, disk: Disk, held: map<nat, Held>, stale: set<nat>, ic: seq<MemInode>,
                 inodes: Inodes, owner: map<nat, Slot>, k: nat, size: U32, nlinks: Byte)
    requires Inv(sb, ipb, disk, held, stale, ic, inodes, owner) && Locked(ic, inodes, owner, held, k) && size <= MAXSIZE
    ensures var ip' := ic[k].d.(size := size, nlinks := nlinks);
            && Inv(sb, ipb, disk, held, stale, ic[k := ic[k].(d := ip')], inodes[ic[k].ino := ip'], owner)
            && Locked(ic[k := ic[k].(d := ip')], inodes[ic[k].ino := ip'], owner, held, k)
            && WellFormedInode(ip') && WellFormedInode(ic[k].d)
            && SameFile(disk, disk, ic[k].d, ip')
  {
    hide Owned, Fresh, Quiet, Image, SameFile, DiskInode;
    SetResident(sb, ipb, disk, disk, ic, inodes, k, ic[k].d.(size := size, nlinks := nlinks));
    SizeOwned(sb, disk, stale, inodes, owner, ic[k].ino, size, nlinks);
  }

  /** Writing the bytes and raising the size overwrites the file. */
  lemma WrittenContents(disk0: Disk, disk: Disk, ip0: Inode, ip: Inode, off: nat, src: seq<Byte>)
    requires WellFormedInode(ip0) && WellFormedInode(ip) && off <= ip0.size <= MAXSIZE && off + |src| <= MAXSIZE
    requires ip.size == Max(ip0.size, off + |src|)
    requires forall i :: 0 <= i < MAXSIZE ==>
               ByteAt(disk, ip, i) == if off <= i < off + |src| then src[i - off] else ByteAt(disk0, ip0, i)
    ensures Contents(disk, ip) == Overwrite(Contents(disk0, ip0), off, src)
  {
    var s, t := Contents(disk, ip), Overwrite(Contents(disk0, ip0), off, src);
    assert |s| == |t|;
    forall i | 0 <= i < |s| ensures s[i] == t[i] {
      assert s[i] == ByteAt(disk, ip, i);
    }
  }

  /** What iwrite promises about the files. */
  ghost predicate FileOverwritten(disk0: Disk, disk: Disk, inodes0: Inodes, inodes: Inodes, ino: nat, off: nat,
                                  src: seq<Byte>)
  {
    && WellFormed(inodes0) && WellFormed(inodes) && ino in inodes0 && ino in inodes && off <= inodes0[ino].size
    && off + |src| <= MAXSIZE
    && inodes == inodes0[ino := inodes[ino]]
    && inodes[ino] == inodes0[ino].(zone := inodes[ino].zone, size := Max(inodes0[ino].size, off + |src|))
    && ZonesGrow(inodes0[ino], inodes[ino]) && KeepsMapped(disk0, inodes0[ino], disk, inodes[ino])
    && EndBlock(off, |src|) <= MAXFILE && AllMapped(disk, inodes[ino], off / BSIZE, EndBlock(off, |src|))
    && Contents(disk, inodes[ino]) == Overwrite(Contents(disk0, inodes0[ino]), off, src)
    && forall j :: j in inodes0 && j != ino && !IsChr(inodes0[j].mode) ==>
         Contents(disk, inodes[j]) == Contents(disk0, inodes0[j]) && SameFile(disk0, disk, inodes0[j], inodes[j])
  }

  lemma OverwrittenInPlace(disk0: Disk, disk: Disk, inodes0: Inodes, inodes: Inodes, ino: nat, off: nat, src: seq<Byte>)
    requires WroteSoFar(disk0, disk, inodes0, inodes, ino, off, src) && off + |src| <= inodes0[ino].size
    ensures FileOverwritten(disk0, disk, inodes0, inodes, ino, off, src)
    ensures inodes[ino] == inodes0[ino] <==> AllPresent(inodes0[ino], off / BSIZE, EndBlock(off, |src|))
  {
    WrittenContents(disk0, disk, inodes0[ino], inodes[ino], off, src);
    forall j | j in inodes0 && j != ino && !IsChr(inodes0[j].mode)
      ensures Contents(disk, inodes[j]) == Contents(disk0, inodes0[j])
    {
      SameContents(disk0, disk, inodes0[j], inodes[j]);
    }
  }

  /** The size is raised in memory, and iupdate follows. */
  lemma OverwrittenGrown(sb: SuperBlock, ipb: nat, disk0: Disk, disk1: Disk, disk2: Disk, inodes0: Inodes,
                         inodes1: Inodes, inodes2: Inodes,
                         ino: nat, off: nat, src: seq<Byte>)
    requires WroteSoFar(disk0, disk1, inodes0, inodes1, ino, off, src)
    requires inodes0[ino].size < off + |src| <= MAXSIZE && off <= inodes0[ino].size && !IsChr(inodes0[ino].mode)
    requires inodes2 == inodes1[ino := inodes1[ino].(size := off + |src|)]
    requires Updated(sb, ipb, disk1, disk2, inodes2, ino)
    ensures FileOverwritten(disk0, disk2, inodes0, inodes2, ino, off, src)
    ensures DiskInode(sb, ipb, disk2, ino) == inodes2[ino]
  {
    hide Updated, ByteAt, ZoneAt, DiskInode;
    AgreesAfterUpdate(sb, ipb, disk1, disk2, inodes2, ino);
    UpdatedReads(sb, ipb, disk1, disk2, inodes2, ino, ino);
    SizeKeepsZones(disk1, inodes1[ino], off + |src|);
    SizeKeepsBytes(disk0, disk1, disk2, inodes0[ino], inodes1[ino], off, src);
    forall j | j in inodes0 && j != ino && !IsChr(inodes0[j].mode)
      ensures SameFile(disk0, disk2, inodes0[j], inodes2[j])
      ensures Contents(disk2, inodes2[j]) == Contents(disk0, inodes0[j])
    {
      UpdatedReads(sb, ipb, disk1, disk2, inodes2, ino, j);
      SameFileTwice(disk0, disk1, disk2, inodes0[j]);
      SameContents(disk0, disk2, inodes0[j], inodes2[j]);
    }
  }

  lemma UpdatedReads(sb: SuperBlock, ipb: nat, disk: Disk, disk': Disk, inodes: Inodes, ino: nat, j: nat)
    requires Updated(sb, ipb, disk, disk', inodes, ino) && j in inodes && !IsChr(inodes[j].mode)
    ensures WellFormed(inodes) && SameFile(disk, disk', inodes[j], inodes[j]) && SameZones(disk, disk', inodes[j])
    ensures |disk'| == |disk|
  {
  }

  /** Block numbers and bytes do not depend on the size. */
  lemma SizeKeepsZones(disk: Disk, ip: Inode, size: U32)
    requires WellFormedInode(ip)
    ensures forall bn :: 0 <= bn < MAXFILE ==> ZoneAt(disk, ip.(size := size), bn) == ZoneAt(disk, ip, bn)
  {
  }

  lemma SizeKeepsBytes(disk0: Disk, disk1: Disk, disk2: Disk, ip0: Inode, ip1: Inode, off: nat, src: seq<Byte>)
    requires WellFormedInode(ip0) && WellFormedInode(ip1) && off <= ip0.size < off + |src| <= MAXSIZE
    requires forall i :: 0 <= i < MAXSIZE ==>
               ByteAt(disk1, ip1, i) == if off <= i < off + |src| then src[i - off] else ByteAt(disk0, ip0, i)
    requires SameFile(disk1, disk2, ip1.(size := off + |src|), ip1.(size := off + |src|))
    ensures Contents(disk2, ip1.(size := off + |src|)) == Overwrite(Contents(disk0, ip0), off, src)
  {
    var ip2 := ip1.(size := off + |src|);
    SizeKeepsZones(disk1, ip1, off + |src|);
    forall i | 0 <= i < MAXSIZE
      ensures ByteAt(disk2, ip2, i) == if off <= i < off + |src| then src[i - off] else ByteAt(disk0, ip0, i)
    {
      assert ByteAt(disk2, ip2, i) == ByteAt(disk1, ip2, i) == ByteAt(disk1, ip1, i);
    }
    WrittenContents(disk0, disk2, ip0, ip2, off, src);
  }

  lemma SameFileTwice(disk0: Disk, disk1: Disk, disk2: Disk, ip: Inode)
    requires WellFormedInode(ip) && SameFile(disk0, disk1, ip, ip) && SameFile(disk1, disk2, ip, ip)
    ensures SameFile(disk0, disk2, ip, ip)
  {
  }

  lemma AgreesAfterUpdate(sb: SuperBlock, ipb: nat, disk: Disk, disk': Disk, inodes: Inodes, ino: nat)
    requires Updated(sb, ipb, disk, disk', inodes, ino)
    ensures ino >= 1 && 0 < ipb * DINODE <= BSIZE && DiskInode(sb, ipb, disk', ino) == inodes[ino]
  {
  }

  lemma SameDiskInode(sb: SuperBlock, ipb: nat, disk: Disk, disk': Disk, ino: nat)
    requires 0 < ipb * DINODE <= BSIZE && SameInodeBlocks(sb, ipb, disk, disk') && 1 <= ino <= sb.ninodes
    ensures DiskInode(sb, ipb, disk', ino) == DiskInode(sb, ipb, disk, ino)
  {
  }

  lemma WroteKeeps(disk0: Disk, disk: Disk, inodes0: Inodes, inodes: Inodes, ino: nat, off: nat, src: seq<Byte>)
    requires WroteSoFar(disk0, disk, inodes0, inodes, ino, off, src)
    ensures ino in inodes0 && ino in inodes && inodes[ino] == inodes0[ino].(zone := inodes[ino].zone)
    ensures inodes == inodes0[ino := inodes[ino]]
  {
  }
}
