/** itrunc on values: which zones are returned, and why the invariant survives. */
module Truncate {
  import opened Minix
  import opened Bitmap
  import opened BufferCache
  import opened Files
  import opened FsState

  /** z is one of the inode's zones, its indirect table included. */
  ghost predicate Owns(disk: Disk, ip: Inode, z: nat)
    requires WellFormedInode(ip)
  {
    z != 0 && (z == ip.zone[NDIRECT] || exists bn :: 0 <= bn < MAXFILE && ZoneAt(disk, ip, bn) == z)
  }

  /** The zones of blocks below bn. */
  ghost function ZonesBelow(disk: Disk, ip: Inode, bn: nat): (s: set<nat>)
    requires WellFormedInode(ip) && bn <= MAXFILE
    ensures forall z :: z in s <==> z != 0 && exists k :: 0 <= k < bn && ZoneAt(disk, ip, k) == z
  {
    if bn == 0 then {} else
      ZonesBelow(disk, ip, bn - 1) + if ZoneAt(disk, ip, bn - 1) == 0 then {} else {ZoneAt(disk, ip, bn - 1)}
  }

  /** The zones in `freed` were returned to the bitmap; nothing else changed. */
  ghost predicate Freeing(sb: SuperBlock, ipb: nat, disk0: Disk, disk: Disk, freed: set<nat>) {
    && Image(sb, ipb, disk) && SameInodeMap(sb, disk0, disk) && SameInodeBlocks(sb, ipb, disk0, disk)
    && (forall b :: sb.fstDataZone <= b < |disk0| ==> disk[b] == disk0[b])
    && (forall y :: IsDataZone(sb, y) ==> InUse(sb, disk, y) == (InUse(sb, disk0, y) && y !in freed))
  }

  lemma FreeStep(sb: SuperBlock, ipb: nat, disk0: Disk, disk: Disk, freed: set<nat>, z: nat)
    requires Freeing(sb, ipb, disk0, disk, freed) && IsDataZone(sb, z)
    ensures Freeing(sb, ipb, disk0, Freed(sb, disk, z), freed + {z})
  {
    FreedReady(sb, ipb, disk, map[], {}, z);
    MarkKeepsImage(sb, ipb, disk, z, false);
    MarkKeepsInodeBlocks(sb, ipb, disk, z, false);
    InodeBlocksCompose(sb, ipb, disk0, disk, Freed(sb, disk, z));
  }

  /** No zone of the inode is stored twice, so none is freed twice. */
  lemma NotYetFreed(sb: SuperBlock, disk: Disk, inodes: Inodes, owner: map<nat, Slot>, ino: nat, bn: nat)
    requires Owned(sb, disk, inodes, owner) && IsSlot(inodes, Table(ino)) && bn <= MAXFILE
    ensures bn < MAXFILE && ZoneAt(disk, inodes[ino], bn) != 0 ==>
              && InUse(sb, disk, ZoneAt(disk, inodes[ino], bn))
              && ZoneAt(disk, inodes[ino], bn) !in ZonesBelow(disk, inodes[ino], bn)
              && ZoneAt(disk, inodes[ino], bn) != inodes[ino].zone[NDIRECT]
    ensures inodes[ino].zone[NDIRECT] != 0 ==>
              && InUse(sb, disk, inodes[ino].zone[NDIRECT])
              && inodes[ino].zone[NDIRECT] !in ZonesBelow(disk, inodes[ino], bn)
  {
    var ip := inodes[ino];
    assert ZoneIn(disk, ip, Table(ino)) == ip.zone[NDIRECT];
    forall k | 0 <= k < MAXFILE && ZoneAt(disk, ip, k) != 0
      ensures InUse(sb, disk, ZoneAt(disk, ip, k)) && ZoneAt(disk, ip, k) in owner
      ensures owner[ZoneAt(disk, ip, k)] == Data(ino, k)
    {
      assert IsSlot(inodes, Data(ino, k)) && ZoneIn(disk, ip, Data(ino, k)) == ZoneAt(disk, ip, k);
    }
  }

  /** The first i zone numbers are cleared. */
  function Cleared(ip: Inode, i: nat): (r: Inode)
    requires WellFormedInode(ip)
    ensures WellFormedInode(r)
  {
    ip.(zone := seq(NDIRECT + 2, k requires 0 <= k < NDIRECT + 2 => if k < i then 0 else ip.zone[k]))
  }

  /** The inode itrunc leaves; the unused double indirect number stays. */
  function Truncated(ip: Inode): (r: Inode)
    requires WellFormedInode(ip)
    ensures WellFormedInode(r)
  {
    Cleared(ip, NDIRECT + 1).(size := 0)
  }

  /** Size and zones are gone, the eighth as the seven before it, and nothing else. */
  lemma TruncatedFields(ip: Inode)
    requires WellFormedInode(ip)
    ensures var r := Truncated(ip);
            && r.size == 0 && (forall k :: 0 <= k < 8 ==> r.zone[k] == 0) && r.zone[8] == ip.zone[8]
            && r.mode == ip.mode && r.uid == ip.uid && r.mtime == ip.mtime && r.gid == ip.gid && r.nlinks == ip.nlinks
  {
  }

  /** Everything the inode owned has been returned. */
  ghost predicate Returned(sb: SuperBlock, disk0: Disk, disk: Disk, ip: Inode)
    requires WellFormedInode(ip)
  {
    forall y :: IsDataZone(sb, y) ==> (InUse(sb, disk, y) <==> InUse(sb, disk0, y) && !Owns(disk0, ip, y))
  }

  ghost function AllZones(disk: Disk, ip: Inode): (s: set<nat>)
    requires WellFormedInode(ip)
    ensures forall z :: z in s <==> Owns(disk, ip, z)
  {
    ZonesBelow(disk, ip, MAXFILE) + if ip.zone[NDIRECT] == 0 then {} else {ip.zone[NDIRECT]}
  }

  /** Every file but `ino` has the same contents on both disks. */
  ghost predicate OthersRead(disk0: Disk, disk: Disk, inodes: Inodes, ino: nat) {
    && WellFormed(inodes)
    && forall j :: j in inodes && j != ino && !IsChr(inodes[j].mode) ==> SameFile(disk0, disk, inodes[j], inodes[j])
  }

  /** When all zones are returned and the inode is cleared in memory, the invariant holds again.
      The table's buffer may have been left stale: no inode stores its zone any more. */
  lemma TruncStep(sb: SuperBlock, ipb: nat, disk0: Disk, disk: Disk, held: map<nat, Held>, stale0: set<nat>,
                  stale: set<nat>,
                  ic: seq<MemInode>, inodes: Inodes, owner: map<nat, Slot>, k: nat)
    requires Inv(sb, ipb, disk0, held, stale0, ic, inodes, owner) && Locked(ic, inodes, owner, held, k)
    requires WellFormedInode(ic[k].d) && Freeing(sb, ipb, disk0, disk, AllZones(disk0, ic[k].d))
    requires Quiet(sb, disk, held, stale)
    requires stale <= stale0 + (if ic[k].d.zone[NDIRECT] == 0 then {} else {ic[k].d.zone[NDIRECT] as nat})
    ensures var ino, ip' := ic[k].ino, Truncated(ic[k].d);
            && Inv(sb, ipb, disk, held, stale, ic[k := ic[k].(d := ip')], inodes[ino := ip'], owner)
            && Locked(ic[k := ic[k].(d := ip')], inodes[ino := ip'], owner, held, k)
            && Returned(sb, disk0, disk, ic[k].d) && SameInodeMap(sb, disk0, disk)
            && OthersRead(disk0, disk, inodes[ino := ip'], ino)
  {
    var ino, ip' := ic[k].ino, Truncated(ic[k].d);
    SetResident(sb, ipb, disk0, disk, ic, inodes, k, ip');
    forall j | j in inodes && j != ino && !IsChr(inodes[j].mode)
      ensures SameFile(disk0, disk, inodes[j], inodes[j])
    {
      Reads0(sb, disk0, disk, inodes, owner, j);
    }
    TruncOwned(sb, ipb, disk0, disk, stale0, stale, inodes, owner, ino);
  }

  lemma TruncOwned(sb: SuperBlock, ipb: nat, disk0: Disk, disk: Disk, stale0: set<nat>, stale: set<nat>,
                   inodes: Inodes, owner: map<nat, Slot>, ino: nat)
    requires Owned(sb, disk0, inodes, owner) && Fresh(disk0, inodes, stale0) && IsSlot(inodes, Table(ino))
    requires Freeing(sb, ipb, disk0, disk, AllZones(disk0, inodes[ino]))
    requires stale <= stale0 + (if inodes[ino].zone[NDIRECT] == 0 then {} else {inodes[ino].zone[NDIRECT] as nat})
    ensures Owned(sb, disk, inodes[ino := Truncated(inodes[ino])], owner)
    ensures Fresh(disk, inodes[ino := Truncated(inodes[ino])], stale)
  {
    var ip' := Truncated(inodes[ino]);
    var inodes' := inodes[ino := ip'];
    assert forall bn :: 0 <= bn < MAXFILE ==> ZoneAt(disk, ip', bn) == 0;
    forall s: Slot | IsSlot(inodes', s) && ZoneIn(disk, inodes'[s.ino], s) != 0
      ensures var z := ZoneIn(disk, inodes'[s.ino], s); InUse(sb, disk, z) && z in owner && owner[z] == s && z !in stale
    {
      assert IsSlot(inodes, s) && s.ino != ino;
      Reads0(sb, disk0, disk, inodes, owner, s.ino);
      assert ZoneIn(disk, inodes[s.ino], s) == ZoneIn(disk0, inodes[s.ino], s);
      OthersNotOwned(sb, disk0, inodes, owner, ino, s);
    }
  }

  lemma Reads0(sb: SuperBlock, disk0: Disk, disk: Disk, inodes: Inodes, owner: map<nat, Slot>, j: nat)
    requires Owned(sb, disk0, inodes, owner) && |disk| == |disk0| && j in inodes && !IsChr(inodes[j].mode)
    requires forall b :: sb.fstDataZone <= b < |disk0| ==> disk[b] == disk0[b]
    ensures SameZones(disk0, disk, inodes[j]) && SameFile(disk0, disk, inodes[j], inodes[j])
  {
    forall s: Slot | s.ino == j && IsSlot(inodes, s) ensures ZoneIn(disk0, inodes[j], s) != |disk0| + 0x1_0000 {
    }
    OtherFileUntouched(sb, disk0, disk, inodes, owner, j, |disk0| + 0x1_0000);
    UntouchedSame(disk0, disk, inodes[j]);
  }

  /** What another inode stores is not among the zones of this one. */
  lemma OthersNotOwned(sb: SuperBlock, disk: Disk, inodes: Inodes, owner: map<nat, Slot>, ino: nat, s: Slot)
    requires Owned(sb, disk, inodes, owner) && IsSlot(inodes, Table(ino)) && IsSlot(inodes, s) && s.ino != ino
    requires ZoneIn(disk, inodes[s.ino], s) != 0
    ensures !Owns(disk, inodes[ino], ZoneIn(disk, inodes[s.ino], s))
  {
    var z, ip := ZoneIn(disk, inodes[s.ino], s), inodes[ino];
    if Owns(disk, ip, z) {
      if z == ip.zone[NDIRECT] {
        OwnedIsExclusive(sb, disk, inodes, owner, s, Table(ino));
      } else {
        var bn :| 0 <= bn < MAXFILE && ZoneAt(disk, ip, bn) == z;
        OwnedIsExclusive(sb, disk, inodes, owner, s, Data(ino, bn));
      }
    }
  }

  /** One round of a loop that frees zones: block bn's zone joins the freed ones. */
  lemma FreeBlockStep(sb: SuperBlock, ipb: nat, disk0: Disk, disk: Disk, held: map<nat, Held>, stale: set<nat>,
                      ic: seq<MemInode>, inodes: Inodes, owner: map<nat, Slot>, ino: nat, bn: nat)
    requires Inv(sb, ipb, disk0, held, stale, ic, inodes, owner) && IsSlot(inodes, Table(ino)) && bn < MAXFILE
    requires WellFormedInode(inodes[ino]) && ZoneAt(disk0, inodes[ino], bn) != 0
    requires Freeing(sb, ipb, disk0, disk, ZonesBelow(disk0, inodes[ino], bn))
    ensures var z := ZoneAt(disk0, inodes[ino], bn);
            && InUse(sb, disk, z) && z != inodes[ino].zone[NDIRECT]
            && Freeing(sb, ipb, disk0, Freed(sb, disk, z), ZonesBelow(disk0, inodes[ino], bn + 1))
  {
    NotYetFreed(sb, disk0, inodes, owner, ino, bn);
    FreeStep(sb, ipb, disk0, disk, ZonesBelow(disk0, inodes[ino], bn), ZoneAt(disk0, inodes[ino], bn));
  }

  /** The holders of other files' blocks are not disturbed by what is freed here. */
  lemma NotHeld(sb: SuperBlock, ipb: nat, disk: Disk, held: map<nat, Held>, stale: set<nat>, ic: seq<MemInode>,
                inodes: Inodes, owner: map<nat, Slot>, k: nat, z: nat)
    requires Inv(sb, ipb, disk, held, stale, ic, inodes, owner) && Locked(ic, inodes, owner, held, k)
    requires WellFormedInode(ic[k].d) && Owns(disk, ic[k].d, z)
    ensures forall h :: h in held ==> held[h].blkno != z
  {
    var ino := ic[k].ino;
    assert IsSlot(inodes, Table(ino)) && ZoneIn(disk, ic[k].d, Table(ino)) == ic[k].d.zone[NDIRECT];
    if z != ic[k].d.zone[NDIRECT] {
      var bn :| 0 <= bn < MAXFILE && ZoneAt(disk, ic[k].d, bn) == z;
      assert IsSlot(inodes, Data(ino, bn)) && ZoneIn(disk, ic[k].d, Data(ino, bn)) == z;
    }
  }

  lemma NothingFreed(sb: SuperBlock, ipb: nat, disk: Disk)
    requires Image(sb, ipb, disk)
    ensures Freeing(sb, ipb, disk, disk, {})
  {
  }

  lemma FreeingImage(sb: SuperBlock, ipb: nat, disk0: Disk, disk: Disk, freed: set<nat>)
    requires Freeing(sb, ipb, disk0, disk, freed)
    ensures Image(sb, ipb, disk) && |disk| == |disk0|
    ensures forall b :: sb.fstDataZone <= b < |disk0| ==> disk[b] == disk0[b]
  {
  }

  lemma ClearedNone(ip: Inode)
    requires WellFormedInode(ip)
    ensures Cleared(ip, 0) == ip
  {
    assert Cleared(ip, 0).zone == ip.zone;
  }

  lemma ClearedNext(ip: Inode, i: nat)
    requires WellFormedInode(ip) && i < NDIRECT + 2
    ensures Cleared(ip, i + 1) == WithZone(Cleared(ip, i), i, 0)
    ensures ip.zone[i] == 0 ==> Cleared(ip, i + 1) == Cleared(ip, i)
  {
    assert Cleared(ip, i + 1).zone == WithZone(Cleared(ip, i), i, 0).zone;
    if ip.zone[i] == 0 {
      assert Cleared(ip, i + 1).zone == Cleared(ip, i).zone;
    }
  }

  lemma NothingToFree(disk: Disk, ip: Inode, bn: nat)
    requires WellFormedInode(ip) && bn < MAXFILE && ZoneAt(disk, ip, bn) == 0
    ensures ZonesBelow(disk, ip, bn + 1) == ZonesBelow(disk, ip, bn)
  {
  }

  lemma ClearedTable(ip: Inode)
    requires WellFormedInode(ip)
    ensures Cleared(ip, NDIRECT).zone[NDIRECT] == ip.zone[NDIRECT]
  {
  }

  lemma {:induction false} NoMoreZones(disk: Disk, ip: Inode, bn: nat)
    requires WellFormedInode(ip) && NDIRECT <= bn <= MAXFILE && ip.zone[NDIRECT] == 0
    ensures ZonesBelow(disk, ip, bn) == ZonesBelow(disk, ip, NDIRECT)
  {
    if bn > NDIRECT {
      NoMoreZones(disk, ip, bn - 1);
    }
  }

  /** Without a table the direct zones are all there is. */
  lemma NoEntries(sb: SuperBlock, ipb: nat, disk0: Disk, disk: Disk, ip: Inode)
    requires WellFormedInode(ip) && ip.zone[NDIRECT] == 0
    requires Freeing(sb, ipb, disk0, disk, ZonesBelow(disk0, ip, NDIRECT))
    ensures Freeing(sb, ipb, disk0, disk, AllZones(disk0, ip))
  {
    NoMoreZones(disk0, ip, MAXFILE);
    assert AllZones(disk0, ip) == ZonesBelow(disk0, ip, NDIRECT);
  }

  /** The entry of block NDIRECT + j as the buffer still has it. */
  ghost predicate RestOfTable(disk0: Disk, ip: Inode, zone2: Block, j: nat)
    requires WellFormedInode(ip)
  {
    forall k :: j <= k < NINDIRECT ==> Word(zone2, k) == ZoneAt(disk0, ip, NDIRECT + k)
  }

  lemma EntryCleared(disk0: Disk, ip: Inode, zone2: Block, j: nat)
    requires WellFormedInode(ip) && j < NINDIRECT && RestOfTable(disk0, ip, zone2, j)
    ensures RestOfTable(disk0, ip, zone2, j + 1)
    ensures RestOfTable(disk0, ip, SetWord(zone2, j, 0), j + 1)
  {
    SetWordAt(zone2, j, 0);
  }

  /** The last step: the table itself. */
  lemma FreeTableStep(sb: SuperBlock, ipb: nat, disk0: Disk, disk: Disk, inodes: Inodes, owner: map<nat, Slot>,
                      ino: nat)
    requires Owned(sb, disk0, inodes, owner) && IsSlot(inodes, Table(ino)) && inodes[ino].zone[NDIRECT] != 0
    requires Freeing(sb, ipb, disk0, disk, ZonesBelow(disk0, inodes[ino], MAXFILE))
    ensures var z := inodes[ino].zone[NDIRECT];
            && InUse(sb, disk, z)
            && Freeing(sb, ipb, disk0, Freed(sb, disk, z), AllZones(disk0, inodes[ino]))
  {
    NotYetFreed(sb, disk0, inodes, owner, ino, MAXFILE);
    FreeStep(sb, ipb, disk0, disk, ZonesBelow(disk0, inodes[ino], MAXFILE), inodes[ino].zone[NDIRECT]);
    assert AllZones(disk0, inodes[ino]) == ZonesBelow(disk0, inodes[ino], MAXFILE) + {inodes[ino].zone[NDIRECT] as nat};
  }

  lemma StaleTable(sb: SuperBlock, disk: Disk, held: map<nat, Held>, stale: set<nat>, z: nat)
    requires Quiet(sb, disk, held, stale) && z >= sb.fstDataZone
    ensures Quiet(sb, disk, held, stale + {z})
  {
  }

  lemma QuietWithout(sb: SuperBlock, disk: Disk, held: map<nat, Held>, stale: set<nat>, bp: nat)
    requires Quiet(sb, disk, held, stale)
    ensures Quiet(sb, disk, held - {bp}, stale)
  {
  }

  /** A block of the locked inode with a zone number: that zone is neither its table nor held by others. */
  lemma EntryFreeable(sb: SuperBlock, ipb: nat, disk0: Disk, held0: map<nat, Held>, stale0: set<nat>,
                      ic0: seq<MemInode>,
                      inodes: Inodes, owner: map<nat, Slot>, k: nat, bn: nat, bp: nat, data: Block)
    requires Inv(sb, ipb, disk0, held0, stale0, ic0, inodes, owner) && Locked(ic0, inodes, owner, held0, k)
    requires WellFormedInode(ic0[k].d) && bn < MAXFILE && ZoneAt(disk0, ic0[k].d, bn) != 0
    ensures var held := held0[bp := Held(ic0[k].d.zone[NDIRECT], data)];
            forall h :: h in held ==> held[h].blkno != ZoneAt(disk0, ic0[k].d, bn)
  {
    NotHeld(sb, ipb, disk0, held0, stale0, ic0, inodes, owner, k, ZoneAt(disk0, ic0[k].d, bn));
    assert IsSlot(inodes, Table(ic0[k].ino));
    NotYetFreed(sb, disk0, inodes, owner, ic0[k].ino, bn);
  }

  lemma QuietStore(sb: SuperBlock, disk: Disk, held: map<nat, Held>, stale: set<nat>, bp: nat, data: Block)
    requires Quiet(sb, disk, held, stale) && bp in held
    ensures Quiet(sb, disk, held[bp := Held(held[bp].blkno, data)], stale)
  {
  }

  lemma InvOwned(sb: SuperBlock, ipb: nat, disk: Disk, held: map<nat, Held>, stale: set<nat>, ic: seq<MemInode>,
                 inodes: Inodes, owner: map<nat, Slot>)
    requires Inv(sb, ipb, disk, held, stale, ic, inodes, owner)
    ensures Owned(sb, disk, inodes, owner)
  {
  }

  /** The table's buffer, read while the direct zones are already free. */
  lemma TableHeld(sb: SuperBlock, ipb: nat, disk0: Disk, disk: Disk, held0: map<nat, Held>, stale0: set<nat>,
                  inodes: Inodes, owner: map<nat, Slot>, ino: nat, bp: nat, h: Held)
    requires Owned(sb, disk0, inodes, owner) && IsSlot(inodes, Table(ino)) && inodes[ino].zone[NDIRECT] != 0
    requires inodes[ino].zone[NDIRECT] < |disk0|
    requires h == Held(inodes[ino].zone[NDIRECT], disk0[inodes[ino].zone[NDIRECT]])
    requires Quiet(sb, disk, held0, stale0) && Freeing(sb, ipb, disk0, disk, ZonesBelow(disk0, inodes[ino], NDIRECT))
    ensures Quiet(sb, disk, held0[bp := h], stale0)
    ensures RestOfTable(disk0, inodes[ino], h.data, 0)
  {
    NotYetFreed(sb, disk0, inodes, owner, ino, NDIRECT);
  }

  /** The disk inode is written last. */
  lemma AfterUpdate(sb: SuperBlock, ipb: nat, disk0: Disk, disk1: Disk, disk2: Disk, inodes: Inodes, ino: nat,
                    ip0: Inode)
    requires WellFormedInode(ip0) && Returned(sb, disk0, disk1, ip0) && OthersRead(disk0, disk1, inodes, ino)
    requires Updated(sb, ipb, disk1, disk2, inodes, ino) && SameInodeMap(sb, disk0, disk1)
    ensures SameInodeMap(sb, disk0, disk2)
    ensures Returned(sb, disk0, disk2, ip0) && OthersRead(disk0, disk2, inodes, ino)
    ensures ino >= 1 && 0 < ipb * DINODE <= BSIZE && DiskInode(sb, ipb, disk2, ino) == inodes[ino]
  {
    forall y | IsDataZone(sb, y) ensures InUse(sb, disk2, y) == InUse(sb, disk1, y) {
      assert y in FreeZones(sb, disk2) <==> y in FreeZones(sb, disk1);
    }
    forall j | j in inodes && j != ino && !IsChr(inodes[j].mode) ensures SameFile(disk0, disk2, inodes[j], inodes[j]) {
      SameFileTwice(disk0, disk1, disk2, inodes[j]);
    }
  }
}
