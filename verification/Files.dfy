/** What the zone numbers of the inodes mean: file bytes, and which file block owns which zone. */
module Files {
  import opened Minix
  import opened Bitmap

  const MAXSIZE: nat := 531456 // MAXFILE * BSIZE

  function BlockAt(disk: Disk, z: nat): Block { if z < |disk| then disk[z] else ZeroBlock() }

  /** The zone number stored for block bn of a file, 0 for none. */
  function ZoneAt(disk: Disk, ip: Inode, bn: nat): (z: U16)
    requires WellFormedInode(ip) && bn < MAXFILE
  {
    if bn < NDIRECT then ip.zone[bn]
    else if ip.zone[NDIRECT] == 0 then 0
    else Word(BlockAt(disk, ip.zone[NDIRECT]), bn - NDIRECT)
  }

  /** The byte at offset i; a block without a zone reads as zeros. */
  function ByteAt(disk: Disk, ip: Inode, i: nat): Byte
    requires WellFormedInode(ip) && i < MAXSIZE
  {
    var z := ZoneAt(disk, ip, i / BSIZE);
    if z == 0 then 0 else BlockAt(disk, z)[i % BSIZE]
  }

  /** The file: its first `size` bytes. */
  function Contents(disk: Disk, ip: Inode): (s: seq<Byte>)
    requires WellFormedInode(ip) && ip.size <= MAXSIZE
    ensures |s| == ip.size
  {
    seq(ip.size, i requires 0 <= i < ip.size => ByteAt(disk, ip, i))
  }

  /** A place that stores a zone number: block bn of a file, or its indirect table. */
  datatype Slot = Data(ino: nat, bn: nat) | Table(ino: nat)

  type Inodes = map<nat, Inode>

  predicate IsSlot(inodes: Inodes, s: Slot) {
    s.ino in inodes && !IsChr(inodes[s.ino].mode) && (s.Data? ==> s.bn < MAXFILE)
  }

  ghost predicate WellFormed(inodes: Inodes) {
    forall ino :: ino in inodes ==> WellFormedInode(inodes[ino]) && inodes[ino].size <= MAXSIZE
  }

  function ZoneIn(disk: Disk, ip: Inode, s: Slot): U16
    requires WellFormedInode(ip) && (s.Data? ==> s.bn < MAXFILE)
  {
    match s
    case Data(_, bn) => ZoneAt(disk, ip, bn)
    case Table(_) => ip.zone[NDIRECT]
  }

  /** Every zone number stored in a regular file or directory is a used data zone, and `owner`
      names the one slot that stores it. */
  ghost predicate Owned(sb: SuperBlock, disk: Disk, inodes: Inodes, owner: map<nat, Slot>) {
    && WellFormed(inodes)
    && forall s: Slot :: IsSlot(inodes, s) && ZoneIn(disk, inodes[s.ino], s) != 0 ==>
         && InUse(sb, disk, ZoneIn(disk, inodes[s.ino], s))
         && ZoneIn(disk, inodes[s.ino], s) in owner
         && owner[ZoneIn(disk, inodes[s.ino], s)] == s
  }

  /** No zone is reachable by two paths. */
  lemma OwnedIsExclusive(sb: SuperBlock, disk: Disk, inodes: Inodes, owner: map<nat, Slot>, s: Slot, t: Slot)
    requires Owned(sb, disk, inodes, owner) && IsSlot(inodes, s) && IsSlot(inodes, t)
    requires ZoneIn(disk, inodes[s.ino], s) == ZoneIn(disk, inodes[t.ino], t) != 0
    ensures s == t
  {
  }

  // ---------------------------------------------------------------------------------------
  // Frames

  /** The blocks an inode reaches are the same on both disks. */
  ghost predicate Untouched(disk: Disk, disk': Disk, ip: Inode)
    requires WellFormedInode(ip)
  {
    && (ip.zone[NDIRECT] != 0 ==> BlockAt(disk', ip.zone[NDIRECT]) == BlockAt(disk, ip.zone[NDIRECT]))
    && forall bn :: 0 <= bn < MAXFILE && ZoneAt(disk, ip, bn) != 0 ==>
         BlockAt(disk', ZoneAt(disk, ip, bn)) == BlockAt(disk, ZoneAt(disk, ip, bn))
  }

  /** Every byte reads the same, and every block that had a zone has one. */
  ghost predicate SameFile(disk: Disk, disk': Disk, ip: Inode, ip': Inode)
    requires WellFormedInode(ip) && WellFormedInode(ip')
  {
    && (forall i :: 0 <= i < MAXSIZE ==> ByteAt(disk', ip', i) == ByteAt(disk, ip, i))
    && (forall bn :: 0 <= bn < MAXFILE && ZoneAt(disk, ip, bn) != 0 ==> ZoneAt(disk', ip', bn) != 0)
  }

  ghost predicate SameZones(disk: Disk, disk': Disk, ip: Inode)
    requires WellFormedInode(ip)
  {
    forall bn :: 0 <= bn < MAXFILE ==> ZoneAt(disk', ip, bn) == ZoneAt(disk, ip, bn)
  }

  lemma UntouchedSame(disk: Disk, disk': Disk, ip: Inode)
    requires WellFormedInode(ip) && Untouched(disk, disk', ip)
    ensures SameZones(disk, disk', ip)
    ensures SameFile(disk, disk', ip, ip)
  {
    forall i | 0 <= i < MAXSIZE ensures ByteAt(disk', ip, i) == ByteAt(disk, ip, i) {
      assert ZoneAt(disk', ip, i / BSIZE) == ZoneAt(disk, ip, i / BSIZE);
    }
  }

  lemma SameContents(disk: Disk, disk': Disk, ip: Inode, ip': Inode)
    requires WellFormedInode(ip) && WellFormedInode(ip') && ip.size == ip'.size <= MAXSIZE
    requires SameFile(disk, disk', ip, ip')
    ensures Contents(disk', ip') == Contents(disk, ip)
  {
  }

  /** `disk'` differs from `disk` in metadata and in block z only. */
  ghost predicate OnlyZone(sb: SuperBlock, disk: Disk, disk': Disk, z: nat) {
    |disk'| == |disk| && forall b :: sb.fstDataZone <= b < |disk| && b != z ==> disk'[b] == disk[b]
  }

  /** An inode that does not reach z does not notice. */
  lemma OtherFileUntouched(sb: SuperBlock, disk: Disk, disk': Disk, inodes: Inodes, owner: map<nat, Slot>, ino: nat,
                           z: nat)
    requires Owned(sb, disk, inodes, owner) && OnlyZone(sb, disk, disk', z)
    requires ino in inodes && !IsChr(inodes[ino].mode)
    requires forall s: Slot :: s.ino == ino && IsSlot(inodes, s) ==> ZoneIn(disk, inodes[ino], s) != z
    ensures Untouched(disk, disk', inodes[ino])
  {
    var ip := inodes[ino];
    if ip.zone[NDIRECT] != 0 {
      assert ZoneIn(disk, ip, Table(ino)) == ip.zone[NDIRECT];
    }
    forall bn | 0 <= bn < MAXFILE && ZoneAt(disk, ip, bn) != 0
      ensures BlockAt(disk', ZoneAt(disk, ip, bn)) == BlockAt(disk, ZoneAt(disk, ip, bn))
    {
      assert ZoneIn(disk, ip, Data(ino, bn)) == ZoneAt(disk, ip, bn);
    }
  }

  // ---------------------------------------------------------------------------------------
  // bmap's three ways of adding a zone

  /** z became used; every other data zone kept its bit. */
  ghost predicate TakesZone(sb: SuperBlock, disk: Disk, disk': Disk, z: nat) {
    && IsDataZone(sb, z) && !InUse(sb, disk, z)
    && forall y :: IsDataZone(sb, y) ==> InUse(sb, disk', y) == (y == z || InUse(sb, disk, y))
  }

  /** Storing the fresh zone z in slot s, and nowhere else, keeps ownership exclusive. */
  lemma AddZone(sb: SuperBlock, disk: Disk, disk': Disk, inodes: Inodes, ip': Inode, owner: map<nat, Slot>, s: Slot,
                z: nat)
    requires Owned(sb, disk, inodes, owner) && TakesZone(sb, disk, disk', z)
    requires IsSlot(inodes, s) && WellFormedInode(ip') && ip'.size <= MAXSIZE && ip'.mode == inodes[s.ino].mode
    requires ZoneIn(disk', ip', s) == z
    requires forall t: Slot :: t.ino == s.ino && t != s && IsSlot(inodes, t) ==>
               ZoneIn(disk', ip', t) == ZoneIn(disk, inodes[s.ino], t)
    requires forall j :: j in inodes && j != s.ino && !IsChr(inodes[j].mode) ==> SameZones(disk, disk', inodes[j])
    ensures Owned(sb, disk', inodes[s.ino := ip'], owner[z := s])
  {
    var inodes' := inodes[s.ino := ip'];
    forall t: Slot | IsSlot(inodes', t) && ZoneIn(disk', inodes'[t.ino], t) != 0
      ensures InUse(sb, disk', ZoneIn(disk', inodes'[t.ino], t))
      ensures ZoneIn(disk', inodes'[t.ino], t) in owner[z := s]
      ensures owner[z := s][ZoneIn(disk', inodes'[t.ino], t)] == t
    {
      assert IsSlot(inodes, t);
      if t != s {
        assert ZoneIn(disk', inodes'[t.ino], t) == ZoneIn(disk, inodes[t.ino], t);
      }
    }
  }

  /** A data zone whose bit is clear is stored nowhere. */
  lemma FreeZoneUnreachable(sb: SuperBlock, disk: Disk, inodes: Inodes, owner: map<nat, Slot>, z: nat)
    requires Owned(sb, disk, inodes, owner) && !InUse(sb, disk, z) && z != 0
    ensures forall s: Slot :: IsSlot(inodes, s) ==> ZoneIn(disk, inodes[s.ino], s) != z
  {
  }

  /** No other file notices that z was taken. */
  lemma OthersUntouched(sb: SuperBlock, disk: Disk, disk': Disk, inodes: Inodes, owner: map<nat, Slot>, ino: nat,
                        z: nat)
    requires Owned(sb, disk, inodes, owner) && OnlyZone(sb, disk, disk', z)
    requires forall s: Slot :: s.ino != ino && IsSlot(inodes, s) ==> ZoneIn(disk, inodes[s.ino], s) != z
    ensures forall j :: j in inodes && j != ino && !IsChr(inodes[j].mode) ==>
              SameZones(disk, disk', inodes[j]) && SameFile(disk, disk', inodes[j], inodes[j])
  {
    forall j | j in inodes && j != ino && !IsChr(inodes[j].mode)
      ensures SameZones(disk, disk', inodes[j]) && SameFile(disk, disk', inodes[j], inodes[j])
    {
      OtherFileUntouched(sb, disk, disk', inodes, owner, j, z);
      UntouchedSame(disk, disk', inodes[j]);
    }
  }

  lemma AllocatedTakes(sb: SuperBlock, ipb: nat, disk: Disk, z: nat)
    requires Image(sb, ipb, disk) && IsDataZone(sb, z) && !InUse(sb, disk, z)
    ensures TakesZone(sb, disk, Allocated(sb, disk, z), z)
    ensures OnlyZone(sb, disk, Allocated(sb, disk, z), z)
    ensures Image(sb, ipb, Allocated(sb, disk, z))
    ensures BlockAt(Allocated(sb, disk, z), z) == ZeroBlock()
    ensures z >= 2
  {
    AllocatedReady(sb, ipb, disk, map[], {}, z);
    MarkKeepsImage(sb, ipb, disk, z, true);
  }

  function WithZone(ip: Inode, i: nat, z: U16): (r: Inode)
    requires WellFormedInode(ip) && i < NDIRECT + 2
    ensures WellFormedInode(r)
  {
    ip.(zone := ip.zone[i := z])
  }

  /** What adding a zone does to inode `ino`: still owned, all files read the same. */
  ghost predicate Grows(sb: SuperBlock, disk: Disk, disk': Disk, inodes: Inodes, ip': Inode, owner: map<nat, Slot>,
                        s: Slot, z: nat)
    requires WellFormed(inodes) && s.ino in inodes && WellFormedInode(ip')
  {
    && Owned(sb, disk', inodes[s.ino := ip'], owner[z := s])
    && SameFile(disk, disk', inodes[s.ino], ip')
    && (forall j :: j in inodes && j != s.ino && !IsChr(inodes[j].mode) ==>
          SameZones(disk, disk', inodes[j]) && SameFile(disk, disk', inodes[j], inodes[j]))
    && (forall t: Slot :: t.ino == s.ino && t != s && IsSlot(inodes, t) ==>
          ZoneIn(disk', ip', t) == ZoneIn(disk, inodes[s.ino], t))
    && (IsSlot(inodes, s) ==> ZoneIn(disk', ip', s) == z)
  }

  /** `ip->zone[bn] = balloc(dev)` */
  lemma FillDirect(sb: SuperBlock, ipb: nat, disk: Disk, inodes: Inodes, owner: map<nat, Slot>, ino: nat, bn: nat,
                   z: U16)
    requires Image(sb, ipb, disk) && Owned(sb, disk, inodes, owner)
    requires IsSlot(inodes, Data(ino, bn)) && bn < NDIRECT && inodes[ino].zone[bn] == 0
    requires IsDataZone(sb, z) && !InUse(sb, disk, z)
    ensures Grows(sb, disk, Allocated(sb, disk, z), inodes, WithZone(inodes[ino], bn, z), owner, Data(ino, bn), z)
  {
    var disk', ip, s := Allocated(sb, disk, z), inodes[ino], Data(ino, bn);
    var ip' := WithZone(ip, bn, z);
    AllocatedTakes(sb, ipb, disk, z);
    FreeZoneUnreachable(sb, disk, inodes, owner, z);
    OthersUntouched(sb, disk, disk', inodes, owner, ino, z);
    OtherFileUntouched(sb, disk, disk', inodes, owner, ino, z);
    UntouchedSame(disk, disk', ip);
    assert forall k :: 0 <= k < MAXFILE ==> ZoneAt(disk', ip', k) == if k == bn then z else ZoneAt(disk', ip, k);
    AddZone(sb, disk, disk', inodes, ip', owner, s, z);
    forall i | 0 <= i < MAXSIZE ensures ByteAt(disk', ip', i) == ByteAt(disk, ip, i) {
      assert ByteAt(disk', ip, i) == ByteAt(disk, ip, i);
    }
  }

  /** `ip->zone[NDIRECT] = balloc(dev)`: an empty table. */
  lemma FillTable(sb: SuperBlock, ipb: nat, disk: Disk, inodes: Inodes, owner: map<nat, Slot>, ino: nat, z: U16)
    requires Image(sb, ipb, disk) && Owned(sb, disk, inodes, owner)
    requires IsSlot(inodes, Table(ino)) && inodes[ino].zone[NDIRECT] == 0
    requires IsDataZone(sb, z) && !InUse(sb, disk, z)
    ensures Grows(sb, disk, Allocated(sb, disk, z), inodes, WithZone(inodes[ino], NDIRECT, z), owner, Table(ino), z)
  {
    var disk', ip := Allocated(sb, disk, z), inodes[ino];
    var ip' := WithZone(ip, NDIRECT, z);
    AllocatedTakes(sb, ipb, disk, z);
    FreeZoneUnreachable(sb, disk, inodes, owner, z);
    OthersUntouched(sb, disk, disk', inodes, owner, ino, z);
    OtherFileUntouched(sb, disk, disk', inodes, owner, ino, z);
    UntouchedSame(disk, disk', ip);
    assert forall k :: 0 <= k < NINDIRECT ==> Word(ZeroBlock(), k) == 0;
    assert forall k :: 0 <= k < MAXFILE ==> ZoneAt(disk', ip', k) == ZoneAt(disk', ip, k);
    AddZone(sb, disk, disk', inodes, ip', owner, Table(ino), z);
    forall i | 0 <= i < MAXSIZE ensures ByteAt(disk', ip', i) == ByteAt(disk, ip, i) {
      assert ByteAt(disk', ip, i) == ByteAt(disk, ip, i);
    }
  }

  /** A free zone is taken that no inode stores yet. */
  lemma TakenOwned(sb: SuperBlock, disk: Disk, disk': Disk, inodes: Inodes, owner: map<nat, Slot>, z: nat)
    requires Owned(sb, disk, inodes, owner) && TakesZone(sb, disk, disk', z) && OnlyZone(sb, disk, disk', z) && z != 0
    ensures Owned(sb, disk', inodes, owner)
    ensures forall j :: j in inodes && !IsChr(inodes[j].mode) ==>
              SameZones(disk, disk', inodes[j]) && SameFile(disk, disk', inodes[j], inodes[j])
  {
    FreeZoneUnreachable(sb, disk, inodes, owner, z);
    forall j | j in inodes && !IsChr(inodes[j].mode)
      ensures SameZones(disk, disk', inodes[j]) && SameFile(disk, disk', inodes[j], inodes[j])
    {
      OtherFileUntouched(sb, disk, disk', inodes, owner, j, z);
      UntouchedSame(disk, disk', inodes[j]);
    }
    forall s: Slot | IsSlot(inodes, s)
      ensures ZoneIn(disk', inodes[s.ino], s) == ZoneIn(disk, inodes[s.ino], s)
    {
      assert SameZones(disk, disk', inodes[s.ino]);
    }
  }

  /** The disk after bmap has stored the fresh zone z in the table. */
  ghost function EntryStored(sb: SuperBlock, disk: Disk, table: nat, j: nat, z: U16): (d: Disk)
    requires IsDataZone(sb, z) && z < |disk| && table < |disk| && j < NINDIRECT
    ensures |d| == |disk|
  {
    Allocated(sb, disk, z)[table := SetWord(disk[table], j, z)]
  }

  /** `zone2[bn] = balloc(dev)` and the write of the table. */
  lemma FillEntry(sb: SuperBlock, ipb: nat, disk: Disk, inodes: Inodes, owner: map<nat, Slot>, ino: nat, bn: nat,
                  z: U16)
    requires Image(sb, ipb, disk) && Owned(sb, disk, inodes, owner)
    requires IsSlot(inodes, Data(ino, bn)) && bn >= NDIRECT && inodes[ino].zone[NDIRECT] != 0
    requires ZoneAt(disk, inodes[ino], bn) == 0
    requires IsDataZone(sb, z) && !InUse(sb, disk, z)
    ensures inodes[ino].zone[NDIRECT] < |disk|
    ensures Grows(sb, disk, EntryStored(sb, disk, inodes[ino].zone[NDIRECT], bn - NDIRECT, z), inodes, inodes[ino],
                  owner, Data(ino, bn), z)
  {
    hide SetWord, Word, ByteAt, Allocated;
    var disk1, ip := Allocated(sb, disk, z), inodes[ino];
    var t := ip.zone[NDIRECT];
    assert ZoneIn(disk, ip, Table(ino)) == t && IsSlot(inodes, Table(ino));
    var disk2 := EntryStored(sb, disk, t, bn - NDIRECT, z);
    AllocatedTakes(sb, ipb, disk, z);
    TakenOwned(sb, disk, disk1, inodes, owner, z);
    EntryOthers(sb, disk1, disk2, inodes, owner, ino);
    EntryTakes(sb, ipb, disk, t, bn - NDIRECT, z);
    EntryZones(sb, disk, ip, bn, z);
    EntryKeepsBytes(sb, disk1, disk2, inodes, owner, ino, bn, z);
    assert inodes[ino := ip] == inodes;
    AddZone(sb, disk, disk2, inodes, ip, owner, Data(ino, bn), z);
  }

  lemma EntryTakes(sb: SuperBlock, ipb: nat, disk: Disk, t: nat, j: nat, z: U16)
    requires Image(sb, ipb, disk) && IsDataZone(sb, z) && IsDataZone(sb, t) && t < |disk| && j < NINDIRECT
    requires TakesZone(sb, disk, Allocated(sb, disk, z), z) && Image(sb, ipb, Allocated(sb, disk, z))
    ensures TakesZone(sb, disk, EntryStored(sb, disk, t, j, z), z)
  {
    DataWriteKeepsImage(sb, ipb, Allocated(sb, disk, z), t, SetWord(disk[t], j, z));
    hide Allocated, SetWord, Image;
  }

  lemma EntryZones(sb: SuperBlock, disk: Disk, ip: Inode, bn: nat, z: U16)
    requires IsDataZone(sb, z) && z < |disk| && WellFormedInode(ip) && NDIRECT <= bn < MAXFILE
    requires ip.zone[NDIRECT] != 0 && ip.zone[NDIRECT] < |disk|
    requires Allocated(sb, disk, z)[ip.zone[NDIRECT]] == disk[ip.zone[NDIRECT]]
    ensures forall k :: 0 <= k < MAXFILE ==>
              ZoneAt(EntryStored(sb, disk, ip.zone[NDIRECT], bn - NDIRECT, z), ip, k)
              == if k == bn then z else ZoneAt(Allocated(sb, disk, z), ip, k)
  {
    var t := ip.zone[NDIRECT];
    SetWordAt(disk[t], bn - NDIRECT, z);
    assert |Allocated(sb, disk, z)| == |disk|;
    hide Allocated, SetWord, Word;
    assert BlockAt(EntryStored(sb, disk, t, bn - NDIRECT, z), t) == SetWord(disk[t], bn - NDIRECT, z);
    assert BlockAt(Allocated(sb, disk, z), t) == disk[t];
    forall k | 0 <= k < MAXFILE
      ensures ZoneAt(EntryStored(sb, disk, t, bn - NDIRECT, z), ip, k)
              == if k == bn then z else ZoneAt(Allocated(sb, disk, z), ip, k)
    {
      if NDIRECT <= k != bn {
        assert Word(SetWord(disk[t], bn - NDIRECT, z), k - NDIRECT) == Word(disk[t], k - NDIRECT);
      }
    }
  }

  /** The table is no zone of another file. */
  lemma EntryOthers(sb: SuperBlock, disk1: Disk, disk2: Disk, inodes: Inodes, owner: map<nat, Slot>, ino: nat)
    requires Owned(sb, disk1, inodes, owner) && IsSlot(inodes, Table(ino)) && inodes[ino].zone[NDIRECT] != 0
    requires OnlyZone(sb, disk1, disk2, inodes[ino].zone[NDIRECT])
    ensures IsDataZone(sb, inodes[ino].zone[NDIRECT])
    ensures forall j :: j in inodes && j != ino && !IsChr(inodes[j].mode) ==>
              SameZones(disk1, disk2, inodes[j]) && SameFile(disk1, disk2, inodes[j], inodes[j])
  {
    assert ZoneIn(disk1, inodes[ino], Table(ino)) == inodes[ino].zone[NDIRECT];
    OthersUntouched(sb, disk1, disk2, inodes, owner, ino, inodes[ino].zone[NDIRECT]);
  }

  /** Storing an entry for a zeroed zone changes no byte of the file. */
  lemma EntryKeepsBytes(sb: SuperBlock, disk1: Disk, disk2: Disk, inodes: Inodes, owner: map<nat, Slot>, ino: nat,
                        bn: nat, z: U16)
    requires Owned(sb, disk1, inodes, owner) && IsSlot(inodes, Data(ino, bn)) && bn >= NDIRECT
    requires inodes[ino].zone[NDIRECT] != 0 && z != 0 && z != inodes[ino].zone[NDIRECT]
    requires ZoneAt(disk1, inodes[ino], bn) == 0 && BlockAt(disk1, z) == ZeroBlock()
    requires |disk2| == |disk1|
    requires forall b :: 0 <= b < |disk1| && b != inodes[ino].zone[NDIRECT] ==> disk2[b] == disk1[b]
    requires forall k :: 0 <= k < MAXFILE ==>
               ZoneAt(disk2, inodes[ino], k) == if k == bn then z else ZoneAt(disk1, inodes[ino], k)
    ensures SameFile(disk1, disk2, inodes[ino], inodes[ino])
  {
    var ip := inodes[ino];
    assert ZoneIn(disk1, ip, Table(ino)) == ip.zone[NDIRECT] && IsSlot(inodes, Table(ino));
    forall i | 0 <= i < MAXSIZE ensures ByteAt(disk2, ip, i) == ByteAt(disk1, ip, i) {
      var k := i / BSIZE;
      if k != bn && ZoneAt(disk1, ip, k) != 0 {
        assert ZoneIn(disk1, ip, Data(ino, k)) == ZoneAt(disk1, ip, k) && IsSlot(inodes, Data(ino, k));
      }
    }
  }

  /** Writing a file block: ownership and the other files are as before, and of this file the
      bytes of the one block change. */
  lemma WriteBlock(sb: SuperBlock, ipb: nat, disk: Disk, inodes: Inodes, owner: map<nat, Slot>, ino: nat, bn: nat,
                   data: Block)
    requires Image(sb, ipb, disk) && Owned(sb, disk, inodes, owner)
    requires IsSlot(inodes, Data(ino, bn)) && ZoneAt(disk, inodes[ino], bn) != 0
    ensures ZoneAt(disk, inodes[ino], bn) < |disk|
    ensures var z := ZoneAt(disk, inodes[ino], bn);
            var disk' := disk[z := data];
            && Image(sb, ipb, disk')
            && Owned(sb, disk', inodes, owner)
            && (forall j :: j in inodes && !IsChr(inodes[j].mode) ==> SameZones(disk, disk', inodes[j]))
            && (forall j :: j in inodes && j != ino && !IsChr(inodes[j].mode) ==>
                  SameFile(disk, disk', inodes[j], inodes[j]))
            && (forall i :: 0 <= i < MAXSIZE ==>
                  ByteAt(disk', inodes[ino], i) == if i / BSIZE == bn then data[i % BSIZE]
                      else ByteAt(disk, inodes[ino], i))
  {
    var ip, z := inodes[ino], ZoneAt(disk, inodes[ino], bn);
    assert ZoneIn(disk, ip, Data(ino, bn)) == z;
    var disk' := disk[z := data];
    DataWriteKeepsImage(sb, ipb, disk, z, data);
    OthersUntouched(sb, disk, disk', inodes, owner, ino, z);
    if ip.zone[NDIRECT] != 0 {
      assert ZoneIn(disk, ip, Table(ino)) == ip.zone[NDIRECT] && IsSlot(inodes, Table(ino));
    }
    assert SameZones(disk, disk', ip);
    forall s: Slot | IsSlot(inodes, s)
      ensures ZoneIn(disk', inodes[s.ino], s) == ZoneIn(disk, inodes[s.ino], s)
    {
      assert SameZones(disk, disk', inodes[s.ino]);
    }
    forall i | 0 <= i < MAXSIZE
      ensures ByteAt(disk', ip, i) == if i / BSIZE == bn then data[i % BSIZE] else ByteAt(disk, ip, i)
    {
      var k := i / BSIZE;
      if k != bn && ZoneAt(disk, ip, k) != 0 {
        assert ZoneIn(disk, ip, Data(ino, k)) == ZoneAt(disk, ip, k) && IsSlot(inodes, Data(ino, k));
      }
    }
  }
}
