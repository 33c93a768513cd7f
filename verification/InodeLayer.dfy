/** fs/inode.c: the inode table and file contents over the buffer cache.  A `struct inode *` is
    an index into `icache`. */
module InodeLayer {
  import opened Minix
  import opened Bits
  import opened Bitmap
  import opened BufferCache
  import opened Files
  import opened FsState
  import opened Truncate
  import opened InodeRefs

  class FileSystem {
    const c: BufferCache
    const icache: array<MemInode>
    const sb: SuperBlock
    const ipb: nat // IPB
    ghost var inodes: Inodes
    ghost var owner: map<nat, Slot>

    ghost predicate Valid()
      reads this, icache, c, c.buf
    {
      && c.Valid()
      && icache.Length == NINODE
      && Inv(sb, ipb, c.disk, c.held, c.stale, icache[..], inodes, owner)
    }

    /** inode_init on a mountable image: no inode is in memory. */
    constructor (c: BufferCache, sb: SuperBlock, ipb: nat, ghost inodes: Inodes, ghost owner: map<nat, Slot>)
      requires c.Valid()
      requires Inv(sb, ipb, c.disk, c.held, c.stale, seq(NINODE, i => NoInode()), inodes, owner)
      ensures Valid() && this.c == c && this.sb == sb && this.ipb == ipb && this.inodes == inodes && fresh(icache)
      ensures forall k :: 0 <= k < NINODE ==> icache[k] == NoInode()
    {
      this.c, this.sb, this.ipb, this.inodes, this.owner := c, sb, ipb, inodes, owner;
      icache := new MemInode[NINODE](_ => NoInode());
      new;
      assert icache[..] == seq(NINODE, i => NoInode());
    }

    ghost predicate IsLocked(ip: nat)
      reads this, icache, c
    {
      Locked(icache[..], inodes, owner, c.held, ip)
    }

    /** Besides what bmap's effect says of the files: busy buffers and the other inodes in memory
        are as before, and the inode blocks too. */
    twostate predicate OnlyInode(ip: nat)
      reads this, icache, c
    {
      && ip < icache.Length && 0 < ipb * DINODE <= BSIZE
      && c.held == old(c.held) && c.stale <= old(c.stale)
      && icache[..] == old(icache[..])[ip := old(icache[ip]).(d := icache[ip].d)]
      && old(icache[ip].ino) in inodes && icache[ip].d == inodes[old(icache[ip].ino)]
      && SameInodeBlocks(sb, ipb, old(c.disk), c.disk)
    }

    /** bmap, `ip->zone[bn] = balloc(ip->dev)`. */
    method AllocDirect(ip: nat, bn: nat) returns (z: nat)
      requires Valid() && IsLocked(ip) && |c.held| < BufferList.NBUF
      requires bn < NDIRECT && ip < icache.Length && WellFormedInode(icache[ip].d) && icache[ip].d.zone[bn] == 0
      requires |FreeZones(sb, c.disk)| > 0
      modifies this`inodes, this`owner, icache, c, c.buf
      ensures Valid() && IsLocked(ip) && OnlyInode(ip)
      ensures MapEffect(sb, old(c.disk), c.disk, old(inodes), inodes, old(icache[ip].ino), bn, z)
    {
      hide BufferCache.Valid, Inv, MapEffect, Locked, FreeZones, SameInodeBlocks, Image, Quiet;
      ghost var disk0, ic0 := c.disk, icache[..];
      InvParts(sb, ipb, c.disk, c.held, c.stale, icache[..], inodes, owner);
      SomeZoneIsFree(sb, c.disk);
      z := Balloc(c, sb, ipb);
      LoadedWhenLocked(icache[..], inodes, owner, c.held, ip);
      DirectStep(sb, ipb, disk0, old(c.held), old(c.stale), ic0, inodes, owner, ip, bn, z);
      StaysLocked(sb, ipb, disk0, old(c.held), old(c.stale), ic0, inodes, owner, ip, WithZone(ic0[ip].d, bn, z),
                  Data(ic0[ip].ino, bn), z);
      icache[ip] := icache[ip].(d := WithZone(icache[ip].d, bn, z));
      inodes := inodes[icache[ip].ino := icache[ip].d];
      owner := owner[z := Data(icache[ip].ino, bn)];
      assert icache[..] == ic0[ip := icache[ip]];
    }

    /** bmap, `ip->zone[NDIRECT] = balloc(ip->dev)`. */
    method AllocTable(ip: nat)
      requires Valid() && IsLocked(ip) && |c.held| < BufferList.NBUF
      requires ip < icache.Length && WellFormedInode(icache[ip].d) && icache[ip].d.zone[NDIRECT] == 0
      requires |FreeZones(sb, c.disk)| > 0
      modifies this`inodes, this`owner, icache, c, c.buf
      ensures Valid() && IsLocked(ip) && OnlyInode(ip)
      ensures TableEffect(sb, old(c.disk), c.disk, old(inodes), inodes, old(icache[ip].ino))
    {
      hide BufferCache.Valid, Inv, TableEffect, Locked, FreeZones, SameInodeBlocks, Image, Quiet;
      ghost var disk0, ic0 := c.disk, icache[..];
      InvParts(sb, ipb, c.disk, c.held, c.stale, icache[..], inodes, owner);
      SomeZoneIsFree(sb, c.disk);
      var z := Balloc(c, sb, ipb);
      LoadedWhenLocked(icache[..], inodes, owner, c.held, ip);
      TableStep(sb, ipb, disk0, old(c.held), old(c.stale), ic0, inodes, owner, ip, z);
      StaysLocked(sb, ipb, disk0, old(c.held), old(c.stale), ic0, inodes, owner, ip,
                  WithZone(ic0[ip].d, NDIRECT, z), Table(ic0[ip].ino), z);
      icache[ip] := icache[ip].(d := WithZone(icache[ip].d, NDIRECT, z));
      inodes := inodes[icache[ip].ino := icache[ip].d];
      owner := owner[z := Table(icache[ip].ino)];
      assert icache[..] == ic0[ip := icache[ip]];
    }

    /** bmap behind the table: its buffer stays busy while balloc uses a second one. */
    method MapEntry(ip: nat, bn: nat) returns (z: nat)
      requires Valid() && IsLocked(ip) && |c.held| + 2 <= BufferList.NBUF
      requires ip < icache.Length && WellFormedInode(icache[ip].d)
      requires NDIRECT <= bn < MAXFILE && icache[ip].d.zone[NDIRECT] != 0
      requires ZoneAt(c.disk, icache[ip].d, bn) == 0 ==> |FreeZones(sb, c.disk)| > 0
      modifies this`owner, c, c.buf
      ensures Valid() && IsLocked(ip) && OnlyInode(ip)
      ensures MapEffect(sb, old(c.disk), c.disk, old(inodes), inodes, old(icache[ip].ino), bn, z)
      ensures old(ZoneAt(c.disk, icache[ip].d, bn)) != 0 ==> c.disk == old(c.disk)
    {
      hide BufferCache.Valid, Inv, MapEffect, Locked, FreeZones, SameInodeBlocks, Image, Quiet;
      ghost var ino := icache[ip].ino;
      LoadedWhenLocked(icache[..], inodes, owner, c.held, ip);
      InvParts(sb, ipb, c.disk, c.held, c.stale, icache[..], inodes, owner);
      ZoneReadable(sb, ipb, c.disk, c.held, c.stale, icache[..], inodes, owner, ip, Table(ino));
      var bp := c.Bread(icache[ip].d.zone[NDIRECT]);
      var zone2 := c.Load(bp);
      z := Word(zone2, bn - NDIRECT);
      if z == 0 {
        z := AddEntry(ip, bn, bp, old(c.held));
      } else {
        MapIdentity(sb, c.disk, inodes, ino, bn);
        c.Brelse(bp);
        assert c.held == old(c.held);
      }
      assert icache[..][ip := icache[ip]] == icache[..];
    }

    /** `zone2[bn] = balloc(ip->dev); bwrite(bp)` with the table's buffer busy, and its release. */
    method AddEntry(ip: nat, bn: nat, bp: nat, ghost held0: map<nat, Held>) returns (z: nat)
      requires c.Valid() && icache.Length == NINODE && Inv(sb, ipb, c.disk, held0, c.stale, icache[..], inodes, owner)
      requires Locked(icache[..], inodes, owner, held0, ip) && |held0| + 2 <= BufferList.NBUF
      requires ip < icache.Length && WellFormedInode(icache[ip].d)
      requires NDIRECT <= bn < MAXFILE && icache[ip].d.zone[NDIRECT] != 0 && icache[ip].d.zone[NDIRECT] < |c.disk|
      requires bp !in held0
      requires c.held == held0[bp := Held(icache[ip].d.zone[NDIRECT], c.disk[icache[ip].d.zone[NDIRECT]])]
      requires ZoneAt(c.disk, icache[ip].d, bn) == 0 && |FreeZones(sb, c.disk)| > 0
      modifies this`owner, c, c.buf
      ensures Valid() && IsLocked(ip) && c.held == held0 && c.stale <= old(c.stale)
      ensures MapEffect(sb, old(c.disk), c.disk, inodes, inodes, icache[ip].ino, bn, z)
      ensures 0 < ipb * DINODE <= BSIZE && SameInodeBlocks(sb, ipb, old(c.disk), c.disk)
    {
      hide BufferCache.Valid, Inv, MapEffect, Locked, FreeZones, SameInodeBlocks, Image, Quiet, InUse, SetWord, Loaded;
      ghost var disk0, stale0, ino := c.disk, c.stale, icache[ip].ino;
      LoadedWhenLocked(icache[..], inodes, owner, held0, ip);
      InvParts(sb, ipb, c.disk, held0, c.stale, icache[..], inodes, owner);
      ZoneReadable(sb, ipb, c.disk, held0, c.stale, icache[..], inodes, owner, ip, Table(ino));
      QuietWith(sb, c.disk, held0, c.stale, bp, c.held[bp]);
      SomeZoneIsFree(sb, c.disk);
      z := Balloc(c, sb, ipb);
      EntryStep(sb, ipb, disk0, held0, stale0, icache[..], inodes, owner, ip, bn, z);
      StaysLocked(sb, ipb, disk0, held0, stale0, icache[..], inodes, owner, ip, icache[ip].d, Data(ino, bn), z);
      var zone2 := c.Load(bp);
      WriteAndRelease(c, bp, SetWord(zone2, bn - NDIRECT, z));
      assert c.stale == stale0 - {z};
      assert c.disk == EntryStored(sb, disk0, icache[ip].d.zone[NDIRECT], bn - NDIRECT, z);
      owner := owner[z := Data(ino, bn)];
      assert inodes[ino := icache[ip].d] == inodes;
      assert icache[..][ip := icache[ip].(d := icache[ip].d)] == icache[..];
      assert c.held == held0;
    }

    /** bmap: the zone of block bn, allocated if there is none.  Every file reads as before. */
    method Bmap(ip: nat, bn: nat) returns (z: nat)
      requires Valid() && IsLocked(ip) && |c.held| + 2 <= BufferList.NBUF
      requires ip < icache.Length && WellFormedInode(icache[ip].d) && bn < MAXFILE
      requires |FreeZones(sb, c.disk)| >= Need(c.disk, icache[ip].d, bn, bn + 1)
      modifies this`inodes, this`owner, icache, c, c.buf
      ensures Valid() && IsLocked(ip) && OnlyInode(ip)
      ensures MapEffect(sb, old(c.disk), c.disk, old(inodes), inodes, old(icache[ip].ino), bn, z)
      ensures old(Need(c.disk, icache[ip].d, bn, bn + 1)) == 0 ==> c.disk == old(c.disk) && inodes == old(inodes)
    {
      hide BufferCache.Valid, Inv, MapEffect, Locked, FreeZones, SameInodeBlocks, Image, Quiet, TableEffect, Word;
      LoadedWhenLocked(icache[..], inodes, owner, c.held, ip);
      InvParts(sb, ipb, c.disk, c.held, c.stale, icache[..], inodes, owner);
      assert Holes(c.disk, icache[ip].d, bn + 1, bn + 1) == 0;
      if bn < NDIRECT {
        z := icache[ip].d.zone[bn];
        if z == 0 {
          z := AllocDirect(ip, bn);
        } else {
          MapIdentity(sb, c.disk, inodes, icache[ip].ino, bn);
          assert icache[..][ip := icache[ip]] == icache[..];
        }
        return;
      }
      z := BmapIndirect(ip, bn);
    }

    /** bmap past the direct zones. */
    method BmapIndirect(ip: nat, bn: nat) returns (z: nat)
      requires Valid() && IsLocked(ip) && |c.held| + 2 <= BufferList.NBUF
      requires ip < icache.Length && WellFormedInode(icache[ip].d) && NDIRECT <= bn < MAXFILE
      requires |FreeZones(sb, c.disk)| >= Need(c.disk, icache[ip].d, bn, bn + 1)
      modifies this`inodes, this`owner, icache, c, c.buf
      ensures Valid() && IsLocked(ip) && OnlyInode(ip)
      ensures MapEffect(sb, old(c.disk), c.disk, old(inodes), inodes, old(icache[ip].ino), bn, z)
      ensures old(Need(c.disk, icache[ip].d, bn, bn + 1)) == 0 ==> c.disk == old(c.disk) && inodes == old(inodes)
    {
      hide BufferCache.Valid, Inv, MapEffect, Locked, FreeZones, SameInodeBlocks, Image, Quiet, TableEffect, Word;
      ghost var disk0, inodes0, ino := c.disk, inodes, icache[ip].ino;
      assert Holes(c.disk, icache[ip].d, bn + 1, bn + 1) == 0;
      if icache[ip].d.zone[NDIRECT] == 0 {
        AllocTable(ip);
        TableFacts(sb, disk0, c.disk, inodes0, inodes, ino, bn);
        ghost var disk1, inodes1 := c.disk, inodes;
        z := MapEntry(ip, bn);
        TableThenMap(sb, disk0, disk1, c.disk, inodes0, inodes1, inodes, ino, bn, z);
        InodeBlocksCompose(sb, ipb, disk0, disk1, c.disk);
      } else {
        z := MapEntry(ip, bn);
      }
    }

    /** One round of iread's loop: m bytes that lie in one block. */
    method ReadChunk(ip: nat, off: nat, m: nat) returns (chunk: seq<Byte>, ghost z: nat)
      requires Valid() && IsLocked(ip) && |c.held| + 2 <= BufferList.NBUF
      requires ip < icache.Length && WellFormedInode(icache[ip].d)
      requires 0 < m && off % BSIZE + m <= BSIZE && off / BSIZE < MAXFILE
      requires |FreeZones(sb, c.disk)| >= Need(c.disk, icache[ip].d, off / BSIZE, off / BSIZE + 1)
      modifies this`inodes, this`owner, icache, c, c.buf
      ensures Valid() && IsLocked(ip) && OnlyInode(ip)
      ensures MapEffect(sb, old(c.disk), c.disk, old(inodes), inodes, old(icache[ip].ino), off / BSIZE, z)
      ensures WellFormedInode(icache[ip].d)
      ensures |chunk| == m
      ensures forall i :: off <= i < off + m && i < MAXSIZE ==> chunk[i - off] == ByteAt(c.disk, icache[ip].d, i)
      ensures old(Need(c.disk, icache[ip].d, off / BSIZE, off / BSIZE + 1)) == 0 ==>
                c.disk == old(c.disk) && inodes == old(inodes)
    {
      hide BufferCache.Valid, Inv, MapEffect, Locked, FreeZones, SameInodeBlocks, Need;
      ghost var ino := icache[ip].ino;
      var zno := Bmap(ip, off / BSIZE);
      z := zno;
      MapExtends(sb, old(c.disk), c.disk, old(inodes), inodes, ino, off / BSIZE, z);
      ZoneReadable(sb, ipb, c.disk, c.held, c.stale, icache[..], inodes, owner, ip, Data(ino, off / BSIZE));
      var data := CopyOut(c, zno);
      chunk := data[off % BSIZE..off % BSIZE + m];
      forall i | off <= i < off + m && i < MAXSIZE ensures chunk[i - off] == ByteAt(c.disk, icache[ip].d, i) {
        ChunkByte(off, m, i);
      }
    }

    /** iread: the slice of the file that starts at `off`, clipped to the size.  No file changes;
        only blocks that had no zone get one. */
    method Iread(ip: nat, off: nat, n: nat) returns (r: nat, dest: seq<Byte>)
      requires Valid() && IsLocked(ip) && |c.held| + 2 <= BufferList.NBUF
      requires ip < icache.Length && WellFormedInode(icache[ip].d) && icache[ip].d.size <= MAXSIZE
      requires off <= icache[ip].d.size && off + n < 0x1_0000_0000
      requires |FreeZones(sb, c.disk)| >= ReadNeed(c.disk, icache[ip].d, off, n)
      modifies this`inodes, this`owner, icache, c, c.buf
      ensures Valid() && IsLocked(ip) && OnlyInode(ip)
      ensures r == Clipped(old(icache[ip].d), off, n)
      ensures dest == Contents(old(c.disk), old(icache[ip].d))[off..off + r]
      ensures Extended(old(c.disk), c.disk, old(inodes), inodes, old(icache[ip].ino))
      ensures icache[ip].d == old(icache[ip].d) <==> AllPresent(old(icache[ip].d), off / BSIZE, EndBlock(off, r))
      ensures old(ReadNeed(c.disk, icache[ip].d, off, n)) == 0 ==> c.disk == old(c.disk) && inodes == old(inodes)
    {
      hide BufferCache.Valid, Inv, MapEffect, Locked, FreeZones, SameInodeBlocks, Need, ReadSoFar, EndBlock,
           Extended, Image, Quiet, AllPresent, Contents;
      ghost var disk0, inodes0, ip0, ino := c.disk, inodes, icache[ip].d, icache[ip].ino;
      LoadedWhenLocked(icache[..], inodes, owner, c.held, ip);
      InvParts(sb, ipb, c.disk, c.held, c.stale, icache[..], inodes, owner);
      r := if off + n > icache[ip].d.size then icache[ip].d.size - off else n;
      var tot := 0;
      dest := [];
      ReadNothing(c.disk, inodes, ino, off);
      EndBlockBound(off, r);
      ghost var need := ReadNeed(c.disk, icache[ip].d, off, n);
      assert icache[..][ip := icache[ip].(d := ip0)] == icache[..];
      while tot < r
        invariant tot <= r && (0 < tot < r ==> (off + tot) % BSIZE == 0)
        invariant Valid() && IsLocked(ip) && OnlyInode(ip)
        invariant ReadSoFar(disk0, c.disk, inodes0, inodes, ino, off, tot, dest)
        invariant tot < r ==>
                    && WellFormedInode(icache[ip].d)
                    && |FreeZones(sb, c.disk)| >= Need(c.disk, icache[ip].d, (off + tot) / BSIZE, EndBlock(off, r))
        invariant need == 0 ==> c.disk == disk0 && inodes == inodes0
        invariant need == 0 && tot < r ==> Need(c.disk, icache[ip].d, (off + tot) / BSIZE, EndBlock(off, r)) == 0
      {
        ghost var disk1 := c.disk;
        tot, dest := ReadRound(ip, off, tot, r, dest, disk0, inodes0);
        InodeBlocksCompose(sb, ipb, disk0, disk1, c.disk);
      }
      ReadDone(disk0, c.disk, inodes0, inodes, ino, off, r, dest);
    }

    method ReadRound(ip: nat, off: nat, tot: nat, r: nat, dest: seq<Byte>, ghost disk0: Disk, ghost inodes0: Inodes)
        returns (tot': nat, dest': seq<Byte>)
      requires Valid() && IsLocked(ip) && |c.held| + 2 <= BufferList.NBUF
      requires ip < icache.Length && WellFormedInode(icache[ip].d) && icache[ip].ino in inodes0
      requires !IsChr(inodes0[icache[ip].ino].mode)
      requires tot < r && off + r <= MAXSIZE && EndBlock(off, r) <= MAXFILE && (0 < tot ==> (off + tot) % BSIZE == 0)
      requires ReadSoFar(disk0, c.disk, inodes0, inodes, icache[ip].ino, off, tot, dest)
      requires |FreeZones(sb, c.disk)| >= Need(c.disk, icache[ip].d, (off + tot) / BSIZE, EndBlock(off, r))
      modifies this`inodes, this`owner, icache, c, c.buf
      ensures Valid() && IsLocked(ip) && OnlyInode(ip)
      ensures tot < tot' <= r && (tot' < r ==> (off + tot') % BSIZE == 0)
      ensures ReadSoFar(disk0, c.disk, inodes0, inodes, old(icache[ip].ino), off, tot', dest')
      ensures WellFormedInode(icache[ip].d)
      ensures tot' < r ==> |FreeZones(sb, c.disk)| >= Need(c.disk, icache[ip].d, (off + tot') / BSIZE, EndBlock(off, r))
      ensures old(Need(c.disk, icache[ip].d, (off + tot) / BSIZE, EndBlock(off, r))) == 0 ==>
                c.disk == old(c.disk) && inodes == old(inodes)
                && (tot' < r ==> Need(c.disk, icache[ip].d, (off + tot') / BSIZE, EndBlock(off, r)) == 0)
    {
      hide BufferCache.Valid, Inv, MapEffect, Locked, FreeZones, SameInodeBlocks, Need, ReadSoFar, EndBlock;
      ghost var disk1, inodes1, ino, hi := c.disk, inodes, icache[ip].ino, EndBlock(off, r);
      var m := if r - tot < BSIZE - (off + tot) % BSIZE then r - tot else BSIZE - (off + tot) % BSIZE;
      ChunkSteps(off, tot, r, m);
      NeedFirst(c.disk, icache[ip].d, (off + tot) / BSIZE, hi);
      LoadedWhenLocked(icache[..], inodes, owner, c.held, ip);
      var chunk, z := ReadChunk(ip, off + tot, m);
      ReadMore(sb, disk0, disk1, c.disk, inodes0, inodes1, inodes, ino, off, tot, dest, chunk, z);
      MapPays(sb, disk1, c.disk, inodes1, inodes, ino, (off + tot) / BSIZE, z, hi);
      NextBlock(off, tot, m, r);
      tot', dest' := tot + m, dest + chunk;
    }

    /** bread, memcpy into the buffer, bwrite, brelse. */
    method StoreChunk(ip: nat, off: nat, chunk: seq<Byte>, z: nat)
      requires Valid() && IsLocked(ip) && |c.held| < BufferList.NBUF
      requires ip < icache.Length && WellFormedInode(icache[ip].d) && off / BSIZE < MAXFILE
      requires off % BSIZE + |chunk| <= BSIZE && z == ZoneAt(c.disk, icache[ip].d, off / BSIZE) != 0
      modifies c, c.buf
      ensures Valid() && IsLocked(ip) && OnlyInode(ip)
      ensures z < |old(c.disk)| && c.disk == old(c.disk)[z := Splice(old(c.disk)[z], off % BSIZE, chunk)]
      ensures BlockStored(sb, old(c.disk), c.disk, inodes, icache[ip].ino, off / BSIZE,
                          Splice(old(c.disk)[z], off % BSIZE, chunk))
    {
      hide BufferCache.Valid, Inv, Locked, SameInodeBlocks, Image, Quiet, BlockStored;
      ghost var disk0, stale0, held0, ino := c.disk, c.stale, c.held, icache[ip].ino;
      LoadedWhenLocked(icache[..], inodes, owner, c.held, ip);
      InvParts(sb, ipb, c.disk, c.held, c.stale, icache[..], inodes, owner);
      ZoneReadable(sb, ipb, c.disk, c.held, c.stale, icache[..], inodes, owner, ip, Data(ino, off / BSIZE));
      var bp := c.Bread(z);
      var data := c.Load(bp);
      WriteStep(sb, ipb, disk0, held0, stale0, icache[..], inodes, owner, ip, off / BSIZE,
                Splice(data, off % BSIZE, chunk));
      WriteAndRelease(c, bp, Splice(data, off % BSIZE, chunk));
      assert c.held == held0;
      assert icache[..][ip := icache[ip].(d := icache[ip].d)] == icache[..];
    }

    /** One round of iwrite's loop: `chunk` goes into one block at o.  `written` went before it. */
    method WriteRound(ip: nat, o: nat, chunk: seq<Byte>, ghost off: nat, ghost written: seq<Byte>, ghost total: nat,
                      ghost disk0: Disk, ghost inodes0: Inodes)
      requires Valid() && IsLocked(ip) && |c.held| + 2 <= BufferList.NBUF
      requires ip < icache.Length && WellFormedInode(icache[ip].d) && icache[ip].ino in inodes0
      requires !IsChr(inodes0[icache[ip].ino].mode)
      requires o == off + |written| && |written| < total && off + total <= MAXSIZE && EndBlock(off, total) <= MAXFILE
      requires 0 < |written| ==> o % BSIZE == 0
      requires |chunk| == if total - |written| < BSIZE - o % BSIZE then total - |written| else BSIZE - o % BSIZE
      requires WroteSoFar(disk0, c.disk, inodes0, inodes, icache[ip].ino, off, written)
      requires |FreeZones(sb, c.disk)| >= Need(c.disk, icache[ip].d, o / BSIZE, EndBlock(off, total))
      modifies this`inodes, this`owner, icache, c, c.buf
      ensures Valid() && IsLocked(ip) && OnlyInode(ip)
      ensures |written| + |chunk| < total ==> (o + |chunk|) % BSIZE == 0
      ensures WroteSoFar(disk0, c.disk, inodes0, inodes, old(icache[ip].ino), off, written + chunk)
      ensures WellFormedInode(icache[ip].d)
      ensures |written| + |chunk| < total ==>
                |FreeZones(sb, c.disk)| >= Need(c.disk, icache[ip].d, (o + |chunk|) / BSIZE, EndBlock(off, total))
    {
      hide BufferCache.Valid, Inv, MapEffect, Locked, FreeZones, SameInodeBlocks, Need, WroteSoFar, EndBlock, Image,
           Quiet, BlockStored;
      ghost var disk1, inodes1, ino, hi := c.disk, inodes, icache[ip].ino, EndBlock(off, total);
      ChunkSteps(off, |written|, total, |chunk|);
      NeedFirst(c.disk, icache[ip].d, o / BSIZE, hi);
      LoadedWhenLocked(icache[..], inodes, owner, c.held, ip);
      var z := Bmap(ip, o / BSIZE);
      MapExtends(sb, disk1, c.disk, inodes1, inodes, ino, o / BSIZE, z);
      MapPays(sb, disk1, c.disk, inodes1, inodes, ino, o / BSIZE, z, hi);
      NextBlock(off, |written|, |chunk|, total);
      ghost var disk2, inodes2 := c.disk, inodes;
      StoreChunk(ip, o, chunk, z);
      WroteMore(sb, disk0, disk1, disk2, c.disk, inodes0, inodes1, inodes2, ino, off, written, chunk, z);
      StoredKeepsNeed(sb, disk2, c.disk, inodes, ino, o / BSIZE, c.disk[z], o / BSIZE + 1, hi);
      InodeBlocksCompose(sb, ipb, disk1, disk2, c.disk);
    }

    /** iupdate: the inode's fields go to its 32 bytes on the disk. */
    method Iupdate(ip: nat)
      requires Valid() && |c.held| < BufferList.NBUF
      requires ip < icache.Length && icache[ip].ref > 0 && icache[ip].valid
      modifies c, c.buf
      ensures Valid() && c.held == old(c.held) && c.stale == old(c.stale)
      ensures Updated(sb, ipb, old(c.disk), c.disk, inodes, icache[ip].ino)
    {
      hide BufferCache.Valid, Inv, Image, Quiet, Updated, EncodeInode;
      ghost var held0, stale0, disk0, ino := c.held, c.stale, c.disk, icache[ip].ino;
      InvParts(sb, ipb, c.disk, c.held, c.stale, icache[..], inodes, owner);
      SlotInRange(sb, ipb, c.disk, c.held, c.stale, icache[..], inodes, owner, ip);
      UpdateStep(sb, ipb, c.disk, c.held, c.stale, icache[..], inodes, owner, ip);
      SuperBlockReadable(sb, ipb, c.disk, c.held, c.stale);
      var s := ReadSb(c);
      InodeBlockReadable(sb, ipb, c.disk, c.held, c.stale, ino);
      var bp := c.Bread(IBlk(s, ipb, icache[ip].ino));
      var data := c.Load(bp);
      WriteAndRelease(c, bp, Splice(data, InodeOffset(ipb, icache[ip].ino), EncodeInode(icache[ip].d)));
      assert c.held == held0 && c.stale == stale0;
    }

    /** iwrite's loop: all of src is stored, the size is not touched yet. */
    method StoreAll(ip: nat, src: seq<Byte>, off: nat)
      requires Valid() && IsLocked(ip) && |c.held| + 2 <= BufferList.NBUF
      requires ip < icache.Length && WellFormedInode(icache[ip].d) && off + |src| <= MAXSIZE
      requires |FreeZones(sb, c.disk)| >= WriteNeed(c.disk, icache[ip].d, off, |src|)
      modifies this`inodes, this`owner, icache, c, c.buf
      ensures Valid() && IsLocked(ip) && OnlyInode(ip)
      ensures WroteSoFar(old(c.disk), c.disk, old(inodes), inodes, old(icache[ip].ino), off, src)
    {
      hide BufferCache.Valid, Inv, Locked, FreeZones, SameInodeBlocks, Need, WroteSoFar, EndBlock, Image, Quiet;
      ghost var disk0, inodes0, ino := c.disk, inodes, icache[ip].ino;
      LoadedWhenLocked(icache[..], inodes, owner, c.held, ip);
      InvParts(sb, ipb, c.disk, c.held, c.stale, icache[..], inodes, owner);
      WroteNothing(c.disk, inodes, ino, off);
      EndBlockBound(off, |src|);
      assert icache[..][ip := icache[ip].(d := icache[ip].d)] == icache[..];
      var tot := 0;
      assert src[..0] == [];
      while tot < |src|
        invariant tot <= |src| && (0 < tot < |src| ==> (off + tot) % BSIZE == 0)
        invariant Valid() && IsLocked(ip) && OnlyInode(ip) && WellFormedInode(icache[ip].d)
        invariant WroteSoFar(disk0, c.disk, inodes0, inodes, ino, off, src[..tot])
        invariant tot < |src| ==>
                    |FreeZones(sb, c.disk)| >= Need(c.disk, icache[ip].d, (off + tot) / BSIZE, EndBlock(off, |src|))
      {
        ghost var disk1 := c.disk;
        var m := if |src| - tot < BSIZE - (off + tot) % BSIZE then |src| - tot else BSIZE - (off + tot) % BSIZE;
        WriteRound(ip, off + tot, src[tot..tot + m], off, src[..tot], |src|, disk0, inodes0);
        InodeBlocksCompose(sb, ipb, disk0, disk1, c.disk);
        assert src[..tot] + src[tot..tot + m] == src[..tot + m];
        tot := tot + m;
      }
      assert src[..tot] == src;
    }

    /** The disk copy of the inode has the same fields. */
    ghost predicate DiskAgrees(ip: nat)
      reads this, icache, c
    {
      && ip < icache.Length && 0 < ipb * DINODE <= BSIZE && icache[ip].ino >= 1
      && DiskInode(sb, ipb, c.disk, icache[ip].ino) == icache[ip].d
    }

    /** `ip->size = off; iupdate(ip)` */
    method Enlarge(ip: nat, size: nat)
      requires Valid() && IsLocked(ip) && |c.held| < BufferList.NBUF && ip < icache.Length && size <= MAXSIZE
      modifies this`inodes, icache, c, c.buf
      ensures Valid() && IsLocked(ip)
      ensures c.held == old(c.held) && c.stale == old(c.stale)
      ensures icache[..] == old(icache[..])[ip := old(icache[ip]).(d := old(icache[ip]).d.(size := size))]
      ensures inodes == old(inodes)[old(icache[ip].ino) := icache[ip].d]
      ensures Updated(sb, ipb, old(c.disk), c.disk, inodes, old(icache[ip].ino))
    {
      hide BufferCache.Valid, Inv, Locked, Updated, Image, Quiet;
      ghost var ic0 := icache[..];
      LoadedWhenLocked(ic0, inodes, owner, c.held, ip);
      SizeStep(sb, ipb, c.disk, c.held, c.stale, ic0, inodes, owner, ip, size, icache[ip].d.nlinks);
      icache[ip] := icache[ip].(d := icache[ip].d.(size := size));
      inodes := inodes[icache[ip].ino := icache[ip].d];
      assert icache[..] == ic0[ip := icache[ip]];
      Iupdate(ip);
    }

    /** `ip->nlinks++` or `ip->nlinks--`, and `iupdate(ip)`: the disk has the new count, and no file's bytes
        change. */
    method SetLinks(ip: nat, n: Byte)
      requires Valid() && IsLocked(ip) && |c.held| < BufferList.NBUF && ip < icache.Length
      requires WellFormedInode(icache[ip].d) && icache[ip].d.size <= MAXSIZE
      modifies this`inodes, icache, c, c.buf
      ensures Valid() && IsLocked(ip)
      ensures c.held == old(c.held) && c.stale == old(c.stale)
      ensures icache[..] == old(icache[..])[ip := old(icache[ip]).(d := old(icache[ip]).d.(nlinks := n))]
      ensures inodes == old(inodes)[old(icache[ip].ino) := icache[ip].d]
      ensures Updated(sb, ipb, old(c.disk), c.disk, inodes, old(icache[ip].ino))
    {
      hide BufferCache.Valid, Inv, Locked, Updated, Image, Quiet;
      ghost var ic0 := icache[..];
      LoadedWhenLocked(ic0, inodes, owner, c.held, ip);
      SizeStep(sb, ipb, c.disk, c.held, c.stale, ic0, inodes, owner, ip, icache[ip].d.size, n);
      icache[ip] := icache[ip].(d := icache[ip].d.(nlinks := n));
      inodes := inodes[icache[ip].ino := icache[ip].d];
      assert icache[..] == ic0[ip := icache[ip]];
      Iupdate(ip);
    }

    /** iwrite: the file is overwritten at `off`; only this file changes.  A write past the old end
        raises the size and updates the disk inode; one that does not leaves the disk inode as it
        was, so that memory and disk still agree exactly if no zone number had to be filled in. */
    method Iwrite(ip: nat, src: seq<Byte>, off: nat) returns (r: nat)
      requires Valid() && IsLocked(ip) && |c.held| + 2 <= BufferList.NBUF
      requires ip < icache.Length && WellFormedInode(icache[ip].d)
      requires off <= icache[ip].d.size && off + |src| <= MAXSIZE
      requires |FreeZones(sb, c.disk)| >= WriteNeed(c.disk, icache[ip].d, off, |src|)
      modifies this`inodes, this`owner, icache, c, c.buf
      ensures Valid() && IsLocked(ip) && r == |src|
      ensures c.held == old(c.held) && c.stale <= old(c.stale)
      ensures icache[..] == old(icache[..])[ip := old(icache[ip]).(d := icache[ip].d)]
      ensures FileOverwritten(old(c.disk), c.disk, old(inodes), inodes, old(icache[ip].ino), off, src)
      ensures icache[ip].d == inodes[old(icache[ip].ino)]
      ensures SameInodeMap(sb, old(c.disk), c.disk)
      ensures OtherInodesKept(sb, ipb, old(c.disk), c.disk, old(icache[ip].ino))
      ensures old(DiskAgrees(ip)) ==>
                (DiskAgrees(ip) <==>
                   || off + |src| > old(icache[ip].d.size)
                   || AllPresent(old(icache[ip].d), off / BSIZE, EndBlock(off, |src|)))
    {
      hide BufferCache.Valid, Inv, Locked, FreeZones, SameInodeBlocks, Need, WroteSoFar, EndBlock, Image, Quiet,
           FileOverwritten, Updated,
           OtherInodesKept, SameInodeMap;
      ghost var disk0, inodes0, ino, ip0 := c.disk, inodes, icache[ip].ino, icache[ip].d;
      LoadedWhenLocked(icache[..], inodes, owner, c.held, ip);
      SlotInRange(sb, ipb, c.disk, c.held, c.stale, icache[..], inodes, owner, ip);
      StoreAll(ip, src, off);
      r := |src|;
      ghost var disk1, inodes1 := c.disk, inodes;
      LoadedWhenLocked(icache[..], inodes, owner, c.held, ip);
      SameDiskInode(sb, ipb, disk0, disk1, ino);
      BlocksKeepOthers(sb, ipb, disk0, disk1, ino);
      SameMapInBlocks(sb, ipb, disk0, disk1);
      WroteKeeps(disk0, disk1, inodes0, inodes1, ino, off, src);
      if |src| > 0 && off + |src| > icache[ip].d.size {
        Enlarge(ip, off + |src|);
        InodeNumbers(sb, ipb, c.disk, c.held, c.stale, icache[..], inodes, owner);
        UpdateKeepsOthers(sb, ipb, disk1, c.disk, inodes, ino);
        OthersKeptTwice(sb, ipb, disk0, disk1, c.disk, ino);
        SameMapInUpdate(sb, ipb, disk0, disk1, c.disk, inodes, ino);
        OverwrittenGrown(sb, ipb, disk0, disk1, c.disk, inodes0, inodes1, inodes, ino, off, src);
      } else {
        OverwrittenInPlace(disk0, c.disk, inodes0, inodes, ino, off, src);
      }
    }

    /** itrunc's first loop. */
    method FreeDirect(ip: nat)
      requires Valid() && IsLocked(ip) && |c.held| < BufferList.NBUF
      requires ip < icache.Length && WellFormedInode(icache[ip].d)
      modifies icache, c, c.buf
      ensures c.Valid() && c.held == old(c.held) && c.stale == old(c.stale) && Quiet(sb, c.disk, c.held, c.stale)
      ensures icache[..] == old(icache[..])[ip := old(icache[ip]).(d := Cleared(old(icache[ip].d), NDIRECT))]
      ensures Freeing(sb, ipb, old(c.disk), c.disk, ZonesBelow(old(c.disk), old(icache[ip].d), NDIRECT))
    {
      hide BufferCache.Valid, Inv, Locked, Image, Quiet, Freeing, ZonesBelow, InUse;
      ghost var disk0, ip0, ino, ic0 := c.disk, icache[ip].d, icache[ip].ino, icache[..];
      LoadedWhenLocked(ic0, inodes, owner, c.held, ip);
      InvParts(sb, ipb, c.disk, c.held, c.stale, ic0, inodes, owner);
      NothingFreed(sb, ipb, c.disk);
      ClearedNone(ip0);
      assert ZonesBelow(disk0, ip0, 0) == {};
      var i := 0;
      while i < NDIRECT
        invariant i <= NDIRECT
        invariant c.Valid() && c.held == old(c.held) && c.stale == old(c.stale) && Quiet(sb, c.disk, c.held, c.stale)
        invariant icache[..] == ic0[ip := ic0[ip].(d := Cleared(ip0, i))]
        invariant Freeing(sb, ipb, disk0, c.disk, ZonesBelow(disk0, ip0, i))
      {
        if icache[ip].d.zone[i] != 0 {
          NotHeld(sb, ipb, disk0, c.held, c.stale, ic0, inodes, owner, ip, ZoneAt(disk0, ip0, i));
          FreeBlock(icache[ip].d.zone[i], i, disk0, c.held, c.stale, ic0, ip);
          icache[ip] := icache[ip].(d := WithZone(icache[ip].d, i, 0));
        } else {
          NothingToFree(disk0, ip0, i);
        }
        ClearedNext(ip0, i);
        assert icache[..] == ic0[ip := ic0[ip].(d := Cleared(ip0, i + 1))];
        i := i + 1;
      }
    }

    /** bfree of the zone of block bn, while the zones of the blocks below it are already free. */
    method FreeBlock(z: nat, ghost bn: nat, ghost disk0: Disk, ghost held0: map<nat, Held>, ghost stale0: set<nat>,
                     ghost ic0: seq<MemInode>, ghost k: nat)
      requires c.Valid() && Quiet(sb, c.disk, c.held, c.stale) && |c.held| < BufferList.NBUF
      requires Inv(sb, ipb, disk0, held0, stale0, ic0, inodes, owner) && Loaded(ic0, inodes, k)
      requires WellFormedInode(ic0[k].d) && bn < MAXFILE && z == ZoneAt(disk0, ic0[k].d, bn) != 0
      requires forall h :: h in c.held ==> c.held[h].blkno != z
      requires Freeing(sb, ipb, disk0, c.disk, ZonesBelow(disk0, ic0[k].d, bn))
      modifies c, c.buf
      ensures c.Valid() && c.held == old(c.held) && c.stale == old(c.stale) && Quiet(sb, c.disk, c.held, c.stale)
      ensures Freeing(sb, ipb, disk0, c.disk, ZonesBelow(disk0, ic0[k].d, bn + 1))
    {
      hide BufferCache.Valid, Inv, Image, Quiet, Freeing, ZonesBelow, InUse;
      FreeBlockStep(sb, ipb, disk0, c.disk, held0, stale0, ic0, inodes, owner, ic0[k].ino, bn);
      FreeingImage(sb, ipb, disk0, c.disk, ZonesBelow(disk0, ic0[k].d, bn));
      Bfree(c, sb, ipb, z);
    }

    /** itrunc's second loop: every entry of the table in buffer bp. */
    method FreeEntries(bp: nat, ghost k: nat, ghost disk0: Disk, ghost held0: map<nat, Held>,
                       ghost stale0: set<nat>, ghost ic0: seq<MemInode>)
      requires c.Valid() && Quiet(sb, c.disk, c.held, stale0) && c.stale == stale0 && |c.held| < BufferList.NBUF
      requires Inv(sb, ipb, disk0, held0, stale0, ic0, inodes, owner) && Locked(ic0, inodes, owner, held0, k)
      requires k < |ic0| && WellFormedInode(ic0[k].d) && bp in c.held
      requires c.held == held0[bp := Held(ic0[k].d.zone[NDIRECT], c.held[bp].data)]
      requires RestOfTable(disk0, ic0[k].d, c.held[bp].data, 0)
      requires Freeing(sb, ipb, disk0, c.disk, ZonesBelow(disk0, ic0[k].d, NDIRECT))
      modifies c, c.buf
      ensures c.Valid() && Quiet(sb, c.disk, c.held, stale0) && c.stale == stale0
      ensures bp in c.held && c.held == held0[bp := Held(ic0[k].d.zone[NDIRECT], c.held[bp].data)]
      ensures Freeing(sb, ipb, disk0, c.disk, ZonesBelow(disk0, ic0[k].d, MAXFILE))
    {
      hide BufferCache.Valid, Inv, Locked, Image, Quiet, Freeing, ZonesBelow, InUse, Word, RestOfTable;
      LoadedWhenLocked(ic0, inodes, owner, held0, k);
      var j := 0;
      while j < NINDIRECT
        invariant j <= NINDIRECT
        invariant c.Valid() && Quiet(sb, c.disk, c.held, stale0) && c.stale == stale0 && bp in c.held
        invariant c.held == held0[bp := Held(ic0[k].d.zone[NDIRECT], c.held[bp].data)]
        invariant RestOfTable(disk0, ic0[k].d, c.held[bp].data, j)
        invariant Freeing(sb, ipb, disk0, c.disk, ZonesBelow(disk0, ic0[k].d, NDIRECT + j))
      {
        FreeOneEntry(bp, j, k, disk0, held0, stale0, ic0);
        j := j + 1;
      }
    }

    method FreeOneEntry(bp: nat, j: nat, ghost k: nat, ghost disk0: Disk, ghost held0: map<nat, Held>,
                        ghost stale0: set<nat>, ghost ic0: seq<MemInode>)
      requires c.Valid() && Quiet(sb, c.disk, c.held, stale0) && c.stale == stale0 && |c.held| < BufferList.NBUF
      requires Inv(sb, ipb, disk0, held0, stale0, ic0, inodes, owner) && Locked(ic0, inodes, owner, held0, k)
      requires k < |ic0| && WellFormedInode(ic0[k].d) && bp in c.held && j < NINDIRECT
      requires c.held == held0[bp := Held(ic0[k].d.zone[NDIRECT], c.held[bp].data)]
      requires RestOfTable(disk0, ic0[k].d, c.held[bp].data, j)
      requires Freeing(sb, ipb, disk0, c.disk, ZonesBelow(disk0, ic0[k].d, NDIRECT + j))
      modifies c, c.buf
      ensures c.Valid() && Quiet(sb, c.disk, c.held, stale0) && c.stale == stale0 && bp in c.held
      ensures c.held == held0[bp := Held(ic0[k].d.zone[NDIRECT], c.held[bp].data)]
      ensures RestOfTable(disk0, ic0[k].d, c.held[bp].data, j + 1)
      ensures Freeing(sb, ipb, disk0, c.disk, ZonesBelow(disk0, ic0[k].d, NDIRECT + j + 1))
    {
      hide BufferCache.Valid, Inv, Locked, Image, Quiet, Freeing, ZonesBelow, InUse;
      var zone2 := c.Load(bp);
      LoadedWhenLocked(ic0, inodes, owner, held0, k);
      EntryCleared(disk0, ic0[k].d, zone2, j);
      if Word(zone2, j) != 0 {
        EntryFreeable(sb, ipb, disk0, held0, stale0, ic0, inodes, owner, k, NDIRECT + j, bp, zone2);
        FreeBlock(Word(zone2, j), NDIRECT + j, disk0, held0, stale0, ic0, k);
        QuietStore(sb, c.disk, c.held, stale0, bp, SetWord(zone2, j, 0));
        c.Store(bp, SetWord(zone2, j, 0));
      } else {
        NothingToFree(disk0, ic0[k].d, NDIRECT + j);
      }
    }

    /** Read the table, free its entries, release it, free it. */
    method FreeTable(table: nat, ghost k: nat, ghost disk0: Disk, ghost held0: map<nat, Held>,
                     ghost stale0: set<nat>, ghost ic0: seq<MemInode>)
      requires c.Valid() && c.held == held0 && c.stale == stale0 && Quiet(sb, c.disk, held0, stale0)
      requires |held0| + 2 <= BufferList.NBUF
      requires Inv(sb, ipb, disk0, held0, stale0, ic0, inodes, owner) && Locked(ic0, inodes, owner, held0, k)
      requires k < |ic0| && WellFormedInode(ic0[k].d) && table == ic0[k].d.zone[NDIRECT] != 0
      requires Freeing(sb, ipb, disk0, c.disk, ZonesBelow(disk0, ic0[k].d, NDIRECT))
      modifies c, c.buf
      ensures c.Valid() && c.held == held0 && Quiet(sb, c.disk, c.held, c.stale)
      ensures c.stale <= stale0 + {table}
      ensures Freeing(sb, ipb, disk0, c.disk, AllZones(disk0, ic0[k].d))
    {
      hide BufferCache.Valid, Inv, Locked, Image, Quiet, Freeing, ZonesBelow, InUse, Word, Owned;
      LoadedWhenLocked(ic0, inodes, owner, held0, k);
      ZoneReadable(sb, ipb, disk0, held0, stale0, ic0, inodes, owner, k, Table(ic0[k].ino));
      FreeingImage(sb, ipb, disk0, c.disk, ZonesBelow(disk0, ic0[k].d, NDIRECT));
      var bp := c.Bread(table);
      InvOwned(sb, ipb, disk0, held0, stale0, ic0, inodes, owner);
      TableHeld(sb, ipb, disk0, c.disk, held0, stale0, inodes, owner, ic0[k].ino, bp, c.held[bp]);
      FreeEntries(bp, k, disk0, held0, stale0, ic0);
      FreeTableStep(sb, ipb, disk0, c.disk, inodes, owner, ic0[k].ino);
      FreeingImage(sb, ipb, disk0, c.disk, ZonesBelow(disk0, ic0[k].d, MAXFILE));
      ReleaseAndFree(table, bp, held0);
    }

    /** `brelse(bp); bfree(ip->dev, ip->zone[NDIRECT])` */
    method ReleaseAndFree(table: nat, bp: nat, ghost held0: map<nat, Held>)
      requires c.Valid() && Image(sb, ipb, c.disk) && Quiet(sb, c.disk, c.held, c.stale) && |held0| < BufferList.NBUF
      requires bp in c.held && bp !in held0 && c.held == held0[bp := c.held[bp]] && c.held[bp].blkno == table
      requires table < |c.disk| && InUse(sb, c.disk, table) && forall h :: h in held0 ==> held0[h].blkno != table
      modifies c, c.buf
      ensures c.Valid() && c.held == held0 && Quiet(sb, c.disk, c.held, c.stale)
      ensures c.stale <= old(c.stale) + {table} && c.disk == Freed(sb, old(c.disk), table)
    {
      hide BufferCache.Valid, Image, MapBit;
      assert c.held - {bp} == held0;
      QuietWithout(sb, c.disk, c.held, c.stale, bp);
      StaleTable(sb, c.disk, held0, c.stale, table);
      c.Brelse(bp);
      Bfree(c, sb, ipb, table);
    }

    /** itrunc's second loop clears the table in its buffer only; brelse leaves the block stale.
        Then the table's own zone is freed. */
    method FreeIndirect(ip: nat, ghost disk0: Disk, ghost held0: map<nat, Held>, ghost stale0: set<nat>,
                        ghost ic0: seq<MemInode>)
      requires c.Valid() && c.held == held0 && c.stale == stale0 && Quiet(sb, c.disk, held0, stale0)
      requires |held0| + 2 <= BufferList.NBUF
      requires Inv(sb, ipb, disk0, held0, stale0, ic0, inodes, owner) && Locked(ic0, inodes, owner, held0, ip)
      requires ip < icache.Length == |ic0| && WellFormedInode(ic0[ip].d)
      requires icache[..] == ic0[ip := ic0[ip].(d := Cleared(ic0[ip].d, NDIRECT))]
      requires Freeing(sb, ipb, disk0, c.disk, ZonesBelow(disk0, ic0[ip].d, NDIRECT))
      modifies icache, c, c.buf
      ensures c.Valid() && c.held == held0 && Quiet(sb, c.disk, c.held, c.stale)
      ensures c.stale <= stale0 + (if ic0[ip].d.zone[NDIRECT] == 0 then {} else {ic0[ip].d.zone[NDIRECT] as nat})
      ensures icache[..] == ic0[ip := ic0[ip].(d := Cleared(ic0[ip].d, NDIRECT + 1))]
      ensures Freeing(sb, ipb, disk0, c.disk, AllZones(disk0, ic0[ip].d))
    {
      hide BufferCache.Valid, Inv, Locked, Image, Quiet, Freeing, ZonesBelow, InUse, Word, Cleared;
      ghost var ip0 := ic0[ip].d;
      LoadedWhenLocked(ic0, inodes, owner, held0, ip);
      ClearedNext(ip0, NDIRECT);
      ClearedTable(ip0);
      if icache[ip].d.zone[NDIRECT] != 0 {
        FreeTable(icache[ip].d.zone[NDIRECT], ip, disk0, held0, stale0, ic0);
        icache[ip] := icache[ip].(d := WithZone(icache[ip].d, NDIRECT, 0));
        assert icache[..] == ic0[ip := ic0[ip].(d := Cleared(ip0, NDIRECT + 1))];
      } else {
        NoEntries(sb, ipb, disk0, c.disk, ip0);
      }
    }

    /** itrunc: exactly the inode's zones go back to the bitmap, the inode becomes empty in memory
        and on the disk, and no other file changes. */
    method Itrunc(ip: nat)
      requires Valid() && IsLocked(ip) && |c.held| + 2 <= BufferList.NBUF
      requires ip < icache.Length && WellFormedInode(icache[ip].d)
      modifies this`inodes, icache, c, c.buf
      ensures Valid() && IsLocked(ip) && DiskAgrees(ip)
      ensures c.held == old(c.held)
      ensures icache[..] == old(icache[..])[ip := old(icache[ip]).(d := Truncated(old(icache[ip].d)))]
      ensures inodes == old(inodes)[old(icache[ip].ino) := icache[ip].d]
      ensures Returned(sb, old(c.disk), c.disk, old(icache[ip].d))
      ensures OthersRead(old(c.disk), c.disk, inodes, old(icache[ip].ino))
      ensures SameInodeMap(sb, old(c.disk), c.disk)
      ensures OtherInodesKept(sb, ipb, old(c.disk), c.disk, old(icache[ip].ino))
    {
      hide BufferCache.Valid, Inv, Locked, Image, Quiet, Freeing, AllZones, Returned, Updated, OthersRead, Cleared,
           OtherInodesKept, SameInodeBlocks;
      ghost var disk0, held0, stale0, ic0, ino := c.disk, c.held, c.stale, icache[..], icache[ip].ino;
      LoadedWhenLocked(ic0, inodes, owner, held0, ip);
      FreeDirect(ip);
      FreeIndirect(ip, disk0, held0, stale0, ic0);
      FreeingKeepsOthers(sb, ipb, disk0, c.disk, AllZones(disk0, ic0[ip].d), ino);
      TruncStep(sb, ipb, disk0, c.disk, held0, stale0, c.stale, ic0, inodes, owner, ip);
      icache[ip] := icache[ip].(d := icache[ip].d.(size := 0));
      inodes := inodes[ino := icache[ip].d];
      assert icache[..] == ic0[ip := ic0[ip].(d := Truncated(ic0[ip].d))];
      ghost var disk1 := c.disk;
      LoadedWhenLocked(icache[..], inodes, owner, held0, ip);
      Iupdate(ip);
      AfterUpdate(sb, ipb, disk0, disk1, c.disk, inodes, ino, ic0[ip].d);
      InodeNumbers(sb, ipb, c.disk, c.held, c.stale, icache[..], inodes, owner);
      UpdateKeepsOthers(sb, ipb, disk1, c.disk, inodes, ino);
      OthersKeptTwice(sb, ipb, disk0, disk1, c.disk, ino);
    }

    // ------------------------------------------------------------------------------------
    // References and locks

    /** iget: the slot of inode `ino`, with one more reference.  It is neither locked nor read. */
    method Iget(ino: nat) returns (k: nat)
      requires Valid() && ino in inodes
      requires exists l :: 0 <= l < icache.Length && (CachedAt(icache[..], ino, l) || icache[l].ref == 0)
      modifies icache
      ensures Valid() && GotRef(old(icache[..]), icache[..], k, ino)
    {
      hide BufferCache.Valid, Inv, InodeTable, RefsChange;
      ghost var ic0 := icache[..];
      TableChange(sb, ipb, c.disk, c.held, c.stale, ic0, ic0, inodes, owner);
      var empty: nat := NINODE;
      k := 0;
      while k < NINODE && !(icache[k].ref > 0 && icache[k].ino == ino)
        invariant k <= NINODE && icache[..] == ic0
        invariant forall l :: 0 <= l < k ==> !CachedAt(ic0, ino, l)
        invariant empty == NINODE ==> forall l :: 0 <= l < k ==> ic0[l].ref != 0
        invariant empty != NINODE ==> empty < k && ic0[empty].ref == 0
      {
        if empty == NINODE && icache[k].ref == 0 {
          empty := k;
        }
        k := k + 1;
      }
      if k < NINODE {
        RecountStep(sb, ipb, c.disk, ic0, inodes, k, icache[k].ref + 1, icache[k].busy);
        CountUp(ic0, k, icache[k].(ref := icache[k].ref + 1), 1);
        icache[k] := icache[k].(ref := icache[k].ref + 1);
      } else {
        k := empty;
        OccupyStep(sb, ipb, c.disk, ic0, inodes, k, ino);
        CountUp(ic0, k, icache[k].(ino := ino, ref := 1, busy := false, valid := false), 1);
        icache[k] := icache[k].(ino := ino);
        icache[k] := icache[k].(ref := 1);
        icache[k] := icache[k].(busy := false, valid := false);
        assert icache[..] == ic0[k := ic0[k].(ino := ino, ref := 1, busy := false, valid := false)];
      }
      assert icache[..] == ic0[k := icache[k]];
      TableChange(sb, ipb, c.disk, c.held, c.stale, ic0, icache[..], inodes, owner);
    }

    /** idup */
    method Idup(ip: nat)
      requires Valid() && ip < icache.Length && icache[ip].ref > 0
      modifies icache
      ensures Valid() && icache[..] == old(icache[..])[ip := old(icache[ip]).(ref := old(icache[ip]).ref + 1)]
      ensures RefsChange(old(icache[..]), icache[..], icache[ip].ino, 1)
    {
      hide BufferCache.Valid, Inv, InodeTable, RefsChange;
      ghost var ic0 := icache[..];
      TableChange(sb, ipb, c.disk, c.held, c.stale, ic0, ic0, inodes, owner);
      RecountStep(sb, ipb, c.disk, ic0, inodes, ip, icache[ip].ref + 1, icache[ip].busy);
      CountUp(ic0, ip, icache[ip].(ref := icache[ip].ref + 1), 1);
      icache[ip] := icache[ip].(ref := icache[ip].ref + 1);
      TableChange(sb, ipb, c.disk, c.held, c.stale, ic0, icache[..], inodes, owner);
    }

    /** ilock of an inode nobody has locked; a locked one would be waited for.  It is read from the
        disk unless a valid copy is in memory. */
    method Ilock(ip: nat)
      requires Valid() && ip < icache.Length && icache[ip].ref > 0 && !icache[ip].busy && |c.held| < BufferList.NBUF
      modifies icache, c, c.buf
      ensures Valid() && c.disk == old(c.disk) && c.held == old(c.held) && c.stale == old(c.stale)
      ensures old(icache[ip].ino) in inodes
      ensures icache[..] == old(icache[..])[ip := old(icache[ip]).(busy := true, valid := true,
                                                                   d := inodes[old(icache[ip].ino)])]
      ensures RefsChange(old(icache[..]), icache[..], icache[ip].ino, 0)
    {
      hide BufferCache.Valid, Inv, InodeTable, Image, Quiet, DecodeInode, RefsChange;
      ghost var ic0, held0 := icache[..], c.held;
      TableChange(sb, ipb, c.disk, c.held, c.stale, ic0, ic0, inodes, owner);
      SlotInRange(sb, ipb, c.disk, c.held, c.stale, ic0, inodes, owner, ip);
      InvParts(sb, ipb, c.disk, c.held, c.stale, ic0, inodes, owner);
      SuperBlockReadable(sb, ipb, c.disk, c.held, c.stale);
      var s := ReadSb(c);
      icache[ip] := icache[ip].(busy := true);
      if !icache[ip].valid {
        LoadStep(sb, ipb, c.disk, ic0, inodes, ip);
        InodeBlockReadable(sb, ipb, c.disk, held0, c.stale, icache[ip].ino);
        var data := CopyOut(c, IBlk(s, ipb, icache[ip].ino));
        var o := InodeOffset(ipb, icache[ip].ino);
        icache[ip] := icache[ip].(d := DecodeInode(data[o..o + DINODE]));
        icache[ip] := icache[ip].(valid := true);
      } else {
        RecountStep(sb, ipb, c.disk, ic0, inodes, ip, icache[ip].ref, true);
      }
      CountUp(ic0, ip, icache[ip], 0);
      assert icache[..] == ic0[ip := icache[ip]];
      TableChange(sb, ipb, c.disk, c.held, c.stale, ic0, icache[..], inodes, owner);
    }

    /** iunlock */
    method Iunlock(ip: nat)
      requires Valid() && ip < icache.Length && icache[ip].ref > 0 && icache[ip].busy
      modifies icache
      ensures Valid() && icache[..] == old(icache[..])[ip := old(icache[ip]).(busy := false)]
      ensures RefsChange(old(icache[..]), icache[..], icache[ip].ino, 0)
    {
      hide BufferCache.Valid, Inv, InodeTable, RefsChange;
      ghost var ic0 := icache[..];
      TableChange(sb, ipb, c.disk, c.held, c.stale, ic0, ic0, inodes, owner);
      RecountStep(sb, ipb, c.disk, ic0, inodes, ip, icache[ip].ref, false);
      CountUp(ic0, ip, icache[ip].(busy := false), 0);
      icache[ip] := icache[ip].(busy := false);
      TableChange(sb, ipb, c.disk, c.held, c.stale, ic0, icache[..], inodes, owner);
    }

    /** _ifree */
    method Ifree(ino: nat)
      requires Valid() && |c.held| < BufferList.NBUF
      requires InodeBit(c.disk, ino) && ino < sb.ninodes && IMapBlk(ino) < 2 + sb.imapBlk
      modifies c, c.buf
      ensures Valid() && c.held == old(c.held) && c.stale == old(c.stale) && c.disk == InodeFreed(old(c.disk), ino)
      ensures BitOnly(sb, ipb, old(c.disk), c.disk, inodes, ino)
    {
      hide BufferCache.Valid, Inv, Image, Quiet, Bit, BitOnly;
      ghost var held0, stale0, disk0 := c.held, c.stale, c.disk;
      FreeInodeStep(sb, ipb, c.disk, c.held, c.stale, icache[..], inodes, owner, ino);
      InvParts(sb, ipb, c.disk, c.held, c.stale, icache[..], inodes, owner);
      SuperBlockReadable(sb, ipb, c.disk, c.held, c.stale);
      var s := ReadSb(c);
      MetaReadable(sb, ipb, c.disk, c.held, c.stale, IMapBlk(ino));
      var bp := c.Bread(IMapBlk(ino));
      var data := c.Load(bp);
      WriteAndRelease(c, bp, data[ino / 8 := PutBitByte(data[ino / 8], ino % 8, false)]);
      assert c.held == held0 && c.stale == stale0 && c.disk == InodeFreed(disk0, ino);
    }

    /** What iput relies on when it takes the last reference: an inode without links is not a
        device, not locked, and marked in the inode bitmap; one with links has the same fields
        on the disk. */
    ghost predicate MayDrop(ip: nat)
      reads this, icache, c
    {
      && ip < icache.Length && icache[ip].ref > 0
      && (Dies(ip) ==>
            && !icache[ip].busy && !IsChr(icache[ip].d.mode) && InodeBit(c.disk, icache[ip].ino)
            && icache[ip].ino < sb.ninodes && IMapBlk(icache[ip].ino) < 2 + sb.imapBlk
            && forall h :: h in c.held ==> c.held[h].blkno in owner && owner[c.held[h].blkno].ino != icache[ip].ino)
      && (icache[ip].ref == 1 && icache[ip].valid && icache[ip].d.nlinks > 0 ==> DiskAgrees(ip))
    }

    /** The test of iput. */
    predicate Dies(ip: nat)
      requires ip < icache.Length
      reads this, icache
    {
      icache[ip].ref == 1 && icache[ip].valid && icache[ip].d.nlinks == 0
    }

    /** iput: one reference fewer; an inode that loses its last reference and has no links is
        truncated and freed. */
    method Iput(ip: nat)
      requires Valid() && MayDrop(ip) && |c.held| + 2 <= BufferList.NBUF
      modifies this`inodes, icache, c, c.buf
      ensures Valid() && c.held == old(c.held)
      ensures RefsChange(old(icache[..]), icache[..], old(icache[ip].ino), -1)
      ensures !old(Dies(ip)) ==>
                && c.disk == old(c.disk) && c.stale == old(c.stale) && inodes == old(inodes)
                && icache[..] == old(icache[..])[ip := old(icache[ip]).(ref := old(icache[ip]).ref - 1)]
      ensures old(Dies(ip)) ==>
                && WellFormedInode(old(icache[ip].d))
                && inodes == old(inodes)[old(icache[ip].ino) := Truncated(old(icache[ip].d))]
                && Returned(sb, old(c.disk), c.disk, old(icache[ip].d))
                && OthersRead(old(c.disk), c.disk, inodes, old(icache[ip].ino))
                && OtherInodesKept(sb, ipb, old(c.disk), c.disk, old(icache[ip].ino))
                && DiskInode(sb, ipb, c.disk, old(icache[ip].ino)) == Truncated(old(icache[ip].d))
                && !InodeBit(c.disk, old(icache[ip].ino))
                && icache[..] == old(icache[..])[ip := old(icache[ip]).(ref := 0, busy := true,
                      d := Truncated(old(icache[ip].d)))]
    {
      hide BufferCache.Valid, Inv, InodeTable, Image, Quiet, RefsChange, OthersRead, Returned, OtherInodesKept, Bit,
           DecodeInode, Truncated;
      ghost var ic0 := icache[..];
      SlotInRange(sb, ipb, c.disk, c.held, c.stale, ic0, inodes, owner, ip);
      if icache[ip].ref == 1 && icache[ip].valid && icache[ip].d.nlinks == 0 {
        Destroy(ip);
      }
      ghost var ic1 := icache[..];
      TableChange(sb, ipb, c.disk, c.held, c.stale, ic1, ic1, inodes, owner);
      if icache[ip].ref == 1 {
        DropStep(sb, ipb, c.disk, ic1, inodes, ip);
      } else {
        RecountStep(sb, ipb, c.disk, ic1, inodes, ip, icache[ip].ref - 1, icache[ip].busy);
      }
      CountUp(ic0, ip, icache[ip].(ref := icache[ip].ref - 1), -1);
      icache[ip] := icache[ip].(ref := icache[ip].ref - 1);
      assert icache[..] == ic0[ip := icache[ip]];
      assert icache[..] == ic1[ip := ic1[ip].(ref := ic1[ip].ref - 1)];
      TableChange(sb, ipb, c.disk, c.held, c.stale, ic1, icache[..], inodes, owner);
    }

    /** Lock, truncate, free: the branch of iput for an inode nobody refers to any more. */
    method Destroy(ip: nat)
      requires Valid() && MayDrop(ip) && Dies(ip) && |c.held| + 2 <= BufferList.NBUF
      modifies this`inodes, icache, c, c.buf
      ensures Valid() && c.held == old(c.held) && DiskAgrees(ip)
      ensures WellFormedInode(old(icache[ip].d))
      ensures icache[..] == old(icache[..])[ip := old(icache[ip]).(busy := true, d := Truncated(old(icache[ip].d)))]
      ensures inodes == old(inodes)[old(icache[ip].ino) := Truncated(old(icache[ip].d))]
      ensures Returned(sb, old(c.disk), c.disk, old(icache[ip].d))
      ensures OthersRead(old(c.disk), c.disk, inodes, old(icache[ip].ino))
      ensures OtherInodesKept(sb, ipb, old(c.disk), c.disk, old(icache[ip].ino))
      ensures !InodeBit(c.disk, old(icache[ip].ino))
    {
      hide BufferCache.Valid, Inv, InodeTable, Image, Quiet, OthersRead, Returned, Bit, Truncated, OtherInodesKept;
      ghost var ic0 := icache[..];
      SlotInRange(sb, ipb, c.disk, c.held, c.stale, ic0, inodes, owner, ip);
      TableChange(sb, ipb, c.disk, c.held, c.stale, ic0, ic0, inodes, owner);
      RecountStep(sb, ipb, c.disk, ic0, inodes, ip, icache[ip].ref, true);
      icache[ip] := icache[ip].(busy := true);
      TableChange(sb, ipb, c.disk, c.held, c.stale, ic0, icache[..], inodes, owner);
      TruncAndFree(ip);
    }

    method TruncAndFree(ip: nat)
      requires Valid() && IsLocked(ip) && |c.held| + 2 <= BufferList.NBUF && ip < icache.Length
      requires WellFormedInode(icache[ip].d)
      requires InodeBit(c.disk, icache[ip].ino) && icache[ip].ino < sb.ninodes
      requires IMapBlk(icache[ip].ino) < 2 + sb.imapBlk
      modifies this`inodes, icache, c, c.buf
      ensures Valid() && c.held == old(c.held) && DiskAgrees(ip)
      ensures icache[..] == old(icache[..])[ip := old(icache[ip]).(d := Truncated(old(icache[ip].d)))]
      ensures inodes == old(inodes)[old(icache[ip].ino) := Truncated(old(icache[ip].d))]
      ensures Returned(sb, old(c.disk), c.disk, old(icache[ip].d))
      ensures OthersRead(old(c.disk), c.disk, inodes, old(icache[ip].ino))
      ensures OtherInodesKept(sb, ipb, old(c.disk), c.disk, old(icache[ip].ino))
      ensures !InodeBit(c.disk, old(icache[ip].ino))
    {
      hide BufferCache.Valid, Inv, InodeTable, Image, Quiet, OthersRead, Returned, Bit, Truncated, Locked, BitOnly,
           InodeFreed, InodeBit, SameInodeMap,
           OtherInodesKept;
      ghost var disk0, ino, ip0 := c.disk, icache[ip].ino, icache[ip].d;
      Itrunc(ip);
      ghost var disk1 := c.disk;
      InodeBitKept(sb, disk0, disk1, ino);
      Ifree(icache[ip].ino);
      AfterFree(sb, ipb, disk0, disk1, c.disk, inodes, ino, ip0);
      FreeKeepsOthers(sb, ipb, disk1, c.disk, inodes, ino);
      OthersKeptTwice(sb, ipb, disk0, disk1, c.disk, ino);
    }
  }

  /** bread, copy out, brelse. */
  method CopyOut(c: BufferCache, z: nat) returns (data: Block)
    requires c.Valid() && z < |c.disk| && z !in c.stale && |c.held| < BufferList.NBUF
    requires forall h :: h in c.held ==> c.held[h].blkno != z
    modifies c, c.buf
    ensures c.Valid() && c.held == old(c.held) && c.disk == old(c.disk) && c.stale == old(c.stale)
    ensures data == c.disk[z]
  {
    hide BufferCache.Valid;
    var bp := c.Bread(z);
    data := c.Load(bp);
    c.Brelse(bp);
    assert c.held == old(c.held);
  }

  /** Store, write and release a busy buffer. */
  method WriteAndRelease(c: BufferCache, bp: nat, data: Block)
    requires c.Valid() && bp in c.held && c.held[bp].blkno < |c.disk|
    modifies c, c.buf
    ensures c.Valid() && c.held == old(c.held) - {bp}
    ensures c.disk == old(c.disk)[old(c.held)[bp].blkno := data]
    ensures c.stale == old(c.stale) - {old(c.held)[bp].blkno}
  {
    hide BufferCache.Valid;
    c.Store(bp, data);
    c.Bwrite(bp);
    c.Brelse(bp);
  }
}
