/** fread and fwrite of an open inode (fs/file.c): one offset, shared by all descriptors of the file. */
module FileIo {
  import opened Minix
  import opened Bitmap
  import opened Files
  import opened FsState
  import opened InodeRefs
  import opened InodeLayer
  import BufferCache

  class OpenFile {
    const ip: nat
    const readable: bool
    const writeable: bool
    var off: nat

    /** sys_open */
    constructor (ip: nat, readable: bool, writeable: bool)
      ensures this.ip == ip && this.readable == readable && this.writeable == writeable && off == 0
    {
      this.ip, this.readable, this.writeable, off := ip, readable, writeable, 0;
    }

    /** Its inode is referenced, nobody has it locked, and it is a regular file or a directory. */
    ghost predicate Usable(fs: FileSystem)
      reads this, fs, fs.icache, fs.c, fs.c.buf
    {
      && fs.Valid() && fs.c.held == map[] && ip < fs.icache.Length && fs.icache[ip].ref > 0 && !fs.icache[ip].busy
      && fs.icache[ip].ino in fs.inodes && WellFormedInode(fs.inodes[fs.icache[ip].ino])
      && !IsChr(fs.inodes[fs.icache[ip].ino].mode)
      && fs.inodes[fs.icache[ip].ino].size <= MAXSIZE
    }

    /** An inode that has been read has the same fields on the disk. */
    ghost predicate Agrees(fs: FileSystem)
      reads this, fs, fs.icache, fs.c
    {
      ip < fs.icache.Length && (fs.icache[ip].valid ==> fs.DiskAgrees(ip))
    }

    ghost function Meta(fs: FileSystem): Inode
      requires Usable(fs)
      reads this, fs, fs.icache, fs.c, fs.c.buf
    {
      fs.inodes[fs.icache[ip].ino]
    }

    /** The file's bytes. */
    ghost function Bytes(fs: FileSystem): seq<Byte>
      requires Usable(fs)
      reads this, fs, fs.icache, fs.c, fs.c.buf
    {
      Contents(fs.c.disk, Meta(fs))
    }

    /** fread: the bytes from the offset on, as many as there are up to n; the offset moves past them
        and the file stays as it is. */
    method Fread(fs: FileSystem, n: nat) returns (len: int, data: seq<Byte>)
      requires Usable(fs) && off <= Meta(fs).size && off + n < 0x1_0000_0000
      requires |FreeZones(fs.sb, fs.c.disk)| >= ReadNeed(fs.c.disk, Meta(fs), off, n)
      modifies this`off, fs`inodes, fs`owner, fs.icache, fs.c, fs.c.buf
      ensures Usable(fs)
      ensures !readable ==> len == -1 && off == old(off) && fs.c.disk == old(fs.c.disk) && fs.inodes == old(fs.inodes)
      ensures readable ==> len == old(Clipped(Meta(fs), off, n)) && off == old(off) + len <= Meta(fs).size
      ensures readable ==> data == old(Bytes(fs))[old(off)..off]
      ensures Bytes(fs) == old(Bytes(fs)) && Meta(fs).size == old(Meta(fs).size)
      ensures readable && old(ReadNeed(fs.c.disk, Meta(fs), off, n)) == 0 ==>
                fs.c.disk == old(fs.c.disk) && fs.inodes == old(fs.inodes)
      ensures fs.icache[..] == old(fs.icache[..])[ip := fs.icache[ip]]
      ensures readable ==> fs.icache[ip] == old(fs.icache[ip]).(valid := true, d := Meta(fs))
      ensures !readable ==> fs.icache[ip] == old(fs.icache[ip])
      ensures readable ==> Extended(old(fs.c.disk), fs.c.disk, old(fs.inodes), fs.inodes, old(fs.icache[ip].ino))
      ensures forall j: nat :: Refs(fs.icache[..], j) == old(Refs(fs.icache[..], j))
    {
      hide BufferCache.BufferCache.Valid, Inv, Extended, Contents, Need, EndBlock, FreeZones, Refs, Locked;
      len, data := 0, [];
      if !readable {
        return -1, [];
      }
      ghost var ino := fs.icache[ip].ino;
      fs.Ilock(ip);
      LockedAlone(fs, ip);
      ghost var ic := fs.icache[..];
      len, data := fs.Iread(ip, off, n);
      CountUp(ic, ip, fs.icache[ip], 0);
      ExtendedKeeps(old(fs.c.disk), fs.c.disk, old(fs.inodes), fs.inodes, ino);
      if len > 0 {
        off := off + len;
      }
      ghost var ic2 := fs.icache[..];
      fs.Iunlock(ip);
      CountsBack(old(fs.icache[..]), ic, ic2, fs.icache[..], ino);
    }

    /** fwrite: the bytes at the offset are overwritten, the offset moves past them, and no other file
        changes.  The kernel stops if and only if the file would grow past the largest size or the
        zones run out. */
    method Fwrite(fs: FileSystem, src: seq<Byte>) returns (stopped: bool, len: int)
      requires Usable(fs) && off <= Meta(fs).size
      modifies this`off, fs`inodes, fs`owner, fs.icache, fs.c, fs.c.buf
      ensures stopped <==> writeable && !old(CanStore(fs.sb, fs.c.disk, Meta(fs), off, |src|))
      ensures !stopped ==> Usable(fs)
      ensures !writeable ==> len == -1 && off == old(off) && fs.c.disk == old(fs.c.disk) && fs.inodes == old(fs.inodes)
      ensures !stopped && writeable ==>
                && len == |src| && off == old(off) + |src| <= Meta(fs).size
                && Bytes(fs) == Overwrite(old(Bytes(fs)), old(off), src)
                && FileOverwritten(old(fs.c.disk), fs.c.disk, old(fs.inodes), fs.inodes, old(fs.icache[ip].ino),
                                   old(off), src)
                && SameInodeMap(fs.sb, old(fs.c.disk), fs.c.disk)
                && OtherInodesKept(fs.sb, fs.ipb, old(fs.c.disk), fs.c.disk, old(fs.icache[ip].ino))
                && fs.icache[ip] == old(fs.icache[ip]).(valid := true, d := Meta(fs))
      ensures !stopped && writeable && old(Agrees(fs)) ==>
                (fs.DiskAgrees(ip) <==>
                   || old(off) + |src| > old(Meta(fs).size)
                   || AllPresent(old(Meta(fs)), old(off) / BSIZE, EndBlock(old(off), |src|)))
      ensures fs.icache[..] == old(fs.icache[..])[ip := fs.icache[ip]]
      ensures !writeable ==> fs.icache[ip] == old(fs.icache[ip])
      ensures forall j: nat :: Refs(fs.icache[..], j) == old(Refs(fs.icache[..], j))
    {
      hide BufferCache.BufferCache.Valid, Inv, FileOverwritten, Contents, CanStore, EndBlock, Refs, Locked,
           SameInodeMap, OtherInodesKept, AllPresent,
           DiskInode;
      stopped, len := false, -1;
      if !writeable {
        return;
      }
      ghost var ino := fs.icache[ip].ino;
      ReadAgrees(fs, ip);
      fs.Ilock(ip);
      LockedAlone(fs, ip);
      ghost var ic := fs.icache[..];
      stopped := !CanStore(fs.sb, fs.c.disk, fs.icache[ip].d, off, |src|);
      if stopped {
        CountsBack(old(fs.icache[..]), ic, ic, ic, ino);
        return;
      }
      Stores(fs.sb, fs.c.disk, fs.icache[ip].d, off, |src|);
      var r := fs.Iwrite(ip, src, off);
      CountUp(ic, ip, fs.icache[ip], 0);
      OverwrittenKeeps(old(fs.c.disk), fs.c.disk, old(fs.inodes), fs.inodes, ino, off, src);
      off := off + |src|;
      ghost var ic2 := fs.icache[..];
      fs.Iunlock(ip);
      CountsBack(old(fs.icache[..]), ic, ic2, fs.icache[..], ino);
      len := |src|;
    }
  }

  /** What iwrite and balloc demand: the file stays within the largest size, and zones are left. */
  predicate CanStore(sb: SuperBlock, disk: Disk, ip: Inode, off: nat, n: nat) {
    WellFormedInode(ip) && off + n <= MAXSIZE && |FreeZones(sb, disk)| >= WriteNeed(disk, ip, off, n)
  }

  lemma Stores(sb: SuperBlock, disk: Disk, ip: Inode, off: nat, n: nat)
    requires CanStore(sb, disk, ip, off, n)
    ensures WellFormedInode(ip) && off + n <= MAXSIZE && |FreeZones(sb, disk)| >= WriteNeed(disk, ip, off, n)
  {
  }

  lemma OverwrittenKeeps(disk0: Disk, disk: Disk, inodes0: Inodes, inodes: Inodes, ino: nat, off: nat, src: seq<Byte>)
    requires FileOverwritten(disk0, disk, inodes0, inodes, ino, off, src) && !IsChr(inodes0[ino].mode)
    ensures ino in inodes && WellFormedInode(inodes[ino]) && inodes[ino].mode == inodes0[ino].mode
    ensures inodes[ino].size <= MAXSIZE && off + |src| <= inodes[ino].size
    ensures Contents(disk, inodes[ino]) == Overwrite(Contents(disk0, inodes0[ino]), off, src)
  {
  }

  /** What is not in memory yet is read from the disk. */
  lemma ReadAgrees(fs: FileSystem, ip: nat)
    requires fs.Valid() && ip < fs.icache.Length && fs.icache[ip].ref > 0
    ensures fs.icache[ip].ino in fs.inodes && fs.icache[ip].ino >= 1 && 0 < fs.ipb * DINODE <= BSIZE
    ensures fs.icache[ip].valid ==> fs.icache[ip].d == fs.inodes[fs.icache[ip].ino]
    ensures !fs.icache[ip].valid ==>
              DiskInode(fs.sb, fs.ipb, fs.c.disk, fs.icache[ip].ino) == fs.inodes[fs.icache[ip].ino]
  {
    if !fs.icache[ip].valid {
      LoadStep(fs.sb, fs.ipb, fs.c.disk, fs.icache[..], fs.inodes, ip);
    }
  }

  /** Two writes one after the other are one write of both pieces. */
  lemma TwoWrites(disk0: Disk, disk1: Disk, disk2: Disk, inodes0: Inodes, inodes1: Inodes, inodes2: Inodes,
                  ino: nat, off: nat, a: seq<Byte>, b: seq<Byte>)
    requires FileOverwritten(disk0, disk1, inodes0, inodes1, ino, off, a)
    requires FileOverwritten(disk1, disk2, inodes1, inodes2, ino, off + |a|, b)
    ensures FileOverwritten(disk0, disk2, inodes0, inodes2, ino, off, a + b)
  {
    hide Contents, ByteAt, ZoneAt;
    OverwrittenTwice(Contents(disk0, inodes0[ino]), off, a, b);
    RangesEnd(off, |a|, |b|);
    forall bn | off / BSIZE <= bn < EndBlock(off, |a + b|) ensures ZoneAt(disk2, inodes2[ino], bn) != 0 {
      RangesJoin(off, |a|, |b|, bn);
      assert bn < EndBlock(off, |a|) ==> ZoneAt(disk1, inodes1[ino], bn) != 0;
    }
    forall j | j in inodes0 && j != ino && !IsChr(inodes0[j].mode)
      ensures SameFile(disk0, disk2, inodes0[j], inodes2[j])
    {
      assert SameFile(disk0, disk1, inodes0[j], inodes1[j]) && SameFile(disk1, disk2, inodes1[j], inodes2[j]);
    }
  }

  lemma OverwrittenTwice(file: seq<Byte>, off: nat, a: seq<Byte>, b: seq<Byte>)
    requires off <= |file|
    ensures off + |a| <= |Overwrite(file, off, a)|
    ensures Overwrite(Overwrite(file, off, a), off + |a|, b) == Overwrite(file, off, a + b)
  {
  }

  /** The blocks of both pieces are those of the whole. */
  lemma RangesJoin(off: nat, m: nat, n: nat, bn: nat)
    requires off / BSIZE <= bn < EndBlock(off, m + n)
    ensures bn < EndBlock(off, m) || (off + m) / BSIZE <= bn < EndBlock(off + m, n)
  {
    if n == 0 {
      assert off + m + n == off + m;
    } else {
      assert EndBlock(off, m + n) == EndBlock(off + m, n);
    }
  }

  lemma RangesEnd(off: nat, m: nat, n: nat)
    ensures EndBlock(off, m + n) <= if n == 0 then EndBlock(off, m) else EndBlock(off + m, n)
  {
  }

  /** A program writes twice, or two that share the file write in turn: the second write goes on where
      the first one ended, and the file is overwritten by both pieces. */
  method WriteInTurn(fs: FileSystem, file: OpenFile, a: seq<Byte>, b: seq<Byte>) returns (stopped: bool)
    requires file.Usable(fs) && file.writeable && file.off <= file.Meta(fs).size
    modifies file`off, fs`inodes, fs`owner, fs.icache, fs.c, fs.c.buf
    ensures !stopped ==>
              && file.Usable(fs) && file.off == old(file.off) + |a + b|
              && file.Bytes(fs) == Overwrite(old(file.Bytes(fs)), old(file.off), a + b)
              && FileOverwritten(old(fs.c.disk), fs.c.disk, old(fs.inodes), fs.inodes, old(fs.icache[file.ip].ino),
                                 old(file.off), a + b)
  {
    hide BufferCache.BufferCache.Valid, Inv, FileOverwritten, Contents, CanStore, EndBlock, Refs, SameInodeMap,
         OtherInodesKept, AllPresent, Overwrite;
    ghost var disk0, inodes0, ino, off := fs.c.disk, fs.inodes, fs.icache[file.ip].ino, file.off;
    var len;
    stopped, len := file.Fwrite(fs, a);
    if stopped {
      return;
    }
    ghost var disk1, inodes1 := fs.c.disk, fs.inodes;
    stopped, len := file.Fwrite(fs, b);
    if stopped {
      return;
    }
    TwoWrites(disk0, disk1, fs.c.disk, inodes0, inodes1, fs.inodes, ino, off, a, b);
    OverwrittenBoth(disk0, fs.c.disk, inodes0, fs.inodes, ino, off, a + b);
  }

  lemma OverwrittenBoth(disk0: Disk, disk: Disk, inodes0: Inodes, inodes: Inodes, ino: nat, off: nat, src: seq<Byte>)
    requires FileOverwritten(disk0, disk, inodes0, inodes, ino, off, src)
    ensures ino in inodes0 && ino in inodes && WellFormedInode(inodes0[ino]) && WellFormedInode(inodes[ino])
    ensures inodes0[ino].size <= MAXSIZE && inodes[ino].size <= MAXSIZE && off <= inodes0[ino].size
    ensures Contents(disk, inodes[ino]) == Overwrite(Contents(disk0, inodes0[ino]), off, src)
  {
  }

  /** Locking, working and unlocking leave every reference count as it was. */
  lemma CountsBack(ic0: seq<MemInode>, ic1: seq<MemInode>, ic2: seq<MemInode>, ic3: seq<MemInode>, ino: nat)
    requires RefsChange(ic0, ic1, ino, 0) && RefsChange(ic1, ic2, ino, 0) && RefsChange(ic2, ic3, ino, 0)
    ensures forall j: nat :: Refs(ic3, j) == Refs(ic0, j)
  {
  }

  lemma LockedAlone(fs: FileSystem, ip: nat)
    requires ip < fs.icache.Length && fs.c.held == map[] && fs.icache[ip].ref > 0 && fs.icache[ip].valid
    requires fs.icache[ip].busy
    requires fs.icache[ip].ino in fs.inodes && fs.inodes[fs.icache[ip].ino] == fs.icache[ip].d
    requires !IsChr(fs.icache[ip].d.mode)
    ensures fs.IsLocked(ip)
  {
  }

  lemma ExtendedKeeps(disk: Disk, disk': Disk, inodes: Inodes, inodes': Inodes, ino: nat)
    requires Extended(disk, disk', inodes, inodes', ino) && WellFormedInode(inodes[ino]) && !IsChr(inodes[ino].mode)
    requires inodes[ino].size <= MAXSIZE
    ensures ino in inodes' && WellFormedInode(inodes'[ino]) && inodes'[ino].size == inodes[ino].size
    ensures inodes'[ino].mode == inodes[ino].mode
    ensures Contents(disk', inodes'[ino]) == Contents(disk, inodes[ino])
  {
    assert SameFile(disk, disk', inodes[ino], inodes'[ino]);
    SameContents(disk, disk', inodes[ino], inodes'[ino]);
  }
}
