/** A directory is an array of 16-byte slots (struct dir_entry); on values it is a finite map from
    names to inode numbers (fs/dir.c). */
module DirEntries {
  import opened Minix
  import opened FsState

  const ENTRY: nat := 16
  const NAME_LEN: nat := 14

  type Name = seq<Byte>

  /** A name the code stores and finds again: a C string shorter than the field. */
  predicate IsName(name: Name) { 0 < |name| < NAME_LEN && 0 !in name }

  /** The C string at the start of a character field. */
  function CString(field: seq<Byte>): (s: seq<Byte>)
    ensures |s| <= |field| && s == field[..|s|] && 0 !in s
    ensures |s| < |field| ==> field[|s|] == 0
  {
    if field == [] || field[0] == 0 then [] else [field[0]] + CString(field[1..])
  }

  /** The C string is what stands before the first zero. */
  lemma {:induction false} CStringIs(field: seq<Byte>, s: seq<Byte>)
    requires |s| < |field| && s == field[..|s|] && 0 !in s && field[|s|] == 0
    ensures CString(field) == s
  {
    if s != [] {
      assert field[0] == s[0];
      assert s[1..] == field[1..][..|s| - 1];
      CStringIs(field[1..], s[1..]);
      assert s == [s[0]] + s[1..];
    }
  }

  /** `strncmp(name, de.name, NAME_LEN) == 0` */
  predicate Matches(name: Name, field: seq<Byte>)
    requires |field| == NAME_LEN
  {
    CString(field) == name
  }

  /** `strncpy(de.name, name, NAME_LEN)`: the name, a terminator, and what was there before. */
  function StoreName(field: seq<Byte>, name: Name): (r: seq<Byte>)
    requires |field| == NAME_LEN && IsName(name)
    ensures |r| == NAME_LEN && Matches(name, r)
  {
    var r := name + [0] + field[|name| + 1..];
    CStringIs(r, name);
    r
  }

  function Slots(s: seq<Byte>): nat { |s| / ENTRY }

  function SlotBytes(s: seq<Byte>, i: nat): (e: seq<Byte>)
    requires i < Slots(s)
    ensures |e| == ENTRY
  {
    s[ENTRY * i..ENTRY * i + ENTRY]
  }

  function EntryIno(e: seq<Byte>): U16 requires |e| == ENTRY { WordOf(e, 0) }

  function EntryName(e: seq<Byte>): Name requires |e| == ENTRY { CString(e[2..]) }

  function MakeEntry(ino: U16, field: seq<Byte>): (e: seq<Byte>)
    requires |field| == NAME_LEN
    ensures |e| == ENTRY && EntryIno(e) == ino && e[2..] == field
  {
    [Lo(ino), Hi(ino)] + field
  }

  predicate Live(s: seq<Byte>, i: nat)
    requires i < Slots(s)
  {
    EntryIno(SlotBytes(s, i)) != 0
  }

  function NameAt(s: seq<Byte>, i: nat): Name requires i < Slots(s) { EntryName(SlotBytes(s, i)) }
  function InoAt(s: seq<Byte>, i: nat): U16 requires i < Slots(s) { EntryIno(SlotBytes(s, i)) }

  /** Slot i binds `name` to inode `ino`. */
  predicate Binds(s: seq<Byte>, i: nat, name: Name, ino: nat) {
    i < Slots(s) && Live(s, i) && NameAt(s, i) == name && InoAt(s, i) == ino
  }

  /** Whole slots, and no name bound twice. */
  ghost predicate IsDirectory(s: seq<Byte>) {
    && |s| % ENTRY == 0
    && forall i: nat, j: nat, name, m: nat, n: nat :: Binds(s, i, name, m) && Binds(s, j, name, n) ==> i == j
  }

  /** `m` is the directory read as a map. */
  ghost predicate IsMap(s: seq<Byte>, m: map<Name, nat>) {
    && (forall i: nat, name, ino: nat :: Binds(s, i, name, ino) ==> name in m && m[name] == ino)
    && (forall name :: name in m ==> exists i: nat :: Binds(s, i, name, m[name]))
  }

  /** A directory is exactly one map. */
  lemma MapUnique(s: seq<Byte>, m: map<Name, nat>, m': map<Name, nat>)
    requires IsMap(s, m) && IsMap(s, m')
    ensures m == m'
  {
    forall name | name in m ensures name in m' && m'[name] == m[name] {
      var i: nat :| Binds(s, i, name, m[name]);
    }
    forall name | name in m' ensures name in m {
      var i: nat :| Binds(s, i, name, m'[name]);
    }
  }

  /** The bindings of the first n slots. */
  ghost function BindingsBelow(s: seq<Byte>, n: nat): map<Name, nat>
    requires n <= Slots(s)
  {
    if n == 0 then map[] else
      BindingsBelow(s, n - 1) + if Live(s, n - 1) then map[NameAt(s, n - 1) := InoAt(s, n - 1) as nat] else map[]
  }

  ghost function Bindings(s: seq<Byte>): map<Name, nat> { BindingsBelow(s, Slots(s)) }

  ghost predicate BoundBelow(s: seq<Byte>, n: nat, name: Name, ino: nat) {
    exists i: nat :: i < n && Binds(s, i, name, ino)
  }

  lemma {:induction false} BelowIsMap(s: seq<Byte>, n: nat)
    requires IsDirectory(s) && n <= Slots(s)
    ensures forall name, ino: nat :: BoundBelow(s, n, name, ino) <==>
              name in BindingsBelow(s, n) && BindingsBelow(s, n)[name] == ino
  {
    if n > 0 {
      BelowIsMap(s, n - 1);
      var m := BindingsBelow(s, n);
      if Live(s, n - 1) {
        assert Binds(s, n - 1, NameAt(s, n - 1), InoAt(s, n - 1));
        assert BoundBelow(s, n, NameAt(s, n - 1), InoAt(s, n - 1));
      }
      forall name, ino: nat ensures BoundBelow(s, n, name, ino) <==> name in m && m[name] == ino {
        BelowStep(s, n, name, ino);
      }
    }
  }

  lemma BelowStep(s: seq<Byte>, n: nat, name: Name, ino: nat)
    requires IsDirectory(s) && 0 < n <= Slots(s)
    ensures BoundBelow(s, n, name, ino) <==>
              if Live(s, n - 1) && NameAt(s, n - 1) == name then InoAt(s, n - 1) == ino
                  else BoundBelow(s, n - 1, name, ino)
  {
    if Live(s, n - 1) && NameAt(s, n - 1) == name {
      assert Binds(s, n - 1, name, InoAt(s, n - 1));
    }
    if BoundBelow(s, n - 1, name, ino) {
      var i: nat :| i < n - 1 && Binds(s, i, name, ino);
      assert i < n && Binds(s, i, name, ino);
    }
  }

  /** Every directory is the map of its bindings. */
  lemma BindingsIsMap(s: seq<Byte>)
    requires IsDirectory(s)
    ensures IsMap(s, Bindings(s))
  {
    BelowIsMap(s, Slots(s));
    forall i: nat, name, ino: nat | Binds(s, i, name, ino) ensures name in Bindings(s) && Bindings(s)[name] == ino {
      assert BoundBelow(s, Slots(s), name, ino);
    }
    forall name | name in Bindings(s) ensures exists i: nat :: Binds(s, i, name, Bindings(s)[name]) {
      assert BoundBelow(s, Slots(s), name, Bindings(s)[name]);
    }
  }

  /** The slot's bytes became e; every other slot is as before. */
  ghost predicate SlotSet(s: seq<Byte>, t: seq<Byte>, i: nat, e: seq<Byte>) {
    && |e| == ENTRY && |s| % ENTRY == 0 && |t| % ENTRY == 0 && i < Slots(t)
    && Slots(s) <= Slots(t) <= Slots(s) + 1 && (i < Slots(s) <==> Slots(t) == Slots(s))
    && SlotBytes(t, i) == e
    && forall k :: 0 <= k < Slots(s) && k != i ==> SlotBytes(t, k) == SlotBytes(s, k)
  }

  /** iwrite of one entry at a slot boundary, at most at the end. */
  lemma OverwriteSlot(s: seq<Byte>, i: nat, e: seq<Byte>)
    requires |s| % ENTRY == 0 && i <= Slots(s) && |e| == ENTRY
    ensures SlotSet(s, Overwrite(s, ENTRY * i, e), i, e)
  {
    var t := Overwrite(s, ENTRY * i, e);
    if i < Slots(s) {
      assert ENTRY * i + ENTRY <= |s|;
      assert |t| == |s|;
    } else {
      assert |t| == |s| + ENTRY;
    }
    assert SlotBytes(t, i) == e;
    forall k | 0 <= k < Slots(s) && k != i ensures SlotBytes(t, k) == SlotBytes(s, k) {
      if k < i {
        assert SlotBytes(t, k) == s[..ENTRY * i][ENTRY * k..ENTRY * k + ENTRY];
      } else {
        assert ENTRY * k >= ENTRY * i + ENTRY;
      }
    }
  }

  lemma OtherSlots(s: seq<Byte>, t: seq<Byte>, i: nat, e: seq<Byte>, k: nat, name: Name, ino: nat)
    requires SlotSet(s, t, i, e) && k != i
    ensures Binds(t, k, name, ino) <==> Binds(s, k, name, ino)
  {
  }

  /** Filling a dead slot, or a new one at the end, with an unbound name adds exactly that binding. */
  lemma LinkAdds(s: seq<Byte>, t: seq<Byte>, i: nat, e: seq<Byte>)
    requires IsDirectory(s) && SlotSet(s, t, i, e) && |e| == ENTRY && EntryIno(e) != 0
    requires i < Slots(s) ==> !Live(s, i)
    requires EntryName(e) !in Bindings(s)
    ensures IsDirectory(t)
    ensures Bindings(t) == Bindings(s)[EntryName(e) := EntryIno(e)]
  {
    hide SlotSet, Bindings, InoAt, NameAt, Live;
    BindingsIsMap(s);
    var name, m := EntryName(e), Bindings(s)[EntryName(e) := EntryIno(e)];
    SlotHolds(s, t, i, e);
    forall k: nat, x, ino: nat | Binds(t, k, x, ino)
      ensures if k == i then x == name && ino == EntryIno(e) else Binds(s, k, x, ino)
    {
      if k != i { OtherSlots(s, t, i, e, k, x, ino); } else { SlotHoldsOnly(s, t, i, e, x, ino); }
    }
    forall k: nat, x, ino: nat | Binds(s, k, x, ino) ensures k != i && Binds(t, k, x, ino) {
      DeadBindsNothing(s, i, k, x, ino);
      OtherSlots(s, t, i, e, k, x, ino);
    }
    SlotSetWhole(s, t, i, e);
    assert IsDirectory(t);
    assert IsMap(t, m) by {
      forall x | x in m ensures exists k: nat :: Binds(t, k, x, m[x]) {
        if x != name { var k: nat :| Binds(s, k, x, Bindings(s)[x]); assert Binds(t, k, x, m[x]); }
      }
    }
    BindingsIsMap(t);
    MapUnique(t, m, Bindings(t));
  }

  lemma SlotSetWhole(s: seq<Byte>, t: seq<Byte>, i: nat, e: seq<Byte>)
    requires SlotSet(s, t, i, e)
    ensures |t| % ENTRY == 0
  {
  }

  lemma SlotHolds(s: seq<Byte>, t: seq<Byte>, i: nat, e: seq<Byte>)
    requires SlotSet(s, t, i, e) && EntryIno(e) != 0
    ensures Binds(t, i, EntryName(e), EntryIno(e))
  {
  }

  lemma SlotHoldsOnly(s: seq<Byte>, t: seq<Byte>, i: nat, e: seq<Byte>, x: Name, ino: nat)
    requires SlotSet(s, t, i, e) && Binds(t, i, x, ino)
    ensures x == EntryName(e) && ino == EntryIno(e) != 0
  {
  }

  lemma DeadBindsNothing(s: seq<Byte>, i: nat, k: nat, x: Name, ino: nat)
    requires i < Slots(s) ==> !Live(s, i)
    requires Binds(s, k, x, ino)
    ensures k != i
  {
  }

  lemma BindsOne(s: seq<Byte>, i: nat, x: Name, m: nat, y: Name, n: nat)
    requires Binds(s, i, x, m) && Binds(s, i, y, n)
    ensures x == y && m == n
  {
  }

  /** Zeroing a slot removes exactly its binding. */
  lemma ClearRemoves(s: seq<Byte>, t: seq<Byte>, i: nat, e: seq<Byte>, name: Name, was: nat)
    requires IsDirectory(s) && SlotSet(s, t, i, e) && |e| == ENTRY && EntryIno(e) == 0
    requires Binds(s, i, name, was)
    ensures IsDirectory(t)
    ensures Bindings(t) == Bindings(s) - {name}
  {
    hide SlotSet, Bindings, InoAt, NameAt, Live, Binds;
    forall k: nat, x, ino: nat | Binds(s, k, x, ino) ensures k == i ==> x == name {
      if k == i { BindsOne(s, i, x, ino, name, was); }
    }
    BindingsIsMap(s);
    var m := Bindings(s) - {name};
    forall k: nat, x, ino: nat | Binds(t, k, x, ino) ensures k != i && Binds(s, k, x, ino) && x != name {
      if k == i { SlotHoldsOnly(s, t, i, e, x, ino); }
      OtherSlots(s, t, i, e, k, x, ino);
    }
    SlotSetWhole(s, t, i, e);
    assert IsDirectory(t);
    assert IsMap(t, m) by {
      forall x | x in m ensures exists k: nat :: Binds(t, k, x, m[x]) {
        var k: nat :| Binds(s, k, x, Bindings(s)[x]);
        OtherSlots(s, t, i, e, k, x, m[x]);
      }
    }
    BindingsIsMap(t);
    MapUnique(t, m, Bindings(t));
  }
}

/** fs/dir.c and the slot clearing of sys_unlink over the inode layer. */
module Directory {
  import opened Minix
  import opened Bitmap
  import opened BufferCache
  import opened Files
  import opened FsState
  import opened InodeRefs
  import opened InodeLayer
  import opened DirEntries

  /** Every block of the file has its zone. */
  ghost predicate HoleFree(disk: Disk, ip: Inode) {
    WellFormedInode(ip) && ip.size <= MAXSIZE && EndBlock(0, ip.size) <= MAXFILE
        && AllMapped(disk, ip, 0, EndBlock(0, ip.size))
  }

  lemma {:induction false} NoHoles(disk: Disk, ip: Inode, lo: nat, hi: nat)
    requires WellFormedInode(ip) && hi <= MAXFILE && AllMapped(disk, ip, lo, hi)
    ensures Holes(disk, ip, lo, hi) == 0
    ensures Need(disk, ip, lo, hi) == 0
    ensures AllPresent(ip, lo, hi)
    decreases hi - lo
  {
    if lo < hi {
      NoHoles(disk, ip, lo + 1, hi);
      assert ZoneAt(disk, ip, hi - 1) != 0;
      forall bn | lo <= bn < hi ensures !Missing(ip, bn) { assert ZoneAt(disk, ip, bn) != 0; }
    }
  }

  lemma EndBlockMonotone(off: nat, n: nat, size: nat)
    requires off + n <= size && n > 0
    ensures EndBlock(off, n) <= EndBlock(0, size)
  {
  }

  /** Reading a file without holes allocates nothing. */
  lemma HoleFreeRead(disk: Disk, ip: Inode, off: nat, n: nat)
    requires HoleFree(disk, ip) && off + n <= ip.size && n > 0
    ensures ReadNeed(disk, ip, off, n) == 0 && Clipped(ip, off, n) == n
    ensures EndBlock(off, n) <= MAXFILE && AllPresent(ip, off / BSIZE, EndBlock(off, n))
  {
    EndBlockMonotone(off, n, ip.size);
    NoHoles(disk, ip, off / BSIZE, EndBlock(off, n));
  }

  /** A file without holes stays without holes, and its inode on the disk keeps agreeing with the
      one in memory, whatever is written to it. */
  lemma HoleFreeWrite(disk0: Disk, disk: Disk, inodes0: Inodes, inodes: Inodes, ino: nat, off: nat, src: seq<Byte>)
    requires FileOverwritten(disk0, disk, inodes0, inodes, ino, off, src) && HoleFree(disk0, inodes0[ino])
    ensures HoleFree(disk, inodes[ino])
    ensures off + |src| > inodes0[ino].size || AllPresent(inodes0[ino], off / BSIZE, EndBlock(off, |src|))
  {
    var ip0, ip := inodes0[ino], inodes[ino];
    EndBlockBound(0, ip.size);
    forall bn | 0 <= bn < EndBlock(0, ip.size) ensures ZoneAt(disk, ip, bn) != 0 {
      if bn < EndBlock(0, ip0.size) {
        assert ZoneAt(disk0, ip0, bn) != 0;
      } else {
        GrownBlocks(ip0.size, off, |src|, bn);
      }
    }
    if off + |src| <= ip0.size && |src| > 0 {
      HoleFreeRead(disk0, ip0, off, |src|);
    }
  }

  /** The blocks a longer file has more lie in the range that was written. */
  lemma GrownBlocks(size: nat, off: nat, n: nat, bn: nat)
    requires off <= size && EndBlock(0, size) <= bn < EndBlock(0, Max(size, off + n))
    ensures off / BSIZE <= bn < EndBlock(off, n)
  {
  }

  /** The bytes of the file in slot ip. */
  ghost function Bytes(fs: FileSystem, ip: nat): seq<Byte>
    reads fs, fs.icache, fs.c
  {
    if ip < fs.icache.Length && WellFormedInode(fs.icache[ip].d) && fs.icache[ip].d.size <= MAXSIZE
    then Contents(fs.c.disk, fs.icache[ip].d) else []
  }

  /** The locked directory in slot dip can be read without allocating. */
  ghost predicate DirReady(fs: FileSystem, dip: nat)
    reads fs, fs.icache, fs.c, fs.c.buf
  {
    && fs.Valid() && fs.IsLocked(dip) && dip < fs.icache.Length && |fs.c.held| + 2 <= BufferList.NBUF
    && HoleFree(fs.c.disk, fs.icache[dip].d)
    && IsDirectory(Bytes(fs, dip))
  }

  /** iread of one slot. */
  method ReadEntry(fs: FileSystem, dip: nat, off: nat) returns (e: seq<Byte>)
    requires DirReady(fs, dip) && off % ENTRY == 0 && off < fs.icache[dip].d.size
    modifies fs`inodes, fs`owner, fs.icache, fs.c, fs.c.buf
    ensures DirReady(fs, dip)
    ensures fs.c.disk == old(fs.c.disk) && fs.inodes == old(fs.inodes) && fs.c.held == old(fs.c.held)
    ensures fs.icache[..] == old(fs.icache[..])
    ensures Bytes(fs, dip) == old(Bytes(fs, dip))
    ensures off / ENTRY < Slots(Bytes(fs, dip)) && e == SlotBytes(Bytes(fs, dip), off / ENTRY)
  {
    hide BufferCache.Valid, Inv, Locked, FreeZones, ReadNeed, Extended, AllPresent, SameInodeBlocks, HoleFree,
         IsDirectory;
    SlotBound(fs.icache[dip].d.size, off);
    HoleFreeSize(fs.c.disk, fs.icache[dip].d);
    WholeSlots(Bytes(fs, dip));
    LoadedWhenLocked(fs.icache[..], fs.inodes, fs.owner, fs.c.held, dip);
    HoleFreeRead(fs.c.disk, fs.icache[dip].d, off, ENTRY);
    var n;
    n, e := fs.Iread(dip, off, ENTRY);
    assert fs.icache[..] == old(fs.icache[..]);
  }

  lemma HoleFreeSize(disk: Disk, ip: Inode)
    requires HoleFree(disk, ip)
    ensures WellFormedInode(ip) && ip.size <= MAXSIZE
  {
  }

  lemma WholeSlots(s: seq<Byte>)
    requires IsDirectory(s)
    ensures |s| % ENTRY == 0
  {
  }

  lemma SlotBound(size: nat, off: nat)
    requires off % ENTRY == 0 && off < size
    ensures size % ENTRY == 0 ==> off + ENTRY <= size && off / ENTRY < size / ENTRY
    ensures off == ENTRY * (off / ENTRY)
  {
  }

  /** No live slot before slot n carries the name. */
  ghost predicate NotBelow(s: seq<Byte>, name: Name, n: nat) {
    forall i :: 0 <= i < n && i < Slots(s) && Live(s, i) ==> NameAt(s, i) != name
  }

  lemma NotBound(s: seq<Byte>, name: Name)
    requires IsDirectory(s) && NotBelow(s, name, Slots(s))
    ensures name !in Bindings(s)
  {
    BindingsIsMap(s);
    assert forall i: nat, ino: nat :: !Binds(s, i, name, ino);
  }

  lemma BoundAt(s: seq<Byte>, i: nat, name: Name, ino: nat)
    requires IsDirectory(s) && Binds(s, i, name, ino)
    ensures name in Bindings(s) && Bindings(s)[name] == ino
  {
    BindingsIsMap(s);
  }

  /** An inode can be referred to: it exists, and is in memory or has a free slot. */
  ghost predicate CanGet(ic: seq<MemInode>, inodes: Inodes, ino: nat) {
    ino in inodes && exists l :: 0 <= l < |ic| && (CachedAt(ic, ino, l) || ic[l].ref == 0)
  }

  lemma DirFacts(fs: FileSystem, dip: nat)
    requires DirReady(fs, dip)
    ensures dip < fs.icache.Length && WellFormedInode(fs.icache[dip].d) && fs.icache[dip].d.size <= MAXSIZE
    ensures fs.Valid() && IsDirectory(Bytes(fs, dip)) && |Bytes(fs, dip)| == fs.icache[dip].d.size
    ensures fs.icache[dip].d.size % ENTRY == 0
  {
  }

  /** dir_lookup's loop: the offset of the slot that binds the name, or the size. */
  method FindSlot(fs: FileSystem, dip: nat, name: Name, ghost s: seq<Byte>) returns (off: nat, ino: nat)
    requires DirReady(fs, dip) && IsName(name) && s == Bytes(fs, dip)
    modifies fs`inodes, fs`owner, fs.icache, fs.c, fs.c.buf
    ensures DirReady(fs, dip)
    ensures fs.c.disk == old(fs.c.disk) && fs.inodes == old(fs.inodes) && fs.c.held == old(fs.c.held)
    ensures fs.icache[..] == old(fs.icache[..]) && Bytes(fs, dip) == s
    ensures off % ENTRY == 0 && off <= |s|
    ensures off < |s| ==> Binds(s, off / ENTRY, name, ino)
    ensures off == |s| ==> NotBelow(s, name, Slots(s))
  {
    hide DirReady, InodeLayer.FileSystem.Valid, IsDirectory, Contents, Bytes;
    DirFacts(fs, dip);
    ghost var ic0 := fs.icache[..];
    off, ino := 0, 0;
    while off < fs.icache[dip].d.size
      invariant DirReady(fs, dip) && off % ENTRY == 0 && off <= |s| == fs.icache[dip].d.size
      invariant fs.c.disk == old(fs.c.disk) && fs.inodes == old(fs.inodes) && fs.c.held == old(fs.c.held)
      invariant fs.icache[..] == ic0 && Bytes(fs, dip) == s
      invariant NotBelow(s, name, off / ENTRY)
      decreases |s| - off
    {
      var e := ReadEntry(fs, dip, off);
      if EntryIno(e) != 0 && Matches(name, e[2..]) {
        ino := EntryIno(e);
        return;
      }
      NextSlot(s, name, off);
      off := off + ENTRY;
    }
  }

  lemma NextSlot(s: seq<Byte>, name: Name, off: nat)
    requires off % ENTRY == 0 && off < |s| && |s| % ENTRY == 0 && NotBelow(s, name, off / ENTRY)
    requires off / ENTRY < Slots(s) && !(Live(s, off / ENTRY) && NameAt(s, off / ENTRY) == name)
    ensures NotBelow(s, name, (off + ENTRY) / ENTRY) && (off + ENTRY) % ENTRY == 0 && off + ENTRY <= |s|
  {
    SlotBound(|s|, off);
    assert (off + ENTRY) / ENTRY == off / ENTRY + 1;
  }

  /** Slot ip holds the same inode in both tables, up to its reference count. */
  ghost predicate SameSlot(ic0: seq<MemInode>, ic: seq<MemInode>, ip: nat) {
    ip < |ic0| == |ic| && ic[ip] == ic0[ip].(ref := ic[ip].ref)
  }

  /** dir_lookup: the bound inode with one more reference, and where its slot is. */
  method DirLookup(fs: FileSystem, dip: nat, name: Name, ghost s: seq<Byte>) returns (found: bool, k: nat, off: nat)
    requires DirReady(fs, dip) && IsName(name) && s == Bytes(fs, dip)
    requires name in Bindings(s) ==> CanGet(fs.icache[..], fs.inodes, Bindings(s)[name])
    modifies fs`inodes, fs`owner, fs.icache, fs.c, fs.c.buf
    ensures DirReady(fs, dip) && Bytes(fs, dip) == s
    ensures fs.c.disk == old(fs.c.disk) && fs.inodes == old(fs.inodes) && fs.c.held == old(fs.c.held)
    ensures found <==> name in Bindings(s)
    ensures found ==> off % ENTRY == 0 && Binds(s, off / ENTRY, name, Bindings(s)[name])
    ensures found ==> GotRef(old(fs.icache[..]), fs.icache[..], k, Bindings(s)[name])
    ensures SameSlot(old(fs.icache[..]), fs.icache[..], dip)
    ensures !found ==> fs.icache[..] == old(fs.icache[..])
  {
    hide DirReady, Bindings, InodeLayer.FileSystem.Valid, IsDirectory, Contents, Bytes;
    DirFacts(fs, dip);
    var ino;
    off, ino := FindSlot(fs, dip, name, s);
    found, k := off < fs.icache[dip].d.size, 0;
    if found {
      BoundAt(s, off / ENTRY, name, ino);
      k := GetBound(fs, dip, ino);
    } else {
      NotBound(s, name);
    }
  }

  /** iget of an inode while the directory stays locked, also when it is the directory itself. */
  method GetBound(fs: FileSystem, dip: nat, ino: nat) returns (k: nat)
    requires DirReady(fs, dip) && CanGet(fs.icache[..], fs.inodes, ino)
    modifies fs.icache
    ensures SameSlot(old(fs.icache[..]), fs.icache[..], dip)
    ensures DirReady(fs, dip) && GotRef(old(fs.icache[..]), fs.icache[..], k, ino)
    ensures Bytes(fs, dip) == old(Bytes(fs, dip))
  {
    hide BufferCache.Valid, HoleFree, IsDirectory, Contents, RefsChange, Inv;
    k := fs.Iget(ino);
  }

  /** Every slot before slot n is live. */
  ghost predicate AllLive(s: seq<Byte>, n: nat) {
    forall i :: 0 <= i < n && i < Slots(s) ==> Live(s, i)
  }

  lemma NextLive(s: seq<Byte>, off: nat)
    requires off % ENTRY == 0 && off < |s| && |s| % ENTRY == 0 && AllLive(s, off / ENTRY)
    requires off / ENTRY < Slots(s) && Live(s, off / ENTRY)
    ensures AllLive(s, (off + ENTRY) / ENTRY) && (off + ENTRY) % ENTRY == 0 && off + ENTRY <= |s|
  {
    SlotBound(|s|, off);
    assert (off + ENTRY) / ENTRY == off / ENTRY + 1;
  }

  /** dir_link's loop: the first free slot or the end, and what the local entry's name field holds
      then.  `field` is what it held before. */
  method FindFree(fs: FileSystem, dip: nat, field: seq<Byte>, ghost s: seq<Byte>) returns (off: nat, rest: seq<Byte>)
    requires DirReady(fs, dip) && s == Bytes(fs, dip) && |field| == NAME_LEN
    modifies fs`inodes, fs`owner, fs.icache, fs.c, fs.c.buf
    ensures DirReady(fs, dip) && |rest| == NAME_LEN
    ensures fs.c.disk == old(fs.c.disk) && fs.inodes == old(fs.inodes) && fs.c.held == old(fs.c.held)
    ensures fs.icache[..] == old(fs.icache[..]) && Bytes(fs, dip) == s
    ensures off % ENTRY == 0 && off <= |s| && |s| % ENTRY == 0 && AllLive(s, off / ENTRY)
    ensures off < |s| ==> off / ENTRY < Slots(s) && !Live(s, off / ENTRY)
  {
    hide DirReady, InodeLayer.FileSystem.Valid, IsDirectory, Contents, Bytes;
    DirFacts(fs, dip);
    ghost var ic0 := fs.icache[..];
    off, rest := 0, field;
    while off < fs.icache[dip].d.size
      invariant DirReady(fs, dip) && off % ENTRY == 0 && off <= |s| == fs.icache[dip].d.size && |rest| == NAME_LEN
      invariant fs.c.disk == old(fs.c.disk) && fs.inodes == old(fs.inodes) && fs.c.held == old(fs.c.held)
      invariant fs.icache[..] == ic0 && Bytes(fs, dip) == s
      invariant AllLive(s, off / ENTRY)
      decreases |s| - off
    {
      var e := ReadEntry(fs, dip, off);
      rest := e[2..];
      if EntryIno(e) == 0 {
        return;
      }
      NextLive(s, off);
      off := off + ENTRY;
    }
  }

  /** A slot can be written: it is in the file, or the directory can grow by one. */
  predicate SlotWritable(sb: SuperBlock, disk: Disk, d: Inode, i: nat) {
    WellFormedInode(d) &&
    (i < d.size / ENTRY ||
     (i == d.size / ENTRY && ENTRY * i + ENTRY <= MAXSIZE
      && |FreeZones(sb, disk)| >= WriteNeed(disk, d, ENTRY * i, ENTRY)))
  }

  predicate CanWriteSlot(fs: FileSystem, dip: nat, i: nat)
    reads fs, fs.icache, fs.c
  {
    dip < fs.icache.Length && SlotWritable(fs.sb, fs.c.disk, fs.icache[dip].d, i)
  }

  /** iwrite of one slot. */
  method WriteEntry(fs: FileSystem, dip: nat, off: nat, e: seq<Byte>, ghost s: seq<Byte>)
    requires DirReady(fs, dip) && s == Bytes(fs, dip) && off % ENTRY == 0 && off <= |s| && |e| == ENTRY
    requires CanWriteSlot(fs, dip, off / ENTRY)
    modifies fs`inodes, fs`owner, fs.icache, fs.c, fs.c.buf
    ensures fs.Valid() && fs.IsLocked(dip) && dip < fs.icache.Length && HoleFree(fs.c.disk, fs.icache[dip].d)
    ensures fs.c.held == old(fs.c.held)
    ensures IsDirectory(s) && |fs.c.held| + 2 <= BufferList.NBUF
    ensures SlotSet(s, Bytes(fs, dip), off / ENTRY, e)
    ensures FileOverwritten(old(fs.c.disk), fs.c.disk, old(fs.inodes), fs.inodes, old(fs.icache[dip].ino), off, e)
    ensures fs.icache[..] == old(fs.icache[..])[dip := old(fs.icache[dip]).(d := fs.icache[dip].d)]
    ensures fs.icache[dip].ino in fs.inodes && fs.icache[dip].d == fs.inodes[fs.icache[dip].ino]
    ensures DiskBut(fs, old(fs.c.disk), fs.c.disk, old(fs.icache[dip].ino))
    ensures old(fs.DiskAgrees(dip)) ==> fs.DiskAgrees(dip)
  {
    hide BufferCache.Valid, Inv, Locked, FreeZones, FileOverwritten, AllPresent, HoleFree, IsDirectory, SlotSet,
         EndBlock, SameInodeMap,
         OtherInodesKept;
    HoleFreeSize(fs.c.disk, fs.icache[dip].d);
    LoadedWhenLocked(fs.icache[..], fs.inodes, fs.owner, fs.c.held, dip);
    WholeSlots(s);
    OverwriteSlot(s, off / ENTRY, e);
    SlotNeed(fs.sb, fs.c.disk, fs.icache[dip].d, off);
    ghost var disk0, inodes0, ino := fs.c.disk, fs.inodes, fs.icache[dip].ino;
    var n := fs.Iwrite(dip, e, off);
    HoleFreeWrite(disk0, fs.c.disk, inodes0, fs.inodes, ino, off, e);
    OverwrittenBytes(disk0, fs.c.disk, inodes0, fs.inodes, ino, off, e);
    HoleFreeSize(fs.c.disk, fs.icache[dip].d);
  }

  lemma OverwrittenBytes(disk0: Disk, disk: Disk, inodes0: Inodes, inodes: Inodes, ino: nat, off: nat, src: seq<Byte>)
    requires FileOverwritten(disk0, disk, inodes0, inodes, ino, off, src)
    ensures ino in inodes0 && ino in inodes && WellFormedInode(inodes0[ino]) && WellFormedInode(inodes[ino])
    ensures inodes0[ino].size <= MAXSIZE && inodes[ino].size <= MAXSIZE && off <= inodes0[ino].size
    ensures Contents(disk, inodes[ino]) == Overwrite(Contents(disk0, inodes0[ino]), off, src)
  {
  }

  lemma SlotNeed(sb: SuperBlock, disk: Disk, ip: Inode, off: nat)
    requires HoleFree(disk, ip) && off % ENTRY == 0 && ip.size % ENTRY == 0 && off <= ip.size
    requires off / ENTRY < ip.size / ENTRY
               || (off == ip.size && off + ENTRY <= MAXSIZE && |FreeZones(sb, disk)| >= WriteNeed(disk, ip, off, ENTRY))
    ensures off + ENTRY <= MAXSIZE && |FreeZones(sb, disk)| >= WriteNeed(disk, ip, off, ENTRY)
  {
    if off / ENTRY < ip.size / ENTRY {
      HoleFreeRead(disk, ip, off, ENTRY);
    }
  }

  /** All files except `ino` are as before. */
  ghost predicate FilesBut(disk0: Disk, disk: Disk, inodes0: Inodes, inodes: Inodes, ino: nat) {
    && WellFormed(inodes0) && WellFormed(inodes) && inodes.Keys == inodes0.Keys
    && forall j :: j in inodes0 && j != ino ==>
         && inodes[j] == inodes0[j]
         && (!IsChr(inodes0[j].mode) ==>
               Contents(disk, inodes[j]) == Contents(disk0, inodes0[j]) && SameFile(disk0, disk, inodes0[j], inodes[j]))
  }

  /** The inode itself kept its type and links, and did not shrink. */
  ghost predicate SameLinks(inodes0: Inodes, inodes: Inodes, ino: nat) {
    && ino in inodes0 && ino in inodes && inodes[ino].mode == inodes0[ino].mode
    && inodes[ino].nlinks == inodes0[ino].nlinks
    && inodes[ino].size >= inodes0[ino].size
  }

  /** On the disk all other inodes are as before, and so is the inode bitmap. */
  ghost predicate DiskBut(fs: FileSystem, disk0: Disk, disk: Disk, ino: nat) {
    SameInodeMap(fs.sb, disk0, disk) && OtherInodesKept(fs.sb, fs.ipb, disk0, disk, ino)
  }

  lemma OverwrittenOthers(disk0: Disk, disk: Disk, inodes0: Inodes, inodes: Inodes, ino: nat, off: nat, src: seq<Byte>)
    requires FileOverwritten(disk0, disk, inodes0, inodes, ino, off, src)
    ensures FilesBut(disk0, disk, inodes0, inodes, ino) && SameLinks(inodes0, inodes, ino)
  {
  }

  /** Slot i, the first free one or a new last one, now binds the name; the others are as before. */
  ghost predicate SlotFilled(s: seq<Byte>, t: seq<Byte>, i: nat, name: Name, ino: nat) {
    && i <= Slots(s) && AllLive(s, i) && (i < Slots(s) ==> !Live(s, i))
    && Binds(t, i, name, ino) && SlotSet(s, t, i, SlotBytes(t, i))
  }

  lemma SlotIndex(s: seq<Byte>, off: nat)
    requires |s| % ENTRY == 0 && off % ENTRY == 0 && off <= |s|
    ensures off / ENTRY <= Slots(s) && (off / ENTRY < Slots(s) <==> off < |s|)
  {
  }

  lemma DirReferred(fs: FileSystem, dip: nat)
    requires DirReady(fs, dip)
    ensures dip < fs.icache.Length && fs.icache[dip].ref > 0
  {
  }

  lemma SlotInfo(fs: FileSystem, ip: nat)
    requires fs.Valid() && ip < fs.icache.Length && fs.icache[ip].ref > 0
    ensures 1 <= fs.icache[ip].ino < 0x1_0000
  {
  }

  /** A reference that was just taken can be dropped, and does not free the inode. */
  lemma JustTaken(fs: FileSystem, k: nat, ic0: seq<MemInode>, ino: nat)
    requires GotRef(ic0, fs.icache[..], k, ino)
    ensures fs.MayDrop(k) && !fs.Dies(k)
  {
  }

  /** Locking, contents and holders are the same after a reference is dropped. */
  lemma SlotStillLocked(ic: seq<MemInode>, inodes: Inodes, owner: map<nat, Slot>, held: map<nat, Held>, dip: nat,
                        k: nat, ref: nat)
    requires Locked(ic, inodes, owner, held, dip) && k < |ic| && (k == dip ==> ref > 0)
    ensures Locked(ic[k := ic[k].(ref := ref)], inodes, owner, held, dip)
  {
  }

  /** Slots in use are as they were, and no other came into use. */
  ghost predicate SlotsBack(ic0: seq<MemInode>, ic: seq<MemInode>) {
    && |ic| == |ic0|
    && forall k :: 0 <= k < |ic| ==> if ic0[k].ref > 0 then ic[k] == ic0[k] else ic[k].ref == 0
  }

  /** The reference dir_lookup took goes back; the inode is never freed by it. */
  method PutBack(fs: FileSystem, dip: nat, k: nat, ghost ic0: seq<MemInode>, ghost ino: nat)
    requires DirReady(fs, dip) && GotRef(ic0, fs.icache[..], k, ino) && (k == dip ==> ic0[k].ref > 0)
    modifies fs`inodes, fs.icache, fs.c, fs.c.buf
    ensures DirReady(fs, dip) && Bytes(fs, dip) == old(Bytes(fs, dip))
    ensures fs.c.disk == old(fs.c.disk) && fs.inodes == old(fs.inodes) && fs.c.held == old(fs.c.held)
    ensures old(fs.DiskAgrees(dip)) ==> fs.DiskAgrees(dip)
    ensures SlotsBack(ic0, fs.icache[..])
    ensures forall j: nat :: Refs(fs.icache[..], j) == Refs(ic0, j)
  {
    hide BufferCache.Valid, HoleFree, IsDirectory, Contents, RefsChange, Inv, Locked, Refs;
    ghost var ic1 := fs.icache[..];
    JustTaken(fs, k, ic0, ino);
    SlotStillLocked(ic1, fs.inodes, fs.owner, fs.c.held, dip, k, ic0[k].ref);
    fs.Iput(k);
    RefsBack(ic0, ic1, fs.icache[..], ino);
  }

  lemma LinkDone(fs: FileSystem, dip: nat, s: seq<Byte>, i: nat, e: seq<Byte>, name: Name)
    requires fs.Valid() && fs.IsLocked(dip) && dip < fs.icache.Length && |fs.c.held| + 2 <= BufferList.NBUF
    requires HoleFree(fs.c.disk, fs.icache[dip].d)
    requires IsDirectory(s) && |e| == ENTRY && SlotSet(s, Bytes(fs, dip), i, e) && EntryIno(e) != 0
    requires EntryName(e) == name
    requires name !in Bindings(s) && i <= Slots(s) && AllLive(s, i) && (i < Slots(s) ==> !Live(s, i))
    ensures DirReady(fs, dip)
    ensures Bindings(Bytes(fs, dip)) == Bindings(s)[name := EntryIno(e)]
    ensures SlotFilled(s, Bytes(fs, dip), i, name, EntryIno(e))
  {
    hide BufferCache.Valid, Inv, Locked, Bindings, HoleFree;
    LinkAdds(s, Bytes(fs, dip), i, e);
    SlotHolds(s, Bytes(fs, dip), i, e);
  }

  /** The first free slot of the directory, or a new one at its end, can be written. */
  ghost predicate Room(fs: FileSystem, dip: nat, s: seq<Byte>)
    reads fs, fs.icache, fs.c
  {
    dip < fs.icache.Length && RoomIn(fs.sb, fs.c.disk, fs.icache[dip].d, s)
  }

  ghost predicate RoomIn(sb: SuperBlock, disk: Disk, d: Inode, s: seq<Byte>) {
    forall i :: 0 <= i <= Slots(s) && AllLive(s, i) && (i < Slots(s) ==> !Live(s, i)) ==> SlotWritable(sb, disk, d, i)
  }

  lemma RoomAt(sb: SuperBlock, disk: Disk, d: Inode, s: seq<Byte>, i: nat)
    requires i <= Slots(s) && AllLive(s, i) && (i < Slots(s) ==> !Live(s, i))
    ensures RoomIn(sb, disk, d, s) <==> SlotWritable(sb, disk, d, i)
  {
    forall j | 0 <= j <= Slots(s) && AllLive(s, j) && (j < Slots(s) ==> !Live(s, j)) ensures j == i {
      OneFreeSlot(s, i, j);
    }
    hide AllLive, SlotWritable;
  }

  lemma SameSlots(ic: seq<MemInode>)
    ensures SlotsBack(ic, ic)
  {
  }

  /** There is one first free slot, or none and then the end. */
  lemma OneFreeSlot(s: seq<Byte>, i: nat, j: nat)
    requires i <= Slots(s) && AllLive(s, i) && (i < Slots(s) ==> !Live(s, i))
    requires j <= Slots(s) && AllLive(s, j) && (j < Slots(s) ==> !Live(s, j))
    ensures i == j
  {
  }

  /** dir_link: a bound name is refused and nothing changes; otherwise exactly one binding is added,
      in the first free slot or at the end; when there is no room for it the write stops the kernel.
      `field` is the uninitialised name field of the local entry, whose bytes end up behind the stored
      name when the directory has no slot. */
  method DirLink(fs: FileSystem, dip: nat, name: Name, fip: nat, field: seq<Byte>, ghost s: seq<Byte>)
      returns (room: bool, ok: bool)
    requires DirReady(fs, dip) && IsName(name) && s == Bytes(fs, dip) && |field| == NAME_LEN
    requires fip < fs.icache.Length && fs.icache[fip].ref > 0 && fs.icache[fip].busy && fs.icache[fip].valid
    requires name in Bindings(s) ==> CanGet(fs.icache[..], fs.inodes, Bindings(s)[name])
    modifies fs`inodes, fs`owner, fs.icache, fs.c, fs.c.buf
    ensures DirReady(fs, dip) && fs.c.held == old(fs.c.held)
    ensures room <==> name in Bindings(s) || old(Room(fs, dip, s))
    ensures ok <==> room && name !in Bindings(s)
    ensures !ok ==>
              && Bytes(fs, dip) == s && fs.c.disk == old(fs.c.disk) && fs.inodes == old(fs.inodes)
              && SlotsBack(old(fs.icache[..]), fs.icache[..])
    ensures ok ==> Bindings(Bytes(fs, dip)) == Bindings(s)[name := old(fs.icache[fip].ino)]
    ensures ok ==> exists i: nat :: SlotFilled(s, Bytes(fs, dip), i, name, old(fs.icache[fip].ino))
    ensures ok ==> FilesBut(old(fs.c.disk), fs.c.disk, old(fs.inodes), fs.inodes, old(fs.icache[dip].ino))
    ensures ok ==> SameLinks(old(fs.inodes), fs.inodes, old(fs.icache[dip].ino))
    ensures ok ==> DiskBut(fs, old(fs.c.disk), fs.c.disk, old(fs.icache[dip].ino))
    ensures ok ==> fs.icache[..] == old(fs.icache[..])[dip := old(fs.icache[dip]).(d := fs.icache[dip].d)]
    ensures old(fs.DiskAgrees(dip)) ==> fs.DiskAgrees(dip)
    ensures forall j: nat :: Refs(fs.icache[..], j) == Refs(old(fs.icache[..]), j)
  {
    hide DirReady, Bindings, InodeLayer.FileSystem.Valid, IsDirectory, Contents, Bytes, FileOverwritten, SlotSet,
         Inv, BufferCache.Valid,
         CanGet, SlotFilled, FilesBut, SameLinks, DiskBut, Refs, Locked, HoleFree, GotRef, SlotsBack, SlotWritable,
         AllLive, RoomIn;
    DirFacts(fs, dip);
    ghost var ic0, ino, disk0, inodes0 := fs.icache[..], fs.icache[dip].ino, fs.c.disk, fs.inodes;
    DirReferred(fs, dip);
    SlotInfo(fs, fip);
    var found, k, at := DirLookup(fs, dip, name, s);
    if found {
      PutBack(fs, dip, k, ic0, Bindings(s)[name]);
      return true, false;
    }
    var off, rest := FindFree(fs, dip, field, s);
    SlotIndex(s, off);
    room := CanWriteSlot(fs, dip, off / ENTRY);
    RoomAt(fs.sb, disk0, ic0[dip].d, s, off / ENTRY);
    if !room {
      SameSlots(ic0);
      return room, false;
    }
    assert fs.icache[fip] == ic0[fip] && fs.icache[dip] == ic0[dip];
    var e := MakeEntry(fs.icache[fip].ino, StoreName(rest, name));
    assert EntryIno(e) == ic0[fip].ino && EntryName(e) == name;
    WriteEntry(fs, dip, off, e, s);
    LinkDone(fs, dip, s, off / ENTRY, e, name);
    OverwrittenOthers(disk0, fs.c.disk, inodes0, fs.inodes, ino, off, e);
    RefsSame(ic0, dip, fs.icache[dip]);
    ok := true;
  }

  /** sys_unlink's write of an empty entry: exactly the binding that dir_lookup found goes. */
  method ClearSlot(fs: FileSystem, dip: nat, name: Name, off: nat, ghost ino: nat, ghost s: seq<Byte>)
    requires DirReady(fs, dip) && s == Bytes(fs, dip) && off % ENTRY == 0 && Binds(s, off / ENTRY, name, ino)
    modifies fs`inodes, fs`owner, fs.icache, fs.c, fs.c.buf
    ensures DirReady(fs, dip) && fs.c.held == old(fs.c.held)
    ensures Bindings(Bytes(fs, dip)) == Bindings(s) - {name}
    ensures |Bytes(fs, dip)| == |s|
    ensures FilesBut(old(fs.c.disk), fs.c.disk, old(fs.inodes), fs.inodes, old(fs.icache[dip].ino))
    ensures SameLinks(old(fs.inodes), fs.inodes, old(fs.icache[dip].ino))
    ensures DiskBut(fs, old(fs.c.disk), fs.c.disk, old(fs.icache[dip].ino))
    ensures fs.icache[..] == old(fs.icache[..])[dip := old(fs.icache[dip]).(d := fs.icache[dip].d)]
    ensures old(fs.DiskAgrees(dip)) ==> fs.DiskAgrees(dip)
  {
    hide DirReady, Bindings, InodeLayer.FileSystem.Valid, IsDirectory, Contents, FileOverwritten, SlotSet, Inv,
         BufferCache.Valid,
         FilesBut, SameLinks, DiskBut, Locked, HoleFree;
    DirFacts(fs, dip);
    ghost var inode, disk0, inodes0 := fs.icache[dip].ino, fs.c.disk, fs.inodes;
    assert off <= |s| by { SlotBoundBack(|s|, off); }
    var e := seq(ENTRY, i => 0);
    assert EntryIno(e) == 0;
    WriteEntry(fs, dip, off, e, s);
    ClearRemoves(s, Bytes(fs, dip), off / ENTRY, e, name, ino);
    ClearedReady(fs, dip, s, off / ENTRY, e);
    OverwrittenOthers(disk0, fs.c.disk, inodes0, fs.inodes, inode, off, e);
  }

  lemma SlotBoundBack(size: nat, off: nat)
    requires off % ENTRY == 0 && off / ENTRY < size / ENTRY
    ensures off < size
  {
  }

  lemma ClearedReady(fs: FileSystem, dip: nat, s: seq<Byte>, i: nat, e: seq<Byte>)
    requires fs.Valid() && fs.IsLocked(dip) && dip < fs.icache.Length && |fs.c.held| + 2 <= BufferList.NBUF
    requires HoleFree(fs.c.disk, fs.icache[dip].d) && IsDirectory(Bytes(fs, dip))
    requires SlotSet(s, Bytes(fs, dip), i, e) && i < Slots(s)
    ensures DirReady(fs, dip) && |Bytes(fs, dip)| == |s|
  {
    hide BufferCache.Valid, Inv, Locked, HoleFree, IsDirectory;
    assert |Bytes(fs, dip)| == ENTRY * Slots(Bytes(fs, dip));
  }
}
