/** Path names: fs/p2i.c.  A path is the character sequence in front of its terminator. */
module PathNames {
  import opened Minix
  import opened DirEntries

  const SLASH: Byte := 47

  type Path = seq<Byte>

  /** The characters up to the next slash. */
  function Element(p: Path): (e: seq<Byte>)
    ensures |e| <= |p| && e == p[..|e|] && SLASH !in e
    ensures |e| < |p| ==> p[|e|] == SLASH
  {
    if p == [] || p[0] == SLASH then [] else [p[0]] + Element(p[1..])
  }

  /** The names of a path: what stands between slashes, empty names left out. */
  function Components(p: Path): seq<Name>
    decreases |p|
  {
    if p == [] then []
    else if p[0] == SLASH then Components(p[1..])
    else [Element(p)] + Components(p[|Element(p)|..])
  }

  /** What the names of a path are, in three laws: none, one, and those of two paths with a slash between. */
  lemma NoComponents()
    ensures Components([]) == []
  {
  }

  lemma OneComponent(name: seq<Byte>)
    requires name != [] && 47 !in name
    ensures Components(name) == [name]
  {
    ElementIs(name, |name|);
    assert name[..|name|] == name;
  }

  lemma {:induction false} ComponentsJoin(p: Path, q: Path)
    ensures Components(p + [47] + q) == Components(p) + Components(q)
    decreases |p|
  {
    if p == [] {
      assert [] + [47] + q == [47] + q && ([47] + q)[1..] == q;
    } else if p[0] == SLASH {
      ComponentsJoin(p[1..], q);
      assert (p + [47] + q)[1..] == p[1..] + [47] + q;
    } else {
      hide Components, Element;
      FirstOfBoth(p, q);
      ComponentsJoin(p[|Element(p)|..], q);
    }
  }

  lemma FirstOfBoth(p: Path, q: Path)
    requires p != [] && p[0] != SLASH
    ensures var e, r := Element(p), p + [47] + q;
            && e != [] && Components(p) == [e] + Components(p[|e|..])
            && Components(r) == [e] + Components(p[|e|..] + [47] + q)
  {
    var e, r := |Element(p)|, p + [47] + q;
    assert r[..e] == p[..e] && r[e..] == p[e..] + [47] + q;
    ElementIs(r, e);
    ComponentsFrom(p);
    ComponentsFrom(r);
    hide Components, Element;
  }

  /** Skipping leading slashes. */
  function AfterSlashes(p: Path): (r: Path)
    ensures |r| <= |p| && (r == [] || r[0] != SLASH)
    ensures r == p[|p| - |r|..]
  {
    if p == [] || p[0] != SLASH then p else AfterSlashes(p[1..])
  }

  lemma {:induction false} SlashesAddNothing(p: Path)
    ensures Components(AfterSlashes(p)) == Components(p)
  {
    if p != [] && p[0] == SLASH {
      SlashesAddNothing(p[1..]);
    }
  }

  lemma NoneLeft(p: Path)
    requires p == [] || p[0] != SLASH
    ensures Components(p) == [] <==> p == []
  {
  }

  /** The element is the longest prefix without a slash. */
  lemma {:induction false} ElementIs(p: Path, n: nat)
    requires n <= |p| && SLASH !in p[..n] && (n == |p| || p[n] == SLASH)
    ensures Element(p) == p[..n]
  {
    if n > 0 {
      assert p[0] == p[..n][0];
      assert p[1..][..n - 1] == p[..n][1..];
      ElementIs(p[1..], n - 1);
    }
  }

  /** `while (*path == '/') path++;` */
  method SkipSlashes(path: Path) returns (rest: Path)
    ensures rest == AfterSlashes(path)
  {
    rest := path;
    while rest != [] && rest[0] == SLASH
      invariant AfterSlashes(rest) == AfterSlashes(path)
    {
      rest := rest[1..];
    }
  }

  /** `while (*path != '/' && *path != '\0') path++;` and how far it went. */
  method ElementLength(path: Path) returns (n: nat)
    ensures n <= |path| && path[..n] == Element(path)
  {
    n := 0;
    while n < |path| && path[n] != SLASH
      invariant n <= |path| && SLASH !in path[..n]
    {
      n := n + 1;
    }
    ElementIs(path, n);
  }

  /** What fits into a name field. */
  function Cut(e: seq<Byte>): Name { if |e| >= NAME_LEN then e[..NAME_LEN] else e }

  lemma ComponentsFrom(p: Path)
    requires p != [] && p[0] != SLASH
    ensures Element(p) != [] && Components(p) == [Element(p)] + Components(p[|Element(p)|..])
  {
  }

  lemma FirstComponent(p: Path, n: nat)
    requires p != [] && p[0] != SLASH && n <= |p| && p[..n] == Element(p)
    ensures n > 0 && Components(p) != [] && Components(p)[0] == p[..n] && Components(p)[1..] == Components(p[n..])
  {
    ComponentsFrom(p);
    hide Components, Element;
    var e: seq<Name>, r := [Element(p)], Components(p[n..]);
    assert |Element(p)| == n;
    assert (e + r)[1..] == r;
  }

  lemma CutPrefix(p: Path, n: nat)
    requires n <= |p|
    ensures Cut(p[..n]) == if n >= NAME_LEN then p[..NAME_LEN] else p[..n]
  {
  }

  /** skipelem: the first name, cut to NAME_LEN characters, and the rest behind it, or nothing when only
      slashes are left. */
  method SkipElem(path: Path) returns (more: bool, name: Name, rest: Path)
    ensures more <==> Components(path) != []
    ensures more ==> name == Cut(Components(path)[0]) && Components(rest) == Components(path)[1..]
    ensures more ==> |rest| < |path| && (rest == [] <==> |Components(path)| == 1)
  {
    rest := SkipSlashes(path);
    SlashesAddNothing(path);
    NoneLeft(rest);
    if rest == [] {
      return false, [], [];
    }
    var n := ElementLength(rest);
    FirstComponent(rest, n);
    CutPrefix(rest, n);
    hide Components, Element, AfterSlashes, Cut;
    name := if n >= NAME_LEN then rest[..NAME_LEN] else rest[..n];
    SlashesAddNothing(rest[n..]);
    rest := SkipSlashes(rest[n..]);
    NoneLeft(rest);
    more := true;
  }
}

/** _path2inode over the directory layer. */
module PathWalk {
  import opened Minix
  import opened BufferCache
  import opened Files
  import opened FsState
  import opened InodeRefs
  import opened InodeLayer
  import opened DirEntries
  import opened Directory
  import opened PathNames
  import opened Wrappers

  // ---------------------------------------------------------------------------------------
  // The tree, on values

  /** What a directory inode binds. */
  ghost function Children(disk: Disk, ip: Inode): map<Name, nat> {
    if WellFormedInode(ip) && ip.size <= MAXSIZE then Bindings(Contents(disk, ip)) else map[]
  }

  /** The inode a sequence of names leads to: each step needs a directory that binds the name. */
  ghost function Resolve(disk: Disk, inodes: Inodes, ino: nat, names: seq<Name>): Option<nat>
    decreases |names|
  {
    if names == [] then Some(ino)
    else if ino !in inodes || !IsDir(inodes[ino].mode) || names[0] !in Children(disk, inodes[ino]) then None
    else Resolve(disk, inodes, Children(disk, inodes[ino])[names[0]], names[1..])
  }

  /** The directory that would hold the last name. */
  ghost function ResolveParent(disk: Disk, inodes: Inodes, ino: nat, names: seq<Name>): Option<nat>
    decreases |names|
  {
    if names == [] || ino !in inodes || !IsDir(inodes[ino].mode) then None
    else if |names| == 1 then Some(ino)
    else if names[0] !in Children(disk, inodes[ino]) then None
    else ResolveParent(disk, inodes, Children(disk, inodes[ino])[names[0]], names[1..])
  }

  /** The walk has to lock one of the inodes l on its way: some proper prefix of the names leads there. */
  ghost predicate Meets(disk: Disk, inodes: Inodes, ino: nat, names: seq<Name>, l: set<nat>)
    decreases |names|
  {
    names != [] &&
    (ino in l ||
     (ino in inodes && IsDir(inodes[ino].mode) && names[0] in Children(disk, inodes[ino])
      && Meets(disk, inodes, Children(disk, inodes[ino])[names[0]], names[1..], l)))
  }

  ghost predicate LeadsTo(disk: Disk, inodes: Inodes, ino: nat, names: seq<Name>, l: set<nat>) {
    Resolve(disk, inodes, ino, names).Some? && Resolve(disk, inodes, ino, names).value in l
  }

  lemma {:induction false} MeetsPrefix(disk: Disk, inodes: Inodes, ino: nat, names: seq<Name>, l: set<nat>)
    ensures Meets(disk, inodes, ino, names, l) <==>
              exists i :: 0 <= i < |names| && LeadsTo(disk, inodes, ino, names[..i], l)
    decreases |names|
  {
    if names != [] {
      assert Resolve(disk, inodes, ino, names[..0]) == Some(ino);
      if ino in l {
        assert LeadsTo(disk, inodes, ino, names[..0], l);
      }
      if ino in inodes && IsDir(inodes[ino].mode) && names[0] in Children(disk, inodes[ino]) {
        var child, rest := Children(disk, inodes[ino])[names[0]], names[1..];
        MeetsPrefix(disk, inodes, child, rest, l);
        forall i | 0 <= i < |rest|
          ensures LeadsTo(disk, inodes, ino, names[..i + 1], l) == LeadsTo(disk, inodes, child, rest[..i], l)
        {
          assert names[..i + 1][1..] == rest[..i];
        }
        if i :| 0 <= i < |rest| && LeadsTo(disk, inodes, child, rest[..i], l) {
          assert LeadsTo(disk, inodes, ino, names[..i + 1], l);
        }
        if i :| 0 <= i < |names| && LeadsTo(disk, inodes, ino, names[..i], l) {
          assert i > 0 ==> LeadsTo(disk, inodes, child, rest[..i - 1], l);
        }
      }
    }
  }

  /** Resolving the parent and then the last name is resolving the path. */
  lemma {:induction false} ParentThenLast(disk: Disk, inodes: Inodes, ino: nat, names: seq<Name>)
    requires names != []
    ensures ResolveParent(disk, inodes, ino, names).None? ==> Resolve(disk, inodes, ino, names).None?
    ensures ResolveParent(disk, inodes, ino, names).Some? ==>
              Resolve(disk, inodes, ino, names)
              == Resolve(disk, inodes, ResolveParent(disk, inodes, ino, names).value, [names[|names| - 1]])
    decreases |names|
  {
    if ino in inodes && IsDir(inodes[ino].mode) && |names| > 1 && names[0] in Children(disk, inodes[ino]) {
      var rest := names[1..];
      assert rest[|rest| - 1] == names[|names| - 1];
      ParentThenLast(disk, inodes, Children(disk, inodes[ino])[names[0]], rest);
    } else if |names| == 1 {
      assert names == [names[|names| - 1]];
    }
  }

  /** A sound tree: directories have no holes, bind names once, and bind only inodes that exist and
      have a link. */
  ghost predicate Tree(disk: Disk, inodes: Inodes) {
    && ROOT_INO in inodes && IsDir(inodes[ROOT_INO].mode) && inodes[ROOT_INO].nlinks > 0
    && forall ino :: ino in inodes && IsDir(inodes[ino].mode) ==> GoodDirectory(disk, inodes, ino)
  }

  ghost predicate GoodDirectory(disk: Disk, inodes: Inodes, ino: nat)
    requires ino in inodes
  {
    && HoleFree(disk, inodes[ino]) && IsDirectory(Contents(disk, inodes[ino]))
    && forall name :: name in Children(disk, inodes[ino]) ==>
         Children(disk, inodes[ino])[name] in inodes && inodes[Children(disk, inodes[ino])[name]].nlinks > 0
  }

  /** Slots without a reference among the first n. */
  function FreeSlots(ic: seq<MemInode>, n: nat): nat
    requires n <= |ic|
  {
    if n == 0 then 0 else FreeSlots(ic, n - 1) + if ic[n - 1].ref == 0 then 1 else 0
  }

  lemma {:induction false} FreeSlotsSet(ic: seq<MemInode>, k: nat, m: MemInode, n: nat)
    requires k < |ic| && n <= |ic|
    ensures FreeSlots(ic[k := m], n) + (if k < n && ic[k].ref == 0 then 1 else 0)
         == FreeSlots(ic, n) + (if k < n && m.ref == 0 then 1 else 0)
  {
    if n > 0 {
      FreeSlotsSet(ic, k, m, n - 1);
    }
  }

  lemma {:induction false} SomeFreeSlot(ic: seq<MemInode>, n: nat)
    requires n <= |ic| && FreeSlots(ic, n) > 0
    ensures exists l :: 0 <= l < n && ic[l].ref == 0
  {
    if n > 0 && ic[n - 1].ref != 0 {
      SomeFreeSlot(ic, n - 1);
    }
  }

  /** A slot is locked only by the caller, and its copy agrees with the disk. */
  ghost predicate CalmSlot(sb: SuperBlock, ipb: nat, disk: Disk, m: MemInode, mine: bool) {
    && 0 < ipb * DINODE <= BSIZE
    && (m.ref > 0 ==> m.busy == mine && m.ino >= 1 && (m.valid ==> DiskInode(sb, ipb, disk, m.ino) == m.d))
  }

  /** Nobody holds a lock, except the caller those of the slots lk. */
  ghost predicate Calm(sb: SuperBlock, ipb: nat, disk: Disk, ic: seq<MemInode>, lk: set<nat>) {
    forall k :: 0 <= k < |ic| ==> CalmSlot(sb, ipb, disk, ic[k], k in lk)
  }

  /** A slot in use keeps its inode and what it has read of it. */
  ghost predicate SlotKept(m0: MemInode, m: MemInode) {
    m0.ref > 0 ==> m.ino == m0.ino && (m0.valid ==> m.valid && m.d == m0.d)
  }

  /** Against the table ic0 there is one reference more, the one to slot ip; -1 is none. */
  ghost predicate OneMore(ic0: seq<MemInode>, ic: seq<MemInode>, ip: int) {
    && |ic| == |ic0|
    && forall k :: 0 <= k < |ic| ==> ic[k].ref == ic0[k].ref + (if k == ip then 1 else 0) && SlotKept(ic0[k], ic[k])
  }

  /** The same by inode number.  The walk uses up a free slot only if nobody else refers to the inode. */
  ghost predicate Holding(ic0: seq<MemInode>, ic: seq<MemInode>, ip: nat) {
    && ip < |ic| && ic[ip].ref > 0 && OneMore(ic0, ic, ip)
    && RefsChange(ic0, ic, ic[ip].ino, 1)
    && FreeSlots(ic, |ic|) + (if ic[ip].ref == 1 then 1 else 0) >= FreeSlots(ic0, |ic0|)
  }

  ghost predicate WalkTable(sb: SuperBlock, ipb: nat, disk: Disk, inodes: Inodes, ic: seq<MemInode>, ip: nat,
                            ic0: seq<MemInode>, locked: bool, lk: set<nat>)
  {
    && ip < |ic| && ic[ip].ref > 0 && Holding(ic0, ic, ip) && (forall k :: k in lk ==> k < |ic0| && ic0[k].ref > 0)
    && (forall k :: 0 <= k < |ic| && k != ip ==> CalmSlot(sb, ipb, disk, ic[k], k in lk))
    && CalmSlot(sb, ipb, disk, ic[ip].(busy := false), false)
    && ic[ip].busy == (locked || ip in lk) && !(locked && ip in lk)
    && ic[ip].ino in inodes
    && (locked ==> ic[ip].valid && ic[ip].d == inodes[ic[ip].ino])
    && (ic[ip].ref > 1 || inodes[ic[ip].ino].nlinks > 0)
  }

  /** The state between two steps of the walk: slot ip is held, and locked or not. */
  ghost predicate Walking(fs: FileSystem, ip: nat, ic0: seq<MemInode>, locked: bool, lk: set<nat>)
    reads fs, fs.icache, fs.c, fs.c.buf
  {
    && fs.Valid() && fs.c.held == map[] && Tree(fs.c.disk, fs.inodes)
    && WalkTable(fs.sb, fs.ipb, fs.c.disk, fs.inodes, fs.icache[..], ip, ic0, locked, lk)
  }

  lemma HoldingKept(ic0: seq<MemInode>, ic: seq<MemInode>, ip: nat, m: MemInode)
    requires Holding(ic0, ic, ip) && m.ino == ic[ip].ino && m.ref == ic[ip].ref
    requires ic[ip].valid ==> m.valid && m.d == ic[ip].d
    ensures Holding(ic0, ic[ip := m], ip)
  {
    RefsSame(ic, ip, m);
    FreeSlotsSet(ic, ip, m, |ic|);
  }

  /** `ilock(ip)` on the way down. */
  method Enter(fs: FileSystem, ip: nat, ghost ic0: seq<MemInode>, ghost lk: set<nat>)
    requires Walking(fs, ip, ic0, false, lk) && ip !in lk
    modifies fs.icache, fs.c, fs.c.buf
    ensures Walking(fs, ip, ic0, true, lk)
    ensures fs.c.disk == old(fs.c.disk) && fs.icache[ip].ino == old(fs.icache[ip].ino)
  {
    hide BufferCache.Valid, Inv, Tree, Holding, DiskInode, RefsChange;
    ghost var ic1 := fs.icache[..];
    LoadedAgrees(fs, ip);
    HoldingKept(ic0, ic1, ip, ic1[ip].(busy := true, valid := true, d := fs.inodes[ic1[ip].ino]));
    fs.Ilock(ip);
  }

  /** What ilock reads is what the disk has. */
  lemma LoadedAgrees(fs: FileSystem, ip: nat)
    requires fs.Valid() && ip < fs.icache.Length && fs.icache[ip].ref > 0
    ensures fs.icache[ip].ino in fs.inodes && fs.icache[ip].ino >= 1 && 0 < fs.ipb * DINODE <= BSIZE
    ensures fs.icache[ip].valid ==> fs.icache[ip].d == fs.inodes[fs.icache[ip].ino]
    ensures !fs.icache[ip].valid ==>
              DiskInode(fs.sb, fs.ipb, fs.c.disk, fs.icache[ip].ino) == fs.inodes[fs.icache[ip].ino]
  {
    if !fs.icache[ip].valid {
      LoadStep(fs.sb, fs.ipb, fs.c.disk, fs.icache[..], fs.inodes, ip);
    }
  }

  /** iunlock while the reference is kept. */
  method Unlock(fs: FileSystem, ip: nat, ghost ic0: seq<MemInode>, ghost lk: set<nat>)
    requires Walking(fs, ip, ic0, true, lk)
    modifies fs.icache
    ensures Walking(fs, ip, ic0, false, lk) && fs.icache[ip].ino == old(fs.icache[ip].ino)
  {
    hide BufferCache.Valid, Inv, Tree, Holding, DiskInode, RefsChange;
    ghost var ic1 := fs.icache[..];
    HoldingKept(ic0, ic1, ip, ic1[ip].(busy := false));
    fs.Iunlock(ip);
  }

  /** The walk's own reference can be dropped, and dropping it frees no inode. */
  lemma HeldSafely(fs: FileSystem, ip: nat, ic0: seq<MemInode>, lk: set<nat>)
    requires Walking(fs, ip, ic0, false, lk)
    ensures fs.MayDrop(ip) && !fs.Dies(ip)
  {
    hide BufferCache.Valid, Tree, Holding, DiskInode, Inv;
    LoadedAgrees(fs, ip);
  }

  /** What holds when a walk ends without a result. */
  ghost predicate Back(fs: FileSystem, ic0: seq<MemInode>, lk: set<nat>)
    reads fs, fs.icache, fs.c, fs.c.buf
  {
    && fs.Valid() && fs.c.held == map[] && Calm(fs.sb, fs.ipb, fs.c.disk, fs.icache[..], lk)
    && OneMore(ic0, fs.icache[..], -1)
    && forall j: nat :: Refs(fs.icache[..], j) == Refs(ic0, j)
  }

  /** iput of the walk's reference: the counts are back where they were. */
  method Leave(fs: FileSystem, ip: nat, ghost ic0: seq<MemInode>, ghost lk: set<nat>)
    requires Walking(fs, ip, ic0, false, lk)
    modifies fs`inodes, fs.icache, fs.c, fs.c.buf
    ensures Back(fs, ic0, lk) && fs.c.disk == old(fs.c.disk) && fs.inodes == old(fs.inodes)
  {
    hide BufferCache.Valid, Inv, Tree, DiskInode, RefsChange, InodeLayer.FileSystem.MayDrop;
    ghost var ic1 := fs.icache[..];
    HeldSafely(fs, ip, ic0, lk);
    fs.Iput(ip);
    RefsBack(ic0, ic1, fs.icache[..], ic1[ip].ino);
  }

  /** The locked directory can be searched. */
  lemma Searchable(fs: FileSystem, ip: nat, ic0: seq<MemInode>, name: Name, lk: set<nat>)
    requires Walking(fs, ip, ic0, true, lk) && IsDir(fs.icache[ip].d.mode) && FreeSlots(ic0, |ic0|) >= 2
    ensures DirReady(fs, ip) && Children(fs.c.disk, fs.inodes[fs.icache[ip].ino]) == Bindings(Bytes(fs, ip))
    ensures name in Bindings(Bytes(fs, ip)) ==>
              && CanGet(fs.icache[..], fs.inodes, Bindings(Bytes(fs, ip))[name])
              && fs.inodes[Bindings(Bytes(fs, ip))[name]].nlinks > 0
  {
    hide BufferCache.Valid, Bindings, IsDirectory, Contents, RefsChange, DiskInode, HoleFree;
    assert GoodDirectory(fs.c.disk, fs.inodes, fs.icache[ip].ino);
    SomeFreeSlot(fs.icache[..], fs.icache.Length);
  }

  lemma StepOneMore(ic0: seq<MemInode>, ic1: seq<MemInode>, ic2: seq<MemInode>, ip: nat, next: nat, child: nat)
    requires OneMore(ic0, ic1, ip) && GotRef(ic1, ic2, next, child) && ip < |ic1| && ic1[ip].ref > 0
    ensures ip < |ic2| && ic2[ip].ref > 0
    ensures var ic3 := ic2[ip := ic2[ip].(busy := false)];
            OneMore(ic0, ic3[ip := ic3[ip].(ref := ic3[ip].ref - 1)], next)
  {
    hide RefsChange;
    var ic3 := ic2[ip := ic2[ip].(busy := false)];
    var ic4 := ic3[ip := ic3[ip].(ref := ic3[ip].ref - 1)];
    forall k | 0 <= k < |ic4|
      ensures ic4[k].ref == ic0[k].ref + (if k == next then 1 else 0) && SlotKept(ic0[k], ic4[k])
    {
      assert ic1[k].ref == ic0[k].ref + (if k == ip then 1 else 0) && SlotKept(ic0[k], ic1[k]);
    }
  }

  /** One step on the table: the child's reference came (ic2), the directory's lock (ic3) and reference
      (ic4) went. */
  lemma StepTable(sb: SuperBlock, ipb: nat, disk: Disk, inodes: Inodes, ic0: seq<MemInode>, ic1: seq<MemInode>,
                  ic2: seq<MemInode>,
                  ip: nat, next: nat, child: nat, lk: set<nat>)
    requires WalkTable(sb, ipb, disk, inodes, ic1, ip, ic0, true, lk) && GotRef(ic1, ic2, next, child)
    requires child in inodes && child >= 1 && inodes[child].nlinks > 0
    ensures ip < |ic2| && ic2[ip].busy && ic2[ip].ref > 0 && ic2[ip].ino == ic1[ip].ino
    ensures ic2[ip].ref > 1 || ic2[ip].d.nlinks > 0
    ensures CalmSlot(sb, ipb, disk, ic2[ip].(busy := false), false)
    ensures var ic3 := ic2[ip := ic2[ip].(busy := false)];
            var ic4 := ic3[ip := ic3[ip].(ref := ic3[ip].ref - 1)];
            RefsChange(ic3, ic4, ic1[ip].ino, -1) ==>
            WalkTable(sb, ipb, disk, inodes, ic4, next, ic0, false, lk) && ic4[next].ino == child
  {
    hide DiskInode, Refs, FreeSlots;
    assert forall k :: k in lk ==> k < |ic1| && ic1[k].ref == ic0[k].ref + (if k == ip then 1 else 0);
    var ic3 := ic2[ip := ic2[ip].(busy := false)];
    var ic4 := ic3[ip := ic3[ip].(ref := ic3[ip].ref - 1)];
    RefsSame(ic2, ip, ic3[ip]);
    FreeSlotsSet(ic1, next, ic2[next], |ic1|);
    FreeSlotsSet(ic2, ip, ic3[ip], |ic1|);
    FreeSlotsSet(ic3, ip, ic4[ip], |ic1|);
    StepOneMore(ic0, ic1, ic2, ip, next, child);
    if RefsChange(ic3, ic4, ic1[ip].ino, -1) {
      forall j: nat ensures Refs(ic4, j) == Refs(ic0, j) + if j == child then 1 else 0 {
        assert Refs(ic1, j) == Refs(ic0, j) + if j == ic1[ip].ino then 1 else 0;
        assert Refs(ic2, j) == Refs(ic1, j) + if j == child then 1 else 0;
        assert Refs(ic3, j) == Refs(ic2, j);
      }
    }
  }

  /** iunlockput of the directory once the child is referred to. */
  method StepTo(fs: FileSystem, ip: nat, next: nat, ghost child: nat, ghost ic0: seq<MemInode>,
                ghost ic1: seq<MemInode>, ghost lk: set<nat>)
    requires fs.Valid() && fs.c.held == map[] && Tree(fs.c.disk, fs.inodes)
    requires WalkTable(fs.sb, fs.ipb, fs.c.disk, fs.inodes, ic1, ip, ic0, true, lk)
    requires GotRef(ic1, fs.icache[..], next, child)
    requires child in fs.inodes && child >= 1 && fs.inodes[child].nlinks > 0
    modifies fs`inodes, fs.icache, fs.c, fs.c.buf
    ensures Walking(fs, next, ic0, false, lk) && fs.icache[next].ino == child
    ensures fs.c.disk == old(fs.c.disk) && fs.inodes == old(fs.inodes)
  {
    hide BufferCache.Valid, Inv, Tree, DiskInode, RefsChange, WalkTable, GotRef, Holding, InodeBit;
    StepTable(fs.sb, fs.ipb, fs.c.disk, fs.inodes, ic0, ic1, fs.icache[..], ip, next, child, lk);
    fs.Iunlock(ip);
    assert fs.icache[ip].ref > 1 || fs.icache[ip].d.nlinks > 0;
    fs.Iput(ip);
    WalkFacts(fs.sb, fs.ipb, fs.c.disk, fs.inodes, fs.icache[..], next, ic0, false, lk);
  }

  lemma WalkFacts(sb: SuperBlock, ipb: nat, disk: Disk, inodes: Inodes, ic: seq<MemInode>, ip: nat,
                  ic0: seq<MemInode>, locked: bool, lk: set<nat>)
    requires WalkTable(sb, ipb, disk, inodes, ic, ip, ic0, locked, lk)
    ensures ip < |ic| && ic[ip].ref > 0 && ic[ip].ino in inodes
    ensures locked ==> ic[ip].d == inodes[ic[ip].ino]
    ensures RefsChange(ic0, ic, ic[ip].ino, 1)
  {
  }

  /** dir_lookup, iunlockput of the directory, and the step to what was found. */
  method Descend(fs: FileSystem, ip: nat, name: Name, ghost ic0: seq<MemInode>, ghost lk: set<nat>)
      returns (found: bool, next: nat)
    requires Walking(fs, ip, ic0, true, lk) && IsDir(fs.icache[ip].d.mode) && IsName(name) && FreeSlots(ic0, |ic0|) >= 2
    modifies fs`inodes, fs`owner, fs.icache, fs.c, fs.c.buf
    ensures fs.c.disk == old(fs.c.disk) && fs.inodes == old(fs.inodes) && fs.c.held == map[]
    ensures found <==> name in Children(fs.c.disk, fs.inodes[old(fs.icache[ip].ino)])
    ensures found ==>
              && Walking(fs, next, ic0, false, lk)
              && fs.icache[next].ino == Children(fs.c.disk, fs.inodes[old(fs.icache[ip].ino)])[name]
    ensures !found ==> Back(fs, ic0, lk)
  {
    hide BufferCache.Valid, Inv, Tree, DiskInode, RefsChange, Bindings, Bytes, Children, Holding, HoleFree,
         IsDirectory, GotRef;
    ghost var s, ic1, ino := Bytes(fs, ip), fs.icache[..], fs.icache[ip].ino;
    Searchable(fs, ip, ic0, name, lk);
    var off;
    found, next, off := DirLookup(fs, ip, name, s);
    if !found {
      Unlock(fs, ip, ic0, lk);
      Leave(fs, ip, ic0, lk);
      return;
    }
    StepTo(fs, ip, next, Bindings(s)[name], ic0, ic1, lk);
  }

  // ---------------------------------------------------------------------------------------
  // The whole walk

  ghost function Target(disk: Disk, inodes: Inodes, parent: bool, ino: nat, names: seq<Name>): Option<nat> {
    if parent then ResolveParent(disk, inodes, ino, names) else Resolve(disk, inodes, ino, names)
  }

  /** A walk starts with the first reference. */
  lemma StartWalk(sb: SuperBlock, ipb: nat, disk: Disk, inodes: Inodes, ic0: seq<MemInode>, ic: seq<MemInode>,
                  k: nat, ino: nat, lk: set<nat>)
    requires Calm(sb, ipb, disk, ic0, lk) && GotRef(ic0, ic, k, ino) && ino in inodes && ino >= 1
    requires 0 < ipb * DINODE <= BSIZE
    requires ic[k].ref > 1 || inodes[ino].nlinks > 0
    requires forall k :: k in lk ==> k < |ic0| && ic0[k].ref > 0
    ensures WalkTable(sb, ipb, disk, inodes, ic, k, ic0, false, lk)
  {
    hide DiskInode, Refs, FreeSlots;
    assert CalmSlot(sb, ipb, disk, ic0[k], k in lk);
    FreeSlotsSet(ic0, k, ic[k], |ic0|);
    forall l | 0 <= l < |ic| && l != k ensures CalmSlot(sb, ipb, disk, ic[l], l in lk) {
      assert ic[l] == ic0[l];
    }
  }

  lemma InodesPerBlock(fs: FileSystem)
    requires fs.Valid()
    ensures 0 < fs.ipb * DINODE <= BSIZE && fs.icache.Length == NINODE
  {
  }

  predicate IsAbsolute(path: Path) { path != [] && path[0] == SLASH }

  /** The slots the caller has locked are in use. */
  ghost predicate Locks(ic: seq<MemInode>, lk: set<nat>) { forall k :: k in lk ==> k < |ic| && ic[k].ref > 0 }

  /** Their inodes. */
  ghost function LockedInos(ic: seq<MemInode>, lk: set<nat>): set<nat> { set k | k in lk && k < |ic| :: ic[k].ino }

  /** `iget(ROOT_DEV, ROOT_INO)` or `idup(proc->cwd)` */
  method Start(fs: FileSystem, path: Path, cwd: nat, ghost lk: set<nat>) returns (ip: nat)
    requires fs.Valid() && fs.c.held == map[] && Tree(fs.c.disk, fs.inodes)
    requires Calm(fs.sb, fs.ipb, fs.c.disk, fs.icache[..], lk) && Locks(fs.icache[..], lk)
    requires IsAbsolute(path) || (cwd < fs.icache.Length && fs.icache[cwd].ref > 0)
    requires FreeSlots(fs.icache[..], |fs.icache[..]|) >= 2
    modifies fs.icache
    ensures Walking(fs, ip, old(fs.icache[..]), false, lk)
    ensures fs.icache[ip].ino == if path != [] && path[0] == 47 then 1 else old(fs.icache[cwd].ino)
  {
    hide BufferCache.Valid, Inv, Calm, RefsChange, GoodDirectory;
    ghost var ic0 := fs.icache[..];
    if IsAbsolute(path) {
      SomeFreeSlot(ic0, |ic0|);
      InodesPerBlock(fs);
      ip := fs.Iget(ROOT_INO);
      StartWalk(fs.sb, fs.ipb, fs.c.disk, fs.inodes, ic0, fs.icache[..], ip, ROOT_INO, lk);
    } else {
      LoadedAgrees(fs, cwd);
      ip := cwd;
      fs.Idup(cwd);
      assert GotRef(ic0, fs.icache[..], cwd, ic0[cwd].ino);
      StartWalk(fs.sb, fs.ipb, fs.c.disk, fs.inodes, ic0, fs.icache[..], ip, ic0[cwd].ino, lk);
    }
  }

  /** The walk stands at the locked inode exactly when its slot is busy. */
  lemma BusyIsLocked(fs: FileSystem, ip: nat, ic0: seq<MemInode>, lk: set<nat>)
    requires Walking(fs, ip, ic0, false, lk)
    ensures fs.icache[ip].busy <==> ip in lk
    ensures ip in lk <==> fs.icache[ip].ino in LockedInos(ic0, lk)
  {
    hide BufferCache.Valid, Tree, DiskInode, FreeSlots, Refs;
    var ic := fs.icache[..];
    forall k | k in lk && k != ip ensures ic0[k].ino != ic[ip].ino {
      assert ic[k].ref == ic0[k].ref && SlotKept(ic0[k], ic[k]);
      assert ic[ip].ref > 0 && ic[k].ref > 0 && ic[k].ino != ic[ip].ino;
    }
    if ip in lk {
      assert SlotKept(ic0[ip], ic[ip]) && ic0[ip].ino == ic[ip].ino;
    }
  }

  /** The names of a path fit into name fields. */
  predicate Fit(path: Path) { forall n :: n in Components(path) ==> IsName(n) }

  /** _path2inode: the result is the resolution of the names from the root or the current directory.
      On success there is one more reference, to the result; on failure none; no lock is taken or
      released and neither the disk nor any inode changes.  While the caller has an inode locked, the
      walk gets stuck, waiting for the caller, if and only if it has to pass through that inode. */
  method Path2Inode(fs: FileSystem, path: Path, parent: bool, cwd: nat, ghost lk: set<nat>)
      returns (stuck: bool, ok: bool, ip: nat, name: Name)
    requires fs.Valid() && fs.c.held == map[] && Tree(fs.c.disk, fs.inodes)
    requires Calm(fs.sb, fs.ipb, fs.c.disk, fs.icache[..], lk) && Locks(fs.icache[..], lk)
    requires IsAbsolute(path) || (cwd < fs.icache.Length && fs.icache[cwd].ref > 0)
    requires FreeSlots(fs.icache[..], |fs.icache[..]|) >= 2 && Fit(path)
    modifies fs`inodes, fs`owner, fs.icache, fs.c, fs.c.buf
    ensures fs.c.disk == old(fs.c.disk) && fs.inodes == old(fs.inodes)
    ensures var start := if path != [] && path[0] == 47 then 1 else old(fs.icache[cwd].ino);
            var target := Target(fs.c.disk, fs.inodes, parent, start, Components(path));
            && (stuck <==> Meets(fs.c.disk, fs.inodes, start, Components(path), LockedInos(old(fs.icache[..]), lk)))
            && (!stuck ==> (ok <==> target.Some?))
            && (!stuck && ok ==> Walking(fs, ip, old(fs.icache[..]), false, lk) && fs.icache[ip].ino == target.value)
    ensures !stuck && ok ==> RefsChange(old(fs.icache[..]), fs.icache[..], fs.icache[ip].ino, 1)
    ensures !stuck && !ok ==> Back(fs, old(fs.icache[..]), lk)
    ensures !stuck && ok && parent ==> Components(path) != [] && name == Components(path)[|Components(path)| - 1]
  {
    hide BufferCache.Valid, Inv, Calm, Tree, WalkTable, Children, FreeSlots, InodeLayer.FileSystem.Valid,
         Components, IsName, RefsChange, IsAbsolute, Back,
         LockedInos, Locks;
    ghost var ic0, disk0, inodes0 := fs.icache[..], fs.c.disk, fs.inodes;
    ghost var l := LockedInos(ic0, lk);
    stuck := false;
    ip := Start(fs, path, cwd, lk);
    WalkFacts(fs.sb, fs.ipb, fs.c.disk, fs.inodes, fs.icache[..], ip, ic0, false, lk);
    ghost var start, names := fs.icache[ip].ino, Components(path);
    var rest := path;
    name := [];
    while true
      invariant Walking(fs, ip, ic0, false, lk) && ip < fs.icache.Length && fs.c.disk == disk0 && fs.inodes == inodes0
      invariant Target(disk0, inodes0, parent, start, names)
                  == Target(disk0, inodes0, parent, fs.icache[ip].ino, Components(rest))
      invariant Meets(disk0, inodes0, start, names, l) == Meets(disk0, inodes0, fs.icache[ip].ino, Components(rest), l)
      invariant |Components(rest)| <= |names| && Components(rest) == names[|names| - |Components(rest)|..]
      decreases |rest|
    {
      var more;
      ghost var left := Components(rest);
      more, name, rest := SkipElem(rest);
      if !more {
        break;
      }
      assert IsName(left[0]) by { assert left[0] == names[|names| - |left|]; }
      NotCut(left[0]);
      BusyIsLocked(fs, ip, ic0, lk);
      if fs.icache[ip].busy {
        return true, false, ip, name;
      }
      Enter(fs, ip, ic0, lk);
      WalkFacts(fs.sb, fs.ipb, fs.c.disk, fs.inodes, fs.icache[..], ip, ic0, true, lk);
      if !IsDir(fs.icache[ip].d.mode) {
        Unlock(fs, ip, ic0, lk);
        Leave(fs, ip, ic0, lk);
        return false, false, ip, name;
      }
      assert left[1..] == Components(rest) && left[0] == name;
      if parent && rest == [] {
        LastName(disk0, inodes0, fs.icache[ip].ino, left, l);
        Unlock(fs, ip, ic0, lk);
        WalkFacts(fs.sb, fs.ipb, fs.c.disk, fs.inodes, fs.icache[..], ip, ic0, false, lk);
        return false, true, ip, name;
      }
      ok, ip := Descend(fs, ip, name, ic0, lk);
      if !ok {
        return;
      }
      WalkFacts(fs.sb, fs.ipb, fs.c.disk, fs.inodes, fs.icache[..], ip, ic0, false, lk);
    }
    WalkFacts(fs.sb, fs.ipb, fs.c.disk, fs.inodes, fs.icache[..], ip, ic0, false, lk);
    ok := !parent;
    if parent {
      Leave(fs, ip, ic0, lk);
    }
  }

  lemma NotCut(name: Name)
    requires IsName(name)
    ensures Cut(name) == name
  {
  }

  /** Only one name is left: the walk locks nothing after this directory. */
  lemma LastName(disk: Disk, inodes: Inodes, ino: nat, names: seq<Name>, l: set<nat>)
    requires |names| == 1
    ensures Meets(disk, inodes, ino, names, l) <==> ino in l
  {
  }
}
