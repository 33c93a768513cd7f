/** What programs see of a mounted volume, and that each call of the file system makes it what VolumeSpec
    says; on values. */
module VolumeViews {
  import opened Minix
  import opened Files
  import opened FsState
  import opened DirEntries
  import opened PathNames
  import opened PathWalk
  import opened Wrappers
  import opened DirectoryBytes
  import opened VolumeState
  import opened VolumeCalls
  import opened VolumeSpec
  import FileIo
  import Links

  ghost function FileBytes(disk: Disk, ip: Inode): seq<Byte> {
    if WellFormedInode(ip) && ip.size <= MAXSIZE then Contents(disk, ip) else []
  }

  ghost function BytesOf(disk: Disk, inodes: Inodes): map<nat, seq<Byte>> {
    map i | i in inodes && !IsDir(inodes[i].mode) :: FileBytes(disk, inodes[i])
  }

  ghost function DirsOf(inodes: Inodes): set<nat> { set i | i in inodes && IsDir(inodes[i].mode) }

  ghost function ViewOf(disk: Disk, inodes: Inodes, open: seq<Descr>, cwd: nat, lost: seq<nat>): View {
    View(BytesOf(disk, inodes), DirsOf(inodes), Entries(disk, inodes), open, cwd, lost)
  }

  /** All files read the same but x; 0 is none. */
  lemma ViewBut(disk0: Disk, disk: Disk, inodes0: Inodes, inodes: Inodes, x: nat)
    requires ReadsBut(disk0, disk, inodes0, inodes, x) && (x in inodes0 ==> inodes[x].mode == inodes0[x].mode)
    ensures DirsOf(inodes) == DirsOf(inodes0)
    ensures BytesOf(disk, inodes) == if x in inodes0 && !IsDir(inodes0[x].mode) then
              BytesOf(disk0, inodes0)[x := FileBytes(disk, inodes[x])]
                                     else BytesOf(disk0, inodes0)
  {
    hide Contents;
    forall i | i in inodes0 ensures inodes[i].mode == inodes0[i].mode
                            ensures i != x && !IsDir(inodes0[i].mode) ==>
                                      FileBytes(disk, inodes[i]) == FileBytes(disk0, inodes0[i]) {
      assert i != x ==> Reads(disk0, disk, inodes0[i], inodes[i]);
    }
  }

  lemma {:induction false} WalkIs(disk: Disk, inodes: Inodes, v: View, ino: nat, names: seq<Name>, x: nat)
    requires v.entries == Entries(disk, inodes) && v.dirs == DirsOf(inodes)
    ensures Walk(v, ino, names) == Resolve(disk, inodes, ino, names)
    ensures WalkParent(v, ino, names) == ResolveParent(disk, inodes, ino, names)
    ensures Crosses(v, ino, names, x) <==> Meets(disk, inodes, ino, names, {x})
    decreases |names|
  {
    hide Entries, Children;
    if names != [] {
      EntryAt(disk, inodes, ino, names[0]);
      if ino in v.dirs && names[0] in Children(disk, inodes[ino]) {
        WalkIs(disk, inodes, v, Children(disk, inodes[ino])[names[0]], names[1..], x);
      }
    }
  }

  lemma CountSeen(disk: Disk, inodes: Inodes, i: nat)
    requires Counted(Entries(disk, inodes), inodes, 0, 0) && i in inodes && !IsDir(inodes[i].mode)
    ensures inodes[i].nlinks == |Links.Names(Entries(disk, inodes), i)|
  {
  }

  /** What a path leads to. */
  lemma TargetIs(disk: Disk, inodes: Inodes, v: View, path: Path)
    requires v.entries == Entries(disk, inodes) && v.dirs == DirsOf(inodes) && v.bytes == BytesOf(disk, inodes)
    ensures var t := Resolve(disk, inodes, From(v, path), Components(path));
            Goal(v, path) == if t.Some? && t.value in inodes then t else None
  {
    WalkIs(disk, inodes, v, From(v, path), Components(path), 0);
    hide Entries, FileBytes, Resolve, Walk;
  }

  lemma AtIs(disk: Disk, inodes: Inodes, v: View, path: Path)
    requires v.entries == Entries(disk, inodes) && v.dirs == DirsOf(inodes)
    ensures var names, parent := Components(path), ResolveParent(disk, inodes, From(v, path), Components(path));
            At(v, path) == if names != [] && parent.Some? then Some(Links.Place(parent.value, names[|names| - 1]))
                else None
  {
    WalkIs(disk, inodes, v, From(v, path), Components(path), 0);
    hide Entries, ResolveParent, WalkParent;
  }

  /** The calls that stop the kernel: a link to a file that has 255 names, to a path through the file itself,
      or to a directory without room; an unlink of a directory's entry for itself; a write without room. */
  ghost predicate Stops(sb: SuperBlock, disk: Disk, inodes: Inodes, v: View, c: Command) {
    match c
    case Link(path, newPath, _) =>
      var t, at := Goal(v, path), At(v, newPath);
      && t.Some? && t.value in v.bytes
      && (|| |Links.Names(v.entries, t.value)| == 255
          || Crosses(v, From(v, newPath), Components(newPath), t.value)
          || (Vacant(v, at) && !HasRoom(sb, disk, inodes, at.value.dir)))
    case Unlink(path) =>
      var at := At(v, path);
      at.Some? && at.value in v.entries && at.value.name != DOT && at.value.name != DOTDOT
          && v.entries[at.value] == at.value.dir
    case Write(i, src) =>
      && i < |v.open| && v.open[i].writeable && v.open[i].ino in inodes
      && !FileIo.CanStore(sb, disk, inodes[v.open[i].ino], v.open[i].off, |src|)
    case _ => false
  }

  lemma LinkStops(sb: SuperBlock, disk0: Disk, disk: Disk, inodes0: Inodes, inodes: Inodes, v: View, path: Path,
                  newPath: Path, field: seq<Byte>, r: Outcome)
    requires v == ViewOf(disk0, inodes0, v.open, v.cwd, v.lost)
    requires Linking(r, sb, disk0, disk, inodes0, inodes, Resolve(disk0, inodes0, From(v, path), Components(path)),
                     From(v, newPath), Components(newPath))
    requires Counted(Entries(disk0, inodes0), inodes0, 0, 0) && 0 !in inodes0
    ensures Returns(r) <==> !Stops(sb, disk0, inodes0, v, Command.Link(path, newPath, field))
  {
    TargetIs(disk0, inodes0, v, path);
    AtIs(disk0, inodes0, v, newPath);
    var t := Goal(v, path);
    if t.Some? && !IsDir(inodes0[t.value].mode) {
      CountSeen(disk0, inodes0, t.value);
      WalkIs(disk0, inodes0, v, From(v, newPath), Components(newPath), t.value);
    }
    assert t.Some? ==> (t.value in v.bytes <==> t.value in inodes0 && !IsDir(inodes0[t.value].mode));
    hide Counted, ReadsBut, Links.Names, Resolve, ResolveParent, Meets, Crosses, HasRoom, Entries, FileBytes, Goal,
         At, Components, BytesOf, DirsOf, From;
  }

  lemma UnlinkStops(sb: SuperBlock, disk0: Disk, disk: Disk, inodes0: Inodes, inodes: Inodes, v: View,
                    ic0: seq<MemInode>, path: Path, r: Outcome)
    requires v == ViewOf(disk0, inodes0, v.open, v.cwd, v.lost)
    requires Unlinking(r, disk0, disk, inodes0, inodes, ic0, From(v, path), Components(path))
    requires Returns(r) || r == Stuck
    ensures Returns(r) <==> !Stops(sb, disk0, inodes0, v, Command.Unlink(path))
  {
    AtIs(disk0, inodes0, v, path);
    hide UsedIn, Resolve, ResolveParent, Entries, FileBytes, At, Components, UnlinkReads, DirsOf, BytesOf;
  }

  /** sys_link */
  lemma LinkSeen(sb: SuperBlock, disk0: Disk, disk: Disk, inodes0: Inodes, inodes: Inodes, v: View, v': View,
                 path: Path, newPath: Path, r: Outcome)
    requires v == ViewOf(disk0, inodes0, v.open, v.cwd, v.lost) && v' == ViewOf(disk, inodes, v.open, v.cwd, v.lost)
    requires Linking(r, sb, disk0, disk, inodes0, inodes, Resolve(disk0, inodes0, From(v, path), Components(path)),
                     From(v, newPath), Components(newPath))
    requires Counted(Entries(disk0, inodes0), inodes0, 0, 0) && Returns(r) && 0 !in inodes0
    ensures LinkStep(v, path, newPath, Ended(r), v')
  {
    ViewBut(disk0, disk, inodes0, inodes, 0);
    TargetIs(disk0, inodes0, v, path);
    AtIs(disk0, inodes0, v, newPath);
    var t := Goal(v, path);
    if t.Some? && !IsDir(inodes0[t.value].mode) {
      CountSeen(disk0, inodes0, t.value);
    }
    assert t.Some? ==> (t.value in v.bytes <==> t.value in inodes0 && !IsDir(inodes0[t.value].mode));
    hide Counted, ReadsBut, Links.Names, Resolve, ResolveParent, Meets, NoPlace, Entries, FileBytes, Goal, At,
         Components, BytesOf, DirsOf, From;
  }

  /** The inodes that open files, the working directory and leaked references have. */
  ghost predicate HasUser(v: View, i: nat) {
    i == v.cwd || i in v.lost || exists j :: 0 <= j < |v.open| && v.open[j].ino == i
  }

  /** What sys_unlink does about the entry that a path names, if there is a directory for it. */
  ghost predicate Unlinking(r: Outcome, disk0: Disk, disk: Disk, inodes0: Inodes, inodes: Inodes,
                            ic0: seq<MemInode>, start: nat, names: seq<Name>)
  {
    var parent := ResolveParent(disk0, inodes0, start, names);
    && (r == Refused ==> disk == disk0 && inodes == inodes0)
    && (parent.None? || names == [] ==> r == Refused)
    && (parent.Some? && names != [] ==>
          Removal(r, disk0, disk, inodes0, inodes, ic0, Links.Place(parent.value, names[|names| - 1])))
  }

  /** sys_unlink */
  lemma UnlinkSeen(disk0: Disk, disk: Disk, inodes0: Inodes, inodes: Inodes, v: View, v': View, ic0: seq<MemInode>,
                   path: Path, r: Outcome)
    requires v == ViewOf(disk0, inodes0, v.open, v.cwd, v.lost) && v' == ViewOf(disk, inodes, v.open, v.cwd, v.lost)
    requires Unlinking(r, disk0, disk, inodes0, inodes, ic0, From(v, path), Components(path))
    requires Counted(Entries(disk, inodes), inodes, 0, 0) && Returns(r) && 0 !in inodes0
    requires forall i :: UsedIn(ic0, i) <==> HasUser(v, i)
    ensures UnlinkStep(v, path, Ended(r), v')
  {
    AtIs(disk0, inodes0, v, path);
    hide Counted, UsedIn, Resolve, ResolveParent, Entries, FileBytes, At, Components, HasUser, Removal, Swept,
         DirsOf, BytesOf;
    if r == Done {
      RemovalSeen(disk0, disk, inodes0, inodes, v, v', ic0, At(v, path).value);
    } else if At(v, path).Some? {
      RefusalSeen(disk0, disk, inodes0, inodes, v, ic0, At(v, path).value);
    }
  }

  lemma RemovalSeen(disk0: Disk, disk: Disk, inodes0: Inodes, inodes: Inodes, v: View, v': View, ic0: seq<MemInode>,
                    at: Links.Place)
    requires v == ViewOf(disk0, inodes0, v.open, v.cwd, v.lost) && v' == ViewOf(disk, inodes, v.open, v.cwd, v.lost)
    requires Removal(Done, disk0, disk, inodes0, inodes, ic0, at) && Counted(Entries(disk, inodes), inodes, 0, 0)
    requires 0 !in inodes0
    requires forall i :: UsedIn(ic0, i) <==> HasUser(v, i)
    ensures at in v.entries && at.name != DOT && at.name != DOTDOT && v.entries[at] in v.bytes
    ensures v' == Swept(v.(entries := v.entries - {at}), v.entries[at])
  {
    hide Counted, UsedIn, Links.Names, Entries, FileBytes, UnlinkReads, HasUser, InUse;
    var i := v.entries[at];
    UnlinkedBytes(disk0, disk, inodes0, inodes, ic0, i);
    InUseIff(disk, inodes, v, v.(entries := v.entries - {at}), i);
  }

  lemma RefusalSeen(disk0: Disk, disk: Disk, inodes0: Inodes, inodes: Inodes, v: View, ic0: seq<MemInode>,
                    at: Links.Place)
    requires v == ViewOf(disk0, inodes0, v.open, v.cwd, v.lost)
    requires Removal(Refused, disk0, disk, inodes0, inodes, ic0, at)
    ensures at !in v.entries || at.name == DOT || at.name == DOTDOT || v.entries[at] in v.dirs
  {
    hide Entries, BytesOf;
  }

  lemma UnlinkedBytes(disk0: Disk, disk: Disk, inodes0: Inodes, inodes: Inodes, ic0: seq<MemInode>, i: nat)
    requires UnlinkReads(disk0, disk, inodes0, inodes, ic0, i) && i in inodes0 && !IsDir(inodes0[i].mode)
    requires 0 !in inodes0
    ensures i in inodes && !IsDir(inodes[i].mode) && DirsOf(inodes) == DirsOf(inodes0)
    ensures BytesOf(disk, inodes) == if UsedIn(ic0, i) || inodes[i].nlinks > 0 then BytesOf(disk0, inodes0)
              else BytesOf(disk0, inodes0)[i := []]
  {
    hide Contents, UsedIn;
    if UsedIn(ic0, i) || (i in inodes && inodes[i].nlinks > 0) {
      ViewBut(disk0, disk, inodes0, inodes, 0);
      assert Reads(disk0, disk, inodes0[i], inodes[i]);
    } else {
      ViewBut(disk0, disk, inodes0, inodes, i);
      assert FileBytes(disk, inodes[i]) == [];
    }
  }

  lemma InUseIff(disk: Disk, inodes: Inodes, v: View, v1: View, i: nat)
    requires Counted(Entries(disk, inodes), inodes, 0, 0) && i in inodes && !IsDir(inodes[i].mode)
    requires v1.entries == Entries(disk, inodes) && v1.dirs == DirsOf(inodes) && v1.open == v.open && v1.cwd == v.cwd
    requires v1.lost == v.lost
    ensures InUse(v1, i) <==> HasUser(v, i) || inodes[i].nlinks > 0
  {
    CountSeen(disk, inodes, i);
    hide Counted, Entries, Links.Names;
    var n := Links.Names(v1.entries, i);
    assert n == {} <==> |n| == 0;
  }

  /** What a path leads to, as long as it is an inode there is. */
  ghost function Found(disk: Disk, inodes: Inodes, start: nat, names: seq<Name>): Option<nat> {
    var target := Resolve(disk, inodes, start, names);
    if target.Some? && target.value in inodes then target else None
  }

  lemma OpenSeen(disk: Disk, inodes: Inodes, v: View, v': View, path: Path, omode: int, ok: bool)
    requires v == ViewOf(disk, inodes, v.open, v.cwd, v.lost)
    requires var found := Found(disk, inodes, From(v, path), Components(path));
             && (ok <==> found.Some? && (IsDir(inodes[found.value].mode) ==> omode == O_RONLY))
             && v' == if ok then v.(open := v.open + [Descr(found.value, 0, omode % 2 == 0, true)]) else v
    ensures OpenStep(v, path, omode, Told(ok), v')
  {
    TargetIs(disk, inodes, v, path);
    hide Entries, FileBytes, Resolve, Goal, Components, From;
  }

  lemma ChdirSeen(disk: Disk, inodes: Inodes, v: View, v': View, path: Path, ok: bool)
    requires v == ViewOf(disk, inodes, v.open, v.cwd, v.lost)
    requires var found := Found(disk, inodes, From(v, path), Components(path));
             && (ok <==> found.Some? && IsDir(inodes[found.value].mode))
             && v' == if ok then v.(cwd := found.value) else if found.Some? then v.(lost := v.lost + [found.value])
                 else v
    ensures ChdirStep(v, path, Told(ok), v')
  {
    TargetIs(disk, inodes, v, path);
    hide Entries, FileBytes, Resolve, Goal, Components, From;
  }

  // ---------------------------------------------------------------------------------------
  // Reading and writing

  lemma ReadSeen(disk: Disk, inodes: Inodes, v: View, v': View, i: nat, n: nat, len: int, data: seq<Byte>)
    requires v == ViewOf(disk, inodes, v.open, v.cwd, v.lost) && i < |v.open|
    requires |v'.open| == |v.open| && v' == v.(open := v.open[i := v.open[i].(off := v'.open[i].off)])
    requires ReadResult(disk, inodes, v.open[i].ino, v.open[i].readable, v.open[i].off, v'.open[i].off, n, len, data)
    ensures ReadStep(v, i, n, Got(len, data), v')
  {
    hide Contents, Entries;
    var d := v.open[i];
    if d.readable {
      assert v' == Moved(v, i, |data|);
    } else {
      assert v'.open == v.open;
    }
  }

  lemma WriteSeen(disk0: Disk, disk: Disk, inodes0: Inodes, inodes: Inodes, v: View, v': View, i: nat, src: seq<Byte>)
    requires v == ViewOf(disk0, inodes0, v.open, v.cwd, v.lost) && i < |v.open| && v.open[i].writeable
    requires v' == ViewOf(disk, inodes, Moved(v, i, |src|).open, v.cwd, v.lost)
    requires WriteResult(disk0, disk, inodes0, inodes, v.open[i].ino, v.open[i].off, src)
    requires WellFormedInode(inodes0[v.open[i].ino]) && inodes0[v.open[i].ino].size <= MAXSIZE
    requires Counted(Entries(disk0, inodes0), inodes0, 0, 0) && Counted(Entries(disk, inodes), inodes, 0, 0)
    ensures StoreStep(v, i, src, Wrote(|src|), v')
  {
    hide Contents, Entries, SameFile, ZonesGrow, KeepsMapped, AllMapped, EndBlock, Bindings, DirBinds, ReadsBut;
    var x := v.open[i].ino;
    ViewBut(disk0, disk, inodes0, inodes, x);
    if IsDir(inodes0[x].mode) {
      forall f | f in v.bytes ensures |Links.Names(v'.entries, f)| == |Links.Names(v.entries, f)| {
        assert inodes[f].nlinks == inodes0[f].nlinks;
      }
    }
  }

  /** The last user of an inode without names is gone. */
  lemma CloseSeen(disk0: Disk, disk: Disk, inodes0: Inodes, inodes: Inodes, v: View, v': View, i: nat)
    requires v == ViewOf(disk0, inodes0, v.open, v.cwd, v.lost) && i < |v.open| && v.open[i].ino in inodes0
    requires 0 !in inodes0
    requires v' == ViewOf(disk, inodes, v.open[..i] + v.open[i + 1..], v.cwd, v.lost) && v'.entries == v.entries
    requires Counted(Entries(disk, inodes), inodes, 0, 0)
    requires if IsDir(inodes0[v.open[i].ino].mode) || HasUser(v', v.open[i].ino)
               || inodes0[v.open[i].ino].nlinks > 0 then disk == disk0 && inodes == inodes0
             else Emptied(inodes0, inodes, v.open[i].ino) && ReadsBut(disk0, disk, inodes0, inodes, v.open[i].ino)
                  && inodes[v.open[i].ino].nlinks == inodes0[v.open[i].ino].nlinks
    ensures CloseStep(v, i, Told(true), v')
  {
    hide Entries, Contents, HasUser, Counted, ReadsBut;
    var x := v.open[i].ino;
    var v1 := v.(open := v.open[..i] + v.open[i + 1..]);
    if !IsDir(inodes0[x].mode) {
      if inodes != inodes0 || disk != disk0 {
        ViewBut(disk0, disk, inodes0, inodes, x);
        assert FileBytes(disk, inodes[x]) == [];
      }
      InUseIff(disk, inodes, v', v1, x);
    }
  }
}
