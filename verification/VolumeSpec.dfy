/** What programs see of a volume: files as byte sequences, entries, open files with offsets; and what each
    call does to that (fs/sysfile.c, fs/file.c, fs/p2i.c). */
module VolumeSpec {
  import opened Minix
  import opened FsState
  import opened DirEntries
  import opened PathNames
  import opened PathWalk
  import opened Wrappers
  import opened VolumeCalls
  import opened VolumeState
  import Links

  /** An open file: its inode and its shared offset. */
  datatype Descr = Descr(ino: nat, off: nat, readable: bool, writeable: bool)

  /** `bytes` are the files that are no directories, `lost` the inodes whose references nobody gives back. */
  datatype View = View(bytes: map<nat, seq<Byte>>, dirs: set<nat>, entries: map<Links.Place, nat>, open: seq<Descr>,
                       cwd: nat, lost: seq<nat>)

  const O_RONLY: int := 0
  const O_CREATE: int := 4

  datatype Command =
    | Open(path: Path, omode: int)
    | Close(i: nat)
    | Read(i: nat, n: nat)
    | Write(i: nat, src: seq<Byte>)
    | Link(path: Path, newPath: Path, field: seq<Byte>)
    | Unlink(path: Path)
    | Chdir(path: Path)

  /** What the caller gets back. */
  datatype Result = Told(ok: bool) | Got(len: int, data: seq<Byte>) | Wrote(len: int) | Ended(how: Outcome)

  // ---------------------------------------------------------------------------------------
  // Paths

  ghost function Walk(v: View, ino: nat, names: seq<Name>): Option<nat>
    decreases |names|
  {
    if names == [] then Some(ino)
    else if ino !in v.dirs || Links.Place(ino, names[0]) !in v.entries then None
    else Walk(v, v.entries[Links.Place(ino, names[0])], names[1..])
  }

  ghost function WalkParent(v: View, ino: nat, names: seq<Name>): Option<nat>
    decreases |names|
  {
    if names == [] || ino !in v.dirs then None
    else if |names| == 1 then Some(ino)
    else if Links.Place(ino, names[0]) !in v.entries then None
    else WalkParent(v, v.entries[Links.Place(ino, names[0])], names[1..])
  }

  /** The walk passes through inode x on its way. */
  ghost predicate Crosses(v: View, ino: nat, names: seq<Name>, x: nat)
    decreases |names|
  {
    names != [] &&
    (ino == x ||
     (ino in v.dirs && Links.Place(ino, names[0]) in v.entries
      && Crosses(v, v.entries[Links.Place(ino, names[0])], names[1..], x)))
  }

  ghost function From(v: View, path: Path): nat { if IsAbsolute(path) then ROOT_INO else v.cwd }

  /** What a path leads to. */
  ghost function Goal(v: View, path: Path): Option<nat> {
    var t := Walk(v, From(v, path), Components(path));
    if t.Some? && (t.value in v.dirs || t.value in v.bytes) then t else None
  }

  /** A path that begins with a slash leads from the root, wherever one is. */
  lemma FromTheRoot(v: View, cwd: nat, p: Path)
    ensures Goal(v.(cwd := cwd), [47] + p) == Goal(v, [47] + p) && At(v.(cwd := cwd), [47] + p) == At(v, [47] + p)
    ensures Goal(v, [47] + p) == Reached(v, Walk(v, 1, Components(p)))
  {
    ComponentsJoin([], p);
    NoComponents();
    assert [] + [47] + p == [47] + p && [] + Components(p) == Components(p);
    SameWalks(v, cwd, 1, Components(p));
  }

  /** Any other path leads from the working directory. */
  lemma FromHere(v: View, p: Path)
    requires p == [] || p[0] != 47
    ensures Goal(v, p) == Reached(v, Walk(v, v.cwd, Components(p)))
  {
    hide Walk;
  }

  /** An inode that is there. */
  ghost function Reached(v: View, t: Option<nat>): Option<nat> {
    if t.Some? && (t.value in v.dirs || t.value in v.bytes) then t else None
  }

  lemma {:induction false} SameWalks(v: View, cwd: nat, ino: nat, names: seq<Name>)
    ensures Walk(v.(cwd := cwd), ino, names) == Walk(v, ino, names)
    ensures WalkParent(v.(cwd := cwd), ino, names) == WalkParent(v, ino, names)
    decreases |names|
  {
    if names != [] && ino in v.dirs && Links.Place(ino, names[0]) in v.entries {
      SameWalks(v, cwd, v.entries[Links.Place(ino, names[0])], names[1..]);
    }
  }

  lemma {:induction false} WalkOn(v: View, ino: nat, a: seq<Name>, b: seq<Name>)
    ensures Walk(v, ino, a + b) == match Walk(v, ino, a) case None => None case Some(d) => Walk(v, d, b)
    decreases |a|
  {
    if a == [] {
      assert a + b == b;
    } else {
      assert (a + b)[1..] == a[1..] + b;
      if ino in v.dirs && Links.Place(ino, a[0]) in v.entries {
        WalkOn(v, v.entries[Links.Place(ino, a[0])], a[1..], b);
      }
    }
  }

  /** From the directory that a path leads to, q leads where path/q leads from here. */
  lemma ThroughDirectory(v: View, path: Path, q: Path)
    requires path != [] && (q == [] || q[0] != 47) && Goal(v, path).Some?
    ensures Goal(v.(cwd := Goal(v, path).value), q) == Goal(v, path + [47] + q)
  {
    var d := Goal(v, path).value;
    ComponentsJoin(path, q);
    WalkOn(v, From(v, path), Components(path), Components(q));
    SameWalks(v, d, d, Components(q));
    assert (path + [47] + q)[0] == path[0];
    hide Walk, Components;
  }

  /** The place a path names, if its directory exists. */
  ghost function At(v: View, path: Path): Option<Links.Place> {
    var names := Components(path);
    if names == [] || WalkParent(v, From(v, path), names).None? then None
    else Some(Links.Place(WalkParent(v, From(v, path), names).value, names[|names| - 1]))
  }

  // ---------------------------------------------------------------------------------------
  // Calls

  /** Somebody has the file or can find it. */
  ghost predicate InUse(v: View, i: nat) {
    i in v.dirs || i == v.cwd || i in v.lost || Links.Names(v.entries, i) != {} || exists j ::
        0 <= j < |v.open| && v.open[j].ino == i
  }

  /** A file that nobody has and nobody can find loses its bytes. */
  ghost function Swept(v: View, i: nat): View { if InUse(v, i) then v else v.(bytes := v.bytes[i := []]) }

  ghost function Moved(v: View, i: nat, n: nat): View
    requires i < |v.open|
  {
    v.(open := v.open[i := v.open[i].(off := v.open[i].off + n)])
  }

  ghost predicate OpenStep(v: View, path: Path, omode: int, r: Result, v': View) {
    && r == Told(Goal(v, path).Some? && (Goal(v, path).value in v.dirs ==> omode == O_RONLY))
    && v' == if r.ok then v.(open := v.open + [Descr(Goal(v, path).value, 0, omode % 2 == 0, true)]) else v
  }

  ghost predicate CloseStep(v: View, i: nat, r: Result, v': View) {
    i < |v.open| && r == Told(true) && v' == Swept(v.(open := v.open[..i] + v.open[i + 1..]), v.open[i].ino)
  }

  /** What a read of a directory returns is left open. */
  ghost predicate ReadStep(v: View, i: nat, n: nat, r: Result, v': View) {
    && i < |v.open| && r.Got?
    && var d := v.open[i];
    if !d.readable then r.len == -1 && v' == v
    else
      && r.len == |r.data| && v' == Moved(v, i, |r.data|)
      && (d.ino in v.bytes ==>
            var s := v.bytes[d.ino];
            d.off <= |s| && r.data == s[d.off..if d.off + n <= |s| then d.off + n else |s|])
  }

  /** And so is what a write makes of a directory's entries, but every file keeps its number of names. */
  ghost predicate StoreStep(v: View, i: nat, src: seq<Byte>, r: Result, v': View) {
    && i < |v.open| && r.Wrote?
    && var d := v.open[i];
    if !d.writeable then r.len == -1 && v' == v
    else
      && r.len == |src|
      && if d.ino in v.bytes then
           d.off <= |v.bytes[d.ino]| && v'
               == Moved(v, i, |src|).(bytes := v.bytes[d.ino := Overwrite(v.bytes[d.ino], d.off, src)])
         else
           && v' == Moved(v, i, |src|).(entries := v'.entries) && SameOutside(v.entries, v'.entries, d.ino)
           && forall f :: f in v.bytes ==> |Links.Names(v'.entries, f)| == |Links.Names(v.entries, f)|
  }

  /** A file that is no directory and can get one more name. */
  ghost predicate MayLink(v: View, t: Option<nat>) {
    t.Some? && t.value in v.bytes && |Links.Names(v.entries, t.value)| < 255
  }

  ghost predicate Vacant(v: View, at: Option<Links.Place>) { at.Some? && at.value !in v.entries }

  ghost predicate LinkStep(v: View, path: Path, newPath: Path, r: Result, v': View) {
    && r.Ended?
    && var t, at := Goal(v, path), At(v, newPath);
    match r.how
    case Done => MayLink(v, t) && Vacant(v, at) && v' == v.(entries := v.entries[at.value := t.value])
    case Refused => !(MayLink(v, t) && Vacant(v, at)) && v' == v
    case _ => false
  }

  ghost predicate UnlinkStep(v: View, path: Path, r: Result, v': View) {
    && r.Ended?
    && var at := At(v, path);
    match r.how
    case Done =>
      && at.Some? && at.value in v.entries && at.value.name != DOT && at.value.name != DOTDOT
      && v.entries[at.value] in v.bytes
      && v' == Swept(v.(entries := v.entries - {at.value}), v.entries[at.value])
    case Refused =>
      v' == v && (Vacant(v, at) || at.None? || at.value.name == DOT || at.value.name == DOTDOT
                  || v.entries[at.value] in v.dirs)
    case _ => false
  }

  ghost predicate ChdirStep(v: View, path: Path, r: Result, v': View) {
    var t := Goal(v, path);
    && r == Told(t.Some? && t.value in v.dirs)
    && v' == if t.None? then v else if t.value in v.dirs then v.(cwd := t.value) else v.(lost := v.lost + [t.value])
  }

  /** What a call that returns does. */
  ghost predicate Step(v: View, c: Command, r: Result, v': View) {
    match c
    case Open(path, omode) => OpenStep(v, path, omode, r, v')
    case Close(i) => CloseStep(v, i, r, v')
    case Read(i, n) => ReadStep(v, i, n, r, v')
    case Write(i, src) => StoreStep(v, i, src, r, v')
    case Link(path, newPath, _) => LinkStep(v, path, newPath, r, v')
    case Unlink(path) => UnlinkStep(v, path, r, v')
    case Chdir(path) => ChdirStep(v, path, r, v')
  }

  // ---------------------------------------------------------------------------------------
  // One call after another

  /** A file that was opened is read from its beginning, unless it was opened for writing only. */
  lemma OpenThenRead(v: View, path: Path, omode: int, v1: View, n: nat, r: Result, v2: View)
    requires OpenStep(v, path, omode, Told(true), v1) && ReadStep(v1, |v.open|, n, r, v2)
    ensures Goal(v, path).Some? && v2.bytes == v.bytes && v2.entries == v.entries
    ensures omode % 2 == 1 ==> r.len == -1
    ensures var f := Goal(v, path).value;
            omode % 2 == 0 && f in v.bytes ==>
              r.len == |r.data| == (if n <= |v.bytes[f]| then n else |v.bytes[f]|) && r.data == v.bytes[f][..|r.data|]
  {
    hide Goal;
  }

  /** A write through it goes over the beginning of the file. */
  lemma OpenThenWrite(v: View, path: Path, omode: int, v1: View, src: seq<Byte>, r: Result, v2: View)
    requires OpenStep(v, path, omode, Told(true), v1) && StoreStep(v1, |v.open|, src, r, v2)
    requires Goal(v, path).value in v.bytes
    ensures var f := Goal(v, path).value;
            && r.len == |src| && |v2.bytes[f]| == (if |src| >= |v.bytes[f]| then |src| else |v.bytes[f]|)
            && v2.bytes[f][..|src|] == src
            && v2.bytes[f][|src|..] == v.bytes[f][if |src| >= |v.bytes[f]| then |v.bytes[f]| else |src|..]
            && forall g :: g in v.bytes && g != f ==> g in v2.bytes && v2.bytes[g] == v.bytes[g]
  {
    hide Goal;
  }

  /** Two reads of a file, one after the other, get what one read of both lengths would have got. */
  lemma ReadOn(v: View, i: nat, n: nat, r: Result, v1: View, m: nat, r1: Result, v2: View)
    requires ReadStep(v, i, n, r, v1) && ReadStep(v1, i, m, r1, v2) && v.open[i].readable && v.open[i].ino in v.bytes
    ensures ReadStep(v, i, n + m, Got(r.len + r1.len, r.data + r1.data), v2)
  {
    var d := v.open[i];
    var s := v.bytes[d.ino];
    var end := if d.off + n <= |s| then d.off + n else |s|;
    assert v1.open[i] == d.(off := end) && v1.bytes == v.bytes;
    assert r.data + r1.data == s[d.off..if d.off + (n + m) <= |s| then d.off + (n + m) else |s|];
    assert v2.open == v.open[i := d.(off := d.off + |r.data + r1.data|)];
  }

  /** After a change of directory, paths that begin without a slash lead where they led behind its path, and
      those that begin with one where they led. */
  lemma ChdirThenFind(v: View, path: Path, r: Result, v': View, q: Path)
    requires ChdirStep(v, path, r, v') && r == Told(true) && path != []
    ensures v'.bytes == v.bytes && v'.dirs == v.dirs && v'.entries == v.entries && v'.open == v.open
    ensures Goal(v', q) == if q != [] && q[0] == 47 then Goal(v, q) else Goal(v, path + [47] + q)
  {
    hide Goal;
    if q != [] && q[0] == 47 {
      assert q == [47] + q[1..];
      FromTheRoot(v, v'.cwd, q[1..]);
    } else {
      ThroughDirectory(v, path, q);
    }
  }

  lemma {:induction false} WalkGrows(v: View, v': View, ino: nat, names: seq<Name>, at: Links.Place, x: nat)
    requires at !in v.entries && v'.entries == v.entries[at := x] && v'.dirs == v.dirs
    requires names != [] && WalkParent(v, ino, names) == Some(at.dir) && names[|names| - 1] == at.name
    ensures Walk(v', ino, names) == Some(x)
    decreases |names|
  {
    if |names| == 1 {
      assert Walk(v', x, names[1..]) == Some(x);
    } else {
      WalkGrows(v, v', v.entries[Links.Place(ino, names[0])], names[1..], at, x);
    }
  }

  /** After a link the new path leads to the file. */
  lemma LinkThenFind(v: View, path: Path, newPath: Path, r: Result, v': View)
    requires LinkStep(v, path, newPath, r, v') && r.how == Done
    ensures Goal(v, path).Some? && Goal(v', newPath) == Goal(v, path) && v'.bytes == v.bytes
  {
    var at, x := At(v, newPath).value, Goal(v, path).value;
    WalkGrows(v, v', From(v, newPath), Components(newPath), at, x);
    hide Walk, WalkParent, Components;
  }

  lemma {:induction false} WalkShrinks(v: View, v': View, ino: nat, names: seq<Name>, at: Links.Place)
    requires at in v.entries && v.entries[at] !in v.dirs && v'.entries == v.entries - {at} && v'.dirs == v.dirs
    requires names != [] && WalkParent(v, ino, names) == Some(at.dir) && names[|names| - 1] == at.name
    ensures Walk(v', ino, names) == None
    decreases |names|
  {
    if |names| > 1 {
      var next := Links.Place(ino, names[0]);
      if next != at {
        WalkShrinks(v, v', v.entries[next], names[1..], at);
      }
    }
  }

  /** After an unlink the path leads nowhere. */
  lemma UnlinkThenGone(v: View, path: Path, r: Result, v': View)
    requires UnlinkStep(v, path, r, v') && r.how == Done && Rooted(v)
    ensures Goal(v', path) == None && Goal(v, path).Some?
  {
    var at := At(v, path).value;
    WalkShrinks(v, v', From(v, path), Components(path), at);
    LastOfWalk(v, From(v, path), Components(path));
    hide Walk, WalkParent, Components, InUse;
  }

  lemma {:induction false} LastOfWalk(v: View, ino: nat, names: seq<Name>)
    requires names != [] && WalkParent(v, ino, names).Some?
    ensures var at := Links.Place(WalkParent(v, ino, names).value, names[|names| - 1]);
            Walk(v, ino, names) == if at in v.entries then Some(v.entries[at]) else None
    decreases |names|
  {
    if |names| == 1 {
      assert names[1..] == [];
    } else {
      LastOfWalk(v, v.entries[Links.Place(ino, names[0])], names[1..]);
    }
  }

  // ---------------------------------------------------------------------------------------
  // Runs

  /** One view before each call and one at the end. */
  ghost predicate IsTrace(views: seq<View>, cs: seq<Command>, rs: seq<Result>) {
    && |views| == |rs| + 1 && |rs| <= |cs|
    && forall k :: 0 <= k < |rs| ==> Step(views[k], cs[k], rs[k], views[k + 1])
  }

  /** Paths start at directories, a directory is no other file, and what is open is one of the two. */
  ghost predicate Rooted(v: View) {
    && ROOT_INO in v.dirs && v.cwd in v.dirs && v.dirs !! v.bytes.Keys
    && forall j :: 0 <= j < |v.open| ==> v.open[j].ino in v.dirs || v.open[j].ino in v.bytes
  }

  /** The call stores a byte at this place of file f. */
  ghost predicate Stores(v: View, c: Command, r: Result, f: nat, pos: nat) {
    && c.Write? && r.Wrote? && c.i < |v.open| && v.open[c.i].writeable && v.open[c.i].ino == f
    && v.open[c.i].off <= pos < v.open[c.i].off + |c.src|
  }

  /** The call fetches it. */
  ghost predicate Fetches(v: View, c: Command, r: Result, f: nat, pos: nat) {
    && c.Read? && r.Got? && c.i < |v.open| && v.open[c.i].readable && v.open[c.i].ino == f
    && v.open[c.i].off <= pos < v.open[c.i].off + |r.data|
  }

  lemma RootedStays(v: View, c: Command, r: Result, v': View)
    requires Step(v, c, r, v') && Rooted(v)
    ensures Rooted(v') && v'.dirs == v.dirs && v'.bytes.Keys == v.bytes.Keys
  {
    hide Walk, WalkParent, Components, Links.Names;
    if c.Close? {
      var open := v.open[..c.i] + v.open[c.i + 1..];
      assert v'.open == open && (v.open[c.i].ino in v.dirs || v.open[c.i].ino in v.bytes);
      forall j | 0 <= j < |open| ensures open[j].ino in v.dirs || open[j].ino in v.bytes {
        assert open[j] == v.open[if j < c.i then j else j + 1];
      }
    } else if c.Open? {
      assert Goal(v, c.path).Some? ==> Goal(v, c.path).value in v.dirs || Goal(v, c.path).value in v.bytes;
    }
  }

  /** References are lost for good. */
  lemma LostStays(v: View, c: Command, r: Result, v': View)
    requires Step(v, c, r, v')
    ensures v.lost <= v'.lost
  {
    hide Walk, WalkParent, Components, InUse;
  }

  /** A walk ends where it starts or at an inode that has a name. */
  lemma {:induction false} WalkNamed(v: View, ino: nat, names: seq<Name>)
    requires Walk(v, ino, names).Some?
    ensures names != [] ==> Links.Names(v.entries, Walk(v, ino, names).value) != {}
    decreases |names|
  {
    if names != [] {
      var at := Links.Place(ino, names[0]);
      assert at in Links.Names(v.entries, v.entries[at]);
      WalkNamed(v, v.entries[at], names[1..]);
    }
  }

  /** What a path finds is in use. */
  lemma FoundInUse(v: View, path: Path)
    requires Rooted(v) && Goal(v, path).Some?
    ensures InUse(v, Goal(v, path).value)
  {
    WalkNamed(v, From(v, path), Components(path));
  }

  // ---------------------------------------------------------------------------------------
  // A read returns what was written last

  /** A file that is not in use is never in use again. */
  lemma GoneStays(v: View, c: Command, r: Result, v': View, f: nat)
    requires Step(v, c, r, v') && Rooted(v) && f in v.bytes && !InUse(v, f)
    ensures !InUse(v', f)
  {
    match c
    case Open(path, omode) => if Goal(v, path).Some? { FoundInUse(v, path); }
    case Link(path, newPath, _) => if Goal(v, path).Some? { FoundInUse(v, path); }
    case Chdir(path) => if Goal(v, path).Some? { FoundInUse(v, path); }
    case _ =>
  }

  /** A byte of a file that stays in use changes only when a call stores it. */
  lemma ByteStays(v: View, c: Command, r: Result, v': View, f: nat, pos: nat)
    requires Step(v, c, r, v') && f in v.bytes && InUse(v', f) && !Stores(v, c, r, f, pos)
    requires pos < |v.bytes[f]|
    ensures f in v'.bytes && pos < |v'.bytes[f]| && v'.bytes[f][pos] == v.bytes[f][pos]
  {
    hide Walk, WalkParent, Components;
  }

  /** The stored byte is there. */
  lemma ByteStored(v: View, c: Command, r: Result, v': View, f: nat, pos: nat)
    requires Step(v, c, r, v') && Stores(v, c, r, f, pos) && f in v.bytes
    ensures f in v'.bytes && pos < |v'.bytes[f]| && v'.bytes[f][pos] == c.src[pos - v.open[c.i].off]
  {
  }

  lemma {:induction false} AllRooted(views: seq<View>, cs: seq<Command>, rs: seq<Result>, k: nat)
    requires IsTrace(views, cs, rs) && Rooted(views[0]) && k <= |rs|
    ensures Rooted(views[k]) && views[k].bytes.Keys == views[0].bytes.Keys
  {
    hide Step, Rooted;
    if k > 0 {
      AllRooted(views, cs, rs, k - 1);
      RootedStays(views[k - 1], cs[k - 1], rs[k - 1], views[k]);
    }
  }

  /** Between call j and call k nobody stores the byte, so it is the same, if the file is still in use. */
  lemma {:induction false} ByteKept(views: seq<View>, cs: seq<Command>, rs: seq<Result>, j: nat, k: nat, f: nat,
                                    pos: nat)
    requires IsTrace(views, cs, rs) && Rooted(views[0]) && j <= k <= |rs|
    requires f in views[j].bytes && pos < |views[j].bytes[f]| && InUse(views[k], f)
    requires forall m :: j <= m < k ==> !Stores(views[m], cs[m], rs[m], f, pos)
    ensures f in views[k].bytes && pos < |views[k].bytes[f]| && views[k].bytes[f][pos] == views[j].bytes[f][pos]
    decreases k
  {
    hide Step, Rooted, InUse, Stores;
    if j < k {
      AllRooted(views, cs, rs, k - 1);
      AllRooted(views, cs, rs, j);
      if !InUse(views[k - 1], f) {
        GoneStays(views[k - 1], cs[k - 1], rs[k - 1], views[k], f);
      }
      ByteKept(views, cs, rs, j, k - 1, f, pos);
      ByteStays(views[k - 1], cs[k - 1], rs[k - 1], views[k], f, pos);
    }
  }

  /** Over every run: a byte that call k reads is the one that the last call before it stored at that place
      of the file, whoever made the two calls and through whatever names and descriptors. */
  lemma ReadsLastWrite(views: seq<View>, cs: seq<Command>, rs: seq<Result>, j: nat, k: nat, f: nat, pos: nat)
    requires IsTrace(views, cs, rs) && Rooted(views[0]) && j < k < |rs|
    requires f in views[j].bytes && Stores(views[j], cs[j], rs[j], f, pos) && Fetches(views[k], cs[k], rs[k], f, pos)
    requires forall m :: j < m < k ==> !Stores(views[m], cs[m], rs[m], f, pos)
    ensures rs[k].data[pos - views[k].open[cs[k].i].off] == cs[j].src[pos - views[j].open[cs[j].i].off]
  {
    ByteStored(views[j], cs[j], rs[j], views[j + 1], f, pos);
    ByteKept(views, cs, rs, j + 1, k, f, pos) by { assert views[k].open[cs[k].i].ino == f; }
    ByteRead(views[k], cs[k], rs[k], views[k + 1], f, pos);
  }

  lemma ByteRead(v: View, c: Command, r: Result, v': View, f: nat, pos: nat)
    requires Step(v, c, r, v') && Fetches(v, c, r, f, pos) && f in v.bytes
    ensures pos < |v.bytes[f]| && r.data[pos - v.open[c.i].off] == v.bytes[f][pos]
  {
  }

  /** And if none did, it is the one the run began with. */
  lemma ReadsFirstByte(views: seq<View>, cs: seq<Command>, rs: seq<Result>, k: nat, f: nat, pos: nat)
    requires IsTrace(views, cs, rs) && Rooted(views[0]) && k < |rs|
    requires f in views[0].bytes && pos < |views[0].bytes[f]| && Fetches(views[k], cs[k], rs[k], f, pos)
    requires forall m :: 0 <= m < k ==> !Stores(views[m], cs[m], rs[m], f, pos)
    ensures rs[k].data[pos - views[k].open[cs[k].i].off] == views[0].bytes[f][pos]
  {
    ByteKept(views, cs, rs, 0, k, f, pos) by { assert views[k].open[cs[k].i].ino == f; }
    ByteRead(views[k], cs[k], rs[k], views[k + 1], f, pos);
  }

  /** An inode whose reference is lost stays in use, and keeps its bytes. */
  lemma {:induction false} LostForGood(views: seq<View>, cs: seq<Command>, rs: seq<Result>, k: nat, f: nat)
    requires IsTrace(views, cs, rs) && k <= |rs| && f in views[0].lost
    ensures f in views[k].lost && InUse(views[k], f)
  {
    if k > 0 {
      LostForGood(views, cs, rs, k - 1, f);
      LostStays(views[k - 1], cs[k - 1], rs[k - 1], views[k]);
    }
  }
}
