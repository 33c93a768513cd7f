/** Processes, open files and memory as they look from outside, and what each command does to them
    (proc/proc.c, proc/exec.c, fs/sysfile.c, mm/vmm.c).  Every process has a memory of its own; over whole runs
    its own stores and its own exec change it, and nothing else does. */
module MachineSpec {
  import opened Wrappers
  import opened Paging
  import opened Vmm
  import Exec
  import ExecStack
  import Isolation
  import Minix
  import Processes
  import OpenFiles
  import FileTable

  datatype Command =
    | Dispatch | Yield | Sleep(id: nat) | Wakeup(id: nat) | Kill(pid: nat)
    | ForkAlloc | ForkCopy | ForkDone
    | Exec(headers: Option<seq<Option<Exec.Segment>>>, argv: seq<seq<Minix.Byte>>, limit: nat)
    | Exit | Wait
    | Open(ip: nat) | Dup(fd: int) | Close(fd: int) | Pipe | Enter(fd0: nat) | Leave
    | Store(vpn: nat, off: nat, w: Word)

  datatype Addr = Addr(vpn: nat, off: nat)

  /** The words that are mapped for a process, with the right to use them. */
  type Image = map<Addr, Isolation.Cell>

  ghost function ImageOf(pages: Pages, d: nat): Image {
    map v: nat, off: nat | USER_VPN <= v < MAX_VPN && off < ENTRIES && Isolation.At(pages, d, v, off).Some? ::
      Addr(v, off) := Isolation.At(pages, d, v, off).value
  }

  /** What the process can read. */
  predicate Readable(image: Image, a: Addr) { a in image && image[a].user }

  function Put(image: Image, a: Addr, w: Word): Image { image[a := Isolation.Cell(w, true)] }

  /** The same words, all of them open to the process. */
  ghost function Opened(image: Image): Image { map a | a in image :: Isolation.Cell(image[a].w, true) }

  ghost predicate HasPage(image: Image, v: nat, p: Page) {
    forall off: nat :: off < ENTRIES ==> Addr(v, off) in image && image[Addr(v, off)].w == p[off]
  }

  /** What exec makes of a program file and its arguments: the file's image, and above it a page that is
      closed to the program and the stack with the arguments. */
  ghost predicate IsProgram(image: Image, headers: seq<Option<Exec.Segment>>, argv: seq<seq<Minix.Byte>>) {
    var end := Exec.ImageEnd(headers, |headers|);
    var top := AlignUp(end) + 2 * PAGE_SIZE;
    && (forall v: nat, off: nat :: USER_VPN <= v < MAX_VPN && off < ENTRIES ==>
          (Addr(v, off) in image <==> v * PAGE_SIZE < top))
    && (forall a :: a in image ==> (image[a].user <==> a.vpn != top / PAGE_SIZE - 2))
    && (forall v: nat :: USER_VPN <= v < MAX_VPN && v * PAGE_SIZE < end ==>
          HasPage(image, v, Exec.ImageOf(headers, |headers|, v)))
    && exists p, sp :: ArgumentPage(image, top, p, sp, argv)
  }

  /** Page p is the topmost one below user address `top`, with the arguments at sp. */
  ghost predicate ArgumentPage(image: Image, top: nat, p: Page, sp: nat, argv: seq<seq<Minix.Byte>>) {
    PAGE_SIZE <= top && HasPage(image, top / PAGE_SIZE - 1, p)
        && ExecStack.Decodes(Exec.Bytes(p), top - PAGE_SIZE, sp, argv)
  }

  /** Byte of the image at address a, None where the program cannot read. */
  function ImageByte(image: Image, a: nat): Option<Minix.Byte> {
    var at := Addr(a / PAGE_SIZE, a % PAGE_SIZE / 4);
    if Readable(image, at) then Some(Exec.ByteOf(image[at].w, a % 4)) else None
  }

  /** What the headers say of it: every byte of every segment can be read, and is that of the last file part which
      has the address, or zero. */
  lemma ProgramByte(image: Image, headers: seq<Option<Exec.Segment>>, argv: seq<seq<Minix.Byte>>, i: nat, a: nat)
    requires IsProgram(image, headers, argv) && Exec.AllLoad(headers)
    requires forall j :: 0 <= j < |headers| ==> Exec.Aligned(headers[j])
    requires i < |headers| && Exec.InSegment(headers[i], a) && USER_BASE <= a < 0x1_0000_0000
    ensures ImageByte(image, a).Some? && Exec.IsByte(headers, |headers|, a, ImageByte(image, a).value)
  {
    hide Exec.ImageOf, Exec.ImageEnd, Exec.InFile, Exec.IsByte, ArgumentPage, Exec.AllLoad, HasPage, ImageByte,
         Exec.Bytes;
    Exec.EndReaches(headers, |headers|);
    var end, v := Exec.ImageEnd(headers, |headers|), a / PAGE_SIZE;
    InsideImage(end, a);
    assert HasPage(image, v, Exec.ImageOf(headers, |headers|, v));
    assert Addr(v, a % PAGE_SIZE / 4) in image;
    PageByte(image, Exec.ImageOf(headers, |headers|, v), a);
    Exec.ImageByte(headers, |headers|, v, a % PAGE_SIZE);
  }

  /** A page of the image lies below the guard page. */
  lemma InsideImage(end: nat, a: nat)
    requires USER_BASE <= a < end && a < 0x1_0000_0000
    ensures USER_VPN <= a / PAGE_SIZE < MAX_VPN && a / PAGE_SIZE * PAGE_SIZE < end
    ensures a / PAGE_SIZE * PAGE_SIZE < AlignUp(end) + 2 * PAGE_SIZE
    ensures a / PAGE_SIZE != (AlignUp(end) + 2 * PAGE_SIZE) / PAGE_SIZE - 2
    ensures a / PAGE_SIZE * PAGE_SIZE + a % PAGE_SIZE == a
  {
    AlignUpBounds(end);
  }

  lemma PageByte(image: Image, p: Page, a: nat)
    requires HasPage(image, a / PAGE_SIZE, p) && Readable(image, Addr(a / PAGE_SIZE, a % PAGE_SIZE / 4))
    ensures ImageByte(image, a) == Some(Exec.Bytes(p)[a % PAGE_SIZE])
  {
    assert a % PAGE_SIZE % 4 == a % 4;
  }

  type Images = map<nat, Image>

  /** The process table, the open-file table, and the memory of every slot that has one. */
  datatype Moment = Moment(procs: Processes.System, files: OpenFiles.System, images: Images)

  // ---------------------------------------------------------------------------------------
  // The process table

  ghost predicate Did(s: Processes.System, step: Processes.Step, t: Processes.System) {
    Processes.Enabled(s, step) && t == Processes.Next(s, step)
  }

  ghost predicate AllWakeups(run: seq<Processes.Step>) { forall i :: 0 <= i < |run| ==> run[i].WakeupOn? }

  /** What the other side of a pipe's end sleeps on: readers, at the end to write to, on the address of nread in
      struct pipe, writers on that of nwrite. */
  function EndChannel(page: nat, writeable: bool): nat { PAGE_SIZE * page + if writeable then 512 else 516 }

  /** What the command does to the process table: close wakes the other side of a pipe when it closes an
      end for good, and exit does so for all it closes. */
  ghost predicate ProcStep(s: Processes.System, files: OpenFiles.System, c: Command, t: Processes.System) {
    match c
    case Dispatch => exists i: nat :: Did(s, Processes.Dispatch(i), t)
    case Yield => Did(s, Processes.Yield, t)
    case Sleep(id) => Did(s, Processes.SleepOn(id), t)
    case Wakeup(id) => Did(s, Processes.WakeupOn(id), t)
    case Kill(pid) =>
      || (exists i: nat :: Did(s, Processes.Kill(pid, i), t))
      || (t == s && forall i :: 0 <= i < Processes.NPROC ==> s.tab[i].pid != pid)
    case ForkAlloc =>
      || (exists i: nat :: Did(s, Processes.ForkAlloc(i), t))
      || (t == s && forall i :: 0 <= i < Processes.NPROC ==> s.tab[i].state != Processes.Unused)
    case ForkCopy => Did(s, Processes.ForkAdopt, t)
    case ForkDone => Did(s, Processes.ForkDone, t)
    case Exit => exists run :: AllWakeups(run) && Processes.Leads(s, run + [Processes.Exit], t)
    case Wait => (exists i: nat :: Did(s, Processes.Collect(i), t)) || Did(s, Processes.WaitFails, t)
        || Did(s, Processes.WaitSleeps, t)
    case Close(fd) =>
      var c := FileTable.Closing(files, Fd(files, s.running, fd));
      if c.LastOfEnd? then Did(s, Processes.WakeupOn(EndChannel(c.page, c.writeable)), t) else t == s
    case _ => t == s
  }

  // ---------------------------------------------------------------------------------------
  // Who is woken when ends of pipes close

  /** An end of a pipe was open in f and is not any more in g. */
  predicate Gone(f: OpenFiles.System, g: OpenFiles.System, q: nat, w: bool) {
    OpenFiles.EndOpen(f.pipes, q, w) && !OpenFiles.EndOpen(g.pipes, q, w)
  }

  /** The process sleeps on the other side of such an end. */
  ghost predicate Called(p: Processes.Proc, f: OpenFiles.System, g: OpenFiles.System) {
    p.state == Processes.Sleeping && exists q: nat, w: bool ::
        Gone(f, g, q, w) && p.chan == Processes.Other(EndChannel(q, w))
  }

  /** From s to t exactly those have been woken. */
  ghost predicate CalledRun(s: Processes.System, f: OpenFiles.System, t: Processes.System, g: OpenFiles.System) {
    && t.running == s.running
    && (forall q: nat, w: bool :: OpenFiles.EndOpen(g.pipes, q, w) ==> OpenFiles.EndOpen(f.pipes, q, w))
    && forall i :: 0 <= i < Processes.NPROC ==>
         t.tab[i] == if Called(s.tab[i], f, g) then s.tab[i].(state := Processes.Runable) else s.tab[i]
  }

  lemma CalledNobody(s: Processes.System, f: OpenFiles.System)
    ensures CalledRun(s, f, s, f)
  {
  }

  /** close leaves all ends of pipes open but the one that it closes for good. */
  lemma EndsAfter(g: OpenFiles.System, i: nat, q: nat, w: bool)
    requires OpenFiles.Inv(g) && OpenFiles.Enabled(g, OpenFiles.Close(i))
    ensures var c, h := FileTable.Closing(g, g.fds[i]), OpenFiles.Next(g, OpenFiles.Close(i));
            && (OpenFiles.EndOpen(h.pipes, q, w) <==>
                  OpenFiles.EndOpen(g.pipes, q, w) && !(c.LastOfEnd? && c.page == q && c.writeable == w))
            && (c.LastOfEnd? && c.page == q && c.writeable == w ==> OpenFiles.EndOpen(g.pipes, q, w))
  {
    FileTable.OpenCounted(g, i);
  }

  lemma CalledOn(s: Processes.System, f: OpenFiles.System, t: Processes.System, g: OpenFiles.System, i: nat,
                 u: Processes.System)
    requires CalledRun(s, f, t, g) && OpenFiles.Inv(g) && OpenFiles.Enabled(g, OpenFiles.Close(i))
    requires var c := FileTable.Closing(g, g.fds[i]);
             if c.LastOfEnd? then Did(t, Processes.WakeupOn(EndChannel(c.page, c.writeable)), u) else u == t
    ensures CalledRun(s, f, u, OpenFiles.Next(g, OpenFiles.Close(i)))
  {
    var h := OpenFiles.Next(g, OpenFiles.Close(i));
    forall q: nat, w: bool
      ensures var c := FileTable.Closing(g, g.fds[i]);
              && (OpenFiles.EndOpen(h.pipes, q, w) <==>
                    OpenFiles.EndOpen(g.pipes, q, w) && !(c.LastOfEnd? && c.page == q && c.writeable == w))
              && (c.LastOfEnd? && c.page == q && c.writeable == w ==> OpenFiles.EndOpen(g.pipes, q, w))
    {
      EndsAfter(g, i, q, w);
    }
    hide OpenFiles.Inv, OpenFiles.Enabled, OpenFiles.Next, OpenFiles.EndOpen, EndChannel, FileTable.Closing;
    forall j | 0 <= j < Processes.NPROC
      ensures u.tab[j] == if Called(s.tab[j], f, h) then s.tab[j].(state := Processes.Runable) else s.tab[j]
    {
      CalledSlot(s.tab[j], f, g, h, FileTable.Closing(g, g.fds[i]));
    }
  }

  lemma CalledSlot(p: Processes.Proc, f: OpenFiles.System, g: OpenFiles.System, h: OpenFiles.System,
                   c: FileTable.Closed)
    requires forall q: nat, w: bool :: OpenFiles.EndOpen(g.pipes, q, w) ==> OpenFiles.EndOpen(f.pipes, q, w)
    requires forall q: nat, w: bool :: OpenFiles.EndOpen(h.pipes, q, w) <==>
               OpenFiles.EndOpen(g.pipes, q, w) && !(c.LastOfEnd? && c.page == q && c.writeable == w)
    requires c.LastOfEnd? ==> OpenFiles.EndOpen(g.pipes, c.page, c.writeable)
    ensures Called(p, f, h) <==>
              || Called(p, f, g)
              || (c.LastOfEnd? && p.state == Processes.Sleeping
                  && p.chan == Processes.Other(EndChannel(c.page, c.writeable)))
  {
    hide OpenFiles.EndOpen, EndChannel;
    if c.LastOfEnd? {
      assert Gone(f, h, c.page, c.writeable);
    }
    if q: nat, w: bool :| Gone(f, g, q, w) && p.chan == Processes.Other(EndChannel(q, w)) {
      assert Gone(f, h, q, w);
    }
  }

  /** exit, for all other slots: who slept on the other side of a pipe's end that went with its last descriptor is
      RUNABLE, and so is a parent asleep in wait; the state of everybody else is as before. */
  ghost predicate LeftBehind(s: Processes.System, f: OpenFiles.System, t: Processes.System, g: OpenFiles.System) {
    0 <= s.running < Processes.NPROC && forall i :: 0 <= i < Processes.NPROC && i != s.running ==>
        t.tab[i].state == if Called(s.tab[i], f, g) || InWait(s, i) then Processes.Runable else s.tab[i].state
  }

  /** Slot i is the parent of the running process, asleep in wait. */
  predicate InWait(s: Processes.System, i: nat)
    requires i < Processes.NPROC && 0 <= s.running < Processes.NPROC
  {
    s.tab[i].state == Processes.Sleeping && s.tab[i].chan == Processes.Child(s.tab[s.running].parent)
  }

  lemma LeftIs(s: Processes.System, f: OpenFiles.System, u: Processes.System, g: OpenFiles.System, t: Processes.System)
    requires CalledRun(s, f, u, g) && 0 <= s.running < Processes.NPROC && Did(u, Processes.Exit, t)
    ensures LeftBehind(s, f, t, g)
  {
    hide Called;
  }

  // ---------------------------------------------------------------------------------------
  // Open files

  /** Descriptor fd of process p, -1 when it is free or no descriptor at all. */
  function Fd(s: OpenFiles.System, p: int, fd: int): int {
    if 0 <= fd < OpenFiles.NOFILE && 0 <= OpenFiles.NOFILE * p + fd < |s.fds| then s.fds[OpenFiles.NOFILE * p + fd]
        else -1
  }

  ghost predicate Opens(s: OpenFiles.System, step: OpenFiles.Step, t: OpenFiles.System) {
    OpenFiles.Enabled(s, step) && t == OpenFiles.Next(s, step)
  }

  /** The lowest free descriptor. */
  ghost predicate Lowest(s: OpenFiles.System, p: nat, fd: nat) {
    fd < OpenFiles.NOFILE && forall g :: 0 <= g < fd ==> Fd(s, p, g) != -1
  }

  ghost predicate AllTaken(s: OpenFiles.System, p: nat) { forall g :: 0 <= g < OpenFiles.NOFILE ==> Fd(s, p, g) != -1 }

  ghost predicate NoFile(s: OpenFiles.System) { forall f :: 0 <= f < |s.ftable| ==> s.ftable[f].ref != 0 }

  ghost predicate AllCloses(run: seq<OpenFiles.Step>) { forall i :: 0 <= i < |run| ==> run[i].Close? }

  ghost predicate AllAttach(run: seq<OpenFiles.Step>) { forall i :: 0 <= i < |run| ==> run[i].Attach? }

  /** Only descriptors of process p have changed. */
  ghost predicate OnlyOf(s: OpenFiles.System, t: OpenFiles.System, p: int) {
    |t.fds| == |s.fds| && forall j :: 0 <= j < |s.fds| && j / OpenFiles.NOFILE != p ==> t.fds[j] == s.fds[j]
  }

  ghost predicate OpensInode(s: OpenFiles.System, p: nat, fd: nat, f: nat, ip: nat, t: OpenFiles.System) {
    Lowest(s, p, fd) && Opens(s, OpenFiles.Open(OpenFiles.NOFILE * p + fd, f, ip), t)
  }

  ghost predicate MakesPipe(s: OpenFiles.System, p: nat, a: nat, b: nat, f: nat, g: nat, q: nat, t: OpenFiles.System) {
    && a < b < OpenFiles.NOFILE && (forall h :: 0 <= h < b && h != a ==> Fd(s, p, h) != -1)
    && Opens(s, OpenFiles.MakePipe(OpenFiles.NOFILE * p + a, OpenFiles.NOFILE * p + b, f, g, q), t)
  }

  predicate OnePlace(s: OpenFiles.System, p: nat, a: nat, b: nat) { Fd(s, p, a) != -1 || Fd(s, p, b) != -1 }

  /** What the command does to open files, when process p has the processor, with child c in fork. */
  ghost predicate FileStep(s: OpenFiles.System, c: Command, p: nat, child: int, t: OpenFiles.System) {
    match c
    case Open(ip) =>
      || (t == s && (NoFile(s) || AllTaken(s, p)))
      || exists fd: nat, f: nat :: OpensInode(s, p, fd, f, ip, t)
    case Dup(fd) =>
      || (t == s && (Fd(s, p, fd) == -1 || AllTaken(s, p)))
      || (Fd(s, p, fd) >= 0 && exists g: nat ::
            Lowest(s, p, g) && Opens(s, OpenFiles.Attach(OpenFiles.NOFILE * p + g, Fd(s, p, fd)), t))
    case Close(fd) => if Fd(s, p, fd) == -1 then t == s
        else fd >= 0 && Opens(s, OpenFiles.Close(OpenFiles.NOFILE * p + fd), t)
    case Pipe =>
      || (t == s && forall a: nat, b: nat :: a < b < OpenFiles.NOFILE ==> OnePlace(s, p, a, b))
      || exists a: nat, b: nat, f: nat, g: nat, q: nat :: MakesPipe(s, p, a, b, f, g, q, t)
    case Enter(fd) => Opens(s, OpenFiles.Enter(p, OpenFiles.NOFILE * p + fd), t)
    case Leave => Opens(s, OpenFiles.Leave(p), t)
    case ForkDone =>
      && (exists run :: AllAttach(run) && OpenFiles.Leads(s, run, t))
      && OnlyOf(s, t, child) && forall fd :: 0 <= fd < OpenFiles.NOFILE ==> Fd(t, child, fd) == Fd(s, p, fd)
    case Exit =>
      && (exists run :: AllCloses(run) && OpenFiles.Leads(s, run, t))
      && OnlyOf(s, t, p) && forall fd :: 0 <= fd < OpenFiles.NOFILE ==> Fd(t, p, fd) == -1
    case _ => t == s
  }

  lemma OpenIs(s: OpenFiles.System, ip: nat, p: nat, child: int, fd: nat, f: nat, t: OpenFiles.System)
    requires Lowest(s, p, fd) && Opens(s, OpenFiles.Open(OpenFiles.NOFILE * p + fd, f, ip), t)
    ensures FileStep(s, Open(ip), p, child, t)
  {
    hide OpenFiles.Enabled, OpenFiles.Next, Lowest, Opens;
    assert OpensInode(s, p, fd, f, ip, t);
  }

  lemma NoOpenIs(s: OpenFiles.System, ip: nat, p: nat, child: int)
    requires NoFile(s) || AllTaken(s, p)
    ensures FileStep(s, Open(ip), p, child, s)
  {
  }

  lemma DupIs(s: OpenFiles.System, fd: int, p: nat, child: int, g: nat, t: OpenFiles.System)
    requires Lowest(s, p, g) && Fd(s, p, fd) >= 0
    requires Opens(s, OpenFiles.Attach(OpenFiles.NOFILE * p + g, Fd(s, p, fd)), t)
    ensures FileStep(s, Dup(fd), p, child, t)
  {
    hide OpenFiles.Enabled, OpenFiles.Next, Lowest, Opens;
  }

  lemma NoDupIs(s: OpenFiles.System, fd: int, p: nat, child: int)
    requires Fd(s, p, fd) == -1 || AllTaken(s, p)
    ensures FileStep(s, Dup(fd), p, child, s)
  {
  }

  lemma EnterIs(s: OpenFiles.System, c: Command, p: nat, child: int, t: OpenFiles.System)
    requires c.Enter? || c.Leave?
    requires Opens(s, if c.Enter? then OpenFiles.Enter(p, OpenFiles.NOFILE * p + c.fd0) else OpenFiles.Leave(p), t)
    ensures FileStep(s, c, p, child, t)
  {
    hide OpenFiles.Enabled, OpenFiles.Next;
  }

  // ---------------------------------------------------------------------------------------
  // Memory

  /** The child that the running process is creating, or -1. */
  function Child(s: Processes.System): int { if 0 <= s.running < |s.child| then s.child[s.running] else -1 }

  /** wait of the running process collects slot i. */
  predicate Collects(s: Processes.System, c: Command, i: nat) { c.Wait? && Processes.IsDeadChild(s.tab, s.running, i) }

  ghost predicate ImageStep(s: Processes.System, v: Images, c: Command, v': Images) {
    var p := s.running;
    match c
    case Store(vpn, off, w) => p in v && v' == if Readable(v[p], Addr(vpn, off)) then
        v[p := Put(v[p], Addr(vpn, off), w)] else v
    case ForkCopy => p in v && Child(s) >= 0 && Child(s) !in v && v' == v[Child(s) := Opened(v[p])]
    case Exec(headers, argv, _) =>
      if Exec.Succeeds(headers, argv) then
        p in v && exists image :: IsProgram(image, headers.value, argv) && v' == v[p := image]
      else v' == v
    case Wait =>
      && (forall i: nat :: Collects(s, c, i) ==> v' == v - {i})
      && ((forall i: nat :: !Collects(s, c, i)) ==> v' == v)
    case _ => v' == v
  }

  lemma CollectIs(s: Processes.System, fs: OpenFiles.System, i: nat, v: Images, t: Processes.System)
    requires Did(s, Processes.Collect(i), t)
    ensures ProcStep(s, fs, Wait, t) && ImageStep(s, v, Wait, v - {i})
  {
    assert Collects(s, Wait, i);
  }

  lemma NoCollectIs(s: Processes.System, fs: OpenFiles.System, v: Images, t: Processes.System)
    requires Did(s, Processes.WaitFails, t) || Did(s, Processes.WaitSleeps, t)
    ensures ProcStep(s, fs, Wait, t) && ImageStep(s, v, Wait, v)
  {
  }

  ghost predicate Step(a: Moment, c: Command, b: Moment) {
    && a.procs.running >= -1 && ProcStep(a.procs, a.files, c, b.procs)
    && FileStep(a.files, c, if a.procs.running >= 0 then a.procs.running else 0, Child(a.procs), b.files)
    && ImageStep(a.procs, a.images, c, b.images)
    && (c.Exit? ==> LeftBehind(a.procs, a.files, b.procs, b.files))
  }

  // ---------------------------------------------------------------------------------------
  // Runs

  /** One moment before each command and one at the end. */
  ghost predicate IsTrace(ms: seq<Moment>, cs: seq<Command>) {
    |ms| == |cs| + 1 && forall k :: 0 <= k < |cs| ==> Step(ms[k], cs[k], ms[k + 1])
  }

  lemma Longer(ms: seq<Moment>, cs: seq<Command>, c: Command, m: Moment)
    requires IsTrace(ms, cs) && Step(ms[|cs|], c, m)
    ensures IsTrace(ms + [m], cs + [c])
  {
    hide Step;
  }

  /** The command changes this word of process p: p stores there or goes into another program, or slot p is
      the child that a fork copies to or that wait collects. */
  ghost predicate Touches(a: Moment, c: Command, p: nat, at: Addr) {
    match c
    case Store(vpn, off, _) => a.procs.running == p && Addr(vpn, off) == at
    case Exec(headers, argv, _) => a.procs.running == p && Exec.Succeeds(headers, argv)
    case ForkCopy => Child(a.procs) == p
    case Wait => Collects(a.procs, c, p)
    case _ => false
  }

  predicate SameWord(image: Image, image': Image, at: Addr) {
    (at in image' <==> at in image) && (at in image ==> image'[at] == image[at])
  }

  lemma WordStays(a: Moment, c: Command, b: Moment, p: nat, at: Addr)
    requires Step(a, c, b) && p in a.images && !Touches(a, c, p, at)
    ensures p in b.images && SameWord(a.images[p], b.images[p], at)
  {
    hide Exec.Succeeds, IsProgram, ProcStep, FileStep, Processes.IsDeadChild;
    if c.Wait? && exists i: nat :: Collects(a.procs, c, i) {
      var i: nat :| Collects(a.procs, c, i);
    }
  }

  /** Over every run of commands: a word of process p, and whether it is there at all, changes only by
      what p stores there, by p's exec, by the fork that makes p and by the wait that collects it. */
  lemma {:induction false} WordKept(ms: seq<Moment>, cs: seq<Command>, j: nat, k: nat, p: nat, at: Addr)
    requires IsTrace(ms, cs) && j <= k <= |cs| && p in ms[j].images
    requires forall m :: j <= m < k ==> !Touches(ms[m], cs[m], p, at)
    ensures p in ms[k].images && SameWord(ms[j].images[p], ms[k].images[p], at)
    decreases k
  {
    hide Step, Touches;
    if j < k {
      WordKept(ms, cs, j, k - 1, p, at);
      WordStays(ms[k - 1], cs[k - 1], ms[k], p, at);
    }
  }

  /** Over every run of commands: a word of process p is the one it stored last, whatever all others store,
      fork, load and leave behind meanwhile. */
  lemma ReadsOwnStore(ms: seq<Moment>, cs: seq<Command>, j: nat, k: nat, p: nat, at: Addr, w: Word)
    requires IsTrace(ms, cs) && j < k <= |cs| && cs[j] == Store(at.vpn, at.off, w) && ms[j].procs.running == p
    requires p in ms[j].images && Readable(ms[j].images[p], at)
    requires forall m :: j < m < k ==> !Touches(ms[m], cs[m], p, at)
    ensures p in ms[k].images && at in ms[k].images[p] && ms[k].images[p][at] == Isolation.Cell(w, true)
  {
    hide Touches, ProcStep, FileStep;
    assert Step(ms[j], cs[j], ms[j + 1]);
    WordKept(ms, cs, j + 1, k, p, at);
  }

  /** After a fork, child and parent each keep the words of the fork that they do not change themselves,
      whatever the other one does. */
  lemma ForkedApart(ms: seq<Moment>, cs: seq<Command>, j: nat, k: nat, p: nat, c: nat, at: Addr)
    requires IsTrace(ms, cs) && j < k <= |cs| && cs[j] == ForkCopy && ms[j].procs.running == p
    requires Child(ms[j].procs) == c
    requires p in ms[j].images && at in ms[j].images[p]
    ensures (forall m :: j < m < k ==> !Touches(ms[m], cs[m], c, at)) ==>
              c in ms[k].images && at in ms[k].images[c]
                  && ms[k].images[c][at] == Isolation.Cell(ms[j].images[p][at].w, true)
    ensures (forall m :: j < m < k ==> !Touches(ms[m], cs[m], p, at)) ==>
              p in ms[k].images && at in ms[k].images[p] && ms[k].images[p][at] == ms[j].images[p][at]
  {
    hide Touches, ProcStep, FileStep;
    assert Step(ms[j], cs[j], ms[j + 1]);
    if forall m :: j < m < k ==> !Touches(ms[m], cs[m], c, at) {
      WordKept(ms, cs, j + 1, k, c, at);
    }
    if forall m :: j < m < k ==> !Touches(ms[m], cs[m], p, at) {
      WordKept(ms, cs, j + 1, k, p, at);
    }
  }

  /** A store changes no word of another process. */
  lemma StoreIsOwn(a: Moment, vpn: nat, off: nat, w: Word, b: Moment, p: nat)
    requires Step(a, Store(vpn, off, w), b) && p in a.images && a.procs.running != p
    ensures p in b.images && b.images[p] == a.images[p]
  {
    hide ProcStep, FileStep;
  }

  // ---------------------------------------------------------------------------------------
  // Pipes

  /** The last close of an end of pipe page q makes RUNABLE exactly who sleeps on nread, when the end was the one to
      write to, or on nwrite. */
  lemma CloseWakes(a: Moment, fd: int, b: Moment, q: nat, w: bool, i: nat)
    requires Step(a, Close(fd), b) && i < Processes.NPROC
    requires var g := Fd(a.files, a.procs.running, fd);
             0 <= g < |a.files.ftable| && a.files.ftable[g] == OpenFiles.File(1, OpenFiles.PipeEnd(q, w))
    ensures b.procs.tab[i].state ==
            if a.procs.tab[i].state == Processes.Sleeping
               && a.procs.tab[i].chan == Processes.Other(4096 * q + if w then 512 else 516)
            then Processes.Runable else a.procs.tab[i].state
  {
    hide FileStep, ImageStep;
    assert FileTable.Closing(a.files, Fd(a.files, a.procs.running, fd)).LastOfEnd?;
  }

  /** And so does exit for every end that goes with it. */
  lemma ExitWakes(a: Moment, b: Moment, q: nat, w: bool, i: nat)
    requires Step(a, Exit, b) && i < Processes.NPROC && i != a.procs.running
    requires OpenFiles.EndOpen(a.files.pipes, q, w) && !OpenFiles.EndOpen(b.files.pipes, q, w)
    requires a.procs.tab[i].state == Processes.Sleeping
    requires a.procs.tab[i].chan == Processes.Other(4096 * q + if w then 512 else 516)
    ensures b.procs.tab[i].state == Processes.Runable
  {
    hide FileStep, ImageStep, ProcStep;
    assert Gone(a.files, b.files, q, w);
  }

  // ---------------------------------------------------------------------------------------
  // A run of the machine is one of the process table and one of the open-file table

  lemma ProcRun(s: Processes.System, files: OpenFiles.System, c: Command, t: Processes.System)
      returns (run: seq<Processes.Step>)
    requires ProcStep(s, files, c, t)
    ensures Processes.Leads(s, run, t)
    ensures !c.ForkAlloc? && !c.ForkCopy? && !c.Wait? ==> forall i :: 0 <= i < |run| ==>
              !run[i].ForkAlloc? && !run[i].ForkAdopt? && !run[i].Collect?
  {
    hide Processes.Leads, Processes.Enabled, Processes.Next;
    run := [];
    Processes.LeadsNowhere(s);
    match c {
      case Dispatch =>
        var i: nat :| Did(s, Processes.Dispatch(i), t);
        run := [Processes.Dispatch(i)];
      case Yield => run := [Processes.Yield];
      case Sleep(id) => run := [Processes.SleepOn(id)];
      case Wakeup(id) => run := [Processes.WakeupOn(id)];
      case Kill(pid) =>
        if i: nat :| Did(s, Processes.Kill(pid, i), t) {
          run := [Processes.Kill(pid, i)];
        }
      case ForkAlloc =>
        if i: nat :| Did(s, Processes.ForkAlloc(i), t) {
          run := [Processes.ForkAlloc(i)];
        }
      case ForkCopy => run := [Processes.ForkAdopt];
      case ForkDone => run := [Processes.ForkDone];
      case Exit =>
        var wakes :| AllWakeups(wakes) && Processes.Leads(s, wakes + [Processes.Exit], t);
        return wakes + [Processes.Exit];
      case Wait =>
        if i: nat :| Did(s, Processes.Collect(i), t) {
          run := [Processes.Collect(i)];
        } else if Did(s, Processes.WaitFails, t) {
          run := [Processes.WaitFails];
        } else {
          run := [Processes.WaitSleeps];
        }
      case Close(fd) =>
        var last := FileTable.Closing(files, Fd(files, s.running, fd));
        if last.LastOfEnd? {
          run := [Processes.WakeupOn(EndChannel(last.page, last.writeable))];
        }
      case _ =>
    }
    if run != [] {
      Processes.LeadsOne(s, run[0]);
    }
  }

  lemma {:induction false} TraceLeads(ms: seq<Moment>, cs: seq<Command>) returns (run: seq<Processes.Step>)
    requires IsTrace(ms, cs)
    ensures Processes.Leads(ms[0].procs, run, ms[|cs|].procs)
    decreases |cs|
  {
    hide Processes.Leads, ProcStep, FileStep, ImageStep;
    if cs == [] {
      run := [];
      Processes.LeadsNowhere(ms[0].procs);
    } else {
      var n := |cs| - 1;
      run := TraceLeads(ms[..n + 1], cs[..n]);
      assert Step(ms[n], cs[n], ms[n + 1]);
      var last := ProcRun(ms[n].procs, ms[n].files, cs[n], ms[n + 1].procs);
      Processes.LeadsOn(ms[0].procs, run, ms[n].procs, last, ms[n + 1].procs);
      run := run + last;
    }
  }

  lemma FileRun(s: OpenFiles.System, c: Command, p: nat, child: int, t: OpenFiles.System)
      returns (run: seq<OpenFiles.Step>)
    requires FileStep(s, c, p, child, t)
    ensures OpenFiles.Leads(s, run, t)
  {
    hide OpenFiles.Leads, OpenFiles.Enabled, OpenFiles.Next;
    OpenFiles.LeadsNowhere(s);
    if t == s {
      return [];
    }
    match c {
      case ForkDone =>
        run :| OpenFiles.Leads(s, run, t);
        return;
      case Exit =>
        run :| OpenFiles.Leads(s, run, t);
        return;
      case Open(ip) =>
        var fd: nat, f: nat :| OpensInode(s, p, fd, f, ip, t);
        run := [OpenFiles.Open(OpenFiles.NOFILE * p + fd, f, ip)];
      case Dup(fd) =>
        var g: nat :| Lowest(s, p, g) && Opens(s, OpenFiles.Attach(OpenFiles.NOFILE * p + g, Fd(s, p, fd)), t);
        run := [OpenFiles.Attach(OpenFiles.NOFILE * p + g, Fd(s, p, fd))];
      case Close(fd) => run := [OpenFiles.Close(OpenFiles.NOFILE * p + fd)];
      case Pipe =>
        var a: nat, b: nat, f: nat, g: nat, q: nat :| MakesPipe(s, p, a, b, f, g, q, t);
        run := [OpenFiles.MakePipe(OpenFiles.NOFILE * p + a, OpenFiles.NOFILE * p + b, f, g, q)];
      case Enter(fd) => run := [OpenFiles.Enter(p, OpenFiles.NOFILE * p + fd)];
      case Leave => run := [OpenFiles.Leave(p)];
    }
    OpenFiles.LeadsOne(s, run[0]);
  }

  lemma {:induction false} TraceOpens(ms: seq<Moment>, cs: seq<Command>) returns (run: seq<OpenFiles.Step>)
    requires IsTrace(ms, cs)
    ensures OpenFiles.Leads(ms[0].files, run, ms[|cs|].files)
    decreases |cs|
  {
    hide OpenFiles.Leads, ProcStep, FileStep, ImageStep;
    if cs == [] {
      run := [];
      OpenFiles.LeadsNowhere(ms[0].files);
    } else {
      var n := |cs| - 1;
      run := TraceOpens(ms[..n + 1], cs[..n]);
      assert Step(ms[n], cs[n], ms[n + 1]);
      var p := if ms[n].procs.running >= 0 then ms[n].procs.running else 0;
      var last := FileRun(ms[n].files, cs[n], p, Child(ms[n].procs), ms[n + 1].files);
      OpenFiles.LeadsOn(ms[0].files, run, ms[n].files, last, ms[n + 1].files);
      run := run + last;
    }
  }

  lemma SameImage(pages: Pages, pages': Pages, d: nat)
    requires Isolation.SameMemory(pages, pages', d)
    ensures ImageOf(pages', d) == ImageOf(pages, d)
  {
    hide Isolation.At;
  }
}
