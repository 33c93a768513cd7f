/** Processes, memory and open files together: which page belongs to whom over every run of fork, exec,
    exit, wait, pipe, close and kill (proc/proc.c, proc/exec.c, kern/pipe.c, fs/sysfile.c, mm/vmm.c). */
module Machine {
  import opened Wrappers
  import opened Paging
  import opened Vmm
  import Exec
  import ExecStack
  import Isolation
  import opened MachineSpec
  import Minix
  import Processes
  import ProcTable
  import OpenFiles
  import FileTable

  const NPROC: nat := Processes.NPROC

  /** The memory of a process: kern_stack, pgdir and size of struct proc. */
  datatype Space = Space(kstack: nat, pgdir: nat, size: nat)

  type Table = seq<Processes.Proc>

  predicate HasStack(p: Processes.Proc) { !p.state.Unused? }

  /** A child in fork has no address space before uvm_copy, and no parent either. */
  predicate HasSpace(p: Processes.Proc) { !p.state.Unused? && (p.state.Used? ==> p.parent != -1) }

  // ---------------------------------------------------------------------------------------
  // Who owns what

  ghost predicate IsStack(tab: Table, spaces: seq<Space>, f: nat) {
    exists i :: 0 <= i < |tab| && i < |spaces| && HasStack(tab[i]) && spaces[i].kstack == f
  }

  ghost predicate IsDirectory(tab: Table, spaces: seq<Space>, d: nat) {
    exists i :: 0 <= i < |tab| && i < |spaces| && HasSpace(tab[i]) && spaces[i].pgdir == d
  }

  /** Every process that is not free, zombies included, has a kernel stack of its own; stacks and pipe
      pages are apart and are all there is of that kind. */
  ghost predicate Stacks(tab: Table, spaces: seq<Space>, plain: set<nat>, pipes: set<nat>) {
    && |tab| == |spaces| == NPROC && pipes <= plain
    && (forall i :: 0 <= i < NPROC && HasStack(tab[i]) ==> spaces[i].kstack in plain && spaces[i].kstack !in pipes)
    && (forall i, j :: 0 <= i < j < NPROC && HasStack(tab[i]) && HasStack(tab[j]) ==>
          spaces[i].kstack != spaces[j].kstack)
    && (forall f :: f in plain ==> f in pipes || IsStack(tab, spaces, f))
  }

  /** And a page directory of its own, and those are all. */
  ghost predicate AddressSpaces(tab: Table, spaces: seq<Space>, dirs: set<nat>) {
    && |tab| == |spaces| == NPROC
    && (forall i :: 0 <= i < NPROC && HasSpace(tab[i]) ==> spaces[i].pgdir in dirs)
    && (forall i, j :: 0 <= i < j < NPROC && HasSpace(tab[i]) && HasSpace(tab[j]) ==>
          spaces[i].pgdir != spaces[j].pgdir)
    && (forall d :: d in dirs ==> IsDirectory(tab, spaces, d))
  }

  /** In which exactly the pages below its size are mapped. */
  ghost predicate Sizes(tab: Table, spaces: seq<Space>, pages: Pages) {
    && |tab| == |spaces| == NPROC
    && forall i :: 0 <= i < NPROC && HasSpace(tab[i]) ==>
        USER_BASE + spaces[i].size <= 0x1_0000_0000 && MapsBelow(pages, spaces[i].pgdir, USER_BASE + spaces[i].size)
  }

  /** Only live processes have descriptors. */
  ghost predicate Descriptors(tab: Table, fds: seq<int>) {
    && |tab| == NPROC && |fds| == OpenFiles.SLOTS
    && forall p, fd :: 0 <= p < NPROC && 0 <= fd < OpenFiles.NOFILE && !Processes.Alive(tab[p]) ==>
        NoDescriptor(fds, p, fd)
  }

  predicate NoDescriptor(fds: seq<int>, p: nat, fd: nat)
    requires |fds| == OpenFiles.SLOTS && p < NPROC && fd < OpenFiles.NOFILE
  {
    fds[OpenFiles.NOFILE * p + fd] == -1
  }

  ghost predicate Owned(tab: Table, spaces: seq<Space>, plain: set<nat>, dirs: set<nat>, pages: Pages,
                        pipes: set<nat>, fds: seq<int>)
  {
    Stacks(tab, spaces, plain, pipes) && AddressSpaces(tab, spaces, dirs) && Sizes(tab, spaces, pages)
        && Descriptors(tab, fds)
  }

  // ---------------------------------------------------------------------------------------
  // What keeps it

  ghost predicate SameOwners(tab: Table, tab': Table) {
    && |tab'| == |tab|
    && forall i :: 0 <= i < |tab| ==> HasStack(tab'[i]) == HasStack(tab[i]) && HasSpace(tab'[i]) == HasSpace(tab[i])
  }

  lemma OwnersKept(tab: Table, tab': Table, spaces: seq<Space>, plain: set<nat>, dirs: set<nat>, pages: Pages,
                   pipes: set<nat>)
    requires SameOwners(tab, tab')
    requires Stacks(tab, spaces, plain, pipes) && AddressSpaces(tab, spaces, dirs) && Sizes(tab, spaces, pages)
    ensures Stacks(tab', spaces, plain, pipes) && AddressSpaces(tab', spaces, dirs) && Sizes(tab', spaces, pages)
  {
    forall f | f in plain && f !in pipes ensures IsStack(tab', spaces, f) {
      assert IsStack(tab, spaces, f);
    }
    forall d | d in dirs ensures IsDirectory(tab', spaces, d) {
      assert IsDirectory(tab, spaces, d);
    }
  }

  predicate MovesMemory(step: Processes.Step) { step.ForkAlloc? || step.ForkAdopt? || step.Collect? }

  /** All steps of the process table but three leave every slot as it is with respect to memory. */
  lemma StepKeepsOwners(s: Processes.System, step: Processes.Step)
    requires Processes.Inv(s) && Processes.Enabled(s, step) && !MovesMemory(step)
    ensures SameOwners(s.tab, Processes.Next(s, step).tab)
  {
    if step.Exit? {
      ProcTable.HasGrandparent(s);
      assert Processes.Kin(s.tab, s.running, s.tab[s.running]);
    }
  }

  /** Only exit ends a life. */
  lemma StepKeepsAlive(s: Processes.System, step: Processes.Step)
    requires Processes.Inv(s) && Processes.Enabled(s, step)
    ensures forall i :: 0 <= i < NPROC && Processes.Alive(s.tab[i]) && !(step.Exit? && i == s.running) ==>
              Processes.Alive(Processes.Next(s, step).tab[i])
  {
  }

  /** A step of the process table that takes and returns no memory. */
  lemma ProcessStep(s: Processes.System, step: Processes.Step, spaces: seq<Space>, plain: set<nat>, dirs: set<nat>,
                    pages: Pages, pipes: set<nat>, fds: seq<int>)
    requires Processes.Inv(s) && Processes.Enabled(s, step) && !MovesMemory(step)
    requires Owned(s.tab, spaces, plain, dirs, pages, pipes, fds)
    requires step.Exit? ==> forall fd :: 0 <= fd < OpenFiles.NOFILE ==> NoDescriptor(fds, s.running, fd)
    ensures Owned(Processes.Next(s, step).tab, spaces, plain, dirs, pages, pipes, fds)
  {
    StepKeepsOwners(s, step);
    StepKeepsAlive(s, step);
    hide Processes.Inv, Processes.Enabled, Processes.Next;
    OwnersKept(s.tab, Processes.Next(s, step).tab, spaces, plain, dirs, pages, pipes);
  }

  lemma SizesKept(tab: Table, spaces: seq<Space>, dirs: set<nat>, pages: Pages, pages': Pages)
    requires AddressSpaces(tab, spaces, dirs) && Sizes(tab, spaces, pages)
    requires forall d :: d in dirs ==> SameMap(pages, pages', d)
    ensures Sizes(tab, spaces, pages')
  {
    hide Lookup;
    forall i | 0 <= i < NPROC && HasSpace(tab[i])
      ensures MapsBelow(pages', spaces[i].pgdir, USER_BASE + spaces[i].size)
    {
      assert SameMap(pages, pages', spaces[i].pgdir);
    }
  }

  /** proc_alloc: a free slot gets a stack. */
  lemma StackTaken(tab: Table, spaces: seq<Space>, plain: set<nat>, dirs: set<nat>, pages: Pages, pipes: set<nat>,
                   i: nat, p: Processes.Proc, f: nat)
    requires Stacks(tab, spaces, plain, pipes) && AddressSpaces(tab, spaces, dirs) && Sizes(tab, spaces, pages)
    requires i < NPROC && !HasStack(tab[i]) && HasStack(p) && !HasSpace(p) && f !in plain
    ensures var tab', spaces' := tab[i := p], spaces[i := spaces[i].(kstack := f)];
            Stacks(tab', spaces', plain + {f}, pipes) && AddressSpaces(tab', spaces', dirs)
                && Sizes(tab', spaces', pages)
  {
    var tab', spaces' := tab[i := p], spaces[i := spaces[i].(kstack := f)];
    forall g | g in plain + {f} && g !in pipes ensures IsStack(tab', spaces', g) {
      if g == f {
        assert HasStack(tab'[i]) && spaces'[i].kstack == g;
      } else {
        assert IsStack(tab, spaces, g);
        var j :| 0 <= j < NPROC && HasStack(tab[j]) && spaces[j].kstack == g;
        assert HasStack(tab'[j]) && spaces'[j].kstack == g;
      }
    }
    forall d | d in dirs ensures IsDirectory(tab', spaces', d) {
      assert IsDirectory(tab, spaces, d);
      var j :| 0 <= j < NPROC && HasSpace(tab[j]) && spaces[j].pgdir == d;
      assert HasSpace(tab'[j]) && spaces'[j].pgdir == d;
    }
  }

  /** The slot of a process changes its address space: fork gives it the first one, exec another one. */
  lemma SpaceChanged(tab: Table, spaces: seq<Space>, plain: set<nat>, pipes: set<nat>, dirs: set<nat>,
                     dirs': set<nat>, i: nat, p: Processes.Proc, d: nat, size: nat)
    requires Stacks(tab, spaces, plain, pipes) && AddressSpaces(tab, spaces, dirs)
    requires i < NPROC && HasStack(tab[i]) && HasSpace(p) && d !in dirs
    requires dirs' == (if HasSpace(tab[i]) then dirs - {spaces[i].pgdir} else dirs) + {d}
    ensures var tab', spaces' := tab[i := p], spaces[i := spaces[i].(pgdir := d, size := size)];
            Stacks(tab', spaces', plain, pipes) && AddressSpaces(tab', spaces', dirs')
  {
    var tab', spaces' := tab[i := p], spaces[i := spaces[i].(pgdir := d, size := size)];
    forall g | g in plain && g !in pipes ensures IsStack(tab', spaces', g) {
      assert IsStack(tab, spaces, g);
      var j :| 0 <= j < NPROC && HasStack(tab[j]) && spaces[j].kstack == g;
      assert HasStack(tab'[j]) && spaces'[j].kstack == g;
    }
    forall e | e in dirs' ensures IsDirectory(tab', spaces', e) {
      if e == d {
        assert HasSpace(tab'[i]) && spaces'[i].pgdir == e;
      } else {
        assert IsDirectory(tab, spaces, e);
        var j :| 0 <= j < NPROC && HasSpace(tab[j]) && spaces[j].pgdir == e;
        assert HasSpace(tab'[j]) && spaces'[j].pgdir == e;
      }
    }
  }

  lemma SizeChanged(tab: Table, spaces: seq<Space>, dirs: set<nat>, pages: Pages, pages': Pages, i: nat,
                    p: Processes.Proc, d: nat, size: nat)
    requires AddressSpaces(tab, spaces, dirs) && Sizes(tab, spaces, pages) && i < NPROC
    requires forall e :: e in dirs && !(HasSpace(tab[i]) && e == spaces[i].pgdir) ==> SameMap(pages, pages', e)
    requires USER_BASE + size <= 0x1_0000_0000 && MapsBelow(pages', d, USER_BASE + size)
    ensures Sizes(tab[i := p], spaces[i := spaces[i].(pgdir := d, size := size)], pages')
  {
    hide Lookup;
    forall j | 0 <= j < NPROC && HasSpace(tab[j]) && j != i
      ensures MapsBelow(pages', spaces[j].pgdir, USER_BASE + spaces[j].size)
    {
      assert SameMap(pages, pages', spaces[j].pgdir);
    }
  }

  /** wait: a zombie's stack and directory are nobody else's. */
  lemma SlotReaped(tab: Table, spaces: seq<Space>, plain: set<nat>, dirs: set<nat>, pages: Pages, pipes: set<nat>,
                   i: nat, p: Processes.Proc)
    requires Stacks(tab, spaces, plain, pipes) && AddressSpaces(tab, spaces, dirs) && Sizes(tab, spaces, pages)
    requires i < NPROC && HasSpace(tab[i]) && !HasStack(p)
    ensures Stacks(tab[i := p], spaces, plain - {spaces[i].kstack}, pipes)
    ensures AddressSpaces(tab[i := p], spaces, dirs - {spaces[i].pgdir})
    ensures Sizes(tab[i := p], spaces, pages)
  {
    var tab' := tab[i := p];
    forall g | g in plain - {spaces[i].kstack} && g !in pipes ensures IsStack(tab', spaces, g) {
      assert IsStack(tab, spaces, g);
      var j :| 0 <= j < NPROC && HasStack(tab[j]) && spaces[j].kstack == g;
      assert HasStack(tab'[j]) && spaces[j].kstack == g;
    }
    forall d | d in dirs - {spaces[i].pgdir} ensures IsDirectory(tab', spaces, d) {
      assert IsDirectory(tab, spaces, d);
      var j :| 0 <= j < NPROC && HasSpace(tab[j]) && spaces[j].pgdir == d;
      assert HasSpace(tab'[j]) && spaces[j].pgdir == d;
    }
  }

  lemma PipeTaken(tab: Table, spaces: seq<Space>, plain: set<nat>, pipes: set<nat>, f: nat)
    requires Stacks(tab, spaces, plain, pipes) && f !in plain
    ensures Stacks(tab, spaces, plain + {f}, pipes + {f})
  {
  }

  lemma PipeGone(tab: Table, spaces: seq<Space>, plain: set<nat>, pipes: set<nat>, f: nat)
    requires Stacks(tab, spaces, plain, pipes) && f in pipes
    ensures Stacks(tab, spaces, plain - {f}, pipes - {f})
  {
  }

  lemma FirstOwned(spaces: seq<Space>, pages: Pages, kstack: nat, pgdir: nat)
    requires |spaces| == NPROC && spaces[0] == Space(kstack, pgdir, PAGE_SIZE)
    requires MapsBelow(pages, pgdir, USER_BASE + PAGE_SIZE)
    ensures Owned(Processes.Initial().tab, spaces, {kstack}, {pgdir}, pages, {}, OpenFiles.Initial().fds)
  {
    var tab := Processes.Initial().tab;
    assert forall i :: 0 <= i < NPROC ==> (HasStack(tab[i]) <==> i == 0) && (HasSpace(tab[i]) <==> i == 0);
    assert IsStack(tab, spaces, kstack) && IsDirectory(tab, spaces, pgdir);
  }

  // ---------------------------------------------------------------------------------------
  // What processes see

  /** The memory of every process that has one, by slots. */
  ghost function MemsOf(tab: Table, spaces: seq<Space>, pages: Pages): Images {
    map p: nat | p < |tab| && p < |spaces| && HasSpace(tab[p]) :: ImageOf(pages, spaces[p].pgdir)
  }

  /** All slots but c have the address spaces they had, and these read the same. */
  lemma MemsBut(tab: Table, tab': Table, spaces: seq<Space>, spaces': seq<Space>, pages: Pages, pages': Pages,
                dirs: set<nat>, dirs': set<nat>, c: int)
    requires AddressSpaces(tab, spaces, dirs) && |tab'| == |spaces'| == NPROC
    requires forall i :: 0 <= i < NPROC && i != c ==> HasSpace(tab'[i]) == HasSpace(tab[i])
    requires forall i :: 0 <= i < NPROC && i != c && HasSpace(tab[i]) ==>
               spaces'[i].pgdir == spaces[i].pgdir && (spaces[i].pgdir in dirs ==> spaces[i].pgdir in dirs')
    requires forall d :: d in dirs && d in dirs' ==> Isolation.SameMemory(pages, pages', d)
    ensures forall i :: i != c ==> (i in MemsOf(tab', spaces', pages') <==> i in MemsOf(tab, spaces, pages))
    ensures forall i :: i != c && i in MemsOf(tab, spaces, pages) ==>
              MemsOf(tab', spaces', pages')[i] == MemsOf(tab, spaces, pages)[i]
  {
    hide ImageOf, Isolation.SameMemory;
    forall i: nat | i < NPROC && i != c && HasSpace(tab[i])
      ensures ImageOf(pages', spaces'[i].pgdir) == ImageOf(pages, spaces[i].pgdir)
    {
      SameImage(pages, pages', spaces[i].pgdir);
    }
  }

  lemma SameImages(v: Images, v': Images)
    requires forall i :: i != -1 ==> (i in v' <==> i in v)
    requires forall i :: i != -1 && i in v ==> v'[i] == v[i]
    ensures v' == v
  {
  }

  lemma OneMoreImage(v: Images, v': Images, c: nat, image: Image)
    requires forall i :: i != c ==> (i in v' <==> i in v)
    requires forall i :: i != c && i in v ==> v'[i] == v[i]
    requires c in v' && v'[c] == image
    ensures v' == v[c := image]
  {
  }

  lemma OneLessImage(v: Images, v': Images, c: nat)
    requires forall i :: i != c ==> (i in v' <==> i in v)
    requires forall i :: i != c && i in v ==> v'[i] == v[i]
    requires c !in v'
    ensures v' == v - {c}
  {
  }

  /** No two processes have the same directory. */
  lemma OnlyDirectory(tab: Table, spaces: seq<Space>, dirs: set<nat>, p: nat)
    requires AddressSpaces(tab, spaces, dirs) && p < NPROC
    ensures |tab| == |spaces| == NPROC
    ensures HasSpace(tab[p]) ==> forall i :: 0 <= i < NPROC && i != p && HasSpace(tab[i]) ==>
              spaces[i].pgdir != spaces[p].pgdir
  {
  }

  lemma MemAt(tab: Table, spaces: seq<Space>, pages: Pages, p: nat)
    ensures p in MemsOf(tab, spaces, pages) <==> p < |tab| && p < |spaces| && HasSpace(tab[p])
    ensures p in MemsOf(tab, spaces, pages) ==> MemsOf(tab, spaces, pages)[p] == ImageOf(pages, spaces[p].pgdir)
  {
    hide ImageOf;
  }

  /** Steps that take and return no memory leave the slots as they are. */
  lemma {:induction false} RunKeepsOwners(s: Processes.System, run: seq<Processes.Step>)
    requires Processes.Inv(s) && Processes.IsRun(s, run) && forall i :: 0 <= i < |run| ==> !MovesMemory(run[i])
    ensures SameOwners(s.tab, Processes.After(s, run).tab)
    decreases |run|
  {
    hide Processes.Inv, Processes.Enabled, Processes.Next;
    if run != [] {
      StepKeepsOwners(s, run[0]);
      Processes.StepKeepsInv(s, run[0]);
      RunKeepsOwners(Processes.Next(s, run[0]), run[1..]);
    }
  }

  /** proc_alloc gives the new slot no address space yet. */
  lemma SpaceAfterAlloc(s: Processes.System, c: int)
    requires Processes.Inv(s) && c >= 0 && Processes.Enabled(s, Processes.ForkAlloc(c))
    ensures forall i :: 0 <= i < NPROC ==>
              HasSpace(Processes.Next(s, Processes.ForkAlloc(c)).tab[i]) == HasSpace(s.tab[i])
  {
    FreeSlot(s, c);
  }

  lemma SpaceAfterAdopt(s: Processes.System)
    requires Processes.Inv(s) && Processes.Enabled(s, Processes.ForkAdopt) && s.tab[s.child[s.running]].parent == -1
    ensures var c, t := s.child[s.running], Processes.Next(s, Processes.ForkAdopt).tab;
            !HasSpace(s.tab[c]) && HasSpace(t[c]) && forall i :: 0 <= i < NPROC && i != c ==> t[i] == s.tab[i]
  {
    NewChild(s);
  }

  /** uvm_copy: the child has the parent's words, all open to it. */
  lemma ImageCopied(m: Memory, src: nat, pgd: nat, size: nat)
    requires m.Copied(src, pgd, Pages4k(size)) && m.Open(pgd, Pages4k(size)) && m.MappedBelow(src, USER_BASE + size)
    ensures ImageOf(m.pages, pgd) == Opened(ImageOf(m.pages, src))
  {
    forall v, off | USER_VPN <= v < MAX_VPN && 0 <= off < ENTRIES
      ensures Isolation.At(m.pages, pgd, v, off)
              == match Isolation.At(m.pages, src, v, off) case None => None case Some(c) =>
                  Some(Isolation.Cell(c.w, true))
    {
      Exec.SizeInPages(size, v - USER_VPN);
      if v < USER_VPN + Pages4k(size) {
        assert m.SamePage(src, pgd, v);
        m.CanUse(pgd, Pages4k(size), v);
      }
      hide Lookup, UserCan;
    }
    hide Isolation.At;
  }

  /** What is mapped below user address `top`, all but page `guard` open to the program. */
  lemma MappedSeen(pages: Pages, dirs: set<nat>, owner: map<nat, Role>, d: nat, top: nat, guard: int)
    requires Isolation.Leaves(pages, dirs, owner) && d in dirs && MapsBelow(pages, d, top)
    requires forall v :: USER_VPN <= v < MAX_VPN && v * PAGE_SIZE < top ==> (UserCan(pages, d, v) <==> v != guard)
    ensures forall v: nat, off: nat :: USER_VPN <= v < MAX_VPN && off < ENTRIES ==>
              (Addr(v, off) in ImageOf(pages, d) <==> v * PAGE_SIZE < top)
    ensures forall a :: a in ImageOf(pages, d) ==> (ImageOf(pages, d)[a].user <==> a.vpn != guard)
  {
    forall v: nat, off: nat | USER_VPN <= v < MAX_VPN && off < ENTRIES
      ensures Isolation.At(pages, d, v, off).Some? <==> v * PAGE_SIZE < top
      ensures Isolation.At(pages, d, v, off).Some? ==> Isolation.At(pages, d, v, off).value.user == (v != guard)
    {
      hide Lookup, UserCan;
    }
    hide Isolation.At, Isolation.Leaves, MapsBelow, UserCan;
  }

  lemma PageSeen(pages: Pages, d: nat, v: nat, p: Page)
    requires USER_VPN <= v < MAX_VPN && Exec.Holds(pages, d, v, p)
    ensures HasPage(ImageOf(pages, d), v, p)
  {
    forall off: nat | off < ENTRIES
      ensures Isolation.At(pages, d, v, off).Some? && Isolation.At(pages, d, v, off).value.w == p[off]
    {
    }
    hide Isolation.At, Exec.Holds;
  }

  /** The image of a program that exec has loaded. */
  lemma ProgramSeen(pages: Pages, dirs: set<nat>, owner: map<nat, Role>, d: nat, headers: seq<Option<Exec.Segment>>,
                    argv: seq<seq<Minix.Byte>>, sp: nat)
    requires Isolation.Leaves(pages, dirs, owner) && d in dirs
    requires var end := Exec.ImageEnd(headers, |headers|);
             var top := AlignUp(end) + 2 * PAGE_SIZE;
             && top < 0x1_0000_0000 && MapsBelow(pages, d, top) && Exec.HoldsImage(pages, d, headers, |headers|, end)
             && Exec.HasArguments(pages, d, top, sp, argv) && Exec.Guarded(pages, d, top)
    ensures IsProgram(ImageOf(pages, d), headers, argv)
  {
    hide ImageOf, HasPage, Exec.Holds, UserCan, Isolation.Leaves, MapsBelow, Exec.ImageOf, Exec.ImageEnd,
         Exec.Bytes, ExecStack.Decodes;
    var end := Exec.ImageEnd(headers, |headers|);
    var top := AlignUp(end) + 2 * PAGE_SIZE;
    MappedSeen(pages, dirs, owner, d, top, top / PAGE_SIZE - 2);
    forall v: nat | USER_VPN <= v < MAX_VPN && v * PAGE_SIZE < end
      ensures HasPage(ImageOf(pages, d), v, Exec.ImageOf(headers, |headers|, v))
    {
      PageSeen(pages, d, v, Exec.ImageOf(headers, |headers|, v));
    }
    var p: Page :| Exec.Holds(pages, d, top / PAGE_SIZE - 1, p)
        && ExecStack.Decodes(Exec.Bytes(p), top - PAGE_SIZE, sp, argv);
    PageSeen(pages, d, top / PAGE_SIZE - 1, p);
    assert ArgumentPage(ImageOf(pages, d), top, p, sp, argv);
  }

  /** Then everybody's memory is as before. */
  lemma MemsKept(s: Processes.System, t: Processes.System, run: seq<Processes.Step>, spaces: seq<Space>,
                 pages: Pages, pages': Pages, dirs: set<nat>)
    requires Processes.Inv(s) && Processes.Leads(s, run, t) && AddressSpaces(s.tab, spaces, dirs)
    requires forall i :: 0 <= i < |run| ==> !MovesMemory(run[i])
    requires forall d :: d in dirs ==> Isolation.SameMemory(pages, pages', d)
    ensures MemsOf(t.tab, spaces, pages') == MemsOf(s.tab, spaces, pages)
  {
    hide Processes.Inv, Isolation.SameMemory, ImageOf;
    RunKeepsOwners(s, run);
    MemsBut(s.tab, t.tab, spaces, spaces, pages, pages', dirs, dirs, -1);
  }

  // ---------------------------------------------------------------------------------------
  // The three together

  /** What a page frame is good for. */
  datatype Use = FreeAt(i: nat) | KernelStack(p: nat) | PageDirectory(p: nat) | UserTable(p: nat, i: nat)
      | UserPage(p: nat, v: nat) | PipePage

  class Machine {
    const k: ProcTable.Kernel
    const f: FileTable.Files
    const m: Memory
    const space: array<Space>

    ghost predicate Valid()
      reads this, k, k.ptable, f, f.ftable, f.ofile, m, m.pmmStack, space
    {
      && k.Valid() && f.Valid() && m.Valid() && space.Length == NPROC
      && f.ofile as object != m.pmmStack
      && Owned(k.ptable[..], space[..], m.plain, m.dirs, m.pages, f.pipes.Keys, f.ofile[..])
    }

    /** pmm_init, vmm_init's tables in `pages`, proc_init and file_init. */
    constructor (layout: Layout, first: nat, pages: Pages, code: Page)
      requires IsLayout(layout) && |pages| == layout.top && Identity(layout, pages)
      requires layout.pt + ENTRIES <= first && first + 4 <= layout.top <= PAGE_MAX_SIZE
      ensures Valid() && fresh(k) && fresh(k.ptable) && fresh(f) && fresh(f.ftable) && fresh(f.ofile) && fresh(m)
      ensures fresh(m.pmmStack) && fresh(space)
      ensures k.View() == Processes.Initial() && f.View() == OpenFiles.Initial()
      ensures Exec.Holds(m.pages, space[0].pgdir, USER_VPN, code) && space[0].size == PAGE_SIZE
      ensures forall o :: 0 <= o < ENTRIES ==> Isolation.Read(m.pages, space[0].pgdir, USER_VPN, o) == Some(code[o])
    {
      hide Processes.Inv, OpenFiles.Inv, Identity, Apart, Lookup, Owned, MapsBelow;
      var mem := new Memory(layout, first, pages);
      var kstack, pgdir := Exec.FirstProgram(mem, code);
      var procs := new ProcTable.Kernel();
      var files := new FileTable.Files();
      var spaces := new Space[NPROC](i => Space(0, 0, 0));
      spaces[0] := Space(kstack, pgdir, PAGE_SIZE);
      k, f, m, space := procs, files, mem, spaces;
      new;
      FirstOwned(space[..], m.pages, kstack, pgdir);
      assert m.plain == {kstack} && m.dirs == {pgdir} && f.pipes.Keys == {}
               && k.ptable[..] == Processes.Initial().tab && f.ofile[..] == OpenFiles.Initial().fds;
    }

    /** A process has the processor, and is in no other call. */
    predicate Calls()
      reads k, f
    {
      0 <= k.proc < NPROC && |k.child| == NPROC && k.child[k.proc] == -1 && |f.inside| == NPROC
          && f.inside[k.proc] == -1
    }

    /** The running process is in fork, with a child. */
    predicate Forks()
      reads k
    {
      0 <= k.proc < NPROC && |k.child| == NPROC && 0 <= k.child[k.proc] < NPROC
    }

    lemma RunningHasSpace()
      requires Valid() && 0 <= k.proc < NPROC
      ensures HasSpace(k.ptable[k.proc]) && Processes.Alive(k.ptable[k.proc])
      ensures space[k.proc].pgdir in m.dirs && USER_BASE + space[k.proc].size <= 0x1_0000_0000
      ensures m.MappedBelow(space[k.proc].pgdir, USER_BASE + space[k.proc].size)
      ensures m.AllMappedUpto(space[k.proc].pgdir, space[k.proc].size)
    {
      hide Processes.Family, Processes.NoForgottenZombie, Processes.Forking, Processes.Acyclic,
           FileTable.Files.Valid, Memory.Valid;
      assert k.ptable[k.proc].state == Processes.Running;
      Exec.UptoBelow(m, space[k.proc].pgdir, USER_BASE + space[k.proc].size);
    }

    // Steps of the process table alone

    method Yield()
      requires Valid() && 0 <= k.proc < |k.child|
      modifies k, k.ptable
      ensures Valid() && k.Did(Processes.Yield)
    {
      hide Processes.Inv, Processes.Next, Owned, FileTable.Files.Valid, Memory.Valid;
      ghost var s := k.View();
      ProcTable.InRange(s);
      k.Sched();
      ProcessStep(s, Processes.Yield, space[..], m.plain, m.dirs, m.pages, f.pipes.Keys, f.ofile[..]);
    }

    /** Also in the middle of a read or write. */
    method Sleep(id: nat)
      requires Valid() && 0 <= k.proc < |k.child| && k.child[k.proc] == -1
      modifies k, k.ptable
      ensures Valid() && k.Did(Processes.SleepOn(id))
    {
      hide Processes.Inv, Processes.Next, Owned, FileTable.Files.Valid, Memory.Valid;
      ghost var s := k.View();
      ProcTable.InRange(s);
      k.Sleep(id);
      ProcessStep(s, Processes.SleepOn(id), space[..], m.plain, m.dirs, m.pages, f.pipes.Keys, f.ofile[..]);
    }

    method Wakeup(id: nat)
      requires Valid()
      modifies k.ptable
      ensures Valid() && k.Did(Processes.WakeupOn(id))
    {
      hide Processes.Inv, Processes.Next, Owned, FileTable.Files.Valid, Memory.Valid;
      ghost var s := k.View();
      k.WakeupOther(id);
      ProcessStep(s, Processes.WakeupOn(id), space[..], m.plain, m.dirs, m.pages, f.pipes.Keys, f.ofile[..]);
    }

    method Kill(pid: nat) returns (i: int)
      requires Valid()
      modifies k.ptable
      ensures Valid()
      ensures i == -1 ==> k.View() == old(k.View()) && forall j :: 0 <= j < NPROC ==> k.ptable[j].pid != pid
      ensures i != -1 ==> i >= 0 && k.Did(Processes.Kill(pid, i))
    {
      hide Processes.Inv, Processes.Next, Owned, FileTable.Files.Valid, Memory.Valid;
      ghost var s := k.View();
      i := k.DoKill(pid);
      if i != -1 {
        ProcessStep(s, Processes.Kill(pid, i), space[..], m.plain, m.dirs, m.pages, f.pipes.Keys, f.ofile[..]);
      } else {
        assert k.ptable[..] == s.tab;
      }
    }

    method Dispatch()
      requires Valid() && k.proc == -1 && exists i :: 0 <= i < NPROC && k.ptable[i].state == Processes.Runable
      modifies k, k.ptable
      ensures Valid() && exists i: nat :: k.Did(Processes.Dispatch(i)) && k.proc == i
    {
      hide Processes.Inv, Processes.Next, Owned, FileTable.Files.Valid, Memory.Valid;
      ghost var s := k.View();
      k.Scheduler();
      ghost var i: nat :| k.Did(Processes.Dispatch(i)) && k.proc == i;
      ProcessStep(s, Processes.Dispatch(i), space[..], m.plain, m.dirs, m.pages, f.pipes.Keys, f.ofile[..]);
    }

    // fork, exec, exit and wait

    /** proc_alloc: a slot and a kernel stack, or nothing when all slots are in use. */
    method ForkAlloc() returns (c: int)
      requires Valid() && Calls() && m.top > 0
      modifies k, k.ptable, m`top, m`pages, m`dirs, m`plain, m`owner, space
      ensures Valid()
      ensures c == -1 ==> k.View() == old(k.View()) && m.plain == old(m.plain) && forall i :: 0 <= i < NPROC ==>
                k.ptable[i].state != Processes.Unused
      ensures c != -1 ==> 0 <= c < NPROC && k.Did(Processes.ForkAlloc(c))
      ensures c != -1 ==> space[c].kstack !in old(m.plain) && m.plain == old(m.plain) + {space[c].kstack}
      ensures forall i :: 0 <= i < NPROC ==> space[i].pgdir == old(space[i]).pgdir
      ensures m.dirs == old(m.dirs)
      ensures forall e :: e in m.dirs ==>
                SameMap(old(m.pages), m.pages, e) && Isolation.SameMemory(old(m.pages), m.pages, e)
    {
      hide Processes.Inv, FileTable.Files.Valid, Apart, SameMap, Stacks, AddressSpaces, Sizes, Isolation.SameMemory,
           Isolation.Leaves;
      ghost var s, spaces, pages, dirs, plain, owner := k.View(), space[..], m.pages, m.dirs, m.plain, m.owner;
      ProcTable.InRange(s);
      SameMapsSelf(m.pages, m.dirs);
      Isolation.MemorySelf(m.pages, m.dirs);
      Exec.LeavesNow(m);
      c := k.ProcAlloc();
      if c == -1 {
        assert k.ptable[..] == s.tab;
        return;
      }
      FreeSlot(s, c);
      StepKeepsAlive(s, Processes.ForkAlloc(c));
      var kstack := m.AllocPlain();
      Isolation.MemoryKept(pages, m.pages, dirs, m.dirs, owner, -1);
      space[c] := space[c].(kstack := kstack);
      SizesKept(s.tab, spaces, dirs, pages, m.pages);
      StackTaken(s.tab, spaces, plain, dirs, m.pages, f.pipes.Keys, c, k.ptable[c], kstack);
      assert space[..] == spaces[c := spaces[c].(kstack := kstack)];
      assert k.ptable[..] == s.tab[c := k.ptable[c]];
    }

    /** fork: uvm_copy, whose assertion holds, and child->parent = proc */
    method ForkCopy()
      requires Valid() && Forks() && k.ptable[k.child[k.proc]].parent == -1
      requires m.top >= 1 + Pages4k(space[k.proc].size) + TablesFor(Pages4k(space[k.proc].size))
      modifies k.ptable, m`top, m`pages, m`dirs, m`plain, m`owner, space
      ensures Valid() && k.Did(Processes.ForkAdopt) && m.plain == old(m.plain)
      ensures var c := k.child[k.proc];
              && 0 <= c < NPROC && space[c].size == space[k.proc].size && space[c].pgdir !in old(m.dirs)
              && m.dirs == old(m.dirs) + {space[c].pgdir}
              && m.Copied(space[k.proc].pgdir, space[c].pgdir, Pages4k(space[c].size))
              && m.Open(space[c].pgdir, Pages4k(space[c].size))
              && c != k.proc && forall i :: 0 <= i < NPROC && i != c ==> space[i] == old(space[i])
      ensures forall e :: e in old(m.dirs) ==>
                SameMap(old(m.pages), m.pages, e) && Isolation.SameMemory(old(m.pages), m.pages, e)
      ensures DataKept(old(m.pages), m.pages, old(m.owner)) && RolesKept(old(m.owner), m.owner)
    {
      hide Processes.Inv, FileTable.Files.Valid, Apart, SameMap, Stacks, AddressSpaces, Sizes, RolesKept, DataKept,
           Lookup, Isolation.SameMemory, Isolation.Leaves,
           Isolation.FramesKept;
      RunningHasSpace();
      ghost var s, spaces, pages, dirs, owner := k.View(), space[..], m.pages, m.dirs, m.owner;
      Exec.LeavesNow(m);
      var p, c := k.proc, k.child[k.proc];
      ProcTable.InRange(s);
      NewChild(s);
      var pgdir := m.UvmCopy(space[p].pgdir, space[p].size);
      Exec.FramesByData(pages, m.pages, owner);
      Isolation.MemoryKept(pages, m.pages, dirs, dirs, owner, -1);
      Exec.CopiedMapped(m, space[p].pgdir, pgdir, space[p].size);
      Exec.CopiedBelow(m, space[p].pgdir, pgdir, space[p].size);
      space[c] := Space(space[c].kstack, pgdir, space[p].size);
      k.ForkParent();
      StepKeepsAlive(s, Processes.ForkAdopt);
      SpaceChanged(s.tab, spaces, m.plain, f.pipes.Keys, dirs, m.dirs, c, k.ptable[c], pgdir, space[p].size);
      SizeChanged(s.tab, spaces, dirs, pages, m.pages, c, k.ptable[c], pgdir, space[p].size);
      assert space[..] == spaces[c := spaces[c].(pgdir := pgdir, size := space[p].size)];
      assert k.ptable[..] == s.tab[c := k.ptable[c]];
    }

    /** fork: the child gets the parent's descriptors and becomes RUNABLE. */
    method ForkDone() returns (pid: nat, ghost opens: seq<OpenFiles.Step>)
      requires Valid() && Forks() && k.ptable[k.child[k.proc]].parent == k.proc
      modifies k, k.ptable, f.ftable, f.ofile
      ensures Valid() && k.Did(Processes.ForkDone) && pid == old(k.ptable[k.child[k.proc]].pid)
      ensures f.inside == old(f.inside) && f.pipes == old(f.pipes) && OpenFiles.Leads(old(f.View()), opens, f.View())
      ensures AllAttach(opens)
      ensures forall g :: 0 <= g < OpenFiles.NOFILE ==> f.Fd(old(k.child[k.proc]), g) == old(f.Fd(k.proc, g))
      ensures forall j :: 0 <= j < OpenFiles.SLOTS && j / OpenFiles.NOFILE != old(k.child[k.proc]) ==>
                f.ofile[j] == old(f.ofile[j])
    {
      hide Processes.Inv, OpenFiles.Inv, OpenFiles.Leads, Memory.Valid, SameMap, Stacks, AddressSpaces, Sizes;
      ghost var s, fds := k.View(), f.ofile[..];
      var p, c := k.proc, k.child[k.proc];
      ProcTable.InRange(s);
      NewChild(s);
      forall g | 0 <= g < OpenFiles.NOFILE ensures f.Fd(c, g) == -1 {
        assert NoDescriptor(fds, c, g);
      }
      opens := f.ForkFiles(p, c);
      pid := k.ForkReady();
      StepKeepsOwners(s, Processes.ForkDone);
      OwnersKept(s.tab, k.ptable[..], space[..], m.plain, m.dirs, m.pages, f.pipes.Keys);
      StepKeepsAlive(s, Processes.ForkDone);
      ChildDescriptors(s.tab, k.ptable[..], fds, f.ofile[..], c);
    }

    /** exec */
    method DoExec(headers: Option<seq<Option<Exec.Segment>>>, argv: seq<seq<Minix.Byte>>, limit: nat)
        returns (ok: bool, sp: nat, ghost imageEnd: nat)
      requires Valid() && Calls() && USER_BASE <= limit && AlignUp(limit) + 2 * PAGE_SIZE < 0x1_0000_0000
      requires headers.Some? ==> forall i :: 0 <= i < |headers.value| && headers.value[i].Some? ==>
                 Exec.Linked(headers.value[i].value, limit)
      requires |argv| != ExecStack.MAX_ARGC + 1 && ExecStack.Fits(argv[..ExecStack.Copied(argv)])
      requires m.top > 0 && Exec.Room(m.top - 1, USER_BASE, AlignUp(limit) + 2 * PAGE_SIZE)
      modifies m`top, m`pages, m`dirs, m`plain, m`owner, m.pmmStack, space
      ensures Valid() && m.plain == old(m.plain)
      ensures ok <==> Exec.Succeeds(headers, argv)
      ensures forall i :: 0 <= i < NPROC && (i != k.proc || !ok) ==> space[i] == old(space[i])
      ensures !ok ==> m.dirs == old(m.dirs)
      ensures ok ==> var now := space[k.proc];
                && now.kstack == old(space[k.proc]).kstack && now.pgdir !in old(m.dirs)
                && m.dirs == old(m.dirs) - {old(space[k.proc]).pgdir} + {now.pgdir}
                && m.MappedBelow(now.pgdir, USER_BASE + now.size)
                && imageEnd == Exec.ImageEnd(headers.value, |headers.value|)
                && Exec.HasProgram(m.pages, now.pgdir, headers.value)
                && USER_BASE + now.size == AlignUp(imageEnd) + 2 * PAGE_SIZE && USER_BASE + now.size < 0x1_0000_0000
                && Exec.HoldsImage(m.pages, now.pgdir, headers.value, |headers.value|, imageEnd)
                && Exec.HasArguments(m.pages, now.pgdir, USER_BASE + now.size, sp, argv)
                && Exec.Guarded(m.pages, now.pgdir, USER_BASE + now.size)
      ensures forall e :: e in old(m.dirs) && e in m.dirs ==>
                SameMap(old(m.pages), m.pages, e) && Isolation.SameMemory(old(m.pages), m.pages, e)
    {
      hide Processes.Inv, FileTable.Files.Valid, Apart, SameMap, Stacks, AddressSpaces, Sizes, Lookup, MapsBelow;
      hide Isolation.SameMemory, Isolation.Leaves, Isolation.FramesKept, Exec.OthersKept, Exec.Room, Exec.Linked,
           Exec.AllLoad, Exec.HoldsImage, Exec.HasProgram, Exec.HasArguments, Exec.Guarded, Exec.ImageEnd,
           ExecStack.Fits,
           ExecStack.Copied;
      RunningHasSpace();
      ghost var s, spaces, pages, dirs, owner := k.View(), space[..], m.pages, m.dirs, m.owner;
      Exec.LeavesNow(m);
      var p := k.proc;
      var pgdir, size;
      ghost var born;
      ok, pgdir, size, sp, imageEnd, born := Exec.ExecMemory(m, space[p].pgdir, headers, argv, limit);
      Exec.FramesByOthers(pages, m.pages, owner, m.owner, born);
      Isolation.MemoryKept(pages, m.pages, dirs, m.dirs, owner, born);
      if ok {
        space[p] := Space(space[p].kstack, pgdir, size);
        SpaceChanged(s.tab, spaces, m.plain, f.pipes.Keys, dirs, m.dirs, p, s.tab[p], pgdir, size);
        SizeChanged(s.tab, spaces, dirs, pages, m.pages, p, s.tab[p], pgdir, size);
        assert space[..] == spaces[p := spaces[p].(pgdir := pgdir, size := size)];
        assert k.ptable[..] == s.tab[p := s.tab[p]];
      } else {
        SizesKept(s.tab, spaces, dirs, pages, m.pages);
        assert space[..] == spaces;
      }
    }

    /** wait's pass: with a zombie child its kernel stack and its address space are returned, each for
        the first time. */
    method Wait() returns (r: ProcTable.WaitResult)
      requires Valid() && Calls()
      modifies k, k.ptable, m`top, m`pages, m`dirs, m`plain, m`owner, m.pmmStack
      ensures Valid()
      ensures match r
              case Collected(i, pid) =>
                && k.Did(Processes.Collect(i)) && pid == old(k.View()).tab[i].pid
                && i < NPROC && space[i].kstack in old(m.plain) && m.plain == old(m.plain) - {space[i].kstack}
                && space[i].pgdir in old(m.dirs) && m.dirs == old(m.dirs) - {space[i].pgdir}
              case Nobody => k.Did(Processes.WaitFails) && m.plain == old(m.plain) && m.dirs == old(m.dirs)
              case Asleep => k.Did(Processes.WaitSleeps) && m.plain == old(m.plain) && m.dirs == old(m.dirs)
      ensures forall e :: e in m.dirs ==> Isolation.SameMemory(old(m.pages), m.pages, e)
    {
      hide Isolation.SameMemory, Processes.Inv, Processes.Next, FileTable.Files.Valid, Memory.Valid, SameMap, Owned;
      Isolation.MemorySelf(m.pages, m.dirs);
      ghost var s, pages := k.View(), m.pages;
      ProcTable.InRange(s);
      r := k.Wait();
      match r {
        case Collected(i, pid) =>
          ZombieSlot(s, i);
          ZombieHolds(s.tab, space[..], m.plain, m.dirs, m.pages, f.pipes.Keys, f.ofile[..], i);
          Exec.ReapMemory(m, space[i].kstack, space[i].pgdir);
          StepKeepsAlive(s, Processes.Collect(i));
          assert k.ptable[..] == s.tab[i := k.ptable[i]];
          ReapedOwned(s.tab, space[..], old(m.plain), old(m.dirs), pages, m.pages, f.pipes.Keys, f.ofile[..], i,
                      k.ptable[i]);
        case Nobody =>
          ProcessStep(s, Processes.WaitFails, space[..], m.plain, m.dirs, m.pages, f.pipes.Keys, f.ofile[..]);
        case Asleep =>
          ProcessStep(s, Processes.WaitSleeps, space[..], m.plain, m.dirs, m.pages, f.pipes.Keys, f.ofile[..]);
      }
    }

    // Open files and pipes

    /** pmm_alloc of a page for a pipe: no address space changes. */
    method TakePage() returns (page: nat)
      requires m.Valid() && m.top > 0
      modifies m`top, m`pages, m`dirs, m`plain, m`owner
      ensures m.Valid() && m.dirs == old(m.dirs) && page !in old(m.plain) && m.plain == old(m.plain) + {page}
      ensures forall e :: e in m.dirs ==>
                SameMap(old(m.pages), m.pages, e) && Isolation.SameMemory(old(m.pages), m.pages, e)
    {
      hide Isolation.SameMemory, Isolation.Leaves, Isolation.FramesKept, SameMap, Apart;
      ghost var pages, owner := m.pages, m.owner;
      Exec.LeavesNow(m);
      page := m.AllocPlain();
      Exec.FramesByData(pages, m.pages, owner);
      Isolation.MemoryKept(pages, m.pages, m.dirs, m.dirs, owner, -1);
    }

    /** pmm_free of a pipe's page: no address space changes. */
    method FreePage(page: nat)
      requires m.Valid() && page in m.plain
      modifies m`top, m`pages, m`plain, m`owner, m.pmmStack
      ensures m.Valid() && m.plain == old(m.plain) - {page}
      ensures forall e :: e in m.dirs ==>
                SameMap(old(m.pages), m.pages, e) && Isolation.SameMemory(old(m.pages), m.pages, e)
    {
      hide Isolation.SameMemory, Isolation.Leaves, SameMap, Apart;
      ghost var pages, owner := m.pages, m.owner;
      Exec.LeavesNow(m);
      m.FreePlain(page);
      Isolation.MemoryKept(pages, m.pages, m.dirs, m.dirs, owner, -1);
    }

    /** A descriptor of process p is closed: the last one of a pipe's end wakes the other side, the last
        one of the pipe returns its page, for the first time. */
    method CloseFd(p: nat, fd: int) returns (r: int, c: FileTable.Closed)
      requires Valid() && p < NPROC && f.inside[p] == -1
      modifies k.ptable, f`pipes, f.ftable, f.ofile, m`top, m`pages, m`plain, m`owner, m.pmmStack
      ensures Valid()
      ensures r == -1 <==> old(f.ArgFd(p, fd)) == -1
      ensures r == -1 ==> k.View() == old(k.View()) && f.View() == old(f.View())
      ensures r != -1 ==> r == 0 && 0 <= fd < OpenFiles.NOFILE && f.Did(OpenFiles.Close(OpenFiles.NOFILE * p + fd))
      ensures c == if r == -1 then FileTable.Nothing else FileTable.Closing(old(f.View()), old(f.ArgFd(p, fd)))
      ensures if c.LastOfEnd? then k.Did(Processes.WakeupOn(EndChannel(c.page, c.writeable)))
                else k.View() == old(k.View())
      ensures f.pipes.Keys <= old(f.pipes.Keys) && m.plain == old(m.plain) - (old(f.pipes.Keys) - f.pipes.Keys)
      ensures forall e :: e in m.dirs ==> Isolation.SameMemory(old(m.pages), m.pages, e)
      ensures 0 <= fd < OpenFiles.NOFILE ==> f.Fd(p, fd) == -1
      ensures forall i :: 0 <= i < OpenFiles.SLOTS && i != OpenFiles.NOFILE * p + fd ==> f.ofile[i] == old(f.ofile[i])
    {
      hide Processes.Inv, Processes.Next, OpenFiles.Inv, OpenFiles.Next, Memory.Valid, SameMap, Stacks,
           AddressSpaces, Sizes, Descriptors, MapsBelow,
           Isolation.SameMemory, Isolation.Leaves, Isolation.FramesKept;
      ghost var fds, pipes := f.ofile[..], f.pipes.Keys;
      Isolation.MemorySelf(m.pages, m.dirs);
      r, c := f.SysClose(p, fd);
      FewerDescriptors(k.ptable[..], fds, f.ofile[..]);
      match c {
        case LastOfEnd(page, writeable, freed) =>
          if freed {
            PipeIsPlain(k.ptable[..], space[..], m.plain, pipes, page);
            PipeGone(k.ptable[..], space[..], m.plain, pipes, page);
            ghost var pages := m.pages;
            FreePage(page);
            SizesKept(k.ptable[..], space[..], m.dirs, pages, m.pages);
          }
          Wakeup(EndChannel(page, writeable));
        case LastOfInode(ip) =>
        case Nothing =>
      }
      assert f.pipes.Keys <= pipes;
    }

    method Close(fd: int) returns (r: int, c: FileTable.Closed)
      requires Valid() && Calls()
      modifies k.ptable, f`pipes, f.ftable, f.ofile, m`top, m`pages, m`plain, m`owner, m.pmmStack
      ensures Valid()
      ensures r == -1 <==> old(f.ArgFd(k.proc, fd)) == -1
      ensures r == -1 ==> k.View() == old(k.View()) && f.View() == old(f.View())
      ensures r != -1 ==> r == 0 && 0 <= fd < OpenFiles.NOFILE && f.Did(OpenFiles.Close(OpenFiles.NOFILE * k.proc + fd))
      ensures c == if r == -1 then FileTable.Nothing else FileTable.Closing(old(f.View()), old(f.ArgFd(k.proc, fd)))
      ensures if c.LastOfEnd? then k.Did(Processes.WakeupOn(EndChannel(c.page, c.writeable)))
                else k.View() == old(k.View())
      ensures f.pipes.Keys <= old(f.pipes.Keys) && m.plain == old(m.plain) - (old(f.pipes.Keys) - f.pipes.Keys)
      ensures forall e :: e in m.dirs ==> Isolation.SameMemory(old(m.pages), m.pages, e)
    {
      hide Machine.Valid, Isolation.SameMemory, FileTable.Closing, Processes.Inv, Processes.Enabled, Processes.Next,
           OpenFiles.Inv, OpenFiles.Enabled, OpenFiles.Next;
      r, c := CloseFd(k.proc, fd);
    }

    /** exit: every descriptor is closed, with what that brings, and the process becomes a zombie, which
        keeps its kernel stack and its address space. */
    method DoExit() returns (ghost steps: seq<Processes.Step>, ghost opens: seq<OpenFiles.Step>)
      requires Valid() && Calls() && k.proc != Processes.INIT
      modifies k, k.ptable, f`pipes, f.ftable, f.ofile, m`top, m`pages, m`plain, m`owner, m.pmmStack
      ensures Valid() && k.proc == -1 && k.ptable[old(k.proc)].state == Processes.Zombie
      ensures Processes.Leads(old(k.View()), steps + [Processes.Exit], k.View())
      ensures forall i :: 0 <= i < |steps| ==> steps[i].WakeupOn?
      ensures OpenFiles.Leads(old(f.View()), opens, f.View()) && forall i :: 0 <= i < |opens| ==> opens[i].Close?
      ensures LeftBehind(old(k.View()), old(f.View()), k.View(), f.View())
      ensures forall g :: 0 <= g < OpenFiles.NOFILE ==> f.Fd(old(k.proc), g) == -1
      ensures forall j :: 0 <= j < OpenFiles.SLOTS && j / OpenFiles.NOFILE != old(k.proc) ==>
                f.ofile[j] == old(f.ofile[j])
      ensures m.plain == old(m.plain) - (old(f.pipes.Keys) - f.pipes.Keys)
      ensures forall e :: e in m.dirs ==> Isolation.SameMemory(old(m.pages), m.pages, e)
    {
      hide Isolation.SameMemory, Processes.Inv, Processes.Next, Processes.Leads, OpenFiles.Inv, OpenFiles.Leads,
           Memory.Valid, Owned, CalledRun, LeftBehind;
      var p := k.proc;
      steps, opens := CloseAll(p);
      ghost var s := k.View();
      forall g | 0 <= g < OpenFiles.NOFILE ensures NoDescriptor(f.ofile[..], p, g) {
        assert f.Fd(p, g) == -1;
      }
      k.DoExit();
      LeftIs(old(k.View()), old(f.View()), s, f.View(), k.View());
      ghost var all := Continued(old(k.View()), steps, s, Processes.Exit, k.View());
      ProcessStep(s, Processes.Exit, space[..], m.plain, m.dirs, m.pages, f.pipes.Keys, f.ofile[..]);
      ExitState(s);
    }

    /** exit's loop over the descriptors */
    method CloseAll(p: nat) returns (ghost steps: seq<Processes.Step>, ghost opens: seq<OpenFiles.Step>)
      requires Valid() && p < NPROC && f.inside[p] == -1
      modifies k.ptable, f`pipes, f.ftable, f.ofile, m`top, m`pages, m`plain, m`owner, m.pmmStack
      ensures Valid()
      ensures Processes.Leads(old(k.View()), steps, k.View()) && forall i :: 0 <= i < |steps| ==> steps[i].WakeupOn?
      ensures OpenFiles.Leads(old(f.View()), opens, f.View()) && forall i :: 0 <= i < |opens| ==> opens[i].Close?
      ensures CalledRun(old(k.View()), old(f.View()), k.View(), f.View())
      ensures forall g :: 0 <= g < OpenFiles.NOFILE ==> f.Fd(p, g) == -1
      ensures forall j :: 0 <= j < OpenFiles.SLOTS && j / OpenFiles.NOFILE != p ==> f.ofile[j] == old(f.ofile[j])
      ensures f.pipes.Keys <= old(f.pipes.Keys) && m.plain == old(m.plain) - (old(f.pipes.Keys) - f.pipes.Keys)
      ensures forall e :: e in m.dirs ==> Isolation.SameMemory(old(m.pages), m.pages, e)
    {
      hide Isolation.SameMemory, Processes.Leads, OpenFiles.Leads, Machine.Valid, CalledRun;
      Isolation.MemorySelf(m.pages, m.dirs);
      var fd := 0;
      steps, opens := [], [];
      Shape();
      CalledNobody(k.View(), f.View());
      Processes.LeadsNowhere(k.View());
      OpenFiles.LeadsNowhere(f.View());
      while fd < OpenFiles.NOFILE
        invariant fd <= OpenFiles.NOFILE && Valid() && f.inside == old(f.inside) && f.ofile.Length == OpenFiles.SLOTS
        invariant k.ptable.Length == NPROC
        invariant Processes.Leads(old(k.View()), steps, k.View()) && forall i :: 0 <= i < |steps| ==> steps[i].WakeupOn?
        invariant OpenFiles.Leads(old(f.View()), opens, f.View()) && forall i :: 0 <= i < |opens| ==> opens[i].Close?
        invariant CalledRun(old(k.View()), old(f.View()), k.View(), f.View())
        invariant forall g :: 0 <= g < fd ==> f.Fd(p, g) == -1
        invariant forall j :: 0 <= j < OpenFiles.SLOTS && j / OpenFiles.NOFILE != p ==> f.ofile[j] == old(f.ofile[j])
        invariant f.pipes.Keys <= old(f.pipes.Keys) && m.plain == old(m.plain) - (old(f.pipes.Keys) - f.pipes.Keys)
        invariant forall e :: e in m.dirs ==> Isolation.SameMemory(old(m.pages), m.pages, e)
      {
        ghost var pages := m.pages;
        steps, opens := CloseNext(p, fd, old(k.View()), old(f.View()), steps, opens);
        Isolation.MemoryTwice(old(m.pages), pages, m.pages, m.dirs);
        fd := fd + 1;
      }
    }

    method CloseNext(p: nat, fd: nat, ghost s: Processes.System, ghost t: OpenFiles.System,
                     ghost steps0: seq<Processes.Step>, ghost opens0: seq<OpenFiles.Step>)
        returns (ghost steps: seq<Processes.Step>, ghost opens: seq<OpenFiles.Step>)
      requires Valid() && p < NPROC && fd < OpenFiles.NOFILE && f.inside[p] == -1
      requires Processes.Leads(s, steps0, k.View()) && OpenFiles.Leads(t, opens0, f.View())
      requires CalledRun(s, t, k.View(), f.View())
      modifies k.ptable, f`pipes, f.ftable, f.ofile, m`top, m`pages, m`plain, m`owner, m.pmmStack
      ensures Valid()
      ensures Processes.Leads(s, steps, k.View())
      ensures steps == steps0 || (steps0 <= steps && |steps| == |steps0| + 1 && steps[|steps0|].WakeupOn?)
      ensures OpenFiles.Leads(t, opens, f.View())
      ensures opens == opens0 || (opens0 <= opens && |opens| == |opens0| + 1 && opens[|opens0|].Close?)
      ensures CalledRun(s, t, k.View(), f.View())
      ensures forall g :: 0 <= g < OpenFiles.NOFILE ==> f.Fd(p, g) == if g == fd then -1 else old(f.Fd(p, g))
      ensures forall j :: 0 <= j < OpenFiles.SLOTS && j / OpenFiles.NOFILE != p ==> f.ofile[j] == old(f.ofile[j])
      ensures f.pipes.Keys <= old(f.pipes.Keys) && m.plain == old(m.plain) - (old(f.pipes.Keys) - f.pipes.Keys)
      ensures forall e :: e in m.dirs ==> Isolation.SameMemory(old(m.pages), m.pages, e)
    {
      hide Isolation.SameMemory, Processes.Inv, Processes.Next, Processes.Enabled, Processes.Leads, OpenFiles.Inv,
           OpenFiles.Next, OpenFiles.Enabled,
           OpenFiles.Leads, Machine.Valid, CalledRun;
      Shape();
      steps, opens := steps0, opens0;
      ghost var procs, files := k.View(), f.View();
      FilesInv();
      var r, c := CloseFd(p, fd);
      if r != -1 {
        CalledOn(s, t, procs, files, OpenFiles.NOFILE * p + fd, k.View());
        opens := FileTable.Continued(t, opens, old(f.View()), OpenFiles.Close(OpenFiles.NOFILE * p + fd), f.View());
      }
      if c.LastOfEnd? {
        steps := Continued(s, steps, old(k.View()), Processes.WakeupOn(EndChannel(c.page, c.writeable)), k.View());
      }
      assert (OpenFiles.NOFILE * p + fd) / OpenFiles.NOFILE == p;
      forall g | 0 <= g < OpenFiles.NOFILE && g != fd ensures f.Fd(p, g) == old(f.Fd(p, g)) {
        assert OpenFiles.NOFILE * p + g != OpenFiles.NOFILE * p + fd;
      }
    }

    lemma FilesInv()
      requires Valid()
      ensures OpenFiles.Inv(f.View())
    {
    }

    predicate TwoFiles()
      reads f, f.ftable
    {
      f.ftable.Length == OpenFiles.NFILE && exists a, b ::
          0 <= a < b < OpenFiles.NFILE && f.ftable[a].ref == 0 && f.ftable[b].ref == 0
    }

    /** sys_pipe: a page nobody used, unless there are no two descriptors; then it is returned. */
    method SysPipe() returns (fd0: int, fd1: int, page: nat)
      requires Valid() && Calls() && TwoFiles() && m.top > 0
      modifies f`pipes, f.ftable, f.ofile, m`top, m`pages, m`dirs, m`plain, m`owner, m.pmmStack
      ensures Valid() && m.dirs == old(m.dirs)
      ensures forall e :: e in m.dirs ==> Isolation.SameMemory(old(m.pages), m.pages, e)
      ensures fd1 == -1 ==> f.View() == old(f.View()) && m.plain == old(m.plain)
      ensures fd1 == -1 ==> forall a, b :: 0 <= a < b < OpenFiles.NOFILE ==>
                old(f.Fd(k.proc, a)) != -1 || old(f.Fd(k.proc, b)) != -1
      ensures fd1 != -1 ==> page !in old(m.plain) && m.plain == old(m.plain) + {page}
      ensures fd1 != -1 ==> 0 <= fd0 < fd1 < OpenFiles.NOFILE && f.Fd(k.proc, fd0) >= 0 && f.Fd(k.proc, fd1) >= 0
      ensures fd1 != -1 ==>
                f.Did(OpenFiles.MakePipe(OpenFiles.NOFILE * k.proc + fd0, OpenFiles.NOFILE * k.proc + fd1,
                                         f.Fd(k.proc, fd0), f.Fd(k.proc, fd1), page))
      ensures fd1 != -1 ==> forall g :: 0 <= g < fd1 && g != fd0 ==> old(f.Fd(k.proc, g)) != -1
    {
      hide Processes.Inv, OpenFiles.Inv, OpenFiles.Next, OpenFiles.Enabled, Memory.Valid, SameMap, Stacks,
           AddressSpaces, Sizes, Descriptors, MapsBelow, DataKept, RolesKept,
           Isolation.SameMemory;
      RunningHasSpace();
      ghost var fds, pages, plain := f.ofile[..], m.pages, m.plain;
      PipesPlain(k.ptable[..], space[..], plain, f.pipes.Keys);
      page := TakePage();
      SizesKept(k.ptable[..], space[..], m.dirs, pages, m.pages);
      pages := m.pages;
      PipeTaken(k.ptable[..], space[..], plain, f.pipes.Keys, page);
      label Taken:
      fd0, fd1 := f.SysPipe(k.proc, page);
      if fd1 == -1 {
        assert f.ofile[..] == fds;
        forall a, b | 0 <= a < b < OpenFiles.NOFILE ensures old(f.Fd(k.proc, a)) != -1 || old(f.Fd(k.proc, b)) != -1 {
          assert old@Taken(f.Fd(k.proc, a)) != -1 || old@Taken(f.Fd(k.proc, b)) != -1;
        }
        FreePage(page);
        SizesKept(k.ptable[..], space[..], m.dirs, pages, m.pages);
        Isolation.MemoryTwice(old(m.pages), pages, m.pages, m.dirs);
        assert m.plain == plain;
      } else {
        forall g | 0 <= g < fd1 && g != fd0 ensures old(f.Fd(k.proc, g)) != -1 {
          assert old@Taken(f.Fd(k.proc, g)) != -1;
        }
        assert f.pipes.Keys == old(f.pipes.Keys) + {page};
        PipeMade(k.ptable[..], fds, f.ofile[..], k.proc, fd0, fd1, f.ofile[OpenFiles.NOFILE * k.proc + fd0],
                 f.ofile[OpenFiles.NOFILE * k.proc + fd1]);
      }
    }

    method OpenInode(ip: nat) returns (fd: int)
      requires Valid() && Calls()
      modifies f.ftable, f.ofile
      ensures Valid()
      ensures fd == -1 ==> f.View() == old(f.View())
      ensures fd == -1 ==> (forall g :: 0 <= g < OpenFiles.NFILE ==> f.ftable[g].ref != 0) || forall g ::
                0 <= g < OpenFiles.NOFILE ==> f.Fd(k.proc, g) != -1
      ensures fd != -1 ==>
                && 0 <= fd < OpenFiles.NOFILE && f.Fd(k.proc, fd) >= 0
                && f.Did(OpenFiles.Open(OpenFiles.NOFILE * k.proc + fd, f.Fd(k.proc, fd), ip))
      ensures fd != -1 ==> forall g :: 0 <= g < fd ==> old(f.Fd(k.proc, g)) != -1
    {
      hide Processes.Inv, OpenFiles.Inv, Memory.Valid, Stacks, AddressSpaces, Sizes, Descriptors;
      RunningHasSpace();
      ghost var fds := f.ofile[..];
      fd := f.OpenInode(k.proc, ip);
      if fd != -1 {
        LiveDescriptors(k.ptable[..], fds, f.ofile[..], k.proc);
      } else {
        assert f.ofile[..] == fds;
      }
    }

    method Dup(fd: int) returns (r: int)
      requires Valid() && Calls()
      modifies f.ftable, f.ofile
      ensures Valid()
      ensures r == -1 ==> f.View() == old(f.View())
      ensures r == -1 ==> f.ArgFd(k.proc, fd) == -1 || forall g :: 0 <= g < OpenFiles.NOFILE ==> f.Fd(k.proc, g) != -1
      ensures r != -1 ==>
                && 0 <= r < OpenFiles.NOFILE && old(f.ArgFd(k.proc, fd)) >= 0
                && f.Did(OpenFiles.Attach(OpenFiles.NOFILE * k.proc + r, old(f.ArgFd(k.proc, fd))))
      ensures r != -1 ==> forall g :: 0 <= g < r ==> old(f.Fd(k.proc, g)) != -1
    {
      hide Processes.Inv, OpenFiles.Inv, Memory.Valid, Stacks, AddressSpaces, Sizes, Descriptors;
      RunningHasSpace();
      ghost var fds := f.ofile[..];
      r := f.SysDup(k.proc, fd);
      if r != -1 {
        LiveDescriptors(k.ptable[..], fds, f.ofile[..], k.proc);
      } else {
        assert f.ofile[..] == fds;
      }
    }

    /** The running process goes into the read or write of a file, where it may sleep, and comes back. */
    method Enter(fd: nat)
      requires Valid() && Calls() && fd < OpenFiles.NOFILE && f.ofile[OpenFiles.NOFILE * k.proc + fd] != -1
      modifies f`inside
      ensures Valid() && f.Did(OpenFiles.Enter(k.proc, OpenFiles.NOFILE * k.proc + fd))
    {
      hide Processes.Inv, OpenFiles.Inv, Memory.Valid, Owned;
      f.Enter(k.proc, fd);
    }

    method Leave()
      requires Valid() && 0 <= k.proc < NPROC
      modifies f`inside
      ensures Valid() && f.Did(OpenFiles.Leave(k.proc))
    {
      hide Processes.Inv, OpenFiles.Inv, Memory.Valid, Owned;
      f.Leave(k.proc);
    }

    /** The running program stores a word; where it cannot, the processor faults and nothing is stored. */
    method Store(vpn: nat, off: nat, w: Word)
      requires Valid() && 0 <= k.proc < NPROC && USER_VPN <= vpn < MAX_VPN && off < ENTRIES
      modifies m`pages
      ensures Valid() && m.pages == Isolation.Write(old(m.pages), Isolation.Store(space[k.proc].pgdir, vpn, off, w))
    {
      hide Processes.Inv, FileTable.Files.Valid, Apart, SameMap, Stacks, Sizes, Descriptors, MapsBelow, Lookup, UserCan;
      RunningHasSpace();
      ghost var pages := m.pages;
      var mapped, pa := m.VmmGetMapping(space[k.proc].pgdir, vpn * PAGE_SIZE);
      assert vpn * PAGE_SIZE / PAGE_SIZE == vpn;
      if mapped && UserCan(m.pages, space[k.proc].pgdir, vpn) {
        LeafFrame(m.k, m.pages, m.pmmStack[..m.top], m.dirs, m.plain, m.managed, m.owner, space[k.proc].pgdir, vpn);
        m.WritePage(pa, m.pages[pa][off := w]);
        SizesKept(k.ptable[..], space[..], m.dirs, pages, m.pages);
      }
    }

    // What processes see

    ghost function Mems(): Images
      reads this, k, k.ptable, m, space
    {
      MemsOf(k.ptable[..], space[..], m.pages)
    }

    ghost function Now(): Moment
      requires k.ptable.Length == NPROC
      reads this, k, k.ptable, f, f.ftable, f.ofile, m, space
    {
      Moment(k.View(), f.View(), Mems())
    }

    lemma SpacesNow()
      requires Valid()
      ensures Processes.Inv(k.View()) && k.View().tab == k.ptable[..] && AddressSpaces(k.ptable[..], space[..], m.dirs)
    {
      hide Processes.Inv, FileTable.Files.Valid, Memory.Valid, Stacks, AddressSpaces, Sizes, Descriptors;
    }

    lemma RunningSees()
      requires Valid() && 0 <= k.proc < NPROC
      ensures k.proc in Mems() && Mems()[k.proc] == ImageOf(m.pages, space[k.proc].pgdir)
      ensures space[k.proc].pgdir in m.dirs
    {
      hide ImageOf, Valid, MapsBelow;
      RunningHasSpace();
      Shape();
    }

    /** Whether the command made this step of the process table and of the memory of processes. */
    twostate predicate Made(c: Command)
      requires k.ptable.Length == NPROC
      reads this, k, k.ptable, f, f.ftable, f.ofile, m, space
    {
      ProcStep(old(k.View()), old(f.View()), c, k.View()) && ImageStep(old(k.View()), old(Mems()), c, Mems())
    }

    method SeeForkAlloc()
      requires Valid() && Calls() && m.top > 0
      modifies k, k.ptable, m`top, m`pages, m`dirs, m`plain, m`owner, space
      ensures Valid() && Made(Command.ForkAlloc)
    {
      hide Valid, MemsOf, AddressSpaces, Isolation.SameMemory, SameMap, Processes.Inv, Processes.Enabled,
           Processes.Next;
      SpacesNow();
      Shape();
      ghost var s, spaces, pages, dirs := k.View(), space[..], m.pages, m.dirs;
      var c := ForkAlloc();
      Shape();
      SpacesNow();
      if c != -1 {
        SpaceAfterAlloc(s, c);
        assert MachineSpec.Did(s, Processes.ForkAlloc(c), k.View());
      }
      MemsBut(s.tab, k.View().tab, spaces, space[..], pages, m.pages, dirs, m.dirs, -1);
      SameImages(MemsOf(s.tab, spaces, pages), Mems());
    }

    lemma ChildSees(c: nat)
      requires Valid() && 0 <= k.proc < NPROC && c < NPROC && HasSpace(k.ptable[c])
      requires space[c].size == space[k.proc].size
      requires m.Copied(space[k.proc].pgdir, space[c].pgdir, Pages4k(space[c].size))
      requires m.Open(space[c].pgdir, Pages4k(space[c].size))
      ensures k.proc in Mems() && c in Mems() && Mems()[c] == Opened(Mems()[k.proc])
    {
      hide ImageOf, Opened, Valid, MapsBelow, Memory.Copied, Memory.Open;
      RunningHasSpace();
      RunningSees();
      Shape();
      ImageCopied(m, space[k.proc].pgdir, space[c].pgdir, space[c].size);
      MemAt(k.ptable[..], space[..], m.pages, c);
    }

    method SeeForkCopy()
      requires Valid() && Forks() && k.ptable[k.child[k.proc]].parent == -1
      requires m.top >= 1 + Pages4k(space[k.proc].size) + TablesFor(Pages4k(space[k.proc].size))
      modifies k.ptable, m`top, m`pages, m`dirs, m`plain, m`owner, space
      ensures Valid() && Made(Command.ForkCopy)
    {
      hide Valid, MemsOf, AddressSpaces, Isolation.SameMemory, SameMap, Processes.Inv, Processes.Enabled,
           Processes.Next, ImageOf, Opened, IsProgram;
      hide DataKept, RolesKept, Memory.Copied, Memory.Open;
      SpacesNow();
      Shape();
      RunningSees();
      ghost var s, spaces, pages, dirs := k.View(), space[..], m.pages, m.dirs;
      var p, c := k.proc, k.child[k.proc];
      ForkCopy();
      SpacesNow();
      Shape();
      SpaceAfterAdopt(s);
      MemsBut(s.tab, k.View().tab, spaces, space[..], pages, m.pages, dirs, m.dirs, c);
      ChildSees(c);
      MemAt(s.tab, spaces, pages, c);
      OneMoreImage(MemsOf(s.tab, spaces, pages), Mems(), c, Opened(MemsOf(s.tab, spaces, pages)[p]));
    }

    method SeeWait()
      requires Valid() && Calls()
      modifies k, k.ptable, m`top, m`pages, m`dirs, m`plain, m`owner, m.pmmStack
      ensures Valid() && Made(Command.Wait)
    {
      hide Valid, MemsOf, AddressSpaces, Isolation.SameMemory, Processes.Inv, Processes.Enabled, Processes.Next,
           ProcStep, ImageStep;
      SpacesNow();
      Shape();
      ghost var s, spaces, pages, dirs := k.View(), space[..], m.pages, m.dirs;
      var r := Wait();
      SpacesNow();
      Shape();
      match r {
        case Collected(i, pid) =>
          ZombieSlot(s, i);
          OnlyDirectory(s.tab, spaces, dirs, i);
          MemsBut(s.tab, k.View().tab, spaces, spaces, pages, m.pages, dirs, m.dirs, i);
          MemAt(k.ptable[..], spaces, m.pages, i);
          OneLessImage(MemsOf(s.tab, spaces, pages), Mems(), i);
          CollectIs(s, f.View(), i, MemsOf(s.tab, spaces, pages), k.View());
        case Nobody =>
          Processes.LeadsOne(s, Processes.WaitFails);
          MemsKept(s, k.View(), [Processes.WaitFails], spaces, pages, m.pages, dirs);
          NoCollectIs(s, f.View(), MemsOf(s.tab, spaces, pages), k.View());
        case Asleep =>
          Processes.LeadsOne(s, Processes.WaitSleeps);
          MemsKept(s, k.View(), [Processes.WaitSleeps], spaces, pages, m.pages, dirs);
          NoCollectIs(s, f.View(), MemsOf(s.tab, spaces, pages), k.View());
      }
    }

    lemma ExecSees(headers: seq<Option<Exec.Segment>>, argv: seq<seq<Minix.Byte>>, sp: nat)
      requires Valid() && 0 <= k.proc < NPROC
      requires var top, end := USER_BASE + space[k.proc].size, Exec.ImageEnd(headers, |headers|);
               && top == AlignUp(end) + 2 * PAGE_SIZE && top < 0x1_0000_0000
               && Exec.HoldsImage(m.pages, space[k.proc].pgdir, headers, |headers|, end)
               && Exec.HasArguments(m.pages, space[k.proc].pgdir, top, sp, argv)
               && Exec.Guarded(m.pages, space[k.proc].pgdir, top)
      ensures k.proc in Mems() && IsProgram(Mems()[k.proc], headers, argv)
    {
      hide ImageOf, IsProgram, MapsBelow, Exec.HoldsImage, Exec.HasProgram, Exec.HasArguments, Exec.Guarded,
           Isolation.Leaves,
           Processes.Inv, OpenFiles.Inv, Apart;
      RunningHasSpace();
      RunningSees();
      Exec.LeavesNow(m);
      ProgramSeen(m.pages, m.dirs, m.owner, space[k.proc].pgdir, headers, argv, sp);
    }

    method SeeExec(headers: Option<seq<Option<Exec.Segment>>>, argv: seq<seq<Minix.Byte>>, limit: nat)
      requires Valid() && Calls() && USER_BASE <= limit && AlignUp(limit) + 2 * PAGE_SIZE < 0x1_0000_0000
      requires headers.Some? ==> forall i :: 0 <= i < |headers.value| && headers.value[i].Some? ==>
                 Exec.Linked(headers.value[i].value, limit)
      requires |argv| != ExecStack.MAX_ARGC + 1 && ExecStack.Fits(argv[..ExecStack.Copied(argv)])
      requires m.top > 0 && Exec.Room(m.top - 1, USER_BASE, AlignUp(limit) + 2 * PAGE_SIZE)
      modifies m`top, m`pages, m`dirs, m`plain, m`owner, m.pmmStack, space
      ensures Valid() && Made(Command.Exec(headers, argv, limit))
    {
      hide Valid, MemsOf, AddressSpaces, Isolation.SameMemory, SameMap, Processes.Inv, ImageOf, IsProgram,
           Exec.HoldsImage, Exec.HasProgram, Exec.HasArguments, Exec.Guarded;
      hide Exec.Linked, Exec.Room, ExecStack.Fits, ExecStack.Copied, Exec.AllLoad, MapsBelow, Exec.ImageEnd;
      SpacesNow();
      Shape();
      RunningSees();
      ghost var s, spaces, pages, dirs, p := k.View(), space[..], m.pages, m.dirs, k.proc;
      var ok, sp;
      ghost var end;
      ok, sp, end := DoExec(headers, argv, limit);
      SpacesNow();
      Shape();
      MemAt(s.tab, spaces, pages, p);
      OnlyDirectory(s.tab, spaces, dirs, p);
      MemsBut(s.tab, s.tab, spaces, space[..], pages, m.pages, dirs, m.dirs, if ok then p else -1);
      if ok {
        ExecSees(headers.value, argv, sp);
        OneMoreImage(MemsOf(s.tab, spaces, pages), Mems(), p, Mems()[p]);
      } else {
        SameImages(MemsOf(s.tab, spaces, pages), Mems());
      }
    }

    lemma StoreSeen(d: nat, vpn: nat, off: nat, w: Word)
      requires Valid() && d in m.dirs && USER_VPN <= vpn < MAX_VPN && off < ENTRIES
      ensures var pages, a := Isolation.Write(m.pages, Isolation.Store(d, vpn, off, w)), Addr(vpn, off);
              && (forall e :: e in m.dirs && e != d ==> Isolation.SameMemory(m.pages, pages, e))
              && ImageOf(pages, d) == if Readable(ImageOf(m.pages, d), a) then Put(ImageOf(m.pages, d), a, w)
                  else ImageOf(m.pages, d)
    {
      hide FileTable.Files.Valid, ProcTable.Kernel.Valid, Owned, Apart, Lookup, Isolation.Write;
      Isolation.WriteStep(m.k, m.pages, m.pmmStack[..m.top], m.dirs, m.plain, m.managed, m.owner,
                          Isolation.Store(d, vpn, off, w));
      hide Isolation.At;
    }

    method SeeStore(vpn: nat, off: nat, w: Word)
      requires Valid() && 0 <= k.proc < NPROC && USER_VPN <= vpn < MAX_VPN && off < ENTRIES
      modifies m`pages
      ensures Valid() && Made(Command.Store(vpn, off, w))
    {
      hide Valid, MemsOf, AddressSpaces, Processes.Inv, ImageOf, Put, Readable, IsProgram;
      SpacesNow();
      Shape();
      RunningSees();
      ghost var s, spaces, pages, p := k.View(), space[..], m.pages, k.proc;
      ghost var d := space[p].pgdir;
      StoreSeen(d, vpn, off, w);
      Store(vpn, off, w);
      RunningSees();
      MemAt(s.tab, spaces, pages, p);
      OnlyDirectory(s.tab, spaces, m.dirs, p);
      MemsBut(s.tab, s.tab, spaces, spaces, pages, m.pages, m.dirs, m.dirs - {d}, p);
      OneMoreImage(MemsOf(s.tab, spaces, pages), Mems(), p, Mems()[p]);
    }

    // Every run

    /** What the kernel demands of its callers: a call comes from the running process, memory is left for
        what it takes, programs are linked for user memory, init does not exit. */
    predicate Allowed(c: Command)
      requires k.ptable.Length == NPROC && space.Length == NPROC && f.ofile.Length == OpenFiles.SLOTS
      reads this, k, k.ptable, f, f.ftable, f.ofile, m, space
    {
      match c
      case Dispatch => k.proc == -1 && exists i :: 0 <= i < NPROC && k.ptable[i].state == Processes.Runable
      case Yield => 0 <= k.proc < |k.child|
      case Sleep(_) => 0 <= k.proc < |k.child| && k.child[k.proc] == -1
      case Wakeup(_) => true
      case Kill(_) => true
      case ForkAlloc => Calls() && m.top > 0
      case ForkCopy =>
        && Forks() && k.ptable[k.child[k.proc]].parent == -1
        && m.top >= 1 + Pages4k(space[k.proc].size) + TablesFor(Pages4k(space[k.proc].size))
      case ForkDone => Forks() && k.ptable[k.child[k.proc]].parent == k.proc
      case Exec(headers, argv, limit) =>
        && Calls() && USER_BASE <= limit && AlignUp(limit) + 2 * PAGE_SIZE < 0x1_0000_0000
        && (headers.Some? ==> forall i :: 0 <= i < |headers.value| && headers.value[i].Some? ==>
              Exec.Linked(headers.value[i].value, limit))
        && |argv| != ExecStack.MAX_ARGC + 1 && ExecStack.Fits(argv[..ExecStack.Copied(argv)])
        && m.top > 0 && Exec.Room(m.top - 1, USER_BASE, AlignUp(limit) + 2 * PAGE_SIZE)
      case Exit => Calls() && k.proc != Processes.INIT
      case Wait => Calls()
      case Open(_) => Calls()
      case Dup(_) => Calls()
      case Close(_) => Calls()
      case Pipe => Calls() && TwoFiles() && m.top > 0
      case Enter(fd) => Calls() && fd < OpenFiles.NOFILE && f.ofile[OpenFiles.NOFILE * k.proc + fd] != -1
      case Leave => 0 <= k.proc < NPROC
      case Store(vpn, off, _) => 0 <= k.proc < NPROC && USER_VPN <= vpn < MAX_VPN && off < ENTRIES
    }

    predicate OnFiles(c: Command) { c.Open? || c.Dup? || c.Enter? || c.Leave? }
    predicate OnTable(c: Command) { c.Dispatch? || c.Yield? || c.Sleep? || c.Wakeup? || c.Kill? }
    predicate OnMemory(c: Command) { c.ForkAlloc? || c.ForkCopy? || c.Wait? || c.Exec? || c.Store? }

    lemma Shape()
      requires Valid()
      ensures k.ptable.Length == NPROC && f.ofile.Length == OpenFiles.SLOTS && f.ftable.Length == OpenFiles.NFILE
      ensures space.Length == NPROC
      ensures f.ofile as object != m.pmmStack
    {
    }

    /** The descriptors as the open-file table has them. */
    lemma FdSeen(p: nat)
      requires f.ofile.Length == OpenFiles.SLOTS && p < NPROC
      ensures forall fd: int :: Fd(f.View(), p, fd) == f.ArgFd(p, fd)
      ensures forall fd :: 0 <= fd < OpenFiles.NOFILE ==> Fd(f.View(), p, fd) == f.Fd(p, fd)
    {
    }

    method DoFiles(c: Command)
      requires Valid() && Allowed(c) && OnFiles(c)
      modifies f, f.ftable, f.ofile
      ensures Valid() && 0 <= k.proc < NPROC
      ensures FileStep(old(f.View()), c, k.proc, MachineSpec.Child(k.View()), f.View())
    {
      hide Valid, OpenFiles.Inv, OpenFiles.Enabled, OpenFiles.Next, OpenFiles.Leads, FileStep;
      Shape();
      ghost var s, p, child := f.View(), k.proc, MachineSpec.Child(k.View());
      FdSeen(p);
      match c {
        case Open(ip) =>
          var fd := OpenInode(ip);
          if fd != -1 {
            OpenIs(s, ip, p, child, fd, f.Fd(p, fd), f.View());
          } else {
            FdSeen(p);
            NoOpenIs(s, ip, p, child);
          }
        case Dup(fd) =>
          var r := Dup(fd);
          if r != -1 {
            DupIs(s, fd, p, child, r, f.View());
          } else {
            FdSeen(p);
            NoDupIs(s, fd, p, child);
          }
        case Enter(fd) =>
          Enter(fd);
          EnterIs(s, c, p, child, f.View());
        case Leave =>
          Leave();
          EnterIs(s, c, p, child, f.View());
      }
    }

    method DoTable(c: Command)
      requires Valid() && Allowed(c) && OnTable(c)
      modifies k, k.ptable
      ensures Valid() && ProcStep(old(k.View()), f.View(), c, k.View())
    {
      hide Valid, Processes.Inv, Processes.Enabled, Processes.Next, Processes.Leads;
      Shape();
      ghost var s := k.View();
      match c {
        case Dispatch =>
          Dispatch();
          ghost var i: nat :| k.Did(Processes.Dispatch(i));
          assert MachineSpec.Did(s, Processes.Dispatch(i), k.View());
        case Yield => Yield();
        case Sleep(id) => Sleep(id);
        case Wakeup(id) => Wakeup(id);
        case Kill(pid) =>
          var i := Kill(pid);
          if i != -1 {
            assert MachineSpec.Did(s, Processes.Kill(pid, i), k.View());
          }
      }
    }

    method DoBoth(c: Command)
      requires Valid() && Allowed(c) && !OnFiles(c) && !OnTable(c) && !OnMemory(c)
      modifies k, k.ptable, f, f.ftable, f.ofile, m, m.pmmStack
      ensures Valid() && m.dirs == old(m.dirs)
      ensures forall e :: e in m.dirs ==> Isolation.SameMemory(old(m.pages), m.pages, e)
      ensures ProcStep(old(k.View()), old(f.View()), c, k.View())
      ensures c.Exit? ==> LeftBehind(old(k.View()), old(f.View()), k.View(), f.View())
      ensures old(k.proc) >= 0 && FileStep(old(f.View()), c, old(k.proc), MachineSpec.Child(old(k.View())), f.View())
    {
      hide Valid, Isolation.SameMemory, Processes.Inv, Processes.Enabled, Processes.Next, Processes.Leads,
           OpenFiles.Inv, OpenFiles.Enabled, OpenFiles.Next, OpenFiles.Leads, LeftBehind;
      Isolation.MemorySelf(m.pages, m.dirs);
      Shape();
      ghost var s, p := f.View(), k.proc;
      FdSeen(p);
      match c {
        case Close(fd) =>
          var r, closed := Close(fd);
        case Pipe =>
          var fd0, fd1, page := SysPipe();
          if fd1 != -1 {
            assert MakesPipe(s, p, fd0, fd1, f.Fd(p, fd0), f.Fd(p, fd1), page, f.View());
          }
        case ForkDone =>
          ghost var child := k.child[p];
          var pid;
          ghost var opens;
          pid, opens := ForkDone();
          Shape();
          FdSeen(child);
        case Exit =>
          ghost var steps, opens := DoExit();
          Shape();
          FdSeen(p);
          assert AllWakeups(steps) && AllCloses(opens);
      }
    }

    lemma NoStep(c: Command, s: Processes.System, fs: OpenFiles.System, p: nat, child: int)
      ensures OnFiles(c) ==> ProcStep(s, fs, c, s)
      ensures OnTable(c) || OnMemory(c) ==> FileStep(fs, c, p, child, fs)
    {
    }

    /** The commands that leave the memory of all processes as it is. */
    method DoQuietly(c: Command)
      requires Valid() && Allowed(c) && !OnMemory(c)
      modifies k, k.ptable, f, f.ftable, f.ofile, m, m.pmmStack
      ensures Valid() && Mems() == old(Mems()) && ProcStep(old(k.View()), old(f.View()), c, k.View())
      ensures c.Exit? ==> LeftBehind(old(k.View()), old(f.View()), k.View(), f.View())
      ensures FileStep(old(f.View()), c, if old(k.proc) >= 0 then old(k.proc)
                         else 0, MachineSpec.Child(old(k.View())), f.View())
    {
      hide Valid, Processes.Inv, Processes.Leads, OpenFiles.Inv, OpenFiles.Leads, MemsOf, Allowed, AddressSpaces,
           Isolation.SameMemory, ProcStep, FileStep, LeftBehind;
      Shape();
      SpacesNow();
      NoStep(c, k.View(), f.View(), if k.proc >= 0 then k.proc else 0, MachineSpec.Child(k.View()));
      ghost var s, fs, spaces, pages, dirs := k.View(), f.View(), space[..], m.pages, m.dirs;
      Isolation.MemorySelf(pages, dirs);
      if OnFiles(c) {
        DoFiles(c);
      } else if OnTable(c) {
        DoTable(c);
      } else {
        DoBoth(c);
      }
      Shape();
      ghost var run := ProcRun(s, fs, c, k.View());
      MemsKept(s, k.View(), run, spaces, pages, m.pages, dirs);
    }

    method DoMemory(c: Command)
      requires Valid() && Allowed(c) && OnMemory(c)
      modifies k, k.ptable, m, m.pmmStack, space
      ensures Valid() && f.View() == old(f.View()) && Made(c)
    {
      hide Valid, Machine.Made, Processes.Inv, Processes.Next, MemsOf, Exec.Linked, Exec.Room, Exec.Succeeds,
           ExecStack.Fits, ExecStack.Copied;
      Shape();
      match c {
        case ForkAlloc => SeeForkAlloc();
        case ForkCopy => SeeForkCopy();
        case Wait => SeeWait();
        case Exec(headers, argv, limit) => SeeExec(headers, argv, limit);
        case Store(vpn, off, w) => SeeStore(vpn, off, w);
      }
    }

    /** Does it: a step of MachineSpec. */
    method Do(c: Command)
      requires Valid() && Allowed(c)
      modifies k, k.ptable, f, f.ftable, f.ofile, m, m.pmmStack, space
      ensures Valid() && Step(old(Now()), c, Now())
    {
      hide Valid, Processes.Inv, Processes.Leads, OpenFiles.Inv, OpenFiles.Leads, MemsOf, Allowed, Exec.Succeeds,
           IsProgram, ProcStep, FileStep, LeftBehind;
      Shape();
      NoStep(c, k.View(), f.View(), if k.proc >= 0 then k.proc else 0, MachineSpec.Child(k.View()));
      SpacesNow();
      ProcTable.InRange(k.View());
      if OnMemory(c) {
        DoMemory(c);
      } else {
        DoQuietly(c);
      }
    }

    /** Whatever is called in whatever order, up to the first call that is not allowed: the invariant holds
        throughout, so in every run what pmm_free, uvm_free and wait return is still owned and returned for
        the first time, and every page that uvm_copy copies is mapped.  The moments between the commands are
        a run of MachineSpec, whose laws so hold of them. */
    method Run(commands: seq<Command>) returns (n: nat, ghost ms: seq<Moment>)
      requires Valid()
      modifies k, k.ptable, f, f.ftable, f.ofile, m, m.pmmStack, space
      ensures Valid() && n <= |commands| && (n < |commands| ==> !Allowed(commands[n]))
      ensures IsTrace(ms, commands[..n]) && ms[0] == old(Now()) && ms[n] == Now()
    {
      hide Valid, Processes.Inv, OpenFiles.Inv, Allowed, MemsOf, MachineSpec.Step;
      n := 0;
      Shape();
      ms := [Now()];
      while n < |commands| && Allowed(commands[n])
        invariant n <= |commands| && Valid()
        invariant k.ptable.Length == NPROC && f.ofile.Length == OpenFiles.SLOTS && f.ftable.Length == OpenFiles.NFILE
        invariant space.Length == NPROC
        invariant IsTrace(ms, commands[..n]) && ms[0] == old(Now()) && ms[n] == Now()
      {
        Do(commands[n]);
        Shape();
        Longer(ms, commands[..n], commands[n], Now());
        assert commands[..n] + [commands[n]] == commands[..n + 1];
        ms := ms + [Now()];
        n := n + 1;
      }
    }

    /** Page frame g is used this way. */
    ghost predicate UsedAs(g: nat, u: Use)
      requires k.ptable.Length == NPROC && space.Length == NPROC && m.top <= m.pmmStack.Length
      reads k, k.ptable, f, m, m.pmmStack, space
    {
      match u
      case FreeAt(i) => i < m.top && m.pmmStack[i] == g
      case KernelStack(p) => p < NPROC && HasStack(k.ptable[p]) && space[p].kstack == g
      case PageDirectory(p) => p < NPROC && HasSpace(k.ptable[p]) && space[p].pgdir == g
      case UserTable(p, i) =>
        && p < NPROC && HasSpace(k.ptable[p]) && USER_PDE <= i < ENTRIES
        && space[p].pgdir < |m.pages| && m.pages[space[p].pgdir][i] != 0 && Frame(m.pages[space[p].pgdir][i]) == g
      case UserPage(p, v) => p < NPROC && HasSpace(k.ptable[p]) && USER_VPN <= v < MAX_VPN
          && Lookup(m.pages, space[p].pgdir, v) == Some(g)
      case PipePage => g in f.pipes
    }

    /** The role that memory's invariant gives a frame used this way. */
    lemma RoleOfUse(g: nat, u: Use) returns (r: Role)
      requires Valid() && UsedAs(g, u)
      ensures g in m.owner && m.owner[g] == r
      ensures match u
              case FreeAt(i) => r == Role.FreeAt(i)
              case KernelStack(_) => r == Plain
              case PageDirectory(_) => r == Directory
              case UserTable(p, i) => p < NPROC && r == Table(space[p].pgdir, i)
              case UserPage(p, v) => p < NPROC && r == Leaf(space[p].pgdir, v)
              case PipePage => r == Plain
    {
      hide Identity, Sizes, Descriptors, Processes.Inv, OpenFiles.Inv, Lookup;
      assert u.PipePage? ==> g in m.plain;
      assert u.FreeAt? ==> m.pmmStack[..m.top][u.i] == g;
      r := m.owner[g];
    }

    /** Every page frame has at most one use: kernel stack, page directory, table or page of one process
        (zombies included), page of a pipe, or place on the free stack. */
    lemma OneUse(g: nat, u: Use, u': Use)
      requires Valid() && UsedAs(g, u) && UsedAs(g, u')
      ensures u == u'
    {
      var r := RoleOfUse(g, u);
      r := RoleOfUse(g, u');
      OwnPages();
      hide Valid, Stacks, AddressSpaces, Memory.Valid, Lookup;
      if u.PipePage? || u'.PipePage? {
        PipesApart();
      }
    }

    lemma OwnPages()
      requires Valid()
      ensures k.ptable.Length == NPROC && space.Length == NPROC
      ensures forall i, j :: 0 <= i < j < NPROC && HasStack(k.ptable[i]) && HasStack(k.ptable[j]) ==>
                space[i].kstack != space[j].kstack
      ensures forall i, j :: 0 <= i < j < NPROC && HasSpace(k.ptable[i]) && HasSpace(k.ptable[j]) ==>
                space[i].pgdir != space[j].pgdir
    {
      hide Memory.Valid, Sizes, Descriptors, Processes.Inv, OpenFiles.Inv;
      forall i, j | 0 <= i < j < NPROC && HasStack(k.ptable[i]) && HasStack(k.ptable[j])
        ensures space[i].kstack != space[j].kstack
      {
        assert space[..][i].kstack != space[..][j].kstack;
      }
      forall i, j | 0 <= i < j < NPROC && HasSpace(k.ptable[i]) && HasSpace(k.ptable[j])
        ensures space[i].pgdir != space[j].pgdir
      {
        assert space[..][i].pgdir != space[..][j].pgdir;
      }
    }

    lemma PipesApart()
      requires Valid()
      ensures k.ptable.Length == NPROC && space.Length == NPROC
      ensures forall i :: 0 <= i < NPROC && HasStack(k.ptable[i]) ==> space[i].kstack !in f.pipes
    {
      hide Memory.Valid, Sizes, Descriptors, Processes.Inv, OpenFiles.Inv;
      forall i | 0 <= i < NPROC && HasStack(k.ptable[i]) ensures space[i].kstack !in f.pipes {
        assert space[..][i].kstack !in f.pipes.Keys;
      }
    }
  }

  lemma Continued(s: Processes.System, run: seq<Processes.Step>, t: Processes.System, step: Processes.Step,
                  u: Processes.System) returns (run': seq<Processes.Step>)
    requires Processes.Leads(s, run, t) && Processes.Enabled(t, step) && u == Processes.Next(t, step)
    ensures Processes.Leads(s, run', u) && run' == run + [step]
  {
    hide Processes.Leads;
    Processes.LeadsOne(t, step);
    run' := run + [step];
    Processes.LeadsOn(s, run, t, [step], u);
  }

  lemma ExitState(s: Processes.System)
    requires Processes.Inv(s) && Processes.Enabled(s, Processes.Exit)
    ensures Processes.Next(s, Processes.Exit).tab[s.running].state == Processes.Zombie
    ensures Processes.Next(s, Processes.Exit).running == -1
  {
  }

  lemma PipesPlain(tab: Table, spaces: seq<Space>, plain: set<nat>, pipes: set<nat>)
    requires Stacks(tab, spaces, plain, pipes)
    ensures pipes <= plain
  {
  }

  lemma PipeMade(tab: Table, fds: seq<int>, fds': seq<int>, p: nat, fd0: nat, fd1: nat, f: int, g: int)
    requires Descriptors(tab, fds) && p < NPROC && Processes.Alive(tab[p]) && fd0 < OpenFiles.NOFILE
    requires fd1 < OpenFiles.NOFILE
    requires fds' == fds[OpenFiles.NOFILE * p + fd0 := f][OpenFiles.NOFILE * p + fd1 := g]
    ensures Descriptors(tab, fds')
  {
    assert (OpenFiles.NOFILE * p + fd0) / OpenFiles.NOFILE == p && (OpenFiles.NOFILE * p + fd1) / OpenFiles.NOFILE == p;
    LiveDescriptors(tab, fds, fds', p);
  }

  lemma PipeIsPlain(tab: Table, spaces: seq<Space>, plain: set<nat>, pipes: set<nat>, q: nat)
    requires Stacks(tab, spaces, plain, pipes) && q in pipes
    ensures q in plain
  {
  }

  lemma FewerDescriptors(tab: Table, fds: seq<int>, fds': seq<int>)
    requires Descriptors(tab, fds) && |fds'| == |fds|
    requires forall j :: 0 <= j < |fds| ==> fds'[j] == fds[j] || fds'[j] == -1
    ensures Descriptors(tab, fds')
  {
    forall p, fd | 0 <= p < NPROC && 0 <= fd < OpenFiles.NOFILE && !Processes.Alive(tab[p])
      ensures NoDescriptor(fds', p, fd)
    {
      assert NoDescriptor(fds, p, fd);
    }
  }

  lemma LiveDescriptors(tab: Table, fds: seq<int>, fds': seq<int>, p: nat)
    requires Descriptors(tab, fds) && p < NPROC && |fds'| == |fds| && Processes.Alive(tab[p])
    requires forall j :: 0 <= j < OpenFiles.SLOTS && j / OpenFiles.NOFILE != p ==> fds'[j] == fds[j]
    ensures Descriptors(tab, fds')
  {
    ChildDescriptors(tab, tab, fds, fds', p);
  }

  lemma ZombieSlot(s: Processes.System, i: nat)
    requires Processes.Inv(s) && Processes.Enabled(s, Processes.Collect(i))
    ensures i < NPROC && s.tab[i].state == Processes.Zombie
    ensures Processes.Next(s, Processes.Collect(i)).tab == s.tab[i := Processes.Reaped(s.tab[i])]
    ensures !HasStack(Processes.Reaped(s.tab[i]))
  {
  }

  lemma ZombieHolds(tab: Table, spaces: seq<Space>, plain: set<nat>, dirs: set<nat>, pages: Pages, pipes: set<nat>,
                    fds: seq<int>, i: nat)
    requires Owned(tab, spaces, plain, dirs, pages, pipes, fds) && i < NPROC && HasSpace(tab[i])
    ensures |spaces| == NPROC && spaces[i].kstack in plain && spaces[i].pgdir in dirs
  {
    hide Sizes, Descriptors, IsStack, IsDirectory;
  }

  /** A collected zombie's pages are nobody's, and everybody else keeps theirs. */
  lemma ReapedOwned(tab: Table, spaces: seq<Space>, plain: set<nat>, dirs: set<nat>, pages: Pages, pages': Pages,
                    pipes: set<nat>, fds: seq<int>,
                    i: nat, p: Processes.Proc)
    requires Owned(tab, spaces, plain, dirs, pages, pipes, fds) && i < NPROC && HasSpace(tab[i]) && !HasStack(p)
    requires !Processes.Alive(tab[i]) && |spaces| == |tab| == NPROC
    requires forall e :: e in dirs - {spaces[i].pgdir} ==> SameMap(pages, pages', e)
    ensures Owned(tab[i := p], spaces, plain - {spaces[i].kstack}, dirs - {spaces[i].pgdir}, pages', pipes, fds)
  {
    hide SameMap, MapsBelow, Stacks, AddressSpaces, Sizes, Descriptors;
    SlotReaped(tab, spaces, plain, dirs, pages, pipes, i, p);
    SizesKept(tab[i := p], spaces, dirs - {spaces[i].pgdir}, pages, pages');
    DescriptorsKept(tab, tab[i := p], fds, i);
  }

  /** The slot of a process that is not alive changes. */
  lemma DescriptorsKept(tab: Table, tab': Table, fds: seq<int>, i: nat)
    requires Descriptors(tab, fds) && i < NPROC && !Processes.Alive(tab[i]) && |tab'| == NPROC
    requires forall j :: 0 <= j < NPROC && j != i ==> tab'[j] == tab[j]
    ensures Descriptors(tab', fds)
  {
  }

  /** A live child has whatever descriptors it was given. */
  lemma ChildDescriptors(tab: Table, tab': Table, fds: seq<int>, fds': seq<int>, c: nat)
    requires Descriptors(tab, fds) && c < NPROC && |tab'| == NPROC && |fds'| == |fds| && Processes.Alive(tab'[c])
    requires forall i :: 0 <= i < NPROC && Processes.Alive(tab[i]) ==> Processes.Alive(tab'[i])
    requires forall j :: 0 <= j < OpenFiles.SLOTS && j / OpenFiles.NOFILE != c ==> fds'[j] == fds[j]
    ensures Descriptors(tab', fds')
  {
    forall p, fd | 0 <= p < NPROC && 0 <= fd < OpenFiles.NOFILE && !Processes.Alive(tab'[p])
      ensures NoDescriptor(fds', p, fd)
    {
      assert NoDescriptor(fds, p, fd);
      assert (OpenFiles.NOFILE * p + fd) / OpenFiles.NOFILE == p;
    }
  }

  lemma FreeSlot(s: Processes.System, c: int)
    requires Processes.Inv(s) && c >= 0 && Processes.Enabled(s, Processes.ForkAlloc(c))
    ensures 0 <= c < NPROC && s.tab[c].state == Processes.Unused && s.tab[c].parent == -1
  {
    assert Processes.Kin(s.tab, c, s.tab[c]);
  }

  /** A child in fork has a slot of its own. */
  lemma NewChild(s: Processes.System)
    requires Processes.Inv(s) && Processes.InFork(s)
    ensures s.child[s.running] != s.running && s.tab[s.child[s.running]].state == Processes.Used
  {
    assert Processes.Creating(s.tab, s.running, s.child[s.running]);
  }
}
