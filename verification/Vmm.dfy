/** mm/pmm.c and mm/vmm.c over physical memory.  A C pointer to a page is the frame's number. */
module Vmm {
  import opened Wrappers
  import opened Paging

  const PAGE_MAX_SIZE: nat := 131072 // 512 MB of pages
  const USER_BASE: nat := 0xc000_0000

  const JUNK: Word := 0x0101_0101 // what pmm_free's memset leaves

  function PdeIndex(va: nat): nat { va / 0x40_0000 % 0x400 }
  function PteIndex(va: nat): nat { va / 0x1000 % 0x400 }

  lemma Indices(va: nat)
    requires va < 0x1_0000_0000
    ensures va / PAGE_SIZE < MAX_VPN
    ensures PdeIndex(va) == va / PAGE_SIZE / ENTRIES < ENTRIES && PteIndex(va) == va / PAGE_SIZE % ENTRIES
    ensures va >= USER_BASE <==> va / PAGE_SIZE >= USER_VPN
    ensures va >= USER_BASE <==> PdeIndex(va) >= USER_PDE
  {
  }

  /** The pages, and the tables for them, that `size` bytes from USER_BASE take. */
  function Pages4k(size: nat): nat { (size + PAGE_SIZE - 1) / PAGE_SIZE }
  function TablesFor(n: nat): nat { (n + ENTRIES - 1) / ENTRIES }

  /** User pages, kernel stacks and pipe pages keep their contents. */
  ghost predicate DataKept(pages: Pages, pages': Pages, owner: map<nat, Role>) {
    && |pages'| == |pages|
    && forall f :: f in owner && f < |pages| && (owner[f].Leaf? || owner[f] == Plain) ==> pages'[f] == pages[f]
  }

  /** All frames but the new and the freed ones keep their role. */
  ghost predicate RolesKept(owner: map<nat, Role>, owner': map<nat, Role>) {
    forall f :: f in owner && (owner[f].Leaf? || owner[f] == Plain || owner[f].Table? || owner[f] == Directory) ==>
        f in owner' && owner'[f] == owner[f]
  }

  /** User pages, kernel stacks and pipe pages keep their contents and their role. */
  ghost predicate DataStays(pages: Pages, pages': Pages, owner: map<nat, Role>, owner': map<nat, Role>) {
    && |pages'| == |pages|
    && forall f :: f in owner && f < |pages| && (owner[f].Leaf? || owner[f] == Plain) ==>
         pages'[f] == pages[f] && f in owner' && owner'[f] == owner[f]
  }

  lemma StaysSelf(pages: Pages, owner: map<nat, Role>)
    ensures DataStays(pages, pages, owner, owner)
  {
  }

  lemma StaysTwice(pages0: Pages, pages1: Pages, pages2: Pages, owner0: map<nat, Role>, owner1: map<nat, Role>,
                   owner2: map<nat, Role>)
    requires DataStays(pages0, pages1, owner0, owner1) && DataStays(pages1, pages2, owner1, owner2)
    ensures DataStays(pages0, pages2, owner0, owner2)
  {
  }

  ghost function Interval(lo: nat, hi: nat): (s: set<nat>)
    ensures forall f :: f in s <==> lo <= f < hi
    ensures |s| == if lo <= hi then hi - lo else 0
  {
    if lo >= hi then {} else Interval(lo, hi - 1) + {hi - 1}
  }

  ghost function RolesAtStart(k: Layout, first: nat): map<nat, Role> {
    var tables, free := Interval(k.pt, k.pt + ENTRIES), Interval(first, k.top);
    var all := tables + free;
    map f | f in all :: if f >= first then FreeAt(f - first) else Kernel
  }

  /** vmm_init's loop over the kernel's tables, which start out zero: page i of all 4 GB is mapped to
      frame i, except page 0. */
  method VmmInit(k: Layout, memory: Pages) returns (pages: Pages)
    requires IsLayout(k) && |memory| == k.top && forall t :: k.pt <= t < k.pt + ENTRIES ==> memory[t] == Filled(0)
    ensures |pages| == k.top && Identity(k, pages)
    ensures forall f :: 0 <= f < k.top && !(k.pt <= f < k.pt + ENTRIES) ==> pages[f] == memory[f]
  {
    pages := memory;
    var i := 1;
    while i < ENTRIES * ENTRIES
      invariant 1 <= i <= ENTRIES * ENTRIES && |pages| == k.top
      invariant pages[k.pt][0] == 0
      invariant forall v :: 1 <= v < i ==> pages[k.pt + v / ENTRIES][v % ENTRIES] == Entry(v, 0)
      invariant forall f :: 0 <= f < k.top && !(k.pt <= f < k.pt + ENTRIES) ==> pages[f] == memory[f]
    {
      ghost var pages1 := pages;
      var t := k.pt + i / ENTRIES;
      pages := pages[t := pages[t][i % ENTRIES := Entry(i, 0)]];
      forall v | 1 <= v < i ensures pages[k.pt + v / ENTRIES][v % ENTRIES] == Entry(v, 0) {
        assert pages1[k.pt + v / ENTRIES][v % ENTRIES] == Entry(v, 0);
        assert v / ENTRIES == i / ENTRIES && v % ENTRIES == i % ENTRIES ==> v == i;
      }
      i := i + 1;
    }
    forall v | 1 <= v < k.top
      ensures Present(pages[k.pt + v / ENTRIES][v % ENTRIES]) && Frame(pages[k.pt + v / ENTRIES][v % ENTRIES]) == v
    {
      assert pages[k.pt + v / ENTRIES][v % ENTRIES] == Entry(v, 0);
    }
  }

  /** The user pages that are mapped are those that start below `sz`. */
  ghost predicate MapsBelow(pages: Pages, pgdir: nat, sz: nat) {
    forall v :: USER_VPN <= v < MAX_VPN ==> (Lookup(pages, pgdir, v).Some? <==> v * PAGE_SIZE < sz)
  }

  /** The user pages that start between lo and hi are mapped and full of zeros. */
  ghost predicate ZeroPages(pages: Pages, pgdir: nat, lo: nat, hi: nat) {
    forall v :: USER_VPN <= v < MAX_VPN && lo <= v * PAGE_SIZE < hi ==>
      Lookup(pages, pgdir, v).Some? && Lookup(pages, pgdir, v).value < |pages|
          && pages[Lookup(pages, pgdir, v).value] == Filled(0)
  }

  /** The directory lets user programs through to all of its user tables. */
  ghost predicate OpenTables(pages: Pages, d: nat) {
    d < |pages| && forall i :: USER_PDE <= i < ENTRIES && pages[d][i] != 0 ==> UserAccess(pages[d][i])
  }

  /** And the user pages that start below `sz` are open too. */
  ghost predicate OpenBelow(pages: Pages, d: nat, sz: nat) {
    && OpenTables(pages, d)
    && forall v :: USER_VPN <= v < MAX_VPN && v * PAGE_SIZE < sz ==> UserAccess(PteOf(pages, d, v))
  }

  lemma OpenAligned(pages: Pages, d: nat, sz: nat)
    ensures OpenBelow(pages, d, AlignUp(sz)) == OpenBelow(pages, d, sz)
  {
    hide PteOf, UserAccess;
    assert forall v :: USER_VPN <= v < MAX_VPN ==> (v * PAGE_SIZE < AlignUp(sz) <==> v * PAGE_SIZE < sz);
  }

  /** Every page of the `size` bytes from USER_BASE is mapped. */
  ghost predicate MapsUpto(pages: Pages, pgdir: nat, size: nat) {
    forall v :: USER_VPN <= v < MAX_VPN && (v - USER_VPN) * PAGE_SIZE < size ==> Lookup(pages, pgdir, v).Some?
  }

  lemma RolesAre(k: Layout, first: nat)
    requires IsLayout(k) && k.pt + ENTRIES <= first <= k.top
    ensures var owner := RolesAtStart(k, first);
            && (forall f :: k.pt <= f < k.pt + ENTRIES ==> f in owner && owner[f] == Kernel)
            && (forall f :: first <= f < k.top ==> f in owner && owner[f] == FreeAt(f - first))
            && (forall f :: f in owner ==> k.pt <= f < k.pt + ENTRIES || first <= f < k.top)
  {
  }

  /** All frames from `first` on are free, and nothing else is in use but the kernel's tables. */
  lemma FreshMemory(k: Layout, first: nat, pages: Pages, stack: seq<nat>)
    requires IsLayout(k) && |pages| == k.top && Identity(k, pages) && k.pt + ENTRIES <= first <= k.top
    requires |stack| == k.top - first && forall i :: 0 <= i < |stack| ==> stack[i] == first + i
    ensures Apart(k, pages, stack, {}, {}, Interval(first, k.top), RolesAtStart(k, first))
  {
    hide Identity, RolesAtStart, Interval, Lookup, Stacked, Frames;
    FreshStack(k, first, stack);
    FreshFrames(k, first);
  }

  lemma FreshFrames(k: Layout, first: nat)
    requires IsLayout(k) && k.pt + ENTRIES <= first <= k.top
    ensures Frames(k, {}, Interval(first, k.top), RolesAtStart(k, first))
  {
    RolesAre(k, first);
    hide RolesAtStart, Interval;
  }

  lemma FreshStack(k: Layout, first: nat, stack: seq<nat>)
    requires IsLayout(k) && k.pt + ENTRIES <= first <= k.top
    requires |stack| == k.top - first && forall i :: 0 <= i < |stack| ==> stack[i] == first + i
    ensures Stacked(stack, RolesAtStart(k, first))
  {
    RolesAre(k, first);
    hide RolesAtStart, Interval;
  }

  /** The loop of pmm_init. */
  method FillStack(first: nat, limit: nat) returns (s: array<nat>)
    requires first <= limit <= PAGE_MAX_SIZE
    ensures fresh(s) && s.Length == PAGE_MAX_SIZE + 1 && forall i :: 0 <= i < limit - first ==> s[i] == first + i
  {
    s := new nat[PAGE_MAX_SIZE + 1];
    var n, addr := 0, first;
    while addr < limit
      invariant first <= addr <= limit && n == addr - first
      invariant forall i :: 0 <= i < n ==> s[i] == first + i
    {
      s[n] := addr;
      n := n + 1;
      addr := addr + 1;
    }
  }

  class Memory {
    const k: Layout
    const count: nat                // pmm_count
    const pmmStack: array<nat>
    var top: nat                    // pmm_stack_top
    var pages: Pages
    ghost var dirs: set<nat>
    ghost var plain: set<nat>
    ghost var managed: set<nat>
    ghost var owner: map<nat, Role>

    ghost predicate Valid()
      reads this, pmmStack
    {
      && top <= pmmStack.Length && count <= pmmStack.Length && |managed| == count
      && Apart(k, pages, pmmStack[..top], dirs, plain, managed, owner)
    }

    /** pmm_init: every frame of [first, limit) goes on the stack; vmm_init has set up the shared
        tables in `pages`. */
    constructor (k: Layout, first: nat, pages: Pages)
      requires IsLayout(k) && |pages| == k.top && Identity(k, pages)
      requires k.pt + ENTRIES <= first <= k.top <= PAGE_MAX_SIZE
      ensures Valid() && fresh(pmmStack) && this.pages == pages && dirs == {} && plain == {}
      ensures top == k.top - first && forall i :: 0 <= i < top ==> pmmStack[i] == first + i
    {
      hide Apart, RolesAtStart, Identity;
      var s := FillStack(first, k.top);
      this.k, this.pages := k, pages;
      pmmStack, top, count := s, k.top - first, k.top - first;
      dirs, plain := {}, {};
      managed := Interval(first, k.top);
      owner := RolesAtStart(k, first);
      new;
      FreshMemory(k, first, pages, pmmStack[..top]);
    }

    /** pmm_alloc on a stack that is not empty; the caller says what the frame is for. */
    method PmmAlloc(ghost r: Role) returns (f: nat)
      requires Valid() && top > 0 && r != Kernel && !r.FreeAt?
      modifies this`top, this`pages, this`dirs, this`plain, this`owner
      ensures Valid() && top == old(top) - 1 && managed == old(managed)
      ensures f == pmmStack[top] && 0 < f < |old(pages)| && f !in old(dirs) && f !in old(plain)
      ensures f in old(owner) && old(owner)[f] == FreeAt(top)
      ensures pages == old(pages)[f := Filled(0)]
      ensures dirs == (if r == Directory then old(dirs) + {f} else old(dirs))
      ensures plain == (if r == Plain then old(plain) + {f} else old(plain))
      ensures owner == old(owner)[f := r]
      ensures forall d :: d in old(dirs) ==> SameMap(old(pages), pages, d) && d < |pages| && pages[d] == old(pages)[d]
      ensures DataKept(old(pages), pages, old(owner)) && RolesKept(old(owner), owner)
    {
      hide SameMap, KernelHalf, Identity, UserTables, UserPages;
      AllocStep(k, pages, pmmStack[..top], dirs, plain, managed, owner, r);
      top := top - 1;
      f := pmmStack[top];
      pages := pages[f := Filled(0)];
      owner := owner[f := r];
      if r == Directory { dirs := dirs + {f}; }
      if r == Plain { plain := plain + {f}; }
      assert pmmStack[..top] == old(pmmStack[..top])[..top];
    }

    /** pmm_free of a frame nothing refers to; its assertion on the stack height always holds. */
    method PmmFree(f: nat)
      requires Valid() && NoTable(k, dirs, owner, f) && f !in plain && !owner[f].FreeAt? && !owner[f].Leaf?
      modifies this`top, this`pages, this`owner, pmmStack
      ensures Valid() && top == old(top) + 1 <= count
      ensures f < |old(pages)| && pages == old(pages)[f := Filled(JUNK)] && owner == old(owner)[f := FreeAt(old(top))]
      ensures forall d :: d in dirs ==> SameMap(old(pages), pages, d) && d < |pages| && pages[d] == old(pages)[d]
    {
      hide SameMap, KernelHalf, Identity, UserTables, UserPages;
      StackRoom(k, pages, pmmStack[..top], dirs, plain, managed, owner, f);
      FreeStep(k, pages, pmmStack[..top], dirs, plain, managed, owner, f, Filled(JUNK));
      ghost var s := pmmStack[..top];
      pmmStack[top] := f;
      top := top + 1;
      assert pmmStack[..top] == s + [f];
      owner := owner[f := FreeAt(top - 1)];
      pages := pages[f := Filled(JUNK)];
    }

    /** Mappings of every directory in use, and of d at the pages that differ from vpn, are as before. */
    twostate predicate OnlyPage(d: nat, vpn: nat)
      reads this
    {
      && (forall v :: 0 <= v < MAX_VPN && v != vpn ==>
            && Lookup(pages, d, v) == old(Lookup(pages, d, v))
            && (v >= USER_VPN ==> PteOf(pages, d, v) == old(PteOf(pages, d, v)))
            && (v >= USER_VPN && old(Lookup(pages, d, v)).Some? ==> PdeOf(pages, d, v) == old(PdeOf(pages, d, v))))
      && forall e :: e in old(dirs) && e != d ==> SameMap(old(pages), pages, e)
    }

    ghost predicate TablesOpen(d: nat)
      reads this
    {
      OpenTables(pages, d)
    }

    /** The user table for a page exists. */
    predicate HasTable(d: nat, vpn: nat)
      reads this
    {
      d < |pages| && vpn < MAX_VPN && pages[d][vpn / ENTRIES] != 0
    }

    /** The part of vmm_map that finds or makes the user table; no mapping changes. */
    method UserTable(pgdir: nat, pdeIdx: nat, flags: nat) returns (pte: nat)
      requires Valid() && pgdir in dirs && USER_PDE <= pdeIdx < ENTRIES && flags < PAGE_SIZE && pgdir < |pages|
      requires pages[pgdir][pdeIdx] != 0 || top > 0
      modifies this`top, this`pages, this`dirs, this`plain, this`owner
      ensures Valid() && dirs == old(dirs) && plain == old(plain) && pgdir < |pages|
      ensures top == old(top) - if old(pages[pgdir][pdeIdx]) != 0 then 0 else 1
      ensures pte == Frame(pages[pgdir][pdeIdx]) && pages[pgdir][pdeIdx] != 0
      ensures forall i :: 0 <= i < ENTRIES && i != pdeIdx ==> pages[pgdir][i] == old(pages)[pgdir][i]
      ensures forall d :: d in dirs ==> SameMap(old(pages), pages, d)
      ensures old(TablesOpen(pgdir)) && UserAccess(flags) ==> TablesOpen(pgdir)
      ensures DataKept(old(pages), pages, old(owner)) && RolesKept(old(owner), owner)
    {
      hide SameMap, KernelHalf, Identity, UserPages;
      pte := Frame(pages[pgdir][pdeIdx]);
      if pte == 0 {
        pte := PmmAlloc(Table(pgdir, pdeIdx));
        ghost var pages1 := pages;
        HangTable(k, pages, pmmStack[..top], dirs, plain, managed, owner, pgdir, pdeIdx, pte, flags);
        OpenEntry(pte, flags);
        pages := pages[pgdir := pages[pgdir][pdeIdx := Entry(pte, flags)]];
        SameMapsTwice(old(pages), pages1, pages, dirs);
      } else {
        SameMapsSelf(pages, dirs);
      }
    }

    /** vmm_map of a user page to its own frame; the table is allocated when it is missing. */
    method VmmMapUser(pgdir: nat, va: nat, pa: nat, flags: nat)
      requires Valid() && pgdir in dirs && USER_BASE <= va < 0x1_0000_0000 && flags < PAGE_SIZE
      requires pa in owner && owner[pa] == Leaf(pgdir, va / PAGE_SIZE)
      requires HasTable(pgdir, va / PAGE_SIZE) || top > 0
      modifies this`top, this`pages, this`dirs, this`plain, this`owner
      ensures Valid() && dirs == old(dirs) && plain == old(plain)
      ensures top == old(top) - if old(HasTable(pgdir, va / PAGE_SIZE)) then 0 else 1
      ensures va / PAGE_SIZE < MAX_VPN && HasTable(pgdir, va / PAGE_SIZE)
      ensures forall v :: 0 <= v < MAX_VPN && v / ENTRIES != va / PAGE_SIZE / ENTRIES ==>
                HasTable(pgdir, v) == old(HasTable(pgdir, v))
      ensures Lookup(pages, pgdir, va / PAGE_SIZE) == Some(pa) && OnlyPage(pgdir, va / PAGE_SIZE)
      ensures pa < MAX_VPN && PteOf(pages, pgdir, va / PAGE_SIZE) == Entry(pa, flags)
      ensures old(TablesOpen(pgdir)) && UserAccess(flags) ==> TablesOpen(pgdir)
      ensures DataKept(old(pages), pages, old(owner)) && RolesKept(old(owner), owner)
    {
      hide KernelHalf, Identity, UserPages;
      Indices(va);
      var pdeIdx, pteIdx := PdeIndex(va), PteIndex(va);
      ghost var vpn := va / PAGE_SIZE;
      InDirectories(k, pages, dirs, owner, pgdir);
      var pte := UserTable(pgdir, pdeIdx, flags);
      ghost var pages1 := pages;
      SetMapping(k, pages, pmmStack[..top], dirs, plain, managed, owner, pgdir, vpn, Entry(pa, flags));
      pages := pages[pte := pages[pte][pteIdx := Entry(pa, flags)]];
    }

    /** vmm_unmap of a user page: exactly this mapping goes; the frame is not freed. */
    method VmmUnmapUser(pgdir: nat, va: nat)
      requires Valid() && pgdir in dirs && USER_BASE <= va < 0x1_0000_0000
      modifies this`pages
      ensures Valid() && va / PAGE_SIZE < MAX_VPN
      ensures Lookup(pages, pgdir, va / PAGE_SIZE) == None && OnlyPage(pgdir, va / PAGE_SIZE)
      ensures DataKept(old(pages), pages, owner)
    {
      hide KernelHalf, Identity, UserPages;
      Indices(va);
      InDirectories(k, pages, dirs, owner, pgdir);
      var pte := Frame(pages[pgdir][PdeIndex(va)]);
      if pte == 0 {
        return;
      }
      SetMapping(k, pages, pmmStack[..top], dirs, plain, managed, owner, pgdir, va / PAGE_SIZE, 0);
      pages := pages[pte := pages[pte][PteIndex(va) := 0]];
    }

    /** vmm_get_mapping with a place for the result. */
    method VmmGetMapping(pgdir: nat, va: nat) returns (mapped: bool, pa: nat)
      requires Valid() && pgdir in dirs && va < 0x1_0000_0000
      ensures va / PAGE_SIZE < MAX_VPN
      ensures mapped <==> Lookup(pages, pgdir, va / PAGE_SIZE).Some?
      ensures mapped ==> Lookup(pages, pgdir, va / PAGE_SIZE) == Some(pa)
    {
      hide Identity, UserPages, UserTables, Frames;
      Indices(va);
      InDirectories(k, pages, dirs, owner, pgdir);
      TableFrame(k, pages, pmmStack[..top], dirs, plain, managed, owner, pgdir, va / PAGE_SIZE);
      var pte := Frame(pages[pgdir][PdeIndex(va)]);
      mapped, pa := false, 0;
      if pte == 0 {
        return;
      }
      var e := pages[pte][PteIndex(va)];
      if e != 0 && Present(e) {
        mapped, pa := true, Frame(e);
      }
    }

    /** vmm_map of a kernel page to itself, as kvm_init and proc_init do: a directory without the
        shared table only gets it, and otherwise the shared table is written with what it holds. */
    method VmmMapKernel(pgdir: nat, va: nat, flags: nat)
      requires Valid() && pgdir in dirs && va / PAGE_SIZE < k.top && flags < PAGE_SIZE && va < 0x1_0000_0000
      requires va / PAGE_SIZE == 0 ==> pgdir < |pages| && Frame(pages[pgdir][0]) == 0
      modifies this`pages
      ensures Valid() && pgdir < |pages|
      ensures Frame(pages[pgdir][PdeIndex(va)]) != 0
      ensures forall i :: 0 <= i < ENTRIES && i != PdeIndex(va) ==> pages[pgdir][i] == old(pages)[pgdir][i]
      ensures forall e :: e in dirs && e != pgdir ==> SameMap(old(pages), pages, e)
      ensures forall v :: USER_VPN <= v < MAX_VPN ==> Lookup(pages, pgdir, v) == old(Lookup(pages, pgdir, v))
      ensures DataKept(old(pages), pages, owner)
    {
      hide UserPages, UserTables;
      KernelIndices(va, k);
      InDirectories(k, pages, dirs, owner, pgdir);
      var pdeIdx, vpn := PdeIndex(va), va / PAGE_SIZE;
      var pte := Frame(pages[pgdir][pdeIdx]);
      if pte == 0 {
        HangKernelTable(k, pages, pmmStack[..top], dirs, plain, managed, owner, pgdir, pdeIdx, flags);
        pages := pages[pgdir := pages[pgdir][pdeIdx := Entry(k.pt + pdeIdx, flags)]]; // pgd_kern's table
        return;
      }
      RewriteIdentity(k, pages, pmmStack[..top], dirs, plain, managed, owner, vpn, flags);
      pages := pages[pte := pages[pte][PteIndex(va) := Entry(vpn, flags)]];
    }

    /** kvm_init of a directory whose kernel half is empty: it sees all of memory at its own address,
        except page 0, which stays unmapped; no other directory changes. */
    method KvmInit(pgdir: nat)
      requires Valid() && pgdir in dirs && pgdir < |pages|
      requires forall i :: 0 <= i < USER_PDE ==> Frame(pages[pgdir][i]) == 0
      modifies this`pages
      ensures Valid() && pgdir < |pages|
      ensures forall vpn :: 0 <= vpn < k.top ==> Lookup(pages, pgdir, vpn) == if vpn == 0 then None else Some(vpn)
      ensures forall i :: USER_PDE <= i < ENTRIES ==> pages[pgdir][i] == old(pages)[pgdir][i]
      ensures forall v :: USER_VPN <= v < MAX_VPN ==> Lookup(pages, pgdir, v) == old(Lookup(pages, pgdir, v))
      ensures forall e :: e in dirs && e != pgdir ==> SameMap(old(pages), pages, e)
      ensures DataKept(old(pages), pages, owner)
    {
      hide Apart, SameMap;
      LayoutBound(k, pages, pmmStack[..top], dirs, plain, managed, owner);
      SameMapsSelf(pages, dirs);
      var addr := 0;
      while addr < k.top * PAGE_SIZE
        invariant addr % PAGE_SIZE == 0 && addr <= k.top * PAGE_SIZE
        invariant Valid() && pgdir < |pages|
        invariant forall i :: 0 <= i < USER_PDE ==> (Frame(pages[pgdir][i]) != 0 <==> i * ENTRIES < addr / PAGE_SIZE)
        invariant forall i :: USER_PDE <= i < ENTRIES ==> pages[pgdir][i] == old(pages)[pgdir][i]
        invariant forall v :: USER_VPN <= v < MAX_VPN ==> Lookup(pages, pgdir, v) == old(Lookup(pages, pgdir, v))
        invariant forall e :: e in dirs && e != pgdir ==> SameMap(old(pages), pages, e)
        invariant DataKept(old(pages), pages, owner)
      {
        ghost var pages1 := pages;
        KernelIndices(addr, k);
        VmmMapKernel(pgdir, addr, PTE_R);
        SameMapsTwice(old(pages), pages1, pages, dirs - {pgdir});
        NextKernelPage(addr);
        addr := addr + PAGE_SIZE;
      }
      SeesMemory(k, pages, pmmStack[..top], dirs, plain, managed, owner, pgdir);
    }

    /** A new directory for the kernel half and an empty user half: `pmm_alloc`, then kvm_init. */
    method NewDirectory() returns (pgd: nat)
      requires Valid() && top > 0
      modifies this`top, this`pages, this`dirs, this`plain, this`owner
      ensures Valid() && top == old(top) - 1 && pgd !in old(dirs) && dirs == old(dirs) + {pgd} && plain == old(plain)
      ensures pgd < |pages| && forall i :: USER_PDE <= i < ENTRIES ==> pages[pgd][i] == 0
      ensures forall vpn :: 0 <= vpn < k.top ==> Lookup(pages, pgd, vpn) == if vpn == 0 then None else Some(vpn)
      ensures forall e :: e in old(dirs) ==> SameMap(old(pages), pages, e)
      ensures DataKept(old(pages), pages, old(owner)) && RolesKept(old(owner), owner)
    {
      hide Apart, SameMap;
      LayoutBound(k, pages, pmmStack[..top], dirs, plain, managed, owner);
      pgd := PmmAlloc(Directory);
      ghost var pages1 := pages;
      KvmInit(pgd);
      SameMapsTwice(old(pages), pages1, pages, old(dirs));
    }

    /** The pages of user memory from USER_BASE on that a process of this size has. */
    ghost predicate AllMappedUpto(pgdir: nat, size: nat)
      reads this
    {
      MapsUpto(pages, pgdir, size)
    }

    /** The first n user pages of `pgd` hold what those of `src` hold, and it has no others. */
    ghost predicate Copied(src: nat, pgd: nat, n: nat)
      reads this
    {
      forall v :: USER_VPN <= v < MAX_VPN ==>
          if v < USER_VPN + n then SamePage(src, pgd, v) else Lookup(pages, pgd, v) == None
    }

    /** memcpy into a user page, kernel stack or pipe page: no mapping changes. */
    method WritePage(f: nat, p: Page)
      requires Valid() && f in owner && (owner[f].Leaf? || owner[f] == Plain)
      modifies this`pages
      ensures Valid() && f < |old(pages)| && pages == old(pages)[f := p]
      ensures forall d :: d in dirs ==> SameMap(old(pages), pages, d) && d < |pages| && pages[d] == old(pages)[d]
    {
      hide SameMap, KernelHalf, Identity, UserTables, UserPages;
      ContentsWrite(k, pages, pmmStack[..top], dirs, plain, managed, owner, f, p);
      pages := pages[f := p];
    }

    /** A frame with the contents of `pa`, for page vpn of directory pgd. */
    method CloneFrame(pa: nat, ghost pgd: nat, ghost vpn: nat) returns (mem: nat)
      requires Valid() && top > 0 && pa in owner && owner[pa].Leaf? && pa < |pages|
      modifies this`top, this`pages, this`dirs, this`plain, this`owner
      ensures Valid() && dirs == old(dirs) && plain == old(plain) && top == old(top) - 1
      ensures mem in owner && owner[mem] == Leaf(pgd, vpn) && mem < |pages| && pages[mem] == old(pages)[pa]
      ensures forall d :: d in dirs ==>
                SameMap(old(pages), pages, d) && d < |pages| && d < |old(pages)| && pages[d] == old(pages)[d]
      ensures DataKept(old(pages), pages, old(owner)) && RolesKept(old(owner), owner)
    {
      hide Apart, SameMap;
      mem := PmmAlloc(Leaf(pgd, vpn));
      ghost var pages1 := pages;
      WritePage(mem, pages[pa]);
      SameMapsTwice(old(pages), pages1, pages, dirs);
    }

    /** One round of uvm_copy's loop. */
    method CopyPage(src: nat, pgd: nat, va: nat)
      requires Valid() && src in dirs && pgd in dirs && src != pgd && USER_BASE <= va < 0x1_0000_0000
      requires va / PAGE_SIZE < MAX_VPN && Lookup(pages, src, va / PAGE_SIZE).Some?
      requires top > if HasTable(pgd, va / PAGE_SIZE) then 0 else 1
      modifies this`top, this`pages, this`dirs, this`plain, this`owner
      ensures Valid() && dirs == old(dirs) && plain == old(plain)
      ensures top == old(top) - if old(HasTable(pgd, va / PAGE_SIZE)) then 1 else 2
      ensures HasTable(pgd, va / PAGE_SIZE)
      ensures forall v :: 0 <= v < MAX_VPN && v / ENTRIES != va / PAGE_SIZE / ENTRIES ==>
                HasTable(pgd, v) == old(HasTable(pgd, v))
      ensures OnlyPage(pgd, va / PAGE_SIZE)
      ensures SamePage(src, pgd, va / PAGE_SIZE)
      ensures UserAccess(PteOf(pages, pgd, va / PAGE_SIZE)) && (old(TablesOpen(pgd)) ==> TablesOpen(pgd))
      ensures DataKept(old(pages), pages, old(owner)) && RolesKept(old(owner), owner)
    {
      hide Apart, SameMap, Lookup, PteOf, Entry, UserAccess;
      Indices(va);
      ghost var vpn := va / PAGE_SIZE;
      var mapped, pa := VmmGetMapping(src, va);
      LeafFrame(k, pages, pmmStack[..top], dirs, plain, managed, owner, src, vpn);
      var mem := CloneFrame(pa, pgd, vpn);
      ghost var pages2 := pages;
      SameMapAt(old(pages), pages, src, vpn);
      VmmMapUser(pgd, va, mem, PTE_R + PTE_U);
      CopyEffect(old(pages), pages2, pages, dirs, pgd, vpn);
      OpenEntry(mem, PTE_R + PTE_U);
      OpenFlags();
      SameMapAt(pages2, pages, src, vpn);
    }

    /** The first n user pages of `pgd` are open to user programs. */
    ghost predicate Open(pgd: nat, n: nat)
      reads this
    {
      TablesOpen(pgd) && forall v :: USER_VPN <= v < MAX_VPN && v < USER_VPN + n ==> UserAccess(PteOf(pages, pgd, v))
    }

    ghost predicate SamePage(src: nat, pgd: nat, v: nat)
      requires v < MAX_VPN
      reads this
    {
      && Lookup(pages, pgd, v).Some? && Lookup(pages, src, v).Some?
      && Lookup(pages, pgd, v).value < |pages| && Lookup(pages, src, v).value < |pages|
      && pages[Lookup(pages, pgd, v).value] == pages[Lookup(pages, src, v).value]
    }

    /** The tables of `pgd` are those of its first n user pages. */
    ghost predicate TablesUpto(pgd: nat, n: nat)
      reads this
    {
      && pgd < |pages|
      && forall v :: USER_VPN <= v < MAX_VPN ==> (HasTable(pgd, v) <==> (v - USER_VPN) / ENTRIES < TablesFor(n))
    }

    lemma CanUse(pgd: nat, n: nat, v: nat)
      requires Open(pgd, n) && USER_VPN <= v < MAX_VPN && v < USER_VPN + n
      ensures UserCan(pages, pgd, v)
    {
      assert UserAccess(PteOf(pages, pgd, v));
      assert v / ENTRIES >= USER_PDE;
    }

    lemma EmptyCopied(src: nat, pgd: nat)
      requires Valid() && pgd in dirs && pgd < |pages| && forall i :: USER_PDE <= i < ENTRIES ==> pages[pgd][i] == 0
      ensures TablesUpto(pgd, 0) && Copied(src, pgd, 0)
    {
      EmptyUserHalf(k, pages, pmmStack[..top], dirs, plain, managed, owner, pgd);
      assert TablesFor(0) == 0;
    }

    /** uvm_copy: the child has a copy of every page of the parent and no other user page, in frames
        and tables of its own, all of them open to user programs, even those that are closed in the parent;
        the parent's directory, every other directory and all memory in use stay as they were. */
    method UvmCopy(pgdir: nat, size: nat) returns (pgd: nat)
      requires Valid() && pgdir in dirs && USER_BASE + size <= 0x1_0000_0000
      requires AllMappedUpto(pgdir, size)
      requires top >= 1 + Pages4k(size) + TablesFor(Pages4k(size))
      modifies this`top, this`pages, this`dirs, this`plain, this`owner
      ensures Valid() && pgd !in old(dirs) && dirs == old(dirs) + {pgd} && plain == old(plain)
      ensures top == old(top) - 1 - Pages4k(size) - TablesFor(Pages4k(size))
      ensures Copied(pgdir, pgd, Pages4k(size)) && Open(pgd, Pages4k(size))
      ensures forall e :: e in old(dirs) ==> SameMap(old(pages), pages, e)
      ensures DataKept(old(pages), pages, old(owner)) && RolesKept(old(owner), owner)
    {
      hide Apart, SameMap, RolesKept, DataKept, Lookup, Memory.Copied, Memory.TablesUpto, PteOf, UserAccess;
      pgd := NewDirectory();
      EmptyCopied(pgdir, pgd);
      var i := 0;
      while i < size
        invariant i % PAGE_SIZE == 0 && i / PAGE_SIZE <= Pages4k(size)
        invariant Valid() && dirs == old(dirs) + {pgd} && plain == old(plain)
        invariant top == old(top) - 1 - i / PAGE_SIZE - TablesFor(i / PAGE_SIZE)
        invariant TablesUpto(pgd, i / PAGE_SIZE) && Copied(pgdir, pgd, i / PAGE_SIZE) && Open(pgd, i / PAGE_SIZE)
        invariant forall e :: e in old(dirs) ==> SameMap(old(pages), pages, e)
        invariant DataKept(old(pages), pages, old(owner)) && RolesKept(old(owner), owner)
      {
        CopyNext(pgdir, pgd, i, size, old(pages), old(dirs), old(owner));
        i := i + PAGE_SIZE;
      }
    }

    method CopyNext(pgdir: nat, pgd: nat, i: nat, ghost size: nat, ghost pages0: Pages, ghost dirs0: set<nat>,
                    ghost owner0: map<nat, Role>)
      requires Valid() && pgdir in dirs0 && pgd !in dirs0 && dirs == dirs0 + {pgd} && USER_BASE + size <= 0x1_0000_0000
      requires i < size && i % PAGE_SIZE == 0
      requires forall v :: USER_VPN <= v < MAX_VPN && (v - USER_VPN) * PAGE_SIZE < size ==>
                 Lookup(pages0, pgdir, v).Some?
      requires top >= 1 + TablesFor(i / PAGE_SIZE + 1) - TablesFor(i / PAGE_SIZE)
      requires TablesUpto(pgd, i / PAGE_SIZE) && Copied(pgdir, pgd, i / PAGE_SIZE) && Open(pgd, i / PAGE_SIZE)
      requires forall e :: e in dirs0 ==> SameMap(pages0, pages, e)
      requires DataKept(pages0, pages, owner0) && RolesKept(owner0, owner)
      modifies this`top, this`pages, this`dirs, this`plain, this`owner
      ensures Valid() && dirs == old(dirs) && plain == old(plain)
      ensures (i + PAGE_SIZE) / PAGE_SIZE == i / PAGE_SIZE + 1 <= Pages4k(size) && (i + PAGE_SIZE) % PAGE_SIZE == 0
      ensures top == old(top) - 1 - (TablesFor(i / PAGE_SIZE + 1) - TablesFor(i / PAGE_SIZE))
      ensures TablesUpto(pgd, i / PAGE_SIZE + 1) && Copied(pgdir, pgd, i / PAGE_SIZE + 1)
      ensures Open(pgd, i / PAGE_SIZE + 1)
      ensures forall e :: e in dirs0 ==> SameMap(pages0, pages, e)
      ensures DataKept(pages0, pages, owner0) && RolesKept(owner0, owner)
    {
      hide Apart, Lookup, SameMap, PteOf, UserAccess;
      ghost var n, pages1, owner1 := i / PAGE_SIZE, pages, owner;
      PageStep(i, size);
      SameMapAt(pages0, pages1, pgdir, USER_VPN + n);
      CopyPage(pgdir, pgd, USER_BASE + i);
      SameMapAll(pages1, pages, pgdir);
      SameMapsTwice(pages0, pages1, pages, dirs0);
      forall v | USER_VPN <= v < USER_VPN + n && v < MAX_VPN ensures SamePage(pgdir, pgd, v) {
        assert old(SamePage(pgdir, pgd, v));
        LeafFrame(k, pages1, old(pmmStack[..top]), dirs, plain, managed, owner1, pgd, v);
        LeafFrame(k, pages1, old(pmmStack[..top]), dirs, plain, managed, owner1, pgdir, v);
      }
    }

    ghost predicate MappedBelow(pgdir: nat, sz: nat)
      reads this
    {
      MapsBelow(pages, pgdir, sz)
    }

    ghost predicate ZeroFrom(pgdir: nat, lo: nat, hi: nat)
      reads this
    {
      ZeroPages(pages, pgdir, lo, hi)
    }

    /** One round of uvm_alloc's loop. */
    method AllocPage(pgdir: nat, start: nat, ghost oldSz: nat, ghost pages0: Pages, ghost owner0: map<nat, Role>)
      requires Valid() && pgdir in dirs && USER_BASE <= oldSz <= start < 0x1_0000_0000 && start % PAGE_SIZE == 0
      requires MappedBelow(pgdir, start) && ZeroFrom(pgdir, oldSz, start) && top >= 2
      requires DataKept(pages0, pages, owner0) && RolesKept(owner0, owner)
      modifies this`top, this`pages, this`dirs, this`plain, this`owner
      ensures Valid() && dirs == old(dirs) && plain == old(plain) && old(top) - 2 <= top <= old(top)
      ensures MappedBelow(pgdir, start + PAGE_SIZE) && ZeroFrom(pgdir, oldSz, start + PAGE_SIZE)
      ensures OnlyPage(pgdir, start / PAGE_SIZE)
      ensures old(OpenBelow(pages, pgdir, start)) ==> OpenBelow(pages, pgdir, start + PAGE_SIZE)
      ensures DataKept(pages0, pages, owner0) && RolesKept(owner0, owner)
    {
      hide Apart, SameMap, Lookup, PteOf, Entry, UserAccess, OpenTables, OpenBelow, ZeroPages;
      ghost var pages1, owner1, vpn := pages, owner, start / PAGE_SIZE;
      Indices(start);
      var mem := PmmAlloc(Leaf(pgdir, vpn));
      ghost var pages2 := pages;
      SameMapAll(pages1, pages2, pgdir);
      OpenFlags();
      VmmMapUser(pgdir, start, mem, PTE_R + PTE_U);
      CopyEffect(pages1, pages2, pages, dirs, pgdir, vpn);
      SameTables(pages1, pages2, pgdir);
      OneMoreOpen(pages1, pages, pgdir, start, mem);
      assert forall v :: USER_VPN <= v < MAX_VPN && v != vpn ==>
               (v * PAGE_SIZE < start + PAGE_SIZE <==> v * PAGE_SIZE < start);
      ZeroKept(k, pages1, old(pmmStack[..top]), dirs, plain, old(managed), owner1, pages, pgdir, oldSz, start);
      OneMoreZero(pages, pgdir, oldSz, start);
    }

    /** uvm_alloc: the pages from the old size up to the new one are mapped to zeroed frames; none of
        them was mapped before, so none is mapped twice. */
    method UvmAlloc(pgdir: nat, oldSz: nat, newSz: nat) returns (sz: nat)
      requires Valid() && pgdir in dirs && USER_BASE <= oldSz && AlignUp(oldSz) < 0x1_0000_0000 && newSz < 0x1_0000_0000
      requires MappedBelow(pgdir, oldSz)
      requires top + 2 * (AlignUp(oldSz) / PAGE_SIZE) >= 2 * (AlignUp(newSz) / PAGE_SIZE)
      modifies this`top, this`pages, this`dirs, this`plain, this`owner
      ensures Valid() && dirs == old(dirs) && plain == old(plain)
      ensures sz == (if newSz < oldSz then oldSz else newSz) && MappedBelow(pgdir, sz)
      ensures old(OpenBelow(pages, pgdir, oldSz)) ==> OpenBelow(pages, pgdir, sz)
      ensures top <= old(top) && top + 2 * (AlignUp(sz) / PAGE_SIZE) >= old(top) + 2 * (AlignUp(oldSz) / PAGE_SIZE)
      ensures forall v :: 0 <= v < MAX_VPN && v * PAGE_SIZE < oldSz ==>
                Lookup(pages, pgdir, v) == old(Lookup(pages, pgdir, v))
      ensures forall e :: e in dirs && e != pgdir ==> SameMap(old(pages), pages, e)
      ensures ZeroFrom(pgdir, oldSz, sz)
      ensures DataKept(old(pages), pages, old(owner)) && RolesKept(old(owner), owner)
    {
      hide Apart, RolesKept, DataKept, Lookup, PteOf, MapsBelow, SameMap, OpenBelow;
      KeptSelf(pages, owner);
      SameMapsSelf(pages, dirs);
      if newSz < oldSz {
        return oldSz;
      }
      AlignUpBounds(oldSz);
      AlignUpBounds(newSz);
      BelowAligned(pages, pgdir, oldSz);
      OpenAligned(pages, pgdir, oldSz);
      var start := AlignUp(oldSz);
      while start < newSz
        invariant start % PAGE_SIZE == 0 && AlignUp(oldSz) <= start <= AlignUp(newSz)
        invariant Valid() && dirs == old(dirs) && plain == old(plain)
        invariant top <= old(top) && top + 2 * (start / PAGE_SIZE) >= old(top) + 2 * (AlignUp(oldSz) / PAGE_SIZE)
        invariant MappedBelow(pgdir, start) && (old(OpenBelow(pages, pgdir, oldSz)) ==> OpenBelow(pages, pgdir, start))
        invariant forall v :: 0 <= v < MAX_VPN && v * PAGE_SIZE < oldSz ==>
                    Lookup(pages, pgdir, v) == old(Lookup(pages, pgdir, v))
        invariant forall e :: e in dirs && e != pgdir ==> SameMap(old(pages), pages, e)
        invariant ZeroFrom(pgdir, oldSz, start)
        invariant DataKept(old(pages), pages, old(owner)) && RolesKept(old(owner), owner)
      {
        ghost var pages1 := pages;
        AllocPage(pgdir, start, oldSz, old(pages), old(owner));
        SameMapsTwice(old(pages), pages1, pages, dirs - {pgdir});
        NextPage(start);
        start := start + PAGE_SIZE;
      }
      BelowAligned(pages, pgdir, newSz);
      OpenAligned(pages, pgdir, newSz);
      sz := newSz;
    }

    /** A kernel stack or a pipe page is taken. */
    method AllocPlain() returns (f: nat)
      requires Valid() && top > 0
      modifies this`top, this`pages, this`dirs, this`plain, this`owner
      ensures Valid() && dirs == old(dirs) && f !in old(plain) && plain == old(plain) + {f} && top == old(top) - 1
      ensures f < |pages| && pages[f] == Filled(0)
      ensures forall e :: e in dirs ==> SameMap(old(pages), pages, e)
      ensures DataKept(old(pages), pages, old(owner)) && RolesKept(old(owner), owner)
    {
      hide Apart, SameMap;
      f := PmmAlloc(Plain);
    }

    /** A kernel stack or a pipe page is returned: afterwards it counts as neither, so it cannot be
        returned again. */
    method FreePlain(f: nat)
      requires Valid() && f in plain
      modifies this`top, this`pages, this`plain, this`owner, pmmStack
      ensures Valid() && plain == old(plain) - {f} && top == old(top) + 1 <= count && |pages| == |old(pages)|
      ensures f in old(owner) && old(owner)[f] == Plain
      ensures forall e :: e in dirs ==>
                SameMap(old(pages), pages, e) && e < |pages| && e < |old(pages)| && pages[e] == old(pages)[e]
      ensures forall g ::
                g in old(owner) && g != f && g < |pages| && (old(owner)[g].Leaf? || old(owner)[g] == Plain) ==>
                g < |old(pages)| && pages[g] == old(pages)[g] && g in owner && owner[g] == old(owner)[g]
    {
      hide KernelHalf, Identity, UserTables, UserPages, SameMap;
      plain := plain - {f};
      PmmFree(f);
    }

    /** The tables in the first n user entries of a directory. */
    ghost function TablesIn(dir: Page, n: nat): nat
      requires n <= ENTRIES
    {
      if n <= USER_PDE then 0 else TablesIn(dir, n - 1) + if dir[n - 1] != 0 then 1 else 0
    }

    /** The directory d, no longer in use, still says which tables it has. */
    ghost predicate Dying(d: nat, dir: Page, i: nat)
      reads this
    {
      && d < |pages| && pages[d] == dir && d !in dirs && d !in plain && d in owner && owner[d] == Directory
      && forall j :: i <= j < ENTRIES && dir[j] != 0 ==>
           Present(dir[j]) && Frame(dir[j]) in owner && owner[Frame(dir[j])] == Table(d, j)
    }

    /** uvm_free: the directory and its user tables are returned, each once; the pages they mapped are
        not.  Nothing else in use changes. */
    method UvmFree(pgdir: nat)
      requires Valid() && pgdir in dirs
      modifies this`top, this`pages, this`dirs, this`owner, pmmStack
      ensures Valid() && dirs == old(dirs) - {pgdir}
      ensures pgdir < |old(pages)| && top == old(top) + 1 + TablesIn(old(pages)[pgdir], ENTRIES) <= count
      ensures forall e :: e in dirs ==> SameMap(old(pages), pages, e)
      ensures DataStays(old(pages), pages, old(owner), owner)
    {
      hide Identity, UserPages, SameMap, KernelHalf, Apart, DataStays;
      Retire(pgdir);
      ghost var dir := pages[pgdir];
      SameMapsSelf(pages, dirs);
      StaysSelf(pages, owner);
      var i := USER_PDE;
      while i < ENTRIES
        invariant USER_PDE <= i <= ENTRIES
        invariant Valid() && dirs == old(dirs) - {pgdir} && plain == old(plain) && Dying(pgdir, dir, i)
        invariant top == old(top) + TablesIn(dir, i)
        invariant forall e :: e in dirs ==> SameMap(old(pages), pages, e)
        invariant DataStays(old(pages), pages, old(owner), owner)
      {
        if Present(pages[pgdir][i]) {
          ghost var pages1, owner1 := pages, owner;
          FreeTable(pgdir, i, dir);
          SameMapsTwice(old(pages), pages1, pages, dirs);
          StaysTwice(old(pages), pages1, pages, old(owner), owner1, owner);
        }
        i := i + 1;
      }
      ghost var pages1, owner1 := pages, owner;
      FreeFrame(pgdir);
      SameMapsTwice(old(pages), pages1, pages, dirs);
      StaysTwice(old(pages), pages1, pages, old(owner), owner1, owner);
    }

    /** From here on the directory is not in use. */
    ghost method Retire(pgdir: nat)
      requires Valid() && pgdir in dirs
      modifies this`dirs
      ensures Valid() && dirs == old(dirs) - {pgdir} && pgdir < |pages| && Dying(pgdir, pages[pgdir], USER_PDE)
    {
      dirs := dirs - {pgdir};
    }

    method FreeTable(pgdir: nat, i: nat, ghost dir: Page)
      requires Valid() && Dying(pgdir, dir, i) && USER_PDE <= i < ENTRIES && Present(dir[i])
      modifies this`top, this`pages, this`owner, pmmStack
      ensures Valid() && Dying(pgdir, dir, i + 1) && top == old(top) + 1
      ensures forall e :: e in dirs ==> SameMap(old(pages), pages, e)
      ensures DataStays(old(pages), pages, old(owner), owner)
    {
      hide SameMap;
      PmmFree(Frame(pages[pgdir][i]));
    }

    method FreeFrame(pgdir: nat)
      requires Valid() && pgdir !in dirs && pgdir !in plain && pgdir in owner && owner[pgdir] == Directory
      modifies this`top, this`pages, this`owner, pmmStack
      ensures Valid() && top == old(top) + 1 <= count
      ensures forall e :: e in dirs ==> SameMap(old(pages), pages, e)
      ensures DataStays(old(pages), pages, old(owner), owner)
    {
      hide SameMap;
      PmmFree(pgdir);
    }
  }

  lemma PageStep(i: nat, size: nat)
    requires i < size && i % PAGE_SIZE == 0 && USER_BASE + size <= 0x1_0000_0000
    ensures (i + PAGE_SIZE) / PAGE_SIZE == i / PAGE_SIZE + 1 <= Pages4k(size) && (i + PAGE_SIZE) % PAGE_SIZE == 0
    ensures (USER_BASE + i) / PAGE_SIZE == USER_VPN + i / PAGE_SIZE < MAX_VPN
    ensures i / PAGE_SIZE * PAGE_SIZE == i
  {
  }

  /** A directory with an empty user half maps no user page and has no user table. */
  lemma EmptyUserHalf(k: Layout, pages: Pages, stack: seq<nat>, dirs: set<nat>, plain: set<nat>, managed: set<nat>,
                      owner: map<nat, Role>, d: nat)
    requires Apart(k, pages, stack, dirs, plain, managed, owner) && d in dirs && d < |pages|
    requires forall i :: USER_PDE <= i < ENTRIES ==> pages[d][i] == 0
    ensures forall v :: USER_VPN <= v < MAX_VPN ==> Lookup(pages, d, v) == None && pages[d][v / ENTRIES] == 0
  {
    forall v | USER_VPN <= v < MAX_VPN ensures Lookup(pages, d, v) == None && pages[d][v / ENTRIES] == 0 {
      assert USER_PDE <= v / ENTRIES < ENTRIES;
    }

  }

  /** PAGE_ALIGN_UP */
  function AlignUp(x: nat): nat { (x + PAGE_SIZE - 1) / PAGE_SIZE * PAGE_SIZE }

  lemma AlignUpBounds(x: nat)
    ensures x <= AlignUp(x) < x + PAGE_SIZE && AlignUp(x) % PAGE_SIZE == 0
    ensures forall v: nat :: v * PAGE_SIZE < x <==> v * PAGE_SIZE < AlignUp(x)
  {
    var q := (x + PAGE_SIZE - 1) / PAGE_SIZE;
    forall v: nat ensures v * PAGE_SIZE < x <==> v * PAGE_SIZE < q * PAGE_SIZE {
    }
  }

  lemma BelowAligned(pages: Pages, d: nat, sz: nat)
    ensures MapsBelow(pages, d, AlignUp(sz)) <==> MapsBelow(pages, d, sz)
  {
    AlignUpBounds(sz);
  }

  lemma KeptSelf(pages: Pages, owner: map<nat, Role>)
    ensures DataKept(pages, pages, owner) && RolesKept(owner, owner)
  {
  }

  lemma SameMapAll(pages: Pages, pages': Pages, d: nat)
    requires SameMap(pages, pages', d)
    ensures forall v :: 0 <= v < MAX_VPN ==> Lookup(pages', d, v) == Lookup(pages, d, v)
  {
  }

  lemma SameMapAt(pages: Pages, pages': Pages, d: nat, v: nat)
    requires SameMap(pages, pages', d) && v < MAX_VPN
    ensures Lookup(pages', d, v) == Lookup(pages, d, v)
  {
  }

  lemma LeafFrame(k: Layout, pages: Pages, stack: seq<nat>, dirs: set<nat>, plain: set<nat>, managed: set<nat>,
                  owner: map<nat, Role>, d: nat, v: nat)
    requires Apart(k, pages, stack, dirs, plain, managed, owner) && d in dirs && USER_VPN <= v < MAX_VPN
    requires Lookup(pages, d, v).Some?
    ensures var f := Lookup(pages, d, v).value; f in owner && owner[f] == Leaf(d, v) && f < |pages|
  {
  }

  /** First all mappings the same, then all but one. */
  lemma CopyEffect(pages0: Pages, pages1: Pages, pages2: Pages, dirs: set<nat>, pgd: nat, vpn: nat)
    requires forall d :: d in dirs ==> SameMap(pages0, pages1, d)
    requires forall v :: 0 <= v < MAX_VPN && v != vpn ==>
               && Lookup(pages2, pgd, v) == Lookup(pages1, pgd, v)
               && (v >= USER_VPN ==> PteOf(pages2, pgd, v) == PteOf(pages1, pgd, v))
               && (v >= USER_VPN && Lookup(pages1, pgd, v).Some? ==> PdeOf(pages2, pgd, v) == PdeOf(pages1, pgd, v))
    requires forall e :: e in dirs && e != pgd ==> SameMap(pages1, pages2, e)
    requires pgd in dirs
    ensures forall v :: 0 <= v < MAX_VPN && v != vpn ==>
              && Lookup(pages2, pgd, v) == Lookup(pages0, pgd, v)
              && (v >= USER_VPN ==> PteOf(pages2, pgd, v) == PteOf(pages0, pgd, v))
              && (v >= USER_VPN && Lookup(pages0, pgd, v).Some? ==> PdeOf(pages2, pgd, v) == PdeOf(pages0, pgd, v))
    ensures forall e :: e in dirs && e != pgd ==> SameMap(pages0, pages2, e)
  {
  }

  lemma ZeroKept(k: Layout, pages: Pages, stack: seq<nat>, dirs: set<nat>, plain: set<nat>, managed: set<nat>,
                 owner: map<nat, Role>,
                 pages': Pages, d: nat, lo: nat, hi: nat)
    requires Apart(k, pages, stack, dirs, plain, managed, owner) && d in dirs && DataKept(pages, pages', owner)
    requires ZeroPages(pages, d, lo, hi)
    requires forall v :: USER_VPN <= v < MAX_VPN && lo <= v * PAGE_SIZE < hi ==>
               Lookup(pages', d, v) == Lookup(pages, d, v)
    ensures ZeroPages(pages', d, lo, hi)
  {
    hide Lookup, Apart;
    forall v | USER_VPN <= v < MAX_VPN && lo <= v * PAGE_SIZE < hi
      ensures Lookup(pages', d, v).Some? && Lookup(pages', d, v).value < |pages'|
      ensures pages'[Lookup(pages', d, v).value] == Filled(0)
    {
      LeafFrame(k, pages, stack, dirs, plain, managed, owner, d, v);
    }
  }

  lemma OneMoreZero(pages: Pages, d: nat, lo: nat, start: nat)
    requires ZeroPages(pages, d, lo, start) && start % PAGE_SIZE == 0 && start / PAGE_SIZE < MAX_VPN
    requires Lookup(pages, d, start / PAGE_SIZE).Some? && Lookup(pages, d, start / PAGE_SIZE).value < |pages|
    requires pages[Lookup(pages, d, start / PAGE_SIZE).value] == Filled(0)
    ensures ZeroPages(pages, d, lo, start + PAGE_SIZE)
  {
    hide Lookup;
    assert forall v :: v != start / PAGE_SIZE ==> (v * PAGE_SIZE < start + PAGE_SIZE <==> v * PAGE_SIZE < start);
  }

  lemma SameTables(pages: Pages, pages': Pages, d: nat)
    requires d < |pages| && d < |pages'| && pages'[d] == pages[d]
    ensures OpenTables(pages', d) == OpenTables(pages, d)
  {
  }

  /** A page that is mapped for user programs is open to them when all user tables are. */
  lemma OneMoreOpen(pages: Pages, pages': Pages, d: nat, start: nat, f: nat)
    requires start % PAGE_SIZE == 0 && USER_BASE <= start < 0x1_0000_0000 && f < MAX_VPN
    requires OpenTables(pages, d) ==> OpenTables(pages', d)
    requires start / PAGE_SIZE < MAX_VPN && PteOf(pages', d, start / PAGE_SIZE) == Entry(f, PTE_R + PTE_U)
    requires forall v :: USER_VPN <= v < MAX_VPN && v != start / PAGE_SIZE ==> PteOf(pages', d, v) == PteOf(pages, d, v)
    ensures OpenBelow(pages, d, start) ==> OpenBelow(pages', d, start + PAGE_SIZE)
  {
    hide PteOf, Entry, OpenTables, UserAccess;
    OpenEntry(f, PTE_R + PTE_U);
    OpenFlags();
    assert forall v :: USER_VPN <= v < MAX_VPN && v != start / PAGE_SIZE ==>
             (v * PAGE_SIZE < start + PAGE_SIZE <==> v * PAGE_SIZE < start);
  }

  lemma OpenEntry(f: nat, flags: nat)
    requires f < MAX_VPN && flags < PAGE_SIZE
    ensures UserAccess(Entry(f, flags)) <==> UserAccess(flags)
    ensures Entry(f, flags) / PTE_U % 2 == flags / PTE_U % 2
  {
    var g := if flags % 2 == 0 then flags + 1 else flags;
    assert g / 2 == flags / 2 && g / 4 == flags / 4;
    Quarter(f, g);
    Half(f, g);
  }

  lemma OpenFlags()
    ensures UserAccess(PTE_R + PTE_U)
  {
  }

  lemma Half(f: nat, g: nat)
    ensures (PAGE_SIZE * f + g) / 2 % 2 == g / 2 % 2
  {
    var q := g / 2;
    assert PAGE_SIZE * f + g == 2 * (2048 * f + q) + g % 2;
    assert (PAGE_SIZE * f + g) / 2 == 2048 * f + q;
    Mod2(1024 * f, q);
    assert 2048 * f + q == 2 * (1024 * f) + q;
  }

  lemma Quarter(f: nat, g: nat)
    ensures (PAGE_SIZE * f + g) / 4 % 2 == g / 4 % 2
  {
    var q := g / 4;
    assert PAGE_SIZE * f + g == 4 * (1024 * f + q) + g % 4;
    Div4(1024 * f + q, g % 4);
    Mod2(512 * f, q);
    assert 1024 * f + q == 2 * (512 * f) + q;
  }

  lemma Div4(k: nat, r: nat)
    requires r < 4
    ensures (4 * k + r) / 4 == k
  {
  }

  lemma Mod2(k: nat, q: nat)
    ensures (2 * k + q) % 2 == q % 2
  {
  }

  lemma NextPage(start: nat)
    requires start % PAGE_SIZE == 0
    ensures (start + PAGE_SIZE) / PAGE_SIZE == start / PAGE_SIZE + 1 && (start + PAGE_SIZE) % PAGE_SIZE == 0
  {
  }

  /** The entry of a page's 4 MB is missing exactly at its first page. */
  lemma NextKernelPage(addr: nat)
    requires addr % PAGE_SIZE == 0
    ensures (addr + PAGE_SIZE) / PAGE_SIZE == addr / PAGE_SIZE + 1 && (addr + PAGE_SIZE) % PAGE_SIZE == 0
    ensures forall i: nat :: i * ENTRIES < addr / PAGE_SIZE + 1 <==>
              i * ENTRIES < addr / PAGE_SIZE || i == addr / PAGE_SIZE / ENTRIES
  {
    var n := addr / PAGE_SIZE;
    forall i: nat ensures i * ENTRIES < n + 1 <==> i * ENTRIES < n || i == n / ENTRIES {
      assert n == ENTRIES * (n / ENTRIES) + n % ENTRIES;
    }
  }

  lemma LayoutBound(k: Layout, pages: Pages, stack: seq<nat>, dirs: set<nat>, plain: set<nat>, managed: set<nat>,
                    owner: map<nat, Role>)
    requires Apart(k, pages, stack, dirs, plain, managed, owner)
    ensures |pages| == k.top <= USER_VPN
  {
  }

  lemma KernelIndices(va: nat, k: Layout)
    requires va / PAGE_SIZE < k.top <= USER_VPN
    ensures va < USER_BASE && va / PAGE_SIZE < MAX_VPN
    ensures PdeIndex(va) == va / PAGE_SIZE / ENTRIES < USER_PDE && PteIndex(va) == va / PAGE_SIZE % ENTRIES
  {
  }

  lemma InDirectories(k: Layout, pages: Pages, dirs: set<nat>, owner: map<nat, Role>, d: nat)
    requires Directories(k, pages, dirs, owner) && d in dirs
    ensures d < |pages|
  {
  }

  lemma SameMapsSelf(pages: Pages, dirs: set<nat>)
    ensures forall d :: d in dirs ==> SameMap(pages, pages, d)
  {
  }

  lemma SameMapsTwice(pages0: Pages, pages1: Pages, pages2: Pages, dirs: set<nat>)
    requires forall d :: d in dirs ==> SameMap(pages0, pages1, d) && SameMap(pages1, pages2, d)
    ensures forall d :: d in dirs ==> SameMap(pages0, pages2, d)
  {
  }
}
