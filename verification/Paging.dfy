/** Physical pages, two-level page tables and who owns which page frame (mm/pmm.c, mm/vmm.c),
    on values.  Frames and pages are numbered; address = 4096 * number. */
module Paging {
  import opened Wrappers
  import Sets

  const PAGE_SIZE: nat := 4096
  const ENTRIES: nat := 1024       // words of a page, entries of a table or directory
  const USER_PDE: nat := 768       // PDE_INDEX(USER_BASE)
  const USER_VPN: nat := 786432    // USER_BASE / PAGE_SIZE
  const MAX_VPN: nat := 1048576

  type Word = x: int | 0 <= x < 0x1_0000_0000

  type Page = p: seq<Word> | |p| == ENTRIES witness seq(ENTRIES, i => 0)

  type Pages = seq<Page>

  function Filled(w: Word): (p: Page)
    ensures forall i :: 0 <= i < ENTRIES ==> p[i] == w
  {
    seq(ENTRIES, i => w)
  }

  /** `e & PAGE_MASK`, as a frame number. */
  function Frame(e: Word): nat { e / PAGE_SIZE }

  predicate Present(e: Word) { e % 2 == 1 }

  /** `(frame << 12) | PTE_P | flags` with flags below the frame bits. */
  function Entry(f: nat, flags: nat): (e: Word)
    requires f < MAX_VPN && flags < PAGE_SIZE
    ensures Frame(e) == f && Present(e)
  {
    PAGE_SIZE * f + if flags % 2 == 0 then flags + 1 else flags
  }

  /** The entry that vmm_get_mapping looks at, 0 when there is no table. */
  function PteOf(pages: Pages, d: nat, vpn: nat): Word
    requires vpn < MAX_VPN
  {
    if d >= |pages| then 0 else
      var t := Frame(pages[d][vpn / ENTRIES]);
      if t == 0 || t >= |pages| then 0 else pages[t][vpn % ENTRIES]
  }

  /** The directory's entry for the table. */
  function PdeOf(pages: Pages, d: nat, vpn: nat): Word
    requires vpn < MAX_VPN
  {
    if d < |pages| then pages[d][vpn / ENTRIES] else 0
  }

  const PTE_R: nat := 2 // read and write
  const PTE_U: nat := 4

  /** An entry of a directory or table lets user programs through, to read and to write. */
  predicate UserAccess(e: Word) { e / PTE_U % 2 == 1 && e / PTE_R % 2 == 1 }

  /** User programs can get at a page when both of its entries let them through. */
  predicate UserCan(pages: Pages, d: nat, vpn: nat)
    requires vpn < MAX_VPN
  {
    UserAccess(PdeOf(pages, d, vpn)) && UserAccess(PteOf(pages, d, vpn))
  }

  /** vmm_get_mapping: the frame a page is mapped to. */
  function Lookup(pages: Pages, d: nat, vpn: nat): Option<nat>
    requires vpn < MAX_VPN
  {
    var e := PteOf(pages, d, vpn);
    if e != 0 && Present(e) then Some(Frame(e)) else None
  }

  // ---------------------------------------------------------------------------------------
  // Ownership

  /** What a frame is used for.  FreeAt(i) is position i of the free stack. */
  datatype Role = Kernel | FreeAt(i: nat) | Directory | Table(d: nat, i: nat) | Leaf(d: nat, vpn: nat) | Plain

  /** Where the kernel keeps its static tables: pte_kern starts at frame `pt`; memory has `top` frames. */
  datatype Layout = Layout(pt: nat, top: nat)

  ghost predicate IsLayout(k: Layout) { 0 < k.pt && k.pt + ENTRIES <= k.top <= USER_VPN }

  /** The kernel half of a directory points at the shared tables, or nowhere. */
  ghost predicate KernelHalf(k: Layout, dir: Page) {
    forall i :: 0 <= i < USER_PDE && Frame(dir[i]) != 0 ==> Frame(dir[i]) == k.pt + i
  }

  /** The shared tables map every page of memory but the first to itself, and the first nowhere. */
  ghost predicate Identity(k: Layout, pages: Pages) {
    && k.pt + ENTRIES <= |pages| && k.top <= USER_VPN
    && pages[k.pt][0] == 0
    && forall vpn :: 1 <= vpn < k.top ==>
         Present(pages[k.pt + vpn / ENTRIES][vpn % ENTRIES]) && Frame(pages[k.pt + vpn / ENTRIES][vpn % ENTRIES]) == vpn
  }

  /** The free stack holds no frame twice and no frame in use. */
  ghost predicate Stacked(stack: seq<nat>, owner: map<nat, Role>) {
    forall i :: 0 <= i < |stack| ==> stack[i] in owner && owner[stack[i]] == FreeAt(i)
  }

  ghost predicate Directories(k: Layout, pages: Pages, dirs: set<nat>, owner: map<nat, Role>) {
    forall d :: d in dirs ==> d < |pages| && d in owner && owner[d] == Directory && KernelHalf(k, pages[d])
  }

  /** A user table belongs to one entry of one directory. */
  ghost predicate UserTables(pages: Pages, dirs: set<nat>, owner: map<nat, Role>) {
    forall d, i :: d in dirs && USER_PDE <= i < ENTRIES && d < |pages| && pages[d][i] != 0 ==>
      Present(pages[d][i]) && Frame(pages[d][i]) in owner && owner[Frame(pages[d][i])] == Table(d, i)
  }

  /** A user page belongs to one address of one directory. */
  ghost predicate UserPages(pages: Pages, dirs: set<nat>, owner: map<nat, Role>) {
    forall d, vpn :: d in dirs && USER_VPN <= vpn < MAX_VPN && Lookup(pages, d, vpn).Some? ==>
      Lookup(pages, d, vpn).value in owner && owner[Lookup(pages, d, vpn).value] == Leaf(d, vpn)
  }

  ghost predicate Frames(k: Layout, plain: set<nat>, managed: set<nat>, owner: map<nat, Role>) {
    && (forall f :: k.pt <= f < k.pt + ENTRIES ==> f in owner && owner[f] == Kernel)
    && (forall f :: f in plain ==> f in owner && owner[f] == Plain)
    && (forall f :: f in owner ==> f < k.top && (owner[f] != Kernel ==> f in managed && f > 0))
  }

  /** Every frame in use has one use: the free stack, directories, user tables, mapped user pages,
      kernel stacks and pipe pages (Plain), and the kernel's static tables are all apart. */
  ghost predicate Apart(k: Layout, pages: Pages, stack: seq<nat>, dirs: set<nat>, plain: set<nat>,
                        managed: set<nat>, owner: map<nat, Role>)
  {
    && IsLayout(k) && |pages| == k.top && Identity(k, pages)
    && Stacked(stack, owner) && Frames(k, plain, managed, owner)
    && Directories(k, pages, dirs, owner) && UserTables(pages, dirs, owner) && UserPages(pages, dirs, owner)
  }

  // ---------------------------------------------------------------------------------------
  // Steps

  /** Directory d reaches the same frames in both memories, user pages through the same entries. */
  ghost predicate SameMap(pages: Pages, pages': Pages, d: nat) {
    forall vpn :: 0 <= vpn < MAX_VPN ==>
      && Lookup(pages', d, vpn) == Lookup(pages, d, vpn)
      && (vpn >= USER_VPN ==> PteOf(pages', d, vpn) == PteOf(pages, d, vpn))
      && (vpn >= USER_VPN && Lookup(pages, d, vpn).Some? ==> PdeOf(pages', d, vpn) == PdeOf(pages, d, vpn))
  }

  /** A frame that holds no directory or table in use. */
  ghost predicate NoTable(k: Layout, dirs: set<nat>, owner: map<nat, Role>, f: nat) {
    && f in owner && owner[f] != Kernel && f !in dirs
    && forall d, i :: d in dirs ==> owner[f] != Table(d, i)
  }

  /** Its contents do not matter to any directory's mapping. */
  lemma ContentsWrite(k: Layout, pages: Pages, stack: seq<nat>, dirs: set<nat>, plain: set<nat>, managed: set<nat>,
                      owner: map<nat, Role>,
                      f: nat, p: Page)
    requires Apart(k, pages, stack, dirs, plain, managed, owner) && NoTable(k, dirs, owner, f)
    ensures f < |pages| && Apart(k, pages[f := p], stack, dirs, plain, managed, owner)
    ensures forall d :: d in dirs ==> SameMap(pages, pages[f := p], d) && pages[f := p][d] == pages[d]
  {
    var pages' := pages[f := p];
    assert f < |pages|;
    assert Identity(k, pages');
    forall d, vpn | d in dirs && 0 <= vpn < MAX_VPN
      ensures PteOf(pages', d, vpn) == PteOf(pages, d, vpn) && Lookup(pages', d, vpn) == Lookup(pages, d, vpn)
    {
      TableFrame(k, pages, stack, dirs, plain, managed, owner, d, vpn);
    }
  }

  /** The frame of a table in use: one of the kernel's, or one owned by its directory entry. */
  lemma TableFrame(k: Layout, pages: Pages, stack: seq<nat>, dirs: set<nat>, plain: set<nat>, managed: set<nat>,
                   owner: map<nat, Role>,
                   d: nat, vpn: nat)
    requires Apart(k, pages, stack, dirs, plain, managed, owner) && d in dirs && vpn < MAX_VPN
    ensures d < |pages|
    ensures var t := Frame(pages[d][vpn / ENTRIES]);
            t != 0 ==> t < |pages| && t in owner && owner[t] == if vpn < USER_VPN then Kernel
                else Table(d, vpn / ENTRIES)
  {
    var i := vpn / ENTRIES;
    if Frame(pages[d][i]) != 0 {
      if vpn < USER_VPN {
        assert i < USER_PDE;
      } else {
        assert i >= USER_PDE;
      }
    }
  }

  /** pmm_alloc: the top frame of the stack, zeroed, gets its new role. */
  lemma AllocStep(k: Layout, pages: Pages, stack: seq<nat>, dirs: set<nat>, plain: set<nat>, managed: set<nat>,
                  owner: map<nat, Role>, r: Role)
    requires Apart(k, pages, stack, dirs, plain, managed, owner) && stack != []
    requires r != Kernel && !r.FreeAt?
    ensures var f, n := stack[|stack| - 1], |stack| - 1;
            && 0 < f < |pages| && f !in dirs && f !in plain
            && Apart(k, pages[f := Filled(0)], stack[..n], if r == Directory then dirs + {f} else dirs,
                     if r == Plain then plain + {f} else plain, managed, owner[f := r])
            && forall d :: d in dirs ==>
                SameMap(pages, pages[f := Filled(0)], d) && pages[f := Filled(0)][d] == pages[d]
  {
    var f, n := stack[|stack| - 1], |stack| - 1;
    ContentsWrite(k, pages, stack, dirs, plain, managed, owner, f, Filled(0));
    var pages' := pages[f := Filled(0)];
    var dirs' := if r == Directory then dirs + {f} else dirs;
    assert KernelHalf(k, Filled(0));
    assert Directories(k, pages', dirs', owner[f := r]);
    forall d, vpn | d in dirs' && USER_VPN <= vpn < MAX_VPN && Lookup(pages', d, vpn).Some?
      ensures d in dirs && Lookup(pages', d, vpn) == Lookup(pages, d, vpn)
    {
    }
  }

  lemma HungEntries(k: Layout, pages: Pages, stack: seq<nat>, dirs: set<nat>, plain: set<nat>, managed: set<nat>,
                    owner: map<nat, Role>,
                    d: nat, i: nat, t: nat, flags: nat)
    requires Apart(k, pages, stack, dirs, plain, managed, owner) && d in dirs && USER_PDE <= i < ENTRIES
    requires d < |pages| && pages[d][i] == 0 && 0 < t < |pages| && t != d && pages[t] == Filled(0) && flags < PAGE_SIZE
    ensures forall e, vpn :: e in dirs && 0 <= vpn < MAX_VPN ==>
              PteOf(pages[d := pages[d][i := Entry(t, flags)]], e, vpn) == PteOf(pages, e, vpn)
  {
    var pages' := pages[d := pages[d][i := Entry(t, flags)]];
    forall e, vpn | e in dirs && 0 <= vpn < MAX_VPN ensures PteOf(pages', e, vpn) == PteOf(pages, e, vpn) {
      TableFrame(k, pages, stack, dirs, plain, managed, owner, e, vpn);
      hide Apart;
      if e == d && vpn / ENTRIES == i {
        assert PteOf(pages', e, vpn) == 0;
      }
    }
  }

  /** A new table, still empty, is hung into an empty user entry: no mapping changes. */
  lemma HangTable(k: Layout, pages: Pages, stack: seq<nat>, dirs: set<nat>, plain: set<nat>, managed: set<nat>,
                  owner: map<nat, Role>,
                  d: nat, i: nat, t: nat, flags: nat)
    requires Apart(k, pages, stack, dirs, plain, managed, owner) && d in dirs && USER_PDE <= i < ENTRIES
    requires d < |pages| && pages[d][i] == 0 && t in owner && owner[t] == Table(d, i) && 0 < t < |pages|
    requires pages[t] == Filled(0)
    requires flags < PAGE_SIZE
    ensures var pages' := pages[d := pages[d][i := Entry(t, flags)]];
            && Apart(k, pages', stack, dirs, plain, managed, owner)
            && forall e :: e in dirs ==> SameMap(pages, pages', e)
  {
    var pages' := pages[d := pages[d][i := Entry(t, flags)]];
    assert pages'[t] == pages[t];
    HungEntries(k, pages, stack, dirs, plain, managed, owner, d, i, t, flags);
    forall e, vpn | e in dirs && 0 <= vpn < MAX_VPN ensures Lookup(pages', e, vpn) == Lookup(pages, e, vpn) {
      hide PteOf;
    }
    assert Identity(k, pages') by { assert !(k.pt <= d < k.pt + ENTRIES); }
  }

  /** A page of directory d is mapped to a frame of its own: exactly this mapping changes, and no
      other directory's. */
  lemma SetMapping(k: Layout, pages: Pages, stack: seq<nat>, dirs: set<nat>, plain: set<nat>, managed: set<nat>,
                   owner: map<nat, Role>,
                   d: nat, vpn: nat, w: Word)
    requires Apart(k, pages, stack, dirs, plain, managed, owner) && d in dirs && USER_VPN <= vpn < MAX_VPN
    requires d < |pages| && pages[d][vpn / ENTRIES] != 0
    requires w != 0 && Present(w) ==> Frame(w) in owner && owner[Frame(w)] == Leaf(d, vpn)
    ensures 0 < Frame(pages[d][vpn / ENTRIES]) < |pages| && Frame(pages[d][vpn / ENTRIES]) !in dirs
    ensures var t := Frame(pages[d][vpn / ENTRIES]);
            var pages' := pages[t := pages[t][vpn % ENTRIES := w]];
            && Apart(k, pages', stack, dirs, plain, managed, owner)
            && PteOf(pages', d, vpn) == w
            && Lookup(pages', d, vpn) == (if w != 0 && Present(w) then Some(Frame(w)) else None)
            && (forall v :: 0 <= v < MAX_VPN && v != vpn ==>
                  Lookup(pages', d, v) == Lookup(pages, d, v) && PteOf(pages', d, v) == PteOf(pages, d, v))
            && (forall e :: e in dirs && e != d ==> SameMap(pages, pages', e))
  {
    var i := vpn / ENTRIES;
    var t := Frame(pages[d][i]);
    assert i >= USER_PDE;
    assert t in owner && owner[t] == Table(d, i);
    var pages' := pages[t := pages[t][vpn % ENTRIES := w]];
    forall e, v | e in dirs && 0 <= v < MAX_VPN && !(e == d && v == vpn)
      ensures PteOf(pages', e, v) == PteOf(pages, e, v) && Lookup(pages', e, v) == Lookup(pages, e, v)
    {
      TableFrame(k, pages, stack, dirs, plain, managed, owner, e, v);
      assert v / ENTRIES == i && v % ENTRIES == vpn % ENTRIES ==> v == vpn;
    }
    assert Identity(k, pages') by { assert !(k.pt <= t < k.pt + ENTRIES); }
  }

  /** pmm_free of a frame nothing uses any more. */
  lemma FreeStep(k: Layout, pages: Pages, stack: seq<nat>, dirs: set<nat>, plain: set<nat>, managed: set<nat>,
                 owner: map<nat, Role>,
                 f: nat, p: Page)
    requires Apart(k, pages, stack, dirs, plain, managed, owner) && NoTable(k, dirs, owner, f)
    requires f !in plain && !owner[f].FreeAt? && !owner[f].Leaf?
    ensures f < |pages|
    ensures Apart(k, pages[f := p], stack + [f], dirs, plain, managed, owner[f := FreeAt(|stack|)])
    ensures forall d :: d in dirs ==> SameMap(pages, pages[f := p], d) && pages[f := p][d] == pages[d]
  {
    ContentsWrite(k, pages, stack, dirs, plain, managed, owner, f, p);
    var pages', owner' := pages[f := p], owner[f := FreeAt(|stack|)];
    forall d, vpn | d in dirs && USER_VPN <= vpn < MAX_VPN && Lookup(pages', d, vpn).Some?
      ensures Lookup(pages', d, vpn) == Lookup(pages, d, vpn)
    {
    }
  }

  ghost function ToSet(s: seq<nat>): (r: set<nat>)
    ensures forall x :: x in r <==> x in s
  {
    set x | x in s
  }

  lemma {:induction false} DistinctCount(s: seq<nat>)
    requires forall i, j :: 0 <= i < j < |s| ==> s[i] != s[j]
    ensures |ToSet(s)| == |s|
  {
    if s != [] {
      DistinctCount(s[..|s| - 1]);
      assert ToSet(s) == ToSet(s[..|s| - 1]) + {s[|s| - 1]};
      assert s[|s| - 1] !in ToSet(s[..|s| - 1]);
    } else {
      assert ToSet(s) == {};
    }
  }

  /** The stack never outgrows the number of frames it was filled with: a frame that is returned was
      not on it. */
  lemma StackRoom(k: Layout, pages: Pages, stack: seq<nat>, dirs: set<nat>, plain: set<nat>, managed: set<nat>,
                  owner: map<nat, Role>, f: nat)
    requires Apart(k, pages, stack, dirs, plain, managed, owner) && f in owner && owner[f] != Kernel
    requires !owner[f].FreeAt?
    ensures |stack| + 1 <= |managed|
  {
    var s := stack + [f];
    assert forall i, j :: 0 <= i < j < |s| ==> s[i] != s[j];
    DistinctCount(s);
    forall x | x in ToSet(s) ensures x in managed {
      var i :| 0 <= i < |s| && s[i] == x;
    }
    Sets.SubsetSize(ToSet(s), managed);
  }

  // ---------------------------------------------------------------------------------------
  // The shared kernel tables

  /** The kernel's entry for 4 MB number i goes into a directory: those pages become visible there. */
  lemma HangKernelTable(k: Layout, pages: Pages, stack: seq<nat>, dirs: set<nat>, plain: set<nat>,
                        managed: set<nat>, owner: map<nat, Role>,
                        d: nat, i: nat, flags: nat)
    requires Apart(k, pages, stack, dirs, plain, managed, owner) && d in dirs && i < USER_PDE && flags < PAGE_SIZE
    ensures d < |pages|
    ensures var pages' := pages[d := pages[d][i := Entry(k.pt + i, flags)]];
            && Apart(k, pages', stack, dirs, plain, managed, owner)
            && (forall e :: e in dirs && e != d ==> SameMap(pages, pages', e))
            && (forall v :: 0 <= v < MAX_VPN && v / ENTRIES != i ==> Lookup(pages', d, v) == Lookup(pages, d, v))
  {
    var pages' := pages[d := pages[d][i := Entry(k.pt + i, flags)]];
    forall e, v | e in dirs && 0 <= v < MAX_VPN && !(e == d && v / ENTRIES == i)
      ensures Lookup(pages', e, v) == Lookup(pages, e, v)
    {
      TableFrame(k, pages, stack, dirs, plain, managed, owner, e, v);
    }
    assert Identity(k, pages') by { assert !(k.pt <= d < k.pt + ENTRIES); }
    forall e, v | e in dirs && USER_VPN <= v < MAX_VPN ensures Lookup(pages', e, v) == Lookup(pages, e, v) {
      assert v / ENTRIES != i;
    }
  }

  lemma IdentityAgain(k: Layout, pages: Pages, vpn: nat, flags: nat)
    requires IsLayout(k) && |pages| == k.top && Identity(k, pages) && 1 <= vpn < k.top && flags < PAGE_SIZE
    ensures Identity(k, pages[k.pt + vpn / ENTRIES := pages[k.pt + vpn / ENTRIES][vpn % ENTRIES := Entry(vpn, flags)]])
  {
    var t := k.pt + vpn / ENTRIES;
    var pages' := pages[t := pages[t][vpn % ENTRIES := Entry(vpn, flags)]];
    hide Entry;
    forall v | 1 <= v < k.top
      ensures Present(pages'[k.pt + v / ENTRIES][v % ENTRIES]) && Frame(pages'[k.pt + v / ENTRIES][v % ENTRIES]) == v
    {
      assert v / ENTRIES == vpn / ENTRIES && v % ENTRIES == vpn % ENTRIES ==> v == vpn;
    }
  }

  /** Writing an identity entry again leaves every directory's mapping as it is. */
  lemma RewriteIdentity(k: Layout, pages: Pages, stack: seq<nat>, dirs: set<nat>, plain: set<nat>,
                        managed: set<nat>, owner: map<nat, Role>,
                        vpn: nat, flags: nat)
    requires Apart(k, pages, stack, dirs, plain, managed, owner) && 1 <= vpn < k.top && flags < PAGE_SIZE
    ensures k.pt + vpn / ENTRIES < |pages|
    ensures var t := k.pt + vpn / ENTRIES;
            var pages' := pages[t := pages[t][vpn % ENTRIES := Entry(vpn, flags)]];
            && Apart(k, pages', stack, dirs, plain, managed, owner)
            && (forall e :: e in dirs ==> SameMap(pages, pages', e) && pages'[e] == pages[e])
  {
    var t := k.pt + vpn / ENTRIES;
    var pages' := pages[t := pages[t][vpn % ENTRIES := Entry(vpn, flags)]];
    IdentityAgain(k, pages, vpn, flags);
    assert t in owner && owner[t] == Kernel && t !in dirs;
    forall e, v | e in dirs && 0 <= v < MAX_VPN
      ensures Lookup(pages', e, v) == Lookup(pages, e, v)
      ensures v >= USER_VPN ==> PteOf(pages', e, v) == PteOf(pages, e, v)
    {
      TableFrame(k, pages, stack, dirs, plain, managed, owner, e, v);
      hide Apart, Identity;
    }
    hide Identity;
  }

  /** A directory whose kernel half is complete sees every page of memory but the first at its own
      address, and nothing at address 0. */
  lemma SeesMemory(k: Layout, pages: Pages, stack: seq<nat>, dirs: set<nat>, plain: set<nat>, managed: set<nat>,
                   owner: map<nat, Role>, d: nat)
    requires Apart(k, pages, stack, dirs, plain, managed, owner) && d in dirs && d < |pages|
    requires forall i :: 0 <= i < USER_PDE && i * ENTRIES < k.top ==> Frame(pages[d][i]) != 0
    ensures forall vpn :: 0 <= vpn < k.top ==> Lookup(pages, d, vpn) == if vpn == 0 then None else Some(vpn)
  {
    forall vpn | 0 <= vpn < k.top ensures Lookup(pages, d, vpn) == if vpn == 0 then None else Some(vpn) {
      var i := vpn / ENTRIES;
      assert i * ENTRIES <= vpn;
      assert Frame(pages[d][i]) == k.pt + i;
    }
  }
}
