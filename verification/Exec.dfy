/** The address-space side of exec, fork and wait (proc/exec.c, proc/proc.c, mm/vmm.c): growth and
    loading of a program image, and which pages come and go. */
module Exec {
  import opened Wrappers
  import opened Paging
  import opened Vmm
  import Isolation
  import Minix
  import ExecStack

  /** A program header.  `data` is what the file has from the segment's offset on; it is shorter than the
      segment when a read comes up short. */
  datatype Segment = Segment(load: bool, vaddr: nat, filesz: nat, memsz: nat, data: seq<Minix.Byte>)

  /** Linked at USER_BASE or above; LowSegment says what becomes of a file that is not. */
  predicate Linked(s: Segment, limit: nat) {
    s.load && s.filesz <= s.memsz ==> s.vaddr % PAGE_SIZE == 0 && USER_BASE <= s.vaddr && s.vaddr + s.memsz <= limit
  }

  /** Memory of all programs but those that run on pgdir stays as it was. */
  ghost predicate OthersKept(pages: Pages, pages': Pages, owner: map<nat, Role>, owner': map<nat, Role>, pgdir: nat) {
    && |pages'| == |pages|
    && forall f :: f in owner && f < |pages| && (owner[f] == Plain || (owner[f].Leaf? && owner[f].d != pgdir)) ==>
         pages'[f] == pages[f] && f in owner' && owner'[f] == owner[f]
  }

  lemma KeptIsOthersKept(pages: Pages, pages': Pages, owner: map<nat, Role>, owner': map<nat, Role>, pgdir: nat)
    requires DataKept(pages, pages', owner) && RolesKept(owner, owner')
    ensures OthersKept(pages, pages', owner, owner', pgdir)
  {
  }

  lemma OthersKeptTwice(pages0: Pages, pages1: Pages, pages2: Pages, owner0: map<nat, Role>, owner1: map<nat, Role>,
                        owner2: map<nat, Role>, pgdir: nat)
    requires OthersKept(pages0, pages1, owner0, owner1, pgdir) && OthersKept(pages1, pages2, owner1, owner2, pgdir)
    ensures OthersKept(pages0, pages2, owner0, owner2, pgdir)
  {
  }

  lemma OthersKeptSelf(pages: Pages, owner: map<nat, Role>, pgdir: nat)
    ensures OthersKept(pages, pages, owner, owner, pgdir)
  {
  }

  /** Page v of the program holds p. */
  ghost predicate Holds(pages: Pages, pgdir: nat, v: nat, p: Page)
    requires v < MAX_VPN
  {
    Lookup(pages, pgdir, v).Some? && Lookup(pages, pgdir, v).value < |pages|
        && pages[Lookup(pages, pgdir, v).value] == p
  }

  /** The pages of the program that start below `sz` keep their contents. */
  ghost predicate Keeps(pages: Pages, pages': Pages, pgdir: nat, sz: nat) {
    forall v, p :: USER_VPN <= v < MAX_VPN && v * PAGE_SIZE < sz && Holds(pages, pgdir, v, p) ==>
        Holds(pages', pgdir, v, p)
  }

  lemma KeepsTwice(pages0: Pages, pages1: Pages, pages2: Pages, pgdir: nat, sz: nat, sz': nat)
    requires Keeps(pages0, pages1, pgdir, sz) && Keeps(pages1, pages2, pgdir, sz') && sz <= sz'
    ensures Keeps(pages0, pages2, pgdir, sz)
  {
    hide Holds;
  }

  /** Memory in use stays in use with its contents: so do the pages whose mapping stays. */
  lemma KeepsMapped(k: Layout, pages: Pages, stack: seq<nat>, dirs: set<nat>, plain: set<nat>, managed: set<nat>,
                    owner: map<nat, Role>,
                    pages': Pages, pgdir: nat, sz: nat)
    requires Apart(k, pages, stack, dirs, plain, managed, owner) && pgdir in dirs
    requires |pages'| == |pages| && forall f :: f in owner && f < |pages| && owner[f].Leaf? ==> pages'[f] == pages[f]
    requires forall v :: USER_VPN <= v < MAX_VPN && v * PAGE_SIZE < sz ==>
               Lookup(pages', pgdir, v) == Lookup(pages, pgdir, v)
    ensures Keeps(pages, pages', pgdir, sz)
  {
    forall v, p | USER_VPN <= v < MAX_VPN && v * PAGE_SIZE < sz && Holds(pages, pgdir, v, p)
      ensures Holds(pages', pgdir, v, p)
    {
      LeafFrame(k, pages, stack, dirs, plain, managed, owner, pgdir, v);
    }
  }

  /** The frame of a user page is written. */
  method StorePage(m: Memory, pgdir: nat, ghost vpn: nat, pa: nat, p: Page)
    requires m.Valid() && pgdir in m.dirs && USER_VPN <= vpn < MAX_VPN && Lookup(m.pages, pgdir, vpn) == Some(pa)
    modifies m`pages
    ensures m.Valid() && Holds(m.pages, pgdir, vpn, p)
    ensures forall d :: d in m.dirs ==> SameMap(old(m.pages), m.pages, d)
    ensures forall v, q :: USER_VPN <= v < MAX_VPN && v != vpn && Holds(old(m.pages), pgdir, v, q) ==>
              Holds(m.pages, pgdir, v, q)
    ensures OpenTables(m.pages, pgdir) == OpenTables(old(m.pages), pgdir)
    ensures OthersKept(old(m.pages), m.pages, m.owner, m.owner, pgdir)
  {
    hide Apart, SameMap, Lookup, OpenTables;
    LeafFrame(m.k, m.pages, m.pmmStack[..m.top], m.dirs, m.plain, m.managed, m.owner, pgdir, vpn);
    ghost var pages0 := m.pages;
    m.WritePage(pa, p);
    SameMapAll(pages0, m.pages, pgdir);
    SameTables(pages0, m.pages, pgdir);
    forall v, q | USER_VPN <= v < MAX_VPN && v != vpn && Holds(pages0, pgdir, v, q)
      ensures Holds(m.pages, pgdir, v, q)
    {
      LeafFrame(m.k, pages0, m.pmmStack[..m.top], m.dirs, m.plain, m.managed, m.owner, pgdir, v);
    }
  }

  function ByteOf(w: Word, i: nat): Minix.Byte {
    if i == 0 then w % 256 else if i == 1 then w / 256 % 256 else if i == 2 then w / 256 / 256 % 256
        else w / 256 / 256 / 256
  }

  /** A page's bytes, and the page with given bytes. */
  function Bytes(p: Page): (b: seq<Minix.Byte>)
    ensures |b| == PAGE_SIZE
  {
    seq(PAGE_SIZE, i requires 0 <= i < PAGE_SIZE => ByteOf(p[i / 4], i % 4))
  }

  function Packed(b: seq<Minix.Byte>): Page
    requires |b| == PAGE_SIZE
  {
    seq(ENTRIES, j requires 0 <= j < ENTRIES => ExecStack.WordAt(b, 0, 4 * j))
  }

  lemma PackedBytes(b: seq<Minix.Byte>)
    requires |b| == PAGE_SIZE
    ensures Bytes(Packed(b)) == b
  {
    forall i | 0 <= i < PAGE_SIZE ensures Bytes(Packed(b))[i] == b[i] {
      var j := i / 4;
      WordBytes(b[4 * j], b[4 * j + 1], b[4 * j + 2], b[4 * j + 3]);
      assert i == 4 * j + i % 4;
    }
  }

  lemma Lowest(b: Minix.Byte, w: nat)
    ensures (b + 256 * w) / 256 == w && (b + 256 * w) % 256 == b
  {
  }

  lemma WordBytes(b0: Minix.Byte, b1: Minix.Byte, b2: Minix.Byte, b3: Minix.Byte)
    ensures var w: Word := b0 + 256 * b1 + 65536 * b2 + 16777216 * b3;
            ByteOf(w, 0) == b0 && ByteOf(w, 1) == b1 && ByteOf(w, 2) == b2 && ByteOf(w, 3) == b3
  {
    Lowest(b0, b1 + 256 * b2 + 65536 * b3);
    Lowest(b1, b2 + 256 * b3);
    Lowest(b2, b3);
  }

  /** A page whose first bytes are replaced. */
  function Overlaid(p: Page, b: seq<Minix.Byte>): Page
    requires |b| <= PAGE_SIZE
  {
    Packed(b + Bytes(p)[|b|..])
  }

  /** What p, as page v of a program, is once `size` bytes of data have gone to address addr. */
  function Over(addr: nat, data: seq<Minix.Byte>, size: nat, v: nat, p: Page): Page {
    if addr <= v * PAGE_SIZE < addr + size && size <= |data| then
      var from := v * PAGE_SIZE - addr;
      Overlaid(p, data[from..if from + PAGE_SIZE <= size then from + PAGE_SIZE else size])
    else p
  }

  lemma OverBytes(addr: nat, data: seq<Minix.Byte>, size: nat, v: nat, p: Page, o: nat)
    requires addr % PAGE_SIZE == 0 && size <= |data| && o < PAGE_SIZE
    ensures Bytes(Over(addr, data, size, v, p))[o]
              == if addr <= v * PAGE_SIZE + o < addr + size then data[v * PAGE_SIZE + o - addr] else Bytes(p)[o]
  {
    hide Bytes, Packed;
    if addr <= v * PAGE_SIZE < addr + size {
      var from := v * PAGE_SIZE - addr;
      var b := data[from..if from + PAGE_SIZE <= size then from + PAGE_SIZE else size];
      PackedBytes(b + Bytes(p)[|b|..]);
    }
  }

  /** One page more. */
  lemma OverNext(addr: nat, data: seq<Minix.Byte>, size: nat, i: nat, v: nat, p: Page)
    requires addr % PAGE_SIZE == 0 && i % PAGE_SIZE == 0 && i < size
    requires (if size - i < PAGE_SIZE then size else i + PAGE_SIZE) <= |data|
    ensures var n := if size - i < PAGE_SIZE then size - i else PAGE_SIZE;
            Over(addr, data, i + n, v, p)
            == if v * PAGE_SIZE == addr + i then Overlaid(p, data[i..i + n]) else Over(addr, data, i, v, p)
  {
    hide Overlaid;
  }

  /** One page of uvm_load. */
  method LoadPage(m: Memory, pgdir: nat, va: nat, b: seq<Minix.Byte>)
    requires m.Valid() && pgdir in m.dirs && USER_BASE <= va < 0x1_0000_0000 && va / PAGE_SIZE < MAX_VPN
    requires Lookup(m.pages, pgdir, va / PAGE_SIZE).Some? && |b| <= PAGE_SIZE
    modifies m`pages
    ensures m.Valid()
    ensures forall d :: d in m.dirs ==> SameMap(old(m.pages), m.pages, d)
    ensures forall v, q :: USER_VPN <= v < MAX_VPN && Holds(old(m.pages), pgdir, v, q) ==>
              Holds(m.pages, pgdir, v, if v == va / PAGE_SIZE then Overlaid(q, b) else q)
    ensures OpenTables(m.pages, pgdir) == OpenTables(old(m.pages), pgdir)
    ensures OthersKept(old(m.pages), m.pages, m.owner, m.owner, pgdir)
  {
    hide Apart, SameMap, Lookup, Holds, OthersKept, OpenTables, Overlaid;
    Indices(va);
    var mapped, pa := m.VmmGetMapping(pgdir, va);
    LeafFrame(m.k, m.pages, m.pmmStack[..m.top], m.dirs, m.plain, m.managed, m.owner, pgdir, va / PAGE_SIZE);
    HoldsOne(m.pages, pgdir, va / PAGE_SIZE, pa);
    StorePage(m, pgdir, va / PAGE_SIZE, pa, Overlaid(m.pages[pa], b));
  }

  lemma HoldsOne(pages: Pages, pgdir: nat, v: nat, pa: nat)
    requires v < MAX_VPN && Lookup(pages, pgdir, v) == Some(pa) && pa < |pages|
    ensures forall q :: Holds(pages, pgdir, v, q) <==> q == pages[pa]
  {
  }

  /** The first `size` bytes of data have gone over the program's pages. */
  ghost predicate Covered(pages: Pages, pages': Pages, pgdir: nat, addr: nat, data: seq<Minix.Byte>, size: nat) {
    forall v, q :: USER_VPN <= v < MAX_VPN && Holds(pages, pgdir, v, q) ==>
        Holds(pages', pgdir, v, Over(addr, data, size, v, q))
  }

  lemma CoveredMore(pages: Pages, pages1: Pages, pages2: Pages, pgdir: nat, addr: nat, data: seq<Minix.Byte>,
                    size: nat, i: nat)
    requires addr % PAGE_SIZE == 0 && i % PAGE_SIZE == 0 && i < size && Covered(pages, pages1, pgdir, addr, data, i)
    requires (if size - i < PAGE_SIZE then size else i + PAGE_SIZE) <= |data|
    requires var n := if size - i < PAGE_SIZE then size - i else PAGE_SIZE;
             forall v, q :: USER_VPN <= v < MAX_VPN && Holds(pages1, pgdir, v, q) ==>
               Holds(pages2, pgdir, v, if v == (addr + i) / PAGE_SIZE then Overlaid(q, data[i..i + n]) else q)
    ensures Covered(pages, pages2, pgdir, addr, data, if size - i < PAGE_SIZE then size else i + PAGE_SIZE)
  {
    hide Holds, Over, Overlaid;
    forall v, q | USER_VPN <= v < MAX_VPN && Holds(pages, pgdir, v, q)
      ensures Holds(pages2, pgdir, v, Over(addr, data, if size - i < PAGE_SIZE then size else i + PAGE_SIZE, v, q))
    {
      assert Holds(pages1, pgdir, v, Over(addr, data, i, v, q));
      OverNext(addr, data, size, i, v, q);
      NotYetOver(addr, data, i, v, q);
    }
  }

  lemma NothingCovered(pages: Pages, pgdir: nat, addr: nat, data: seq<Minix.Byte>)
    ensures Covered(pages, pages, pgdir, addr, data, 0)
  {
    NothingOver(addr, data);
    hide Holds, Over;
  }

  /** uvm_load into pages that are mapped: its assertion on the mapping never fails; when every read is
      complete the file's bytes have gone over what was there, and no mapping ever changes. */
  method UvmLoad(m: Memory, pgdir: nat, addr: nat, data: seq<Minix.Byte>, size: nat) returns (ok: bool)
    requires m.Valid() && pgdir in m.dirs && USER_BASE <= addr && addr % PAGE_SIZE == 0 && addr + size <= 0x1_0000_0000
    requires forall v :: USER_VPN <= v < MAX_VPN && addr <= v * PAGE_SIZE < addr + size ==>
               Lookup(m.pages, pgdir, v).Some?
    modifies m`pages
    ensures m.Valid() && (ok <==> size <= |data|)
    ensures ok ==> Covered(old(m.pages), m.pages, pgdir, addr, data, size)
    ensures forall d :: d in m.dirs ==> SameMap(old(m.pages), m.pages, d)
    ensures OpenTables(m.pages, pgdir) == OpenTables(old(m.pages), pgdir)
    ensures OthersKept(old(m.pages), m.pages, m.owner, m.owner, pgdir)
  {
    hide Apart, SameMap, Lookup, OthersKept, Holds, OpenTables, Covered, Overlaid;
    SameMapsSelf(m.pages, m.dirs);
    OthersKeptSelf(m.pages, m.owner, pgdir);
    ghost var pages0 := m.pages;
    NothingCovered(pages0, pgdir, addr, data);
    var i := 0;
    while i < size
      invariant i % PAGE_SIZE == 0 && (if i < size then i else size) <= |data| && m.Valid()
      invariant Covered(pages0, m.pages, pgdir, addr, data, if i < size then i else size)
      invariant forall d :: d in m.dirs ==> SameMap(pages0, m.pages, d)
      invariant OpenTables(m.pages, pgdir) == OpenTables(pages0, pgdir)
      invariant OthersKept(pages0, m.pages, m.owner, m.owner, pgdir)
    {
      LoadStep(addr, i, size);
      var n := if size - i < PAGE_SIZE then size - i else PAGE_SIZE;
      if i + n > |data| {
        return false;
      }
      ghost var pages1 := m.pages;
      ghost var vpn := (addr + i) / PAGE_SIZE;
      SameMapAt(pages0, pages1, pgdir, vpn);
      LoadPage(m, pgdir, addr + i, data[i..i + n]);
      CoveredMore(pages0, pages1, m.pages, pgdir, addr, data, size, i);
      SameMapsTwice(pages0, pages1, m.pages, m.dirs);
      OthersKeptTwice(pages0, pages1, m.pages, m.owner, m.owner, m.owner, pgdir);
      i := i + PAGE_SIZE;
    }
    ok := true;
  }

  lemma NothingOver(addr: nat, data: seq<Minix.Byte>)
    ensures forall v: nat, q :: Over(addr, data, 0, v, q) == q
  {
  }

  lemma NotYetOver(addr: nat, data: seq<Minix.Byte>, i: nat, v: nat, q: Page)
    ensures v * PAGE_SIZE == addr + i ==> Over(addr, data, i, v, q) == q
  {
  }

  /** Below USER_BASE uvm_load would find the kernel's own mappings, where every page is the page frame of
      the same number: a page of a file that is linked there, at the frame of page v of any program d,
      becomes that page. */
  lemma LowSegment(m: Memory, pgdir: nat, d: nat, v: nat, p: Page)
    requires m.Valid() && pgdir in m.dirs && d in m.dirs && pgdir < |m.pages|
    requires forall i :: 0 <= i < USER_PDE && i * ENTRIES < m.k.top ==> Frame(m.pages[pgdir][i]) != 0
    requires USER_VPN <= v < MAX_VPN && Lookup(m.pages, d, v).Some?
    ensures var f := Lookup(m.pages, d, v).value;
            && 0 < f < USER_VPN && f < |m.pages| && Lookup(m.pages, pgdir, f) == Some(f)
            && Holds(m.pages[f := p], d, v, p)
  {
    hide Lookup, Identity;
    var f := Lookup(m.pages, d, v).value;
    LeafFrame(m.k, m.pages, m.pmmStack[..m.top], m.dirs, m.plain, m.managed, m.owner, d, v);
    SeesMemory(m.k, m.pages, m.pmmStack[..m.top], m.dirs, m.plain, m.managed, m.owner, pgdir);
    ContentsWrite(m.k, m.pages, m.pmmStack[..m.top], m.dirs, m.plain, m.managed, m.owner, f, p);
  }

  lemma LoadStep(addr: nat, i: nat, size: nat)
    requires addr % PAGE_SIZE == 0 && i % PAGE_SIZE == 0 && i < size && USER_BASE <= addr
    requires addr + size <= 0x1_0000_0000
    ensures (addr + i) / PAGE_SIZE == addr / PAGE_SIZE + i / PAGE_SIZE && USER_VPN <= (addr + i) / PAGE_SIZE < MAX_VPN
    ensures (addr + i) / PAGE_SIZE * PAGE_SIZE == addr + i
    ensures (i + PAGE_SIZE) / PAGE_SIZE == i / PAGE_SIZE + 1 <= Pages4k(size) && (i + PAGE_SIZE) % PAGE_SIZE == 0
  {
  }

  /** How many frames growth from one size to another may still take: a page and a table for each. */
  predicate Room(top: nat, sz: nat, limit: nat) {
    top + 2 * (AlignUp(sz) / PAGE_SIZE) >= 2 * (AlignUp(limit) / PAGE_SIZE)
  }

  /** The segment is read in full; a header that is not to be loaded is passed over. */
  predicate Loads(s: Segment) { s.load ==> s.filesz <= s.memsz && s.filesz <= |s.data| }

  /** What is in page v after the segment has gone over p. */
  function Put(s: Segment, v: nat, p: Page): Page { if s.load then Over(s.vaddr, s.data, s.filesz, v, p) else p }

  /** Page v of the image after the first n headers: zero where no file contents go. */
  function ImageOf(headers: seq<Option<Segment>>, n: nat, v: nat): Page
    requires n <= |headers|
  {
    if n == 0 || headers[n - 1].None? then Filled(0) else Put(headers[n - 1].value, v, ImageOf(headers, n - 1, v))
  }

  /** The size of the program after a segment. */
  function Extended(sz: nat, s: Segment): nat { if s.load && sz < s.vaddr + s.memsz then s.vaddr + s.memsz else sz }

  /** The user address at which the image of the first n headers ends. */
  function ImageEnd(headers: seq<Option<Segment>>, n: nat): nat
    requires n <= |headers|
  {
    if n == 0 then USER_BASE
    else if headers[n - 1].None? then ImageEnd(headers, n - 1)
    else Extended(ImageEnd(headers, n - 1), headers[n - 1].value)
  }

  ghost predicate HoldsImage(pages: Pages, pgdir: nat, headers: seq<Option<Segment>>, n: nat, sz: nat)
    requires n <= |headers|
  {
    && (forall v :: USER_VPN <= v < MAX_VPN && v * PAGE_SIZE < sz ==> Holds(pages, pgdir, v, ImageOf(headers, n, v)))
    && forall v :: USER_VPN <= v < MAX_VPN && sz <= v * PAGE_SIZE ==> ImageOf(headers, n, v) == Filled(0)
  }

  /** Page v held p before growth from sz to sz', or comes with it. */
  ghost predicate HeldOrNew(pages: Pages, pgdir: nat, sz: nat, sz': nat, v: nat, p: Page)
    requires v < MAX_VPN
  {
    if v * PAGE_SIZE < sz then Holds(pages, pgdir, v, p) else v * PAGE_SIZE < sz' && p == Filled(0)
  }

  ghost predicate Grown(pages: Pages, pages': Pages, pgdir: nat, sz: nat, sz': nat, s: Segment) {
    forall v, p :: USER_VPN <= v < MAX_VPN && HeldOrNew(pages, pgdir, sz, sz', v, p) ==>
        Holds(pages', pgdir, v, Put(s, v, p))
  }

  lemma ImageGrown(pages: Pages, pages': Pages, pgdir: nat, sz: nat, sz': nat, headers: seq<Option<Segment>>, n: nat)
    requires n < |headers| && headers[n].Some? && HoldsImage(pages, pgdir, headers, n, sz) && sz <= sz'
    requires Grown(pages, pages', pgdir, sz, sz', headers[n].value)
    requires headers[n].value.load ==> headers[n].value.vaddr + headers[n].value.filesz <= sz'
    ensures HoldsImage(pages', pgdir, headers, n + 1, sz')
  {
    hide Holds;
    forall v | USER_VPN <= v < MAX_VPN && v * PAGE_SIZE < sz'
      ensures Holds(pages', pgdir, v, ImageOf(headers, n + 1, v))
    {
      assert HeldOrNew(pages, pgdir, sz, sz', v, ImageOf(headers, n, v));
    }
    forall v | USER_VPN <= v < MAX_VPN && sz' <= v * PAGE_SIZE ensures ImageOf(headers, n + 1, v) == Filled(0) {
      assert ImageOf(headers, n, v) == Filled(0);
    }
  }

  /** Growth to sz', then the file's bytes on top. */
  lemma GrowthPut(pages: Pages, pages1: Pages, pages': Pages, pgdir: nat, sz: nat, sz': nat, s: Segment)
    requires s.load && Keeps(pages, pages1, pgdir, sz)
    requires forall v :: USER_VPN <= v < MAX_VPN && sz <= v * PAGE_SIZE < sz' ==> Holds(pages1, pgdir, v, Filled(0))
    requires Covered(pages1, pages', pgdir, s.vaddr, s.data, s.filesz)
    ensures Grown(pages, pages', pgdir, sz, sz', s)
  {
    hide Holds, Over;
    forall v, p | USER_VPN <= v < MAX_VPN && HeldOrNew(pages, pgdir, sz, sz', v, p)
      ensures Holds(pages', pgdir, v, Put(s, v, p))
    {
      assert Holds(pages1, pgdir, v, p);
    }
  }

  /** Growth by one segment, if it is to be loaded, and its contents. */
  method LoadSegment(m: Memory, pgdir: nat, s: Segment, sz: nat, ghost limit: nat, ghost room: nat)
      returns (ok: bool, sz': nat)
    requires m.Valid() && pgdir in m.dirs && Linked(s, limit) && USER_BASE <= sz <= limit
    requires AlignUp(limit) < 0x1_0000_0000
    requires m.MappedBelow(pgdir, sz) && limit <= room && Room(m.top, sz, room)
    modifies m`top, m`pages, m`dirs, m`plain, m`owner
    ensures m.Valid() && m.dirs == old(m.dirs) && m.plain == old(m.plain)
    ensures ok <==> Loads(s)
    ensures ok ==> sz' == Extended(sz, s) <= limit && m.MappedBelow(pgdir, sz') && Room(m.top, sz', room)
    ensures ok && OpenBelow(old(m.pages), pgdir, sz) ==> OpenBelow(m.pages, pgdir, sz')
    ensures ok ==> Grown(old(m.pages), m.pages, pgdir, sz, sz', s) && (s.load ==> s.vaddr + s.filesz <= sz')
    ensures forall e :: e in m.dirs && e != pgdir ==> SameMap(old(m.pages), m.pages, e)
    ensures OthersKept(old(m.pages), m.pages, old(m.owner), m.owner, pgdir)
  {
    hide Apart, SameMap, Lookup, OthersKept, DataKept, RolesKept, Holds, Keeps, Grown, Covered,
         OpenBelow, OpenTables, ZeroPages;
    ok, sz' := true, sz;
    SameMapsSelf(m.pages, m.dirs);
    OthersKeptSelf(m.pages, m.owner, pgdir);
    if !s.load {
      NotLoaded(m.pages, pgdir, sz, s);
      return;
    }
    if s.memsz < s.filesz {
      return false, sz;
    }
    AlignUpMonotone(sz, limit);
    AlignUpMonotone(s.vaddr + s.memsz, limit);
    AlignUpMonotone(limit, room);
    sz' := m.UvmAlloc(pgdir, sz, s.vaddr + s.memsz);
    ghost var pages1, owner1 := m.pages, m.owner;
    KeptIsOthersKept(old(m.pages), pages1, old(m.owner), owner1, pgdir);
    AllocHolds(m.k, old(m.pages), old(m.pmmStack[..m.top]), m.dirs, m.plain, old(m.managed), old(m.owner), pages1,
               pgdir, sz, sz');
    SegmentMapped(m, pgdir, s, sz');
    ok := UvmLoad(m, pgdir, s.vaddr, s.data, s.filesz);
    SameMapsTwice(old(m.pages), pages1, m.pages, m.dirs - {pgdir});
    OthersKeptTwice(old(m.pages), pages1, m.pages, old(m.owner), owner1, m.owner, pgdir);
    MappedBelowKept(m, pages1, pgdir, sz');
    OpenKept(pages1, m.pages, pgdir, sz');
    if ok {
      GrowthPut(old(m.pages), pages1, m.pages, pgdir, sz, sz', s);
    }
  }

  lemma NotLoaded(pages: Pages, pgdir: nat, sz: nat, s: Segment)
    requires !s.load
    ensures Grown(pages, pages, pgdir, sz, sz, s)
  {
  }

  /** uvm_alloc keeps the pages there were and adds zeroed ones. */
  lemma AllocHolds(k: Layout, pages: Pages, stack: seq<nat>, dirs: set<nat>, plain: set<nat>, managed: set<nat>,
                   owner: map<nat, Role>,
                   pages': Pages, pgdir: nat, sz: nat, sz': nat)
    requires Apart(k, pages, stack, dirs, plain, managed, owner) && pgdir in dirs && DataKept(pages, pages', owner)
    requires forall v :: 0 <= v < MAX_VPN && v * PAGE_SIZE < sz ==> Lookup(pages', pgdir, v) == Lookup(pages, pgdir, v)
    requires ZeroPages(pages', pgdir, sz, sz')
    ensures Keeps(pages, pages', pgdir, sz)
    ensures forall v :: USER_VPN <= v < MAX_VPN && sz <= v * PAGE_SIZE < sz' ==> Holds(pages', pgdir, v, Filled(0))
  {
    hide Apart, Lookup;
    KeepsMapped(k, pages, stack, dirs, plain, managed, owner, pages', pgdir, sz);
  }

  lemma AlignUpMonotone(x: nat, y: nat)
    requires x <= y
    ensures AlignUp(x) <= AlignUp(y) && x <= AlignUp(x)
    ensures AlignUp(x) / PAGE_SIZE <= AlignUp(y) / PAGE_SIZE
  {
  }

  lemma SegmentMapped(m: Memory, pgdir: nat, s: Segment, sz: nat)
    requires m.MappedBelow(pgdir, sz) && s.vaddr + s.filesz <= sz
    ensures forall v :: USER_VPN <= v < MAX_VPN && s.vaddr <= v * PAGE_SIZE < s.vaddr + s.filesz ==>
              Lookup(m.pages, pgdir, v).Some?
  {
  }

  lemma MappedBelowKept(m: Memory, pages1: Pages, pgdir: nat, sz: nat)
    requires SameMap(pages1, m.pages, pgdir)
    requires MapsBelow(pages1, pgdir, sz)
    ensures m.MappedBelow(pgdir, sz)
  {
  }

  lemma OpenKept(pages: Pages, pages': Pages, d: nat, sz: nat)
    requires SameMap(pages, pages', d) && OpenTables(pages', d) == OpenTables(pages, d)
    ensures OpenBelow(pages', d, sz) == OpenBelow(pages, d, sz)
  {
    hide Lookup, PteOf, OpenTables, UserAccess;
  }

  /** exec's loop over the program headers; a header that cannot be read is None.  The program ends up
      with the pages from USER_BASE up to the end of its image, each mapped once and holding the last
      file contents that go there, or zeros. */
  method LoadProgram(m: Memory, pgdir: nat, headers: seq<Option<Segment>>, ghost limit: nat, ghost room: nat)
      returns (ok: bool, sz: nat)
    requires m.Valid() && pgdir in m.dirs && USER_BASE <= limit <= room && AlignUp(limit) < 0x1_0000_0000
    requires forall i :: 0 <= i < |headers| && headers[i].Some? ==> Linked(headers[i].value, limit)
    requires m.MappedBelow(pgdir, USER_BASE) && Room(m.top, USER_BASE, room)
    modifies m`top, m`pages, m`dirs, m`plain, m`owner
    ensures m.Valid() && m.dirs == old(m.dirs) && m.plain == old(m.plain)
    ensures ok <==> AllLoad(headers)
    ensures ok ==> USER_BASE <= sz <= limit && m.MappedBelow(pgdir, sz) && Room(m.top, sz, room)
    ensures ok ==>
              && sz == ImageEnd(headers, |headers|)
              && (OpenBelow(old(m.pages), pgdir, USER_BASE) ==> OpenBelow(m.pages, pgdir, sz))
    ensures ok ==> HoldsImage(m.pages, pgdir, headers, |headers|, sz)
    ensures forall e :: e in m.dirs && e != pgdir ==> SameMap(old(m.pages), m.pages, e)
    ensures OthersKept(old(m.pages), m.pages, old(m.owner), m.owner, pgdir)
  {
    hide Apart, SameMap, Lookup, OthersKept, MapsBelow, OpenBelow, Linked, Room, HoldsImage, Grown, Loads;
    SameMapsSelf(m.pages, m.dirs);
    OthersKeptSelf(m.pages, m.owner, pgdir);
    NoImage(m.pages, pgdir, headers);
    sz := USER_BASE;
    var i := 0;
    while i < |headers|
      invariant i <= |headers| && USER_BASE <= sz == ImageEnd(headers, i) <= limit
      invariant OpenBelow(old(m.pages), pgdir, USER_BASE) ==> OpenBelow(m.pages, pgdir, sz)
      invariant forall j :: 0 <= j < i ==> headers[j].Some? && Loads(headers[j].value)
      invariant m.Valid() && m.dirs == old(m.dirs) && m.plain == old(m.plain)
      invariant m.MappedBelow(pgdir, sz) && Room(m.top, sz, room) && HoldsImage(m.pages, pgdir, headers, i, sz)
      invariant forall e :: e in m.dirs && e != pgdir ==> SameMap(old(m.pages), m.pages, e)
      invariant OthersKept(old(m.pages), m.pages, old(m.owner), m.owner, pgdir)
    {
      if headers[i].None? {
        return false, sz;
      }
      ghost var pages1, owner1, sz1 := m.pages, m.owner, sz;
      ok, sz := LoadSegment(m, pgdir, headers[i].value, sz, limit, room);
      SameMapsTwice(old(m.pages), pages1, m.pages, m.dirs - {pgdir});
      OthersKeptTwice(old(m.pages), pages1, m.pages, old(m.owner), owner1, m.owner, pgdir);
      if !ok {
        return;
      }
      ImageGrown(pages1, m.pages, pgdir, sz1, sz, headers, i);
      i := i + 1;
    }
    ok := true;
  }

  predicate AllLoad(headers: seq<Option<Segment>>) {
    forall i :: 0 <= i < |headers| ==> headers[i].Some? && Loads(headers[i].value)
  }

  lemma NoImage(pages: Pages, pgdir: nat, headers: seq<Option<Segment>>)
    ensures HoldsImage(pages, pgdir, headers, 0, USER_BASE)
  {
    forall v | USER_VPN <= v < MAX_VPN ensures !(v * PAGE_SIZE < USER_BASE) {
    }
  }

  /** Of the pages below user address `top`, where the stack ends, the one below the stack is closed to
      user programs, and no other. */
  ghost predicate Guarded(pages: Pages, pgdir: nat, top: nat) {
    && USER_BASE + 2 * PAGE_SIZE <= top && top / PAGE_SIZE <= MAX_VPN
    && forall v :: USER_VPN <= v < MAX_VPN && v * PAGE_SIZE < top ==>
        (UserCan(pages, pgdir, v) <==> v != top / PAGE_SIZE - 2)
            && (v == top / PAGE_SIZE - 2 ==> PteOf(pages, pgdir, v) / PTE_U % 2 == 0)
  }

  /** The page below the stack is closed to user programs: mapped again, to its own frame. */
  method CloseGuard(m: Memory, pgdir: nat, sz: nat)
    requires m.Valid() && pgdir in m.dirs && USER_BASE + 2 * PAGE_SIZE <= sz < 0x1_0000_0000 && sz % PAGE_SIZE == 0
    requires m.MappedBelow(pgdir, sz) && OpenBelow(m.pages, pgdir, sz)
    modifies m`top, m`pages, m`dirs, m`plain, m`owner
    ensures m.Valid() && m.dirs == old(m.dirs) && m.plain == old(m.plain) && m.top == old(m.top)
    ensures m.MappedBelow(pgdir, sz) && Guarded(m.pages, pgdir, sz)
    ensures Keeps(old(m.pages), m.pages, pgdir, sz)
    ensures forall e :: e in m.dirs && e != pgdir ==> SameMap(old(m.pages), m.pages, e)
    ensures OthersKept(old(m.pages), m.pages, old(m.owner), m.owner, pgdir)
  {
    hide Apart, SameMap, Lookup, PteOf, PdeOf, UserAccess, OpenBelow, OthersKept, DataKept, RolesKept, Keeps, Guarded;
    ghost var pages1, owner1 := m.pages, m.owner;
    var mapped, pa := m.VmmGetMapping(pgdir, sz - 2 * PAGE_SIZE);
    LeafFrame(m.k, m.pages, m.pmmStack[..m.top], m.dirs, m.plain, m.managed, m.owner, pgdir, sz / PAGE_SIZE - 2);
    MappedHasTable(m, pgdir, sz / PAGE_SIZE - 2);
    m.VmmMapUser(pgdir, sz - 2 * PAGE_SIZE, pa, 8); // PTE_K | PTE_P | PTE_W
    KeptIsOthersKept(pages1, m.pages, owner1, m.owner, pgdir);
    StackPagesMap(m, pages1, pgdir, sz);
    OpenEntry(pa, 8);
    GuardClosed(pages1, m.pages, pgdir, sz);
    KeptData(pages1, m.pages, owner1);
    KeepsMapped(m.k, pages1, old(m.pmmStack[..m.top]), m.dirs, m.plain, old(m.managed), owner1, m.pages, pgdir, sz);
  }

  lemma GuardClosed(pages: Pages, pages': Pages, d: nat, top: nat)
    requires USER_BASE + 2 * PAGE_SIZE <= top < 0x1_0000_0000 && top % PAGE_SIZE == 0
    requires MapsBelow(pages, d, top) && OpenBelow(pages, d, top)
    requires forall v :: USER_VPN <= v < MAX_VPN && v != top / PAGE_SIZE - 2 ==>
               PteOf(pages', d, v) == PteOf(pages, d, v)
                   && (Lookup(pages, d, v).Some? ==> PdeOf(pages', d, v) == PdeOf(pages, d, v))
    requires PteOf(pages', d, top / PAGE_SIZE - 2) / PTE_U % 2 == 0
    ensures Guarded(pages', d, top)
  {
    forall v | USER_VPN <= v < MAX_VPN && v * PAGE_SIZE < top
      ensures UserAccess(PdeOf(pages, d, v)) && UserAccess(PteOf(pages, d, v))
    {
      assert Lookup(pages, d, v).Some?;
      assert USER_PDE <= v / ENTRIES < ENTRIES;
    }
    hide Lookup, PteOf, PdeOf, UserAccess, OpenBelow;
  }

  lemma KeptData(pages: Pages, pages': Pages, owner: map<nat, Role>)
    requires DataKept(pages, pages', owner)
    ensures |pages'| == |pages| && forall f :: f in owner && f < |pages| && owner[f].Leaf? ==> pages'[f] == pages[f]
  {
  }

  /** The topmost page below user address `top` decodes to the arguments at sp. */
  ghost predicate HasArguments(pages: Pages, pgdir: nat, top: nat, sp: nat, argv: seq<seq<Minix.Byte>>)
    requires PAGE_SIZE <= top && top / PAGE_SIZE <= MAX_VPN
  {
    exists p: Page :: Holds(pages, pgdir, top / PAGE_SIZE - 1, p)
        && ExecStack.Decodes(Bytes(p), top - PAGE_SIZE, sp, argv)
  }

  /** Strings and vector of the arguments, written through the stack page's physical address. */
  method PushArguments(m: Memory, pgdir: nat, sz: nat, argv: seq<seq<Minix.Byte>>) returns (ok: bool, sp: nat)
    requires m.Valid() && pgdir in m.dirs && USER_BASE + PAGE_SIZE <= sz < 0x1_0000_0000 && sz % PAGE_SIZE == 0
    requires Lookup(m.pages, pgdir, sz / PAGE_SIZE - 1).Some?
    requires |argv| != ExecStack.MAX_ARGC + 1 && ExecStack.Fits(argv[..ExecStack.Copied(argv)])
    modifies m`pages
    ensures m.Valid() && (ok <==> |argv| <= ExecStack.MAX_ARGC)
    ensures ok ==> HasArguments(m.pages, pgdir, sz, sp, argv)
    ensures forall d :: d in m.dirs ==> SameMap(old(m.pages), m.pages, d)
    ensures Keeps(old(m.pages), m.pages, pgdir, sz - PAGE_SIZE)
    ensures OthersKept(old(m.pages), m.pages, m.owner, m.owner, pgdir)
  {
    hide Apart, SameMap, Lookup, OthersKept, Holds, ExecStack.Decodes, ExecStack.Fits, ExecStack.Copied, Packed, Bytes;
    var mapped, pa := m.VmmGetMapping(pgdir, sz - PAGE_SIZE);
    LeafFrame(m.k, m.pages, m.pmmStack[..m.top], m.dirs, m.plain, m.managed, m.owner, pgdir, sz / PAGE_SIZE - 1);
    var bytes := Bytes(m.pages[pa]);
    var page := new Minix.Byte[PAGE_SIZE](i requires 0 <= i < PAGE_SIZE => bytes[i]);
    ok, sp := ExecStack.BuildStack(page, sz, pa * PAGE_SIZE, argv);
    StorePage(m, pgdir, sz / PAGE_SIZE - 1, pa, Packed(page[..]));
    PackedBytes(page[..]);
  }

  /** The two stack pages above the image: the lower one is closed to user programs, the upper one
      gets the arguments.  Both are mapped, so neither `goto bad` for an unmapped page is taken. */
  method StackPages(m: Memory, pgdir: nat, imageEnd: nat, argv: seq<seq<Minix.Byte>>)
      returns (ok: bool, sz: nat, sp: nat)
    requires m.Valid() && pgdir in m.dirs && USER_BASE <= imageEnd && AlignUp(imageEnd) + 2 * PAGE_SIZE < 0x1_0000_0000
    requires m.MappedBelow(pgdir, imageEnd) && OpenBelow(m.pages, pgdir, imageEnd)
    requires Room(m.top, imageEnd, AlignUp(imageEnd) + 2 * PAGE_SIZE)
    requires |argv| != ExecStack.MAX_ARGC + 1 && ExecStack.Fits(argv[..ExecStack.Copied(argv)])
    modifies m`top, m`pages, m`dirs, m`plain, m`owner
    ensures m.Valid() && m.dirs == old(m.dirs) && m.plain == old(m.plain)
    ensures sz == AlignUp(imageEnd) + 2 * PAGE_SIZE && sz % PAGE_SIZE == 0 && m.MappedBelow(pgdir, sz)
    ensures sz / PAGE_SIZE <= MAX_VPN && Guarded(m.pages, pgdir, sz)
    ensures (ok <==> |argv| <= ExecStack.MAX_ARGC) && (ok ==> HasArguments(m.pages, pgdir, sz, sp, argv))
    ensures Keeps(old(m.pages), m.pages, pgdir, imageEnd)
    ensures forall e :: e in m.dirs && e != pgdir ==> SameMap(old(m.pages), m.pages, e)
    ensures OthersKept(old(m.pages), m.pages, old(m.owner), m.owner, pgdir)
  {
    hide Apart, SameMap, Lookup, PteOf, OthersKept, DataKept, RolesKept, Keeps, HasArguments, Guarded,
         ExecStack.Fits, ExecStack.Copied, Holds, MapsBelow, OpenBelow, ZeroPages;
    AlignUpBounds(imageEnd);
    OpenAligned(m.pages, pgdir, imageEnd);
    AlignedAlignUp(imageEnd);
    sz := AlignUp(imageEnd);
    BelowAligned(m.pages, pgdir, imageEnd);
    ghost var end := sz;
    sz := m.UvmAlloc(pgdir, sz, sz + 2 * PAGE_SIZE);
    KeptIsOthersKept(old(m.pages), m.pages, old(m.owner), m.owner, pgdir);
    ghost var pages1, owner1 := m.pages, m.owner;
    AllocHolds(m.k, old(m.pages), old(m.pmmStack[..m.top]), m.dirs, m.plain, old(m.managed), old(m.owner), pages1,
               pgdir, end, sz);
    CloseGuard(m, pgdir, sz);
    ghost var pages2, owner2 := m.pages, m.owner;
    LastMapped(m, pgdir, sz);
    ok, sp := PushArguments(m, pgdir, sz, argv);
    SameMapsThrice(old(m.pages), pages1, pages2, m.pages, m.dirs - {pgdir});
    OthersKeptTwice(old(m.pages), pages1, pages2, old(m.owner), owner1, owner2, pgdir);
    OthersKeptTwice(old(m.pages), pages2, m.pages, old(m.owner), owner2, m.owner, pgdir);
    KeepsTwice(old(m.pages), pages1, pages2, pgdir, end, sz);
    KeepsTwice(old(m.pages), pages2, m.pages, pgdir, end, sz - PAGE_SIZE);
    KeepsLess(old(m.pages), m.pages, pgdir, imageEnd, end);
    MappedBelowKept(m, pages2, pgdir, sz);
    GuardKept(pages2, m.pages, pgdir, sz);
  }

  lemma KeepsLess(pages: Pages, pages': Pages, pgdir: nat, sz: nat, sz': nat)
    requires Keeps(pages, pages', pgdir, sz') && sz <= sz'
    ensures Keeps(pages, pages', pgdir, sz)
  {
  }

  lemma LastMapped(m: Memory, pgdir: nat, sz: nat)
    requires m.MappedBelow(pgdir, sz) && USER_BASE + PAGE_SIZE <= sz < 0x1_0000_0000 && sz % PAGE_SIZE == 0
    ensures Lookup(m.pages, pgdir, sz / PAGE_SIZE - 1).Some?
  {
    hide Lookup;
    var v := sz / PAGE_SIZE - 1;
    assert USER_VPN <= v < MAX_VPN && v * PAGE_SIZE < sz;
  }

  lemma GuardKept(pages: Pages, pages': Pages, d: nat, top: nat)
    requires SameMap(pages, pages', d) && MapsBelow(pages, d, top) && Guarded(pages, d, top)
    ensures Guarded(pages', d, top)
  {
    forall v | USER_VPN <= v < MAX_VPN && v * PAGE_SIZE < top ensures UserCan(pages', d, v) == UserCan(pages, d, v) {
      assert Lookup(pages, d, v).Some?;
    }
    hide Lookup, UserCan;
  }

  lemma AlignedAlignUp(x: nat)
    ensures AlignUp(AlignUp(x)) == AlignUp(x) && AlignUp(AlignUp(x) + 2 * PAGE_SIZE) == AlignUp(x) + 2 * PAGE_SIZE
  {
  }

  lemma MappedHasTable(m: Memory, d: nat, vpn: nat)
    requires vpn < MAX_VPN && Lookup(m.pages, d, vpn).Some?
    ensures m.HasTable(d, vpn)
  {
  }

  lemma StackPagesMap(m: Memory, pages1: Pages, pgdir: nat, sz: nat)
    requires 2 * PAGE_SIZE <= sz && sz / PAGE_SIZE - 2 < MAX_VPN
    requires MapsBelow(pages1, pgdir, sz)
    requires Lookup(pages1, pgdir, sz / PAGE_SIZE - 2) == Lookup(m.pages, pgdir, sz / PAGE_SIZE - 2)
    requires forall v :: 0 <= v < MAX_VPN && v != sz / PAGE_SIZE - 2 ==>
               Lookup(m.pages, pgdir, v) == Lookup(pages1, pgdir, v)
    ensures m.MappedBelow(pgdir, sz)
    ensures forall v :: 0 <= v < MAX_VPN ==> Lookup(m.pages, pgdir, v) == Lookup(pages1, pgdir, v)
  {
  }

  lemma SameMapsThrice(pages0: Pages, pages1: Pages, pages2: Pages, pages3: Pages, dirs: set<nat>)
    requires forall d :: d in dirs ==>
               SameMap(pages0, pages1, d) && SameMap(pages1, pages2, d) && SameMap(pages2, pages3, d)
    ensures forall d :: d in dirs ==> SameMap(pages0, pages3, d)
  {
  }

  lemma NewIsEmpty(m: Memory, pgd: nat)
    requires m.Valid() && pgd in m.dirs && pgd < |m.pages|
    requires forall i :: USER_PDE <= i < ENTRIES ==> m.pages[pgd][i] == 0
    ensures m.MappedBelow(pgd, USER_BASE) && OpenBelow(m.pages, pgd, USER_BASE)
  {
    EmptyUserHalf(m.k, m.pages, m.pmmStack[..m.top], m.dirs, m.plain, m.managed, m.owner, pgd);
  }

  lemma RoomAligned(top: nat, sz: nat, limit: nat)
    requires sz <= limit && Room(top, sz, AlignUp(limit) + 2 * PAGE_SIZE)
    ensures AlignUp(sz) <= AlignUp(limit) && Room(top, sz, AlignUp(sz) + 2 * PAGE_SIZE)
  {
    AlignUpMonotone(sz, limit);
    AlignedAlignUp(sz);
    AlignedAlignUp(limit);
  }

  lemma UptoBelow(m: Memory, pgdir: nat, sz: nat)
    requires USER_BASE <= sz && m.MappedBelow(pgdir, sz)
    ensures m.AllMappedUpto(pgdir, sz - USER_BASE)
  {
  }

  lemma StaysIsOthersKept(pages: Pages, pages': Pages, owner: map<nat, Role>, owner': map<nat, Role>, pgdir: nat)
    requires DataStays(pages, pages', owner, owner')
    ensures OthersKept(pages, pages', owner, owner', pgdir)
  {
  }

  /** The image and the stack of a program in a new directory. */
  method BuildImage(m: Memory, pgdir: nat, headers: seq<Option<Segment>>, argv: seq<seq<Minix.Byte>>, ghost limit: nat)
      returns (ok: bool, sz: nat, sp: nat, ghost imageEnd: nat)
    requires m.Valid() && pgdir in m.dirs && USER_BASE <= limit && AlignUp(limit) + 2 * PAGE_SIZE < 0x1_0000_0000
    requires forall i :: 0 <= i < |headers| && headers[i].Some? ==> Linked(headers[i].value, limit)
    requires |argv| != ExecStack.MAX_ARGC + 1 && ExecStack.Fits(argv[..ExecStack.Copied(argv)])
    requires m.MappedBelow(pgdir, USER_BASE) && OpenBelow(m.pages, pgdir, USER_BASE)
    requires Room(m.top, USER_BASE, AlignUp(limit) + 2 * PAGE_SIZE)
    modifies m`top, m`pages, m`dirs, m`plain, m`owner
    ensures m.Valid() && m.dirs == old(m.dirs) && m.plain == old(m.plain)
    ensures ok <==> AllLoad(headers) && |argv| <= ExecStack.MAX_ARGC
    ensures ok ==> USER_BASE + 2 * PAGE_SIZE <= sz < 0x1_0000_0000 && sz % PAGE_SIZE == 0 && m.MappedBelow(pgdir, sz)
    ensures ok ==> imageEnd == ImageEnd(headers, |headers|)
    ensures ok ==> sz == AlignUp(imageEnd) + 2 * PAGE_SIZE && HoldsImage(m.pages, pgdir, headers, |headers|, imageEnd)
    ensures ok ==> HasArguments(m.pages, pgdir, sz, sp, argv) && Guarded(m.pages, pgdir, sz)
    ensures forall e :: e in m.dirs && e != pgdir ==> SameMap(old(m.pages), m.pages, e)
    ensures OthersKept(old(m.pages), m.pages, old(m.owner), m.owner, pgdir)
  {
    hide Apart, SameMap, Lookup, PteOf, OthersKept, DataKept, RolesKept, Linked, Room, Holds, UserAccess, MapsBelow;
    hide AllLoad, HoldsImage, HasArguments, Guarded, Keeps, OpenBelow, ExecStack.Fits, ExecStack.Copied;
    AlignUpMonotone(limit, AlignUp(limit) + 2 * PAGE_SIZE);
    sp := 0;
    ok, sz := LoadProgram(m, pgdir, headers, limit, AlignUp(limit) + 2 * PAGE_SIZE);
    imageEnd := sz;
    if !ok {
      return;
    }
    ghost var pages1, owner1 := m.pages, m.owner;
    RoomAligned(m.top, sz, limit);
    AlignUpMonotone(USER_BASE, sz);
    ok, sz, sp := StackPages(m, pgdir, sz, argv);
    ImageKept(pages1, m.pages, pgdir, headers, |headers|, imageEnd);
    SameMapsTwice(old(m.pages), pages1, m.pages, m.dirs - {pgdir});
    OthersKeptTwice(old(m.pages), pages1, m.pages, old(m.owner), owner1, m.owner, pgdir);
  }

  lemma ImageKept(pages: Pages, pages': Pages, pgdir: nat, headers: seq<Option<Segment>>, n: nat, sz: nat)
    requires n <= |headers| && HoldsImage(pages, pgdir, headers, n, sz) && Keeps(pages, pages', pgdir, sz)
    ensures HoldsImage(pages', pgdir, headers, n, sz)
  {
    hide Holds, ImageOf;
  }

  lemma ArgumentsKept(pages: Pages, pages': Pages, pgdir: nat, top: nat, sp: nat, argv: seq<seq<Minix.Byte>>)
    requires USER_BASE + PAGE_SIZE <= top && top % PAGE_SIZE == 0 && top / PAGE_SIZE <= MAX_VPN
    requires HasArguments(pages, pgdir, top, sp, argv) && Keeps(pages, pages', pgdir, top)
    ensures HasArguments(pages', pgdir, top, sp, argv)
  {
    hide Holds, ExecStack.Decodes, Bytes;
    var p: Page :| Holds(pages, pgdir, top / PAGE_SIZE - 1, p)
        && ExecStack.Decodes(Bytes(p), top - PAGE_SIZE, sp, argv);
    var v := top / PAGE_SIZE - 1;
    assert USER_VPN <= v < MAX_VPN && v * PAGE_SIZE < top;
    assert Holds(pages', pgdir, v, p);
  }

  /** uvm_free of another directory. */
  lemma KeepsAfterFree(k: Layout, pages: Pages, stack: seq<nat>, dirs: set<nat>, plain: set<nat>, managed: set<nat>,
                       owner: map<nat, Role>,
                       pages': Pages, owner': map<nat, Role>, pgdir: nat, sz: nat)
    requires Apart(k, pages, stack, dirs, plain, managed, owner) && pgdir in dirs
    requires SameMap(pages, pages', pgdir) && DataStays(pages, pages', owner, owner')
    ensures Keeps(pages, pages', pgdir, sz)
  {
    hide Lookup, Identity, UserTables;
    KeepsMapped(k, pages, stack, dirs, plain, managed, owner, pages', pgdir, sz);
  }

  /** The program can be read and loaded, and there are not too many arguments. */
  ghost predicate Succeeds(headers: Option<seq<Option<Segment>>>, argv: seq<seq<Minix.Byte>>) {
    headers.Some? && AllLoad(headers.value) && |argv| <= ExecStack.MAX_ARGC
  }

  // What the headers say of the program's memory, byte by byte

  /** Address a lies in the segment, and in the part of it that the file has bytes for. */
  predicate InSegment(h: Option<Segment>, a: nat) {
    h.Some? && h.value.load && h.value.vaddr <= a < h.value.vaddr + h.value.memsz
  }

  predicate InFile(h: Option<Segment>, a: nat) {
    h.Some? && h.value.load && h.value.vaddr <= a < h.value.vaddr + h.value.filesz
  }

  /** The file's byte for address a. */
  function FileByte(h: Option<Segment>, a: nat): Minix.Byte {
    if h.Some? && 0 <= a - h.value.vaddr < |h.value.data| then h.value.data[a - h.value.vaddr] else 0
  }

  /** Header i is the last one of the first n whose file part has the address. */
  ghost predicate LastIn(headers: seq<Option<Segment>>, n: nat, i: nat, a: nat)
    requires n <= |headers|
  {
    i < n && InFile(headers[i], a) && forall j :: i < j < n ==> !InFile(headers[j], a)
  }

  ghost predicate InNone(headers: seq<Option<Segment>>, n: nat, a: nat)
    requires n <= |headers|
  {
    forall j :: 0 <= j < n ==> !InFile(headers[j], a)
  }

  predicate Aligned(h: Option<Segment>) { h.Some? && h.value.load ==> h.value.vaddr % PAGE_SIZE == 0 }

  /** The image reaches to the end of every segment and ends with one of them. */
  lemma {:induction false} EndReaches(headers: seq<Option<Segment>>, n: nat)
    requires n <= |headers|
    ensures ImageEnd(headers, n) >= USER_BASE
    ensures forall i, a: nat :: 0 <= i < n && InSegment(headers[i], a) ==> a < ImageEnd(headers, n)
    ensures forall i :: 0 <= i < n && headers[i].Some? && headers[i].value.load ==>
              headers[i].value.vaddr + headers[i].value.memsz <= ImageEnd(headers, n)
    ensures ImageEnd(headers, n) == USER_BASE || exists i :: 0 <= i < n && EndsAt(headers[i], ImageEnd(headers, n))
  {
    if n > 0 {
      EndReaches(headers, n - 1);
      if ImageEnd(headers, n) != USER_BASE {
        assert ImageEnd(headers, n) == ImageEnd(headers, n - 1) || EndsAt(headers[n - 1], ImageEnd(headers, n));
      }
    }
  }

  predicate EndsAt(h: Option<Segment>, a: nat) { h.Some? && h.value.load && a == h.value.vaddr + h.value.memsz }

  lemma ZeroBytes(o: nat)
    requires o < PAGE_SIZE
    ensures Bytes(Filled(0))[o] == 0
  {
  }

  lemma PutByte(h: Option<Segment>, v: nat, p: Page, o: nat)
    requires h.Some? && Aligned(h) && Loads(h.value) && o < PAGE_SIZE
    ensures Bytes(Put(h.value, v, p))[o]
              == if InFile(h, v * PAGE_SIZE + o) then FileByte(h, v * PAGE_SIZE + o) else Bytes(p)[o]
  {
    hide Bytes, Over;
    if h.value.load {
      OverBytes(h.value.vaddr, h.value.data, h.value.filesz, v, p, o);
    }
  }

  /** The byte of the last file part that has the address, or zero. */
  ghost predicate IsByte(headers: seq<Option<Segment>>, n: nat, a: nat, b: Minix.Byte)
    requires n <= |headers|
  {
    && (InNone(headers, n, a) ==> b == 0)
    && forall i: nat :: LastIn(headers, n, i, a) ==> b == FileByte(headers[i], a)
  }

  lemma NextByte(headers: seq<Option<Segment>>, n: nat, a: nat, b: Minix.Byte, b': Minix.Byte)
    requires n < |headers| && IsByte(headers, n, a, b)
    requires b' == if InFile(headers[n], a) then FileByte(headers[n], a) else b
    ensures IsByte(headers, n + 1, a, b')
  {
    hide InFile, FileByte;
    if InNone(headers, n + 1, a) {
      assert InNone(headers, n, a) && !InFile(headers[n], a);
    }
    forall i: nat | LastIn(headers, n + 1, i, a) ensures b' == FileByte(headers[i], a) {
      if i < n {
        assert LastIn(headers, n, i, a) && !InFile(headers[n], a);
      }
    }
  }

  lemma {:induction false} ImageByte(headers: seq<Option<Segment>>, n: nat, v: nat, o: nat)
    requires n <= |headers| && AllLoad(headers) && o < PAGE_SIZE
    requires forall i :: 0 <= i < |headers| ==> Aligned(headers[i])
    ensures IsByte(headers, n, v * PAGE_SIZE + o, Bytes(ImageOf(headers, n, v))[o])
  {
    hide Bytes, Over, Put, InFile, FileByte;
    if n == 0 {
      ZeroBytes(o);
    } else {
      hide IsByte;
      ImageByte(headers, n - 1, v, o);
      var p := ImageOf(headers, n - 1, v);
      assert Aligned(headers[n - 1]) && Loads(headers[n - 1].value);
      PutByte(headers[n - 1], v, p, o);
      NextByte(headers, n - 1, v * PAGE_SIZE + o, Bytes(p)[o], Bytes(Put(headers[n - 1].value, v, p))[o]);
    }
  }

  /** What the program reads at address a, None where it faults. */
  function UserByte(pages: Pages, d: nat, a: nat): Option<Minix.Byte> {
    if a / PAGE_SIZE >= MAX_VPN then None
    else
      match Isolation.Read(pages, d, a / PAGE_SIZE, a % PAGE_SIZE / 4)
      case None => None
      case Some(w) => Some(ByteOf(w, a % 4))
  }

  /** Every byte of every segment can be read; it is the file's where the file has one, of the last segment that
      has, and zero where no file part goes. */
  ghost predicate HasProgram(pages: Pages, d: nat, headers: seq<Option<Segment>>) {
    forall i: nat, a: nat :: i < |headers| && InSegment(headers[i], a) ==>
      && UserByte(pages, d, a).Some?
      && (LastIn(headers, |headers|, i, a) ==> UserByte(pages, d, a).value == FileByte(headers[i], a))
      && (InNone(headers, |headers|, a) ==> UserByte(pages, d, a).value == 0)
  }

  lemma HeldByte(pages: Pages, d: nat, a: nat, p: Page)
    requires a / PAGE_SIZE < MAX_VPN && Holds(pages, d, a / PAGE_SIZE, p) && UserCan(pages, d, a / PAGE_SIZE)
    ensures UserByte(pages, d, a) == Some(Bytes(p)[a % PAGE_SIZE])
  {
    assert a % 4 == a % PAGE_SIZE % 4;
  }

  lemma SegmentByte(pages: Pages, d: nat, headers: seq<Option<Segment>>, limit: nat, i: nat, a: nat)
    requires i < |headers| && InSegment(headers[i], a) && Loads(headers[i].value) && Linked(headers[i].value, limit)
    requires var end := ImageEnd(headers, |headers|);
             HoldsImage(pages, d, headers, |headers|, end) && Guarded(pages, d, AlignUp(end) + 2 * PAGE_SIZE)
    ensures UserByte(pages, d, a) == Some(Bytes(ImageOf(headers, |headers|, a / PAGE_SIZE))[a % PAGE_SIZE])
  {
    hide Holds, Guarded, ImageOf, Bytes, UserByte, ImageEnd;
    EndReaches(headers, |headers|);
    InGuard(pages, d, ImageEnd(headers, |headers|), a);
    HeldByte(pages, d, a, ImageOf(headers, |headers|, a / PAGE_SIZE));
  }

  lemma ImageIsProgram(pages: Pages, d: nat, headers: seq<Option<Segment>>, limit: nat)
    requires AllLoad(headers) && forall i :: 0 <= i < |headers| && headers[i].Some? ==> Linked(headers[i].value, limit)
    requires var end := ImageEnd(headers, |headers|);
             HoldsImage(pages, d, headers, |headers|, end) && Guarded(pages, d, AlignUp(end) + 2 * PAGE_SIZE)
    ensures HasProgram(pages, d, headers)
  {
    hide HoldsImage, Guarded, ImageOf, Bytes, UserByte, ImageEnd;
    forall i | 0 <= i < |headers| ensures Aligned(headers[i]) {
      assert Linked(headers[i].value, limit) && Loads(headers[i].value);
    }
    forall i: nat, a: nat | i < |headers| && InSegment(headers[i], a)
      ensures UserByte(pages, d, a).Some?
      ensures LastIn(headers, |headers|, i, a) ==> UserByte(pages, d, a).value == FileByte(headers[i], a)
      ensures InNone(headers, |headers|, a) ==> UserByte(pages, d, a).value == 0
    {
      SegmentByte(pages, d, headers, limit, i, a);
      ImageByte(headers, |headers|, a / PAGE_SIZE, a % PAGE_SIZE);
    }
  }

  lemma InGuard(pages: Pages, d: nat, end: nat, a: nat)
    requires USER_BASE <= a < end && Guarded(pages, d, AlignUp(end) + 2 * PAGE_SIZE)
    ensures USER_VPN <= a / PAGE_SIZE < MAX_VPN && a / PAGE_SIZE * PAGE_SIZE < end && UserCan(pages, d, a / PAGE_SIZE)
  {
    hide UserCan;
    AlignUpBounds(end);
    var v, top := a / PAGE_SIZE, AlignUp(end) + 2 * PAGE_SIZE;
    assert v * PAGE_SIZE < top && v != top / PAGE_SIZE - 2;
  }

  /** exec: a new address space from the program headers (None when the file cannot be opened or is no
      program) and the arguments.  On success it holds the image and the argument vector and nothing
      else, the old directory and its tables are returned, and the pages below proc->size are exactly
      the mapped ones, as uvm_copy asserts later; on failure the new directory and its tables are
      returned.  No other address space and no other program's memory changes. */
  method ExecMemory(m: Memory, oldPgdir: nat, headers: Option<seq<Option<Segment>>>, argv: seq<seq<Minix.Byte>>,
                    ghost limit: nat)
      returns (ok: bool, pgdir: nat, size: nat, sp: nat, ghost imageEnd: nat, ghost born: nat)
    requires m.Valid() && oldPgdir in m.dirs && USER_BASE <= limit && AlignUp(limit) + 2 * PAGE_SIZE < 0x1_0000_0000
    requires headers.Some? ==> forall i :: 0 <= i < |headers.value| && headers.value[i].Some? ==>
               Linked(headers.value[i].value, limit)
    requires |argv| != ExecStack.MAX_ARGC + 1 && ExecStack.Fits(argv[..ExecStack.Copied(argv)])
    requires m.top > 0 && Room(m.top - 1, USER_BASE, AlignUp(limit) + 2 * PAGE_SIZE)
    modifies m`top, m`pages, m`dirs, m`plain, m`owner, m.pmmStack
    ensures m.Valid() && m.plain == old(m.plain)
    ensures ok <==> Succeeds(headers, argv)
    ensures !ok ==> m.dirs == old(m.dirs) && pgdir == oldPgdir
    ensures ok ==> pgdir !in old(m.dirs) && m.dirs == old(m.dirs) - {oldPgdir} + {pgdir}
    ensures ok ==> 2 * PAGE_SIZE <= size && USER_BASE + size < 0x1_0000_0000 && size % PAGE_SIZE == 0
    ensures ok ==> m.MappedBelow(pgdir, USER_BASE + size) && m.AllMappedUpto(pgdir, size)
    ensures ok ==> imageEnd == ImageEnd(headers.value, |headers.value|) && HasProgram(m.pages, pgdir, headers.value)
    ensures ok ==>
              && USER_BASE + size == AlignUp(imageEnd) + 2 * PAGE_SIZE
              && HoldsImage(m.pages, pgdir, headers.value, |headers.value|, imageEnd)
    ensures ok ==> HasArguments(m.pages, pgdir, USER_BASE + size, sp, argv) && Guarded(m.pages, pgdir, USER_BASE + size)
    ensures forall e :: e in old(m.dirs) && e in m.dirs ==> SameMap(old(m.pages), m.pages, e)
    ensures born !in old(m.dirs) && OthersKept(old(m.pages), m.pages, old(m.owner), m.owner, born)
  {
    hide Apart, SameMap, Lookup, PteOf, OthersKept, DataKept, RolesKept, DataStays, Linked, Room, Holds, MapsBelow;
    hide AllLoad, HoldsImage, HasProgram, HasArguments, Guarded, Keeps, OpenBelow, ExecStack.Fits, ExecStack.Copied;
    ghost var dirs0 := m.dirs;
    pgdir := m.NewDirectory();
    born, ok, size, sp, imageEnd := pgdir, false, 0, 0, 0;
    var sz := USER_BASE;
    NewIsEmpty(m, pgdir);
    KeptIsOthersKept(old(m.pages), m.pages, old(m.owner), m.owner, pgdir);
    ghost var pages1, owner1 := m.pages, m.owner;
    SameMapsSelf(pages1, dirs0);
    OthersKeptSelf(pages1, owner1, pgdir);
    if headers.Some? {
      ok, sz, sp, imageEnd := BuildImage(m, pgdir, headers.value, argv, limit);
    }
    ghost var pages2, owner2, stack2, dirs2 := m.pages, m.owner, m.pmmStack[..m.top], m.dirs;
    if ok {
      m.UvmFree(oldPgdir);
      size := sz - USER_BASE;
      MappedBelowKept(m, pages2, pgdir, sz);
      GuardKept(pages2, m.pages, pgdir, sz);
      UptoBelow(m, pgdir, sz);
      KeepsAfterFree(m.k, pages2, stack2, dirs2, m.plain, m.managed, owner2, m.pages, m.owner, pgdir, sz);
      ArgumentsKept(pages2, m.pages, pgdir, sz, sp, argv);
      AlignUpMonotone(imageEnd, imageEnd);
      KeepsLess(pages2, m.pages, pgdir, imageEnd, sz);
      ImageKept(pages2, m.pages, pgdir, headers.value, |headers.value|, imageEnd);
      ImageIsProgram(m.pages, pgdir, headers.value, limit);
    } else {
      m.UvmFree(pgdir);
      pgdir := oldPgdir;
    }
    SameMapsThrice(old(m.pages), pages1, pages2, m.pages, dirs0 * m.dirs);
    StaysIsOthersKept(pages2, m.pages, owner2, m.owner, born);
    OthersKeptTwice(old(m.pages), pages1, pages2, old(m.owner), owner1, owner2, born);
    OthersKeptTwice(old(m.pages), pages2, m.pages, old(m.owner), owner2, m.owner, born);
  }

  /** What proc_alloc and uvm_copy take for a child. */
  method ForkMemory(m: Memory, pgdir: nat, size: nat) returns (kstack: nat, child: nat)
    requires m.Valid() && pgdir in m.dirs && USER_BASE + size <= 0x1_0000_0000 && m.AllMappedUpto(pgdir, size)
    requires m.top >= 2 + Pages4k(size) + TablesFor(Pages4k(size))
    modifies m`top, m`pages, m`dirs, m`plain, m`owner
    ensures m.Valid() && child !in old(m.dirs) && m.dirs == old(m.dirs) + {child} && kstack !in old(m.plain)
    ensures m.plain == old(m.plain) + {kstack}
    ensures m.top == old(m.top) - 2 - Pages4k(size) - TablesFor(Pages4k(size))
    ensures m.AllMappedUpto(child, size) && m.Copied(pgdir, child, Pages4k(size)) && m.Open(child, Pages4k(size))
    ensures forall e :: e in old(m.dirs) ==> SameMap(old(m.pages), m.pages, e)
    ensures DataKept(old(m.pages), m.pages, old(m.owner)) && RolesKept(old(m.owner), m.owner)
  {
    hide Apart, SameMap, Lookup;
    kstack := m.AllocPlain();
    ghost var pages1, owner1 := m.pages, m.owner;
    SameMapAll(old(m.pages), m.pages, pgdir);
    child := m.UvmCopy(pgdir, size);
    SameMapsTwice(old(m.pages), pages1, m.pages, old(m.dirs));
    CopiedMapped(m, pgdir, child, size);
  }

  /** The page below the stack of a process of this size. */
  function GuardPage(size: nat): nat
    requires 2 * PAGE_SIZE <= size
  {
    (USER_BASE + size) / PAGE_SIZE - 2
  }

  /** exec, and then fork's uvm_copy if there is memory for it: the guard page below the stack is closed
      to the program, and open to its child. */
  method ExecThenFork(m: Memory, oldPgdir: nat, headers: Option<seq<Option<Segment>>>, argv: seq<seq<Minix.Byte>>,
                      ghost limit: nat)
      returns (ok: bool, forked: bool, pgdir: nat, size: nat, child: nat)
    requires m.Valid() && oldPgdir in m.dirs && USER_BASE <= limit && AlignUp(limit) + 2 * PAGE_SIZE < 0x1_0000_0000
    requires headers.Some? ==> forall i :: 0 <= i < |headers.value| && headers.value[i].Some? ==>
               Linked(headers.value[i].value, limit)
    requires |argv| != ExecStack.MAX_ARGC + 1 && ExecStack.Fits(argv[..ExecStack.Copied(argv)])
    requires m.top > 0 && Room(m.top - 1, USER_BASE, AlignUp(limit) + 2 * PAGE_SIZE)
    modifies m`top, m`pages, m`dirs, m`plain, m`owner, m.pmmStack
    ensures m.Valid() && (ok <==> Succeeds(headers, argv))
    ensures forked ==> ok
    ensures ok && !forked ==> m.top < 1 + Pages4k(size) + TablesFor(Pages4k(size))
    ensures ok ==>
              && 2 * PAGE_SIZE <= size && USER_VPN <= GuardPage(size) < MAX_VPN
              && !UserCan(m.pages, pgdir, GuardPage(size))
    ensures forked ==> UserCan(m.pages, child, GuardPage(size)) && m.SamePage(pgdir, child, GuardPage(size))
  {
    hide Apart, SameMap, Lookup, PteOf, PdeOf, Linked, Room, OthersKept, HoldsImage, HasArguments, AllLoad,
         MapsUpto, MapsBelow, ExecStack.Fits, ExecStack.Copied;
    var sp;
    ghost var end, born;
    ok, pgdir, size, sp, end, born := ExecMemory(m, oldPgdir, headers, argv, limit);
    child, forked := 0, ok && m.top >= 1 + Pages4k(size) + TablesFor(Pages4k(size));
    if ok {
      GuardIsPage(size);
    }
    if forked {
      ghost var pages := m.pages;
      child := m.UvmCopy(pgdir, size);
      GuardKept(pages, m.pages, pgdir, USER_BASE + size);
      m.CanUse(child, Pages4k(size), GuardPage(size));
    }
  }

  lemma GuardIsPage(size: nat)
    requires size % PAGE_SIZE == 0 && 2 * PAGE_SIZE <= size && USER_BASE + size < 0x1_0000_0000
    ensures USER_VPN <= GuardPage(size) < MAX_VPN && GuardPage(size) < USER_VPN + Pages4k(size)
  {
  }

  lemma CopiedMapped(m: Memory, pgdir: nat, child: nat, size: nat)
    requires m.Copied(pgdir, child, Pages4k(size))
    ensures m.AllMappedUpto(child, size)
  {
    forall v | USER_VPN <= v < MAX_VPN && (v - USER_VPN) * PAGE_SIZE < size ensures Lookup(m.pages, child, v).Some? {
      SizeInPages(size, v - USER_VPN);
      assert m.SamePage(pgdir, child, v);
    }
  }

  lemma CopiedBelow(m: Memory, pgdir: nat, child: nat, size: nat)
    requires m.Copied(pgdir, child, Pages4k(size))
    ensures m.MappedBelow(child, USER_BASE + size)
  {
    forall v | USER_VPN <= v < MAX_VPN ensures Lookup(m.pages, child, v).Some? <==> v * PAGE_SIZE < USER_BASE + size {
      SizeInPages(size, v - USER_VPN);
      assert if v < USER_VPN + Pages4k(size) then m.SamePage(pgdir, child, v) else Lookup(m.pages, child, v) == None;
    }
  }

  lemma SizeInPages(size: nat, n: nat)
    ensures n * PAGE_SIZE < size <==> n < Pages4k(size)
  {
  }

  /** After a fork, every run of stores by any programs leaves the child with the parent's memory at
      the fork under the child's own stores, and the parent, where it can read at all, with it under the
      parent's own. */
  lemma ForkIsolates(m: Memory, parent: nat, child: nat, size: nat, run: seq<Isolation.Store>, vpn: nat, off: nat)
    requires m.Valid() && parent in m.dirs && child in m.dirs && Isolation.AreStores(run, m.dirs)
    requires m.Copied(parent, child, Pages4k(size)) && m.Open(child, Pages4k(size))
    requires USER_VPN <= vpn < MAX_VPN && (vpn - USER_VPN) * PAGE_SIZE < size && off < ENTRIES
    ensures Isolation.At(m.pages, parent, vpn, off).Some?
    ensures var w := Isolation.At(m.pages, parent, vpn, off).value.w;
            && Isolation.Read(Isolation.Run(m.pages, run), child, vpn, off)
               == Some(Isolation.Latest(Isolation.OnlyBy(run, child), child, vpn, off, w))
            && Isolation.Read(Isolation.Run(m.pages, run), parent, vpn, off)
               == if UserCan(m.pages, parent, vpn) then
                   Some(Isolation.Latest(Isolation.OnlyBy(run, parent), parent, vpn, off, w)) else None
  {
    hide Apart, Lookup, Isolation.Run, Isolation.Latest, Isolation.OnlyBy, UserCan;
    SizeInPages(size, vpn - USER_VPN);
    assert m.SamePage(parent, child, vpn);
    m.CanUse(child, Pages4k(size), vpn);
    var w := Isolation.At(m.pages, parent, vpn, off).value.w;
    Isolation.LatestOfOwn(run, child, vpn, off, w);
    Isolation.LatestOfOwn(run, parent, vpn, off, w);
    Isolation.EachAlone(m.k, m.pages, m.pmmStack[..m.top], m.dirs, m.plain, m.managed, m.owner, run, child, vpn, off);
    Isolation.EachAlone(m.k, m.pages, m.pmmStack[..m.top], m.dirs, m.plain, m.managed, m.owner, run, parent, vpn, off);
  }

  /** What wait returns of a zombie: its kernel stack, its directory and its tables, each once. */
  method ReapMemory(m: Memory, kstack: nat, pgdir: nat)
    requires m.Valid() && pgdir in m.dirs && kstack in m.plain
    modifies m`top, m`pages, m`dirs, m`plain, m`owner, m.pmmStack
    ensures m.Valid() && m.dirs == old(m.dirs) - {pgdir} && m.plain == old(m.plain) - {kstack}
    ensures pgdir < |old(m.pages)| && m.top == old(m.top) + 2 + m.TablesIn(old(m.pages)[pgdir], ENTRIES) <= m.count
    ensures forall e :: e in m.dirs ==>
              SameMap(old(m.pages), m.pages, e) && Isolation.SameMemory(old(m.pages), m.pages, e)
  {
    hide Apart, SameMap, Lookup, Isolation.SameMemory, Isolation.Leaves;
    ghost var dirs0, owner0 := m.dirs, m.owner;
    LeavesNow(m);
    m.FreePlain(kstack);
    ghost var pages1, dirs1, owner1 := m.pages, m.dirs, m.owner;
    Isolation.MemoryKept(old(m.pages), pages1, dirs0, dirs1, owner0, -1);
    LeavesNow(m);
    m.UvmFree(pgdir);
    Isolation.MemoryKept(pages1, m.pages, dirs1, m.dirs, owner1, -1);
    SameMapsTwice(old(m.pages), pages1, m.pages, m.dirs);
    Isolation.MemoryTwice(old(m.pages), pages1, m.pages, m.dirs);
  }

  lemma FramesByData(pages: Pages, pages': Pages, owner: map<nat, Role>)
    requires DataKept(pages, pages', owner)
    ensures Isolation.FramesKept(pages, pages', owner, -1)
  {
  }

  lemma FramesByOthers(pages: Pages, pages': Pages, owner: map<nat, Role>, owner': map<nat, Role>, born: nat)
    requires OthersKept(pages, pages', owner, owner', born)
    ensures Isolation.FramesKept(pages, pages', owner, born)
  {
  }

  lemma LeavesNow(m: Memory)
    requires m.Valid()
    ensures Isolation.Leaves(m.pages, m.dirs, m.owner)
  {
    Isolation.LeavesOf(m.k, m.pages, m.pmmStack[..m.top], m.dirs, m.plain, m.managed, m.owner);
  }

  // The first process

  lemma PlainFrame(m: Memory, f: nat)
    requires m.Valid() && f in m.plain
    ensures 0 < f < m.k.top <= USER_VPN && f * PAGE_SIZE / PAGE_SIZE == f && f * PAGE_SIZE < 0x1_0000_0000
  {
  }

  lemma BelowKept(pages: Pages, pages': Pages, d: nat, sz: nat)
    requires MapsBelow(pages, d, sz)
    requires forall v :: USER_VPN <= v < MAX_VPN ==> Lookup(pages', d, v) == Lookup(pages, d, v)
    ensures MapsBelow(pages', d, sz)
  {
  }

  lemma BelowKeptTwice(pages: Pages, pages1: Pages, pages2: Pages, d: nat, sz: nat)
    requires MapsBelow(pages, d, sz) && SameMap(pages, pages1, d) && SameMap(pages1, pages2, d)
    ensures MapsBelow(pages2, d, sz)
  {
  }

  lemma OpenUserHalf(pages: Pages, pages': Pages, d: nat, i: nat)
    requires OpenTables(pages, d) && d < |pages'| && i < USER_PDE
    requires forall j :: 0 <= j < ENTRIES && j != i ==> pages'[d][j] == pages[d][j]
    ensures OpenTables(pages', d)
  {
  }

  lemma ReadsAll(pages: Pages, d: nat, vpn: nat, p: Page)
    requires USER_VPN <= vpn < MAX_VPN && Holds(pages, d, vpn, p) && OpenTables(pages, d)
    requires UserAccess(PteOf(pages, d, vpn))
    ensures forall o :: 0 <= o < ENTRIES ==> Isolation.Read(pages, d, vpn, o) == Some(p[o])
  {
    hide UserAccess;
    assert USER_PDE <= vpn / ENTRIES < ENTRIES && pages[d][vpn / ENTRIES] != 0;
  }

  lemma FirstPage(pages: Pages, pages': Pages, d: nat)
    requires MapsBelow(pages, d, USER_BASE) && Lookup(pages', d, USER_VPN).Some?
    requires forall v :: 0 <= v < MAX_VPN && v != USER_VPN ==> Lookup(pages', d, v) == Lookup(pages, d, v)
    ensures MapsBelow(pages', d, USER_BASE + PAGE_SIZE)
  {
  }

  /** proc_init's memory and uvm_init_fst: a kernel stack, a directory, and one user page that holds
      init's code. */
  method FirstProgram(m: Memory, code: Page) returns (kstack: nat, pgdir: nat)
    requires m.Valid() && m.top >= 4
    modifies m`top, m`pages, m`dirs, m`plain, m`owner
    ensures m.Valid() && m.top >= old(m.top) - 4
    ensures pgdir !in old(m.dirs) && m.dirs == old(m.dirs) + {pgdir} && m.plain == old(m.plain) + {kstack}
    ensures m.MappedBelow(pgdir, USER_BASE + PAGE_SIZE) && m.AllMappedUpto(pgdir, PAGE_SIZE)
    ensures Holds(m.pages, pgdir, USER_VPN, code)
    ensures forall o :: 0 <= o < ENTRIES ==> Isolation.Read(m.pages, pgdir, USER_VPN, o) == Some(code[o])
  {
    hide Apart, SameMap, Lookup, PteOf, RolesKept, MapsBelow, OpenTables, UserAccess;
    kstack := m.AllocPlain();
    PlainFrame(m, kstack);
    pgdir := m.NewDirectory();
    NewIsEmpty(m, pgdir);
    ghost var pages1 := m.pages;
    m.VmmMapKernel(pgdir, kstack * PAGE_SIZE, PTE_R);
    OpenUserHalf(pages1, m.pages, pgdir, PdeIndex(kstack * PAGE_SIZE));
    BelowKept(pages1, m.pages, pgdir, USER_BASE);
    ghost var pages2 := m.pages;
    var room := m.PmmAlloc(Leaf(pgdir, USER_VPN));
    ghost var pages3 := m.pages;
    m.WritePage(room, code);
    SameTables(pages2, m.pages, pgdir);
    BelowKeptTwice(pages2, pages3, m.pages, pgdir, USER_BASE);
    ghost var pages4 := m.pages;
    OpenFlags();
    m.VmmMapUser(pgdir, USER_BASE, room, PTE_R + PTE_U);
    OpenEntry(room, PTE_R + PTE_U);
    ReadsAll(m.pages, pgdir, USER_VPN, code);
    FirstPage(pages4, m.pages, pgdir);
    UptoBelow(m, pgdir, USER_BASE + PAGE_SIZE);
  }

  /** Sixteen megabytes of memory, with the kernel's tables from frame 256 on. */
  function SmallLayout(): Layout { Layout(256, 4096) }

  /** The kernel sets up its memory, makes the first process, and that process forks: nothing stands in
      the way of the conditions above. */
  method BootMemory(code: Page) returns (m: Memory, init: nat, child: nat)
    ensures m.Valid() && init in m.dirs && child in m.dirs && init != child
    ensures Holds(m.pages, child, USER_VPN, code)
  {
    hide Apart, SameMap, Lookup, RolesKept, Identity, MapsBelow;
    var memory := seq(4096, i => Filled(0));
    var tables := VmmInit(SmallLayout(), memory);
    m := new Memory(SmallLayout(), 2048, tables);
    var kstack;
    kstack, init := FirstProgram(m, code);
    ghost var pages1, owner1, stack1, dirs1 := m.pages, m.owner, m.pmmStack[..m.top], m.dirs;
    LeafFrame(m.k, m.pages, stack1, m.dirs, m.plain, m.managed, m.owner, init, USER_VPN);
    var kstack2;
    kstack2, child := ForkMemory(m, init, PAGE_SIZE);
    SameMapAt(pages1, m.pages, init, USER_VPN);
    assert m.SamePage(init, child, USER_VPN);
  }
}
