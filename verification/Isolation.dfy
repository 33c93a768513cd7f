/** What user programs see of memory: every address space behaves as if it were alone. */
module Isolation {
  import opened Wrappers
  import opened Paging

  /** A user program running on directory d stores a word. */
  datatype Store = Store(d: nat, vpn: nat, off: nat, w: Word)

  predicate IsStore(s: Store) { USER_VPN <= s.vpn < MAX_VPN && s.off < ENTRIES }

  /** A word of memory, and whether user programs can get at it. */
  datatype Cell = Cell(w: Word, user: bool)

  /** What is mapped at an address. */
  function At(pages: Pages, d: nat, vpn: nat, off: nat): Option<Cell>
    requires vpn < MAX_VPN && off < ENTRIES
  {
    match Lookup(pages, d, vpn)
    case None => None
    case Some(f) => if f < |pages| then Some(Cell(pages[f][off], UserCan(pages, d, vpn))) else None
  }

  /** What a program reads there; None is a fault. */
  function Read(pages: Pages, d: nat, vpn: nat, off: nat): Option<Word>
    requires vpn < MAX_VPN && off < ENTRIES
  {
    match At(pages, d, vpn, off)
    case None => None
    case Some(c) => if c.user then Some(c.w) else None
  }

  /** The store goes to the frame the page is mapped to; a page that is not mapped or that user programs
      cannot get at is a fault, which writes nothing. */
  function Write(pages: Pages, s: Store): Pages
    requires IsStore(s)
  {
    if Read(pages, s.d, s.vpn, s.off).Some? then
      var f := Lookup(pages, s.d, s.vpn).value;
      pages[f := pages[f][s.off := s.w]]
    else pages
  }

  ghost predicate AreStores(run: seq<Store>, dirs: set<nat>) {
    forall i :: 0 <= i < |run| ==> IsStore(run[i]) && run[i].d in dirs
  }

  function Run(pages: Pages, run: seq<Store>): Pages
    requires forall i :: 0 <= i < |run| ==> IsStore(run[i])
  {
    if run == [] then pages else Write(Run(pages, run[..|run| - 1]), run[|run| - 1])
  }

  /** What d's own stores leave in a word that held w: a program alone in a flat memory. */
  function Latest(run: seq<Store>, d: nat, vpn: nat, off: nat, w: Word): Word {
    if run == [] then w else
      var s := run[|run| - 1];
      if s.d == d && s.vpn == vpn && s.off == off then s.w else Latest(run[..|run| - 1], d, vpn, off, w)
  }

  function OnlyBy(run: seq<Store>, d: nat): seq<Store> {
    if run == [] then [] else
      OnlyBy(run[..|run| - 1], d) + if run[|run| - 1].d == d then [run[|run| - 1]] else []
  }

  lemma WriteStep(k: Layout, pages: Pages, stack: seq<nat>, dirs: set<nat>, plain: set<nat>, managed: set<nat>,
                  owner: map<nat, Role>, s: Store)
    requires Apart(k, pages, stack, dirs, plain, managed, owner) && IsStore(s) && s.d in dirs
    ensures Apart(k, Write(pages, s), stack, dirs, plain, managed, owner)
    ensures forall d :: d in dirs ==> SameMap(pages, Write(pages, s), d)
    ensures forall d, vpn, off :: d in dirs && USER_VPN <= vpn < MAX_VPN && 0 <= off < ENTRIES ==>
              At(Write(pages, s), d, vpn, off) ==
              if d == s.d && vpn == s.vpn && off == s.off && Read(pages, d, vpn, off).Some? then
                  Some(Cell(s.w, true)) else At(pages, d, vpn, off)
  {
    hide Identity, Stacked, UserTables;
    if Read(pages, s.d, s.vpn, s.off).Some? {
      var f := Lookup(pages, s.d, s.vpn).value;
      ContentsWrite(k, pages, stack, dirs, plain, managed, owner, f, pages[f][s.off := s.w]);
      hide PteOf, PdeOf, Lookup, UserAccess;
    }
  }

  /** Over every run of stores by any number of programs, a word of one of them holds what its own
      stores left there; no frame comes to be used twice. */
  lemma {:induction false} EachAlone(k: Layout, pages: Pages, stack: seq<nat>, dirs: set<nat>, plain: set<nat>,
                                     managed: set<nat>,
                                     owner: map<nat, Role>, run: seq<Store>, d: nat, vpn: nat, off: nat)
    requires Apart(k, pages, stack, dirs, plain, managed, owner) && AreStores(run, dirs)
    requires d in dirs && USER_VPN <= vpn < MAX_VPN && off < ENTRIES
    ensures Apart(k, Run(pages, run), stack, dirs, plain, managed, owner)
    ensures SameMap(pages, Run(pages, run), d)
    ensures Read(Run(pages, run), d, vpn, off) ==
            match Read(pages, d, vpn, off) case None => None case Some(w) => Some(Latest(run, d, vpn, off, w))
  {
    hide Apart, Identity, Lookup;
    if run != [] {
      var n := |run| - 1;
      EachAlone(k, pages, stack, dirs, plain, managed, owner, run[..n], d, vpn, off);
      WriteStep(k, Run(pages, run[..n]), stack, dirs, plain, managed, owner, run[n]);
    }
  }

  lemma {:induction false} LatestOfOwn(run: seq<Store>, d: nat, vpn: nat, off: nat, w: Word)
    ensures Latest(OnlyBy(run, d), d, vpn, off, w) == Latest(run, d, vpn, off, w)
    ensures forall i :: 0 <= i < |OnlyBy(run, d)| ==> OnlyBy(run, d)[i] in run && OnlyBy(run, d)[i].d == d
  {
    if run != [] {
      var r := OnlyBy(run[..|run| - 1], d);
      LatestOfOwn(run[..|run| - 1], d, vpn, off, w);
      if run[|run| - 1].d == d {
        assert (r + [run[|run| - 1]])[..|r|] == r;
      } else {
        assert OnlyBy(run, d) == r;
      }
    }
  }

  /** What the others store makes no difference to what d reads. */
  lemma NoInterference(k: Layout, pages: Pages, stack: seq<nat>, dirs: set<nat>, plain: set<nat>, managed: set<nat>,
                       owner: map<nat, Role>,
                       run: seq<Store>, d: nat, vpn: nat, off: nat)
    requires Apart(k, pages, stack, dirs, plain, managed, owner) && AreStores(run, dirs)
    requires d in dirs && USER_VPN <= vpn < MAX_VPN && off < ENTRIES
    ensures AreStores(OnlyBy(run, d), dirs)
    ensures Read(Run(pages, run), d, vpn, off) == Read(Run(pages, OnlyBy(run, d)), d, vpn, off)
  {
    var w: Word := if Read(pages, d, vpn, off).Some? then Read(pages, d, vpn, off).value else 0;
    LatestOfOwn(run, d, vpn, off, w);
    EachAlone(k, pages, stack, dirs, plain, managed, owner, run, d, vpn, off);
    EachAlone(k, pages, stack, dirs, plain, managed, owner, OnlyBy(run, d), d, vpn, off);
  }

  /** Fork isolation: where the child's copy agrees with the parent at the fork, every later run of
      stores leaves the child with the fork's contents under its own stores alone, and the parent
      with the same contents under the parent's stores alone. */
  lemma ForkIsolation(k: Layout, pages: Pages, stack: seq<nat>, dirs: set<nat>, plain: set<nat>, managed: set<nat>,
                      owner: map<nat, Role>,
                      run: seq<Store>, parent: nat, child: nat, vpn: nat, off: nat)
    requires Apart(k, pages, stack, dirs, plain, managed, owner) && AreStores(run, dirs)
    requires parent in dirs && child in dirs && USER_VPN <= vpn < MAX_VPN && off < ENTRIES
    requires Read(pages, child, vpn, off) == Read(pages, parent, vpn, off) && Read(pages, parent, vpn, off).Some?
    ensures var w := Read(pages, parent, vpn, off).value;
            && Read(Run(pages, run), child, vpn, off) == Some(Latest(OnlyBy(run, child), child, vpn, off, w))
            && Read(Run(pages, run), parent, vpn, off) == Some(Latest(OnlyBy(run, parent), parent, vpn, off, w))
  {
    var w := Read(pages, parent, vpn, off).value;
    LatestOfOwn(run, child, vpn, off, w);
    LatestOfOwn(run, parent, vpn, off, w);
    EachAlone(k, pages, stack, dirs, plain, managed, owner, run, child, vpn, off);
    EachAlone(k, pages, stack, dirs, plain, managed, owner, run, parent, vpn, off);
  }

  // ---------------------------------------------------------------------------------------
  // One address space while memory changes around it

  /** Directory d reads the same in both memories. */
  ghost predicate SameMemory(pages: Pages, pages': Pages, d: nat) {
    forall vpn, off :: USER_VPN <= vpn < MAX_VPN && 0 <= off < ENTRIES ==>
        At(pages', d, vpn, off) == At(pages, d, vpn, off)
  }

  /** Every page of a directory has a frame of its own. */
  ghost predicate Leaves(pages: Pages, dirs: set<nat>, owner: map<nat, Role>) {
    forall d, vpn :: d in dirs && USER_VPN <= vpn < MAX_VPN && Lookup(pages, d, vpn).Some? ==>
      var f := Lookup(pages, d, vpn).value; f < |pages| && f in owner && owner[f] == Leaf(d, vpn)
  }

  lemma LeavesOf(k: Layout, pages: Pages, stack: seq<nat>, dirs: set<nat>, plain: set<nat>, managed: set<nat>,
                 owner: map<nat, Role>)
    requires Apart(k, pages, stack, dirs, plain, managed, owner)
    ensures Leaves(pages, dirs, owner)
  {
    hide Identity, UserTables, Lookup;
  }

  /** User frames, but for those of directory `born`, keep their contents. */
  ghost predicate FramesKept(pages: Pages, pages': Pages, owner: map<nat, Role>, born: int) {
    && |pages'| == |pages|
    && forall f :: f in owner && f < |pages| && owner[f].Leaf? && owner[f].d != born ==> pages'[f] == pages[f]
  }

  /** With its mappings and its frames an address space stays the same. */
  lemma MemoryKept(pages: Pages, pages': Pages, dirs: set<nat>, dirs': set<nat>, owner: map<nat, Role>, born: int)
    requires Leaves(pages, dirs, owner) && FramesKept(pages, pages', owner, born)
    requires forall d :: d in dirs && d in dirs' ==> SameMap(pages, pages', d) && d != born
    ensures forall d :: d in dirs && d in dirs' ==> SameMemory(pages, pages', d)
  {
    forall d | d in dirs && d in dirs' ensures SameMemory(pages, pages', d) {
      assert SameMap(pages, pages', d);
      hide PteOf, PdeOf;
    }
  }

  lemma MemoryTwice(pages0: Pages, pages1: Pages, pages2: Pages, dirs: set<nat>)
    requires forall d :: d in dirs ==> SameMemory(pages0, pages1, d) && SameMemory(pages1, pages2, d)
    ensures forall d :: d in dirs ==> SameMemory(pages0, pages2, d)
  {
    hide At;
  }

  lemma MemorySelf(pages: Pages, dirs: set<nat>)
    ensures forall d :: d in dirs ==> SameMemory(pages, pages, d)
  {
  }
}
