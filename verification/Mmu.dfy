/** The processor's own translation of user addresses, and that user programs get what Isolation says. */
module Mmu {
  import opened Wrappers
  import opened Paging
  import Isolation

  /** An entry lets a user program through: bit 0 says that it is present, bit 1 that it may be written, bit 2
      that user programs may pass. */
  predicate Passes(e: Word, write: bool) { e % 2 == 1 && e / 4 % 2 == 1 && (write ==> e / 2 % 2 == 1) }

  /** The physical address behind va in user mode, to read or to write, None for a page fault: ten bits of va choose
      the directory's entry, ten the table's. */
  function Physical(pages: Pages, d: nat, va: nat, write: bool): Option<nat>
    requires va < 0x1_0000_0000
  {
    if d >= |pages| then None
    else
      var pde := pages[d][va / 0x40_0000];
      if !Passes(pde, write) || pde / 4096 >= |pages| then None
      else
        var pte := pages[pde / 4096][va / 4096 % 1024];
        if !Passes(pte, write) then None else Some(pte / 4096 * 4096 + va % 4096)
  }

  /** What Isolation lets a program use it can read and write, and the guard page, closed in its entry, it cannot
      even read.  The two levels of vmm_get_mapping are the processor's, although it does not look whether the table is
      present: a user table that is entered always is. */
  lemma ReadsAsTranslated(k: Layout, pages: Pages, stack: seq<nat>, dirs: set<nat>, plain: set<nat>, managed: set<nat>,
                          owner: map<nat, Role>, d: nat, va: nat)
    requires Apart(k, pages, stack, dirs, plain, managed, owner) && d in dirs && 0xc000_0000 <= va < 0x1_0000_0000
    ensures Isolation.Read(pages, d, va / 4096, va % 4096 / 4)
            == match Physical(pages, d, va, true)
               case None => None
               case Some(p) => if p / 4096 < |pages| then Some(pages[p / 4096][p % 4096 / 4]) else None
    ensures Physical(pages, d, va, true).Some? ==>
              && Physical(pages, d, va, true).value / 4096 < |pages|
              && Physical(pages, d, va, false) == Physical(pages, d, va, true)
    ensures PteOf(pages, d, va / 4096) / 4 % 2 == 0 ==> Physical(pages, d, va, false) == None
  {
    hide Identity, Stacked;
    var vpn := va / 4096;
    assert USER_VPN <= vpn < MAX_VPN && va / 0x40_0000 == vpn / ENTRIES && USER_PDE <= vpn / ENTRIES < ENTRIES;
    var pde := pages[d][vpn / ENTRIES];
    if pde != 0 {
      assert owner[Frame(pde)] == Table(d, vpn / ENTRIES) && 0 < Frame(pde) < k.top;
    }
    if Lookup(pages, d, vpn).Some? {
      assert owner[Lookup(pages, d, vpn).value] == Leaf(d, vpn);
    }
    if Physical(pages, d, va, true).Some? {
      Split(pages[Frame(pde)][vpn % ENTRIES], va);
    }
  }

  lemma Split(pte: Word, va: nat)
    ensures (pte / 4096 * 4096 + va % 4096) / 4096 == pte / 4096
    ensures (pte / 4096 * 4096 + va % 4096) % 4096 == va % 4096
  {
  }
}
