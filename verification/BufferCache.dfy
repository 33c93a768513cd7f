/** The buffer cache of fs/bcache.c in front of one disk.  A transfer (`ide_rw`) is one step here;
    the request queue behind it is in module Ide. */
module BufferCache {
  import opened Minix
  import opened BufferList
  import opened Sets

  const ROOT_DEV: nat := 0
  const NODEV: nat := 255 // (char)-1, char being unsigned

  /** What the holder of a busy buffer sees. */
  datatype Held = Held(blkno: nat, data: Block)

  /** `held` lists the busy buffers. */
  ghost predicate Shows(bufs: seq<Buf>, held: map<nat, Held>) {
    && (forall b :: b in held ==> b < NBUF)
    && (forall b :: 0 <= b < NBUF && b < |bufs| ==>
          && (bufs[b].busy <==> b in held)
          && (b in held ==> held[b] == Held(bufs[b].blkno, bufs[b].data)))
  }

  /** No block is cached twice, nothing waits to be written, and an idle copy agrees with the
      disk unless its block is in `stale`. */
  ghost predicate Coherent(bufs: seq<Buf>, disk: Disk, stale: set<nat>) {
    && |bufs| == NBUF + 1
    && (forall b :: 0 <= b < NBUF ==>
          && !bufs[b].dirty
          && (bufs[b].dev == NODEV ==> !bufs[b].busy && !bufs[b].valid)
          && (bufs[b].dev != NODEV ==> bufs[b].dev == ROOT_DEV && bufs[b].blkno < |disk|)
          && (bufs[b].dev == ROOT_DEV && bufs[b].valid && !bufs[b].busy && bufs[b].blkno !in stale ==>
                bufs[b].data == disk[bufs[b].blkno]))
    && (forall b, c :: 0 <= b < c < NBUF && bufs[b].dev == ROOT_DEV && bufs[c].dev == ROOT_DEV ==>
          bufs[b].blkno != bufs[c].blkno)
  }

  /** The list runs from the last released buffer to the one released longest ago. */
  ghost predicate ByLastRelease(order: seq<nat>, lastRelease: seq<nat>, clock: nat) {
    && |lastRelease| == NBUF
    && Distinct(order)
    && (forall b :: 0 <= b < NBUF ==> lastRelease[b] < clock)
    && (forall i, j :: 0 <= i < j < |order| ==> lastRelease[order[i]] > lastRelease[order[j]])
  }

  /** With fewer than NBUF busy buffers, one in the list is idle. */
  lemma IdleExists(bufs: seq<Buf>, held: map<nat, Held>, order: seq<nat>)
    requires |bufs| == NBUF + 1 && Arrangement(order) && Shows(bufs, held) && |held| < NBUF
    ensures exists i :: 0 <= i < NBUF && !bufs[order[i]].busy
  {
    if forall i :: 0 <= i < NBUF ==> bufs[order[i]].busy {
      forall b | b in Below(NBUF) ensures b in held.Keys {
        assert b in order;
      }
      SubsetSize(Below(NBUF), held.Keys);
      assert false;
    }
  }

  /** The buffers that process p holds, when user[b] holds buffer b. */
  ghost function Share(keys: set<nat>, user: map<nat, nat>, p: nat): set<nat> {
    set b | b in keys && b in user && user[b] == p
  }

  lemma ShareSplit(keys: set<nat>, user: map<nat, nat>, p: nat, q: nat)
    ensures |keys| == |keys - Share(keys, user, p)| + |Share(keys, user, p)|
    ensures q != p ==> Share(keys - Share(keys, user, p), user, q) == Share(keys, user, q)
    ensures forall b :: b in keys - Share(keys, user, p) ==> b in keys && (b in user ==> user[b] != p)
  {
    assert keys == (keys - Share(keys, user, p)) + Share(keys, user, p);
  }

  lemma {:induction false} SharesBound(keys: set<nat>, user: map<nat, nat>, procs: set<nat>)
    requires forall b :: b in keys ==> b in user && user[b] in procs
    requires forall p :: p in procs ==> |Share(keys, user, p)| <= 2
    ensures |keys| <= 2 * |procs|
  {
    hide Share;
    if procs == {} {
      assert keys == {};
    } else {
      var p :| p in procs;
      ShareSplit(keys, user, p, p);
      forall q | q in procs - {p} ensures |Share(keys - Share(keys, user, p), user, q)| <= 2 {
        ShareSplit(keys, user, p, q);
      }
      SharesBound(keys - Share(keys, user, p), user, procs - {p});
    }
  }

  /** Every file-system operation holds at most two buffers.  With fewer than NBUF / 2 of them at work
      one more finds the two buffers it needs. */
  lemma RoomForOperation(held: map<nat, Held>, user: map<nat, nat>, procs: set<nat>)
    requires forall b :: b in held ==> b in user && user[b] in procs
    requires forall p :: p in procs ==> |Share(held.Keys, user, p)| <= 2
    requires |procs| < NBUF / 2
    ensures |held| + 2 <= NBUF
  {
    SharesBound(held.Keys, user, procs);
    assert |held| == |held.Keys|;
  }

  /** The list as bcache_init leaves it: the last buffer inserted comes first. */
  ghost predicate Countdown(order: seq<nat>, n: nat) {
    |order| == n && forall i :: 0 <= i < n ==> order[i] == n - 1 - i
  }

  ghost predicate Unused(bufs: seq<Buf>, n: nat) {
    && |bufs| == NBUF + 1
    && forall k :: 0 <= k < NBUF ==>
         !bufs[k].busy && !bufs[k].valid && !bufs[k].dirty && (k < n ==> bufs[k].dev == NODEV)
  }

  lemma CountdownArranges(order: seq<nat>, lastRelease: seq<nat>)
    requires Countdown(order, NBUF) && |lastRelease| == NBUF && forall b :: 0 <= b < NBUF ==> lastRelease[b] == b
    ensures Arrangement(order) && ByLastRelease(order, lastRelease, NBUF)
  {
    forall k | 0 <= k < NBUF ensures k in order {
      assert order[NBUF - 1 - k] == k;
    }
  }

  /** What a transfer makes of its buffer. */
  function Transferred(b: Buf, disk: Disk): Buf
    requires b.blkno < |disk|
  {
    b.(valid := true, dirty := false, data := if b.dirty then b.data else disk[b.blkno])
  }

  ghost function StaleAfter(stale: set<nat>, h: Held, disk: Disk): set<nat>
    requires h.blkno < |disk|
  {
    if h.data == disk[h.blkno] then stale else stale + {h.blkno}
  }

  /** Releasing b: a copy that differs from the disk is the one exception to coherence. */
  lemma ReleaseCoherent(s: seq<Buf>, t: seq<Buf>, disk: Disk, stale: set<nat>, held: map<nat, Held>, b: nat)
    requires Coherent(s, disk, stale) && Shows(s, held) && b in held && SameButLinks(s, t)
    ensures Coherent(t[b := t[b].(busy := false)], disk, StaleAfter(stale, held[b], disk))
    ensures Shows(t[b := t[b].(busy := false)], held - {b})
  {
  }

  ghost function PositionOf(order: seq<nat>, b: nat): (p: nat)
    requires Arrangement(order) && b < NBUF
    ensures p < NBUF && order[p] == b
  {
    assert b in order;
    var p :| 0 <= p < |order| && order[p] == b;
    p
  }

  lemma ReleaseOrdered(order: seq<nat>, lastRelease: seq<nat>, clock: nat, p: nat)
    requires Arrangement(order) && ByLastRelease(order, lastRelease, clock) && p < NBUF
    ensures Arrangement(MoveToFront(order, p))
    ensures ByLastRelease(MoveToFront(order, p), lastRelease[order[p] := clock], clock + 1)
  {
    MoveToFrontArranges(order, p);
  }

  predicate Caches(b: Buf, blkno: nat) { b.dev == ROOT_DEV && b.blkno == blkno }

  lemma LinksKept(s: seq<Buf>, t: seq<Buf>, order: seq<nat>)
    requires |s| == |t| == NBUF + 1 && Distinct(order) && Linked(s, order)
    requires forall i :: 0 <= i <= NBUF ==> t[i].prev == s[i].prev && t[i].next == s[i].next
    ensures Linked(t, order)
  {
    forall i | 0 <= i <= |order|
      ensures t[Node(order, i)].next == Node(order, After(i, |order|))
      ensures t[Node(order, i)].prev == Node(order, Before(i, |order|))
    {
      assert s[Node(order, i)].next == Node(order, After(i, |order|));
    }
  }

  ghost predicate BusyAbove(bufs: seq<Buf>, order: seq<nat>, i: nat)
    requires |bufs| == NBUF + 1 && Arrangement(order)
  {
    forall j :: i <= j < NBUF ==> bufs[order[j]].busy
  }

  lemma OldestIdle(bufs: seq<Buf>, held: map<nat, Held>, order: seq<nat>, lastRelease: seq<nat>, clock: nat, i: nat)
    requires |bufs| == NBUF + 1 && Arrangement(order) && Shows(bufs, held) && |held| < NBUF
    requires ByLastRelease(order, lastRelease, clock) && i <= NBUF
    requires BusyAbove(bufs, order, i)
    ensures i != 0
    ensures forall c :: 0 <= c < NBUF && !bufs[c].busy ==> lastRelease[Node(order, i)] <= lastRelease[c]
  {
    IdleExists(bufs, held, order);
    var q :| 0 <= q < NBUF && !bufs[order[q]].busy;
    assert Node(order, q + 1) == order[q];
    forall c | 0 <= c < NBUF && !bufs[c].busy
      ensures lastRelease[Node(order, i)] <= lastRelease[c]
    {
      assert c in order;
      var j :| 0 <= j < |order| && order[j] == c;
      assert Node(order, j + 1) == c;
    }
  }

  class BufferCache {
    const buf: array<Buf>
    var disk: Disk
    ghost var order: seq<nat>
    ghost var held: map<nat, Held>
    ghost var stale: set<nat>
    ghost var lastRelease: seq<nat>
    ghost var clock: nat

    ghost predicate Valid()
      reads this, buf
    {
      && buf.Length == NBUF + 1
      && Arrangement(order)
      && Linked(buf[..], order)
      && Shows(buf[..], held)
      && Coherent(buf[..], disk, stale)
      && ByLastRelease(order, lastRelease, clock)
    }

    /** bcache_init: each buffer in turn goes right after the head. */
    constructor (blocks: Disk)
      ensures Valid() && fresh(buf)
      ensures disk == blocks && held == map[] && stale == {}
    {
      buf := new Buf[NBUF + 1](_ => Buf(false, false, false, 0, 0, 0, 0, ZeroBlock()));
      disk := blocks;
      held, stale, clock := map[], {}, NBUF;
      lastRelease := seq(NBUF, i => i);
      order := [];
      new;
      buf[HEAD] := buf[HEAD].(prev := HEAD);
      buf[HEAD] := buf[HEAD].(next := HEAD);
      for b := 0 to NBUF
        invariant Countdown(order, b) && Linked(buf[..], order) && Unused(buf[..], b)
        invariant disk == blocks && held == map[] && stale == {} && clock == NBUF && lastRelease == seq(NBUF, i => i)
      {
        Enlist(b);
      }
      CountdownArranges(order, lastRelease);
    }

    method Enlist(b: nat)
      requires b < NBUF && buf.Length == NBUF + 1
      requires Countdown(order, b) && Linked(buf[..], order) && Unused(buf[..], b)
      modifies this`order, buf
      ensures Countdown(order, b + 1) && Linked(buf[..], order) && Unused(buf[..], b + 1)
    {
      ghost var s := buf[..];
      buf[b] := buf[b].(dev := NODEV);
      ghost var t := buf[..];
      LinksKept(s, t, order);
      InsertFirstPrepends(t, order, b);
      LinkFirst(b);
      order := [b] + order;
    }

    /** The four assignments shared by bcache_init and brelse. */
    method LinkFirst(b: nat)
      requires buf.Length == NBUF + 1 && b < NBUF && buf[HEAD].next <= NBUF
      modifies buf
      ensures buf[..] == InsertFirst(old(buf[..]), b)
    {
      buf[b] := buf[b].(next := buf[HEAD].next);
      buf[b] := buf[b].(prev := HEAD);
      buf[buf[HEAD].next] := buf[buf[HEAD].next].(prev := b);
      buf[HEAD] := buf[HEAD].(next := b);
    }

    /** The cached copy becomes busy (fs/bcache.c:49). */
    method Claim(b: nat, blkno: nat)
      requires Valid() && b < NBUF && !buf[b].busy && Caches(buf[b], blkno)
      modifies this`held, buf
      ensures Valid()
      ensures buf[..] == old(buf[..])[b := old(buf[b]).(busy := true)]
      ensures held == old(held)[b := Held(blkno, buf[b].data)]
    {
      ghost var s := buf[..];
      buf[b] := buf[b].(busy := true);
      held := held[b := Held(blkno, buf[b].data)];
      LinksKept(s, buf[..], order);
    }

    /** The victim takes over its new key (fs/bcache.c:63-65). */
    method Recycle(b: nat, blkno: nat)
      requires Valid() && b < NBUF && !buf[b].busy && blkno < |disk|
      requires forall c :: 0 <= c < NBUF ==> !Caches(buf[c], blkno)
      modifies this`held, buf
      ensures Valid()
      ensures buf[..] == old(buf[..])[b := old(buf[b]).(dev := ROOT_DEV, blkno := blkno, busy := true,
                                                        valid := false, dirty := false)]
      ensures held == old(held)[b := Held(blkno, buf[b].data)]
    {
      ghost var s := buf[..];
      buf[b] := buf[b].(dev := ROOT_DEV);
      buf[b] := buf[b].(blkno := blkno);
      buf[b] := buf[b].(busy := true, valid := false, dirty := false);
      held := held[b := Held(blkno, buf[b].data)];
      LinksKept(s, buf[..], order);
    }

    /** bget's first loop: the cached copy of the block, or the head. */
    method Lookup(blkno: nat) returns (b: nat)
      requires Valid()
      ensures b <= NBUF
      ensures b == HEAD ==> forall c :: 0 <= c < NBUF ==> !Caches(buf[c], blkno)
      ensures b != HEAD ==> Caches(buf[b], blkno)
    {
      ghost var i := 1;
      assert Node(order, 0) == HEAD;
      b := buf[HEAD].next;
      while b != HEAD
        invariant 1 <= i <= NBUF + 1
        invariant b == if i == NBUF + 1 then HEAD else Node(order, i)
        invariant forall j :: 1 <= j < i ==> !Caches(buf[Node(order, j)], blkno)
        decreases NBUF + 1 - i
      {
        NodesDistinct(order, i, 0);
        if buf[b].dev == ROOT_DEV && buf[b].blkno == blkno {
          return;
        }
        b := buf[b].next;
        i := i + 1;
      }
      forall c | 0 <= c < NBUF ensures !Caches(buf[c], blkno) {
        assert c in order;
        var j :| 0 <= j < |order| && order[j] == c;
        assert Node(order, j + 1) == c;
      }
    }

    /** bget's second loop: the idle buffer released longest ago. */
    method Victim() returns (b: nat)
      requires Valid() && |held| < NBUF
      ensures b < NBUF && !buf[b].busy
      ensures forall c :: 0 <= c < NBUF && !buf[c].busy ==> lastRelease[b] <= lastRelease[c]
    {
      ghost var i := NBUF;
      assert Node(order, 0) == HEAD;
      b := buf[HEAD].prev;
      while b != HEAD && (buf[b].busy || buf[b].dirty)
        invariant 0 <= i <= NBUF
        invariant b == Node(order, i) <= NBUF
        invariant BusyAbove(buf[..], order, i)
        decreases i
      {
        NodesDistinct(order, i, 0);
        NodesDistinct(order, i - 1, 0);
        b := buf[b].prev;
        i := i - 1;
      }
      OldestIdle(buf[..], held, order, lastRelease, clock, i);
    }

    /** bget.  The test for a busy copy, whose loop would wait, is never met: no caller holds the
        block.  A cached copy is taken; if there is none the idle buffer released longest ago is
        recycled. */
    method Bget(blkno: nat) returns (b: nat)
      requires Valid() && blkno < |disk|
      requires (forall h :: h in held ==> held[h].blkno != blkno) && |held| < NBUF
      modifies this`held, buf
      ensures Valid()
      ensures b < NBUF < buf.Length && b !in old(held) && buf[b].busy && Caches(buf[b], blkno)
      ensures held == old(held)[b := Held(blkno, buf[b].data)]
      ensures buf[b].valid && blkno !in stale ==> buf[b].data == disk[blkno]
      ensures forall c :: 0 <= c < NBUF && old(Caches(buf[c], blkno)) ==> b == c && buf[c] == old(buf[c]).(busy := true)
      ensures (forall c :: 0 <= c < NBUF ==> !old(Caches(buf[c], blkno))) ==>
                !buf[b].valid && forall c :: 0 <= c < NBUF && !old(buf[c].busy) ==> lastRelease[b] <= lastRelease[c]
    {
      b := Lookup(blkno);
      if b != HEAD {
        if buf[b].busy {
          assert false; // would retry forever
        }
        Claim(b, blkno);
        return;
      }
      b := Victim();
      Recycle(b, blkno);
    }

    /** ide_rw: write a dirty buffer, read into a clean one; valid and clean afterwards. */
    method IdeRw(b: nat)
      requires b < NBUF && buf.Length == NBUF + 1 && buf[b].blkno < |disk|
      requires buf[b].busy && !(buf[b].valid && !buf[b].dirty)
      modifies this`disk, buf
      ensures buf[..] == old(buf[..])[b := Transferred(old(buf[b]), old(disk))]
      ensures disk == if old(buf[b].dirty) then old(disk[buf[b].blkno := buf[b].data]) else old(disk)
    {
      if buf[b].dirty {
        disk := disk[buf[b].blkno := buf[b].data];
      } else {
        buf[b] := buf[b].(data := disk[buf[b].blkno]);
      }
      buf[b] := buf[b].(valid := true);
      buf[b] := buf[b].(dirty := false);
    }

    /** bread: a busy buffer with the block's contents. */
    method Bread(blkno: nat) returns (b: nat)
      requires Valid() && blkno < |disk|
      requires (forall h :: h in held ==> held[h].blkno != blkno) && |held| < NBUF
      modifies this`held, this`disk, buf
      ensures Valid() && disk == old(disk)
      ensures b < NBUF && b !in old(held) && b in held
      ensures held == old(held)[b := Held(blkno, held[b].data)]
      ensures blkno !in stale ==> held[b].data == disk[blkno]
    {
      hide BufferCache.Valid, Caches;
      b := Bget(blkno);
      ghost var was := held - {b};
      assert was == old(held);
      if !buf[b].valid {
        Fill(b);
      }
    }

    method Fill(b: nat)
      requires Valid() && b in held && !buf[b].valid
      modifies this`held, this`disk, buf
      ensures Valid() && disk == old(disk)
      ensures held == old(held)[b := Held(old(held)[b].blkno, disk[old(held)[b].blkno])]
    {
      ghost var s := buf[..];
      IdeRw(b);
      held := held[b := Held(buf[b].blkno, buf[b].data)];
      LinksKept(s, buf[..], order);
    }

    /** bwrite: the holder's data reaches the disk. */
    method Bwrite(b: nat)
      requires Valid() && b in held
      modifies this`disk, this`stale, buf
      ensures Valid() && held == old(held)
      ensures disk == old(disk)[held[b].blkno := held[b].data]
      ensures stale == old(stale) - {held[b].blkno}
    {
      ghost var s := buf[..];
      buf[b] := buf[b].(dirty := true);
      IdeRw(b);
      stale := stale - {buf[b].blkno};
      LinksKept(s, buf[..], order);
    }

    /** The holder reads `bp->data`. */
    method Load(b: nat) returns (data: Block)
      requires Valid() && b in held
      ensures data == held[b].data
    {
      data := buf[b].data;
    }

    /** The holder stores into `bp->data`. */
    method Store(b: nat, data: Block)
      requires Valid() && b in held
      modifies this`held, buf
      ensures Valid() && held == old(held)[b := Held(old(held)[b].blkno, data)]
    {
      ghost var s := buf[..];
      buf[b] := buf[b].(data := data);
      held := held[b := Held(buf[b].blkno, data)];
      LinksKept(s, buf[..], order);
    }

    /** brelse: the buffer moves to the front of the list and becomes idle.  A copy that was
        changed but not written makes its block stale. */
    method Brelse(b: nat)
      requires Valid() && b in held
      modifies this`held, this`stale, this`order, this`lastRelease, this`clock, buf
      ensures Valid() && held == old(held) - {b}
      ensures old(held)[b].data == disk[old(held)[b].blkno] ==> stale == old(stale)
      ensures old(held)[b].data != disk[old(held)[b].blkno] ==> stale == old(stale) + {old(held)[b].blkno}
      ensures exists p :: 0 <= p < NBUF && old(order)[p] == b && order == MoveToFront(old(order), p)
    {
      hide Linked, SameButLinks;
      ghost var s := buf[..];
      ghost var p := PositionOf(order, b);
      Relink(b, p);
      ghost var t := buf[..];
      buf[b] := buf[b].(busy := false);
      ReleaseCoherent(s, t, disk, stale, held, b);
      ReleaseOrdered(order, lastRelease, clock, p);
      order := MoveToFront(order, p);
      LinksKept(t, buf[..], order);
      lastRelease := lastRelease[b := clock];
      clock := clock + 1;
      stale := StaleAfter(stale, held[b], disk);
      held := held - {b};
    }

    method Relink(b: nat, ghost p: nat)
      requires buf.Length == NBUF + 1 && Arrangement(order) && Linked(buf[..], order) && p < NBUF && b == order[p]
      modifies buf
      ensures Distinct(MoveToFront(order, p)) && Linked(buf[..], MoveToFront(order, p))
      ensures SameButLinks(old(buf[..]), buf[..])
    {
      UnlinkBuf(b, p);
      InsertFirstPrepends(buf[..], Without(order, p), b);
      LinkFirst(b);
    }

    /** The two assignments of brelse that close the gap. */
    method UnlinkBuf(b: nat, ghost p: nat)
      requires buf.Length == NBUF + 1 && Arrangement(order) && Linked(buf[..], order) && p < NBUF && b == order[p]
      modifies buf
      ensures Distinct(Without(order, p)) && b !in Without(order, p) && Linked(buf[..], Without(order, p))
      ensures SameButLinks(old(buf[..]), buf[..])
    {
      Neighbours(buf[..], order, p);
      ghost var s := buf[..];
      buf[buf[b].next] := buf[buf[b].next].(prev := buf[b].prev);
      buf[buf[b].prev] := buf[buf[b].prev].(next := buf[b].next);
      assert buf[..] == Unlink(s, b);
      UnlinkRemoves(s, order, p, buf[..]);
    }
  }
}
