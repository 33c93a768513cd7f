/** The circular list of fs/bcache.c on values.  A `struct buf *` is the buffer's index in
    `bcache.buf`; index HEAD is `bcache.head`. */
module BufferList {
  import opened Minix

  const NBUF: nat := 128
  const HEAD: nat := 128

  datatype Buf = Buf(busy: bool, valid: bool, dirty: bool, dev: nat, blkno: nat,
                     prev: nat, next: nat, data: Block)

  /** The node at position i of the cycle: the head, then the buffers in list order. */
  function Node(order: seq<nat>, i: nat): nat
    requires i <= |order|
  {
    if i == 0 then HEAD else order[i - 1]
  }

  function After(i: nat, n: nat): nat requires i <= n { if i == n then 0 else i + 1 }
  function Before(i: nat, n: nat): nat requires i <= n { if i == 0 then n else i - 1 }

  ghost predicate Distinct(order: seq<nat>) {
    && (forall i :: 0 <= i < |order| ==> order[i] < NBUF)
    && (forall i, j :: 0 <= i < j < |order| ==> order[i] != order[j])
  }

  /** `order` lists every buffer exactly once. */
  ghost predicate Arrangement(order: seq<nat>) {
    && |order| == NBUF
    && Distinct(order)
    && (forall k :: 0 <= k < NBUF ==> k in order)
  }

  /** `prev` and `next` form one cycle through the head and `order`. */
  ghost predicate Linked(bufs: seq<Buf>, order: seq<nat>)
    requires |bufs| == NBUF + 1 && Distinct(order)
  {
    forall i :: 0 <= i <= |order| ==>
      && bufs[Node(order, i)].next == Node(order, After(i, |order|))
      && bufs[Node(order, i)].prev == Node(order, Before(i, |order|))
  }

  lemma NodesDistinct(order: seq<nat>, i: nat, j: nat)
    requires Distinct(order) && i <= |order| && j <= |order|
    ensures Node(order, i) <= NBUF
    ensures Node(order, i) == Node(order, j) <==> i == j
  {
  }

  /** Only `prev` and `next` differ. */
  ghost predicate SameButLinks(s: seq<Buf>, t: seq<Buf>) {
    && |s| == |t|
    && forall i :: 0 <= i < |s| ==> t[i] == s[i].(prev := t[i].prev, next := t[i].next)
  }

  function SetNext(bufs: seq<Buf>, b: nat, n: nat): (r: seq<Buf>)
    requires b < |bufs|
    ensures |r| == |bufs| && r[b].next == n && r[b].prev == bufs[b].prev && SameButLinks(bufs, r)
    ensures forall k :: 0 <= k < |bufs| && k != b ==> r[k] == bufs[k]
  {
    bufs[b := bufs[b].(next := n)]
  }

  function SetPrev(bufs: seq<Buf>, b: nat, n: nat): (r: seq<Buf>)
    requires b < |bufs|
    ensures |r| == |bufs| && r[b].prev == n && r[b].next == bufs[b].next && SameButLinks(bufs, r)
    ensures forall k :: 0 <= k < |bufs| && k != b ==> r[k] == bufs[k]
  {
    bufs[b := bufs[b].(prev := n)]
  }

  ghost predicate Unlinkable(bufs: seq<Buf>, b: nat) {
    |bufs| == NBUF + 1 && b < NBUF && bufs[b].next <= NBUF && bufs[b].prev <= NBUF && bufs[b].next != b
  }

  /** The two assignments that take b out of the list. */
  ghost function Unlink(bufs: seq<Buf>, b: nat): (r: seq<Buf>)
    requires Unlinkable(bufs, b)
    ensures |r| == |bufs|
  {
    var s := SetPrev(bufs, bufs[b].next, bufs[b].prev);
    SetNext(s, s[b].prev, s[b].next)
  }

  /** The four assignments that put b right after the head. */
  ghost function InsertFirst(bufs: seq<Buf>, b: nat): (r: seq<Buf>)
    requires |bufs| == NBUF + 1 && b < NBUF && bufs[HEAD].next <= NBUF
    ensures |r| == |bufs|
  {
    var s := SetPrev(SetNext(bufs, b, bufs[HEAD].next), b, HEAD);
    SetNext(SetPrev(s, s[HEAD].next, b), HEAD, b)
  }

  lemma UnlinkFields(bufs: seq<Buf>, b: nat, x: nat)
    requires Unlinkable(bufs, b) && bufs[b].prev != b && x <= NBUF
    ensures var u := Unlink(bufs, b);
            && u[x].next == (if x == bufs[b].prev then bufs[b].next else bufs[x].next)
            && u[x].prev == (if x == bufs[b].next then bufs[b].prev else bufs[x].prev)
            && u[x] == bufs[x].(prev := u[x].prev, next := u[x].next)
  {
  }

  lemma InsertFirstFields(bufs: seq<Buf>, b: nat, x: nat)
    requires |bufs| == NBUF + 1 && b < NBUF && bufs[HEAD].next <= NBUF && bufs[HEAD].next != b && x <= NBUF
    ensures var v := InsertFirst(bufs, b);
            && v[x].next == (if x == HEAD then b else if x == b then bufs[HEAD].next else bufs[x].next)
            && v[x].prev == (if x == bufs[HEAD].next then b else if x == b then HEAD else bufs[x].prev)
            && v[x] == bufs[x].(prev := v[x].prev, next := v[x].next)
  {
  }

  function Without(order: seq<nat>, p: nat): seq<nat>
    requires p < |order|
  {
    order[..p] + order[p + 1..]
  }

  /** The position in `order` of position i of `Without(order, p)`. */
  function Skip(p: nat, i: nat): nat { if i <= p then i else i + 1 }

  lemma SkipSteps(n: nat, p: nat, i: nat)
    requires p < n && i < n
    ensures Skip(p, i) <= n
    ensures Skip(p, After(i, n - 1)) == if Skip(p, i) == p then After(p + 1, n) else After(Skip(p, i), n)
    ensures Skip(p, Before(i, n - 1)) == if Skip(p, i) == After(p + 1, n) then p else Before(Skip(p, i), n)
  {
  }

  lemma WithoutNode(order: seq<nat>, p: nat, i: nat)
    requires Distinct(order) && p < |order| && i < |order|
    ensures Node(Without(order, p), i) == Node(order, Skip(p, i))
  {
  }

  lemma WithoutDistinct(order: seq<nat>, p: nat)
    requires Distinct(order) && p < |order|
    ensures |Without(order, p)| == |order| - 1
    ensures Distinct(Without(order, p)) && order[p] !in Without(order, p)
  {
  }

  /** The neighbours of the buffer at position p. */
  lemma Neighbours(bufs: seq<Buf>, order: seq<nat>, p: nat)
    requires |bufs| == NBUF + 1 && Distinct(order) && Linked(bufs, order) && p < |order|
    ensures Unlinkable(bufs, order[p]) && bufs[order[p]].prev != order[p]
    ensures bufs[order[p]].next == Node(order, After(p + 1, |order|))
    ensures bufs[order[p]].prev == Node(order, p)
  {
    assert Node(order, p + 1) == order[p];
    NodesDistinct(order, p + 1, After(p + 1, |order|));
    NodesDistinct(order, p + 1, p);
  }

  lemma UnlinkAt(bufs: seq<Buf>, order: seq<nat>, p: nat, i: nat)
    requires |bufs| == NBUF + 1 && Distinct(order) && Linked(bufs, order) && p < |order| && i < |order|
    requires Unlinkable(bufs, order[p]) && Node(order, Skip(p, i)) <= NBUF
    ensures var x := Node(order, Skip(p, i));
            && Unlink(bufs, order[p])[x].next == Node(order, Skip(p, After(i, |order| - 1)))
            && Unlink(bufs, order[p])[x].prev == Node(order, Skip(p, Before(i, |order| - 1)))
  {
    var q, n := Skip(p, i), |order|;
    Neighbours(bufs, order, p);
    UnlinkFields(bufs, order[p], Node(order, q));
    assert bufs[Node(order, q)].next == Node(order, After(q, n))
             && bufs[Node(order, q)].prev == Node(order, Before(q, n));
    NodesDistinct(order, q, p);
    NodesDistinct(order, q, After(p + 1, n));
    SkipSteps(n, p, i);
  }

  /** Unlinking leaves the cycle over the remaining buffers. */
  lemma UnlinkRemoves(bufs: seq<Buf>, order: seq<nat>, p: nat, u: seq<Buf>)
    requires |bufs| == NBUF + 1 && Distinct(order) && Linked(bufs, order) && p < |order|
    requires Unlinkable(bufs, order[p]) && u == Unlink(bufs, order[p])
    ensures Distinct(Without(order, p)) && order[p] !in Without(order, p)
    ensures Linked(u, Without(order, p))
    ensures SameButLinks(bufs, u)
  {
    var o := Without(order, p);
    WithoutDistinct(order, p);
    Neighbours(bufs, order, p);
    forall x | 0 <= x <= NBUF
      ensures u[x] == bufs[x].(prev := u[x].prev, next := u[x].next)
    {
      UnlinkFields(bufs, order[p], x);
    }
    forall i: nat | i < |order|
      ensures u[Node(o, i)].next == Node(o, After(i, |o|))
      ensures u[Node(o, i)].prev == Node(o, Before(i, |o|))
    {
      NodesDistinct(o, i, i);
      WithoutNode(order, p, i);
      WithoutNode(order, p, After(i, |o|));
      WithoutNode(order, p, Before(i, |o|));
      UnlinkAt(bufs, order, p, i);
    }
  }

  /** Inserting puts b in front of the cycle. */
  lemma InsertFirstPrepends(bufs: seq<Buf>, order: seq<nat>, b: nat)
    requires |bufs| == NBUF + 1 && Distinct(order) && Linked(bufs, order) && b < NBUF && b !in order
    ensures bufs[HEAD].next <= NBUF
    ensures Distinct([b] + order)
    ensures Linked(InsertFirst(bufs, b), [b] + order)
    ensures SameButLinks(bufs, InsertFirst(bufs, b))
  {
    var o := [b] + order;
    assert Node(order, 0) == HEAD;
    assert bufs[HEAD].next == Node(order, After(0, |order|)) && bufs[HEAD].prev == Node(order, |order|);
    forall x | 0 <= x <= NBUF
      ensures InsertFirst(bufs, b)[x]
                == bufs[x].(prev := InsertFirst(bufs, b)[x].prev, next := InsertFirst(bufs, b)[x].next)
    {
      InsertFirstFields(bufs, b, x);
    }
    forall i: nat | i <= |o|
      ensures InsertFirst(bufs, b)[Node(o, i)].next == Node(o, After(i, |o|))
      ensures InsertFirst(bufs, b)[Node(o, i)].prev == Node(o, Before(i, |o|))
    {
      InsertFirstFields(bufs, b, Node(o, i));
      if i >= 2 {
        assert Node(o, i) == Node(order, i - 1);
        NodesDistinct(order, i - 1, 0);
        NodesDistinct(order, i - 1, After(0, |order|));
      }
    }
  }

  function MoveToFront(order: seq<nat>, p: nat): seq<nat>
    requires p < |order|
  {
    [order[p]] + Without(order, p)
  }

  /** Moving a buffer to the front keeps every buffer listed exactly once. */
  lemma MoveToFrontArranges(order: seq<nat>, p: nat)
    requires Arrangement(order) && p < NBUF
    ensures Arrangement(MoveToFront(order, p))
  {
    var r := MoveToFront(order, p);
    forall k | 0 <= k < NBUF ensures k in r {
      assert k in order;
      var q :| 0 <= q < |order| && order[q] == k;
      assert r[if q == p then 0 else if q < p then q + 1 else q] == k;
    }
  }
}
