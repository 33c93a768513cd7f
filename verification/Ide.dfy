/** drv/ide.c over the linked request queue.  A C pointer to a buffer is its index, NULL is -1. */
module Ide {
  import opened Minix
  import opened BufferList
  import opened IdeQueue
  import C = BufferCache

  /** The buffer at place i of the queue, NULL past its end. */
  function At(queue: seq<nat>, i: nat): int { if i < |queue| then queue[i] else -1 }

  /** `queue` threads through the buffers' qnext from idequeue. */
  predicate Threaded(idequeue: int, qnext: seq<int>, queue: seq<nat>) {
    && idequeue == At(queue, 0)
    && forall i :: 0 <= i < |queue| ==> queue[i] < |qnext| && qnext[queue[i]] == At(queue, i + 1)
  }

  lemma ThreadedApart(idequeue: int, qnext: seq<int>, queue: seq<nat>, b: nat, v: int)
    requires Threaded(idequeue, qnext, queue) && b < |qnext| && forall i :: 0 <= i < |queue| ==> queue[i] != b
    ensures Threaded(idequeue, qnext[b := v], queue)
  {
  }

  lemma ThreadedTail(idequeue: int, qnext: seq<int>, queue: seq<nat>)
    requires Threaded(idequeue, qnext, queue) && queue != []
    ensures Threaded(qnext[queue[0]], qnext, queue[1..])
  {
    var q := queue[1..];
    assert qnext[queue[0]] == At(queue, 1);
    forall i | 0 <= i < |q| ensures q[i] < |qnext| && qnext[q[i]] == At(q, i + 1) {
      assert q[i] == queue[i + 1];
    }
  }

  class Driver {
    var idequeue: int
    const qnext: array<int>
    const bufs: array<Buf>
    var disk: Disk
    var command: Command
    ghost var queue: seq<nat>
    ghost var waiting: set<nat>
    ghost var asked: seq<Request>
    ghost var done: seq<Request>

    ghost function View(): (s: System)
      reads this, bufs
    {
      System(queue, bufs[..], disk, command, waiting, asked, done)
    }

    ghost predicate Valid()
      reads this, bufs, qnext
    {
      qnext.Length == bufs.Length && Inv(View()) && Threaded(idequeue, qnext[..], queue)
    }

    twostate predicate Did(step: Step)
      reads this, bufs, qnext
    {
      old(Valid()) && Valid() && Enabled(old(View()), step) && View() == Next(old(View()), step)
    }

    constructor (bufs: array<Buf>, disk: Disk)
      ensures Valid() && this.bufs == bufs && this.disk == disk && queue == [] && asked == []
    {
      this.bufs, this.disk := bufs, disk;
      qnext := new int[bufs.Length](i => -1);
      idequeue, command := -1, Idle;
      queue, waiting, asked, done := [], {}, [], [];
    }

    /** ide_start */
    method IdeStart(b: nat)
      requires b < bufs.Length
      modifies this`command
      ensures command == Start(bufs[..], b)
    {
      command := Command(b, bufs[b].dirty, bufs[b].blkno, bufs[b].data);
    }

    /** The loop that finds the end of the queue. */
    method Append(b: nat)
      requires b < qnext.Length && Threaded(idequeue, qnext[..], queue)
      requires forall i :: 0 <= i < |queue| ==> queue[i] != b
      requires forall i, j :: 0 <= i < j < |queue| ==> queue[i] != queue[j]
      modifies this`idequeue, qnext
      ensures Threaded(idequeue, qnext[..], queue + [b])
    {
      ThreadedApart(idequeue, qnext[..], queue, b, -1);
      qnext[b] := -1;
      assert qnext[..] == old(qnext[..])[b := -1];
      // pp is the place that holds the pointer: idequeue itself, or the qnext of a buffer
      var pp, next := -1, idequeue;
      ghost var i := 0;
      ghost var links := qnext[..];
      assert Threaded(idequeue, links, queue);
      while next != -1
        invariant 0 <= i <= |queue|
        invariant next == At(queue, i) && pp == if i == 0 then -1 else queue[i - 1]
        decreases |queue| - i
      {
        pp := next;
        next := qnext[pp];
        assert next == links[queue[i]];
        i := i + 1;
      }
      if pp == -1 {
        idequeue := b;
      } else {
        qnext[pp] := b;
      }
    }

    /** ide_rw up to its waiting loop: the buffer goes to the end of the queue, and is started when it
        is the only one. */
    method IdeRw(b: nat)
      requires Valid() && MayAsk(View(), b)
      modifies this`idequeue, this`command, this`queue, this`waiting, this`asked, qnext
      ensures Did(Ask(b))
    {
      hide Inv, IsRequest, Queued, InOrder, Started, Served, MayAsk;
      NotQueued(View(), b);
      ghost var s := View();
      StepKeepsInv(s, Ask(b));
      Append(b);
      queue, waiting := queue + [b], waiting + {b};
      asked := asked + [Request(b, bufs[b].dirty, bufs[b].blkno, bufs[b].data, disk[bufs[b].blkno])];
      if idequeue == b {
        IdeStart(b);
      }
      assert View() == Next(s, Ask(b));
    }

    /** ide_handler on an interrupt of the drive, which has carried out its command; without a request
        there is nothing to do. */
    method IdeHandler()
      requires Valid()
      modifies this`idequeue, this`command, this`queue, this`disk, this`done, bufs
      ensures old(queue) == [] ==> Valid() && View() == old(View())
      ensures old(queue) != [] ==> Did(Interrupt)
    {
      hide Inv, InOrder, Queued, Served, Started, IsRequest, C.Transferred;
      ghost var s := View();
      if idequeue == -1 {
        return;
      }
      NeverStuck(s);
      StepKeepsInv(s, Interrupt);
      Head(s);
      disk := Written(disk, command);
      var b := idequeue;
      idequeue := qnext[b];
      ThreadedTail(old(idequeue), qnext[..], queue);
      Complete(b);
      queue, done := queue[1..], done + [asked[|done|]];
      if idequeue != -1 {
        IdeStart(idequeue);
      } else {
        command := Idle;
      }
      assert View() == Next(s, Interrupt);
    }

    /** The handler's work on the buffer itself. */
    method Complete(b: nat)
      requires b < bufs.Length && bufs[b].blkno < |disk|
      modifies bufs
      ensures bufs[..] == old(bufs[..])[b := C.Transferred(old(bufs[b]), disk)]
    {
      if !bufs[b].dirty {
        bufs[b] := bufs[b].(data := disk[bufs[b].blkno]);
      }
      bufs[b] := bufs[b].(valid := true);
      bufs[b] := bufs[b].(dirty := false);
    }

    /** The test of ide_rw's waiting loop: it ends exactly when the request has been served, and then
        the buffer is valid and clean. */
    method Poll(b: nat) returns (served: bool)
      requires Valid() && b in waiting
      ensures b < bufs.Length && (served <==> b !in queue)
      ensures served ==> Finished(bufs[b]) && Enabled(View(), Return(b))
    {
      hide Started;
      QueuedNotFinished(View(), b);
      served := bufs[b].valid && !bufs[b].dirty;
    }
  }

  lemma NotQueued(s: System, b: nat)
    requires Inv(s) && MayAsk(s, b)
    ensures b < |s.bufs| && s.bufs[b].blkno < |s.disk| && (forall i :: 0 <= i < |s.queue| ==> s.queue[i] != b)
    ensures forall i, j :: 0 <= i < j < |s.queue| ==> s.queue[i] != s.queue[j]
  {
  }

  /** The head of the queue is what the drive was told, and a read changes nothing on the disk. */
  lemma Head(s: System)
    requires Inv(s) && s.queue != []
    ensures s.queue[0] < |s.bufs| && s.command == Start(s.bufs, s.queue[0]) && s.bufs[s.queue[0]].blkno < |s.disk|
    ensures C.Transferred(s.bufs[s.queue[0]], Written(s.disk, s.command)) == C.Transferred(s.bufs[s.queue[0]], s.disk)
    ensures forall i, j :: 0 <= i < j < |s.queue| ==> s.queue[i] != s.queue[j]
  {
    assert IsRequest(s, s.queue[0], s.asked[|s.done| + 0]);
  }

  lemma QueuedNotFinished(s: System, b: nat)
    requires Inv(s) && b in s.waiting
    ensures b < |s.bufs| && (b in s.queue <==> !Finished(s.bufs[b]))
  {
    if b in s.queue {
      var i :| 0 <= i < |s.queue| && s.queue[i] == b;
      assert IsRequest(s, s.queue[i], s.asked[|s.done| + i]);
    }
  }
}
