/** The disk's request queue as a protocol between the processes in ide_rw and the interrupt handler
    (drv/ide.c).  Appending to the queue, with the start of an idle drive, is one step. */
module IdeQueue {
  import opened Minix
  import opened BufferList
  import C = BufferCache

  /** What the drive was told: for a write it got the data with the command. */
  datatype Command = Idle | Command(b: nat, write: bool, blkno: nat, data: Block)

  /** A request as it was when it was queued; `seen` is the disk's block at that time. */
  datatype Request = Request(b: nat, write: bool, blkno: nat, data: Block, seen: Block)

  /** `waiting` are the buffers whose owner is inside ide_rw; `asked` and `done` are all requests that
      were queued and that were completed so far. */
  datatype System = System(queue: seq<nat>, bufs: seq<Buf>, disk: Disk, command: Command, waiting: set<nat>,
                           asked: seq<Request>, done: seq<Request>)

  datatype Step =
    | Ask(b: nat)             // ide_rw appends its buffer
    | Interrupt               // ide_handler
    | Return(b: nat)          // ide_rw's loop ends
    | Own(b: nat, to: Buf)    // the owner of a buffer outside ide_rw changes it

  function Start(bufs: seq<Buf>, b: nat): Command
    requires b < |bufs|
  {
    Command(b, bufs[b].dirty, bufs[b].blkno, bufs[b].data)
  }

  predicate Finished(buf: Buf) { buf.valid && !buf.dirty }

  /** ide_rw's assertions, and the buffer cache's promise that nobody else has the block. */
  predicate MayAsk(s: System, b: nat) {
    && b < |s.bufs| && b !in s.waiting && s.bufs[b].busy && !Finished(s.bufs[b]) && s.bufs[b].blkno < |s.disk|
    && forall i :: 0 <= i < |s.queue| && s.queue[i] < |s.bufs| ==> s.bufs[s.queue[i]].blkno != s.bufs[b].blkno
  }

  predicate Enabled(s: System, step: Step) {
    match step
    case Ask(b) => MayAsk(s, b)
    case Interrupt =>
      && s.command.Command? && s.command.blkno < |s.disk| && |s.queue| > 0 && s.queue[0] < |s.bufs|
      && |s.done| < |s.asked|
      && (|s.queue| > 1 ==> s.queue[1] < |s.bufs|) && s.bufs[s.queue[0]].blkno < |s.disk|
    case Return(b) => b in s.waiting && b < |s.bufs| && Finished(s.bufs[b])
    case Own(b, _) => b < |s.bufs| && b !in s.waiting
  }

  /** The drive carries out its command. */
  function Written(disk: Disk, c: Command): Disk
    requires c.Command? && c.blkno < |disk|
  {
    if c.write then disk[c.blkno := c.data] else disk
  }

  function Next(s: System, step: Step): System
    requires Enabled(s, step)
  {
    match step
    case Ask(b) =>
      s.(queue := s.queue + [b], waiting := s.waiting + {b},
         command := if s.queue == [] then Start(s.bufs, b) else s.command,
         asked := s.asked + [Request(b, s.bufs[b].dirty, s.bufs[b].blkno, s.bufs[b].data, s.disk[s.bufs[b].blkno])])
    case Interrupt =>
      var b := s.queue[0];
      var bufs := s.bufs[b := C.Transferred(s.bufs[b], s.disk)];
      s.(queue := s.queue[1..], bufs := bufs, disk := Written(s.disk, s.command), done := s.done + [s.asked[|s.done|]],
         command := if |s.queue| > 1 then Start(bufs, s.queue[1]) else Idle)
    case Return(b) => s.(waiting := s.waiting - {b})
    case Own(b, to) => s.(bufs := s.bufs[b := to])
  }

  // ---------------------------------------------------------------------------------------

  /** The queue holds each buffer once, each for another block, and its owner waits. */
  predicate Queued(s: System) {
    && (forall i :: 0 <= i < |s.queue| ==> s.queue[i] < |s.bufs| && s.queue[i] in s.waiting)
    && forall i, j :: 0 <= i < j < |s.queue| ==>
        s.queue[i] != s.queue[j] && s.bufs[s.queue[i]].blkno != s.bufs[s.queue[j]].blkno
  }

  /** Only the head has been started, and it has. */
  predicate Started(s: System) {
    if |s.queue| == 0 then s.command == Idle else s.queue[0] < |s.bufs| && s.command == Start(s.bufs, s.queue[0])
  }

  predicate IsRequest(s: System, b: nat, r: Request) {
    && b < |s.bufs| && s.bufs[b].blkno < |s.disk| && s.bufs[b].busy && !Finished(s.bufs[b])
    && r == Request(b, s.bufs[b].dirty, s.bufs[b].blkno, s.bufs[b].data, s.disk[s.bufs[b].blkno])
  }

  /** Requests complete in the order in which they were made; those in the queue are untouched, and so
      are their blocks on the disk. */
  predicate InOrder(s: System) {
    && |s.asked| == |s.done| + |s.queue| && s.done == s.asked[..|s.done|]
    && forall i :: 0 <= i < |s.queue| ==> IsRequest(s, s.queue[i], s.asked[|s.done| + i])
  }

  /** A process whose buffer has left the queue finds it valid and clean. */
  predicate Served(s: System) {
    forall b :: b in s.waiting ==> b < |s.bufs| && (b in s.queue || Finished(s.bufs[b]))
  }

  predicate Inv(s: System) { Queued(s) && Started(s) && InOrder(s) && Served(s) }

  lemma AskInOrder(s: System, b: nat)
    requires InOrder(s) && Enabled(s, Ask(b))
    ensures InOrder(Next(s, Ask(b)))
  {
    var t := Next(s, Ask(b));
    forall i | 0 <= i < |t.queue| ensures IsRequest(t, t.queue[i], t.asked[|t.done| + i]) {
      if i < |s.queue| {
        assert IsRequest(s, s.queue[i], s.asked[|s.done| + i]);
      }
    }
    assert t.asked[..|t.done|] == s.asked[..|s.done|];
  }

  lemma AskKeepsInv(s: System, b: nat)
    requires Inv(s) && Enabled(s, Ask(b))
    ensures Inv(Next(s, Ask(b)))
  {
    AskInOrder(s, b);
    hide InOrder;
    var t := Next(s, Ask(b));
    assert t.queue[|s.queue|] == b;
  }

  lemma OwnKeepsInv(s: System, b: nat, to: Buf)
    requires Inv(s) && Enabled(s, Own(b, to))
    ensures Inv(Next(s, Own(b, to)))
  {
    assert forall i :: 0 <= i < |s.queue| ==> s.queue[i] != b;
    assert forall i :: 0 <= i < |s.queue| ==> IsRequest(s, s.queue[i], s.asked[|s.done| + i]);
  }

  lemma InterruptInOrder(s: System)
    requires Queued(s) && Started(s) && InOrder(s) && Enabled(s, Interrupt)
    ensures InOrder(Next(s, Interrupt))
  {
    var t := Next(s, Interrupt);
    hide Started;
    assert s.command.blkno == s.bufs[s.queue[0]].blkno by { assert Started(s); }
    forall i | 0 <= i < |t.queue| ensures IsRequest(t, t.queue[i], t.asked[|t.done| + i]) {
      assert t.queue[i] == s.queue[i + 1] && t.asked[|t.done| + i] == s.asked[|s.done| + (i + 1)];
      assert IsRequest(s, s.queue[i + 1], s.asked[|s.done| + (i + 1)]);
    }
    assert t.done == t.asked[..|t.done|];
  }

  lemma InterruptServed(s: System)
    requires Served(s) && Enabled(s, Interrupt)
    ensures Served(Next(s, Interrupt))
  {
    var t := Next(s, Interrupt);
    forall b | b in t.waiting ensures b < |t.bufs| && (b in t.queue || Finished(t.bufs[b])) {
      if b in s.queue && b != s.queue[0] {
        var i :| 0 <= i < |s.queue| && s.queue[i] == b;
        assert t.queue[i - 1] == b;
      }
    }
  }

  lemma InterruptQueued(s: System)
    requires Queued(s) && Started(s) && Enabled(s, Interrupt)
    ensures Queued(Next(s, Interrupt)) && Started(Next(s, Interrupt))
  {
    var t := Next(s, Interrupt);
    assert forall i :: 0 <= i < |t.queue| ==> t.queue[i] == s.queue[i + 1];
  }

  lemma InterruptKeepsInv(s: System)
    requires Inv(s) && Enabled(s, Interrupt)
    ensures Inv(Next(s, Interrupt))
  {
    InterruptInOrder(s);
    InterruptServed(s);
    InterruptQueued(s);
  }

  lemma ReturnKeepsInv(s: System, b: nat)
    requires Inv(s) && Enabled(s, Return(b))
    ensures Inv(Next(s, Return(b)))
  {
    forall i | 0 <= i < |s.queue| ensures IsRequest(Next(s, Return(b)), s.queue[i], s.asked[|s.done| + i]) {
      assert IsRequest(s, s.queue[i], s.asked[|s.done| + i]);
    }
  }

  lemma StepKeepsInv(s: System, step: Step)
    requires Inv(s) && Enabled(s, step)
    ensures Inv(Next(s, step))
  {
    hide Inv, Next, MayAsk;
    match step
    case Ask(b) => AskKeepsInv(s, b);
    case Interrupt => InterruptKeepsInv(s);
    case Return(b) => ReturnKeepsInv(s, b);
    case Own(b, to) => OwnKeepsInv(s, b, to);
  }

  /** While a request is queued the drive has a command, so another interrupt comes. */
  lemma NeverStuck(s: System)
    requires Inv(s) && s.queue != []
    ensures Enabled(s, Interrupt)
  {
    assert IsRequest(s, s.queue[0], s.asked[|s.done| + 0]);
  }

  /** The oldest request is completed as if ide_rw had done it in one go when it was queued: the
      direction is that of the dirty flag then, a write puts the owner's data on the disk, a read gets
      the disk's block, no other block and no other buffer changes. */
  lemma CompletesAsAsked(s: System)
    requires Inv(s) && Enabled(s, Interrupt)
    ensures var r, t := s.asked[|s.done|], Next(s, Interrupt);
            && r.b == s.queue[0] < |s.bufs| && r.blkno < |s.disk|
            && t.done == s.done + [r]
            && t.bufs == s.bufs[r.b := s.bufs[r.b].(valid := true, dirty := false, data := if r.write then r.data
                                                      else r.seen)]
            && t.disk == s.disk[r.blkno := if r.write then r.data else r.seen]
  {
    assert IsRequest(s, s.queue[0], s.asked[|s.done| + 0]);
  }

  // ---------------------------------------------------------------------------------------
  // Runs

  ghost predicate IsRun(s: System, run: seq<Step>)
    decreases |run|
  {
    run == [] || (Enabled(s, run[0]) && IsRun(Next(s, run[0]), run[1..]))
  }

  ghost function After(s: System, run: seq<Step>): System
    requires IsRun(s, run)
    decreases |run|
  {
    if run == [] then s else After(Next(s, run[0]), run[1..])
  }

  ghost function Interrupts(run: seq<Step>): nat
    decreases |run|
  {
    if run == [] then 0 else (if run[0].Interrupt? then 1 else 0) + Interrupts(run[1..])
  }

  /** Over every run requests complete in the order in which they were queued, one by each interrupt,
      none twice and none out of turn. */
  lemma {:induction false} FirstComeFirstServed(s: System, run: seq<Step>)
    requires Inv(s) && IsRun(s, run)
    ensures var t := After(s, run);
            && Inv(t) && s.asked <= t.asked && t.done == t.asked[..|t.done|]
            && |t.done| == |s.done| + Interrupts(run)
    decreases |run|
  {
    if run != [] {
      StepKeepsInv(s, run[0]);
      FirstComeFirstServed(Next(s, run[0]), run[1..]);
    }
  }

  /** A request with n others before it is completed by interrupt n + 1, whatever else happens, and
      then its owner can leave ide_rw. */
  lemma ServedInTurn(s: System, run: seq<Step>, i: nat)
    requires Inv(s) && IsRun(s, run) && i < |s.queue| && Interrupts(run) > i
    ensures var t := After(s, run);
            && |s.done| + i < |t.done| && t.done[|s.done| + i] == s.asked[|s.done| + i]
            && s.asked[|s.done| + i].b == s.queue[i]
  {
    assert IsRequest(s, s.queue[i], s.asked[|s.done| + i]);
    hide Inv, After, IsRun, Interrupts, IsRequest;
    assert |s.done| + |s.queue| == |s.asked| by { assert InOrder(s); }
    FirstComeFirstServed(s, run);
    var t := After(s, run);
    assert t.asked[|s.done| + i] == s.asked[|s.done| + i];
  }
}
