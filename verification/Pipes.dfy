/** A pipe (kern/pipe.c): the ring with its free-running counters, and one reader and one writer that
    use it byte by byte. */
module Pipes {
  const PIPE_SIZE: nat := 512
  const WRAP: nat := 0x1_0000_0000

  type Byte = x: int | 0 <= x < 256

  type Counter = x: int | 0 <= x < WRAP // uint32_t

  type Ring = d: seq<Byte> | |d| == PIPE_SIZE witness seq(PIPE_SIZE, i => 0)

  datatype Pipe = Pipe(data: Ring, nread: Counter, nwrite: Counter, readopen: bool, writeopen: bool)

  /** n++ on a uint32_t */
  function Succ(n: Counter): Counter { if n + 1 == WRAP then 0 else n + 1 }

  /** n + PIPE_SIZE on a uint32_t */
  function PlusSize(n: Counter): Counter { if n + PIPE_SIZE >= WRAP then n + PIPE_SIZE - WRAP else n + PIPE_SIZE }

  function Slot(n: nat): (i: nat)
    ensures i < PIPE_SIZE
  {
    n % PIPE_SIZE
  }

  function InFlight(p: Pipe): nat { if p.nwrite >= p.nread then p.nwrite - p.nread else p.nwrite + WRAP - p.nread }

  predicate Counters(p: Pipe) { InFlight(p) <= PIPE_SIZE }

  /** The bytes in flight. */
  function Contents(p: Pipe): (s: seq<Byte>)
    ensures |s| == InFlight(p)
    ensures forall j :: 0 <= j < |s| ==> s[j] == p.data[Slot(p.nread + j)]
  {
    seq(InFlight(p), j requires 0 <= j => p.data[Slot(p.nread + j)])
  }

  predicate Full(p: Pipe) { p.nwrite == PlusSize(p.nread) }

  predicate Empty(p: Pipe) { p.nread == p.nwrite }

  /** `data[nwrite++ % PIPE_SIZE] = b` */
  function Put(p: Pipe, b: Byte): Pipe { p.(data := p.data[Slot(p.nwrite) := b], nwrite := Succ(p.nwrite)) }

  function Get(p: Pipe): Byte { p.data[Slot(p.nread)] }

  /** `nread++` */
  function Taken(p: Pipe): Pipe { p.(nread := Succ(p.nread)) }

  /** The two tests on the counters see whether all slots, or none, are taken. */
  lemma TestsAreRight(p: Pipe)
    requires Counters(p)
    ensures Full(p) <==> |Contents(p)| == PIPE_SIZE
    ensures Empty(p) <==> Contents(p) == []
  {
  }

  /** The slot of a byte is the same before and after a counter wraps, because PIPE_SIZE divides 2^32. */
  lemma SlotAcrossWrap(n: nat)
    ensures Slot(n + WRAP) == Slot(n)
  {
    assert WRAP == PIPE_SIZE * 8388608;
  }

  lemma SlotsDiffer(a: nat, j: nat, n: nat)
    requires j < n < j + PIPE_SIZE
    ensures Slot(a + j) != Slot(a + n)
  {
  }

  lemma WriterSlot(p: Pipe)
    ensures Slot(p.nread + InFlight(p)) == Slot(p.nwrite)
  {
    SlotAcrossWrap(p.nwrite);
  }

  lemma NextSlot(n: Counter, j: nat)
    ensures Slot(Succ(n) + j) == Slot(n + j + 1)
  {
    SlotAcrossWrap(j);
  }

  lemma PutAppends(p: Pipe, b: Byte)
    requires Counters(p) && !Full(p)
    ensures Counters(Put(p, b)) && Contents(Put(p, b)) == Contents(p) + [b]
  {
    var n, c' := InFlight(p), Contents(Put(p, b));
    assert |c'| == n + 1;
    WriterSlot(p);
    hide Slot;
    forall j | 0 <= j <= n ensures c'[j] == (Contents(p) + [b])[j] {
      if j < n {
        SlotsDiffer(p.nread, j, n);
      }
    }
  }

  lemma GetRemoves(p: Pipe)
    requires Counters(p) && !Empty(p)
    ensures Counters(Taken(p)) && Contents(p) == [Get(p)] + Contents(Taken(p))
  {
    var c, c' := Contents(p), Contents(Taken(p));
    assert |c| == |c'| + 1;
    hide Slot;
    assert c[0] == Get(p);
    forall j | 0 <= j < |c'| ensures c'[j] == c[j + 1] {
      NextSlot(p.nread, j);
    }
  }

  // ---------------------------------------------------------------------------------------
  // One writer and one reader

  /** Where the writer is in pipe_write(buf): about to test for space, about to store, asleep. */
  datatype Writer = WIdle | WTest(buf: seq<Byte>, i: nat) | WPut(buf: seq<Byte>, i: nat)
      | WAsleep(buf: seq<Byte>, i: nat)

  /** Where the reader is in pipe_read(n): before the first loop, asleep in it, in the second loop with
      the bytes it has got, about to take one. */
  datatype Reader = RIdle | RTest(n: nat) | RAsleep(n: nat) | RLoop(n: nat, got: seq<Byte>)
      | RGet(n: nat, got: seq<Byte>)

  /** `written` and `read` are all bytes that went in and came out so far; `frees` counts pmm_free. */
  datatype System = System(p: Pipe, w: Writer, r: Reader, wKilled: bool, rKilled: bool, written: seq<Byte>,
                           read: seq<Byte>, frees: nat)

  datatype Step = Write(buf: seq<Byte>) | WriterStep | CloseWrite | KillWriter | Read(n: nat) | ReaderStep
      | CloseRead | KillReader

  function WakeReader(r: Reader): Reader { if r.RAsleep? then RTest(r.n) else r }

  function WakeWriter(w: Writer): Writer { if w.WAsleep? then WTest(w.buf, w.i) else w }

  predicate Enabled(s: System, step: Step) {
    match step
    case Write(_) => s.w.WIdle? && s.p.writeopen
    case WriterStep => s.w.WTest? || (s.w.WPut? && s.w.i < |s.w.buf|)
    case CloseWrite => s.w.WIdle? && s.p.writeopen
    case Read(_) => s.r.RIdle? && s.p.readopen
    case ReaderStep => s.r.RTest? || s.r.RLoop? || s.r.RGet?
    case CloseRead => s.r.RIdle? && s.p.readopen
    case _ => true
  }

  /** A step of pipe_write.  Testing, waking the reader and going to sleep is one step. */
  function AfterWriter(s: System): System
    requires Enabled(s, WriterStep)
  {
    if s.w.WPut? then
      s.(p := Put(s.p, s.w.buf[s.w.i]), written := s.written + [s.w.buf[s.w.i]], w := WTest(s.w.buf, s.w.i + 1))
    else if s.w.i >= |s.w.buf| then
      s.(w := WIdle, r := WakeReader(s.r))
    else if !Full(s.p) then
      s.(w := WPut(s.w.buf, s.w.i))
    else if !s.p.readopen || s.wKilled then
      s.(w := WIdle)
    else
      s.(w := WAsleep(s.w.buf, s.w.i), r := WakeReader(s.r))
  }

  /** A step of pipe_read. */
  function AfterReader(s: System): System
    requires Enabled(s, ReaderStep)
  {
    match s.r
    case RTest(n) =>
      if !(Empty(s.p) && s.p.writeopen) then s.(r := RLoop(n, []))
      else if s.rKilled then s.(r := RIdle)
      else s.(r := RAsleep(n))
    case RLoop(n, got) =>
      if |got| < n && !Empty(s.p) then s.(r := RGet(n, got))
      else s.(r := RIdle, w := WakeWriter(s.w))
    case RGet(n, got) =>
      s.(p := Taken(s.p), read := s.read + [Get(s.p)], r := RLoop(n, got + [Get(s.p)]))
  }

  function Next(s: System, step: Step): System
    requires Enabled(s, step)
  {
    match step
    case Write(buf) => s.(w := WTest(buf, 0))
    case WriterStep => AfterWriter(s)
    case CloseWrite =>
      s.(p := s.p.(writeopen := false), r := WakeReader(s.r), frees := s.frees + if s.p.readopen then 0 else 1)
    case KillWriter => s.(wKilled := true, w := WakeWriter(s.w))
    case Read(n) => s.(r := RTest(n))
    case ReaderStep => AfterReader(s)
    case CloseRead =>
      s.(p := s.p.(readopen := false), w := WakeWriter(s.w), frees := s.frees + if s.p.writeopen then 0 else 1)
    case KillReader => s.(rKilled := true, r := WakeReader(s.r))
  }

  /** pipe_alloc */
  function Initial(): System {
    System(Pipe(seq(PIPE_SIZE, i => 0), 0, 0, true, true), WIdle, RIdle, false, false, [], [], 0)
  }

  // Invariants

  /** What went in is what came out followed by what is in flight. */
  predicate Flow(s: System) { Counters(s.p) && s.written == s.read + Contents(s.p) }

  predicate Places(s: System) {
    && (!s.w.WIdle? ==> s.p.writeopen) && (!s.r.RIdle? ==> s.p.readopen)
    && (s.w.WPut? ==> s.w.i < |s.w.buf| && !Full(s.p))
    && (s.r.RGet? ==> |s.r.got| < s.r.n && !Empty(s.p))
    && (s.r.RLoop? && s.r.got == [] && s.p.writeopen ==> !Empty(s.p))
    && (s.r.RLoop? ==> |s.r.got| <= s.r.n)
  }

  /** A sleeper has something to wait for, or somebody who is going to wake it. */
  predicate Sleepers(s: System) {
    && (s.w.WAsleep? ==> s.p.readopen && !s.wKilled && (Full(s.p) || s.r.RLoop? || s.r.RGet?))
    && (s.r.RAsleep? ==> s.p.writeopen && !s.rKilled && (Empty(s.p) || s.w.WTest? || s.w.WPut? || s.wKilled))
  }

  /** The page is freed once both ends are closed, and once only. */
  predicate Page(s: System) { s.frees == if s.p.readopen || s.p.writeopen then 0 else 1 }

  predicate Inv(s: System) { Flow(s) && Places(s) && Sleepers(s) && Page(s) }

  lemma SameRing(p: Pipe, q: Pipe)
    requires q.data == p.data && q.nread == p.nread && q.nwrite == p.nwrite
    ensures Contents(q) == Contents(p) && InFlight(q) == InFlight(p)
  {
  }

  lemma PutFlows(s: System)
    requires Flow(s) && Places(s) && s.w.WPut? && Enabled(s, WriterStep)
    ensures var t := Next(s, WriterStep); Flow(t) && s.written <= t.written && s.read == t.read
  {
    PutAppends(s.p, s.w.buf[s.w.i]);
    hide Contents, InFlight, Put, Full;
  }

  lemma GetFlows(s: System)
    requires Flow(s) && Places(s) && s.r.RGet? && Enabled(s, ReaderStep)
    ensures var t := Next(s, ReaderStep); Flow(t) && s.written == t.written && s.read <= t.read
  {
    GetRemoves(s.p);
    hide Contents, InFlight, Taken, Get, Empty, Slot;
    MoveOver(s.read, Get(s.p), Contents(Taken(s.p)));
  }

  lemma MoveOver(a: seq<Byte>, b: Byte, c: seq<Byte>)
    ensures a + ([b] + c) == a + [b] + c && a <= a + [b]
  {
  }

  lemma OthersFlow(s: System, step: Step)
    requires Flow(s) && Enabled(s, step) && !(step == WriterStep && s.w.WPut?) && !(step == ReaderStep && s.r.RGet?)
    ensures var t := Next(s, step); Flow(t) && s.written == t.written && s.read == t.read
  {
    hide Contents, InFlight, Slot, Put, Taken, Get, Full, Empty;
    SameRing(s.p, Next(s, step).p);
  }

  lemma FlowStep(s: System, step: Step)
    requires Flow(s) && Places(s) && Enabled(s, step)
    ensures Flow(Next(s, step)) && s.written <= Next(s, step).written && s.read <= Next(s, step).read
  {
    hide Flow, Next, Places;
    if step == WriterStep && s.w.WPut? {
      PutFlows(s);
    } else if step == ReaderStep && s.r.RGet? {
      GetFlows(s);
    } else {
      OthersFlow(s, step);
    }
  }

  lemma StepKeepsInv(s: System, step: Step)
    requires Inv(s) && Enabled(s, step)
    ensures Inv(Next(s, step))
    ensures s.written <= Next(s, step).written && s.read <= Next(s, step).read
  {
    FlowStep(s, step);
    TestsAreRight(s.p);
    TestsAreRight(Next(s, step).p);
    hide Contents, Slot;
  }

  ghost predicate IsRun(s: System, run: seq<Step>)
    decreases |run|
  {
    run == [] || (Enabled(s, run[0]) && IsRun(Next(s, run[0]), run[1..]))
  }

  ghost function After(s: System, run: seq<Step>): System
    requires IsRun(s, run)
    decreases |run|
  {
    if run == [] then s else After(Next(s, run[0]), run[1..])
  }

  lemma {:induction false} RunKeepsInv(s: System, run: seq<Step>)
    requires Inv(s) && IsRun(s, run)
    ensures Inv(After(s, run)) && s.written <= After(s, run).written && s.read <= After(s, run).read
    decreases |run|
  {
    if run != [] {
      StepKeepsInv(s, run[0]);
      RunKeepsInv(Next(s, run[0]), run[1..]);
    }
  }

  /** In every run of one reader and one writer the bytes read are a prefix of the bytes written, at
      most PIPE_SIZE are in flight, the two are never both asleep, and the page is freed at most once,
      with nobody inside pipe_read or pipe_write. */
  lemma EveryRun(run: seq<Step>)
    requires IsRun(Initial(), run)
    ensures var s := After(Initial(), run);
            && s.read <= s.written && |s.written| - |s.read| <= PIPE_SIZE
            && !(s.w.WAsleep? && s.r.RAsleep?)
            && s.frees <= 1 && (s.frees == 1 ==> s.w.WIdle? && s.r.RIdle?)
  {
    RunKeepsInv(Initial(), run);
    TestsAreRight(After(Initial(), run).p);
  }

  // Single calls

  /** The read that is going on began when `base` bytes had been read: what it has got is what came out since. */
  predicate GotSince(s: System, base: nat) {
    base <= |s.read| &&
    match s.r
    case RIdle => true
    case RTest(_) => |s.read| == base
    case RAsleep(_) => |s.read| == base
    case RLoop(_, got) => got == s.read[base..]
    case RGet(_, got) => got == s.read[base..]
  }

  /** The write that is going on began when `base` bytes had been written: what went in since is the part of
      its buffer that it has done. */
  predicate StoredSince(s: System, base: nat) {
    base <= |s.written| &&
    match s.w
    case WIdle => true
    case WTest(buf, i) => i <= |buf| && s.written[base..] == buf[..i]
    case WPut(buf, i) => i <= |buf| && s.written[base..] == buf[..i]
    case WAsleep(buf, i) => i <= |buf| && s.written[base..] == buf[..i]
  }

  lemma PutSince(s: System, base: nat)
    requires Enabled(s, WriterStep) && s.w.WPut? && s.w.i < |s.w.buf|
    ensures var t := Next(s, WriterStep);
            t.r == s.r && t.read == s.read && (StoredSince(s, base) ==> StoredSince(t, base))
  {
    hide Contents, InFlight, Slot, Put, Full;
    if StoredSince(s, base) {
      assert (s.written + [s.w.buf[s.w.i]])[base..] == s.written[base..] + [s.w.buf[s.w.i]];
      assert s.w.buf[..s.w.i + 1] == s.w.buf[..s.w.i] + [s.w.buf[s.w.i]];
    }
  }

  lemma GetSince(s: System, base: nat)
    requires Enabled(s, ReaderStep) && s.r.RGet?
    ensures var t := Next(s, ReaderStep);
            t.w == s.w && t.written == s.written && (GotSince(s, base) ==> GotSince(t, base))
  {
    hide Contents, InFlight, Slot, Taken, Get, Empty;
    if GotSince(s, base) {
      assert (s.read + [Get(s.p)])[base..] == s.read[base..] + [Get(s.p)];
    }
  }

  lemma OthersSince(s: System, step: Step, base: nat)
    requires Enabled(s, step) && !(step == WriterStep && s.w.WPut?) && !(step == ReaderStep && s.r.RGet?)
    ensures var t := Next(s, step);
            && t.read == s.read && t.written == s.written
            && (GotSince(s, base) && !step.Read? ==> GotSince(t, base))
            && (StoredSince(s, base) && !step.Write? ==> StoredSince(t, base))
  {
    hide Contents, InFlight, Slot, Put, Taken, Get, Full, Empty;
  }

  lemma SinceStep(s: System, step: Step, base: nat)
    requires Inv(s) && Enabled(s, step)
    ensures GotSince(s, base) && !step.Read? ==> GotSince(Next(s, step), base)
    ensures StoredSince(s, base) && !step.Write? ==> StoredSince(Next(s, step), base)
    ensures s.r.RIdle? ==> Next(s, step).read == s.read
    ensures s.w.WIdle? ==> Next(s, step).written == s.written
  {
    if step == WriterStep && s.w.WPut? {
      hide Next, Flow, Sleepers, Page;
      PutSince(s, base);
    } else if step == ReaderStep && s.r.RGet? {
      hide Next, Flow, Sleepers, Page;
      GetSince(s, base);
    } else {
      hide Next, Inv, GotSince, StoredSince;
      OthersSince(s, step, base);
    }
  }

  /** A call begins with nothing. */
  lemma CallBegins(s: System, step: Step)
    requires Enabled(s, step)
    ensures step.Read? ==> GotSince(Next(s, step), |s.read|)
    ensures step.Write? ==> StoredSince(Next(s, step), |s.written|)
  {
  }

  lemma {:induction false} RunSince(s: System, run: seq<Step>, base: nat)
    requires Inv(s) && IsRun(s, run)
    ensures GotSince(s, base) && (forall k :: 0 <= k < |run| ==> !run[k].Read?) ==> GotSince(After(s, run), base)
    ensures StoredSince(s, base) && (forall k :: 0 <= k < |run| ==> !run[k].Write?) ==> StoredSince(After(s, run), base)
    decreases |run|
  {
    if run != [] {
      SinceStep(s, run[0], base);
      StepKeepsInv(s, run[0]);
      hide Inv, Enabled, Next, GotSince, StoredSince;
      RunSince(Next(s, run[0]), run[1..], base);
    }
  }

  /** From the beginning of a read to the next, whatever the writer does: the caller has exactly the bytes that
      came out since it began. */
  lemma ReadGets(s: System, n: nat, run: seq<Step>)
    requires Inv(s) && Enabled(s, Read(n)) && IsRun(Next(s, Read(n)), run)
    requires forall k :: 0 <= k < |run| ==> !run[k].Read?
    ensures GotSince(After(Next(s, Read(n)), run), |s.read|)
  {
    StepKeepsInv(s, Read(n));
    CallBegins(s, Read(n));
    hide Inv, Enabled, Next, GotSince;
    RunSince(Next(s, Read(n)), run, |s.read|);
  }

  /** From the beginning of a write to the next the pipe has taken exactly the beginning of the buffer. */
  lemma WriteStores(s: System, buf: seq<Byte>, run: seq<Step>)
    requires Inv(s) && Enabled(s, Write(buf)) && IsRun(Next(s, Write(buf)), run)
    requires forall k :: 0 <= k < |run| ==> !run[k].Write?
    ensures StoredSince(After(Next(s, Write(buf)), run), |s.written|)
    ensures var t := After(Next(s, Write(buf)), run); !t.w.WIdle? ==> t.w.buf == buf
  {
    StepKeepsInv(s, Write(buf));
    CallBegins(s, Write(buf));
    BufferStays(Next(s, Write(buf)), run, buf);
    hide Inv, Enabled, Next, StoredSince;
    RunSince(Next(s, Write(buf)), run, |s.written|);
  }

  lemma {:induction false} BufferStays(s: System, run: seq<Step>, buf: seq<Byte>)
    requires IsRun(s, run) && (!s.w.WIdle? ==> s.w.buf == buf) && forall k :: 0 <= k < |run| ==> !run[k].Write?
    ensures !After(s, run).w.WIdle? ==> After(s, run).w.buf == buf
    decreases |run|
  {
    hide Contents, InFlight, Slot, Put, Taken, Get, Full, Empty;
    if run != [] {
      BufferStays(Next(s, run[0]), run[1..], buf);
    }
  }

  // What closing and killing do

  /** How many steps a process makes at most until it is out of pipe_read or pipe_write. */
  function ReaderSteps(r: Reader): nat {
    match r
    case RIdle => 0
    case RTest(n) => 2 * n + 2
    case RAsleep(n) => 2 * n + 3
    case RLoop(n, got) => if |got| <= n then 2 * (n - |got|) + 1 else 1
    case RGet(n, got) => if |got| <= n then 2 * (n - |got|) else 1
  }

  function WriterSteps(w: Writer): nat {
    match w
    case WIdle => 0
    case WTest(buf, i) => if i <= |buf| then 2 * (|buf| - i) + 1 else 1
    case WPut(buf, i) => if i <= |buf| then 2 * (|buf| - i) else 1
    case WAsleep(buf, i) => if i <= |buf| then 2 * (|buf| - i) + 2 else 2
  }

  /** Once the write end is closed the reader never sleeps again, its reads end, and nothing is
      written any more; once the read end is closed, likewise for the writer. */
  lemma ClosedEnds(s: System, step: Step)
    requires Inv(s) && Enabled(s, step)
    ensures !s.p.writeopen ==>
              var s' := Next(s, step);
              && !s'.p.writeopen && !s'.r.RAsleep? && s'.written == s.written
              && (step == ReaderStep ==> ReaderSteps(s'.r) < ReaderSteps(s.r))
    ensures !s.p.readopen ==>
              var s' := Next(s, step);
              && !s'.p.readopen && !s'.w.WAsleep? && s'.read == s.read
              && (step == WriterStep ==> WriterSteps(s'.w) < WriterSteps(s.w))
  {
    hide Contents, Slot, Flow;
  }

  /** pipe_read(n) returns nothing, with n > 0, only at the end of the data: the write end is closed
      and everything written has been read. */
  lemma EmptyReadIsEnd(s: System)
    requires Inv(s) && s.r.RLoop? && s.r.n > 0 && s.r.got == [] && Next(s, ReaderStep).r.RIdle?
    ensures !s.p.writeopen && s.read == s.written
  {
    TestsAreRight(s.p);
    hide Contents;
  }

  /** Outside pipe_write, a reader sleeps beside bytes it could have only if the writer was killed. */
  lemma OnlyKilledWriterLeavesBytes(s: System)
    requires Inv(s) && s.w.WIdle? && s.r.RAsleep? && !s.wKilled
    ensures s.read == s.written
  {
    TestsAreRight(s.p);
    hide Contents;
  }

  /** A writer that leaves pipe_write strands a sleeping reader exactly when it was killed and finds
      the pipe full. */
  lemma StrandedIff(s: System)
    requires Inv(s) && s.w.WTest? && Next(s, WriterStep).w.WIdle?
    ensures var t := Next(s, WriterStep);
            t.r.RAsleep? && t.read != t.written <==> s.r.RAsleep? && s.wKilled && Full(s.p) && s.w.i < |s.w.buf|
  {
    TestsAreRight(s.p);
    hide Contents;
  }

  lemma Ahead(s: System, step: Step, rest: seq<Step>)
    requires Enabled(s, step) && IsRun(Next(s, step), rest)
    ensures IsRun(s, [step] + rest) && After(s, [step] + rest) == After(Next(s, step), rest)
  {
    assert ([step] + rest)[1..] == rest;
  }

  /** The writer fills the pipe and nobody else moves. */
  lemma {:induction false} FillRun(s: System, buf: seq<Byte>) returns (run: seq<Step>)
    requires Inv(s) && s.w.WTest? && s.w.buf == buf && s.w.i == InFlight(s.p) && |buf| > PIPE_SIZE
    ensures IsRun(s, run)
    ensures var t := After(s, run);
              Inv(t) && Full(t.p) && t.w == WTest(buf, PIPE_SIZE) && t.r == s.r && t.p.readopen == s.p.readopen
    decreases PIPE_SIZE - s.w.i
  {
    hide Contents, Slot, Sleepers;
    TestsAreRight(s.p);
    if s.w.i == PIPE_SIZE {
      run := [];
    } else {
      var s1 := Next(s, WriterStep);
      StepKeepsInv(s, WriterStep);
      var s2 := Next(s1, WriterStep);
      StepKeepsInv(s1, WriterStep);
      PutAppends(s.p, buf[s.w.i]);
      run := FillRun(s2, buf);
      Ahead(s1, WriterStep, run);
      Ahead(s, WriterStep, [WriterStep] + run);
      run := [WriterStep] + ([WriterStep] + run);
    }
  }

  lemma {:induction false} Joined(s: System, run: seq<Step>, more: seq<Step>)
    requires IsRun(s, run) && IsRun(After(s, run), more)
    ensures IsRun(s, run + more) && After(s, run + more) == After(After(s, run), more)
    decreases |run|
  {
    if run == [] {
      assert run + more == more;
    } else {
      Joined(Next(s, run[0]), run[1..], more);
      assert (run + more)[1..] == run[1..] + more;
    }
  }

  /** And a killed writer does leave them: it returns -1 from the full pipe without a wakeup, and the
      reader sleeps on with PIPE_SIZE bytes to read. */
  lemma KilledWriterStrandsReader()
    ensures exists run :: IsRun(Initial(), run) && var s := After(Initial(), run);
              s.w.WIdle? && s.r.RAsleep? && Full(s.p)
  {
    var buf: seq<Byte> := seq(PIPE_SIZE + 1, i => 0);
    var s0 := Initial();
    assert Contents(s0.p) == [];
    var s1 := Next(s0, Read(1));
    var s2 := Next(s1, ReaderStep);
    var s3 := Next(s2, Write(buf));
    assert Inv(s3);
    var fill := FillRun(s3, buf);
    var s4 := After(s3, fill);
    var s5 := Next(s4, KillWriter);
    var s6 := Next(s5, WriterStep);
    hide Full, Contents, Slot, Inv;
    assert IsRun(s6, []) && After(s6, []) == s6;
    Ahead(s5, WriterStep, []);
    Ahead(s4, KillWriter, [WriterStep]);
    Joined(s3, fill, [KillWriter] + [WriterStep]);
    var tail := fill + ([KillWriter] + [WriterStep]);
    Ahead(s2, Write(buf), tail);
    Ahead(s1, ReaderStep, [Write(buf)] + tail);
    Ahead(s0, Read(1), [ReaderStep] + ([Write(buf)] + tail));
  }
}
