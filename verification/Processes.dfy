/** The process table as a transition system (proc/proc.c).  A C pointer to a process is its index,
    NULL is -1.  Each step runs from one point where the processor can change hands to the next:
    testing a condition and going to sleep on it is one step, and so are exit's block between cli and
    sched and one pass of wait's loop; fork takes three. */
module Processes {
  const NPROC: nat := 128
  const INIT: nat := 0

  datatype State = Unused | Used | Runable | Running | Sleeping | Zombie

  /** What a process sleeps on: wait sleeps on the process's own structure. */
  datatype Chan = Nowhere | Child(of: int) | Other(id: nat)

  datatype Proc = Proc(pid: nat, state: State, killed: bool, chan: Chan, parent: int)

  type Table = t: seq<Proc> | |t| == NPROC witness seq(NPROC, i => Proc(0, Unused, false, Nowhere, -1))

  /** `running` is the process that has the processor, -1 while the scheduler has it; `next` is where
      the scheduler's scan goes on; `child[p]` is the child p is creating in fork, or -1. */
  datatype System = System(tab: Table, running: int, next: nat, pids: nat, child: seq<int>)

  predicate Alive(p: Proc) { p.state.Runable? || p.state.Running? || p.state.Sleeping? }

  // ---------------------------------------------------------------------------------------
  // What the functions of proc.c do to the table

  function Woken(p: Proc, chan: Chan): Proc {
    if p.state == Sleeping && p.chan == chan then p.(state := Runable) else p
  }

  /** wakeup: nobody sleeps on the channel any more, and nobody else is touched. */
  function Wakeup(tab: Table, chan: Chan): (t: Table)
    ensures forall i :: 0 <= i < NPROC ==> t[i] == Woken(tab[i], chan)
    ensures forall i :: 0 <= i < NPROC ==> !(t[i].state == Sleeping && t[i].chan == chan)
    ensures forall i :: 0 <= i < NPROC && !(tab[i].state == Sleeping && tab[i].chan == chan) ==> t[i] == tab[i]
  {
    seq(NPROC, i requires 0 <= i < NPROC => Woken(tab[i], chan))
  }

  predicate IsSlot(tab: Table, i: int) {
    0 <= i < NPROC && tab[i].state == Unused && forall j :: 0 <= j < i ==> tab[j].state != Unused
  }

  /** proc_alloc of slot i: its `killed` stays what it was. */
  function Allocated(tab: Table, i: nat, pid: nat): Table
    requires i < NPROC
  {
    tab[i := tab[i].(state := Used, pid := pid)]
  }

  function AfterExit(p: Proc, me: int, grandparent: int): Proc {
    Woken(if p.parent == me then p.(parent := grandparent) else p, Child(grandparent))
  }

  /** exit of process `me`: its children go to its parent, which is woken. */
  function Exited(tab: Table, me: nat): (t: Table)
    requires me < NPROC
    ensures forall i :: 0 <= i < NPROC ==>
              t[i] == if i == me then AfterExit(tab[i], me, tab[me].parent).(state := Zombie)
              else AfterExit(tab[i], me, tab[me].parent)
  {
    seq(NPROC, i requires 0 <= i < NPROC =>
      var q := AfterExit(tab[i], me, tab[me].parent);
      if i == me then q.(state := Zombie) else q)
  }

  predicate IsDeadChild(tab: Table, me: int, i: int) {
    0 <= i < NPROC && tab[i].parent == me && tab[i].state == Zombie && forall j :: 0 <= j < i ==>
        !(tab[j].parent == me && tab[j].state == Zombie)
  }

  /** The slot of a child that wait has collected. */
  function Reaped(p: Proc): Proc {
    p.(state := Unused, pid := 0, parent := -1, killed := false)
  }

  predicate HasKids(tab: Table, me: int) { exists i :: 0 <= i < NPROC && tab[i].parent == me }

  predicate IsVictim(tab: Table, pid: nat, i: int) {
    0 <= i < NPROC && tab[i].pid == pid && forall j :: 0 <= j < i ==> tab[j].pid != pid
  }

  function Killed(p: Proc): Proc {
    p.(killed := true, state := if p.state == Sleeping then Runable else p.state)
  }

  /** Distance of slot i from the scheduler's position. */
  function Distance(next: nat, i: nat): (d: nat)
    requires next < NPROC && i < NPROC
    ensures d < NPROC
  {
    if i >= next then i - next else i + NPROC - next
  }

  /** The slot that the scheduler's scan stops at. */
  predicate IsNext(tab: Table, next: nat, i: int) {
    && next < NPROC && 0 <= i < NPROC && tab[i].state == Runable
    && forall j :: 0 <= j < NPROC && tab[j].state == Runable ==> Distance(next, i) <= Distance(next, j)
  }

  // ---------------------------------------------------------------------------------------
  // Steps

  datatype Step =
    | Dispatch(i: nat)        // the scheduler switches to process i
    | Yield                   // the timer takes the processor away
    | SleepOn(id: nat)        // the running process sleeps on something other than its children
    | WakeupOn(id: nat)       // an interrupt or a process wakes the sleepers on something
    | ForkAlloc(i: nat)       // fork: slot i is taken
    | ForkAdopt               // fork: child->parent = proc
    | ForkDone                // fork: child->state = P_RUNABLE
    | Exit
    | Collect(i: nat)         // wait returns child i
    | WaitFails               // wait returns -1
    | WaitSleeps              // wait sleeps
    | Kill(pid: nat, i: nat)  // kill finds slot i

  predicate HasProcessor(s: System) { 0 <= s.running < NPROC && |s.child| == NPROC }

  /** A process in the middle of fork makes no other system call. */
  predicate OutsideFork(s: System) { HasProcessor(s) && s.child[s.running] == -1 }

  predicate InFork(s: System) { HasProcessor(s) && 0 <= s.child[s.running] < NPROC }

  predicate Enabled(s: System, step: Step) {
    match step
    case Dispatch(i) => s.running == -1 && IsNext(s.tab, s.next, i)
    case Yield => HasProcessor(s)
    case SleepOn(_) => OutsideFork(s)
    case WakeupOn(_) => true
    case ForkAlloc(i) => OutsideFork(s) && IsSlot(s.tab, i)
    case ForkAdopt => InFork(s)
    case ForkDone => InFork(s) && s.tab[s.child[s.running]].parent == s.running
    case Exit => OutsideFork(s) && s.running != INIT
    case Collect(i) => OutsideFork(s) && IsDeadChild(s.tab, s.running, i)
    case WaitFails =>
      && OutsideFork(s) && (forall i :: 0 <= i < NPROC ==> !IsDeadChild(s.tab, s.running, i))
      && (!HasKids(s.tab, s.running) || s.tab[s.running].killed)
    case WaitSleeps =>
      && OutsideFork(s) && (forall i :: 0 <= i < NPROC ==> !IsDeadChild(s.tab, s.running, i))
      && HasKids(s.tab, s.running) && !s.tab[s.running].killed
    case Kill(pid, i) => IsVictim(s.tab, pid, i)
  }

  function SetProc(s: System, i: nat, p: Proc): System
    requires i < NPROC
  {
    s.(tab := s.tab[i := p])
  }

  function Next(s: System, step: Step): System
    requires Enabled(s, step)
  {
    match step
    case Dispatch(i) =>
      SetProc(s, i, s.tab[i].(state := Running, chan := Nowhere)).(running := i, next := (i + 1) % NPROC)
    case Yield => SetProc(s, s.running, s.tab[s.running].(state := Runable)).(running := -1)
    case SleepOn(id) => SetProc(s, s.running, s.tab[s.running].(state := Sleeping, chan := Other(id))).(running := -1)
    case WakeupOn(id) => s.(tab := Wakeup(s.tab, Other(id)))
    case ForkAlloc(i) =>
        s.(tab := Allocated(s.tab, i, (s.pids + 1) % 256), pids := (s.pids + 1) % 0x1_0000_0000,
           child := s.child[s.running := i])
    case ForkAdopt => SetProc(s, s.child[s.running], s.tab[s.child[s.running]].(parent := s.running))
    case ForkDone =>
      SetProc(s, s.child[s.running], s.tab[s.child[s.running]].(state := Runable)).(child := s.child[s.running := -1])
    case Exit => s.(tab := Exited(s.tab, s.running), running := -1)
    case Collect(i) => SetProc(s, i, Reaped(s.tab[i]))
    case WaitFails => s
    case WaitSleeps => SetProc(s, s.running,
                               s.tab[s.running].(state := Sleeping, chan := Child(s.running))).(running := -1)
    case Kill(pid, i) => SetProc(s, i, Killed(s.tab[i]))
  }

  /** proc_init: the first process is in slot 0 and nothing else exists. */
  function Initial(): System {
    var none := Proc(0, Unused, false, Nowhere, -1);
    System(seq(NPROC, i => if i == INIT then Proc(1, Runable, false, Nowhere, -1) else none), -1, 0, 1,
           seq(NPROC, i => -1))
  }

  // ---------------------------------------------------------------------------------------
  // Invariants

  /** The one process that is RUNNING is the one that has the processor. */
  predicate OneRunning(s: System) {
    && -1 <= s.running < NPROC && s.next < NPROC && |s.child| == NPROC
    && forall i :: 0 <= i < NPROC ==> (s.tab[i].state == Running <==> i == s.running)
  }

  predicate ParentLives(tab: Table, p: Proc) { 0 <= p.parent < NPROC && Alive(tab[p.parent]) }

  predicate Kin(tab: Table, i: nat, p: Proc) {
    if i == INIT then Alive(p) && p.parent == -1
    else match p.state
      case Unused => p.parent == -1 && p.pid == 0
      case Used => p.parent == -1 || ParentLives(tab, p)
      case _ => ParentLives(tab, p)
  }

  /** Every zombie and every live process but init has a parent that is neither unused nor a zombie. */
  predicate Family(tab: Table) { forall i :: 0 <= i < NPROC ==> Kin(tab, i, tab[i]) }

  predicate InWait(p: Proc, i: nat) { p.state == Sleeping && p.chan == Child(i) }

  predicate OwnChannel(p: Proc, i: nat) { p.state == Sleeping && p.chan.Child? ==> p.chan.of == i }

  /** A process asleep in wait has no zombie child. */
  predicate NoForgottenZombie(tab: Table) {
    && (forall i :: 0 <= i < NPROC ==> OwnChannel(tab[i], i))
    && forall i, j :: 0 <= i < NPROC && 0 <= j < NPROC && InWait(tab[i], i) && tab[j].parent == i ==>
        tab[j].state != Zombie
  }

  /** Process p is in the middle of creating c, or c is -1. */
  predicate Creating(tab: Table, p: nat, c: int)
    requires p < NPROC
  {
    c != -1 ==>
      && 0 <= c < NPROC && tab[c].state == Used && (tab[c].parent == -1 || tab[c].parent == p)
      && (tab[p].state == Runable || tab[p].state == Running)
  }

  /** The children being created, each by one process. */
  predicate Forking(tab: Table, child: seq<int>) {
    && |child| == NPROC
    && (forall p :: 0 <= p < NPROC ==> Creating(tab, p, child[p]))
    && forall p, q :: 0 <= p < q < NPROC && child[p] != -1 ==> child[p] != child[q]
  }

  /** Parents rank below their children: no process is its own ancestor. */
  ghost predicate Ranked(tab: Table, rank: seq<nat>) {
    |rank| == NPROC && forall i :: 0 <= i < NPROC && 0 <= tab[i].parent < NPROC ==> rank[tab[i].parent] < rank[i]
  }

  ghost predicate Acyclic(tab: Table) { exists rank :: Ranked(tab, rank) }

  ghost predicate Inv(s: System) {
    OneRunning(s) && Family(s.tab) && NoForgottenZombie(s.tab) && Forking(s.tab, s.child) && Acyclic(s.tab)
  }

  lemma InitialInv()
    ensures Inv(Initial())
  {
    var rank := seq(NPROC, i => 0);
    assert Ranked(Initial().tab, rank);
  }

  // Changes of one slot

  lemma FamilyUpdate(tab: Table, i: nat, p: Proc)
    requires Family(tab) && i < NPROC && Kin(tab, i, p) && (Alive(tab[i]) ==> Alive(p))
    ensures Family(tab[i := p])
  {
    var tab' := tab[i := p];
    forall j | 0 <= j < NPROC ensures Kin(tab', j, tab'[j]) {
      assert Kin(tab, j, tab[j]);
    }
  }

  lemma ZombieUpdate(tab: Table, i: nat, p: Proc)
    requires NoForgottenZombie(tab) && i < NPROC && OwnChannel(p, i)
    requires p.state == Zombie ==> tab[i].state == Zombie && p.parent == tab[i].parent
    requires InWait(p, i) ==> forall j :: 0 <= j < NPROC && tab[j].parent == i ==> tab[j].state != Zombie
    ensures NoForgottenZombie(tab[i := p])
  {
  }

  lemma RankUpdate(tab: Table, i: nat, p: Proc)
    requires Acyclic(tab) && i < NPROC && (p.parent == tab[i].parent || p.parent == -1)
    ensures Acyclic(tab[i := p])
  {
    var rank :| Ranked(tab, rank);
    assert Ranked(tab[i := p], rank);
  }

  lemma ForkingUpdate(tab: Table, child: seq<int>, i: nat, p: Proc)
    requires Forking(tab, child) && i < NPROC
    requires tab[i].state == Used ==> p.state == Used && p.parent == tab[i].parent
    requires child[i] != -1 ==> p.state == Runable || p.state == Running
    ensures Forking(tab[i := p], child)
  {
    var tab' := tab[i := p];
    forall q | 0 <= q < NPROC ensures Creating(tab', q, child[q]) {
      assert Creating(tab, q, child[q]);
    }
  }

  lemma RunningUpdate(s: System, i: nat, p: Proc, running: int, next: nat)
    requires OneRunning(s) && i < NPROC && -1 <= running < NPROC && next < NPROC
    requires p.state == Running <==> i == running
    requires s.running == running || s.running == -1 || s.running == i
    requires s.running == running || running == -1 || running == i
    ensures OneRunning(SetProc(s, i, p).(running := running, next := next))
  {
  }

  /** A slot changes its state and what goes with it, but stays in the family. */
  lemma SlotKeepsInv(s: System, i: nat, p: Proc, running: int, next: nat)
    requires Inv(s) && i < NPROC && -1 <= running < NPROC && next < NPROC
    requires p.state == Running <==> i == running
    requires s.running == running || s.running == -1 || s.running == i
    requires s.running == running || running == -1 || running == i
    requires p.parent == s.tab[i].parent && Alive(s.tab[i]) == Alive(p)
    requires p.state != s.tab[i].state ==> Alive(p)
    requires s.tab[i].state == Unused ==> p.pid == 0
    requires OwnChannel(p, i)
    requires InWait(p, i) ==> forall j :: 0 <= j < NPROC && s.tab[j].parent == i ==> s.tab[j].state != Zombie
    requires s.child[i] != -1 ==> p.state == Runable || p.state == Running
    ensures Inv(SetProc(s, i, p).(running := running, next := next))
  {
    assert Kin(s.tab, i, s.tab[i]);
    FamilyUpdate(s.tab, i, p);
    ZombieUpdate(s.tab, i, p);
    RankUpdate(s.tab, i, p);
    ForkingUpdate(s.tab, s.child, i, p);
    RunningUpdate(s, i, p, running, next);
    hide Family, NoForgottenZombie, OneRunning, Acyclic;
  }

  lemma {:induction false} FirstDead(tab: Table, me: int, j: nat) returns (i: nat)
    requires j < NPROC && tab[j].parent == me && tab[j].state == Zombie
    ensures IsDeadChild(tab, me, i)
  {
    if k :| 0 <= k < j && tab[k].parent == me && tab[k].state == Zombie {
      i := FirstDead(tab, me, k);
    } else {
      i := j;
    }
  }

  lemma NoDeadChild(tab: Table, me: int)
    requires forall i :: 0 <= i < NPROC ==> !IsDeadChild(tab, me, i)
    ensures forall j :: 0 <= j < NPROC && tab[j].parent == me ==> tab[j].state != Zombie
  {
    forall j | 0 <= j < NPROC && tab[j].parent == me ensures tab[j].state != Zombie {
      if tab[j].state == Zombie {
        var i := FirstDead(tab, me, j);
      }
    }
  }

  lemma WakeupFamily(tab: Table, child: seq<int>, chan: Chan)
    requires Family(tab) && Forking(tab, child)
    ensures Family(Wakeup(tab, chan)) && Forking(Wakeup(tab, chan), child)
  {
    var t := Wakeup(tab, chan);
    forall i | 0 <= i < NPROC ensures Kin(t, i, t[i]) && Creating(t, i, child[i]) {
      assert Kin(tab, i, tab[i]) && Creating(tab, i, child[i]);
    }
  }

  lemma WakeupZombies(tab: Table, chan: Chan)
    requires NoForgottenZombie(tab)
    ensures NoForgottenZombie(Wakeup(tab, chan))
  {
    var t := Wakeup(tab, chan);
    forall i | 0 <= i < NPROC ensures OwnChannel(t[i], i) {
      assert OwnChannel(tab[i], i);
    }
  }

  lemma SameParents(tab: Table, t: Table)
    requires Acyclic(tab) && forall i :: 0 <= i < NPROC ==> t[i].parent == tab[i].parent
    ensures Acyclic(t)
  {
    var rank :| Ranked(tab, rank);
    assert Ranked(t, rank);
  }

  lemma WakeupKeepsInv(s: System, id: nat)
    requires Inv(s)
    ensures Inv(Next(s, WakeupOn(id)))
  {
    WakeupFamily(s.tab, s.child, Other(id));
    WakeupZombies(s.tab, Other(id));
    SameParents(s.tab, Wakeup(s.tab, Other(id)));
    hide Family, NoForgottenZombie, Acyclic, Forking;
  }

  lemma CollectKeepsInv(s: System, i: nat)
    requires Inv(s) && Enabled(s, Collect(i))
    ensures Inv(Next(s, Collect(i)))
  {
    var p := Reaped(s.tab[i]);
    assert Kin(s.tab, i, s.tab[i]);
    assert Creating(s.tab, i, s.child[i]);
    FamilyUpdate(s.tab, i, p);
    ZombieUpdate(s.tab, i, p);
    RankUpdate(s.tab, i, p);
    ForkingUpdate(s.tab, s.child, i, p);
    RunningUpdate(s, i, p, s.running, s.next);
    hide Family, NoForgottenZombie, OneRunning, Acyclic;
  }

  lemma ForkingAlloc(tab: Table, child: seq<int>, me: nat, i: nat, p: Proc)
    requires Forking(tab, child) && me < NPROC && i < NPROC && tab[me].state == Running && tab[i].state == Unused
    requires p.state == Used && p.parent == -1
    ensures Forking(tab[i := p], child[me := i])
  {
    var tab', child' := tab[i := p], child[me := i];
    forall q | 0 <= q < NPROC ensures Creating(tab', q, child'[q]) && (child[q] != -1 ==> child[q] != i) {
      assert Creating(tab, q, child[q]);
    }
  }

  lemma ForkingDone(tab: Table, child: seq<int>, me: nat, p: Proc)
    requires Forking(tab, child) && me < NPROC && 0 <= child[me] < NPROC && p.state == Runable
    ensures Forking(tab[child[me] := p], child[me := -1])
  {
    var tab', child' := tab[child[me] := p], child[me := -1];
    forall q | 0 <= q < NPROC ensures Creating(tab', q, child'[q]) {
      assert Creating(tab, q, child[q]);
    }
  }

  lemma ForkAllocKeepsInv(s: System, i: nat)
    requires Inv(s) && Enabled(s, ForkAlloc(i))
    ensures Inv(Next(s, ForkAlloc(i)))
  {
    var p := s.tab[i].(state := Used, pid := (s.pids + 1) % 256);
    assert Kin(s.tab, i, s.tab[i]);
    FamilyUpdate(s.tab, i, p);
    ZombieUpdate(s.tab, i, p);
    RankUpdate(s.tab, i, p);
    RunningUpdate(s, i, p, s.running, s.next);
    ForkingAlloc(s.tab, s.child, s.running, i, p);
    hide Family, NoForgottenZombie, Acyclic, Forking;
  }

  lemma ForkDoneKeepsInv(s: System)
    requires Inv(s) && Enabled(s, ForkDone)
    ensures Inv(Next(s, ForkDone))
  {
    var c := s.child[s.running];
    var p := s.tab[c].(state := Runable);
    assert Creating(s.tab, s.running, c) && Kin(s.tab, c, s.tab[c]) && OwnChannel(s.tab[c], c);
    FamilyUpdate(s.tab, c, p);
    ZombieUpdate(s.tab, c, p);
    RankUpdate(s.tab, c, p);
    RunningUpdate(s, c, p, s.running, s.next);
    ForkingDone(s.tab, s.child, s.running, p);
    hide Family, NoForgottenZombie, Acyclic, Forking;
  }

  lemma AdoptRank(tab: Table, me: nat, c: nat)
    requires Acyclic(tab) && Family(tab) && me < NPROC && c < NPROC && tab[c].state == Used && me != c
    ensures Acyclic(tab[c := tab[c].(parent := me)])
  {
    var rank :| Ranked(tab, rank);
    forall i | 0 <= i < NPROC ensures tab[i].parent != c {
      assert Kin(tab, i, tab[i]);
    }
    assert Ranked(tab[c := tab[c].(parent := me)], rank[c := rank[me] + 1]);
  }

  lemma ForkAdoptKeepsInv(s: System)
    requires Inv(s) && Enabled(s, ForkAdopt)
    ensures Inv(Next(s, ForkAdopt))
  {
    var c := s.child[s.running];
    var p := s.tab[c].(parent := s.running);
    assert Creating(s.tab, s.running, c) && Kin(s.tab, c, s.tab[c]) && OwnChannel(s.tab[c], c);
    FamilyUpdate(s.tab, c, p);
    ZombieUpdate(s.tab, c, p);
    AdoptRank(s.tab, s.running, c);
    RunningUpdate(s, c, p, s.running, s.next);
    ForkingAdopt(s.tab, s.child, s.running, p);
    hide Family, NoForgottenZombie, Acyclic, Forking;
  }

  lemma ForkingAdopt(tab: Table, child: seq<int>, me: nat, p: Proc)
    requires Forking(tab, child) && me < NPROC && 0 <= child[me] < NPROC && p.state == Used && p.parent == me
    ensures Forking(tab[child[me] := p], child)
  {
    var tab' := tab[child[me] := p];
    forall q | 0 <= q < NPROC ensures Creating(tab', q, child[q]) {
      assert Creating(tab, q, child[q]);
    }
  }

  // exit

  /** The grandparent is alive and another process. */
  lemma Grandparent(tab: Table, me: nat)
    requires Family(tab) && Acyclic(tab) && me < NPROC && me != INIT && Alive(tab[me])
    ensures ParentLives(tab, tab[me]) && tab[me].parent != me
  {
    assert Kin(tab, me, tab[me]);
    var rank :| Ranked(tab, rank);
    assert 0 <= tab[me].parent < NPROC;
  }

  lemma ExitFamily(tab: Table, child: seq<int>, me: nat)
    requires Family(tab) && Forking(tab, child) && me < NPROC && me != INIT && child[me] == -1
    requires tab[me].state == Running && ParentLives(tab, tab[me]) && tab[me].parent != me
    ensures Family(Exited(tab, me)) && Forking(Exited(tab, me), child)
  {
    var t := Exited(tab, me);
    forall i | 0 <= i < NPROC ensures Kin(t, i, t[i]) && Creating(t, i, child[i]) {
      assert Kin(tab, i, tab[i]) && Creating(tab, i, child[i]);
    }
  }

  /** The one parent that may get zombies, the grandparent, is woken. */
  lemma ExitZombies(tab: Table, me: nat)
    requires NoForgottenZombie(tab) && me < NPROC && tab[me].state == Running && tab[me].parent != me
    ensures NoForgottenZombie(Exited(tab, me))
  {
    var t := Exited(tab, me);
    forall i | 0 <= i < NPROC ensures OwnChannel(t[i], i) {
      assert OwnChannel(tab[i], i);
    }
  }

  lemma ExitRank(tab: Table, me: nat)
    requires Acyclic(tab) && me < NPROC && 0 <= tab[me].parent < NPROC
    ensures Acyclic(Exited(tab, me))
  {
    var rank :| Ranked(tab, rank);
    assert Ranked(Exited(tab, me), rank);
  }

  lemma ExitRunning(s: System)
    requires OneRunning(s) && Enabled(s, Exit)
    ensures OneRunning(Next(s, Exit))
  {
  }

  lemma ExitKeepsInv(s: System)
    requires Inv(s) && Enabled(s, Exit)
    ensures Inv(Next(s, Exit))
  {
    assert s.tab[s.running].state == Running by { assert OneRunning(s); }
    ExitRunning(s);
    hide OneRunning;
    Grandparent(s.tab, s.running);
    ExitFamily(s.tab, s.child, s.running);
    ExitZombies(s.tab, s.running);
    ExitRank(s.tab, s.running);
    hide Family, NoForgottenZombie, Acyclic, Forking;
  }

  // All steps

  lemma StepKeepsInv(s: System, step: Step)
    requires Inv(s) && Enabled(s, step)
    ensures Inv(Next(s, step))
  {
    hide Family, Acyclic, Forking;
    match step
    case Dispatch(i) => SlotKeepsInv(s, i, s.tab[i].(state := Running, chan := Nowhere), i, (i + 1) % NPROC);
    case Yield => SlotKeepsInv(s, s.running, s.tab[s.running].(state := Runable), -1, s.next);
    case SleepOn(id) => SlotKeepsInv(s, s.running, s.tab[s.running].(state := Sleeping, chan := Other(id)), -1, s.next);
    case WaitSleeps =>
      NoDeadChild(s.tab, s.running);
      SlotKeepsInv(s, s.running, s.tab[s.running].(state := Sleeping, chan := Child(s.running)), -1, s.next);
    case Kill(_, i) => KillKeepsInv(s, i);
    case WakeupOn(id) => WakeupKeepsInv(s, id);
    case ForkAlloc(i) => ForkAllocKeepsInv(s, i);
    case ForkAdopt => ForkAdoptKeepsInv(s);
    case ForkDone => ForkDoneKeepsInv(s);
    case Exit => ExitKeepsInv(s);
    case Collect(i) => CollectKeepsInv(s, i);
    case WaitFails =>
  }

  lemma KillKeepsInv(s: System, i: nat)
    requires Inv(s) && i < NPROC
    ensures Inv(SetProc(s, i, Killed(s.tab[i])))
  {
    assert Kin(s.tab, i, s.tab[i]) && Creating(s.tab, i, s.child[i]) && OwnChannel(s.tab[i], i);
    SlotKeepsInv(s, i, Killed(s.tab[i]), s.running, s.next);
  }

  // ---------------------------------------------------------------------------------------
  // Runs

  ghost predicate IsRun(s: System, run: seq<Step>)
    decreases |run|
  {
    run == [] || (Enabled(s, run[0]) && IsRun(Next(s, run[0]), run[1..]))
  }

  ghost function After(s: System, run: seq<Step>): System
    requires IsRun(s, run)
    decreases |run|
  {
    if run == [] then s else After(Next(s, run[0]), run[1..])
  }

  /** A run leads from one state to another. */
  ghost predicate Leads(s: System, run: seq<Step>, t: System) { IsRun(s, run) && After(s, run) == t }

  lemma LeadsNowhere(s: System)
    ensures Leads(s, [], s)
  {
  }

  lemma LeadsOne(s: System, step: Step)
    requires Enabled(s, step)
    ensures Leads(s, [step], Next(s, step))
  {
    LeadsNowhere(Next(s, step));
  }

  lemma {:induction false} LeadsOn(s: System, run: seq<Step>, t: System, run': seq<Step>, u: System)
    requires Leads(s, run, t) && Leads(t, run', u)
    ensures Leads(s, run + run', u)
    decreases |run|
  {
    if run == [] {
      assert run + run' == run';
    } else {
      LeadsOn(Next(s, run[0]), run[1..], t, run', u);
      assert (run + run')[1..] == run[1..] + run';
    }
  }

  /** Every run from the first process on keeps the invariants: at most one process is RUNNING, the
      family stays whole, and nobody waits while a zombie child is there to be collected. */
  lemma {:induction false} RunKeepsInv(s: System, run: seq<Step>)
    requires Inv(s) && IsRun(s, run)
    ensures Inv(After(s, run))
    decreases |run|
  {
    if run != [] {
      StepKeepsInv(s, run[0]);
      RunKeepsInv(Next(s, run[0]), run[1..]);
    }
  }

  ghost predicate DescendsIn(tab: Table, i: int, n: nat)
    decreases n
  {
    0 <= i < NPROC && if n == 0 then i == INIT else DescendsIn(tab, tab[i].parent, n - 1)
  }

  ghost predicate UnderInit(tab: Table, i: nat) { exists n: nat :: DescendsIn(tab, i, n) }

  lemma {:induction false} ReachesInit(tab: Table, rank: seq<nat>, i: nat) returns (n: nat)
    requires Family(tab) && Ranked(tab, rank) && i < NPROC && (Alive(tab[i]) || tab[i].state == Zombie)
    ensures DescendsIn(tab, i, n)
    decreases rank[i]
  {
    assert Kin(tab, i, tab[i]);
    if i == INIT {
      n := 0;
    } else {
      n := ReachesInit(tab, rank, tab[i].parent);
      n := n + 1;
    }
  }

  /** In every reachable state the parent links of live processes and zombies form a tree with init at
      its root, no parent is unused or a zombie, and a parent asleep in wait has no zombie child. */
  lemma ReachableStates(run: seq<Step>)
    requires IsRun(Initial(), run)
    ensures var s := After(Initial(), run);
            && (forall i, j ::
                  0 <= i < NPROC && 0 <= j < NPROC && s.tab[i].state == Running && s.tab[j].state == Running ==> i == j)
            && (forall i: nat :: i < NPROC && (Alive(s.tab[i]) || s.tab[i].state == Zombie) ==> UnderInit(s.tab, i))
            && (forall i: nat :: 0 < i < NPROC && (Alive(s.tab[i]) || s.tab[i].state == Zombie) ==>
                  ParentLives(s.tab, s.tab[i]))
            && (forall i, j :: 0 <= i < NPROC && 0 <= j < NPROC && InWait(s.tab[i], i) && s.tab[j].parent == i ==>
                  s.tab[j].state != Zombie)
  {
    InitialInv();
    RunKeepsInv(Initial(), run);
    var s := After(Initial(), run);
    var rank :| Ranked(s.tab, rank);
    forall i: nat | i < NPROC && (Alive(s.tab[i]) || s.tab[i].state == Zombie)
      ensures UnderInit(s.tab, i)
      ensures i > 0 ==> ParentLives(s.tab, s.tab[i])
    {
      var n := ReachesInit(s.tab, rank, i);
      assert Kin(s.tab, i, s.tab[i]);
    }
  }

  /** No exit goes unnoticed: a parent that is asleep in wait is made RUNABLE, and its next pass
      through wait's loop collects a child instead of sleeping. */
  lemma ExitIsNoticed(s: System)
    requires Inv(s) && Enabled(s, Exit)
    ensures var t, g := Next(s, Exit), s.tab[s.running].parent;
            && 0 <= g < NPROC && g != s.running
            && (InWait(s.tab[g], g) ==> t.tab[g].state == Runable)
            && exists i :: IsDeadChild(t.tab, g, i)
  {
    Grandparent(s.tab, s.running);
    var t, g := Next(s, Exit), s.tab[s.running].parent;
    assert t.tab[s.running].parent == g && t.tab[s.running].state == Zombie;
    var i := FirstDead(t.tab, g, s.running);
  }

  // Scheduling

  ghost function Dispatches(run: seq<Step>): nat
    decreases |run|
  {
    if |run| == 0 then 0 else (if run[0].Dispatch? then 1 else 0) + Dispatches(run[1..])
  }

  /** Only the scheduler ends a process's being RUNABLE, and each switch to another process brings
      the scan closer to it. */
  lemma CloserStep(s: System, step: Step, p: nat)
    requires Inv(s) && Enabled(s, step) && p < NPROC && s.tab[p].state == Runable && step != Dispatch(p)
    ensures Next(s, step).tab[p].state == Runable
    ensures OneRunning(Next(s, step))
    ensures Distance(Next(s, step).next, p) + (if step.Dispatch? then 1 else 0) <= Distance(s.next, p)
  {
    hide Family, NoForgottenZombie, Acyclic;
    StepKeepsInv(s, step);
    if InFork(s) {
      assert Creating(s.tab, s.running, s.child[s.running]);
    }
  }

  lemma {:induction false} EachTurnCloser(s: System, run: seq<Step>, p: nat)
    requires Inv(s) && IsRun(s, run) && p < NPROC && s.tab[p].state == Runable && Dispatch(p) !in run
    ensures After(s, run).tab[p].state == Runable
    ensures Dispatches(run) <= Distance(s.next, p)
    decreases |run|
  {
    if run != [] {
      CloserStep(s, run[0], p);
      StepKeepsInv(s, run[0]);
      EachTurnCloser(Next(s, run[0]), run[1..], p);
    }
  }

  /** Round robin: a RUNABLE process gets the processor within NPROC switches, whatever the others do. */
  lemma RoundRobin(s: System, run: seq<Step>, p: nat)
    requires Inv(s) && IsRun(s, run) && p < NPROC && s.tab[p].state == Runable && Dispatches(run) >= NPROC
    ensures Dispatch(p) in run
  {
    if Dispatch(p) !in run {
      EachTurnCloser(s, run, p);
    }
  }

  // Zombies and killing

  /** A zombie stays one, with its pid, until wait collects it. */
  lemma {:induction false} ZombieKept(s: System, run: seq<Step>, j: nat)
    requires Inv(s) && IsRun(s, run) && j < NPROC && s.tab[j].state == Zombie && Collect(j) !in run
    ensures After(s, run).tab[j].state == Zombie && After(s, run).tab[j].pid == s.tab[j].pid
    decreases |run|
  {
    if run != [] {
      ZombieStep(s, run[0], j);
      StepKeepsInv(s, run[0]);
      ZombieKept(Next(s, run[0]), run[1..], j);
    }
  }

  lemma ZombieStep(s: System, step: Step, j: nat)
    requires Inv(s) && Enabled(s, step) && j < NPROC && s.tab[j].state == Zombie && step != Collect(j)
    ensures Next(s, step).tab[j].state == Zombie && Next(s, step).tab[j].pid == s.tab[j].pid
  {
    hide Family, NoForgottenZombie, Acyclic;
    if InFork(s) {
      assert Creating(s.tab, s.running, s.child[s.running]);
    }
  }

  /** Slots that are free have no mark of kill. */
  predicate CleanSlots(tab: Table) { forall i :: 0 <= i < NPROC && tab[i].state == Unused ==> !tab[i].killed }

  /** A step marks a free slot exactly when kill finds one, and only kill(0) can. */
  lemma CleanStep(s: System, step: Step)
    requires Inv(s) && CleanSlots(s.tab) && Enabled(s, step)
    ensures CleanSlots(Next(s, step).tab) <==> !(step.Kill? && s.tab[step.i].state == Unused)
    ensures step.Kill? && step.pid != 0 ==> s.tab[step.i].state != Unused
  {
    hide NoForgottenZombie, Acyclic;
    if step.Kill? {
      assert Kin(s.tab, step.i, s.tab[step.i]);
      assert Next(s, step).tab[step.i].killed;
    }
    if InFork(s) {
      assert Creating(s.tab, s.running, s.child[s.running]);
    }
  }

  /** As long as nobody kills pid 0, every new process starts out not killed. */
  lemma {:induction false} NewbornsNotKilled(s: System, run: seq<Step>)
    requires Inv(s) && CleanSlots(s.tab) && IsRun(s, run)
    requires forall k :: 0 <= k < |run| && run[k].Kill? ==> run[k].pid != 0
    ensures CleanSlots(After(s, run).tab)
    ensures forall i: nat :: Enabled(After(s, run), ForkAlloc(i)) ==> !Next(After(s, run), ForkAlloc(i)).tab[i].killed
    decreases |run|
  {
    if run != [] {
      CleanStep(s, run[0]);
      StepKeepsInv(s, run[0]);
      NewbornsNotKilled(Next(s, run[0]), run[1..]);
    }
  }

  /** kill(0) marks a free slot, and the process that is created there next is born killed. */
  lemma KillZeroMarksNewborn()
    ensures exists run :: IsRun(Initial(), run) && run == [Dispatch(0), Kill(0, 1), ForkAlloc(1)]
              && After(Initial(), run).tab[1].killed
  {
    var s0 := Initial();
    var s1 := Next(s0, Dispatch(0));
    var s2 := Next(s1, Kill(0, 1));
    assert IsSlot(s2.tab, 1);
    var s3 := Next(s2, ForkAlloc(1));
    assert IsRun(s3, []) && After(s3, []) == s3;
    assert IsRun(s2, [ForkAlloc(1)]) && After(s2, [ForkAlloc(1)]) == s3;
    assert [Kill(0, 1), ForkAlloc(1)][1..] == [ForkAlloc(1)];
    assert IsRun(s1, [Kill(0, 1), ForkAlloc(1)]) && After(s1, [Kill(0, 1), ForkAlloc(1)]) == s3;
    var run := [Dispatch(0), Kill(0, 1), ForkAlloc(1)];
    assert run[1..] == [Kill(0, 1), ForkAlloc(1)];
    assert IsRun(s0, run) && After(s0, run).tab[1].killed;
  }

  /** init keeps its pid, and a step marks it exactly when it is kill of that pid. */
  lemma InitMarked(s: System, step: Step)
    requires Inv(s) && Enabled(s, step)
    ensures Next(s, step).tab[INIT].pid == s.tab[INIT].pid
    ensures Next(s, step).tab[INIT].killed <==> s.tab[INIT].killed || (step.Kill? && step.pid == s.tab[INIT].pid)
  {
    hide NoForgottenZombie, Acyclic;
    assert Kin(s.tab, INIT, s.tab[INIT]);
    if InFork(s) {
      assert Creating(s.tab, s.running, s.child[s.running]);
    }
  }

  /** init carries kill's mark exactly when somebody has killed its pid; nothing takes the mark away, and
      the next timer interrupt in its user mode calls exit, which refuses init. */
  lemma {:induction false} InitMarkedIff(s: System, run: seq<Step>)
    requires Inv(s) && IsRun(s, run)
    ensures After(s, run).tab[INIT].killed <==>
              s.tab[INIT].killed || exists k :: 0 <= k < |run| && run[k].Kill? && run[k].pid == s.tab[INIT].pid
    decreases |run|
  {
    if run != [] {
      InitMarked(s, run[0]);
      StepKeepsInv(s, run[0]);
      InitMarkedIff(Next(s, run[0]), run[1..]);
      forall k | 0 <= k < |run| && run[k].Kill? && run[k].pid == s.tab[INIT].pid
        ensures k > 0 ==> run[1..][k - 1].Kill? && run[1..][k - 1].pid == s.tab[INIT].pid
      {
        assert k > 0 ==> run[1..][k - 1] == run[k];
      }
      hide Enabled, Next, Inv;
    }
  }
}
