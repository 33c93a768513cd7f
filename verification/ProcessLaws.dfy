/** What each step of proc/proc.c does to every field of the process table, field by field, and what follows for
    whole runs: sleepers sleep until they are woken or killed, the killed come back from wait, pids count up. */
module ProcessLaws {
  import opened Processes

  /** Every slot but i, and what is kept beside the table. */
  predicate OnlySlot(s: System, t: System, i: int) {
    t.next == s.next && t.pids == s.pids && t.child == s.child && OnlyInTable(s, t, i)
  }

  predicate OnlyInTable(s: System, t: System, i: int) { forall j :: 0 <= j < NPROC && j != i ==> t.tab[j] == s.tab[j] }

  // ---------------------------------------------------------------------------------------
  // The scheduler and sleeping

  /** scheduler: from where its scan stands the first RUNABLE process runs, and the scan goes on behind it. */
  lemma DispatchDoes(s: System, i: nat)
    requires Enabled(s, Dispatch(i)) && |s.child| == NPROC
    ensures var t := Next(s, Dispatch(i));
            && s.running == -1 && t.running == i && t.next == (if i == 127 then 0 else i + 1)
            && s.tab[i].state == Runable && t.tab[i].state == Running && t.tab[i].chan == Nowhere
            && t.tab[i].pid == s.tab[i].pid && t.tab[i].killed == s.tab[i].killed && t.tab[i].parent == s.tab[i].parent
            && OnlyInTable(s, t, i) && t.pids == s.pids && t.child == s.child
    ensures s.next <= i ==> forall j :: s.next <= j < i ==> s.tab[j].state != Runable
    ensures i < s.next ==> forall j :: 0 <= j < i || s.next <= j < NPROC ==> s.tab[j].state != Runable
  {
    forall j | 0 <= j < NPROC && Distance(s.next, j) < Distance(s.next, i) ensures s.tab[j].state != Runable {
    }
    assert forall j :: s.next <= j < i ==> Distance(s.next, j) < Distance(s.next, i);
    assert i < s.next ==> forall j :: 0 <= j < i || s.next <= j < NPROC ==> Distance(s.next, j) < Distance(s.next, i);
  }

  /** The timer: the running process stays RUNABLE. */
  lemma YieldDoes(s: System)
    requires Enabled(s, Yield)
    ensures var t, p := Next(s, Yield), s.running;
            && t.running == -1 && OnlySlot(s, t, p) && t.tab[p].state == Runable && t.tab[p].chan == s.tab[p].chan
            && t.tab[p].pid == s.tab[p].pid && t.tab[p].killed == s.tab[p].killed && t.tab[p].parent == s.tab[p].parent
  {
  }

  lemma SleepDoes(s: System, id: nat)
    requires Enabled(s, SleepOn(id))
    ensures var t, p := Next(s, SleepOn(id)), s.running;
            && t.running == -1 && OnlySlot(s, t, p) && t.tab[p].state == Sleeping && t.tab[p].chan == Other(id)
            && t.tab[p].pid == s.tab[p].pid && t.tab[p].killed == s.tab[p].killed && t.tab[p].parent == s.tab[p].parent
  {
  }

  /** wakeup: exactly the sleepers on the channel become RUNABLE, and nothing else changes. */
  lemma WakeupDoes(s: System, id: nat, i: nat)
    requires i < NPROC
    ensures var t := Next(s, WakeupOn(id));
            && t.running == s.running && t.next == s.next && t.pids == s.pids && t.child == s.child
            && t.tab[i].state == (if s.tab[i].state == Sleeping && s.tab[i].chan == Other(id) then Runable
                                    else s.tab[i].state)
            && t.tab[i].chan == s.tab[i].chan && t.tab[i].pid == s.tab[i].pid
            && t.tab[i].killed == s.tab[i].killed && t.tab[i].parent == s.tab[i].parent
  {
  }

  /** Process p sleeps on this. */
  predicate AsleepOn(s: System, p: nat, id: nat) {
    p < NPROC && s.tab[p].state == Sleeping && s.tab[p].chan == Other(id)
  }

  lemma StillAsleep(s: System, step: Step, p: nat, id: nat)
    requires Inv(s) && Enabled(s, step) && AsleepOn(s, p, id) && step != WakeupOn(id) && !(step.Kill? && step.i == p)
    ensures AsleepOn(Next(s, step), p, id)
  {
    hide Family, NoForgottenZombie, Acyclic;
    if InFork(s) {
      assert Creating(s.tab, s.running, s.child[s.running]);
    }
  }

  /** A sleeper sleeps until its channel is woken or it is killed; the wakeup makes it RUNABLE. */
  lemma {:induction false} SleepsUntilWoken(s: System, run: seq<Step>, p: nat, id: nat)
    requires Inv(s) && IsRun(s, run) && AsleepOn(s, p, id)
    requires WakeupOn(id) !in run && forall k :: 0 <= k < |run| && run[k].Kill? ==> run[k].i != p
    ensures AsleepOn(After(s, run), p, id) && Next(After(s, run), WakeupOn(id)).tab[p].state == Runable
    decreases |run|
  {
    if run != [] {
      hide Inv, Enabled, Next;
      assert run[0] in run;
      StillAsleep(s, run[0], p, id);
      StepKeepsInv(s, run[0]);
      SleepsUntilWoken(Next(s, run[0]), run[1..], p, id);
    } else {
      WakeupDoes(s, id, p);
    }
  }

  // ---------------------------------------------------------------------------------------
  // kill

  /** kill: the first slot with the pid is marked and not asleep any more; that is all. */
  lemma KillDoes(s: System, pid: nat, i: nat)
    requires Enabled(s, Kill(pid, i))
    ensures i < NPROC && s.tab[i].pid == pid && forall j :: 0 <= j < i ==> s.tab[j].pid != pid
    ensures var t := Next(s, Kill(pid, i));
            && t.tab[i].killed && t.tab[i].state == (if s.tab[i].state == Sleeping then Runable else s.tab[i].state)
            && t.tab[i].pid == pid && t.tab[i].parent == s.tab[i].parent && t.tab[i].chan == s.tab[i].chan
            && OnlySlot(s, t, i) && t.running == s.running
  {
  }

  /** The mark stays until wait collects the process. */
  lemma MarkStays(s: System, step: Step, i: nat)
    requires Inv(s) && Enabled(s, step) && i < NPROC && s.tab[i].killed && step != Collect(i)
    ensures Next(s, step).tab[i].killed
  {
  }

  /** A killed process that can run gets the processor within NPROC switches, still marked, and then wait does not
      let it sleep. */
  lemma {:induction false} KilledRuns(s: System, run: seq<Step>, i: nat) returns (k: nat)
    requires Inv(s) && IsRun(s, run) && i < NPROC && s.tab[i].killed && s.tab[i].state == Runable
    requires Dispatches(run) > Distance(s.next, i)
    ensures k < |run| && run[k] == Dispatch(i) && Dispatches(run[..k]) <= Distance(s.next, i)
    ensures IsRun(s, run[..k + 1])
    ensures var t := After(s, run[..k + 1]);
            t.running == i && t.tab[i].killed && !Enabled(t, WaitSleeps)
    decreases |run|
  {
    assert run != [];
    if run[0] == Dispatch(i) {
      k := 0;
      KilledTurn(s, i);
      hide Inv, Enabled, Next;
      assert run[..1] == [run[0]] && run[..1][1..] == [];
      assert After(s, run[..1]) == After(Next(s, run[0]), []) == Next(s, run[0]);
    } else {
      KilledStep(s, run[0], i);
      hide Inv, Enabled, Next;
      k := KilledRuns(Next(s, run[0]), run[1..], i);
      assert run[..k + 1][1..] == run[1..][..k];
      assert run[..k + 2][1..] == run[1..][..k + 1];
      k := k + 1;
    }
  }

  lemma KilledTurn(s: System, i: nat)
    requires Inv(s) && Enabled(s, Dispatch(i)) && s.tab[i].killed
    ensures var t := Next(s, Dispatch(i)); t.running == i && t.tab[i].killed && !Enabled(t, WaitSleeps)
  {
    DispatchDoes(s, i);
  }

  lemma KilledStep(s: System, step: Step, i: nat)
    requires Inv(s) && Enabled(s, step) && i < NPROC && s.tab[i].killed && s.tab[i].state == Runable
    requires step != Dispatch(i)
    ensures var t := Next(s, step); Inv(t) && t.tab[i].killed && t.tab[i].state == Runable
    ensures Distance(Next(s, step).next, i) + (if step.Dispatch? then 1 else 0) <= Distance(s.next, i)
  {
    NotCollected(s, i);
    MarkStays(s, step, i);
    CloserStep(s, step, i);
    StepKeepsInv(s, step);
  }

  lemma NotCollected(s: System, i: nat)
    requires i < NPROC && s.tab[i].state == Runable
    ensures !Enabled(s, Collect(i))
  {
  }

  /** kill of a sleeper, whether it waits for a child or for something else: within NPROC switches it runs, with
      the mark, and its next wait returns instead of sleeping. */
  lemma KilledSleeperReturns(s: System, pid: nat, i: nat, run: seq<Step>) returns (k: nat)
    requires Inv(s) && Enabled(s, Kill(pid, i)) && s.tab[i].state == Sleeping
    requires IsRun(Next(s, Kill(pid, i)), run) && Dispatches(run) >= NPROC
    ensures k < |run| && run[k] == Dispatch(i) && Dispatches(run[..k]) < NPROC
    ensures IsRun(Next(s, Kill(pid, i)), run[..k + 1])
    ensures var t := After(Next(s, Kill(pid, i)), run[..k + 1]);
            t.running == i && t.tab[i].killed && !Enabled(t, WaitSleeps)
  {
    KillDoes(s, pid, i);
    StepKeepsInv(s, Kill(pid, i));
    NextInRange(Next(s, Kill(pid, i)));
    hide Inv, Enabled, Next;
    k := KilledRuns(Next(s, Kill(pid, i)), run, i);
  }

  lemma NextInRange(s: System)
    requires Inv(s)
    ensures s.next < NPROC
  {
  }

  // ---------------------------------------------------------------------------------------
  // fork, exit and wait

  /** proc_alloc: the first unused slot, with the next pid in eight bits. */
  lemma AllocDoes(s: System, i: nat)
    requires Enabled(s, ForkAlloc(i))
    ensures i < NPROC && s.tab[i].state == Unused && forall j :: 0 <= j < i ==> s.tab[j].state != Unused
    ensures var t := Next(s, ForkAlloc(i));
            && t.tab[i].state == Used && t.tab[i].pid == (s.pids + 1) % 256 && t.pids == (s.pids + 1) % 0x1_0000_0000
            && t.tab[i].killed == s.tab[i].killed && t.tab[i].parent == s.tab[i].parent
            && t.tab[i].chan == s.tab[i].chan
            && OnlyInTable(s, t, i) && t.running == s.running && t.next == s.next
            && t.child == s.child[s.running := i]
  {
  }

  ghost function Allocs(run: seq<Step>): nat
    decreases |run|
  {
    if |run| == 0 then 0 else (if run[0].ForkAlloc? then 1 else 0) + Allocs(run[1..])
  }

  lemma PidStep(s: System, step: Step)
    requires Enabled(s, step)
    ensures Next(s, step).pids == if step.ForkAlloc? then (s.pids + 1) % 0x1_0000_0000 else s.pids
  {
  }

  lemma Wraps(a: nat, n: nat)
    requires a < 0x1_0000_0000
    ensures ((a + 1) % 0x1_0000_0000 + n) % 0x1_0000_0000 == (a + 1 + n) % 0x1_0000_0000
    ensures ((a + 1) % 0x1_0000_0000 + n + 1) % 256 == (a + 1 + n + 1) % 256
  {
  }

  /** The n-th child of a run gets the n-th next pid. */
  lemma {:induction false} PidsCount(s: System, run: seq<Step>)
    requires IsRun(s, run) && s.pids < 0x1_0000_0000
    ensures After(s, run).pids == (s.pids + Allocs(run)) % 0x1_0000_0000
    ensures forall i: nat :: Enabled(After(s, run), ForkAlloc(i)) ==>
              Next(After(s, run), ForkAlloc(i)).tab[i].pid == (s.pids + Allocs(run) + 1) % 256
    decreases |run|
  {
    if run == [] {
    } else {
      PidStep(s, run[0]);
      Wraps(s.pids, Allocs(run[1..]));
      hide Enabled, Next;
      PidsCount(Next(s, run[0]), run[1..]);
    }
  }

  /** The child's parent is the running process. */
  lemma AdoptDoes(s: System)
    requires Enabled(s, ForkAdopt)
    ensures var t, c := Next(s, ForkAdopt), s.child[s.running];
            && t.tab[c].parent == s.running && t.tab[c].state == s.tab[c].state && t.tab[c].pid == s.tab[c].pid
            && t.tab[c].killed == s.tab[c].killed && t.tab[c].chan == s.tab[c].chan
            && OnlySlot(s, t, c) && t.running == s.running
  {
  }

  /** And it becomes RUNABLE, while the parent goes on. */
  lemma ForkEnds(s: System)
    requires Enabled(s, ForkDone)
    ensures var t, c := Next(s, ForkDone), s.child[s.running];
            && s.tab[c].parent == t.tab[c].parent == s.running && t.tab[c].state == Runable
            && t.tab[c].pid == s.tab[c].pid && t.tab[c].killed == s.tab[c].killed && t.tab[c].chan == s.tab[c].chan
            && OnlyInTable(s, t, c) && t.running == s.running && t.next == s.next && t.pids == s.pids
            && t.child == s.child[s.running := -1]
  {
  }

  /** exit: the process becomes a zombie, its children its parent's, and a parent asleep in wait RUNABLE. */
  lemma ExitDoes(s: System, i: nat)
    requires Enabled(s, Exit) && i < NPROC && s.tab[s.running].parent != s.running
    ensures var t, me := Next(s, Exit), s.running;
            var parent := s.tab[me].parent;
            && t.running == -1 && t.next == s.next && t.pids == s.pids && t.child == s.child
            && t.tab[i].parent == (if s.tab[i].parent == me then parent else s.tab[i].parent)
            && t.tab[i].state == (if i == me then Zombie
                                  else if s.tab[i].state == Sleeping && s.tab[i].chan == Child(parent) then Runable
                                  else s.tab[i].state)
            && t.tab[i].pid == s.tab[i].pid && t.tab[i].killed == s.tab[i].killed && t.tab[i].chan == s.tab[i].chan
  {
  }

  /** wait: the first zombie among the children is collected and its slot is free. */
  lemma CollectDoes(s: System, i: nat)
    requires Enabled(s, Collect(i))
    ensures i < NPROC && s.tab[i].parent == s.running && s.tab[i].state == Zombie
    ensures forall j :: 0 <= j < i ==> s.tab[j].parent != s.running || s.tab[j].state != Zombie
    ensures var t := Next(s, Collect(i));
            && t.tab[i].state == Unused && t.tab[i].pid == 0 && t.tab[i].parent == -1 && !t.tab[i].killed
            && OnlySlot(s, t, i) && t.running == s.running
  {
  }

  /** Without a zombie it returns when there is no child at all or the process is killed, and sleeps otherwise. */
  lemma WaitDoes(s: System)
    requires OutsideFork(s) && forall j :: 0 <= j < NPROC ==> s.tab[j].parent != s.running || s.tab[j].state != Zombie
    ensures Enabled(s, WaitFails) <==> s.tab[s.running].killed || forall j :: 0 <= j < NPROC ==>
              s.tab[j].parent != s.running
    ensures Enabled(s, WaitSleeps) <==> !Enabled(s, WaitFails)
    ensures Enabled(s, WaitFails) ==> Next(s, WaitFails) == s
    ensures Enabled(s, WaitSleeps) ==>
              var t, p := Next(s, WaitSleeps), s.running;
              && t.running == -1 && OnlySlot(s, t, p) && t.tab[p].state == Sleeping && t.tab[p].chan == Child(p)
              && t.tab[p].pid == s.tab[p].pid && t.tab[p].killed == s.tab[p].killed
              && t.tab[p].parent == s.tab[p].parent
  {
  }
}
