/** proc/proc.c over the process table itself: every function does its step of Processes. */
module ProcTable {
  import opened Processes

  class Kernel {
    const ptable: array<Proc>
    var proc: int           // the running process, -1 in the scheduler
    var scan: nat           // the scheduler's pp
    var curPid: nat
    var child: seq<int>     // the local `child` of each process in fork, or -1

    ghost function View(): (s: System)
      requires ptable.Length == NPROC
      reads this, ptable
    {
      System(ptable[..], proc, scan, curPid, child)
    }

    ghost predicate Valid()
      reads this, ptable
    {
      ptable.Length == NPROC && Inv(View())
    }

    /** The state after a step of the transition system. */
    twostate predicate Did(step: Step)
      reads this, ptable
    {
      && old(Valid()) && Valid() && Enabled(old(View()), step) && View() == Processes.Next(old(View()), step)
    }

    /** proc_init: the table is cleared and the first process made. */
    constructor ()
      ensures Valid() && fresh(ptable) && View() == Initial()
    {
      var none := Proc(0, Unused, false, Nowhere, -1);
      var t := new Proc[NPROC](i => none);
      t[0] := none.(pid := 1, state := Runable);
      ptable, proc, scan, curPid, child := t, -1, 0, 1, seq(NPROC, i => -1);
      new;
      assert ptable[..] == Initial().tab;
      InitialInv();
    }

    /** wakeup */
    method WakeupAll(chan: Chan)
      requires ptable.Length == NPROC
      modifies ptable
      ensures ptable[..] == Wakeup(old(ptable[..]), chan)
    {
      var pp := 0;
      while pp < NPROC
        invariant pp <= NPROC
        invariant forall i :: 0 <= i < NPROC ==>
                    ptable[i] == if i < pp then Woken(old(ptable[i]), chan) else old(ptable[i])
      {
        if ptable[pp].state == Sleeping && ptable[pp].chan == chan {
          ptable[pp] := ptable[pp].(state := Runable);
        }
        pp := pp + 1;
      }
      assert ptable[..] == Wakeup(old(ptable[..]), chan);
    }

    /** A wakeup by an interrupt handler or by a system call. */
    method WakeupOther(id: nat)
      requires Valid()
      modifies ptable
      ensures Did(WakeupOn(id))
    {
      hide Inv;
      StepKeepsInv(View(), WakeupOn(id));
      WakeupAll(Other(id));
    }

    /** proc_alloc on behalf of fork: the first unused slot, or -1. */
    method ProcAlloc() returns (pp: int)
      requires Valid() && OutsideFork(View())
      modifies ptable, this`curPid, this`child
      ensures pp == -1 ==> Valid() && View() == old(View()) && forall i :: 0 <= i < NPROC ==> ptable[i].state != Unused
      ensures pp != -1 ==> pp >= 0 && Did(ForkAlloc(pp))
    {
      hide Inv;
      pp := 0;
      while pp < NPROC
        invariant 0 <= pp <= NPROC && forall j :: 0 <= j < pp ==> ptable[j].state != Unused
      {
        if ptable[pp].state == Unused {
          StepKeepsInv(View(), ForkAlloc(pp));
          curPid := (curPid + 1) % 0x1_0000_0000;
          ghost var s := View();
          ptable[pp] := ptable[pp].(state := Used, pid := curPid % 256);
          child := child[proc := pp];
          assert ptable[..] == s.tab[pp := ptable[pp]];
          PidWraps(s.pids, old(curPid));
          return;
        }
        pp := pp + 1;
      }
      pp := -1;
    }

    /** fork: child->parent = proc */
    method ForkParent()
      requires Valid() && InFork(View())
      modifies ptable
      ensures Did(ForkAdopt)
    {
      hide Inv;
      StepKeepsInv(View(), ForkAdopt);
      var c := child[proc];
      ptable[c] := ptable[c].(parent := proc);
      assert View() == Processes.Next(old(View()), ForkAdopt);
    }

    /** fork: child->state = P_RUNABLE; its pid is the result */
    method ForkReady() returns (pid: nat)
      requires Valid() && InFork(View()) && ptable[child[proc]].parent == proc
      modifies ptable, this`child
      ensures Did(ForkDone) && pid == old(ptable[child[proc]].pid)
    {
      hide Inv;
      StepKeepsInv(View(), ForkDone);
      var c := child[proc];
      ptable[c] := ptable[c].(state := Runable);
      child := child[proc := -1];
      pid := ptable[c].pid;
      assert View() == Processes.Next(old(View()), ForkDone);
    }

    /** sched, called by the timer */
    method Sched()
      requires Valid() && HasProcessor(View())
      modifies ptable, this`proc
      ensures Did(Yield)
    {
      hide Inv;
      StepKeepsInv(View(), Yield);
      ptable[proc] := ptable[proc].(state := Runable);
      proc := -1;
      assert View() == Processes.Next(old(View()), Yield);
    }

    /** sleep on anything but the process itself */
    method Sleep(id: nat)
      requires Valid() && OutsideFork(View())
      modifies ptable, this`proc
      ensures Did(SleepOn(id))
    {
      hide Inv;
      StepKeepsInv(View(), SleepOn(id));
      ptable[proc] := ptable[proc].(state := Sleeping, chan := Other(id));
      proc := -1;
      assert View() == Processes.Next(old(View()), SleepOn(id));
    }

    /** exit from cli to the switch: its loop wakes the parent once for every zombie it hands over,
        which comes to the same as waking it at the end. */
    method DoExit()
      requires Valid() && OutsideFork(View()) && proc != INIT
      modifies ptable, this`proc
      ensures Did(Exit)
    {
      hide Inv;
      StepKeepsInv(View(), Exit);
      ghost var tab: Table := ptable[..];
      var parent := ptable[proc].parent;
      HasGrandparent(View());
      var pp := 0;
      while pp < NPROC
        invariant pp <= NPROC && 0 <= proc < NPROC && proc == old(proc) && ptable[proc].parent == parent
        invariant forall i :: 0 <= i < NPROC ==> HandedOver(tab[i], ptable[i], proc, parent, i < pp)
      {
        if ptable[pp].parent == proc {
          ptable[pp] := ptable[pp].(parent := parent);
          if ptable[pp].state == Zombie {
            WakeupAll(Child(parent));
          }
        }
        pp := pp + 1;
      }
      WakeupAll(Child(parent));
      ptable[proc] := ptable[proc].(state := Zombie);
      proc := -1;
      assert ptable[..] == Exited(tab, old(proc));
    }

    /** One pass of wait's loop. */
    method Wait() returns (r: WaitResult)
      requires Valid() && OutsideFork(View())
      modifies ptable, this`proc
      ensures match r
              case Collected(i, pid) => Did(Collect(i)) && pid == old(View()).tab[i].pid
              case Nobody => Did(WaitFails)
              case Asleep => Did(WaitSleeps)
    {
      hide Inv;
      var havekids, pp := false, 0;
      while pp < NPROC
        invariant pp <= NPROC
        invariant havekids <==> exists i :: 0 <= i < pp && ptable[i].parent == proc
        invariant forall i :: 0 <= i < pp ==> !(ptable[i].parent == proc && ptable[i].state == Zombie)
      {
        if ptable[pp].parent == proc {
          havekids := true;
          if ptable[pp].state == Zombie {
            StepKeepsInv(View(), Collect(pp));
            var pid := ptable[pp].pid;
            ptable[pp] := ptable[pp].(state := Unused, pid := 0, parent := -1, killed := false);
            assert View() == Processes.Next(old(View()), Collect(pp));
            return Collected(pp, pid);
          }
        }
        pp := pp + 1;
      }
      if !havekids || ptable[proc].killed {
        StepKeepsInv(View(), WaitFails);
        return Nobody;
      }
      StepKeepsInv(View(), WaitSleeps);
      ptable[proc] := ptable[proc].(state := Sleeping, chan := Child(proc));
      proc := -1;
      assert View() == Processes.Next(old(View()), WaitSleeps);
      r := Asleep;
    }

    /** kill: the first slot with this pid, in use or not. */
    method DoKill(pid: nat) returns (i: int)
      requires Valid()
      modifies ptable
      ensures i == -1 ==> View() == old(View()) && Valid() && forall j :: 0 <= j < NPROC ==> ptable[j].pid != pid
      ensures i != -1 ==> i >= 0 && Did(Kill(pid, i))
    {
      hide Inv;
      i := 0;
      while i < NPROC
        invariant 0 <= i <= NPROC && forall j :: 0 <= j < i ==> ptable[j].pid != pid
      {
        if ptable[i].pid == pid {
          StepKeepsInv(View(), Kill(pid, i));
          ptable[i] := ptable[i].(killed := true);
          if ptable[i].state == Sleeping {
            ptable[i] := ptable[i].(state := Runable);
          }
          assert View() == Processes.Next(old(View()), Kill(pid, i));
          return;
        }
        i := i + 1;
      }
      i := -1;
    }

    /** The scheduler's scan up to the next switch; it ends because some process is RUNABLE. */
    method Scheduler()
      requires Valid() && proc == -1 && exists i :: 0 <= i < NPROC && ptable[i].state == Runable
      modifies ptable, this`proc, this`scan
      ensures exists i: nat :: Did(Dispatch(i)) && proc == i
    {
      hide Inv;
      InRange(View());
      ghost var target :| 0 <= target < NPROC && ptable[target].state == Runable;
      ghost var steps := 0;
      var pp := scan;
      while ptable[pp].state != Runable
        invariant 0 <= pp < NPROC && steps == Distance(scan, pp)
        invariant forall j :: 0 <= j < NPROC && Distance(scan, j) < steps ==> ptable[j].state != Runable
        decreases NPROC - steps
      {
        assert Distance(scan, target) > steps;
        pp := if pp + 1 < NPROC then pp + 1 else 0;
        steps := steps + 1;
      }
      assert IsNext(View().tab, scan, pp);
      StepKeepsInv(View(), Dispatch(pp));
      ptable[pp] := ptable[pp].(state := Running, chan := Nowhere);
      proc := pp;
      scan := if pp + 1 < NPROC then pp + 1 else 0;
      assert View() == Processes.Next(old(View()), Dispatch(pp));
      assert Did(Dispatch(pp));
    }
  }

  datatype WaitResult = Collected(slot: nat, pid: nat) | Nobody | Asleep

  /** Slot i during exit's loop: `seen` once the loop has passed it. */
  predicate HandedOver(p0: Proc, p: Proc, me: int, parent: int, seen: bool) {
    && p.parent == (if seen && p0.parent == me then parent else p0.parent)
    && p.pid == p0.pid && p.killed == p0.killed && p.chan == p0.chan
    && (p.state == p0.state || p.state == Woken(p0, Child(parent)).state)
  }

  lemma HasGrandparent(s: System)
    requires Inv(s) && OutsideFork(s) && s.running != INIT
    ensures s.tab[s.running].parent != s.running && s.tab[s.running].state == Running
  {
    Grandparent(s.tab, s.running);
  }

  lemma InRange(s: System)
    requires Inv(s)
    ensures s.next < NPROC && |s.child| == NPROC && -1 <= s.running < NPROC
  {
  }

  lemma PidWraps(a: nat, b: nat)
    requires a == (b + 1) % 0x1_0000_0000
    ensures a % 256 == (b + 1) % 256
  {
  }
}
