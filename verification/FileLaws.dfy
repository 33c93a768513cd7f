/** What each step on open files does, on the descriptors and the file table themselves, and what follows for
    whole runs: a descriptor stays on the file it was opened on, and the last close hands on what open was given
    (fs/file.c, fs/sysfile.c). */
module FileLaws {
  import opened OpenFiles
  import opened FileTable

  /** All descriptors but i and j, and all files but f and g. */
  predicate OnlyThese(s: System, t: System, i: int, j: int, f: int, g: int) {
    && |t.fds| == |s.fds| && |t.ftable| == |s.ftable| && t.inside == s.inside
    && (forall k :: 0 <= k < |s.fds| && k != i && k != j ==> t.fds[k] == s.fds[k])
    && forall h :: 0 <= h < |s.ftable| && h != f && h != g ==> t.ftable[h] == s.ftable[h]
  }

  /** open: a free descriptor refers to a free file, which is on inode ip. */
  lemma OpenDoes(s: System, i: nat, f: nat, ip: nat)
    requires Enabled(s, Open(i, f, ip))
    ensures i < |s.fds| && s.fds[i] == -1 && f < |s.ftable| && s.ftable[f].ref == 0
    ensures var t := Next(s, Open(i, f, ip));
            && t.fds[i] == f && t.ftable[f].ref == 1 && t.ftable[f].kind == Inode(ip)
            && OnlyThese(s, t, i, i, f, f) && t.pipes == s.pipes
  {
  }

  /** pipe: the first descriptor is the end to read from, the second the end to write to. */
  lemma PipeDoes(s: System, i: nat, j: nat, f: nat, g: nat, q: nat)
    requires Enabled(s, MakePipe(i, j, f, g, q))
    ensures i < |s.fds| && j < |s.fds| && s.fds[i] == s.fds[j] == -1 && f < |s.ftable| && g < |s.ftable|
    ensures var t := Next(s, MakePipe(i, j, f, g, q));
            && t.fds[i] == f && t.ftable[f].ref == 1 && t.ftable[f].kind == PipeEnd(q, false)
            && t.fds[j] == g && t.ftable[g].ref == 1 && t.ftable[g].kind == PipeEnd(q, true)
            && OnlyThese(s, t, i, j, f, g) && q !in s.pipes && q in t.pipes && t.pipes[q].read && t.pipes[q].write
            && forall r :: r != q ==> (r in t.pipes <==> r in s.pipes) && (r in s.pipes ==> t.pipes[r] == s.pipes[r])
  {
  }

  /** dup, and fork's loop: one more descriptor for the same file. */
  lemma AttachDoes(s: System, i: nat, f: nat)
    requires Enabled(s, Attach(i, f))
    ensures i < |s.fds| && s.fds[i] == -1 && f < |s.ftable|
    ensures var t := Next(s, Attach(i, f));
            && t.fds[i] == f && t.ftable[f].ref == s.ftable[f].ref + 1 && t.ftable[f].kind == s.ftable[f].kind
            && OnlyThese(s, t, i, i, f, f) && t.pipes == s.pipes
  {
  }

  /** close: one descriptor fewer, and with the last one the file is free. */
  lemma CloseDoes(s: System, i: nat)
    requires Inv(s) && Enabled(s, Close(i))
    ensures i < |s.fds| && 0 <= s.fds[i] < |s.ftable|
    ensures var t, f := Next(s, Close(i)), s.fds[i];
            && t.fds[i] == -1 && t.ftable[f].ref == s.ftable[f].ref - 1 && OnlyThese(s, t, i, i, f, f)
            && (s.ftable[f].ref > 1 ==> t.ftable[f].kind == s.ftable[f].kind && t.pipes == s.pipes)
            && (s.ftable[f].ref == 1 ==> t.ftable[f].kind == Free)
            && (s.ftable[f].ref == 1 && !s.ftable[f].kind.PipeEnd? ==> t.pipes == s.pipes)
  {
  }

  /** The last close of an end of a pipe closes that end and no other; the page goes with the second. */
  lemma LastEndDoes(s: System, i: nat, q: nat, w: bool)
    requires Inv(s) && Enabled(s, Close(i)) && 0 <= s.fds[i] < |s.ftable|
    requires s.ftable[s.fds[i]] == File(1, PipeEnd(q, w))
    ensures q in s.pipes && (if w then s.pipes[q].write else s.pipes[q].read)
    ensures var t := Next(s, Close(i));
            && (q in t.pipes <==> if w then s.pipes[q].read else s.pipes[q].write)
            && (q in t.pipes ==> t.pipes[q].write == !w && t.pipes[q].read == w)
            && forall r :: r != q ==> (r in t.pipes <==> r in s.pipes) && (r in s.pipes ==> t.pipes[r] == s.pipes[r])
  {
    OpenCounted(s, i);
  }

  // ---------------------------------------------------------------------------------------
  // Runs

  /** Only close takes a descriptor away from its file. */
  lemma DescriptorStep(s: System, step: Step, i: nat)
    requires Inv(s) && Enabled(s, step) && i < SLOTS && s.fds[i] != -1 && step != Close(i)
    ensures Shape(s) && Next(s, step).fds[i] == s.fds[i]
  {
  }

  lemma InUse(s: System, i: nat)
    requires Inv(s) && i < SLOTS && s.fds[i] != -1
    ensures Shape(s) && s.ftable[s.fds[i]].ref >= 1
  {
    OpenCounted(s, i);
  }

  lemma KindStep(s: System, step: Step, f: nat)
    requires Inv(s) && Enabled(s, step) && f < NFILE && s.ftable[f].ref >= 1 && Next(s, step).ftable[f].ref >= 1
    ensures Next(s, step).ftable[f].kind == s.ftable[f].kind
  {
  }

  /** Over every run a descriptor that is not closed stays on its file, and the file on what it is on. */
  lemma {:induction false} StaysOpen(s: System, run: seq<Step>, i: nat)
    requires Inv(s) && IsRun(s, run) && i < SLOTS && s.fds[i] != -1 && Close(i) !in run
    ensures var t := After(s, run);
            && Shape(s) && Shape(t) && t.fds[i] == s.fds[i] && t.ftable[s.fds[i]].ref >= 1
            && t.ftable[s.fds[i]].kind == s.ftable[s.fds[i]].kind
    decreases |run|
  {
    InUse(s, i);
    if run != [] {
      var t := Next(s, run[0]);
      DescriptorStep(s, run[0], i);
      StepKeepsInv(s, run[0]);
      InUse(t, i);
      KindStep(s, run[0], s.fds[i]);
      hide Inv, Enabled, Next;
      StaysOpen(t, run[1..], i);
    }
  }

  /** The file is in use all the time. */
  ghost predicate AlwaysInUse(s: System, run: seq<Step>, f: nat)
    requires IsRun(s, run)
    decreases |run|
  {
    f < |s.ftable| && s.ftable[f].ref >= 1 && (run == [] || AlwaysInUse(Next(s, run[0]), run[1..], f))
  }

  lemma {:induction false} KindStays(s: System, run: seq<Step>, f: nat)
    requires Inv(s) && IsRun(s, run) && AlwaysInUse(s, run, f)
    ensures Inv(After(s, run)) && f < |s.ftable| && f < |After(s, run).ftable|
    ensures After(s, run).ftable[f].kind == s.ftable[f].kind && After(s, run).ftable[f].ref >= 1
    decreases |run|
  {
    FilesOf(s);
    if run != [] {
      StepKeepsInv(s, run[0]);
      FilesOf(Next(s, run[0]));
      assert AlwaysInUse(Next(s, run[0]), run[1..], f);
      KindStep(s, run[0], f);
      hide Inv, Enabled, Next;
      KindStays(Next(s, run[0]), run[1..], f);
    }
  }

  lemma FilesOf(s: System)
    requires Inv(s)
    ensures |s.ftable| == NFILE && |s.fds| == SLOTS
  {
  }

  /** From open to the last close, through whatever descriptors: the file is on the inode that was opened, and
      that inode is what the last close hands on to iput; closes before it hand on nothing. */
  lemma LastCloseHandsOn(s: System, i: nat, f: nat, ip: nat, run: seq<Step>, j: nat)
    requires Inv(s) && Enabled(s, Open(i, f, ip))
    requires IsRun(Next(s, Open(i, f, ip)), run) && AlwaysInUse(Next(s, Open(i, f, ip)), run, f)
    requires var t := After(Next(s, Open(i, f, ip)), run); Enabled(t, Close(j)) && t.fds[j] == f
    ensures var t := After(Next(s, Open(i, f, ip)), run);
            && f < |t.ftable| && t.ftable[f].kind == Inode(ip)
            && Closing(t, f) == if t.ftable[f].ref == 1 then LastOfInode(ip) else Nothing
  {
    StepKeepsInv(s, Open(i, f, ip));
    OpenDoes(s, i, f, ip);
    hide Inv, Enabled, Next;
    KindStays(Next(s, Open(i, f, ip)), run, f);
  }
}
