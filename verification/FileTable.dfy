/** fs/file.c, the descriptor calls of fs/sysfile.c, and the loops of fork and exit over descriptors.
    `ofile` holds the NOFILE descriptors of every process one after the other. */
module FileTable {
  import opened OpenFiles

  class Files {
    const ftable: array<File>
    const ofile: array<int>
    var inside: seq<int>
    var pipes: map<nat, Ends>

    ghost function View(): (s: System)
      reads this, ftable, ofile
    {
      System(ftable[..], ofile[..], inside, pipes)
    }

    ghost predicate Valid()
      reads this, ftable, ofile
    {
      ftable.Length == NFILE && ofile.Length == SLOTS && |inside| == NPROC && Inv(View())
    }

    twostate predicate Did(step: Step)
      reads this, ftable, ofile
    {
      old(Valid()) && Valid() && Enabled(old(View()), step) && View() == OpenFiles.Next(old(View()), step)
    }

    /** file_init, with no descriptor in use */
    constructor ()
      ensures Valid() && fresh(ftable) && fresh(ofile) && View() == Initial()
    {
      ftable := new File[NFILE](i => File(0, Free));
      ofile := new int[SLOTS](i => -1);
      inside, pipes := seq(NPROC, p => -1), map[];
      new;
      assert View() == Initial();
      InitialInv();
    }

    /** The scan of falloc. */
    method FindFile() returns (f: int)
      requires ftable.Length == NFILE
      ensures -1 <= f < NFILE
      ensures f == -1 ==> forall g :: 0 <= g < NFILE ==> ftable[g].ref != 0
      ensures f != -1 ==> ftable[f].ref == 0 && forall g :: 0 <= g < f ==> ftable[g].ref != 0
    {
      f := 0;
      while f < NFILE
        invariant 0 <= f <= NFILE && forall g :: 0 <= g < f ==> ftable[g].ref != 0
      {
        if ftable[f].ref == 0 {
          return;
        }
        f := f + 1;
      }
      f := -1;
    }

    /** Descriptor fd of process p. */
    function Fd(p: nat, fd: nat): int
      requires ofile.Length == SLOTS && p < NPROC && fd < NOFILE
      reads ofile
    {
      ofile[NOFILE * p + fd]
    }

    /** The scan of fdalloc: the lowest free descriptor of process p. */
    method FindFd(p: nat) returns (fd: int)
      requires ofile.Length == SLOTS && p < NPROC
      ensures -1 <= fd < NOFILE
      ensures fd == -1 ==> forall g :: 0 <= g < NOFILE ==> Fd(p, g) != -1
      ensures fd != -1 ==> Fd(p, fd) == -1 && forall g :: 0 <= g < fd ==> Fd(p, g) != -1
    {
      fd := 0;
      while fd < NOFILE
        invariant 0 <= fd <= NOFILE && forall g :: 0 <= g < fd ==> Fd(p, g) != -1
      {
        if Fd(p, fd) == -1 {
          return;
        }
        fd := fd + 1;
      }
      fd := -1;
    }

    /** argfd */
    function ArgFd(p: nat, fd: int): (f: int)
      requires ofile.Length == SLOTS && p < NPROC
      reads ofile
    {
      if fd < 0 || fd >= NOFILE then -1 else ofile[NOFILE * p + fd]
    }

    /** The last step of sys_open on a locked inode: -1 when there is no file or no descriptor left. */
    method OpenInode(p: nat, ip: nat) returns (fd: int)
      requires Valid() && p < NPROC
      modifies ftable, ofile
      ensures fd == -1 ==> Valid() && View() == old(View())
      ensures fd == -1 ==> (forall f :: 0 <= f < NFILE ==> ftable[f].ref != 0) || forall g :: 0 <= g < NOFILE ==>
                Fd(p, g) != -1
      ensures fd != -1 ==>
                && 0 <= fd < NOFILE && 0 <= ofile[NOFILE * p + fd] < NFILE
                && Did(Open(NOFILE * p + fd, ofile[NOFILE * p + fd], ip))
                && ftable[ofile[NOFILE * p + fd]] == File(1, Inode(ip))
      ensures fd != -1 ==> forall g :: 0 <= g < fd ==> old(Fd(p, g)) != -1
    {
      hide Inv;
      var f := FindFile();
      if f == -1 {
        return -1;
      }
      fd := FindFd(p);
      if fd == -1 {
        return;
      }
      forall g | 0 <= g < fd ensures old(Fd(p, g)) != -1 {
        assert Fd(p, g) != -1;
      }
      ghost var i := NOFILE * p + fd;
      StepKeepsInv(View(), Open(i, f, ip));
      ftable[f] := File(1, Inode(ip));
      ofile[NOFILE * p + fd] := f;
      assert View() == OpenFiles.Next(old(View()), Open(i, f, ip));
    }

    /** pipe_alloc's two files, with two left */
    method PipeFiles(page: nat) returns (f: nat, g: nat)
      requires ftable.Length == NFILE && exists a, b :: 0 <= a < b < NFILE && ftable[a].ref == 0 && ftable[b].ref == 0
      modifies ftable
      ensures f < NFILE && g < NFILE && f != g && old(ftable[f].ref) == 0 && old(ftable[g].ref) == 0
      ensures ftable[..] == old(ftable[..])[f := File(1, PipeEnd(page, false))][g := File(1, PipeEnd(page, true))]
    {
      ghost var a, b :| 0 <= a < b < NFILE && ftable[a].ref == 0 && ftable[b].ref == 0;
      var f' := FindFile();
      assert 0 <= f' <= a < b && ftable[b].ref == 0;
      f := f';
      ftable[f] := ftable[f].(ref := 1);
      assert ftable[b].ref == 0;
      var g' := FindFile();
      g := g';
      ftable[g] := File(1, PipeEnd(page, true));
      ftable[f] := File(1, PipeEnd(page, false));
    }

    /** The first descriptor is taken; with a second one that is taken too, and otherwise the first one
        is given up. */
    method SecondFd(p: nat, fd0: nat, f: nat, g: nat) returns (fd1: int)
      requires ofile.Length == SLOTS && p < NPROC && fd0 < NOFILE && Fd(p, fd0) == -1
      requires forall i :: 0 <= i < fd0 ==> Fd(p, i) != -1
      modifies ofile
      ensures fd1 == -1 ==> ofile[..] == old(ofile[..]) && forall i :: fd0 < i < NOFILE ==> old(Fd(p, i)) != -1
      ensures fd1 != -1 ==> fd0 < fd1 < NOFILE && old(Fd(p, fd1)) == -1 && forall i :: 0 <= i < fd1 && i != fd0 ==>
                old(Fd(p, i)) != -1
      ensures fd1 != -1 ==> ofile[..] == old(ofile[..])[NOFILE * p + fd0 := f][NOFILE * p + fd1 := g]
    {
      ofile[NOFILE * p + fd0] := f;
      forall i | 0 <= i < NOFILE ensures Fd(p, i) == if i == fd0 then f else old(Fd(p, i)) {
      }
      label Taken:
      fd1 := FindFd(p);
      forall i | 0 <= i < NOFILE && i != fd0 && (fd1 == -1 || i < fd1) ensures old(Fd(p, i)) != -1 {
        assert Fd(p, i) != -1;
        assert old@Taken(Fd(p, i)) != -1;
      }
      if fd1 == -1 {
        ofile[NOFILE * p + fd0] := -1;
        assert ofile[..] == old(ofile[..]);
        return;
      }
      assert 0 <= fd1 <= fd0 ==> old@Taken(Fd(p, fd1)) != -1;
      ofile[NOFILE * p + fd1] := g;
    }

    /** The two files of a pipe nobody has got a descriptor for are closed: its page is freed. */
    method Unmake(f: nat, g: nat, page: nat, ghost pipes0: map<nat, Ends>)
      requires f < ftable.Length && g < ftable.Length && f != g
      requires ftable[f] == File(1, PipeEnd(page, false)) && ftable[g] == File(1, PipeEnd(page, true))
      requires page !in pipes0 && pipes == pipes0[page := Ends(true, true)]
      modifies this`pipes, ftable
      ensures ftable[..] == old(ftable[..])[f := File(0, Free)][g := File(0, Free)] && pipes == pipes0
    {
      ghost var s := View();
      var c := Fclose(f);
      assert ftable[..] == s.ftable[f := File(0, Free)];
      assert ftable[g] == File(1, PipeEnd(page, true));
      c := Fclose(g);
      assert c == LastOfEnd(page, true, true);
      assert pipes == pipes0;
    }

    /** sys_pipe on a new page, with two files left: two descriptors, or -1 with everything as before and
        the page returned when there are not two. */
    method SysPipe(p: nat, page: nat) returns (fd0: int, fd1: int)
      requires Valid() && p < NPROC && page !in pipes
      requires exists f, g :: 0 <= f < g < NFILE && ftable[f].ref == 0 && ftable[g].ref == 0
      modifies this`pipes, ftable, ofile
      ensures fd1 == -1 ==> Valid() && View() == old(View())
      ensures fd1 == -1 ==> forall a, b :: 0 <= a < b < NOFILE ==> old(Fd(p, a)) != -1 || old(Fd(p, b)) != -1
      ensures fd1 != -1 ==> 0 <= fd0 < fd1 < NOFILE && 0 <= Fd(p, fd0) < NFILE && 0 <= Fd(p, fd1) < NFILE
      ensures fd1 != -1 ==>
                && Did(MakePipe(NOFILE * p + fd0, NOFILE * p + fd1, Fd(p, fd0), Fd(p, fd1), page))
                && ftable[Fd(p, fd0)] == File(1, PipeEnd(page, false))
                && ftable[Fd(p, fd1)] == File(1, PipeEnd(page, true))
      ensures fd1 != -1 ==> forall g :: 0 <= g < fd1 && g != fd0 ==> old(Fd(p, g)) != -1
      ensures fd1 != -1 ==>
                && pipes == old(pipes)[page := Ends(true, true)]
                && ofile[..] == old(ofile[..])[NOFILE * p + fd0 := Fd(p, fd0)][NOFILE * p + fd1 := Fd(p, fd1)]
    {
      hide Inv;
      FreeFiles(View());
      var f, g := PipeFiles(page);
      pipes := pipes[page := Ends(true, true)];
      fd0 := FindFd(p);
      fd1 := -1;
      if fd0 == -1 {
        forall a | 0 <= a < NOFILE ensures old(Fd(p, a)) != -1 {
          assert Fd(p, a) != -1;
        }
        Unmake(f, g, page, old(pipes));
        assert View() == old(View());
        return;
      }
      forall i | 0 <= i < fd0 ensures old(Fd(p, i)) != -1 {
        assert Fd(p, i) != -1;
      }
      label Found:
      fd1 := SecondFd(p, fd0, f, g);
      forall i | fd0 < i < NOFILE && (fd1 == -1 || i < fd1) ensures old(Fd(p, i)) != -1 {
        assert old@Found(Fd(p, i)) != -1;
      }
      if fd1 == -1 {
        Unmake(f, g, page, old(pipes));
        assert ofile[..] == old(ofile[..]);
        assert View() == old(View());
        return;
      }
      ghost var step := MakePipe(NOFILE * p + fd0, NOFILE * p + fd1, f, g, page);
      StepKeepsInv(old(View()), step);
      assert View() == OpenFiles.Next(old(View()), step);
    }

    /** sys_dup */
    method SysDup(p: nat, fd: int) returns (r: int)
      requires Valid() && p < NPROC
      modifies ftable, ofile
      ensures r == -1 ==> Valid() && View() == old(View())
      ensures r == -1 ==> ArgFd(p, fd) == -1 || forall g :: 0 <= g < NOFILE ==> Fd(p, g) != -1
      ensures r != -1 ==> 0 <= r < NOFILE && old(ArgFd(p, fd)) >= 0 && Did(Attach(NOFILE * p + r, old(ArgFd(p, fd))))
      ensures r != -1 ==> forall g :: 0 <= g < r ==> old(Fd(p, g)) != -1
    {
      hide Inv;
      var f := ArgFd(p, fd);
      if f == -1 {
        return -1;
      }
      r := FindFd(p);
      forall g | 0 <= g < r ensures old(Fd(p, g)) != -1 {
        assert Fd(p, g) != -1;
      }
      if r == -1 {
        return;
      }
      OpenCounted(View(), NOFILE * p + fd);
      StepKeepsInv(View(), Attach(NOFILE * p + r, f));
      ofile[NOFILE * p + r] := f;
      ftable[f] := ftable[f].(ref := ftable[f].ref + 1);
      assert View() == OpenFiles.Next(old(View()), Attach(NOFILE * p + r, f));
    }

    /** fclose of a file whose descriptor is gone already, and what it hands on: with the last
        reference an inode to iput, or an end of a pipe whose other side is woken and whose page goes
        back with the second end. */
    method Fclose(f: nat) returns (c: Closed)
      requires f < ftable.Length && ftable[f].ref >= 1
      requires ftable[f].kind.PipeEnd? ==> ftable[f].kind.page in pipes
      modifies ftable, this`pipes
      ensures View() == FileClose(old(View()), f) && c == Closing(old(View()), f)
    {
      var file := ftable[f];
      ftable[f] := file.(ref := file.ref - 1);
      c := Nothing;
      if file.ref - 1 > 0 {
        return;
      }
      if file.kind.PipeEnd? {
        var freed := ClosePipe(file.kind.page, file.kind.writeable);
        c := LastOfEnd(file.kind.page, file.kind.writeable, freed);
      }
      if file.kind.Inode? {
        c := LastOfInode(file.kind.ip);
      }
      ftable[f] := File(0, Free);
    }

    /** pipe_close, and whether it frees the page */
    method ClosePipe(page: nat, writeable: bool) returns (freed: bool)
      requires page in pipes
      modifies this`pipes
      ensures pipes == PipeClose(old(pipes), page, writeable) && (freed <==> page !in pipes)
    {
      var e := pipes[page];
      if writeable {
        e := e.(write := false);
      } else {
        e := e.(read := false);
      }
      pipes := pipes[page := e];
      freed := !e.read && !e.write;
      if freed {
        pipes := pipes - {page};
        assert pipes == old(pipes) - {page};
      }
    }

    /** sys_close, and what exit does with each descriptor: nothing when the descriptor is not open */
    method SysClose(p: nat, fd: int) returns (r: int, c: Closed)
      requires Valid() && p < NPROC && inside[p] == -1
      modifies ftable, ofile, this`pipes
      ensures r == -1 <==> old(ArgFd(p, fd)) == -1
      ensures r == -1 ==> Valid() && View() == old(View())
      ensures r == -1 ==> c == Nothing
      ensures r != -1 ==>
                && r == 0 && 0 <= fd < NOFILE && Did(Close(NOFILE * p + fd))
                && c == Closing(old(View()), old(ArgFd(p, fd)))
      ensures c.LastOfEnd? ==> c.page in old(pipes) && pipes.Keys == if c.freed then old(pipes).Keys - {c.page}
                else old(pipes).Keys
      ensures !c.LastOfEnd? ==> pipes == old(pipes)
      ensures forall i :: 0 <= i < SLOTS && i != NOFILE * p + fd ==> ofile[i] == old(ofile[i])
      ensures 0 <= fd < NOFILE ==> Fd(p, fd) == -1
    {
      hide Inv;
      var f := ArgFd(p, fd);
      if f == -1 {
        return -1, Nothing;
      }
      ghost var i := NOFILE * p + fd;
      OpenCounted(View(), i);
      StepKeepsInv(View(), Close(i));
      ofile[NOFILE * p + fd] := -1;
      ghost var s := View();
      assert s == old(View()).(fds := old(View()).fds[i := -1]);
      c := Fclose(f);
      r := 0;
    }

    /** A process goes into the read or write of a file and comes back. */
    method Enter(p: nat, fd: nat)
      requires Valid() && p < NPROC && inside[p] == -1 && fd < NOFILE && Fd(p, fd) != -1
      modifies this`inside
      ensures Did(OpenFiles.Enter(p, NOFILE * p + fd))
    {
      hide Counted, Kinds, Piped, Held;
      assert (NOFILE * p + fd) / NOFILE == p;
      StepKeepsInv(View(), OpenFiles.Enter(p, NOFILE * p + fd));
      inside := inside[p := Fd(p, fd)];
    }

    method Leave(p: nat)
      requires Valid() && p < NPROC
      modifies this`inside
      ensures Did(OpenFiles.Leave(p))
    {
      hide Inv;
      StepKeepsInv(View(), OpenFiles.Leave(p));
      inside := inside[p := -1];
    }

    /** fork's loop: the child, who has no descriptors, shares all the parent's files. */
    method ForkFiles(p: nat, child: nat) returns (ghost run: seq<Step>)
      requires Valid() && p < NPROC && child < NPROC && child != p
      requires forall g :: 0 <= g < NOFILE ==> Fd(child, g) == -1
      modifies ftable, ofile
      ensures Valid() && inside == old(inside) && pipes == old(pipes) && Leads(old(View()), run, View())
      ensures forall i :: 0 <= i < |run| ==> run[i].Attach?
      ensures forall g :: 0 <= g < NOFILE ==> Fd(child, g) == old(Fd(p, g))
      ensures forall j :: 0 <= j < SLOTS && j / NOFILE != child ==> ofile[j] == old(ofile[j])
      ensures forall f :: 0 <= f < NFILE ==> ftable[f].kind == old(ftable[f].kind)
    {
      hide Inv, Leads, Enabled, OpenFiles.Next;
      var i := 0;
      run := [];
      LeadsNowhere(View());
      while i < NOFILE
        invariant i <= NOFILE && Valid() && inside == old(inside) && pipes == old(pipes)
        invariant Leads(old(View()), run, View())
        invariant forall i :: 0 <= i < |run| ==> run[i].Attach?
        invariant forall g :: 0 <= g < NOFILE ==> Fd(child, g) == if g < i then old(Fd(p, g)) else -1
        invariant forall j :: 0 <= j < SLOTS && j / NOFILE != child ==> ofile[j] == old(ofile[j])
        invariant forall f :: 0 <= f < NFILE ==> ftable[f].kind == old(ftable[f].kind)
      {
        var f := Fd(p, i);
        assert (NOFILE * p + i) / NOFILE == p && Fd(child, i) == -1;
        label Turn:
        if f != -1 {
          AttachOne(NOFILE * p + i, NOFILE * child + i, f);
          run := Continued(old(View()), run, old@Turn(View()), Attach(NOFILE * child + i, f), View());
        }
        forall g | 0 <= g < NOFILE && g != i ensures Fd(child, g) == old@Turn(Fd(child, g)) {
          assert NOFILE * child + g != NOFILE * child + i;
        }
        assert Fd(child, i) == f == old(Fd(p, i));
        i := i + 1;
      }
    }

    /** `child->ofile[i] = fdup(proc->ofile[i])` */
    method AttachOne(i: nat, j: nat, f: int)
      requires Valid() && i < SLOTS && j < SLOTS && ofile[i] == f != -1 && ofile[j] == -1
      modifies ftable, ofile
      ensures 0 <= f < NFILE && Did(Attach(j, f))
      ensures forall k :: 0 <= k < SLOTS ==> ofile[k] == if k == j then f else old(ofile[k])
      ensures inside == old(inside) && pipes == old(pipes)
      ensures forall g :: 0 <= g < NFILE ==> ftable[g].kind == old(ftable[g].kind)
    {
      hide Inv;
      OpenCounted(View(), i);
      StepKeepsInv(View(), Attach(j, f));
      ftable[f] := ftable[f].(ref := ftable[f].ref + 1);
      ofile[j] := f;
      assert View() == OpenFiles.Next(old(View()), Attach(j, f));
    }
  }

  lemma Continued(s: System, run: seq<Step>, t: System, step: Step, u: System) returns (run': seq<Step>)
    requires Leads(s, run, t) && Enabled(t, step) && u == OpenFiles.Next(t, step)
    ensures Leads(s, run', u) && run' == run + [step]
  {
    hide Leads;
    LeadsOne(t, step);
    run' := run + [step];
    LeadsOn(s, run, t, [step], u);
  }

  /** What is left to do when a file has lost its last reference. */
  datatype Closed = Nothing | LastOfInode(ip: nat) | LastOfEnd(page: nat, writeable: bool, freed: bool)

  function Closing(s: System, f: int): Closed {
    if !(0 <= f < |s.ftable|) || s.ftable[f].ref != 1 then Nothing
    else match s.ftable[f].kind
      case Free => Nothing
      case Inode(ip) => LastOfInode(ip)
      case PipeEnd(q, w) => LastOfEnd(q, w, q in s.pipes && q !in PipeClose(s.pipes, q, w))
  }

  lemma FreeFiles(s: System)
    requires Inv(s)
    ensures forall f :: 0 <= f < |s.ftable| && s.ftable[f].ref == 0 ==> s.ftable[f] == File(0, Free)
  {
  }

  /** The file behind a descriptor is open, so the assertions of fdup and fclose hold. */
  lemma OpenCounted(s: System, i: nat)
    requires Inv(s) && i < SLOTS && s.fds[i] != -1
    ensures Shape(s) && s.ftable[s.fds[i]].ref >= 1
    ensures s.ftable[s.fds[i]].kind.PipeEnd? ==> s.ftable[s.fds[i]].kind.page in s.pipes
  {
    assert s.fds[i] in s.fds;
    assert multiset(s.fds)[s.fds[i]] > 0;
    var kind := s.ftable[s.fds[i]].kind;
    assert kind.PipeEnd? ==> EndOpen(s.pipes, kind.page, kind.writeable);
  }
}
