/** The system's open files and every process's descriptors (fs/file.c, fs/sysfile.c, and the loops in
    fork and exit), as a transition system over single descriptors.  Descriptor fd of process p is
    number NOFILE * p + fd; a file is its index in ftable, NULL is -1; a pipe is its page. */
module OpenFiles {
  const NPROC: nat := 128
  const NOFILE: nat := 128
  const NFILE: nat := 128
  const SLOTS: nat := 16384 // NPROC * NOFILE

  datatype Kind = Free | PipeEnd(page: nat, writeable: bool) | Inode(ip: nat)

  datatype File = File(ref: nat, kind: Kind)

  /** Which ends of a pipe are open. */
  datatype Ends = Ends(read: bool, write: bool)

  /** `inside[p]` is the file process p is reading or writing, or -1; `pipes` are the pages in use. */
  datatype System = System(ftable: seq<File>, fds: seq<int>, inside: seq<int>, pipes: map<nat, Ends>)

  predicate Shape(s: System) {
    && |s.ftable| == NFILE && |s.fds| == SLOTS && |s.inside| == NPROC
    && forall i :: 0 <= i < SLOTS ==> -1 <= s.fds[i] < NFILE
  }

  predicate EndOpen(pipes: map<nat, Ends>, q: nat, writeable: bool) {
    q in pipes && if writeable then pipes[q].write else pipes[q].read
  }

  // ---------------------------------------------------------------------------------------
  // The functions of file.c and pipe_close

  /** fdup */
  function Dup(ftable: seq<File>, f: nat): seq<File>
    requires f < |ftable|
  {
    ftable[f := ftable[f].(ref := ftable[f].ref + 1)]
  }

  /** pipe_close: the page goes with the second end. */
  function PipeClose(pipes: map<nat, Ends>, q: nat, writeable: bool): map<nat, Ends>
    requires q in pipes
  {
    var e := if writeable then pipes[q].(write := false) else pipes[q].(read := false);
    if !e.read && !e.write then pipes - {q} else pipes[q := e]
  }

  /** fclose of file f, which is open */
  function FileClose(s: System, f: nat): System
    requires f < |s.ftable| && s.ftable[f].ref >= 1
  {
    var file := s.ftable[f];
    if file.ref > 1 then s.(ftable := s.ftable[f := file.(ref := file.ref - 1)])
    else s.(ftable := s.ftable[f := File(0, Free)],
            pipes := if file.kind.PipeEnd? && file.kind.page in s.pipes then
                PipeClose(s.pipes, file.kind.page, file.kind.writeable) else s.pipes)
  }

  // ---------------------------------------------------------------------------------------
  // Steps

  datatype Step =
    | Open(i: nat, f: nat, ip: nat)                       // sys_open: falloc, fdalloc
    | MakePipe(i: nat, j: nat, f: nat, g: nat, q: nat)    // sys_pipe
    | Attach(i: nat, f: nat)                              // sys_dup, and one turn of fork's loop
    | Close(i: nat)                                       // sys_close, and one turn of exit's loop
    | Enter(p: nat, i: nat)                               // sys_read or sys_write on descriptor i
    | Leave(p: nat)

  predicate Vacant(s: System, i: nat) { i < |s.fds| && s.fds[i] == -1 }

  predicate Unused(s: System, f: nat) { f < |s.ftable| && s.ftable[f].ref == 0 }

  predicate Enabled(s: System, step: Step) {
    match step
    case Open(i, f, _) => Vacant(s, i) && Unused(s, f)
    case MakePipe(i, j, f, g, q) =>
        Vacant(s, i) && Vacant(s, j) && i != j && Unused(s, f) && Unused(s, g) && f != g && q !in s.pipes
    case Attach(i, f) => Vacant(s, i) && f < |s.ftable| && s.ftable[f].ref >= 1
    case Close(i) => i < SLOTS && Shape(s) && s.fds[i] != -1 && s.inside[i / NOFILE] == -1
        && s.ftable[s.fds[i]].ref >= 1
    case Enter(p, i) => p < NPROC && Shape(s) && s.inside[p] == -1 && i < SLOTS && i / NOFILE == p && s.fds[i] != -1
    case Leave(p) => p < |s.inside|
  }

  function Next(s: System, step: Step): System
    requires Enabled(s, step)
  {
    match step
    case Open(i, f, ip) => s.(fds := s.fds[i := f], ftable := s.ftable[f := File(1, Inode(ip))])
    case MakePipe(i, j, f, g, q) =>
      s.(fds := s.fds[i := f][j := g],
         ftable := s.ftable[f := File(1, PipeEnd(q, false))][g := File(1, PipeEnd(q, true))],
         pipes := s.pipes[q := Ends(true, true)])
    case Attach(i, f) => s.(fds := s.fds[i := f], ftable := Dup(s.ftable, f))
    case Close(i) => FileClose(s.(fds := s.fds[i := -1]), s.fds[i])
    case Enter(p, i) => s.(inside := s.inside[p := s.fds[i]])
    case Leave(p) => s.(inside := s.inside[p := -1])
  }

  function Initial(): System {
    System(seq(NFILE, f => File(0, Free)), seq(SLOTS, i => -1), seq(NPROC, p => -1), map[])
  }

  // ---------------------------------------------------------------------------------------
  // Invariants

  /** A file's count is the number of descriptors that point at it. */
  predicate Counted(ftable: seq<File>, fds: seq<int>) {
    forall f :: 0 <= f < |ftable| ==> ftable[f].ref == multiset(fds)[f]
  }

  predicate Kinds(ftable: seq<File>) {
    forall f :: 0 <= f < |ftable| ==> (ftable[f].ref == 0 <==> ftable[f].kind == Free)
  }

  /** Every open end of a pipe has one file, every file on a pipe an open end. */
  ghost predicate Piped(ftable: seq<File>, pipes: map<nat, Ends>) {
    && (forall f :: 0 <= f < |ftable| && ftable[f].kind.PipeEnd? ==>
          EndOpen(pipes, ftable[f].kind.page, ftable[f].kind.writeable))
    && (forall f, g :: 0 <= f < g < |ftable| && ftable[f].kind.PipeEnd? ==> ftable[f].kind != ftable[g].kind)
    && (forall q, w :: EndOpen(pipes, q, w) ==> HasFile(ftable, q, w))
    && (forall q :: q in pipes ==> pipes[q].read || pipes[q].write)
  }

  ghost predicate HasFile(ftable: seq<File>, q: nat, w: bool) {
    exists f :: 0 <= f < |ftable| && ftable[f].kind == PipeEnd(q, w)
  }

  /** A process that is reading or writing a file has a descriptor for it. */
  ghost predicate Held(fds: seq<int>, inside: seq<int>) {
    forall p: nat :: p < |inside| && inside[p] != -1 ==> HasSlot(fds, p, inside[p])
  }

  ghost predicate HasSlot(fds: seq<int>, p: nat, f: int) {
    exists i: nat :: i < |fds| && i / NOFILE == p && fds[i] == f
  }

  ghost predicate Inv(s: System) {
    Shape(s) && Counted(s.ftable, s.fds) && Kinds(s.ftable) && Piped(s.ftable, s.pipes) && Held(s.fds, s.inside)
  }

  lemma InitialInv()
    ensures Inv(Initial())
  {
    var fds := Initial().fds;
    assert forall f :: 0 <= f < NFILE ==> f !in fds;
  }

  /** One descriptor changes: the counts of the old and the new file change by one. */
  lemma CountSet(fds: seq<int>, i: nat, v: int)
    requires i < |fds|
    ensures forall f :: f != fds[i] && f != v ==> multiset(fds[i := v])[f] == multiset(fds)[f]
    ensures v != fds[i] ==>
              && multiset(fds[i := v])[v] == multiset(fds)[v] + 1
              && multiset(fds[i := v])[fds[i]] == multiset(fds)[fds[i]] - 1
  {
  }

  /** No file has more descriptors than there are. */
  lemma CountBound(fds: seq<int>, f: int)
    ensures multiset(fds)[f] <= |fds|
  {
    assert |multiset(fds)| == |fds|;
    assert multiset(fds)[f := 0] + multiset{}[f := multiset(fds)[f]] == multiset(fds);
  }

  lemma AttachKeepsInv(s: System, i: nat, f: nat)
    requires Inv(s) && Enabled(s, Attach(i, f))
    ensures Inv(Next(s, Attach(i, f)))
  {
    CountSet(s.fds, i, f);
    HeldSet(s.fds, s.inside, i, f);
    PipedSame(s.ftable, Dup(s.ftable, f), s.pipes);
  }

  lemma HeldSet(fds: seq<int>, inside: seq<int>, i: nat, v: int)
    requires Held(fds, inside) && i < |fds| && (fds[i] == -1 || (i / NOFILE < |inside| && inside[i / NOFILE] == -1))
    ensures Held(fds[i := v], inside)
  {
    forall p: nat | p < |inside| && inside[p] != -1 ensures HasSlot(fds[i := v], p, inside[p]) {
      assert HasSlot(fds, p, inside[p]);
      var k: nat :| k < |fds| && k / NOFILE == p && fds[k] == inside[p];
      assert fds[i := v][k] == inside[p];
    }
  }

  lemma PipedSame(ftable: seq<File>, ftable': seq<File>, pipes: map<nat, Ends>)
    requires Piped(ftable, pipes) && |ftable'| == |ftable|
    requires forall f :: 0 <= f < |ftable| ==> ftable'[f].kind == ftable[f].kind
    ensures Piped(ftable', pipes)
  {
    forall q, w | EndOpen(pipes, q, w) ensures HasFile(ftable', q, w) {
      assert HasFile(ftable, q, w);
      var f :| 0 <= f < |ftable| && ftable[f].kind == PipeEnd(q, w);
      assert ftable'[f].kind == PipeEnd(q, w);
    }
  }

  lemma OpenKeepsInv(s: System, i: nat, f: nat, ip: nat)
    requires Inv(s) && Enabled(s, Open(i, f, ip))
    ensures Inv(Next(s, Open(i, f, ip)))
  {
    CountSet(s.fds, i, f);
    HeldSet(s.fds, s.inside, i, f);
    NewKind(s.ftable, s.pipes, f, File(1, Inode(ip)));
  }

  /** A free file becomes a file that is not on a pipe, or an open file without descriptors becomes free. */
  lemma NewKind(ftable: seq<File>, pipes: map<nat, Ends>, f: nat, file: File)
    requires Piped(ftable, pipes) && f < |ftable| && !ftable[f].kind.PipeEnd? && !file.kind.PipeEnd?
    ensures Piped(ftable[f := file], pipes)
  {
    var t := ftable[f := file];
    forall q, w | EndOpen(pipes, q, w) ensures HasFile(t, q, w) {
      assert HasFile(ftable, q, w);
      var g :| 0 <= g < |ftable| && ftable[g].kind == PipeEnd(q, w);
      assert t[g].kind == PipeEnd(q, w);
    }
  }

  /** Two free files become the ends of a new pipe. */
  lemma NewPipe(ftable: seq<File>, pipes: map<nat, Ends>, f: nat, g: nat, q: nat)
    requires Piped(ftable, pipes) && f < |ftable| && g < |ftable| && f != g && q !in pipes
    requires !ftable[f].kind.PipeEnd? && !ftable[g].kind.PipeEnd?
    ensures Piped(ftable[f := File(1, PipeEnd(q, false))][g := File(1, PipeEnd(q, true))], pipes[q := Ends(true, true)])
  {
    var t, pipes' := ftable[f := File(1, PipeEnd(q, false))][g := File(1, PipeEnd(q, true))],
        pipes[q := Ends(true, true)];
    assert forall h :: 0 <= h < |ftable| && ftable[h].kind.PipeEnd? ==>
             EndOpen(pipes, ftable[h].kind.page, ftable[h].kind.writeable);
    assert t[f].kind == PipeEnd(q, false) && t[g].kind == PipeEnd(q, true);
    forall r, w | EndOpen(pipes', r, w) ensures HasFile(t, r, w) {
      if r != q {
        assert EndOpen(pipes, r, w) && HasFile(ftable, r, w);
        var h :| 0 <= h < |ftable| && ftable[h].kind == PipeEnd(r, w);
        assert t[h].kind == PipeEnd(r, w);
      }
    }
  }

  lemma PipeKeepsInv(s: System, i: nat, j: nat, f: nat, g: nat, q: nat)
    requires Inv(s) && Enabled(s, MakePipe(i, j, f, g, q))
    ensures Inv(Next(s, MakePipe(i, j, f, g, q)))
  {
    CountSet(s.fds, i, f);
    CountSet(s.fds[i := f], j, g);
    HeldSet(s.fds, s.inside, i, f);
    HeldSet(s.fds[i := f], s.inside, j, g);
    assert s.ftable[f].kind == Free && s.ftable[g].kind == Free;
    NewPipe(s.ftable, s.pipes, f, g, q);
    hide Piped, Held;
  }

  /** The last descriptor of one end of a pipe goes. */
  lemma EndGone(ftable: seq<File>, pipes: map<nat, Ends>, f: nat)
    requires Piped(ftable, pipes) && f < |ftable| && ftable[f].kind.PipeEnd?
    ensures ftable[f].kind.page in pipes
    ensures Piped(ftable[f := File(0, Free)], PipeClose(pipes, ftable[f].kind.page, ftable[f].kind.writeable))
  {
    var q, v := ftable[f].kind.page, ftable[f].kind.writeable;
    assert EndOpen(pipes, q, v);
    var t, pipes' := ftable[f := File(0, Free)], PipeClose(pipes, q, v);
    forall h | 0 <= h < |t| && t[h].kind.PipeEnd? ensures EndOpen(pipes', t[h].kind.page, t[h].kind.writeable) {
      assert EndOpen(pipes, ftable[h].kind.page, ftable[h].kind.writeable);
      assert if h < f then ftable[h].kind != ftable[f].kind else ftable[f].kind != ftable[h].kind;
    }
    forall r, w | EndOpen(pipes', r, w) ensures HasFile(t, r, w) {
      assert EndOpen(pipes, r, w) && HasFile(ftable, r, w);
      var h :| 0 <= h < |ftable| && ftable[h].kind == PipeEnd(r, w);
      assert t[h].kind == PipeEnd(r, w);
    }
  }

  lemma CloseKeepsInv(s: System, i: nat)
    requires Inv(s) && Enabled(s, Close(i))
    ensures Inv(Next(s, Close(i)))
  {
    var f := s.fds[i];
    CountSet(s.fds, i, -1);
    HeldSet(s.fds, s.inside, i, -1);
    if s.ftable[f].ref > 1 {
      PipedSame(s.ftable, Next(s, Close(i)).ftable, s.pipes);
    } else if s.ftable[f].kind.PipeEnd? {
      EndGone(s.ftable, s.pipes, f);
    } else {
      NewKind(s.ftable, s.pipes, f, File(0, Free));
    }
    hide Piped, Held;
  }

  lemma EnterKeepsInv(s: System, p: nat, i: nat)
    requires Inv(s) && Enabled(s, Enter(p, i))
    ensures Inv(Next(s, Enter(p, i)))
  {
    var inside := s.inside[p := s.fds[i]];
    forall r: nat | r < |inside| && inside[r] != -1 ensures HasSlot(s.fds, r, inside[r]) {
      if r != p {
        assert HasSlot(s.fds, r, s.inside[r]);
      }
    }
  }

  lemma StepKeepsInv(s: System, step: Step)
    requires Inv(s) && Enabled(s, step)
    ensures Inv(Next(s, step))
  {
    hide Piped, Counted;
    match step
    case Open(i, f, ip) => OpenKeepsInv(s, i, f, ip);
    case MakePipe(i, j, f, g, q) => PipeKeepsInv(s, i, j, f, g, q);
    case Attach(i, f) => AttachKeepsInv(s, i, f);
    case Close(i) => CloseKeepsInv(s, i);
    case Enter(p, i) => EnterKeepsInv(s, p, i);
    case Leave(p) =>
  }

  // ---------------------------------------------------------------------------------------
  // Runs

  ghost predicate IsRun(s: System, run: seq<Step>)
    decreases |run|
  {
    run == [] || (Enabled(s, run[0]) && IsRun(Next(s, run[0]), run[1..]))
  }

  ghost function After(s: System, run: seq<Step>): System
    requires IsRun(s, run)
    decreases |run|
  {
    if run == [] then s else After(Next(s, run[0]), run[1..])
  }

  /** A run leads from one state to another. */
  ghost predicate Leads(s: System, run: seq<Step>, t: System) { IsRun(s, run) && After(s, run) == t }

  lemma LeadsNowhere(s: System)
    ensures Leads(s, [], s)
  {
  }

  lemma LeadsOne(s: System, step: Step)
    requires Enabled(s, step)
    ensures Leads(s, [step], Next(s, step))
  {
    LeadsNowhere(Next(s, step));
  }

  lemma {:induction false} LeadsOn(s: System, run: seq<Step>, t: System, run': seq<Step>, u: System)
    requires Leads(s, run, t) && Leads(t, run', u)
    ensures Leads(s, run + run', u)
    decreases |run|
  {
    if run == [] {
      assert run + run' == run';
    } else {
      LeadsOn(Next(s, run[0]), run[1..], t, run', u);
      assert (run + run')[1..] == run[1..] + run';
    }
  }

  lemma {:induction false} RunKeepsInv(s: System, run: seq<Step>)
    requires Inv(s) && IsRun(s, run)
    ensures Inv(After(s, run))
    decreases |run|
  {
    if run != [] {
      StepKeepsInv(s, run[0]);
      RunKeepsInv(Next(s, run[0]), run[1..]);
    }
  }

  /** Some descriptor is on pipe q. */
  ghost predicate OnPipe(s: System, q: nat) {
    exists i :: 0 <= i < |s.fds| && 0 <= s.fds[i] < |s.ftable| && s.ftable[s.fds[i]].kind.PipeEnd?
        && s.ftable[s.fds[i]].kind.page == q
  }

  lemma PipesInUse(s: System, q: nat)
    requires Inv(s)
    ensures q in s.pipes <==> OnPipe(s, q)
  {
    if q in s.pipes {
      var w :| EndOpen(s.pipes, q, w);
      assert HasFile(s.ftable, q, w);
      var f :| 0 <= f < |s.ftable| && s.ftable[f].kind == PipeEnd(q, w);
      assert multiset(s.fds)[f] > 0;
      assert f in s.fds;
    }
  }

  /** In every run a file's 16-bit count is the number of its descriptors over all processes and at
      most NPROC * NOFILE, a file is in the table exactly while it has a descriptor, a pipe's page is
      in use exactly while some descriptor is on the pipe, and no process is inside a read or write of
      a pipe whose page was freed. */
  lemma EveryRun(run: seq<Step>)
    requires IsRun(Initial(), run)
    ensures var s := After(Initial(), run);
            && |s.ftable| == NFILE && |s.inside| == NPROC
            && (forall f :: 0 <= f < NFILE ==> s.ftable[f].ref == multiset(s.fds)[f] <= SLOTS < 0x1_0000)
            && (forall f :: 0 <= f < NFILE ==> (s.ftable[f].kind != Free <==> f in s.fds))
            && (forall q :: q in s.pipes <==> OnPipe(s, q))
            && (forall p :: 0 <= p < NPROC && 0 <= s.inside[p] < NFILE ==>
                  s.ftable[s.inside[p]].kind != Free
                  && (s.ftable[s.inside[p]].kind.PipeEnd? ==> s.ftable[s.inside[p]].kind.page in s.pipes))
  {
    InitialInv();
    RunKeepsInv(Initial(), run);
    var s := After(Initial(), run);
    forall f | 0 <= f < NFILE
      ensures s.ftable[f].ref == multiset(s.fds)[f] <= SLOTS && (s.ftable[f].kind != Free <==> f in s.fds)
    {
      CountBound(s.fds, f);
    }
    forall q ensures q in s.pipes <==> OnPipe(s, q) {
      PipesInUse(s, q);
    }
    forall p | 0 <= p < NPROC && 0 <= s.inside[p] < NFILE
      ensures s.ftable[s.inside[p]].kind != Free
      ensures s.ftable[s.inside[p]].kind.PipeEnd? ==> s.ftable[s.inside[p]].kind.page in s.pipes
    {
      InsideOpen(s, p);
    }
  }

  lemma InsideOpen(s: System, p: nat)
    requires Inv(s) && p < NPROC && 0 <= s.inside[p] < NFILE
    ensures s.ftable[s.inside[p]].kind != Free
    ensures s.ftable[s.inside[p]].kind.PipeEnd? ==> s.ftable[s.inside[p]].kind.page in s.pipes
  {
    assert HasSlot(s.fds, p, s.inside[p]);
    assert s.inside[p] in s.fds;
    assert multiset(s.fds)[s.inside[p]] > 0;
    var kind := s.ftable[s.inside[p]].kind;
    assert kind.PipeEnd? ==> EndOpen(s.pipes, kind.page, kind.writeable);
  }

  /** The page of a pipe is freed by exactly one step: the close of the last descriptor on it. */
  lemma FreedByLastClose(s: System, step: Step, q: nat)
    requires Inv(s) && Enabled(s, step) && q in s.pipes
    ensures q !in Next(s, step).pipes <==>
            step.Close? && forall j ::
                0 <= j < SLOTS && j != step.i && s.fds[j] >= 0 && s.ftable[s.fds[j]].kind.PipeEnd? ==>
                  s.ftable[s.fds[j]].kind.page != q
  {
    StepKeepsInv(s, step);
    if step.Close? {
      var t := Next(s, step);
      PipesInUse(t, q);
      forall j | 0 <= j < SLOTS && j != step.i && s.fds[j] >= 0
        ensures t.fds[j] == s.fds[j] && t.ftable[s.fds[j]].kind == s.ftable[s.fds[j]].kind
      {
        assert t.fds[j] == s.fds[j];
        assert s.fds[j] in t.fds;
        assert multiset(t.fds)[s.fds[j]] > 0;
      }
    }
  }
}
