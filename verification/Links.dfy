/** Link counts of regular files (fs/sysfile.c, iput in fs/inode.c): what sys_link and sys_unlink do to
    the count and to the directory entry, as steps, since other processes run in between. */
module Links {
  /** A directory entry. */
  datatype Place = Place(dir: nat, name: seq<nat>)

  /** `entries` are the directory entries that name a regular file; `nlinks` the 8-bit counts of the
      regular files that exist; `working[i]` is how many system calls are between the two changes for
      file i, and so still hold a reference to it. */
  datatype System = System(entries: map<Place, nat>, nlinks: map<nat, nat>, working: map<nat, nat>)

  datatype Step =
    | Create(at: Place, i: nat)  // a new file with one entry
    | Raise(i: nat)              // sys_link: ip->nlinks++
    | Bind(at: Place, i: nat)    // sys_link: dir_link succeeds
    | Clear(at: Place)           // sys_unlink: the entry is zeroed
    | Lower(i: nat)              // sys_unlink, and sys_link after dir_link failed: ip->nlinks--
    | Free(i: nat)               // iput of the last reference with nlinks == 0

  function Working(s: System, i: nat): nat { if i in s.working then s.working[i] else 0 }

  predicate Enabled(s: System, step: Step) {
    match step
    case Create(at, i) => at !in s.entries && i !in s.nlinks && Working(s, i) == 0
    case Raise(i) => i in s.nlinks
    case Bind(at, i) => at !in s.entries && i in s.nlinks && Working(s, i) > 0
    case Clear(at) => at in s.entries
    case Lower(i) => i in s.nlinks && Working(s, i) > 0
    case Free(i) => i in s.nlinks && s.nlinks[i] == 0 && Working(s, i) == 0
  }

  function Next(s: System, step: Step): System
    requires Enabled(s, step)
  {
    match step
    case Create(at, i) => s.(entries := s.entries[at := i], nlinks := s.nlinks[i := 1])
    case Raise(i) => s.(nlinks := s.nlinks[i := (s.nlinks[i] + 1) % 256], working := s.working[i := Working(s, i) + 1])
    case Bind(at, i) => s.(entries := s.entries[at := i], working := s.working[i := Working(s, i) - 1])
    case Clear(at) => s.(entries := s.entries - {at},
                         working := s.working[s.entries[at] := Working(s, s.entries[at]) + 1])
    case Lower(i) => s.(nlinks := s.nlinks[i := (s.nlinks[i] + 255) % 256],
                        working := s.working[i := Working(s, i) - 1])
    case Free(i) => s.(nlinks := s.nlinks - {i})
  }

  /** The entries that name file i. */
  ghost function Names(entries: map<Place, nat>, i: nat): set<Place> {
    set at | at in entries && entries[at] == i
  }

  /** No entry names a file that does not exist. */
  ghost predicate NoDangling(s: System) { forall at :: at in s.entries ==> s.entries[at] in s.nlinks }

  /** The count, as far as eight bits go, is that of the entries and of the calls at work. */
  ghost predicate Counted(s: System) {
    && (forall i :: i in s.nlinks ==> s.nlinks[i] == (|Names(s.entries, i)| + Working(s, i)) % 256)
    && (forall i :: i !in s.nlinks ==> Working(s, i) == 0)
  }

  /** And it is that number itself. */
  ghost predicate Exact(s: System) {
    forall i :: i in s.nlinks ==> s.nlinks[i] == |Names(s.entries, i)| + Working(s, i)
  }

  lemma NamesAdd(entries: map<Place, nat>, at: Place, i: nat)
    requires at !in entries
    ensures forall j :: |Names(entries[at := i], j)| == |Names(entries, j)| + if j == i then 1 else 0
  {
    forall j ensures |Names(entries[at := i], j)| == |Names(entries, j)| + if j == i then 1 else 0 {
      assert Names(entries[at := i], j) == Names(entries, j) + if j == i then {at} else {};
    }
  }

  lemma NamesRemove(entries: map<Place, nat>, at: Place)
    requires at in entries
    ensures forall j :: |Names(entries, j)| == |Names(entries - {at}, j)| + if j == entries[at] then 1 else 0
  {
    forall j ensures |Names(entries, j)| == |Names(entries - {at}, j)| + if j == entries[at] then 1 else 0 {
      assert Names(entries, j) == Names(entries - {at}, j) + if j == entries[at] then {at} else {};
    }
  }

  ghost predicate Inv(s: System) { NoDangling(s) && Counted(s) && Exact(s) }

  /** sys_link must not raise a count that is at its limit. */
  predicate Guarded(s: System, step: Step) {
    step.Raise? && step.i in s.nlinks ==> s.nlinks[step.i] < 255
  }

  lemma CreateKeepsInv(s: System, at: Place, i: nat)
    requires Inv(s) && Enabled(s, Create(at, i))
    ensures Inv(Next(s, Create(at, i)))
  {
    NamesAdd(s.entries, at, i);
    assert forall p :: p in s.entries ==> s.entries[p] in s.nlinks;
    assert Names(s.entries, i) == {};
    hide Names;
  }

  lemma BindKeepsInv(s: System, at: Place, i: nat)
    requires Inv(s) && Enabled(s, Bind(at, i))
    ensures Inv(Next(s, Bind(at, i)))
  {
    NamesAdd(s.entries, at, i);
    hide Names;
  }

  lemma ClearKeepsInv(s: System, at: Place)
    requires Inv(s) && Enabled(s, Clear(at))
    ensures Inv(Next(s, Clear(at)))
  {
    NamesRemove(s.entries, at);
    hide Names;
  }

  lemma FreeKeepsInv(s: System, i: nat)
    requires Inv(s) && Enabled(s, Free(i))
    ensures Inv(Next(s, Free(i)))
  {
    assert |Names(s.entries, i)| == 0;
    assert forall at :: at in s.entries ==> at in Names(s.entries, s.entries[at]);
    hide Names;
  }

  /** Below the limit 8-bit counting is counting. */
  lemma EightBits(n: nat)
    requires n <= 255
    ensures n < 255 ==> (n + 1) % 256 == n + 1
    ensures n > 0 ==> (n + 255) % 256 == n - 1
    ensures n % 256 == n
  {
  }

  lemma RaiseExact(s: System, i: nat)
    requires Exact(s) && Enabled(s, Raise(i)) && s.nlinks[i] < 255
    ensures Exact(Next(s, Raise(i)))
  {
    hide Names;
    EightBits(s.nlinks[i]);
  }

  lemma LowerExact(s: System, i: nat)
    requires Exact(s) && Enabled(s, Lower(i)) && s.nlinks[i] <= 255
    ensures Exact(Next(s, Lower(i)))
  {
    hide Names;
    assert s.nlinks[i] > 0;
    EightBits(s.nlinks[i]);
  }

  lemma CountKeepsInv(s: System, step: Step)
    requires Inv(s) && Enabled(s, step) && Guarded(s, step) && (step.Raise? || step.Lower?)
    ensures Inv(Next(s, step))
  {
    CountsSmall(s);
    hide Names, Counted, Exact;
    if step.Raise? {
      RaiseExact(s, step.i);
    } else {
      LowerExact(s, step.i);
    }
    ExactCounted(s, Next(s, step));
  }

  lemma CountsSmall(s: System)
    requires Counted(s)
    ensures forall i :: i in s.nlinks ==> s.nlinks[i] <= 255
  {
  }

  /** One count changes by one and stays in eight bits. */
  lemma ExactCounted(s: System, t: System)
    requires Counted(s) && Exact(t) && t.nlinks.Keys == s.nlinks.Keys
    requires forall i :: i in t.nlinks ==> t.nlinks[i] <= 255
    requires forall i :: i !in s.nlinks ==> Working(t, i) == Working(s, i)
    ensures Counted(t)
  {
  }

  lemma StepKeepsInv(s: System, step: Step)
    requires Inv(s) && Enabled(s, step) && Guarded(s, step)
    ensures Inv(Next(s, step))
  {
    hide Inv, Next;
    match step
    case Create(at, i) => CreateKeepsInv(s, at, i);
    case Bind(at, i) => BindKeepsInv(s, at, i);
    case Clear(at) => ClearKeepsInv(s, at);
    case Free(i) => FreeKeepsInv(s, i);
    case _ => CountKeepsInv(s, step);
  }

  /** A file that is named can be unlinked: its count is not 0, as sys_unlink asserts. */
  lemma NamedHasCount(s: System, at: Place)
    requires Inv(s) && at in s.entries
    ensures s.entries[at] in s.nlinks && s.nlinks[s.entries[at]] >= 1
  {
    assert at in Names(s.entries, s.entries[at]);
  }

  /** A step spoils the counts exactly when sys_link raises one that is at its limit. */
  lemma ExactIff(s: System, step: Step)
    requires Inv(s) && Enabled(s, step)
    ensures Exact(Next(s, step)) <==> Guarded(s, step)
  {
    if Guarded(s, step) {
      StepKeepsInv(s, step);
    }
  }

  // ---------------------------------------------------------------------------------------

  ghost predicate IsRun(s: System, run: seq<Step>)
    decreases |run|
  {
    run == [] || (Enabled(s, run[0]) && IsRun(Next(s, run[0]), run[1..]))
  }

  ghost function After(s: System, run: seq<Step>): System
    requires IsRun(s, run)
    decreases |run|
  {
    if run == [] then s else After(Next(s, run[0]), run[1..])
  }

  ghost predicate AllGuarded(s: System, run: seq<Step>)
    requires IsRun(s, run)
    decreases |run|
  {
    run == [] || (Guarded(s, run[0]) && AllGuarded(Next(s, run[0]), run[1..]))
  }

  /** As long as no file gets more than 255 links, no run of links and unlinks frees a file that still
      has a name. */
  lemma {:induction false} NoDanglingEntries(s: System, run: seq<Step>)
    requires Inv(s) && IsRun(s, run) && AllGuarded(s, run)
    ensures Inv(After(s, run))
    decreases |run|
  {
    if run != [] {
      StepKeepsInv(s, run[0]);
      NoDanglingEntries(Next(s, run[0]), run[1..]);
    }
  }

  lemma Ahead(s: System, step: Step, rest: seq<Step>)
    requires Enabled(s, step) && IsRun(Next(s, step), rest)
    ensures IsRun(s, [step] + rest) && After(s, [step] + rest) == After(Next(s, step), rest)
  {
    assert ([step] + rest)[1..] == rest;
  }

  /** n more links to file 2, under new names, and then its last reference goes. */
  lemma {:induction false} LinkRun(s: System, n: nat) returns (run: seq<Step>)
    requires 2 in s.nlinks && n <= 255 && s.nlinks[2] == (256 - n) % 256 && Working(s, 2) == 0
    requires Place(1, [0]) in s.entries && s.entries[Place(1, [0])] == 2
    requires forall k: nat :: 256 - n <= k ==> Place(1, [k]) !in s.entries
    ensures IsRun(s, run)
    ensures var t := After(s, run); Place(1, [0]) in t.entries && t.entries[Place(1, [0])] == 2 && 2 !in t.nlinks
    decreases n
  {
    if n == 0 {
      var t := Next(s, Free(2));
      assert IsRun(t, []) && After(t, []) == t;
      Ahead(s, Free(2), []);
      run := [Free(2)] + [];
    } else {
      var s1 := Next(s, Raise(2));
      var s2 := Next(s1, Bind(Place(1, [256 - n]), 2));
      assert forall k: nat :: Place(1, [k]) == Place(1, [256 - n]) ==> [k][0] == [256 - n][0];
      run := LinkRun(s2, n - 1);
      Ahead(s1, Bind(Place(1, [256 - n]), 2), run);
      Ahead(s, Raise(2), [Bind(Place(1, [256 - n]), 2)] + run);
      run := [Raise(2)] + ([Bind(Place(1, [256 - n]), 2)] + run);
    }
  }

  /** With 256 links the count is 0, and closing the file frees it although it has names. */
  lemma ManyLinksDangle()
    ensures exists run :: IsRun(System(map[], map[], map[]), run)
              && !NoDangling(After(System(map[], map[], map[]), run))
  {
    var s := System(map[], map[], map[]);
    var t := Next(s, Create(Place(1, [0]), 2));
    assert forall k: nat :: Place(1, [k]) == Place(1, [0]) ==> [k][0] == [0][0];
    var run := LinkRun(t, 255);
    Ahead(s, Create(Place(1, [0]), 2), run);
    assert !NoDangling(After(t, run)) by {
      var u := After(t, run);
      assert Place(1, [0]) in u.entries && u.entries[Place(1, [0])] !in u.nlinks;
    }
  }
}
