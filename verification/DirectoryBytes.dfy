/** When bytes written over a directory leave a directory the file system can live with
    (fs/sysfile.c:331-351 opens directories so that fwrite writes them). */
module DirectoryBytes {
  import opened Minix
  import opened DirEntries
  import Links

  // ---------------------------------------------------------------------------------------
  // The test

  /** How many of the first n slots name inode i. */
  function NamesOf(s: seq<Byte>, i: nat, n: nat): nat
    requires n <= Slots(s)
  {
    if n == 0 then 0 else NamesOf(s, i, n - 1) + if Live(s, n - 1) && InoAt(s, n - 1) == i then 1 else 0
  }

  /** No two entries in use have the same name. */
  predicate NamesDiffer(s: seq<Byte>) {
    forall i, j :: 0 <= i < j < Slots(s) && Live(s, i) && Live(s, j) ==> NameAt(s, i) != NameAt(s, j)
  }

  /** Every entry in use is that of one of these inodes that has links. */
  predicate NamesLinked(table: seq<Inode>, s: seq<Byte>) {
    forall i :: 0 <= i < Slots(s) && Live(s, i) ==> InoAt(s, i) < |table| && table[InoAt(s, i)].nlinks > 0
  }

  /** Each of them that is no directory has as many entries in t as in s. */
  predicate SameNumbers(table: seq<Inode>, s: seq<Byte>, t: seq<Byte>) {
    forall i :: 1 <= i < |table| && !IsDir(table[i].mode) ==> NamesOf(t, i, Slots(t)) == NamesOf(s, i, Slots(s))
  }

  /** The bytes t can take the place of the directory s; `table` are the inodes by number, from 1 on. */
  predicate Tidy(table: seq<Inode>, s: seq<Byte>, t: seq<Byte>) {
    |t| % ENTRY == 0 && NamesDiffer(t) && NamesLinked(table, t) && SameNumbers(table, s, t)
  }

  // ---------------------------------------------------------------------------------------
  // What it means

  /** The names bound to inode i. */
  ghost function Bound(b: map<Name, nat>, i: nat): set<Name> { set n | n in b && b[n] == i }

  /** A directory may become `b`: its names lead to inodes with links, and every file keeps its number of
      names. */
  ghost predicate Fitting(inodes: map<nat, Inode>, b0: map<Name, nat>, b: map<Name, nat>) {
    && (forall n :: n in b ==> b[n] in inodes && inodes[b[n]].nlinks > 0)
    && forall i :: i in inodes && !IsDir(inodes[i].mode) ==> |Bound(b, i)| == |Bound(b0, i)|
  }

  ghost predicate TableOf(table: seq<Inode>, inodes: map<nat, Inode>) {
    && (forall i :: i in inodes <==> 1 <= i < |table|)
    && forall i :: i in inodes ==> table[i].mode == inodes[i].mode && table[i].nlinks == inodes[i].nlinks
  }

  lemma DirectoryIff(s: seq<Byte>)
    ensures IsDirectory(s) <==> |s| % ENTRY == 0 && NamesDiffer(s)
  {
    if |s| % ENTRY == 0 && NamesDiffer(s) {
      forall i: nat, j: nat, name, m: nat, n: nat | Binds(s, i, name, m) && Binds(s, j, name, n) ensures i == j {
      }
    }
    if IsDirectory(s) {
      forall i, j | 0 <= i < j < Slots(s) && Live(s, i) && Live(s, j) ensures NameAt(s, i) != NameAt(s, j) {
        if NameAt(s, i) == NameAt(s, j) {
          assert Binds(s, i, NameAt(s, i), InoAt(s, i)) && Binds(s, j, NameAt(s, i), InoAt(s, j));
        }
      }
    }
  }

  lemma BoundOneMore(b: map<Name, nat>, name: Name, m: nat, i: nat)
    requires name !in b
    ensures |Bound(b[name := m], i)| == |Bound(b, i)| + if m == i then 1 else 0
  {
    assert Bound(b[name := m], i) == Bound(b, i) + if m == i then {name} else {};
  }

  lemma BelowNext(s: seq<Byte>, n: nat)
    requires 0 < n <= Slots(s)
    ensures BindingsBelow(s, n) == if Live(s, n - 1) then
              BindingsBelow(s, n - 1)[NameAt(s, n - 1) := InoAt(s, n - 1)] else BindingsBelow(s, n - 1)
  {
  }

  /** Names and slots of an inode are equally many. */
  lemma {:induction false} BoundBelowIs(s: seq<Byte>, i: nat, n: nat)
    requires IsDirectory(s) && n <= Slots(s)
    ensures |Bound(BindingsBelow(s, n), i)| == NamesOf(s, i, n)
  {
    if n > 0 {
      BoundBelowIs(s, i, n - 1);
      BelowNext(s, n);
      if Live(s, n - 1) {
        NameIsNew(s, n);
        hide IsDirectory, BindingsBelow, NameAt, Live, InoAt, Bound;
        BoundOneMore(BindingsBelow(s, n - 1), NameAt(s, n - 1), InoAt(s, n - 1), i);
      }
    } else {
      assert Bound(map[], i) == {};
    }
  }

  lemma NameIsNew(s: seq<Byte>, n: nat)
    requires IsDirectory(s) && 0 < n <= Slots(s) && Live(s, n - 1)
    ensures NameAt(s, n - 1) !in BindingsBelow(s, n - 1)
  {
    var name := NameAt(s, n - 1);
    BelowIsMap(s, n - 1);
    if name in BindingsBelow(s, n - 1) {
      assert BoundBelow(s, n - 1, name, BindingsBelow(s, n - 1)[name]);
      var i: nat :| i < n - 1 && Binds(s, i, name, BindingsBelow(s, n - 1)[name]);
      assert Binds(s, n - 1, name, InoAt(s, n - 1));
    }
  }

  lemma LinkedIff(table: seq<Inode>, inodes: map<nat, Inode>, s: seq<Byte>)
    requires TableOf(table, inodes) && IsDirectory(s)
    ensures NamesLinked(table, s) <==> forall n :: n in Bindings(s) ==>
              Bindings(s)[n] in inodes && inodes[Bindings(s)[n]].nlinks > 0
  {
    BindingsIsMap(s);
    hide Bindings, IsDirectory;
    forall i | 0 <= i < Slots(s) && Live(s, i)
      ensures NameAt(s, i) in Bindings(s) && Bindings(s)[NameAt(s, i)] == InoAt(s, i)
    {
      assert Binds(s, i, NameAt(s, i), InoAt(s, i));
    }
    forall n | n in Bindings(s) ensures exists i :: 0 <= i < Slots(s) && Live(s, i) && InoAt(s, i) == Bindings(s)[n] {
      var i: nat :| Binds(s, i, n, Bindings(s)[n]);
    }
  }

  lemma NumbersIff(table: seq<Inode>, inodes: map<nat, Inode>, s: seq<Byte>, t: seq<Byte>)
    requires TableOf(table, inodes) && IsDirectory(s) && IsDirectory(t)
    ensures SameNumbers(table, s, t) <==>
              forall i :: i in inodes && !IsDir(inodes[i].mode) ==> |Bound(Bindings(t), i)| == |Bound(Bindings(s), i)|
  {
    hide IsDirectory, NamesOf, BindingsBelow;
    forall i: nat ensures |Bound(Bindings(t), i)| == NamesOf(t, i, Slots(t))
        && |Bound(Bindings(s), i)| == NamesOf(s, i, Slots(s))
    {
      BoundBelowIs(s, i, Slots(s));
      BoundBelowIs(t, i, Slots(t));
    }
  }

  /** The test says exactly that the bytes are a directory that fits. */
  lemma TidyIff(table: seq<Inode>, inodes: map<nat, Inode>, s: seq<Byte>, t: seq<Byte>)
    requires TableOf(table, inodes) && IsDirectory(s)
    ensures Tidy(table, s, t) <==> IsDirectory(t) && Fitting(inodes, Bindings(s), Bindings(t))
  {
    DirectoryIff(t);
    hide NamesDiffer, NamesLinked, SameNumbers, IsDirectory, Bindings, Bound;
    if IsDirectory(t) {
      LinkedIff(table, inodes, t);
      NumbersIff(table, inodes, s, t);
    }
  }

  // ---------------------------------------------------------------------------------------
  // Counting names in the whole volume

  /** The names of inode i outside directory x. */
  ghost function NamesOutside(entries: map<Links.Place, nat>, x: nat, i: nat): set<Links.Place> {
    set p | p in entries && entries[p] == i && p.dir != x
  }

  /** Directory x binds `b`. */
  ghost predicate DirBinds(entries: map<Links.Place, nat>, x: nat, b: map<Name, nat>) {
    && (forall n: Name :: Links.Place(x, n) in entries <==> n in b)
    && (forall n: Name :: n in b ==> entries[Links.Place(x, n)] == b[n])
    && forall p :: p in entries && p.dir == x ==> exists n: Name :: p == Links.Place(x, n)
  }

  ghost function PlacesIn(x: nat, names: set<Name>): set<Links.Place> { set n: Name | n in names :: Links.Place(x, n) }

  lemma {:induction false} PlacesInSize(x: nat, names: set<Name>)
    ensures |PlacesIn(x, names)| == |names|
  {
    if names != {} {
      var n: Name :| n in names;
      PlacesInSize(x, names - {n});
      assert PlacesIn(x, names) == PlacesIn(x, names - {n}) + {Links.Place(x, n)};
    }
  }

  /** A file's names are those in one directory and those outside. */
  lemma NamesSplit(entries: map<Links.Place, nat>, x: nat, b: map<Name, nat>, i: nat)
    requires DirBinds(entries, x, b)
    ensures |Links.Names(entries, i)| == |NamesOutside(entries, x, i)| + |Bound(b, i)|
  {
    PlacesInSize(x, Bound(b, i));
    var inside, outside := PlacesIn(x, Bound(b, i)), NamesOutside(entries, x, i);
    forall p | p in Links.Names(entries, i) ensures p in inside + outside {
      if p.dir == x {
        var n: Name :| p == Links.Place(x, n);
        assert n in Bound(b, i);
      }
    }
    assert Links.Names(entries, i) == inside + outside;
    assert inside !! outside;
  }

  /** When only directory x is bound anew, a file has as many names as before exactly if it has as many
      in x. */
  lemma ReboundNames(e0: map<Links.Place, nat>, e: map<Links.Place, nat>, x: nat, b0: map<Name, nat>,
                     b: map<Name, nat>, i: nat)
    requires DirBinds(e0, x, b0) && DirBinds(e, x, b)
    requires forall p: Links.Place :: p.dir != x ==> (p in e <==> p in e0) && (p in e ==> e[p] == e0[p])
    ensures |Links.Names(e, i)| == |Links.Names(e0, i)| <==> |Bound(b, i)| == |Bound(b0, i)|
  {
    NamesSplit(e0, x, b0, i);
    NamesSplit(e, x, b, i);
    assert NamesOutside(e, x, i) == NamesOutside(e0, x, i);
  }
}
