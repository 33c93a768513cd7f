/** The user stack that exec builds (proc/exec.c): the argument strings, then argc and the argument
    vector below them, written through the physical address of the stack page. */
module ExecStack {
  import opened Minix

  const PAGE_SIZE: nat := 4096
  const MAX_ARGC: nat := 20

  /** C strings, without their terminator. */
  predicate IsString(s: seq<Byte>) { forall i :: 0 <= i < |s| ==> s[i] != 0 }

  predicate AreStrings(argv: seq<seq<Byte>>) { forall i :: 0 <= i < |argv| ==> IsString(argv[i]) }

  /** `x & ~3` */
  function Align4(x: nat): (r: nat)
    ensures r % 4 == 0 && r <= x < r + 4
  {
    x - x % 4
  }

  /** The bytes that the first n strings take on the stack. */
  function Need(argv: seq<seq<Byte>>, n: nat): (r: nat)
    requires n <= |argv|
    ensures r % 4 == 0
  {
    if n == 0 then 0 else Need(argv, n - 1) + Align4(|argv[n - 1]| + 4)
  }

  /** Strings and vector fit into the one page. */
  predicate Fits(argv: seq<seq<Byte>>) {
    Need(argv, |argv|) + 4 * (|argv| + 4) <= PAGE_SIZE
  }

  // What a program finds: `page` starts at user address `base`

  function WordAt(page: seq<Byte>, base: nat, a: nat): U32
    requires base <= a && a + 4 <= base + |page|
  {
    (page[a - base] as int) + 256 * (page[a - base + 1] as int) + 65536 * (page[a - base + 2] as int)
        + 16777216 * (page[a - base + 3] as int)
  }

  predicate StringAt(page: seq<Byte>, base: nat, a: nat, s: seq<Byte>) {
    base <= a && a + |s| + 1 <= base + |page| && page[a - base..a - base + |s|] == s && page[a - base + |s|] == 0
  }

  /** The stack pointer points at a return address nobody uses, argc, the vector's address, and the
      vector itself: the addresses of copies of the strings, then NULL. */
  predicate Decodes(page: seq<Byte>, base: nat, sp: nat, argv: seq<seq<Byte>>) {
    && sp % 4 == 0 && base <= sp && sp + 4 * (|argv| + 4) <= base + |page|
    && WordAt(page, base, sp) == 0xffff_ffff
    && WordAt(page, base, sp + 4) == |argv|
    && WordAt(page, base, sp + 8) == sp + 12
    && (forall i :: 0 <= i < |argv| ==> StringAt(page, base, WordAt(page, base, sp + 12 + 4 * i), argv[i]))
    && WordAt(page, base, sp + 12 + 4 * |argv|) == 0
  }

  /** A string read byte by byte up to the first zero. */
  function Scan(page: seq<Byte>, off: nat): seq<Byte>
    decreases |page| - off
  {
    if off >= |page| || page[off] == 0 then [] else [page[off]] + Scan(page, off + 1)
  }

  /** What the program reads at such an address is the string. */
  lemma {:induction false} ScanFinds(page: seq<Byte>, base: nat, a: nat, s: seq<Byte>)
    requires StringAt(page, base, a, s) && IsString(s)
    ensures Scan(page, a - base) == s
    decreases |s|
  {
    if s != [] {
      assert page[a - base] == s[0];
      var t := s[1..];
      assert page[a + 1 - base..a + 1 - base + |t|] == page[a - base..a - base + |s|][1..];
      ScanFinds(page, base, a + 1, t);
    }
  }

  /** What the program reads as argument i is argument i. */
  lemma ArgumentsRead(page: seq<Byte>, base: nat, sp: nat, argv: seq<seq<Byte>>)
    requires Decodes(page, base, sp, argv) && AreStrings(argv)
    ensures forall i :: 0 <= i < |argv| ==>
              base <= WordAt(page, base, sp + 12 + 4 * i)
                  && Scan(page, WordAt(page, base, sp + 12 + 4 * i) - base) == argv[i]
  {
    hide WordAt;
    forall i | 0 <= i < |argv|
      ensures base <= WordAt(page, base, sp + 12 + 4 * i)
      ensures Scan(page, WordAt(page, base, sp + 12 + 4 * i) - base) == argv[i]
    {
      ScanFinds(page, base, WordAt(page, base, sp + 12 + 4 * i), argv[i]);
    }
  }

  /** Four bytes of the page, the lowest first. */
  function Load(page: seq<Byte>, o: nat): int
    requires o + 4 <= |page|
  {
    page[o] as int + 256 * page[o + 1] as int + 65536 * page[o + 2] as int + 16777216 * page[o + 3] as int
  }

  /** main(argc, argv) as the C program is called, with its return address at sp: argc behind that, then argv,
      which points at the addresses of the strings and a NULL. */
  lemma MainSees(page: seq<Byte>, base: nat, sp: nat, argv: seq<seq<Byte>>)
    requires Decodes(page, base, sp, argv) && AreStrings(argv)
    ensures base <= sp && sp - base + 12 <= |page| && Load(page, sp - base + 4) == |argv|
    ensures var v := Load(page, sp - base + 8);
            && base <= v && v - base + 4 * |argv| + 4 <= |page| && Load(page, v - base + 4 * |argv|) == 0
            && forall i :: 0 <= i < |argv| ==>
                 base <= Load(page, v - base + 4 * i) && Scan(page, Load(page, v - base + 4 * i) - base) == argv[i]
  {
    ArgumentsRead(page, base, sp, argv);
    var v := Load(page, sp - base + 8);
    assert v == WordAt(page, base, sp + 8) == sp + 12;
    forall i | 0 <= i < |argv|
      ensures base <= Load(page, v - base + 4 * i) && Scan(page, Load(page, v - base + 4 * i) - base) == argv[i]
    {
      assert Load(page, v - base + 4 * i) == WordAt(page, base, sp + 12 + 4 * i);
    }
    assert Load(page, v - base + 4 * |argv|) == WordAt(page, base, sp + 12 + 4 * |argv|);
  }

  // ---------------------------------------------------------------------------------------

  /** strcpy to physical address pa of the page at physical address frame */
  method StrCpy(page: array<Byte>, frame: nat, pa: nat, s: seq<Byte>)
    requires frame <= pa && pa + |s| + 1 <= frame + page.Length
    modifies page
    ensures page[..] == Splice(old(page[..]), pa - frame, s + [0])
  {
    var i := 0;
    while i < |s|
      invariant i <= |s|
      invariant forall k :: 0 <= k < page.Length ==>
                  page[k] == if pa - frame <= k < pa - frame + i then s[k - (pa - frame)] else old(page[k])
    {
      page[pa - frame + i] := s[i];
      i := i + 1;
    }
    page[pa - frame + i] := 0;
    assert page[..] == Splice(old(page[..]), pa - frame, s + [0]);
  }

  function WordBytes(w: U32): (b: seq<Byte>)
    ensures |b| == 4 && (b[0] as int) + 256 * (b[1] as int) + 65536 * (b[2] as int) + 16777216 * (b[3] as int) == w
  {
    var w1 := w / 256;
    var w2 := w1 / 256;
    [w % 256, w1 % 256, w2 % 256, w2 / 256]
  }

  /** memcpy of the first n words of ustack */
  method CopyWords(page: array<Byte>, frame: nat, pa: nat, ustack: array<U32>, n: nat)
    requires n <= ustack.Length && frame <= pa && pa + 4 * n <= frame + page.Length
    modifies page
    ensures forall k :: 0 <= k < n ==> WordAt(page[..], frame, pa + 4 * k) == ustack[k]
    ensures forall k :: 0 <= k < page.Length && !(pa - frame <= k < pa - frame + 4 * n) ==> page[k] == old(page[k])
  {
    var i := 0;
    while i < n
      invariant i <= n
      invariant forall k :: 0 <= k < i ==> WordAt(page[..], frame, pa + 4 * k) == ustack[k]
      invariant forall k :: 0 <= k < page.Length && !(pa - frame <= k < pa - frame + 4 * i) ==> page[k] == old(page[k])
    {
      var b, at := WordBytes(ustack[i]), pa - frame + 4 * i;
      ghost var p := page[..];
      page[at], page[at + 1], page[at + 2], page[at + 3] := b[0], b[1], b[2], b[3];
      forall k | 0 <= k < i ensures WordAt(page[..], frame, pa + 4 * k) == ustack[k] {
        assert WordAt(p, frame, pa + 4 * k) == ustack[k];
      }
      i := i + 1;
    }
  }

  /** The strings so far, at the addresses collected for the vector. */
  ghost predicate Placed(page: seq<Byte>, base: nat, sp: nat, argv: seq<seq<Byte>>, words: seq<U32>, n: nat)
    requires n <= |argv| && 3 + n <= |words|
  {
    forall i :: 0 <= i < n ==> StringAbove(page, base, sp, words[3 + i], argv[i])
  }

  predicate StringAbove(page: seq<Byte>, base: nat, sp: nat, a: nat, s: seq<Byte>) {
    sp <= a && StringAt(page, base, a, s)
  }

  /** Writes below a string leave it as it is. */
  lemma StringKept(page: seq<Byte>, page': seq<Byte>, base: nat, a: nat, s: seq<Byte>, sp: nat)
    requires StringAt(page, base, a, s) && base <= sp <= a && |page'| == |page|
    requires forall k :: sp - base <= k < |page| ==> page'[k] == page[k]
    ensures StringAt(page', base, a, s)
  {
    assert page'[a - base..a - base + |s|] == page[a - base..a - base + |s|];
  }

  lemma PlacedKept(page: seq<Byte>, page': seq<Byte>, base: nat, sp: nat, argv: seq<seq<Byte>>, words: seq<U32>,
                   words': seq<U32>, n: nat)
    requires n <= |argv| && 3 + n <= |words| == |words'| && Placed(page, base, sp, argv, words, n) && base <= sp
    requires |page'| == |page|
    requires forall k :: sp - base <= k < |page| ==> page'[k] == page[k]
    requires forall i :: 3 <= i < 3 + n ==> words'[i] == words[i]
    ensures Placed(page', base, sp, argv, words', n)
  {
    forall i | 0 <= i < n ensures StringAbove(page', base, sp, words'[3 + i], argv[i]) {
      assert StringAbove(page, base, sp, words[3 + i], argv[i]);
      StringKept(page, page', base, words[3 + i], argv[i], sp);
    }
  }

  lemma NeedGrows(argv: seq<seq<Byte>>, n: nat)
    requires n <= |argv|
    ensures Need(argv, n) <= Need(argv, |argv|)
    decreases |argv| - n
  {
    if n < |argv| {
      NeedGrows(argv, n + 1);
    }
  }

  /** How many strings the loop copies before it is done or gives up. */
  function Copied(argv: seq<seq<Byte>>): (n: nat)
    ensures n <= |argv|
  {
    if |argv| <= MAX_ARGC + 1 then |argv| else MAX_ARGC + 1
  }

  /** One turn of the argument loop: the two addresses move down together, the string is copied. */
  method PushString(page: array<Byte>, sz: nat, frame: nat, sp: nat, pa: nat, s: seq<Byte>) returns (sp': nat, pa': nat)
    requires page.Length == PAGE_SIZE <= sz && sp - (sz - PAGE_SIZE) == pa - frame
    requires sz % 4 == 0 && frame % 4 == 0 && sp % 4 == 0 && pa % 4 == 0
    requires sz - PAGE_SIZE + Align4(|s| + 4) <= sp <= sz
    modifies page
    ensures sp' == sp - Align4(|s| + 4) && pa' == pa - Align4(|s| + 4) && sp' % 4 == 0 && pa' % 4 == 0
    ensures StringAt(page[..], sz - PAGE_SIZE, sp', s)
    ensures forall k :: sp - (sz - PAGE_SIZE) <= k < PAGE_SIZE ==> page[k] == old(page[k])
  {
    AlignDown(sp, |s|);
    AlignDown(pa, |s|);
    hide Align4;
    sp' := Align4(sp - (|s| + 1));
    pa' := Align4(pa - (|s| + 1));
    StrCpy(page, frame, pa', s);
    ghost var at := pa' - frame;
    assert page[..][at..at + |s|] == s;
  }

  lemma AlignDown(x: nat, n: nat)
    requires x % 4 == 0 && Align4(n + 4) <= x
    ensures n + 1 <= Align4(n + 4) && Align4(x - (n + 1)) == x - Align4(n + 4) && (x - Align4(n + 4)) % 4 == 0
  {
  }

  /** And its address goes into the vector. */
  method PushArg(page: array<Byte>, ustack: array<U32>, sz: nat, frame: nat, sp: nat, pa: nat, argv: seq<seq<Byte>>,
                 argc: nat)
      returns (sp': nat, pa': nat)
    requires page.Length == PAGE_SIZE <= sz < 0x1_0000_0000 && sp - (sz - PAGE_SIZE) == pa - frame
    requires page as object != ustack
    requires sz % 4 == 0 && frame % 4 == 0 && sp % 4 == 0 && pa % 4 == 0
    requires argc < |argv| && 3 + argc < ustack.Length && sz - PAGE_SIZE + Align4(|argv[argc]| + 4) <= sp <= sz
    requires Placed(page[..], sz - PAGE_SIZE, sp, argv, ustack[..], argc)
    modifies page, ustack
    ensures sp' == sp - Align4(|argv[argc]| + 4) && pa' == pa - Align4(|argv[argc]| + 4) && sp' % 4 == 0 && pa' % 4 == 0
    ensures Placed(page[..], sz - PAGE_SIZE, sp', argv, ustack[..], argc + 1)
  {
    hide StringAt, Align4, WordAt;
    ghost var p, words := page[..], ustack[..];
    sp', pa' := PushString(page, sz, frame, sp, pa, argv[argc]);
    ustack[3 + argc] := sp'; // argv[argc]
    PlacedKept(p, page[..], sz - PAGE_SIZE, sp, argv, words, ustack[..], argc);
    PlacedNext(page[..], sz - PAGE_SIZE, sp, sp', argv, ustack[..], argc);
  }

  lemma PlacedNext(page: seq<Byte>, base: nat, sp: nat, sp': nat, argv: seq<seq<Byte>>, words: seq<U32>, n: nat)
    requires n < |argv| && 3 + n < |words| && Placed(page, base, sp, argv, words, n) && sp' <= sp
    requires words[3 + n] == sp' && StringAt(page, base, sp', argv[n])
    ensures Placed(page, base, sp', argv, words, n + 1)
  {
    hide StringAt, WordAt;
    forall i | 0 <= i < n + 1 ensures StringAbove(page, base, sp', words[3 + i], argv[i]) {
      assert i < n ==> StringAbove(page, base, sp, words[3 + i], argv[i]);
    }
  }

  /** The end of the list, argc and the vector's address, below the strings. */
  method PushVector(page: array<Byte>, ustack: array<U32>, sz: nat, frame: nat, sp0: nat, pa0: nat,
                    argv: seq<seq<Byte>>) returns (sp: nat)
    requires page.Length == PAGE_SIZE <= sz < 0x1_0000_0000 && sp0 - (sz - PAGE_SIZE) == pa0 - frame
    requires page as object != ustack
    requires sp0 % 4 == 0 && 3 + |argv| < ustack.Length < 0x1_0000 && sz - PAGE_SIZE + 4 * (|argv| + 4) <= sp0 <= sz
    requires Placed(page[..], sz - PAGE_SIZE, sp0, argv, ustack[..], |argv|)
    modifies page, ustack
    ensures sp == sp0 - 4 * (|argv| + 4) && Decodes(page[..], sz - PAGE_SIZE, sp, argv)
  {
    hide StringAt, WordAt, Decodes;
    ghost var p, words0 := page[..], ustack[..];
    var argc := |argv|;
    ustack[3 + argc] := 0;
    ustack[0] := 0xffff_ffff;
    ustack[1] := argc;
    ustack[2] := sp0 - (argc + 1) * 4;
    sp := sp0 - (3 + argc + 1) * 4;
    var pa := pa0 - (3 + argc + 1) * 4;
    ghost var words := ustack[..];
    CopyWords(page, frame, pa, ustack, 3 + argc + 1);
    PlacedKept(p, page[..], sz - PAGE_SIZE, sp0, argv, words0, words, argc);
    Assembled(page[..], sz - PAGE_SIZE, frame, sp, pa, argv, words, sp0);
  }

  /** exec's stack: what the program finds at sp decodes to the arguments.  The list is refused when it
      has more than MAX_ARGC strings; with exactly MAX_ARGC + 1 the terminating NULL would not fit into
      ustack, and sys_exec never passes that many. */
  method BuildStack(page: array<Byte>, sz: nat, frame: nat, argv: seq<seq<Byte>>) returns (ok: bool, sp: nat)
    requires page.Length == PAGE_SIZE <= sz < 0x1_0000_0000 && sz % PAGE_SIZE == 0 && frame % PAGE_SIZE == 0
    requires |argv| != MAX_ARGC + 1 && Fits(argv[..Copied(argv)])
    modifies page
    ensures ok <==> |argv| <= MAX_ARGC
    ensures ok ==> Decodes(page[..], sz - PAGE_SIZE, sp, argv)
  {
    hide Align4, Placed, Decodes, Need, Fits;
    PageIsAligned(sz);
    PageIsAligned(frame);
    var ustack := new U32[3 + MAX_ARGC + 1](i => 0);
    var pa, argc := frame + PAGE_SIZE, 0;
    sp := sz;
    NonePlaced(page[..], sz - PAGE_SIZE, sp, argv, ustack[..]);
    assert Need(argv, 0) == 0 by { NeedNone(argv); }
    while argc < |argv|
      invariant argc <= Copied(argv)
      invariant sp - (sz - PAGE_SIZE) == pa - frame && sp % 4 == 0 && pa % 4 == 0 && sp == sz - Need(argv, argc)
      invariant Placed(page[..], sz - PAGE_SIZE, sp, argv, ustack[..], argc)
    {
      if argc > MAX_ARGC {
        return false, sp;
      }
      RoomForString(argv, argc);
      sp, pa := PushArg(page, ustack, sz, frame, sp, pa, argv, argc);
      argc := argc + 1;
    }
    RoomForVector(argv);
    sp := PushVector(page, ustack, sz, frame, sp, pa, argv);
    ok := true;
  }

  lemma PageIsAligned(x: nat)
    requires x % PAGE_SIZE == 0
    ensures x % 4 == 0 && (x + PAGE_SIZE) % 4 == 0
  {
    assert x == 4 * (1024 * (x / PAGE_SIZE));
    assert x + PAGE_SIZE == 4 * (1024 * (x / PAGE_SIZE) + 1024);
  }

  lemma NeedNone(argv: seq<seq<Byte>>)
    ensures Need(argv, 0) == 0
  {
  }

  lemma RoomForString(argv: seq<seq<Byte>>, n: nat)
    requires Fits(argv[..Copied(argv)]) && n < Copied(argv)
    ensures Need(argv, n + 1) == Need(argv, n) + Align4(|argv[n]| + 4) <= PAGE_SIZE
  {
    NeedPrefix(argv, Copied(argv), n + 1);
    NeedGrows(argv[..Copied(argv)], n + 1);
  }

  lemma RoomForVector(argv: seq<seq<Byte>>)
    requires Fits(argv[..Copied(argv)]) && |argv| == Copied(argv)
    ensures Need(argv, |argv|) + 4 * (|argv| + 4) <= PAGE_SIZE
  {
    assert argv[..|argv|] == argv;
  }

  lemma NonePlaced(page: seq<Byte>, base: nat, sp: nat, argv: seq<seq<Byte>>, words: seq<U32>)
    requires 3 <= |words|
    ensures Placed(page, base, sp, argv, words, 0)
  {
  }

  lemma {:induction false} NeedPrefix(argv: seq<seq<Byte>>, m: nat, n: nat)
    requires n <= m <= |argv|
    ensures Need(argv[..m], n) == Need(argv, n)
  {
    if n > 0 {
      NeedPrefix(argv, m, n - 1);
    }
  }

  lemma SameWord(page: seq<Byte>, base: nat, a: nat, frame: nat, pa: nat)
    requires base <= a && a + 4 <= base + |page| && a - base == pa - frame
    ensures WordAt(page, base, a) == WordAt(page, frame, pa)
  {
  }

  /** The words below the strings make the page decode. */
  lemma Assembled(page: seq<Byte>, base: nat, frame: nat, sp: nat, pa: nat, argv: seq<seq<Byte>>, words: seq<U32>,
                  top: nat)
    requires sp % 4 == 0 && base <= sp && sp + 4 * (|argv| + 4) <= base + |page| && sp - base == pa - frame
    requires 4 + |argv| <= |words| && Placed(page, base, top, argv, words, |argv|)
    requires words[0] == 0xffff_ffff && words[1] == |argv| && words[2] == sp + 12 && words[3 + |argv|] == 0
    requires forall k :: 0 <= k < 4 + |argv| ==> WordAt(page, frame, pa + 4 * k) == words[k]
    ensures Decodes(page, base, sp, argv)
  {
    hide WordAt, StringAt;
    forall k | 0 <= k < 4 + |argv| ensures WordAt(page, base, sp + 4 * k) == words[k] {
      assert WordAt(page, frame, pa + 4 * k) == words[k];
      SameWord(page, base, sp + 4 * k, frame, pa + 4 * k);
    }
    assert WordAt(page, base, sp + 4 * 0) == words[0];
    assert WordAt(page, base, sp + 4 * 1) == words[1];
    assert WordAt(page, base, sp + 4 * 2) == words[2];
    assert WordAt(page, base, sp + 4 * (3 + |argv|)) == words[3 + |argv|];
    forall i | 0 <= i < |argv| ensures StringAt(page, base, WordAt(page, base, sp + 12 + 4 * i), argv[i]) {
      assert WordAt(page, base, sp + 4 * (3 + i)) == words[3 + i];
      assert StringAbove(page, base, top, words[3 + i], argv[i]);
    }
  }
}
