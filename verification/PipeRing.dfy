/** The loops of pipe_write and pipe_read between two sleeps, over the pipe's page itself. */
module PipeRing {
  import opened Pipes

  class Ring {
    const data: array<Byte>
    var nread: Counter
    var nwrite: Counter
    var readopen: bool
    var writeopen: bool

    ghost function View(): (p: Pipe)
      requires data.Length == PIPE_SIZE
      reads this, data
    {
      Pipe(data[..], nread, nwrite, readopen, writeopen)
    }

    ghost predicate Valid()
      reads this, data
    {
      data.Length == PIPE_SIZE && Counters(View())
    }

    ghost function Bytes(): seq<Byte>
      requires Valid()
      reads this, data
    {
      Contents(View())
    }

    /** pipe_alloc */
    constructor ()
      ensures Valid() && fresh(data) && Bytes() == [] && readopen && writeopen
    {
      data := new Byte[PIPE_SIZE](i => 0);
      nread, nwrite, readopen, writeopen := 0, 0, true, true;
    }

    /** pipe_write from byte i on, up to the point where it is done or the pipe is full: exactly the
        bytes stored are appended, and none is left out while there is room. */
    method WriteSome(addr: seq<Byte>, i: nat) returns (i': nat)
      requires Valid() && i <= |addr|
      modifies data, this`nwrite
      ensures Valid() && i <= i' <= |addr|
      ensures Bytes() == old(Bytes()) + addr[i..i']
      ensures i' == |addr| || |Bytes()| == PIPE_SIZE
    {
      i' := i;
      hide Contents, InFlight, Slot, Counters;
      while i' < |addr| && nwrite != PlusSize(nread)
        invariant Valid() && i <= i' <= |addr|
        invariant Bytes() == old(Bytes()) + addr[i..i']
      {
        ghost var p := View();
        PutAppends(p, addr[i']);
        data[Slot(nwrite)] := addr[i'];
        nwrite := Succ(nwrite);
        assert View() == Put(p, addr[i']);
        assert addr[i..i'] + [addr[i']] == addr[i..i' + 1];
        i' := i' + 1;
      }
      TestsAreRight(View());
    }

    /** The second loop of pipe_read: the oldest bytes, as many as wanted and there. */
    method ReadSome(n: nat) returns (addr: seq<Byte>)
      requires Valid()
      modifies this`nread
      ensures Valid() && old(Bytes()) == addr + Bytes()
      ensures |addr| == if n < |old(Bytes())| then n else |old(Bytes())|
    {
      addr := [];
      hide Contents, InFlight, Slot, Counters;
      while |addr| < n && nread != nwrite
        invariant Valid() && |addr| <= n && old(Bytes()) == addr + Bytes()
      {
        ghost var p, a := View(), addr;
        GetRemoves(p);
        addr := addr + [data[Slot(nread)]];
        nread := Succ(nread);
        assert View() == Taken(p);
        assert a + ([Get(p)] + Bytes()) == addr + Bytes();
      }
      TestsAreRight(View());
    }

    /** pipe_close of an end that is open: whether the page is freed. */
    method Close(writeable: bool) returns (freed: bool)
      requires Valid() && if writeable then writeopen else readopen
      modifies this`readopen, this`writeopen
      ensures Valid() && Bytes() == old(Bytes())
      ensures writeopen == (old(writeopen) && !writeable) && readopen == (old(readopen) && writeable)
      ensures freed <==> !readopen && !writeopen
    {
      ghost var p := View();
      if writeable {
        writeopen := false;
      } else {
        readopen := false;
      }
      SameRing(p, View());
      freed := !readopen && !writeopen;
    }
  }
}
