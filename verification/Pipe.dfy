/** The pipe: a ring of 512 bytes between two counters of 32 bits, worked on in the stretches between
    two sleeps. */
module Pipe {
  import opened Bytes

  const PIPESIZE := 512

  /** How a stretch of pipewrite or piperead ends: with the call's result, or asleep. */
  datatype End = Returned(r: int) | Asleep

  lemma {:induction false} SlotOfCounter(x: nat)
    ensures x % U32_LIMIT % PIPESIZE == x % PIPESIZE
  {
    var q, r := x / U32_LIMIT, x % U32_LIMIT;
    assert x == PIPESIZE * (0x80_0000 * q) + r;
    assert r == PIPESIZE * (r / PIPESIZE) + r % PIPESIZE;
    SameSlot(x, 0x80_0000 * q + r / PIPESIZE, r % PIPESIZE);
  }

  lemma {:induction false} SameSlot(x: nat, q: nat, r: nat)
    requires x == PIPESIZE * q + r && r < PIPESIZE
    ensures x % PIPESIZE == r
  {
  }

  /** Two numbers of a window of 512 have different slots. */
  lemma {:induction false} SlotsApart(i: nat, j: nat)
    requires i < j < i + PIPESIZE
    ensures i % PIPESIZE != j % PIPESIZE
  {
  }

  /** The counters tell full and empty apart even after they have wrapped. */
  lemma {:induction false} CountersExact(read: nat, written: nat)
    requires read <= written <= read + PIPESIZE
    ensures read % U32_LIMIT == written % U32_LIMIT <==> read == written
    ensures written % U32_LIMIT == (read % U32_LIMIT + PIPESIZE) % U32_LIMIT <==> written == read + PIPESIZE
  {
  }

  lemma {:induction false} CounterNext(x: nat)
    ensures (x % U32_LIMIT + 1) % U32_LIMIT == (x + 1) % U32_LIMIT
  {
  }

  ghost predicate OpenRing(k: Key) {
    true
  }

  /** The bytes written and not read lie in the ring, each in the slot of its number. */
  ghost predicate Holds(data: seq<byte>, written: seq<byte>, read: nat) {
    && |data| == PIPESIZE && read <= |written| <= read + PIPESIZE
    && forall k: Key {:trigger OpenRing(k)} :: OpenRing(k) ==>
         forall i :: read <= i < |written| ==> data[i % PIPESIZE] == written[i]
  }

  lemma {:induction false} HoldsMore(data: seq<byte>, written: seq<byte>, read: nat, ch: byte)
    requires Holds(data, written, read) && |written| < read + PIPESIZE
    ensures Holds(data[|written| % PIPESIZE := ch], written + [ch], read)
  {
    assert OpenRing(Key);
    var data', written' := data[|written| % PIPESIZE := ch], written + [ch];
    forall i | read <= i < |written'| ensures data'[i % PIPESIZE] == written'[i] {
      if i < |written| {
        SlotsApart(i, |written|);
        assert data[i % PIPESIZE] == written[i];
      }
    }
  }

  lemma {:induction false} HoldsFirst(data: seq<byte>, written: seq<byte>, read: nat)
    requires Holds(data, written, read) && read < |written|
    ensures data[read % PIPESIZE] == written[read] && Holds(data, written, read + 1)
  {
    assert OpenRing(Key);
  }

  function Min(a: nat, b: nat): nat {
    if a < b then a else b
  }

  class Pipe {
    const data: array<byte>
    var nread: nat
    var nwrite: nat
    var readopen: bool
    var writeopen: bool
    /** Every byte that was ever put in, and how many were ever taken out. */
    ghost var written: seq<byte>
    ghost var read: nat

    ghost predicate Valid()
      reads this, data
    {
      && nread == read % U32_LIMIT && nwrite == |written| % U32_LIMIT
      && data.Length == PIPESIZE && Holds(data[..], written, read)
    }

    /** What is in the pipe. */
    ghost function Contents(): (s: seq<byte>)
      requires Valid()
      reads this, data
      ensures |s| <= PIPESIZE && written == written[..read] + s
    {
      written[read..]
    }

    /** pipealloc */
    constructor ()
      ensures Valid() && Contents() == [] && written == [] && readopen && writeopen
    {
      data := new byte[PIPESIZE](_ => 0);
      nread, nwrite, readopen, writeopen, written, read := 0, 0, true, true, [], 0;
    }

    /** pipewrite from byte i of src on, until the call returns or sleeps: bytes go in while there is
        room, and only a full pipe stops it. */
    method Write(src: seq<byte>, start: nat, killed: bool) returns (i: nat, end: End)
      requires Valid() && start <= |src|
      modifies this`nwrite, this`written, data
      ensures Valid() && i == Min(|src|, start + 512 - |old(Contents())|)
      ensures written == old(written) + src[start..i] && Contents() == old(Contents()) + src[start..i]
      ensures end == if i == |src| then Returned(|src|) else if !readopen || killed then Returned(-1) else Asleep
    {
      i := start;
      while i < |src|
        invariant start <= i <= |src| && Valid() && written == old(written) + src[start..i]
        decreases |src| - i
      {
        CountersExact(read, |written|);
        if nwrite == (nread + PIPESIZE) % U32_LIMIT {
          if !readopen || killed {
            return i, Returned(-1);
          }
          return i, Asleep;
        }
        PutByte(src[i]);
        i := i + 1;
      }
      return i, Returned(i);
    }

    /** data[nwrite++ % PIPESIZE] = ch */
    method PutByte(ch: byte)
      requires Valid() && |written| < read + PIPESIZE
      modifies this`nwrite, this`written, data
      ensures Valid() && written == old(written) + [ch]
    {
      SlotOfCounter(|written|);
      CounterNext(|written|);
      HoldsMore(data[..], written, read, ch);
      data[nwrite % PIPESIZE] := ch;
      nwrite := (nwrite + 1) % U32_LIMIT;
      written := written + [ch];
      assert data[..] == old(data[..])[|old(written)| % PIPESIZE := ch];
    }

    /** ch = data[nread++ % PIPESIZE] */
    method TakeByte() returns (ch: byte)
      requires Valid() && read < |written|
      modifies this`nread, this`read
      ensures Valid() && read == old(read) + 1 && ch == written[old(read)]
    {
      SlotOfCounter(read);
      CounterNext(read);
      HoldsFirst(data[..], written, read);
      ch := data[nread % PIPESIZE];
      nread := (nread + 1) % U32_LIMIT;
      read := read + 1;
    }

    /** piperead of n bytes, to a user buffer whose first good bytes can be written. It sleeps on an
        empty pipe with a writer. A byte that cannot be delivered is taken out all the same. */
    method Read(n: nat, good: nat, killed: bool) returns (out: seq<byte>, end: End)
      requires Valid()
      modifies this`nread, this`read
      ensures Valid()
      ensures old(Contents()) == [] && writeopen ==>
                end == (if killed then Returned(-1) else Asleep) && out == [] && read == old(read)
      ensures !(old(Contents()) == [] && writeopen) ==>
                && end == Returned(|out|) && |out| == Min(good, Min(n, |old(Contents())|))
                && out == old(Contents())[..|out|] && read == old(read) + Min(n, Min(|old(Contents())|, good + 1))
    {
      CountersExact(read, |written|);
      out := [];
      if nread == nwrite && writeopen {
        return [], if killed then Returned(-1) else Asleep;
      }
      ghost var c := Contents();
      var i := 0;
      while i < n
        invariant 0 <= i <= n && i <= good && Valid() && read == old(read) + i && i <= |c| && out == c[..i]
      {
        CountersExact(read, |written|);
        if nread == nwrite {
          break;
        }
        var ch := TakeByte();
        if i >= good {
          return out, Returned(i);
        }
        out := out + [ch];
        i := i + 1;
      }
      return out, Returned(i);
    }

    /** pipeclose; whether the pipe is given back. */
    method Close(writable: bool) returns (gone: bool)
      modifies this`readopen, this`writeopen
      ensures writeopen == (old(writeopen) && !writable) && readopen == (old(readopen) && writable)
      ensures gone <==> !readopen && !writeopen
    {
      if writable {
        writeopen := false;
      } else {
        readopen := false;
      }
      gone := !readopen && !writeopen;
    }
  }

  // ----- whole runs -----

  /** A stretch of some writer's or reader's call, or a close. */
  datatype Act =
    PutAct(src: seq<byte>, start: nat, killed: bool) | TakeAct(n: nat, killed: bool) | CloseAct(writable: bool)

  /** The bytes a stretch put in or took out, in the order of the stretches. */
  ghost function Joined(parts: seq<seq<byte>>): seq<byte> {
    if parts == [] then [] else Joined(parts[..|parts| - 1]) + parts[|parts| - 1]
  }

  lemma {:induction false} JoinedAppend(parts: seq<seq<byte>>, x: seq<byte>)
    ensures Joined(parts + [x]) == Joined(parts) + x
  {
    assert (parts + [x])[..|parts + [x]| - 1] == parts;
  }

  /** What a stretch put in is a piece of what its writer had left, and readers put nothing in. */
  ghost predicate PutBy(act: Act, x: seq<byte>) {
    if act.PutAct? then act.start + |x| <= |act.src| && x == act.src[act.start..act.start + |x|] else x == []
  }

  /** Nothing came out of a stretch that did not read, and no more than was asked for of one that did. */
  ghost predicate TakenBy(act: Act, y: seq<byte>) {
    if act.TakeAct? then |y| <= act.n else y == []
  }

  /** First in, first out over any interleaving of stretches with good user buffers, however often the
      counters wrap: all that was put in is all that was taken out and what is left, at most 512 bytes. */
  method Run(p: Pipe, acts: seq<Act>) returns (ghost ins: seq<seq<byte>>, outs: seq<seq<byte>>)
    requires p.Valid() && forall i :: 0 <= i < |acts| && acts[i].PutAct? ==> acts[i].start <= |acts[i].src|
    modifies p, p.data
    ensures p.Valid() && |p.Contents()| <= 512 && |ins| == |outs| == |acts|
    ensures forall i :: 0 <= i < |acts| ==> PutBy(acts[i], ins[i]) && TakenBy(acts[i], outs[i])
    ensures old(p.Contents()) + Joined(ins) == Joined(outs) + p.Contents()
    ensures p.written == old(p.written) + Joined(ins)
  {
    ins, outs := [], [];
    ghost var c0, w0 := p.Contents(), p.written;
    for n := 0 to |acts|
      invariant p.Valid() && |ins| == |outs| == n
      invariant forall i :: 0 <= i < n ==> PutBy(acts[i], ins[i]) && TakenBy(acts[i], outs[i])
      invariant c0 + Joined(ins) == Joined(outs) + p.Contents() && p.written == w0 + Joined(ins)
    {
      ghost var c := p.Contents();
      ghost var x;
      var y;
      x, y := Take(p, acts[n]);
      JoinedAppend(ins, x);
      JoinedAppend(outs, y);
      Balance(c0, Joined(ins), x, Joined(outs), y, c, p.Contents());
      ins, outs := ins + [x], outs + [y];
    }
  }

  lemma {:induction false} Balance(c0: seq<byte>, ins: seq<byte>, x: seq<byte>, outs: seq<byte>, y: seq<byte>,
                                   c: seq<byte>, c': seq<byte>)
    requires c0 + ins == outs + c && c + x == y + c'
    ensures c0 + (ins + x) == (outs + y) + c'
  {
    assert c0 + (ins + x) == (c0 + ins) + x;
    assert outs + (c + x) == (outs + c) + x;
    assert outs + (y + c') == (outs + y) + c';
  }

  method Take(p: Pipe, act: Act) returns (ghost x: seq<byte>, y: seq<byte>)
    requires p.Valid() && (act.PutAct? ==> act.start <= |act.src|)
    modifies p, p.data
    ensures p.Valid() && old(p.Contents()) + x == y + p.Contents() && p.written == old(p.written) + x
    ensures PutBy(act, x) && TakenBy(act, y)
    ensures act.PutAct? ==> |x| == Min(|act.src| - act.start, PIPESIZE - |old(p.Contents())|)
    ensures act.TakeAct? ==> |y| == Min(act.n, |old(p.Contents())|)
  {
    x, y := [], [];
    match act
    case PutAct(src, start, killed) =>
      var i, end := p.Write(src, start, killed);
      x := src[start..i];
    case TakeAct(n, killed) =>
      var end;
      y, end := p.Read(n, n, killed);
    case CloseAct(writable) =>
      var gone := p.Close(writable);
  }
}
