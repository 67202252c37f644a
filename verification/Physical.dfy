/** Physical memory: pages of bytes by frame number, shared by page tables and data, and the frame
    allocator that hands the frames out. */
module Physical {
  import opened Bytes
  import opened FrameAllocator

  const PAGE_SIZE := 4096
  /** Page numbers have 44 bits in a page table entry. */
  const PPN_LIMIT := 0x1000_0000_0000
  const U64_LIMIT := 0x1_0000_0000_0000_0000

  type Pages = map<nat, seq<byte>>

  ghost predicate IsPage(p: seq<byte>) {
    |p| == PAGE_SIZE
  }

  ghost predicate PagesOk(mem: Pages) {
    forall f :: f in mem ==> IsPage(mem[f])
  }

  // ----- a page as 512 words of 64 bits -----

  /** The word x of a page, low byte first. */
  function Word(p: seq<byte>, x: nat): (w: nat)
    requires |p| == PAGE_SIZE && x < 512
    ensures w < U64_LIMIT
  {
    GetU32(p, 8 * x) + U32_LIMIT * GetU32(p, 8 * x + 4)
  }

  function PutWord(p: seq<byte>, x: nat, w: nat): (q: seq<byte>)
    requires |p| == PAGE_SIZE && x < 512 && w < U64_LIMIT
    ensures |q| == PAGE_SIZE
  {
    Splice(Splice(p, 8 * x, U32Bytes(w % U32_LIMIT)), 8 * x + 4, U32Bytes(w / U32_LIMIT))
  }

  /** A stored word reads back and leaves the other words alone. */
  lemma {:induction false} WordStored(p: seq<byte>, x: nat, w: nat, y: nat)
    requires |p| == PAGE_SIZE && x < 512 && w < U64_LIMIT && y < 512
    ensures Word(PutWord(p, x, w), y) == if x == y then w else Word(p, y)
  {
    var q := Splice(p, 8 * x, U32Bytes(w % U32_LIMIT));
    if x == y {
      U32RoundTrip(p, 8 * x, w % U32_LIMIT);
      U32Elsewhere(q, 8 * x + 4, w / U32_LIMIT, 8 * x);
      U32RoundTrip(q, 8 * x + 4, w / U32_LIMIT);
    } else {
      U32Elsewhere(p, 8 * x, w % U32_LIMIT, 8 * y);
      U32Elsewhere(p, 8 * x, w % U32_LIMIT, 8 * y + 4);
      U32Elsewhere(q, 8 * x + 4, w / U32_LIMIT, 8 * y);
      U32Elsewhere(q, 8 * x + 4, w / U32_LIMIT, 8 * y + 4);
    }
  }

  lemma {:induction false} ZeroWord(x: nat)
    requires x < 512
    ensures Word(Zeros(PAGE_SIZE), x) == 0
  {
  }

  // ----- the machine -----

  ghost predicate OpenMachine(k: Key) {
    true
  }

  class Machine {
    const frames: Frames
    var mem: Pages

    constructor (fa: Frames, pages: Pages)
      requires fa.Valid() && fa.end <= PPN_LIMIT && PagesOk(pages)
      requires forall f :: fa.start <= f < fa.end ==> f in pages
      ensures Valid() && frames == fa && mem == pages
    {
      frames, mem := fa, pages;
    }

    ghost predicate Valid()
      reads this, frames, frames.recycled, frames.recycled.heapArray
    {
      forall k: Key {:trigger OpenMachine(k)} :: OpenMachine(k) ==>
        && frames.Valid() && frames.end <= PPN_LIMIT && PagesOk(mem)
        && forall f :: frames.start <= f < frames.end ==> f in mem
    }

    lemma {:induction false} Whole()
      requires Valid()
      ensures PagesOk(mem)
    {
      assert OpenMachine(Key);
    }

    /** The number that frame_remain_size reports. */
    lemma {:induction false} FreeNow()
      requires Valid()
      ensures |FreeFrames(Live(), frames.start, frames.end)| == frames.end - frames.start - |Live()|
    {
      assert OpenMachine(Key);
      FreeCount(Live(), frames.start, frames.end);
    }

    /** Frames in use. */
    ghost function Live(): set<nat>
      reads frames
    {
      frames.live
    }

    /** frame_alloc and memset(…, 0, PAGE_SIZE) on what it returns; None where the code panics. */
    method ZeroedFrame() returns (r: Option)
      requires Valid()
      modifies this`mem, frames`current, frames`live, frames.recycled`CurrentSize
      ensures Valid() && mem.Keys == old(mem.Keys)
      ensures r.None? <==> FreeFrames(old(Live()), frames.start, frames.end) == {}
      ensures r.None? ==> mem == old(mem) && Live() == old(Live())
      ensures r.Some? ==> r.frame in mem && r.frame !in old(Live()) && frames.start <= r.frame < frames.end
      ensures r.Some? ==> r.frame < PPN_LIMIT
      ensures r.Some? ==> mem == old(mem)[r.frame := Zeros(PAGE_SIZE)] && Live() == old(Live()) + {r.frame}
    {
      assert OpenMachine(Key);
      r := frames.Alloc();
      RangeHas(frames.start, frames.end);
      if r.Some? {
        mem := mem[r.frame := Zeros(PAGE_SIZE)];
      }
    }

    /** frame_dealloc of a live frame, which does not panic. */
    method GiveFrame(f: nat) returns (ok: bool)
      requires Valid() && f in Live()
      modifies frames`current, frames`live, frames.recycled`CurrentSize, frames.recycled.heapArray
      ensures Valid() && ok && Live() == old(Live()) - {f}
    {
      assert OpenMachine(Key);
      ok := frames.Dealloc(f);
    }

    /** memmove of one page onto another. */
    method CopyPage(dst: nat, src: nat)
      requires Valid() && dst in mem && src in mem
      modifies this`mem
      ensures Valid() && mem == old(mem)[dst := old(mem)[src]]
    {
      assert OpenMachine(Key);
      mem := mem[dst := mem[src]];
    }

    /** A page with new bytes. */
    method StorePage(frame: nat, page: seq<byte>)
      requires Valid() && frame in mem && |page| == PAGE_SIZE
      modifies this`mem
      ensures Valid() && mem == old(mem)[frame := page]
    {
      assert OpenMachine(Key);
      mem := mem[frame := page];
    }

    /** A store of one word. */
    method StoreWord(frame: nat, x: nat, w: nat)
      requires Valid() && frame in mem && x < 512 && w < U64_LIMIT
      modifies this`mem
      ensures Valid() && IsPage(old(mem)[frame]) && mem == old(mem)[frame := PutWord(old(mem)[frame], x, w)]
    {
      assert OpenMachine(Key);
      mem := mem[frame := PutWord(mem[frame], x, w)];
    }
  }
}
