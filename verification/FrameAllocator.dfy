/** The physical frame allocator: a high-water mark that falls again, and a heap of recycled frames
    below it. */
module FrameAllocator {
  import opened Bytes
  import opened MaxHeap

  /** The frames of [start, current) are either live or recycled, each recycled one once. */
  ghost predicate Split(recycled: multiset<nat>, live: set<nat>, start: nat, current: nat) {
    && start <= current
    && (forall f :: f in recycled ==> recycled[f] == 1 && start <= f < current && f !in live)
    && (forall f :: f in live ==> start <= f < current)
    && (forall f :: start <= f < current ==> f in live || f in recycled)
    && |recycled| + |live| == current - start
  }

  /** The mark is as low as it can be: nothing from it on is live, and it cannot fall further. */
  ghost predicate Tight(live: set<nat>, start: nat, current: nat) {
    current > start ==> current - 1 in live
  }

  /** The frames from start up to end. */
  ghost function Range(start: nat, end: nat): set<nat>
    decreases end
  {
    if end <= start then {} else Range(start, end - 1) + {end - 1}
  }

  lemma {:induction false} RangeHas(start: nat, end: nat)
    requires start <= end
    ensures |Range(start, end)| == end - start && forall f :: f in Range(start, end) <==> start <= f < end
    decreases end
  {
    if start < end {
      RangeHas(start, end - 1);
    }
  }

  /** The frames that could be handed out. */
  ghost function FreeFrames(live: set<nat>, start: nat, end: nat): set<nat> {
    Range(start, end) - live
  }

  lemma {:induction false} FreeCount(live: set<nat>, start: nat, end: nat)
    requires start <= end && forall f :: f in live ==> start <= f < end
    ensures |FreeFrames(live, start, end)| == end - start - |live|
  {
    RangeHas(start, end);
    assert live <= Range(start, end);
  }

  /** Frames are not taken from above all live ones as long as there is a free one below. */
  ghost predicate FillsUp(live: set<nat>, start: nat, f: nat) {
    (exists g :: g in live && f < g) || (forall g :: start <= g < f ==> g in live)
  }

  ghost predicate OpenSplit(k: Key) {
    true
  }

  ghost predicate Parted(recycled: multiset<nat>, live: set<nat>, start: nat, current: nat) {
    forall k: Key {:trigger OpenSplit(k)} :: OpenSplit(k) ==>
      Split(recycled, live, start, current) && Tight(live, start, current)
  }

  ghost predicate OpenAdmit(k: Key) {
    true
  }

  /** With f among the recycled ones the mark may have to fall. */
  ghost predicate Admits(recycled: multiset<nat>, f: nat, live: set<nat>, start: nat, current: nat) {
    forall k: Key {:trigger OpenAdmit(k)} :: OpenAdmit(k) ==> Split(recycled + multiset{f}, live, start, current)
  }

  class Frames {
    const recycled: Heap
    var current: nat
    const end: nat
    ghost const start: nat
    /** Frames handed out and not given back. */
    ghost var live: set<nat>

    ghost predicate Valid()
      reads this, recycled, recycled.heapArray
    {
      && recycled.Valid() && start + recycled.MaxSize == end && start <= current <= end
      && (forall f :: f in live ==> start <= f < end)
      && Parted(multiset(recycled.Elements()), live, start, current)
    }

    /** frame_allocator_init over the frames [from, to). */
    constructor (from: nat, to: nat)
      requires from <= to
      ensures Valid() && fresh(recycled) && fresh(recycled.heapArray)
      ensures start == from && end == to && live == {}
    {
      start, end, current, live := from, to, from, {};
      recycled := new Heap(to - from);
    }

    /** frame_alloc: the last recycled frame, or the one at the mark if there is none, which is not live
        either way; None where the code panics, exactly when every frame is live. */
    method Alloc() returns (r: Option)
      requires Valid()
      modifies this`current, this`live, recycled`CurrentSize
      ensures Valid() && (r.None? <==> FreeFrames(old(live), start, end) == {})
      ensures r.None? ==> live == old(live)
      ensures r.Some? ==> r.frame in FreeFrames(old(live), start, end) && live == old(live) + {r.frame}
      ensures r.Some? ==> r.frame == if old(recycled.Elements()) == [] then old(current)
                                     else old(recycled.Elements())[|old(recycled.Elements())| - 1]
      ensures r.Some? ==> FillsUp(old(live), start, r.frame)
    {
      RangeHas(start, end);
      if !recycled.Empty() {
        var t := AllocRecycled();
        return Some(t);
      }
      if current == end {
        assert OpenSplit(Key);
        Advance(multiset(recycled.Elements()), live, start, current, end);
        return None;
      }
      var t := AllocNext();
      return Some(t);
    }

    /** A recycled frame: the last of the array, not the largest. */
    method AllocRecycled() returns (t: nat)
      requires Valid() && 0 < recycled.CurrentSize
      modifies this`live, recycled`CurrentSize
      ensures Valid() && start <= t < end && t !in old(live) && live == old(live) + {t}
      ensures t == old(recycled.Elements())[|old(recycled.Elements())| - 1] && FillsUp(old(live), start, t)
    {
      assert OpenSplit(Key);
      t := recycled.PopLast();
      DropLast(recycled.Elements(), t, live, start, current);
      BelowLive(live, start, current, t);
      live := live + {t};
    }

    /** The frame at the mark. */
    method AllocNext() returns (t: nat)
      requires Valid() && 0 == recycled.CurrentSize && current < end
      modifies this`live, this`current
      ensures Valid() && start <= t < end && t !in old(live) && live == old(live) + {t}
      ensures t == old(current) && FillsUp(old(live), start, t)
    {
      assert OpenSplit(Key);
      Advance(multiset(recycled.Elements()), live, start, current, end);
      current := current + 1;
      t := current - 1;
      live := live + {t};
    }

    /** frame_dealloc, false where the code panics. Afterwards nothing from the mark on is live, and the
        mark is the least such. There is no check of a lower bound: a number below the first frame is
        taken, counted and handed out as if it were a frame, and the allocator is no longer valid. */
    method Dealloc(ppn: nat) returns (ok: bool)
      requires Valid()
      modifies this`current, this`live, recycled`CurrentSize, recycled.heapArray
      ensures recycled.Valid() && live == old(live) - {ppn}
      ensures start <= ppn ==> Valid() && ok == (ppn in old(live))
      ensures start <= ppn ==> Tight(live, start, current) && forall f :: current <= f < end ==> f !in live
      ensures ppn < start ==> ok == (start < end) && Valid() == !ok
      ensures ppn < start && ok ==> ppn in recycled.Elements() || ppn == current
      ensures ppn < start && ok ==>
                end - current + recycled.CurrentSize == old(end - current + recycled.CurrentSize) + 1
    {
      ghost var m := multiset(recycled.Elements());
      Guarded(m, live, start, current, end, ppn);
      var again := recycled.IsSome(ppn);
      assert (ppn in m <==> ppn in recycled.Elements()) && |m| == recycled.CurrentSize;
      if ppn >= current || again {
        Marked(m, live, start, current);
        return false;
      }
      ghost var low, kept := Admitted(m, live, start, current, ppn);
      ok := Accept(ppn, low, kept);
      live := live - {ppn};
      ghost var m' := multiset(recycled.Elements());
      assert |m'| == recycled.CurrentSize;
      if start <= ppn {
        Marked(m', live, start, current);
      } else if ok {
        Misplaced(m', live, kept, start, current, ppn);
      }
    }

    /** What follows the test of frame_dealloc. */
    method Accept(ppn: nat, ghost low: nat, ghost kept: set<nat>) returns (ok: bool)
      requires recycled.Valid() && current <= end
      requires Admits(multiset(recycled.Elements()), ppn, kept, low, current)
      modifies this`current, recycled`CurrentSize, recycled.heapArray
      ensures recycled.Valid() && current <= end && ok == (old(recycled.CurrentSize) < recycled.MaxSize)
      ensures !ok ==> current == old(current) && recycled.CurrentSize == old(recycled.CurrentSize)
      ensures !ok ==> multiset(recycled.Elements()) == old(multiset(recycled.Elements()))
      ensures ok ==> Parted(multiset(recycled.Elements()), kept, low, current)
    {
      assert OpenAdmit(Key);
      ok := recycled.Insert(ppn);
      if ok {
        Reclaim(low, kept);
      }
    }

    /** The reclaiming loop of frame_dealloc. When it has emptied the heap it reads the element that
        was removed last, which is the mark itself and not one below it. */
    method Reclaim(ghost low: nat, ghost kept: set<nat>)
      requires recycled.Valid() && current <= end && 0 < recycled.CurrentSize
      requires Split(multiset(recycled.Elements()), kept, low, current)
      modifies this`current, recycled`CurrentSize, recycled.heapArray
      ensures recycled.Valid() && current <= end
      ensures Parted(multiset(recycled.Elements()), kept, low, current)
    {
      var top := recycled.Top();
      assert |multiset(recycled.Elements())| == recycled.CurrentSize;
      while top == current - 1
        invariant recycled.Valid() && current <= end && 0 < recycled.MaxSize
        invariant top == recycled.heapArray[0] && AtTop(multiset(recycled.Elements()), kept, low, current, top)
        decreases current
      {
        top := ReclaimTop(top, low, kept);
      }
      NotBelow(multiset(recycled.Elements()), kept, low, current, top);
    }

    /** One round of it: the mark takes back the frame below it. */
    method ReclaimTop(was: nat, ghost low: nat, ghost kept: set<nat>) returns (top: nat)
      requires recycled.Valid() && current <= end && 0 < recycled.MaxSize && was == recycled.heapArray[0]
      requires AtTop(multiset(recycled.Elements()), kept, low, current, was) && was == current - 1
      modifies this`current, recycled`CurrentSize, recycled.heapArray
      ensures recycled.Valid() && current == old(current) - 1 && top == recycled.heapArray[0]
      ensures AtTop(multiset(recycled.Elements()), kept, low, current, top)
    {
      ghost var m := multiset(recycled.Elements());
      assert |m| == recycled.CurrentSize && OpenTop(Key);
      var ok := recycled.RemoveMax();
      Lowered(m, multiset(recycled.Elements()), kept, low, current);
      current := current - 1;
      top := recycled.Top();
      assert |multiset(recycled.Elements())| == recycled.CurrentSize;
    }

    /** frame_remain_size: the number of frames that are free. */
    method RemainSize() returns (n: nat)
      requires Valid()
      ensures n == |FreeFrames(live, start, end)|
    {
      assert OpenSplit(Key);
      n := end - current + recycled.CurrentSize;
      assert |multiset(recycled.Elements())| == recycled.CurrentSize;
      FreeCount(live, start, end);
    }
  }

  datatype Option = None | Some(frame: nat)

  lemma {:induction false} BelowLive(live: set<nat>, start: nat, current: nat, t: nat)
    requires Tight(live, start, current) && start <= t < current && t !in live
    ensures FillsUp(live, start, t)
  {
    assert t < current - 1 && current - 1 in live;
  }

  /** The last recycled frame made live. */
  lemma {:induction false} DropLast(rest: seq<nat>, t: nat, live: set<nat>, start: nat, current: nat)
    requires Split(multiset(rest + [t]), live, start, current) && Tight(live, start, current)
    ensures start <= t < current && t !in live
    ensures Split(multiset(rest), live + {t}, start, current) && Tight(live + {t}, start, current)
  {
    var m, m' := multiset(rest + [t]), multiset(rest);
    assert m == m' + multiset{t} && t in m;
    forall f | f in m' ensures m'[f] == 1 && start <= f < current && f !in live + {t} {
      assert f in m && m[f] == 1;
    }
    forall f | start <= f < current ensures f in live + {t} || f in m' {
      assert f in live || f in m;
    }
  }

  /** With nothing recycled the mark can rise if it is not at the end, and else nothing is free. */
  lemma {:induction false} Advance(m: multiset<nat>, live: set<nat>, start: nat, current: nat, end: nat)
    requires Split(m, live, start, current) && |m| == 0 && current <= end
    ensures current == end ==> FreeFrames(live, start, end) == {}
    ensures current !in live && Split(m, live + {current}, start, current + 1)
    ensures Tight(live + {current}, start, current + 1)
  {
    RangeHas(start, end);
    assert m == multiset{};
  }

  /** The test of frame_dealloc: it admits the live frames and what is below the first. A frame is live
      below the mark, so the heap of recycled ones is full only if there are no frames. */
  lemma {:induction false} Guarded(m: multiset<nat>, live: set<nat>, start: nat, current: nat, end: nat, f: nat)
    requires Parted(m, live, start, current) && current <= end
    ensures (f < current && f !in m) <==> (f in live || f < start)
    ensures (|m| < end - start <==> start < end) && (f in live ==> start <= f < end)
    ensures current - |m| == start + |live| && start <= current
  {
    assert OpenSplit(Key);
    GuardExact(m, live, start, current, f);
    assert current > start ==> |live| > 0;
  }

  lemma {:induction false} Marked(m: multiset<nat>, live: set<nat>, start: nat, current: nat)
    requires Parted(m, live, start, current)
    ensures Tight(live, start, current) && start <= current && forall f :: f in live ==> f < current
  {
    assert OpenSplit(Key);
  }

  /** What frame_dealloc admits: a live frame, or a number below the first frame, for which all the
      frames in between count as taken. */
  lemma {:induction false} Admitted(m: multiset<nat>, live: set<nat>, start: nat, current: nat, f: nat)
      returns (low: nat, kept: set<nat>)
    requires Parted(m, live, start, current) && f < current && f !in m
    ensures if start <= f then low == start && kept == live - {f} else low == f && Padded(live, kept, start, f)
    ensures Admits(m, f, kept, low, current)
  {
    assert OpenSplit(Key);
    GuardExact(m, live, start, current, f);
    if start <= f {
      low, kept := start, live - {f};
      Released(m, live, start, current, f);
    } else {
      low, kept := f, live + Range(f + 1, start);
      RangeHas(f + 1, start);
      PadLive(live, Range(f + 1, start), start, f);
      AdmittedBelow(m, live, kept, start, current, f);
    }
  }

  /** The live frames and the numbers between f and the first frame. */
  ghost predicate Padded(live: set<nat>, kept: set<nat>, start: nat, f: nat) {
    && |kept| == |live| + start - 1 - f && f !in kept
    && forall x :: x in kept <==> x in live || f < x < start
  }

  lemma {:induction false} PadLive(live: set<nat>, gap: set<nat>, start: nat, f: nat)
    requires f < start && |gap| == start - 1 - f && (forall x :: x in gap <==> f < x < start)
    requires forall x :: x in live ==> start <= x
    ensures Padded(live, live + gap, start, f)
  {
    assert live !! gap;
  }

  lemma {:induction false} AdmittedBelow(m: multiset<nat>, live: set<nat>, kept: set<nat>, start: nat, current: nat,
                                         f: nat)
    requires Split(m, live, start, current) && f < start && Padded(live, kept, start, f)
    ensures Split(m + multiset{f}, kept, f, current)
  {
    var m' := m + multiset{f};
    forall x | x in m' ensures m'[x] == 1 && f <= x < current && x !in kept {
      assert x == f || (x in m && m[x] == 1);
    }
  }

  /** Where a number below the first frame is afterwards. */
  lemma {:induction false} Misplaced(m: multiset<nat>, live: set<nat>, kept: set<nat>, start: nat, current: nat, f: nat)
    requires f < start && Parted(m, kept, f, current) && Padded(live, kept, start, f)
    ensures (f in m || f == current) && !Parted(m, live, start, current)
    ensures current - |m| == |live| + start - 1
  {
    assert OpenSplit(Key);
    assert f < current ==> f in m;
  }

  /** A live frame moved to the recycled ones. */
  lemma {:induction false} Released(m: multiset<nat>, live: set<nat>, start: nat, current: nat, f: nat)
    requires Split(m, live, start, current) && f in live
    ensures Split(m + multiset{f}, live - {f}, start, current)
  {
  }

  /** The recycled frame just below the mark given up. */
  lemma {:induction false} Lowered(m: multiset<nat>, m': multiset<nat>, live: set<nat>, start: nat, current: nat)
    requires Split(m, live, start, current) && 0 < current && current - 1 in m && m' + multiset{current - 1} == m
    ensures Split(m', live, start, current - 1)
  {
    forall f | f in m' ensures m'[f] == 1 && start <= f < current - 1 && f !in live {
      assert f in m && m[f] == 1;
    }
    forall f | start <= f < current - 1 ensures f in live || f in m' {
      assert f in live || f in m;
    }
  }

  ghost predicate OpenTop(k: Key) {
    true
  }

  /** What heap_top reads: the largest recycled frame, or the mark when the loop has emptied the heap. */
  ghost predicate AtTop(m: multiset<nat>, live: set<nat>, start: nat, current: nat, top: nat) {
    forall k: Key {:trigger OpenTop(k)} :: OpenTop(k) ==>
      Split(m, live, start, current) && if |m| == 0 then top == current else Largest(m, top)
  }

  lemma {:induction false} NotBelow(m: multiset<nat>, live: set<nat>, start: nat, current: nat, top: nat)
    requires AtTop(m, live, start, current, top) && top != current - 1
    ensures Split(m, live, start, current) && Tight(live, start, current)
  {
    assert OpenTop(Key);
    assert top in m ==> top < current;
    assert current > start ==> current - 1 in live || current - 1 in m;
  }

  /** frame_dealloc's own test, `ppn < current` and not recycled, lets through exactly the live frames
      and every number below the first frame. */
  lemma {:induction false} GuardExact(recycled: multiset<nat>, live: set<nat>, start: nat, current: nat, ppn: nat)
    requires Split(recycled, live, start, current)
    ensures (ppn < current && ppn !in recycled) <==> (ppn in live || ppn < start)
  {
    if ppn in live {
      assert start <= ppn < current;
    }
  }
}
