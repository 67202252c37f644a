/** Whole runs of frame_alloc and frame_dealloc. */
module FrameRuns {
  import opened FrameAllocator

  datatype FrameOp = Take | Give(ppn: nat)

  /** The live frames after n operations with these results. */
  ghost function LiveAfter(live: set<nat>, ops: seq<FrameOp>, results: seq<Option>, n: nat): set<nat>
    requires n <= |ops| && n <= |results|
  {
    if n == 0 then live
    else
      var before := LiveAfter(live, ops, results, n - 1);
      match ops[n - 1]
      case Take => if results[n - 1].Some? then before + {results[n - 1].frame} else before
      case Give(ppn) => before - {ppn}
  }

  /** The result of one operation where live frames are live: a frame that was free, or None (the
      panic) exactly when none was; a given frame is accepted exactly when it is live. */
  ghost predicate Answered(live: set<nat>, start: nat, end: nat, op: FrameOp, r: Option) {
    match op
    case Take =>
      (r.None? <==> FreeFrames(live, start, end) == {}) && (r.Some? ==> r.frame in FreeFrames(live, start, end))
    case Give(ppn) => r.Some? <==> ppn in live
  }

  ghost predicate AllAnswered(live: set<nat>, start: nat, end: nat, ops: seq<FrameOp>, results: seq<Option>) {
    |results| <= |ops| &&
    forall i :: 0 <= i < |results| ==> Answered(LiveAfter(live, ops, results, i), start, end, ops[i], results[i])
  }

  lemma {:induction false} LivePrefix(live: set<nat>, ops: seq<FrameOp>, results: seq<Option>, r: Option, n: nat)
    requires n <= |ops| && n <= |results|
    ensures LiveAfter(live, ops, results + [r], n) == LiveAfter(live, ops, results, n)
  {
    if n > 0 {
      LivePrefix(live, ops, results, r, n - 1);
    }
  }

  lemma {:induction false} Extend(live: set<nat>, start: nat, end: nat, ops: seq<FrameOp>, results: seq<Option>,
                                  r: Option)
    requires AllAnswered(live, start, end, ops, results) && |results| < |ops|
    requires Answered(LiveAfter(live, ops, results, |results|), start, end, ops[|results|], r)
    ensures AllAnswered(live, start, end, ops, results + [r])
  {
    forall i | 0 <= i < |results + [r]|
      ensures Answered(LiveAfter(live, ops, results + [r], i), start, end, ops[i], (results + [r])[i])
    {
      LivePrefix(live, ops, results, r, i);
    }
  }

  /** Any series of operations on frames of the allocator's range; at the end the mark is the least
      one with nothing live from it on, and frame_remain_size counts the free frames exactly. */
  method Run(fa: Frames, ops: seq<FrameOp>) returns (results: seq<Option>, remain: nat)
    requires fa.Valid() && forall i :: 0 <= i < |ops| && ops[i].Give? ==> fa.start <= ops[i].ppn
    modifies fa, fa.recycled, fa.recycled.heapArray
    ensures fa.Valid() && |results| == |ops| && AllAnswered(old(fa.live), fa.start, fa.end, ops, results)
    ensures fa.live == LiveAfter(old(fa.live), ops, results, |ops|)
    ensures remain == |FreeFrames(fa.live, fa.start, fa.end)|
  {
    results := [];
    ghost var live0 := fa.live;
    for n := 0 to |ops|
      invariant fa.Valid() && |results| == n && AllAnswered(live0, fa.start, fa.end, ops, results)
      invariant fa.live == LiveAfter(live0, ops, results, n)
    {
      var r := Step(fa, ops[n]);
      Extend(live0, fa.start, fa.end, ops, results, r);
      LivePrefix(live0, ops, results, r, n);
      results := results + [r];
    }
    remain := fa.RemainSize();
  }

  method Step(fa: Frames, op: FrameOp) returns (r: Option)
    requires fa.Valid() && (op.Give? ==> fa.start <= op.ppn)
    modifies fa, fa.recycled, fa.recycled.heapArray
    ensures fa.Valid() && Answered(old(fa.live), fa.start, fa.end, op, r)
    ensures fa.live == LiveAfter(old(fa.live), [op], [r], 1)
  {
    match op
    case Take =>
      r := fa.Alloc();
    case Give(ppn) =>
      var ok := fa.Dealloc(ppn);
      r := if ok then Some(ppn) else None;
  }

  /** No frame is handed out twice unless it was given back in between. */
  lemma {:induction false} NotTwice(live: set<nat>, start: nat, end: nat, ops: seq<FrameOp>, results: seq<Option>,
                                    i: nat, k: nat)
    requires AllAnswered(live, start, end, ops, results) && i < k < |results|
    requires ops[i].Take? && ops[k].Take? && results[i].Some? && results[k] == results[i]
    ensures exists j :: i < j < k && ops[j] == Give(results[i].frame)
  {
    var f := results[i].frame;
    assert Answered(LiveAfter(live, ops, results, k), start, end, ops[k], results[k]);
    if forall j :: i < j < k ==> ops[j] != Give(f) {
      StaysLive(live, ops, results, f, i, k);
    }
  }

  lemma {:induction false} StaysLive(live: set<nat>, ops: seq<FrameOp>, results: seq<Option>, f: nat, i: nat, k: nat)
    requires |results| <= |ops| && i < k <= |results| && ops[i].Take? && results[i] == Some(f)
    requires forall j :: i < j < k ==> ops[j] != Give(f)
    ensures f in LiveAfter(live, ops, results, k)
    decreases k
  {
    if i + 1 < k {
      StaysLive(live, ops, results, f, i, k - 1);
    }
  }
}
