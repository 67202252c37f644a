/** Whole runs of the buddy allocator, what every node's value means, and the merge rule of a free. */
module BuddyRuns {
  import opened Bytes
  import opened BuddyTree
  import opened BuddyArith
  import opened Buddy

  /** An aligned block of 2^j bytes at o, within 2^H bytes and clear of every block of live. */
  ghost predicate Fits(live: set<Block>, H: nat, o: int, j: nat) {
    && 0 <= o && Inside(Block(o, j), 0, H) && Aligned(o, j)
    && forall b :: b in live ==> Apart(b, Block(o, j))
  }

  /** The blocks that the first n requests of a run were given. */
  ghost function Given(requests: seq<bv32>, results: seq<int>, n: nat): set<Block>
    requires n <= |requests| && n <= |results|
  {
    if n == 0 then {}
    else if results[n - 1] < 0 then Given(requests, results, n - 1)
    else Given(requests, results, n - 1) + {Block(results[n - 1], LogOfRequest(requests[n - 1]))}
  }

  /** The sum of their rounded sizes. */
  ghost function GivenBytes(requests: seq<bv32>, results: seq<int>, n: nat): nat
    requires n <= |requests| && n <= |results|
  {
    if n == 0 then 0
    else if results[n - 1] < 0 then GivenBytes(requests, results, n - 1)
    else GivenBytes(requests, results, n - 1) + Rounded(requests[n - 1]) as int
  }

  lemma {:induction false} GivenPrefix(requests: seq<bv32>, results: seq<int>, r: int, n: nat)
    requires n <= |requests| && n <= |results|
    ensures Given(requests, results + [r], n) == Given(requests, results, n)
    ensures GivenBytes(requests, results + [r], n) == GivenBytes(requests, results, n)
  {
    if n > 0 {
      GivenPrefix(requests, results, r, n - 1);
    }
  }

  lemma {:induction false} GivenHas(requests: seq<bv32>, results: seq<int>, i: nat, n: nat)
    requires i < n <= |requests| && n <= |results| && 0 <= results[i]
    ensures Block(results[i], LogOfRequest(requests[i])) in Given(requests, results, n)
    decreases n
  {
    if i < n - 1 {
      GivenHas(requests, results, i, n - 1);
    }
  }

  /** The answer to request i: the lowest block clear of everything live at that time, or none exactly
      when there is no such block. */
  ghost predicate Answered(live: set<Block>, H: nat, r: int, j: nat) {
    && NO_BLOCK <= r
    && (r == NO_BLOCK <==> forall o :: !Fits(live, H, o, j))
    && (r != NO_BLOCK ==> Fits(live, H, r, j) && forall o :: Fits(live, H, o, j) ==> r <= o)
  }

  ghost predicate AllAnswered(live: set<Block>, H: nat, requests: seq<bv32>, results: seq<int>) {
    |results| <= |requests| &&
    forall i :: 0 <= i < |results| ==>
      Answered(live + Given(requests, results, i), H, results[i], LogOfRequest(requests[i]))
  }

  /** Any series of buddy_alloc calls. */
  method Run(b: BitmapBuddy, requests: seq<bv32>) returns (results: seq<int>)
    requires b.Valid() && forall i :: 0 <= i < |requests| ==> requests[i] <= 0x8000_0000
    modifies b, b.bbt
    ensures b.Valid() && |results| == |requests|
    ensures AllAnswered(old(Live(b.tree, b.H, 0)), b.H, requests, results)
    ensures Live(b.tree, b.H, 0) == old(Live(b.tree, b.H, 0)) + Given(requests, results, |requests|)
    ensures UsedBytes(b.tree, b.H) == old(UsedBytes(b.tree, b.H)) + GivenBytes(requests, results, |requests|)
  {
    results := [];
    ghost var live0, used0 := Live(b.tree, b.H, 0), UsedBytes(b.tree, b.H);
    for n := 0 to |requests|
      invariant b.Valid() && |results| == n
      invariant Ran(live0, used0, Live(b.tree, b.H, 0), UsedBytes(b.tree, b.H), b.H, requests, results)
    {
      ghost var live, used := Live(b.tree, b.H, 0), UsedBytes(b.tree, b.H);
      var r := Step(b, requests[n]);
      RanStep(live0, used0, live, used, b.H, requests, results, r);
      results := results + [r];
    }
    assert OpenRun(Key);
  }

  ghost predicate OpenRun(k: Key) {
    true
  }

  /** What holds after the calls whose results are known. */
  ghost predicate Ran(live0: set<Block>, used0: nat, live: set<Block>, used: nat, H: nat, requests: seq<bv32>,
                      results: seq<int>) {
    && |results| <= |requests|
    && forall k: Key {:trigger OpenRun(k)} :: OpenRun(k) ==>
         && AllAnswered(live0, H, requests, results)
         && live == live0 + Given(requests, results, |results|)
         && used == used0 + GivenBytes(requests, results, |results|)
  }

  lemma {:induction false} RanStep(live0: set<Block>, used0: nat, live: set<Block>, used: nat, H: nat,
                                   requests: seq<bv32>, results: seq<int>, r: int)
    requires Ran(live0, used0, live, used, H, requests, results) && |results| < |requests|
    requires Answered(live, H, r, LogOfRequest(requests[|results|]))
    ensures Ran(live0, used0, live + (if r < 0 then {} else {Block(r, LogOfRequest(requests[|results|]))}),
                used + (if r < 0 then 0 else Rounded(requests[|results|]) as int), H, requests, results + [r])
  {
    assert OpenRun(Key);
    var n := |results|;
    Extend(live0, H, requests, results, r);
    GivenMore(live0, requests, results, r);
  }

  /** One result more. */
  lemma {:induction false} GivenMore(live0: set<Block>, requests: seq<bv32>, results: seq<int>, r: int)
    requires |results| < |requests|
    ensures var n, j := |results|, LogOfRequest(requests[|results|]);
            && live0 + Given(requests, results + [r], n + 1) ==
               live0 + Given(requests, results, n) + (if r < 0 then {} else {Block(r, j)})
            && GivenBytes(requests, results + [r], n + 1) ==
               GivenBytes(requests, results, n) + (if r < 0 then 0 else Rounded(requests[n]) as int)
  {
    var n := |results|;
    GivenPrefix(requests, results, r, n);
    GivenStep(live0, Given(requests, results, n), requests, results + [r], n);
    GivenBytesStep(requests, results + [r], n);
  }

  lemma {:induction false} GivenBytesStep(requests: seq<bv32>, results: seq<int>, n: nat)
    requires n < |requests| && n < |results|
    ensures GivenBytes(requests, results, n + 1) ==
            GivenBytes(requests, results, n) + (if results[n] < 0 then 0 else Rounded(requests[n]) as int)
  {
  }

  lemma {:induction false} GivenStep(live: set<Block>, before: set<Block>, requests: seq<bv32>, results: seq<int>,
                                     n: nat)
    requires n < |requests| && n < |results| && before == Given(requests, results, n)
    ensures live + Given(requests, results, n + 1) ==
            (live + before) + (if results[n] < 0 then {} else {Block(results[n], LogOfRequest(requests[n]))})
  {
  }

  /** One call, in terms of blocks. */
  method Step(b: BitmapBuddy, request: bv32) returns (r: int)
    requires b.Valid() && request <= 0x8000_0000
    modifies b, b.bbt
    ensures b.Valid() && Answered(old(Live(b.tree, b.H, 0)), b.H, r, LogOfRequest(request))
    ensures Live(b.tree, b.H, 0) ==
            old(Live(b.tree, b.H, 0)) + (if r < 0 then {} else {Block(r, LogOfRequest(request))})
    ensures UsedBytes(b.tree, b.H) == old(UsedBytes(b.tree, b.H)) + (if r < 0 then 0 else Rounded(request) as int)
  {
    RoundedIs(request);
    FitsIsFree(b.tree, b.H, LogOfRequest(request));
    r := b.Alloc(request);
  }

  lemma {:induction false} FitsIsFree(tree: Tree, H: nat, j: nat)
    ensures forall o: nat :: Fits(Live(tree, H, 0), H, o, j) <==> FreeBlock(tree, H, 0, o, j)
    ensures (exists o: int :: Fits(Live(tree, H, 0), H, o, j)) <==> (exists o: nat :: FreeBlock(tree, H, 0, o, j))
  {
    forall o: int | Fits(Live(tree, H, 0), H, o, j) ensures 0 <= o && FreeBlock(tree, H, 0, o, j) {
    }
    forall o: nat | FreeBlock(tree, H, 0, o, j) ensures Fits(Live(tree, H, 0), H, o, j) {
    }
  }

  lemma {:induction false} Extend(live: set<Block>, H: nat, requests: seq<bv32>, results: seq<int>, r: int)
    requires AllAnswered(live, H, requests, results) && |results| < |requests|
    requires Answered(live + Given(requests, results, |results|), H, r, LogOfRequest(requests[|results|]))
    ensures AllAnswered(live, H, requests, results + [r])
  {
    var results' := results + [r];
    forall i | 0 <= i < |results'|
      ensures Answered(live + Given(requests, results', i), H, results'[i], LogOfRequest(requests[i]))
    {
      GivenPrefix(requests, results, r, i);
      if i < |results| {
        assert results'[i] == results[i];
      }
    }
  }

  /** No two blocks handed out in one run overlap. */
  lemma {:induction false} HandedOutApart(live: set<Block>, H: nat, requests: seq<bv32>, results: seq<int>, i: nat,
                                          n: nat)
    requires AllAnswered(live, H, requests, results) && i < n < |results| && 0 <= results[i] && 0 <= results[n]
    ensures Apart(Block(results[i], LogOfRequest(requests[i])), Block(results[n], LogOfRequest(requests[n])))
  {
    GivenHas(requests, results, i, n);
    assert Answered(live + Given(requests, results, n), H, results[n], LogOfRequest(requests[n]));
  }

  /** A new heap and any series of requests: what remains is exactly what was not handed out. */
  method RunFromNew(size: int, mem: array<bv8>, bytes: seq<byte>, requests: seq<bv32>)
      returns (b: BitmapBuddy, results: seq<int>, remain: int)
    requires 128 <= size <= 0x2000_0000 && PowerTest(size) && TableBytes(size) <= mem.Length && |bytes| == size
    requires forall i :: 0 <= i < |requests| ==> requests[i] <= 0x8000_0000
    modifies mem
    ensures b.Valid() && fresh(b) && b.size == size && |results| == |requests|
    ensures AllAnswered({}, b.H, requests, results)
    ensures Live(b.tree, b.H, 0) == Given(requests, results, |requests|)
    ensures remain == size - GivenBytes(requests, results, |requests|)
  {
    b := BuddyNew(size, mem, bytes);
    results := Run(b, requests);
    remain := b.RemainSize();
    assert {} + Given(requests, results, |requests|) == Given(requests, results, |requests|);
  }

  // ----- the merge rule -----

  /** What buddy_free writes at a node of height k whose halves have the values l and r. */
  function MergeValue(l: nat, r: nat, k: nat): nat {
    if l + r == k then k else Max(l, r)
  }

  /** It is the value of the node in exactly these cases: the sum of two logarithms tells neither that
      both halves are whole nor that they are not. */
  lemma {:induction false} MergeExact(l: Tree, r: Tree, k: nat)
    requires 5 <= k && TreeOk(l, k - 1) && TreeOk(r, k - 1)
    ensures var node := if l.Free? && r.Free? then Free else Split(l, r);
            && TreeOk(node, k)
            && (MergeValue(Value(l, k - 1), Value(r, k - 1), k) == Value(node, k) <==>
                !(l.Free? && r.Free?) && Value(l, k - 1) + Value(r, k - 1) != k)
  {
    ValueBound(l, k - 1);
    ValueBound(r, k - 1);
    var node := if l.Free? && r.Free? then Free else Split(l, r);
    ValueBound(node, k);
  }

  /** Freeing the one live block of a split node does not make it whole again, and two half-used
      halves can look whole: 3 + 4 == 7. */
  lemma {:induction false} MergeFails()
    ensures MergeValue(6, 6, 7) == 6 && MergeValue(3, 4, 7) == 7
    ensures exists l, r :: TreeOk(l, 6) && TreeOk(r, 6) && Value(l, 6) == 3 && Value(r, 6) == 4
  {
    var three := Split(Split(Split(Used, Free), Used), Used);
    var four := Split(Split(Used, Free), Used);
    assert TreeOk(three, 6) && TreeOk(four, 6) && Value(three, 6) == 3 && Value(four, 6) == 4;
  }
}
