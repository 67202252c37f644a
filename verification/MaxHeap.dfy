/** The binary max-heap that holds recycled frame numbers. */
module MaxHeap {
  import opened Bytes

  function LeftChild(pos: nat): nat {
    2 * pos + 1
  }

  function RightChild(pos: nat): nat {
    2 * pos + 2
  }

  function ParentOf(pos: nat): (p: nat)
    ensures 0 < pos ==> p < pos && (pos == LeftChild(p) || pos == RightChild(p))
  {
    if pos == 0 then 0 else (pos - 1) / 2
  }

  /** No element is larger than its parent. */
  ghost predicate IsHeap(s: seq<nat>) {
    forall k :: 0 < k < |s| ==> s[k] <= s[ParentOf(k)]
  }

  /** A heap but for the element at pos, which may be larger than its parent; the children of pos are
      not larger than the parent of pos. */
  ghost predicate HeapAbove(s: seq<nat>, pos: nat) {
    && pos < |s|
    && (forall k :: 0 < k < |s| && k != pos ==> s[k] <= s[ParentOf(k)])
    && (forall k :: 0 < k < |s| && 0 < pos && ParentOf(k) == pos ==> s[k] <= s[ParentOf(pos)])
  }

  /** A heap but for the element at pos, which may be smaller than its children. */
  ghost predicate HeapBelow(s: seq<nat>, pos: nat) {
    && pos < |s|
    && (forall k :: 0 < k < |s| && ParentOf(k) != pos ==> s[k] <= s[ParentOf(k)])
    && (forall k :: 0 < k < |s| && 0 < pos && ParentOf(k) == pos ==> s[k] <= s[ParentOf(pos)])
  }

  /** s with the elements at i and j exchanged. */
  function Swapped(s: seq<nat>, i: nat, j: nat): seq<nat>
    requires i < |s| && j < |s|
  {
    s[i := s[j]][j := s[i]]
  }

  lemma {:induction false} SwapKeeps(s: seq<nat>, i: nat, j: nat)
    requires i < |s| && j < |s|
    ensures multiset(Swapped(s, i, j)) == multiset(s)
  {
  }

  lemma {:induction false} SwapUp(s: seq<nat>, pos: nat)
    requires HeapAbove(s, pos) && 0 < pos && s[ParentOf(pos)] < s[pos]
    ensures HeapAbove(Swapped(s, pos, ParentOf(pos)), ParentOf(pos))
  {
    var p := ParentOf(pos);
    var t := Swapped(s, pos, p);
    forall k | 0 < k < |t| && k != p ensures t[k] <= t[ParentOf(k)] {
      assert 0 < p ==> s[p] <= s[ParentOf(p)];
      assert k != pos ==> s[k] <= s[ParentOf(k)];
    }
    forall k | 0 < k < |t| && 0 < p && ParentOf(k) == p ensures t[k] <= t[ParentOf(p)] {
      assert s[p] <= s[ParentOf(p)];
      assert k != pos ==> s[k] <= s[ParentOf(k)];
    }
  }

  lemma {:induction false} SwapDown(s: seq<nat>, pos: nat, c: nat)
    requires HeapBelow(s, pos) && LargerChild(s, pos, c) && s[pos] < s[c]
    ensures HeapBelow(Swapped(s, pos, c), c)
  {
    ChildrenOf(s, pos, c);
    var t := Swapped(s, pos, c);
    forall k | 0 < k < |t| && ParentOf(k) != c ensures t[k] <= t[ParentOf(k)] {
      assert ParentOf(k) != pos ==> s[k] <= s[ParentOf(k)];
    }
    forall k | 0 < k < |t| && ParentOf(k) == c ensures t[k] <= t[ParentOf(c)] {
      assert s[k] <= s[ParentOf(k)];
    }
  }

  ghost predicate OpenSift(k: Key) {
    true
  }

  /** While temp is lifted out of position pos: putting it back there gives the elements of s0 in an
      order that is a heap but for pos. */
  ghost predicate Rising(s: seq<nat>, pos: nat, temp: nat, s0: seq<nat>) {
    pos < |s| && forall k: Key {:trigger OpenSift(k)} :: OpenSift(k) ==>
      HeapAbove(s[pos := temp], pos) && multiset(s[pos := temp]) == multiset(s0)
  }

  ghost predicate Sinking(s: seq<nat>, pos: nat, temp: nat, s0: seq<nat>) {
    pos < |s| && Below(s[pos := temp], pos, s0)
  }

  ghost predicate Below(view: seq<nat>, pos: nat, s0: seq<nat>) {
    forall k: Key {:trigger OpenSift(k)} :: OpenSift(k) ==> HeapBelow(view, pos) && multiset(view) == multiset(s0)
  }

  lemma {:induction false} BelowStep(view: seq<nat>, pos: nat, c: nat, s0: seq<nat>)
    requires Below(view, pos, s0) && LargerChild(view, pos, c) && view[pos] < view[c]
    ensures Below(Swapped(view, pos, c), c, s0)
  {
    assert OpenSift(Key);
    SwapDown(view, pos, c);
    SwapKeeps(view, pos, c);
  }

  lemma {:induction false} RiseStep(s: seq<nat>, pos: nat, temp: nat, s0: seq<nat>)
    requires Rising(s, pos, temp, s0) && 0 < pos && s[ParentOf(pos)] < temp
    ensures Rising(s[pos := s[ParentOf(pos)]], ParentOf(pos), temp, s0)
  {
    assert OpenSift(Key);
    var p, view := ParentOf(pos), s[pos := temp];
    SwapUp(view, pos);
    SwapKeeps(view, pos, p);
    assert s[pos := s[p]][p := temp] == Swapped(view, pos, p);
  }

  lemma {:induction false} RiseDone(s: seq<nat>, pos: nat, temp: nat, s0: seq<nat>)
    requires Rising(s, pos, temp, s0) && (0 < pos ==> temp <= s[ParentOf(pos)])
    ensures IsHeap(s[pos := temp]) && multiset(s[pos := temp]) == multiset(s0)
  {
    assert OpenSift(Key);
  }

  lemma {:induction false} StartSink(s: seq<nat>, pos: nat)
    requires HeapBelow(s, pos) && s[pos := s[pos]] == s
    ensures Sinking(s, pos, s[pos], s)
  {
  }

  lemma {:induction false} SinkStep(s: seq<nat>, pos: nat, c: nat, temp: nat, s0: seq<nat>)
    requires Sinking(s, pos, temp, s0) && LargerChild(s, pos, c) && temp < s[c]
    ensures Sinking(s[pos := s[c]], c, temp, s0)
  {
    var view := s[pos := temp];
    assert LargerChild(view, pos, c);
    BelowStep(view, pos, c, s0);
    assert s[pos := s[c]][c := temp] == Swapped(view, pos, c);
  }

  /** The element has its place where it has no child (c outside) or none is larger. */
  lemma {:induction false} SinkDone(s: seq<nat>, pos: nat, c: nat, temp: nat, s0: seq<nat>)
    requires Sinking(s, pos, temp, s0)
    requires |s| <= LeftChild(pos) || (LargerChild(s, pos, c) && s[c] <= temp)
    ensures IsHeap(s[pos := temp]) && multiset(s[pos := temp]) == multiset(s0)
  {
    assert OpenSift(Key);
    if LeftChild(pos) < |s| {
      ChildrenOf(s, pos, c);
    }
    var view := s[pos := temp];
    forall k | 0 < k < |view| ensures view[k] <= view[ParentOf(k)] {
      assert ParentOf(k) != pos ==> view[k] <= view[ParentOf(k)];
    }
  }

  /** c is the larger child of i. */
  ghost predicate LargerChild(s: seq<nat>, i: nat, c: nat) {
    && i < c < |s| && (c == LeftChild(i) || c == RightChild(i))
    && s[c] >= s[LeftChild(i)] && (RightChild(i) < |s| ==> s[c] >= s[RightChild(i)])
  }

  lemma {:induction false} ChildrenOf(s: seq<nat>, i: nat, c: nat)
    requires LargerChild(s, i, c)
    ensures ParentOf(c) == i && forall k :: 0 < k < |s| && ParentOf(k) == i ==> s[k] <= s[c]
  {
  }

  /** The root of a heap is its largest element. */
  lemma {:induction false} RootLargest(s: seq<nat>, k: nat)
    requires IsHeap(s) && k < |s|
    ensures s[k] <= s[0]
  {
    if k > 0 {
      RootLargest(s, ParentOf(k));
    }
  }

  ghost predicate Largest(m: multiset<nat>, t: nat) {
    t in m && forall x :: x in m ==> x <= t
  }

  /** The last element taken off a sequence. */
  lemma {:induction false} TakeLast(s: seq<nat>)
    requires s != []
    ensures multiset(s) == multiset(s[..|s| - 1]) + multiset{s[|s| - 1]}
  {
    assert s == s[..|s| - 1] + [s[|s| - 1]];
  }

  class Heap {
    const heapArray: array<nat>
    const MaxSize: nat
    var CurrentSize: nat

    ghost predicate Valid()
      reads this, heapArray
    {
      CurrentSize <= MaxSize == heapArray.Length && IsHeap(Elements())
    }

    ghost function Elements(): (s: seq<nat>)
      reads this, heapArray
    {
      if CurrentSize <= heapArray.Length then heapArray[..CurrentSize] else []
    }

    /** heap_init */
    constructor (n: nat)
      ensures Valid() && fresh(heapArray) && MaxSize == n && Elements() == []
    {
      MaxSize := n;
      CurrentSize := 0;
      heapArray := new nat[n];
    }

    /** heap_empty */
    predicate Empty()
      reads this
    {
      CurrentSize == 0
    }

    /** heap_SiftUp: moves larger ancestors down until the element at pos has its place. */
    method SiftUp(pos: nat)
      requires pos < heapArray.Length && HeapAbove(heapArray[..pos + 1], pos)
      modifies heapArray
      ensures IsHeap(heapArray[..pos + 1]) && multiset(heapArray[..pos + 1]) == multiset(old(heapArray[..pos + 1]))
    {
      var temppos: nat, temp := pos, heapArray[pos];
      ghost var s0 := heapArray[..pos + 1];
      assert s0[pos := temp] == s0;
      while temppos > 0 && heapArray[ParentOf(temppos)] < temp
        invariant temppos <= pos && Rising(heapArray[..pos + 1], temppos, temp, s0)
      {
        var p := ParentOf(temppos);
        ghost var s := heapArray[..pos + 1];
        RiseStep(s, temppos, temp, s0);
        heapArray[temppos] := heapArray[p];
        assert heapArray[..pos + 1] == s[temppos := s[p]];
        temppos := p;
      }
      ghost var s := heapArray[..pos + 1];
      RiseDone(s, temppos, temp, s0);
      heapArray[temppos] := temp;
      assert heapArray[..pos + 1] == s[temppos := temp];
    }

    /** heap_SiftDown: moves larger children up until the element at pos has its place. */
    method SiftDown(pos: nat)
      requires CurrentSize <= heapArray.Length && HeapBelow(heapArray[..CurrentSize], pos)
      modifies heapArray
      ensures IsHeap(heapArray[..CurrentSize])
      ensures multiset(heapArray[..CurrentSize]) == multiset(old(heapArray[..CurrentSize]))
    {
      ghost var s := heapArray[..CurrentSize];
      assert s[pos := s[pos]] == s;
      StartSink(s, pos);
      Sink(pos, heapArray[pos], s);
    }

    /** The loop of heap_SiftDown, with temp lifted out of position pos. */
    method Sink(pos: nat, temp: nat, ghost s0: seq<nat>)
      requires pos < CurrentSize <= heapArray.Length && Sinking(heapArray[..CurrentSize], pos, temp, s0)
      modifies heapArray
      ensures IsHeap(heapArray[..CurrentSize]) && multiset(heapArray[..CurrentSize]) == multiset(s0)
    {
      var n := CurrentSize;
      var i: nat, j: nat := pos, 2 * pos + 1;
      while j < n
        invariant i < n && j == LeftChild(i) && Sinking(heapArray[..n], i, temp, s0)
        decreases n - i
      {
        ghost var s := heapArray[..n];
        if j < n - 1 && heapArray[j] < heapArray[j + 1] {
          j := j + 1;
        }
        if temp < heapArray[j] {
          SinkStep(s, i, j, temp, s0);
          heapArray[i] := heapArray[j];
          assert heapArray[..n] == s[i := s[j]];
          i := j;
          j := 2 * j + 1;
        } else {
          SinkDone(s, i, j, temp, s0);
          Finish(i, temp, s);
          return;
        }
      }
      SinkDone(heapArray[..n], i, n, temp, s0);
      Finish(i, temp, heapArray[..n]);
    }

    /** The last store of heap_SiftDown. */
    method Finish(i: nat, temp: nat, ghost s: seq<nat>)
      requires i < CurrentSize <= heapArray.Length && s == heapArray[..CurrentSize]
      modifies heapArray
      ensures heapArray[..CurrentSize] == s[i := temp]
    {
      heapArray[i] := temp;
    }

    /** heap_insert; false where the code panics. */
    method Insert(newnode: nat) returns (ok: bool)
      requires Valid()
      modifies this`CurrentSize, heapArray
      ensures Valid() && ok == (old(CurrentSize) < MaxSize)
      ensures multiset(Elements()) == old(multiset(Elements())) + (if ok then multiset{newnode} else multiset{})
      ensures CurrentSize == old(CurrentSize) + if ok then 1 else 0
    {
      if CurrentSize == MaxSize {
        return false;
      }
      ghost var before := heapArray[..CurrentSize];
      heapArray[CurrentSize] := newnode;
      assert heapArray[..CurrentSize + 1] == before + [newnode];
      SiftUp(CurrentSize);
      CurrentSize := CurrentSize + 1;
      return true;
    }

    /** The exchange of the first and the last element in heap_removeMax. */
    method ExchangeEnds()
      requires Valid() && 0 < CurrentSize
      modifies heapArray
      ensures heapArray[CurrentSize - 1] == old(heapArray[0])
      ensures CurrentSize == 1 ==> heapArray[0] == old(heapArray[0])
      ensures multiset(heapArray[..CurrentSize - 1]) + multiset{old(heapArray[0])} == old(multiset(Elements()))
      ensures CurrentSize > 1 ==> HeapBelow(heapArray[..CurrentSize - 1], 0)
    {
      ghost var s, n := heapArray[..CurrentSize], CurrentSize;
      var t := heapArray[0];
      heapArray[0] := heapArray[CurrentSize - 1];
      heapArray[CurrentSize - 1] := t;
      assert heapArray[..n] == Swapped(s, 0, n - 1);
      assert heapArray[..n - 1] == heapArray[..n][..n - 1];
      Exchanged(s, heapArray[..n]);
    }

    /** heap_removeMax; false where the code panics. The removed element stays behind the end, and is
        what heap_top reads when the heap has become empty. */
    method RemoveMax() returns (ok: bool)
      requires Valid()
      modifies this`CurrentSize, heapArray
      ensures Valid() && ok == (old(CurrentSize) > 0)
      ensures ok ==> CurrentSize == old(CurrentSize) - 1
      ensures ok ==> multiset(Elements()) + multiset{old(heapArray[0])} == old(multiset(Elements()))
      ensures ok && CurrentSize == 0 ==> heapArray[0] == old(heapArray[0])
      ensures !ok ==> Elements() == old(Elements())
    {
      if Empty() {
        return false;
      }
      ExchangeEnds();
      CurrentSize := CurrentSize - 1;
      if CurrentSize > 1 {
        SiftDown(0);
      }
      return true;
    }

    /** Taking the last element of the array, which need not be the largest. */
    method PopLast() returns (t: nat)
      requires Valid() && 0 < CurrentSize
      modifies this`CurrentSize
      ensures Valid() && old(Elements()) == Elements() + [t]
    {
      t := heapArray[CurrentSize - 1];
      ghost var s := Elements();
      CurrentSize := CurrentSize - 1;
      assert Elements() == s[..|s| - 1];
    }

    /** heap_top */
    method Top() returns (t: nat)
      requires Valid() && 0 < MaxSize
      ensures t == heapArray[0]
      ensures CurrentSize > 0 ==> Largest(multiset(Elements()), t)
    {
      t := heapArray[0];
      forall k | 0 <= k < CurrentSize ensures Elements()[k] <= t {
        RootLargest(Elements(), k);
      }
      assert forall x :: x in multiset(Elements()) ==> x in Elements();
    }

    /** is_some */
    method IsSome(ppn: nat) returns (r: bool)
      requires Valid()
      ensures r <==> ppn in Elements()
    {
      for i := 0 to CurrentSize
        invariant ppn !in Elements()[..i]
      {
        if heapArray[i] == ppn {
          return true;
        }
      }
      return false;
    }
  }

  /** Exchanging the root of a heap with its last element and leaving that out. */
  lemma {:induction false} Exchanged(s: seq<nat>, t: seq<nat>)
    requires IsHeap(s) && 0 < |s| && t == Swapped(s, 0, |s| - 1)
    ensures multiset(t[..|s| - 1]) + multiset{s[0]} == multiset(s)
    ensures |s| > 1 ==> HeapBelow(t[..|s| - 1], 0)
  {
    SwapKeeps(s, 0, |s| - 1);
    TakeLast(t);
    var u := t[..|s| - 1];
    forall k | 0 < k < |u| && ParentOf(k) != 0 ensures u[k] <= u[ParentOf(k)] {
      assert s[k] <= s[ParentOf(k)];
    }
  }
}
