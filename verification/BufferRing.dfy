/** The doubly linked ring of disk buffers. */
module BufferRing {
  import opened Bytes

  const NBUF := 39

  /** A buffer; the ring's head is one too, and comes after the others. */
  datatype Buf = Buf(valid: bool, dev: nat, sectorno: nat, refcnt: nat, prev: nat, next: nat, data: seq<byte>)

  const HEAD := NBUF

  ghost predicate Distinct(order: seq<nat>) {
    && (forall i :: 0 <= i < |order| ==> order[i] < NBUF)
    && (forall i, j :: 0 <= i < j < |order| ==> order[i] != order[j])
  }

  /** The i-th node on the way round, starting and ending at the head. */
  ghost function Node(order: seq<nat>, i: nat): nat {
    if 0 < i <= |order| then order[i - 1] else HEAD
  }

  ghost predicate OpenRing(k: Key) {
    true
  }

  ghost predicate LinkOk(bufs: seq<Buf>, a: nat, b: nat) {
    a < |bufs| && b < |bufs| && bufs[a].next == b && bufs[b].prev == a
  }

  /** The links visit the buffers of order, in this order. */
  ghost predicate Ring(bufs: seq<Buf>, order: seq<nat>) {
    && |bufs| == NBUF + 1
    && forall k: Key {:trigger OpenRing(k)} :: OpenRing(k) ==>
         && Distinct(order)
         && forall i {:trigger Node(order, i)} :: 0 <= i <= |order| ==> LinkOk(bufs, Node(order, i), Node(order, i + 1))
  }

  lemma {:induction false} RingAt(bufs: seq<Buf>, order: seq<nat>, i: nat)
    requires Ring(bufs, order) && i <= |order|
    ensures LinkOk(bufs, Node(order, i), Node(order, i + 1)) && Distinct(order)
  {
    assert OpenRing(Key);
    assert Node(order, i) == Node(order, i);
  }

  function SetNext(bufs: seq<Buf>, a: nat, b: nat): (r: seq<Buf>)
    requires a < |bufs|
    ensures |r| == |bufs|
  {
    bufs[a := bufs[a].(next := b)]
  }

  function SetPrev(bufs: seq<Buf>, a: nat, b: nat): (r: seq<Buf>)
    requires a < |bufs|
    ensures |r| == |bufs|
  {
    bufs[a := bufs[a].(prev := b)]
  }

  /** The four stores that put b behind the head. */
  function LinkFirst(bufs: seq<Buf>, b: nat): (r: seq<Buf>)
    requires b < NBUF && |bufs| == NBUF + 1 && bufs[HEAD].next <= HEAD
    ensures |r| == |bufs|
  {
    var s1 := SetNext(bufs, b, bufs[HEAD].next);
    var s2 := SetPrev(s1, b, HEAD);
    var s3 := SetPrev(s2, s2[HEAD].next, b);
    SetNext(s3, HEAD, b)
  }

  /** The two stores that take b out. */
  function Unlink(bufs: seq<Buf>, b: nat): (r: seq<Buf>)
    requires b < |bufs| && bufs[b].next < |bufs| && bufs[b].prev < |bufs|
    ensures |r| == |bufs|
  {
    var s1 := SetPrev(bufs, bufs[b].next, bufs[b].prev);
    SetNext(s1, s1[b].prev, s1[b].next)
  }

  /** Only links differ. */
  ghost predicate SameButLinks(bufs: seq<Buf>, bufs': seq<Buf>) {
    && |bufs'| == |bufs|
    && forall i :: 0 <= i < |bufs| ==> bufs'[i] == bufs[i].(prev := bufs'[i].prev, next := bufs'[i].next)
  }

  lemma {:induction false} LinkedFirst(bufs: seq<Buf>, order: seq<nat>, b: nat)
    requires Ring(bufs, order) && b < NBUF && b !in order
    ensures bufs[HEAD].next <= HEAD && Ring(LinkFirst(bufs, b), [b] + order) && SameButLinks(bufs, LinkFirst(bufs, b))
  {
    RingAt(bufs, order, 0);
    assert OpenRing(Key);
    var order', bufs' := [b] + order, LinkFirst(bufs, b);
    assert Distinct(order');
    forall i {:trigger Node(order', i)} | 0 <= i <= |order'|
      ensures LinkOk(bufs', Node(order', i), Node(order', i + 1))
    {
      LinkedFirstAt(bufs, order, b, i);
    }
  }

  lemma {:induction false} LinkedFirstAt(bufs: seq<Buf>, order: seq<nat>, b: nat, i: nat)
    requires Ring(bufs, order) && b < NBUF && b !in order && i <= |order| + 1 && bufs[HEAD].next <= HEAD
    ensures LinkOk(LinkFirst(bufs, b), Node([b] + order, i), Node([b] + order, i + 1))
  {
    RingAt(bufs, order, 0);
    assert bufs[HEAD].next == Node(order, 1);
    if i >= 2 {
      RingAt(bufs, order, i - 1);
      assert Node([b] + order, i) == Node(order, i - 1) && Node([b] + order, i + 1) == Node(order, i);
      NodesApart(order, i, 1);
    }
  }

  lemma {:induction false} NodesApart(order: seq<nat>, i: nat, j: nat)
    requires Distinct(order) && 0 < i <= |order| + 1 && 0 < j <= |order| + 1 && i != j
    ensures Node(order, i) != Node(order, j)
  {
  }

  lemma {:induction false} Unlinked(bufs: seq<Buf>, order: seq<nat>, p: nat)
    requires Ring(bufs, order) && p < |order|
    ensures var b := order[p];
            && b < NBUF && bufs[b].next < |bufs| && bufs[b].prev < |bufs|
            && Ring(Unlink(bufs, b), order[..p] + order[p + 1..]) && SameButLinks(bufs, Unlink(bufs, b))
  {
    var b := order[p];
    RingAt(bufs, order, p);
    RingAt(bufs, order, p + 1);
    assert OpenRing(Key);
    assert Node(order, p + 1) == b && bufs[b].prev == Node(order, p) && bufs[b].next == Node(order, p + 2);
    var order', bufs' := order[..p] + order[p + 1..], Unlink(bufs, b);
    forall i {:trigger Node(order', i)} | 0 <= i <= |order'|
      ensures LinkOk(bufs', Node(order', i), Node(order', i + 1))
    {
      UnlinkedAt(bufs, order, p, i);
    }
  }

  lemma {:induction false} UnlinkedAt(bufs: seq<Buf>, order: seq<nat>, p: nat, i: nat)
    requires Ring(bufs, order) && p < |order| && i < |order| && order[p] < NBUF
    requires bufs[order[p]].prev == Node(order, p) <= NBUF && bufs[order[p]].next == Node(order, p + 2) <= NBUF
    ensures var order' := order[..p] + order[p + 1..];
            LinkOk(Unlink(bufs, order[p]), Node(order', i), Node(order', i + 1))
  {
    var order' := order[..p] + order[p + 1..];
    RingAt(bufs, order, p);
    RingAt(bufs, order, p + 1);
    if i < p {
      RingAt(bufs, order, i);
      assert Node(order', i) == Node(order, i) && Node(order', i + 1) == Node(order, i + 1);
      NodesApart(order, i + 1, p + 2);
      assert Node(order, i) != Node(order, p);
    } else if i == p {
      assert Node(order', i) == Node(order, p) && Node(order', i + 1) == Node(order, p + 2);
      assert Node(order, p + 2) != order[p] && Node(order, p) != order[p];
    } else {
      RingAt(bufs, order, i + 1);
      assert Node(order', i) == Node(order, i + 1) && Node(order', i + 1) == Node(order, i + 2);
      NodesApart(order, i + 2, p + 2);
      assert Node(order, i + 1) != Node(order, p);
    }
  }

  /** A change that leaves the links alone. */
  lemma {:induction false} RingKept(bufs: seq<Buf>, order: seq<nat>, bufs': seq<Buf>)
    requires Ring(bufs, order) && |bufs'| == |bufs|
    requires forall i :: 0 <= i < |bufs| ==> bufs'[i].next == bufs[i].next && bufs'[i].prev == bufs[i].prev
    ensures Ring(bufs', order)
  {
    assert OpenRing(Key);
    forall i {:trigger Node(order, i)} | 0 <= i <= |order| ensures LinkOk(bufs', Node(order, i), Node(order, i + 1)) {
      RingAt(bufs, order, i);
    }
  }
}
