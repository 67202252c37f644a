/** The kernel heap: a buddy allocator whose tree is packed into bytes for the upper layers and single
    bits for the layers of 16 and 8 bytes. */
module Buddy {
  import opened Bytes
  import opened BuddyTree
  import opened BuddyNodes
  import opened BuddyArith

  const NO_BLOCK := -1

  // ----- the packed tree -----

  /** The mask of bit k of a byte. */
  function Mask(k: nat): bv8
    requires k < 8
  {
    if k == 0 then 1 else if k == 1 then 2 else if k == 2 then 4 else if k == 3 then 8
    else if k == 4 then 16 else if k == 5 then 32 else if k == 6 then 64 else 128
  }

  predicate BitSet(b: bv8, k: nat)
    requires k < 8
  {
    b & Mask(k) != 0
  }

  function WithBit(b: bv8, k: nat, value: bool): bv8
    requires k < 8
  {
    if value then b | Mask(k) else b & !Mask(k)
  }

  lemma {:induction false} BitsIndependent(b: bv8, k: nat, j: nat)
    requires k < 8 && j < 8
    ensures BitSet(b | Mask(k), j) <==> (k == j || BitSet(b, j))
    ensures BitSet(b & !Mask(k), j) <==> (k != j && BitSet(b, j))
  {
  }

  lemma {:induction false} ByteRoundTrip(v: nat)
    requires v < 32
    ensures (v as bv8) as int == v
  {
    if v < 8 {
      assert v == 0 || v == 1 || v == 2 || v == 3 || v == 4 || v == 5 || v == 6 || v == 7;
    } else if v < 16 {
      assert v == 8 || v == 9 || v == 10 || v == 11 || v == 12 || v == 13 || v == 14 || v == 15;
    } else if v < 24 {
      assert v == 16 || v == 17 || v == 18 || v == 19 || v == 20 || v == 21 || v == 22 || v == 23;
    } else {
      assert v == 24 || v == 25 || v == 26 || v == 27 || v == 28 || v == 29 || v == 30 || v == 31;
    }
  }

  /** Two nodes of the bit layers with the same byte and the same bit are one node. */
  lemma {:induction false} BitsApart(base: nat, i: nat, j: nat)
    requires base <= i && base <= j && (i - base) / 8 == (j - base) / 8 && i % 8 == j % 8
    ensures i == j
  {
  }

  /** A stored bit reads back, and the other bits of its byte are as they were. */
  lemma {:induction false} BitStored(b: bv8, b': bv8, value: bool, base: nat, i: nat, j: nat)
    requires base <= i && base <= j && (i - base) / 8 == (j - base) / 8
    requires b' == WithBit(b, i % 8, value)
    ensures BitSet(b', j % 8) == if i == j then value else BitSet(b, j % 8)
  {
    BitsIndependent(b, i % 8, j % 8);
    if i % 8 == j % 8 {
      BitsApart(base, i, j);
    }
  }

  /** 2^H bytes managed, 16 of them per node of the first bit layer. */
  lemma {:induction false} Layers(H: nat, N: nat)
    requires 7 <= H && N == Pow2(H)
    ensures N / 16 == Pow2(H - 4) && N / 8 == Pow2(H - 3) && N / 4 == Pow2(H - 2)
    ensures 8 <= N / 16 && N / 8 == 2 * (N / 16) && N / 4 == 4 * (N / 16) && N % 128 == 0
  {
    Pow2Monotone(3, H - 4);
    assert Pow2(3) == 8;
    assert Pow2(H) == 2 * Pow2(H - 1) && Pow2(H - 1) == 2 * Pow2(H - 2);
    assert Pow2(H - 2) == 2 * Pow2(H - 3) && Pow2(H - 3) == 2 * Pow2(H - 4);
    assert Pow2(H - 4) == 2 * Pow2(H - 5) && Pow2(H - 5) == 2 * Pow2(H - 6) && Pow2(H - 6) == 2 * Pow2(H - 7);
    assert N == 128 * Pow2(H - 7);
  }

  /** The number a node stands for in the packed bytes: a byte below base, one bit from base on. */
  ghost function NodeIn(bytes: seq<bv8>, base: nat, i: nat): nat {
    if i < base then (if i < |bytes| then bytes[i] as int else 0)
    else
      var q := base + (i - base) / 8;
      if q < |bytes| && BitSet(bytes[q], i % 8) then 1 else 0
  }

  ghost predicate Packs(bytes: seq<bv8>, base: nat, nodes: seq<nat>) {
    forall i :: 0 <= i < |nodes| ==> nodes[i] == NodeIn(bytes, base, i)
  }

  lemma {:induction false} PacksBit(bytes: seq<bv8>, base: nat, nodes: seq<nat>, i: nat, value: bool, q: nat, b': bv8)
    requires Packs(bytes, base, nodes) && base <= i < |nodes| && q == base + (i - base) / 8 < |bytes|
    requires b' == WithBit(bytes[q], i % 8, value)
    ensures Packs(bytes[q := b'], base, nodes[i := if value then 1 else 0])
  {
    var nodes', bytes' := nodes[i := if value then 1 else 0], bytes[q := b'];
    forall j | 0 <= j < |nodes'| ensures nodes'[j] == NodeIn(bytes', base, j) {
      if base <= j && base + (j - base) / 8 == q {
        BitStored(bytes[q], b', value, base, i, j);
      }
    }
  }

  lemma {:induction false} PacksByte(bytes: seq<bv8>, base: nat, nodes: seq<nat>, i: nat, v: nat)
    requires Packs(bytes, base, nodes) && i < base && i < |nodes| && i < |bytes| && v < 32
    ensures Packs(bytes[i := v as bv8], base, nodes[i := v])
  {
    ByteRoundTrip(v);
    var nodes', bytes' := nodes[i := v], bytes[i := v as bv8];
    forall j | 0 <= j < |nodes'| ensures nodes'[j] == NodeIn(bytes', base, j) {
      assert j != i ==> nodes[j] == NodeIn(bytes, base, j);
    }
  }

  ghost predicate OpenPack(k: Key) {
    true
  }

  ghost predicate OpenStands(k: Key) {
    true
  }

  ghost predicate OpenUsed(k: Key) {
    true
  }

  ghost predicate OpenClimb(k: Key) {
    true
  }

  /** A node that says what t says while the values on the way up from it are out of date; goal is
      the tree that the way up leads to. */
  ghost predicate Climbing(nodes: seq<nat>, H: nat, h: nat, i: nat, p: Path, t: Tree, goal: Tree) {
    && Level(H, h, i)
    && forall k: Key {:trigger OpenClimb(k)} :: OpenClimb(k) ==>
         && TreeOk(t, h) && !t.Free? && PathOk(p, h) && Plug(p, t) == goal
         && Repr(nodes, H, h, i, t) && Beside(nodes, H, h, i, p)
  }

  lemma {:induction false} ClimbFacts(nodes: seq<nat>, H: nat, h: nat, i: nat, p: Path, t: Tree, goal: Tree)
    requires Climbing(nodes, H, h, i, p, t, goal)
    ensures TreeOk(t, h) && !t.Free? && PathOk(p, h) && Plug(p, t) == goal
    ensures Repr(nodes, H, h, i, t) && Beside(nodes, H, h, i, p)
  {
    assert OpenClimb(Key);
  }

  lemma {:induction false} ClimbedOut(nodes: seq<nat>, H: nat, h: nat, p: Path, t: Tree, goal: Tree)
    requires Climbing(nodes, H, h, 0, p, t, goal)
    ensures h == H && TreeOk(goal, H) && Repr(nodes, H, H, 0, goal)
  {
    ClimbFacts(nodes, H, h, 0, p, t, goal);
    RootLevel(H, h, 0);
  }

  /** The children of the node above one that climbs. */
  lemma {:induction false} Above(nodes: seq<nat>, H: nat, h: nat, i: nat, p: Path, t: Tree, goal: Tree)
    requires Climbing(nodes, H, h, i, p, t, goal) && i != 0
    ensures !p.Top? && h < H && Level(H, h + 1, Parent(i))
    ensures Level(H, h, 2 * Parent(i) + 1) && Level(H, h, 2 * Parent(i) + 2)
    ensures TreeOk(Joined(p, t), h + 1) && PathOk(p.up, h + 1) && Plug(p.up, Joined(p, t)) == goal
    ensures Repr(nodes, H, h, 2 * Parent(i) + 1, Joined(p, t).l) && Repr(nodes, H, h, 2 * Parent(i) + 2, Joined(p, t).r)
    ensures Beside(nodes, H, h + 1, Parent(i), p.up)
  {
    ClimbFacts(nodes, H, h, i, p, t, goal);
    AboveLevels(H, h, i);
  }

  lemma {:induction false} AboveLevels(H: nat, h: nat, i: nat)
    requires Level(H, h, i) && i != 0
    ensures h < H && Level(H, h + 1, Parent(i))
    ensures Level(H, h, 2 * Parent(i) + 1) && Level(H, h, 2 * Parent(i) + 2)
  {
    RootLevel(H, h, i);
    ParentLevel(H, h, i);
    ChildLevel(H, h + 1, Parent(i));
  }

  /** A node written with the larger of its children's values is the next to climb from. */
  lemma {:induction false} Rise(nodes: seq<nat>, H: nat, h: nat, i: nat, p: Path, t: Tree, goal: Tree, up: nat, v: nat)
    requires Climbing(nodes, H, h, i, p, t, goal) && i != 0 && up == Parent(i) < |nodes|
    requires 4 <= h ==> v == Max(Val(nodes, h, 2 * up + 1), Val(nodes, h, 2 * up + 2))
    requires h == 3 ==> v == if At(nodes, 2 * up + 1) == 1 || At(nodes, 2 * up + 2) == 1 then 1 else 0
    ensures v <= h < H && !p.Top? && Climbing(nodes[up := v], H, h + 1, up, p.up, Joined(p, t), goal)
  {
    Above(nodes, H, h, i, p, t, goal);
    var l, r := Joined(p, t).l, Joined(p, t).r;
    ValueBound(l, h);
    ValueBound(r, h);
    MendNode(nodes, H, h + 1, up, l, r, v);
    BesideKept(nodes, H, h + 1, up, p.up, h + 1, up, v);
  }

  // ----- a depth-first walk -----

  /** The end of the stack: -1 in 32 bits. */
  const NO_NODE := 0xFFFF_FFFF

  /** A node still to be visited: its index, height and tree. */
  datatype Visit = Visit(i: nat, h: nat, t: Tree)

  ghost function PendingUsed(ps: seq<Visit>): nat {
    if |ps| == 0 then 0 else PendingUsed(ps[..|ps| - 1]) + UsedBytes(ps[|ps| - 1].t, ps[|ps| - 1].h)
  }

  /** A bound on the visits to come. */
  ghost function Work(ps: seq<Visit>): nat {
    if |ps| == 0 then 0 else Work(ps[..|ps| - 1]) + 2 * Pow2(ps[|ps| - 1].h) - 1
  }

  ghost predicate VisitOk(nodes: seq<nat>, H: nat, v: Visit, k: nat) {
    v.h + k <= H && TreeOk(v.t, v.h) && Repr(nodes, H, v.h, v.i, v.t)
  }

  /** The walk stands at the last of ps; the others wait on the stack, at strictly falling heights. */
  ghost predicate Tracks(nodes: seq<nat>, H: nat, ps: seq<Visit>, index: nat, sp: nat, slots: seq<nat>) {
    forall key: Key {:trigger OpenWalk(key)} :: OpenWalk(key) ==>
      && H <= 30 && |slots| == 50 && slots[0] == NO_NODE && sp == |ps|
      && index == (if ps == [] then NO_NODE else ps[|ps| - 1].i)
      && (forall k :: 0 <= k < |ps| ==> VisitOk(nodes, H, ps[k], k))
      && (forall k :: 0 <= k < |ps| - 1 ==> slots[k + 1] == ps[k].i)
  }

  ghost predicate OpenWalk(k: Key) {
    true
  }

  lemma {:induction false} TracksFacts(nodes: seq<nat>, H: nat, ps: seq<Visit>, index: nat, sp: nat, slots: seq<nat>)
    requires Tracks(nodes, H, ps, index, sp, slots)
    ensures sp == |ps| < 50 && |slots| == 50
    ensures index == NO_NODE <==> ps == []
    ensures ps != [] ==> ps[sp - 1].i == index && VisitOk(nodes, H, ps[sp - 1], sp - 1)
  {
    assert OpenWalk(Key);
    if ps != [] {
      var v := ps[|ps| - 1];
      assert VisitOk(nodes, H, v, |ps| - 1);
      LevelRange(H, v.h, v.i);
      Pow2Table();
      Pow2Monotone(H - 2, 28);
    }
  }

  lemma {:induction false} StartTracks(nodes: seq<nat>, H: nat, t: Tree, slots: seq<nat>)
    requires H <= 30 && |slots| == 50 && slots[0] == NO_NODE && TreeOk(t, H) && Repr(nodes, H, H, 0, t)
    ensures Tracks(nodes, H, [Visit(0, H, t)], 0, 1, slots)
    ensures PendingUsed([Visit(0, H, t)]) == UsedBytes(t, H)
  {
    var ps := [Visit(0, H, t)];
    assert ps[..0] == [];
  }

  /** Going back to the node on top of the stack. */
  lemma {:induction false} Popped(nodes: seq<nat>, H: nat, ps: seq<Visit>, index: nat, sp: nat, slots: seq<nat>)
    requires Tracks(nodes, H, ps, index, sp, slots) && ps != []
    ensures 0 < sp <= |slots| && |slots| == 50 && Tracks(nodes, H, ps[..|ps| - 1], slots[sp - 1], sp - 1, slots)
  {
    TracksFacts(nodes, H, ps, index, sp, slots);
    assert OpenWalk(Key);
    assert sp >= 2 ==> slots[sp - 2 + 1] == ps[sp - 2].i;
  }

  /** The last node replaced by its right and its left half. */
  ghost function Opened(ps: seq<Visit>): seq<Visit>
    requires ps != [] && ps[|ps| - 1].h > 0
  {
    var v := ps[|ps| - 1];
    ps[..|ps| - 1] + [Visit(2 * v.i + 2, v.h - 1, Right(v.t))] + [Visit(2 * v.i + 1, v.h - 1, Left(v.t))]
  }

  lemma {:induction false} OpenedSums(ps: seq<Visit>)
    requires ps != [] && ps[|ps| - 1].h > 0 && !ps[|ps| - 1].t.Used?
    ensures PendingUsed(Opened(ps)) == PendingUsed(ps) && Work(Opened(ps)) < Work(ps)
  {
    var v := ps[|ps| - 1];
    var below, r := ps[..|ps| - 1], Visit(2 * v.i + 2, v.h - 1, Right(v.t));
    assert Opened(ps)[..|ps|] == below + [r] && (below + [r])[..|ps| - 1] == below;
  }

  /** Going on to the left half with the right half on the stack. */
  lemma {:induction false} Pushed(nodes: seq<nat>, H: nat, ps: seq<Visit>, index: nat, sp: nat, slots: seq<nat>)
    requires Tracks(nodes, H, ps, index, sp, slots) && ps != []
    requires ps[|ps| - 1].h > 3 && !ps[|ps| - 1].t.Used?
    ensures sp < |slots| && |slots| == 50
    ensures Tracks(nodes, H, Opened(ps), 2 * index + 1, sp + 1, slots[sp := 2 * index + 2])
  {
    TracksFacts(nodes, H, ps, index, sp, slots);
    assert OpenWalk(Key);
    var v, ps', slots' := ps[|ps| - 1], Opened(ps), slots[sp := 2 * index + 2];
    ReprHalves(nodes, H, v.h, v.i, v.t);
    assert VisitOk(nodes, H, ps'[sp - 1], sp - 1) && VisitOk(nodes, H, ps'[sp], sp);
    forall k | 0 <= k < |ps'| ensures VisitOk(nodes, H, ps'[k], k) {
      assert k < sp - 1 ==> ps'[k] == ps[k];
    }
    forall k | 0 <= k < |ps'| - 1 ensures slots'[k + 1] == ps'[k].i {
      assert k < sp - 1 ==> ps'[k] == ps[k] && slots[k + 1] == ps[k].i;
    }
  }

  // ----- buddy_new -----

  /** The bytes of the tree: one for each node of 32 bytes or more, one bit for each below. */
  function TableBytes(size: nat): int {
    size / 16 - 1 + 3 * (size / 128)
  }

  /** Every node says that all of it is free. */
  ghost predicate Filled(bytes: seq<bv8>, base: nat, H: nat) {
    forall j: nat, c: nat {:trigger Level(H, j, c)} :: Level(H, j, c) ==>
      NodeIn(bytes, base, c) == if j >= 5 then j else 1
  }

  lemma {:induction false} RootNode(H: nat)
    requires 3 <= H
    ensures Level(H, H, 0)
  {
    assert Pow2(0) == 1;
  }

  /** The layers above the bits hold their own height from node 0 up to node n. */
  ghost predicate ValuesUpTo(bytes: seq<bv8>, H: nat, n: nat) {
    n <= |bytes| &&
    forall j: nat, c: nat {:trigger Level(H, j, c)} :: 5 <= j && Level(H, j, c) && c < n ==> bytes[c] as int == j
  }

  lemma {:induction false} ValueSet(bytes: seq<bv8>, H: nat, n: nat, h: nat, v: nat)
    requires ValuesUpTo(bytes, H, n) && n < |bytes| && Level(H, h, n) && v == h < 32
    ensures ValuesUpTo(bytes[n := v as bv8], H, n + 1)
  {
    ByteRoundTrip(h);
    forall j: nat, c: nat {:trigger Level(H, j, c)} | 5 <= j && Level(H, j, c) && c < n + 1
      ensures bytes[n := v as bv8][c] as int == j
    {
      if c == n {
        LevelUnique(H, h, j, n);
      }
    }
  }

  /** The first loop of buddy_new; i is where it breaks off. */
  method FillValues(size: nat, ghost H: nat, bbt: array<bv8>) returns (i: nat)
    requires 7 <= H <= 29 && size == Pow2(H) && Pow2(H - 4) - 1 <= bbt.Length
    modifies bbt
    ensures i == Pow2(H - 4) - 1 && ValuesUpTo(bbt[..], H, i)
  {
    var nodeSize := 2 * size;
    ghost var h := H + 1;
    i := 0;
    Pow2Monotone(H - 4, H);
    while i < 2 * size - 1
      invariant 5 <= h <= H + 1 && nodeSize == Pow2(h) && i < Pow2(H - 4) && InLayer(H, h, i)
      invariant ValuesUpTo(bbt[..], H, i)
      decreases 2 * size - i
    {
      NextLayer(H, h, i);
      if PowerTest(i + 1) {
        nodeSize := nodeSize / 2;
        h := h - 1;
        if nodeSize == 16 {
          SmallPowers();
          PowInjective(h, 4);
          return;
        }
        Above4(h, nodeSize);
      }
      LayerNode(H, h, i);
      SetValue(bbt, i, nodeSize, H, h);
      i := i + 1;
    }
  }

  /** The next node is still in layer h, or the first after it. */
  ghost predicate InLayer(H: nat, h: nat, i: nat) {
    if h > H then i == 0 else Pow2(H - h) <= i < 2 * Pow2(H - h)
  }

  lemma {:induction false} Above4(h: nat, n: nat)
    requires 4 <= h && n == Pow2(h) != 16
    ensures 5 <= h
  {
    SmallPowers();
  }

  lemma {:induction false} LayerNode(H: nat, h: nat, i: nat)
    requires 5 <= h && Level(H, h, i)
    ensures i + 1 < Pow2(H - 4) && InLayer(H, h, i + 1)
  {
    Pow2Monotone(H - h + 1, H - 4);
  }

  method SetValue(bbt: array<bv8>, i: nat, nodeSize: nat, ghost H: nat, ghost h: nat)
    requires ValuesUpTo(bbt[..], H, i) && i < bbt.Length && Level(H, h, i) && nodeSize == Pow2(h) && h < 32
    modifies bbt
    ensures ValuesUpTo(bbt[..], H, i + 1)
  {
    var v := LogOf(nodeSize);
    LogExact(v, h);
    ValueSet(bbt[..], H, i, h, v);
    bbt[i] := v as bv8;
    assert bbt[..] == old(bbt[..])[i := v as bv8];
  }

  /** A counter that is a power of two starts the next layer. */
  lemma {:induction false} NextLayer(H: nat, h: nat, i: nat)
    requires 5 <= h <= H + 1 && InLayer(H, h, i)
    ensures PowerTest(i + 1) ==> i + 1 == Pow2(H - h + 1) && Level(H, h - 1, i)
    ensures !PowerTest(i + 1) ==> h <= H && Level(H, h, i)
  {
    SmallPowers();
    if i + 1 == Pow2(H - h + 1) {
      PowerTestExact(i + 1, H - h + 1);
    } else {
      PowerTestExact(i + 1, H - h);
    }
  }

  lemma {:induction false} AllBits(k: nat)
    requires k < 8
    ensures BitSet(0xFF, k)
  {
  }

  /** Values above and set bits below make a filled tree. */
  lemma {:induction false} FilledBy(bytes: seq<bv8>, base: nat, H: nat, end: nat)
    requires 7 <= H && base == Pow2(H - 4) - 1 && ValuesUpTo(bytes, H, base)
    requires Pow2(H - 2) - 1 <= base + 8 * (end - base) && end <= |bytes|
    requires forall q :: base <= q < end ==> bytes[q] == 0xFF
    ensures Filled(bytes, base, H)
  {
    forall j: nat, c: nat {:trigger Level(H, j, c)} | Level(H, j, c)
      ensures NodeIn(bytes, base, c) == if j >= 5 then j else 1
    {
      LevelRange(H, j, c);
      if j >= 5 {
        Pow2Monotone(H - j + 1, H - 4);
      } else {
        Pow2Monotone(H - 4, H - j);
        AllBits(c % 8);
        assert bytes[base + (c - base) / 8] == 0xFF;
      }
    }
  }

  /** The nodes that the bytes of a tree stand for. */
  ghost function Decoded(bytes: seq<bv8>, base: nat, n: nat): (nodes: seq<nat>)
    ensures |nodes| == n && Packs(bytes, base, nodes)
  {
    seq(n, c requires 0 <= c => NodeIn(bytes, base, c))
  }

  lemma {:induction false} DecodedFresh(bytes: seq<bv8>, base: nat, H: nat, nodes: seq<nat>) returns (t: Tree)
    requires 3 <= H && Filled(bytes, base, H) && Packs(bytes, base, nodes) && |nodes| == Pow2(H - 2) - 1
    ensures t == Free && Repr(nodes, H, H, 0, t)
  {
    t := Free;
    RootNode(H);
    forall j: nat, c: nat {:trigger Level(H, j, c)} | Level(H, j, c) ensures At(nodes, c) == if j >= 5 then j else 1 {
      LevelRange(H, j, c);
      assert NodeIn(bytes, base, c) == if j >= 5 then j else 1;
    }
    Fresh(nodes, H, H, 0);
  }

  /** The bit layers have 8 nodes to a byte. */
  lemma {:induction false} BitBytes(H: nat, size: nat)
    requires 7 <= H && size == Pow2(H)
    ensures var n := (size / 8 + size / 16) / 8;
            size / 16 - 1 + n == TableBytes(size) && Pow2(H - 2) - 1 <= Pow2(H - 4) - 1 + 8 * n
  {
    Layers(H, size);
    assert size == 128 * (size / 128);
  }

  /** memset(&bbt[i], UCHAR_MAX, n) */
  method SetBytes(mem: array<bv8>, i: nat, n: nat)
    requires i + n <= mem.Length
    modifies mem
    ensures forall x :: 0 <= x < mem.Length ==> mem[x] == if i <= x < i + n then 0xFF else old(mem[x])
  {
    for q := i to i + n
      invariant forall x :: 0 <= x < mem.Length ==> mem[x] == if i <= x < q then 0xFF else old(mem[x])
    {
      mem[q] := 0xFF;
    }
  }

  lemma {:induction false} ValuesKept(a: seq<bv8>, b: seq<bv8>, H: nat, n: nat)
    requires ValuesUpTo(a, H, n) && |a| == |b| && forall x :: 0 <= x < n ==> a[x] == b[x]
    ensures ValuesUpTo(b, H, n)
  {
  }

  /** buddy_new: a tree with everything free, or null for a size that is not a power of two. */
  method BuddyNew(size: int, mem: array<bv8>, bytes: seq<byte>) returns (b: BitmapBuddy?)
    requires 1 <= size && PowerTest(size) ==> 128 <= size <= 0x2000_0000 && TableBytes(size) <= mem.Length
    requires 1 <= size && PowerTest(size) ==> |bytes| == size
    modifies mem
    ensures b == null <==> size < 1 || !PowerTest(size)
    ensures b != null ==> fresh(b) && b.Valid() && b.size == size && b.bbt == mem && b.space == bytes && b.tree == Free
  {
    if size < 1 || !PowerTest(size) {
      return null;
    }
    ghost var H := Bracket(size);
    PowerTestExact(size, H);
    HeightRange(H, size);
    Layers(H, size);
    ghost var ns, t := FillTable(size, H, mem);
    b := new BitmapBuddy(size, H, mem, ns, t, bytes);
  }

  lemma {:induction false} HalfPower(e: nat)
    requires 0 < e
    ensures Pow2(e) / 2 == Pow2(e - 1)
  {
  }

  /** The loop and the memset of buddy_new. */
  method FillTable(size: nat, ghost H: nat, mem: array<bv8>) returns (ghost ns: seq<nat>, ghost t: Tree)
    requires 7 <= H <= 29 && size == Pow2(H) && TableBytes(size) <= mem.Length
    modifies mem
    ensures |ns| == Pow2(H - 2) - 1 && size / 16 - 1 == Pow2(H - 4) - 1 && Packs(mem[..], size / 16 - 1, ns)
    ensures t == Free && Repr(ns, H, H, 0, t)
  {
    Layers(H, size);
    BitBytes(H, size);
    var i := FillValues(size, H, mem);
    var n := (size / 8 + size / 16) / 8;
    ghost var values := mem[..];
    SetBytes(mem, i, n);
    ns, t := FilledTable(values, mem[..], i, H, i + n);
  }

  /** What the filled bytes mean. */
  lemma {:induction false} FilledTable(values: seq<bv8>, bytes: seq<bv8>, base: nat, H: nat, end: nat)
      returns (ns: seq<nat>, t: Tree)
    requires 7 <= H && base == Pow2(H - 4) - 1 && ValuesUpTo(values, H, base) && |values| == |bytes|
    requires base <= end <= |bytes| && Pow2(H - 2) - 1 <= base + 8 * (end - base)
    requires forall x :: 0 <= x < base ==> values[x] == bytes[x]
    requires forall q :: base <= q < end ==> bytes[q] == 0xFF
    ensures |ns| == Pow2(H - 2) - 1 && Packs(bytes, base, ns) && t == Free && Repr(ns, H, H, 0, t)
  {
    ValuesKept(values, bytes, H, base);
    FilledBy(bytes, base, H, end);
    ns := Decoded(bytes, base, Pow2(H - 2) - 1);
    t := DecodedFresh(bytes, base, H, ns);
  }

  class BitmapBuddy {
    const size: nat
    const bbt: array<bv8>
    ghost const H: nat
    /** One number for each node: a value in the byte layers, 0 or 1 in the bit layers. */
    ghost var nodes: seq<nat>
    ghost var tree: Tree
    /** The managed bytes. */
    var space: seq<byte>

    /** A tree over bytes that buddy_new has filled. */
    constructor (n: nat, ghost height: nat, mem: array<bv8>, ghost ns: seq<nat>, ghost t: Tree, bytes: seq<byte>)
      requires 7 <= height <= 29 && n == Pow2(height) && |bytes| == n && n / 16 - 1 == Pow2(height - 4) - 1
      requires TableBytes(n) <= mem.Length && Packs(mem[..], n / 16 - 1, ns)
      requires |ns| == Pow2(height - 2) - 1 && TreeOk(t, height) && Repr(ns, height, height, 0, t)
      ensures Valid() && size == n && H == height && bbt == mem && space == bytes && tree == t
    {
      size, H, bbt, space, tree, nodes := n, height, mem, bytes, t, ns;
    }

    /** The first node of the bit layers. */
    function Base(): nat {
      if size / 16 > 0 then size / 16 - 1 else 0
    }

    /** in_bitmap */
    predicate InBitmap(i: nat) {
      i >= Base()
    }

    /** The bytes say what nodes says. */
    ghost predicate Packed()
      reads this, bbt
    {
      && 7 <= H <= 30 && size == Pow2(H) && |nodes| == Pow2(H - 2) - 1 && Base() == Pow2(H - 4) - 1
      && forall k: Key {:trigger OpenPack(k)} :: OpenPack(k) ==>
           Base() + 3 * (size / 128) <= bbt.Length && Packs(bbt[..], Base(), nodes)
    }

    ghost predicate Valid()
      reads this, bbt
    {
      Packed() && |space| == size && TreeOk(tree, H) && Repr(nodes, H, H, 0, tree)
    }

    /** The byte of a node of the bit layers exists, and holds its bit. */
    lemma {:induction false} BitPlace(i: nat)
      requires Packed() && Base() <= i < |nodes|
      ensures Base() + (i - Base()) / 8 < bbt.Length
      ensures nodes[i] == if BitSet(bbt[Base() + (i - Base()) / 8], i % 8) then 1 else 0
    {
      assert OpenPack(Key);
      Layers(H, size);
      assert nodes[i] == NodeIn(bbt[..], Base(), i);
    }

    /** The byte of a node above the bit layers. */
    lemma {:induction false} BytePlace(i: nat)
      requires Packed() && i < Base()
      ensures i < bbt.Length && i < |nodes| && nodes[i] == bbt[i] as int
    {
      assert OpenPack(Key);
      Layers(H, size);
      assert nodes[i] == NodeIn(bbt[..], Base(), i);
    }

    /** The layer of a node by its index, as the code tells it. */
    lemma {:induction false} LayerOf(k: nat, i: nat)
      requires Packed() && Level(H, k, i)
      ensures i < |nodes| && (InBitmap(i) <==> k <= 4)
      ensures k < H ==> (InBitmap(Parent(i)) <==> k <= 3)
    {
      LevelRange(H, k, i);
      if 4 < k {
        Pow2Monotone(H - k + 1, H - 4);
      } else {
        Pow2Monotone(H - 4, H - k);
      }
      if k < H {
        ParentLevel(H, k, i);
        if 3 < k {
          Pow2Monotone(H - k, H - 4);
        } else {
          Pow2Monotone(H - 4, H - k - 1);
        }
      }
    }

    /** bitmap_scan_test */
    method BitmapTest(i: nat) returns (r: bool)
      requires Packed() && Base() <= i < |nodes|
      ensures r == (nodes[i] == 1)
    {
      BitPlace(i);
      r := BitSet(bbt[Base() + (i - Base()) / 8], i % 8);
    }

    /** bitmap_set */
    method BitmapSet(i: nat, value: bool)
      requires Packed() && Base() <= i < |nodes|
      modifies this`nodes, bbt
      ensures Packed() && nodes == old(nodes)[i := if value then 1 else 0]
    {
      BitPlace(i);
      var q := Base() + (i - Base()) / 8;
      var b := WithBit(bbt[q], i % 8, value);
      assert OpenPack(Key);
      PacksBit(bbt[..], Base(), nodes, i, value, q, b);
      Store(q, b, nodes[i := if value then 1 else 0]);
    }

    /** One store into the packed bytes. */
    method Store(q: nat, b: bv8, ghost ns: seq<nat>)
      requires Packed() && q < bbt.Length && |ns| == |nodes| && Packs(bbt[..][q := b], Base(), ns)
      modifies this`nodes, bbt
      ensures Packed() && nodes == ns
    {
      bbt[q] := b;
      nodes := ns;
      assert bbt[..] == old(bbt[..])[q := b];
    }

    /** A store into the byte layers. */
    method SetByte(i: nat, v: nat)
      requires Packed() && i < Base() && v < 32
      modifies this`nodes, bbt
      ensures Packed() && i < |old(nodes)| && nodes == old(nodes)[i := v]
    {
      BytePlace(i);
      assert OpenPack(Key);
      PacksByte(bbt[..], Base(), nodes, i, v);
      Store(i, v as bv8, nodes[i := v]);
    }

    /** A load from the byte layers. */
    method GetByte(i: nat) returns (v: nat)
      requires Packed() && i < Base()
      ensures i < |nodes| && v == nodes[i] < 256
    {
      BytePlace(i);
      v := bbt[i] as int;
    }

    /** get_size */
    method GetSize(i: nat, ghost k: nat) returns (v: nat)
      requires Packed() && Level(H, k, i)
      ensures v == Val(nodes, k, i) < 256
    {
      LayerOf(k, i);
      v := 0;
      if InBitmap(i) {
        RootLevel(H, k, i);
        if InBitmap(Parent(i)) {
          var on := BitmapTest(i);
          if on {
            v := 3;
          }
        } else {
          ChildLevel(H, k, i);
          LayerOf(k - 1, 2 * i + 1);
          LayerOf(k - 1, 2 * i + 2);
          var on := BitmapTest(i);
          if on {
            var l := BitmapTest(2 * i + 1);
            var r := BitmapTest(2 * i + 2);
            if l && r {
              v := 4;
            } else if l || r {
              v := 3;
            }
          }
        }
      } else {
        v := GetByte(i);
      }
    }

    /** A node of height h at the end of path p, with everything beside the way up intact. */
    ghost predicate Stands(i: nat, h: nat, p: Path, t: Tree)
      reads this, bbt
    {
      && Packed() && Level(H, h, i)
      && forall k: Key {:trigger OpenStands(k)} :: OpenStands(k) ==>
           TreeOk(t, h) && Repr(nodes, H, h, i, t) && Beside(nodes, H, h, i, p) && StartsAt(H, h, i, BaseOf(p, h))
    }

    lemma {:induction false} StandsFacts(i: nat, h: nat, p: Path, t: Tree)
      requires Stands(i, h, p, t)
      ensures TreeOk(t, h) && Repr(nodes, H, h, i, t) && Beside(nodes, H, h, i, p) && StartsAt(H, h, i, BaseOf(p, h))
    {
      assert OpenStands(Key);
    }

    /** The fitting search of buddy_alloc: down from the root to a node of 2^j bytes. */
    method Descend(s: nat, ghost j: nat) returns (index: nat, nodeSize: nat, ghost p: Path)
      requires Valid() && 3 <= j <= Value(tree, H) && s == Pow2(j)
      ensures nodeSize == s && Stands(index, j, p, Free) && Place(tree, H, p, j, Free)
      ensures Lowest(tree, H, j, BaseOf(p, j))
    {
      index, nodeSize := 0, size;
      ghost var h, t := H, tree;
      p := Top;
      ValueBound(tree, H);
      StartPlace(tree, H);
      StartStands();
      while nodeSize != s
        invariant 0 <= j <= h <= H && nodeSize == Pow2(h)
        invariant Stands(index, h, p, t) && Place(tree, H, p, h, t) && j <= Value(t, h)
        invariant Lowest(tree, H, j, BaseOf(p, h))
        decreases h
      {
        index, h, p, t := ChooseHalf(index, s, h, j, p, t);
        nodeSize := nodeSize / 2;
      }
      PowInjective(h, j);
      ValueBound(t, h);
    }

    /** Into the left half if it can give 2^j bytes, else into the right one: past no free block of the size. */
    method ChooseHalf(index: nat, s: nat, ghost h: nat, ghost j: nat, ghost p: Path, ghost t: Tree)
        returns (index': nat, ghost h': nat, ghost p': Path, ghost t': Tree)
      requires Stands(index, h, p, t) && Place(tree, H, p, h, t) && 3 <= j < h && j <= Value(t, h) && s == Pow2(j)
      requires Lowest(tree, H, j, BaseOf(p, h))
      ensures h' == h - 1 && Stands(index', h', p', t') && Place(tree, H, p', h', t') && j <= Value(t', h')
      ensures Lowest(tree, H, j, BaseOf(p', h'))
    {
      ChildFits(t, h, j);
      h' := h - 1;
      var left := LeftFits(index, s, h, j, p, t);
      if left {
        GoLeft(index, h, p, t, j);
        index' := 2 * index + 1;
        t', p' := Left(t), LeftOf(p, Right(t));
      } else {
        GoRight(index, h, p, t, j);
        index' := 2 * index + 2;
        t', p' := Right(t), RightOf(p, Left(t));
      }
    }

    method LeftFits(index: nat, s: nat, ghost h: nat, ghost j: nat, ghost p: Path, ghost t: Tree) returns (r: bool)
      requires Stands(index, h, p, t) && 3 < h && !t.Used? && s == Pow2(j)
      ensures r <==> j <= Value(Left(t), h - 1)
    {
      LeftHalf(index, h, p, t);
      var v := GetSize(2 * index + 1, h - 1);
      PowCompare(v, j);
      var w := PowerOf(v);
      r := w >= s;
    }

    lemma {:induction false} GoLeft(i: nat, h: nat, p: Path, t: Tree, j: nat)
      requires Stands(i, h, p, t) && Place(tree, H, p, h, t) && 3 < h && !t.Used? && Lowest(tree, H, j, BaseOf(p, h))
      ensures Stands(2 * i + 1, h - 1, LeftOf(p, Right(t)), Left(t))
      ensures Lowest(tree, H, j, BaseOf(LeftOf(p, Right(t)), h - 1))
      ensures Place(tree, H, LeftOf(p, Right(t)), h - 1, Left(t))
    {
      LeftHalf(i, h, p, t);
      StepLeft(tree, H, p, h, t);
    }

    lemma {:induction false} GoRight(i: nat, h: nat, p: Path, t: Tree, j: nat)
      requires Stands(i, h, p, t) && Place(tree, H, p, h, t) && 3 < h && !t.Used? && Lowest(tree, H, j, BaseOf(p, h))
      requires 3 <= j < h && Value(Left(t), h - 1) < j
      ensures Stands(2 * i + 2, h - 1, RightOf(p, Left(t)), Right(t))
      ensures Lowest(tree, H, j, BaseOf(RightOf(p, Left(t)), h - 1))
      ensures Place(tree, H, RightOf(p, Left(t)), h - 1, Right(t))
    {
      RightHalf(i, h, p, t);
      StepRight(tree, H, p, h, t);
      LowestRight(tree, H, p, h, t, j);
    }

    ghost predicate Climbs(i: nat, h: nat, p: Path, t: Tree, goal: Tree)
      reads this, bbt
    {
      Packed() && Climbing(nodes, H, h, i, p, t, goal)
    }

    /** Marking a found node as taken. */
    method Take(index: nat, s: nat, ghost j: nat, ghost p: Path)
      requires Stands(index, j, p, Free) && PathOk(p, j) && s == Pow2(j)
      modifies this`nodes, bbt
      ensures Climbs(index, j, p, Used, Plug(p, Used))
    {
      StandsFacts(index, j, p, Free);
      LayerOf(j, index);
      PowCompare(4, j);
      assert Pow2(4) == 16;
      TakeNode(nodes, H, j, index);
      BesideKept(nodes, H, j, index, p, j, index, 0);
      if s <= 16 {
        BitmapSet(index, false);
      } else {
        SetByte(index, 0);
      }
    }

    /** One step of the backtracking loop: the parent takes the larger value of its halves. */
    method MendParent(index: nat, ghost h: nat, ghost p: Path, ghost t: Tree, ghost goal: Tree) returns (up: nat)
      requires Climbs(index, h, p, t, goal) && index != 0
      modifies this`nodes, bbt
      ensures up == Parent(index) && !p.Top? && h < H && Climbs(up, h + 1, p.up, Joined(p, t), goal)
    {
      up := Parent(index);
      Above(nodes, H, h, index, p, t, goal);
      LayerOf(h, index);
      if InBitmap(index) {
        MendFromBits(index, up, h, p, t, goal);
      } else {
        MendFromBytes(index, up, h, p, t, goal);
      }
    }

    method MendFromBits(index: nat, up: nat, ghost h: nat, ghost p: Path, ghost t: Tree, ghost goal: Tree)
      requires Climbs(index, h, p, t, goal) && index != 0 && up == Parent(index) && h <= 4 && h < H
      requires Level(H, h, 2 * up + 1) && Level(H, h, 2 * up + 2) && Level(H, h + 1, up)
      modifies this`nodes, bbt
      ensures !p.Top? && Climbs(up, h + 1, p.up, Joined(p, t), goal)
    {
      LayerOf(h + 1, up);
      if InBitmap(up) {
        MendBit(index, up, h, p, t, goal);
      } else {
        MendAboveBits(index, up, h, p, t, goal);
      }
    }

    method MendBit(index: nat, up: nat, ghost h: nat, ghost p: Path, ghost t: Tree, ghost goal: Tree)
      requires Climbs(index, h, p, t, goal) && index != 0 && up == Parent(index) && h == 3 && h < H
      requires Level(H, h, 2 * up + 1) && Level(H, h, 2 * up + 2) && Level(H, h + 1, up)
      modifies this`nodes, bbt
      ensures !p.Top? && Climbs(up, h + 1, p.up, Joined(p, t), goal)
    {
      LayerOf(h + 1, up);
      LayerOf(h, 2 * up + 1);
      LayerOf(h, 2 * up + 2);
      var l := BitmapTest(2 * up + 1);
      var r := BitmapTest(2 * up + 2);
      Rise(nodes, H, h, index, p, t, goal, up, if l || r then 1 else 0);
      BitmapSet(up, l || r);
    }

    method MendAboveBits(index: nat, up: nat, ghost h: nat, ghost p: Path, ghost t: Tree, ghost goal: Tree)
      requires Climbs(index, h, p, t, goal) && index != 0 && up == Parent(index) && h == 4 && h < H
      requires Level(H, h, 2 * up + 1) && Level(H, h, 2 * up + 2) && Level(H, h + 1, up)
      modifies this`nodes, bbt
      ensures !p.Top? && Climbs(up, h + 1, p.up, Joined(p, t), goal)
    {
      LayerOf(h + 1, up);
      var l := GetSize(2 * up + 1, h);
      var r := GetSize(2 * up + 2, h);
      Rise(nodes, H, h, index, p, t, goal, up, Max(l, r));
      SetByte(up, Max(l, r));
    }

    method MendFromBytes(index: nat, up: nat, ghost h: nat, ghost p: Path, ghost t: Tree, ghost goal: Tree)
      requires Climbs(index, h, p, t, goal) && index != 0 && up == Parent(index) && 5 <= h < H
      requires Level(H, h, 2 * up + 1) && Level(H, h, 2 * up + 2) && Level(H, h + 1, up)
      modifies this`nodes, bbt
      ensures !p.Top? && Climbs(up, h + 1, p.up, Joined(p, t), goal)
    {
      LayerOf(h + 1, up);
      LayerOf(h, 2 * up + 1);
      LayerOf(h, 2 * up + 2);
      var l := GetByte(2 * up + 1);
      var r := GetByte(2 * up + 2);
      Rise(nodes, H, h, index, p, t, goal, up, Max(l, r));
      SetByte(up, Max(l, r));
    }

    /** The backtracking loop of buddy_alloc. */
    method Backtrack(start: nat, ghost h0: nat, ghost p0: Path, ghost t0: Tree)
      requires Climbs(start, h0, p0, t0, Plug(p0, t0)) && |space| == size
      modifies this`nodes, this`tree, bbt
      ensures Valid() && tree == Plug(p0, t0)
    {
      var index := start;
      ghost var h, p, t, goal := h0, p0, t0, Plug(p0, t0);
      while index != 0
        invariant Climbs(index, h, p, t, goal)
        decreases H - h
      {
        index := MendParent(index, h, p, t, goal);
        t := Joined(p, t);
        p, h := p.up, h + 1;
      }
      ClimbedOut(nodes, H, h, p, t, goal);
      tree := goal;
    }

    /** buddy_alloc: the offset of the lowest free aligned block of the rounded size, or NO_BLOCK exactly
        when there is none. */
    method Alloc(request: bv32) returns (r: int)
      requires Valid() && request <= 0x8000_0000
      modifies this
      modifies bbt
      ensures Valid() && NO_BLOCK <= r
      ensures r == NO_BLOCK <==> forall o :: !FreeBlock(old(tree), H, 0, o, LogOfRequest(request))
      ensures r == NO_BLOCK ==> tree == old(tree) && space == old(space)
      ensures r != NO_BLOCK ==> Taken(old(tree), tree, H, r, LogOfRequest(request))
      ensures r != NO_BLOCK ==> forall o :: FreeBlock(old(tree), H, 0, o, LogOfRequest(request)) ==> r <= o
      ensures r != NO_BLOCK ==> r + Pow2(LogOfRequest(request)) <= size
      ensures r != NO_BLOCK ==> space == Splice(old(space), r, Zeros(Pow2(LogOfRequest(request))))
    {
      ghost var j := LogOfRequest(request);
      RoundedIs(request);
      var s := Rounded(request) as int;
      BytePlace(0);
      StartPlace(tree, H);
      ValueBound(tree, H);
      var root := GetByte(0);
      PowCompare(root, j);
      FitOrNone(tree, H, j);
      var most := PowerOf(root);
      if most < s {
        return NO_BLOCK;
      }
      var index, nodeSize, p := Descend(s, j);
      assert OpenLowest(Key);
      r := Claim(index, nodeSize, s, j, p);
    }

    /** The rest of buddy_alloc, from the found node on. */
    method Claim(index: nat, nodeSize: nat, s: nat, ghost j: nat, ghost p: Path) returns (offset: nat)
      requires Valid() && nodeSize == s == Pow2(j) && Stands(index, j, p, Free) && Place(tree, H, p, j, Free)
      modifies this
      modifies bbt
      ensures Valid() && Taken(old(tree), tree, H, offset, j) && offset == BaseOf(p, j)
      ensures offset + Pow2(j) <= size && space == Splice(old(space), offset, Zeros(Pow2(j)))
    {
      TakePlace(tree, H, p, j);
      StandsFacts(index, j, p, Free);
      offset := (index + 1) * nodeSize - size;
      assert offset == BaseOf(p, j) && offset + Pow2(j) <= size;
      Take(index, s, j, p);
      Backtrack(index, j, p, Used);
      space := Splice(space, offset, Zeros(s));
    }

    // ----- finding a live block again -----

    /** The search of buddy_free and buddy_size: from the byte at offset upwards to the first node
        without free space, which is the block's own; the root is never passed (stuck). */
    method SearchUp(offset: nat, ghost b: Block) returns (index: nat, nodeSize: nat, stuck: bool)
      requires Valid() && b in Live(tree, H, 0) && b.off == offset
      ensures nodeSize == Pow2(b.k) && !stuck
      ensures Repr(nodes, H, b.k, index, Used) && StartsAt(H, b.k, index, offset)
    {
      ghost var node := FindUsed(nodes, H, H, 0, tree, 0, b);
      index, nodeSize := SmallestNode(offset, node, b.k);
      index, nodeSize, stuck := FirstEmpty(index, nodeSize, node, b.k);
      assert OpenUsed(Key);
    }

    /** Node node of height k is in use. */
    ghost predicate InUse(node: nat, k: nat)
      reads this
    {
      && Level(H, k, node)
      && forall key: Key {:trigger OpenUsed(key)} :: OpenUsed(key) ==> Repr(nodes, H, k, node, Used)
    }

    method FirstEmpty(start: nat, startSize: nat, ghost node: nat, ghost k: nat)
        returns (index: nat, nodeSize: nat, stuck: bool)
      requires Packed() && InUse(node, k) && Leftmost(node, k, 3, start) && startSize == Pow2(3)
      ensures index == node && nodeSize == Pow2(k) && !stuck
    {
      index, nodeSize, stuck := start, startSize, false;
      ghost var h := 3;
      OnTheWay(h, index, k, node);
      var v := GetSize(index, h);
      while v != 0
        invariant 3 <= h <= k && nodeSize == Pow2(h) && Leftmost(node, k, h, index) && !stuck
        invariant v == 0 <==> h == k
        decreases k - h
      {
        nodeSize := nodeSize * 2;
        OnTheWay(h, index, k, node);
        RootLevel(H, h, index);
        if index == 0 {
          stuck := true;
        }
        Upwards(node, k, h, index);
        index := Parent(index);
        h := h + 1;
        OnTheWay(h, index, k, node);
        v := GetSize(index, h);
      }
      SmallPowers();
    }

    /** The node of 8 bytes that starts at offset, by halving upwards from the byte. */
    method SmallestNode(offset: nat, ghost node: nat, ghost k: nat) returns (index: nat, nodeSize: nat)
      requires Packed() && 3 <= k && StartsAt(H, k, node, offset)
      ensures nodeSize == 8 == Pow2(3) && Leftmost(node, k, 3, index)
    {
      SmallPowers();
      ghost var h := 0;
      nodeSize := 1;
      index := offset + size - 1;
      while nodeSize != 8
        invariant 0 <= h <= 3 && nodeSize == Pow2(h) && Leftmost(node, k, h, index)
        decreases 3 - h
      {
        Upwards(node, k, h, index);
        index := Parent(index);
        nodeSize := nodeSize * 2;
        h := h + 1;
      }
    }

    /** A node between the leftmost byte of a used node and that node has a value of its own; the used
        node has none. */
    lemma {:induction false} OnTheWay(h: nat, i: nat, k: nat, node: nat)
      requires InUse(node, k) && 3 <= h <= k && Leftmost(node, k, h, i)
      ensures Level(H, h, i) && (Val(nodes, h, i) == 0 <==> h == k)
    {
      assert OpenUsed(Key);
      if h < k {
        LeftmostWhole(nodes, H, k, node, Used, h, i);
      } else {
        assert Pow2(0) == 1;
      }
    }

    /** buddy_size: the rounded size of a live block. */
    method BlockSize(offset: nat, ghost b: Block) returns (n: nat)
      requires Valid() && b in Live(tree, H, 0) && b.off == offset
      ensures n == Pow2(b.k)
    {
      var index, nodeSize, stuck := SearchUp(offset, b);
      n := nodeSize;
    }

    // ----- what is left -----

    /** get_size2: the number of bytes under a node. */
    method NodeBytes(index: nat, ghost h: nat) returns (n: nat)
      requires Packed() && Level(H, h, index)
      ensures n == Pow2(h)
    {
      n := size;
      var i := index;
      ghost var k := h;
      while i != 0
        invariant h <= k && Level(H, k, i) && n == Pow2(H + h - k)
        decreases H - k
      {
        RootLevel(H, k, i);
        ParentLevel(H, k, i);
        HalfPower(H + h - k);
        n := n / 2;
        i := Parent(i);
        k := k + 1;
      }
      RootLevel(H, k, i);
    }

    /** The node index is in the tree at all. */
    predicate InTree(i: nat) {
      i < size / 4 - 1
    }

    lemma {:induction false} InTreeIff(i: nat, k: nat)
      requires Packed() && Level(H, k, i)
      ensures InTree(2 * i + 1) <==> 3 < k
      ensures InTree(2 * i + 2) <==> 3 < k
    {
      Layers(H, size);
      ChildrenIn(H, k, i);
    }

    /** buddy_remain_size: a depth-first walk with a stack of 50 slots. */
    method RemainSize() returns (n: int)
      requires Valid()
      ensures n == size - UsedBytes(tree, H) && 0 <= n
    {
      var alloced: nat, index: nat, sp: nat := 0, 0, 1;
      var stack := new nat[50];
      stack[0] := NO_NODE;
      ghost var ps := [Visit(0, H, tree)];
      FullyUsed(tree, H);
      StartTracks(nodes, H, tree, stack[..]);
      while index != NO_NODE
        invariant Packed() && stack.Length == 50
        invariant Tracks(nodes, H, ps, index, sp, stack[..])
        invariant alloced + PendingUsed(ps) == UsedBytes(tree, H)
        decreases Work(ps)
      {
        TracksFacts(nodes, H, ps, index, sp, stack[..]);
        ghost var v := ps[sp - 1];
        var free := GetSize(index, v.h);
        if free == 0 {
          FullyUsed(v.t, v.h);
          Popped(nodes, H, ps, index, sp, stack[..]);
          var bytes := NodeBytes(index, v.h);
          alloced := alloced + bytes;
          index := stack[sp - 1];
          sp := sp - 1;
          ps := ps[..sp];
          continue;
        }
        index, sp, ps := GoOn(stack, index, sp, ps);
      }
      TracksFacts(nodes, H, ps, index, sp, stack[..]);
      return size - alloced;
    }

    /** The rest of one round: down to the left half, or back to the stack from the lowest layer. */
    method GoOn(stack: array<nat>, index: nat, sp: nat, ghost ps: seq<Visit>)
        returns (index': nat, sp': nat, ghost ps': seq<Visit>)
      requires Packed() && stack.Length == 50 && Tracks(nodes, H, ps, index, sp, stack[..]) && ps != []
      requires Value(ps[|ps| - 1].t, ps[|ps| - 1].h) != 0
      modifies stack
      ensures Tracks(nodes, H, ps', index', sp', stack[..])
      ensures PendingUsed(ps') == PendingUsed(ps) && Work(ps') < Work(ps)
    {
      TracksFacts(nodes, H, ps, index, sp, stack[..]);
      ghost var v := ps[sp - 1];
      InTreeIff(index, v.h);
      ValueBound(v.t, v.h);
      index', sp', ps' := index, sp, ps;
      if InTree(2 * index + 2) {
        Pushed(nodes, H, ps, index, sp, stack[..]);
        OpenedSums(ps);
        var right: nat := 2 * index + 2;
        stack[sp] := right;
        assert stack[..] == old(stack[..])[sp := right];
        sp' := sp + 1;
      }
      if InTree(2 * index + 1) {
        index', ps' := 2 * index + 1, Opened(ps);
      } else {
        Popped(nodes, H, ps, index, sp, stack[..]);
        index' := stack[sp' - 1];
        sp' := sp' - 1;
        ps' := ps[..sp - 1];
      }
    }

    lemma {:induction false} StartStands()
      requires Valid()
      ensures Stands(0, H, Top, tree)
    {
      assert Pow2(0) == 1;
    }

    /** The left child of a node that is not used stands where its parent did. */
    lemma {:induction false} LeftHalf(i: nat, h: nat, p: Path, t: Tree)
      requires Stands(i, h, p, t) && 3 < h && !t.Used?
      ensures Level(H, h - 1, 2 * i + 1) && Val(nodes, h - 1, 2 * i + 1) == Value(Left(t), h - 1) < 64
      ensures Stands(2 * i + 1, h - 1, LeftOf(p, Right(t)), Left(t))
    {
      StandsFacts(i, h, p, t);
      ReprHalves(nodes, H, h, i, t);
      ChildLevel(H, h, i);
      ChildStarts(H, h, i, BaseOf(p, h));
      assert Beside(nodes, H, h - 1, 2 * i + 1, LeftOf(p, Right(t)));
      ValueBound(Left(t), h - 1);
    }

    lemma {:induction false} RightHalf(i: nat, h: nat, p: Path, t: Tree)
      requires Stands(i, h, p, t) && 3 < h && !t.Used?
      ensures Level(H, h - 1, 2 * i + 2)
      ensures Stands(2 * i + 2, h - 1, RightOf(p, Left(t)), Right(t))
    {
      StandsFacts(i, h, p, t);
      ReprHalves(nodes, H, h, i, t);
      ChildLevel(H, h, i);
      ChildStarts(H, h, i, BaseOf(p, h));
      assert Beside(nodes, H, h - 1, 2 * i + 2, RightOf(p, Left(t)));
    }
  }

  /** The block of 2^j bytes at off was free, aligned and inside, and is now live; no other block and
      no other byte changed hands. */
  ghost predicate Taken(before: Tree, after: Tree, H: nat, off: int, j: nat) {
    && 0 <= off && FreeBlock(before, H, 0, off, j)
    && Live(after, H, 0) == Live(before, H, 0) + {Block(off, j)} && Block(off, j) !in Live(before, H, 0)
    && UsedBytes(after, H) == UsedBytes(before, H) + Pow2(j)
  }

  /** The value at the root decides whether any block of 2^j bytes is free. */
  lemma {:induction false} FitOrNone(tree: Tree, H: nat, j: nat)
    requires TreeOk(tree, H) && 3 <= j
    ensures j <= Value(tree, H) <==> exists o :: FreeBlock(tree, H, 0, o, j)
  {
    ZeroAligned(H);
    if j <= Value(tree, H) {
      var o := ValueGives(tree, H, 0, j);
    }
    forall o | FreeBlock(tree, H, 0, o, j) ensures j <= Value(tree, H) {
      ValueBounds(tree, H, 0, o, j);
    }
  }

  /** i is the leftmost node of height h under node, of height k. */
  ghost predicate Leftmost(node: nat, k: nat, h: nat, i: nat) {
    h <= k && i + 1 == (node + 1) * Pow2(k - h)
  }

  /** The parent of a node on the leftmost way below node is on it too. */
  lemma {:induction false} Upwards(node: nat, k: nat, h: nat, i: nat)
    requires h < k && Leftmost(node, k, h, i)
    ensures Leftmost(node, k, h + 1, Parent(i))
  {
    var m := Pow2(k - h - 1);
    assert (node + 1) * (2 * m) == 2 * ((node + 1) * m);
    Scale(m, 1, node + 1);
    assert m * (node + 1) == (node + 1) * m;
  }

  /** The node above the end of a path whose end says t. */
  ghost function Joined(p: Path, t: Tree): (r: Tree)
    ensures r.Split?
  {
    if p.LeftOf? then Split(t, p.sib) else if p.RightOf? then Split(p.sib, t) else Split(t, t)
  }

  /** A block that fits below a node fits in one of its halves. */
  lemma {:induction false} ChildFits(t: Tree, h: nat, j: nat)
    requires TreeOk(t, h) && 3 <= j < h && j <= Value(t, h)
    ensures !t.Used? && (j <= Value(Left(t), h - 1) || j <= Value(Right(t), h - 1))
  {
  }
}
