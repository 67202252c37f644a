/** The buddy allocator's implicit tree: node i has children 2i + 1 and 2i + 2, nodes of height 5 and
    more hold a value, nodes of height 4 and 3 one bit each. */
module BuddyNodes {
  import opened Bytes
  import opened BuddyTree

  function At(nodes: seq<nat>, i: nat): nat {
    if i < |nodes| then nodes[i] else 0
  }

  /** What get_size decodes at a node of height k. */
  function Val(nodes: seq<nat>, k: nat, i: nat): nat {
    if k >= 5 then At(nodes, i)
    else if At(nodes, i) != 1 then 0
    else if k == 3 then 3
    else if At(nodes, 2 * i + 1) == 1 && At(nodes, 2 * i + 2) == 1 then 4
    else if At(nodes, 2 * i + 1) == 1 || At(nodes, 2 * i + 2) == 1 then 3
    else 0
  }

  /** Node i has height k in a tree whose root has height H. */
  ghost predicate Level(H: nat, k: nat, i: nat) {
    3 <= k <= H && Pow2(H - k) <= i + 1 < 2 * Pow2(H - k)
  }

  function Parent(i: nat): nat {
    if i == 0 then 0 else (i + 1) / 2 - 1
  }

  lemma {:induction false} ChildLevel(H: nat, k: nat, i: nat)
    requires Level(H, k, i) && 3 < k
    ensures Level(H, k - 1, 2 * i + 1) && Level(H, k - 1, 2 * i + 2)
    ensures Parent(2 * i + 1) == i && Parent(2 * i + 2) == i
  {
  }

  lemma {:induction false} ParentLevel(H: nat, k: nat, i: nat)
    requires Level(H, k, i) && k < H
    ensures 0 < i && Level(H, k + 1, Parent(i)) && (i == 2 * Parent(i) + 1 || i == 2 * Parent(i) + 2)
  {
    assert Pow2(H - k) == 2 * Pow2(H - k - 1);
  }

  lemma {:induction false} RootLevel(H: nat, k: nat, i: nat)
    requires Level(H, k, i)
    ensures i == 0 <==> k == H
  {
    if k < H {
      ParentLevel(H, k, i);
    }
  }

  /** A node has one height. */
  lemma {:induction false} LevelUnique(H: nat, k: nat, j: nat, i: nat)
    requires Level(H, k, i) && Level(H, j, i)
    ensures k == j
  {
    if k < j {
      Pow2Monotone(H - j + 1, H - k);
    } else if j < k {
      Pow2Monotone(H - k + 1, H - j);
    }
  }

  lemma {:induction false} LevelRange(H: nat, k: nat, i: nat)
    requires Level(H, k, i)
    ensures i < Pow2(H - 2) - 1
  {
    Pow2Monotone(H - k + 1, H - 2);
  }

  lemma {:induction false} ChildrenIn(H: nat, k: nat, i: nat)
    requires Level(H, k, i)
    ensures 3 < k <==> 2 * i + 1 < Pow2(H - 2) - 1
    ensures 3 < k <==> 2 * i + 2 < Pow2(H - 2) - 1
  {
    if 3 < k {
      ChildLevel(H, k, i);
      LevelRange(H, k - 1, 2 * i + 1);
      LevelRange(H, k - 1, 2 * i + 2);
    }
  }

  ghost predicate OpenRepr(k: Key) {
    true
  }

  /** The nodes of the subtree at i say what t says. */
  ghost predicate Repr(nodes: seq<nat>, H: nat, k: nat, i: nat, t: Tree)
    decreases k
  {
    && Level(H, k, i) && Val(nodes, k, i) == Value(t, k)
    && forall key: Key {:trigger OpenRepr(key)} :: OpenRepr(key) ==>
         (3 < k ==> Repr(nodes, H, k - 1, 2 * i + 1, Left(t)) && Repr(nodes, H, k - 1, 2 * i + 2, Right(t)))
  }

  lemma {:induction false} ReprHalves(nodes: seq<nat>, H: nat, k: nat, i: nat, t: Tree)
    requires Repr(nodes, H, k, i, t) && 3 < k
    ensures Repr(nodes, H, k - 1, 2 * i + 1, Left(t)) && Repr(nodes, H, k - 1, 2 * i + 2, Right(t))
  {
    assert OpenRepr(Key);
  }

  /** The nodes beside the way up from node i say what the path says; the values on the way itself
      may be out of date. */
  ghost predicate Beside(nodes: seq<nat>, H: nat, h: nat, i: nat, p: Path)
    decreases p
  {
    && Level(H, h, i)
    && match p
       case Top => h == H
       case LeftOf(up, sib) =>
         h < H && i == 2 * Parent(i) + 1 && Repr(nodes, H, h, i + 1, sib) && Beside(nodes, H, h + 1, Parent(i), up)
       case RightOf(up, sib) =>
         h < H && 2 <= i == 2 * Parent(i) + 2 && Repr(nodes, H, h, i - 1, sib) && Beside(nodes, H, h + 1, Parent(i), up)
  }

  /** The n-th node on the way up from x. */
  ghost function Up(x: nat, n: nat): nat {
    if n == 0 then x else Parent(Up(x, n - 1))
  }

  ghost predicate Under(H: nat, k: nat, i: nat, hx: nat, x: nat) {
    hx <= k && Up(x, k - hx) == i
  }

  lemma {:induction false} ValKept(nodes: seq<nat>, k: nat, i: nat, x: nat, v: nat)
    requires x < |nodes| && 3 <= k && x != i && (k == 4 ==> x != 2 * i + 1 && x != 2 * i + 2)
    ensures Val(nodes[x := v], k, i) == Val(nodes, k, i)
  {
  }

  /** A change at x, of height hx, is not seen by a subtree x is not in. */
  lemma {:induction false} ReprKept(nodes: seq<nat>, H: nat, k: nat, i: nat, t: Tree, hx: nat, x: nat, v: nat)
    requires Repr(nodes, H, k, i, t) && Level(H, hx, x) && x < |nodes|
    requires !Under(H, k, i, hx, x)
    ensures Repr(nodes[x := v], H, k, i, t)
    decreases k
  {
    NotHere(H, k, i, hx, x);
    if 3 < k {
      ReprHalves(nodes, H, k, i, t);
      NotInHalves(H, k, i, hx, x);
      ReprKept(nodes, H, k - 1, 2 * i + 1, Left(t), hx, x, v);
      ReprKept(nodes, H, k - 1, 2 * i + 2, Right(t), hx, x, v);
    }
    ValKept(nodes, k, i, x, v);
  }

  lemma {:induction false} NotInHalves(H: nat, k: nat, i: nat, hx: nat, x: nat)
    requires 3 < k && Level(H, k, i) && Level(H, hx, x) && !Under(H, k, i, hx, x)
    ensures !Under(H, k - 1, 2 * i + 1, hx, x) && x != 2 * i + 1
    ensures !Under(H, k - 1, 2 * i + 2, hx, x) && x != 2 * i + 2
  {
    ChildLevel(H, k, i);
    NotBelow(H, k, i, 2 * i + 1, hx, x);
    NotBelow(H, k, i, 2 * i + 2, hx, x);
  }

  lemma {:induction false} NotHere(H: nat, k: nat, i: nat, hx: nat, x: nat)
    requires Level(H, k, i) && Level(H, hx, x) && !Under(H, k, i, hx, x)
    ensures x != i
  {
    if x == i {
      LevelUnique(H, k, hx, x);
    }
  }

  lemma {:induction false} NotBelow(H: nat, k: nat, i: nat, c: nat, hx: nat, x: nat)
    requires 3 < k && Level(H, k - 1, c) && Level(H, hx, x) && Parent(c) == i && !Under(H, k, i, hx, x)
    ensures !Under(H, k - 1, c, hx, x) && x != c
  {
    assert hx <= k - 1 ==> Up(x, k - hx) == Parent(Up(x, k - 1 - hx));
    NotHere(H, k - 1, c, hx, x);
  }

  /** A change at x, somewhere under node i, is not seen beside the way up from i. */
  lemma {:induction false} BesideKept(nodes: seq<nat>, H: nat, h: nat, i: nat, p: Path, hx: nat, x: nat, v: nat)
    requires Beside(nodes, H, h, i, p) && Level(H, hx, x) && x < |nodes| && Under(H, h, i, hx, x)
    ensures Beside(nodes[x := v], H, h, i, p)
    decreases p
  {
    if !p.Top? {
      assert Up(x, h + 1 - hx) == Parent(Up(x, h - hx));
      BesideKept(nodes, H, h + 1, Parent(i), p.up, hx, x, v);
      ReprKept(nodes, H, h, if p.LeftOf? then i + 1 else i - 1, p.sib, hx, x, v);
    }
  }

  /** Taking a whole free node: its value becomes 0 and the halves below stay whole. */
  lemma {:induction false} TakeNode(nodes: seq<nat>, H: nat, k: nat, i: nat)
    requires Repr(nodes, H, k, i, Free) && i < |nodes|
    ensures Repr(nodes[i := 0], H, k, i, Used)
  {
    if 3 < k {
      ReprHalves(nodes, H, k, i, Free);
      ChildLevel(H, k, i);
      ReprKept(nodes, H, k - 1, 2 * i + 1, Free, k, i, 0);
      ReprKept(nodes, H, k - 1, 2 * i + 2, Free, k, i, 0);
    }
  }

  /** Writing the larger of the children's values at their parent makes it a split node. */
  lemma {:induction false} MendNode(nodes: seq<nat>, H: nat, k: nat, i: nat, l: Tree, r: Tree, v: nat)
    requires Level(H, k, i) && 3 < k && i < |nodes|
    requires Repr(nodes, H, k - 1, 2 * i + 1, l) && Repr(nodes, H, k - 1, 2 * i + 2, r)
    requires 5 <= k ==> v == Max(Val(nodes, k - 1, 2 * i + 1), Val(nodes, k - 1, 2 * i + 2))
    requires k == 4 ==> v == if At(nodes, 2 * i + 1) == 1 || At(nodes, 2 * i + 2) == 1 then 1 else 0
    requires k == 4 ==> !(l.Free? && r.Free?) && TreeOk(l, 3) && TreeOk(r, 3)
    ensures Repr(nodes[i := v], H, k, i, Split(l, r))
  {
    ChildLevel(H, k, i);
    ReprKept(nodes, H, k - 1, 2 * i + 1, l, k, i, v);
    ReprKept(nodes, H, k - 1, 2 * i + 2, r, k, i, v);
    MendValue(nodes, k, i, l, r, v);
  }

  lemma {:induction false} MendValue(nodes: seq<nat>, k: nat, i: nat, l: Tree, r: Tree, v: nat)
    requires 3 < k && i < |nodes|
    requires Val(nodes, k - 1, 2 * i + 1) == Value(l, k - 1) && Val(nodes, k - 1, 2 * i + 2) == Value(r, k - 1)
    requires 5 <= k ==> v == Max(Val(nodes, k - 1, 2 * i + 1), Val(nodes, k - 1, 2 * i + 2))
    requires k == 4 ==> v == if At(nodes, 2 * i + 1) == 1 || At(nodes, 2 * i + 2) == 1 then 1 else 0
    requires k == 4 ==> !(l.Free? && r.Free?) && TreeOk(l, 3) && TreeOk(r, 3)
    ensures Val(nodes[i := v], k, i) == Value(Split(l, r), k)
  {
  }

  /** Every node of a freshly filled tree is whole. */
  lemma {:induction false} Fresh(nodes: seq<nat>, H: nat, k: nat, i: nat)
    requires Level(H, k, i)
    requires forall j, c {:trigger Level(H, j, c)} :: 3 <= j <= H && Level(H, j, c) ==> At(nodes, c) == if j >= 5 then j
            else 1
    ensures Repr(nodes, H, k, i, Free)
    decreases k
  {
    if 3 < k {
      ChildLevel(H, k, i);
      Fresh(nodes, H, k - 1, 2 * i + 1);
      Fresh(nodes, H, k - 1, 2 * i + 2);
    }
  }

  // ----- searching upwards from a live block -----

  lemma {:induction false} ChildOffsets(i: nat, k: nat)
    requires 0 < k
    ensures (2 * i + 2) * Pow2(k - 1) == (i + 1) * Pow2(k)
    ensures (2 * i + 3) * Pow2(k - 1) == (i + 1) * Pow2(k) + Pow2(k - 1)
  {
    var m := Pow2(k - 1);
    assert (2 * i + 2) * m == (i + 1) * (2 * m);
    assert (2 * i + 3) * m == (2 * i + 2) * m + m;
  }

  /** Where the bytes of node i of height k start. */
  ghost predicate StartsAt(H: nat, k: nat, i: nat, base: nat) {
    (i + 1) * Pow2(k) == base + Pow2(H)
  }

  lemma {:induction false} ChildStarts(H: nat, k: nat, i: nat, base: nat)
    requires 0 < k && StartsAt(H, k, i, base)
    ensures StartsAt(H, k - 1, 2 * i + 1, base) && StartsAt(H, k - 1, 2 * i + 2, base + Pow2(k - 1))
  {
    ChildOffsets(i, k);
  }

  /** The node of a live block, in the subtree of height k at i that starts at base. */
  lemma {:induction false} FindUsed(nodes: seq<nat>, H: nat, k: nat, i: nat, t: Tree, base: nat, b: Block)
      returns (ib: nat)
    requires Repr(nodes, H, k, i, t) && TreeOk(t, k) && b in Live(t, k, base) && StartsAt(H, k, i, base)
    ensures 3 <= b.k <= k && Repr(nodes, H, b.k, ib, Used) && StartsAt(H, b.k, ib, b.off)
    decreases t
  {
    if t.Used? {
      ib := i;
    } else {
      ReprHalves(nodes, H, k, i, t);
      ChildStarts(H, k, i, base);
      if b in Live(t.l, k - 1, base) {
        ib := FindUsed(nodes, H, k - 1, 2 * i + 1, t.l, base, b);
      } else {
        ib := FindUsed(nodes, H, k - 1, 2 * i + 2, t.r, base + Pow2(k - 1), b);
      }
    }
  }

  lemma {:induction false} HalfProduct(i: nat, n: nat)
    requires 0 < n
    ensures (i + 1) * Pow2(n) == (2 * i + 1 + 1) * Pow2(n - 1)
  {
    var q := Pow2(n - 1);
    assert (i + 1) * (2 * q) == (2 * i + 1 + 1) * q;
  }

  /** Below a used node the leftmost nodes are whole, so none of them stops the search. */
  lemma {:induction false} LeftmostWhole(nodes: seq<nat>, H: nat, k: nat, i: nat, t: Tree, h: nat, c: nat)
    requires Repr(nodes, H, k, i, t) && (t.Free? || t.Used?) && 3 <= h < k
    requires c + 1 == (i + 1) * Pow2(k - h)
    ensures Level(H, h, c) && Val(nodes, h, c) == h
    decreases k
  {
    ReprHalves(nodes, H, k, i, t);
    ChildLevel(H, k, i);
    HalfProduct(i, k - h);
    if h < k - 1 {
      LeftmostWhole(nodes, H, k - 1, 2 * i + 1, Free, h, c);
    } else {
      assert Pow2(0) == 1;
    }
  }
}
