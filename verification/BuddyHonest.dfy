/** What the value kept at every node of the allocator's tree says about the free blocks below it. */
module BuddyHonest {
  import opened Bytes
  import opened BuddyTree
  import opened BuddyNodes

  /** An aligned block of 2^j bytes at o, within the node of height k at base and clear of every live
      block of the whole tree. */
  ghost predicate FreeUnder(tree: Tree, H: nat, k: nat, base: nat, o: nat, j: nat) {
    && Inside(Block(o, j), base, k) && Aligned(o, j)
    && forall b :: b in Live(tree, H, 0) ==> Apart(b, Block(o, j))
  }

  /** v is log2 of the largest free block of the node, 0 if it has none. */
  ghost predicate Honest(tree: Tree, H: nat, k: nat, base: nat, v: nat) {
    && (v == 0 || 3 <= v)
    && forall j {:trigger HasFree(tree, H, k, base, j)} :: 3 <= j ==> (j <= v <==> HasFree(tree, H, k, base, j))
  }

  ghost predicate HasFree(tree: Tree, H: nat, k: nat, base: nat, j: nat) {
    exists o :: FreeUnder(tree, H, k, base, o, j)
  }

  /** The node lies strictly inside a live block. */
  ghost predicate Buried(tree: Tree, H: nat, k: nat, base: nat) {
    exists b :: b in Live(tree, H, 0) && k < b.k && Inside(Block(base, k), b.off, b.k)
  }

  /** Every node of the tree is honest, except exactly those inside a live block: these keep the value
      they had when the block was taken. */
  lemma {:induction false} NodeHonest(nodes: seq<nat>, H: nat, tree: Tree, k: nat, i: nat, base: nat)
    requires TreeOk(tree, H) && Repr(nodes, H, H, 0, tree) && Level(H, k, i) && StartsAt(H, k, i, base)
    ensures Honest(tree, H, k, base, Val(nodes, k, i)) <==> !Buried(tree, H, k, base)
  {
    StartPlace(tree, H);
    UpLevel(H, k, i, H - k);
    RootLevel(H, H, Up(i, H - k));
    HonestBelow(nodes, H, tree, Top, H, 0, tree, k, i, base);
  }

  lemma {:induction false} UpLevel(H: nat, k: nat, i: nat, n: nat)
    requires Level(H, k, i) && k + n <= H
    ensures Level(H, k + n, Up(i, n))
  {
    if n > 0 {
      UpLevel(H, k, i, n - 1);
      ParentLevel(H, k + n - 1, Up(i, n - 1));
    }
  }

  /** The child of x on the way to i. */
  lemma {:induction false} ChildAbove(H: nat, h: nat, x: nat, k: nat, i: nat) returns (c: nat)
    requires Level(H, k, i) && k < h <= H && Up(i, h - k) == x
    ensures c == Up(i, h - 1 - k) && Level(H, h - 1, c) && (c == 2 * x + 1 || c == 2 * x + 2)
  {
    c := Up(i, h - 1 - k);
    UpLevel(H, k, i, h - 1 - k);
    ParentLevel(H, h - 1, c);
  }

  /** Down from node x of height h to the node i of height k below it. */
  lemma {:induction false} HonestBelow(nodes: seq<nat>, H: nat, tree: Tree, p: Path, h: nat, x: nat, t: Tree,
                                       k: nat, i: nat, base: nat)
    requires Place(tree, H, p, h, t) && Repr(nodes, H, h, x, t) && StartsAt(H, h, x, BaseOf(p, h))
    requires Level(H, k, i) && k <= h && Up(i, h - k) == x && StartsAt(H, k, i, base)
    ensures Honest(tree, H, k, base, Val(nodes, k, i)) <==> !Buried(tree, H, k, base)
    decreases h
  {
    if k == h {
      HonestEnd(nodes, H, tree, p, h, x, t, base);
    } else if t.Used? {
      HonestInside(nodes, H, tree, p, h, x, t, k, i, base);
    } else {
      var q, c, half := Descend(nodes, H, tree, p, h, x, t, k, i);
      HonestBelow(nodes, H, tree, q, h - 1, c, half, k, i, base);
    }
  }

  /** One step on the way from node x down to node i. */
  lemma {:induction false} Descend(nodes: seq<nat>, H: nat, tree: Tree, p: Path, h: nat, x: nat, t: Tree, k: nat,
                                   i: nat)
      returns (q: Path, c: nat, half: Tree)
    requires Place(tree, H, p, h, t) && Repr(nodes, H, h, x, t) && StartsAt(H, h, x, BaseOf(p, h)) && !t.Used?
    requires Level(H, k, i) && k < h && Up(i, h - k) == x
    ensures Place(tree, H, q, h - 1, half) && Repr(nodes, H, h - 1, c, half) && StartsAt(H, h - 1, c, BaseOf(q, h - 1))
    ensures Up(i, h - 1 - k) == c
  {
    c := ChildAbove(H, h, x, k, i);
    ReprHalves(nodes, H, h, x, t);
    ChildStarts(H, h, x, BaseOf(p, h));
    if c == 2 * x + 1 {
      StepLeft(tree, H, p, h, t);
      q, half := LeftOf(p, Right(t)), Left(t);
    } else {
      StepRight(tree, H, p, h, t);
      q, half := RightOf(p, Left(t)), Right(t);
    }
  }

  lemma {:induction false} HonestEnd(nodes: seq<nat>, H: nat, tree: Tree, p: Path, h: nat, x: nat, t: Tree, base: nat)
    requires Place(tree, H, p, h, t) && Repr(nodes, H, h, x, t) && StartsAt(H, h, x, BaseOf(p, h))
    requires StartsAt(H, h, x, base)
    ensures Honest(tree, H, h, base, Val(nodes, h, x)) && !Buried(tree, H, h, base)
  {
    SameStart(H, h, x, BaseOf(p, h), base);
    HonestHere(tree, H, p, h, t);
    NotBuried(tree, H, p, h, t);
  }

  lemma {:induction false} HonestInside(nodes: seq<nat>, H: nat, tree: Tree, p: Path, h: nat, x: nat, t: Tree,
                                        k: nat, i: nat, base: nat)
    requires Place(tree, H, p, h, t) && Repr(nodes, H, h, x, t) && StartsAt(H, h, x, BaseOf(p, h)) && t.Used?
    requires Level(H, k, i) && k < h && Up(i, h - k) == x && StartsAt(H, k, i, base)
    ensures Buried(tree, H, k, base) && !Honest(tree, H, k, base, Val(nodes, k, i))
  {
    WholeBelow(nodes, H, h, x, t, k, i);
    StartsInside(H, h, x, BaseOf(p, h), k, i, base);
    NothingInside(tree, H, p, h, t, k, base);
  }

  lemma {:induction false} SameStart(H: nat, k: nat, i: nat, a: nat, b: nat)
    requires StartsAt(H, k, i, a) && StartsAt(H, k, i, b)
    ensures a == b
  {
  }

  /** At the end of a path the value is that of the subtree, and the rest of the tree is elsewhere. */
  lemma {:induction false} HonestHere(tree: Tree, H: nat, p: Path, h: nat, t: Tree)
    requires Place(tree, H, p, h, t)
    ensures Honest(tree, H, h, BaseOf(p, h), Value(t, h))
  {
    assert OpenPlace(Key);
    var base := BaseOf(p, h);
    ValueBound(t, h);
    AroundApart(p, h);
    forall j {:trigger HasFree(tree, H, h, base, j)} | 3 <= j
      ensures j <= Value(t, h) <==> HasFree(tree, H, h, base, j)
    {
      if j <= Value(t, h) {
        var o := ValueGives(t, h, base, j);
        Elsewhere(tree, H, p, h, t, o, j);
      }
      forall o | FreeUnder(tree, H, h, base, o, j) ensures j <= Value(t, h) {
        ValueBounds(t, h, base, o, j);
      }
    }
  }

  lemma {:induction false} Elsewhere(tree: Tree, H: nat, p: Path, h: nat, t: Tree, o: nat, j: nat)
    requires Place(tree, H, p, h, t) && FreeBlock(t, h, BaseOf(p, h), o, j)
    ensures FreeUnder(tree, H, h, BaseOf(p, h), o, j)
  {
    assert OpenPlace(Key);
    AroundApart(p, h);
  }

  lemma {:induction false} NotBuried(tree: Tree, H: nat, p: Path, h: nat, t: Tree)
    requires Place(tree, H, p, h, t)
    ensures !Buried(tree, H, h, BaseOf(p, h))
  {
    assert OpenPlace(Key);
    var base := BaseOf(p, h);
    AroundApart(p, h);
    LiveSound(t, h, base);
    forall b | b in Live(tree, H, 0) && h < b.k ensures !Inside(Block(base, h), b.off, b.k) {
      Pow2Monotone(h + 1, b.k);
    }
  }

  /** Under a used or a whole node every node is whole. */
  lemma {:induction false} WholeBelow(nodes: seq<nat>, H: nat, h: nat, x: nat, t: Tree, k: nat, i: nat)
    requires Repr(nodes, H, h, x, t) && !t.Split? && Level(H, k, i) && k < h && Up(i, h - k) == x
    ensures Val(nodes, k, i) == k
    decreases h
  {
    var c := ChildAbove(H, h, x, k, i);
    ReprHalves(nodes, H, h, x, t);
    if k < h - 1 {
      var whole := if c == 2 * x + 1 then Left(t) else Right(t);
      WholeBelow(nodes, H, h - 1, c, whole, k, i);
    }
  }

  lemma {:induction false} StartsInside(H: nat, h: nat, x: nat, off: nat, k: nat, i: nat, base: nat)
    requires Level(H, h, x) && StartsAt(H, h, x, off) && Level(H, k, i) && StartsAt(H, k, i, base)
    requires k <= h && Up(i, h - k) == x
    ensures Inside(Block(base, k), off, h)
    decreases h
  {
    if k < h {
      var c := ChildAbove(H, h, x, k, i);
      ChildStarts(H, h, x, off);
      StartsInside(H, h - 1, c, if c == 2 * x + 1 then off else off + Pow2(h - 1), k, i, base);
    }
  }

  /** A whole value inside a live block promises what is not there. */
  lemma {:induction false} NothingInside(tree: Tree, H: nat, p: Path, h: nat, t: Tree, k: nat, base: nat)
    requires Place(tree, H, p, h, t) && t.Used? && 3 <= k < h && Inside(Block(base, k), BaseOf(p, h), h)
    ensures Buried(tree, H, k, base) && !Honest(tree, H, k, base, k)
  {
    assert OpenPlace(Key);
    var b := Block(BaseOf(p, h), h);
    assert b in Live(t, h, BaseOf(p, h)) && b in Live(tree, H, 0);
    forall o ensures !FreeUnder(tree, H, k, base, o, k) {
      assert FreeUnder(tree, H, k, base, o, k) ==> Apart(b, Block(o, k));
    }
    assert !HasFree(tree, H, k, base, k);
  }
}
