/** The meaning of the buddy allocator's tree: which blocks are live, and what the value kept at a
    node says about the free ones. */
module BuddyTree {
  import opened Bytes

  function Pow2(n: nat): (p: nat)
    ensures 0 < p
  {
    if n == 0 then 1 else 2 * Pow2(n - 1)
  }

  /** A node of height k manages 2^k bytes; nodes of height 3 are the smallest. */
  datatype Tree = Free | Used | Split(l: Tree, r: Tree)

  /** The left and right halves of a node; those of a free or a used one are whole. */
  ghost function Left(t: Tree): Tree {
    if t.Split? then t.l else Free
  }

  ghost function Right(t: Tree): Tree {
    if t.Split? then t.r else Free
  }

  /** A tree that fits height k and whose split nodes hold something. */
  ghost predicate TreeOk(t: Tree, k: nat)
    decreases t
  {
    3 <= k && (t.Split? ==> 3 < k && TreeOk(t.l, k - 1) && TreeOk(t.r, k - 1) && !(t.l.Free? && t.r.Free?))
  }

  function Max(a: nat, b: nat): nat {
    if a > b then a else b
  }

  /** The value of a node: log2 of the largest block it can give, 0 for none. */
  ghost function Value(t: Tree, k: nat): nat
    decreases t
  {
    match t
    case Free => k
    case Used => 0
    case Split(l, r) => if k == 0 then 0 else Max(Value(l, k - 1), Value(r, k - 1))
  }

  /** A block: 2^k bytes at off. */
  datatype Block = Block(off: nat, k: nat)

  /** The live blocks under a node of height k at base. */
  ghost function Live(t: Tree, k: nat, base: nat): set<Block>
    decreases t
  {
    match t
    case Free => {}
    case Used => {Block(base, k)}
    case Split(l, r) => if k == 0 then {} else Live(l, k - 1, base) + Live(r, k - 1, base + Pow2(k - 1))
  }

  /** Bytes in live blocks. */
  ghost function UsedBytes(t: Tree, k: nat): nat
    decreases t
  {
    match t
    case Free => 0
    case Used => Pow2(k)
    case Split(l, r) => if k == 0 then 0 else UsedBytes(l, k - 1) + UsedBytes(r, k - 1)
  }

  ghost predicate Apart(a: Block, b: Block) {
    a.off + Pow2(a.k) <= b.off || b.off + Pow2(b.k) <= a.off
  }

  ghost predicate Inside(b: Block, base: nat, k: nat) {
    base <= b.off && b.off + Pow2(b.k) <= base + Pow2(k)
  }

  ghost predicate OpenAligned(k: Key) {
    true
  }

  /** off is a multiple of 2^k. */
  ghost predicate Aligned(off: nat, k: nat) {
    forall key: Key {:trigger OpenAligned(key)} :: OpenAligned(key) ==> off % Pow2(k) == 0
  }

  lemma {:induction false} ZeroAligned(k: nat)
    ensures Aligned(0, k)
  {
    MultipleMod(Pow2(k), 0);
  }

  lemma {:induction false} ValueBound(t: Tree, k: nat)
    requires TreeOk(t, k)
    ensures Value(t, k) <= k && (Value(t, k) == k <==> t.Free?) && (Value(t, k) != 0 ==> 3 <= Value(t, k))
    decreases t
  {
    if t.Split? {
      ValueBound(t.l, k - 1);
      ValueBound(t.r, k - 1);
    }
  }

  /** Nothing is free exactly when every byte is in a live block. */
  lemma {:induction false} FullyUsed(t: Tree, k: nat)
    requires TreeOk(t, k)
    ensures UsedBytes(t, k) <= Pow2(k)
    ensures Value(t, k) == 0 ==> UsedBytes(t, k) == Pow2(k)
    decreases t
  {
    if t.Split? {
      FullyUsed(t.l, k - 1);
      FullyUsed(t.r, k - 1);
    }
  }

  // ----- alignment -----

  lemma {:induction false} Pow2Splits(j: nat, k: nat)
    requires j <= k
    ensures Pow2(k) == Pow2(j) * Pow2(k - j)
    decreases k
  {
    if j < k {
      Pow2Splits(j, k - 1);
      assert 2 * (Pow2(j) * Pow2(k - 1 - j)) == Pow2(j) * (2 * Pow2(k - 1 - j));
    }
  }

  lemma {:induction false} Pow2Monotone(j: nat, k: nat)
    requires j <= k
    ensures Pow2(j) <= Pow2(k)
    decreases k
  {
    if j < k {
      Pow2Monotone(j, k - 1);
    }
  }

  /** x is a multiple of m, with the factor named. */
  lemma {:induction false} Factor(x: nat, m: nat) returns (q: nat)
    requires 0 < m && x % m == 0
    ensures x == m * q
  {
    q := x / m;
  }

  lemma {:induction false} MultipleMod(m: nat, q: nat)
    requires 0 < m
    ensures (m * q) % m == 0
  {
    var x := m * q;
    var d, r := x / m, x % m;
    assert x == m * d + r;
    assert m * (d + 1) == m * d + m && m * (q + 1) == m * q + m;
    if d < q {
      Scale(m, d + 1, q);
    } else if q < d {
      Scale(m, q + 1, d);
    }
  }

  lemma {:induction false} AddMod(x: nat, m: nat)
    requires 0 < m && x % m == 0
    ensures (x + m) % m == 0
  {
    var q := Factor(x, m);
    assert x + m == m * (q + 1);
    MultipleMod(m, q + 1);
  }

  /** Alignment to 2^k gives alignment to every smaller power. */
  lemma {:induction false} AlignedDown(off: nat, k: nat, j: nat)
    requires j <= k && Aligned(off, k)
    ensures Aligned(off, j)
  {
    assert OpenAligned(Key);
    var q := Factor(off, Pow2(k));
    Pow2Splits(j, k);
    assert off == Pow2(j) * (Pow2(k - j) * q);
    MultipleMod(Pow2(j), Pow2(k - j) * q);
  }

  /** The right half of an aligned node is aligned to its own size. */
  lemma {:induction false} HalfAligned(base: nat, k: nat)
    requires 0 < k && Aligned(base, k)
    ensures Aligned(base, k - 1) && Aligned(base + Pow2(k - 1), k - 1)
  {
    AlignedDown(base, k, k - 1);
    assert OpenAligned(Key);
    AddMod(base, Pow2(k - 1));
  }

  /** Of two multiples of 2^j the smaller ends before the larger starts. */
  lemma {:induction false} AlignedStep(a: nat, b: nat, j: nat)
    requires Aligned(a, j) && Aligned(b, j) && a < b
    ensures a + Pow2(j) <= b
  {
    assert OpenAligned(Key);
    var p := Factor(a, Pow2(j));
    var q := Factor(b, Pow2(j));
    assert Pow2(j) * (p + 1) == Pow2(j) * p + Pow2(j);
    if p >= q {
      Scale(Pow2(j), q, p);
    } else {
      Scale(Pow2(j), p + 1, q);
    }
  }

  lemma {:induction false} Scale(m: nat, a: nat, b: nat)
    requires a <= b
    ensures m * a <= m * b
  {
    assert m * b == m * a + m * (b - a);
  }

  // ----- live blocks -----

  /** Live blocks lie inside their node, aligned to their size, and no two overlap. */
  lemma {:induction false} LiveSound(t: Tree, k: nat, base: nat)
    requires TreeOk(t, k) && Aligned(base, k)
    ensures forall b :: b in Live(t, k, base) ==> Inside(b, base, k) && 3 <= b.k <= k && Aligned(b.off, b.k)
    ensures forall a, b :: a in Live(t, k, base) && b in Live(t, k, base) && a != b ==> Apart(a, b)
    decreases t
  {
    if t.Split? {
      HalfAligned(base, k);
      LiveSound(t.l, k - 1, base);
      LiveSound(t.r, k - 1, base + Pow2(k - 1));
    }
  }

  lemma {:induction false} LiveNonempty(t: Tree, k: nat, base: nat)
    requires TreeOk(t, k) && !t.Free?
    ensures Live(t, k, base) != {}
    decreases t
  {
    if t.Split? {
      if !t.l.Free? {
        LiveNonempty(t.l, k - 1, base);
      } else {
        LiveNonempty(t.r, k - 1, base + Pow2(k - 1));
      }
    } else {
      assert Block(base, k) in Live(t, k, base);
    }
  }

  /** A block of 2^j bytes at o, aligned, within the node, and clear of every live block. */
  ghost predicate FreeBlock(t: Tree, k: nat, base: nat, o: nat, j: nat) {
    && Inside(Block(o, j), base, k) && Aligned(o, j)
    && forall b :: b in Live(t, k, base) ==> Apart(b, Block(o, j))
  }

  /** A node's value is honest: it has a free aligned block of 2^j bytes if j is at most its value. */
  lemma {:induction false} ValueGives(t: Tree, k: nat, base: nat, j: nat) returns (o: nat)
    requires TreeOk(t, k) && Aligned(base, k) && 3 <= j <= Value(t, k)
    ensures FreeBlock(t, k, base, o, j)
    decreases t
  {
    ValueBound(t, k);
    if t.Free? {
      o := base;
      AlignedDown(base, k, j);
      Pow2Monotone(j, k);
    } else {
      HalfAligned(base, k);
      LiveSound(t.l, k - 1, base);
      LiveSound(t.r, k - 1, base + Pow2(k - 1));
      if j <= Value(t.l, k - 1) {
        o := ValueGives(t.l, k - 1, base, j);
      } else {
        o := ValueGives(t.r, k - 1, base + Pow2(k - 1), j);
      }
    }
  }

  /** A split node is never free as a whole. */
  lemma {:induction false} NotWhole(t: Tree, k: nat, base: nat, o: nat)
    requires TreeOk(t, k) && Aligned(base, k) && t.Split?
    ensures !FreeBlock(t, k, base, o, k)
  {
    LiveNonempty(t, k, base);
    LiveSound(t, k, base);
    var b :| b in Live(t, k, base);
    assert o == base ==> !Apart(b, Block(o, k));
  }

  /** And it hides nothing: a free aligned block of 2^j bytes is never larger than the value. */
  lemma {:induction false} ValueBounds(t: Tree, k: nat, base: nat, o: nat, j: nat)
    requires TreeOk(t, k) && Aligned(base, k) && 3 <= j && FreeBlock(t, k, base, o, j)
    ensures j <= Value(t, k)
    decreases t
  {
    assert t.Used? ==> Apart(Block(base, k), Block(o, j));
    if k < j {
      Pow2Monotone(k + 1, j);
    } else if t.Split? {
      var mid := base + Pow2(k - 1);
      HalfAligned(base, k);
      if j == k {
        NotWhole(t, k, base, o);
      } else if o < mid {
        AlignedDown(mid, k - 1, j);
        AlignedStep(o, mid, j);
        ValueBounds(t.l, k - 1, base, o, j);
      } else {
        ValueBounds(t.r, k - 1, mid, o, j);
      }
    }
  }

  // ----- a place in the tree -----

  /** The way from a node up to the root, with the subtrees that hang off it. */
  datatype Path = Top | LeftOf(up: Path, sib: Tree) | RightOf(up: Path, sib: Tree)

  ghost function Plug(p: Path, t: Tree): Tree
    decreases p
  {
    match p
    case Top => t
    case LeftOf(up, sib) => Plug(up, Split(t, sib))
    case RightOf(up, sib) => Plug(up, Split(sib, t))
  }

  /** The height of the root above a node of height h. */
  ghost function RootHeight(p: Path, h: nat): nat
    decreases p
  {
    if p.Top? then h else RootHeight(p.up, h + 1)
  }

  /** Where the node of height h at the end of the path starts. */
  ghost function BaseOf(p: Path, h: nat): nat
    decreases p
  {
    match p
    case Top => 0
    case LeftOf(up, _) => BaseOf(up, h + 1)
    case RightOf(up, _) => BaseOf(up, h + 1) + Pow2(h)
  }

  ghost predicate PathOk(p: Path, h: nat)
    decreases p
  {
    3 <= h && (!p.Top? ==> TreeOk(p.sib, h) && PathOk(p.up, h + 1))
  }

  /** Live blocks off the path. */
  ghost function Around(p: Path, h: nat): set<Block>
    decreases p
  {
    match p
    case Top => {}
    case LeftOf(up, sib) => Live(sib, h, BaseOf(p, h) + Pow2(h)) + Around(up, h + 1)
    case RightOf(up, sib) => Live(sib, h, BaseOf(up, h + 1)) + Around(up, h + 1)
  }

  ghost function UsedAround(p: Path, h: nat): nat
    decreases p
  {
    if p.Top? then 0 else UsedBytes(p.sib, h) + UsedAround(p.up, h + 1)
  }

  /** What is live in a whole tree is what is live at the place and around it. */
  lemma {:induction false} PlugLive(p: Path, h: nat, t: Tree)
    ensures Live(Plug(p, t), RootHeight(p, h), 0) == Live(t, h, BaseOf(p, h)) + Around(p, h)
    decreases p
  {
    match p
    case Top =>
      assert Around(p, h) == {};
    case LeftOf(up, sib) =>
      PlugLive(up, h + 1, Split(t, sib));
      LeftLive(Live(Plug(p, t), RootHeight(p, h), 0), up, h + 1, Split(t, sib), h, BaseOf(up, h + 1));
    case RightOf(up, sib) =>
      PlugLive(up, h + 1, Split(sib, t));
      RightLive(Live(Plug(p, t), RootHeight(p, h), 0), up, h + 1, Split(sib, t), h, BaseOf(up, h + 1), BaseOf(p, h));
  }

  lemma {:induction false} SplitLive(l: Tree, r: Tree, g: nat, base: nat)
    ensures Live(Split(l, r), g + 1, base) == Live(l, g, base) + Live(r, g, base + Pow2(g))
  {
  }

  /** A left half with what is beside it and above it is the left half with all that is around it. */
  lemma {:induction false} RegroupLeft(all: set<Block>, node: set<Block>, above: set<Block>,
                                       here: set<Block>, beside: set<Block>, around: set<Block>)
    requires all == node + above && node == here + beside && around == beside + above
    ensures all == here + around
  {
  }

  lemma {:induction false} RegroupRight(all: set<Block>, node: set<Block>, above: set<Block>,
                                        here: set<Block>, beside: set<Block>, around: set<Block>)
    requires all == node + above && node == beside + here && around == beside + above
    ensures all == here + around
  {
  }

  lemma {:induction false} PlugUsed(p: Path, h: nat, t: Tree)
    ensures UsedBytes(Plug(p, t), RootHeight(p, h)) == UsedBytes(t, h) + UsedAround(p, h)
    decreases p
  {
    match p
    case Top =>
    case LeftOf(up, sib) => PlugUsed(up, h + 1, Split(t, sib));
    case RightOf(up, sib) => PlugUsed(up, h + 1, Split(sib, t));
  }

  /** A non-free node at the end of a path makes the whole tree well formed. */
  lemma {:induction false} PlugOk(p: Path, h: nat, t: Tree)
    requires PathOk(p, h) && TreeOk(t, h) && (!p.Top? ==> !t.Free?)
    ensures TreeOk(Plug(p, t), RootHeight(p, h))
    decreases p
  {
    match p
    case Top =>
    case LeftOf(up, sib) => PlugOk(up, h + 1, Split(t, sib));
    case RightOf(up, sib) => PlugOk(up, h + 1, Split(sib, t));
  }

  ghost predicate OpenPlace(k: Key) {
    true
  }

  /** A node t of height h at the end of p, in a tree of height H with the same live blocks. */
  ghost predicate Place(tree: Tree, H: nat, p: Path, h: nat, t: Tree) {
    && TreeOk(t, h)
    && forall k: Key {:trigger OpenPlace(k)} :: OpenPlace(k) ==>
         && PathOk(p, h) && RootHeight(p, h) == H && Aligned(BaseOf(p, h), h)
         && Live(tree, H, 0) == Live(t, h, BaseOf(p, h)) + Around(p, h)
         && UsedBytes(tree, H) == UsedBytes(t, h) + UsedAround(p, h)
  }

  lemma {:induction false} StartPlace(tree: Tree, H: nat)
    requires TreeOk(tree, H)
    ensures Place(tree, H, Top, H, tree)
  {
    ZeroAligned(H);
    assert Live(tree, H, 0) + {} == Live(tree, H, 0);
  }

  /** A node that is not used is its two halves. */
  lemma {:induction false} Halves(t: Tree, h: nat)
    requires TreeOk(t, h) && !t.Used? && 3 < h
    ensures TreeOk(Left(t), h - 1) && TreeOk(Right(t), h - 1)
    ensures UsedBytes(t, h) == UsedBytes(Left(t), h - 1) + UsedBytes(Right(t), h - 1)
  {
  }

  lemma {:induction false} HalvesLive(t: Tree, g: nat, base: nat)
    requires !t.Used?
    ensures Live(t, g + 1, base) == Live(Left(t), g, base) + Live(Right(t), g, base + Pow2(g))
  {
    if t.Split? {
      SplitLive(t.l, t.r, g, base);
    }
  }

  lemma {:induction false} LeftLive(all: set<Block>, p: Path, h: nat, t: Tree, g: nat, base: nat)
    requires !t.Used? && h == g + 1 && base == BaseOf(p, h) && all == Live(t, h, base) + Around(p, h)
    ensures all == Live(Left(t), g, base) + Around(LeftOf(p, Right(t)), g)
  {
    HalvesLive(t, g, base);
    LeftAround(p, Right(t), g, base);
    RegroupLeft(all, Live(t, h, base), Around(p, h), Live(Left(t), g, base), Live(Right(t), g, base + Pow2(g)),
                Around(LeftOf(p, Right(t)), g));
  }

  lemma {:induction false} RightLive(all: set<Block>, p: Path, h: nat, t: Tree, g: nat, base: nat, mid: nat)
    requires !t.Used? && h == g + 1 && base == BaseOf(p, h) && mid == base + Pow2(g)
    requires all == Live(t, h, base) + Around(p, h)
    ensures all == Live(Right(t), g, mid) + Around(RightOf(p, Left(t)), g)
  {
    HalvesLive(t, g, base);
    RightAround(p, Left(t), g, base);
    RegroupRight(all, Live(t, h, base), Around(p, h), Live(Right(t), g, mid), Live(Left(t), g, base),
                 Around(RightOf(p, Left(t)), g));
  }

  lemma {:induction false} LeftPath(p: Path, r: Tree, g: nat)
    requires PathOk(p, g + 1) && TreeOk(r, g)
    ensures var q := LeftOf(p, r);
            && PathOk(q, g) && RootHeight(q, g) == RootHeight(p, g + 1) && BaseOf(q, g) == BaseOf(p, g + 1)
            && UsedAround(q, g) == UsedBytes(r, g) + UsedAround(p, g + 1)
  {
  }

  lemma {:induction false} LeftAround(p: Path, r: Tree, g: nat, base: nat)
    requires base == BaseOf(p, g + 1)
    ensures Around(LeftOf(p, r), g) == Live(r, g, base + Pow2(g)) + Around(p, g + 1)
  {
    assert BaseOf(LeftOf(p, r), g) == base;
  }

  lemma {:induction false} RightPath(p: Path, l: Tree, g: nat)
    requires PathOk(p, g + 1) && TreeOk(l, g)
    ensures var q := RightOf(p, l);
            && PathOk(q, g) && RootHeight(q, g) == RootHeight(p, g + 1) && BaseOf(q, g) == BaseOf(p, g + 1) + Pow2(g)
            && UsedAround(q, g) == UsedBytes(l, g) + UsedAround(p, g + 1)
  {
  }

  lemma {:induction false} RightAround(p: Path, l: Tree, g: nat, base: nat)
    requires base == BaseOf(p, g + 1)
    ensures Around(RightOf(p, l), g) == Live(l, g, base) + Around(p, g + 1)
  {
  }

  lemma {:induction false} PlaceFacts(tree: Tree, H: nat, p: Path, h: nat, t: Tree)
    requires Place(tree, H, p, h, t)
    ensures PathOk(p, h) && RootHeight(p, h) == H && Aligned(BaseOf(p, h), h)
    ensures Live(tree, H, 0) == Live(t, h, BaseOf(p, h)) + Around(p, h)
    ensures UsedBytes(tree, H) == UsedBytes(t, h) + UsedAround(p, h)
  {
    assert OpenPlace(Key);
  }

  lemma {:induction false} MakePlace(tree: Tree, H: nat, p: Path, h: nat, t: Tree, base: nat,
                                     here: set<Block>, around: set<Block>)
    requires TreeOk(t, h) && PathOk(p, h) && RootHeight(p, h) == H && BaseOf(p, h) == base && Aligned(base, h)
    requires here == Live(t, h, base) && around == Around(p, h) && Live(tree, H, 0) == here + around
    requires UsedBytes(tree, H) == UsedBytes(t, h) + UsedAround(p, h)
    ensures Place(tree, H, p, h, t)
  {
  }

  lemma {:induction false} StepLeft(tree: Tree, H: nat, p: Path, h: nat, t: Tree)
    requires Place(tree, H, p, h, t) && !t.Used? && 3 < h
    ensures Place(tree, H, LeftOf(p, Right(t)), h - 1, Left(t))
  {
    PlaceFacts(tree, H, p, h, t);
    var base, g, l, r := BaseOf(p, h), h - 1, Left(t), Right(t);
    HalfAligned(base, h);
    Halves(t, h);
    LeftPath(p, r, g);
    LeftLive(Live(tree, H, 0), p, h, t, g, base);
    MakePlace(tree, H, LeftOf(p, r), g, l, base, Live(l, g, base), Around(LeftOf(p, r), g));
  }

  lemma {:induction false} StepRight(tree: Tree, H: nat, p: Path, h: nat, t: Tree)
    requires Place(tree, H, p, h, t) && !t.Used? && 3 < h
    ensures Place(tree, H, RightOf(p, Left(t)), h - 1, Right(t))
  {
    PlaceFacts(tree, H, p, h, t);
    var mid := RightFacts(p, h, t, Live(tree, H, 0), UsedBytes(tree, H));
    var q := RightOf(p, Left(t));
    MakePlace(tree, H, q, h - 1, Right(t), mid, Live(Right(t), h - 1, mid), Around(q, h - 1));
  }

  /** The right half as the end of a longer path. */
  lemma {:induction false} RightFacts(p: Path, h: nat, t: Tree, all: set<Block>, used: nat) returns (mid: nat)
    requires TreeOk(t, h) && !t.Used? && 3 < h && PathOk(p, h) && Aligned(BaseOf(p, h), h)
    requires all == Live(t, h, BaseOf(p, h)) + Around(p, h) && used == UsedBytes(t, h) + UsedAround(p, h)
    ensures var q, g := RightOf(p, Left(t)), h - 1;
            && TreeOk(Right(t), g) && PathOk(q, g) && RootHeight(q, g) == RootHeight(p, h) && BaseOf(q, g) == mid
            && Aligned(mid, g) && all == Live(Right(t), g, mid) + Around(q, g)
            && used == UsedBytes(Right(t), g) + UsedAround(q, g)
  {
    mid := RightUsed(p, h, t, h - 1, used);
    RightLive(all, p, h, t, h - 1, BaseOf(p, h), mid);
  }

  /** The right half as the end of a longer path, but for the live blocks. */
  lemma {:induction false} RightUsed(p: Path, h: nat, t: Tree, g: nat, used: nat) returns (mid: nat)
    requires TreeOk(t, h) && !t.Used? && 3 < h == g + 1 && PathOk(p, h) && Aligned(BaseOf(p, h), h)
    requires used == UsedBytes(t, h) + UsedAround(p, h)
    ensures var q := RightOf(p, Left(t));
            && TreeOk(Right(t), g) && PathOk(q, g) && RootHeight(q, g) == RootHeight(p, h)
            && BaseOf(q, g) == mid == BaseOf(p, h) + Pow2(g) && Aligned(mid, g)
            && used == UsedBytes(Right(t), g) + UsedAround(q, g)
  {
    HalfAligned(BaseOf(p, h), h);
    Halves(t, h);
    RightPath(p, Left(t), g);
    mid := BaseOf(p, h) + Pow2(g);
  }

  // ----- the lowest free block -----

  ghost predicate OpenLowest(k: Key) {
    true
  }

  /** No free aligned block of 2^j bytes starts below base. */
  ghost predicate Lowest(tree: Tree, H: nat, j: nat, base: nat) {
    forall k: Key {:trigger OpenLowest(k)} :: OpenLowest(k) ==>
      forall o :: FreeBlock(tree, H, 0, o, j) ==> base <= o
  }

  /** A block in the left half of a node is free there if it is free in the whole tree. */
  lemma {:induction false} FreeInLeft(tree: Tree, H: nat, t: Tree, h: nat, base: nat, o: nat, j: nat)
    requires TreeOk(t, h) && !t.Used? && 3 <= j < h && Aligned(base, h) && Live(t, h, base) <= Live(tree, H, 0)
    requires FreeBlock(tree, H, 0, o, j) && base <= o < base + Pow2(h - 1)
    ensures FreeBlock(Left(t), h - 1, base, o, j)
  {
    HalfAligned(base, h);
    AlignedDown(base + Pow2(h - 1), h - 1, j);
    AlignedStep(o, base + Pow2(h - 1), j);
    HalvesLive(t, h - 1, base);
    assert Live(Left(t), h - 1, base) <= Live(t, h, base);
  }

  /** A search that cannot go into the left half passes no free block of the size it looks for. */
  lemma {:induction false} LowestRight(tree: Tree, H: nat, p: Path, h: nat, t: Tree, j: nat)
    requires Place(tree, H, p, h, t) && !t.Used? && 3 <= j < h && Value(Left(t), h - 1) < j
    requires Lowest(tree, H, j, BaseOf(p, h))
    ensures Lowest(tree, H, j, BaseOf(RightOf(p, Left(t)), h - 1))
  {
    PlaceFacts(tree, H, p, h, t);
    var base := BaseOf(p, h);
    HalfAligned(base, h);
    Halves(t, h);
    assert OpenLowest(Key);
    forall o: nat | FreeBlock(tree, H, 0, o, j) ensures base + Pow2(h - 1) <= o {
      if o < base + Pow2(h - 1) {
        FreeInLeft(tree, H, t, h, base, o, j);
        ValueBounds(Left(t), h - 1, base, o, j);
      }
    }
  }

  /** Blocks off the path do not touch the node at its end, which lies inside the root. */
  lemma {:induction false} AroundApart(p: Path, h: nat)
    requires PathOk(p, h) && Aligned(BaseOf(p, h), h)
    ensures forall b :: b in Around(p, h) ==> Apart(b, Block(BaseOf(p, h), h))
    ensures BaseOf(p, h) + Pow2(h) <= Pow2(RootHeight(p, h))
    decreases p
  {
    if !p.Top? {
      UpAligned(p, h);
      AroundApart(p.up, h + 1);
      var base := BaseOf(p.up, h + 1);
      HalfAligned(base, h + 1);
      LiveSound(p.sib, h, if p.LeftOf? then base + Pow2(h) else base);
    }
  }

  lemma {:induction false} UpAligned(p: Path, h: nat)
    requires !p.Top?
    ensures Aligned(BaseOf(p.up, h + 1), h + 1)
    decreases p
  {
    BaseAligned(p.up, h + 1);
  }

  lemma {:induction false} BaseAligned(p: Path, h: nat)
    ensures Aligned(BaseOf(p, h), h)
    decreases p
  {
    if p.Top? {
      ZeroAligned(h);
    } else {
      BaseAligned(p.up, h + 1);
      HalfAligned(BaseOf(p.up, h + 1), h + 1);
    }
  }

  /** Taking the free node at a place: one block more is live, nothing else changes. */
  lemma {:induction false} TakePlace(tree: Tree, H: nat, p: Path, h: nat)
    requires Place(tree, H, p, h, Free)
    ensures var b := Block(BaseOf(p, h), h); var tree' := Plug(p, Used);
            && TreeOk(tree', H) && Live(tree', H, 0) == Live(tree, H, 0) + {b} && b !in Live(tree, H, 0)
            && UsedBytes(tree', H) == UsedBytes(tree, H) + Pow2(h)
            && FreeBlock(tree, H, 0, b.off, h) && RootHeight(p, h) == H && PathOk(p, h)
  {
    assert OpenPlace(Key);
    var b := Block(BaseOf(p, h), h);
    PlugOk(p, h, Used);
    PlugLive(p, h, Used);
    PlugUsed(p, h, Used);
    AroundApart(p, h);
    assert Live(tree, H, 0) == Around(p, h);
    assert !Apart(b, b);
  }
}
