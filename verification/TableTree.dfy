/** The tree of table frames behind a page table, and the finite map it stands for. */
module TableTree {
  import opened Bytes
  import opened Physical
  import opened PageEntries

  /** A table: the root, the one under entry i of the root, or the one under entry j of that. */
  datatype Node = Root | Mid(i: nat) | Low(i: nat, j: nat)

  /** Which frame holds which table. */
  type Tables = map<Node, nat>

  function Child(n: Node, x: nat): Node {
    match n
    case Root => Mid(x)
    case Mid(i) => Low(i, x)
    case Low(_, _) => n
  }

  ghost predicate InRange(n: Node) {
    match n
    case Root => true
    case Mid(i) => i < 512
    case Low(i, j) => i < 512 && j < 512
  }

  function WordAt(mem: Pages, f: nat, x: nat): (w: nat)
    ensures w < U64_LIMIT
  {
    if f in mem && |mem[f]| == PAGE_SIZE && x < 512 then Word(mem[f], x) else 0
  }

  /** The entry that leads to table c: its frame with the valid flag alone, or nothing. */
  ghost function LinkTo(tab: Tables, c: Node): nat {
    if c in tab then PteNew(tab[c], PTE_V) else 0
  }

  ghost predicate OpenTree(k: Key) {
    true
  }

  /** The tables in memory form the tree tab: every table has a frame of its own, and every entry above
      the lowest tables leads to the right one or to none. */
  ghost predicate Tree(mem: Pages, tab: Tables) {
    forall k: Key {:trigger OpenTree(k)} :: OpenTree(k) ==>
      && Root in tab
      && (forall n :: n in tab ==> NodeOk(mem, tab, n))
      && (forall n, o :: n in tab && o in tab && tab[n] == tab[o] ==> n == o)
      && (forall n, x {:trigger Child(n, x)} :: n in tab && !n.Low? && 0 <= x < 512 ==>
            WordAt(mem, tab[n], x) == LinkTo(tab, Child(n, x)))
  }

  ghost predicate NodeOk(mem: Pages, tab: Tables, n: Node)
    requires n in tab
  {
    InRange(n) && tab[n] in mem && tab[n] < PPN_LIMIT && (n.Low? ==> Mid(n.i) in tab)
  }

  /** The entry for three indexes, 0 where there is no table for it. */
  ghost function Entry(mem: Pages, tab: Tables, i: nat, j: nat, k: nat): nat {
    if Low(i, j) in tab then WordAt(mem, tab[Low(i, j)], k) else 0
  }

  // ----- the finite map -----

  datatype Mapping = Mapping(ppn: nat, flags: nat)

  datatype Found = Nothing | Found(m: Mapping)

  function Decode(pte: nat): Found {
    if PteIsValid(pte) then Found(Mapping(PtePpn(pte), PteFlags(pte))) else Nothing
  }

  ghost function Look(mem: Pages, tab: Tables, vpn: nat): Found {
    Decode(Entry(mem, tab, Index0(vpn), Index1(vpn), Index2(vpn)))
  }

  ghost function Lookup(spec: map<nat, Mapping>, v: nat): Found {
    if v in spec then Found(spec[v]) else Nothing
  }

  ghost predicate OpenMap(k: Key) {
    true
  }

  /** The tables translate every page number as spec does its low 27 bits. */
  ghost predicate Stands(mem: Pages, tab: Tables, spec: map<nat, Mapping>) {
    forall k: Key {:trigger OpenMap(k)} :: OpenMap(k) ==>
      && (forall v :: v in spec ==> v < VPN_LIMIT)
      && (forall vpn: nat {:trigger Look(mem, tab, vpn)} :: Look(mem, tab, vpn) == Lookup(spec, LowVpn(vpn)))
  }

  lemma {:induction false} StandsAt(mem: Pages, tab: Tables, spec: map<nat, Mapping>, vpn: nat)
    requires Stands(mem, tab, spec)
    ensures Look(mem, tab, vpn) == Lookup(spec, LowVpn(vpn))
  {
    assert OpenMap(Key);
  }

  /** Nothing that is looked up depends on more than the entries. */
  ghost predicate SameEntries(mem: Pages, tab: Tables, mem': Pages, tab': Tables) {
    forall i, j, k {:trigger Entry(mem', tab', i, j, k)} :: Entry(mem', tab', i, j, k) == Entry(mem, tab, i, j, k)
  }

  lemma {:induction false} StandsKept(mem: Pages, tab: Tables, mem': Pages, tab': Tables, spec: map<nat, Mapping>)
    requires Stands(mem, tab, spec) && SameEntries(mem, tab, mem', tab')
    ensures Stands(mem', tab', spec)
  {
    assert OpenMap(Key);
    forall vpn: nat ensures Look(mem', tab', vpn) == Lookup(spec, LowVpn(vpn)) {
      assert Look(mem, tab, vpn) == Lookup(spec, LowVpn(vpn));
    }
  }

  /** An entry of the lowest layer written: one binding of the map changes. */
  lemma {:induction false} StandsPut(mem: Pages, tab: Tables, spec: map<nat, Mapping>, vpn: nat, mem': Pages,
                                     spec': map<nat, Mapping>)
    requires Stands(mem, tab, spec)
    requires forall i, j, k {:trigger Entry(mem', tab, i, j, k)} ::
               || (i == Index0(vpn) && j == Index1(vpn) && k == Index2(vpn))
               || Entry(mem', tab, i, j, k) == Entry(mem, tab, i, j, k)
    requires Look(mem', tab, vpn) == Lookup(spec', LowVpn(vpn))
    requires forall v :: v != LowVpn(vpn) ==> Lookup(spec', v) == Lookup(spec, v)
    ensures Stands(mem', tab, spec')
  {
    assert OpenMap(Key);
    forall v | v in spec' ensures v < VPN_LIMIT {
      assert v != LowVpn(vpn) ==> Lookup(spec', v) == Lookup(spec, v);
    }
    forall w: nat ensures Look(mem', tab, w) == Lookup(spec', LowVpn(w)) {
      SameIndexes(w, vpn);
      assert Look(mem, tab, w) == Lookup(spec, LowVpn(w));
    }
  }

  // ----- reading and growing the tree -----

  lemma {:induction false} TreeNode(mem: Pages, tab: Tables, n: Node)
    requires Tree(mem, tab) && n in tab
    ensures Root in tab && NodeOk(mem, tab, n)
  {
    assert OpenTree(Key);
  }

  /** A link read back. */
  lemma {:induction false} TreeLink(mem: Pages, tab: Tables, n: Node, x: nat)
    requires Tree(mem, tab) && n in tab && !n.Low? && x < 512
    ensures PteIsValid(WordAt(mem, tab[n], x)) <==> Child(n, x) in tab
    ensures Child(n, x) in tab ==> PtePpn(WordAt(mem, tab[n], x)) == tab[Child(n, x)]
  {
    assert OpenTree(Key);
    var c := Child(n, x);
    assert WordAt(mem, tab[n], x) == LinkTo(tab, c);
    if c in tab {
      TreeNode(mem, tab, c);
      PteRoundTrip(tab[c], PTE_V);
      SmallMod(tab[c]);
    }
  }

  lemma {:induction false} SmallMod(x: nat)
    requires x < PPN_LIMIT
    ensures x % PPN_LIMIT == x
  {
  }

  /** Memory with a zeroed frame f linked as entry x of the table in frame t. */
  function Linked(mem: Pages, t: nat, x: nat, f: nat): (r: Pages)
    requires t in mem && |mem[t]| == PAGE_SIZE && x < 512 && t != f
  {
    mem[f := Zeros(PAGE_SIZE)][t := PutWord(mem[t], x, PteNew(f, PTE_V))]
  }

  lemma {:induction false} LinkedWords(mem: Pages, t: nat, x: nat, f: nat, g: nat, y: nat)
    requires PagesOk(mem) && t in mem && IsPage(mem[t]) && x < 512 && t != f && y < 512
    ensures WordAt(Linked(mem, t, x, f), g, y) ==
            if g == f then 0 else if g == t && y == x then PteNew(f, PTE_V) else WordAt(mem, g, y)
  {
    ZeroWord(y);
    WordStored(mem[t], x, PteNew(f, PTE_V), y);
  }

  ghost predicate Unused(tab: Tables, f: nat) {
    forall n :: n in tab ==> tab[n] != f
  }

  /** A new table under an empty entry. */
  lemma {:induction false} Grow(mem: Pages, tab: Tables, n: Node, x: nat, f: nat)
    requires Tree(mem, tab) && PagesOk(mem) && n in tab && !n.Low? && x < 512 && Child(n, x) !in tab
    requires f in mem && f < PPN_LIMIT && Unused(tab, f)
    ensures tab[n] in mem && IsPage(mem[tab[n]])
    ensures Tree(Linked(mem, tab[n], x, f), tab[Child(n, x) := f])
  {
    TreeNode(mem, tab, n);
    GrowLinks(mem, tab, n, x, f);
    assert OpenTree(Key);
    var c := Child(n, x);
    var mem', tab' := Linked(mem, tab[n], x, f), tab[c := f];
    forall o | o in tab' ensures NodeOk(mem', tab', o) {
      assert o != c ==> NodeOk(mem, tab, o);
      assert NodeOk(mem, tab, n);
    }
  }

  lemma {:induction false} GrowLinks(mem: Pages, tab: Tables, n: Node, x: nat, f: nat)
    requires Tree(mem, tab) && PagesOk(mem) && n in tab && !n.Low? && x < 512 && Child(n, x) !in tab
    requires tab[n] in mem && IsPage(mem[tab[n]]) && f in mem && f < PPN_LIMIT && Unused(tab, f)
    ensures forall o, y {:trigger Child(o, y)} :: o in tab[Child(n, x) := f] && !o.Low? && 0 <= y < 512 ==>
              WordAt(Linked(mem, tab[n], x, f), tab[Child(n, x) := f][o], y) ==
              LinkTo(tab[Child(n, x) := f], Child(o, y))
  {
    var c := Child(n, x);
    var mem', tab' := Linked(mem, tab[n], x, f), tab[c := f];
    assert OpenTree(Key);
    forall o, y {:trigger Child(o, y)} | o in tab' && !o.Low? && 0 <= y < 512
      ensures WordAt(mem', tab'[o], y) == LinkTo(tab', Child(o, y))
    {
      LinkedWords(mem, tab[n], x, f, tab'[o], y);
      if o == c {
        NoChildYet(mem, tab, c, y);
      } else {
        assert WordAt(mem, tab[o], y) == LinkTo(tab, Child(o, y));
        assert Child(o, y) == c ==> o == n && y == x;
      }
    }
  }

  lemma {:induction false} NoChildYet(mem: Pages, tab: Tables, c: Node, y: nat)
    requires Tree(mem, tab) && c !in tab && c.Mid?
    ensures Child(c, y) !in tab
  {
    assert OpenTree(Key);
    assert Child(c, y) in tab ==> NodeOk(mem, tab, Child(c, y));
  }

  /** A new table translates nothing, and no other entry moves. */
  lemma {:induction false} GrowEntries(mem: Pages, tab: Tables, n: Node, x: nat, f: nat)
    requires Tree(mem, tab) && PagesOk(mem) && n in tab && !n.Low? && x < 512 && Child(n, x) !in tab
    requires tab[n] in mem && IsPage(mem[tab[n]]) && Unused(tab, f)
    ensures SameEntries(mem, tab, Linked(mem, tab[n], x, f), tab[Child(n, x) := f])
  {
    assert OpenTree(Key);
    var c := Child(n, x);
    var mem', tab' := Linked(mem, tab[n], x, f), tab[c := f];
    forall i, j, k ensures Entry(mem', tab', i, j, k) == Entry(mem, tab, i, j, k) {
      if Low(i, j) in tab' && k < 512 {
        LinkedWords(mem, tab[n], x, f, tab'[Low(i, j)], k);
      }
    }
  }

  // ----- writing an entry of the lowest layer -----

  lemma {:induction false} PutEntry(mem: Pages, tab: Tables, i: nat, j: nat, k: nat, w: nat)
    requires Tree(mem, tab) && PagesOk(mem) && Low(i, j) in tab && k < 512 && w < U64_LIMIT
    ensures tab[Low(i, j)] in mem && IsPage(mem[tab[Low(i, j)]])
    ensures var t := tab[Low(i, j)]; var mem' := mem[t := PutWord(mem[t], k, w)];
            && Tree(mem', tab) && Entry(mem', tab, i, j, k) == w
            && forall a, b, c {:trigger Entry(mem', tab, a, b, c)} ::
                 (a == i && b == j && c == k) || Entry(mem', tab, a, b, c) == Entry(mem, tab, a, b, c)
  {
    TreeNode(mem, tab, Low(i, j));
    var t := tab[Low(i, j)];
    var mem' := mem[t := PutWord(mem[t], k, w)];
    assert OpenTree(Key);
    WordStored(mem[t], k, w, k);
    forall o | o in tab ensures NodeOk(mem', tab, o) {
      assert NodeOk(mem, tab, o);
    }
    forall o, y {:trigger Child(o, y)} | o in tab && !o.Low? && 0 <= y < 512
      ensures WordAt(mem', tab[o], y) == LinkTo(tab, Child(o, y))
    {
      assert WordAt(mem, tab[o], y) == LinkTo(tab, Child(o, y));
    }
    forall a, b, c ensures (a == i && b == j && c == k) || Entry(mem', tab, a, b, c) == Entry(mem, tab, a, b, c) {
      if Low(a, b) in tab && c < 512 {
        WordStored(mem[t], k, w, c);
      }
    }
  }

  /** Tables whose frames are left alone keep their tree and their entries. */
  lemma {:induction false} TreeFrame(mem: Pages, mem': Pages, tab: Tables)
    requires Tree(mem, tab) && forall n :: n in tab ==> tab[n] in mem && tab[n] in mem' && mem'[tab[n]] == mem[tab[n]]
    ensures Tree(mem', tab) && SameEntries(mem, tab, mem', tab)
  {
    assert OpenTree(Key);
    forall o | o in tab ensures NodeOk(mem', tab, o) {
      assert NodeOk(mem, tab, o);
    }
    forall o, y {:trigger Child(o, y)} | o in tab && !o.Low? && 0 <= y < 512
      ensures WordAt(mem', tab[o], y) == LinkTo(tab, Child(o, y))
    {
      assert WordAt(mem, tab[o], y) == LinkTo(tab, Child(o, y));
    }
  }
}
