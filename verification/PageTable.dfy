/** The three-level page table, walked and grown in physical memory. */
module PageTable {
  import opened Bytes
  import opened FrameAllocator
  import opened Physical
  import opened PageEntries
  import opened TableTree
  import opened Sv39

  /** fnode lists every table frame exactly once. */
  ghost predicate Lists(fnode: seq<nat>, tab: Tables) {
    fnode != [] && multiset(fnode) == multiset(tab.Values)
  }

  ghost predicate OpenTable(k: Key) {
    true
  }

  /** Tables that can be walked: a tree of frames that stands for the map spec. */
  ghost predicate WalkOk(mem: Pages, root: nat, tab: Tables, spec: map<nat, Mapping>) {
    Root in tab && tab[Root] == root && Tree(mem, tab) && Stands(mem, tab, spec)
  }

  /** A page table: its tree of frames, all live and all listed, stands for the map spec. */
  ghost predicate TableOk(mem: Pages, live: set<nat>, root: nat, fnode: seq<nat>, tab: Tables,
                          spec: map<nat, Mapping>) {
    && WalkOk(mem, root, tab, spec)
    && forall k: Key {:trigger OpenTable(k)} :: OpenTable(k) ==> tab.Values <= live && Lists(fnode, tab)
  }

  ghost predicate OpenReach(k: Key) {
    true
  }

  /** What one operation on a page table may do to memory: it writes to its own table frames and to
      frames that were free, which become tables; everything else stays. */
  ghost predicate Reaches(mem: Pages, live: set<nat>, tab: Tables, mem': Pages, live': set<nat>, tab': Tables) {
    && mem'.Keys == mem.Keys && live' == live + tab'.Values
    && forall k: Key {:trigger OpenReach(k)} :: OpenReach(k) ==>
         && (forall n :: n in tab ==> n in tab' && tab'[n] == tab[n])
         && (forall n :: n in tab' && n !in tab ==> tab'[n] !in live)
         && (forall f :: f in mem && f !in tab'.Values ==> mem'[f] == mem[f])
  }

  lemma {:induction false} ReachesSelf(mem: Pages, live: set<nat>, tab: Tables)
    requires tab.Values <= live
    ensures Reaches(mem, live, tab, mem, live, tab)
  {
  }

  lemma {:induction false} ReachesTrans(mem: Pages, live: set<nat>, tab: Tables, mem1: Pages, live1: set<nat>,
                                        tab1: Tables, mem2: Pages, live2: set<nat>, tab2: Tables)
    requires Reaches(mem, live, tab, mem1, live1, tab1) && Reaches(mem1, live1, tab1, mem2, live2, tab2)
    ensures Reaches(mem, live, tab, mem2, live2, tab2)
  {
    assert OpenReach(Key);
    assert tab1.Values <= tab2.Values by {
      forall f | f in tab1.Values ensures f in tab2.Values {
        var n :| n in tab1 && tab1[n] == f;
        assert tab2[n] == f;
      }
    }
    forall n | n in tab2 && n !in tab ensures tab2[n] !in live {
      if n in tab1 {
        assert tab2[n] == tab1[n];
      } else {
        assert tab2[n] !in live1;
      }
    }
  }

  /** Growing by one table keeps the page table and what it stands for. */
  lemma {:induction false} GrowTable(mem: Pages, live: set<nat>, root: nat, fnode: seq<nat>, tab: Tables,
                                     spec: map<nat, Mapping>, n: Node, x: nat, f: nat)
    requires TableOk(mem, live, root, fnode, tab, spec) && PagesOk(mem) && n in tab && !n.Low? && x < 512
    requires Child(n, x) !in tab && f in mem && f < PPN_LIMIT && f !in live
    ensures tab[n] in mem && IsPage(mem[tab[n]]) && tab[n] != f && fnode != []
    ensures var mem', tab' := Linked(mem, tab[n], x, f), tab[Child(n, x) := f];
            && TableOk(mem', live + {f}, root, Pushed(fnode, f), tab', spec)
            && Reaches(mem, live, tab, mem', live + {f}, tab')
  {
    assert OpenTable(Key);
    assert Unused(tab, f);
    TreeNode(mem, tab, n);
    Grow(mem, tab, n, x, f);
    GrowEntries(mem, tab, n, x, f);
    var mem', tab' := Linked(mem, tab[n], x, f), tab[Child(n, x) := f];
    StandsKept(mem, tab, mem', tab', spec);
    NewValue(tab, Child(n, x), f);
    PushedOnce(fnode, f);
  }

  lemma {:induction false} NewValue(tab: Tables, c: Node, f: nat)
    requires c !in tab
    ensures tab[c := f].Values == tab.Values + {f}
  {
    forall v | v in tab.Values ensures v in tab[c := f].Values {
      var n :| n in tab && tab[n] == v;
      assert tab[c := f][n] == v;
    }
    assert tab[c := f][c] == f;
  }

  /** fvec_push: into the ring behind its head. */
  function Pushed(fnode: seq<nat>, f: nat): seq<nat>
    requires fnode != []
  {
    [fnode[0]] + [f] + fnode[1..]
  }

  lemma {:induction false} PushedOnce(fnode: seq<nat>, f: nat)
    requires fnode != []
    ensures multiset(Pushed(fnode, f)) == multiset(fnode) + multiset{f}
  {
    assert fnode == [fnode[0]] + fnode[1..];
  }

  /** How map and unmap end: done, stopped by their own assertion, or by the allocator's panic. */
  datatype Outcome = Done | Refused | NoFrame

  /** What find_pte returns: an entry, or NULL. */
  datatype Slot = Missing | At(t: nat, x: nat)

  /** Writing the entry of vpn changes one binding of the map and touches one frame. */
  lemma {:induction false} Written(mem: Pages, root: nat, tab: Tables, spec: map<nat, Mapping>, vpn: nat, w: nat,
                                   spec': map<nat, Mapping>)
    requires WalkOk(mem, root, tab, spec) && PagesOk(mem) && w < U64_LIMIT
    requires Low(Index0(vpn), Index1(vpn)) in tab && Decode(w) == Lookup(spec', LowVpn(vpn))
    requires forall v :: v != LowVpn(vpn) ==> Lookup(spec', v) == Lookup(spec, v)
    ensures var t := tab[Low(Index0(vpn), Index1(vpn))];
            && t in mem && IsPage(mem[t]) && t in tab.Values
            && WalkOk(mem[t := PutWord(mem[t], Index2(vpn), w)], root, tab, spec')
  {
    PutEntry(mem, tab, Index0(vpn), Index1(vpn), Index2(vpn), w);
    var t := tab[Low(Index0(vpn), Index1(vpn))];
    StandsPut(mem, tab, spec, vpn, mem[t := PutWord(mem[t], Index2(vpn), w)], spec');
  }

  /** A store into one's own table reaches no further. */
  lemma {:induction false} ReachesOwn(mem: Pages, live: set<nat>, tab: Tables, t: nat, page: seq<byte>)
    requires t in mem && t in tab.Values && tab.Values <= live
    ensures Reaches(mem, live, tab, mem[t := page], live, tab)
  {
  }

  /** The map with vpn bound; what a stored entry decodes to. */
  ghost function PutIn(spec: map<nat, Mapping>, vpn: nat, ppn: nat, flags: nat): (r: map<nat, Mapping>)
    requires ppn < U64_LIMIT && flags < 256
    ensures r == spec[LowVpn(vpn) := Mapping(ppn % PPN_LIMIT, WithValid(flags))]
    ensures Decode(PteNew(ppn, WithValid(flags))) == Lookup(r, LowVpn(vpn))
  {
    PteRoundTrip(ppn, WithValid(flags));
    spec[LowVpn(vpn) := Mapping(ppn % PPN_LIMIT, WithValid(flags))]
  }

  /** What is in the slot of vpn is what the map says. */
  lemma {:induction false} SlotHolds(mem: Pages, root: nat, tab: Tables, spec: map<nat, Mapping>, vpn: nat)
    requires WalkOk(mem, root, tab, spec) && PagesOk(mem)
    ensures LowVpn(vpn) in spec ==> Low(Index0(vpn), Index1(vpn)) in tab
    ensures Low(Index0(vpn), Index1(vpn)) in tab ==>
              var t := tab[Low(Index0(vpn), Index1(vpn))];
              t in mem && IsPage(mem[t]) && Decode(Word(mem[t], Index2(vpn))) == Lookup(spec, LowVpn(vpn))
  {
    StandsAt(mem, tab, spec, vpn);
    if Low(Index0(vpn), Index1(vpn)) in tab {
      TreeNode(mem, tab, Low(Index0(vpn), Index1(vpn)));
    }
  }

  /** The first table: one zeroed root. */
  lemma {:induction false} FirstTable(mem: Pages, live: set<nat>, f: nat)
    requires f in mem && f < PPN_LIMIT && mem[f] == Zeros(PAGE_SIZE) && f in live
    ensures TableOk(mem, live, f, [f], map[Root := f], map[])
  {
    var tab: Tables := map[Root := f];
    assert tab[Root] == f;
    assert tab.Values == {f};
    FirstTree(mem, f);
    FirstMap(mem, f);
  }

  lemma {:induction false} FirstTree(mem: Pages, f: nat)
    requires f in mem && f < PPN_LIMIT && mem[f] == Zeros(PAGE_SIZE)
    ensures Tree(mem, map[Root := f])
  {
    forall x | 0 <= x < 512 ensures WordAt(mem, f, x) == 0 {
      ZeroWord(x);
    }
  }

  lemma {:induction false} FirstMap(mem: Pages, f: nat)
    ensures Stands(mem, map[Root := f], map[])
  {
    var tab: Tables := map[Root := f];
    forall vpn: nat ensures Look(mem, tab, vpn) == Nothing {
      assert Low(Index0(vpn), Index1(vpn)) !in tab;
    }
  }

  /** The tables between the root and the entry of a page. */
  ghost function OnTheWay(vpn: nat): set<Node> {
    {Mid(Index0(vpn)), Low(Index0(vpn), Index1(vpn))}
  }

  class Table {
    var root: nat
    var fnode: seq<nat>
    ghost var tab: Tables
    ghost var spec: map<nat, Mapping>

    ghost predicate Valid(m: Machine)
      reads this, m, m.frames
    {
      TableOk(m.mem, m.Live(), root, fnode, tab, spec)
    }

    lemma {:induction false} Owned(m: Machine)
      requires Valid(m)
      ensures tab.Values <= m.Live() && Lists(fnode, tab)
    {
      assert OpenTable(Key);
    }

    /** The hardware's walk from the root finds what the map says. */
    lemma {:induction false} InHardware(m: Machine)
      requires m.Valid() && Valid(m)
      ensures Translates(m.mem, root, spec)
    {
      m.Whole();
      AllWalks(m.mem, tab, spec);
    }

    constructor (m: Machine, f: nat)
      requires TableOk(m.mem, m.Live(), f, [f], map[Root := f], map[])
      ensures Valid(m) && root == f && tab == map[Root := f] && spec == map[]
    {
      root, fnode, tab, spec := f, [f], map[Root := f], map[];
    }

    /** map: binds the low 27 bits of vpn, refused if they are bound. */
    method Map(m: Machine, vpn: nat, ppn: nat, flags: nat) returns (r: Outcome)
      requires m.Valid() && Valid(m) && ppn < U64_LIMIT && flags < 256
      modifies this, m`mem, m.frames`current, m.frames`live, m.frames.recycled`CurrentSize
      ensures m.Valid() && Valid(m) && root == old(root)
      ensures Reaches(old(m.mem), old(m.Live()), old(tab), m.mem, m.Live(), tab)
      ensures r == Refused <==> LowVpn(vpn) in old(spec)
      ensures r == NoFrame ==> FreeFrames(m.Live(), m.frames.start, m.frames.end) == {}
      ensures spec == if r == Done then old(spec)[LowVpn(vpn) := Mapping(ppn % PPN_LIMIT, WithValid(flags))]
              else old(spec)
      ensures Translates(m.mem, root, spec) && tab.Keys <= old(tab.Keys) + OnTheWay(vpn)
    {
      ghost var mem, live, tab0 := m.mem, m.Live(), tab;
      m.Whole();
      SlotHolds(m.mem, root, tab, spec, vpn);
      var ok, t, x := FindCreate(m, vpn);
      if !ok {
        InHardware(m);
        return NoFrame;
      }
      m.Whole();
      SlotHolds(m.mem, root, tab, spec, vpn);
      if PteIsValid(Word(m.mem[t], x)) {
        InHardware(m);
        return Refused;
      }
      WriteSlot(m, vpn, t, x, PteNew(ppn, WithValid(flags)), PutIn(spec, vpn, ppn, flags), mem, live, tab0);
      InHardware(m);
      return Done;
    }

    /** unmap: drops the binding of vpn, refused if there is none. */
    method Unmap(m: Machine, vpn: nat) returns (r: Outcome)
      requires m.Valid() && Valid(m)
      modifies this, m`mem, m.frames`current, m.frames`live, m.frames.recycled`CurrentSize
      ensures m.Valid() && Valid(m) && root == old(root)
      ensures Reaches(old(m.mem), old(m.Live()), old(tab), m.mem, m.Live(), tab)
      ensures r == Done <==> LowVpn(vpn) in old(spec)
      ensures r == Done ==> tab == old(tab) && m.Live() == old(m.Live())
      ensures r == NoFrame ==> FreeFrames(m.Live(), m.frames.start, m.frames.end) == {}
      ensures spec == old(spec) - {LowVpn(vpn)}
      ensures Translates(m.mem, root, spec) && tab.Keys <= old(tab.Keys) + OnTheWay(vpn)
    {
      ghost var mem, live, tab0 := m.mem, m.Live(), tab;
      m.Whole();
      SlotHolds(m.mem, root, tab, spec, vpn);
      var ok, t, x := FindCreate(m, vpn);
      if !ok {
        assert spec == spec - {LowVpn(vpn)};
        InHardware(m);
        return NoFrame;
      }
      m.Whole();
      SlotHolds(m.mem, root, tab, spec, vpn);
      if !PteIsValid(Word(m.mem[t], x)) {
        assert spec == spec - {LowVpn(vpn)};
        InHardware(m);
        return Refused;
      }
      WriteSlot(m, vpn, t, x, 0, spec - {LowVpn(vpn)}, mem, live, tab0);
      InHardware(m);
      return Done;
    }

    /** The store into a found slot. */
    method WriteSlot(m: Machine, vpn: nat, t: nat, x: nat, w: nat, ghost spec': map<nat, Mapping>,
                     ghost mem: Pages, ghost live: set<nat>, ghost tab0: Tables)
      requires m.Valid() && Valid(m) && w < U64_LIMIT && Reaches(mem, live, tab0, m.mem, m.Live(), tab)
      requires Low(Index0(vpn), Index1(vpn)) in tab && t == tab[Low(Index0(vpn), Index1(vpn))] && x == Index2(vpn)
      requires Decode(w) == Lookup(spec', LowVpn(vpn))
      requires forall v :: v != LowVpn(vpn) ==> Lookup(spec', v) == Lookup(spec, v)
      modifies this`spec, m`mem
      ensures m.Valid() && Valid(m) && spec == spec' && Reaches(mem, live, tab0, m.mem, m.Live(), tab)
    {
      m.Whole();
      Owned(m);
      Written(m.mem, root, tab, spec, vpn, w, spec');
      ReachesOwn(m.mem, m.Live(), tab, t, PutWord(m.mem[t], x, w));
      ghost var mem1 := m.mem;
      m.StoreWord(t, x, w);
      spec := spec';
      ReachesTrans(mem, live, tab0, mem1, m.Live(), tab, m.mem, m.Live(), tab);
    }

    /** find_pte: the entry of vpn if there is a table for it; it holds what the map says. */
    method FindPte(m: Machine, vpn: nat) returns (r: Slot)
      requires m.Valid() && Walkable(m)
      ensures r.Missing? <==> Low(Index0(vpn), Index1(vpn)) !in tab
      ensures r.Missing? ==> LowVpn(vpn) !in spec
      ensures r.At? ==> r.t in m.mem && IsPage(m.mem[r.t]) && r.x == Index2(vpn)
      ensures r.At? ==> r.t == tab[Low(Index0(vpn), Index1(vpn))]
      ensures r.At? ==> Decode(Word(m.mem[r.t], r.x)) == Lookup(spec, LowVpn(vpn))
    {
      var idxs := VpnIndexes(vpn);
      ghost var n := Root;
      var t := root;
      m.Whole();
      SlotHolds(m.mem, root, tab, spec, vpn);
      MidAbove(m.mem, tab, Index0(vpn), Index1(vpn));
      var i := 0;
      while i != 2
        invariant 0 <= i <= 2 && n in tab && t == tab[n]
        invariant n == if i == 0 then Root else if i == 1 then Mid(Index0(vpn)) else Low(Index0(vpn), Index1(vpn))
        invariant idxs[0] == Index0(vpn) && idxs[1] == Index1(vpn) && idxs[2] == Index2(vpn)
        decreases 2 - i
      {
        TreeNode(m.mem, tab, n);
        TreeLink(m.mem, tab, n, idxs[i]);
        var pte := Word(m.mem[t], idxs[i]);
        if !PteIsValid(pte) {
          return Missing;
        }
        t := PtePpn(pte);
        n := Child(n, idxs[i]);
        i := i + 1;
      }
      return At(t, idxs[2]);
    }

    /** pt_free by fvec_destory: once round the ring from the node behind its head; every table frame is
        given back once and none of them makes the allocator panic. */
    method Free(m: Machine) returns (ok: bool)
      requires m.Valid() && Valid(m)
      modifies this`fnode, m.frames`current, m.frames`live, m.frames.recycled`CurrentSize, m.frames.recycled.heapArray
      ensures m.Valid() && ok && fnode == [] && m.Live() == old(m.Live()) - tab.Values
      ensures |old(fnode)| == |tab.Values| && |m.Live()| == |old(m.Live())| - |old(fnode)|
    {
      Owned(m);
      Ring(fnode, tab);
      var ring := fnode[1..] + [fnode[0]];
      ok := GiveBack(m, ring);
      fnode := [];
    }

    /** The tables can be walked, live or not. */
    ghost predicate Walkable(m: Machine)
      reads this, m
    {
      WalkOk(m.mem, root, tab, spec)
    }

    /** unmap of a page that is bound: find_pte_create finds every table on the way, so none is made,
        and the tables need not be live. */
    method UnmapBound(m: Machine, vpn: nat) returns (ok: bool)
      requires m.Valid() && Walkable(m) && LowVpn(vpn) in spec
      modifies this`spec, m`mem
      ensures m.Valid() && Walkable(m) && ok && spec == old(spec) - {LowVpn(vpn)}
      ensures m.mem.Keys == old(m.mem.Keys) && forall f :: f in m.mem && f !in tab.Values ==> m.mem[f] == old(m.mem)[f]
    {
      m.Whole();
      SlotHolds(m.mem, root, tab, spec, vpn);
      var slot := FindPte(m, vpn);
      ok := PteIsValid(Word(m.mem[slot.t], slot.x));
      Written(m.mem, root, tab, spec, vpn, 0, spec - {LowVpn(vpn)});
      m.StoreWord(slot.t, slot.x, 0);
      spec := spec - {LowVpn(vpn)};
    }

    /** One level of find_pte_create: the table under entry x of table n, made if there is none. */
    method EnsureTable(m: Machine, t: nat, x: nat, ghost n: Node) returns (ok: bool, t': nat)
      requires m.Valid() && Valid(m) && n in tab && t == tab[n] && !n.Low? && x < 512
      modifies this`fnode, this`tab, m`mem, m.frames`current, m.frames`live, m.frames.recycled`CurrentSize
      ensures m.Valid() && Valid(m) && Reaches(old(m.mem), old(m.Live()), old(tab), m.mem, m.Live(), tab)
      ensures ok ==> Child(n, x) in tab && t' == tab[Child(n, x)]
      ensures Child(n, x) in old(tab) ==> ok && tab == old(tab) && m.mem == old(m.mem) && m.Live() == old(m.Live())
      ensures tab.Keys <= old(tab.Keys) + {Child(n, x)}
      ensures !ok ==> FreeFrames(m.Live(), m.frames.start, m.frames.end) == {}
    {
      assert OpenTable(Key);
      m.Whole();
      TreeNode(m.mem, tab, n);
      TreeLink(m.mem, tab, n, x);
      ReachesSelf(m.mem, m.Live(), tab);
      var pte := Word(m.mem[t], x);
      if !PteIsValid(pte) {
        ok, t' := AddTable(m, t, x, n);
        return;
      }
      return true, PtePpn(pte);
    }

    method AddTable(m: Machine, t: nat, x: nat, ghost n: Node) returns (ok: bool, t': nat)
      requires m.Valid() && Valid(m) && n in tab && t == tab[n] && !n.Low? && x < 512 && Child(n, x) !in tab
      modifies this`fnode, this`tab, m`mem, m.frames`current, m.frames`live, m.frames.recycled`CurrentSize
      ensures m.Valid() && Valid(m) && Reaches(old(m.mem), old(m.Live()), old(tab), m.mem, m.Live(), tab)
      ensures ok ==> Child(n, x) in tab && t' == tab[Child(n, x)]
      ensures !ok ==> FreeFrames(m.Live(), m.frames.start, m.frames.end) == {}
      ensures tab.Keys <= old(tab.Keys) + {Child(n, x)}
    {
      m.Whole();
      ghost var mem, live := m.mem, m.Live();
      var r := m.ZeroedFrame();
      if r.None? {
        assert OpenTable(Key);
        ReachesSelf(m.mem, m.Live(), tab);
        return false, 0;
      }
      GrowTable(mem, live, root, fnode, tab, spec, n, x, r.frame);
      m.StoreWord(t, x, PteNew(r.frame, PTE_V));
      fnode := Pushed(fnode, r.frame);
      tab := tab[Child(n, x) := r.frame];
      PteRoundTrip(r.frame, PTE_V);
      SmallMod(r.frame);
      return true, r.frame;
    }

    /** find_pte_create: the entry of vpn, with the tables on the way to it made where missing; false
        where a frame was needed and the allocator panics. */
    method FindCreate(m: Machine, vpn: nat) returns (ok: bool, t: nat, x: nat)
      requires m.Valid() && Valid(m)
      modifies this`fnode, this`tab, m`mem, m.frames`current, m.frames`live, m.frames.recycled`CurrentSize
      ensures m.Valid() && Valid(m) && Reaches(old(m.mem), old(m.Live()), old(tab), m.mem, m.Live(), tab)
      ensures ok ==> Low(Index0(vpn), Index1(vpn)) in tab && t == tab[Low(Index0(vpn), Index1(vpn))] && x == Index2(vpn)
      ensures Low(Index0(vpn), Index1(vpn)) in old(tab) ==> ok && tab == old(tab) && m.mem == old(m.mem)
      ensures Low(Index0(vpn), Index1(vpn)) in old(tab) ==> m.Live() == old(m.Live())
      ensures tab.Keys <= old(tab.Keys) + OnTheWay(vpn)
      ensures !ok ==> FreeFrames(m.Live(), m.frames.start, m.frames.end) == {}
    {
      var idxs := VpnIndexes(vpn);
      ghost var mem, live, tab0 := m.mem, m.Live(), tab;
      ghost var n := Root;
      t := root;
      assert OpenTable(Key);
      ReachesSelf(mem, live, tab);
      ok := true;
      var i := 0;
      while i != 2
        invariant 0 <= i <= 2 && m.Valid() && Valid(m) && n in tab && t == tab[n]
        invariant n == if i == 0 then Root else if i == 1 then Mid(Index0(vpn)) else Low(Index0(vpn), Index1(vpn))
        invariant idxs[0] == Index0(vpn) && idxs[1] == Index1(vpn) && idxs[2] == Index2(vpn)
        invariant Reaches(mem, live, tab0, m.mem, m.Live(), tab) && tab.Keys <= tab0.Keys + OnTheWay(vpn)
        invariant Low(Index0(vpn), Index1(vpn)) in tab0 ==> tab == tab0 && m.mem == mem && m.Live() == live
        decreases 2 - i
      {
        ghost var mem1, live1, tab1 := m.mem, m.Live(), tab;
        MidAbove(mem, tab0, Index0(vpn), Index1(vpn));
        ok, t := EnsureTable(m, t, idxs[i], n);
        ReachesTrans(mem, live, tab0, mem1, live1, tab1, m.mem, m.Live(), tab);
        if !ok {
          return false, 0, 0;
        }
        n := Child(n, idxs[i]);
        i := i + 1;
      }
      return true, t, idxs[2];
    }
  }

  /** pt_new: an empty page table in a zeroed frame, or null where the allocator panics. */
  method PtNew(m: Machine) returns (pt: Table?)
    requires m.Valid()
    modifies m`mem, m.frames`current, m.frames`live, m.frames.recycled`CurrentSize
    ensures m.Valid() && m.mem.Keys == old(m.mem.Keys)
    ensures pt == null <==> FreeFrames(old(m.Live()), m.frames.start, m.frames.end) == {}
    ensures pt == null ==> m.mem == old(m.mem) && m.Live() == old(m.Live())
    ensures pt != null ==> fresh(pt) && pt.Valid(m) && pt.spec == map[] && pt.tab == map[Root := pt.root]
    ensures pt != null ==> pt.root !in old(m.Live())
    ensures pt != null ==> m.Live() == old(m.Live()) + {pt.root} && m.mem == old(m.mem)[pt.root := Zeros(PAGE_SIZE)]
  {
    var r := m.ZeroedFrame();
    if r.None? {
      return null;
    }
    FirstTable(m.mem, m.Live(), r.frame);
    pt := new Table(m, r.frame);
  }

  /** The first n frames of a list. */
  ghost function Given(s: seq<nat>, n: nat): set<nat>
    requires n <= |s|
  {
    if n == 0 then {} else Given(s, n - 1) + {s[n - 1]}
  }

  ghost predicate NoRepeats(s: seq<nat>) {
    forall i, j :: 0 <= i < j < |s| ==> s[i] != s[j]
  }

  lemma {:induction false} GivenBefore(s: seq<nat>, n: nat)
    requires n < |s| && NoRepeats(s)
    ensures s[n] !in Given(s, n)
  {
    GivenHas(s, n);
  }

  lemma {:induction false} GivenHas(s: seq<nat>, n: nat)
    requires n <= |s|
    ensures forall f :: f in Given(s, n) <==> exists i :: 0 <= i < n && s[i] == f
  {
    if n > 0 {
      GivenHas(s, n - 1);
    }
  }

  lemma {:induction false} GivenAll(s: seq<nat>)
    ensures forall f :: f in Given(s, |s|) <==> f in multiset(s)
  {
    GivenHas(s, |s|);
  }

  /** The ring from behind its head holds every table frame once. */
  lemma {:induction false} Ring(fnode: seq<nat>, tab: Tables)
    requires Lists(fnode, tab)
    ensures var ring := fnode[1..] + [fnode[0]];
            && NoRepeats(ring) && |ring| == |fnode| == |tab.Values| && Given(ring, |ring|) == tab.Values
            && forall f :: f in multiset(ring) ==> f in tab.Values
  {
    var ring := fnode[1..] + [fnode[0]];
    ListsOnce(fnode, tab);
    RingOnce(fnode);
    GivenAll(ring);
  }

  lemma {:induction false} RingOnce(s: seq<nat>)
    requires s != []
    ensures multiset(s[1..] + [s[0]]) == multiset(s)
    ensures NoRepeats(s) ==> NoRepeats(s[1..] + [s[0]])
  {
    assert s == [s[0]] + s[1..];
  }

  lemma {:induction false} ListsOnce(fnode: seq<nat>, tab: Tables)
    requires Lists(fnode, tab)
    ensures NoRepeats(fnode) && |fnode| == |tab.Values|
  {
    assert |multiset(fnode)| == |fnode|;
    SetAsMultiset(tab.Values);
    forall i, j | 0 <= i < j < |fnode| ensures fnode[i] != fnode[j] {
      var rest := fnode[..j] + fnode[j + 1..];
      assert fnode == fnode[..j] + [fnode[j]] + fnode[j + 1..];
      assert multiset(fnode) == multiset(rest) + multiset{fnode[j]};
      assert rest[i] == fnode[i] && fnode[i] in multiset(rest);
      assert multiset(tab.Values)[fnode[i]] <= 1;
    }
  }

  lemma {:induction false} SetAsMultiset(s: set<nat>)
    ensures |multiset(s)| == |s|
  {
    if s != {} {
      var x :| x in s;
      SetAsMultiset(s - {x});
      assert multiset(s) == multiset(s - {x}) + multiset{x};
    }
  }

  /** frame_dealloc on each frame of a list. */
  method GiveBack(m: Machine, list: seq<nat>) returns (ok: bool)
    requires m.Valid() && NoRepeats(list) && forall f :: f in multiset(list) ==> f in m.Live()
    modifies m.frames`current, m.frames`live, m.frames.recycled`CurrentSize, m.frames.recycled.heapArray
    ensures m.Valid() && ok && m.Live() == old(m.Live()) - Given(list, |list|) && |m.Live()| == |old(m.Live())| - |list|
  {
    ghost var live := m.Live();
    ok := true;
    for i := 0 to |list|
      invariant m.Valid() && ok && m.Live() == live - Given(list, i) && |m.Live()| == |live| - i
    {
      GivenBefore(list, i);
      assert list[i] in multiset(list);
      var given := m.GiveFrame(list[i]);
      ok := ok && given;
    }
  }

  lemma {:induction false} MidAbove(mem: Pages, tab: Tables, i: nat, j: nat)
    requires Tree(mem, tab)
    ensures Low(i, j) in tab ==> Mid(i) in tab
  {
    if Low(i, j) in tab {
      TreeNode(mem, tab, Low(i, j));
    }
  }
}
