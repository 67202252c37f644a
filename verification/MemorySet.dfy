/** Address spaces: a page table and a list of areas, mapped page by page, copied for a fork and given
    back. */
module MemorySet {
  import opened Bytes
  import opened FrameAllocator
  import opened Physical
  import opened PageEntries
  import opened TableTree
  import opened PageTable
  import opened AddressPages

  /** The frame of one more page of an area. */
  ghost function WithPage(a: Area, vpn: nat, ppn: nat): Area {
    if a.kind.Framed? then a.(dataframe := a.dataframe + [VpMap(vpn, ppn)]) else a
  }

  lemma {:induction false} NextPage(a: Area, n: nat, ppn: nat)
    requires MappedTo(a, n) && n < Len(a)
    requires a.kind.Identical? ==> ppn == a.start + n
    requires a.kind.Empty? ==> ppn == 0
    requires a.kind.Framed? ==> ppn < PPN_LIMIT
    ensures MappedTo(WithPage(a, a.start + n, ppn), n + 1)
    ensures PageAt(WithPage(a, a.start + n, ppn), n) ==
            Page(LowVpn(a.start + n), ppn % PPN_LIMIT, a.perm, a.kind.Framed?)
    ensures PagesTo(WithPage(a, a.start + n, ppn), n + 1) ==
            PagesTo(a, n) + [Page(LowVpn(a.start + n), ppn % PPN_LIMIT, a.perm, a.kind.Framed?)]
  {
    var a' := WithPage(a, a.start + n, ppn);
    forall i | 0 <= i < n ensures PageAt(a', i) == PageAt(a, i) && (a.kind.Framed? ==> NodeAt(a', i)) {
      assert a.kind.Framed? ==> NodeAt(a, i);
    }
  }

  ghost predicate OpenKeys(k: Key) {
    true
  }

  /** No page of an area from the n-th on is bound, and no two have one number. */
  ghost predicate FreshKeys(a: Area, n: nat, spec: map<nat, Mapping>) {
    forall k: Key {:trigger OpenKeys(k)} :: OpenKeys(k) ==>
      && (forall i :: n <= i < Len(a) ==> KeyAt(a, i) !in spec)
      && (forall i, j :: n <= i < j < Len(a) ==> KeyAt(a, i) != KeyAt(a, j))
  }

  /** Bindings are added for pages of the area only. */
  ghost predicate Grows(spec: map<nat, Mapping>, a: Area, spec': map<nat, Mapping>) {
    forall k: Key {:trigger OpenKeys(k)} :: OpenKeys(k) ==>
      && (forall v :: v in spec ==> v in spec' && spec'[v] == spec[v])
      && (forall v :: v in spec' ==> v in spec || exists i :: 0 <= i < Len(a) && KeyAt(a, i) == v)
  }

  lemma {:induction false} GrowsMore(spec0: map<nat, Mapping>, a: Area, spec: map<nat, Mapping>, n: nat, t: Mapping,
                                     spec': map<nat, Mapping>)
    requires Grows(spec0, a, spec) && n < Len(a) && KeyAt(a, n) !in spec && spec' == spec[KeyAt(a, n) := t]
    ensures Grows(spec0, a, spec') && (FreshKeys(a, n, spec) ==> FreshKeys(a, n + 1, spec'))
  {
    assert OpenKeys(Key);
  }

  /** The frames of the first n pages of a framed area were not live before, and are all zero. */
  ghost predicate ZeroPages(mem: Pages, live: set<nat>, a: Area, n: nat) {
    a.kind.Framed? ==> forall i :: 0 <= i < n ==> ZeroPage(mem, live, PageAt(a, i).frame)
  }

  ghost predicate ZeroPage(mem: Pages, live: set<nat>, f: nat) {
    f !in live && f in mem && mem[f] == Zeros(PAGE_SIZE)
  }

  lemma {:induction false} ZeroMore(mem: Pages, live0: set<nat>, live: set<nat>, own: set<nat>,
                                    spec: map<nat, Mapping>, pages0: seq<Page>,
                                    a: Area, n: nat, mem': Pages, own': set<nat>, f: nat)
    requires ZeroPages(mem, live0, a, n) && MappedTo(a, n) && n < Len(a) && live0 <= live
    requires Bound(pages0 + PagesTo(a, n), spec, live, own) && Spares(mem, live, own, mem', own')
    requires NewPage(mem', live, a, a.start + n, f)
    ensures ZeroPages(mem', live0, WithPage(a, a.start + n, f), n + 1)
  {
    var a' := WithPage(a, a.start + n, f);
    if a.kind.Framed? {
      NextPage(a, n, f);
      SmallMod(f);
      forall i | 0 <= i < n + 1 ensures ZeroPage(mem', live0, PageAt(a', i).frame) {
        if i < n {
          assert PagesTo(a', n + 1)[i] == PagesTo(a, n)[i];
          assert ZeroPage(mem, live0, PageAt(a, i).frame);
          assert (pages0 + PagesTo(a, n))[|pages0| + i] == PageAt(a, i);
          BoundAt(pages0 + PagesTo(a, n), spec, live, own, |pages0| + i);
          SparedAt(mem, live, own, mem', own', PageAt(a, i).frame);
        }
      }
    }
  }

  /** Memory, live frames, table frames, bindings and pages at one moment. */
  datatype State = State(mem: Pages, live: set<nat>, own: set<nat>, spec: map<nat, Mapping>, pages: seq<Page>)

  ghost predicate OpenAdded(k: Key) {
    true
  }

  /** The page vpn of area a added, on frame f. */
  ghost predicate Added(was: State, a: Area, vpn: nat, f: nat, now: State) {
    a.perm < 256 && forall k: Key {:trigger OpenAdded(k)} :: OpenAdded(k) ==>
      && was.live <= now.live && LowVpn(vpn) !in was.spec && Spares(was.mem, was.live, was.own, now.mem, now.own)
      && NewPage(now.mem, was.live, a, vpn, f)
      && now.pages == was.pages + [Page(LowVpn(vpn), f % PPN_LIMIT, a.perm, a.kind.Framed?)]
      && now.spec == was.spec[LowVpn(vpn) := Mapping(f % PPN_LIMIT, WithValid(a.perm))]
  }

  ghost predicate OpenPush(k: Key) {
    true
  }

  /** An area half way through ma_map: cur is a with n of its pages mapped since was. */
  ghost predicate Pushing(was: State, a: Area, now: State, cur: Area, n: nat) {
    forall k: Key {:trigger OpenPush(k)} :: OpenPush(k) ==>
      && was.live <= now.live && Spares(was.mem, was.live, was.own, now.mem, now.own)
      && cur.(dataframe := []) == a && MappedTo(cur, n) && now.pages == was.pages + PagesTo(cur, n)
      && ZeroPages(now.mem, was.live, cur, n) && Grows(was.spec, a, now.spec)
      && (FreshKeys(a, 0, was.spec) ==> FreshKeys(a, n, now.spec))
  }

  lemma {:induction false} StartPush(was: State, a: Area)
    requires Unmapped(a)
    ensures Pushing(was, a, was, a, 0)
  {
    SparesSelf(was.mem, was.live, was.own);
    assert PagesTo(a, 0) == [] && OpenKeys(Key);
  }

  lemma {:induction false} PushFacts(was: State, a: Area, now: State, cur: Area, n: nat)
    requires Pushing(was, a, now, cur, n)
    ensures cur.(dataframe := []) == a && MappedTo(cur, n)
    ensures n < Len(a) && FreshKeys(a, 0, was.spec) ==> KeyAt(a, n) !in now.spec
  {
    assert OpenPush(Key) && OpenKeys(Key);
  }

  /** One page more. */
  lemma {:induction false} PushStep(was: State, a: Area, now: State, cur: Area, n: nat, f: nat, next: State)
    requires Pushing(was, a, now, cur, n) && n < Len(a) && Bound(now.pages, now.spec, now.live, now.own)
    requires Added(now, cur, a.start + n, f, next)
    ensures Pushing(was, a, next, WithPage(cur, a.start + n, f), n + 1)
  {
    assert OpenPush(Key) && OpenAdded(Key);
    SparesTrans(was.mem, was.live, was.own, now.mem, now.live, now.own, next.mem, next.own);
    NextPage(cur, n, f);
    ZeroMore(now.mem, was.live, now.live, now.own, now.spec, was.pages, cur, n, next.mem, next.own, f);
    GrowsMore(was.spec, a, now.spec, n, Mapping(f % PPN_LIMIT, WithValid(a.perm)), next.spec);
    assert now.pages + [Page(KeyAt(a, n), f % PPN_LIMIT, a.perm, a.kind.Framed?)] ==
           was.pages + PagesTo(WithPage(cur, a.start + n, f), n + 1);
  }

  // ----- giving areas back -----

  /** Frames that pages own are live and no tables. */
  lemma {:induction false} FramesApart(pages: seq<Page>, spec: map<nat, Mapping>, live: set<nat>, own: set<nat>)
    requires Bound(pages, spec, live, own)
    ensures DataFrames(pages) <= live && DataFrames(pages) !! own
    decreases |pages|
  {
    assert OpenBound(Key);
    forall f | f in DataFrames(pages) ensures f in live && f !in own {
      var i := FrameIndex(pages, f);
      assert PageOk(pages[i], spec, live, own);
    }
  }

  lemma {:induction false} FrameIndex(pages: seq<Page>, f: nat) returns (i: nat)
    requires f in DataFrames(pages)
    ensures i < |pages| && pages[i].framed && pages[i].frame == f
    decreases |pages|
  {
    if pages[0].framed && pages[0].frame == f {
      i := 0;
    } else {
      var j := FrameIndex(pages[1..], f);
      i := j + 1;
    }
  }

  /** The pages are bound without the tables being live. */
  lemma {:induction false} BoundWithout(pages: seq<Page>, spec: map<nat, Mapping>, live: set<nat>, own: set<nat>)
    requires Bound(pages, spec, live, own)
    ensures Bound(pages, spec, live - own, own)
  {
    assert OpenBound(Key);
    forall i | 0 <= i < |pages| ensures PageOk(pages[i], spec, live - own, own) {
      assert PageOk(pages[i], spec, live, own);
    }
  }

  /** A page table that was valid still is while its frames are live. */
  lemma {:induction false} StillOwned(mem: Pages, live: set<nat>, root: nat, fnode: seq<nat>, tab: Tables,
                                      spec: map<nat, Mapping>,
                                      mem': Pages, frames: set<nat>, spec': map<nat, Mapping>)
    requires TableOk(mem, live, root, fnode, tab, spec) && WalkOk(mem', root, tab, spec') && frames !! tab.Values
    ensures TableOk(mem', live - frames, root, fnode, tab, spec')
  {
    assert OpenTable(Key);
  }

  /** vpmap_remove: the first node for vpn taken out of the list, if there is one. */
  method VpmapRemove(list: seq<VpMap>, vpn: nat) returns (found: bool, node: VpMap, rest: seq<VpMap>)
    ensures found <==> exists i :: 0 <= i < |list| && list[i].vpn == vpn
    ensures !found ==> rest == list
    ensures found ==>
              exists i :: && 0 <= i < |list| && FirstAt(list, vpn, i) && node == list[i]
                          && rest == list[..i] + list[i + 1..]
    ensures list != [] && list[0].vpn == vpn ==> found && node == list[0] && rest == list[1..]
  {
    for i := 0 to |list|
      invariant forall j :: 0 <= j < i ==> list[j].vpn != vpn
    {
      if list[i].vpn == vpn {
        assert FirstAt(list, vpn, i);
        return true, list[i], list[..i] + list[i + 1..];
      }
    }
    return false, VpMap(0, 0), list;
  }

  ghost predicate FirstAt(list: seq<VpMap>, vpn: nat, i: nat) {
    i < |list| && list[i].vpn == vpn && forall j :: 0 <= j < i ==> list[j].vpn != vpn
  }

  /** Only frames of own were written. */
  ghost predicate Outside(mem: Pages, own: set<nat>, mem': Pages) {
    mem'.Keys == mem.Keys && forall f :: f in mem && f !in own ==> mem'[f] == mem[f]
  }

  ghost predicate OpenDrain(k: Key) {
    true
  }

  /** Pages given back since was: what is left to give back accounts for the rest. */
  ghost predicate Draining(was: State, now: State) {
    forall k: Key {:trigger OpenDrain(k)} :: OpenDrain(k) ==>
      && now.own == was.own && Outside(was.mem, was.own, now.mem)
      && was.live - DataFrames(was.pages) == now.live - DataFrames(now.pages)
      && |was.live| - FramedCount(was.pages) == |now.live| - FramedCount(now.pages)
      && was.spec - Keys(was.pages) == now.spec - Keys(now.pages)
  }

  ghost predicate Drained(was: State, now: State) {
    && Outside(was.mem, was.own, now.mem) && now.own == was.own
    && now.live == was.live - DataFrames(was.pages) && |now.live| == |was.live| - FramedCount(was.pages)
    && now.spec == was.spec - Keys(was.pages)
  }

  lemma {:induction false} DrainStart(was: State)
    ensures Draining(was, was)
  {
  }

  lemma {:induction false} DrainEnd(was: State, now: State)
    requires Draining(was, now) && now.pages == []
    ensures Drained(was, now)
  {
    assert OpenDrain(Key);
    assert now.spec - {} == now.spec;
  }

  lemma {:induction false} DrainStep(was: State, now: State, next: State)
    requires Draining(was, now) && now.pages != [] && next.pages == now.pages[1..] && next.own == now.own
    requires now.pages[0].framed ==> now.pages[0].frame in now.live
    requires next.live == if now.pages[0].framed then now.live - {now.pages[0].frame} else now.live
    requires next.spec == now.spec - {now.pages[0].key} && Outside(now.mem, now.own, next.mem)
    ensures Draining(was, next)
  {
    assert OpenDrain(Key);
    var p := now.pages[0];
    LiveStep(now.live, p, now.pages, next.live);
    DropKeys(now.spec, p.key, Keys(next.pages));
    OutsideTwice(was.mem, was.own, now.mem, next.mem);
  }

  lemma {:induction false} OutsideTwice(mem: Pages, own: set<nat>, mem1: Pages, mem2: Pages)
    requires Outside(mem, own, mem1) && Outside(mem1, own, mem2)
    ensures Outside(mem, own, mem2)
  {
  }

  lemma {:induction false} DropKeys(spec: map<nat, Mapping>, k: nat, ks: set<nat>)
    ensures spec - ({k} + ks) == (spec - {k}) - ks
  {
  }

  lemma {:induction false} LiveStep(live: set<nat>, p: Page, pages: seq<Page>, live': set<nat>)
    requires pages != [] && pages[0] == p && (p.framed ==> p.frame in live)
    requires live' == if p.framed then live - {p.frame} else live
    ensures live - DataFrames(pages) == live' - DataFrames(pages[1..])
    ensures |live| - FramedCount(pages) == |live'| - FramedCount(pages[1..])
  {
  }

  lemma {:induction false} HeadOf(a: Area, n: nat, rest: seq<Page>)
    requires MappedTo(a, Len(a)) && n < Len(a)
    ensures var s := PagesOf(a)[n..] + rest;
            s[0] == PageAt(a, n) && s[1..] == PagesOf(a)[n + 1..] + rest && s[0].key == LowVpn(a.start + n)
    ensures a.kind.Framed? ==> n < |a.dataframe| && a.dataframe[n..][0] == VpMap(a.start + n, PageAt(a, n).frame)
    ensures a.kind.Framed? ==> a.dataframe[n..][1..] == a.dataframe[n + 1..]
  {
    if a.kind.Framed? {
      assert NodeAt(a, n);
      SmallMod(a.dataframe[n].ppn);
    }
  }

  /** All of a mapped, as area b. */
  ghost predicate AreaAdded(was: State, a: Area, now: State, b: Area) {
    Pushing(was, a, now, b, Len(a))
  }

  lemma {:induction false} PushDone(was: State, a: Area, now: State, areas: seq<Area>, b: Area)
    requires AreaAdded(was, a, now, b) && was.pages == Flatten(areas) && AreasOk(areas)
    ensures now.pages == Flatten(areas + [b]) && AreasOk(areas + [b])
  {
    assert OpenPush(Key);
    FlattenAppend(areas, b);
  }

  class MemorySet {
    const pt: Table
    var areas: seq<Area>
    /** The pages mapped so far. */
    ghost var pages: seq<Page>

    /** The pages are bound; the list of areas may be behind. */
    ghost predicate Mapped(m: Machine)
      reads this, pt, m, m.frames
    {
      pt.Valid(m) && Bound(pages, pt.spec, m.Live(), pt.tab.Values)
    }

    ghost predicate Valid(m: Machine)
      reads this, pt, m, m.frames
    {
      Mapped(m) && pages == Flatten(areas) && AreasOk(areas)
    }

    constructor (table: Table)
      ensures pt == table && areas == [] && pages == []
    {
      pt, areas, pages := table, [], [];
    }

    /** ma_map_one: the next page of an area, with a zeroed frame of its own if the area is framed. */
    method MapOne(m: Machine, a: Area, vpn: nat) returns (r: Outcome, a': Area, ghost f: nat)
      requires m.Valid() && Mapped(m) && a.start <= vpn && MappedTo(a, vpn - a.start) && vpn - a.start < Len(a)
      modifies this`pages, pt, m`mem, m.frames`current, m.frames`live, m.frames.recycled`CurrentSize
      ensures m.Valid() && (r == Refused ==> LowVpn(vpn) in old(pt.spec))
      ensures r == NoFrame ==> FreeFrames(m.Live(), m.frames.start, m.frames.end) == {}
      ensures r == Done ==> Mapped(m) && a' == WithPage(a, vpn, f) && Added(old(Now(m)), a, vpn, f, Now(m))
    {
      ghost var mem0, live0, own0 := m.mem, m.Live(), pt.tab.Values;
      var ppn := 0;
      a' := a;
      if a.kind.Identical? {
        ppn := vpn;
      }
      if a.kind.Framed? {
        var o := NewFrame(m);
        if o.None? {
          return NoFrame, a, 0;
        }
        ppn := o.frame;
        a' := a.(dataframe := a.dataframe + [VpMap(vpn, ppn)]);
      } else {
        SparesSelf(mem0, live0, own0);
      }
      r := Bind(m, vpn, ppn, a, mem0, live0, own0);
      f := ppn;
    }

    /** ms_push without data: maps every page of an area, frames zeroed, and appends the area. It is
        refused only if a page of the area is bound already or the area meets itself. */
    method Push(m: Machine, a: Area) returns (r: Outcome)
      requires m.Valid() && Valid(m) && Unmapped(a)
      modifies this, pt, m`mem, m.frames`current, m.frames`live, m.frames.recycled`CurrentSize
      ensures m.Valid() && (FreshKeys(a, 0, old(pt.spec)) ==> r != Refused)
      ensures r == NoFrame ==> FreeFrames(m.Live(), m.frames.start, m.frames.end) == {}
      ensures r == Done ==> Valid(m) && areas != [] && areas[..|areas| - 1] == old(areas)
      ensures r == Done ==> AreaAdded(old(Now(m)), a, Now(m), areas[|areas| - 1])
    {
      ghost var was := State(m.mem, m.Live(), pt.tab.Values, pt.spec, pages);
      StartPush(was, a);
      var cur;
      r, cur := MapArea(m, a, was);
      if r == Done {
        PushDone(was, a, Now(m), areas, cur);
        areas := areas + [cur];
      }
    }

    /** ma_map: every page of an area in turn. */
    method MapArea(m: Machine, a: Area, ghost was: State) returns (r: Outcome, cur: Area)
      requires m.Valid() && Mapped(m) && Unmapped(a) && Pushing(was, a, Now(m), a, 0)
      modifies this`pages, pt, m`mem, m.frames`current, m.frames`live, m.frames.recycled`CurrentSize
      ensures m.Valid() && (FreshKeys(a, 0, was.spec) ==> r != Refused)
      ensures r == NoFrame ==> FreeFrames(m.Live(), m.frames.start, m.frames.end) == {}
      ensures r == Done ==> Mapped(m) && AreaAdded(was, a, Now(m), cur)
    {
      cur := a;
      var vpn := a.start;
      while vpn < a.end
        invariant a.start <= vpn && vpn - a.start <= Len(a) && m.Valid() && Mapped(m)
        invariant Pushing(was, a, Now(m), cur, vpn - a.start)
      {
        r, cur := PushPage(m, cur, vpn, was, a);
        if r != Done {
          return;
        }
        vpn := vpn + 1;
      }
      r := Done;
    }

    /** What a push works on. */
    ghost function Now(m: Machine): State
      reads this, pt, m, m.frames
    {
      State(m.mem, m.Live(), pt.tab.Values, pt.spec, pages)
    }

    /** One round of ma_map. */
    method PushPage(m: Machine, cur: Area, vpn: nat, ghost was: State, ghost a: Area) returns (r: Outcome, next: Area)
      requires a.start <= vpn < a.end && m.Valid() && Mapped(m) && Pushing(was, a, Now(m), cur, vpn - a.start)
      modifies this`pages, pt, m`mem, m.frames`current, m.frames`live, m.frames.recycled`CurrentSize
      ensures m.Valid() && (FreshKeys(a, 0, was.spec) ==> r != Refused)
      ensures r == NoFrame ==> FreeFrames(m.Live(), m.frames.start, m.frames.end) == {}
      ensures r == Done ==> Mapped(m) && Pushing(was, a, Now(m), next, vpn + 1 - a.start)
    {
      PushFacts(was, a, Now(m), cur, vpn - a.start);
      ghost var now, f := Now(m), 0;
      r, next, f := MapOne(m, cur, vpn);
      if r == Done {
        PushStep(was, a, now, cur, vpn - a.start, f, Now(m));
      }
    }

    /** The pages are bound in tables that can be walked, live or not. */
    ghost predicate Walked(m: Machine)
      reads this, pt, m, m.frames
    {
      pt.Walkable(m) && Bound(pages, pt.spec, m.Live(), pt.tab.Values)
    }

    /** ma_unmap_one: gives the frame back and drops the binding; never refused for a page of the
        space, and without a new table. */
    method UnmapOne(m: Machine, kind: MapType, list: seq<VpMap>, vpn: nat) returns (ok: bool, list': seq<VpMap>)
      requires m.Valid() && Walked(m) && pages != [] && pages[0].key == LowVpn(vpn) && pages[0].framed == kind.Framed?
      requires kind.Framed? ==> list != [] && list[0] == VpMap(vpn, pages[0].frame)
      modifies this`pages, pt`spec, m`mem, m.frames`current, m.frames`live
      modifies m.frames.recycled`CurrentSize, m.frames.recycled.heapArray
      ensures m.Valid() && Walked(m) && ok && pages == old(pages)[1..] && list' == if kind.Framed? then list[1..]
              else list
      ensures pt.spec == old(pt.spec) - {LowVpn(vpn)} && Outside(old(m.mem), pt.tab.Values, m.mem)
      ensures m.Live() == if kind.Framed? then old(m.Live()) - {old(pages)[0].frame} else old(m.Live())
    {
      BoundAt(pages, pt.spec, m.Live(), pt.tab.Values, 0);
      BoundDrop(pages, pt.spec, m.Live(), pt.tab.Values);
      list' := list;
      ok := true;
      if kind.Framed? {
        var found, node, rest := VpmapRemove(list, vpn);
        list' := rest;
        if !found {
          return false, list;
        }
        ok := m.GiveFrame(node.ppn);
      }
      var done := pt.UnmapBound(m, vpn);
      ok := ok && done;
      pages := pages[1..];
    }

    /** ma_unmap: every page of an area in turn. */
    method UnmapArea(m: Machine, a: Area, ghost rest: seq<Page>, ghost was: State) returns (ok: bool)
      requires m.Valid() && Walked(m) && MappedTo(a, Len(a)) && pages == PagesOf(a) + rest && Draining(was, Now(m))
      modifies this`pages, pt`spec, m`mem, m.frames`current, m.frames`live
      modifies m.frames.recycled`CurrentSize, m.frames.recycled.heapArray
      ensures m.Valid() && Walked(m) && ok && pages == rest && Draining(was, Now(m))
    {
      var list := a.dataframe;
      var vpn := a.start;
      ok := true;
      ghost var n := 0;
      while vpn < a.end
        invariant vpn == a.start + n && n <= Len(a) && m.Valid() && Walked(m) && ok
        invariant pages == PagesOf(a)[n..] + rest && Draining(was, Now(m))
        invariant a.kind.Framed? ==> list == a.dataframe[n..]
      {
        ghost var now := Now(m);
        HeadOf(a, n, rest);
        BoundAt(pages, pt.spec, m.Live(), pt.tab.Values, 0);
        var good;
        good, list := UnmapOne(m, a.kind, list, vpn);
        DrainStep(was, now, Now(m));
        ok := ok && good;
        vpn := vpn + 1;
        n := n + 1;
      }
      assert pages == rest;
    }

    /** ms_ma_free: all areas are given back. Every frame they own is given back once, no table is made
        or dropped, their page numbers are unbound, and nothing outside the tables is written. The
        tables need not be live. */
    method FreeAreas(m: Machine) returns (ok: bool)
      requires m.Valid() && Walked(m) && pages == Flatten(areas) && AreasOk(areas)
      modifies this, pt`spec, m`mem, m.frames`current, m.frames`live
      modifies m.frames.recycled`CurrentSize, m.frames.recycled.heapArray
      ensures m.Valid() && Walked(m) && ok && areas == [] && pages == [] && Drained(old(Now(m)), Now(m))
      ensures old(pt.Valid(m)) ==> Valid(m)
      ensures |FreeFrames(m.Live(), m.frames.start, m.frames.end)| ==
              |FreeFrames(old(m.Live()), m.frames.start, m.frames.end)| + FramedCount(old(pages))
    {
      ghost var was := Now(m);
      m.FreeNow();
      DrainStart(was);
      FramesApart(pages, pt.spec, m.Live(), pt.tab.Values);
      ok := true;
      while areas != []
        invariant m.Valid() && Walked(m) && pages == Flatten(areas) && AreasOk(areas) && ok && Draining(was, Now(m))
        decreases |areas|
      {
        var p := areas[0];
        assert AreasOk(areas[1..]);
        areas := areas[1..];
        var good := UnmapArea(m, p, Flatten(areas), was);
        ok := ok && good;
      }
      DrainEnd(was, Now(m));
      m.FreeNow();
      if old(pt.Valid(m)) {
        StillOwned(was.mem, was.live, pt.root, pt.fnode, pt.tab, was.spec, m.mem, DataFrames(was.pages), pt.spec);
      }
    }

    /** ms_free: the table frames are given back before the areas, whose pages are then unbound in tables
        that are no longer live. Nothing is allocated in between, so every table frame and every data
        frame is given back exactly once, and the free count rises by both. */
    method Free(m: Machine) returns (ok: bool)
      requires m.Valid() && Valid(m)
      modifies this, pt, m`mem, m.frames`current, m.frames`live, m.frames.recycled`CurrentSize
      modifies m.frames.recycled.heapArray
      ensures m.Valid() && ok && areas == [] && pages == [] && pt.fnode == [] && pt.tab == old(pt.tab)
      ensures m.Live() == old(m.Live()) - pt.tab.Values - DataFrames(old(pages))
      ensures pt.tab.Values <= old(m.Live()) && DataFrames(old(pages)) <= old(m.Live())
      ensures pt.tab.Values !! DataFrames(old(pages))
      ensures Outside(old(m.mem), pt.tab.Values, m.mem) && pt.spec == old(pt.spec) - Keys(old(pages))
      ensures |FreeFrames(m.Live(), m.frames.start, m.frames.end)| ==
              |FreeFrames(old(m.Live()), m.frames.start, m.frames.end)| + |pt.tab.Values| + FramedCount(old(pages))
    {
      m.FreeNow();
      pt.Owned(m);
      FramesApart(pages, pt.spec, m.Live(), pt.tab.Values);
      BoundWithout(pages, pt.spec, m.Live(), pt.tab.Values);
      var given := pt.Free(m);
      m.FreeNow();
      ok := FreeAreas(m);
      ok := ok && given;
    }

    /** pte_get_ppn(*find_pte(pt, vpn)) for a page of the space: its frame. */
    method FrameOf(m: Machine, vpn: nat, ghost i: nat) returns (f: nat)
      requires m.Valid() && Mapped(m) && i < |pages| && pages[i].key == LowVpn(vpn)
      ensures f == pages[i].frame
    {
      BoundAt(pages, pt.spec, m.Live(), pt.tab.Values, i);
      var slot := pt.FindPte(m, vpn);
      f := PtePpn(Word(m.mem[slot.t], slot.x));
    }

    /** frame_alloc and memset for a data page. */
    method NewFrame(m: Machine) returns (o: Option)
      requires m.Valid() && Mapped(m)
      modifies m`mem, m.frames`current, m.frames`live, m.frames.recycled`CurrentSize
      ensures m.Valid() && pt.Valid(m)
      ensures o.None? ==> FreeFrames(m.Live(), m.frames.start, m.frames.end) == {}
      ensures o.Some? ==> o.frame !in old(m.Live()) && m.Live() == old(m.Live()) + {o.frame} && o.frame < PPN_LIMIT
      ensures o.Some? ==> o.frame in m.mem && m.mem[o.frame] == Zeros(PAGE_SIZE) && o.frame !in pt.tab.Values
      ensures o.Some? ==> Spares(old(m.mem), old(m.Live()), pt.tab.Values, m.mem, pt.tab.Values)
    {
      pt.Owned(m);
      ghost var mem0, live0 := m.mem, m.Live();
      o := m.ZeroedFrame();
      if o.Some? {
        FreshSpares(mem0, live0, pt.tab.Values, o.frame, Zeros(PAGE_SIZE));
      }
      TableKept(mem0, live0, pt.root, pt.fnode, pt.tab, pt.spec, m.mem, m.Live());
    }

    /** The call of map, after which the page counts. */
    method Bind(m: Machine, vpn: nat, ppn: nat, a: Area, ghost mem0: Pages, ghost live0: set<nat>, ghost own0: set<nat>)
        returns (r: Outcome)
      requires m.Valid() && pt.Valid(m) && a.perm < 256 && ppn < VPN_END && own0 == pt.tab.Values
      requires Bound(pages, pt.spec, live0, own0) && live0 <= m.Live() && Spares(mem0, live0, own0, m.mem, own0)
      requires NewPage(m.mem, live0, a, vpn, ppn) && (a.kind.Framed? ==> ppn in m.Live() && ppn !in own0)
      modifies this`pages, pt, m`mem, m.frames`current, m.frames`live, m.frames.recycled`CurrentSize
      ensures m.Valid() && (r == Refused <==> LowVpn(vpn) in old(pt.spec))
      ensures r == NoFrame ==> FreeFrames(m.Live(), m.frames.start, m.frames.end) == {}
      ensures r == Done ==> Mapped(m) && live0 <= m.Live() && Spares(mem0, live0, own0, m.mem, pt.tab.Values)
      ensures r == Done ==> NewPage(m.mem, live0, a, vpn, ppn)
                              && pages == old(pages) + [Page(LowVpn(vpn), ppn % PPN_LIMIT, a.perm, a.kind.Framed?)]
                              && pt.spec == old(pt.spec)[LowVpn(vpn) := Mapping(ppn % PPN_LIMIT, WithValid(a.perm))]
    {
      ghost var mem1, live1, tab1, spec1 := m.mem, m.Live(), pt.tab, pt.spec;
      pt.Owned(m);
      r := pt.Map(m, vpn, ppn, a.perm);
      if r == Done {
        ReachesSpares(mem1, live1, tab1, m.mem, m.Live(), pt.tab);
        SparesTrans(mem0, live0, own0, mem1, live1, own0, m.mem, pt.tab.Values);
        if a.kind.Framed? {
          SmallMod(ppn);
          SparedAt(mem1, live1, own0, m.mem, pt.tab.Values, ppn);
        }
        ghost var p := Page(LowVpn(vpn), ppn % PPN_LIMIT, a.perm, a.kind.Framed?);
        assert OpenSpare(Key);
        BoundAdd(pages, spec1, live0, own0, p, m.Live(), pt.tab.Values);
        pages := pages + [p];
      }
    }
  }

  /** A framed page has a frame that was not live, all zero; the others name their frame. */
  ghost predicate NewPage(mem: Pages, live: set<nat>, a: Area, vpn: nat, ppn: nat) {
    match a.kind
    case Identical => ppn == vpn
    case Empty => ppn == 0
    case Framed => ppn < PPN_LIMIT && ppn !in live && ppn in mem && mem[ppn] == Zeros(PAGE_SIZE)
  }
}
