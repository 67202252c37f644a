/** Copying an address space for a fork. */
module Fork {
  import opened Bytes
  import opened FrameAllocator
  import opened Physical
  import opened PageEntries
  import opened TableTree
  import opened PageTable
  import opened Sv39
  import opened AddressPages
  import opened MemorySet

  /** PTE_R | PTE_X */
  const READ_EXECUTE := 10

  /** from_another: an area with the same pages and permissions, mapped to nothing. */
  function FromAnother(a: Area): Area {
    Area(a.kind, a.perm, a.start, a.end, [])
  }

  /** ms_init and ms_map_trampoline; null where the allocator panics. */
  method NewUser(m: Machine, trampoline: nat) returns (ms: MemorySet?)
    requires m.Valid() && trampoline < U64_LIMIT
    modifies m`mem, m.frames`current, m.frames`live, m.frames.recycled`CurrentSize
    ensures m.Valid() && (ms == null ==> FreeFrames(m.Live(), m.frames.start, m.frames.end) == {})
    ensures ms != null ==> fresh(ms) && fresh(ms.pt) && ms.Valid(m) && ms.areas == [] && ms.pages == []
    ensures ms != null ==> old(m.Live()) <= m.Live() && Spares(old(m.mem), old(m.Live()), {}, m.mem, ms.pt.tab.Values)
    ensures ms != null ==> ms.pt.spec == map[LowVpn(TRAMPOLINE_VPN) := TrampolineAt(trampoline)]
    ensures ms != null ==> RunsAt(m.mem, ms.pt.root, trampoline % PPN_LIMIT)
  {
    ghost var mem0, live0 := m.mem, m.Live();
    var pt := PtNew(m);
    if pt == null {
      return null;
    }
    ghost var mem1, live1, tab1 := m.mem, m.Live(), pt.tab;
    RootSpares(mem0, live0, pt.root, pt.tab);
    var r := pt.Map(m, TRAMPOLINE_VPN, trampoline, READ_EXECUTE);
    if r != Done {
      return null;
    }
    ReachesSpares(mem1, live1, tab1, m.mem, m.Live(), pt.tab);
    SparesTrans(mem0, live0, {}, mem1, live1, tab1.Values, m.mem, pt.tab.Values);
    ms := new MemorySet(pt);
    assert Flatten([]) == [];
    LastPage(m.mem, pt.root, pt.spec, trampoline);
  }

  /** The hardware finds the page f at the last page number, for the kernel to read and to execute. */
  ghost predicate RunsAt(mem: Pages, root: nat, f: nat) {
    var a := Walk(mem, root, 2, 0x7FF_FFFF);
    a.Leaf? && a.level == 0 && a.ppn == f && R(a.flags) && X(a.flags) && !W(a.flags) && !U(a.flags)
  }

  lemma {:induction false} LastPage(mem: Pages, root: nat, spec: map<nat, Mapping>, trampoline: nat)
    requires Translates(mem, root, spec) && trampoline < U64_LIMIT
    requires LowVpn(TRAMPOLINE_VPN) in spec && spec[LowVpn(TRAMPOLINE_VPN)] == TrampolineAt(trampoline)
    ensures RunsAt(mem, root, trampoline % PPN_LIMIT)
  {
    assert LowVpn(TRAMPOLINE_VPN) == 0x7FF_FFFF;
  }

  lemma {:induction false} RootSpares(mem: Pages, live: set<nat>, root: nat, tab: Tables)
    requires root in mem && root !in live && tab == map[Root := root]
    ensures Spares(mem, live, {}, mem[root := Zeros(PAGE_SIZE)], tab.Values) && tab.Values == {root}
  {
    assert tab[Root] == root;
    assert tab.Values == {root};
  }

  ghost predicate OpenFork(k: Key) {
    true
  }

  /** Page c of the child stands for page p of the parent: on a frame of its own if p owns one, else on
      the same frame. */
  ghost predicate Alike(p: Page, c: Page, live: set<nat>, mem: Pages) {
    && c.key == p.key && c.perm == p.perm && c.framed == p.framed
    && if p.framed then c.frame !in live && c.frame in mem else c.frame == p.frame
  }

  /** A copy under way: the child has the first pages of the parent, on frames that were not live, and
      of these the first n hold the parent's bytes; nothing that was live has been touched. */
  ghost predicate Copying(was: State, now: State, n: nat) {
    && n <= |now.pages| <= |was.pages| && was.live <= now.live && Spares(was.mem, was.live, {}, now.mem, now.own)
    && forall k: Key {:trigger OpenFork(k)} :: OpenFork(k) ==>
         && (forall i :: 0 <= i < |now.pages| ==> Alike(was.pages[i], now.pages[i], was.live, now.mem))
         && (forall i :: 0 <= i < n ==> SameBytes(was, now, i))
         && (forall i :: |now.pages| <= i < |was.pages| ==> was.pages[i].key !in now.spec)
  }

  ghost predicate SameBytes(was: State, now: State, i: nat)
    requires i < |was.pages| && i < |now.pages|
  {
    was.pages[i].framed ==>
      && was.pages[i].frame in was.mem && now.pages[i].frame in now.mem
      && now.mem[now.pages[i].frame] == was.mem[was.pages[i].frame]
  }

  /** The pages of the k-th area in the list of all pages. */
  lemma {:induction false} AreaPages(areas: seq<Area>, k: nat)
    requires k < |areas|
    ensures Flatten(areas[..k + 1]) == Flatten(areas[..k]) + PagesOf(areas[k])
    ensures |Flatten(areas[..k + 1])| <= |Flatten(areas)|
    ensures Flatten(areas)[..|Flatten(areas[..k + 1])|] == Flatten(areas[..k + 1])
  {
    assert areas[..k + 1] == areas[..k] + [areas[k]];
    FlattenAppend(areas[..k], areas[k]);
    FlattenPrefix(areas, k + 1);
  }

  lemma {:induction false} FlattenPrefix(areas: seq<Area>, k: nat)
    requires k <= |areas|
    ensures |Flatten(areas[..k])| <= |Flatten(areas)| && Flatten(areas)[..|Flatten(areas[..k])|] == Flatten(areas[..k])
    decreases |areas| - k
  {
    if k == |areas| {
      assert areas[..k] == areas;
    } else {
      FlattenPrefix(areas, k + 1);
      assert areas[..k + 1] == areas[..k] + [areas[k]];
      FlattenAppend(areas[..k], areas[k]);
    }
  }

  /** A parent whose frames were live has kept its page table and its pages. */
  lemma {:induction false} ParentKept(was: State, root: nat, fnode: seq<nat>, tab: Tables, now: State)
    requires TableOk(was.mem, was.live, root, fnode, tab, was.spec) && was.own == tab.Values
    requires Bound(was.pages, was.spec, was.live, was.own)
    requires Spares(was.mem, was.live, {}, now.mem, now.own) && was.live <= now.live
    ensures TableOk(now.mem, now.live, root, fnode, tab, was.spec) && Bound(was.pages, was.spec, now.live, was.own)
  {
    assert OpenTable(Key);
    assert tab.Values <= was.live;
    forall f | f in tab.Values && f in was.mem ensures f in now.mem && now.mem[f] == was.mem[f] {
      SparedAt(was.mem, was.live, {}, now.mem, now.own, f);
    }
    TableKept(was.mem, was.live, root, fnode, tab, was.spec, now.mem, now.live);
    BoundLive(was.pages, was.spec, was.live, was.own, now.live);
  }

  lemma {:induction false} BoundLive(pages: seq<Page>, spec: map<nat, Mapping>, live: set<nat>, own: set<nat>,
                                     live': set<nat>)
    requires Bound(pages, spec, live, own) && live <= live'
    ensures Bound(pages, spec, live', own)
  {
    assert OpenBound(Key);
    forall i | 0 <= i < |pages| ensures PageOk(pages[i], spec, live', own) {
      assert PageOk(pages[i], spec, live, own);
    }
  }

  /** The pages of the next area are free to be mapped in the child. */
  lemma {:induction false} NextFresh(was: State, now: State, n: nat, a: Area)
    requires Copying(was, now, n) && Bound(was.pages, was.spec, was.live, was.own)
    requires |now.pages| + Len(a) <= |was.pages| && was.pages[|now.pages|..|now.pages| + Len(a)] == PagesOf(a)
    ensures FreshKeys(FromAnother(a), 0, now.spec)
  {
    assert OpenFork(Key) && OpenBound(Key);
    var b, c := FromAnother(a), |now.pages|;
    forall i | 0 <= i < Len(b) ensures KeyAt(b, i) == was.pages[c + i].key {
      assert was.pages[c..c + Len(a)][i] == PageAt(a, i);
    }
    forall i | 0 <= i < Len(b) ensures KeyAt(b, i) !in now.spec {
      assert was.pages[c + i].key !in now.spec;
    }
    forall i, j | 0 <= i < j < Len(b) ensures KeyAt(b, i) != KeyAt(b, j) {
      assert was.pages[c + i].key != was.pages[c + j].key;
    }
  }

  /** An area added to the child. */
  lemma {:induction false} CopyPush(was: State, now: State, n: nat, a: Area, next: State, b: Area)
    requires Copying(was, now, n) && Bound(was.pages, was.spec, was.live, was.own)
    requires Bound(now.pages, now.spec, now.live, now.own)
    requires |now.pages| + Len(a) <= |was.pages| && was.pages[|now.pages|..|now.pages| + Len(a)] == PagesOf(a)
    requires AreaAdded(now, FromAnother(a), next, b)
    ensures Copying(was, next, n) && |next.pages| == |now.pages| + Len(a)
  {
    assert OpenPush(Key);
    SparesTrans(was.mem, was.live, {}, now.mem, now.live, now.own, next.mem, next.own);
    var c := |now.pages|;
    forall i | 0 <= i < |next.pages| ensures Alike(was.pages[i], next.pages[i], was.live, next.mem) {
      if i < c {
        EarlierPage(was, now, n, i, next);
      } else {
        assert was.pages[c..c + Len(a)][i - c] == PageAt(a, i - c);
        assert next.pages[i] == PageAt(b, i - c);
        assert b.kind.Framed? ==> ZeroPage(next.mem, now.live, PageAt(b, i - c).frame);
      }
    }
    forall i | 0 <= i < n ensures SameBytes(was, next, i) {
      EarlierPage(was, now, n, i, next);
    }
    forall i | |next.pages| <= i < |was.pages| ensures was.pages[i].key !in next.spec {
      LaterPage(was, now, n, a, next, i);
    }
  }

  lemma {:induction false} EarlierPage(was: State, now: State, n: nat, i: nat, next: State)
    requires Copying(was, now, n) && Bound(now.pages, now.spec, now.live, now.own) && i < |now.pages|
    requires Spares(now.mem, now.live, now.own, next.mem, next.own) && |now.pages| <= |next.pages|
    requires next.pages[i] == now.pages[i]
    ensures Alike(was.pages[i], next.pages[i], was.live, next.mem) && (i < n ==> SameBytes(was, next, i))
  {
    assert OpenFork(Key);
    assert Alike(was.pages[i], now.pages[i], was.live, now.mem);
    BoundAt(now.pages, now.spec, now.live, now.own, i);
    if now.pages[i].framed {
      SparedAt(now.mem, now.live, now.own, next.mem, next.own, now.pages[i].frame);
    }
    assert i < n ==> SameBytes(was, now, i);
  }

  lemma {:induction false} LaterPage(was: State, now: State, n: nat, a: Area, next: State, i: nat)
    requires Copying(was, now, n) && Bound(was.pages, was.spec, was.live, was.own)
    requires |now.pages| + Len(a) <= i < |was.pages| && was.pages[|now.pages|..|now.pages| + Len(a)] == PagesOf(a)
    requires Grows(now.spec, FromAnother(a), next.spec)
    ensures was.pages[i].key !in next.spec
  {
    assert OpenFork(Key) && OpenKeys(Key) && OpenBound(Key);
    var b, c := FromAnother(a), |now.pages|;
    assert was.pages[i].key !in now.spec;
    forall j | 0 <= j < Len(b) ensures KeyAt(b, j) != was.pages[i].key {
      assert was.pages[c..c + Len(a)][j] == PageAt(a, j);
      assert was.pages[c + j].key != was.pages[i].key;
    }
  }

  /** One page copied. */
  lemma {:induction false} CopyStep(was: State, now: State, n: nat, mem': Pages)
    requires Copying(was, now, n) && n < |now.pages| && Bound(now.pages, now.spec, now.live, now.own)
    requires Bound(was.pages, was.spec, was.live, was.own) && was.pages[n].frame in was.mem
    requires was.pages[n].frame in now.mem && mem' == now.mem[now.pages[n].frame := now.mem[was.pages[n].frame]]
    ensures Copying(was, now.(mem := mem'), n + 1)
    ensures forall f :: f in now.own && f in now.mem ==> mem'[f] == now.mem[f]
  {
    PageAlike(was, now, n, n);
    if was.pages[n].framed {
      CopyFramed(was, now, n, mem');
    } else {
      assert OpenFork(Key);
      assert mem' == now.mem;
    }
  }

  lemma {:induction false} CopyFramed(was: State, now: State, n: nat, mem': Pages)
    requires Copying(was, now, n) && n < |now.pages| && Bound(now.pages, now.spec, now.live, now.own)
    requires Bound(was.pages, was.spec, was.live, was.own) && was.pages[n].frame in was.mem && was.pages[n].framed
    requires was.pages[n].frame in now.mem && mem' == now.mem[now.pages[n].frame := now.mem[was.pages[n].frame]]
    ensures Copying(was, now.(mem := mem'), n + 1) && now.pages[n].frame !in now.own
  {
    assert OpenFork(Key);
    var next := now.(mem := mem');
    assert Alike(was.pages[n], now.pages[n], was.live, now.mem);
    BoundAt(was.pages, was.spec, was.live, was.own, n);
    BoundAt(now.pages, now.spec, now.live, now.own, n);
    SparedAt(was.mem, was.live, {}, now.mem, now.own, was.pages[n].frame);
    SparesOther(was.mem, was.live, now.mem, now.own, now.pages[n].frame, now.mem[was.pages[n].frame]);
    forall i | 0 <= i < |next.pages| ensures Alike(was.pages[i], next.pages[i], was.live, next.mem) {
      assert Alike(was.pages[i], now.pages[i], was.live, now.mem);
    }
    forall i | 0 <= i < n + 1 ensures SameBytes(was, next, i) {
      if i < n {
        assert SameBytes(was, now, i);
        assert Alike(was.pages[i], now.pages[i], was.live, now.mem);
        if was.pages[i].framed {
          BoundApart(now.pages, now.spec, now.live, now.own, i, n);
        }
      }
    }
  }

  lemma {:induction false} SparesOther(mem: Pages, live: set<nat>, mem1: Pages, own: set<nat>, f: nat, page: seq<byte>)
    requires Spares(mem, live, {}, mem1, own) && f in mem1 && f !in live
    ensures Spares(mem, live, {}, mem1[f := page], own)
  {
    assert OpenSpare(Key);
  }

  ghost predicate OpenExact(k: Key) {
    true
  }

  /** The bindings are those of the pages and the trampoline's, and no others. */
  ghost predicate Exact(spec: map<nat, Mapping>, pages: seq<Page>, t: Mapping) {
    forall k: Key {:trigger OpenExact(k)} :: OpenExact(k) ==>
      && LowVpn(TRAMPOLINE_VPN) in spec && spec[LowVpn(TRAMPOLINE_VPN)] == t
      && forall v :: v in spec ==> v == LowVpn(TRAMPOLINE_VPN) || v in Keys(pages)
  }

  lemma {:induction false} ExactPush(was: State, t: Mapping, a: Area, now: State, b: Area)
    requires Exact(was.spec, was.pages, t) && AreaAdded(was, a, now, b)
    ensures Exact(now.spec, now.pages, t)
  {
    assert OpenExact(Key) && OpenPush(Key) && OpenKeys(Key);
    forall v | v in now.spec ensures v == LowVpn(TRAMPOLINE_VPN) || v in Keys(now.pages) {
      if v in was.spec {
        if v in Keys(was.pages) {
          KeysLonger(was.pages, PagesOf(b), v);
        }
      } else {
        var i :| 0 <= i < Len(a) && KeyAt(a, i) == v;
        assert now.pages[|was.pages| + i] == PageAt(b, i);
        KeysHas(now.pages, |was.pages| + i);
      }
    }
  }

  lemma {:induction false} KeysLonger(a: seq<Page>, b: seq<Page>, v: nat)
    requires v in Keys(a)
    ensures v in Keys(a + b)
  {
    assert (a + b)[0] == a[0] && (a + b)[1..] == a[1..] + b;
    if v != a[0].key {
      KeysLonger(a[1..], b, v);
    }
  }

  lemma {:induction false} ExactKeys(spec: map<nat, Mapping>, pages: seq<Page>, t: Mapping, live: set<nat>,
                                     own: set<nat>)
    requires Exact(spec, pages, t) && Bound(pages, spec, live, own)
    ensures spec.Keys == Keys(pages) + {LowVpn(TRAMPOLINE_VPN)} && spec[LowVpn(TRAMPOLINE_VPN)] == t
  {
    assert OpenExact(Key) && OpenBound(Key);
    forall v | v in Keys(pages) ensures v in spec {
      var i := KeyIndex(pages, v);
      assert PageOk(pages[i], spec, live, own);
    }
  }

  lemma {:induction false} KeyIndex(pages: seq<Page>, v: nat) returns (i: nat)
    requires v in Keys(pages)
    ensures i < |pages| && pages[i].key == v
  {
    if pages[0].key == v {
      i := 0;
    } else {
      var j := KeyIndex(pages[1..], v);
      i := j + 1;
    }
  }

  /** The trampoline's binding. */
  ghost function TrampolineAt(trampoline: nat): Mapping {
    Mapping(trampoline % PPN_LIMIT, WithValid(READ_EXECUTE))
  }

  /** was is what memory and the parent looked like when the copy began. */
  ghost predicate Began(was: State, parent: MemorySet)
    reads parent, parent.pt
  {
    && was.pages == parent.pages && was.spec == parent.pt.spec && was.own == parent.pt.tab.Values
    && TableOk(was.mem, was.live, parent.pt.root, parent.pt.fnode, parent.pt.tab, was.spec)
    && Bound(was.pages, was.spec, was.live, was.own)
    && forall i :: 0 <= i < |was.pages| ==> was.pages[i].frame in was.mem
  }

  /** The copying loop of from_existed_user over the pages of one area. */
  method CopyArea(m: Machine, parent: MemorySet, child: MemorySet, a: Area, ghost was: State, ghost c: nat)
    requires m.Valid() && child.Mapped(m) && Began(was, parent) && Copying(was, child.Now(m), c)
    requires c + Len(a) == |child.pages| && was.pages[c..c + Len(a)] == PagesOf(a)
    modifies m`mem
    ensures m.Valid() && child.Mapped(m) && Copying(was, child.Now(m), |child.pages|)
  {
    var vpn := a.start;
    ghost var n := 0;
    while vpn < a.end
      invariant vpn == a.start + n && n <= Len(a) && m.Valid() && child.Mapped(m)
      invariant Copying(was, child.Now(m), c + n)
    {
      CopyOne(m, parent, child, a, vpn, was, c, n);
      vpn := vpn + 1;
      n := n + 1;
    }
  }

  method CopyOne(m: Machine, parent: MemorySet, child: MemorySet, a: Area, vpn: nat, ghost was: State, ghost c: nat,
                 ghost n: nat)
    requires m.Valid() && child.Mapped(m) && Began(was, parent) && Copying(was, child.Now(m), c + n)
    requires c + Len(a) == |child.pages| && was.pages[c..c + Len(a)] == PagesOf(a) && n < Len(a) && vpn == a.start + n
    modifies m`mem
    ensures m.Valid() && child.Mapped(m) && Copying(was, child.Now(m), c + n + 1)
  {
    ghost var now, i := child.Now(m), c + n;
    assert was.pages[c..c + Len(a)][n] == PageAt(a, n);
    PageAlike(was, now, i, i);
    ParentKept(was, parent.pt.root, parent.pt.fnode, parent.pt.tab, now);
    BoundAt(was.pages, was.spec, was.live, was.own, i);
    BoundAt(now.pages, now.spec, now.live, now.own, i);
    child.pt.Owned(m);
    var src := parent.FrameOf(m, vpn, i);
    var dst := child.FrameOf(m, vpn, i);
    assert was.pages[i].frame in was.mem;
    m.CopyPage(dst, src);
    CopyStep(was, now, i, m.mem);
    TableKept(now.mem, now.live, child.pt.root, child.pt.fnode, child.pt.tab, now.spec, m.mem, m.Live());
  }

  lemma {:induction false} PageAlike(was: State, now: State, n: nat, i: nat)
    requires Copying(was, now, n) && i < |now.pages|
    ensures Alike(was.pages[i], now.pages[i], was.live, now.mem)
  {
    assert OpenFork(Key);
  }

  /** The child's pages are the parent's: same numbers, permissions and bytes, on frames of its own. */
  ghost predicate DeepCopy(was: State, now: State) {
    && |now.pages| == |was.pages|
    && forall i :: 0 <= i < |was.pages| ==>
         Alike(was.pages[i], now.pages[i], was.live, now.mem) && SameBytes(was, now, i)
  }

  lemma {:induction false} CopyDone(was: State, now: State)
    requires Copying(was, now, |now.pages|) && |now.pages| == |was.pages|
    ensures DeepCopy(was, now)
  {
    assert OpenFork(Key);
  }

  lemma {:induction false} CopyStart(was: State, now: State)
    requires now.pages == [] && was.live <= now.live && Spares(was.mem, was.live, {}, now.mem, now.own)
    requires forall v :: v in now.spec ==> v == LowVpn(TRAMPOLINE_VPN)
    requires Bound(was.pages, was.spec, was.live, was.own)
    ensures Copying(was, now, 0)
  {
    assert OpenBound(Key);
  }

  /** from_existed_user: a deep copy of a user's address space, or null where the allocator panics.
      Every frame that was live, the parent's tables and pages among them, is as it was; the child's
      tables and pages are on frames that were not. */
  method FromExistedUser(m: Machine, parent: MemorySet, trampoline: nat) returns (child: MemorySet?)
    requires m.Valid() && parent.Valid(m) && trampoline < U64_LIMIT
    requires forall i :: 0 <= i < |parent.pages| ==> parent.pages[i].frame in m.mem
    modifies m`mem, m.frames`current, m.frames`live, m.frames.recycled`CurrentSize
    ensures child == null ==> FreeFrames(m.Live(), m.frames.start, m.frames.end) == {}
    ensures child != null ==> fresh(child) && fresh(child.pt) && m.Valid() && child.Valid(m) && parent.Valid(m)
    ensures child != null ==> DeepCopy(old(parent.Now(m)), child.Now(m))
    ensures child != null ==> Spares(old(m.mem), old(m.Live()), {}, m.mem, child.pt.tab.Values)
    ensures child != null ==> SameShapes(parent.areas, child.areas)
    ensures child != null ==> child.pt.spec.Keys == Keys(child.pages) + {LowVpn(TRAMPOLINE_VPN)}
    ensures child != null ==> child.pt.spec[LowVpn(TRAMPOLINE_VPN)] == TrampolineAt(trampoline)
    ensures child != null ==> RunsAt(m.mem, child.pt.root, trampoline % PPN_LIMIT)
    ensures child != null ==> Translates(m.mem, child.pt.root, child.pt.spec)
  {
    ghost var was := parent.Now(m);
    child := NewUser(m, trampoline);
    if child == null {
      return;
    }
    CopyStart(was, child.Now(m));
    var ok := CopyAreas(m, parent, child, was, TrampolineAt(trampoline));
    if !ok {
      return null;
    }
    ExactKeys(child.pt.spec, child.pages, TrampolineAt(trampoline), m.Live(), child.pt.tab.Values);
    CopyDone(was, child.Now(m));
    ParentKept(was, parent.pt.root, parent.pt.fnode, parent.pt.tab, child.Now(m));
    child.pt.InHardware(m);
    LastPage(m.mem, child.pt.root, child.pt.spec, trampoline);
  }

  ghost predicate SameShapes(a: seq<Area>, b: seq<Area>) {
    |a| == |b| && forall i :: 0 <= i < |a| ==> FromAnother(b[i]) == FromAnother(a[i])
  }

  lemma {:induction false} MoreShapes(a: seq<Area>, b: seq<Area>, b': seq<Area>, k: nat)
    requires k < |a| && SameShapes(a[..k], b) && |b'| == k + 1 && b'[..k] == b
    requires FromAnother(b'[k]) == FromAnother(a[k])
    ensures SameShapes(a[..k + 1], b')
  {
    forall i | 0 <= i < k ensures FromAnother(b'[i]) == FromAnother(a[i]) {
      assert b[i] == b'[..k][i] && a[..k][i] == a[i];
    }
  }

  /** The loop over the parent's areas. */
  method CopyAreas(m: Machine, parent: MemorySet, child: MemorySet, ghost was: State, ghost t: Mapping)
      returns (ok: bool)
    requires m.Valid() && child.Valid(m) && Began(was, parent) && Copying(was, child.Now(m), 0) && child.areas == []
    requires Exact(child.pt.spec, child.pages, t)
    requires parent.pages == Flatten(parent.areas) && AreasOk(parent.areas)
    requires parent != child && parent.pt != child.pt
    modifies child, child.pt, m`mem, m.frames`current, m.frames`live, m.frames.recycled`CurrentSize
    ensures !ok ==> FreeFrames(m.Live(), m.frames.start, m.frames.end) == {}
    ensures ok ==> m.Valid() && child.Valid(m) && SameShapes(parent.areas, child.areas)
    ensures ok ==> Copying(was, child.Now(m), |child.pages|) && |child.pages| == |was.pages|
    ensures ok ==> Exact(child.pt.spec, child.pages, t)
  {
    var k := 0;
    while k < |parent.areas|
      invariant 0 <= k <= |parent.areas| && m.Valid() && child.Valid(m) && Began(was, parent)
      invariant Copying(was, child.Now(m), |child.pages|) && |child.pages| == |Flatten(parent.areas[..k])|
      invariant SameShapes(parent.areas[..k], child.areas) && Exact(child.pt.spec, child.pages, t)
    {
      ghost var copied := child.areas;
      ok := CopyNext(m, parent, child, k, was, t);
      if !ok {
        return false;
      }
      MoreShapes(parent.areas, copied, child.areas, k);
      k := k + 1;
    }
    assert parent.areas[..k] == parent.areas;
    return true;
  }

  /** One area: pushed into the child, then copied page by page. */
  method CopyNext(m: Machine, parent: MemorySet, child: MemorySet, k: nat, ghost was: State, ghost t: Mapping)
      returns (ok: bool)
    requires k == |child.areas| < |parent.areas| && m.Valid() && child.Valid(m) && Began(was, parent)
    requires parent.pages == Flatten(parent.areas) && AreasOk(parent.areas)
    requires Copying(was, child.Now(m), |child.pages|) && |child.pages| == |Flatten(parent.areas[..k])|
    requires parent != child && parent.pt != child.pt && Exact(child.pt.spec, child.pages, t)
    modifies child, child.pt, m`mem, m.frames`current, m.frames`live, m.frames.recycled`CurrentSize
    ensures !ok ==> FreeFrames(m.Live(), m.frames.start, m.frames.end) == {}
    ensures ok ==> Exact(child.pt.spec, child.pages, t)
    ensures ok ==> m.Valid() && child.Valid(m) && |child.areas| == k + 1 && child.areas[..k] == old(child.areas)
    ensures ok ==> FromAnother(child.areas[k]) == FromAnother(parent.areas[k])
    ensures ok ==> Copying(was, child.Now(m), |child.pages|) && |child.pages| == |Flatten(parent.areas[..k + 1])|
  {
    var ma := parent.areas[k];
    ghost var now, c := child.Now(m), |child.pages|;
    NextPages(parent.areas, k, was.pages, c);
    NextFresh(was, now, c, ma);
    var r := child.Push(m, FromAnother(ma));
    if r != Done {
      return false;
    }
    CopyPush(was, now, c, ma, child.Now(m), child.areas[k]);
    ExactPush(now, t, FromAnother(ma), child.Now(m), child.areas[k]);
    ShapeKept(now, ma, child.Now(m), child.areas[k]);
    CopyArea(m, parent, child, ma, was, c);
    return true;
  }

  lemma {:induction false} NextPages(areas: seq<Area>, k: nat, pages: seq<Page>, c: nat)
    requires k < |areas| && pages == Flatten(areas) && c == |Flatten(areas[..k])| && MappedTo(areas[k], Len(areas[k]))
    ensures c + Len(areas[k]) <= |pages| && pages[c..c + Len(areas[k])] == PagesOf(areas[k])
    ensures |Flatten(areas[..k + 1])| == c + Len(areas[k]) && Unmapped(FromAnother(areas[k]))
  {
    AreaPages(areas, k);
    var e := c + Len(areas[k]);
    assert pages[c..e] == pages[..e][c..];
  }

  lemma {:induction false} ShapeKept(was: State, a: Area, now: State, b: Area)
    requires AreaAdded(was, FromAnother(a), now, b)
    ensures FromAnother(b) == FromAnother(a)
  {
    assert OpenPush(Key);
  }
}
