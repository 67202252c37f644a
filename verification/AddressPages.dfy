/** The pages of an address space: which are bound, to which frames, and what an operation on one
    space spares of memory. */
module AddressPages {
  import opened Bytes
  import opened Physical
  import opened PageEntries
  import opened TableTree
  import opened PageTable

  datatype MapType = Identical | Framed | Empty

  /** A node of an area's list of data frames. */
  datatype VpMap = VpMap(vpn: nat, ppn: nat)

  /** A run of pages [start, end) mapped in one way, with the frames it owns. */
  datatype Area = Area(kind: MapType, perm: nat, start: nat, end: nat, dataframe: seq<VpMap>)

  const VPN_END := 0x10_0000_0000_0000

  /** The page at the top of every address space. */
  const TRAMPOLINE_VPN := 0xF_FFFF_FFFF_FFFF

  function Len(a: Area): nat {
    if a.start < a.end then a.end - a.start else 0
  }

  /** An area before it is mapped. */
  ghost predicate Unmapped(a: Area) {
    a.perm < 256 && a.end <= VPN_END && a.dataframe == []
  }

  ghost predicate NodeAt(a: Area, i: nat)
    requires i < |a.dataframe|
  {
    a.dataframe[i].vpn == a.start + i && a.dataframe[i].ppn < PPN_LIMIT
  }

  /** An area with its first n pages mapped: one list node for each of them if it is framed. */
  ghost predicate MappedTo(a: Area, n: nat) {
    && a.perm < 256 && a.end <= VPN_END && n <= Len(a)
    && (if a.kind.Framed? then |a.dataframe| == n && (forall i :: 0 <= i < n ==> NodeAt(a, i))
        else a.dataframe == [])
  }

  /** One page of an address space: the low bits of its number, its frame, and whether the space owns
      that frame. */
  datatype Page = Page(key: nat, frame: nat, perm: nat, framed: bool)

  /** The low bits of the i-th page number of an area. */
  function KeyAt(a: Area, i: nat): nat {
    LowVpn(a.start + i)
  }

  ghost function PageAt(a: Area, i: nat): Page {
    var ppn := match a.kind
      case Identical => a.start + i
      case Framed => if i < |a.dataframe| then a.dataframe[i].ppn else 0
      case Empty => 0;
    Page(KeyAt(a, i), ppn % PPN_LIMIT, a.perm, a.kind.Framed?)
  }

  ghost function PagesTo(a: Area, n: nat): (s: seq<Page>)
    ensures |s| == n && forall i :: 0 <= i < n ==> s[i] == PageAt(a, i)
  {
    seq(n, i requires 0 <= i => PageAt(a, i))
  }

  ghost function PagesOf(a: Area): seq<Page> {
    PagesTo(a, Len(a))
  }

  ghost function Flatten(areas: seq<Area>): seq<Page> {
    if areas == [] then [] else PagesOf(areas[0]) + Flatten(areas[1..])
  }

  lemma {:induction false} FlattenAppend(areas: seq<Area>, a: Area)
    ensures Flatten(areas + [a]) == Flatten(areas) + PagesOf(a)
  {
    if areas == [] {
      assert [a][1..] == [] && areas + [a] == [a];
    } else {
      FlattenAppend(areas[1..], a);
      assert (areas + [a])[1..] == areas[1..] + [a];
    }
  }

  ghost predicate AreasOk(areas: seq<Area>) {
    forall i :: 0 <= i < |areas| ==> MappedTo(areas[i], Len(areas[i]))
  }

  /** A page that is bound as it should be; a frame it owns is live and not a table. */
  ghost predicate PageOk(p: Page, spec: map<nat, Mapping>, live: set<nat>, own: set<nat>) {
    && p.perm < 256 && p.key in spec && spec[p.key] == Mapping(p.frame, WithValid(p.perm))
    && (p.framed ==> p.frame in live && p.frame !in own)
  }

  ghost predicate OpenBound(k: Key) {
    true
  }

  /** All pages are bound, no two share a number, and no two own one frame. */
  ghost predicate Bound(pages: seq<Page>, spec: map<nat, Mapping>, live: set<nat>, own: set<nat>) {
    forall k: Key {:trigger OpenBound(k)} :: OpenBound(k) ==>
      && LowVpn(TRAMPOLINE_VPN) in spec
      && (forall i :: 0 <= i < |pages| ==> PageOk(pages[i], spec, live, own) && pages[i].key != LowVpn(TRAMPOLINE_VPN))
      && (forall i, j :: 0 <= i < j < |pages| ==> pages[i].key != pages[j].key)
      && (forall i, j :: 0 <= i < j < |pages| && pages[i].framed && pages[j].framed ==>
            pages[i].frame != pages[j].frame)
  }

  lemma {:induction false} BoundAt(pages: seq<Page>, spec: map<nat, Mapping>, live: set<nat>, own: set<nat>, i: nat)
    requires Bound(pages, spec, live, own) && i < |pages|
    ensures PageOk(pages[i], spec, live, own)
  {
    assert OpenBound(Key);
  }

  lemma {:induction false} BoundApart(pages: seq<Page>, spec: map<nat, Mapping>, live: set<nat>, own: set<nat>, i: nat,
                                      j: nat)
    requires Bound(pages, spec, live, own) && i < |pages| && j < |pages| && i != j && pages[i].framed && pages[j].framed
    ensures pages[i].frame != pages[j].frame
  {
    assert OpenBound(Key);
    var a, b := if i < j then i else j, if i < j then j else i;
    assert pages[a].frame != pages[b].frame;
  }

  /** One page more, with a number that was not bound. */
  lemma {:induction false} BoundAdd(pages: seq<Page>, spec: map<nat, Mapping>, live: set<nat>, own: set<nat>, p: Page,
                                    live': set<nat>, own': set<nat>)
    requires Bound(pages, spec, live, own) && p.key !in spec && p.perm < 256 && live <= live'
    requires p.framed ==> p.frame !in live && p.frame in live' && p.frame !in own'
    requires forall f :: f in own' ==> f in own || f !in live
    ensures Bound(pages + [p], spec[p.key := Mapping(p.frame, WithValid(p.perm))], live', own')
  {
    assert OpenBound(Key);
    var ps, spec' := pages + [p], spec[p.key := Mapping(p.frame, WithValid(p.perm))];
    forall i | 0 <= i < |ps| ensures PageOk(ps[i], spec', live', own') && ps[i].key != LowVpn(TRAMPOLINE_VPN) {
      assert i < |pages| ==> PageOk(pages[i], spec, live, own);
    }
    forall i, j | 0 <= i < j < |ps|
      ensures ps[i].key != ps[j].key && (ps[i].framed && ps[j].framed ==> ps[i].frame != ps[j].frame)
    {
      assert PageOk(pages[i], spec, live, own);
    }
  }

  /** The first page dropped, with its binding and, if it owns one, its frame. */
  lemma {:induction false} BoundDrop(pages: seq<Page>, spec: map<nat, Mapping>, live: set<nat>, own: set<nat>)
    requires Bound(pages, spec, live, own) && pages != []
    ensures Bound(pages[1..], spec - {pages[0].key}, if pages[0].framed then live - {pages[0].frame} else live, own)
  {
    assert OpenBound(Key);
    var p, ps := pages[0], pages[1..];
    var spec', live' := spec - {p.key}, if p.framed then live - {p.frame} else live;
    forall i | 0 <= i < |ps| ensures PageOk(ps[i], spec', live', own) && ps[i].key != LowVpn(TRAMPOLINE_VPN) {
      assert ps[i] == pages[i + 1] && PageOk(pages[i + 1], spec, live, own);
      assert pages[0].key != pages[i + 1].key;
    }
    assert forall i, j :: 0 <= i < j < |ps| ==> ps[i] == pages[i + 1] && ps[j] == pages[j + 1];
  }

  // ----- giving pages back -----

  /** The frames that pages own. */
  ghost function DataFrames(pages: seq<Page>): set<nat> {
    if pages == [] then {}
    else if pages[0].framed then {pages[0].frame} + DataFrames(pages[1..]) else DataFrames(pages[1..])
  }

  ghost function FramedCount(pages: seq<Page>): nat {
    if pages == [] then 0 else FramedCount(pages[1..]) + if pages[0].framed then 1 else 0
  }

  ghost function Keys(pages: seq<Page>): set<nat> {
    if pages == [] then {} else {pages[0].key} + Keys(pages[1..])
  }

  lemma {:induction false} KeysHas(pages: seq<Page>, i: nat)
    requires i < |pages|
    ensures pages[i].key in Keys(pages)
  {
    if i > 0 {
      KeysHas(pages[1..], i - 1);
    }
  }

  // ----- what an operation spares -----

  ghost predicate OpenSpare(k: Key) {
    true
  }

  /** Live frames other than the space's own tables keep their contents, and new tables come from frames
      that were not live. */
  ghost predicate Spares(mem: Pages, live: set<nat>, own: set<nat>, mem': Pages, own': set<nat>) {
    && mem'.Keys == mem.Keys
    && forall k: Key {:trigger OpenSpare(k)} :: OpenSpare(k) ==>
         && (forall f :: f in own' ==> f in own || f !in live)
         && (forall f :: f in mem && f in live && f !in own ==> mem'[f] == mem[f])
  }

  lemma {:induction false} SparesSelf(mem: Pages, live: set<nat>, own: set<nat>)
    ensures Spares(mem, live, own, mem, own)
  {
  }

  lemma {:induction false} SparesTrans(mem: Pages, live: set<nat>, own: set<nat>, mem1: Pages, live1: set<nat>,
                                       own1: set<nat>, mem2: Pages, own2: set<nat>)
    requires Spares(mem, live, own, mem1, own1) && Spares(mem1, live1, own1, mem2, own2) && live <= live1
    ensures Spares(mem, live, own, mem2, own2)
  {
    assert OpenSpare(Key);
  }

  /** Growing or writing a page table spares everything else. */
  lemma {:induction false} ReachesSpares(mem: Pages, live: set<nat>, tab: Tables, mem': Pages, live': set<nat>,
                                         tab': Tables)
    requires Reaches(mem, live, tab, mem', live', tab')
    ensures Spares(mem, live, tab.Values, mem', tab'.Values) && live <= live' && tab'.Values <= live'
  {
    assert OpenReach(Key);
    forall f | f in tab'.Values ensures f in tab.Values || f !in live {
      var n :| n in tab' && tab'[n] == f;
      assert n in tab ==> tab[n] == f;
    }
  }

  /** So does writing to a frame that was not live. */
  lemma {:induction false} FreshSpares(mem: Pages, live: set<nat>, own: set<nat>, f: nat, page: seq<byte>)
    requires f in mem && f !in live
    ensures Spares(mem, live, own, mem[f := page], own)
  {
  }

  lemma {:induction false} SparedAt(mem: Pages, live: set<nat>, own: set<nat>, mem': Pages, own': set<nat>, f: nat)
    requires Spares(mem, live, own, mem', own') && f in mem && f in live && f !in own
    ensures f in mem' && mem'[f] == mem[f] && f !in own'
  {
    assert OpenSpare(Key);
  }

  /** A page table is not hurt by writes outside its frames while these stay live. */
  lemma {:induction false} TableKept(mem: Pages, live: set<nat>, root: nat, fnode: seq<nat>, tab: Tables,
                                     spec: map<nat, Mapping>, mem': Pages, live': set<nat>)
    requires TableOk(mem, live, root, fnode, tab, spec) && tab.Values <= live'
    requires forall f :: f in tab.Values && f in mem ==> f in mem' && mem'[f] == mem[f]
    ensures TableOk(mem', live', root, fnode, tab, spec)
  {
    assert OpenTable(Key);
    forall n | n in tab ensures tab[n] in mem && tab[n] in mem' && mem'[tab[n]] == mem[tab[n]] {
      TreeNode(mem, tab, n);
      assert tab[n] in tab.Values;
    }
    TreeFrame(mem, mem', tab);
    StandsKept(mem, tab, mem', tab, spec);
  }
}
