/** Directories as they are used: scanning them, looking names up, and runs of making, updating and removing
    files in them. */
module FatListing {
  import opened Bytes
  import opened FatSectors
  import opened FatChains
  import opened FatFiles
  import opened FatRecords
  import opened FatScan
  import opened FatDirectory
  import opened FatEdits
  import opened FatInputs

  /** Bytes of a directory so that no offset that is worked out from one of its records wraps. */
  const DIR_LIMIT := U32_LIMIT - 0x2000

  /** A directory whose records in use are t. */
  ghost predicate Directory(fs: FatVolume, dp: Dirent, t: seq<Rec>)
    reads fs, dp
  {
    DirOk(fs, dp) && dp.valid == 1 && t == LiveOf(dp.recs) && Sound(t) &&
    Span(|dp.chain|, fs.g.bytsPerClus) <= DIR_LIMIT
  }

  lemma {:induction false} DirSize(fs: FatVolume, dp: Dirent, t: seq<Rec>)
    requires Directory(fs, dp, t)
    ensures 32 * |dp.recs| == Span(|dp.chain|, fs.g.bytsPerClus) <= DIR_LIMIT && |t| <= |dp.recs|
    ensures Tidy(Heads(t)) && Scannable(t)
  {
    DirShape(fs, dp);
    SoundTidy(t);
  }

  // ----- scanning -----

  /** The name in a buffer that enext has filled. */
  function NameOf(buf: seq<byte>): seq<byte> {
    if 0 in buf then buf[..StrLen(buf)] else buf
  }

  /** What a scan for entries, or for a name, does at record r: n records on. */
  ghost predicate Passes(h: seq<Head>, r: nat, n: nat) {
    && r < |h| && 0 < n && r + n <= |h|
    && if h[r].Item? then n == h[r].more + 1 else forall q :: r <= q < r + n ==> h[q].Gap?
  }

  lemma {:induction false} PassList(h: seq<Head>, r: nat, n: nat)
    requires Passes(h, r, n)
    ensures Between(h, r, |h|) == (if h[r].Item? then [h[r].e] else []) + Between(h, r + n, |h|)
  {
    if h[r].Gap? {
      GapsList(h, r, r + n);
      Split(h, r, r + n, |h|);
    }
  }

  lemma {:induction false} PassMore(h: seq<Head>, r: nat, n: nat, was: seq<Entry>, found: seq<Entry>)
    requires Passes(h, r, n) && found == if h[r].Item? then was + [h[r].e] else was
    ensures was + Between(h, r, |h|) == found + Between(h, r + n, |h|)
  {
    PassList(h, r, n);
  }

  lemma {:induction false} PassFind(h: seq<Head>, r: nat, n: nat, name: seq<byte>)
    requires Passes(h, r, n) && !Named(h[r], name)
    ensures Find(h, r, name) == Find(h, r + n, name)
    decreases n
  {
    if h[r].Gap? && n > 1 {
      PassFind(h, r + 1, n - 1, name);
    }
  }

  /** enext, in a scan that stands at record r. */
  method ScanOne(fs: FatVolume, dp: Dirent, ep: Dirent, off: u32, ghost t: seq<Rec>, ghost r: nat)
    returns (ret: int, count: int)
    requires Directory(fs, dp, t) && ep != dp && ep.valid == 0 && off == 32 * r && r <= |t|
    modifies fs, dp`curClus, dp`clusCnt, dp`chain
    modifies ep`filename, ep`attribute, ep`firstClus, ep`fileSize, ep`curClus, ep`clusCnt
    ensures Directory(fs, dp, t) && fs.disk == old(fs.disk) && fs.vol == old(fs.vol) && dp.chain == old(dp.chain)
    ensures ret == -1 <==> r == |t|
    ensures ret != -1 ==> 0 <= count && Passes(Heads(t), r, count) && (ret == 1 <==> Heads(t)[r].Item?)
    ensures ret == 1 ==> Parsed(ep, Heads(t)[r].e)
    ensures ret != -1 ==> NameOf(ep.filename) == if Heads(t)[r].Item? then Heads(t)[r].e.name else []
  {
    DirSize(fs, dp, t);
    RecordIndex(off, r);
    ret, count := Enext(fs, dp, ep, off, t);
    OneAnswer(t, r, ep, ret, count);
  }

  lemma {:induction false} OneAnswer(t: seq<Rec>, r: nat, ep: Dirent, ret: int, count: int)
    requires Sound(t) && r <= |t| && Answer(t, r, HeadOf(t, r), ep, ret, count)
    ensures ret == -1 <==> r == |t|
    ensures ret != -1 ==> 0 <= count && Passes(Heads(t), r, count) && (ret == 1 <==> Heads(t)[r].Item?)
    ensures ret == 1 ==> Parsed(ep, Heads(t)[r].e)
    ensures ret != -1 ==> NameOf(ep.filename) == if Heads(t)[r].Item? then Heads(t)[r].e.name else []
  {
    if r < |t| {
      HeadIs(t, r);
      if Heads(t)[r].Item? {
        SoundTidy(t);
        assert TidyAt(Heads(t), r);
        NameLength(ep.filename, Heads(t)[r].e.name);
      } else {
        NameLength(ep.filename, []);
        forall q | r <= q < r + count ensures Heads(t)[q].Gap? {
          HeadIs(t, q);
        }
      }
    }
  }

  /** The scan of dirlookup (off += count << 5 from 0 until enext returns -1): it lists exactly the
      entries of the directory, and stops behind the last record in use. */
  method ScanDir(fs: FatVolume, dp: Dirent, ep: Dirent, ghost t: seq<Rec>) returns (found: seq<Entry>, off: u32)
    requires Directory(fs, dp, t) && ep != dp && ep.valid == 0
    modifies fs, dp`curClus, dp`clusCnt, dp`chain
    modifies ep`filename, ep`attribute, ep`firstClus, ep`fileSize, ep`curClus, ep`clusCnt
    ensures Directory(fs, dp, t) && fs.disk == old(fs.disk) && fs.vol == old(fs.vol) && dp.chain == old(dp.chain)
    ensures found == List(t) && off == 32 * |t|
  {
    found, off := [], 0;
    ghost var r, h := 0, Heads(t);
    while true
      invariant Directory(fs, dp, t) && fs.disk == old(fs.disk) && fs.vol == old(fs.vol) && dp.chain == old(dp.chain)
      invariant off == 32 * r && r <= |t| && List(t) == found + Between(h, r, |t|)
      decreases |t| - r
    {
      var ret, count := ScanOne(fs, dp, ep, off, t, r);
      if ret == -1 {
        break;
      }
      ghost var was := found;
      if ret == 1 {
        found := found + [Entry(NameOf(ep.filename), ep.attribute, ep.firstClus, ep.fileSize)];
      }
      PassMore(h, r, count, was, found);
      DirSize(fs, dp, t);
      off := off + count * 32;
      r := r + count;
    }
  }

  // ----- lookup by name -----

  datatype Look = Itself | ItsParent | Seen | Missing

  /** What dirlookup answers: the two dot names without a look at the directory, and nothing in one that
      is not valid. */
  ghost function LookFor(t: seq<Rec>, name: seq<byte>, isRoot: bool, valid: bool): Look {
    if name == DotName(false) then Itself
    else if name == DotName(true) then if isRoot then Itself else ItsParent
    else if valid && Hit(t, name) < |t| then Seen
    else Missing
  }

  /** dirlookup without the entry cache: the first record at which enext finds the name, or where a new
      entry would go. */
  method Dirlookup(fs: FatVolume, dp: Dirent, ep: Dirent, name: seq<byte>, isRoot: bool, ghost t: seq<Rec>)
      returns (look: Look, off: u32)
    requires ep != dp && ep.valid == 0 && DirOk(fs, dp) && (dp.valid == 1 ==> Directory(fs, dp, t))
    modifies fs, dp`curClus, dp`clusCnt, dp`chain
    modifies ep`filename, ep`attribute, ep`firstClus, ep`fileSize, ep`curClus, ep`clusCnt, ep`off, ep`valid
    ensures DirOk(fs, dp) && (dp.valid == 1 ==> Directory(fs, dp, t))
    ensures fs.disk == old(fs.disk) && fs.vol == old(fs.vol) && dp.chain == old(dp.chain)
    ensures look == LookFor(t, name, isRoot, dp.valid == 1)
    ensures look == Seen ==> off == ep.off == 32 * Hit(t, name) && ep.valid == 1
    ensures look == Seen && Heads(t)[Hit(t, name)].Item? ==> Parsed(ep, Heads(t)[Hit(t, name)].e)
    ensures look != Seen ==> ep.valid == 0 && ep.off == old(ep.off)
    ensures look == Missing && dp.valid == 1 ==> off == 32 * |t|
  {
    off := 0;
    if name == DotName(false) {
      return Itself, off;
    } else if name == DotName(true) {
      if isRoot {
        return Itself, off;
      }
      return ItsParent, off;
    }
    if dp.valid != 1 {
      return Missing, off;
    }
    var seen;
    seen, off := LookOn(fs, dp, ep, name, t);
    look := if seen then Seen else Missing;
  }

  /** The loop of dirlookup. */
  method LookOn(fs: FatVolume, dp: Dirent, ep: Dirent, name: seq<byte>, ghost t: seq<Rec>)
      returns (seen: bool, off: u32)
    requires ep != dp && ep.valid == 0 && Directory(fs, dp, t)
    modifies fs, dp`curClus, dp`clusCnt, dp`chain
    modifies ep`filename, ep`attribute, ep`firstClus, ep`fileSize, ep`curClus, ep`clusCnt, ep`off, ep`valid
    ensures Directory(fs, dp, t) && fs.disk == old(fs.disk) && fs.vol == old(fs.vol) && dp.chain == old(dp.chain)
    ensures seen <==> Hit(t, name) < |t|
    ensures off == 32 * Hit(t, name)
    ensures seen ==> ep.off == off && ep.valid == 1
    ensures seen && Heads(t)[Hit(t, name)].Item? ==> Parsed(ep, Heads(t)[Hit(t, name)].e)
    ensures !seen ==> ep.valid == 0 && ep.off == old(ep.off)
  {
    off := 0;
    ghost var r, h := 0, Heads(t);
    while true
      invariant Directory(fs, dp, t) && fs.disk == old(fs.disk) && fs.vol == old(fs.vol) && dp.chain == old(dp.chain)
      invariant off == 32 * r && r <= |t| && Hit(t, name) == Find(h, r, name)
      invariant ep.valid == 0 && ep.off == old(ep.off)
      decreases |t| - r
    {
      var ret, count := ScanOne(fs, dp, ep, off, t, r);
      if ret == -1 {
        break;
      }
      if name == NameOf(ep.filename) {
        ep.off := off;
        ep.valid := 1;
        return true, off;
      }
      PassFind(h, r, count, name);
      DirSize(fs, dp, t);
      off := off + count * 32;
      r := r + count;
    }
    seen := false;
  }

  /** The answer is an entry of that name whenever the name is not empty ... */
  lemma {:induction false} SeenIsThere(t: seq<Rec>, name: seq<byte>)
    requires Sound(t) && name != []
    ensures Hit(t, name) < |t| <==> IndexOf(List(t), name) < |List(t)|
    ensures Hit(t, name) < |t| ==>
              Heads(t)[Hit(t, name)].Item? && Heads(t)[Hit(t, name)].e == List(t)[IndexOf(List(t), name)]
  {
    SoundTidy(t);
    var a, b := AroundHit(Heads(t), Hit(t, name), name);
  }

  /** ... while the empty name is found at the first empty slot. Where no entry has it, a miss is answered
      exactly if every record in front of the last entry is in use. */
  lemma {:induction false} EmptySeen(t: seq<Rec>)
    requires Sound(t) && NoneNamed(List(t), [])
    ensures Hit(t, []) == |t| <==> forall q :: 0 <= q < |t| ==> Live(t[q])
  {
    SoundTidy(t);
    EmptyFrom(t, 0);
    assert |t| > 0 ==> Between(Heads(t), |t|, |t|) == [];
  }

  lemma {:induction false} EmptyFrom(t: seq<Rec>, q: nat)
    requires Sound(t) && q <= |t| && NoneNamed(Between(Heads(t), q, |t|), [])
    ensures Find(Heads(t), q, []) == |t| <==> forall p :: q <= p < |t| ==> Live(t[p])
    decreases |t| - q
  {
    var h := Heads(t);
    if q < |t| {
      HeadIs(t, q);
      if h[q].Item? {
        var n := q + 1 + h[q].more;
        NoneOf(h[q].e, Between(h, n, |t|), []);
        InUse(t, q);
        EmptyFrom(t, n);
        assert Find(h, q, []) == Find(h, n, []);
      }
    }
  }

  /** All records that enext counts for an entry are in use. */
  lemma {:induction false} InUse(t: seq<Rec>, q: nat)
    requires Sound(t) && q < |t| && Heads(t)[q].Item?
    ensures q + 1 + Heads(t)[q].more <= |t| && forall p :: q <= p < q + 1 + Heads(t)[q].more ==> Live(t[p])
  {
    HeadIs(t, q);
    Inside(t, q);
  }

  lemma {:induction false} NoneOf(x: Entry, rest: seq<Entry>, name: seq<byte>)
    requires NoneNamed([x] + rest, name)
    ensures x.name != name && NoneNamed(rest, name)
  {
    assert ([x] + rest)[0] == x;
    assert forall i :: 0 <= i < |rest| ==> ([x] + rest)[i + 1] == rest[i];
  }

  // ----- operations on a directory -----

  /** The clusters of a directory, and those that are free. */
  datatype Room = Room(clusters: nat, free: nat)

  ghost function RoomOf(fs: FatVolume, dp: Dirent): Room
    requires |fs.vol.data| <= |fs.vol.fat|
    reads fs, dp
  {
    Room(|dp.chain|, |FreeSet(fs.vol)|)
  }

  /** Clusters of a directory after e has been made in it. */
  ghost function ClustersWith(t: seq<Rec>, n: nat, B: nat, e: Entry): nat
    requires 0 < B && |e.name| <= 247
  {
    ReachedBy(n, B, 32 * |t|, |MadeAt(|t|, e)|)
  }

  /** The sectors that offset -1 leads to from a directory's first cluster lie behind the volume. */
  ghost predicate StrayBehind(g: Geometry, first: nat) {
    NoWrap(g) && 2 <= first && g.Sectors() <= g.FirstSec(first) + STRAY
  }

  /** A new file has clusters for its records. An update or a removal does not count beyond the end of the
      directory, or what it then writes lies behind the volume. */
  ghost predicate FitsDir(g: Geometry, first: nat, t: seq<Rec>, room: Room, op: DirOp)
    requires 0 < g.bytsPerClus && OpOk(op)
  {
    var r := Hit(t, op.Name());
    match op
    case Make(e) =>
      r == |t| ==>
        var n := ClustersWith(t, room.clusters, g.bytsPerClus, e);
        n <= room.clusters + room.free && Span(n, g.bytsPerClus) <= DIR_LIMIT
    case _ => r < |t| ==> 32 * (r + Counted(t, r)) < Span(room.clusters, g.bytsPerClus) || StrayBehind(g, first)
  }

  ghost function RoomAfter(g: Geometry, t: seq<Rec>, room: Room, op: DirOp): Room
    requires 0 < g.bytsPerClus && OpOk(op)
  {
    if op.Make? && Hit(t, op.e.name) == |t| then
      var n := ClustersWith(t, room.clusters, g.bytsPerClus, op.e);
      Room(n, if n <= room.clusters + room.free then room.clusters + room.free - n else 0)
    else room
  }

  ghost predicate AllFitDir(g: Geometry, first: nat, t: seq<Rec>, room: Room, ops: seq<DirOp>)
    requires 0 < g.bytsPerClus && forall i :: 0 <= i < |ops| ==> OpOk(ops[i])
    decreases |ops|
  {
    ops == [] ||
    (&& FitsDir(g, first, t, room, ops[0])
     && AllFitDir(g, first, After(t, ops[0]), RoomAfter(g, t, room, ops[0]), ops[1..]))
  }

  /** Records behind the last one in use, over which x is written. */
  lemma {:induction false} PlacedLive(d: seq<Rec>, t: seq<Rec>, x: seq<Rec>, d': seq<Rec>)
    requires t == LiveOf(d) && Placed(d, |t|, x, d') && x != [] && Live(x[|x| - 1])
    ensures LiveOf(d') == t + x
  {
    var n := |t| + |x|;
    assert d'[|t| + (|x| - 1)] == x[|x| - 1];
    assert !Live(Zeros(32));
    LiveIs(d', n);
    assert d'[..n] == t + x by {
      forall q | 0 <= q < n ensures d'[q] == (t + x)[q] {
        assert q >= |t| ==> d'[|t| + (q - |t|)] == x[q - |t|];
      }
    }
  }

  /** The second half of ealloc: fill the in-memory entry and let emake write it. */
  method AppendEntry(fs: FatVolume, dp: Dirent, ep: Dirent, off: u32, e: Entry, ghost t: seq<Rec>)
    requires Directory(fs, dp, t) && ep != dp && e.Good() && off == 32 * |t|
    requires var n := ClustersWith(t, |dp.chain|, fs.g.bytsPerClus, e);
             n <= |dp.chain| + |FreeSet(fs.vol)| && Span(n, fs.g.bytsPerClus) <= DIR_LIMIT
    modifies fs, dp, ep
    ensures Directory(fs, dp, t + MadeAt(|t|, e)) && ep.valid == old(ep.valid)
    ensures |dp.chain| == ClustersWith(t, |old(dp.chain)|, fs.g.bytsPerClus, e)
    ensures |dp.chain| + |FreeSet(fs.vol)| == |old(dp.chain)| + |old(FreeSet(fs.vol))|
    ensures dp.firstClus == old(dp.firstClus)
  {
    ghost var d, x := dp.recs, MadeAt(|t|, e);
    WriteEntry(fs, dp, ep, off, e, t, x);
    MadeLive(d, t, e, x, dp.recs);
  }

  lemma {:induction false} MadeLive(d: seq<Rec>, t: seq<Rec>, e: Entry, x: seq<Rec>, d': seq<Rec>)
    requires t == LiveOf(d) && Sound(t) && e.Good() && x == MadeAt(|t|, e) && Placed(d, |t|, x, d')
    ensures LiveOf(d') == t + x && Sound(t + x)
  {
    MadeSound(t, e);
    assert (t + x)[|t| + |x| - 1] == x[|x| - 1];
    PlacedLive(d, t, x, d');
  }

  method WriteEntry(fs: FatVolume, dp: Dirent, ep: Dirent, off: u32, e: Entry, ghost t: seq<Rec>, ghost x: seq<Rec>)
    requires Directory(fs, dp, t) && ep != dp && e.Good() && off == 32 * |t| && x == MadeAt(|t|, e)
    requires var n := ClustersWith(t, |dp.chain|, fs.g.bytsPerClus, e);
             n <= |dp.chain| + |FreeSet(fs.vol)| && Span(n, fs.g.bytsPerClus) <= DIR_LIMIT
    modifies fs, dp, ep
    ensures DirOk(fs, dp) && dp.valid == old(dp.valid) && ep.valid == old(ep.valid)
    ensures |dp.chain| == ReachedBy(|old(dp.chain)|, fs.g.bytsPerClus, 32 * |t|, |x|)
    ensures |dp.chain| + |FreeSet(fs.vol)| == |old(dp.chain)| + |old(FreeSet(fs.vol))|
    ensures dp.firstClus == old(dp.firstClus) && Placed(old(dp.recs), |t|, x, dp.recs)
  {
    if 2 <= |t| {
      MadeFits(fs, dp, t, e);
    }
    ep.filename := e.name + Zeros(NAME_BUFFER - |e.name|);
    ep.attribute, ep.firstClus, ep.fileSize := e.attribute, e.firstClus, e.fileSize;
    NameFilled(ep.filename, e.name);
    Emake(fs, dp, ep, off, |t|, e);
  }

  lemma {:induction false} NameFilled(buf: seq<byte>, name: seq<byte>)
    requires |name| <= 247 && 0 !in name && buf == name + Zeros(NAME_BUFFER - |name|)
    ensures NameIs(buf, name)
  {
    assert forall i :: 0 <= i < |name| ==> name[i] in name;
  }

  /** Clusters enough for a file's last record are enough for emake. */
  lemma {:induction false} MadeFits(fs: FatVolume, dp: Dirent, t: seq<Rec>, e: Entry)
    requires Directory(fs, dp, t) && e.Good() && 2 <= |t|
    requires var n := ClustersWith(t, |dp.chain|, fs.g.bytsPerClus, e);
             n <= |dp.chain| + |FreeSet(fs.vol)| && Span(n, fs.g.bytsPerClus) <= DIR_LIMIT
    ensures 32 * (|t| + e.Longs() + 1) < U32_LIMIT
    ensures 32 * (|t| + e.Longs() + 1) <= Span(|dp.chain| + |FreeSet(fs.vol)|, fs.g.bytsPerClus)
  {
    DirShape(fs, dp);
    ClustersFit(t, e, |dp.chain|, |FreeSet(fs.vol)|, fs.g.bytsPerClus);
  }

  lemma {:induction false} ClustersFit(t: seq<Rec>, e: Entry, n: nat, free: nat, B: nat)
    requires 0 < B && B % 32 == 0 && |e.name| <= 247 && 2 <= |t| && ClustersWith(t, n, B, e) <= n + free
    ensures 32 * (|t| + e.Longs() + 1) <= Span(ClustersWith(t, n, B, e), B) <= Span(n + free, B)
  {
    ReachedFits(n, free, B, 32 * |t| + 32 * e.Longs());
  }

  lemma {:induction false} ReachedFits(n: nat, free: nat, B: nat, last: nat)
    requires 0 < B && B % 32 == 0 && last % 32 == 0 && Reached(n, B, last) <= n + free
    ensures last + 32 <= Span(Reached(n, B, last), B) <= Span(n + free, B)
  {
    var m := Reached(n, B, last);
    SpanDiv(last, B);
    SpanBelow(last, m, B);
    SpanOfRecords(m, B);
    SpanMonotone(m, n + free, B);
  }

  /** ealloc without the entry cache: look the name up, and write a new entry where the directory ends. */
  method MakeEntry(fs: FatVolume, dp: Dirent, ep: Dirent, isRoot: bool, e: Entry, ghost t: seq<Rec>)
    requires Directory(fs, dp, t) && ep != dp && ep.valid == 0 && OpOk(Make(e))
    requires FitsDir(fs.g, dp.firstClus, t, RoomOf(fs, dp), Make(e))
    modifies fs, dp, ep
    ensures Directory(fs, dp, After(t, Make(e))) && ep.valid == 0 && dp.firstClus == old(dp.firstClus)
    ensures RoomOf(fs, dp) == RoomAfter(fs.g, t, old(RoomOf(fs, dp)), Make(e))
    ensures List(After(t, Make(e))) == Listed(List(t), Make(e)) <==> Right(t, Make(e))
  {
    ListsIff(t, Make(e));
    assert OpenPlain(Key);
    var look, off := Dirlookup(fs, dp, ep, e.name, isRoot, t);
    if look == Missing {
      AppendEntry(fs, dp, ep, off, e, t);
    }
    ep.valid := 0;
  }

  /** The entry found at r has its count in the directory. */
  lemma {:induction false} CountAt(fs: FatVolume, dp: Dirent, t: seq<Rec>, r: nat)
    requires Directory(fs, dp, t) && r < |t|
    ensures r < |dp.recs| && Counted(dp.recs, r) == Counted(t, r) <= 255
    ensures 32 * (r + Counted(t, r) + 1) < U32_LIMIT
    ensures r + Counted(t, r) < |dp.recs| <==> 32 * (r + Counted(t, r)) < Span(|dp.chain|, fs.g.bytsPerClus)
  {
    DirSize(fs, dp, t);
    assert dp.recs[r] == t[r];
  }

  /** Where the stray sectors lie behind the volume they are in none of its clusters. */
  lemma {:induction false} BehindAside(fs: FatVolume, dp: Dirent)
    requires DirOk(fs, dp) && StrayBehind(fs.g, dp.firstClus)
    ensures Aside(fs.g, dp.chain, StraySec(fs, dp))
  {
    DirShape(fs, dp);
    CursorFacts(fs.vol, dp);
    fs.Sectors();
    forall i | 0 <= i < |dp.chain|
      ensures !InCluster(fs.g, dp.chain[i], StraySec(fs, dp)) && !InCluster(fs.g, dp.chain[i], StraySec(fs, dp) + 1)
    {
      BehindVolume(fs.g, dp.chain[i], StraySec(fs, dp));
      BehindVolume(fs.g, dp.chain[i], StraySec(fs, dp) + 1);
    }
  }

  lemma {:induction false} PutLive(d: seq<Rec>, t: seq<Rec>, p: nat, c: u32, z: u32, d': seq<Rec>)
    requires t == LiveOf(d) && d' == Put1(d, p, c, z)
    ensures LiveOf(d') == Put1(t, p, c, z)
  {
    PutShaped(d, p, c, z);
    LiveIs(d', |t|);
    assert d'[..|t|] == Put1(t, p, c, z);
  }

  /** Look a name up and, if it is there, let eupdate store a first cluster and a size for it. */
  method UpdateEntry(fs: FatVolume, dp: Dirent, ep: Dirent, isRoot: bool, name: seq<byte>, firstClus: u32,
                     fileSize: u32, ghost t: seq<Rec>)
    requires Directory(fs, dp, t) && ep != dp && ep.valid == 0 && PlainName(name)
    requires FitsDir(fs.g, dp.firstClus, t, RoomOf(fs, dp), Update(name, firstClus, fileSize))
    modifies fs, dp, ep
    ensures Directory(fs, dp, After(t, Update(name, firstClus, fileSize))) && ep.valid == 0
    ensures RoomOf(fs, dp) == old(RoomOf(fs, dp)) && dp.firstClus == old(dp.firstClus)
    ensures List(After(t, Update(name, firstClus, fileSize))) == Listed(List(t), Update(name, firstClus, fileSize)) <==>
            Right(t, Update(name, firstClus, fileSize))
  {
    EditEntry(fs, dp, ep, isRoot, Update(name, firstClus, fileSize), t);
    ListsIff(t, Update(name, firstClus, fileSize));
  }

  /** An update or a removal, and the records that it leaves. */
  method EditEntry(fs: FatVolume, dp: Dirent, ep: Dirent, isRoot: bool, op: DirOp, ghost t: seq<Rec>)
    requires Directory(fs, dp, t) && ep != dp && ep.valid == 0 && OpOk(op) && !op.Make?
    requires FitsDir(fs.g, dp.firstClus, t, RoomOf(fs, dp), op)
    modifies fs, dp, ep
    ensures Directory(fs, dp, After(t, op)) && ep.valid == 0
    ensures RoomOf(fs, dp) == old(RoomOf(fs, dp)) && dp.firstClus == old(dp.firstClus)
  {
    match op
    case Update(name, c, z) => UpdateNamed(fs, dp, ep, isRoot, name, c, z, t, Hit(t, name));
    case Remove(name) => RemoveNamed(fs, dp, ep, isRoot, name, t, Hit(t, name));
  }

  /** The same, with r where the name is found. */
  method UpdateNamed(fs: FatVolume, dp: Dirent, ep: Dirent, isRoot: bool, name: seq<byte>, firstClus: u32,
                     fileSize: u32, ghost t: seq<Rec>, ghost r: nat)
    requires Directory(fs, dp, t) && ep != dp && ep.valid == 0 && PlainName(name) && r == Hit(t, name)
    requires r < |t| ==>
               32 * (r + Counted(t, r)) < Span(|dp.chain|, fs.g.bytsPerClus) || StrayBehind(fs.g, dp.firstClus)
    modifies fs, dp, ep
    ensures Directory(fs, dp, if r < |t| then Put1(t, r + Counted(t, r), firstClus, fileSize) else t)
    ensures ep.valid == 0 && dp.firstClus == old(dp.firstClus)
    ensures dp.chain == old(dp.chain) && |FreeSet(fs.vol)| == |old(FreeSet(fs.vol))|
  {
    assert OpenPlain(Key);
    var look, off := Dirlookup(fs, dp, ep, name, isRoot, t);
    if look == Seen {
      UpdateSeen(fs, dp, ep, firstClus, fileSize, t, r);
    }
    ep.valid := 0;
  }

  /** The in-memory copy of the entry found at r gets a first cluster and a size, and is written back. */
  method UpdateSeen(fs: FatVolume, dp: Dirent, ep: Dirent, firstClus: u32, fileSize: u32, ghost t: seq<Rec>,
                    ghost r: nat)
    requires Directory(fs, dp, t) && ep != dp && ep.valid == 1 && ep.off == 32 * r && r < |t|
    requires 32 * (r + Counted(t, r)) < Span(|dp.chain|, fs.g.bytsPerClus) || StrayBehind(fs.g, dp.firstClus)
    modifies fs, dp`curClus, dp`clusCnt, dp`chain, dp`recs, ep
    ensures Directory(fs, dp, Put1(t, r + Counted(t, r), firstClus, fileSize))
    ensures dp.chain == old(dp.chain) && |FreeSet(fs.vol)| == |old(FreeSet(fs.vol))|
  {
    ep.firstClus, ep.fileSize, ep.dirty := firstClus, fileSize, true;
    UpdateSlot(fs, dp, ep, t, r);
  }

  /** eupdate on the entry found at r. */
  method UpdateSlot(fs: FatVolume, dp: Dirent, ep: Dirent, ghost t: seq<Rec>, ghost r: nat)
    requires Directory(fs, dp, t) && ep != dp && ep.valid == 1 && ep.dirty && ep.off == 32 * r && r < |t|
    requires 32 * (r + Counted(t, r)) < Span(|dp.chain|, fs.g.bytsPerClus) || StrayBehind(fs.g, dp.firstClus)
    modifies fs, dp`curClus, dp`clusCnt, dp`chain, dp`recs, ep`dirty
    ensures Directory(fs, dp, Put1(t, r + Counted(t, r), ep.firstClus, ep.fileSize))
    ensures dp.chain == old(dp.chain) && |FreeSet(fs.vol)| == |old(FreeSet(fs.vol))|
  {
    ghost var d, p := dp.recs, r + Counted(t, r);
    BeforeEdit(fs, dp, t, r);
    RecordIndex(ep.off, r);
    Eupdate(fs, dp, ep);
    assert dp.recs == Put1(d, p, ep.firstClus, ep.fileSize);
    PutLive(d, t, p, ep.firstClus, ep.fileSize, dp.recs);
    UpdateSound(t, p, ep.firstClus, ep.fileSize);
  }

  /** What eupdate and eremove ask for, and that what they write behind the directory is not in it. */
  lemma {:induction false} BeforeEdit(fs: FatVolume, dp: Dirent, t: seq<Rec>, r: nat)
    requires Directory(fs, dp, t) && r < |t|
    requires 32 * (r + Counted(t, r)) < Span(|dp.chain|, fs.g.bytsPerClus) || StrayBehind(fs.g, dp.firstClus)
    ensures Scannable(t) && r < |dp.recs| && Counted(dp.recs, r) == Counted(t, r)
    ensures 32 * (r + Counted(t, r) + 1) < U32_LIMIT
    ensures |dp.recs| <= r + Counted(t, r) ==> NoWrap(fs.g) && Aside(fs.g, dp.chain, StraySec(fs, dp))
  {
    CountAt(fs, dp, t, r);
    DirSize(fs, dp, t);
    if StrayBehind(fs.g, dp.firstClus) {
      BehindAside(fs, dp);
    }
  }

  /** Records marked empty, some of them perhaps behind the last one in use. */
  lemma {:induction false} MarkedLive(d: seq<Rec>, t: seq<Rec>, r: nat, n: nat, k: nat, d': seq<Rec>)
    requires t == LiveOf(d) && Emptied(d, r, k, d') && (k == n || (k < n && |d| <= r + k))
    ensures LiveOf(d') == LiveOf(Marked(t, r, n))
  {
    var m := Marked(t, r, n);
    var u := LiveOf(m);
    forall q | 0 <= q < |t| ensures d'[q] == m[q] {
      assert d[q] == t[q];
    }
    forall q | |u| <= q < |d'| ensures !Live(d'[q]) {
      assert q < |t| ==> d'[q] == m[q];
      assert q >= |t| ==> !Live(d[q]);
    }
    assert |u| > 0 ==> d'[|u| - 1] == m[|u| - 1] == u[|u| - 1];
    LiveIs(d', |u|);
    assert d'[..|u|] == u;
  }

  /** Look a name up and, if it is there, remove it. */
  method RemoveEntry(fs: FatVolume, dp: Dirent, ep: Dirent, isRoot: bool, name: seq<byte>, ghost t: seq<Rec>)
    requires Directory(fs, dp, t) && ep != dp && ep.valid == 0 && PlainName(name)
    requires FitsDir(fs.g, dp.firstClus, t, RoomOf(fs, dp), Remove(name))
    modifies fs, dp, ep
    ensures Directory(fs, dp, After(t, Remove(name))) && ep.valid == 0
    ensures RoomOf(fs, dp) == old(RoomOf(fs, dp)) && dp.firstClus == old(dp.firstClus)
    ensures List(After(t, Remove(name))) == Listed(List(t), Remove(name)) <==> Right(t, Remove(name))
  {
    EditEntry(fs, dp, ep, isRoot, Remove(name), t);
    ListsIff(t, Remove(name));
  }

  /** The same, with r where the name is found. */
  method RemoveNamed(fs: FatVolume, dp: Dirent, ep: Dirent, isRoot: bool, name: seq<byte>, ghost t: seq<Rec>,
                     ghost r: nat)
    requires Directory(fs, dp, t) && ep != dp && ep.valid == 0 && PlainName(name) && r == Hit(t, name)
    requires r < |t| ==>
               32 * (r + Counted(t, r)) < Span(|dp.chain|, fs.g.bytsPerClus) || StrayBehind(fs.g, dp.firstClus)
    modifies fs, dp, ep
    ensures Directory(fs, dp, if r < |t| then Removed(t, r) else t)
    ensures ep.valid == 0 && dp.firstClus == old(dp.firstClus)
    ensures dp.chain == old(dp.chain) && |FreeSet(fs.vol)| == |old(FreeSet(fs.vol))|
  {
    DirSize(fs, dp, t);
    RemovedSound(t, name);
    assert OpenPlain(Key);
    var look, off := Dirlookup(fs, dp, ep, name, isRoot, t);
    if look == Seen {
      RemoveSlot(fs, dp, ep, t, r);
    }
    ep.valid := 0;
  }

  /** eremove on the entry found at r. */
  method RemoveSlot(fs: FatVolume, dp: Dirent, ep: Dirent, ghost t: seq<Rec>, ghost r: nat)
    requires Directory(fs, dp, t) && ep != dp && ep.valid == 1 && ep.off == 32 * r && r < |t|
    requires Scannable(Removed(t, r))
    requires 32 * (r + Counted(t, r)) < Span(|dp.chain|, fs.g.bytsPerClus) || StrayBehind(fs.g, dp.firstClus)
    modifies fs, dp`curClus, dp`clusCnt, dp`chain, dp`recs, ep`valid
    ensures Directory(fs, dp, Removed(t, r))
    ensures dp.chain == old(dp.chain) && |FreeSet(fs.vol)| == |old(FreeSet(fs.vol))|
  {
    ghost var d, n := dp.recs, Counted(t, r) + 1;
    EraseAt(fs, dp, ep, t, r);
    MarkedLive(d, t, r, n, if r + n <= |d| then n else |d| - r, dp.recs);
  }

  method EraseAt(fs: FatVolume, dp: Dirent, ep: Dirent, ghost t: seq<Rec>, ghost r: nat)
    requires Directory(fs, dp, t) && ep != dp && ep.valid == 1 && ep.off == 32 * r && r < |t|
    requires 32 * (r + Counted(t, r)) < Span(|dp.chain|, fs.g.bytsPerClus) || StrayBehind(fs.g, dp.firstClus)
    modifies fs, dp`curClus, dp`clusCnt, dp`chain, dp`recs, ep`valid
    ensures DirOk(fs, dp) && dp.chain == old(dp.chain) && |FreeSet(fs.vol)| == |old(FreeSet(fs.vol))|
    ensures var d, n := old(dp.recs), Counted(t, r) + 1;
            r <= |d| && Emptied(d, r, if r + n <= |d| then n else |d| - r, dp.recs)
  {
    BeforeEdit(fs, dp, t, r);
    RecordIndex(ep.off, r);
    var _ := Eremove(fs, dp, ep);
  }

  /** Every run of making, updating and removing files, in any directory: its records are those that the run
      makes of them, and it lists what the run leaves in a plain list of entries if each operation is right. */
  method RunDir(fs: FatVolume, dp: Dirent, ep: Dirent, isRoot: bool, ops: seq<DirOp>, ghost t: seq<Rec>)
    requires Directory(fs, dp, t) && ep != dp && ep.valid == 0 && forall i :: 0 <= i < |ops| ==> OpOk(ops[i])
    requires AllFitDir(fs.g, dp.firstClus, t, RoomOf(fs, dp), ops)
    modifies fs, dp, ep
    ensures Directory(fs, dp, AfterAll(t, ops)) && ep.valid == 0
    ensures AllRight(t, ops) ==> List(AfterAll(t, ops)) == ListedAll(List(t), ops)
    decreases |ops|
  {
    if ops != [] {
      DirSize(fs, dp, t);
      AfterSound(t, ops[0]);
      match ops[0] {
        case Make(e) => MakeEntry(fs, dp, ep, isRoot, e, t);
        case Update(name, c, z) => UpdateEntry(fs, dp, ep, isRoot, name, c, z, t);
        case Remove(name) => RemoveEntry(fs, dp, ep, isRoot, name, t);
      }
      RunDir(fs, dp, ep, isRoot, ops[1..], After(t, ops[0]));
    }
  }

  // ----- from nothing -----

  /** The two dot entries that a new directory gets; before them no record of it is in use. */
  method StartDir(fs: FatVolume, dp: Dirent, parent: Dirent)
    requires Directory(fs, dp, []) && parent != dp
    modifies fs, dp`curClus, dp`clusCnt, dp`chain, dp`recs
    ensures Directory(fs, dp, Dots(dp.firstClus, parent.firstClus))
    ensures RoomOf(fs, dp) == old(RoomOf(fs, dp))
  {
    ghost var d0, own, up := dp.recs, dp.firstClus, parent.firstClus;
    DirSize(fs, dp, []);
    MakeDot(fs, dp, dp, 0, 0);
    ghost var d1 := dp.recs;
    MakeDot(fs, dp, parent, 32, 1);
    DotsPlaced(d0, d1, dp.recs, own, up);
    DotsList(own, up);
  }

  /** One of them. It takes no cluster. */
  method MakeDot(fs: FatVolume, dp: Dirent, ep: Dirent, off: u32, ghost r: nat)
    requires DirOk(fs, dp) && off == 32 * r && r < 2
    modifies fs, dp`curClus, dp`clusCnt, dp`chain, dp`recs
    ensures DirOk(fs, dp) && |dp.chain| == |old(dp.chain)| && |FreeSet(fs.vol)| == |old(FreeSet(fs.vol))|
    ensures Placed(old(dp.recs), r, [DotRec(r == 1, ep.firstClus)], dp.recs)
  {
    OneCluster(fs, dp, off);
    Emake(fs, dp, ep, off, r, EntryOf(ep, []));
  }

  /** The first two records are in the first cluster. */
  lemma {:induction false} OneCluster(fs: FatVolume, dp: Dirent, off: nat)
    requires DirOk(fs, dp) && off <= 32
    ensures Reached(|dp.chain|, fs.g.bytsPerClus, off) == |dp.chain|
  {
    FirstRecords(fs, dp);
    DirShape(fs, dp);
    CursorFacts(fs.vol, dp);
    var B := fs.g.bytsPerClus;
    assert Span(1, B) == Span(0, B) + B;
    SpanBelow(off, 1, B);
  }

  lemma {:induction false} DotsPlaced(d0: seq<Rec>, d1: seq<Rec>, d2: seq<Rec>, own: u32, parent: u32)
    requires LiveOf(d0) == [] && Placed(d0, 0, [DotRec(false, own)], d1) && Placed(d1, 1, [DotRec(true, parent)], d2)
    ensures LiveOf(d2) == Dots(own, parent)
  {
    DotShort(false, own);
    DotShort(true, parent);
    PlacedLive(d0, [], [DotRec(false, own)], d1);
    assert [] + [DotRec(false, own)] == [DotRec(false, own)];
    PlacedLive(d1, [DotRec(false, own)], [DotRec(true, parent)], d2);
    assert [DotRec(false, own)] + [DotRec(true, parent)] == Dots(own, parent);
  }

  /** A directory made from nothing by any run of operations is scanned back as exactly the entries that the
      run leaves, in order, behind its two dot entries. */
  method MakeAndList(fs: FatVolume, dp: Dirent, parent: Dirent, ep: Dirent, isRoot: bool, ops: seq<DirOp>)
      returns (found: seq<Entry>)
    requires Directory(fs, dp, []) && parent != dp && ep != dp && ep.valid == 0
    requires forall i :: 0 <= i < |ops| ==> OpOk(ops[i])
    requires AllFitDir(fs.g, dp.firstClus, Dots(dp.firstClus, parent.firstClus), RoomOf(fs, dp), ops)
    modifies fs, dp, ep
    ensures found == ListedAll(List(old(Dots(dp.firstClus, parent.firstClus))), ops)
  {
    ghost var dots := Dots(dp.firstClus, parent.firstClus);
    StartDir(fs, dp, parent);
    DirSize(fs, dp, dots);
    DotsList(dp.firstClus, parent.firstClus);
    DottedAllRight(dots, ops);
    RunDir(fs, dp, ep, isRoot, ops, dots);
    var off;
    found, off := ScanDir(fs, dp, ep, AfterAll(dots, ops));
  }
}
