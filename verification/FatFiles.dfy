/** Files of a FAT32 volume: the in-memory entry with its cluster cursor, and reading, writing
    and truncating through it. */
module FatFiles {
  import opened Bytes
  import opened FatSectors
  import opened FatChains

  const ATTR_READ_ONLY := 0x01
  const ATTR_DIRECTORY := 0x10
  const ATTR_LONG_NAME := 0x0F
  /** filename holds FAT32_MAX_FILENAME characters and a terminator. */
  const NAME_BUFFER := 256

  /** A 32-byte directory record. */
  type Rec = r: seq<byte> | |r| == 32 witness seq(32, _ => 0)

  /** struct dirent; chain is the list of clusters that first_clus leads to, recs the records of
      a directory's bytes. */
  class Dirent {
    var filename: seq<byte>
    var attribute: byte
    var firstClus: u32
    var fileSize: u32
    var curClus: u32
    var clusCnt: u32
    var dirty: bool
    var valid: int
    var off: u32
    ghost var chain: seq<nat>
    ghost var recs: seq<Rec>

    constructor ()
      ensures filename == Zeros(NAME_BUFFER) && attribute == 0 && firstClus == 0 && fileSize == 0
      ensures curClus == 0 && clusCnt == 0 && !dirty && valid == 0 && off == 0 && chain == []
    {
      filename := Zeros(NAME_BUFFER);
      attribute, firstClus, fileSize, curClus, clusCnt := 0, 0, 0, 0, 0;
      dirty, valid, off, chain := false, 0, 0, [];
    }
  }

  predicate HasAttr(a: byte, bit: nat)
    requires bit > 0
  {
    a / bit % 2 == 1
  }

  ghost predicate OpenCursor(k: Key) {
    true
  }

  /** The cursor stands on the clusCnt-th cluster of the entry's chain. */
  ghost predicate CursorOk(v: Vol, e: Dirent)
    reads e
  {
    && 0 != e.firstClus && e.clusCnt < |e.chain| && e.curClus < FAT32_EOC
    && forall k: Key {:trigger OpenCursor(k)} :: OpenCursor(k) ==>
         Chain(v, e.firstClus, e.chain) && e.curClus == e.chain[e.clusCnt]
  }

  lemma {:induction false} CursorFacts(v: Vol, e: Dirent)
    requires CursorOk(v, e)
    ensures Chain(v, e.firstClus, e.chain) && e.curClus == e.chain[e.clusCnt]
  {
    assert OpenCursor(Key);
  }

  /** A chain holds Span(n) bytes. */
  lemma {:induction false} ChainBytes(v: Vol, B: nat, e: Dirent)
    requires VolOk(v, B) && (FileOk(v, B, e) || CursorOk(v, e))
    ensures |Flat(v.data, e.chain)| == Span(|e.chain|, B)
  {
    if e.firstClus != 0 {
      CursorFacts(v, e);
    }
    assert OpenVol(Key);
    FlatLength(v.data, e.chain, B);
  }

  /** A well-formed file: empty without clusters, or a chain long enough for its size. */
  ghost predicate FileOk(v: Vol, B: nat, e: Dirent)
    reads e
  {
    if e.firstClus == 0 then e.fileSize == 0 && e.chain == []
    else CursorOk(v, e) && e.fileSize <= Span(|e.chain|, B)
  }

  /** The bytes of a file. */
  ghost function Contents(v: Vol, B: nat, e: Dirent): (s: seq<byte>)
    requires VolOk(v, B) && FileOk(v, B, e)
    reads e
    ensures |s| == e.fileSize
  {
    ChainBytes(v, B, e);
    Flat(v.data, e.chain)[..e.fileSize]
  }

  ghost predicate Ready(fs: FatVolume)
    reads fs
  {
    fs.Valid() && VolOk(fs.vol, fs.g.bytsPerClus)
  }

  function Max(a: int, b: int): int {
    if a < b then b else a
  }

  const SIGN := 0x8000_0000

  /** clus >= FAT32_EOC, where reloc_clus keeps what read_fat has returned as a signed number. */
  predicate IsEnd(clus: u32) {
    FAT32_EOC <= clus < SIGN
  }

  /** The step at a chain's end: take a cluster and link it behind the cursor. */
  method Extend(fs: FatVolume, e: Dirent) returns (clus: u32)
    requires Ready(fs) && CursorOk(fs.vol, e) && e.clusCnt == |e.chain| - 1
    requires FreeSet(fs.vol) != {}
    modifies fs, e`chain
    ensures Ready(fs) && e.chain == old(e.chain) + [clus] && Chain(fs.vol, e.firstClus, e.chain)
    ensures GrownClean(old(fs.vol), old(e.chain), fs.vol, e.chain)
  {
    ghost var v := fs.vol;
    CursorFacts(v, e);
    FreeExists(v, fs.g.bytsPerClus);
    clus := fs.AllocClus();
    var _ := fs.WriteFat(e.curClus, clus);
    GrowStep(v, e.firstClus, e.chain, clus, fs.vol, fs.g.bytsPerClus);
    e.chain := e.chain + [clus];
  }

  /** One round of the walk towards a later cluster; false when the chain ends and may not grow. */
  method Advance(fs: FatVolume, e: Dirent, alloc: bool) returns (ok: bool)
    requires Ready(fs) && CursorOk(fs.vol, e)
    requires alloc && e.clusCnt == |e.chain| - 1 ==> FreeSet(fs.vol) != {}
    modifies fs, e`curClus, e`clusCnt, e`chain
    ensures Ready(fs) && CursorOk(fs.vol, e)
    ensures ok == (alloc || old(e.clusCnt) < |old(e.chain)| - 1)
    ensures e.clusCnt == if ok then old(e.clusCnt) + 1 else 0
    ensures !alloc || old(e.clusCnt) < |old(e.chain)| - 1 ==> fs.disk == old(fs.disk)
    ensures !alloc || old(e.clusCnt) < |old(e.chain)| - 1 ==> fs.vol == old(fs.vol) && e.chain == old(e.chain)
    ensures |e.chain| == if ok then Max(|old(e.chain)|, e.clusCnt + 1) else |old(e.chain)|
    ensures GrownClean(old(fs.vol), old(e.chain), fs.vol, e.chain)
  {
    GrownCleanRefl(fs.vol, e.chain);
    CursorFacts(fs.vol, e);
    NextClus(fs.vol, e.firstClus, e.chain, e.clusCnt);
    var clus := fs.ReadFat(e.curClus);
    if IsEnd(clus) {
      if alloc {
        clus := Extend(fs, e);
      } else {
        e.curClus := e.firstClus;
        e.clusCnt := 0;
        return false;
      }
    }
    ShortChain(fs.vol, e.firstClus, e.chain);
    e.curClus := clus;
    e.clusCnt := e.clusCnt + 1;
    ok := true;
  }

  /** A chain is no longer than the volume has clusters. */
  lemma {:induction false} ShortChain(v: Vol, first: nat, ch: seq<nat>)
    requires Chain(v, first, ch) && |v.data| <= FAT32_BAD
    ensures |ch| <= |v.data| - 2
  {
    ChainAcyclic(v, first, ch);
    DistinctSize(ch);
    PigeonHole(Elems(ch), 2, |v.data|);
  }

  lemma {:induction false} PigeonHole(s: set<nat>, a: nat, b: nat)
    requires a <= b && forall c :: c in s ==> a <= c < b
    ensures |s| <= b - a
    decreases b
  {
    if a < b {
      PigeonHole(s - {b - 1}, a, b - 1);
    } else {
      assert s == {};
    }
  }

  /** The walk from the start of the chain. */
  method Rewind(fs: FatVolume, e: Dirent, clusNum: nat)
    requires Ready(fs) && CursorOk(fs.vol, e) && clusNum < |e.chain|
    modifies e`curClus, e`clusCnt
    ensures CursorOk(fs.vol, e) && e.clusCnt == clusNum
  {
    CursorFacts(fs.vol, e);
    ShortChain(fs.vol, e.firstClus, e.chain);
    e.curClus := e.firstClus;
    e.clusCnt := 0;
    while e.clusCnt < clusNum
      invariant CursorOk(fs.vol, e) && e.clusCnt <= clusNum
    {
      CursorFacts(fs.vol, e);
      NextClus(fs.vol, e.firstClus, e.chain, e.clusCnt);
      e.curClus := fs.ReadFat(e.curClus);
      assert e.curClus < FAT32_EOC;
      e.clusCnt := e.clusCnt + 1;
    }
  }

  /** reloc_clus: moves the cursor to the cluster that holds byte off, and returns the offset in it. */
  method RelocClus(fs: FatVolume, e: Dirent, off: u32, alloc: bool) returns (r: int)
    requires Ready(fs) && CursorOk(fs.vol, e)
    requires alloc ==> off / fs.g.bytsPerClus < |e.chain| + |FreeSet(fs.vol)|
    modifies fs, e`curClus, e`clusCnt, e`chain
    ensures Ready(fs) && CursorOk(fs.vol, e)
    ensures var B := fs.g.bytsPerClus;
            if !alloc && off / B >= |old(e.chain)| then r == -1 && e.clusCnt == 0
            else r == off % B && e.clusCnt == off / B
    ensures !alloc ==> fs.disk == old(fs.disk) && fs.vol == old(fs.vol) && e.chain == old(e.chain)
    ensures alloc ==> |e.chain| == Max(|old(e.chain)|, off / fs.g.bytsPerClus + 1)
    ensures GrownClean(old(fs.vol), old(e.chain), fs.vol, e.chain)
  {
    ghost var v0, ch0 := fs.vol, e.chain;
    GrownCleanRefl(v0, ch0);
    SpanDiv(off, fs.g.bytsPerClus);
    var clusNum: nat := off / fs.g.bytsPerClus;
    while clusNum > e.clusCnt
      invariant Ready(fs) && CursorOk(fs.vol, e)
      invariant !alloc ==> fs.disk == old(fs.disk) && fs.vol == old(fs.vol) && e.chain == ch0
      invariant GrownClean(v0, ch0, fs.vol, e.chain)
      invariant |e.chain| == |ch0| || |e.chain| == e.clusCnt + 1 <= clusNum + 1
      decreases clusNum - e.clusCnt
    {
      ghost var v1, ch1 := fs.vol, e.chain;
      var ok := Advance(fs, e, alloc);
      GrownCleanTrans(v0, ch0, v1, ch1, fs.vol, e.chain);
      if !ok {
        return -1;
      }
    }
    if clusNum < e.clusCnt {
      Rewind(fs, e, clusNum);
    }
    r := off % fs.g.bytsPerClus;
  }

  // ----- reading -----

  /** Byte positions of the k-th cluster: off lies at off % B of cluster off / B of the chain. */
  lemma {:induction false} Located(v: Vol, B: nat, first: nat, ch: seq<nat>, off: nat, m: nat)
    requires VolOk(v, B) && Chain(v, first, ch) && off / B < |ch| && off % B + m <= B
    ensures 0 <= off / B && 0 <= off % B && off + m <= |Flat(v.data, ch)| && |v.data[ch[off / B]]| == B
    ensures v.data[ch[off / B]][off % B..off % B + m] == Flat(v.data, ch)[off..off + m]
  {
    SpanDiv(off, B);
    assert OpenVol(Key);
    FlatLength(v.data, ch, B);
    FlatSlice(v.data, ch, B, off / B, off % B, m);
  }

  /** The round size of eread and ewrite: to the end of the cluster, or what is left. */
  function RoundSize(off: nat, left: nat, B: nat): (m: nat)
    requires 0 < B
    ensures 0 < left ==> 0 < m <= left
    ensures off % B + m <= B
  {
    SpanDiv(off, B);
    if left < B - off % B then left else B - off % B
  }

  /** One round of eread: some of the n bytes at off, those in off's cluster. */
  method ReadRound(fs: FatVolume, e: Dirent, off: u32, n: nat) returns (piece: seq<byte>)
    requires Ready(fs) && CursorOk(fs.vol, e)
    requires 0 < n && off + n <= |Flat(fs.vol.data, e.chain)|
    modifies fs, e`curClus, e`clusCnt, e`chain
    ensures Ready(fs) && CursorOk(fs.vol, e) && fs.disk == old(fs.disk) && fs.vol == old(fs.vol)
    ensures e.chain == old(e.chain)
    ensures 0 < |piece| <= n && piece == Flat(fs.vol.data, e.chain)[off..off + |piece|]
  {
    ChainBytes(fs.vol, fs.g.bytsPerClus, e);
    SpanBelow(off, |e.chain|, fs.g.bytsPerClus);
    var _ := RelocClus(fs, e, off, false);
    var m := RoundSize(off, n, fs.g.bytsPerClus);
    CursorFacts(fs.vol, e);
    Located(fs.vol, fs.g.bytsPerClus, e.firstClus, e.chain, off, m);
    piece := fs.ReadClus(e.curClus, off % fs.g.bytsPerClus, m);
  }

  /** What a read of n bytes at off returns. */
  ghost function ReadSpec(s: seq<byte>, off: nat, n: nat): seq<byte> {
    if off > |s| || off + n >= U32_LIMIT then [] else s[off..if off + n > |s| then |s| else off + n]
  }

  /** The loop of eread. */
  method ReadLoop(fs: FatVolume, e: Dirent, start: u32, n: nat) returns (out: seq<byte>)
    requires Ready(fs) && FileOk(fs.vol, fs.g.bytsPerClus, e) && start + n <= e.fileSize
    modifies fs, e`curClus, e`clusCnt, e`chain
    ensures Ready(fs) && FileOk(fs.vol, fs.g.bytsPerClus, e)
    ensures fs.disk == old(fs.disk) && fs.vol == old(fs.vol) && e.chain == old(e.chain)
    ensures out == Contents(fs.vol, fs.g.bytsPerClus, e)[start..start + n]
  {
    out := [];
    var off, tot := start, 0;
    ghost var f := Contents(fs.vol, fs.g.bytsPerClus, e);
    while e.curClus < FAT32_EOC && tot < n
      invariant 0 <= tot <= n && off == start + tot
      invariant Ready(fs) && FileOk(fs.vol, fs.g.bytsPerClus, e) && f == Contents(fs.vol, fs.g.bytsPerClus, e)
      invariant fs.disk == old(fs.disk) && fs.vol == old(fs.vol) && e.chain == old(e.chain)
      invariant n > 0 ==> e.curClus < FAT32_EOC
      invariant out == f[start..off]
      decreases n - tot
    {
      var piece := ReadPiece(fs, e, off, n - tot);
      var m := |piece|;
      SliceJoin(f, start, off, off + m);
      out := out + piece;
      tot, off := tot + m, off + m;
    }
  }

  /** The round in terms of the file's contents. */
  method ReadPiece(fs: FatVolume, e: Dirent, off: u32, n: nat) returns (piece: seq<byte>)
    requires Ready(fs) && FileOk(fs.vol, fs.g.bytsPerClus, e) && 0 < n && off + n <= e.fileSize
    modifies fs, e`curClus, e`clusCnt, e`chain
    ensures Ready(fs) && FileOk(fs.vol, fs.g.bytsPerClus, e) && e.curClus < FAT32_EOC
    ensures fs.disk == old(fs.disk) && fs.vol == old(fs.vol) && e.chain == old(e.chain)
    ensures 0 < |piece| <= n && piece == Contents(fs.vol, fs.g.bytsPerClus, e)[off..off + |piece|]
  {
    ChainBytes(fs.vol, fs.g.bytsPerClus, e);
    piece := ReadRound(fs, e, off, n);
    CursorFacts(fs.vol, e);
    CutSlice(Flat(fs.vol.data, e.chain), e.fileSize, off, off + |piece|);
  }

  lemma {:induction false} CutSlice(s: seq<byte>, n: nat, a: nat, b: nat)
    requires a <= b <= n <= |s|
    ensures s[..n][a..b] == s[a..b]
  {
  }

  lemma {:induction false} SliceJoin(s: seq<byte>, a: nat, b: nat, c: nat)
    requires a <= b <= c <= |s|
    ensures s[a..b] + s[b..c] == s[a..c]
  {
  }

  lemma {:induction false} WrapTest(a: u32, b: u32)
    ensures (a + b) % U32_LIMIT < a <==> a + b >= U32_LIMIT
  {
  }

  /** eread */
  method Eread(fs: FatVolume, e: Dirent, off: u32, count: u32) returns (out: seq<byte>)
    requires Ready(fs) && FileOk(fs.vol, fs.g.bytsPerClus, e)
    modifies fs, e`curClus, e`clusCnt, e`chain
    ensures Ready(fs) && FileOk(fs.vol, fs.g.bytsPerClus, e)
    ensures fs.disk == old(fs.disk) && fs.vol == old(fs.vol) && e.chain == old(e.chain)
    ensures out == if HasAttr(e.attribute, ATTR_DIRECTORY) then []
                   else ReadSpec(Contents(fs.vol, fs.g.bytsPerClus, e), off, count)
  {
    WrapTest(off, count);
    if off > e.fileSize || (off + count) % U32_LIMIT < off || HasAttr(e.attribute, ATTR_DIRECTORY) {
      return [];
    }
    var n := count;
    if off + n > e.fileSize {
      n := e.fileSize - off;
    }
    out := ReadLoop(fs, e, off, n);
  }

  // ----- writing -----

  /** A write of x at off <= |s|: it replaces what is there and extends the file where it runs past the end. */
  ghost function WriteSpec(s: seq<byte>, off: nat, x: seq<byte>): seq<byte>
    requires off <= |s|
  {
    s[..off] + x + if off + |x| < |s| then s[off + |x|..] else []
  }

  /** The bytes of a chain while a write is under way: f, grown by zeros, with x in place at off. */
  ghost predicate Written(now: seq<byte>, f: seq<byte>, off: nat, x: seq<byte>) {
    && |f| <= |now| && off + |x| <= |now|
    && (forall i :: 0 <= i < |x| ==> now[off + i] == x[i])
    && (forall i :: 0 <= i < |f| && !(off <= i < off + |x|) ==> now[i] == f[i])
  }

  lemma {:induction false} WrittenGrows(now: seq<byte>, now': seq<byte>, f: seq<byte>, off: nat, x: seq<byte>)
    requires Written(now, f, off, x) && ZeroExtends(now', now)
    ensures Written(now', f, off, x)
  {
    assert forall i :: 0 <= i < |now| ==> now'[i] == now'[..|now|][i];
  }

  lemma {:induction false} WrittenMore(now: seq<byte>, f: seq<byte>, off: nat, x: seq<byte>, y: seq<byte>)
    requires Written(now, f, off, x) && off + |x| + |y| <= |now|
    ensures Written(Splice(now, off + |x|, y), f, off, x + y)
  {
  }

  lemma {:induction false} WrittenDone(now: seq<byte>, f: seq<byte>, size: nat, off: nat, x: seq<byte>)
    requires Written(now, f, off, x) && off <= size <= |f|
    ensures now[..Max(size, off + |x|)] == WriteSpec(f[..size], off, x)
  {
  }

  /** One round of ewrite: the first m bytes of rest, those that fit in off's cluster, with the
      chain grown up to it; f is the chain's bytes when the write began at start, done what
      earlier rounds have put there. */
  method WriteRound(fs: FatVolume, e: Dirent, off: u32, rest: seq<byte>, ghost f: seq<byte>, ghost start: nat,
                    ghost done: seq<byte>)
    returns (m: nat)
    requires Ready(fs) && CursorOk(fs.vol, e) && rest != []
    requires off < Span(|e.chain| + |FreeSet(fs.vol)|, fs.g.bytsPerClus)
    requires off == start + |done| && Written(Flat(fs.vol.data, e.chain), f, start, done)
    modifies fs, e`curClus, e`clusCnt, e`chain
    ensures Ready(fs) && CursorOk(fs.vol, e) && 0 < m <= |rest|
    ensures |e.chain| == |old(e.chain)| || Span(|e.chain| - 1, fs.g.bytsPerClus) <= off
    ensures Grown(old(fs.vol), old(e.chain), fs.vol, e.chain)
    ensures Written(Flat(fs.vol.data, e.chain), f, start, done + rest[..m])
  {
    ghost var v0, ch0 := fs.vol, e.chain;
    SeekWrite(fs, e, off, f, start, done);
    ghost var v1 := fs.vol;
    m := RoundSize(off, |rest|, fs.g.bytsPerClus);
    PutRound(fs, e, off, rest[..m]);
    GrownTrans(v0, ch0, v1, e.chain, fs.vol, e.chain);
    WrittenMore(Flat(v1.data, e.chain), f, start, done, rest[..m]);
  }

  /** The move of a write's cursor to off, which may grow the chain but changes none of its bytes. */
  method SeekWrite(fs: FatVolume, e: Dirent, off: u32, ghost f: seq<byte>, ghost start: nat, ghost done: seq<byte>)
    requires Ready(fs) && CursorOk(fs.vol, e)
    requires off < Span(|e.chain| + |FreeSet(fs.vol)|, fs.g.bytsPerClus)
    requires Written(Flat(fs.vol.data, e.chain), f, start, done)
    modifies fs, e`curClus, e`clusCnt, e`chain
    ensures Ready(fs) && CursorOk(fs.vol, e) && e.clusCnt == off / fs.g.bytsPerClus
    ensures |e.chain| == |old(e.chain)| || Span(|e.chain| - 1, fs.g.bytsPerClus) <= off
    ensures Grown(old(fs.vol), old(e.chain), fs.vol, e.chain)
    ensures Written(Flat(fs.vol.data, e.chain), f, start, done)
  {
    ghost var v0, ch0 := fs.vol, e.chain;
    SpanDiv(off, fs.g.bytsPerClus);
    SpanBelow(off, |ch0| + |FreeSet(v0)|, fs.g.bytsPerClus);
    var _ := RelocClus(fs, e, off, true);
    WrittenGrows(Flat(v0.data, ch0), Flat(fs.vol.data, e.chain), f, start, done);
  }

  /** The copy of one round, with the cursor already on off's cluster. */
  method PutRound(fs: FatVolume, e: Dirent, off: nat, x: seq<byte>)
    requires Ready(fs) && CursorOk(fs.vol, e)
    requires e.clusCnt == off / fs.g.bytsPerClus && off % fs.g.bytsPerClus + |x| <= fs.g.bytsPerClus
    modifies fs
    ensures Ready(fs) && CursorOk(fs.vol, e)
    ensures Grown(old(fs.vol), e.chain, fs.vol, e.chain)
    ensures off + |x| <= |old(Flat(fs.vol.data, e.chain))|
    ensures Flat(fs.vol.data, e.chain) == Splice(old(Flat(fs.vol.data, e.chain)), off, x)
  {
    ghost var v := fs.vol;
    CursorFacts(v, e);
    SpanDiv(off, fs.g.bytsPerClus);
    fs.WriteClus(e.curClus, off % fs.g.bytsPerClus, x);
    Overwritten(v, fs.g.bytsPerClus, e.firstClus, e.chain, off, x, fs.vol);
  }

  lemma {:induction false} Overwritten(v: Vol, B: nat, first: nat, ch: seq<nat>, off: nat, x: seq<byte>, v': Vol)
    requires VolOk(v, B) && Chain(v, first, ch) && 0 <= off / B < |ch| && 0 <= off % B && off % B + |x| <= B
    requires |v.data[ch[off / B]]| == B
    requires v' == v.(data := v.data[ch[off / B] := Splice(v.data[ch[off / B]], off % B, x)])
    ensures VolOk(v', B) && Chain(v', first, ch) && Grown(v, ch, v', ch)
    ensures off + |x| <= |Flat(v.data, ch)| && Flat(v'.data, ch) == Splice(Flat(v.data, ch), off, x)
  {
    SpanDiv(off, B);
    var k, o := off / B, off % B;
    ChainAcyclic(v, first, ch);
    ChainSized(v, B, first, ch);
    FlatSplice(v.data, ch, B, k, o, x);
    SameFat(v, B, first, ch, ch[k], Splice(v.data[ch[k]], o, x), v');
  }

  lemma {:induction false} ChainSized(v: Vol, B: nat, first: nat, ch: seq<nat>)
    requires VolOk(v, B) && Chain(v, first, ch)
    ensures Sized(v.data, ch, B)
  {
    assert OpenVol(Key);
  }

  lemma {:induction false} SameFat(v: Vol, B: nat, first: nat, ch: seq<nat>, c: nat, page: seq<byte>, v': Vol)
    requires VolOk(v, B) && Chain(v, first, ch) && c in ch && c < |v.data| && |page| == B
    requires v' == v.(data := v.data[c := page])
    ensures VolOk(v', B) && Chain(v', first, ch) && Grown(v, ch, v', ch)
  {
    assert ch == ch[..|ch|];
    assert FreeSet(v') == FreeSet(v);
  }

  /** ewrite's first step on a file that has no cluster yet. */
  method StartFile(fs: FatVolume, e: Dirent)
    requires Ready(fs) && FileOk(fs.vol, fs.g.bytsPerClus, e)
    requires e.firstClus == 0 ==> FreeSet(fs.vol) != {}
    modifies fs, e`firstClus, e`curClus, e`clusCnt, e`dirty, e`chain
    ensures Ready(fs) && CursorOk(fs.vol, e) && e.fileSize <= Span(|e.chain|, fs.g.bytsPerClus)
    ensures old(e.firstClus) != 0 ==> fs.disk == old(fs.disk) && fs.vol == old(fs.vol)
    ensures old(e.firstClus) != 0 ==>
              e.firstClus == old(e.firstClus) && e.chain == old(e.chain) && e.dirty == old(e.dirty)
    ensures |e.chain| == Max(|old(e.chain)|, 1)
    ensures Grown(old(fs.vol), old(e.chain), fs.vol, e.chain)
    ensures Contents(fs.vol, fs.g.bytsPerClus, e) == old(Contents(fs.vol, fs.g.bytsPerClus, e))
    ensures old(e.firstClus) == 0 ==> e.dirty && e.firstClus != 0
  {
    ghost var v := fs.vol;
    if e.firstClus == 0 {
      FreeExists(v, fs.g.bytsPerClus);
      var c := fs.AllocClus();
      StartStep(v, c, fs.vol, fs.g.bytsPerClus);
      e.firstClus := c;
      e.curClus := c;
      e.clusCnt := 0;
      e.dirty := true;
      e.chain := [c];
    } else {
      GrownCleanRefl(v, e.chain);
    }
  }

  ghost predicate OpenWriting(k: Key) {
    true
  }

  /** A write of src at start under way: its first tot bytes are in the file, which held f in the clusters ch0. */
  ghost predicate Writing(fs: FatVolume, e: Dirent, start: nat, src: seq<byte>, tot: nat, f: seq<byte>, v0: Vol,
                          ch0: seq<nat>)
    reads fs, e
  {
    tot <= |src| && forall k: Key {:trigger OpenWriting(k)} :: OpenWriting(k) ==>
      && Ready(fs) && CursorOk(fs.vol, e) && Grown(v0, ch0, fs.vol, e.chain)
      && (|e.chain| == |ch0| || Span(|e.chain| - 1, fs.g.bytsPerClus) < start + tot)
      && Written(Flat(fs.vol.data, e.chain), f, start, src[..tot])
  }

  lemma {:induction false} WritingStart(fs: FatVolume, e: Dirent, start: nat, src: seq<byte>)
    requires Ready(fs) && CursorOk(fs.vol, e) && start <= |Flat(fs.vol.data, e.chain)|
    ensures Writing(fs, e, start, src, 0, Flat(fs.vol.data, e.chain), fs.vol, e.chain)
  {
    GrownCleanRefl(fs.vol, e.chain);
    assert src[..0] == [];
  }

  /** The loop of ewrite. */
  method WriteLoop(fs: FatVolume, e: Dirent, start: u32, src: seq<byte>) returns (off: u32)
    requires Ready(fs) && CursorOk(fs.vol, e) && start + |src| < U32_LIMIT
    requires start <= |Flat(fs.vol.data, e.chain)|
    requires start + |src| <= Span(|e.chain| + |FreeSet(fs.vol)|, fs.g.bytsPerClus)
    modifies fs, e`curClus, e`clusCnt, e`chain
    ensures Ready(fs) && CursorOk(fs.vol, e) && off == start + |src|
    ensures |e.chain| == |old(e.chain)| || Span(|e.chain| - 1, fs.g.bytsPerClus) < off
    ensures Grown(old(fs.vol), old(e.chain), fs.vol, e.chain)
    ensures Written(Flat(fs.vol.data, e.chain), old(Flat(fs.vol.data, e.chain)), start, src)
  {
    ghost var v0, ch0 := fs.vol, e.chain;
    ghost var f := Flat(v0.data, ch0);
    WritingStart(fs, e, start, src);
    var tot, n := 0, |src|;
    off := start;
    while tot < n
      invariant 0 <= tot <= n && off == start + tot && Writing(fs, e, start, src, tot, f, v0, ch0)
    {
      var m := WriteMore(fs, e, off, src, start, tot, f, v0, ch0);
      tot, off := tot + m, off + m;
    }
    assert OpenWriting(Key);
    assert src[..tot] == src;
  }

  /** One round of the loop, with what has been written before it. */
  method WriteMore(fs: FatVolume, e: Dirent, off: u32, src: seq<byte>, ghost start: nat, tot: nat, ghost f: seq<byte>,
                   ghost v0: Vol, ghost ch0: seq<nat>) returns (m: nat)
    requires Writing(fs, e, start, src, tot, f, v0, ch0) && off == start + tot && tot < |src|
    requires |v0.data| <= |v0.fat| && start + |src| <= Span(|ch0| + |FreeSet(v0)|, fs.g.bytsPerClus)
    modifies fs, e`curClus, e`clusCnt, e`chain
    ensures 0 < m <= |src| - tot && Writing(fs, e, start, src, tot + m, f, v0, ch0)
  {
    assert OpenWriting(Key);
    ghost var v1, ch1 := fs.vol, e.chain;
    assert |ch1| + |FreeSet(v1)| == |ch0| + |FreeSet(v0)|;
    m := WriteRound(fs, e, off, src[tot..], f, start, src[..tot]);
    GrownTrans(v0, ch0, v1, ch1, fs.vol, e.chain);
    TakeMore(src, tot, m);
  }

  lemma {:induction false} TakeMore<T>(s: seq<T>, i: nat, m: nat)
    requires i + m <= |s|
    ensures s[..i] + s[i..][..m] == s[..i + m]
  {
  }

  /** ewrite refuses an offset past the end, a range past 32 bits and a read-only file. */
  predicate WriteRefused(e: Dirent, off: u32, n: nat)
    reads e
  {
    off > e.fileSize || off + n >= U32_LIMIT || HasAttr(e.attribute, ATTR_READ_ONLY)
  }

  /** Clusters for the write: one at least for a file without any, and as many as the last byte needs. */
  ghost predicate RoomFor(v: Vol, B: nat, e: Dirent, end: nat)
    requires |v.data| <= |v.fat|
    reads e
  {
    && (e.firstClus == 0 ==> FreeSet(v) != {})
    && end <= Span(|e.chain| + |FreeSet(v)|, B)
  }

  /** ewrite, once its checks have passed. */
  method WriteFile(fs: FatVolume, e: Dirent, off: u32, src: seq<byte>)
    requires Ready(fs) && FileOk(fs.vol, fs.g.bytsPerClus, e)
    requires off <= e.fileSize && off + |src| < U32_LIMIT
    requires RoomFor(fs.vol, fs.g.bytsPerClus, e, off + |src|)
    modifies fs, e`firstClus, e`fileSize, e`curClus, e`clusCnt, e`dirty, e`chain
    ensures Ready(fs) && FileOk(fs.vol, fs.g.bytsPerClus, e)
    ensures Contents(fs.vol, fs.g.bytsPerClus, e) == WriteSpec(old(Contents(fs.vol, fs.g.bytsPerClus, e)), off, src)
    ensures 1 <= |e.chain|
    ensures |e.chain| == Max(1, |old(e.chain)|) || Span(|e.chain| - 1, fs.g.bytsPerClus) < off + |src|
    ensures Grown(old(fs.vol), old(e.chain), fs.vol, e.chain)
    ensures e.dirty == (old(e.dirty) || e.firstClus != old(e.firstClus) || e.fileSize != old(e.fileSize))
    ensures old(e.firstClus) != 0 ==> e.firstClus == old(e.firstClus)
  {
    ghost var v0, ch0 := fs.vol, e.chain;
    StartFile(fs, e);
    ghost var v1, ch1 := fs.vol, e.chain;
    FillFile(fs, e, off, src);
    GrownTrans(v0, ch0, v1, ch1, fs.vol, e.chain);
  }

  /** The loop of ewrite and what follows it, on a file that has a cluster. */
  method FillFile(fs: FatVolume, e: Dirent, off: u32, src: seq<byte>)
    requires Ready(fs) && CursorOk(fs.vol, e) && e.fileSize <= Span(|e.chain|, fs.g.bytsPerClus)
    requires off <= e.fileSize && off + |src| < U32_LIMIT
    requires off + |src| <= Span(|e.chain| + |FreeSet(fs.vol)|, fs.g.bytsPerClus)
    modifies fs, e`fileSize, e`curClus, e`clusCnt, e`dirty, e`chain
    ensures Ready(fs) && FileOk(fs.vol, fs.g.bytsPerClus, e)
    ensures Contents(fs.vol, fs.g.bytsPerClus, e) == WriteSpec(old(Contents(fs.vol, fs.g.bytsPerClus, e)), off, src)
    ensures |e.chain| == |old(e.chain)| || Span(|e.chain| - 1, fs.g.bytsPerClus) < off + |src|
    ensures Grown(old(fs.vol), old(e.chain), fs.vol, e.chain)
    ensures e.dirty == (old(e.dirty) || e.fileSize != old(e.fileSize))
  {
    ghost var v1, ch1 := fs.vol, e.chain;
    ChainBytes(v1, fs.g.bytsPerClus, e);
    var end := WriteLoop(fs, e, off, src);
    ChainBytes(fs.vol, fs.g.bytsPerClus, e);
    Resize(fs, e, off, src, end, Flat(v1.data, ch1));
  }

  /** ewrite's last step: the size follows the end of the write when that lies past it. */
  method Resize(fs: FatVolume, e: Dirent, off: u32, src: seq<byte>, end: u32, ghost f: seq<byte>)
    requires Ready(fs) && CursorOk(fs.vol, e) && end == off + |src|
    requires off <= e.fileSize <= |f| && Written(Flat(fs.vol.data, e.chain), f, off, src)
    requires |Flat(fs.vol.data, e.chain)| == Span(|e.chain|, fs.g.bytsPerClus)
    modifies e`fileSize, e`dirty
    ensures FileOk(fs.vol, fs.g.bytsPerClus, e)
    ensures Contents(fs.vol, fs.g.bytsPerClus, e) == WriteSpec(f[..old(e.fileSize)], off, src)
    ensures e.dirty == (old(e.dirty) || e.fileSize != old(e.fileSize))
  {
    WrittenDone(Flat(fs.vol.data, e.chain), f, e.fileSize, off, src);
    if |src| > 0 {
      if end > e.fileSize {
        e.fileSize := end;
        e.dirty := true;
      }
    }
  }

  /** ewrite */
  method Ewrite(fs: FatVolume, e: Dirent, off: u32, src: seq<byte>) returns (r: int)
    requires Ready(fs) && FileOk(fs.vol, fs.g.bytsPerClus, e) && |src| < U32_LIMIT
    requires !WriteRefused(e, off, |src|) ==> RoomFor(fs.vol, fs.g.bytsPerClus, e, off + |src|)
    modifies fs, e`firstClus, e`fileSize, e`curClus, e`clusCnt, e`dirty, e`chain
    ensures Ready(fs) && FileOk(fs.vol, fs.g.bytsPerClus, e)
    ensures r == if old(WriteRefused(e, off, |src|)) then -1 else |src|
    ensures r == -1 ==> fs.vol == old(fs.vol) && e.chain == old(e.chain) && e.fileSize == old(e.fileSize)
    ensures r != -1 ==>
              && Contents(fs.vol, fs.g.bytsPerClus, e) ==
                 WriteSpec(old(Contents(fs.vol, fs.g.bytsPerClus, e)), off, src)
              && 1 <= |e.chain|
              && (|e.chain| == Max(1, |old(e.chain)|) || Span(|e.chain| - 1, fs.g.bytsPerClus) < off + |src|)
    ensures Grown(old(fs.vol), old(e.chain), fs.vol, e.chain)
    ensures e.dirty == (old(e.dirty) || e.firstClus != old(e.firstClus) || e.fileSize != old(e.fileSize))
    ensures old(e.firstClus) != 0 ==> e.firstClus == old(e.firstClus)
  {
    WrapTest(off, |src|);
    if || off > e.fileSize || (off + |src|) % U32_LIMIT < off || off + |src| > 0xffff_ffff
       || HasAttr(e.attribute, ATTR_READ_ONLY) {
      GrownRefl(fs.vol, e.chain);
      return -1;
    }
    WriteFile(fs, e, off, src);
    r := |src|;
  }

  // ----- truncating -----

  /** etrunc */
  method Etrunc(fs: FatVolume, e: Dirent)
    requires Ready(fs) && FileOk(fs.vol, fs.g.bytsPerClus, e)
    modifies fs, e`firstClus, e`fileSize, e`dirty, e`chain
    ensures Ready(fs) && FileOk(fs.vol, fs.g.bytsPerClus, e)
    ensures e.firstClus == 0 && e.fileSize == 0 && e.dirty && e.chain == []
    ensures (forall i :: 0 <= i < |old(e.chain)| ==> old(e.chain)[i] < |old(fs.vol).fat|)
    ensures fs.vol == old(fs.vol).(fat := Freed(old(fs.vol).fat, old(e.chain)))
    ensures |FreeSet(fs.vol)| == |old(FreeSet(fs.vol))| + |old(e.chain)|
  {
    ghost var v0, first, ch := fs.vol, e.firstClus, e.chain;
    ghost var k := 0;
    if first != 0 {
      CursorFacts(v0, e);
    }
    var clus := e.firstClus;
    while clus >= 2 && clus < FAT32_EOC
      invariant k <= |ch| && fs.Valid()
      invariant fs.vol == v0.(fat := Freed(v0.fat, ch[..k]))
      invariant if k < |ch| then clus == ch[k] else (ch == [] && clus == 0) || clus >= FAT32_EOC
      decreases |ch| - k
    {
      NextFreed(v0, first, ch, k);
      var next := fs.ReadFat(clus);
      var _ := fs.WriteFat(clus, 0);
      k := k + 1;
      clus := next;
    }
    e.fileSize := 0;
    e.firstClus := 0;
    e.dirty := true;
    e.chain := [];
    assert ch[..k] == ch;
    if ch != [] {
      FreedSpace(v0, fs.g.bytsPerClus, ch[0], ch);
    } else {
      assert Freed(v0.fat, ch) == v0.fat;
    }
  }

  /** The link out of the k-th cluster survives the freeing of the clusters before it. */
  lemma {:induction false} NextFreed(v: Vol, first: nat, ch: seq<nat>, k: nat)
    requires Chain(v, first, ch) && |v.data| <= FAT32_BAD && k < |ch|
    ensures 2 <= ch[k] < |v.data| && Freed(v.fat, ch[..k])[ch[k]] == v.fat[ch[k]]
    ensures if k + 1 < |ch| then v.fat[ch[k]] == ch[k + 1] else FAT32_EOC <= v.fat[ch[k]]
    ensures Freed(v.fat, ch[..k])[ch[k] := 0] == Freed(v.fat, ch[..k + 1])
  {
    ChainAcyclic(v, first, ch);
    NextClus(v, first, ch, k);
    assert ch[..k + 1] == ch[..k] + [ch[k]];
  }
}
