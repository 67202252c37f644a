/** Directories: files whose bytes are 32-byte records, made by emake, scanned by enext, changed in
    place by eupdate and eremove. */
module FatDirectory {
  import opened Bytes
  import opened FatSectors
  import opened FatChains
  import opened FatFiles
  import opened FatRecords
  import opened FatScan

  // ----- a directory as a sequence of records -----

  ghost function Recs(flat: seq<byte>): (d: seq<Rec>) {
    if |flat| < 32 then [] else [flat[..32]] + Recs(flat[32..])
  }

  lemma {:induction false} RecAt(flat: seq<byte>, r: nat)
    ensures |Recs(flat)| == |flat| / 32
    ensures r < |flat| / 32 ==> 32 * r + 32 <= |flat| && Recs(flat)[r] == flat[32 * r..32 * r + 32]
  {
    if |flat| >= 32 {
      RecAt(flat[32..], if r > 0 then r - 1 else 0);
      assert 0 < r < |flat| / 32 ==> flat[32..][32 * (r - 1)..32 * (r - 1) + 32] == flat[32 * r..32 * r + 32];
    }
  }

  ghost predicate OpenDir(k: Key) {
    true
  }

  /** A directory, with dp.recs the records of its bytes. */
  ghost predicate DirOk(fs: FatVolume, dp: Dirent)
    reads fs, dp
  {
    && HasAttr(dp.attribute, ATTR_DIRECTORY) && 0 < fs.g.bytsPerClus && |fs.vol.data| <= |fs.vol.fat|
    && forall k: Key {:trigger OpenDir(k)} :: OpenDir(k) ==>
         Ready(fs) && CursorOk(fs.vol, dp) && dp.recs == Recs(Flat(fs.vol.data, dp.chain))
  }

  /** A copy of at most one record's bytes at a record's start changes that record only. */
  lemma {:induction false} RecsSplice(flat: seq<byte>, off: nat, x: seq<byte>)
    requires off % 32 == 0 && |x| <= 32 && |flat| % 32 == 0 && off < |flat|
    ensures off + |x| <= |flat| && off / 32 < |Recs(flat)|
    ensures Recs(Splice(flat, off, x)) == Recs(flat)[off / 32 := Splice(Recs(flat)[off / 32], 0, x)]
  {
    var r0 := off / 32;
    assert off == 32 * r0;
    var flat' := Splice(flat, off, x);
    RecAt(flat, r0);
    RecAt(flat', r0);
    var a, b := Recs(flat'), Recs(flat)[r0 := Splice(Recs(flat)[r0], 0, x)];
    forall r | 0 <= r < |a| ensures a[r] == b[r] {
      RecAt(flat, r);
      RecAt(flat', r);
      assert r != r0 ==> flat'[32 * r..32 * r + 32] == flat[32 * r..32 * r + 32];
      assert flat'[32 * r0..32 * r0 + 32] == Splice(flat[32 * r0..32 * r0 + 32], 0, x);
    }
  }

  /** d' is d, perhaps followed by cleared records. */
  ghost predicate Longer(d: seq<Rec>, d': seq<Rec>) {
    && |d| <= |d'|
    && (forall r :: 0 <= r < |d| ==> d'[r] == d[r])
    && (forall r :: |d| <= r < |d'| ==> d'[r] == Zeros(32))
  }

  lemma {:induction false} RecsLonger(flat: seq<byte>, flat': seq<byte>)
    requires |flat| % 32 == 0 && |flat'| % 32 == 0 && ZeroExtends(flat', flat)
    ensures Longer(Recs(flat), Recs(flat'))
  {
    var d, d' := Recs(flat), Recs(flat');
    assert forall i :: 0 <= i < |flat| ==> flat'[i] == flat'[..|flat|][i];
    RecAt(flat, 0);
    RecAt(flat', 0);
    forall r | 0 <= r < |d'| ensures r < |d| ==> d'[r] == d[r] ensures |d| <= r ==> d'[r] == Zeros(32) {
      RecAt(flat, r);
      RecAt(flat', r);
      assert r < |d| ==> flat'[32 * r..32 * r + 32] == flat[32 * r..32 * r + 32];
      assert |d| <= r ==> flat'[32 * r..32 * r + 32] == Zeros(32);
    }
  }

  lemma {:induction false} SpanOfRecords(n: nat, B: nat)
    requires B % 32 == 0
    ensures Span(n, B) % 32 == 0
  {
    if n > 0 {
      SpanOfRecords(n - 1, B);
    }
  }

  /** A record never straddles two clusters. */
  lemma {:induction false} RecordFits(off: nat, B: nat)
    requires 0 < B && B % 32 == 0 && off % 32 == 0
    ensures 0 <= off % B && off % B + 32 <= B
  {
    SpanDiv(off, B);
    SpanOfRecords(off / B, B);
  }

  /** Record-sized facts about a directory's bytes. */
  lemma {:induction false} DirShape(fs: FatVolume, dp: Dirent)
    requires DirOk(fs, dp)
    ensures Ready(fs) && CursorOk(fs.vol, dp)
    ensures fs.g.bytsPerClus % 32 == 0 && dp.recs == Recs(Flat(fs.vol.data, dp.chain))
    ensures |Flat(fs.vol.data, dp.chain)| == Span(|dp.chain|, fs.g.bytsPerClus)
    ensures |Flat(fs.vol.data, dp.chain)| % 32 == 0 && |dp.recs| == |Flat(fs.vol.data, dp.chain)| / 32
  {
    assert OpenDir(Key);
    RecAt(Flat(fs.vol.data, dp.chain), 0);
    fs.Shape();
    ChainBytes(fs.vol, fs.g.bytsPerClus, dp);
    SpanOfRecords(|dp.chain|, fs.g.bytsPerClus);
  }

  lemma {:induction false} RecordIndex(off: nat, k: nat)
    requires off == 32 * k
    ensures off % 32 == 0 && off / 32 == k
  {
  }

  /** Reads the record at off, as enext and eupdate do; false past the end of the chain. */
  method GetRecord(fs: FatVolume, dp: Dirent, off: u32) returns (ok: bool, de: Rec)
    requires DirOk(fs, dp) && off % 32 == 0
    modifies fs, dp`curClus, dp`clusCnt, dp`chain
    ensures DirOk(fs, dp) && fs.disk == old(fs.disk) && fs.vol == old(fs.vol) && dp.chain == old(dp.chain)
    ensures ok == (off / 32 < |dp.recs|) && (ok ==> de == dp.recs[off / 32])
    ensures dp.clusCnt == if ok then off / fs.g.bytsPerClus else 0
  {
    DirShape(fs, dp);
    RecordFits(off, fs.g.bytsPerClus);
    SpanBelow(off, |dp.chain|, fs.g.bytsPerClus);
    var off2 := RelocClus(fs, dp, off, false);
    de := Zeros(32);
    ok := off2 != -1;
    if ok {
      de := ReadHere(fs, dp, off, off2);
    }
  }

  /** Reads the record at off, with the cursor already there. */
  method ReadHere(fs: FatVolume, dp: Dirent, off: u32, off2: nat) returns (de: Rec)
    requires DirOk(fs, dp) && off % 32 == 0 && off / 32 < |dp.recs|
    requires dp.clusCnt == off / fs.g.bytsPerClus && off2 == off % fs.g.bytsPerClus
    ensures de == dp.recs[off / 32]
  {
    DirShape(fs, dp);
    RecordFits(off, fs.g.bytsPerClus);
    SpanBelow(off, |dp.chain|, fs.g.bytsPerClus);
    CursorFacts(fs.vol, dp);
    Located(fs.vol, fs.g.bytsPerClus, dp.firstClus, dp.chain, off, 32);
    de := fs.ReadClus(dp.curClus, off2, 32);
    RecAt(Flat(fs.vol.data, dp.chain), off / 32);
    assert off == 32 * (off / 32);
  }

  /** Writes the bytes x at the start of the record at off, with the cursor already there. */
  method PutHere(fs: FatVolume, dp: Dirent, off: u32, x: seq<byte>)
    requires DirOk(fs, dp) && off % 32 == 0 && |x| <= 32
    requires dp.clusCnt == off / fs.g.bytsPerClus
    modifies fs, dp`recs
    ensures DirOk(fs, dp) && Grown(old(fs.vol), dp.chain, fs.vol, dp.chain)
    ensures off / 32 < |old(dp.recs)|
    ensures dp.recs == old(dp.recs)[off / 32 := Splice(old(dp.recs)[off / 32], 0, x)]
  {
    DirShape(fs, dp);
    RecordFits(off, fs.g.bytsPerClus);
    SpanBelow(off, |dp.chain|, fs.g.bytsPerClus);
    RecsSplice(Flat(fs.vol.data, dp.chain), off, x);
    PutRound(fs, dp, off, x);
    dp.recs := Recs(Flat(fs.vol.data, dp.chain));
  }

  /** d' is d, grown by cleared records if need be, with de at record r. */
  ghost predicate Put(d: seq<Rec>, r: nat, de: Rec, d': seq<Rec>) {
    && |d| <= |d'| && r < |d'| && d'[r] == de
    && (forall q :: 0 <= q < |d| && q != r ==> d'[q] == d[q])
    && (forall q :: |d| <= q < |d'| && q != r ==> d'[q] == Zeros(32))
  }

  /** Brings the cursor to the record at off, growing the directory by cleared clusters up to it. */
  method SeekRecord(fs: FatVolume, dp: Dirent, off: u32)
    requires DirOk(fs, dp) && off % 32 == 0
    requires off < Span(|dp.chain| + |FreeSet(fs.vol)|, fs.g.bytsPerClus)
    modifies fs, dp`curClus, dp`clusCnt, dp`chain, dp`recs
    ensures DirOk(fs, dp) && Grown(old(fs.vol), old(dp.chain), fs.vol, dp.chain)
    ensures dp.clusCnt == off / fs.g.bytsPerClus && |dp.chain| == Max(|old(dp.chain)|, off / fs.g.bytsPerClus + 1)
    ensures Longer(old(dp.recs), dp.recs)
  {
    DirShape(fs, dp);
    ghost var f0 := Flat(fs.vol.data, dp.chain);
    SpanBelow(off, |dp.chain| + |FreeSet(fs.vol)|, fs.g.bytsPerClus);
    var _ := RelocClus(fs, dp, off, true);
    dp.recs := Recs(Flat(fs.vol.data, dp.chain));
    DirShape(fs, dp);
    RecsLonger(f0, Flat(fs.vol.data, dp.chain));
  }

  /** reloc_clus with growth and rw_clus, as emake writes each record. */
  method PutRecord(fs: FatVolume, dp: Dirent, off: u32, de: Rec)
    requires DirOk(fs, dp) && off % 32 == 0
    requires off < Span(|dp.chain| + |FreeSet(fs.vol)|, fs.g.bytsPerClus)
    modifies fs, dp`curClus, dp`clusCnt, dp`chain, dp`recs
    ensures DirOk(fs, dp) && Grown(old(fs.vol), old(dp.chain), fs.vol, dp.chain)
    ensures |dp.chain| == Max(|old(dp.chain)|, off / fs.g.bytsPerClus + 1)
    ensures Put(old(dp.recs), off / 32, de, dp.recs)
  {
    ghost var v0, ch0 := fs.vol, dp.chain;
    SeekRecord(fs, dp, off);
    ghost var v1 := fs.vol;
    PutHere(fs, dp, off, de);
    GrownTrans(v0, ch0, v1, dp.chain, fs.vol, dp.chain);
  }

  // ----- emake -----

  /** d' is d, grown by cleared records if need be, with the records x from r on. */
  ghost predicate Placed(d: seq<Rec>, r: nat, x: seq<Rec>, d': seq<Rec>) {
    && |d| <= |d'| && (forall i :: 0 <= i < |x| ==> r + i < |d'| && d'[r + i] == x[i])
    && (forall q :: 0 <= q < |d| && !(r <= q < r + |x|) ==> d'[q] == d[q])
    && (forall q :: |d| <= q < |d'| && !(r <= q < r + |x|) ==> d'[q] == Zeros(32))
  }

  lemma {:induction false} PlacedPut(d: seq<Rec>, r: nat, x: seq<Rec>, d1: seq<Rec>, de: Rec, d2: seq<Rec>)
    requires Placed(d, r, x, d1) && Put(d1, r + |x|, de, d2)
    ensures Placed(d, r, x + [de], d2)
  {
    forall i | 0 <= i < |x| + 1 ensures r + i < |d2| && d2[r + i] == (x + [de])[i] {
      assert i < |x| ==> (x + [de])[i] == x[i] && r + i < |d1|;
    }
  }

  /** Clusters of a directory that has n, once a record has been written at off. */
  ghost function Reached(n: nat, B: nat, off: nat): nat
    requires 0 < B
  {
    SpanDiv(off, B);
    Max(n, off / B + 1)
  }

  lemma {:induction false} ReachedOn(n: nat, B: nat, a: nat, b: nat)
    requires 0 < B && a <= b
    ensures Reached(Reached(n, B, a), B, b) == Reached(n, B, b)
  {
    SpanDiv(a, B);
    SpanBelow(b, b / B + 1, B);
    SpanBelow(a, b / B + 1, B);
  }

  /** One record of emake, behind the records x that it has written from r on. */
  method EmakeOne(fs: FatVolume, dp: Dirent, off: u32, de: Rec, ghost d0: seq<Rec>, ghost r: nat, ghost x: seq<Rec>)
    requires DirOk(fs, dp) && off == 32 * (r + |x|) && Placed(d0, r, x, dp.recs)
    requires off < Span(|dp.chain| + |FreeSet(fs.vol)|, fs.g.bytsPerClus)
    modifies fs, dp`curClus, dp`clusCnt, dp`chain, dp`recs
    ensures DirOk(fs, dp) && Grown(old(fs.vol), old(dp.chain), fs.vol, dp.chain)
    ensures |dp.chain| == Reached(|old(dp.chain)|, fs.g.bytsPerClus, off)
    ensures Placed(d0, r, x + [de], dp.recs)
  {
    ghost var d1 := dp.recs;
    RecordIndex(off, r + |x|);
    PutRecord(fs, dp, off, de);
    PlacedPut(d0, r, x, d1, de, dp.recs);
  }

  /** The record that emake fills before it writes long records: only the characters and the order change. */
  ghost predicate Blank(de: Rec, chk: byte) {
    de[11] == ATTR_LONG_NAME && de[13] == chk && de[12] == de[26] == de[27] == 0
  }

  /** Clusters of the directory behind k records from start on. */
  ghost function ReachedBy(n: nat, B: nat, start: nat, k: nat): nat
    requires 0 < B
  {
    if k == 0 then n else Reached(n, B, start + 32 * (k - 1))
  }

  /** One record of emake. */
  method EmakeRec(fs: FatVolume, dp: Dirent, off: u32, de: Rec, ghost d0: seq<Rec>, ghost r: nat, ghost x: seq<Rec>,
                   ghost n0: nat)
    requires DirOk(fs, dp) && off == 32 * (r + |x|) && Placed(d0, r, x, dp.recs)
    requires off < Span(|dp.chain| + |FreeSet(fs.vol)|, fs.g.bytsPerClus)
    requires |dp.chain| == ReachedBy(n0, fs.g.bytsPerClus, 32 * r, |x|)
    modifies fs, dp`curClus, dp`clusCnt, dp`chain, dp`recs
    ensures DirOk(fs, dp) && Grown(old(fs.vol), old(dp.chain), fs.vol, dp.chain)
    ensures |dp.chain| == ReachedBy(n0, fs.g.bytsPerClus, 32 * r, |x| + 1)
    ensures Placed(d0, r, x + [de], dp.recs)
  {
    EmakeOne(fs, dp, off, de, d0, r, x);
    if |x| > 0 {
      ReachedOn(n0, fs.g.bytsPerClus, 32 * r + 32 * (|x| - 1), off);
    }
  }

  /** The first k records of a file. */
  ghost function FirstRecs(e: Entry, k: nat): (x: seq<Rec>)
    requires |e.name| <= 247 && k <= e.Longs() + 1
    ensures |x| == k
  {
    FileRecs(e)[..k]
  }

  lemma {:induction false} FirstRecsMore(e: Entry, k: nat)
    requires |e.name| <= 247 && k < e.Longs() + 1
    ensures FirstRecs(e, 0) == [] && FirstRecs(e, e.Longs() + 1) == FileRecs(e)
    ensures FirstRecs(e, k + 1) == FirstRecs(e, k) + [FileRec(e, k)]
  {
    FileRecIs(e, k);
    assert FileRecs(e)[..k + 1] == FileRecs(e)[..k] + [FileRecs(e)[k]];
  }

  /** The checksum that the long records of e carry. */
  ghost predicate Sums(e: Entry, chk: byte) {
    forall k: Key {:trigger OpenSums(k)} :: OpenSums(k) ==> chk == Checksum(ShortName(e.name))
  }

  ghost predicate OpenSums(k: Key) {
    true
  }

  /** The next long record of emake, behind those of the later parts of the name. */
  method NextLong(filename: seq<byte>, from: Rec, i: nat, n: nat, ghost e: Entry, ghost chk: byte, ghost x: seq<Rec>)
      returns (de: Rec)
    requires e.Good() && NameIs(filename, e.name) && 1 <= i <= n == e.Longs() && x == FirstRecs(e, n - i)
    requires Sums(e, chk) && Blank(from, chk)
    ensures x + [de] == FirstRecs(e, n - i + 1) && Blank(de, chk)
  {
    LongsBounds(e);
    SumOf(e, chk);
    de := FillLong(from, filename, e.name, i, n);
    NextFirst(e, n - i, chk, de);
  }

  lemma {:induction false} SumOf(e: Entry, chk: byte)
    requires Sums(e, chk)
    ensures chk == Checksum(ShortName(e.name))
  {
    assert OpenSums(Key);
  }

  /** The long records, one after the other. */
  lemma {:induction false} NextFirst(e: Entry, k: nat, chk: byte, de: Rec)
    requires |e.name| <= 247 && k < e.Longs() <= 19 && chk == Checksum(ShortName(e.name))
    requires de == LongOf(e.name, e.Longs() - k, e.Longs(), chk)
    ensures FirstRecs(e, k) + [de] == FirstRecs(e, k + 1) && Blank(de, chk)
  {
    LongBlank(e.name, e.Longs() - k, e.Longs(), chk);
    FirstRecsMore(e, k);
    LongFileRec(e, k);
  }

  /** The directory after the first k records of e have been written from r on. */
  ghost predicate Making(dp: Dirent, B: nat, d0: seq<Rec>, n0: nat, r: nat, e: Entry, k: nat)
    reads dp
  {
    && 0 < B && |e.name| <= 247 && k <= e.Longs() + 1
    && forall key: Key {:trigger OpenMaking(key)} :: OpenMaking(key) ==>
         |dp.chain| == ReachedBy(n0, B, 32 * r, k) && Placed(d0, r, FirstRecs(e, k), dp.recs)
  }

  ghost predicate OpenMaking(k: Key) {
    true
  }

  lemma {:induction false} MakingStart(dp: Dirent, B: nat, r: nat, e: Entry)
    requires 0 < B && |e.name| <= 247
    ensures Making(dp, B, dp.recs, |dp.chain|, r, e, 0)
  {
    FirstRecsMore(e, 0);
  }

  /** One round of emake's outer loop. */
  method EmakeRound(fs: FatVolume, dp: Dirent, ep: Dirent, off: u32, from: Rec, i: nat, n: nat, ghost e: Entry,
                    ghost chk: byte, ghost d0: seq<Rec>, ghost n0: nat, ghost r: nat)
    returns (de: Rec)
    requires DirOk(fs, dp) && e.Good() && NameIs(ep.filename, e.name) && 1 <= i <= n == e.Longs()
    requires Sums(e, chk) && Blank(from, chk) && off == 32 * (r + (n - i))
    requires off < Span(|dp.chain| + |FreeSet(fs.vol)|, fs.g.bytsPerClus)
    requires Making(dp, fs.g.bytsPerClus, d0, n0, r, e, n - i)
    modifies fs, dp`curClus, dp`clusCnt, dp`chain, dp`recs
    ensures DirOk(fs, dp) && Grown(old(fs.vol), old(dp.chain), fs.vol, dp.chain)
    ensures Making(dp, fs.g.bytsPerClus, d0, n0, r, e, n - i + 1) && Blank(de, chk)
  {
    assert OpenMaking(Key);
    ghost var x := FirstRecs(e, n - i);
    de := NextLong(ep.filename, from, i, n, e, chk, x);
    EmakeRec(fs, dp, off, de, d0, r, x, n0);
  }

  /** The long records of emake, in the order they are written: the last part of the name first. */
  method EmakeLongs(fs: FatVolume, dp: Dirent, ep: Dirent, start: u32, chk: byte, ghost r: nat, ghost e: Entry)
      returns (off: u32)
    requires DirOk(fs, dp) && start == 32 * r && e.Good() && NameIs(ep.filename, e.name)
    requires Sums(e, chk) && start + 32 * e.Longs() < U32_LIMIT
    requires start + 32 * e.Longs() <= Span(|dp.chain| + |FreeSet(fs.vol)|, fs.g.bytsPerClus)
    modifies fs, dp`curClus, dp`clusCnt, dp`chain, dp`recs
    ensures DirOk(fs, dp) && Grown(old(fs.vol), old(dp.chain), fs.vol, dp.chain)
    ensures off == start + 32 * e.Longs()
    ensures Making(dp, fs.g.bytsPerClus, old(dp.recs), |old(dp.chain)|, r, e, e.Longs())
  {
    NameLength(ep.filename, e.name);
    LongsBounds(e);
    MakingStart(dp, fs.g.bytsPerClus, r, e);
    ghost var v0, ch0, d0 := fs.vol, dp.chain, dp.recs;
    GrownRefl(v0, ch0);
    var entcnt := (StrLen(ep.filename) + CHAR_LONG_NAME - 1) / CHAR_LONG_NAME;
    var de: Rec := Zeros(32);
    de := de[13 := chk];
    de := de[11 := ATTR_LONG_NAME];
    off := start;
    var i := entcnt;
    while i > 0
      invariant 0 <= i <= entcnt && off == start + 32 * (entcnt - i) && Blank(de, chk)
      invariant DirOk(fs, dp) && Grown(v0, ch0, fs.vol, dp.chain)
      invariant Making(dp, fs.g.bytsPerClus, d0, |ch0|, r, e, entcnt - i)
    {
      ghost var v1, ch1 := fs.vol, dp.chain;
      de := EmakeRound(fs, dp, ep, off, de, i, entcnt, e, chk, d0, |ch0|, r);
      GrownTrans(v0, ch0, v1, ch1, fs.vol, dp.chain);
      off := off + 32;
      i := i - 1;
    }
  }

  /** What emake writes for an entry: the entry as its in-memory copy has it. */
  ghost function EntryOf(ep: Dirent, name: seq<byte>): Entry
    reads ep
  {
    Entry(name, ep.attribute, ep.firstClus, ep.fileSize)
  }

  lemma {:induction false} LongsBounds(e: Entry)
    requires e.Good()
    ensures 1 <= e.Longs() <= 19 && 13 * (e.Longs() - 1) < |e.name| <= 13 * e.Longs()
  {
  }

  /** emake past the first two slots: the long records and the short one. */
  method EmakeNamed(fs: FatVolume, dp: Dirent, ep: Dirent, start: u32, ghost r: nat, ghost e: Entry)
    requires DirOk(fs, dp) && start == 32 * r
    requires NameIs(ep.filename, e.name) && e == EntryOf(ep, e.name) && e.Good()
    requires start + 32 * (e.Longs() + 1) < U32_LIMIT
    requires start + 32 * (e.Longs() + 1) <= Span(|dp.chain| + |FreeSet(fs.vol)|, fs.g.bytsPerClus)
    modifies fs, dp`curClus, dp`clusCnt, dp`chain, dp`recs
    ensures DirOk(fs, dp) && Grown(old(fs.vol), old(dp.chain), fs.vol, dp.chain)
    ensures |dp.chain| == ReachedBy(|old(dp.chain)|, fs.g.bytsPerClus, 32 * r, e.Longs() + 1)
    ensures Placed(old(dp.recs), r, FileRecs(e), dp.recs)
  {
    ghost var v0, ch0, d0 := fs.vol, dp.chain, dp.recs;
    var short, chk := ShortAndSum(ep.filename, e);
    var off := EmakeLongs(fs, dp, ep, start, chk, r, e);
    ghost var v1, ch1 := fs.vol, dp.chain;
    EmakeShort(fs, dp, ep, off, short, e, d0, |ch0|, r);
    GrownTrans(v0, ch0, v1, ch1, fs.vol, dp.chain);
  }

  /** This is the short name of e. */
  ghost predicate ShortOfName(e: Entry, short: seq<byte>) {
    |short| == 11 && forall k: Key {:trigger OpenSums(k)} :: OpenSums(k) ==> short == ShortName(e.name)
  }

  /** The short name and its checksum. */
  method ShortAndSum(filename: seq<byte>, ghost e: Entry) returns (short: seq<byte>, chk: byte)
    requires NameIs(filename, e.name)
    ensures ShortOfName(e, short) && Sums(e, chk)
  {
    short := GenerateShortname(filename, e.name);
    chk := CalChecksum(short);
  }

  /** The short record of emake. */
  method EmakeShort(fs: FatVolume, dp: Dirent, ep: Dirent, off: u32, short: seq<byte>, ghost e: Entry,
                    ghost d0: seq<Rec>, ghost n0: nat, ghost r: nat)
    requires DirOk(fs, dp) && e == EntryOf(ep, e.name) && e.Good() && ShortOfName(e, short)
    requires off == 32 * (r + e.Longs()) && Making(dp, fs.g.bytsPerClus, d0, n0, r, e, e.Longs())
    requires off < Span(|dp.chain| + |FreeSet(fs.vol)|, fs.g.bytsPerClus)
    modifies fs, dp`curClus, dp`clusCnt, dp`chain, dp`recs
    ensures DirOk(fs, dp) && Grown(old(fs.vol), old(dp.chain), fs.vol, dp.chain)
    ensures |dp.chain| == ReachedBy(n0, fs.g.bytsPerClus, 32 * r, e.Longs() + 1)
    ensures Placed(d0, r, FileRecs(e), dp.recs)
  {
    assert OpenMaking(Key);
    ghost var x := FirstRecs(e, e.Longs());
    var de := FillShort(ep, short, e, x);
    EmakeRec(fs, dp, off, de, d0, r, x, n0);
  }

  method FillShort(ep: Dirent, short: seq<byte>, ghost e: Entry, ghost x: seq<Rec>) returns (de: Rec)
    requires e == EntryOf(ep, e.name) && |e.name| <= 247 && ShortOfName(e, short) && x == FirstRecs(e, e.Longs())
    ensures x + [de] == FileRecs(e)
  {
    assert OpenSums(Key);
    FirstRecsMore(e, e.Longs());
    de := Splice(Zeros(32), 0, short);
    de := PutInfo(de[11 := ep.attribute], ep.firstClus, ep.fileSize);
  }

  /** A directory has its first two records. */
  lemma {:induction false} FirstRecords(fs: FatVolume, dp: Dirent)
    requires DirOk(fs, dp)
    ensures 64 <= fs.g.bytsPerClus && 64 <= Span(|dp.chain| + |FreeSet(fs.vol)|, fs.g.bytsPerClus)
  {
    DirShape(fs, dp);
    CursorFacts(fs.vol, dp);
    fs.Shape();
    FirstCluster(|dp.chain| + |FreeSet(fs.vol)|, fs.g.bytsPerClus);
  }

  lemma {:induction false} FirstCluster(n: nat, B: nat)
    requires 1 <= n
    ensures B <= Span(n, B)
  {
    SpanMonotone(1, n, B);
    assert Span(1, B) == Span(0, B) + B;
  }

  /** What emake writes at record r for e: a dot record at the first two, further on its own records. */
  ghost function MadeAt(r: nat, e: Entry): (x: seq<Rec>)
    requires r < 2 || |e.name| <= 247
    ensures |x| == if r < 2 then 1 else e.Longs() + 1
  {
    if r < 2 then [DotRec(r == 1, e.firstClus)] else FileRecs(e)
  }

  /** emake: at offset 0 and 32 the "." and ".." records whatever ep's name is, further on ep's own. */
  method Emake(fs: FatVolume, dp: Dirent, ep: Dirent, off: u32, ghost r: nat, ghost e: Entry)
    requires DirOk(fs, dp) && off == 32 * r && e == EntryOf(ep, e.name)
    requires 2 <= r ==> NameIs(ep.filename, e.name) && e.Good()
    requires 2 <= r ==> 32 * (r + e.Longs() + 1) < U32_LIMIT
    requires 2 <= r ==> 32 * (r + e.Longs() + 1) <= Span(|dp.chain| + |FreeSet(fs.vol)|, fs.g.bytsPerClus)
    modifies fs, dp`curClus, dp`clusCnt, dp`chain, dp`recs
    ensures DirOk(fs, dp) && Grown(old(fs.vol), old(dp.chain), fs.vol, dp.chain)
    ensures |dp.chain| == ReachedBy(|old(dp.chain)|, fs.g.bytsPerClus, 32 * r, |MadeAt(r, e)|)
    ensures Placed(old(dp.recs), r, MadeAt(r, e), dp.recs)
  {
    if off <= 32 {
      EmakeDot(fs, dp, ep, off, r, e);
    } else {
      EmakeNamed(fs, dp, ep, off, r, e);
    }
  }

  /** The dot records of emake. */
  method EmakeDot(fs: FatVolume, dp: Dirent, ep: Dirent, off: u32, ghost r: nat, ghost e: Entry)
    requires DirOk(fs, dp) && off == 32 * r <= 32 && e == EntryOf(ep, e.name)
    modifies fs, dp`curClus, dp`clusCnt, dp`chain, dp`recs
    ensures DirOk(fs, dp) && Grown(old(fs.vol), old(dp.chain), fs.vol, dp.chain)
    ensures |dp.chain| == Reached(|old(dp.chain)|, fs.g.bytsPerClus, 32 * r)
    ensures Placed(old(dp.recs), r, [DotRec(r == 1, e.firstClus)], dp.recs)
  {
    var de: Rec := Splice(Zeros(32), 0, DotPadded(off != 0));
    de := PutInfo(de[11 := ATTR_DIRECTORY], ep.firstClus, 0);
    FirstRecords(fs, dp);
    EmakeOne(fs, dp, off, de, dp.recs, r, []);
    assert [] + [de] == [DotRec(r == 1, e.firstClus)];
  }

  // ----- enext -----

  /** What enext has put into ep for an entry. */
  ghost predicate Parsed(ep: Dirent, e: Entry)
    reads ep
  {
    && NameIs(ep.filename, e.name) && ep.attribute == e.attribute
    && ep.firstClus == e.firstClus && ep.fileSize == e.fileSize
    && ep.curClus == e.firstClus && ep.clusCnt == 0
  }

  /** read_entry_info */
  method ReadEntryInfo(ep: Dirent, r: Rec)
    modifies ep`attribute, ep`firstClus, ep`fileSize, ep`curClus, ep`clusCnt
    ensures ep.attribute == r[11] && ep.firstClus == ClusOf(r) && ep.fileSize == GetU32(r, 28)
    ensures ep.curClus == ep.firstClus && ep.clusCnt == 0
  {
    ep.attribute := r[11];
    ep.firstClus := U16(r, 20) * 0x1_0000 + U16(r, 26);
    ep.fileSize := GetU32(r, 28);
    ep.curClus := ep.firstClus;
    ep.clusCnt := 0;
  }

  /** After m of k long records have been read: the name buffer is clear up to the parts that are in
      place, and count was stored with the first of them. */
  ghost predicate Collected(buf: seq<byte>, name: seq<byte>, k: nat, m: nat, counted: bool, count: int) {
    && m <= k <= 19 && |name| <= 13 * k && 0 !in name && |buf| == NAME_BUFFER
    && counted == (m > 0) && (counted ==> count == k + 1)
    && Clear(buf, 0, 13 * (k - m)) && Holds(buf, name, 13 * (k - m), NAME_BUFFER)
  }

  /** The name is complete once the last long record has been read. */
  lemma {:induction false} NameComplete(buf: seq<byte>, name: seq<byte>, k: nat, counted: bool, count: int)
    requires Collected(buf, name, k, k, counted, count)
    ensures NameIs(buf, name)
  {
    forall i | 0 <= i <= |name| ensures buf[i] == CharLo(name, i) {
    }
    assert forall i :: 0 <= i < |name| ==> name[i] in name;
  }

  /** enext's treatment of a long record; named says that this is a file with all its long records. */
  method TakeLong(ep: Dirent, de: Rec, counted: bool, count: int, ghost name: seq<byte>, ghost k: nat, ghost m: nat,
                  ghost named: bool)
      returns (counted': bool, count': int)
    requires m < k <= 19 && Ord(de) == k - m && |ep.filename| == NAME_BUFFER
    requires named ==> Shows(de, name, 13 * (k - m - 1)) && (Last(de) <==> m == 0)
    requires named ==> Collected(ep.filename, name, k, m, counted, count)
    requires !named ==> !Last(de) && !counted
    modifies ep`filename
    ensures |ep.filename| == NAME_BUFFER
    ensures named ==> Collected(ep.filename, name, k, m + 1, counted', count')
    ensures !named ==> !counted'
  {
    counted', count' := counted, count;
    var lcnt := ClearLast(de[0]);
    if de[0] / 0x40 % 2 == 1 {
      count' := lcnt + 1;
      counted' := true;
    }
    ep.filename := ReadLongName(ep.filename, (lcnt - 1) * CHAR_LONG_NAME, de, name, named);
  }

  /** enext's treatment of a short record, which ends an entry. */
  method TakeShort(ep: Dirent, de: Rec, counted: bool, count: int, ghost name: seq<byte>) returns (count': int)
    requires |ep.filename| == NAME_BUFFER
    requires if counted then NameIs(ep.filename, name) else name == CStr(ShortText(de))
    modifies ep`filename, ep`attribute, ep`firstClus, ep`fileSize, ep`curClus, ep`clusCnt
    ensures Parsed(ep, Entry(name, de[11], ClusOf(de), GetU32(de, 28)))
    ensures count' == if counted then count else 1
  {
    count' := count;
    if !counted {
      count' := 1;
      ShortTextIs(ep.filename, de);
      ep.filename := ReadShortName(ep.filename, de);
    }
    ReadEntryInfo(ep, de);
  }

  /** Empty slots in a row from record r on. */
  ghost function GapFrom(t: seq<Rec>, r: nat): (n: nat)
    ensures r <= |t| ==> r + n <= |t|
    ensures forall q :: r <= q < r + n ==> q < |t| && !Live(t[q])
    ensures r + n < |t| ==> Live(t[r + n])
    decreases |t| - r
  {
    if r < |t| && !Live(t[r]) then 1 + GapFrom(t, r + 1) else 0
  }

  lemma {:induction false} GapIs(t: seq<Rec>, r: nat, n: nat)
    requires r + n < |t| && Live(t[r + n]) && forall q :: r <= q < r + n ==> !Live(t[q])
    ensures GapFrom(t, r) == n
  {
    var g := GapFrom(t, r);
  }

  /** The state of enext's loop after m records from r on, where it starts at x. */
  ghost predicate Midway(t: seq<Rec>, r: nat, x: Head, m: nat, buf: seq<byte>, cnt: nat, counted: bool, count: int) {
    && |buf| == NAME_BUFFER
    && match x
       case Item(e, more, end) =>
         && cnt == 0 && r + m <= end
         && if more > 0 then Collected(buf, e.name, more, m, counted, count) else !counted
       case Gap =>
         && cnt == m && !counted && Clear(buf, 0, NAME_BUFFER)
         && forall q :: r <= q < r + m && q < |t| ==> !Live(t[q])
  }

  /** What enext returns from record r on, where it starts at x. */
  ghost predicate Answer(t: seq<Rec>, r: nat, x: Head, ep: Dirent, ret: int, count: int)
    reads ep
  {
    match x
    case Item(e, more, _) => ret == 1 && count == more + 1 && Parsed(ep, e)
    case Gap =>
      if r >= |t| then ret == -1
      else ret == 0 && count == GapFrom(t, r) && NameIs(ep.filename, [])
  }

  /** Record r + m of the entry x at r: a long record with its part of the name, or the short one. */
  ghost predicate Met(x: Head, r: nat, m: nat, de: Rec)
    requires x.Item? && r + m <= x.end
  {
    && Live(de) && x.end <= r + 19 && (IsLong(de) <==> r + m < x.end)
    && if IsLong(de) then
         && Ord(de) == x.end - (r + m) && (Last(de) <==> m == 0 && 0 < x.more)
         && (0 < x.more ==> x.end == r + x.more && Shows(de, x.e.name, 13 * (x.more - m - 1)))
       else
         && x.e.attribute == de[11] && x.e.firstClus == ClusOf(de) && x.e.fileSize == GetU32(de, 28)
         && if 0 < x.more then x.end == r + x.more else x.e.name == CStr(ShortText(de))
  }

  lemma {:induction false} MetAt(t: seq<Rec>, r: nat, x: Head, m: nat)
    requires Sound(t) && x == HeadOf(t, r) && x.Item? && r + m <= x.end
    ensures r + m < |t| && Met(x, r, m, t[r + m])
  {
    HeadOfIs(t, r);
    Inside(t, r);
    if IsLong(t[r]) && r + m < x.end {
      MetLong(t, r, x, m);
    } else {
      MetShort(t, r, x, m);
    }
  }

  lemma {:induction false} MetLong(t: seq<Rec>, r: nat, x: Head, m: nat)
    requires Sound(t) && r < |t| && x == HeadAt(t, r) && IsLong(t[r]) && r + m < x.end
    ensures r + m < |t| && Met(x, r, m, t[r + m])
  {
    RunOf(t, r);
    ShowsText(t, r, Ord(t[r]), m);
  }

  lemma {:induction false} MetShort(t: seq<Rec>, r: nat, x: Head, m: nat)
    requires Sound(t) && r < |t| && x == HeadAt(t, r) && Live(t[r]) && r + m == x.end == ShortPos(t, r)
    ensures r + m < |t| && Met(x, r, m, t[r + m])
  {
    if IsLong(t[r]) {
      RunOf(t, r);
    }
  }

  /** Before any record has been read. */
  lemma {:induction false} MidwayStart(t: seq<Rec>, r: nat, x: Head, buf: seq<byte>, count: int)
    requires Sound(t) && buf == Zeros(NAME_BUFFER) && x == HeadOf(t, r)
    ensures Midway(t, r, x, 0, buf, 0, false, count)
    ensures x.Gap? && r < |t| ==> !Live(t[r])
  {
    HeadOfIs(t, r);
    if r < |t| && IsLong(t[r]) {
      RunOf(t, r);
    }
  }

  /** Where a gap starts: a scan that meets a mark of the end, or no record, has no entry left. */
  lemma {:induction false} EndMet(t: seq<Rec>, r: nat, m: nat, de: Rec)
    requires Scannable(t)
    requires r + m < |t| ==> de == t[r + m] && de[0] == END_OF_ENTRY
    requires forall q :: r <= q < r + m && q < |t| ==> !Live(t[q])
    ensures |t| <= r
  {
    if r + m < |t| {
      NotEnd(t, r + m);
    }
  }

  lemma {:induction false} NotEnd(t: seq<Rec>, q: nat)
    requires Sound(t) && q < |t|
    ensures t[q][0] != END_OF_ENTRY
  {
    assert SoundAt(t, q);
  }

  /** The body of enext's loop once record r + m is in de: the answer, or one record further. */
  method EnextRound(ep: Dirent, de: Rec, cnt: nat, counted: bool, count: int, ghost t: seq<Rec>, ghost r: nat,
                    ghost x: Head, ghost m: nat)
    returns (done: bool, ret: int, cnt': nat, counted': bool, count': int)
    requires Scannable(t) && Midway(t, r, x, m, ep.filename, cnt, counted, count)
    requires x.Item? ==> Met(x, r, m, de)
    requires x.Gap? ==> if r + m < |t| then de == t[r + m] && (m == 0 ==> !Live(de)) else !Live(de)
    modifies ep`filename, ep`attribute, ep`firstClus, ep`fileSize, ep`curClus, ep`clusCnt
    ensures done ==> Answer(t, r, x, ep, ret, count')
    ensures !done ==> Midway(t, r, x, m + 1, ep.filename, cnt', counted', count')
  {
    done, ret, cnt', counted', count' := true, -1, cnt, counted, count;
    if de[0] == END_OF_ENTRY {
      EndMet(t, r, m, de);
      return;
    }
    if de[0] == EMPTY_ENTRY {
      cnt' := cnt + 1;
      done := false;
      return;
    } else if cnt != 0 {
      GapIs(t, r, m);
      count' := cnt;
      ret := 0;
      return;
    }
    if de[11] == ATTR_LONG_NAME {
      counted', count' := TakeLong(ep, de, counted, count, x.e.name, x.end - r, m, 0 < x.more);
      done := false;
    } else {
      if counted {
        NameComplete(ep.filename, x.e.name, x.more, counted, count);
      }
      count' := TakeShort(ep, de, counted, count, x.e.name);
      ret := 1;
    }
  }

  /** enext: from any record, the next entry, the next run of empty slots, or the end. */
  method Enext(fs: FatVolume, dp: Dirent, ep: Dirent, start: u32, ghost t: seq<Rec>) returns (ret: int, count: int)
    requires DirOk(fs, dp) && ep != dp && ep.valid == 0 && start % 32 == 0
    requires t == LiveOf(dp.recs) && Sound(t) && 32 * |dp.recs| < U32_LIMIT
    modifies fs, dp`curClus, dp`clusCnt, dp`chain
    modifies ep`filename, ep`attribute, ep`firstClus, ep`fileSize, ep`curClus, ep`clusCnt
    ensures DirOk(fs, dp) && fs.disk == old(fs.disk) && fs.vol == old(fs.vol) && dp.chain == old(dp.chain)
    ensures dp.valid != 1 ==> ret == -1
    ensures dp.valid == 1 ==> Answer(t, start / 32, HeadOf(t, start / 32), ep, ret, count)
  {
    count := 0;
    if dp.valid != 1 {
      return -1, count;
    }
    var cnt, counted, off := 0, false, start;
    ep.filename := Zeros(NAME_BUFFER);
    ghost var d, r, m := dp.recs, start / 32, 0;
    ghost var x := HeadOf(t, r);
    MidwayStart(t, r, x, ep.filename, count);
    while true
      invariant DirOk(fs, dp) && dp.recs == d && fs.disk == old(fs.disk) && fs.vol == old(fs.vol)
      invariant dp.chain == old(dp.chain)
      invariant off == 32 * (r + m) && Midway(t, r, x, m, ep.filename, cnt, counted, count)
      decreases |d| - (r + m)
    {
      RecordIndex(off, r + m);
      var ok, de := GetRecord(fs, dp, off);
      if x.Item? {
        MetAt(t, r, x, m);
      }
      if !ok {
        break;
      }
      var done;
      done, ret, cnt, counted, count := EnextRound(ep, de, cnt, counted, count, t, r, x, m);
      if done {
        return;
      }
      off := off + 32;
      m := m + 1;
    }
    EndMet(t, r, m, Zeros(32));
    ret := -1;
  }

  // ----- changing an entry in place -----

  /** The number that eupdate and eremove take from the first record of an entry. */
  ghost function Counted(d: seq<Rec>, r: nat): nat {
    if r < |d| then Ord(d[r]) else 0
  }

  /** The first steps of eupdate and eremove. */
  method CountLongs(fs: FatVolume, dp: Dirent, off: u32) returns (entcnt: nat, off2: int)
    requires DirOk(fs, dp) && off % 32 == 0 && off / 32 < |dp.recs|
    modifies fs, dp`curClus, dp`clusCnt, dp`chain
    ensures DirOk(fs, dp) && fs.disk == old(fs.disk) && fs.vol == old(fs.vol) && dp.chain == old(dp.chain)
    ensures dp.clusCnt == off / fs.g.bytsPerClus
    ensures entcnt == Counted(dp.recs, off / 32) && off2 != -1
  {
    DirShape(fs, dp);
    RecordFits(off, fs.g.bytsPerClus);
    SpanBelow(off, |dp.chain|, fs.g.bytsPerClus);
    off2 := RelocClus(fs, dp, off, false);
    CursorFacts(fs.vol, dp);
    Located(fs.vol, fs.g.bytsPerClus, dp.firstClus, dp.chain, off, 1);
    var b := fs.ReadClus(dp.curClus, off2, 1);
    FirstByte(Flat(fs.vol.data, dp.chain), off);
    entcnt := ClearLast(b[0]);
  }

  lemma {:induction false} FirstByte(flat: seq<byte>, off: nat)
    requires off % 32 == 0 && off / 32 < |Recs(flat)|
    ensures off < |flat| && flat[off..off + 1][0] == Recs(flat)[off / 32][0]
  {
    RecAt(flat, off / 32);
    assert off == 32 * (off / 32);
  }

  /** The sector of byte 2^32 - 1 of the directory's first cluster, and the next one. When reloc_clus has
      returned -1 the code goes on with that as an offset. */
  ghost function StraySec(fs: FatVolume, dp: Dirent): nat
    reads dp
  {
    if 2 <= dp.firstClus then fs.g.FirstSec(dp.firstClus) + STRAY else 0
  }

  /** Those sectors have numbers of 32 bits. */
  ghost predicate NoWrap(g: Geometry) {
    g.Sectors() + STRAY + 1 < U32_LIMIT
  }

  /** They lie in no cluster of the directory. */
  ghost predicate Aside(g: Geometry, ch: seq<nat>, s: nat) {
    forall i :: 0 <= i < |ch| && 2 <= ch[i] ==> !InCluster(g, ch[i], s) && !InCluster(g, ch[i], s + 1)
  }

  lemma {:induction false} FlatSame(data: seq<seq<byte>>, data': seq<seq<byte>>, ch: seq<nat>)
    requires |data'| == |data| && forall i :: 0 <= i < |ch| && ch[i] < |data| ==> data'[ch[i]] == data[ch[i]]
    ensures Flat(data', ch) == Flat(data, ch)
  {
    if ch != [] {
      FlatSame(data, data', ch[1..]);
    }
  }

  /** What such a write leaves of a directory. */
  lemma {:induction false} StrayKeeps(g: Geometry, v: Vol, v': Vol, B: nat, first: nat, ch: seq<nat>, s: nat)
    requires VolOk(v, B) && Chain(v, first, ch) && OnlyStray(g, v, v', s)
    requires forall c :: 2 <= c < |v'.data| ==> |v'.data[c]| == B
    ensures VolOk(v', B) && Chain(v', first, ch) && FreeSet(v') == FreeSet(v)
    ensures Aside(g, ch, s) ==> Flat(v'.data, ch) == Flat(v.data, ch)
  {
    if Aside(g, ch, s) {
      FlatSame(v.data, v'.data, ch);
    }
  }

  /** The first cluster is one of the volume. */
  lemma {:induction false} FirstClus(fs: FatVolume, dp: Dirent)
    requires DirOk(fs, dp)
    ensures 2 <= dp.firstClus < |fs.vol.data| && DiskFits(fs.g, fs.disk)
    ensures dp.clusCnt == 0 ==> dp.curClus == dp.firstClus
    ensures NoWrap(fs.g) ==> StraySec(fs, dp) + 1 < U32_LIMIT
  {
    assert OpenDir(Key);
    CursorFacts(fs.vol, dp);
    fs.Sectors();
    ClusterPlace(fs.g, dp.firstClus, 0);
  }

  /** The disk holds the directory. */
  ghost predicate DirOn(g: Geometry, disk: seq<Sector>, ch: seq<nat>, recs: seq<Rec>) {
    DiskFits(g, disk) && recs == Recs(Flat(VolOf(g, disk).data, ch))
  }

  lemma {:induction false} DirOkOn(fs: FatVolume, dp: Dirent)
    requires DirOk(fs, dp)
    ensures DirOn(fs.g, fs.disk, dp.chain, dp.recs)
  {
    assert OpenDir(Key);
    fs.Sectors();
  }

  /** The write itself, on the volume. */
  method WriteAt(fs: FatVolume, dp: Dirent, x: seq<byte>, ghost s: nat)
    requires Ready(fs) && CursorOk(fs.vol, dp) && dp.clusCnt == 0 && 1 <= |x| <= 512
    requires s == StraySec(fs, dp) && s + 1 < U32_LIMIT && dp.curClus == dp.firstClus && 2 <= dp.curClus < |fs.vol.data|
    modifies fs
    ensures Ready(fs) && CursorOk(fs.vol, dp) && FreeSet(fs.vol) == old(FreeSet(fs.vol))
    ensures |fs.vol.fat| == |old(fs.vol).fat| && |fs.vol.data| == |old(fs.vol).data|
    ensures fs.disk == Strayed(old(fs.disk), s, x)
    ensures Aside(fs.g, dp.chain, s) ==> Flat(fs.vol.data, dp.chain) == old(Flat(fs.vol.data, dp.chain))
  {
    ghost var v := fs.vol;
    CursorFacts(v, dp);
    fs.WriteStray(dp.curClus, x);
    fs.Sectors();
    StrayKeeps(fs.g, v, fs.vol, fs.g.bytsPerClus, dp.firstClus, dp.chain, s);
  }

  /** rw_clus with write set and offset -1, when reloc_clus has set the cursor back. */
  method PutStray(fs: FatVolume, dp: Dirent, x: seq<byte>)
    requires DirOk(fs, dp) && dp.clusCnt == 0 && 1 <= |x| <= 512 && NoWrap(fs.g)
    modifies fs, dp`recs
    ensures DirOk(fs, dp) && FreeSet(fs.vol) == old(FreeSet(fs.vol))
    ensures fs.disk == Strayed(old(fs.disk), StraySec(fs, dp), x)
    ensures Aside(fs.g, dp.chain, StraySec(fs, dp)) ==> dp.recs == old(dp.recs)
  {
    DirShape(fs, dp);
    FirstClus(fs, dp);
    WriteAt(fs, dp, x, StraySec(fs, dp));
    dp.recs := Recs(Flat(fs.vol.data, dp.chain));
  }

  /** rw_clus without write and with offset -1. */
  method GetStray(fs: FatVolume, dp: Dirent) returns (de: Rec)
    requires DirOk(fs, dp) && dp.clusCnt == 0 && NoWrap(fs.g)
    ensures de == StrayBytes(fs.disk, StraySec(fs, dp), 32)
  {
    DirShape(fs, dp);
    FirstClus(fs, dp);
    de := fs.ReadStray(dp.curClus, 32);
  }

  /** What eupdate does to the records of a directory. */
  ghost predicate Updated(d: seq<Rec>, r: nat, firstClus: u32, fileSize: u32, d': seq<Rec>) {
    var q := r + Counted(d, r);
    q < |d| && d' == d[q := PutInfo(d[q], firstClus, fileSize)]
  }

  /** eupdate: the record as far behind the entry's first one as that says gets the first cluster and the
      size, and no other byte of the directory changes. If the directory does not go that far, the two
      sectors of offset -1 get them instead. */
  method Eupdate(fs: FatVolume, dp: Dirent, entry: Dirent)
    requires DirOk(fs, dp) && entry != dp && entry.off % 32 == 0 && entry.off / 32 < |dp.recs|
    requires entry.off + 32 * Counted(dp.recs, entry.off / 32) < U32_LIMIT
    requires |dp.recs| <= entry.off / 32 + Counted(dp.recs, entry.off / 32) ==> NoWrap(fs.g)
    modifies fs, dp`curClus, dp`clusCnt, dp`chain, dp`recs, entry`dirty
    ensures DirOk(fs, dp) && dp.chain == old(dp.chain) && |FreeSet(fs.vol)| == |old(FreeSet(fs.vol))|
    ensures !old(entry.dirty) || entry.valid != 1 ==>
              dp.recs == old(dp.recs) && entry.dirty == old(entry.dirty) && fs.disk == old(fs.disk) &&
              fs.vol == old(fs.vol)
    ensures old(entry.dirty) && entry.valid == 1 ==> !entry.dirty
    ensures old(entry.dirty) && entry.valid == 1 ==>
              var r := entry.off / 32;
              if r + Counted(old(dp.recs), r) < |old(dp.recs)| then
                && Updated(old(dp.recs), r, entry.firstClus, entry.fileSize, dp.recs)
                && Grown(old(fs.vol), dp.chain, fs.vol, dp.chain)
              else
                && fs.disk == Strayed(old(fs.disk), StraySec(fs, dp),
                                      PutInfo(StrayBytes(old(fs.disk), StraySec(fs, dp), 32),
                                              entry.firstClus, entry.fileSize))
                && (Aside(fs.g, dp.chain, StraySec(fs, dp)) ==> dp.recs == old(dp.recs))
  {
    if !entry.dirty || entry.valid != 1 {
      return;
    }
    ghost var d, r := dp.recs, entry.off / 32;
    var entcnt, _ := CountLongs(fs, dp, entry.off);
    var off := entry.off + entcnt * 32;
    RecordIndex(off, r + entcnt);
    var ok, de := GetRecord(fs, dp, off);
    if ok {
      de := PutInfo(de, entry.firstClus, entry.fileSize);
      PutHere(fs, dp, off, de);
      assert Splice(d[r + entcnt], 0, de) == de;
    } else {
      de := GetStray(fs, dp);
      de := PutInfo(de, entry.firstClus, entry.fileSize);
      PutStray(fs, dp, de);
    }
    entry.dirty := false;
  }

  /** A record whose first byte marks it as empty. */
  function Erased(r: Rec): Rec {
    r[0 := EMPTY_ENTRY]
  }

  /** d' is d with the n records from r on marked empty. */
  ghost predicate Emptied(d: seq<Rec>, r: nat, n: nat, d': seq<Rec>) {
    && |d'| == |d| && r + n <= |d|
    && forall q :: 0 <= q < |d| ==> d'[q] == if r <= q < r + n then Erased(d[q]) else d[q]
  }

  /** One round of eremove: mark the record under the cursor, and move to the next one. */
  method EmptyOne(fs: FatVolume, dp: Dirent, off: u32, ghost q: nat) returns (off2: int)
    requires DirOk(fs, dp) && off == 32 * q && off + 32 < U32_LIMIT && dp.clusCnt == off / fs.g.bytsPerClus
    modifies fs, dp`curClus, dp`clusCnt, dp`chain, dp`recs
    ensures DirOk(fs, dp) && dp.chain == old(dp.chain) && Grown(old(fs.vol), dp.chain, fs.vol, dp.chain)
    ensures dp.clusCnt == if q + 1 < |dp.recs| then (off + 32) / fs.g.bytsPerClus else 0
    ensures off2 == -1 <==> |dp.recs| <= q + 1
    ensures q < |old(dp.recs)| && dp.recs == old(dp.recs)[q := Erased(old(dp.recs)[q])]
  {
    RecordIndex(off, q);
    ghost var d := dp.recs;
    PutHere(fs, dp, off, [EMPTY_ENTRY]);
    DirShape(fs, dp);
    SpanBelow(off + 32, |dp.chain|, fs.g.bytsPerClus);
    off2 := RelocClus(fs, dp, off + 32, false);
    assert Splice(d[q], 0, [EMPTY_ENTRY]) == Erased(d[q]);
  }

  /** One round past the end of the directory. */
  method EmptyStray(fs: FatVolume, dp: Dirent, off: u32, ghost q: nat) returns (off2: int)
    requires DirOk(fs, dp) && off == 32 * q && off + 32 < U32_LIMIT && dp.clusCnt == 0 && |dp.recs| <= q && NoWrap(fs.g)
    modifies fs, dp`curClus, dp`clusCnt, dp`chain, dp`recs
    ensures DirOk(fs, dp) && dp.chain == old(dp.chain) && FreeSet(fs.vol) == old(FreeSet(fs.vol)) && dp.clusCnt == 0
    ensures off2 == -1 && |dp.recs| == |old(dp.recs)|
    ensures fs.disk == Strayed(old(fs.disk), StraySec(fs, dp), [EMPTY_ENTRY])
    ensures Aside(fs.g, dp.chain, StraySec(fs, dp)) ==> dp.recs == old(dp.recs)
  {
    DirShape(fs, dp);
    PutStray(fs, dp, [EMPTY_ENTRY]);
    DirShape(fs, dp);
    SpanBelow(off + 32, |dp.chain|, fs.g.bytsPerClus);
    off2 := RelocClus(fs, dp, off + 32, false);
  }

  lemma {:induction false} StrayTwice(disk: seq<Sector>, s: nat, b: byte)
    ensures Strayed(Strayed(disk, s, [b]), s, [b]) == Strayed(disk, s, [b])
  {
    StrayRounds(disk, s, [b]);
    StrayRounds(Strayed(disk, s, [b]), s, [b]);
    assert s < |disk| ==> Splice(Splice(disk[s], 511, [b][..1]), 511, [b][..1]) == Splice(disk[s], 511, [b][..1]);
  }

  /** After i rounds of eremove from record r of d; mid is the disk before anything else than the directory
      was written. */
  ghost predicate Emptying(fs: FatVolume, dp: Dirent, d: seq<Rec>, r: nat, i: nat, mid: seq<Sector>, free: nat)
    requires 0 < fs.g.bytsPerClus && r <= |d|
    reads fs, dp
  {
    && DirOk(fs, dp) && |dp.recs| == |d| && |FreeSet(fs.vol)| == free
    && dp.clusCnt == (if r + i < |d| then 32 * (r + i) / fs.g.bytsPerClus else 0)
    && if r + i <= |d| then fs.disk == mid && Emptied(d, r, i, dp.recs)
       else
         && fs.disk == Strayed(mid, StraySec(fs, dp), [EMPTY_ENTRY])
         && (exists recs :: Emptied(d, r, |d| - r, recs) && DirOn(fs.g, mid, dp.chain, recs))
         && (Aside(fs.g, dp.chain, StraySec(fs, dp)) ==> Emptied(d, r, |d| - r, dp.recs))
  }

  /** One round of eremove. */
  method RemoveRound(fs: FatVolume, dp: Dirent, off: u32, off2: int, ghost d: seq<Rec>, ghost r: nat, ghost i: nat,
                     ghost mid: seq<Sector>, ghost free: nat)
    returns (off2': int, ghost mid': seq<Sector>)
    requires 0 < fs.g.bytsPerClus && r < |d| && Emptying(fs, dp, d, r, i, mid, free)
    requires off == 32 * (r + i) && off + 32 < U32_LIMIT && (|d| <= r + i ==> NoWrap(fs.g))
    requires off2 == -1 <==> |d| <= r + i
    modifies fs, dp`curClus, dp`clusCnt, dp`chain, dp`recs
    ensures Emptying(fs, dp, d, r, i + 1, mid', free) && dp.chain == old(dp.chain)
    ensures off2' == -1 <==> |d| <= r + i + 1
    ensures r + i < |d| ==> Grown(old(fs.vol), dp.chain, fs.vol, dp.chain)
  {
    mid' := mid;
    if off2 != -1 {
      off2' := EmptyOne(fs, dp, off, r + i);
      mid' := fs.disk;
    } else {
      ghost var was := dp.recs;
      DirOkOn(fs, dp);
      off2' := EmptyStray(fs, dp, off, r + i);
      StrayTwice(mid, StraySec(fs, dp), EMPTY_ENTRY);
      if r + i == |d| {
        assert Emptied(d, r, |d| - r, was) && DirOn(fs.g, mid, dp.chain, was);
      }
    }
  }

  /** eremove: the records from the entry's first one on, as many more as that says, are marked empty, and
      no other record changes. If the directory ends before, those that it has are marked, and one byte of
      the sector of offset -1. */
  method Eremove(fs: FatVolume, dp: Dirent, entry: Dirent) returns (ghost mid: seq<Sector>)
    requires DirOk(fs, dp) && entry != dp && entry.off % 32 == 0 && entry.off / 32 < |dp.recs|
    requires entry.off + 32 * (Counted(dp.recs, entry.off / 32) + 1) < U32_LIMIT
    requires |dp.recs| <= entry.off / 32 + Counted(dp.recs, entry.off / 32) ==> NoWrap(fs.g)
    modifies fs, dp`curClus, dp`clusCnt, dp`chain, dp`recs, entry`valid
    ensures DirOk(fs, dp) && dp.chain == old(dp.chain) && |FreeSet(fs.vol)| == |old(FreeSet(fs.vol))|
    ensures old(entry.valid) != 1 ==>
              dp.recs == old(dp.recs) && entry.valid == old(entry.valid) && fs.disk == old(fs.disk)
    ensures old(entry.valid) == 1 ==> entry.valid == -1
    ensures old(entry.valid) == 1 ==>
              var d, r := old(dp.recs), entry.off / 32;
              var n := Counted(d, r) + 1;
              if r + n <= |d| then
                && Emptied(d, r, n, dp.recs)
                && Grown(old(fs.vol), dp.chain, fs.vol, dp.chain)
              else
                && fs.disk == Strayed(mid, StraySec(fs, dp), [EMPTY_ENTRY])
                && (exists recs :: Emptied(d, r, |d| - r, recs) && DirOn(fs.g, mid, dp.chain, recs))
                && (Aside(fs.g, dp.chain, StraySec(fs, dp)) ==> Emptied(d, r, |d| - r, dp.recs))
  {
    ghost var v0, ch, d0, r := fs.vol, dp.chain, dp.recs, entry.off / 32;
    GrownRefl(v0, ch);
    mid := fs.disk;
    if entry.valid != 1 {
      return;
    }
    var off := entry.off;
    var entcnt, off2 := CountLongs(fs, dp, off);
    var i := 0;
    while i <= entcnt
      invariant 0 <= i <= entcnt + 1 && off == 32 * (r + i) && (off2 == -1 <==> |d0| <= r + i)
      invariant Emptying(fs, dp, d0, r, i, mid, |FreeSet(v0)|) && dp.chain == ch
      invariant r + i <= |d0| ==> Grown(v0, ch, fs.vol, ch)
    {
      ghost var v1 := fs.vol;
      off2, mid := RemoveRound(fs, dp, off, off2, d0, r, i, mid, |FreeSet(v0)|);
      if r + i < |d0| {
        GrownTrans(v0, ch, v1, ch, fs.vol, ch);
      }
      off := off + 32;
      i := i + 1;
    }
    entry.valid := -1;
  }
}
