/** A file and its record in a directory: what is written through the in-memory entry is found again by
    whoever looks the file up anew, once eupdate has been called. */
module FatWriteBack {
  import opened Bytes
  import opened FatSectors
  import opened FatChains
  import opened FatFiles
  import opened FatRecords
  import opened FatScan
  import opened FatDirectory
  import opened FatEdits
  import opened FatListing
  import FatRuns

  // ----- an entry and its record -----

  /** The entry at record r starts at the cluster, and has the size, that e has. */
  ghost predicate Agrees(t: seq<Rec>, r: nat, e: Dirent)
    reads e
  {
    HasInfo(HeadOf(t, r), e.firstClus, e.fileSize)
  }

  ghost predicate OpenApart(k: Key) {
    true
  }

  ghost predicate Apart(a: seq<nat>, b: seq<nat>) {
    forall k: Key {:trigger OpenApart(k)} :: OpenApart(k) ==> Disjoint(a, b)
  }

  /** The in-memory entry e of the file at record r of a directory with records t in use, counted right.
      Where it is not dirty, the record agrees with it. */
  ghost predicate Tied(fs: FatVolume, dp: Dirent, e: Dirent, t: seq<Rec>, r: nat)
    reads fs, dp, e
  {
    && Directory(fs, dp, t) && Ready(fs) && e != dp && e.valid == 1 && e.off == 32 * r && Honest(t, r)
    && FileOk(fs.vol, fs.g.bytsPerClus, e) && Apart(e.chain, dp.chain)
    && (!e.dirty ==> Agrees(t, r, e))
  }

  /** The file as a store of its own: its bytes and clusters, and the free clusters of the volume. */
  ghost function Now(fs: FatVolume, e: Dirent): FatRuns.Store
    requires Ready(fs) && FileOk(fs.vol, fs.g.bytsPerClus, e)
    reads fs, e
  {
    FatRuns.Store([FatRuns.FileNow(fs, e)], |FreeSet(fs.vol)|, fs.g.bytsPerClus)
  }

  // ----- what one step leaves of the directory -----

  /** A directory is the same after a file apart from it has grown. */
  lemma {:induction false} DirGrown(fs: FatVolume, dp: Dirent, v: Vol, ch: seq<nat>, ch': seq<nat>)
    requires HasAttr(dp.attribute, ATTR_DIRECTORY) && Ready(fs) && CursorOk(v, dp) && Apart(ch, dp.chain)
    requires dp.recs == Recs(Flat(v.data, dp.chain)) && Grown(v, ch, fs.vol, ch')
    ensures DirOk(fs, dp) && Apart(ch', dp.chain)
  {
    assert OpenApart(Key);
    CursorFacts(v, dp);
    GrownKeepsOthers(v, ch, fs.vol, ch', dp.firstClus, dp.chain);
    fs.Shape();
  }

  /** And after one has been truncated. */
  lemma {:induction false} DirFreed(fs: FatVolume, dp: Dirent, v: Vol, ch: seq<nat>)
    requires HasAttr(dp.attribute, ATTR_DIRECTORY) && Ready(fs) && CursorOk(v, dp) && Apart(ch, dp.chain)
    requires dp.recs == Recs(Flat(v.data, dp.chain)) && |v.data| <= |v.fat|
    requires (forall i :: 0 <= i < |ch| ==> ch[i] < |v.fat|) && fs.vol == v.(fat := Freed(v.fat, ch))
    ensures DirOk(fs, dp)
  {
    assert OpenApart(Key);
    CursorFacts(v, dp);
    FreedKeepsOthers(v, ch, dp.firstClus, dp.chain);
    fs.Shape();
  }

  // ----- the three operations -----

  /** ewrite. */
  method PutData(fs: FatVolume, dp: Dirent, e: Dirent, off: u32, data: seq<byte>, ghost t: seq<Rec>, ghost r: nat)
    requires Tied(fs, dp, e, t, r) && |data| < U32_LIMIT
    requires FatRuns.Fits(Now(fs, e), FatRuns.Write(0, off, data))
    modifies fs, e`firstClus, e`fileSize, e`curClus, e`clusCnt, e`dirty, e`chain
    ensures Tied(fs, dp, e, t, r) && Now(fs, e) == FatRuns.After(old(Now(fs, e)), FatRuns.Write(0, off, data))
  {
    ghost var v, ch, f := fs.vol, e.chain, FatRuns.FileNow(fs, e);
    DirShape(fs, dp);
    FatRuns.FitsIsRoom(v, fs.g.bytsPerClus, e, f, off + |data|);
    FatRuns.WriteWithin(fs, e, off, data);
    DirGrown(fs, dp, v, ch, e.chain);
  }

  /** etrunc. */
  method Truncate(fs: FatVolume, dp: Dirent, e: Dirent, ghost t: seq<Rec>, ghost r: nat)
    requires Tied(fs, dp, e, t, r)
    modifies fs, e`firstClus, e`fileSize, e`dirty, e`chain
    ensures Tied(fs, dp, e, t, r) && Now(fs, e) == FatRuns.After(old(Now(fs, e)), FatRuns.Truncate(0))
  {
    ghost var v, ch := fs.vol, e.chain;
    DirShape(fs, dp);
    Etrunc(fs, e);
    DirFreed(fs, dp, v, ch);
  }

  /** The record that eupdate writes is the one the entry is read from. */
  lemma {:induction false} RecordWritten(t: seq<Rec>, r: nat, e: Dirent)
    requires Sound(t) && Honest(t, r)
    ensures var p := r + Counted(t, r); var t' := Put1(t, p, e.firstClus, e.fileSize);
            p < |t| && Sound(t') && Honest(t', r) && Agrees(t', r, e) && Counted(t', r) == Counted(t, r)
  {
    var p := r + Counted(t, r);
    UpdateHere(t, r, p, e.firstClus, e.fileSize);
    PutShaped(t, p, e.firstClus, e.fileSize);
    ShapedSound(t, Put1(t, p, e.firstClus, e.fileSize));
  }

  /** A file is the same after a record of the directory has been written. */
  lemma {:induction false} FileKept(fs: FatVolume, e: Dirent, v: Vol, ch: seq<nat>)
    requires Ready(fs) && VolOk(v, fs.g.bytsPerClus) && FileOk(v, fs.g.bytsPerClus, e) && Apart(e.chain, ch)
    requires Grown(v, ch, fs.vol, ch)
    ensures FileOk(fs.vol, fs.g.bytsPerClus, e)
    ensures Contents(fs.vol, fs.g.bytsPerClus, e) == Contents(v, fs.g.bytsPerClus, e)
  {
    assert OpenApart(Key);
    FatRuns.DisjointSym(e.chain, ch);
    FatRuns.OtherKept(v, ch, fs.vol, ch, fs.g.bytsPerClus, e);
  }

  /** Only record p may differ. */
  ghost predicate OneRecord(t: seq<Rec>, t': seq<Rec>, p: nat) {
    |t'| == |t| && forall q :: 0 <= q < |t| && q != p ==> t'[q] == t[q]
  }

  lemma {:induction false} Reachable(fs: FatVolume, dp: Dirent, t: seq<Rec>, r: nat, off: u32)
    requires Directory(fs, dp, t) && Honest(t, r) && off == 32 * r
    ensures off % 32 == 0 && off / 32 == r && r + Counted(t, r) < |t| <= |dp.recs|
    ensures Counted(dp.recs, r) == Counted(t, r) && 32 * (r + Counted(t, r) + 1) < U32_LIMIT
  {
    DirSize(fs, dp, t);
    UpdateHere(t, r, r + Counted(t, r), 0, 0);
    CountAt(fs, dp, t, r);
    RecordIndex(off, r);
  }

  /** eupdate on a dirty entry, and what it leaves of the directory. */
  method WriteRecord(fs: FatVolume, dp: Dirent, e: Dirent, ghost t: seq<Rec>, ghost r: nat)
    requires Directory(fs, dp, t) && e != dp && e.valid == 1 && e.off == 32 * r && Honest(t, r) && e.dirty
    modifies fs, dp`curClus, dp`clusCnt, dp`chain, dp`recs, e`dirty
    ensures DirOk(fs, dp) && dp.chain == old(dp.chain) && !e.dirty && Grown(old(fs.vol), dp.chain, fs.vol, dp.chain)
    ensures LiveOf(dp.recs) == Put1(t, r + Counted(t, r), e.firstClus, e.fileSize)
  {
    ghost var d, p := dp.recs, r + Counted(t, r);
    Reachable(fs, dp, t, r, e.off);
    Eupdate(fs, dp, e);
    assert dp.recs == Put1(d, p, e.firstClus, e.fileSize);
    PutLive(d, t, p, e.firstClus, e.fileSize, dp.recs);
  }

  /** And what of the file. */
  method WriteDirty(fs: FatVolume, dp: Dirent, e: Dirent, ghost t: seq<Rec>, ghost r: nat) returns (ghost t': seq<Rec>)
    requires Tied(fs, dp, e, t, r) && e.dirty
    modifies fs, dp`curClus, dp`clusCnt, dp`chain, dp`recs, e`dirty
    ensures Tied(fs, dp, e, t', r) && !e.dirty && Now(fs, e) == old(Now(fs, e))
    ensures OneRecord(t, t', r + Counted(t, r)) && Counted(t', r) == Counted(t, r)
  {
    ghost var v := fs.vol;
    t' := Put1(t, r + Counted(t, r), e.firstClus, e.fileSize);
    WriteRecord(fs, dp, e, t, r);
    RecordWritten(t, r, e);
    DirShape(fs, dp);
    FileKept(fs, e, v, dp.chain);
  }

  /** eupdate. */
  method WriteBack(fs: FatVolume, dp: Dirent, e: Dirent, ghost t: seq<Rec>, ghost r: nat) returns (ghost t': seq<Rec>)
    requires Tied(fs, dp, e, t, r)
    modifies fs, dp`curClus, dp`clusCnt, dp`chain, dp`recs, e`dirty
    ensures Tied(fs, dp, e, t', r) && !e.dirty && Now(fs, e) == old(Now(fs, e))
    ensures OneRecord(t, t', r + Counted(t, r)) && Counted(t', r) == Counted(t, r)
  {
    t' := t;
    if e.dirty {
      t' := WriteDirty(fs, dp, e, t, r);
    } else {
      Reachable(fs, dp, t, r, e.off);
      Eupdate(fs, dp, e);
      DirShape(fs, dp);
    }
  }

  // ----- any series of them -----

  datatype Edit = Put(off: u32, data: seq<byte>) | Clear | Sync

  /** What an edit does to the bytes of the file, and to the count of its clusters. */
  ghost function Edited(s: FatRuns.Store, x: Edit): (s': FatRuns.Store)
    requires |s.files| == 1 && 0 < s.B
    ensures |s'.files| == 1 && s'.B == s.B
  {
    match x
    case Put(off, data) => FatRuns.After(s, FatRuns.Write(0, off, data))
    case Clear => FatRuns.After(s, FatRuns.Truncate(0))
    case Sync => s
  }

  ghost function EditedAll(s: FatRuns.Store, edits: seq<Edit>): (s': FatRuns.Store)
    requires |s.files| == 1 && 0 < s.B
    ensures |s'.files| == 1 && s'.B == s.B
    decreases |edits|
  {
    if edits == [] then s else EditedAll(Edited(s, edits[0]), edits[1..])
  }

  /** Every write has 32 bits and finds the clusters it needs. */
  ghost predicate AllFit(s: FatRuns.Store, edits: seq<Edit>)
    requires |s.files| == 1 && 0 < s.B
    decreases |edits|
  {
    edits == [] ||
    (&& (edits[0].Put? ==>
           |edits[0].data| < U32_LIMIT && FatRuns.Fits(s, FatRuns.Write(0, edits[0].off, edits[0].data)))
     && AllFit(Edited(s, edits[0]), edits[1..]))
  }

  /** Any series of writes, truncations and updates through one entry: it is tied to its record all along,
      its bytes are what the series makes of a byte sequence, and no other record changes. */
  method Session(fs: FatVolume, dp: Dirent, e: Dirent, edits: seq<Edit>, ghost t: seq<Rec>, ghost r: nat)
      returns (ghost t': seq<Rec>)
    requires Tied(fs, dp, e, t, r) && 0 < fs.g.bytsPerClus && AllFit(Now(fs, e), edits)
    modifies fs, dp`curClus, dp`clusCnt, dp`chain, dp`recs
    modifies e`firstClus, e`fileSize, e`curClus, e`clusCnt, e`dirty, e`chain
    ensures Tied(fs, dp, e, t', r) && Now(fs, e) == EditedAll(old(Now(fs, e)), edits)
    ensures OneRecord(t, t', r + Counted(t, r)) && Counted(t', r) == Counted(t, r)
    decreases |edits|
  {
    t' := t;
    if edits != [] {
      match edits[0] {
        case Put(off, data) => PutData(fs, dp, e, off, data, t, r);
        case Clear => Truncate(fs, dp, e, t, r);
        case Sync => t' := WriteBack(fs, dp, e, t, r);
      }
      t' := Session(fs, dp, e, edits[1..], t', r);
    }
  }

  // ----- looking the file up anew -----

  /** enext at the record of an entry that is not dirty, into another in-memory entry: that is the same file. */
  method LookAnew(fs: FatVolume, dp: Dirent, e: Dirent, ep: Dirent, ghost t: seq<Rec>, ghost r: nat)
    requires Tied(fs, dp, e, t, r) && !e.dirty && ep != dp && ep != e && ep.valid == 0
    modifies fs, dp`curClus, dp`clusCnt, dp`chain
    modifies ep`filename, ep`attribute, ep`firstClus, ep`fileSize, ep`curClus, ep`clusCnt, ep`chain
    ensures Tied(fs, dp, e, t, r) && fs.disk == old(fs.disk) && fs.vol == old(fs.vol)
    ensures Parsed(ep, HeadOf(t, r).e) && ep.firstClus == e.firstClus && ep.fileSize == e.fileSize
    ensures FileOk(fs.vol, fs.g.bytsPerClus, ep)
    ensures Contents(fs.vol, fs.g.bytsPerClus, ep) == Contents(fs.vol, fs.g.bytsPerClus, e)
  {
    var ret, count := ScanOne(fs, dp, ep, e.off, t, r);
    ep.chain := e.chain;
    if e.firstClus != 0 {
      CursorFacts(fs.vol, e);
    }
    DirShape(fs, dp);
  }

  /** After any series of edits and a last eupdate, whoever looks the file up in the directory reads what
      the series makes of its bytes. */
  method SaveAndLoad(fs: FatVolume, dp: Dirent, e: Dirent, ep: Dirent, edits: seq<Edit>, off: u32, n: u32,
                     ghost t: seq<Rec>, ghost r: nat) returns (out: seq<byte>)
    requires Tied(fs, dp, e, t, r) && ep != dp && ep != e && ep.valid == 0
    requires 0 < fs.g.bytsPerClus && AllFit(Now(fs, e), edits)
    modifies fs, dp`curClus, dp`clusCnt, dp`chain, dp`recs
    modifies e`firstClus, e`fileSize, e`curClus, e`clusCnt, e`dirty, e`chain
    modifies ep`filename, ep`attribute, ep`firstClus, ep`fileSize, ep`curClus, ep`clusCnt, ep`chain
    ensures ep.firstClus == e.firstClus && ep.fileSize == e.fileSize
    ensures out == if HasAttr(ep.attribute, ATTR_DIRECTORY) then []
                   else ReadSpec(EditedAll(old(Now(fs, e)), edits).files[0].bytes, off, n)
  {
    ghost var t1 := Session(fs, dp, e, edits, t, r);
    ghost var t2 := WriteBack(fs, dp, e, t1, r);
    LookAnew(fs, dp, e, ep, t2, r);
    out := Eread(fs, ep, off, n);
  }
}
