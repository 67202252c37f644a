/** Whole runs on a set of files: any series of writes, truncations and reads behaves like the
    same series on plain byte sequences, and every chain stays well formed and apart. */
module FatRuns {
  import opened Bytes
  import opened FatSectors
  import opened FatChains
  import opened FatFiles

  /** A file as the run sees it: its bytes, and how many clusters it has. */
  datatype File = File(attribute: byte, bytes: seq<byte>, clusters: nat)

  /** The files, the clusters that are free, and the bytes of one cluster. */
  datatype Store = Store(files: seq<File>, free: nat, B: nat)

  datatype Op =
    | Write(file: nat, off: u32, data: seq<byte>)
    | Truncate(file: nat)
    | Read(file: nat, off: u32, count: u32)

  /** The files the run works on: separate entries, each well formed, no two sharing a cluster. */
  ghost predicate FilesOk(fs: FatVolume, files: seq<Dirent>)
    reads fs, files
  {
    && Ready(fs)
    && (forall i, j :: 0 <= i < j < |files| ==> files[i] != files[j])
    && (forall i :: 0 <= i < |files| ==> FileOk(fs.vol, fs.g.bytsPerClus, files[i]))
    && (forall i, j :: 0 <= i < |files| && 0 <= j < |files| && i != j ==> Disjoint(files[i].chain, files[j].chain))
  }

  /** What the volume holds. */
  ghost function Now(fs: FatVolume, files: seq<Dirent>): (s: Store)
    requires FilesOk(fs, files)
    reads fs, files
    ensures |s.files| == |files| && s.free == |FreeSet(fs.vol)| && s.B == fs.g.bytsPerClus > 0
    ensures forall i :: 0 <= i < |files| ==> s.files[i] == FileNow(fs, files[i])
  {
    Store(seq(|files|, i requires 0 <= i < |files| && FilesOk(fs, files) reads fs, files => FileNow(fs, files[i])),
          |FreeSet(fs.vol)|, fs.g.bytsPerClus)
  }

  ghost function FileNow(fs: FatVolume, e: Dirent): File
    requires Ready(fs) && FileOk(fs.vol, fs.g.bytsPerClus, e)
    reads fs, e
  {
    File(e.attribute, Contents(fs.vol, fs.g.bytsPerClus, e), |e.chain|)
  }

  // ----- the same operations on plain byte sequences and counts -----

  ghost predicate Refused(f: File, off: nat, n: nat) {
    off > |f.bytes| || off + n >= U32_LIMIT || HasAttr(f.attribute, ATTR_READ_ONLY)
  }

  /** The clusters that n bytes fill, the last one perhaps in part. */
  ghost function ClustersFor(n: nat, B: nat): (k: nat)
    requires 0 < B
    ensures n <= Span(k, B) && (0 < k ==> Span(k - 1, B) < n)
  {
    if n == 0 then 0 else SpanDiv(n - 1, B); (n - 1) / B + 1
  }

  /** The clusters of a file after a write that ends at end: no more than it needs, and one at least. */
  ghost function ClustersAfter(f: File, end: nat, B: nat): nat
    requires 0 < B
  {
    Max(Max(1, f.clusters), ClustersFor(end, B))
  }

  ghost function After(s: Store, op: Op): (r: Store)
    requires op.file < |s.files| && 0 < s.B
    ensures |r.files| == |s.files| && r.B == s.B
  {
    var f := s.files[op.file];
    match op
    case Write(i, off, data) =>
      if Refused(f, off, |data|) then s
      else
        var n := ClustersAfter(f, off + |data|, s.B);
        Store(s.files[i := File(f.attribute, WriteSpec(f.bytes, off, data), n)], Max(0, s.free + f.clusters - n), s.B)
    case Truncate(i) => Store(s.files[i := File(f.attribute, [], 0)], s.free + f.clusters, s.B)
    case Read(_, _, _) => s
  }

  /** There are clusters for what a write adds; nothing else needs any. */
  ghost predicate Fits(s: Store, op: Op)
    requires op.file < |s.files| && 0 < s.B
  {
    var f := s.files[op.file];
    op.Write? && !Refused(f, op.off, |op.data|) ==> ClustersAfter(f, op.off + |op.data|, s.B) <= f.clusters + s.free
  }

  ghost predicate OpsOk(ops: seq<Op>, n: nat) {
    forall k :: 0 <= k < |ops| ==> ops[k].file < n && (ops[k].Write? ==> |ops[k].data| < U32_LIMIT)
  }

  /** Every operation fits when its turn comes. */
  ghost predicate AllFit(s: Store, ops: seq<Op>)
    requires OpsOk(ops, |s.files|) && 0 < s.B
    decreases |ops|
  {
    ops == [] || (Fits(s, ops[0]) && AllFit(After(s, ops[0]), ops[1..]))
  }

  ghost function Output(s: Store, op: Op): seq<byte>
    requires op.file < |s.files|
  {
    var f := s.files[op.file];
    if op.Read? && !HasAttr(f.attribute, ATTR_DIRECTORY) then ReadSpec(f.bytes, op.off, op.count) else []
  }

  ghost function AfterAll(s: Store, ops: seq<Op>): (r: Store)
    requires OpsOk(ops, |s.files|) && 0 < s.B
    ensures |r.files| == |s.files|
    decreases |ops|
  {
    if ops == [] then s else AfterAll(After(s, ops[0]), ops[1..])
  }

  ghost function Outputs(s: Store, ops: seq<Op>): (r: seq<seq<byte>>)
    requires OpsOk(ops, |s.files|) && 0 < s.B
    ensures |r| == |ops|
    decreases |ops|
  {
    if ops == [] then [] else [Output(s, ops[0])] + Outputs(After(s, ops[0]), ops[1..])
  }

  // ----- room on the volume -----

  /** A write fits exactly when the volume has room for it. */
  lemma {:induction false} FitsIsRoom(v: Vol, B: nat, e: Dirent, f: File, end: nat)
    requires 0 < B && |v.data| <= |v.fat| && FileOk(v, B, e) && VolOk(v, B) && f.clusters == |e.chain|
    ensures RoomFor(v, B, e, end) <==> ClustersAfter(f, end, B) <= f.clusters + |FreeSet(v)|
  {
    if e.firstClus != 0 {
      CursorFacts(v, e);
    }
    var n, k := |e.chain| + |FreeSet(v)|, ClustersFor(end, B);
    if k <= n {
      SpanMonotone(k, n, B);
    } else {
      SpanMonotone(n, k - 1, B);
    }
  }

  /** A chain that holds the end of a write, and grew only as far as that, has the clusters it needs. */
  lemma {:induction false} CountExact(f: File, m: nat, end: nat, B: nat)
    requires 0 < B && Max(1, f.clusters) <= m && end <= Span(m, B)
    requires m == Max(1, f.clusters) || Span(m - 1, B) < end
    ensures m == ClustersAfter(f, end, B)
  {
    var k := ClustersFor(end, B);
    if m < k {
      SpanMonotone(m, k - 1, B);
    } else if k < m {
      SpanMonotone(k, m - 1, B);
    }
  }

  // ----- one step -----

  /** What a change of one file's clusters leaves of another file. */
  lemma {:induction false} OtherKept(v: Vol, ch: seq<nat>, v': Vol, ch': seq<nat>, B: nat, e: Dirent)
    requires VolOk(v, B) && VolOk(v', B) && Grown(v, ch, v', ch') && FileOk(v, B, e) && Disjoint(ch, e.chain)
    ensures FileOk(v', B, e) && Contents(v', B, e) == Contents(v, B, e) && Disjoint(ch', e.chain)
  {
    if e.firstClus != 0 {
      CursorFacts(v, e);
      GrownKeepsOthers(v, ch, v', ch', e.firstClus, e.chain);
    }
  }

  lemma {:induction false} OtherKeptByTrunc(v: Vol, ch: seq<nat>, B: nat, e: Dirent)
    requires VolOk(v, B) && FileOk(v, B, e) && Disjoint(ch, e.chain)
    requires forall i :: 0 <= i < |ch| ==> ch[i] < |v.fat|
    requires VolOk(v.(fat := Freed(v.fat, ch)), B)
    ensures FileOk(v.(fat := Freed(v.fat, ch)), B, e)
    ensures Contents(v.(fat := Freed(v.fat, ch)), B, e) == Contents(v, B, e)
  {
    if e.firstClus != 0 {
      CursorFacts(v, e);
      FreedKeepsOthers(v, ch, e.firstClus, e.chain);
    }
  }

  lemma {:induction false} DisjointSym(a: seq<nat>, b: seq<nat>)
    requires Disjoint(a, b)
    ensures Disjoint(b, a)
  {
  }

  /** A write that fits, with the clusters it takes. */
  method WriteWithin(fs: FatVolume, e: Dirent, off: u32, data: seq<byte>)
    requires Ready(fs) && FileOk(fs.vol, fs.g.bytsPerClus, e) && |data| < U32_LIMIT
    requires !WriteRefused(e, off, |data|) ==> RoomFor(fs.vol, fs.g.bytsPerClus, e, off + |data|)
    modifies fs, e`firstClus, e`fileSize, e`curClus, e`clusCnt, e`dirty, e`chain
    ensures Ready(fs) && FileOk(fs.vol, fs.g.bytsPerClus, e)
    ensures Grown(old(fs.vol), old(e.chain), fs.vol, e.chain)
    ensures e.dirty == (old(e.dirty) || e.firstClus != old(e.firstClus) || e.fileSize != old(e.fileSize))
    ensures var f := old(FileNow(fs, e));
            FileNow(fs, e) == if Refused(f, off, |data|) then f
              else File(f.attribute, WriteSpec(f.bytes, off, data), ClustersAfter(f, off + |data|, fs.g.bytsPerClus))
  {
    ghost var f := FileNow(fs, e);
    var r := Ewrite(fs, e, off, data);
    if r != -1 {
      assert off + |data| <= |Contents(fs.vol, fs.g.bytsPerClus, e)|;
      CountExact(f, |e.chain|, off + |data|, fs.g.bytsPerClus);
    }
  }

  method StepWrite(fs: FatVolume, files: seq<Dirent>, i: nat, off: u32, data: seq<byte>)
    requires FilesOk(fs, files) && i < |files| && |data| < U32_LIMIT && Fits(Now(fs, files), Write(i, off, data))
    modifies fs, files
    ensures FilesOk(fs, files)
    ensures Now(fs, files) == After(old(Now(fs, files)), Write(i, off, data))
  {
    ghost var before := Now(fs, files);
    FitsIsRoom(fs.vol, fs.g.bytsPerClus, files[i], before.files[i], off + |data|);
    WriteAmong(fs, files, i, off, data, before);
  }

  /** The write with what it does to each file. */
  method WriteAmong(fs: FatVolume, files: seq<Dirent>, i: nat, off: u32, data: seq<byte>, ghost before: Store)
    requires FilesOk(fs, files) && i < |files| && |data| < U32_LIMIT && before == Now(fs, files)
    requires !WriteRefused(files[i], off, |data|) ==> RoomFor(fs.vol, fs.g.bytsPerClus, files[i], off + |data|)
    modifies fs, files
    ensures FilesOk(fs, files) && Grown(old(fs.vol), old(files[i].chain), fs.vol, files[i].chain)
    ensures forall j :: 0 <= j < |files| && j != i ==> FileNow(fs, files[j]) == before.files[j]
    ensures var f := before.files[i];
            FileNow(fs, files[i]) == if Refused(f, off, |data|) then f
              else File(f.attribute, WriteSpec(f.bytes, off, data), ClustersAfter(f, off + |data|, fs.g.bytsPerClus))
  {
    var e := files[i];
    ghost var v, ch, B := fs.vol, e.chain, fs.g.bytsPerClus;
    WriteWithin(fs, e, off, data);
    forall j | 0 <= j < |files| && j != i
      ensures FileOk(fs.vol, B, files[j])
      ensures FileNow(fs, files[j]) == before.files[j]
      ensures Disjoint(e.chain, files[j].chain) && Disjoint(files[j].chain, e.chain)
    {
      OtherKept(v, ch, fs.vol, e.chain, B, files[j]);
      DisjointSym(e.chain, files[j].chain);
    }
  }

  method StepTruncate(fs: FatVolume, files: seq<Dirent>, i: nat)
    requires FilesOk(fs, files) && i < |files|
    modifies fs, files
    ensures FilesOk(fs, files)
    ensures Now(fs, files) == After(old(Now(fs, files)), Truncate(i))
  {
    var e := files[i];
    ghost var v, ch, B := fs.vol, e.chain, fs.g.bytsPerClus;
    ghost var before := Now(fs, files);
    Etrunc(fs, e);
    forall j | 0 <= j < |files| && j != i
      ensures FileOk(fs.vol, B, files[j])
      ensures FileNow(fs, files[j]) == before.files[j]
    {
      OtherKeptByTrunc(v, ch, B, files[j]);
    }
  }

  method StepRead(fs: FatVolume, files: seq<Dirent>, i: nat, off: u32, count: u32) returns (out: seq<byte>)
    requires FilesOk(fs, files) && i < |files|
    modifies fs, files
    ensures FilesOk(fs, files)
    ensures Now(fs, files) == old(Now(fs, files)) && fs.vol == old(fs.vol)
    ensures out == Output(old(Now(fs, files)), Read(i, off, count))
  {
    out := Eread(fs, files[i], off, count);
  }

  method Step(fs: FatVolume, files: seq<Dirent>, op: Op) returns (out: seq<byte>)
    requires FilesOk(fs, files) && op.file < |files| && (op.Write? ==> |op.data| < U32_LIMIT)
    requires Fits(Now(fs, files), op)
    modifies fs, files
    ensures FilesOk(fs, files)
    ensures Now(fs, files) == After(old(Now(fs, files)), op) && out == Output(old(Now(fs, files)), op)
  {
    out := [];
    match op
    case Write(i, off, data) => StepWrite(fs, files, i, off, data);
    case Truncate(i) => StepTruncate(fs, files, i);
    case Read(i, off, count) => out := StepRead(fs, files, i, off, count);
  }

  /** Every run whose writes find the clusters they need when their turn comes: the files end up holding
      what the same run leaves in plain byte sequences, every read returned what it returns there, no
      chain is broken, shared or given to two files on the way, and the clusters of every file and the
      free ones are counted exactly. */
  method Run(fs: FatVolume, files: seq<Dirent>, ops: seq<Op>) returns (outs: seq<seq<byte>>)
    requires FilesOk(fs, files) && OpsOk(ops, |files|) && AllFit(Now(fs, files), ops)
    modifies fs, files
    ensures FilesOk(fs, files)
    ensures Now(fs, files) == AfterAll(old(Now(fs, files)), ops)
    ensures outs == Outputs(old(Now(fs, files)), ops)
    decreases |ops|
  {
    outs := [];
    if ops != [] {
      var out := Step(fs, files, ops[0]);
      var rest := Run(fs, files, ops[1..]);
      outs := [out] + rest;
    }
  }
}
