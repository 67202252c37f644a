/** What is on the disk, byte by byte: the records of a directory and the marks of the table as any other
    driver reads them. */
module FatFormat {
  import opened Bytes
  import opened FatSectors
  import opened FatChains
  import opened FatFiles
  import opened FatRecords
  import opened FatScan
  import opened FatDirectory

  // ----- the records of a file -----

  /** Where the low byte of the t-th of 13 characters is. */
  const PLACES: seq<nat> := [1, 3, 5, 7, 9, 14, 16, 18, 20, 22, 24, 28, 30]

  /** A character of the name at position p: itself, a zero behind the last one, ones behind that. */
  ghost predicate CharIs(r: Rec, o: nat, name: seq<byte>, p: nat)
    requires o + 1 < 32
  {
    if p < |name| then r[o] == name[p] && r[o + 1] == 0
    else if p == |name| then r[o] == 0 && r[o + 1] == 0
    else r[o] == 0xFF && r[o + 1] == 0xFF
  }

  /** The i-th of n long records, counted from the front of the name, with sum s. */
  ghost predicate LongFormat(r: Rec, name: seq<byte>, i: nat, n: nat, s: byte) {
    && r[0] == (if i == n then i + 0x40 else i) && r[11] == 0x0F && r[12] == 0 && r[13] == s && r[26] == 0 && r[27] == 0
    && forall t :: 0 <= t < 13 ==> 0 < i && CharIs(r, PLACES[t], name, 13 * (i - 1) + t)
  }

  /** A number in two, or four, bytes. */
  ghost function Two(r: Rec, o: nat): nat
    requires o + 1 < 32
  {
    var b0: int, b1: int := r[o], r[o + 1];
    b0 + 0x100 * b1
  }

  ghost predicate ShortFormat(r: Rec, short: seq<byte>, attribute: byte, firstClus: u32, fileSize: u32) {
    && |short| == 11 && r[..11] == short && r[11] == attribute
    && Two(r, 26) + 0x1_0000 * Two(r, 20) == firstClus
    && Two(r, 28) + 0x1_0000 * Two(r, 30) == fileSize
    && forall k :: 12 <= k < 20 || 22 <= k < 26 ==> r[k] == 0
  }

  /** A file: its long records, the last part of the name first, then the short one. */
  ghost predicate FileFormat(x: seq<Rec>, e: Entry) {
    var n := (|e.name| + 12) / 13;
    && |x| == n + 1
    && (forall j :: 0 <= j < n ==> LongFormat(x[j], e.name, n - j, n, Checksum(x[n][..11])))
    && ShortFormat(x[n], ShortName(e.name), e.attribute, e.firstClus, e.fileSize)
  }

  lemma {:induction false} Places(t: nat)
    requires t < 13
    ensures CharPos(t) == PLACES[t]
  {
  }

  lemma {:induction false} LongIsFormat(r: Rec, name: seq<byte>, i: nat, n: nat, s: byte)
    requires 1 <= i <= n <= 19 && r == LongOf(name, i, n, s)
    ensures LongFormat(r, name, i, n, s)
  {
    LongBlank(name, i, n, s);
    forall t | 0 <= t < 13 ensures CharIs(r, PLACES[t], name, 13 * (i - 1) + t) {
      Places(t);
      CharHere(name, i, n, s, t);
    }
  }

  lemma {:induction false} CharHere(name: seq<byte>, i: nat, n: nat, s: byte, t: nat)
    requires 1 <= i <= n <= 19 && t < 13
    ensures CharIs(LongOf(name, i, n, s), CharPos(t), name, 13 * (i - 1) + t)
  {
    LongChars(name, i, n, s, t);
    HighHere(name, i, n, s, t);
  }

  lemma {:induction false} HighHere(name: seq<byte>, i: nat, n: nat, s: byte, t: nat)
    requires 1 <= i <= n <= 19 && t < 13
    ensures LongOf(name, i, n, s)[CharPos(t) + 1] == CharHi(name, (i - 1) * 13 + t)
  {
  }

  lemma {:induction false} ShortIsFormat(short: seq<byte>, e: Entry)
    requires |short| == 11
    ensures ShortFormat(ShortOf(short, e), short, e.attribute, e.firstClus, e.fileSize)
  {
    var r: Rec := Splice(Zeros(32), 0, short);
    var q: Rec := r[11 := e.attribute];
    InfoRoundTrip(q, e.firstClus, e.fileSize);
    ShortOfIs(short, e);
  }

  /** What emake writes for a file is in that format. */
  lemma {:induction false} FileIsFormat(e: Entry)
    requires e.Good()
    ensures FileFormat(FileRecs(e), e)
  {
    var x, n := FileRecs(e), e.Longs();
    LongsBounds(e);
    FileRecIs(e, n);
    ShortIsFormat(ShortName(e.name), e);
    forall j | 0 <= j < n ensures LongFormat(x[j], e.name, n - j, n, Checksum(ShortName(e.name))) {
      NextIsFormat(e, j);
    }
  }

  lemma {:induction false} NextIsFormat(e: Entry, j: nat)
    requires 1 <= |e.name| <= 247 && j < e.Longs() <= 19
    ensures LongFormat(FileRecs(e)[j], e.name, e.Longs() - j, e.Longs(), Checksum(ShortName(e.name)))
  {
    FileRecIs(e, j);
    LongFileRec(e, j);
    LongIsFormat(FileRecs(e)[j], e.name, e.Longs() - j, e.Longs(), Checksum(ShortName(e.name)));
  }

  /** And so are the dot records. */
  lemma {:induction false} DotIsFormat(second: bool, firstClus: u32)
    ensures ShortFormat(DotRec(second, firstClus), [0x2E, if second then 0x2E else 0x20] + seq(9, _ => 0x20), 0x10,
                        firstClus, 0)
  {
    var e := Entry(DotName(second), ATTR_DIRECTORY, firstClus, 0);
    assert DotPadded(second) == [0x2E, if second then 0x2E else 0x20] + seq(9, _ => 0x20);
    ShortIsFormat(DotPadded(second), e);
  }

  /** A name, its short name and the sum of that: "a.txt" is "A       TXT". */
  lemma {:induction false} ShortNameVector()
    ensures ShortName([0x61, 0x2E, 0x74, 0x78, 0x74]) ==
            [0x41, 0x20, 0x20, 0x20, 0x20, 0x20, 0x20, 0x20, 0x54, 0x58, 0x54]
  {
    var name: seq<byte> := [0x61, 0x2E, 0x74, 0x78, 0x74];
    VectorDot(name);
    VectorKept();
    assert name[..1] == [0x61] && name[2..] == [0x74, 0x78, 0x74];
  }

  lemma {:induction false} VectorDot(name: seq<byte>)
    requires name == [0x61, 0x2E, 0x74, 0x78, 0x74]
    ensures LastDotOf(name) == 1
  {
    var d := LastDotOf(name);
    assert name[1] == DOT && name[0] != DOT && name[2] != DOT && name[3] != DOT && name[4] != DOT;
  }

  lemma {:induction false} VectorKept()
    ensures Kept([0x61]) == [0x41] && Kept([0x74, 0x78, 0x74]) == [0x54, 0x58, 0x54]
  {
    var a: seq<byte>, ext: seq<byte> := [0x61], [0x74, 0x78, 0x74];
    KeptMore(a, 0);
    KeptMore(ext, 0);
    KeptMore(ext, 1);
    KeptMore(ext, 2);
    assert a[..0] == [] && ext[..0] == [] && a[..1] == a && ext[..3] == ext;
  }

  /** Records that no driver takes for an entry are marked so. */
  lemma {:induction false} MarksAreFormat(r: Rec)
    ensures Live(r) <==> r[0] != 0 && r[0] != 0xE5
    ensures Erased(r) == r[0 := 0xE5]
    ensures IsLong(r) <==> r[0] != 0 && r[0] != 0xE5 && r[11] == 0x0F
  {
  }

  /** The attributes that keep a file from being written, and that make it a directory. */
  lemma {:induction false} AttributesAreFormat(e: Dirent, off: u32, n: nat)
    ensures WriteRefused(e, off, n) <==> off > e.fileSize || off + n > 0xFFFF_FFFF || e.attribute % 2 == 1
    ensures HasAttr(e.attribute, ATTR_DIRECTORY) <==> e.attribute / 0x10 % 2 == 1
  {
  }

  // ----- the table -----

  /** What reloc_clus takes for an end mark: it keeps entries in signed numbers. */
  lemma {:induction false} EndsAreFormat(x: u32)
    ensures IsEnd(x) <==> 0x0FFF_FFF8 <= x < 0x8000_0000
  {
  }

  /** The entries of a chain lead from each cluster to the next, and from the last to an end mark. */
  lemma {:induction false} ChainIsFormat(v: Vol, first: nat, ch: seq<nat>)
    requires Chain(v, first, ch)
    ensures forall i :: 0 <= i < |ch| ==> 2 <= ch[i] < |v.fat| && ch[0] == first
    ensures forall i :: 0 <= i < |ch| - 1 ==> v.fat[ch[i]] == ch[i + 1]
    ensures 0x0FFF_FFF8 <= v.fat[ch[|ch| - 1]] <= 0x0FFF_FFFF
  {
  }
}
