/** The sector layer of the FAT32 volume: FAT entries and data clusters laid out on 512-byte
    sectors, and the abstract volume (an array of entries, an array of clusters) that the
    layers above reason about. */
module FatSectors {
  import opened Bytes

  const FAT32_EOC := 0x0FFF_FFF8
  const FAT32_FEOC := 0x0FFF_FFFF
  const FAT32_BAD := 0x0FFF_FFF7
  /** FAT entries in one sector. */
  const ENT_PER_SEC := 128

  type Sector = s: seq<byte> | |s| == 512 witness seq(512, _ => 0)

  /** The boot-record numbers the driver uses; clusters is data_clus_cnt. */
  datatype Geometry = Geometry(rsvd: nat, fatCnt: nat, fatSz: nat, secPerClus: nat, clusters: nat, bytsPerClus: nat,
                               firstData: nat) {

    function Sectors(): nat {
      firstData + Span(clusters, secPerClus)
    }

    /** Numbers that a formatted volume has: one FAT at least, an entry for every cluster,
        cluster numbers below the bad-cluster mark, sector numbers within 32 bits. */
    predicate Good() {
      && 1 <= rsvd && 1 <= fatCnt && 1 <= secPerClus < 256 && bytsPerClus == secPerClus * 512
      && firstData == rsvd + Span(fatCnt, fatSz)
      && clusters + 2 <= fatSz * 128 && clusters + 1 < 0x0FFF_FFF7
      && Sectors() < 0x1_0000_0000
    }

    /** first_sec_of_clus */
    function FirstSec(c: nat): nat
      requires 2 <= c
    {
      (c - 2) * secPerClus + firstData
    }

    /** fat_sec_of_clus for the first FAT */
    function FatSec(c: nat): nat {
      rsvd + c * 4 / 512
    }

    /** fat_offset_of_clus */
    function FatOffset(c: nat): nat {
      c * 4 % 512
    }
  }

  /** What the sectors mean: the whole first FAT, and the bytes of cluster c at data[c]
      (data[0] and data[1] do not exist on the disk and are empty). */
  datatype Vol = Vol(fat: seq<u32>, data: seq<seq<byte>>)

  /** A disk that holds the volume, and perhaps more behind it. */
  ghost predicate DiskFits(g: Geometry, disk: seq<Sector>) {
    g.Good() && g.Sectors() <= |disk|
  }

  lemma {:induction false} FatPlace(g: Geometry, c: nat)
    requires g.Good() && c < g.fatSz * 128
    ensures g.FatSec(c) == g.rsvd + c / 128 < g.firstData <= g.Sectors()
    ensures g.FatOffset(c) == 4 * (c % 128) <= 508
  {
    assert c / 128 < g.fatSz;
    SpanMonotone(1, g.fatCnt, g.fatSz);
  }

  lemma {:induction false} ClusterPlace(g: Geometry, c: nat, k: nat)
    requires g.Good() && 2 <= c < g.clusters + 2 && k < g.secPerClus
    ensures g.firstData <= g.FirstSec(c) + k < g.Sectors()
  {
    SpanIsProduct(c - 2, g.secPerClus);
    SpanMonotone(c - 1, g.clusters, g.secPerClus);
  }

  /** Two different clusters share no sector. */
  lemma {:induction false} ClustersApart(g: Geometry, c: nat, k: nat, c': nat, k': nat)
    requires g.Good() && 2 <= c && 2 <= c' && k < g.secPerClus && k' < g.secPerClus
    requires g.FirstSec(c) + k == g.FirstSec(c') + k'
    ensures c == c' && k == k'
  {
    SpanIsProduct(c - 2, g.secPerClus);
    SpanIsProduct(c' - 2, g.secPerClus);
    if c < c' {
      SpanMonotone(c - 1, c' - 2, g.secPerClus);
    } else if c' < c {
      SpanMonotone(c' - 1, c - 2, g.secPerClus);
    }
  }

  ghost function Entry(g: Geometry, disk: seq<Sector>, c: nat): (e: u32)
    requires DiskFits(g, disk) && c < g.fatSz * 128
  {
    FatPlace(g, c);
    GetU32(disk[g.FatSec(c)], g.FatOffset(c))
  }

  ghost function ByteOf(g: Geometry, disk: seq<Sector>, c: nat, i: nat): (b: byte)
    requires DiskFits(g, disk) && 2 <= c < g.clusters + 2 && i < g.bytsPerClus
  {
    ClusterPlace(g, c, i / 512);
    disk[g.FirstSec(c) + i / 512][i % 512]
  }

  ghost function ClusterOf(g: Geometry, disk: seq<Sector>, c: nat): (s: seq<byte>)
    requires DiskFits(g, disk) && 2 <= c < g.clusters + 2
    ensures |s| == g.bytsPerClus
    ensures forall i :: 0 <= i < |s| ==> s[i] == ByteOf(g, disk, c, i)
  {
    seq(g.bytsPerClus, i requires 0 <= i < g.bytsPerClus => ByteOf(g, disk, c, i))
  }

  ghost function FatOf(g: Geometry, disk: seq<Sector>): (s: seq<u32>)
    requires DiskFits(g, disk)
    ensures |s| == g.fatSz * 128
    ensures forall c :: 0 <= c < |s| ==> s[c] == Entry(g, disk, c)
  {
    seq(g.fatSz * 128, c requires 0 <= c < g.fatSz * 128 => Entry(g, disk, c))
  }

  ghost function DataOf(g: Geometry, disk: seq<Sector>): (s: seq<seq<byte>>)
    requires DiskFits(g, disk)
    ensures |s| == g.clusters + 2
    ensures forall c :: 2 <= c < |s| ==> s[c] == ClusterOf(g, disk, c)
    ensures s[0] == [] && s[1] == []
  {
    seq(g.clusters + 2, c requires 0 <= c < g.clusters + 2 => if c < 2 then [] else ClusterOf(g, disk, c))
  }

  ghost function VolOf(g: Geometry, disk: seq<Sector>): (v: Vol)
    requires DiskFits(g, disk)
  {
    Vol(FatOf(g, disk), DataOf(g, disk))
  }

  /** The sectors behind the tables are the bytes of the clusters in order, from cluster 2 on. */
  lemma {:induction false} SectorsInOrder(g: Geometry, disk: seq<Sector>, s: nat, i: nat)
    requires DiskFits(g, disk) && s < Span(g.clusters, g.secPerClus) && i < 512
    ensures var c, o := 2 + s / g.secPerClus, 512 * (s % g.secPerClus) + i;
            c < g.clusters + 2 && o < g.bytsPerClus && DataOf(g, disk)[c][o] == disk[g.firstData + s][i]
  {
    var q, k := s / g.secPerClus, s % g.secPerClus;
    SpanDiv(s, g.secPerClus);
    SpanIsProduct(q, g.secPerClus);
    if g.clusters <= q {
      SpanMonotone(g.clusters, q, g.secPerClus);
    }
    ClusterPlace(g, 2 + q, k);
    assert (512 * k + i) / 512 == k && (512 * k + i) % 512 == i;
  }

  /** And the first table is the entries in order, four bytes each, low byte first. */
  lemma {:induction false} EntriesInOrder(g: Geometry, disk: seq<Sector>, c: nat)
    requires DiskFits(g, disk) && c < g.fatSz * 128
    ensures g.rsvd + c / 128 < |disk|
    ensures var s, o := disk[g.rsvd + c / 128], c % 128 * 4;
            var b0: int, b1: int, b2: int, b3: int := s[o], s[o + 1], s[o + 2], s[o + 3];
            FatOf(g, disk)[c] == b0 + 0x100 * b1 + 0x1_0000 * b2 + 0x100_0000 * b3
  {
    FatPlace(g, c);
  }

  /** Storing one FAT entry changes that entry of the abstract volume and nothing else. */
  lemma {:induction false} EntryWritten(g: Geometry, disk: seq<Sector>, c: nat, w: u32, disk': seq<Sector>)
    requires DiskFits(g, disk) && c < g.fatSz * 128
    requires g.FatSec(c) < |disk| && g.FatOffset(c) + 4 <= 512
    requires disk' == disk[g.FatSec(c) := Splice(disk[g.FatSec(c)], g.FatOffset(c), U32Bytes(w))]
    ensures DiskFits(g, disk')
    ensures VolOf(g, disk') == VolOf(g, disk).(fat := FatOf(g, disk)[c := w])
  {
    FatPlace(g, c);
    forall k | 0 <= k < g.fatSz * 128
      ensures Entry(g, disk', k) == FatOf(g, disk)[c := w][k]
    {
      FatPlace(g, k);
      if k == c {
        U32RoundTrip(disk[g.FatSec(c)], g.FatOffset(c), w);
      } else if g.FatSec(k) == g.FatSec(c) {
        U32Elsewhere(disk[g.FatSec(c)], g.FatOffset(c), w, g.FatOffset(k));
      }
    }
    assert FatOf(g, disk') == FatOf(g, disk)[c := w];
    DataBelow(g, disk, disk', g.FatSec(c));
  }

  /** A sector below the data area holds no cluster bytes. */
  lemma {:induction false} DataBelow(g: Geometry, disk: seq<Sector>, disk': seq<Sector>, s: nat)
    requires |disk'| == |disk|
    requires DiskFits(g, disk) && DiskFits(g, disk') && s < g.firstData
    requires forall t :: 0 <= t < |disk| && t != s ==> disk'[t] == disk[t]
    ensures DataOf(g, disk') == DataOf(g, disk)
  {
    forall c, i | 2 <= c < g.clusters + 2 && 0 <= i < g.bytsPerClus
      ensures ByteOf(g, disk', c, i) == ByteOf(g, disk, c, i)
    {
      ClusterPlace(g, c, i / 512);
    }
    forall c | 2 <= c < g.clusters + 2
      ensures ClusterOf(g, disk', c) == ClusterOf(g, disk, c)
    {
    }
  }

  /** Copying bytes into sector k of cluster c is a copy into that cluster of the abstract
      volume, and changes no FAT entry and no other cluster. */
  lemma {:induction false} SectorWritten(g: Geometry, disk: seq<Sector>, c: nat, k: nat, o: nat, x: seq<byte>,
                                         disk': seq<Sector>)
    requires DiskFits(g, disk) && 2 <= c < g.clusters + 2 && k < g.secPerClus && o + |x| <= 512
    requires g.FirstSec(c) + k < |disk|
    requires disk' == disk[g.FirstSec(c) + k := Splice(disk[g.FirstSec(c) + k], o, x)]
    ensures DiskFits(g, disk')
    ensures 512 * k + o + |x| <= g.bytsPerClus
    ensures VolOf(g, disk') ==
            VolOf(g, disk).(data := DataOf(g, disk)[c := Splice(ClusterOf(g, disk, c), 512 * k + o, x)])
  {
    ClusterPlace(g, c, k);
    forall e | 0 <= e < g.fatSz * 128
      ensures Entry(g, disk', e) == Entry(g, disk, e)
    {
      FatPlace(g, e);
    }
    assert FatOf(g, disk') == FatOf(g, disk);
    forall d | 2 <= d < g.clusters + 2
      ensures ClusterOf(g, disk', d) == DataOf(g, disk)[c := Splice(ClusterOf(g, disk, c), 512 * k + o, x)][d]
    {
      ClusterAfterWrite(g, disk, c, k, o, x, disk', d);
    }
    assert DataOf(g, disk') == DataOf(g, disk)[c := Splice(ClusterOf(g, disk, c), 512 * k + o, x)];
  }

  lemma {:induction false} ClusterAfterWrite(g: Geometry, disk: seq<Sector>, c: nat, k: nat, o: nat, x: seq<byte>,
                                             disk': seq<Sector>, d: nat)
    requires DiskFits(g, disk) && DiskFits(g, disk')
    requires 2 <= c < g.clusters + 2 && k < g.secPerClus && o + |x| <= 512
    requires g.FirstSec(c) + k < |disk|
    requires disk' == disk[g.FirstSec(c) + k := Splice(disk[g.FirstSec(c) + k], o, x)]
    requires 2 <= d < g.clusters + 2
    ensures 512 * k + o + |x| <= g.bytsPerClus
    ensures ClusterOf(g, disk', d) ==
            if d == c then Splice(ClusterOf(g, disk, c), 512 * k + o, x) else ClusterOf(g, disk, d)
  {
    forall i | 0 <= i < g.bytsPerClus
      ensures ByteOf(g, disk', d, i) ==
              if d == c && 512 * k + o <= i < 512 * k + o + |x| then x[i - 512 * k - o] else ByteOf(g, disk, d, i)
    {
      ByteAfterWrite(g, disk, c, k, o, x, disk', d, i);
    }
  }

  lemma {:induction false} ByteAfterWrite(g: Geometry, disk: seq<Sector>, c: nat, k: nat, o: nat, x: seq<byte>,
                                          disk': seq<Sector>, d: nat, i: nat)
    requires DiskFits(g, disk) && DiskFits(g, disk')
    requires 2 <= c < g.clusters + 2 && k < g.secPerClus && o + |x| <= 512
    requires g.FirstSec(c) + k < |disk|
    requires disk' == disk[g.FirstSec(c) + k := Splice(disk[g.FirstSec(c) + k], o, x)]
    requires 2 <= d < g.clusters + 2 && i < g.bytsPerClus
    ensures ByteOf(g, disk', d, i) ==
            if d == c && 512 * k + o <= i < 512 * k + o + |x| then x[i - 512 * k - o] else ByteOf(g, disk, d, i)
  {
    ClusterPlace(g, d, i / 512);
    var s, t := g.FirstSec(c) + k, g.FirstSec(d) + i / 512;
    if t == s {
      ClustersApart(g, d, i / 512, c, k);
    } else {
      assert disk'[t] == disk[t];
      assert d == c ==> i / 512 != k;
    }
  }

  /** A sector of a cluster past the last one lies behind the volume. */
  lemma {:induction false} PastVolume(g: Geometry, disk: seq<Sector>, c: nat, i: nat, disk': seq<Sector>)
    requires DiskFits(g, disk) && g.clusters + 2 <= c && |disk'| == |disk|
    requires forall s :: 0 <= s < |disk| && s != g.FirstSec(c) + i ==> disk'[s] == disk[s]
    ensures DiskFits(g, disk') && VolOf(g, disk') == VolOf(g, disk)
  {
    SpanIsProduct(c - 2, g.secPerClus);
    SpanMonotone(g.clusters, c - 2, g.secPerClus);
    forall e | 0 <= e < g.fatSz * 128 ensures Entry(g, disk', e) == Entry(g, disk, e) {
      FatPlace(g, e);
    }
    assert FatOf(g, disk') == FatOf(g, disk);
    forall d | 2 <= d < g.clusters + 2 ensures ClusterOf(g, disk', d) == ClusterOf(g, disk, d) {
      forall k | 0 <= k < g.bytsPerClus ensures ByteOf(g, disk', d, k) == ByteOf(g, disk, d, k) {
        ClusterPlace(g, d, k / 512);
      }
    }
    assert DataOf(g, disk') == DataOf(g, disk);
  }

  // ----- the offset -1 -----

  /** Sectors from the start of a cluster to the one of its byte 2^32 - 1. */
  const STRAY := 0xFFFF_FFFF / 512

  /** A copy into a sector, or none if the disk does not have it. */
  ghost function Poked(disk: seq<Sector>, s: nat, o: nat, x: seq<byte>): (r: seq<Sector>)
    requires o + |x| <= 512
    ensures |r| == |disk| && forall q :: 0 <= q < |disk| && q != s ==> r[q] == disk[q]
  {
    if s < |disk| then disk[s := Splice(disk[s], o, x)] else disk
  }

  /** A copy that starts with the last byte of sector s. */
  ghost function Strayed(disk: seq<Sector>, s: nat, x: seq<byte>): (r: seq<Sector>)
    requires 1 <= |x| <= 513
    ensures |r| == |disk| && forall q :: 0 <= q < |disk| && q != s && q != s + 1 ==> r[q] == disk[q]
  {
    Poked(Poked(disk, s, 511, x[..1]), s + 1, 0, x[1..])
  }

  /** What a write with offset -1 leaves alone: the table, and the clusters without one of its sectors. */
  ghost predicate OnlyStray(g: Geometry, v: Vol, v': Vol, s: nat) {
    && v'.fat == v.fat && |v'.data| == |v.data|
    && forall d :: 2 <= d < |v.data| && !InCluster(g, d, s) && !InCluster(g, d, s + 1) ==> v'.data[d] == v.data[d]
  }

  lemma {:induction false} StrayVolume(g: Geometry, disk: seq<Sector>, c: nat, s: nat, x: seq<byte>)
    requires DiskFits(g, disk) && 2 <= c < g.clusters + 2 && s == g.FirstSec(c) + STRAY && 1 <= |x| <= 513
    ensures DiskFits(g, Strayed(disk, s, x)) && OnlyStray(g, VolOf(g, disk), VolOf(g, Strayed(disk, s, x)), s)
  {
    ClusterPlace(g, c, 0);
    OtherClusters(g, disk, Strayed(disk, s, x), s);
  }

  lemma {:induction false} StrayRounds(disk: seq<Sector>, s: nat, x: seq<byte>)
    requires 1 <= |x| <= 513
    ensures x[0..1] == x[..1] && x[1..1 + (|x| - 1)] == x[1..]
    ensures |x| == 1 ==> Strayed(disk, s, x) == Poked(disk, s, 511, x[..1])
  {
    if |x| == 1 {
      var d := Poked(disk, s, 511, x[..1]);
      assert x[1..] == [];
      assert s + 1 < |d| ==> Splice(d[s + 1], 0, []) == d[s + 1];
    }
  }

  /** What is read from there; of a sector that the disk does not have nothing is known, and what is made
      of it goes nowhere else. */
  ghost function StrayBytes(disk: seq<Sector>, s: nat, n: nat): (x: seq<byte>)
    requires 1 <= n <= 513
    ensures |x| == n
  {
    (if s < |disk| then disk[s][511..] else [0]) + if s + 1 < |disk| then disk[s + 1][..n - 1] else Zeros(n - 1)
  }

  lemma {:induction false} SliceMore<T>(d: seq<T>, a: nat, b: nat, c: nat)
    requires a <= b <= c <= |d|
    ensures d[a..b] + d[b..c] == d[a..c]
  {
  }

  /** A last byte and a front. */
  lemma {:induction false} StrayParts(disk: seq<Sector>, s: nat, n: nat)
    requires 1 <= n <= 513
    ensures [] + (if s < |disk| then disk[s] else Zeros(512))[511..512] == StrayBytes(disk, s, n)[..1]
    ensures StrayBytes(disk, s, n)[..1] + (if s + 1 < |disk| then disk[s + 1] else Zeros(512))[0..n - 1] ==
            StrayBytes(disk, s, n)[..n]
  {
  }

  ghost predicate InCluster(g: Geometry, c: nat, s: nat)
    requires 2 <= c
  {
    g.FirstSec(c) <= s < g.FirstSec(c) + g.secPerClus
  }

  /** Sectors of the data area that change leave the table and every other cluster alone. */
  lemma {:induction false} OtherClusters(g: Geometry, disk: seq<Sector>, disk': seq<Sector>, s: nat)
    requires DiskFits(g, disk) && |disk'| == |disk| && g.firstData <= s
    requires forall q :: 0 <= q < |disk| && q != s && q != s + 1 ==> disk'[q] == disk[q]
    ensures DiskFits(g, disk') && FatOf(g, disk') == FatOf(g, disk)
    ensures forall c :: 2 <= c < g.clusters + 2 && !InCluster(g, c, s) && !InCluster(g, c, s + 1) ==>
              DataOf(g, disk')[c] == DataOf(g, disk)[c]
  {
    forall e | 0 <= e < g.fatSz * 128 ensures Entry(g, disk', e) == Entry(g, disk, e) {
      FatPlace(g, e);
    }
    forall c | 2 <= c < g.clusters + 2 && !InCluster(g, c, s) && !InCluster(g, c, s + 1)
      ensures ClusterOf(g, disk', c) == ClusterOf(g, disk, c)
    {
      forall i | 0 <= i < g.bytsPerClus ensures ByteOf(g, disk', c, i) == ByteOf(g, disk, c, i) {
        ClusterPlace(g, c, i / 512);
      }
    }
  }

  /** A sector behind the volume is in none of its clusters. */
  lemma {:induction false} BehindVolume(g: Geometry, c: nat, s: nat)
    requires g.Good() && 2 <= c < g.clusters + 2 && g.Sectors() <= s
    ensures !InCluster(g, c, s)
  {
    SpanIsProduct(c - 2, g.secPerClus);
    SpanMonotone(c - 1, g.clusters, g.secPerClus);
  }

  /** Bytes read from sector k of cluster c are a slice of that cluster. */
  lemma {:induction false} SectorSlice(g: Geometry, disk: seq<Sector>, c: nat, k: nat, o: nat, m: nat)
    requires DiskFits(g, disk) && 2 <= c < g.clusters + 2 && k < g.secPerClus && o + m <= 512
    ensures g.FirstSec(c) + k < |disk| && 512 * k + o + m <= g.bytsPerClus
    ensures disk[g.FirstSec(c) + k][o..o + m] == ClusterOf(g, disk, c)[512 * k + o..512 * k + o + m]
  {
    ClusterPlace(g, c, k);
    var a, b := disk[g.FirstSec(c) + k][o..o + m], ClusterOf(g, disk, c)[512 * k + o..512 * k + o + m];
    forall i | 0 <= i < m ensures a[i] == b[i] {
      var p := 512 * k + o + i;
      assert p / 512 == k && p % 512 == o + i;
    }
  }

  /** A round that reaches the end of a sector leaves the next round at the start of the next one. */
  lemma {:induction false} NextSector(off: nat)
    ensures 0 < 512 - off % 512 <= 512 && (off + (512 - off % 512)) % 512 == 0
  {
    assert off + (512 - off % 512) == 512 * (off / 512 + 1);
  }

  /** Entry j of the i-th table sector is entry 128 i + j of the table. */
  lemma {:induction false} TableEntry(g: Geometry, disk: seq<Sector>, i: nat, j: nat)
    requires DiskFits(g, disk) && i < g.fatSz && j < 128
    ensures i * 128 + j < |FatOf(g, disk)| && g.rsvd + i < |disk|
    ensures g.FatSec(i * 128 + j) == g.rsvd + i && g.FatOffset(i * 128 + j) == j * 4
    ensures GetU32(disk[g.rsvd + i], j * 4) == FatOf(g, disk)[i * 128 + j]
  {
    FatPlace(g, i * 128 + j);
  }

  /** The least free entry of a FAT, or |fat| when every entry is taken. */
  ghost function FirstFree(fat: seq<u32>): (c: nat)
    ensures c <= |fat| && (forall i :: 0 <= i < c ==> fat[i] != 0) && (c < |fat| ==> fat[c] == 0)
  {
    FirstFreeFrom(fat, 0)
  }

  ghost function FirstFreeFrom(fat: seq<u32>, k: nat): (c: nat)
    requires k <= |fat| && forall i :: 0 <= i < k ==> fat[i] != 0
    ensures k <= c <= |fat| && (forall i :: 0 <= i < c ==> fat[i] != 0) && (c < |fat| ==> fat[c] == 0)
    decreases |fat| - k
  {
    if k == |fat| || fat[k] == 0 then k else FirstFreeFrom(fat, k + 1)
  }

  ghost predicate OpenDisk(k: Key) {
    true
  }

  /** The mounted volume: the driver's static fat structure and the disk under it. vol is what the
      sectors of disk mean; Valid keeps that fact behind OpenDisk, so that the layers above, which
      only need vol, do not look into sectors. */
  class FatVolume {
    const g: Geometry
    var disk: seq<Sector>
    ghost var vol: Vol

    constructor (geometry: Geometry, sectors: seq<Sector>)
      requires DiskFits(geometry, sectors)
      ensures Valid() && g == geometry && disk == sectors && vol == VolOf(g, disk)
    {
      g := geometry;
      disk := sectors;
      vol := VolOf(geometry, sectors);
    }

    ghost predicate Valid()
      reads this
    {
      && |vol.fat| == g.fatSz * 128 && |vol.data| == g.clusters + 2 <= |vol.fat|
      && forall k: Key {:trigger OpenDisk(k)} :: OpenDisk(k) ==> DiskFits(g, disk) && vol == VolOf(g, disk)
    }

    /** What Valid says about the sectors. */
    lemma {:induction false} Sectors()
      requires Valid()
      ensures DiskFits(g, disk) && vol == VolOf(g, disk)
      ensures forall c :: 2 <= c < |vol.data| ==> |vol.data[c]| == g.bytsPerClus
    {
      assert OpenDisk(Key);
    }

    /** A cluster has the bytes of a cluster. */
    lemma {:induction false} ClusterSize(c: nat)
      requires Valid() && 2 <= c < |vol.data|
      ensures |vol.data[c]| == g.bytsPerClus
    {
      Sectors();
    }

    lemma {:induction false} Shape()
      requires Valid()
      ensures g.bytsPerClus == g.secPerClus * 512 && g.bytsPerClus % 32 == 0
    {
      Sectors();
      assert g.bytsPerClus == 32 * (g.secPerClus * 16);
    }

    /** Entry j of the i-th sector of the table. */
    lemma {:induction false} EntryAt(i: nat, j: nat)
      requires Valid() && i < g.fatSz && j < 128
      ensures i * 128 + j < |vol.fat| && g.rsvd + i < |disk|
      ensures g.FatSec(i * 128 + j) == g.rsvd + i && g.FatOffset(i * 128 + j) == j * 4
      ensures GetU32(disk[g.rsvd + i], j * 4) == vol.fat[i * 128 + j]
    {
      Sectors();
      TableEntry(g, disk, i, j);
    }

    /** read_fat */
    method ReadFat(c: u32) returns (r: u32)
      requires Valid()
      ensures r == if c >= FAT32_EOC then c else if c >= |vol.data| then 0 else vol.fat[c]
    {
      if c >= FAT32_EOC {
        return c;
      }
      if c > g.clusters + 1 {
        return 0;
      }
      Sectors();
      FatPlace(g, c);
      r := GetU32(disk[g.FatSec(c)], g.FatOffset(c));
    }

    /** Store one entry at byte o of the table sector sec. */
    method PutEntry(ghost c: nat, sec: nat, o: nat, w: u32)
      requires Valid() && c < |vol.fat| && sec == g.FatSec(c) && o == g.FatOffset(c)
      modifies this
      ensures Valid()
      ensures vol == old(vol).(fat := old(vol).fat[c := w])
    {
      Sectors();
      FatPlace(g, c);
      var b: Sector := Splice(disk[sec], o, U32Bytes(w));
      ghost var was := disk;
      disk := disk[sec := b];
      EntryWritten(g, was, c, w, disk);
      vol := VolOf(g, disk);
    }

    /** write_fat */
    method WriteFat(c: u32, content: u32) returns (r: int)
      requires Valid()
      modifies this
      ensures Valid()
      ensures c >= |old(vol).data| ==> r == -1 && vol == old(vol)
      ensures c < |old(vol).data| ==> r == 0 && vol == old(vol).(fat := old(vol).fat[c := content])
    {
      if c > g.clusters + 1 {
        return -1;
      }
      PutEntry(c, g.FatSec(c), g.FatOffset(c), content);
      r := 0;
    }

    /** zero_clus; past the last cluster it clears sectors behind the volume. */
    method ZeroClus(c: nat)
      requires Valid() && 2 <= c
      modifies this
      ensures Valid()
      ensures vol == if c < |old(vol).data| then old(vol).(data := old(vol).data[c := Zeros(g.bytsPerClus)])
              else old(vol)
    {
      Shape();
      Sectors();
      var sec := g.FirstSec(c);
      var i := 0;
      ghost var d := vol.data;
      assert c < |d| ==> Splice(d[c], 0, []) == d[c];
      while i < g.secPerClus
        invariant 0 <= i <= g.secPerClus && sec == g.FirstSec(c) + i && Valid()
        invariant 512 * i <= g.bytsPerClus && (c < |d| ==> |d[c]| == g.bytsPerClus)
        invariant vol == if c < |d| then old(vol).(data := d[c := Splice(d[c], 0, Zeros(512 * i))]) else old(vol)
      {
        ZeroSector(c, i, sec, d);
        sec := sec + 1;
        i := i + 1;
      }
      assert c < |d| ==> Splice(d[c], 0, Zeros(512 * i)) == Zeros(g.bytsPerClus);
    }

    /** One round of zero_clus. A sector that the disk does not have is not changed. */
    method ZeroSector(ghost c: nat, ghost i: nat, sec: nat, ghost d: seq<seq<byte>>)
      requires Valid() && 2 <= c && i < g.secPerClus && sec == g.FirstSec(c) + i && |d| == |vol.data|
      requires c < |d| ==> |d[c]| == g.bytsPerClus && 512 * i <= |d[c]|
      requires c < |d| ==> vol.data == d[c := Splice(d[c], 0, Zeros(512 * i))]
      modifies this
      ensures Valid() && vol.fat == old(vol).fat
      ensures 512 * (i + 1) <= g.bytsPerClus
      ensures vol.data == if c < |d| then d[c := Splice(d[c], 0, Zeros(512 * (i + 1)))] else old(vol).data
    {
      Sectors();
      Shape();
      assert 512 * (i + 1) <= 512 * g.secPerClus;
      ghost var was := disk;
      if sec < |disk| {
        disk := disk[sec := Zeros(512)];
        assert Splice(was[sec], 0, Zeros(512)) == Zeros(512);
      }
      if c < |d| {
        ClusterPlace(g, c, i);
        SectorWritten(g, was, c, i, 0, Zeros(512), disk);
        SpliceAppend(d[c], 0, Zeros(512 * i), Zeros(512));
        assert Zeros(512 * i) + Zeros(512) == Zeros(512 * (i + 1));
      } else {
        PastVolume(g, was, c, i, disk);
      }
      vol := VolOf(g, disk);
    }

    /** alloc_clus: takes the least free entry of the table, marks it as an end of chain and
        clears its cluster; 1 when the table is full. The table may hold entries past the last
        cluster, which are handed out like the others. */
    method AllocClus() returns (c: nat)
      requires Valid() && 2 <= FirstFree(vol.fat)
      requires |vol.data| <= FirstFree(vol.fat) < |vol.fat| ==>
                g.FirstSec(FirstFree(vol.fat)) + g.secPerClus <= U32_LIMIT
      modifies this
      ensures Valid()
      ensures FirstFree(old(vol).fat) == |old(vol).fat| ==> c == 1 && vol == old(vol)
      ensures FirstFree(old(vol).fat) < |old(vol).fat| ==>
                && c == FirstFree(old(vol).fat) && vol.fat == old(vol).fat[c := 0x0FFF_FFFF]
                && vol.data == if c < |old(vol).data| then old(vol).data[c := Zeros(g.bytsPerClus)] else old(vol).data
    {
      var sec := g.rsvd;
      ghost var fat := vol.fat;
      var i := 0;
      while i < g.fatSz
        invariant 0 <= i <= g.fatSz && sec == g.rsvd + i
        invariant Valid() && disk == old(disk) && vol == old(vol)
        invariant forall e :: 0 <= e < i * 128 ==> fat[e] != 0
      {
        EntryAt(i, 0);
        var b := disk[sec];
        var j := 0;
        while j < ENT_PER_SEC
          invariant 0 <= j <= 128
          invariant Valid() && disk == old(disk) && vol == old(vol)
          invariant forall e :: 0 <= e < i * 128 + j ==> fat[e] != 0
        {
          EntryAt(i, j);
          if GetU32(b, j * 4) == 0 {
            c := i * 128 + j;
            PutEntry(c, sec, j * 4, FAT32_FEOC);
            ZeroClus(c);
            return;
          }
          j := j + 1;
        }
        sec := sec + 1;
        i := i + 1;
      }
      c := 1;
    }

    /** One round of the write loop: read sector sec, copy into it, write it back. */
    method PutSector(ghost c: nat, ghost k: nat, sec: nat, o: nat, x: seq<byte>)
      requires Valid() && 2 <= c < |vol.data| && k < g.secPerClus
      requires sec == g.FirstSec(c) + k && o + |x| <= 512
      modifies this
      ensures Valid()
      ensures 512 * k + o + |x| <= |old(vol).data[c]|
      ensures vol == old(vol).(data := old(vol).data[c := Splice(old(vol).data[c], 512 * k + o, x)])
    {
      Sectors();
      ClusterPlace(g, c, k);
      ghost var was := disk;
      disk := disk[sec := Splice(disk[sec], o, x)];
      SectorWritten(g, was, c, k, o, x, disk);
      vol := VolOf(g, disk);
    }

    /** One round of the read loop. */
    method GetSector(ghost c: nat, ghost k: nat, sec: nat, o: nat, m: nat) returns (x: seq<byte>)
      requires Valid() && 2 <= c < |vol.data| && k < g.secPerClus
      requires sec == g.FirstSec(c) + k && o + m <= 512
      ensures 512 * k + o + m <= |vol.data[c]|
      ensures x == vol.data[c][512 * k + o..512 * k + o + m]
    {
      Sectors();
      SectorSlice(g, disk, c, k, o, m);
      x := disk[sec][o..o + m];
    }

    /** rw_clus with write set: n = |src| bytes go to offset off of cluster c, sector by sector. */
    method WriteClus(c: nat, start: nat, src: seq<byte>)
      requires Valid() && 2 <= c < |vol.data|
      requires start + |src| <= g.bytsPerClus
      modifies this
      ensures Valid() && |old(vol).data[c]| == g.bytsPerClus
      ensures vol == old(vol).(data := old(vol).data[c := Splice(old(vol).data[c], start, src)])
    {
      Shape();
      ClusterSize(c);
      var sec := g.FirstSec(c) + start / 512;
      var off: nat := start % 512;
      ghost var k: nat := start / 512;
      var tot, n := 0, |src|;
      ghost var d := vol.data;
      assert Splice(d[c], start, src[..0]) == d[c];
      while tot < n
        invariant 0 <= tot <= n && Valid()
        invariant tot < n ==> sec == g.FirstSec(c) + k && start + tot == 512 * k + off % 512
        invariant vol == old(vol).(data := d[c := Splice(d[c], start, src[..tot])])
      {
        var m := 512 - off % 512;
        NextSector(off);
        if n - tot < m {
          m := n - tot;
        }
        PutSector(c, k, sec, off % 512, src[tot..tot + m]);
        SpliceAppend(d[c], start, src[..tot], src[tot..tot + m]);
        assert src[..tot] + src[tot..tot + m] == src[..tot + m];
        tot, off, sec, k := tot + m, off + m, sec + 1, k + 1;
      }
      assert src[..tot] == src;
    }

    /** rw_clus without write: n bytes from offset off of cluster c, sector by sector. */
    method ReadClus(c: nat, start: nat, n: nat) returns (out: seq<byte>)
      requires Valid() && 2 <= c < |vol.data|
      requires start + n <= g.bytsPerClus
      ensures |vol.data[c]| == g.bytsPerClus && out == vol.data[c][start..start + n]
    {
      Shape();
      ClusterSize(c);
      var sec := g.FirstSec(c) + start / 512;
      var off: nat := start % 512;
      ghost var k: nat := start / 512;
      var tot := 0;
      ghost var d := vol.data[c];
      out := [];
      while tot < n
        invariant 0 <= tot <= n
        invariant tot < n ==> sec == g.FirstSec(c) + k && start + tot == 512 * k + off % 512
        invariant out == d[start..start + tot]
      {
        var m := 512 - off % 512;
        NextSector(off);
        if n - tot < m {
          m := n - tot;
        }
        var piece := GetSector(c, k, sec, off % 512, m);
        out := out + piece;
        SliceMore(d, start, start + tot, start + tot + m);
        tot, off, sec, k := tot + m, off + m, sec + 1, k + 1;
      }
    }

    /** rw_clus with write set and offset -1, which passes its range test as the sum wraps. */
    method WriteStray(c: nat, src: seq<byte>)
      requires Valid() && 2 <= c < |vol.data| && 1 <= |src| <= 512
      requires g.FirstSec(c) + STRAY + 1 < U32_LIMIT
      modifies this
      ensures Valid() && disk == Strayed(old(disk), g.FirstSec(c) + STRAY, src)
      ensures OnlyStray(g, old(vol), vol, g.FirstSec(c) + STRAY)
    {
      StrayPasses(|src|);
      Sectors();
      ghost var was, s := disk, g.FirstSec(c) + STRAY;
      disk := StrayLoop(disk, g.FirstSec(c), src);
      StrayVolume(g, was, c, s, src);
      vol := VolOf(g, disk);
    }

    /** The range test, on the sum in 32 bits. */
    lemma {:induction false} StrayPasses(n: nat)
      requires Valid() && 1 <= n <= 512
      ensures (0xFFFF_FFFF + n) % U32_LIMIT == n - 1 <= g.bytsPerClus
    {
      Shape();
      Sectors();
    }

    /** The write loop from offset -1 of a cluster that starts at sector first. */
    method StrayLoop(was: seq<Sector>, first: nat, src: seq<byte>) returns (d: seq<Sector>)
      requires 1 <= |src| <= 512
      ensures d == Strayed(was, first + STRAY, src)
    {
      ghost var s := first + STRAY;
      var sec, off, tot, n := first + 0xFFFF_FFFF / 512, 0xFFFF_FFFF % 512, 0, |src|;
      d := was;
      StrayRounds(was, s, src);
      while tot < n
        invariant tot == 0 || tot == 1 || tot == n
        invariant tot == 0 ==> sec == s && off == 511 && d == was
        invariant tot == 1 ==> sec == s + 1 && off == 512 && d == Poked(was, s, 511, src[..1])
        invariant tot > 1 ==> d == Poked(Poked(was, s, 511, src[..1]), s + 1, 0, src[1..])
      {
        var m := 512 - off % 512;
        if n - tot < m {
          m := n - tot;
        }
        d := PutStray(d, sec, off % 512, src[tot..tot + m]);
        tot, off, sec := tot + m, off + m, sec + 1;
      }
    }

    /** One round of the write loop. */
    method PutStray(d: seq<Sector>, sec: nat, o: nat, x: seq<byte>) returns (r: seq<Sector>)
      requires o + |x| <= 512
      ensures r == Poked(d, sec, o, x)
    {
      r := d;
      if sec < |d| {
        r := d[sec := Splice(d[sec], o, x)];
      }
    }

    /** rw_clus without write and with offset -1. */
    method ReadStray(c: nat, n: nat) returns (out: seq<byte>)
      requires Valid() && 2 <= c < |vol.data| && 1 <= n <= 512
      requires g.FirstSec(c) + STRAY + 1 < U32_LIMIT
      ensures out == StrayBytes(disk, g.FirstSec(c) + STRAY, n)
    {
      ghost var s := g.FirstSec(c) + STRAY;
      var sec, off, tot := g.FirstSec(c) + 0xFFFF_FFFF / 512, 0xFFFF_FFFF % 512, 0;
      out := [];
      while tot < n
        invariant tot == |out| && (tot == 0 || tot == 1 || tot == n)
        invariant tot == 0 ==> sec == s && off == 511
        invariant tot == 1 ==> sec == s + 1 && off == 512
        invariant tot > 0 ==> out == StrayBytes(disk, s, n)[..tot]
      {
        StrayParts(disk, s, n);
        var m := 512 - off % 512;
        if n - tot < m {
          m := n - tot;
        }
        var b := if sec < |disk| then disk[sec] else Zeros(512);
        out := out + b[off % 512..off % 512 + m];
        tot, off, sec := tot + m, off + m, sec + 1;
      }
    }
  }
}
