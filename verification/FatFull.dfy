/** A cluster too many: what reloc_clus does to a file when the volume has no cluster left for it. */
module FatFull {
  import opened Bytes
  import opened FatSectors
  import opened FatChains
  import opened FatFiles

  /** Not the number of a cluster, and not what reloc_clus takes for an end mark either. */
  ghost predicate NoCluster(v: Vol, x: nat) {
    SIGN <= x || (x < FAT32_EOC && (x < 2 || |v.data| <= x))
  }

  /** The FAT leads from first through ch to a number that is no cluster. */
  ghost predicate Dangling(v: Vol, first: nat, ch: seq<nat>) {
    && |v.data| <= |v.fat|
    && 0 < |ch| && ch[0] == first
    && (forall i :: 0 <= i < |ch| ==> 2 <= ch[i] < |v.data|)
    && (forall i {:trigger v.fat[ch[i]]} :: 0 <= i < |ch| - 1 ==> v.fat[ch[i]] == ch[i + 1])
    && NoCluster(v, v.fat[ch[|ch| - 1]])
  }

  /** A file whose clusters lead there has no chain any more. */
  lemma {:induction false} NoChain(v: Vol, first: nat, ch: seq<nat>)
    requires Dangling(v, first, ch) && |v.data| <= FAT32_BAD
    ensures forall o :: !Chain(v, first, o)
  {
    forall o ensures !Chain(v, first, o) {
      if Chain(v, first, o) {
        SameWay(v, first, ch, o, if |o| < |ch| then |o| else |ch|);
      }
    }
  }

  lemma {:induction false} SameWay(v: Vol, first: nat, ch: seq<nat>, o: seq<nat>, n: nat)
    requires Dangling(v, first, ch) && Chain(v, first, o) && n <= |o| && n <= |ch|
    ensures forall i :: 0 <= i < n ==> o[i] == ch[i]
  {
    if n > 1 {
      SameWay(v, first, ch, o, n - 1);
      assert v.fat[o[n - 2]] == o[n - 1] && v.fat[ch[n - 2]] == ch[n - 1];
    }
  }

  /** The two entries before the first cluster, as formatted or written over by numbers of no cluster. */
  ghost predicate Reserved(v: Vol) {
    && 2 <= |v.fat| && v.fat[0] != 0 && v.fat[1] != 0
    && (FAT32_EOC <= v.fat[0] || NoCluster(v, v.fat[0])) && (FAT32_EOC <= v.fat[1] || NoCluster(v, v.fat[1]))
  }

  /** No cluster is free, the file dangles and the cursor is on no cluster. */
  ghost predicate Broken(v: Vol, first: nat, ch: seq<nat>, cur: nat) {
    Dangling(v, first, ch) && Reserved(v) && FreeSet(v) == {} && NoCluster(v, cur)
  }

  ghost predicate OpenTable(k: Key) {
    true
  }

  /** The table has no more entries than there are cluster numbers, and the sector numbers of those past
      the last cluster stay within 32 bits. */
  ghost predicate TableFits(g: Geometry, v: Vol) {
    |v.fat| <= FAT32_EOC && forall k: Key {:trigger OpenTable(k)} :: OpenTable(k) ==>
      forall c :: |v.data| <= c < |v.fat| && 2 <= c ==> g.FirstSec(c) + g.secPerClus <= U32_LIMIT
  }

  /** The least free entry is not one of the two reserved ones. */
  lemma {:induction false} FirstFreePast(v: Vol)
    requires Reserved(v) && |v.data| <= |v.fat|
    ensures 2 <= FirstFree(v.fat)
    ensures FreeSet(v) == {} ==> |v.data| <= FirstFree(v.fat)
    ensures FreeSet(v) != {} ==> FirstFree(v.fat) in FreeSet(v)
  {
    var c := FirstFree(v.fat);
    assert 2 <= c < |v.data| ==> c in FreeSet(v);
    if FreeSet(v) != {} {
      var f :| f in FreeSet(v);
      assert c <= f;
    }
  }

  /** An entry that is no cluster's written over keeps the file dangling. */
  lemma {:induction false} StillBroken(v: Vol, first: nat, ch: seq<nat>, cur: nat, v': Vol, c: nat, x: u32)
    requires Broken(v, first, ch, cur) && c < |v.fat| && NoCluster(v, c) && |v.data| <= FAT32_BAD
    requires |v'.data| == |v.data| && v'.fat == v.fat[c := x] && (c < 2 ==> NoCluster(v, x) && x != 0) && x != 0
    ensures Broken(v', first, ch, cur)
  {
    forall i | 0 <= i < |ch| ensures v'.fat[ch[i]] == v.fat[ch[i]] {
    }
    forall a | a in FreeSet(v') ensures a in FreeSet(v) {
    }
  }

  /** What reloc_clus has when it wants a further cluster: a chain and the free clusters, K in all, or a
      file that dangles. */
  ghost predicate Growing(fs: FatVolume, e: Dirent, K: nat, broken: bool, ch: seq<nat>)
    reads fs, e
  {
    && fs.Valid() && |fs.vol.data| <= FAT32_BAD && TableFits(fs.g, fs.vol) && Reserved(fs.vol)
    && if broken then Broken(fs.vol, e.firstClus, ch, e.curClus)
       else Ready(fs) && CursorOk(fs.vol, e) && |e.chain| + |FreeSet(fs.vol)| == K
  }

  /** The link that a growing file gets when no cluster is free. */
  lemma {:induction false} Breaks(v: Vol, B: nat, first: nat, ch: seq<nat>, c: u32, v1: Vol, v2: Vol)
    requires VolOk(v, B) && Chain(v, first, ch) && Reserved(v) && FreeSet(v) == {} && NoCluster(v, c) && c != 0
    requires |v1.data| == |v.data| && GotNone(v, c, v1)
    requires |v2.data| == |v.data| && v2.fat == v1.fat[ch[|ch| - 1] := c]
    ensures Broken(v2, first, ch, c)
  {
    ChainAcyclic(v, first, ch);
    forall i | 0 <= i < |ch| - 1 ensures v2.fat[ch[i]] == ch[i + 1] {
      assert v.fat[ch[i]] == ch[i + 1];
    }
    forall a | a in FreeSet(v2) ensures a in FreeSet(v) {
    }
  }

  /** One round of reloc_clus with alloc set. */
  method FullRound(fs: FatVolume, e: Dirent, ghost K: nat, ghost broken: bool, ghost ch: seq<nat>)
      returns (ghost broken': bool, ghost ch': seq<nat>)
    requires Growing(fs, e, K, broken, ch) && e.clusCnt < 0xFFFF_FFFF
    modifies fs, e`curClus, e`clusCnt, e`chain
    ensures Growing(fs, e, K, broken', ch') && e.clusCnt == old(e.clusCnt) + 1
  {
    broken', ch' := broken, ch;
    ghost var atEnd := !broken && e.clusCnt == |e.chain| - 1;
    if !broken {
      CursorFacts(fs.vol, e);
      NextClus(fs.vol, e.firstClus, e.chain, e.clusCnt);
    }
    var clus := fs.ReadFat(e.curClus);
    if IsEnd(clus) {
      clus, broken', ch' := TakeCluster(fs, e, K, broken, ch);
    }
    e.curClus := clus;
    e.clusCnt := e.clusCnt + 1;
  }

  /** alloc_clus and write_fat, when the cursor is on an entry with an end mark. */
  method TakeCluster(fs: FatVolume, e: Dirent, ghost K: nat, ghost broken: bool, ghost ch: seq<nat>)
      returns (clus: u32, ghost broken': bool, ghost ch': seq<nat>)
    requires Growing(fs, e, K, broken, ch) && (broken ==> e.curClus < 2) && (!broken ==> e.clusCnt == |e.chain| - 1)
    modifies fs, e`chain
    ensures fs.Valid() && |fs.vol.data| <= FAT32_BAD && TableFits(fs.g, fs.vol) && Reserved(fs.vol)
    ensures broken' ==> Broken(fs.vol, e.firstClus, ch', clus)
    ensures !broken' ==> Ready(fs) && Chain(fs.vol, e.firstClus, e.chain) && e.chain == old(e.chain) + [clus]
    ensures !broken' ==> |e.chain| + |FreeSet(fs.vol)| == K
    ensures broken ==> broken'
  {
    ghost var v := fs.vol;
    ghost var full := FreeSet(v) == {};
    ghost var v1;
    if !broken {
      CursorFacts(v, e);
    }
    clus, v1 := AllocAndLink(fs, e.curClus);
    broken', ch' := broken || full, if broken then ch else e.chain;
    if broken {
      BreaksAgain(v, e.firstClus, ch, e.curClus, clus, v1, fs.vol);
    } else {
      if full {
        Breaks(v, fs.g.bytsPerClus, e.firstClus, e.chain, clus, v1, fs.vol);
      } else {
        GrownReserved(v, clus, e.curClus, fs.vol, fs.g.bytsPerClus);
        GrowStep(v, e.firstClus, e.chain, clus, fs.vol, fs.g.bytsPerClus);
        e.chain := e.chain + [clus];
      }
    }
  }

  /** What alloc_clus returns without a free cluster: 1, or an entry past the last cluster. */
  ghost predicate GotNone(v: Vol, c: u32, v1: Vol) {
    NoCluster(v, c) && (v1.fat == v.fat || (|v.data| <= c < |v.fat| && v1.fat == v.fat[c := FAT32_FEOC]))
  }

  /** A free cluster c, cleared and linked behind cur. */
  ghost predicate GotOne(v: Vol, c: u32, cur: u32, v2: Vol, B: nat)
    requires |v.data| <= |v.fat|
  {
    c in FreeSet(v) && cur < |v.fat| && v2 == Vol(v.fat[c := FAT32_FEOC][cur := c], v.data[c := Zeros(B)])
  }

  lemma {:induction false} GrownReserved(v: Vol, c: u32, cur: u32, v2: Vol, B: nat)
    requires |v.data| <= |v.fat| && Reserved(v) && 2 <= cur && GotOne(v, c, cur, v2, B)
    ensures Reserved(v2)
  {
  }

  /** alloc_clus, then write_fat at cur: v1 is the volume in between. */
  method AllocAndLink(fs: FatVolume, cur: u32) returns (clus: u32, ghost v1: Vol)
    requires fs.Valid() && TableFits(fs.g, fs.vol) && Reserved(fs.vol) && cur < |fs.vol.data|
    modifies fs
    ensures fs.Valid() && TableFits(fs.g, fs.vol) && |fs.vol.data| == |v1.data| == |old(fs.vol).data| && clus != 0
    ensures cur < |v1.fat| && fs.vol.fat == v1.fat[cur := clus]
    ensures FreeSet(old(fs.vol)) == {} ==> GotNone(old(fs.vol), clus, v1)
    ensures FreeSet(old(fs.vol)) != {} ==> GotOne(old(fs.vol), clus, cur, fs.vol, fs.g.bytsPerClus)
  {
    ghost var v := fs.vol;
    FirstFreePast(v);
    TableAt(fs.g, v, FirstFree(v.fat));
    clus := fs.AllocClus();
    v1 := fs.vol;
    var _ := fs.WriteFat(cur, clus);
    SameTable(fs.g, v, fs.vol);
  }

  lemma {:induction false} TableAt(g: Geometry, v: Vol, c: nat)
    requires TableFits(g, v) && 2 <= c
    ensures |v.data| <= c < |v.fat| ==> g.FirstSec(c) + g.secPerClus <= U32_LIMIT
  {
    assert OpenTable(Key);
  }

  lemma {:induction false} SameTable(g: Geometry, v: Vol, v': Vol)
    requires TableFits(g, v) && |v'.fat| == |v.fat| && |v'.data| == |v.data|
    ensures TableFits(g, v')
  {
    assert OpenTable(Key);
  }

  lemma {:induction false} BreaksAgain(v: Vol, first: nat, ch: seq<nat>, cur: u32, c: u32, v1: Vol, v2: Vol)
    requires Broken(v, first, ch, cur) && cur < 2 && NoCluster(v, c) && c != 0 && |v.data| <= FAT32_BAD
    requires |v1.data| == |v.data| && GotNone(v, c, v1)
    requires |v2.data| == |v.data| && v2.fat == v1.fat[cur := c]
    ensures Broken(v2, first, ch, c)
  {
    if v1.fat != v.fat {
      StillBroken(v, first, ch, cur, v1, c, FAT32_FEOC);
    }
    StillBroken(v1, first, ch, c, v2, cur, c);
  }

  /** reloc_clus with alloc set where the chain and the free clusters do not reach: the file loses its
      chain. So RelocClus asks for no more than it must. */
  method RelocFull(fs: FatVolume, e: Dirent, off: u32) returns (r: int)
    requires Ready(fs) && CursorOk(fs.vol, e) && TableFits(fs.g, fs.vol)
    requires Reserved(fs.vol)
    requires |e.chain| + |FreeSet(fs.vol)| <= off / fs.g.bytsPerClus
    modifies fs, e`curClus, e`clusCnt, e`chain
    ensures fs.Valid() && r == off % fs.g.bytsPerClus && e.clusCnt == off / fs.g.bytsPerClus
    ensures forall ch :: !Chain(fs.vol, e.firstClus, ch)
  {
    ghost var K, broken, ch := |e.chain| + |FreeSet(fs.vol)|, false, [];
    SpanDiv(off, fs.g.bytsPerClus);
    var clusNum: nat := off / fs.g.bytsPerClus;
    ghost var B := fs.g.bytsPerClus;
    while clusNum > e.clusCnt
      invariant Growing(fs, e, K, broken, ch) && e.clusCnt <= clusNum
      decreases clusNum - e.clusCnt
    {
      broken, ch := FullRound(fs, e, K, broken, ch);
    }
    NoChain(fs.vol, e.firstClus, ch);
    r := off % fs.g.bytsPerClus;
  }

  /** ewrite's first step on a file without a cluster, where none is free: it gets a number that leads to no
      chain. */
  method StartFull(fs: FatVolume, e: Dirent)
    requires Ready(fs) && e.firstClus == 0 && TableFits(fs.g, fs.vol) && Reserved(fs.vol) && FreeSet(fs.vol) == {}
    modifies fs, e`firstClus, e`curClus, e`clusCnt, e`dirty
    ensures fs.Valid() && e.firstClus != 0 && e.dirty && e.curClus == e.firstClus && e.clusCnt == 0
    ensures forall ch :: !Chain(fs.vol, e.firstClus, ch)
  {
    FirstFreePast(fs.vol);
    TableAt(fs.g, fs.vol, FirstFree(fs.vol.fat));
    var c := fs.AllocClus();
    e.firstClus := c;
    e.curClus := c;
    e.clusCnt := 0;
    e.dirty := true;
  }
}
