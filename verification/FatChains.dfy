/** Cluster chains of an abstract volume and the bytes they hold. */
module FatChains {
  import opened Bytes
  import opened FatSectors

  /** A volume whose two reserved entries are taken and whose clusters all have B bytes. */
  ghost predicate VolOk(v: Vol, B: nat) {
    && 0 < B
    && 2 <= |v.data| <= |v.fat| && |v.data| <= FAT32_BAD
    && v.fat[0] != 0 && v.fat[1] != 0
    && forall k: Key {:trigger OpenVol(k)} :: OpenVol(k) ==> forall c :: 2 <= c < |v.data| ==> |v.data[c]| == B
  }

  ghost predicate OpenVol(k: Key) {
    true
  }

  /** ch is the list of clusters met by following the FAT from first to an end mark. */
  ghost predicate Chain(v: Vol, first: nat, ch: seq<nat>) {
    && |v.data| <= |v.fat|
    && 0 < |ch| && ch[0] == first
    && (forall i :: 0 <= i < |ch| ==> 2 <= ch[i] < |v.data|)
    && (forall i {:trigger v.fat[ch[i]]} :: 0 <= i < |ch| - 1 ==> v.fat[ch[i]] == ch[i + 1])
    && FAT32_EOC <= v.fat[ch[|ch| - 1]] <= FAT32_FEOC
  }

  /** What the FAT says about the k-th cluster of a chain: the next one, or an end mark. */
  lemma {:induction false} NextClus(v: Vol, first: nat, ch: seq<nat>, k: nat)
    requires Chain(v, first, ch) && |v.data| <= FAT32_BAD && k < |ch|
    ensures ch[k] < |v.data|
    ensures FAT32_EOC <= v.fat[ch[k]] <==> k == |ch| - 1
    ensures k < |ch| - 1 ==> v.fat[ch[k]] == ch[k + 1]
  {
    assert k < |ch| - 1 ==> v.fat[ch[k]] == ch[k + 1];
  }

  ghost predicate Distinct(ch: seq<nat>) {
    forall i, j :: 0 <= i < j < |ch| ==> ch[i] != ch[j]
  }

  ghost predicate Disjoint(a: seq<nat>, b: seq<nat>) {
    forall i, j :: 0 <= i < |a| && 0 <= j < |b| ==> a[i] != b[j]
  }

  /** A chain that reaches an end mark never meets a cluster twice. */
  lemma {:induction false} ChainAcyclic(v: Vol, first: nat, ch: seq<nat>)
    requires Chain(v, first, ch) && |v.data| <= FAT32_BAD
    ensures Distinct(ch)
  {
    forall i, j | 0 <= i < j < |ch| ensures ch[i] != ch[j] {
      var k := i + (|ch| - 1 - j);
      assert v.fat[ch[k]] == ch[k + 1];
      if ch[i] == ch[j] {
        SameTail(v, first, ch, i, j, |ch| - 1 - j);
      }
    }
  }

  lemma {:induction false} SameTail(v: Vol, first: nat, ch: seq<nat>, i: nat, j: nat, n: nat)
    requires Chain(v, first, ch) && i < j && j + n < |ch|
    requires ch[i] == ch[j]
    ensures ch[i + n] == ch[j + n]
  {
    if n > 0 {
      SameTail(v, first, ch, i, j, n - 1);
      assert v.fat[ch[i + n - 1]] == ch[i + n - 1 + 1];
      assert v.fat[ch[j + n - 1]] == ch[j + n - 1 + 1];
    }
  }

  /** The first cluster determines the chain. */
  lemma {:induction false} ChainUnique(v: Vol, first: nat, a: seq<nat>, b: seq<nat>)
    requires Chain(v, first, a) && Chain(v, first, b) && |v.data| <= FAT32_BAD
    ensures a == b
    decreases |a|
  {
    if |a| > |b| {
      ChainUnique(v, first, b, a);
    } else {
      var n := |a| - 1;
      assert n < |b| - 1 ==> v.fat[b[n]] == b[n + 1];
      ChainPrefix(v, first, a, b, n);
    }
  }

  lemma {:induction false} ChainPrefix(v: Vol, first: nat, a: seq<nat>, b: seq<nat>, n: nat)
    requires Chain(v, first, a) && Chain(v, first, b) && n < |a| <= |b|
    ensures forall i :: 0 <= i <= n ==> a[i] == b[i]
  {
    if n > 0 {
      ChainPrefix(v, first, a, b, n - 1);
      assert v.fat[a[n - 1]] == a[n - 1 + 1];
      assert v.fat[b[n - 1]] == b[n - 1 + 1];
    }
  }

  // ----- the bytes of a chain -----

  /** The clusters of a chain, one after the other. */
  ghost function Flat(data: seq<seq<byte>>, ch: seq<nat>): (s: seq<byte>) {
    if ch == [] then [] else (if ch[0] < |data| then data[ch[0]] else []) + Flat(data, ch[1..])
  }

  ghost predicate Sized(data: seq<seq<byte>>, ch: seq<nat>, B: nat) {
    forall i :: 0 <= i < |ch| ==> ch[i] < |data| && |data[ch[i]]| == B
  }

  lemma {:induction false} FlatLength(data: seq<seq<byte>>, ch: seq<nat>, B: nat)
    requires Sized(data, ch, B)
    ensures |Flat(data, ch)| == Span(|ch|, B)
  {
    if ch != [] {
      FlatLength(data, ch[1..], B);
    }
  }

  lemma {:induction false} FlatSame(data: seq<seq<byte>>, data': seq<seq<byte>>, ch: seq<nat>)
    requires forall i :: 0 <= i < |ch| ==> ch[i] < |data| && ch[i] < |data'| && data[ch[i]] == data'[ch[i]]
    ensures Flat(data, ch) == Flat(data', ch)
  {
    if ch != [] {
      FlatSame(data, data', ch[1..]);
    }
  }

  lemma {:induction false} FlatAppend(data: seq<seq<byte>>, ch: seq<nat>, c: nat)
    requires forall i :: 0 <= i < |ch| ==> ch[i] < |data|
    requires c < |data|
    ensures Flat(data, ch + [c]) == Flat(data, ch) + data[c]
  {
    if ch == [] {
      assert ch + [c] == [c] && [c][1..] == [];
    } else {
      FlatAppend(data, ch[1..], c);
      assert (ch + [c])[1..] == ch[1..] + [c];
    }
  }

  /** Copying into the k-th cluster of a chain is a copy into the bytes of the chain. */
  lemma {:induction false} FlatSplice(data: seq<seq<byte>>, ch: seq<nat>, B: nat, k: nat, o: nat, x: seq<byte>)
    requires Sized(data, ch, B) && Distinct(ch) && k < |ch| && o + |x| <= B
    ensures Span(k, B) + o + |x| <= |Flat(data, ch)|
    ensures Flat(data[ch[k] := Splice(data[ch[k]], o, x)], ch) == Splice(Flat(data, ch), Span(k, B) + o, x)
  {
    var page := Splice(data[ch[k]], o, x);
    var c := ch[k];
    FlatPut(data, data[c := page], ch, B, k, Span(k, B) + o, o, x);
  }

  /** The same for a copy data' of the clusters that differs in the k-th cluster of the chain. */
  lemma {:induction false} FlatPut(data: seq<seq<byte>>, data': seq<seq<byte>>, ch: seq<nat>, B: nat, k: nat,
                                   at: nat, o: nat, x: seq<byte>)
    requires Sized(data, ch, B) && Distinct(ch) && k < |ch| && o + |x| <= B && at == Span(k, B) + o
    requires |data'| == |data| && data'[ch[k]] == Splice(data[ch[k]], o, x)
    requires forall c :: 0 <= c < |data| && c != ch[k] ==> data'[c] == data[c]
    ensures at + |x| <= |Flat(data, ch)| && Flat(data', ch) == Splice(Flat(data, ch), at, x)
  {
    var tail := ch[1..];
    if k == 0 {
      FlatSame(data, data', tail);
      SpliceHead(data[ch[0]], Flat(data, tail), o, x);
    } else {
      FlatPut(data, data', tail, B, k - 1, at - B, o, x);
      SpliceTail(data[ch[0]], Flat(data, tail), at - B, x);
    }
  }

  lemma {:induction false} SpliceHead(a: seq<byte>, b: seq<byte>, at: nat, x: seq<byte>)
    requires at + |x| <= |a|
    ensures Splice(a + b, at, x) == Splice(a, at, x) + b
  {
  }

  lemma {:induction false} SpliceTail(a: seq<byte>, b: seq<byte>, at: nat, x: seq<byte>)
    requires at + |x| <= |b|
    ensures Splice(a + b, |a| + at, x) == a + Splice(b, at, x)
  {
  }

  /** The bytes of a chain in its k-th cluster. */
  lemma {:induction false} FlatSlice(data: seq<seq<byte>>, ch: seq<nat>, B: nat, k: nat, o: nat, m: nat)
    requires Sized(data, ch, B) && k < |ch| && o + m <= B
    ensures Span(k, B) + o + m <= |Flat(data, ch)|
    ensures Flat(data, ch)[Span(k, B) + o..Span(k, B) + o + m] == data[ch[k]][o..o + m]
  {
    FlatLength(data, ch, B);
    SpanMonotone(k + 1, |ch|, B);
    if k > 0 {
      FlatSlice(data, ch[1..], B, k - 1, o, m);
      DropPrefix(data[ch[0]], Flat(data, ch[1..]), Span(k - 1, B) + o, m);
    }
  }

  lemma {:induction false} DropPrefix(a: seq<byte>, b: seq<byte>, p: nat, m: nat)
    requires p + m <= |b|
    ensures (a + b)[|a| + p..|a| + p + m] == b[p..p + m]
  {
  }

  // ----- free clusters and growth -----

  ghost function FreeSet(v: Vol): set<nat>
    requires |v.data| <= |v.fat|
  {
    set c: nat | 2 <= c < |v.data| && v.fat[c] == 0
  }

  /** With a free cluster left, the least free entry of the table is one of the clusters. */
  lemma {:induction false} FreeExists(v: Vol, B: nat)
    requires VolOk(v, B) && FreeSet(v) != {}
    ensures FirstFree(v.fat) in FreeSet(v)
  {
    var c :| c in FreeSet(v);
    assert FirstFree(v.fat) <= c;
  }

  ghost predicate OpenGrown(k: Key) {
    true
  }

  /** From (v, ch) to (v', ch'): ch' extends ch by clusters whose entries were 0, and outside
      ch' neither the FAT nor the data has changed. */
  ghost predicate Grown(v: Vol, ch: seq<nat>, v': Vol, ch': seq<nat>) {
    && |v.data| <= |v.fat|
    && |v'.fat| == |v.fat| && |v'.data| == |v.data| && |ch| <= |ch'|
    && |FreeSet(v')| + |ch'| == |FreeSet(v)| + |ch|
    && forall k: Key {:trigger OpenGrown(k)} :: OpenGrown(k) ==> GrownDetail(v, ch, v', ch')
  }

  ghost predicate GrownDetail(v: Vol, ch: seq<nat>, v': Vol, ch': seq<nat>)
    requires |v.data| <= |v.fat|
    requires |v'.fat| == |v.fat| && |v'.data| == |v.data| && |ch| <= |ch'|
  {
    && ch == ch'[..|ch|]
    && (forall i :: |ch| <= i < |ch'| ==> ch'[i] in FreeSet(v))
    && (forall c :: 0 <= c < |v.fat| && c !in ch' ==> v'.fat[c] == v.fat[c])
    && (forall c :: 0 <= c < |v.data| && c !in ch' ==> v'.data[c] == v.data[c])
    && FreeSet(v') <= FreeSet(v)
  }

  lemma {:induction false} GrownTrans(v0: Vol, a: seq<nat>, v1: Vol, b: seq<nat>, v2: Vol, c: seq<nat>)
    requires Grown(v0, a, v1, b) && Grown(v1, b, v2, c)
    ensures Grown(v0, a, v2, c)
  {
    assert OpenGrown(Key);
    assert a == c[..|a|] by {
      assert b == c[..|b|];
    }
    forall i | |a| <= i < |c| ensures c[i] in FreeSet(v0) {
      assert i < |b| ==> c[i] == b[i];
    }
    assert forall x :: x in b ==> x in c by {
      assert forall i :: 0 <= i < |b| ==> b[i] == c[i];
    }
  }

  /** a is b followed by zero bytes. */
  ghost predicate ZeroExtends(a: seq<byte>, b: seq<byte>) {
    |b| <= |a| && a[..|b|] == b && forall i :: |b| <= i < |a| ==> a[i] == 0
  }

  /** (v', ch') is (v, ch) grown by cleared clusters, with no byte of the old chain changed. */
  ghost predicate GrownClean(v: Vol, ch: seq<nat>, v': Vol, ch': seq<nat>) {
    && Grown(v, ch, v', ch')
    && ZeroExtends(Flat(v'.data, ch'), Flat(v.data, ch))
  }

  lemma {:induction false} GrownCleanTrans(v0: Vol, a: seq<nat>, v1: Vol, b: seq<nat>, v2: Vol, c: seq<nat>)
    requires GrownClean(v0, a, v1, b) && GrownClean(v1, b, v2, c)
    ensures GrownClean(v0, a, v2, c)
  {
    GrownTrans(v0, a, v1, b, v2, c);
    ZeroTrans(Flat(v2.data, c), Flat(v1.data, b), Flat(v0.data, a));
  }

  lemma {:induction false} ZeroTrans(a: seq<byte>, b: seq<byte>, c: seq<byte>)
    requires ZeroExtends(a, b) && ZeroExtends(b, c)
    ensures ZeroExtends(a, c)
  {
    assert a[..|c|] == b[..|c|];
    forall i | |c| <= i < |a| ensures a[i] == 0 {
      assert i < |b| ==> a[i] == a[..|b|][i];
    }
  }

  lemma {:induction false} GrownCleanRefl(v: Vol, ch: seq<nat>)
    requires |v.data| <= |v.fat|
    ensures GrownClean(v, ch, v, ch)
  {
    GrownRefl(v, ch);
    var f := Flat(v.data, ch);
    assert f[..|f|] == f;
  }

  lemma {:induction false} GrownRefl(v: Vol, ch: seq<nat>)
    requires |v.data| <= |v.fat|
    ensures Grown(v, ch, v, ch)
  {
    assert ch[..|ch|] == ch;
  }

  /** One growth step of reloc_clus: a new cluster is taken, cleared, and linked behind the last. */
  lemma {:induction false} GrowStep(v: Vol, first: nat, ch: seq<nat>, c: nat, v': Vol, B: nat)
    requires VolOk(v, B) && Chain(v, first, ch) && c in FreeSet(v)
    requires v' == Vol(v.fat[c := FAT32_FEOC][ch[|ch| - 1] := c], v.data[c := Zeros(B)])
    ensures VolOk(v', B) && Chain(v', first, ch + [c]) && GrownClean(v, ch, v', ch + [c])
  {
    ChainAcyclic(v, first, ch);
    NotInChain(v, first, ch, c);
    FlatAppend(v'.data, ch, c);
    FlatSame(v.data, v'.data, ch);
    Linked(v, first, ch, c, v');
    GrownByOne(v, ch, ch[|ch| - 1], v', c);
  }

  lemma {:induction false} Linked(v: Vol, first: nat, ch: seq<nat>, c: nat, v': Vol)
    requires Chain(v, first, ch) && Distinct(ch) && c !in ch && 2 <= c < |v.data|
    requires v'.fat == v.fat[c := FAT32_FEOC][ch[|ch| - 1] := c] && |v'.data| == |v.data|
    ensures Chain(v', first, ch + [c])
  {
    var ch' := ch + [c];
    forall i | 0 <= i < |ch'| - 1 ensures v'.fat[ch'[i]] == ch'[i + 1] {
      assert ch'[i] == ch[i];
    }
  }

  lemma {:induction false} GrownByOne(v: Vol, ch: seq<nat>, last: nat, v': Vol, c: nat)
    requires |v.data| <= |v.fat| && c in FreeSet(v)
    requires last in ch && last < |v.data| && v.fat[last] != 0
    requires |v'.data| == |v.data| && v'.fat == v.fat[c := FAT32_FEOC][last := c]
    requires forall x :: 0 <= x < |v.data| && x != c ==> v'.data[x] == v.data[x]
    ensures Grown(v, ch, v', ch + [c])
  {
    var ch' := ch + [c];
    assert ch == ch'[..|ch|];
    assert forall x :: x in ch' <==> x in ch || x == c;
    assert FreeSet(v') == FreeSet(v) - {c};
  }

  /** The first cluster of an empty file. */
  lemma {:induction false} StartStep(v: Vol, c: nat, v': Vol, B: nat)
    requires VolOk(v, B) && c in FreeSet(v)
    requires v' == Vol(v.fat[c := FAT32_FEOC], v.data[c := Zeros(B)])
    ensures VolOk(v', B) && Chain(v', c, [c]) && Grown(v, [], v', [c])
    ensures Flat(v'.data, [c]) == Zeros(B)
  {
    assert FreeSet(v') == FreeSet(v) - {c};
    assert [c][..0] == [] && [c][1..] == [];
  }

  /** A chain holds no free cluster. */
  lemma {:induction false} NotInChain(v: Vol, first: nat, ch: seq<nat>, c: nat)
    requires Chain(v, first, ch) && c in FreeSet(v)
    ensures c !in ch
  {
    forall i | 0 <= i < |ch| ensures ch[i] != c {
      assert i < |ch| - 1 ==> v.fat[ch[i]] == ch[i + 1];
    }
  }

  /** Growth of one chain keeps every other chain, and its bytes, and stays apart from it. */
  lemma {:induction false} GrownKeepsOthers(v: Vol, ch: seq<nat>, v': Vol, ch': seq<nat>, first: nat, other: seq<nat>)
    requires Grown(v, ch, v', ch') && Chain(v, first, other) && Disjoint(ch, other)
    ensures Disjoint(ch', other) && Chain(v', first, other)
    ensures Flat(v'.data, other) == Flat(v.data, other)
  {
    assert OpenGrown(Key);
    forall i, j | 0 <= i < |ch'| && 0 <= j < |other| ensures ch'[i] != other[j] {
      if i < |ch| {
        assert ch[i] == ch'[i];
      } else {
        NotInChain(v, first, other, ch'[i]);
      }
    }
    FlatSame(v.data, v'.data, other);
  }

  // ----- truncation -----

  /** The FAT with every entry of a chain put back to 0. */
  ghost function Freed(fat: seq<u32>, ch: seq<nat>): (r: seq<u32>)
    requires forall i :: 0 <= i < |ch| ==> ch[i] < |fat|
    ensures |r| == |fat|
    ensures forall c :: 0 <= c < |fat| ==> r[c] == if c in ch then 0 else fat[c]
  {
    seq(|fat|, c requires 0 <= c < |fat| => if c in ch then 0 else fat[c])
  }

  /** Truncation gives back exactly the clusters of the chain. */
  lemma {:induction false} FreedSpace(v: Vol, B: nat, first: nat, ch: seq<nat>)
    requires VolOk(v, B) && Chain(v, first, ch)
    ensures VolOk(v.(fat := Freed(v.fat, ch)), B)
    ensures |FreeSet(v.(fat := Freed(v.fat, ch)))| == |FreeSet(v)| + |ch|
  {
    var v' := v.(fat := Freed(v.fat, ch));
    ChainAcyclic(v, first, ch);
    DistinctSize(ch);
    forall c | c in ch ensures c !in FreeSet(v) {
      if c in FreeSet(v) {
        NotInChain(v, first, ch, c);
      }
    }
    assert FreeSet(v') == FreeSet(v) + Elems(ch);
  }

  ghost function Elems(ch: seq<nat>): set<nat> {
    set c | c in ch
  }

  lemma {:induction false} DistinctSize(ch: seq<nat>)
    requires Distinct(ch)
    ensures |Elems(ch)| == |ch|
  {
    if ch != [] {
      DistinctSize(ch[1..]);
      assert Elems(ch) == Elems(ch[1..]) + {ch[0]};
    }
  }

  /** Truncating one chain keeps every other chain and its bytes. */
  lemma {:induction false} FreedKeepsOthers(v: Vol, ch: seq<nat>, first: nat, other: seq<nat>)
    requires forall i :: 0 <= i < |ch| ==> ch[i] < |v.fat|
    requires Chain(v, first, other) && Disjoint(ch, other)
    ensures var v' := v.(fat := Freed(v.fat, ch));
            Chain(v', first, other) && Flat(v'.data, other) == Flat(v.data, other)
  {
  }
}
