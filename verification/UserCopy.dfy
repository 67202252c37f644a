/** Copies between the kernel and user addresses: page by page, and equal to byte by byte. */
module UserCopy {
  import opened Bytes
  import opened Physical
  import opened PageEntries
  import opened TableTree
  import opened PageTable
  import opened Sv39
  import opened AddressPages

  const VMA_START := 0x4000_0000

  /** The address i bytes after va, in 64 bits. */
  function Addr(va: nat, i: nat): (r: nat)
    ensures r < U64_LIMIT
  {
    (va + i) % U64_LIMIT
  }

  function Offset(va: nat): (o: nat)
    ensures o < PAGE_SIZE
  {
    va % PAGE_SIZE
  }

  /** The low bits of the number of the page of va. */
  function PageKey(va: nat): nat {
    LowVpn(va / PAGE_SIZE)
  }

  /** The page of va is bound to a frame of memory, and that is no page table of its own space. */
  ghost predicate Present(mem: Pages, spec: map<nat, Mapping>, own: set<nat>, va: nat) {
    var key := PageKey(va);
    key in spec && spec[key].ppn in mem && IsPage(mem[spec[key].ppn]) && spec[key].ppn !in own
  }

  /** The byte at a user address. */
  ghost function ByteAt(mem: Pages, spec: map<nat, Mapping>, va: nat): byte {
    var key := PageKey(va);
    if key in spec && spec[key].ppn in mem && |mem[spec[key].ppn]| == PAGE_SIZE
    then mem[spec[key].ppn][Offset(va)] else 0
  }

  ghost predicate AllPresent(mem: Pages, spec: map<nat, Mapping>, own: set<nat>, va: nat, n: nat) {
    forall i :: 0 <= i < n ==> Present(mem, spec, own, Addr(va, i))
  }

  /** n bytes from va on, one address at a time. */
  ghost function UserBytes(mem: Pages, spec: map<nat, Mapping>, va: nat, n: nat): (s: seq<byte>)
    ensures |s| == n && forall i :: 0 <= i < n ==> s[i] == ByteAt(mem, spec, Addr(va, i))
  {
    seq(n, i requires 0 <= i => ByteAt(mem, spec, Addr(va, i)))
  }

  lemma {:induction false} AddrAdd(va: nat, a: nat, b: nat)
    ensures Addr(Addr(va, a), b) == Addr(va, a + b)
  {
    var q, r := (va + a) / U64_LIMIT, (va + a) % U64_LIMIT;
    var s, t := (r + b) / U64_LIMIT, (r + b) % U64_LIMIT;
    DivMod(va + (a + b), U64_LIMIT, q + s, t);
  }

  lemma {:induction false} BytesAppend(mem: Pages, spec: map<nat, Mapping>, va: nat, a: nat, b: nat)
    ensures UserBytes(mem, spec, va, a + b) == UserBytes(mem, spec, va, a) + UserBytes(mem, spec, Addr(va, a), b)
  {
    forall i | 0 <= i < b ensures Addr(Addr(va, a), i) == Addr(va, a + i) {
      AddrAdd(va, a, i);
    }
  }

  /** The part of a page from va on, at most to its end, at most n bytes. */
  function Chunk(va: nat, n: nat): (c: nat)
    ensures c <= n && c <= PAGE_SIZE - Offset(va) && (0 < n ==> 0 < c)
  {
    if PAGE_SIZE - Offset(va) > n then n else PAGE_SIZE - Offset(va)
  }

  /** Within a page the addresses are consecutive bytes of one frame. */
  lemma {:induction false} SamePage(va: nat, i: nat)
    requires va < U64_LIMIT && Offset(va) + i < PAGE_SIZE
    ensures Addr(va, i) == va + i && PageKey(va + i) == PageKey(va) && Offset(va + i) == Offset(va) + i
  {
    var q := va / PAGE_SIZE;
    DivMod(va + i, PAGE_SIZE, q, Offset(va) + i);
    assert q <= 0xF_FFFF_FFFF_FFFF;
  }

  /** After the last byte of a page comes the first of the next. */
  lemma {:induction false} NextPageStart(va: nat)
    requires va < U64_LIMIT
    ensures Addr(va, PAGE_SIZE - Offset(va)) == NextVa(va)
  {
  }

  /** A chunk read at once is its bytes. */
  lemma {:induction false} ChunkRead(mem: Pages, spec: map<nat, Mapping>, own: set<nat>, va: nat, n: nat)
    requires va < U64_LIMIT && n <= PAGE_SIZE - Offset(va) && 0 < n && Present(mem, spec, own, va)
    ensures UserBytes(mem, spec, va, n) == mem[spec[PageKey(va)].ppn][Offset(va)..Offset(va) + n]
  {
    var s := UserBytes(mem, spec, va, n);
    forall i | 0 <= i < n ensures s[i] == mem[spec[PageKey(va)].ppn][Offset(va) + i] {
      SamePage(va, i);
    }
  }

  /** va2pa for a page that is present: its frame. */
  method Translate(m: Machine, pt: Table, va: nat) returns (ppn: nat)
    requires m.Valid() && pt.Valid(m) && Present(m.mem, pt.spec, pt.tab.Values, va)
    ensures ppn == pt.spec[PageKey(va)].ppn
  {
    var slot := pt.FindPte(m, va / PAGE_SIZE);
    ghost var found := Lookup(pt.spec, PageKey(va));
    assert found.m == pt.spec[PageKey(va)];
    ppn := PtePpn(Word(m.mem[slot.t], slot.x));
  }

  /** The part of a range that a chunk covers, and where the next one starts. */
  lemma {:induction false} ChunkOf(mem: Pages, spec: map<nat, Mapping>, own: set<nat>, start: nat, len: nat, done: nat)
    requires done < len && Present(mem, spec, own, Addr(start, done))
    ensures var va := Addr(start, done); var n := Chunk(va, len - done); var f := spec[PageKey(va)].ppn;
            && UserBytes(mem, spec, start, len)[done..done + n] == mem[f][Offset(va)..Offset(va) + n]
            && (done + n < len ==> NextVa(va) == Addr(start, done + n))
  {
    var va := Addr(start, done);
    var n := Chunk(va, len - done);
    ChunkRead(mem, spec, own, va, n);
    BytesAppend(mem, spec, start, done, n);
    var whole := UserBytes(mem, spec, start, len);
    assert whole[done..done + n] == UserBytes(mem, spec, start, done + n)[done..];
    NextPageStart(va);
    AddrAdd(start, done, n);
  }

  /** The first address of the page after that of va. */
  function NextVa(va: nat): (r: nat)
    ensures r < U64_LIMIT
  {
    (va / PAGE_SIZE * PAGE_SIZE + PAGE_SIZE) % U64_LIMIT
  }

  ghost predicate OpenStand(k: Key) {
    true
  }

  /** va is the address done bytes after start. */
  ghost predicate Standing(va: nat, start: nat, done: nat) {
    va < U64_LIMIT && forall k: Key {:trigger OpenStand(k)} :: OpenStand(k) ==> va == Addr(start, done)
  }

  lemma {:induction false} StandStart(va: nat)
    requires va < U64_LIMIT
    ensures Standing(va, va, 0)
  {
  }

  /** The chunk at va: what it covers of the bytes, and where the next one starts. */
  lemma {:induction false} StandChunk(mem: Pages, spec: map<nat, Mapping>, own: set<nat>, start: nat, whole: seq<byte>,
                                      done: nat, va: nat)
    requires whole == UserBytes(mem, spec, start, |whole|) && done < |whole| && Standing(va, start, done)
    requires Present(mem, spec, own, va)
    ensures var n := Chunk(va, |whole| - done);
            && whole[done..done + n] == mem[spec[PageKey(va)].ppn][Offset(va)..Offset(va) + n]
            && (done + n < |whole| ==> Standing(NextVa(va), start, done + n))
  {
    assert OpenStand(Key);
    ChunkOf(mem, spec, own, start, |whole|, done);
  }

  lemma {:induction false} StandNext(mem: Pages, spec: map<nat, Mapping>, own: set<nat>, start: nat, len: nat,
                                     done: nat, va: nat)
    requires done < len && Standing(va, start, done) && Present(mem, spec, own, va)
    ensures var n := Chunk(va, len - done); done + n < len ==> Standing(NextVa(va), start, done + n)
  {
    StandChunk(mem, spec, own, start, UserBytes(mem, spec, start, len), done, va);
  }

  lemma {:induction false} StandPresent(mem: Pages, spec: map<nat, Mapping>, own: set<nat>, start: nat, len: nat,
                                        done: nat, va: nat)
    requires AllPresent(mem, spec, own, start, len) && done < len && Standing(va, start, done)
    ensures Present(mem, spec, own, va)
  {
    assert OpenStand(Key);
    assert Present(mem, spec, own, Addr(start, done));
  }

  /** copyin2 */
  method CopyIn(m: Machine, pt: Table, srcva: nat, len: nat) returns (dst: seq<byte>)
    requires m.Valid() && pt.Valid(m) && srcva < U64_LIMIT && AllPresent(m.mem, pt.spec, pt.tab.Values, srcva, len)
    ensures dst == UserBytes(m.mem, pt.spec, srcva, len)
  {
    dst := [];
    ghost var whole := UserBytes(m.mem, pt.spec, srcva, len);
    var va: nat, left: nat := srcva, len;
    StandStart(va);
    while left > 0
      invariant left <= len && dst == whole[..len - left] && (left > 0 ==> Standing(va, srcva, len - left))
    {
      StandPresent(m.mem, pt.spec, pt.tab.Values, srcva, len, len - left, va);
      StandChunk(m.mem, pt.spec, pt.tab.Values, srcva, whole, len - left, va);
      var n := Chunk(va, left);
      var ppn := Translate(m, pt, va);
      dst := dst + m.mem[ppn][Offset(va)..Offset(va) + n];
      left := left - n;
      va := NextVa(va);
    }
  }

  /** The byte that a copy takes at a user address is the one that the user's own access finds there. */
  lemma {:induction false} AsHardware(m: Machine, pt: Table, va: nat)
    requires m.Valid() && pt.Valid(m) && va < U64_LIMIT && Present(m.mem, pt.spec, pt.tab.Values, va)
    requires Legal(pt.spec[PageKey(va)].flags)
    ensures var a := Walk(m.mem, pt.root, 2, va / 0x1000 % 0x800_0000);
            && a.Leaf? && a.level == 0 && a.ppn in m.mem && |m.mem[a.ppn]| == 0x1000
            && ByteAt(m.mem, pt.spec, va) == m.mem[a.ppn][va % 0x1000]
  {
    pt.InHardware(m);
    assert PageKey(va) == va / 0x1000 % 0x800_0000 < 0x800_0000;
  }

  // ----- writing -----

  /** One byte stored at a user address. */
  ghost function PutByte(mem: Pages, spec: map<nat, Mapping>, va: nat, b: byte): Pages {
    var key := PageKey(va);
    if key in spec && spec[key].ppn in mem && |mem[spec[key].ppn]| == PAGE_SIZE
    then mem[spec[key].ppn := Splice(mem[spec[key].ppn], Offset(va), [b])] else mem
  }

  /** Bytes stored from va on, one address at a time. */
  ghost function WriteBytes(mem: Pages, spec: map<nat, Mapping>, va: nat, src: seq<byte>): Pages
    decreases |src|
  {
    if src == [] then mem
    else PutByte(WriteBytes(mem, spec, va, src[..|src| - 1]), spec, Addr(va, |src| - 1), src[|src| - 1])
  }

  lemma {:induction false} WriteAppend(mem: Pages, spec: map<nat, Mapping>, va: nat, a: seq<byte>, b: seq<byte>)
    ensures WriteBytes(mem, spec, va, a + b) == WriteBytes(WriteBytes(mem, spec, va, a), spec, Addr(va, |a|), b)
    decreases |b|
  {
    if b == [] {
      assert a + b == a;
    } else {
      var c := b[..|b| - 1];
      assert (a + b)[..|a + b| - 1] == a + c;
      WriteAppend(mem, spec, va, a, c);
      AddrAdd(va, |a|, |b| - 1);
    }
  }

  /** A chunk stored at once is its bytes stored in turn. */
  lemma {:induction false} ChunkWrite(mem: Pages, spec: map<nat, Mapping>, own: set<nat>, va: nat, src: seq<byte>)
    requires va < U64_LIMIT && |src| <= PAGE_SIZE - Offset(va) && Present(mem, spec, own, va)
    ensures var f := spec[PageKey(va)].ppn;
            WriteBytes(mem, spec, va, src) == mem[f := Splice(mem[f], Offset(va), src)]
    decreases |src|
  {
    var f := spec[PageKey(va)].ppn;
    if src == [] {
      assert Splice(mem[f], Offset(va), src) == mem[f];
    } else {
      var n, s := |src| - 1, src[..|src| - 1];
      ChunkWrite(mem, spec, own, va, s);
      SamePage(va, n);
      assert src == s + [src[n]];
      SpliceAppend(mem[f], Offset(va), s, [src[n]]);
    }
  }

  /** Storing changes no page table of the space and drops no page. */
  lemma {:induction false} WriteKeeps(mem: Pages, spec: map<nat, Mapping>, own: set<nat>, va: nat, src: seq<byte>)
    requires PagesOk(mem) && AllPresent(mem, spec, own, va, |src|)
    ensures var mem' := WriteBytes(mem, spec, va, src);
            mem'.Keys == mem.Keys && PagesOk(mem') && forall f :: f in own && f in mem ==> mem'[f] == mem[f]
    decreases |src|
  {
    if src != [] {
      WriteKeeps(mem, spec, own, va, src[..|src| - 1]);
      assert Present(mem, spec, own, Addr(va, |src| - 1));
    }
  }

  lemma {:induction false} PresentKept(mem: Pages, mem': Pages, spec: map<nat, Mapping>, own: set<nat>, va: nat, n: nat)
    requires AllPresent(mem, spec, own, va, n) && mem'.Keys == mem.Keys && PagesOk(mem')
    ensures AllPresent(mem', spec, own, va, n)
  {
    forall i | 0 <= i < n ensures Present(mem', spec, own, Addr(va, i)) {
      assert Present(mem, spec, own, Addr(va, i));
    }
  }

  /** No two of n addresses from va on are one byte of memory. */
  ghost predicate NoAlias(spec: map<nat, Mapping>, va: nat, n: nat) {
    forall i, j :: 0 <= i < j < n ==> !SameByte(spec, Addr(va, i), Addr(va, j))
  }

  ghost predicate SameByte(spec: map<nat, Mapping>, va: nat, vb: nat) {
    && PageKey(va) in spec && PageKey(vb) in spec && spec[PageKey(va)].ppn == spec[PageKey(vb)].ppn
    && Offset(va) == Offset(vb)
  }

  /** What was copied out is copied in again. */
  lemma {:induction false} WriteThenRead(mem: Pages, spec: map<nat, Mapping>, own: set<nat>, va: nat, src: seq<byte>)
    requires PagesOk(mem) && AllPresent(mem, spec, own, va, |src|) && NoAlias(spec, va, |src|)
    ensures UserBytes(WriteBytes(mem, spec, va, src), spec, va, |src|) == src
    decreases |src|
  {
    if src != [] {
      var n := |src| - 1;
      var mem1 := WriteBytes(mem, spec, va, src[..n]);
      WriteThenRead(mem, spec, own, va, src[..n]);
      WriteKeeps(mem, spec, own, va, src[..n]);
      PresentKept(mem, mem1, spec, own, va, |src|);
      assert Present(mem1, spec, own, Addr(va, n));
      PutHere(mem1, spec, own, Addr(va, n), src[n]);
      forall i | 0 <= i < n ensures ByteAt(PutByte(mem1, spec, Addr(va, n), src[n]), spec, Addr(va, i)) == src[i] {
        EarlierByte(mem1, spec, own, va, src, i);
      }
    }
  }

  lemma {:induction false} EarlierByte(mem: Pages, spec: map<nat, Mapping>, own: set<nat>, va: nat, src: seq<byte>,
                                       i: nat)
    requires i < |src| - 1 && AllPresent(mem, spec, own, va, |src|) && NoAlias(spec, va, |src|)
    requires UserBytes(mem, spec, va, |src| - 1) == src[..|src| - 1]
    ensures ByteAt(PutByte(mem, spec, Addr(va, |src| - 1), src[|src| - 1]), spec, Addr(va, i)) == src[i]
  {
    var n := |src| - 1;
    assert UserBytes(mem, spec, va, n)[i] == src[i];
    assert Present(mem, spec, own, Addr(va, i)) && Present(mem, spec, own, Addr(va, n));
    assert !SameByte(spec, Addr(va, i), Addr(va, n));
    PutElsewhere(mem, spec, own, Addr(va, n), src[n], Addr(va, i));
  }

  lemma {:induction false} PutHere(mem: Pages, spec: map<nat, Mapping>, own: set<nat>, va: nat, b: byte)
    requires Present(mem, spec, own, va)
    ensures ByteAt(PutByte(mem, spec, va, b), spec, va) == b
  {
  }

  lemma {:induction false} PutElsewhere(mem: Pages, spec: map<nat, Mapping>, own: set<nat>, va: nat, b: byte, vb: nat)
    requires Present(mem, spec, own, va) && Present(mem, spec, own, vb) && !SameByte(spec, vb, va)
    ensures ByteAt(PutByte(mem, spec, va, b), spec, vb) == ByteAt(mem, spec, vb)
  {
  }

  /** The test with which copyout2 turns a request away; the sum is taken in 64 bits. */
  predicate BadRange(dstva: nat, len: nat, sz: nat) {
    (Addr(dstva, len) > sz || dstva >= sz) && dstva < VMA_START
  }

  /** The range of n bytes from va on, and the address behind it, lie in a space of sz bytes. A range that
      goes on at 0 behind the last address counts by its first address and the one behind its last byte. */
  ghost predicate Within(va: nat, n: nat, sz: nat) {
    va < sz && (if va + n < 0x1_0000_0000_0000_0000 then va + n else va + n - 0x1_0000_0000_0000_0000) <= sz
  }

  lemma {:induction false} RangeExact(va: nat, n: nat, sz: nat)
    requires va < U64_LIMIT && n < 0x1_0000_0000_0000_0000
    ensures BadRange(va, n, sz) <==> va < 0x4000_0000 && !Within(va, n, sz)
    ensures BadString(va, n, sz) <==> !Within(va, n, sz)
  {
  }

  /** copyout2. A range that starts at the first address for mmap or above is never turned away; another
      one is if it does not end in the space, or does so only because it wraps. */
  method CopyOut(m: Machine, pt: Table, sz: nat, dstva: nat, src: seq<byte>) returns (r: int)
    requires m.Valid() && pt.Valid(m) && dstva < U64_LIMIT
    requires !BadRange(dstva, |src|, sz) ==> AllPresent(m.mem, pt.spec, pt.tab.Values, dstva, |src|)
    modifies m`mem
    ensures m.Valid() && pt.Valid(m) && r == if BadRange(dstva, |src|, sz) then -1 else 0
    ensures m.mem == if r == 0 then WriteBytes(old(m.mem), pt.spec, dstva, src) else old(m.mem)
    ensures |src| < 0x1_0000_0000_0000_0000 ==> (r == 0 <==> 0x4000_0000 <= dstva || Within(dstva, |src|, sz))
  {
    if |src| < U64_LIMIT {
      RangeExact(dstva, |src|, sz);
    }
    if BadRange(dstva, |src|, sz) {
      return -1;
    }
    OutLoop(m, pt, dstva, src);
    return 0;
  }

  /** The loop of copyout2. */
  method OutLoop(m: Machine, pt: Table, dstva: nat, src: seq<byte>)
    requires m.Valid() && pt.Valid(m) && dstva < U64_LIMIT
    requires AllPresent(m.mem, pt.spec, pt.tab.Values, dstva, |src|)
    modifies m`mem
    ensures m.Valid() && pt.Valid(m) && m.mem == WriteBytes(old(m.mem), pt.spec, dstva, src)
  {
    ghost var mem0 := m.mem;
    var va: nat, done: nat := dstva, 0;
    StandStart(va);
    while done < |src|
      invariant done <= |src| && (done < |src| ==> Standing(va, dstva, done))
      invariant m.Valid() && pt.Valid(m) && m.mem == WriteBytes(mem0, pt.spec, dstva, src[..done])
      invariant AllPresent(m.mem, pt.spec, pt.tab.Values, dstva, |src|)
    {
      var n := Chunk(va, |src| - done);
      OutChunk(m, pt, dstva, src, va, done, n, mem0);
      done := done + n;
      va := NextVa(va);
    }
    assert src[..done] == src;
  }

  /** One round of copyout2. */
  method OutChunk(m: Machine, pt: Table, dstva: nat, src: seq<byte>, va: nat, done: nat, n: nat, ghost mem0: Pages)
    requires m.Valid() && pt.Valid(m) && done < |src| && Standing(va, dstva, done) && n == Chunk(va, |src| - done)
    requires m.mem == WriteBytes(mem0, pt.spec, dstva, src[..done])
    requires AllPresent(m.mem, pt.spec, pt.tab.Values, dstva, |src|)
    modifies m`mem
    ensures m.Valid() && pt.Valid(m) && AllPresent(m.mem, pt.spec, pt.tab.Values, dstva, |src|)
    ensures m.mem == WriteBytes(mem0, pt.spec, dstva, src[..done + n])
    ensures done + n < |src| ==> Standing(NextVa(va), dstva, done + n)
  {
    StandPresent(m.mem, pt.spec, pt.tab.Values, dstva, |src|, done, va);
    StandNext(m.mem, pt.spec, pt.tab.Values, dstva, |src|, done, va);
    var ppn := Translate(m, pt, va);
    ghost var mem1 := m.mem;
    StoreChunk(m, pt, ppn, va, src[done..done + n]);
    PresentKept(mem1, m.mem, pt.spec, pt.tab.Values, dstva, |src|);
    WrittenSoFar(mem0, pt.spec, dstva, src, done, n, va, mem1, m.mem);
  }

  lemma {:induction false} WrittenSoFar(mem0: Pages, spec: map<nat, Mapping>, dstva: nat, src: seq<byte>, done: nat,
                                        n: nat, va: nat, mem1: Pages, mem2: Pages)
    requires done + n <= |src| && mem1 == WriteBytes(mem0, spec, dstva, src[..done]) && Standing(va, dstva, done)
    requires mem2 == WriteBytes(mem1, spec, va, src[done..done + n])
    ensures mem2 == WriteBytes(mem0, spec, dstva, src[..done + n])
  {
    assert OpenStand(Key);
    WriteAppend(mem0, spec, dstva, src[..done], src[done..done + n]);
    assert src[..done] + src[done..done + n] == src[..done + n];
  }

  /** memmove into one page. */
  method StoreChunk(m: Machine, pt: Table, ppn: nat, va: nat, data: seq<byte>)
    requires m.Valid() && pt.Valid(m) && va < U64_LIMIT && |data| <= PAGE_SIZE - Offset(va)
    requires Present(m.mem, pt.spec, pt.tab.Values, va) && ppn == pt.spec[PageKey(va)].ppn
    modifies m`mem
    ensures m.Valid() && pt.Valid(m) && m.mem == WriteBytes(old(m.mem), pt.spec, va, data)
    ensures m.mem.Keys == old(m.mem.Keys) && PagesOk(m.mem)
  {
    ChunkWrite(m.mem, pt.spec, pt.tab.Values, va, data);
    ghost var mem0 := m.mem;
    pt.Owned(m);
    m.StorePage(ppn, Splice(m.mem[ppn], Offset(va), data));
    TableKept(mem0, m.Live(), pt.root, pt.fnode, pt.tab, pt.spec, m.mem, m.Live());
    m.Whole();
  }

  // ----- strings -----

  /** The position of the first NUL of s, |s| if there is none. */
  function FirstNul(s: seq<byte>): (i: nat)
    ensures i <= |s| && (i < |s| ==> s[i] == 0) && forall j :: 0 <= j < i ==> s[j] != 0
  {
    if s == [] || s[0] == 0 then 0 else 1 + FirstNul(s[1..])
  }

  /** The bytes that a string takes of max: through its NUL if it has one there. */
  ghost function StringSpan(s: seq<byte>): nat {
    if FirstNul(s) < |s| then FirstNul(s) + 1 else |s|
  }

  /** copyinstr2's test of a range; the sum is taken in 64 bits. */
  predicate BadString(srcva: nat, max: nat, sz: nat) {
    Addr(srcva, max) > sz || srcva >= sz
  }

  /** copyinstr2: 0 exactly when the range is good and a NUL lies in its first max bytes; then the
      string has been copied through it. Without one the max bytes have been copied. */
  method CopyInStr(m: Machine, pt: Table, sz: nat, srcva: nat, max: nat) returns (r: int, dst: seq<byte>)
    requires m.Valid() && pt.Valid(m) && srcva < U64_LIMIT && max < U64_LIMIT
    requires !BadString(srcva, max, sz) ==>
               AllPresent(m.mem, pt.spec, pt.tab.Values, srcva, StringSpan(UserBytes(m.mem, pt.spec, srcva, max)))
    ensures r == 0 || r == -1
    ensures r == 0 <==> !BadString(srcva, max, sz) && FirstNul(UserBytes(m.mem, pt.spec, srcva, max)) < max
    ensures dst == if BadString(srcva, max, sz) then []
              else UserBytes(m.mem, pt.spec, srcva, StringSpan(UserBytes(m.mem, pt.spec, srcva, max)))
    ensures BadString(srcva, max, sz) <==> !Within(srcva, max, sz)
  {
    RangeExact(srcva, max, sz);
    if BadString(srcva, max, sz) {
      return -1, [];
    }
    ghost var whole := UserBytes(m.mem, pt.spec, srcva, max);
    var found;
    found, dst := StrLoop(m, pt, srcva, max, whole);
    PrefixBytes(m.mem, pt.spec, srcva, max, StringSpan(whole));
    r := if found then 0 else -1;
  }

  /** The outer loop of copyinstr2; max counts the bytes that are left. */
  method StrLoop(m: Machine, pt: Table, srcva: nat, max: nat, ghost whole: seq<byte>)
      returns (found: bool, dst: seq<byte>)
    requires m.Valid() && pt.Valid(m) && srcva < U64_LIMIT && whole == UserBytes(m.mem, pt.spec, srcva, max)
    requires AllPresent(m.mem, pt.spec, pt.tab.Values, srcva, StringSpan(whole))
    ensures (found <==> FirstNul(whole) < max) && dst == whole[..StringSpan(whole)]
  {
    dst, found := [], false;
    var va: nat, left: nat := srcva, max;
    StandStart(va);
    while !found && left > 0
      invariant left <= max && (!found && left > 0 ==> Standing(va, srcva, max - left))
      invariant Collected(whole, dst, found) && (!found ==> |dst| == max - left)
      decreases left, !found
    {
      var copied := [];
      copied, found := StrRound(m, pt, srcva, dst, va, left, whole);
      dst := dst + copied;
      left := left - if found then |copied| - 1 else |copied|;
      va := NextVa(va);
    }
    NulAt(whole, dst);
  }

  /** One round of it: what it copies, up to the end of the page or a NUL. */
  method StrRound(m: Machine, pt: Table, ghost srcva: nat, dst: seq<byte>, va: nat, left: nat, ghost whole: seq<byte>)
      returns (copied: seq<byte>, nul: bool)
    requires m.Valid() && pt.Valid(m) && whole == UserBytes(m.mem, pt.spec, srcva, |whole|)
    requires AllPresent(m.mem, pt.spec, pt.tab.Values, srcva, StringSpan(whole))
    requires Collected(whole, dst, false) && |dst| + left == |whole| && 0 < left && Standing(va, srcva, |dst|)
    ensures 0 < |copied| <= left && Collected(whole, dst + copied, nul)
    ensures !nul && |copied| < left ==> Standing(NextVa(va), srcva, |dst| + |copied|)
  {
    var n := Chunk(va, left);
    StrPresent(m.mem, pt.spec, pt.tab.Values, srcva, whole, dst, va);
    StandChunk(m.mem, pt.spec, pt.tab.Values, srcva, whole, |dst|, va);
    copied, nul := StrChunk(m, pt, dst, va, n, whole);
  }

  /** A prefix of the bytes, without a NUL or up to the first one. */
  ghost predicate Collected(whole: seq<byte>, dst: seq<byte>, found: bool) {
    |dst| <= |whole| && dst == whole[..|dst|] && if found then EndsInNul(dst) else NoNul(dst)
  }

  /** Where a string goes on the page is there. */
  lemma {:induction false} StrPresent(mem: Pages, spec: map<nat, Mapping>, own: set<nat>, srcva: nat,
                                      whole: seq<byte>, dst: seq<byte>, va: nat)
    requires AllPresent(mem, spec, own, srcva, StringSpan(whole)) && Standing(va, srcva, |dst|)
    requires Collected(whole, dst, false) && |dst| < |whole|
    ensures Present(mem, spec, own, va)
  {
    NulAt(whole, dst);
    StandPresent(mem, spec, own, srcva, StringSpan(whole), |dst|, va);
  }

  /** One round of copyinstr2. */
  method StrChunk(m: Machine, pt: Table, dst: seq<byte>, va: nat, n: nat, ghost whole: seq<byte>)
      returns (copied: seq<byte>, nul: bool)
    requires m.Valid() && pt.Valid(m) && Present(m.mem, pt.spec, pt.tab.Values, va) && 0 < n <= PAGE_SIZE - Offset(va)
    requires |dst| + n <= |whole| && Collected(whole, dst, false)
    requires whole[|dst|..|dst| + n] == m.mem[pt.spec[PageKey(va)].ppn][Offset(va)..Offset(va) + n]
    ensures 0 < |copied| <= n && Collected(whole, dst + copied, nul) && (!nul ==> |copied| == n)
  {
    var ppn := Translate(m, pt, va);
    copied, nul := CopyChunk(m.mem[ppn][Offset(va)..Offset(va) + n]);
    Longer(whole, dst, copied, n);
  }

  lemma {:induction false} Longer(whole: seq<byte>, dst: seq<byte>, copied: seq<byte>, n: nat)
    requires |dst| + n <= |whole| && dst == whole[..|dst|] && NoNul(dst)
    requires |copied| <= n && copied == whole[|dst|..|dst| + n][..|copied|]
    ensures dst + copied == whole[..|dst| + |copied|]
    ensures EndsInNul(copied) ==> EndsInNul(dst + copied)
    ensures NoNul(copied) ==> NoNul(dst + copied)
  {
    if EndsInNul(copied) {
      assert (dst + copied)[..|dst + copied| - 1] == dst + copied[..|copied| - 1];
    }
  }

  ghost predicate NoNul(s: seq<byte>) {
    forall i :: 0 <= i < |s| ==> s[i] != 0
  }

  ghost predicate EndsInNul(s: seq<byte>) {
    s != [] && s[|s| - 1] == 0 && NoNul(s[..|s| - 1])
  }

  /** The inner loop of copyinstr2. */
  method CopyChunk(p: seq<byte>) returns (copied: seq<byte>, nul: bool)
    ensures |copied| <= |p| && copied == p[..|copied|]
    ensures if nul then EndsInNul(copied) else |copied| == |p| && NoNul(copied)
  {
    copied, nul := [], false;
    for i := 0 to |p|
      invariant copied == p[..i] && NoNul(copied)
    {
      copied := copied + [p[i]];
      if p[i] == 0 {
        return copied, true;
      }
    }
  }

  lemma {:induction false} PrefixBytes(mem: Pages, spec: map<nat, Mapping>, va: nat, n: nat, k: nat)
    requires k <= n
    ensures UserBytes(mem, spec, va, n)[..k] == UserBytes(mem, spec, va, k)
  {
  }

  lemma {:induction false} NulAt(s: seq<byte>, p: seq<byte>)
    requires |p| <= |s| && p == s[..|p|]
    ensures EndsInNul(p) ==> FirstNul(s) == |p| - 1
    ensures NoNul(p) ==> |p| <= FirstNul(s)
  {
    if EndsInNul(p) {
      assert forall j :: 0 <= j < |p| - 1 ==> s[j] == p[..|p| - 1][j];
    }
  }
}
