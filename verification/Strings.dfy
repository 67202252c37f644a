/** The string routines that go word by word, against their meaning byte by byte. */
module Strings {
  import opened Bytes

  const SS := 8
  const ONES: bv64 := 0x0101_0101_0101_0101
  const HIGHS: bv64 := 0x8080_8080_8080_8080

  /** HASZERO */
  function HasZero(x: bv64): bv64 {
    (x - ONES) & !x & HIGHS
  }

  /** Some byte of a word is zero. */
  predicate SomeZero(x: bv64) {
    || x & 0xFF == 0 || x & 0xFF00 == 0 || x & 0xFF_0000 == 0 || x & 0xFF00_0000 == 0
    || x & 0xFF_0000_0000 == 0 || x & 0xFF00_0000_0000 == 0
    || x & 0xFF_0000_0000_0000 == 0 || x & 0xFF00_0000_0000_0000 == 0
  }

  /** The subtraction borrows out of a byte exactly where a zero byte starts it. */
  lemma {:induction false} HasZeroExact(x: bv64)
    ensures HasZero(x) != 0 <==> SomeZero(x)
  {
  }

  /** Eight bytes as a little-endian word. */
  function Join(b0: bv8, b1: bv8, b2: bv8, b3: bv8, b4: bv8, b5: bv8, b6: bv8, b7: bv8): bv64 {
    b0 as bv64 | (b1 as bv64 << 8) | (b2 as bv64 << 16) | (b3 as bv64 << 24)
    | (b4 as bv64 << 32) | (b5 as bv64 << 40) | (b6 as bv64 << 48) | (b7 as bv64 << 56)
  }

  lemma {:induction false} JoinZero(b0: bv8, b1: bv8, b2: bv8, b3: bv8, b4: bv8, b5: bv8, b6: bv8, b7: bv8)
    ensures SomeZero(Join(b0, b1, b2, b3, b4, b5, b6, b7)) <==>
            b0 == 0 || b1 == 0 || b2 == 0 || b3 == 0 || b4 == 0 || b5 == 0 || b6 == 0 || b7 == 0
  {
  }

  /** !HASZERO(*w ^ k) with k = ONES * c, for the word of these eight bytes: none of them is c. */
  function LacksByte(b0: bv8, b1: bv8, b2: bv8, b3: bv8, b4: bv8, b5: bv8, b6: bv8, b7: bv8, c: bv8): (r: bool)
    ensures r <==> b0 != c && b1 != c && b2 != c && b3 != c && b4 != c && b5 != c && b6 != c && b7 != c
  {
    var x := (b0 as bv64 | (b1 as bv64 << 8) | (b2 as bv64 << 16) | (b3 as bv64 << 24)
              | (b4 as bv64 << 32) | (b5 as bv64 << 40) | (b6 as bv64 << 48) | (b7 as bv64 << 56))
             ^ (0x0101_0101_0101_0101 * (c as bv64));
    (x - 0x0101_0101_0101_0101) & !x & 0x8080_8080_8080_8080 == 0
  }

  /** Byte k of a word. */
  function ByteOf(w: bv64, k: nat): bv8
    requires k < SS
  {
    if k == 0 then (w & 0xFF) as bv8 else if k == 1 then ((w >> 8) & 0xFF) as bv8
    else if k == 2 then ((w >> 16) & 0xFF) as bv8 else if k == 3 then ((w >> 24) & 0xFF) as bv8
    else if k == 4 then ((w >> 32) & 0xFF) as bv8 else if k == 5 then ((w >> 40) & 0xFF) as bv8
    else if k == 6 then ((w >> 48) & 0xFF) as bv8 else (w >> 56) as bv8
  }

  lemma {:induction false} JoinBytes(b0: bv8, b1: bv8, b2: bv8, b3: bv8, b4: bv8, b5: bv8, b6: bv8, b7: bv8)
    ensures var w := Join(b0, b1, b2, b3, b4, b5, b6, b7);
            && ByteOf(w, 0) == b0 && ByteOf(w, 1) == b1 && ByteOf(w, 2) == b2 && ByteOf(w, 3) == b3
            && ByteOf(w, 4) == b4 && ByteOf(w, 5) == b5 && ByteOf(w, 6) == b6 && ByteOf(w, 7) == b7
  {
  }

  // ----- words in memory -----

  /** The word at address a; words are loaded and stored at multiples of their size only. */
  function WordAt(m: seq<bv8>, a: nat): bv64
    requires a + SS <= |m| && a % SS == 0
  {
    Join(m[a], m[a + 1], m[a + 2], m[a + 3], m[a + 4], m[a + 5], m[a + 6], m[a + 7])
  }

  lemma {:induction false} WordBytes(m: seq<bv8>, a: nat, k: nat)
    requires a + SS <= |m| && a % SS == 0 && k < SS
    ensures ByteOf(WordAt(m, a), k) == m[a + k]
  {
    JoinBytes(m[a], m[a + 1], m[a + 2], m[a + 3], m[a + 4], m[a + 5], m[a + 6], m[a + 7]);
  }

  /** No byte of m from a up to b is c. */
  ghost predicate Absent(m: seq<bv8>, a: nat, b: nat, c: bv8) {
    b <= |m| && forall i :: a <= i < b ==> m[i] != c
  }

  /** The word test finds a zero byte exactly where there is one. */
  lemma {:induction false} WordZero(m: seq<bv8>, a: nat)
    requires a + SS <= |m| && a % SS == 0
    ensures HasZero(WordAt(m, a)) == 0 <==> Absent(m, a, a + SS, 0)
  {
    HasZeroExact(WordAt(m, a));
    JoinZero(m[a], m[a + 1], m[a + 2], m[a + 3], m[a + 4], m[a + 5], m[a + 6], m[a + 7]);
    EightBytes(m, a, 0);
  }

  lemma {:induction false} EightBytes(m: seq<bv8>, a: nat, c: bv8)
    requires a + SS <= |m|
    ensures Absent(m, a, a + SS, c) <==>
            && m[a] != c && m[a + 1] != c && m[a + 2] != c && m[a + 3] != c
            && m[a + 4] != c && m[a + 5] != c && m[a + 6] != c && m[a + 7] != c
  {
  }

  /** Memory is made of whole words: the word of an address in it is in it. */
  lemma {:induction false} WordInside(n: nat, a: nat, z: nat)
    requires n % SS == 0 && a % SS == 0 && a <= z < n
    ensures a + SS <= n
  {
  }

  /** strlen, for a string at a whose first NUL is at z. */
  method Strlen(mem: array<bv8>, a: nat, ghost z: nat) returns (r: nat)
    requires mem.Length % SS == 0 && a <= z < mem.Length && mem[z] == 0 && Absent(mem[..], a, z, 0)
    ensures r == z - a
  {
    var s := a;
    while s % SS != 0
      invariant a <= s <= z
      decreases z - s
    {
      if mem[s] == 0 {
        return s - a;
      }
      s := s + 1;
    }
    WordInside(mem.Length, s, z);
    while HasZero(WordAt(mem[..], s)) == 0
      invariant a <= s <= z && s % SS == 0 && s + SS <= mem.Length
      decreases z - s
    {
      WordZero(mem[..], s);
      s := s + SS;
      WordInside(mem.Length, s, z);
    }
    while mem[s] != 0
      invariant a <= s <= z
      decreases z - s
    {
      s := s + 1;
    }
    return s - a;
  }

  /** The test of memchr on the word at a. */
  predicate WordLacks(m: seq<bv8>, a: nat, c: bv8)
    requires a + SS <= |m| && a % SS == 0
    ensures WordLacks(m, a, c) <==> Absent(m, a, a + SS, c)
  {
    EightBytes(m, a, c);
    LacksByte(m[a], m[a + 1], m[a + 2], m[a + 3], m[a + 4], m[a + 5], m[a + 6], m[a + 7], c)
  }

  /** What memchr finds: the first c of n bytes from a on. */
  datatype Hit = NotFound | FoundAt(p: nat)

  /** memchr */
  method Memchr(mem: array<bv8>, src: nat, c: bv8, n: nat) returns (r: Hit)
    requires src + n <= mem.Length
    ensures r.NotFound? <==> Absent(mem[..], src, src + n, c)
    ensures r.FoundAt? ==> src <= r.p < src + n && mem[r.p] == c && Absent(mem[..], src, r.p, c)
  {
    var s, left := src, n;
    while s % SS != 0 && left > 0 && mem[s] != c
      invariant src <= s && s + left == src + n && 0 <= left && Absent(mem[..], src, s, c)
      decreases left
    {
      s, left := s + 1, left - 1;
    }
    if left > 0 && mem[s] != c {
      while left >= SS && WordLacks(mem[..], s, c)
        invariant src <= s && s + left == src + n && 0 <= left && s % SS == 0 && Absent(mem[..], src, s, c)
        decreases left
      {
        NextWord(s);
        s, left := s + SS, left - SS;
      }
    }
    while left > 0 && mem[s] != c
      invariant src <= s && s + left == src + n && 0 <= left && Absent(mem[..], src, s, c)
      decreases left
    {
      s, left := s + 1, left - 1;
    }
    r := if left > 0 then FoundAt(s) else NotFound;
  }

  ghost predicate OpenMoved(k: Key) {
    true
  }

  /** Bytes lo up to hi at d are those that were at s; all else is as it was. */
  ghost predicate Moved<T>(m0: seq<T>, m: seq<T>, d: nat, s: nat, lo: nat, hi: nat) {
    && |m| == |m0| && d + hi <= |m0| && s + hi <= |m0| && lo <= hi
    && forall k: Key {:trigger OpenMoved(k)} :: OpenMoved(k) ==>
         forall x :: 0 <= x < |m0| ==> m[x] == m0[if d + lo <= x < d + hi then s + (x - d) else x]
  }

  lemma {:induction false} NoneMoved<T>(m0: seq<T>, d: nat, s: nat, i: nat)
    requires d + i <= |m0| && s + i <= |m0|
    ensures Moved(m0, m0, d, s, i, i)
  {
  }

  lemma {:induction false} MovedUp<T>(m0: seq<T>, m: seq<T>, d: nat, s: nat, lo: nat, hi: nat, b: T)
    requires Moved(m0, m, d, s, lo, hi) && d + hi < |m0| && s + hi < |m0| && b == m0[s + hi]
    ensures Moved(m0, m[d + hi := b], d, s, lo, hi + 1)
  {
    assert OpenMoved(Key);
  }

  lemma {:induction false} MovedDown<T>(m0: seq<T>, m: seq<T>, d: nat, s: nat, lo: nat, hi: nat, b: T)
    requires Moved(m0, m, d, s, lo + 1, hi) && b == m0[s + lo]
    ensures Moved(m0, m[d + lo := b], d, s, lo, hi)
  {
    assert OpenMoved(Key);
  }

  /** A byte outside the part that was moved. */
  lemma {:induction false} NotMoved<T>(m0: seq<T>, m: seq<T>, d: nat, s: nat, lo: nat, hi: nat, x: nat)
    requires Moved(m0, m, d, s, lo, hi) && x < |m0| && !(d + lo <= x < d + hi)
    ensures m[x] == m0[x]
  {
    assert OpenMoved(Key);
  }

  /** memmove: the bytes as they were, even where the two ranges overlap. */
  method Memmove<T>(mem: array<T>, dst: nat, src: nat, n: nat)
    requires src + n <= mem.Length && dst + n <= mem.Length
    modifies mem
    ensures forall x :: 0 <= x < mem.Length ==> mem[x] == old(mem[if dst <= x < dst + n then src + (x - dst) else x])
  {
    ghost var m0 := mem[..];
    if src < dst && src + n > dst {
      MoveBackwards(mem, dst, src, n, m0);
    } else {
      MoveForwards(mem, dst, src, n, m0);
    }
    assert OpenMoved(Key);
    assert forall x :: 0 <= x < mem.Length ==> mem[x] == mem[..][x] && m0[x] == old(mem[x]);
  }

  method SetByte<T>(mem: array<T>, at: nat, b: T)
    requires at < mem.Length
    modifies mem
    ensures mem[..] == old(mem[..])[at := b]
  {
    mem[at] := b;
  }

  method MoveBackwards<T>(mem: array<T>, dst: nat, src: nat, n: nat, ghost m0: seq<T>)
    requires src < dst && dst + n <= mem.Length && m0 == mem[..]
    modifies mem
    ensures Moved(m0, mem[..], dst, src, 0, n)
  {
    var k: nat := n;
    NoneMoved(m0, dst, src, n);
    while k > 0
      invariant 0 <= k <= n && Moved(m0, mem[..], dst, src, k, n)
    {
      k := k - 1;
      MoveDown(mem, dst, src, k, n, m0);
    }
  }

  method MoveForwards<T>(mem: array<T>, dst: nat, src: nat, n: nat, ghost m0: seq<T>)
    requires src + n <= mem.Length && dst + n <= mem.Length && m0 == mem[..] && !(src < dst && src + n > dst)
    modifies mem
    ensures Moved(m0, mem[..], dst, src, 0, n)
  {
    var k: nat := 0;
    NoneMoved(m0, dst, src, 0);
    while k < n
      invariant 0 <= k <= n && Moved(m0, mem[..], dst, src, 0, k)
    {
      MoveUp(mem, dst, src, k, m0);
      k := k + 1;
    }
  }

  /** One byte of a move towards higher addresses. */
  method MoveUp<T>(mem: array<T>, dst: nat, src: nat, k: nat, ghost m0: seq<T>)
    requires src + k < mem.Length && dst + k < mem.Length && !(dst <= src + k < dst + k)
    requires Moved(m0, mem[..], dst, src, 0, k)
    modifies mem
    ensures Moved(m0, mem[..], dst, src, 0, k + 1)
  {
    NotMoved(m0, mem[..], dst, src, 0, k, src + k);
    PutUp(mem, dst, src, k, mem[src + k], m0);
  }

  method PutUp<T>(mem: array<T>, dst: nat, src: nat, k: nat, b: T, ghost m0: seq<T>)
    requires dst + k < mem.Length && src + k < mem.Length && Moved(m0, mem[..], dst, src, 0, k) && b == m0[src + k]
    modifies mem
    ensures Moved(m0, mem[..], dst, src, 0, k + 1)
  {
    MovedUp(m0, mem[..], dst, src, 0, k, b);
    SetByte(mem, dst + k, b);
  }

  method MoveDown<T>(mem: array<T>, dst: nat, src: nat, k: nat, n: nat, ghost m0: seq<T>)
    requires src < dst && k < n && dst + n <= mem.Length && Moved(m0, mem[..], dst, src, k + 1, n)
    modifies mem
    ensures Moved(m0, mem[..], dst, src, k, n)
  {
    ghost var m := mem[..];
    var b := mem[src + k];
    NotMoved(m0, m, dst, src, k + 1, n, src + k);
    MovedDown(m0, m, dst, src, k, n, b);
    SetByte(mem, dst + k, b);
  }

  // ----- strncpy -----

  /** z bytes of the string at s are copied: up to its NUL, at most n. */
  ghost predicate CopyLength(m: seq<bv8>, s: nat, n: nat, z: nat) {
    && z <= n && s + z <= |m| && Absent(m, s, s + z, 0)
    && (z < n ==> s + z < |m| && m[s + z] == 0)
  }

  /** The n bytes at d are not among those read of the string at s. */
  ghost predicate Restrict(d: nat, s: nat, n: nat, z: nat) {
    d + n <= s || s + z < d || (s + z == d && z == n)
  }

  /** The n bytes at d are z bytes from s and zeros after them; all else is as it was. */
  ghost predicate Copied(m0: seq<bv8>, m: seq<bv8>, d: nat, s: nat, n: nat, z: nat) {
    && |m| == |m0| && s + z <= |m0|
    && forall x :: 0 <= x < |m| ==>
         m[x] == if d <= x < d + z then m0[s + (x - d)] else if d + z <= x < d + n then 0 else m0[x]
  }

  /** A byte of the source that is still to be read is as it was. */
  lemma {:induction false} SourceKept(m0: seq<bv8>, m: seq<bv8>, d: nat, s: nat, i: nat, n: nat, z: nat, x: nat)
    requires Moved(m0, m, d, s, 0, i) && i <= n && z <= n && Restrict(d, s, n, z)
    requires s + i <= x < |m0| && x <= s + z && (x == s + z ==> z < n)
    ensures m[x] == m0[x]
  {
    NotMoved(m0, m, d, s, 0, i, x);
  }

  /** The byte loops of strncpy: up to alignment if asked, else to the end; nul if a NUL stopped it. */
  method CopyBytes(mem: array<bv8>, d: nat, s: nat, n: nat, start: nat, align: bool, ghost z: nat, ghost m0: seq<bv8>)
      returns (i: nat, nul: bool)
    requires CopyLength(m0, s, n, z) && Restrict(d, s, n, z) && start <= z
    requires Moved(m0, mem[..], d, s, 0, start) && d + n <= mem.Length
    modifies mem
    ensures start <= i <= z && Moved(m0, mem[..], d, s, 0, if nul then i + 1 else i)
    ensures if nul then i == z < n else i == n || (align && (s + i) % SS == 0)
  {
    i := start;
    while (align ==> (s + i) % SS != 0) && i < n
      invariant start <= i <= z && Moved(m0, mem[..], d, s, 0, i)
      decreases n - i
    {
      SourceKept(m0, mem[..], d, s, i, n, z, s + i);
      var b := mem[s + i];
      PutUp(mem, d, s, i, b, m0);
      if b == 0 {
        return i, true;
      }
      i := i + 1;
    }
    return i, false;
  }

  /** The word loop of strncpy. */
  method CopyWords(mem: array<bv8>, d: nat, s: nat, n: nat, start: nat, ghost z: nat, ghost m0: seq<bv8>)
      returns (i: nat)
    requires CopyLength(m0, s, n, z) && Restrict(d, s, n, z) && start <= z
    requires Moved(m0, mem[..], d, s, 0, start) && d + n <= mem.Length
    requires (s + start) % SS == 0 && (d + start) % SS == 0 && mem.Length % SS == 0
    modifies mem
    ensures start <= i <= z && Moved(m0, mem[..], d, s, 0, i)
  {
    i := start;
    while n - i >= SS
      invariant start <= i <= z && Moved(m0, mem[..], d, s, 0, i) && (s + i) % SS == 0 && (d + i) % SS == 0
      decreases n - i
    {
      WordFits(m0, mem[..], d, s, n, i, z);
      NextWord(s + i);
      NextWord(d + i);
      if HasZero(WordAt(mem[..], s + i)) != 0 {
        return;
      }
      StoreWord(mem, d, s, n, i, z, m0);
      i := i + SS;
    }
  }

  lemma {:induction false} SameRest(s: nat, d: nat, i: nat)
    requires s % SS == d % SS && (s + i) % SS == 0
    ensures (d + i) % SS == 0
  {
  }

  lemma {:induction false} NextWord(a: nat)
    requires a % SS == 0
    ensures (a + SS) % SS == 0
  {
  }

  /** An aligned word of the source is in memory, and without a zero byte it is all string. */
  lemma {:induction false} WordFits(m0: seq<bv8>, m: seq<bv8>, d: nat, s: nat, n: nat, i: nat, z: nat)
    requires CopyLength(m0, s, n, z) && Restrict(d, s, n, z) && i <= z && i + SS <= n && Moved(m0, m, d, s, 0, i)
    requires (s + i) % SS == 0 && |m| % SS == 0
    ensures s + i + SS <= |m| && (HasZero(WordAt(m, s + i)) == 0 ==> i + SS <= z)
  {
    if z < n {
      WordInside(|m|, s + i, s + z);
      SourceKept(m0, m, d, s, i, n, z, s + z);
    }
    WordZero(m, s + i);
  }

  /** *wd = *ws */
  method StoreWord(mem: array<bv8>, d: nat, s: nat, n: nat, i: nat, ghost z: nat, ghost m0: seq<bv8>)
    requires CopyLength(m0, s, n, z) && Restrict(d, s, n, z) && i + SS <= z
    requires Moved(m0, mem[..], d, s, 0, i) && d + n <= mem.Length && (s + i) % SS == 0 && (d + i) % SS == 0
    modifies mem
    ensures Moved(m0, mem[..], d, s, 0, i + SS)
  {
    var w := WordAt(mem[..], s + i);
    ghost var m1 := mem[..];
    for k := 0 to SS
      invariant Moved(m0, mem[..], d, s, 0, i + k)
    {
      WordBytes(m1, s + i, k);
      SourceKept(m0, m1, d, s, i, n, z, s + i + k);
      PutUp(mem, d, s, i + k, ByteOf(w, k), m0);
    }
  }

  /** strncpy: the string without its NUL, then zeros up to n bytes, and nothing else; the result is the
      address behind the copied bytes. */
  method Strncpy(mem: array<bv8>, d: nat, s: nat, n: nat, ghost z: nat) returns (r: nat)
    requires mem.Length % SS == 0 && d + n <= mem.Length && CopyLength(mem[..], s, n, z) && Restrict(d, s, n, z)
    modifies mem
    ensures r == d + z && Copied(old(mem[..]), mem[..], d, s, n, z)
  {
    ghost var m0 := mem[..];
    var i, nul := 0, false;
    if s % SS == d % SS {
      i, nul := CopyBytes(mem, d, s, n, 0, true, z, m0);
      if i != n && !nul {
        SameRest(s, d, i);
        i := CopyWords(mem, d, s, n, i, z, m0);
      }
    }
    if i != n && !nul {
      i, nul := CopyBytes(mem, d, s, n, i, false, z, m0);
    }
    assert i == z;
    Pad(mem, d, s, n, i, if nul then i + 1 else i, m0);
    return d + i;
  }

  /** memset(d, 0, n) at the end, over what is left. */
  method Pad(mem: array<bv8>, d: nat, s: nat, n: nat, i: nat, ghost j: nat, ghost m0: seq<bv8>)
    requires i <= j <= n && j <= i + 1 && d + n <= mem.Length && Moved(m0, mem[..], d, s, 0, j)
    modifies mem
    ensures Copied(m0, mem[..], d, s, n, i)
  {
    ghost var m1 := mem[..];
    for k := d + i to d + n
      invariant forall x :: 0 <= x < mem.Length ==> mem[x] == if d + i <= x < k then 0 else m1[x]
    {
      mem[k] := 0;
    }
    forall x | 0 <= x < mem.Length
      ensures mem[x] == if d <= x < d + i then m0[s + (x - d)] else if d + i <= x < d + n then 0 else m0[x]
    {
      assert OpenMoved(Key);
      assert m1[x] == m0[if d <= x < d + j then s + (x - d) else x];
    }
  }
}
