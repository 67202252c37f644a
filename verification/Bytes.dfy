/** Bytes, byte sequences and the little-endian words that the kernel keeps on disk. */
module Bytes {

  /** A predicate may keep part of its meaning behind a key, as forall k: Key :: Open(k) ==> part for
      an Open of its own: a proof that writes assert Open(Key) has the part, and it is out of the
      way of every other proof. */
  datatype Key = Key

  type byte = b: int | 0 <= b < 256

  const U32_LIMIT := 0x1_0000_0000

  type u32 = w: int | 0 <= w < 0x1_0000_0000

  /** n zero bytes, what memset(p, 0, n) leaves behind. */
  function Zeros(n: nat): (s: seq<byte>)
    ensures |s| == n && forall i :: 0 <= i < n ==> s[i] == 0
  {
    seq(n, _ => 0)
  }

  /** s with the bytes from position at on replaced by x; what a copy into a buffer does. */
  function Splice<T>(s: seq<T>, at: nat, x: seq<T>): (r: seq<T>)
    requires at + |x| <= |s|
    ensures |r| == |s|
    ensures forall i :: 0 <= i < |s| ==> r[i] == if at <= i < at + |x| then x[i - at] else s[i]
  {
    s[..at] + x + s[at + |x|..]
  }

  /** Two copies that follow on from each other are one copy. */
  lemma {:induction false} SpliceAppend<T>(s: seq<T>, at: nat, x: seq<T>, y: seq<T>)
    requires at + |x| + |y| <= |s|
    ensures Splice(Splice(s, at, x), at + |x|, y) == Splice(s, at, x + y)
  {
  }

  /** The little-endian 32-bit word at position o of a buffer. */
  function GetU32(s: seq<byte>, o: nat): (w: u32)
    requires o + 4 <= |s|
  {
    var b0: int, b1: int, b2: int, b3: int := s[o], s[o + 1], s[o + 2], s[o + 3];
    b0 + 0x100 * b1 + 0x1_0000 * b2 + 0x100_0000 * b3
  }

  /** The four bytes of a word, low byte first. */
  function U32Bytes(w: u32): (s: seq<byte>)
    ensures |s| == 4
  {
    [w % 0x100, w / 0x100 % 0x100, w / 0x1_0000 % 0x100, w / 0x100_0000]
  }

  /** Storing a word and reading it back. */
  lemma {:induction false} U32RoundTrip(s: seq<byte>, o: nat, w: u32)
    requires o + 4 <= |s|
    ensures GetU32(Splice(s, o, U32Bytes(w)), o) == w
  {
    var t := Splice(s, o, U32Bytes(w));
    assert t[o] == w % 0x100 && t[o + 1] == w / 0x100 % 0x100;
    assert t[o + 2] == w / 0x1_0000 % 0x100 && t[o + 3] == w / 0x100_0000;
    assert w / 0x1_0000 == w / 0x100 / 0x100 && w / 0x100_0000 == w / 0x1_0000 / 0x100;
  }

  /** Storing a word leaves every other aligned word alone. */
  lemma {:induction false} U32Elsewhere(s: seq<byte>, o: nat, w: u32, p: nat)
    requires o + 4 <= |s| && p + 4 <= |s|
    requires p + 4 <= o || o + 4 <= p
    ensures GetU32(Splice(s, o, U32Bytes(w)), p) == GetU32(s, p)
  {
  }

  /** n pieces of B bytes each: n * B, written as a sum so that its uses stay linear. */
  function Span(n: nat, B: nat): (s: nat) {
    if n == 0 then 0 else Span(n - 1, B) + B
  }

  lemma {:induction false} SpanIsProduct(n: nat, B: nat)
    ensures Span(n, B) == n * B
  {
    if n > 0 {
      SpanIsProduct(n - 1, B);
      assert n * B == (n - 1) * B + B;
    }
  }

  lemma {:induction false} SpanMonotone(m: nat, n: nat, B: nat)
    requires m <= n
    ensures Span(m, B) <= Span(n, B)
    decreases n
  {
    if m < n {
      SpanMonotone(m, n - 1, B);
    }
  }

  /** Byte off is byte off % B of cluster off / B. */
  lemma {:induction false} SpanDiv(off: nat, B: nat)
    requires 0 < B
    ensures 0 <= off / B && 0 <= off % B < B && off == Span(off / B, B) + off % B
  {
    SpanIsProduct(off / B, B);
    assert off == off / B * B + off % B;
  }

  /** An offset below n clusters' worth of bytes lies in one of the n clusters, and no other. */
  lemma {:induction false} SpanBelow(off: nat, n: nat, B: nat)
    requires 0 < B
    ensures 0 <= off / B && (off < Span(n, B) <==> off / B < n)
  {
    SpanDiv(off, B);
    if off / B < n {
      SpanMonotone(off / B + 1, n, B);
    } else {
      SpanMonotone(n, off / B, B);
    }
  }
}
