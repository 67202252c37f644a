/** The checksum that ties the long records of a file to its short one: what one step does to the bits, and
    what the sum tells apart. */
module FatChecksum {
  import opened Bytes
  import opened FatRecords

  // ----- eight bits as a number -----

  // The bits are kept behind a key, so that proofs about numbers do not meet them.

  ghost predicate OpenBits(k: Key) {
    true
  }

  ghost predicate IsNum(b: bv8, n: byte) {
    forall k: Key {:trigger OpenBits(k)} :: OpenBits(k) ==> n == b as int
  }

  ghost function Num(b: bv8): (n: byte)
    ensures IsNum(b, n)
  {
    assert IsNum(b, b as int);
    var n :| IsNum(b, n);
    n
  }

  lemma {:induction false} NumIs(b: bv8)
    ensures Num(b) == b as int
  {
    assert OpenBits(Key);
  }

  ghost predicate IsSum(x: bv8, y: bv8, z: bv8) {
    forall k: Key {:trigger OpenBits(k)} :: OpenBits(k) ==> z == x + y
  }

  lemma {:induction false} SumZero(x: bv8, y: bv8)
    requires Num(y) == 0
    ensures IsSum(x, y, x)
  {
    NumIs(y);
    NoneMore(x, y);
  }

  lemma {:induction false} NoneMore(x: bv8, y: bv8)
    requires y as int == 0
    ensures x + y == x
  {
  }

  /** One less to add. */
  lemma {:induction false} OneLess(x: bv8, y: bv8) returns (p: bv8, z: bv8)
    requires 0 < Num(y)
    ensures Num(p) == Num(y) - 1 && IsSum(x, p, z)
    ensures forall w :: IsSum(x, y, w) ==> IsSum(z, 1, w)
  {
    p := y - 1;
    z := x + p;
    NumIs(y);
    NumIs(p);
    LessOne(y);
    forall w | IsSum(x, y, w) ensures IsSum(z, 1, w) {
      Regroup(x, y, w);
    }
  }

  lemma {:induction false} LessOne(y: bv8)
    requires y as int > 0
    ensures (y - 1) as int == y as int - 1
  {
  }

  lemma {:induction false} Regroup(x: bv8, y: bv8, w: bv8)
    requires IsSum(x, y, w)
    ensures IsSum(x + (y - 1), 1, w)
  {
    assert OpenBits(Key);
  }

  lemma {:induction false} OneMore(z: bv8, w: bv8)
    requires IsSum(z, 1, w)
    ensures Num(w) == if Num(z) == 255 then 0 else Num(z) + 1
  {
    assert OpenBits(Key);
    PlusOne(z);
    NumIs(z);
    NumIs(w);
  }

  lemma {:induction false} PlusOne(z: bv8)
    ensures (z + 1) as int == if z as int == 255 then 0 else z as int + 1
  {
  }

  lemma {:induction false} NextMod(x: nat, n: nat, z: nat, w: nat)
    requires 0 < n && z == (x + (n - 1)) % 256 && w == if z == 255 then 0 else z + 1
    ensures w == (x + n) % 256
  {
  }

  /** A sum of eight bits. */
  lemma {:induction false} SumIs(x: bv8, y: bv8, w: bv8)
    requires IsSum(x, y, w)
    ensures Num(w) == (Num(x) + Num(y)) % 256
    decreases Num(y)
  {
    if Num(y) == 0 {
      SumZero(x, y);
      SumOnce(x, y, w, x);
    } else {
      var p, z := OneLess(x, y);
      SumIs(x, p, z);
      OneMore(z, w);
      NextMod(Num(x), Num(y), Num(z), Num(w));
    }
  }

  lemma {:induction false} SumOnce(x: bv8, y: bv8, w: bv8, v: bv8)
    requires IsSum(x, y, w) && IsSum(x, y, v)
    ensures w == v
  {
    assert OpenBits(Key);
  }

  /** The two shifts are the halving and the bit that comes in at the top. */
  lemma {:induction false} Rotated(x: bv8)
    ensures Num((x >> 1) | (x << 7)) == (if Num(x) % 2 == 1 then 0x80 else 0) + Num(x) / 2
  {
    NumIs(x);
    NumIs((x >> 1) | (x << 7));
    Rotation(x);
  }

  lemma {:induction false} Rotation(x: bv8)
    ensures ((x >> 1) | (x << 7)) as int == (if x as int % 2 == 1 then 0x80 else 0) + x as int / 2
  {
    ShiftedDown(x);
    TopBit(x, x >> 1);
  }

  lemma {:induction false} ShiftedDown(x: bv8)
    ensures (x >> 1) as int == x as int / 2 && (x & 1 == 1 <==> x as int % 2 == 1)
  {
  }

  lemma {:induction false} TopBit(x: bv8, h: bv8)
    requires h == x >> 1
    ensures (h | (x << 7)) as int == (if x & 1 == 1 then 0x80 else 0) + h as int
  {
  }

  lemma {:induction false} StepIs(sum: byte, c: byte, r: byte)
    requires r == (if sum % 2 == 1 then 0x80 else 0) + sum / 2
    ensures ChecksumStep(sum, c) == (r + c) % 256
  {
  }

  lemma {:induction false} StepNum(sum: bv8, c: bv8, w: bv8)
    requires IsSum((sum >> 1) | (sum << 7), c, w)
    ensures ChecksumStep(Num(sum), Num(c)) == Num(w)
  {
    Rotated(sum);
    SumIs((sum >> 1) | (sum << 7), c, w);
    StepIs(Num(sum), Num(c), Num((sum >> 1) | (sum << 7)));
  }

  /** One step of the checksum rotates the eight bits right by one and adds the character. */
  lemma {:induction false} StepBits(sum: bv8, c: bv8)
    ensures ChecksumStep(sum as int, c as int) == (((sum >> 1) | (sum << 7)) + c) as int
  {
    StepNum(sum, c, ((sum >> 1) | (sum << 7)) + c);
    NumIs(sum);
    NumIs(c);
    NumIs(((sum >> 1) | (sum << 7)) + c);
  }

  // ----- what the sum tells apart -----

  /** Every long record of a file carries the sum of its short one's name. */
  lemma {:induction false} SumsTie(e: Entry, j: nat)
    requires |e.name| <= 247 && j < e.Longs()
    ensures FileRecs(e)[j][13] == Checksum(FileRecs(e)[e.Longs()][..11])
  {
    FileRecIs(e, j);
    FileRecIs(e, e.Longs());
    ShortOfIs(ShortName(e.name), e);
  }

  /** A step loses nothing, neither of the sum nor of the character. */
  lemma {:induction false} StepApart(a: byte, b: byte, c: byte, d: byte)
    requires (a != b && c == d) || (a == b && c != d)
    ensures ChecksumStep(a, c) != ChecksumStep(b, d)
  {
    var p, q := (if a % 2 == 1 then 0x80 else 0) + a / 2, (if b % 2 == 1 then 0x80 else 0) + b / 2;
    assert a != b ==> p != q;
    SumApart(p, c, q, d);
  }

  lemma {:induction false} SumApart(p: byte, c: byte, q: byte, d: byte)
    requires (p != q && c == d) || (p == q && c != d)
    ensures (p + c) % 256 != (q + d) % 256
  {
    assert (p + c) % 256 == if p + c < 256 then p + c else p + c - 256;
    assert (q + d) % 256 == if q + d < 256 then q + d else q + d - 256;
  }

  /** Names that differ in one character have different sums. */
  lemma {:induction false} SumsApart(s: seq<byte>, t: seq<byte>, k: nat)
    requires |s| == |t| && k < |s| && s[k] != t[k] && forall i :: 0 <= i < |s| && i != k ==> s[i] == t[i]
    ensures Checksum(s) != Checksum(t)
  {
    var n := |s| - 1;
    if k < n {
      SumsApart(s[..n], t[..n], k);
    } else {
      assert s[..n] == t[..n];
    }
    StepApart(Checksum(s[..n]), Checksum(t[..n]), s[n], t[n]);
  }
}
