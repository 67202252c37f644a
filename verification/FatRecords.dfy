/** The 32-byte directory records of FAT32 (section 7 of the 2005 Microsoft FAT Specification, long
    file names): what emake prints and enext parses. */
module FatRecords {
  import opened Bytes
  import opened FatFiles

  const CHAR_SHORT_NAME := 11
  const CHAR_LONG_NAME := 13
  const LAST_LONG_ENTRY := 0x40
  const EMPTY_ENTRY := 0xe5
  const END_OF_ENTRY := 0x00
  const SPACE := 0x20
  const DOT := 0x2e

  /** A file as its directory describes it. */
  datatype Entry = Entry(name: seq<byte>, attribute: byte, firstClus: u32, fileSize: u32) {

    /** A name whose long records fit the 256-byte name buffer when they are read back (19 records of
        13 characters, 247 characters), whose short name does not start like an empty slot, and an
        attribute that is not the long-record mark. */
    ghost predicate Good() {
      && 1 <= |name| <= 247 && 0 !in name && attribute != ATTR_LONG_NAME
      && forall k: Key {:trigger OpenGood(k)} :: OpenGood(k) ==> ShortName(name)[0] != EMPTY_ENTRY
    }

    /** Long records of the name, rounding up. */
    function Longs(): nat {
      (|name| + CHAR_LONG_NAME - 1) / CHAR_LONG_NAME
    }
  }

  ghost predicate OpenGood(k: Key) {
    true
  }

  // ----- the layout of a record -----

  /** Where the t-th of the 13 characters of a long record sits: name1, name2 or name3. */
  function CharPos(t: nat): nat
    requires t < 13
  {
    if t < 5 then 1 + 2 * t else if t < 11 then 14 + 2 * (t - 5) else 28 + 2 * (t - 11)
  }

  /** Low byte of the character at position p of a name: the name, its terminator, then padding. */
  function CharLo(name: seq<byte>, p: nat): byte {
    if p < |name| then name[p] else if p == |name| then 0 else 0xff
  }

  function CharHi(name: seq<byte>, p: nat): byte {
    if p <= |name| then 0 else 0xff
  }

  /** The first byte of the i-th of n long records. */
  function Order(i: nat, n: nat): nat {
    if i == n then i + 0x40 else i
  }

  /** A byte of one of the three name fields, and whose character it is. */
  predicate IsChar(k: nat) {
    1 <= k <= 10 || 14 <= k <= 25 || 28 <= k < 32
  }

  function CharOf(k: nat): (t: nat)
    requires IsChar(k)
    ensures t < 13 && (k == CharPos(t) || k == CharPos(t) + 1)
  {
    if k <= 10 then (k - 1) / 2 else if k <= 25 then 5 + (k - 14) / 2 else 11 + (k - 28) / 2
  }

  /** The i-th of n long records of a name: order, 13 characters over three fields, attribute, checksum. */
  function LongOf(name: seq<byte>, i: nat, n: nat, chk: byte): Rec
    requires 1 <= i <= n <= 19
  {
    seq(32, k requires 0 <= k < 32 =>
      if IsChar(k) then CharByte(name, (i - 1) * 13 + CharOf(k), k - CharPos(CharOf(k)))
      else if k == 0 then Order(i, n)
      else if k == 11 then ATTR_LONG_NAME
      else if k == 13 then chk
      else 0)
  }

  function CharByte(name: seq<byte>, p: nat, half: nat): byte {
    if half == 0 then CharLo(name, p) else CharHi(name, p)
  }

  function U16(r: Rec, o: nat): int
    requires o + 2 <= 32
  {
    var lo: int, hi: int := r[o], r[o + 1];
    lo + 0x100 * hi
  }

  /** The first cluster in a short record. */
  function ClusOf(r: Rec): u32 {
    U16(r, 20) * 0x1_0000 + U16(r, 26)
  }

  // ----- printing -----

  /** The first NUL of a name buffer. */
  function StrLen(buf: seq<byte>): (n: nat)
    requires 0 in buf
    ensures n < |buf| && buf[n] == 0 && forall i :: 0 <= i < n ==> buf[i] != 0
  {
    if buf[0] == 0 then 0 else 1 + StrLen(buf[1..])
  }

  /** The buffer holds this name as a C string. */
  ghost predicate NameIs(buf: seq<byte>, name: seq<byte>) {
    && |buf| == NAME_BUFFER && |name| < |buf|
    && (forall i :: 0 <= i < |name| ==> buf[i] == name[i] && name[i] != 0)
    && buf[|name|] == 0
  }

  lemma {:induction false} NameLength(buf: seq<byte>, name: seq<byte>)
    requires NameIs(buf, name)
    ensures 0 in buf && StrLen(buf) == |name| && buf[..StrLen(buf)] == name
  {
    assert buf[|name|] in buf;
    assert buf[..|name|] == name;
  }

  /** The inner loops of emake for one long record: order, then 13 characters over three fields. */
  method FillLong(from: Rec, filename: seq<byte>, ghost name: seq<byte>, i: nat, n: nat) returns (de: Rec)
    requires NameIs(filename, name) && 1 <= i <= n <= 19 && (i - 1) * 13 <= |name| <= 247
    requires from[11] == ATTR_LONG_NAME && from[12] == from[26] == from[27] == 0
    ensures de == LongOf(name, i, n, from[13])
  {
    de := from;
    de := de[0 := i];
    if i == n {
      de := de[0 := i + LAST_LONG_ENTRY];
    }
    var p := (i - 1) * CHAR_LONG_NAME;
    var w := 1;
    var end := false;
    var j := 1;
    while j <= CHAR_LONG_NAME
      invariant 1 <= j <= 14
      invariant j <= 13 ==> w == CharPos(j - 1)
      invariant end == ((i - 1) * 13 + j - 1 > |name|)
      invariant !end ==> p == (i - 1) * 13 + j - 1
      invariant de[0] == Order(i, n) && de[11] == ATTR_LONG_NAME && de[13] == from[13]
      invariant de[12] == de[26] == de[27] == 0
      invariant forall t :: 0 <= t < j - 1 ==>
                  && de[CharPos(t)] == CharLo(name, (i - 1) * 13 + t)
                  && de[CharPos(t) + 1] == CharHi(name, (i - 1) * 13 + t)
    {
      if end {
        de := de[w := 0xff];
        w := w + 1;
        de := de[w := 0xff];
        w := w + 1;
      } else {
        de := de[w := filename[p]];
        w := w + 1;
        p := p + 1;
        if de[w - 1] == 0 {
          end := true;
        }
        de := de[w := 0];
        w := w + 1;
      }
      if j == 5 {
        w := 14;
      } else if j == 11 {
        w := 28;
      }
      j := j + 1;
    }
    LongIs(de, name, i, n);
  }

  /** The bytes that the loop fills are those of the record. */
  lemma {:induction false} LongIs(r: Rec, name: seq<byte>, i: nat, n: nat)
    requires 1 <= i <= n <= 19
    requires r[0] == Order(i, n) && r[11] == ATTR_LONG_NAME && r[12] == r[26] == r[27] == 0
    requires forall t :: 0 <= t < 13 ==>
               && r[CharPos(t)] == CharLo(name, (i - 1) * 13 + t)
               && r[CharPos(t) + 1] == CharHi(name, (i - 1) * 13 + t)
    ensures r == LongOf(name, i, n, r[13])
  {
    var want := LongOf(name, i, n, r[13]);
    forall k | 0 <= k < 32 ensures r[k] == want[k] {
      if IsChar(k) {
        LongByte(r, name, (i - 1) * 13, k);
      } else {
        assert k == 0 || k == 11 || k == 12 || k == 13 || k == 26 || k == 27;
      }
    }
  }

  lemma {:induction false} LongByte(r: Rec, name: seq<byte>, at: nat, k: nat)
    requires IsChar(k)
    requires forall t :: 0 <= t < 13 ==>
               r[CharPos(t)] == CharLo(name, at + t) && r[CharPos(t) + 1] == CharHi(name, at + t)
    ensures r[k] == CharByte(name, at + CharOf(k), k - CharPos(CharOf(k)))
  {
    var t := CharOf(k);
    assert r[CharPos(t)] == CharLo(name, at + t);
  }

  /** What is in a long record beside its characters. */
  lemma {:induction false} LongBlank(name: seq<byte>, i: nat, n: nat, chk: byte)
    requires 1 <= i <= n <= 19
    ensures var r := LongOf(name, i, n, chk);
            r[0] == Order(i, n) && r[11] == ATTR_LONG_NAME && r[13] == chk && r[12] == r[26] == r[27] == 0
  {
    assert !IsChar(0) && !IsChar(11) && !IsChar(12) && !IsChar(13) && !IsChar(26) && !IsChar(27);
  }

  /** The characters of a long record sit at their places. */
  lemma {:induction false} LongChars(name: seq<byte>, i: nat, n: nat, chk: byte, t: nat)
    requires 1 <= i <= n <= 19 && t < 13
    ensures LongOf(name, i, n, chk)[CharPos(t)] == CharLo(name, (i - 1) * 13 + t)
  {
  }

  /** A character as a short name has it: upper case, and the six that it must not hold replaced. */
  function ShortChar(c: byte): (r: byte)
    ensures c != 0 ==> r != 0
    ensures c < 128 ==> r < 128
  {
    if 0x61 <= c <= 0x7a then c - 0x20 else if c in {0x2b, 0x2c, 0x3b, 0x3d, 0x5b, 0x5d} then 0x5f else c
  }

  predicate Skipped(c: byte) {
    c == SPACE || c == DOT
  }

  /** The characters of a part of a name without spaces and dots. */
  function Kept(s: seq<byte>): seq<byte> {
    if s == [] then []
    else if Skipped(s[|s| - 1]) then Kept(s[..|s| - 1])
    else Kept(s[..|s| - 1]) + [ShortChar(s[|s| - 1])]
  }

  lemma {:induction false} KeptMore(s: seq<byte>, n: nat)
    requires n < |s|
    ensures Kept(s[..n + 1]) == if Skipped(s[n]) then Kept(s[..n]) else Kept(s[..n]) + [ShortChar(s[n])]
  {
    assert s[..n + 1][..n] == s[..n];
  }

  lemma {:induction false} KeptPrefix(s: seq<byte>, n: nat)
    requires n <= |s|
    ensures |Kept(s[..n])| <= |Kept(s)| && Kept(s)[..|Kept(s[..n])|] == Kept(s[..n])
    decreases |s|
  {
    if n < |s| {
      KeptPrefix(s[..|s| - 1], n);
      assert s[..|s| - 1][..n] == s[..n];
    } else {
      assert s[..n] == s;
    }
  }

  /** s cut or filled with spaces to n characters. */
  function Padded(s: seq<byte>, n: nat): (r: seq<byte>)
    ensures |r| == n
  {
    if |s| >= n then s[..n] else s + seq(n - |s|, _ => SPACE)
  }

  /** The last dot of a name, or its end. */
  function LastDotOf(name: seq<byte>): (d: nat)
    ensures d <= |name| && (d < |name| ==> name[d] == DOT) && forall q :: d < q < |name| ==> name[q] != DOT
    ensures d == |name| ==> forall q :: 0 <= q < |name| ==> name[q] != DOT
  {
    if name == [] then 0
    else if name[|name| - 1] == DOT then |name| - 1
    else
      var d := LastDotOf(name[..|name| - 1]);
      if d == |name| - 1 then |name| else d
  }

  /** The short name: eight characters from before the last dot, three from behind it. */
  function ShortName(name: seq<byte>): (s: seq<byte>)
    ensures |s| == 11
  {
    var d := LastDotOf(name);
    Padded(Kept(name[..d]), 8) + Padded(if d < |name| then Kept(name[d + 1..]) else [], 3)
  }

  lemma {:induction false} KeptChars(s: seq<byte>)
    requires 0 !in s
    ensures 0 !in Kept(s)
  {
    if s != [] {
      KeptChars(s[..|s| - 1]);
    }
  }

  lemma {:induction false} ShortNameChars(name: seq<byte>)
    requires 0 !in name
    ensures 0 !in ShortName(name)
  {
    var d := LastDotOf(name);
    KeptChars(name[..d]);
    if d < |name| {
      KeptChars(name[d + 1..]);
    }
  }

  /** The last dot of a name, or 0 when it has none. */
  method LastDot(filename: seq<byte>, ghost name: seq<byte>, len: nat) returns (p: nat)
    requires len == |name| <= |filename| && filename[..len] == name
    ensures p == if LastDotOf(name) < len then LastDotOf(name) else 0
  {
    var j := len - 1;
    while j >= 0
      invariant -1 <= j < len
      invariant forall q :: j < q < len ==> filename[q] != DOT
    {
      assert filename[j] == name[j];
      if filename[j] == DOT {
        return j;
      }
      j := j - 1;
    }
    p := 0;
  }

  /** generate_shortname: exactly the short name, whatever the name is. */
  method GenerateShortname(filename: seq<byte>, ghost name: seq<byte>) returns (short: seq<byte>)
    requires NameIs(filename, name)
    ensures short == ShortName(name)
  {
    NameLength(filename, name);
    var len := StrLen(filename);
    var dot := LastDot(filename, name, len);
    var p: int := dot;                       // -1 stands for NULL
    short := Zeros(CHAR_SHORT_NAME);
    var i: nat, n: nat := 0, 0;
    ghost var full := false;
    assert name[..0] == [];
    while i < CHAR_SHORT_NAME && filename[n] != 0
      invariant i <= 11 && n <= len && (p == -1 || p == dot) && |short| == 11 && !full
      invariant Half(name, n, i, short, p >= 0)
      decreases p >= 0, len - n
    {
      var c := filename[n];
      n := n + 1;
      if i == 8 && p >= 0 {
        HalfFull(name, n - 1, short, dot);
        if p + 1 < n {
          full := true;
          break;
        }
        n, p := p + 1, -1;
        continue;
      }
      HalfFacts(name, n - 1, i, short, p >= 0);
      ghost var i0, p0, short0 := i, p, short;
      i, p, short := PutShort(c, n, i, p, short);
      HalfStep(name, n - 1, i0, p0, short0, dot, i, p, short);
    }
    ShortDone(name, n, i, short, p >= 0, full);
    short := FillShort(short, i, ShortName(name));
  }

  /** The last loop of generate_shortname. */
  method FillShort(short: seq<byte>, from: nat, ghost goal: seq<byte>) returns (r: seq<byte>)
    requires |short| == |goal| == 11 && from <= 11 && short[..from] == goal[..from]
    requires forall k :: from <= k < 11 ==> goal[k] == SPACE
    ensures r == goal
  {
    r := short;
    var i := from;
    while i < CHAR_SHORT_NAME
      invariant i <= 11 && |r| == 11 && r[..i] == goal[..i]
    {
      r := r[i := SPACE];
      i := i + 1;
    }
  }

  ghost predicate PutTo(c: byte, n: nat, i: nat, p: int, short: seq<byte>, i': nat, p': int, short': seq<byte>)
    requires |short| == 11 && i < 11
  {
    && |short'| == 11 && i' <= 11
    && (c == SPACE || (c == DOT && n <= p) ==> i' == i && p' == p && short' == short)
    && (c == DOT && n > p ==> i' == 8 && p' == -1 && i <= 8 && short' == Splice(short, i, seq(8 - i, _ => SPACE)))
    && (!Skipped(c) ==> i' == i + 1 && p' == p && short' == short[i := ShortChar(c)])
  }

  /** A character c, read before position n, put into the short name. */
  method PutShort(c: byte, n: nat, i: nat, p: int, short: seq<byte>) returns (i': nat, p': int, short': seq<byte>)
    requires |short| == 11 && i < 11 && (p >= 0 ==> i < 8) && (p < 0 ==> p == -1 && c != DOT)
    ensures PutTo(c, n, i, p, short, i', p', short')
  {
    i', p', short' := i, p, short;
    if c == SPACE {
      return;
    }
    if c == DOT {
      if n > p {
        short' := Splice(short, i, seq(8 - i, _ => SPACE));
        i', p' := 8, -1;
      }
      return;
    }
    var x := c;
    if 0x61 <= c <= 0x7a {
      x := c - 0x20;
    } else if c in {0x2b, 0x2c, 0x3b, 0x3d, 0x5b, 0x5d} {
      x := 0x5f;
    }
    short' := short[i := x];
    i' := i + 1;
  }

  /** Before the last dot: n characters of the name have given the first i of the short name. */
  ghost predicate Stem(name: seq<byte>, n: nat, i: nat, short: seq<byte>) {
    i <= 8 && i <= |short| && n <= LastDotOf(name) && short[..i] == Kept(name[..n])
  }

  /** Behind the last dot. */
  ghost predicate Behind(name: seq<byte>, n: nat, i: nat, short: seq<byte>) {
    var d := LastDotOf(name);
    && d < n <= |name| && 8 <= i <= |short|
    && short[..8] == Padded(Kept(name[..d]), 8) && short[8..i] == Kept(name[d + 1..n])
  }

  ghost predicate OpenHalf(k: Key) {
    true
  }

  /** Before the last dot, or behind it. */
  ghost predicate Half(name: seq<byte>, n: nat, i: nat, short: seq<byte>, stem: bool) {
    (stem ==> i <= 8) && forall k: Key {:trigger OpenHalf(k)} :: OpenHalf(k) ==>
      if stem then Stem(name, n, i, short) else Behind(name, n, i, short)
  }

  lemma {:induction false} HalfFacts(name: seq<byte>, n: nat, i: nat, short: seq<byte>, stem: bool)
    requires Half(name, n, i, short, stem) && n < |name|
    ensures !stem ==> name[n] != DOT
  {
    assert OpenHalf(Key);
  }

  lemma {:induction false} HalfFull(name: seq<byte>, n: nat, short: seq<byte>, dot: nat)
    requires Half(name, n, 8, short, true) && dot == if LastDotOf(name) < |name| then LastDotOf(name) else 0
    ensures dot + 1 < n + 1 ==> LastDotOf(name) == |name| && 8 <= |short| && short[..8] == Padded(Kept(name), 8)
    ensures dot + 1 >= n + 1 ==> dot < |name| && Half(name, dot + 1, 8, short, false)
  {
    assert OpenHalf(Key);
    StemFull(name, n, short);
    assert name[..|name|] == name;
  }

  lemma {:induction false} HalfStep(name: seq<byte>, n: nat, i: nat, p: int, short: seq<byte>, dot: nat,
                                    i': nat, p': int, short': seq<byte>)
    requires Half(name, n, i, short, p >= 0) && n < |name| && |short| == 11 && i < 11 && (p >= 0 ==> i < 8 && p == dot)
    requires dot == (if LastDotOf(name) < |name| then LastDotOf(name) else 0) && (p < 0 ==> p == -1)
    requires PutTo(name[n], n + 1, i, p, short, i', p', short')
    ensures Half(name, n + 1, i', short', p' >= 0)
  {
    assert OpenHalf(Key);
    if p >= 0 {
      StemStep(name, n, i, short, dot);
    } else {
      BehindStep(name, n, i, short);
    }
  }

  /** With eight characters the rest before the dot does not count. */
  lemma {:induction false} StemFull(name: seq<byte>, n: nat, short: seq<byte>)
    requires Stem(name, n, 8, short)
    ensures short[..8] == Padded(Kept(name[..LastDotOf(name)]), 8) && 8 <= n
    ensures LastDotOf(name) < |name| ==> Behind(name, LastDotOf(name) + 1, 8, short)
  {
    var d := LastDotOf(name);
    KeptPrefix(name[..d], n);
    assert name[..d][..n] == name[..n];
    KeptShort(name[..n]);
    if d < |name| {
      assert name[d + 1..d + 1] == [];
    }
  }

  lemma {:induction false} KeptShort(s: seq<byte>)
    ensures |Kept(s)| <= |s|
  {
    if s != [] {
      KeptShort(s[..|s| - 1]);
    }
  }

  /** One character before the dot, or the dot itself. */
  lemma {:induction false} StemStep(name: seq<byte>, n: nat, i: nat, short: seq<byte>, dot: nat)
    requires Stem(name, n, i, short) && i < 8 && n < |name| && |short| == 11
    requires dot == if LastDotOf(name) < |name| then LastDotOf(name) else 0
    ensures name[n] == DOT ==> (n + 1 > dot <==> n == LastDotOf(name))
    ensures name[n] == SPACE || (name[n] == DOT && n != LastDotOf(name)) ==> Stem(name, n + 1, i, short)
    ensures n == LastDotOf(name) ==> Behind(name, n + 1, 8, Splice(short, i, seq(8 - i, _ => SPACE)))
    ensures !Skipped(name[n]) ==> Stem(name, n + 1, i + 1, short[i := ShortChar(name[n])])
  {
    var d := LastDotOf(name);
    KeptMore(name, n);
    if n == d {
      var short' := Splice(short, i, seq(8 - i, _ => SPACE));
      assert short'[..8] == Padded(Kept(name[..d]), 8);
      assert name[d + 1..d + 1] == [];
    }
  }

  /** One character behind the dot. */
  lemma {:induction false} BehindStep(name: seq<byte>, n: nat, i: nat, short: seq<byte>)
    requires Behind(name, n, i, short) && n < |name| && i < |short|
    ensures name[n] != DOT
    ensures name[n] == SPACE ==> Behind(name, n + 1, i, short)
    ensures name[n] != SPACE ==> Behind(name, n + 1, i + 1, short[i := ShortChar(name[n])])
  {
    KeptFrom(name, LastDotOf(name) + 1, n);
    PutBehind(short, i, ShortChar(name[n]));
  }

  lemma {:induction false} KeptFrom(s: seq<byte>, a: nat, n: nat)
    requires a <= n < |s|
    ensures Kept(s[a..n + 1]) == if Skipped(s[n]) then Kept(s[a..n]) else Kept(s[a..n]) + [ShortChar(s[n])]
  {
    KeptMore(s[a..], n - a);
    assert s[a..][..n - a] == s[a..n] && s[a..][..n - a + 1] == s[a..n + 1];
  }

  lemma {:induction false} PutBehind(short: seq<byte>, i: nat, x: byte)
    requires 8 <= i < |short|
    ensures short[i := x][..8] == short[..8] && short[i := x][8..i + 1] == short[8..i] + [x]
  {
  }

  /** What the loop leaves is the short name up to i, and spaces are missing behind it. */
  lemma {:induction false} ShortDone(name: seq<byte>, n: nat, i: nat, short: seq<byte>, stem: bool, full: bool)
    requires |short| == 11 && i <= 11 && n <= |name|
    requires full ==> stem && i == 8 && LastDotOf(name) == |name| && short[..8] == Padded(Kept(name), 8)
    requires !full ==> Half(name, n, i, short, stem) && (i == 11 || n == |name|)
    ensures short[..i] == ShortName(name)[..i] && forall k :: i <= k < 11 ==> ShortName(name)[k] == SPACE
  {
    assert OpenHalf(Key);
    assert name[..|name|] == name;
    if stem {
      StemDone(name, i, short);
    } else {
      BehindDone(name, n, i, short);
    }
  }

  lemma {:induction false} StemDone(name: seq<byte>, i: nat, short: seq<byte>)
    requires |short| == 11 && i <= 8 && LastDotOf(name) == |name|
    requires short[..i] == Kept(name) || (i == 8 && short[..8] == Padded(Kept(name), 8))
    ensures short[..i] == ShortName(name)[..i] && forall k :: i <= k < 11 ==> ShortName(name)[k] == SPACE
  {
    assert name[..|name|] == name;
  }

  lemma {:induction false} BehindDone(name: seq<byte>, n: nat, i: nat, short: seq<byte>)
    requires |short| == 11 && i <= 11 && Behind(name, n, i, short) && (i == 11 || n == |name|)
    ensures short[..i] == ShortName(name)[..i] && forall k :: i <= k < 11 ==> ShortName(name)[k] == SPACE
  {
    var d := LastDotOf(name);
    var ext := name[d + 1..];
    KeptPrefix(ext, n - d - 1);
    assert ext[..n - d - 1] == name[d + 1..n];
    assert n == |name| ==> name[d + 1..n] == ext;
    TwoParts(short, i, Padded(Kept(name[..d]), 8), Kept(ext));
  }

  lemma {:induction false} TwoParts(short: seq<byte>, i: nat, a: seq<byte>, e: seq<byte>)
    requires |short| == 11 && 8 <= i <= 11 && |a| == 8 && short[..8] == a
    requires i - 8 <= |e| && short[8..i] == e[..i - 8] && (i == 11 || i - 8 == |e|)
    ensures short[..i] == (a + Padded(e, 3))[..i] && forall k :: i <= k < 11 ==> (a + Padded(e, 3))[k] == SPACE
  {
    assert short[..i] == short[..8] + short[8..i];
  }

  /** One step of the checksum: rotate right within eight bits and add. */
  function ChecksumStep(sum: byte, c: byte): byte {
    ((if sum % 2 == 1 then 0x80 else 0) + sum / 2 + c) % 256
  }

  function Checksum(s: seq<byte>): byte {
    if s == [] then 0 else ChecksumStep(Checksum(s[..|s| - 1]), s[|s| - 1])
  }

  /** cal_checksum */
  method CalChecksum(short: seq<byte>) returns (sum: byte)
    requires |short| == 11
    ensures sum == Checksum(short)
  {
    sum := 0;
    var k := 0;
    var i := CHAR_SHORT_NAME;
    while i != 0
      invariant 0 <= i && k + i == 11 && sum == Checksum(short[..k])
    {
      assert short[..k + 1][..k] == short[..k];
      sum := ChecksumStep(sum, short[k]);
      k := k + 1;
      i := i - 1;
    }
    assert short[..11] == short;
  }

  /** The two halves of a first cluster and the size, as emake and eupdate store them. */
  function PutInfo(r: Rec, firstClus: u32, fileSize: u32): Rec {
    var hi, lo := firstClus / 0x1_0000, firstClus % 0x1_0000;
    var r1: Rec := r[20 := hi % 0x100][21 := hi / 0x100];
    var r2: Rec := r1[26 := lo % 0x100][27 := lo / 0x100];
    Splice(r2, 28, U32Bytes(fileSize))
  }

  /** Stored information reads back, and nothing else of the record has changed. */
  lemma {:induction false} InfoRoundTrip(r: Rec, firstClus: u32, fileSize: u32)
    ensures ClusOf(PutInfo(r, firstClus, fileSize)) == firstClus
    ensures GetU32(PutInfo(r, firstClus, fileSize), 28) == fileSize
    ensures forall k :: 0 <= k < 20 || 22 <= k < 26 ==> PutInfo(r, firstClus, fileSize)[k] == r[k]
  {
    var hi, lo := firstClus / 0x1_0000, firstClus % 0x1_0000;
    var r2: Rec := r[20 := hi % 0x100][21 := hi / 0x100][26 := lo % 0x100][27 := lo / 0x100];
    assert r2[20] == hi % 0x100 && r2[21] == hi / 0x100 && r2[26] == lo % 0x100 && r2[27] == lo / 0x100;
    U32RoundTrip(r2, 28, fileSize);
  }

  /** The short record that emake writes behind the long ones. */
  function ShortOf(short: seq<byte>, e: Entry): Rec
    requires |short| == 11
  {
    var r: Rec := Splice(Zeros(32), 0, short);
    PutInfo(r[11 := e.attribute], e.firstClus, e.fileSize)
  }

  lemma {:induction false} ShortOfIs(short: seq<byte>, e: Entry)
    requires |short| == 11
    ensures ShortOf(short, e)[..11] == short && ShortOf(short, e)[11] == e.attribute
    ensures ClusOf(ShortOf(short, e)) == e.firstClus && GetU32(ShortOf(short, e), 28) == e.fileSize
  {
    var r: Rec := Splice(Zeros(32), 0, short);
    InfoRoundTrip(r[11 := e.attribute], e.firstClus, e.fileSize);
  }

  /** The j-th record that emake writes for a file: the long ones, last part first, then the short one. */
  function FileRec(e: Entry, j: nat): Rec
    requires |e.name| <= 247 && j <= e.Longs()
  {
    var short := ShortName(e.name);
    if j < e.Longs() then LongOf(e.name, e.Longs() - j, e.Longs(), Checksum(short)) else ShortOf(short, e)
  }

  lemma {:induction false} LongFileRec(e: Entry, j: nat)
    requires |e.name| <= 247 && j < e.Longs()
    ensures FileRec(e, j) == LongOf(e.name, e.Longs() - j, e.Longs(), Checksum(ShortName(e.name)))
  {
  }

  ghost predicate OpenRecs(k: Key) {
    true
  }

  ghost predicate RecsAre(e: Entry, x: seq<Rec>)
    requires |e.name| <= 247
  {
    |x| == e.Longs() + 1 && forall k: Key {:trigger OpenRecs(k)} :: OpenRecs(k) ==>
      forall j :: 0 <= j <= e.Longs() ==> x[j] == FileRec(e, j)
  }

  /** All of them. */
  ghost function FileRecs(e: Entry): (x: seq<Rec>)
    requires |e.name| <= 247
    ensures RecsAre(e, x) && |x| == e.Longs() + 1
  {
    assert RecsAre(e, seq(e.Longs() + 1, j requires 0 <= j <= e.Longs() => FileRec(e, j)));
    var x :| RecsAre(e, x);
    x
  }

  lemma {:induction false} FileRecIs(e: Entry, j: nat)
    requires |e.name| <= 247 && j <= e.Longs()
    ensures FileRecs(e)[j] == FileRec(e, j)
  {
    assert OpenRecs(Key);
  }

  /** The ".", or ".." record that emake writes at offset 0, or 32. */
  function DotName(second: bool): seq<byte> {
    if second then [DOT, DOT] else [DOT]
  }

  function DotPadded(second: bool): (s: seq<byte>)
    ensures |s| == 11
  {
    DotName(second) + seq(11 - |DotName(second)|, _ => SPACE)
  }

  /** The dot record of a directory that starts at cluster firstClus. */
  function DotRec(second: bool, firstClus: u32): Rec {
    ShortOf(DotPadded(second), Entry(DotName(second), ATTR_DIRECTORY, firstClus, 0))
  }

  // ----- parsing -----

  /** A C string: the bytes before the first NUL. */
  function CStr(s: seq<byte>): (t: seq<byte>)
    ensures |t| <= |s| && t == s[..|t|] && 0 !in t && (|t| < |s| ==> s[|t|] == 0)
  {
    if s == [] || s[0] == 0 then [] else [s[0]] + CStr(s[1..])
  }

  lemma {:induction false} CStrIs(s: seq<byte>, n: nat)
    requires n <= |s| && (forall k :: 0 <= k < n ==> s[k] != 0) && (n < |s| ==> s[n] == 0)
    ensures CStr(s) == s[..n]
  {
    var t := CStr(s);
    assert forall k :: 0 <= k < |t| ==> t[k] in t && t[k] == s[k];
  }

  /** How many wide characters come before the first zero one. */
  function WideLen(src: seq<int>): (k: nat)
    ensures k <= |src| && (k < |src| ==> src[k] == 0) && forall t :: 0 <= t < k ==> src[t] != 0
  {
    if src == [] || src[0] == 0 then 0 else 1 + WideLen(src[1..])
  }

  lemma {:induction false} WideLenIs(src: seq<int>, k: nat)
    requires k <= |src| && (k < |src| ==> src[k] == 0) && forall t :: 0 <= t < k ==> src[t] != 0
    ensures WideLen(src) == k
  {
    var w := WideLen(src);
  }

  /** snstr: the low bytes of wide characters up to a zero one, then zeros, but with the last
      position left as it was when a zero is met. */
  method Snstr(buf: seq<byte>, at: nat, src: seq<int>) returns (out: seq<byte>)
    requires at + |src| <= |buf| && forall t :: 0 <= t < |src| ==> 0 <= src[t] < 0x1_0000
    ensures |out| == |buf|
    ensures var k := WideLen(src);
            forall q :: 0 <= q < |buf| ==>
              out[q] == if at <= q < at + k then src[q - at] % 0x100
                        else if at + k <= q < at + |src| - 1 then 0
                        else buf[q]
  {
    out := buf;
    var len: int := |src|;
    var d, s := at, 0;
    while len > 0 && src[s] != 0
      invariant 0 <= s <= |src| && len == |src| - s && d == at + s && |out| == |buf|
      invariant forall t :: 0 <= t < s ==> src[t] != 0
      invariant forall q :: 0 <= q < |buf| ==> out[q] == if at <= q < at + s then src[q - at] % 0x100 else buf[q]
    {
      out := out[d := src[s] % 0x100];
      d := d + 1;
      s := s + 1;
      len := len - 1;
    }
    WideLenIs(src, s);
    len := len - 1;                          // the failing test of the loop decrements too
    ghost var k := s;
    while len > 0
      invariant k <= s && len == |src| - 1 - s && d == at + s && |out| == |buf|
      invariant k < |src| ==> s <= |src| - 1
      invariant k == |src| ==> s == k
      invariant forall q :: 0 <= q < |buf| ==>
                  out[q] == if at <= q < at + k then src[q - at] % 0x100 else if at + k <= q < at + s then 0 else buf[q]
    {
      out := out[d := 0];
      d := d + 1;
      s := s + 1;
      len := len - 1;
    }
  }

  /** len wide characters of a record from byte o on. */
  function Wide(r: Rec, o: nat, len: nat): (w: seq<int>)
    requires o + 2 * len <= 32
    ensures |w| == len && forall t :: 0 <= t < len ==> w[t] == U16(r, o + 2 * t) && 0 <= w[t] < 0x1_0000
  {
    seq(len, t requires 0 <= t < len => U16(r, o + 2 * t))
  }

  /** The buffer holds, from position a up to b, what the name has there, with its terminator. */
  ghost predicate Holds(buf: seq<byte>, name: seq<byte>, a: nat, b: nat) {
    forall p :: a <= p < b && p < |buf| && p <= |name| ==> buf[p] == CharLo(name, p)
  }

  ghost predicate Clear(buf: seq<byte>, a: nat, b: nat) {
    forall p :: a <= p < b && p < |buf| ==> buf[p] == 0
  }

  /** A long record has the name's characters from position at on, as far as the name and its NUL go. */
  ghost predicate Shows(r: Rec, name: seq<byte>, at: nat) {
    forall t :: 0 <= t < 13 && at + t <= |name| ==> r[CharPos(t)] == CharLo(name, at + t)
  }

  /** The long branch of read_entry_name: one record's characters go to their place in the name, if that
      place is clear beforehand, since snstr may leave the terminator's position alone. */
  method ReadLongName(buf: seq<byte>, at: nat, r: Rec, ghost name: seq<byte>, ghost named: bool)
      returns (out: seq<byte>)
    requires at + 13 <= |buf| && (named ==> Shows(r, name, at) && Clear(buf, at, at + 13) && 0 !in name)
    ensures |out| == |buf| && (named ==> Holds(out, name, at, at + 13))
    ensures forall q :: 0 <= q < |buf| && !(at <= q < at + 13) ==> out[q] == buf[q]
  {
    out := ReadPart(buf, at, Wide(r, 1, 5), r, at, 0, name, named);
    out := ReadPart(out, at + 5, Wide(r, 14, 6), r, at, 5, name, named);
    out := ReadPart(out, at + 11, Wide(r, 28, 2), r, at, 11, name, named);
  }

  /** One of the three snstr calls: characters t0 and on of the record. */
  method ReadPart(buf: seq<byte>, pos: nat, src: seq<int>, ghost r: Rec, ghost at: nat, ghost t0: nat,
                  ghost name: seq<byte>, ghost named: bool)
    returns (out: seq<byte>)
    requires pos == at + t0 && pos + |src| <= |buf| && t0 + |src| <= 13
    requires forall t :: 0 <= t < |src| ==> src[t] == U16(r, CharPos(t0 + t))
    requires named ==> Shows(r, name, at) && Clear(buf, pos, pos + |src|) && 0 !in name
    ensures |out| == |buf| && (named ==> Holds(out, name, pos, pos + |src|))
    ensures forall q :: 0 <= q < |buf| && !(pos <= q < pos + |src|) ==> out[q] == buf[q]
  {
    forall t | 0 <= t < |src|
      ensures 0 <= src[t] < 0x1_0000 && src[t] % 0x100 == r[CharPos(t0 + t)]
    {
    }
    out := Snstr(buf, pos, src);
    if named {
      PartHolds(buf, pos, src, out, r, at, t0, name);
    }
  }

  lemma {:induction false} PartHolds(buf: seq<byte>, pos: nat, src: seq<int>, out: seq<byte>, r: Rec, at: nat, t0: nat,
                                     name: seq<byte>)
    requires pos == at + t0 && pos + |src| <= |buf| == |out| && t0 + |src| <= 13
    requires forall t :: 0 <= t < |src| ==> src[t] % 0x100 == r[CharPos(t0 + t)]
    requires Shows(r, name, at) && Clear(buf, pos, pos + |src|) && 0 !in name
    requires var k := WideLen(src);
             forall q :: pos <= q < pos + |src| ==>
               out[q] == if q < pos + k then src[q - pos] % 0x100 else if q < pos + |src| - 1 then 0 else buf[q]
    ensures Holds(out, name, pos, pos + |src|)
  {
    var k := WideLen(src);
    forall p | pos <= p < pos + |src| && p <= |name| ensures out[p] == CharLo(name, p) {
      assert r[CharPos(t0 + (p - pos))] == CharLo(name, at + (t0 + (p - pos)));
      assert pos + k < |name| ==> name[pos + k] in name;
    }
  }

  /** The characters of part of a short record before its first space. */
  function UpToSpace(s: seq<byte>): (t: seq<byte>)
    ensures |t| <= |s| && t == s[..|t|] && forall k :: 0 <= k < |t| ==> t[k] != SPACE
    ensures |t| < |s| ==> s[|t|] == SPACE
  {
    if s == [] || s[0] == SPACE then [] else [s[0]] + UpToSpace(s[1..])
  }

  /** The name that a short record stands for: stem, dot and extension, or the stem alone. */
  function ShortText(r: Rec): (t: seq<byte>)
    ensures |t| <= 12
  {
    UpToSpace(r[..8]) + if r[8] != SPACE then [DOT] + UpToSpace(r[8..11]) else []
  }

  /** The short branch of read_entry_name. */
  method ReadShortName(buf: seq<byte>, r: Rec) returns (out: seq<byte>)
    requires |buf| == NAME_BUFFER
    ensures out == Splice(buf, 0, ShortText(r) + Zeros(CHAR_SHORT_NAME + 2 - |ShortText(r)|))
  {
    ghost var text, stem := ShortText(r), UpToSpace(r[..8]);
    out := Splice(buf, 0, Zeros(CHAR_SHORT_NAME + 2));
    var i: nat := 0;
    while i < 8 && r[i] != SPACE
      invariant i <= |stem| && Filled(buf, out, text, i)
    {
      assert r[..8][i] == r[i];
      assert text[i] == stem[i] == r[i];
      out := out[i := r[i]];
      i := i + 1;
    }
    assert i == |stem| by {
      assert i < 8 ==> r[..8][i] == SPACE;
    }
    if r[8] != SPACE {
      out := out[i := DOT];
      i := i + 1;
    }
    var j: nat := 8;
    ghost var ext := UpToSpace(r[8..11]);
    while j < CHAR_SHORT_NAME && r[j] != SPACE
      invariant 8 <= j <= 8 + |ext| && Filled(buf, out, text, i)
      invariant i == |stem| + if r[8] != SPACE then 1 + (j - 8) else 0
      invariant r[8] == SPACE ==> ext == []
    {
      assert r[8..11][j - 8] == r[j];
      assert text[i] == ext[j - 8] == r[j];
      out := out[i := r[j]];
      j := j + 1;
      i := i + 1;
    }
    assert j == 8 + |ext| by {
      assert j < 11 ==> r[8..11][j - 8] == SPACE;
    }
  }

  /** The first i characters of text and zeros, 13 bytes in all, over the start of buf. */
  ghost predicate Filled(buf: seq<byte>, out: seq<byte>, text: seq<byte>, i: nat) {
    && |out| == |buf| == NAME_BUFFER && i <= |text| <= 12
    && (forall k :: 0 <= k < 13 ==> out[k] == if k < i then text[k] else 0)
    && (forall k :: 13 <= k < |buf| ==> out[k] == buf[k])
  }

  /** A short record gives its name, up to a NUL if it has one. */
  lemma {:induction false} ShortTextIs(buf: seq<byte>, r: Rec)
    requires |buf| == NAME_BUFFER
    ensures NameIs(Splice(buf, 0, ShortText(r) + Zeros(CHAR_SHORT_NAME + 2 - |ShortText(r)|)), CStr(ShortText(r)))
  {
    var name := CStr(ShortText(r));
    assert forall k :: 0 <= k < |name| ==> name[k] in name;
  }

  lemma {:induction false} UpToSpaceIs(s: seq<byte>, n: nat)
    requires n < |s| && s[n] == SPACE && forall k :: 0 <= k < n ==> s[k] != SPACE
    ensures UpToSpace(s) == s[..n]
  {
    var t := UpToSpace(s);
    assert |t| == n;
  }

  /** The dot records stand for the dot names. */
  lemma {:induction false} DotText(r: Rec, second: bool)
    requires r[..11] == DotPadded(second)
    ensures CStr(ShortText(r)) == DotName(second)
  {
    var d, n := DotPadded(second), |DotName(second)|;
    assert r[..8] == d[..8] && r[8] == r[..11][8] == d[8] == SPACE;
    assert d[..n] == DotName(second) && d[n] == SPACE;
    UpToSpaceIs(r[..8], n);
    assert ShortText(r) == r[..8][..n] == d[..n];
    CStrIs(ShortText(r), n);
  }
}
