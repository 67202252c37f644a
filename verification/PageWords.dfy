/** The shifts and masks of the page table code on 64-bit words, and the numbers that they stand for. */
module PageWords {
  import opened Bytes
  import opened Physical
  import opened PageEntries

  // The operators on words are kept behind a key, so that proofs about numbers do not meet them.

  ghost predicate OpenWord(k: Key) {
    true
  }

  ghost predicate Same(a: bv64, b: bv64) {
    forall k: Key {:trigger OpenWord(k)} :: OpenWord(k) ==> a == b
  }

  ghost function Half(x: bv64): (h: bv64)
    ensures Same(h, x >> 1)
  {
    assert Same(x >> 1, x >> 1);
    var h :| Same(h, x >> 1);
    h
  }

  ghost function Twice(x: bv64): (h: bv64)
    ensures Same(h, x << 1)
  {
    assert Same(x << 1, x << 1);
    var h :| Same(h, x << 1);
    h
  }

  ghost function And(x: bv64, y: bv64): (h: bv64)
    ensures Same(h, x & y)
  {
    assert Same(x & y, x & y);
    var h :| Same(h, x & y);
    h
  }

  ghost function Or(x: bv64, y: bv64): (h: bv64)
    ensures Same(h, x | y)
  {
    assert Same(x | y, x | y);
    var h :| Same(h, x | y);
    h
  }

  ghost predicate IsBit(x: bv64, b: bool) {
    forall k: Key {:trigger OpenWord(k)} :: OpenWord(k) ==> (b <==> x & 1 == 1)
  }

  ghost function Odd(x: bv64): (b: bool)
    ensures IsBit(x, b)
  {
    var b :| IsBit(x, b);
    b
  }

  /** The number of the lowest n bits of a word. */
  ghost function Low(x: bv64, n: nat): nat
    decreases n
  {
    if n == 0 then 0 else 2 * Low(Half(x), n - 1) + if Odd(x) then 1 else 0
  }

  /** The number that a word is. */
  ghost function Word(x: bv64): nat {
    Low(x, 64)
  }

  function Two(n: nat): (p: nat)
    ensures 0 < p
  {
    if n == 0 then 1 else 2 * Two(n - 1)
  }

  lemma {:induction false} TwoAdd(a: nat, b: nat)
    ensures Two(a + b) == Two(a) * Two(b)
  {
    if a > 0 {
      TwoAdd(a - 1, b);
      assert Two(a) * Two(b) == 2 * (Two(a - 1) * Two(b));
    }
  }

  /** The powers that the code needs. */
  lemma {:induction false} Powers()
    ensures Two(8) == 256 && Two(9) == 512 && Two(44) == PPN_LIMIT && Two(64) == U64_LIMIT && 2 * Two(63) == U64_LIMIT
  {
    assert Two(4) == 16 && Two(5) == 32;
    TwoAdd(4, 4);
    TwoAdd(4, 5);
    TwoAdd(8, 8);
    TwoAdd(16, 16);
    TwoAdd(32, 8);
    TwoAdd(40, 4);
    TwoAdd(32, 32);
  }

  /** Fewer bits are a remainder. */
  lemma {:induction false} LowMod(x: bv64, k: nat, n: nat)
    requires k <= n
    ensures Low(x, k) == Low(x, n) % Two(k)
    decreases k
  {
    if k > 0 {
      LowMod(Half(x), k - 1, n - 1);
      MulTwo(Low(Half(x), n - 1), Two(k - 1), if Odd(x) then 1 else 0);
    }
  }

  lemma {:induction false} MulTwo(w: nat, m: nat, b: nat)
    requires 0 < m && b < 2
    ensures (2 * w + b) % (2 * m) == 2 * (w % m) + b
  {
    DivMod(2 * w + b, 2 * m, w / m, 2 * (w % m) + b);
  }

  // ----- the operators -----

  lemma {:induction false} HalfIs(x: bv64)
    ensures Half(x) == x >> 1
  {
    assert OpenWord(Key);
  }

  lemma {:induction false} TwiceIs(x: bv64)
    ensures Twice(x) == x << 1
  {
    assert OpenWord(Key);
  }

  lemma {:induction false} AndIs(x: bv64, y: bv64)
    ensures And(x, y) == x & y
  {
    assert OpenWord(Key);
  }

  lemma {:induction false} OrIs(x: bv64, y: bv64)
    ensures Or(x, y) == x | y
  {
    assert OpenWord(Key);
  }

  lemma {:induction false} OddIs(x: bv64)
    ensures Odd(x) <==> x & 1 == 1
  {
    assert OpenWord(Key);
  }

  lemma {:induction false} HalfOfAnd(x: bv64, y: bv64)
    ensures Half(And(x, y)) == (x & y) >> 1 && (Odd(And(x, y)) <==> (x & y) & 1 == 1)
  {
    HalfIs(And(x, y));
    OddIs(And(x, y));
    AndIs(x, y);
  }

  lemma {:induction false} AndOfHalves(x: bv64, y: bv64)
    ensures And(Half(x), Half(y)) == (x >> 1) & (y >> 1) && (Odd(x) <==> x & 1 == 1) && (Odd(y) <==> y & 1 == 1)
  {
    HalfIs(x);
    HalfIs(y);
    AndIs(Half(x), Half(y));
    OddIs(x);
    OddIs(y);
  }

  lemma {:induction false} AndBits(x: bv64, y: bv64)
    ensures (x & y) >> 1 == (x >> 1) & (y >> 1) && ((x & y) & 1 == 1 <==> x & 1 == 1 && y & 1 == 1)
  {
  }

  lemma {:induction false} HalfAnd(x: bv64, m: bv64)
    ensures Half(And(x, m)) == And(Half(x), Half(m)) && (Odd(And(x, m)) <==> Odd(x) && Odd(m))
  {
    HalfOfAnd(x, m);
    AndOfHalves(x, m);
    AndBits(x, m);
  }

  lemma {:induction false} SameTrans(a: bv64, b: bv64, c: bv64, d: bv64)
    requires Same(a, b) && Same(b, c) && Same(d, c)
    ensures a == d
  {
    assert OpenWord(Key);
  }

  lemma {:induction false} HalfOfOr(x: bv64, y: bv64)
    ensures Same(Half(Or(x, y)), (x | y) >> 1)
  {
    HalfIs(Or(x, y));
    OrIs(x, y);
  }

  lemma {:induction false} OrOfHalves(x: bv64, y: bv64)
    ensures Same(Or(Half(x), Half(y)), (x >> 1) | (y >> 1))
  {
    HalfIs(x);
    HalfIs(y);
    OrIs(Half(x), Half(y));
  }

  lemma {:induction false} OrShift(x: bv64, y: bv64)
    ensures Same((x | y) >> 1, (x >> 1) | (y >> 1))
  {
  }

  lemma {:induction false} HalfOr(x: bv64, y: bv64)
    ensures Half(Or(x, y)) == Or(Half(x), Half(y))
  {
    HalfOfOr(x, y);
    OrOfHalves(x, y);
    OrShift(x, y);
    SameTrans(Half(Or(x, y)), (x | y) >> 1, (x >> 1) | (y >> 1), Or(Half(x), Half(y)));
  }

  lemma {:induction false} OrBit(x: bv64, y: bv64)
    ensures (x | y) & 1 == 1 <==> x & 1 == 1 || y & 1 == 1
  {
  }

  lemma {:induction false} OddOr(x: bv64, y: bv64)
    ensures Odd(Or(x, y)) <==> Odd(x) || Odd(y)
  {
    OddIs(Or(x, y));
    OddIs(x);
    OddIs(y);
    OrIs(x, y);
    OrBit(x, y);
  }

  const LOW63: bv64 := 0x7FFF_FFFF_FFFF_FFFF

  lemma {:induction false} TwiceBits(x: bv64)
    ensures (x << 1) >> 1 == x & LOW63 && (x << 1) & 1 != 1 && (x >> 1) & LOW63 == x >> 1
  {
  }

  lemma {:induction false} HalfTwice(x: bv64)
    ensures Half(Twice(x)) == And(x, LOW63) && !Odd(Twice(x)) && And(Half(x), LOW63) == Half(x)
  {
    HalfIs(x);
    HalfIs(Twice(x));
    OddIs(Twice(x));
    TwiceIs(x);
    AndIs(x, LOW63);
    AndIs(Half(x), LOW63);
    TwiceBits(x);
  }

  ghost predicate IsZero(x: bv64) {
    forall k: Key {:trigger OpenWord(k)} :: OpenWord(k) ==> x == 0
  }

  lemma {:induction false} HalfZero(x: bv64)
    requires IsZero(x)
    ensures IsZero(Half(x)) && !Odd(x)
  {
    assert OpenWord(Key);
  }

  lemma {:induction false} AndZero(x: bv64, m: bv64)
    requires IsZero(m)
    ensures IsZero(And(x, m))
  {
    assert OpenWord(Key);
  }

  lemma {:induction false} LowZero(x: bv64, n: nat)
    requires IsZero(x)
    ensures Low(x, n) == 0
    decreases n
  {
    if n > 0 {
      HalfZero(x);
      LowZero(Half(x), n - 1);
    }
  }

  /** m has its lowest k bits set, and no other. */
  ghost predicate IsMask(m: bv64, k: nat)
    decreases k
  {
    if k == 0 then IsZero(m) else Odd(m) && IsMask(Half(m), k - 1)
  }

  /** A mask takes the low bits. */
  lemma {:induction false} MaskLow(x: bv64, m: bv64, k: nat, n: nat)
    requires IsMask(m, k) && k <= n
    ensures Low(And(x, m), n) == Low(x, k)
    decreases k
  {
    if k > 0 {
      HalfAnd(x, m);
      MaskLow(Half(x), Half(m), k - 1, n - 1);
    } else {
      AndZero(x, m);
      LowZero(And(x, m), n);
    }
  }

  /** Four bits more. */
  lemma {:induction false} MaskFour(m: bv64, h: bv64, k: nat)
    requires IsMask(h, k) && m & 15 == 15 && m >> 4 == h
    ensures IsMask(m, k + 4)
  {
    FourBits(m, h);
    assert IsMask(Half(Half(Half(m))), k + 1);
    assert IsMask(Half(Half(m)), k + 2);
    assert IsMask(Half(m), k + 3);
  }

  lemma {:induction false} FourBits(m: bv64, h: bv64)
    requires m & 15 == 15 && m >> 4 == h
    ensures Odd(m) && Odd(Half(m)) && Odd(Half(Half(m))) && Odd(Half(Half(Half(m)))) && Half(Half(Half(Half(m)))) == h
  {
    assert OpenWord(Key);
  }

  lemma {:induction false} OneBit(m: bv64, h: bv64, k: nat)
    requires IsMask(h, k) && m & 1 == 1 && m >> 1 == h
    ensures IsMask(m, k + 1)
  {
    Opened(m, h);
  }

  lemma {:induction false} Opened(m: bv64, h: bv64)
    requires m & 1 == 1 && m >> 1 == h
    ensures Odd(m) && Half(m) == h
  {
    assert OpenWord(Key);
  }

  lemma {:induction false} SmallMasks()
    ensures IsMask(0xFF, 8) && IsMask(511, 9) && IsMask(0xFFF_FFFF_FFFF, 44)
  {
    assert IsMask(0, 0);
    MaskFour(0xF, 0, 0);
    MaskFour(0xFF, 0xF, 4);
    OneBit(511, 0xFF, 8);
    MaskFour(0xFFF, 0xFF, 8);
    MaskFour(0xFFFF, 0xFFF, 12);
    MaskFour(0xF_FFFF, 0xFFFF, 16);
    MaskFour(0xFF_FFFF, 0xF_FFFF, 20);
    MaskFour(0xFFF_FFFF, 0xFF_FFFF, 24);
    MaskFour(0xFFFF_FFFF, 0xFFF_FFFF, 28);
    MaskFour(0xF_FFFF_FFFF, 0xFFFF_FFFF, 32);
    MaskFour(0xFF_FFFF_FFFF, 0xF_FFFF_FFFF, 36);
    MaskFour(0xFFF_FFFF_FFFF, 0xFF_FFFF_FFFF, 40);
  }

  lemma {:induction false} LongMask()
    ensures IsMask(LOW63, 63)
  {
    SmallMasks();
    MaskFour(0xFFFF_FFFF_FFFF, 0xFFF_FFFF_FFFF, 44);
    MaskFour(0xF_FFFF_FFFF_FFFF, 0xFFFF_FFFF_FFFF, 48);
    MaskFour(0xFF_FFFF_FFFF_FFFF, 0xF_FFFF_FFFF_FFFF, 52);
    MaskFour(0xFFF_FFFF_FFFF_FFFF, 0xFF_FFFF_FFFF_FFFF, 56);
    OneBit(0x1FFF_FFFF_FFFF_FFFF, 0xFFF_FFFF_FFFF_FFFF, 60);
    OneBit(0x3FFF_FFFF_FFFF_FFFF, 0x1FFF_FFFF_FFFF_FFFF, 61);
    OneBit(LOW63, 0x3FFF_FFFF_FFFF_FFFF, 62);
  }

  lemma {:induction false} WordHalf(x: bv64)
    ensures Word(Half(x)) == Word(x) / 2
  {
    LongMask();
    HalfTwice(x);
    MaskLow(Half(x), LOW63, 63, 64);
    FirstBit(x);
  }

  lemma {:induction false} FirstBit(x: bv64)
    ensures Word(x) / 2 == Low(Half(x), 63)
  {
    assert Word(x) == 2 * Low(Half(x), 63) + if Odd(x) then 1 else 0;
  }

  lemma {:induction false} WordTwice(x: bv64)
    ensures Word(Twice(x)) == 2 * Word(x) % U64_LIMIT
  {
    LongMask();
    Powers();
    HalfTwice(x);
    MaskLow(x, LOW63, 63, 63);
    LowMod(x, 63, 64);
    TwiceRest(Word(x), Two(63), Low(Half(Twice(x)), 63));
  }

  lemma {:induction false} TwiceRest(w: nat, p: nat, r: nat)
    requires 0 < p && 2 * p == U64_LIMIT && r == w % p
    ensures 2 * r == 2 * w % U64_LIMIT
  {
    MulTwo(w, p, 0);
  }

  lemma {:induction false} WordAnd(x: bv64, m: bv64, k: nat)
    requires IsMask(m, k) && k <= 64
    ensures Word(And(x, m)) == Word(x) % Two(k)
  {
    MaskLow(x, m, k, 64);
    LowMod(x, k, 64);
  }

  /** Words without a common bit. */
  lemma {:induction false} OrLow(x: bv64, y: bv64, n: nat)
    requires IsZero(And(x, y))
    ensures Low(Or(x, y), n) == Low(x, n) + Low(y, n)
    decreases n
  {
    if n > 0 {
      HalfOr(x, y);
      OddOr(x, y);
      HalfAnd(x, y);
      HalfZero(And(x, y));
      OrLow(Half(x), Half(y), n - 1);
    }
  }

  lemma {:induction false} TwiceMod(w: nat, a: nat)
    ensures 2 * (w * a % U64_LIMIT) % U64_LIMIT == w * (2 * a) % U64_LIMIT
  {
    var p := w * a;
    assert w * (2 * a) == 2 * p;
    var q, r := p / U64_LIMIT, p % U64_LIMIT;
    DivMod(2 * p, U64_LIMIT, 2 * q + 2 * r / U64_LIMIT, 2 * r % U64_LIMIT);
  }

  lemma {:induction false} ModTwice(w: nat)
    ensures (w * 32 % U64_LIMIT) * 32 % U64_LIMIT == w * 1024 % U64_LIMIT
  {
    var q, r := w * 32 / U64_LIMIT, w * 32 % U64_LIMIT;
    DivMod(w * 1024, U64_LIMIT, 32 * q + r * 32 / U64_LIMIT, r * 32 % U64_LIMIT);
  }

  lemma {:induction false} FiveMods(w: nat, w1: nat, w2: nat, w3: nat, w4: nat, w5: nat)
    requires w1 == 2 * w % U64_LIMIT && w2 == 2 * w1 % U64_LIMIT && w3 == 2 * w2 % U64_LIMIT
    requires w4 == 2 * w3 % U64_LIMIT && w5 == 2 * w4 % U64_LIMIT
    ensures w5 == w * 32 % U64_LIMIT
  {
    TwiceMod(w, 2);
    TwiceMod(w, 4);
    TwiceMod(w, 8);
    TwiceMod(w, 16);
  }

  ghost function TwiceFive(x: bv64): bv64 {
    Twice(Twice(Twice(Twice(Twice(x)))))
  }

  ghost function HalfFive(x: bv64): bv64 {
    Half(Half(Half(Half(Half(x)))))
  }

  lemma {:induction false} LeftFive(x: bv64)
    ensures Word(TwiceFive(x)) == Word(x) * 32 % U64_LIMIT
  {
    var x1, x2 := Twice(x), Twice(Twice(x));
    var x3, x4 := Twice(x2), Twice(Twice(x2));
    WordTwice(x);
    WordTwice(x1);
    WordTwice(x2);
    WordTwice(x3);
    WordTwice(x4);
    FiveMods(Word(x), Word(x1), Word(x2), Word(x3), Word(x4), Word(TwiceFive(x)));
  }

  lemma {:induction false} RightFive(x: bv64)
    ensures Word(HalfFive(x)) == Word(x) / 32 && Word(HalfFour(x)) == Word(x) / 16
  {
    WordHalf(x);
    WordHalf(Half(x));
    WordHalf(Half(Half(x)));
    WordHalf(Half(Half(Half(x))));
    WordHalf(Half(Half(Half(Half(x)))));
  }

  // ----- the code's operators -----

  lemma {:induction false} FiveSteps(x: bv64, a: bv64, b: bv64, c: bv64, d: bv64, e: bv64)
    requires a == x << 1 && b == a << 1 && c == b << 1 && d == c << 1 && e == d << 1
    ensures e == x << 5
  {
  }

  lemma {:induction false} FiveIs(x: bv64)
    ensures TwiceFive(x) == x << 5
  {
    var a := Twice(x);
    var b := Twice(a);
    var c := Twice(b);
    var d := Twice(c);
    TwiceIs(x);
    TwiceIs(a);
    TwiceIs(b);
    TwiceIs(c);
    TwiceIs(d);
    FiveSteps(x, a, b, c, d, Twice(d));
  }

  lemma {:induction false} TenSteps(x: bv64, a: bv64, b: bv64)
    requires a == x << 5 && b == a << 5
    ensures b == x << 10
  {
  }

  lemma {:induction false} TenIs(x: bv64)
    ensures TwiceFive(TwiceFive(x)) == x << 10
  {
    FiveIs(x);
    FiveIs(TwiceFive(x));
    TenSteps(x, TwiceFive(x), TwiceFive(TwiceFive(x)));
  }

  lemma {:induction false} FlagBits(ppn: bv64, flags: bv64)
    requires flags < 256
    ensures (ppn << 10) & flags == 0
  {
  }

  lemma {:induction false} MaskBits(flags: bv64)
    requires flags < 256
    ensures flags & 0xFF == flags
  {
  }

  lemma {:induction false} NewOr(ppn: bv64, flags: bv64, t: bv64)
    requires t == ppn << 10
    ensures (ppn << 10) | flags == Or(t, flags)
  {
    OrIs(t, flags);
  }

  lemma {:induction false} NewApart(ppn: bv64, flags: bv64, t: bv64)
    requires flags < 256 && t == ppn << 10
    ensures IsZero(And(t, flags))
  {
    FlagBits(ppn, flags);
    AndNone(t, flags);
  }

  lemma {:induction false} NewFlags(flags: bv64)
    requires flags < 256
    ensures And(flags, 0xFF) == flags
  {
    MaskBits(flags);
    AndIs(flags, 0xFF);
  }

  lemma {:induction false} AndNone(x: bv64, y: bv64)
    requires x & y == 0
    ensures IsZero(And(x, y))
  {
    AndIs(x, y);
  }

  lemma {:induction false} RightSteps(x: bv64, a: bv64, b: bv64, c: bv64, d: bv64, e: bv64)
    requires a == x >> 1 && b == a >> 1 && c == b >> 1 && d == c >> 1 && e == d >> 1
    ensures e == x >> 5
  {
  }

  lemma {:induction false} FiveRight(x: bv64)
    ensures HalfFive(x) == x >> 5
  {
    var a := Half(x);
    var b := Half(a);
    var c := Half(b);
    var d := Half(c);
    HalfIs(x);
    HalfIs(a);
    HalfIs(b);
    HalfIs(c);
    HalfIs(d);
    RightSteps(x, a, b, c, d, Half(d));
  }

  lemma {:induction false} FourSteps(x: bv64, a: bv64, b: bv64, c: bv64, d: bv64)
    requires a == x >> 1 && b == a >> 1 && c == b >> 1 && d == c >> 1
    ensures d == x >> 4
  {
  }

  lemma {:induction false} FourRight(x: bv64)
    ensures HalfFour(x) == x >> 4
  {
    var a := Half(x);
    var b := Half(a);
    var c := Half(b);
    HalfIs(x);
    HalfIs(a);
    HalfIs(b);
    HalfIs(c);
    FourSteps(x, a, b, c, Half(c));
  }

  ghost function HalfFour(x: bv64): bv64 {
    Half(Half(Half(Half(x))))
  }

  lemma {:induction false} NineSteps(x: bv64, a: bv64, b: bv64)
    requires a == x >> 5 && b == a >> 4
    ensures b == x >> 9
  {
  }

  lemma {:induction false} TenStepsRight(x: bv64, a: bv64, b: bv64)
    requires a == x >> 5 && b == a >> 5
    ensures b == x >> 10
  {
  }

  lemma {:induction false} RightTen(x: bv64)
    ensures HalfFive(HalfFive(x)) == x >> 10
  {
    var a := HalfFive(x);
    FiveRight(x);
    FiveRight(a);
    TenStepsRight(x, a, HalfFive(a));
  }

  lemma {:induction false} RightNine(x: bv64)
    ensures HalfFour(HalfFive(x)) == x >> 9
  {
    var a := HalfFive(x);
    FiveRight(x);
    FourRight(a);
    NineSteps(x, a, HalfFour(a));
  }

  lemma {:induction false} NewNumber(ppn: bv64, flags: bv64, t: bv64)
    requires t == TwiceFive(TwiceFive(ppn)) && IsZero(And(t, flags)) && And(flags, 0xFF) == flags
    ensures Word(flags) < 256 && Word(Or(t, flags)) == PteNew(Word(ppn), Word(flags))
  {
    FlagsNumber(flags);
    OrLow(t, flags, 64);
    TenNumber(ppn);
    NewOf(Word(ppn), Word(TwiceFive(ppn)), Word(t), Word(flags));
  }

  lemma {:induction false} FlagsNumber(flags: bv64)
    requires And(flags, 0xFF) == flags
    ensures Word(flags) == Word(flags) % Two(8)
  {
    SmallMasks();
    WordAnd(flags, 0xFF, 8);
  }

  lemma {:induction false} TenNumber(x: bv64)
    ensures Word(TwiceFive(x)) == Word(x) * 32 % U64_LIMIT
    ensures Word(TwiceFive(TwiceFive(x))) == Word(TwiceFive(x)) * 32 % U64_LIMIT
  {
    LeftFive(x);
    LeftFive(TwiceFive(x));
  }

  lemma {:induction false} NewOf(w: nat, v: nat, u: nat, f: nat)
    requires v == w * 32 % U64_LIMIT && u == v * 32 % U64_LIMIT && f == f % Two(8)
    ensures f < 256 && u + f == PteNew(w, f)
  {
    Powers();
    ModTwice(w);
  }

  lemma {:induction false} PartNumbers(x: bv64)
    ensures Word(And(HalfFive(HalfFive(x)), 0xFFF_FFFF_FFFF)) == PtePpn(Word(x))
    ensures Word(And(x, 0xFF)) == PteFlags(Word(x)) && Word(And(x, 511)) == Word(x) % 512
    ensures Word(HalfFour(HalfFive(x))) == Word(x) / 512
  {
    var y := HalfFive(x);
    var z := HalfFive(y);
    SmallMasks();
    RightFive(x);
    RightFive(y);
    WordAnd(z, 0xFFF_FFFF_FFFF, 44);
    WordAnd(x, 0xFF, 8);
    WordAnd(x, 511, 9);
    PartsOf(Word(x), Word(y), Word(z));
  }

  lemma {:induction false} PartsOf(w: nat, v: nat, u: nat)
    requires v == w / 32 && u == v / 32
    ensures u % Two(44) == PtePpn(w) && w % Two(8) == PteFlags(w) && w % Two(9) == w % 512 && v / 16 == w / 512
  {
    Powers();
    DivMod(w, 1024, u, 32 * (v % 32) + w % 32);
    DivMod(w, 512, v / 16, 32 * (v % 16) + w % 32);
  }

  /** pte_new: the page number shifted by ten bits, and the flags below it. */
  lemma {:induction false} NewWord(ppn: bv64, flags: bv64)
    requires flags < 256
    ensures Word(flags) < 256 && Word((ppn << 10) | flags) == PteNew(Word(ppn), Word(flags))
  {
    var t := TwiceFive(TwiceFive(ppn));
    TenIs(ppn);
    NewOr(ppn, flags, t);
    NewApart(ppn, flags, t);
    NewFlags(flags);
    NewNumber(ppn, flags, t);
  }

  /** pte_get_ppn */
  lemma {:induction false} PpnWord(pte: bv64)
    ensures Word((pte >> 10) & 0xFFF_FFFF_FFFF) == PtePpn(Word(pte))
  {
    RightTen(pte);
    AndIs(pte >> 10, 0xFFF_FFFF_FFFF);
    PartNumbers(pte);
  }

  /** pte_get_flags */
  lemma {:induction false} FlagsWord(pte: bv64)
    ensures Word(pte & 0xFF) == PteFlags(Word(pte))
  {
    AndIs(pte, 0xFF);
    PartNumbers(pte);
  }

  /** The mask and the shift of vpn_indexes. */
  lemma {:induction false} MaskWord(vpn: bv64)
    ensures Word(vpn & 511) == Word(vpn) % 512
  {
    AndIs(vpn, 511);
    PartNumbers(vpn);
  }

  lemma {:induction false} ShiftWord(vpn: bv64)
    ensures Word(vpn >> 9) == Word(vpn) / 512
  {
    RightNine(vpn);
    PartNumbers(vpn);
  }

  /** The three indexes. */
  lemma {:induction false} IndexWords(vpn: bv64)
    ensures Word(vpn & 511) == Index2(Word(vpn)) && Word((vpn >> 9) & 511) == Index1(Word(vpn))
    ensures Word(((vpn >> 9) >> 9) & 511) == Index0(Word(vpn))
  {
    var v := vpn >> 9;
    ShiftWord(vpn);
    ShiftWord(v);
    MaskWord(vpn);
    MaskWord(v);
    MaskWord(v >> 9);
  }

  /** The shifts and masks of the code are the divisions and remainders of the numbers, on all words. */
  lemma {:induction false} ShiftsAndMasks(ppn: bv64, flags: bv64, pte: bv64, vpn: bv64)
    requires flags < 256
    ensures Word(flags) < 256 && Word((ppn << 10) | flags) == PteNew(Word(ppn), Word(flags))
    ensures Word((pte >> 10) & 0xFFF_FFFF_FFFF) == PtePpn(Word(pte)) && Word(pte & 0xFF) == PteFlags(Word(pte))
    ensures Word(vpn & 511) == Index2(Word(vpn)) && Word((vpn >> 9) & 511) == Index1(Word(vpn))
    ensures Word(((vpn >> 9) >> 9) & 511) == Index0(Word(vpn))
  {
    NewWord(ppn, flags);
    PpnWord(pte);
    FlagsWord(pte);
    IndexWords(vpn);
  }
}
