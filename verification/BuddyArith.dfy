/** Powers of two as the buddy allocator computes them: rounding a request, log2, pow2 and the test of
    a power. */
module BuddyArith {
  import opened Bytes
  import opened BuddyTree

  // ----- rounding a request -----

  /** fixsize: fill every bit below the highest one, add one, in 32 bits. */
  function FixSize(size: bv32): bv32 {
    var s1 := size | (size >> 1);
    var s2 := s1 | (s1 >> 2);
    var s3 := s2 | (s2 >> 4);
    var s4 := s3 | (s3 >> 8);
    var s5 := s4 | (s4 >> 16);
    s5 + 1
  }

  predicate IsPowerOf2(x: bv32) {
    x & (x - 1) == 0
  }

  /** The request as the allocator rounds it: at least 8, and a power of two. */
  function Rounded(size: bv32): bv32 {
    if size <= 8 then 8 else if !IsPowerOf2(size) then FixSize(size) else size
  }

  /** Rounding is exact up to 2^31 ... */
  lemma {:induction false} RoundedBits(size: bv32)
    requires size <= 0x8000_0000
    ensures IsPowerOf2(Rounded(size)) && size <= Rounded(size) && 8 <= Rounded(size)
    ensures 8 < Rounded(size) ==> Rounded(size) >> 1 < size
  {
  }

  /** ... and wraps to 0 exactly for the requests above it. */
  lemma {:induction false} RoundedWraps(size: bv32)
    ensures Rounded(size) == 0 <==> 0x8000_0000 < size
  {
  }

  /** log2 of a power of two. */
  function Log2(x: bv32): (j: nat)
    ensures j < 32
  {
    if x == 0x1 then 0 else if x == 0x2 then 1 else if x == 0x4 then 2 else if x == 0x8 then 3
    else if x == 0x10 then 4 else if x == 0x20 then 5 else if x == 0x40 then 6 else if x == 0x80 then 7
    else if x == 0x100 then 8 else if x == 0x200 then 9 else if x == 0x400 then 10 else if x == 0x800 then 11
    else if x == 0x1000 then 12 else if x == 0x2000 then 13 else if x == 0x4000 then 14 else if x == 0x8000 then 15
    else if x == 0x10000 then 16 else if x == 0x20000 then 17 else if x == 0x40000 then 18 else if x == 0x80000 then 19
    else if x == 0x100000 then 20 else if x == 0x200000 then 21
    else if x == 0x400000 then 22 else if x == 0x800000 then 23
    else if x == 0x1000000 then 24 else if x == 0x2000000 then 25
    else if x == 0x4000000 then 26 else if x == 0x8000000 then 27
    else if x == 0x10000000 then 28 else if x == 0x20000000 then 29 else if x == 0x40000000 then 30
    else 31
  }

  lemma {:induction false} Pow2Table()
    ensures Pow2(0) == 0x1 && Pow2(1) == 0x2 && Pow2(2) == 0x4 && Pow2(3) == 0x8
    ensures Pow2(4) == 0x10 && Pow2(5) == 0x20 && Pow2(6) == 0x40 && Pow2(7) == 0x80
    ensures Pow2(8) == 0x100 && Pow2(9) == 0x200 && Pow2(10) == 0x400 && Pow2(11) == 0x800
    ensures Pow2(12) == 0x1000 && Pow2(13) == 0x2000 && Pow2(14) == 0x4000 && Pow2(15) == 0x8000
    ensures Pow2(16) == 0x10000 && Pow2(17) == 0x20000 && Pow2(18) == 0x40000 && Pow2(19) == 0x80000
    ensures Pow2(20) == 0x100000 && Pow2(21) == 0x200000 && Pow2(22) == 0x400000 && Pow2(23) == 0x800000
    ensures Pow2(24) == 0x1000000 && Pow2(25) == 0x2000000 && Pow2(26) == 0x4000000 && Pow2(27) == 0x8000000
    ensures Pow2(28) == 0x10000000 && Pow2(29) == 0x20000000 && Pow2(30) == 0x40000000 && Pow2(31) == 0x80000000
  {
  }

  /** The powers of two of 32 bits are the values of Pow2. */
  lemma {:induction false} PowerCases(x: bv32)
    requires IsPowerOf2(x) && x != 0
    ensures x as int == Pow2(Log2(x))
  {
    if x < 0x1_0000 {
      LowPowers(x);
    } else {
      HighPowers(x);
    }
  }

  lemma {:induction false} LowPowers(x: bv32)
    requires IsPowerOf2(x) && x != 0 && x < 0x1_0000
    ensures x as int == Pow2(Log2(x))
  {
    Pow2Table();
  }

  lemma {:induction false} HighPowers(x: bv32)
    requires IsPowerOf2(x) && 0x1_0000 <= x
    ensures x as int == Pow2(Log2(x))
  {
    Pow2Table();
  }

  /** Every request up to 2^31 is rounded to 2^j bytes for some 3 <= j <= 31. */
  lemma {:induction false} RoundedIs(size: bv32)
    requires size <= 0x8000_0000
    ensures 3 <= Log2(Rounded(size)) <= 31 && Rounded(size) as int == Pow2(Log2(Rounded(size)))
  {
    RoundedBits(size);
    LogAtLeast(Rounded(size));
    PowerCases(Rounded(size));
  }

  lemma {:induction false} LogAtLeast(x: bv32)
    requires IsPowerOf2(x) && 8 <= x
    ensures 3 <= Log2(x)
  {
  }

  /** The bitwise and of two numbers. */
  function And(a: nat, b: nat): nat {
    if a == 0 || b == 0 then 0 else 2 * And(a / 2, b / 2) + (if a % 2 == 1 && b % 2 == 1 then 1 else 0)
  }

  /** The test of a power of two, on a counter. */
  predicate PowerTest(x: nat)
    requires 0 < x
  {
    And(x, x - 1) == 0
  }

  lemma {:induction false} AndSelf(x: nat)
    ensures And(x, x) == x
  {
    if x > 0 {
      AndSelf(x / 2);
    }
  }

  /** Between two powers only the lower end passes the test. */
  lemma {:induction false} PowerTestExact(x: nat, n: nat)
    requires Pow2(n) <= x < 2 * Pow2(n)
    ensures PowerTest(x) <==> x == Pow2(n)
    decreases n
  {
    if n > 0 {
      var y := x / 2;
      PowerTestExact(y, n - 1);
      if x == 2 * y {
        AndEven(y);
      } else {
        AndOdd(y);
      }
    }
  }

  lemma {:induction false} AndEven(y: nat)
    requires 0 < y
    ensures And(2 * y, 2 * y - 1) == 2 * And(y, y - 1)
  {
    var a, b := 2 * y, 2 * y - 1;
    assert a / 2 == y && b / 2 == y - 1 && a % 2 == 0;
  }

  lemma {:induction false} AndOdd(y: nat)
    requires 0 < y
    ensures And(2 * y + 1, 2 * y) == 2 * y
  {
    var a, b := 2 * y + 1, 2 * y;
    assert a / 2 == y && b / 2 == y && b % 2 == 0;
    AndSelf(y);
  }

  lemma {:induction false} Bracket(x: nat) returns (n: nat)
    requires 0 < x
    ensures Pow2(n) <= x < 2 * Pow2(n)
  {
    if x == 1 {
      n := 0;
    } else {
      var m := Bracket(x / 2);
      n := m + 1;
    }
  }

  /** log2: the position of the highest bit. */
  method LogOf(value: nat) returns (x: nat)
    requires 0 < value
    ensures Pow2(x) <= value < Pow2(x + 1)
  {
    x := 0;
    var v := value;
    ghost var m := 1;
    while v > 1
      invariant 0 < v && Pow2(x) == m && v * m <= value < (v + 1) * m
    {
      ghost var half := v / 2;
      Halved(v, half, m, value);
      v := v / 2;
      x := x + 1;
      m := 2 * m;
    }
  }

  lemma {:induction false} Halved(v: nat, half: nat, m: nat, value: nat)
    requires half == v / 2 && v * m <= value < (v + 1) * m
    ensures half * (2 * m) <= value < (half + 1) * (2 * m)
  {
    assert half * (2 * m) == (2 * half) * m && (half + 1) * (2 * m) == (2 * half + 2) * m;
    Scale(m, 2 * half, v);
    Scale(m, v + 1, 2 * half + 2);
    assert m * (2 * half) == (2 * half) * m && m * v == v * m;
    assert m * (v + 1) == (v + 1) * m && m * (2 * half + 2) == (2 * half + 2) * m;
  }

  /** pow2: square and multiply, in 64 bits. */
  method PowerOf(b: nat) returns (res: nat)
    requires b < 64
    ensures res == Pow2(b)
  {
    var a: nat, n: nat := 2, b;
    res := 1;
    ghost var c: nat, e: nat := 0, 1;
    SpanIsProduct(b, 1);
    while n > 0
      invariant res == Pow2(c) && c + Span(n, e) == b && 0 < e
      invariant n > 0 ==> a == Pow2(e)
      decreases n
    {
      SquareStep(n, e, c, b);
      if n % 2 == 1 {
        Multiply(c, e);
        res := res * a % 0x1_0000_0000_0000_0000;
        c := c + e;
      }
      if n > 1 {
        Multiply(e, e);
      }
      a := a * a % 0x1_0000_0000_0000_0000;
      n := n / 2;
      e := 2 * e;
    }
  }

  /** A product of powers that fits 64 bits. */
  lemma {:induction false} Multiply(c: nat, e: nat)
    requires c + e < 64
    ensures Pow2(c) * Pow2(e) % 0x1_0000_0000_0000_0000 == Pow2(c + e)
  {
    Pow2Splits(c, c + e);
    Pow2Below64(c + e);
  }

  lemma {:induction false} Pow2Below64(e: nat)
    requires e < 64
    ensures Pow2(e) < 0x1_0000_0000_0000_0000
  {
    Pow2Table();
    Pow2Splits(31, 62);
    Pow2Monotone(e, 63);
  }

  lemma {:induction false} SquareStep(n: nat, e: nat, c: nat, b: nat)
    requires 0 < n && c + Span(n, e) == b < 64 && 0 < e
    ensures n % 2 == 0 ==> c + Span(n / 2, 2 * e) == b
    ensures n % 2 == 1 ==> c + e + Span(n / 2, 2 * e) == b && c + e < 64
    ensures n > 1 ==> 2 * e < 64
  {
    SpanPairs(n / 2, e);
    SpanMonotone(1, n, e);
    if n > 1 {
      SpanMonotone(2, n, e);
    }
  }

  lemma {:induction false} SpanPairs(m: nat, e: nat)
    ensures Span(2 * m, e) == Span(m, 2 * e)
  {
    if m > 0 {
      SpanPairs(m - 1, e);
    }
  }

  lemma {:induction false} SmallPowers()
    ensures Pow2(0) == 1 && Pow2(1) == 2 && Pow2(2) == 4 && Pow2(3) == 8 && Pow2(4) == 16
  {
  }

  lemma {:induction false} LogExact(v: nat, h: nat)
    requires Pow2(v) <= Pow2(h) < Pow2(v + 1)
    ensures v == h
  {
    PowCompare(h, v);
    PowCompare(h, v + 1);
  }

  lemma {:induction false} HeightRange(H: nat, size: nat)
    requires size == Pow2(H) && 128 <= size <= 0x2000_0000
    ensures 7 <= H <= 29
  {
    Pow2Table();
    PowCompare(H, 7);
    PowCompare(29, H);
  }

  /** What a request is rounded to, as a power. */
  function LogOfRequest(request: bv32): nat {
    Log2(Rounded(request))
  }

  lemma {:induction false} PowCompare(v: nat, j: nat)
    ensures Pow2(v) >= Pow2(j) <==> v >= j
  {
    if v >= j {
      Pow2Monotone(j, v);
    } else {
      Pow2Monotone(v + 1, j);
    }
  }

  lemma {:induction false} PowInjective(a: nat, b: nat)
    requires Pow2(a) == Pow2(b)
    ensures a == b
  {
    PowCompare(a, b);
    PowCompare(b, a);
  }
}
