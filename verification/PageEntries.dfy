/** Sv39 page table entries and page number indexes (section 4.4 of the RISC-V Privileged
    Architecture, version 1.11). */
module PageEntries {
  import opened Physical

  const PTE_V := 1

  /** pte_new: page number above ten low bits, flags in the lowest eight. */
  function PteNew(ppn: nat, flags: nat): (w: nat)
    requires flags < 256
    ensures w < U64_LIMIT
  {
    ppn * 1024 % U64_LIMIT + flags
  }

  /** pte_get_ppn */
  function PtePpn(pte: nat): (ppn: nat)
    ensures ppn < PPN_LIMIT
  {
    pte / 1024 % PPN_LIMIT
  }

  /** pte_get_flags */
  function PteFlags(pte: nat): (flags: nat)
    ensures flags < 256
  {
    pte % 256
  }

  /** pte_is_valid */
  predicate PteIsValid(pte: nat) {
    PteFlags(pte) % 2 == 1
  }

  /** flags | PTE_V */
  function WithValid(flags: nat): (r: nat)
    requires flags < 256
    ensures r < 256 && r % 2 == 1 && flags <= r <= flags + 1
  {
    if flags % 2 == 1 then flags else flags + 1
  }

  /** Any 64-bit page number comes back with its low 44 bits, and the flags as they were. */
  lemma {:induction false} PteRoundTrip(ppn: nat, flags: nat)
    requires ppn < U64_LIMIT && flags < 256
    ensures PtePpn(PteNew(ppn, flags)) == ppn % PPN_LIMIT
    ensures PteFlags(PteNew(ppn, flags)) == flags
  {
    var low, high := ppn % 0x40_0000_0000_0000, ppn / 0x40_0000_0000_0000;
    DivMod(ppn * 1024, U64_LIMIT, high, 1024 * low);
    DivMod(1024 * low + flags, 1024, low, flags);
    DivMod(1024 * low + flags, 256, 4 * low, flags);
    LowBits(ppn, low, high);
  }

  /** Quotient and remainder are the only ones. */
  lemma {:induction false} DivMod(x: nat, m: nat, q: nat, r: nat)
    requires x == m * q + r && r < m
    ensures x / m == q && x % m == r
  {
    if x / m < q {
      MulGap(m, x / m, q);
    } else if q < x / m {
      MulGap(m, q, x / m);
    }
  }

  lemma {:induction false} MulGap(m: nat, a: nat, b: nat)
    requires a < b
    ensures m * a + m <= m * b
  {
    var d: nat := b - a - 1;
    var rest: nat := m * d;
    assert m * (a + 1 + d) == m * a + m + rest;
  }

  lemma {:induction false} LowBits(ppn: nat, low: nat, high: nat)
    requires ppn == 0x40_0000_0000_0000 * high + low && low < 0x40_0000_0000_0000
    ensures low % PPN_LIMIT == ppn % PPN_LIMIT
  {
    var q, r := low / PPN_LIMIT, low % PPN_LIMIT;
    DivMod(ppn, PPN_LIMIT, 1024 * high + q, r);
  }

  // ----- indexes -----

  /** A page number has 27 bits that count. */
  const VPN_LIMIT := 0x800_0000

  function Index0(vpn: nat): (i: nat)
    ensures i < 512
  {
    vpn / 512 / 512 % 512
  }

  function Index1(vpn: nat): (i: nat)
    ensures i < 512
  {
    vpn / 512 % 512
  }

  function Index2(vpn: nat): (i: nat)
    ensures i < 512
  {
    vpn % 512
  }

  /** The low 27 bits. */
  function LowVpn(vpn: nat): (v: nat)
    ensures v < VPN_LIMIT
  {
    vpn % VPN_LIMIT
  }

  lemma {:induction false} VpnParts(vpn: nat)
    ensures LowVpn(vpn) == 512 * 512 * Index0(vpn) + 512 * Index1(vpn) + Index2(vpn)
  {
    var a := vpn / 512;
    var b := a / 512;
    DivMod(vpn, VPN_LIMIT, b / 512, 512 * 512 * (b % 512) + 512 * (a % 512) + vpn % 512);
  }

  /** Two page numbers share all three indexes exactly when they agree on their low 27 bits. */
  lemma {:induction false} SameIndexes(v: nat, w: nat)
    ensures (Index0(v) == Index0(w) && Index1(v) == Index1(w) && Index2(v) == Index2(w)) <==> LowVpn(v) == LowVpn(w)
  {
    VpnParts(v);
    VpnParts(w);
  }

  /** vpn_indexes: the three indexes, highest first. */
  method VpnIndexes(vpn: nat) returns (index3: array<nat>)
    ensures fresh(index3) && index3.Length == 3
    ensures index3[0] == Index0(vpn) && index3[1] == Index1(vpn) && index3[2] == Index2(vpn)
  {
    index3 := new nat[3](_ => 0);
    var v := vpn;
    var i := 2;
    while i >= 0
      invariant -1 <= i <= 2
      invariant v == if i == 2 then vpn else if i == 1 then vpn / 512
                     else if i == 0 then vpn / 512 / 512 else vpn / 512 / 512 / 512
      invariant i < 2 ==> index3[2] == Index2(vpn)
      invariant i < 1 ==> index3[1] == Index1(vpn)
      invariant i < 0 ==> index3[0] == Index0(vpn)
    {
      index3[i] := v % 512;
      v := v / 512;
      i := i - 1;
    }
  }
}
