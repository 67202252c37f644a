/** Translation as the hardware does it: the walk of section 4.4 of the RISC-V Privileged Architecture,
    version 1.11, on memory alone. */
module Sv39 {
  import opened Bytes
  import opened Physical
  import opened PageEntries
  import opened TableTree

  // ----- an entry -----

  /** A number from its bytes, low byte first. */
  ghost function Little(s: seq<byte>): nat {
    if s == [] then 0 else s[0] + 0x100 * Little(s[1..])
  }

  /** The eight bytes at entry x of the table in page f. */
  ghost function EntryAt(mem: Pages, f: nat, x: nat): nat {
    if f in mem && 8 * x + 8 <= |mem[f]| then Little(mem[f][8 * x..8 * x + 8]) else 0
  }

  /** Bits 0 to 4: valid, readable, writable, executable, open to user mode. */
  ghost predicate V(w: nat) {
    w % 2 == 1
  }

  ghost predicate R(w: nat) {
    w / 2 % 2 == 1
  }

  ghost predicate W(w: nat) {
    w / 4 % 2 == 1
  }

  ghost predicate X(w: nat) {
    w / 8 % 2 == 1
  }

  ghost predicate U(w: nat) {
    w / 16 % 2 == 1
  }

  /** Bits 10 to 53. */
  ghost function Ppn(w: nat): nat {
    w / 0x400 % 0x1000_0000_0000
  }

  // ----- the walk -----

  /** A page fault, or a leaf that was found at a level, with its page number and its low eight bits. */
  datatype Answer = Fault | Leaf(level: nat, ppn: nat, flags: nat)

  /** Pages under one entry of a level. */
  ghost function Under(level: nat): (n: nat)
    ensures 0 < n
  {
    if level == 0 then 1 else if level == 1 then 0x200 else 0x4_0000
  }

  /** Steps 2 to 6, from the table in page a on. */
  ghost function Walk(mem: Pages, a: nat, level: nat, vpn: nat): Answer
    decreases level
  {
    var w := EntryAt(mem, a, vpn / Under(level) % 0x200);
    if !V(w) || (W(w) && !R(w)) then Fault
    else if R(w) || X(w) then if Ppn(w) % Under(level) != 0 then Fault else Leaf(level, Ppn(w), w % 0x100)
    else if level == 0 then Fault
    else Walk(mem, Ppn(w), level - 1, vpn)
  }

  ghost predicate Legal(flags: nat) {
    (R(flags) || X(flags)) && (W(flags) ==> R(flags))
  }

  /** What the walk must answer for a page of a finite map: its binding, if an access can use it. */
  ghost function Expected(spec: map<nat, Mapping>, v: nat): Answer {
    if v in spec && Legal(spec[v].flags) then Leaf(0, spec[v].ppn, spec[v].flags) else Fault
  }

  // ----- the walk of the kernel's tables -----

  lemma {:induction false} LittleWord(s: seq<byte>)
    requires |s| == 8
    ensures Little(s) == GetU32(s, 0) + U32_LIMIT * GetU32(s, 4)
  {
    LittleFour(s[..4]);
    LittleFour(s[4..]);
    LittleMore(s, 4);
    assert Power(1) == 0x100 && Power(2) == 0x1_0000 && Power(3) == 0x100_0000;
  }

  lemma {:induction false} LittleFour(s: seq<byte>)
    requires |s| == 4
    ensures Little(s) == GetU32(s, 0)
  {
    var a, b, c := s[1..], s[2..], s[3..];
    assert a[1..] == b && b[1..] == c && c[1..] == [];
    assert Little(c) == s[3] && Little(b) == s[2] + 0x100 * Little(c) && Little(a) == s[1] + 0x100 * Little(b);
  }

  lemma {:induction false} LittleMore(s: seq<byte>, k: nat)
    requires k <= |s|
    ensures Little(s) == Little(s[..k]) + Power(k) * Little(s[k..])
    decreases k
  {
    if k == 0 {
      assert s[..0] == [] && s[0..] == s;
    } else {
      LittleMore(s[1..], k - 1);
      assert s[..k][1..] == s[1..][..k - 1] && s[1..][k - 1..] == s[k..];
      Regroup(Little(s[..k][1..]), Power(k - 1), Little(s[k..]));
    }
  }

  ghost function Power(k: nat): nat {
    if k == 0 then 1 else 0x100 * Power(k - 1)
  }

  lemma {:induction false} Regroup(a: nat, p: nat, b: nat)
    ensures 0x100 * (a + p * b) == 0x100 * a + (0x100 * p) * b
  {
  }

  lemma {:induction false} EntryIs(mem: Pages, f: nat, x: nat)
    requires f in mem && IsPage(mem[f]) && x < 512
    ensures EntryAt(mem, f, x) == WordAt(mem, f, x)
  {
    var s := mem[f][8 * x..8 * x + 8];
    LittleWord(s);
    assert s[0] == mem[f][8 * x] && s[4] == mem[f][8 * x + 4];
  }

  lemma {:induction false} Indexes(v: nat)
    requires v < 0x800_0000
    ensures v / 0x4_0000 % 0x200 == Index0(v) && v / 0x200 % 0x200 == Index1(v) && v / 1 % 0x200 == Index2(v)
    ensures LowVpn(v) == v
  {
  }

  /** An entry above the lowest tables leads down, to the table that it was made for. */
  lemma {:induction false} LinkBits(c: nat)
    requires c < PPN_LIMIT
    ensures var w := PteNew(c, PTE_V); V(w) && !R(w) && !W(w) && !X(w) && Ppn(w) == c
  {
    var w := PteNew(c, PTE_V);
    assert w == 0x400 * c + 1;
    assert w / 2 == 0x200 * c && w / 4 == 0x100 * c && w / 8 == 0x80 * c && w / 0x400 == c;
  }

  lemma {:induction false} WalkDown(mem: Pages, tab: Tables, n: Node, level: nat, v: nat, x: nat)
    requires Tree(mem, tab) && PagesOk(mem) && n in tab && !n.Low? && 0 < level && x == v / Under(level) % 0x200
    ensures Walk(mem, tab[n], level, v) ==
            if Child(n, x) in tab then Walk(mem, tab[Child(n, x)], level - 1, v) else Fault
  {
    TreeNode(mem, tab, n);
    EntryIs(mem, tab[n], x);
    assert OpenTree(Key);
    var c := Child(n, x);
    assert WordAt(mem, tab[n], x) == LinkTo(tab, c);
    if c in tab {
      TreeNode(mem, tab, c);
      LinkBits(tab[c]);
    }
  }

  /** An entry of a lowest table is a leaf, or a page fault. */
  lemma {:induction false} LeafBits(w: nat)
    ensures V(w) <==> PteIsValid(w)
    ensures Ppn(w) == PtePpn(w) && w % 0x100 == PteFlags(w)
    ensures (R(w) <==> R(w % 0x100)) && (W(w) <==> W(w % 0x100)) && (X(w) <==> X(w % 0x100))
  {
    var q, r := w / 0x100, w % 0x100;
    Shifted(w, q, r, 2);
    Shifted(w, q, r, 4);
    Shifted(w, q, r, 8);
    LowestBit(0x80 * q, r);
    LowestBit(0x40 * q, r / 2);
    LowestBit(0x20 * q, r / 4);
    LowestBit(0x10 * q, r / 8);
  }

  lemma {:induction false} LowestBit(a: nat, r: nat)
    ensures (2 * a + r) % 2 == r % 2
  {
  }

  lemma {:induction false} Shifted(w: nat, q: nat, r: nat, m: nat)
    requires w == 0x100 * q + r && (m == 2 || m == 4 || m == 8)
    ensures w / m == (if m == 2 then 0x80 else if m == 4 then 0x40 else 0x20) * q + r / m
  {
  }

  lemma {:induction false} WalkLast(mem: Pages, f: nat, v: nat)
    requires f in mem && IsPage(mem[f])
    ensures Walk(mem, f, 0, v) ==
            match Decode(WordAt(mem, f, v / 1 % 0x200))
            case Nothing => Fault
            case Found(b) => if Legal(b.flags) then Leaf(0, b.ppn, b.flags) else Fault
  {
    EntryIs(mem, f, v / 1 % 0x200);
    LeafBits(WordAt(mem, f, v / 1 % 0x200));
  }

  /** The hardware finds in the kernel's tables what the finite map says: for every page that is bound so
      that an access can use it its page number and flags, at the lowest level, and for all others a fault. */
  lemma {:induction false} WalkIsMap(mem: Pages, tab: Tables, spec: map<nat, Mapping>, v: nat)
    requires Root in tab && Tree(mem, tab) && Stands(mem, tab, spec) && PagesOk(mem) && v < 0x800_0000
    ensures Walk(mem, tab[Root], 2, v) == Expected(spec, v)
  {
    Indexes(v);
    var i, j := Index0(v), Index1(v);
    StandsAt(mem, tab, spec, v);
    WalkDown(mem, tab, Root, 2, v, i);
    if Mid(i) in tab {
      WalkDown(mem, tab, Mid(i), 1, v, j);
      if Low(i, j) in tab {
        TreeNode(mem, tab, Low(i, j));
        WalkLast(mem, tab[Low(i, j)], v);
      }
    } else if Low(i, j) in tab {
      TreeNode(mem, tab, Low(i, j));
    }
  }

  /** The walk from root finds the bindings of spec, and no others. */
  ghost predicate Translates(mem: Pages, root: nat, spec: map<nat, Mapping>) {
    forall v :: 0 <= v < 0x800_0000 ==> Walk(mem, root, 2, v) == Expected(spec, v)
  }

  lemma {:induction false} AllWalks(mem: Pages, tab: Tables, spec: map<nat, Mapping>)
    requires Root in tab && Tree(mem, tab) && Stands(mem, tab, spec) && PagesOk(mem)
    ensures Translates(mem, tab[Root], spec)
  {
    forall v | 0 <= v < 0x800_0000 ensures Walk(mem, tab[Root], 2, v) == Expected(spec, v) {
      WalkIsMap(mem, tab, spec, v);
    }
  }
}
