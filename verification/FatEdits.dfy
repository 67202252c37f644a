/** What making, updating and removing files does to the listing of a directory, and exactly when that is
    what it should be. */
module FatEdits {
  import opened Bytes
  import opened FatFiles
  import opened FatRecords
  import opened FatScan
  import opened FatDirectory

  // ----- the operations -----

  datatype DirOp =
    | Make(e: Entry)
    | Update(name: seq<byte>, firstClus: u32, fileSize: u32)
    | Remove(name: seq<byte>)
  {
    ghost function Name(): seq<byte> {
      if Make? then e.name else name
    }
  }

  /** A name that dirlookup looks for in the directory, and finds in entries only. */
  ghost predicate PlainName(name: seq<byte>) {
    name != [] &&
    forall k: Key {:trigger OpenPlain(k)} :: OpenPlain(k) ==> name != DotName(false) && name != DotName(true)
  }

  ghost predicate OpenPlain(k: Key) {
    true
  }

  /** An operation a caller may ask for: with such a name, and for a new file with one that fits. */
  ghost predicate OpOk(op: DirOp) {
    PlainName(op.Name()) && (op.Make? ==> op.e.Good())
  }

  /** The first entry of this name in a listing, or its length. */
  ghost function IndexOf(list: seq<Entry>, name: seq<byte>): (i: nat)
    ensures i <= |list| && (i < |list| ==> list[i].name == name)
  {
    if list == [] || list[0].name == name then 0 else 1 + IndexOf(list[1..], name)
  }

  /** A listing after one operation. */
  ghost function Listed(list: seq<Entry>, op: DirOp): seq<Entry> {
    var i := IndexOf(list, op.Name());
    match op
    case Make(e) => if i < |list| then list else list + [e]
    case Update(_, c, z) => if i < |list| then list[i := list[i].(firstClus := c, fileSize := z)] else list
    case Remove(_) => if i < |list| then list[..i] + list[i + 1..] else list
  }

  ghost function ListedAll(list: seq<Entry>, ops: seq<DirOp>): seq<Entry>
    decreases |ops|
  {
    if ops == [] then list else ListedAll(Listed(list, ops[0]), ops[1..])
  }

  /** Where dirlookup finds a name, or the number of the records. */
  ghost function Hit(t: seq<Rec>, name: seq<byte>): (r: nat)
    ensures r <= |t|
  {
    Find(Heads(t), 0, name)
  }

  /** Records with n of them, from r on, marked empty. */
  ghost function Marked(t: seq<Rec>, r: nat, n: nat): (m: seq<Rec>)
    ensures |m| == |t| && forall q :: 0 <= q < |t| ==> m[q] == if r <= q < r + n then Erased(t[q]) else t[q]
  {
    seq(|t|, q requires 0 <= q < |t| => if r <= q < r + n then Erased(t[q]) else t[q])
  }

  /** The records of a directory after one operation. */
  ghost function After(t: seq<Rec>, op: DirOp): seq<Rec>
    requires OpOk(op)
  {
    var r := Hit(t, op.Name());
    match op
    case Make(e) => if r < |t| then t else t + MadeAt(|t|, e)
    case Update(_, c, z) => if r < |t| then Put1(t, r + Counted(t, r), c, z) else t
    case Remove(_) => if r < |t| then Removed(t, r) else t
  }

  /** The records without the entry at r. */
  ghost function Removed(t: seq<Rec>, r: nat): seq<Rec> {
    LiveOf(Marked(t, r, Counted(t, r) + 1))
  }

  /** Record p with another first cluster and size. */
  ghost function Put1(t: seq<Rec>, p: nat, c: u32, z: u32): (t': seq<Rec>)
    ensures |t'| == |t| && forall q :: 0 <= q < |t| && q != p ==> t'[q] == t[q]
    ensures p < |t| ==> t'[p] == PutInfo(t[p], c, z)
  {
    if p < |t| then t[p := PutInfo(t[p], c, z)] else t
  }

  ghost function AfterAll(t: seq<Rec>, ops: seq<DirOp>): seq<Rec>
    requires forall i :: 0 <= i < |ops| ==> OpOk(ops[i])
    decreases |ops|
  {
    if ops == [] then t else AfterAll(After(t, ops[0]), ops[1..])
  }

  // ----- when the listing is right -----

  /** A new file is written as itself: it does not land on the first two records. */
  ghost predicate Lands(t: seq<Rec>, op: DirOp) {
    op.Make? && Hit(t, op.e.name) == |t| ==> 2 <= |t|
  }

  /** The number in the first record of the entry at r is that of its other records. */
  ghost predicate Honest(t: seq<Rec>, r: nat) {
    r < |t| && Heads(t)[r].Item? && Heads(t)[r].more == Counted(t, r)
  }

  /** The first record of the entry that record p belongs to. */
  ghost function FirstOf(h: seq<Head>, p: nat): (g: nat)
    requires p < |h|
    ensures g <= p && (forall q :: g <= q <= p && h[p].Item? ==> h[q].Item? && h[q].end == h[p].end)
    ensures g > 0 && h[g - 1].Item? && h[p].Item? ==> h[g - 1].end != h[p].end
  {
    if p > 0 && h[p].Item? && h[p - 1].Item? && h[p - 1].end == h[p].end then FirstOf(h, p - 1) else p
  }

  /** No entry shows that record p gets this first cluster and size: it is not in use; or it is a short
      record that has them; or it is a long record, and the three characters that they go over are the same
      ones, or stand behind the end of the name, or the file has lost the first of its long records. */
  ghost predicate Hidden(t: seq<Rec>, p: nat, c: u32, z: u32) {
    p < |t| && Live(t[p]) ==>
      if IsShort(t[p]) then ClusOf(t[p]) == c && GetU32(t[p], 28) == z
      else
        var g := FirstOf(Heads(t), p);
        Last(t[g]) ==> CharHidden(t, g, p, 8, c, z) && CharHidden(t, g, p, 11, c, z) && CharHidden(t, g, p, 12, c, z)
  }

  ghost predicate CharHidden(t: seq<Rec>, g: nat, p: nat, x: nat, c: u32, z: u32)
    requires p < |t| && x < 13
  {
    13 * (Ord(t[p]) - 1) + x <= |NameAt(t, g)| ==> PutInfo(t[p], c, z)[CharPos(x)] == t[p][CharPos(x)]
  }

  /** An entry with this first cluster and size. */
  ghost predicate HasInfo(x: Head, c: u32, z: u32) {
    x.Item? && x.e.firstClus == c && x.e.fileSize == z
  }

  /** The entries that eremove takes away with the one at r, and those that turn up for them, as what is
      left of a file is found at each of its records. */
  ghost function LostWith(t: seq<Rec>, r: nat): seq<Entry> {
    var h, x := Heads(t), r + Counted(t, r) + 1;
    if r < |t| && h[r].Item? then Between(h, r + 1 + h[r].more, x) else []
  }

  ghost function FoundFor(t: seq<Rec>, r: nat): seq<Entry> {
    var h, x := Heads(t), r + Counted(t, r) + 1;
    if r < |t| && h[r].Item? then Between(h, x, Next(h, r + 1 + h[r].more, x)) else []
  }

  /** When an operation does to the listing what it should. A new file must not land on the first two
      records. An update must meet an entry whose first record counts its others, or store what the entry
      has already where nothing shows. A removal must not take other entries away, or only such for which
      the same turn up. */
  ghost predicate Right(t: seq<Rec>, op: DirOp) {
    var r := Hit(t, op.Name());
    match op
    case Make(_) => Lands(t, op)
    case Update(_, c, z) =>
      r < |t| ==> Honest(t, r) || (HasInfo(Heads(t)[r], c, z) && Hidden(t, r + Counted(t, r), c, z))
    case Remove(_) => r < |t| ==> LostWith(t, r) == FoundFor(t, r)
  }

  ghost predicate AllRight(t: seq<Rec>, ops: seq<DirOp>)
    requires forall i :: 0 <= i < |ops| ==> OpOk(ops[i])
    decreases |ops|
  {
    ops == [] || (Right(t, ops[0]) && AllRight(After(t, ops[0]), ops[1..]))
  }

  // ----- where a name is found -----

  lemma {:induction false} IndexPast(a: seq<Entry>, b: seq<Entry>, name: seq<byte>)
    requires NoneNamed(a, name)
    ensures IndexOf(a + b, name) == |a| + IndexOf(b, name)
  {
    if a == [] {
      assert a + b == b;
    } else {
      assert (a + b)[0] == a[0] && (a + b)[1..] == a[1..] + b;
      assert forall i :: 0 <= i < |a[1..]| ==> a[1..][i] == a[i + 1];
      IndexPast(a[1..], b, name);
    }
  }

  /** A listing around the entry of a name. */
  ghost predicate Around(h: seq<Head>, r: nat, name: seq<byte>, a: seq<Entry>, b: seq<Entry>) {
    && r <= |h| && Closed(h, r) && NoneNamed(a, name) && a == Between(h, 0, r)
    && if r < |h| then
         && h[r].Item? && h[r].e.name == name && b == Between(h, r + 1 + h[r].more, |h|)
         && Between(h, 0, |h|) == a + ([h[r].e] + b) && IndexOf(Between(h, 0, |h|), name) == |a|
       else
         b == [] && Between(h, 0, |h|) == a && IndexOf(a, name) == |a|
  }

  lemma {:induction false} AroundHit(h: seq<Head>, r: nat, name: seq<byte>) returns (a: seq<Entry>, b: seq<Entry>)
    requires Tidy(h) && name != [] && r == Find(h, 0, name)
    ensures Around(h, r, name, a, b)
  {
    Found(h, 0, name, h, r);
    a := Between(h, 0, r);
    Split(h, 0, r, |h|);
    if r < |h| {
      b := Between(h, r + 1 + h[r].more, |h|);
      assert Between(h, r, |h|) == [h[r].e] + b;
      IndexPast(a, [h[r].e] + b, name);
    } else {
      b := [];
      assert Between(h, r, |h|) == [] && a + [] == a;
      IndexPast(a, [], name);
    }
  }

  /** The listing after an operation on the entry x between a and b. */
  lemma {:induction false} ListedAround(a: seq<Entry>, x: Entry, b: seq<Entry>, op: DirOp)
    requires IndexOf(a + ([x] + b), op.Name()) == |a|
    ensures op.Make? ==> Listed(a + ([x] + b), op) == a + ([x] + b)
    ensures op.Update? ==>
              Listed(a + ([x] + b), op) == a + ([x.(firstClus := op.firstClus, fileSize := op.fileSize)] + b)
    ensures op.Remove? ==> Listed(a + ([x] + b), op) == a + b
  {
    var l := a + ([x] + b);
    assert l[|a|] == x && l[..|a|] == a && l[|a| + 1..] == b;
    if op.Update? {
      var y := x.(firstClus := op.firstClus, fileSize := op.fileSize);
      assert l[|a| := y] == a + ([y] + b);
    }
  }

  lemma {:induction false} SameFront(a: seq<Entry>, b: seq<Entry>, c: seq<Entry>)
    ensures a + b == a + c <==> b == c
  {
    if a + b == a + c {
      assert (a + b)[|a|..] == b && (a + c)[|a|..] == c;
    }
  }

  lemma {:induction false} SameBack(a: seq<Entry>, b: seq<Entry>, c: seq<Entry>)
    ensures a + c == b + c <==> a == b
  {
    if a + c == b + c {
      assert |a| == |b|;
      assert (a + c)[..|a|] == a && (b + c)[..|b|] == b;
    }
  }

  // ----- what is kept -----

  lemma {:induction false} InfoKeeps(r: Rec, c: u32, z: u32)
    ensures PutInfo(r, c, z)[0] == r[0] && PutInfo(r, c, z)[11] == r[11]
    ensures Live(PutInfo(r, c, z)) == Live(r) && IsLong(PutInfo(r, c, z)) == IsLong(r)
    ensures Ord(PutInfo(r, c, z)) == Ord(r) && Last(PutInfo(r, c, z)) == Last(r)
    ensures ShortText(PutInfo(r, c, z)) == ShortText(r)
    ensures ClusOf(PutInfo(r, c, z)) == c && GetU32(PutInfo(r, c, z), 28) == z
  {
    InfoRoundTrip(r, c, z);
    assert PutInfo(r, c, z)[..8] == r[..8] && PutInfo(r, c, z)[8..11] == r[8..11];
  }

  /** Only three characters of a long record are among the bytes that hold a first cluster and a size. */
  lemma {:induction false} InfoChars(r: Rec, c: u32, z: u32, x: nat)
    requires x < 13 && x != 8 && x != 11 && x != 12
    ensures PutInfo(r, c, z)[CharPos(x)] == r[CharPos(x)]
  {
    InfoRoundTrip(r, c, z);
  }

  /** Two sequences of records that differ in what is in them only. */
  ghost predicate Shaped(t: seq<Rec>, t': seq<Rec>) {
    |t'| == |t| && forall q :: 0 <= q < |t| ==>
      Live(t'[q]) == Live(t[q]) && IsLong(t'[q]) == IsLong(t[q]) && Ord(t'[q]) == Ord(t[q]) && Last(t'[q]) == Last(t[q])
      && t'[q][0] == t[q][0]
  }

  lemma {:induction false} PutShaped(t: seq<Rec>, p: nat, c: u32, z: u32)
    ensures Shaped(t, Put1(t, p, c, z))
  {
    if p < |t| {
      InfoKeeps(t[p], c, z);
    }
  }

  lemma {:induction false} ShapedSound(t: seq<Rec>, t': seq<Rec>)
    requires Shaped(t, t') && Sound(t)
    ensures Sound(t') && (t != [] && Live(t[|t| - 1]) ==> Live(t'[|t'| - 1]))
  {
    forall q | 0 <= q < |t'| ensures SoundAt(t', q) {
      assert SoundAt(t, q);
    }
  }

  /** Entries of the same shape are found at the same records. */
  ghost predicate SameShape(h: seq<Head>, h': seq<Head>) {
    |h'| == |h| && forall q :: 0 <= q < |h| ==>
      h'[q].Gap? == h[q].Gap? && (h[q].Item? ==> h'[q].more == h[q].more && h'[q].end == h[q].end)
  }

  lemma {:induction false} ShapedHeads(t: seq<Rec>, t': seq<Rec>)
    requires Shaped(t, t')
    ensures SameShape(Heads(t), Heads(t'))
  {
    forall q | 0 <= q < |t|
      ensures Heads(t')[q].Gap? == Heads(t)[q].Gap?
      ensures Heads(t)[q].Item? ==> Heads(t')[q].more == Heads(t)[q].more && Heads(t')[q].end == Heads(t)[q].end
    {
      HeadIs(t, q);
      HeadIs(t', q);
    }
  }

  /** The same records, the same entry. */
  lemma {:induction false} HeadLocal(t: seq<Rec>, t': seq<Rec>, q: nat)
    requires Sound(t) && q < |t| && q < |t'| && t'[q] == t[q]
    requires Heads(t)[q].Item? ==>
               Heads(t)[q].end < |t'| && forall p :: q <= p <= Heads(t)[q].end && p < |t| ==> t'[p] == t[p]
    ensures Heads(t')[q] == Heads(t)[q]
  {
    HeadIs(t, q);
    HeadIs(t', q);
    if Live(t[q]) {
      Inside(t, q);
      EntryLocal(t, t', q);
    }
  }

  // ----- updates -----

  /** The entries that an update of record p leaves alone. */
  lemma {:induction false} PutAway(t: seq<Rec>, p: nat, c: u32, z: u32, q: nat)
    requires Sound(t) && q < |t| && q != p && (p < q || Heads(t)[q].Gap? || Heads(t)[q].end < p)
    ensures Heads(Put1(t, p, c, z))[q] == Heads(t)[q]
  {
    HeadIs(t, q);
    if Live(t[q]) {
      Inside(t, q);
    }
    HeadLocal(t, Put1(t, p, c, z), q);
  }

  lemma {:induction false} NameOfHead(t: seq<Rec>, q: nat)
    requires q < |t| && Heads(t)[q].Item?
    ensures Heads(t)[q].e.name == NameAt(t, q)
    ensures IsLong(t[q]) && Last(t[q]) ==> NameAt(t, q) == CStr(LongText(t, q, Ord(t[q])))
    ensures IsLong(t[q]) && !Last(t[q]) ==> NameAt(t, q) == CStr(ShortText(RecOr(t, q + Ord(t[q]))))
  {
    HeadIs(t, q);
  }

  lemma {:induction false} InfoOfHead(t: seq<Rec>, q: nat)
    requires q < |t| && Heads(t)[q].Item? && IsLong(t[q])
    ensures var x, r := Heads(t)[q], RecOr(t, q + Ord(t[q]));
            x == Item(Entry(x.e.name, r[11], ClusOf(r), GetU32(r, 28)), x.more, q + Ord(t[q]))
    ensures Heads(t)[q].more == if Last(t[q]) then Ord(t[q]) else 0
  {
    HeadIs(t, q);
  }

  lemma {:induction false} ShortHead(t: seq<Rec>, q: nat)
    requires q < |t| && IsShort(t[q])
    ensures Heads(t)[q] == Item(Entry(CStr(ShortText(t[q])), t[q][11], ClusOf(t[q]), GetU32(t[q], 28)), 0, q)
  {
    HeadIs(t, q);
  }

  /** The entry whose short record it is. */
  lemma {:induction false} PutShort1(t: seq<Rec>, p: nat, c: u32, z: u32, q: nat)
    requires Sound(t) && q <= p < |t| && Heads(t)[q].Item? && Heads(t)[q].end == p
    ensures Heads(Put1(t, p, c, z))[q] == Heads(t)[q].(e := Heads(t)[q].e.(firstClus := c, fileSize := z))
  {
    var t' := Put1(t, p, c, z);
    PutShaped(t, p, c, z);
    HeadIs(t, q);
    HeadIs(t', q);
    InfoKeeps(t[p], c, z);
    if IsLong(t[q]) {
      Inside(t, q);
      InfoOfHead(t, q);
      InfoOfHead(t', q);
      NameOfHead(t, q);
      NameOfHead(t', q);
      TextLocal(t, t', q, Ord(t[q]));
    } else {
      ShortHead(t, q);
      ShortHead(t', q);
    }
  }

  /** A long record p of the entry at q. */
  lemma {:induction false} LongFacts(t: seq<Rec>, p: nat, q: nat)
    requires Sound(t) && q <= p < |t| && Heads(t)[q].Item? && p < Heads(t)[q].end
    ensures Live(t[q]) && IsLong(t[p]) && IsLong(t[q]) && Heads(t)[q].end == q + Ord(t[q]) < |t|
    ensures Ord(t[p]) == Ord(t[q]) - (p - q) && (p == q || !Last(t[p]))
  {
    HeadIs(t, q);
    Inside(t, q);
    RunOf(t, q);
  }

  /** Another entry that goes over it: at most its name changes, and that only if it is a file with all
      its long records. */
  lemma {:induction false} PutLong(t: seq<Rec>, p: nat, c: u32, z: u32, q: nat)
    requires Sound(t) && q <= p < |t| && Heads(t)[q].Item? && p < Heads(t)[q].end
    ensures Heads(Put1(t, p, c, z))[q] == Heads(t)[q].(e := Heads(t)[q].e.(name := NameAt(Put1(t, p, c, z), q)))
    ensures !Last(t[q]) ==> Heads(Put1(t, p, c, z))[q] == Heads(t)[q]
  {
    var t' := Put1(t, p, c, z);
    LongFacts(t, p, q);
    PutShaped(t, p, c, z);
    ShapedHeads(t, t');
    InfosOf(t, t', q, RecOr(t, q + Ord(t[q])));
    NamesOf(t, t', q);
  }

  lemma {:induction false} InfosOf(t: seq<Rec>, t': seq<Rec>, q: nat, r: Rec)
    requires q < |t| && q < |t'| && Heads(t)[q].Item? && Heads(t')[q].Item? && IsLong(t[q]) && IsLong(t'[q])
    requires Ord(t'[q]) == Ord(t[q]) && Last(t'[q]) == Last(t[q])
    requires RecOr(t', q + Ord(t[q])) == r == RecOr(t, q + Ord(t[q]))
    ensures Heads(t')[q] == Heads(t)[q].(e := Heads(t)[q].e.(name := Heads(t')[q].e.name))
  {
    InfoOfHead(t, q);
    InfoOfHead(t', q);
  }

  lemma {:induction false} NamesOf(t: seq<Rec>, t': seq<Rec>, q: nat)
    requires q < |t| && q < |t'| && Heads(t)[q].Item? && Heads(t')[q].Item? && IsLong(t[q]) && IsLong(t'[q])
    requires Ord(t'[q]) == Ord(t[q]) && Last(t'[q]) == Last(t[q])
    requires RecOr(t', q + Ord(t[q])) == RecOr(t, q + Ord(t[q]))
    ensures Heads(t')[q].e.name == NameAt(t', q)
    ensures !Last(t[q]) ==> Heads(t')[q].e.name == Heads(t)[q].e.name
  {
    NameOfHead(t, q);
    NameOfHead(t', q);
  }

  /** Two texts of one length give the same string if and only if they agree up to the first NUL. */
  lemma {:induction false} SameString(s: seq<byte>, u: seq<byte>)
    requires |s| == |u|
    ensures CStr(s) == CStr(u) <==> forall i :: 0 <= i < |s| && i <= |CStr(s)| ==> s[i] == u[i]
  {
    var n := |CStr(s)|;
    if forall i :: 0 <= i < |s| && i <= n ==> s[i] == u[i] {
      forall k | 0 <= k < n ensures u[k] != 0 {
        assert CStr(s)[k] in CStr(s);
        assert u[k] == s[k];
      }
      CStrIs(u, n);
      assert u[..n] == s[..n];
    } else if CStr(s) == CStr(u) {
      forall i | 0 <= i < |s| && i <= n ensures s[i] == u[i] {
        assert i < n ==> CStr(s)[i] == CStr(u)[i];
      }
    }
  }

  /** One part of a text, and that part with three characters from a first cluster and a size over it. */
  ghost predicate OnePart(s: seq<byte>, u: seq<byte>, base: nat, r: Rec, c: u32, z: u32) {
    |s| == |u| && base + 13 <= |s| && forall i :: 0 <= i < |s| ==> PartAt(s, u, base, r, c, z, i)
  }

  ghost predicate PartAt(s: seq<byte>, u: seq<byte>, base: nat, r: Rec, c: u32, z: u32, i: nat)
    requires i < |s| == |u|
  {
    if base <= i < base + 13 then s[i] == r[CharPos(i - base)] && u[i] == PutInfo(r, c, z)[CharPos(i - base)]
    else s[i] == u[i]
  }

  ghost predicate StaysAt(s: seq<byte>, base: nat, r: Rec, c: u32, z: u32, x: nat)
    requires x < 13
  {
    base + x <= |CStr(s)| ==> PutInfo(r, c, z)[CharPos(x)] == r[CharPos(x)]
  }

  lemma {:induction false} PartShows(s: seq<byte>, u: seq<byte>, base: nat, r: Rec, c: u32, z: u32)
    requires OnePart(s, u, base, r, c, z)
    ensures CStr(s) == CStr(u) <==>
            StaysAt(s, base, r, c, z, 8) && StaysAt(s, base, r, c, z, 11) && StaysAt(s, base, r, c, z, 12)
  {
    SameString(s, u);
    forall i | 0 <= i < |s| && i != base + 8 && i != base + 11 && i != base + 12 ensures s[i] == u[i] {
      assert PartAt(s, u, base, r, c, z, i);
      if base <= i < base + 13 {
        InfoChars(r, c, z, i - base);
      }
    }
    assert PartAt(s, u, base, r, c, z, base + 8) && PartAt(s, u, base, r, c, z, base + 11);
    assert PartAt(s, u, base, r, c, z, base + 12);
  }

  /** The name of the file at g shows the change of its record p exactly if one of the three characters does. */
  lemma {:induction false} NameShows(t: seq<Rec>, g: nat, p: nat, c: u32, z: u32)
    requires Sound(t) && g <= p < |t| && Heads(t)[g].Item? && p < Heads(t)[g].end && Last(t[g])
    ensures NameAt(Put1(t, p, c, z), g) == NameAt(t, g) <==>
            CharHidden(t, g, p, 8, c, z) && CharHidden(t, g, p, 11, c, z) && CharHidden(t, g, p, 12, c, z)
  {
    var t' := Put1(t, p, c, z);
    LongFacts(t, p, g);
    PutShaped(t, p, c, z);
    HeadIs(t', g);
    NameOfHead(t, g);
    NameOfHead(t', g);
    var k, base := Ord(t[g]), 13 * (Ord(t[p]) - 1);
    TextsDiffer(t, g, k, p, c, z);
    PartShows(LongText(t, g, k), LongText(t', g, k), base, t[p], c, z);
  }

  lemma {:induction false} TextsDiffer(t: seq<Rec>, g: nat, k: nat, p: nat, c: u32, z: u32)
    requires g <= p < g + k <= |t|
    ensures OnePart(LongText(t, g, k), LongText(Put1(t, p, c, z), g, k), 13 * (k - (p - g) - 1), t[p], c, z)
  {
    var s, u := LongText(t, g, k), LongText(Put1(t, p, c, z), g, k);
    var base := 13 * (k - (p - g) - 1);
    forall i | 0 <= i < |s| ensures PartAt(s, u, base, t[p], c, z, i) {
      TextDiffers(t, g, k, p, c, z, i);
    }
  }

  lemma {:induction false} TextDiffers(t: seq<Rec>, g: nat, k: nat, p: nat, c: u32, z: u32, i: nat)
    requires g <= p < g + k <= |t| && i < 13 * k
    ensures PartAt(LongText(t, g, k), LongText(Put1(t, p, c, z), g, k), 13 * (k - (p - g) - 1), t[p], c, z, i)
  {
    var m, x := k - 1 - i / 13, i % 13;
    assert i == 13 * (k - m - 1) + x;
    TextAt(t, g, k, m, x);
    TextAt(Put1(t, p, c, z), g, k, m, x);
    assert m == p - g <==> 13 * (k - (p - g) - 1) <= i < 13 * (k - (p - g) - 1) + 13;
  }

  /** The first record of an entry, and that no other goes on there. */
  lemma {:induction false} FirstClosed(h: seq<Head>, p: nat)
    requires Tidy(h) && p < |h| && h[p].Item?
    ensures var g := FirstOf(h, p); g <= p && h[g].Item? && h[g].end == h[p].end && Closed(h, g)
  {
    var g := FirstOf(h, p);
    if g > 0 {
      assert TidyAt(h, g - 1);
    }
  }

  /** Two listings of the same shape that are equal have the same entries. */
  lemma {:induction false} SameEntry(h: seq<Head>, h': seq<Head>, q: nat, g: nat)
    requires Tidy(h) && SameShape(h, h') && q <= g < |h| && Closed(h, g) && h[g].Item?
    requires Between(h, q, |h|) == Between(h', q, |h|)
    ensures h'[g].e == h[g].e
    decreases g - q
  {
    if h[q].Item? {
      var n := q + 1 + h[q].more;
      assert Between(h, q, |h|) == [h[q].e] + Between(h, n, |h|);
      assert Between(h', q, |h|) == [h'[q].e] + Between(h', n, |h|);
      assert [h[q].e] + Between(h, n, |h|) == [h'[q].e] + Between(h', n, |h|);
      HeadsEqual(h[q].e, h'[q].e, Between(h, n, |h|), Between(h', n, |h|));
      if q < g {
        EndsBefore(h, q, g);
        SameEntry(h, h', n, g);
      }
    } else {
      SameEntry(h, h', q + 1, g);
    }
  }

  lemma {:induction false} HeadsEqual(x: Entry, y: Entry, a: seq<Entry>, b: seq<Entry>)
    requires [x] + a == [y] + b
    ensures x == y && a == b
  {
    assert ([x] + a)[0] == x && ([y] + b)[0] == y;
    assert ([x] + a)[1..] == a && ([y] + b)[1..] == b;
  }

  /** A change of record p leaves the listing as it was exactly if it is hidden. */
  lemma {:induction false} HiddenIff(t: seq<Rec>, p: nat, c: u32, z: u32)
    requires Sound(t)
    ensures List(Put1(t, p, c, z)) == List(t) <==> Hidden(t, p, c, z)
  {
    var t' := Put1(t, p, c, z);
    if p < |t| && Live(t[p]) {
      HeadIs(t, p);
      SoundTidy(t);
      var h, h', g := Heads(t), Heads(t'), FirstOf(Heads(t), p);
      FirstClosed(h, p);
      PutShaped(t, p, c, z);
      ShapedHeads(t, t');
      HiddenFirst(t, p, c, z, g);
      if Hidden(t, p, c, z) {
        forall q | 0 <= q < |t| ensures h'[q] == h[q] {
          HiddenAt(t, p, c, z, q);
        }
        assert h' == h;
      } else if List(t') == List(t) {
        SameEntry(h, h', 0, g);
      }
    } else {
      forall q | 0 <= q < |t| ensures Heads(t')[q] == Heads(t)[q] {
        GapPut(t, p, c, z, q);
      }
      assert Heads(t') == Heads(t);
    }
  }

  /** At the first record of an entry a change shows exactly if it is not hidden. */
  lemma {:induction false} HiddenFirst(t: seq<Rec>, p: nat, c: u32, z: u32, g: nat)
    requires Sound(t) && p < |t| && Live(t[p]) && g == FirstOf(Heads(t), p)
    requires g <= p && Heads(t)[g].Item? && Heads(t)[p].Item? && Heads(t)[g].end == Heads(t)[p].end
    ensures Heads(Put1(t, p, c, z))[g].Item?
    ensures Heads(Put1(t, p, c, z))[g].e == Heads(t)[g].e <==> Hidden(t, p, c, z)
  {
    HeadIs(t, p);
    HeadIs(t, g);
    if IsShort(t[p]) {
      PutShort1(t, p, c, z, g);
    } else {
      Inside(t, p);
      PutLong(t, p, c, z, g);
      NameOfHead(t, g);
      if Last(t[g]) {
        NameShows(t, g, p, c, z);
      }
    }
  }

  /** A hidden change shows at no record. */
  lemma {:induction false} HiddenAt(t: seq<Rec>, p: nat, c: u32, z: u32, q: nat)
    requires Sound(t) && p < |t| && Live(t[p]) && Hidden(t, p, c, z) && q < |t|
    ensures Heads(Put1(t, p, c, z))[q] == Heads(t)[q]
  {
    SoundTidy(t);
    HeadIs(t, p);
    if q <= p && Heads(t)[q].Item? && p <= Heads(t)[q].end {
      assert TidyAt(Heads(t), q);
      if IsShort(t[p]) {
        PutShort1(t, p, c, z, q);
        HeadIs(t, q);
      } else {
        Inside(t, p);
        LongFacts(t, p, q);
        PutLong(t, p, c, z, q);
        NameOfHead(t, q);
        if Last(t[q]) {
          LastFirst(t, q, p);
          NameShows(t, q, p, c, z);
        }
      }
    } else {
      PutAway(t, p, c, z, q);
    }
  }

  /** The mark of the last part is in the first record of a file. */
  lemma {:induction false} LastFirst(t: seq<Rec>, q: nat, p: nat)
    requires Sound(t) && q <= p < |t| && Heads(t)[q].Item? && Heads(t)[p].Item? && Heads(t)[p].end == Heads(t)[q].end
    requires p < Heads(t)[q].end && IsLong(t[q]) && Last(t[q])
    ensures FirstOf(Heads(t), p) == q
  {
    var g := FirstOf(Heads(t), p);
    SoundTidy(t);
    assert TidyAt(Heads(t), q);
    if g < q {
      LongFacts(t, q, g);
    }
  }

  /** A record that is not in use. */
  lemma {:induction false} GapPut(t: seq<Rec>, p: nat, c: u32, z: u32, q: nat)
    requires Sound(t) && q < |t| && (p < |t| ==> !Live(t[p]))
    ensures Heads(Put1(t, p, c, z))[q] == Heads(t)[q]
  {
    SoundTidy(t);
    HeadIs(t, q);
    if p < |t| {
      HeadIs(t, p);
      assert TidyAt(Heads(t), q);
      if q == p {
        InfoKeeps(t[p], c, z);
        HeadIs(Put1(t, p, c, z), q);
      } else {
        PutAway(t, p, c, z, q);
      }
    } else {
      assert Put1(t, p, c, z) == t;
    }
  }

  /** An update of an entry that is found: the listing around it. */
  lemma {:induction false} UpdateFront(t: seq<Rec>, r: nat, p: nat, c: u32, z: u32, a: seq<Entry>)
    requires Sound(t) && r <= p && r < |t| && Closed(Heads(t), r) && Heads(t)[r].Item? && a == Between(Heads(t), 0, r)
    ensures var h' := Heads(Put1(t, p, c, z));
            && h'[r].Item? && h'[r].more == Heads(t)[r].more
            && List(Put1(t, p, c, z)) == a + ([h'[r].e] + Between(h', r + 1 + h'[r].more, |t|))
  {
    var t' := Put1(t, p, c, z);
    var h, h' := Heads(t), Heads(t');
    SoundTidy(t);
    PutShaped(t, p, c, z);
    ShapedHeads(t, t');
    forall q | 0 <= q < r ensures h'[q] == h[q] {
      if h[q].Item? {
        EndsBefore(h, q, r);
      }
      PutAway(t, p, c, z, q);
    }
    SameFrontOf(h, h', 0, r);
    ShapedSound(t, t');
    SoundTidy(t');
    Reaches(h', 0, r);
    Split(h', 0, r, |t|);
  }

  /** Entries before record r depend on what is found before r only. */
  lemma {:induction false} SameFrontOf(h: seq<Head>, h': seq<Head>, q: nat, r: nat)
    requires r <= |h| && r <= |h'| && forall p :: q <= p < r ==> h'[p] == h[p]
    ensures Between(h', q, r) == Between(h, q, r)
    decreases r - q
  {
    if q < r {
      assert h'[q] == h[q];
      SameFrontOf(h, h', if h[q].Gap? then q + 1 else q + 1 + h[q].more, r);
    }
  }

  /** What the update does to the entry that it is for, and to the one behind it if that is what is left of
      the same file. */
  lemma {:induction false} UpdateHere(t: seq<Rec>, r: nat, p: nat, c: u32, z: u32)
    requires Sound(t) && r < |t| && Heads(t)[r].Item? && p == r + Counted(t, r)
    ensures Honest(t, r) ==> p < |t| && Heads(t)[r].end == p && r + 1 + Heads(t)[r].more == p + 1
    ensures Heads(t)[r].end == p ==>
              Heads(Put1(t, p, c, z))[r] == Heads(t)[r].(e := Heads(t)[r].e.(firstClus := c, fileSize := z))
    ensures Heads(t)[r].end != p ==> Heads(Put1(t, p, c, z))[r] == Heads(t)[r]
    ensures !Honest(t, r) ==> Heads(t)[r].more == 0
    ensures !Honest(t, r) && Heads(t)[r].end == p ==> r + 1 <= p < |t| && Heads(t)[r + 1] == Heads(t)[r]
  {
    SoundTidy(t);
    HeadIs(t, r);
    Inside(t, r);
    assert TidyAt(Heads(t), r);
    if IsLong(t[r]) {
      RunOf(t, r);
    }
    if Heads(t)[r].end == p {
      PutShort1(t, p, c, z, r);
    } else {
      PutAway(t, p, c, z, r);
    }
  }

  /** An update of the entry found at r lists what it should exactly if the first record counts the others,
      or the values are there already and the change does not show. */
  lemma {:induction false} UpdateRight(t: seq<Rec>, r: nat, p: nat, c: u32, z: u32, a: seq<Entry>, b: seq<Entry>)
    requires Sound(t) && r < |t| && p == r + Counted(t, r) && Closed(Heads(t), r) && Heads(t)[r].Item?
    requires a == Between(Heads(t), 0, r) && b == Between(Heads(t), r + 1 + Heads(t)[r].more, |t|)
    requires List(t) == a + ([Heads(t)[r].e] + b)
    ensures List(Put1(t, p, c, z)) == a + ([Heads(t)[r].e.(firstClus := c, fileSize := z)] + b) <==>
            Honest(t, r) || (HasInfo(Heads(t)[r], c, z) && Hidden(t, p, c, z))
  {
    var h, h' := Heads(t), Heads(Put1(t, p, c, z));
    var x, e := h[r].e, h[r].e.(firstClus := c, fileSize := z);
    UpdateFront(t, r, p, c, z, a);
    UpdateHere(t, r, p, c, z);
    var b' := Between(h', r + 1 + h[r].more, |t|);
    SameFront(a, [h'[r].e] + b', [e] + b);
    if Honest(t, r) {
      PutBehind(t, p, c, z, b);
    } else if x == e {
      HiddenIff(t, p, c, z);
    } else {
      UpdateWrong(t, r, p, c, z, b, b');
    }
  }

  lemma {:induction false} UpdateIff(t: seq<Rec>, name: seq<byte>, c: u32, z: u32)
    requires Sound(t) && PlainName(name)
    ensures List(After(t, Update(name, c, z))) == Listed(List(t), Update(name, c, z)) <==> Right(t, Update(name, c, z))
  {
    var h, r := Heads(t), Hit(t, name);
    SoundTidy(t);
    var a, b := AroundHit(h, r, name);
    if r < |t| {
      ListedAround(a, h[r].e, b, Update(name, c, z));
      UpdateRight(t, r, r + Counted(t, r), c, z, a, b);
    }
  }

  /** Behind the record that changes. */
  lemma {:induction false} PutBehind(t: seq<Rec>, p: nat, c: u32, z: u32, b: seq<Entry>)
    requires Sound(t) && b == Between(Heads(t), p + 1, |t|)
    ensures Between(Heads(Put1(t, p, c, z)), p + 1, |t|) == b
  {
    forall q | p + 1 <= q < |t| ensures Heads(Put1(t, p, c, z))[q] == Heads(t)[q] {
      PutAway(t, p, c, z, q);
    }
    Suffix(Heads(t), Heads(Put1(t, p, c, z)), p + 1, |t|);
  }

  /** Other values that do not go where they should. */
  lemma {:induction false} UpdateWrong(t: seq<Rec>, r: nat, p: nat, c: u32, z: u32, b: seq<Entry>, b': seq<Entry>)
    requires Sound(t) && r < |t| && Heads(t)[r].Item? && p == r + Counted(t, r) && !Honest(t, r)
    requires Heads(Put1(t, p, c, z))[r].Item?
    requires b == Between(Heads(t), r + 1 + Heads(t)[r].more, |t|)
    requires b' == Between(Heads(Put1(t, p, c, z)), r + 1 + Heads(t)[r].more, |t|)
    requires Heads(t)[r].e != Heads(t)[r].e.(firstClus := c, fileSize := z)
    ensures [Heads(Put1(t, p, c, z))[r].e] + b' != [Heads(t)[r].e.(firstClus := c, fileSize := z)] + b
  {
    var h, h' := Heads(t), Heads(Put1(t, p, c, z));
    var x, e := h[r].e, h[r].e.(firstClus := c, fileSize := z);
    UpdateHere(t, r, p, c, z);
    if h[r].end == p {
      PutShort1(t, p, c, z, r + 1);
      assert b[0] == x && b'[0] == e;
      assert ([e] + b)[1] == x && ([e] + b')[1] == e;
    } else {
      assert ([x] + b')[0] == x && ([e] + b)[0] == e;
    }
  }

  // ----- removals -----

  lemma {:induction false} LiveSound(m: seq<Rec>)
    requires Sound(m)
    ensures Sound(LiveOf(m))
  {
    var t := LiveOf(m);
    forall q | 0 <= q < |t| ensures SoundAt(t, q) {
      assert SoundAt(m, q);
      if IsLong(m[q]) {
        RunOf(m, q);
        assert Live(m[q + 1]);
      }
    }
  }

  /** Records behind the last one in use list nothing. */
  lemma {:induction false} LiveList(m: seq<Rec>)
    requires Sound(m)
    ensures List(LiveOf(m)) == List(m)
  {
    var t := LiveOf(m);
    var h, h', n := Heads(m), Heads(t), |t|;
    LiveSound(m);
    SoundTidy(t);
    forall q | 0 <= q < n ensures h[q] == h'[q] {
      HeadIs(t, q);
      if Live(t[q]) {
        Inside(t, q);
      }
      HeadLocal(t, m, q);
    }
    SameFrontOf(h', h, 0, n);
    SoundTidy(m);
    if n > 0 {
      LastCloses(m, n);
    }
    Reaches(h, 0, n);
    Split(h, 0, n, |m|);
    forall q | n <= q < |m| ensures h[q].Gap? {
      HeadIs(m, q);
    }
    GapsList(h, n, |m|);
  }

  lemma {:induction false} LastCloses(m: seq<Rec>, n: nat)
    requires Sound(m) && 0 < n <= |m| && (forall q :: n <= q < |m| ==> !Live(m[q]))
    ensures Closed(Heads(m), n)
  {
    HeadIs(m, n - 1);
    if Live(m[n - 1]) {
      Inside(m, n - 1);
    }
  }

  lemma {:induction false} GapsList(h: seq<Head>, q: nat, b: nat)
    requires q <= b <= |h| && forall p :: q <= p < b ==> h[p].Gap?
    ensures Between(h, q, b) == [] && Next(h, q, b) == b
    decreases b - q
  {
    if q < b {
      GapsList(h, q + 1, b);
    }
  }

  /** What is found in records of which n, from the start of an entry on, have been marked empty. */
  lemma {:induction false} MarkedHeads(t: seq<Rec>, r: nat, n: nat, q: nat)
    requires Sound(t) && r <= |t| && Closed(Heads(t), r) && q < |t|
    ensures Heads(Marked(t, r, n))[q] == if r <= q < r + n then Gap else Heads(t)[q]
  {
    var m := Marked(t, r, n);
    SoundTidy(t);
    HeadIs(t, q);
    HeadIs(m, q);
    if !(r <= q < r + n) {
      if Live(t[q]) {
        Inside(t, q);
        if q < r {
          EndsBefore(Heads(t), q, r);
        }
      }
      HeadLocal(t, m, q);
    }
  }

  lemma {:induction false} MarkedSound(t: seq<Rec>, r: nat, n: nat)
    requires Sound(t) && r <= |t| && Closed(Heads(t), r)
    ensures Sound(Marked(t, r, n))
  {
    var m := Marked(t, r, n);
    SoundTidy(t);
    forall q | 0 <= q < |m| ensures SoundAt(m, q) {
      assert SoundAt(t, q);
      if IsLong(t[q]) {
        HeadIs(t, q);
        RunOf(t, q);
        if q < r {
          EndsBefore(Heads(t), q, r);
        }
      }
    }
  }

  /** A scan over records of which those from r up to x are empty. */
  lemma {:induction false} OverGap(h: seq<Head>, h': seq<Head>, r: nat, x: nat)
    requires |h'| == |h| && r <= x <= |h| && Tidy(h') && Closed(h', r)
    requires forall q :: 0 <= q < |h| ==> h'[q] == if r <= q < x then Gap else h[q]
    ensures Between(h', 0, |h|) == Between(h, 0, r) + Between(h, x, |h|)
  {
    SameFrontOf(h, h', 0, r);
    Reaches(h', 0, r);
    Split(h', 0, r, |h|);
    GapsList(h', r, x);
    Split(h', r, x, |h|);
    Suffix(h, h', x, |h|);
  }

  /** A removal leaves what was found before the entry and what is found behind the marked records. */
  lemma {:induction false} RemoveList(t: seq<Rec>, r: nat, n: nat, a: seq<Entry>)
    requires Sound(t) && r < |t| && Closed(Heads(t), r) && a == Between(Heads(t), 0, r)
    ensures List(LiveOf(Marked(t, r, n))) == a + Between(Heads(t), r + n, |t|)
  {
    var m := Marked(t, r, n);
    var x := if r + n <= |t| then r + n else |t|;
    MarkedSound(t, r, n);
    LiveList(m);
    SoundTidy(m);
    forall q | 0 <= q < |t| ensures Heads(m)[q] == if r <= q < x then Gap else Heads(t)[q] {
      MarkedHeads(t, r, n, q);
    }
    OverGap(Heads(t), Heads(m), r, x);
    NoneBehind(Heads(t), r + n, x);
  }

  lemma {:induction false} NoneBehind(h: seq<Head>, q: nat, x: nat)
    requires x == if q <= |h| then q else |h|
    ensures Between(h, q, |h|) == Between(h, x, |h|)
  {
  }

  /** The entries taken away, those that turn up, and what is found behind both. */
  lemma {:induction false} LostFound(h: seq<Head>, b: nat, x: nat) returns (rest: seq<Entry>)
    requires Tidy(h) && b <= x && b <= |h|
    ensures Between(h, b, |h|) == Between(h, b, x) + rest
    ensures Between(h, x, |h|) == Between(h, x, Next(h, b, x)) + rest
  {
    if x <= |h| {
      var y := Next(h, b, x);
      rest := Between(h, y, |h|);
      NextClosed(h, b, x);
      Split(h, b, x, |h|);
      Reaches(h, x, y);
      Split(h, x, y, |h|);
    } else {
      rest := [];
      Whole(h, b, x);
      assert Between(h, b, |h|) + [] == Between(h, b, |h|);
      assert Between(h, x, |h|) == [] && Between(h, x, Next(h, b, x)) == [];
    }
  }

  /** A removal lists what it should exactly if what goes with the entry turns up again. */
  lemma {:induction false} RemoveIff(t: seq<Rec>, name: seq<byte>)
    requires Sound(t) && PlainName(name)
    ensures List(After(t, Remove(name))) == Listed(List(t), Remove(name)) <==> Right(t, Remove(name))
  {
    var h, r, op := Heads(t), Hit(t, name), Remove(name);
    SoundTidy(t);
    var a, b := AroundHit(h, r, name);
    if r < |t| {
      ListedAround(a, h[r].e, b, op);
      RemoveRight(t, r, a, b);
    }
  }

  lemma {:induction false} RemoveRight(t: seq<Rec>, r: nat, a: seq<Entry>, b: seq<Entry>)
    requires Sound(t) && r < |t| && Closed(Heads(t), r) && Heads(t)[r].Item?
    requires a == Between(Heads(t), 0, r) && b == Between(Heads(t), r + 1 + Heads(t)[r].more, |t|)
    ensures List(Removed(t, r)) == a + b <==> LostWith(t, r) == FoundFor(t, r)
  {
    RemovedList(t, r, a);
    RemoveParts(t, r, a, b);
  }

  lemma {:induction false} RemovedList(t: seq<Rec>, r: nat, a: seq<Entry>)
    requires Sound(t) && r < |t| && Closed(Heads(t), r) && a == Between(Heads(t), 0, r)
    ensures List(Removed(t, r)) == a + Between(Heads(t), r + Counted(t, r) + 1, |t|)
  {
    RemoveList(t, r, Counted(t, r) + 1, a);
  }

  lemma {:induction false} RemoveParts(t: seq<Rec>, r: nat, a: seq<Entry>, b: seq<Entry>)
    requires Sound(t) && r < |t| && Heads(t)[r].Item? && b == Between(Heads(t), r + 1 + Heads(t)[r].more, |t|)
    ensures a + Between(Heads(t), r + Counted(t, r) + 1, |t|) == a + b <==> LostWith(t, r) == FoundFor(t, r)
  {
    var h, x := Heads(t), r + Counted(t, r) + 1;
    SoundTidy(t);
    Covers(t, r);
    var rest := LostFound(h, r + 1 + h[r].more, x);
    SameFront(a, Between(h, x, |t|), b);
    SameBack(LostWith(t, r), FoundFor(t, r), rest);
  }

  /** The first record of an entry counts at least those that enext counts. */
  lemma {:induction false} Covers(t: seq<Rec>, r: nat)
    requires Sound(t) && r < |t| && Heads(t)[r].Item?
    ensures Heads(t)[r].more <= Counted(t, r) && r + Heads(t)[r].more < |t|
  {
    HeadIs(t, r);
    Inside(t, r);
  }

  /** Nothing goes with an entry exactly if the counted records behind it are not in use. */
  lemma {:induction false} LostNothing(t: seq<Rec>, r: nat)
    requires Sound(t) && r < |t| && Heads(t)[r].Item?
    ensures LostWith(t, r) == [] <==>
            forall q :: r + 1 + Heads(t)[r].more <= q <= r + Counted(t, r) && q < |t| ==> !Live(t[q])
    ensures LostWith(t, r) == [] ==> FoundFor(t, r) == []
  {
    var h, x := Heads(t), r + Counted(t, r) + 1;
    Covers(t, r);
    EmptyBetween(t, r + 1 + h[r].more, x);
  }

  lemma {:induction false} EmptyBetween(t: seq<Rec>, q: nat, x: nat)
    requires q <= x
    ensures Between(Heads(t), q, x) == [] <==> forall p :: q <= p < x && p < |t| ==> !Live(t[p])
    ensures Between(Heads(t), q, x) == [] ==> Between(Heads(t), x, Next(Heads(t), q, x)) == []
    decreases x - q
  {
    if q < x && q < |t| {
      HeadIs(t, q);
      EmptyBetween(t, q + 1, x);
    }
  }

  /** If something goes with it, it can only turn up again where the last record marked is a long one: of a
      file that has then lost its first records. */
  lemma {:induction false} FoundInFile(t: seq<Rec>, r: nat)
    requires Sound(t) && r < |t| && Heads(t)[r].Item? && FoundFor(t, r) != []
    ensures r + Counted(t, r) < |t| && IsLong(t[r + Counted(t, r)])
  {
    var h, x := Heads(t), r + Counted(t, r) + 1;
    Covers(t, r);
    InFile(t, r + 1 + h[r].more, x);
  }

  lemma {:induction false} InFile(t: seq<Rec>, q: nat, x: nat)
    requires Sound(t) && q <= x && Between(Heads(t), x, Next(Heads(t), q, x)) != []
    ensures 0 < x <= |t| && IsLong(t[x - 1])
    decreases x - q
  {
    var h := Heads(t);
    assert q < x && q < |t|;
    HeadIs(t, q);
    if h[q].Gap? {
      InFile(t, q + 1, x);
    } else {
      Inside(t, q);
      var n := q + 1 + h[q].more;
      if n <= x {
        InFile(t, n, x);
      } else {
        assert Next(h, n, x) == n;
      }
    }
  }

  // ----- new files -----

  /** The long records of a file that emake writes. */
  lemma {:induction false} FileLong(e: Entry, j: nat)
    requires e.Good() && j < e.Longs()
    ensures IsLong(FileRecs(e)[j]) && Ord(FileRecs(e)[j]) == e.Longs() - j <= 19
    ensures Last(FileRecs(e)[j]) <==> j == 0
  {
    LongsBounds(e);
    FileRecIs(e, j);
    LongMarks(e.name, e.Longs() - j, e.Longs(), Checksum(ShortName(e.name)));
  }

  lemma {:induction false} LongMarks(name: seq<byte>, i: nat, n: nat, chk: byte)
    requires 1 <= i <= n <= 19
    ensures IsLong(LongOf(name, i, n, chk)) && Ord(LongOf(name, i, n, chk)) == i
    ensures Last(LongOf(name, i, n, chk)) <==> i == n
  {
    assert LongOf(name, i, n, chk)[0] == Order(i, n) && LongOf(name, i, n, chk)[11] == ATTR_LONG_NAME;
  }

  lemma {:induction false} FileChar(e: Entry, j: nat, y: nat)
    requires e.Good() && j < e.Longs() && y < 13
    ensures FileRecs(e)[j][CharPos(y)] == CharLo(e.name, 13 * (e.Longs() - j - 1) + y)
  {
    LongsBounds(e);
    FileRecIs(e, j);
    LongChars(e.name, e.Longs() - j, e.Longs(), Checksum(ShortName(e.name)), y);
  }

  /** Its short record. */
  lemma {:induction false} FileShort(e: Entry)
    requires e.Good()
    ensures var r := FileRecs(e)[e.Longs()];
            && IsShort(r) && r[..11] == ShortName(e.name)
            && r[11] == e.attribute && ClusOf(r) == e.firstClus && GetU32(r, 28) == e.fileSize
  {
    FileRecIs(e, e.Longs());
    ShortOfIs(ShortName(e.name), e);
    ShortNameChars(e.name);
    assert OpenGood(Key);
    var r := FileRecs(e)[e.Longs()];
    assert r[0] == r[..11][0] && ShortName(e.name)[0] in ShortName(e.name);
  }

  /** A dot record. */
  lemma {:induction false} DotShort(second: bool, c: u32)
    ensures IsShort(DotRec(second, c)) && CStr(ShortText(DotRec(second, c))) == DotName(second)
    ensures DotRec(second, c)[11] == ATTR_DIRECTORY && ClusOf(DotRec(second, c)) == c
    ensures GetU32(DotRec(second, c), 28) == 0
    ensures Ord(DotRec(second, c)) == DOT
  {
    var r := DotRec(second, c);
    ShortOfIs(DotPadded(second), Entry(DotName(second), ATTR_DIRECTORY, c, 0));
    DotText(r, second);
    assert r[0] == r[..11][0];
  }

  lemma {:induction false} AppendSound(t: seq<Rec>, x: seq<Rec>)
    requires Sound(t) && Sound(x)
    ensures Sound(t + x)
  {
    forall q | 0 <= q < |t + x| ensures SoundAt(t + x, q) {
      if q < |t| {
        assert SoundAt(t, q);
      } else {
        assert SoundAt(x, q - |t|);
        assert (t + x)[q] == x[q - |t|];
        assert q + 1 < |t + x| ==> (t + x)[q + 1] == x[q - |t| + 1];
      }
    }
  }

  lemma {:induction false} FileSound(e: Entry)
    requires e.Good()
    ensures Sound(FileRecs(e))
  {
    var x := FileRecs(e);
    FileShort(e);
    forall q | 0 <= q < |x| ensures SoundAt(x, q) {
      if q < e.Longs() {
        FileLong(e, q);
        if q + 1 < e.Longs() {
          FileLong(e, q + 1);
        }
      }
    }
  }

  lemma {:induction false} DotSound(second: bool, c: u32)
    ensures Sound([DotRec(second, c)])
  {
    DotShort(second, c);
    assert SoundAt([DotRec(second, c)], 0);
  }

  /** What is found at the first record of a file that emake has written behind t. */
  lemma {:induction false} FileHead(t: seq<Rec>, e: Entry)
    requires e.Good()
    ensures Heads(t + FileRecs(e))[|t|] == Item(e, e.Longs(), |t| + e.Longs())
  {
    var t', k := t + FileRecs(e), e.Longs();
    LongsBounds(e);
    FileLong(e, 0);
    FileShort(e);
    assert t'[|t|] == FileRecs(e)[0] && t'[|t| + k] == FileRecs(e)[k];
    HeadIs(t', |t|);
    InfoOfHead(t', |t|);
    NameOfHead(t', |t|);
    FileText(t, e);
  }

  lemma {:induction false} FileText(t: seq<Rec>, e: Entry)
    requires e.Good()
    ensures CStr(LongText(t + FileRecs(e), |t|, e.Longs())) == e.name
  {
    var t', k, n := t + FileRecs(e), e.Longs(), |e.name|;
    var s := LongText(t', |t|, k);
    LongsBounds(e);
    forall i | 0 <= i < 13 * k ensures s[i] == CharLo(e.name, i) {
      var m, y := k - 1 - i / 13, i % 13;
      assert i == 13 * (k - m - 1) + y;
      TextAt(t', |t|, k, m, y);
      FileChar(e, m, y);
      assert t'[|t| + m] == FileRecs(e)[m];
    }
    assert forall i :: 0 <= i < n ==> e.name[i] in e.name;
    CStrIs(s, n);
    assert s[..n] == e.name;
  }

  /** Entries that records behind them leave alone. */
  lemma {:induction false} AppendHeads(t: seq<Rec>, x: seq<Rec>, q: nat)
    requires Sound(t) && q < |t|
    ensures Heads(t + x)[q] == Heads(t)[q]
  {
    HeadIs(t, q);
    if Live(t[q]) {
      Inside(t, q);
    }
    HeadLocal(t, t + x, q);
  }

  /** The listing with one entry more. */
  lemma {:induction false} AppendList(t: seq<Rec>, x: seq<Rec>, e: Entry)
    requires Sound(t) && Sound(t + x) && x != [] && Heads(t + x)[|t|] == Item(e, |x| - 1, |t| + |x| - 1)
    ensures List(t + x) == List(t) + [e]
  {
    var h, h', n := Heads(t), Heads(t + x), |t|;
    forall q | 0 <= q < n ensures h'[q] == h[q] {
      AppendHeads(t, x, q);
    }
    SameFrontOf(h, h', 0, n);
    SoundTidy(t);
    SoundTidy(t + x);
    if n > 0 && h[n - 1].Item? {
      assert TidyAt(h, n - 1);
    }
    Reaches(h', 0, n);
    Split(h', 0, n, n + |x|);
    assert Between(h', n + |x|, n + |x|) == [];
  }

  /** The entry that a scan finds where emake has written e. */
  ghost function EntryMade(r: nat, e: Entry): Entry {
    if r < 2 then Entry(DotName(r == 1), ATTR_DIRECTORY, e.firstClus, 0) else e
  }

  lemma {:induction false} MadeSound(t: seq<Rec>, e: Entry)
    requires Sound(t) && e.Good()
    ensures Scannable(t + MadeAt(|t|, e))
  {
    if |t| < 2 {
      DotSound(|t| == 1, e.firstClus);
      DotShort(|t| == 1, e.firstClus);
    } else {
      FileSound(e);
      FileShort(e);
    }
    AppendSound(t, MadeAt(|t|, e));
  }

  lemma {:induction false} MadeList(t: seq<Rec>, e: Entry)
    requires Sound(t) && e.Good()
    ensures List(t + MadeAt(|t|, e)) == List(t) + [EntryMade(|t|, e)]
  {
    var x := MadeAt(|t|, e);
    MadeSound(t, e);
    if |t| < 2 {
      DotShort(|t| == 1, e.firstClus);
      assert (t + x)[|t|] == x[0];
      ShortHead(t + x, |t|);
    } else {
      FileHead(t, e);
    }
    AppendList(t, x, EntryMade(|t|, e));
  }

  /** A new file lists itself exactly if it does not land on the first two records. */
  lemma {:induction false} MakeIff(t: seq<Rec>, op: DirOp)
    requires Sound(t) && OpOk(op) && op.Make?
    ensures List(After(t, op)) == Listed(List(t), op) <==> Right(t, op)
  {
    SoundTidy(t);
    var r := Hit(t, op.e.name);
    var a, b := AroundHit(Heads(t), r, op.e.name);
    if r < |t| {
      ListedAround(a, Heads(t)[r].e, b, op);
    } else {
      MadeList(t, op.e);
      assert OpenPlain(Key);
      SameFront(List(t), [EntryMade(|t|, op.e)], [op.e]);
    }
  }

  // ----- all operations -----

  lemma {:induction false} RemoveSound(t: seq<Rec>, r: nat, n: nat)
    requires Sound(t) && r <= |t| && Closed(Heads(t), r)
    ensures Scannable(LiveOf(Marked(t, r, n)))
  {
    MarkedSound(t, r, n);
    LiveSound(Marked(t, r, n));
  }

  lemma {:induction false} UpdateSound(t: seq<Rec>, p: nat, c: u32, z: u32)
    requires Scannable(t)
    ensures Scannable(Put1(t, p, c, z))
  {
    PutShaped(t, p, c, z);
    ShapedSound(t, Put1(t, p, c, z));
  }

  /** An operation leaves a directory that can be scanned, whatever it finds there. */
  lemma {:induction false} AfterSound(t: seq<Rec>, op: DirOp)
    requires Scannable(t) && OpOk(op)
    ensures Scannable(After(t, op))
  {
    var r := Hit(t, op.Name());
    match op
    case Make(e) =>
      if r == |t| {
        MadeSound(t, e);
      }
    case Update(_, c, z) =>
      if r < |t| {
        UpdateSound(t, r + Counted(t, r), c, z);
      }
    case Remove(name) =>
      RemovedSound(t, name);
  }

  lemma {:induction false} RemovedSound(t: seq<Rec>, name: seq<byte>)
    requires Scannable(t)
    ensures Hit(t, name) < |t| ==> Scannable(Removed(t, Hit(t, name)))
  {
    var r := Hit(t, name);
    HitClosed(t, name, r);
    if r < |t| {
      RemoveSound(t, r, Counted(t, r) + 1);
    }
  }

  /** A name is found where no entry goes on. */
  lemma {:induction false} HitClosed(t: seq<Rec>, name: seq<byte>, r: nat)
    requires Sound(t) && r == Hit(t, name)
    ensures Closed(Heads(t), r)
  {
    SoundTidy(t);
    Found(Heads(t), 0, name, Heads(t), r);
  }

  /** The records list what the operation makes of the list exactly when it is right. */
  lemma {:induction false} ListsIff(t: seq<Rec>, op: DirOp)
    requires Sound(t) && OpOk(op)
    ensures List(After(t, op)) == Listed(List(t), op) <==> Right(t, op)
  {
    match op
    case Make(_) => MakeIff(t, op);
    case Update(name, c, z) => UpdateIff(t, name, c, z);
    case Remove(name) => RemoveIff(t, name);
  }

  /** Over a series of operations, if each is right. */
  lemma {:induction false} ListsAll(t: seq<Rec>, ops: seq<DirOp>)
    requires Scannable(t) && forall i :: 0 <= i < |ops| ==> OpOk(ops[i])
    ensures Scannable(AfterAll(t, ops))
    ensures AllRight(t, ops) ==> List(AfterAll(t, ops)) == ListedAll(List(t), ops)
    decreases |ops|
  {
    if ops != [] {
      AfterSound(t, ops[0]);
      ListsIff(t, ops[0]);
      ListsAll(After(t, ops[0]), ops[1..]);
    }
  }
}
