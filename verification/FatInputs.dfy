/** Directories on which the operations do what they should, and directories on which they do not. */
module FatInputs {
  import opened Bytes
  import opened FatFiles
  import opened FatRecords
  import opened FatScan
  import opened FatDirectory
  import opened FatEdits

  // ----- new files in a directory without dot entries -----

  /** A directory with no record in use, as a root may be: the file made in it is lost, and a "." with its
      first cluster is listed. */
  lemma {:induction false} LostInRoot(e: Entry)
    requires e.Good() && PlainName(e.name)
    ensures List([]) == [] && List(After([], Make(e))) == [EntryMade(0, e)] && EntryMade(0, e) != e
    ensures !Right([], Make(e))
  {
    assert OpenPlain(Key);
    MadeList([], e);
    assert List([]) == [] && [] + [EntryMade(0, e)] == [EntryMade(0, e)];
  }

  /** So is the one made after the only file of a root has been removed. */
  lemma {:induction false} LostAfterRemove(f: Entry, e: Entry)
    requires f.Good() && PlainName(f.name) && e.Good() && PlainName(e.name)
    ensures List(AfterAll(FileRecs(f), [Remove(f.name), Make(e)])) == [EntryMade(0, e)]
  {
    var t, ops := FileRecs(f), [Remove(f.name), Make(e)];
    OnlyFile(f);
    assert ops[1..] == [Make(e)] && [Make(e)][1..] == [];
    assert AfterAll(t, ops) == AfterAll([], [Make(e)]);
    assert AfterAll([], [Make(e)]) == AfterAll(After([], Make(e)), []);
    LostInRoot(e);
  }

  /** The only file of a directory is found at its first record, and removed whole. */
  lemma {:induction false} OnlyFile(f: Entry)
    requires f.Good() && PlainName(f.name)
    ensures After(FileRecs(f), Remove(f.name)) == []
  {
    var t, k := FileRecs(f), f.Longs();
    FileSound(f);
    FileHead([], f);
    assert [] + t == t;
    FileLong(f, 0);
    assert Hit(t, f.name) == 0 && Counted(t, 0) == k;
    NothingLeft(t);
  }

  lemma {:induction false} NothingLeft(t: seq<Rec>)
    ensures LiveOf(Marked(t, 0, |t|)) == []
  {
    var m := Marked(t, 0, |t|);
    LiveIs(m, 0);
    assert m[..0] == [];
  }

  // ----- entries that are a short record alone -----

  /** An entry that is a short record alone. */
  ghost predicate Alone(t: seq<Rec>, r: nat) {
    r < |t| && IsShort(t[r]) && Heads(t)[r].Item? && Heads(t)[r].more == 0 && Heads(t)[r].end == r
  }

  lemma {:induction false} ShortAlone(t: seq<Rec>, r: nat)
    requires r < |t| && IsShort(t[r])
    ensures Alone(t, r) && (Honest(t, r) <==> t[r][0] == 0x40)
  {
    ShortHead(t, r);
  }

  /** Every update and removal of an entry whose name starts with "@" is right. */
  lemma {:induction false} AtSign(t: seq<Rec>, name: seq<byte>, c: u32, z: u32)
    requires Sound(t) && PlainName(name) && Hit(t, name) < |t|
    requires IsShort(t[Hit(t, name)]) && t[Hit(t, name)][0] == 0x40
    ensures Right(t, Update(name, c, z)) && Right(t, Remove(name))
  {
    var r := Hit(t, name);
    ShortAlone(t, r);
    LostNothing(t, r);
  }

  /** Of every other short record alone an update with another first cluster or size is wrong. */
  lemma {:induction false} NoUpdate(t: seq<Rec>, name: seq<byte>, c: u32, z: u32)
    requires Sound(t) && PlainName(name) && Hit(t, name) < |t|
    requires IsShort(t[Hit(t, name)]) && t[Hit(t, name)][0] != 0x40 && !HasInfo(Heads(t)[Hit(t, name)], c, z)
    ensures !Right(t, Update(name, c, z))
  {
    ShortAlone(t, Hit(t, name));
  }

  /** A removal of one spares all others exactly if as many records behind it as the first byte of its name
      says are not in use; if not, it is wrong unless the last of them is a long record. */
  lemma {:induction false} AloneRemoved(t: seq<Rec>, name: seq<byte>)
    requires Sound(t) && PlainName(name) && Hit(t, name) < |t| && IsShort(t[Hit(t, name)])
    ensures var r := Hit(t, name); var c := Ord(t[r]);
            && ((forall q :: r < q <= r + c && q < |t| ==> !Live(t[q])) ==> Right(t, Remove(name)))
            && (Right(t, Remove(name)) ==>
                  || (forall q :: r < q <= r + c && q < |t| ==> !Live(t[q]))
                  || (r + c < |t| && IsLong(t[r + c])))
  {
    var r := Hit(t, name);
    ShortAlone(t, r);
    LostNothing(t, r);
    if Right(t, Remove(name)) && LostWith(t, r) != [] {
      FoundInFile(t, r);
    }
  }

  /** A record "A" in front of a file: the entry that stands alone, then the file. */
  ghost predicate InFront(a: Rec, f: Entry) {
    && IsShort(a) && a[0] == 0x41 && f.Good()
    && PlainName(CStr(ShortText(a))) && PlainName(f.name) && f.name != CStr(ShortText(a))
  }

  ghost function AloneEntry(a: Rec): Entry {
    Entry(CStr(ShortText(a)), a[11], ClusOf(a), GetU32(a, 28))
  }

  lemma {:induction false} FrontHeads(a: Rec, f: Entry)
    requires InFront(a, f)
    ensures var t := [a] + FileRecs(f);
            && Sound(t) && Heads(t)[0] == Item(AloneEntry(a), 0, 0)
            && Heads(t)[1] == Item(f, f.Longs(), f.Longs() + 1) && Hit(t, AloneEntry(a).name) == 0 && Counted(t, 0) == 1
            && List(t) == [AloneEntry(a), f]
  {
    var t := [a] + FileRecs(f);
    FileSound(f);
    assert Sound([a]) by {
      assert SoundAt([a], 0);
    }
    AppendSound([a], FileRecs(f));
    ShortHead(t, 0);
    FileHead([a], f);
    assert Between(Heads(t), f.Longs() + 2, |t|) == [];
    assert Between(Heads(t), 1, |t|) == [f] + [];
    assert Between(Heads(t), 0, |t|) == [AloneEntry(a)] + Between(Heads(t), 1, |t|);
  }

  /** What is left of a file whose first long record is gone, at each record under its short name. */
  ghost function ShortOnly(f: Entry): Entry
    requires f.Good()
  {
    f.(name := CStr(ShortText(FileRecs(f)[f.Longs()])))
  }

  /** Removing "A" takes the first record of the file with it: the file is then listed under its short name,
      as often as it has records left. */
  lemma {:induction false} RemoveTakesNext(a: Rec, f: Entry)
    requires InFront(a, f)
    ensures List(After([a] + FileRecs(f), Remove(AloneEntry(a).name))) == seq(f.Longs(), _ => ShortOnly(f))
    ensures Right([a] + FileRecs(f), Remove(AloneEntry(a).name)) <==> f.Longs() == 1 && ShortOnly(f) == f
  {
    var t, name, k := [a] + FileRecs(f), AloneEntry(a).name, f.Longs();
    FrontHeads(a, f);
    FrontRemoved(a, f);
    ListsIff(t, Remove(name));
    assert IndexOf([AloneEntry(a), f], name) == 0;
    assert Listed([AloneEntry(a), f], Remove(name)) == [] + [f] == [f];
    OneEntry(k, ShortOnly(f), f);
  }

  lemma {:induction false} FrontRemoved(a: Rec, f: Entry)
    requires InFront(a, f)
    ensures List(After([a] + FileRecs(f), Remove(AloneEntry(a).name))) == seq(f.Longs(), _ => ShortOnly(f))
  {
    var t, k := [a] + FileRecs(f), f.Longs();
    var want := seq(k, _ => ShortOnly(f));
    FrontHeads(a, f);
    LongsBounds(f);
    RemoveList(t, 0, 2, []);
    TailHeads(a, f, 2);
    SoundTidy(t);
    TailList(Heads(t), 2, ShortOnly(f), k + 1);
    assert [] + want == want;
  }

  lemma {:induction false} OneEntry(k: nat, x: Entry, y: Entry)
    ensures seq(k, _ => x) == [y] <==> k == 1 && x == y
  {
    if k == 1 {
      assert seq(k, _ => x)[0] == x;
    }
  }

  lemma {:induction false} TailHeads(a: Rec, f: Entry, q: nat)
    requires InFront(a, f) && 2 <= q <= f.Longs() + 1
    ensures Heads([a] + FileRecs(f))[q] == Item(ShortOnly(f), 0, f.Longs() + 1)
  {
    var t, k := [a] + FileRecs(f), f.Longs();
    ShortOnlyIs(f);
    assert t[k + 1] == FileRecs(f)[k];
    if q <= k {
      TailLong(a, f, q);
      LostHead(t, q, k + 1);
    } else {
      ShortHead(t, q);
    }
  }

  lemma {:induction false} ShortOnlyIs(f: Entry)
    requires f.Good()
    ensures var r := FileRecs(f)[f.Longs()];
            IsShort(r) && ShortOnly(f) == Entry(CStr(ShortText(r)), r[11], ClusOf(r), GetU32(r, 28))
  {
    FileShort(f);
  }

  lemma {:induction false} TailLong(a: Rec, f: Entry, q: nat)
    requires f.Good() && 2 <= q <= f.Longs()
    ensures var r := ([a] + FileRecs(f))[q]; IsLong(r) && !Last(r) && q + Ord(r) == f.Longs() + 1
  {
    FileLong(f, q - 1);
    assert ([a] + FileRecs(f))[q] == FileRecs(f)[q - 1];
  }

  /** A long record that is not the first of its file shows what the short record at s says. */
  lemma {:induction false} LostHead(t: seq<Rec>, q: nat, s: nat)
    requires q < s < |t| && IsLong(t[q]) && !Last(t[q]) && q + Ord(t[q]) == s
    ensures Heads(t)[q] == Item(Entry(CStr(ShortText(t[s])), t[s][11], ClusOf(t[s]), GetU32(t[s], 28)), 0, s)
  {
    HeadIs(t, q);
    assert ShortPos(t, q) == s && Width(t, q) == 1;
    assert NameAt(t, q) == CStr(ShortText(t[s]));
  }

  /** A file without its first record is found at each of the others. */
  lemma {:induction false} TailList(h: seq<Head>, q: nat, x: Entry, end: nat)
    requires Tidy(h) && q <= end && end + 1 == |h| && h[q] == Item(x, 0, end)
    ensures Between(h, q, |h|) == seq(end + 1 - q, _ => x)
    decreases end - q
  {
    if q < end {
      assert TidyAt(h, q);
      TailList(h, q + 1, x, end);
    } else {
      assert Between(h, q + 1, |h|) == [];
    }
    assert seq(end + 1 - q, _ => x) == [x] + seq(end - q, _ => x);
  }

  /** Updating "A" leaves it as it was, and writes over the name of the file. */
  lemma {:induction false} UpdateTakesNext(a: Rec, f: Entry, c: u32, z: u32)
    requires InFront(a, f)
    ensures var l := List(After([a] + FileRecs(f), Update(AloneEntry(a).name, c, z)));
            |l| == 2 && l[0] == AloneEntry(a) && l[1] == f.(name := l[1].name)
  {
    var t := [a] + FileRecs(f);
    FrontHeads(a, f);
    LongsBounds(f);
    var t', h' := Put1(t, 1, c, z), Heads(Put1(t, 1, c, z));
    UpdateFront(t, 0, 1, c, z, []);
    PutAway(t, 1, c, z, 0);
    PutLong(t, 1, c, z, 1);
    assert Between(h', f.Longs() + 2, |t|) == [];
    assert Between(h', 1, |t|) == [h'[1].e] + [];
    assert List(t') == [] + ([h'[0].e] + Between(h', 1, |t|));
  }

  // ----- directories with dot entries -----

  /** A directory that starts with its two dot entries, and in which every other entry has all its long
      records, as emake makes them. */
  ghost predicate Dotted(t: seq<Rec>) {
    && 2 <= |t| && DotAt(t, 0) && DotAt(t, 1)
    && forall q :: 2 <= q < |t| ==> FullAt(t, q)
  }

  ghost predicate DotAt(t: seq<Rec>, q: nat)
    requires q < |t|
  {
    IsShort(t[q]) && CStr(ShortText(t[q])) == DotName(q == 1)
  }

  /** If an entry starts here, it starts with the last part of its name. */
  ghost predicate FullAt(t: seq<Rec>, q: nat)
    requires q < |t|
  {
    Live(t[q]) && Closed(Heads(t), q) ==> IsLong(t[q]) && Last(t[q])
  }

  lemma {:induction false} DotHeads(t: seq<Rec>, q: nat)
    requires q < |t| && q < 2 && DotAt(t, q)
    ensures Heads(t)[q].Item? && Heads(t)[q].e.name == DotName(q == 1) && Heads(t)[q].end == q && Heads(t)[q].more == 0
  {
    ShortHead(t, q);
  }

  /** A name that is found in such a directory, is found at a file with all its long records. */
  lemma {:induction false} DottedHit(t: seq<Rec>, name: seq<byte>)
    requires Sound(t) && Dotted(t) && PlainName(name) && Hit(t, name) < |t|
    ensures var r := Hit(t, name);
            && 2 <= r && Closed(Heads(t), r) && Heads(t)[r].Item? && IsLong(t[r]) && Last(t[r])
            && Honest(t, r) && Heads(t)[r].end == r + Counted(t, r)
  {
    var r := Hit(t, name);
    SoundTidy(t);
    var _, _ := AroundHit(Heads(t), r, name);
    assert OpenPlain(Key);
    DotHeads(t, 0);
    DotHeads(t, 1);
    assert 2 <= r;
    HeadIs(t, r);
    assert FullAt(t, r);
    InfoOfHead(t, r);
  }

  /** Every operation on such a directory is right, and leaves such a directory. */
  lemma {:induction false} DottedRight(t: seq<Rec>, op: DirOp)
    requires Sound(t) && Dotted(t) && OpOk(op)
    ensures Right(t, op)
  {
    var r := Hit(t, op.Name());
    if r < |t| && !op.Make? {
      DottedHit(t, op.Name());
      LostNothing(t, r);
    }
  }

  lemma {:induction false} DottedMade(t: seq<Rec>, e: Entry)
    requires Sound(t) && Dotted(t) && e.Good()
    ensures Dotted(t + FileRecs(e))
  {
    var t', k := t + FileRecs(e), e.Longs();
    LongsBounds(e);
    FileHead(t, e);
    FileLong(e, 0);
    MadeSound(t, e);
    SoundTidy(t');
    assert t'[|t|] == FileRecs(e)[0];
    forall q | 2 <= q < |t'| ensures FullAt(t', q) {
      if q < |t| {
        assert FullAt(t, q);
        AppendHeads(t, FileRecs(e), q - 1);
      } else if |t| < q {
        assert TidyAt(Heads(t'), |t|);
      }
    }
  }

  lemma {:induction false} DottedPut(t: seq<Rec>, p: nat, c: u32, z: u32)
    requires Sound(t) && Dotted(t) && 2 <= p
    ensures Dotted(Put1(t, p, c, z))
  {
    var t' := Put1(t, p, c, z);
    PutShaped(t, p, c, z);
    ShapedHeads(t, t');
    forall q | 2 <= q < |t'| ensures FullAt(t', q) {
      assert FullAt(t, q);
    }
  }

  lemma {:induction false} DottedRemoved(t: seq<Rec>, name: seq<byte>)
    requires Sound(t) && Dotted(t) && PlainName(name) && Hit(t, name) < |t|
    ensures Dotted(Removed(t, Hit(t, name)))
  {
    var r := Hit(t, name);
    DottedHit(t, name);
    DottedMarked(t, r, Counted(t, r) + 1);
  }

  /** With the records of one file marked empty it is still such a directory. */
  lemma {:induction false} DottedMarked(t: seq<Rec>, r: nat, n: nat)
    requires Sound(t) && Dotted(t) && 2 <= r < |t| && Closed(Heads(t), r) && 0 < n
    requires Heads(t)[r].Item? && r + n == Heads(t)[r].end + 1
    ensures Dotted(LiveOf(Marked(t, r, n)))
  {
    var m := Marked(t, r, n);
    var u := LiveOf(m);
    MarkedSound(t, r, n);
    assert m[0] == t[0] && m[1] == t[1];
    assert Live(m[1]) && 2 <= |u|;
    forall q | 2 <= q < |u| ensures FullAt(u, q) {
      FullMarked(t, r, n, q);
    }
  }

  lemma {:induction false} FullMarked(t: seq<Rec>, r: nat, n: nat, q: nat)
    requires Sound(t) && Dotted(t) && 2 <= r < |t| && Closed(Heads(t), r) && 0 < n
    requires Heads(t)[r].Item? && r + n == Heads(t)[r].end + 1
    requires 2 <= q < |LiveOf(Marked(t, r, n))|
    ensures FullAt(LiveOf(Marked(t, r, n)), q)
  {
    var m := Marked(t, r, n);
    MarkedSound(t, r, n);
    SoundTidy(t);
    assert TidyAt(Heads(t), r);
    LiveHead(m, q - 1);
    MarkedHeads(t, r, n, q - 1);
    assert FullAt(t, q);
    assert LiveOf(m)[q] == m[q];
  }

  lemma {:induction false} LiveHead(m: seq<Rec>, q: nat)
    requires Sound(m) && q < |LiveOf(m)|
    ensures Heads(LiveOf(m))[q] == Heads(m)[q]
  {
    var u := LiveOf(m);
    LiveSound(m);
    HeadIs(u, q);
    if Live(u[q]) {
      Inside(u, q);
    }
    HeadLocal(u, m, q);
  }

  lemma {:induction false} DottedAfter(t: seq<Rec>, op: DirOp)
    requires Sound(t) && Dotted(t) && OpOk(op)
    ensures Dotted(After(t, op))
  {
    var r := Hit(t, op.Name());
    match op
    case Make(e) =>
      DottedMade(t, e);
    case Update(name, c, z) =>
      if r < |t| {
        DottedHit(t, name);
        DottedPut(t, r + Counted(t, r), c, z);
      }
    case Remove(name) =>
      if r < |t| {
        DottedRemoved(t, name);
      }
  }

  /** So no series of operations on it goes wrong. */
  lemma {:induction false} DottedAllRight(t: seq<Rec>, ops: seq<DirOp>)
    requires Scannable(t) && Dotted(t) && forall i :: 0 <= i < |ops| ==> OpOk(ops[i])
    ensures AllRight(t, ops)
    decreases |ops|
  {
    if ops != [] {
      DottedRight(t, ops[0]);
      DottedAfter(t, ops[0]);
      AfterSound(t, ops[0]);
      DottedAllRight(After(t, ops[0]), ops[1..]);
    }
  }

  /** The two dot records of a directory with these first clusters. */
  ghost function Dots(own: u32, parent: u32): seq<Rec> {
    [DotRec(false, own), DotRec(true, parent)]
  }

  lemma {:induction false} DotsList(own: u32, parent: u32)
    ensures Scannable(Dots(own, parent)) && Dotted(Dots(own, parent))
    ensures List(Dots(own, parent)) ==
            [Entry(DotName(false), ATTR_DIRECTORY, own, 0), Entry(DotName(true), ATTR_DIRECTORY, parent, 0)]
  {
    var t, h := Dots(own, parent), Heads(Dots(own, parent));
    DotShort(false, own);
    DotShort(true, parent);
    assert SoundAt(t, 0) && SoundAt(t, 1);
    ShortHead(t, 0);
    ShortHead(t, 1);
    assert Between(h, 2, 2) == [] && Between(h, 1, 2) == [h[1].e] + Between(h, 2, 2);
    assert Between(h, 0, 2) == [h[0].e] + Between(h, 1, 2);
  }
}
