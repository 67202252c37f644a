/** What enext, called again and again, finds in the records of a directory. A directory may come from
    any system: with long records or without, and with long records that have lost the first of theirs. */
module FatScan {
  import opened Bytes
  import opened FatFiles
  import opened FatRecords

  // ----- records -----

  /** Neither an empty slot nor a mark of the end. */
  predicate Live(r: Rec) {
    r[0] != END_OF_ENTRY && r[0] != EMPTY_ENTRY
  }

  predicate IsLong(r: Rec) {
    Live(r) && r[11] == ATTR_LONG_NAME
  }

  predicate IsShort(r: Rec) {
    Live(r) && r[11] != ATTR_LONG_NAME
  }

  /** order & ~LAST_LONG_ENTRY */
  function ClearLast(order: byte): byte {
    if order / 0x40 % 2 == 1 then order - 0x40 else order
  }

  /** order & LAST_LONG_ENTRY */
  predicate Last(r: Rec) {
    r[0] / 0x40 % 2 == 1
  }

  /** The number that enext, eupdate and eremove take from the first byte of a record. */
  function Ord(r: Rec): nat {
    ClearLast(r[0])
  }

  /** A long record is followed by the next lower one of its file, the lowest one by a short record. */
  ghost predicate SoundAt(t: seq<Rec>, q: nat)
    requires q < |t|
  {
    && t[q][0] != END_OF_ENTRY
    && (IsLong(t[q]) ==>
          && 1 <= Ord(t[q]) <= 19 && q + 1 < |t|
          && if Ord(t[q]) == 1 then IsShort(t[q + 1])
             else IsLong(t[q + 1]) && !Last(t[q + 1]) && Ord(t[q + 1]) == Ord(t[q]) - 1)
  }

  ghost predicate Sound(t: seq<Rec>) {
    forall q {:trigger SoundAt(t, q)} :: 0 <= q < |t| ==> SoundAt(t, q)
  }

  /** Records that a scan reads to their end. */
  ghost predicate Scannable(t: seq<Rec>) {
    Sound(t) && (t != [] ==> Live(t[|t| - 1]))
  }

  /** The records of a directory up to the last one that is in use. */
  ghost function LiveOf(d: seq<Rec>): (t: seq<Rec>)
    ensures |t| <= |d| && t == d[..|t|] && (t != [] ==> Live(t[|t| - 1]))
    ensures forall q :: |t| <= q < |d| ==> !Live(d[q])
  {
    if d == [] || Live(d[|d| - 1]) then d else LiveOf(d[..|d| - 1])
  }

  lemma {:induction false} LiveIs(d: seq<Rec>, n: nat)
    requires n <= |d| && (n > 0 ==> Live(d[n - 1])) && forall q :: n <= q < |d| ==> !Live(d[q])
    ensures LiveOf(d) == d[..n]
  {
    var t := LiveOf(d);
    assert |t| > 0 ==> t[|t| - 1] == d[|t| - 1];
  }

  /** A long record, and those behind it up to the short one. */
  lemma {:induction false} RunOf(t: seq<Rec>, q: nat)
    requires Sound(t) && q < |t| && IsLong(t[q])
    ensures 1 <= Ord(t[q]) <= 19 && q + Ord(t[q]) < |t| && IsShort(t[q + Ord(t[q])])
    ensures forall p :: q <= p < q + Ord(t[q]) ==> IsLong(t[p]) && Ord(t[p]) == Ord(t[q]) - (p - q)
    ensures forall p :: q < p < q + Ord(t[q]) ==> !Last(t[p])
    decreases |t| - q
  {
    assert SoundAt(t, q);
    if Ord(t[q]) > 1 {
      RunOf(t, q + 1);
    }
  }

  function RecOr(t: seq<Rec>, p: nat): Rec {
    if p < |t| then t[p] else Zeros(32)
  }

  // ----- the entry at a record -----

  /** The short record of the entry at q. */
  function ShortPos(t: seq<Rec>, q: nat): nat {
    if q < |t| && IsLong(t[q]) then q + Ord(t[q]) else q
  }

  /** The records that enext counts for the entry at q: all of them if the first has the last-part mark,
      and otherwise one. */
  function Width(t: seq<Rec>, q: nat): (w: nat)
    ensures 1 <= w
  {
    if q < |t| && IsLong(t[q]) && Last(t[q]) then Ord(t[q]) + 1 else 1
  }

  /** The low bytes of the characters of a long record. */
  function Lows(r: Rec): (s: seq<byte>)
    ensures |s| == 13 && forall x :: 0 <= x < 13 ==> s[x] == r[CharPos(x)]
  {
    seq(13, x requires 0 <= x < 13 => r[CharPos(x)])
  }

  /** Those of k long records from q on, of which the last has the first part. */
  function LongText(t: seq<Rec>, q: nat, k: nat): (s: seq<byte>)
    ensures |s| == 13 * k
    decreases k
  {
    if k == 0 then [] else LongText(t, q + 1, k - 1) + Lows(RecOr(t, q))
  }

  /** The name that enext finds at q: that of the long records if they are complete, and otherwise that of
      the short one. */
  function NameAt(t: seq<Rec>, q: nat): seq<byte> {
    if q < |t| && IsLong(t[q]) && Last(t[q]) then CStr(LongText(t, q, Ord(t[q])))
    else CStr(ShortText(RecOr(t, ShortPos(t, q))))
  }

  function EntryAt(t: seq<Rec>, q: nat): Entry {
    var r := RecOr(t, ShortPos(t, q));
    Entry(NameAt(t, q), r[11], ClusOf(r), GetU32(r, 28))
  }

  lemma {:induction false} TextAt(t: seq<Rec>, q: nat, k: nat, m: nat, x: nat)
    requires m < k && x < 13
    ensures LongText(t, q, k)[13 * (k - m - 1) + x] == RecOr(t, q + m)[CharPos(x)]
    decreases k
  {
    var front := LongText(t, q + 1, k - 1);
    var i := 13 * (k - m - 1) + x;
    assert LongText(t, q, k) == front + Lows(RecOr(t, q)) && |front| == 13 * k - 13;
    if m > 0 {
      TextAt(t, q + 1, k - 1, m - 1, x);
      assert i < |front| && front[i] == RecOr(t, q + m)[CharPos(x)];
    } else {
      assert i == |front| + x;
    }
  }

  /** Record q + m shows its part of the name of k long records from q on. */
  lemma {:induction false} ShowsText(t: seq<Rec>, q: nat, k: nat, m: nat)
    requires m < k && q + m < |t|
    ensures Shows(t[q + m], CStr(LongText(t, q, k)), 13 * (k - m - 1))
  {
    var name, at := CStr(LongText(t, q, k)), 13 * (k - m - 1);
    forall x | 0 <= x < 13 && at + x <= |name| ensures t[q + m][CharPos(x)] == CharLo(name, at + x) {
      TextAt(t, q, k, m, x);
    }
  }

  lemma {:induction false} TextLocal(t: seq<Rec>, t': seq<Rec>, q: nat, k: nat)
    requires forall p :: q <= p < q + k ==> RecOr(t', p) == RecOr(t, p)
    ensures LongText(t', q, k) == LongText(t, q, k)
    decreases k
  {
    if k > 0 {
      TextLocal(t, t', q + 1, k - 1);
    }
  }

  /** An entry depends on its own records only. */
  lemma {:induction false} EntryLocal(t: seq<Rec>, t': seq<Rec>, q: nat)
    requires q < |t| && ShortPos(t, q) < |t| && ShortPos(t, q) < |t'|
    requires forall p :: q <= p <= ShortPos(t, q) ==> t'[p] == t[p]
    ensures ShortPos(t', q) == ShortPos(t, q) && Width(t', q) == Width(t, q) && EntryAt(t', q) == EntryAt(t, q)
  {
    assert t'[q] == t[q];
    if IsLong(t[q]) && Last(t[q]) {
      forall p | q <= p < q + Ord(t[q]) ensures RecOr(t', p) == RecOr(t, p) {
      }
      TextLocal(t, t', q, Ord(t[q]));
    }
  }

  /** An entry ends within the records. */
  lemma {:induction false} Inside(t: seq<Rec>, q: nat)
    requires Sound(t) && q < |t| && Live(t[q])
    ensures q + Width(t, q) - 1 <= ShortPos(t, q) < |t| && IsShort(t[ShortPos(t, q)])
    ensures forall p :: q <= p < ShortPos(t, q) ==> IsLong(t[p])
    ensures q + Width(t, q) - 1 == if IsLong(t[q]) && !Last(t[q]) then q else ShortPos(t, q)
  {
    if IsLong(t[q]) {
      RunOf(t, q);
    }
  }

  // ----- scanning -----

  /** What enext finds when it starts at a record: an empty slot, or an entry, how many records it counts
      behind the first one, and where the entry ends. */
  datatype Head = Gap | Item(e: Entry, more: nat, end: nat)

  function HeadAt(t: seq<Rec>, q: nat): Head {
    if q < |t| && Live(t[q]) then Item(EntryAt(t, q), Width(t, q) - 1, ShortPos(t, q)) else Gap
  }

  ghost predicate OpenHeads(k: Key) {
    true
  }

  ghost predicate HeadsAre(t: seq<Rec>, h: seq<Head>) {
    |h| == |t| && forall k: Key {:trigger OpenHeads(k)} :: OpenHeads(k) ==>
      forall q :: 0 <= q < |t| ==> h[q] == HeadAt(t, q)
  }

  ghost function Heads(t: seq<Rec>): (h: seq<Head>)
    ensures HeadsAre(t, h)
  {
    assert HeadsAre(t, seq(|t|, q requires 0 <= q < |t| => HeadAt(t, q)));
    var h :| HeadsAre(t, h);
    h
  }

  lemma {:induction false} HeadIs(t: seq<Rec>, q: nat)
    requires q < |t|
    ensures Heads(t)[q] == HeadAt(t, q)
  {
    assert OpenHeads(Key);
  }

  /** What enext finds from record q on. */
  ghost function HeadOf(t: seq<Rec>, q: nat): Head {
    if q < |t| then Heads(t)[q] else Gap
  }

  lemma {:induction false} HeadOfIs(t: seq<Rec>, q: nat)
    ensures HeadOf(t, q) == HeadAt(t, q)
  {
    if q < |t| {
      HeadIs(t, q);
    }
  }

  /** An entry ends within the records; one that has lost its first records is found at each of the others. */
  ghost predicate TidyAt(h: seq<Head>, q: nat)
    requires q < |h|
  {
    h[q].Item? ==>
      && q + h[q].more <= h[q].end < |h|
      && (forall p :: q <= p <= h[q].end ==> h[p].Item? && h[p].end == h[q].end)
      && (q + h[q].more < h[q].end ==> h[q].more == 0 && h[q + 1] == h[q])
  }

  ghost predicate Tidy(h: seq<Head>) {
    forall q {:trigger TidyAt(h, q)} :: 0 <= q < |h| ==> TidyAt(h, q)
  }

  lemma {:induction false} RunHeads(t: seq<Rec>, q: nat)
    requires Sound(t) && q < |t| && Live(t[q])
    ensures ShortPos(t, q) < |t|
    ensures forall p :: q <= p <= ShortPos(t, q) ==> Heads(t)[p].Item? && Heads(t)[p].end == ShortPos(t, q)
  {
    Inside(t, q);
    forall p | q <= p <= ShortPos(t, q) ensures Heads(t)[p].Item? && Heads(t)[p].end == ShortPos(t, q) {
      HeadIs(t, p);
      if IsLong(t[q]) {
        RunOf(t, q);
      }
    }
  }

  lemma {:induction false} SoundTidy(t: seq<Rec>)
    requires Sound(t)
    ensures Tidy(Heads(t))
  {
    var h := Heads(t);
    forall q | 0 <= q < |h| ensures TidyAt(h, q) {
      HeadIs(t, q);
      if Live(t[q]) {
        Inside(t, q);
        RunHeads(t, q);
        if IsLong(t[q]) && !Last(t[q]) {
          assert SoundAt(t, q);
          HeadIs(t, q + 1);
        }
      }
    }
  }

  /** The entries that a scan from record q on finds before record b. */
  ghost function Between(h: seq<Head>, q: nat, b: nat): seq<Entry>
    decreases b - q
  {
    if q >= b || q >= |h| then []
    else if h[q].Gap? then Between(h, q + 1, b)
    else [h[q].e] + Between(h, q + 1 + h[q].more, b)
  }

  /** Where a scan from q on stands when it first is at b or behind it. */
  ghost function Next(h: seq<Head>, q: nat, b: nat): (n: nat)
    ensures q <= n
    decreases b - q
  {
    if q >= b || q >= |h| then q
    else if h[q].Gap? then Next(h, q + 1, b)
    else Next(h, q + 1 + h[q].more, b)
  }

  /** The listing of a directory. */
  ghost function List(t: seq<Rec>): seq<Entry> {
    Between(Heads(t), 0, |t|)
  }

  /** A scan for a name stops here; a run of empty slots before the last entry has the empty name. */
  ghost predicate Named(x: Head, name: seq<byte>) {
    if x.Gap? then name == [] else x.e.name == name
  }

  /** Where a scan from q on meets a name, or |h|. */
  ghost function Find(h: seq<Head>, q: nat, name: seq<byte>): (r: nat)
    ensures r <= |h| && (q <= |h| ==> q <= r) && (r < |h| ==> Named(h[r], name))
    decreases |h| - q
  {
    if q >= |h| then |h|
    else if Named(h[q], name) then q
    else if h[q].Gap? then Find(h, q + 1, name)
    else Find(h, q + 1 + h[q].more, name)
  }

  /** A scan is one up to a and one from there. */
  lemma {:induction false} Split(h: seq<Head>, q: nat, a: nat, b: nat)
    requires a <= b
    ensures Between(h, q, b) == Between(h, q, a) + Between(h, Next(h, q, a), b)
    ensures Next(h, Next(h, q, a), b) == Next(h, q, b)
    decreases a - q
  {
    if q < a && q < |h| {
      if h[q].Gap? {
        Split(h, q + 1, a, b);
      } else {
        var n := q + 1 + h[q].more;
        Split(h, n, a, b);
        assert Next(h, q, a) == Next(h, n, a) && Next(h, q, b) == Next(h, n, b);
        Assoc(h[q].e, Between(h, n, a), Between(h, Next(h, n, a), b));
      }
    }
  }

  lemma {:induction false} Assoc(x: Entry, a: seq<Entry>, b: seq<Entry>)
    ensures [x] + (a + b) == ([x] + a) + b
  {
  }

  /** A scan that stops at the last record, or goes on behind it. */
  lemma {:induction false} Whole(h: seq<Head>, q: nat, b: nat)
    requires |h| <= b
    ensures Between(h, q, b) == Between(h, q, |h|)
    decreases |h| - q
  {
    if q < |h| {
      Whole(h, if h[q].Gap? then q + 1 else q + 1 + h[q].more, b);
    }
  }

  /** Only the records from q on matter. */
  lemma {:induction false} Suffix(h: seq<Head>, h': seq<Head>, q: nat, b: nat)
    requires |h'| == |h| && forall p :: q <= p < |h| ==> h'[p] == h[p]
    ensures Between(h', q, b) == Between(h, q, b) && Next(h', q, b) == Next(h, q, b)
    decreases b - q
  {
    if q < b && q < |h| {
      assert h'[q] == h[q];
      Suffix(h, h', if h[q].Gap? then q + 1 else q + 1 + h[q].more, b);
    }
  }

  // ----- where entries end -----

  /** No entry goes on from before record r to behind it. */
  ghost predicate Closed(h: seq<Head>, r: nat) {
    0 < r <= |h| && h[r - 1].Item? ==> h[r - 1].end == r - 1
  }

  lemma {:induction false} EndsBefore(h: seq<Head>, q: nat, r: nat)
    requires Tidy(h) && Closed(h, r) && q < r <= |h| && h[q].Item?
    ensures q + h[q].more <= h[q].end < r
  {
    assert TidyAt(h, q);
    assert TidyAt(h, r - 1);
  }

  /** A scan stands at every record where no entry goes on. */
  lemma {:induction false} Reaches(h: seq<Head>, q: nat, r: nat)
    requires Tidy(h) && q <= r <= |h| && (q < r ==> Closed(h, r))
    ensures Next(h, q, r) == r
    decreases r - q
  {
    if q < r {
      if h[q].Gap? {
        Reaches(h, q + 1, r);
      } else {
        EndsBefore(h, q, r);
        Reaches(h, q + 1 + h[q].more, r);
      }
    }
  }

  /** Where a scan first is at b or behind it, no entry goes on. */
  lemma {:induction false} NextClosed(h: seq<Head>, q: nat, b: nat)
    requires Tidy(h) && q <= |h| && b <= |h|
    ensures var n := Next(h, q, b); n <= |h| && (q <= b ==> b <= n) && (n > b && n > q ==> Closed(h, n))
    decreases b - q
  {
    if q < b {
      if h[q].Gap? {
        NextClosed(h, q + 1, b);
      } else {
        assert TidyAt(h, q);
        NextClosed(h, q + 1 + h[q].more, b);
      }
    }
  }

  // ----- finding a name -----

  /** All records of a file that has lost the first of them list the same name. */
  lemma {:induction false} PastTail(h: seq<Head>, q: nat, name: seq<byte>)
    requires Tidy(h) && q < |h| && h[q].Item? && !Named(h[q], name)
    ensures h[q].end < Find(h, q, name)
    decreases |h| - q
  {
    assert TidyAt(h, q);
    if q + h[q].more < h[q].end {
      PastTail(h, q + 1, name);
    }
  }

  ghost predicate NoneNamed(list: seq<Entry>, name: seq<byte>) {
    forall i :: 0 <= i < |list| ==> list[i].name != name
  }

  /** A scan finds a name behind entries of other names, at the start of an entry. */
  lemma {:induction false} Found(h: seq<Head>, q: nat, name: seq<byte>, h': seq<Head>, r: nat)
    requires Tidy(h) && q <= |h| && r == Find(h, q, name)
    requires r <= |h'| && forall p :: q <= p < r ==> h'[p] == h[p]
    ensures q <= r && Next(h', q, r) == r && Between(h', q, r) == Between(h, q, r)
    ensures NoneNamed(Between(h, q, r), name)
    ensures q < r ==> Closed(h, r)
    decreases |h| - q
  {
    if q < r {
      assert h'[q] == h[q];
      if h[q].Gap? {
        Found(h, q + 1, name, h', r);
      } else {
        PastTail(h, q, name);
        assert TidyAt(h, q);
        var n := q + 1 + h[q].more;
        Found(h, n, name, h', r);
      }
    }
  }
}
