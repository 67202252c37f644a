/** The buffer cache as steps between which threads may be switched: transparent over the plain disk,
    and least recently released first when it recycles. */
module BufferCache {
  import opened Bytes
  import opened BufferRing

  const BSIZE := 512

  datatype Sector = Sector(dev: nat, no: nat)

  /** What binit puts in every buffer, ~0 in 32 bits for both. */
  const NO_SECTOR := Sector(0xFFFF_FFFF, 0xFFFF_FFFF)

  type Disk = map<Sector, seq<byte>>

  function DiskAt(disk: Disk, s: Sector): (d: seq<byte>) {
    if s in disk then disk[s] else Zeros(BSIZE)
  }

  ghost predicate DiskOk(disk: Disk) {
    forall s :: s in disk ==> |disk[s]| == BSIZE
  }

  datatype Edit = Clean | Edited(data: seq<byte>)

  /** The threads that use a buffer: those that have reserved it and wait for its semaphore, the one
      that holds it, and those that have signalled it and not yet dropped their reference; and what
      the holder has written into it and not to disk. */
  datatype Users = Users(waiting: nat, held: bool, leaving: nat, edit: Edit)

  function SectorOf(b: Buf): Sector {
    Sector(b.dev, b.sectorno)
  }

  ghost predicate BufOk(b: Buf, u: Users, disk: Disk) {
    && b.refcnt == u.waiting + u.leaving + (if u.held then 1 else 0)
    && (u.edit.Edited? ==> u.held && b.valid)
    && (b.valid ==> SectorOf(b) != NO_SECTOR && |b.data| == BSIZE)
    && (b.valid ==> b.data == if u.edit.Edited? then u.edit.data else DiskAt(disk, SectorOf(b)))
  }

  ghost predicate OpenCache(k: Key) {
    true
  }

  /** Every buffer is true to the disk and counted right, and no sector has two. */
  ghost predicate CacheOk(bufs: seq<Buf>, users: seq<Users>, disk: Disk) {
    && |bufs| == NBUF + 1 && |users| == NBUF && DiskOk(disk)
    && forall k: Key {:trigger OpenCache(k)} :: OpenCache(k) ==>
         && (forall b :: 0 <= b < NBUF ==> BufOk(bufs[b], users[b], disk))
         && (forall a, b :: 0 <= a < b < NBUF && SectorOf(bufs[a]) == SectorOf(bufs[b]) ==>
               SectorOf(bufs[a]) == NO_SECTOR)
  }

  ghost predicate OpenOrder(k: Key) {
    true
  }

  /** All buffers are in the list, the most recently released first. */
  ghost predicate OrderOk(order: seq<nat>, stamp: seq<nat>, clock: nat) {
    && |order| == NBUF && |stamp| == NBUF
    && forall k: Key {:trigger OpenOrder(k)} :: OpenOrder(k) ==>
         && Distinct(order) && (forall b :: 0 <= b < NBUF ==> b in order && stamp[b] < clock)
         && (forall i, j :: 0 <= i < j < NBUF ==> Later(stamp, order[i], order[j]))
  }

  ghost predicate Later(stamp: seq<nat>, a: nat, b: nat) {
    a < |stamp| && b < |stamp| && stamp[a] > stamp[b]
  }

  // ----- facts about the invariant -----

  lemma {:induction false} BufAt(bufs: seq<Buf>, users: seq<Users>, disk: Disk, b: nat)
    requires CacheOk(bufs, users, disk) && b < NBUF
    ensures BufOk(bufs[b], users[b], disk)
  {
    assert OpenCache(Key);
  }

  /** A change to one buffer that keeps its sector. */
  lemma {:induction false} OneChanged(bufs: seq<Buf>, users: seq<Users>, disk: Disk, b: nat, x: Buf, u: Users)
    requires CacheOk(bufs, users, disk) && b < NBUF && BufOk(x, u, disk) && SectorOf(x) == SectorOf(bufs[b])
    ensures CacheOk(bufs[b := x], users[b := u], disk)
  {
    assert OpenCache(Key);
    var bufs' := bufs[b := x];
    forall c, d | 0 <= c < d < NBUF && SectorOf(bufs'[c]) == SectorOf(bufs'[d])
      ensures SectorOf(bufs'[c]) == NO_SECTOR
    {
      assert SectorOf(bufs[c]) == SectorOf(bufs[d]);
    }
  }

  /** A buffer given to a sector that no buffer has. */
  lemma {:induction false} Recycled(bufs: seq<Buf>, users: seq<Users>, disk: Disk, b: nat, x: Buf, u: Users)
    requires CacheOk(bufs, users, disk) && b < NBUF && BufOk(x, u, disk)
    requires forall a :: 0 <= a < NBUF ==> SectorOf(bufs[a]) != SectorOf(x)
    ensures CacheOk(bufs[b := x], users[b := u], disk)
  {
    assert OpenCache(Key);
  }

  /** A sector written from the one buffer that has it. */
  lemma {:induction false} WrittenThrough(bufs: seq<Buf>, users: seq<Users>, disk: Disk, b: nat)
    requires CacheOk(bufs, users, disk) && b < NBUF && bufs[b].valid
    ensures CacheOk(bufs, users[b := users[b].(edit := Clean)], disk[SectorOf(bufs[b]) := bufs[b].data])
  {
    assert OpenCache(Key);
    var disk', users' := disk[SectorOf(bufs[b]) := bufs[b].data], users[b := users[b].(edit := Clean)];
    assert BufOk(bufs[b], users[b], disk);
    forall a | 0 <= a < NBUF ensures BufOk(bufs[a], users'[a], disk') {
      assert BufOk(bufs[a], users[a], disk);
      assert a != b && bufs[a].valid ==> SectorOf(bufs[a]) != SectorOf(bufs[b]);
    }
  }

  /** Links do not matter to the contents. */
  lemma {:induction false} LinksApart(bufs: seq<Buf>, users: seq<Users>, disk: Disk, bufs': seq<Buf>)
    requires CacheOk(bufs, users, disk) && SameButLinks(bufs, bufs')
    ensures CacheOk(bufs', users, disk)
  {
    assert OpenCache(Key);
    forall a | 0 <= a < NBUF ensures BufOk(bufs'[a], users[a], disk) && SectorOf(bufs'[a]) == SectorOf(bufs[a]) {
      assert BufOk(bufs[a], users[a], disk);
    }
  }

  /** The list without its p-th buffer. */
  ghost function Without(order: seq<nat>, p: nat): seq<nat>
    requires p < |order|
  {
    order[..p] + order[p + 1..]
  }

  /** Its i-th element is this one of the whole list. */
  function Skip(i: nat, p: nat): nat {
    if i < p then i else i + 1
  }

  /** A buffer released now goes to the front. */
  lemma {:induction false} MovedFirst(order: seq<nat>, stamp: seq<nat>, clock: nat, p: nat)
    requires OrderOk(order, stamp, clock) && p < NBUF
    ensures order[p] < NBUF && OrderOk([order[p]] + Without(order, p), stamp[order[p] := clock], clock + 1)
  {
    assert OpenOrder(Key);
    var b := order[p];
    var order', stamp' := [b] + Without(order, p), stamp[b := clock];
    forall i, j | 0 <= i < j < NBUF ensures order'[i] != order'[j] && Later(stamp', order'[i], order'[j]) {
      MovedPair(order, stamp, clock, p, i, j);
    }
    forall c | 0 <= c < NBUF ensures c in order' && stamp'[c] < clock + 1 {
      MovedListed(order, stamp, clock, p, c);
    }
    forall i | 0 <= i < |order'| ensures order'[i] < NBUF {
      assert i > 0 ==> order'[i] == order[Skip(i - 1, p)];
    }
  }

  lemma {:induction false} MovedListed(order: seq<nat>, stamp: seq<nat>, clock: nat, p: nat, c: nat)
    requires OrderOk(order, stamp, clock) && p < NBUF && c < NBUF
    ensures c in [order[p]] + Without(order, p) && stamp[c] < clock
  {
    assert OpenOrder(Key);
    var i := PositionOf(order, stamp, clock, c);
    StillListed(order, p, i);
  }

  lemma {:induction false} MovedPair(order: seq<nat>, stamp: seq<nat>, clock: nat, p: nat, i: nat, j: nat)
    requires OrderOk(order, stamp, clock) && p < NBUF && i < j < NBUF
    ensures order[p] < NBUF
    ensures var order', stamp' := [order[p]] + Without(order, p), stamp[order[p] := clock];
            order'[i] != order'[j] && Later(stamp', order'[i], order'[j])
  {
    assert OpenOrder(Key);
    var order' := [order[p]] + Without(order, p);
    var y := Skip(j - 1, p);
    assert order'[j] == order[y] && y != p;
    if i > 0 {
      var x := Skip(i - 1, p);
      assert order'[i] == order[x] && x != p && x < y;
      assert Later(stamp, order[x], order[y]);
    }
  }

  lemma {:induction false} StillListed(order: seq<nat>, p: nat, i: nat)
    requires p < |order| && i < |order|
    ensures order[i] in [order[p]] + Without(order, p)
  {
    var order' := [order[p]] + Without(order, p);
    if i < p {
      assert order'[i + 1] == order[i];
    } else if i > p {
      assert order'[i] == order[i];
    }
  }

  lemma {:induction false} PositionOf(order: seq<nat>, stamp: seq<nat>, clock: nat, b: nat) returns (p: nat)
    requires OrderOk(order, stamp, clock) && b < NBUF
    ensures p < NBUF && order[p] == b
  {
    assert OpenOrder(Key);
    assert stamp[b] < clock && b in order;
    p :| 0 <= p < NBUF && order[p] == b;
  }

  lemma {:induction false} SortedAt(order: seq<nat>, stamp: seq<nat>, clock: nat, i: nat, j: nat)
    requires OrderOk(order, stamp, clock) && i < j < NBUF
    ensures Later(stamp, order[i], order[j])
  {
    assert OpenOrder(Key);
  }

  // ----- the cache over the plain disk -----

  /** The cache as its users see it: the disk, which sector each buffer stands for and whether it has
      been read, who uses it, and when it was last released by its last user. */
  datatype Plain = Plain(disk: Disk, sector: seq<Sector>, filled: seq<bool>,
                         users: seq<Users>, stamp: seq<nat>, clock: nat) {
    ghost predicate Sized() {
      |sector| == NBUF && |filled| == NBUF && |users| == NBUF && |stamp| == NBUF
    }
  }

  ghost function Plainly(bufs: seq<Buf>, users: seq<Users>, disk: Disk, stamp: seq<nat>, clock: nat): (p: Plain)
    requires |bufs| == NBUF + 1
    ensures |p.sector| == NBUF && |p.filled| == NBUF && p.users == users && p.disk == disk
    ensures p.stamp == stamp && p.clock == clock
    ensures forall b :: 0 <= b < NBUF ==> p.sector[b] == SectorOf(bufs[b])
    ensures forall b :: 0 <= b < NBUF ==> p.filled[b] == bufs[b].valid
  {
    Plain(disk, seq(NBUF, b requires 0 <= b < NBUF => SectorOf(bufs[b])),
          seq(NBUF, b requires 0 <= b < NBUF => bufs[b].valid),
          users, stamp, clock)
  }

  /** References to a buffer. */
  function Refs(u: Users): nat {
    u.waiting + u.leaving + if u.held then 1 else 0
  }

  /** What the holder of buffer b sees: its own edit, or the sector as it is on disk. */
  ghost function Sees(p: Plain, b: nat): seq<byte>
    requires p.Sized() && b < NBUF
  {
    if p.users[b].edit.Edited? then p.users[b].edit.data else DiskAt(p.disk, p.sector[b])
  }

  /** The users of buffer b replaced. */
  ghost function WithUsers(p: Plain, b: nat, u: Users): (r: Plain)
    requires p.Sized() && b < NBUF
    ensures r.Sized()
  {
    p.(users := p.users[b := u])
  }

  /** One reference dropped; the last one is a release, which the clock counts. */
  ghost function Dropped(p: Plain, b: nat): (r: Plain)
    requires p.Sized() && b < NBUF && p.users[b].leaving > 0
    ensures r.Sized()
  {
    var u := p.users[b].(leaving := p.users[b].leaving - 1);
    var q := WithUsers(p, b, u);
    if Refs(u) == 0 then q.(stamp := p.stamp[b := p.clock], clock := p.clock + 1) else q
  }

  /** The loop of binit. */
  method InitRing() returns (all: seq<Buf>, ghost list: seq<nat>)
    ensures Ring(all, list) && |list| == NBUF && forall i :: 0 <= i < NBUF ==> list[i] == NBUF - 1 - i
    ensures forall i :: 0 <= i < NBUF ==> all[i].refcnt == 0 && !all[i].valid && SectorOf(all[i]) == NO_SECTOR
  {
    all, list := seq(NBUF + 1, _ => Buf(false, 0xFFFF_FFFF, 0xFFFF_FFFF, 0, HEAD, HEAD, [])), [];
    var b: nat := 0;
    while b < NBUF
      invariant b <= NBUF && Ring(all, list) && |list| == b && forall i :: 0 <= i < b ==> list[i] == b - 1 - i
      invariant forall i :: 0 <= i < NBUF ==> all[i].refcnt == 0 && !all[i].valid && SectorOf(all[i]) == NO_SECTOR
    {
      LinkedFirst(all, list, b);
      all := LinkFirst(all, b);
      list := [b] + list;
      b := b + 1;
    }
  }

  lemma {:induction false} StartOrder(list: seq<nat>, stamp: seq<nat>)
    requires |list| == NBUF && forall i :: 0 <= i < NBUF ==> list[i] == NBUF - 1 - i
    requires |stamp| == NBUF && forall i :: 0 <= i < NBUF ==> stamp[i] == i
    ensures OrderOk(list, stamp, NBUF)
  {
    forall c | 0 <= c < NBUF ensures c in list {
      assert list[NBUF - 1 - c] == c;
    }
  }

  class Cache {
    var bufs: seq<Buf>
    var disk: Disk
    var users: seq<Users>
    ghost var order: seq<nat>
    /** When each buffer was last released by its last user, on a clock of such releases. */
    ghost var stamp: seq<nat>
    ghost var clock: nat

    ghost predicate Valid()
      reads this
    {
      Ring(bufs, order) && OrderOk(order, stamp, clock) && CacheOk(bufs, users, disk)
    }

    ghost function Abs(): (p: Plain)
      requires Valid()
      reads this
      ensures p.Sized()
    {
      Plainly(bufs, users, disk, stamp, clock)
    }

    /** The first loop of bget: the buffer of a sector, HEAD if there is none. */
    method FindCached(s: Sector) returns (b: nat)
      requires Valid()
      ensures b < NBUF ==> SectorOf(bufs[b]) == s
      ensures b >= NBUF ==> b == HEAD && forall a :: 0 <= a < NBUF ==> SectorOf(bufs[a]) != s
    {
      RingAt(bufs, order, 0);
      b := bufs[HEAD].next;
      ghost var i := 1;
      while b != HEAD
        invariant 1 <= i <= NBUF + 1 && b == Node(order, i) && b < |bufs|
        invariant forall j :: 0 <= j < i - 1 ==> order[j] < NBUF && SectorOf(bufs[order[j]]) != s
        decreases NBUF + 1 - i
      {
        RingAt(bufs, order, i);
        if bufs[b].dev == s.dev && bufs[b].sectorno == s.no {
          return;
        }
        b := bufs[b].next;
        i := i + 1;
      }
      forall a | 0 <= a < NBUF ensures SectorOf(bufs[a]) != s {
        RingAt(bufs, order, 0);
        var p := PositionOf(order, stamp, clock, a);
        assert SectorOf(bufs[order[p]]) != s;
      }
    }

    /** The second loop of bget, backwards: the buffer without users that was released longest ago, HEAD
        if all have users. */
    method FindVictim() returns (b: nat)
      requires Valid()
      ensures b < NBUF ==> bufs[b].refcnt == 0
      ensures b < NBUF ==> forall a :: 0 <= a < NBUF && bufs[a].refcnt == 0 ==> stamp[b] <= stamp[a]
      ensures b >= NBUF ==> b == HEAD && forall a :: 0 <= a < NBUF ==> bufs[a].refcnt > 0
    {
      RingAt(bufs, order, NBUF);
      b := bufs[HEAD].prev;
      ghost var i := NBUF;
      while b != HEAD
        invariant 0 <= i <= NBUF && b == Node(order, i) && b < |bufs|
        invariant forall j :: i <= j < NBUF ==> order[j] < NBUF && bufs[order[j]].refcnt > 0
        decreases i
      {
        RingAt(bufs, order, i - 1);
        if bufs[b].refcnt == 0 {
          forall a | 0 <= a < NBUF && bufs[a].refcnt == 0 ensures stamp[b] <= stamp[a] {
            var p := PositionOf(order, stamp, clock, a);
            if p + 1 < i {
              SortedAt(order, stamp, clock, p, i - 1);
            }
          }
          return;
        }
        b := bufs[b].prev;
        i := i - 1;
      }
      forall a | 0 <= a < NBUF ensures bufs[a].refcnt > 0 {
        RingAt(bufs, order, 0);
        var p := PositionOf(order, stamp, clock, a);
        assert bufs[order[p]].refcnt > 0;
      }
    }

    /** binit: all buffers free, none with a sector, linked in turn behind the head. */
    constructor (d: Disk)
      requires DiskOk(d)
      ensures Valid() && disk == d && fresh(this)
      ensures forall b :: 0 <= b < NBUF ==> users[b] == Users(0, false, 0, Clean) && SectorOf(bufs[b]) == NO_SECTOR
    {
      disk := d;
      users := seq(NBUF, _ => Users(0, false, 0, Clean));
      var all, list := InitRing();
      bufs, order, stamp, clock := all, list, seq(NBUF, i => i), NBUF;
      new;
      StartOrder(list, stamp);
    }

    /** bget up to its release of the lock: the buffer of a sector, now with one user more; or a victim
        taken for it, only if no buffer has the sector; or HEAD, the panic, if all have users. */
    method Reserve(s: Sector) returns (b: nat)
      requires Valid() && s != NO_SECTOR
      modifies this`bufs, this`users
      ensures Valid() && (b == HEAD || b < NBUF)
      ensures b == HEAD <==> NotCached(old(bufs), s) && forall a :: 0 <= a < NBUF ==> old(bufs)[a].refcnt > 0
      ensures b == HEAD ==> bufs == old(bufs) && users == old(users)
      ensures b < NBUF ==> SectorOf(bufs[b]) == s && bufs[b].refcnt == old(bufs)[b].refcnt + 1
      ensures b < NBUF ==> users == old(users)[b := old(users)[b].(waiting := old(users)[b].waiting + 1)]
      ensures forall a :: 0 <= a < NBUF && a != b ==> bufs[a] == old(bufs)[a]
      ensures b < NBUF && SectorOf(old(bufs)[b]) == s ==> bufs[b].valid == old(bufs)[b].valid
      ensures b < NBUF && SectorOf(old(bufs)[b]) == s ==> bufs[b].data == old(bufs)[b].data
      ensures b < NBUF && SectorOf(old(bufs)[b]) != s ==> NotCached(old(bufs), s) && LeastRecent(old(bufs), stamp, b)
      ensures b < NBUF && SectorOf(old(bufs)[b]) != s ==> !bufs[b].valid
    {
      b := FindCached(s);
      if b != HEAD {
        BufAt(bufs, users, disk, b);
        Put(b, bufs[b].(refcnt := bufs[b].refcnt + 1), users[b].(waiting := users[b].waiting + 1));
        return;
      }
      b := FindVictim();
      if b != HEAD {
        BufAt(bufs, users, disk, b);
        var x := bufs[b].(dev := s.dev, sectorno := s.no, valid := false, refcnt := 1);
        var u := users[b].(waiting := users[b].waiting + 1);
        Recycled(bufs, users, disk, b, x, u);
        RingKept(bufs, order, bufs[b := x]);
        bufs, users := bufs[b := x], users[b := u];
      }
    }

    /** A change of one buffer that keeps its sector and links. */
    method Put(b: nat, x: Buf, u: Users)
      requires Valid() && b < NBUF && BufOk(x, u, disk) && SectorOf(x) == SectorOf(bufs[b])
      requires x.prev == bufs[b].prev && x.next == bufs[b].next
      modifies this`bufs, this`users
      ensures Valid() && bufs == old(bufs)[b := x] && users == old(users)[b := u]
    {
      OneChanged(bufs, users, disk, b, x, u);
      RingKept(bufs, order, bufs[b := x]);
      bufs, users := bufs[b := x], users[b := u];
    }

    /** sem_wait returns in bget: the buffer is free of a holder, and one that waited now holds it. */
    method Lock(b: nat)
      requires Valid() && b < NBUF && users[b].waiting > 0 && !users[b].held
      modifies this`bufs, this`users
      ensures Valid() && bufs == old(bufs)
      ensures Abs() ==
              WithUsers(old(Abs()), b,
                        Users(old(users)[b].waiting - 1, true, old(users)[b].leaving, old(users)[b].edit))
    {
      BufAt(bufs, users, disk, b);
      Put(b, bufs[b], Users(users[b].waiting - 1, true, users[b].leaving, users[b].edit));
    }

    /** The rest of bread: the holder has what is on disk. */
    method Fill(b: nat)
      requires Valid() && b < NBUF && users[b].held && SectorOf(bufs[b]) != NO_SECTOR
      modifies this`bufs, this`users
      ensures Valid() && bufs[b].data == Sees(Abs(), b) && Abs() == old(Abs()).(filled := old(Abs()).filled[b := true])
    {
      BufAt(bufs, users, disk, b);
      if !bufs[b].valid {
        Put(b, bufs[b].(data := DiskAt(disk, SectorOf(bufs[b])), valid := true), users[b]);
      }
    }

    /** The holder writes into the buffer. */
    method Change(b: nat, d: seq<byte>)
      requires Valid() && b < NBUF && users[b].held && bufs[b].valid && |d| == BSIZE
      modifies this`bufs, this`users
      ensures Valid() && Abs() == WithUsers(old(Abs()), b, old(users)[b].(edit := Edited(d)))
    {
      BufAt(bufs, users, disk, b);
      Put(b, bufs[b].(data := d), users[b].(edit := Edited(d)));
    }

    /** bwrite by the holder. */
    method Bwrite(b: nat)
      requires Valid() && b < NBUF && users[b].held && bufs[b].valid
      modifies this`users, this`disk
      ensures Valid()
      ensures var p := WithUsers(old(Abs()), b, old(users)[b].(edit := Clean));
              Abs() == p.(disk := p.disk[p.sector[b] := Sees(old(Abs()), b)])
    {
      BufAt(bufs, users, disk, b);
      WrittenThrough(bufs, users, disk, b);
      disk := disk[SectorOf(bufs[b]) := bufs[b].data];
      users := users[b := users[b].(edit := Clean)];
    }

    /** brelse up to its acquire: the semaphore is signalled. What the holder changed must be on disk. */
    method Signal(b: nat)
      requires Valid() && b < NBUF && users[b].held && users[b].edit.Clean?
      modifies this`bufs, this`users
      ensures Valid() && bufs == old(bufs)
      ensures Abs() == WithUsers(old(Abs()), b, Users(old(users)[b].waiting, false, old(users)[b].leaving + 1, Clean))
    {
      BufAt(bufs, users, disk, b);
      Put(b, bufs[b], Users(users[b].waiting, false, users[b].leaving + 1, Clean));
    }

    /** The rest of brelse: the reference is dropped, and a buffer without users goes to the front. */
    method Drop(b: nat)
      requires Valid() && b < NBUF && users[b].leaving > 0
      modifies this
      ensures Valid() && Abs() == Dropped(old(Abs()), b)
      ensures old(bufs)[b].refcnt > 1 ==> order == old(order)
      ensures old(bufs)[b].refcnt == 1 ==> order[0] == b
    {
      BufAt(bufs, users, disk, b);
      Put(b, bufs[b].(refcnt := bufs[b].refcnt - 1), users[b].(leaving := users[b].leaving - 1));
      if bufs[b].refcnt == 0 {
        ToFront(b);
      }
    }

    /** The six stores that move a buffer to the front. */
    method ToFront(b: nat)
      requires Valid() && b < NBUF
      modifies this`bufs, this`order, this`stamp, this`clock
      ensures Valid() && SameButLinks(old(bufs), bufs) && order[0] == b
      ensures stamp == old(stamp)[b := old(clock)] && clock == old(clock) + 1
    {
      ghost var p := PositionOf(order, stamp, clock, b);
      Unlinked(bufs, order, p);
      MovedFirst(order, stamp, clock, p);
      LinksApart(bufs, users, disk, Unlink(bufs, b));
      NotListed(bufs, order, p);
      bufs := Unlink(bufs, b);
      LinkedFirst(bufs, Without(order, p), b);
      LinksApart(bufs, users, disk, LinkFirst(bufs, b));
      bufs := LinkFirst(bufs, b);
      order := [b] + Without(order, p);
      stamp := stamp[b := clock];
      clock := clock + 1;
    }
  }

  ghost predicate NotCached(bufs: seq<Buf>, s: Sector)
    requires |bufs| == NBUF + 1
  {
    forall a :: 0 <= a < NBUF ==> SectorOf(bufs[a]) != s
  }

  /** b has no users and was released longest ago of all buffers that have none. */
  ghost predicate LeastRecent(bufs: seq<Buf>, stamp: seq<nat>, b: nat)
    requires |bufs| == NBUF + 1 && |stamp| == NBUF
  {
    b < NBUF && bufs[b].refcnt == 0 && forall a :: 0 <= a < NBUF && bufs[a].refcnt == 0 ==> stamp[b] <= stamp[a]
  }

  lemma {:induction false} NotListed(bufs: seq<Buf>, order: seq<nat>, p: nat)
    requires Ring(bufs, order) && p < |order|
    ensures order[p] !in Without(order, p)
  {
    RingAt(bufs, order, 0);
  }
}
