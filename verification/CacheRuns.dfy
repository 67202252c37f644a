/** Any interleaving of the steps of bread, bwrite and brelse, against the plain disk. */
module CacheRuns {
  import opened Bytes
  import opened BufferRing
  import opened BufferCache

  datatype Step = Reserve(s: Sector) | Lock(b: nat) | Fill(b: nat) | Change(b: nat, d: seq<byte>)
                | Write(b: nat) | Look(b: nat) | Signal(b: nat) | Drop(b: nat)

  /** A step as it went: not taken where it would block or the code would panic; the buffer that a
      reservation got; what a look at a held buffer saw. */
  datatype Event = Event(step: Step, taken: bool, got: nat, seen: seq<byte>)

  /** The step can be taken: a thread is where the code has it, and does not block or panic. */
  ghost predicate Enabled(p: Plain, step: Step)
    requires p.Sized()
  {
    if step.Reserve? then exists b :: 0 <= b < NBUF && (p.sector[b] == step.s || Refs(p.users[b]) == 0)
    else step.b < NBUF && var u := p.users[step.b];
      match step
      case Reserve(_) => false
      case Lock(_) => u.waiting > 0 && !u.held
      case Fill(b) => u.held && p.sector[b] != NO_SECTOR
      case Change(b, d) => u.held && p.filled[b] && |d| == BSIZE
      case Write(b) => u.held && p.filled[b]
      case Look(b) => u.held && p.filled[b]
      case Signal(_) => u.held && u.edit.Clean?
      case Drop(_) => u.leaving > 0
  }

  /** The buffer that bget must choose: the sector's own, or else, of those without users, the one
      released longest ago. */
  ghost predicate Chosen(p: Plain, s: Sector, b: nat)
    requires p.Sized()
  {
    && b < NBUF
    && (p.sector[b] != s ==>
          && Refs(p.users[b]) == 0
          && forall a :: 0 <= a < NBUF ==> p.sector[a] != s && (Refs(p.users[a]) == 0 ==> p.stamp[b] <= p.stamp[a]))
  }

  /** What an event does to the plain disk and to the users of the buffers. */
  ghost function After(p: Plain, e: Event): (r: Plain)
    requires p.Sized()
    ensures r.Sized()
  {
    if !e.taken || !Enabled(p, e.step) then p
    else if e.step.Reserve? then Reserved(p, e.step.s, e.got)
    else
      var b := e.step.b;
      var u := p.users[b];
      match e.step
      case Reserve(_) => p
      case Lock(_) => WithUsers(p, b, Users(u.waiting - 1, true, u.leaving, u.edit))
      case Fill(_) => p.(filled := p.filled[b := true])
      case Change(_, d) => WithUsers(p, b, u.(edit := Edited(d)))
      case Write(_) => WithUsers(p, b, u.(edit := Clean)).(disk := p.disk[p.sector[b] := Sees(p, b)])
      case Look(_) => p
      case Signal(_) => WithUsers(p, b, Users(u.waiting, false, u.leaving + 1, Clean))
      case Drop(_) => Dropped(p, b)
  }

  ghost function Reserved(p: Plain, s: Sector, b: nat): (r: Plain)
    requires p.Sized()
    ensures r.Sized()
  {
    if b >= NBUF then p
    else WithUsers(p, b, p.users[b].(waiting := p.users[b].waiting + 1))
         .(sector := p.sector[b := s], filled := p.filled[b := p.filled[b] && p.sector[b] == s])
  }

  ghost function AfterAll(p: Plain, events: seq<Event>, n: nat): (r: Plain)
    requires p.Sized() && n <= |events|
    ensures r.Sized()
  {
    if n == 0 then p else After(AfterAll(p, events, n - 1), events[n - 1])
  }

  /** The event is what the plain disk allows: taken exactly when it can be, a reservation of the right
      buffer, and a look that sees what a direct read of the disk would give or the holder's own edit. */
  ghost predicate Faithful(p: Plain, e: Event)
    requires p.Sized()
  {
    && (e.taken <==> Enabled(p, e.step))
    && (e.taken && e.step.Reserve? ==> Chosen(p, e.step.s, e.got))
    && (e.taken && e.step.Look? ==> e.seen == Sees(p, e.step.b))
  }

  ghost predicate OpenFaith(k: Key) {
    true
  }

  ghost predicate AllFaithful(p: Plain, events: seq<Event>)
    requires p.Sized()
  {
    forall k: Key {:trigger OpenFaith(k)} :: OpenFaith(k) ==>
      forall i :: 0 <= i < |events| ==> Faithful(AfterAll(p, events, i), events[i])
  }

  lemma {:induction false} AfterPrefix(p: Plain, events: seq<Event>, e: Event, n: nat)
    requires p.Sized() && n <= |events|
    ensures AfterAll(p, events + [e], n) == AfterAll(p, events, n)
  {
    if n > 0 {
      AfterPrefix(p, events, e, n - 1);
    }
  }

  lemma {:induction false} Extend(p: Plain, events: seq<Event>, e: Event)
    requires p.Sized() && AllFaithful(p, events) && Faithful(AfterAll(p, events, |events|), e)
    ensures AllFaithful(p, events + [e])
    ensures AfterAll(p, events + [e], |events| + 1) == After(AfterAll(p, events, |events|), e)
  {
    assert OpenFaith(Key);
    AfterPrefix(p, events, e, |events|);
    forall i | 0 <= i < |events + [e]| ensures Faithful(AfterAll(p, events + [e], i), (events + [e])[i]) {
      AfterPrefix(p, events, e, i);
      if i < |events| {
        assert Faithful(AfterAll(p, events, i), events[i]);
      }
    }
  }

  ghost predicate OpenRun(k: Key) {
    true
  }

  /** The events so far are right and lead from p to now. */
  ghost predicate Ran(p: Plain, events: seq<Event>, steps: seq<Step>, now: Plain) {
    && p.Sized() && |events| <= |steps|
    && forall k: Key {:trigger OpenRun(k)} :: OpenRun(k) ==>
         && AllFaithful(p, events) && now == AfterAll(p, events, |events|)
         && forall i :: 0 <= i < |events| ==> events[i].step == steps[i]
  }

  lemma {:induction false} RanStep(p: Plain, events: seq<Event>, steps: seq<Step>, now: Plain, e: Event)
    requires Ran(p, events, steps, now) && |events| < |steps| && e.step == steps[|events|]
    requires now.Sized() && Faithful(now, e)
    ensures Ran(p, events + [e], steps, After(now, e))
  {
    assert OpenRun(Key);
    Extend(p, events, e);
  }

  /** The cache is transparent over any interleaving in which edits are written before the buffer is
      released: every look sees the plain disk, the disk is what the writes alone make of it, steps are
      taken exactly when they can be, and each reservation gets the sector's buffer or the least
      recently released one without users. */
  method Run(c: Cache, steps: seq<Step>) returns (events: seq<Event>)
    requires c.Valid() && forall i :: 0 <= i < |steps| ==> steps[i] != Reserve(NO_SECTOR)
    modifies c
    ensures c.Valid() && |events| == |steps| && forall i :: 0 <= i < |steps| ==> events[i].step == steps[i]
    ensures AllFaithful(old(c.Abs()), events) && c.Abs() == AfterAll(old(c.Abs()), events, |events|)
  {
    events := [];
    ghost var p := c.Abs();
    for n := 0 to |steps|
      invariant c.Valid() && |events| == n && Ran(p, events, steps, c.Abs())
    {
      ghost var now := c.Abs();
      var e := Take(c, steps[n]);
      RanStep(p, events, steps, now, e);
      events := events + [e];
    }
    assert OpenRun(Key);
  }

  method Take(c: Cache, step: Step) returns (e: Event)
    requires c.Valid() && step != Reserve(NO_SECTOR)
    modifies c
    ensures c.Valid() && e.step == step && Faithful(old(c.Abs()), e) && c.Abs() == After(old(c.Abs()), e)
  {
    if step.Reserve? {
      e := TakeReserve(c, step.s);
    } else if step.b >= NBUF {
      e := Event(step, false, 0, []);
    } else {
      e := TakeHeld(c, step, step.b);
    }
  }

  method TakeReserve(c: Cache, s: Sector) returns (e: Event)
    requires c.Valid() && s != NO_SECTOR
    modifies c
    ensures c.Valid() && e.step == Reserve(s) && Faithful(old(c.Abs()), e) && c.Abs() == After(old(c.Abs()), e)
  {
    CountsAre(c.bufs, c.users, c.disk);
    ghost var p := c.Abs();
    var b := c.Reserve(s);
    e := Event(Reserve(s), b < NBUF, b, []);
    if b < NBUF {
      assert p.sector[b] == s || Refs(p.users[b]) == 0;
      assert c.Abs().sector == p.sector[b := s];
      assert c.Abs().filled == p.filled[b := p.filled[b] && p.sector[b] == s];
    }
  }

  lemma {:induction false} CountsAre(bufs: seq<Buf>, users: seq<Users>, disk: Disk)
    requires CacheOk(bufs, users, disk)
    ensures forall b :: 0 <= b < NBUF ==> bufs[b].refcnt == Refs(users[b])
  {
    forall b | 0 <= b < NBUF ensures bufs[b].refcnt == Refs(users[b]) {
      BufAt(bufs, users, disk, b);
    }
  }

  /** The steps on one buffer. */
  method TakeHeld(c: Cache, step: Step, b: nat) returns (e: Event)
    requires c.Valid() && !step.Reserve? && b == step.b < NBUF
    modifies c
    ensures c.Valid() && e.step == step && Faithful(old(c.Abs()), e) && c.Abs() == After(old(c.Abs()), e)
  {
    var u, x := c.users[b], c.bufs[b];
    var ready := match step
      case Lock(_) => u.waiting > 0 && !u.held
      case Fill(_) => u.held && SectorOf(x) != NO_SECTOR
      case Change(_, d) => u.held && x.valid && |d| == BSIZE
      case Write(_) => u.held && x.valid
      case Look(_) => u.held && x.valid
      case Signal(_) => u.held && u.edit.Clean?
      case Drop(_) => u.leaving > 0;
    e := Event(step, ready, 0, if ready && step.Look? then x.data else []);
    BufAt(c.bufs, c.users, c.disk, b);
    if ready {
      match step
      case Lock(_) => c.Lock(b);
      case Fill(_) => c.Fill(b);
      case Change(_, d) => c.Change(b, d);
      case Write(_) => c.Bwrite(b);
      case Look(_) =>
      case Signal(_) => c.Signal(b);
      case Drop(_) => c.Drop(b);
    }
  }
}
