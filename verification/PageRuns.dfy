/** Whole runs of map and unmap on one page table. */
module PageRuns {
  import opened Bytes
  import opened FrameAllocator
  import opened Physical
  import opened PageEntries
  import opened TableTree
  import opened PageTable
  import opened Sv39

  datatype PtOp = MapOp(vpn: nat, ppn: nat, flags: nat) | UnmapOp(vpn: nat)

  /** A page number has 64 bits, the flags eight. */
  predicate OpOk(op: PtOp) {
    op.MapOp? ==> op.ppn < U64_LIMIT && op.flags < 256
  }

  /** The map after one operation that had the frames it needed. */
  ghost function After(spec: map<nat, Mapping>, op: PtOp): map<nat, Mapping> {
    match op
    case MapOp(vpn, ppn, flags) =>
      if LowVpn(vpn) in spec || !OpOk(op) then spec else spec[LowVpn(vpn) := Mapping(ppn % PPN_LIMIT, WithValid(flags))]
    case UnmapOp(vpn) => spec - {LowVpn(vpn)}
  }

  /** The map after n operations; one that ran out of frames leaves it alone. */
  ghost function AfterAll(spec: map<nat, Mapping>, ops: seq<PtOp>, results: seq<Outcome>, n: nat): map<nat, Mapping>
    requires n <= |ops| && n <= |results|
  {
    if n == 0 then spec
    else
      var before := AfterAll(spec, ops, results, n - 1);
      if results[n - 1] == NoFrame then before else After(before, ops[n - 1])
  }

  /** An operation is refused exactly when its page is bound (map) or not bound (unmap); only a page
      that is not bound can run out of frames. */
  ghost predicate Answered(spec: map<nat, Mapping>, op: PtOp, r: Outcome) {
    if op.MapOp? then r == Refused <==> LowVpn(op.vpn) in spec else r == Done <==> LowVpn(op.vpn) in spec
  }

  lemma {:induction false} AfterPrefix(spec: map<nat, Mapping>, ops: seq<PtOp>, results: seq<Outcome>, r: Outcome,
                                       n: nat)
    requires n <= |ops| && n <= |results|
    ensures AfterAll(spec, ops, results + [r], n) == AfterAll(spec, ops, results, n)
  {
    if n > 0 {
      AfterPrefix(spec, ops, results, r, n - 1);
    }
  }

  ghost predicate AllAnswered(spec: map<nat, Mapping>, ops: seq<PtOp>, results: seq<Outcome>) {
    && |results| <= |ops|
    && forall i :: 0 <= i < |results| ==> Answered(AfterAll(spec, ops, results, i), ops[i], results[i])
  }

  ghost predicate OpenRun(k: Key) {
    true
  }

  /** The results so far are right, and lead from spec to now. */
  ghost predicate Ran(spec: map<nat, Mapping>, ops: seq<PtOp>, results: seq<Outcome>, now: map<nat, Mapping>) {
    |results| <= |ops| && forall k: Key {:trigger OpenRun(k)} :: OpenRun(k) ==>
      AllAnswered(spec, ops, results) && now == AfterAll(spec, ops, results, |results|)
  }

  lemma {:induction false} RanStep(spec: map<nat, Mapping>, ops: seq<PtOp>, results: seq<Outcome>,
                                   now: map<nat, Mapping>, r: Outcome)
    requires Ran(spec, ops, results, now) && |results| < |ops| && Answered(now, ops[|results|], r)
    ensures Ran(spec, ops, results + [r], if r == NoFrame then now else After(now, ops[|results|]))
  {
    assert OpenRun(Key);
    AnsweredStep(spec, ops, results, r);
    AfterStep(spec, ops, results, r);
  }

  lemma {:induction false} AnsweredStep(spec: map<nat, Mapping>, ops: seq<PtOp>, results: seq<Outcome>, r: Outcome)
    requires AllAnswered(spec, ops, results) && |results| < |ops|
    requires Answered(AfterAll(spec, ops, results, |results|), ops[|results|], r)
    ensures AllAnswered(spec, ops, results + [r])
  {
    var n, results' := |results|, results + [r];
    forall i | 0 <= i < |results'| ensures Answered(AfterAll(spec, ops, results', i), ops[i], results'[i]) {
      AfterPrefix(spec, ops, results, r, i);
      if i < n {
        assert results'[i] == results[i] && Answered(AfterAll(spec, ops, results, i), ops[i], results[i]);
      }
    }
  }

  lemma {:induction false} AfterStep(spec: map<nat, Mapping>, ops: seq<PtOp>, results: seq<Outcome>, r: Outcome)
    requires |results| < |ops|
    ensures AfterAll(spec, ops, results + [r], |results| + 1) ==
            (if r == NoFrame then AfterAll(spec, ops, results, |results|)
             else After(AfterAll(spec, ops, results, |results|), ops[|results|]))
  {
    AfterPrefix(spec, ops, results, r, |results|);
  }

  /** Any series of map and unmap: the table translates as the finite map that the series builds, and
      memory outside the table's own frames and the frames it took is as it was. */
  method Run(m: Machine, pt: Table, ops: seq<PtOp>) returns (results: seq<Outcome>)
    requires m.Valid() && pt.Valid(m) && forall i :: 0 <= i < |ops| ==> OpOk(ops[i])
    modifies pt, m`mem, m.frames`current, m.frames`live, m.frames.recycled`CurrentSize
    ensures m.Valid() && pt.Valid(m) && pt.root == old(pt.root) && |results| == |ops|
    ensures pt.spec == AfterAll(old(pt.spec), ops, results, |ops|)
    ensures AllAnswered(old(pt.spec), ops, results)
    ensures NoFrame in results ==> FreeFrames(m.Live(), m.frames.start, m.frames.end) == {}
    ensures Reaches(old(m.mem), old(m.Live()), old(pt.tab), m.mem, m.Live(), pt.tab)
    ensures Translates(m.mem, pt.root, AfterAll(old(pt.spec), ops, results, |ops|))
  {
    results := [];
    ghost var spec, mem, live, tab := pt.spec, m.mem, m.Live(), pt.tab;
    pt.Owned(m);
    ReachesSelf(mem, live, tab);
    for n := 0 to |ops|
      invariant m.Valid() && pt.Valid(m) && pt.root == old(pt.root) && |results| == n
      invariant Ran(spec, ops, results, pt.spec)
      invariant NoFrame in results ==> FreeFrames(m.Live(), m.frames.start, m.frames.end) == {}
      invariant Reaches(mem, live, tab, m.mem, m.Live(), pt.tab)
    {
      ghost var mem1, live1, tab1, now := m.mem, m.Live(), pt.tab, pt.spec;
      var r := Step(m, pt, ops[n]);
      ReachesTrans(mem, live, tab, mem1, live1, tab1, m.mem, m.Live(), pt.tab);
      RanStep(spec, ops, results, now, r);
      results := results + [r];
    }
    pt.InHardware(m);
    assert OpenRun(Key);
  }

  method Step(m: Machine, pt: Table, op: PtOp) returns (r: Outcome)
    requires m.Valid() && pt.Valid(m) && OpOk(op)
    modifies pt, m`mem, m.frames`current, m.frames`live, m.frames.recycled`CurrentSize
    ensures m.Valid() && pt.Valid(m) && pt.root == old(pt.root) && Answered(old(pt.spec), op, r)
    ensures pt.spec == if r == NoFrame then old(pt.spec) else After(old(pt.spec), op)
    ensures r == NoFrame ==> FreeFrames(m.Live(), m.frames.start, m.frames.end) == {}
    ensures Reaches(old(m.mem), old(m.Live()), old(pt.tab), m.mem, m.Live(), pt.tab)
  {
    match op
    case MapOp(vpn, ppn, flags) =>
      r := pt.Map(m, vpn, ppn, flags);
    case UnmapOp(vpn) =>
      r := pt.Unmap(m, vpn);
      assert r == NoFrame ==> old(pt.spec) - {LowVpn(vpn)} == old(pt.spec);
  }
}
