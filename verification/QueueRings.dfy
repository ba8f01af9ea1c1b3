/**
 * One block's accumulation queue step and its two rings, and what holds over whole runs of blocks
 * with arbitrary slot gaps.
 */
module QueueRings {
  import opened Base
  import opened Queue

  type ReadyRing = r: seq<seq<Pending>> | |r| == EPOCH witness seq(EPOCH, _ => [])
  type AccRing = r: seq<seq<Hash>> | |r| == EPOCH witness seq(EPOCH, _ => [])

  type Bucket = b: nat | b < EPOCH

  datatype Rings = Rings(ready: ReadyRing, accumulated: AccRing)

  // ------------------------------------------------------------ a block's candidates

  function Flat(ring: seq<seq<Hash>>): seq<Hash> {
    if ring == [] then [] else Flat(ring[..|ring| - 1]) + ring[|ring| - 1]
  }

  lemma {:induction false} FlatMeaning(ring: seq<seq<Hash>>, h: Hash)
    ensures h in Flat(ring) <==> exists b :: 0 <= b < |ring| && h in ring[b]
    decreases |ring|
  {
    if ring != [] {
      var init := ring[..|ring| - 1];
      FlatMeaning(init, h);
      if h in Flat(init) {
        var b :| 0 <= b < |init| && h in init[b];
        assert h in ring[b];
      }
    }
  }

  predicate IsImmediate(r: Report) {
    r.prerequisites == [] && r.lookups == []
  }

  function ImmediateOf(rs: seq<Report>): (out: seq<Report>)
    ensures |out| <= |rs|
    ensures forall r :: r in out <==> r in rs && IsImmediate(r)
  {
    if rs == [] then []
    else
      assert rs == [rs[0]] + rs[1..];
      if IsImmediate(rs[0]) then [rs[0]] + ImmediateOf(rs[1..]) else ImmediateOf(rs[1..])
  }

  function WaitingOf(rs: seq<Report>): (out: seq<Pending>)
    ensures forall p :: p in out <==> p.report in rs && !IsImmediate(p.report) && p.deps == Dependencies(p.report)
  {
    if rs == [] then []
    else
      assert rs == [rs[0]] + rs[1..];
      if IsImmediate(rs[0]) then WaitingOf(rs[1..])
      else [Pending(rs[0], Dependencies(rs[0]))] + WaitingOf(rs[1..])
  }

  /** Newly available reports with dependencies, edited by what is already accumulated. */
  function Queued(acc: AccRing, rs: seq<Report>): seq<Pending> {
    Edit(WaitingOf(rs), Flat(acc))
  }

  /** The bucket `k` places after bucket `m`. */
  function BucketAt(ready: ReadyRing, m: nat, k: nat): seq<Pending> {
    ready[(m + k) % EPOCH]
  }

  /** The first `n` buckets of the ready ring, starting with the current slot's. */
  function ReadyUpTo(ready: ReadyRing, m: nat, n: nat): seq<Pending> {
    if n == 0 then [] else ReadyUpTo(ready, m, n - 1) + BucketAt(ready, m, n - 1)
  }

  lemma {:induction false} ReadyUpToMeaning(ready: ReadyRing, m: nat, n: nat, p: Pending)
    ensures p in ReadyUpTo(ready, m, n) <==> exists k :: 0 <= k < n && p in BucketAt(ready, m, k)
  {
    if n > 0 {
      ReadyUpToMeaning(ready, m, n - 1, p);
    }
  }

  lemma PlaceOf(m: nat, b: Bucket) returns (k: nat)
    ensures k < EPOCH && (m + k) % EPOCH == b
  {
    k := (b + EPOCH - m % EPOCH) % EPOCH;
  }

  /** All twelve buckets together hold exactly the entries of the ring. */
  lemma ReadyAll(ready: ReadyRing, m: nat, p: Pending)
    ensures p in ReadyUpTo(ready, m, EPOCH) <==> exists b :: 0 <= b < EPOCH && p in ready[b]
  {
    ReadyUpToMeaning(ready, m, EPOCH, p);
    if exists b :: 0 <= b < EPOCH && p in ready[b] {
      var b: nat :| b < EPOCH && p in ready[b];
      var k := PlaceOf(m, b);
      assert p in BucketAt(ready, m, k);
    } else {
      forall k | 0 <= k < EPOCH
        ensures p !in BucketAt(ready, m, k)
      {
        assert p !in ready[(m + k) % EPOCH];
      }
    }
  }

  function QueueInput(slot: nat, rings: Rings, rs: seq<Report>): seq<Pending> {
    ReadyUpTo(rings.ready, slot % EPOCH, EPOCH) + Queued(rings.accumulated, rs)
  }

  function PriorityInput(slot: nat, rings: Rings, rs: seq<Report>): seq<Pending> {
    Edit(QueueInput(slot, rings, rs), Hashes(ImmediateOf(rs)))
  }

  /** The candidate sequence: immediate reports, then the queue in priority order. */
  function Candidates(slot: nat, rings: Rings, rs: seq<Report>): seq<Report> {
    ImmediateOf(rs) + Priority(PriorityInput(slot, rings, rs))
  }

  function GasSum(gas: seq<u64>): int {
    if gas == [] then 0 else GasSum(gas[..|gas| - 1]) + AsI64(gas[|gas| - 1])
  }

  /** Where the gas budget stops: the first report from `i` on that no longer fits on top of `total`. */
  function CutFrom(rs: seq<Report>, i: nat, total: int): (n: nat)
    requires i <= |rs|
    ensures i <= n <= |rs|
    decreases |rs| - i
  {
    if i == |rs| || total + GasSum(rs[i].gas) > BLOCK_ACC_GAS then i
    else CutFrom(rs, i + 1, total + GasSum(rs[i].gas))
  }

  function GasCut(rs: seq<Report>): seq<Report> {
    rs[..CutFrom(rs, 0, 0)]
  }

  function Taken(slot: nat, rings: Rings, rs: seq<Report>): seq<Report> {
    GasCut(Candidates(slot, rings, rs))
  }

  // ------------------------------------------------------------ the rings

  function Insert(h: Hash, hs: seq<Hash>): seq<Hash> {
    if hs == [] || h <= hs[0] then [h] + hs else [hs[0]] + Insert(h, hs[1..])
  }

  function Sorted(hs: seq<Hash>): seq<Hash> {
    if hs == [] then [] else Insert(hs[0], Sorted(hs[1..]))
  }

  ghost predicate Ascending(hs: seq<Hash>) {
    |hs| > 1 ==> hs[0] <= hs[1] && Ascending(hs[1..])
  }

  lemma {:induction false} InsertMeaning(h: Hash, hs: seq<Hash>)
    requires Ascending(hs)
    ensures multiset(Insert(h, hs)) == multiset(hs) + multiset{h}
    ensures Ascending(Insert(h, hs)) && |Insert(h, hs)| == |hs| + 1
    ensures Insert(h, hs)[0] == if hs == [] || h <= hs[0] then h else hs[0]
    decreases |hs|
  {
    if hs != [] {
      assert hs == [hs[0]] + hs[1..];
      if h > hs[0] {
        InsertMeaning(h, hs[1..]);
        assert Insert(h, hs)[1..] == Insert(h, hs[1..]);
      } else {
        assert Insert(h, hs)[1..] == hs;
      }
    }
  }

  lemma {:induction false} SortedPermutes(hs: seq<Hash>)
    ensures multiset(Sorted(hs)) == multiset(hs) && Ascending(Sorted(hs))
    decreases |hs|
  {
    if hs != [] {
      SortedPermutes(hs[1..]);
      InsertMeaning(hs[0], Sorted(hs[1..]));
      assert hs == [hs[0]] + hs[1..];
    }
  }

  /** Sorting permutes and orders. */
  lemma SortedMeaning(hs: seq<Hash>)
    ensures multiset(Sorted(hs)) == multiset(hs) && Ascending(Sorted(hs))
    ensures forall h :: h in Sorted(hs) <==> h in hs
  {
    SortedPermutes(hs);
    SameElements(Sorted(hs), hs);
  }

  lemma SameElements(a: seq<Hash>, b: seq<Hash>)
    requires multiset(a) == multiset(b)
    ensures forall h :: h in a <==> h in b
  {
    forall h
      ensures h in a <==> h in b
    {
      assert h in a <==> h in multiset(a);
      assert h in b <==> h in multiset(b);
    }
  }

  /** Buckets back from the current slot's bucket to bucket `b`. */
  function Age(slot: nat, b: Bucket): nat {
    (slot % EPOCH + EPOCH - b) % EPOCH
  }

  /** This block's accumulated packages, in ascending order. */
  function Newest(slot: nat, rings: Rings, rs: seq<Report>): seq<Hash> {
    Sorted(Hashes(Taken(slot, rings, rs)))
  }

  /** Bucket `b` after the block: refilled, expired, or edited. */
  function NewBucket(slot: nat, gap: nat, ready: ReadyRing, queued: seq<Pending>, newest: seq<Hash>, b: Bucket)
    : seq<Pending>
  {
    if Age(slot, b) == 0 then Edit(queued, newest)
    else if Age(slot, b) < gap then []
    else Edit(ready[b], newest)
  }

  /** The queue step of a block at `slot` whose recorded predecessor is at `pre`. */
  function Advance(slot: nat, pre: nat, rings: Rings, rs: seq<Report>): Rings
    requires pre <= slot
  {
    var newest := Newest(slot, rings, rs);
    var queued := Queued(rings.accumulated, rs);
    Rings(seq(EPOCH, b requires 0 <= b < EPOCH => NewBucket(slot, slot - pre, rings.ready, queued, newest, b)),
          rings.accumulated[1..] + [newest])
  }

  /** The same step as the code performs it: loops over buckets, the gas budget and the ring slots. */
  method ComputeAdvance(slot: nat, pre: nat, rings: Rings, rs: seq<Report>) returns (taken: seq<Report>, next: Rings)
    requires pre <= slot
    ensures taken == Taken(slot, rings, rs) && next == Advance(slot, pre, rings, rs)
  {
    var m := slot % EPOCH;
    var queued := Queued(rings.accumulated, rs);
    var input: seq<Pending> := [];
    for i := 0 to EPOCH
      invariant input == ReadyUpTo(rings.ready, m, i)
    {
      input := input + rings.ready[(m + i) % EPOCH];
    }
    input := Edit(input + queued, Hashes(ImmediateOf(rs)));
    taken := ComputeCut(ImmediateOf(rs) + Priority(input));
    var newest := Sorted(Hashes(taken));
    var accd := ComputeAccumulated(rings.accumulated, newest);
    var ready := ComputeReady(slot, slot - pre, rings.ready, queued, newest);
    next := Rings(ready, accd);
  }

  method ComputeAccumulated(ring: AccRing, newest: seq<Hash>) returns (accd: AccRing)
    ensures accd == ring[1..] + [newest]
  {
    accd := ring;
    for i := 0 to EPOCH - 1
      invariant accd == ring[1..i + 1] + ring[i..]
    {
      accd := accd[i := ring[i + 1]];
    }
    accd := accd[EPOCH - 1 := newest];
  }

  method ComputeReady(slot: nat, gap: nat, old_: ReadyRing, queued: seq<Pending>, newest: seq<Hash>)
    returns (ready: ReadyRing)
    ensures ready == seq(EPOCH, b requires 0 <= b < EPOCH => NewBucket(slot, gap, old_, queued, newest, b))
  {
    ready := old_;
    for i := 0 to EPOCH
      invariant forall b | 0 <= b < EPOCH ::
                  ready[b] == if Age(slot, b) < i then NewBucket(slot, gap, old_, queued, newest, b) else old_[b]
    {
      var idx := (slot % EPOCH + EPOCH - i) % EPOCH;
      AgeIndex(slot, i, idx);
      ready := ready[idx := if i == 0 then Edit(queued, newest) else if i < gap then [] else Edit(old_[idx], newest)];
    }
  }

  lemma AgeIndex(slot: nat, i: nat, idx: nat)
    requires i < EPOCH && idx == (slot % EPOCH + EPOCH - i) % EPOCH
    ensures Age(slot, idx) == i
    ensures forall b | 0 <= b < EPOCH && b != idx :: Age(slot, b) != i
  {
  }

  method ComputeCut(candidates: seq<Report>) returns (taken: seq<Report>)
    ensures taken == GasCut(candidates)
  {
    taken := [];
    var total, i := 0, 0;
    while i < |candidates|
      invariant 0 <= i <= |candidates| && taken == candidates[..i]
      invariant CutFrom(candidates, 0, 0) == CutFrom(candidates, i, total)
    {
      var g := ComputeGas(candidates[i].gas);
      if total + g > BLOCK_ACC_GAS {
        return;
      }
      total, taken, i := total + g, taken + [candidates[i]], i + 1;
    }
  }

  method ComputeGas(gas: seq<u64>) returns (g: int)
    ensures g == GasSum(gas)
  {
    g := 0;
    for i := 0 to |gas|
      invariant g == GasSum(gas[..i])
    {
      assert gas[..i + 1][..i] == gas[..i];
      g := g + AsI64(gas[i]);
    }
    assert gas[..|gas|] == gas;
  }

  /** Gas of the first `n` reports. */
  function PrefixGas(rs: seq<Report>, n: nat): int
    requires n <= |rs|
  {
    if n == 0 then 0 else PrefixGas(rs, n - 1) + GasSum(rs[n - 1].gas)
  }

  /** Every kept prefix is within the budget, and the report after the cut does not fit. */
  lemma {:induction false} CutMeaning(rs: seq<Report>, i: nat)
    requires i <= |rs|
    ensures var n := CutFrom(rs, i, PrefixGas(rs, i));
            && (forall k | i < k <= n :: PrefixGas(rs, k) <= BLOCK_ACC_GAS)
            && (n < |rs| ==> PrefixGas(rs, n + 1) > BLOCK_ACC_GAS)
    decreases |rs| - i
  {
    if i < |rs| && PrefixGas(rs, i + 1) <= BLOCK_ACC_GAS {
      CutMeaning(rs, i + 1);
    }
  }

  /** The cut keeps the first `k` reports exactly when no prefix up to them exceeds the block's accumulation gas. */
  lemma GasCutKeeps(rs: seq<Report>, k: nat)
    requires 0 < k <= |rs|
    ensures k <= |GasCut(rs)| <==> forall j | 0 < j <= k :: PrefixGas(rs, j) <= BLOCK_ACC_GAS
  {
    CutMeaning(rs, 0);
    var n := CutFrom(rs, 0, 0);
    if n < k {
      assert PrefixGas(rs, n + 1) > BLOCK_ACC_GAS;
    }
  }

  /** Two reports of at most 10,000,000 gas each are never cut, so immediate reports accumulate at once. */
  lemma ImmediateNeverCut(slot: nat, rings: Rings, rs: seq<Report>)
    requires |rs| <= 2 && forall r | r in rs :: 0 <= GasSum(r.gas) <= 10_000_000
    ensures ImmediateOf(rs) <= Taken(slot, rings, rs)
  {
    TwoNeverCut(ImmediateOf(rs), Priority(PriorityInput(slot, rings, rs)));
  }

  lemma TwoNeverCut(now: seq<Report>, later: seq<Report>)
    requires |now| <= 2 && forall r | r in now :: GasSum(r.gas) <= 10_000_000
    ensures now <= GasCut(now + later)
  {
    var c := now + later;
    if |now| >= 1 {
      assert c[0] == now[0] && now[0] in now;
      assert PrefixGas(c, 1) == PrefixGas(c, 0) + GasSum(c[0].gas);
      if |now| == 2 {
        assert c[1] == now[1] && now[1] in now;
        assert PrefixGas(c, 2) == PrefixGas(c, 1) + GasSum(c[1].gas);
      }
      GasCutKeeps(c, |now|);
    }
  }

  // ------------------------------------------------------------ single-block properties

  /** Every entry after a block is the edited form of one just queued or of one already in its bucket. */
  lemma NewBucketMember(slot: nat, pre: nat, rings: Rings, rs: seq<Report>, b: Bucket, e: Pending) returns (p: Pending)
    requires pre <= slot && e in Advance(slot, pre, rings, rs).ready[b]
    ensures e == Edited(p, Newest(slot, rings, rs)) && e.report.hash !in Hashes(Taken(slot, rings, rs))
    ensures if Age(slot, b) == 0 then p in Queued(rings.accumulated, rs)
            else p in rings.ready[b] && Age(slot, b) >= slot - pre
  {
    SortedMeaning(Hashes(Taken(slot, rings, rs)));
    var from := if Age(slot, b) == 0 then Queued(rings.accumulated, rs) else rings.ready[b];
    EditMeaning(from, Newest(slot, rings, rs), e);
    p :| p in from && p.report.hash !in Newest(slot, rings, rs) && e == Edited(p, Newest(slot, rings, rs));
  }

  /** The accumulated ring forgets its oldest bucket and remembers this block's packages. */
  lemma AccumulatedAfter(slot: nat, pre: nat, rings: Rings, rs: seq<Report>, h: Hash)
    requires pre <= slot
    ensures h in Flat(Advance(slot, pre, rings, rs).accumulated)
       <==> h in Flat(rings.accumulated[1..]) || h in Hashes(Taken(slot, rings, rs))
    ensures h in Flat(rings.accumulated[1..]) ==> h in Flat(rings.accumulated)
  {
    var newest := Newest(slot, rings, rs);
    SortedMeaning(Hashes(Taken(slot, rings, rs)));
    var ring := rings.accumulated[1..] + [newest];
    assert ring[..|ring| - 1] == rings.accumulated[1..];
    FlatMeaning(rings.accumulated, h);
    FlatMeaning(rings.accumulated[1..], h);
    if h in Flat(rings.accumulated[1..]) {
      var b :| 0 <= b < |rings.accumulated[1..]| && h in rings.accumulated[1..][b];
      assert h in rings.accumulated[b + 1];
    }
  }

  /** No waiting report, and no outstanding dependency of one, is in the accumulated ring. */
  ghost predicate Outstanding(rings: Rings) {
    forall b, e | 0 <= b < EPOCH && e in rings.ready[b] :: OutstandingEntry(rings.accumulated, e)
  }

  ghost predicate OutstandingEntry(acc: AccRing, e: Pending) {
    e.report.hash !in Flat(acc) && forall d | d in e.deps :: d !in Flat(acc)
  }

  lemma AdvanceOutstanding(slot: nat, pre: nat, rings: Rings, rs: seq<Report>)
    requires pre <= slot && Outstanding(rings)
    ensures Outstanding(Advance(slot, pre, rings, rs))
  {
    var next := Advance(slot, pre, rings, rs);
    forall b, e | 0 <= b < EPOCH && e in next.ready[b]
      ensures OutstandingEntry(next.accumulated, e)
    {
      EntryOutstanding(slot, pre, rings, rs, b, e);
    }
  }

  lemma EntryOutstanding(slot: nat, pre: nat, rings: Rings, rs: seq<Report>, b: Bucket, e: Pending)
    requires pre <= slot && Outstanding(rings) && e in Advance(slot, pre, rings, rs).ready[b]
    ensures OutstandingEntry(Advance(slot, pre, rings, rs).accumulated, e)
  {
    var newest := Newest(slot, rings, rs);
    SortedMeaning(Hashes(Taken(slot, rings, rs)));
    var p := NewBucketMember(slot, pre, rings, rs, b, e);
    if Age(slot, b) == 0 {
      EditMeaning(WaitingOf(rs), Flat(rings.accumulated), p);
    }
    assert OutstandingEntry(rings.accumulated, p);
    AccumulatedAfter(slot, pre, rings, rs, e.report.hash);
    forall d | d in e.deps
      ensures d !in Flat(Advance(slot, pre, rings, rs).accumulated)
    {
      AccumulatedAfter(slot, pre, rings, rs, d);
    }
  }

  // ------------------------------------------------------------ runs

  /** A block: its slot, the slot recorded for its predecessor, and the reports made available. */
  datatype Block = Block(slot: nat, pre: nat, reports: seq<Report>)

  datatype State = State(last: nat, rings: Rings)

  /** Slots strictly rise; the recorded predecessor is never ahead of the last block. */
  ghost predicate Follows(q: State, b: Block) {
    b.pre <= q.last < b.slot
  }

  /** A block that does not follow is not imported. */
  ghost function Next(q: State, b: Block): State {
    if Follows(q, b) then State(b.slot, Advance(b.slot, b.pre, q.rings, b.reports)) else q
  }

  ghost function TakenBy(q: State, b: Block): seq<Report> {
    if Follows(q, b) then Taken(b.slot, q.rings, b.reports) else []
  }

  ghost function Run(q: State, bs: seq<Block>): State {
    if bs == [] then q else Next(Run(q, bs[..|bs| - 1]), bs[|bs| - 1])
  }

  /** Everything accumulated over a run, in order. */
  ghost function Log(q: State, bs: seq<Block>): seq<Report> {
    if bs == [] then [] else Log(q, bs[..|bs| - 1]) + TakenBy(Run(q, bs[..|bs| - 1]), bs[|bs| - 1])
  }

  /** The blocks of a run that are imported, in order. */
  ghost function Imports(q: State, bs: seq<Block>): seq<Block> {
    if bs == [] then []
    else
      var blk := bs[|bs| - 1];
      Imports(q, bs[..|bs| - 1]) + if Follows(Run(q, bs[..|bs| - 1]), blk) then [blk] else []
  }

  ghost predicate NothingWaiting(q: State) {
    forall b | 0 <= b < EPOCH :: q.rings.ready[b] == []
  }

  /** Entry `e` of bucket `b` was made available, with dependencies, by block `j`, under twelve slots before `now`. */
  ghost predicate QueuedBy(bs: seq<Block>, j: nat, b: nat, e: Pending, now: nat) {
    && j < |bs|
    && bs[j].slot % EPOCH == b && bs[j].slot <= now < bs[j].slot + EPOCH
    && e.report in bs[j].reports && !IsImmediate(e.report)
  }

  lemma AgeArithmetic(slot: nat, pre: nat, last: nat, t: nat)
    requires pre <= last < slot && t <= last < t + EPOCH
    requires Age(slot, t % EPOCH) != 0 && Age(slot, t % EPOCH) >= slot - pre
    ensures slot - t == Age(slot, t % EPOCH)
  {
    var a := Age(slot, t % EPOCH);
    assert (slot - t) % EPOCH == a % EPOCH;
  }

  /** Every entry of the ring was queued by one of these imported blocks, in the bucket of its slot, recently enough. */
  ghost predicate Placed(bs: seq<Block>, q: State) {
    forall b, e | 0 <= b < EPOCH && e in q.rings.ready[b] :: exists j: nat :: QueuedBy(bs, j, b, e, q.last)
  }

  lemma AgeZero(slot: nat, b: Bucket)
    ensures Age(slot, b) == 0 <==> slot % EPOCH == b
  {
  }

  lemma FreshPlaced(bs: seq<Block>, rings: Rings, blk: Block, b: Bucket, e: Pending)
    requires blk.pre <= blk.slot && Age(blk.slot, b) == 0
    requires e in Advance(blk.slot, blk.pre, rings, blk.reports).ready[b]
    ensures QueuedBy(bs + [blk], |bs|, b, e, blk.slot)
  {
    var p := NewBucketMember(blk.slot, blk.pre, rings, blk.reports, b, e);
    EditMeaning(WaitingOf(blk.reports), Flat(rings.accumulated), p);
    AgeZero(blk.slot, b);
  }

  lemma OldPlaced(bs: seq<Block>, q: State, blk: Block, b: Bucket, e: Pending) returns (j: nat)
    requires Placed(bs, q) && Follows(q, blk) && Age(blk.slot, b) != 0
    requires e in Advance(blk.slot, blk.pre, q.rings, blk.reports).ready[b]
    ensures QueuedBy(bs + [blk], j, b, e, blk.slot)
  {
    var p := NewBucketMember(blk.slot, blk.pre, q.rings, blk.reports, b, e);
    j :| QueuedBy(bs, j, b, p, q.last);
    AgeArithmetic(blk.slot, blk.pre, q.last, bs[j].slot);
    assert (bs + [blk])[j] == bs[j];
  }

  /** With nothing waiting there is nothing to explain, whatever went before. */
  lemma NothingPlaced(past: seq<Block>, q: State)
    requires NothingWaiting(q)
    ensures Placed(past, q) && Tracked(q.rings, Flat(q.rings.accumulated))
  {
  }

  /**
   * Ring discipline: when imported blocks `past` explain what is waiting at the start, every entry of bucket
   * `b` was queued by an imported block, at a slot congruent to `b` and under twelve slots ago, whatever the
   * gaps between blocks.
   */
  lemma {:induction false} RingDiscipline(past: seq<Block>, q: State, bs: seq<Block>)
    requires Placed(past, q)
    ensures Placed(past + Imports(q, bs), Run(q, bs))
    decreases |bs|
  {
    if bs == [] {
      assert past + [] == past;
    } else {
      var init, blk := bs[..|bs| - 1], bs[|bs| - 1];
      var done := past + Imports(q, init);
      RingDiscipline(past, q, init);
      if Follows(Run(q, init), blk) {
        assert past + Imports(q, bs) == done + [blk];
        PlacedStep(done, Run(q, init), blk);
      } else {
        assert past + Imports(q, bs) == done;
      }
    }
  }

  lemma PlacedStep(bs: seq<Block>, q: State, blk: Block)
    requires Placed(bs, q) && Follows(q, blk)
    ensures Placed(bs + [blk], Next(q, blk))
  {
    forall b, e | 0 <= b < EPOCH && e in Next(q, blk).rings.ready[b]
      ensures exists j: nat :: QueuedBy(bs + [blk], j, b, e, Next(q, blk).last)
    {
      if Age(blk.slot, b) == 0 {
        FreshPlaced(bs, q.rings, blk, b, e);
      } else {
        var j := OldPlaced(bs, q, blk, b, e);
      }
    }
  }

  /** Over any run, no outstanding dependency is ever in the accumulated ring. */
  lemma {:induction false} RunOutstanding(q: State, bs: seq<Block>)
    requires Outstanding(q.rings)
    ensures Outstanding(Run(q, bs).rings)
    decreases |bs|
  {
    if bs != [] {
      var before, blk := Run(q, bs[..|bs| - 1]), bs[|bs| - 1];
      RunOutstanding(q, bs[..|bs| - 1]);
      if Follows(before, blk) {
        AdvanceOutstanding(blk.slot, blk.pre, before.rings, blk.reports);
      }
    }
  }

  // ------------------------------------------------------------ dependencies come first

  /** Packages known to be accumulated: those known at the start, then the log. */
  ghost function Done(known: seq<Hash>, log: seq<Report>): seq<Hash> {
    known + Hashes(log)
  }

  /** Each waiting entry still lists every dependency that is not done. */
  ghost predicate Tracked(rings: Rings, done: seq<Hash>) {
    && (forall h | h in Flat(rings.accumulated) :: h in done)
    && forall b, e | 0 <= b < EPOCH && e in rings.ready[b] :: TrackedEntry(e, done)
  }

  ghost predicate TrackedEntry(e: Pending, done: seq<Hash>) {
    forall d | d in Dependencies(e.report) :: d in e.deps || d in done
  }

  ghost predicate Satisfied(r: Report, done: seq<Hash>) {
    forall d | d in Dependencies(r) :: d in done
  }

  lemma TrackedInput(slot: nat, rings: Rings, rs: seq<Report>, done: seq<Hash>, p: Pending)
    requires Tracked(rings, done) && p in QueueInput(slot, rings, rs)
    ensures TrackedEntry(p, done)
  {
    if p in ReadyUpTo(rings.ready, slot % EPOCH, EPOCH) {
      ReadyAll(rings.ready, slot % EPOCH, p);
    } else {
      EditMeaning(WaitingOf(rs), Flat(rings.accumulated), p);
    }
  }

  /** Each candidate's dependencies are done, or are candidates before it. */
  lemma CandidateSatisfied(slot: nat, rings: Rings, rs: seq<Report>, done: seq<Hash>, i: nat)
    requires Tracked(rings, done) && i < |Candidates(slot, rings, rs)|
    ensures Satisfied(Candidates(slot, rings, rs)[i], done + Hashes(Candidates(slot, rings, rs)[..i]))
  {
    var now := ImmediateOf(rs);
    var input := PriorityInput(slot, rings, rs);
    var later := Priority(input);
    var c := now + later;
    if i < |now| {
      assert now[i] in now;
    } else {
      var j := i - |now|;
      PriorityTopological(input, j);
      UnlockedBeforeEdit(QueueInput(slot, rings, rs), Hashes(now), later[j], Hashes(later[..j]));
      var p :| p in QueueInput(slot, rings, rs) && p.report == later[j]
        && forall d | d in p.deps :: d in Hashes(now) + Hashes(later[..j]);
      TrackedInput(slot, rings, rs, done, p);
      assert c[..i] == now + later[..j];
      HashesConcat(now, later[..j]);
    }
  }

  lemma TakenSatisfied(slot: nat, rings: Rings, rs: seq<Report>, done: seq<Hash>, i: nat)
    requires Tracked(rings, done) && i < |Taken(slot, rings, rs)|
    ensures Satisfied(Taken(slot, rings, rs)[i], done + Hashes(Taken(slot, rings, rs)[..i]))
  {
    var c, t := Candidates(slot, rings, rs), Taken(slot, rings, rs);
    CandidateSatisfied(slot, rings, rs, done, i);
    assert t[i] == c[i] && t[..i] == c[..i];
  }

  lemma AdvanceTracked(slot: nat, pre: nat, rings: Rings, rs: seq<Report>, done: seq<Hash>)
    requires pre <= slot && Tracked(rings, done)
    ensures Tracked(Advance(slot, pre, rings, rs), done + Hashes(Taken(slot, rings, rs)))
  {
    var next, newest := Advance(slot, pre, rings, rs), Newest(slot, rings, rs);
    SortedMeaning(Hashes(Taken(slot, rings, rs)));
    forall h | h in Flat(next.accumulated)
      ensures h in done + Hashes(Taken(slot, rings, rs))
    {
      AccumulatedAfter(slot, pre, rings, rs, h);
    }
    forall b, e | 0 <= b < EPOCH && e in next.ready[b]
      ensures TrackedEntry(e, done + Hashes(Taken(slot, rings, rs)))
    {
      var p := NewBucketMember(slot, pre, rings, rs, b, e);
      if Age(slot, b) == 0 {
        TrackedInput(slot, rings, rs, done, p);
      } else {
        assert TrackedEntry(p, done);
      }
    }
  }

  lemma DoneExtends(known: seq<Hash>, a: seq<Report>, b: seq<Report>)
    ensures Done(known, a) + Hashes(b) == Done(known, a + b)
  {
    HashesConcat(a, b);
  }

  lemma NextTracked(known: seq<Hash>, log: seq<Report>, q: State, blk: Block)
    requires Tracked(q.rings, Done(known, log))
    ensures Tracked(Next(q, blk).rings, Done(known, log + TakenBy(q, blk)))
  {
    DoneExtends(known, log, TakenBy(q, blk));
    if Follows(q, blk) {
      AdvanceTracked(blk.slot, blk.pre, q.rings, blk.reports, Done(known, log));
    } else {
      assert log + [] == log;
    }
  }

  lemma {:induction false} RunTracked(known: seq<Hash>, q: State, bs: seq<Block>)
    requires Tracked(q.rings, known)
    ensures Tracked(Run(q, bs).rings, Done(known, Log(q, bs)))
    decreases |bs|
  {
    if bs == [] {
      assert known + Hashes([]) == known;
    } else {
      var init := bs[..|bs| - 1];
      RunTracked(known, q, init);
      NextTracked(known, Log(q, init), Run(q, init), bs[|bs| - 1]);
    }
  }

  /** Within one block, after a tracked history. */
  lemma BlockSatisfied(known: seq<Hash>, log: seq<Report>, q: State, blk: Block, j: nat)
    requires Tracked(q.rings, Done(known, log)) && j < |TakenBy(q, blk)|
    ensures Satisfied(TakenBy(q, blk)[j], Done(known, log + TakenBy(q, blk)[..j]))
  {
    TakenSatisfied(blk.slot, q.rings, blk.reports, Done(known, log), j);
    DoneExtends(known, log, TakenBy(q, blk)[..j]);
  }

  /** Every report of the log comes after all of its dependencies. */
  ghost predicate DependencyOrdered(known: seq<Hash>, log: seq<Report>) {
    forall i | 0 <= i < |log| :: Satisfied(log[i], Done(known, log[..i]))
  }

  lemma OrderedAppend(known: seq<Hash>, log: seq<Report>, t: seq<Report>)
    requires DependencyOrdered(known, log)
    requires forall j | 0 <= j < |t| :: Satisfied(t[j], Done(known, log + t[..j]))
    ensures DependencyOrdered(known, log + t)
  {
    forall i | 0 <= i < |log + t|
      ensures Satisfied((log + t)[i], Done(known, (log + t)[..i]))
    {
      if i < |log| {
        assert (log + t)[..i] == log[..i];
      } else {
        assert (log + t)[..i] == log + t[..i - |log|];
      }
    }
  }

  /**
   * Over any run, a report is accumulated only after every one of its dependencies: earlier in the log, or
   * among the packages known at the start. What waits at the start must list its unknown dependencies.
   */
  lemma {:induction false} DependenciesFirst(known: seq<Hash>, q: State, bs: seq<Block>)
    requires Tracked(q.rings, known)
    ensures DependencyOrdered(known, Log(q, bs))
    decreases |bs|
  {
    if bs != [] {
      var init, blk := bs[..|bs| - 1], bs[|bs| - 1];
      var log, before := Log(q, init), Run(q, init);
      DependenciesFirst(known, q, init);
      RunTracked(known, q, init);
      forall j | 0 <= j < |TakenBy(before, blk)|
        ensures Satisfied(TakenBy(before, blk)[j], Done(known, log + TakenBy(before, blk)[..j]))
      {
        BlockSatisfied(known, log, before, blk, j);
      }
      OrderedAppend(known, log, TakenBy(before, blk));
    }
  }
}
