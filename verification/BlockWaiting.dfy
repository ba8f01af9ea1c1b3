/**
 * What the block step makes of waiting reports: a block whose tickets are rejected leaves the recorded slot
 * behind, and the next block then takes the bucket just filled for one that it has skipped.
 */
module BlockWaiting {
  import opened Base
  import opened Queue
  import opened QueueRings
  import opened QueueWaiting
  import opened BlockImport
  import opened BlockSafety
  import opened BlockForgetting

  /** The queue's view of a chain state, and of a block to be imported there. */
  ghost function QueueState(st: Chain): State {
    State(st.last, st.rings)
  }

  ghost function QueueBlock(st: Chain, b: ImportBlock, validators: nat): Block {
    Block(b.slot, st.timeslot, AvailableIn(st, b, validators))
  }

  ghost function QueueBlocks(st: Chain, bs: seq<ImportBlock>, validators: nat): seq<Block> {
    if bs == [] then []
    else
      var init := bs[..|bs| - 1];
      QueueBlocks(st, init, validators) + [QueueBlock(RunChain(st, init, validators), bs[|bs| - 1], validators)]
  }

  lemma StepIsQueueStep(st: Chain, b: ImportBlock, validators: nat)
    ensures Extends(st, b) <==> Follows(QueueState(st), QueueBlock(st, b, validators))
    ensures QueueState(NextChain(st, b, validators)) == Next(QueueState(st), QueueBlock(st, b, validators))
  {
  }

  /** A run of the chain is a run of the queue, so what holds of every run of the queue holds of it. */
  lemma {:induction false} RunIsQueueRun(st: Chain, bs: seq<ImportBlock>, validators: nat)
    ensures QueueState(RunChain(st, bs, validators)) == Run(QueueState(st), QueueBlocks(st, bs, validators))
    decreases |bs|
  {
    if bs != [] {
      var init, b := bs[..|bs| - 1], bs[|bs| - 1];
      var before := RunChain(st, init, validators);
      RunIsQueueRun(st, init, validators);
      LastOfRun(st, bs, validators);
      StepIsQueueStep(before, b, validators);
      var qs := QueueBlocks(st, bs, validators);
      assert qs[..|qs| - 1] == QueueBlocks(st, init, validators);
    }
  }

  /** Everything accumulated over a run of the chain, in order. */
  ghost function ChainLog(st: Chain, bs: seq<ImportBlock>, validators: nat): seq<Report> {
    Log(QueueState(st), QueueBlocks(st, bs, validators))
  }

  ghost predicate InOrder(st: Chain) {
    st.timeslot <= st.last
  }

  /** Recorded slots never fall, and neither clock moves without an import. */
  lemma {:induction false} ClocksRise(st: Chain, bs: seq<ImportBlock>, validators: nat)
    requires InOrder(st)
    ensures var now := RunChain(st, bs, validators);
            && InOrder(now) && st.timeslot <= now.timeslot && st.last <= now.last
            && (now.last == st.last ==> now == st)
    decreases |bs|
  {
    if bs != [] {
      ClocksRise(st, bs[..|bs| - 1], validators);
      LastOfRun(st, bs, validators);
    }
  }

  /** A block is behind exactly when one is imported at all, if the recorded slot is; otherwise none ever is. */
  lemma {:induction false} NoneBehindIff(st: Chain, bs: seq<ImportBlock>, validators: nat, t: nat)
    requires InOrder(st)
    ensures NoneBehind(QueueState(st), QueueBlocks(st, bs, validators), t)
       <==> t <= st.timeslot || RunChain(st, bs, validators).last == st.last
    decreases |bs|
  {
    if bs != [] {
      var init, b := bs[..|bs| - 1], bs[|bs| - 1];
      var before := RunChain(st, init, validators);
      var q, qs := QueueState(st), QueueBlocks(st, bs, validators);
      var blk := QueueBlock(before, b, validators);
      NoneBehindIff(st, init, validators, t);
      ClocksRise(st, init, validators);
      LastOfRun(st, bs, validators);
      RunIsQueueRun(st, init, validators);
      StepIsQueueStep(before, b, validators);
      assert qs[..|qs| - 1] == QueueBlocks(st, init, validators) && qs[|qs| - 1] == blk;
      NoneBehindStep(q, qs, t);
    }
  }

  lemma NoneBehindStep(q: State, qs: seq<Block>, t: nat)
    requires qs != []
    ensures NoneBehind(q, qs, t)
       <==> && NoneBehind(q, qs[..|qs| - 1], t)
            && (Follows(Run(q, qs[..|qs| - 1]), qs[|qs| - 1]) ==> t <= qs[|qs| - 1].pre)
  {
    var init, blk := qs[..|qs| - 1], qs[|qs| - 1];
    if Follows(Run(q, init), blk) {
      assert Imports(q, qs) == Imports(q, init) + [blk];
      assert blk in Imports(q, qs);
    }
  }

  /**
   * A report with dependencies that a block makes available waits, at every point of any run under twelve
   * slots later, exactly while its package is not accumulated and either that block's tickets were accepted
   * or no block has been imported since.
   */
  lemma ChainWaitsIff(st: Chain, b: ImportBlock, bs: seq<ImportBlock>, validators: nat, r: Report)
    requires Extends(st, b) && r in AvailableIn(st, b, validators) && !IsImmediate(r)
    requires RunChain(Imported(st, b, validators), bs, validators).last < b.slot + EPOCH
    ensures var next := Imported(st, b, validators); var now := RunChain(next, bs, validators);
            (Waits(now.rings, b.slot, r) <==>
             && r.hash !in Flat(st.rings.accumulated)
             && r.hash !in Hashes(Taken(b.slot, st.rings, AvailableIn(st, b, validators)))
             && r.hash !in Hashes(ChainLog(next, bs, validators))
             && (b.ticketsOk || now.last == b.slot))
  {
    var next := Imported(st, b, validators);
    StepIsQueueStep(st, b, validators);
    RunIsQueueRun(next, bs, validators);
    NoneBehindIff(next, bs, validators, b.slot);
    WaitsIff(QueueState(st), QueueBlock(st, b, validators), QueueBlocks(next, bs, validators), r);
  }

  /** Once the recorded slot lags, the next block empties the bucket of the last one, however near it is. */
  lemma LaggingWipes(st: Chain, b: ImportBlock, validators: nat)
    requires Extends(st, b) && st.timeslot < st.last && b.slot < st.last + EPOCH
    ensures NextChain(st, b, validators).rings.ready[st.last % EPOCH] == []
  {
    AgeSince(b.slot, st.last);
  }

  // ------------------------------------------------------------ a report that is lost

  /** Every waiting report and every new one still depends on `d`, which has not been accumulated. */
  ghost predicate AllHeldBy(rings: Rings, rs: seq<Report>, d: Hash) {
    && d !in Flat(rings.accumulated)
    && (forall b, e | 0 <= b < EPOCH && e in rings.ready[b] :: d in e.deps)
    && forall r | r in rs :: d in Dependencies(r)
  }

  lemma NoneReady(ps: seq<Pending>, d: Hash)
    requires forall p | p in ps :: d in p.deps
    ensures Priority(ps) == []
  {
    if ReadyOf(ps) != [] {
      ReadyMeaning(ps, ReadyOf(ps)[0]);
    }
  }

  lemma NoneImmediate(rs: seq<Report>, d: Hash)
    requires forall r | r in rs :: d in Dependencies(r)
    ensures ImmediateOf(rs) == []
  {
    forall r | r in rs
      ensures !IsImmediate(r)
    {
      assert Dependencies(r) != [];
    }
  }

  /** Then the block accumulates nothing. */
  lemma HeldBack(slot: nat, rings: Rings, rs: seq<Report>, d: Hash)
    requires AllHeldBy(rings, rs, d)
    ensures Taken(slot, rings, rs) == []
  {
    NoneImmediate(rs, d);
    var input := PriorityInput(slot, rings, rs);
    forall e | e in input
      ensures d in e.deps
    {
      EditMeaning(QueueInput(slot, rings, rs), [], e);
      var p :| p in QueueInput(slot, rings, rs) && e == Edited(p, []);
      if p in ReadyUpTo(rings.ready, slot % EPOCH, EPOCH) {
        ReadyAll(rings.ready, slot % EPOCH, p);
      } else {
        EditMeaning(WaitingOf(rs), Flat(rings.accumulated), p);
      }
    }
    NoneReady(input, d);
  }

  /** A report on core 0 that depends on package 2, a block with five of six assurances for it, and another block. */
  const HELD: Report := Report(1, [2], [], [0])
  const EMPTY: Rings := Rings(seq(EPOCH, _ => []), seq(EPOCH, _ => []))
  const ASSIGNED: Chain := Chain(0, 0, [Some(Assignment(HELD, 0)), None], EMPTY, [])
  const QUEUES: ImportBlock := ImportBlock(1, false, {}, [Vouch(0), Vouch(1), Vouch(2), Vouch(3), Vouch(4)], [])
  const FOLLOWS: ImportBlock := ImportBlock(2, true, {}, [], [])

  function Vouch(validator: nat): Assurance {
    Assurance(true, validator, true, [true, false])
  }

  lemma HeldAvailable()
    ensures AvailableIn(ASSIGNED, QUEUES, VALIDATORS_COUNT) == [HELD]
    ensures HeldOver(ASSIGNED, QUEUES, VALIDATORS_COUNT) == [None, None]
  {
    var rho, xs := ASSIGNED.rho, QUEUES.assurances;
    assert Unjudged(rho, {}) == rho;
    assert AssurancesAccepted(rho, xs, VALIDATORS_COUNT);
    assert Tally(xs, 0, 1) == 1 && Tally(xs, 0, 3) == 3 && Tally(xs, 0, 5) == 5;
    assert AvailableReports(rho, xs, VALIDATORS_COUNT, 1) == [HELD];
  }

  /** Nothing is remembered as accumulated, and at most bucket 1 holds reports. */
  ghost predicate OnlyBucketOne(rings: Rings) {
    && (forall b | 0 <= b < EPOCH :: rings.accumulated[b] == [])
    && (forall b | 0 <= b < EPOCH && b != 1 :: rings.ready[b] == [])
  }

  /** From quiet rings, a block that accumulates nothing fills its own bucket and no other. */
  lemma QuietFilled(slot: nat, pre: nat, rings: Rings, rs: seq<Report>, b: Bucket)
    requires pre <= slot && Quiet(rings) && Taken(slot, rings, rs) == []
    ensures Advance(slot, pre, rings, rs).accumulated[b] == []
    ensures Age(slot, b) != 0 ==> Advance(slot, pre, rings, rs).ready[b] == []
  {
    assert Newest(slot, rings, rs) == [];
  }

  lemma HeldTaken()
    ensures Taken(1, EMPTY, [HELD]) == []
  {
    FlatNothing(EMPTY.accumulated);
    HeldBack(1, EMPTY, [HELD], 2);
  }

  lemma HeldFills(rings: Rings)
    requires rings == Advance(1, 0, EMPTY, [HELD])
    ensures OnlyBucketOne(rings)
  {
    HeldTaken();
    forall b: Bucket
      ensures rings.accumulated[b] == [] && (b != 1 ==> rings.ready[b] == [])
    {
      QuietFilled(1, 0, EMPTY, [HELD], b);
    }
  }

  lemma HeldWaits(rings: Rings)
    requires rings == Advance(1, 0, EMPTY, [HELD])
    ensures Waits(rings, 1, HELD) && AllHeldBy(rings, [], 2)
  {
    HeldTaken();
    HeldFills(rings);
    FlatNothing(EMPTY.accumulated);
    FlatNothing(rings.accumulated);
    QueuedIff(State(0, EMPTY), Block(1, 0, [HELD]), HELD);
    forall e | e in rings.ready[1]
      ensures 2 in e.deps
    {
      var p := NewBucketMember(1, 0, EMPTY, [HELD], 1, e);
      EditMeaning(WaitingOf([HELD]), [], p);
    }
  }

  /** After the first block the report waits in bucket 1, and nothing else is anywhere. */
  lemma HeldQueued()
    ensures var queued := NextChain(ASSIGNED, QUEUES, VALIDATORS_COUNT);
            && queued.timeslot == 0 && queued.last == 1 && queued.rho == [None, None]
            && queued.rings == Advance(1, 0, EMPTY, [HELD])
  {
    HeldAvailable();
  }

  lemma NothingAvailable(st: Chain)
    requires st.rho == [None, None]
    ensures AvailableIn(st, FOLLOWS, VALIDATORS_COUNT) == [] && HeldOver(st, FOLLOWS, VALIDATORS_COUNT) == [None, None]
  {
    assert Unjudged(st.rho, {}) == st.rho;
    assert AvailableReports(st.rho, [], VALIDATORS_COUNT, 1) == [];
  }

  /** A block at slot 2 whose recorded predecessor is at 0 leaves nothing of bucket 1. */
  lemma BucketOneWiped(rings: Rings)
    requires OnlyBucketOne(rings) && Taken(2, rings, []) == []
    ensures Quiet(Advance(2, 0, rings, []))
  {
    assert Newest(2, rings, []) == [];
    assert Edit(Queued(rings.accumulated, []), []) == [];
    AgeSince(2, 1);
  }

  /** The input: the block that queues the report has its tickets rejected; a slot later the report is nowhere. */
  lemma ReportLost()
    ensures var queued := NextChain(ASSIGNED, QUEUES, VALIDATORS_COUNT);
            var after := NextChain(queued, FOLLOWS, VALIDATORS_COUNT);
            && Waits(queued.rings, 1, HELD)
            && after.last == 2 && Quiet(after.rings) && after.rho == [None, None]
  {
    var queued := NextChain(ASSIGNED, QUEUES, VALIDATORS_COUNT);
    HeldQueued();
    HeldFills(queued.rings);
    HeldWaits(queued.rings);
    NothingAvailable(queued);
    HeldBack(2, queued.rings, [], 2);
    BucketOneWiped(queued.rings);
  }
}
