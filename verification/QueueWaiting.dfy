/**
 * How long a report with dependencies waits: it stays in the bucket of its slot until it is accumulated or
 * twelve slots old, unless a later block takes its own predecessor to lie before that slot.
 */
module QueueWaiting {
  import opened Base
  import opened Queue
  import opened QueueRings

  /** Some entry of the bucket of slot `t` is for this report. */
  ghost predicate Waits(rings: Rings, t: nat, r: Report) {
    exists e :: e in rings.ready[t % EPOCH] && e.report == r
  }

  /** Editing removes a report exactly when its package is among those accumulated. */
  lemma EditKeeps(ps: seq<Pending>, acc: seq<Hash>, r: Report)
    ensures (exists e :: e in Edit(ps, acc) && e.report == r)
       <==> (exists p :: p in ps && p.report == r) && r.hash !in acc
  {
    if exists e :: e in Edit(ps, acc) && e.report == r {
      var e :| e in Edit(ps, acc) && e.report == r;
      EditMeaning(ps, acc, e);
    }
    if (exists p :: p in ps && p.report == r) && r.hash !in acc {
      var p :| p in ps && p.report == r;
      EditMeaning(ps, acc, Edited(p, acc));
    }
  }

  /** A slot under twelve slots ago is as many slots back as its bucket. */
  lemma AgeSince(slot: nat, t: nat)
    requires t <= slot < t + EPOCH
    ensures Age(slot, t % EPOCH) == slot - t
  {
  }

  /** A bucket filled at `t`, under twelve slots ago, is edited or emptied. */
  lemma BucketAfter(q: State, blk: Block, t: nat)
    requires Follows(q, blk) && t < blk.slot < t + EPOCH
    ensures Next(q, blk).rings.ready[t % EPOCH]
         == if t <= blk.pre then Edit(q.rings.ready[t % EPOCH], Newest(blk.slot, q.rings, blk.reports)) else []
  {
    AgeSince(blk.slot, t);
  }

  /** An entry that is not accumulated stays, edited, exactly when the predecessor is not before its queuing slot. */
  lemma EntryKeptIff(bs: seq<Block>, j: nat, q: State, blk: Block, b: Bucket, p: Pending)
    requires Follows(q, blk) && p in q.rings.ready[b] && QueuedBy(bs, j, b, p, q.last)
    requires blk.slot < bs[j].slot + EPOCH && p.report.hash !in Hashes(TakenBy(q, blk))
    ensures var newest := Newest(blk.slot, q.rings, blk.reports);
            Edited(p, newest) in Next(q, blk).rings.ready[b] <==> bs[j].slot <= blk.pre
  {
    var newest := Newest(blk.slot, q.rings, blk.reports);
    BucketAfter(q, blk, bs[j].slot);
    SortedMeaning(Hashes(TakenBy(q, blk)));
    EditMeaning(q.rings.ready[b], newest, Edited(p, newest));
  }

  /** What a block makes of a report queued at `t`, under twelve slots ago. */
  lemma KeptIff(q: State, blk: Block, t: nat, r: Report)
    requires Follows(q, blk) && t < blk.slot < t + EPOCH
    ensures Waits(Next(q, blk).rings, t, r)
       <==> Waits(q.rings, t, r) && r.hash !in Hashes(TakenBy(q, blk)) && t <= blk.pre
  {
    BucketAfter(q, blk, t);
    SortedMeaning(Hashes(TakenBy(q, blk)));
    EditKeeps(q.rings.ready[t % EPOCH], Newest(blk.slot, q.rings, blk.reports), r);
  }

  /** A report waits after the block that makes it available unless its package is accumulated by then. */
  lemma QueuedIff(q: State, blk: Block, r: Report)
    requires Follows(q, blk) && r in blk.reports && !IsImmediate(r)
    ensures Waits(Next(q, blk).rings, blk.slot, r)
       <==> r.hash !in Flat(q.rings.accumulated) && r.hash !in Hashes(TakenBy(q, blk))
  {
    AgeSince(blk.slot, blk.slot);
    SortedMeaning(Hashes(TakenBy(q, blk)));
    WaitingHas(blk.reports, r);
    EditKeeps(WaitingOf(blk.reports), Flat(q.rings.accumulated), r);
    EditKeeps(Queued(q.rings.accumulated, blk.reports), Newest(blk.slot, q.rings, blk.reports), r);
  }

  lemma WaitingHas(rs: seq<Report>, r: Report)
    ensures (exists p :: p in WaitingOf(rs) && p.report == r) <==> r in rs && !IsImmediate(r)
  {
    if r in rs && !IsImmediate(r) {
      assert Pending(r, Dependencies(r)) in WaitingOf(rs);
    }
  }

  /** No imported block of the run records a predecessor before `t`. */
  ghost predicate NoneBehind(q: State, bs: seq<Block>, t: nat) {
    forall b | b in Imports(q, bs) :: t <= b.pre
  }

  lemma {:induction false} LastRises(q: State, bs: seq<Block>)
    ensures q.last <= Run(q, bs).last
    decreases |bs|
  {
    if bs != [] {
      LastRises(q, bs[..|bs| - 1]);
    }
  }

  /** Under twelve slots, a report that waits stays exactly while it is not accumulated and none is behind. */
  lemma {:induction false} StaysIff(q: State, bs: seq<Block>, t: nat, r: Report)
    requires t <= q.last && Run(q, bs).last < t + EPOCH
    ensures Waits(Run(q, bs).rings, t, r)
       <==> Waits(q.rings, t, r) && r.hash !in Hashes(Log(q, bs)) && NoneBehind(q, bs, t)
    decreases |bs|
  {
    if bs != [] {
      var init, blk := bs[..|bs| - 1], bs[|bs| - 1];
      var before := Run(q, init);
      LastRises(q, init);
      StaysIff(q, init, t, r);
      HashesConcat(Log(q, init), TakenBy(before, blk));
      if Follows(before, blk) {
        KeptIff(before, blk, t, r);
      }
    }
  }

  /**
   * A report with dependencies that an imported block makes available waits in the bucket of that block's
   * slot, at every point of any run up to twelve slots later, exactly while its package is not accumulated
   * and no imported block has recorded a predecessor before that slot.
   */
  lemma WaitsIff(q: State, blk: Block, bs: seq<Block>, r: Report)
    requires Follows(q, blk) && r in blk.reports && !IsImmediate(r)
    requires Run(Next(q, blk), bs).last < blk.slot + EPOCH
    ensures Waits(Run(Next(q, blk), bs).rings, blk.slot, r)
       <==> && r.hash !in Flat(q.rings.accumulated)
            && r.hash !in Hashes(TakenBy(q, blk)) && r.hash !in Hashes(Log(Next(q, blk), bs))
            && NoneBehind(Next(q, blk), bs, blk.slot)
  {
    QueuedIff(q, blk, r);
    StaysIff(Next(q, blk), bs, blk.slot, r);
  }
}
