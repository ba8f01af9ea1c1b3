/**
 * Over every run of blocks with rising slots and accepted assurances, the packages assigned to cores,
 * waiting, and accumulated stay pairwise disjoint and duplicate-free. It rests on the timeout of an
 * assignment (5 slots) fitting inside the history that the duplicate check consults (8 blocks).
 */
module BlockSafety {
  import opened Base
  import opened Queue
  import opened QueueRings
  import opened BlockImport

  // ------------------------------------------------------------ the rings alone

  ghost predicate InReady(ready: ReadyRing, h: Hash) {
    exists b :: 0 <= b < EPOCH && h in PendingHashes(ready[b])
  }

  ghost predicate BucketsApart(x: seq<Pending>, y: seq<Pending>) {
    forall h | h in PendingHashes(x) :: h !in PendingHashes(y)
  }

  /** No package waits twice. */
  ghost predicate ReadyDistinct(ready: ReadyRing) {
    && (forall b | 0 <= b < EPOCH :: Distinct(PendingHashes(ready[b])))
    && forall b, c | 0 <= b < EPOCH && 0 <= c < EPOCH && b != c :: BucketsApart(ready[b], ready[c])
  }

  /** No package waits twice, is remembered twice, or does both. */
  ghost predicate RingsApart(r: Rings) {
    && ReadyDistinct(r.ready)
    && Distinct(Flat(r.accumulated))
    && forall h | h in Flat(r.accumulated) :: !InReady(r.ready, h)
  }

  lemma PendingConcat(a: seq<Pending>, b: seq<Pending>)
    ensures PendingHashes(a + b) == PendingHashes(a) + PendingHashes(b)
  {
  }

  lemma {:induction false} UpToHashes(ready: ReadyRing, m: nat, n: nat, h: Hash)
    ensures h in PendingHashes(ReadyUpTo(ready, m, n))
       <==> exists k :: 0 <= k < n && h in PendingHashes(BucketAt(ready, m, k))
  {
    if n > 0 {
      UpToHashes(ready, m, n - 1, h);
      PendingConcat(ReadyUpTo(ready, m, n - 1), BucketAt(ready, m, n - 1));
    }
  }

  lemma AllHashes(ready: ReadyRing, m: nat, h: Hash)
    ensures h in PendingHashes(ReadyUpTo(ready, m, EPOCH)) <==> InReady(ready, h)
  {
    UpToHashes(ready, m, EPOCH, h);
    if InReady(ready, h) {
      var b: nat :| b < EPOCH && h in PendingHashes(ready[b]);
      var k := PlaceOf(m, b);
      assert h in PendingHashes(BucketAt(ready, m, k));
    }
    if exists k :: 0 <= k < EPOCH && h in PendingHashes(BucketAt(ready, m, k)) {
      var k: nat :| k < EPOCH && h in PendingHashes(BucketAt(ready, m, k));
      assert h in PendingHashes(ready[(m + k) % EPOCH]);
    }
  }

  lemma {:induction false} UpToDistinct(ready: ReadyRing, m: nat, n: nat)
    requires ReadyDistinct(ready) && n <= EPOCH
    ensures Distinct(PendingHashes(ReadyUpTo(ready, m, n)))
  {
    if n > 0 {
      var before, last := ReadyUpTo(ready, m, n - 1), BucketAt(ready, m, n - 1);
      UpToDistinct(ready, m, n - 1);
      PendingConcat(before, last);
      forall h | h in PendingHashes(before)
        ensures h !in PendingHashes(last)
      {
        UpToHashes(ready, m, n - 1, h);
        var k :| 0 <= k < n - 1 && h in PendingHashes(BucketAt(ready, m, k));
        OtherBucket(m, k, n - 1);
        assert BucketsApart(ready[(m + k) % EPOCH], ready[(m + (n - 1)) % EPOCH]);
      }
      DistinctJoin(PendingHashes(before), PendingHashes(last));
    }
  }

  lemma OtherBucket(m: nat, j: nat, k: nat)
    requires j < k < EPOCH
    ensures (m + j) % EPOCH != (m + k) % EPOCH
  {
  }

  lemma {:induction false} ImmediateDistinct(rs: seq<Report>)
    requires Distinct(Hashes(rs))
    ensures Distinct(Hashes(ImmediateOf(rs)))
    ensures forall h | h in Hashes(ImmediateOf(rs)) :: h in Hashes(rs)
    decreases |rs|
  {
    if rs != [] {
      var h, rest := rs[0].hash, rs[1..];
      assert rs == [rs[0]] + rest;
      HashesCons(rs[0], rest);
      DistinctCons(h, Hashes(rest));
      ImmediateDistinct(rest);
      if IsImmediate(rs[0]) {
        HashesCons(rs[0], ImmediateOf(rest));
        DistinctCons(h, Hashes(ImmediateOf(rest)));
      }
    }
  }

  lemma {:induction false} WaitingDistinct(rs: seq<Report>)
    requires Distinct(Hashes(rs))
    ensures Distinct(PendingHashes(WaitingOf(rs)))
    ensures forall h | h in PendingHashes(WaitingOf(rs)) :: h in Hashes(rs)
    decreases |rs|
  {
    if rs != [] {
      var h, rest := rs[0].hash, rs[1..];
      assert rs == [rs[0]] + rest;
      HashesCons(rs[0], rest);
      DistinctCons(h, Hashes(rest));
      WaitingDistinct(rest);
      if !IsImmediate(rs[0]) {
        PendingCons(WaitingOf(rs)[0], WaitingOf(rest));
        DistinctCons(h, PendingHashes(WaitingOf(rest)));
      }
    }
  }

  /** Reports just made available: distinct packages, neither waiting nor remembered. */
  ghost predicate FreshReports(r: Rings, rs: seq<Report>) {
    && Distinct(Hashes(rs))
    && forall h | h in Hashes(rs) :: h !in Flat(r.accumulated) && !InReady(r.ready, h)
  }

  lemma QueuedFresh(r: Rings, rs: seq<Report>)
    requires FreshReports(r, rs)
    ensures Distinct(PendingHashes(Queued(r.accumulated, rs)))
    ensures forall h | h in PendingHashes(Queued(r.accumulated, rs)) :: h in Hashes(rs)
  {
    WaitingDistinct(rs);
    EditDistinct(WaitingOf(rs), Flat(r.accumulated));
    forall h | h in PendingHashes(Queued(r.accumulated, rs))
      ensures h in Hashes(rs)
    {
      EditHashes(WaitingOf(rs), Flat(r.accumulated), h);
    }
  }

  lemma InputDistinct(slot: nat, r: Rings, rs: seq<Report>)
    requires RingsApart(r) && FreshReports(r, rs)
    ensures Distinct(PendingHashes(QueueInput(slot, r, rs)))
    ensures forall h | h in PendingHashes(QueueInput(slot, r, rs)) :: h in Hashes(rs) || InReady(r.ready, h)
  {
    var old_, new_ := ReadyUpTo(r.ready, slot % EPOCH, EPOCH), Queued(r.accumulated, rs);
    UpToDistinct(r.ready, slot % EPOCH, EPOCH);
    QueuedFresh(r, rs);
    PendingConcat(old_, new_);
    forall h | h in PendingHashes(old_)
      ensures InReady(r.ready, h) && h !in PendingHashes(new_)
    {
      AllHashes(r.ready, slot % EPOCH, h);
    }
    DistinctJoin(PendingHashes(old_), PendingHashes(new_));
  }

  /** What a block accumulates: each package once, available now or waiting before, none remembered. */
  lemma CandidatesFresh(slot: nat, r: Rings, rs: seq<Report>)
    requires RingsApart(r) && FreshReports(r, rs)
    ensures Distinct(Hashes(Candidates(slot, r, rs)))
    ensures forall h | h in Hashes(Candidates(slot, r, rs)) ::
              (h in Hashes(rs) || InReady(r.ready, h)) && h !in Flat(r.accumulated)
  {
    var now, input := ImmediateOf(rs), PriorityInput(slot, r, rs);
    InputDistinct(slot, r, rs);
    ImmediateDistinct(rs);
    EditDistinct(QueueInput(slot, r, rs), Hashes(now));
    PriorityDistinct(input);
    HashesConcat(now, Priority(input));
    forall h | h in Hashes(Priority(input))
      ensures h !in Hashes(now) && (h in Hashes(rs) || InReady(r.ready, h))
    {
      EditHashes(QueueInput(slot, r, rs), Hashes(now), h);
    }
    DistinctJoin(Hashes(now), Hashes(Priority(input)));
  }

  lemma TakenFresh(slot: nat, r: Rings, rs: seq<Report>)
    requires RingsApart(r) && FreshReports(r, rs)
    ensures Distinct(Hashes(Taken(slot, r, rs)))
    ensures forall h | h in Hashes(Taken(slot, r, rs)) ::
              (h in Hashes(rs) || InReady(r.ready, h)) && h !in Flat(r.accumulated)
  {
    CandidatesFresh(slot, r, rs);
    var c, t := Hashes(Candidates(slot, r, rs)), Hashes(Taken(slot, r, rs));
    assert t == c[..|t|];
  }

  lemma DistinctPermuted(a: seq<Hash>, b: seq<Hash>)
    requires Distinct(a) && multiset(a) == multiset(b)
    ensures Distinct(b)
  {
    forall i, j | 0 <= i < j < |b|
      ensures b[i] != b[j]
    {
      if b[i] == b[j] {
        OccursTwice(b, i, j);
        OnceInDistinct(a, b[i]);
      }
    }
  }

  lemma OccursTwice(b: seq<Hash>, i: nat, j: nat)
    requires i < j < |b| && b[i] == b[j]
    ensures multiset(b)[b[i]] >= 2
  {
    assert b == b[..j] + [b[j]] + b[j + 1..];
    assert b[i] in b[..j];
  }

  lemma {:induction false} OnceInDistinct(a: seq<Hash>, h: Hash)
    requires Distinct(a)
    ensures multiset(a)[h] <= 1
    decreases |a|
  {
    if a != [] {
      assert a == [a[0]] + a[1..];
      DistinctSplit([a[0]], a[1..]);
      OnceInDistinct(a[1..], h);
    }
  }

  lemma {:induction false} FlatTail(ring: seq<seq<Hash>>)
    requires ring != []
    ensures Flat(ring) == ring[0] + Flat(ring[1..])
    decreases |ring|
  {
    if |ring| == 1 {
      assert Flat(ring[..0]) == [] && ring[1..] == [];
    } else {
      var init, tail := ring[..|ring| - 1], ring[1..];
      FlatTail(init);
      assert tail[..|tail| - 1] == init[1..] && tail[|tail| - 1] == ring[|ring| - 1];
      assert (ring[0] + Flat(init[1..])) + ring[|ring| - 1] == ring[0] + (Flat(init[1..]) + ring[|ring| - 1]);
    }
  }

  lemma NewAccumulated(slot: nat, pre: nat, r: Rings, rs: seq<Report>)
    requires pre <= slot && RingsApart(r) && FreshReports(r, rs)
    ensures Distinct(Flat(Advance(slot, pre, r, rs).accumulated))
  {
    var taken := Hashes(Taken(slot, r, rs));
    TakenFresh(slot, r, rs);
    ShiftedDistinct(r.accumulated, taken);
  }

  lemma ShiftedDistinct(ring: AccRing, taken: seq<Hash>)
    requires Distinct(Flat(ring)) && Distinct(taken) && forall h | h in taken :: h !in Flat(ring)
    ensures Distinct(Flat(ring[1..] + [Sorted(taken)]))
  {
    var shifted := ring[1..] + [Sorted(taken)];
    assert shifted[..|shifted| - 1] == ring[1..];
    SortedMeaning(taken);
    DistinctPermuted(taken, Sorted(taken));
    FlatTail(ring);
    DistinctSplit(ring[0], Flat(ring[1..]));
    DistinctJoin(Flat(ring[1..]), Sorted(taken));
  }

  /** Where the waiting packages of a bucket come from. */
  lemma BucketHashes(slot: nat, pre: nat, r: Rings, rs: seq<Report>, b: Bucket, h: Hash)
    requires pre <= slot && h in PendingHashes(Advance(slot, pre, r, rs).ready[b])
    ensures h !in Hashes(Taken(slot, r, rs))
    ensures if Age(slot, b) == 0 then h in PendingHashes(Queued(r.accumulated, rs)) else h in PendingHashes(r.ready[b])
  {
    SortedMeaning(Hashes(Taken(slot, r, rs)));
    EditHashes(if Age(slot, b) == 0 then Queued(r.accumulated, rs) else r.ready[b], Newest(slot, r, rs), h);
  }

  lemma AgeZero(slot: nat, b: Bucket, c: nat)
    requires c < EPOCH && b != c
    ensures Age(slot, b) != 0 || Age(slot, c) != 0
  {
  }

  lemma NewReadyDistinct(slot: nat, pre: nat, r: Rings, rs: seq<Report>)
    requires pre <= slot && RingsApart(r) && FreshReports(r, rs)
    ensures ReadyDistinct(Advance(slot, pre, r, rs).ready)
  {
    var next, newest := Advance(slot, pre, r, rs).ready, Newest(slot, r, rs);
    QueuedFresh(r, rs);
    forall b | 0 <= b < EPOCH
      ensures Distinct(PendingHashes(next[b]))
    {
      EditDistinct(if Age(slot, b) == 0 then Queued(r.accumulated, rs) else r.ready[b], newest);
    }
    forall b, c | 0 <= b < EPOCH && 0 <= c < EPOCH && b != c
      ensures BucketsApart(next[b], next[c])
    {
      AgeZero(slot, b, c);
      assert BucketsApart(r.ready[b], r.ready[c]);
      forall h | h in PendingHashes(next[b])
        ensures h !in PendingHashes(next[c])
      {
        BucketHashes(slot, pre, r, rs, b, h);
        if h in PendingHashes(next[c]) {
          BucketHashes(slot, pre, r, rs, c, h);
        }
      }
    }
  }

  /** Every package in the rings after a block was available now, or in the rings before. */
  lemma AdvanceSources(slot: nat, pre: nat, r: Rings, rs: seq<Report>, h: Hash)
    requires pre <= slot && RingsApart(r) && FreshReports(r, rs)
    requires h in Flat(Advance(slot, pre, r, rs).accumulated) || InReady(Advance(slot, pre, r, rs).ready, h)
    ensures h in Hashes(rs) || InReady(r.ready, h) || h in Flat(r.accumulated)
  {
    var next := Advance(slot, pre, r, rs);
    AccumulatedAfter(slot, pre, r, rs, h);
    TakenFresh(slot, r, rs);
    if InReady(next.ready, h) {
      var b: nat :| b < EPOCH && h in PendingHashes(next.ready[b]);
      BucketHashes(slot, pre, r, rs, b, h);
      QueuedFresh(r, rs);
    }
  }

  /** The queue step keeps the rings apart. */
  lemma AdvanceApart(slot: nat, pre: nat, r: Rings, rs: seq<Report>)
    requires pre <= slot && RingsApart(r) && FreshReports(r, rs)
    ensures RingsApart(Advance(slot, pre, r, rs))
  {
    var next := Advance(slot, pre, r, rs);
    NewReadyDistinct(slot, pre, r, rs);
    NewAccumulated(slot, pre, r, rs);
    forall h | h in Flat(next.accumulated)
      ensures !InReady(next.ready, h)
    {
      AccumulatedAfter(slot, pre, r, rs, h);
      if InReady(next.ready, h) {
        var b: nat :| b < EPOCH && h in PendingHashes(next.ready[b]);
        BucketHashes(slot, pre, r, rs, b, h);
        QueuedFresh(r, rs);
      }
    }
  }

  // ------------------------------------------------------------ the chain

  ghost predicate Assigned(rho: Assignments, h: Hash) {
    exists c :: 0 <= c < CORE_COUNT && rho[c].Some? && rho[c].value.report.hash == h
  }

  ghost predicate CoresDistinct(rho: Assignments) {
    forall c, d | 0 <= c < CORE_COUNT && 0 <= d < CORE_COUNT && c != d && rho[c].Some? && rho[d].Some? ::
      rho[c].value.report.hash != rho[d].value.report.hash
  }

  /** No package is in two places, or twice in one. */
  ghost predicate Apart(st: Chain) {
    && RingsApart(st.rings)
    && CoresDistinct(st.rho)
    && forall h | Assigned(st.rho, h) :: h !in Flat(st.rings.accumulated) && !InReady(st.rings.ready, h)
  }

  /** The assignment was reported `k` blocks ago, no longer ago than its age in slots, and is not stale. */
  ghost predicate RememberedAt(st: Chain, a: Assignment, k: nat) {
    && a.timeout <= st.last < a.timeout + ASSURANCE_TIMEOUT
    && k < |st.history| && k <= st.last - a.timeout
    && a.report.hash in st.history[|st.history| - 1 - k]
  }

  /** Every assignment is young enough to be in the history still. */
  ghost predicate Remembered(st: Chain) {
    forall c | 0 <= c < CORE_COUNT && st.rho[c].Some? :: exists k: nat :: RememberedAt(st, st.rho[c].value, k)
  }

  ghost predicate GasBounded(st: Chain) {
    forall c | 0 <= c < CORE_COUNT && st.rho[c].Some? :: GasTotal(st.rho[c].value.report.gas) <= REPORT_ACC_GAS
  }

  ghost predicate Safe(st: Chain) {
    Apart(st) && Remembered(st) && GasBounded(st) && st.timeslot <= st.last
  }

  ghost predicate Accepts(st: Chain, b: ImportBlock, validators: nat) {
    AssurancesAccepted(Unjudged(st.rho, b.judged), b.assurances, validators)
  }

  lemma {:induction false} AvailableFrom(rho: Assignments, xs: seq<Assurance>, validators: nat, n: nat)
    requires n <= CORE_COUNT && CoresDistinct(rho)
    ensures |AvailableReports(rho, xs, validators, n)| <= n
    ensures Distinct(Hashes(AvailableReports(rho, xs, validators, n)))
    ensures forall r | r in AvailableReports(rho, xs, validators, n) ::
              exists c :: 0 <= c < n && Available(rho, xs, validators, c) && r == rho[c].value.report
  {
    if n > 0 {
      AvailableFrom(rho, xs, validators, n - 1);
      if Available(rho, xs, validators, n - 1) {
        var before, r := AvailableReports(rho, xs, validators, n - 1), rho[n - 1].value.report;
        HashesConcat(before, [r]);
        forall h | h in Hashes(before)
          ensures h !in Hashes([r])
        {
          var i :| 0 <= i < |before| && Hashes(before)[i] == h;
          assert before[i] in before;
        }
        DistinctJoin(Hashes(before), Hashes([r]));
      }
    }
  }

  /** Available reports and held-over assignments partition what was assigned; held-over ones are not stale. */
  lemma StepParts(st: Chain, b: ImportBlock, validators: nat)
    requires CoresDistinct(st.rho)
    ensures |AvailableIn(st, b, validators)| <= CORE_COUNT && Distinct(Hashes(AvailableIn(st, b, validators)))
    ensures forall r | r in AvailableIn(st, b, validators) ::
              exists c :: 0 <= c < CORE_COUNT && st.rho[c].Some? && r == st.rho[c].value.report
    ensures forall r | r in AvailableIn(st, b, validators) :: !Assigned(HeldOver(st, b, validators), r.hash)
    ensures forall c | 0 <= c < CORE_COUNT && HeldOver(st, b, validators)[c].Some? ::
              HeldOver(st, b, validators)[c] == st.rho[c]
              && (Accepts(st, b, validators) ==> b.slot < st.rho[c].value.timeout + ASSURANCE_TIMEOUT)
  {
    var rho := Unjudged(st.rho, b.judged);
    AvailableFrom(rho, b.assurances, validators, CORE_COUNT);
    if Accepts(st, b, validators) {
      var held := Remaining(rho, b.assurances, validators, b.slot);
      forall r | r in AvailableIn(st, b, validators)
        ensures !Assigned(held, r.hash)
        ensures exists c :: 0 <= c < CORE_COUNT && st.rho[c].Some? && r == st.rho[c].value.report
      {
        var c :| 0 <= c < CORE_COUNT && Available(rho, b.assurances, validators, c) && r == rho[c].value.report;
        assert st.rho[c].Some? && held[c].None?;
      }
    }
  }

  lemma AvailableAssigned(st: Chain, b: ImportBlock, validators: nat, h: Hash)
    requires CoresDistinct(st.rho) && h in Hashes(AvailableIn(st, b, validators))
    ensures Assigned(st.rho, h) && !Assigned(HeldOver(st, b, validators), h)
  {
    var rs := AvailableIn(st, b, validators);
    StepParts(st, b, validators);
    var i :| 0 <= i < |rs| && Hashes(rs)[i] == h;
    assert rs[i] in rs;
  }

  /** Which cores the guarantees step fills, and with what. */
  lemma {:induction false} AssignEffect(rho: Assignments, gs: seq<Guarantee>, slot: nat, c: Core)
    requires forall i, j | 0 <= i < j < |gs| :: gs[i].core < gs[j].core
    ensures (forall i | 0 <= i < |gs| :: gs[i].core != c) ==> Assign(rho, gs, slot)[c] == rho[c]
    ensures forall i | 0 <= i < |gs| && gs[i].core == c ::
              Assign(rho, gs, slot)[c] == Some(Assignment(gs[i].report, slot))
    decreases |gs|
  {
    if gs != [] {
      var init := gs[..|gs| - 1];
      AssignEffect(rho, init, slot, c);
      forall i | 0 <= i < |gs| && gs[i].core == c
        ensures Assign(rho, gs, slot)[c] == Some(Assignment(gs[i].report, slot))
      {
        if i < |init| {
          assert init[i].core == c && gs[i].core < gs[|gs| - 1].core;
        }
      }
    }
  }

  /** After the guarantees step a core holds what was held over, or one of the accepted guarantees. */
  lemma GuaranteeCases(
    held: Assignments, gs: seq<Guarantee>, known: seq<Hash>, history: seq<seq<Hash>>, slot: nat, c: Core)
    ensures var post := GuaranteesStep(held, gs, known, history, slot);
            || post[c] == held[c]
            || (GuaranteesAccepted(held, gs, known, history)
                && exists i :: 0 <= i < |gs| && gs[i].core == c && post[c] == Some(Assignment(gs[i].report, slot)))
  {
    if GuaranteesAccepted(held, gs, known, history) {
      AssignEffect(held, gs, slot, c);
      if exists i :: 0 <= i < |gs| && gs[i].core == c {
        var i :| 0 <= i < |gs| && gs[i].core == c;
        assert GuaranteesStep(held, gs, known, history, slot)[c] == Some(Assignment(gs[i].report, slot));
      }
    }
  }

  /** No accepted guarantee names a package still assigned or just made available. */
  ghost predicate NewPackages(st: Chain, b: ImportBlock, validators: nat) {
    GuaranteesAccepted(HeldOver(st, b, validators), b.guarantees, KnownPackages(st.rings), st.history) ==>
      forall i | 0 <= i < |b.guarantees| ::
        !Assigned(HeldOver(st, b, validators), b.guarantees[i].report.hash)
        && b.guarantees[i].report.hash !in Hashes(AvailableIn(st, b, validators))
  }

  lemma KnownMeaning(rings: Rings, h: Hash)
    ensures h in KnownPackages(rings) <==> h in Flat(rings.accumulated) || InReady(rings.ready, h)
  {
    AllHashes(rings.ready, 0, h);
  }

  lemma AvailableFresh(st: Chain, b: ImportBlock, validators: nat)
    requires Apart(st)
    ensures FreshReports(st.rings, AvailableIn(st, b, validators))
  {
    StepParts(st, b, validators);
    forall h | h in Hashes(AvailableIn(st, b, validators))
      ensures h !in Flat(st.rings.accumulated) && !InReady(st.rings.ready, h)
    {
      AvailableAssigned(st, b, validators, h);
    }
  }

  /** With new packages only, the block keeps everything apart. */
  lemma StepApart(st: Chain, b: ImportBlock, validators: nat)
    requires Extends(st, b) && Apart(st) && NewPackages(st, b, validators)
    ensures Apart(Imported(st, b, validators))
  {
    var rs, held, post := AvailableIn(st, b, validators), HeldOver(st, b, validators), Imported(st, b, validators);
    AvailableFresh(st, b, validators);
    AdvanceApart(b.slot, st.timeslot, st.rings, rs);
    StepCores(st, b, validators);
    forall h | Assigned(post.rho, h)
      ensures h !in Flat(post.rings.accumulated) && !InReady(post.rings.ready, h)
    {
      var c: nat :| c < CORE_COUNT && post.rho[c].Some? && post.rho[c].value.report.hash == h;
      PostSource(st, b, validators, c);
      if h in Flat(post.rings.accumulated) || InReady(post.rings.ready, h) {
        AdvanceSources(b.slot, st.timeslot, st.rings, rs, h);
      }
    }
  }

  /** A core's package after the block is neither known, nor just made available. */
  lemma PostSource(st: Chain, b: ImportBlock, validators: nat, c: Core)
    requires Extends(st, b) && Apart(st) && NewPackages(st, b, validators)
    requires Imported(st, b, validators).rho[c].Some?
    ensures var h := Imported(st, b, validators).rho[c].value.report.hash;
            && h !in Hashes(AvailableIn(st, b, validators))
            && h !in Flat(st.rings.accumulated) && !InReady(st.rings.ready, h)
  {
    var held := HeldOver(st, b, validators);
    var h := Imported(st, b, validators).rho[c].value.report.hash;
    GuaranteeCases(held, b.guarantees, KnownPackages(st.rings), st.history, b.slot, c);
    StepParts(st, b, validators);
    KnownMeaning(st.rings, h);
    if Imported(st, b, validators).rho[c] == held[c] {
      assert Assigned(held, h) && Assigned(st.rho, h);
      if h in Hashes(AvailableIn(st, b, validators)) {
        AvailableAssigned(st, b, validators, h);
      }
    }
  }

  lemma StepCores(st: Chain, b: ImportBlock, validators: nat)
    requires Extends(st, b) && Apart(st) && NewPackages(st, b, validators)
    ensures CoresDistinct(Imported(st, b, validators).rho)
  {
    var held, post := HeldOver(st, b, validators), Imported(st, b, validators).rho;
    StepParts(st, b, validators);
    forall c, d | 0 <= c < CORE_COUNT && 0 <= d < CORE_COUNT && c != d && post[c].Some? && post[d].Some?
      ensures post[c].value.report.hash != post[d].value.report.hash
    {
      GuaranteeCases(held, b.guarantees, KnownPackages(st.rings), st.history, b.slot, c);
      GuaranteeCases(held, b.guarantees, KnownPackages(st.rings), st.history, b.slot, d);
      assert held[c].Some? ==> Assigned(held, held[c].value.report.hash);
      assert held[d].Some? ==> Assigned(held, held[d].value.report.hash);
    }
  }

  lemma {:induction false} GasReadings(gas: seq<u64>)
    requires GasTotal(gas) <= REPORT_ACC_GAS
    ensures GasSum(gas) == GasTotal(gas)
  {
    if gas != [] {
      GasReadings(gas[..|gas| - 1]);
    }
  }

  /** What has just become available is waiting or accumulated after the block: the gas budget cuts none of it off. */
  lemma AvailableLands(slot: nat, pre: nat, r: Rings, rs: seq<Report>, x: Report)
    requires pre <= slot && FreshReports(r, rs) && x in rs
    requires |rs| <= CORE_COUNT && forall y | y in rs :: GasTotal(y.gas) <= REPORT_ACC_GAS
    ensures x.hash in Flat(Advance(slot, pre, r, rs).accumulated) || InReady(Advance(slot, pre, r, rs).ready, x.hash)
  {
    AccumulatedAfter(slot, pre, r, rs, x.hash);
    if IsImmediate(x) {
      ImmediateTaken(slot, r, rs, x);
    } else if x.hash !in Hashes(Taken(slot, r, rs)) {
      WaitingStays(slot, pre, r, rs, x);
    }
  }

  lemma ImmediateTaken(slot: nat, r: Rings, rs: seq<Report>, x: Report)
    requires x in rs && IsImmediate(x)
    requires |rs| <= CORE_COUNT && forall y | y in rs :: GasTotal(y.gas) <= REPORT_ACC_GAS
    ensures x.hash in Hashes(Taken(slot, r, rs))
  {
    forall y | y in rs
      ensures 0 <= GasSum(y.gas) <= REPORT_ACC_GAS
    {
      GasReadings(y.gas);
    }
    ImmediateNeverCut(slot, r, rs);
    assert x in ImmediateOf(rs);
  }

  lemma WaitingStays(slot: nat, pre: nat, r: Rings, rs: seq<Report>, x: Report)
    requires pre <= slot && x in rs && !IsImmediate(x)
    requires x.hash !in Flat(r.accumulated) && x.hash !in Hashes(Taken(slot, r, rs))
    ensures InReady(Advance(slot, pre, r, rs).ready, x.hash)
  {
    var waiting := WaitingOf(rs);
    assert Pending(x, Dependencies(x)) in waiting;
    var i :| 0 <= i < |waiting| && waiting[i] == Pending(x, Dependencies(x));
    assert PendingHashes(waiting)[i] == x.hash;
    EditHashes(waiting, Flat(r.accumulated), x.hash);
    EditHashes(Queued(r.accumulated, rs), Newest(slot, r, rs), x.hash);
    SortedMeaning(Hashes(Taken(slot, r, rs)));
    assert Age(slot, slot % EPOCH) == 0;
    assert x.hash in PendingHashes(Advance(slot, pre, r, rs).ready[slot % EPOCH]);
  }

  lemma AvailableBounded(st: Chain, b: ImportBlock, validators: nat)
    requires Apart(st) && GasBounded(st)
    ensures |AvailableIn(st, b, validators)| <= CORE_COUNT
    ensures forall y | y in AvailableIn(st, b, validators) :: GasTotal(y.gas) <= REPORT_ACC_GAS
  {
    StepParts(st, b, validators);
  }

  /** Where an accepted guarantee's report goes. */
  lemma GuaranteeLands(st: Chain, b: ImportBlock, validators: nat, i: nat)
    requires Extends(st, b) && i < |b.guarantees|
    requires GuaranteesAccepted(HeldOver(st, b, validators), b.guarantees, KnownPackages(st.rings), st.history)
    ensures Imported(st, b, validators).rho[b.guarantees[i].core] == Some(Assignment(b.guarantees[i].report, b.slot))
  {
    AssignEffect(HeldOver(st, b, validators), b.guarantees, b.slot, b.guarantees[i].core);
  }

  lemma HeldStays(st: Chain, b: ImportBlock, validators: nat, c: Core)
    requires Extends(st, b) && HeldOver(st, b, validators)[c].Some?
    ensures Imported(st, b, validators).rho[c] == HeldOver(st, b, validators)[c]
  {
    GuaranteeCases(HeldOver(st, b, validators), b.guarantees, KnownPackages(st.rings), st.history, b.slot, c);
  }

  /** An accepted guarantee for a package still on a core puts it on a second core. */
  lemma RepeatedHeld(st: Chain, b: ImportBlock, validators: nat, i: nat)
    requires Extends(st, b) && i < |b.guarantees|
    requires GuaranteesAccepted(HeldOver(st, b, validators), b.guarantees, KnownPackages(st.rings), st.history)
    requires Assigned(HeldOver(st, b, validators), b.guarantees[i].report.hash)
    ensures !CoresDistinct(Imported(st, b, validators).rho)
  {
    var held, g := HeldOver(st, b, validators), b.guarantees[i];
    var c: nat :| c < CORE_COUNT && held[c].Some? && held[c].value.report.hash == g.report.hash;
    GuaranteeLands(st, b, validators, i);
    HeldStays(st, b, validators, c);
    assert c != g.core;
  }

  /** An accepted guarantee for a package just made available puts it on a core while it is queued or accumulated. */
  lemma RepeatedAvailable(st: Chain, b: ImportBlock, validators: nat, i: nat)
    requires Extends(st, b) && Apart(st) && GasBounded(st) && i < |b.guarantees|
    requires GuaranteesAccepted(HeldOver(st, b, validators), b.guarantees, KnownPackages(st.rings), st.history)
    requires b.guarantees[i].report.hash in Hashes(AvailableIn(st, b, validators))
    ensures Assigned(Imported(st, b, validators).rho, b.guarantees[i].report.hash)
    ensures var h, rings := b.guarantees[i].report.hash, Imported(st, b, validators).rings;
            h in Flat(rings.accumulated) || InReady(rings.ready, h)
  {
    var rs, g := AvailableIn(st, b, validators), b.guarantees[i];
    var j :| 0 <= j < |rs| && Hashes(rs)[j] == g.report.hash;
    GuaranteeLands(st, b, validators, i);
    AvailableFresh(st, b, validators);
    AvailableBounded(st, b, validators);
    AvailableLands(b.slot, st.timeslot, st.rings, rs, rs[j]);
  }

  /** Exactly: a block keeps everything apart when and only when no accepted guarantee repeats such a package. */
  lemma StepApartIff(st: Chain, b: ImportBlock, validators: nat)
    requires Extends(st, b) && Apart(st) && GasBounded(st)
    ensures Apart(Imported(st, b, validators)) <==> NewPackages(st, b, validators)
  {
    if NewPackages(st, b, validators) {
      StepApart(st, b, validators);
    } else {
      var i :| 0 <= i < |b.guarantees|
        && (Assigned(HeldOver(st, b, validators), b.guarantees[i].report.hash)
            || b.guarantees[i].report.hash in Hashes(AvailableIn(st, b, validators)));
      if Assigned(HeldOver(st, b, validators), b.guarantees[i].report.hash) {
        RepeatedHeld(st, b, validators, i);
      } else {
        RepeatedAvailable(st, b, validators, i);
      }
    }
  }

  // ------------------------------------------------------------ the window

  /** The history remembers every assigned package, so the duplicate check lets none of them in again. */
  lemma RememberedGivesNew(st: Chain, b: ImportBlock, validators: nat)
    requires Remembered(st) && CoresDistinct(st.rho)
    ensures NewPackages(st, b, validators)
  {
    var held := HeldOver(st, b, validators);
    StepParts(st, b, validators);
    if GuaranteesAccepted(held, b.guarantees, KnownPackages(st.rings), st.history) {
      forall i | 0 <= i < |b.guarantees|
        ensures !Assigned(held, b.guarantees[i].report.hash)
        ensures b.guarantees[i].report.hash !in Hashes(AvailableIn(st, b, validators))
      {
        var h := b.guarantees[i].report.hash;
        NotRemembered(st, h);
        if h in Hashes(AvailableIn(st, b, validators)) {
          AvailableAssigned(st, b, validators, h);
        }
      }
    }
  }

  lemma NotRemembered(st: Chain, h: Hash)
    requires Remembered(st) && h !in Flat(st.history)
    ensures !Assigned(st.rho, h)
  {
    if Assigned(st.rho, h) {
      var c :| 0 <= c < CORE_COUNT && st.rho[c].Some? && st.rho[c].value.report.hash == h;
      var k: nat :| RememberedAt(st, st.rho[c].value, k);
      FlatMeaning(st.history, h);
    }
  }

  /** Accepted assurances clear what is stale, so the timeout keeps every assignment inside the window. */
  lemma StepRemembered(st: Chain, b: ImportBlock, validators: nat)
    requires Extends(st, b) && Remembered(st) && CoresDistinct(st.rho) && Accepts(st, b, validators)
    ensures Remembered(Imported(st, b, validators))
  {
    var held, post := HeldOver(st, b, validators), Imported(st, b, validators);
    StepParts(st, b, validators);
    forall c | 0 <= c < CORE_COUNT && post.rho[c].Some?
      ensures exists k: nat :: RememberedAt(post, post.rho[c].value, k)
    {
      GuaranteeCases(held, b.guarantees, KnownPackages(st.rings), st.history, b.slot, c);
      if post.rho[c] == held[c] {
        var k: nat :| RememberedAt(st, st.rho[c].value, k);
        HeldStaysRemembered(st, b, validators, held[c].value, k);
      } else {
        var i :| 0 <= i < |b.guarantees| && post.rho[c] == Some(Assignment(b.guarantees[i].report, b.slot));
        NewIsRemembered(st, b, validators, i);
      }
    }
  }

  /** A block adds one entry to the history and at least one to the slot: what is not stale stays in view. */
  lemma HeldStaysRemembered(st: Chain, b: ImportBlock, validators: nat, a: Assignment, k: nat)
    requires Extends(st, b) && RememberedAt(st, a, k) && b.slot < a.timeout + ASSURANCE_TIMEOUT
    ensures RememberedAt(Imported(st, b, validators), a, k + 1)
  {
    NextHistoryAt(st.history, b.guarantees, k);
  }

  lemma NewestHistory(history: seq<seq<Hash>>, gs: seq<Guarantee>, i: nat)
    requires i < |gs|
    ensures var next := NextHistory(history, gs); |next| > 0 && gs[i].report.hash in next[|next| - 1]
  {
    SortedMeaning(ReportedHashes(gs));
    assert ReportedHashes(gs)[i] == gs[i].report.hash;
  }

  lemma NewIsRemembered(st: Chain, b: ImportBlock, validators: nat, i: nat)
    requires Extends(st, b) && i < |b.guarantees|
    ensures RememberedAt(Imported(st, b, validators), Assignment(b.guarantees[i].report, b.slot), 0)
  {
    NewestHistory(st.history, b.guarantees, i);
  }

  /** Entry `k` from the end is entry `k + 1` from the end one block later, until eight blocks have passed. */
  lemma NextHistoryAt(history: seq<seq<Hash>>, gs: seq<Guarantee>, k: nat)
    requires k < |history| && k + 1 < MAX_HISTORY
    ensures var next := NextHistory(history, gs);
            k + 1 < |next| && next[|next| - 2 - k] == history[|history| - 1 - k]
  {
  }

  lemma StepGasBounded(st: Chain, b: ImportBlock, validators: nat)
    requires Extends(st, b) && GasBounded(st) && CoresDistinct(st.rho)
    ensures GasBounded(Imported(st, b, validators))
  {
    var held, post := HeldOver(st, b, validators), Imported(st, b, validators);
    StepParts(st, b, validators);
    forall c | 0 <= c < CORE_COUNT && post.rho[c].Some?
      ensures GasTotal(post.rho[c].value.report.gas) <= REPORT_ACC_GAS
    {
      GuaranteeCases(held, b.guarantees, KnownPackages(st.rings), st.history, b.slot, c);
    }
  }

  /** One block with accepted assurances keeps the chain safe. */
  lemma StepSafe(st: Chain, b: ImportBlock, validators: nat)
    requires Extends(st, b) && Safe(st) && Accepts(st, b, validators)
    ensures Safe(Imported(st, b, validators))
  {
    RememberedGivesNew(st, b, validators);
    StepApart(st, b, validators);
    StepRemembered(st, b, validators);
    StepGasBounded(st, b, validators);
  }

  // ------------------------------------------------------------ runs

  /** A block whose slot does not rise is not imported. */
  ghost function NextChain(st: Chain, b: ImportBlock, validators: nat): Chain {
    if Extends(st, b) then Imported(st, b, validators) else st
  }

  ghost function Importer(validators: nat): (Chain, ImportBlock) -> Chain {
    (st: Chain, b: ImportBlock) => NextChain(st, b, validators)
  }

  ghost function RunWith(next: (Chain, ImportBlock) -> Chain, st: Chain, bs: seq<ImportBlock>): Chain {
    if bs == [] then st else next(RunWith(next, st, bs[..|bs| - 1]), bs[|bs| - 1])
  }

  ghost function RunChain(st: Chain, bs: seq<ImportBlock>, validators: nat): Chain {
    RunWith(Importer(validators), st, bs)
  }

  lemma RunAppend(next: (Chain, ImportBlock) -> Chain, st: Chain, bs: seq<ImportBlock>, b: ImportBlock)
    ensures RunWith(next, st, bs + [b]) == next(RunWith(next, st, bs), b)
  {
    assert (bs + [b])[..|bs + [b]| - 1] == bs;
  }

  lemma RunChainStep(st: Chain, bs: seq<ImportBlock>, validators: nat, i: nat)
    requires i < |bs|
    ensures RunChain(st, bs[..i + 1], validators) == NextChain(RunChain(st, bs[..i], validators), bs[i], validators)
  {
    RunAppend(Importer(validators), st, bs[..i], bs[i]);
    assert bs[..i + 1] == bs[..i] + [bs[i]];
  }

  lemma LastOfRun(st: Chain, bs: seq<ImportBlock>, validators: nat)
    requires bs != []
    ensures RunChain(st, bs, validators)
         == NextChain(RunChain(st, bs[..|bs| - 1], validators), bs[|bs| - 1], validators)
  {
    assert bs[..|bs| - 1 + 1] == bs;
    RunChainStep(st, bs, validators, |bs| - 1);
  }

  /** Packages are apart at the start, between the blocks and at the end. */
  ghost predicate ApartThroughout(st: Chain, bs: seq<ImportBlock>, validators: nat) {
    && Apart(RunChain(st, bs, validators))
    && (bs != [] ==> ApartThroughout(st, bs[..|bs| - 1], validators))
  }

  /** No block that is imported has an accepted guarantee that repeats a package. */
  ghost predicate NewThroughout(st: Chain, bs: seq<ImportBlock>, validators: nat) {
    bs != [] ==>
      var before, b := RunChain(st, bs[..|bs| - 1], validators), bs[|bs| - 1];
      && (Extends(before, b) ==> NewPackages(before, b, validators))
      && NewThroughout(st, bs[..|bs| - 1], validators)
  }

  lemma NextApartIff(st: Chain, b: ImportBlock, validators: nat)
    requires Apart(st) && GasBounded(st)
    ensures Apart(NextChain(st, b, validators)) <==> (Extends(st, b) ==> NewPackages(st, b, validators))
    ensures GasBounded(NextChain(st, b, validators))
  {
    if Extends(st, b) {
      StepApartIff(st, b, validators);
      StepGasBounded(st, b, validators);
    }
  }

  /** Exactly: over any run, whatever its assurances, packages stay apart iff no imported block repeats one. */
  lemma {:induction false} RunApartIff(st: Chain, bs: seq<ImportBlock>, validators: nat)
    requires Apart(st) && GasBounded(st)
    ensures ApartThroughout(st, bs, validators) <==> NewThroughout(st, bs, validators)
    ensures ApartThroughout(st, bs, validators) ==> GasBounded(RunChain(st, bs, validators))
    decreases |bs|
  {
    if bs != [] {
      var init, b := bs[..|bs| - 1], bs[|bs| - 1];
      RunApartIff(st, init, validators);
      LastOfRun(st, bs, validators);
      if ApartThroughout(st, init, validators) {
        NextApartIff(RunChain(st, init, validators), b, validators);
      }
    }
  }

  /** Every block of the run has its assurances accepted. */
  ghost predicate AllAccepted(st: Chain, bs: seq<ImportBlock>, validators: nat) {
    forall i | 0 <= i < |bs| :: Accepts(RunChain(st, bs[..i], validators), bs[i], validators)
  }

  /** Main safety: over any run with accepted assurances no package is ever in two places. */
  lemma {:induction false} RunSafe(st: Chain, bs: seq<ImportBlock>, validators: nat)
    requires Safe(st) && AllAccepted(st, bs, validators)
    ensures Safe(RunChain(st, bs, validators))
    decreases |bs|
  {
    if bs != [] {
      var init, b := bs[..|bs| - 1], bs[|bs| - 1];
      forall i | 0 <= i < |init|
        ensures Accepts(RunChain(st, init[..i], validators), init[i], validators)
      {
        assert init[..i] == bs[..i];
      }
      RunSafe(st, init, validators);
      assert Accepts(RunChain(st, bs[..|bs| - 1], validators), bs[|bs| - 1], validators);
      assert bs[..|init| + 1] == bs;
      RunChainStep(st, bs, validators, |init|);
      if Extends(RunChain(st, init, validators), b) {
        StepSafe(RunChain(st, init, validators), b, validators);
      }
    }
  }

  /** The packages block `i` of a run accumulates. */
  ghost function AccumulatedBy(st: Chain, bs: seq<ImportBlock>, validators: nat, i: nat): seq<Hash>
    requires i < |bs|
  {
    var before := RunChain(st, bs[..i], validators);
    if Extends(before, bs[i])
    then Hashes(Taken(bs[i].slot, before.rings, AvailableIn(before, bs[i], validators)))
    else []
  }

  /** A package stays remembered for the next eleven blocks. */
  ghost predicate KeptAt(st: Chain, h: Hash, age: nat) {
    age < EPOCH && exists b :: EPOCH - 1 - age <= b < EPOCH && h in st.rings.accumulated[b]
  }

  lemma KeptNext(st: Chain, b: ImportBlock, validators: nat, h: Hash, age: nat)
    requires KeptAt(st, h, age) && age + 1 < EPOCH
    ensures KeptAt(NextChain(st, b, validators), h, age + 1)
  {
    var i :| EPOCH - 1 - age <= i < EPOCH && h in st.rings.accumulated[i];
    if Extends(st, b) {
      assert Imported(st, b, validators).rings.accumulated[i - 1] == st.rings.accumulated[i];
    } else {
      assert h in NextChain(st, b, validators).rings.accumulated[i];
    }
  }

  lemma KeptFirst(st: Chain, b: ImportBlock, validators: nat, h: Hash)
    requires Extends(st, b) && h in Hashes(Taken(b.slot, st.rings, AvailableIn(st, b, validators)))
    ensures KeptAt(Imported(st, b, validators), h, 0)
  {
    SortedMeaning(Hashes(Taken(b.slot, st.rings, AvailableIn(st, b, validators))));
    assert h in Imported(st, b, validators).rings.accumulated[EPOCH - 1];
  }

  lemma {:induction false} KeptSince(st: Chain, bs: seq<ImportBlock>, validators: nat, i: nat, j: nat, h: Hash)
    requires i < j <= |bs| && j <= i + EPOCH && h in AccumulatedBy(st, bs, validators, i)
    ensures KeptAt(RunChain(st, bs[..j], validators), h, j - i - 1)
    decreases j
  {
    RunChainStep(st, bs, validators, j - 1);
    if j == i + 1 {
      KeptFirst(RunChain(st, bs[..i], validators), bs[i], validators, h);
    } else {
      KeptSince(st, bs, validators, i, j - 1, h);
      KeptNext(RunChain(st, bs[..j - 1], validators), bs[j - 1], validators, h, j - i - 2);
    }
  }

  /** Nothing is accumulated twice within twelve blocks, the time for which it is remembered. */
  lemma NeverTwice(st: Chain, bs: seq<ImportBlock>, validators: nat, i: nat, j: nat, h: Hash)
    requires Safe(st) && AllAccepted(st, bs, validators)
    requires i < j < |bs| && j <= i + EPOCH && h in AccumulatedBy(st, bs, validators, i)
    ensures h !in AccumulatedBy(st, bs, validators, j)
  {
    var before, b := RunChain(st, bs[..j], validators), bs[j];
    forall k | 0 <= k < |bs[..j]|
      ensures Accepts(RunChain(st, bs[..j][..k], validators), bs[..j][k], validators)
    {
      assert bs[..j][..k] == bs[..k];
    }
    RunSafe(st, bs[..j], validators);
    KeptSince(st, bs, validators, i, j, h);
    FlatMeaning(before.rings.accumulated, h);
    if Extends(before, b) {
      AvailableFresh(before, b, validators);
      TakenFresh(b.slot, before.rings, AvailableIn(before, b, validators));
    }
  }
}
