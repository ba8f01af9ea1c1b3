/**
 * The queue step seen from outside: which packages become candidates, in what order, and what their gas is.
 */
module QueueLaws {
  import opened Base
  import opened Queue
  import opened QueueRings

  // ------------------------------------------------------------ which packages

  predicate NeedsNothing(r: Report) {
    r.prerequisites == [] && r.lookups == []
  }

  /** The report is accumulated unless its package was before, as soon as its dependencies were or are in `s`. */
  ghost predicate Released(acc: AccRing, s: set<Hash>, r: Report) {
    r.hash !in Flat(acc) && forall d | d in r.prerequisites || d in r.lookups :: d in Flat(acc) || d in s
  }

  /** A set with every new report that needs nothing, and with whatever it releases, waiting or new. */
  ghost predicate Releasing(rings: Rings, rs: seq<Report>, s: set<Hash>) {
    && (forall r | r in rs && NeedsNothing(r) :: r.hash in s)
    && (forall b, p | 0 <= b < 12 && p in rings.ready[b] && (forall d | d in p.deps :: d in s) :: p.report.hash in s)
    && (forall r | r in rs && !NeedsNothing(r) && Released(rings.accumulated, s, r) :: r.hash in s)
  }

  lemma CandidateHashes(slot: nat, rings: Rings, rs: seq<Report>)
    ensures HashSet(Candidates(slot, rings, rs))
         == HashSet(ImmediateOf(rs)) + HashSet(Priority(PriorityInput(slot, rings, rs)))
  {
  }

  /** Of the queue before immediate reports are edited out, the candidates hold whatever they release. */
  lemma InputReleased(slot: nat, rings: Rings, rs: seq<Report>, p: Pending)
    requires p in QueueInput(slot, rings, rs)
    requires forall d | d in p.deps :: d in HashSet(Candidates(slot, rings, rs))
    ensures p.report.hash in HashSet(Candidates(slot, rings, rs))
  {
    var now, input := ImmediateOf(rs), PriorityInput(slot, rings, rs);
    CandidateHashes(slot, rings, rs);
    HashSetMembers(now, p.report.hash);
    if p.report.hash !in Hashes(now) {
      var e := Edited(p, Hashes(now));
      EditMeaning(QueueInput(slot, rings, rs), Hashes(now), e);
      forall d | d in e.deps
        ensures d in HashSet(Priority(input))
      {
        HashSetMembers(now, d);
      }
      PriorityClosed(input);
    }
  }

  lemma NewInput(slot: nat, rings: Rings, rs: seq<Report>, r: Report)
    requires r in rs && !NeedsNothing(r) && r.hash !in Flat(rings.accumulated)
    ensures Edited(Pending(r, Dependencies(r)), Flat(rings.accumulated)) in QueueInput(slot, rings, rs)
  {
    assert Pending(r, Dependencies(r)) in WaitingOf(rs);
    EditMeaning(WaitingOf(rs), Flat(rings.accumulated), Edited(Pending(r, Dependencies(r)), Flat(rings.accumulated)));
  }

  /** The candidates of a block are such a set. */
  lemma CandidatesRelease(slot: nat, rings: Rings, rs: seq<Report>)
    ensures Releasing(rings, rs, HashSet(Candidates(slot, rings, rs)))
  {
    var s := HashSet(Candidates(slot, rings, rs));
    CandidateHashes(slot, rings, rs);
    forall b, p | 0 <= b < 12 && p in rings.ready[b] && (forall d | d in p.deps :: d in s)
      ensures p.report.hash in s
    {
      ReadyAll(rings.ready, slot % EPOCH, p);
      InputReleased(slot, rings, rs, p);
    }
    forall r | r in rs && !NeedsNothing(r) && Released(rings.accumulated, s, r)
      ensures r.hash in s
    {
      NewInput(slot, rings, rs, r);
      InputReleased(slot, rings, rs, Edited(Pending(r, Dependencies(r)), Flat(rings.accumulated)));
    }
  }

  lemma InputInside(slot: nat, rings: Rings, rs: seq<Report>, s: set<Hash>, p: Pending)
    requires Releasing(rings, rs, s) && p in QueueInput(slot, rings, rs) && forall d | d in p.deps :: d in s
    ensures p.report.hash in s
  {
    var acc := Flat(rings.accumulated);
    if p in ReadyUpTo(rings.ready, slot % EPOCH, EPOCH) {
      ReadyAll(rings.ready, slot % EPOCH, p);
    } else {
      EditMeaning(WaitingOf(rs), acc, p);
      var w :| w in WaitingOf(rs) && w.report.hash !in acc && p == Edited(w, acc);
      assert Released(rings.accumulated, s, w.report);
    }
  }

  /** They are within every such set, so they are the least one. */
  lemma CandidatesLeast(slot: nat, rings: Rings, rs: seq<Report>, s: set<Hash>)
    requires Releasing(rings, rs, s)
    ensures HashSet(Candidates(slot, rings, rs)) <= s
  {
    var now, input := ImmediateOf(rs), PriorityInput(slot, rings, rs);
    forall e | e in input && forall d | d in e.deps :: d in s
      ensures e.report.hash in s
    {
      EditMeaning(QueueInput(slot, rings, rs), Hashes(now), e);
      var p :| p in QueueInput(slot, rings, rs) && p.report.hash !in Hashes(now) && e == Edited(p, Hashes(now));
      forall d | d in p.deps
        ensures d in s
      {
        HashSetMembers(now, d);
      }
      InputInside(slot, rings, rs, s, p);
    }
    PriorityLeast(input, s);
    CandidateHashes(slot, rings, rs);
  }

  // ------------------------------------------------------------ in what order

  lemma {:induction false} EditConcat(ps: seq<Pending>, qs: seq<Pending>, acc: seq<Hash>)
    ensures Edit(ps + qs, acc) == Edit(ps, acc) + Edit(qs, acc)
    decreases |ps|
  {
    if ps == [] {
      assert ps + qs == qs;
    } else {
      EditConcat(ps[1..], qs, acc);
      assert (ps + qs)[1..] == ps[1..] + qs;
    }
  }

  lemma {:induction false} ReadyConcat(ps: seq<Pending>, qs: seq<Pending>)
    ensures ReadyOf(ps + qs) == ReadyOf(ps) + ReadyOf(qs)
    decreases |ps|
  {
    if ps == [] {
      assert ps + qs == qs;
    } else {
      ReadyConcat(ps[1..], qs);
      assert (ps + qs)[1..] == ps[1..] + qs;
    }
  }

  /** Reports that need nothing come first, in the order in which they became available. */
  lemma {:induction false} ImmediateInOrder(rs: seq<Report>, r: Report)
    ensures ImmediateOf(rs + [r]) == ImmediateOf(rs) + if NeedsNothing(r) then [r] else []
    ensures ImmediateOf([]) == []
    decreases |rs|
  {
    if rs == [] {
      assert rs + [r] == [r];
    } else {
      ImmediateInOrder(rs[1..], r);
      assert (rs + [r])[1..] == rs[1..] + [r];
    }
  }

  /** Those with dependencies join the queue in that order too. */
  lemma {:induction false} WaitingInOrder(rs: seq<Report>, r: Report)
    ensures WaitingOf(rs + [r])
         == WaitingOf(rs) + if NeedsNothing(r) then [] else [Pending(r, r.prerequisites + r.lookups)]
    ensures WaitingOf([]) == []
    decreases |rs|
  {
    if rs == [] {
      assert rs + [r] == [r];
    } else {
      WaitingInOrder(rs[1..], r);
      assert (rs + [r])[1..] == rs[1..] + [r];
    }
  }

  /** An entry that waits for nothing but reports which need nothing. */
  ghost predicate Free(rs: seq<Report>, p: Pending) {
    && (forall r | r in rs && NeedsNothing(r) :: r.hash != p.report.hash)
    && forall d | d in p.deps :: exists r :: r in rs && NeedsNothing(r) && r.hash == d
  }

  lemma {:induction false} AllResolved(hs: seq<Hash>, out: seq<Hash>)
    requires forall h | h in hs :: h in out
    ensures Without(hs, out) == []
    decreases |hs|
  {
    if hs != [] {
      assert hs[0] in out;
      AllResolved(hs[1..], out);
    }
  }

  lemma FreeIsReady(ps: seq<Pending>, rs: seq<Report>, p: Pending)
    requires p in ps && Free(rs, p)
    ensures p.report in ReadyOf(Edit(ps, Hashes(ImmediateOf(rs))))
  {
    var hs := Hashes(ImmediateOf(rs));
    HashSetMembers(ImmediateOf(rs), p.report.hash);
    forall d | d in p.deps
      ensures d in hs
    {
      HashSetMembers(ImmediateOf(rs), d);
    }
    var e := Edited(p, hs);
    AllResolved(p.deps, hs);
    EditMeaning(ps, hs, e);
    ReadyMeaning(Edit(ps, hs), p.report);
  }

  lemma PriorityStart(ps: seq<Pending>) returns (rest: seq<Report>)
    ensures Priority(ps) == ReadyOf(ps) + rest
  {
    if ReadyOf(ps) == [] {
      rest := [];
    } else {
      ReadyShrinks(ps);
      rest := Priority(Edit(ps, Hashes(ReadyOf(ps))));
    }
  }

  lemma ReadyParts(xs: seq<Pending>, ys: seq<Pending>, hs: seq<Hash>)
    ensures ReadyOf(Edit(xs + ys, hs)) == ReadyOf(Edit(xs, hs)) + ReadyOf(Edit(ys, hs))
  {
    EditConcat(xs, ys, hs);
    ReadyConcat(Edit(xs, hs), Edit(ys, hs));
  }

  lemma Between(now: seq<Report>, a: seq<Report>, b: seq<Report>, rest: seq<Report>, r: Report, s: Report)
    returns (i: nat)
    requires r in a && s in b
    ensures i <= |now + (a + b + rest)|
    ensures r in (now + (a + b + rest))[..i] && s in (now + (a + b + rest))[i..]
  {
    var c := now + (a + b + rest);
    i := |now| + |a|;
    assert c[..i] == now + a && c[i..] == b + rest;
  }

  /** However the queue is divided, what is free in the first part is a candidate before what is free in the second. */
  lemma InOrder(slot: nat, rings: Rings, rs: seq<Report>, xs: seq<Pending>, ys: seq<Pending>, p: Pending, q: Pending)
    returns (i: nat)
    requires QueueInput(slot, rings, rs) == xs + ys && p in xs && q in ys && Free(rs, p) && Free(rs, q)
    ensures i <= |Candidates(slot, rings, rs)|
    ensures p.report in Candidates(slot, rings, rs)[..i] && q.report in Candidates(slot, rings, rs)[i..]
  {
    var now := ImmediateOf(rs);
    var hs := Hashes(now);
    ReadyParts(xs, ys, hs);
    FreeIsReady(xs, rs, p);
    FreeIsReady(ys, rs, q);
    var rest := PriorityStart(PriorityInput(slot, rings, rs));
    i := Between(now, ReadyOf(Edit(xs, hs)), ReadyOf(Edit(ys, hs)), rest, p.report, q.report);
  }

  /** The buckets from the oldest on, divided before the `n`-th. */
  lemma {:induction false} BucketsSplit(ready: ReadyRing, m: nat, n: nat, k: nat) returns (ys: seq<Pending>)
    requires n <= k
    ensures ReadyUpTo(ready, m, k) == ReadyUpTo(ready, m, n) + ys
    ensures forall j, p | n <= j < k && p in BucketAt(ready, m, j) :: p in ys
    decreases k
  {
    if n == k {
      ys := [];
      assert ReadyUpTo(ready, m, n) + [] == ReadyUpTo(ready, m, n);
    } else {
      var before := BucketsSplit(ready, m, n, k - 1);
      ys := before + BucketAt(ready, m, k - 1);
      assert ReadyUpTo(ready, m, n) + before + BucketAt(ready, m, k - 1) == ReadyUpTo(ready, m, n) + ys;
    }
  }

  /** Of two waiting reports that are free, the one that has waited longer is a candidate first. */
  lemma OlderFirst(slot: nat, rings: Rings, rs: seq<Report>, a: nat, b: nat, p: Pending, q: Pending)
    returns (i: nat)
    requires a < b < 12 && Free(rs, p) && Free(rs, q)
    requires p in rings.ready[(slot % 12 + a) % 12] && q in rings.ready[(slot % 12 + b) % 12]
    ensures i <= |Candidates(slot, rings, rs)|
    ensures p.report in Candidates(slot, rings, rs)[..i] && q.report in Candidates(slot, rings, rs)[i..]
  {
    var m := slot % EPOCH;
    var ys := BucketsSplit(rings.ready, m, a + 1, EPOCH);
    var queued := Queued(rings.accumulated, rs);
    assert p in BucketAt(rings.ready, m, a) && q in BucketAt(rings.ready, m, b);
    ReadyUpToMeaning(rings.ready, m, a + 1, p);
    var xs := ReadyUpTo(rings.ready, m, a + 1);
    assert xs + ys + queued == xs + (ys + queued);
    i := InOrder(slot, rings, rs, xs, ys + queued, p, q);
  }

  /** A report that has just become available is a candidate after those that were waiting. */
  lemma WaitingFirst(slot: nat, rings: Rings, rs: seq<Report>, b: Bucket, p: Pending, r: Report) returns (i: nat)
    requires p in rings.ready[b] && Free(rs, p)
    requires r in rs && !NeedsNothing(r) && r.hash !in Flat(rings.accumulated)
    requires Free(rs, Edited(Pending(r, Dependencies(r)), Flat(rings.accumulated)))
    ensures i <= |Candidates(slot, rings, rs)|
    ensures p.report in Candidates(slot, rings, rs)[..i] && r in Candidates(slot, rings, rs)[i..]
  {
    var q := Edited(Pending(r, Dependencies(r)), Flat(rings.accumulated));
    assert Pending(r, Dependencies(r)) in WaitingOf(rs);
    EditMeaning(WaitingOf(rs), Flat(rings.accumulated), q);
    ReadyAll(rings.ready, slot % EPOCH, p);
    i := InOrder(
      slot, rings, rs, ReadyUpTo(rings.ready, slot % EPOCH, EPOCH), Queued(rings.accumulated, rs), p, q);
  }

  // ------------------------------------------------------------ gas

  /** A report's gas is the sum over its results, each read as a signed 64-bit number. */
  lemma {:induction false} GasLaw(g: u64, gas: seq<u64>)
    ensures GasSum([g] + gas) == (if g < 0x8000_0000_0000_0000 then g else g - 0x1_0000_0000_0000_0000) + GasSum(gas)
    ensures GasSum([]) == 0
    decreases |gas|
  {
    if gas == [] {
      assert [g] + gas == [g];
      assert [g][..0] == [];
    } else {
      var init := gas[..|gas| - 1];
      GasLaw(g, init);
      assert ([g] + gas)[..|gas|] == [g] + init;
    }
  }

  /** The first `k` candidates are accumulated exactly if no prefix of them has more than 20,000,000 gas. */
  lemma TakenIff(slot: nat, rings: Rings, rs: seq<Report>, k: nat)
    requires 0 < k <= |Candidates(slot, rings, rs)|
    ensures var c := Candidates(slot, rings, rs);
            && Taken(slot, rings, rs) <= c
            && (k <= |Taken(slot, rings, rs)| <==> forall j | 0 < j <= k :: PrefixGas(c, j) <= 20_000_000)
  {
    GasCutKeeps(Candidates(slot, rings, rs), k);
  }
}
