/** The ticket contest over whole epochs: what the mark, the sealing keys and the accumulator have in common. */
module SafroleRun {
  import opened Base
  import opened Safrole

  ghost function After(c: Crypto, st: State, xs: seq<Input>): State {
    if xs == [] then st else Step(c, After(c, st, xs[..|xs| - 1]), xs[|xs| - 1]).1
  }

  ghost function MarkIn(o: Outcome): seq<seq<Ticket>> {
    if o.Accepted? && o.ticketsMark.Some? then [o.ticketsMark.value] else []
  }

  /** The winning-tickets marks emitted by the blocks, in order. */
  ghost function Marks(c: Crypto, st: State, xs: seq<Input>): seq<seq<Ticket>> {
    if xs == [] then [] else
      Marks(c, st, xs[..|xs| - 1]) + MarkIn(Step(c, After(c, st, xs[..|xs| - 1]), xs[|xs| - 1]).0)
  }

  /** The ids a block admits: those of its tickets if it is accepted. */
  ghost function AdmittedBy(c: Crypto, st: State, x: Input): set<Hash> {
    if Step(c, st, x).0.Accepted? then IdSet(Bodies(c, x.extrinsic)) else {}
  }

  ghost function AdmittedIds(c: Crypto, st: State, xs: seq<Input>): set<Hash> {
    if xs == [] then {} else
      AdmittedIds(c, st, xs[..|xs| - 1]) + AdmittedBy(c, After(c, st, xs[..|xs| - 1]), xs[|xs| - 1])
  }

  /** A block that begins an epoch. */
  ghost predicate Begins(c: Crypto, pre: State, x: Input) {
    Epoch(x.slot) > Epoch(pre.tau) && Step(c, pre, x).0.Accepted?
  }

  /** No accepted block of the run is past the epoch; rejected blocks may have any slot. */
  ghost predicate Inside(c: Crypto, st: State, epoch: nat, xs: seq<Input>) {
    xs != [] ==>
      var init, x := xs[..|xs| - 1], xs[|xs| - 1];
      && (Step(c, After(c, st, init), x).0.Accepted? ==> Epoch(x.slot) <= epoch)
      && Inside(c, st, epoch, init)
  }

  /** Where an epoch's contest stands: the ids admitted so far, and the marks emitted so far. */
  ghost predicate Standing(epoch: nat, st: State, ids: set<Hash>, marks: seq<seq<Ticket>>) {
    && Epoch(st.tau) == epoch && Lowest(st.gammaA, ids)
    && marks == if Phase(st.tau) >= TAIL_START && |st.gammaA| == EPOCH then [OutsideIn(st.gammaA)] else []
  }

  lemma ContestMeaning(c: Crypto, acc: seq<Ticket>, xs: seq<Envelope>, ring: Hash, eta2: Hash, ids: set<Hash>)
    requires Contest(c, acc, xs, ring, eta2).Pass? && Lowest(acc, ids)
    ensures Lowest(Contest(c, acc, xs, ring, eta2).value, ids + IdSet(Bodies(c, xs)))
  {
    if xs == [] {
      assert ids + IdSet(Bodies(c, xs)) == ids;
    } else {
      AdmitKeepsLowest(acc, Bodies(c, xs), ids);
    }
  }

  lemma BeginsStanding(c: Crypto, pre: State, x: Input)
    requires Begins(c, pre, x)
    ensures Standing(Epoch(x.slot), Step(c, pre, x).1, AdmittedBy(c, pre, x), [])
    ensures MarkIn(Step(c, pre, x).0) == []
  {
    var next := Rotated(c, pre, x);
    ContestMeaning(c, [], x.extrinsic, next.gammaZ, next.eta.e2, {});
    assert {} + IdSet(Bodies(c, x.extrinsic)) == AdmittedBy(c, pre, x);
  }

  lemma StepStanding(c: Crypto, epoch: nat, st: State, ids: set<Hash>, marks: seq<seq<Ticket>>, x: Input)
    requires Standing(epoch, st, ids, marks) && (Step(c, st, x).0.Accepted? ==> Epoch(x.slot) <= epoch)
    ensures Standing(epoch, Step(c, st, x).1, ids + AdmittedBy(c, st, x), marks + MarkIn(Step(c, st, x).0))
  {
    if Step(c, st, x).0.Accepted? {
      ContestMeaning(c, st.gammaA, x.extrinsic, st.gammaZ, st.eta.e2, ids);
    } else {
      assert ids + {} == ids;
    }
  }

  /**
   * The contest of an epoch, from the block that begins it: at every point the accumulator is strictly
   * ascending and holds the twelve lowest of all ids admitted so far, or all of them, and a mark has
   * been emitted exactly if the tail has been reached with a full accumulator.
   */
  lemma {:induction false} ContestRun(c: Crypto, pre: State, first: Input, xs: seq<Input>)
    requires Begins(c, pre, first) && Inside(c, Step(c, pre, first).1, Epoch(first.slot), xs)
    ensures var st := Step(c, pre, first).1;
            Standing(
              Epoch(first.slot), After(c, st, xs), AdmittedBy(c, pre, first) + AdmittedIds(c, st, xs), Marks(c, st, xs))
    decreases |xs|
  {
    var st := Step(c, pre, first).1;
    var base := AdmittedBy(c, pre, first);
    BeginsStanding(c, pre, first);
    if xs == [] {
      assert base + {} == base;
    } else {
      var init, x := xs[..|xs| - 1], xs[|xs| - 1];
      ContestRun(c, pre, first, init);
      var ids := base + AdmittedIds(c, st, init);
      StepStanding(c, Epoch(first.slot), After(c, st, init), ids, Marks(c, st, init), x);
      assert ids + AdmittedBy(c, After(c, st, init), x) == base + AdmittedIds(c, st, xs);
    }
  }

  /**
   * The epoch after seals with tickets exactly when it follows immediately and a mark was emitted, at
   * most one ever is, and the sealing sequence is that mark; otherwise the fallback keys seal.
   */
  lemma SealsIffMarked(c: Crypto, pre: State, first: Input, xs: seq<Input>, last: Input)
    requires Begins(c, pre, first) && Inside(c, Step(c, pre, first).1, Epoch(first.slot), xs)
    requires Begins(c, After(c, Step(c, pre, first).1, xs), last)
    ensures var st := Step(c, pre, first).1;
            var marks, sealing := Marks(c, st, xs), Step(c, After(c, st, xs), last).1.gammaS;
            && |marks| <= 1
            && (sealing.Tickets? <==> Epoch(last.slot) == Epoch(first.slot) + 1 && |marks| == 1)
            && (sealing.Tickets? ==> sealing.tickets == marks[0])
  {
    ContestRun(c, pre, first, xs);
  }

  /** Sealing tickets are the twelve lowest ids of the whole contest, in outside-in order. */
  lemma SealsWithLowest(c: Crypto, pre: State, first: Input, xs: seq<Input>, last: Input)
    requires Begins(c, pre, first) && Inside(c, Step(c, pre, first).1, Epoch(first.slot), xs)
    requires Begins(c, After(c, Step(c, pre, first).1, xs), last)
    requires Step(c, After(c, Step(c, pre, first).1, xs), last).1.gammaS.Tickets?
    ensures var st := Step(c, pre, first).1;
            var acc, ids := After(c, st, xs).gammaA, AdmittedBy(c, pre, first) + AdmittedIds(c, st, xs);
            && Step(c, After(c, st, xs), last).1.gammaS == Tickets(OutsideIn(acc))
            && |acc| == EPOCH && Lowest(acc, ids) && multiset(OutsideIn(acc)) == multiset(acc)
  {
    ContestRun(c, pre, first, xs);
    OutsideInPermutes(After(c, Step(c, pre, first).1, xs).gammaA);
  }

  // ------------------------------------------------------------ one ring and one entropy an epoch

  /** Within an epoch only the clock, the newest entropy and the accumulator change. */
  ghost predicate SameEpochData(s: State, t: State) {
    t == s.(tau := t.tau, eta := s.eta.(e0 := t.eta.e0), gammaA := t.gammaA)
  }

  lemma {:induction false} EpochDataFixed(c: Crypto, st: State, xs: seq<Input>)
    requires Inside(c, st, Epoch(st.tau), xs)
    ensures SameEpochData(st, After(c, st, xs)) && Epoch(After(c, st, xs).tau) == Epoch(st.tau)
    decreases |xs|
  {
    if xs != [] {
      EpochDataFixed(c, st, xs[..|xs| - 1]);
    }
  }

  /** Some envelope with this id carries a proof that verifies. */
  ghost predicate Proved(c: Crypto, ring: Hash, eta2: Hash, id: Hash) {
    exists x: Envelope :: EnvelopeFault(c, x, ring, eta2) == None && c.output(x.signature) == id
  }

  lemma {:induction false} NoFault(c: Crypto, xs: seq<Envelope>, ring: Hash, eta2: Hash, i: nat, k: nat)
    requires i <= k < |xs| && FirstFault(c, xs, ring, eta2, i) == None
    ensures EnvelopeFault(c, xs[k], ring, eta2) == None
    decreases k - i
  {
    if i < k {
      NoFault(c, xs, ring, eta2, i + 1, k);
    }
  }

  lemma ContestProved(c: Crypto, acc: seq<Ticket>, xs: seq<Envelope>, ring: Hash, eta2: Hash, id: Hash)
    requires Contest(c, acc, xs, ring, eta2).Pass? && id in IdSet(Bodies(c, xs))
    ensures Proved(c, ring, eta2, id)
  {
    var k: nat :| k < |xs| && Bodies(c, xs)[k].id == id;
    NoFault(c, xs, ring, eta2, 0, k);
  }

  /** Every ticket of an epoch was proved against the ring of that epoch's next validators and one entropy. */
  lemma {:induction false} EpochTicketsProved(c: Crypto, pre: State, first: Input, xs: seq<Input>, id: Hash)
    requires Begins(c, pre, first) && Inside(c, Step(c, pre, first).1, Epoch(first.slot), xs)
    requires id in AdmittedBy(c, pre, first) + AdmittedIds(c, Step(c, pre, first).1, xs)
    ensures var next := NullifyOffenders(pre.iota, pre.offenders);
            Proved(c, c.commit(RingKeys(next)), pre.eta.e1, id)
    decreases |xs|
  {
    var st := Step(c, pre, first).1;
    if id in AdmittedBy(c, pre, first) {
      ContestProved(c, [], first.extrinsic, Rotated(c, pre, first).gammaZ, pre.eta.e1, id);
    } else {
      var init, x := xs[..|xs| - 1], xs[|xs| - 1];
      var before := After(c, st, init);
      EpochDataFixed(c, st, init);
      if id in AdmittedBy(c, before, x) {
        ContestProved(c, before.gammaA, x.extrinsic, before.gammaZ, before.eta.e2, id);
      } else {
        EpochTicketsProved(c, pre, first, init, id);
      }
    }
  }
}
