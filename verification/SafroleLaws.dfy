/**
 * The ticket contest seen from outside: which blocks are accepted and with what error others are not, what
 * an epoch turn does to the validator sets, the entropy and the sealing keys, and what it leaves alone.
 */
module SafroleLaws {
  import opened Base
  import opened Safrole
  import opened SafroleRun

  // ------------------------------------------------------------ acceptance

  ghost predicate SameEpoch(st: State, x: Input) {
    x.slot / 12 == st.tau / 12
  }

  /** The next validators once offenders are replaced by an empty entry. */
  ghost function Cleared(st: State): Validators {
    seq(6, i requires 0 <= i < 6 =>
      if st.iota[i].ed25519 in st.offenders then Validator(0, 0, []) else st.iota[i])
  }

  ghost function KeysOf(vs: Validators): seq<Hash> {
    seq(6, i requires 0 <= i < 6 => vs[i].bandersnatch)
  }

  /** What tickets of the block are proved against, and the accumulator they join. */
  ghost function RingFor(c: Crypto, st: State, x: Input): Hash {
    if SameEpoch(st, x) then st.gammaZ else c.commit(KeysOf(Cleared(st)))
  }

  ghost function EntropyFor(st: State, x: Input): Hash {
    if SameEpoch(st, x) then st.eta.e2 else st.eta.e1
  }

  ghost function Standing(st: State, x: Input): seq<Ticket> {
    if SameEpoch(st, x) then st.gammaA else []
  }

  ghost predicate Proves(c: Crypto, st: State, x: Input, env: Envelope) {
    env.attempt < 3 && c.verify(RingFor(c, st, x), EntropyFor(st, x), env.attempt, env.signature)
  }

  function IdOf(c: Crypto, env: Envelope): Hash {
    c.output(env.signature)
  }

  ghost predicate IdsRise(c: Crypto, xs: seq<Envelope>) {
    forall i, j | 0 <= i < j < |xs| :: IdOf(c, xs[i]) < IdOf(c, xs[j])
  }

  ghost predicate IdsNew(c: Crypto, xs: seq<Envelope>, acc: seq<Ticket>) {
    forall i, j | 0 <= i < |xs| && 0 <= j < |acc| :: IdOf(c, xs[i]) != acc[j].id
  }

  lemma {:induction false} FirstFaultIs(c: Crypto, xs: seq<Envelope>, ring: Hash, eta2: Hash, i: nat) returns (k: nat)
    requires i <= |xs|
    ensures i <= k <= |xs|
    ensures forall j | i <= j < k :: EnvelopeFault(c, xs[j], ring, eta2) == None
    ensures FirstFault(c, xs, ring, eta2, i) == if k < |xs| then EnvelopeFault(c, xs[k], ring, eta2) else None
    ensures k < |xs| ==> EnvelopeFault(c, xs[k], ring, eta2).Some?
    decreases |xs| - i
  {
    if i == |xs| || EnvelopeFault(c, xs[i], ring, eta2).Some? {
      k := i;
    } else {
      k := FirstFaultIs(c, xs, ring, eta2, i + 1);
    }
  }

  lemma SetsAgree(c: Crypto, st: State, x: Input)
    ensures NullifyOffenders(st.iota, st.offenders) == Cleared(st) && RingKeys(Cleared(st)) == KeysOf(Cleared(st))
  {
  }

  /** The contest a block enters. */
  lemma EntersContest(c: Crypto, st: State, x: Input)
    requires x.slot > st.tau && (x.slot % 12 < 10 || x.extrinsic == [])
    ensures var r := Contest(c, Standing(st, x), x.extrinsic, RingFor(c, st, x), EntropyFor(st, x));
            && (Step(c, st, x).0.Accepted? <==> r.Pass?)
            && (r.Fail? ==> Step(c, st, x) == (Rejected(r.error), st))
            && (r.Pass? ==> Step(c, st, x).1.gammaA == r.value)
  {
    SetsAgree(c, st, x);
  }

  /**
   * A block is accepted if and only if its slot rises, tickets come only in the first ten slots of an epoch,
   * and they are proved, with an attempt below three, in strictly rising order of ids that are all new.
   */
  lemma AcceptedIff(c: Crypto, st: State, x: Input)
    ensures Step(c, st, x).0.Accepted?
       <==> && x.slot > st.tau
            && (x.slot % 12 < 10 || x.extrinsic == [])
            && (forall i | 0 <= i < |x.extrinsic| :: Proves(c, st, x, x.extrinsic[i]))
            && IdsRise(c, x.extrinsic)
            && IdsNew(c, x.extrinsic, Standing(st, x))
  {
    if x.slot > st.tau && (x.slot % 12 < 10 || x.extrinsic == []) {
      EntersContest(c, st, x);
      ContestPasses(c, st, x);
    }
  }

  lemma ContestPasses(c: Crypto, st: State, x: Input)
    ensures Contest(c, Standing(st, x), x.extrinsic, RingFor(c, st, x), EntropyFor(st, x)).Pass?
       <==> && (forall i | 0 <= i < |x.extrinsic| :: Proves(c, st, x, x.extrinsic[i]))
            && IdsRise(c, x.extrinsic)
            && IdsNew(c, x.extrinsic, Standing(st, x))
  {
    var xs, ring, eta2 := x.extrinsic, RingFor(c, st, x), EntropyFor(st, x);
    var k := FirstFaultIs(c, xs, ring, eta2, 0);
    OrderAgrees(c, xs, Standing(st, x));
    if k < |xs| {
      assert !Proves(c, st, x, xs[k]);
    }
  }

  lemma OrderAgrees(c: Crypto, xs: seq<Envelope>, acc: seq<Ticket>)
    ensures Ascending(Bodies(c, xs)) <==> IdsRise(c, xs)
    ensures Fresh(Bodies(c, xs), acc) <==> IdsNew(c, xs, acc)
  {
  }

  /** Otherwise nothing changes, and the error is the first that applies, the first faulty ticket before the order. */
  lemma RejectedWith(c: Crypto, st: State, x: Input)
    requires !Step(c, st, x).0.Accepted?
    ensures Step(c, st, x).1 == st
    ensures var xs, error := x.extrinsic, Step(c, st, x).0.error;
            && (error == BadSlot <==> x.slot <= st.tau)
            && (error == UnexpectedTicket <==> x.slot > st.tau && x.slot % 12 >= 10 && xs != [])
            && (error == BadTicketAttempt || error == BadTicketProof ==>
                  exists k :: FirstUnproved(c, st, x, k) && (error == BadTicketAttempt <==> xs[k].attempt >= 3))
            && (error == BadTicketOrder ==>
                  (forall i | 0 <= i < |xs| :: Proves(c, st, x, xs[i])) && !IdsRise(c, xs))
            && (error == DuplicateTicket ==>
                  && (forall i | 0 <= i < |xs| :: Proves(c, st, x, xs[i]))
                  && IdsRise(c, xs) && !IdsNew(c, xs, Standing(st, x)))
  {
    var xs := x.extrinsic;
    if x.slot > st.tau && (x.slot % 12 < 10 || xs == []) {
      var ring, eta2 := RingFor(c, st, x), EntropyFor(st, x);
      EntersContest(c, st, x);
      OrderAgrees(c, xs, Standing(st, x));
      var k := FirstFaultIs(c, xs, ring, eta2, 0);
      forall j | 0 <= j < k
        ensures Proves(c, st, x, xs[j])
      {
      }
      if k < |xs| {
        assert FirstUnproved(c, st, x, k);
      }
    }
  }

  ghost predicate FirstUnproved(c: Crypto, st: State, x: Input, k: int) {
    && 0 <= k < |x.extrinsic| && !Proves(c, st, x, x.extrinsic[k])
    && forall j | 0 <= j < k :: Proves(c, st, x, x.extrinsic[j])
  }

  lemma {:induction false} InsertMembers(t: Ticket, ts: seq<Ticket>, x: Ticket)
    ensures x in Insert(t, ts) <==> x == t || x in ts
    decreases |ts|
  {
    if ts != [] && t.id > ts[0].id {
      InsertMembers(t, ts[1..], x);
      assert ts == [ts[0]] + ts[1..];
    }
  }

  lemma {:induction false} SortedMembers(ts: seq<Ticket>, x: Ticket)
    ensures x in Sorted(ts) <==> x in ts
    decreases |ts|
  {
    if ts != [] {
      SortedMembers(ts[1..], x);
      InsertMembers(ts[0], Sorted(ts[1..]), x);
      assert ts == [ts[0]] + ts[1..];
    }
  }

  /** The ticket that an envelope of the block is turned into. */
  ghost predicate Enters(c: Crypto, x: Input, t: Ticket) {
    exists k :: 0 <= k < |x.extrinsic| && t == Ticket(IdOf(c, x.extrinsic[k]), x.extrinsic[k].attempt)
  }

  /** An accepted block leaves in the accumulator what stood there and what it brings, or the first twelve of that. */
  lemma AccumulatorLaw(c: Crypto, st: State, x: Input, t: Ticket)
    requires Step(c, st, x).0.Accepted?
    ensures var acc := Step(c, st, x).1.gammaA;
            && (t in acc ==> t in Standing(st, x) || Enters(c, x, t))
            && (x.extrinsic == [] ==> acc == Standing(st, x))
            && (x.extrinsic != [] ==> |acc| == Min(12, |Standing(st, x)| + |x.extrinsic|))
            && (x.extrinsic != [] && |acc| < 12 ==> (t in acc <==> t in Standing(st, x) || Enters(c, x, t)))
  {
    var news := Bodies(c, x.extrinsic);
    EntersContest(c, st, x);
    EntersBodies(c, x, t);
    SortedMembers(Standing(st, x) + news, t);
    SortedSize(Standing(st, x) + news);
  }

  lemma EntersBodies(c: Crypto, x: Input, t: Ticket)
    ensures Enters(c, x, t) <==> t in Bodies(c, x.extrinsic)
  {
  }

  lemma {:induction false} InsertSize(t: Ticket, ts: seq<Ticket>)
    ensures |Insert(t, ts)| == |ts| + 1
    decreases |ts|
  {
    if ts != [] && t.id > ts[0].id {
      InsertSize(t, ts[1..]);
    }
  }

  lemma {:induction false} SortedSize(ts: seq<Ticket>)
    ensures |Sorted(ts)| == |ts|
    decreases |ts|
  {
    if ts != [] {
      SortedSize(ts[1..]);
      InsertSize(ts[0], Sorted(ts[1..]));
    }
  }

  // ------------------------------------------------------------ an epoch turn

  /** Within an epoch an accepted block moves the clock, the newest entropy and the accumulator. */
  lemma WithinLaw(c: Crypto, st: State, x: Input)
    requires Step(c, st, x).0.Accepted? && SameEpoch(st, x)
    ensures var (o, t) := Step(c, st, x);
            && t == st.(tau := x.slot, eta := st.eta.(e0 := c.mix(st.eta.e0, x.entropy)), gammaA := t.gammaA)
            && o.epochMark == None
            && (o.ticketsMark.Some? <==> st.tau % 12 < 10 <= x.slot % 12 && |t.gammaA| == 12)
            && (o.ticketsMark.Some? ==> o.ticketsMark.value == OutsideIn(t.gammaA))
  {
  }

  /** The fallback keys of an epoch: for each slot the key of a validator drawn from the active set. */
  ghost predicate FallbackOf(c: Crypto, keys: seq<Hash>, active: Validators, entropy: Hash) {
    |keys| == 12 && forall i | 0 <= i < 12 :: keys[i] == active[c.draw(entropy, i) % 6].bandersnatch
  }

  /**
   * At an epoch turn the active validators become the previous ones, the next become active, and the staged
   * ones, without offenders, become next; the entropies move up by one; the ring commits to the new next
   * set; and without winning tickets the new active set seals. The mark announces just that.
   */
  lemma TurnLaw(c: Crypto, st: State, x: Input)
    requires Step(c, st, x).0.Accepted? && !SameEpoch(st, x)
    ensures var (o, t) := Step(c, st, x);
            && t.tau == x.slot && t.iota == st.iota && t.offenders == st.offenders
            && t.lambda == st.kappa && t.kappa == st.gammaK && t.gammaK == Cleared(st)
            && t.gammaZ == c.commit(KeysOf(t.gammaK))
            && t.eta == Entropy(c.mix(st.eta.e0, x.entropy), st.eta.e0, st.eta.e1, st.eta.e2)
            && (t.gammaS.Tickets? <==> x.slot / 12 == st.tau / 12 + 1 && st.tau % 12 >= 10 && |st.gammaA| == 12)
            && (t.gammaS.Tickets? ==> t.gammaS.tickets == OutsideIn(st.gammaA))
            && (t.gammaS.Keys? ==> FallbackOf(c, t.gammaS.keys, t.kappa, t.eta.e2))
            && o.epochMark == Some(EpochMark(t.eta.e1, t.eta.e2, t.gammaK)) && o.ticketsMark == None
  {
    SetsAgree(c, st, x);
  }

  /** Outside in: even places from the front, odd places from the back. */
  lemma OutsideInAt(ts: seq<Ticket>, k: nat)
    ensures |OutsideIn(ts)| == |ts|
    ensures 2 * k < |ts| ==> OutsideIn(ts)[2 * k] == ts[k]
    ensures 2 * k + 1 < |ts| ==> OutsideIn(ts)[2 * k + 1] == ts[|ts| - 1 - k]
  {
    assert 2 * k / 2 == k && (2 * k + 1) / 2 == k;
  }

  // ------------------------------------------------------------ whole epochs

  /**
   * From the accepted block that begins an epoch, at every later point of it: the active set is the one that
   * was next before, the previous set the one that was active, and sealing is what the turn made it. So
   * fallback keys are keys of the active set of the epoch they seal.
   */
  lemma EpochSets(c: Crypto, pre: State, first: Input, xs: seq<Input>)
    requires Begins(c, pre, first) && Inside(c, Step(c, pre, first).1, Epoch(first.slot), xs)
    ensures var now := After(c, Step(c, pre, first).1, xs);
            && now.kappa == pre.gammaK && now.lambda == pre.kappa && now.gammaK == Cleared(pre)
            && now.eta.e1 == pre.eta.e0 && now.eta.e2 == pre.eta.e1 && now.eta.e3 == pre.eta.e2
            && now.gammaS == Step(c, pre, first).1.gammaS
            && (now.gammaS.Keys? ==> FallbackOf(c, now.gammaS.keys, now.kappa, now.eta.e2))
  {
    TurnLaw(c, pre, first);
    EpochDataFixed(c, Step(c, pre, first).1, xs);
  }

  /**
   * At the next turn the set that becomes active is the one whose ring the epoch's tickets were proved
   * against, and the one that was active becomes previous.
   */
  lemma RingBecomesActive(c: Crypto, pre: State, first: Input, xs: seq<Input>, last: Input)
    requires Begins(c, pre, first) && Inside(c, Step(c, pre, first).1, Epoch(first.slot), xs)
    requires Begins(c, After(c, Step(c, pre, first).1, xs), last)
    ensures var now := After(c, Step(c, pre, first).1, xs); var next := Step(c, now, last).1;
            && now.gammaZ == c.commit(KeysOf(next.kappa)) && next.lambda == now.kappa
            && forall id | id in AdmittedBy(c, pre, first) + AdmittedIds(c, Step(c, pre, first).1, xs) ::
                 Proved(c, c.commit(KeysOf(next.kappa)), pre.eta.e1, id)
  {
    var now := After(c, Step(c, pre, first).1, xs);
    TurnLaw(c, pre, first);
    EpochDataFixed(c, Step(c, pre, first).1, xs);
    TurnLaw(c, now, last);
    SetsAgree(c, pre, first);
    forall id | id in AdmittedBy(c, pre, first) + AdmittedIds(c, Step(c, pre, first).1, xs)
      ensures Proved(c, c.commit(KeysOf(Step(c, now, last).1.kappa)), pre.eta.e1, id)
    {
      EpochTicketsProved(c, pre, first, xs, id);
    }
  }
}
