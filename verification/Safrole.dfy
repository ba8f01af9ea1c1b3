/**
 * The ticket contest as an epoch state machine: admission of tickets, the winning-tickets mark, and the
 * sealing keys of the next epoch. Hashes and ticket ids are read as big-endian numbers, which keeps their
 * byte order; ring proofs, their outputs, ring commitments and hash functions are parameters.
 */
module Safrole {
  import opened Base

  const TAIL_START: nat := 10
  const MAX_ATTEMPTS: nat := 3

  type Hash = nat

  datatype Ticket = Ticket(id: Hash, attempt: byte)

  datatype Envelope = Envelope(attempt: byte, signature: bytes)

  datatype Validator = Validator(bandersnatch: Hash, ed25519: Hash, rest: bytes)

  type Validators = v: seq<Validator> | |v| == VALIDATORS_COUNT
    witness seq(VALIDATORS_COUNT, _ => Validator(0, 0, []))

  datatype Sealing = Tickets(tickets: seq<Ticket>) | Keys(keys: seq<Hash>)

  datatype Entropy = Entropy(e0: Hash, e1: Hash, e2: Hash, e3: Hash)

  datatype State = State(
    tau: nat, eta: Entropy, lambda: Validators, kappa: Validators, gammaK: Validators, iota: Validators,
    gammaA: seq<Ticket>, gammaS: Sealing, gammaZ: Hash, offenders: seq<Hash>)

  datatype Input = Input(slot: nat, entropy: Hash, extrinsic: seq<Envelope>)

  /** The cryptography the contest calls. */
  datatype Crypto = Crypto(
    verify: (Hash, Hash, byte, bytes) -> bool, output: bytes -> Hash, commit: seq<Hash> -> Hash,
    mix: (Hash, Hash) -> Hash, draw: (Hash, nat) -> nat)

  datatype Error = BadSlot | UnexpectedTicket | BadTicketOrder | BadTicketProof | BadTicketAttempt | DuplicateTicket

  datatype Checked<T> = Pass(value: T) | Fail(error: Error)

  datatype EpochMark = EpochMark(entropy: Hash, ticketsEntropy: Hash, validators: Validators)

  datatype Outcome =
    | Accepted(epochMark: Option<EpochMark>, ticketsMark: Option<seq<Ticket>>)
    | Rejected(error: Error)

  // ------------------------------------------------------------ validating tickets

  /** What an envelope fails, if anything, against a ring and an entropy. */
  function EnvelopeFault(c: Crypto, x: Envelope, ring: Hash, eta2: Hash): Option<Error> {
    if x.attempt >= MAX_ATTEMPTS then Some(BadTicketAttempt)
    else if !c.verify(ring, eta2, x.attempt, x.signature) then Some(BadTicketProof)
    else None
  }

  function Body(c: Crypto, x: Envelope): Ticket {
    Ticket(c.output(x.signature), x.attempt)
  }

  function Bodies(c: Crypto, xs: seq<Envelope>): (ts: seq<Ticket>)
    ensures |ts| == |xs| && forall i | 0 <= i < |xs| :: ts[i] == Body(c, xs[i])
  {
    seq(|xs|, i requires 0 <= i < |xs| => Body(c, xs[i]))
  }

  predicate Ascending(ts: seq<Ticket>) {
    forall i, j | 0 <= i < j < |ts| :: ts[i].id < ts[j].id
  }

  predicate HasId(ts: seq<Ticket>, id: Hash) {
    exists i | 0 <= i < |ts| :: ts[i].id == id
  }

  predicate Fresh(news: seq<Ticket>, acc: seq<Ticket>) {
    forall i | 0 <= i < |news| :: !HasId(acc, news[i].id)
  }

  /** The first faulty envelope from `i` on decides. */
  function FirstFault(c: Crypto, xs: seq<Envelope>, ring: Hash, eta2: Hash, i: nat): Option<Error>
    requires i <= |xs|
    decreases |xs| - i
  {
    if i == |xs| then None
    else
      var f := EnvelopeFault(c, xs[i], ring, eta2);
      if f.Some? then f else FirstFault(c, xs, ring, eta2, i + 1)
  }

  function Validate(c: Crypto, xs: seq<Envelope>, acc: seq<Ticket>, ring: Hash, eta2: Hash): Checked<seq<Ticket>> {
    var fault := FirstFault(c, xs, ring, eta2, 0);
    if fault.Some? then Fail(fault.value)
    else if !Ascending(Bodies(c, xs)) then Fail(BadTicketOrder)
    else if !Fresh(Bodies(c, xs), acc) then Fail(DuplicateTicket)
    else Pass(Bodies(c, xs))
  }

  method ValidateTickets(c: Crypto, xs: seq<Envelope>, acc: seq<Ticket>, ring: Hash, eta2: Hash)
    returns (r: Checked<seq<Ticket>>)
    ensures r == Validate(c, xs, acc, ring, eta2)
  {
    var news: seq<Ticket> := [];
    for i := 0 to |xs|
      invariant |news| == i && forall j | 0 <= j < i :: news[j] == Body(c, xs[j])
      invariant FirstFault(c, xs, ring, eta2, 0) == FirstFault(c, xs, ring, eta2, i)
    {
      if xs[i].attempt >= MAX_ATTEMPTS {
        return Fail(BadTicketAttempt);
      }
      if !c.verify(ring, eta2, xs[i].attempt, xs[i].signature) {
        return Fail(BadTicketProof);
      }
      news := news + [Body(c, xs[i])];
    }
    assert news == Bodies(c, xs);
    if exists i | 0 < i < |news| :: news[i - 1].id >= news[i].id {
      return Fail(BadTicketOrder);
    }
    NeighboursAscend(news, |news|);
    if exists i | 0 <= i < |news| :: HasId(acc, news[i].id) {
      return Fail(DuplicateTicket);
    }
    return Pass(news);
  }

  /** Ordered neighbours make an ordered list. */
  lemma {:induction false} NeighboursAscend(ts: seq<Ticket>, n: nat)
    requires n <= |ts| && forall i | 0 < i < n :: ts[i - 1].id < ts[i].id
    ensures Ascending(ts[..n])
  {
    if n > 1 {
      NeighboursAscend(ts, n - 1);
      forall i, j | 0 <= i < j < n
        ensures ts[i].id < ts[j].id
      {
        assert ts[..n - 1][i] == ts[i];
        if j < n - 1 {
          assert ts[..n - 1][j] == ts[j];
        } else if i < n - 2 {
          assert ts[..n - 1][n - 2] == ts[n - 2];
        }
      }
    }
    assert ts[..|ts|] == ts;
  }

  // ------------------------------------------------------------ the accumulator

  function Insert(t: Ticket, ts: seq<Ticket>): seq<Ticket> {
    if ts == [] || t.id <= ts[0].id then [t] + ts else [ts[0]] + Insert(t, ts[1..])
  }

  /** A stable sort by id. */
  function Sorted(ts: seq<Ticket>): seq<Ticket> {
    if ts == [] then [] else Insert(ts[0], Sorted(ts[1..]))
  }

  function Truncate(ts: seq<Ticket>): seq<Ticket> {
    if |ts| <= EPOCH then ts else ts[..EPOCH]
  }

  /** The accumulator after an extrinsic. */
  function Contest(c: Crypto, acc: seq<Ticket>, xs: seq<Envelope>, ring: Hash, eta2: Hash): Checked<seq<Ticket>> {
    if xs == [] then Pass(acc)
    else match Validate(c, xs, acc, ring, eta2)
      case Fail(e) => Fail(e)
      case Pass(news) => Pass(Truncate(Sorted(acc + news)))
  }

  ghost predicate DistinctIds(ts: seq<Ticket>) {
    forall i, j | 0 <= i < j < |ts| :: ts[i].id != ts[j].id
  }

  lemma {:induction false} InsertMeaning(t: Ticket, ts: seq<Ticket>)
    requires Ascending(ts) && !HasId(ts, t.id)
    ensures Ascending(Insert(t, ts))
    ensures forall x :: x in Insert(t, ts) <==> x == t || x in ts
    decreases |ts|
  {
    if ts != [] && t.id > ts[0].id {
      var rest := ts[1..];
      InsertMeaning(t, rest);
      var out := Insert(t, rest);
      assert ts == [ts[0]] + rest;
      forall i | 0 <= i < |out|
        ensures ts[0].id < out[i].id
      {
        assert out[i] in out;
        if out[i] in rest {
          var j :| 0 <= j < |rest| && rest[j] == out[i];
          assert ts[j + 1] == out[i];
        }
      }
    }
  }

  /** Sorting tickets with distinct ids orders them strictly and loses none. */
  lemma {:induction false} SortedMeaning(ts: seq<Ticket>)
    requires DistinctIds(ts)
    ensures Ascending(Sorted(ts))
    ensures forall x :: x in Sorted(ts) <==> x in ts
    decreases |ts|
  {
    if ts != [] {
      var rest := ts[1..];
      SortedMeaning(rest);
      assert ts == [ts[0]] + rest;
      SameIds(Sorted(rest), rest, ts[0].id);
      InsertMeaning(ts[0], Sorted(rest));
    }
  }

  lemma SameIds(a: seq<Ticket>, b: seq<Ticket>, id: Hash)
    requires forall x :: x in a <==> x in b
    ensures HasId(a, id) <==> HasId(b, id)
  {
    if HasId(a, id) {
      var i :| 0 <= i < |a| && a[i].id == id;
      assert a[i] in b;
    }
    if HasId(b, id) {
      var i :| 0 <= i < |b| && b[i].id == id;
      assert b[i] in a;
    }
  }

  /** The accumulator holds the lowest twelve of the ids ever admitted, or all of them if there are fewer. */
  ghost predicate Lowest(acc: seq<Ticket>, ids: set<Hash>) {
    && Ascending(acc) && |acc| <= EPOCH
    && (forall i | 0 <= i < |acc| :: acc[i].id in ids)
    && forall x | x in ids && !HasId(acc, x) :: |acc| == EPOCH && acc[EPOCH - 1].id < x
  }

  ghost function IdSet(ts: seq<Ticket>): set<Hash> {
    set i | 0 <= i < |ts| :: ts[i].id
  }

  lemma {:induction false} IdSetSize(ts: seq<Ticket>)
    requires Ascending(ts)
    ensures |IdSet(ts)| == |ts|
    decreases |ts|
  {
    if ts != [] {
      var init, last := ts[..|ts| - 1], ts[|ts| - 1];
      IdSetSize(init);
      forall x
        ensures x in IdSet(ts) <==> x in IdSet(init) || x == last.id
      {
        if x in IdSet(init) {
          var i :| 0 <= i < |init| && init[i].id == x;
          assert ts[i].id == x;
        }
      }
      assert IdSet(ts) == IdSet(init) + {last.id};
    }
  }

  /** The description fixes the accumulator's ids: as many as there are, up to twelve, and no smaller one left out. */
  lemma LowestExact(acc: seq<Ticket>, ids: set<Hash>)
    requires Lowest(acc, ids)
    ensures |acc| == Min(EPOCH, |ids|)
    ensures forall x, y | x in ids && y in ids && x < y && HasId(acc, y) :: HasId(acc, x)
  {
    IdSetSize(acc);
    SubsetSize(IdSet(acc), ids);
    if |acc| < EPOCH {
      forall x | x in ids
        ensures x in IdSet(acc)
      {
        assert HasId(acc, x);
      }
      SubsetSize(ids, IdSet(acc));
    }
  }

  /** Where the `k`-th of some ordered ids sits among more ordered ids: no earlier than `k`. */
  lemma {:induction false} Position(more: seq<Ticket>, some: seq<Ticket>, k: nat) returns (p: nat)
    requires Ascending(more) && Ascending(some) && k < |some|
    requires forall i | 0 <= i < |some| :: HasId(more, some[i].id)
    ensures k <= p < |more| && more[p].id == some[k].id
    decreases k
  {
    assert HasId(more, some[k].id);
    p :| p < |more| && more[p].id == some[k].id;
    if k > 0 {
      var q := Position(more, some, k - 1);
      assert some[k - 1].id < some[k].id;
    }
  }

  lemma JoinedIds(acc: seq<Ticket>, news: seq<Ticket>)
    requires Ascending(acc) && Ascending(news) && Fresh(news, acc)
    ensures DistinctIds(acc + news)
  {
    forall i, j | 0 <= i < j < |acc + news|
      ensures (acc + news)[i].id != (acc + news)[j].id
    {
      if i < |acc| <= j {
        assert !HasId(acc, news[j - |acc|].id);
      }
    }
  }

  /**
   * Although each block truncates, nothing that belongs among the lowest twelve is ever lost: a dropped
   * id exceeds the twelfth, and the twelfth only falls.
   */
  lemma AdmitKeepsLowest(acc: seq<Ticket>, news: seq<Ticket>, ids: set<Hash>)
    requires Lowest(acc, ids) && Ascending(news) && Fresh(news, acc)
    ensures Lowest(Truncate(Sorted(acc + news)), ids + IdSet(news))
  {
    var all := acc + news;
    var m := Sorted(all);
    JoinedIds(acc, news);
    SortedMeaning(all);
    var out := Truncate(m);
    forall i | 0 <= i < |out|
      ensures out[i].id in ids + IdSet(news)
    {
      assert m[i] in all;
    }
    forall x | x in ids + IdSet(news) && !HasId(out, x)
      ensures |out| == EPOCH && out[EPOCH - 1].id < x
    {
      if x in IdSet(news) || HasId(acc, x) {
        MergedHas(acc, news, x);
        var k :| 0 <= k < |m| && m[k].id == x;
        BeyondOut(m, k);
      } else {
        TwelfthFalls(acc, news);
      }
    }
  }

  lemma BeyondOut(m: seq<Ticket>, k: nat)
    requires Ascending(m) && k < |m| && !HasId(Truncate(m), m[k].id)
    ensures |Truncate(m)| == EPOCH && Truncate(m)[EPOCH - 1].id < m[k].id
  {
    var out := Truncate(m);
    assert forall i | 0 <= i < |out| :: out[i] == m[i] && out[i].id != m[k].id;
  }

  lemma MergedHas(acc: seq<Ticket>, news: seq<Ticket>, x: Hash)
    requires Ascending(acc) && Ascending(news) && Fresh(news, acc) && (x in IdSet(news) || HasId(acc, x))
    ensures HasId(Sorted(acc + news), x)
  {
    var all := acc + news;
    JoinedIds(acc, news);
    SortedMeaning(all);
    var t: Ticket;
    if HasId(acc, x) {
      var i :| 0 <= i < |acc| && acc[i].id == x;
      t := acc[i];
      assert all[i] == t;
    } else {
      var i :| 0 <= i < |news| && news[i].id == x;
      t := news[i];
      assert all[|acc| + i] == t;
    }
    assert t in Sorted(all);
  }

  lemma TwelfthFalls(acc: seq<Ticket>, news: seq<Ticket>)
    requires Ascending(acc) && Ascending(news) && Fresh(news, acc) && |acc| == EPOCH
    ensures |Sorted(acc + news)| >= EPOCH && Sorted(acc + news)[EPOCH - 1].id <= acc[EPOCH - 1].id
  {
    var m := Sorted(acc + news);
    JoinedIds(acc, news);
    SortedMeaning(acc + news);
    forall i | 0 <= i < |acc|
      ensures HasId(m, acc[i].id)
    {
      MergedHas(acc, news, acc[i].id);
    }
    var p := Position(m, acc, EPOCH - 1);
    assert p == EPOCH - 1 || m[EPOCH - 1].id < m[p].id;
  }

  // ------------------------------------------------------------ the outside-in sequence

  /** Even places from the front, odd places from the back. */
  function OutsideIn(ts: seq<Ticket>): seq<Ticket> {
    seq(|ts|, i requires 0 <= i < |ts| => if i % 2 == 0 then ts[i / 2] else ts[|ts| - 1 - i / 2])
  }

  method ZSequence(ts: seq<Ticket>) returns (out: seq<Ticket>)
    ensures out == OutsideIn(ts)
  {
    var lo, hi, fromFront := 0, |ts|, true;
    out := [];
    while lo < hi
      invariant 0 <= lo <= hi <= |ts|
      invariant |out| == lo + (|ts| - hi) && lo - (|ts| - hi) == if fromFront then 0 else 1
      invariant forall i | 0 <= i < |out| :: out[i] == OutsideIn(ts)[i]
    {
      if fromFront {
        out := out + [ts[lo]];
        lo := lo + 1;
      } else {
        hi := hi - 1;
        out := out + [ts[hi]];
      }
      fromFront := !fromFront;
    }
  }

  lemma EndsApart(first: Ticket, inner: seq<Ticket>, last: Ticket, shuffled: seq<Ticket>)
    requires multiset(shuffled) == multiset(inner)
    ensures multiset([first, last] + shuffled) == multiset([first] + inner + [last])
  {
  }

  /** The reordering is a permutation. */
  lemma {:induction false} OutsideInPermutes(ts: seq<Ticket>)
    ensures multiset(OutsideIn(ts)) == multiset(ts)
    decreases |ts|
  {
    if |ts| >= 2 {
      var n := |ts|;
      var inner := ts[1..n - 1];
      OutsideInPermutes(inner);
      EndsApart(ts[0], inner, ts[n - 1], OutsideIn(inner));
      assert OutsideIn(ts) == [ts[0], ts[n - 1]] + OutsideIn(inner);
      assert ts == [ts[0]] + inner + [ts[n - 1]];
    } else {
      assert OutsideIn(ts) == ts;
    }
  }

  // ------------------------------------------------------------ the transition

  function FallbackKey(c: Crypto, seed: Hash, validators: Validators, i: nat): Hash {
    validators[c.draw(seed, i) % VALIDATORS_COUNT].bandersnatch
  }

  function FallbackKeys(c: Crypto, seed: Hash, validators: Validators): seq<Hash> {
    seq(EPOCH, i requires 0 <= i < EPOCH => FallbackKey(c, seed, validators, i))
  }

  method ComputeFallback(c: Crypto, seed: Hash, validators: Validators) returns (keys: seq<Hash>)
    ensures keys == FallbackKeys(c, seed, validators)
  {
    keys := [];
    for i := 0 to EPOCH
      invariant |keys| == i && forall j | 0 <= j < i :: keys[j] == FallbackKeys(c, seed, validators)[j]
    {
      keys := keys + [validators[c.draw(seed, i) % |validators|].bandersnatch];
    }
  }

  function NullifyOffenders(vs: Validators, offenders: seq<Hash>): Validators {
    seq(VALIDATORS_COUNT, i requires 0 <= i < VALIDATORS_COUNT =>
      if vs[i].ed25519 in offenders then Validator(0, 0, []) else vs[i])
  }

  function RingKeys(vs: Validators): seq<Hash> {
    seq(VALIDATORS_COUNT, i requires 0 <= i < VALIDATORS_COUNT => vs[i].bandersnatch)
  }

  function Epoch(slot: nat): nat { slot / EPOCH }
  function Phase(slot: nat): nat { slot % EPOCH }

  /** The mark published by the first block in the tail when the accumulator is full. */
  function MarkOf(pre: nat, slot: nat, acc: seq<Ticket>): Option<seq<Ticket>> {
    if Phase(pre) < TAIL_START <= Phase(slot) && |acc| == EPOCH then Some(OutsideIn(acc)) else None
  }

  function Within(c: Crypto, st: State, x: Input): (Outcome, State) {
    if Phase(x.slot) >= TAIL_START && x.extrinsic != [] then (Rejected(UnexpectedTicket), st)
    else match Contest(c, st.gammaA, x.extrinsic, st.gammaZ, st.eta.e2)
      case Fail(e) => (Rejected(e), st)
      case Pass(acc) =>
        (Accepted(None, MarkOf(st.tau, x.slot, acc)),
         st.(tau := x.slot, eta := st.eta.(e0 := c.mix(st.eta.e0, x.entropy)), gammaA := acc))
  }

  /** Sealing keys for the epoch of `slot`. */
  function SealingOf(c: Crypto, st: State, slot: nat): Sealing {
    if Epoch(slot) == Epoch(st.tau) + 1 && Phase(st.tau) >= TAIL_START && |st.gammaA| == EPOCH
    then Tickets(OutsideIn(st.gammaA))
    else Keys(FallbackKeys(c, st.eta.e1, st.gammaK))
  }

  /** The state an epoch begins with, before its first block's tickets. */
  function Rotated(c: Crypto, st: State, x: Input): State {
    var gammaK := NullifyOffenders(st.iota, st.offenders);
    State(x.slot, Entropy(c.mix(st.eta.e0, x.entropy), st.eta.e0, st.eta.e1, st.eta.e2),
          st.kappa, st.gammaK, gammaK, st.iota, [], SealingOf(c, st, x.slot), c.commit(RingKeys(gammaK)), st.offenders)
  }

  function Across(c: Crypto, st: State, x: Input): (Outcome, State) {
    var next := Rotated(c, st, x);
    if Phase(x.slot) >= TAIL_START && x.extrinsic != [] then (Rejected(UnexpectedTicket), st)
    else match Contest(c, [], x.extrinsic, next.gammaZ, next.eta.e2)
      case Fail(e) => (Rejected(e), st)
      case Pass(acc) =>
        (Accepted(Some(EpochMark(st.eta.e0, st.eta.e1, next.gammaK)), None), next.(gammaA := acc))
  }

  function Step(c: Crypto, st: State, x: Input): (Outcome, State) {
    if x.slot <= st.tau then (Rejected(BadSlot), st)
    else if Epoch(x.slot) == Epoch(st.tau) then Within(c, st, x)
    else Across(c, st, x)
  }

  /** The same step with its local updates; an error returns the prior state. */
  method Transition(c: Crypto, pre: State, x: Input) returns (outcome: Outcome, post: State)
    ensures (outcome, post) == Step(c, pre, x)
  {
    if x.slot <= pre.tau {
      return Rejected(BadSlot), pre;
    }
    var phase := x.slot % EPOCH;
    var eta0 := c.mix(pre.eta.e0, x.entropy);
    if x.slot / EPOCH == pre.tau / EPOCH {
      if phase >= TAIL_START && x.extrinsic != [] {
        return Rejected(UnexpectedTicket), pre;
      }
      var contest := Admit(c, pre.gammaA, x.extrinsic, pre.gammaZ, pre.eta.e2);
      if contest.Fail? {
        return Rejected(contest.error), pre;
      }
      var gammaA := contest.value;
      var mark := None;
      if pre.tau % EPOCH < TAIL_START && phase >= TAIL_START && |gammaA| == EPOCH {
        var z := ZSequence(gammaA);
        mark := Some(z);
      }
      post := pre;
      post := post.(tau := x.slot);
      post := post.(eta := post.eta.(e0 := eta0));
      post := post.(gammaA := gammaA);
      return Accepted(None, mark), post;
    }
    var gammaK := NullifyOffenders(pre.iota, pre.offenders);
    var gammaZ := c.commit(RingKeys(gammaK));
    var eta := Entropy(eta0, pre.eta.e0, pre.eta.e1, pre.eta.e2);
    var gammaS: Sealing;
    if x.slot / EPOCH == pre.tau / EPOCH + 1 && pre.tau % EPOCH >= TAIL_START && |pre.gammaA| == EPOCH {
      var z := ZSequence(pre.gammaA);
      gammaS := Tickets(z);
    } else {
      var keys := ComputeFallback(c, eta.e2, pre.gammaK);
      gammaS := Keys(keys);
    }
    if x.extrinsic != [] && phase >= TAIL_START {
      return Rejected(UnexpectedTicket), pre;
    }
    var contest := Admit(c, [], x.extrinsic, gammaZ, eta.e2);
    if contest.Fail? {
      return Rejected(contest.error), pre;
    }
    post := State(x.slot, eta, pre.kappa, pre.gammaK, gammaK, pre.iota, contest.value, gammaS, gammaZ, pre.offenders);
    return Accepted(Some(EpochMark(pre.eta.e0, pre.eta.e1, gammaK)), None), post;
  }

  method Admit(c: Crypto, acc: seq<Ticket>, xs: seq<Envelope>, ring: Hash, eta2: Hash) returns (r: Checked<seq<Ticket>>)
    ensures r == Contest(c, acc, xs, ring, eta2)
  {
    if xs == [] {
      return Pass(acc);
    }
    r := ValidateTickets(c, xs, acc, ring, eta2);
    if r.Pass? {
      r := Pass(Truncate(Sorted(acc + r.value)));
    }
  }
}
