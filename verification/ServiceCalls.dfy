/** What host calls undo, whom they debit, the stages of a preimage request, and where a rollback goes. */
module ServiceCalls {
  import opened Base
  import opened ServiceIds
  import opened ServiceRun
  import opened ServiceState

  // ------------------------------------------------------------ calls that undo each other

  /** Deleting a storage entry just created restores everything, the footprint included. */
  lemma WriteThenDelete(c: Ctx, s: u32, key: bytes, value: bytes)
    requires s in c.accounts && StorageKey(s, key) !in c.dict && value != []
    ensures Write(Write(c, s, key, value).0, s, key, []).0 == c
  {
    var k := StorageKey(s, key);
    ChargeBack(c, s, 1, ITEM_OVERHEAD + |key| + |value|);
    assert c.dict[k := value] - {k} == c.dict;
  }

  /** Overwriting and writing the old value back restores everything; both calls report the length they replaced. */
  lemma WriteThenRestore(c: Ctx, s: u32, key: bytes, value: bytes)
    requires s in c.accounts && StorageKey(s, key) in c.dict && value != [] && c.dict[StorageKey(s, key)] != []
    ensures var (d, old_) := Write(c, s, key, value); var (e, new_) := Write(d, s, key, c.dict[StorageKey(s, key)]);
            e == c && old_ == |c.dict[StorageKey(s, key)]| && new_ == |value|
  {
    var k := StorageKey(s, key);
    ChargeBack(c, s, 0, |value| - |c.dict[k]|);
    assert c.dict[k := value][k := c.dict[k]] == c.dict;
  }

  lemma ChargeBack(c: Ctx, s: u32, items: int, octets: int)
    ensures Charge(Charge(c, s, items, octets), s, -items, -octets) == c
  {
    if s in c.accounts {
      assert c.accounts[s := Charge(c, s, items, octets).accounts[s]][s := c.accounts[s]] == c.accounts;
    }
  }

  /** Forgetting a request just opened restores everything. */
  lemma SolicitThenForget(c: Ctx, s: u32, length: u32, hash: bytes, slot: u32, later: u32)
    requires s in c.accounts && RequestKey(s, length, hash) !in c.dict
    ensures Forget(Solicit(c, s, length, hash, slot).0, s, length, hash, later).0 == c
  {
    var k := RequestKey(s, length, hash);
    StatusRoundTrip([]);
    ChargeBack(c, s, 2, 81 + length);
    assert c.dict[k := EncodeStatus([])] - {k} == c.dict;
  }

  /** Ejecting an account just created on a clean free id gives its creator everything back. */
  lemma NewThenEject(c: Ctx, s: u32, a: NewArgs, slot: u32)
    requires Public(c.nextFreeId) && s in c.accounts && c.accounts[s].balance >= MinBalance(a)
    requires NewId(c, s, a) !in c.accounts && forall k | k in c.dict :: k.service != NewId(c, s, a)
    ensures var d := New(c, s, a, slot).0;
            Eject(d, s, NewId(c, s, a)).0 == c.(nextFreeId := d.nextFreeId)
  {
    var id, d := NewId(c, s, a), New(c, s, a, slot).0;
    var e := Eject(d, s, id).0;
    assert e.accounts.Keys == c.accounts.Keys;
    forall t | t in c.accounts
      ensures e.accounts[t] == c.accounts[t]
    {
    }
    assert e.accounts == c.accounts;
    assert DropService(d.dict, id) == c.dict;
  }

  // ------------------------------------------------------------ who pays whom

  function BalanceOf(c: Ctx, t: u32): nat {
    if t in c.accounts then c.accounts[t].balance else 0
  }

  /** A transfer is refused exactly without a destination, a sender who can pay, or a readable memo. */
  predicate SendAccepted(c: Ctx, s: u32, dest: u32, amount: u64, memo: Memo) {
    dest in c.accounts && s in c.accounts && c.accounts[s].balance >= amount && !memo.Unreadable?
  }

  /** The sender is debited and only the destination credited: at once without a memo, through one record with it. */
  lemma SendMovesAmount(c: Ctx, s: u32, dest: u32, amount: u64, gas: u64, memo: Memo, t: u32)
    ensures var (d, record, reply) := Send(c, s, dest, amount, gas, memo);
            && d.dict == c.dict && d.accounts.Keys == c.accounts.Keys
            && (SendAccepted(c, s, dest, amount, memo) <==> reply == 0)
            && BalanceOf(d, t) == BalanceOf(c, t)
                 - (if reply == 0 && t == s then amount else 0)
                 + (if reply == 0 && t == dest && memo.NoMemo? then amount else 0)
            && record == if reply == 0 && memo.Memo? then Some(Transfer(s, dest, amount, gas, memo.data)) else None
  {
  }

  /** Ejecting is refused without another live account; it credits a live caller and touches no third account. */
  lemma EjectMovesBalance(c: Ctx, s: u32, d: u32, t: u32)
    requires t != d
    ensures var (e, reply) := Eject(c, s, d);
            && (reply == 0 <==> d in c.accounts && d != s)
            && (t in e.accounts <==> t in c.accounts)
            && BalanceOf(e, t) == BalanceOf(c, t)
                 + (if reply == 0 && t == s && s in c.accounts then BalanceOf(c, d) else 0)
            && (reply == 0 ==> e.dict == DropService(c.dict, d))
  {
  }

  /** A transfer or an ejection by some service. */
  datatype Movement =
    | Payment(source: u32, dest: u32, amount: u64, gas: u64, memo: Memo)
    | Ejection(source: u32, target: u32)

  function Moved(c: Ctx, m: Movement): Ctx {
    match m
    case Payment(source, dest, amount, gas, memo) => Send(c, source, dest, amount, gas, memo).0
    case Ejection(source, target) => Eject(c, source, target).0
  }

  function MovedAll(c: Ctx, ms: seq<Movement>): Ctx {
    if ms == [] then c else Moved(MovedAll(c, ms[..|ms| - 1]), ms[|ms| - 1])
  }

  /** What a movement made in state `c` is worth to `t`: what it receives or gains, less what it sends. */
  function WorthTo(c: Ctx, m: Movement, t: u32): int {
    match m
    case Payment(source, dest, amount, _, memo) =>
      if SendAccepted(c, source, dest, amount, memo)
      then (if t == dest && memo.NoMemo? then amount else 0) - (if t == source then amount else 0)
      else 0
    case Ejection(source, target) =>
      if t == source && t in c.accounts && target != t then BalanceOf(c, target) else 0
  }

  /** The sum over the movements of a run, each in the state it is made in. */
  function LedgerOf(c: Ctx, ms: seq<Movement>, t: u32): int {
    if ms == [] then 0
    else LedgerOf(c, ms[..|ms| - 1], t) + WorthTo(MovedAll(c, ms[..|ms| - 1]), ms[|ms| - 1], t)
  }

  /** Over any transfers and ejections an account that is not ejected has exactly what its ledger says. */
  lemma {:induction false} LedgerBalances(c: Ctx, ms: seq<Movement>, t: u32)
    requires forall m | m in ms && m.Ejection? :: m.target != t
    ensures BalanceOf(MovedAll(c, ms), t) == BalanceOf(c, t) + LedgerOf(c, ms, t)
    decreases |ms|
  {
    if ms != [] {
      var before, m := MovedAll(c, ms[..|ms| - 1]), ms[|ms| - 1];
      LedgerBalances(c, ms[..|ms| - 1], t);
      match m
      case Payment(source, dest, amount, gas, memo) =>
        SendMovesAmount(before, source, dest, amount, gas, memo, t);
      case Ejection(source, target) =>
        assert m in ms;
        EjectMovesBalance(before, source, target, t);
    }
  }

  // ------------------------------------------------------------ the life of a request

  ghost predicate Status(c: Ctx, k: Key, slots: seq<u32>) {
    |slots| < 128 && k in c.dict && c.dict[k] == EncodeStatus(slots)
  }

  /** Old enough to be expunged in a block at `now`. */
  predicate Expired(since: u32, now: u32) {
    since + EXPUNGE < now
  }

  /** An available request that is forgotten becomes unavailable since then. */
  lemma ForgetAvailable(c: Ctx, s: u32, length: u32, hash: bytes, from: u32, now: u32)
    requires Status(c, RequestKey(s, length, hash), [from])
    ensures var (d, reply) := Forget(c, s, length, hash, now);
            reply == 0 && Status(d, RequestKey(s, length, hash), [from, now]) && d.accounts == c.accounts
  {
    StatusRoundTrip([from]);
  }

  /** An unavailable request is dropped with its preimage once it has expired, and kept before. */
  lemma ForgetUnavailable(c: Ctx, s: u32, length: u32, hash: bytes, from: u32, since: u32, now: u32)
    requires Status(c, RequestKey(s, length, hash), [from, since])
    ensures var (d, reply) := Forget(c, s, length, hash, now);
            if Expired(since, now)
            then reply == 0 && d.dict == c.dict - {RequestKey(s, length, hash), PreimageKey(s, hash)}
            else reply == HUH && d == c
  {
    StatusRoundTrip([from, since]);
  }

  // ------------------------------------------------------------ when a preimage is dropped

  /** A solicit or a forget of the service, in a block at `slot`. */
  datatype RequestCall = RequestCall(forget: bool, length: u32, hash: bytes, slot: u32)

  function RequestStep(c: Ctx, s: u32, r: RequestCall): Ctx {
    if r.forget then Forget(c, s, r.length, r.hash, r.slot).0 else Solicit(c, s, r.length, r.hash, r.slot).0
  }

  function RequestRun(c: Ctx, s: u32, rs: seq<RequestCall>): Ctx {
    if rs == [] then c else RequestStep(RequestRun(c, s, rs[..|rs| - 1]), s, rs[|rs| - 1])
  }

  predicate SameRequest(q: RequestCall, r: RequestCall) {
    q.length == r.length && q.hash == r.hash
  }

  /** What the dictionary holds of a request. */
  function RequestOf(c: Ctx, s: u32, length: u32, hash: bytes): Option<seq<u32>> {
    var k := RequestKey(s, length, hash);
    if k in c.dict then Some(DecodeStatus(c.dict[k])) else None
  }

  /** The life of a request: opened, provided, forgotten, reopened, and dropped once it has expired. */
  function NextSlots(v: Option<seq<u32>>, forget: bool, now: u32): Option<seq<u32>> {
    match v
    case None => if forget then None else Some([])
    case Some(slots) =>
      if !forget then Some(if |slots| == 2 then slots + [now] else slots)
      else if |slots| == 0 then None
      else if |slots| == 1 then Some(slots + [now])
      else if |slots| == 2 then if Expired(slots[1], now) then None else v
      else if |slots| == 3 then Some(if Expired(slots[1], now) then [slots[2], now] else slots)
      else v
  }

  /** The calls on one request, followed through its life. */
  function SlotsRun(v: Option<seq<u32>>, rs: seq<RequestCall>, length: u32, hash: bytes): Option<seq<u32>> {
    if rs == [] then v
    else
      var before, r := SlotsRun(v, rs[..|rs| - 1], length, hash), rs[|rs| - 1];
      if r.length == length && r.hash == hash then NextSlots(before, r.forget, r.slot) else before
  }

  lemma SolicitFollows(c: Ctx, s: u32, length: u32, hash: bytes, now: u32)
    ensures RequestOf(Solicit(c, s, length, hash, now).0, s, length, hash)
         == NextSlots(RequestOf(c, s, length, hash), false, now)
  {
    StatusRoundTrip([]);
    match RequestOf(c, s, length, hash)
    case None =>
    case Some(slots) =>
      if |slots| == 2 {
        assert slots + [now] == [slots[0], slots[1], now];
        StatusRoundTrip([slots[0], slots[1], now]);
      }
  }

  lemma ForgetFollows(c: Ctx, s: u32, length: u32, hash: bytes, now: u32)
    ensures RequestOf(Forget(c, s, length, hash, now).0, s, length, hash)
         == NextSlots(RequestOf(c, s, length, hash), true, now)
  {
    match RequestOf(c, s, length, hash)
    case None =>
    case Some(slots) =>
      if |slots| == 1 {
        assert slots + [now] == [slots[0], now];
        StatusRoundTrip([slots[0], now]);
      } else if |slots| == 3 {
        StatusRoundTrip([slots[2], now]);
      }
  }

  lemma StepFollows(c: Ctx, s: u32, r: RequestCall)
    ensures RequestOf(RequestStep(c, s, r), s, r.length, r.hash)
         == NextSlots(RequestOf(c, s, r.length, r.hash), r.forget, r.slot)
  {
    if r.forget {
      ForgetFollows(c, s, r.length, r.hash, r.slot);
    } else {
      SolicitFollows(c, s, r.length, r.hash, r.slot);
    }
  }

  /** A call on one request leaves the others alone. */
  lemma OtherRequest(c: Ctx, s: u32, r: RequestCall, length: u32, hash: bytes)
    requires (r.length != length || r.hash != hash) && length != PREIMAGE
    ensures RequestOf(RequestStep(c, s, r), s, length, hash) == RequestOf(c, s, length, hash)
  {
  }

  /** Whatever else is solicited and forgotten in between, the stored bytes of a request follow its life. */
  lemma {:induction false} RunFollows(c: Ctx, s: u32, rs: seq<RequestCall>, length: u32, hash: bytes)
    requires length != PREIMAGE
    ensures RequestOf(RequestRun(c, s, rs), s, length, hash)
         == SlotsRun(RequestOf(c, s, length, hash), rs, length, hash)
    decreases |rs|
  {
    if rs != [] {
      var before, r := RequestRun(c, s, rs[..|rs| - 1]), rs[|rs| - 1];
      RunFollows(c, s, rs[..|rs| - 1], length, hash);
      if r.length == length && r.hash == hash {
        StepFollows(before, s, r);
      } else {
        OtherRequest(before, s, r, length, hash);
      }
    }
  }

  /** At most three slots, in order and not in the future. */
  ghost predicate Chronological(v: Option<seq<u32>>, now: u32) {
    v.Some? ==>
      && |v.value| <= 3
      && (forall i, j | 0 <= i < j < |v.value| :: v.value[i] <= v.value[j])
      && forall i | 0 <= i < |v.value| :: v.value[i] <= now
  }

  lemma NextChronological(v: Option<seq<u32>>, forget: bool, before: u32, now: u32)
    requires Chronological(v, before) && before <= now
    ensures Chronological(NextSlots(v, forget, now), now)
  {
  }

  ghost predicate SlotsRise(rs: seq<RequestCall>, from: u32) {
    && (forall i | 0 <= i < |rs| :: from <= rs[i].slot)
    && forall i, j | 0 <= i < j < |rs| :: rs[i].slot <= rs[j].slot
  }

  /** In blocks of rising slots a request's status is always chronological, however often it is reopened. */
  lemma StatusChronological(
    c: Ctx, s: u32, rs: seq<RequestCall>, length: u32, hash: bytes, from: u32)
    requires length != PREIMAGE && SlotsRise(rs, from) && Chronological(RequestOf(c, s, length, hash), from)
    ensures Chronological(
              RequestOf(RequestRun(c, s, rs), s, length, hash), if rs == [] then from else rs[|rs| - 1].slot)
  {
    RunFollows(c, s, rs, length, hash);
    SlotsChronological(RequestOf(c, s, length, hash), rs, length, hash, from);
  }

  lemma {:induction false} SlotsChronological(
    v: Option<seq<u32>>, rs: seq<RequestCall>, length: u32, hash: bytes, from: u32)
    requires SlotsRise(rs, from) && Chronological(v, from)
    ensures Chronological(SlotsRun(v, rs, length, hash), if rs == [] then from else rs[|rs| - 1].slot)
    decreases |rs|
  {
    if rs != [] {
      var init, r := rs[..|rs| - 1], rs[|rs| - 1];
      var last := if init == [] then from else init[|init| - 1].slot;
      SlotsChronological(v, init, length, hash, from);
      NextChronological(SlotsRun(v, init, length, hash), r.forget, last, r.slot);
    }
  }

  /** Call `i` forgets a request that no later call before `j` solicits. */
  ghost predicate ForgottenUntil(rs: seq<RequestCall>, i: nat, j: nat)
    requires i < j <= |rs|
  {
    rs[i].forget && forall k | i < k < j && SameRequest(rs[k], rs[i]) :: rs[k].forget
  }

  /** A request for `hash` was forgotten, not solicited again, and forgotten again more than 32 slots later. */
  ghost predicate Expunged(rs: seq<RequestCall>, hash: bytes) {
    exists i, j :: 0 <= i < j < |rs| && rs[i].hash == hash && SameRequest(rs[j], rs[i]) && rs[j].forget
                   && ForgottenUntil(rs, i, j) && Expired(rs[i].slot, rs[j].slot)
  }

  /** The slots of a request; none when there is no such entry. */
  function SlotsOf(c: Ctx, s: u32, length: u32, hash: bytes): seq<u32> {
    match RequestOf(c, s, length, hash) case None => [] case Some(slots) => slots
  }

  predicate Unavailable(c: Ctx, s: u32, length: u32, hash: bytes) {
    |SlotsOf(c, s, length, hash)| == 2
  }

  /** At the end of these calls the request was last made unavailable by call `i`. */
  ghost predicate ForgottenAt(rs: seq<RequestCall>, i: int, length: u32, hash: bytes, since: u32) {
    && 0 <= i < |rs| && rs[i].length == length && rs[i].hash == hash && rs[i].slot == since
    && ForgottenUntil(rs, i, |rs|)
  }

  /** The request had these slots at the start, unavailable since then, and no call has solicited it. */
  ghost predicate ForgottenBefore(start: seq<u32>, rs: seq<RequestCall>, length: u32, hash: bytes, since: u32) {
    && |start| == 2 && start[1] == since
    && forall k | 0 <= k < |rs| && rs[k].length == length && rs[k].hash == hash :: rs[k].forget
  }

  /** An unavailable request became so by a forget, of the run or before it, that no solicit has followed. */
  ghost predicate Explained(start: seq<u32>, slots: seq<u32>, rs: seq<RequestCall>, length: u32, hash: bytes) {
    |slots| == 2 ==>
      || ForgottenBefore(start, rs, length, hash, slots[1])
      || exists i :: ForgottenAt(rs, i, length, hash, slots[1])
  }

  /** A forget stays the last word on its request until the request is solicited. */
  lemma ForgottenStill(rs: seq<RequestCall>, i: int, length: u32, hash: bytes, since: u32)
    requires rs != [] && ForgottenAt(rs[..|rs| - 1], i, length, hash, since)
    requires var r := rs[|rs| - 1]; r.length == length && r.hash == hash ==> r.forget
    ensures ForgottenAt(rs, i, length, hash, since)
  {
  }

  /** A call leaves a request unavailable only as it was, or since now by a forget of it. */
  lemma SlotsAfter(c: Ctx, s: u32, r: RequestCall, length: u32, hash: bytes)
    requires length != PREIMAGE && |SlotsOf(RequestStep(c, s, r), s, length, hash)| == 2
    ensures var before, after := SlotsOf(c, s, length, hash), SlotsOf(RequestStep(c, s, r), s, length, hash);
            && (r.length == length && r.hash == hash ==> r.forget)
            && (before == after || (r.length == length && r.hash == hash && after[1] == r.slot))
  {
    if r.length == length && r.hash == hash {
      StepFollows(c, s, r);
    } else {
      OtherRequest(c, s, r, length, hash);
    }
  }

  lemma ExplainedStep(
    start: seq<u32>, before: seq<u32>, after: seq<u32>, rs: seq<RequestCall>, length: u32, hash: bytes)
    requires rs != [] && |after| == 2 && Explained(start, before, rs[..|rs| - 1], length, hash)
    requires var r := rs[|rs| - 1];
             && (r.length == length && r.hash == hash ==> r.forget)
             && (before == after || (r.length == length && r.hash == hash && after[1] == r.slot))
    ensures Explained(start, after, rs, length, hash)
  {
    var init := rs[..|rs| - 1];
    if before != after {
      assert ForgottenAt(rs, |rs| - 1, length, hash, after[1]);
    } else if !ForgottenBefore(start, init, length, hash, before[1]) {
      var i :| ForgottenAt(init, i, length, hash, before[1]);
      ForgottenStill(rs, i, length, hash, before[1]);
    }
  }

  lemma {:induction false} RunExplained(c: Ctx, s: u32, rs: seq<RequestCall>, length: u32, hash: bytes)
    requires length != PREIMAGE
    ensures Explained(SlotsOf(c, s, length, hash), SlotsOf(RequestRun(c, s, rs), s, length, hash), rs, length, hash)
    decreases |rs|
  {
    if rs != [] {
      var before, r := RequestRun(c, s, rs[..|rs| - 1]), rs[|rs| - 1];
      var slots := SlotsOf(RequestStep(before, s, r), s, length, hash);
      RunExplained(c, s, rs[..|rs| - 1], length, hash);
      if |slots| == 2 {
        SlotsAfter(before, s, r, length, hash);
        ExplainedStep(SlotsOf(c, s, length, hash), SlotsOf(before, s, length, hash), slots, rs, length, hash);
      }
    }
  }

  /** A call that removes a preimage is a forget of an unavailable request for it, more than 32 slots old. */
  lemma DroppedBy(c: Ctx, s: u32, r: RequestCall, hash: bytes)
    requires r.length != PREIMAGE
    requires PreimageKey(s, hash) in c.dict && PreimageKey(s, hash) !in RequestStep(c, s, r).dict
    ensures r.forget && r.hash == hash && Unavailable(c, s, r.length, hash)
    ensures Expired(SlotsOf(c, s, r.length, hash)[1], r.slot)
  {
  }

  /** Call `j` forgets a request for `hash` that was unavailable before the run, never solicited, and expired. */
  ghost predicate ExpungedAt(c0: Ctx, s: u32, rs: seq<RequestCall>, hash: bytes, j: int) {
    && 0 <= j < |rs| && rs[j].forget && rs[j].hash == hash
    && var start := SlotsOf(c0, s, rs[j].length, hash);
       |start| == 2 && ForgottenBefore(start, rs[..j], rs[j].length, hash, start[1]) && Expired(start[1], rs[j].slot)
  }

  ghost predicate Dropped(c0: Ctx, s: u32, rs: seq<RequestCall>, hash: bytes) {
    Expunged(rs, hash) || exists j :: ExpungedAt(c0, s, rs, hash, j)
  }

  lemma DroppedStill(c0: Ctx, s: u32, rs: seq<RequestCall>, hash: bytes)
    requires rs != [] && Dropped(c0, s, rs[..|rs| - 1], hash)
    ensures Dropped(c0, s, rs, hash)
  {
    var init := rs[..|rs| - 1];
    if Expunged(init, hash) {
      ExpungedStill(rs, hash);
    } else {
      var j :| ExpungedAt(c0, s, init, hash, j);
      assert init[..j] == rs[..j] && init[j] == rs[j];
      assert ExpungedAt(c0, s, rs, hash, j);
    }
  }

  lemma ExpungedStill(rs: seq<RequestCall>, hash: bytes)
    requires rs != [] && Expunged(rs[..|rs| - 1], hash)
    ensures Expunged(rs, hash)
  {
    var init := rs[..|rs| - 1];
    var i, j :| 0 <= i < j < |init| && init[i].hash == hash && SameRequest(init[j], init[i]) && init[j].forget
                && ForgottenUntil(init, i, j) && Expired(init[i].slot, init[j].slot);
    assert ForgottenUntil(rs, i, j);
  }

  lemma DropExplained(c0: Ctx, c: Ctx, s: u32, rs: seq<RequestCall>, hash: bytes)
    requires rs != [] && rs[|rs| - 1].length != PREIMAGE
    requires var r := rs[|rs| - 1];
             Explained(SlotsOf(c0, s, r.length, hash), SlotsOf(c, s, r.length, hash), rs[..|rs| - 1], r.length, hash)
    requires PreimageKey(s, hash) in c.dict && PreimageKey(s, hash) !in RequestStep(c, s, rs[|rs| - 1]).dict
    ensures Dropped(c0, s, rs, hash)
  {
    var n, r := |rs| - 1, rs[|rs| - 1];
    DroppedBy(c, s, r, hash);
    var since := SlotsOf(c, s, r.length, hash)[1];
    if ForgottenBefore(SlotsOf(c0, s, r.length, hash), rs[..n], r.length, hash, since) {
      assert ExpungedAt(c0, s, rs, hash, n);
    } else {
      var i :| ForgottenAt(rs[..n], i, r.length, hash, since);
      assert ForgottenUntil(rs, i, n);
    }
  }

  /**
   * Over any solicits and forgets of a service, of any requests in any order, a preimage goes only by two
   * forgets of one request for it, the first perhaps before the run, more than 32 slots apart, with no
   * solicit of that request between them.
   */
  lemma {:induction false} PreimageKept(c: Ctx, s: u32, rs: seq<RequestCall>, hash: bytes)
    requires forall r | r in rs :: r.length != PREIMAGE
    requires PreimageKey(s, hash) in c.dict
    ensures PreimageKey(s, hash) in RequestRun(c, s, rs).dict || Dropped(c, s, rs, hash)
    decreases |rs|
  {
    if rs != [] {
      var init, r := rs[..|rs| - 1], rs[|rs| - 1];
      assert r in rs;
      PreimageKept(c, s, init, hash);
      if Dropped(c, s, init, hash) {
        DroppedStill(c, s, rs, hash);
      } else if PreimageKey(s, hash) !in RequestStep(RequestRun(c, s, init), s, r).dict {
        RunExplained(c, s, init, r.length, hash);
        DropExplained(c, RequestRun(c, s, init), s, rs, hash);
      }
    }
  }

  /** At length 2^32 - 2 the request is the preimage blob itself: one that begins with 0 is dropped at once. */
  lemma ReservedLengthDrops(c: Ctx, s: u32, hash: bytes, blob: bytes, now: u32)
    requires PreimageKey(s, hash) in c.dict && c.dict[PreimageKey(s, hash)] == [0] + blob
    ensures var (d, reply) := Forget(c, s, PREIMAGE, hash, now);
            reply == 0 && PreimageKey(s, hash) !in d.dict
  {
    assert DecodeStatus([0] + blob) == [];
  }

  /** No later forget comes more than 32 slots after the first. */
  ghost predicate NoneExpired(rs: seq<RequestCall>)
    requires rs != []
  {
    forall i | 0 < i < |rs| :: !Expired(rs[0].slot, rs[i].slot)
  }

  lemma NoneExpiredStep(rs: seq<RequestCall>)
    requires |rs| > 1
    ensures NoneExpired(rs) <==> NoneExpired(rs[..|rs| - 1]) && !Expired(rs[0].slot, rs[|rs| - 1].slot)
  {
  }

  /** Kept unavailable since `since`, or gone together with the preimage. */
  ghost predicate KeptOrGone(c: Ctx, s: u32, length: u32, hash: bytes, from: u32, since: u32, kept: bool) {
    if kept
    then Status(c, RequestKey(s, length, hash), [from, since]) && PreimageKey(s, hash) in c.dict
    else RequestKey(s, length, hash) !in c.dict && PreimageKey(s, hash) !in c.dict
  }

  lemma KeptStep(c: Ctx, s: u32, length: u32, hash: bytes, from: u32, since: u32, now: u32, kept: bool)
    requires KeptOrGone(c, s, length, hash, from, since, kept) && length != PREIMAGE
    ensures KeptOrGone(Forget(c, s, length, hash, now).0, s, length, hash, from, since, kept && !Expired(since, now))
  {
    if kept {
      ForgetUnavailable(c, s, length, hash, from, since, now);
    }
  }

  /** Forgets of one request, from when it is available, drop it with its preimage exactly once it has expired. */
  lemma {:induction false} ForgetsDropIff(
    c: Ctx, s: u32, length: u32, hash: bytes, from: u32, rs: seq<RequestCall>)
    requires Status(c, RequestKey(s, length, hash), [from]) && PreimageKey(s, hash) in c.dict && length != PREIMAGE
    requires rs != [] && forall i | 0 <= i < |rs| :: rs[i].forget && rs[i].length == length && rs[i].hash == hash
    ensures KeptOrGone(RequestRun(c, s, rs), s, length, hash, from, rs[0].slot, NoneExpired(rs))
    decreases |rs|
  {
    var n := |rs| - 1;
    if n == 0 {
      assert rs[..n] == [];
      ForgetAvailable(c, s, length, hash, from, rs[0].slot);
    } else {
      ForgetsDropIff(c, s, length, hash, from, rs[..n]);
      NoneExpiredStep(rs);
      KeptStep(RequestRun(c, s, rs[..n]), s, length, hash, from, rs[0].slot, rs[n].slot, NoneExpired(rs[..n]));
    }
  }

  // ------------------------------------------------------------ rollback

  lemma {:induction false} RunSplit(v: View, cp: View, a: seq<Call>, b: seq<Call>, s: u32, slot: u32)
    requires Public(v.ctx.nextFreeId)
    ensures var (w, mark) := RunCalls(v, cp, a, s, slot);
            Public(w.ctx.nextFreeId) && RunCalls(v, cp, a + b, s, slot) == RunCalls(w, mark, b, s, slot)
    decreases |a|
  {
    if a == [] {
      assert a + b == b;
    } else {
      HostKeepsId(v, a[0], s, slot);
      var w := Host(v, a[0], s, slot);
      RunSplit(w, if a[0].n == 17 then w else cp, a[1..], b, s, slot);
      assert (a + b)[1..] == a[1..] + b;
    }
  }

  predicate Unmarked(calls: seq<Call>) {
    forall i | 0 <= i < |calls| :: calls[i].n != 17
  }

  lemma {:induction false} MarkStays(v: View, cp: View, calls: seq<Call>, s: u32, slot: u32)
    requires Public(v.ctx.nextFreeId) && Unmarked(calls)
    ensures RunCalls(v, cp, calls, s, slot).1 == cp
    decreases |calls|
  {
    if calls != [] {
      HostKeepsId(v, calls[0], s, slot);
      MarkStays(Host(v, calls[0], s, slot), cp, calls[1..], s, slot);
    }
  }

  /** A guest that ends badly leaves exactly what it had at its last checkpoint: state, transfers and output. */
  lemma RollsBackToCheckpoint(
    c: Ctx, a: seq<Call>, k: Call, b: seq<Call>, exit: GuestExit, s: u32, slot: u32, seed: u32)
    requires k.n == 17 && Unmarked(b) && !exit.Halted?
    ensures Public(Prepared(c, seed).nextFreeId)
    ensures var start := View(Prepared(c, seed), [], None);
            Invoke(c, Script(a + [k] + b, exit), s, slot, seed) == RunCalls(start, start, a, s, slot).0
  {
    PreparedReady(c, seed);
    var start := View(Prepared(c, seed), [], None);
    RunSplit(start, start, a + [k], b, s, slot);
    RunSplit(start, start, a, [k], s, slot);
    var (w, mark) := RunCalls(start, start, a, s, slot);
    HostKeepsId(w, k, s, slot);
    assert [k][1..] == [];
    MarkStays(w, w, b, s, slot);
  }

  /** Without a checkpoint it leaves what there was before it started, but for the prepared id. */
  lemma RollsBackToStart(c: Ctx, calls: seq<Call>, exit: GuestExit, s: u32, slot: u32, seed: u32)
    requires Unmarked(calls) && !exit.Halted?
    ensures Invoke(c, Script(calls, exit), s, slot, seed) == View(Prepared(c, seed), [], None)
  {
    PreparedReady(c, seed);
    var start := View(Prepared(c, seed), [], None);
    MarkStays(start, start, calls, s, slot);
  }
}
