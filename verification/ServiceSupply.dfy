/**
 * Conservation of the token supply: by each host call, by whole invocations on every exit, and by
 * the accumulation of a block with its rounds of deferred transfers.
 */
module ServiceSupply {
  import opened Base
  import opened PagedMemory
  import opened ServiceIds
  import opened ServiceState
  import opened ServiceRun

  ghost function BalanceWeight(): (u32, Info) -> int {
    (s: u32, a: Info) => a.balance
  }

  /** Total balance of all accounts. */
  ghost function Supply(c: Ctx): int {
    MapSum<u32, Info>(c.accounts, BalanceWeight())
  }

  function Amount(ts: seq<Transfer>): nat {
    if ts == [] then 0 else Amount(ts[..|ts| - 1]) + ts[|ts| - 1].amount
  }

  /** Balances plus the transfers still outstanding. */
  ghost function Worth(v: View): int {
    Supply(v.ctx) + Amount(v.transfers)
  }

  lemma {:induction false} AmountConcat(a: seq<Transfer>, b: seq<Transfer>)
    ensures Amount(a + b) == Amount(a) + Amount(b)
    decreases |b|
  {
    if b == [] {
      assert a + b == a;
    } else {
      assert (a + b)[..|a + b| - 1] == a + b[..|b| - 1];
      AmountConcat(a, b[..|b| - 1]);
    }
  }

  lemma SetAccountSupply(c: Ctx, s: u32, a: Info)
    ensures Supply(SetAccount(c, s, a))
         == Supply(c) + a.balance - if s in c.accounts then c.accounts[s].balance else 0
  {
    MapSumInsert(c.accounts, BalanceWeight(), s, a);
  }

  lemma ChargeSupply(c: Ctx, s: u32, items: int, octets: int)
    ensures Supply(Charge(c, s, items, octets)) == Supply(c)
  {
    if s in c.accounts {
      SetAccountSupply(c, s, Charge(c, s, items, octets).accounts[s]);
    }
  }

  lemma AddBalanceSupply(c: Ctx, s: u32, amount: nat)
    ensures Supply(AddBalance(c, s, amount)) == Supply(c) + if s in c.accounts then amount else 0
  {
    if s in c.accounts {
      SetAccountSupply(c, s, AddBalance(c, s, amount).accounts[s]);
    }
  }

  /** A balance never exceeds the supply, so a supply below 2^64 keeps every balance below it. */
  lemma BalanceWithinSupply(c: Ctx, s: u32)
    requires s in c.accounts
    ensures 0 <= c.accounts[s].balance <= Supply(c)
  {
    MapSumSplit(c.accounts, BalanceWeight(), s);
    MapSumNonNegative(c.accounts - {s}, BalanceWeight());
  }

  // ------------------------------------------------------------ single calls

  lemma StorageCallsKeepSupply(c: Ctx, s: u32, key: bytes, value: bytes, length: u32, slot: u32)
    ensures Supply(Write(c, s, key, value).0) == Supply(c)
    ensures Supply(Solicit(c, s, length, key, slot).0) == Supply(c)
    ensures Supply(Forget(c, s, length, key, slot).0) == Supply(c)
  {
    forall items, octets { ChargeSupply(c, s, items, octets); }
  }

  lemma EjectKeepsSupply(c: Ctx, s: u32, d: u32)
    requires s in c.accounts
    ensures Supply(Eject(c, s, d).0) == Supply(c)
  {
    if d in c.accounts && d != s {
      MapSumRemove(c.accounts, BalanceWeight(), d);
      AddBalanceSupply(c.(accounts := c.accounts - {d}, dict := DropService(c.dict, d)), s, c.accounts[d].balance);
    }
  }

  lemma SendKeepsWorth(c: Ctx, s: u32, dest: u32, amount: u64, gas: u64, memo: Memo)
    ensures var (d, t, _) := Send(c, s, dest, amount, gas, memo);
            Supply(d) + (match t case None => 0 case Some(x) => x.amount) == Supply(c)
  {
    if dest in c.accounts && s in c.accounts && c.accounts[s].balance >= amount {
      var debited := SetAccount(c, s, c.accounts[s].(balance := c.accounts[s].balance - amount));
      SetAccountSupply(c, s, debited.accounts[s]);
      AddBalanceSupply(debited, dest, amount);
    }
  }

  /** What the caller pays: all it has if that is too little; overwriting itself, it pays from its new balance. */
  function NewPaid(c: Ctx, s: u32, a: NewArgs): int
    requires s in c.accounts
  {
    if NewId(c, s, a) == s then MinBalance(a) else Min(c.accounts[s].balance, MinBalance(a))
  }

  function NewOverwritten(c: Ctx, s: u32, a: NewArgs): nat {
    var id := NewId(c, s, a);
    if id in c.accounts then c.accounts[id].balance else 0
  }

  /** The exact change `new` makes to the supply: what the fresh account gets, minus what is taken or overwritten. */
  lemma NewSupply(c: Ctx, s: u32, a: NewArgs, slot: u32)
    requires Public(c.nextFreeId) && s in c.accounts
    ensures Supply(New(c, s, a, slot).0) == Supply(c) + MinBalance(a) - NewPaid(c, s, a) - NewOverwritten(c, s, a)
  {
    var id, info := NewId(c, s, a), NewInfo(a, s, slot);
    var next := FirstFree(Advance(c.nextFreeId, STRIDE), c.accounts.Keys);
    var d := NewCreated(c, s, id, a, slot, next);
    MapSumInsert(c.accounts, BalanceWeight(), id, info);
    SetAccountSupply(d, s, Withdraw(d, s, MinBalance(a)).accounts[s]);
  }

  /**
   * When `new` conserves the supply. On a free id: exactly when the caller can pay. On the id of another
   * account: exactly when the overwritten balance plus the payment equals the new balance. On its own id:
   * exactly when it had nothing.
   */
  predicate NewConserves(c: Ctx, s: u32, a: NewArgs) {
    var id := NewId(c, s, a);
    && s in c.accounts
    && if id == s then c.accounts[s].balance == 0
       else if id in c.accounts
       then c.accounts[id].balance + Min(c.accounts[s].balance, MinBalance(a)) == MinBalance(a)
       else c.accounts[s].balance >= MinBalance(a)
  }

  lemma NewConservesIff(c: Ctx, s: u32, a: NewArgs, slot: u32)
    requires Public(c.nextFreeId) && s in c.accounts
    ensures Supply(New(c, s, a, slot).0) == Supply(c) <==> NewConserves(c, s, a)
  {
    NewSupply(c, s, a, slot);
  }

  // ------------------------------------------------------------ invocations

  ghost function Conserving(s: u32): (View, Call) -> bool {
    (v: View, k: Call) => CreatesAccount(k) ==> NewConserves(v.ctx, s, NewArgsOf(k))
  }

  /** Any call of any kind keeps worth if and only if it is not a `new` that changes the supply. */
  lemma HostKeepsWorthIff(v: View, k: Call, s: u32, slot: u32)
    requires Public(v.ctx.nextFreeId) && s in v.ctx.accounts
    ensures Worth(Host(v, k, s, slot)) == Worth(v) <==> Conserving(s)(v, k)
  {
    var c := v.ctx;
    if k.n == 18 {
      if CreatesAccount(k) {
        NewConservesIff(c, s, NewArgsOf(k), slot);
      }
    } else if k.n == 20 {
      var (d, t, _) := Send(c, s, Low32(k.regs[7]), k.regs[8], k.regs[9], MemoArg(k.mem, Low32(k.regs[10])));
      SendKeepsWorth(c, s, Low32(k.regs[7]), k.regs[8], k.regs[9], MemoArg(k.mem, Low32(k.regs[10])));
      if t.Some? {
        AmountConcat(v.transfers, [t.value]);
        assert [t.value][..0] == [];
      }
    } else if k.n == 21 {
      EjectKeepsSupply(c, s, Low32(k.regs[7]));
    } else {
      StorageDispatchKeepsSupply(v, k, s, slot);
    }
  }

  lemma StorageDispatchKeepsSupply(v: View, k: Call, s: u32, slot: u32)
    requires Public(v.ctx.nextFreeId) && k.n !in {18, 20, 21}
    ensures Worth(Host(v, k, s, slot)) == Worth(v)
  {
    var kp, vp := Low32(k.regs[7]), Low32(k.regs[9]);
    if k.n == 4 {
      StorageCallsKeepSupply(v.ctx, s, LoadBytes(k.mem, kp, k.regs[8]), LoadBytes(k.mem, vp, k.regs[10]), 0, slot);
    } else if k.n == 23 || k.n == 24 {
      StorageCallsKeepSupply(v.ctx, s, LoadBytes(k.mem, kp, 32), [], Low32(k.regs[8]), slot);
    }
  }

  ghost function HasWorth(worth: int): View -> bool {
    (v: View) => Worth(v) == worth
  }

  /** Worth is the same at every point of a run if and only if every account it creates conserves the supply. */
  lemma RunWorthIff(v: View, calls: seq<Call>, s: u32, slot: u32)
    requires Public(v.ctx.nextFreeId) && s in v.ctx.accounts
    ensures AllMeet(Conserving(s), v, calls, s, slot) <==> Throughout(HasWorth(Worth(v)), v, calls, s, slot)
  {
    var kept := HasWorth(Worth(v));
    forall w: View, k: Call | Public(w.ctx.nextFreeId) && s in w.ctx.accounts && kept(w)
      ensures kept(Host(w, k, s, slot)) <==> Conserving(s)(w, k)
    {
      HostKeepsWorthIff(w, k, s, slot);
    }
    RunIff(kept, Conserving(s), v, calls, s, slot);
  }

  /** Every account the invocation creates conserves the supply. */
  ghost predicate InvocationSound(c: Ctx, script: Script, s: u32, slot: u32, seed: u32) {
    script.Script? ==>
      (PreparedReady(c, seed);
       s in c.accounts && AllMeet(Conserving(s), View(Prepared(c, seed), [], None), script.calls, s, slot))
  }

  /** On every exit - halt, rollback to a checkpoint or to the start, code that does not load - worth is kept. */
  lemma InvokeKeepsWorth(c: Ctx, script: Script, s: u32, slot: u32, seed: u32)
    requires InvocationSound(c, script, s, slot, seed)
    ensures Worth(Invoke(c, script, s, slot, seed)) == Supply(c)
  {
    if script.Script? {
      PreparedReady(c, seed);
      var start := View(Prepared(c, seed), [], None);
      RunWorthIff(start, script.calls, s, slot);
      RunKeeps(HasWorth(Worth(start)), start, start, script.calls, s, slot);
      var (v, cp) := RunCalls(start, start, script.calls, s, slot);
      assert HasWorth(Worth(start))(v) && HasWorth(Worth(start))(cp);
    }
  }

  /** Every balance fits 64 bits. */
  ghost function BalancesFit(): View -> bool {
    (v: View) => forall t | t in v.ctx.accounts :: v.ctx.accounts[t].balance < W64
  }

  ghost predicate InvocationFits(c: Ctx, script: Script, s: u32, slot: u32, seed: u32) {
    script.Script? ==>
      (PreparedReady(c, seed);
       Throughout(BalancesFit(), View(Prepared(c, seed), [], None), script.calls, s, slot))
  }

  /** From a supply below 2^64 no balance overflows at any point of a sound invocation. */
  lemma InvocationNeverOverflows(c: Ctx, script: Script, s: u32, slot: u32, seed: u32)
    requires InvocationSound(c, script, s, slot, seed) && Supply(c) < W64
    ensures InvocationFits(c, script, s, slot, seed)
  {
    if script.Script? {
      PreparedReady(c, seed);
      var start := View(Prepared(c, seed), [], None);
      RunWorthIff(start, script.calls, s, slot);
      forall n | 0 <= n <= |script.calls|
        ensures BalancesFit()(ViewAfter(start, script.calls, n, s, slot))
      {
        assert HasWorth(Worth(start))(ViewAfter(start, script.calls, n, s, slot));
        WorthBoundsBalances(ViewAfter(start, script.calls, n, s, slot));
      }
    }
  }

  lemma WorthBoundsBalances(v: View)
    requires Worth(v) < W64
    ensures BalancesFit()(v)
  {
    forall t | t in v.ctx.accounts
      ensures v.ctx.accounts[t].balance < W64
    {
      BalanceWithinSupply(v.ctx, t);
    }
  }

  // ------------------------------------------------------------ deferred transfers

  /** The guest programs of a block: one script per round and account, and the id seed per account. */
  datatype Guests = Guests(script: (nat, u32) -> Script, seed: u32 -> u32)

  /** Code is looked up through the account; without one there is nothing to run. */
  function CodeOf(c: Ctx, g: Guests, round: nat, s: u32): Script {
    if s in c.accounts then g.script(round, s) else Unloadable
  }

  /** Pending transfers by destination, each list in order of emission. */
  function Group(ts: seq<Transfer>): map<u32, seq<Transfer>> {
    if ts == [] then map[]
    else
      var before, t := Group(ts[..|ts| - 1]), ts[|ts| - 1];
      before[t.dest := (if t.dest in before then before[t.dest] else []) + [t]]
  }

  /** The transfers addressed to `d`, in order. */
  ghost function ForDest(ts: seq<Transfer>, d: u32): seq<Transfer> {
    if ts == [] then []
    else
      var before, t := ForDest(ts[..|ts| - 1], d), ts[|ts| - 1];
      if t.dest == d then before + [t] else before
  }

  /** Grouping keeps every transfer, under its destination and in order. */
  lemma {:induction false} GroupMeaning(ts: seq<Transfer>, d: u32)
    ensures d in Group(ts) <==> ForDest(ts, d) != []
    ensures d in Group(ts) ==> Group(ts)[d] == ForDest(ts, d)
    decreases |ts|
  {
    if ts != [] {
      GroupMeaning(ts[..|ts| - 1], d);
    }
  }

  ghost function AmountWeight(): (u32, seq<Transfer>) -> int {
    (s: u32, ts: seq<Transfer>) => Amount(ts)
  }

  ghost function GroupAmount(groups: map<u32, seq<Transfer>>): int {
    MapSum<u32, seq<Transfer>>(groups, AmountWeight())
  }

  lemma {:induction false} GroupKeepsAmount(ts: seq<Transfer>)
    ensures GroupAmount(Group(ts)) == Amount(ts)
    decreases |ts|
  {
    if ts != [] {
      var before, t := Group(ts[..|ts| - 1]), ts[|ts| - 1];
      GroupKeepsAmount(ts[..|ts| - 1]);
      var list := if t.dest in before then before[t.dest] else [];
      AmountConcat(list, [t]);
      assert [t][..0] == [];
      MapSumInsert<u32, seq<Transfer>>(before, AmountWeight(), t.dest, list + [t]);
    }
  }

  predicate Least(keys: set<u32>, k: u32) {
    k in keys && forall j | j in keys :: k <= j
  }

  lemma {:induction false} LeastExists(keys: set<u32>)
    requires keys != {}
    ensures exists k :: Least(keys, k)
    decreases keys
  {
    var k :| k in keys;
    if keys == {k} {
      assert Least(keys, k);
    } else {
      LeastExists(keys - {k});
      var l :| Least(keys - {k}, l);
      var m := if k < l then k else l;
      forall j | j in keys
        ensures m <= j
      {
        assert j == k || j in keys - {k};
      }
      assert Least(keys, m);
    }
  }

  function LeastKey(keys: set<u32>): (k: u32)
    requires keys != {}
    ensures Least(keys, k)
  {
    LeastExists(keys);
    var k :| Least(keys, k);
    k
  }

  /** What one round leaves: the state, the transfers it emitted, and those burnt for want of a destination. */
  datatype RoundOut = RoundOut(ctx: Ctx, emitted: seq<Transfer>, burnt: seq<Transfer>)

  /** Credits one destination and runs it, or burns what was sent to it. */
  function Deliver(c: Ctx, d: u32, ts: seq<Transfer>, g: Guests, round: nat, slot: u32): RoundOut {
    if d !in c.accounts then RoundOut(c, [], ts)
    else
      var v := Invoke(AddBalance(c, d, Amount(ts)), CodeOf(c, g, round, d), d, slot, g.seed(d));
      RoundOut(v.ctx, v.transfers, [])
  }

  /** Delivers every group, in ascending order of destination. */
  function Round(r: RoundOut, groups: map<u32, seq<Transfer>>, g: Guests, round: nat, slot: u32): RoundOut
    decreases groups.Keys
  {
    if groups.Keys == {} then r
    else
      var d := LeastKey(groups.Keys);
      var o := Deliver(r.ctx, d, groups[d], g, round, slot);
      Round(RoundOut(o.ctx, r.emitted + o.emitted, r.burnt + o.burnt), groups - {d}, g, round, slot)
  }

  const MAX_ROUNDS: nat := 16

  /** One round over what is pending in `r`, keeping what was burnt before. */
  function NextRound(r: RoundOut, g: Guests, round: nat, slot: u32): RoundOut {
    Round(RoundOut(r.ctx, [], r.burnt), Group(r.emitted), g, round, slot)
  }

  /** All rounds; at most sixteen, after which `emitted` holds the transfers left over. */
  function Rounds(r: RoundOut, g: Guests, round: nat, slot: u32): RoundOut
    decreases MAX_ROUNDS - round
  {
    if r.emitted == [] || round >= MAX_ROUNDS then r
    else Rounds(NextRound(r, g, round + 1, slot), g, round + 1, slot)
  }

  // ------------------------------------------------------------ the rounds conserve

  /** Every delivery of a round is sound. */
  ghost predicate RoundSound(r: RoundOut, groups: map<u32, seq<Transfer>>, g: Guests, round: nat, slot: u32)
    decreases groups.Keys
  {
    groups.Keys == {} ||
    var d := LeastKey(groups.Keys);
    var o := Deliver(r.ctx, d, groups[d], g, round, slot);
    && DeliverySound(r.ctx, d, groups[d], g, round, slot)
    && RoundSound(RoundOut(o.ctx, r.emitted + o.emitted, r.burnt + o.burnt), groups - {d}, g, round, slot)
  }

  ghost predicate DeliverySound(c: Ctx, d: u32, ts: seq<Transfer>, g: Guests, round: nat, slot: u32) {
    d in c.accounts ==> InvocationSound(AddBalance(c, d, Amount(ts)), CodeOf(c, g, round, d), d, slot, g.seed(d))
  }

  ghost predicate RoundsSound(r: RoundOut, g: Guests, round: nat, slot: u32)
    decreases MAX_ROUNDS - round
  {
    r.emitted == [] || round >= MAX_ROUNDS ||
    (RoundSound(RoundOut(r.ctx, [], r.burnt), Group(r.emitted), g, round + 1, slot)
     && RoundsSound(NextRound(r, g, round + 1, slot), g, round + 1, slot))
  }

  ghost function Total(r: RoundOut): int {
    Supply(r.ctx) + Amount(r.emitted) + Amount(r.burnt)
  }

  /** The sum of the transfers, the credit, and every balance during the run fit 64 bits. */
  ghost predicate DeliveryFits(c: Ctx, d: u32, ts: seq<Transfer>, g: Guests, round: nat, slot: u32) {
    d in c.accounts ==>
      && Amount(ts) < W64 && c.accounts[d].balance + Amount(ts) < W64
      && InvocationFits(AddBalance(c, d, Amount(ts)), CodeOf(c, g, round, d), d, slot, g.seed(d))
  }

  /**
   * At every point of the round, what there is and what is still to be delivered make `total`; and if that
   * is below 2^64, no delivery overflows.
   */
  ghost predicate RoundAccounted(
    total: int, r: RoundOut, groups: map<u32, seq<Transfer>>, g: Guests, round: nat, slot: u32)
    decreases groups.Keys
  {
    && Total(r) + GroupAmount(groups) == total
    && (groups.Keys == {} ||
        var d := LeastKey(groups.Keys);
        var o := Deliver(r.ctx, d, groups[d], g, round, slot);
        && (total < W64 ==> DeliveryFits(r.ctx, d, groups[d], g, round, slot))
        && RoundAccounted(
             total, RoundOut(o.ctx, r.emitted + o.emitted, r.burnt + o.burnt), groups - {d}, g, round, slot))
  }

  ghost predicate RoundsAccounted(total: int, r: RoundOut, g: Guests, round: nat, slot: u32)
    decreases MAX_ROUNDS - round
  {
    && Total(r) == total
    && (r.emitted == [] || round >= MAX_ROUNDS ||
        (RoundAccounted(total, RoundOut(r.ctx, [], r.burnt), Group(r.emitted), g, round + 1, slot)
         && RoundsAccounted(total, NextRound(r, g, round + 1, slot), g, round + 1, slot)))
  }

  lemma DeliverAccounts(c: Ctx, d: u32, ts: seq<Transfer>, g: Guests, round: nat, slot: u32)
    requires DeliverySound(c, d, ts, g, round, slot)
    ensures Total(Deliver(c, d, ts, g, round, slot)) == Supply(c) + Amount(ts)
    ensures Supply(c) + Amount(ts) < W64 ==> DeliveryFits(c, d, ts, g, round, slot)
  {
    if d in c.accounts {
      var credited := AddBalance(c, d, Amount(ts));
      AddBalanceSupply(c, d, Amount(ts));
      InvokeKeepsWorth(credited, CodeOf(c, g, round, d), d, slot, g.seed(d));
      if Supply(c) + Amount(ts) < W64 {
        BalanceWithinSupply(c, d);
        InvocationNeverOverflows(credited, CodeOf(c, g, round, d), d, slot, g.seed(d));
      }
    }
  }

  /** What is still to be delivered after a group is taken out; no group is worth less than nothing. */
  lemma GroupTaken(groups: map<u32, seq<Transfer>>, d: u32)
    requires d in groups
    ensures GroupAmount(groups) == Amount(groups[d]) + GroupAmount(groups - {d}) && GroupAmount(groups - {d}) >= 0
  {
    MapSumSplit<u32, seq<Transfer>>(groups, AmountWeight(), d);
    MapSumNonNegative<u32, seq<Transfer>>(groups - {d}, AmountWeight());
  }

  lemma {:induction false} RoundAccounts(r: RoundOut, groups: map<u32, seq<Transfer>>, g: Guests, round: nat, slot: u32)
    requires RoundSound(r, groups, g, round, slot)
    ensures Total(Round(r, groups, g, round, slot)) == Total(r) + GroupAmount(groups)
    ensures RoundAccounted(Total(r) + GroupAmount(groups), r, groups, g, round, slot)
    decreases groups.Keys
  {
    if groups.Keys != {} {
      var d := LeastKey(groups.Keys);
      var o := Deliver(r.ctx, d, groups[d], g, round, slot);
      DeliverAccounts(r.ctx, d, groups[d], g, round, slot);
      AmountConcat(r.emitted, o.emitted);
      AmountConcat(r.burnt, o.burnt);
      GroupTaken(groups, d);
      RoundAccounts(RoundOut(o.ctx, r.emitted + o.emitted, r.burnt + o.burnt), groups - {d}, g, round, slot);
    }
  }

  lemma NextRoundAccounts(r: RoundOut, g: Guests, round: nat, slot: u32)
    requires RoundSound(RoundOut(r.ctx, [], r.burnt), Group(r.emitted), g, round, slot)
    ensures Total(NextRound(r, g, round, slot)) == Total(r)
    ensures RoundAccounted(Total(r), RoundOut(r.ctx, [], r.burnt), Group(r.emitted), g, round, slot)
  {
    GroupKeepsAmount(r.emitted);
    RoundAccounts(RoundOut(r.ctx, [], r.burnt), Group(r.emitted), g, round, slot);
  }

  lemma RoundsAccountedStep(total: int, r: RoundOut, g: Guests, round: nat, slot: u32)
    requires Total(r) == total && round < MAX_ROUNDS
    requires RoundAccounted(total, RoundOut(r.ctx, [], r.burnt), Group(r.emitted), g, round + 1, slot)
    requires RoundsAccounted(total, NextRound(r, g, round + 1, slot), g, round + 1, slot)
    ensures RoundsAccounted(total, r, g, round, slot)
  {
  }

  /** Across all rounds, and at every point of each, nothing is lost but what is recorded as burnt or left over. */
  lemma {:induction false} RoundsAccount(r: RoundOut, g: Guests, round: nat, slot: u32)
    requires RoundsSound(r, g, round, slot)
    ensures Total(Rounds(r, g, round, slot)) == Total(r)
    ensures RoundsAccounted(Total(r), r, g, round, slot)
    decreases MAX_ROUNDS - round
  {
    if r.emitted != [] && round < MAX_ROUNDS {
      NextRoundAccounts(r, g, round + 1, slot);
      RoundsAccount(NextRound(r, g, round + 1, slot), g, round + 1, slot);
      RoundsAccountedStep(Total(r), r, g, round, slot);
    }
  }

  /** The number of the last round that runs. */
  function RoundsRun(r: RoundOut, g: Guests, round: nat, slot: u32): nat
    decreases MAX_ROUNDS - round
  {
    if r.emitted == [] || round >= MAX_ROUNDS then round
    else RoundsRun(NextRound(r, g, round + 1, slot), g, round + 1, slot)
  }

  /** Transfers are left over only when all sixteen rounds have run. */
  lemma {:induction false} LeftOverOnlyAtLimit(r: RoundOut, g: Guests, round: nat, slot: u32)
    requires round <= MAX_ROUNDS
    ensures Rounds(r, g, round, slot).emitted != [] ==> RoundsRun(r, g, round, slot) == MAX_ROUNDS
    decreases MAX_ROUNDS - round
  {
    if r.emitted != [] && round < MAX_ROUNDS {
      LeftOverOnlyAtLimit(NextRound(r, g, round + 1, slot), g, round + 1, slot);
    }
  }

  // ------------------------------------------------------------ a block

  /** Runs the block's services in order, collecting what they defer. */
  function RunServices(c: Ctx, deferred: seq<Transfer>, services: seq<u32>, g: Guests, slot: u32): (Ctx, seq<Transfer>)
    decreases |services|
  {
    if services == [] then (c, deferred)
    else
      var s := services[0];
      var v := Invoke(c, CodeOf(c, g, 0, s), s, slot, g.seed(s));
      RunServices(v.ctx, deferred + v.transfers, services[1..], g, slot)
  }

  ghost predicate ServicesSound(c: Ctx, services: seq<u32>, g: Guests, slot: u32)
    decreases |services|
  {
    services == [] ||
    var s := services[0];
    && InvocationSound(c, CodeOf(c, g, 0, s), s, slot, g.seed(s))
    && ServicesSound(Invoke(c, CodeOf(c, g, 0, s), s, slot, g.seed(s)).ctx, services[1..], g, slot)
  }

  /**
   * After every prefix of the services, balances and deferred transfers make `total`; and if that is below
   * 2^64, no balance overflows at any point of the next invocation.
   */
  ghost predicate ServicesAccounted(
    total: int, c: Ctx, deferred: seq<Transfer>, services: seq<u32>, g: Guests, slot: u32)
    decreases |services|
  {
    && Supply(c) + Amount(deferred) == total
    && (services == [] ||
        var s := services[0];
        var v := Invoke(c, CodeOf(c, g, 0, s), s, slot, g.seed(s));
        && (total < W64 ==> InvocationFits(c, CodeOf(c, g, 0, s), s, slot, g.seed(s)))
        && ServicesAccounted(total, v.ctx, deferred + v.transfers, services[1..], g, slot))
  }

  lemma {:induction false} ServicesAccount(c: Ctx, deferred: seq<Transfer>, services: seq<u32>, g: Guests, slot: u32)
    requires ServicesSound(c, services, g, slot)
    ensures var (d, ts) := RunServices(c, deferred, services, g, slot);
            Supply(d) + Amount(ts) == Supply(c) + Amount(deferred)
    ensures ServicesAccounted(Supply(c) + Amount(deferred), c, deferred, services, g, slot)
    decreases |services|
  {
    if services != [] {
      var s := services[0];
      var v := Invoke(c, CodeOf(c, g, 0, s), s, slot, g.seed(s));
      InvokeKeepsWorth(c, CodeOf(c, g, 0, s), s, slot, g.seed(s));
      AmountConcat(deferred, v.transfers);
      if Supply(c) + Amount(deferred) < W64 {
        InvocationNeverOverflows(c, CodeOf(c, g, 0, s), s, slot, g.seed(s));
      }
      ServicesAccount(v.ctx, deferred + v.transfers, services[1..], g, slot);
    }
  }

  /** The state and the transfers outstanding after all services. */
  function Served(c: Ctx, services: seq<u32>, g: Guests, slot: u32): RoundOut {
    var (d, deferred) := RunServices(c, [], services, g, slot);
    RoundOut(d, deferred, [])
  }

  /** The services of a block, then the rounds of deferred transfers. */
  function AccumulateBlock(c: Ctx, services: seq<u32>, g: Guests, slot: u32): RoundOut {
    Rounds(Served(c, services, g, slot), g, 0, slot)
  }

  ghost predicate BlockSound(c: Ctx, services: seq<u32>, g: Guests, slot: u32) {
    ServicesSound(c, services, g, slot) && RoundsSound(Served(c, services, g, slot), g, 0, slot)
  }

  /** At every point of the block, supply, outstanding, burnt and left-over transfers make the initial supply. */
  ghost predicate BlockAccounted(c: Ctx, services: seq<u32>, g: Guests, slot: u32) {
    && ServicesAccounted(Supply(c), c, [], services, g, slot)
    && RoundsAccounted(Supply(c), Served(c, services, g, slot), g, 0, slot)
  }

  lemma ServedAccounts(c: Ctx, services: seq<u32>, g: Guests, slot: u32)
    requires ServicesSound(c, services, g, slot)
    ensures Total(Served(c, services, g, slot)) == Supply(c)
    ensures ServicesAccounted(Supply(c), c, [], services, g, slot)
  {
    ServicesAccount(c, [], services, g, slot);
  }

  /** Over a whole block, and at every point of it, the supply shrinks by exactly what is recorded elsewhere. */
  lemma BlockAccounts(c: Ctx, services: seq<u32>, g: Guests, slot: u32)
    requires BlockSound(c, services, g, slot)
    ensures var r := AccumulateBlock(c, services, g, slot);
            Supply(r.ctx) + Amount(r.burnt) + Amount(r.emitted) == Supply(c)
    ensures BlockAccounted(c, services, g, slot)
  {
    ServedAccounts(c, services, g, slot);
    RoundsAccount(Served(c, services, g, slot), g, 0, slot);
  }

  /** With a supply below 2^64 every balance of the outcome fits as well. */
  lemma BlockNeverOverflows(c: Ctx, services: seq<u32>, g: Guests, slot: u32, s: u32)
    requires BlockSound(c, services, g, slot) && Supply(c) < W64
    requires s in AccumulateBlock(c, services, g, slot).ctx.accounts
    ensures 0 <= AccumulateBlock(c, services, g, slot).ctx.accounts[s].balance < W64
  {
    BlockAccounts(c, services, g, slot);
    BalanceWithinSupply(AccumulateBlock(c, services, g, slot).ctx, s);
  }

  /** The block loop over services and rounds, threading the state as the code does. */
  method ComputeBlock(c: Ctx, services: seq<u32>, g: Guests, slot: u32) returns (r: RoundOut)
    ensures r == AccumulateBlock(c, services, g, slot)
  {
    var exec, deferred := c, [];
    var i := 0;
    while i < |services|
      invariant 0 <= i <= |services|
      invariant RunServices(c, [], services, g, slot) == RunServices(exec, deferred, services[i..], g, slot)
    {
      var s := services[i];
      assert services[i..][1..] == services[i + 1..];
      var v := Invoke(exec, CodeOf(exec, g, 0, s), s, slot, g.seed(s));
      exec, deferred := v.ctx, deferred + v.transfers;
      i := i + 1;
    }
    r := RoundOut(exec, deferred, []);
    var round := 0;
    while r.emitted != [] && round < MAX_ROUNDS
      invariant 0 <= round <= MAX_ROUNDS
      invariant AccumulateBlock(c, services, g, slot) == Rounds(r, g, round, slot)
      decreases MAX_ROUNDS - round
    {
      round := round + 1;
      r := ComputeRound(r, g, round, slot);
    }
  }

  method ComputeRound(start: RoundOut, g: Guests, round: nat, slot: u32) returns (r: RoundOut)
    ensures r == NextRound(start, g, round, slot)
  {
    var pending := start.emitted;
    var byDest: map<u32, seq<Transfer>> := map[];
    var i := 0;
    while i < |pending|
      invariant 0 <= i <= |pending|
      invariant byDest == Group(pending[..i])
    {
      var t := pending[i];
      assert pending[..i + 1][..i] == pending[..i];
      byDest := byDest[t.dest := (if t.dest in byDest then byDest[t.dest] else []) + [t]];
      i := i + 1;
    }
    assert pending[..i] == pending;
    r := RoundOut(start.ctx, [], start.burnt);
    while byDest.Keys != {}
      invariant NextRound(start, g, round, slot) == Round(r, byDest, g, round, slot)
      decreases byDest.Keys
    {
      var d := LeastKey(byDest.Keys);
      var o := Deliver(r.ctx, d, byDest[d], g, round, slot);
      r := RoundOut(o.ctx, r.emitted + o.emitted, r.burnt + o.burnt);
      byDest := byDest - {d};
    }
  }
}
