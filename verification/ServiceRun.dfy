/**
 * Host-call dispatch and one service invocation with checkpoint rollback. The guest is any script
 * of host calls with arbitrary registers and memory, ended by a halt, a trap or running out of gas:
 * what a real program does is one such script.
 */
module ServiceRun {
  import opened Base
  import opened PagedMemory
  import opened PvmExecute
  import opened ServiceIds
  import opened ServiceState

  /** The guest's machine at the moment of a host call. */
  datatype Call = Call(n: u64, regs: Regs, mem: Mem)

  datatype GuestExit = Halted(regs: Regs, mem: Mem) | OutOfGas | Trapped

  /** A guest run: its host calls in order and how it ends; `Unloadable` code never starts. */
  datatype Script = Unloadable | Script(calls: seq<Call>, exit: GuestExit)

  /** What an invocation changes: the state, its deferred transfers and its output. */
  datatype View = View(ctx: Ctx, transfers: seq<Transfer>, yielded: Option<bytes>)

  function Low32(r: u64): u32 {
    r % W32
  }

  function MemoArg(mem: Mem, ptr: u32): Memo {
    if ptr == 0 then NoMemo
    else if !RangeOk(mem, ptr, 128, false) then Unreadable
    else Memo(LoadBytes(mem, ptr, 128))
  }

  function NewArgsOf(k: Call): NewArgs {
    NewArgs(LoadBytes(k.mem, Low32(k.regs[7]), 32), k.regs[8], k.regs[9], k.regs[10], k.regs[11], Low32(k.regs[12]))
  }

  /** A `new` call that gets as far as creating an account. */
  predicate CreatesAccount(k: Call) {
    k.n == 18 && RangeOk(k.mem, Low32(k.regs[7]), 32, false)
  }

  function WriteCall(v: View, k: Call, s: u32): View {
    var kp, vp := Low32(k.regs[7]), Low32(k.regs[9]);
    if !RangeOk(k.mem, kp, k.regs[8], false) || !RangeOk(k.mem, vp, k.regs[10], false) then v
    else v.(ctx := Write(v.ctx, s, LoadBytes(k.mem, kp, k.regs[8]), LoadBytes(k.mem, vp, k.regs[10])).0)
  }

  function SendCall(v: View, k: Call, s: u32): View {
    var (c, t, _) := Send(v.ctx, s, Low32(k.regs[7]), k.regs[8], k.regs[9], MemoArg(k.mem, Low32(k.regs[10])));
    v.(ctx := c, transfers := match t case None => v.transfers case Some(x) => v.transfers + [x])
  }

  function SolicitCall(v: View, k: Call, s: u32, slot: u32): View {
    if !RangeOk(k.mem, Low32(k.regs[7]), 32, false) then v
    else v.(ctx := Solicit(v.ctx, s, Low32(k.regs[8]), LoadBytes(k.mem, Low32(k.regs[7]), 32), slot).0)
  }

  function ForgetCall(v: View, k: Call, s: u32, slot: u32): View {
    if !RangeOk(k.mem, Low32(k.regs[7]), 32, false) then v
    else v.(ctx := Forget(v.ctx, s, Low32(k.regs[8]), LoadBytes(k.mem, Low32(k.regs[7]), 32), slot).0)
  }

  /** Bytes in a table of `n` always-accumulate grants. */
  function TableSize(n: nat): nat {
    12 * n
  }

  /** bless, restricted to the two privileges that other calls consult. */
  function BlessCall(v: View, k: Call, s: u32): View {
    if s != v.ctx.manager || !RangeOk(k.mem, Low32(k.regs[8]), 8, false)
       || !RangeOk(k.mem, Low32(k.regs[11]), TableSize(k.regs[12]), false)
    then v
    else v.(ctx := v.ctx.(manager := Low32(k.regs[7]), registrar := Low32(k.regs[10])))
  }

  /** One host call's effect on the state; calls that only read leave it alone. */
  function Host(v: View, k: Call, s: u32, slot: u32): View
    requires Public(v.ctx.nextFreeId)
  {
    match k.n
    case 4 => WriteCall(v, k, s)
    case 14 => BlessCall(v, k, s)
    case 18 => if CreatesAccount(k) then v.(ctx := New(v.ctx, s, NewArgsOf(k), slot).0) else v
    case 20 => SendCall(v, k, s)
    case 21 => v.(ctx := Eject(v.ctx, s, Low32(k.regs[7])).0)
    case 23 => SolicitCall(v, k, s, slot)
    case 24 => ForgetCall(v, k, s, slot)
    case 25 => v.(yielded := Some(LoadBytes(k.mem, Low32(k.regs[7]), 32)))
    case _ => v
  }

  /** The prepared id is public and not live: what `new` relies on between host calls. */
  ghost predicate IdReady(c: Ctx) {
    Public(c.nextFreeId) && c.nextFreeId !in c.accounts
  }

  /** The call takes a reserved id, or leaves a free id to prepare next. */
  ghost predicate NewHasRoom(c: Ctx, s: u32, a: NewArgs)
    requires Public(c.nextFreeId)
  {
    NewId(c, s, a) == c.nextFreeId ==> HasRoom(c.nextFreeId, c.accounts.Keys)
  }

  /** The condition under which a host call leaves a fresh id prepared. */
  ghost predicate RoomCall(v: View, k: Call, s: u32) {
    CreatesAccount(k) && Public(v.ctx.nextFreeId) ==> NewHasRoom(v.ctx, s, NewArgsOf(k))
  }

  /** Every host call keeps the prepared id public; a fresh one stays fresh exactly when the call has room. */
  lemma HostKeepsId(v: View, k: Call, s: u32, slot: u32)
    requires Public(v.ctx.nextFreeId)
    ensures Public(Host(v, k, s, slot).ctx.nextFreeId)
    ensures s in v.ctx.accounts ==> s in Host(v, k, s, slot).ctx.accounts
    ensures IdReady(v.ctx) ==> (IdReady(Host(v, k, s, slot).ctx) <==> RoomCall(v, k, s))
  {
    if k.n == 18 {
      if CreatesAccount(k) {
        NewKeepsId(v.ctx, s, NewArgsOf(k), slot);
      }
    } else {
      OthersKeepIds(v, k, s, slot);
      assert s in v.ctx.accounts ==> s in Host(v, k, s, slot).ctx.accounts.Keys;
    }
  }

  /** Only `new` adds an account or moves the prepared id; only `eject` removes one, never the caller's. */
  lemma OthersKeepIds(v: View, k: Call, s: u32, slot: u32)
    requires Public(v.ctx.nextFreeId) && k.n != 18
    ensures Host(v, k, s, slot).ctx.nextFreeId == v.ctx.nextFreeId
    ensures Host(v, k, s, slot).ctx.accounts.Keys <= v.ctx.accounts.Keys
    ensures s in v.ctx.accounts ==> s in Host(v, k, s, slot).ctx.accounts.Keys
  {
    var c := v.ctx;
    if k.n == 4 {
      forall key, value { WriteKeys(c, s, key, value); }
    } else if k.n == 20 {
      SendKeys(c, s, Low32(k.regs[7]), k.regs[8], k.regs[9], MemoArg(k.mem, Low32(k.regs[10])));
    } else if k.n == 21 {
      EjectKeys(c, s, Low32(k.regs[7]));
    } else if k.n == 23 {
      forall hash { RequestKeys(c, s, Low32(k.regs[8]), hash, slot); }
    } else if k.n == 24 {
      forall hash { RequestKeys(c, s, Low32(k.regs[8]), hash, slot); }
    }
  }

  ghost predicate SameKeys(c: Ctx, d: Ctx) {
    d.accounts.Keys == c.accounts.Keys && d.nextFreeId == c.nextFreeId
  }

  lemma ChargeKeys(c: Ctx, s: u32, items: int, octets: int)
    ensures SameKeys(c, Charge(c, s, items, octets))
  {
  }

  lemma WriteKeys(c: Ctx, s: u32, key: bytes, value: bytes)
    ensures SameKeys(c, Write(c, s, key, value).0)
  {
    forall items, octets { ChargeKeys(c, s, items, octets); }
  }

  lemma RequestKeys(c: Ctx, s: u32, length: u32, hash: bytes, slot: u32)
    ensures SameKeys(c, Solicit(c, s, length, hash, slot).0)
    ensures SameKeys(c, Forget(c, s, length, hash, slot).0)
  {
    forall items, octets { ChargeKeys(c, s, items, octets); }
  }

  lemma SendKeys(c: Ctx, s: u32, dest: u32, amount: u64, gas: u64, memo: Memo)
    ensures SameKeys(c, Send(c, s, dest, amount, gas, memo).0)
  {
  }

  lemma EjectKeys(c: Ctx, s: u32, d: u32)
    ensures Eject(c, s, d).0.accounts.Keys
         == if d in c.accounts && d != s then c.accounts.Keys - {d} else c.accounts.Keys
  {
  }

  lemma NewKeepsId(c: Ctx, s: u32, a: NewArgs, slot: u32)
    requires Public(c.nextFreeId)
    ensures var d := New(c, s, a, slot).0;
            && Public(d.nextFreeId)
            && d.accounts.Keys == c.accounts.Keys + {NewId(c, s, a)}
            && (IdReady(c) ==> (IdReady(d) <==> NewHasRoom(c, s, a)))
  {
    assert New(c, s, a, slot).0.accounts.Keys == c.accounts.Keys + {NewId(c, s, a)};
    if IdReady(c) {
      NextDiffersIff(c.nextFreeId, c.accounts.Keys);
    }
  }

  // ------------------------------------------------------------ an invocation

  /** The current view and the rollback point after a list of host calls. */
  function RunCalls(v: View, cp: View, calls: seq<Call>, s: u32, slot: u32): (View, View)
    requires Public(v.ctx.nextFreeId)
    decreases |calls|
  {
    if calls == [] then (v, cp)
    else
      HostKeepsId(v, calls[0], s, slot);
      var w := Host(v, calls[0], s, slot);
      RunCalls(w, if calls[0].n == 17 then w else cp, calls[1..], s, slot)
  }

  /** First id of the sequence that `seed` (the hash of service, entropy and slot) selects. */
  function FirstId(seed: u32): (r: u32)
    ensures Public(r)
  {
    seed % ID_MOD + MIN_PUBLIC
  }

  function Prepared(c: Ctx, seed: u32): Ctx {
    c.(nextFreeId := FirstFree(FirstId(seed), c.accounts.Keys))
  }

  lemma PreparedReady(c: Ctx, seed: u32)
    ensures Public(Prepared(c, seed).nextFreeId)
    ensures IdReady(Prepared(c, seed)) <==> HasFree(c.accounts.Keys)
  {
    if HasFree(c.accounts.Keys) {
      var j := FirstFreeFound(FirstId(seed), c.accounts.Keys);
    }
  }

  /** A 32-byte output region on a normal halt overrides an earlier yield. */
  function FinalYield(v: View, exit: GuestExit): View {
    if exit.Halted? && exit.regs[8] == 32 && RangeOk(exit.mem, Low32(exit.regs[7]), 32, false)
    then v.(yielded := Some(LoadBytes(exit.mem, Low32(exit.regs[7]), 32)))
    else v
  }

  /** The whole invocation: what it leaves behind, after a rollback when it did not halt. */
  function Invoke(c: Ctx, script: Script, s: u32, slot: u32, seed: u32): View {
    match script
    case Unloadable => View(c, [], None)
    case Script(calls, exit) =>
      PreparedReady(c, seed);
      var start := View(Prepared(c, seed), [], None);
      var (v, cp) := RunCalls(start, start, calls, s, slot);
      if exit.Halted? then FinalYield(v, exit) else cp
  }

  // ------------------------------------------------------------ what holds throughout a run

  /** Every call of a run meets a condition at the moment it is made. */
  ghost predicate AllMeet(cond: (View, Call) -> bool, v: View, calls: seq<Call>, s: u32, slot: u32)
    requires Public(v.ctx.nextFreeId)
    decreases |calls|
  {
    calls == [] ||
    (HostKeepsId(v, calls[0], s, slot);
     cond(v, calls[0]) && AllMeet(cond, Host(v, calls[0], s, slot), calls[1..], s, slot))
  }

  /** The view after the first `n` calls. */
  ghost function ViewAfter(v: View, calls: seq<Call>, n: nat, s: u32, slot: u32): View
    requires Public(v.ctx.nextFreeId) && n <= |calls|
  {
    RunCalls(v, v, calls[..n], s, slot).0
  }

  ghost predicate Throughout(ok: View -> bool, v: View, calls: seq<Call>, s: u32, slot: u32)
    requires Public(v.ctx.nextFreeId)
  {
    forall n | 0 <= n <= |calls| :: ok(ViewAfter(v, calls, n, s, slot))
  }

  /** The rollback point does not influence the run. */
  lemma {:induction false} RollbackPointUnused(v: View, cp: View, cq: View, calls: seq<Call>, s: u32, slot: u32)
    requires Public(v.ctx.nextFreeId)
    ensures RunCalls(v, cp, calls, s, slot).0 == RunCalls(v, cq, calls, s, slot).0
    decreases |calls|
  {
    if calls != [] {
      HostKeepsId(v, calls[0], s, slot);
      var w := Host(v, calls[0], s, slot);
      var marked := calls[0].n == 17;
      RollbackPointUnused(w, if marked then w else cp, if marked then w else cq, calls[1..], s, slot);
    }
  }

  lemma ViewAfterStep(v: View, calls: seq<Call>, n: nat, s: u32, slot: u32)
    requires Public(v.ctx.nextFreeId) && n < |calls|
    ensures Public(Host(v, calls[0], s, slot).ctx.nextFreeId)
    ensures ViewAfter(v, calls, n + 1, s, slot) == ViewAfter(Host(v, calls[0], s, slot), calls[1..], n, s, slot)
  {
    HostKeepsId(v, calls[0], s, slot);
    var w := Host(v, calls[0], s, slot);
    assert calls[..n + 1][0] == calls[0] && calls[..n + 1][1..] == calls[1..][..n];
    RollbackPointUnused(w, if calls[0].n == 17 then w else v, w, calls[1..][..n], s, slot);
  }

  lemma ThroughoutStep(ok: View -> bool, v: View, calls: seq<Call>, s: u32, slot: u32)
    requires Public(v.ctx.nextFreeId) && calls != []
    ensures Public(Host(v, calls[0], s, slot).ctx.nextFreeId)
    ensures Throughout(ok, v, calls, s, slot)
       <==> ok(v) && Throughout(ok, Host(v, calls[0], s, slot), calls[1..], s, slot)
  {
    HostKeepsId(v, calls[0], s, slot);
    var w := Host(v, calls[0], s, slot);
    assert calls[..0] == [] && ViewAfter(v, calls, 0, s, slot) == v;
    forall n | 0 <= n < |calls|
      ensures ViewAfter(v, calls, n + 1, s, slot) == ViewAfter(w, calls[1..], n, s, slot)
    {
      ViewAfterStep(v, calls, n, s, slot);
    }
    if ok(v) && Throughout(ok, w, calls[1..], s, slot) {
      forall n | 0 < n <= |calls|
        ensures ok(ViewAfter(v, calls, n, s, slot))
      {
        assert ok(ViewAfter(w, calls[1..], n - 1, s, slot));
      }
    }
    if Throughout(ok, v, calls, s, slot) {
      forall n | 0 <= n < |calls|
        ensures ok(ViewAfter(w, calls[1..], n, s, slot))
      {
        assert ok(ViewAfter(v, calls, n + 1, s, slot));
      }
    }
  }

  /** A call by the service `s` keeps `ok` if and only if it meets `cond`. */
  ghost predicate KeptExactlyIf(ok: View -> bool, cond: (View, Call) -> bool, s: u32, slot: u32) {
    forall v: View, k: Call | Public(v.ctx.nextFreeId) && s in v.ctx.accounts && ok(v) ::
      ok(Host(v, k, s, slot)) <==> cond(v, k)
  }

  /** Then `ok` holds at every point of a run if and only if every call meets its condition. */
  lemma {:induction false} RunIff(
    ok: View -> bool, cond: (View, Call) -> bool, v: View, calls: seq<Call>, s: u32, slot: u32)
    requires Public(v.ctx.nextFreeId) && s in v.ctx.accounts && ok(v) && KeptExactlyIf(ok, cond, s, slot)
    ensures AllMeet(cond, v, calls, s, slot) <==> Throughout(ok, v, calls, s, slot)
    decreases |calls|
  {
    if calls == [] {
      assert calls[..0] == [] && ViewAfter(v, calls, 0, s, slot) == v;
    } else {
      HostKeepsId(v, calls[0], s, slot);
      ThroughoutStep(ok, v, calls, s, slot);
      var w := Host(v, calls[0], s, slot);
      assert ok(w) <==> cond(v, calls[0]);
      if ok(w) {
        RunIff(ok, cond, w, calls[1..], s, slot);
      } else {
        assert calls[1..][..0] == [] && ViewAfter(w, calls[1..], 0, s, slot) == w;
      }
    }
  }

  /** The end of a run is its last point, and its rollback point is the initial one or some point of it. */
  lemma {:induction false} RunKeeps(
    ok: View -> bool, v: View, cp: View, calls: seq<Call>, s: u32, slot: u32)
    requires Public(v.ctx.nextFreeId) && ok(cp) && Throughout(ok, v, calls, s, slot)
    ensures ok(RunCalls(v, cp, calls, s, slot).0) && ok(RunCalls(v, cp, calls, s, slot).1)
    decreases |calls|
  {
    if calls == [] {
      assert calls[..0] == [] && ViewAfter(v, calls, 0, s, slot) == v;
    } else {
      HostKeepsId(v, calls[0], s, slot);
      ThroughoutStep(ok, v, calls, s, slot);
      var w := Host(v, calls[0], s, slot);
      assert calls[1..][..0] == [] && ViewAfter(w, calls[1..], 0, s, slot) == w;
      RunKeeps(ok, w, if calls[0].n == 17 then w else cp, calls[1..], s, slot);
    }
  }

  // ------------------------------------------------------------ fresh ids throughout

  ghost function FreshId(): View -> bool {
    (v: View) => IdReady(v.ctx)
  }

  ghost function Roomy(s: u32): (View, Call) -> bool {
    (v: View, k: Call) => RoomCall(v, k, s)
  }

  /** At every point of a run the prepared id is not a live account, if and only if every `new` had room. */
  lemma IdsAlwaysFresh(v: View, calls: seq<Call>, s: u32, slot: u32)
    requires IdReady(v.ctx) && s in v.ctx.accounts
    ensures AllMeet(Roomy(s), v, calls, s, slot) <==> Throughout(FreshId(), v, calls, s, slot)
  {
    forall w: View, k: Call | Public(w.ctx.nextFreeId) && s in w.ctx.accounts && FreshId()(w)
      ensures FreshId()(Host(w, k, s, slot)) <==> Roomy(s)(w, k)
    {
      HostKeepsId(w, k, s, slot);
    }
    RunIff(FreshId(), Roomy(s), v, calls, s, slot);
  }

  /** Then the id is fresh after the whole invocation too, rollbacks included. */
  lemma InvokeKeepsId(c: Ctx, calls: seq<Call>, exit: GuestExit, s: u32, slot: u32, seed: u32)
    requires HasFree(c.accounts.Keys) && s in c.accounts
    requires (PreparedReady(c, seed); AllMeet(Roomy(s), View(Prepared(c, seed), [], None), calls, s, slot))
    ensures IdReady(Invoke(c, Script(calls, exit), s, slot, seed).ctx)
  {
    PreparedReady(c, seed);
    var start := View(Prepared(c, seed), [], None);
    IdsAlwaysFresh(start, calls, s, slot);
    RunKeeps(FreshId(), start, start, calls, s, slot);
    var (v, cp) := RunCalls(start, start, calls, s, slot);
    assert FreshId()(v) && FreshId()(cp);
  }

  /** Few enough live accounts: every call has room. */
  lemma FewAccountsRoomy(v: View, k: Call, s: u32)
    requires |v.ctx.accounts| < ID_MOD - STRIDE
    ensures Roomy(s)(v, k)
  {
    assert |v.ctx.accounts.Keys| == |v.ctx.accounts|;
    if Public(v.ctx.nextFreeId) {
      FewLiveLeavesRoom(v.ctx.nextFreeId, v.ctx.accounts.Keys);
    }
  }

  /** The search for a free id returns whenever it is made. */
  ghost function SearchReturns(): (View, Call) -> bool {
    (v: View, k: Call) => CreatesAccount(k) ==> HasFree(v.ctx.accounts.Keys)
  }

  // ------------------------------------------------------------ the object

  class Service {
    var accounts: map<u32, Info>
    var dict: map<Key, bytes>
    var nextFreeId: u32
    var manager: u32
    var registrar: u32
    var transfers: seq<Transfer>
    var yielded: Option<bytes>

    function State(): Ctx
      reads this
    {
      Ctx(accounts, dict, nextFreeId, manager, registrar)
    }

    function Snapshot(): View
      reads this
    {
      View(State(), transfers, yielded)
    }

    constructor (c: Ctx)
      ensures Snapshot() == View(c, [], None)
    {
      accounts, dict, nextFreeId := c.accounts, c.dict, c.nextFreeId;
      manager, registrar := c.manager, c.registrar;
      transfers, yielded := [], None;
    }

    /** Puts a saved context back. */
    method Restore(v: View)
      modifies this
      ensures Snapshot() == v
    {
      accounts, dict, nextFreeId := v.ctx.accounts, v.ctx.dict, v.ctx.nextFreeId;
      manager, registrar := v.ctx.manager, v.ctx.registrar;
      transfers, yielded := v.transfers, v.yielded;
    }

    method ChargeFootprint(s: u32, items: int, octets: int)
      modifies this`accounts
      ensures State() == Charge(old(State()), s, items, octets)
    {
      if s in accounts {
        var a := accounts[s];
        accounts := accounts[s := a.(items := a.items + items, octets := a.octets + octets)];
      }
    }

    method HostWrite(s: u32, key: bytes, value: bytes) returns (reply: int)
      modifies this`accounts, this`dict
      ensures (State(), reply) == Write(old(State()), s, key, value)
    {
      if s !in accounts {
        return WHO;
      }
      var k := StorageKey(s, key);
      reply := if k in dict then |dict[k]| else NONE;
      if value == [] {
        if k in dict {
          ChargeFootprint(s, -1, -(ITEM_OVERHEAD + |key| + |dict[k]|));
          dict := dict - {k};
        }
      } else {
        if k in dict {
          ChargeFootprint(s, 0, |value| - |dict[k]|);
        } else {
          ChargeFootprint(s, 1, ITEM_OVERHEAD + |key| + |value|);
        }
        dict := dict[k := value];
      }
    }

    method HostEject(s: u32, d: u32) returns (reply: int)
      modifies this`accounts, this`dict
      ensures (State(), reply) == Eject(old(State()), s, d)
    {
      if d !in accounts {
        return WHO;
      }
      if d == s {
        return HUH;
      }
      var balance := accounts[d].balance;
      accounts := accounts - {d};
      dict := DropService(dict, d);
      if s in accounts {
        accounts := accounts[s := accounts[s].(balance := accounts[s].balance + balance)];
      }
      return 0;
    }

    method HostTransfer(s: u32, dest: u32, amount: u64, gas: u64, memo: Memo) returns (reply: int)
      modifies this`accounts, this`transfers
      ensures var (c, t, r) := Send(old(State()), s, dest, amount, gas, memo);
              && State() == c && reply == r
              && transfers == match t case None => old(transfers) case Some(x) => old(transfers) + [x]
    {
      if dest !in accounts {
        return WHO;
      }
      if s !in accounts || accounts[s].balance < amount {
        return CASH;
      }
      match memo {
        case NoMemo =>
          accounts := accounts[s := accounts[s].(balance := accounts[s].balance - amount)];
          accounts := accounts[dest := accounts[dest].(balance := accounts[dest].balance + amount)];
          return 0;
        case Unreadable =>
          return NONE;
        case Memo(data) =>
          accounts := accounts[s := accounts[s].(balance := accounts[s].balance - amount)];
          transfers := transfers + [Transfer(s, dest, amount, gas, data)];
          return 0;
      }
    }

    method HostSolicit(s: u32, length: u32, hash: bytes, slot: u32) returns (reply: int)
      modifies this`accounts, this`dict
      ensures (State(), reply) == Solicit(old(State()), s, length, hash, slot)
    {
      var k := RequestKey(s, length, hash);
      if k !in dict {
        dict := dict[k := EncodeStatus([])];
        ChargeFootprint(s, 2, 81 + length);
        return 0;
      }
      var status := DecodeStatus(dict[k]);
      if |status| == 2 {
        dict := dict[k := EncodeStatus([status[0], status[1], slot])];
        return 0;
      }
      return HUH;
    }

    method HostForget(s: u32, length: u32, hash: bytes, slot: u32) returns (reply: int)
      modifies this`accounts, this`dict
      ensures (State(), reply) == Forget(old(State()), s, length, hash, slot)
    {
      var k := RequestKey(s, length, hash);
      if k !in dict {
        return HUH;
      }
      var status := DecodeStatus(dict[k]);
      if status == [] {
        dict := dict - {k};
        ChargeFootprint(s, -2, -(81 + length));
        return 0;
      }
      if |status| == 2 && status[1] < SatSub(slot, EXPUNGE) {
        dict := dict - {k};
        ChargeFootprint(s, -2, -(81 + length));
        dict := dict - {PreimageKey(s, hash)};
        return 0;
      }
      if |status| == 1 {
        dict := dict[k := EncodeStatus([status[0], slot])];
        return 0;
      }
      if |status| == 3 && status[1] < SatSub(slot, EXPUNGE) {
        dict := dict[k := EncodeStatus([status[2], slot])];
        return 0;
      }
      return HUH;
    }

    /** Needs a free public id to exist, or the search for the next id would not return. */
    method HostNew(s: u32, a: NewArgs, slot: u32) returns (reply: int)
      requires Public(nextFreeId) && HasFree(accounts.Keys)
      modifies this`accounts, this`dict, this`nextFreeId
      ensures (State(), reply) == New(old(State()), s, a, slot)
    {
      var id := NewId(State(), s, a);
      var bumped := (nextFreeId - MIN_PUBLIC + STRIDE) % ID_MOD + MIN_PUBLIC;
      var next, steps := CheckId(bumped, accounts.Keys);
      nextFreeId := next;
      accounts := accounts[id := NewInfo(a, s, slot)];
      dict := dict[RequestKey(id, a.codeLen % W32, a.codeHash) := [0]];
      if s in accounts {
        accounts := accounts[s := accounts[s].(balance := SatSub(accounts[s].balance, MinBalance(a)))];
      }
      return id;
    }

    /** Dispatches one host call. */
    method Dispatch(k: Call, s: u32, slot: u32)
      requires Public(nextFreeId) && (CreatesAccount(k) ==> HasFree(accounts.Keys))
      modifies this
      ensures Snapshot() == Host(old(Snapshot()), k, s, slot)
    {
      var p7 := Low32(k.regs[7]);
      var reply: int;
      if k.n == 4 {
        var vp := Low32(k.regs[9]);
        if RangeOk(k.mem, p7, k.regs[8], false) && RangeOk(k.mem, vp, k.regs[10], false) {
          reply := HostWrite(s, LoadBytes(k.mem, p7, k.regs[8]), LoadBytes(k.mem, vp, k.regs[10]));
        }
      } else if k.n == 14 {
        if s == manager && RangeOk(k.mem, Low32(k.regs[8]), 8, false)
           && RangeOk(k.mem, Low32(k.regs[11]), TableSize(k.regs[12]), false) {
          manager, registrar := p7, Low32(k.regs[10]);
        }
      } else if k.n == 18 {
        if RangeOk(k.mem, p7, 32, false) {
          reply := HostNew(s, NewArgsOf(k), slot);
        }
      } else if k.n == 20 {
        reply := HostTransfer(s, p7, k.regs[8], k.regs[9], MemoArg(k.mem, Low32(k.regs[10])));
      } else if k.n == 21 {
        reply := HostEject(s, p7);
      } else if k.n == 23 {
        if RangeOk(k.mem, p7, 32, false) {
          reply := HostSolicit(s, Low32(k.regs[8]), LoadBytes(k.mem, p7, 32), slot);
        }
      } else if k.n == 24 {
        if RangeOk(k.mem, p7, 32, false) {
          reply := HostForget(s, Low32(k.regs[8]), LoadBytes(k.mem, p7, 32), slot);
        }
      } else if k.n == 25 {
        yielded := Some(LoadBytes(k.mem, p7, 32));
      }
    }

    /**
     * Runs one invocation to its end, restoring the last checkpoint unless it halts. Needs a free public id
     * whenever one is searched for, or the search would not return.
     */
    method RunToEnd(script: Script, s: u32, slot: u32, seed: u32)
      requires script.Script? ==> HasFree(accounts.Keys)
      requires script.Script? ==>
                 (PreparedReady(State(), seed);
                  AllMeet(SearchReturns(), View(Prepared(State(), seed), [], None), script.calls, s, slot))
      modifies this
      ensures Snapshot() == Invoke(old(State()), script, s, slot, seed)
    {
      transfers, yielded := [], None;
      if script.Unloadable? {
        return;
      }
      PreparedReady(State(), seed);
      var first, steps := CheckId(FirstId(seed), accounts.Keys);
      nextFreeId := first;
      var cp := Snapshot();
      ghost var start := Snapshot();
      var k := 0;
      while k < |script.calls|
        invariant 0 <= k <= |script.calls|
        invariant Public(nextFreeId) && AllMeet(SearchReturns(), Snapshot(), script.calls[k..], s, slot)
        invariant RunCalls(start, start, script.calls, s, slot)
               == RunCalls(Snapshot(), cp, script.calls[k..], s, slot)
      {
        var call := script.calls[k];
        HostKeepsId(Snapshot(), call, s, slot);
        assert script.calls[k..][0] == call && script.calls[k..][1..] == script.calls[k + 1..];
        Dispatch(call, s, slot);
        if call.n == 17 {
          cp := Snapshot();
        }
        k := k + 1;
      }
      match script.exit {
        case Halted(regs, mem) =>
          if regs[8] == 32 && RangeOk(mem, Low32(regs[7]), 32, false) {
            yielded := Some(LoadBytes(mem, Low32(regs[7]), 32));
          }
        case _ =>
          Restore(cp);
      }
    }
  }
}
