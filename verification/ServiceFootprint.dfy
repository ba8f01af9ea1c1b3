/**
 * The cached storage footprint of every account agrees with the dictionary: one item and
 * 34 + |key| + |value| octets per storage entry, two items and 81 + length per preimage request.
 */
module ServiceFootprint {
  import opened Base
  import opened PagedMemory
  import opened ServiceIds
  import opened ServiceState
  import opened ServiceRun

  /** Items an entry contributes to account `s`. */
  ghost function ItemWeight(s: u32): (Key, bytes) -> int {
    (k: Key, v: bytes) =>
      if k.service != s || k.marker == PREIMAGE then 0 else if k.marker == STORAGE then 1 else 2
  }

  /** Octets an entry contributes to account `s`. */
  ghost function OctetWeight(s: u32): (Key, bytes) -> int {
    (k: Key, v: bytes) =>
      if k.service != s || k.marker == PREIMAGE then 0
      else if k.marker == STORAGE then ITEM_OVERHEAD + |k.tail| + |v|
      else 81 + k.marker
  }

  ghost function Items(c: Ctx, s: u32): int {
    MapSum<Key, bytes>(c.dict, ItemWeight(s))
  }

  ghost function Octets(c: Ctx, s: u32): int {
    MapSum<Key, bytes>(c.dict, OctetWeight(s))
  }

  ghost predicate CacheExact(c: Ctx, s: u32) {
    s in c.accounts ==> c.accounts[s].items == Items(c, s) && c.accounts[s].octets == Octets(c, s)
  }

  /** Entries belong to live accounts, and every cache is exact. */
  ghost predicate FootprintOk(c: Ctx) {
    && (forall k | k in c.dict :: k.service in c.accounts)
    && forall s :: CacheExact(c, s)
  }

  /** Recomputed totals are never negative, so no cached count underflows while the caches are exact. */
  lemma TotalsNonNegative(c: Ctx, s: u32)
    ensures Items(c, s) >= 0 && Octets(c, s) >= 0
  {
    MapSumNonNegative(c.dict, ItemWeight(s));
    MapSumNonNegative(c.dict, OctetWeight(s));
  }

  lemma CachesNonNegative(c: Ctx, s: u32)
    requires FootprintOk(c) && s in c.accounts
    ensures c.accounts[s].items >= 0 && c.accounts[s].octets >= 0
  {
    TotalsNonNegative(c, s);
    assert CacheExact(c, s);
  }

  ghost function ItemsOf(k: Key, v: bytes): int {
    ItemWeight(k.service)(k, v)
  }

  ghost function OctetsOf(k: Key, v: bytes): int {
    OctetWeight(k.service)(k, v)
  }

  // ------------------------------------------------------------ dictionary updates

  /** Storing an entry moves only its own account's totals. */
  lemma InsertTotals(c: Ctx, k: Key, v: bytes, s: u32)
    ensures var d := c.(dict := c.dict[k := v]);
            && Items(d, s) == Items(c, s) + (if k.service != s then 0
                 else ItemsOf(k, v) - if k in c.dict then ItemsOf(k, c.dict[k]) else 0)
            && Octets(d, s) == Octets(c, s) + (if k.service != s then 0
                 else OctetsOf(k, v) - if k in c.dict then OctetsOf(k, c.dict[k]) else 0)
  {
    MapSumInsert(c.dict, ItemWeight(s), k, v);
    MapSumInsert(c.dict, OctetWeight(s), k, v);
  }

  lemma RemoveTotals(c: Ctx, k: Key, s: u32)
    ensures var d := c.(dict := c.dict - {k});
            && Items(d, s) == Items(c, s) - (if k.service == s && k in c.dict then ItemsOf(k, c.dict[k]) else 0)
            && Octets(d, s) == Octets(c, s) - (if k.service == s && k in c.dict then OctetsOf(k, c.dict[k]) else 0)
  {
    MapSumRemove(c.dict, ItemWeight(s), k);
    MapSumRemove(c.dict, OctetWeight(s), k);
  }

  /** Storing an entry keeps every cache exact if and only if the charge is what the entry's weight grows by. */
  lemma ChargedInsertIff(c: Ctx, k: Key, v: bytes, items: int, octets: int)
    requires FootprintOk(c) && k.service in c.accounts
    ensures FootprintOk(Charge(c, k.service, items, octets).(dict := c.dict[k := v]))
       <==> items == ItemsOf(k, v) - (if k in c.dict then ItemsOf(k, c.dict[k]) else 0)
            && octets == OctetsOf(k, v) - if k in c.dict then OctetsOf(k, c.dict[k]) else 0
  {
    var d := Charge(c, k.service, items, octets).(dict := c.dict[k := v]);
    forall s
      ensures s != k.service ==> CacheExact(d, s)
    {
      InsertTotals(c, k, v, s);
      assert CacheExact(c, s);
    }
    InsertTotals(c, k, v, k.service);
    assert CacheExact(c, k.service);
    assert FootprintOk(d) <==> CacheExact(d, k.service);
  }

  /** Removing an entry keeps every cache exact if and only if its whole weight is credited back. */
  lemma ChargedRemoveIff(c: Ctx, k: Key, items: int, octets: int)
    requires FootprintOk(c) && k in c.dict
    ensures FootprintOk(Charge(c, k.service, items, octets).(dict := c.dict - {k}))
       <==> items == -ItemsOf(k, c.dict[k]) && octets == -OctetsOf(k, c.dict[k])
  {
    var d := Charge(c, k.service, items, octets).(dict := c.dict - {k});
    forall s
      ensures s != k.service ==> CacheExact(d, s)
    {
      RemoveTotals(c, k, s);
      assert CacheExact(c, s);
    }
    RemoveTotals(c, k, k.service);
    assert CacheExact(c, k.service);
    assert FootprintOk(d) <==> CacheExact(d, k.service);
  }

  /** Rewriting an entry without a charge is exact if and only if its octets stay the same. */
  lemma RewriteIff(c: Ctx, k: Key, v: bytes)
    requires FootprintOk(c) && k in c.dict
    ensures FootprintOk(c.(dict := c.dict[k := v])) <==> k.marker == STORAGE ==> |v| == |c.dict[k]|
  {
    ChargedInsertIff(c, k, v, 0, 0);
    NoCharge(c, k.service);
  }

  lemma NoCharge(c: Ctx, s: u32)
    ensures Charge(c, s, 0, 0) == c
  {
    if s in c.accounts {
      assert c.accounts[s := c.accounts[s]] == c.accounts;
    }
  }

  /** Removing a preimage blob changes no total. */
  lemma PreimageRemovalIff(c: Ctx, s: u32, hash: bytes)
    requires forall k | k in c.dict :: k.service in c.accounts
    ensures FootprintOk(c.(dict := c.dict - {PreimageKey(s, hash)})) <==> FootprintOk(c)
  {
    var k := PreimageKey(s, hash);
    var d := c.(dict := c.dict - {k});
    forall t
      ensures CacheExact(d, t) <==> CacheExact(c, t)
    {
      RemoveTotals(c, k, t);
    }
  }

  /** Changing fields other than the cached footprint keeps every cache exact. */
  lemma OtherFields(c: Ctx, s: u32, a: Info)
    requires FootprintOk(c) && s in c.accounts
    requires a.items == c.accounts[s].items && a.octets == c.accounts[s].octets
    ensures FootprintOk(SetAccount(c, s, a))
  {
    var d := SetAccount(c, s, a);
    forall t
      ensures CacheExact(d, t)
    {
      assert CacheExact(c, t);
    }
  }

  // ------------------------------------------------------------ host calls

  lemma WriteKeepsFootprint(c: Ctx, s: u32, key: bytes, value: bytes)
    requires FootprintOk(c)
    ensures FootprintOk(Write(c, s, key, value).0)
  {
    var k := StorageKey(s, key);
    if s in c.accounts {
      if value == [] {
        if k in c.dict {
          ChargedRemoveIff(c, k, -1, -(ITEM_OVERHEAD + |key| + |c.dict[k]|));
        }
      } else if k in c.dict {
        ChargedInsertIff(c, k, value, 0, |value| - |c.dict[k]|);
      } else {
        ChargedInsertIff(c, k, value, 1, ITEM_OVERHEAD + |key| + |value|);
      }
    }
  }

  lemma EjectKeepsFootprint(c: Ctx, s: u32, d: u32)
    requires FootprintOk(c)
    ensures FootprintOk(Eject(c, s, d).0)
  {
    if d in c.accounts && d != s {
      var r := c.(accounts := c.accounts - {d}, dict := DropService(c.dict, d));
      forall t
        ensures CacheExact(r, t)
      {
        assert CacheExact(c, t);
        if t != d {
          MapSumRestrict(c.dict, r.dict, ItemWeight(t));
          MapSumRestrict(c.dict, r.dict, OctetWeight(t));
        }
      }
      if s in r.accounts {
        OtherFields(r, s, r.accounts[s].(balance := r.accounts[s].balance + c.accounts[d].balance));
      }
    }
  }

  lemma SendKeepsFootprint(c: Ctx, s: u32, dest: u32, amount: u64, gas: u64, memo: Memo)
    requires FootprintOk(c)
    ensures FootprintOk(Send(c, s, dest, amount, gas, memo).0)
  {
    if dest in c.accounts && s in c.accounts && c.accounts[s].balance >= amount {
      var a := c.accounts[s].(balance := c.accounts[s].balance - amount);
      OtherFields(c, s, a);
      var d := SetAccount(c, s, a);
      OtherFields(d, dest, d.accounts[dest].(balance := d.accounts[dest].balance + amount));
    }
  }

  /** A request length that names neither storage nor a preimage blob. */
  predicate PlainLength(length: nat) {
    length < PREIMAGE
  }

  lemma {:induction false} StatusBytes(slots: seq<u32>)
    requires |slots| < 128
    ensures |EncodeStatus(slots)| == 1 + 4 * |slots|
  {
    StatusTailLength(slots);
  }

  /**
   * Where solicit is exact: on plain lengths, when it refuses, and when it reopens an entry that is a
   * preimage blob or a storage value of thirteen bytes, the size of a status of three slots.
   */
  predicate SolicitExact(c: Ctx, s: u32, length: u32, hash: bytes) {
    var k := RequestKey(s, length, hash);
    PlainLength(length) ||
    (k in c.dict && (|DecodeStatus(c.dict[k])| == 2 ==> length == PREIMAGE || |c.dict[k]| == 13))
  }

  lemma SolicitExactIff(c: Ctx, s: u32, length: u32, hash: bytes, slot: u32)
    requires FootprintOk(c) && s in c.accounts
    ensures FootprintOk(Solicit(c, s, length, hash, slot).0) <==> SolicitExact(c, s, length, hash)
  {
    var k := RequestKey(s, length, hash);
    if k !in c.dict {
      ChargedInsertIff(c, k, EncodeStatus([]), 2, 81 + length);
    } else {
      var status := DecodeStatus(c.dict[k]);
      if |status| == 2 {
        StatusBytes([status[0], status[1], slot]);
        RewriteIff(c, k, EncodeStatus([status[0], status[1], slot]));
      }
    }
  }

  /** Forget removes the entry: it was never provided, or it became unavailable long enough ago. */
  predicate ForgetDrops(status: seq<u32>, slot: u32) {
    status == [] || (|status| == 2 && status[1] < SatSub(slot, EXPUNGE))
  }

  /** Forget replaces the entry by a status of two slots. */
  predicate ForgetRewrites(status: seq<u32>, slot: u32) {
    |status| == 1 || (|status| == 3 && status[1] < SatSub(slot, EXPUNGE))
  }

  /**
   * Where forget is exact: on plain lengths and when it refuses. On an entry at a reserved length, never
   * when it drops it, and when it rewrites it only a preimage blob or a storage value of nine bytes.
   */
  predicate ForgetExact(c: Ctx, s: u32, length: u32, hash: bytes, slot: u32) {
    var k := RequestKey(s, length, hash);
    PlainLength(length) || k !in c.dict ||
    (var status := DecodeStatus(c.dict[k]);
     !ForgetDrops(status, slot) && (ForgetRewrites(status, slot) ==> length == PREIMAGE || |c.dict[k]| == 9))
  }

  lemma ForgetExactIff(c: Ctx, s: u32, length: u32, hash: bytes, slot: u32)
    requires FootprintOk(c)
    ensures FootprintOk(Forget(c, s, length, hash, slot).0) <==> ForgetExact(c, s, length, hash, slot)
  {
    var k := RequestKey(s, length, hash);
    if k in c.dict {
      var status := DecodeStatus(c.dict[k]);
      if ForgetDrops(status, slot) {
        ChargedRemoveIff(c, k, -2, -(81 + length));
        PreimageRemovalIff(Charge(c, s, -2, -(81 + length)).(dict := c.dict - {k}), s, hash);
      } else if ForgetRewrites(status, slot) {
        var now := [if |status| == 1 then status[0] else status[2], slot];
        StatusBytes(now);
        RewriteIff(c, k, EncodeStatus(now));
      }
    }
  }

  /**
   * The worst of it: a value `[0]` written under a 32-byte key is an empty status to forget at length
   * 2^32 - 1, which credits back two items and 2^32 + 80 octets for one item and 67 octets.
   */
  lemma ForgetUnderflows(c: Ctx, s: u32, hash: bytes, slot: u32)
    requires FootprintOk(c) && s in c.accounts && |hash| == 32 && StorageKey(s, hash) !in c.dict
    ensures var w := Write(c, s, hash, [0]).0; var (d, reply) := Forget(w, s, STORAGE, hash, slot);
            && FootprintOk(w) && reply == 0 && d.dict == c.dict && !FootprintOk(d)
            && d.accounts[s].items == c.accounts[s].items - 1
            && d.accounts[s].octets == c.accounts[s].octets + 67 - (W32 + 80)
  {
    var k, w := StorageKey(s, hash), Write(c, s, hash, [0]).0;
    WriteKeepsFootprint(c, s, hash, [0]);
    assert DecodeStatus([0]) == [];
    ForgetExactIff(w, s, STORAGE, hash, slot);
    assert c.dict[k := [0]] - {k} == c.dict;
  }

  /** An account that holds nothing. */
  const BARE: Ctx := Ctx(map[MIN_PUBLIC := Info([], 0, 0, 0, 0, 0, 0, 0, 0, 0)], map[], MIN_PUBLIC, 0, 0)

  /** Two calls of an account that holds nothing, after which the count of its items would be negative. */
  lemma BareUnderflows(slot: u32)
    ensures FootprintOk(BARE)
    ensures var hash := seq(32, _ => 0); var written := Write(BARE, MIN_PUBLIC, hash, [0]).0;
            Forget(written, MIN_PUBLIC, STORAGE, hash, slot).0.accounts[MIN_PUBLIC].items == -1
  {
    forall s: u32
      ensures CacheExact(BARE, s)
    {
      NoEntriesNoTotals(BARE, s);
    }
    ForgetUnderflows(BARE, MIN_PUBLIC, seq(32, _ => 0), slot);
  }

  /** The request entry a `new` call opens for its code. */
  function CodeRequest(id: u32, a: NewArgs): Key {
    RequestKey(id, a.codeLen % W32, a.codeHash)
  }

  /** The state with the new account's code request added to the dictionary alone. */
  ghost function WithRequest(c: Ctx, s: u32, a: NewArgs): Ctx {
    c.(dict := c.dict[CodeRequest(NewId(c, s, a), a) := [0]])
  }

  /** The new id's entries, the request among them, add up to what `new` caches. */
  ghost predicate NewExact(c: Ctx, s: u32, a: NewArgs) {
    && Items(WithRequest(c, s, a), NewId(c, s, a)) == 2
    && Octets(WithRequest(c, s, a), NewId(c, s, a)) == 81 + a.codeLen
  }

  /** After `new` only the new id's cache can be wrong, and it is right when its entries add up. */
  lemma NewCaches(c: Ctx, s: u32, a: NewArgs, slot: u32)
    requires Public(c.nextFreeId) && FootprintOk(c)
    ensures FootprintOk(New(c, s, a, slot).0) <==> NewExact(c, s, a)
  {
    var id := NewId(c, s, a);
    var k, d := CodeRequest(id, a), New(c, s, a, slot).0;
    forall t | t != id
      ensures CacheExact(d, t)
    {
      InsertTotals(c, k, [0], t);
      assert CacheExact(c, t);
    }
    assert FootprintOk(d) <==> CacheExact(d, id);
  }

  /** On a free id `new` is exact if and only if the code length is plain: longer ones are truncated or reserved. */
  lemma NewExactIff(c: Ctx, s: u32, a: NewArgs, slot: u32)
    requires Public(c.nextFreeId) && FootprintOk(c) && NewId(c, s, a) !in c.accounts
    ensures FootprintOk(New(c, s, a, slot).0) <==> PlainLength(a.codeLen)
  {
    var id := NewId(c, s, a);
    NewCaches(c, s, a, slot);
    NoEntriesNoTotals(c, id);
    InsertTotals(c, CodeRequest(id, a), [0], id);
  }

  lemma NoEntriesNoTotals(c: Ctx, s: u32)
    requires forall k | k in c.dict :: k.service != s
    ensures Items(c, s) == 0 && Octets(c, s) == 0
  {
    MapSumRestrict(c.dict, map[], ItemWeight(s));
    MapSumRestrict(c.dict, map[], OctetWeight(s));
  }

  /** What an account holds beyond the request that `new` opens. */
  ghost predicate HoldsNothingElse(c: Ctx, id: u32, a: NewArgs) {
    if CodeRequest(id, a) in c.dict
    then Items(c, id) == 2 && Octets(c, id) == 81 + a.codeLen
    else Items(c, id) == 0 && Octets(c, id) == 0
  }

  /** With a plain code length, on any id: `new` is exact if and only if the id's account held nothing else. */
  lemma NewExactIffHoldsNothingElse(c: Ctx, s: u32, a: NewArgs, slot: u32)
    requires Public(c.nextFreeId) && FootprintOk(c) && PlainLength(a.codeLen)
    ensures FootprintOk(New(c, s, a, slot).0) <==> HoldsNothingElse(c, NewId(c, s, a), a)
  {
    var id := NewId(c, s, a);
    NewCaches(c, s, a, slot);
    InsertTotals(c, CodeRequest(id, a), [0], id);
  }

  // ------------------------------------------------------------ whole invocations

  /** The condition under which a host call keeps every cache exact. */
  ghost predicate ExactCall(v: View, k: Call, s: u32, slot: u32) {
    var p7, readable := Low32(k.regs[7]), RangeOk(k.mem, Low32(k.regs[7]), 32, false);
    && (k.n == 18 && readable ==> NewExact(v.ctx, s, NewArgsOf(k)))
    && (k.n == 23 && readable ==> SolicitExact(v.ctx, s, Low32(k.regs[8]), LoadBytes(k.mem, p7, 32)))
    && (k.n == 24 && readable ==> ForgetExact(v.ctx, s, Low32(k.regs[8]), LoadBytes(k.mem, p7, 32), slot))
  }

  /** Any call of any kind keeps the caches exact if and only if it meets its condition. */
  lemma HostExactIff(v: View, k: Call, s: u32, slot: u32)
    requires Public(v.ctx.nextFreeId) && FootprintOk(v.ctx) && s in v.ctx.accounts
    ensures FootprintOk(Host(v, k, s, slot).ctx) <==> ExactCall(v, k, s, slot)
  {
    var c, p7 := v.ctx, Low32(k.regs[7]);
    if k.n == 4 {
      WriteKeepsFootprint(c, s, LoadBytes(k.mem, p7, k.regs[8]), LoadBytes(k.mem, Low32(k.regs[9]), k.regs[10]));
    } else if k.n == 14 {
      SameFootprint(c, Host(v, k, s, slot).ctx);
    } else if k.n == 18 {
      NewCaches(c, s, NewArgsOf(k), slot);
    } else if k.n == 20 {
      SendKeepsFootprint(c, s, p7, k.regs[8], k.regs[9], MemoArg(k.mem, Low32(k.regs[10])));
    } else if k.n == 21 {
      EjectKeepsFootprint(c, s, p7);
    } else if k.n == 23 {
      SolicitExactIff(c, s, Low32(k.regs[8]), LoadBytes(k.mem, p7, 32), slot);
    } else if k.n == 24 {
      ForgetExactIff(c, s, Low32(k.regs[8]), LoadBytes(k.mem, p7, 32), slot);
    }
  }

  lemma SameFootprint(c: Ctx, d: Ctx)
    requires FootprintOk(c) && d.accounts == c.accounts && d.dict == c.dict
    ensures FootprintOk(d)
  {
    forall s
      ensures CacheExact(d, s)
    {
      assert CacheExact(c, s);
    }
  }

  ghost function CachesExact(): View -> bool {
    (v: View) => FootprintOk(v.ctx)
  }

  ghost function Exactly(s: u32, slot: u32): (View, Call) -> bool {
    (v: View, k: Call) => ExactCall(v, k, s, slot)
  }

  /** The caches are exact at every point of a run if and only if every call meets its condition. */
  lemma RunExactIff(v: View, calls: seq<Call>, s: u32, slot: u32)
    requires Public(v.ctx.nextFreeId) && s in v.ctx.accounts && FootprintOk(v.ctx)
    ensures AllMeet(Exactly(s, slot), v, calls, s, slot) <==> Throughout(CachesExact(), v, calls, s, slot)
  {
    forall w: View, k: Call | Public(w.ctx.nextFreeId) && s in w.ctx.accounts && CachesExact()(w)
      ensures CachesExact()(Host(w, k, s, slot)) <==> Exactly(s, slot)(w, k)
    {
      HostExactIff(w, k, s, slot);
    }
    RunIff(CachesExact(), Exactly(s, slot), v, calls, s, slot);
  }

  /** Whatever the guest does and however it ends, rollbacks included, every cache is exact afterwards. */
  lemma InvokeKeepsFootprint(c: Ctx, script: Script, s: u32, slot: u32, seed: u32)
    requires FootprintOk(c)
    requires script.Script? ==>
               (PreparedReady(c, seed);
                s in c.accounts && AllMeet(Exactly(s, slot), View(Prepared(c, seed), [], None), script.calls, s, slot))
    ensures FootprintOk(Invoke(c, script, s, slot, seed).ctx)
  {
    if script.Script? {
      PreparedReady(c, seed);
      SameFootprint(c, Prepared(c, seed));
      var start := View(Prepared(c, seed), [], None);
      RunExactIff(start, script.calls, s, slot);
      RunKeeps(CachesExact(), start, start, script.calls, s, slot);
      var (v, cp) := RunCalls(start, start, script.calls, s, slot);
      assert CachesExact()(v) && CachesExact()(cp);
    }
  }

  /** Throughout such a run no cached count is negative, so none of the code's subtractions underflows. */
  lemma RunNeverUnderflows(v: View, calls: seq<Call>, n: nat, s: u32, slot: u32, t: u32)
    requires Public(v.ctx.nextFreeId) && s in v.ctx.accounts && FootprintOk(v.ctx)
    requires AllMeet(Exactly(s, slot), v, calls, s, slot)
    requires n <= |calls| && t in ViewAfter(v, calls, n, s, slot).ctx.accounts
    ensures ViewAfter(v, calls, n, s, slot).ctx.accounts[t].items >= 0
    ensures ViewAfter(v, calls, n, s, slot).ctx.accounts[t].octets >= 0
  {
    RunExactIff(v, calls, s, slot);
    assert CachesExact()(ViewAfter(v, calls, n, s, slot));
    CachesNonNegative(ViewAfter(v, calls, n, s, slot).ctx, t);
  }
}
