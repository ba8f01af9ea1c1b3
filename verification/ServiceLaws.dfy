/**
 * What host calls and invocations do, in terms of the guest's registers and memory: which register holds
 * what, which entries change and which do not, and what each way of ending leaves behind.
 */
module ServiceLaws {
  import opened Base
  import opened PagedMemory
  import opened PvmExecute
  import opened ServiceIds
  import opened ServiceState
  import opened ServiceRun
  import opened ServiceCalls

  // ------------------------------------------------------------ guest memory

  /** Memory holds these bytes from `at` on. */
  ghost predicate Holds(mem: Mem, at: nat, data: bytes) {
    forall i | 0 <= i < |data| :: ByteAt(mem, at + i) == data[i]
  }

  /** Above the guard, and on a mapped page. */
  predicate ReadableByte(mem: Mem, x: nat) {
    x >= 0x1_0000 && x / 4096 in mem.pages
  }

  ghost predicate Readable(mem: Mem, at: u32, len: nat) {
    forall x | at <= x < at + len :: ReadableByte(mem, x)
  }

  lemma ReadableIff(mem: Mem, at: u32, len: nat)
    ensures RangeOk(mem, at, len, false) <==> Readable(mem, at, len)
  {
    RangeOkMeaning(mem, at, len, false);
    assert forall x: nat :: Accessible(mem, x, false) <==> ReadableByte(mem, x);
  }

  lemma LoadsHeld(mem: Mem, at: nat, data: bytes)
    requires Holds(mem, at, data)
    ensures LoadBytes(mem, at, |data|) == data
  {
  }

  // ------------------------------------------------------------ storage

  /** A map without a key, or with a value at it. */
  function Put(dict: map<Key, bytes>, k: Key, value: bytes): map<Key, bytes> {
    if value == [] then dict - {k} else dict[k := value]
  }

  /**
   * write: key at r7 of length r8, value at r9 of length r10. The caller's entry becomes the value, or goes
   * when it is empty; no other entry, no other account and nothing but the caller's footprint changes.
   */
  lemma WriteLaw(v: View, k: Call, s: u32, slot: u32, key: bytes, value: bytes)
    requires Public(v.ctx.nextFreeId) && s in v.ctx.accounts && k.n == 4
    requires |key| == k.regs[8] && Holds(k.mem, k.regs[7] % W32, key)
    requires |value| == k.regs[10] && Holds(k.mem, k.regs[9] % W32, value)
    ensures var w := Host(v, k, s, slot);
            if Readable(k.mem, k.regs[7] % W32, |key|) && Readable(k.mem, k.regs[9] % W32, |value|)
            then && w.ctx.dict == Put(v.ctx.dict, Key(s, 0xffff_ffff, key), value)
                 && w.ctx.accounts.Keys == v.ctx.accounts.Keys
                 && (forall t | t in v.ctx.accounts && t != s :: w.ctx.accounts[t] == v.ctx.accounts[t])
                 && w.ctx.accounts[s]
                      == v.ctx.accounts[s].(items := w.ctx.accounts[s].items, octets := w.ctx.accounts[s].octets)
                 && w == v.(ctx := v.ctx.(dict := w.ctx.dict, accounts := w.ctx.accounts))
            else w == v
  {
    ReadableIff(k.mem, k.regs[7] % W32, |key|);
    ReadableIff(k.mem, k.regs[9] % W32, |value|);
    LoadsHeld(k.mem, k.regs[7] % W32, key);
    LoadsHeld(k.mem, k.regs[9] % W32, value);
    PutIsWrite(v.ctx, s, key, value);
  }

  lemma PutIsWrite(c: Ctx, s: u32, key: bytes, value: bytes)
    requires s in c.accounts
    ensures var d := Write(c, s, key, value).0;
            && d.dict == Put(c.dict, Key(s, 0xffff_ffff, key), value)
            && d.accounts.Keys == c.accounts.Keys
            && (forall t | t in c.accounts && t != s :: d.accounts[t] == c.accounts[t])
            && d.accounts[s] == c.accounts[s].(items := d.accounts[s].items, octets := d.accounts[s].octets)
            && d == c.(dict := d.dict, accounts := d.accounts)
  {
    var k := Key(s, 0xffff_ffff, key);
    if value == [] && k !in c.dict {
      assert c.dict - {k} == c.dict;
    }
  }

  datatype WriteCall = WriteCall(key: bytes, value: bytes)

  function WriteAll(c: Ctx, s: u32, ws: seq<WriteCall>): Ctx {
    if ws == [] then c else Write(WriteAll(c, s, ws[..|ws| - 1]), s, ws[|ws| - 1].key, ws[|ws| - 1].value).0
  }

  /** The value last written under the key; empty when it was deleted, `None` when no write names it. */
  function LastWritten(ws: seq<WriteCall>, key: bytes): Option<bytes> {
    if ws == [] then None
    else if ws[|ws| - 1].key == key then Some(ws[|ws| - 1].value)
    else LastWritten(ws[..|ws| - 1], key)
  }

  /** Over any writes of a service, each of its entries holds what was last written there, or what it held before. */
  lemma {:induction false} StorageHoldsLast(c: Ctx, s: u32, ws: seq<WriteCall>, key: bytes)
    requires s in c.accounts
    ensures var d, k := WriteAll(c, s, ws), Key(s, 0xffff_ffff, key);
            && s in d.accounts
            && match LastWritten(ws, key)
               case None => (k in d.dict <==> k in c.dict) && (k in c.dict ==> d.dict[k] == c.dict[k])
               case Some(value) => if value == [] then k !in d.dict else k in d.dict && d.dict[k] == value
    decreases |ws|
  {
    if ws != [] {
      StorageHoldsLast(c, s, ws[..|ws| - 1], key);
      PutIsWrite(WriteAll(c, s, ws[..|ws| - 1]), s, ws[|ws| - 1].key, ws[|ws| - 1].value);
    }
  }

  // ------------------------------------------------------------ transfers and accounts

  /**
   * transfer: destination in r7, amount in r8, gas in r9, memo at r10. Without a memo the destination is
   * credited at once; with a readable one of 128 bytes a record carries the amount; nothing else is recorded.
   */
  lemma TransferLaw(v: View, k: Call, s: u32, slot: u32, memo: bytes, t: u32)
    requires Public(v.ctx.nextFreeId) && k.n == 20 && |memo| == 128 && Holds(k.mem, k.regs[10] % W32, memo)
    ensures var dest, amount, at := k.regs[7] % W32, k.regs[8], k.regs[10] % W32; var w := Host(v, k, s, slot);
            var paid := dest in v.ctx.accounts && s in v.ctx.accounts && v.ctx.accounts[s].balance >= amount
                        && (at == 0 || Readable(k.mem, at, 128));
            && BalanceOf(w.ctx, t) == BalanceOf(v.ctx, t) - (if paid && t == s then amount else 0)
                                      + (if paid && t == dest && at == 0 then amount else 0)
            && w.transfers == v.transfers
                 + (if paid && at != 0 then [Transfer(s, dest, amount, k.regs[9], memo)] else [])
            && w.ctx.dict == v.ctx.dict && w.ctx.accounts.Keys == v.ctx.accounts.Keys && w.yielded == v.yielded
  {
    var at := k.regs[10] % W32;
    ReadableIff(k.mem, at, 128);
    LoadsHeld(k.mem, at, memo);
    SendMovesAmount(v.ctx, s, k.regs[7] % W32, k.regs[8], k.regs[9], MemoArg(k.mem, at), t);
    assert v.transfers + [] == v.transfers;
  }

  /** eject: target in r7. Another live account goes, with its entries and no others; the caller gets its balance. */
  lemma EjectLaw(v: View, k: Call, s: u32, slot: u32)
    requires Public(v.ctx.nextFreeId) && k.n == 21 && s in v.ctx.accounts
    ensures var d := k.regs[7] % W32; var c, w := v.ctx, Host(v, k, s, slot);
            if d in c.accounts && d != s
            then && w.ctx.accounts.Keys == c.accounts.Keys - {d}
                 && (forall t | t in w.ctx.accounts :: w.ctx.accounts[t] == c.accounts[t].(balance :=
                       c.accounts[t].balance + if t == s then c.accounts[d].balance else 0))
                 && (forall e :: e in w.ctx.dict <==> e in c.dict && e.service != d)
                 && (forall e | e in w.ctx.dict :: w.ctx.dict[e] == c.dict[e])
                 && w == v.(ctx := c.(accounts := w.ctx.accounts, dict := w.ctx.dict))
            else w == v
  {
  }

  /** solicit and forget: the 32-byte hash at r7, the length in r8. */
  lemma RequestLaw(v: View, k: Call, s: u32, slot: u32, hash: bytes)
    requires Public(v.ctx.nextFreeId) && k.n in {23, 24} && |hash| == 32 && Holds(k.mem, k.regs[7] % W32, hash)
    ensures var r := RequestCall(k.n == 24, k.regs[8] % W32, hash, slot); var w := Host(v, k, s, slot);
            w == if Readable(k.mem, k.regs[7] % W32, 32) then v.(ctx := RequestStep(v.ctx, s, r)) else v
  {
    ReadableIff(k.mem, k.regs[7] % W32, 32);
    LoadsHeld(k.mem, k.regs[7] % W32, hash);
  }

  /**
   * new: code hash at r7, code length in r8, least item gas in r9, least memo gas in r10, free deposit in r11,
   * desired id in r12. A registrar gets a desired id below 2^16, anyone else the prepared one; the account
   * opens with an empty request for its code and 201 tokens and the length, which the caller pays as far as
   * it can. No other account or entry changes.
   */
  lemma NewLaw(v: View, k: Call, s: u32, slot: u32, hash: bytes)
    requires Public(v.ctx.nextFreeId) && k.n == 18 && |hash| == 32 && Holds(k.mem, k.regs[7] % W32, hash)
    requires Readable(k.mem, k.regs[7] % W32, 32) && s in v.ctx.accounts
    ensures var c, w := v.ctx, Host(v, k, s, slot); var len, wanted := k.regs[8], k.regs[12] % W32;
            var id := if s == c.registrar && wanted < 0x1_0000 then wanted else c.nextFreeId;
            var request := Key(id, len % W32, hash);
            && w.ctx.accounts.Keys == c.accounts.Keys + {id}
            && w.ctx.accounts[id] == Info(hash, if id == s then 0 else 201 + len, k.regs[9], k.regs[10], 81 + len,
                                          k.regs[11], 2, slot, 0, s)
            && (id != s ==> w.ctx.accounts[s] == c.accounts[s].(balance := Max(c.accounts[s].balance - 201 - len, 0)))
            && (forall t | t in c.accounts && t != id && t != s :: w.ctx.accounts[t] == c.accounts[t])
            && w.ctx.dict == c.dict[request := [0]]
            && w == v.(ctx := c.(accounts := w.ctx.accounts, dict := w.ctx.dict, nextFreeId := w.ctx.nextFreeId))
  {
    ReadableIff(k.mem, k.regs[7] % W32, 32);
    LoadsHeld(k.mem, k.regs[7] % W32, hash);
  }

  /** The id prepared for the next `new` is the first free one from 42 past the last, in the cycle of public ids. */
  lemma NextIdLaw(v: View, k: Call, s: u32, slot: u32, steps: nat)
    requires Public(v.ctx.nextFreeId) && k.n == 18 && Readable(k.mem, k.regs[7] % W32, 32)
    requires FirstFreeAt(CycleFrom(v.ctx.nextFreeId, 42), v.ctx.accounts.Keys, steps)
    ensures Host(v, k, s, slot).ctx.nextFreeId == CycleFrom(v.ctx.nextFreeId, 42 + steps)
  {
    ReadableIff(k.mem, k.regs[7] % W32, 32);
    FirstFreeUnique(CycleFrom(v.ctx.nextFreeId, 42), v.ctx.accounts.Keys, steps);
    CycleSteps(v.ctx.nextFreeId - 0x1_0000, 42, steps);
  }

  /** `k` steps on in the cycle of the ids from 2^16 up to 2^32 - 2^8. */
  function CycleFrom(id: u32, k: nat): (r: u32)
    requires Public(id)
    ensures Public(r)
  {
    0x1_0000 + (id - 0x1_0000 + k) % 0xFFFE_FF00
  }

  lemma CycleSteps(x: nat, j: nat, k: nat)
    ensures ((x + j) % 0xFFFE_FF00 + k) % 0xFFFE_FF00 == (x + j + k) % 0xFFFE_FF00
  {
  }

  /** bless, and the calls that leave state, transfers and output alone. */
  lemma OtherCallsLaw(v: View, k: Call, s: u32, slot: u32)
    requires Public(v.ctx.nextFreeId) && k.n !in {4, 18, 20, 21, 23, 24, 25}
    ensures var grants: nat := k.regs[12]; var w := Host(v, k, s, slot);
            w == if k.n == 14 && s == v.ctx.manager && Readable(k.mem, k.regs[8] % W32, 8)
                    && Readable(k.mem, k.regs[11] % W32, 12 * grants)
                 then v.(ctx := v.ctx.(manager := k.regs[7] % W32, registrar := k.regs[10] % W32))
                 else v
  {
    var grants: nat := k.regs[12];
    ReadableIff(k.mem, k.regs[8] % W32, 8);
    ReadableIff(k.mem, k.regs[11] % W32, 12 * grants);
  }

  lemma YieldLaw(v: View, k: Call, s: u32, slot: u32, output: bytes)
    requires Public(v.ctx.nextFreeId) && |output| == 32 && (k.n == 25 ==> Holds(k.mem, k.regs[7] % W32, output))
    ensures k.n == 25 ==> Host(v, k, s, slot) == v.(yielded := Some(output))
    ensures k.n != 25 ==> Host(v, k, s, slot).yielded == v.yielded
  {
    if k.n == 25 {
      LoadsHeld(k.mem, k.regs[7] % W32, output);
    }
  }

  // ------------------------------------------------------------ replies

  const NO_SUCH: int := 0xffff_ffff_ffff_ffff
  const NO_ACCOUNT: int := 0xffff_ffff_ffff_fffc
  const REFUSED: int := 0xffff_ffff_ffff_fff7
  const NO_FUNDS: int := 0xffff_ffff_ffff_fff9

  /** write replies with the length of what the entry held before, or that it held nothing. */
  lemma WriteReply(c: Ctx, s: u32, key: bytes, value: bytes)
    ensures var k, reply := Key(s, 0xffff_ffff, key), Write(c, s, key, value).1;
            if s !in c.accounts then reply == NO_ACCOUNT
            else reply == if k in c.dict then |c.dict[k]| else NO_SUCH
  {
  }

  /** eject and transfer reply 0 exactly if they take effect, and otherwise with the reason, changing nothing. */
  lemma EjectReply(c: Ctx, s: u32, d: u32)
    ensures var (e, reply) := Eject(c, s, d);
            && (reply == 0 <==> d in c.accounts && d !in e.accounts)
            && (reply != 0 ==> e == c && reply == if d == s && s in c.accounts then REFUSED else NO_ACCOUNT)
  {
  }

  lemma TransferReply(c: Ctx, s: u32, dest: u32, amount: u64, gas: u64, memo: Memo)
    ensures var (d, t, reply) := Send(c, s, dest, amount, gas, memo);
            && (reply == NO_ACCOUNT <==> dest !in c.accounts)
            && (reply == NO_FUNDS <==>
                  dest in c.accounts && (s in c.accounts ==> c.accounts[s].balance < amount))
            && (reply == NO_SUCH <==>
                  dest in c.accounts && s in c.accounts && c.accounts[s].balance >= amount && memo.Unreadable?)
            && (reply != 0 ==> d == c && t == None && reply in {NO_ACCOUNT, NO_FUNDS, NO_SUCH})
            && (reply == 0 ==> (t == None <==> memo == NoMemo))
  {
  }

  /** solicit and forget reply 0 exactly if they change the dictionary, and otherwise refuse, changing nothing. */
  lemma RequestReply(c: Ctx, s: u32, length: u32, hash: bytes, slot: u32, forget: bool)
    ensures var (d, reply) := if forget then Forget(c, s, length, hash, slot) else Solicit(c, s, length, hash, slot);
            && (reply == 0 <==> d.dict != c.dict)
            && (reply != 0 ==> d == c && reply == REFUSED)
  {
    var k := Key(s, length, hash);
    if k in c.dict {
      StatusSize(c.dict[k]);
      if forget {
        assert k !in c.dict - {k};
      }
    }
  }

  lemma {:induction false} StatusFromSize(b: bytes, n: nat)
    ensures |StatusFrom(b, n)| == n
    decreases n
  {
    if n > 0 {
      StatusFromSize(b, n - 1);
    }
  }

  lemma StatusSize(b: bytes)
    ensures |DecodeStatus(b)| == if b == [] then 0 else b[0]
  {
    if b != [] {
      StatusFromSize(b, b[0]);
    }
  }

  /** new replies with the id of the account it creates, whose creator is the caller. */
  lemma NewReply(c: Ctx, s: u32, a: NewArgs, slot: u32)
    requires Public(c.nextFreeId)
    ensures var (d, reply) := New(c, s, a, slot);
            && 0 <= reply < 0x1_0000_0000
            && d.accounts.Keys == c.accounts.Keys + {reply}
            && d.accounts[reply].parent == s && d.accounts[reply].creationSlot == slot
  {
    assert New(c, s, a, slot).0.accounts.Keys == c.accounts.Keys + {NewId(c, s, a)};
  }

  // ------------------------------------------------------------ how an invocation ends

  /** Call `i` is the last checkpoint before call `n`. */
  ghost predicate LastMark(calls: seq<Call>, i: int, n: nat)
    requires n <= |calls|
  {
    0 <= i < n && calls[i].n == 17 && forall j | i < j < n :: calls[j].n != 17
  }

  /**
   * A halt leaves the state and the transfers of all calls, and as output the 32 bytes at r7 when r8 is 32 and
   * they are readable, otherwise the last yield.
   */
  lemma HaltLeavesAll(c: Ctx, calls: seq<Call>, regs: Regs, mem: Mem, s: u32, slot: u32, seed: u32, output: bytes)
    requires |output| == 32 && Holds(mem, regs[7] % W32, output)
    ensures Public(Prepared(c, seed).nextFreeId)
    ensures var end := ViewAfter(View(Prepared(c, seed), [], None), calls, |calls|, s, slot);
            var r := Invoke(c, Script(calls, Halted(regs, mem)), s, slot, seed);
            && r.ctx == end.ctx && r.transfers == end.transfers
            && r.yielded == if regs[8] == 32 && Readable(mem, regs[7] % W32, 32) then Some(output) else end.yielded
  {
    PreparedReady(c, seed);
    assert calls[..|calls|] == calls;
    ReadableIff(mem, regs[7] % W32, 32);
    LoadsHeld(mem, regs[7] % W32, output);
  }

  /** Any other end leaves what the last checkpoint left, or the prepared start. */
  lemma BadEndLeavesMark(c: Ctx, calls: seq<Call>, exit: GuestExit, s: u32, slot: u32, seed: u32)
    requires !exit.Halted?
    ensures Public(Prepared(c, seed).nextFreeId)
    ensures var start := View(Prepared(c, seed), [], None); var r := Invoke(c, Script(calls, exit), s, slot, seed);
            && (forall i | LastMark(calls, i, |calls|) :: r == ViewAfter(start, calls, i, s, slot))
            && ((forall i | 0 <= i < |calls| :: calls[i].n != 17) ==> r == start)
  {
    PreparedReady(c, seed);
    forall i | LastMark(calls, i, |calls|)
      ensures Invoke(c, Script(calls, exit), s, slot, seed)
           == ViewAfter(View(Prepared(c, seed), [], None), calls, i, s, slot)
    {
      assert calls == calls[..i] + [calls[i]] + calls[i + 1..];
      RollsBackToCheckpoint(c, calls[..i], calls[i], calls[i + 1..], exit, s, slot, seed);
    }
    if forall i | 0 <= i < |calls| :: calls[i].n != 17 {
      RollsBackToStart(c, calls, exit, s, slot, seed);
    }
  }

  /** Code that does not load changes nothing, not even the prepared id; else the search for that starts at the seed. */
  lemma StartLaw(c: Ctx, s: u32, slot: u32, seed: u32, steps: nat)
    requires FirstFreeAt(CycleFrom(0x1_0000, seed), c.accounts.Keys, steps)
    ensures Invoke(c, Unloadable, s, slot, seed) == View(c, [], None)
    ensures Prepared(c, seed) == c.(nextFreeId := CycleFrom(0x1_0000, seed + steps))
  {
    FirstFreeUnique(CycleFrom(0x1_0000, seed), c.accounts.Keys, steps);
    CycleSteps(0, seed, steps);
  }
}
