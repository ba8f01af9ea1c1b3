/**
 * Service accounts, the opaque dictionary behind them, and the host calls that change either.
 * Every operation returns the new state and the code left in register 7.
 */
module ServiceState {
  import opened Base
  import opened ServiceIds

  /** `C(s, E4(marker) ++ tail)` with the hash idealised as injective: marker collisions remain visible. */
  datatype Key = Key(service: u32, marker: u32, tail: bytes)

  const STORAGE: u32 := 0xffff_ffff
  const PREIMAGE: u32 := 0xffff_fffe

  function StorageKey(s: u32, key: bytes): Key { Key(s, STORAGE, key) }
  function PreimageKey(s: u32, hash: bytes): Key { Key(s, PREIMAGE, hash) }
  function RequestKey(s: u32, length: u32, hash: bytes): Key { Key(s, length, hash) }

  const NONE: u64 := 0xffff_ffff_ffff_ffff
  const WHO: u64 := 0xffff_ffff_ffff_fffc
  const HUH: u64 := 0xffff_ffff_ffff_fff7
  const CASH: u64 := 0xffff_ffff_ffff_fff9

  const ITEM_OVERHEAD: int := 34
  const EXPUNGE: nat := 32

  /** Account metadata; `items` and `octets` cache the storage footprint. */
  datatype Info = Info(
    codeHash: bytes, balance: nat, minItemGas: u64, minMemoGas: u64, octets: int, depositOffset: u64,
    items: int, creationSlot: u32, lastAccumulationSlot: u32, parent: u32)

  datatype Transfer = Transfer(source: u32, dest: u32, amount: u64, gas: u64, memo: bytes)

  /** The part of the execution state the host calls read and write. */
  datatype Ctx = Ctx(accounts: map<u32, Info>, dict: map<Key, bytes>, nextFreeId: u32, manager: u32, registrar: u32)

  function SetAccount(c: Ctx, s: u32, a: Info): Ctx {
    c.(accounts := c.accounts[s := a])
  }

  /** Moves the cached footprint of account `s`, when it exists. */
  function Charge(c: Ctx, s: u32, items: int, octets: int): Ctx {
    if s in c.accounts
    then SetAccount(c, s, c.accounts[s].(items := c.accounts[s].items + items, octets := c.accounts[s].octets + octets))
    else c
  }

  function AddBalance(c: Ctx, s: u32, amount: nat): Ctx {
    if s in c.accounts then SetAccount(c, s, c.accounts[s].(balance := c.accounts[s].balance + amount)) else c
  }

  // ------------------------------------------------------------ preimage-request status

  function ByteOrZero(b: bytes, i: nat): byte {
    if i < |b| then b[i] else 0
  }

  /** Little-endian 4-byte slot at `at`; bytes past the end, where the code would abort, read as zero. */
  function SlotAt(b: bytes, at: nat): u32 {
    ByteOrZero(b, at) + ByteOrZero(b, at + 1) * 0x100 + ByteOrZero(b, at + 2) * 0x1_0000
      + ByteOrZero(b, at + 3) * 0x100_0000
  }

  function SlotBytes(slot: u32): bytes {
    LowBytes(slot, 4)
  }

  function StatusFrom(b: bytes, n: nat): seq<u32> {
    if n == 0 then [] else StatusFrom(b, n - 1) + [SlotAt(b, 1 + 4 * (n - 1))]
  }

  function DecodeStatus(b: bytes): seq<u32> {
    if b == [] then [] else StatusFrom(b, b[0])
  }

  function StatusTail(slots: seq<u32>): bytes {
    if slots == [] then [] else StatusTail(slots[..|slots| - 1]) + SlotBytes(slots[|slots| - 1])
  }

  /** Count byte, then the slots. */
  function EncodeStatus(slots: seq<u32>): bytes
    requires |slots| < 128
  {
    [|slots|] + StatusTail(slots)
  }

  lemma {:induction false} StatusTailLength(slots: seq<u32>)
    ensures |StatusTail(slots)| == 4 * |slots|
    decreases |slots|
  {
    if slots != [] {
      StatusTailLength(slots[..|slots| - 1]);
    }
  }

  lemma SlotDigits(slot: u32)
    ensures slot % 256 + slot / 0x100 % 256 * 0x100 + slot / 0x1_0000 % 256 * 0x1_0000
              + slot / 0x100_0000 * 0x100_0000 == slot
  {
    assert slot / 0x100 / 256 == slot / 0x1_0000;
    assert slot / 0x1_0000 / 256 == slot / 0x100_0000;
  }

  lemma SlotRoundTrip(b: bytes, at: nat, slot: u32)
    requires at + 4 <= |b| && b[at..at + 4] == SlotBytes(slot)
    ensures SlotAt(b, at) == slot
  {
    var s := b[at..at + 4];
    assert s[0] == b[at] && s[1] == b[at + 1] && s[2] == b[at + 2] && s[3] == b[at + 3];
    FourBytes(slot);
    SlotDigits(slot);
  }

  lemma {:induction false} StatusFromPrefix(b: bytes, slots: seq<u32>, n: nat)
    requires n <= |slots| && |b| >= 1 + 4 * |slots|
    requires forall i | 0 <= i < n :: b[1 + 4 * i..5 + 4 * i] == SlotBytes(slots[i])
    ensures StatusFrom(b, n) == slots[..n]
    decreases n
  {
    if n > 0 {
      StatusFromPrefix(b, slots, n - 1);
      SlotRoundTrip(b, 1 + 4 * (n - 1), slots[n - 1]);
      assert slots[..n] == slots[..n - 1] + [slots[n - 1]];
    }
  }

  lemma {:induction false} StatusTailAt(slots: seq<u32>, i: nat)
    requires i < |slots|
    ensures |StatusTail(slots)| == 4 * |slots|
    ensures StatusTail(slots)[4 * i..4 * i + 4] == SlotBytes(slots[i])
    decreases |slots|
  {
    var init := slots[..|slots| - 1];
    StatusTailLength(slots);
    StatusTailLength(init);
    if i < |slots| - 1 {
      StatusTailAt(init, i);
      assert StatusTail(slots)[4 * i..4 * i + 4] == StatusTail(init)[4 * i..4 * i + 4];
    } else {
      assert StatusTail(slots)[4 * i..4 * i + 4] == SlotBytes(slots[i]);
    }
  }

  /** A stored status reads back as the slots it was written with. */
  lemma StatusRoundTrip(slots: seq<u32>)
    requires |slots| < 128
    ensures DecodeStatus(EncodeStatus(slots)) == slots
  {
    var b := EncodeStatus(slots);
    StatusTailLength(slots);
    forall i | 0 <= i < |slots|
      ensures b[1 + 4 * i..5 + 4 * i] == SlotBytes(slots[i])
    {
      StatusTailAt(slots, i);
      assert b[1 + 4 * i..5 + 4 * i] == StatusTail(slots)[4 * i..4 * i + 4];
    }
    StatusFromPrefix(b, slots, |slots|);
    assert slots[..|slots|] == slots;
  }

  // ------------------------------------------------------------ host calls

  /** write: sets or, with an empty value, deletes an entry of the caller's storage. */
  function Write(c: Ctx, s: u32, key: bytes, value: bytes): (Ctx, int) {
    if s !in c.accounts then (c, WHO)
    else
      var k := StorageKey(s, key);
      var reply: int := if k in c.dict then |c.dict[k]| else NONE;
      if value == [] then
        if k in c.dict then
          (Charge(c, s, -1, -(ITEM_OVERHEAD + |key| + |c.dict[k]|)).(dict := c.dict - {k}), reply)
        else (c, reply)
      else if k in c.dict then (Charge(c, s, 0, |value| - |c.dict[k]|).(dict := c.dict[k := value]), reply)
      else (Charge(c, s, 1, ITEM_OVERHEAD + |key| + |value|).(dict := c.dict[k := value]), reply)
  }

  function DropService(dict: map<Key, bytes>, d: u32): map<Key, bytes> {
    map k | k in dict && k.service != d :: dict[k]
  }

  /** eject: removes another account with everything stored under it, crediting its balance to the caller. */
  function Eject(c: Ctx, s: u32, d: u32): (Ctx, int) {
    if d !in c.accounts then (c, WHO)
    else if d == s then (c, HUH)
    else
      var removed := c.(accounts := c.accounts - {d}, dict := DropService(c.dict, d));
      (AddBalance(removed, s, c.accounts[d].balance), 0)
  }

  /** Where a transfer takes its memo from. */
  datatype Memo = NoMemo | Unreadable | Memo(data: bytes)

  /** transfer: immediate without a memo, otherwise deferred; the amount leaves the caller either way. */
  function Send(c: Ctx, s: u32, dest: u32, amount: u64, gas: u64, memo: Memo): (Ctx, Option<Transfer>, int) {
    if dest !in c.accounts then (c, None, WHO)
    else if s !in c.accounts || c.accounts[s].balance < amount then (c, None, CASH)
    else
      var debited := SetAccount(c, s, c.accounts[s].(balance := c.accounts[s].balance - amount));
      match memo
      case NoMemo => (AddBalance(debited, dest, amount), None, 0)
      case Unreadable => (c, None, NONE)
      case Memo(data) => (debited, Some(Transfer(s, dest, amount, gas, data)), 0)
  }

  /** solicit: opens a preimage request of the caller, or reopens one that was made unavailable. */
  function Solicit(c: Ctx, s: u32, length: u32, hash: bytes, slot: u32): (Ctx, int) {
    var k := RequestKey(s, length, hash);
    if k !in c.dict then (Charge(c, s, 2, 81 + length).(dict := c.dict[k := EncodeStatus([])]), 0)
    else
      var status := DecodeStatus(c.dict[k]);
      if |status| == 2 then (c.(dict := c.dict[k := EncodeStatus([status[0], status[1], slot])]), 0)
      else (c, HUH)
  }

  /** forget: closes a request, or moves it one stage towards expunging. */
  function Forget(c: Ctx, s: u32, length: u32, hash: bytes, slot: u32): (Ctx, int) {
    var k := RequestKey(s, length, hash);
    if k !in c.dict then (c, HUH)
    else
      var status := DecodeStatus(c.dict[k]);
      var dropped := Charge(c, s, -2, -(81 + length)).(dict := c.dict - {k});
      if status == [] then (dropped, 0)
      else if |status| == 2 && status[1] < SatSub(slot, EXPUNGE) then
        (dropped.(dict := dropped.dict - {PreimageKey(s, hash)}), 0)
      else if |status| == 1 then (c.(dict := c.dict[k := EncodeStatus([status[0], slot])]), 0)
      else if |status| == 3 && status[1] < SatSub(slot, EXPUNGE) then
        (c.(dict := c.dict[k := EncodeStatus([status[2], slot])]), 0)
      else (c, HUH)
  }

  datatype NewArgs = NewArgs(
    codeHash: bytes, codeLen: u64, minItemGas: u64, minMemoGas: u64, gratis: u64, desired: u32)

  /** The id a `new` call takes: a reserved one for the registrar, otherwise the prepared one. */
  function NewId(c: Ctx, s: u32, a: NewArgs): u32 {
    if s == c.registrar && a.desired < MIN_PUBLIC then a.desired else c.nextFreeId
  }

  /** Least balance of a fresh account that holds one request for its code. */
  function MinBalance(a: NewArgs): nat {
    100 + 10 * 2 + (81 + a.codeLen)
  }

  function NewInfo(a: NewArgs, s: u32, slot: u32): Info {
    Info(a.codeHash, MinBalance(a), a.minItemGas, a.minMemoGas, 81 + a.codeLen, a.gratis, 2, slot, 0, s)
  }

  /** Takes the amount from the account, or all it has. */
  function Withdraw(c: Ctx, s: u32, amount: nat): Ctx {
    if s in c.accounts
    then SetAccount(c, s, c.accounts[s].(balance := SatSub(c.accounts[s].balance, amount)))
    else c
  }

  /** new: creates an account with one open code request, funded by the caller as far as it can. */
  function New(c: Ctx, s: u32, a: NewArgs, slot: u32): (Ctx, int)
    requires Public(c.nextFreeId)
  {
    var id := NewId(c, s, a);
    var next := FirstFree(Advance(c.nextFreeId, STRIDE), c.accounts.Keys);
    (Withdraw(NewCreated(c, s, id, a, slot, next), s, MinBalance(a)), id)
  }

  /** The state with the account and its request in place, before the caller pays. */
  function NewCreated(c: Ctx, s: u32, id: u32, a: NewArgs, slot: u32, next: u32): Ctx {
    c.(accounts := c.accounts[id := NewInfo(a, s, slot)],
       dict := c.dict[RequestKey(id, a.codeLen % W32, a.codeHash) := [0]],
       nextFreeId := next)
  }
}
