/**
 * Guarantor assignment: the entropy shuffle, the rotation, and the credential check that relies on them.
 * The hash that seeds the shuffle and the signature check are parameters.
 */
module Guarantors {
  import opened Base

  const ROTATION: nat := 4

  // ------------------------------------------------------------ the shuffle

  /** Number `i` of the sequence a seed yields: eight numbers from each digest. */
  function Draw(hash: HashFn, seed: bytes, i: nat): u32
    requires i / 8 < 0x1_0000_0000
  {
    assert Width(4) == Pow256(4);
    LE(hash(seed + LowBytes(i / 8, 4)), 4 * i % 32, 4)
  }

  function SeqFromHash(hash: HashFn, len: nat, seed: bytes): (r: seq<nat>)
    requires len <= 0x1_0000_0000
    ensures |r| == len
  {
    seq(len, i requires 0 <= i < len => Draw(hash, seed, i) as nat)
  }

  /** Picks an element, moves the last one into its place, and goes on with one fewer. */
  function Shuffle<T>(s: seq<T>, r: seq<nat>): seq<T>
    requires |s| == |r|
    decreases |s|
  {
    if s == [] then []
    else
      var idx, n := r[0] % |s|, |s|;
      [s[idx]] + Shuffle(s[idx := s[n - 1]][..n - 1], r[1..])
  }

  method FisherYates<T>(base: seq<T>, r: seq<nat>) returns (out: seq<T>)
    requires |r| == |base|
    ensures out == Shuffle(base, r)
  {
    var s, len := base, |base|;
    out := [];
    assert s[..len] == base && r[0..] == r;
    for i := 0 to |base|
      invariant len == |base| - i && |s| == |base|
      invariant out + Shuffle(s[..len], r[i..]) == Shuffle(base, r)
    {
      var idx := r[i] % len;
      ghost var before := s[..len];
      ghost var rest := Shuffle(before[idx := before[len - 1]][..len - 1], r[i + 1..]);
      assert r[i..][1..] == r[i + 1..];
      assert Shuffle(before, r[i..]) == [before[idx]] + rest;
      assert out + ([before[idx]] + rest) == (out + [before[idx]]) + rest;
      out := out + [s[idx]];
      s := s[idx := s[len - 1]];
      len := len - 1;
      assert s[..len] == before[idx := before[len]][..len];
    }
    assert out + [] == out;
  }

  /** Whatever the numbers drawn, the shuffle is a permutation. */
  lemma {:induction false} ShufflePermutes<T>(s: seq<T>, r: seq<nat>)
    requires |s| == |r|
    ensures multiset(Shuffle(s, r)) == multiset(s) && |Shuffle(s, r)| == |s|
    decreases |s|
  {
    if s != [] {
      var idx, n := r[0] % |s|, |s|;
      TakeOut(s, idx);
      ShufflePermutes(s[idx := s[n - 1]][..n - 1], r[1..]);
    }
  }

  lemma TakeOut<T>(s: seq<T>, idx: nat)
    requires idx < |s|
    ensures multiset(s[idx := s[|s| - 1]][..|s| - 1]) == multiset(s) - multiset{s[idx]}
  {
    var init, last := s[..|s| - 1], s[|s| - 1];
    assert s == init + [last];
    if idx < |init| {
      assert s[idx := last][..|s| - 1] == init[idx := last];
    } else {
      assert s[idx := last][..|s| - 1] == init;
    }
  }

  // ------------------------------------------------------------ the assignment

  /** Three places a core, before the shuffle. */
  function Places(n: nat): (r: seq<nat>)
    ensures |r| == n
  {
    seq(n, i requires 0 <= i < n => i / 3)
  }

  function Rotate(cores: nat, turn: nat, c: nat): nat
    requires cores > 0
  {
    (c + turn) % cores
  }

  function RotateAll(cores: nat, turn: nat, cs: seq<nat>): (r: seq<nat>)
    requires cs != [] ==> cores > 0
    ensures |r| == |cs|
  {
    seq(|cs|, i requires 0 <= i < |cs| => Rotate(cores, turn, cs[i]))
  }

  /** A validator count: a multiple of three that the hash counter can cover. */
  type Count = n: nat | n % 3 == 0 && n <= 0x1_0000_0000

  /** The core of each of `n` validators at slot `t`. */
  function CoresAt(hash: HashFn, n: Count, entropy: bytes, t: nat): (r: seq<nat>)
    ensures |r| == n
  {
    ShufflePermutes(Places(n), SeqFromHash(hash, n, entropy));
    RotateAll(n / 3, t % EPOCH / ROTATION, Shuffle(Places(n), SeqFromHash(hash, n, entropy)))
  }

  method ComputeCores(hash: HashFn, n: Count, entropy: bytes, t: nat) returns (cores: seq<nat>)
    ensures cores == CoresAt(hash, n, entropy, t)
  {
    var shuffled := FisherYates(Places(n), SeqFromHash(hash, n, entropy));
    ShufflePermutes(Places(n), SeqFromHash(hash, n, entropy));
    cores := RotateAll(n / 3, t % EPOCH / ROTATION, shuffled);
  }

  lemma {:induction false} PlacesCount(m: nat, c: nat)
    ensures multiset(Places(3 * m))[c] == if c < m then 3 else 0
    decreases m
  {
    if m > 0 {
      PlacesCount(m - 1, c);
      assert Places(3 * m) == Places(3 * (m - 1)) + [m - 1, m - 1, m - 1];
    }
  }

  /** Rotation moves a core forward by a remainder, wrapping once. */
  lemma RotateWraps(cores: nat, turn: nat, c: nat)
    requires c < cores
    ensures var k := turn % cores; Rotate(cores, turn, c) == if c + k < cores then c + k else c + k - cores
  {
    var q, k := turn / cores, turn % cores;
    SplitAt(turn, cores);
    if c + k < cores {
      QuotientUnique(c + turn, cores, q, c + k);
    } else {
      assert (q + 1) * cores == q * cores + cores;
      QuotientUnique(c + turn, cores, q + 1, c + k - cores);
    }
  }

  /** The core a rotation takes to `c`. */
  function Unrotate(cores: nat, turn: nat, c: nat): (d: nat)
    requires c < cores
    ensures d < cores
  {
    if c >= turn % cores then c - turn % cores else c + cores - turn % cores
  }

  /** Rotation only renames cores: it carries counts over. */
  lemma {:induction false} RotateCount(cores: nat, turn: nat, cs: seq<nat>, c: nat)
    requires c < cores && forall i | 0 <= i < |cs| :: cs[i] < cores
    ensures multiset(RotateAll(cores, turn, cs))[c] == multiset(cs)[Unrotate(cores, turn, c)]
    decreases |cs|
  {
    if cs != [] {
      var init, last := cs[..|cs| - 1], cs[|cs| - 1];
      RotateCount(cores, turn, init, c);
      assert cs == init + [last];
      assert RotateAll(cores, turn, cs) == RotateAll(cores, turn, init) + [Rotate(cores, turn, last)];
      RotateWraps(cores, turn, last);
    }
  }

  lemma {:induction false} IndexCount(s: seq<nat>, c: nat, n: nat)
    requires n <= |s|
    ensures |Members(s[..n], c)| == multiset(s[..n])[c]
    decreases n
  {
    if n > 0 {
      IndexCount(s, c, n - 1);
      assert s[..n] == s[..n - 1] + [s[n - 1]];
      var before := Members(s[..n - 1], c);
      if s[n - 1] == c {
        assert Members(s[..n], c) == before + {n - 1};
      } else {
        assert Members(s[..n], c) == before;
      }
    }
  }

  /** The validators assigned to a core. */
  ghost function Members(cores: seq<nat>, c: nat): set<nat> {
    set v | 0 <= v < |cores| && cores[v] == c
  }

  /** For every seed and slot, each core has exactly three validators. */
  lemma ThreePerCore(hash: HashFn, n: Count, entropy: bytes, t: nat, c: nat)
    requires c < n / 3
    ensures |Members(CoresAt(hash, n, entropy, t), c)| == 3
  {
    var m, turn := n / 3, t % EPOCH / ROTATION;
    var r := SeqFromHash(hash, n, entropy);
    var shuffled := Shuffle(Places(n), r);
    ShufflePermutes(Places(n), r);
    assert n == 3 * m;
    forall i | 0 <= i < |shuffled|
      ensures shuffled[i] < m
    {
      assert shuffled[i] in multiset(shuffled) && shuffled[i] in multiset(Places(n));
    }
    RotateCount(m, turn, shuffled, c);
    PlacesCount(m, Unrotate(m, turn, c));
    var cores := CoresAt(hash, n, entropy, t);
    IndexCount(cores, c, n);
    assert cores[..n] == cores;
  }

  // ------------------------------------------------------------ drawing and turning, undone

  function Joined(b0: nat, b1: nat, b2: nat, b3: nat): nat {
    b0 + b1 * 0x100 + b2 * 0x1_0000 + b3 * 0x100_0000
  }

  /** The value of four bytes, least significant first. */
  lemma FourByteValue(d: bytes, k: nat)
    requires k + 4 <= |d|
    ensures LE(d, k, 4) == Joined(d[k], d[k + 1], d[k + 2], d[k + 3])
  {
    assert Width(1) == Pow256(1) && Width(2) == Pow256(2) && Width(3) == Pow256(3);
    assert LE(d, k, 1) == d[k];
    assert LE(d, k, 2) == LE(d, k, 1) + d[k + 1] * Pow256(1);
    assert LE(d, k, 3) == LE(d, k, 2) + d[k + 2] * Pow256(2);
  }

  /** A draw is four bytes, least significant first, of the digest of the seed and the digest's number. */
  lemma DrawLaw(hash: HashFn, len: nat, seed: bytes, i: nat)
    requires i < len <= 0x1_0000_0000
    ensures var n, k := i / 8, i % 8 * 4;
            var d := hash(seed + [n % 0x100, n / 0x100 % 0x100, n / 0x1_0000 % 0x100, n / 0x100_0000]);
            SeqFromHash(hash, len, seed)[i] == Joined(d[k], d[k + 1], d[k + 2], d[k + 3])
  {
    FourBytes(i / 8);
    SplitAt(i, 8);
    QuotientUnique(4 * i, 32, i / 8, i % 8 * 4);
    FourByteValue(hash(seed + LowBytes(i / 8, 4)), i % 8 * 4);
  }

  /** Puts the picked elements back, last first: each where it was, after moving the one in its place to the end. */
  function Unshuffle<T>(out: seq<T>, r: seq<nat>): (s: seq<T>)
    requires |out| == |r|
    ensures |s| == |out|
    decreases |out|
  {
    if out == [] then []
    else
      var rest, idx := Unshuffle(out[1..], r[1..]), r[0] % |out|;
      if idx == |rest| then rest + [out[0]] else rest[idx := out[0]] + [rest[idx]]
  }

  /** The numbers drawn undo the shuffle, so they fix where every element goes. */
  lemma {:induction false} ShuffleUndone<T>(s: seq<T>, r: seq<nat>)
    requires |s| == |r|
    ensures |Shuffle(s, r)| == |s| && Unshuffle(Shuffle(s, r), r) == s
    decreases |s|
  {
    if s != [] {
      var idx, n := r[0] % |s|, |s|;
      var fewer := s[idx := s[n - 1]][..n - 1];
      ShuffleUndone(fewer, r[1..]);
      var out := Shuffle(s, r);
      assert out == [s[idx]] + Shuffle(fewer, r[1..]);
      assert out[1..] == Shuffle(fewer, r[1..]);
      if idx == n - 1 {
        assert s == fewer + [s[idx]];
      } else {
        assert s == fewer[idx := s[idx]] + [fewer[idx]];
      }
    }
  }

  lemma SumRemainder(x: nat, m: nat)
    requires m > 0
    ensures (x + 1) % m == (x % m + 1) % m
  {
    var q, y := x / m, x % m;
    SplitAt(x, m);
    if y + 1 < m {
      QuotientUnique(x + 1, m, q, y + 1);
    } else {
      assert (q + 1) * m == q * m + m;
      QuotientUnique(x + 1, m, q + 1, 0);
      QuotientUnique(m, m, 1, 0);
    }
  }

  lemma NextCore(cores: nat, turn: nat, c: nat)
    requires c < cores
    ensures var now := Rotate(cores, turn, c);
            Rotate(cores, turn + 1, c) == if now == cores - 1 then 0 else now + 1
    ensures Rotate(cores, 0, c) == c
  {
    var now := Rotate(cores, turn, c);
    SumRemainder(c + turn, cores);
    if now == cores - 1 {
      QuotientUnique(cores, cores, 1, 0);
    } else {
      QuotientUnique(now + 1, cores, 0, now + 1);
    }
    QuotientUnique(c, cores, 0, c);
  }

  lemma TurnOf(t: nat)
    ensures t % 12 < 4 ==> t % EPOCH / ROTATION == 0
    ensures t % 12 < 8 ==> (t + 4) % EPOCH / ROTATION == t % EPOCH / ROTATION + 1
    ensures t % 4 != 3 ==> (t + 1) % EPOCH / ROTATION == t % EPOCH / ROTATION
    ensures (t + 12) % EPOCH / ROTATION == t % EPOCH / ROTATION
  {
    var q, k, j := t / 12, t % 12, t % 12 % 4;
    SplitAt(t, 12);
    QuotientUnique(t + 12, 12, q + 1, k);
    if k < 8 {
      QuotientUnique(t + 4, 12, q, k + 4);
    }
    var h := k / 4;
    SplitAt(k, 4);
    QuotientUnique(t, 4, 3 * q + h, j);
    if j != 3 {
      QuotientUnique(t + 1, 12, q, k + 1);
      QuotientUnique(k + 1, 4, h, j + 1);
    }
  }

  lemma BoundKept(s: seq<nat>, t: seq<nat>, m: nat)
    requires multiset(s) == multiset(t) && forall i | 0 <= i < |t| :: t[i] < m
    ensures forall i | 0 <= i < |s| :: s[i] < m
  {
    forall i | 0 <= i < |s|
      ensures s[i] < m
    {
      assert s[i] in multiset(s);
      assert s[i] in t;
    }
  }

  /** The shuffled places, from which rotation starts. */
  ghost function Start(hash: HashFn, n: Count, entropy: bytes): (r: seq<nat>)
    ensures |r| == n
  {
    ShufflePermutes(Places(n), SeqFromHash(hash, n, entropy));
    Shuffle(Places(n), SeqFromHash(hash, n, entropy))
  }

  lemma PlacesBelow(m: nat)
    ensures forall i | 0 <= i < 3 * m :: Places(3 * m)[i] < m
  {
  }

  lemma StartBelow(hash: HashFn, n: Count, entropy: bytes)
    ensures forall v | 0 <= v < n :: Start(hash, n, entropy)[v] < n / 3
  {
    assert n == 3 * (n / 3);
    ShufflePermutes(Places(n), SeqFromHash(hash, n, entropy));
    PlacesBelow(n / 3);
    BoundKept(Start(hash, n, entropy), Places(n), n / 3);
  }

  lemma CoresFromStart(hash: HashFn, n: Count, entropy: bytes, t: nat)
    ensures CoresAt(hash, n, entropy, t) == RotateAll(n / 3, t % EPOCH / ROTATION, Start(hash, n, entropy))
  {
  }

  /**
   * The assignment starts an epoch as the shuffle leaves it, stands for four slots, and then sends every
   * validator to the next core, the last core's validators to core 0.
   */
  lemma RotationLaw(hash: HashFn, n: Count, entropy: bytes, t: nat)
    ensures t % 12 < 4 ==> CoresAt(hash, n, entropy, t) == Start(hash, n, entropy)
    ensures t % 4 != 3 ==> CoresAt(hash, n, entropy, t + 1) == CoresAt(hash, n, entropy, t)
    ensures t % 12 < 8 ==> forall v | 0 <= v < n ::
              var c := CoresAt(hash, n, entropy, t)[v];
              CoresAt(hash, n, entropy, t + 4)[v] == if c == n / 3 - 1 then 0 else c + 1
    ensures CoresAt(hash, n, entropy, t + 12) == CoresAt(hash, n, entropy, t)
  {
    TurnOf(t);
    StartBelow(hash, n, entropy);
    CoresFromStart(hash, n, entropy, t);
    CoresFromStart(hash, n, entropy, t + 1);
    CoresFromStart(hash, n, entropy, t + 4);
    CoresFromStart(hash, n, entropy, t + 12);
    var start := Start(hash, n, entropy);
    forall v | 0 <= v < n
      ensures var now := Rotate(n / 3, t % EPOCH / ROTATION, start[v]);
              && Rotate(n / 3, 0, start[v]) == start[v]
              && Rotate(n / 3, t % EPOCH / ROTATION + 1, start[v]) == if now == n / 3 - 1 then 0 else now + 1
    {
      NextCore(n / 3, t % EPOCH / ROTATION, start[v]);
    }
  }

  /** Undoing the shuffle of an epoch's first assignment puts validators 0, 1, 2 on core 0, the next three on core 1. */
  lemma StartLaw(hash: HashFn, n: Count, entropy: bytes, t: nat, v: nat)
    requires t % 12 < 4 && v < n
    ensures Unshuffle(CoresAt(hash, n, entropy, t), SeqFromHash(hash, n, entropy))[v] == v / 3
  {
    RotationLaw(hash, n, entropy, t);
    ShuffleUndone(Places(n), SeqFromHash(hash, n, entropy));
  }

  // ------------------------------------------------------------ which assignment

  type Key = bytes

  type KeySet = k: seq<Key> | |k| == VALIDATORS_COUNT witness seq(VALIDATORS_COUNT, _ => [])

  /** Current and previous validator keys, and the entropies the two assignments use. */
  datatype Registry = Registry(current: KeySet, previous: KeySet, eta2: bytes, eta3: bytes, offenders: seq<Key>)

  /** The assignment and keys a guarantee made at `made` is checked against in a block at `slot`. */
  function AssignmentFor(hash: HashFn, p: Registry, slot: nat, made: nat): (seq<nat>, KeySet) {
    if slot / ROTATION == made / ROTATION then (CoresAt(hash, |p.current|, p.eta2, slot), p.current)
    else
      var before := SatSub(slot, ROTATION);
      if before / EPOCH == slot / EPOCH then (CoresAt(hash, |p.current|, p.eta2, before), p.current)
      else (CoresAt(hash, |p.previous|, p.eta3, before), p.previous)
  }

  /** The assignment in force at a slot of the current or the previous epoch. */
  function InForce(hash: HashFn, p: Registry, slot: nat, made: nat): (seq<nat>, KeySet) {
    if made / EPOCH == slot / EPOCH then (CoresAt(hash, |p.current|, p.eta2, made), p.current)
    else (CoresAt(hash, |p.previous|, p.eta3, made), p.previous)
  }

  /** Slots a guarantee may be made at: this rotation or the one before. */
  predicate Recent(slot: nat, made: nat) {
    ROTATION * SatSub(slot / ROTATION, 1) <= made <= slot
  }

  lemma SameRotation(a: nat, b: nat)
    requires a / ROTATION == b / ROTATION
    ensures a / EPOCH == b / EPOCH && a % EPOCH / ROTATION == b % EPOCH / ROTATION
  {
    RotationOf(a);
    RotationOf(b);
  }

  lemma RotationOf(a: nat)
    ensures a / EPOCH == a / ROTATION / 3 && a % EPOCH / ROTATION == a / ROTATION % 3
  {
  }

  /** A guarantee is checked against the assignment that was in force when it was made. */
  lemma CheckedAgainstOwnSlot(hash: HashFn, p: Registry, slot: nat, made: nat)
    requires Recent(slot, made)
    ensures AssignmentFor(hash, p, slot, made) == InForce(hash, p, slot, made)
  {
    if slot / ROTATION == made / ROTATION {
      SameRotation(slot, made);
    } else {
      SameRotation(SatSub(slot, ROTATION), made);
    }
  }

  // ------------------------------------------------------------ credentials

  datatype Credential = Credential(validator: nat, signature: bytes)

  datatype CredentialError =
    | FutureReportSlot | ReportEpochBeforeLast | NotSortedOrUniqueGuarantors | InsufficientGuarantees
    | BadValidatorIndex | WrongAssignment | BannedValidator | BadSignature

  type SignatureCheck = (Key, bytes) -> bool

  predicate Sorted(xs: seq<Credential>) {
    forall i, j | 0 <= i < j < |xs| :: xs[i].validator < xs[j].validator
  }

  /** What one credential fails against an assignment. */
  function CredentialFault(
    verify: SignatureCheck, p: Registry, cores: seq<nat>, keys: KeySet, core: nat, x: Credential)
    : Option<CredentialError>
    requires |cores| == VALIDATORS_COUNT
  {
    if x.validator >= VALIDATORS_COUNT then Some(BadValidatorIndex)
    else if cores[x.validator] != core || core >= VALIDATORS_COUNT / 3 then Some(WrongAssignment)
    else if keys[x.validator] in p.offenders then Some(BannedValidator)
    else if !verify(keys[x.validator], x.signature) then Some(BadSignature)
    else None
  }

  /** The first credential at fault, from the `i`-th on. */
  function FirstFault(
    verify: SignatureCheck, p: Registry, cores: seq<nat>, keys: KeySet, core: nat, xs: seq<Credential>, i: nat)
    : Option<CredentialError>
    requires |cores| == VALIDATORS_COUNT && i <= |xs|
    decreases |xs| - i
  {
    if i == |xs| then None
    else
      var f := CredentialFault(verify, p, cores, keys, core, xs[i]);
      if f.Some? then f else FirstFault(verify, p, cores, keys, core, xs, i + 1)
  }

  /** What the credentials of a guarantee for `core` made at `made` fail first, if anything. */
  function CredentialsFault(
    hash: HashFn, verify: SignatureCheck, p: Registry, slot: nat, made: nat, core: nat, xs: seq<Credential>)
    : Option<CredentialError>
  {
    if made > slot then Some(FutureReportSlot)
    else if !Recent(slot, made) then Some(ReportEpochBeforeLast)
    else if !Sorted(xs) then Some(NotSortedOrUniqueGuarantors)
    else if |xs| < 2 then Some(InsufficientGuarantees)
    else
      var (cores, keys) := AssignmentFor(hash, p, slot, made);
      FirstFault(verify, p, cores, keys, core, xs, 0)
  }

  /** A credential of a validator whom the assignment puts on the core, signed by a key that is not banned. */
  ghost predicate Endorses(
    hash: HashFn, verify: SignatureCheck, p: Registry, slot: nat, made: nat, core: nat, x: Credential)
  {
    && x.validator < 6 && core < 2
    && InForce(hash, p, slot, made).0[x.validator] == core
    && var key := InForce(hash, p, slot, made).1[x.validator];
       key !in p.offenders && verify(key, x.signature)
  }

  /** Made in this rotation or the one before, and signed by two or more such validators, in order. */
  ghost predicate Endorsed(
    hash: HashFn, verify: SignatureCheck, p: Registry, slot: nat, made: nat, core: nat, xs: seq<Credential>)
  {
    && 4 * SatSub(slot / 4, 1) <= made <= slot
    && 2 <= |xs|
    && (forall i, j | 0 <= i < j < |xs| :: xs[i].validator < xs[j].validator)
    && forall i | 0 <= i < |xs| :: Endorses(hash, verify, p, slot, made, core, xs[i])
  }

  lemma {:induction false} FirstFaultIs(
    verify: SignatureCheck, p: Registry, cores: seq<nat>, keys: KeySet, core: nat, xs: seq<Credential>, i: nat)
    returns (k: nat)
    requires |cores| == VALIDATORS_COUNT && i <= |xs|
    ensures i <= k <= |xs|
    ensures forall j | i <= j < k :: CredentialFault(verify, p, cores, keys, core, xs[j]) == None
    ensures k < |xs| ==> CredentialFault(verify, p, cores, keys, core, xs[k]).Some?
    ensures FirstFault(verify, p, cores, keys, core, xs, i)
         == if k < |xs| then CredentialFault(verify, p, cores, keys, core, xs[k]) else None
    decreases |xs| - i
  {
    if i == |xs| || CredentialFault(verify, p, cores, keys, core, xs[i]).Some? {
      k := i;
    } else {
      k := FirstFaultIs(verify, p, cores, keys, core, xs, i + 1);
    }
  }

  /** The credentials of a guarantee are accepted exactly if it is endorsed. */
  lemma EndorsedIff(
    hash: HashFn, verify: SignatureCheck, p: Registry, slot: nat, made: nat, core: nat, xs: seq<Credential>)
    ensures CredentialsFault(hash, verify, p, slot, made, core, xs) == None
       <==> Endorsed(hash, verify, p, slot, made, core, xs)
  {
    if Recent(slot, made) {
      CheckedAgainstOwnSlot(hash, p, slot, made);
      var (cores, keys) := AssignmentFor(hash, p, slot, made);
      var k := FirstFaultIs(verify, p, cores, keys, core, xs, 0);
      forall i | 0 <= i < |xs|
        ensures Endorses(hash, verify, p, slot, made, core, xs[i])
           <==> CredentialFault(verify, p, cores, keys, core, xs[i]) == None
      {
      }
    }
  }

  /** The conditions of one credential, in the order in which they are examined, up to the one that fails. */
  ghost predicate Fails(
    hash: HashFn, p: Registry, slot: nat, made: nat, core: nat, x: Credential, e: CredentialError)
  {
    if x.validator >= 6 then e == BadValidatorIndex
    else if InForce(hash, p, slot, made).0[x.validator] != core || core >= 2 then e == WrongAssignment
    else if InForce(hash, p, slot, made).1[x.validator] in p.offenders then e == BannedValidator
    else e == BadSignature
  }

  /** Which error a rejected guarantee is given: that of the first credential that does not endorse it. */
  lemma RejectedWith(
    hash: HashFn, verify: SignatureCheck, p: Registry, slot: nat, made: nat, core: nat, xs: seq<Credential>,
    e: CredentialError)
    requires CredentialsFault(hash, verify, p, slot, made, core, xs) == Some(e)
    ensures e == FutureReportSlot <==> made > slot
    ensures e == ReportEpochBeforeLast <==> made < 4 * SatSub(slot / 4, 1)
    ensures e == NotSortedOrUniqueGuarantors
       <==> 4 * SatSub(slot / 4, 1) <= made <= slot
            && exists i, j :: 0 <= i < j < |xs| && xs[i].validator >= xs[j].validator
    ensures e == InsufficientGuarantees ==> |xs| < 2
    ensures e in {BadValidatorIndex, WrongAssignment, BannedValidator, BadSignature}
        ==> exists k :: 0 <= k < |xs| && !Endorses(hash, verify, p, slot, made, core, xs[k])
                        && Fails(hash, p, slot, made, core, xs[k], e)
                        && forall j | 0 <= j < k :: Endorses(hash, verify, p, slot, made, core, xs[j])
  {
    if Recent(slot, made) && Sorted(xs) && 2 <= |xs| {
      CheckedAgainstOwnSlot(hash, p, slot, made);
      var (cores, keys) := AssignmentFor(hash, p, slot, made);
      var k := FirstFaultIs(verify, p, cores, keys, core, xs, 0);
      assert !Endorses(hash, verify, p, slot, made, core, xs[k]);
      forall j | 0 <= j < k
        ensures Endorses(hash, verify, p, slot, made, core, xs[j])
      {
        assert CredentialFault(verify, p, cores, keys, core, xs[j]) == None;
      }
    }
  }

  method CheckCredentials(
    hash: HashFn, verify: SignatureCheck, p: Registry, slot: nat, made: nat, core: nat, xs: seq<Credential>)
    returns (fault: Option<CredentialError>)
    ensures fault == CredentialsFault(hash, verify, p, slot, made, core, xs)
    ensures fault == None <==> Endorsed(hash, verify, p, slot, made, core, xs)
  {
    EndorsedIff(hash, verify, p, slot, made, core, xs);
    if made > slot {
      return Some(FutureReportSlot);
    }
    if made < ROTATION * SatSub(slot / ROTATION, 1) {
      return Some(ReportEpochBeforeLast);
    }
    for i := 0 to |xs|
      invariant forall j, k | 0 <= j < k < i :: xs[j].validator < xs[k].validator
    {
      if i > 0 && xs[i].validator <= xs[i - 1].validator {
        return Some(NotSortedOrUniqueGuarantors);
      }
    }
    if |xs| < 2 {
      return Some(InsufficientGuarantees);
    }
    var (cores, keys) := AssignmentFor(hash, p, slot, made);
    for i := 0 to |xs|
      invariant FirstFault(verify, p, cores, keys, core, xs, 0) == FirstFault(verify, p, cores, keys, core, xs, i)
    {
      fault := CredentialFault(verify, p, cores, keys, core, xs[i]);
      if fault.Some? {
        return;
      }
    }
    return None;
  }

  lemma {:induction false} NoFault(
    verify: SignatureCheck, p: Registry, cores: seq<nat>, keys: KeySet, core: nat, xs: seq<Credential>, i: nat, k: nat)
    requires |cores| == VALIDATORS_COUNT && i <= k < |xs|
    requires FirstFault(verify, p, cores, keys, core, xs, i) == None
    ensures CredentialFault(verify, p, cores, keys, core, xs[k]) == None
    decreases k - i
  {
    if i < k {
      NoFault(verify, p, cores, keys, core, xs, i + 1, k);
    }
  }

  ghost function Signers(xs: seq<Credential>): set<nat> {
    set i | 0 <= i < |xs| :: xs[i].validator
  }

  lemma {:induction false} SignersCount(xs: seq<Credential>)
    requires Sorted(xs)
    ensures |Signers(xs)| == |xs|
    decreases |xs|
  {
    if xs != [] {
      var init, last := xs[..|xs| - 1], xs[|xs| - 1];
      SignersCount(init);
      forall v
        ensures v in Signers(xs) <==> v in Signers(init) || v == last.validator
      {
        if v in Signers(init) {
          var i :| 0 <= i < |init| && init[i].validator == v;
          assert xs[i].validator == v;
        }
      }
      assert Signers(xs) == Signers(init) + {last.validator};
    }
  }

  /**
   * An accepted guarantee carries two or three credentials, although only the lower bound is checked,
   * all of validators that the assignment in force when it was made puts on its core.
   */
  lemma TwoOrThreeCredentials(
    hash: HashFn, verify: SignatureCheck, p: Registry, slot: nat, made: nat, core: nat, xs: seq<Credential>)
    requires CredentialsFault(hash, verify, p, slot, made, core, xs) == None
    ensures 2 <= |xs| <= 3
    ensures Signers(xs) <= Members(InForce(hash, p, slot, made).0, core)
  {
    CheckedAgainstOwnSlot(hash, p, slot, made);
    var (cores, keys) := AssignmentFor(hash, p, slot, made);
    forall v | v in Signers(xs)
      ensures v in Members(cores, core)
    {
      var i :| 0 <= i < |xs| && xs[i].validator == v;
      NoFault(verify, p, cores, keys, core, xs, 0, i);
    }
    NoFault(verify, p, cores, keys, core, xs, 0, 0);
    SignersCount(xs);
    SubsetSize(Signers(xs), Members(cores, core));
    if made / EPOCH == slot / EPOCH {
      ThreePerCore(hash, |p.current|, p.eta2, made, core);
    } else {
      ThreePerCore(hash, |p.previous|, p.eta3, made, core);
    }
  }
}
