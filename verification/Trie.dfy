/**
 * The state Merkle trie: a binary trie over 32-byte keys whose every node encodes to 64 bytes and is
 * hashed. The hash function is a parameter.
 */
module Trie {
  import opened Base

  type Key = k: bytes | |k| == 32 witness seq(32, _ => 0)

  datatype Entry = Entry(key: Key, value: bytes)

  const KEY_BITS: nat := 256
  const STATE_KEY_BITS: nat := 248
  type BitIndex = i: nat | i < KEY_BITS
  type Depth = d: nat | d <= KEY_BITS
  type Path = p: seq<bool> | |p| <= KEY_BITS witness []

  // ------------------------------------------------------------ keys and nodes

  /** Bit `i` of a key, most significant first within each byte. */
  function Bit(k: Key, i: BitIndex): bool {
    ByteBit(k[i / 8], i % 8)
  }

  /** The top bit of a byte after `j` shifts to the left. */
  predicate ByteBit(b: byte, j: nat)
    requires j < 8
    decreases j
  {
    if j == 0 then b >= 128 else ByteBit(ShiftLeft(b), j - 1)
  }

  function ShiftLeft(b: byte): byte {
    var v: int := b;
    if v >= 128 then 2 * v - 256 else 2 * v
  }

  /** Bit `j` is the one under the mask `1 << (7 - j)`. */
  lemma {:induction false} ByteBitMask(b: byte, j: nat)
    requires j < 8
    ensures var v: int := b; ByteBit(b, j) <==> v / Pow2(7 - j) % 2 == 1
    decreases j
  {
    if j == 0 {
      assert Pow2(7) == 128;
    } else {
      ByteBitMask(ShiftLeft(b), j - 1);
      MaskShifts(b, 7 - j);
    }
  }

  lemma MaskShifts(b: byte, m: nat)
    requires m < 7
    ensures var v: int, w: int := b, ShiftLeft(b); v / Pow2(m) % 2 == w / Pow2(m + 1) % 2
  {
    PowersTo64(m);
    ShiftQuotient(b, Pow2(m), Pow2(6 - m));
  }

  lemma ShiftQuotient(v: nat, p: nat, e: nat)
    requires p > 0 && p * e == 64
    ensures (2 * v) / (2 * p) == v / p && (2 * v - 256) / (2 * p) == v / p - 2 * e
  {
    var d, low, q := v / p, v % p, 2 * p;
    SplitAt(v, p);
    Scaled(d, e, p);
    QuotientUnique(2 * v, q, d, 2 * low);
    QuotientUnique(2 * v - 256, q, d - 2 * e, 2 * low);
  }

  lemma Scaled(d: int, e: int, p: int)
    ensures d * (2 * p) == 2 * (d * p) && (d - 2 * e) * (2 * p) == 2 * (d * p) - 4 * (p * e)
  {
  }

  lemma {:induction false} PowersTo64(m: nat)
    requires m <= 6
    ensures Pow2(m) * Pow2(6 - m) == 64
    decreases m
  {
    if m == 0 {
      assert Pow2(6) == 64;
    } else {
      PowersTo64(m - 1);
      assert Pow2(m) * Pow2(6 - m) == Pow2(m - 1) * (2 * Pow2(6 - m));
    }
  }

  function Zeros(n: nat): (r: bytes)
    ensures |r| == n && forall i | 0 <= i < n :: r[i] == 0
  {
    seq(n, _ => 0)
  }

  /** A state key as a trie key: zeros are appended up to 32 bytes. */
  function StateKey(b: bytes): Key
    requires |b| <= 32
  {
    b + Zeros(32 - |b|)
  }

  function Leaf(hash: HashFn, k: Key, v: bytes): (r: bytes)
    ensures |r| == 64
  {
    if |v| <= 32 then [128 + |v|] + k[..31] + (v + Zeros(32 - |v|))
    else [192] + k[..31] + hash(v)
  }

  /** Clears the top bit. */
  function Masked(d: Digest): Digest {
    [d[0] % 128] + d[1..]
  }

  function Branch(left: Digest, right: Digest): (r: bytes)
    ensures |r| == 64
  {
    Masked(left) + right
  }

  method Copy(node: array<byte>, at: nat, data: bytes)
    requires at + |data| <= node.Length
    modifies node
    ensures node[..] == old(node[..at]) + data + old(node[at + |data|..])
  {
    forall i | 0 <= i < |data| {
      node[at + i] := data[i];
    }
  }

  method LeafNode(hash: HashFn, k: Key, v: bytes) returns (node: array<byte>)
    ensures node[..] == Leaf(hash, k, v)
  {
    node := new byte[64](_ => 0);
    Copy(node, 1, k[..31]);
    node[0] := if |v| <= 32 then 128 + |v| else 192;
    ghost var head := [node[0]] + k[..31];
    assert node[..] == head + Zeros(32);
    if |v| <= 32 {
      Copy(node, 32, v);
    } else {
      Copy(node, 32, hash(v));
    }
  }

  method BranchNode(left: Digest, right: Digest) returns (node: array<byte>)
    ensures node[..] == Branch(left, right)
  {
    node := new byte[64](_ => 0);
    node[0] := left[0] % 128;
    Copy(node, 1, left[1..]);
    Copy(node, 32, right);
    assert node[..] == Branch(left, right);
  }

  // ------------------------------------------------------------ the trie of a list

  /** The entries whose key has this bit, in order. */
  function Side(kvs: seq<Entry>, depth: BitIndex, one: bool): seq<Entry> {
    if kvs == [] then []
    else
      var last := kvs[|kvs| - 1];
      Side(kvs[..|kvs| - 1], depth, one) + if Bit(last.key, depth) == one then [last] else []
  }

  /** The root of a list of entries; nothing when two of them agree on every bit up to the limit. */
  function Merkle(hash: HashFn, kvs: seq<Entry>, depth: nat, limit: nat): Option<Digest>
    requires depth <= limit <= KEY_BITS
    decreases limit - depth
  {
    if |kvs| == 0 then Some(ZERO)
    else if |kvs| == 1 then Some(hash(Leaf(hash, kvs[0].key, kvs[0].value)))
    else if depth == limit then None
    else
      Merge(hash, Merkle(hash, Side(kvs, depth, false), depth + 1, limit),
            Merkle(hash, Side(kvs, depth, true), depth + 1, limit))
  }

  function Merge(hash: HashFn, left: Option<Digest>, right: Option<Digest>): Option<Digest> {
    if left.None? || right.None? then None else Some(hash(Branch(left.value, right.value)))
  }

  function StateRoot(hash: HashFn, kvs: seq<Entry>): Option<Digest> {
    Merkle(hash, kvs, 0, KEY_BITS)
  }

  method Partition(kvs: seq<Entry>, depth: BitIndex) returns (left: seq<Entry>, right: seq<Entry>)
    ensures left == Side(kvs, depth, false) && right == Side(kvs, depth, true)
  {
    left, right := [], [];
    for i := 0 to |kvs|
      invariant left == Side(kvs[..i], depth, false) && right == Side(kvs[..i], depth, true)
    {
      assert kvs[..i + 1][..i] == kvs[..i];
      if Bit(kvs[i].key, depth) {
        right := right + [kvs[i]];
      } else {
        left := left + [kvs[i]];
      }
    }
    assert kvs[..|kvs|] == kvs;
  }

  method HashLeaf(hash: HashFn, e: Entry) returns (root: Option<Digest>)
    ensures root == Some(hash(Leaf(hash, e.key, e.value)))
  {
    var node := LeafNode(hash, e.key, e.value);
    return Some(hash(node[..]));
  }

  method HashBranch(hash: HashFn, left: Option<Digest>, right: Option<Digest>) returns (root: Option<Digest>)
    ensures root == Merge(hash, left, right)
  {
    if left.None? || right.None? {
      return None;
    }
    var node := BranchNode(left.value, right.value);
    return Some(hash(node[..]));
  }

  lemma MerkleFork(hash: HashFn, kvs: seq<Entry>, depth: BitIndex)
    requires |kvs| > 1
    ensures Merkle(hash, kvs, depth, KEY_BITS)
         == Merge(hash, Merkle(hash, Side(kvs, depth, false), depth + 1, KEY_BITS),
                  Merkle(hash, Side(kvs, depth, true), depth + 1, KEY_BITS))
  {
  }

  method Merklize(hash: HashFn, kvs: seq<Entry>, depth: Depth) returns (root: Option<Digest>)
    ensures root == Merkle(hash, kvs, depth, KEY_BITS)
    decreases KEY_BITS - depth
  {
    if |kvs| == 0 {
      return Some(ZERO);
    }
    if |kvs| == 1 {
      root := HashLeaf(hash, kvs[0]);
      return;
    }
    if depth == KEY_BITS {
      return None;
    }
    var left, right := Partition(kvs, depth);
    var l := Merklize(hash, left, depth + 1);
    var r := Merklize(hash, right, depth + 1);
    MerkleFork(hash, kvs, depth);
    root := HashBranch(hash, l, r);
  }

  // ------------------------------------------------------------ the trie of a dictionary

  function ToMap(kvs: seq<Entry>): map<Key, bytes> {
    if kvs == [] then map[] else ToMap(kvs[..|kvs| - 1])[kvs[|kvs| - 1].key := kvs[|kvs| - 1].value]
  }

  ghost function Part(m: map<Key, bytes>, depth: BitIndex, one: bool): map<Key, bytes> {
    map k | k in m && Bit(k, depth) == one :: m[k]
  }

  ghost function OnlyKey(m: map<Key, bytes>): (k: Key)
    requires |m| == 1
    ensures k in m && m == map[k := m[k]]
  {
    var k :| k in m;
    OneKey(m, k);
    k
  }

  lemma OneKey(m: map<Key, bytes>, k: Key)
    requires |m| == 1 && k in m
    ensures m == map[k := m[k]]
  {
    assert |m.Keys - {k}| == 0;
    assert forall j :: j in m ==> j == k by {
      forall j | j in m
        ensures j == k
      {
        assert j !in m.Keys - {k};
      }
    }
  }

  datatype Tree = Nil | Single(key: Key, value: bytes) | Fork(left: Tree, right: Tree)

  /** The shape of the trie, as a function of the dictionary alone. */
  ghost function TreeOf(m: map<Key, bytes>, depth: Depth): Tree
    decreases KEY_BITS - depth
  {
    if |m| == 0 then Nil
    else if |m| == 1 then Single(OnlyKey(m), m[OnlyKey(m)])
    else if depth == KEY_BITS then Nil
    else Fork(TreeOf(Part(m, depth, false), depth + 1), TreeOf(Part(m, depth, true), depth + 1))
  }

  function Root(hash: HashFn, t: Tree): Digest {
    match t
    case Nil => ZERO
    case Single(k, v) => hash(Leaf(hash, k, v))
    case Fork(l, r) => hash(Branch(Root(hash, l), Root(hash, r)))
  }

  ghost predicate DistinctKeys(kvs: seq<Entry>) {
    forall i, j | 0 <= i < j < |kvs| :: kvs[i].key != kvs[j].key
  }

  /** A key begins with the bits of a path. */
  ghost predicate Follows(k: Key, path: Path) {
    forall b | 0 <= b < |path| :: Bit(k, b) == path[b]
  }

  ghost predicate OnPath(kvs: seq<Entry>, path: Path) {
    forall i | 0 <= i < |kvs| :: Follows(kvs[i].key, path)
  }

  lemma FollowsOn(k: Key, path: seq<bool>, one: bool)
    requires |path| < KEY_BITS
    ensures Follows(k, path + [one]) <==> Follows(k, path) && Bit(k, |path|) == one
  {
    var longer := path + [one];
    if Follows(k, longer) {
      forall b | 0 <= b < |path|
        ensures Bit(k, b) == path[b]
      {
        assert longer[b] == path[b];
      }
      assert longer[|path|] == one;
    }
  }

  lemma FollowsSame(k: Key, l: Key, path: Path)
    requires Follows(k, path) && Follows(l, path)
    ensures !Differ(k, l, |path|)
  {
  }

  ghost predicate Differ(k: Key, l: Key, limit: Depth) {
    exists b :: 0 <= b < limit && Bit(k, b) != Bit(l, b)
  }

  lemma {:induction false} ToMapKeys(kvs: seq<Entry>, k: Key)
    ensures k in ToMap(kvs) <==> exists i :: 0 <= i < |kvs| && kvs[i].key == k
    decreases |kvs|
  {
    if kvs != [] {
      var init := kvs[..|kvs| - 1];
      ToMapKeys(init, k);
      if k in ToMap(init) {
        var i :| 0 <= i < |init| && init[i].key == k;
        assert kvs[i].key == k;
      }
    }
  }

  lemma {:induction false} ToMapSize(kvs: seq<Entry>)
    requires DistinctKeys(kvs)
    ensures |ToMap(kvs)| == |kvs|
    decreases |kvs|
  {
    if kvs != [] {
      var init, last := kvs[..|kvs| - 1], kvs[|kvs| - 1];
      ToMapSize(init);
      ToMapKeys(init, last.key);
      assert ToMap(kvs).Keys == ToMap(init).Keys + {last.key};
    }
  }

  lemma PartUpdate(m: map<Key, bytes>, k: Key, v: bytes, depth: BitIndex, one: bool)
    ensures Part(m[k := v], depth, one)
         == if Bit(k, depth) == one then Part(m, depth, one)[k := v] else Part(m, depth, one)
  {
  }

  lemma ToMapAppend(kvs: seq<Entry>, e: Entry)
    ensures ToMap(kvs + [e]) == ToMap(kvs)[e.key := e.value]
  {
    assert (kvs + [e])[..|kvs|] == kvs;
  }

  lemma {:induction false} SideMap(kvs: seq<Entry>, depth: BitIndex, one: bool)
    ensures ToMap(Side(kvs, depth, one)) == Part(ToMap(kvs), depth, one)
    decreases |kvs|
  {
    if kvs != [] {
      var init, last := kvs[..|kvs| - 1], kvs[|kvs| - 1];
      var side := Side(init, depth, one);
      SideMap(init, depth, one);
      PartUpdate(ToMap(init), last.key, last.value, depth, one);
      ToMapAppend(side, last);
      assert side + [] == side;
    }
  }

  lemma {:induction false} SideFrom(kvs: seq<Entry>, depth: BitIndex, one: bool, i: nat) returns (j: nat)
    requires i < |Side(kvs, depth, one)|
    ensures i <= j < |kvs| && kvs[j] == Side(kvs, depth, one)[i] && Bit(kvs[j].key, depth) == one
    decreases |kvs|
  {
    var init := kvs[..|kvs| - 1];
    if i < |Side(init, depth, one)| {
      j := SideFrom(init, depth, one, i);
    } else {
      j := |kvs| - 1;
      SideSize(init, depth, one);
    }
  }

  lemma {:induction false} SideSize(kvs: seq<Entry>, depth: BitIndex, one: bool)
    ensures |Side(kvs, depth, one)| <= |kvs|
    decreases |kvs|
  {
    if kvs != [] {
      SideSize(kvs[..|kvs| - 1], depth, one);
    }
  }

  lemma {:induction false} SideDistinct(kvs: seq<Entry>, depth: BitIndex, one: bool)
    requires DistinctKeys(kvs)
    ensures DistinctKeys(Side(kvs, depth, one))
    decreases |kvs|
  {
    if kvs != [] {
      var init, last := kvs[..|kvs| - 1], kvs[|kvs| - 1];
      SideDistinct(init, depth, one);
      var side := Side(init, depth, one);
      forall i | 0 <= i < |side|
        ensures side[i].key != last.key
      {
        var j := SideFrom(init, depth, one, i);
        assert init[j] == kvs[j];
      }
    }
  }

  lemma SideOnPath(kvs: seq<Entry>, path: seq<bool>, one: bool)
    requires |path| < KEY_BITS && OnPath(kvs, path)
    ensures OnPath(Side(kvs, |path|, one), path + [one])
  {
    var side := Side(kvs, |path|, one);
    forall i | 0 <= i < |side|
      ensures Follows(side[i].key, path + [one])
    {
      var j := SideFrom(kvs, |path|, one, i);
      FollowsOn(kvs[j].key, path, one);
    }
  }

  lemma HalfStep(v: nat, p: nat)
    requires p > 0
    ensures v / p == 2 * (v / (2 * p)) + v / p % 2
  {
    var d, low := v / p, v % p;
    var hi, e := d / 2, d % 2;
    SplitAt(v, p);
    assert (2 * hi + e) * p == hi * (2 * p) + e * p;
    assert 0 <= e * p <= p;
    var w, r := 2 * p, e * p + low;
    QuotientUnique(v, w, hi, r);
  }

  lemma QuotientStep(b: byte, n: nat)
    requires 0 < n <= 8
    ensures var x: int := b; x / Pow2(8 - n) == 2 * (x / Pow2(9 - n)) + if ByteBit(b, n - 1) then 1 else 0
  {
    HalfStep(b, Pow2(8 - n));
    ByteBitMask(b, n - 1);
  }

  /** The top `n` bits of a byte fix its quotient. */
  lemma {:induction false} BitsMakeQuotient(b: byte, c: byte, n: nat)
    requires n <= 8 && forall j | 0 <= j < n :: ByteBit(b, j) == ByteBit(c, j)
    ensures var x: int, y: int := b, c; x / Pow2(8 - n) == y / Pow2(8 - n)
    decreases n
  {
    if n == 0 {
      assert Pow2(8) == 256;
    } else {
      BitsMakeQuotient(b, c, n - 1);
      QuotientStep(b, n);
      QuotientStep(c, n);
      assert ByteBit(b, n - 1) == ByteBit(c, n - 1);
    }
  }

  lemma BitsMakeByte(b: byte, c: byte)
    requires forall j | 0 <= j < 8 :: ByteBit(b, j) == ByteBit(c, j)
    ensures b == c
  {
    BitsMakeQuotient(b, c, 8);
  }

  /** Keys with the same bits in their first `n` bytes have the same first `n` bytes. */
  lemma BitsMakeKey(k: Key, l: Key, n: nat)
    requires n <= 32 && forall b | 0 <= b < 8 * n :: Bit(k, b) == Bit(l, b)
    ensures k[..n] == l[..n]
  {
    forall i | 0 <= i < n
      ensures k[i] == l[i]
    {
      forall j | 0 <= j < 8
        ensures ByteBit(k[i], j) == ByteBit(l[i], j)
      {
        assert Bit(k, 8 * i + j) == Bit(l, 8 * i + j);
      }
      BitsMakeByte(k[i], l[i]);
    }
  }

  // ------------------------------------------------------------ when there is a root

  /** No two entries share all bits below the limit. */
  ghost predicate Separated(kvs: seq<Entry>, limit: Depth) {
    forall i, j | 0 <= i < j < |kvs| :: Differ(kvs[i].key, kvs[j].key, limit)
  }

  lemma {:induction false} SideSeparated(kvs: seq<Entry>, depth: nat, one: bool, limit: nat)
    requires depth < limit <= KEY_BITS && Separated(kvs, limit)
    ensures Separated(Side(kvs, depth, one), limit)
    decreases |kvs|
  {
    if kvs != [] {
      var init, last := kvs[..|kvs| - 1], kvs[|kvs| - 1];
      SideSeparated(init, depth, one, limit);
      var side := Side(init, depth, one);
      forall i | 0 <= i < |side|
        ensures Differ(side[i].key, last.key, limit)
      {
        var j := SideFrom(init, depth, one, i);
        assert Differ(kvs[j].key, kvs[|kvs| - 1].key, limit);
      }
    }
  }

  lemma {:induction false} SideHas(kvs: seq<Entry>, depth: BitIndex, i: nat) returns (p: nat)
    requires i < |kvs|
    ensures p < |Side(kvs, depth, Bit(kvs[i].key, depth))| && Side(kvs, depth, Bit(kvs[i].key, depth))[p] == kvs[i]
    decreases |kvs|
  {
    var init := kvs[..|kvs| - 1];
    if i < |init| {
      p := SideHas(init, depth, i);
    } else {
      p := |Side(init, depth, Bit(kvs[i].key, depth))|;
    }
  }

  lemma {:induction false} SidesSeparate(kvs: seq<Entry>, depth: nat, limit: nat)
    requires depth < limit <= KEY_BITS
    requires Separated(Side(kvs, depth, false), limit) && Separated(Side(kvs, depth, true), limit)
    ensures Separated(kvs, limit)
    decreases |kvs|
  {
    if kvs != [] {
      var init, last := kvs[..|kvs| - 1], kvs[|kvs| - 1];
      PrefixSeparated(Side(init, depth, false), Side(kvs, depth, false), limit);
      PrefixSeparated(Side(init, depth, true), Side(kvs, depth, true), limit);
      SidesSeparate(init, depth, limit);
      forall i | 0 <= i < |init|
        ensures Differ(kvs[i].key, last.key, limit)
      {
        LastDiffers(kvs, depth, limit, i);
      }
    }
  }

  lemma PrefixSeparated(a: seq<Entry>, b: seq<Entry>, limit: Depth)
    requires a <= b && Separated(b, limit)
    ensures Separated(a, limit)
  {
    forall i, j | 0 <= i < j < |a|
      ensures Differ(a[i].key, a[j].key, limit)
    {
      assert a[i] == b[i] && a[j] == b[j];
    }
  }

  lemma LastDiffers(kvs: seq<Entry>, depth: nat, limit: nat, i: nat)
    requires depth < limit <= KEY_BITS && i < |kvs| - 1
    requires Separated(Side(kvs, depth, false), limit) && Separated(Side(kvs, depth, true), limit)
    ensures Differ(kvs[i].key, kvs[|kvs| - 1].key, limit)
  {
    var init, last := kvs[..|kvs| - 1], kvs[|kvs| - 1];
    var one := Bit(last.key, depth);
    if Bit(kvs[i].key, depth) == one {
      var p := SideHas(init, depth, i);
      var side := Side(kvs, depth, one);
      assert side == Side(init, depth, one) + [last];
      assert side[p] == kvs[i] && side[|side| - 1] == last;
      assert Differ(side[p].key, side[|side| - 1].key, limit);
    }
  }

  lemma TwoOnPath(kvs: seq<Entry>, path: Path)
    requires |kvs| > 1 && OnPath(kvs, path)
    ensures !Separated(kvs, |path|)
  {
    FollowsSame(kvs[0].key, kvs[1].key, path);
  }

  /** Keys that differ within the limit are told apart before it. */
  lemma {:induction false} SeparatedHasRoot(hash: HashFn, kvs: seq<Entry>, path: seq<bool>, limit: nat)
    requires |path| <= limit <= KEY_BITS && OnPath(kvs, path) && Separated(kvs, limit)
    ensures Merkle(hash, kvs, |path|, limit).Some?
    decreases limit - |path|
  {
    if |kvs| > 1 {
      if |path| == limit {
        TwoOnPath(kvs, path);
      } else {
        SideHasRoot(hash, kvs, path, limit, false);
        SideHasRoot(hash, kvs, path, limit, true);
      }
    }
  }

  lemma {:induction false} SideHasRoot(hash: HashFn, kvs: seq<Entry>, path: seq<bool>, limit: nat, one: bool)
    requires |path| < limit <= KEY_BITS && OnPath(kvs, path) && Separated(kvs, limit)
    ensures Merkle(hash, Side(kvs, |path|, one), |path| + 1, limit).Some?
    decreases limit - |path|, 0
  {
    var side, longer := Side(kvs, |path|, one), path + [one];
    SideOnPath(kvs, path, one);
    SideSeparated(kvs, |path|, one, limit);
    assert |longer| == |path| + 1;
    SeparatedHasRoot(hash, side, longer, limit);
  }

  /** A root exists only if the keys differ within the limit. */
  lemma {:induction false} RootSeparates(hash: HashFn, kvs: seq<Entry>, depth: nat, limit: nat)
    requires depth <= limit <= KEY_BITS && Merkle(hash, kvs, depth, limit).Some?
    ensures Separated(kvs, limit)
    decreases limit - depth
  {
    if |kvs| > 1 {
      SideRootSeparates(hash, kvs, depth, limit, false);
      SideRootSeparates(hash, kvs, depth, limit, true);
      SidesSeparate(kvs, depth, limit);
    }
  }

  lemma {:induction false} SideRootSeparates(hash: HashFn, kvs: seq<Entry>, depth: nat, limit: nat, one: bool)
    requires depth <= limit <= KEY_BITS && |kvs| > 1 && Merkle(hash, kvs, depth, limit).Some?
    ensures depth < limit && Separated(Side(kvs, depth, one), limit)
    decreases limit - depth, 0
  {
    RootSeparates(hash, Side(kvs, depth, one), depth + 1, limit);
  }

  /** Once defined, a higher limit changes nothing. */
  lemma {:induction false} MerkleLimit(hash: HashFn, kvs: seq<Entry>, depth: nat, low: nat, high: nat)
    requires depth <= low <= high <= KEY_BITS && Merkle(hash, kvs, depth, low).Some?
    ensures Merkle(hash, kvs, depth, high) == Merkle(hash, kvs, depth, low)
    decreases low - depth
  {
    if |kvs| > 1 {
      SideLimit(hash, kvs, depth, low, high, false);
      SideLimit(hash, kvs, depth, low, high, true);
    }
  }

  lemma {:induction false} SideLimit(hash: HashFn, kvs: seq<Entry>, depth: nat, low: nat, high: nat, one: bool)
    requires depth < low <= high <= KEY_BITS && Merkle(hash, Side(kvs, depth, one), depth + 1, low).Some?
    ensures Merkle(hash, Side(kvs, depth, one), depth + 1, high) == Merkle(hash, Side(kvs, depth, one), depth + 1, low)
    decreases low - depth, 0
  {
    MerkleLimit(hash, Side(kvs, depth, one), depth + 1, low, high);
  }

  lemma DifferMeaning(k: Key, l: Key, n: nat)
    requires n <= 32
    ensures Differ(k, l, 8 * n) <==> k[..n] != l[..n]
  {
    if !Differ(k, l, 8 * n) {
      BitsMakeKey(k, l, n);
    } else {
      var b :| 0 <= b < 8 * n && Bit(k, b) != Bit(l, b);
      assert k[..n][b / 8] == k[b / 8] && l[..n][b / 8] == l[b / 8];
    }
  }

  /** A root exists exactly when the keys are distinct. */
  lemma RootDefinedIff(hash: HashFn, kvs: seq<Entry>)
    ensures StateRoot(hash, kvs).Some? <==> DistinctKeys(kvs)
  {
    forall i, j | 0 <= i < j < |kvs|
      ensures Differ(kvs[i].key, kvs[j].key, KEY_BITS) <==> kvs[i].key != kvs[j].key
    {
      DifferMeaning(kvs[i].key, kvs[j].key, 32);
      assert kvs[i].key[..32] == kvs[i].key && kvs[j].key[..32] == kvs[j].key;
    }
    if StateRoot(hash, kvs).Some? {
      RootSeparates(hash, kvs, 0, KEY_BITS);
    }
    if DistinctKeys(kvs) {
      SeparatedHasRoot(hash, kvs, [], KEY_BITS);
    }
  }

  /** Every key is a 31-byte state key with a zero appended. */
  predicate StateKeys(kvs: seq<Entry>) {
    forall i | 0 <= i < |kvs| :: kvs[i].key[31] == 0
  }

  /** Distinct state keys are told apart within their 248 bits, so no deeper bit is ever looked at. */
  lemma StateBitsSuffice(hash: HashFn, kvs: seq<Entry>)
    requires StateKeys(kvs) && DistinctKeys(kvs)
    ensures Merkle(hash, kvs, 0, STATE_KEY_BITS) == StateRoot(hash, kvs) && StateRoot(hash, kvs).Some?
  {
    forall i, j | 0 <= i < j < |kvs|
      ensures Differ(kvs[i].key, kvs[j].key, STATE_KEY_BITS)
    {
      StateKeyFromBytes(kvs[i].key, kvs[j].key);
      DifferMeaning(kvs[i].key, kvs[j].key, 31);
    }
    SeparatedHasRoot(hash, kvs, [], STATE_KEY_BITS);
    MerkleLimit(hash, kvs, 0, STATE_KEY_BITS, KEY_BITS);
  }

  lemma StateKeyFromBytes(k: Key, l: Key)
    requires k[31] == 0 == l[31]
    ensures k == l <==> k[..31] == l[..31]
  {
    assert k == k[..31] + [k[31]] && l == l[..31] + [l[31]];
  }

  // ------------------------------------------------------------ order does not matter

  /** The root of distinct entries is the root of their dictionary's tree. */
  lemma {:induction false} MerkleIsRoot(hash: HashFn, kvs: seq<Entry>, depth: Depth)
    requires DistinctKeys(kvs) && Merkle(hash, kvs, depth, KEY_BITS).Some?
    ensures Merkle(hash, kvs, depth, KEY_BITS) == Some(Root(hash, TreeOf(ToMap(kvs), depth)))
    decreases KEY_BITS - depth
  {
    ToMapSize(kvs);
    if |kvs| == 1 {
      SingleTree(kvs, depth);
    } else if |kvs| > 1 {
      SideIsRoot(hash, kvs, depth, false);
      SideIsRoot(hash, kvs, depth, true);
      ForkTree(hash, ToMap(kvs), depth);
    }
  }

  lemma ForkTree(hash: HashFn, m: map<Key, bytes>, depth: BitIndex)
    requires |m| > 1
    ensures Root(hash, TreeOf(m, depth))
         == hash(Branch(Root(hash, TreeOf(Part(m, depth, false), depth + 1)),
                        Root(hash, TreeOf(Part(m, depth, true), depth + 1))))
  {
  }

  lemma {:induction false} SideIsRoot(hash: HashFn, kvs: seq<Entry>, depth: BitIndex, one: bool)
    requires DistinctKeys(kvs) && Merkle(hash, Side(kvs, depth, one), depth + 1, KEY_BITS).Some?
    ensures Merkle(hash, Side(kvs, depth, one), depth + 1, KEY_BITS)
         == Some(Root(hash, TreeOf(Part(ToMap(kvs), depth, one), depth + 1)))
    decreases KEY_BITS - depth, 0
  {
    SideMap(kvs, depth, one);
    SideDistinct(kvs, depth, one);
    MerkleIsRoot(hash, Side(kvs, depth, one), depth + 1);
  }

  lemma SingleTree(kvs: seq<Entry>, depth: Depth)
    requires |kvs| == 1
    ensures TreeOf(ToMap(kvs), depth) == Single(kvs[0].key, kvs[0].value)
  {
    assert kvs[..0] == [];
    assert ToMap(kvs) == map[kvs[0].key := kvs[0].value];
    assert OnlyKey(ToMap(kvs)) in ToMap(kvs);
  }

  lemma {:induction false} ToMapEntries(kvs: seq<Entry>, e: Entry)
    requires DistinctKeys(kvs)
    ensures e in kvs <==> e.key in ToMap(kvs) && ToMap(kvs)[e.key] == e.value
    decreases |kvs|
  {
    if kvs != [] {
      var init, last := kvs[..|kvs| - 1], kvs[|kvs| - 1];
      ToMapEntries(init, e);
      ToMapKeys(init, last.key);
      assert kvs == init + [last];
    }
  }

  lemma SizeStep(m: map<Key, bytes>, k: Key, v: bytes)
    ensures |m[k := v]| == |m| + if k in m then 0 else 1
  {
    assert m[k := v].Keys == m.Keys + {k};
    assert |m[k := v].Keys| == |m[k := v]| && |m.Keys| == |m|;
    if k in m {
      assert m.Keys + {k} == m.Keys;
    }
  }

  lemma {:induction false} SizeDistinct(kvs: seq<Entry>)
    ensures |ToMap(kvs)| <= |kvs|
    ensures |ToMap(kvs)| == |kvs| ==> DistinctKeys(kvs)
    decreases |kvs|
  {
    if kvs != [] {
      var init, last := kvs[..|kvs| - 1], kvs[|kvs| - 1];
      SizeDistinct(init);
      SizeStep(ToMap(init), last.key, last.value);
      if last.key !in ToMap(init) {
        forall i | 0 <= i < |init|
          ensures kvs[i].key != last.key
        {
          ToMapKeys(init, kvs[i].key);
        }
      }
    }
  }

  lemma SameEntriesKeys(a: seq<Entry>, b: seq<Entry>)
    requires multiset(a) == multiset(b)
    ensures ToMap(a).Keys == ToMap(b).Keys && |a| == |b|
  {
    forall k
      ensures k in ToMap(a) <==> k in ToMap(b)
    {
      KeyCarriesOver(a, b, k);
      KeyCarriesOver(b, a, k);
    }
    assert |multiset(a)| == |a| && |multiset(b)| == |b|;
  }

  lemma KeyCarriesOver(a: seq<Entry>, b: seq<Entry>, k: Key)
    requires multiset(a) == multiset(b)
    ensures k in ToMap(a) ==> k in ToMap(b)
  {
    ToMapKeys(a, k);
    ToMapKeys(b, k);
    if k in ToMap(a) {
      var i :| 0 <= i < |a| && a[i].key == k;
      assert a[i] in multiset(b);
      var j :| 0 <= j < |b| && b[j] == a[i];
    }
  }

  /** The root is the same for every ordering of the entries, defined or not. */
  lemma RootIgnoresOrder(hash: HashFn, a: seq<Entry>, b: seq<Entry>)
    requires multiset(a) == multiset(b)
    ensures StateRoot(hash, a) == StateRoot(hash, b)
  {
    SameEntriesKeys(a, b);
    RootDefinedIff(hash, a);
    RootDefinedIff(hash, b);
    if DistinctKeys(a) {
      ToMapSize(a);
      SizeDistinct(b);
      SameDictionary(a, b);
      MerkleIsRoot(hash, a, 0);
      MerkleIsRoot(hash, b, 0);
    } else if DistinctKeys(b) {
      ToMapSize(b);
      SizeDistinct(a);
    }
  }

  lemma SameDictionary(a: seq<Entry>, b: seq<Entry>)
    requires multiset(a) == multiset(b) && DistinctKeys(a) && DistinctKeys(b)
    ensures ToMap(a) == ToMap(b)
  {
    SameEntriesKeys(a, b);
    forall k | k in ToMap(a)
      ensures ToMap(a)[k] == ToMap(b)[k]
    {
      var e := Entry(k, ToMap(a)[k]);
      ToMapEntries(a, e);
      ToMapEntries(b, e);
      assert e in multiset(b);
    }
  }

  // ------------------------------------------------------------ the root binds the dictionary

  ghost predicate MapOnPath(m: map<Key, bytes>, path: Path) {
    forall k | k in m :: Follows(k, path)
  }

  lemma OneAtEnd(m: map<Key, bytes>, path: seq<bool>)
    requires |path| == KEY_BITS && MapOnPath(m, path)
    ensures |m| <= 1
  {
    if |m| > 1 {
      var k :| k in m;
      forall l | l in m
        ensures l == k
      {
        FollowsSame(k, l, path);
        DifferMeaning(k, l, 32);
        assert k[..32] == k && l[..32] == l;
      }
      SubsetSize(m.Keys, {k});
    }
  }

  function Contents(t: Tree): map<Key, bytes> {
    match t
    case Nil => map[]
    case Single(k, v) => map[k := v]
    case Fork(l, r) => Contents(l) + Contents(r)
  }

  lemma PartOnPath(m: map<Key, bytes>, path: seq<bool>, one: bool)
    requires |path| < KEY_BITS && MapOnPath(m, path)
    ensures MapOnPath(Part(m, |path|, one), path + [one])
  {
    forall k | k in Part(m, |path|, one)
      ensures Follows(k, path + [one])
    {
      FollowsOn(k, path, one);
    }
  }

  lemma PartsJoin(m: map<Key, bytes>, depth: BitIndex)
    ensures Part(m, depth, false) + Part(m, depth, true) == m
  {
  }

  /** The tree keeps the whole dictionary. */
  lemma {:induction false} TreeKeepsAll(m: map<Key, bytes>, path: Path)
    requires MapOnPath(m, path)
    ensures Contents(TreeOf(m, |path|)) == m
    decreases KEY_BITS - |path|
  {
    if |m| <= 1 {
      assert |m| == 0 ==> m == map[];
    } else if |path| == KEY_BITS {
      OneAtEnd(m, path);
    } else {
      PartOnPath(m, path, false);
      PartOnPath(m, path, true);
      TreeKeepsAll(Part(m, |path|, false), path + [false]);
      TreeKeepsAll(Part(m, |path|, true), path + [true]);
      PartsJoin(m, |path|);
    }
  }

  /** What is hashed at the top of a tree that is not empty. */
  function TopNode(hash: HashFn, t: Tree): bytes
    requires !t.Nil?
  {
    match t
    case Single(k, v) => Leaf(hash, k, v)
    case Fork(l, r) => Branch(Root(hash, l), Root(hash, r))
  }

  /** Every node hashed for a tree. */
  function Nodes(hash: HashFn, t: Tree): set<bytes> {
    match t
    case Nil => {}
    case Single(_, _) => {TopNode(hash, t)}
    case Fork(l, r) => {TopNode(hash, t)} + Nodes(hash, l) + Nodes(hash, r)
  }

  /** The values stored by their hash. */
  function LongValues(t: Tree): set<bytes> {
    match t
    case Nil => {}
    case Single(_, v) => if |v| > 32 then {v} else {}
    case Fork(l, r) => LongValues(l) + LongValues(r)
  }

  predicate StateTree(t: Tree) {
    match t
    case Nil => true
    case Single(k, _) => k[31] == 0
    case Fork(l, r) => StateTree(l) && StateTree(r)
  }

  /**
   * Idealised hashing: no collisions among these nodes even without the top bit, none that hits the
   * empty root, and none among these values.
   */
  ghost predicate Ideal(hash: HashFn, nodes: set<bytes>, values: set<bytes>) {
    && (forall x, y | x in nodes && y in nodes && Masked(hash(x)) == Masked(hash(y)) :: x == y)
    && (forall x | x in nodes :: Masked(hash(x)) != ZERO)
    && CollisionFree(hash, values)
  }

  lemma LeafInjective(hash: HashFn, k: Key, v: bytes, l: Key, w: bytes)
    requires Leaf(hash, k, v) == Leaf(hash, l, w)
    requires |v| > 32 && |w| > 32 && hash(v) == hash(w) ==> v == w
    ensures k[..31] == l[..31] && v == w
  {
    var x, y := Leaf(hash, k, v), Leaf(hash, l, w);
    assert x[1..32] == k[..31] && y[1..32] == l[..31];
    assert x[0] == y[0];
    if |v| <= 32 {
      assert |v| == |w|;
      assert x[32..32 + |v|] == v && y[32..32 + |w|] == w;
    } else {
      assert x[32..] == hash(v) && y[32..] == hash(w);
    }
  }

  lemma BranchInjective(a: Digest, b: Digest, c: Digest, d: Digest)
    requires Branch(a, b) == Branch(c, d)
    ensures Masked(a) == Masked(c) && b == d
  {
    assert Branch(a, b)[..32] == Masked(a) && Branch(c, d)[..32] == Masked(c);
    assert Branch(a, b)[32..] == b && Branch(c, d)[32..] == d;
  }

  lemma LeafIsNoBranch(hash: HashFn, k: Key, v: bytes, a: Digest, b: Digest)
    ensures Leaf(hash, k, v) != Branch(a, b)
  {
    assert Leaf(hash, k, v)[0] >= 128 && Branch(a, b)[0] < 128;
  }

  lemma MaskedZero()
    ensures Masked(ZERO) == ZERO
  {
  }

  /** A tree whose nodes and long values are among those idealised. */
  ghost predicate Covered(hash: HashFn, t: Tree, nodes: set<bytes>, values: set<bytes>) {
    StateTree(t) && Nodes(hash, t) <= nodes && LongValues(t) <= values
  }

  /** Trees whose roots agree up to the top bit are equal. */
  lemma {:induction false} TreeBinds(hash: HashFn, s: Tree, t: Tree, nodes: set<bytes>, values: set<bytes>)
    requires Ideal(hash, nodes, values) && Covered(hash, s, nodes, values) && Covered(hash, t, nodes, values)
    requires Masked(Root(hash, s)) == Masked(Root(hash, t))
    ensures s == t
    decreases s
  {
    MaskedZero();
    if s.Nil? || t.Nil? {
      assert !s.Nil? ==> TopNode(hash, s) in nodes;
      assert !t.Nil? ==> TopNode(hash, t) in nodes;
    } else {
      assert TopNode(hash, s) in nodes && TopNode(hash, t) in nodes;
      assert TopNode(hash, s) == TopNode(hash, t);
      if s.Single? && t.Single? {
        LeavesBind(hash, s.key, s.value, t.key, t.value, values);
      } else if s.Fork? && t.Fork? {
        BranchInjective(Root(hash, s.left), Root(hash, s.right), Root(hash, t.left), Root(hash, t.right));
        TreeBinds(hash, s.left, t.left, nodes, values);
        TreeBinds(hash, s.right, t.right, nodes, values);
      } else if s.Single? {
        LeafIsNoBranch(hash, s.key, s.value, Root(hash, t.left), Root(hash, t.right));
      } else {
        LeafIsNoBranch(hash, t.key, t.value, Root(hash, s.left), Root(hash, s.right));
      }
    }
  }

  lemma LeavesBind(hash: HashFn, k: Key, v: bytes, l: Key, w: bytes, values: set<bytes>)
    requires k[31] == 0 == l[31] && CollisionFree(hash, values)
    requires (|v| > 32 ==> v in values) && (|w| > 32 ==> w in values)
    requires Leaf(hash, k, v) == Leaf(hash, l, w)
    ensures k == l && v == w
  {
    LeafInjective(hash, k, v, l, w);
    StateKeyFromBytes(k, l);
  }

  ghost function TreeFor(kvs: seq<Entry>): Tree {
    TreeOf(ToMap(kvs), 0)
  }

  lemma RootOfTree(hash: HashFn, kvs: seq<Entry>)
    requires DistinctKeys(kvs)
    ensures StateRoot(hash, kvs) == Some(Root(hash, TreeFor(kvs)))
  {
    RootDefinedIff(hash, kvs);
    MerkleIsRoot(hash, kvs, 0);
  }

  /** Hashing is ideal on everything hashed for either list. */
  ghost predicate IdealFor(hash: HashFn, a: seq<Entry>, b: seq<Entry>) {
    Ideal(hash, Nodes(hash, TreeFor(a)) + Nodes(hash, TreeFor(b)), LongValues(TreeFor(a)) + LongValues(TreeFor(b)))
  }

  /** A tree with the last key byte of each leaf erased. */
  function Blurred(t: Tree): Tree {
    match t
    case Nil => Nil
    case Single(k, v) => Single(k[..31] + [0], v)
    case Fork(l, r) => Fork(Blurred(l), Blurred(r))
  }

  /** Hashing never looks at what is erased. */
  lemma {:induction false} BlurredSame(hash: HashFn, t: Tree)
    ensures Root(hash, Blurred(t)) == Root(hash, t)
    ensures Nodes(hash, Blurred(t)) == Nodes(hash, t) && LongValues(Blurred(t)) == LongValues(t)
    ensures StateTree(Blurred(t))
    decreases t
  {
    match t
    case Nil =>
    case Single(k, v) =>
      assert (k[..31] + [0])[..31] == k[..31];
    case Fork(l, r) =>
      BlurredSame(hash, l);
      BlurredSame(hash, r);
  }

  lemma {:induction false} StateTreeBlurred(t: Tree)
    requires StateTree(t)
    ensures Blurred(t) == t
    decreases t
  {
    match t
    case Nil =>
    case Single(k, v) =>
      assert k[..31] + [0] == k;
    case Fork(l, r) =>
      StateTreeBlurred(l);
      StateTreeBlurred(r);
  }

  /**
   * For any 32-byte keys, with idealised hashing of what occurs: two dictionaries share a root exactly when
   * their trees are equal up to the last key byte of each leaf.
   */
  lemma RootsEqualIff(hash: HashFn, a: seq<Entry>, b: seq<Entry>)
    requires DistinctKeys(a) && DistinctKeys(b)
    ensures IdealFor(hash, a, b) ==>
              (StateRoot(hash, a) == StateRoot(hash, b) <==> Blurred(TreeFor(a)) == Blurred(TreeFor(b)))
  {
    RootOfTree(hash, a);
    RootOfTree(hash, b);
    BlurredSame(hash, TreeFor(a));
    BlurredSame(hash, TreeFor(b));
    if IdealFor(hash, a, b) && StateRoot(hash, a) == StateRoot(hash, b) {
      TreeBinds(hash, Blurred(TreeFor(a)), Blurred(TreeFor(b)), Nodes(hash, TreeFor(a)) + Nodes(hash, TreeFor(b)),
                LongValues(TreeFor(a)) + LongValues(TreeFor(b)));
    }
  }

  lemma {:induction false} TreeOfStateKeys(m: map<Key, bytes>, depth: Depth)
    requires forall k | k in m :: k[31] == 0
    ensures StateTree(TreeOf(m, depth))
    decreases KEY_BITS - depth
  {
    if |m| > 1 && depth < KEY_BITS {
      TreeOfStateKeys(Part(m, depth, false), depth + 1);
      TreeOfStateKeys(Part(m, depth, true), depth + 1);
    }
  }

  lemma StateTreeFor(kvs: seq<Entry>)
    requires StateKeys(kvs) && DistinctKeys(kvs)
    ensures Blurred(TreeFor(kvs)) == TreeFor(kvs) && Contents(TreeFor(kvs)) == ToMap(kvs)
  {
    forall k | k in ToMap(kvs)
      ensures k[31] == 0
    {
      ToMapKeys(kvs, k);
    }
    TreeOfStateKeys(ToMap(kvs), 0);
    StateTreeBlurred(TreeFor(kvs));
    TreeKeepsAll(ToMap(kvs), []);
  }

  /** State keys end in zero, so nothing is erased: state roots are equal exactly when the dictionaries are. */
  lemma RootBinds(hash: HashFn, a: seq<Entry>, b: seq<Entry>)
    requires StateKeys(a) && StateKeys(b) && DistinctKeys(a) && DistinctKeys(b)
    ensures IdealFor(hash, a, b) ==> (StateRoot(hash, a) == StateRoot(hash, b) <==> ToMap(a) == ToMap(b))
  {
    RootsEqualIff(hash, a, b);
    StateTreeFor(a);
    StateTreeFor(b);
  }

  /** State keys of 31 bytes stay distinct and end in the zero that the binding result needs. */
  lemma StateKeyFaithful(b: bytes, c: bytes)
    requires |b| == 31 && |c| == 31
    ensures StateKey(b)[31] == 0 && (StateKey(b) == StateKey(c) <==> b == c)
  {
    assert StateKey(b)[..31] == b && StateKey(c)[..31] == c;
  }

  /** For other keys binding fails: a root never shows the last byte of a lone key. */
  lemma LastByteUnseen(hash: HashFn, k: Key, last: byte, v: bytes)
    ensures var l: Key := k[..31] + [last]; StateRoot(hash, [Entry(k, v)]) == StateRoot(hash, [Entry(l, v)])
  {
    var l: Key := k[..31] + [last];
    assert l[..31] == k[..31];
  }
}
