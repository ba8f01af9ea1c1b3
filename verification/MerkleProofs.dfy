/**
 * The state trie and the mountain range from a verifier's side: what a node says, and how siblings lead from
 * an entry or a leaf up to the root.
 */
module MerkleProofs {
  import opened Base
  import Mmr
  import Trie

  // ------------------------------------------------------------ trie nodes, read back

  datatype Parts =
    | BranchParts(left: bytes, right: bytes)
    | ValueParts(key: bytes, value: bytes)
    | DigestParts(key: bytes, digest: bytes)

  /** Reads a node by its head byte: a branch below 128, a digest at 192, else a value of so many bytes. */
  function PartsOf(node: bytes): Option<Parts>
    requires |node| == 64
  {
    if node[0] < 128 then Some(BranchParts(node[..32], node[32..]))
    else if node[0] <= 160 then Some(ValueParts(node[1..32], node[32..node[0] - 96]))
    else if node[0] == 192 then Some(DigestParts(node[1..32], node[32..]))
    else None
  }

  /** A leaf reads back as the first 31 bytes of its key and its value, or the value's digest past 32 bytes. */
  lemma LeafReadsBack(hash: HashFn, k: Trie.Key, v: bytes)
    ensures PartsOf(Trie.Leaf(hash, k, v))
         == Some(if |v| <= 32 then ValueParts(k[..31], v) else DigestParts(k[..31], hash(v)))
    ensures forall i | 32 + |v| <= i < 64 :: Trie.Leaf(hash, k, v)[i] == 0
  {
    var node := Trie.Leaf(hash, k, v);
    assert node[1..32] == k[..31];
    if |v| <= 32 {
      assert node[32..32 + |v|] == v;
    } else {
      assert node[32..] == hash(v);
    }
  }

  function WithoutTopBit(d: Digest): bytes {
    [d[0] % 128] + d[1..]
  }

  /** A branch reads back as its left hash without the top bit, and its right hash. */
  lemma BranchReadsBack(left: Digest, right: Digest)
    ensures PartsOf(Trie.Branch(left, right)) == Some(BranchParts(WithoutTopBit(left), right))
  {
    assert Trie.Branch(left, right)[..32] == WithoutTopBit(left);
    assert Trie.Branch(left, right)[32..] == right;
  }

  // ------------------------------------------------------------ from an entry to the root

  /** Bit `i` of a key, most significant first within each byte. */
  function KeyBit(k: Trie.Key, i: nat): bool
    requires i < 256
  {
    var b: int := k[i / 8];
    b / Pow2(7 - i % 8) % 2 == 1
  }

  /** The hash a node and the siblings above it lead to; the key says on which side the node's ancestors are. */
  function Climb(hash: HashFn, k: Trie.Key, depth: nat, node: Digest, siblings: seq<Digest>): Digest
    requires depth + |siblings| <= 256
    decreases |siblings|
  {
    if siblings == [] then node
    else
      var below := Climb(hash, k, depth + 1, node, siblings[1..]);
      if KeyBit(k, depth) then hash(WithoutTopBit(siblings[0]) + below)
      else hash(WithoutTopBit(below) + siblings[0])
  }

  lemma BitIsMask(k: Trie.Key, i: nat)
    requires i < 256
    ensures KeyBit(k, i) <==> Trie.Bit(k, i)
  {
    Trie.ByteBitMask(k[i / 8], i % 8);
  }

  lemma EntryOnItsSide(kvs: seq<Trie.Entry>, depth: Trie.BitIndex, e: Trie.Entry)
    requires e in kvs
    ensures e in Trie.Side(kvs, depth, Trie.Bit(e.key, depth))
  {
    var i :| 0 <= i < |kvs| && kvs[i] == e;
    var p := Trie.SideHas(kvs, depth, i);
  }

  /** Every entry under a root has siblings that lead from its leaf to that root. */
  lemma {:induction false} EntryProved(hash: HashFn, kvs: seq<Trie.Entry>, depth: Trie.Depth, e: Trie.Entry)
    returns (siblings: seq<Digest>)
    requires e in kvs && Trie.Merkle(hash, kvs, depth, 256).Some?
    ensures depth + |siblings| <= 256
    ensures Some(Climb(hash, e.key, depth, hash(Trie.Leaf(hash, e.key, e.value)), siblings))
         == Trie.Merkle(hash, kvs, depth, 256)
    decreases 256 - depth
  {
    if |kvs| == 1 {
      siblings := [];
    } else {
      BitIsMask(e.key, depth);
      EntryOnItsSide(kvs, depth, e);
      Trie.MerkleFork(hash, kvs, depth);
      var side := Trie.Bit(e.key, depth);
      var above := EntryProved(hash, Trie.Side(kvs, depth, side), depth + 1, e);
      var sibling := Trie.Merkle(hash, Trie.Side(kvs, depth, !side), depth + 1, 256).value;
      siblings := [sibling] + above;
      assert siblings[1..] == above;
    }
  }

  // ------------------------------------------------------------ from a leaf to a peak

  /** The hash a leaf and its siblings, lowest first, lead to; each bit of the index says on which side it is. */
  function Ascend(hash: HashFn, node: Digest, siblings: seq<Digest>, index: nat): Digest
    decreases |siblings|
  {
    if siblings == [] then node
    else
      var n := |siblings| - 1;
      var below := Ascend(hash, node, siblings[..n], index);
      if index / Pow2(n) % 2 == 1 then hash(siblings[n] + below) else hash(below + siblings[n])
  }

  lemma {:induction false} AscendIndex(hash: HashFn, node: Digest, siblings: seq<Digest>, index: nat, k: nat)
    requires |siblings| <= k
    ensures Ascend(hash, node, siblings, index + Pow2(k)) == Ascend(hash, node, siblings, index)
    decreases |siblings|
  {
    if siblings != [] {
      var n := |siblings| - 1;
      AscendIndex(hash, node, siblings[..n], index, k);
      BitAbove(index, n, k);
    }
  }

  lemma Distributes(q: nat, w: nat, p: nat)
    ensures (q + w) * p == q * p + w * p
  {
  }

  lemma QuotientGrows(x: nat, p: nat, w: nat)
    requires p > 0
    ensures (x + w * p) / p == x / p + w
  {
    SplitAt(x, p);
    Distributes(x / p, w, p);
    QuotientUnique(x + w * p, p, x / p + w, x % p);
  }

  lemma EvenPower(j: nat)
    requires j > 0
    ensures Pow2(j) % 2 == 0
  {
    var d := Pow2(j - 1);
    assert Pow2(j) == 2 * d;
  }

  lemma EvenAdds(q: nat, w: nat)
    requires w % 2 == 0
    ensures (q + w) % 2 == q % 2
  {
  }

  lemma ParityKept(x: nat, p: nat, w: nat, big: nat)
    requires p > 0 && w % 2 == 0 && big == w * p
    ensures (x + big) / p % 2 == x / p % 2
  {
    QuotientGrows(x, p, w);
    EvenAdds(x / p, w);
  }

  /** Adding a higher power of two leaves a lower bit alone. */
  lemma BitAbove(x: nat, n: nat, k: nat)
    requires n < k
    ensures (x + Pow2(k)) / Pow2(n) % 2 == x / Pow2(n) % 2
  {
    var p, w, big := Pow2(n), Pow2(k - n), Pow2(k);
    assert big == w * p by {
      Mmr.Pow2Split(n, k - n);
    }
    EvenPower(k - n);
    ParityKept(x, p, w, big);
  }

  lemma TopBit(j: nat, i: nat)
    requires j < Pow2(i + 1)
    ensures j / Pow2(i) % 2 == if j < Pow2(i) then 0 else 1
  {
    if j < Pow2(i) {
      QuotientUnique(j, Pow2(i), 0, j);
    } else {
      QuotientUnique(j, Pow2(i), 1, j - Pow2(i));
    }
  }

  lemma AscendTop(hash: HashFn, node: Digest, below: seq<Digest>, sibling: Digest, index: nat)
    ensures Ascend(hash, node, below + [sibling], index)
         == if index / Pow2(|below|) % 2 == 1 then hash(sibling + Ascend(hash, node, below, index))
            else hash(Ascend(hash, node, below, index) + sibling)
  {
    assert (below + [sibling])[..|below|] == below;
  }

  lemma JoinLeft(hash: HashFn, node: Digest, j: nat, below: seq<Digest>, left: Digest, right: Digest)
    requires j < Pow2(|below|) && Ascend(hash, node, below, j) == left
    ensures Ascend(hash, node, below + [right], j) == hash(left + right)
  {
    TopBit(j, |below|);
    AscendTop(hash, node, below, right, j);
  }

  lemma JoinRight(hash: HashFn, node: Digest, j: nat, below: seq<Digest>, left: Digest, right: Digest)
    requires j < Pow2(|below|) && Ascend(hash, node, below, j) == right
    ensures Ascend(hash, node, below + [left], j + Pow2(|below|)) == hash(left + right)
  {
    TopBit(j + Pow2(|below|), |below|);
    AscendIndex(hash, node, below, j, |below|);
    AscendTop(hash, node, below, left, j + Pow2(|below|));
  }

  lemma TreeTop(hash: HashFn, leaves: seq<Digest>, i: nat)
    requires |leaves| == Pow2(i + 1)
    ensures Mmr.TreeRoot(hash, leaves, i + 1)
         == hash(Mmr.TreeRoot(hash, leaves[..Pow2(i)], i) + Mmr.TreeRoot(hash, leaves[Pow2(i)..], i))
  {
  }

  lemma {:induction false} TreeLeafProved(hash: HashFn, leaves: seq<Digest>, i: nat, j: nat)
    returns (siblings: seq<Digest>)
    requires |leaves| == Pow2(i) && j < |leaves|
    ensures |siblings| == i && Ascend(hash, leaves[j], siblings, j) == Mmr.TreeRoot(hash, leaves, i)
    decreases i
  {
    if i == 0 {
      return [];
    }
    var half := Pow2(i - 1);
    var l, r := Mmr.TreeRoot(hash, leaves[..half], i - 1), Mmr.TreeRoot(hash, leaves[half..], i - 1);
    TreeTop(hash, leaves, i - 1);
    if j < half {
      var below := TreeLeafProved(hash, leaves[..half], i - 1, j);
      JoinLeft(hash, leaves[j], j, below, l, r);
      siblings := below + [r];
    } else {
      var below := TreeLeafProved(hash, leaves[half..], i - 1, j - half);
      JoinRight(hash, leaves[j], j - half, below, l, r);
      siblings := below + [l];
    }
  }

  /** Every leaf of a range has siblings that lead from it to the peak it is under. */
  lemma LeafProved(hash: HashFn, leaves: seq<Digest>, k: nat, j: nat) returns (siblings: seq<Digest>)
    requires |leaves| / Pow2(k) % 2 == 1 && j < Pow2(k)
    ensures |siblings| == k && Mmr.Present(Mmr.PeaksOf(hash, leaves), k)
    ensures Some(Ascend(hash, Mmr.Block(leaves, k)[j], siblings, j)) == Mmr.PeaksOf(hash, leaves)[k]
  {
    Mmr.PeakIsRoot(hash, leaves, k);
    siblings := TreeLeafProved(hash, Mmr.Block(leaves, k), k, j);
  }

  // ------------------------------------------------------------ the super-peak

  lemma {:induction false} PresentAppend(peaks: Mmr.Peaks, p: Option<Digest>)
    ensures Mmr.PresentPeaks(peaks + [p]) == Mmr.PresentPeaks(peaks) + if p.Some? then [p.value] else []
    ensures Mmr.PresentPeaks(peaks) == [] <==> forall k | 0 <= k < |peaks| :: peaks[k] == None
    decreases |peaks|
  {
    if peaks != [] {
      PresentAppend(peaks[1..], p);
      assert (peaks + [p])[1..] == peaks[1..] + [p];
      if forall k | 0 <= k < |peaks[1..]| :: peaks[1..][k] == None {
        assert forall k | 0 < k < |peaks| :: peaks[k] == peaks[1..][k - 1];
      }
    } else {
      assert peaks + [p] == [p];
    }
  }

  /** One more, higher, peak is hashed behind the domain tag and the super-peak of the lower ones. */
  lemma SuperPeakGrows(hash: HashFn, peaks: Mmr.Peaks, p: Digest)
    ensures Mmr.SuperPeak(hash, peaks + [None]) == Mmr.SuperPeak(hash, peaks)
    ensures Mmr.SuperPeak(hash, peaks + [Some(p)])
         == if forall k | 0 <= k < |peaks| :: peaks[k] == None then p
            else hash([112, 101, 97, 107] + Mmr.SuperPeak(hash, peaks) + p)
  {
    PresentAppend(peaks, None);
    PresentAppend(peaks, Some(p));
    var items := Mmr.PresentPeaks(peaks);
    assert items + [] == items;
    assert (items + [p])[..|items|] == items;
  }

  /** What is hashed for it tells the tag, the lower part and the higher peak apart. */
  lemma FoldReadsBack(rest: Digest, last: Digest)
    ensures var b := Mmr.FoldInput(rest, last);
            |b| == 68 && b[..4] == [112, 101, 97, 107] && b[4..36] == rest && b[36..] == last
  {
  }
}
