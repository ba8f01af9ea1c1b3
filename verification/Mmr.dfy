/**
 * The Merkle mountain range as a binary counter: which peaks exist, which leaves each commits to, and
 * what the super-peak determines. The hash function is a parameter.
 */
module Mmr {
  import opened Base

  type Peaks = seq<Option<Digest>>

  // ------------------------------------------------------------ appending

  /** The peaks, lowest first, after a carry comes in at the lowest. */
  function Appended(hash: HashFn, peaks: Peaks, carry: Digest): Peaks {
    if peaks == [] then [Some(carry)]
    else match peaks[0]
      case None => [Some(carry)] + peaks[1..]
      case Some(peak) => [None] + Appended(hash, peaks[1..], hash(peak + carry))
  }

  class MountainRange {
    var peaks: Peaks

    constructor ()
      ensures peaks == []
    {
      peaks := [];
    }

    method Append(hash: HashFn, item: Digest)
      modifies this
      ensures peaks == Appended(hash, old(peaks), item)
    {
      var carry, n := item, 0;
      while true
        invariant n <= |peaks|
        invariant Appended(hash, old(peaks), item) == peaks[..n] + Appended(hash, peaks[n..], carry)
        decreases |peaks| - n
      {
        if n == |peaks| {
          peaks := peaks + [Some(carry)];
          return;
        }
        match peaks[n] {
          case None =>
            peaks := peaks[n := Some(carry)];
            return;
          case Some(peak) =>
            carry := hash(peak + carry);
            peaks := peaks[n := None];
            n := n + 1;
        }
      }
    }
  }

  /** The range after appending leaves to an empty one. */
  function PeaksOf(hash: HashFn, leaves: seq<Digest>): Peaks {
    if leaves == [] then [] else Appended(hash, PeaksOf(hash, leaves[..|leaves| - 1]), leaves[|leaves| - 1])
  }

  // ------------------------------------------------------------ what a peak commits to

  function Left(leaves: seq<Digest>, i: nat): (r: seq<Digest>)
    requires |leaves| == Pow2(i) && i > 0
    ensures |r| == Pow2(i - 1)
  {
    leaves[..Pow2(i - 1)]
  }

  function Right(leaves: seq<Digest>, i: nat): (r: seq<Digest>)
    requires |leaves| == Pow2(i) && i > 0
    ensures |r| == Pow2(i - 1)
  {
    leaves[Pow2(i - 1)..]
  }

  /** The root of the perfect tree of height `i` over its leaves. */
  function TreeRoot(hash: HashFn, leaves: seq<Digest>, i: nat): Digest
    requires |leaves| == Pow2(i)
    decreases i, 1
  {
    if i == 0 then leaves[0] else hash(TopInput(hash, leaves, i))
  }

  /** What is hashed for the root of a tree that is not a leaf. */
  function TopInput(hash: HashFn, leaves: seq<Digest>, i: nat): bytes
    requires |leaves| == Pow2(i) && i > 0
    decreases i, 0
  {
    TreeRoot(hash, Left(leaves, i), i - 1) + TreeRoot(hash, Right(leaves, i), i - 1)
  }

  /** Peaks from height `i` up commit to these leaves: the lowest present one to the last block of its size. */
  ghost predicate Commits(hash: HashFn, peaks: Peaks, leaves: seq<Digest>, i: nat)
    decreases |peaks|
  {
    if peaks == [] then leaves == []
    else match peaks[0]
      case None => Commits(hash, peaks[1..], leaves, i + 1)
      case Some(peak) =>
        && |leaves| >= Pow2(i)
        && peak == TreeRoot(hash, leaves[|leaves| - Pow2(i)..], i)
        && Commits(hash, peaks[1..], leaves[..|leaves| - Pow2(i)], i + 1)
  }

  /** A carry that commits to one more block is absorbed. */
  lemma {:induction false} AppendCommits(hash: HashFn, peaks: Peaks, leaves: seq<Digest>, block: seq<Digest>, i: nat)
    requires Commits(hash, peaks, leaves, i) && |block| == Pow2(i)
    ensures Commits(hash, Appended(hash, peaks, TreeRoot(hash, block, i)), leaves + block, i)
    decreases |peaks|
  {
    var carry, all := TreeRoot(hash, block, i), leaves + block;
    assert all[|all| - Pow2(i)..] == block && all[..|all| - Pow2(i)] == leaves;
    if peaks == [] {
      assert [Some(carry)][1..] == [];
    } else if peaks[0].None? {
      assert Appended(hash, peaks, carry)[1..] == peaks[1..];
    } else {
      var k := |leaves| - Pow2(i);
      var wide := leaves[k..] + block;
      AppendCommits(hash, peaks[1..], leaves[..k], wide, i + 1);
      assert leaves[..k] + wide == all;
      assert Appended(hash, peaks, carry)[1..] == Appended(hash, peaks[1..], TreeRoot(hash, wide, i + 1));
    }
  }

  lemma {:induction false} RangeCommits(hash: HashFn, leaves: seq<Digest>)
    ensures Commits(hash, PeaksOf(hash, leaves), leaves, 0)
    decreases |leaves|
  {
    if leaves != [] {
      var init, last := leaves[..|leaves| - 1], leaves[|leaves| - 1];
      RangeCommits(hash, init);
      AppendCommits(hash, PeaksOf(hash, init), init, [last], 0);
      assert init + [last] == leaves;
    }
  }

  // ------------------------------------------------------------ the binary counter

  function Bit(n: nat, k: nat): nat {
    n / Pow2(k) % 2
  }

  predicate Present(peaks: Peaks, k: nat) {
    k < |peaks| && peaks[k].Some?
  }

  /** The number whose binary digits say which peaks exist. */
  function Count(peaks: Peaks): nat {
    if peaks == [] then 0 else (if peaks[0].Some? then 1 else 0) + 2 * Count(peaks[1..])
  }

  lemma {:induction false} CountDigits(peaks: Peaks, k: nat)
    ensures Bit(Count(peaks), k) == if Present(peaks, k) then 1 else 0
    decreases |peaks|
  {
    if peaks == [] {
      QuotientUnique(0, Pow2(k), 0, 0);
    } else {
      var b, rest := if peaks[0].Some? then 1 else 0, Count(peaks[1..]);
      if k == 0 {
        BitZero(b, rest);
      } else {
        CountDigits(peaks[1..], k - 1);
        HalveFirst(b, rest, Pow2(k - 1));
      }
    }
  }

  lemma BitZero(b: nat, rest: nat)
    requires b < 2
    ensures Bit(b + 2 * rest, 0) == b
  {
  }

  lemma HalveFirst(b: nat, rest: nat, p: nat)
    requires b < 2 && p > 0
    ensures (b + 2 * rest) / (2 * p) == rest / p
  {
    var q, r := rest / p, rest % p;
    SplitAt(rest, p);
    assert 2 * (q * p) == q * (2 * p);
    QuotientUnique(b + 2 * rest, 2 * p, q, b + 2 * r);
  }

  lemma {:induction false} CommitsCount(hash: HashFn, peaks: Peaks, leaves: seq<Digest>, i: nat)
    requires Commits(hash, peaks, leaves, i)
    ensures |leaves| == Count(peaks) * Pow2(i)
    decreases |peaks|
  {
    if peaks != [] {
      var rest := if peaks[0].Some? then leaves[..|leaves| - Pow2(i)] else leaves;
      CommitsCount(hash, peaks[1..], rest, i + 1);
      CountStep(if peaks[0].Some? then 1 else 0, Count(peaks[1..]), Pow2(i));
    }
  }

  lemma CountStep(b: nat, c: nat, p: nat)
    ensures (b + 2 * c) * p == b * p + c * (2 * p)
  {
  }

  /** Peak `k` exists exactly when bit `k` of the leaf count is one. */
  lemma PeakIffBit(hash: HashFn, leaves: seq<Digest>, k: nat)
    ensures Present(PeaksOf(hash, leaves), k) <==> Bit(|leaves|, k) == 1
  {
    RangeCommits(hash, leaves);
    CommitsCount(hash, PeaksOf(hash, leaves), leaves, 0);
    CountDigits(PeaksOf(hash, leaves), k);
  }

  // ------------------------------------------------------------ the blocks

  /** The last block of a size, before the leaves that do not fill one. */
  function LastBlock(leaves: seq<Digest>, size: nat): (r: seq<Digest>)
    requires size > 0 && size + |leaves| % size <= |leaves|
    ensures |r| == size
  {
    var end := |leaves| - |leaves| % size;
    leaves[end - size..end]
  }

  /** The leaves of peak `k`: 2^k of them, before those of the lower peaks. */
  function Block(leaves: seq<Digest>, k: nat): (r: seq<Digest>)
    requires Bit(|leaves|, k) == 1
    ensures |r| == Pow2(k)
  {
    BitSplits(|leaves|, k);
    LastBlock(leaves, Pow2(k))
  }

  /** One more digit of a remainder. */
  lemma BitSplits(n: nat, k: nat)
    ensures n % Pow2(k + 1) == n % Pow2(k) + if Bit(n, k) == 1 then Pow2(k) else 0
    ensures n % Pow2(k + 1) <= n
  {
    DigitSplits(n, Pow2(k));
  }

  lemma DigitSplits(n: nat, p: nat)
    requires p > 0
    ensures n % (2 * p) == n % p + (if n / p % 2 == 1 then p else 0) && n % (2 * p) <= n
  {
    var d, low := n / p, n % p;
    var hi, b := d / 2, d % 2;
    SplitAt(n, p);
    SplitAt(d, 2);
    var w, r := 2 * p, b * p + low;
    QuotientUnique(n, w, hi, r);
  }

  lemma MultiplePlus(c: nat, p: nat, q: nat)
    requires p > 0 && q > 0
    ensures (c * (2 * p) + p) % (q * (2 * p)) == c * (2 * p) % (q * (2 * p)) + p
  {
    var w := 2 * p;
    var m := q * w;
    assert m > 0 by {
      MulMonotone(q, w);
    }
    var d, r := c / q, c % q;
    SplitAt(c, q);
    assert (d * q + r) * w == d * m + r * w;
    assert (r + 1) * w <= m by {
      MulMonotone(q - r, w);
      assert q * w == (r + (q - r)) * w == r * w + (q - r) * w;
    }
    assert r * w >= 0;
    QuotientUnique(c * w, m, d, r * w);
    QuotientUnique(c * w + p, m, d, r * w + p);
  }

  lemma {:induction false} Pow2Split(i: nat, k: nat)
    ensures Pow2(i + k) == Pow2(k) * Pow2(i)
    decreases k
  {
    if k > 0 {
      Pow2Split(i, k - 1);
    }
  }

  /** A peak of height `h` is the root over the block that ends where the lower bits of the count begin. */
  ghost predicate RootOfBlock(hash: HashFn, leaves: seq<Digest>, h: nat, peak: Option<Digest>) {
    Pow2(h) + |leaves| % Pow2(h) <= |leaves| && peak == Some(TreeRoot(hash, LastBlock(leaves, Pow2(h)), h))
  }

  lemma LowestBlock(hash: HashFn, leaves: seq<Digest>, c: nat, h: nat)
    requires |leaves| == c * Pow2(h) && |leaves| >= Pow2(h)
    ensures RootOfBlock(hash, leaves, h, Some(TreeRoot(hash, leaves[|leaves| - Pow2(h)..], h)))
  {
    QuotientUnique(|leaves|, Pow2(h), c, 0);
    assert LastBlock(leaves, Pow2(h)) == leaves[|leaves| - Pow2(h)..];
  }

  /** Dropping the block of a lower bit leaves a higher one where it is. */
  lemma HigherBlock(hash: HashFn, leaves: seq<Digest>, c: nat, i: nat, k: nat, peak: Option<Digest>)
    requires k > 0 && |leaves| == c * Pow2(i + 1) + Pow2(i)
    requires RootOfBlock(hash, leaves[..|leaves| - Pow2(i)], i + k, peak)
    ensures RootOfBlock(hash, leaves, i + k, peak)
  {
    LowerBitAdds(c * Pow2(i + 1), c, i, k);
    SameLastBlock(leaves, Pow2(i), Pow2(i + k));
  }

  lemma SameLastBlock(leaves: seq<Digest>, p: nat, size: nat)
    requires p <= |leaves| && size > 0 && size + (|leaves| - p) % size <= |leaves| - p
    requires |leaves| % size == (|leaves| - p) % size + p
    ensures LastBlock(leaves[..|leaves| - p], size) == LastBlock(leaves, size)
  {
    var end := |leaves| - |leaves| % size;
    assert end == (|leaves| - p) - (|leaves| - p) % size;
    assert leaves[..|leaves| - p][end - size..end] == leaves[end - size..end];
  }

  lemma LowerBitAdds(n: nat, c: nat, i: nat, k: nat)
    requires n == c * Pow2(i + 1) && k > 0
    ensures (n + Pow2(i)) % Pow2(i + k) == n % Pow2(i + k) + Pow2(i)
  {
    Pow2Split(i + 1, k - 1);
    MultiplePlus(c, Pow2(i), Pow2(k - 1));
  }

  /** Every peak is the root of the tree over its own block. */
  lemma {:induction false} PeakBlock(hash: HashFn, peaks: Peaks, leaves: seq<Digest>, i: nat, k: nat)
    requires Commits(hash, peaks, leaves, i) && Present(peaks, k)
    ensures RootOfBlock(hash, leaves, i + k, peaks[k])
    decreases |peaks|
  {
    if k == 0 {
      CommitsCount(hash, peaks, leaves, i);
      LowestBlock(hash, leaves, Count(peaks), i);
    } else if peaks[0].None? {
      PeakBlock(hash, peaks[1..], leaves, i + 1, k - 1);
    } else {
      var rest := leaves[..|leaves| - Pow2(i)];
      CommitsCount(hash, peaks[1..], rest, i + 1);
      PeakBlock(hash, peaks[1..], rest, i + 1, k - 1);
      HigherBlock(hash, leaves, Count(peaks[1..]), i, k, peaks[k]);
    }
  }

  /** Each peak is the root of the perfect tree over its own 2^k consecutive leaves. */
  lemma PeakIsRoot(hash: HashFn, leaves: seq<Digest>, k: nat)
    requires Bit(|leaves|, k) == 1
    ensures Present(PeaksOf(hash, leaves), k)
    ensures PeaksOf(hash, leaves)[k] == Some(TreeRoot(hash, Block(leaves, k), k))
  {
    PeakIffBit(hash, leaves, k);
    RangeCommits(hash, leaves);
    PeakBlock(hash, PeaksOf(hash, leaves), leaves, 0, k);
  }

  /** The blocks of the peaks below height `k`, from high to low. */
  function Joined(leaves: seq<Digest>, k: nat): seq<Digest> {
    if k == 0 then []
    else (if Bit(|leaves|, k - 1) == 1 then Block(leaves, k - 1) else []) + Joined(leaves, k - 1)
  }

  /** The last `r` of the leaves. */
  function Tail(leaves: seq<Digest>, r: nat): seq<Digest>
    requires r <= |leaves|
  {
    leaves[|leaves| - r..]
  }

  lemma {:induction false} JoinedIsTail(leaves: seq<Digest>, k: nat)
    ensures |leaves| % Pow2(k) <= |leaves| && Joined(leaves, k) == Tail(leaves, |leaves| % Pow2(k))
  {
    if k == 0 {
      QuotientUnique(|leaves|, 1, |leaves|, 0);
    } else {
      JoinedIsTail(leaves, k - 1);
      JoinedStep(leaves, k - 1);
    }
  }

  lemma JoinedStep(leaves: seq<Digest>, k: nat)
    requires |leaves| % Pow2(k) <= |leaves| && Joined(leaves, k) == Tail(leaves, |leaves| % Pow2(k))
    ensures |leaves| % Pow2(k + 1) <= |leaves| && Joined(leaves, k + 1) == Tail(leaves, |leaves| % Pow2(k + 1))
  {
    BitSplits(|leaves|, k);
    if Bit(|leaves|, k) == 1 {
      BlockBeforeTail(leaves, Pow2(k));
    } else {
      assert [] + Joined(leaves, k) == Joined(leaves, k);
    }
  }

  lemma BlockBeforeTail(leaves: seq<Digest>, size: nat)
    requires size > 0 && size + |leaves| % size <= |leaves|
    ensures LastBlock(leaves, size) + leaves[|leaves| - |leaves| % size..]
         == leaves[|leaves| - |leaves| % size - size..]
  {
  }

  lemma {:induction false} CountBelow(peaks: Peaks)
    ensures Count(peaks) < Pow2(|peaks|)
    decreases |peaks|
  {
    if peaks != [] {
      CountBelow(peaks[1..]);
    }
  }

  /** From high to low, the blocks of all peaks are the whole sequence of leaves. */
  lemma BlocksJoin(hash: HashFn, leaves: seq<Digest>)
    ensures Joined(leaves, |PeaksOf(hash, leaves)|) == leaves
  {
    var peaks := PeaksOf(hash, leaves);
    RangeCommits(hash, leaves);
    CommitsCount(hash, peaks, leaves, 0);
    CountBelow(peaks);
    QuotientUnique(|leaves|, Pow2(|peaks|), 0, |leaves|);
    JoinedIsTail(leaves, |peaks|);
  }

  // ------------------------------------------------------------ the super-peak

  function PresentPeaks(peaks: Peaks): seq<Digest> {
    if peaks == [] then []
    else (if peaks[0].Some? then [peaks[0].value] else []) + PresentPeaks(peaks[1..])
  }

  /** "peak" */
  const PEAK: bytes := [112, 101, 97, 107]

  /** What is hashed to fold a last peak onto the rest. */
  function FoldInput(rest: Digest, last: Digest): bytes {
    PEAK + rest + last
  }

  function Fold(hash: HashFn, items: seq<Digest>): Digest {
    if items == [] then ZERO
    else if |items| == 1 then items[0]
    else hash(FoldInput(Fold(hash, items[..|items| - 1]), items[|items| - 1]))
  }

  function SuperPeak(hash: HashFn, peaks: Peaks): Digest {
    Fold(hash, PresentPeaks(peaks))
  }

  ghost function FoldInputs(hash: HashFn, items: seq<Digest>): set<bytes> {
    if |items| <= 1 then {}
    else
      var init := items[..|items| - 1];
      FoldInputs(hash, init) + {FoldInput(Fold(hash, init), items[|items| - 1])}
  }

  ghost function TreeInputs(hash: HashFn, leaves: seq<Digest>, i: nat): set<bytes>
    requires |leaves| == Pow2(i)
    decreases i
  {
    if i == 0 then {}
    else
      TreeInputs(hash, Left(leaves, i), i - 1) + TreeInputs(hash, Right(leaves, i), i - 1) + {TopInput(hash, leaves, i)}
  }

  ghost function PeakInputs(hash: HashFn, peaks: Peaks, leaves: seq<Digest>, i: nat): set<bytes>
    requires Commits(hash, peaks, leaves, i)
    decreases |peaks|
  {
    if peaks == [] then {}
    else match peaks[0]
      case None => PeakInputs(hash, peaks[1..], leaves, i + 1)
      case Some(_) =>
        var k := |leaves| - Pow2(i);
        TreeInputs(hash, leaves[k..], i) + PeakInputs(hash, peaks[1..], leaves[..k], i + 1)
  }

  /** Everything hashed on the way from the leaves to the super-peak. */
  ghost function Inputs(hash: HashFn, leaves: seq<Digest>): set<bytes> {
    RangeCommits(hash, leaves);
    PeakInputs(hash, PeaksOf(hash, leaves), leaves, 0) + FoldInputs(hash, PresentPeaks(PeaksOf(hash, leaves)))
  }

  lemma PairInjective(a: Digest, b: Digest, c: Digest, d: Digest)
    requires a + b == c + d
    ensures a == c && b == d
  {
    assert a == (a + b)[..32] && c == (c + d)[..32];
    assert b == (a + b)[32..] && d == (c + d)[32..];
  }

  lemma FoldInputInjective(a: Digest, b: Digest, c: Digest, d: Digest)
    requires FoldInput(a, b) == FoldInput(c, d)
    ensures a == c && b == d
  {
    assert FoldInput(a, b)[4..] == a + b && FoldInput(c, d)[4..] == c + d;
    PairInjective(a, b, c, d);
  }

  lemma {:induction false} FoldInjective(hash: HashFn, inputs: set<bytes>, a: seq<Digest>, b: seq<Digest>)
    requires |a| == |b| && Fold(hash, a) == Fold(hash, b)
    requires FoldInputs(hash, a) <= inputs && FoldInputs(hash, b) <= inputs && CollisionFree(hash, inputs)
    ensures a == b
    decreases |a|
  {
    if |a| > 1 {
      var x, y := a[..|a| - 1], b[..|b| - 1];
      FoldInputInjective(Fold(hash, x), a[|a| - 1], Fold(hash, y), b[|b| - 1]);
      FoldInjective(hash, inputs, x, y);
      assert a == x + [a[|a| - 1]] && b == y + [b[|b| - 1]];
    }
  }

  lemma {:induction false} TreeInjective(hash: HashFn, inputs: set<bytes>, a: seq<Digest>, b: seq<Digest>, i: nat)
    requires |a| == |b| == Pow2(i) && TreeRoot(hash, a, i) == TreeRoot(hash, b, i)
    requires TreeInputs(hash, a, i) <= inputs && TreeInputs(hash, b, i) <= inputs && CollisionFree(hash, inputs)
    ensures a == b
    decreases i
  {
    if i > 0 {
      assert TopInput(hash, a, i) in inputs && TopInput(hash, b, i) in inputs;
      var al, ar, bl, br := Left(a, i), Right(a, i), Left(b, i), Right(b, i);
      PairInjective(
        TreeRoot(hash, al, i - 1), TreeRoot(hash, ar, i - 1), TreeRoot(hash, bl, i - 1), TreeRoot(hash, br, i - 1));
      TreeInjective(hash, inputs, al, bl, i - 1);
      TreeInjective(hash, inputs, ar, br, i - 1);
    }
  }

  lemma {:induction false} PeaksInjective(
    hash: HashFn, inputs: set<bytes>, peaks: Peaks, a: seq<Digest>, b: seq<Digest>, i: nat)
    requires Commits(hash, peaks, a, i) && Commits(hash, peaks, b, i) && CollisionFree(hash, inputs)
    requires PeakInputs(hash, peaks, a, i) <= inputs && PeakInputs(hash, peaks, b, i) <= inputs
    ensures a == b
    decreases |peaks|
  {
    if peaks != [] {
      if peaks[0].None? {
        PeaksInjective(hash, inputs, peaks[1..], a, b, i + 1);
      } else {
        var k, l := |a| - Pow2(i), |b| - Pow2(i);
        TreeInjective(hash, inputs, a[k..], b[l..], i);
        PeaksInjective(hash, inputs, peaks[1..], a[..k], b[..l], i + 1);
        assert a == a[..k] + a[k..] && b == b[..l] + b[l..];
      }
    }
  }

  ghost predicate SameShape(p: Peaks, q: Peaks) {
    |p| == |q| && forall k | 0 <= k < |p| :: p[k].Some? == q[k].Some?
  }

  lemma {:induction false} AppendShape(hash: HashFn, p: Peaks, q: Peaks, c: Digest, d: Digest)
    requires SameShape(p, q)
    ensures SameShape(Appended(hash, p, c), Appended(hash, q, d))
    decreases |p|
  {
    if p != [] && p[0].Some? {
      assert q[0].Some?;
      AppendShape(hash, p[1..], q[1..], hash(p[0].value + c), hash(q[0].value + d));
    }
  }

  /** How many leaves there are decides which peaks exist. */
  lemma {:induction false} ShapeOfCount(hash: HashFn, a: seq<Digest>, b: seq<Digest>)
    requires |a| == |b|
    ensures SameShape(PeaksOf(hash, a), PeaksOf(hash, b))
    decreases |a|
  {
    if a != [] {
      var x, y := a[..|a| - 1], b[..|b| - 1];
      ShapeOfCount(hash, x, y);
      AppendShape(hash, PeaksOf(hash, x), PeaksOf(hash, y), a[|a| - 1], b[|b| - 1]);
    }
  }

  lemma {:induction false} PresentInjective(p: Peaks, q: Peaks)
    requires SameShape(p, q)
    ensures |PresentPeaks(p)| == |PresentPeaks(q)|
    ensures PresentPeaks(p) == PresentPeaks(q) ==> p == q
    decreases |p|
  {
    if p != [] {
      assert p[0].Some? == q[0].Some?;
      forall k | 0 <= k < |p[1..]|
        ensures p[1..][k].Some? == q[1..][k].Some?
      {
        assert p[k + 1].Some? == q[k + 1].Some?;
      }
      PresentInjective(p[1..], q[1..]);
      assert p == [p[0]] + p[1..] && q == [q[0]] + q[1..];
      var s, t := PresentPeaks(p[1..]), PresentPeaks(q[1..]);
      if p[0].None? {
        assert [] + s == s && [] + t == t;
      } else {
        assert ([p[0].value] + s)[0] == p[0].value && ([p[0].value] + s)[1..] == s;
        assert ([q[0].value] + t)[0] == q[0].value && ([q[0].value] + t)[1..] == t;
      }
    }
  }

  /** Without collisions among what is hashed, the super-peak of a range determines its leaves. */
  lemma SuperPeakBinds(hash: HashFn, a: seq<Digest>, b: seq<Digest>)
    requires |a| == |b| && CollisionFree(hash, Inputs(hash, a) + Inputs(hash, b))
    ensures SuperPeak(hash, PeaksOf(hash, a)) == SuperPeak(hash, PeaksOf(hash, b)) <==> a == b
  {
    var p, q, inputs := PeaksOf(hash, a), PeaksOf(hash, b), Inputs(hash, a) + Inputs(hash, b);
    if SuperPeak(hash, p) == SuperPeak(hash, q) {
      RangeCommits(hash, a);
      RangeCommits(hash, b);
      ShapeOfCount(hash, a, b);
      PresentInjective(p, q);
      FoldInjective(hash, inputs, PresentPeaks(p), PresentPeaks(q));
      PeaksInjective(hash, inputs, p, a, b, 0);
    }
  }
}
