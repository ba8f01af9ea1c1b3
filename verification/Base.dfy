/** Fixed-width integers, byte strings, and sums over finite maps, shared by every module. */
module Base {

  type byte = x: int | 0 <= x < 0x100
  type u32 = x: int | 0 <= x < 0x1_0000_0000
  type u64 = x: int | 0 <= x < 0x1_0000_0000_0000_0000
  type bytes = seq<byte>

  /** The result of a 256-bit hash function. */
  type Digest = b: bytes | |b| == 32 witness seq(32, _ => 0)
  type HashFn = bytes -> Digest

  const ZERO: Digest := seq(32, _ => 0)

  const W32: int := 0x1_0000_0000
  const W64: int := 0x1_0000_0000_0000_0000
  const U64_MAX: u64 := 0xffff_ffff_ffff_ffff

  datatype Option<+T> = None | Some(value: T)

  function Min(x: int, y: int): int {
    if x < y then x else y
  }

  function Max(x: int, y: int): int {
    if x < y then y else x
  }

  /** Saturating subtraction of naturals. */
  function SatSub(x: nat, y: nat): nat {
    if x < y then 0 else x - y
  }

  function Pow2(n: nat): (r: nat)
    ensures r > 0
  {
    if n == 0 then 1 else 2 * Pow2(n - 1)
  }

  function Pow256(n: nat): (r: nat)
    ensures r > 0
  {
    if n == 0 then 1 else 256 * Pow256(n - 1)
  }

  /** Slots per epoch, and buckets in each ring. */
  const EPOCH: nat := 12

  const VALIDATORS_COUNT: nat := 6

  /** `256^n` for the widths of an integer. */
  function Width(n: nat): (r: nat)
    requires 1 <= n <= 8
    ensures r == Pow256(n) && 256 <= r && (n < 8 ==> r <= 0x100_0000_0000_0000)
  {
    match n
    case 1 => 0x100
    case 2 => 0x1_0000
    case 3 => 0x100_0000
    case 4 => 0x1_0000_0000
    case 5 => assert Pow256(5) == 256 * Pow256(4); 0x100_0000_0000
    case 6 => assert Pow256(6) == 256 * (256 * Pow256(4)); 0x1_0000_0000_0000
    case 7 => assert Pow256(7) == 256 * (256 * (256 * Pow256(4))); 0x100_0000_0000_0000
    case 8 => assert Pow256(8) == 256 * (256 * (256 * (256 * Pow256(4)))); W64
  }

  /** Two's-complement reading of a `w`-valued word (`as i32`, `as i64`). */
  function Signed(w: nat, x: nat): int
    requires x < w
  {
    if x < w / 2 then x else x - w
  }

  function AsI64(x: u64): int {
    Signed(W64, x)
  }

  /** Little-endian value of the `n` bytes at `off`. */
  function LE(b: bytes, off: nat, n: nat): (r: nat)
    requires off + n <= |b|
    ensures r < Pow256(n)
  {
    if n == 0 then 0
    else
      DigitBound(LE(b, off, n - 1), b[off + n - 1], Pow256(n - 1));
      LE(b, off, n - 1) + b[off + n - 1] * Pow256(n - 1)
  }

  /** The low `len` bytes of a number, least significant first. */
  function LowBytes(n: nat, len: nat): (r: bytes)
    ensures |r| == len
  {
    if len == 0 then [] else LowBytes(n, len - 1) + [n / Pow256(len - 1) % 256]
  }

  /** The four bytes of a 32-bit number. */
  lemma FourBytes(n: u32)
    ensures LowBytes(n, 4) == [n % 256, n / 0x100 % 256, n / 0x1_0000 % 256, n / 0x100_0000]
  {
    assert Width(1) == Pow256(1) && Width(2) == Pow256(2) && Width(3) == Pow256(3);
    assert LowBytes(n, 1) == [n % 256];
    assert LowBytes(n, 2) == LowBytes(n, 1) + [n / 0x100 % 256];
    assert LowBytes(n, 3) == LowBytes(n, 2) + [n / 0x1_0000 % 256];
  }

  lemma DigitBound(low: nat, digit: byte, p: nat)
    requires low < p
    ensures low + digit * p < 256 * p
  {
    assert (255 - digit) * p >= 0;
  }

  /** No two of these inputs have the same hash. */
  ghost predicate CollisionFree(hash: HashFn, inputs: set<bytes>) {
    forall x, y | x in inputs && y in inputs && hash(x) == hash(y) :: x == y
  }

  /** Least `m` with `m * d >= n`, for positive `d`. */
  function DivCeil(n: nat, d: nat): nat
    requires d > 0
  {
    (n + d - 1) / d
  }

  /** The sum of a weight over the entries of a map. */
  ghost function MapSum<K(!new), V(!new)>(m: map<K, V>, w: (K, V) -> int): int
    decreases m.Keys
  {
    if m.Keys == {} then 0 else
      var k :| k in m;
      w(k, m[k]) + MapSum(m - {k}, w)
  }

  /** Any entry may be split off the sum, not only the one the recursion picks. */
  lemma {:induction false} MapSumSplit<K(!new), V(!new)>(m: map<K, V>, w: (K, V) -> int, k: K)
    requires k in m
    ensures MapSum(m, w) == w(k, m[k]) + MapSum(m - {k}, w)
    decreases m.Keys
  {
    var j :| j in m && MapSum(m, w) == w(j, m[j]) + MapSum(m - {j}, w);
    if j != k {
      var mj, mk := m - {j}, m - {k};
      MapSumSplit(mj, w, k);
      MapSumSplit(mk, w, j);
      assert mj - {k} == mk - {j};
    }
  }

  lemma MapSumInsert<K(!new), V(!new)>(m: map<K, V>, w: (K, V) -> int, k: K, v: V)
    ensures MapSum(m[k := v], w)
         == MapSum(m, w) + w(k, v) - if k in m then w(k, m[k]) else 0
  {
    MapSumSplit(m[k := v], w, k);
    if k in m {
      MapSumSplit(m, w, k);
      assert m[k := v] - {k} == m - {k};
    } else {
      assert m[k := v] - {k} == m;
    }
  }

  lemma MapSumRemove<K(!new), V(!new)>(m: map<K, V>, w: (K, V) -> int, k: K)
    ensures MapSum(m - {k}, w) == MapSum(m, w) - if k in m then w(k, m[k]) else 0
  {
    if k in m {
      MapSumSplit(m, w, k);
    } else {
      assert m - {k} == m;
    }
  }

  lemma {:induction false} MapSumNonNegative<K(!new), V(!new)>(m: map<K, V>, w: (K, V) -> int)
    requires forall k | k in m :: w(k, m[k]) >= 0
    ensures MapSum(m, w) >= 0
    decreases m.Keys
  {
    if m.Keys != {} {
      var j :| j in m && MapSum(m, w) == w(j, m[j]) + MapSum(m - {j}, w);
      MapSumNonNegative(m - {j}, w);
    }
  }

  /** Entries of weight zero may be added or dropped freely. */
  lemma {:induction false} MapSumRestrict<K(!new), V(!new)>(m: map<K, V>, n: map<K, V>, w: (K, V) -> int)
    requires n.Keys <= m.Keys
    requires forall k | k in n :: n[k] == m[k]
    requires forall k | k in m && k !in n :: w(k, m[k]) == 0
    ensures MapSum(m, w) == MapSum(n, w)
    decreases m.Keys
  {
    if m.Keys == n.Keys {
      assert m == n;
    } else {
      var j :| j in m && j !in n;
      MapSumSplit(m, w, j);
      MapSumRestrict(m - {j}, n, w);
    }
  }

  /** The `n` consecutive integers from `lo`. */
  ghost function Interval(lo: int, n: nat): (r: set<int>)
    ensures forall x: int :: x in r <==> lo <= x < lo + n
    ensures |r| == n
  {
    if n == 0 then {} else Interval(lo, n - 1) + {lo + n - 1}
  }

  lemma {:induction false} SubsetSize<T>(a: set<T>, b: set<T>)
    requires a <= b
    ensures |a| <= |b|
    decreases a
  {
    if a != {} {
      var x :| x in a;
      SubsetSize(a - {x}, b - {x});
    }
  }

  // ------------------------------------------------------------ arithmetic

  lemma MulMonotone(k: int, w: int)
    requires w >= 0
    ensures k >= 1 ==> k * w >= w
    ensures k <= -1 ==> k * w <= -w
  {
    if k >= 1 {
      assert (k - 1) * w >= 0;
    } else if k <= -1 {
      assert (-k - 1) * w >= 0;
    }
  }

  lemma {:induction false} ModShift(x: int, w: nat, k: int)
    requires 0 <= x < w
    ensures (x + k * w) % w == x
  {
    var q, r := (x + k * w) / w, (x + k * w) % w;
    assert x + k * w == q * w + r;
    assert (q - k) * w == x - r;
    MulMonotone(q - k, w);
  }

  /** Splitting a number at `w`: its floor quotient and remainder. */
  lemma SplitAt(p: int, w: nat)
    requires w > 0
    ensures p / w * w + p % w == p && 0 <= p % w < w
  {
  }

  /** Quotient and remainder are the only pair that fits. */
  lemma QuotientUnique(v: int, w: nat, q: int, r: int)
    requires 0 <= r < w && v == q * w + r
    ensures v % w == r && v / w == q
  {
    ModShift(r, w, q);
    SplitAt(v, w);
    assert (v / w - q) * w == 0;
    MulMonotone(v / w - q, w);
  }

  /** Regrouping a base-256 digit with what lies below it. */
  lemma Recompose(p: nat, hi: int, e: nat, low: nat)
    requires low < p && e < 256
    ensures (hi * 256 + e) * p + low == hi * (256 * p) + (low + e * p)
    ensures 0 <= low + e * p < 256 * p
  {
    assert (255 - e) * p >= 0;
    assert e * p >= 0;
  }

  lemma DivStep(v: nat, p: nat)
    requires p > 0
    ensures v / p / 256 == v / (256 * p)
  {
    var d, low := v / p, v % p;
    var hi, e := d / 256, d % 256;
    SplitAt(v, p);
    SplitAt(d, 256);
    Recompose(p, hi, e, low);
    var w, r := 256 * p, low + e * p;
    QuotientUnique(v, w, hi, r);
  }

  /** One more base-256 digit extends a remainder. */
  lemma DigitStep(v: nat, p: nat)
    requires p > 0
    ensures v % p + (v / p % 256) * p == v % (256 * p)
  {
    var d, low := v / p, v % p;
    var hi, e := d / 256, d % 256;
    SplitAt(v, p);
    SplitAt(d, 256);
    Recompose(p, hi, e, low);
    var w, r := 256 * p, low + e * p;
    QuotientUnique(v, w, hi, r);
  }
}
