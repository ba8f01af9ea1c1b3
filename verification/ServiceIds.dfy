/** Service-id allocation: the cyclic search for a free public id, and why handed-out ids are fresh. */
module ServiceIds {
  import opened Base

  const MIN_PUBLIC: nat := 0x1_0000
  const ID_MOD: nat := 0xFFFE_FF00
  const STRIDE: nat := 42

  predicate Public(i: int) {
    MIN_PUBLIC <= i < MIN_PUBLIC + ID_MOD
  }

  /** `k` steps along the cycle of public ids. */
  function Advance(i: nat, k: nat): (r: u32)
    requires i >= MIN_PUBLIC
    ensures Public(r)
  {
    (i - MIN_PUBLIC + k) % ID_MOD + MIN_PUBLIC
  }

  /** The public range is [2^16, 2^32 - 2^8). */
  lemma PublicRange(i: int)
    ensures Public(i) <==> 0x1_0000 <= i < W32 - 0x100
  {
  }

  /** `j` steps from `start` is the first id not in `live`. */
  predicate FirstFreeAt(start: u32, live: set<u32>, j: nat)
    requires Public(start)
  {
    && j < ID_MOD
    && Advance(start, j) !in live
    && forall k | 0 <= k < j :: Advance(start, k) in live
  }

  ghost predicate HasFree(live: set<u32>) {
    exists f: u32 :: Public(f) && f !in live
  }

  /** Steps from `i` forward to `f`. */
  ghost function Distance(i: nat, f: nat): (d: nat)
    requires Public(i) && Public(f)
    ensures d < ID_MOD
  {
    (f - i) % ID_MOD
  }

  lemma DistanceStep(i: nat, f: nat)
    requires Public(i) && Public(f) && i != f
    ensures Distance(Advance(i, 1), f) == Distance(i, f) - 1
  {
    if f > i {
    } else {
      assert (f - i + ID_MOD) % ID_MOD == f - i + ID_MOD;
      ModShift(f - i + ID_MOD, ID_MOD, -1);
    }
    if i == MIN_PUBLIC + ID_MOD - 1 {
      assert Advance(i, 1) == MIN_PUBLIC;
    } else {
      assert Advance(i, 1) == i + 1;
      if f < i {
        ModShift(f - (i + 1) + ID_MOD, ID_MOD, -1);
      }
    }
  }

  lemma AdvanceStep(start: nat, j: nat)
    requires Public(start)
    ensures Advance(start, 0) == start
    ensures Advance(Advance(start, j), 1) == Advance(start, j + 1)
  {
    var x := start - MIN_PUBLIC + j;
    SplitAt(x, ID_MOD);
    if x % ID_MOD == ID_MOD - 1 {
      QuotientUnique(x + 1, ID_MOD, x / ID_MOD + 1, 0);
    } else {
      QuotientUnique(x + 1, ID_MOD, x / ID_MOD, x % ID_MOD + 1);
    }
  }

  /** Terminates whenever some public id is free, with the first free id in cyclic order. */
  method CheckId(start: u32, live: set<u32>) returns (i: u32, ghost steps: nat)
    requires Public(start) && HasFree(live)
    ensures FirstFreeAt(start, live, steps) && i == Advance(start, steps)
    ensures Public(i) && i !in live
    ensures i == FirstFree(start, live)
  {
    ghost var f: u32 :| Public(f) && f !in live;
    i, steps := start, 0;
    AdvanceStep(start, 0);
    while i in live
      invariant Public(i) && i == Advance(start, steps)
      invariant forall k | 0 <= k < steps :: Advance(start, k) in live
      invariant steps + Distance(i, f) == Distance(start, f)
      decreases Distance(i, f)
    {
      DistanceStep(i, f);
      AdvanceStep(start, steps);
      i := (i - MIN_PUBLIC + 1) % ID_MOD + MIN_PUBLIC;
      steps := steps + 1;
    }
    FirstFreeUnique(start, live, steps);
  }

  /** The search as a function; where no public id is free the search does not return and the value is immaterial. */
  function FirstFree(start: u32, live: set<u32>): u32
    requires Public(start)
  {
    if exists j | 0 <= j < ID_MOD :: FirstFreeAt(start, live, j) then
      var j: nat :| j < ID_MOD && FirstFreeAt(start, live, j);
      Advance(start, j)
    else start
  }

  lemma FirstFreeAtUnique(start: u32, live: set<u32>, i: nat, j: nat)
    requires Public(start) && FirstFreeAt(start, live, i) && FirstFreeAt(start, live, j)
    ensures i == j
  {
    var x, y := Advance(start, i), Advance(start, j);
    assert x !in live && y !in live;
  }

  lemma FirstFreeUnique(start: u32, live: set<u32>, j: nat)
    requires Public(start) && FirstFreeAt(start, live, j)
    ensures FirstFree(start, live) == Advance(start, j)
  {
    forall i: nat | FirstFreeAt(start, live, i)
      ensures i == j
    {
      FirstFreeAtUnique(start, live, i, j);
    }
  }

  /** Whenever some public id is free the search finds a free public id. */
  lemma FirstFreeFound(start: u32, live: set<u32>)
    returns (j: nat)
    requires Public(start) && HasFree(live)
    ensures FirstFreeAt(start, live, j) && FirstFree(start, live) == Advance(start, j)
  {
    var f: u32 :| Public(f) && f !in live;
    AdvanceStep(start, 0);
    j := 0;
    while Advance(start, j) in live
      invariant j <= Distance(start, f) < ID_MOD
      invariant forall k | 0 <= k < j :: Advance(start, k) in live
      invariant j + Distance(Advance(start, j), f) == Distance(start, f)
      decreases Distance(Advance(start, j), f)
    {
      DistanceStep(Advance(start, j), f);
      AdvanceStep(start, j);
      j := j + 1;
    }
    FirstFreeUnique(start, live, j);
  }

  /** The first `m` ids from `start`; they are distinct up to a whole cycle. */
  ghost function Stretch(start: u32, m: nat): (r: set<u32>)
    requires Public(start) && m <= ID_MOD
    ensures forall x :: x in r <==> exists k :: 0 <= k < m && x == Advance(start, k)
    ensures |r| == m
  {
    if m == 0 then {}
    else
      var before := Stretch(start, m - 1);
      StretchDistinct(start, m - 1);
      before + {Advance(start, m - 1)}
  }

  lemma StretchDistinct(start: u32, m: nat)
    requires Public(start) && m < ID_MOD
    ensures forall k | 0 <= k < m :: Advance(start, k) != Advance(start, m)
  {
    forall k | 0 <= k < m
      ensures Advance(start, k) != Advance(start, m)
    {
      var a, b := start - MIN_PUBLIC + k, start - MIN_PUBLIC + m;
      SplitAt(a, ID_MOD);
      SplitAt(b, ID_MOD);
      MulMonotone(b / ID_MOD - a / ID_MOD, ID_MOD);
    }
  }

  /** Fewer live accounts than public ids leave one free. */
  lemma FewLiveLeavesFree(live: set<u32>)
    requires |live| < ID_MOD
    ensures HasFree(live)
  {
    var all := Stretch(MIN_PUBLIC, ID_MOD);
    if all <= live {
      SubsetSize(all, live);
    }
    var f :| f in all && f !in live;
    assert Public(f);
  }

  /** One of the ids from 42 steps past `next` up to, but not including, `next` itself is free. */
  ghost predicate HasRoom(next: u32, live: set<u32>)
    requires Public(next)
  {
    exists j :: 0 <= j < ID_MOD - STRIDE && Advance(Advance(next, STRIDE), j) !in live
  }

  /** The id found 42 steps past a free id `next` is always free, and it is `next` itself exactly without room. */
  lemma NextDiffersIff(next: u32, live: set<u32>)
    requires Public(next) && next !in live
    ensures var found := FirstFree(Advance(next, STRIDE), live);
            Public(found) && found !in live && (found != next <==> HasRoom(next, live))
  {
    var start := Advance(next, STRIDE);
    assert HasFree(live);
    var j := FirstFreeFound(start, live);
    if Advance(start, j) == next {
      CycleBack(next, j);
    } else if !HasRoom(next, live) {
      CycleCloses(next);
    }
  }

  /** Fewer than `ID_MOD - 42` live accounts leave room. */
  lemma FewLiveLeavesRoom(next: u32, live: set<u32>)
    requires Public(next) && |live| < ID_MOD - STRIDE
    ensures HasRoom(next, live)
  {
    var start := Advance(next, STRIDE);
    if !HasRoom(next, live) {
      SubsetSize(Stretch(start, ID_MOD - STRIDE), live);
    }
  }

  /** `ID_MOD - 42` steps from 42 steps past `next` lead back to it. */
  lemma CycleCloses(next: u32)
    requires Public(next)
    ensures Advance(Advance(next, STRIDE), ID_MOD - STRIDE) == next
  {
    var x := next - MIN_PUBLIC;
    if x + STRIDE < ID_MOD {
      QuotientUnique(x + STRIDE, ID_MOD, 0, x + STRIDE);
      QuotientUnique(x + ID_MOD, ID_MOD, 1, x);
    } else {
      QuotientUnique(x + STRIDE, ID_MOD, 1, x + STRIDE - ID_MOD);
      QuotientUnique(x, ID_MOD, 0, x);
    }
  }

  lemma CycleBack(next: u32, j: nat)
    requires Public(next) && j < ID_MOD
    requires Advance(Advance(next, STRIDE), j) == next
    ensures j == ID_MOD - STRIDE
  {
    var x := next - MIN_PUBLIC;
    if x + STRIDE < ID_MOD {
      QuotientUnique(x + STRIDE, ID_MOD, 0, x + STRIDE);
    } else {
      QuotientUnique(x + STRIDE, ID_MOD, 1, x + STRIDE - ID_MOD);
    }
    var y := (x + STRIDE) % ID_MOD;
    SplitAt(y + j, ID_MOD);
    assert (y + j) % ID_MOD == x;
    MulMonotone((y + j) / ID_MOD - 1, ID_MOD);
  }
}
