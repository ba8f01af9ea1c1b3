/** Decoded programs: instruction boundaries, basic blocks and the gas a block costs. */
module PvmProgram {
  import opened Base

  /** A decoded blob; `blocks` holds the positions a jump may land on. */
  datatype Program = Program(code: bytes, bitmask: seq<bool>, jumpTable: seq<u64>, blocks: set<nat>)

  /** What decoding guarantees; positions fit the 32-bit program counter. */
  ghost predicate Decoded(p: Program) {
    && |p.bitmask| == |p.code|
    && |p.code| + 32 < W32
    && p.blocks == BasicBlocks(p.code, p.bitmask)
  }

  /** Block counting gives up after this many instructions. */
  const COUNT_CAP: nat := 1_000_000

  function Zeta(code: bytes, i: nat): byte {
    if i < |code| then code[i] else 0
  }

  predicate IsTerminator(op: nat) {
    op in {0, 1, 40, 50, 80, 180} || 81 <= op <= 90 || 170 <= op <= 175
  }

  predicate IsValidOpcode(op: nat) {
    || op <= 2 || op == 10 || op == 20 || 30 <= op <= 33 || op == 40 || 50 <= op <= 62
    || 70 <= op <= 73 || 80 <= op <= 90 || 100 <= op <= 111 || 120 <= op <= 161
    || 170 <= op <= 175 || op == 180 || 190 <= op <= 230
  }

  /** A position that ends an operand run: an opcode position or one past the code. */
  predicate Boundary(mask: seq<bool>, i: nat) {
    i < |mask| ==> mask[i]
  }

  /** Operand bytes after the opcode at `i`: the distance to the next boundary, at most 24. */
  function SkipFrom(mask: seq<bool>, i: nat, j: nat): nat
    requires j <= 24
    decreases 24 - j
  {
    if j == 24 || Boundary(mask, i + 1 + j) then j else SkipFrom(mask, i, j + 1)
  }

  function Skip(mask: seq<bool>, i: nat): nat {
    SkipFrom(mask, i, 0)
  }

  lemma {:induction false} SkipFromLeast(mask: seq<bool>, i: nat, j: nat)
    requires j <= 24
    ensures j <= SkipFrom(mask, i, j) <= 24
    ensures SkipFrom(mask, i, j) == 24 || Boundary(mask, i + 1 + SkipFrom(mask, i, j))
    ensures forall x | i + 1 + j <= x < i + 1 + SkipFrom(mask, i, j) :: !Boundary(mask, x)
    decreases 24 - j
  {
    if j < 24 && !Boundary(mask, i + 1 + j) {
      SkipFromLeast(mask, i, j + 1);
    }
  }

  /** `Skip` is the least distance to a boundary, or 24 when none is nearer. */
  lemma SkipLeast(mask: seq<bool>, i: nat)
    ensures Skip(mask, i) <= 24
    ensures Skip(mask, i) == 24 || Boundary(mask, i + 1 + Skip(mask, i))
    ensures forall x | i < x < i + 1 + Skip(mask, i) :: !Boundary(mask, x)
  {
    SkipFromLeast(mask, i, 0);
  }

  method ComputeSkip(mask: seq<bool>, i: nat) returns (j: nat)
    ensures j == Skip(mask, i)
  {
    j := 0;
    while j < 24
      invariant j <= 24
      invariant Skip(mask, i) == SkipFrom(mask, i, j)
    {
      if i + 1 + j >= |mask| || mask[i + 1 + j] {
        return;
      }
      j := j + 1;
    }
  }

  function NextPc(mask: seq<bool>, i: nat): (r: nat)
    ensures i < r <= i + 25
  {
    SkipLeast(mask, i);
    i + 1 + Skip(mask, i)
  }

  // ------------------------------------------------------------ basic blocks

  /** Where a block may start: past the code, or on a valid opcode. */
  predicate Markable(code: bytes, mask: seq<bool>, i: nat)
    requires |mask| == |code|
  {
    i >= |code| || (mask[i] && IsValidOpcode(code[i]))
  }

  function Mark(code: bytes, mask: seq<bool>, starts: set<nat>, i: nat): set<nat>
    requires |mask| == |code|
  {
    if Markable(code, mask, i) then starts + {i} else starts
  }

  /** Starts found after scanning the first `k` positions. */
  function StartsUpTo(code: bytes, mask: seq<bool>, k: nat): set<nat>
    requires |mask| == |code| && k <= |code|
  {
    if k == 0 then (if |code| > 0 then Mark(code, mask, {}, 0) else {})
    else
      var before := StartsUpTo(code, mask, k - 1);
      if mask[k - 1] && IsTerminator(code[k - 1]) then Mark(code, mask, before, NextPc(mask, k - 1)) else before
  }

  function BasicBlocks(code: bytes, mask: seq<bool>): set<nat>
    requires |mask| == |code|
  {
    StartsUpTo(code, mask, |code|)
  }

  method ComputeBasicBlocks(code: bytes, mask: seq<bool>) returns (starts: set<nat>)
    requires |mask| == |code|
    ensures starts == BasicBlocks(code, mask)
  {
    starts := {};
    if |code| > 0 {
      starts := Mark(code, mask, starts, 0);
    }
    var i := 0;
    while i < |code|
      invariant 0 <= i <= |code|
      invariant starts == StartsUpTo(code, mask, i)
    {
      if mask[i] && IsTerminator(code[i]) {
        var ell := ComputeSkip(mask, i);
        starts := Mark(code, mask, starts, i + 1 + ell);
      }
      i := i + 1;
    }
  }

  /** The position follows a terminator instruction. */
  ghost predicate FollowsTerminator(code: bytes, mask: seq<bool>, k: nat, i: nat)
    requires |mask| == |code| && k <= |code|
  {
    exists j :: 0 <= j < k && mask[j] && IsTerminator(code[j]) && i == NextPc(mask, j)
  }

  lemma {:induction false} StartsMeaning(code: bytes, mask: seq<bool>, k: nat, i: nat)
    requires |mask| == |code| && k <= |code|
    ensures i in StartsUpTo(code, mask, k)
       <==> Markable(code, mask, i) && ((i == 0 && |code| > 0) || FollowsTerminator(code, mask, k, i))
  {
    if k > 0 {
      StartsMeaning(code, mask, k - 1, i);
      if FollowsTerminator(code, mask, k - 1, i) {
        var j :| 0 <= j < k - 1 && mask[j] && IsTerminator(code[j]) && i == NextPc(mask, j);
        assert 0 <= j < k;
      }
    }
  }

  /** Block starts are exactly the entry and the successors of terminators, on valid opcodes or past the end. */
  lemma BasicBlocksMeaning(code: bytes, mask: seq<bool>, i: nat)
    requires |mask| == |code|
    ensures i in BasicBlocks(code, mask)
       <==> Markable(code, mask, i) && ((i == 0 && |code| > 0) || FollowsTerminator(code, mask, |code|, i))
    ensures i in BasicBlocks(code, mask) ==> i <= |code| + 24
  {
    StartsMeaning(code, mask, |code|, i);
  }

  predicate IsBlockStart(p: Program, target: int) {
    target >= 0 && target in p.blocks
  }

  /** The greatest block start at or below `pc`, or zero when there is none. */
  function BlockStartOf(p: Program, pc: nat): nat {
    if pc in p.blocks || pc == 0 then pc else BlockStartOf(p, pc - 1)
  }

  /** `BlockStartOf` is an upper bound's greatest start: nothing between it and `pc` is a start. */
  lemma {:induction false} BlockStartOfGreatest(p: Program, pc: nat)
    ensures BlockStartOf(p, pc) <= pc
    ensures forall s | s in p.blocks && s <= pc :: s <= BlockStartOf(p, pc)
    ensures BlockStartOf(p, pc) in p.blocks || BlockStartOf(p, pc) == 0
  {
    if !(pc in p.blocks || pc == 0) {
      BlockStartOfGreatest(p, pc - 1);
    }
  }

  // ------------------------------------------------------------ block cost

  /** Instructions from `pc` up to and including the next terminator; past the code every byte is a trap. */
  ghost function InstrCount(p: Program, pc: nat): nat
    decreases Max(|p.code| - pc, 0)
  {
    if IsTerminator(Zeta(p.code, pc)) then 1 else 1 + InstrCount(p, NextPc(p.bitmask, pc))
  }

  lemma {:induction false} InstrCountBound(p: Program, pc: nat)
    ensures 1 <= InstrCount(p, pc) <= Max(|p.code| - pc, 0) + 1
    decreases Max(|p.code| - pc, 0)
  {
    if !IsTerminator(Zeta(p.code, pc)) {
      InstrCountBound(p, NextPc(p.bitmask, pc));
    }
  }

  /** The charged cost: the instruction count, cut off just above the cap. */
  ghost function BlockGasCost(p: Program, start: nat): nat {
    Min(InstrCount(p, start), COUNT_CAP + 1)
  }

  method ComputeBlockGasCost(p: Program, start: nat) returns (count: nat)
    ensures count == BlockGasCost(p, start)
  {
    var pc := start;
    count := 0;
    while true
      invariant count <= COUNT_CAP
      invariant InstrCount(p, start) == count + InstrCount(p, pc)
      decreases COUNT_CAP - count
    {
      count := count + 1;
      InstrCountBound(p, pc);
      if IsTerminator(Zeta(p.code, pc)) {
        return;
      }
      var ell := ComputeSkip(p.bitmask, pc);
      pc := pc + 1 + ell;
      if count > COUNT_CAP {
        InstrCountBound(p, pc);
        return;
      }
    }
  }

  /** The count of no block is cut off. */
  ghost predicate Uncut(p: Program) {
    forall start | start in p.blocks :: InstrCount(p, start) <= COUNT_CAP + 1
  }

  /** Code of at most the cap's length is never cut off. */
  lemma CapUnreached(p: Program)
    requires |p.code| <= COUNT_CAP
    ensures Uncut(p)
  {
    forall start | start in p.blocks
      ensures InstrCount(p, start) <= COUNT_CAP + 1
    {
      InstrCountBound(p, start);
    }
  }
}
