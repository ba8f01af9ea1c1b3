/**
 * What each class of instructions does, in terms of the code bytes, the registers and the memory: where
 * control goes, which register or bytes change, and what stays. Immediates and memory words are read here
 * byte by byte from the low end.
 */
module PvmLaws {
  import opened Base
  import opened PvmArith
  import opened PagedMemory
  import opened PvmProgram
  import opened PvmExecute
  import opened PvmGas

  // ------------------------------------------------------------ operands

  /** A code byte; past the end of the code every byte is zero. */
  function CodeByte(p: Program, i: nat): byte {
    if i < |p.code| then p.code[i] else 0
  }

  /** The number these bytes make, low byte first. */
  function Word(b: bytes): nat {
    if b == [] then 0 else b[0] + 256 * Word(b[1..])
  }

  function CodeBytes(p: Program, at: nat, n: nat): (r: bytes)
    ensures |r| == n && forall k | 0 <= k < n :: r[k] == CodeByte(p, at + k)
  {
    seq<byte>(n, k requires 0 <= k < n => CodeByte(p, at + k))
  }

  /** Addresses wrap at 2^32. */
  function MemBytes(m: Mem, at: nat, n: nat): (r: bytes)
    ensures |r| == n && forall k | 0 <= k < n :: r[k] == ByteAt(m, (at + k) % W32)
  {
    seq<byte>(n, k requires 0 <= k < n => ByteAt(m, (at + k) % W32))
  }

  /** The number in `n` bytes of code. */
  function CodeWord(p: Program, at: nat, n: nat): nat {
    Word(CodeBytes(p, at, n))
  }

  /** The number in `n` bytes of memory. */
  function MemWord(m: Mem, at: nat, n: nat): nat {
    Word(MemBytes(m, at, n))
  }

  /** A number below 256^n read as two's complement. */
  function TwosComplement(x: nat, n: nat): int {
    if n > 0 && 2 * x >= Pow256(n) then x - Pow256(n) else x
  }

  /** The sign-extended immediate in `n` bytes of code. */
  function SignedImm(p: Program, at: nat, n: nat): int {
    TwosComplement(CodeWord(p, at, n), n)
  }

  /** A signed number as a 64-bit register holds it. */
  function Wrap(x: int): u64 {
    x % W64
  }

  lemma {:induction false} WordTop(b: bytes, top: byte)
    ensures Word(b + [top]) == Word(b) + top * Pow256(|b|)
    decreases |b|
  {
    if b == [] {
      assert Word([]) == 0;
    } else {
      WordTop(b[1..], top);
      assert (b + [top])[1..] == b[1..] + [top];
    }
  }

  lemma {:induction false} CodeWordIs(p: Program, at: nat, n: nat)
    ensures DecodeLE(p.code, at, n) == CodeWord(p, at, n) < Pow256(n)
    decreases n
  {
    if n > 0 {
      CodeWordIs(p, at, n - 1);
      WordTop(CodeBytes(p, at, n - 1), CodeByte(p, at + n - 1));
      assert CodeBytes(p, at, n) == CodeBytes(p, at, n - 1) + [CodeByte(p, at + n - 1)];
    }
  }

  lemma MemBytesTop(m: Mem, at: nat, n: nat)
    requires n > 0
    ensures MemBytes(m, at, n) == MemBytes(m, at, n - 1) + [ByteAt(m, Addr(at, n - 1))]
  {
  }

  lemma {:induction false} MemWordIs(m: Mem, at: nat, n: nat)
    ensures ReadLE(m, at, n) == MemWord(m, at, n) < Pow256(n)
    decreases n
  {
    if n > 0 {
      var top := ByteAt(m, Addr(at, n - 1));
      MemWordIs(m, at, n - 1);
      MemBytesTop(m, at, n);
      WordTop(MemBytes(m, at, n - 1), top);
      DigitBound(MemWord(m, at, n - 1), top, Pow256(n - 1));
    }
  }

  /** Sign extension keeps the two's-complement reading. */
  lemma SextKeepsSign(n: nat, x: u64)
    requires n <= 8 && x < Pow256(n)
    ensures Sext(n, x) == Wrap(TwosComplement(x, n)) && Signed(W64, Sext(n, x)) == TwosComplement(x, n)
  {
    Pow256Eight();
    if 0 < n < 8 {
      EvenWidth(n);
      QuotientUnique(x, Width(n), 0, x);
      SextWraps(Width(n), x);
    } else if n == 8 {
      SextWraps(W64, x);
    }
  }

  lemma SextWraps(m: nat, x: nat)
    requires x < m <= W64 && m % 2 == 0
    ensures var high := x >= m / 2; var y := if high then x - m else x;
            && (high <==> 2 * x >= m)
            && y % W64 == (if high then x + (W64 - m) else x)
            && Signed(W64, y % W64) == y
  {
  }

  lemma EvenWidth(n: nat)
    requires n > 0
    ensures Pow256(n) % 2 == 0
  {
    assert Pow256(n) == 2 * (128 * Pow256(n - 1));
  }

  lemma ImmIs(p: Program, at: nat, n: nat)
    requires n <= 4
    ensures Imm(p.code, at, n) == Wrap(SignedImm(p, at, n)) && AsI64(Imm(p.code, at, n)) == SignedImm(p, at, n)
  {
    CodeWordIs(p, at, n);
    Pow256Monotone(n, 4);
    Pow256Eight();
    SextKeepsSign(n, CodeWord(p, at, n));
  }

  // ------------------------------------------------------------ the machine at an instruction

  /** The opcode at the program counter, and the operand bytes that follow it. */
  function OpAt(p: Program, s: State): byte { CodeByte(p, s.pc) }
  function OperandBytes(p: Program, s: State): nat { Skip(p.bitmask, s.pc) }
  function After1(p: Program, s: State): nat { s.pc + 1 + OperandBytes(p, s) }

  /** Register numbers above 12 name register 12. */
  function RegNo(x: nat): nat { if x > 12 then 12 else x }

  /** Low and high nibble of the first operand byte, and the second operand byte, as register numbers. */
  function LowReg(p: Program, s: State): nat { RegNo(CodeByte(p, s.pc + 1) % 16) }
  function HighReg(p: Program, s: State): nat { RegNo(CodeByte(p, s.pc + 1) / 16) }
  function ThirdReg(p: Program, s: State): nat { RegNo(CodeByte(p, s.pc + 2)) }

  function Value(s: State, r: nat): u64
    requires r < 13
  {
    s.cpu.regs[r]
  }

  function UpTo4(n: int): nat { if n < 0 then 0 else if n > 4 then 4 else n }

  /** The immediate that takes the rest of the operands after one byte. */
  function RestImm(p: Program, s: State): int {
    SignedImm(p, s.pc + 2, UpTo4(OperandBytes(p, s) - 1))
  }

  /** The first of two immediates, `lx` bytes long, and the second, which takes the rest. */
  function FirstImm(p: Program, s: State, head: nat, lx: nat): int {
    SignedImm(p, s.pc + 1 + head, lx)
  }

  function SecondImm(p: Program, s: State, head: nat, lx: nat): int {
    SignedImm(p, s.pc + 1 + head + lx, UpTo4(OperandBytes(p, s) - lx - head))
  }

  /** The same immediates as the interpreter decodes them. */
  function RawRest(p: Program, s: State): u64 {
    Imm(p.code, s.pc + 2, Min(SatSub(OperandBytes(p, s), 1), 4))
  }

  function RawPair(p: Program, s: State, head: nat, lx: nat): (u64, u64)
    requires lx <= 4
  {
    ImmPair(p.code, s.pc + 1 + head, lx, OperandBytes(p, s), head)
  }

  lemma RestIs(p: Program, s: State)
    ensures RawRest(p, s) == Wrap(RestImm(p, s)) && AsI64(RawRest(p, s)) == RestImm(p, s)
  {
    assert Min(SatSub(OperandBytes(p, s), 1), 4) == UpTo4(OperandBytes(p, s) - 1);
    ImmIs(p, s.pc + 2, UpTo4(OperandBytes(p, s) - 1));
  }

  lemma PairIs(p: Program, s: State, head: nat, lx: nat)
    requires lx <= 4
    ensures RawPair(p, s, head, lx).0 == Wrap(FirstImm(p, s, head, lx))
    ensures RawPair(p, s, head, lx).1 == Wrap(SecondImm(p, s, head, lx))
    ensures AsI64(RawPair(p, s, head, lx).1) == SecondImm(p, s, head, lx)
  {
    var ly := UpTo4(OperandBytes(p, s) - lx - head);
    assert Min(SatSub(OperandBytes(p, s), lx + head), 4) == ly;
    ImmIs(p, s.pc + 1 + head, lx);
    ImmIs(p, s.pc + 1 + head + lx, ly);
  }

  /** The interpreter's register numbers and splits are those above. */
  lemma OperandsAre(p: Program, s: State)
    ensures Ra(p.code, s.pc) == LowReg(p, s) && Rb(p.code, s.pc) == HighReg(p, s) && Rd(p.code, s.pc) == ThirdReg(p, s)
    ensures Min(Zeta(p.code, s.pc + 1) / 16 % 8, 4) == OffsetSplit(p, s)
    ensures Min(Zeta(p.code, s.pc + 2) % 8, 4) == LoadJumpSplit(p, s)
  {
  }

  ghost predicate IsStart(p: Program, x: int) {
    x >= 0 && x in p.blocks
  }

  /** The machine executes its instruction: the block gate lets it. */
  ghost predicate Executes(p: Program, s: State) {
    s.charged || s.gas >= BlockGasCost(p, BlockStartOf(p, s.pc))
  }

  /** What the outcome of the instruction means for the machine. */
  lemma OutcomeLaw(p: Program, ex: Exec, s: State)
    requires Executes(p, s)
    ensures var (act, cpu) := RunOp(p, ex, s.pc, s.cpu); var (t, e) := Step(p, ex, s);
            && t.cpu == cpu
            && match act
               case Next => e == Running && t.pc == After1(p, s) % W32
               case JumpTo(target) => e == Running && t.pc == target && !t.charged
               case HaltNow => e == Halt && t.pc == s.pc
               case PanicNow => e == Panic && t.pc == s.pc
               case FaultAt(a) => e == PageFault(a) && t.pc == s.pc
               case CallHost(id) => e == HostCall(id) && t.pc == s.pc
  {
  }

  ghost function Ran(p: Program, alu: Alu, s: State): (Action, Cpu) {
    RunOp(p, Semantics(p, alu), s.pc, s.cpu)
  }

  // ------------------------------------------------------------ control flow

  /** When a branch is taken, on its two operands. */
  predicate Holds(op: byte, a: u64, b: u64) {
    var x := if a < 0x8000_0000_0000_0000 then a else a - 0x1_0000_0000_0000_0000;
    var y := if b < 0x8000_0000_0000_0000 then b else b - 0x1_0000_0000_0000_0000;
    match op
    case 81 => a == b
    case 82 => a != b
    case 83 => a < b
    case 84 => a <= b
    case 85 => a >= b
    case 86 => a > b
    case 87 => x < y
    case 88 => x <= y
    case 89 => x >= y
    case 90 => x > y
    case 170 => a == b
    case 171 => a != b
    case 172 => a < b
    case 173 => x < y
    case 174 => a >= b
    case 175 => x >= y
    case _ => false
  }

  ghost predicate IsBranch(op: byte) {
    81 <= op <= 90 || 170 <= op <= 175
  }

  /** Bytes of the first immediate of the opcodes 80 to 90. */
  function OffsetSplit(p: Program, s: State): nat {
    UpTo4(CodeByte(p, s.pc + 1) / 16 % 8)
  }

  function BranchOperand(p: Program, s: State): u64 {
    if OpAt(p, s) <= 90 then Wrap(FirstImm(p, s, 1, OffsetSplit(p, s))) else Value(s, HighReg(p, s))
  }

  function BranchTarget(p: Program, s: State): int {
    s.pc + if OpAt(p, s) <= 90 then SecondImm(p, s, 1, OffsetSplit(p, s)) else RestImm(p, s)
  }

  lemma BlocksFit(p: Program, x: int)
    requires Decoded(p) && IsStart(p, x)
    ensures x < W32
  {
    BasicBlocksMeaning(p.code, p.bitmask, x);
  }

  /** The instruction groups by opcode. */
  lemma OffsetGroup(p: Program, alu: Alu, s: State)
    requires 80 <= OpAt(p, s) <= 90
    ensures Ran(p, alu, s) == ExecRegImmOffset(p, OpAt(p, s), s.pc, OperandBytes(p, s), s.cpu)
  {
  }

  lemma RegImmGroup(p: Program, alu: Alu, s: State)
    requires 50 <= OpAt(p, s) <= 62
    ensures Ran(p, alu, s) == ExecRegImm(p, OpAt(p, s), s.pc, OperandBytes(p, s), s.cpu)
  {
  }

  lemma TwoRegImmGroup(p: Program, alu: Alu, s: State)
    requires 120 <= OpAt(p, s) <= 161
    ensures Ran(p, alu, s) == ExecTwoRegImm(p, alu, OpAt(p, s), s.pc, OperandBytes(p, s), s.cpu)
  {
  }

  lemma StoreImmGroup(p: Program, alu: Alu, s: State)
    requires 30 <= OpAt(p, s) <= 33 || 70 <= OpAt(p, s) <= 73
    ensures Ran(p, alu, s) == ExecStoreImm(p, OpAt(p, s), s.pc, OperandBytes(p, s), s.cpu)
  {
  }

  lemma BranchRegGroup(p: Program, alu: Alu, s: State)
    requires 170 <= OpAt(p, s) <= 175
    ensures Ran(p, alu, s) == ExecBranchReg(p, OpAt(p, s), s.pc, OperandBytes(p, s), s.cpu)
  {
  }

  lemma LoadJumpGroup(p: Program, alu: Alu, s: State)
    requires OpAt(p, s) == 180
    ensures Ran(p, alu, s) == ExecLoadJump(p, s.pc, OperandBytes(p, s), s.cpu)
  {
  }

  /** What a branch does once its operands are known. */
  ghost function BranchTo(p: Program, target: int, fall: nat, taken: bool): Action {
    if !IsStart(p, target) || !IsStart(p, fall) then PanicNow else if taken then JumpTo(target % W32) else Next
  }

  lemma BranchOutcome(p: Program, ex: Exec, s: State, target: int, taken: bool)
    requires Decoded(p) && Executes(p, s)
    requires RunOp(p, ex, s.pc, s.cpu) == (BranchTo(p, target, After1(p, s), taken), s.cpu)
    requires IsTerminator(OpAt(p, s))
    ensures var (t, e) := Step(p, ex, s);
            && t.cpu == s.cpu
            && if IsStart(p, target) && IsStart(p, After1(p, s))
               then e == Running && !t.charged && t.pc == if taken then target else After1(p, s)
               else e == Panic && t.pc == s.pc
  {
    OutcomeLaw(p, ex, s);
    if IsStart(p, target) && IsStart(p, After1(p, s)) {
      BlocksFit(p, target);
      BlocksFit(p, After1(p, s));
    }
  }

  /**
   * A conditional branch compares the register in the low nibble with an immediate or with the register in
   * the high nibble. Where both its target and its fall-through start blocks, it goes to the target if and
   * only if the comparison holds, and otherwise falls through; where one does not, it panics.
   */
  lemma BranchLaw(p: Program, alu: Alu, s: State)
    requires Decoded(p) && IsBranch(OpAt(p, s)) && Executes(p, s)
    ensures var (t, e) := Step(p, Semantics(p, alu), s); var target := BranchTarget(p, s);
            && t.cpu == s.cpu
            && if IsStart(p, target) && IsStart(p, After1(p, s))
               then && e == Running && !t.charged
                    && t.pc == if Holds(OpAt(p, s), Value(s, LowReg(p, s)), BranchOperand(p, s)) then target
                               else After1(p, s)
               else e == Panic && t.pc == s.pc
  {
    if OpAt(p, s) <= 90 {
      BranchImmAction(p, alu, s);
    } else {
      BranchRegAction(p, alu, s);
    }
    BranchOutcome(p, Semantics(p, alu), s, BranchTarget(p, s),
                  Holds(OpAt(p, s), Value(s, LowReg(p, s)), BranchOperand(p, s)));
  }

  /** A branch's action, on the operands written out. */
  ghost function BranchResult(p: Program, s: State): (Action, Cpu) {
    var taken := Holds(OpAt(p, s), Value(s, LowReg(p, s)), BranchOperand(p, s));
    (BranchTo(p, BranchTarget(p, s), After1(p, s), taken), s.cpu)
  }

  lemma BranchImmAction(p: Program, alu: Alu, s: State)
    requires 81 <= OpAt(p, s) <= 90
    ensures Ran(p, alu, s) == BranchResult(p, s)
  {
    OffsetGroup(p, alu, s);
    BranchImmIs(p, s);
  }

  lemma BranchImmIs(p: Program, s: State)
    requires 81 <= OpAt(p, s) <= 90
    ensures ExecRegImmOffset(p, OpAt(p, s), s.pc, OperandBytes(p, s), s.cpu) == BranchResult(p, s)
  {
    OffsetShape(p, s);
    PairIs(p, s, 1, OffsetSplit(p, s));
    ImmComparison(OpAt(p, s), Value(s, LowReg(p, s)), BranchOperand(p, s));
  }

  lemma OffsetShape(p: Program, s: State)
    requires 80 <= OpAt(p, s) <= 90
    ensures var op, a, lx := OpAt(p, s), Value(s, LowReg(p, s)), OffsetSplit(p, s);
            var target, imm := s.pc + AsI64(RawPair(p, s, 1, lx).1), RawPair(p, s, 1, lx).0;
            ExecRegImmOffset(p, op, s.pc, OperandBytes(p, s), s.cpu)
            == if op == 80 then (Jump(p, target), SetReg(s.cpu, LowReg(p, s), imm))
               else (BranchTo(p, target, After1(p, s), BranchImmTaken(op, a, imm)), s.cpu)
  {
    OperandsAre(p, s);
  }

  lemma ImmComparison(op: byte, a: u64, b: u64)
    requires 81 <= op <= 90
    ensures BranchImmTaken(op, a, b) <==> Holds(op, a, b)
  {
  }

  lemma RegComparison(op: byte, a: u64, b: u64)
    requires 170 <= op <= 175
    ensures BranchRegTaken(op, a, b) <==> Holds(op, a, b)
  {
  }

  lemma BranchRegAction(p: Program, alu: Alu, s: State)
    requires 170 <= OpAt(p, s) <= 175
    ensures Ran(p, alu, s) == BranchResult(p, s)
  {
    BranchRegGroup(p, alu, s);
    BranchRegIs(p, s);
  }

  lemma BranchRegIs(p: Program, s: State)
    requires 170 <= OpAt(p, s) <= 175
    ensures ExecBranchReg(p, OpAt(p, s), s.pc, OperandBytes(p, s), s.cpu) == BranchResult(p, s)
  {
    BranchRegShape(p, s);
    RestIs(p, s);
    RegComparison(OpAt(p, s), Value(s, LowReg(p, s)), Value(s, HighReg(p, s)));
  }

  lemma BranchRegShape(p: Program, s: State)
    requires 170 <= OpAt(p, s) <= 175
    ensures var taken := BranchRegTaken(OpAt(p, s), Value(s, LowReg(p, s)), Value(s, HighReg(p, s)));
            ExecBranchReg(p, OpAt(p, s), s.pc, OperandBytes(p, s), s.cpu)
            == (BranchTo(p, s.pc + AsI64(RawRest(p, s)), After1(p, s), taken), s.cpu)
  {
    OperandsAre(p, s);
  }

  /** Where the opcodes 1, 40 and 80 jump: to the next instruction, or to an offset from this one. */
  function JumpTarget(p: Program, s: State): int {
    if OpAt(p, s) == 1 then After1(p, s)
    else if OpAt(p, s) == 40 then s.pc + SignedImm(p, s.pc + 1, UpTo4(OperandBytes(p, s)))
    else s.pc + SecondImm(p, s, 1, OffsetSplit(p, s))
  }

  /** The registers after a jump: only opcode 80 changes one, to an immediate. */
  ghost function JumpCpu(p: Program, s: State): Cpu {
    if OpAt(p, s) == 80 then SetReg(s.cpu, LowReg(p, s), Wrap(FirstImm(p, s, 1, OffsetSplit(p, s)))) else s.cpu
  }

  /** A jump goes to its target if that starts a block and panics if not. */
  lemma JumpLaw(p: Program, alu: Alu, s: State)
    requires Decoded(p) && OpAt(p, s) in {1, 40, 80} && Executes(p, s)
    ensures var (t, e) := Step(p, Semantics(p, alu), s);
            && t.cpu == JumpCpu(p, s)
            && if IsStart(p, JumpTarget(p, s)) then e == Running && t.pc == JumpTarget(p, s) && !t.charged
               else e == Panic
  {
    JumpAction(p, alu, s);
    JumpOutcome(p, Semantics(p, alu), s, JumpTarget(p, s));
  }

  lemma JumpAction(p: Program, alu: Alu, s: State)
    requires OpAt(p, s) in {1, 40, 80}
    ensures Ran(p, alu, s) == (Jump(p, JumpTarget(p, s)), JumpCpu(p, s))
  {
    if OpAt(p, s) == 80 {
      OffsetGroup(p, alu, s);
      LoadAndJumpIs(p, s);
    } else {
      RelativeShape(p, alu, s);
      ImmIs(p, s.pc + 1, UpTo4(OperandBytes(p, s)));
    }
  }

  lemma LoadAndJumpIs(p: Program, s: State)
    requires OpAt(p, s) == 80
    ensures ExecRegImmOffset(p, 80, s.pc, OperandBytes(p, s), s.cpu) == (Jump(p, JumpTarget(p, s)), JumpCpu(p, s))
  {
    OffsetShape(p, s);
    PairIs(p, s, 1, OffsetSplit(p, s));
  }

  lemma RelativeShape(p: Program, alu: Alu, s: State)
    requires OpAt(p, s) in {1, 40}
    ensures var offset := AsI64(Imm(p.code, s.pc + 1, UpTo4(OperandBytes(p, s))));
            Ran(p, alu, s) == (Jump(p, if OpAt(p, s) == 1 then After1(p, s) else s.pc + offset), s.cpu)
  {
  }

  lemma JumpOutcome(p: Program, ex: Exec, s: State, target: int)
    requires Decoded(p) && Executes(p, s) && RunOp(p, ex, s.pc, s.cpu).0 == Jump(p, target)
    ensures var (t, e) := Step(p, ex, s);
            && t.cpu == RunOp(p, ex, s.pc, s.cpu).1
            && if IsStart(p, target) then e == Running && t.pc == target && !t.charged else e == Panic
  {
    OutcomeLaw(p, ex, s);
    if IsStart(p, target) {
      BlocksFit(p, target);
    }
  }

  /** Bytes of the first immediate of opcode 180. */
  function LoadJumpSplit(p: Program, s: State): nat {
    UpTo4(CodeByte(p, s.pc + 2) % 8)
  }

  /** The address a dynamic jump is given: the low 32 bits of a register and an immediate. */
  function DynamicAddress(p: Program, s: State): nat {
    if OpAt(p, s) == 50 then (Value(s, LowReg(p, s)) + RestImm(p, s)) % W32
    else (Value(s, HighReg(p, s)) + SecondImm(p, s, 2, LoadJumpSplit(p, s))) % W32
  }

  /** The block start an address stands for: entry `k` of the jump table for `2 * (k + 1)`. */
  ghost predicate Designates(p: Program, address: nat, target: int) {
    && IsStart(p, target)
    && exists k :: 0 <= k < |p.jumpTable| && address == 2 * (k + 1) && target == Signed(W64, p.jumpTable[k])
  }

  lemma SumWraps(x: u64, y: int)
    ensures WrappingAdd(x, Wrap(y)) % W32 == (x + y) % W32
  {
  }

  /**
   * A dynamic jump halts at the address 2^32 - 2^16 and nowhere else; otherwise it goes to the block start
   * the jump table gives for the address, and panics when it gives none. Opcode 180 also loads an immediate.
   */
  lemma DynamicJumpLaw(p: Program, alu: Alu, s: State, target: int)
    requires Decoded(p) && OpAt(p, s) in {50, 180} && Executes(p, s)
    ensures var (t, e) := Step(p, Semantics(p, alu), s); var address := DynamicAddress(p, s);
            && t.cpu == LoadJumpCpu(p, s)
            && (e == Halt <==> address == 0xffff_0000)
            && (e == Running && t.pc == target <==> address != 0xffff_0000 && Designates(p, address, target))
            && (e == Running ==> IsStart(p, t.pc) && !t.charged)
            && (e == Halt || e == Running || e == Panic)
  {
    DynamicAction(p, alu, s);
    OutcomeLaw(p, Semantics(p, alu), s);
    TableLaw(p, DynamicAddress(p, s), target);
  }

  lemma DynamicAction(p: Program, alu: Alu, s: State)
    requires OpAt(p, s) in {50, 180}
    ensures Ran(p, alu, s) == (DynamicJump(p, DynamicAddress(p, s)), LoadJumpCpu(p, s))
  {
    if OpAt(p, s) == 50 {
      RegImmGroup(p, alu, s);
      JumpIndirectIs(p, s);
    } else {
      LoadJumpGroup(p, alu, s);
      LoadJumpIs(p, s);
    }
  }

  lemma JumpIndirectIs(p: Program, s: State)
    requires OpAt(p, s) == 50
    ensures ExecRegImm(p, 50, s.pc, OperandBytes(p, s), s.cpu) == (DynamicJump(p, DynamicAddress(p, s)), s.cpu)
  {
    JumpIndirectShape(p, s);
    RestIs(p, s);
    SumWraps(Value(s, LowReg(p, s)), RestImm(p, s));
  }

  lemma JumpIndirectShape(p: Program, s: State)
    requires OpAt(p, s) == 50
    ensures ExecRegImm(p, 50, s.pc, OperandBytes(p, s), s.cpu)
         == (DynamicJump(p, WrappingAdd(Value(s, LowReg(p, s)), RawRest(p, s)) % W32), s.cpu)
  {
    OperandsAre(p, s);
  }

  lemma LoadJumpIs(p: Program, s: State)
    requires OpAt(p, s) == 180
    ensures ExecLoadJump(p, s.pc, OperandBytes(p, s), s.cpu)
         == (DynamicJump(p, DynamicAddress(p, s)), LoadJumpCpu(p, s))
  {
    LoadJumpShape(p, s);
    PairIs(p, s, 2, LoadJumpSplit(p, s));
    SumWraps(Value(s, HighReg(p, s)), SecondImm(p, s, 2, LoadJumpSplit(p, s)));
  }

  lemma LoadJumpShape(p: Program, s: State)
    requires OpAt(p, s) == 180
    ensures var lx := LoadJumpSplit(p, s);
            ExecLoadJump(p, s.pc, OperandBytes(p, s), s.cpu)
            == (DynamicJump(p, WrappingAdd(Value(s, HighReg(p, s)), RawPair(p, s, 2, lx).1) % W32),
                SetReg(s.cpu, LowReg(p, s), RawPair(p, s, 2, lx).0))
  {
    OperandsAre(p, s);
  }

  /** The registers after a dynamic jump: only opcode 180 changes one, to an immediate. */
  ghost function LoadJumpCpu(p: Program, s: State): Cpu {
    if OpAt(p, s) == 180 then SetReg(s.cpu, LowReg(p, s), Wrap(FirstImm(p, s, 2, LoadJumpSplit(p, s)))) else s.cpu
  }

  lemma TableLaw(p: Program, address: nat, target: int)
    requires Decoded(p) && address < W32
    ensures var act := DynamicJump(p, address);
            && (act.HaltNow? <==> address == 0xffff_0000)
            && (act.JumpTo? && act.target == target <==> address != 0xffff_0000 && Designates(p, address, target))
            && (act.JumpTo? ==> IsStart(p, act.target))
            && (act.HaltNow? || act.JumpTo? || act.PanicNow?)
  {
    if 0 < address <= 2 * |p.jumpTable| && address % 2 == 0 {
      var k := address / 2 - 1;
      assert address == 2 * (k + 1);
      var entry := Signed(W64, p.jumpTable[k]);
      if IsStart(p, entry) {
        BlocksFit(p, entry);
      }
    }
    if Designates(p, address, target) {
      BlocksFit(p, target);
    }
  }

  /** Opcode 0, bytes that are no opcode, and positions past the code panic and change nothing. */
  lemma TrapLaw(p: Program, alu: Alu, s: State)
    requires Executes(p, s) && (OpAt(p, s) == 0 || !IsValidOpcode(OpAt(p, s)))
    ensures var (t, e) := Step(p, Semantics(p, alu), s); e == Panic && t.cpu == s.cpu && t.pc == s.pc
  {
    OutcomeLaw(p, Semantics(p, alu), s);
  }

  /** A host call hands out its immediate; opcode 2 does nothing. */
  lemma CallLaw(p: Program, alu: Alu, s: State)
    requires Executes(p, s) && OpAt(p, s) in {2, 10}
    ensures var (t, e) := Step(p, Semantics(p, alu), s);
            && t.cpu == s.cpu
            && if OpAt(p, s) == 2 then e == Running && t.pc == After1(p, s) % W32
               else e == HostCall(Wrap(SignedImm(p, s.pc + 1, UpTo4(OperandBytes(p, s))))) && t.pc == s.pc
  {
    ImmIs(p, s.pc + 1, UpTo4(OperandBytes(p, s)));
    OutcomeLaw(p, Semantics(p, alu), s);
  }

  // ------------------------------------------------------------ registers

  /** The opcodes 20 and 51 load an immediate, of eight bytes or of the rest of the operands. */
  lemma LoadImmediateLaw(p: Program, alu: Alu, s: State)
    requires OpAt(p, s) in {20, 51}
    ensures var value: int := if OpAt(p, s) == 20 then CodeWord(p, s.pc + 2, 8) else RestImm(p, s);
            Ran(p, alu, s) == (Next, SetReg(s.cpu, LowReg(p, s), Wrap(value)))
  {
    LoadImmediateShape(p, alu, s);
    CodeWordIs(p, s.pc + 2, 8);
    Pow256Eight();
    RestIs(p, s);
  }

  lemma LoadImmediateShape(p: Program, alu: Alu, s: State)
    requires OpAt(p, s) in {20, 51}
    ensures var value := if OpAt(p, s) == 20 then Imm64(p.code, s.pc + 2)
                         else RawRest(p, s);
            Ran(p, alu, s) == (Next, SetReg(s.cpu, LowReg(p, s), value))
  {
  }

  /** A three-register instruction writes the register named by the second operand byte, from the two others. */
  lemma ThreeRegLaw(p: Program, alu: Alu, s: State)
    requires 190 <= OpAt(p, s) <= 230
    ensures var op, low, high := OpAt(p, s), Value(s, LowReg(p, s)), Value(s, HighReg(p, s));
            var value := if IsArithOpcode(op) then ThreeReg(op, low, high)
                         else alu(op, low, high, 0, Value(s, ThirdReg(p, s)));
            Ran(p, alu, s) == (Next, SetReg(s.cpu, ThirdReg(p, s), value))
  {
    OperandsAre(p, s);
  }

  /** With an immediate: from the high register and the immediate to the low one. */
  lemma TwoRegImmLaw(p: Program, alu: Alu, s: State)
    requires 131 <= OpAt(p, s) <= 161
    ensures var op, low, high := OpAt(p, s), Value(s, LowReg(p, s)), Value(s, HighReg(p, s));
            Ran(p, alu, s)
            == (Next, SetReg(s.cpu, LowReg(p, s), alu(op, low, high, Wrap(RestImm(p, s)), low)))
  {
    TwoRegImmGroup(p, alu, s);
    OperandsAre(p, s);
    RestIs(p, s);
  }

  /** With two registers: from the high one to the low one. */
  lemma TwoRegLaw(p: Program, alu: Alu, s: State)
    requires 100 <= OpAt(p, s) <= 111 && OpAt(p, s) != 101
    ensures var op, low, high := OpAt(p, s), Value(s, LowReg(p, s)), Value(s, HighReg(p, s));
            Ran(p, alu, s) == (Next, SetReg(s.cpu, LowReg(p, s), alu(op, high, 0, 0, low)))
  {
    OperandsAre(p, s);
  }

  /**
   * sbrk asks for the low 32 bits of a register. It returns the break as it was, and raises it by that much
   * where the limit allows; beyond the limit it returns zero and changes nothing else.
   */
  lemma SbrkLaw(p: Program, alu: Alu, s: State)
    requires OpAt(p, s) == 101
    ensures var size, m := Value(s, HighReg(p, s)) % W32, s.cpu.mem; var (act, cpu) := Ran(p, alu, s);
            var fits := m.heapTop + size <= m.heapMax || size == 0;
            && act == Next
            && cpu.regs == s.cpu.regs[LowReg(p, s) := if fits then m.heapTop else 0]
            && cpu.mem.heapMax == m.heapMax && cpu.mem.heapTop == m.heapTop + (if fits then size else 0)
            && (forall q | q in m.pages :: q in cpu.mem.pages && cpu.mem.pages[q] == m.pages[q])
            && (forall q | q in cpu.mem.pages && q !in m.pages ::
                  fits && size > 0 && cpu.mem.pages[q] == ZeroPage(true)
                  && q * 4096 < m.heapTop + size && m.heapTop < (q + 1) * 4096)
            && (fits && size > 0 ==>
                  forall q | q * 4096 < m.heapTop + size && m.heapTop < (q + 1) * 4096 :: q in cpu.mem.pages)
  {
  }

  // ------------------------------------------------------------ loads and stores

  /** Bytes a load or store moves, and whether a load sign-extends. */
  function AccessWidth(op: byte): nat {
    match op
    case 30 => 1 case 31 => 2 case 32 => 4 case 33 => 8
    case 52 => 1 case 53 => 1 case 54 => 2 case 55 => 2 case 56 => 4 case 57 => 4 case 58 => 8
    case 59 => 1 case 60 => 2 case 61 => 4 case 62 => 8
    case 70 => 1 case 71 => 2 case 72 => 4 case 73 => 8
    case 120 => 1 case 121 => 2 case 122 => 4 case 123 => 8
    case 124 => 1 case 125 => 1 case 126 => 2 case 127 => 2 case 128 => 4 case 129 => 4 case 130 => 8
    case _ => 0
  }

  predicate IsLoad(op: byte) { 52 <= op <= 58 || 124 <= op <= 130 }
  predicate IsStore(op: byte) { 30 <= op <= 33 || 59 <= op <= 62 || 70 <= op <= 73 || 120 <= op <= 123 }
  predicate SignExtends(op: byte) { op in {53, 55, 57, 125, 127, 129} }

  /** Bytes of the first immediate of the opcodes that store an immediate. */
  function StoreSplit(p: Program, s: State): nat {
    var b := CodeByte(p, s.pc + 1);
    UpTo4(if OpAt(p, s) <= 33 then b % 8 else b / 16 % 8)
  }

  /** The address of an access: an immediate, or a register plus an immediate, in the low 32 bits. */
  function AccessAddress(p: Program, s: State): nat {
    var op := OpAt(p, s);
    if 30 <= op <= 33 then FirstImm(p, s, 1, StoreSplit(p, s)) % W32
    else if 70 <= op <= 73 then (Value(s, LowReg(p, s)) + FirstImm(p, s, 1, StoreSplit(p, s))) % W32
    else if op >= 120 then (Value(s, HighReg(p, s)) + RestImm(p, s)) % W32
    else RestImm(p, s) % W32
  }

  /** What a store writes: an immediate, or a register. */
  function StoredValue(p: Program, s: State): u64 {
    var op := OpAt(p, s);
    if 30 <= op <= 33 || 70 <= op <= 73 then Wrap(SecondImm(p, s, 1, StoreSplit(p, s))) else Value(s, LowReg(p, s))
  }

  ghost function RefusedBy(a: Access): Action
    requires a != Granted
  {
    match a case Trap => PanicNow case Fault(x) => FaultAt(x) case Granted => Next
  }

  lemma ImmWraps(x: int)
    ensures Wrap(x) % W32 == x % W32
  {
  }

  /** What a granted load delivers. */
  ghost function Delivered(m: Mem, op: byte, at: nat): u64 {
    var word := MemWord(m, at, AccessWidth(op));
    Wrap(if SignExtends(op) then TwosComplement(word, AccessWidth(op)) else word)
  }

  /** A load that is granted puts the bytes at its address, sign-extended or not, into its register, and no more. */
  lemma LoadLaw(p: Program, alu: Alu, s: State)
    requires IsLoad(OpAt(p, s))
    ensures Ran(p, alu, s) == LoadResult(p, s)
  {
    if OpAt(p, s) <= 58 {
      RegImmGroup(p, alu, s);
    } else {
      TwoRegImmGroup(p, alu, s);
    }
    LoadIs(p, alu, s);
  }

  ghost function LoadResult(p: Program, s: State): (Action, Cpu)
    requires IsLoad(OpAt(p, s))
  {
    var op, at := OpAt(p, s), AccessAddress(p, s);
    var access := Check(s.cpu.mem, at, AccessWidth(op), false);
    if access != Granted then (RefusedBy(access), s.cpu)
    else (Next, SetReg(s.cpu, LowReg(p, s), Delivered(s.cpu.mem, op, at)))
  }

  lemma LoadIs(p: Program, alu: Alu, s: State)
    requires IsLoad(OpAt(p, s))
    ensures OpAt(p, s) <= 58 ==> ExecRegImm(p, OpAt(p, s), s.pc, OperandBytes(p, s), s.cpu) == LoadResult(p, s)
    ensures OpAt(p, s) > 58 ==>
              ExecTwoRegImm(p, alu, OpAt(p, s), s.pc, OperandBytes(p, s), s.cpu) == LoadResult(p, s)
  {
    LoadShape(p, alu, s);
    LoadAddress(p, s);
    DeliveredIs(s.cpu.mem, OpAt(p, s), AccessAddress(p, s));
  }

  /** The address of a load as the interpreter computes it. */
  function RawLoadAddress(p: Program, s: State): u64 {
    if OpAt(p, s) >= 120 then WrappingAdd(Value(s, HighReg(p, s)), RawRest(p, s)) else RawRest(p, s)
  }

  lemma LoadAddress(p: Program, s: State)
    requires IsLoad(OpAt(p, s))
    ensures RawLoadAddress(p, s) % W32 == AccessAddress(p, s)
  {
    RestIs(p, s);
    ImmWraps(RestImm(p, s));
    SumWraps(Value(s, HighReg(p, s)), RestImm(p, s));
  }

  lemma DeliveredIs(m: Mem, op: byte, at: nat)
    requires IsLoad(op)
    ensures LoadedValue(m, at, AccessWidth(op), SignExtends(op)) == Delivered(m, op, at)
  {
    var width := AccessWidth(op);
    MemWordIs(m, at, width);
    WordFits(width, MemWord(m, at, width));
    if SignExtends(op) {
      SextKeepsSign(width, MemWord(m, at, width));
    }
  }

  lemma WordFits(width: nat, word: nat)
    requires width <= 8 && word < Pow256(width)
    ensures word < W64 && Wrap(word) == word
  {
    Pow256Monotone(width, 8);
    Pow256Eight();
  }

  lemma LoadTable(op: byte)
    requires IsLoad(op)
    ensures var k := if op <= 58 then op - 52 else op - 124;
            LoadWidth(k) == AccessWidth(op) && (k % 2 == 1 <==> SignExtends(op))
  {
  }

  lemma LoadShape(p: Program, alu: Alu, s: State)
    requires IsLoad(OpAt(p, s))
    ensures var op := OpAt(p, s);
            var load := LoadOp(s.cpu, RawLoadAddress(p, s), AccessWidth(op), SignExtends(op), LowReg(p, s));
            && (op <= 58 ==> ExecRegImm(p, op, s.pc, OperandBytes(p, s), s.cpu) == load)
            && (op > 58 ==> ExecTwoRegImm(p, alu, op, s.pc, OperandBytes(p, s), s.cpu) == load)
  {
    LoadTable(OpAt(p, s));
    if OpAt(p, s) <= 58 {
      LoadImmShape(p, s);
    } else {
      LoadRegShape(p, alu, s);
    }
  }

  lemma LoadImmShape(p: Program, s: State)
    requires 52 <= OpAt(p, s) <= 58
    ensures var k := OpAt(p, s) - 52;
            ExecRegImm(p, OpAt(p, s), s.pc, OperandBytes(p, s), s.cpu)
            == LoadOp(s.cpu, RawLoadAddress(p, s), LoadWidth(k), k % 2 == 1, LowReg(p, s))
  {
    OperandsAre(p, s);
  }

  lemma LoadRegShape(p: Program, alu: Alu, s: State)
    requires 124 <= OpAt(p, s) <= 130
    ensures var k := OpAt(p, s) - 124;
            ExecTwoRegImm(p, alu, OpAt(p, s), s.pc, OperandBytes(p, s), s.cpu)
            == LoadOp(s.cpu, RawLoadAddress(p, s), LoadWidth(k), k % 2 == 1, LowReg(p, s))
  {
    OperandsAre(p, s);
  }

  /** A store that is granted leaves its value, modulo its width, at its address; no register changes. */
  lemma StoreLaw(p: Program, alu: Alu, s: State)
    requires IsStore(OpAt(p, s))
    ensures var at, width := AccessAddress(p, s), AccessWidth(OpAt(p, s));
            var access, m := Check(s.cpu.mem, at, width, true), s.cpu.mem; var (act, cpu) := Ran(p, alu, s);
            && cpu.regs == s.cpu.regs
            && if access != Granted then act == RefusedBy(access) && cpu.mem == m
               else act == Next && Stored(m, at, width, StoredValue(p, s), cpu.mem)
  {
    StoreAction(p, alu, s);
    StoreEffects(s.cpu, AccessAddress(p, s), AccessWidth(OpAt(p, s)), StoredValue(p, s));
  }

  /** `n` is `m` with a value's low bytes at an address, and nothing else changed. */
  ghost predicate Stored(m: Mem, at: nat, width: nat, value: u64, n: Mem) {
    && SameMap(m, n)
    && MemWord(n, at, width) == value % Pow256(width)
    && forall x: nat | !Touches(at, width, x) :: ByteAt(n, x) == ByteAt(m, x)
  }

  lemma StoreEffects(c: Cpu, at: u32, width: nat, value: u64)
    requires width <= 8
    ensures var access := Check(c.mem, at, width, true); var (act, d) := StoreOp(c, at, width, value);
            && d.regs == c.regs
            && if access != Granted then act == RefusedBy(access) && d.mem == c.mem
               else act == Next && Stored(c.mem, at, width, value, d.mem)
  {
    StoreCases(c, at, width, value);
    if Check(c.mem, at, width, true) == Granted {
      WriteIsStored(c.mem, at, width, value);
    }
  }

  lemma StoreCases(c: Cpu, at: u32, width: nat, value: u64)
    ensures var access := Check(c.mem, at, width, true);
            StoreOp(c, at, width, value)
            == if access == Granted then (Next, c.(mem := WriteLE(c.mem, at, width, value)))
               else (RefusedBy(access), c)
  {
    var wrapped := at % W32;
    assert wrapped == at;
  }

  lemma WriteIsStored(m: Mem, at: nat, width: nat, value: u64)
    requires width <= 8 && Check(m, at, width, true) == Granted
    ensures Stored(m, at, width, value, WriteLE(m, at, width, value))
  {
    WriteReadBack(m, at, width, value);
    MemWordIs(WriteLE(m, at, width, value), at, width);
  }

  /** The address and value of a store as the interpreter computes them. */
  function RawStore(p: Program, s: State): (u64, u64) {
    var op, lx := OpAt(p, s), StoreSplit(p, s);
    if op <= 33 then (RawPair(p, s, 1, lx).0, RawPair(p, s, 1, lx).1)
    else if 70 <= op <= 73 then (WrappingAdd(Value(s, LowReg(p, s)), RawPair(p, s, 1, lx).0), RawPair(p, s, 1, lx).1)
    else if op >= 120 then (WrappingAdd(Value(s, HighReg(p, s)), RawRest(p, s)), Value(s, LowReg(p, s)))
    else (RawRest(p, s), Value(s, LowReg(p, s)))
  }

  lemma StoreShape(p: Program, alu: Alu, s: State)
    requires IsStore(OpAt(p, s))
    ensures var op, ell := OpAt(p, s), OperandBytes(p, s);
            var store := StoreOp(s.cpu, RawStore(p, s).0, AccessWidth(op), RawStore(p, s).1);
            && (59 <= op <= 62 ==> ExecRegImm(p, op, s.pc, ell, s.cpu) == store)
            && (op >= 120 ==> ExecTwoRegImm(p, alu, op, s.pc, ell, s.cpu) == store)
            && (op <= 33 || 70 <= op <= 73 ==> ExecStoreImm(p, op, s.pc, ell, s.cpu) == store)
  {
    if 59 <= OpAt(p, s) <= 62 {
      StoreAbsoluteShape(p, s);
    } else if OpAt(p, s) >= 120 {
      StoreRegShape(p, alu, s);
    } else {
      StoreImmShape(p, s);
    }
  }

  lemma StoreAbsoluteShape(p: Program, s: State)
    requires 59 <= OpAt(p, s) <= 62
    ensures ExecRegImm(p, OpAt(p, s), s.pc, OperandBytes(p, s), s.cpu)
         == StoreOp(s.cpu, RawStore(p, s).0, AccessWidth(OpAt(p, s)), RawStore(p, s).1)
  {
    OperandsAre(p, s);
  }

  lemma StoreRegShape(p: Program, alu: Alu, s: State)
    requires 120 <= OpAt(p, s) <= 123
    ensures ExecTwoRegImm(p, alu, OpAt(p, s), s.pc, OperandBytes(p, s), s.cpu)
         == StoreOp(s.cpu, RawStore(p, s).0, AccessWidth(OpAt(p, s)), RawStore(p, s).1)
  {
    OperandsAre(p, s);
  }

  lemma StoreImmShape(p: Program, s: State)
    requires 30 <= OpAt(p, s) <= 33 || 70 <= OpAt(p, s) <= 73
    ensures ExecStoreImm(p, OpAt(p, s), s.pc, OperandBytes(p, s), s.cpu)
         == StoreOp(s.cpu, RawStore(p, s).0, AccessWidth(OpAt(p, s)), RawStore(p, s).1)
  {
    if OpAt(p, s) <= 33 {
      StoreImmAbsolute(p, s);
    } else {
      StoreImmIndirect(p, s);
    }
  }

  lemma StoreImmAbsolute(p: Program, s: State)
    requires 30 <= OpAt(p, s) <= 33
    ensures ExecStoreImm(p, OpAt(p, s), s.pc, OperandBytes(p, s), s.cpu)
         == StoreOp(s.cpu, RawStore(p, s).0, AccessWidth(OpAt(p, s)), RawStore(p, s).1)
  {
    OperandsAre(p, s);
  }

  lemma StoreImmIndirect(p: Program, s: State)
    requires 70 <= OpAt(p, s) <= 73
    ensures ExecStoreImm(p, OpAt(p, s), s.pc, OperandBytes(p, s), s.cpu)
         == StoreOp(s.cpu, RawStore(p, s).0, AccessWidth(OpAt(p, s)), RawStore(p, s).1)
  {
    OperandsAre(p, s);
  }

  lemma RawStoreIs(p: Program, s: State)
    requires IsStore(OpAt(p, s))
    ensures RawStore(p, s).0 % W32 == AccessAddress(p, s) && RawStore(p, s).1 == StoredValue(p, s)
  {
    var op, lx := OpAt(p, s), StoreSplit(p, s);
    if op <= 33 || 70 <= op <= 73 {
      PairIs(p, s, 1, lx);
      ImmWraps(FirstImm(p, s, 1, lx));
      SumWraps(Value(s, LowReg(p, s)), FirstImm(p, s, 1, lx));
    } else {
      RestIs(p, s);
      ImmWraps(RestImm(p, s));
      SumWraps(Value(s, HighReg(p, s)), RestImm(p, s));
    }
  }

  lemma StoreIs(p: Program, alu: Alu, s: State)
    requires IsStore(OpAt(p, s))
    ensures var op, ell := OpAt(p, s), OperandBytes(p, s);
            var store := StoreOp(s.cpu, AccessAddress(p, s), AccessWidth(op), StoredValue(p, s));
            && (59 <= op <= 62 ==> ExecRegImm(p, op, s.pc, ell, s.cpu) == store)
            && (op >= 120 ==> ExecTwoRegImm(p, alu, op, s.pc, ell, s.cpu) == store)
            && (op <= 33 || 70 <= op <= 73 ==> ExecStoreImm(p, op, s.pc, ell, s.cpu) == store)
  {
    StoreShape(p, alu, s);
    RawStoreIs(p, s);
    LowAddress(s.cpu, RawStore(p, s).0, AccessWidth(OpAt(p, s)), StoredValue(p, s));
  }

  /** Only the low 32 bits of an address count. */
  lemma LowAddress(c: Cpu, address: u64, width: nat, value: u64)
    ensures StoreOp(c, address, width, value) == StoreOp(c, address % W32, width, value)
  {
  }

  lemma StoreAction(p: Program, alu: Alu, s: State)
    requires IsStore(OpAt(p, s))
    ensures Ran(p, alu, s) == StoreOp(s.cpu, AccessAddress(p, s), AccessWidth(OpAt(p, s)), StoredValue(p, s))
  {
    if 59 <= OpAt(p, s) <= 62 {
      RegImmGroup(p, alu, s);
    } else if OpAt(p, s) >= 120 {
      TwoRegImmGroup(p, alu, s);
    } else {
      StoreImmGroup(p, alu, s);
    }
    StoreIs(p, alu, s);
  }

  // ------------------------------------------------------------ which instructions end a block

  /** Control data: where blocks start, and the jump table. */
  function Rewired(p: Program, blocks: set<nat>, table: seq<u64>): Program {
    p.(blocks := blocks, jumpTable := table)
  }

  /** Where no block starts, a terminator can only panic or halt. */
  lemma TerminatorLaw(p: Program, alu: Alu, op: nat, i: nat, ell: nat, c: Cpu)
    requires IsTerminator(op) && p.blocks == {}
    ensures Execute(p, alu, op, i, ell, c).0 in {PanicNow, HaltNow}
  {
  }

  /** Any other instruction does the same wherever blocks start. */
  lemma StraightLineLaw(
    p: Program, alu: Alu, op: nat, i: nat, ell: nat, c: Cpu, blocks: set<nat>, table: seq<u64>)
    requires !IsTerminator(op)
    ensures Execute(Rewired(p, blocks, table), alu, op, i, ell, c) == Execute(p, alu, op, i, ell, c)
    ensures !IsValidOpcode(op) ==> Execute(p, alu, op, i, ell, c) == (PanicNow, c)
  {
  }
}
