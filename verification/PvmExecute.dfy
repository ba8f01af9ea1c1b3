/**
 * One instruction of the virtual machine.
 * Register results other than division, remainder, products, loads and constants come from the
 * function parameter `alu` (opcode, left operand, right operand, immediate, old destination).
 */
module PvmExecute {
  import opened Base
  import opened PvmArith
  import opened PagedMemory
  import opened PvmProgram

  const REG_COUNT: nat := 13
  const HALT_ADDR: u64 := 0xffff_0000

  type Regs = r: seq<u64> | |r| == REG_COUNT witness seq(REG_COUNT, _ => 0)
  type Alu = (nat, u64, u64, u64, u64) -> u64

  /** What an instruction may change: the registers and the memory. */
  datatype Cpu = Cpu(regs: Regs, mem: Mem)

  datatype Action =
    | Next
    | JumpTo(target: u32)
    | HaltNow
    | PanicNow
    | FaultAt(address: u32)
    | CallHost(id: u64)

  // ------------------------------------------------------------ operands

  /** Little-endian value of `len` bytes of code, which reads as zero past its end. */
  function DecodeLE(code: bytes, start: nat, len: nat): (r: nat)
    ensures r < Pow256(len)
  {
    if len == 0 then 0
    else
      var before, top := DecodeLE(code, start, len - 1), Zeta(code, start + len - 1);
      DigitBound(before, top, Pow256(len - 1));
      before + top * Pow256(len - 1)
  }

  lemma {:induction false} Pow256Monotone(m: nat, n: nat)
    requires m <= n
    ensures Pow256(m) <= Pow256(n)
    decreases n
  {
    if m < n {
      Pow256Monotone(m, n - 1);
    }
  }

  lemma Pow256Eight()
    ensures Pow256(4) == W32 && Pow256(8) == W64
  {
    assert Pow256(4) == 256 * (256 * (256 * Pow256(1)));
    assert Pow256(8) == 256 * (256 * (256 * (256 * Pow256(4))));
  }

  /** A sign-extended immediate of `len` bytes. */
  function Imm(code: bytes, start: nat, len: nat): u64
    requires len <= 4
  {
    Pow256Monotone(len, 4);
    Pow256Eight();
    Sext(len, DecodeLE(code, start, len))
  }

  function Imm64(code: bytes, start: nat): u64 {
    Pow256Eight();
    DecodeLE(code, start, 8)
  }

  function Ra(code: bytes, i: nat): (r: nat)
    ensures r < REG_COUNT
  {
    Min(Zeta(code, i + 1) % 16, 12)
  }

  function Rb(code: bytes, i: nat): (r: nat)
    ensures r < REG_COUNT
  {
    Min(Zeta(code, i + 1) / 16, 12)
  }

  function Rd(code: bytes, i: nat): (r: nat)
    ensures r < REG_COUNT
  {
    Min(Zeta(code, i + 2), 12)
  }

  function WrappingAdd(a: u64, b: u64): u64 {
    (a + b) % W64
  }

  // ------------------------------------------------------------ control flow

  function Jump(p: Program, target: int): Action {
    if IsBlockStart(p, target) then JumpTo(target % W32) else PanicNow
  }

  /** A branch needs both its target and its fall-through to be block starts. */
  function Branch(p: Program, i: nat, ell: nat, target: int, cond: bool): Action {
    if !IsBlockStart(p, target) || !IsBlockStart(p, i + 1 + ell) then PanicNow
    else if cond then JumpTo(target % W32)
    else Next
  }

  /** A dynamic jump goes through the aligned jump table; one address means a normal return. */
  function DynamicJump(p: Program, a: u64): Action {
    if a == HALT_ADDR then HaltNow
    else if a == 0 || a > |p.jumpTable| * 2 || a % 2 != 0 then PanicNow
    else Jump(p, AsI64(p.jumpTable[a / 2 - 1]))
  }

  predicate BranchImmTaken(op: nat, a: u64, imm: u64)
    requires 81 <= op <= 90
  {
    match op
    case 81 => a == imm
    case 82 => a != imm
    case 83 => a < imm
    case 84 => a <= imm
    case 85 => a >= imm
    case 86 => a > imm
    case 87 => AsI64(a) < AsI64(imm)
    case 88 => AsI64(a) <= AsI64(imm)
    case 89 => AsI64(a) >= AsI64(imm)
    case _ => AsI64(a) > AsI64(imm)
  }

  predicate BranchRegTaken(op: nat, a: u64, b: u64)
    requires 170 <= op <= 175
  {
    match op
    case 170 => a == b
    case 171 => a != b
    case 172 => a < b
    case 173 => AsI64(a) < AsI64(b)
    case 174 => a >= b
    case _ => AsI64(a) >= AsI64(b)
  }

  // ------------------------------------------------------------ memory instructions

  function AccessAction(e: Access): Action {
    match e
    case Granted => Next
    case Trap => PanicNow
    case Fault(a) => FaultAt(a)
  }

  lemma {:induction false} ReadLEBound(m: Mem, addr: nat, len: nat)
    ensures ReadLE(m, addr, len) < Pow256(len)
  {
    if len > 0 {
      ReadLEBound(m, addr, len - 1);
      DigitBound(ReadLE(m, addr, len - 1), ByteAt(m, Addr(addr, len - 1)), Pow256(len - 1));
    }
  }

  /** The value a load delivers; `signed` sign-extends it from its width. */
  function LoadedValue(m: Mem, addr: nat, len: nat, signed: bool): u64
    requires len <= 8
  {
    ReadLEBound(m, addr, len);
    Pow256Monotone(len, 8);
    Pow256Eight();
    if signed then Sext(len, ReadLE(m, addr, len)) else ReadLE(m, addr, len)
  }

  function LoadOp(c: Cpu, address: u64, len: nat, signed: bool, ra: nat): (Action, Cpu)
    requires len <= 8 && ra < REG_COUNT
  {
    var addr := address % W32;
    match Check(c.mem, addr, len, false)
    case Granted => (Next, c.(regs := c.regs[ra := LoadedValue(c.mem, addr, len, signed)]))
    case e => (AccessAction(e), c)
  }

  function StoreOp(c: Cpu, address: u64, len: nat, value: u64): (Action, Cpu) {
    var addr := address % W32;
    match Check(c.mem, addr, len, true)
    case Granted => (Next, c.(mem := WriteLE(c.mem, addr, len, value)))
    case e => (AccessAction(e), c)
  }

  /** Access width and signedness of the load opcodes, in opcode order from byte to double word. */
  function LoadWidth(k: nat): nat
    requires k <= 6
  {
    if k <= 1 then 1 else if k <= 3 then 2 else if k <= 5 then 4 else 8
  }

  function StoreWidth(k: nat): (r: nat)
    requires k <= 3
    ensures r <= 8
  {
    if k == 0 then 1 else if k == 1 then 2 else if k == 2 then 4 else 8
  }

  // ------------------------------------------------------------ one instruction

  function SetReg(c: Cpu, r: nat, v: u64): Cpu
    requires r < REG_COUNT
  {
    c.(regs := c.regs[r := v])
  }

  /** Opcodes with one register and one immediate, 50 to 62. */
  function ExecRegImm(p: Program, op: nat, i: nat, ell: nat, c: Cpu): (Action, Cpu)
    requires 50 <= op <= 62
  {
    var ra, imm := Ra(p.code, i), Imm(p.code, i + 2, Min(SatSub(ell, 1), 4));
    if op == 50 then (DynamicJump(p, WrappingAdd(c.regs[ra], imm) % W32), c)
    else if op == 51 then (Next, SetReg(c, ra, imm))
    else if op <= 58 then LoadOp(c, imm, LoadWidth(op - 52), (op - 52) % 2 == 1, ra)
    else StoreOp(c, imm, StoreWidth(op - 59), c.regs[ra])
  }

  /** Two immediates split by a length nibble: (first, second). */
  function ImmPair(code: bytes, at: nat, lx: nat, ell: nat, head: nat): (u64, u64)
    requires lx <= 4
  {
    (Imm(code, at, lx), Imm(code, at + lx, Min(SatSub(ell, lx + head), 4)))
  }

  /** Opcodes with a register, an immediate and an offset, 80 to 90. */
  function ExecRegImmOffset(p: Program, op: nat, i: nat, ell: nat, c: Cpu): (Action, Cpu)
    requires 80 <= op <= 90
  {
    var lx := Min(Zeta(p.code, i + 1) / 16 % 8, 4);
    var (immX, immY) := ImmPair(p.code, i + 2, lx, ell, 1);
    var ra, target := Ra(p.code, i), i + AsI64(immY);
    if op == 80 then (Jump(p, target), SetReg(c, ra, immX))
    else (Branch(p, i, ell, target, BranchImmTaken(op, c.regs[ra], immX)), c)
  }

  /** Opcodes that store an immediate, at an absolute address or at one relative to a register. */
  function ExecStoreImm(p: Program, op: nat, i: nat, ell: nat, c: Cpu): (Action, Cpu)
    requires 30 <= op <= 33 || 70 <= op <= 73
  {
    var nibble := if op <= 33 then Zeta(p.code, i + 1) else Zeta(p.code, i + 1) / 16;
    var (immX, immY) := ImmPair(p.code, i + 2, Min(nibble % 8, 4), ell, 1);
    if op <= 33 then StoreOp(c, immX, StoreWidth(op - 30), immY)
    else StoreOp(c, WrappingAdd(c.regs[Ra(p.code, i)], immX), StoreWidth(op - 70), immY)
  }

  /** Opcodes with two registers and an offset, 170 to 175. */
  function ExecBranchReg(p: Program, op: nat, i: nat, ell: nat, c: Cpu): (Action, Cpu)
    requires 170 <= op <= 175
  {
    var target := i + AsI64(Imm(p.code, i + 2, Min(SatSub(ell, 1), 4)));
    (Branch(p, i, ell, target, BranchRegTaken(op, c.regs[Ra(p.code, i)], c.regs[Rb(p.code, i)])), c)
  }

  /** Opcode 180: loads an immediate and jumps through the table. */
  function ExecLoadJump(p: Program, i: nat, ell: nat, c: Cpu): (Action, Cpu) {
    var (immX, immY) := ImmPair(p.code, i + 3, Min(Zeta(p.code, i + 2) % 8, 4), ell, 2);
    (DynamicJump(p, WrappingAdd(c.regs[Rb(p.code, i)], immY) % W32), SetReg(c, Ra(p.code, i), immX))
  }

  /** Opcodes with two registers and one immediate, 120 to 161. */
  function ExecTwoRegImm(p: Program, alu: Alu, op: nat, i: nat, ell: nat, c: Cpu): (Action, Cpu)
    requires 120 <= op <= 161
  {
    var imm := Imm(p.code, i + 2, Min(SatSub(ell, 1), 4));
    var ra, a, b := Ra(p.code, i), c.regs[Ra(p.code, i)], c.regs[Rb(p.code, i)];
    if op <= 123 then StoreOp(c, WrappingAdd(b, imm), StoreWidth(op - 120), a)
    else if op <= 130 then LoadOp(c, WrappingAdd(b, imm), LoadWidth(op - 124), (op - 124) % 2 == 1, ra)
    else (Next, SetReg(c, ra, alu(op, a, b, imm, a)))
  }

  function ExecTwoReg(p: Program, alu: Alu, op: nat, i: nat, c: Cpu): (Action, Cpu) {
    var d, a := Ra(p.code, i), c.regs[Rb(p.code, i)];
    if op == 101 then
      var (mem, previous) := Sbrk(c.mem, a % W32);
      (Next, SetReg(c.(mem := mem), d, previous))
    else (Next, SetReg(c, d, alu(op, a, 0, 0, c.regs[d])))
  }

  function ExecThreeReg(p: Program, alu: Alu, op: nat, i: nat, c: Cpu): (Action, Cpu) {
    var a, b, rd := c.regs[Ra(p.code, i)], c.regs[Rb(p.code, i)], Rd(p.code, i);
    (Next, SetReg(c, rd, if IsArithOpcode(op) then ThreeReg(op, a, b) else alu(op, a, b, 0, c.regs[rd])))
  }

  /** The effect of the instruction with opcode `op` at position `i` and `ell` operand bytes. */
  function Execute(p: Program, alu: Alu, op: nat, i: nat, ell: nat, c: Cpu): (Action, Cpu) {
    var code := p.code;
    if op == 0 then (PanicNow, c)
    else if op == 1 then (Jump(p, i + 1 + ell), c)
    else if op == 2 then (Next, c)
    else if op == 10 then (CallHost(Imm(code, i + 1, Min(ell, 4))), c)
    else if op == 20 then (Next, SetReg(c, Ra(code, i), Imm64(code, i + 2)))
    else if 30 <= op <= 33 || 70 <= op <= 73 then ExecStoreImm(p, op, i, ell, c)
    else if op == 40 then (Jump(p, i + AsI64(Imm(code, i + 1, Min(ell, 4)))), c)
    else if 50 <= op <= 62 then ExecRegImm(p, op, i, ell, c)
    else if 80 <= op <= 90 then ExecRegImmOffset(p, op, i, ell, c)
    else if 100 <= op <= 111 then ExecTwoReg(p, alu, op, i, c)
    else if 120 <= op <= 161 then ExecTwoRegImm(p, alu, op, i, ell, c)
    else if 170 <= op <= 175 then ExecBranchReg(p, op, i, ell, c)
    else if op == 180 then ExecLoadJump(p, i, ell, c)
    else if 190 <= op <= 230 then ExecThreeReg(p, alu, op, i, c)
    else (PanicNow, c)
  }

  /**
   * Only terminators leave the straight line: every jump lands on a block start, a terminator
   * that falls through falls onto a block start, and a host call never ends a block.
   */
  lemma ExecuteControl(p: Program, alu: Alu, op: nat, i: nat, ell: nat, c: Cpu)
    requires Decoded(p)
    ensures var act := Execute(p, alu, op, i, ell, c).0;
            && (act.JumpTo? ==> IsTerminator(op) && act.target in p.blocks)
            && (act.Next? && IsTerminator(op) ==> i + 1 + ell in p.blocks)
            && (act.HaltNow? ==> IsTerminator(op))
            && (act.CallHost? ==> op == 10)
  {
    JumpControl(p);
  }

  lemma JumpControl(p: Program)
    requires Decoded(p)
    ensures forall target: int :: Jump(p, target).JumpTo? ==> Jump(p, target).target in p.blocks
    ensures forall i: nat, ell: nat, target: int, cond: bool ::
              var act := Branch(p, i, ell, target, cond);
              && (act.JumpTo? ==> act.target in p.blocks)
              && (act.Next? ==> i + 1 + ell in p.blocks)
  {
    forall target: int | IsBlockStart(p, target)
      ensures target % W32 == target
    {
      BasicBlocksMeaning(p.code, p.bitmask, target);
    }
  }

  /** The instruction semantics as a value, for machines that are generic in it. */
  type Exec = (nat, nat, nat, Cpu) -> (Action, Cpu)

  function Semantics(p: Program, alu: Alu): Exec {
    (op: nat, i: nat, ell: nat, c: Cpu) => Execute(p, alu, op, i, ell, c)
  }
}
