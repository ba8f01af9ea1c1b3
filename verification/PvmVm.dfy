/** The resumable interpreter object, each method proved against the instruction and gas semantics. */
module PvmVm {
  import opened Base
  import opened PvmArith
  import opened PagedMemory
  import opened PvmProgram
  import opened PvmExecute
  import opened PvmGas

  /** An admitted step, in the order the object takes it. */
  lemma StepSettles(p: Program, ex: Exec, s: State, act: Action, cpu: Cpu)
    requires !Refused(p, s) && (act, cpu) == RunOp(p, ex, s.pc, s.cpu)
    ensures Step(p, ex, s) == Settle(p, Pay(p, s).(cpu := cpu), act, cpu)
  {
  }

  class Vm {
    const program: Program
    const alu: Alu
    const memory: Memory
    var pc: u32
    var gas: int
    var regs: Regs
    var gasCharged: bool
    var blkCost: int
    var blkSpent: int

    function CpuView(): Cpu
      reads this, memory
    {
      Cpu(regs, memory.View())
    }

    function View(): State
      reads this, memory
    {
      State(pc, gas, CpuView(), gasCharged, blkCost, blkSpent)
    }

    constructor (program: Program, alu: Alu, pc: u32, gas: int, regs: Regs, memory: Memory)
      ensures this.program == program && this.alu == alu && this.memory == memory
      ensures View() == State(pc, gas, Cpu(regs, memory.View()), false, 0, 0)
    {
      this.program, this.alu, this.memory := program, alu, memory;
      this.pc, this.gas, this.regs := pc, gas, regs;
      gasCharged, blkCost, blkSpent := false, 0, 0;
    }

    method Load(address: u64, len: nat, signed: bool, ra: nat) returns (act: Action)
      requires len <= 8 && ra < REG_COUNT
      modifies this`regs
      ensures (act, CpuView()) == LoadOp(old(CpuView()), address, len, signed, ra)
    {
      var addr := address % W32;
      var e := memory.CheckAccess(addr, len, false);
      if e != Granted {
        return AccessAction(e);
      }
      var raw := memory.Read(addr, len);
      ReadLEBound(memory.View(), addr, len);
      Pow256Monotone(len, 8);
      Pow256Eight();
      regs := regs[ra := if signed then Sext(len, raw) else raw];
      return Next;
    }

    method Store(address: u64, len: nat, value: u64) returns (act: Action)
      modifies memory
      ensures (act, CpuView()) == StoreOp(old(CpuView()), address, len, value)
    {
      var addr := address % W32;
      var e := memory.CheckAccess(addr, len, true);
      if e != Granted {
        return AccessAction(e);
      }
      memory.Write(addr, len, value);
      return Next;
    }

    method RegImm(op: nat, i: nat, ell: nat) returns (act: Action)
      requires 50 <= op <= 62
      modifies this`regs, memory
      ensures (act, CpuView()) == ExecRegImm(program, op, i, ell, old(CpuView()))
    {
      var ra, imm := Ra(program.code, i), Imm(program.code, i + 2, Min(SatSub(ell, 1), 4));
      if op == 50 {
        act := DynamicJump(program, WrappingAdd(regs[ra], imm) % W32);
      } else if op == 51 {
        regs := regs[ra := imm];
        act := Next;
      } else if op <= 58 {
        act := Load(imm, LoadWidth(op - 52), (op - 52) % 2 == 1, ra);
      } else {
        act := Store(imm, StoreWidth(op - 59), regs[ra]);
      }
    }

    method TwoRegImm(op: nat, i: nat, ell: nat) returns (act: Action)
      requires 120 <= op <= 161
      modifies this`regs, memory
      ensures (act, CpuView()) == ExecTwoRegImm(program, alu, op, i, ell, old(CpuView()))
    {
      var imm := Imm(program.code, i + 2, Min(SatSub(ell, 1), 4));
      var ra, a, b := Ra(program.code, i), regs[Ra(program.code, i)], regs[Rb(program.code, i)];
      if op <= 123 {
        act := Store(WrappingAdd(b, imm), StoreWidth(op - 120), a);
      } else if op <= 130 {
        act := Load(WrappingAdd(b, imm), LoadWidth(op - 124), (op - 124) % 2 == 1, ra);
      } else {
        regs := regs[ra := alu(op, a, b, imm, a)];
        act := Next;
      }
    }

    method TwoReg(op: nat, i: nat) returns (act: Action)
      modifies this`regs, memory
      ensures (act, CpuView()) == ExecTwoReg(program, alu, op, i, old(CpuView()))
    {
      var d, a := Ra(program.code, i), regs[Rb(program.code, i)];
      if op == 101 {
        var previous := memory.Grow(a % W32);
        regs := regs[d := previous];
      } else {
        regs := regs[d := alu(op, a, 0, 0, regs[d])];
      }
      act := Next;
    }

    method ExecuteOne(op: nat, i: nat, ell: nat) returns (act: Action)
      modifies this`regs, memory
      ensures (act, CpuView()) == Execute(program, alu, op, i, ell, old(CpuView()))
    {
      var code := program.code;
      if op == 0 {
        act := PanicNow;
      } else if op == 1 {
        act := Jump(program, i + 1 + ell);
      } else if op == 2 {
        act := Next;
      } else if op == 10 {
        act := CallHost(Imm(code, i + 1, Min(ell, 4)));
      } else if op == 20 {
        regs := regs[Ra(code, i) := Imm64(code, i + 2)];
        act := Next;
      } else if 30 <= op <= 33 {
        var (immX, immY) := ImmPair(code, i + 2, Min(Zeta(code, i + 1) % 8, 4), ell, 1);
        act := Store(immX, StoreWidth(op - 30), immY);
      } else if op == 40 {
        act := Jump(program, i + AsI64(Imm(code, i + 1, Min(ell, 4))));
      } else if 50 <= op <= 62 {
        act := RegImm(op, i, ell);
      } else if 70 <= op <= 73 {
        var (immX, immY) := ImmPair(code, i + 2, Min(Zeta(code, i + 1) / 16 % 8, 4), ell, 1);
        act := Store(WrappingAdd(regs[Ra(code, i)], immX), StoreWidth(op - 70), immY);
      } else if 80 <= op <= 90 {
        var (a, c) := ExecRegImmOffset(program, op, i, ell, CpuView());
        act, regs := a, c.regs;
      } else if 100 <= op <= 111 {
        act := TwoReg(op, i);
      } else if 120 <= op <= 161 {
        act := TwoRegImm(op, i, ell);
      } else if 170 <= op <= 175 {
        var target := i + AsI64(Imm(code, i + 2, Min(SatSub(ell, 1), 4)));
        act := Branch(program, i, ell, target, BranchRegTaken(op, regs[Ra(code, i)], regs[Rb(code, i)]));
      } else if op == 180 {
        var (immX, immY) := ImmPair(code, i + 3, Min(Zeta(code, i + 2) % 8, 4), ell, 2);
        var target := WrappingAdd(regs[Rb(code, i)], immY) % W32;
        regs := regs[Ra(code, i) := immX];
        act := DynamicJump(program, target);
      } else if 190 <= op <= 230 {
        var (a, c) := ExecThreeReg(program, alu, op, i, CpuView());
        act, regs := a, c.regs;
      } else {
        act := PanicNow;
      }
    }

    /** Passes the block gate, deducting one unit for the instruction about to run. */
    method Admit() returns (admitted: bool)
      requires Decoded(program)
      modifies this`gas, this`gasCharged, this`blkCost, this`blkSpent
      ensures admitted == !Refused(program, old(View()))
      ensures View() == if admitted then Pay(program, old(View())) else old(View())
    {
      if !gasCharged {
        var cost := ComputeBlockGasCost(program, BlockStartOf(program, pc));
        if gas < cost {
          return false;
        }
        blkCost, blkSpent, gasCharged := cost, 0, true;
      }
      gas, blkSpent := gas - 1, blkSpent + 1;
      admitted := true;
    }

    /** Applies the control-flow outcome of the instruction just executed. */
    method Resolve(op: nat, ell: nat, act: Action) returns (status: Exit)
      requires op == CurrentOp(program, pc) && ell == Skip(program.bitmask, pc)
      modifies this`pc, this`gas, this`gasCharged
      ensures (View(), status) == Settle(program, old(View()), act, old(CpuView()))
    {
      match act {
        case Next =>
          pc := (pc + 1 + ell) % W32;
          gasCharged := !IsTerminator(op);
          status := Running;
        case JumpTo(target) =>
          pc, gasCharged := target, false;
          status := Running;
        case HaltNow =>
          status := Halt;
        case PanicNow =>
          gas := gas - (blkCost - blkSpent);
          status := Panic;
        case FaultAt(a) =>
          gas := gas - (blkCost - blkSpent);
          status := PageFault(a);
        case CallHost(id) =>
          status := HostCall(id);
      }
    }

    /** Decodes and executes the instruction at the program counter. */
    method ExecuteCurrent() returns (op: nat, ell: nat, act: Action)
      modifies this`regs, memory
      ensures op == CurrentOp(program, pc) && ell == Skip(program.bitmask, pc)
      ensures (act, CpuView()) == RunOp(program, Semantics(program, alu), pc, old(CpuView()))
    {
      op := Zeta(program.code, pc);
      ell := ComputeSkip(program.bitmask, pc);
      act := ExecuteOne(op, pc, ell);
    }

    /** Executes exactly one instruction, or refuses the block it would enter. */
    method StepOne() returns (op: nat, status: Exit)
      requires Decoded(program)
      modifies this, memory
      ensures (View(), status) == Step(program, Semantics(program, alu), old(View()))
      ensures status != OutOfGas ==> op == Zeta(program.code, old(pc))
    {
      var admitted := Admit();
      if !admitted {
        return 0, OutOfGas;
      }
      var ell, act;
      op, ell, act := ExecuteCurrent();
      StepSettles(program, Semantics(program, alu), old(View()), act, CpuView());
      status := Resolve(op, ell, act);
    }

    /** Executes until a halting condition. */
    method RunAll() returns (status: Exit)
      requires Decoded(program)
      modifies this, memory
      ensures Controlled(program, Semantics(program, alu))
      ensures View() == Run(program, Semantics(program, alu), old(View())).0
      ensures status == Run(program, Semantics(program, alu), old(View())).1
    {
      SemanticsControlled(program, alu);
      while true
        invariant Run(program, Semantics(program, alu), View()).0
               == Run(program, Semantics(program, alu), old(View())).0
        invariant Run(program, Semantics(program, alu), View()).1
               == Run(program, Semantics(program, alu), old(View())).1
        decreases Max(gas, 0), Left(program, View())
      {
        ghost var s := View();
        var op;
        op, status := StepOne();
        if status != Running {
          return;
        }
        StepShrinks(program, Semantics(program, alu), s);
      }
    }

    /** Moves past the current host-call instruction, inside the block already charged. */
    method AdvanceHost()
      modifies this`pc
      ensures pc == NextPc(program.bitmask, old(pc)) % W32
    {
      var ell := ComputeSkip(program.bitmask, pc);
      pc := (pc + 1 + ell) % W32;
    }
  }
}
