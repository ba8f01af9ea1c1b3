/**
 * Gas: the interpreter gates a basic block on its whole cost but deducts per instruction; the
 * documented machine deducts the whole block on entry. Both are generic in the instruction semantics
 * `ex`, of which only the control discipline `Controlled` matters.
 */
module PvmGas {
  import opened Base
  import opened PvmProgram
  import opened PvmExecute

  datatype Exit = Running | Halt | Panic | OutOfGas | PageFault(address: u32) | HostCall(id: u64)

  /** The interpreter's state; `blkCost` and `blkSpent` matter only while a block is charged. */
  datatype State = State(pc: u32, gas: int, cpu: Cpu, charged: bool, blkCost: int, blkSpent: int)

  /** The part of `act` that the instruction at `i` may return. */
  ghost predicate ControlledAction(p: Program, op: nat, i: nat, ell: nat, act: Action) {
    && (act.JumpTo? ==> IsTerminator(op) && act.target in p.blocks)
    && (act.Next? && IsTerminator(op) ==> i + 1 + ell in p.blocks)
    && (act.HaltNow? ==> IsTerminator(op))
    && (act.CallHost? ==> !IsTerminator(op))
    && (op == 0 ==> act.PanicNow?)
  }

  ghost predicate Controlled(p: Program, ex: Exec) {
    forall op, i, ell, c :: ControlledAction(p, op, i, ell, ex(op, i, ell, c).0)
  }

  /** The real instruction set is controlled. */
  lemma SemanticsControlled(p: Program, alu: Alu)
    requires Decoded(p)
    ensures Controlled(p, Semantics(p, alu))
  {
    forall op, i, ell, c
      ensures ControlledAction(p, op, i, ell, Semantics(p, alu)(op, i, ell, c).0)
    {
      ExecuteControl(p, alu, op, i, ell, c);
    }
  }

  function CurrentOp(p: Program, pc: nat): byte {
    Zeta(p.code, pc)
  }

  function RunOp(p: Program, ex: Exec, pc: nat, cpu: Cpu): (Action, Cpu) {
    ex(CurrentOp(p, pc), pc, Skip(p.bitmask, pc), cpu)
  }

  // ------------------------------------------------------------ the interpreter

  ghost predicate Refused(p: Program, s: State) {
    !s.charged && s.gas < BlockGasCost(p, BlockStartOf(p, s.pc))
  }

  /** The gate admits the block, then the first instruction is paid for. */
  ghost function Pay(p: Program, s: State): State {
    var entered := if s.charged then s
                   else s.(charged := true, blkCost := BlockGasCost(p, BlockStartOf(p, s.pc)), blkSpent := 0);
    entered.(gas := entered.gas - 1, blkSpent := entered.blkSpent + 1)
  }

  /** How one executed instruction leaves the interpreter; a trap also pays for the rest of its block. */
  function Settle(p: Program, s: State, act: Action, cpu: Cpu): (State, Exit) {
    var t := s.(cpu := cpu);
    match act
    case Next => (t.(pc := NextPc(p.bitmask, s.pc) % W32, charged := !IsTerminator(CurrentOp(p, s.pc))), Running)
    case JumpTo(target) => (t.(pc := target, charged := false), Running)
    case HaltNow => (t, Halt)
    case PanicNow => (t.(gas := t.gas - (t.blkCost - t.blkSpent)), Panic)
    case FaultAt(a) => (t.(gas := t.gas - (t.blkCost - t.blkSpent)), PageFault(a))
    case CallHost(id) => (t, HostCall(id))
  }

  ghost function Step(p: Program, ex: Exec, s: State): (State, Exit) {
    if Refused(p, s) then (s, OutOfGas)
    else
      var (act, cpu) := RunOp(p, ex, s.pc, s.cpu);
      Settle(p, Pay(p, s), act, cpu)
  }

  /** Instructions left of a block that is charged. */
  ghost function Left(p: Program, s: State): nat {
    if s.charged then InstrCount(p, s.pc) else 0
  }

  /** The instruction at `pc` is controlled, a position past the code traps, and successors fit 32 bits. */
  lemma RunOpControlled(p: Program, ex: Exec, pc: nat, cpu: Cpu)
    requires Decoded(p) && Controlled(p, ex)
    ensures ControlledAction(p, CurrentOp(p, pc), pc, Skip(p.bitmask, pc), RunOp(p, ex, pc, cpu).0)
    ensures pc >= |p.code| ==> RunOp(p, ex, pc, cpu).0.PanicNow?
    ensures pc < |p.code| ==> NextPc(p.bitmask, pc) % W32 == NextPc(p.bitmask, pc)
  {
  }

  /** A running step costs one unit; in debt, it is one of the instructions left of a charged block. */
  lemma StepShrinks(p: Program, ex: Exec, s: State)
    requires Decoded(p) && Controlled(p, ex) && Step(p, ex, s).1 == Running
    ensures Step(p, ex, s).0.gas == s.gas - 1
    ensures s.gas <= 0 ==> s.charged && Left(p, Step(p, ex, s).0) < Left(p, s)
  {
    InstrCountBound(p, s.pc);
    InstrCountBound(p, BlockStartOf(p, s.pc));
    RunOpControlled(p, ex, s.pc, s.cpu);
  }

  /** Runs to the first status other than `Running`, counting instructions; total for every start, in debt or not. */
  ghost function Run(p: Program, ex: Exec, s: State): (State, Exit, nat)
    requires Decoded(p) && Controlled(p, ex)
    decreases Max(s.gas, 0), Left(p, s)
  {
    var (t, e) := Step(p, ex, s);
    if e == Running then
      StepShrinks(p, ex, s);
      var (u, f, n) := Run(p, ex, t);
      (u, f, n + 1)
    else (t, e, if e == OutOfGas then 0 else 1)
  }

  // ------------------------------------------------------------ the documented machine

  datatype BlockState = BlockState(pc: u32, gas: int, cpu: Cpu, charged: bool)

  /** Charges the whole block on entry and never again. */
  ghost function BlockStep(p: Program, ex: Exec, b: BlockState): (BlockState, Exit) {
    var cost := BlockGasCost(p, BlockStartOf(p, b.pc));
    if !b.charged && b.gas < cost then (b, OutOfGas)
    else
      var (act, cpu) := RunOp(p, ex, b.pc, b.cpu);
      var t := BlockState(b.pc, if b.charged then b.gas else b.gas - cost, cpu, true);
      match act
      case Next => (t.(pc := NextPc(p.bitmask, b.pc) % W32, charged := !IsTerminator(CurrentOp(p, b.pc))), Running)
      case JumpTo(target) => (t.(pc := target, charged := false), Running)
      case HaltNow => (t, Halt)
      case PanicNow => (t, Panic)
      case FaultAt(a) => (t, PageFault(a))
      case CallHost(id) => (t, HostCall(id))
  }

  ghost function BlockRun(p: Program, ex: Exec, b: BlockState): (BlockState, Exit)
    requires Decoded(p) && Controlled(p, ex)
    decreases Max(b.gas, 0), if b.charged then InstrCount(p, b.pc) else 0
  {
    var (t, e) := BlockStep(p, ex, b);
    if e == Running then
      InstrCountBound(p, b.pc);
      BlockRun(p, ex, t)
    else (t, e)
  }

  // ------------------------------------------------------------ refinement

  /**
   * The two machines agree on everything but gas; the interpreter still holds the part of the current
   * block it has not spent. `drift` is gas it keeps for good when a block was entered in its middle.
   */
  ghost predicate Related(p: Program, s: State, b: BlockState, drift: int) {
    && s.pc == b.pc && s.cpu == b.cpu && s.charged == b.charged
    && if s.charged
       then s.blkCost - s.blkSpent == InstrCount(p, s.pc) + drift && s.gas == b.gas + (s.blkCost - s.blkSpent)
       else s.pc in p.blocks && s.gas == b.gas
  }

  /** Entry cost in excess of the instructions that will run when a block is entered at `pc`. */
  ghost function Drift(p: Program, pc: nat): int {
    BlockGasCost(p, BlockStartOf(p, pc)) - InstrCount(p, pc)
  }

  /** Two machines about to enter a block at any position, with the same gas. */
  ghost predicate SameStart(s: State, b: BlockState) {
    s.pc == b.pc && s.cpu == b.cpu && !s.charged && !b.charged && s.gas == b.gas
  }

  /** What the exits owe each other: equal gas, except that a host call interrupts a block half spent. */
  ghost predicate SameExit(p: Program, s: State, b: BlockState, e: Exit, drift: int) {
    && s.pc == b.pc && s.cpu == b.cpu
    && match e
       case Halt => s.gas == b.gas + drift
       case HostCall(_) => s.gas == b.gas + (s.blkCost - s.blkSpent)
                           && s.blkCost - s.blkSpent == InstrCount(p, NextPc(p.bitmask, s.pc)) + drift
       case _ => s.gas == b.gas
  }

  /** One step of each machine, from related states or from a common block entry. */
  lemma StepSimulation(p: Program, ex: Exec, s: State, b: BlockState, drift: int)
    requires Decoded(p) && Controlled(p, ex)
    requires (s.charged && Related(p, s, b, drift)) || (SameStart(s, b) && drift == Drift(p, s.pc))
    ensures Step(p, ex, s).1 == BlockStep(p, ex, b).1
    ensures var (t, e) := Step(p, ex, s); var c := BlockStep(p, ex, b).0;
            if e != Running then SameExit(p, t, c, e, drift)
            else if t.charged then Related(p, t, c, drift)
            else t.pc in p.blocks && SameStart(t, c.(gas := c.gas + drift))
  {
    var pc := s.pc;
    RunOpControlled(p, ex, pc, s.cpu);
  }

  /** Entering blocks at their starts never makes a drift, if and only if no block is cut off. */
  lemma NoDriftIffUncut(p: Program)
    ensures (forall pc | pc in p.blocks :: Drift(p, pc) == 0) <==> Uncut(p)
  {
    forall pc | pc in p.blocks
      ensures Drift(p, pc) == 0 <==> InstrCount(p, pc) <= COUNT_CAP + 1
    {
      assert BlockStartOf(p, pc) == pc;
    }
    if forall pc | pc in p.blocks :: Drift(p, pc) == 0 {
      forall pc | pc in p.blocks
        ensures InstrCount(p, pc) <= COUNT_CAP + 1
      {
        assert Drift(p, pc) == 0;
      }
    }
  }

  /**
   * Main refinement, for programs without a block that is cut off: from a block start the interpreter and
   * the documented machine reach the same exit, position, registers and memory; gas is equal on every halt,
   * trap, fault and refusal.
   */
  lemma {:induction false} GasRefinement(p: Program, ex: Exec, s: State, b: BlockState)
    requires Decoded(p) && Controlled(p, ex) && Uncut(p)
    requires Related(p, s, b, 0)
    ensures var (t, e, n) := Run(p, ex, s); var (c, f) := BlockRun(p, ex, b);
            e == f && SameExit(p, t, c, e, 0)
    decreases Max(s.gas, 0), Left(p, s)
  {
    NoDriftIffUncut(p);
    StepSimulation(p, ex, s, b, 0);
    var (t, e) := Step(p, ex, s);
    if e == Running {
      StepShrinks(p, ex, s);
      var c := BlockStep(p, ex, b).0;
      assert !t.charged ==> c.(gas := c.gas + 0) == c;
      GasRefinement(p, ex, t, c);
    }
  }

  // ------------------------------------------------------------ starting inside a block

  lemma InBlockAdvance(p: Program, ex: Exec, s: State)
    requires Decoded(p) && Controlled(p, ex)
    requires Step(p, ex, s).1 == Running && Step(p, ex, s).0.charged
    ensures InstrCount(p, Step(p, ex, s).0.pc) == InstrCount(p, s.pc) - 1
  {
    RunOpControlled(p, ex, s.pc, s.cpu);
  }

  lemma InBlockAdvanceDoc(p: Program, ex: Exec, b: BlockState)
    requires Decoded(p) && Controlled(p, ex)
    requires BlockStep(p, ex, b).1 == Running && BlockStep(p, ex, b).0.charged
    ensures InstrCount(p, BlockStep(p, ex, b).0.pc) == InstrCount(p, b.pc) - 1
  {
    RunOpControlled(p, ex, b.pc, b.cpu);
  }

  /** Runs until the block being executed is left, by an exit or by entering another block. */
  ghost function LeaveBlock(p: Program, ex: Exec, s: State): (State, Exit)
    requires Decoded(p) && Controlled(p, ex)
    decreases InstrCount(p, s.pc)
  {
    var (t, e) := Step(p, ex, s);
    if e != Running || !t.charged then (t, e)
    else
      InBlockAdvance(p, ex, s);
      LeaveBlock(p, ex, t)
  }

  ghost function LeaveBlockDoc(p: Program, ex: Exec, b: BlockState): (BlockState, Exit)
    requires Decoded(p) && Controlled(p, ex)
    decreases InstrCount(p, b.pc)
  {
    var (c, e) := BlockStep(p, ex, b);
    if e != Running || !c.charged then (c, e)
    else
      InBlockAdvanceDoc(p, ex, b);
      LeaveBlockDoc(p, ex, c)
  }

  /**
   * Started anywhere, both machines leave the first block the same way, and the interpreter has then
   * kept exactly the drift: after a jump or a halt their gas agrees if and only if the drift is zero.
   */
  lemma {:induction false} FirstBlockDrift(p: Program, ex: Exec, s: State, b: BlockState, drift: int)
    requires Decoded(p) && Controlled(p, ex)
    requires (s.charged && Related(p, s, b, drift)) || (SameStart(s, b) && drift == Drift(p, s.pc))
    ensures var (t, e) := LeaveBlock(p, ex, s); var (c, f) := LeaveBlockDoc(p, ex, b);
            && e == f && t.pc == c.pc && t.cpu == c.cpu
            && (e == Running || e == Halt ==> (t.gas == c.gas <==> drift == 0) && t.gas == c.gas + drift)
            && (e == Panic || e.PageFault? || e == OutOfGas ==> t.gas == c.gas)
    decreases InstrCount(p, s.pc)
  {
    StepSimulation(p, ex, s, b, drift);
    var (t, e) := Step(p, ex, s);
    if e == Running && t.charged {
      InBlockAdvance(p, ex, s);
      FirstBlockDrift(p, ex, t, BlockStep(p, ex, b).0, drift);
    }
  }

  /** A no-op, a fall-through and a trap; entered at the fall-through it shows one unit of drift. */
  const MID_BLOCK: Program := Program([2, 1, 0], [true, true, true], [], {0, 2, 3})

  lemma MidBlockDiverges(alu: Alu, cpu: Cpu)
    ensures Decoded(MID_BLOCK) && 1 !in MID_BLOCK.blocks && Drift(MID_BLOCK, 1) == 1
    ensures var ex := Semantics(MID_BLOCK, alu);
            var (t, e) := Step(MID_BLOCK, ex, State(1, 10, cpu, false, 0, 0));
            var (c, f) := BlockStep(MID_BLOCK, ex, BlockState(1, 10, cpu, false));
            e == f == Running && t.gas == 9 && c.gas == 8
  {
    MidBlockLayout();
    var p := MID_BLOCK;
    assert RunOp(p, Semantics(p, alu), 1, cpu) == (JumpTo(2), cpu) by {
      assert Execute(p, alu, 1, 1, 0, cpu) == (JumpTo(2), cpu);
    }
  }

  lemma MidBlockLayout()
    ensures Decoded(MID_BLOCK) && Skip(MID_BLOCK.bitmask, 1) == 0 && BlockStartOf(MID_BLOCK, 1) == 0
    ensures InstrCount(MID_BLOCK, 1) == 1 && InstrCount(MID_BLOCK, 0) == 2 && BlockGasCost(MID_BLOCK, 0) == 2
  {
    var code, mask := MID_BLOCK.code, MID_BLOCK.bitmask;
    assert SkipFrom(mask, 0, 0) == SkipFrom(mask, 1, 0) == SkipFrom(mask, 2, 0) == 0;
    assert NextPc(mask, 0) == 1 && NextPc(mask, 1) == 2 && NextPc(mask, 2) == 3;
    assert StartsUpTo(code, mask, 0) == {0};
    assert StartsUpTo(code, mask, 1) == {0};
    assert StartsUpTo(code, mask, 2) == {0, 2};
    assert StartsUpTo(code, mask, 3) == {0, 2, 3};
  }

  /** `n` one-byte instructions that fall through, none of them a terminator. */
  function LongBlock(n: nat): Program {
    var code, mask := seq(n, _ => 2), seq(n, _ => true);
    Program(code, mask, [], BasicBlocks(code, mask))
  }

  lemma {:induction false} LongBlockCount(n: nat, pc: nat)
    requires pc <= n
    ensures InstrCount(LongBlock(n), pc) == n - pc + 1
    decreases n - pc
  {
    if pc < n {
      assert NextPc(LongBlock(n).bitmask, pc) == pc + 1;
      LongBlockCount(n, pc + 1);
    }
  }

  /** A block that is cut off is charged too little: its drift is negative already at its start. */
  lemma LongBlockDrifts(n: nat)
    requires n > COUNT_CAP
    ensures 0 in LongBlock(n).blocks && !Uncut(LongBlock(n)) && Drift(LongBlock(n), 0) == COUNT_CAP - n
  {
    LongBlockCount(n, 0);
    BasicBlocksMeaning(LongBlock(n).code, LongBlock(n).bitmask, 0);
  }

  // ------------------------------------------------------------ gas bounds over whole runs

  /** The state after `k` running steps, if the machine gets that far. */
  ghost function After(p: Program, ex: Exec, s: State, k: nat): Option<State> {
    if k == 0 then Some(s)
    else match After(p, ex, s, k - 1)
         case None => None
         case Some(t) => var (u, e) := Step(p, ex, t); if e == Running then Some(u) else None
  }

  /** Blocks are entered only at their starts, and the charged block is always affordable. */
  ghost predicate Solvent(p: Program, s: State) {
    if s.charged then s.gas >= s.blkCost - s.blkSpent == InstrCount(p, s.pc)
    else s.pc in p.blocks && s.gas >= 0
  }

  lemma StepSolvent(p: Program, ex: Exec, s: State)
    requires Decoded(p) && Controlled(p, ex) && Uncut(p) && Solvent(p, s)
    ensures var (t, e) := Step(p, ex, s);
            && t.gas >= 0
            && (e == Running ==> Solvent(p, t) && t.gas == s.gas - 1)
            && (e != Running && e != OutOfGas ==> s.gas >= 1)
            && (e == Halt ==> t.gas == s.gas - 1 && t.blkCost == t.blkSpent)
  {
    var pc := s.pc;
    RunOpControlled(p, ex, pc, s.cpu);
    assert !s.charged ==> InstrCount(p, pc) <= COUNT_CAP + 1;
    InstrCountBound(p, pc);
    InstrCountBound(p, NextPc(p.bitmask, pc));
  }

  /**
   * From a block start with non-negative gas: every reachable state is solvent, so a block is charged
   * only at a block start, and each running step has cost exactly one unit.
   */
  lemma {:induction false} ReachableSolvent(p: Program, ex: Exec, s: State, k: nat)
    requires Decoded(p) && Controlled(p, ex) && Uncut(p)
    requires Solvent(p, s) && After(p, ex, s, k).Some?
    ensures Solvent(p, After(p, ex, s, k).value)
    ensures After(p, ex, s, k).value.gas == s.gas - k
    ensures k <= s.gas
  {
    if k > 0 {
      ReachableSolvent(p, ex, s, k - 1);
      StepSolvent(p, ex, After(p, ex, s, k - 1).value);
      InstrCountBound(p, After(p, ex, s, k).value.pc);
    }
  }

  /** The run stops within its initial gas, counted in instructions, and never ends in debt. */
  lemma {:induction false} RunWithinGas(p: Program, ex: Exec, s: State)
    requires Decoded(p) && Controlled(p, ex) && Uncut(p) && Solvent(p, s)
    ensures var (t, e, n) := Run(p, ex, s); 0 <= t.gas && n <= s.gas && e != Running
    ensures var (t, e, n) := Run(p, ex, s); e == Halt ==> t.gas == s.gas - n
    decreases s.gas
  {
    StepSolvent(p, ex, s);
    var (t, e) := Step(p, ex, s);
    if e == Running {
      StepShrinks(p, ex, s);
      RunWithinGas(p, ex, t);
    }
  }
}
