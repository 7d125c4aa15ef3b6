/**
  The sandboxed bytecode machine: one step, whole runs under an instruction budget, a stack limit and
  a set of capabilities, and the interpreter loop with its system-call host.
 */
module BytecodeVm {
  import opened Common
  import opened Limbs
  import opened BytecodeProgram

  const CAP_RCC_READ: int := 0x6801
  const CAP_OUTPUT: int := 0x6802
  const SYS_RCC_READ: int := 1
  const SYS_EMIT: int := 2

  datatype Fault =
    | InvalidProgram | BudgetExhausted | CounterOutOfRange | BranchOutOfRange | StackOverflow | StackUnderflow
    | MissingCapability(capability: int) | WrongArguments | InvalidRegister | UnsupportedSyscall | UnsupportedOpcode

  /** A pair of channel and value */
  type Output = (u32, u32)

  datatype Outcome =
    | Halted(executed: int, outputs: seq<Output>, stack: seq<u32>)
    | Faulted(fault: Fault, outputs: seq<Output>)

  /** What stays fixed while a program runs; the snapshot holds the three clock registers */
  datatype Setting = Setting(limit: int, caps: set<int>, rcc: seq<u32>)

  // ----- one step

  datatype Alu = Add | Sub | And | Or | Xor | Eq

  function Calc(a: Alu, l: u32, r: u32): u32 {
    match a
    case Add => (l as int + r as int) % 0x1_0000_0000
    case Sub => (l as int - r as int) % 0x1_0000_0000
    case And => (l as bv32 & r as bv32) as u32
    case Or => (l as bv32 | r as bv32) as u32
    case Xor => (l as bv32 ^ r as bv32) as u32
    case Eq => if l == r then 1 else 0
  }

  function Halved(x: u32, k: nat): u32 {
    if k == 0 then x else Halved(x, k - 1) / 2
  }

  datatype Effect = Go(pc: int, stack: seq<u32>, emitted: seq<Output>) | Trap(fault: Fault)

  function Push(pc: int, s: seq<u32>, v: u32, limit: int): Effect {
    if |s| >= limit then Trap(StackOverflow) else Go(pc, s + [v], [])
  }

  function Binary(a: Alu, pc: int, s: seq<u32>, limit: int): Effect {
    if |s| < 2 then Trap(StackUnderflow)
    else Push(pc, s[..|s| - 2], Calc(a, s[|s| - 2], s[|s| - 1]), limit)
  }

  function Duplicate(pc: int, s: seq<u32>, limit: int): Effect {
    if s == [] then Trap(StackUnderflow)
    else if |s| - 1 >= limit || |s| >= limit then Trap(StackOverflow)
    else Go(pc, s + [s[|s| - 1]], [])
  }

  function Swap(pc: int, s: seq<u32>): Effect {
    if |s| < 2 then Trap(StackUnderflow) else Go(pc, s[..|s| - 2] + [s[|s| - 1], s[|s| - 2]], [])
  }

  function Drop(pc: int, s: seq<u32>): Effect {
    if s == [] then Trap(StackUnderflow) else Go(pc, s[..|s| - 1], [])
  }

  function NonZero(pc: int, s: seq<u32>, limit: int): Effect {
    if s == [] then Trap(StackUnderflow) else Push(pc, s[..|s| - 1], if s[|s| - 1] != 0 then 1 else 0, limit)
  }

  function ShiftLeft(k: nat, pc: int, s: seq<u32>, limit: int): Effect {
    if s == [] then Trap(StackUnderflow) else Push(pc, s[..|s| - 1], Weight(s[|s| - 1], k) % 0x1_0000_0000, limit)
  }

  function ShiftRight(k: nat, pc: int, s: seq<u32>, limit: int): Effect {
    if s == [] then Trap(StackUnderflow) else Push(pc, s[..|s| - 1], Halved(s[|s| - 1], k), limit)
  }

  /** A jump to an instruction of the program, or a fault */
  function Jump(target: int, n: int, s: seq<u32>): Effect {
    if 0 <= target < n then Go(target, s, []) else Trap(BranchOutOfRange)
  }

  datatype Reply = Reply(results: seq<u32>, emitted: seq<Output>) | Denied(fault: Fault)

  /** A system call: reading one clock register, or emitting a value on a channel */
  function Handle(id: int, args: seq<u32>, caps: set<int>, rcc: seq<u32>): Reply {
    if id == SYS_RCC_READ then
      if CAP_RCC_READ !in caps then Denied(MissingCapability(CAP_RCC_READ))
      else if |args| != 1 then Denied(WrongArguments)
      else if args[0] >= |rcc| then Denied(InvalidRegister)
      else Reply([rcc[args[0]]], [])
    else if id == SYS_EMIT then
      if CAP_OUTPUT !in caps then Denied(MissingCapability(CAP_OUTPUT))
      else if |args| != 2 then Denied(WrongArguments)
      else Reply([], [(args[1], args[0])])
    else Denied(UnsupportedSyscall)
  }

  function Syscall(id: int, argc: nat, pc: int, s: seq<u32>, env: Setting): Effect {
    if |s| < argc then Trap(StackUnderflow)
    else
      var k := |s| - argc;
      match Handle(id, s[k..], env.caps, env.rcc)
      case Denied(fault) => Trap(fault)
      case Reply(results, emitted) =>
        if results != [] && k + |results| > env.limit then Trap(StackOverflow) else Go(pc, s[..k] + results, emitted)
  }

  function AluOf(opcode: int): Option<Alu> {
    if opcode == OP_ADD then Some(Add) else if opcode == OP_SUB then Some(Sub) else if opcode == OP_AND then Some(And)
    else if opcode == OP_OR then Some(Or) else if opcode == OP_XOR then Some(Xor) else if opcode == OP_EQ then Some(Eq)
    else None
  }

  /** One instruction other than a halt; pc is already past it, n is the length of the program */
  function Step(i: Instruction, pc: int, n: int, s: seq<u32>, env: Setting): Effect
    requires 0 <= i.operand
  {
    if AluOf(i.opcode).Some? then Binary(AluOf(i.opcode).value, pc, s, env.limit)
    else if i.opcode == OP_PUSH_U16 then Push(pc, s, i.immediate % 0x1_0000, env.limit)
    else if i.opcode == OP_DROP then Drop(pc, s)
    else if i.opcode == OP_DUP then Duplicate(pc, s, env.limit)
    else if i.opcode == OP_SWAP then Swap(pc, s)
    else if i.opcode == OP_SHL_IMM then ShiftLeft(i.operand, pc, s, env.limit)
    else if i.opcode == OP_SHR_IMM then ShiftRight(i.operand, pc, s, env.limit)
    else if i.opcode == OP_NEZ then NonZero(pc, s, env.limit)
    else if i.opcode == OP_JMP_REL then Jump(pc + i.immediate, n, s)
    else if i.opcode == OP_JZ_REL then
      if s == [] then Trap(StackUnderflow)
      else if s[|s| - 1] == 0 then Jump(pc + i.immediate, n, s[..|s| - 1])
      else Go(pc, s[..|s| - 1], [])
    else if i.opcode == OP_SYSCALL then Syscall(i.immediate % 0x1_0000, i.operand, pc, s, env)
    else Trap(UnsupportedOpcode)
  }

  // ----- whole runs

  function Run(code: seq<Instruction>, pc: int, s: seq<u32>, outs: seq<Output>, executed: int, budget: int,
      env: Setting): Outcome
    requires AllPackable(code)
    decreases budget - executed
  {
    if executed >= budget then Faulted(BudgetExhausted, outs)
    else if pc < 0 || pc >= |code| then Faulted(CounterOutOfRange, outs)
    else if code[pc].opcode == OP_HALT then Halted(executed + 1, outs, s)
    else
      match Step(code[pc], pc + 1, |code|, s, env)
      case Trap(fault) => Faulted(fault, outs)
      case Go(next, stack, emitted) => Run(code, next, stack, outs + emitted, executed + 1, budget, env)
  }

  function Least(x: int, y: int): int {
    if x <= y then x else y
  }

  /** Loading and running a program from its entry point with an empty stack */
  function Execution(blob: seq<u8>, budget: int, maxStack: int, caps: set<int>, rcc: seq<u32>): Outcome {
    match Parse(blob)
    case None => Faulted(InvalidProgram, [])
    case Some(p) => Run(p.instructions, p.entry / 4, [], [], 0, budget, Setting(Least(p.maxStack, maxStack), caps, rcc))
  }

  // ----- what every step and every run keeps

  lemma {:induction false} SyscallBounded(id: int, argc: nat, pc: int, s: seq<u32>, env: Setting)
    requires |s| <= env.limit
    ensures var e := Syscall(id, argc, pc, s, env);
            e.Go? ==> |e.stack| <= env.limit && (CAP_OUTPUT !in env.caps ==> e.emitted == [])
  {
  }

  /** Every other instruction changes the stack and the program counter only. */
  lemma {:induction false} SilentStep(i: Instruction, pc: int, n: int, s: seq<u32>, env: Setting)
    requires i.opcode != OP_SYSCALL && 0 <= i.operand
    ensures var e := Step(i, pc, n, s, env); e.Go? ==> e.emitted == [] && (|s| <= env.limit ==> |e.stack| <= env.limit)
  {
    hide Calc, Weight, Halved, Syscall;
  }

  lemma {:induction false} StepBounded(i: Instruction, pc: int, n: int, s: seq<u32>, env: Setting)
    requires 0 <= i.operand && |s| <= env.limit
    ensures var e := Step(i, pc, n, s, env);
            e.Go? ==> |e.stack| <= env.limit && (CAP_OUTPUT !in env.caps ==> e.emitted == [])
  {
    hide Step, Syscall;
    if i.opcode == OP_SYSCALL {
      SyscallStep(i, pc, n, s, env);
      SyscallBounded(i.immediate % 0x1_0000, i.operand, pc, s, env);
    } else {
      SilentStep(i, pc, n, s, env);
    }
  }

  /** A run ends within its budget, with a stack within the limit, and emits nothing without the output
      capability; what was emitted before it stays. */
  lemma {:induction false} RunBounded(code: seq<Instruction>, pc: int, s: seq<u32>, outs: seq<Output>, executed: int,
      budget: int, env: Setting)
    requires AllPackable(code) && |s| <= env.limit
    ensures var o := Run(code, pc, s, outs, executed, budget, env);
            && outs <= o.outputs
            && (o.Halted? ==> executed < o.executed <= budget && |o.stack| <= env.limit)
            && (CAP_OUTPUT !in env.caps ==> o.outputs == outs)
    decreases budget - executed
  {
    hide Step;
    if executed < budget && 0 <= pc < |code| && code[pc].opcode != OP_HALT {
      var e := Step(code[pc], pc + 1, |code|, s, env);
      StepBounded(code[pc], pc + 1, |code|, s, env);
      if e.Go? {
        RunBounded(code, e.pc, e.stack, outs + e.emitted, executed + 1, budget, env);
      }
    }
  }

  lemma {:induction false} SyscallRoomier(id: int, argc: nat, pc: int, s: seq<u32>, env: Setting, limit: int)
    requires env.limit <= limit && Syscall(id, argc, pc, s, env).Go?
    ensures Syscall(id, argc, pc, s, env.(limit := limit)) == Syscall(id, argc, pc, s, env)
  {
    hide Handle;
  }

  /** What a step does with room to spare it does with more room. */
  lemma {:induction false} StepRoomier(i: Instruction, pc: int, n: int, s: seq<u32>, env: Setting, limit: int)
    requires 0 <= i.operand && env.limit <= limit && Step(i, pc, n, s, env).Go?
    ensures Step(i, pc, n, s, env.(limit := limit)) == Step(i, pc, n, s, env)
  {
    hide Calc, Weight, Halved, Syscall, Drop, Swap, Jump;
    if i.opcode == OP_SYSCALL {
      hide Step;
      SyscallStep(i, pc, n, s, env);
      SyscallStep(i, pc, n, s, env.(limit := limit));
      SyscallRoomier(i.immediate % 0x1_0000, i.operand, pc, s, env, limit);
    }
  }

  /** A halting run is unchanged by a higher budget or a higher stack limit. */
  lemma {:induction false} RunMonotone(code: seq<Instruction>, pc: int, s: seq<u32>, outs: seq<Output>, executed: int,
      budget: int, more: int, env: Setting, limit: int)
    requires AllPackable(code) && budget <= more && env.limit <= limit
    requires Run(code, pc, s, outs, executed, budget, env).Halted?
    ensures Run(code, pc, s, outs, executed, more, env.(limit := limit))
      == Run(code, pc, s, outs, executed, budget, env)
    decreases budget - executed
  {
    hide Step;
    if code[pc].opcode != OP_HALT {
      var e := Step(code[pc], pc + 1, |code|, s, env);
      StepRoomier(code[pc], pc + 1, |code|, s, env, limit);
      RunMonotone(code, e.pc, e.stack, outs + e.emitted, executed + 1, budget, more, env, limit);
    }
  }

  lemma {:induction false} StepBlind(i: Instruction, pc: int, n: int, s: seq<u32>, env: Setting, rcc: seq<u32>)
    requires 0 <= i.operand && CAP_RCC_READ !in env.caps
    ensures Step(i, pc, n, s, env.(rcc := rcc)) == Step(i, pc, n, s, env)
  {
    hide Binary, Push, Duplicate, NonZero, ShiftLeft, ShiftRight, Drop, Swap, Jump;
  }

  /** Without the capability to read them, the clock registers do not influence a run at all. */
  lemma {:induction false} RunBlind(code: seq<Instruction>, pc: int, s: seq<u32>, outs: seq<Output>, executed: int,
      budget: int, env: Setting, rcc: seq<u32>)
    requires AllPackable(code) && CAP_RCC_READ !in env.caps
    ensures Run(code, pc, s, outs, executed, budget, env.(rcc := rcc)) == Run(code, pc, s, outs, executed, budget, env)
    decreases budget - executed
  {
    hide Step;
    if executed < budget && 0 <= pc < |code| && code[pc].opcode != OP_HALT {
      var e := Step(code[pc], pc + 1, |code|, s, env);
      StepBlind(code[pc], pc + 1, |code|, s, env, rcc);
      if e.Go? {
        RunBlind(code, e.pc, e.stack, outs + e.emitted, executed + 1, budget, env, rcc);
      }
    }
  }

  /** The sandbox: whatever bytes are executed, a result stays within budget and stack limits, and it
      does not depend on the clock registers, nor produce outputs, without the capability. */
  lemma {:induction false} Sandbox(blob: seq<u8>, budget: int, maxStack: int, caps: set<int>, rcc: seq<u32>)
    requires maxStack > 0
    ensures var o := Execution(blob, budget, maxStack, caps, rcc);
            && (o.Halted? ==> 0 < o.executed <= budget && |o.stack| <= maxStack)
            && (o.Halted? ==> Parse(blob).Some? && |o.stack| <= Parse(blob).value.maxStack)
            && (CAP_OUTPUT !in caps ==> o.outputs == [])
            && (CAP_RCC_READ !in caps ==> forall other :: Execution(blob, budget, maxStack, caps, other) == o)
  {
    hide Run, Load16, ValidInstruction, Decoded;
    if Parse(blob).Some? {
      var p := Parse(blob).value;
      var env := Setting(Least(p.maxStack, maxStack), caps, rcc);
      RunBounded(p.instructions, p.entry / 4, [], [], 0, budget, env);
      if CAP_RCC_READ !in caps {
        forall other
          ensures Execution(blob, budget, maxStack, caps, other) == Execution(blob, budget, maxStack, caps, rcc)
        {
          RunBlind(p.instructions, p.entry / 4, [], [], 0, budget, env, other);
          assert env.(rcc := other) == Setting(Least(p.maxStack, maxStack), caps, other);
        }
      }
    }
  }

  /** A halting result survives a higher budget and a higher machine stack limit. */
  lemma {:induction false} ExecutionMonotone(blob: seq<u8>, budget: int, more: int, maxStack: int, higher: int,
      caps: set<int>, rcc: seq<u32>)
    requires budget <= more && maxStack <= higher && Execution(blob, budget, maxStack, caps, rcc).Halted?
    ensures Execution(blob, more, higher, caps, rcc) == Execution(blob, budget, maxStack, caps, rcc)
  {
    hide Run, Load16, ValidInstruction, Decoded;
    var p := Parse(blob).value;
    var env := Setting(Least(p.maxStack, maxStack), caps, rcc);
    RunMonotone(p.instructions, p.entry / 4, [], [], 0, budget, more, env, Least(p.maxStack, higher));
    assert env.(limit := Least(p.maxStack, higher)) == Setting(Least(p.maxStack, higher), caps, rcc);
  }

  // ----- the interpreter

  class SyscallHost {
    const rcc: seq<u32>
    var outputs: seq<Output>

    constructor (rcc: seq<u32>)
      requires |rcc| == 3
      ensures this.rcc == rcc && outputs == []
    {
      this.rcc, outputs := rcc, [];
    }

    method Serve(id: int, args: seq<u32>, caps: set<int>) returns (results: seq<u32>, fault: Option<Fault>)
      modifies this
      ensures
        match Handle(id, args, caps, rcc)
        case Denied(f) => fault == Some(f) && outputs == old(outputs)
        case Reply(rs, emitted) => fault == None && results == rs && outputs == old(outputs) + emitted
    {
      results, fault := [], None;
      if id == SYS_RCC_READ {
        if CAP_RCC_READ !in caps {
          fault := Some(MissingCapability(CAP_RCC_READ));
        } else if |args| != 1 {
          fault := Some(WrongArguments);
        } else if args[0] >= |rcc| {
          fault := Some(InvalidRegister);
        } else {
          results := [rcc[args[0]]];
        }
      } else if id == SYS_EMIT {
        if CAP_OUTPUT !in caps {
          fault := Some(MissingCapability(CAP_OUTPUT));
        } else if |args| != 2 {
          fault := Some(WrongArguments);
        } else {
          outputs := outputs + [(args[1], args[0])];
        }
      } else {
        fault := Some(UnsupportedSyscall);
      }
    }
  }

  class Machine {
    const budget: int
    const maxStack: int
    const host: SyscallHost

    constructor (budget: int, maxStack: int, host: SyscallHost)
      requires budget > 0 && 0 < maxStack <= 64
      ensures this.budget == budget && this.maxStack == maxStack && this.host == host
    {
      this.budget, this.maxStack, this.host := budget, maxStack, host;
    }

    method Execute(blob: seq<u8>, caps: set<int>) returns (o: Outcome)
      modifies host
      ensures o == Execution(blob, budget, maxStack, caps, host.rcc) && host.outputs == o.outputs
    {
      hide Step, Parse, ValidInstruction, Handle;
      host.outputs := [];
      var parsed := ParseProgram(blob);
      if parsed.None? {
        return Faulted(InvalidProgram, []);
      }
      var p := parsed.value;
      ParsedPackable(blob);
      var code, env := p.instructions, Setting(Least(p.maxStack, maxStack), caps, host.rcc);
      var pc, stack, executed := p.entry / 4, [], 0;
      while true
        invariant Run(code, pc, stack, host.outputs, executed, budget, env)
          == Execution(blob, budget, maxStack, caps, host.rcc)
        decreases budget - executed
      {
        if executed >= budget {
          return Faulted(BudgetExhausted, host.outputs);
        }
        if pc < 0 || pc >= |code| {
          return Faulted(CounterOutOfRange, host.outputs);
        }
        var i := code[pc];
        if i.opcode == OP_HALT {
          return Halted(executed + 1, host.outputs, stack);
        }
        ghost var effect := Step(i, pc + 1, |code|, stack, env);
        if i.opcode == OP_SYSCALL {
          SyscallStep(i, pc + 1, |code|, stack, env);
          if |stack| < i.operand {
            return Faulted(StackUnderflow, host.outputs);
          }
          var k := |stack| - i.operand;
          ResultsOrOutputs(i.immediate % 0x1_0000, stack[k..], caps, host.rcc);
          var results, fault := host.Serve(i.immediate % 0x1_0000, stack[k..], caps);
          if fault.Some? {
            return Faulted(fault.value, host.outputs);
          }
          if results != [] && k + |results| > env.limit {
            return Faulted(StackOverflow, host.outputs);
          }
          pc, stack := pc + 1, stack[..k] + results;
        } else {
          SilentStep(i, pc + 1, |code|, stack, env);
          var e := Step(i, pc + 1, |code|, stack, env);
          if e.Trap? {
            return Faulted(e.fault, host.outputs);
          }
          assert host.outputs + e.emitted == host.outputs;
          pc, stack := e.pc, e.stack;
        }
        executed := executed + 1;
      }
    }
  }

  lemma {:induction false} ResultsOrOutputs(id: int, args: seq<u32>, caps: set<int>, rcc: seq<u32>)
    ensures var reply := Handle(id, args, caps, rcc); reply.Reply? ==> reply.results == [] || reply.emitted == []
  {
  }

  lemma {:induction false} ParsedPackable(blob: seq<u8>)
    requires Parse(blob).Some?
    ensures AllPackable(Parse(blob).value.instructions)
  {
    hide Load16, ValidInstruction, Decoded;
  }

  lemma {:induction false} SyscallStep(i: Instruction, pc: int, n: int, s: seq<u32>, env: Setting)
    requires i.opcode == OP_SYSCALL && 0 <= i.operand
    ensures Step(i, pc, n, s, env) == Syscall(i.immediate % 0x1_0000, i.operand, pc, s, env)
  {
  }
}
