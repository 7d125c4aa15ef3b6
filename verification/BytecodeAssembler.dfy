/**
  The assembler: labels become relative branches and 16-bit numbers become signed immediates.  The
  meaning of a source program is given by an interpreter that jumps to labels directly; assembled
  bytes are proved to mean the same.
 */
module BytecodeAssembler {
  import opened Common
  import opened Limbs
  import opened BytecodeProgram
  import opened BytecodeVm

  /** Source instructions, with numbers already read */
  datatype Item =
    | HaltItem | DropItem | DupItem | SwapItem | NezItem | AluItem(alu: Alu)
    | PushItem(n: int) | ShlItem(k: int) | ShrItem(k: int)
    | JmpItem(target: string) | JzItem(target: string) | SyscallItem(id: int, argc: int)

  datatype Line = StackLine(n: int) | CapLine(cap: int) | LabelLine(name: string) | CodeLine(item: Item)

  datatype Source = Source(labels: map<string, int>, items: seq<Item>, caps: seq<int>, maxStack: int)

  datatype Assembly = Assembly(bytecode: seq<u8>, caps: seq<int>, maxStack: int)

  // ----- reading the lines

  /** One more line: directives and labels are noted, instructions are kept for later */
  function Noted(src: Source, line: Line): Option<Source> {
    match line
    case StackLine(n) => if 0 <= n < 0x1_0000 then Some(src.(maxStack := n)) else None
    case CapLine(cap) => if 0 <= cap < 0x1_0000_0000 then Some(src.(caps := src.caps + [cap])) else None
    case LabelLine(name) => if name in src.labels then None else Some(src.(labels := src.labels[name := |src.items|]))
    case CodeLine(item) => Some(src.(items := src.items + [item]))
  }

  function Collected(lines: seq<Line>): Option<Source> {
    if lines == [] then Some(Source(map[], [], [], 16))
    else
      match Collected(lines[..|lines| - 1])
      case None => None
      case Some(src) => Noted(src, lines[|lines| - 1])
  }

  // ----- translation

  function OpcodeOf(a: Alu): int {
    match a
    case Add => OP_ADD
    case Sub => OP_SUB
    case And => OP_AND
    case Or => OP_OR
    case Xor => OP_XOR
    case Eq => OP_EQ
  }

  function AssembleInstruction(item: Item, labels: map<string, int>, pc: int): Option<Instruction> {
    match item
    case HaltItem => Some(Instruction(OP_HALT, 0, 0))
    case DropItem => Some(Instruction(OP_DROP, 0, 0))
    case DupItem => Some(Instruction(OP_DUP, 0, 0))
    case SwapItem => Some(Instruction(OP_SWAP, 0, 0))
    case NezItem => Some(Instruction(OP_NEZ, 0, 0))
    case AluItem(alu) => Some(Instruction(OpcodeOf(alu), 0, 0))
    case PushItem(n) => if 0 <= n < 0x1_0000 then Some(Instruction(OP_PUSH_U16, 0, Signed16(n))) else None
    case ShlItem(k) => if 0 <= k <= 31 then Some(Instruction(OP_SHL_IMM, k, 0)) else None
    case ShrItem(k) => if 0 <= k <= 31 then Some(Instruction(OP_SHR_IMM, k, 0)) else None
    case JmpItem(target) => Branch(OP_JMP_REL, target, labels, pc)
    case JzItem(target) => Branch(OP_JZ_REL, target, labels, pc)
    case SyscallItem(id, argc) =>
      if 0 <= id < 0x1_0000 && 0 <= argc < 0x100 then Some(Instruction(OP_SYSCALL, argc, Signed16(id))) else None
  }

  /** A branch is relative to the instruction after it. */
  function Branch(opcode: int, target: string, labels: map<string, int>, pc: int): Option<Instruction> {
    if target !in labels then None
    else
      var relative := labels[target] - (pc + 1);
      if relative < -32768 || relative > 32767 then None else Some(Instruction(opcode, 0, relative))
  }

  predicate AllAssemble(items: seq<Item>, labels: map<string, int>) {
    forall pc :: 0 <= pc < |items| ==> AssembleInstruction(items[pc], labels, pc).Some?
  }

  function Translated(items: seq<Item>, labels: map<string, int>): (code: seq<Instruction>)
    requires AllAssemble(items, labels)
    ensures |code| == |items|
    ensures forall pc :: 0 <= pc < |items| ==> code[pc] == AssembleInstruction(items[pc], labels, pc).value
  {
    seq(|items|, pc requires 0 <= pc < |items| => AssembleInstruction(items[pc], labels, pc).value)
  }

  predicate Distinct(caps: seq<int>) {
    forall i, j :: 0 <= i < j < |caps| ==> caps[i] != caps[j]
  }

  function Assembled(lines: seq<Line>): Option<Assembly> {
    match Collected(lines)
    case None => None
    case Some(src) =>
      if src.items == [] || !Distinct(src.caps) || !AllAssemble(src.items, src.labels) then None
      else
        match Encode(Program(0, src.maxStack, Translated(src.items, src.labels)))
        case None => None
        case Some(bytecode) => Some(Assembly(bytecode, src.caps, src.maxStack))
  }

  method AssembleText(lines: seq<Line>) returns (r: Option<Assembly>)
    ensures r == Assembled(lines)
  {
    hide AssembleInstruction, Encode, Distinct;
    var src := Source(map[], [], [], 16);
    for i := 0 to |lines|
      invariant Collected(lines[..i]) == Some(src)
    {
      assert lines[..i + 1][..i] == lines[..i];
      var next := Noted(src, lines[i]);
      if next.None? {
        StaysRefused(lines, i + 1);
        return None;
      }
      src := next.value;
    }
    assert lines[..|lines|] == lines;
    if src.items == [] || !Distinct(src.caps) {
      return None;
    }
    var code: seq<Instruction> := [];
    for pc := 0 to |src.items|
      invariant |code| == pc
      invariant forall k :: 0 <= k < pc ==> AssembleInstruction(src.items[k], src.labels, k) == Some(code[k])
    {
      var i := AssembleInstruction(src.items[pc], src.labels, pc);
      if i.None? {
        return None;
      }
      code := code + [i.value];
    }
    assert code == Translated(src.items, src.labels);
    var bytecode := EncodeProgram(Program(0, src.maxStack, code));
    r := if bytecode.None? then None else Some(Assembly(bytecode.value, src.caps, src.maxStack));
  }

  /** Once a line is refused, the text is. */
  lemma {:induction false} StaysRefused(lines: seq<Line>, k: nat)
    requires k <= |lines| && Collected(lines[..k]).None?
    ensures Collected(lines).None?
    decreases |lines|
  {
    if k < |lines| {
      var n := |lines| - 1;
      assert lines[..n][..k] == lines[..k];
      StaysRefused(lines[..n], k);
    } else {
      assert lines[..k] == lines;
    }
  }

  // ----- the meaning of a source program

  /** One source instruction other than a halt; branches go to where their label stands */
  function SourceStep(item: Item, labels: map<string, int>, pc: int, n: int, s: seq<u32>, env: Setting): Effect
    requires AssembleInstruction(item, labels, pc - 1).Some? && !item.HaltItem?
  {
    match item
    case DropItem => Drop(pc, s)
    case DupItem => Duplicate(pc, s, env.limit)
    case SwapItem => Swap(pc, s)
    case NezItem => NonZero(pc, s, env.limit)
    case AluItem(alu) => Binary(alu, pc, s, env.limit)
    case PushItem(k) => Push(pc, s, k, env.limit)
    case ShlItem(k) => ShiftLeft(k, pc, s, env.limit)
    case ShrItem(k) => ShiftRight(k, pc, s, env.limit)
    case JmpItem(target) => Jump(labels[target], n, s)
    case JzItem(target) =>
      if s == [] then Trap(StackUnderflow)
      else if s[|s| - 1] == 0 then Jump(labels[target], n, s[..|s| - 1])
      else Go(pc, s[..|s| - 1], [])
    case SyscallItem(id, argc) => Syscall(id, argc, pc, s, env)
  }

  function SourceRun(items: seq<Item>, labels: map<string, int>, pc: int, s: seq<u32>, outs: seq<Output>, executed: int,
      budget: int, env: Setting): Outcome
    requires AllAssemble(items, labels)
    decreases budget - executed
  {
    if executed >= budget then Faulted(BudgetExhausted, outs)
    else if pc < 0 || pc >= |items| then Faulted(CounterOutOfRange, outs)
    else if items[pc].HaltItem? then Halted(executed + 1, outs, s)
    else
      match SourceStep(items[pc], labels, pc + 1, |items|, s, env)
      case Trap(fault) => Faulted(fault, outs)
      case Go(next, stack, emitted) => SourceRun(items, labels, next, stack, outs + emitted, executed + 1, budget, env)
  }

  // ----- correctness

  lemma {:induction false} SignedWraps(n: int)
    requires 0 <= n < 0x1_0000
    ensures Signed16(n) % 0x1_0000 == n && -32768 <= Signed16(n) <= 32767
  {
  }

  /** A translated instruction is packable, and valid but for the number of its arguments. */
  lemma {:induction false} TranslatedValid(item: Item, labels: map<string, int>, pc: int)
    requires AssembleInstruction(item, labels, pc).Some?
    ensures var i := AssembleInstruction(item, labels, pc).value;
            && Packable(i) && (i.opcode == OP_HALT <==> item.HaltItem?)
            && (ValidInstruction(i) <==> (item.SyscallItem? ==> item.argc <= 4))
  {
    if item.PushItem? {
      SignedWraps(item.n);
    } else if item.SyscallItem? {
      SignedWraps(item.id);
    }
  }

  /** One machine step does what the source instruction says. */
  lemma {:induction false} StepAgrees(item: Item, labels: map<string, int>, pc: int, n: int, s: seq<u32>, env: Setting)
    requires AssembleInstruction(item, labels, pc).Some? && !item.HaltItem?
    ensures var i := AssembleInstruction(item, labels, pc).value;
            0 <= i.operand && Step(i, pc + 1, n, s, env) == SourceStep(item, labels, pc + 1, n, s, env)
  {
    hide Drop, Duplicate, BytecodeVm.Swap, NonZero, Binary, Push, ShiftLeft, ShiftRight, Jump, Syscall;
    if item.PushItem? {
      SignedWraps(item.n);
    } else if item.SyscallItem? {
      SignedWraps(item.id);
    }
  }

  predicate FewArguments(items: seq<Item>) {
    forall pc :: 0 <= pc < |items| && items[pc].SyscallItem? ==> items[pc].argc <= 4
  }

  lemma {:induction false} RunAgrees(items: seq<Item>, labels: map<string, int>, pc: int, s: seq<u32>,
      outs: seq<Output>, executed: int, budget: int, env: Setting)
    requires AllAssemble(items, labels)
    ensures AllPackable(Translated(items, labels))
    ensures Run(Translated(items, labels), pc, s, outs, executed, budget, env)
      == SourceRun(items, labels, pc, s, outs, executed, budget, env)
    decreases budget - executed
  {
    var code := Translated(items, labels);
    forall k | 0 <= k < |items| ensures Packable(code[k]) && (code[k].opcode == OP_HALT <==> items[k].HaltItem?) {
      TranslatedValid(items[k], labels, k);
    }
    hide AssembleInstruction, Step, SourceStep, Translated;
    if executed < budget && 0 <= pc < |items| && !items[pc].HaltItem? {
      StepAgrees(items[pc], labels, pc, |items|, s, env);
      var e := SourceStep(items[pc], labels, pc + 1, |items|, s, env);
      if e.Go? {
        RunAgrees(items, labels, e.pc, e.stack, outs + e.emitted, executed + 1, budget, env);
      }
    }
  }

  /** Assembled bytes load exactly if no system call has more than four arguments, and then every
      execution gives the result, or the fault, of the source program: for every budget, stack limit,
      set of capabilities and register snapshot. */
  lemma {:induction false} AssemblerCorrect(lines: seq<Line>, budget: int, maxStack: int, caps: set<int>, rcc: seq<u32>)
    requires Assembled(lines).Some?
    ensures Collected(lines).Some? && AllAssemble(Collected(lines).value.items, Collected(lines).value.labels)
    ensures var src, bytecode := Collected(lines).value, Assembled(lines).value.bytecode;
            && (Parse(bytecode).Some? <==> FewArguments(src.items))
            && var env := Setting(Least(src.maxStack, maxStack), caps, rcc);
            && var meaning := SourceRun(src.items, src.labels, 0, [], [], 0, budget, env);
            && (FewArguments(src.items) ==> Execution(bytecode, budget, maxStack, caps, rcc) == meaning)
  {
    hide Collected, AssembleInstruction, Run, SourceRun, Parse, Distinct;
    var src := Collected(lines).value;
    var code := Translated(src.items, src.labels);
    forall k | 0 <= k < |src.items|
      ensures ValidInstruction(code[k]) <==> (src.items[k].SyscallItem? ==> src.items[k].argc <= 4)
    {
      TranslatedValid(src.items[k], src.labels, k);
    }
    hide ValidInstruction;
    ParseEncode(Program(0, src.maxStack, code));
    assert AllValid(code) <==> FewArguments(src.items);
    RunAgrees(src.items, src.labels, 0, [], [], 0, budget, Setting(Least(src.maxStack, maxStack), caps, rcc));
  }

  /** A text that assembles to bytes that do not load */
  lemma {:induction false} FiveArguments()
    ensures var lines := [CodeLine(SyscallItem(2, 5))];
            Assembled(lines).Some? && Parse(Assembled(lines).value.bytecode) == None
  {
    var lines := [CodeLine(SyscallItem(2, 5))];
    var nothing := Source(map[], [], [], 16);
    assert lines[..0] == [] && Collected([]) == Some(nothing);
    var src := Source(map[], [SyscallItem(2, 5)], [], 16);
    assert nothing.items + [SyscallItem(2, 5)] == src.items;
    assert Collected(lines) == Noted(nothing, lines[0]) == Some(src);
    var code := Translated(src.items, src.labels);
    assert code == [Instruction(OP_SYSCALL, 5, 2)];
    ParseEncode(Program(0, 16, code));
    assert !ValidInstruction(code[0]);
    hide Parse, Encode;
    assert Encode(Program(0, src.maxStack, code)).Some? by {
      assert Encodable(Program(0, 16, code));
    }
  }
}
