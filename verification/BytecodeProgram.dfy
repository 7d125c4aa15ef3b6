/**
  The bytecode program format: a 16-byte header and four bytes for each instruction, written and
  checked.
 */
module BytecodeProgram {
  import opened Common
  import opened Limbs


  const OP_HALT: int := 0x00
  const OP_PUSH_U16: int := 0x01
  const OP_DROP: int := 0x02
  const OP_DUP: int := 0x03
  const OP_SWAP: int := 0x04
  const OP_ADD: int := 0x10
  const OP_SUB: int := 0x11
  const OP_AND: int := 0x12
  const OP_OR: int := 0x13
  const OP_XOR: int := 0x14
  const OP_SHL_IMM: int := 0x15
  const OP_SHR_IMM: int := 0x16
  const OP_NEZ: int := 0x17
  const OP_EQ: int := 0x18
  const OP_JMP_REL: int := 0x20
  const OP_JZ_REL: int := 0x21
  const OP_SYSCALL: int := 0x30

  datatype Instruction = Instruction(opcode: int, operand: int, immediate: int)

  datatype Program = Program(entry: int, maxStack: int, instructions: seq<Instruction>)

  // ----- the program format

  predicate Packable(i: Instruction) {
    0 <= i.opcode <= 0xFF && 0 <= i.operand <= 0xFF && -32768 <= i.immediate <= 32767
  }

  predicate ValidInstruction(i: Instruction) {
    && (0 <= i.opcode <= 4 || 0x10 <= i.opcode <= 0x18 || i.opcode == OP_JMP_REL || i.opcode == OP_JZ_REL
        || i.opcode == OP_SYSCALL)
    && (i.opcode == OP_SHL_IMM || i.opcode == OP_SHR_IMM ==> i.operand <= 31)
    && (i.opcode == OP_SYSCALL ==> i.operand <= 4)
  }

  function Pack(i: Instruction): (b: seq<u8>)
    requires Packable(i)
    ensures |b| == 4
  {
    [i.opcode, i.operand] + Store16(i.immediate)
  }

  function Unpack(b: seq<u8>): (i: Instruction)
    requires |b| == 4
    ensures Packable(i)
  {
    Instruction(b[0], b[1], Signed16(Load16(b[2..4])))
  }

  lemma {:induction false} UnpackPack(i: Instruction)
    requires Packable(i)
    ensures Unpack(Pack(i)) == i
  {
    hide Store16, Load16;
    assert Pack(i)[2..4] == Store16(i.immediate);
    Store16Load16(i.immediate);
  }

  lemma {:induction false} PackUnpack(b: seq<u8>)
    requires |b| == 4
    ensures Pack(Unpack(b)) == b
  {
    hide Store16, Load16;
    Load16Store16(b[2..4]);
    assert b == [b[0], b[1]] + b[2..4];
  }

  predicate AllPackable(ins: seq<Instruction>) {
    forall i :: 0 <= i < |ins| ==> Packable(ins[i])
  }

  predicate AllValid(ins: seq<Instruction>) {
    forall i :: 0 <= i < |ins| ==> ValidInstruction(ins[i])
  }

  function Code(ins: seq<Instruction>): (b: seq<u8>)
    requires AllPackable(ins)
    ensures |b| == 4 * |ins|
  {
    if ins == [] then [] else Code(ins[..|ins| - 1]) + Pack(ins[|ins| - 1])
  }

  function Decoded(code: seq<u8>): (ins: seq<Instruction>)
    requires |code| % 4 == 0
    ensures 4 * |ins| == |code| && AllPackable(ins)
  {
    if code == [] then [] else Decoded(code[..|code| - 4]) + [Unpack(code[|code| - 4..])]
  }

  /** "BCV1" */
  const MAGIC: seq<u8> := [0x42, 0x43, 0x56, 0x31]

  function Header(codeSize: int, entry: int, maxStack: int): (b: seq<u8>)
    ensures |b| == 16
  {
    MAGIC + Store16(1) + Store16(16) + Store16(codeSize) + Store16(entry) + Store16(maxStack) + Store16(0)
  }

  predicate Encodable(p: Program) {
    && 0 < p.maxStack <= 64 && 0 < |p.instructions| <= 1024
    && 0 <= p.entry < 4 * |p.instructions| && p.entry % 4 == 0
    && AllPackable(p.instructions)
  }

  function Encode(p: Program): Option<seq<u8>> {
    if Encodable(p) then Some(Header(4 * |p.instructions|, p.entry, p.maxStack) + Code(p.instructions)) else None
  }

  function Parse(blob: seq<u8>): Option<Program> {
    if |blob| < 16 then None
    else
      var codeSize, entry, maxStack := Load16(blob[8..10]), Load16(blob[10..12]), Load16(blob[12..14]);
      if blob[..4] != MAGIC || Load16(blob[4..6]) != 1 || Load16(blob[6..8]) != 16
          || Load16(blob[14..16]) != 0 then None
      else if codeSize == 0 || codeSize > 4096 || |blob| != 16 + codeSize || codeSize % 4 != 0 then None
      else if entry % 4 != 0 || entry >= codeSize || maxStack <= 0 || maxStack > 64 then None
      else
        var ins := Decoded(blob[16..]);
        if AllValid(ins) then Some(Program(entry, maxStack, ins)) else None
  }

  lemma {:induction false} DecodedCode(ins: seq<Instruction>)
    requires AllPackable(ins)
    ensures Decoded(Code(ins)) == ins
  {
    hide Pack, Unpack;
    if ins != [] {
      var n := |ins| - 1;
      DecodedCode(ins[..n]);
      UnpackPack(ins[n]);
      assert Code(ins)[..4 * n] == Code(ins[..n]) && Code(ins)[4 * n..] == Pack(ins[n]);
    }
  }

  lemma {:induction false} CodeDecoded(code: seq<u8>)
    requires |code| % 4 == 0
    ensures Code(Decoded(code)) == code
  {
    hide Pack, Unpack;
    if code != [] {
      var n := |code| - 4;
      CodeDecoded(code[..n]);
      PackUnpack(code[n..]);
      assert Decoded(code)[..|Decoded(code)| - 1] == Decoded(code[..n]);
      assert code == code[..n] + code[n..];
    }
  }

  lemma {:induction false} HeaderFields(codeSize: int, entry: int, maxStack: int, code: seq<u8>)
    requires 0 <= codeSize < 0x1_0000 && 0 <= entry < 0x1_0000 && 0 <= maxStack < 0x1_0000
    ensures var b := Header(codeSize, entry, maxStack) + code;
            && b[..4] == MAGIC && Load16(b[4..6]) == 1 && Load16(b[6..8]) == 16 && Load16(b[8..10]) == codeSize
            && Load16(b[10..12]) == entry && Load16(b[12..14]) == maxStack && Load16(b[14..16]) == 0 && b[16..] == code
  {
    hide Load16, Store16;
    var b := Header(codeSize, entry, maxStack) + code;
    assert b[4..6] == Store16(1) && b[6..8] == Store16(16) && b[8..10] == Store16(codeSize)
        && b[10..12] == Store16(entry)
      && b[12..14] == Store16(maxStack) && b[14..16] == Store16(0);
    Store16Load16(1);
    Store16Load16(16);
    Store16Load16(codeSize);
    Store16Load16(entry);
    Store16Load16(maxStack);
    Store16Load16(0);
  }

  /** An encoded program parses, to itself, exactly if its instructions are valid. */
  lemma {:induction false} ParseEncode(p: Program)
    requires Encodable(p)
    ensures Parse(Encode(p).value) == if AllValid(p.instructions) then Some(p) else None
  {
    hide Load16, Store16, Code, Decoded, Header, ValidInstruction;
    HeaderFields(4 * |p.instructions|, p.entry, p.maxStack, Code(p.instructions));
    DecodedCode(p.instructions);
  }

  /** A blob that parses is the encoding of what it parses to. */
  lemma {:induction false} EncodeParse(blob: seq<u8>)
    requires Parse(blob).Some?
    ensures Encode(Parse(blob).value) == Some(blob)
  {
    hide Load16, Store16, Code, Decoded, ValidInstruction;
    var p := Parse(blob).value;
    CodeDecoded(blob[16..]);
    Load16Store16(blob[4..6]);
    Load16Store16(blob[6..8]);
    Load16Store16(blob[8..10]);
    Load16Store16(blob[10..12]);
    Load16Store16(blob[12..14]);
    Load16Store16(blob[14..16]);
    assert blob == blob[..4] + blob[4..6] + blob[6..8] + blob[8..10] + blob[10..12] + blob[12..14] + blob[14..16]
        + blob[16..];
  }

  /** The encoder's loop over the instructions */
  method EncodeProgram(p: Program) returns (blob: Option<seq<u8>>)
    ensures blob == Encode(p)
  {
    hide Header, Pack;
    if !(0 < p.maxStack <= 64) {
      return None;
    }
    var codeSize := |p.instructions| * 4;
    if codeSize == 0 || codeSize > 4096 || p.entry % 4 != 0 || p.entry < 0 || p.entry >= codeSize {
      return None;
    }
    var code: seq<u8> := [];
    for k := 0 to |p.instructions|
      invariant AllPackable(p.instructions[..k])
      invariant code == Code(p.instructions[..k])
    {
      var i := p.instructions[k];
      if !Packable(i) {
        return None;
      }
      code := code + Pack(i);
      assert p.instructions[..k + 1][..k] == p.instructions[..k];
    }
    assert p.instructions[..|p.instructions|] == p.instructions;
    blob := Some(Header(codeSize, p.entry, p.maxStack) + code);
  }

  /** The parser's loop over the code bytes */
  method ParseProgram(blob: seq<u8>) returns (p: Option<Program>)
    ensures p == Parse(blob)
  {
    hide Load16, Unpack, ValidInstruction;
    if |blob| < 16 {
      return None;
    }
    var codeSize, entry, maxStack := Load16(blob[8..10]), Load16(blob[10..12]), Load16(blob[12..14]);
    if blob[..4] != MAGIC || Load16(blob[4..6]) != 1 || Load16(blob[6..8]) != 16 || Load16(blob[14..16]) != 0 {
      return None;
    }
    if codeSize == 0 || codeSize > 4096 || |blob| != 16 + codeSize || codeSize % 4 != 0 {
      return None;
    }
    if entry % 4 != 0 || entry >= codeSize || maxStack <= 0 || maxStack > 64 {
      return None;
    }
    var ins: seq<Instruction> := [];
    ghost var code := blob[16..];
    var k := 0;
    while k < codeSize / 4
      invariant 0 <= k <= codeSize / 4
      invariant ins == Decoded(code[..4 * k])
      invariant AllValid(ins)
    {
      var i := Unpack(blob[16 + 4 * k..20 + 4 * k]);
      assert code[..4 * k + 4][..4 * k] == code[..4 * k] && code[..4 * k + 4][4 * k..] == blob[16 + 4 * k..20 + 4 * k];
      if !ValidInstruction(i) {
        DecodedAt(code, k);
        return None;
      }
      ins := ins + [i];
      k := k + 1;
    }
    assert code[..4 * k] == code;
    p := Some(Program(entry, maxStack, ins));
  }

  lemma {:induction false} DecodedLast(code: seq<u8>)
    requires |code| % 4 == 0 && |code| > 0
    ensures Decoded(code) == Decoded(code[..|code| - 4]) + [Unpack(code[|code| - 4..])]
  {
    hide Unpack;
  }

  lemma {:induction false} DecodedAt(code: seq<u8>, k: nat)
    requires |code| % 4 == 0 && 4 * k + 4 <= |code|
    ensures Decoded(code)[k] == Unpack(code[4 * k..4 * k + 4])
    decreases |code|
  {
    hide Unpack, Decoded;
    var n := |code| - 4;
    DecodedLast(code);
    if 4 * k < n {
      DecodedAt(code[..n], k);
      assert code[..n][4 * k..4 * k + 4] == code[4 * k..4 * k + 4];
    } else {
      assert code[n..] == code[4 * k..4 * k + 4];
    }
  }
}
