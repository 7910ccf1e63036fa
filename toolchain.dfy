// The assembler and the CPU together: the word Pass 2 writes for a line is
// read back by the CPU's decoder as the fields the line named, every
// mnemonic of the assembler's table except LDX and STX is an opcode the
// CPU has a case for, and the words written for LDX and STX are opcodes it
// has none for, so executing them faults.
module Toolchain {
  import opened Words
  import opened Wrappers
  import opened JavaText
  import opened Isa
  import opened Cpu
  import opened CpuProperties
  import opened Assembler
  import opened AssemblerProperties
  import opened AssemblerRuns
  import opened AssemblerEncoding

  /** The decoder reads back the fields of the instruction format. */
  lemma InstructionDecodes(o: int, r: int, x: int, i: int, a: int)
    requires 0 <= o < 64 && 0 <= r < 4 && 0 <= x < 4 && 0 <= i < 2 && 0 <= a < 32
    ensures 0 <= InstructionWord(o, r, x, i, a) < 0x1_0000
    ensures var w := InstructionWord(o, r, x, i, a);
      Opcode(w) == o && RField(w) == r && IxField(w) == x && IField(w) == i && AddressField(w) == a
  {
    var w := InstructionWord(o, r, x, i, a);
    DivModUnique(w, 1024, o, r * 256 + x * 64 + i * 32 + a);
    DivModUnique(o, 64, 0, o);
    DivModUnique(w, 256, o * 4 + r, x * 64 + i * 32 + a);
    DivModUnique(o * 4 + r, 4, o, r);
    DivModUnique(w, 64, o * 16 + r * 4 + x, i * 32 + a);
    DivModUnique(o * 16 + r * 4 + x, 4, o * 4 + r, x);
    DivModUnique(w, 32, o * 32 + r * 8 + x * 2 + i, a);
    DivModUnique(o * 32 + r * 8 + x * 2 + i, 2, o * 16 + r * 4 + x, i);
  }

  /** Whatever its operands, an encodable instruction's word carries the table's opcode in its top six bits. */
  lemma AssembledOpcode(opcodes: map<string, string>, symbols: map<string, Int32>, parts: seq<string>)
    requires BinaryTable(opcodes) && |parts| >= 2 && Encodable(opcodes, parts[0])
    requires Pass2Parts(opcodes, symbols, parts).Success?
    ensures Pass2Parts(opcodes, symbols, parts).value.Emits?
    ensures Opcode(Pass2Parts(opcodes, symbols, parts).value.word) == NumeralValue(opcodes[parts[0]], 2)
  {
    var op := parts[0];
    var opcode := opcodes[op];
    UpperMnemonic(op);
    assert Operation(parts) == op;
    var code := InstructionCode(opcode, op == "LDX" || op == "STX", SplitComma(parts[1])).value;
    assert MachineCode(opcodes, symbols, op, parts) == Success(code);
    var top := TopSixteen(code);
    assert code[..16][..6] == opcode;
    OpcodeOnTop(top, opcode);
  }

  /** The first sixteen digits of a code of at least sixteen give the word Pass 2 emits. */
  lemma TopSixteen(code: string) returns (top: string)
    requires IsNumeral(code, 2) && |code| >= 16
    ensures top == code[..16] && IsNumeral(top, 2)
    ensures WordOf(Fit16(code)) == NumeralValue(top, 2)
  {
    top := code[..16];
    if |code| == 16 {
      assert top == code;
    }
  }

  /** Sixteen digits led by a six-digit opcode put the opcode's value in bits 15..10. */
  lemma OpcodeOnTop(top: string, opcode: string)
    requires IsNumeral(top, 2) && |top| == 16 && |opcode| == 6 && top[..6] == opcode
    ensures Opcode(NumeralValue(top, 2)) == NumeralValue(opcode, 2)
  {
    var rest := top[6..];
    assert top == opcode + rest;
    BinaryAppend(opcode, rest);
    BinaryBound(opcode);
    BinaryBound(rest);
    assert Pow2(6) == 64 && Pow2(10) == 1024;
    DivModUnique(NumeralValue(top, 2), 1024, NumeralValue(opcode, 2), NumeralValue(rest, 2));
    DivModUnique(NumeralValue(opcode, 2), 64, 0, NumeralValue(opcode, 2));
  }

  // ---------------------------------------------------------------------
  // The assembler's table against the CPU's switch

  /** Every mnemonic of the table but LDX and STX has an opcode the CPU executes. */
  lemma TableImplemented(op: string)
    requires op in OPCODES && op != "LDX" && op != "STX"
    ensures Implemented(OpcodeValue(op))
  {
    TableRange(op);
  }

  /** The table's opcodes other than LDX and STX lie in 0..7 and 10..17. */
  lemma TableRange(op: string)
    requires op in OPCODES && op != "LDX" && op != "STX"
    ensures OpcodeValue(op) <= 7 || 10 <= OpcodeValue(op) <= 17
  {
    var s := OPCODES[op];
    TableOpcodes(op);
    SixDigits(s);
    assert s[0] == '0' && (s[1] == '0' || (s[2..] == "0000" || s[2..] == "0001"));
  }

  /** LDX and STX are 100001 and 100010 in the table, 33 and 34, while the CPU's cases are 41 and 42. */
  lemma IndexOpcodesUnimplemented(op: string)
    requires op == "LDX" || op == "STX"
    ensures OpcodeValue(op) == if op == "LDX" then 33 else 34
    ensures !Implemented(OpcodeValue(op))
  {
    TableOpcodes(op);
    SixDigits(OPCODES[op]);
  }

  /** The value of six binary digits, digit by digit. */
  lemma SixDigits(s: string)
    requires |s| == 6 && IsNumeral(s, 2)
    ensures NumeralValue(s, 2) ==
      32 * Digit(s[0]) + 16 * Digit(s[1]) + 8 * Digit(s[2]) + 4 * Digit(s[3]) + 2 * Digit(s[4]) + Digit(s[5])
  {
    assert s[..1][..0] == [] && s[..2][..1] == s[..1] && s[..3][..2] == s[..2];
    assert s[..4][..3] == s[..3] && s[..5][..4] == s[..4] && s[..6] == s;
    assert NumeralValue(s[..1], 2) == Digit(s[0]);
    assert NumeralValue(s[..2], 2) == 2 * Digit(s[0]) + Digit(s[1]);
    assert NumeralValue(s[..3], 2) == 4 * Digit(s[0]) + 2 * Digit(s[1]) + Digit(s[2]);
    assert NumeralValue(s[..4], 2) == 8 * Digit(s[0]) + 4 * Digit(s[1]) + 2 * Digit(s[2]) + Digit(s[3]);
    assert NumeralValue(s[..5], 2) ==
      16 * Digit(s[0]) + 8 * Digit(s[1]) + 4 * Digit(s[2]) + 2 * Digit(s[3]) + Digit(s[4]);
  }

  function Digit(c: char): int { c as int - '0' as int }

  /** A word assembled from `op r,ix,address[,1]` decodes to the table's opcode and the fields the line names. */
  lemma AssembledLineDecodes(symbols: map<string, Int32>, op: string, pieces: seq<string>,
                             r: Int32, ix: Int32, address: Int32, indirect: bool, w: Word)
    requires op in OPCODES && op != "HLT" && op != "LDX" && op != "STX"
    requires 0 <= r < 4 && 0 <= ix < 4 && 0 <= address < 32
    requires |pieces| == (if indirect then 4 else 3) && (indirect ==> pieces[3] == "1")
    requires pieces[0] == DecimalText(r) && pieces[1] == DecimalText(ix) && pieces[2] == DecimalText(address)
    requires OwnTable(symbols, op + " " + Join(pieces, ',')) == Success(Emits(w))
    ensures Opcode(w) == OpcodeValue(op) && Implemented(Opcode(w))
    ensures RField(w) == r && IxField(w) == ix && IField(w) == (if indirect then 1 else 0) && AddressField(w) == address
  {
    OpcodesAreBinary();
    TableShape(op);
    TableImplemented(op);
    BinaryBound(OPCODES[op]);
    assert Pow2(6) == 64;
    EncodeInstructionLine(OPCODES, symbols, op, pieces, r, ix, address, indirect);
    InstructionDecodes(OpcodeValue(op), r, ix, if indirect then 1 else 0, address);
  }

  /** Every line `op r,ix,address[,1]` of a table instruction other than HLT, LDX and STX with fields in range is assembled to a word. */
  lemma InstructionLineEmits(symbols: map<string, Int32>, op: string, pieces: seq<string>,
                             r: Int32, ix: Int32, address: Int32, indirect: bool)
    requires op in OPCODES && op != "HLT" && op != "LDX" && op != "STX"
    requires 0 <= r < 4 && 0 <= ix < 4 && 0 <= address < 32
    requires |pieces| == (if indirect then 4 else 3) && (indirect ==> pieces[3] == "1")
    requires pieces[0] == DecimalText(r) && pieces[1] == DecimalText(ix) && pieces[2] == DecimalText(address)
    ensures OwnTable(symbols, op + " " + Join(pieces, ',')).Success?
    ensures OwnTable(symbols, op + " " + Join(pieces, ',')).value.Emits?
  {
    OpcodesAreBinary();
    TableShape(op);
    EncodeInstructionLine(OPCODES, symbols, op, pieces, r, ix, address, indirect);
  }

  // ---------------------------------------------------------------------
  // Running what was assembled

  /**
   * The CPU steps over an assembled instruction other than HLT, LDX and STX
   * without stopping (an out-of-range read may still set MFR to 1).
   */
  lemma AssembledInstructionContinues(m: Machine, input: Option<int>, symbols: map<string, Int32>, op: string,
                                      pieces: seq<string>, r: Int32, ix: Int32, address: Int32, indirect: bool)
    requires op in OPCODES && op != "HLT" && op != "LDX" && op != "STX"
    requires 0 <= r < 4 && 0 <= ix < 4 && 0 <= address < 32
    requires |pieces| == (if indirect then 4 else 3) && (indirect ==> pieces[3] == "1")
    requires pieces[0] == DecimalText(r) && pieces[1] == DecimalText(ix) && pieces[2] == DecimalText(address)
    requires Consistent(m) && 0 <= m.pc < MEMORY_SIZE
    requires OwnTable(symbols, op + " " + Join(pieces, ',')) == Success(Emits(m.memory[m.pc]))
    ensures Step(m, input).1 == Continue
  {
    AssembledLineDecodes(symbols, op, pieces, r, ix, address, indirect, m.memory[m.pc]);
    TableOpcodeNotALU(op);
    OrdinaryOpcodeContinues(m, input);
  }

  /** A fetched word whose opcode is implemented and is neither HLT, MLT nor DVD lets the machine go on. */
  lemma OrdinaryOpcodeContinues(m: Machine, input: Option<int>)
    requires Consistent(m) && 0 <= m.pc < MEMORY_SIZE
    requires var o := Opcode(m.memory[m.pc]); Implemented(o) && o != 0 && o != 20 && o != 21
    ensures Step(m, input).1 == Continue
  {
    StopsExactlyWhen(m, input);
  }

  /** No table opcode other than HLT is HLT's 0, MLT's 20 or DVD's 21. */
  lemma TableOpcodeNotALU(op: string)
    requires op in OPCODES && op != "HLT"
    ensures var o := OpcodeValue(op); o != 0 && o != 20 && o != 21
  {
    TableOpcodes(op);
    SixDigits(OPCODES[op]);
  }

  /** Executing any word assembled for LDX or STX, whatever its operands, sets MFR to 4 and stops. */
  lemma AssembledIndexInstructionFaults(m: Machine, input: Option<int>, symbols: map<string, Int32>,
                                        op: string, text: string)
    requires (op == "LDX" || op == "STX") && OperandText(text)
    requires Consistent(m) && OwnTable(symbols, op + " " + text).Success?
    requires OwnTable(symbols, op + " " + text).value == Emits(m.ir)
    ensures Execute(m, input) == (m.(mfr := 4), Stop)
  {
    var raw := op + " " + text;
    OpcodesAreBinary();
    TableShape(op);
    SimpleStatement(op, text);
    assert Pass2Body(raw) == raw;
    var parts := SplitAtWhitespace(raw);
    AssembledOpcode(OPCODES, symbols, parts);
    IndexOpcodesUnimplemented(op);
    IllegalOpcodeFaults(m, input);
  }

  /** The word assembled for HLT stops the CPU with nothing changed. */
  lemma AssembledHaltStops(m: Machine, input: Option<int>, symbols: map<string, Int32>, parts: seq<string>)
    requires |parts| >= 1 && Operation(parts) == "HLT"
    requires Consistent(m) && OwnParts(symbols, parts) == Success(Emits(m.ir))
    ensures Execute(m, input) == (m, Stop)
  {
    OpcodesAreBinary();
    HaltEmitsZero(OPCODES, symbols, parts);
    DecodeFields(m.ir);
    HaltStops(m, input);
  }

  /** Pass 2 with the assembler's own table on a statement body already split. */
  function OwnParts(symbols: map<string, Int32>, parts: seq<string>): Result<Pass2Info, Fault>
    requires |parts| >= 1
  {
    OpcodesAreBinary();
    Pass2Parts(OPCODES, symbols, parts)
  }
}
