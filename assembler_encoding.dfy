// The words Pass 2 encodes: an operand field holds the number it reads,
// the five fields sit side by side into the instruction layout, a comma
// list of operands splits back into its pieces, DATA and HLT give their
// words, and a source line `op r,ix,address[,1]` assembles to the word
// the instruction format describes.
module AssemblerEncoding {
  import opened Words
  import opened Wrappers
  import opened JavaText
  import opened Assembler
  import opened AssemblerProperties

  /** The instruction format: opcode in bits 15..10, r in 9..8, ix in 7..6, i in 5, address in 4..0. */
  function InstructionWord(opcode: int, r: int, ix: int, i: int, address: int): int
  {
    opcode * 1024 + r * 256 + ix * 64 + i * 32 + address
  }

  // ---------------------------------------------------------------------
  // Fields

  /** A field is read exactly when its trimmed text is an `int`, and then holds that int's unsigned 32-bit value. */
  lemma FieldOfText(operand: string, w: nat)
    ensures Field(operand, w).Success? <==> ParseInt(Trim(operand)).Some?
    ensures Field(operand, w).Success? ==>
      NumeralValue(Field(operand, w).value, 2) == Unsigned32(ParseInt(Trim(operand)).value)
  {
    match ParseInt(Trim(operand))
    case None =>
    case Some(v) => ZeroFillValue(ToBinaryString(v), w);
  }

  /** The decimal text of a value below 2^w gives a field of exactly w digits holding it. */
  lemma FieldOfNumber(v: Int32, w: nat)
    requires w >= 1 && 0 <= v < Pow2(w)
    ensures Field(DecimalText(v), w).Success?
    ensures |Field(DecimalText(v), w).value| == w
    ensures NumeralValue(Field(DecimalText(v), w).value, 2) == v
  {
    DecimalTrimmed(v);
    ParseDecimalText(v);
    BinaryLength(v, w);
    ZeroFillValue(ToBinaryString(v), w);
  }

  lemma DecimalTrimmed(v: Int32)
    ensures Trim(DecimalText(v)) == DecimalText(v)
  {
    DecimalTextChars(v);
    TrimOfTrimmed(DecimalText(v));
  }

  /** The five fields side by side have the value the instruction format gives them. */
  lemma LayoutValue(opcode: string, r: string, ix: string, i: string, address: string)
    requires IsNumeral(opcode, 2) && IsNumeral(r, 2) && IsNumeral(ix, 2) && IsNumeral(i, 2) && IsNumeral(address, 2)
    requires |r| == 2 && |ix| == 2 && |i| == 1 && |address| == 5
    ensures NumeralValue(Layout(opcode, r, ix, i, address), 2) ==
      InstructionWord(NumeralValue(opcode, 2), NumeralValue(r, 2), NumeralValue(ix, 2), NumeralValue(i, 2), NumeralValue(address, 2))
  {
    var o, vr, vx, vi, va := NumeralValue(opcode, 2), NumeralValue(r, 2), NumeralValue(ix, 2), NumeralValue(i, 2), NumeralValue(address, 2);
    var a := AppendField(opcode, r, o, 4);
    var b := AppendField(opcode + r, ix, a, 4);
    var c := AppendField(opcode + r + ix, i, b, 2);
    var d := AppendField(opcode + r + ix + i, address, c, 32);
    FiveFields(o, vr, vx, vi, va);
  }

  /** Appending a binary field of k digits, k having value p = 2^k, multiplies by p and adds the field. */
  lemma AppendField(a: string, b: string, va: nat, p: nat) returns (v: nat)
    requires IsNumeral(a, 2) && IsNumeral(b, 2) && NumeralValue(a, 2) == va
    requires (|b| == 1 && p == 2) || (|b| == 2 && p == 4) || (|b| == 5 && p == 32)
    ensures IsNumeral(a + b, 2) && v == NumeralValue(a + b, 2) && v == va * p + NumeralValue(b, 2)
  {
    BinaryAppend(a, b);
    assert Pow2(1) == 2 && Pow2(2) == 4 && Pow2(5) == 32;
    v := NumeralValue(a + b, 2);
  }

  lemma FiveFields(o: int, r: int, x: int, i: int, a: int)
    ensures (((o * 4 + r) * 4 + x) * 2 + i) * 32 + a == InstructionWord(o, r, x, i, a)
  {
  }

  // ---------------------------------------------------------------------
  // The operand list

  /** Operands joined with commas split back into themselves, unless the last of several is empty. */
  lemma SplitCommaJoin(pieces: seq<string>)
    requires |pieces| >= 1 && (|pieces| == 1 || pieces[|pieces| - 1] != [])
    requires forall k :: 0 <= k < |pieces| ==> ',' !in pieces[k]
    ensures SplitComma(Join(pieces, ',')) == pieces
  {
    if |pieces| == 1 {
      assert pieces == [pieces[0]];
    } else {
      var s := Join(pieces, ',');
      assert s == pieces[0] + [','] + Join(pieces[1..], ',');
      assert s[|pieces[0]|] == ',';
      SplitOnJoin(pieces, ',');
    }
  }

  /** Operand texts joined with commas are an operand text. */
  lemma {:induction false} JoinedOperands(pieces: seq<string>)
    requires |pieces| >= 1 && forall k :: 0 <= k < |pieces| ==> OperandText(pieces[k])
    ensures OperandText(Join(pieces, ','))
    decreases |pieces|
  {
    if |pieces| > 1 {
      JoinedOperands(pieces[1..]);
      var head, tail := pieces[0], Join(pieces[1..], ',');
      var s := Join(pieces, ',');
      assert s == head + [','] + tail;
      forall k | 0 <= k < |s|
        ensures !IsBlank(s[k]) && s[k] != ';'
      {
        if k < |head| {
          assert s[k] == head[k];
        } else if k > |head| {
          assert s[k] == tail[k - |head| - 1];
        }
      }
    }
  }

  /** The decimal text of an int is an operand text without commas. */
  lemma DecimalOperand(v: Int32)
    ensures OperandText(DecimalText(v)) && ',' !in DecimalText(v)
  {
    DecimalTextChars(v);
  }

  /** The pieces `r,ix,address[,1]` are operand texts without commas. */
  lemma RegisterOperands(pieces: seq<string>, r: Int32, ix: Int32, address: Int32, indirect: bool)
    requires |pieces| == (if indirect then 4 else 3) && (indirect ==> pieces[3] == "1")
    requires pieces[0] == DecimalText(r) && pieces[1] == DecimalText(ix) && pieces[2] == DecimalText(address)
    ensures forall k :: 0 <= k < |pieces| ==> OperandText(pieces[k]) && ',' !in pieces[k]
  {
    forall k | 0 <= k < |pieces|
      ensures OperandText(pieces[k]) && ',' !in pieces[k]
    {
      if k == 0 {
        DecimalOperand(r);
      } else if k == 1 {
        DecimalOperand(ix);
      } else if k == 2 {
        DecimalOperand(address);
      } else {
        IndirectText();
      }
    }
  }

  /** The pieces `x,address[,1]` are operand texts without commas. */
  lemma IndexOperands(pieces: seq<string>, x: Int32, address: Int32, indirect: bool)
    requires |pieces| == (if indirect then 3 else 2) && (indirect ==> pieces[2] == "1")
    requires pieces[0] == DecimalText(x) && pieces[1] == DecimalText(address)
    ensures forall k :: 0 <= k < |pieces| ==> OperandText(pieces[k]) && ',' !in pieces[k]
  {
    forall k | 0 <= k < |pieces|
      ensures OperandText(pieces[k]) && ',' !in pieces[k]
    {
      if k == 0 {
        DecimalOperand(x);
      } else if k == 1 {
        DecimalOperand(address);
      } else {
        IndirectText();
      }
    }
  }

  lemma IndirectText()
    ensures OperandText("1") && ',' !in "1"
  {
  }

  // ---------------------------------------------------------------------
  // Instructions

  /** An operation Pass 2 encodes from a table: an upper-case mnemonic other than HLT, DATA and LOC with a six-digit opcode. */
  predicate Encodable(opcodes: map<string, string>, op: string)
  {
    && op in opcodes && Mnemonic(op) && |opcodes[op]| == 6 && IsNumeral(opcodes[op], 2)
    && op != "HLT" && op != "DATA" && op != "LOC"
  }

  /** Every mnemonic of the assembler's table but HLT is encodable. */
  lemma TableShape(op: string)
    requires op in OPCODES && op != "HLT"
    ensures Encodable(OPCODES, op)
  {
    TableMnemonics(op);
    TableOpcodes(op);
  }

  /** The number a table mnemonic's opcode stands for. */
  function OpcodeValue(op: string): nat
    requires op in OPCODES
  {
    TableOpcodes(op);
    NumeralValue(OPCODES[op], 2)
  }

  lemma TableMnemonics(op: string)
    requires op in OPCODES
    ensures Mnemonic(op)
  {
  }

  lemma TableOpcodes(op: string)
    requires op in OPCODES
    ensures |OPCODES[op]| == 6 && IsNumeral(OPCODES[op], 2)
  {
  }

  /** The indirect bit of an operand list of n or n + 1 pieces, the last being "1" when there are n + 1. */
  lemma IndirectOperand(pieces: seq<string>, n: nat, indirect: bool)
    requires |pieces| == (if indirect then n + 1 else n) && (indirect ==> pieces[n] == "1")
    ensures NumeralValue(IndirectBit(pieces, n), 2) == if indirect then 1 else 0
  {
    if indirect {
      TrimOfTrimmed("1");
    }
  }

  /** `r,ix,address[,1]` with each field in range becomes the instruction format of those fields. */
  lemma RegisterFormBits(opcode: string, pieces: seq<string>, r: Int32, ix: Int32, address: Int32, indirect: bool)
    requires IsNumeral(opcode, 2) && |opcode| == 6
    requires 0 <= r < 4 && 0 <= ix < 4 && 0 <= address < 32
    requires |pieces| == (if indirect then 4 else 3) && (indirect ==> pieces[3] == "1")
    requires pieces[0] == DecimalText(r) && pieces[1] == DecimalText(ix) && pieces[2] == DecimalText(address)
    ensures InstructionCode(opcode, false, pieces).Success?
    ensures |InstructionCode(opcode, false, pieces).value| == 16
    ensures NumeralValue(InstructionCode(opcode, false, pieces).value, 2) ==
      InstructionWord(NumeralValue(opcode, 2), r, ix, if indirect then 1 else 0, address)
  {
    assert Pow2(2) == 4 && Pow2(5) == 32;
    FieldOfNumber(r, 2);
    FieldOfNumber(ix, 2);
    FieldOfNumber(address, 5);
    IndirectOperand(pieces, 3, indirect);
    var fr, fx, fa := Field(pieces[0], 2).value, Field(pieces[1], 2).value, Field(pieces[2], 5).value;
    LayoutValue(opcode, fr, fx, IndirectBit(pieces, 3), fa);
  }

  /** LDX and STX read `x,address[,1]`: r stays zero and x fills the ix field. */
  lemma IndexFormBits(opcode: string, pieces: seq<string>, x: Int32, address: Int32, indirect: bool)
    requires IsNumeral(opcode, 2) && |opcode| == 6
    requires 0 <= x < 4 && 0 <= address < 32
    requires |pieces| == (if indirect then 3 else 2) && (indirect ==> pieces[2] == "1")
    requires pieces[0] == DecimalText(x) && pieces[1] == DecimalText(address)
    ensures InstructionCode(opcode, true, pieces).Success?
    ensures |InstructionCode(opcode, true, pieces).value| == 16
    ensures NumeralValue(InstructionCode(opcode, true, pieces).value, 2) ==
      InstructionWord(NumeralValue(opcode, 2), 0, x, if indirect then 1 else 0, address)
  {
    assert Pow2(2) == 4 && Pow2(5) == 32;
    FieldOfNumber(x, 2);
    FieldOfNumber(address, 5);
    var fx, fa, i := Field(pieces[0], 2).value, Field(pieces[1], 5).value, IndirectBit(pieces, 2);
    IndexFormCode(opcode, pieces);
    IndirectOperand(pieces, 2, indirect);
    IndexLayoutValue(opcode, fx, i, fa);
  }

  lemma IndexLayoutValue(opcode: string, ix: string, i: string, address: string)
    requires IsNumeral(opcode, 2) && IsNumeral(ix, 2) && IsNumeral(i, 2) && IsNumeral(address, 2)
    requires |ix| == 2 && |i| == 1 && |address| == 5
    ensures |Layout(opcode, "00", ix, i, address)| == |opcode| + 10
    ensures NumeralValue(Layout(opcode, "00", ix, i, address), 2) ==
      InstructionWord(NumeralValue(opcode, 2), 0, NumeralValue(ix, 2), NumeralValue(i, 2), NumeralValue(address, 2))
  {
    ZeroFields();
    LayoutValue(opcode, "00", ix, i, address);
  }

  lemma IndexFormCode(opcode: string, pieces: seq<string>)
    requires IsNumeral(opcode, 2) && |pieces| >= 2 && Field(pieces[0], 2).Success? && Field(pieces[1], 5).Success?
    ensures InstructionCode(opcode, true, pieces) ==
      Success(Layout(opcode, "00", Field(pieces[0], 2).value, IndirectBit(pieces, 2), Field(pieces[1], 5).value))
  {
  }

  /** With fewer operands than its form reads, an instruction keeps r, ix, i and address zero. */
  lemma ShortOperandList(opcode: string, index: bool, pieces: seq<string>)
    requires IsNumeral(opcode, 2) && |opcode| == 6
    requires |pieces| < if index then 2 else 3
    ensures InstructionCode(opcode, index, pieces).Success?
    ensures |InstructionCode(opcode, index, pieces).value| == 16
    ensures NumeralValue(InstructionCode(opcode, index, pieces).value, 2) == InstructionWord(NumeralValue(opcode, 2), 0, 0, 0, 0)
  {
    var n := if index then 2 else 3;
    assert IndirectBit(pieces, n) == "0";
    ZeroFields();
    LayoutValue(opcode, "00", "00", "0", "00000");
  }

  lemma ZeroFields()
    ensures NumeralValue("0", 2) == 0 && NumeralValue("00", 2) == 0 && NumeralValue("00000", 2) == 0
  {
    ZerosValue(5, 2);
    assert Zeros(5) == "00000";
  }

  /** Sixteen binary digits of code are the word Pass 2 emits. */
  lemma SixteenDigits(code: string)
    requires IsNumeral(code, 2) && |code| == 16
    ensures WordOf(Fit16(code)) == NumeralValue(code, 2)
  {
  }

  /** An encodable instruction other than LDX and STX, with operands `r,ix,address[,1]` in range, emits its instruction word. */
  lemma EncodeInstruction(opcodes: map<string, string>, symbols: map<string, Int32>, parts: seq<string>,
                          pieces: seq<string>, r: Int32, ix: Int32, address: Int32, indirect: bool)
    requires BinaryTable(opcodes)
    requires |pieces| == (if indirect then 4 else 3) && (indirect ==> pieces[3] == "1")
    requires |parts| == 2 && Encodable(opcodes, parts[0]) && parts[0] != "LDX" && parts[0] != "STX"
    requires parts[1] == Join(pieces, ',')
    requires 0 <= r < 4 && 0 <= ix < 4 && 0 <= address < 32
    requires pieces[0] == DecimalText(r) && pieces[1] == DecimalText(ix) && pieces[2] == DecimalText(address)
    ensures var p := Pass2Parts(opcodes, symbols, parts);
      p.Success? && p.value.Emits? &&
      p.value.word == InstructionWord(NumeralValue(opcodes[parts[0]], 2), r, ix, if indirect then 1 else 0, address)
  {
    RegisterOperands(pieces, r, ix, address, indirect);
    SplitCommaJoin(pieces);
    RegisterFormBits(opcodes[parts[0]], pieces, r, ix, address, indirect);
    TableCode(opcodes, symbols, parts);
  }

  /** LDX or STX, when encodable, with operands `x,address[,1]` in range emits its instruction word with r zero. */
  lemma EncodeIndexInstruction(opcodes: map<string, string>, symbols: map<string, Int32>, parts: seq<string>,
                               pieces: seq<string>, x: Int32, address: Int32, indirect: bool)
    requires BinaryTable(opcodes)
    requires |pieces| == (if indirect then 3 else 2) && (indirect ==> pieces[2] == "1")
    requires |parts| == 2 && Encodable(opcodes, parts[0]) && (parts[0] == "LDX" || parts[0] == "STX")
    requires parts[1] == Join(pieces, ',')
    requires 0 <= x < 4 && 0 <= address < 32
    requires pieces[0] == DecimalText(x) && pieces[1] == DecimalText(address)
    ensures var p := Pass2Parts(opcodes, symbols, parts);
      p.Success? && p.value.Emits? &&
      p.value.word == InstructionWord(NumeralValue(opcodes[parts[0]], 2), 0, x, if indirect then 1 else 0, address)
  {
    IndexOperands(pieces, x, address, indirect);
    SplitCommaJoin(pieces);
    IndexFormBits(opcodes[parts[0]], pieces, x, address, indirect);
    TableCode(opcodes, symbols, parts);
  }

  /** An encodable instruction whose code has sixteen digits emits the word of that code. */
  lemma TableCode(opcodes: map<string, string>, symbols: map<string, Int32>, parts: seq<string>)
    requires BinaryTable(opcodes) && |parts| >= 2 && Encodable(opcodes, parts[0])
    requires var op := parts[0];
      var code := InstructionCode(opcodes[op], op == "LDX" || op == "STX", SplitComma(parts[1]));
      code.Success? && |code.value| == 16
    ensures var op := parts[0];
      var code := InstructionCode(opcodes[op], op == "LDX" || op == "STX", SplitComma(parts[1]));
      var p := Pass2Parts(opcodes, symbols, parts);
      p.Success? && p.value.Emits? && p.value.word == NumeralValue(code.value, 2)
  {
    var op := parts[0];
    UpperMnemonic(op);
    assert Operation(parts) == op;
    var code := InstructionCode(opcodes[op], op == "LDX" || op == "STX", SplitComma(parts[1]));
    assert MachineCode(opcodes, symbols, op, parts) == code;
    SixteenDigits(code.value);
  }

  /** The source line `op r,ix,address[,1]` of an encodable instruction other than LDX and STX emits its instruction word. */
  lemma EncodeInstructionLine(opcodes: map<string, string>, symbols: map<string, Int32>, op: string,
                              pieces: seq<string>, r: Int32, ix: Int32, address: Int32, indirect: bool)
    requires BinaryTable(opcodes) && Encodable(opcodes, op) && op != "LDX" && op != "STX"
    requires 0 <= r < 4 && 0 <= ix < 4 && 0 <= address < 32
    requires |pieces| == (if indirect then 4 else 3) && (indirect ==> pieces[3] == "1")
    requires pieces[0] == DecimalText(r) && pieces[1] == DecimalText(ix) && pieces[2] == DecimalText(address)
    ensures var p := Pass2Classify(opcodes, symbols, op + " " + Join(pieces, ','));
      p.Success? && p.value.Emits? &&
      p.value.word == InstructionWord(NumeralValue(opcodes[op], 2), r, ix, if indirect then 1 else 0, address)
  {
    var text := Join(pieces, ',');
    RegisterOperands(pieces, r, ix, address, indirect);
    JoinedOperands(pieces);
    SimpleStatement(op, text);
    var parts := SplitAtWhitespace(op + " " + text);
    assert Pass2Body(op + " " + text) == op + " " + text;
    EncodeInstruction(opcodes, symbols, parts, pieces, r, ix, address, indirect);
  }

  // ---------------------------------------------------------------------
  // DATA and HLT

  /** `DATA v` for a number v in 0..65535 that is not a label emits v. */
  lemma DataInRange(opcodes: map<string, string>, symbols: map<string, Int32>, parts: seq<string>, v: Int32)
    requires BinaryTable(opcodes) && |parts| == 2 && parts[0] == "DATA"
    requires Trim(parts[1]) !in symbols && ParseInt(Trim(parts[1])) == Some(v) && 0 <= v < 0x1_0000
    ensures Pass2Parts(opcodes, symbols, parts) == Success(Emits(v))
  {
    DataOperation(parts);
    ToBinaryStringLength(v);
  }

  /** `DATA name` for a label whose address is in 0..65535 emits that address. */
  lemma DataLabel(opcodes: map<string, string>, symbols: map<string, Int32>, parts: seq<string>)
    requires BinaryTable(opcodes) && |parts| == 2 && parts[0] == "DATA"
    requires Trim(parts[1]) in symbols && 0 <= symbols[Trim(parts[1])] < 0x1_0000
    ensures Pass2Parts(opcodes, symbols, parts) == Success(Emits(symbols[Trim(parts[1])]))
  {
    DataOperation(parts);
    ToBinaryStringLength(symbols[Trim(parts[1])]);
  }

  /**
   * `DATA v` for a negative v keeps the first sixteen of the 32 digits
   * `toBinaryString` prints: the word is 65536 + v / 65536, which is
   * 0xFFFF for every v from -65536 to -1.
   */
  lemma DataNegative(opcodes: map<string, string>, symbols: map<string, Int32>, parts: seq<string>, v: Int32)
    requires BinaryTable(opcodes) && |parts| == 2 && parts[0] == "DATA"
    requires Trim(parts[1]) !in symbols && ParseInt(Trim(parts[1])) == Some(v) && v < 0
    ensures Pass2Parts(opcodes, symbols, parts) == Success(Emits(0x1_0000 + v / 0x1_0000))
    ensures -0x1_0000 <= v ==> Pass2Parts(opcodes, symbols, parts) == Success(Emits(0xFFFF))
  {
    DataOperation(parts);
    ToBinaryStringLength(v);
    Pow2Sixteen();
    NegativeTop(v);
  }

  lemma NegativeTop(v: Int32)
    requires v < 0
    ensures (v + 0x1_0000_0000) / 0x1_0000 == 0x1_0000 + v / 0x1_0000
    ensures -0x1_0000 <= v ==> v / 0x1_0000 == -1
  {
    var q, r := v / 0x1_0000, v % 0x1_0000;
    DivModUnique(v + 0x1_0000_0000, 0x1_0000, q + 0x1_0000, r);
  }

  /** `DATA v` for v in 65536..131071 has seventeen digits and keeps the first sixteen: the word is v / 2. */
  lemma DataSeventeenDigits(opcodes: map<string, string>, symbols: map<string, Int32>, parts: seq<string>, v: Int32)
    requires BinaryTable(opcodes) && |parts| == 2 && parts[0] == "DATA"
    requires Trim(parts[1]) !in symbols && ParseInt(Trim(parts[1])) == Some(v) && 0x1_0000 <= v < 0x2_0000
    ensures Pass2Parts(opcodes, symbols, parts) == Success(Emits(v / 2))
  {
    DataNumberWord(opcodes, symbols, parts, v);
    Pow2Sixteen();
    assert Pow2(17) == 0x2_0000;
    BinaryLength(v, 17);
    ZeroFillValue(ToBinaryString(v), 16);
    assert |DataBits(v)| == 17;
    assert Pow2(1) == 2;
  }

  /** `DATA v` for a number that is not a label emits the word of v's binary digits cut or filled to sixteen. */
  lemma DataNumberWord(opcodes: map<string, string>, symbols: map<string, Int32>, parts: seq<string>, v: Int32)
    requires BinaryTable(opcodes) && |parts| == 2 && parts[0] == "DATA"
    requires Trim(parts[1]) !in symbols && ParseInt(Trim(parts[1])) == Some(v)
    ensures Pass2Parts(opcodes, symbols, parts) == Success(Emits(WordOf(Fit16(DataBits(v)))))
  {
    DataOperation(parts);
    assert MachineCode(opcodes, symbols, "DATA", parts) == Success(DataBits(v));
  }

  /** DATA without an operand, or with one that is neither a label nor a number, is a fault. */
  lemma DataFaults(opcodes: map<string, string>, symbols: map<string, Int32>, parts: seq<string>)
    requires BinaryTable(opcodes) && |parts| >= 1 && parts[0] == "DATA"
    requires |parts| >= 2 ==> Trim(parts[1]) !in symbols && ParseInt(Trim(parts[1])).None?
    ensures Pass2Parts(opcodes, symbols, parts) == Failure(if |parts| < 2 then MissingOperand else NotANumber)
  {
    DataOperation(parts);
  }

  lemma DataOperation(parts: seq<string>)
    requires |parts| >= 1 && parts[0] == "DATA"
    ensures Operation(parts) == "DATA"
  {
    UpperMnemonic("DATA");
  }

  /** An encodable instruction without its operand text is a fault. */
  lemma InstructionNeedsOperands(opcodes: map<string, string>, symbols: map<string, Int32>, parts: seq<string>)
    requires BinaryTable(opcodes) && |parts| == 1 && Encodable(opcodes, parts[0])
    ensures Pass2Parts(opcodes, symbols, parts) == Failure(MissingOperand)
  {
    UpperMnemonic(parts[0]);
  }
}
