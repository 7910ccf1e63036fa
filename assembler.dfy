// The two-pass assembler: Pass 1 walks the source lines with a location
// counter and records every label's address; Pass 2 walks them again,
// encodes DATA, HLT and the table mnemonics into 16-bit words and writes
// the load and listing lines. Each line's work is a function; the class
// Assembler holds the two static tables and runs both passes as loops.
module Assembler {
  import opened Words
  import opened Wrappers
  import opened JavaText

  /** The Java exceptions a source line can raise; neither is caught, so assembly stops. */
  datatype Fault =
    | MissingOperand   // ArrayIndexOutOfBoundsException: no operand after the mnemonic
    | NotANumber       // NumberFormatException from Integer.parseInt

  /** The opcode table: mnemonic to its six-bit binary opcode. */
  const OPCODES: map<string, string> := map[
    "HLT" := "000000", "LDR" := "000001", "STR" := "000010", "LDA" := "000011",
    "AMR" := "000100", "SMR" := "000101", "AIR" := "000110", "SIR" := "000111",
    "JZ" := "001010", "JNE" := "001011", "JCC" := "001100", "JMA" := "001101",
    "JSR" := "001110", "RFS" := "001111", "SOB" := "010000", "JGE" := "010001",
    "LDX" := "100001", "STX" := "100010"]

  /** Every opcode in the table is a string of binary digits, as `Integer.parseInt(.., 2)` needs. */
  predicate BinaryTable(opcodes: map<string, string>)
  {
    forall m :: m in opcodes ==> IsNumeral(opcodes[m], 2)
  }

  /** The table the assembler builds holds binary opcodes only. */
  lemma OpcodesAreBinary()
    ensures BinaryTable(OPCODES)
  {
  }

  /** The location counter's `++` on a Java `int`, which wraps from the largest value to the smallest. */
  function Next(lc: Int32): (r: Int32)
    ensures lc < INT_MAX ==> r == lc + 1
    ensures lc == INT_MAX ==> r == INT_MIN
  {
    if lc == INT_MAX then INT_MIN else lc + 1
  }

  // ---------------------------------------------------------------------
  // What both passes do first with a line

  /**
   * The statement on a source line: trimmed, cut at its first `;` and
   * trimmed again. None for a blank line and a line starting with `;`,
   * which neither pass processes.
   */
  function Statement(raw: string): (r: Option<string>)
    ensures r.None? <==> Trim(raw) == [] || Trim(raw)[0] == ';'
    ensures r.Some? ==> r.value != [] && ';' !in r.value
    ensures r.Some? ==> !IsBlank(r.value[0]) && !IsBlank(r.value[|r.value| - 1])
  {
    var line := Trim(raw);
    if line == [] || line[0] == ';' then None
    else if ';' in line then
      var cut := line[..IndexOf(line, ';')];
      assert cut != [] && !IsBlank(cut[0]);
      Some(Trim(cut))
    else Some(line)
  }

  /** The part of a statement after a leading `label:`, as Pass 1 finds it. */
  function Pass1Label(line: string): (r: (Option<string>, string))
  {
    match LabelOf(line)
    case Some(l) => (Some(l), Trim(line[|l| + 1..]))
    case None => (None, line)
  }

  /** The part of a statement after a leading `label:`, as Pass 2 strips it with `matches` and `indexOf(':')`. */
  function Pass2Body(line: string): string
  {
    if MatchesLabelLine(line) then Trim(line[IndexOf(line, ':') + 1..]) else line
  }

  /** The upper-cased first word of a statement body. */
  function Operation(parts: seq<string>): string
    requires |parts| >= 1
  {
    ToUpper(parts[0])
  }

  // ---------------------------------------------------------------------
  // Pass 1

  datatype Pass1State = Pass1State(lc: Int32, symbols: map<string, Int32>, fault: Option<Fault>)

  /** What a line does to Pass 1's counter. */
  datatype CounterEffect = Unchanged | SetTo(n: Int32) | Advance | Fails(fault: Fault)

  /** What Pass 1 reads from a line: the label it defines, if any, and its effect on the counter. */
  datatype Pass1Info = Pass1Info(defines: Option<string>, effect: CounterEffect)

  function Pass1Classify(raw: string): (r: Pass1Info)
  {
    match Statement(raw)
    case None => Pass1Info(None, Unchanged)
    case Some(line) => Pass1Statement(line)
  }

  /** A statement's label, found at its start, and the effect of the rest. */
  function Pass1Statement(line: string): (r: Pass1Info)
  {
    var (found, body) := Pass1Label(line);
    Pass1Info(found, Pass1Effect(body))
  }

  /** An empty body leaves the counter, LOC sets it, and any other operation advances it. */
  function Pass1Effect(body: string): (r: CounterEffect)
  {
    if body == [] then Unchanged
    else
      var parts := SplitAtWhitespace(body);
      if Operation(parts) == "LOC" then
        match LocCounter(parts)
        case Failure(f) => Fails(f)
        case Success(n) => SetTo(n)
      else Advance
  }

  /** The operand of LOC, `Integer.parseInt(parts[1])`, read the same way by both passes. */
  function LocCounter(parts: seq<string>): (r: Result<Int32, Fault>)
  {
    if |parts| < 2 then Failure(MissingOperand)
    else match ParseInt(parts[1])
      case None => Failure(NotANumber)
      case Some(n) => Success(n)
  }

  /** One line's effect on Pass 1's state: the label is recorded at the current counter, then the counter moves. */
  function Pass1Apply(st: Pass1State, info: Pass1Info): (r: Pass1State)
  {
    var symbols := if info.defines.Some? then st.symbols[info.defines.value := st.lc] else st.symbols;
    match info.effect
    case Unchanged => st.(symbols := symbols)
    case SetTo(n) => st.(lc := n, symbols := symbols)
    case Advance => st.(lc := Next(st.lc), symbols := symbols)
    case Fails(f) => st.(symbols := symbols, fault := Some(f))
  }

  /** What Pass 1 reads from each line of a source. */
  function Pass1Infos(lines: seq<string>): (r: seq<Pass1Info>)
  {
    seq(|lines|, i requires 0 <= i < |lines| => Pass1Classify(lines[i]))
  }

  /** Pass 1's remaining lines applied in order to a state; after a fault nothing more happens. */
  function Pass1Run(st: Pass1State, infos: seq<Pass1Info>): (r: Pass1State)
    decreases |infos|
  {
    if infos == [] || st.fault.Some? then st else Pass1Run(Pass1Apply(st, infos[0]), infos[1..])
  }

  /** Pass 1 over a source, from counter 0 and the given table. */
  function Pass1Lines(table: map<string, Int32>, lines: seq<string>): (r: Pass1State)
  {
    Pass1Run(Pass1State(0, table, None), Pass1Infos(lines))
  }

  // ---------------------------------------------------------------------
  // Pass 2: encoding

  /** An operand field: `%Ns` of `toBinaryString(parseInt(operand.trim()))` with spaces made zeros. */
  function Field(operand: string, width: nat): (r: Result<string, Fault>)
    ensures r.Success? ==> IsNumeral(r.value, 2) && |r.value| >= width
    ensures r.Failure? ==> r.error == NotANumber && ParseInt(Trim(operand)).None?
  {
    match ParseInt(Trim(operand))
    case None => Failure(NotANumber)
    case Some(v) =>
      ZeroFillValue(ToBinaryString(v), width);
      Success(ZeroFill(ToBinaryString(v), width))
  }

  /** The indirect bit: "1" exactly when there is an operand after the n address operands and it trims to "1". */
  function IndirectBit(operands: seq<string>, n: nat): (r: string)
    ensures r == "1" <==> |operands| == n + 1 && Trim(operands[n]) == "1"
    ensures r == "1" || r == "0"
    ensures |r| == 1 && IsNumeral(r, 2)
  {
    if |operands| == n + 1 && Trim(operands[n]) == "1" then "1" else "0"
  }

  /** The five fields side by side, most significant first. */
  function Layout(opcode: string, r: string, ix: string, i: string, address: string): (code: string)
    requires IsNumeral(opcode, 2) && IsNumeral(r, 2) && IsNumeral(ix, 2) && IsNumeral(i, 2) && IsNumeral(address, 2)
    ensures IsNumeral(code, 2) && |code| == |opcode| + |r| + |ix| + |i| + |address|
    ensures code[..|opcode|] == opcode
  {
    NumeralConcat(opcode, r, 2);
    NumeralConcat(opcode + r, ix, 2);
    NumeralConcat(opcode + r + ix, i, 2);
    NumeralConcat(opcode + r + ix + i, address, 2);
    opcode + r + ix + i + address
  }

  /**
   * The bits of an instruction: opcode, r, ix, i, address. LDX/STX
   * (`index`) read `x, address[,I]`; the others read `r, ix, address[,I]`.
   * With too few operands those fields stay zero.
   */
  function InstructionCode(opcode: string, index: bool, operands: seq<string>): (r: Result<string, Fault>)
    requires IsNumeral(opcode, 2)
    ensures r.Success? ==> IsNumeral(r.value, 2) && |r.value| >= |opcode| + 10 && r.value[..|opcode|] == opcode
    ensures r.Failure? ==> r.error == NotANumber
  {
    var n := if index then 2 else 3;
    var i := IndirectBit(operands, n);
    assert IsNumeral("00", 2) && IsNumeral("00000", 2) && |"00"| == 2 && |"00000"| == 5;
    if |operands| < n then Success(Layout(opcode, "00", "00", i, "00000"))
    else
      var first := if index then Success("00") else Field(operands[0], 2);
      match first
      case Failure(e) => Failure(e)
      case Success(r) =>
        match Field(operands[n - 2], 2)
        case Failure(e) => Failure(e)
        case Success(ix) =>
          match Field(operands[n - 1], 5)
          case Failure(e) => Failure(e)
          case Success(address) => Success(Layout(opcode, r, ix, i, address))
  }

  /** The DATA word: a label's address if the operand is a label, else the parsed number, as sixteen-or-more binary digits. */
  function DataCode(symbols: map<string, Int32>, operand: string): (r: Result<string, Fault>)
    ensures r.Success? ==> IsNumeral(r.value, 2) && |r.value| >= 16
    ensures r.Failure? ==> r.error == NotANumber
  {
    var valueStr := Trim(operand);
    if valueStr in symbols then Success(DataBits(symbols[valueStr]))
    else match ParseInt(valueStr)
      case None => Failure(NotANumber)
      case Some(v) => Success(DataBits(v))
  }

  function DataBits(v: Int32): (r: string)
    ensures IsNumeral(r, 2) && |r| >= 16 && NumeralValue(r, 2) == Unsigned32(v)
  {
    ZeroFillValue(ToBinaryString(v), 16);
    ZeroFill(ToBinaryString(v), 16)
  }

  /** The machine-code bits a statement produces; empty when its operation is not DATA, HLT or in the opcode table. */
  function MachineCode(opcodes: map<string, string>, symbols: map<string, Int32>, op: string, parts: seq<string>)
    : (r: Result<string, Fault>)
    requires BinaryTable(opcodes)
    ensures r.Success? ==> IsNumeral(r.value, 2)
    ensures r.Success? ==> (r.value == [] <==> op != "DATA" && op != "HLT" && op !in opcodes)
  {
    if op == "DATA" then
      if |parts| < 2 then Failure(MissingOperand) else DataCode(symbols, parts[1])
    else if op == "HLT" then
      ZeroFillValue("0", 16);
      Success(ZeroFill("0", 16))
    else if op in opcodes then
      if |parts| < 2 then Failure(MissingOperand)
      else InstructionCode(opcodes[op], op == "LDX" || op == "STX", SplitComma(parts[1]))
    else Success("")
  }

  /** The code cut to its first sixteen digits, or zero-filled to sixteen. */
  function Fit16(code: string): (r: string)
    requires IsNumeral(code, 2)
    ensures |r| == 16 && IsNumeral(r, 2)
    ensures |code| <= 16 ==> NumeralValue(r, 2) == NumeralValue(code, 2)
    ensures |code| > 16 ==> NumeralValue(r, 2) == NumeralValue(code, 2) / Pow2(|code| - 16)
  {
    if |code| > 16 then
      BinaryPrefix(code, 16);
      code[..16]
    else
      ZeroFillValue(code, 16);
      ZeroFill(code, 16)
  }

  /** `Integer.parseInt(bits, 2)` of sixteen binary digits. */
  function WordOf(bits: string): (w: Word)
    requires |bits| == 16 && IsNumeral(bits, 2)
    ensures w == NumeralValue(bits, 2)
  {
    BinaryBound(bits);
    Pow2Sixteen();
    NumeralValue(bits, 2)
  }

  // ---------------------------------------------------------------------
  // Pass 2: one line

  /** A word placed at an address. */
  datatype Emit = Emit(address: Int32, word: Word)

  /** What one line of Pass 2 produces: the new counter, the word it emits if any, and its listing text. */
  datatype Pass2Step = Pass2Step(lc: Int32, emitted: Option<Emit>, listing: string)

  /** The listing line of a line that emits nothing: three tabs, then the line as written. */
  function TabbedLine(raw: string): string { "\t\t\t" + raw + "\n" }

  /** `%06o\t%06o\n` of the address and the word. */
  function LoadLine(e: Emit): string { Octal6(e.address) + "\t" + Octal6(e.word) + "\n" }

  /** `%s\t%s\t%s\n` of the octal address, the octal word and the line as written. */
  function ListingLine(e: Emit, raw: string): string
  {
    Octal6(e.address) + "\t" + Octal6(e.word) + "\t" + raw + "\n"
  }

  /** What Pass 2 makes of a line, whatever the counter: nothing to emit, a new counter, or a word. */
  datatype Pass2Info = Listed | SetCounter(n: Int32) | Emits(word: Word)

  function Pass2Classify(opcodes: map<string, string>, symbols: map<string, Int32>, raw: string)
    : (r: Result<Pass2Info, Fault>)
    requires BinaryTable(opcodes)
  {
    match Statement(raw)
    case None => Success(Listed)
    case Some(line) => Pass2Parts(opcodes, symbols, SplitAtWhitespace(Pass2Body(line)))
  }

  /** A statement body split at its first whitespace run: LOC sets the counter, other operations may emit a word. */
  function Pass2Parts(opcodes: map<string, string>, symbols: map<string, Int32>, parts: seq<string>)
    : (r: Result<Pass2Info, Fault>)
    requires BinaryTable(opcodes) && |parts| >= 1
  {
    var op := Operation(parts);
    if op == "LOC" then
      match LocCounter(parts)
      case Failure(e) => Failure(e)
      case Success(n) => Success(SetCounter(n))
    else match MachineCode(opcodes, symbols, op, parts)
      case Failure(e) => Failure(e)
      case Success(code) =>
        if code == [] then Success(Listed) else Success(Emits(WordOf(Fit16(code))))
  }

  /** One line's effect on Pass 2's counter and output, given what the line is. */
  function Pass2Apply(lc: Int32, info: Pass2Info, raw: string): (r: Pass2Step)
    ensures r.emitted.Some? <==> info.Emits?
    ensures r.emitted.Some? ==>
      r.emitted.value == Emit(lc, info.word) && r.lc == Next(lc) && r.listing == ListingLine(r.emitted.value, raw)
    ensures r.emitted.None? ==> r.listing == TabbedLine(raw)
    ensures info.SetCounter? ==> r.lc == info.n
    ensures info.Listed? ==> r.lc == lc
  {
    match info
    case Listed => Pass2Step(lc, None, TabbedLine(raw))
    case SetCounter(n) => Pass2Step(n, None, TabbedLine(raw))
    case Emits(w) =>
      var e := Emit(lc, w);
      Pass2Step(Next(lc), Some(e), ListingLine(e, raw))
  }

  /** The result of Pass 2: the final counter, the words in order, and the listing and load file lines. */
  datatype Assembly = Assembly(lc: Int32, image: seq<Emit>, listing: seq<string>, load: seq<string>)

  function Append(a: Assembly, st: Pass2Step): Assembly
  {
    match st.emitted
    case None => a.(lc := st.lc, listing := a.listing + [st.listing])
    case Some(e) =>
      Assembly(st.lc, a.image + [e], a.listing + [st.listing], a.load + [LoadLine(e)])
  }

  /** What Pass 2 makes of each line of a source. */
  function Pass2Infos(opcodes: map<string, string>, symbols: map<string, Int32>, lines: seq<string>)
    : (r: seq<Result<Pass2Info, Fault>>)
    requires BinaryTable(opcodes)
  {
    seq(|lines|, i requires 0 <= i < |lines| => Pass2Classify(opcodes, symbols, lines[i]))
  }

  /** Pass 2's remaining lines applied in order to what it has produced so far; the first fault ends it. */
  function Pass2Run(a: Assembly, infos: seq<Result<Pass2Info, Fault>>, lines: seq<string>): (r: Result<Assembly, Fault>)
    requires |infos| == |lines|
    decreases |lines|
  {
    if lines == [] then Success(a)
    else match infos[0]
      case Failure(e) => Failure(e)
      case Success(info) => Pass2Run(Append(a, Pass2Apply(a.lc, info, lines[0])), infos[1..], lines[1..])
  }

  /** Pass 2 over a source, from counter 0. */
  function Pass2Lines(opcodes: map<string, string>, symbols: map<string, Int32>, lines: seq<string>)
    : (r: Result<Assembly, Fault>)
    requires BinaryTable(opcodes)
  {
    Pass2Run(Assembly(0, [], [], []), Pass2Infos(opcodes, symbols, lines), lines)
  }

  /** The whole run on fresh tables: the opcode table, Pass 1, then Pass 2 with Pass 1's labels. */
  function AssembleSource(lines: seq<string>): (r: Result<Assembly, Fault>)
  {
    OpcodesAreBinary();
    var st := Pass1Lines(map[], lines);
    if st.fault.Some? then Failure(st.fault.value) else Pass2Lines(OPCODES, st.symbols, lines)
  }

  // ---------------------------------------------------------------------
  // The assembler's static state and its two loops

  class Assembler {
    var symbolTable: map<string, Int32>
    var opcodeTable: map<string, string>

    constructor()
      ensures symbolTable == map[] && opcodeTable == map[]
    {
      symbolTable := map[];
      opcodeTable := map[];
    }

    method InitializeOpcodeTable()
      requires opcodeTable == map[]
      modifies this
      ensures opcodeTable == OPCODES
      ensures symbolTable == old(symbolTable)
    {
      opcodeTable := opcodeTable["HLT" := "000000"]["LDR" := "000001"]["STR" := "000010"]
        ["LDA" := "000011"]["AMR" := "000100"]["SMR" := "000101"]
        ["AIR" := "000110"]["SIR" := "000111"]["JZ" := "001010"]
        ["JNE" := "001011"]["JCC" := "001100"]["JMA" := "001101"]
        ["JSR" := "001110"]["RFS" := "001111"]["SOB" := "010000"]
        ["JGE" := "010001"]["LDX" := "100001"]["STX" := "100010"];
    }

    /** Pass 1: labels go into the symbol table; the first fault ends the pass. */
    method PerformPass1(lines: seq<string>) returns (fault: Option<Fault>)
      modifies this
      ensures symbolTable == Pass1Lines(old(symbolTable), lines).symbols
      ensures fault == Pass1Lines(old(symbolTable), lines).fault
      ensures opcodeTable == old(opcodeTable)
    {
      ghost var infos := Pass1Infos(lines);
      ghost var result := Pass1Lines(symbolTable, lines);
      var locationCounter: Int32 := 0;
      var k := 0;
      assert infos[k..] == infos;
      while k < |lines|
        invariant 0 <= k <= |lines|
        invariant Pass1Run(Pass1State(locationCounter, symbolTable, None), infos[k..]) == result
        invariant opcodeTable == old(opcodeTable)
      {
        ghost var before := Pass1State(locationCounter, symbolTable, None);
        var info := Pass1Classify(lines[k]);
        assert infos[k..][0] == infos[k] == info && infos[k..][1..] == infos[k + 1..];
        if info.defines.Some? {
          symbolTable := symbolTable[info.defines.value := locationCounter];
        }
        match info.effect {
          case Unchanged =>
          case SetTo(n) => locationCounter := n;
          case Advance => locationCounter := Next(locationCounter);
          case Fails(f) =>
            fault := Some(f);
            assert Pass1Apply(before, info) == Pass1State(locationCounter, symbolTable, fault);
            return;
        }
        assert Pass1Apply(before, info) == Pass1State(locationCounter, symbolTable, None);
        k := k + 1;
      }
      fault := None;
    }

    /** Pass 2: the load and listing lines and the words, read against both tables. */
    method PerformPass2(lines: seq<string>) returns (r: Result<Assembly, Fault>)
      requires BinaryTable(opcodeTable)
      ensures r == Pass2Lines(opcodeTable, symbolTable, lines)
    {
      ghost var infos := Pass2Infos(opcodeTable, symbolTable, lines);
      ghost var result := Pass2Lines(opcodeTable, symbolTable, lines);
      var locationCounter: Int32 := 0;
      var listing: seq<string> := [];
      var load: seq<string> := [];
      var image: seq<Emit> := [];
      var k := 0;
      assert infos[k..] == infos && lines[k..] == lines;
      while k < |lines|
        invariant 0 <= k <= |lines|
        invariant Pass2Run(Assembly(locationCounter, image, listing, load), infos[k..], lines[k..]) == result
      {
        var originalLine := lines[k];
        var info := Pass2Classify(opcodeTable, symbolTable, originalLine);
        assert infos[k..][0] == infos[k] == info && infos[k..][1..] == infos[k + 1..];
        assert lines[k..][0] == originalLine && lines[k..][1..] == lines[k + 1..];
        if info.Failure? {
          r := Failure(info.error);
          return;
        }
        match info.value {
          case Listed =>
            listing := listing + [TabbedLine(originalLine)];
          case SetCounter(n) =>
            locationCounter := n;
            listing := listing + [TabbedLine(originalLine)];
          case Emits(word) =>
            var e := Emit(locationCounter, word);
            listing := listing + [ListingLine(e, originalLine)];
            load := load + [LoadLine(e)];
            image := image + [e];
            locationCounter := Next(locationCounter);
        }
        k := k + 1;
      }
      r := Success(Assembly(locationCounter, image, listing, load));
    }

    /** The program's run on fresh tables. */
    method Assemble(lines: seq<string>) returns (r: Result<Assembly, Fault>)
      requires symbolTable == map[] && opcodeTable == map[]
      modifies this
      ensures r == AssembleSource(lines)
    {
      InitializeOpcodeTable();
      assert opcodeTable == OPCODES;
      var fault := PerformPass1(lines);
      if fault.Some? {
        return Failure(fault.value);
      }
      r := PerformPass2(lines);
    }
  }
}
