// The simulated machine as a value: registers, 2048 words of memory, the
// sixteen-line write-through cache in front of it, and the console the OUT
// and IN instructions write to. Each function below is the effect of one
// operation of the CPU on that value; the CPU class is proved to follow them.
module Cpu {
  import opened Words
  import opened Wrappers
  import opened Isa
  import opened CachePolicy

  const MEMORY_SIZE: nat := 2048

  /** What `executeInstruction` reports: `true`, `false`, or an array-index exception. */
  datatype Outcome = Continue | Stop | OutOfBounds

  /** A console line: a value printed by OUT, or the notice that IN left register `register` unset. */
  datatype ConsoleEntry = Printed(value: int) | InvalidInput(register: int)

  datatype Machine = Machine(
    pc: int, ir: Word, mar: int, mbr: int, mfr: int, cc: int,
    gpr: seq<Word>,
    ixr: seq<Word>,
    memory: seq<Word>,
    cache: CacheState,
    console: seq<ConsoleEntry>)

  /** Four GPRs, four index-register slots (slot 0 unused), 2048 words, and a cache that mirrors memory. */
  predicate Consistent(m: Machine)
  {
    && |m.gpr| == 4 && |m.ixr| == 4 && |m.memory| == MEMORY_SIZE
    && CachePolicy.Wf(m.cache)
    && Coherent(m.cache, m.memory)
  }

  predicate InMemory(a: int) { 0 <= a < MEMORY_SIZE }

  /** What `readMemory(a)` answers in a coherent machine: the word at `a`, or 0 outside memory. */
  function WordAt(m: Machine, a: int): Word
    requires |m.memory| == MEMORY_SIZE
  {
    if InMemory(a) then m.memory[a] else 0
  }

  /** Every part of `m` except the registers a memory access touches. */
  predicate SameExceptAccess(m: Machine, r: Machine)
  {
    r == m.(mar := r.mar, mbr := r.mbr, mfr := r.mfr, cache := r.cache)
  }

  // ---------------------------------------------------------------------
  // Reset and register access

  /**
   * `reset`: registers, GPRs, index registers and memory become 0, every cache
   * line is invalidated with tag -1 (its data word is left as it was), and the
   * queue is emptied.
   */
  function Reset(m: Machine): (r: Machine)
    requires |m.cache.lines| == LINES
    ensures Consistent(r)
    ensures r.pc == 0 && r.ir == 0 && r.mar == 0 && r.mbr == 0 && r.mfr == 0 && r.cc == 0
    ensures forall k :: 0 <= k < 4 ==> r.gpr[k] == 0 && r.ixr[k] == 0
    ensures forall a :: 0 <= a < MEMORY_SIZE ==> r.memory[a] == 0
    ensures forall a :: !IsHit(r.cache, a)
    ensures forall k :: 0 <= k < LINES ==> r.cache.lines[k].data == m.cache.lines[k].data
    ensures r.console == m.console
  {
    var r := Machine(0, 0, 0, 0, 0, 0, [0, 0, 0, 0], [0, 0, 0, 0], BlankMemory(),
                     CacheState(Invalidated(m.cache.lines), []), m.console);
    assert forall k :: 0 <= k < LINES ==> !r.cache.lines[k].valid;
    r
  }

  /** Memory as `reset` leaves it: every word 0. */
  function BlankMemory(): seq<Word>
  {
    seq(MEMORY_SIZE, _ => 0)
  }

  /** The lines as `reset` leaves them: each invalid with tag -1, its data word kept. */
  function Invalidated(lines: seq<Line>): seq<Line>
  {
    seq(|lines|, k requires 0 <= k < |lines| => lines[k].(valid := false, tag := -1))
  }

  /** The CPU as constructed: sixteen fresh lines (invalid, tag -1, data 0), then `reset`. */
  function PowerOn(): (r: Machine)
    ensures Consistent(r) && r.cache == Empty() && r.console == []
  {
    var r := Reset(Machine(0, 0, 0, 0, 0, 0, [], [], [], Empty(), []));
    assert r.cache.lines == Empty().lines;
    r
  }

  /** `setGPR`: the register receives the low sixteen bits of `value`. */
  function SetGpr(m: Machine, index: int, value: int): (r: Machine)
    requires Consistent(m) && 0 <= index < 4
    ensures Consistent(r)
    ensures r.gpr[index] == Mask16(value)
    ensures forall k :: 0 <= k < 4 && k != index ==> r.gpr[k] == m.gpr[k]
    ensures r.(gpr := m.gpr) == m
  {
    m.(gpr := m.gpr[index := Mask16(value)])
  }

  /** `setIXR`: X1..X3 receive the low sixteen bits of `value`; any other index is ignored. */
  function SetIxr(m: Machine, index: int, value: int): (r: Machine)
    requires Consistent(m)
    ensures Consistent(r)
    ensures 0 < index < 4 ==> r.ixr[index] == Mask16(value)
    ensures forall k :: 0 <= k < 4 && k != index ==> r.ixr[k] == m.ixr[k]
    ensures !(0 < index < 4) ==> r == m
    ensures r.(ixr := m.ixr) == m
  {
    if 0 < index < 4 then m.(ixr := m.ixr[index := Mask16(value)]) else m
  }

  // ---------------------------------------------------------------------
  // Memory through the cache

  /**
   * `readMemory`: an address outside memory sets MFR to 1 and reads 0;
   * otherwise MAR is set, a hit answers from its line, a miss fetches from
   * memory and installs the word, and MBR holds the result.
   */
  function ReadMem(m: Machine, address: int): (r: (Machine, int))
    requires Consistent(m)
    ensures Consistent(r.0) && SameExceptAccess(m, r.0)
    ensures 0 <= address < MEMORY_SIZE ==>
      && r.1 == m.memory[address]
      && r.0.mar == address && r.0.mbr == r.1 && r.0.mfr == m.mfr
      && IsHit(r.0.cache, address)
    ensures !(0 <= address < MEMORY_SIZE) ==> r.1 == 0 && r.0 == m.(mfr := 1)
  {
    if address < 0 || address >= |m.memory| then (m.(mfr := 1), 0)
    else
      FillKeepsInvariants(m.cache, m.memory, address);
      RereadHits(m.cache, address, m.memory[address], m.memory[address]);
      var v := Probe(m.cache, address, m.memory[address]);
      (m.(mar := address, mbr := v, cache := Fill(m.cache, address, m.memory[address])), v)
  }

  /**
   * `writeMemory`: an address outside memory sets MFR to 1 and writes nothing;
   * otherwise the low sixteen bits of `value` go to memory, to MAR/MBR, and to
   * the cache line holding the address or to a newly installed line.
   */
  function WriteMem(m: Machine, address: int, value: int): (r: Machine)
    requires Consistent(m)
    ensures Consistent(r) && SameExceptAccess(m.(memory := r.memory), r)
    ensures 0 <= address < MEMORY_SIZE ==>
      && r.memory == m.memory[address := Mask16(value)]
      && r.mar == address && r.mbr == Mask16(value) && r.mfr == m.mfr
      && IsHit(r.cache, address)
    ensures !(0 <= address < MEMORY_SIZE) ==> r == m.(mfr := 1)
  {
    if address < 0 || address >= |m.memory| then m.(mfr := 1)
    else
      var v := Mask16(value);
      UpdateKeepsInvariants(m.cache, m.memory, address, v);
      m.(mar := address, mbr := v, memory := m.memory[address := v], cache := Update(m.cache, address, v))
  }

  /**
   * `calculateEffectiveAddress`: the address field plus X1..X3 when `ix`
   * names one; with the indirect bit set, the word at that address (read
   * through the cache, and 0 with MFR set to 1 when it lies outside memory).
   */
  function EffectiveAddress(m: Machine, address: int, ix: int, i: int): (r: (Machine, int))
    requires Consistent(m)
    ensures Consistent(r.0) && SameExceptAccess(m, r.0)
    ensures var base := address + (if 0 < ix < 4 then m.ixr[ix] else 0);
      && (i != 1 ==> r == (m, base))
      && (i == 1 ==> r.1 == if 0 <= base < MEMORY_SIZE then m.memory[base] else 0)
  {
    var base := address + (if 0 < ix < 4 then m.ixr[ix] else 0);
    if i == 1 then ReadMem(m, base) else (m, base)
  }

  // ---------------------------------------------------------------------
  // Fetch, decode and execute

  /**
   * `executeInstruction`: a PC outside memory sets MFR to 1 and stops;
   * otherwise the word at PC (read through the cache) becomes IR, PC
   * advances by one, and the instruction is executed.
   */
  function Step(m: Machine, input: Option<int>): (r: (Machine, Outcome))
    requires Consistent(m)
    ensures Consistent(r.0)
  {
    if m.pc < 0 || m.pc >= |m.memory| then (m.(mfr := 1), Stop)
    else
      var fetched := ReadMem(m, m.pc);
      Execute(fetched.0.(ir := fetched.1, pc := m.pc + 1), input)
  }

  /**
   * The `switch` on the opcode. Its labels are the decimal numbers written
   * in the source (10 for JZ, 41 for LDX and so on); any other opcode sets
   * MFR to 4 and stops.
   */
  function Execute(m: Machine, input: Option<int>): (r: (Machine, Outcome))
    requires Consistent(m)
    ensures Consistent(r.0)
  {
    var op := Opcode(m.ir);
    if op == 0 then (m, Stop)
    else if 1 <= op <= 7 then (LoadStore(m, op), Continue)
    else if 10 <= op <= 17 then (Transfer(m, op), Continue)
    else if 20 <= op <= 25 then RegisterOp(m, op)
    else if op == 30 then (Trap(m), Continue)
    else if op == 31 || op == 32 then (ShiftRotate(m, op), Continue)
    else if op == 41 || op == 42 then (IndexOp(m, op), Continue)
    else if op == 61 || op == 62 then (InputOutput(m, op, input), Continue)
    else (m.(mfr := 4), Stop)
  }

  /** LDR, STR, LDA, AMR, SMR, AIR and SIR (opcodes 1 to 7). */
  function LoadStore(m: Machine, op: int): (r: Machine)
    requires Consistent(m) && 1 <= op <= 7
    ensures Consistent(r)
  {
    if op == 6 || op == 7 then AddImmediate(m, op == 7)
    else
      var (m1, ea) := EffectiveAddress(m, AddressField(m.ir), IxField(m.ir), IField(m.ir));
      if op == 1 then LoadRegister(m1, ea)
      else if op == 2 then WriteMem(m1, ea, m1.gpr[RField(m.ir)])
      else if op == 3 then SetGpr(m1, RField(m.ir), ea)
      else AddMemory(m1, ea, op == 5)
  }

  /** AIR and SIR: register r plus or minus the signed immediate. */
  function AddImmediate(m: Machine, subtract: bool): (r: Machine)
    requires Consistent(m)
    ensures Consistent(r)
  {
    var rr := RField(m.ir);
    var a := SignExtend(m.gpr[rr]);
    SetGpr(m, rr, if subtract then a - Immediate(m.ir) else a + Immediate(m.ir))
  }

  /** LDR once the effective address is known: register r receives the word read through the cache. */
  function LoadRegister(m: Machine, ea: int): (r: Machine)
    requires Consistent(m)
    ensures Consistent(r)
    ensures r.gpr == m.gpr[RField(m.ir) := WordAt(m, ea)]
    ensures SameExceptAccess(m.(gpr := r.gpr), r)
    ensures r.mfr == (if InMemory(ea) then m.mfr else 1)
  {
    var (m1, v) := ReadMem(m, ea);
    SetGpr(m1, RField(m.ir), v)
  }

  /** AMR and SMR once the effective address is known: register r is read, then the word, both as signed values. */
  function AddMemory(m: Machine, ea: int, subtract: bool): (r: Machine)
    requires Consistent(m)
    ensures Consistent(r)
    ensures var v, w := m.gpr[RField(m.ir)] as int, WordAt(m, ea) as int;
      r.gpr == m.gpr[RField(m.ir) := Mask16(if subtract then v - w else v + w)]
    ensures SameExceptAccess(m.(gpr := r.gpr), r)
    ensures r.mfr == (if InMemory(ea) then m.mfr else 1)
  {
    var rr := RField(m.ir);
    var a := SignExtend(m.gpr[rr]);
    var (m1, v) := ReadMem(m, ea);
    if subtract then
      SignedDifferenceMasks(m.gpr[rr], v);
      SetGpr(m1, rr, a - SignExtend(v))
    else
      SignedSumMasks(m.gpr[rr], v);
      SetGpr(m1, rr, a + SignExtend(v))
  }

  /**
   * JZ, JNE, JCC, JMA, JSR, RFS, SOB and JGE (opcodes 10 to 17). Each computes
   * its effective address before testing, except RFS which has none and SOB
   * which computes it only when it branches.
   */
  function Transfer(m: Machine, op: int): (r: Machine)
    requires Consistent(m) && 10 <= op <= 17
    ensures Consistent(r)
  {
    if op == 15 then m.(pc := m.gpr[3])
    else if op == 16 then SubtractOneAndBranch(m)
    else Jump(m, op)
  }

  /** SOB: register r drops by one (wrapping at 16 bits); while its signed value stays positive, jump. */
  function SubtractOneAndBranch(m: Machine): (r: Machine)
    requires Consistent(m)
    ensures Consistent(r)
  {
    var rr := RField(m.ir);
    var m1 := SetGpr(m, rr, SignExtend(m.gpr[rr]) - 1);
    if SignExtend(m1.gpr[rr]) > 0 then Branch(m1) else m1
  }

  /** The taken branch of SOB: PC becomes the effective address of IR's fields. */
  function Branch(m: Machine): (r: Machine)
    requires Consistent(m)
    ensures Consistent(r)
  {
    var (m1, ea) := EffectiveAddress(m, AddressField(m.ir), IxField(m.ir), IField(m.ir));
    m1.(pc := ea)
  }

  /** JZ, JNE, JCC, JMA, JSR and JGE: the effective address first, then the test. */
  function Jump(m: Machine, op: int): (r: Machine)
    requires Consistent(m) && 10 <= op <= 17 && op != 15 && op != 16
    ensures Consistent(r)
  {
    var ir := m.ir;
    var rr := RField(ir);
    var (m1, ea) := EffectiveAddress(m, AddressField(ir), IxField(ir), IField(ir));
    if op == 14 then SetGpr(m1, 3, m1.pc).(pc := ea)
    else
      var jump :=
        if op == 10 then m1.gpr[rr] == 0
        else if op == 11 then m1.gpr[rr] != 0
        else if op == 12 then CCBit(m1.cc, rr) == 1
        else if op == 13 then true
        else SignExtend(m1.gpr[rr]) >= 0;
      if jump then m1.(pc := ea) else m1
  }

  /**
   * MLT, DVD, TRR, AND, ORR and NOT (opcodes 20 to 25). MLT and DVD write
   * their second result to register rx + 1; with rx = 3 that index is past
   * the register file, after register 3 has already been written.
   */
  function RegisterOp(m: Machine, op: int): (r: (Machine, Outcome))
    requires Consistent(m) && 20 <= op <= 25
    ensures Consistent(r.0)
  {
    var ir := m.ir;
    var rx, ry := RField(ir), IxField(ir);
    if op == 20 then
      var p := SignExtend(m.gpr[rx]) * SignExtend(m.gpr[ry]);
      var m1 := SetGpr(m, rx, HighHalf(p));
      if rx + 1 < 4 then (SetGpr(m1, rx + 1, LowHalf(p)), Continue) else (m1, OutOfBounds)
    else if op == 21 then
      var x, y := SignExtend(m.gpr[rx]), SignExtend(m.gpr[ry]);
      if y == 0 then (m.(cc := WithDivZero(m.cc), mfr := 2), Stop)
      else
        var m1 := SetGpr(m, rx, Mask16(TruncDiv(x, y)));
        if rx + 1 < 4 then (SetGpr(m1, rx + 1, Mask16(TruncRem(x, y))), Continue) else (m1, OutOfBounds)
    else if op == 22 then (m.(cc := CompareCC(if m.gpr[rx] == m.gpr[ry] then 0 else 1)), Continue)
    else if op == 23 then (SetGpr(m, rx, And16(m.gpr[rx], m.gpr[ry])), Continue)
    else if op == 24 then (SetGpr(m, rx, Or16(m.gpr[rx], m.gpr[ry])), Continue)
    else (SetGpr(m, rx, Not16(m.gpr[rx])), Continue)
  }

  /** TRAP (opcode 30): MFR becomes 3 and PC the word at address 0. */
  function Trap(m: Machine): (r: Machine)
    requires Consistent(m)
    ensures Consistent(r)
    ensures r.mfr == 3 && r.pc == m.memory[0] && SameExceptAccess(m.(pc := r.pc), r)
  {
    var (m1, v) := ReadMem(m.(mfr := 3), 0);
    m1.(pc := v)
  }

  /** SRC and RRC (opcodes 31 and 32) on register r, by IR[3:0] places. */
  function ShiftRotate(m: Machine, op: int): (r: Machine)
    requires Consistent(m) && (op == 31 || op == 32)
    ensures Consistent(r)
  {
    var ir := m.ir;
    var rr, count := RField(ir), CountField(ir);
    var v := m.gpr[rr];
    var result :=
      if op == 31 then
        if LrField(ir) == 1 then ShiftLeft(v, count)
        else if AlField(ir) == 1 then ShiftRightArithmetic(v, count)
        else ShiftRightLogical(v, count)
      else if LrField(ir) == 1 then RotateLeft(v, count)
      else RotateRight(v, count);
    SetGpr(m, rr, result)
  }

  /** LDX and STX (opcodes 41 and 42): direct or indirect address, never indexed; IR[7:6] names the index register. */
  function IndexOp(m: Machine, op: int): (r: Machine)
    requires Consistent(m) && (op == 41 || op == 42)
    ensures Consistent(r)
  {
    var ir := m.ir;
    var x := IxField(ir);
    var (m1, ea) := EffectiveAddress(m, AddressField(ir), 0, IField(ir));
    if op == 41 then
      var (m2, v) := ReadMem(m1, ea);
      SetIxr(m2, x, v)
    else WriteMem(m1, ea, m1.ixr[x])
  }

  /**
   * IN and OUT (opcodes 61 and 62). IN from device 0 stores the keyboard's
   * integer, or notes on the console that nothing was stored when the entry
   * is not an integer; OUT to device 1 prints the register as a signed value.
   * Other devices do nothing.
   */
  function InputOutput(m: Machine, op: int, input: Option<int>): (r: Machine)
    requires Consistent(m) && (op == 61 || op == 62)
    ensures Consistent(r)
  {
    var ir := m.ir;
    var rr, dev := RField(ir), AddressField(ir);
    if op == 61 then
      if dev != 0 then m
      else if input.Some? then SetGpr(m, rr, input.value)
      else m.(console := m.console + [InvalidInput(rr)])
    else if dev == 1 then m.(console := m.console + [Printed(SignExtend(m.gpr[rr]))])
    else m
  }
}
