// What one instruction does to the machine, opcode by opcode, stated on
// the functions of module Cpu (and so, through the CPU class's contracts,
// on the class).
module CpuProperties {
  import opened Words
  import opened Wrappers
  import opened Isa
  import opened CachePolicy
  import opened Cpu

  /** The machine after the fetch: IR holds the word at PC and PC has advanced. */
  function Fetched(m: Machine): (r: Machine)
    requires Consistent(m) && 0 <= m.pc < MEMORY_SIZE
    ensures Consistent(r)
    ensures r.ir == m.memory[m.pc] && r.pc == m.pc + 1 && r.mar == m.pc && r.mbr == r.ir
    ensures r.gpr == m.gpr && r.ixr == m.ixr && r.memory == m.memory
    ensures r.cc == m.cc && r.mfr == m.mfr && r.console == m.console
  {
    ReadMem(m, m.pc).0.(ir := m.memory[m.pc], pc := m.pc + 1)
  }

  /** The opcodes the `switch` has a case for. */
  predicate Implemented(op: int)
  {
    || 0 <= op <= 7 || 10 <= op <= 17 || 20 <= op <= 25
    || op == 30 || op == 31 || op == 32 || op == 41 || op == 42 || op == 61 || op == 62
  }

  // ---------------------------------------------------------------------
  // Reference definitions read from memory itself, without the cache

  /** The address field of IR, plus X1..X3 when `ix` names one. */
  function BaseAddress(m: Machine, ix: int): int
    requires |m.ixr| == 4
  {
    AddressField(m.ir) + (if 0 < ix < 4 then m.ixr[ix] else 0)
  }

  /** The effective address of IR for index field `ix`: the base, or with I set the word at the base. */
  function EffectiveOf(m: Machine, ix: int): int
    requires Consistent(m)
  {
    if IField(m.ir) == 1 then WordAt(m, BaseAddress(m, ix)) else BaseAddress(m, ix)
  }

  /** The indirect read of the effective address lies outside memory, so it sets MFR to 1. */
  predicate IndirectFaults(m: Machine, ix: int)
    requires |m.ixr| == 4
  {
    IField(m.ir) == 1 && !InMemory(BaseAddress(m, ix))
  }

  /**
   * The cached computation of the effective address agrees with the
   * reference one, changes only the access registers and the cache, and
   * sets MFR exactly when the indirect read is out of range.
   */
  lemma EffectiveAddressOf(m: Machine, ix: int)
    requires Consistent(m)
    ensures var (m1, ea) := EffectiveAddress(m, AddressField(m.ir), ix, IField(m.ir));
      && ea == EffectiveOf(m, ix) && SameExceptAccess(m, m1)
      && m1.mfr == (if IndirectFaults(m, ix) then 1 else m.mfr)
      && (IField(m.ir) != 1 ==> m1 == m)
  {
  }

  // ---------------------------------------------------------------------
  // Fetch and outcome

  /** A PC outside memory is a fault: MFR becomes 1, execution stops, nothing else changes. */
  lemma FetchFault(m: Machine, input: Option<int>)
    requires Consistent(m) && !(0 <= m.pc < MEMORY_SIZE)
    ensures Step(m, input) == (m.(mfr := 1), Stop)
  {
  }

  /** Otherwise the instruction executed is the memory word at PC, read through the cache. */
  lemma FetchThenExecute(m: Machine, input: Option<int>)
    requires Consistent(m) && 0 <= m.pc < MEMORY_SIZE
    ensures Step(m, input) == Execute(Fetched(m), input)
  {
  }

  /**
   * `executeInstruction` returns false exactly for a bad PC, HLT, an opcode
   * without a case, and DVD by zero; it throws only for MLT or DVD with rx = 3.
   */
  lemma StopsExactlyWhen(m: Machine, input: Option<int>)
    requires Consistent(m) && 0 <= m.pc < MEMORY_SIZE
    ensures var ir := m.memory[m.pc];
      var op := Opcode(ir);
      && (Step(m, input).1 == Stop <==>
           op == 0 || !Implemented(op) || (op == 21 && SignExtend(m.gpr[IxField(ir)]) == 0))
      && (Step(m, input).1 == OutOfBounds <==>
           (op == 20 || (op == 21 && SignExtend(m.gpr[IxField(ir)]) != 0)) && RField(ir) == 3)
  {
    var fetched := ReadMem(m, m.pc);
    var m1 := fetched.0.(ir := fetched.1, pc := m.pc + 1);
    assert Step(m, input).1 == Execute(m1, input).1;
    assert m1.ir == m.memory[m.pc] && m1.gpr == m.gpr;
    ExecuteOutcome(m1, input);
  }

  /** The outcome of executing the instruction in IR, by opcode. */
  lemma ExecuteOutcome(m: Machine, input: Option<int>)
    requires Consistent(m)
    ensures var op := Opcode(m.ir);
      && (Execute(m, input).1 == Stop <==>
           op == 0 || !Implemented(op) || (op == 21 && SignExtend(m.gpr[IxField(m.ir)]) == 0))
      && (Execute(m, input).1 == OutOfBounds <==>
           (op == 20 || (op == 21 && SignExtend(m.gpr[IxField(m.ir)]) != 0)) && RField(m.ir) == 3)
  {
    DecodeFields(m.ir);
  }

  /** HLT stops with nothing changed beyond the fetch. */
  lemma HaltStops(m: Machine, input: Option<int>)
    requires Consistent(m) && Opcode(m.ir) == 0
    ensures Execute(m, input) == (m, Stop)
  {
  }

  /** An opcode without a case sets MFR to 4 and stops; registers and memory are untouched. */
  lemma IllegalOpcodeFaults(m: Machine, input: Option<int>)
    requires Consistent(m) && !Implemented(Opcode(m.ir))
    ensures Execute(m, input) == (m.(mfr := 4), Stop)
  {
  }

  /**
   * DVD by zero ORs the DIVZERO bit into CC (the bit JCC reads with field 1,
   * the other three kept), sets MFR 2, stops, and leaves the registers alone.
   */
  lemma DivideByZeroFaults(m: Machine, input: Option<int>)
    requires Consistent(m) && Opcode(m.ir) == 21 && SignExtend(m.gpr[IxField(m.ir)]) == 0
    ensures var (r, outcome) := Execute(m, input);
      && outcome == Stop && r.mfr == 2
      && r.cc == WithDivZero(m.cc)
      && CCBit(r.cc, 1) == 1
      && CCBit(r.cc, 0) == CCBit(m.cc, 0) && CCBit(r.cc, 2) == CCBit(m.cc, 2) && CCBit(r.cc, 3) == CCBit(m.cc, 3)
      && r == m.(cc := r.cc, mfr := 2)
  {
    DivZeroBit(m.cc);
  }

  /** Only STR and STX write memory. */
  lemma OnlyStoresWriteMemory(m: Machine, input: Option<int>)
    requires Consistent(m) && Opcode(m.ir) != 2 && Opcode(m.ir) != 42
    ensures Execute(m, input).0.memory == m.memory
  {
  }

  /** A word written through the cache reads back, masked to sixteen bits, from the cache. */
  lemma ReadAfterWrite(m: Machine, address: int, value: int)
    requires Consistent(m) && 0 <= address < MEMORY_SIZE
    ensures ReadMem(WriteMem(m, address, value), address).1 == Mask16(value)
    ensures ReadMem(WriteMem(m, address, value), address).0.cache == WriteMem(m, address, value).cache
  {
    var w := WriteMem(m, address, value);
    assert IsHit(w.cache, address);
  }

  /** Writing one address leaves every other address reading as before. */
  lemma WriteLeavesOthers(m: Machine, address: int, other: int, value: int)
    requires Consistent(m) && 0 <= address < MEMORY_SIZE && other != address
    ensures ReadMem(WriteMem(m, address, value), other).1 == ReadMem(m, other).1
  {
  }

  /** An indexed, indirect LDR: X1 = 3 and memory[8] = 42 make `LDR 0,1,5,1` load memory[42]. */
  lemma IndexedIndirectLoad(m: Machine, input: Option<int>)
    requires Consistent(m) && m.ixr[1] == 3 && m.memory[8] == 42 && m.memory[42] == 7
    requires m.ir == 1 * 1024 + 0 * 256 + 1 * 64 + 1 * 32 + 5
    ensures Execute(m, input).1 == Continue
    ensures Execute(m, input).0.gpr == m.gpr[0 := 7]
    ensures Execute(m, input).0.memory == m.memory
  {
    assert Opcode(m.ir) == 1 && RField(m.ir) == 0 && IxField(m.ir) == 1;
    assert IField(m.ir) == 1 && AddressField(m.ir) == 5;
  }

  /**
   * LDR loads register r with the word at the effective address (0, with
   * MFR 1, outside memory); besides r only MAR, MBR, MFR and the cache change.
   */
  lemma LoadFromMemory(m: Machine, input: Option<int>)
    requires Consistent(m) && Opcode(m.ir) == 1
    ensures var ea := EffectiveOf(m, IxField(m.ir));
      var (r, outcome) := Execute(m, input);
      && outcome == Continue
      && r.gpr == m.gpr[RField(m.ir) := WordAt(m, ea)]
      && SameExceptAccess(m.(gpr := r.gpr), r)
      && r.mfr == (if IndirectFaults(m, IxField(m.ir)) || !InMemory(ea) then 1 else m.mfr)
  {
    EffectiveAddressOf(m, IxField(m.ir));
  }

  /**
   * STR writes register r to memory at the effective address, and only
   * there; outside memory it writes nothing and sets MFR to 1.
   */
  lemma StoreToMemory(m: Machine, input: Option<int>)
    requires Consistent(m) && Opcode(m.ir) == 2
    ensures var ea := EffectiveOf(m, IxField(m.ir));
      var (r, outcome) := Execute(m, input);
      && outcome == Continue
      && r.memory == (if InMemory(ea) then m.memory[ea := m.gpr[RField(m.ir)]] else m.memory)
      && SameExceptAccess(m.(memory := r.memory), r)
      && r.mfr == (if IndirectFaults(m, IxField(m.ir)) || !InMemory(ea) then 1 else m.mfr)
  {
    EffectiveAddressOf(m, IxField(m.ir));
  }

  /**
   * LDA loads the effective address itself, masked to sixteen bits; without
   * indirection nothing else changes.
   */
  lemma LoadAddress(m: Machine, input: Option<int>)
    requires Consistent(m) && Opcode(m.ir) == 3
    ensures var ea := EffectiveOf(m, IxField(m.ir));
      var (r, outcome) := Execute(m, input);
      && outcome == Continue
      && r.gpr == m.gpr[RField(m.ir) := Mask16(ea)]
      && SameExceptAccess(m.(gpr := r.gpr), r)
      && r.mfr == (if IndirectFaults(m, IxField(m.ir)) then 1 else m.mfr)
      && (IField(m.ir) != 1 ==> r == m.(gpr := r.gpr))
  {
    EffectiveAddressOf(m, IxField(m.ir));
  }

  /** AMR and SMR reach AddMemory with the effective address computed first. */
  lemma AddMemoryDispatch(m: Machine, input: Option<int>)
    requires Consistent(m) && (Opcode(m.ir) == 4 || Opcode(m.ir) == 5)
    ensures var (m1, ea) := EffectiveAddress(m, AddressField(m.ir), IxField(m.ir), IField(m.ir));
      Execute(m, input) == (AddMemory(m1, ea, Opcode(m.ir) == 5), Continue)
  {
  }

  /** AddMemory after the effective address of IR: register r plus or minus that word, modulo 2^16. */
  lemma AddMemoryEffect(m: Machine, subtract: bool)
    requires Consistent(m)
    ensures var (m1, ea1) := EffectiveAddress(m, AddressField(m.ir), IxField(m.ir), IField(m.ir));
      var rr, ea := RField(m.ir), EffectiveOf(m, IxField(m.ir));
      var v, w := m.gpr[rr] as int, WordAt(m, ea) as int;
      var r := AddMemory(m1, ea1, subtract);
      && r.gpr == m.gpr[rr := Mask16(if subtract then v - w else v + w)]
      && SameExceptAccess(m.(gpr := r.gpr), r)
      && r.mfr == (if IndirectFaults(m, IxField(m.ir)) || !InMemory(ea) then 1 else m.mfr)
  {
    var (m1, ea) := EffectiveAddress(m, AddressField(m.ir), IxField(m.ir), IField(m.ir));
    EffectiveAddressOf(m, IxField(m.ir));
    assert m1.gpr == m.gpr && m1.ir == m.ir && WordAt(m1, ea) == WordAt(m, ea);
  }

  /**
   * AMR adds the word at the effective address to register r, both read as
   * signed values, with the result modulo 2^16; memory is unchanged.
   */
  lemma AddMemoryToRegister(m: Machine, input: Option<int>)
    requires Consistent(m) && Opcode(m.ir) == 4
    ensures var rr, ea := RField(m.ir), EffectiveOf(m, IxField(m.ir));
      var (r, outcome) := Execute(m, input);
      && outcome == Continue
      && r.gpr == m.gpr[rr := Mask16(m.gpr[rr] as int + WordAt(m, ea))]
      && SameExceptAccess(m.(gpr := r.gpr), r)
      && r.mfr == (if IndirectFaults(m, IxField(m.ir)) || !InMemory(ea) then 1 else m.mfr)
  {
    AddMemoryDispatch(m, input);
    AddMemoryEffect(m, false);
  }

  /** SMR subtracts the word at the effective address from register r in the same way. */
  lemma SubtractMemoryFromRegister(m: Machine, input: Option<int>)
    requires Consistent(m) && Opcode(m.ir) == 5
    ensures var rr, ea := RField(m.ir), EffectiveOf(m, IxField(m.ir));
      var (r, outcome) := Execute(m, input);
      && outcome == Continue
      && r.gpr == m.gpr[rr := Mask16(m.gpr[rr] as int - WordAt(m, ea))]
      && SameExceptAccess(m.(gpr := r.gpr), r)
      && r.mfr == (if IndirectFaults(m, IxField(m.ir)) || !InMemory(ea) then 1 else m.mfr)
  {
    AddMemoryDispatch(m, input);
    AddMemoryEffect(m, true);
  }

  /** AIR and SIR add or subtract the signed five-bit immediate, modulo 2^16, in register r alone. */
  lemma AddImmediate(m: Machine, input: Option<int>)
    requires Consistent(m) && (Opcode(m.ir) == 6 || Opcode(m.ir) == 7)
    ensures var r := RField(m.ir);
      && -16 <= Immediate(m.ir) <= 15
      && Execute(m, input).0.gpr ==
         m.gpr[r := Mask16(if Opcode(m.ir) == 6 then m.gpr[r] as int + Immediate(m.ir) else m.gpr[r] as int - Immediate(m.ir))]
      && Execute(m, input).0 == m.(gpr := Execute(m, input).0.gpr)
  {
    var r := RField(m.ir);
    var a: int := m.gpr[r];
    ImmediateRange(m.ir);
    assert (SignExtend(a) - a) % 0x1_0000 == 0;
    var k := Immediate(m.ir);
    if Opcode(m.ir) == 6 {
      MaskCongruent(SignExtend(a) + k, a + k);
    } else {
      MaskCongruent(SignExtend(a) - k, a - k);
    }
  }

  /** MLT leaves the signed product split across rx (high half) and rx + 1 (low half); the other registers keep their values. */
  lemma MultiplySplitsProduct(m: Machine, input: Option<int>)
    requires Consistent(m) && Opcode(m.ir) == 20
    ensures var rx, ry := RField(m.ir), IxField(m.ir);
      var p := SignExtend(m.gpr[rx]) * SignExtend(m.gpr[ry]);
      var (r, outcome) := Execute(m, input);
      && (rx < 3 ==> outcome == Continue && SignExtend(r.gpr[rx]) * 0x1_0000 + r.gpr[rx + 1] == p)
      && (rx == 3 ==> outcome == OutOfBounds && r.gpr == m.gpr[3 := HighHalf(p)])
      && (forall k :: 0 <= k < 4 && k != rx && k != rx + 1 ==> r.gpr[k] == m.gpr[k])
      && r == m.(gpr := r.gpr)
  {
    ProductSplit(m.gpr[RField(m.ir)], m.gpr[IxField(m.ir)]);
  }

  /**
   * DVD by a non-zero register leaves the truncated quotient in rx and the
   * remainder in rx + 1, with Java's division identity between them; only
   * -32768 / -1 overflows, leaving 0x8000. The other registers keep their
   * values.
   */
  lemma DivideWritesQuotientAndRemainder(m: Machine, input: Option<int>)
    requires Consistent(m) && Opcode(m.ir) == 21 && SignExtend(m.gpr[IxField(m.ir)]) != 0
    ensures var rx, ry := RField(m.ir), IxField(m.ir);
      var x, y := SignExtend(m.gpr[rx]), SignExtend(m.gpr[ry]);
      var (r, outcome) := Execute(m, input);
      && x == y * TruncDiv(x, y) + TruncRem(x, y)
      && (rx < 3 ==> outcome == Continue && SignExtend(r.gpr[rx + 1]) == TruncRem(x, y))
      && (rx == 3 ==> outcome == OutOfBounds)
      && (x == -0x8000 && y == -1 ==> r.gpr[rx] == 0x8000)
      && (!(x == -0x8000 && y == -1) ==> SignExtend(r.gpr[rx]) == TruncDiv(x, y))
      && (forall k :: 0 <= k < 4 && k != rx && k != rx + 1 ==> r.gpr[k] == m.gpr[k])
      && r == m.(gpr := r.gpr)
  {
    var rx, ry := RField(m.ir), IxField(m.ir);
    var x, y := SignExtend(m.gpr[rx]), SignExtend(m.gpr[ry]);
    TruncDivision(x, y);
    QuotientRange(x, y);
    SignExtendOfMask(TruncRem(x, y));
    if !(x == -0x8000 && y == -1) {
      SignExtendOfMask(TruncDiv(x, y));
    }
  }

  /** TRR sets CC to exactly 8 when the registers are equal and 0 otherwise, so JCC 0 then jumps exactly on equality. */
  lemma TestSetsEqualBit(m: Machine, input: Option<int>)
    requires Consistent(m) && Opcode(m.ir) == 22
    ensures var equal := m.gpr[RField(m.ir)] == m.gpr[IxField(m.ir)];
      var r := Execute(m, input).0;
      && r == m.(cc := if equal then 8 else 0)
      && (CCBit(r.cc, 0) == 1 <==> equal)
      && CCBit(r.cc, 1) == 0 && CCBit(r.cc, 2) == 0 && CCBit(r.cc, 3) == 0
  {
    CompareCCBits(m.gpr[RField(m.ir)] == m.gpr[IxField(m.ir)]);
  }

  /** JCC (direct) jumps to its address exactly when CC bit `3 - r` is set; nothing else changes. */
  lemma JumpOnConditionCode(m: Machine, input: Option<int>)
    requires Consistent(m) && Opcode(m.ir) == 12 && IField(m.ir) == 0
    ensures var ix := IxField(m.ir);
      var ea := AddressField(m.ir) + (if 0 < ix then m.ixr[ix] else 0);
      Execute(m, input) == (m.(pc := if CCBit(m.cc, RField(m.ir)) == 1 then ea else m.pc), Continue)
  {
  }

  /**
   * AND and ORR leave in rx the bitwise and / or of rx and ry, NOT the
   * complement of rx; no other register and nothing else changes.
   */
  lemma LogicalOps(m: Machine, input: Option<int>)
    requires Consistent(m) && 23 <= Opcode(m.ir) <= 25
    ensures var op, rx, ry := Opcode(m.ir), RField(m.ir), IxField(m.ir);
      var a, b := m.gpr[rx], m.gpr[ry];
      var (r, outcome) := Execute(m, input);
      && outcome == Continue
      && r == m.(gpr := m.gpr[rx := r.gpr[rx]])
      && (op == 23 ==> forall k :: 0 <= k < 16 ==>
            Bit(r.gpr[rx], k) == if Bit(a, k) == 1 && Bit(b, k) == 1 then 1 else 0)
      && (op == 24 ==> forall k :: 0 <= k < 16 ==>
            Bit(r.gpr[rx], k) == if Bit(a, k) == 1 || Bit(b, k) == 1 then 1 else 0)
      && (op == 25 ==> r.gpr[rx] == 0xFFFF - a && forall k :: 0 <= k < 16 ==> Bit(r.gpr[rx], k) == 1 - Bit(a, k))
  {
    LogicBits(m.gpr[RField(m.ir)], m.gpr[IxField(m.ir)]);
  }

  /** TRAP sets MFR to 3 and jumps to the address held in memory[0]; GPRs, index registers, memory and CC are unchanged. */
  lemma TrapJumpsThroughZero(m: Machine, input: Option<int>)
    requires Consistent(m) && Opcode(m.ir) == 30
    ensures var (r, outcome) := Execute(m, input);
      && outcome == Continue
      && r.mfr == 3 && r.pc == m.memory[0]
      && SameExceptAccess(m.(pc := r.pc), r)
  {
  }

  /**
   * JZ, JNE, JCC, JMA and JGE jump to the effective address exactly when
   * register r is zero, non-zero, CC bit `3 - r` is set, always, or r is
   * non-negative as a signed value; only PC and the access registers change,
   * and without indirection only PC.
   */
  lemma ConditionalJump(m: Machine, input: Option<int>)
    requires Consistent(m)
    requires var op := Opcode(m.ir); op == 10 || op == 11 || op == 12 || op == 13 || op == 17
    ensures var op, rr := Opcode(m.ir), RField(m.ir);
      var v := m.gpr[rr];
      var jump :=
        if op == 10 then v == 0
        else if op == 11 then v != 0
        else if op == 12 then CCBit(m.cc, rr) == 1
        else if op == 13 then true
        else v < 0x8000;
      var (r, outcome) := Execute(m, input);
      && outcome == Continue
      && r.pc == (if jump then EffectiveOf(m, IxField(m.ir)) else m.pc)
      && SameExceptAccess(m.(pc := r.pc), r)
      && r.mfr == (if IndirectFaults(m, IxField(m.ir)) then 1 else m.mfr)
      && (IField(m.ir) != 1 ==> r == m.(pc := r.pc))
  {
    EffectiveAddressOf(m, IxField(m.ir));
  }

  /**
   * JSR saves PC (already past the JSR) in R3, masked, and jumps to the
   * effective address; nothing else changes beyond the access registers.
   */
  lemma CallSavesReturn(m: Machine, input: Option<int>)
    requires Consistent(m) && Opcode(m.ir) == 14
    ensures var (r, outcome) := Execute(m, input);
      && outcome == Continue
      && r.pc == EffectiveOf(m, IxField(m.ir))
      && r.gpr == m.gpr[3 := Mask16(m.pc)]
      && SameExceptAccess(m.(pc := r.pc, gpr := r.gpr), r)
      && r.mfr == (if IndirectFaults(m, IxField(m.ir)) then 1 else m.mfr)
  {
    EffectiveAddressOf(m, IxField(m.ir));
  }

  /** RFS jumps to the address in R3 and changes nothing else. */
  lemma ReturnFromSubroutine(m: Machine, input: Option<int>)
    requires Consistent(m) && Opcode(m.ir) == 15
    ensures Execute(m, input) == (m.(pc := m.gpr[3]), Continue)
  {
  }

  /**
   * SOB decrements the register modulo 2^16, and branches to the effective
   * address (computed only then) exactly when the new value, read as signed,
   * is positive; decrementing -32768 wraps to 32767 and so branches.
   */
  lemma SubtractOneAndBranch(m: Machine, input: Option<int>)
    requires Consistent(m) && Opcode(m.ir) == 16
    ensures var rr := RField(m.ir);
      var v := SignExtend(m.gpr[rr]) - 1;
      var branch := v > 0 || m.gpr[rr] == 0x8000;
      var (r, outcome) := Execute(m, input);
      && outcome == Continue
      && r.gpr == m.gpr[rr := Mask16(v)]
      && r.pc == (if branch then EffectiveOf(m, IxField(m.ir)) else m.pc)
      && SameExceptAccess(m.(gpr := r.gpr, pc := r.pc), r)
      && r.mfr == (if branch && IndirectFaults(m, IxField(m.ir)) then 1 else m.mfr)
      && (!branch || IField(m.ir) != 1 ==> r == m.(gpr := r.gpr, pc := r.pc))
  {
    assert Execute(m, input) == (Cpu.SubtractOneAndBranch(m), Continue);
    DecrementEffect(m);
  }

  /** `Cpu.SubtractOneAndBranch` on its own: the decrement, then the branch when the result is positive. */
  lemma DecrementEffect(m: Machine)
    requires Consistent(m)
    ensures var rr := RField(m.ir);
      var v := SignExtend(m.gpr[rr]) - 1;
      var branch := v > 0 || m.gpr[rr] == 0x8000;
      var r := Cpu.SubtractOneAndBranch(m);
      && r.gpr == m.gpr[rr := Mask16(v)]
      && r.pc == (if branch then EffectiveOf(m, IxField(m.ir)) else m.pc)
      && SameExceptAccess(m.(gpr := r.gpr, pc := r.pc), r)
      && r.mfr == (if branch && IndirectFaults(m, IxField(m.ir)) then 1 else m.mfr)
      && (!branch || IField(m.ir) != 1 ==> r == m.(gpr := r.gpr, pc := r.pc))
  {
    var rr, ix := RField(m.ir), IxField(m.ir);
    var v := SignExtend(m.gpr[rr]) - 1;
    DecrementTest(m.gpr[rr]);
    var m1 := SetGpr(m, rr, v);
    assert m1 == m.(gpr := m.gpr[rr := Mask16(v)]);
    if SignExtend(m1.gpr[rr]) > 0 {
      assert EffectiveOf(m1, ix) == EffectiveOf(m, ix) && IndirectFaults(m1, ix) == IndirectFaults(m, ix);
      EffectiveAddressOf(m1, ix);
      assert Cpu.SubtractOneAndBranch(m) == Branch(m1);
    } else {
      assert Cpu.SubtractOneAndBranch(m) == m1;
    }
  }

  /** SOB's test on the decremented register: positive exactly when the old signed value exceeds 1 or was -32768. */
  lemma DecrementTest(w: Word)
    ensures var v := SignExtend(w) - 1;
      SignExtend(Mask16(v)) > 0 <==> v > 0 || w == 0x8000
  {
    var v := SignExtend(w) - 1;
    if w == 0x8000 {
      DivModUnique(v, 0x1_0000, -1, 0x7FFF);
    } else {
      SignExtendOfMask(v);
    }
  }

  /**
   * JSR saves the address after it in R3 and jumps to its effective address;
   * an RFS there returns to the address after the JSR.
   */
  lemma CallThenReturn(m: Machine, input: Option<int>)
    requires Consistent(m) && 0 <= m.pc < MEMORY_SIZE
    requires Opcode(m.memory[m.pc]) == 14
    requires var target := EffectiveOf(Fetched(m), IxField(m.memory[m.pc]));
      InMemory(target) && Opcode(m.memory[target]) == 15
    ensures var (m1, o1) := Step(m, input);
      && o1 == Continue && m1.pc == EffectiveOf(Fetched(m), IxField(m.memory[m.pc])) && m1.gpr[3] == m.pc + 1
      && var (m2, o2) := Step(m1, input); o2 == Continue && m2.pc == m.pc + 1 && m2.gpr == m1.gpr
  {
    FetchThenExecute(m, input);
    CallSavesReturn(Fetched(m), input);
    var m1 := Step(m, input).0;
    FetchThenExecute(m1, input);
  }

  /** RRC by c: the low 16 - c bits move up and the top c bits wrap to the bottom, or the reverse; only r changes. */
  lemma RotateRegister(m: Machine, input: Option<int>)
    requires Consistent(m) && Opcode(m.ir) == 32
    ensures var rr, c := RField(m.ir), CountField(m.ir);
      var v := m.gpr[rr];
      var (r, outcome) := Execute(m, input);
      && outcome == Continue
      && r == m.(gpr := m.gpr[rr := r.gpr[rr]])
      && (LrField(m.ir) == 1 ==> r.gpr[rr] == (v % Pow2(16 - c)) * Pow2(c) + v / Pow2(16 - c))
      && (LrField(m.ir) == 0 ==> r.gpr[rr] == (v % Pow2(c)) * Pow2(16 - c) + v / Pow2(c))
  {
    var rr, c := RField(m.ir), CountField(m.ir);
    RotateLeftValue(m.gpr[rr], c);
    RotateRightValue(m.gpr[rr], c);
  }

  /** RRC left by c followed by RRC right by c on the same register restores every register. */
  lemma RotateThenRotateBack(m: Machine, input: Option<int>, back: Word)
    requires Consistent(m) && Opcode(m.ir) == 32 && LrField(m.ir) == 1
    requires Opcode(back) == 32 && LrField(back) == 0
    requires RField(back) == RField(m.ir) && CountField(back) == CountField(m.ir)
    ensures var m1 := Execute(m, input).0;
      Execute(m1.(ir := back), input).0.gpr == m.gpr
  {
    var rr, c := RField(m.ir), CountField(m.ir);
    RotateRoundTrip(m.gpr[rr], c);
    var m1 := Execute(m, input).0;
    assert m1.gpr == m.gpr[rr := RotateLeft(m.gpr[rr], c)];
  }

  /** SRC by c: left and logical right shifts, and an arithmetic right shift that keeps bit 15. */
  lemma ShiftRegister(m: Machine, input: Option<int>)
    requires Consistent(m) && Opcode(m.ir) == 31
    ensures var rr, c := RField(m.ir), CountField(m.ir);
      var v := m.gpr[rr];
      var r := Execute(m, input).0;
      && r == m.(gpr := m.gpr[rr := r.gpr[rr]])
      && (LrField(m.ir) == 1 ==> r.gpr[rr] == Mask16(v * Pow2(c)))
      && (LrField(m.ir) == 0 && AlField(m.ir) == 0 ==> r.gpr[rr] == v / Pow2(c))
      && (LrField(m.ir) == 0 && AlField(m.ir) == 1 ==>
            (r.gpr[rr] >= 0x8000 <==> v >= 0x8000)
            && (v < 0x8000 ==> r.gpr[rr] == v / Pow2(c))
            && (v >= 0x8000 ==> r.gpr[rr] == 0xFFFF - (0xFFFF - v) / Pow2(c)))
  {
    var rr, c := RField(m.ir), CountField(m.ir);
    ArithmeticShiftReplicatesSign(m.gpr[rr], c);
  }

  /**
   * LDX loads X[ix] with the word at the unindexed effective address (0, with
   * MFR 1, outside memory); IR[7:6] = 0 names no register and loads nothing.
   */
  lemma LoadIndexRegister(m: Machine, input: Option<int>)
    requires Consistent(m) && Opcode(m.ir) == 41
    ensures var x, ea := IxField(m.ir), EffectiveOf(m, 0);
      var (r, outcome) := Execute(m, input);
      && outcome == Continue
      && r.ixr == (if x == 0 then m.ixr else m.ixr[x := WordAt(m, ea)])
      && SameExceptAccess(m.(ixr := r.ixr), r)
      && r.mfr == (if IndirectFaults(m, 0) || !InMemory(ea) then 1 else m.mfr)
  {
    EffectiveAddressOf(m, 0);
  }

  /**
   * STX writes index register slot IR[7:6] to memory at the unindexed
   * effective address, and only there; outside memory it writes nothing and
   * sets MFR to 1.
   */
  lemma StoreIndexRegister(m: Machine, input: Option<int>)
    requires Consistent(m) && Opcode(m.ir) == 42
    ensures var x, ea := IxField(m.ir), EffectiveOf(m, 0);
      var (r, outcome) := Execute(m, input);
      && outcome == Continue
      && r.memory == (if InMemory(ea) then m.memory[ea := m.ixr[x]] else m.memory)
      && SameExceptAccess(m.(memory := r.memory), r)
      && r.mfr == (if IndirectFaults(m, 0) || !InMemory(ea) then 1 else m.mfr)
  {
    EffectiveAddressOf(m, 0);
  }

  /** STR then LDR of the same direct address copies a register through memory and the cache. */
  lemma StoreThenLoad(m: Machine, input: Option<int>, load: Word)
    requires Consistent(m) && Opcode(m.ir) == 2 && IxField(m.ir) == 0 && IField(m.ir) == 0
    requires Opcode(load) == 1 && IxField(load) == 0 && IField(load) == 0
    requires AddressField(load) == AddressField(m.ir)
    ensures var m1 := Execute(m, input).0;
      var m2 := Execute(m1.(ir := load), input).0;
      m2.gpr == m.gpr[RField(load) := m.gpr[RField(m.ir)]]
  {
    var a := AddressField(m.ir);
    ReadAfterWrite(m, a, m.gpr[RField(m.ir)]);
  }

  /**
   * OUT to device 1 appends the register's signed value to the console; IN
   * from device 0 with no integer only notes it. IN from any device but 0 and
   * OUT to any device but 1 change nothing.
   */
  lemma ConsoleTraffic(m: Machine, input: Option<int>)
    requires Consistent(m) && (Opcode(m.ir) == 61 || Opcode(m.ir) == 62)
    ensures var rr, dev := RField(m.ir), AddressField(m.ir);
      var r := Execute(m, input).0;
      && (Opcode(m.ir) == 62 && dev == 1 ==>
            r == m.(console := m.console + [Printed(SignExtend(m.gpr[rr]))]))
      && (Opcode(m.ir) == 61 && dev == 0 && input.None? ==>
            r == m.(console := m.console + [InvalidInput(rr)]))
      && (Opcode(m.ir) == 61 && dev == 0 && input.Some? ==>
            r == m.(gpr := m.gpr[rr := Mask16(input.value)]))
      && ((Opcode(m.ir) == 61 && dev != 0) || (Opcode(m.ir) == 62 && dev != 1) ==> r == m)
  {
  }
}
