// The CPU as the simulator holds it: public registers reassigned in place,
// register files, memory and cache lines as fixed-size arrays, and the FIFO
// queue of line indices. Every method is proved to take the machine from
// `old(State())` to the state the matching function of module Cpu computes.
module CpuUnit {
  import opened Words
  import opened Wrappers
  import opened Isa
  import opened CachePolicy
  import Cpu

  class CPU {
    var pc: int
    var ir: Word
    var mar: int
    var mbr: int
    var mfr: int
    var cc: int
    const gpr: array<Word>
    const ixr: array<Word>
    const memory: array<Word>
    const cache: array<Line>
    var fifo: seq<int>
    var console: seq<Cpu.ConsoleEntry>

    /** The machine this object currently represents. */
    function State(): Cpu.Machine
      reads this, gpr, ixr, memory, cache
    {
      Cpu.Machine(pc, ir, mar, mbr, mfr, cc, gpr[..], ixr[..], memory[..], CacheState(cache[..], fifo), console)
    }

    /** The arrays have the simulator's sizes and are distinct objects. */
    ghost predicate Shaped()
      reads this
    {
      && gpr.Length == 4 && ixr.Length == 4 && memory.Length == Cpu.MEMORY_SIZE && cache.Length == LINES
      && gpr != ixr && gpr != memory && ixr != memory
    }

    ghost predicate Valid()
      reads this, gpr, ixr, memory, cache
    {
      Shaped() && Cpu.Consistent(State())
    }

    /** Sixteen fresh lines (invalid, tag -1, data 0), then `reset`. */
    constructor ()
      ensures State() == Cpu.PowerOn() && Valid()
    {
      gpr := new Word[4](_ => 0);
      ixr := new Word[4](_ => 0);
      memory := new Word[Cpu.MEMORY_SIZE](_ => 0);
      cache := new Line[LINES](_ => InvalidLine);
      console := [];
      new;
      assert cache[..] == seq(LINES, _ => InvalidLine);
      Reset();
    }

    /**
     * Zero the registers, both register files and memory; mark every cache
     * line invalid with tag -1, keeping its data word; empty the queue.
     */
    method Reset()
      requires Shaped()
      modifies this, gpr, ixr, memory, cache
      ensures State() == Cpu.Reset(old(State())) && Valid()
    {
      ghost var expected := Cpu.Reset(State());
      pc, ir, mar, mbr, mfr, cc := 0, 0, 0, 0, 0, 0;
      ClearRegisterFiles();
      ClearMemory();
      InvalidateLines();
      fifo := [];
      assert State() == expected;
    }

    method ClearRegisterFiles()
      requires Shaped()
      modifies gpr, ixr
      ensures gpr[..] == [0, 0, 0, 0] && ixr[..] == [0, 0, 0, 0]
    {
      for i := 0 to 4
        invariant forall j :: 0 <= j < i ==> gpr[j] == 0 && ixr[j] == 0
      {
        gpr[i] := 0;
        ixr[i] := 0;
      }
    }

    method ClearMemory()
      requires Shaped()
      modifies memory
      ensures memory[..] == Cpu.BlankMemory()
    {
      for i := 0 to memory.Length
        invariant forall j :: 0 <= j < i ==> memory[j] == 0
      {
        memory[i] := 0;
      }
    }

    method InvalidateLines()
      requires Shaped()
      modifies cache
      ensures cache[..] == Cpu.Invalidated(old(cache[..]))
    {
      ghost var lines0 := cache[..];
      for i := 0 to LINES
        invariant forall j :: 0 <= j < i ==> cache[j] == lines0[j].(valid := false, tag := -1)
        invariant forall j :: i <= j < LINES ==> cache[j] == lines0[j]
      {
        cache[i] := cache[i].(valid := false, tag := -1);
      }
    }

    method SetGPR(index: int, value: int)
      requires Valid() && 0 <= index < 4
      modifies gpr
      ensures State() == Cpu.SetGpr(old(State()), index, value) && Valid()
    {
      gpr[index] := Mask16(value);
    }

    method SetIXR(index: int, value: int)
      requires Valid()
      modifies ixr
      ensures State() == Cpu.SetIxr(old(State()), index, value) && Valid()
    {
      if index > 0 && index < 4 {
        ixr[index] := Mask16(value);
      }
    }

    /** `setCC`: clear CC, then set the EQUAL bit (8) when `value` is zero. */
    method SetCC(value: int)
      modifies this
      ensures State() == old(State()).(cc := CompareCC(value))
    {
      cc := 0;
      if value == 0 {
        cc := 8;
      }
    }

    /** Read a word through the cache. */
    method ReadMemory(address: int) returns (value: int)
      requires Valid()
      modifies this, cache
      ensures State() == Cpu.ReadMem(old(State()), address).0
      ensures value == Cpu.ReadMem(old(State()), address).1
      ensures Valid()
    {
      if address < 0 || address >= memory.Length {
        mfr := 1;
        return 0;
      }
      mar := address;
      var k := FindLine(address);
      if k < LINES {
        mbr := cache[k].data;
        return mbr;
      }
      mbr := memory[address];
      AddToCache(address, mbr);
      return mbr;
    }

    /** Write a word through to memory and the cache, allocating a line on a miss. */
    method WriteMemory(address: int, value: int)
      requires Valid()
      modifies this, memory, cache
      ensures State() == Cpu.WriteMem(old(State()), address, value)
      ensures Valid()
    {
      if address < 0 || address >= memory.Length {
        mfr := 1;
        return;
      }
      mar := address;
      mbr := Mask16(value);
      memory[address] := mbr;
      var k := FindLine(address);
      if k < LINES {
        cache[k] := cache[k].(data := mbr);
      } else {
        AddToCache(address, mbr);
      }
    }

    /** The line holding `address`, searched from index 0, or LINES on a miss. */
    method FindLine(address: int) returns (k: int)
      requires Shaped()
      ensures k == Lookup(cache[..], address)
    {
      for i := 0 to LINES
        invariant forall j :: 0 <= j < i ==> !(cache[j].valid && cache[j].tag == address)
      {
        if cache[i].valid && cache[i].tag == address {
          return i;
        }
      }
      return LINES;
    }

    /**
     * Install `address` on a miss: the lowest invalid line is filled and its
     * index enqueued; with every line valid, the line at the queue head is
     * overwritten and its index moved to the tail.
     */
    method AddToCache(address: int, data: int)
      requires Valid() && !IsHit(CacheState(cache[..], fifo), address)
      requires 0 <= address < memory.Length && data == memory[address]
      modifies this, cache
      ensures State() == old(State()).(cache := Install(old(State()).cache, address, data))
      ensures Valid()
    {
      ghost var c0 := CacheState(cache[..], fifo);
      FillKeepsInvariants(c0, memory[..], address);
      for i := 0 to LINES
        invariant cache[..] == c0.lines && fifo == c0.fifo
        invariant forall j :: 0 <= j < i ==> cache[j].valid
      {
        if !cache[i].valid {
          assert FirstInvalid(c0.lines) == i;
          cache[i] := Line(true, address, data);
          fifo := fifo + [i];
          return;
        }
      }
      assert FirstInvalid(c0.lines) == LINES;
      assert cache[0].valid && fifo[0] in fifo;
      var replace := fifo[0];
      fifo := fifo[1..];
      cache[replace] := cache[replace].(tag := address, data := data);
      fifo := fifo + [replace];
    }

    /** The address field, plus an index register when `ixrIndex` is 1..3, then one optional indirection. */
    method CalculateEffectiveAddress(addressField: int, ixrIndex: int, iFlag: int) returns (ea: int)
      requires Valid()
      modifies this, cache
      ensures State() == Cpu.EffectiveAddress(old(State()), addressField, ixrIndex, iFlag).0
      ensures ea == Cpu.EffectiveAddress(old(State()), addressField, ixrIndex, iFlag).1
      ensures Valid()
    {
      ea := addressField;
      if ixrIndex > 0 && ixrIndex < 4 {
        ea := ea + ixr[ixrIndex];
      }
      if iFlag == 1 {
        ea := ReadMemory(ea);
      }
    }

    /**
     * Fetch the word at PC into IR, advance PC, decode and execute it. The
     * result is `Continue` or `Stop` for the source's `true` and `false`, and
     * `OutOfBounds` where MLT or DVD index register rx + 1 = 4.
     */
    method ExecuteInstruction(input: Option<int>) returns (outcome: Cpu.Outcome)
      requires Valid()
      modifies this, gpr, ixr, memory, cache
      ensures (State(), outcome) == Cpu.Step(old(State()), input)
      ensures Valid()
    {
      if pc < 0 || pc >= memory.Length {
        mfr := 1;
        return Cpu.Stop;
      }
      ghost var fetched := Cpu.ReadMem(State(), pc);
      var word := ReadMemory(pc);
      ir := word;
      pc := pc + 1;
      assert State() == fetched.0.(ir := fetched.1, pc := old(pc) + 1);
      outcome := Dispatch(input);
    }

    /** The `switch` on the opcode of the instruction in IR. */
    method Dispatch(input: Option<int>) returns (outcome: Cpu.Outcome)
      requires Valid()
      modifies this, gpr, ixr, memory, cache
      ensures (State(), outcome) == Cpu.Execute(old(State()), input)
      ensures Valid()
    {
      var opcode := Opcode(ir);
      if opcode == 0 {
        outcome := Cpu.Stop;
      } else if 1 <= opcode <= 7 {
        ExecuteLoadStore(opcode);
        outcome := Cpu.Continue;
      } else if 10 <= opcode <= 17 {
        ExecuteTransfer(opcode);
        outcome := Cpu.Continue;
      } else if 20 <= opcode <= 25 {
        outcome := ExecuteRegisterOp(opcode);
      } else if opcode == 30 {
        mfr := 3;
        pc := ReadMemory(0);
        outcome := Cpu.Continue;
      } else if opcode == 31 || opcode == 32 {
        ExecuteShiftRotate(opcode);
        outcome := Cpu.Continue;
      } else if opcode == 41 || opcode == 42 {
        ExecuteIndexOp(opcode);
        outcome := Cpu.Continue;
      } else if opcode == 61 || opcode == 62 {
        ExecuteInputOutput(opcode, input);
        outcome := Cpu.Continue;
      } else {
        mfr := 4;
        outcome := Cpu.Stop;
      }
    }

    method ExecuteLoadStore(opcode: int)
      requires Valid() && 1 <= opcode <= 7
      modifies this, gpr, memory, cache
      ensures State() == Cpu.LoadStore(old(State()), opcode) && Valid()
    {
      if opcode == 6 || opcode == 7 {
        ExecuteAddImmediate(opcode == 7);
      } else {
        var r := RField(ir);
        var ea := CalculateEffectiveAddress(AddressField(ir), IxField(ir), IField(ir));
        if opcode == 1 {
          ExecuteLoadRegister(ea);
        } else if opcode == 2 {
          WriteMemory(ea, gpr[r]);
        } else if opcode == 3 {
          SetGPR(r, ea);
        } else {
          ExecuteAddMemory(ea, opcode == 5);
        }
      }
    }

    method ExecuteAddImmediate(subtract: bool)
      requires Valid()
      modifies gpr
      ensures State() == Cpu.AddImmediate(old(State()), subtract) && Valid()
    {
      var r := RField(ir);
      var a := SignExtend(gpr[r]);
      SetGPR(r, if subtract then a - Immediate(ir) else a + Immediate(ir));
    }

    method ExecuteLoadRegister(ea: int)
      requires Valid()
      modifies this, gpr, cache
      ensures State() == Cpu.LoadRegister(old(State()), ea) && Valid()
    {
      var r := RField(ir);
      var v := ReadMemory(ea);
      SetGPR(r, v);
    }

    method ExecuteAddMemory(ea: int, subtract: bool)
      requires Valid()
      modifies this, gpr, cache
      ensures State() == Cpu.AddMemory(old(State()), ea, subtract) && Valid()
    {
      var r := RField(ir);
      var a := SignExtend(gpr[r]);
      var v := ReadMemory(ea);
      SetGPR(r, if subtract then a - SignExtend(v) else a + SignExtend(v));
    }

    method ExecuteTransfer(opcode: int)
      requires Valid() && 10 <= opcode <= 17
      modifies this, gpr, cache
      ensures State() == Cpu.Transfer(old(State()), opcode) && Valid()
    {
      if opcode == 15 {
        pc := gpr[3];
      } else if opcode == 16 {
        ExecuteSubtractOneAndBranch();
      } else {
        ExecuteJump(opcode);
      }
    }

    method ExecuteSubtractOneAndBranch()
      requires Valid()
      modifies this, gpr, cache
      ensures State() == Cpu.SubtractOneAndBranch(old(State())) && Valid()
    {
      var r := RField(ir);
      SetGPR(r, SignExtend(gpr[r]) - 1);
      assert State() == Cpu.SetGpr(old(State()), r, SignExtend(old(gpr[r])) - 1);
      if SignExtend(gpr[r]) > 0 {
        ExecuteBranch();
      }
    }

    method ExecuteBranch()
      requires Valid()
      modifies this, cache
      ensures State() == Cpu.Branch(old(State())) && Valid()
    {
      var ea := CalculateEffectiveAddress(AddressField(ir), IxField(ir), IField(ir));
      pc := ea;
    }

    method ExecuteJump(opcode: int)
      requires Valid() && 10 <= opcode <= 17 && opcode != 15 && opcode != 16
      modifies this, gpr, cache
      ensures State() == Cpu.Jump(old(State()), opcode) && Valid()
    {
      var r := RField(ir);
      var ea := CalculateEffectiveAddress(AddressField(ir), IxField(ir), IField(ir));
      if opcode == 14 {
        SetGPR(3, pc);
        pc := ea;
      } else if opcode == 10 {
        if gpr[r] == 0 { pc := ea; }
      } else if opcode == 11 {
        if gpr[r] != 0 { pc := ea; }
      } else if opcode == 12 {
        if CCBit(cc, r) == 1 { pc := ea; }
      } else if opcode == 13 {
        pc := ea;
      } else {
        if SignExtend(gpr[r]) >= 0 { pc := ea; }
      }
    }

    method ExecuteRegisterOp(opcode: int) returns (outcome: Cpu.Outcome)
      requires Valid() && 20 <= opcode <= 25
      modifies this, gpr
      ensures (State(), outcome) == Cpu.RegisterOp(old(State()), opcode) && Valid()
    {
      var rx, ry := RField(ir), IxField(ir);
      outcome := Cpu.Continue;
      if opcode == 20 {
        var result := SignExtend(gpr[rx]) * SignExtend(gpr[ry]);
        SetGPR(rx, HighHalf(result));
        if rx + 1 < 4 {
          SetGPR(rx + 1, LowHalf(result));
        } else {
          outcome := Cpu.OutOfBounds;
        }
      } else if opcode == 21 {
        var x, y := SignExtend(gpr[rx]), SignExtend(gpr[ry]);
        if y == 0 {
          cc := WithDivZero(cc);
          mfr := 2;
          return Cpu.Stop;
        }
        SetGPR(rx, Mask16(TruncDiv(x, y)));
        if rx + 1 < 4 {
          SetGPR(rx + 1, Mask16(TruncRem(x, y)));
        } else {
          outcome := Cpu.OutOfBounds;
        }
      } else if opcode == 22 {
        SetCC(if gpr[rx] == gpr[ry] then 0 else 1);
      } else if opcode == 23 {
        SetGPR(rx, And16(gpr[rx], gpr[ry]));
      } else if opcode == 24 {
        SetGPR(rx, Or16(gpr[rx], gpr[ry]));
      } else {
        SetGPR(rx, Not16(gpr[rx]));
      }
    }

    method ExecuteShiftRotate(opcode: int)
      requires Valid() && (opcode == 31 || opcode == 32)
      modifies gpr
      ensures State() == Cpu.ShiftRotate(old(State()), opcode) && Valid()
    {
      var r, count := RField(ir), CountField(ir);
      var v := gpr[r];
      var result;
      if opcode == 31 {
        if LrField(ir) == 1 {
          result := ShiftLeft(v, count);
        } else if AlField(ir) == 1 {
          result := ShiftRightArithmetic(v, count);
        } else {
          result := ShiftRightLogical(v, count);
        }
      } else if LrField(ir) == 1 {
        result := RotateLeft(v, count);
      } else {
        result := RotateRight(v, count);
      }
      SetGPR(r, result);
    }

    method ExecuteIndexOp(opcode: int)
      requires Valid() && (opcode == 41 || opcode == 42)
      modifies this, ixr, memory, cache
      ensures State() == Cpu.IndexOp(old(State()), opcode) && Valid()
    {
      var x := IxField(ir);
      var ea := CalculateEffectiveAddress(AddressField(ir), 0, IField(ir));
      if opcode == 41 {
        var v := ReadMemory(ea);
        SetIXR(x, v);
      } else {
        WriteMemory(ea, ixr[x]);
      }
    }

    method ExecuteInputOutput(opcode: int, input: Option<int>)
      requires Valid() && (opcode == 61 || opcode == 62)
      modifies this, gpr
      ensures State() == Cpu.InputOutput(old(State()), opcode, input) && Valid()
    {
      var r, devid := RField(ir), AddressField(ir);
      if opcode == 61 {
        if devid == 0 {
          if input.Some? {
            SetGPR(r, input.value);
          } else {
            console := console + [Cpu.InvalidInput(r)];
          }
        }
      } else if devid == 1 {
        console := console + [Cpu.Printed(SignExtend(gpr[r]))];
      }
    }
  }
}
