// Properties of the two passes over a whole source: how Pass 1's symbol
// table holds the counter of each label's last definition, what Pass 2
// keeps and adds as it goes, where it stops, and how the two counters
// agree on sources whose every line is read the same way by both passes.
module AssemblerRuns {
  import opened Words
  import opened Wrappers
  import opened JavaText
  import opened Assembler
  import opened AssemblerProperties

  // ---------------------------------------------------------------------
  // Pass 1

  /** Once a fault is recorded the remaining lines change nothing. */
  lemma FaultStops(st: Pass1State, infos: seq<Pass1Info>)
    requires st.fault.Some?
    ensures Pass1Run(st, infos) == st
  {
  }

  /** Running two stretches of lines one after the other is running them together. */
  lemma {:induction false} Pass1RunAppend(st: Pass1State, a: seq<Pass1Info>, b: seq<Pass1Info>)
    ensures Pass1Run(st, a + b) == Pass1Run(Pass1Run(st, a), b)
    decreases |a|
  {
    if a == [] {
      assert a + b == b;
    } else if st.fault.None? {
      assert (a + b)[0] == a[0] && (a + b)[1..] == a[1..] + b;
      Pass1RunAppend(Pass1Apply(st, a[0]), a[1..], b);
    }
  }

  /** A run that ends without a fault had none after any of its first k lines. */
  lemma NoFaultInPrefix(st: Pass1State, infos: seq<Pass1Info>, k: nat)
    requires k <= |infos| && Pass1Run(st, infos).fault.None?
    ensures Pass1Run(st, infos[..k]).fault.None?
  {
    assert infos[..k] + infos[k..] == infos;
    Pass1RunAppend(st, infos[..k], infos[k..]);
    if Pass1Run(st, infos[..k]).fault.Some? {
      FaultStops(Pass1Run(st, infos[..k]), infos[k..]);
    }
  }

  /** Lines that do not define `name` leave its entry in the symbol table as it was, present or absent. */
  lemma {:induction false} UndefinedLabelKept(st: Pass1State, infos: seq<Pass1Info>, name: string)
    requires forall j :: 0 <= j < |infos| ==> infos[j].defines != Some(name)
    ensures name in Pass1Run(st, infos).symbols <==> name in st.symbols
    ensures name in st.symbols ==> Pass1Run(st, infos).symbols[name] == st.symbols[name]
    decreases |infos|
  {
    if infos != [] && st.fault.None? {
      assert infos[0].defines != Some(name);
      assert forall j :: 0 <= j < |infos[1..]| ==> infos[1..][j] == infos[j + 1];
      UndefinedLabelKept(Pass1Apply(st, infos[0]), infos[1..], name);
    }
  }

  /**
   * A label's entry after a fault-free run is the counter in front of the
   * last line that defines it: a later definition overwrites an earlier one.
   */
  lemma LatestDefinitionWins(st: Pass1State, infos: seq<Pass1Info>, k: nat, name: string)
    requires k < |infos| && infos[k].defines == Some(name)
    requires forall j :: k < j < |infos| ==> infos[j].defines != Some(name)
    requires Pass1Run(st, infos).fault.None?
    ensures name in Pass1Run(st, infos).symbols
    ensures Pass1Run(st, infos).symbols[name] == Pass1Run(st, infos[..k]).lc
  {
    var mid := Pass1Run(st, infos[..k]);
    NoFaultInPrefix(st, infos, k);
    assert infos[..k] + infos[k..] == infos;
    Pass1RunAppend(st, infos[..k], infos[k..]);
    var next := Pass1Apply(mid, infos[k]);
    assert infos[k..][0] == infos[k] && infos[k..][1..] == infos[k + 1..];
    assert Pass1Run(mid, infos[k..]) == Pass1Run(next, infos[k + 1..]);
    assert next.symbols[name] == mid.lc;
    assert forall j :: k + 1 <= j < |infos| ==> infos[k + 1..][j - k - 1] == infos[j];
    UndefinedLabelKept(next, infos[k + 1..], name);
  }

  /** The same over a source: Pass 1 maps a label to its counter at the line that last defines it. */
  lemma LabelAddress(table: map<string, Int32>, lines: seq<string>, k: nat, name: string)
    requires k < |lines| && Pass1Classify(lines[k]).defines == Some(name)
    requires forall j :: k < j < |lines| ==> Pass1Classify(lines[j]).defines != Some(name)
    requires Pass1Lines(table, lines).fault.None?
    ensures name in Pass1Lines(table, lines).symbols
    ensures Pass1Lines(table, lines).symbols[name] == Pass1Lines(table, lines[..k]).lc
  {
    assert Pass1Infos(lines[..k]) == Pass1Infos(lines)[..k];
    LatestDefinitionWins(Pass1State(0, table, None), Pass1Infos(lines), k, name);
  }

  // ---------------------------------------------------------------------
  // Pass 2

  /** Each load line is the load text of the word at the same position. */
  predicate LoadMatchesImage(a: Assembly)
  {
    |a.load| == |a.image| && forall k :: 0 <= k < |a.image| ==> a.load[k] == LoadLine(a.image[k])
  }

  /** One line of Pass 2 adds one listing line and at most one word, keeping what was there. */
  lemma AppendKeeps(a: Assembly, st: Pass2Step)
    ensures var r := Append(a, st);
      && r.listing == a.listing + [st.listing]
      && (st.emitted.None? ==> r.image == a.image && r.load == a.load)
      && (st.emitted.Some? ==> r.image == a.image + [st.emitted.value] && r.load == a.load + [LoadLine(st.emitted.value)])
      && r.lc == st.lc
  {
  }

  /** A successful run keeps what was produced before it and adds exactly one listing line per source line. */
  lemma {:induction false} Pass2KeepsPrefix(a: Assembly, infos: seq<Result<Pass2Info, Fault>>, lines: seq<string>)
    requires |infos| == |lines| && Pass2Run(a, infos, lines).Success?
    ensures var r := Pass2Run(a, infos, lines).value;
      && |r.listing| == |a.listing| + |lines| && r.listing[..|a.listing|] == a.listing
      && |a.image| <= |r.image| && r.image[..|a.image|] == a.image
    decreases |lines|
  {
    if lines != [] {
      var a' := Append(a, Pass2Apply(a.lc, infos[0].value, lines[0]));
      var r := Pass2Run(a, infos, lines).value;
      assert r == Pass2Run(a', infos[1..], lines[1..]).value;
      Pass2KeepsPrefix(a', infos[1..], lines[1..]);
      assert a'.listing[..|a.listing|] == a.listing;
      assert a'.image[..|a.image|] == a.image;
      assert r.listing[..|a'.listing|][..|a.listing|] == r.listing[..|a.listing|];
      assert r.image[..|a'.image|][..|a.image|] == r.image[..|a.image|];
    }
  }

  /** A successful run keeps every load line the load text of the word beside it. */
  lemma {:induction false} Pass2LoadInStep(a: Assembly, infos: seq<Result<Pass2Info, Fault>>, lines: seq<string>)
    requires |infos| == |lines| && Pass2Run(a, infos, lines).Success? && LoadMatchesImage(a)
    ensures LoadMatchesImage(Pass2Run(a, infos, lines).value)
    decreases |lines|
  {
    if lines != [] {
      var a' := Append(a, Pass2Apply(a.lc, infos[0].value, lines[0]));
      assert Pass2Run(a, infos, lines) == Pass2Run(a', infos[1..], lines[1..]);
      assert LoadMatchesImage(a');
      Pass2LoadInStep(a', infos[1..], lines[1..]);
    }
  }

  /** In a successful run every line that emits nothing is listed as three tabs and the line. */
  lemma {:induction false} Pass2TabbedLines(a: Assembly, infos: seq<Result<Pass2Info, Fault>>, lines: seq<string>, k: nat)
    requires |infos| == |lines| && Pass2Run(a, infos, lines).Success?
    requires k < |lines| && infos[k].Success? && !infos[k].value.Emits?
    ensures |a.listing| + k < |Pass2Run(a, infos, lines).value.listing|
    ensures Pass2Run(a, infos, lines).value.listing[|a.listing| + k] == TabbedLine(lines[k])
    decreases k
  {
    var a' := Append(a, Pass2Apply(a.lc, infos[0].value, lines[0]));
    assert Pass2Run(a, infos, lines) == Pass2Run(a', infos[1..], lines[1..]);
    Pass2KeepsPrefix(a', infos[1..], lines[1..]);
    var r := Pass2Run(a, infos, lines).value;
    if k == 0 {
      assert a'.listing[|a.listing|] == TabbedLine(lines[0]);
      assert r.listing[..|a'.listing|][|a.listing|] == r.listing[|a.listing|];
    } else {
      assert infos[1..][k - 1] == infos[k] && lines[1..][k - 1] == lines[k];
      Pass2TabbedLines(a', infos[1..], lines[1..], k - 1);
    }
  }

  /** Pass 2 succeeds when every line is read without a fault. */
  lemma {:induction false} Pass2Succeeds(a: Assembly, infos: seq<Result<Pass2Info, Fault>>, lines: seq<string>)
    requires |infos| == |lines| && forall j :: 0 <= j < |infos| ==> infos[j].Success?
    ensures Pass2Run(a, infos, lines).Success?
    decreases |lines|
  {
    if lines != [] {
      assert forall j :: 0 <= j < |infos[1..]| ==> infos[1..][j] == infos[j + 1];
      Pass2Succeeds(Append(a, Pass2Apply(a.lc, infos[0].value, lines[0])), infos[1..], lines[1..]);
    }
  }

  /** Pass 2 stops with the fault of the first line that has one. */
  lemma {:induction false} Pass2FirstFault(a: Assembly, infos: seq<Result<Pass2Info, Fault>>, lines: seq<string>, k: nat)
    requires |infos| == |lines| && k < |infos| && infos[k].Failure?
    requires forall j :: 0 <= j < k ==> infos[j].Success?
    ensures Pass2Run(a, infos, lines) == Failure(infos[k].error)
    decreases k
  {
    if k > 0 {
      assert forall j :: 0 <= j < k - 1 ==> infos[1..][j] == infos[j + 1];
      assert infos[1..][k - 1] == infos[k];
      Pass2FirstFault(Append(a, Pass2Apply(a.lc, infos[0].value, lines[0])), infos[1..], lines[1..], k - 1);
    }
  }

  // ---------------------------------------------------------------------
  // The two passes side by side

  /** The words Pass 2 reads from the lines, each placed at Pass 1's counter in front of its line. */
  function Placed(st: Pass1State, p1: seq<Pass1Info>, p2: seq<Result<Pass2Info, Fault>>): (r: seq<Emit>)
    requires |p1| == |p2|
    decreases |p1|
  {
    if p1 == [] then []
    else
      var here := if p2[0].Success? && p2[0].value.Emits? then [Emit(st.lc, p2[0].value.word)] else [];
      here + Placed(Pass1Apply(st, p1[0]), p1[1..], p2[1..])
  }

  /** One agreeing line moves both counters alike and places its word, if any, at that counter. */
  lemma AgreeStep(st: Pass1State, a: Assembly, e: Pass1Info, info: Pass2Info, raw: string)
    requires st.lc == a.lc && st.fault.None? && Agree(e.effect, info)
    ensures var st', a' := Pass1Apply(st, e), Append(a, Pass2Apply(a.lc, info, raw));
      && st'.lc == a'.lc && st'.fault.None?
      && a'.image == a.image + (if info.Emits? then [Emit(st.lc, info.word)] else [])
  {
  }

  /**
   * When every line agrees, Pass 1 finishes without a fault, Pass 2
   * succeeds, both end on the same counter, and every word Pass 2 emits is
   * at the counter Pass 1 had in front of its line.
   */
  lemma {:induction false} CountersAgree(st: Pass1State, a: Assembly, p1: seq<Pass1Info>,
                                         p2: seq<Result<Pass2Info, Fault>>, lines: seq<string>)
    requires |p1| == |p2| == |lines| && st.lc == a.lc && st.fault.None?
    requires forall k :: 0 <= k < |p1| ==> p2[k].Success? && Agree(p1[k].effect, p2[k].value)
    ensures Pass1Run(st, p1).fault.None?
    ensures Pass2Run(a, p2, lines).Success?
    ensures Pass2Run(a, p2, lines).value.lc == Pass1Run(st, p1).lc
    ensures Pass2Run(a, p2, lines).value.image == a.image + Placed(st, p1, p2)
    decreases |p1|
  {
    if p1 != [] {
      var info := p2[0].value;
      var st' := Pass1Apply(st, p1[0]);
      var a' := Append(a, Pass2Apply(a.lc, info, lines[0]));
      var here := if info.Emits? then [Emit(st.lc, info.word)] else [];
      AgreeStep(st, a, p1[0], info, lines[0]);
      assert Pass1Run(st, p1) == Pass1Run(st', p1[1..]);
      assert Pass2Run(a, p2, lines) == Pass2Run(a', p2[1..], lines[1..]);
      assert Placed(st, p1, p2) == here + Placed(st', p1[1..], p2[1..]);
      assert forall k :: 0 <= k < |p1[1..]| ==> p1[1..][k] == p1[k + 1] && p2[1..][k] == p2[k + 1];
      CountersAgree(st', a', p1[1..], p2[1..], lines[1..]);
      ConcatAssociates(a.image, here, Placed(st', p1[1..], p2[1..]));
    }
  }

  lemma ConcatAssociates(x: seq<Emit>, y: seq<Emit>, z: seq<Emit>)
    ensures x + y + z == x + (y + z)
  {
  }

  /** The word of line k is placed at Pass 1's counter after the k lines in front of it. */
  lemma {:induction false} PlacedAt(st: Pass1State, p1: seq<Pass1Info>, p2: seq<Result<Pass2Info, Fault>>, k: nat)
    requires |p1| == |p2| && k < |p1| && st.fault.None?
    requires forall j :: 0 <= j < |p1| ==> !p1[j].effect.Fails?
    requires p2[k].Success? && p2[k].value.Emits?
    ensures Emit(Pass1Run(st, p1[..k]).lc, p2[k].value.word) in Placed(st, p1, p2)
    decreases k
  {
    var st' := Pass1Apply(st, p1[0]);
    var here := if p2[0].Success? && p2[0].value.Emits? then [Emit(st.lc, p2[0].value.word)] else [];
    assert Placed(st, p1, p2) == here + Placed(st', p1[1..], p2[1..]);
    if k > 0 {
      assert p1[..k][0] == p1[0] && p1[..k][1..] == p1[1..][..k - 1];
      assert Pass1Run(st, p1[..k]) == Pass1Run(st', p1[1..][..k - 1]);
      assert forall j :: 0 <= j < |p1[1..]| ==> p1[1..][j] == p1[j + 1];
      assert p2[1..][k - 1] == p2[k];
      PlacedAt(st', p1[1..], p2[1..], k - 1);
    }
  }

  /**
   * When every line agrees, the word of a labelled line is placed at the
   * address the label ends up with, unless a later line defines it again.
   */
  lemma LabelledWordPlaced(st: Pass1State, a: Assembly, p1: seq<Pass1Info>,
                           p2: seq<Result<Pass2Info, Fault>>, lines: seq<string>, k: nat, name: string)
    requires |p1| == |p2| == |lines| && st.lc == a.lc && st.fault.None?
    requires forall j :: 0 <= j < |p1| ==> p2[j].Success? && Agree(p1[j].effect, p2[j].value)
    requires k < |p1| && p1[k].defines == Some(name) && p2[k].value.Emits?
    requires forall j :: k < j < |p1| ==> p1[j].defines != Some(name)
    ensures Pass1Run(st, p1).fault.None? && Pass2Run(a, p2, lines).Success?
    ensures name in Pass1Run(st, p1).symbols
    ensures Emit(Pass1Run(st, p1).symbols[name], p2[k].value.word) in Pass2Run(a, p2, lines).value.image
  {
    CountersAgree(st, a, p1, p2, lines);
    forall j | 0 <= j < |p1|
      ensures !p1[j].effect.Fails?
    {
      assert Agree(p1[j].effect, p2[j].value);
    }
    PlacedAt(st, p1, p2, k);
    LatestDefinitionWins(st, p1, k, name);
    var e := Emit(Pass1Run(st, p1[..k]).lc, p2[k].value.word);
    assert e in a.image + Placed(st, p1, p2);
  }

  /** Pass 2's reading of a line against the assembler's own opcode table. */
  function OwnTable(symbols: map<string, Int32>, raw: string): Result<Pass2Info, Fault>
  {
    OpcodesAreBinary();
    Pass2Classify(OPCODES, symbols, raw)
  }

  /**
   * Over a source whose lines all agree, the assembly succeeds and the word
   * of a labelled line sits at the address Pass 1 gave the label, unless a
   * later line defines the label again.
   */
  lemma LabelMarksItsWord(lines: seq<string>, k: nat, name: string)
    requires LinesAgree(Pass1Lines(map[], lines).symbols, lines)
    requires k < |lines| && Pass1Classify(lines[k]).defines == Some(name)
    requires forall j :: k < j < |lines| ==> Pass1Classify(lines[j]).defines != Some(name)
    requires OwnTable(Pass1Lines(map[], lines).symbols, lines[k]).Success?
    requires OwnTable(Pass1Lines(map[], lines).symbols, lines[k]).value.Emits?
    ensures AssembleSource(lines).Success?
    ensures name in Pass1Lines(map[], lines).symbols
    ensures Emit(Pass1Lines(map[], lines).symbols[name], OwnTable(Pass1Lines(map[], lines).symbols, lines[k]).value.word)
            in AssembleSource(lines).value.image
  {
    OpcodesAreBinary();
    var symbols := Pass1Lines(map[], lines).symbols;
    var p1 := Pass1Infos(lines);
    var p2 := Pass2Infos(OPCODES, symbols, lines);
    var st := Pass1State(0, map[], None);
    var a := Assembly(0, [], [], []);
    InfosAgree(symbols, lines);
    LabelledWordPlaced(st, a, p1, p2, lines, k, name);
    assert Pass1Lines(map[], lines) == Pass1Run(st, p1);
    AssembleAfterPass1(lines);
  }

  /** Pass 2 encodes every line of a source without a fault, in agreement with what Pass 1 did there. */
  predicate LinesAgree(symbols: map<string, Int32>, lines: seq<string>)
  {
    forall j :: 0 <= j < |lines| ==>
      var info := OwnTable(symbols, lines[j]);
      info.Success? && Agree(Pass1Classify(lines[j]).effect, info.value)
  }

  lemma InfosAgree(symbols: map<string, Int32>, lines: seq<string>)
    requires LinesAgree(symbols, lines)
    ensures BinaryTable(OPCODES)
    ensures forall j :: 0 <= j < |lines| ==>
      Pass2Infos(OPCODES, symbols, lines)[j].Success? &&
      Agree(Pass1Infos(lines)[j].effect, Pass2Infos(OPCODES, symbols, lines)[j].value)
  {
    InfosOfLines(symbols, lines);
  }

  lemma InfosOfLines(symbols: map<string, Int32>, lines: seq<string>)
    ensures BinaryTable(OPCODES)
    ensures forall j :: 0 <= j < |lines| ==> Pass2Infos(OPCODES, symbols, lines)[j] == OwnTable(symbols, lines[j])
    ensures forall j :: 0 <= j < |lines| ==> Pass1Infos(lines)[j] == Pass1Classify(lines[j])
  {
    OpcodesAreBinary();
  }

  lemma Pass1InfosPrefix(lines: seq<string>, k: nat)
    requires k <= |lines|
    ensures Pass1Infos(lines[..k]) == Pass1Infos(lines)[..k]
  {
  }

  /** Without a fault in Pass 1 the assembly is Pass 2 against the labels Pass 1 found. */
  lemma AssembleAfterPass1(lines: seq<string>)
    requires Pass1Lines(map[], lines).fault.None?
    ensures BinaryTable(OPCODES)
      && AssembleSource(lines) == Pass2Run(Assembly(0, [], [], []), Pass2Infos(OPCODES, Pass1Lines(map[], lines).symbols, lines), lines)
  {
    OpcodesAreBinary();
  }

  // ---------------------------------------------------------------------
  // Where the counters part

  /**
   * Pass 1 advances over an operation Pass 2 does not encode, so a label
   * after it points one word past the word it labels: after a line such as
   * `MLT 0,1`, the line `A: HLT` gives A the address 1 but places the HLT
   * word at 0.
   */
  lemma UnknownMnemonicShiftsLabels(op: string, text: string, name: string)
    requires Mnemonic(op) && OperandText(text) && op !in OPCODES && op !in {"LOC", "DATA", "HLT"}
    requires |name| > 0 && forall k :: 0 <= k < |name| ==> IsWordChar(name[k])
    ensures Pass1Lines(map[], [op + " " + text, name + ": HLT"]).symbols == map[name := 1]
    ensures AssembleSource([op + " " + text, name + ": HLT"]).Success?
    ensures AssembleSource([op + " " + text, name + ": HLT"]).value.image == [Emit(0, 0)]
  {
    ShiftedPass1(op, text, name);
    ShiftedPass2(op, text, name);
    AssembleAfterPass1([op + " " + text, name + ": HLT"]);
  }

  lemma ShiftedPass1(op: string, text: string, name: string)
    requires Mnemonic(op) && OperandText(text) && op !in OPCODES && op !in {"LOC", "DATA", "HLT"}
    requires |name| > 0 && forall k :: 0 <= k < |name| ==> IsWordChar(name[k])
    ensures Pass1Lines(map[], [op + " " + text, name + ": HLT"]) == Pass1State(2, map[name := 1], None)
  {
    var lines := [op + " " + text, name + ": HLT"];
    UnknownLine1(op, text);
    HaltLine1(name);
    var p1 := Pass1Infos(lines);
    assert p1[0] == Pass1Info(None, Advance) && p1[1] == Pass1Info(Some(name), Advance);
    AdvanceThenLabel(p1, name);
  }

  lemma AdvanceThenLabel(p1: seq<Pass1Info>, name: string)
    requires |p1| == 2 && p1[0] == Pass1Info(None, Advance) && p1[1] == Pass1Info(Some(name), Advance)
    ensures Pass1Run(Pass1State(0, map[], None), p1) == Pass1State(2, map[name := 1], None)
  {
    var st := Pass1State(0, map[], None);
    Pass1TwoLines(st, p1);
    assert Pass1Apply(st, p1[0]) == Pass1State(1, map[], None);
  }

  lemma ShiftedPass2(op: string, text: string, name: string)
    requires Mnemonic(op) && OperandText(text) && op !in OPCODES && op !in {"LOC", "DATA", "HLT"}
    requires |name| > 0 && forall k :: 0 <= k < |name| ==> IsWordChar(name[k])
    ensures BinaryTable(OPCODES)
    ensures Pass2Lines(OPCODES, map[name := 1], [op + " " + text, name + ": HLT"]).Success?
    ensures Pass2Lines(OPCODES, map[name := 1], [op + " " + text, name + ": HLT"]).value.image == [Emit(0, 0)]
  {
    var lines := [op + " " + text, name + ": HLT"];
    var symbols := map[name := 1];
    UnknownLine2(op, text, symbols);
    HaltLine2(name, symbols);
    OpcodesAreBinary();
    var p2 := Pass2Infos(OPCODES, symbols, lines);
    assert p2[0] == Success(Listed) && p2[1] == Success(Emits(0));
    Pass2TwoLines(Assembly(0, [], [], []), p2, lines);
  }

  lemma Pass1TwoLines(st: Pass1State, infos: seq<Pass1Info>)
    requires |infos| == 2 && st.fault.None? && !infos[0].effect.Fails?
    ensures Pass1Run(st, infos) == Pass1Apply(Pass1Apply(st, infos[0]), infos[1])
  {
    var s1 := Pass1Apply(st, infos[0]);
    assert infos[1..][0] == infos[1] && infos[1..][1..] == [];
    assert Pass1Run(st, infos) == Pass1Run(s1, infos[1..]);
    assert Pass1Run(s1, infos[1..]) == Pass1Run(Pass1Apply(s1, infos[1]), []);
  }

  lemma Pass2TwoLines(a: Assembly, infos: seq<Result<Pass2Info, Fault>>, lines: seq<string>)
    requires |infos| == |lines| == 2 && infos[0].Success? && infos[1].Success?
    ensures var a' := Append(a, Pass2Apply(a.lc, infos[0].value, lines[0]));
      Pass2Run(a, infos, lines) == Success(Append(a', Pass2Apply(a'.lc, infos[1].value, lines[1])))
  {
    var a' := Append(a, Pass2Apply(a.lc, infos[0].value, lines[0]));
    assert infos[1..][0] == infos[1] && infos[1..][1..] == [];
    assert lines[1..][0] == lines[1] && lines[1..][1..] == [];
    assert Pass2Run(a, infos, lines) == Pass2Run(a', infos[1..], lines[1..]);
    assert Pass2Run(a', infos[1..], lines[1..]) == Pass2Run(Append(a', Pass2Apply(a'.lc, infos[1].value, lines[1])), [], []);
  }

  /** A line with an operation outside the table advances Pass 1's counter ... */
  lemma UnknownLine1(op: string, text: string)
    requires Mnemonic(op) && OperandText(text) && op != "LOC"
    ensures Pass1Classify(op + " " + text) == Pass1Info(None, Advance)
  {
    var raw := op + " " + text;
    SimpleStatement(op, text);
    assert Pass1Label(raw) == (None, raw);
    assert Operation([op, text]) == op;
    assert Pass1Classify(raw) == Pass1Info(None, Pass1Effect(raw));
  }

  /** ... and is only listed by Pass 2. */
  lemma UnknownLine2(op: string, text: string, symbols: map<string, Int32>)
    requires Mnemonic(op) && OperandText(text) && op !in OPCODES && op !in {"LOC", "DATA", "HLT"}
    ensures OwnTable(symbols, op + " " + text) == Success(Listed)
  {
    var raw := op + " " + text;
    SimpleStatement(op, text);
    assert Operation([op, text]) == op;
    assert Pass2Body(raw) == raw;
  }

  /** `name: HLT` defines the label where it stands and advances Pass 1's counter ... */
  lemma HaltLine1(name: string)
    requires |name| > 0 && forall k :: 0 <= k < |name| ==> IsWordChar(name[k])
    ensures Pass1Classify(name + ": HLT") == Pass1Info(Some(name), Advance)
  {
    var raw := name + ": HLT";
    HaltText();
    assert raw == name + ":" + " HLT";
    LabelledStatement(name, " HLT");
    LabelledHaltStatement(name);
  }

  /** ... and Pass 2 emits the word 0 for it. */
  lemma HaltLine2(name: string, symbols: map<string, Int32>)
    requires |name| > 0 && forall k :: 0 <= k < |name| ==> IsWordChar(name[k])
    ensures OwnTable(symbols, name + ": HLT") == Success(Emits(0))
  {
    var raw := name + ": HLT";
    HaltText();
    assert raw == name + ":" + " HLT";
    LabelledStatement(name, " HLT");
    LabelledHaltStatement(name);
    OpcodesAreBinary();
    HaltEmitsZero(OPCODES, symbols, ["HLT"]);
  }

  lemma LabelledHaltStatement(name: string)
    requires |name| > 0 && forall k :: 0 <= k < |name| ==> IsWordChar(name[k])
    ensures Statement(name + ": HLT") == Some(name + ": HLT")
  {
    var raw := name + ": HLT";
    assert ';' !in name by {
      assert forall k :: 0 <= k < |name| ==> name[k] != ';';
    }
    assert ';' !in ": HLT";
    assert ';' !in raw;
    assert raw[0] == name[0] && raw[|raw| - 1] == 'T';
    CleanStatement(raw);
  }

  /** What both passes read from ` HLT` after a label. */
  lemma HaltText()
    ensures IsScannerLine(" HLT")
    ensures Trim(" HLT") == "HLT"
    ensures SplitAtWhitespace("HLT") == ["HLT"]
    ensures Operation(["HLT"]) == "HLT"
    ensures Pass1Effect("HLT") == Advance
  {
    TrimHalt();
    HaltWord();
  }

  lemma TrimHalt()
    ensures IsScannerLine(" HLT") && Trim(" HLT") == "HLT"
  {
    TrimCharacterised(" HLT", 1, 4);
  }

  lemma HaltWord()
    ensures SplitAtWhitespace("HLT") == ["HLT"] && Operation(["HLT"]) == "HLT" && Pass1Effect("HLT") == Advance
  {
    assert Mnemonic("HLT");
    UpperMnemonic("HLT");
  }
}
