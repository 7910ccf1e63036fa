// Properties of the assembler model: how a source line is read (comments,
// labels, LOC, mnemonics), what the two passes compute over a whole source,
// where their location counters agree and where they part, and the words
// Pass 2 encodes.
module AssemblerProperties {
  import opened Words
  import opened Wrappers
  import opened JavaText
  import opened Assembler

  // ---------------------------------------------------------------------
  // Reading one line

  /** Blank lines and lines whose first non-blank is `;` change nothing in Pass 1 and are only listed by Pass 2. */
  lemma SkippedLine(st: Pass1State, opcodes: map<string, string>, symbols: map<string, Int32>, raw: string)
    requires BinaryTable(opcodes)
    requires Trim(raw) == [] || Trim(raw)[0] == ';'
    ensures Pass1Apply(st, Pass1Classify(raw)) == st
    ensures Pass2Classify(opcodes, symbols, raw) == Success(Listed)
  {
  }

  /** Everything from the first `;` on is ignored by both passes. */
  lemma CommentIgnored(s: string, comment: string, opcodes: map<string, string>, symbols: map<string, Int32>)
    requires ';' !in s && BinaryTable(opcodes)
    ensures Statement(s + ";" + comment) == Statement(s)
    ensures Pass1Classify(s + ";" + comment) == Pass1Classify(s)
    ensures Pass2Classify(opcodes, symbols, s + ";" + comment) == Pass2Classify(opcodes, symbols, s)
  {
    StatementIgnoresComment(s, comment);
  }

  lemma StatementIgnoresComment(s: string, comment: string)
    requires ';' !in s
    ensures Statement(s + ";" + comment) == Statement(s)
  {
    TrimAroundSemicolon(s, comment);
    var i := FirstNonBlank(s);
    var line := Trim(s + ";" + comment);
    if i < |s| {
      CommentCut(s, comment);
      assert line[..IndexOf(line, ';')] == s[i..];
      TrimAfterLeadingBlanks(s);
      TrimSubsequence(s);
      assert line[0] == s[i];
    } else {
      assert line[0] == ';';
    }
  }

  /** When `s` holds a non-blank, the trimmed `s;comment` is cut at its first `;` right after `s`. */
  lemma CommentCut(s: string, comment: string)
    requires ';' !in s && FirstNonBlank(s) < |s|
    requires var line := Trim(s + ";" + comment);
      var i := FirstNonBlank(s);
      && |line| > |s| - i && line[..|s| - i] == s[i..] && line[|s| - i] == ';'
    ensures IndexOf(Trim(s + ";" + comment), ';') == |s| - FirstNonBlank(s)
  {
    var i := FirstNonBlank(s);
    var line := Trim(s + ";" + comment);
    assert forall k :: 0 <= k < |s| - i ==> line[k] == s[i + k];
  }

  /** Trimming `s;comment` keeps `s` from its first non-blank, then the `;`. */
  lemma TrimAroundSemicolon(s: string, comment: string)
    requires ';' !in s
    ensures var line := Trim(s + ";" + comment);
      var i := FirstNonBlank(s);
      && |line| > |s| - i && line[..|s| - i] == s[i..] && line[|s| - i] == ';'
  {
    var t := s + ";" + comment;
    var j := TrimStartsInPrefix(s, t);
    SlicePrefix(s, t, FirstNonBlank(s), j);
  }

  /** When `t` extends `s` with a non-blank, trimming `t` starts where trimming `s` does and ends after `s`. */
  lemma TrimStartsInPrefix(s: string, t: string) returns (j: nat)
    requires |s| < |t| && t[..|s|] == s && !IsBlank(t[|s|])
    ensures |s| < j <= |t| && Trim(t) == t[FirstNonBlank(s)..j]
  {
    var i := FirstNonBlank(s);
    j := EndNonBlank(t);
    assert forall k :: 0 <= k < i ==> IsBlank(t[k]) by {
      assert forall k :: 0 <= k < i ==> t[k] == s[k];
    }
    assert !IsBlank(t[i]) by {
      if i < |s| { assert t[i] == s[i]; }
    }
    TrimCharacterised(t, i, j);
  }

  lemma SlicePrefix(s: string, t: string, i: nat, j: nat)
    requires i <= |s| < j <= |t| && t[..|s|] == s
    ensures t[i..j][..|s| - i] == s[i..] && t[i..j][|s| - i] == t[|s|]
  {
    assert forall k :: 0 <= k < |s| - i ==> t[i..j][k] == s[i + k] by {
      assert forall k :: 0 <= k < |s| ==> t[k] == s[k];
    }
  }

  /** Leading blanks do not change the trim. */
  lemma TrimAfterLeadingBlanks(s: string)
    ensures Trim(s[FirstNonBlank(s)..]) == Trim(s)
  {
    var i := FirstNonBlank(s);
    if i < |s| {
      var e := EndNonBlank(s);
      TrimCharacterised(s, i, e);
      TrimCharacterised(s[i..], 0, e - i);
      assert s[i..][..e - i] == s[i..e];
    } else {
      TrimCharacterised(s[i..], 0, 0);
    }
  }

  /** A mnemonic as the programs write it: upper-case letters. */
  predicate Mnemonic(op: string)
  {
    |op| > 0 && forall k :: 0 <= k < |op| ==> 'A' <= op[k] <= 'Z'
  }

  /** An operand text without blanks or `;`. */
  predicate OperandText(t: string)
  {
    |t| > 0 && forall k :: 0 <= k < |t| ==> !IsBlank(t[k]) && t[k] != ';'
  }

  /** `op text` is a statement of its own, has no label, and splits into `op` and `text`. */
  lemma SimpleStatement(op: string, text: string)
    requires Mnemonic(op) && OperandText(text)
    ensures Statement(op + " " + text) == Some(op + " " + text)
    ensures LabelOf(op + " " + text).None?
    ensures SplitAtWhitespace(op + " " + text) == [op, text]
    ensures ToUpper(op) == op
  {
    SimpleIsStatement(op, text);
    SimpleHasNoLabel(op, text);
    SimpleSplit(op, text);
    UpperMnemonic(op);
  }

  lemma SimpleIsStatement(op: string, text: string)
    requires Mnemonic(op) && OperandText(text)
    ensures Statement(op + " " + text) == Some(op + " " + text)
  {
    var raw := op + " " + text;
    assert ';' !in raw by {
      assert forall k :: 0 <= k < |raw| ==> raw[k] == if k < |op| then op[k] else if k == |op| then ' ' else text[k - |op| - 1];
    }
    assert raw[|raw| - 1] == text[|text| - 1];
    assert raw[0] == op[0];
    CleanStatement(raw);
  }

  lemma SimpleHasNoLabel(op: string, text: string)
    requires Mnemonic(op)
    ensures LabelOf(op + " " + text).None?
  {
    var raw := op + " " + text;
    assert raw[|op|] == ' ';
    assert forall k :: 0 <= k < |op| ==> raw[k] == op[k];
    NoLabelBeforeSpace(raw, |op|);
  }

  lemma SimpleSplit(op: string, text: string)
    requires Mnemonic(op) && OperandText(text)
    ensures SplitAtWhitespace(op + " " + text) == [op, text]
  {
    assert !IsSpace(text[0]) by {
      SpaceIsBlank(text[0]);
    }
    assert forall k :: 0 <= k < |op| ==> !IsSpace(op[k]);
    SplitAtSingleSpace(op, text);
  }

  /** A line without `;` whose first and last characters are not blank is its own statement. */
  lemma CleanStatement(s: string)
    requires s != [] && !IsBlank(s[0]) && !IsBlank(s[|s| - 1]) && ';' !in s
    ensures Statement(s) == Some(s)
  {
    TrimOfTrimmed(s);
  }

  /** Word characters ended by a space are not a label. */
  lemma NoLabelBeforeSpace(s: string, n: nat)
    requires n < |s| && s[n] == ' ' && forall k :: 0 <= k < n ==> 'A' <= s[k] <= 'Z'
    ensures LabelOf(s).None?
  {
    assert WordPrefix(s) == n by {
      assert !IsWordChar(s[n]);
    }
  }

  /** One space between a word without whitespace and a text that starts with a non-space splits there. */
  lemma SplitAtSingleSpace(word: string, text: string)
    requires forall k :: 0 <= k < |word| ==> !IsSpace(word[k])
    requires text != [] && !IsSpace(text[0])
    ensures SplitAtWhitespace(word + " " + text) == [word, text]
  {
    var s := word + " " + text;
    var n := |word|;
    assert forall k :: 0 <= k < n ==> s[k] == word[k];
    assert s[n] == ' ' && s[n + 1] == text[0];
    assert FirstSpace(s) == n by {
      assert IsSpace(s[n]);
    }
    assert SpaceRunEnd(s, n) == n + 1 by {
      assert SpaceRunEnd(s, n + 1) == n + 1;
    }
    assert s[..n] == word && s[n + 1..] == text;
  }

  lemma UpperMnemonic(op: string)
    requires Mnemonic(op)
    ensures ToUpper(op) == op
  {
    assert forall k :: 0 <= k < |op| ==> UpperChar(op[k]) == op[k];
  }

  /** Any mnemonic other than LOC with operands moves Pass 1's counter on by one and records no label. */
  lemma InstructionAdvancesCounter(st: Pass1State, op: string, text: string)
    requires Mnemonic(op) && OperandText(text) && op != "LOC"
    ensures Pass1Apply(st, Pass1Classify(op + " " + text)) == st.(lc := Next(st.lc))
  {
    var raw := op + " " + text;
    SimpleStatement(op, text);
    assert Pass1Label(raw) == (None, raw);
    assert Operation([op, text]) == op;
    assert Pass1Effect(raw) == Advance;
    assert Pass1Classify(raw) == Pass1Info(None, Advance);
  }

  /** `LOC n` sets Pass 1's counter to n, and Pass 2 reads it as the same new counter. */
  lemma LocSetsCounter(st: Pass1State, n: Int32, opcodes: map<string, string>, symbols: map<string, Int32>)
    requires BinaryTable(opcodes)
    ensures Pass1Apply(st, Pass1Classify("LOC " + DecimalText(n))) == st.(lc := n)
    ensures Pass2Classify(opcodes, symbols, "LOC " + DecimalText(n)) == Success(SetCounter(n))
  {
    LocPass1(n);
    LocPass2(n, opcodes, symbols);
  }

  lemma LocPass1(n: Int32)
    ensures Pass1Classify("LOC " + DecimalText(n)) == Pass1Info(None, SetTo(n))
  {
    var raw := "LOC " + DecimalText(n);
    LocLine(n);
    LocOperand(n);
    assert Pass1Label(raw) == (None, raw);
  }

  lemma LocPass2(n: Int32, opcodes: map<string, string>, symbols: map<string, Int32>)
    requires BinaryTable(opcodes)
    ensures Pass2Classify(opcodes, symbols, "LOC " + DecimalText(n)) == Success(SetCounter(n))
  {
    var raw := "LOC " + DecimalText(n);
    LocLine(n);
    LocOperand(n);
    assert Pass2Body(raw) == raw;
  }

  /** `LOC n` is a statement without label that splits into `LOC` and the numeral. */
  lemma LocLine(n: Int32)
    ensures Statement("LOC " + DecimalText(n)) == Some("LOC " + DecimalText(n))
    ensures LabelOf("LOC " + DecimalText(n)).None?
    ensures SplitAtWhitespace("LOC " + DecimalText(n)) == ["LOC", DecimalText(n)]
  {
    var d := DecimalText(n);
    assert "LOC " + d == "LOC" + " " + d;
    assert Mnemonic("LOC");
    DecimalTextChars(n);
    SimpleStatement("LOC", d);
  }

  /** The numeral after LOC is read back as n. */
  lemma LocOperand(n: Int32)
    ensures Operation(["LOC", DecimalText(n)]) == "LOC"
    ensures LocCounter(["LOC", DecimalText(n)]) == Success(n)
  {
    assert Mnemonic("LOC");
    UpperMnemonic("LOC");
    ParseDecimalText(n);
  }

  /**
   * A line `name:rest` defines `name` at the current counter; what follows
   * the colon then has the effect it would have on a line of its own.
   */
  lemma LabelStripped(raw: string, name: string, rest: string,
                      opcodes: map<string, string>, symbols: map<string, Int32>)
    requires BinaryTable(opcodes) && "" !in opcodes
    requires |name| > 0 && forall k :: 0 <= k < |name| ==> IsWordChar(name[k])
    requires Statement(raw) == Some(name + ":" + rest)
    requires IsScannerLine(rest) && LabelOf(Trim(rest)).None?
    ensures Pass1Classify(raw) == Pass1Info(Some(name), Pass1Classify(rest).effect)
    ensures Pass2Classify(opcodes, symbols, raw) == Pass2Classify(opcodes, symbols, rest)
  {
    var line := name + ":" + rest;
    assert ';' !in rest by {
      assert line[|name| + 1..] == rest;
    }
    LabelledStatement(name, rest);
    UnlabelledRest(rest, opcodes, symbols);
    assert Pass1Classify(raw) == Pass1Statement(line);
    assert Pass2Classify(opcodes, symbols, raw) == Pass2Parts(opcodes, symbols, SplitAtWhitespace(Pass2Body(line)));
  }

  /** Both passes find the label of `name:rest` and go on with the trimmed rest. */
  lemma LabelledStatement(name: string, rest: string)
    requires |name| > 0 && forall k :: 0 <= k < |name| ==> IsWordChar(name[k])
    requires IsScannerLine(rest)
    ensures Pass1Statement(name + ":" + rest) == Pass1Info(Some(name), Pass1Effect(Trim(rest)))
    ensures Pass2Body(name + ":" + rest) == Trim(rest)
  {
    var line := name + ":" + rest;
    LabelOfLabelled(name, rest);
    assert line[|name| + 1..] == rest;
    assert Pass1Label(line) == (Some(name), Trim(rest));
    assert IsScannerLine(line) by {
      forall k | 0 <= k < |line| ensures !IsLineTerminator(line[k]) {
        if k < |name| { assert line[k] == name[k]; }
        else if k > |name| { assert line[k] == rest[k - |name| - 1]; }
      }
    }
    LabelTestsAgree(line);
  }

  /** A line without `;` or label is classified through its trimmed text, by either pass. */
  lemma UnlabelledRest(rest: string, opcodes: map<string, string>, symbols: map<string, Int32>)
    requires BinaryTable(opcodes) && "" !in opcodes
    requires ';' !in rest && LabelOf(Trim(rest)).None?
    ensures Pass1Classify(rest) == Pass1Info(None, Pass1Effect(Trim(rest)))
    ensures Pass2Classify(opcodes, symbols, rest) == Pass2Parts(opcodes, symbols, SplitAtWhitespace(Trim(rest)))
  {
    var body := Trim(rest);
    if body == [] {
      assert SplitAtWhitespace(body) == [[]];
      assert Operation([[]]) == [];
      assert MachineCode(opcodes, symbols, [], [[]]) == Success([]);
    } else {
      assert ';' !in body by {
        TrimSubsequence(rest);
      }
      assert Statement(rest) == Some(body);
      assert Pass1Label(body) == (None, body);
      assert Pass2Body(body) == body;
    }
  }

  /** A trimmed string is a slice of the original. */
  lemma TrimSubsequence(s: string)
    ensures exists i, j :: 0 <= i <= j <= |s| && Trim(s) == s[i..j]
  {
    var i := FirstNonBlank(s);
    if i == |s| {
      assert Trim(s) == s[0..0];
    } else {
      assert Trim(s) == s[i..EndNonBlank(s)];
    }
  }

  /** A line holding only `name:` defines the label at the counter and leaves the counter alone. */
  lemma LabelOnlyLine(st: Pass1State, name: string, opcodes: map<string, string>, symbols: map<string, Int32>)
    requires BinaryTable(opcodes) && "" !in opcodes
    requires |name| > 0 && forall k :: 0 <= k < |name| ==> IsWordChar(name[k])
    ensures Pass1Apply(st, Pass1Classify(name + ":")) == st.(symbols := st.symbols[name := st.lc])
    ensures Pass2Classify(opcodes, symbols, name + ":") == Success(Listed)
  {
    var raw := name + ":";
    assert raw == name + ":" + "";
    assert ';' !in raw by {
      assert forall k :: 0 <= k < |name| ==> raw[k] == name[k];
    }
    assert !IsBlank(raw[0]) by {
      assert raw[0] == name[0];
    }
    CleanStatement(raw);
    LabelStripped(raw, name, "", opcodes, symbols);
    assert Trim("") == "";
    assert Pass1Classify("") == Pass1Info(None, Unchanged);
  }

  // ---------------------------------------------------------------------
  // The two passes on one line

  /** A scanner line's statement has no line terminator either. */
  lemma ScannerStatement(raw: string)
    requires IsScannerLine(raw) && Statement(raw).Some?
    ensures IsScannerLine(Statement(raw).value)
  {
    var line := Trim(raw);
    ScannerTrim(raw);
    if ';' in line {
      var cut := line[..IndexOf(line, ';')];
      ScannerTrim(cut);
    }
  }

  lemma ScannerTrim(s: string)
    requires IsScannerLine(s)
    ensures IsScannerLine(Trim(s))
  {
    TrimSubsequence(s);
  }

  /**
   * The bodies both passes read from a statement: Pass 1 and Pass 2 agree on
   * the counter except that Pass 1 advances it over an operation Pass 2 does
   * not know, and on a LOC fault both fail alike.
   */
  lemma EffectsAgree(opcodes: map<string, string>, symbols: map<string, Int32>, body: string)
    requires BinaryTable(opcodes) && "" !in opcodes
    ensures var e, r := Pass1Effect(body), Pass2Parts(opcodes, symbols, SplitAtWhitespace(body));
      && (e.Fails? ==> r == Failure(e.fault))
      && (r.Success? ==> Agree(e, r.value) || (e == Advance && r.value == Listed))
      && (e == Advance && r == Success(Listed) <==>
            body != [] && Operation(SplitAtWhitespace(body)) !in {"LOC", "DATA", "HLT"}
            && Operation(SplitAtWhitespace(body)) !in opcodes)
  {
    if body == [] {
      assert SplitAtWhitespace(body) == [[]];
      assert Operation([[]]) == [];
    }
  }

  /**
   * A line on which both passes move the counter alike: Pass 1 leaves it
   * where Pass 2 only lists the line, sets it where Pass 2 sets it, and
   * advances it where Pass 2 emits a word.
   */
  predicate Agree(e: CounterEffect, i: Pass2Info)
  {
    match e
    case Unchanged => i.Listed?
    case SetTo(n) => i == SetCounter(n)
    case Advance => i.Emits?
    case Fails(_) => false
  }

  /** On a scanner line the two passes agree, except over an operation Pass 2 does not encode. */
  lemma ClassifyAgree(opcodes: map<string, string>, symbols: map<string, Int32>, raw: string)
    requires BinaryTable(opcodes) && "" !in opcodes && IsScannerLine(raw)
    ensures var e, r := Pass1Classify(raw).effect, Pass2Classify(opcodes, symbols, raw);
      && (e.Fails? ==> r == Failure(e.fault))
      && (r.Success? ==> Agree(e, r.value) || (e == Advance && r.value == Listed))
  {
    if Statement(raw).Some? {
      var line := Statement(raw).value;
      ScannerStatement(raw);
      LabelTestsAgree(line);
      var body := Pass1Label(line).1;
      assert Pass2Body(line) == body;
      assert Pass1Classify(raw).effect == Pass1Effect(body);
      EffectsAgree(opcodes, symbols, body);
    }
  }

  // ---------------------------------------------------------------------
  // Words Pass 2 encodes

  /** HLT emits the word 0 whatever its operands. */
  lemma HaltEmitsZero(opcodes: map<string, string>, symbols: map<string, Int32>, parts: seq<string>)
    requires BinaryTable(opcodes) && |parts| >= 1 && Operation(parts) == "HLT"
    ensures Pass2Parts(opcodes, symbols, parts) == Success(Emits(0))
  {
    ZeroFillValue("0", 16);
    assert NumeralValue("0", 2) == 0;
    var code := ZeroFill("0", 16);
    assert MachineCode(opcodes, symbols, "HLT", parts) == Success(code);
    assert Fit16(code) == code;
  }
}
