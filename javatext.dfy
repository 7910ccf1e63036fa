// The pieces of Java's String and Integer library the assembler relies on,
// each as the function it computes on a `seq<char>`: trimming, splitting at
// whitespace or commas, ASCII upper-casing, `Integer.parseInt` in base 10,
// `Integer.toBinaryString`, `%Ns` padding and `%06o` formatting.
module JavaText {
  import opened Words
  import opened Wrappers

  // ---------------------------------------------------------------------
  // Character classes

  /** `String.trim` removes characters up to and including U+0020. */
  predicate IsBlank(c: char) { c <= ' ' }

  /** The regular-expression class `\s`: space, tab, newline, vertical tab, form feed, carriage return. */
  predicate IsSpace(c: char)
  {
    c == ' ' || c == '\t' || c == '\n' || c as int == 0x0B || c as int == 0x0C || c == '\r'
  }

  /** The regular-expression class `\w`: ASCII letters, digits and underscore. */
  predicate IsWordChar(c: char)
  {
    ('a' <= c <= 'z') || ('A' <= c <= 'Z') || ('0' <= c <= '9') || c == '_'
  }

  /** The characters `.` does not match: the line terminators of `java.util.regex`. */
  predicate IsLineTerminator(c: char)
  {
    c == '\n' || c == '\r' || c as int == 0x85 || c as int == 0x2028 || c as int == 0x2029
  }

  /** A line as `Scanner.nextLine` delivers it: no line terminator inside. */
  predicate IsScannerLine(s: string)
  {
    forall k :: 0 <= k < |s| ==> !IsLineTerminator(s[k])
  }

  lemma SpaceIsBlank(c: char)
    ensures IsSpace(c) ==> IsBlank(c)
  {
  }

  // ---------------------------------------------------------------------
  // trim

  function FirstNonBlank(s: string): (i: nat)
    ensures i <= |s|
    ensures forall k :: 0 <= k < i ==> IsBlank(s[k])
    ensures i < |s| ==> !IsBlank(s[i])
  {
    if s == [] || !IsBlank(s[0]) then 0 else 1 + FirstNonBlank(s[1..])
  }

  function EndNonBlank(s: string): (j: nat)
    ensures j <= |s|
    ensures forall k :: j <= k < |s| ==> IsBlank(s[k])
    ensures j > 0 ==> !IsBlank(s[j - 1])
  {
    if s == [] || !IsBlank(s[|s| - 1]) then |s| else EndNonBlank(s[..|s| - 1])
  }

  /** `String.trim`: the string without its leading and trailing blanks. */
  function Trim(s: string): (r: string)
    ensures |r| <= |s|
    ensures r == [] <==> forall k :: 0 <= k < |s| ==> IsBlank(s[k])
    ensures r != [] ==> !IsBlank(r[0]) && !IsBlank(r[|r| - 1])
  {
    var i := FirstNonBlank(s);
    if i == |s| then []
    else
      var j := EndNonBlank(s);
      assert i < j;
      s[i..j]
  }

  /** Trim is determined by the blank runs around a string that starts and ends with non-blanks. */
  lemma TrimCharacterised(s: string, i: nat, j: nat)
    requires i <= j <= |s|
    requires forall k :: 0 <= k < i ==> IsBlank(s[k])
    requires forall k :: j <= k < |s| ==> IsBlank(s[k])
    requires i < j ==> !IsBlank(s[i]) && !IsBlank(s[j - 1])
    ensures Trim(s) == s[i..j]
  {
    var a := FirstNonBlank(s);
    var b := EndNonBlank(s);
    if i < j {
      assert a == i;
      assert b == j;
    }
  }

  /** A string that starts and ends with non-blanks is its own trim, hence trim is idempotent. */
  lemma TrimOfTrimmed(s: string)
    requires s == [] || (!IsBlank(s[0]) && !IsBlank(s[|s| - 1]))
    ensures Trim(s) == s
  {
    TrimCharacterised(s, 0, |s|);
  }

  lemma TrimIdempotent(s: string)
    ensures Trim(Trim(s)) == Trim(s)
  {
    TrimOfTrimmed(Trim(s));
  }

  // ---------------------------------------------------------------------
  // indexOf, labels

  /** `indexOf(c)`, with |s| standing for -1. */
  function IndexOf(s: string, c: char): (k: nat)
    ensures k <= |s|
    ensures k < |s| ==> s[k] == c
    ensures forall j :: 0 <= j < k ==> s[j] != c
  {
    if s == [] then 0 else if s[0] == c then 0 else 1 + IndexOf(s[1..], c)
  }

  /** The length of the longest prefix of word characters. */
  function WordPrefix(s: string): (k: nat)
    ensures k <= |s|
    ensures forall j :: 0 <= j < k ==> IsWordChar(s[j])
    ensures k < |s| ==> !IsWordChar(s[k])
  {
    if s == [] || !IsWordChar(s[0]) then 0 else 1 + WordPrefix(s[1..])
  }

  /** A match of `^(\w+):` at the start of `s`, giving group 1. */
  function LabelOf(s: string): (r: Option<string>)
    ensures r.Some? ==>
      && 0 < |r.value| < |s| && s[|r.value|] == ':' && s[..|r.value|] == r.value
      && forall j :: 0 <= j < |r.value| ==> IsWordChar(r.value[j])
  {
    var k := WordPrefix(s);
    if 0 < k < |s| && s[k] == ':' then Some(s[..k]) else None
  }

  /** Any non-empty run of word characters followed by a colon is found as the label. */
  lemma LabelOfLabelled(name: string, rest: string)
    requires |name| > 0 && forall j :: 0 <= j < |name| ==> IsWordChar(name[j])
    ensures LabelOf(name + ":" + rest) == Some(name)
  {
    var s := name + ":" + rest;
    var k := WordPrefix(s);
    assert s[|name|] == ':';
    assert forall j :: 0 <= j < |name| ==> IsWordChar(s[j]);
    assert !IsWordChar(s[|name|]);
    assert s[..k] == name;
  }

  /** `s.matches("^(\\w+):.*")`: a label, then only characters `.` matches. */
  predicate MatchesLabelLine(s: string)
  {
    && LabelOf(s).Some?
    && forall k :: |LabelOf(s).value| < k < |s| ==> !IsLineTerminator(s[k])
  }

  /** On a scanner line the whole-line label test agrees with the prefix search, and the first `:` ends the label. */
  lemma LabelTestsAgree(s: string)
    requires IsScannerLine(s)
    ensures MatchesLabelLine(s) <==> LabelOf(s).Some?
    ensures LabelOf(s).Some? ==> IndexOf(s, ':') == |LabelOf(s).value|
  {
    if LabelOf(s).Some? {
      var l := LabelOf(s).value;
      var k := IndexOf(s, ':');
      assert forall j :: 0 <= j < |l| ==> s[j] != ':' by {
        assert forall j :: 0 <= j < |l| ==> IsWordChar(s[j]);
      }
      assert k == |l|;
    }
  }

  // ---------------------------------------------------------------------
  // split("\\s+", 2) and split(",")

  /** The index of the first `\s` character, or |s|. */
  function FirstSpace(s: string): (i: nat)
    ensures i <= |s|
    ensures forall k :: 0 <= k < i ==> !IsSpace(s[k])
    ensures i < |s| ==> IsSpace(s[i])
  {
    if s == [] || IsSpace(s[0]) then 0 else 1 + FirstSpace(s[1..])
  }

  /** The end of the run of `\s` characters starting at `i`. */
  function SpaceRunEnd(s: string, i: nat): (j: nat)
    requires i <= |s|
    ensures i <= j <= |s|
    ensures forall k :: i <= k < j ==> IsSpace(s[k])
    ensures j < |s| ==> !IsSpace(s[j])
    decreases |s| - i
  {
    if i == |s| || !IsSpace(s[i]) then i else SpaceRunEnd(s, i + 1)
  }

  /**
   * `s.split("\\s+", 2)`: the text before the first whitespace run and the
   * text after it, or just `s` when it holds no whitespace.
   */
  function SplitAtWhitespace(s: string): (parts: seq<string>)
    ensures |parts| == 1 || |parts| == 2
    ensures forall k :: 0 <= k < |parts[0]| ==> !IsSpace(parts[0][k])
    ensures |parts| == 1 <==> forall k :: 0 <= k < |s| ==> !IsSpace(s[k])
    ensures |parts| == 1 ==> parts[0] == s
    ensures |parts| == 2 ==> parts[1] == [] || !IsSpace(parts[1][0])
  {
    var i := FirstSpace(s);
    if i == |s| then [s] else [s[..i], s[SpaceRunEnd(s, i)..]]
  }

  /** The two parts and the whitespace run between them make up the string. */
  lemma SplitAtWhitespaceJoins(s: string)
    requires |SplitAtWhitespace(s)| == 2
    ensures var parts := SplitAtWhitespace(s);
      var gap := s[|parts[0]|..|s| - |parts[1]|];
      && |parts[0]| + |parts[1]| < |s|
      && s == parts[0] + gap + parts[1]
      && forall k :: 0 <= k < |gap| ==> IsSpace(gap[k])
  {
    var i := FirstSpace(s);
    var j := SpaceRunEnd(s, i);
    assert s == s[..i] + s[i..j] + s[j..];
  }

  /** Every piece between occurrences of `c`, empty ones included. */
  function SplitOn(s: string, c: char): (pieces: seq<string>)
    ensures |pieces| >= 1
    ensures forall k :: 0 <= k < |pieces| ==> c !in pieces[k]
    decreases |s|
  {
    var k := IndexOf(s, c);
    if k == |s| then [s] else [s[..k]] + SplitOn(s[k + 1..], c)
  }

  function Join(pieces: seq<string>, c: char): string
    requires |pieces| >= 1
  {
    if |pieces| == 1 then pieces[0] else pieces[0] + [c] + Join(pieces[1..], c)
  }

  /** Splitting at `c` and joining again with `c` gives back the string. */
  lemma {:induction false} JoinSplitOn(s: string, c: char)
    ensures Join(SplitOn(s, c), c) == s
    decreases |s|
  {
    var k := IndexOf(s, c);
    if k < |s| {
      var rest := SplitOn(s[k + 1..], c);
      var pieces := [s[..k]] + rest;
      assert SplitOn(s, c) == pieces;
      assert pieces[1..] == rest;
      JoinSplitOn(s[k + 1..], c);
      assert Join(pieces, c) == s[..k] + [c] + s[k + 1..];
      assert s == s[..k] + [c] + s[k + 1..];
    }
  }

  /** Joining pieces free of `c` with `c` and splitting again gives back the pieces. */
  lemma {:induction false} SplitOnJoin(pieces: seq<string>, c: char)
    requires |pieces| >= 1 && forall k :: 0 <= k < |pieces| ==> c !in pieces[k]
    ensures SplitOn(Join(pieces, c), c) == pieces
    decreases |pieces|
  {
    var s := Join(pieces, c);
    var head := pieces[0];
    if |pieces| == 1 {
      assert IndexOf(s, c) == |s|;
    } else {
      var tail := Join(pieces[1..], c);
      assert s == head + [c] + tail;
      assert s[|head|] == c;
      assert forall j :: 0 <= j < |head| ==> s[j] == head[j];
      assert IndexOf(s, c) == |head|;
      assert s[..|head|] == head && s[|head| + 1..] == tail;
      SplitOnJoin(pieces[1..], c);
      assert [head] + pieces[1..] == pieces;
    }
  }

  /** The pieces without the trailing empty ones. */
  function DropTrailingEmpty(p: seq<string>): (r: seq<string>)
    ensures |r| <= |p| && r == p[..|r|]
    ensures r == [] || r[|r| - 1] != []
    ensures forall k :: |r| <= k < |p| ==> p[k] == []
  {
    if p == [] || p[|p| - 1] != [] then p else DropTrailingEmpty(p[..|p| - 1])
  }

  /** `s.split(",")`: just `s` when it has no comma, else the pieces with trailing empty ones removed. */
  function SplitComma(s: string): (r: seq<string>)
    ensures ',' !in s ==> r == [s]
    ensures ',' in s ==> r == DropTrailingEmpty(SplitOn(s, ','))
    ensures forall k :: 0 <= k < |r| ==> ',' !in r[k]
  {
    if ',' !in s then [s] else DropTrailingEmpty(SplitOn(s, ','))
  }

  // ---------------------------------------------------------------------
  // toUpperCase on ASCII letters

  function UpperChar(c: char): (u: char)
    ensures 'a' <= c <= 'z' ==> u as int == c as int - 32
    ensures !('a' <= c <= 'z') ==> u == c
  {
    if 'a' <= c <= 'z' then (c as int - 32) as char else c
  }

  function ToUpper(s: string): (r: string)
    ensures |r| == |s|
    ensures forall k :: 0 <= k < |s| ==> r[k] == UpperChar(s[k])
  {
    if s == [] then [] else [UpperChar(s[0])] + ToUpper(s[1..])
  }

  // ---------------------------------------------------------------------
  // Numerals in bases 2, 8 and 10

  function DigitChar(d: nat): (c: char)
    requires d < 10
    ensures '0' <= c <= '9' && c as int - '0' as int == d
  {
    ('0' as int + d) as char
  }

  predicate IsNumeral(s: string, base: nat)
  {
    forall k :: 0 <= k < |s| ==> '0' <= s[k] && s[k] as int - '0' as int < base
  }

  lemma NumeralConcat(a: string, b: string, base: nat)
    requires IsNumeral(a, base) && IsNumeral(b, base)
    ensures IsNumeral(a + b, base)
  {
    assert forall k :: 0 <= k < |a + b| ==> (a + b)[k] == if k < |a| then a[k] else b[k - |a|];
  }

  /** The value of a string of digits in `base`, most significant first. */
  function NumeralValue(s: string, base: nat): nat
    requires 2 <= base <= 10 && IsNumeral(s, base)
  {
    if s == [] then 0
    else NumeralValue(s[..|s| - 1], base) * base + (s[|s| - 1] as int - '0' as int)
  }

  /** The digits of `n` in `base` with no leading zeros ("0" for zero). */
  function Numeral(n: nat, base: nat): (s: string)
    requires 2 <= base <= 10
    ensures |s| >= 1 && IsNumeral(s, base)
    ensures NumeralValue(s, base) == n
    ensures |s| > 1 ==> s[0] != '0'
    decreases n
  {
    if n < base then [DigitChar(n)]
    else
      var q, d := n / base, n % base;
      assert n == q * base + d && 0 <= d < base by { DivModSplit(n, base); }
      assert 1 <= q < n by { DivDecreases(n, base); }
      var init := Numeral(q, base);
      var s := init + [DigitChar(d)];
      assert s[..|s| - 1] == init;
      s
  }

  function Zeros(k: nat): (z: string)
    ensures |z| == k && forall j :: 0 <= j < k ==> z[j] == '0'
  {
    seq(k, _ => '0')
  }

  /** Leading zeros do not change a numeral's value. */
  lemma {:induction false} ZerosPrefixValue(k: nat, s: string, base: nat)
    requires 2 <= base <= 10 && IsNumeral(s, base)
    ensures IsNumeral(Zeros(k) + s, base)
    ensures NumeralValue(Zeros(k) + s, base) == NumeralValue(s, base)
    decreases |s|
  {
    var t := Zeros(k) + s;
    if s == [] {
      assert t == Zeros(k);
      ZerosValue(k, base);
    } else {
      var s' := s[..|s| - 1];
      ZerosPrefixValue(k, s', base);
      assert t[..|t| - 1] == Zeros(k) + s';
    }
  }

  lemma {:induction false} ZerosValue(k: nat, base: nat)
    requires 2 <= base <= 10
    ensures IsNumeral(Zeros(k), base) && NumeralValue(Zeros(k), base) == 0
  {
    if k > 0 {
      ZerosValue(k - 1, base);
      assert Zeros(k)[..k - 1] == Zeros(k - 1);
    }
  }

  lemma Regroup(x: int, p: int, y: int, d: int)
    ensures (x * p + y) * 2 + d == x * (2 * p) + (y * 2 + d)
  {
  }

  /** A binary numeral is below 2 to the power of its length. */
  lemma {:induction false} BinaryBound(s: string)
    requires IsNumeral(s, 2)
    ensures NumeralValue(s, 2) < Pow2(|s|)
  {
    if s != [] {
      BinaryBound(s[..|s| - 1]);
    }
  }

  /** Concatenating binary numerals shifts the first by the second's length. */
  lemma {:induction false} BinaryAppend(a: string, b: string)
    requires IsNumeral(a, 2) && IsNumeral(b, 2)
    ensures IsNumeral(a + b, 2)
    ensures NumeralValue(a + b, 2) == NumeralValue(a, 2) * Pow2(|b|) + NumeralValue(b, 2)
    decreases |b|
  {
    if b == [] {
      assert a + b == a;
    } else {
      var b' := b[..|b| - 1];
      BinaryAppend(a, b');
      assert (a + b)[..|a + b| - 1] == a + b';
      var d := b[|b| - 1] as int - '0' as int;
      var x, p, y := NumeralValue(a, 2), Pow2(|b'|), NumeralValue(b', 2);
      assert NumeralValue(a + b, 2) == (x * p + y) * 2 + d;
      assert (x * p + y) * 2 + d == x * (2 * p) + (y * 2 + d) by { Regroup(x, p, y, d); }
    }
  }

  /** The first k digits of a binary numeral are its value shifted right by the rest. */
  lemma BinaryPrefix(s: string, k: nat)
    requires IsNumeral(s, 2) && k <= |s|
    ensures IsNumeral(s[..k], 2)
    ensures NumeralValue(s[..k], 2) == NumeralValue(s, 2) / Pow2(|s| - k)
  {
    assert s == s[..k] + s[k..];
    BinaryAppend(s[..k], s[k..]);
    BinaryBound(s[k..]);
    DivModUnique(NumeralValue(s, 2), Pow2(|s| - k), NumeralValue(s[..k], 2), NumeralValue(s[k..], 2));
  }

  /** A binary numeral has at most w digits when its value is below 2^w, and exactly w when it is at least 2^(w-1). */
  lemma {:induction false} BinaryLength(n: nat, w: nat)
    requires w >= 1
    ensures n < Pow2(w) ==> |Numeral(n, 2)| <= w
    ensures Pow2(w - 1) <= n < Pow2(w) ==> |Numeral(n, 2)| == w
    decreases w
  {
    if w >= 2 {
      Pow2Monotone(1, w - 1);
    }
    if n >= 2 {
      if w >= 2 {
        BinaryLength(n / 2, w - 1);
        if n < Pow2(w) {
          assert n / 2 < Pow2(w - 1);
        }
        if Pow2(w - 1) <= n {
          assert Pow2(w - 2) <= n / 2;
        }
      } else {
        assert Pow2(1) == 2;
      }
    }
  }

  // ---------------------------------------------------------------------
  // Integer.parseInt, Integer.toBinaryString, %Ns and %06o

  /**
   * `Integer.parseInt(s)`: an optional sign and at least one decimal digit,
   * with the value inside the range of `int`; anything else is a
   * NumberFormatException, here None.
   */
  function ParseInt(s: string): (r: Option<Int32>)
    ensures r.Some? ==> s != []
  {
    if s == [] then None
    else
      var digits := if s[0] == '-' || s[0] == '+' then s[1..] else s;
      if digits == [] || !IsNumeral(digits, 10) then None
      else
        var v := NumeralValue(digits, 10);
        var n: int := if s[0] == '-' then -(v as int) else v;
        if IsInt32(n) then Some(n) else None
  }

  /** The decimal text of an `int`, as `Integer.toString` writes it. */
  function DecimalText(n: Int32): string
  {
    if n < 0 then "-" + Numeral(-(n as int), 10) else Numeral(n, 10)
  }

  /** Every `int` parses back from its decimal text. */
  lemma ParseDecimalText(n: Int32)
    ensures ParseInt(DecimalText(n)) == Some(n)
  {
    var s := DecimalText(n);
    if n < 0 {
      assert s[1..] == Numeral(-(n as int), 10);
    } else {
      assert s[0] != '-' && s[0] != '+';
    }
  }

  /** The decimal text of an `int` is a non-empty run of digits after an optional minus sign. */
  lemma DecimalTextChars(n: Int32)
    ensures var s := DecimalText(n);
      && s != []
      && (forall k :: 0 <= k < |s| ==> ('0' <= s[k] <= '9') || (k == 0 && s[k] == '-'))
  {
  }

  /** `Integer.toBinaryString`: the binary digits of the unsigned reading of the 32 bits. */
  function ToBinaryString(n: Int32): (s: string)
    ensures IsNumeral(s, 2) && NumeralValue(s, 2) == Unsigned32(n)
  {
    Numeral(Unsigned32(n), 2)
  }

  /** A non-negative value below 2^16 takes at most sixteen binary digits; a negative one takes all 32. */
  lemma ToBinaryStringLength(n: Int32)
    ensures 0 <= n < 0x1_0000 ==> |ToBinaryString(n)| <= 16
    ensures n < 0 ==> |ToBinaryString(n)| == 32
  {
    Pow2Sixteen();
    Pow2ThirtyTwo();
    BinaryLength(Unsigned32(n), 16);
    BinaryLength(Unsigned32(n), 32);
  }

  lemma Pow2ThirtyTwo()
    ensures Pow2(31) == 0x8000_0000 && Pow2(32) == 0x1_0000_0000
  {
    Pow2Sixteen();
    Pow2Add(16, 16);
    Pow2Add(15, 16);
    assert Pow2(15) == 0x8000 by {
      assert Pow2(16) == 2 * Pow2(15);
    }
  }

  /** `String.format("%" + w + "s", s)`: spaces on the left up to width w. */
  function PadLeft(s: string, w: nat): (r: string)
    ensures |r| == if |s| >= w then |s| else w
  {
    if |s| >= w then s else seq(w - |s|, _ => ' ') + s
  }

  /** `.replace(' ', '0')`: every space becomes a zero digit. */
  function SpacesToZeros(s: string): (r: string)
    ensures |r| == |s|
    ensures forall k :: 0 <= k < |s| ==> r[k] == if s[k] == ' ' then '0' else s[k]
  {
    seq(|s|, k requires 0 <= k < |s| => if s[k] == ' ' then '0' else s[k])
  }

  /** The zero-padded binary field the assembler builds: `String.format("%Ns", bin).replace(' ', '0')`. */
  function ZeroFill(bin: string, w: nat): (r: string)
  {
    SpacesToZeros(PadLeft(bin, w))
  }

  /** Zero-filling a binary numeral prefixes zeros and keeps its value. */
  lemma ZeroFillValue(bin: string, w: nat)
    requires IsNumeral(bin, 2)
    ensures IsNumeral(ZeroFill(bin, w), 2)
    ensures NumeralValue(ZeroFill(bin, w), 2) == NumeralValue(bin, 2)
    ensures |ZeroFill(bin, w)| == if |bin| >= w then |bin| else w
  {
    var k := if |bin| >= w then 0 else w - |bin|;
    assert ZeroFill(bin, w) == Zeros(k) + bin;
    ZerosPrefixValue(k, bin, 2);
  }

  /** `String.format("%06o", n)`: octal digits of the unsigned reading, zero-padded to six. */
  function Octal6(n: Int32): (s: string)
    ensures |s| >= 6 && IsNumeral(s, 8)
    ensures NumeralValue(s, 8) == Unsigned32(n)
  {
    var digits := Numeral(Unsigned32(n), 8);
    var k := if |digits| >= 6 then 0 else 6 - |digits|;
    ZerosPrefixValue(k, digits, 8);
    Zeros(k) + digits
  }
}
