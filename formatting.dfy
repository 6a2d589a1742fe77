/** Recognisers for the directive-only notations: left indent, right indent, the start and
    the end of an indented block, and the stripping of leading ASCII blanks from a line. */
module Formatting {
  import opened Wrappers
  import opened Strings
  import opened Elements

  /** The block-start clamp the parser is configured with unless told otherwise. */
  const DefaultMaxIndentCount: nat := 20

  const LeftIndentOpen := "［＃"
  const RightIndentOpen := "［＃地から"
  const LineIndentClose := "字上げ］"
  const BlockStartOpen := "［＃ここから"
  const BlockStartClose := "字下げ］"
  const BlockEnd := "［＃ここで字下げ終わり］"

  predicate IsFullWidthDigit(c: char) { '０' <= c <= '９' }

  predicate IsHalfWidthDigit(c: char) { '0' <= c <= '9' }

  /** The digit class `[０-９0-9]` of the directive patterns. */
  predicate IsIndentDigit(c: char) { IsFullWidthDigit(c) || IsHalfWidthDigit(c) }

  /** A non-empty run of directive digits. */
  predicate IsDigitString(s: string)
  {
    |s| > 0 && forall i :: 0 <= i < |s| ==> IsIndentDigit(s[i])
  }

  /** Maps a full-width digit to the half-width digit 0xFEE0 code points below it and
      leaves every other character alone. */
  function NormalizeDigit(c: char): char
  {
    if IsFullWidthDigit(c) then (c as int - 0xFEE0) as char else c
  }

  /** The replacement of every full-width digit in s by its half-width form. */
  function NormalizeDigits(s: string): (r: string)
    ensures |r| == |s|
    ensures forall i :: 0 <= i < |s| ==> r[i] == NormalizeDigit(s[i])
  {
    if s == [] then [] else [NormalizeDigit(s[0])] + NormalizeDigits(s[1..])
  }

  /** The full-width form of a half-width digit string. */
  function ToFullWidth(s: string): (r: string)
    requires forall i :: 0 <= i < |s| ==> IsHalfWidthDigit(s[i])
    ensures |r| == |s|
    ensures forall i :: 0 <= i < |s| ==> IsFullWidthDigit(r[i]) && r[i] as int == s[i] as int + 0xFEE0
  {
    if s == [] then []
    else
      assert IsHalfWidthDigit(s[0]);
      var code := s[0] as int + 0xFEE0;
      [code as char] + ToFullWidth(s[1..])
  }

  /** `parseInt(s, 10)` for a string of half-width digits. */
  function DecimalValue(s: string): nat
    requires forall i :: 0 <= i < |s| ==> IsHalfWidthDigit(s[i])
  {
    if s == [] then 0
    else
      var last := s[|s| - 1];
      assert IsHalfWidthDigit(last);
      10 * DecimalValue(s[..|s| - 1]) + (last as int - '0' as int)
  }

  /** The count a run of directive digits denotes. */
  function CountOf(digits: string): nat
    requires IsDigitString(digits)
  {
    DecimalValue(NormalizeDigits(digits))
  }

  /** The length of the maximal run of directive digits at the start of s. */
  function DigitRun(s: string): (n: nat)
    ensures n <= |s|
    ensures forall i :: 0 <= i < n ==> IsIndentDigit(s[i])
    ensures n < |s| ==> !IsIndentDigit(s[n])
  {
    if |s| > 0 && IsIndentDigit(s[0]) then 1 + DigitRun(s[1..]) else 0
  }

  /** Matches `open <digits> close` at the start of text, where the digit class is
      `[０-９0-9]+`; returns the digits. */
  function MatchNumbered(text: string, open: string, close: string): (r: Option<string>)
    requires |close| > 0 && !IsIndentDigit(close[0])
    ensures r.Some? ==> IsDigitString(r.value) && StartsWith(text, open + r.value + close)
  {
    if !StartsWith(text, open) then None
    else
      var rest := text[|open|..];
      var n := DigitRun(rest);
      if n > 0 && StartsWith(rest[n..], close) then
        assert text[..|open| + n + |close|] == open + rest[..n] + close;
        Some(rest[..n])
      else None
  }

  /** The digit run of a successful match is the one written: no other split of the
      prefix into opener, digits and closer exists. */
  lemma MatchNumberedExact(open: string, digits: string, close: string, rest: string)
    requires |close| > 0 && !IsIndentDigit(close[0])
    requires IsDigitString(digits)
    ensures MatchNumbered(open + digits + close + rest, open, close) == Some(digits)
  {
    var text := open + digits + close + rest;
    assert text[..|open|] == open;
    var tail := text[|open|..];
    assert tail == digits + close + rest;
    assert tail[|digits|] == close[0];
    DigitRunOf(digits, close + rest);
    assert tail[|digits|..] == close + rest;
    assert tail[..|digits|] == digits;
  }

  lemma DigitRunOf(digits: string, after: string)
    requires forall i :: 0 <= i < |digits| ==> IsIndentDigit(digits[i])
    requires |after| > 0 && !IsIndentDigit(after[0])
    ensures DigitRun(digits + after) == |digits|
  {
    var s := digits + after;
    assert forall i :: 0 <= i < |digits| ==> s[i] == digits[i];
    assert s[|digits|] == after[0];
  }

  /** The instruction element a numbered directive produces. */
  function NumberedInstruction(text: string, length: nat, kind: InstructionType, count: nat, startIndex: nat): Match
    requires length <= |text|
  {
    Match(Instruction(text[..length], kind, Some(count), Range(startIndex, startIndex + length)), length)
  }

  /** `parseLeftIndent`: matches `［＃<digits>字上げ］` at the start of text. */
  function ParseLeftIndent(text: string, startIndex: nat): (r: Option<Match>)
    ensures r.Some? ==> |LeftIndentOpen| + |LineIndentClose| < r.value.length <= |text|
    ensures r.Some? ==>
      var len := r.value.length;
      var digits := text[|LeftIndentOpen|..len - |LineIndentClose|];
      && IsDigitString(digits)
      && text[..len] == LeftIndentOpen + digits + LineIndentClose
      && CountOf(digits) > 0
      && r.value.element == Instruction(text[..len], LeftIndent, Some(CountOf(digits)), Range(startIndex, startIndex + len))
  {
    match MatchNumbered(text, LeftIndentOpen, LineIndentClose)
    case None => None
    case Some(digits) =>
      var count := CountOf(digits);
      if count <= 0 then None
      else
        var len := |LeftIndentOpen| + |digits| + |LineIndentClose|;
        assert text[|LeftIndentOpen|..len - |LineIndentClose|] == digits;
        Some(NumberedInstruction(text, len, LeftIndent, count, startIndex))
  }

  /** `parseRightIndent`: matches `［＃地から<digits>字上げ］` at the start of text. */
  function ParseRightIndent(text: string, startIndex: nat): (r: Option<Match>)
    ensures r.Some? ==> |RightIndentOpen| + |LineIndentClose| < r.value.length <= |text|
    ensures r.Some? ==>
      var len := r.value.length;
      var digits := text[|RightIndentOpen|..len - |LineIndentClose|];
      && IsDigitString(digits)
      && text[..len] == RightIndentOpen + digits + LineIndentClose
      && CountOf(digits) > 0
      && r.value.element == Instruction(text[..len], RightIndent, Some(CountOf(digits)), Range(startIndex, startIndex + len))
  {
    match MatchNumbered(text, RightIndentOpen, LineIndentClose)
    case None => None
    case Some(digits) =>
      var count := CountOf(digits);
      if count <= 0 then None
      else
        var len := |RightIndentOpen| + |digits| + |LineIndentClose|;
        assert text[|RightIndentOpen|..len - |LineIndentClose|] == digits;
        Some(NumberedInstruction(text, len, RightIndent, count, startIndex))
  }

  /** `parseBlockIndentStart`: matches `［＃ここから<digits>字下げ］` at the start of text and
      clamps the count to maxIndentCount instead of rejecting large values. */
  function ParseBlockIndentStart(text: string, startIndex: nat, maxIndentCount: nat): (r: Option<Match>)
    ensures r.Some? ==> |BlockStartOpen| + |BlockStartClose| < r.value.length <= |text|
    ensures r.Some? ==>
      var len := r.value.length;
      var digits := text[|BlockStartOpen|..len - |BlockStartClose|];
      && IsDigitString(digits)
      && text[..len] == BlockStartOpen + digits + BlockStartClose
      && CountOf(digits) > 0
      && r.value.element == Instruction(text[..len], IndentStart,
           Some(if CountOf(digits) < maxIndentCount then CountOf(digits) else maxIndentCount),
           Range(startIndex, startIndex + len))
  {
    match MatchNumbered(text, BlockStartOpen, BlockStartClose)
    case None => None
    case Some(digits) =>
      var count := CountOf(digits);
      if count <= 0 then None
      else
        var clamped := if count < maxIndentCount then count else maxIndentCount;
        var len := |BlockStartOpen| + |digits| + |BlockStartClose|;
        assert text[|BlockStartOpen|..len - |BlockStartClose|] == digits;
        Some(NumberedInstruction(text, len, IndentStart, clamped, startIndex))
  }

  /** `parseBlockIndentEnd`: matches the literal `［＃ここで字下げ終わり］`. */
  function ParseBlockIndentEnd(text: string, startIndex: nat): (r: Option<Match>)
    ensures r.Some? <==> StartsWith(text, BlockEnd)
    ensures r.Some? ==> r.value == Match(Instruction(BlockEnd, IndentEnd, None, Range(startIndex, startIndex + 12)), 12)
  {
    if StartsWith(text, BlockEnd) then
      Some(Match(Instruction(BlockEnd, IndentEnd, None, Range(startIndex, startIndex + |BlockEnd|)), |BlockEnd|))
    else None
  }

  /** `preserveLeadingSpaces`: removes the leading run of ASCII spaces and tabs (and nothing
      else: full-width spaces stay). */
  function StripLeadingSpaces(line: string): (r: string)
    ensures |r| <= |line| && r == line[|line| - |r|..]
  {
    if |line| > 0 && (line[0] == ' ' || line[0] == '\t') then StripLeadingSpaces(line[1..]) else line
  }

  // ---------------------------------------------------------------------------------------
  // Properties of the recognisers

  /** A numbered left-indent directive is recognised exactly when its count is not 0, and
      the match covers the directive and nothing after it. */
  lemma LeftIndentExact(digits: string, rest: string, startIndex: nat)
    requires IsDigitString(digits)
    ensures var directive := LeftIndentOpen + digits + LineIndentClose;
      ParseLeftIndent(directive + rest, startIndex) ==
        if CountOf(digits) == 0 then None
        else Some(Match(Instruction(directive, LeftIndent, Some(CountOf(digits)),
                                    Range(startIndex, startIndex + |digits| + 6)), |digits| + 6))
  {
    var directive := LeftIndentOpen + digits + LineIndentClose;
    assert |directive| == |LeftIndentOpen| + |digits| + |LineIndentClose| == |digits| + 6;
    MatchNumberedExact(LeftIndentOpen, digits, LineIndentClose, rest);
    LeftIndentUnfold(directive + rest, digits, startIndex);
    NumberedInstructionOf(directive, rest, LeftIndent, CountOf(digits), startIndex);
  }

  /** The right-indent counterpart of LeftIndentExact. */
  lemma RightIndentExact(digits: string, rest: string, startIndex: nat)
    requires IsDigitString(digits)
    ensures var directive := RightIndentOpen + digits + LineIndentClose;
      ParseRightIndent(directive + rest, startIndex) ==
        if CountOf(digits) == 0 then None
        else Some(Match(Instruction(directive, RightIndent, Some(CountOf(digits)),
                                    Range(startIndex, startIndex + |digits| + 9)), |digits| + 9))
  {
    var directive := RightIndentOpen + digits + LineIndentClose;
    assert |directive| == |RightIndentOpen| + |digits| + |LineIndentClose| == |digits| + 9;
    MatchNumberedExact(RightIndentOpen, digits, LineIndentClose, rest);
    RightIndentUnfold(directive + rest, digits, startIndex);
    NumberedInstructionOf(directive, rest, RightIndent, CountOf(digits), startIndex);
  }

  /** A block start is recognised exactly when its count is not 0; a count above
      maxIndentCount is clamped to it. */
  lemma BlockIndentStartExact(digits: string, rest: string, startIndex: nat, maxIndentCount: nat)
    requires IsDigitString(digits)
    ensures var directive := BlockStartOpen + digits + BlockStartClose;
      var count := CountOf(digits);
      ParseBlockIndentStart(directive + rest, startIndex, maxIndentCount) ==
        if count == 0 then None
        else Some(Match(Instruction(directive, IndentStart,
                                    Some(if count < maxIndentCount then count else maxIndentCount),
                                    Range(startIndex, startIndex + |digits| + 10)), |digits| + 10))
  {
    var directive := BlockStartOpen + digits + BlockStartClose;
    assert |directive| == |BlockStartOpen| + |digits| + |BlockStartClose| == |digits| + 10;
    MatchNumberedExact(BlockStartOpen, digits, BlockStartClose, rest);
    BlockStartUnfold(directive + rest, digits, startIndex, maxIndentCount);
    NumberedInstructionOf(directive, rest, IndentStart, if CountOf(digits) < maxIndentCount then CountOf(digits) else maxIndentCount, startIndex);
  }

  /** The instruction read from a directive at the start of the text is that directive. */
  lemma NumberedInstructionOf(directive: string, rest: string, kind: InstructionType, count: nat, startIndex: nat)
    ensures NumberedInstruction(directive + rest, |directive|, kind, count, startIndex)
      == Match(Instruction(directive, kind, Some(count), Range(startIndex, startIndex + |directive|)), |directive|)
  {
    assert (directive + rest)[..|directive|] == directive;
  }

  lemma LeftIndentUnfold(text: string, digits: string, startIndex: nat)
    requires MatchNumbered(text, LeftIndentOpen, LineIndentClose) == Some(digits)
    ensures |LeftIndentOpen| + |digits| + |LineIndentClose| <= |text|
    ensures ParseLeftIndent(text, startIndex) ==
      if CountOf(digits) == 0 then None
      else Some(NumberedInstruction(text, |LeftIndentOpen| + |digits| + |LineIndentClose|, LeftIndent, CountOf(digits), startIndex))
  {
  }

  lemma RightIndentUnfold(text: string, digits: string, startIndex: nat)
    requires MatchNumbered(text, RightIndentOpen, LineIndentClose) == Some(digits)
    ensures |RightIndentOpen| + |digits| + |LineIndentClose| <= |text|
    ensures ParseRightIndent(text, startIndex) ==
      if CountOf(digits) == 0 then None
      else Some(NumberedInstruction(text, |RightIndentOpen| + |digits| + |LineIndentClose|, RightIndent, CountOf(digits), startIndex))
  {
  }

  lemma BlockStartUnfold(text: string, digits: string, startIndex: nat, maxIndentCount: nat)
    requires MatchNumbered(text, BlockStartOpen, BlockStartClose) == Some(digits)
    ensures |BlockStartOpen| + |digits| + |BlockStartClose| <= |text|
    ensures ParseBlockIndentStart(text, startIndex, maxIndentCount) ==
      if CountOf(digits) == 0 then None
      else Some(NumberedInstruction(text, |BlockStartOpen| + |digits| + |BlockStartClose|, IndentStart, if CountOf(digits) < maxIndentCount then CountOf(digits) else maxIndentCount, startIndex))
  {
  }

  /** A count of 0, however it is written, makes all three numbered recognisers fail. */
  lemma ZeroCountRejected(digits: string, rest: string, startIndex: nat, maxIndentCount: nat)
    requires IsDigitString(digits) && CountOf(digits) == 0
    ensures ParseLeftIndent(LeftIndentOpen + digits + LineIndentClose + rest, startIndex).None?
    ensures ParseRightIndent(RightIndentOpen + digits + LineIndentClose + rest, startIndex).None?
    ensures ParseBlockIndentStart(BlockStartOpen + digits + BlockStartClose + rest, startIndex, maxIndentCount).None?
  {
    LeftIndentExact(digits, rest, startIndex);
    RightIndentExact(digits, rest, startIndex);
    BlockIndentStartExact(digits, rest, startIndex, maxIndentCount);
  }

  /** A sign is not a digit, so a negative count never matches. */
  lemma NegativeCountRejected(rest: string, startIndex: nat, maxIndentCount: nat)
    ensures ParseLeftIndent(LeftIndentOpen + "-" + rest, startIndex).None?
    ensures ParseRightIndent(RightIndentOpen + "-" + rest, startIndex).None?
    ensures ParseBlockIndentStart(BlockStartOpen + "-" + rest, startIndex, maxIndentCount).None?
  {
    var l := LeftIndentOpen + "-" + rest;
    var r := RightIndentOpen + "-" + rest;
    var b := BlockStartOpen + "-" + rest;
    assert l[2] == '-' && r[5] == '-' && b[6] == '-';
  }

  /** Normalising the full-width form of a half-width digit string gives that string back. */
  lemma {:induction false} NormalizeFullWidth(s: string)
    requires forall i :: 0 <= i < |s| ==> IsHalfWidthDigit(s[i])
    ensures NormalizeDigits(ToFullWidth(s)) == s
  {
    var f := ToFullWidth(s);
    forall i | 0 <= i < |s| ensures NormalizeDigits(f)[i] == s[i] {
      assert IsHalfWidthDigit(s[i]);
      assert IsFullWidthDigit(f[i]);
    }
  }

  /** Two digit strings with the same digits, whatever their widths, denote the same count
      and give the same match length in every numbered directive. */
  lemma SameDigitsSameCount(a: string, b: string, rest: string, startIndex: nat)
    requires IsDigitString(a) && IsDigitString(b)
    requires NormalizeDigits(a) == NormalizeDigits(b)
    ensures CountOf(a) == CountOf(b)
    ensures ParseLeftIndent(LeftIndentOpen + a + LineIndentClose + rest, startIndex).Some?
        == ParseLeftIndent(LeftIndentOpen + b + LineIndentClose + rest, startIndex).Some?
    ensures ParseLeftIndent(LeftIndentOpen + a + LineIndentClose + rest, startIndex).Some? ==>
        ParseLeftIndent(LeftIndentOpen + a + LineIndentClose + rest, startIndex).value.element.count
        == ParseLeftIndent(LeftIndentOpen + b + LineIndentClose + rest, startIndex).value.element.count
        && ParseLeftIndent(LeftIndentOpen + a + LineIndentClose + rest, startIndex).value.length
        == ParseLeftIndent(LeftIndentOpen + b + LineIndentClose + rest, startIndex).value.length
  {
    assert |a| == |NormalizeDigits(a)| == |b|;
    LeftIndentExact(a, rest, startIndex);
    LeftIndentExact(b, rest, startIndex);
  }

  /** A half-width count and its full-width spelling denote the same number. */
  lemma FullWidthCount(s: string)
    requires |s| > 0 && forall i :: 0 <= i < |s| ==> IsHalfWidthDigit(s[i])
    ensures IsDigitString(s) && IsDigitString(ToFullWidth(s))
    ensures CountOf(ToFullWidth(s)) == CountOf(s) == DecimalValue(s)
  {
    NormalizeFullWidth(s);
    NormalizeHalfWidth(s);
    var f := ToFullWidth(s);
    assert forall i :: 0 <= i < |f| ==> IsIndentDigit(f[i]);
  }

  /** Half-width digits are left alone by the normalisation. */
  lemma NormalizeHalfWidth(s: string)
    requires forall i :: 0 <= i < |s| ==> IsHalfWidthDigit(s[i])
    ensures NormalizeDigits(s) == s
  {
    assert forall i :: 0 <= i < |s| ==> NormalizeDigit(s[i]) == s[i];
  }

  /** What a successful numbered match says about the opening characters of the text. */
  lemma NumberedShapes(text: string, startIndex: nat, maxIndentCount: nat)
    ensures ParseLeftIndent(text, startIndex).Some? ==> |text| > 2 && IsIndentDigit(text[2])
    ensures ParseRightIndent(text, startIndex).Some? ==> StartsWith(text, RightIndentOpen)
    ensures ParseBlockIndentStart(text, startIndex, maxIndentCount).Some? ==> StartsWith(text, BlockStartOpen)
  {
    LeftIndentShape(text, startIndex);
    RightIndentShape(text, startIndex);
    BlockStartShape(text, startIndex, maxIndentCount);
  }

  lemma LeftIndentShape(text: string, startIndex: nat)
    ensures ParseLeftIndent(text, startIndex).Some? ==> |text| > 2 && IsIndentDigit(text[2])
  {
    var l := ParseLeftIndent(text, startIndex);
    if l.Some? {
      var len := l.value.length;
      var digits := text[|LeftIndentOpen|..len - |LineIndentClose|];
      assert text[..len][2] == (LeftIndentOpen + digits + LineIndentClose)[2] == digits[0];
    }
  }

  lemma RightIndentShape(text: string, startIndex: nat)
    ensures ParseRightIndent(text, startIndex).Some? ==> StartsWith(text, RightIndentOpen)
  {
    var r := ParseRightIndent(text, startIndex);
    if r.Some? {
      var len := r.value.length;
      var digits := text[|RightIndentOpen|..len - |LineIndentClose|];
      assert text[..|RightIndentOpen|] == (RightIndentOpen + digits + LineIndentClose)[..|RightIndentOpen|];
    }
  }

  lemma BlockStartShape(text: string, startIndex: nat, maxIndentCount: nat)
    ensures ParseBlockIndentStart(text, startIndex, maxIndentCount).Some? ==> StartsWith(text, BlockStartOpen)
  {
    var b := ParseBlockIndentStart(text, startIndex, maxIndentCount);
    if b.Some? {
      var len := b.value.length;
      var digits := text[|BlockStartOpen|..len - |BlockStartClose|];
      assert text[..|BlockStartOpen|] == (BlockStartOpen + digits + BlockStartClose)[..|BlockStartOpen|];
    }
  }

  /** At most one instruction recogniser matches at any position, so the order in which
      the scanner tries them decides nothing. */
  lemma InstructionRecognisersDisjoint(text: string, startIndex: nat, maxIndentCount: nat)
    ensures ParseLeftIndent(text, startIndex).Some? ==>
      ParseRightIndent(text, startIndex).None? && ParseBlockIndentStart(text, startIndex, maxIndentCount).None?
      && ParseBlockIndentEnd(text, startIndex).None?
    ensures ParseRightIndent(text, startIndex).Some? ==>
      ParseBlockIndentStart(text, startIndex, maxIndentCount).None? && ParseBlockIndentEnd(text, startIndex).None?
    ensures ParseBlockIndentStart(text, startIndex, maxIndentCount).Some? ==> ParseBlockIndentEnd(text, startIndex).None?
  {
    NumberedShapes(text, startIndex, maxIndentCount);
    OpenerChars(text);
  }

  /** The characters that tell the directive openers apart. */
  lemma OpenerChars(text: string)
    ensures StartsWith(text, RightIndentOpen) ==> text[2] == '地'
    ensures StartsWith(text, BlockStartOpen) ==> text[2] == 'こ' && text[4] == 'か'
    ensures StartsWith(text, BlockEnd) ==> text[2] == 'こ' && text[4] == 'で'
  {
    if StartsWith(text, RightIndentOpen) {
      assert text[2] == text[..|RightIndentOpen|][2];
    }
    if StartsWith(text, BlockStartOpen) {
      assert text[2] == text[..|BlockStartOpen|][2] && text[4] == text[..|BlockStartOpen|][4];
    }
    if StartsWith(text, BlockEnd) {
      assert text[2] == text[..|BlockEnd|][2] && text[4] == text[..|BlockEnd|][4];
    }
  }

  /** A directive that opens with `［＃地から` is never a left indent, and a right indent always
      opens that way. */
  lemma LeftRightIndentSeparated(text: string, startIndex: nat)
    ensures StartsWith(text, RightIndentOpen) ==> ParseLeftIndent(text, startIndex).None?
    ensures ParseRightIndent(text, startIndex).Some? ==> StartsWith(text, RightIndentOpen)
  {
    NumberedShapes(text, startIndex, 0);
    if StartsWith(text, RightIndentOpen) {
      assert text[2] == '地';
    }
  }

  /** What the stripper removes is exactly the maximal leading run of ASCII spaces and tabs:
      the result is a suffix of the line, everything before it is a space or a tab, and it
      does not itself start with one. */
  lemma {:induction false} StripLeadingSpacesShape(line: string)
    ensures var r := StripLeadingSpaces(line);
      && r == line[|line| - |r|..]
      && (forall i :: 0 <= i < |line| - |r| ==> line[i] == ' ' || line[i] == '\t')
      && (|r| > 0 ==> r[0] != ' ' && r[0] != '\t')
    decreases |line|
  {
    if |line| > 0 && (line[0] == ' ' || line[0] == '\t') {
      var t := line[1..];
      StripLeadingSpacesShape(t);
      var r := StripLeadingSpaces(line);
      assert t[|t| - |r|..] == line[|line| - |r|..];
      forall i | 0 < i < |line| - |r| ensures line[i] == ' ' || line[i] == '\t' {
        assert line[i] == t[i - 1];
      }
    }
  }

  /** Stripping leading ASCII blanks a second time changes nothing. */
  lemma StripLeadingSpacesIdempotent(line: string)
    ensures StripLeadingSpaces(StripLeadingSpaces(line)) == StripLeadingSpaces(line)
  {
    StripLeadingSpacesShape(line);
  }

  /** A full-width count is read like the half-width one: `［＃２字上げ］` is a left indent of 2. */
  lemma FullWidthLeftIndentExample()
    ensures ParseLeftIndent("［＃２字上げ］", 0)
      == Some(Match(Instruction("［＃２字上げ］", LeftIndent, Some(2), Range(0, 7)), 7))
  {
    var text := "［＃２字上げ］";
    assert text == LeftIndentOpen + "２" + LineIndentClose + "";
    LeftIndentExact("２", "", 0);
    assert NormalizeDigit('２') == '2';
    assert NormalizeDigits("２") == "2";
    assert "2"[..0] == "";
    assert DecimalValue("2") == 2;
    assert CountOf("２") == 2;
    assert ParseLeftIndent(text, 0).value.element == Instruction(text, LeftIndent, Some(2), Range(0, 7));
  }

  /** `［＃ここから100字下げ］` is clamped to the default maximum of 20. */
  lemma HundredCount()
    ensures IsDigitString("100") && CountOf("100") == 100
  {
    assert NormalizeDigits("100") == "100";
    assert DecimalValue("100") == 100 by {
      assert "100"[..2] == "10";
      assert "10"[..1] == "1";
      assert "1"[..0] == "";
    }
  }

  lemma BlockStartClampExample()
    ensures var directive := BlockStartOpen + "100" + BlockStartClose;
      directive == "［＃ここから100字下げ］"
      && ParseBlockIndentStart(directive, 0, DefaultMaxIndentCount)
        == Some(Match(Instruction(directive, IndentStart, Some(20), Range(0, 13)), 13))
  {
    var directive := BlockStartOpen + "100" + BlockStartClose;
    HundredText();
    assert directive + "" == directive;
    BlockIndentStartExact("100", "", 0, DefaultMaxIndentCount);
    HundredCount();
  }

  lemma HundredText()
    ensures BlockStartOpen + "100" + BlockStartClose == "［＃ここから100字下げ］"
  {
  }

  /** Leading ASCII blanks go, a full-width space stays. */
  lemma StripLeadingSpacesExample()
    ensures StripLeadingSpaces("  　テスト") == "　テスト"
  {
    var line := "  　テスト";
    var once := " 　テスト";
    var twice := "　テスト";
    assert line[1..] == once && once[1..] == twice;
    assert twice[0] == '　';
    assert StripLeadingSpaces(twice) == twice;
    assert StripLeadingSpaces(once) == twice;
  }
}
