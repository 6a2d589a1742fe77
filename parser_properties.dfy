/** Properties of the notation parser: what the scanner emits for ruby lines, where content
    is lost, the line-break markers, and the views the document derives from its elements. */
module ParserProperties {
  import opened Wrappers
  import opened Strings
  import opened Elements
  import Formatting
  import Inline
  import Blocks
  import Passes
  import Parser

  // ---------------------------------------------------------------------------------------
  // Text without brackets

  /** No `［` in s: no formatting directive, heading, image or caption can start there. */
  predicate Unbracketed(s: string)
  {
    forall i :: 0 <= i < |s| ==> s[i] != '［'
  }

  /** A literal found at offset i starts with its first character there. */
  lemma HasAtHead(text: string, i: nat, lit: string)
    requires |lit| > 0 && Inline.HasAt(text, i, lit)
    ensures text[i] == lit[0]
  {
    assert text[i..i + |lit|][0] == text[i];
  }

  /** The lazy bracket search needs a `［＃「` somewhere. */
  lemma NoBracketNoSearch(text: string, closers: seq<string>)
    requires Unbracketed(text)
    ensures Inline.LazyBracket(text, closers).None?
  {
    var r := Inline.LazyBracket(text, closers);
    if r.Some? {
      HasAtHead(text, r.value.0, Inline.BracketOpen);
      assert false;
    }
  }

  /** The four directives open with `［`. */
  lemma DirectivesNeedBracket(rest: string, at: nat, maxIndentCount: nat)
    requires Unbracketed(rest)
    ensures Formatting.ParseLeftIndent(rest, at).None?
    ensures Formatting.ParseRightIndent(rest, at).None?
    ensures Formatting.ParseBlockIndentStart(rest, at, maxIndentCount).None?
    ensures Formatting.ParseBlockIndentEnd(rest, at).None?
  {
    OpenNeedsBracket(rest, Formatting.LeftIndentOpen);
    assert Formatting.MatchNumbered(rest, Formatting.LeftIndentOpen, Formatting.LineIndentClose).None?;
    OpenNeedsBracket(rest, Formatting.RightIndentOpen);
    assert Formatting.MatchNumbered(rest, Formatting.RightIndentOpen, Formatting.LineIndentClose).None?;
    OpenNeedsBracket(rest, Formatting.BlockStartOpen);
    assert Formatting.MatchNumbered(rest, Formatting.BlockStartOpen, Formatting.BlockStartClose).None?;
    OpenNeedsBracket(rest, Formatting.BlockEnd);
  }

  /** Text without `［` does not start with anything that opens with one. */
  lemma OpenNeedsBracket(rest: string, open: string)
    requires Unbracketed(rest) && |open| > 0 && open[0] == '［'
    ensures !StartsWith(rest, open)
  {
    if |open| <= |rest| {
      assert rest[..|open|][0] == rest[0] != open[0];
    }
  }

  /** A directive, a heading, an image or a caption needs a `［`. */
  lemma BracketedAttemptsFail(config: Parser.ParserConfig, rest: string, at: nat, makeId: string -> string)
    requires Unbracketed(rest)
    ensures Parser.Attempt(Parser.LeftIndentNotation, config, rest, at, makeId).None?
    ensures Parser.Attempt(Parser.RightIndentNotation, config, rest, at, makeId).None?
    ensures Parser.Attempt(Parser.BlockStartNotation, config, rest, at, makeId).None?
    ensures Parser.Attempt(Parser.BlockEndNotation, config, rest, at, makeId).None?
    ensures Parser.Attempt(Parser.HeadingNotation, config, rest, at, makeId).None?
    ensures Parser.Attempt(Parser.ImageNotation, config, rest, at, makeId).None?
    ensures Parser.Attempt(Parser.CaptionNotation, config, rest, at, makeId).None?
  {
    DirectivesNeedBracket(rest, at, config.maxIndentCount);
    NoBracketNoSearch(rest, Inline.HeadingClosers);
    NoBracketNoSearch(rest, [Inline.CaptionCloser]);
    if Inline.ParseImage(rest, at).Some? {
      HasAtHead(rest, 0, "［＃");
      assert false;
    }
  }

  /** Stepping one notation through the priority list. */
  lemma FirstMatchAt(ns: seq<Parser.Notation>, j: nat, config: Parser.ParserConfig, rest: string, at: nat,
                     makeId: string -> string)
    requires j < |ns|
    ensures Parser.FirstMatch(ns[j..], config, rest, at, makeId)
      == (var m := Parser.Attempt(ns[j], config, rest, at, makeId);
          if m.Some? then m else Parser.FirstMatch(ns[j + 1..], config, rest, at, makeId))
  {
    assert ns[j..][0] == ns[j];
    assert ns[j..][1..] == ns[j + 1..];
  }

  /** With no `［` ahead, the four directives are skipped. */
  lemma SkipDirectives(config: Parser.ParserConfig, rest: string, at: nat, makeId: string -> string)
    requires Unbracketed(rest)
    ensures Parser.FirstMatch(Parser.Order, config, rest, at, makeId)
      == Parser.FirstMatch(Parser.Order[4..], config, rest, at, makeId)
  {
    var o := Parser.Order;
    BracketedAttemptsFail(config, rest, at, makeId);
    assert o[0..] == o;
    FirstMatchAt(o, 0, config, rest, at, makeId);
    FirstMatchAt(o, 1, config, rest, at, makeId);
    FirstMatchAt(o, 2, config, rest, at, makeId);
    FirstMatchAt(o, 3, config, rest, at, makeId);
  }

  /** With no `［` ahead, heading, image and caption are skipped and plain text decides. */
  lemma SkipBracketed(config: Parser.ParserConfig, rest: string, at: nat, makeId: string -> string)
    requires Unbracketed(rest)
    ensures Parser.FirstMatch(Parser.Order[5..], config, rest, at, makeId) == Inline.ParsePlainText(rest, at)
  {
    var o := Parser.Order;
    BracketedAttemptsFail(config, rest, at, makeId);
    FirstMatchAt(o, 5, config, rest, at, makeId);
    FirstMatchAt(o, 6, config, rest, at, makeId);
    FirstMatchAt(o, 7, config, rest, at, makeId);
    FirstMatchAt(o, 8, config, rest, at, makeId);
    assert o[9..] == [];
  }

  /** Where no `［` follows, the scanner's choice at a position is between ruby and plain
      text only: the four directives, the heading, the image and the caption all fail. */
  lemma UnbracketedChoice(config: Parser.ParserConfig, rest: string, at: nat, makeId: string -> string)
    requires Unbracketed(rest)
    ensures Parser.FirstMatch(Parser.Order, config, rest, at, makeId)
      == (var ruby := Inline.ParseRuby(rest, at, config.enableRuby);
          if ruby.Some? then ruby else Inline.ParsePlainText(rest, at))
  {
    SkipDirectives(config, rest, at, makeId);
    FirstMatchAt(Parser.Order, 4, config, rest, at, makeId);
    SkipBracketed(config, rest, at, makeId);
  }

  // ---------------------------------------------------------------------------------------
  // Lines of single-character ruby

  /** A character of the plain parts of a ruby line: none of `｜［《》` and no line feed. */
  predicate PlainChar(c: char)
  {
    !Inline.IsSpecial(c) && c != '\n'
  }

  predicate PlainString(s: string)
  {
    forall i :: 0 <= i < |s| ==> PlainChar(s[i])
  }

  /** Plain text, then one base character carrying a reading: `<plain><base>《<reading>》`. */
  datatype RubyUnit = RubyUnit(plain: string, base: char, reading: string)

  predicate WellFormedUnit(u: RubyUnit)
  {
    && PlainString(u.plain)
    && Inline.IsBasicRubyBase(u.base) && u.base != '》'
    && |u.reading| > 0
    && (forall i :: 0 <= i < |u.reading| ==> u.reading[i] != '》' && u.reading[i] != '［')
  }

  predicate WellFormedUnits(us: seq<RubyUnit>)
  {
    forall k :: 0 <= k < |us| ==> WellFormedUnit(us[k])
  }

  function UnitText(u: RubyUnit): string
  {
    u.plain + [u.base] + "《" + u.reading + "》"
  }

  /** The written line: the units one after the other, then a plain tail. */
  function UnitsText(us: seq<RubyUnit>, tail: string): string
  {
    if |us| == 0 then tail else UnitText(us[0]) + UnitsText(us[1..], tail)
  }

  /** The elements one unit should give, its offsets counting from at: its plain part as a
      text run (when not empty), then its base with its reading as a ruby. */
  function UnitElements(u: RubyUnit, at: nat): seq<Element>
  {
    var p := |u.plain|;
    (if p == 0 then [] else [Text(u.plain, Range(at, at + p))])
      + [Ruby([u.base], u.reading, Range(at + p, at + p + |u.reading| + 3))]
  }

  /** What a reader should get from the line: the units' elements, then the tail as a last
      text run; the offsets count from at. */
  function UnitsElements(us: seq<RubyUnit>, tail: string, at: nat): seq<Element>
  {
    if |us| == 0 then (if |tail| == 0 then [] else [Text(tail, Range(at, at + |tail|))])
    else UnitElements(us[0], at) + UnitsElements(us[1..], tail, at + |UnitText(us[0])|)
  }

  lemma {:induction false} UnitsTextUnbracketed(us: seq<RubyUnit>, tail: string)
    requires WellFormedUnits(us) && PlainString(tail)
    ensures Unbracketed(UnitsText(us, tail))
    decreases |us|
  {
    if |us| > 0 {
      var u := us[0];
      var more := UnitsText(us[1..], tail);
      UnitsTextUnbracketed(us[1..], tail);
      var t := UnitText(u) + more;
      forall i | 0 <= i < |t| ensures t[i] != '［' {
        if i < |u.plain| {
          assert t[i] == u.plain[i];
        } else if i == |u.plain| {
          assert t[i] == u.base;
        } else if i == |u.plain| + 1 {
          assert t[i] == '《';
        } else if i < |u.plain| + 2 + |u.reading| {
          assert t[i] == u.reading[i - |u.plain| - 2];
        } else if i == |u.plain| + 2 + |u.reading| {
          assert t[i] == '》';
        } else {
          assert t[i] == more[i - |UnitText(u)|];
        }
      }
    }
  }

  /** A suffix of bracket-free text is bracket-free. */
  lemma UnbracketedSuffix(s: string, k: nat)
    requires Unbracketed(s) && k <= |s|
    ensures Unbracketed(s[k..])
  {
    forall i | 0 <= i < |s[k..]| ensures s[k..][i] != '［' {
      assert s[k..][i] == s[k + i];
    }
  }

  /** What follows a known prefix of line[i..]. */
  lemma DropPrefix(line: string, i: nat, a: string, b: string)
    requires i <= |line| && line[i..] == a + b
    ensures i + |a| <= |line| && line[i + |a|..] == b
    ensures Unbracketed(line[i..]) ==> Unbracketed(line[i + |a|..])
  {
    assert line[i + |a|..] == line[i..][|a|..];
    if Unbracketed(line[i..]) {
      UnbracketedSuffix(line[i..], |a|);
    }
  }

  /** A plain part followed by a ruby base is taken whole as one text run. */
  lemma PlainStep(config: Parser.ParserConfig, line: string, i: nat, lineStart: nat, p: string, more: string,
                  makeId: string -> string)
    requires i <= |line| && line[i..] == p + more && Unbracketed(line[i..])
    requires |p| > 0 && PlainString(p)
    requires |more| >= 2 && !Inline.IsSpecial(more[0]) && more[1] == '《'
    ensures i + |p| <= |line|
    ensures Parser.ScanFrom(config, line, i, lineStart, makeId)
      == [Text(p, Range(lineStart + i, lineStart + i + |p|))] + Parser.ScanFrom(config, line, i + |p|, lineStart, makeId)
  {
    var rest := line[i..];
    var at := lineStart + i;
    UnbracketedChoice(config, rest, at, makeId);
    assert rest[0] == p[0];
    assert rest[1] != '《' by {
      if |p| > 1 {
        assert rest[1] == p[1];
      } else {
        assert rest[1] == more[0];
      }
    }
    assert Inline.ParseRuby(rest, at, config.enableRuby).None?;
    var k := Inline.FirstSpecial(rest);
    assert rest[|p| + 1] == '《';
    assert forall j :: 0 <= j <= |p| ==> !Inline.IsSpecial(rest[j]) by {
      forall j | 0 <= j <= |p| ensures !Inline.IsSpecial(rest[j]) {
        if j < |p| {
          assert rest[j] == p[j];
        } else {
          assert rest[j] == more[0];
        }
      }
    }
    assert k == |p| + 1;
    assert rest[..|p|] == p;
  }

  /** A base character with its reading is taken as one ruby. */
  lemma RubyStep(config: Parser.ParserConfig, line: string, j: nat, lineStart: nat, base: char, reading: string,
                 more: string, makeId: string -> string)
    requires config.enableRuby
    requires j <= |line| && line[j..] == [base] + "《" + reading + "》" + more && Unbracketed(line[j..])
    requires Inline.IsBasicRubyBase(base)
    requires |reading| > 0 && forall i :: 0 <= i < |reading| ==> reading[i] != '》'
    ensures j + |reading| + 3 <= |line|
    ensures Parser.ScanFrom(config, line, j, lineStart, makeId)
      == [Ruby([base], reading, Range(lineStart + j, lineStart + j + |reading| + 3))]
         + Parser.ScanFrom(config, line, j + |reading| + 3, lineStart, makeId)
  {
    var rest := line[j..];
    var at := lineStart + j;
    UnbracketedChoice(config, rest, at, makeId);
    assert rest[0] == base;
    Inline.BasicRubyExact(base, reading, more, at);
  }

  /** A plain tail is taken whole as the last text run. */
  lemma TailStep(config: Parser.ParserConfig, line: string, i: nat, lineStart: nat, tail: string,
                 makeId: string -> string)
    requires i <= |line| && line[i..] == tail
    requires |tail| > 0 && PlainString(tail)
    ensures Parser.ScanFrom(config, line, i, lineStart, makeId) == [Text(tail, Range(lineStart + i, lineStart + i + |tail|))]
  {
    var at := lineStart + i;
    assert Unbracketed(tail);
    UnbracketedChoice(config, tail, at, makeId);
    assert tail[0] != '｜';
    if |tail| > 1 {
      assert tail[1] != '《';
    }
    assert Inline.ParseRuby(tail, at, config.enableRuby).None?;
    assert Inline.FirstSpecial(tail) == |tail|;
    assert tail[..|tail|] == tail;
    assert i + |tail| == |line|;
  }

  /** The plain part of a unit, when there is one, is one text run. */
  lemma UnitPlainStep(config: Parser.ParserConfig, line: string, i: nat, lineStart: nat, u: RubyUnit, more: string,
                      makeId: string -> string)
    requires WellFormedUnit(u) && |u.plain| > 0
    requires i <= |line| && line[i..] == UnitText(u) + more && Unbracketed(line[i..])
    ensures i + |u.plain| <= |line|
    ensures Parser.ScanFrom(config, line, i, lineStart, makeId)
      == [Text(u.plain, Range(lineStart + i, lineStart + i + |u.plain|))]
         + Parser.ScanFrom(config, line, i + |u.plain|, lineStart, makeId)
  {
    var ruby := [u.base] + "《" + u.reading + "》" + more;
    assert UnitText(u) + more == u.plain + ruby;
    PlainStep(config, line, i, lineStart, u.plain, ruby, makeId);
  }

  /** The base of a unit and its reading are one ruby. */
  lemma UnitRubyStep(config: Parser.ParserConfig, line: string, i: nat, lineStart: nat, u: RubyUnit, more: string,
                     makeId: string -> string)
    requires config.enableRuby && WellFormedUnit(u)
    requires i <= |line| && line[i..] == UnitText(u) + more && Unbracketed(line[i..])
    ensures i + |UnitText(u)| <= |line|
    ensures Parser.ScanFrom(config, line, i + |u.plain|, lineStart, makeId)
      == [Ruby([u.base], u.reading, Range(lineStart + i + |u.plain|, lineStart + i + |u.plain| + |u.reading| + 3))]
         + Parser.ScanFrom(config, line, i + |UnitText(u)|, lineStart, makeId)
  {
    var ruby := [u.base] + "《" + u.reading + "》" + more;
    assert UnitText(u) + more == u.plain + ruby;
    DropPrefix(line, i, u.plain, ruby);
    RubyStep(config, line, i + |u.plain|, lineStart, u.base, u.reading, more, makeId);
  }

  /** One unit of a ruby line scans to its plain run (if any) and its ruby. */
  lemma UnitStep(config: Parser.ParserConfig, line: string, i: nat, lineStart: nat, u: RubyUnit, more: string,
                 makeId: string -> string)
    requires config.enableRuby && WellFormedUnit(u)
    requires i <= |line| && line[i..] == UnitText(u) + more && Unbracketed(line[i..])
    ensures i + |UnitText(u)| <= |line|
    ensures Parser.ScanFrom(config, line, i, lineStart, makeId)
      == UnitElements(u, lineStart + i) + Parser.ScanFrom(config, line, i + |UnitText(u)|, lineStart, makeId)
  {
    UnitRubyStep(config, line, i, lineStart, u, more, makeId);
    var at := lineStart + i;
    var r := [Ruby([u.base], u.reading, Range(at + |u.plain|, at + |u.plain| + |u.reading| + 3))];
    if |u.plain| > 0 {
      UnitPlainStep(config, line, i, lineStart, u, more, makeId);
      var t := [Text(u.plain, Range(at, at + |u.plain|))];
      ElementsAssoc(t, r, Parser.ScanFrom(config, line, i + |UnitText(u)|, lineStart, makeId));
    } else {
      assert UnitElements(u, at) == r;
    }
  }

  lemma ElementsAssoc(a: seq<Element>, b: seq<Element>, c: seq<Element>)
    ensures a + (b + c) == (a + b) + c
  {
  }

  /** A line written as ruby units and a plain tail scans to exactly the units' elements,
      whatever the other switches say, as long as ruby is on. */
  lemma {:induction false} ScanUnits(config: Parser.ParserConfig, line: string, i: nat, lineStart: nat,
                                     us: seq<RubyUnit>, tail: string, makeId: string -> string)
    requires config.enableRuby
    requires i <= |line| && line[i..] == UnitsText(us, tail)
    requires WellFormedUnits(us) && PlainString(tail)
    ensures Parser.ScanFrom(config, line, i, lineStart, makeId) == UnitsElements(us, tail, lineStart + i)
    decreases |us|
  {
    if |us| == 0 {
      if |tail| == 0 {
        assert i == |line|;
      } else {
        TailStep(config, line, i, lineStart, tail, makeId);
      }
    } else {
      var u := us[0];
      var more := UnitsText(us[1..], tail);
      UnitsTextUnbracketed(us, tail);
      assert WellFormedUnit(u);
      UnitStep(config, line, i, lineStart, u, more, makeId);
      var k := i + |UnitText(u)|;
      DropPrefix(line, i, UnitText(u), more);
      assert WellFormedUnits(us[1..]) by {
        forall m | 0 <= m < |us[1..]| ensures WellFormedUnit(us[1..][m]) {
          assert us[1..][m] == us[m + 1];
        }
      }
      ScanUnits(config, line, k, lineStart, us[1..], tail, makeId);
    }
  }

  /** What a reader sees of one element: a ruby's base, a text run's content unless it is a
      line-break marker, and nothing of any other element. */
  function Seen(e: Element): string
  {
    if e.Ruby? then e.text else if e.Text? && !IsNewlineMarker(e) then e.content else []
  }

  /** The text a reader sees of a run of elements, readings left out. */
  function Visible(es: seq<Element>): string
  {
    if |es| == 0 then [] else Seen(es[0]) + Visible(es[1..])
  }

  /** The written line with every `《reading》` taken out. */
  function Stripped(us: seq<RubyUnit>, tail: string): string
  {
    if |us| == 0 then tail else us[0].plain + [us[0].base] + Stripped(us[1..], tail)
  }

  lemma {:induction false} VisibleAppend(a: seq<Element>, b: seq<Element>)
    ensures Visible(a + b) == Visible(a) + Visible(b)
    decreases |a|
  {
    if |a| > 0 {
      assert (a + b)[0] == a[0];
      assert (a + b)[1..] == a[1..] + b;
      VisibleAppend(a[1..], b);
      assert Visible(a + b) == Seen(a[0]) + (Visible(a[1..]) + Visible(b));
    } else {
      assert a + b == b;
    }
  }

  /** A plain string is never the line-break marker's content. */
  lemma PlainNotNewline(s: string)
    requires PlainString(s) && |s| > 0
    ensures s != "\n"
  {
    assert PlainChar(s[0]);
  }

  /** One unit shows its plain part and its base. */
  lemma UnitVisible(u: RubyUnit, at: nat)
    requires WellFormedUnit(u)
    ensures Visible(UnitElements(u, at)) == u.plain + [u.base]
  {
    var p := |u.plain|;
    var r := [Ruby([u.base], u.reading, Range(at + p, at + p + |u.reading| + 3))];
    assert Visible(r) == [u.base];
    if p > 0 {
      PlainNotNewline(u.plain);
      var t := [Text(u.plain, Range(at, at + p))];
      assert Visible(t) == u.plain;
      VisibleAppend(t, r);
    } else {
      assert UnitElements(u, at) == r;
    }
  }

  /** The elements of a ruby line show the line without its readings. */
  lemma {:induction false} UnitsVisible(us: seq<RubyUnit>, tail: string, at: nat)
    requires WellFormedUnits(us) && PlainString(tail)
    ensures Visible(UnitsElements(us, tail, at)) == Stripped(us, tail)
    decreases |us|
  {
    if |us| == 0 {
      if |tail| > 0 {
        PlainNotNewline(tail);
        assert Visible([Text(tail, Range(at, at + |tail|))]) == tail;
      }
    } else {
      assert WellFormedUnit(us[0]);
      assert WellFormedUnits(us[1..]) by {
        forall m | 0 <= m < |us[1..]| ensures WellFormedUnit(us[1..][m]) {
          assert us[1..][m] == us[m + 1];
        }
      }
      var next := at + |UnitText(us[0])|;
      UnitsVisible(us[1..], tail, next);
      UnitVisible(us[0], at);
      VisibleAppend(UnitElements(us[0], at), UnitsElements(us[1..], tail, next));
    }
  }

  /** A line of ruby units scans to elements that show the line without its readings. */
  lemma RubyLineVisible(config: Parser.ParserConfig, line: string, lineStart: nat, us: seq<RubyUnit>, tail: string,
                        makeId: string -> string)
    requires config.enableRuby && line == UnitsText(us, tail)
    requires WellFormedUnits(us) && PlainString(tail)
    ensures Visible(Parser.ScanFrom(config, line, 0, lineStart, makeId)) == Stripped(us, tail)
  {
    ScanUnits(config, line, 0, lineStart, us, tail, makeId);
    UnitsVisible(us, tail, lineStart);
  }

  const SchoolLine := "学校《がっこう》で勉強する"
  const SchoolUnits := [RubyUnit("学", '校', "がっこう")]

  const CatLine := "私《わたし》は猫《ねこ》である"
  const CatUnits := [RubyUnit("", '私', "わたし"), RubyUnit("は", '猫', "ねこ")]

  const BookLine := "本《ほん》と雑誌《ざっし》を読《よ》む"
  const BookUnits := [RubyUnit("", '本', "ほん"), RubyUnit("と雑", '誌', "ざっし"), RubyUnit("を", '読', "よ")]

  const TripLine := "東京《とうきょう》から大阪《おおさか》まで"
  const TripUnits := [RubyUnit("東", '京', "とうきょう"), RubyUnit("から大", '阪', "おおさか")]

  // The test sentences as ruby units.

  lemma SchoolWellFormed()
    ensures WellFormedUnits(SchoolUnits) && PlainString("で勉強する")
  {
    assert PlainString("学");
  }

  lemma SchoolWritten()
    ensures SchoolLine[0..] == UnitsText(SchoolUnits, "で勉強する")
  {
    assert SchoolLine[0..] == SchoolLine;
  }

  lemma SchoolElements(lineStart: nat)
    ensures UnitsElements(SchoolUnits, "で勉強する", lineStart + 0)
      == [Text("学", Range(lineStart, lineStart + 1)),
          Ruby("校", "がっこう", Range(lineStart + 1, lineStart + 8)),
          Text("で勉強する", Range(lineStart + 8, lineStart + 13))]
  {
  }

  lemma CatWellFormed()
    ensures WellFormedUnits(CatUnits) && PlainString("である")
  {
    assert PlainString("は");
  }

  lemma CatWritten()
    ensures CatLine == UnitsText(CatUnits, "である")
  {
  }

  lemma CatStripped()
    ensures Stripped(CatUnits, "である") == "私は猫である"
  {
  }

  lemma BookWellFormed()
    ensures WellFormedUnits(BookUnits) && PlainString("む")
  {
    assert PlainString("と雑") && PlainString("を");
  }

  lemma BookWritten()
    ensures BookLine == UnitsText(BookUnits, "む")
  {
  }

  lemma BookStripped()
    ensures Stripped(BookUnits, "む") == "本と雑誌を読む"
  {
  }

  lemma TripWellFormed()
    ensures WellFormedUnits(TripUnits) && PlainString("まで")
  {
    assert PlainString("東") && PlainString("から大");
  }

  lemma TripWritten()
    ensures TripLine == UnitsText(TripUnits, "まで")
  {
  }

  lemma TripStripped()
    ensures Stripped(TripUnits, "まで") == "東京から大阪まで"
  {
  }

  lemma SchoolScan(config: Parser.ParserConfig, text: string, lineStart: nat, makeId: string -> string)
    requires config.enableRuby && text == SchoolLine
    ensures Parser.ScanFrom(config, text, 0, lineStart, makeId)
      == [Text("学", Range(lineStart, lineStart + 1)),
          Ruby("校", "がっこう", Range(lineStart + 1, lineStart + 8)),
          Text("で勉強する", Range(lineStart + 8, lineStart + 13))]
  {
    SchoolWellFormed();
    SchoolWritten();
    SchoolElements(lineStart);
    ScanUnits(config, text, 0, lineStart, SchoolUnits, "で勉強する", makeId);
  }

  lemma CatElements()
    ensures UnitsElements(CatUnits, "である", 0)
      == [Ruby("私", "わたし", Range(0, 6)), Text("は", Range(6, 7)), Ruby("猫", "ねこ", Range(7, 12)),
          Text("である", Range(12, 15))]
  {
  }

  lemma BookElements()
    ensures UnitsElements(BookUnits, "む", 0)
      == [Ruby("本", "ほん", Range(0, 5)), Text("と雑", Range(5, 7)), Ruby("誌", "ざっし", Range(7, 13)),
          Text("を", Range(13, 14)), Ruby("読", "よ", Range(14, 18)), Text("む", Range(18, 19))]
  {
  }

  lemma TripElements()
    ensures UnitsElements(TripUnits, "まで", 0)
      == [Text("東", Range(0, 1)), Ruby("京", "とうきょう", Range(1, 9)), Text("から大", Range(9, 12)),
          Ruby("阪", "おおさか", Range(12, 19)), Text("まで", Range(19, 21))]
  {
  }

  // ---------------------------------------------------------------------------------------
  // Whole documents of one line

  /** A line that neither starts nor ends with white space is processed as it is, whether
      leading spaces are preserved or the line is trimmed. */
  lemma ProcessedUnchanged(config: Parser.ParserConfig, line: string)
    requires |line| > 0 && !IsWhitespace(line[0]) && !IsWhitespace(line[|line| - 1])
    ensures Parser.Processed(config, line) == line
  {
    assert LeadingWhitespace(line) == 0;
    assert TrimStart(line) == line;
    assert line[..|line|] == line;
  }

  /** A text run that opens with a character other than white space is never dropped. */
  lemma KeptText(content: string, range: Range)
    requires |content| > 0 && !IsWhitespace(content[0])
    ensures !Passes.Droppable(Text(content, range))
  {
    TrimEmptyIffBlank(content);
  }

  /** A line the passes leave alone: it holds no line feed, it neither starts nor ends with
      white space, and its scan followed by the line's break marker holds no instruction,
      nothing the cleaner drops and no two runs the cleaner joins. */
  predicate LeftAlone(line: string, scanned: seq<Element>)
  {
    && |line| > 0 && NoLineFeed(line) && !IsWhitespace(line[0]) && !IsWhitespace(line[|line| - 1])
    && (forall i :: 0 <= i < |scanned| ==> !scanned[i].Instruction? && !Passes.Droppable(scanned[i]))
    && Passes.Separated(scanned + [Text("\n", Range(|line|, |line| + 1))])
  }

  /** A one-line text whose scan holds no instruction, nothing the cleaner drops and no runs
      it joins comes out of the whole parse as that scan followed by the line's break marker:
      the block and merge passes and the cleanup change nothing. */
  lemma OneLineDocument(config: Parser.ParserConfig, line: string, filename: string,
                        info: Option<Parser.EncodingInfo>, makeId: string -> string, scanned: seq<Element>)
    requires LeftAlone(line, scanned) && Parser.ScanFrom(config, line, 0, 0, makeId) == scanned
    ensures Parser.DocumentOf(config, line, filename, info, makeId).elements
      == scanned + [Text("\n", Range(|line|, |line| + 1))]
  {
    var marker := Text("\n", Range(|line|, |line| + 1));
    var es := scanned + [marker];
    SplitSingle(line);
    ProcessedUnchanged(config, line);
    Parser.ScanLinesStep(config, [line], 0, 0, makeId);
    assert Parser.ScanLines(config, [line], 0, 0, makeId) == es + [];
    assert es + [] == es;
    assert forall i :: 0 <= i < |es| ==> !es[i].Instruction? && !Passes.Droppable(es[i]) by {
      forall i | 0 <= i < |es| ensures !es[i].Instruction? && !Passes.Droppable(es[i]) {
        if i < |scanned| {
          assert es[i] == scanned[i];
        }
      }
    }
    if config.enableTextFormatting {
      Blocks.ProcessInstructionFree(es);
      Passes.NoDirectivesUnchanged(es);
    }
    Passes.CleanupUnchanged(es);
  }

  /** The basic ruby test: the whole parse of `学校《がっこう》で勉強する` is 学, the ruby
      校/がっこう, で勉強する and the line's break marker, with their ranges. */
  lemma SchoolExample(config: Parser.ParserConfig, text: string, filename: string, info: Option<Parser.EncodingInfo>,
                      makeId: string -> string)
    requires config.enableRuby && text == SchoolLine
    ensures Parser.DocumentOf(config, text, filename, info, makeId).elements
      == [Text("学", Range(0, 1)), Ruby("校", "がっこう", Range(1, 8)), Text("で勉強する", Range(8, 13)),
          Text("\n", Range(13, 14))]
  {
    var scanned := [Text("学", Range(0, 1)), Ruby("校", "がっこう", Range(1, 8)), Text("で勉強する", Range(8, 13))];
    SchoolScanAtStart(config, text, makeId);
    SchoolClean(text);
    OneLineDocument(config, text, filename, info, makeId, scanned);
    SchoolMarked();
  }

  lemma SchoolScanAtStart(config: Parser.ParserConfig, text: string, makeId: string -> string)
    requires config.enableRuby && text == SchoolLine
    ensures Parser.ScanFrom(config, text, 0, 0, makeId)
      == [Text("学", Range(0, 1)), Ruby("校", "がっこう", Range(1, 8)), Text("で勉強する", Range(8, 13))]
  {
    SchoolScan(config, text, 0, makeId);
  }

  lemma SchoolMarked()
    ensures [Text("学", Range(0, 1)), Ruby("校", "がっこう", Range(1, 8)), Text("で勉強する", Range(8, 13))]
        + [Text("\n", Range(13, 14))]
      == [Text("学", Range(0, 1)), Ruby("校", "がっこう", Range(1, 8)), Text("で勉強する", Range(8, 13)),
          Text("\n", Range(13, 14))]
  {
  }

  lemma SchoolLineFacts()
    ensures |SchoolLine| == 13 && NoLineFeed(SchoolLine)
    ensures !IsWhitespace(SchoolLine[0]) && !IsWhitespace(SchoolLine[12])
  {
    LineFacts(SchoolLine);
  }

  lemma SchoolClean(text: string)
    requires text == SchoolLine
    ensures LeftAlone(text, [Text("学", Range(0, 1)), Ruby("校", "がっこう", Range(1, 8)), Text("で勉強する", Range(8, 13))])
  {
    var scanned := [Text("学", Range(0, 1)), Ruby("校", "がっこう", Range(1, 8)), Text("で勉強する", Range(8, 13))];
    KeptText("学", Range(0, 1));
    KeptText("で勉強する", Range(8, 13));
    SchoolLineFacts();
    SeparatedLine(scanned, Range(13, 14));
  }

  /** The three sentences of the ruby-preservation test: once the line-break markers are
      left aside, the bases and text runs of the whole parse give each sentence with its
      readings taken out. */
  lemma RubyPreservationExamples(config: Parser.ParserConfig, text: string, filename: string,
                                 info: Option<Parser.EncodingInfo>, makeId: string -> string)
    requires config.enableRuby && (text == CatLine || text == BookLine || text == TripLine)
    ensures text == CatLine ==> Visible(Parser.DocumentOf(config, text, filename, info, makeId).elements) == "私は猫である"
    ensures text == BookLine ==> Visible(Parser.DocumentOf(config, text, filename, info, makeId).elements) == "本と雑誌を読む"
    ensures text == TripLine ==> Visible(Parser.DocumentOf(config, text, filename, info, makeId).elements) == "東京から大阪まで"
  {
    if text == CatLine {
      CatWellFormed();
      CatWritten();
      CatStripped();
      CatClean();
      RubyLineDocument(config, text, filename, info, makeId, CatUnits, "である");
    } else if text == BookLine {
      BookWellFormed();
      BookWritten();
      BookStripped();
      BookClean();
      RubyLineDocument(config, text, filename, info, makeId, BookUnits, "む");
    } else {
      TripWellFormed();
      TripWritten();
      TripStripped();
      TripClean();
      RubyLineDocument(config, text, filename, info, makeId, TripUnits, "まで");
    }
  }

  /** A one-line text of ruby units whose scan the passes leave alone reads, once the
      line-break marker is left aside, as the units with their readings taken out. */
  lemma RubyLineDocument(config: Parser.ParserConfig, text: string, filename: string,
                         info: Option<Parser.EncodingInfo>, makeId: string -> string,
                         us: seq<RubyUnit>, tail: string)
    requires config.enableRuby && text == UnitsText(us, tail)
    requires WellFormedUnits(us) && PlainString(tail)
    requires LeftAlone(text, UnitsElements(us, tail, 0))
    ensures Visible(Parser.DocumentOf(config, text, filename, info, makeId).elements) == Stripped(us, tail)
  {
    var scanned := UnitsElements(us, tail, 0);
    ScanUnits(config, text, 0, 0, us, tail, makeId);
    RubyLineVisible(config, text, 0, us, tail, makeId);
    OneLineDocument(config, text, filename, info, makeId, scanned);
    VisibleAppend(scanned, [Text("\n", Range(|text|, |text| + 1))]);
  }

  lemma CatLineFacts()
    ensures |CatLine| == 15 && NoLineFeed(CatLine)
    ensures !IsWhitespace(CatLine[0]) && !IsWhitespace(CatLine[14])
  {
    LineFacts(CatLine);
  }

  lemma CatClean()
    ensures LeftAlone(CatLine, UnitsElements(CatUnits, "である", 0))
  {
    CatKinds();
    CatSpacing();
    CatLineFacts();
    CatElements();
    SeparatedLine(UnitsElements(CatUnits, "である", 0), Range(15, 16));
  }

  lemma CatKinds()
    ensures var scanned := UnitsElements(CatUnits, "である", 0);
      forall i :: 0 <= i < |scanned| ==> !scanned[i].Instruction? && !Passes.Droppable(scanned[i])
  {
    CatElements();
    KeptText("は", Range(6, 7));
    KeptText("である", Range(12, 15));
  }

  lemma CatSpacing()
    ensures var scanned := UnitsElements(CatUnits, "である", 0);
      && (forall i :: 0 <= i < |scanned| - 1 ==> !(scanned[i].Text? && scanned[i + 1].Text?))
      && (|scanned| > 0 && scanned[|scanned| - 1].Text? ==> scanned[|scanned| - 1].content != "\n")
  {
    CatElements();
  }


  lemma BookLineFacts()
    ensures |BookLine| == 19 && NoLineFeed(BookLine)
    ensures !IsWhitespace(BookLine[0]) && !IsWhitespace(BookLine[18])
  {
    LineFacts(BookLine);
  }

  lemma BookClean()
    ensures LeftAlone(BookLine, UnitsElements(BookUnits, "む", 0))
  {
    BookKinds();
    BookSpacing();
    BookLineFacts();
    BookElements();
    SeparatedLine(UnitsElements(BookUnits, "む", 0), Range(19, 20));
  }

  lemma BookKinds()
    ensures var scanned := UnitsElements(BookUnits, "む", 0);
      forall i :: 0 <= i < |scanned| ==> !scanned[i].Instruction? && !Passes.Droppable(scanned[i])
  {
    BookElements();
    KeptText("と雑", Range(5, 7));
    KeptText("を", Range(13, 14));
    KeptText("む", Range(18, 19));
  }

  lemma BookSpacing()
    ensures var scanned := UnitsElements(BookUnits, "む", 0);
      && (forall i :: 0 <= i < |scanned| - 1 ==> !(scanned[i].Text? && scanned[i + 1].Text?))
      && (|scanned| > 0 && scanned[|scanned| - 1].Text? ==> scanned[|scanned| - 1].content != "\n")
  {
    BookElements();
  }


  lemma TripLineFacts()
    ensures |TripLine| == 21 && NoLineFeed(TripLine)
    ensures !IsWhitespace(TripLine[0]) && !IsWhitespace(TripLine[20])
  {
    LineFacts(TripLine);
  }

  lemma TripClean()
    ensures LeftAlone(TripLine, UnitsElements(TripUnits, "まで", 0))
  {
    TripKinds();
    TripSpacing();
    TripLineFacts();
    TripElements();
    SeparatedLine(UnitsElements(TripUnits, "まで", 0), Range(21, 22));
  }

  lemma TripKinds()
    ensures var scanned := UnitsElements(TripUnits, "まで", 0);
      forall i :: 0 <= i < |scanned| ==> !scanned[i].Instruction? && !Passes.Droppable(scanned[i])
  {
    TripElements();
    KeptText("東", Range(0, 1));
    KeptText("から大", Range(9, 12));
    KeptText("まで", Range(19, 21));
  }

  lemma TripSpacing()
    ensures var scanned := UnitsElements(TripUnits, "まで", 0);
      && (forall i :: 0 <= i < |scanned| - 1 ==> !(scanned[i].Text? && scanned[i + 1].Text?))
      && (|scanned| > 0 && scanned[|scanned| - 1].Text? ==> scanned[|scanned| - 1].content != "\n")
  {
    TripElements();
  }


  /** The line facts `LeftAlone` needs, for a line of characters other than white space. */
  lemma LineFacts(line: string)
    requires |line| > 0 && forall i :: 0 <= i < |line| ==> !IsWhitespace(line[i])
    ensures NoLineFeed(line) && !IsWhitespace(line[0]) && !IsWhitespace(line[|line| - 1])
  {
  }

  /** A scan whose neighbours are never two text runs, except a last run that is not a lone
      line break, stays separated once the break marker is appended. */
  lemma SeparatedLine(scanned: seq<Element>, r: Range)
    requires forall i :: 0 <= i < |scanned| - 1 ==> !(scanned[i].Text? && scanned[i + 1].Text?)
    requires |scanned| > 0 && scanned[|scanned| - 1].Text? ==> scanned[|scanned| - 1].content != "\n"
    ensures Passes.Separated(scanned + [Text("\n", r)])
  {
    var es := scanned + [Text("\n", r)];
    forall i | 0 <= i < |es| - 1 && es[i].Text? && es[i + 1].Text?
      ensures !Passes.Joinable(es[i].content, es[i + 1].content)
    {
      assert es[i] == scanned[i];
      assert es[i + 1] == Text("\n", r);
    }
  }

  // ---------------------------------------------------------------------------------------
  // Content the scanner loses

  /** A `《` or `》` that does not open a ruby is one text run of its own. */
  lemma BracketStep(config: Parser.ParserConfig, line: string, i: nat, lineStart: nat, c: char, more: string,
                    makeId: string -> string)
    requires i <= |line| && line[i..] == [c] + more && Unbracketed(line[i..])
    requires (c == '《' || c == '》') && (|more| == 0 || more[0] != '《')
    ensures i + 1 <= |line|
    ensures Parser.ScanFrom(config, line, i, lineStart, makeId)
      == [Text([c], Range(lineStart + i, lineStart + i + 1))] + Parser.ScanFrom(config, line, i + 1, lineStart, makeId)
  {
    var rest := line[i..];
    UnbracketedChoice(config, rest, lineStart + i, makeId);
    assert rest[0] == c;
    if |rest| > 1 {
      assert rest[1] == more[0];
    }
    assert Inline.ParseRuby(rest, lineStart + i, config.enableRuby).None?;
    assert Inline.FirstSpecial(rest) == 0;
    assert rest[..1] == [c];
  }

  /** The one character in front of an empty reading `《》` is lost: ruby needs a reading,
      and plain text will not emit a lone character before `《`, so the scanner steps over
      it and emits only the two brackets. */
  lemma EmptyReadingDropsBase(config: Parser.ParserConfig, line: string, i: nat, lineStart: nat, c: char,
                              makeId: string -> string)
    requires i <= |line| && line[i..] == [c] + "《》" && !Inline.IsSpecial(c)
    ensures Parser.ScanFrom(config, line, i, lineStart, makeId)
      == [Text("《", Range(lineStart + i + 1, lineStart + i + 2)), Text("》", Range(lineStart + i + 2, lineStart + i + 3))]
  {
    var rest := line[i..];
    assert Unbracketed(rest);
    UnbracketedChoice(config, rest, lineStart + i, makeId);
    assert rest[0] == c && rest[1] == '《' && rest[2] == '》';
    assert IndexOf(rest, '》', 2) == 2;
    assert Inline.ParseRuby(rest, lineStart + i, config.enableRuby).None?;
    assert Inline.FirstSpecial(rest) == 1;
    assert Inline.ParsePlainText(rest, lineStart + i).None?;
    DropPrefix(line, i, [c], "《》");
    BracketStep(config, line, i + 1, lineStart, '《', "》", makeId);
    DropPrefix(line, i + 1, "《", "》");
    BracketStep(config, line, i + 2, lineStart, '》', "", makeId);
  }

  /** `猫《》`: the cat is gone. */
  lemma EmptyReadingExample(config: Parser.ParserConfig, lineStart: nat, makeId: string -> string)
    ensures Parser.ScanFrom(config, "猫《》", 0, lineStart, makeId)
      == [Text("《", Range(lineStart + 1, lineStart + 2)), Text("》", Range(lineStart + 2, lineStart + 3))]
  {
    assert "猫《》"[0..] == ['猫'] + "《》";
    EmptyReadingDropsBase(config, "猫《》", 0, lineStart, '猫', makeId);
  }

  // ---------------------------------------------------------------------------------------
  // Physical lines and their line-break markers

  predicate NoLineFeed(s: string)
  {
    '\n' !in s
  }

  /** The number of c in s. */
  function Occurrences(s: string, c: char): nat
  {
    if |s| == 0 then 0 else (if s[0] == c then 1 else 0) + Occurrences(s[1..], c)
  }

  lemma {:induction false} OccurrencesAppend(a: string, b: string, c: char)
    ensures Occurrences(a + b, c) == Occurrences(a, c) + Occurrences(b, c)
    decreases |a|
  {
    if |a| == 0 {
      assert a + b == b;
    } else {
      assert (a + b)[0] == a[0];
      assert (a + b)[1..] == a[1..] + b;
      OccurrencesAppend(a[1..], b, c);
    }
  }

  lemma {:induction false} OccurrencesNone(s: string, c: char)
    requires forall i :: 0 <= i < |s| ==> s[i] != c
    ensures Occurrences(s, c) == 0
    decreases |s|
  {
    if |s| > 0 {
      assert s[0] != c;
      OccurrencesNone(s[1..], c);
    }
  }

  /** The lines joined back with line feeds. */
  function JoinLines(lines: seq<string>): string
    requires |lines| > 0
  {
    if |lines| == 1 then lines[0] else lines[0] + "\n" + JoinLines(lines[1..])
  }

  /** No line of the split holds a line feed, and there is one line more than there are
      line feeds. */
  lemma SplitLinesShape(text: string)
    ensures |Parser.SplitLines(text)| == Occurrences(text, '\n') + 1
    ensures forall k :: 0 <= k < |Parser.SplitLines(text)| ==> NoLineFeed(Parser.SplitLines(text)[k])
  {
    SplitLinesCount(text);
    SplitLinesFeedFree(text);
  }

  lemma {:induction false} SplitLinesCount(text: string)
    ensures |Parser.SplitLines(text)| == Occurrences(text, '\n') + 1
    decreases |text|
  {
    var k := IndexOf(text, '\n', 0);
    if k == |text| {
      OccurrencesNone(text, '\n');
    } else {
      var more := text[k + 1..];
      SplitLinesCount(more);
      assert text == text[..k] + ([text[k]] + more);
      OccurrencesAppend(text[..k], [text[k]] + more, '\n');
      OccurrencesAppend([text[k]], more, '\n');
      OccurrencesNone(text[..k], '\n');
    }
  }

  lemma {:induction false} SplitLinesFeedFree(text: string)
    ensures forall k :: 0 <= k < |Parser.SplitLines(text)| ==> NoLineFeed(Parser.SplitLines(text)[k])
    decreases |text|
  {
    var k := IndexOf(text, '\n', 0);
    var lines := Parser.SplitLines(text);
    if k < |text| {
      var more := text[k + 1..];
      SplitLinesFeedFree(more);
      var first := Parser.DropCarriageReturn(text[..k]);
      assert NoLineFeed(first);
      assert lines == [first] + Parser.SplitLines(more);
      forall j | 0 <= j < |lines| ensures NoLineFeed(lines[j]) {
        if j > 0 {
          assert lines[j] == Parser.SplitLines(more)[j - 1];
        }
      }
    }
  }

  /** Splitting text without carriage returns and joining the lines again gives the text
      back. */
  lemma {:induction false} SplitJoin(text: string)
    requires forall i :: 0 <= i < |text| ==> text[i] != '\r'
    ensures |Parser.SplitLines(text)| > 0 && JoinLines(Parser.SplitLines(text)) == text
    decreases |text|
  {
    var k := IndexOf(text, '\n', 0);
    if k < |text| {
      var more := text[k + 1..];
      SplitJoin(more);
      if k > 0 {
        assert text[..k][k - 1] == text[k - 1];
      }
      assert Parser.DropCarriageReturn(text[..k]) == text[..k];
      assert text == text[..k] + "\n" + more;
    }
  }

  /** Joining lines that hold no line feed and do not end in a carriage return, then
      splitting, gives the lines back. */
  lemma {:induction false} JoinSplit(lines: seq<string>)
    requires |lines| > 0
    requires forall k :: 0 <= k < |lines| ==> NoLineFeed(lines[k])
    requires forall k :: 0 <= k < |lines| ==> |lines[k]| == 0 || lines[k][|lines[k]| - 1] != '\r'
    ensures Parser.SplitLines(JoinLines(lines)) == lines
    decreases |lines|
  {
    var first := lines[0];
    assert NoLineFeed(first);
    if |lines| == 1 {
      SplitSingle(first);
    } else {
      JoinSplit(lines[1..]);
      SplitHead(first, JoinLines(lines[1..]), lines[1..]);
      assert lines == [first] + lines[1..];
    }
  }

  /** A text without a line feed is a single line. */
  lemma SplitSingle(line: string)
    requires NoLineFeed(line)
    ensures Parser.SplitLines(line) == [line]
  {
    assert IndexOf(line, '\n', 0) == |line|;
  }

  /** Splitting `first + "\n" + more` gives `first` and then the lines of `more`. */
  lemma SplitHead(first: string, more: string, rest: seq<string>)
    requires NoLineFeed(first) && (|first| == 0 || first[|first| - 1] != '\r')
    requires Parser.SplitLines(more) == rest
    ensures Parser.SplitLines(first + "\n" + more) == [first] + rest
  {
    JoinedHead(first, more);
  }

  /** The first line feed of `first + "\n" + more` is the one after `first`. */
  lemma JoinedHead(first: string, more: string)
    requires NoLineFeed(first)
    ensures var text := first + "\n" + more;
      IndexOf(text, '\n', 0) == |first| && text[..|first|] == first && text[|first| + 1..] == more
  {
    var text := first + "\n" + more;
    assert text[|first|] == '\n';
    assert forall i :: 0 <= i < |first| ==> text[i] == first[i];
  }

  /** The number of line-break markers among the elements. */
  function Markers(es: seq<Element>): nat
  {
    if |es| == 0 then 0 else (if IsNewlineMarker(es[0]) then 1 else 0) + Markers(es[1..])
  }

  lemma {:induction false} MarkersAppend(a: seq<Element>, b: seq<Element>)
    ensures Markers(a + b) == Markers(a) + Markers(b)
    decreases |a|
  {
    if |a| == 0 {
      assert a + b == b;
    } else {
      assert (a + b)[0] == a[0];
      assert (a + b)[1..] == a[1..] + b;
      MarkersAppend(a[1..], b);
    }
  }

  /** Without a line feed ahead, no recogniser yields a line-break marker: plain text only
      copies characters that are there, and the others yield no text element. */
  lemma AttemptNoMarker(n: Parser.Notation, config: Parser.ParserConfig, rest: string, at: nat,
                        makeId: string -> string)
    requires NoLineFeed(rest)
    ensures var m := Parser.Attempt(n, config, rest, at, makeId);
      m.Some? ==> !IsNewlineMarker(m.value.element)
  {
    var m := Parser.Attempt(n, config, rest, at, makeId);
    if n == Parser.PlainTextNotation && m.Some? {
      assert m.value.element.content == rest[..m.value.length];
      assert rest[..m.value.length][0] == rest[0];
    }
  }

  lemma {:induction false} FirstMatchNoMarker(ns: seq<Parser.Notation>, config: Parser.ParserConfig, rest: string,
                                              at: nat, makeId: string -> string)
    requires NoLineFeed(rest)
    ensures var m := Parser.FirstMatch(ns, config, rest, at, makeId);
      m.Some? ==> !IsNewlineMarker(m.value.element)
    decreases |ns|
  {
    if |ns| > 0 {
      AttemptNoMarker(ns[0], config, rest, at, makeId);
      FirstMatchNoMarker(ns[1..], config, rest, at, makeId);
    }
  }

  /** A line without a line feed scans to elements without a line-break marker. */
  lemma {:induction false} ScanFromNoMarker(config: Parser.ParserConfig, line: string, i: nat, lineStart: nat,
                                            makeId: string -> string)
    requires i <= |line| && NoLineFeed(line)
    ensures Markers(Parser.ScanFrom(config, line, i, lineStart, makeId)) == 0
    decreases |line| - i
  {
    if i < |line| {
      var rest := line[i..];
      assert NoLineFeed(rest) by {
        forall j | 0 <= j < |rest| ensures rest[j] != '\n' {
          assert rest[j] == line[i + j];
        }
      }
      var m := Parser.FirstMatch(Parser.Order, config, rest, lineStart + i, makeId);
      FirstMatchNoMarker(Parser.Order, config, rest, lineStart + i, makeId);
      if m.Some? {
        ScanFromNoMarker(config, line, i + m.value.length, lineStart, makeId);
        MarkersAppend([m.value.element], Parser.ScanFrom(config, line, i + m.value.length, lineStart, makeId));
      } else {
        ScanFromNoMarker(config, line, i + 1, lineStart, makeId);
      }
    }
  }

  /** The processed line is a piece of the line. */
  lemma ProcessedNoLineFeed(config: Parser.ParserConfig, line: string)
    requires NoLineFeed(line)
    ensures NoLineFeed(Parser.Processed(config, line))
  {
    var p := Parser.Processed(config, line);
    if config.preserveLeadingSpaces {
      Formatting.StripLeadingSpacesShape(line);
      forall j | 0 <= j < |p| ensures p[j] != '\n' {
        assert p[j] == line[|line| - |p| + j];
      }
    } else {
      var t := TrimStart(line);
      assert t == line[LeadingWhitespace(line)..];
      assert p == t[..TrailingCut(t)];
      forall j | 0 <= j < |p| ensures p[j] != '\n' {
        assert p[j] == t[j] == line[LeadingWhitespace(line) + j];
      }
    }
  }

  /** Every physical line contributes exactly one line-break marker, as its last element;
      an empty processed line contributes only that marker. */
  lemma LineOneMarker(config: Parser.ParserConfig, line: string, lineStart: nat, makeId: string -> string)
    requires NoLineFeed(line)
    ensures var es := Parser.LineElements(config, line, lineStart, makeId);
      |es| > 0 && Markers(es) == 1 && IsNewlineMarker(es[|es| - 1])
    ensures |Parser.Processed(config, line)| == 0 ==>
      Parser.LineElements(config, line, lineStart, makeId) == [Text("\n", Range(lineStart, lineStart + 1))]
  {
    var p := Parser.Processed(config, line);
    if |p| > 0 {
      ProcessedNoLineFeed(config, line);
      var scanned := Parser.ScanFrom(config, p, 0, lineStart, makeId);
      ScanFromNoMarker(config, p, 0, lineStart, makeId);
      var marker := [Text("\n", Range(lineStart + |line|, lineStart + |line| + 1))];
      MarkersAppend(scanned, marker);
      assert Markers(marker) == 1;
    } else {
      assert Markers([Text("\n", Range(lineStart, lineStart + 1))]) == 1;
    }
  }

  /** The marker count of the scan from line n on, one line at a time. */
  lemma ScanLinesMarkersStep(config: Parser.ParserConfig, lines: seq<string>, n: nat, lineStart: nat,
                             makeId: string -> string)
    requires n < |lines| && NoLineFeed(lines[n])
    requires Markers(Parser.ScanLines(config, lines, n + 1, lineStart + |lines[n]| + 1, makeId)) == |lines| - (n + 1)
    ensures Markers(Parser.ScanLines(config, lines, n, lineStart, makeId)) == |lines| - n
  {
    Parser.ScanLinesStep(config, lines, n, lineStart, makeId);
    LineOneMarker(config, lines[n], lineStart, makeId);
    MarkersAppend(Parser.LineElements(config, lines[n], lineStart, makeId),
                  Parser.ScanLines(config, lines, n + 1, lineStart + |lines[n]| + 1, makeId));
  }

  /** No line from index n on holds a line feed (stated recursively, one line at a time). */
  predicate FeedFreeFrom(lines: seq<string>, n: nat)
    decreases |lines| - n
  {
    n >= |lines| || (NoLineFeed(lines[n]) && FeedFreeFrom(lines, n + 1))
  }

  lemma {:induction false} FeedFreeFromAll(lines: seq<string>, n: nat)
    requires forall k :: 0 <= k < |lines| ==> NoLineFeed(lines[k])
    ensures FeedFreeFrom(lines, n)
    decreases |lines| - n
  {
    if n < |lines| {
      FeedFreeFromAll(lines, n + 1);
    }
  }

  lemma {:induction false} ScanLinesMarkers(config: Parser.ParserConfig, lines: seq<string>, n: nat, lineStart: nat,
                                            makeId: string -> string)
    requires n <= |lines|
    requires FeedFreeFrom(lines, n)
    ensures Markers(Parser.ScanLines(config, lines, n, lineStart, makeId)) == |lines| - n
    decreases |lines| - n
  {
    if n < |lines| {
      ScanLinesMarkers(config, lines, n + 1, lineStart + |lines[n]| + 1, makeId);
      ScanLinesMarkersStep(config, lines, n, lineStart, makeId);
    }
  }

  /** Before the passes, the scan of a text holds one line-break marker per physical line:
      one more than the text has line feeds. */
  lemma ScannedMarkers(config: Parser.ParserConfig, text: string, makeId: string -> string)
    ensures Markers(Parser.ScanLines(config, Parser.SplitLines(text), 0, 0, makeId)) == Occurrences(text, '\n') + 1
  {
    SplitLinesShape(text);
    FeedFreeFromAll(Parser.SplitLines(text), 0);
    ScanLinesMarkers(config, Parser.SplitLines(text), 0, 0, makeId);
  }
}
