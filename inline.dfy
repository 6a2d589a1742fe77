/** The inline recognisers of the notation parser: ruby, heading, image, caption and plain
    text. Each one is a prefix match on the unscanned rest of a line; `at` is the offset the
    rest starts at and only feeds the range of the result. */
module Inline {
  import opened Wrappers
  import opened Strings
  import opened Elements
  import Formatting

  /** `lit` occurs in text at offset i. */
  predicate HasAt(text: string, i: nat, lit: string)
  {
    i + |lit| <= |text| && text[i..i + |lit|] == lit
  }

  // ---------------------------------------------------------------------------------------
  // Ruby

  /** The single-character base class `[^｜［《\s]`. */
  predicate IsBasicRubyBase(c: char)
  {
    c != '｜' && c != '［' && c != '《' && !IsWhitespace(c)
  }

  /** `parseExplicitRangeRuby`: the prefix `｜<base>《<reading>》`, where the base holds no `《`
      and the reading no `》`, and neither is empty. */
  function ParseExplicitRangeRuby(text: string, at: nat): (r: Option<Match>)
    ensures r.Some? ==>
      var e := r.value.element;
      && e.Ruby?
      && |e.text| > 0 && |e.ruby| > 0
      && (forall i :: 0 <= i < |e.text| ==> e.text[i] != '《')
      && (forall i :: 0 <= i < |e.ruby| ==> e.ruby[i] != '》')
      && r.value.length == |e.text| + |e.ruby| + 3 <= |text|
      && text[..r.value.length] == "｜" + e.text + "《" + e.ruby + "》"
      && e.range == Range(at, at + r.value.length)
  {
    if |text| == 0 || text[0] != '｜' then None
    else
      var k := IndexOf(text, '《', 1);
      if k == |text| || k < 2 then None
      else
        var j := IndexOf(text, '》', k + 1);
        if j == |text| || j < k + 2 then None
        else
          assert text[..j + 1] == "｜" + text[1..k] + "《" + text[k + 1..j] + "》";
          Some(Match(Ruby(text[1..k], text[k + 1..j], Range(at, at + j + 1)), j + 1))
  }

  /** `parseBasicRuby`: one base character outside `｜［《` and whitespace, then `《<reading>》`. */
  function ParseBasicRuby(text: string, at: nat): (r: Option<Match>)
    ensures r.Some? ==>
      var e := r.value.element;
      && e.Ruby?
      && |e.text| == 1 && IsBasicRubyBase(e.text[0])
      && |e.ruby| > 0 && (forall i :: 0 <= i < |e.ruby| ==> e.ruby[i] != '》')
      && r.value.length == |e.ruby| + 3 <= |text|
      && text[..r.value.length] == e.text + "《" + e.ruby + "》"
      && e.range == Range(at, at + r.value.length)
  {
    if |text| < 2 || !IsBasicRubyBase(text[0]) || text[1] != '《' then None
    else
      var j := IndexOf(text, '》', 2);
      if j == |text| || j < 3 then None
      else
        assert text[..j + 1] == text[..1] + "《" + text[2..j] + "》";
        Some(Match(Ruby(text[..1], text[2..j], Range(at, at + j + 1)), j + 1))
  }

  /** `parseRuby`: the explicit form first, the single-character form otherwise; nothing
      when ruby is switched off. */
  function ParseRuby(text: string, at: nat, enableRuby: bool): (r: Option<Match>)
    ensures !enableRuby ==> r.None?
    ensures enableRuby && ParseExplicitRangeRuby(text, at).Some? ==> r == ParseExplicitRangeRuby(text, at)
    ensures enableRuby && ParseExplicitRangeRuby(text, at).None? ==> r == ParseBasicRuby(text, at)
  {
    if !enableRuby then None
    else
      match ParseExplicitRangeRuby(text, at)
      case Some(m) => Some(m)
      case None => ParseBasicRuby(text, at)
  }

  /** Every well-formed explicit ruby is recognised, with exactly the written base and
      reading, whatever follows it. */
  lemma ExplicitRubyExact(base: string, reading: string, rest: string, at: nat)
    requires |base| > 0 && forall i :: 0 <= i < |base| ==> base[i] != '《'
    requires |reading| > 0 && forall i :: 0 <= i < |reading| ==> reading[i] != '》'
    ensures var n := |base| + |reading| + 3;
      ParseExplicitRangeRuby("｜" + base + "《" + reading + "》" + rest, at)
        == Some(Match(Ruby(base, reading, Range(at, at + n)), n))
  {
    var text := "｜" + base + "《" + reading + "》" + rest;
    var k := |base| + 1;
    assert text[k] == '《';
    assert forall i :: 1 <= i < k ==> text[i] == base[i - 1];
    assert IndexOf(text, '《', 1) == k;
    var j := k + 1 + |reading|;
    assert text[j] == '》';
    assert forall i :: k + 1 <= i < j ==> text[i] == reading[i - k - 1];
    assert IndexOf(text, '》', k + 1) == j;
    assert text[1..k] == base;
    assert text[k + 1..j] == reading;
  }

  /** Every well-formed single-character ruby is recognised. */
  lemma BasicRubyExact(base: char, reading: string, rest: string, at: nat)
    requires IsBasicRubyBase(base)
    requires |reading| > 0 && forall i :: 0 <= i < |reading| ==> reading[i] != '》'
    ensures var n := |reading| + 3;
      ParseBasicRuby([base] + "《" + reading + "》" + rest, at)
        == Some(Match(Ruby([base], reading, Range(at, at + n)), n))
  {
    var text := [base] + "《" + reading + "》" + rest;
    var j := 2 + |reading|;
    assert text[j] == '》';
    assert forall i :: 2 <= i < j ==> text[i] == reading[i - 2];
    assert IndexOf(text, '》', 2) == j;
    assert text[..1] == [base];
    assert text[2..j] == reading;
  }

  /** `｜我輩《わがはい》は猫である`: the range marker gives the ruby its two-character base. */
  lemma ExplicitRubyExample(at: nat)
    ensures ParseRuby("｜我輩《わがはい》は猫である", at, true)
      == Some(Match(Ruby("我輩", "わがはい", Range(at, at + 9)), 9))
  {
    assert "｜我輩《わがはい》は猫である" == "｜" + "我輩" + "《" + "わがはい" + "》" + "は猫である";
    ExplicitRubyExact("我輩", "わがはい", "は猫である", at);
  }

  /** The two ruby forms never both apply: the explicit form opens with `｜`, which is not a
      basic base. So the priority between them only matters for `｜` itself. */
  lemma RubyFormsDisjoint(text: string, at: nat)
    ensures ParseExplicitRangeRuby(text, at).Some? ==> ParseBasicRuby(text, at).None?
    ensures ParseBasicRuby(text, at).Some? ==> ParseExplicitRangeRuby(text, at).None?
  {
  }

  // ---------------------------------------------------------------------------------------
  // Headings and captions: `^(.+?)［＃「(.+?)」<closer>`

  const BracketOpen := "［＃「"

  /** The three heading closers, in the order of the alternation `(大|中|小)`. */
  const HeadingClosers: seq<string> := ["」は大見出し］", "」は中見出し］", "」は小見出し］"]

  const CaptionCloser := "」はキャプション］"

  /** No line terminator in text[lo..hi): the span `.` may cover. */
  predicate LineFree(text: string, lo: nat, hi: nat)
  {
    forall i :: lo <= i < hi && i < |text| ==> !IsLineTerminator(text[i])
  }

  /** The first closer, at index `from` or later, that occurs at offset at. */
  function FirstCloser(text: string, at: nat, closers: seq<string>, from: nat): (r: Option<nat>)
    requires from <= |closers|
    ensures r.Some? ==> from <= r.value < |closers| && HasAt(text, at, closers[r.value])
    ensures r.None? ==> forall c :: from <= c < |closers| ==> !HasAt(text, at, closers[c])
    decreases |closers| - from
  {
    if from == |closers| then None
    else if HasAt(text, at, closers[from]) then Some(from)
    else FirstCloser(text, at, closers, from + 1)
  }

  /** The quoted part of length q, after an opener at p, is line-free and followed by a closer. */
  predicate InnerFits(text: string, p: nat, q: nat, closers: seq<string>)
  {
    1 <= q && p + 3 + q <= |text| && LineFree(text, p + 3, p + 3 + q)
      && FirstCloser(text, p + 3 + q, closers, 0).Some?
  }

  /** The pattern matches with a leading part of length p and a quoted part of length q. */
  predicate Fits(text: string, p: nat, q: nat, closers: seq<string>)
  {
    1 <= p && p <= |text| && LineFree(text, 0, p) && HasAt(text, p, BracketOpen) && InnerFits(text, p, q, closers)
  }

  /** A line terminator inside [lo, hi) keeps `.` from covering that span. */
  lemma LineBreakBlocks(text: string, lo: nat, i: nat, hi: nat)
    requires lo <= i < hi && i < |text| && IsLineTerminator(text[i])
    ensures !LineFree(text, lo, hi)
  {
  }

  /** The lazy inner group: the shortest quoted part, from length q on. */
  function InnerSearch(text: string, p: nat, q: nat, closers: seq<string>): (r: Option<nat>)
    requires 1 <= q && p + 3 + q <= |text|
    requires LineFree(text, p + 3, p + 3 + q - 1)
    ensures r.Some? ==> q <= r.value && InnerFits(text, p, r.value, closers)
    ensures r.Some? ==> forall q': nat :: q <= q' < r.value ==> !InnerFits(text, p, q', closers)
    ensures r.None? ==> forall q': nat :: q <= q' ==> !InnerFits(text, p, q', closers)
    decreases |text| - q
  {
    if IsLineTerminator(text[p + 3 + q - 1]) then
      forall q': nat | q <= q' ensures !InnerFits(text, p, q', closers) {
        LineBreakBlocks(text, p + 3, p + 3 + q - 1, p + 3 + q');
      }
      None
    else if FirstCloser(text, p + 3 + q, closers, 0).Some? then Some(q)
    else if p + 3 + q < |text| then InnerSearch(text, p, q + 1, closers)
    else None
  }

  /** The lazy outer group: the shortest leading part, from length p on, for which the
      inner group can match; for that leading part, the shortest quoted part. */
  function OuterSearch(text: string, p: nat, closers: seq<string>): (r: Option<(nat, nat)>)
    requires 1 <= p <= |text|
    requires LineFree(text, 0, p - 1)
    ensures r.Some? ==> p <= r.value.0 && Fits(text, r.value.0, r.value.1, closers)
    ensures r.Some? ==> forall p': nat, q': nat :: p <= p' < r.value.0 ==> !Fits(text, p', q', closers)
    ensures r.Some? ==> forall q': nat :: q' < r.value.1 ==> !Fits(text, r.value.0, q', closers)
    ensures r.None? ==> forall p': nat, q': nat :: p <= p' ==> !Fits(text, p', q', closers)
    decreases |text| - p
  {
    if IsLineTerminator(text[p - 1]) then
      forall p': nat, q': nat | p <= p' ensures !Fits(text, p', q', closers) {
        LineBreakBlocks(text, 0, p - 1, p');
      }
      None
    else
      var inner := if HasAt(text, p, BracketOpen) && p + 4 <= |text| then InnerSearch(text, p, 1, closers) else None;
      if inner.Some? then Some((p, inner.value))
      else if p < |text| then OuterSearch(text, p + 1, closers)
      else None
  }

  /** The match of `^(.+?)［＃「(.+?)」<closer>`: the lengths of the two groups, the
      lexicographically least pair that fits. */
  function LazyBracket(text: string, closers: seq<string>): (r: Option<(nat, nat)>)
    ensures r.Some? ==> Fits(text, r.value.0, r.value.1, closers)
    ensures r.Some? ==> forall p': nat, q': nat :: p' < r.value.0 ==> !Fits(text, p', q', closers)
    ensures r.Some? ==> forall q': nat :: q' < r.value.1 ==> !Fits(text, r.value.0, q', closers)
    ensures r.None? ==> forall p': nat, q': nat :: !Fits(text, p', q', closers)
  {
    if |text| == 0 then None else OuterSearch(text, 1, closers)
  }

  function LevelOf(c: nat): HeadingLevel
  {
    if c == 0 then Large else if c == 1 then Medium else Small
  }

  /** `parseHeading`: the heading text is the quoted part; the leading part is consumed but
      never compared with it. The id comes from the caller's id generator. */
  function ParseHeading(text: string, at: nat, makeId: string -> string): (r: Option<Match>)
    ensures r.Some? <==> LazyBracket(text, HeadingClosers).Some?
    ensures r.Some? ==>
      var m := LazyBracket(text, HeadingClosers).value;
      r.value == HeadingMatch(text, at, m.0, m.1, makeId)
  {
    var m := LazyBracket(text, HeadingClosers);
    if m.None? then None else Some(HeadingMatch(text, at, m.value.0, m.value.1, makeId))
  }

  /** The heading a fitting split denotes: the quoted part, the level its closer names, and
      the whole span up to and including the closer. */
  function HeadingMatch(text: string, at: nat, p: nat, q: nat, makeId: string -> string): (r: Match)
    requires Fits(text, p, q, HeadingClosers)
    ensures var c := FirstCloser(text, p + 3 + q, HeadingClosers, 0).value;
      var inner := text[p + 3..p + 3 + q];
      && r.length == p + 3 + q + 7 <= |text|
      && HasAt(text, p + 3 + q, HeadingClosers[c])
      && r.element == HeadingElement(Heading(LevelOf(c), inner, makeId(inner), Range(at, at + r.length)))
  {
    var c := FirstCloser(text, p + 3 + q, HeadingClosers, 0).value;
    var inner := text[p + 3..p + 3 + q];
    var len := p + 3 + q + |HeadingClosers[c]|;
    HeadingClosersHeads();
    Match(HeadingElement(Heading(LevelOf(c), inner, makeId(inner), Range(at, at + len))), len)
  }

  /** `parseCaption`: like a heading, with the single closer `」はキャプション］`; no image is
      linked. */
  function ParseCaption(text: string, at: nat): (r: Option<Match>)
    ensures r.Some? <==> LazyBracket(text, [CaptionCloser]).Some?
    ensures r.Some? ==>
      var p := LazyBracket(text, [CaptionCloser]).value.0;
      var q := LazyBracket(text, [CaptionCloser]).value.1;
      && r.value.length == p + 3 + q + 9 <= |text|
      && HasAt(text, p + 3 + q, CaptionCloser)
      && r.value.element == Caption(text[p + 3..p + 3 + q], None, Range(at, at + r.value.length))
  {
    match LazyBracket(text, [CaptionCloser])
    case None => None
    case Some((p, q)) =>
      var len := p + 3 + q + |CaptionCloser|;
      Some(Match(Caption(text[p + 3..p + 3 + q], None, Range(at, at + len)), len))
  }

  /** The written form of a heading of the given level. */
  function HeadingCloser(level: HeadingLevel): string
  {
    match level
    case Large => HeadingClosers[0]
    case Medium => HeadingClosers[1]
    case Small => HeadingClosers[2]
  }

  /** When the leading part text[..p) holds no `［`, the quoted part text[p+3..p+3+q) no `」`,
      and a closer follows, the lazy search finds exactly that split. */
  lemma LazyBracketAt(text: string, closers: seq<string>, p: nat, q: nat, c: nat)
    requires forall k :: 0 <= k < |closers| ==> |closers[k]| > 0 && closers[k][0] == '」'
    requires 1 <= p && 1 <= q && c < |closers|
    requires forall i :: 0 <= i < p && i < |text| ==> text[i] != '［' && !IsLineTerminator(text[i])
    requires HasAt(text, p, BracketOpen)
    requires forall i :: p + 3 <= i < p + 3 + q && i < |text| ==> text[i] != '」' && !IsLineTerminator(text[i])
    requires HasAt(text, p + 3 + q, closers[c])
    ensures LazyBracket(text, closers) == Some((p, q))
  {
    assert FirstCloser(text, p + 3 + q, closers, 0).Some?;
    assert Fits(text, p, q, closers);
    var r := LazyBracket(text, closers);
    var (p0, q0) := r.value;
    assert p0 == p by {
      assert p0 <= p;
      assert text[p0..p0 + 3][0] == text[p0];
    }
    assert q0 == q by {
      assert q0 <= q;
      var c0 := FirstCloser(text, p + 3 + q0, closers, 0).value;
      assert text[p + 3 + q0..p + 3 + q0 + |closers[c0]|][0] == text[p + 3 + q0];
    }
  }

  /** The heading closers are told apart by their third character. */
  lemma HeadingClosersHeads()
    ensures forall k :: 0 <= k < |HeadingClosers| ==> |HeadingClosers[k]| == 7 && HeadingClosers[k][0] == '」'
    ensures HeadingClosers[0][2] == '大' && HeadingClosers[1][2] == '中' && HeadingClosers[2][2] == '小'
  {
  }

  lemma LevelOfCloser(level: HeadingLevel, c: nat)
    requires c < |HeadingClosers| && HeadingClosers[c] == HeadingCloser(level)
    ensures LevelOf(c) == level
  {
    HeadingClosersHeads();
  }

  /** The first closer at an offset is the one written there. */
  lemma FirstCloserAt(text: string, at: nat, level: HeadingLevel)
    requires HasAt(text, at, HeadingCloser(level))
    ensures FirstCloser(text, at, HeadingClosers, 0).Some?
    ensures LevelOf(FirstCloser(text, at, HeadingClosers, 0).value) == level
  {
    HeadingClosersHeads();
    var c := match level case Large => 0 case Medium => 1 case Small => 2;
    assert HeadingClosers[c] == HeadingCloser(level);
    var c0 := FirstCloser(text, at, HeadingClosers, 0).value;
    assert c0 == c by {
      assert text[at..at + 7][2] == text[at + 2];
      assert HeadingClosers[c0][2] == HeadingClosers[c][2];
    }
    LevelOfCloser(level, c);
  }

  /** A heading line with a `［`-free leading part of length p and a `」`-free quoted part of
      length q is recognised whole, with the quoted part as its text, whether or not it
      equals the leading part. */
  lemma HeadingAt(text: string, at: nat, p: nat, q: nat, level: HeadingLevel, makeId: string -> string)
    requires 1 <= p && 1 <= q
    requires forall i :: 0 <= i < p && i < |text| ==> text[i] != '［' && !IsLineTerminator(text[i])
    requires HasAt(text, p, BracketOpen)
    requires forall i :: p + 3 <= i < p + 3 + q && i < |text| ==> text[i] != '」' && !IsLineTerminator(text[i])
    requires HasAt(text, p + 3 + q, HeadingCloser(level))
    ensures var n := p + q + 10;
      ParseHeading(text, at, makeId)
        == Some(Match(HeadingElement(Heading(level, text[p + 3..p + 3 + q], makeId(text[p + 3..p + 3 + q]),
                                             Range(at, at + n))), n))
  {
    HeadingSplitAt(text, p, q, level);
    var m := HeadingMatch(text, at, p, q, makeId);
    var inner := text[p + 3..p + 3 + q];
    assert m == Match(HeadingElement(Heading(level, inner, makeId(inner), Range(at, at + p + q + 10))), p + q + 10);
  }

  /** The split HeadingAt describes is the one the lazy search finds, and its closer names
      the level. */
  lemma HeadingSplitAt(text: string, p: nat, q: nat, level: HeadingLevel)
    requires 1 <= p && 1 <= q
    requires forall i :: 0 <= i < p && i < |text| ==> text[i] != '［' && !IsLineTerminator(text[i])
    requires HasAt(text, p, BracketOpen)
    requires forall i :: p + 3 <= i < p + 3 + q && i < |text| ==> text[i] != '」' && !IsLineTerminator(text[i])
    requires HasAt(text, p + 3 + q, HeadingCloser(level))
    ensures LazyBracket(text, HeadingClosers) == Some((p, q))
    ensures Fits(text, p, q, HeadingClosers)
    ensures LevelOf(FirstCloser(text, p + 3 + q, HeadingClosers, 0).value) == level
  {
    FirstCloserAt(text, p + 3 + q, level);
    var c := FirstCloser(text, p + 3 + q, HeadingClosers, 0).value;
    LazyBracketAt(text, HeadingClosers, p, q, c);
  }

  /** The caption counterpart of HeadingAt. */
  lemma CaptionAt(text: string, at: nat, p: nat, q: nat)
    requires 1 <= p && 1 <= q
    requires forall i :: 0 <= i < p && i < |text| ==> text[i] != '［' && !IsLineTerminator(text[i])
    requires HasAt(text, p, BracketOpen)
    requires forall i :: p + 3 <= i < p + 3 + q && i < |text| ==> text[i] != '」' && !IsLineTerminator(text[i])
    requires HasAt(text, p + 3 + q, CaptionCloser)
    ensures var n := p + q + 12;
      ParseCaption(text, at) == Some(Match(Caption(text[p + 3..p + 3 + q], None, Range(at, at + n)), n))
  {
    LazyBracketAt(text, [CaptionCloser], p, q, 0);
  }

  /** HeadingAt for a line written as its parts. */
  lemma HeadingExact(lead: string, inner: string, level: HeadingLevel, rest: string, at: nat, makeId: string -> string)
    requires |lead| > 0 && |inner| > 0
    requires forall i :: 0 <= i < |lead| ==> lead[i] != '［' && !IsLineTerminator(lead[i])
    requires forall i :: 0 <= i < |inner| ==> inner[i] != '」' && !IsLineTerminator(inner[i])
    ensures var n := |lead| + |inner| + 10;
      ParseHeading(lead + BracketOpen + inner + HeadingCloser(level) + rest, at, makeId)
        == Some(Match(HeadingElement(Heading(level, inner, makeId(inner), Range(at, at + n))), n))
  {
    var text := lead + BracketOpen + inner + HeadingCloser(level) + rest;
    PartsFit(lead, inner, HeadingCloser(level), rest);
    HeadingAt(text, at, |lead|, |inner|, level, makeId);
  }

  /** CaptionAt for a line written as its parts. */
  lemma CaptionExact(lead: string, inner: string, rest: string, at: nat)
    requires |lead| > 0 && |inner| > 0
    requires forall i :: 0 <= i < |lead| ==> lead[i] != '［' && !IsLineTerminator(lead[i])
    requires forall i :: 0 <= i < |inner| ==> inner[i] != '」' && !IsLineTerminator(inner[i])
    ensures var n := |lead| + |inner| + 12;
      ParseCaption(lead + BracketOpen + inner + CaptionCloser + rest, at)
        == Some(Match(Caption(inner, None, Range(at, at + n)), n))
  {
    PartsFit(lead, inner, CaptionCloser, rest);
    CaptionAt(lead + BracketOpen + inner + CaptionCloser + rest, at, |lead|, |inner|);
  }

  /** The written parts meet the conditions of HeadingAt and CaptionAt. */
  lemma PartsFit(lead: string, inner: string, closer: string, rest: string)
    requires forall i :: 0 <= i < |lead| ==> lead[i] != '［' && !IsLineTerminator(lead[i])
    requires forall i :: 0 <= i < |inner| ==> inner[i] != '」' && !IsLineTerminator(inner[i])
    ensures var text := lead + BracketOpen + inner + closer + rest;
      var p := |lead|;
      var q := |inner|;
      && (forall i :: 0 <= i < p && i < |text| ==> text[i] != '［' && !IsLineTerminator(text[i]))
      && HasAt(text, p, BracketOpen)
      && (forall i :: p + 3 <= i < p + 3 + q && i < |text| ==> text[i] != '」' && !IsLineTerminator(text[i]))
      && text[p + 3..p + 3 + q] == inner
      && HasAt(text, p + 3 + q, closer)
  {
    PartsAt(lead, inner, closer, rest);
  }

  /** Where the parts of `<lead>［＃「<inner><closer><rest>` lie. */
  lemma PartsAt(lead: string, inner: string, closer: string, rest: string)
    ensures var text := lead + BracketOpen + inner + closer + rest;
      var p := |lead|;
      var q := |inner|;
      && (forall i :: 0 <= i < p ==> text[i] == lead[i])
      && HasAt(text, p, BracketOpen)
      && (forall i :: p + 3 <= i < p + 3 + q ==> text[i] == inner[i - p - 3])
      && text[p + 3..p + 3 + q] == inner
      && HasAt(text, p + 3 + q, closer)
  {
    var head := lead + BracketOpen + inner;
    var text := head + closer + rest;
    assert text[|head|..|head| + |closer|] == closer;
    assert head[..|lead|] == lead;
    assert head[|lead|..|lead| + 3] == BracketOpen;
    assert head[|lead| + 3..] == inner;
  }

  /** The test line `第一章　始まり［＃「第一章　始まり」は大見出し］`. */
  lemma HeadingExample(makeId: string -> string)
    ensures ParseHeading("第一章　始まり［＃「第一章　始まり」は大見出し］", 0, makeId)
      == Some(Match(HeadingElement(Heading(Large, "第一章　始まり", makeId("第一章　始まり"), Range(0, 24))), 24))
  {
    var part := "第一章　始まり";
    assert forall i :: 0 <= i < |part| ==> part[i] != '［' && part[i] != '」' && !IsLineTerminator(part[i]);
    assert "第一章　始まり［＃「第一章　始まり」は大見出し］" == part + BracketOpen + part + HeadingCloser(Large) + "";
    HeadingExact(part, part, Large, "", 0, makeId);
  }

  /** A heading directive without its closing `］` is not a heading. */
  lemma UnclosedHeadingRejected(makeId: string -> string)
    ensures ParseHeading("第一章［＃「第一章」は大見出し", 0, makeId).None?
  {
    var text := "第一章［＃「第一章」は大見出し";
    forall p: nat, q: nat ensures !Fits(text, p, q, HeadingClosers) {
      UnclosedNoFit(text, p, q);
    }
  }

  lemma UnclosedNoFit(text: string, p: nat, q: nat)
    requires text == "第一章［＃「第一章」は大見出し"
    ensures !Fits(text, p, q, HeadingClosers)
  {
    if 1 <= q && p + 3 + q + 7 <= |text| && HasAt(text, p, BracketOpen) {
      assert text[p..p + 3][0] == text[p];
      assert p == 3;
      assert text[p + 3 + q] != '」';
      forall c | 0 <= c < |HeadingClosers| ensures !HasAt(text, p + 3 + q, HeadingClosers[c]) {
        assert HeadingClosers[c][0] == '」';
      }
    }
  }

  // ---------------------------------------------------------------------------------------
  // Images

  /** The end of the maximal run of `\d` that starts at offset i. */
  function DigitsFrom(text: string, i: nat): (j: nat)
    requires i <= |text|
    ensures i <= j <= |text|
    ensures forall k :: i <= k < j ==> Formatting.IsHalfWidthDigit(text[k])
    ensures j < |text| ==> !Formatting.IsHalfWidthDigit(text[j])
    decreases |text| - i
  {
    if i < |text| && Formatting.IsHalfWidthDigit(text[i]) then DigitsFrom(text, i + 1) else i
  }

  /** The value of the ASCII digits in text[lo..hi), as `parseInt` reads them. */
  function NumberAt(text: string, lo: nat, hi: nat): nat
    requires lo <= hi <= |text|
    requires forall k :: lo <= k < hi ==> Formatting.IsHalfWidthDigit(text[k])
  {
    var digits := text[lo..hi];
    assert forall i :: 0 <= i < |digits| ==> digits[i] == text[lo + i];
    Formatting.DecimalValue(digits)
  }

  /** The offsets of `×` and of `）` in the tail of a with-size image directive. */
  datatype SizeOffsets = SizeOffsets(times: nat, close: nat)

  /** The tail `、横<w>×縦<h>）入る］` of the with-size pattern, starting at m. */
  function SizeTail(text: string, m: nat): (r: Option<SizeOffsets>)
    ensures r.Some? ==>
      && m + 2 < r.value.times && r.value.times + 2 < r.value.close && r.value.close + 4 <= |text|
      && HasAt(text, m, "、横") && HasAt(text, r.value.times, "×縦") && HasAt(text, r.value.close, "）入る］")
      && (forall k :: m + 2 <= k < r.value.times ==> Formatting.IsHalfWidthDigit(text[k]))
      && (forall k :: r.value.times + 2 <= k < r.value.close ==> Formatting.IsHalfWidthDigit(text[k]))
  {
    if !HasAt(text, m, "、横") then None
    else
      var x := DigitsFrom(text, m + 2);
      if x == m + 2 || !HasAt(text, x, "×縦") then None
      else
        var e := DigitsFrom(text, x + 2);
        if e == x + 2 || !HasAt(text, e, "）入る］") then None
        else Some(SizeOffsets(x, e))
  }

  /** The with-size pattern `［＃<desc>（<file>、横<w>×縦<h>）入る］`. */
  function ParseSizedImage(text: string, at: nat): (r: Option<Match>)
    ensures r.Some? ==> 11 < r.value.length <= |text|
    ensures r.Some? ==>
      var e := r.value.element;
      && e.ImageElement?
      && HasAt(text, 0, "［＃") && HasAt(text, r.value.length - 4, "）入る］")
      && e.image.filename.Some? && e.image.width.Some? && e.image.height.Some? && e.image.base64.None?
      && e.image.range == Range(at, at + r.value.length)
  {
    if !HasAt(text, 0, "［＃") then None
    else
      var a := IndexOf(text, '（', 2);
      if a == |text| || a < 3 then None
      else
        var m := IndexOf(text, '、', a + 1);
        if m == |text| || m < a + 2 then None
        else
          var tail := SizeTail(text, m);
          if tail.None? then None
          else Some(SizedImage(text, at, a, m, tail.value.times, tail.value.close))
  }

  /** The image a with-size directive denotes, given the offsets of `（`, `、`, `×` and `）`;
      description and file name are trimmed. */
  function SizedImage(text: string, at: nat, a: nat, m: nat, x: nat, e: nat): (r: Match)
    requires 2 <= a < m && m + 2 < x && x + 2 < e && e + 4 <= |text|
    requires forall k :: m + 2 <= k < x ==> Formatting.IsHalfWidthDigit(text[k])
    requires forall k :: x + 2 <= k < e ==> Formatting.IsHalfWidthDigit(text[k])
    ensures r.length == e + 4 && r.element.ImageElement? && r.element.image.range == Range(at, at + e + 4)
    ensures r.element.image.filename.Some? && r.element.image.width.Some? && r.element.image.height.Some?
    ensures r.element.image.base64.None?
  {
    var img := Image(Trim(text[2..a]), Some(Trim(text[a + 1..m])),
                     Some(NumberAt(text, m + 2, x)), Some(NumberAt(text, x + 2, e)), None,
                     Range(at, at + e + 4));
    Match(ImageElement(img), e + 4)
  }

  /** The basic pattern `［＃<desc>（<file>）入る］`. */
  function ParseBasicImage(text: string, at: nat): (r: Option<Match>)
    ensures r.Some? ==> 7 < r.value.length <= |text|
    ensures r.Some? ==>
      var e := r.value.element;
      && e.ImageElement?
      && HasAt(text, 0, "［＃") && HasAt(text, r.value.length - 4, "）入る］")
      && e.image.filename.Some? && e.image.width.None? && e.image.height.None? && e.image.base64.None?
      && e.image.range == Range(at, at + r.value.length)
  {
    if !HasAt(text, 0, "［＃") then None
    else
      var a := IndexOf(text, '（', 2);
      if a == |text| || a < 3 then None
      else
        var b := IndexOf(text, '）', a + 1);
        if b == |text| || b < a + 2 || !HasAt(text, b, "）入る］") then None
        else Some(BasicImage(text, at, a, b))
  }

  /** The image a basic directive denotes, given the offsets of `（` and `）`. */
  function BasicImage(text: string, at: nat, a: nat, b: nat): (r: Match)
    requires 2 <= a < b && b + 4 <= |text|
    ensures r.length == b + 4 && r.element.ImageElement? && r.element.image.range == Range(at, at + b + 4)
    ensures r.element.image.filename.Some? && r.element.image.width.None? && r.element.image.height.None?
    ensures r.element.image.base64.None?
  {
    Match(ImageElement(Image(Trim(text[2..a]), Some(Trim(text[a + 1..b])), None, None, None, Range(at, at + b + 4))), b + 4)
  }

  /** `parseImage`: the with-size form first, the basic form otherwise. */
  function ParseImage(text: string, at: nat): (r: Option<Match>)
    ensures ParseSizedImage(text, at).Some? ==> r == ParseSizedImage(text, at)
    ensures ParseSizedImage(text, at).None? ==> r == ParseBasicImage(text, at)
    ensures r.Some? ==> r.value.element.ImageElement? && HasAt(text, 0, "［＃")
  {
    match ParseSizedImage(text, at)
    case Some(m) => Some(m)
    case None => ParseBasicImage(text, at)
  }

  /** No c in text[lo..hi). */
  predicate NoCharIn(text: string, lo: nat, hi: nat, c: char)
  {
    forall k :: lo <= k < hi && k < |text| ==> text[k] != c
  }

  lemma IndexOfExact(text: string, c: char, from: nat, i: nat)
    requires from <= i < |text| && text[i] == c && NoCharIn(text, from, i, c)
    ensures IndexOf(text, c, from) == i
  {
  }

  lemma IndexOfAbsent(text: string, c: char, from: nat)
    requires from <= |text| && NoCharIn(text, from, |text|, c)
    ensures IndexOf(text, c, from) == |text|
  {
  }

  lemma {:induction false} DigitsFromExact(text: string, i: nat, j: nat)
    requires i <= j < |text|
    requires forall k :: i <= k < j ==> Formatting.IsHalfWidthDigit(text[k])
    requires !Formatting.IsHalfWidthDigit(text[j])
    ensures DigitsFrom(text, i) == j
    decreases j - i
  {
    if i < j {
      DigitsFromExact(text, i + 1, j);
    }
  }

  /** The sized form read off the offsets of `（` (a), `、` (m), `×` (x) and `）` (e): with no
      earlier `（` or `、` and digits between the delimiters, the match is exactly the image
      these slices describe. */
  lemma SizedImageAt(text: string, at: nat, a: nat, m: nat, x: nat, e: nat)
    requires HasAt(text, 0, "［＃") && 3 <= a < |text| && text[a] == '（' && NoCharIn(text, 2, a, '（')
    requires a + 2 <= m && NoCharIn(text, a + 1, m, '、')
    requires HasAt(text, m, "、横") && m + 2 < x && HasAt(text, x, "×縦") && x + 2 < e && HasAt(text, e, "）入る］")
    requires forall k :: m + 2 <= k < x ==> Formatting.IsHalfWidthDigit(text[k])
    requires forall k :: x + 2 <= k < e ==> Formatting.IsHalfWidthDigit(text[k])
    ensures ParseImage(text, at) == Some(SizedImage(text, at, a, m, x, e))
  {
    SizedDelimiters(text, a, m, x, e);
    SizedImageOf(text, at, a, m, x, e);
  }

  lemma SizedDelimiters(text: string, a: nat, m: nat, x: nat, e: nat)
    requires 3 <= a < |text| && text[a] == '（' && NoCharIn(text, 2, a, '（')
    requires a + 2 <= m && NoCharIn(text, a + 1, m, '、')
    requires HasAt(text, m, "、横") && m + 2 < x && HasAt(text, x, "×縦") && x + 2 < e && HasAt(text, e, "）入る］")
    requires forall k :: m + 2 <= k < x ==> Formatting.IsHalfWidthDigit(text[k])
    requires forall k :: x + 2 <= k < e ==> Formatting.IsHalfWidthDigit(text[k])
    ensures IndexOf(text, '（', 2) == a
    ensures IndexOf(text, '、', a + 1) == m
    ensures SizeTail(text, m) == Some(SizeOffsets(x, e))
  {
    IndexOfExact(text, '（', 2, a);
    assert text[m] == text[m..m + 2][0];
    IndexOfExact(text, '、', a + 1, m);
    SizeTailAt(text, m, x, e);
  }

  /** The size tail read off the offsets of `×` (x) and `）` (e). */
  lemma SizeTailAt(text: string, m: nat, x: nat, e: nat)
    requires HasAt(text, m, "、横") && m + 2 < x && HasAt(text, x, "×縦") && x + 2 < e && HasAt(text, e, "）入る］")
    requires forall k :: m + 2 <= k < x ==> Formatting.IsHalfWidthDigit(text[k])
    requires forall k :: x + 2 <= k < e ==> Formatting.IsHalfWidthDigit(text[k])
    ensures SizeTail(text, m) == Some(SizeOffsets(x, e))
  {
    assert text[x] == text[x..x + 2][0];
    DigitsFromExact(text, m + 2, x);
    assert text[e] == text[e..e + 4][0];
    DigitsFromExact(text, x + 2, e);
  }

  lemma SizedImageOf(text: string, at: nat, a: nat, m: nat, x: nat, e: nat)
    requires HasAt(text, 0, "［＃") && 3 <= a < |text| && a + 2 <= m < |text|
    requires IndexOf(text, '（', 2) == a
    requires IndexOf(text, '、', a + 1) == m
    requires SizeTail(text, m) == Some(SizeOffsets(x, e))
    ensures ParseImage(text, at) == Some(SizedImage(text, at, a, m, x, e))
  {
  }

  /** The basic form read off the offsets of `（` (a) and `）` (b), when the sized form does
      not apply because no `、` follows the `（`. */
  lemma BasicImageAt(text: string, at: nat, a: nat, b: nat)
    requires HasAt(text, 0, "［＃") && 3 <= a < |text| && text[a] == '（' && NoCharIn(text, 2, a, '（')
    requires a + 2 <= b && HasAt(text, b, "）入る］") && NoCharIn(text, a + 1, b, '）')
    requires NoCharIn(text, a + 1, |text|, '、')
    ensures ParseImage(text, at) == Some(BasicImage(text, at, a, b))
  {
    BasicDelimiters(text, a, b);
    BasicImageOf(text, at, a, b);
  }

  lemma BasicDelimiters(text: string, a: nat, b: nat)
    requires 3 <= a < |text| && text[a] == '（' && NoCharIn(text, 2, a, '（')
    requires a + 2 <= b && HasAt(text, b, "）入る］") && NoCharIn(text, a + 1, b, '）')
    requires NoCharIn(text, a + 1, |text|, '、')
    ensures IndexOf(text, '（', 2) == a
    ensures IndexOf(text, '）', a + 1) == b
    ensures IndexOf(text, '、', a + 1) == |text|
  {
    IndexOfExact(text, '（', 2, a);
    assert text[b] == text[b..b + 4][0];
    IndexOfExact(text, '）', a + 1, b);
    IndexOfAbsent(text, '、', a + 1);
  }

  lemma BasicImageOf(text: string, at: nat, a: nat, b: nat)
    requires HasAt(text, 0, "［＃") && 3 <= a < |text| && a + 2 <= b && HasAt(text, b, "）入る］")
    requires IndexOf(text, '（', 2) == a
    requires IndexOf(text, '）', a + 1) == b
    requires IndexOf(text, '、', a + 1) == |text|
    ensures ParseImage(text, at) == Some(BasicImage(text, at, a, b))
  {
    assert ParseSizedImage(text, at).None?;
    assert ParseBasicImage(text, at) == Some(BasicImage(text, at, a, b));
  }

  /** A string that neither starts nor ends with whitespace is its own trim. */
  lemma NoEdgeWhitespace(s: string)
    requires |s| > 0 && !IsWhitespace(s[0]) && !IsWhitespace(s[|s| - 1])
    ensures Trim(s) == s
  {
  }

  const SizedExampleText := "［＃石鏃二つの図（fig42154_01.png、横321×縦123）入る］"
  const BasicExampleText := "［＃挿絵（image001.png）入る］"

  lemma SizedExampleDelimiters()
    ensures |SizedExampleText| == 38
    ensures HasAt(SizedExampleText, 0, "［＃") && SizedExampleText[8] == '（'
    ensures NoCharIn(SizedExampleText, 2, 8, '（') && NoCharIn(SizedExampleText, 9, 24, '、')
    ensures HasAt(SizedExampleText, 24, "、横") && HasAt(SizedExampleText, 29, "×縦")
    ensures HasAt(SizedExampleText, 34, "）入る］")
    ensures forall k :: 26 <= k < 29 ==> Formatting.IsHalfWidthDigit(SizedExampleText[k])
    ensures forall k :: 31 <= k < 34 ==> Formatting.IsHalfWidthDigit(SizedExampleText[k])
  {
    var t := SizedExampleText;
    assert t[0] == '［' && t[1] == '＃';
    assert t[0..2] == "［＃";
    assert t[24..26] == "、横";
    assert t[29..31] == "×縦";
    assert t[34..38] == "）入る］";
  }

  lemma SizedExampleDescription()
    ensures |SizedExampleText| == 38 && SizedExampleText[2..8] == "石鏃二つの図"
  {
    var t := SizedExampleText;
    assert t[2] == '石' && t[3] == '鏃' && t[4] == '二' && t[5] == 'つ' && t[6] == 'の' && t[7] == '図';
  }

  lemma SizedExampleFile()
    ensures |SizedExampleText| == 38 && SizedExampleText[9..24] == "fig42154_01.png"
  {
    var t := SizedExampleText;
    var head := "［＃石鏃二つの図（";
    assert t == head + "fig42154_01.png" + "、横321×縦123）入る］";
    assert |head| == 9;
  }

  lemma SizedExampleFields()
    ensures |SizedExampleText| == 38
    ensures Trim(SizedExampleText[2..8]) == "石鏃二つの図"
    ensures Trim(SizedExampleText[9..24]) == "fig42154_01.png"
    ensures SizedExampleText[26..29] == "321" && SizedExampleText[31..34] == "123"
  {
    var t := SizedExampleText;
    SizedExampleDescription();
    SizedExampleFile();
    assert t[26..29] == "321";
    assert t[31..34] == "123";
    NoEdgeWhitespace("石鏃二つの図");
    NoEdgeWhitespace("fig42154_01.png");
  }

  lemma SizeValues()
    ensures Formatting.DecimalValue("321") == 321 && Formatting.DecimalValue("123") == 123
  {
    assert "321"[..2] == "32" && "32"[..1] == "3" && "3"[..0] == "";
    assert "123"[..2] == "12" && "12"[..1] == "1" && "1"[..0] == "";
  }

  /** The test directive `［＃石鏃二つの図（fig42154_01.png、横321×縦123）入る］`. */
  lemma SizedImageExample()
    ensures ParseImage(SizedExampleText, 0)
      == Some(Match(ImageElement(Image("石鏃二つの図", Some("fig42154_01.png"), Some(321), Some(123), None,
                                       Range(0, 38))), 38))
  {
    SizedExampleDelimiters();
    SizedImageAt(SizedExampleText, 0, 8, 24, 29, 34);
    SizedExampleFields();
    SizeValues();
  }

  lemma BasicExampleDelimiters()
    ensures |BasicExampleText| == 21
    ensures HasAt(BasicExampleText, 0, "［＃") && BasicExampleText[4] == '（'
    ensures NoCharIn(BasicExampleText, 2, 4, '（') && NoCharIn(BasicExampleText, 5, 17, '）')
    ensures NoCharIn(BasicExampleText, 5, 21, '、') && HasAt(BasicExampleText, 17, "）入る］")
  {
    var t := BasicExampleText;
    assert t[0..2] == "［＃";
    assert t[17..21] == "）入る］";
  }

  lemma BasicExampleFields()
    ensures |BasicExampleText| == 21
    ensures Trim(BasicExampleText[2..4]) == "挿絵" && Trim(BasicExampleText[5..17]) == "image001.png"
  {
    var t := BasicExampleText;
    assert t[2..4] == "挿絵";
    assert t[5..17] == "image001.png";
    NoEdgeWhitespace("挿絵");
    NoEdgeWhitespace("image001.png");
  }

  /** The test directive `［＃挿絵（image001.png）入る］`. */
  lemma BasicImageExample()
    ensures ParseImage(BasicExampleText, 0)
      == Some(Match(ImageElement(Image("挿絵", Some("image001.png"), None, None, None, Range(0, 21))), 21))
  {
    BasicExampleDelimiters();
    BasicImageAt(BasicExampleText, 0, 4, 17);
    BasicExampleFields();
  }

  // ---------------------------------------------------------------------------------------
  // Plain text

  /** The class `[｜［《》]` that ends a plain-text run. */
  predicate IsSpecial(c: char)
  {
    c == '｜' || c == '［' || c == '《' || c == '》'
  }

  /** `text.search(/[｜［《》]/)`, with |text| standing for "not found". */
  function FirstSpecial(text: string): (k: nat)
    ensures k <= |text|
    ensures forall i :: 0 <= i < k ==> !IsSpecial(text[i])
    ensures k < |text| ==> IsSpecial(text[k])
  {
    if |text| == 0 then 0
    else if IsSpecial(text[0]) then 0
    else 1 + FirstSpecial(text[1..])
  }

  /** `parsePlainText`: the run up to the next special character, holding back the one
      character before a `《` so the next step can try it as a ruby base. */
  function ParsePlainText(text: string, at: nat): (r: Option<Match>)
    ensures r.Some? ==> (1 <= r.value.length <= |text|
      && r.value.element == Text(text[..r.value.length], Range(at, at + r.value.length)))
    ensures var k := FirstSpecial(text);
      && (k == |text| ==> (r.Some? <==> |text| > 0) && (r.Some? ==> r.value.length == |text|))
      && (k < |text| && k == 0 ==> r.Some? && r.value.length == 1)
      && (k < |text| && k == 1 && text[k] == '《' ==> r.None?)
      && (k < |text| && k > 1 && text[k] == '《' ==> r.Some? && r.value.length == k - 1)
      && (k < |text| && k > 0 && text[k] != '《' ==> r.Some? && r.value.length == k)
  {
    var k := FirstSpecial(text);
    var found := k < |text|;
    if found && k > 0 && text[k] == '《' && k <= 1 then None
    else
      var endIndex :=
        if !found then |text|
        else if k > 0 && text[k] == '《' then k - 1
        else if k < 1 then 1
        else k;
      if endIndex == 0 then None
      else Some(Match(Text(text[..endIndex], Range(at, at + endIndex)), endIndex))
  }

  /** What plain text emits is either free of special characters, or one special character
      on its own. */
  lemma PlainTextContent(text: string, at: nat)
    ensures var r := ParsePlainText(text, at);
      r.Some? ==>
        var s := r.value.element.content;
        (forall i :: 0 <= i < |s| ==> !IsSpecial(s[i])) || (|s| == 1 && IsSpecial(s[0]))
  {
  }

  /** When plain text stops short of a `《`, it leaves exactly one character before that `《`
      for the next step; when it returns nothing, that one character is all there is before
      the `《`. */
  lemma PlainTextHoldsBackBase(text: string, at: nat)
    ensures var r := ParsePlainText(text, at);
      var k := FirstSpecial(text);
      k < |text| && k > 0 && text[k] == '《' ==>
        (r.Some? ==> r.value.length + 1 == k && text[r.value.length + 1] == '《')
        && (r.None? ==> k == 1 && text[1] == '《' && !IsSpecial(text[0]))
  {
  }
}
