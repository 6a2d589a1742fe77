/** The notation parser: it splits the text into physical lines, scans each line with the
    recognisers in priority order, runs the block and directive passes, tidies text runs, and
    wraps the result in a document with its headings, images and metadata. */
module Parser {
  import opened Wrappers
  import opened Strings
  import opened Elements
  import Formatting
  import Inline
  import Blocks
  import Passes

  // ---------------------------------------------------------------------------------------
  // Configuration

  datatype ParserConfig = ParserConfig(
    enableRuby: bool,
    enableHeadings: bool,
    enableImages: bool,
    enableCaptions: bool,
    enableEmphasis: bool,
    enableTextFormatting: bool,
    preserveLeadingSpaces: bool,
    maxIndentCount: nat,
    strictMode: bool,
    maxFileSize: nat)

  /** The configuration the constructor fills in for every option the caller leaves out. */
  const DefaultConfig := ParserConfig(true, true, true, true, true, true, true,
                                      Formatting.DefaultMaxIndentCount, false, 10 * 1024 * 1024)

  // ---------------------------------------------------------------------------------------
  // One position of the scanner

  /** The notations the scanner tries at a position, in priority order: the four formatting
      directives (when text formatting is on), ruby, heading, image, caption. Each switch
      turns its recogniser off. */
  datatype Notation = LeftIndentNotation | RightIndentNotation | BlockStartNotation | BlockEndNotation
                    | RubyNotation | HeadingNotation | ImageNotation | CaptionNotation | PlainTextNotation

  const Order: seq<Notation> := [LeftIndentNotation, RightIndentNotation, BlockStartNotation, BlockEndNotation,
                                  RubyNotation, HeadingNotation, ImageNotation, CaptionNotation, PlainTextNotation]

  function Attempt(n: Notation, config: ParserConfig, rest: string, at: nat, makeId: string -> string): (r: Option<Match>)
    ensures r.Some? ==> 1 <= r.value.length <= |rest|
    ensures !config.enableTextFormatting
      && (n == LeftIndentNotation || n == RightIndentNotation || n == BlockStartNotation || n == BlockEndNotation)
      ==> r.None?
    ensures !config.enableRuby && n == RubyNotation ==> r.None?
    ensures !config.enableHeadings && n == HeadingNotation ==> r.None?
    ensures !config.enableImages && n == ImageNotation ==> r.None?
    ensures !config.enableCaptions && n == CaptionNotation ==> r.None?
  {
    match n
    case LeftIndentNotation => if config.enableTextFormatting then Formatting.ParseLeftIndent(rest, at) else None
    case RightIndentNotation => if config.enableTextFormatting then Formatting.ParseRightIndent(rest, at) else None
    case BlockStartNotation => if config.enableTextFormatting then Formatting.ParseBlockIndentStart(rest, at, config.maxIndentCount) else None
    case BlockEndNotation => if config.enableTextFormatting then Formatting.ParseBlockIndentEnd(rest, at) else None
    case RubyNotation => Inline.ParseRuby(rest, at, config.enableRuby)
    case HeadingNotation => if config.enableHeadings then Inline.ParseHeading(rest, at, makeId) else None
    case ImageNotation => if config.enableImages then Inline.ParseImage(rest, at) else None
    case CaptionNotation => if config.enableCaptions then Inline.ParseCaption(rest, at) else None
    case PlainTextNotation => Inline.ParsePlainText(rest, at)
  }

  function FirstMatch(ns: seq<Notation>, config: ParserConfig, rest: string, at: nat, makeId: string -> string): (r: Option<Match>)
    ensures r.Some? ==> 1 <= r.value.length <= |rest|
  {
    if |ns| == 0 then None
    else
      var m := Attempt(ns[0], config, rest, at, makeId);
      if m.Some? then m else FirstMatch(ns[1..], config, rest, at, makeId)
  }

  function ScanFrom(config: ParserConfig, line: string, i: nat, lineStart: nat, makeId: string -> string): seq<Element>
    requires i <= |line|
    decreases |line| - i
  {
    if i == |line| then []
    else match FirstMatch(Order, config, line[i..], lineStart + i, makeId)
      case Some(m) => [m.element] + ScanFrom(config, line, i + m.length, lineStart, makeId)
      case None => ScanFrom(config, line, i + 1, lineStart, makeId)
  }

  // ---------------------------------------------------------------------------------------
  // Lines

  /** A piece of `split(/\r?\n/)` loses the carriage return before its line feed. */
  function DropCarriageReturn(s: string): string
  {
    if |s| > 0 && s[|s| - 1] == '\r' then s[..|s| - 1] else s
  }

  /** `text.split(/\r?\n/)`. */
  function SplitLines(text: string): (lines: seq<string>)
    decreases |text|
  {
    var k := IndexOf(text, '\n', 0);
    if k == |text| then [text] else [DropCarriageReturn(text[..k])] + SplitLines(text[k + 1..])
  }

  /** The line the scanner works on: spaces and tabs stripped from the front when leading
      spaces are preserved (full-width spaces stay), `trim()` otherwise. */
  function Processed(config: ParserConfig, line: string): string
  {
    if config.preserveLeadingSpaces then Formatting.StripLeadingSpaces(line) else Trim(line)
  }

  /** The elements one line contributes: a lone line-break marker when the processed line is
      empty, else its scan followed by a marker placed after the line's original length. */
  function LineElements(config: ParserConfig, line: string, lineStart: nat, makeId: string -> string): seq<Element>
  {
    var processed := Processed(config, line);
    if |processed| == 0 then [Text("\n", Range(lineStart, lineStart + 1))]
    else ScanFrom(config, processed, 0, lineStart, makeId) + [Text("\n", Range(lineStart + |line|, lineStart + |line| + 1))]
  }

  function ScanLines(config: ParserConfig, lines: seq<string>, n: nat, lineStart: nat, makeId: string -> string): seq<Element>
    requires n <= |lines|
    decreases |lines| - n
  {
    if n == |lines| then []
    else
      var next := lineStart + |lines[n]| + 1;
      LineElements(config, lines[n], lineStart, makeId) + ScanLines(config, lines, n + 1, next, makeId)
  }

  /** The block pass and the directive pass, when text formatting is on. */
  function Formatted(config: ParserConfig, es: seq<Element>): seq<Element>
  {
    if config.enableTextFormatting then Passes.MergeDirectives(Blocks.Process(es)) else es
  }

  /** What `parseText` returns. */
  function ParsedElements(config: ParserConfig, text: string, makeId: string -> string): seq<Element>
  {
    Passes.Cleanup(Formatted(config, ScanLines(config, SplitLines(text), 0, 0, makeId)))
  }

  lemma Assoc(a: seq<Element>, b: seq<Element>, c: seq<Element>)
    ensures (a + b) + c == a + (b + c)
  {
  }

  method ScanLine(config: ParserConfig, processedLine: string, lineStart: nat, makeId: string -> string)
    returns (elements: seq<Element>)
    ensures elements == ScanFrom(config, processedLine, 0, lineStart, makeId)
  {
    elements := [];
    var currentIndex := 0;
    while currentIndex < |processedLine|
      invariant currentIndex <= |processedLine|
      invariant elements + ScanFrom(config, processedLine, currentIndex, lineStart, makeId)
        == ScanFrom(config, processedLine, 0, lineStart, makeId)
    {
      var remaining := processedLine[currentIndex..];
      var token := FirstMatch(Order, config, remaining, lineStart + currentIndex, makeId);
      if token.Some? {
        elements := elements + [token.value.element];
        currentIndex := currentIndex + token.value.length;
      } else {
        currentIndex := currentIndex + 1;
      }
    }
  }

  lemma ScanLinesStep(config: ParserConfig, lines: seq<string>, n: nat, lineStart: nat, makeId: string -> string)
    requires n < |lines|
    ensures ScanLines(config, lines, n, lineStart, makeId)
      == LineElements(config, lines[n], lineStart, makeId) + ScanLines(config, lines, n + 1, lineStart + |lines[n]| + 1, makeId)
  {
  }

  method ParseText(config: ParserConfig, text: string, makeId: string -> string) returns (result: seq<Element>)
    ensures result == ParsedElements(config, text, makeId)
  {
    var lines := SplitLines(text);
    var elements := ScanAll(config, lines, makeId);
    var processedElements := elements;
    if config.enableTextFormatting {
      processedElements := Blocks.ProcessIndentBlocks(elements);
      processedElements := Passes.ProcessIndentInstructions(processedElements);
    }
    result := Passes.CleanupElements(processedElements);
  }

  method ScanAll(config: ParserConfig, lines: seq<string>, makeId: string -> string) returns (elements: seq<Element>)
    ensures elements == ScanLines(config, lines, 0, 0, makeId)
  {
    elements := [];
    var lineStart: nat := 0;
    var n := 0;
    while n < |lines|
      invariant n <= |lines|
      invariant elements + ScanLines(config, lines, n, lineStart, makeId) == ScanLines(config, lines, 0, 0, makeId)
    {
      ScanLinesStep(config, lines, n, lineStart, makeId);
      var lineElements := LineOf(config, lines[n], lineStart, makeId);
      Assoc(elements, lineElements, ScanLines(config, lines, n + 1, lineStart + |lines[n]| + 1, makeId));
      elements := elements + lineElements;
      lineStart := lineStart + |lines[n]| + 1;
      n := n + 1;
    }
  }

  method LineOf(config: ParserConfig, line: string, lineStart: nat, makeId: string -> string) returns (lineElements: seq<Element>)
    ensures lineElements == LineElements(config, line, lineStart, makeId)
  {
    var processedLine := Processed(config, line);
    if |processedLine| == 0 {
      return [Text("\n", Range(lineStart, lineStart + 1))];
    }
    var scanned := ScanLine(config, processedLine, lineStart, makeId);
    lineElements := scanned + [Text("\n", Range(lineStart + |line|, lineStart + |line| + 1))];
  }

  // ---------------------------------------------------------------------------------------
  // The document

  datatype EncodingInfo = EncodingInfo(
    encoding: string,
    confidence: Option<int>,
    hasBom: Option<bool>,
    isValidEncoding: Option<bool>)

  datatype Metadata = Metadata(
    filename: string,
    fileSize: nat,
    encoding: string,
    encodingConfidence: Option<int>,
    hasBom: Option<bool>,
    isValidEncoding: Option<bool>,
    elementCount: nat,
    characterCount: nat)

  datatype Document = Document(
    title: Option<string>,
    elements: seq<Element>,
    headings: seq<Heading>,
    images: seq<Image>,
    metadata: Metadata)

  datatype ParseError = FileTooLarge(maxFileSize: nat)

  /** The headings among the elements, in order. */
  function Headings(es: seq<Element>): seq<Heading>
  {
    if |es| == 0 then []
    else Headings(es[..|es| - 1]) + (if es[|es| - 1].HeadingElement? then [es[|es| - 1].heading] else [])
  }

  /** The images among the elements, in order. */
  function Images(es: seq<Element>): seq<Image>
  {
    if |es| == 0 then []
    else Images(es[..|es| - 1]) + (if es[|es| - 1].ImageElement? then [es[|es| - 1].image] else [])
  }

  /** `headings.find(h => h.level === 'large')?.text`. */
  function Title(hs: seq<Heading>): Option<string>
  {
    if |hs| == 0 then None else if hs[0].level == Large then Some(hs[0].text) else Title(hs[1..])
  }

  /** `encodingInfo?.encoding || 'UTF-8'`: a missing or empty encoding name reads as UTF-8. */
  function EncodingName(info: Option<EncodingInfo>): string
  {
    if info.Some? && info.value.encoding != "" then info.value.encoding else "UTF-8"
  }

  /** `createDocument`, without the parse time. */
  function CreateDocument(elements: seq<Element>, headings: seq<Heading>, images: seq<Image>,
                          filename: string, text: string, info: Option<EncodingInfo>): Document
  {
    Document(Title(headings), elements, headings, images,
      Metadata(filename, |text|, EncodingName(info),
               if info.Some? then info.value.confidence else None,
               if info.Some? then info.value.hasBom else None,
               if info.Some? then info.value.isValidEncoding else None,
               |elements|, |text|))
  }

  /** The document `parse` returns for text within the size limit: an empty one for empty
      text, otherwise the parsed elements with their headings and images. */
  function DocumentOf(config: ParserConfig, text: string, filename: string, info: Option<EncodingInfo>,
                      makeId: string -> string): Document
  {
    var es := if |text| == 0 then [] else ParsedElements(config, text, makeId);
    CreateDocument(es, Headings(es), Images(es), filename, text, info)
  }

  lemma CollectStep(es: seq<Element>, i: nat)
    requires i < |es|
    ensures Headings(es[..i + 1]) == Headings(es[..i]) + (if es[i].HeadingElement? then [es[i].heading] else [])
    ensures Images(es[..i + 1]) == Images(es[..i]) + (if es[i].ImageElement? then [es[i].image] else [])
    ensures es[..i + 1] == es[..i] + [es[i]]
  {
    assert es[..i + 1][..i] == es[..i];
  }

  /** `parse`: rejects text longer than the size limit, returns the empty document for empty
      text, and otherwise collects the headings and images of the parsed elements in one
      pass. */
  method Parse(config: ParserConfig, text: string, filename: string, info: Option<EncodingInfo>,
               makeId: string -> string) returns (r: Result<Document, ParseError>)
    ensures |text| > config.maxFileSize ==> r == Err(FileTooLarge(config.maxFileSize))
    ensures |text| <= config.maxFileSize ==> r == Ok(DocumentOf(config, text, filename, info, makeId))
    ensures |text| == 0 ==>
      (r.Ok? && r.value.elements == [] && r.value.headings == [] && r.value.images == [] &&
       r.value.title == None && r.value.metadata.elementCount == 0)
  {
    if |text| > config.maxFileSize {
      return Err(FileTooLarge(config.maxFileSize));
    }
    var elements: seq<Element> := [];
    var headings: seq<Heading> := [];
    var images: seq<Image> := [];
    if |text| == 0 {
      return Ok(CreateDocument(elements, headings, images, filename, text, info));
    }
    var parsedElements := ParseText(config, text, makeId);
    for i := 0 to |parsedElements|
      invariant elements == parsedElements[..i]
      invariant headings == Headings(elements) && images == Images(elements)
    {
      var element := parsedElements[i];
      CollectStep(parsedElements, i);
      elements := elements + [element];
      if element.HeadingElement? {
        headings := headings + [element.heading];
      } else if element.ImageElement? {
        images := images + [element.image];
      }
    }
    assert elements == parsedElements;
    r := Ok(CreateDocument(elements, headings, images, filename, text, info));
  }
}
