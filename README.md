# Aozora Bunko text parser — a Dafny model

This project models the core of a viewer for Aozora Bunko (青空文庫) texts. It covers the
parser that turns a plain-text book into a list of document elements: text runs, ruby
(furigana), headings, images, captions, indentation directives and indent blocks. Around the
parser it also models:

- detecting whether the file's bytes are UTF-8, Shift_JIS or binary;
- the heading-tree helpers of the table of contents.

Each core file becomes one or more Dafny modules:

| module | models |
|---|---|
| `Elements` | one datatype per element kind, with its source range |
| `Strings` | the string primitives the parser uses: search, ECMAScript `trim`, prefixes |
| `Formatting` | the formatting-instruction recognisers: `［＃N字上げ］` left indents, `［＃地からN字上げ］` right indents, `［＃ここからN字下げ］` block starts and `［＃ここで字下げ終わり］` block ends |
| `Inline` | the recognisers for ruby, headings `…［＃「…」は大見出し］`, captions, images and plain text; each is a function from the rest of the line to an optional match |
| `Blocks` | the indent-block pass: it folds start/end markers into nested `IndentBlock`s |
| `Passes` | the merging of left/right directives into the following text, and the final cleanup pass |
| `Parser` | the line scanner, `parseText`, `parse` and `createDocument` |
| `ParserProperties`, `DocumentProperties` | what the whole scan promises |
| `Hierarchy` | the heading tree: its construction, flattening, searches, and the visible window of the virtual list |
| `Encoding` | the encoding detector |

**Modelling choices:**

- *Loops become methods.* Where the source loops and updates variables, the model is a
  `method` with a `while` loop and invariants. It is proved equal to a recursive
  specification function, and the properties are then proved about that function as lemmas.
  This covers the scanner, the block processor, both passes, the tree builder, the tree walks
  and the byte scans.
- *Recognisers become pure functions.* The regular-expression recognisers are written out by
  hand as pure functions. For each one a lemma says exactly which inputs it accepts and what
  element it returns.

**Where the code and its design description disagree**, the model follows the code. A lemma
shows the code's behaviour in each case:

- *Cleanup is not idempotent.* The first cleanup joins two single newlines into `\n\n`. A second
  cleanup then drops that run, because it is blank and not a lone `\n`
  (`Passes.CleanupNotIdempotent`).
- *Some formatting instructions survive.* Left and right directives that end up inside an indent
  block are never merged and stay in the output (`Passes.NestedDirectiveKept`).
- *Headings and captions do not check the quoted text.* They are recognised whether or not
  the quoted part matches the text before the bracket (`Inline.HeadingExact`,
  `Inline.CaptionExact`).
- *Text can be lost.* A base character followed by `《》` with an empty reading is lost from
  the output text (`ParserProperties.EmptyReadingDropsBase`).

## Model

| member | source | states |
|---|---|---|
| Formatting.NormalizeDigits | src/lib/parser/FormattingInstructionParser.ts:25-27 | every full-width digit becomes the half-width digit of the same value; nothing else changes; the length is kept |
| Formatting.ToFullWidth | src/lib/parser/FormattingInstructionParser.ts:25-27 | each half-width digit becomes its full-width twin (code point + 0xFEE0); the length is kept |
| Formatting.DigitRun | src/lib/parser/FormattingInstructionParser.ts:17-18 | the longest run of indent digits at the head of the text: every character in it is a digit and the next one is not |
| Formatting.MatchNumbered | src/lib/parser/FormattingInstructionParser.ts:17-22 | on a match, the returned digits form a digit string and the text starts with opener + digits + closer |
| Formatting.MatchNumberedExact | src/lib/parser/FormattingInstructionParser.ts:17-22 | opener + digits + closer + anything matches, and yields exactly those digits |
| Formatting.ParseLeftIndent | src/lib/parser/FormattingInstructionParser.ts:15-47 | on success: a `left-indent` instruction whose text is the matched prefix, whose count is positive and whose range spans it |
| Formatting.ParseRightIndent | src/lib/parser/FormattingInstructionParser.ts:49-81 | the same for `地から…字上げ`: a `right-indent` instruction with a positive count |
| Formatting.ParseBlockIndentStart | src/lib/parser/FormattingInstructionParser.ts:83-118 | on success: an `indent-start` over the matched prefix whose count is the parsed number, at least 1, clamped to the configured maximum |
| Formatting.ParseBlockIndentEnd | src/lib/parser/FormattingInstructionParser.ts:120-142 | recognised exactly when the line starts with `［＃ここで字下げ終わり］`; 12 characters long and without a count |
| Formatting.StripLeadingSpaces | src/lib/parser/FormattingInstructionParser.ts:144-147 | the result is the suffix of the line of its own length |
| Formatting.LeftIndentExact | src/lib/parser/FormattingInstructionParser.ts:17-46 | `［＃N字上げ］` is recognised exactly when N ≠ 0, with count N, this text and range |
| Formatting.RightIndentExact | src/lib/parser/FormattingInstructionParser.ts:51-80 | `［＃地からN字上げ］` is recognised exactly when N ≠ 0, with count N |
| Formatting.BlockIndentStartExact | src/lib/parser/FormattingInstructionParser.ts:85-117 | `［＃ここからN字下げ］` is recognised exactly when N ≠ 0; the count is N clamped to the maximum |
| Formatting.ZeroCountRejected | src/lib/parser/FormattingInstructionParser.ts:28-32 | a count of zero (any spelling, such as `００`) is never recognised, by any of the three numbered forms; the same test is at lines 62-66 and 96-100 |
| Formatting.NegativeCountRejected | src/lib/parser/FormattingInstructionParser.ts:17-22 | a `-` where the digits should start is never recognised, by any of the three numbered forms |
| Formatting.NormalizeFullWidth | src/lib/parser/FormattingInstructionParser.ts:25-27 | normalising a full-width digit string gives its half-width twin |
| Formatting.NormalizeHalfWidth | src/lib/parser/FormattingInstructionParser.ts:25-27 | half-width digits are left unchanged |
| Formatting.SameDigitsSameCount | src/lib/parser/FormattingInstructionParser.ts:25-28 | two digit strings that normalise to the same digits give the same count |
| Formatting.FullWidthCount | src/lib/parser/FormattingInstructionParser.ts:25-28 | the full-width and half-width spellings of a number give the same count |
| Formatting.InstructionRecognisersDisjoint | src/lib/parser/AozoraParser.ts:114-150 | no line is accepted by two of the four instruction recognisers, so the order in which the scanner tries them does not matter |
| Formatting.LeftRightIndentSeparated | src/lib/parser/FormattingInstructionParser.ts:15-56 | text starting with `［＃地から` is never a left indent, and every right indent starts with it |
| Formatting.StripLeadingSpacesShape | src/lib/parser/FormattingInstructionParser.ts:144-147 | the line is the removed maximal run of half-width spaces/tabs followed by the result |
| Formatting.StripLeadingSpacesIdempotent | src/lib/parser/FormattingInstructionParser.ts:144-147 | stripping twice is stripping once |
| Formatting.FullWidthLeftIndentExample | src/lib/parser/__tests__/FormattingInstructionParser.test.ts:8-20 | `［＃２字上げ］` is a left indent of 2 over range 0..7 |
| Formatting.BlockStartClampExample | src/lib/parser/__tests__/FormattingInstructionParser.test.ts:156-162 | `［＃ここから100字下げ］` gives an indent start of 20 |
| Formatting.StripLeadingSpacesExample | src/lib/parser/__tests__/FormattingInstructionParser.test.ts:229-235 | half-width spaces before a full-width space go; the full-width space and what follows stay |
| Strings.TrimEmptyIffBlank | src/lib/parser/AozoraParser.ts:500 | `trim()` is empty exactly when every character is ECMAScript white space or a line terminator |
| Inline.ParseExplicitRangeRuby | src/lib/parser/AozoraParser.ts:288-296 | on success: a ruby whose base and reading are non-empty and free of the delimiters, with the matched length |
| Inline.ParseBasicRuby | src/lib/parser/AozoraParser.ts:302-313 | on success: a one-character base that is neither `｜`, `［`, `《` nor white space (kana, Latin letters and `》` included), with a non-empty reading |
| Inline.ParseRuby | src/lib/parser/AozoraParser.ts:274-283 | the explicit form is tried first; the basic form only when the explicit one fails; nothing when ruby is disabled |
| Inline.ExplicitRubyExact | src/lib/parser/AozoraParser.ts:288-296 | `｜base《reading》` is accepted exactly for well-formed base and reading, with the element and length fixed |
| Inline.BasicRubyExact | src/lib/parser/AozoraParser.ts:302-313 | `c《reading》` is accepted exactly when c is none of `｜`, `［`, `《` and white space, and the reading is non-empty and free of `》` |
| Inline.ExplicitRubyExample | src/lib/parser/__tests__/AozoraParser.test.ts:29-40 | `｜我輩《わがはい》は猫である` gives the ruby 我輩/わがはい of length 9 |
| Inline.RubyFormsDisjoint | src/lib/parser/AozoraParser.ts:274-283 | no text is accepted by both ruby forms |
| Inline.FirstCloser | src/lib/parser/AozoraParser.ts:334 | the first closer of the list that occurs at a position; none exactly when none of them does |
| Inline.InnerSearch | src/lib/parser/AozoraParser.ts:334 | the least inner length q for a fixed leading length p |
| Inline.OuterSearch | src/lib/parser/AozoraParser.ts:334 | the least leading length p that admits an inner part |
| Inline.LazyBracket | src/lib/parser/AozoraParser.ts:334 | the lazy-quantifier match: the least (p, q) in backtracking order that fits; none exactly when nothing fits |
| Inline.HeadingMatch | src/lib/parser/AozoraParser.ts:337-351 | a heading of length p+3+q+7, with its level read from the closer and its text the inner part |
| Inline.ParseHeading | src/lib/parser/AozoraParser.ts:330-355 | recognised exactly when the lazy bracket search succeeds, and then the heading is that match |
| Inline.ParseCaption | src/lib/parser/AozoraParser.ts:397-417 | the same lazy search with the closer `」はキャプション］` |
| Inline.LazyBracketAt | src/lib/parser/AozoraParser.ts:334 | the first fit is the least leading length followed by the first closer |
| Inline.HeadingAt | src/lib/parser/AozoraParser.ts:330-355 | `lead［＃「inner」はX見出し］` is recognised with level X and text `inner` when lead and inner hold no bracket or line break |
| Inline.CaptionAt | src/lib/parser/AozoraParser.ts:397-417 | the same for captions |
| Inline.HeadingExact | src/lib/parser/AozoraParser.ts:330-355 | the leading text is never compared with the quoted text: any lead is accepted |
| Inline.CaptionExact | src/lib/parser/AozoraParser.ts:397-417 | the same for captions |
| Inline.HeadingExample | src/lib/parser/__tests__/AozoraParser.test.ts:102-115 | `第一章　始まり［＃「第一章　始まり」は大見出し］` is a large heading with that text |
| Inline.UnclosedHeadingRejected | src/lib/parser/__tests__/AozoraParser.test.ts:219-224 | a heading bracket without `］` is not a heading |
| Inline.DigitsFrom | src/lib/parser/AozoraParser.ts:361 | the maximal run of ASCII digits at a position |
| Inline.SizeTail | src/lib/parser/AozoraParser.ts:361 | the offsets of `×縦`, the height digits and `）入る］` after the width |
| Inline.ParseSizedImage | src/lib/parser/AozoraParser.ts:361-378 | on success: an image from `［＃` to `）入る］` with a file name, a width and a height, and no embedded data |
| Inline.SizedImage | src/lib/parser/AozoraParser.ts:365-377 | the image element over offsets 0..e+4 with file name, width and height present |
| Inline.ParseBasicImage | src/lib/parser/AozoraParser.ts:380-392 | on success: an image from `［＃` to `）入る］` with a file name and no size |
| Inline.BasicImage | src/lib/parser/AozoraParser.ts:380-392 | the image element over offsets 0..b+4 with a file name and no size |
| Inline.ParseImage | src/lib/parser/AozoraParser.ts:357-395 | the sized form first, the basic form otherwise |
| Inline.SizedImageAt | src/lib/parser/AozoraParser.ts:361-378 | `［＃d（f、横W×縦H）入る］` with d free of `（`, f free of `、` and W, H digit runs is recognised as the sized image of those offsets |
| Inline.BasicImageAt | src/lib/parser/AozoraParser.ts:380-392 | `［＃d（f）入る］` with d free of `（`, f free of `）` and no `、` after it is recognised as the basic image of those offsets |
| Inline.SizedImageExample | src/lib/parser/__tests__/AozoraParser.test.ts:148-158 | `［＃石鏃二つの図（fig42154_01.png、横321×縦123）入る］` gives that image, 321×123 |
| Inline.BasicImageExample | src/lib/parser/__tests__/AozoraParser.test.ts:161-170 | `［＃挿絵（image001.png）入る］` gives that image |
| Inline.FirstSpecial | src/lib/parser/AozoraParser.ts:428-429 | the first of `｜［《》`, or -1 when there is none: no special character comes before it |
| Inline.ParsePlainText | src/lib/parser/AozoraParser.ts:426-473 | on success the match is a text of its own first characters; for each case of the first special character the length is fixed: whole text, one character, one short of `《`, nothing before a lone base, or up to the special |
| Inline.PlainTextContent | src/lib/parser/AozoraParser.ts:426-473 | the run holds no special character, unless it is a single special character |
| Inline.PlainTextHoldsBackBase | src/lib/parser/AozoraParser.ts:432-447 | before `《`, the last character is left for the ruby recogniser, and a lone base yields nothing |
| Blocks.BlockCount | src/lib/parser/IndentBlockProcessor.ts:20 | the count of a block: the start's count, or 1 when it is missing or 0 |
| Blocks.ProcessIndentBlocks | src/lib/parser/IndentBlockProcessor.ts:11-92 | the loop with its stack of frames computes the block nesting of the input |
| Blocks.ProcessIsNested | src/lib/parser/IndentBlockProcessor.ts:11-92 | the stack-based fold equals the recursive nesting reading |
| Blocks.OneBlockPerStart | src/lib/parser/IndentBlockProcessor.ts:17-89 | the output holds the input's blocks plus one new block per start marker, closed or not |
| Blocks.OrderPreserved | src/lib/parser/IndentBlockProcessor.ts:49-69 | flattening the blocks gives the input's non-marker elements in their order |
| Blocks.NoMarkersLeak | src/lib/parser/IndentBlockProcessor.ts:16-59 | when the kept elements hold no start or end marker, none remains anywhere in the output |
| Blocks.ClosedBlock | src/lib/parser/IndentBlockProcessor.ts:25-46 | a start followed by unmarked elements and an end becomes one block with this range |
| Blocks.OpenBlock | src/lib/parser/IndentBlockProcessor.ts:72-89 | a start that is never closed becomes a block that keeps the start's range |
| Blocks.NestedBlocksExample | src/lib/parser/IndentBlockProcessor.ts:25-46 | a block inside a block is built inside it, between the elements before and after it |
| Blocks.LevelBalanced | src/lib/parser/IndentBlockProcessor.ts:15-69 | a balanced stretch (its starts and ends pair up like parentheses) is read completely at the current nesting level, and what follows it is read as if it were not there |
| Blocks.ProcessBalanced | src/lib/parser/IndentBlockProcessor.ts:11-92 | a balanced list comes out of the pass as its reading at the top level |
| Blocks.BalancedBlock | src/lib/parser/IndentBlockProcessor.ts:25-46 | a start, a balanced body of any depth and an end become one block holding the processed body, with the start's count and the range from start to end; what follows is processed on its own |
| Blocks.BalancedOpenBlock | src/lib/parser/IndentBlockProcessor.ts:72-89 | a start followed by a balanced body and no end becomes one block around the processed body, keeping the start's range |
| Blocks.ProcessInstructionFree | src/lib/parser/IndentBlockProcessor.ts:11-92 | a list without instructions comes out of the pass unchanged |
| Blocks.OrphanEndDropped | src/lib/parser/IndentBlockProcessor.ts:27-48 | an end marker with no open block is ignored |
| Blocks.RemoveFormattingInstructions | src/lib/parser/IndentBlockProcessor.ts:94-96 | no formatting instruction remains; never longer |
| Blocks.RemoveAppend | src/lib/parser/IndentBlockProcessor.ts:94-96 | removal distributes over concatenation |
| Blocks.RemoveMembers | src/lib/parser/IndentBlockProcessor.ts:94-96 | an element remains exactly when it was there and is not an instruction |
| Blocks.RemoveKeepsInstructionFree | src/lib/parser/IndentBlockProcessor.ts:94-96 | a list without instructions is unchanged |
| Passes.Attach | src/lib/parser/AozoraParser.ts:234-258 | the directive turned into an indented text of the next text's content |
| Passes.ProcessIndentInstructions | src/lib/parser/AozoraParser.ts:223-268 | the loop computes the merging of directives into following texts |
| Passes.MergeRemovesDirectives | src/lib/parser/AozoraParser.ts:226-265 | no left/right directive remains at the top level |
| Passes.DirectiveAttached | src/lib/parser/AozoraParser.ts:229-259 | a directive followed by a text becomes one indented text with the text's content and both ranges |
| Passes.DirectiveDropped | src/lib/parser/AozoraParser.ts:232-261 | a directive not followed by a text is dropped |
| Passes.NoDirectivesUnchanged | src/lib/parser/AozoraParser.ts:262-264 | a list without directives is unchanged |
| Passes.MergeAppend | src/lib/parser/AozoraParser.ts:226-265 | merging distributes over a split whose first half does not end in a directive |
| Passes.NestedDirectiveKept | src/lib/parser/AozoraParser.ts:209-220 | a directive inside an indent block is not merged; it survives the passes |
| Passes.CleanupElements | src/lib/parser/AozoraParser.ts:493-531 | the loop computes the cleanup of the list |
| Passes.CleanupTidy | src/lib/parser/AozoraParser.ts:499-523 | no blank text remains except newline runs, and no two adjacent texts are joinable |
| Passes.CleanupUnchanged | src/lib/parser/AozoraParser.ts:493-531 | a list with nothing droppable and no joinable neighbours is already clean |
| Passes.CleanupKeeps | src/lib/parser/AozoraParser.ts:493-531 | the non-text elements are kept in order, and the text content is that of the undropped texts |
| Passes.CleanupPair | src/lib/parser/AozoraParser.ts:504-523 | two texts are merged exactly when both are newline runs or both are multi-character and free of `\n` |
| Passes.CleanupNotIdempotent | src/lib/parser/AozoraParser.ts:511-514 | cleaning `\n`,`\n` joins them into `\n\n`; cleaning that again drops it, since it is blank and not a lone `\n` |
| Passes.StepCases | src/lib/parser/AozoraParser.ts:496-528 | each element is dropped, joined to the last one, or appended |
| Parser.Attempt | src/lib/parser/AozoraParser.ts:113-183 | a recogniser match consumes at least one character and no more than the rest of the line; the four formatting instructions match nothing when text formatting is off, and ruby, headings, images and captions nothing when their own option is off |
| Parser.FirstMatch | src/lib/parser/AozoraParser.ts:113-183 | the first recogniser that matches, in the source's order, with the same bounds |
| Parser.ScanLine | src/lib/parser/AozoraParser.ts:107-197 | the scan loop over one line computes the recursive scan |
| Parser.ScanAll | src/lib/parser/AozoraParser.ts:90-207 | the loop over all lines computes the recursive scan of the split lines |
| Parser.LineOf | src/lib/parser/AozoraParser.ts:92-105 | one processed line: its elements, or a lone marker for an empty line |
| Parser.ParseText | src/lib/parser/AozoraParser.ts:83-221 | the elements are the scan after the block, merge and cleanup passes |
| Parser.Parse | src/lib/parser/AozoraParser.ts:42-81 | an error exactly when the text exceeds the maximum size; otherwise the document of the text |
| ParserProperties.NoBracketNoSearch | src/lib/parser/AozoraParser.ts:330-417 | without `［` the lazy bracket search of headings and captions finds nothing |
| ParserProperties.DirectivesNeedBracket | src/lib/parser/AozoraParser.ts:114-150 | without `［` none of the four formatting instructions is recognised |
| ParserProperties.BracketedAttemptsFail | src/lib/parser/AozoraParser.ts:113-183 | without `［` every recogniser but ruby and plain text fails |
| ParserProperties.SkipDirectives | src/lib/parser/AozoraParser.ts:113-150 | without `［` the first match is the first match of the recognisers after the four instructions |
| ParserProperties.SkipBracketed | src/lib/parser/AozoraParser.ts:161-196 | without `［` the recognisers after ruby reduce to plain text |
| ParserProperties.UnbracketedChoice | src/lib/parser/AozoraParser.ts:113-196 | without `［` the scanner takes ruby when it matches and plain text otherwise |
| ParserProperties.PlainStep | src/lib/parser/AozoraParser.ts:185-196 | a plain run before a ruby base is one text element with its range, and the scan continues after it |
| ParserProperties.RubyStep | src/lib/parser/AozoraParser.ts:153-159 | a basic ruby is one ruby element with its range, and the scan continues after it |
| ParserProperties.TailStep | src/lib/parser/AozoraParser.ts:185-196 | a final plain run is the last text element of the line |
| ParserProperties.UnitStep | src/lib/parser/AozoraParser.ts:109-197 | one text-and-ruby unit scans to its elements, and the scan continues after it |
| ParserProperties.ScanUnits | src/lib/parser/AozoraParser.ts:109-197 | a line written as text-and-ruby units scans to the units' elements, in order |
| ParserProperties.RubyLineVisible | src/lib/parser/AozoraParser.ts:109-197 | bases and text runs give the line with its readings removed |
| ParserProperties.ProcessedUnchanged | src/lib/parser/AozoraParser.ts:92-94 | a line that neither starts nor ends with white space is processed as it is, trimmed or not |
| ParserProperties.OneLineDocument | src/lib/parser/AozoraParser.ts:83-221 | a one-line text whose scan has no instruction, nothing droppable and no joinable runs parses to that scan and its line-break marker |
| ParserProperties.RubyLineDocument | src/lib/parser/AozoraParser.ts:83-221 | a one-line text of ruby units that the passes leave alone parses to elements whose bases and runs give the line without its readings |
| ParserProperties.SchoolExample | src/lib/parser/__tests__/AozoraParser.test.ts:13-27 | the document of `学校《がっこう》で勉強する` has the elements 学, the ruby 校/がっこう, で勉強する and the line-break marker, with their ranges |
| ParserProperties.RubyPreservationExamples | src/lib/parser/__tests__/RubyTextPreservation.test.ts:246-283 | in the document of each of the three sentences, the bases and text runs other than line-break markers give the sentence without its readings |
| ParserProperties.BracketStep | src/lib/parser/AozoraParser.ts:186-196 | a `《` or `》` that opens no ruby is one text element of its own |
| ParserProperties.EmptyReadingDropsBase | src/lib/parser/AozoraParser.ts:186-195 | a base followed by `《》` is skipped and does not appear in the output |
| ParserProperties.EmptyReadingExample | src/lib/parser/AozoraParser.ts:186-195 | `猫《》` scans to the two brackets only |
| ParserProperties.SplitLinesShape | src/lib/parser/AozoraParser.ts:87 | the lines hold no `\n`, and there is one more than there are line feeds |
| ParserProperties.SplitJoin | src/lib/parser/AozoraParser.ts:87 | joining the split lines with `\n` gives the text back |
| ParserProperties.JoinSplit | src/lib/parser/AozoraParser.ts:87 | splitting joined feed-free lines gives the lines back |
| ParserProperties.LineOneMarker | src/lib/parser/AozoraParser.ts:96-204 | each line ends in exactly one newline marker; an empty line is only that marker |
| ParserProperties.ScannedMarkers | src/lib/parser/AozoraParser.ts:90-207 | the scan holds one marker more than the text has line feeds |
| DocumentProperties.Singleton | src/lib/parser/AozoraParser.ts:65-73 | a single element contributes itself as heading or image, or nothing |
| DocumentProperties.CollectAppend | src/lib/parser/AozoraParser.ts:65-73 | collecting headings and images distributes over concatenation |
| DocumentProperties.CollectMembers | src/lib/parser/AozoraParser.ts:65-73 | a heading (image) is collected exactly when it is one of the elements |
| DocumentProperties.CollectBounded | src/lib/parser/AozoraParser.ts:65-73 | the views are no longer than the element list |
| DocumentProperties.TitleIsFirstLarge | src/lib/parser/AozoraParser.ts:550 | the title is the first large heading's text, absent exactly when there is none |
| DocumentProperties.DocumentViews | src/lib/parser/AozoraParser.ts:533-570 | the document's headings, images, title and counts agree with its elements and text |
| Hierarchy.LevelNumber | src/components/TableOfContents/hierarchyUtils.ts:7-14 | large 1, medium 2, small 3 |
| Hierarchy.Traverse | src/components/TableOfContents/hierarchyUtils.ts:65-72 | the walk appends the preorder of the nodes |
| Hierarchy.FlattenTree | src/components/TableOfContents/hierarchyUtils.ts:62-76 | the result is the preorder of the forest |
| Hierarchy.PopNotBelow | src/components/TableOfContents/hierarchyUtils.ts:35-38 | popping keeps what the stack closes into and leaves a stack whose top is below the new level |
| Hierarchy.BuildHeadingTree | src/components/TableOfContents/hierarchyUtils.ts:19-57 | the result is the forest reading of the headings |
| Hierarchy.StackForest | src/components/TableOfContents/hierarchyUtils.ts:25-48 | the stack loop builds that forest |
| Hierarchy.ForestRoundTrip | src/components/TableOfContents/hierarchyUtils.ts:19-76 | flattening the built tree gives the headings back in document order, each with its level number and its position as index |
| Hierarchy.ForestIndexed | src/components/TableOfContents/hierarchyUtils.ts:50-54 | after renumbering, the index of the node is its position in preorder |
| Hierarchy.RenumberedPositions | src/components/TableOfContents/hierarchyUtils.ts:50-54 | renumbering sets each node's index to its preorder position |
| Hierarchy.RenumberedFixed | src/components/TableOfContents/hierarchyUtils.ts:50-54 | renumbering keeps the shape and everything but the index |
| Hierarchy.FirstIsRoot | src/components/TableOfContents/hierarchyUtils.ts:19-45 | no headings give an empty tree; otherwise the first root is the first heading, with index 0 |
| Hierarchy.ForestLevelled | src/components/TableOfContents/hierarchyUtils.ts:35-47 | every child's level is greater than its parent's |
| Hierarchy.ParentIsNearestSmaller | src/components/TableOfContents/hierarchyUtils.ts:35-47 | a heading's parent is the nearest earlier heading of smaller level, and roots have none |
| Hierarchy.FindIsFirstInPreorder | src/components/TableOfContents/hierarchyUtils.ts:81-96 | the node found is the first in preorder with that id; none exactly when there is none |
| Hierarchy.FindParentMeaning | src/components/TableOfContents/hierarchyUtils.ts:101-120 | a parent found is a node of the tree with a child of that id; none exactly when no node has such a child |
| Hierarchy.PathMeaning | src/components/TableOfContents/hierarchyUtils.ts:128-143 | a path exists exactly when the node is found, and it is a chain from a root down to that node |
| Hierarchy.FindPath | src/components/TableOfContents/hierarchyUtils.ts:128-143 | found exactly when a path exists; the result is the path so far followed by that path |
| Hierarchy.GetAncestorNodes | src/components/TableOfContents/hierarchyUtils.ts:125-147 | the result is the ancestors: the path to the node without the node itself |
| Hierarchy.AncestorsHaveParent | src/components/TableOfContents/hierarchyUtils.ts:101-147 | a node that has ancestors has a parent in the tree |
| Hierarchy.CalculateVisibleRange | src/components/TableOfContents/hierarchyUtils.ts:152-164 | the window starts at 0 or later and ends at count − 1 or earlier |
| Hierarchy.WindowCoversViewport | src/components/TableOfContents/hierarchyUtils.ts:152-164 | every item that overlaps the viewport lies within the window |
| Encoding.HasUtf8Bom | src/lib/encoding/EncodingDetector.ts:46-51 | true exactly when the bytes start with EF BB BF |
| Encoding.IsBinaryFile | src/lib/encoding/EncodingDetector.ts:212-224 | the loop counts the zero bytes among the first 8000 and decides binary when more than 1% of them are zero |
| Encoding.EmptyIsNotBinary | src/lib/encoding/EncodingDetector.ts:212-224 | an empty file is not binary |
| Encoding.SampleDecides | src/lib/encoding/EncodingDetector.ts:213-220 | bytes after the first 8000 do not change the decision |
| Encoding.NoZerosIsText | src/lib/encoding/EncodingDetector.ts:212-224 | bytes without zeros are never binary |
| Encoding.LeadingZerosAreBinary | src/lib/encoding/EncodingDetector.ts:212-224 | a file whose leading zero bytes are more than 1% of the sample is binary |
| Encoding.PairScore | src/lib/encoding/EncodingDetector.ts:186-207 | the number of lead/trail byte pairs in hundredths, capped at 30 |
| Encoding.CheckShiftJisBytePatterns | src/lib/encoding/EncodingDetector.ts:186-207 | the loop, which skips the trail byte of each pair, computes that score |
| Encoding.PairsDisjoint | src/lib/encoding/EncodingDetector.ts:190-204 | pairs never overlap: there are at most half as many pairs as bytes |
| Encoding.AsciiHasNoPairs | src/lib/encoding/EncodingDetector.ts:194 | ASCII bytes never form a pair |
| Encoding.DoubleRoleRun | src/lib/encoding/EncodingDetector.ts:194-201 | a run of bytes that can both lead and trail counts one pair per two bytes |
| Encoding.AsciiCount | src/lib/encoding/EncodingDetector.ts:129-130 | the number of ASCII characters, at most the length |
| Encoding.Clamp | src/lib/encoding/EncodingDetector.ts:154 | a value between 0 and 100 |
| Encoding.Utf8Confidence | src/lib/encoding/EncodingDetector.ts:119-155 | between 0 and 100; an empty text scores 80 |
| Encoding.AsciiTextScores | src/lib/encoding/EncodingDetector.ts:127-132 | ASCII-only text scores exactly 80 |
| Encoding.JapaneseUtf8Accepted | src/lib/encoding/EncodingDetector.ts:134-139 | text with Japanese and no replacement character scores at least 80, enough to be accepted |
| Encoding.ReplacementRejectsUtf8 | src/lib/encoding/EncodingDetector.ts:141-146 | a replacement character keeps the score below the validity threshold of 70 |
| Encoding.NonJapaneseUtf8Deferred | src/lib/encoding/EncodingDetector.ts:119-155 | non-ASCII text without Japanese scores at most 70, so it is never accepted outright |
| Encoding.ShiftJisConfidence | src/lib/encoding/EncodingDetector.ts:160-181 | between 0 and 100 |
| Encoding.ShiftJisAcceptance | src/lib/encoding/EncodingDetector.ts:160-181 | the score reaches 60 exactly when the text has Japanese and no replacement, or Japanese and a replacement with a pair score of at least 10, or neither with a pair score of at least 20 |
| Encoding.TryDecodeAsUtf8 | src/lib/encoding/EncodingDetector.ts:56-84 | valid exactly when the confidence reaches 70; a decoding failure gives confidence 0 and no text; otherwise the bytes after any BOM are decoded and scored |
| Encoding.TryDecodeAsShiftJis | src/lib/encoding/EncodingDetector.ts:89-114 | valid exactly when the confidence reaches 60; a failure gives confidence 0 and no text |
| Encoding.DetectAndDecode | src/lib/encoding/EncodingDetector.ts:16-41 | the UTF-8 attempt when it is valid with confidence 80 or more, else the Shift_JIS attempt when valid, else the UTF-8 attempt marked invalid with confidence 10 |
| Encoding.DetectionOutcome | src/lib/encoding/EncodingDetector.ts:24-40 | a valid result is UTF-8 at 80 or more or Shift_JIS at 60 or more; an invalid one is the UTF-8 text at 10; a BOM is reported only for UTF-8 input that has one |
| Encoding.AsciiFileIsUtf8 | src/lib/encoding/EncodingDetector.ts:24-27 | when the UTF-8 decoder yields ASCII text, the result is valid UTF-8 with confidence 80 |
| Encoding.InvalidUtf8Falls | src/lib/encoding/EncodingDetector.ts:24-40 | when UTF-8 decoding fails, the result is Shift_JIS or the forced fallback |

## Left out

- File reading, `async` and the platform's `TextDecoder` are not modelled. The detector takes
  both decoders as function parameters, and their output is not modelled.
- Confidence scores are floating point in the source. The model uses whole hundredths.
  Rounding of accumulated fractions right at a threshold is not modelled.
- Text lengths and ranges count characters (code points), not UTF-16 code units. Characters
  outside the Basic Multilingual Plane would count differently.
- Inline.ParseBasicRuby: the source's patterns have no `u` flag and its scanner indexes UTF-16
  code units, so a base outside the Basic Multilingual Plane behaves differently. For
  `あ𠮷《よし》` the source emits the text `あ` plus a lone high surrogate and a ruby whose base
  is the low surrogate; the model emits the text `あ` and a ruby whose base is `𠮷`.
- Number precision: `parseInt` yields a double-precision number, so indent counts and image
  sizes of 2^53 or more lose precision in the source (FormattingInstructionParser.ts lines 28,
  62 and 96, AozoraParser.ts lines 372-373). The model reads digits into exact integers.
- Timing (`performance.now`), `console.warn` and the `try/catch` that returns a partial parse
  are not modelled.
- Heading ids come from `generateHeadingId`, which is a function parameter `makeId` here.
- The regular expressions are written out as functions. The lemmas named `…Exact` and `…At`
  state which inputs each one accepts.
- The React components, hooks and styles of the viewer are not part of this model.
- In-place updates are modelled on values:
  - the tree builder attaches a node to its parent when the node is popped, not when it is
    pushed;
  - the block processor keeps its frames in a sequence;
  - cleanup replaces the last cleaned element instead of extending it.
  Aliasing between the stack and the result is therefore not captured.
- Hierarchy.CalculateVisibleRange: works on integers and requires a positive item height.
  The source divides floats and does not guard against a zero height.
- Emphasis, correction and indented-text elements have no recogniser in the core, so the
  scanner never produces them. The `enableEmphasis` and `strictMode` options are read nowhere
  in the core.
- The line and column fields of ranges are not modelled; only start and end offsets are.
- ParserProperties.ScannedMarkers: counts the newline markers of the scan before the passes.
  Cleanup joins adjacent markers, so the count after the passes is not stated.
- Hierarchy.FindParentMeaning: does not state which parent is found when several nodes share
  an id.
- Facts about ranges are stated per recogniser and per line. The document-level offsets drift
  because each line's start is computed from the text before it, including stripped spaces and
  carriage returns, and the model states no global range invariant.
