/** The parsed-element union of the viewer and the values the recognisers return. */
module Elements {
  import opened Wrappers

  /** A half-open span [start, end) of character offsets. The source also carries line and
      column numbers, which it always sets to a placeholder; only the offsets are kept. */
  datatype Range = Range(start: nat, end: nat)

  datatype HeadingLevel = Large | Medium | Small

  /** The kinds of formatting instruction; `LineIndent` exists in the type but no
      recogniser produces it. */
  datatype InstructionType = IndentStart | IndentEnd | LineIndent | LeftIndent | RightIndent

  datatype Heading = Heading(level: HeadingLevel, text: string, id: string, range: Range)

  datatype Image = Image(
    description: string,
    filename: Option<string>,
    width: Option<nat>,
    height: Option<nat>,
    base64: Option<string>,
    range: Range)

  datatype EmphasisStyle = Dot | Underline | Bold

  datatype Element =
    | Ruby(text: string, ruby: string, range: Range)
    | HeadingElement(heading: Heading)
    | ImageElement(image: Image)
    | Caption(text: string, imageId: Option<string>, range: Range)
    | Text(content: string, range: Range)
    | Emphasis(text: string, style: EmphasisStyle, range: Range)
    | Correction(original: string, corrected: string, range: Range)
    | IndentedText(content: string, indentCount: int, range: Range)
    | LeftIndentedText(content: string, indentCount: int, range: Range)
    | RightIndentedText(content: string, indentCount: int, range: Range)
    | IndentBlock(indentCount: int, elements: seq<Element>, range: Range)
    | Instruction(instruction: string, kind: InstructionType, count: Option<int>, range: Range)
  {
    /** The range every element carries. */
    function Span(): Range
    {
      match this
      case HeadingElement(h) => h.range
      case ImageElement(img) => img.range
      case _ => this.range
    }
  }

  /** What a recogniser returns on a match: the element and how many characters it consumed. */
  datatype Match = Match(element: Element, length: nat)

  /** The single-newline text element that marks the end of a physical line. */
  predicate IsNewlineMarker(e: Element)
  {
    e.Text? && e.content == "\n"
  }
}
