/** The two passes of the notation parser that run over the top-level element list after the
    block pass: attaching left/right indent directives to the text after them, and tidying
    text runs. */
module Passes {
  import opened Wrappers
  import opened Strings
  import opened Elements

  // ---------------------------------------------------------------------------------------
  // Left/right indent directives

  /** A `［＃N字上げ］` or `［＃地からN字上げ］` instruction. */
  predicate IsSideDirective(e: Element)
  {
    e.Instruction? && (e.kind == LeftIndent || e.kind == RightIndent)
  }

  /** JavaScript `count || 0`. */
  function CountOrZero(count: Option<int>): int
  {
    match count
    case None => 0
    case Some(c) => c
  }

  /** The element a side directive and the text after it become: the text's content, the
      directive's count, and the range from the directive's start to the text's end. */
  function Attach(d: Element, t: Element): (r: Element)
    requires IsSideDirective(d) && t.Text?
    ensures d.kind == LeftIndent ==> r.LeftIndentedText?
    ensures d.kind == RightIndent ==> r.RightIndentedText?
    ensures r.LeftIndentedText? || r.RightIndentedText?
    ensures r.content == t.content && r.indentCount == CountOrZero(d.count)
    ensures r.range == Range(d.range.start, t.range.end)
  {
    var range := Range(d.range.start, t.range.end);
    if d.kind == LeftIndent then LeftIndentedText(t.content, CountOrZero(d.count), range)
    else RightIndentedText(t.content, CountOrZero(d.count), range)
  }

  /** What `processIndentInstructions` returns. */
  function MergeDirectives(es: seq<Element>): seq<Element>
    decreases |es|
  {
    if |es| == 0 then []
    else if IsSideDirective(es[0]) then
      if |es| > 1 && es[1].Text? then [Attach(es[0], es[1])] + MergeDirectives(es[2..])
      else MergeDirectives(es[1..])
    else [es[0]] + MergeDirectives(es[1..])
  }

  /** `processIndentInstructions`: an indexed loop that skips the text it has attached. */
  method ProcessIndentInstructions(elements: seq<Element>) returns (result: seq<Element>)
    ensures result == MergeDirectives(elements)
  {
    result := [];
    var i := 0;
    while i < |elements|
      invariant i <= |elements|
      invariant result + MergeDirectives(elements[i..]) == MergeDirectives(elements)
    {
      var element := elements[i];
      if element.Instruction? && (element.kind == LeftIndent || element.kind == RightIndent) {
        if i + 1 < |elements| && elements[i + 1].Text? {
          var next := elements[i + 1];
          var range := Range(element.range.start, next.range.end);
          MergeAttachStep(elements, i, result);
          if element.kind == LeftIndent {
            result := result + [LeftIndentedText(next.content, CountOrZero(element.count), range)];
          } else {
            result := result + [RightIndentedText(next.content, CountOrZero(element.count), range)];
          }
          i := i + 1;
        } else {
          MergeDropStep(elements, i, result);
        }
      } else {
        MergeKeepStep(elements, i, result);
        result := result + [element];
      }
      i := i + 1;
    }
  }

  /** One step of the loop, for each of its three cases: the merge of the rest equals what
      the step emits followed by the merge of what remains after it. */
  lemma MergeAttachStep(es: seq<Element>, i: nat, acc: seq<Element>)
    requires i + 1 < |es| && IsSideDirective(es[i]) && es[i + 1].Text?
    requires acc + MergeDirectives(es[i..]) == MergeDirectives(es)
    ensures (acc + [Attach(es[i], es[i + 1])]) + MergeDirectives(es[i + 2..]) == MergeDirectives(es)
  {
    assert es[i..][2..] == es[i + 2..];
    assert MergeDirectives(es[i..]) == [Attach(es[i], es[i + 1])] + MergeDirectives(es[i + 2..]);
  }

  lemma MergeDropStep(es: seq<Element>, i: nat, acc: seq<Element>)
    requires i < |es| && IsSideDirective(es[i]) && !(i + 1 < |es| && es[i + 1].Text?)
    requires acc + MergeDirectives(es[i..]) == MergeDirectives(es)
    ensures acc + MergeDirectives(es[i + 1..]) == MergeDirectives(es)
  {
    assert es[i..][1..] == es[i + 1..];
  }

  lemma MergeKeepStep(es: seq<Element>, i: nat, acc: seq<Element>)
    requires i < |es| && !IsSideDirective(es[i])
    requires acc + MergeDirectives(es[i..]) == MergeDirectives(es)
    ensures (acc + [es[i]]) + MergeDirectives(es[i + 1..]) == MergeDirectives(es)
  {
    assert es[i..][1..] == es[i + 1..];
    assert MergeDirectives(es[i..]) == [es[i]] + MergeDirectives(es[i + 1..]);
  }

  /** The merge never grows the list, and no side directive survives it: each is either
      attached to the text after it or dropped. */
  lemma {:induction false} MergeRemovesDirectives(es: seq<Element>)
    ensures |MergeDirectives(es)| <= |es|
    ensures forall i :: 0 <= i < |MergeDirectives(es)| ==> !IsSideDirective(MergeDirectives(es)[i])
    decreases |es|
  {
    if |es| > 0 {
      if IsSideDirective(es[0]) && |es| > 1 && es[1].Text? {
        MergeRemovesDirectives(es[2..]);
        assert MergeDirectives(es) == [Attach(es[0], es[1])] + MergeDirectives(es[2..]);
      } else if IsSideDirective(es[0]) {
        MergeRemovesDirectives(es[1..]);
      } else {
        MergeRemovesDirectives(es[1..]);
        assert MergeDirectives(es) == [es[0]] + MergeDirectives(es[1..]);
      }
    }
  }

  /** A directive directly followed by text becomes one indented-text element. */
  lemma DirectiveAttached(d: Element, t: Element, post: seq<Element>)
    requires IsSideDirective(d) && t.Text?
    ensures MergeDirectives([d, t] + post) == [Attach(d, t)] + MergeDirectives(post)
  {
    assert ([d, t] + post)[2..] == post;
  }

  /** A directive not directly followed by text is dropped. */
  lemma DirectiveDropped(d: Element, post: seq<Element>)
    requires IsSideDirective(d) && (|post| == 0 || !post[0].Text?)
    ensures MergeDirectives([d] + post) == MergeDirectives(post)
  {
    assert ([d] + post)[1..] == post;
  }

  /** Everything else passes through unchanged and in order: a list without directives comes
      back as it is. */
  lemma {:induction false} NoDirectivesUnchanged(es: seq<Element>)
    requires forall i :: 0 <= i < |es| ==> !IsSideDirective(es[i])
    ensures MergeDirectives(es) == es
    decreases |es|
  {
    if |es| > 0 {
      assert forall i :: 0 <= i < |es[1..]| ==> es[1..][i] == es[i + 1];
      NoDirectivesUnchanged(es[1..]);
      assert [es[0]] + es[1..] == es;
    }
  }

  /** The pass looks at the top level only: a directive inside a block stays an instruction
      there, even when text follows it. */
  lemma NestedDirectiveKept(count: int, d: Element, t: Element, range: Range, post: seq<Element>)
    requires IsSideDirective(d) && t.Text?
    ensures var block := IndentBlock(count, [d, t], range);
      MergeDirectives([block] + post) == [block] + MergeDirectives(post)
      && IsSideDirective(MergeDirectives([block] + post)[0].elements[0])
  {
    var block := IndentBlock(count, [d, t], range);
    assert ([block] + post)[1..] == post;
  }

  /** The pass works left to right in one pass: a list that does not end in a directive can
      be merged on its own and the rest after it. */
  lemma {:induction false} MergeAppend(a: seq<Element>, b: seq<Element>)
    requires |a| == 0 || !IsSideDirective(a[|a| - 1])
    ensures MergeDirectives(a + b) == MergeDirectives(a) + MergeDirectives(b)
    decreases |a|, 1
  {
    if |a| == 0 {
      assert a + b == b;
    } else if !IsSideDirective(a[0]) {
      MergeKeepCase(a, b);
    } else if a[1].Text? {
      MergeAttachCase(a, b);
    } else {
      MergeDropCase(a, b);
    }
  }

  /** The rest of a list that does not end in a directive does not end in one either. */
  lemma KeptLast(a: seq<Element>, k: nat)
    requires k <= |a| && (|a| == 0 || !IsSideDirective(a[|a| - 1]))
    ensures |a[k..]| == 0 || !IsSideDirective(a[k..][|a[k..]| - 1])
  {
  }

  /** `MergeAppend` for a directive attached to the text after it. */
  lemma {:induction false} MergeAttachCase(a: seq<Element>, b: seq<Element>)
    requires |a| > 1 && IsSideDirective(a[0]) && a[1].Text? && !IsSideDirective(a[|a| - 1])
    ensures MergeDirectives(a + b) == MergeDirectives(a) + MergeDirectives(b)
    decreases |a|, 0
  {
    KeptLast(a, 2);
    MergeAppend(a[2..], b);
    assert (a + b)[0] == a[0] && (a + b)[1] == a[1] && (a + b)[2..] == a[2..] + b;
    MergeAttaches(a);
    MergeAttaches(a + b);
    ElementsAssoc([Attach(a[0], a[1])], MergeDirectives(a[2..]), MergeDirectives(b));
  }

  /** `MergeAppend` for a directive dropped because no text follows it. */
  lemma {:induction false} MergeDropCase(a: seq<Element>, b: seq<Element>)
    requires |a| > 1 && IsSideDirective(a[0]) && !a[1].Text? && !IsSideDirective(a[|a| - 1])
    ensures MergeDirectives(a + b) == MergeDirectives(a) + MergeDirectives(b)
    decreases |a|, 0
  {
    KeptLast(a, 1);
    MergeAppend(a[1..], b);
    assert (a + b)[0] == a[0] && (a + b)[1] == a[1] && (a + b)[1..] == a[1..] + b;
    MergeDrops(a);
    MergeDrops(a + b);
  }

  /** `MergeAppend` for an element that is not a side directive. */
  lemma {:induction false} MergeKeepCase(a: seq<Element>, b: seq<Element>)
    requires |a| > 0 && !IsSideDirective(a[0]) && !IsSideDirective(a[|a| - 1])
    ensures MergeDirectives(a + b) == MergeDirectives(a) + MergeDirectives(b)
    decreases |a|, 0
  {
    KeptLast(a, 1);
    MergeAppend(a[1..], b);
    assert (a + b)[0] == a[0] && (a + b)[1..] == a[1..] + b;
    MergeKeeps(a);
    MergeKeeps(a + b);
    ElementsAssoc([a[0]], MergeDirectives(a[1..]), MergeDirectives(b));
  }

  /** A side directive followed by a text run is attached to it. */
  lemma MergeAttaches(es: seq<Element>)
    requires |es| > 1 && IsSideDirective(es[0]) && es[1].Text?
    ensures MergeDirectives(es) == [Attach(es[0], es[1])] + MergeDirectives(es[2..])
  {
  }

  /** A side directive not followed by a text run is dropped. */
  lemma MergeDrops(es: seq<Element>)
    requires |es| > 1 && IsSideDirective(es[0]) && !es[1].Text?
    ensures MergeDirectives(es) == MergeDirectives(es[1..])
  {
  }

  /** An element that is not a side directive is kept where it is. */
  lemma MergeKeeps(es: seq<Element>)
    requires |es| > 0 && !IsSideDirective(es[0])
    ensures MergeDirectives(es) == [es[0]] + MergeDirectives(es[1..])
  {
  }

  lemma ElementsAssoc(a: seq<Element>, b: seq<Element>, c: seq<Element>)
    ensures (a + b) + c == a + (b + c)
  {
  }

  // ---------------------------------------------------------------------------------------
  // Tidying text runs

  /** A text run the cleaner drops: blank by `trim()`, and not a single line break. */
  predicate Droppable(e: Element)
  {
    e.Text? && Trim(e.content) == [] && e.content != "\n"
  }

  /** The merge rule of the cleaner: two single line breaks, or two runs of more than one
      character with no line break in either. */
  predicate Joinable(last: string, next: string)
  {
    (last == "\n" && next == "\n")
      || (|last| > 1 && |next| > 1 && '\n' !in last && '\n' !in next)
  }

  /** One iteration of `cleanupElements`: drop, extend the last text, or append. */
  function CleanStep(cleaned: seq<Element>, e: Element): seq<Element>
  {
    if Droppable(e) then cleaned
    else if e.Text? && |cleaned| > 0 && cleaned[|cleaned| - 1].Text?
            && Joinable(cleaned[|cleaned| - 1].content, e.content) then
      var last := cleaned[|cleaned| - 1];
      cleaned[..|cleaned| - 1] + [Text(last.content + e.content, Range(last.range.start, e.range.end))]
    else cleaned + [e]
  }

  /** The cleaner's loop over the remaining elements. */
  function CleanFrom(cleaned: seq<Element>, es: seq<Element>): seq<Element>
    decreases |es|
  {
    if |es| == 0 then cleaned else CleanFrom(CleanStep(cleaned, es[0]), es[1..])
  }

  /** What `cleanupElements` returns. */
  function Cleanup(es: seq<Element>): seq<Element>
  {
    CleanFrom([], es)
  }

  /** `cleanupElements`. The source extends the last text element in place; here the last
      element of the output is replaced by its extension. */
  method CleanupElements(elements: seq<Element>) returns (cleaned: seq<Element>)
    ensures cleaned == Cleanup(elements)
  {
    cleaned := [];
    var i := 0;
    while i < |elements|
      invariant i <= |elements|
      invariant CleanFrom(cleaned, elements[i..]) == Cleanup(elements)
    {
      var element := elements[i];
      assert elements[i..][1..] == elements[i + 1..];
      i := i + 1;
      if element.Text? && Trim(element.content) == [] && element.content != "\n" {
        continue;
      }
      if element.Text? && |cleaned| > 0 {
        var last := cleaned[|cleaned| - 1];
        if last.Text? {
          if last.content == "\n" && element.content == "\n" {
            cleaned := cleaned[..|cleaned| - 1] + [Text(last.content + element.content, Range(last.range.start, element.range.end))];
            continue;
          }
          if |last.content| > 1 && |element.content| > 1 && '\n' !in last.content && '\n' !in element.content {
            cleaned := cleaned[..|cleaned| - 1] + [Text(last.content + element.content, Range(last.range.start, element.range.end))];
            continue;
          }
        }
      }
      cleaned := cleaned + [element];
    }
  }

  /** Only line breaks, and at least one. */
  predicate LineBreaksOnly(s: string)
  {
    |s| > 0 && forall i :: 0 <= i < |s| ==> s[i] == '\n'
  }

  /** A text run the cleaner can leave: not blank, or made of line breaks only. */
  predicate Tidy(e: Element)
  {
    e.Text? ==> !IsBlank(e.content) || LineBreaksOnly(e.content)
  }

  lemma JoinTidy(a: string, b: string)
    requires Joinable(a, b)
    requires !IsBlank(a) || LineBreaksOnly(a)
    requires !IsBlank(b) || LineBreaksOnly(b)
    ensures !IsBlank(a + b) || LineBreaksOnly(a + b)
  {
    if a == "\n" && b == "\n" {
      assert a + b == "\n\n";
    } else {
      assert !LineBreaksOnly(a) by {
        assert |a| > 0 && a[0] in a;
      }
      var k :| 0 <= k < |a| && !IsWhitespace(a[k]);
      assert (a + b)[k] == a[k];
    }
  }

  lemma {:induction false} CleanFromTidy(cleaned: seq<Element>, es: seq<Element>)
    requires forall i :: 0 <= i < |cleaned| ==> Tidy(cleaned[i])
    ensures forall i :: 0 <= i < |CleanFrom(cleaned, es)| ==> Tidy(CleanFrom(cleaned, es)[i])
    decreases |es|
  {
    if |es| > 0 {
      var e := es[0];
      var next := CleanStep(cleaned, e);
      if Droppable(e) {
      } else if e.Text? && |cleaned| > 0 && cleaned[|cleaned| - 1].Text?
                && Joinable(cleaned[|cleaned| - 1].content, e.content) {
        var last := cleaned[|cleaned| - 1];
        assert Tidy(last);
        TrimEmptyIffBlank(e.content);
        JoinTidy(last.content, e.content);
        assert forall i :: 0 <= i < |next| ==> next[i] == cleaned[i] || next[i] == Text(last.content + e.content, Range(last.range.start, e.range.end));
      } else if e.Text? {
        TrimEmptyIffBlank(e.content);
        assert Tidy(e) by {
          if e.content == "\n" {
            assert LineBreaksOnly(e.content);
          }
        }
      }
      CleanFromTidy(next, es[1..]);
    }
  }

  /** No two neighbouring text runs that the cleaner would join. */
  predicate Separated(es: seq<Element>)
  {
    forall i :: 0 <= i < |es| - 1 && es[i].Text? && es[i + 1].Text? ==> !Joinable(es[i].content, es[i + 1].content)
  }

  /** Extending the second of two unjoinable runs keeps them unjoinable: the extension is
      longer than one character, and it holds a line break when either part does. */
  lemma JoinKeepsApart(a: string, b: string, e: string)
    requires !Joinable(a, b) && Joinable(b, e) && |b| > 0 && |e| > 0
    ensures !Joinable(a, b + e)
  {
    assert |b + e| > 1;
    assert '\n' in b ==> '\n' in b + e by {
      if '\n' in b {
        var k :| 0 <= k < |b| && b[k] == '\n';
        assert (b + e)[k] == '\n';
      }
    }
  }

  lemma StepSeparated(cleaned: seq<Element>, e: Element)
    requires forall i :: 0 <= i < |cleaned| ==> Tidy(cleaned[i])
    requires Separated(cleaned)
    ensures Separated(CleanStep(cleaned, e))
  {
    var next := CleanStep(cleaned, e);
    if Droppable(e) {
    } else if e.Text? && |cleaned| > 0 && cleaned[|cleaned| - 1].Text?
              && Joinable(cleaned[|cleaned| - 1].content, e.content) {
      var n := |cleaned|;
      var last := cleaned[n - 1];
      assert Tidy(last);
      assert |last.content| > 0 && |e.content| > 0;
      forall i | 0 <= i < |next| - 1 && next[i].Text? && next[i + 1].Text?
        ensures !Joinable(next[i].content, next[i + 1].content)
      {
        if i + 1 < n - 1 {
          assert next[i] == cleaned[i] && next[i + 1] == cleaned[i + 1];
        } else {
          assert next[i] == cleaned[n - 2] && next[i + 1].content == last.content + e.content;
          JoinKeepsApart(cleaned[n - 2].content, last.content, e.content);
        }
      }
    } else {
      forall i | 0 <= i < |next| - 1 && next[i].Text? && next[i + 1].Text?
        ensures !Joinable(next[i].content, next[i + 1].content)
      {
        if i + 1 < |cleaned| {
          assert next[i] == cleaned[i] && next[i + 1] == cleaned[i + 1];
        }
      }
    }
  }

  lemma {:induction false} CleanFromSeparated(cleaned: seq<Element>, es: seq<Element>)
    requires forall i :: 0 <= i < |cleaned| ==> Tidy(cleaned[i])
    requires Separated(cleaned)
    ensures Separated(CleanFrom(cleaned, es))
    decreases |es|
  {
    if |es| > 0 {
      StepSeparated(cleaned, es[0]);
      CleanFromTidy(cleaned, [es[0]]);
      assert CleanFrom(cleaned, [es[0]]) == CleanStep(cleaned, es[0]);
      CleanFromSeparated(CleanStep(cleaned, es[0]), es[1..]);
    }
  }

  /** Every text run the cleaner leaves is either not blank or made of line breaks only, and
      no two neighbouring runs are ones the cleaner would have joined. */
  lemma CleanupTidy(es: seq<Element>)
    ensures forall i :: 0 <= i < |Cleanup(es)| ==> Tidy(Cleanup(es)[i])
    ensures Separated(Cleanup(es))
  {
    CleanFromTidy([], es);
    CleanFromSeparated([], es);
  }

  /** The elements that are not text runs. */
  function NonTexts(es: seq<Element>): seq<Element>
  {
    if |es| == 0 then [] else (if es[0].Text? then [] else [es[0]]) + NonTexts(es[1..])
  }

  /** The contents of the text runs, joined. */
  function TextContent(es: seq<Element>): string
  {
    if |es| == 0 then [] else (if es[0].Text? then es[0].content else []) + TextContent(es[1..])
  }

  /** The input without the runs the cleaner drops. */
  function Undropped(es: seq<Element>): seq<Element>
  {
    if |es| == 0 then [] else (if Droppable(es[0]) then [] else [es[0]]) + Undropped(es[1..])
  }

  lemma {:induction false} NonTextsAppend(a: seq<Element>, b: seq<Element>)
    ensures NonTexts(a + b) == NonTexts(a) + NonTexts(b)
    decreases |a|
  {
    if |a| == 0 {
      assert a + b == b;
    } else {
      assert (a + b)[0] == a[0] && (a + b)[1..] == a[1..] + b;
      NonTextsAppend(a[1..], b);
      NonTextsCons(a);
      NonTextsCons(a + b);
      ElementsAssoc(NonTexts([a[0]]), NonTexts(a[1..]), NonTexts(b));
    }
  }

  lemma NonTextsCons(es: seq<Element>)
    requires |es| > 0
    ensures NonTexts(es) == NonTexts([es[0]]) + NonTexts(es[1..])
  {
    NonTextsOne(es[0]);
  }

  lemma {:induction false} TextContentAppend(a: seq<Element>, b: seq<Element>)
    ensures TextContent(a + b) == TextContent(a) + TextContent(b)
    decreases |a|
  {
    if |a| == 0 {
      assert a + b == b;
    } else {
      assert (a + b)[0] == a[0] && (a + b)[1..] == a[1..] + b;
      TextContentAppend(a[1..], b);
      TextContentCons(a);
      TextContentCons(a + b);
      ConcatAssoc(TextContent([a[0]]), TextContent(a[1..]), TextContent(b));
    }
  }

  lemma TextContentCons(es: seq<Element>)
    requires |es| > 0
    ensures TextContent(es) == TextContent([es[0]]) + TextContent(es[1..])
  {
    TextContentOne(es[0]);
  }

  lemma NonTextsOne(e: Element)
    ensures NonTexts([e]) == if e.Text? then [] else [e]
  {
    assert NonTexts([e]) == (if e.Text? then [] else [e]) + NonTexts([]);
  }

  lemma TextContentOne(e: Element)
    ensures TextContent([e]) == if e.Text? then e.content else []
  {
    assert TextContent([e]) == (if e.Text? then e.content else []) + TextContent([]);
  }

  lemma UndroppedCons(es: seq<Element>)
    requires |es| > 0
    ensures Undropped(es) == Undropped([es[0]]) + Undropped(es[1..])
  {
    assert Undropped([es[0]]) == (if Droppable(es[0]) then [] else [es[0]]) + Undropped([]);
  }

  /** Extending the last text run keeps the non-text elements and adds the new content. */
  lemma JoinKeeps(front: seq<Element>, last: Element, e: Element)
    requires last.Text? && e.Text?
    ensures var joined := Text(last.content + e.content, Range(last.range.start, e.range.end));
      && NonTexts(front + [joined]) == NonTexts(front + [last])
      && TextContent(front + [joined]) == TextContent(front + [last]) + e.content
  {
    var joined := Text(last.content + e.content, Range(last.range.start, e.range.end));
    JoinKeepsNonTexts(front, last, joined);
    JoinKeepsContent(front, last, joined);
  }

  lemma JoinKeepsNonTexts(front: seq<Element>, last: Element, joined: Element)
    requires last.Text? && joined.Text?
    ensures NonTexts(front + [joined]) == NonTexts(front + [last])
  {
    NonTextsAppend(front, [last]);
    NonTextsAppend(front, [joined]);
    NonTextsOne(last);
    NonTextsOne(joined);
  }

  lemma JoinKeepsContent(front: seq<Element>, last: Element, joined: Element)
    requires last.Text? && joined.Text? && |joined.content| >= |last.content|
    requires joined.content == last.content + joined.content[|last.content|..]
    ensures TextContent(front + [joined]) == TextContent(front + [last]) + joined.content[|last.content|..]
  {
    TextContentAppend(front, [last]);
    TextContentAppend(front, [joined]);
    TextContentOne(last);
    TextContentOne(joined);
    ConcatAssoc(TextContent(front), last.content, joined.content[|last.content|..]);
  }

  /** The three outcomes of one cleaner step. */
  lemma StepCases(cleaned: seq<Element>, e: Element)
    ensures Droppable(e) ==> CleanStep(cleaned, e) == cleaned
    ensures !Droppable(e) && e.Text? && |cleaned| > 0 && cleaned[|cleaned| - 1].Text?
            && Joinable(cleaned[|cleaned| - 1].content, e.content) ==>
      CleanStep(cleaned, e) == cleaned[..|cleaned| - 1]
        + [Text(cleaned[|cleaned| - 1].content + e.content, Range(cleaned[|cleaned| - 1].range.start, e.range.end))]
    ensures !Droppable(e) && !(e.Text? && |cleaned| > 0 && cleaned[|cleaned| - 1].Text?
            && Joinable(cleaned[|cleaned| - 1].content, e.content)) ==>
      CleanStep(cleaned, e) == cleaned + [e]
  {
  }

  lemma StepNonTexts(cleaned: seq<Element>, e: Element)
    ensures NonTexts(CleanStep(cleaned, e)) == NonTexts(cleaned) + NonTexts([e])
  {
    NonTextsOne(e);
    StepCases(cleaned, e);
    if Droppable(e) {
      assert NonTexts([e]) == [];
    } else if e.Text? && |cleaned| > 0 && cleaned[|cleaned| - 1].Text?
              && Joinable(cleaned[|cleaned| - 1].content, e.content) {
      var front := cleaned[..|cleaned| - 1];
      var last := cleaned[|cleaned| - 1];
      assert cleaned == front + [last];
      JoinKeeps(front, last, e);
    } else {
      NonTextsAppend(cleaned, [e]);
    }
  }

  lemma StepTextContent(cleaned: seq<Element>, e: Element)
    ensures TextContent(CleanStep(cleaned, e)) == TextContent(cleaned) + TextContent(Undropped([e]))
  {
    TextContentOne(e);
    assert Undropped([e]) == (if Droppable(e) then [] else [e]) + Undropped([]);
    StepCases(cleaned, e);
    if Droppable(e) {
      assert TextContent([]) == [];
    } else if e.Text? && |cleaned| > 0 && cleaned[|cleaned| - 1].Text?
              && Joinable(cleaned[|cleaned| - 1].content, e.content) {
      var front := cleaned[..|cleaned| - 1];
      var last := cleaned[|cleaned| - 1];
      assert cleaned == front + [last];
      JoinKeeps(front, last, e);
    } else {
      TextContentAppend(cleaned, [e]);
    }
  }

  lemma {:induction false} CleanFromNonTexts(cleaned: seq<Element>, es: seq<Element>)
    ensures NonTexts(CleanFrom(cleaned, es)) == NonTexts(cleaned) + NonTexts(es)
    decreases |es|
  {
    if |es| == 0 {
      assert NonTexts(cleaned) + [] == NonTexts(cleaned);
    } else {
      var next := CleanStep(cleaned, es[0]);
      calc {
        NonTexts(CleanFrom(cleaned, es));
      ==
        NonTexts(CleanFrom(next, es[1..]));
      == { CleanFromNonTexts(next, es[1..]); }
        NonTexts(next) + NonTexts(es[1..]);
      == { StepNonTexts(cleaned, es[0]); }
        (NonTexts(cleaned) + NonTexts([es[0]])) + NonTexts(es[1..]);
      ==
        NonTexts(cleaned) + (NonTexts([es[0]]) + NonTexts(es[1..]));
      == { NonTextsOne(es[0]); }
        NonTexts(cleaned) + NonTexts(es);
      }
    }
  }

  /** Regrouping a concatenation, kept apart so that the proof below does not carry the
      sequence axioms for its whole context. */
  lemma ConcatAssoc(a: string, b: string, c: string)
    ensures (a + b) + c == a + (b + c)
  {
  }

  lemma {:induction false} CleanFromTextContent(cleaned: seq<Element>, es: seq<Element>)
    ensures TextContent(CleanFrom(cleaned, es)) == TextContent(cleaned) + TextContent(Undropped(es))
    decreases |es|
  {
    if |es| == 0 {
      assert TextContent(cleaned) + [] == TextContent(cleaned);
    } else {
      var head := Undropped([es[0]]);
      var tail := Undropped(es[1..]);
      var next := CleanStep(cleaned, es[0]);
      StepTextContent(cleaned, es[0]);
      CleanFromTextContent(next, es[1..]);
      UndroppedCons(es);
      TextContentAppend(head, tail);
      ConcatAssoc(TextContent(cleaned), TextContent(head), TextContent(tail));
    }
  }

  /** The cleaner keeps every element that is not text, in order, and loses no text but the
      blank runs it drops: the joined text of its output is the joined text of the input
      without those runs. */
  lemma CleanupKeeps(es: seq<Element>)
    ensures NonTexts(Cleanup(es)) == NonTexts(es)
    ensures TextContent(Cleanup(es)) == TextContent(Undropped(es))
  {
    CleanFromNonTexts([], es);
    CleanFromTextContent([], es);
  }

  /** Cleaning a list in which nothing is droppable and no neighbouring runs are joinable
      appends it unchanged. */
  lemma {:induction false} CleanFromUnchanged(cleaned: seq<Element>, es: seq<Element>)
    requires forall i :: 0 <= i < |es| ==> !Droppable(es[i])
    requires Separated(cleaned + es)
    ensures CleanFrom(cleaned, es) == cleaned + es
    decreases |es|
  {
    if |es| > 0 {
      var n := |cleaned|;
      var all := cleaned + es;
      assert all[n] == es[0];
      if n > 0 {
        assert all[n - 1] == cleaned[n - 1];
      }
      assert CleanStep(cleaned, es[0]) == cleaned + [es[0]];
      assert cleaned + [es[0]] + es[1..] == all;
      assert forall i :: 0 <= i < |es[1..]| ==> !Droppable(es[1..][i]) by {
        forall i | 0 <= i < |es[1..]| ensures !Droppable(es[1..][i]) {
          assert es[1..][i] == es[i + 1];
        }
      }
      CleanFromUnchanged(cleaned + [es[0]], es[1..]);
    }
  }

  /** A list in which nothing is droppable and no neighbouring runs are joinable is already
      clean. */
  lemma CleanupUnchanged(es: seq<Element>)
    requires forall i :: 0 <= i < |es| ==> !Droppable(es[i])
    requires Separated(es)
    ensures Cleanup(es) == es
  {
    assert [] + es == es;
    CleanFromUnchanged([], es);
  }

  /** Two text runs that stay are merged exactly when the rule allows it. */
  lemma CleanupPair(a: string, ra: Range, b: string, rb: Range)
    requires Trim(a) != [] || a == "\n"
    requires Trim(b) != [] || b == "\n"
    ensures Cleanup([Text(a, ra), Text(b, rb)])
      == if Joinable(a, b) then [Text(a + b, Range(ra.start, rb.end))] else [Text(a, ra), Text(b, rb)]
  {
    var es := [Text(a, ra), Text(b, rb)];
    assert !Droppable(Text(a, ra)) && !Droppable(Text(b, rb));
    assert es[1..] == [Text(b, rb)];
    assert CleanStep([], es[0]) == [Text(a, ra)];
    assert Cleanup(es) == CleanFrom([Text(a, ra)], [Text(b, rb)]);
    assert CleanFrom([Text(a, ra)], [Text(b, rb)]) == CleanStep([Text(a, ra)], Text(b, rb));
    assert [Text(a, ra)][..0] == [];
  }

  /** The cleaner is not idempotent: two line breaks merge into one run of two, which a
      second pass drops as blank. */
  lemma CleanupNotIdempotent(r1: Range, r2: Range)
    ensures Cleanup([Text("\n", r1), Text("\n", r2)]) == [Text("\n\n", Range(r1.start, r2.end))]
    ensures Cleanup(Cleanup([Text("\n", r1), Text("\n", r2)])) == []
  {
    assert Trim("\n") != [] || "\n" == "\n";
    CleanupPair("\n", r1, "\n", r2);
    assert "\n" + "\n" == "\n\n";
    assert Trim("\n\n") == [] by {
      TrimEmptyIffBlank("\n\n");
    }
    var t := Text("\n\n", Range(r1.start, r2.end));
    assert Droppable(t);
    assert [t][0] == t && [t][1..] == [];
    assert Cleanup([t]) == CleanFrom(CleanStep([], t), []);
  }
}
