/** The indent-block pass: `［＃ここからN字下げ］` … `［＃ここで字下げ終わり］` pairs in a flat
    element list become nested `IndentBlock` containers. */
module Blocks {
  import opened Wrappers
  import opened Elements

  // ---------------------------------------------------------------------------------------
  // The state of the pass

  /** An open block: its indent count, the elements gathered so far and the range of the
      instruction that opened it. */
  datatype Frame = Frame(indentCount: int, elements: seq<Element>, startRange: Range)

  /** The finished top-level output and the stack of open blocks, innermost last. */
  datatype State = State(result: seq<Element>, stack: seq<Frame>)

  /** The indent count of a block opened by an instruction with the given count: a missing
      count and a count of 0 both give 1 (JavaScript `count || 1`). */
  function BlockCount(count: Option<int>): (n: int)
    ensures count.Some? && count.value != 0 ==> n == count.value
    ensures count.None? || count.value == 0 ==> n == 1
  {
    match count
    case None => 1
    case Some(c) => if c == 0 then 1 else c
  }

  predicate IsStart(e: Element)
  {
    e.Instruction? && e.kind == IndentStart
  }

  predicate IsEnd(e: Element)
  {
    e.Instruction? && e.kind == IndentEnd
  }

  /** An element the pass passes through: anything but an instruction, and the left/right
      indent instructions, which a later pass merges. */
  predicate PassesThrough(e: Element)
  {
    !e.Instruction? || e.kind == LeftIndent || e.kind == RightIndent
  }

  /** Append e to the innermost open block, or to the output when no block is open. */
  function Add(st: State, e: Element): (r: State)
    ensures |r.stack| == |st.stack|
  {
    if |st.stack| == 0 then State(st.result + [e], [])
    else
      var top := st.stack[|st.stack| - 1];
      State(st.result, st.stack[..|st.stack| - 1] + [Frame(top.indentCount, top.elements + [e], top.startRange)])
  }

  /** The block a frame becomes when it is closed with the given range. */
  function Close(f: Frame, range: Range): Element
  {
    IndentBlock(f.indentCount, f.elements, range)
  }

  /** One iteration of the main loop of `processIndentBlocks`. */
  function Step(st: State, e: Element): State
  {
    if IsStart(e) then State(st.result, st.stack + [Frame(BlockCount(e.count), [], e.range)])
    else if IsEnd(e) then
      if |st.stack| == 0 then st
      else
        var top := st.stack[|st.stack| - 1];
        Add(State(st.result, st.stack[..|st.stack| - 1]), Close(top, Range(top.startRange.start, e.range.end)))
    else if PassesThrough(e) then Add(st, e)
    else st
  }

  /** The main loop over the remaining elements. */
  function Fold(st: State, es: seq<Element>): State
    decreases |es|
  {
    if |es| == 0 then st else Fold(Step(st, es[0]), es[1..])
  }

  /** The closing loop: each still-open block is closed with its opening instruction's range
      and handed to the block around it. */
  function CloseAll(st: State): seq<Element>
    decreases |st.stack|
  {
    if |st.stack| == 0 then st.result
    else
      var top := st.stack[|st.stack| - 1];
      CloseAll(Add(State(st.result, st.stack[..|st.stack| - 1]), Close(top, top.startRange)))
  }

  /** What `processIndentBlocks` returns. */
  function Process(es: seq<Element>): seq<Element>
  {
    CloseAll(Fold(State([], []), es))
  }

  // ---------------------------------------------------------------------------------------
  // The imperative pass

  /** `processIndentBlocks`, with the output list and the frame stack as local sequences. */
  method ProcessIndentBlocks(elements: seq<Element>) returns (result: seq<Element>)
    ensures result == Process(elements)
    ensures result == Nested(elements)
  {
    result := [];
    var stack: seq<Frame> := [];
    var i := 0;
    while i < |elements|
      invariant i <= |elements|
      invariant Fold(State(result, stack), elements[i..]) == Fold(State([], []), elements)
    {
      var element := elements[i];
      assert elements[i..][1..] == elements[i + 1..];
      if element.Instruction? {
        if element.kind == IndentStart {
          stack := stack + [Frame(BlockCount(element.count), [], element.range)];
        } else if element.kind == IndentEnd {
          if |stack| > 0 {
            var completed := stack[|stack| - 1];
            stack := stack[..|stack| - 1];
            var block := IndentBlock(completed.indentCount, completed.elements,
                                     Range(completed.startRange.start, element.range.end));
            if |stack| > 0 {
              var parent := stack[|stack| - 1];
              stack := stack[..|stack| - 1] + [Frame(parent.indentCount, parent.elements + [block], parent.startRange)];
            } else {
              result := result + [block];
            }
          }
        } else if element.kind == LeftIndent || element.kind == RightIndent {
          if |stack| > 0 {
            var top := stack[|stack| - 1];
            stack := stack[..|stack| - 1] + [Frame(top.indentCount, top.elements + [element], top.startRange)];
          } else {
            result := result + [element];
          }
        }
      } else {
        if |stack| > 0 {
          var top := stack[|stack| - 1];
          stack := stack[..|stack| - 1] + [Frame(top.indentCount, top.elements + [element], top.startRange)];
        } else {
          result := result + [element];
        }
      }
      i := i + 1;
    }
    while |stack| > 0
      invariant CloseAll(State(result, stack)) == Process(elements)
      decreases |stack|
    {
      var completed := stack[|stack| - 1];
      stack := stack[..|stack| - 1];
      var block := IndentBlock(completed.indentCount, completed.elements, completed.startRange);
      if |stack| > 0 {
        var parent := stack[|stack| - 1];
        stack := stack[..|stack| - 1] + [Frame(parent.indentCount, parent.elements + [block], parent.startRange)];
      } else {
        result := result + [block];
      }
    }
    ProcessIsNested(elements);
  }

  // ---------------------------------------------------------------------------------------
  // A reference definition by recursive descent

  /** The items of one nesting level, read up to the first `IndentEnd` that is not matched
      inside, and what is left from that `IndentEnd` on. A start without its end is closed
      where the input ends, with its own range. */
  function Level(es: seq<Element>): (r: (seq<Element>, seq<Element>))
    ensures |r.1| <= |es|
    ensures |r.1| > 0 ==> IsEnd(r.1[0])
    decreases |es|
  {
    if |es| == 0 then ([], [])
    else if IsEnd(es[0]) then ([], es)
    else if IsStart(es[0]) then
      var (inner, rest) := Level(es[1..]);
      if |rest| == 0 then ([IndentBlock(BlockCount(es[0].count), inner, es[0].range)], [])
      else
        var block := IndentBlock(BlockCount(es[0].count), inner, Range(es[0].range.start, rest[0].range.end));
        var (more, rest') := Level(rest[1..]);
        ([block] + more, rest')
    else if PassesThrough(es[0]) then
      var (more, rest) := Level(es[1..]);
      ([es[0]] + more, rest)
    else Level(es[1..])
  }

  /** The nested form of a flat list: the top level, with an `IndentEnd` that has no open
      block dropped. */
  function Nested(es: seq<Element>): seq<Element>
    decreases |es|
  {
    var (items, rest) := Level(es);
    if |rest| == 0 then items else items + Nested(rest[1..])
  }

  /** Adding several elements one after another. */
  function AddAll(st: State, es: seq<Element>): State
    decreases |es|
  {
    if |es| == 0 then st else AddAll(Add(st, es[0]), es[1..])
  }

  lemma {:induction false} AddAllToFrame(st: State, f: Frame, es: seq<Element>)
    ensures AddAll(State(st.result, st.stack + [f]), es)
      == State(st.result, st.stack + [Frame(f.indentCount, f.elements + es, f.startRange)])
    decreases |es|
  {
    if |es| == 0 {
      assert f.elements + es == f.elements;
    } else {
      var f' := Frame(f.indentCount, f.elements + [es[0]], f.startRange);
      assert (st.stack + [f])[..|st.stack|] == st.stack;
      assert Add(State(st.result, st.stack + [f]), es[0]) == State(st.result, st.stack + [f']);
      AddAllToFrame(st, f', es[1..]);
      assert f'.elements + es[1..] == f.elements + es;
    }
  }

  lemma {:induction false} AddAllToResult(result: seq<Element>, es: seq<Element>)
    ensures AddAll(State(result, []), es) == State(result + es, [])
    decreases |es|
  {
    if |es| > 0 {
      AddAllToResult(result + [es[0]], es[1..]);
      assert result + [es[0]] + es[1..] == result + es;
    }
  }

  /** Reading one level and handing its items to the innermost open block is the same as
      running the pass over them. */
  lemma {:induction false} LevelSound(st: State, es: seq<Element>)
    ensures CloseAll(Fold(st, es)) == CloseAll(Fold(AddAll(st, Level(es).0), Level(es).1))
    decreases |es|
  {
    if |es| == 0 || IsEnd(es[0]) {
    } else if IsStart(es[0]) {
      var f := Frame(BlockCount(es[0].count), [], es[0].range);
      var st1 := State(st.result, st.stack + [f]);
      assert Step(st, es[0]) == st1;
      var (inner, rest) := Level(es[1..]);
      LevelSound(st1, es[1..]);
      AddAllToFrame(st, f, inner);
      var full := Frame(f.indentCount, inner, f.startRange);
      assert f.elements + inner == inner;
      var st2 := State(st.result, st.stack + [full]);
      assert AddAll(st1, inner) == st2;
      assert (st.stack + [full])[..|st.stack|] == st.stack;
      if |rest| == 0 {
        var block := IndentBlock(BlockCount(es[0].count), inner, es[0].range);
        assert Fold(st2, rest) == st2;
        assert CloseAll(st2) == CloseAll(Add(st, block));
        assert AddAll(st, [block]) == AddAll(Add(st, block), []);
      } else {
        var block := IndentBlock(BlockCount(es[0].count), inner, Range(es[0].range.start, rest[0].range.end));
        assert Step(st2, rest[0]) == Add(st, block);
        assert Fold(st2, rest) == Fold(Add(st, block), rest[1..]);
        var (more, rest') := Level(rest[1..]);
        LevelSound(Add(st, block), rest[1..]);
        assert ([block] + more)[1..] == more;
      }
    } else if PassesThrough(es[0]) {
      assert Step(st, es[0]) == Add(st, es[0]);
      var (more, rest) := Level(es[1..]);
      LevelSound(Add(st, es[0]), es[1..]);
      assert ([es[0]] + more)[1..] == more;
    } else {
      assert Step(st, es[0]) == st;
      LevelSound(st, es[1..]);
    }
  }

  /** From a state with no open block, the pass appends the nested form of the input. */
  lemma {:induction false} FoldNested(result: seq<Element>, es: seq<Element>)
    ensures CloseAll(Fold(State(result, []), es)) == result + Nested(es)
    decreases |es|
  {
    var items := Level(es).0;
    var rest := Level(es).1;
    var st := State(result + items, []);
    calc {
      CloseAll(Fold(State(result, []), es));
    == { LevelSound(State(result, []), es); }
      CloseAll(Fold(AddAll(State(result, []), items), rest));
    == { AddAllToResult(result, items); }
      CloseAll(Fold(st, rest));
    }
    if |rest| == 0 {
      assert Nested(es) == items;
    } else {
      calc {
        CloseAll(Fold(st, rest));
      == { assert IsEnd(rest[0]) && |st.stack| == 0; assert Step(st, rest[0]) == st; }
        CloseAll(Fold(st, rest[1..]));
      == { FoldNested(result + items, rest[1..]); }
        (result + items) + Nested(rest[1..]);
      ==
        result + (items + Nested(rest[1..]));
      == { assert Nested(es) == items + Nested(rest[1..]); }
        result + Nested(es);
      }
    }
  }

  /** The stack-based pass and the recursive-descent reading agree on every input. */
  lemma ProcessIsNested(es: seq<Element>)
    ensures Process(es) == Nested(es)
  {
    FoldNested([], es);
    assert [] + Nested(es) == Nested(es);
  }

  // ---------------------------------------------------------------------------------------
  // Measures over element trees

  /** The number of `IndentBlock`s at any depth. */
  function Blocks(es: seq<Element>): nat
    decreases es
  {
    if |es| == 0 then 0
    else (if es[0].IndentBlock? then 1 + Blocks(es[0].elements) else 0) + Blocks(es[1..])
  }

  /** The number of top-level `IndentStart` instructions. */
  function Starts(es: seq<Element>): nat
  {
    if |es| == 0 then 0 else (if IsStart(es[0]) then 1 else 0) + Starts(es[1..])
  }

  /** The elements a block-free reading would see: each block replaced by its contents. */
  function Flatten(es: seq<Element>): seq<Element>
    decreases es
  {
    if |es| == 0 then []
    else (if es[0].IndentBlock? then Flatten(es[0].elements) else [es[0]]) + Flatten(es[1..])
  }

  /** The top-level elements the pass lets through, in order. */
  function Kept(es: seq<Element>): seq<Element>
  {
    if |es| == 0 then [] else (if PassesThrough(es[0]) then [es[0]] else []) + Kept(es[1..])
  }

  /** No `IndentStart` or `IndentEnd` at any depth. */
  predicate NoMarkers(es: seq<Element>)
    decreases es
  {
    |es| == 0 ||
      (!IsStart(es[0]) && !IsEnd(es[0]) && (es[0].IndentBlock? ==> NoMarkers(es[0].elements))
       && NoMarkers(es[1..]))
  }

  /** No `IndentStart` or `IndentEnd` at the top level. */
  predicate Unmarked(es: seq<Element>)
  {
    forall i :: 0 <= i < |es| ==> !IsStart(es[i]) && !IsEnd(es[i])
  }

  lemma {:induction false} BlocksAppend(a: seq<Element>, b: seq<Element>)
    ensures Blocks(a + b) == Blocks(a) + Blocks(b)
    decreases |a|
  {
    if |a| > 0 {
      assert (a + b)[0] == a[0] && (a + b)[1..] == a[1..] + b;
      BlocksAppend(a[1..], b);
    } else {
      assert a + b == b;
    }
  }

  lemma {:induction false} FlattenAppend(a: seq<Element>, b: seq<Element>)
    ensures Flatten(a + b) == Flatten(a) + Flatten(b)
    decreases |a|
  {
    if |a| > 0 {
      assert (a + b)[0] == a[0] && (a + b)[1..] == a[1..] + b;
      FlattenAppend(a[1..], b);
    } else {
      assert a + b == b;
    }
  }

  lemma {:induction false} NoMarkersAppend(a: seq<Element>, b: seq<Element>)
    ensures NoMarkers(a + b) <==> NoMarkers(a) && NoMarkers(b)
    decreases |a|
  {
    if |a| > 0 {
      assert (a + b)[0] == a[0] && (a + b)[1..] == a[1..] + b;
      NoMarkersAppend(a[1..], b);
    } else {
      assert a + b == b;
    }
  }

  // ---------------------------------------------------------------------------------------
  // Properties of the pass

  lemma {:induction false} LevelBlocks(es: seq<Element>)
    ensures Blocks(Level(es).0) + Blocks(Level(es).1) + Starts(Level(es).1) == Blocks(es) + Starts(es)
    decreases |es|
  {
    if |es| == 0 || IsEnd(es[0]) {
    } else if IsStart(es[0]) {
      var (inner, rest) := Level(es[1..]);
      LevelBlocks(es[1..]);
      if |rest| == 0 {
        assert Blocks(Level(es).0) == 1 + Blocks(inner);
      } else {
        var block := IndentBlock(BlockCount(es[0].count), inner, Range(es[0].range.start, rest[0].range.end));
        var (more, rest') := Level(rest[1..]);
        LevelBlocks(rest[1..]);
        BlocksAppend([block], more);
        assert Blocks([block]) == 1 + Blocks(inner);
      }
    } else if PassesThrough(es[0]) {
      var (more, rest) := Level(es[1..]);
      LevelBlocks(es[1..]);
      BlocksAppend([es[0]], more);
    } else {
      LevelBlocks(es[1..]);
    }
  }

  /** One block per start: every `IndentStart` becomes exactly one `IndentBlock` of the
      output, closed or not, and blocks already in the input stay. */
  lemma {:induction false} OneBlockPerStart(es: seq<Element>)
    ensures Blocks(Process(es)) == Blocks(es) + Starts(es)
    decreases |es|
  {
    ProcessIsNested(es);
    NestedBlocks(es);
  }

  lemma {:induction false} NestedBlocks(es: seq<Element>)
    ensures Blocks(Nested(es)) == Blocks(es) + Starts(es)
    decreases |es|
  {
    var items := Level(es).0;
    var rest := Level(es).1;
    LevelBlocks(es);
    if |rest| > 0 {
      NestedBlocks(rest[1..]);
      BlocksAppend(items, Nested(rest[1..]));
    }
  }

  lemma {:induction false} LevelFlatten(es: seq<Element>)
    ensures Flatten(Level(es).0) + Flatten(Kept(Level(es).1)) == Flatten(Kept(es))
    decreases |es|
  {
    if |es| == 0 || IsEnd(es[0]) {
    } else if IsStart(es[0]) {
      KeptSkip(es);
      var (inner, rest) := Level(es[1..]);
      LevelFlatten(es[1..]);
      if |rest| == 0 {
        assert Flatten(Level(es).0) == Flatten(inner);
      } else {
        KeptSkip(rest);
        var block := IndentBlock(BlockCount(es[0].count), inner, Range(es[0].range.start, rest[0].range.end));
        var (more, rest') := Level(rest[1..]);
        LevelFlatten(rest[1..]);
        FlattenAppend([block], more);
        assert Flatten([block]) == Flatten(inner);
      }
    } else if PassesThrough(es[0]) {
      var (more, rest) := Level(es[1..]);
      LevelFlatten(es[1..]);
      FlattenAppend([es[0]], more);
      FlattenAppend([es[0]], Kept(es[1..]));
    } else {
      KeptSkip(es);
      LevelFlatten(es[1..]);
    }
  }

  /** An element the pass drops adds nothing to the kept elements. */
  lemma KeptSkip(es: seq<Element>)
    requires |es| > 0 && !PassesThrough(es[0])
    ensures Kept(es) == Kept(es[1..])
  {
    assert Kept(es) == [] + Kept(es[1..]);
  }

  /** Order preservation: read with every block replaced by its contents, the output is the
      input without its start, end and other non-indent instructions. */
  lemma {:induction false} OrderPreserved(es: seq<Element>)
    ensures Flatten(Process(es)) == Flatten(Kept(es))
  {
    ProcessIsNested(es);
    NestedFlatten(es);
  }

  lemma {:induction false} NestedFlatten(es: seq<Element>)
    ensures Flatten(Nested(es)) == Flatten(Kept(es))
    decreases |es|
  {
    var items := Level(es).0;
    var rest := Level(es).1;
    LevelFlatten(es);
    if |rest| > 0 {
      KeptSkip(rest);
      NestedFlatten(rest[1..]);
      FlattenAppend(items, Nested(rest[1..]));
    }
  }

  lemma {:induction false} LevelNoMarkers(es: seq<Element>)
    requires NoMarkers(Kept(es))
    ensures NoMarkers(Level(es).0) && NoMarkers(Kept(Level(es).1))
    decreases |es|
  {
    if |es| == 0 || IsEnd(es[0]) {
    } else if IsStart(es[0]) {
      KeptSkip(es);
      var (inner, rest) := Level(es[1..]);
      LevelNoMarkers(es[1..]);
      if |rest| > 0 {
        KeptSkip(rest);
        var block := IndentBlock(BlockCount(es[0].count), inner, Range(es[0].range.start, rest[0].range.end));
        var (more, rest') := Level(rest[1..]);
        LevelNoMarkers(rest[1..]);
        NoMarkersAppend([block], more);
      }
    } else if PassesThrough(es[0]) {
      NoMarkersAppend([es[0]], Kept(es[1..]));
      var (more, rest) := Level(es[1..]);
      LevelNoMarkers(es[1..]);
      NoMarkersAppend([es[0]], more);
    } else {
      KeptSkip(es);
      LevelNoMarkers(es[1..]);
    }
  }

  lemma {:induction false} NestedNoMarkers(es: seq<Element>)
    requires NoMarkers(Kept(es))
    ensures NoMarkers(Nested(es))
    decreases |es|
  {
    var items := Level(es).0;
    var rest := Level(es).1;
    LevelNoMarkers(es);
    if |rest| > 0 {
      KeptSkip(rest);
      NestedNoMarkers(rest[1..]);
      NoMarkersAppend(items, Nested(rest[1..]));
    }
  }

  /** No start or end leaks: when the blocks the input already holds are free of them (as in
      the scanner's output, which holds no blocks), no `IndentStart` or `IndentEnd` is left at
      any depth of the output. */
  lemma NoMarkersLeak(es: seq<Element>)
    requires NoMarkers(Kept(es))
    ensures NoMarkers(Process(es))
  {
    ProcessIsNested(es);
    NestedNoMarkers(es);
  }

  /** A stretch with no start or end joins the current level as its kept elements. */
  lemma {:induction false} LevelUnmarked(mid: seq<Element>, rest: seq<Element>)
    requires Unmarked(mid)
    ensures Level(mid + rest) == (Kept(mid) + Level(rest).0, Level(rest).1)
    decreases |mid|
  {
    if |mid| == 0 {
      assert mid + rest == rest;
      assert Kept(mid) + Level(rest).0 == Level(rest).0;
    } else {
      assert (mid + rest)[0] == mid[0] && (mid + rest)[1..] == mid[1..] + rest;
      assert Unmarked(mid[1..]) by {
        forall i | 0 <= i < |mid[1..]| ensures !IsStart(mid[1..][i]) && !IsEnd(mid[1..][i]) {
          assert mid[1..][i] == mid[i + 1];
        }
      }
      LevelUnmarked(mid[1..], rest);
      var l := Level(rest);
      if PassesThrough(mid[0]) {
        assert Level(mid + rest) == ([mid[0]] + (Kept(mid[1..]) + l.0), l.1);
        assert Kept(mid) == [mid[0]] + Kept(mid[1..]);
        assert [mid[0]] + (Kept(mid[1..]) + l.0) == Kept(mid) + l.0;
      } else {
        KeptSkip(mid);
        assert Level(mid + rest) == Level(mid[1..] + rest);
      }
    }
  }

  /** The level reading of a closed block and what follows it. */
  lemma ClosedLevel(s: Element, mid: seq<Element>, e: Element, post: seq<Element>)
    requires IsStart(s) && IsEnd(e) && Unmarked(mid)
    ensures Level([s] + mid + [e] + post)
      == ([IndentBlock(BlockCount(s.count), Kept(mid), Range(s.range.start, e.range.end))] + Level(post).0,
          Level(post).1)
  {
    var es := [s] + mid + [e] + post;
    assert es[0] == s && es[1..] == mid + ([e] + post);
    LevelUnmarked(mid, [e] + post);
    assert Level([e] + post) == ([], [e] + post);
    assert ([e] + post)[1..] == post;
    assert Kept(mid) + [] == Kept(mid);
  }

  /** A closed block holds exactly the kept elements between its start and its end, with the
      start's count (or 1) and the range from the start's start to the end's end. */
  lemma ClosedBlock(s: Element, mid: seq<Element>, e: Element, post: seq<Element>)
    requires IsStart(s) && IsEnd(e) && Unmarked(mid)
    ensures Process([s] + mid + [e] + post)
      == [IndentBlock(BlockCount(s.count), Kept(mid), Range(s.range.start, e.range.end))] + Process(post)
  {
    var es := [s] + mid + [e] + post;
    ProcessIsNested(es);
    ProcessIsNested(post);
    ClosedLevel(s, mid, e, post);
    var block := IndentBlock(BlockCount(s.count), Kept(mid), Range(s.range.start, e.range.end));
    var items := Level(post).0;
    var rest := Level(post).1;
    if |rest| > 0 {
      assert Nested(es) == [block] + items + Nested(rest[1..]);
      assert Nested(post) == items + Nested(rest[1..]);
    }
  }

  /** A block never closed holds everything after its start, and takes the start's own
      range. */
  lemma OpenBlock(s: Element, mid: seq<Element>)
    requires IsStart(s) && Unmarked(mid)
    ensures Process([s] + mid) == [IndentBlock(BlockCount(s.count), Kept(mid), s.range)]
  {
    var es := [s] + mid;
    ProcessIsNested(es);
    assert es[1..] == mid + [];
    LevelUnmarked(mid, []);
    assert Kept(mid) + [] == Kept(mid);
  }

  /** The level reading of the body of an outer block that holds one inner block. */
  lemma InnerLevel(a: seq<Element>, s2: Element, b: seq<Element>, e2: Element, c: seq<Element>, e1: Element)
    requires IsStart(s2) && IsEnd(e1) && IsEnd(e2)
    requires Unmarked(a) && Unmarked(b) && Unmarked(c)
    ensures Level(a + ([s2] + b + [e2] + (c + [e1])))
      == (Kept(a) + ([IndentBlock(BlockCount(s2.count), Kept(b), Range(s2.range.start, e2.range.end))] + Kept(c)), [e1])
  {
    var inner := [s2] + b + [e2] + (c + [e1]);
    LevelUnmarked(a, inner);
    ClosedLevel(s2, b, e2, c + [e1]);
    LevelUnmarked(c, [e1]);
    assert Level([e1]) == ([], [e1]);
    assert Kept(c) + [] == Kept(c);
  }

  /** Nesting: a block inside a block is built inside it, between the kept elements before
      and after it. */
  lemma NestedBlocksExample(s1: Element, a: seq<Element>, s2: Element, b: seq<Element>, e2: Element,
                            c: seq<Element>, e1: Element)
    requires IsStart(s1) && IsStart(s2) && IsEnd(e1) && IsEnd(e2)
    requires Unmarked(a) && Unmarked(b) && Unmarked(c)
    ensures Process([s1] + a + [s2] + b + [e2] + c + [e1])
      == [IndentBlock(BlockCount(s1.count),
                      Kept(a) + [IndentBlock(BlockCount(s2.count), Kept(b), Range(s2.range.start, e2.range.end))] + Kept(c),
                      Range(s1.range.start, e1.range.end))]
  {
    var es := [s1] + a + [s2] + b + [e2] + c + [e1];
    var body := a + ([s2] + b + [e2] + (c + [e1]));
    assert es == [s1] + body;
    InnerLevel(a, s2, b, e2, c, e1);
    var block2 := IndentBlock(BlockCount(s2.count), Kept(b), Range(s2.range.start, e2.range.end));
    WrapLevel(s1, body, Kept(a) + ([block2] + Kept(c)), e1);
    assert Kept(a) + ([block2] + Kept(c)) == Kept(a) + [block2] + Kept(c);
  }

  /** A start whose level reads up to a final end becomes one closed block. */
  lemma WrapLevel(s: Element, body: seq<Element>, items: seq<Element>, e: Element)
    requires IsStart(s) && IsEnd(e) && Level(body) == (items, [e])
    ensures Process([s] + body) == [IndentBlock(BlockCount(s.count), items, Range(s.range.start, e.range.end))]
  {
    var es := [s] + body;
    assert es[0] == s && es[1..] == body;
    assert [e][1..] == [];
    var block := IndentBlock(BlockCount(s.count), items, Range(s.range.start, e.range.end));
    assert Level(es) == ([block] + [], []);
    ProcessIsNested(es);
  }

  // ---------------------------------------------------------------------------------------
  // Balanced nesting

  /** Starts and ends that pair up like parentheses: empty, an element that is neither
      followed by a balanced stretch, or a start, a balanced body, its end and a balanced
      stretch. */
  predicate Balanced(es: seq<Element>)
    decreases |es|
  {
    |es| == 0
    || (!IsStart(es[0]) && !IsEnd(es[0]) && Balanced(es[1..]))
    || (IsStart(es[0]) && exists k :: 1 <= k < |es| && IsEnd(es[k]) && Balanced(es[1..k]) && Balanced(es[k + 1..]))
  }

  /** A start whose body reads up to an end: the block around that body, then the level after
      the end. */
  lemma LevelStart(x: seq<Element>, items: seq<Element>, e: Element, after: seq<Element>)
    requires |x| > 0 && IsStart(x[0]) && Level(x[1..]) == (items, [e] + after)
    ensures Level(x)
      == ([IndentBlock(BlockCount(x[0].count), items, Range(x[0].range.start, e.range.end))] + Level(after).0,
          Level(after).1)
  {
    assert ([e] + after)[0] == e && ([e] + after)[1..] == after;
  }

  /** An element that neither starts nor ends a block is kept when it passes through and
      skipped otherwise. */
  lemma LevelOther(h: Element, rest: seq<Element>)
    requires !IsStart(h) && !IsEnd(h)
    ensures Level([h] + rest) == if PassesThrough(h) then ([h] + Level(rest).0, Level(rest).1) else Level(rest)
  {
    assert ([h] + rest)[0] == h && ([h] + rest)[1..] == rest;
  }

  lemma LevelEnd(e: Element, after: seq<Element>)
    requires IsEnd(e)
    ensures Level([e] + after) == ([], [e] + after)
  {
    assert ([e] + after)[0] == e;
  }

  /** A balanced stretch is read completely at the current level, and whatever follows it is
      read as if the stretch were not there. */
  lemma {:induction false} LevelBalanced(x: seq<Element>, tail: seq<Element>)
    requires Balanced(x)
    ensures Level(x).1 == []
    ensures Level(x + tail) == (Level(x).0 + Level(tail).0, Level(tail).1)
    decreases |x|, 2
  {
    if |x| == 0 {
      assert x + tail == tail && Level(x) == ([], []);
      assert [] + Level(tail).0 == Level(tail).0;
    } else if !IsStart(x[0]) && !IsEnd(x[0]) {
      LevelBalanced(x[1..], tail);
      assert x == [x[0]] + x[1..] && x + tail == [x[0]] + (x[1..] + tail);
      LevelOther(x[0], x[1..]);
      LevelOther(x[0], x[1..] + tail);
      if PassesThrough(x[0]) {
        assert [x[0]] + (Level(x[1..]).0 + Level(tail).0) == [x[0]] + Level(x[1..]).0 + Level(tail).0;
      }
    } else {
      var k :| 1 <= k < |x| && IsEnd(x[k]) && Balanced(x[1..k]) && Balanced(x[k + 1..]);
      LevelBalanced(x[k + 1..], tail);
      LevelBalancedAt(x, k, tail);
    }
  }

  /** The body of a start reads up to its end, which comes back as the rest. */
  lemma {:induction false} LevelBody(y: seq<Element>, e: Element, after: seq<Element>)
    requires IsEnd(e) && Balanced(y)
    ensures Level(y + ([e] + after)) == (Level(y).0, [e] + after)
    decreases |y| + 1, 0
  {
    LevelBalanced(y, [e] + after);
    LevelEnd(e, after);
    assert Level(y).0 + [] == Level(y).0;
  }

  /** `LevelBalanced` for a stretch that opens with a start whose end is at `k`. */
  lemma {:induction false} LevelBalancedAt(x: seq<Element>, k: int, tail: seq<Element>)
    requires 1 <= k < |x| && IsStart(x[0]) && IsEnd(x[k]) && Balanced(x[1..k])
    requires Level(x[k + 1..]).1 == []
    requires Level(x[k + 1..] + tail) == (Level(x[k + 1..]).0 + Level(tail).0, Level(tail).1)
    ensures Level(x).1 == []
    ensures Level(x + tail) == (Level(x).0 + Level(tail).0, Level(tail).1)
    decreases |x|, 1
  {
    var block := IndentBlock(BlockCount(x[0].count), Level(x[1..k]).0, Range(x[0].range.start, x[k].range.end));
    StartReading(x, k, []);
    StartReading(x, k, tail);
    assert x + [] == x && x[k + 1..] + [] == x[k + 1..];
    assert [block] + (Level(x[k + 1..]).0 + Level(tail).0) == [block] + Level(x[k + 1..]).0 + Level(tail).0;
  }

  /** A start at 0 with its end at `k`, followed by a tail: the block around the body, then
      the rest of the stretch and the tail read at the same level. */
  lemma {:induction false} StartReading(x: seq<Element>, k: int, tail: seq<Element>)
    requires 1 <= k < |x| && IsStart(x[0]) && IsEnd(x[k]) && Balanced(x[1..k])
    ensures Level(x + tail)
      == ([IndentBlock(BlockCount(x[0].count), Level(x[1..k]).0, Range(x[0].range.start, x[k].range.end))]
            + Level(x[k + 1..] + tail).0,
          Level(x[k + 1..] + tail).1)
    decreases |x|, 0
  {
    var y, e, z := x[1..k], x[k], x[k + 1..];
    var xt := x + tail;
    assert xt[0] == x[0] && xt[1..] == y + ([e] + (z + tail));
    LevelBody(y, e, z + tail);
    LevelStart(xt, Level(y).0, e, z + tail);
  }

  /** A balanced stretch comes out of the pass as its level reading. */
  lemma ProcessBalanced(x: seq<Element>)
    requires Balanced(x)
    ensures Process(x) == Level(x).0
  {
    ProcessIsNested(x);
    LevelBalanced(x, []);
  }

  /** A start, a balanced body and an end become one block around the processed body, with
      the start's count (or 1) and the range from the start's start to the end's end; what
      follows is processed on its own. */
  lemma BalancedBlock(s: Element, mid: seq<Element>, e: Element, post: seq<Element>)
    requires IsStart(s) && IsEnd(e) && Balanced(mid)
    ensures Process([s] + mid + [e] + post)
      == [IndentBlock(BlockCount(s.count), Process(mid), Range(s.range.start, e.range.end))] + Process(post)
  {
    BalancedBlockLevel(s, mid, e, post);
    ProcessBalanced(mid);
    var es := [s] + mid + [e] + post;
    var block := IndentBlock(BlockCount(s.count), Process(mid), Range(s.range.start, e.range.end));
    ProcessIsNested(es);
    ProcessIsNested(post);
    var rest := Level(post).1;
    if |rest| > 0 {
      assert Nested(es) == [block] + Level(post).0 + Nested(rest[1..]);
    }
  }

  lemma BalancedBlockLevel(s: Element, mid: seq<Element>, e: Element, post: seq<Element>)
    requires IsStart(s) && IsEnd(e) && Balanced(mid)
    ensures Level([s] + mid + [e] + post)
      == ([IndentBlock(BlockCount(s.count), Level(mid).0, Range(s.range.start, e.range.end))] + Level(post).0,
          Level(post).1)
  {
    var es := [s] + mid + [e] + post;
    assert es[0] == s && es[1..] == mid + ([e] + post);
    LevelBody(mid, e, post);
    LevelStart(es, Level(mid).0, e, post);
  }

  /** A start followed by a balanced stretch and no end is closed at the end of the document,
      keeping the start's own range. */
  lemma BalancedOpenBlock(s: Element, mid: seq<Element>)
    requires IsStart(s) && Balanced(mid)
    ensures Process([s] + mid) == [IndentBlock(BlockCount(s.count), Process(mid), s.range)]
  {
    var es := [s] + mid;
    assert es[0] == s && es[1..] == mid;
    ProcessBalanced(mid);
    LevelBalanced(mid, []);
    ProcessIsNested(es);
  }

  lemma {:induction false} FoldAppend(st: State, a: seq<Element>, b: seq<Element>)
    ensures Fold(st, a + b) == Fold(Fold(st, a), b)
    decreases |a|
  {
    if |a| == 0 {
      assert a + b == b;
    } else {
      assert (a + b)[0] == a[0] && (a + b)[1..] == a[1..] + b;
      FoldAppend(Step(st, a[0]), a[1..], b);
    }
  }

  /** An `IndentEnd` met while no block is open is dropped and changes nothing else. */
  lemma OrphanEndDropped(pre: seq<Element>, e: Element, post: seq<Element>)
    requires IsEnd(e) && |Fold(State([], []), pre).stack| == 0
    ensures Process(pre + [e] + post) == Process(pre + post)
  {
    var st := Fold(State([], []), pre);
    FoldAppend(State([], []), pre, [e] + post);
    FoldAppend(State([], []), pre, post);
    assert pre + [e] + post == pre + ([e] + post);
    assert ([e] + post)[1..] == post;
    assert Fold(st, [e] + post) == Fold(Step(st, e), post);
  }

  // ---------------------------------------------------------------------------------------
  // Removing instructions

  /** `removeFormattingInstructions`: every instruction goes, everything else stays. */
  function RemoveFormattingInstructions(es: seq<Element>): (r: seq<Element>)
    ensures forall i :: 0 <= i < |r| ==> !r[i].Instruction?
    ensures |r| <= |es|
  {
    if |es| == 0 then []
    else (if es[0].Instruction? then [] else [es[0]]) + RemoveFormattingInstructions(es[1..])
  }

  /** The filter works element by element, so it keeps the order of what it keeps. */
  lemma {:induction false} RemoveAppend(a: seq<Element>, b: seq<Element>)
    ensures RemoveFormattingInstructions(a + b) == RemoveFormattingInstructions(a) + RemoveFormattingInstructions(b)
    decreases |a|
  {
    if |a| == 0 {
      assert a + b == b;
    } else {
      assert (a + b)[0] == a[0] && (a + b)[1..] == a[1..] + b;
      RemoveAppend(a[1..], b);

    }
  }

  /** An element is kept exactly when it occurs in the input and is not an instruction. */
  lemma {:induction false} RemoveMembers(es: seq<Element>)
    ensures forall e :: e in RemoveFormattingInstructions(es) <==> e in es && !e.Instruction?
    decreases |es|
  {
    if |es| > 0 {
      RemoveMembers(es[1..]);
      assert es == [es[0]] + es[1..];
    }
  }

  /** Every element of a list without instructions passes through. */
  lemma {:induction false} KeptInstructionFree(es: seq<Element>)
    requires forall i :: 0 <= i < |es| ==> !es[i].Instruction?
    ensures Kept(es) == es
    decreases |es|
  {
    if |es| > 0 {
      KeptInstructionFree(es[1..]);
      assert [es[0]] + es[1..] == es;
    }
  }

  /** The indent-block pass leaves a list without instructions as it is. */
  lemma ProcessInstructionFree(es: seq<Element>)
    requires forall i :: 0 <= i < |es| ==> !es[i].Instruction?
    ensures Process(es) == es
  {
    KeptInstructionFree(es);
    LevelUnmarked(es, []);
    assert es + [] == es && Kept(es) + [] == Kept(es);
    ProcessIsNested(es);
  }

  /** A list without instructions comes back unchanged. */
  lemma {:induction false} RemoveKeepsInstructionFree(es: seq<Element>)
    requires forall i :: 0 <= i < |es| ==> !es[i].Instruction?
    ensures RemoveFormattingInstructions(es) == es
    decreases |es|
  {
    if |es| > 0 {
      assert forall i :: 0 <= i < |es[1..]| ==> es[1..][i] == es[i + 1];
      RemoveKeepsInstructionFree(es[1..]);
      assert [es[0]] + es[1..] == es;
    }
  }
}
