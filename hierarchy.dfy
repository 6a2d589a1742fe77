/** The table-of-contents heading tree: building it from the flat heading list with a stack,
    flattening it back in preorder, searching it, and the index window of the virtual
    scroller. */
module Hierarchy {
  import opened Wrappers
  import opened Elements

  /** A tree node: the heading, its sub-headings, its level number and its position in
      preorder. */
  datatype Node = Node(heading: Heading, children: seq<Node>, level: nat, index: nat)

  /** `getLevelNumber`: large, medium and small headings are levels 1, 2 and 3. */
  function LevelNumber(level: HeadingLevel): (n: nat)
    ensures 1 <= n <= 3
    ensures n == 1 <==> level == Large
  {
    match level
    case Large => 1
    case Medium => 2
    case Small => 3
  }

  // ---------------------------------------------------------------------------------------
  // Preorder

  /** The nodes in preorder: each node, then its subtree, then its later siblings. */
  function Preorder(f: seq<Node>): seq<Node>
    decreases f
  {
    if |f| == 0 then [] else [f[0]] + Preorder(f[0].children) + Preorder(f[1..])
  }

  lemma {:induction false} PreorderAppend(a: seq<Node>, b: seq<Node>)
    ensures Preorder(a + b) == Preorder(a) + Preorder(b)
    decreases |a|
  {
    if |a| == 0 {
      assert a + b == b;
    } else {
      assert (a + b)[0] == a[0];
      assert (a + b)[1..] == a[1..] + b;
      PreorderAppend(a[1..], b);
    }
  }

  lemma PreorderOne(t: Node)
    ensures Preorder([t]) == [t] + Preorder(t.children)
  {
    assert [t][1..] == [];
  }

  /** Position k of a preorder: the first tree's root, a node of its subtree, or a node of
      the later trees. */
  lemma PreorderAt(f: seq<Node>, k: nat)
    requires |f| > 0 && k < |Preorder(f)|
    ensures |Preorder(f)| == 1 + |Preorder(f[0].children)| + |Preorder(f[1..])|
    ensures Preorder(f)[k] ==
      if k == 0 then f[0]
      else if k <= |Preorder(f[0].children)| then Preorder(f[0].children)[k - 1]
      else Preorder(f[1..])[k - 1 - |Preorder(f[0].children)|]
  {
  }

  /** The preorder of the first i + 1 trees extends that of the first i by tree i. */
  lemma PreorderSnoc(f: seq<Node>, i: nat)
    requires i < |f|
    ensures Preorder(f[..i + 1]) == Preorder(f[..i]) + [f[i]] + Preorder(f[i].children)
  {
    assert f[..i + 1] == f[..i] + [f[i]];
    PreorderAppend(f[..i], [f[i]]);
    PreorderOne(f[i]);
  }

  /** `traverse`: appends the preorder of `nodes` to the accumulator, node by node. */
  method Traverse(nodes: seq<Node>, acc: seq<Node>) returns (result: seq<Node>)
    ensures result == acc + Preorder(nodes)
    decreases nodes
  {
    result := acc;
    for i := 0 to |nodes|
      invariant result == acc + Preorder(nodes[..i])
    {
      var node := nodes[i];
      result := result + [node];
      if |node.children| > 0 {
        result := Traverse(node.children, result);
      }
      PreorderSnoc(nodes, i);
    }
    assert nodes[..|nodes|] == nodes;
  }

  /** `flattenTree`: every node of the forest, in preorder. */
  method FlattenTree(tree: seq<Node>) returns (result: seq<Node>)
    ensures result == Preorder(tree)
  {
    result := Traverse(tree, []);
  }

  // ---------------------------------------------------------------------------------------
  // The reference forest

  /** The node a heading starts as: no children, numbered by its position in the list. */
  function Leaf(h: Heading, index: nat): Node
  {
    Node(h, [], LevelNumber(h.level), index)
  }

  /** A new leaf goes under the deepest node on the rightmost path whose level number is
      smaller than its own, or becomes a new root when there is none. */
  function Insert(f: seq<Node>, x: Node): seq<Node>
    decreases f
  {
    if |f| == 0 || f[|f| - 1].level >= x.level then f + [x]
    else f[..|f| - 1] + [f[|f| - 1].(children := Insert(f[|f| - 1].children, x))]
  }

  /** The forest of a heading list, one heading inserted after the other: the declarative
      reading against which `BuildHeadingTree` is proved. */
  function Forest(hs: seq<Heading>): seq<Node>
  {
    if |hs| == 0 then [] else Insert(Forest(hs[..|hs| - 1]), Leaf(hs[|hs| - 1], |hs| - 1))
  }

  lemma ForestStep(hs: seq<Heading>, i: nat)
    requires i < |hs|
    ensures Forest(hs[..i + 1]) == Insert(Forest(hs[..i]), Leaf(hs[i], i))
  {
    assert hs[..i + 1][..i] == hs[..i];
  }

  // ---------------------------------------------------------------------------------------
  // The stack algorithm

  /** Child appended as the last child of parent. */
  function Attach(parent: Node, child: Node): Node
  {
    parent.(children := parent.children + [child])
  }

  /** The open chain closed up: every node becomes the last child of the node below it. */
  function Nest(stack: seq<Node>): Node
    requires |stack| > 0
    decreases |stack|
  {
    if |stack| == 1 then stack[0] else Attach(stack[0], Nest(stack[1..]))
  }

  /** The forest the finished roots and the open chain stand for. */
  function Closed(tree: seq<Node>, stack: seq<Node>): seq<Node>
  {
    if |stack| == 0 then tree else tree + [Nest(stack)]
  }

  /** Level numbers rise strictly up the stack. */
  predicate Increasing(stack: seq<Node>)
  {
    forall i, j :: 0 <= i < j < |stack| ==> stack[i].level < stack[j].level
  }

  /** Pushing a node above every open level keeps the stack increasing. */
  lemma IncreasingPush(stack: seq<Node>, x: Node)
    requires Increasing(stack)
    requires |stack| > 0 ==> stack[|stack| - 1].level < x.level
    ensures Increasing(stack + [x])
  {
    var s := stack + [x];
    forall i, j | 0 <= i < j < |s| ensures s[i].level < s[j].level {
      if j == |stack| && i < |stack| - 1 {
        assert stack[i].level < stack[|stack| - 1].level;
      }
    }
  }

  /** The node has no children, or its last child's level number is at least `level`. */
  predicate LastChildAtLeast(n: Node, level: nat)
  {
    |n.children| == 0 || n.children[|n.children| - 1].level >= level
  }

  lemma {:induction false} NestPop(stack: seq<Node>)
    requires |stack| >= 2
    ensures Nest(stack[..|stack| - 2] + [Attach(stack[|stack| - 2], stack[|stack| - 1])]) == Nest(stack)
    decreases |stack|
  {
    var n := |stack|;
    var popped := stack[..n - 2] + [Attach(stack[n - 2], stack[n - 1])];
    if n == 2 {
      assert popped == [Attach(stack[0], stack[1])];
      assert stack[1..] == [stack[1]];
    } else {
      var rest := stack[1..];
      NestPop(rest);
      assert popped[1..] == rest[..|rest| - 2] + [Attach(rest[|rest| - 2], rest[|rest| - 1])];
      assert popped[0] == stack[0];
    }
  }

  /** Popping the top of the open chain does not change the forest it stands for, keeps
      the level numbers rising, and leaves the popped node, whose level number is at least
      `level`, as the last root or as the last child of the new top. */
  lemma PopClosed(tree: seq<Node>, stack: seq<Node>, level: nat)
    requires |stack| > 0 && Increasing(stack) && stack[|stack| - 1].level >= level
    ensures |stack| == 1 ==> Closed(tree + [stack[0]], []) == Closed(tree, stack)
    ensures |stack| == 1 ==> (tree + [stack[0]])[|tree|].level >= level
    ensures |stack| >= 2 ==>
      var popped := stack[..|stack| - 2] + [Attach(stack[|stack| - 2], stack[|stack| - 1])];
      Closed(tree, popped) == Closed(tree, stack) && Increasing(popped) &&
      LastChildAtLeast(popped[|popped| - 1], level)
  {
    if |stack| >= 2 {
      NestPop(stack);
      var n := |stack|;
      var popped := stack[..n - 2] + [Attach(stack[n - 2], stack[n - 1])];
      assert forall i :: 0 <= i < |popped| ==> popped[i].level == stack[i].level;
    }
  }

  lemma {:induction false} NestPush(stack: seq<Node>, x: Node)
    requires |stack| > 0
    requires forall i :: 0 <= i < |stack| ==> stack[i].level < x.level
    requires LastChildAtLeast(stack[|stack| - 1], x.level)
    ensures Nest(stack + [x]) == Nest(stack).(children := Insert(Nest(stack).children, x))
    decreases |stack|
  {
    if |stack| == 1 {
      assert (stack + [x])[1..] == [x];
    } else {
      var rest := stack[1..];
      NestPush(rest, x);
      assert (stack + [x])[1..] == rest + [x];
      var kids := stack[0].children + [Nest(rest)];
      assert kids[..|kids| - 1] == stack[0].children;
    }
  }

  /** Pushing a new leaf once the pops are done inserts it into the forest. */
  lemma PushClosed(tree: seq<Node>, stack: seq<Node>, x: Node)
    requires |stack| == 0 ==> |tree| == 0 || tree[|tree| - 1].level >= x.level
    requires |stack| > 0 ==>
      Increasing(stack) && stack[|stack| - 1].level < x.level && LastChildAtLeast(stack[|stack| - 1], x.level)
    ensures Closed(tree, stack + [x]) == Insert(Closed(tree, stack), x)
  {
    if |stack| > 0 {
      forall i | 0 <= i < |stack| ensures stack[i].level < x.level {
        if i < |stack| - 1 {
          assert stack[i].level < stack[|stack| - 1].level;
        }
      }
      NestPush(stack, x);
      var f := tree + [Nest(stack)];
      assert f[..|f| - 1] == tree;
    } else {
      assert stack + [x] == [x];
    }
  }

  /** One heading through the stack: once the pops are done, pushing its leaf gives the
      forest of one more heading. */
  lemma PushStep(tree: seq<Node>, stack: seq<Node>, hs: seq<Heading>, i: nat, x: Node)
    requires i < |hs| && x == Leaf(hs[i], i)
    requires Closed(tree, stack) == Forest(hs[..i])
    requires |stack| == 0 ==> |tree| == 0 || tree[|tree| - 1].level >= x.level
    requires |stack| > 0 ==>
      Increasing(stack) && stack[|stack| - 1].level < x.level && LastChildAtLeast(stack[|stack| - 1], x.level)
    ensures Closed(tree, stack + [x]) == Forest(hs[..i + 1])
  {
    PushClosed(tree, stack, x);
    ForestStep(hs, i);
  }

  /** The pop loop of `buildHeadingTree`: nodes leave the top of the stack while their level
      number is not below the new heading's. */
  method PopNotBelow(tree0: seq<Node>, stack0: seq<Node>, levelNumber: nat) returns (tree: seq<Node>, stack: seq<Node>)
    requires Increasing(stack0)
    requires |stack0| == 0 ==> |tree0| == 0
    requires |stack0| > 0 ==> |stack0[|stack0| - 1].children| == 0
    ensures Closed(tree, stack) == Closed(tree0, stack0)
    ensures Increasing(stack) && |stack| <= |stack0|
    ensures |stack| == 0 ==> |tree| == 0 || tree[|tree| - 1].level >= levelNumber
    ensures |stack| > 0 ==>
      stack[|stack| - 1].level < levelNumber && LastChildAtLeast(stack[|stack| - 1], levelNumber)
  {
    tree, stack := tree0, stack0;
    while |stack| > 0 && stack[|stack| - 1].level >= levelNumber
      invariant Closed(tree, stack) == Closed(tree0, stack0)
      invariant Increasing(stack) && |stack| <= |stack0|
      invariant |stack| == 0 ==> |tree| == 0 || tree[|tree| - 1].level >= levelNumber
      invariant |stack| > 0 ==> LastChildAtLeast(stack[|stack| - 1], levelNumber)
      decreases |stack|
    {
      PopClosed(tree, stack, levelNumber);
      var top := stack[|stack| - 1];
      if |stack| == 1 {
        tree := tree + [top];
        stack := [];
      } else {
        stack := stack[..|stack| - 2] + [Attach(stack[|stack| - 2], top)];
      }
    }
  }

  /** `buildHeadingTree`. The source attaches each node to its parent by reference when it
      is created; here a node is attached when it leaves the stack, and the chain still open
      at the end is closed up, which gives the same forest. The final renumbering in
      preorder is carried out and leaves every index as it was. */
  method BuildHeadingTree(headings: seq<Heading>) returns (tree: seq<Node>)
    ensures tree == Forest(headings)
  {
    if |headings| == 0 {
      return [];
    }
    tree := StackForest(headings);
    ForestIndexed(headings);
    RenumberedFixed(tree, 0);
    tree := Renumbered(tree, 0);
  }

  /** The stack pass of `buildHeadingTree`: each heading pops the open nodes at or below
      its level and is pushed as the new innermost open node. */
  method StackForest(headings: seq<Heading>) returns (tree: seq<Node>)
    ensures tree == Forest(headings)
  {
    tree := [];
    var stack: seq<Node> := [];
    for index := 0 to |headings|
      invariant Closed(tree, stack) == Forest(headings[..index])
      invariant Increasing(stack)
      invariant |stack| == 0 ==> |tree| == 0
      invariant |stack| > 0 ==> |stack[|stack| - 1].children| == 0
    {
      var heading := headings[index];
      var levelNumber := LevelNumber(heading.level);
      var node := Node(heading, [], levelNumber, index);
      tree, stack := PopNotBelow(tree, stack, levelNumber);
      PushStep(tree, stack, headings, index, node);
      IncreasingPush(stack, node);
      stack := stack + [node];
    }
    assert headings[..|headings|] == headings;
    tree := Closed(tree, stack);
  }

  // ---------------------------------------------------------------------------------------
  // Round trip and indices

  /** What a node records about its heading. */
  datatype Entry = Entry(heading: Heading, level: nat, index: nat)

  function Entries(ns: seq<Node>): (r: seq<Entry>)
    ensures |r| == |ns|
    ensures forall k :: 0 <= k < |ns| ==> r[k] == Entry(ns[k].heading, ns[k].level, ns[k].index)
  {
    seq(|ns|, k requires 0 <= k < |ns| => Entry(ns[k].heading, ns[k].level, ns[k].index))
  }

  lemma EntriesAppend(a: seq<Node>, b: seq<Node>)
    ensures Entries(a + b) == Entries(a) + Entries(b)
  {
    assert forall k :: 0 <= k < |a + b| ==> Entries(a + b)[k] == (Entries(a) + Entries(b))[k];
  }

  /** Inserting a leaf adds it at the end of the preorder and changes no entry before it. */
  lemma {:induction false} InsertEntries(f: seq<Node>, x: Node)
    requires x.children == []
    ensures Entries(Preorder(Insert(f, x))) == Entries(Preorder(f)) + Entries([x])
    decreases f
  {
    PreorderOne(x);
    assert Preorder([x]) == [x];
    if |f| == 0 || f[|f| - 1].level >= x.level {
      PreorderAppend(f, [x]);
      EntriesAppend(Preorder(f), [x]);
    } else {
      var g := f[..|f| - 1];
      var t := f[|f| - 1];
      var t' := t.(children := Insert(t.children, x));
      assert f == g + [t];
      assert Insert(f, x) == g + [t'];
      calc {
        Entries(Preorder(Insert(f, x)));
      == { PreorderAppend(g, [t']); PreorderOne(t'); }
        Entries(Preorder(g) + ([t'] + Preorder(Insert(t.children, x))));
      == { EntriesAppend(Preorder(g), [t'] + Preorder(Insert(t.children, x)));
           EntriesAppend([t'], Preorder(Insert(t.children, x))); }
        Entries(Preorder(g)) + (Entries([t']) + Entries(Preorder(Insert(t.children, x))));
      == { InsertEntries(t.children, x); assert Entries([t']) == Entries([t]); }
        Entries(Preorder(g)) + (Entries([t]) + (Entries(Preorder(t.children)) + Entries([x])));
      == { EntriesAppend([t], Preorder(t.children));
           EntriesAppend(Preorder(g), [t] + Preorder(t.children)); }
        Entries(Preorder(g) + ([t] + Preorder(t.children))) + Entries([x]);
      == { PreorderAppend(g, [t]); PreorderOne(t); }
        Entries(Preorder(f)) + Entries([x]);
      }
    }
  }

  /** The entries the headings should produce, in order: heading k with its level number
      and index k. */
  function Numbered(hs: seq<Heading>): (r: seq<Entry>)
    ensures |r| == |hs|
    ensures forall k :: 0 <= k < |hs| ==> r[k] == Entry(hs[k], LevelNumber(hs[k].level), k)
  {
    seq(|hs|, k requires 0 <= k < |hs| => Entry(hs[k], LevelNumber(hs[k].level), k))
  }

  lemma NumberedSnoc(hs: seq<Heading>)
    requires |hs| > 0
    ensures Numbered(hs) == Numbered(hs[..|hs| - 1]) + Entries([Leaf(hs[|hs| - 1], |hs| - 1)])
  {
    var n := |hs| - 1;
    assert forall k :: 0 <= k < n ==> hs[..n][k] == hs[k];
    assert forall k :: 0 <= k < |hs| ==>
      Numbered(hs)[k] == (Numbered(hs[..n]) + Entries([Leaf(hs[n], n)]))[k];
  }

  lemma {:induction false} ForestEntries(hs: seq<Heading>)
    ensures Entries(Preorder(Forest(hs))) == Numbered(hs)
    decreases |hs|
  {
    if |hs| > 0 {
      var n := |hs| - 1;
      ForestEntries(hs[..n]);
      InsertEntries(Forest(hs[..n]), Leaf(hs[n], n));
      NumberedSnoc(hs);
    }
  }

  /** The round trip: the flattened forest lists the headings in their original order, each
      with its level number and, as its index, its position in preorder. */
  lemma ForestRoundTrip(hs: seq<Heading>)
    ensures |Preorder(Forest(hs))| == |hs|
    ensures forall k :: 0 <= k < |hs| ==>
      Preorder(Forest(hs))[k].heading == hs[k] &&
      Preorder(Forest(hs))[k].level == LevelNumber(hs[k].level) &&
      Preorder(Forest(hs))[k].index == k
  {
    var p := Preorder(Forest(hs));
    ForestEntries(hs);
    assert |Entries(p)| == |Numbered(hs)|;
    forall k | 0 <= k < |hs|
      ensures p[k].heading == hs[k] && p[k].level == LevelNumber(hs[k].level) && p[k].index == k
    {
      assert Entries(p)[k] == Numbered(hs)[k];
    }
  }

  /** Every node's index is its position in preorder, counting from start. */
  predicate Indexed(f: seq<Node>, start: nat)
  {
    forall k :: 0 <= k < |Preorder(f)| ==> Preorder(f)[k].index == start + k
  }

  lemma ForestIndexed(hs: seq<Heading>)
    ensures Indexed(Forest(hs), 0)
  {
    ForestRoundTrip(hs);
  }

  /** The renumbering pass: each node gets its position in preorder as index. */
  function Renumbered(f: seq<Node>, start: nat): seq<Node>
    decreases f
  {
    if |f| == 0 then []
    else [f[0].(index := start, children := Renumbered(f[0].children, start + 1))]
         + Renumbered(f[1..], start + 1 + |Preorder(f[0].children)|)
  }

  /** After renumbering, the indices are the preorder positions and nothing else changed:
      the same headings and level numbers in the same preorder. */
  lemma {:induction false} RenumberedPositions(f: seq<Node>, start: nat)
    ensures |Preorder(Renumbered(f, start))| == |Preorder(f)|
    ensures forall k :: 0 <= k < |Preorder(f)| ==>
      Preorder(Renumbered(f, start))[k].index == start + k &&
      Preorder(Renumbered(f, start))[k].heading == Preorder(f)[k].heading &&
      Preorder(Renumbered(f, start))[k].level == Preorder(f)[k].level
    decreases f
  {
    if |f| > 0 {
      var t := f[0];
      var m := |Preorder(t.children)|;
      var r := Renumbered(f, start);
      RenumberedPositions(t.children, start + 1);
      RenumberedPositions(f[1..], start + 1 + m);
      assert r[0] == t.(index := start, children := Renumbered(t.children, start + 1));
      assert r[1..] == Renumbered(f[1..], start + 1 + m);
      PreorderAt(f, 0);
      PreorderAt(r, 0);
      forall k | 0 <= k < |Preorder(f)|
        ensures Preorder(r)[k].index == start + k && Preorder(r)[k].heading == Preorder(f)[k].heading &&
          Preorder(r)[k].level == Preorder(f)[k].level
      {
        PreorderAt(f, k);
        PreorderAt(r, k);
      }
    }
  }

  /** Renumbering a forest whose indices already are the preorder positions changes
      nothing. */
  lemma {:induction false} RenumberedFixed(f: seq<Node>, start: nat)
    requires Indexed(f, start)
    ensures Renumbered(f, start) == f
    decreases f
  {
    if |f| > 0 {
      var t := f[0];
      var m := |Preorder(t.children)|;
      IndexedParts(f, start);
      RenumberedFixed(t.children, start + 1);
      RenumberedFixed(f[1..], start + 1 + m);
      assert f == [t] + f[1..];
    }
  }

  /** A numbered forest's first root has the first number, and its subtree and the later
      trees are numbered on from there. */
  lemma IndexedParts(f: seq<Node>, start: nat)
    requires Indexed(f, start) && |f| > 0
    ensures f[0].index == start
    ensures Indexed(f[0].children, start + 1)
    ensures Indexed(f[1..], start + 1 + |Preorder(f[0].children)|)
  {
    var m := |Preorder(f[0].children)|;
    PreorderAt(f, 0);
    forall k | 0 <= k < m ensures Preorder(f[0].children)[k].index == start + 1 + k {
      PreorderAt(f, 1 + k);
    }
    forall k | 0 <= k < |Preorder(f[1..])| ensures Preorder(f[1..])[k].index == start + 1 + m + k {
      PreorderAt(f, 1 + m + k);
    }
  }

  /** Empty input gives the empty forest; otherwise the first heading is the first root,
      whatever its level. */
  lemma FirstIsRoot(hs: seq<Heading>)
    ensures |hs| == 0 ==> Forest(hs) == []
    ensures |hs| > 0 ==> |Forest(hs)| > 0 && Forest(hs)[0].heading == hs[0] && Forest(hs)[0].index == 0
  {
    if |hs| > 0 {
      ForestRoundTrip(hs);
      assert |Forest(hs)| > 0;
      assert Preorder(Forest(hs))[0] == Forest(hs)[0];
    }
  }

  // ---------------------------------------------------------------------------------------
  // Parent placement

  /** A child's level number is greater than its parent's, at every depth. */
  predicate Levelled(f: seq<Node>)
    decreases f
  {
    forall i :: 0 <= i < |f| ==>
      (forall j :: 0 <= j < |f[i].children| ==> f[i].children[j].level > f[i].level) &&
      Levelled(f[i].children)
  }

  /** Insertion keeps or adds roots, with their level numbers. */
  lemma InsertRoots(f: seq<Node>, x: Node)
    ensures forall j :: 0 <= j < |Insert(f, x)| ==>
      Insert(f, x)[j].level == x.level || (j < |f| && Insert(f, x)[j].level == f[j].level)
  {
  }

  lemma {:induction false} InsertLevelled(f: seq<Node>, x: Node)
    requires x.children == [] && Levelled(f)
    ensures Levelled(Insert(f, x))
    decreases f
  {
    if |f| > 0 && f[|f| - 1].level < x.level {
      var t := f[|f| - 1];
      InsertLevelled(t.children, x);
      InsertRoots(t.children, x);
      var r := Insert(f, x);
      forall i | 0 <= i < |r|
        ensures (forall j :: 0 <= j < |r[i].children| ==> r[i].children[j].level > r[i].level) &&
          Levelled(r[i].children)
      {
        if i < |f| - 1 {
          assert r[i] == f[i];
        }
      }
    } else {
      var r := Insert(f, x);
      forall i | 0 <= i < |r|
        ensures (forall j :: 0 <= j < |r[i].children| ==> r[i].children[j].level > r[i].level) &&
          Levelled(r[i].children)
      {
        if i < |f| {
          assert r[i] == f[i];
        }
      }
    }
  }

  /** Every child in the built forest has a greater level number than its parent. */
  lemma {:induction false} ForestLevelled(hs: seq<Heading>)
    ensures Levelled(Forest(hs))
    decreases |hs|
  {
    if |hs| > 0 {
      ForestLevelled(hs[..|hs| - 1]);
      InsertLevelled(Forest(hs[..|hs| - 1]), Leaf(hs[|hs| - 1], |hs| - 1));
    }
  }

  /** The index of each node's parent, in preorder; `parent` for the roots (-1 at the top). */
  function Parents(f: seq<Node>, parent: int): seq<int>
    decreases f
  {
    if |f| == 0 then [] else [parent] + Parents(f[0].children, f[0].index) + Parents(f[1..], parent)
  }

  lemma {:induction false} ParentsAppend(a: seq<Node>, b: seq<Node>, parent: int)
    ensures Parents(a + b, parent) == Parents(a, parent) + Parents(b, parent)
    decreases |a|
  {
    if |a| == 0 {
      assert a + b == b;
    } else {
      assert (a + b)[0] == a[0];
      assert (a + b)[1..] == a[1..] + b;
      ParentsAppend(a[1..], b, parent);
    }
  }

  lemma ParentsOne(t: Node, parent: int)
    ensures Parents([t], parent) == [parent] + Parents(t.children, t.index)
  {
    assert [t][1..] == [];
  }

  /** The index of the node a new leaf would be inserted under (`parent` if it would be a
      root). */
  function InsertParent(f: seq<Node>, x: Node, parent: int): int
    decreases f
  {
    if |f| == 0 || f[|f| - 1].level >= x.level then parent
    else InsertParent(f[|f| - 1].children, x, f[|f| - 1].index)
  }

  /** Inserting a leaf appends its parent's index to the parent list. */
  lemma {:induction false} InsertParents(f: seq<Node>, x: Node, parent: int)
    requires x.children == []
    ensures Parents(Insert(f, x), parent) == Parents(f, parent) + [InsertParent(f, x, parent)]
    decreases f
  {
    ParentsOne(x, parent);
    if |f| == 0 || f[|f| - 1].level >= x.level {
      ParentsAppend(f, [x], parent);
    } else {
      var g := f[..|f| - 1];
      var t := f[|f| - 1];
      var t' := t.(children := Insert(t.children, x));
      assert f == g + [t];
      InsertParents(t.children, x, t.index);
      ParentsAppend(g, [t], parent);
      ParentsAppend(g, [t'], parent);
      ParentsOne(t, parent);
      ParentsOne(t', parent);
    }
  }

  /** Where a later leaf x goes after leaf y was inserted: under y if x's level number is
      greater, otherwise where it would have gone before y. */
  lemma {:induction false} InsertParentStep(f: seq<Node>, y: Node, x: Node, parent: int)
    requires y.children == []
    ensures InsertParent(Insert(f, y), x, parent) ==
      if x.level > y.level then y.index else InsertParent(f, x, parent)
    decreases f
  {
    var r := Insert(f, y);
    if |f| == 0 || f[|f| - 1].level >= y.level {
      assert r[|r| - 1] == y;
    } else {
      var t := f[|f| - 1];
      InsertParentStep(t.children, y, x, t.index);
      assert r[|r| - 1] == t.(children := Insert(t.children, y));
    }
  }

  /** The position of the last heading whose level number is below `level`, or -1 if none
      is. */
  function PrecedingParent(hs: seq<Heading>, level: nat): (p: int)
    ensures -1 <= p < |hs|
    ensures p >= 0 ==> LevelNumber(hs[p].level) < level
    ensures forall j :: p < j < |hs| ==> LevelNumber(hs[j].level) >= level
    decreases |hs|
  {
    if |hs| == 0 then -1
    else if LevelNumber(hs[|hs| - 1].level) < level then |hs| - 1
    else PrecedingParent(hs[..|hs| - 1], level)
  }

  lemma {:induction false} NextParent(hs: seq<Heading>, x: Node)
    requires x.children == []
    ensures InsertParent(Forest(hs), x, -1) == PrecedingParent(hs, x.level)
    decreases |hs|
  {
    if |hs| > 0 {
      var n := |hs| - 1;
      NextParent(hs[..n], x);
      InsertParentStep(Forest(hs[..n]), Leaf(hs[n], n), x, -1);
    }
  }

  /** For each heading, the position of its nearest predecessor with a smaller level
      number, or -1. */
  function NearestSmaller(hs: seq<Heading>): (r: seq<int>)
    ensures |r| == |hs|
    ensures forall k :: 0 <= k < |hs| ==> r[k] == PrecedingParent(hs[..k], LevelNumber(hs[k].level))
  {
    seq(|hs|, k requires 0 <= k < |hs| => PrecedingParent(hs[..k], LevelNumber(hs[k].level)))
  }

  lemma NearestSmallerSnoc(hs: seq<Heading>)
    requires |hs| > 0
    ensures NearestSmaller(hs) ==
      NearestSmaller(hs[..|hs| - 1]) + [PrecedingParent(hs[..|hs| - 1], LevelNumber(hs[|hs| - 1].level))]
  {
    var n := |hs| - 1;
    var front := hs[..n];
    var r := NearestSmaller(front) + [PrecedingParent(front, LevelNumber(hs[n].level))];
    forall k | 0 <= k < |hs| ensures NearestSmaller(hs)[k] == r[k] {
      if k < n {
        assert front[..k] == hs[..k];
        assert front[k] == hs[k];
      } else {
        assert hs[..k] == front;
      }
    }
  }

  /** Parent placement: the parent of the k-th heading is the nearest preceding heading with
      a smaller level number, and a heading with none before it is a root (-1). */
  lemma {:induction false} ParentIsNearestSmaller(hs: seq<Heading>)
    ensures Parents(Forest(hs), -1) == NearestSmaller(hs)
    decreases |hs|
  {
    if |hs| > 0 {
      var n := |hs| - 1;
      ParentIsNearestSmaller(hs[..n]);
      InsertParents(Forest(hs[..n]), Leaf(hs[n], n), -1);
      NextParent(hs[..n], Leaf(hs[n], n));
      NearestSmallerSnoc(hs);
    }
  }

  // ---------------------------------------------------------------------------------------
  // Search

  /** A reference: the first node of a list with the given id. */
  function FirstWithId(ns: seq<Node>, id: string): Option<Node>
  {
    if |ns| == 0 then None else if ns[0].heading.id == id then Some(ns[0]) else FirstWithId(ns[1..], id)
  }

  /** The reference returns the first node with that id, and nothing exactly when none has
      it. */
  lemma {:induction false} FirstWithIdIsFirst(ns: seq<Node>, id: string)
    ensures forall k :: (0 <= k < |ns| && ns[k].heading.id == id &&
      (forall j :: 0 <= j < k ==> ns[j].heading.id != id)) ==> FirstWithId(ns, id) == Some(ns[k])
    ensures FirstWithId(ns, id).None? <==> forall k :: 0 <= k < |ns| ==> ns[k].heading.id != id
    decreases |ns|
  {
    if |ns| > 0 && ns[0].heading.id != id {
      FirstWithIdIsFirst(ns[1..], id);
      forall k | 0 <= k < |ns| && ns[k].heading.id == id && (forall j :: 0 <= j < k ==> ns[j].heading.id != id)
        ensures FirstWithId(ns, id) == Some(ns[k])
      {
        assert ns[1..][k - 1] == ns[k];
      }
      if FirstWithId(ns, id).None? {
        forall k | 0 <= k < |ns| ensures ns[k].heading.id != id {
          if k > 0 {
            assert ns[k] == ns[1..][k - 1];
          }
        }
      } else {
        var k :| 0 <= k < |ns[1..]| && ns[1..][k].heading.id == id;
        assert ns[k + 1].heading.id == id;
      }
    } else if |ns| > 0 {
      forall k | 0 <= k < |ns| && ns[k].heading.id == id && (forall j :: 0 <= j < k ==> ns[j].heading.id != id)
        ensures k == 0
      {
        if k > 0 {
          assert false;
        }
      }
    }
  }

  lemma {:induction false} FirstWithIdAppend(a: seq<Node>, b: seq<Node>, id: string)
    ensures FirstWithId(a + b, id) == if FirstWithId(a, id).Some? then FirstWithId(a, id) else FirstWithId(b, id)
    decreases |a|
  {
    if |a| == 0 {
      assert a + b == b;
    } else {
      assert (a + b)[0] == a[0];
      assert (a + b)[1..] == a[1..] + b;
      FirstWithIdAppend(a[1..], b, id);
    }
  }

  /** `findNodeById`: depth first, a node before its children. */
  function FindNodeById(f: seq<Node>, id: string): Option<Node>
    decreases f
  {
    if |f| == 0 then None
    else if f[0].heading.id == id then Some(f[0])
    else
      var found := FindNodeById(f[0].children, id);
      if found.Some? then found else FindNodeById(f[1..], id)
  }

  /** The search returns the first node in preorder with the id, or nothing when no node has
      it. */
  lemma {:induction false} FindIsFirstInPreorder(f: seq<Node>, id: string)
    ensures FindNodeById(f, id) == FirstWithId(Preorder(f), id)
    decreases f
  {
    if |f| > 0 {
      FindIsFirstInPreorder(f[0].children, id);
      FindIsFirstInPreorder(f[1..], id);
      FirstWithIdAppend([f[0]] + Preorder(f[0].children), Preorder(f[1..]), id);
      FirstWithIdAppend([f[0]], Preorder(f[0].children), id);
      assert ([f[0]] + Preorder(f[0].children))[0] == f[0];
    }
  }

  /** Whether one of the node's children has the id. */
  predicate HasChild(n: Node, id: string)
  {
    exists j :: 0 <= j < |n.children| && n.children[j].heading.id == id
  }

  /** `findParentNode`: the first node, depth first, one of whose children has the id. */
  function FindParentNode(f: seq<Node>, id: string): Option<Node>
    decreases f
  {
    if |f| == 0 then None
    else if HasChild(f[0], id) then Some(f[0])
    else
      var found := FindParentNode(f[0].children, id);
      if found.Some? then found else FindParentNode(f[1..], id)
  }

  /** The parent search returns a node of the forest with a child holding the id, and
      nothing exactly when no node of the forest has such a child (the id is missing or
      held only by roots). */
  lemma {:induction false} FindParentMeaning(f: seq<Node>, id: string)
    ensures FindParentNode(f, id).Some? ==>
      FindParentNode(f, id).value in Preorder(f) && HasChild(FindParentNode(f, id).value, id)
    ensures FindParentNode(f, id).None? <==> forall n :: n in Preorder(f) ==> !HasChild(n, id)
    decreases f
  {
    if |f| > 0 {
      var p := Preorder(f);
      assert p == [f[0]] + Preorder(f[0].children) + Preorder(f[1..]);
      if !HasChild(f[0], id) {
        FindParentMeaning(f[0].children, id);
        FindParentMeaning(f[1..], id);
      }
    }
  }

  /** `findPath`'s result: the nodes from a root down to the parent of the first node in
      preorder with the id, or nothing when no node has it. */
  function PathTo(f: seq<Node>, id: string): Option<seq<Node>>
    decreases f
  {
    if |f| == 0 then None
    else if f[0].heading.id == id then Some([])
    else
      var below := PathTo(f[0].children, id);
      if below.Some? then Some([f[0]] + below.value) else PathTo(f[1..], id)
  }

  /** What `getAncestorNodes` returns. */
  function Ancestors(f: seq<Node>, id: string): seq<Node>
  {
    if PathTo(f, id).Some? then PathTo(f, id).value else []
  }

  /** path leads from a root of f down to a node that has target as a child (target is
      itself a root when path is empty). */
  predicate Chain(f: seq<Node>, path: seq<Node>, target: Node)
    decreases |path|
  {
    if |path| == 0 then target in f else path[0] in f && Chain(path[0].children, path[1..], target)
  }

  /** The path exists exactly when the search finds the id, and leads from a root to the
      node the search finds, which is not on it. */
  lemma {:induction false} PathMeaning(f: seq<Node>, id: string)
    ensures PathTo(f, id).Some? <==> FindNodeById(f, id).Some?
    ensures PathTo(f, id).Some? ==> Chain(f, PathTo(f, id).value, FindNodeById(f, id).value)
    decreases f
  {
    if |f| > 0 && f[0].heading.id != id {
      PathMeaning(f[0].children, id);
      PathMeaning(f[1..], id);
      var below := PathTo(f[0].children, id);
      if below.Some? {
        assert ([f[0]] + below.value)[1..] == below.value;
      } else if PathTo(f[1..], id).Some? {
        var path := PathTo(f[1..], id).value;
        if |path| > 0 {
          assert path[0] in f;
        }
      }
    }
  }

  lemma {:induction false} InPreorder(f: seq<Node>, n: Node)
    requires n in f
    ensures n in Preorder(f)
    decreases f
  {
    if f[0] != n {
      InPreorder(f[1..], n);
    }
  }

  lemma {:induction false} ChildInPreorder(f: seq<Node>, n: Node, c: Node)
    requires n in Preorder(f) && c in n.children
    ensures c in Preorder(f)
    decreases f
  {
    var p := Preorder(f);
    assert p == [f[0]] + Preorder(f[0].children) + Preorder(f[1..]);
    if n == f[0] {
      InPreorder(f[0].children, c);
    } else if n in Preorder(f[0].children) {
      ChildInPreorder(f[0].children, n, c);
    } else {
      ChildInPreorder(f[1..], n, c);
    }
  }

  /** The last node of a chain is in the forest and has the target as a child. */
  lemma {:induction false} ChainEnd(f: seq<Node>, path: seq<Node>, target: Node)
    requires |path| > 0 && Chain(f, path, target)
    ensures path[|path| - 1] in Preorder(f) && target in path[|path| - 1].children
    decreases |path|
  {
    InPreorder(f, path[0]);
    if |path| > 1 {
      ChainEnd(path[0].children, path[1..], target);
      var last := path[|path| - 1];
      assert path[1..][|path| - 2] == last;
      var p := Preorder(f);
      assert path[0] in p;
      ChildrenSubtree(f, path[0], last);
    }
  }

  /** Nodes below a node of the forest are in the forest. */
  lemma {:induction false} ChildrenSubtree(f: seq<Node>, n: Node, m: Node)
    requires n in Preorder(f) && m in Preorder(n.children)
    ensures m in Preorder(f)
    decreases f
  {
    var p := Preorder(f);
    assert p == [f[0]] + Preorder(f[0].children) + Preorder(f[1..]);
    if n == f[0] {
    } else if n in Preorder(f[0].children) {
      ChildrenSubtree(f[0].children, n, m);
    } else {
      ChildrenSubtree(f[1..], n, m);
    }
  }

  /** A target with ancestors has a parent the parent search can find. */
  lemma AncestorsHaveParent(f: seq<Node>, id: string)
    requires |Ancestors(f, id)| > 0
    ensures FindParentNode(f, id).Some?
  {
    PathMeaning(f, id);
    var path := PathTo(f, id).value;
    var target := FindNodeById(f, id).value;
    ChainEnd(f, path, target);
    FindIsFirstInPreorder(f, id);
    FirstWithIdFound(Preorder(f), id);
    var last := path[|path| - 1];
    var j :| 0 <= j < |last.children| && last.children[j] == target;
    assert HasChild(last, id);
    FindParentMeaning(f, id);
  }

  lemma {:induction false} FirstWithIdFound(ns: seq<Node>, id: string)
    ensures FirstWithId(ns, id).Some? ==> FirstWithId(ns, id).value.heading.id == id
    decreases |ns|
  {
    if |ns| > 0 {
      FirstWithIdFound(ns[1..], id);
    }
  }

  /** `findPath` on one list of siblings, following the path built so far. */
  method FindPath(nodes: seq<Node>, path: seq<Node>, targetId: string) returns (found: bool, ancestors: seq<Node>)
    ensures found == PathTo(nodes, targetId).Some?
    ensures ancestors == if found then path + PathTo(nodes, targetId).value else []
    decreases nodes
  {
    for i := 0 to |nodes|
      invariant PathTo(nodes[i..], targetId) == PathTo(nodes, targetId)
    {
      var node := nodes[i];
      var currentPath := path + [node];
      assert nodes[i..][0] == node && nodes[i..][1..] == nodes[i + 1..];
      if node.heading.id == targetId {
        return true, path;
      }
      if |node.children| > 0 {
        var deeper, below := FindPath(node.children, currentPath, targetId);
        if deeper {
          return true, below;
        }
      }
    }
    return false, [];
  }

  /** `getAncestorNodes`: the path from a root to the target's parent. */
  method GetAncestorNodes(tree: seq<Node>, targetId: string) returns (ancestors: seq<Node>)
    ensures ancestors == Ancestors(tree, targetId)
  {
    var found;
    found, ancestors := FindPath(tree, [], targetId);
  }

  // ---------------------------------------------------------------------------------------
  // Virtual scrolling

  datatype Window = Window(startIndex: int, endIndex: int)

  /** The overscan `calculateVisibleRange` uses when none is given. */
  const DefaultOverscan := 5

  /** `calculateVisibleRange` on whole pixels: the first row on screen less the overscan
      (never below 0), through as many rows as the container holds plus twice the overscan
      (never past the last item). */
  function CalculateVisibleRange(scrollTop: int, containerHeight: int, itemHeight: int,
                                 totalItems: int, overscan: int): (w: Window)
    requires itemHeight > 0
    ensures w.startIndex >= 0
    ensures w.endIndex <= totalItems - 1
  {
    var startIndex := if scrollTop / itemHeight - overscan > 0 then scrollTop / itemHeight - overscan else 0;
    var visibleCount := -((-containerHeight) / itemHeight);
    var bound := startIndex + visibleCount + overscan * 2;
    var endIndex := if totalItems - 1 < bound then totalItems - 1 else bound;
    Window(startIndex, endIndex)
  }

  lemma MulLess(a: int, b: int, h: int)
    requires h > 0 && a * h < b * h
    ensures a < b
  {
  }

  /** A row that ends below the scroll offset starts at or after the first row on screen. */
  lemma FloorAtMost(s: int, h: int, k: int)
    requires h > 0 && (k + 1) * h > s
    ensures s / h <= k
  {
    var q := s / h;
    assert s == q * h + s % h;
    MulLess(q, k + 1, h);
  }

  /** A row that starts above the bottom edge is within the rows the container holds. */
  lemma CeilAtMost(s: int, c: int, h: int, k: int)
    requires h > 0 && k * h < s + c
    ensures k <= s / h + -((-c) / h)
  {
    var q := s / h;
    var n := (-c) / h;
    assert s == q * h + s % h;
    assert -c == n * h + (-c) % h;
    var m := -n;
    assert m * h == -(n * h);
    assert (q + m + 1) * h == q * h + m * h + h;
    MulLess(k, q + m + 1, h);
  }

  /** Every item whose row meets the viewport lies inside the window. */
  lemma WindowCoversViewport(scrollTop: int, containerHeight: int, itemHeight: int,
                             totalItems: int, overscan: int, k: int)
    requires itemHeight > 0 && overscan >= 0
    requires 0 <= k < totalItems
    requires k * itemHeight < scrollTop + containerHeight && (k + 1) * itemHeight > scrollTop
    ensures var w := CalculateVisibleRange(scrollTop, containerHeight, itemHeight, totalItems, overscan);
      w.startIndex <= k <= w.endIndex
  {
    FloorAtMost(scrollTop, itemHeight, k);
    CeilAtMost(scrollTop, containerHeight, itemHeight, k);
  }
}
