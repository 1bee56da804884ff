/** The Mermaid renderer: finding the parent of each row of a tree from the depths of the
    rows alone, with a stack. */
module Mermaid {
  import opened Memory

  datatype Row = Row(depth: int, text: string)

  /** A line of the graph; nodes are numbered from 1. */
  datatype Line = Root(id: nat, text: string) | Edge(parent: nat, id: nat, text: string)

  /** The line of row `i` names its nearest earlier row with a smaller depth as its parent, or
      none if there is none. */
  predicate Drawn(rows: seq<Row>, i: nat, line: Line)
    requires i < |rows|
  {
    line.id == i + 1 && line.text == rows[i].text
    && match line
       case Root(_, _) => NearestShallower(rows, i, None)
       case Edge(parent, _, _) => parent > 0 && NearestShallower(rows, i, Some(parent - 1))
  }

  /** `p` is the last row up to `i` that is not deeper than `depth`. */
  predicate LastAtMost(rows: seq<Row>, i: nat, depth: int, p: nat)
    requires i < |rows|
  {
    p <= i && rows[p].depth <= depth && forall k :: p < k <= i ==> depth < rows[k].depth
  }

  /** The nearest earlier row with a smaller depth, or none if there is none. */
  predicate NearestShallower(rows: seq<Row>, i: nat, parent: Option<nat>)
    requires i < |rows|
  {
    match parent
    case None => forall k :: 0 <= k < i ==> rows[i].depth <= rows[k].depth
    case Some(p) => p < i && rows[p].depth < rows[i].depth && forall k :: p < k < i ==> rows[i].depth <= rows[k].depth
  }

  /** After row `i` the stack has an entry for each depth from the least one so far, `least`,
      up to the depth of the row: the last row that is not deeper. */
  ghost predicate StackAfter(rows: seq<Row>, i: nat, stack: seq<nat>, least: int)
    requires i < |rows|
  {
    && (forall k :: 0 <= k <= i ==> least <= rows[k].depth)
    && |stack| == rows[i].depth - least
    && forall j :: 0 <= j < |stack| ==> LastAtMost(rows, i, least + j, stack[j])
  }

  lemma {:induction false} TopIsParent(rows: seq<Row>, i: nat, stack: seq<nat>, least: int)
    requires i < |rows| && StackAfter(rows, i, stack, least)
    ensures NearestShallower(rows, i, if stack == [] then None else Some(stack[|stack| - 1]))
  {
    if stack != [] {
      assert LastAtMost(rows, i, least + (|stack| - 1), stack[|stack| - 1]);
    }
  }

  /** The stack after the previous row, with its pushes or pops, is the stack of the next. */
  lemma {:induction false} NextStack(rows: seq<Row>, i: nat, stack: seq<nat>, least: int, stack': seq<nat>)
    requires 0 < i < |rows| && StackAfter(rows, i - 1, stack, least)
    requires var up := rows[i].depth - rows[i - 1].depth;
             && (up >= 0 ==> |stack'| == |stack| + up && stack' == stack + stack'[|stack|..]
                             && forall j :: |stack| <= j < |stack'| ==> stack'[j] == i - 1)
             && (up < 0 ==> stack' == stack[..if -up <= |stack| then |stack| + up else 0])
    ensures StackAfter(rows, i, stack', if rows[i].depth < least then rows[i].depth else least)
  {
    var least' := if rows[i].depth < least then rows[i].depth else least;
    forall j | 0 <= j < |stack'| ensures LastAtMost(rows, i, least' + j, stack'[j]) {
      if j < |stack| {
        assert stack'[j] == stack[j] && LastAtMost(rows, i - 1, least + j, stack[j]);
      }
    }
  }

  /** The loop of `render`: each row is drawn below its nearest earlier row with a smaller
      depth, for any depths, also where levels are skipped or left below the first row's depth. */
  method Render(rows: seq<Row>) returns (lines: seq<Line>)
    ensures |lines| == |rows| && forall i :: 0 <= i < |rows| ==> Drawn(rows, i, lines[i])
  {
    lines := [];
    var parentStack: seq<nat>, prevDepth, prev: Option<nat> := [], 0, None;
    ghost var least := 0;
    for i := 0 to |rows|
      invariant |lines| == i && forall k :: 0 <= k < i ==> Drawn(rows, k, lines[k])
      invariant i == 0 ==> prev == None && parentStack == []
      invariant i > 0 ==>
                  && prev == Some(i - 1) && prevDepth == rows[i - 1].depth
                  && StackAfter(rows, i - 1, parentStack, least)
    {
      var depth := rows[i].depth;
      if prev.Some? {
        ghost var stack := parentStack;
        if depth > prevDepth {
          for n := 0 to depth - prevDepth
            invariant |parentStack| == |stack| + n && parentStack == stack + parentStack[|stack|..]
            invariant forall j :: |stack| <= j < |parentStack| ==> parentStack[j] == prev.value
          {
            parentStack := parentStack + [prev.value];
          }
        } else if depth < prevDepth {
          for n := 0 to prevDepth - depth
            invariant parentStack == stack[..if n <= |stack| then |stack| - n else 0]
          {
            if parentStack != [] {
              parentStack := parentStack[..|parentStack| - 1];
            }
          }
        }
        NextStack(rows, i, stack, least, parentStack);
        least := if depth < least then depth else least;
      } else {
        least := depth;
      }
      TopIsParent(rows, i, parentStack, least);
      if parentStack != [] {
        lines := lines + [Edge(parentStack[|parentStack| - 1] + 1, i + 1, rows[i].text)];
      } else {
        lines := lines + [Root(i + 1, rows[i].text)];
      }
      prev, prevDepth := Some(i), depth;
    }
  }

  /** There is only one nearest earlier row with a smaller depth. */
  lemma {:induction false} NearestIsUnique(rows: seq<Row>, i: nat, p: Option<nat>, q: Option<nat>)
    requires i < |rows| && NearestShallower(rows, i, p) && NearestShallower(rows, i, q)
    ensures p == q
  {
  }

  // ---- the graph of a tree ----

  /** The trees of a grid: the first tree's root, its children, and the trees beside it. */
  datatype Forest = Empty | Trees(text: string, children: Forest, others: Forest)

  /** The rows of a grid: each node before its children, one level deeper. */
  function Rows(f: Forest, depth: int): seq<Row> {
    match f
    case Empty => []
    case Trees(text, children, others) => [Row(depth, text)] + Rows(children, depth + 1) + Rows(others, depth)
  }

  function Shifted(p: Option<nat>, shift: nat, outer: Option<nat>): Option<nat> {
    match p case None => outer case Some(q) => Some(q + shift)
  }

  function Moved(ps: seq<Option<nat>>, shift: nat, outer: Option<nat>): (r: seq<Option<nat>>)
    ensures |r| == |ps| && forall i :: 0 <= i < |ps| ==> r[i] == Shifted(ps[i], shift, outer)
  {
    seq(|ps|, i requires 0 <= i < |ps| => Shifted(ps[i], shift, outer))
  }

  /** The parent of each node, in the order of the rows. */
  function TreeParents(f: Forest): seq<Option<nat>> {
    match f
    case Empty => []
    case Trees(_, children, others) =>
      var inner := TreeParents(children);
      [None] + Moved(inner, 1, Some(0)) + Moved(TreeParents(others), 1 + |inner|, None)
  }

  /** The line that draws row `i` under a parent. */
  function LineOf(rows: seq<Row>, i: nat, parent: Option<nat>): Line
    requires i < |rows|
  {
    match parent
    case None => Root(i + 1, rows[i].text)
    case Some(p) => Edge(p + 1, i + 1, rows[i].text)
  }

  ghost predicate ParentsFit(rows: seq<Row>, depth: int, ps: seq<Option<nat>>) {
    |ps| == |rows| && forall i :: 0 <= i < |rows| ==> ParentFits(rows, depth, ps, i)
  }

  ghost predicate ParentFits(rows: seq<Row>, depth: int, ps: seq<Option<nat>>, i: nat)
    requires i < |ps| == |rows|
  {
    depth <= rows[i].depth && NearestShallower(rows, i, ps[i]) && (ps[i] == None ==> rows[i].depth == depth)
  }

  /** A nearest earlier row in a part of the rows is one in all of them. */
  lemma {:induction false} PartNearest(rows: seq<Row>, part: seq<Row>, at: nat, j: nat, p: nat, i: nat, q: nat)
    requires at + |part| <= |rows| && rows[at..at + |part|] == part && j < |part| && NearestShallower(part, j, Some(p))
    requires i == at + j && q == at + p
    ensures NearestShallower(rows, i, Some(q))
  {
    forall k | q <= k <= i ensures rows[k] == part[k - at] {
      assert rows[at..at + |part|][k - at] == rows[k];
    }
  }

  /** The roots of a part hang on the row before it, if that is shallower. */
  lemma {:induction false} PartRoot(rows: seq<Row>, part: seq<Row>, at: nat, j: nat, i: nat, q: nat)
    requires at == q + 1 && at + |part| <= |rows| && rows[at..at + |part|] == part && j < |part| && i == at + j
    requires NearestShallower(part, j, None) && rows[q].depth < part[j].depth
    ensures NearestShallower(rows, i, Some(q))
  {
    forall k | at <= k <= i ensures rows[k] == part[k - at] {
      assert rows[at..at + |part|][k - at] == rows[k];
    }
  }

  lemma {:induction false} PartIndex(rows: seq<Row>, part: seq<Row>, at: nat, i: nat)
    requires at + |part| <= |rows| && rows[at..at + |part|] == part && at <= i < at + |part|
    ensures rows[i] == part[i - at]
  {
    assert rows[at..at + |part|][i - at] == rows[i];
  }

  lemma {:induction false} InnerNearest(rows: seq<Row>, inner: seq<Row>, depth: int, ps: seq<Option<nat>>, j: nat,
                                        i: nat)
    requires 1 + |inner| <= |rows| && rows[0].depth == depth && rows[1..1 + |inner|] == inner
    requires ParentsFit(inner, depth + 1, ps) && j < |inner| && i == j + 1
    ensures depth < rows[i].depth && NearestShallower(rows, i, Shifted(ps[j], 1, Some(0)))
  {
    PartIndex(rows, inner, 1, i);
    assert ParentFits(inner, depth + 1, ps, j);
    if ps[j].Some? {
      PartNearest(rows, inner, 1, j, ps[j].value, i, ps[j].value + 1);
    } else {
      PartRoot(rows, inner, 1, j, i, 0);
    }
  }

  lemma {:induction false} LaterNearest(rows: seq<Row>, later: seq<Row>, n: nat, depth: int, qs: seq<Option<nat>>,
                                        j: nat, i: nat)
    requires n + |later| == |rows| && rows[n..n + |later|] == later
    requires forall k :: 0 <= k < n ==> depth <= rows[k].depth
    requires ParentsFit(later, depth, qs) && j < |later| && i == n + j
    ensures depth <= rows[i].depth && NearestShallower(rows, i, Shifted(qs[j], n, None))
    ensures qs[j] == None ==> rows[i].depth == depth
  {
    PartIndex(rows, later, n, i);
    assert ParentFits(later, depth, qs, j);
    if qs[j].Some? {
      PartNearest(rows, later, n, j, qs[j].value, i, qs[j].value + n);
    } else {
      forall k | 0 <= k < i ensures depth <= rows[k].depth {
        if n <= k { PartIndex(rows, later, n, k); }
      }
    }
  }

  lemma {:induction false} MovedPart(all: seq<Option<nat>>, at: nat, ps: seq<Option<nat>>, shift: nat,
                                     outer: Option<nat>, j: nat, i: nat)
    requires at + |ps| <= |all| && all[at..at + |ps|] == Moved(ps, shift, outer) && j < |ps| && i == at + j
    ensures all[i] == Shifted(ps[j], shift, outer)
  {
    assert all[at..at + |ps|][j] == all[i];
  }

  lemma {:induction false} JoinedParentsFit(rows: seq<Row>, inner: seq<Row>, later: seq<Row>, depth: int,
                                            all: seq<Option<nat>>, ps: seq<Option<nat>>, qs: seq<Option<nat>>)
    requires ParentsFit(inner, depth + 1, ps) && ParentsFit(later, depth, qs)
    requires var n := 1 + |inner|;
             && |rows| == |all| == n + |later| && rows[0].depth == depth && all[0] == None
             && rows[1..n] == inner && rows[n..n + |later|] == later
             && all[1..n] == Moved(ps, 1, Some(0)) && all[n..n + |later|] == Moved(qs, n, None)
    ensures ParentsFit(rows, depth, all)
  {
    var n := 1 + |inner|;
    forall i | 0 <= i < n ensures ParentFits(rows, depth, all, i) {
      if 0 < i {
        MovedPart(all, 1, ps, 1, Some(0), i - 1, i);
        InnerNearest(rows, inner, depth, ps, i - 1, i);
      }
    }
    forall k | 0 <= k < n ensures depth <= rows[k].depth {
      assert ParentFits(rows, depth, all, k);
    }
    forall i | n <= i < |rows| ensures ParentFits(rows, depth, all, i) {
      MovedPart(all, n, qs, n, None, i - n, i);
      LaterNearest(rows, later, n, depth, qs, i - n, i);
    }
  }

  lemma {:induction false} TreeParentsFit(f: Forest, depth: int)
    ensures ParentsFit(Rows(f, depth), depth, TreeParents(f))
  {
    if f.Trees? {
      TreeParentsFit(f.children, depth + 1);
      TreeParentsFit(f.others, depth);
      var inner, later := Rows(f.children, depth + 1), Rows(f.others, depth);
      var ps, qs := TreeParents(f.children), TreeParents(f.others);
      var rows, all := Rows(f, depth), TreeParents(f);
      var n := 1 + |inner|;
      assert rows == [Row(depth, f.text)] + inner + later
          && all == [None] + Moved(ps, 1, Some(0)) + Moved(qs, 1 + |ps|, None);
      assert rows[1..n] == inner && rows[n..n + |later|] == later;
      assert all[1..n] == Moved(ps, 1, Some(0)) && all[n..n + |later|] == Moved(qs, n, None);
      JoinedParentsFit(rows, inner, later, depth, all, ps, qs);
    }
  }

  /** From the rows of a tree the renderer recovers the tree: what it draws as the parent of
      a node is the parent of the node. */
  lemma {:induction false} RenderRecoversTree(f: Forest, depth: int, lines: seq<Line>)
    requires |lines| == |Rows(f, depth)| && forall i :: 0 <= i < |lines| ==> Drawn(Rows(f, depth), i, lines[i])
    ensures |TreeParents(f)| == |lines|
    ensures forall i :: 0 <= i < |lines| ==> lines[i] == LineOf(Rows(f, depth), i, TreeParents(f)[i])
  {
    TreeParentsFit(f, depth);
    forall i | 0 <= i < |lines| ensures lines[i] == LineOf(Rows(f, depth), i, TreeParents(f)[i]) {
      assert ParentFits(Rows(f, depth), depth, TreeParents(f), i);
      var parent := match lines[i] case Root(_, _) => None case Edge(p, _, _) => Some(p - 1);
      NearestIsUnique(Rows(f, depth), i, parent, TreeParents(f)[i]);
    }
  }
}
