// The Editor of src/lib.rs: the line list, the fill list and the undo
// history, with the operations that change them, and the derived state
// (closed-component store, cut-segment graph and fill flags) rebuilt after
// each change.
//
// The history rules are stated once, as functions on a Doc value (lines,
// fills, history); the Editor methods are proved to follow them, and the
// undo round trips are lemmas about the functions.  The export and debug
// buffers, and the float snapping and crossing computations, are not part of
// this model: the snap key, the quantized key and the crossing test are
// fixed functions the editor is created with.

module Editing {
  import opened Maybe
  import opened Shapes
  import opened HexColor
  import opened GraphModel
  import opened Graph
  import opened Registry
  import opened FillSpec
  import opened FillBuild
  import opened DebugChecks
  import opened Peel

  /** An undoable step; Clear and CleanOverhangs keep what they replaced. */
  datatype Command =
    | Add
    | AddFill
    | AddFrame
    | Clear(lines: seq<Line>, fills: seq<Polygon>)
    | CleanOverhangs(lines: seq<Line>)

  /** The part of the editor the history acts on. */
  datatype Doc = Doc(lines: seq<Line>, fills: seq<Polygon>, history: seq<Command>)

  /** The last element dropped; nothing happens to an empty list. */
  function Pop<T>(s: seq<T>): seq<T>
  {
    if |s| == 0 then [] else s[..|s| - 1]
  }

  /** add_line skips a line whose squared length is below one. */
  predicate TooShort(l: Line)
  {
    var dx := l.x2 - l.x1;
    var dy := l.y2 - l.y1;
    dx * dx + dy * dy < 1.0
  }

  function AddLineDoc(d: Doc, l: Line): Doc
  {
    if TooShort(l) then d else Doc(d.lines + [l], d.fills, d.history + [Add])
  }

  /** The four sides of a frame through its corners, in order, closing back to the first. */
  function FrameLines(x1: real, y1: real, x2: real, y2: real, x3: real, y3: real, x4: real, y4: real): seq<Line>
  {
    [Line(x1, y1, x2, y2), Line(x2, y2, x3, y3), Line(x3, y3, x4, y4), Line(x4, y4, x1, y1)]
  }

  function AddFrameDoc(d: Doc, x1: real, y1: real, x2: real, y2: real, x3: real, y3: real, x4: real, y4: real): Doc
  {
    Doc(d.lines + FrameLines(x1, y1, x2, y2, x3, y3, x4, y4), d.fills, d.history + [AddFrame])
  }

  function ClearDoc(d: Doc): Doc
  {
    Doc([], [], d.history + [Command.Clear(d.lines, d.fills)])
  }

  /** The outline of a new fill: the points, with the first repeated at the end unless it is there already. */
  function CloseRing(points: seq<(real, real)>): seq<(real, real)>
    requires |points| > 0
  {
    if points[0] != points[|points| - 1] then points + [points[0]] else points
  }

  /** create_polygon_from_selected: a fill is made only from three points or more. */
  function AddFillDoc(d: Doc, points: seq<(real, real)>, color: u32): Doc
  {
    if |points| < 3 then d
    else Doc(d.lines, d.fills + [Polygon(CloseRing(points), color)], d.history + [AddFill])
  }

  /** cleanup_overhangs: None when nothing was trimmed, otherwise the kept lines. */
  function CleanupDoc(d: Doc, kept: Option<seq<Line>>): Doc
  {
    match kept
    case None => d
    case Some(k) => Doc(k, d.fills, d.history + [CleanOverhangs(d.lines)])
  }

  /** undo: take back the last command; with no history nothing changes. */
  function UndoDoc(d: Doc): Doc
  {
    if |d.history| == 0 then d
    else
      var h := d.history[..|d.history| - 1];
      match d.history[|d.history| - 1]
      case Add => Doc(Pop(d.lines), d.fills, h)
      case AddFill => Doc(d.lines, Pop(d.fills), h)
      case AddFrame => Doc(PopTimes(d.lines, 4), d.fills, h)
      case Clear(lines, fills) => Doc(lines, fills, h)
      case CleanOverhangs(lines) => Doc(lines, d.fills, h)
  }

  /** A too-short line changes nothing; any other line is removed again by undo. */
  lemma AddLineRoundTrip(d: Doc, l: Line)
    ensures TooShort(l) ==> AddLineDoc(d, l) == d
    ensures !TooShort(l) ==> |AddLineDoc(d, l).lines| == |d.lines| + 1 && UndoDoc(AddLineDoc(d, l)) == d
  {
    if !TooShort(l) {
      assert (d.lines + [l])[..|d.lines|] == d.lines;
      assert (d.history + [Add])[..|d.history|] == d.history;
    }
  }

  /** A frame adds four lines and one command, and one undo takes all four away. */
  lemma AddFrameRoundTrip(d: Doc, x1: real, y1: real, x2: real, y2: real, x3: real, y3: real, x4: real, y4: real)
    ensures var d' := AddFrameDoc(d, x1, y1, x2, y2, x3, y3, x4, y4);
            |d'.lines| == |d.lines| + 4 && |d'.history| == |d.history| + 1 && UndoDoc(d') == d
  {
    var f := FrameLines(x1, y1, x2, y2, x3, y3, x4, y4);
    var s := d.lines + f;
    assert PopTimes(s, 1) == Pop(s) == d.lines + f[..3];
    assert PopTimes(s, 2) == Pop(PopTimes(s, 1)) == d.lines + f[..2];
    assert PopTimes(s, 3) == Pop(PopTimes(s, 2)) == d.lines + f[..1];
    assert PopTimes(s, 4) == Pop(PopTimes(s, 3)) == d.lines;
    assert (d.history + [AddFrame])[..|d.history|] == d.history;
  }

  /** Clear empties lines and fills, and undo brings both back. */
  lemma ClearRoundTrip(d: Doc)
    ensures ClearDoc(d).lines == [] && ClearDoc(d).fills == []
    ensures UndoDoc(ClearDoc(d)) == d
  {
    assert (d.history + [Command.Clear(d.lines, d.fills)])[..|d.history|] == d.history;
  }

  /** A trim replaces the lines and undo restores them; no trim changes nothing. */
  lemma CleanupRoundTrip(d: Doc, kept: Option<seq<Line>>)
    ensures kept.None? ==> CleanupDoc(d, kept) == d
    ensures kept.Some? ==> CleanupDoc(d, kept).lines == kept.value && UndoDoc(CleanupDoc(d, kept)) == d
  {
    if kept.Some? {
      assert (d.history + [CleanOverhangs(d.lines)])[..|d.history|] == d.history;
    }
  }

  /**
   * A fill from fewer than three points changes nothing.  Otherwise exactly
   * one closed polygon of the given colour is added, whose outline starts
   * with the points and ends where it starts, and undo removes it.
   */
  lemma AddFillRoundTrip(d: Doc, points: seq<(real, real)>, color: u32)
    ensures |points| < 3 ==> AddFillDoc(d, points, color) == d
    ensures |points| >= 3 ==>
      var d' := AddFillDoc(d, points, color);
      && |d'.fills| == |d.fills| + 1 && d'.history == d.history + [AddFill]
      && var p := d'.fills[|d.fills|];
      && IsClosed(p) && p.color == color
      && p.points[..|points|] == points && p.points[0] == p.points[|p.points| - 1]
      && UndoDoc(d') == d
  {
    if |points| >= 3 {
      var p := Polygon(CloseRing(points), color);
      assert (d.fills + [p])[..|d.fills|] == d.fills;
      assert (d.history + [AddFill])[..|d.history|] == d.history;
      assert p.points[..|points|] == points;
    }
  }

  /** Undo on an empty history changes nothing; otherwise it takes exactly one command off. */
  lemma UndoHistory(d: Doc)
    ensures |d.history| == 0 ==> UndoDoc(d) == d
    ensures |d.history| > 0 ==> UndoDoc(d).history == d.history[..|d.history| - 1]
  {
  }

  /** Store edge e was made from line l, the l-th line. */
  predicate EdgeOfLine(e: Edge, l: Line, i: nat)
  {
    e.x1 == l.x1 && e.y1 == l.y1 && e.x2 == l.x2 && e.y2 == l.y2 && e.lineIdx == i
  }

  class Editor {
    var lines: seq<Line>
    var fills: seq<Polygon>
    var history: seq<Command>
    var fillGraph: FillGraph
    var nodeDegree: seq<nat>
    var effectiveDegree: seq<nat>
    var allowNode: seq<bool>
    var fillColor: u32
    const store: GraphStore
    const snap: (real, real) -> SnapKey
    const quantize: (real, real) -> QKey
    const cross: (Line, Line) -> Option<Crossing>

    ghost function State(): Doc
      reads this
    {
      Doc(lines, fills, history)
    }

    /**
     * The derived state kept correct between operations: the store keeps its
     * invariant, the fill graph passes its integrity check, and it is empty
     * with no lines and otherwise built from them.
     */
    ghost predicate Valid()
      reads this, store, store.dsu
    {
      && store.Valid() && FillGraphIntegrity(fillGraph)
      && (lines == [] ==> fillGraph == EmptyGraph)
      && (lines != [] ==> Built())
    }

    /**
     * The derived state after build_fill_graph on a non-empty line list: one
     * store edge per line, and the cut-segment graph, degrees and fill flags
     * built from the lines.
     */
    ghost predicate Built()
      reads this, store, store.dsu
    {
      && |store.edges| == |lines|
      && (forall i :: 0 <= i < |lines| ==> EdgeOfLine(store.edges[i], lines[i], i))
      && GraphOf(lines, quantize, cross, fillGraph, nodeDegree, effectiveDegree, allowNode)
    }

    /** Editor::new: nothing drawn, no history, the default fill colour. */
    constructor (snap: (real, real) -> SnapKey, quantize: (real, real) -> QKey, cross: (Line, Line) -> Option<Crossing>)
      ensures Valid() && fresh(store) && fresh(store.dsu)
      ensures State() == Doc([], [], []) && fillGraph == EmptyGraph && fillColor == DefaultColor
      ensures nodeDegree == [] && effectiveDegree == [] && allowNode == []
      ensures this.snap == snap && this.quantize == quantize && this.cross == cross
    {
      lines, fills, history := [], [], [];
      fillGraph := EmptyGraph;
      nodeDegree, effectiveDegree, allowNode := [], [], [];
      fillColor := DefaultColor;
      store := new GraphStore();
      EmptyGraphIntegrity();
      this.snap, this.quantize, this.cross := snap, quantize, cross;
    }

    /** The graph_store loop of build_fill_graph: clear, then one segment per line. */
    method RebuildStore()
      requires store.Valid()
      modifies store, store.dsu
      ensures store.Valid()
      ensures |store.edges| == |lines| && forall i :: 0 <= i < |lines| ==> EdgeOfLine(store.edges[i], lines[i], i)
      ensures forall u: nat, w: nat {:trigger Connected(store.edges, u, w)} :: u < |store.nodes| && w < |store.nodes| ==>
                (store.dsu.rep[u] == store.dsu.rep[w] <==> Connected(store.edges, u, w))
    {
      store.Clear();
      var idx := 0;
      while idx < |lines|
        invariant idx <= |lines| && store.Valid()
        invariant |store.edges| == idx && forall i :: 0 <= i < idx ==> EdgeOfLine(store.edges[i], lines[i], i)
      {
        var l := lines[idx];
        var _ := store.AddSegment(snap(l.x1, l.y1), l.x1, l.y1, snap(l.x2, l.y2), l.x2, l.y2, idx);
        idx := idx + 1;
      }
    }

    /**
     * build_fill_graph.  With no lines the fill graph is emptied and the
     * method returns early: the store and the degree and flag lists keep
     * whatever they held.  Otherwise everything is rebuilt from the lines.
     */
    method BuildFillGraph()
      requires store.Valid()
      modifies this, store, store.dsu
      ensures Valid() && State() == old(State()) && fillColor == old(fillColor)
      ensures lines == [] ==> store.nodes == old(store.nodes) && store.edges == old(store.edges)
                              && store.nodeMap == old(store.nodeMap) && unchanged(store.dsu)
      ensures lines == [] ==> nodeDegree == old(nodeDegree) && effectiveDegree == old(effectiveDegree)
                              && allowNode == old(allowNode)
    {
      fillGraph := EmptyGraph;
      if |lines| == 0 {
        EmptyGraphIntegrity();
        return;
      }
      RebuildStore();
      var g, degree, eff, allow := BuildGraph(lines, quantize, cross);
      fillGraph, nodeDegree, effectiveDegree, allowNode := g, degree, eff, allow;
      assert GraphOf(lines, quantize, cross, fillGraph, nodeDegree, effectiveDegree, allowNode);
      assert Built();
    }

    /** add_line: a too-short line is ignored; otherwise it is added and the graph rebuilt. */
    method AddLine(l: Line)
      requires Valid()
      modifies this, store, store.dsu
      ensures Valid() && State() == AddLineDoc(old(State()), l) && fillColor == old(fillColor)
      ensures TooShort(l) ==> unchanged(this) && unchanged(store) && unchanged(store.dsu)
    {
      if TooShort(l) {
        return;
      }
      lines := lines + [l];
      history := history + [Command.Add];
      BuildFillGraph();
    }

    /** add_frame: four lines round the corners and one AddFrame command. */
    method AddFrame(x1: real, y1: real, x2: real, y2: real, x3: real, y3: real, x4: real, y4: real)
      requires Valid()
      modifies this, store, store.dsu
      ensures Valid() && State() == AddFrameDoc(old(State()), x1, y1, x2, y2, x3, y3, x4, y4)
      ensures fillColor == old(fillColor)
    {
      lines := lines + FrameLines(x1, y1, x2, y2, x3, y3, x4, y4);
      history := history + [Command.AddFrame];
      BuildFillGraph();
    }

    /** clear: lines and fills are emptied and kept in the history. */
    method Clear()
      requires Valid()
      modifies this, store, store.dsu
      ensures Valid() && State() == ClearDoc(old(State())) && fillColor == old(fillColor)
    {
      var previousLines, previousFills := lines, fills;
      lines, fills := [], [];
      history := history + [Command.Clear(previousLines, previousFills)];
      BuildFillGraph();
    }

    /** undo: the last command is taken back, then the graph is rebuilt. */
    method Undo()
      requires Valid()
      modifies this, store, store.dsu
      ensures Valid() && State() == UndoDoc(old(State())) && fillColor == old(fillColor)
    {
      ghost var d0 := State();
      if |history| > 0 {
        var last := history[|history| - 1];
        history := history[..|history| - 1];
        match last {
          case Add =>
            lines := Pop(lines);
          case AddFill =>
            fills := Pop(fills);
          case AddFrame =>
            var remaining := lines;
            var k := 0;
            while k < 4
              invariant k <= 4 && remaining == PopTimes(lines, k)
            {
              remaining := Pop(remaining);
              k := k + 1;
            }
            lines := remaining;
          case Clear(previousLines, previousFills) =>
            lines, fills := previousLines, previousFills;
          case CleanOverhangs(previousLines) =>
            lines := previousLines;
        }
      }
      assert State() == UndoDoc(d0);
      BuildFillGraph();
    }

    /**
     * create_polygon_from_selected: with three points or more, one fill in
     * the current colour whose outline is closed, and one AddFill command.
     */
    method CreatePolygonFromSelected(points: seq<(real, real)>)
      requires Valid()
      modifies this
      ensures Valid()
      ensures State() == AddFillDoc(old(State()), points, old(fillColor))
      ensures fillGraph == old(fillGraph) && fillColor == old(fillColor)
      ensures nodeDegree == old(nodeDegree) && effectiveDegree == old(effectiveDegree) && allowNode == old(allowNode)
    {
      if |points| >= 3 {
        var outline := points;
        if outline[0] != outline[|outline| - 1] {
          outline := outline + [outline[0]];
        }
        fills := fills + [Polygon(outline, fillColor)];
        history := history + [Command.AddFill];
      }
    }

    /**
     * cleanup_overhangs.  With no lines nothing happens.  Otherwise the graph
     * is rebuilt and trimmed; when nothing is trimmed the lines and the
     * history stay as they were, and otherwise the kept segments become the
     * lines, a CleanOverhangs command holding the old lines is pushed, and
     * the graph is rebuilt from the new lines.  The ghost results are the
     * graph built from the old lines and the outcome of trimming it.
     */
    method CleanupOverhangs() returns (ghost kept: Option<seq<Line>>, ghost g: FillGraph)
      requires Valid()
      modifies this, store, store.dsu
      ensures Valid() && State() == CleanupDoc(old(State()), kept) && fillColor == old(fillColor)
      ensures old(lines) == [] ==> unchanged(this) && unchanged(store) && unchanged(store.dsu)
      ensures old(lines) != [] ==>
                && (exists degree, eff, allow :: GraphOf(old(lines), quantize, cross, g, degree, eff, allow))
                && TrimOutcome(g, kept)
    {
      g := EmptyGraph;
      kept := None;
      if |lines| == 0 {
        return;
      }
      var previousLines := lines;
      BuildFillGraph();
      g := fillGraph;
      ghost var degree, eff, allow := nodeDegree, effectiveDegree, allowNode;
      assert GraphOf(previousLines, quantize, cross, g, degree, eff, allow);
      var trimmed := Trim(fillGraph);
      kept := trimmed;
      if trimmed.Some? {
        lines := trimmed.value;
        history := history + [Command.CleanOverhangs(previousLines)];
        BuildFillGraph();
      }
      assert GraphOf(previousLines, quantize, cross, g, degree, eff, allow);
    }
  }

  /**
   * What the trimming part of cleanup_overhangs makes of a built graph:
   * None exactly when the graph has no segments or no node has exactly one
   * segment (so the peel deletes nothing).  Otherwise the lines are one per
   * segment surviving the 2-core peel, fewer than there were segments.
   */
  ghost predicate TrimOutcome(g: FillGraph, kept: Option<seq<Line>>)
  {
    && (kept.None? <==> |g.segments| == 0 || LeafFree(g.segments, seq(|g.segments|, _ => false), |g.nodes|))
    && (kept.Some? ==> exists del {:trigger Peeled(g.segments, |g.nodes|, del)} ::
          && Peeled(g.segments, |g.nodes|, del)
          && kept.value == KeptLines(g.segments, del, g.nodes)
          && |kept.value| == |g.segments| - CountTrue(del) < |g.segments|)
  }

  /**
   * After cleanup_overhangs, every kept line is the line of a surviving
   * segment and runs between two nodes.  Each of those nodes is a point
   * the build registered, the first with its quantized key: a start or end
   * point of an old line, or a crossing point.
   */
  lemma TrimmedPoints(lines: seq<Line>, quantize: (real, real) -> QKey, cross: (Line, Line) -> Option<Crossing>,
                      g: FillGraph, degree: seq<nat>, eff: seq<nat>, allow: seq<bool>, kept: Option<seq<Line>>)
    requires GraphOf(lines, quantize, cross, g, degree, eff, allow) && TrimOutcome(g, kept) && kept.Some?
    ensures forall l :: l in kept.value ==>
              && FirstPointOf([], RegisteredPoints(lines, cross), Point(l.x1, l.y1), quantize)
              && FirstPointOf([], RegisteredPoints(lines, cross), Point(l.x2, l.y2), quantize)
  {
    var del :| Peeled(g.segments, |g.nodes|, del) && kept.value == KeptLines(g.segments, del, g.nodes)
               && |kept.value| == |g.segments| - CountTrue(del) < |g.segments|;
    KeptFromSegs(g.segments, del, g.nodes);
    GraphNodes(lines, quantize, cross, g, degree, eff, allow);
    forall l | l in kept.value
      ensures FirstPointOf([], RegisteredPoints(lines, cross), Point(l.x1, l.y1), quantize)
      ensures FirstPointOf([], RegisteredPoints(lines, cross), Point(l.x2, l.y2), quantize)
    {
      var k :| 0 <= k < |g.segments| && !del[k] && g.segments[k].a < |g.nodes| && g.segments[k].b < |g.nodes|
               && l == SegLine(g.nodes, g.segments[k]);
      assert Point(l.x1, l.y1) == g.nodes[g.segments[k].a] && Point(l.x2, l.y2) == g.nodes[g.segments[k].b];
    }
  }

  /** The trimming part of cleanup_overhangs on a built graph: peel, then collect the survivors. */
  method Trim(g: FillGraph) returns (kept: Option<seq<Line>>)
    requires FillGraphIntegrity(g)
    ensures TrimOutcome(g, kept)
  {
    if |g.segments| == 0 {
      return None;
    }
    var deleteSegment, deletedCount := PeelSegments(g.segments, |g.nodes|);
    PeeledNothing(g.segments, |g.nodes|, deleteSegment);
    if deletedCount == 0 {
      return None;
    }
    var newLines := CollectKept(g.segments, deleteSegment, g.nodes);
    KeptCount(g.segments, deleteSegment, g.nodes);
    return Some(newLines);
  }

  /** The list with its last k elements dropped, one at a time. */
  function PopTimes<T>(s: seq<T>, k: nat): seq<T>
  {
    if k == 0 then s else Pop(PopTimes(s, k - 1))
  }
}
