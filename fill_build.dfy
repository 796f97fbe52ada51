// The structural part of Editor::build_fill_graph (src/lib.rs): nodes are
// registered for every line endpoint and every interior crossing of two
// lines, each line is cut at its nodes into segments, and the half-edge,
// incidence and outgoing lists and the leaf-stripped node flags are built.
//
// Float geometry is handed in: `quantize` stands for
// IntersectionRegistry::quantize and `cross` for line_intersection_params
// (both parameters of a crossing and the crossing point, or None).  The angle
// sort of the outgoing lists is not modelled: the lists are left in index
// order, and what is proved about them (which half-edges they hold, each
// once) does not depend on their order.

module FillBuild {
  import opened Maybe
  import opened Shapes
  import opened Registry
  import opened FillSpec
  import opened DebugChecks

  /** Where two lines cross: the parameter along each and the point. */
  datatype Crossing = Crossing(t1: real, t2: real, x: real, y: real)

  /**
   * The registry and the node list describe each other: entry i holds node
   * i under the quantized key of its position, and no key is stored twice.
   */
  ghost predicate Registered(entries: seq<Entry>, nodes: seq<Point>, quantize: (real, real) -> QKey)
  {
    && Dense(entries, |nodes|)
    && forall i :: 0 <= i < |nodes| ==> entries[i].key == quantize(nodes[i].x, nodes[i].y)
  }

  /** A node list in which no two nodes share a quantized key. */
  predicate KeysDistinct(nodes: seq<Point>, quantize: (real, real) -> QKey)
  {
    forall i, j :: 0 <= i < j < |nodes| ==> quantize(nodes[i].x, nodes[i].y) != quantize(nodes[j].x, nodes[j].y)
  }

  lemma RegisteredDistinct(entries: seq<Entry>, nodes: seq<Point>, quantize: (real, real) -> QKey)
    requires Registered(entries, nodes, quantize)
    ensures KeysDistinct(nodes, quantize)
  {
    forall i, j | 0 <= i < j < |nodes|
      ensures quantize(nodes[i].x, nodes[i].y) != quantize(nodes[j].x, nodes[j].y)
    {
      assert entries[i].key != entries[j].key;
    }
  }

  /**
   * The node list after get_or_insert of p: unchanged when a node already
   * has p's quantized key, and p appended otherwise.
   */
  function Insert(nodes: seq<Point>, p: Point, quantize: (real, real) -> QKey): seq<Point>
  {
    if exists i :: 0 <= i < |nodes| && quantize(nodes[i].x, nodes[i].y) == quantize(p.x, p.y) then nodes
    else nodes + [p]
  }

  /** The node list after registering the points ps one after another. */
  function Registration(nodes: seq<Point>, ps: seq<Point>, quantize: (real, real) -> QKey): seq<Point>
  {
    if |ps| == 0 then nodes
    else Insert(Registration(nodes, ps[..|ps| - 1], quantize), ps[|ps| - 1], quantize)
  }

  lemma RegistrationSnoc(nodes: seq<Point>, ps: seq<Point>, p: Point, quantize: (real, real) -> QKey)
    ensures Registration(nodes, ps + [p], quantize) == Insert(Registration(nodes, ps, quantize), p, quantize)
  {
    assert (ps + [p])[..|ps|] == ps;
  }

  /** Registering ps after qs is registering qs + ps. */
  lemma {:induction false} RegistrationAppend(nodes: seq<Point>, qs: seq<Point>, ps: seq<Point>, quantize: (real, real) -> QKey)
    ensures Registration(Registration(nodes, qs, quantize), ps, quantize) == Registration(nodes, qs + ps, quantize)
  {
    if |ps| == 0 {
      assert qs + ps == qs;
    } else {
      var m := |ps| - 1;
      RegistrationAppend(nodes, qs, ps[..m], quantize);
      assert qs + ps == (qs + ps[..m]) + [ps[m]];
      RegistrationSnoc(nodes, qs + ps[..m], ps[m], quantize);
    }
  }

  /** ps[k] is the first point with its key: no node of nodes and no earlier point of ps has it. */
  predicate FirstOfKey(nodes: seq<Point>, ps: seq<Point>, k: nat, quantize: (real, real) -> QKey)
    requires k < |ps|
  {
    && (forall i :: 0 <= i < |nodes| ==> quantize(nodes[i].x, nodes[i].y) != quantize(ps[k].x, ps[k].y))
    && (forall k' :: 0 <= k' < k ==> quantize(ps[k'].x, ps[k'].y) != quantize(ps[k].x, ps[k].y))
  }

  /** Some node of the list has p's quantized key. */
  predicate KeyFound(nodes: seq<Point>, p: Point, quantize: (real, real) -> QKey)
  {
    exists v :: 0 <= v < |nodes| && quantize(nodes[v].x, nodes[v].y) == quantize(p.x, p.y)
  }

  /** p is a point of ps that is the first with its key. */
  predicate FirstPointOf(nodes: seq<Point>, ps: seq<Point>, p: Point, quantize: (real, real) -> QKey)
  {
    exists k :: 0 <= k < |ps| && ps[k] == p && FirstOfKey(nodes, ps, k, quantize)
  }

  /** After registering ps, every point of ps has a node with its key. */
  lemma {:induction false} RegistrationCovers(nodes: seq<Point>, ps: seq<Point>, quantize: (real, real) -> QKey)
    ensures forall k :: 0 <= k < |ps| ==> KeyFound(Registration(nodes, ps, quantize), ps[k], quantize)
  {
    if |ps| > 0 {
      var m := |ps| - 1;
      var r0 := Registration(nodes, ps[..m], quantize);
      var r := Registration(nodes, ps, quantize);
      RegistrationCovers(nodes, ps[..m], quantize);
      assert r0 <= r;
      forall k | 0 <= k < |ps| ensures KeyFound(r, ps[k], quantize) {
        if k < m {
          assert ps[k] == ps[..m][k];
          var v :| 0 <= v < |r0| && quantize(r0[v].x, r0[v].y) == quantize(ps[k].x, ps[k].y);
          assert r[v] == r0[v];
        } else if r == r0 {
          var v :| 0 <= v < |r0| && quantize(r0[v].x, r0[v].y) == quantize(ps[m].x, ps[m].y);
        } else {
          assert r[|r0|] == ps[m];
        }
      }
    }
  }

  /**
   * Registering keeps the nodes already there and adds only points of ps,
   * each the first point with its key.
   */
  lemma {:induction false} RegistrationGrows(nodes: seq<Point>, ps: seq<Point>, quantize: (real, real) -> QKey)
    ensures nodes <= Registration(nodes, ps, quantize)
    ensures forall v :: |nodes| <= v < |Registration(nodes, ps, quantize)| ==>
              FirstPointOf(nodes, ps, Registration(nodes, ps, quantize)[v], quantize)
  {
    if |ps| > 0 {
      var m := |ps| - 1;
      var r0 := Registration(nodes, ps[..m], quantize);
      var r := Registration(nodes, ps, quantize);
      RegistrationGrows(nodes, ps[..m], quantize);
      forall v | |nodes| <= v < |r| ensures FirstPointOf(nodes, ps, r[v], quantize) {
        if v < |r0| {
          var k :| 0 <= k < m && ps[..m][k] == r0[v] && FirstOfKey(nodes, ps[..m], k, quantize);
          assert forall k' :: 0 <= k' <= k ==> ps[k'] == ps[..m][k'];
          assert r[v] == r0[v] && FirstOfKey(nodes, ps, k, quantize);
        } else {
          assert r == r0 + [ps[m]] && v == |r0|;
          assert !KeyFound(r0, ps[m], quantize);
          RegistrationCovers(nodes, ps[..m], quantize);
          forall k' | 0 <= k' < m ensures quantize(ps[k'].x, ps[k'].y) != quantize(ps[m].x, ps[m].y) {
            assert ps[k'] == ps[..m][k'];
          }
          assert forall i :: 0 <= i < |nodes| ==> nodes[i] == r0[i];
          assert FirstOfKey(nodes, ps, m, quantize);
        }
      }
    }
  }

  /** Registering keeps the quantized keys of the node list pairwise distinct. */
  lemma {:induction false} RegistrationDistinct(nodes: seq<Point>, ps: seq<Point>, quantize: (real, real) -> QKey)
    requires KeysDistinct(nodes, quantize)
    ensures KeysDistinct(Registration(nodes, ps, quantize), quantize)
  {
    if |ps| > 0 {
      RegistrationDistinct(nodes, ps[..|ps| - 1], quantize);
    }
  }

  /** get_or_insert of a point: the node list is Insert's, and the node returned has the point's quantized key. */
  method Register(reg: IntersectionRegistry, x: real, y: real, nodes: seq<Point>, quantize: (real, real) -> QKey)
    returns (id: nat, nodes': seq<Point>)
    requires Registered(reg.entries, nodes, quantize)
    modifies reg
    ensures Registered(reg.entries, nodes', quantize)
    ensures id < |nodes'| && quantize(nodes'[id].x, nodes'[id].y) == quantize(x, y)
    ensures nodes' == Insert(nodes, Point(x, y), quantize) && nodes <= nodes'
  {
    ghost var e0 := reg.entries;
    id, nodes' := reg.GetOrInsert(quantize(x, y), Point(x, y), nodes);
    if Lookup(e0, quantize(x, y)).Some? {
      var i :| 0 <= i < |e0| && e0[i] == Entry(quantize(x, y), id);
      assert i == id;
    } else {
      assert reg.entries[id] == Entry(quantize(x, y), id);
      assert forall i :: 0 <= i < |nodes| ==> quantize(nodes[i].x, nodes[i].y) != quantize(x, y) by {
        assert forall i :: 0 <= i < |e0| ==> e0[i].key != quantize(x, y);
      }
    }
  }

  /** Every break of every line names a node of the list. */
  predicate AllBreaksBelow(perLine: seq<seq<Break>>, n: nat)
  {
    forall i {:trigger BreaksBelow(perLine[i], n)} :: 0 <= i < |perLine| ==> BreaksBelow(perLine[i], n)
  }

  /** The breaks of a line before any crossing: its start (t = 0) and end (t = 1) nodes. */
  ghost predicate EndpointsAt(line: Line, nodes: seq<Point>, b: seq<Break>, quantize: (real, real) -> QKey)
  {
    && |b| == 2 && b[0].t == 0.0 && b[1].t == 1.0
    && b[0].node < |nodes| && b[1].node < |nodes|
    && quantize(nodes[b[0].node].x, nodes[b[0].node].y) == quantize(line.x1, line.y1)
    && quantize(nodes[b[1].node].x, nodes[b[1].node].y) == quantize(line.x2, line.y2)
  }

  ghost predicate EndpointsOf(lines: seq<Line>, nodes: seq<Point>, perLine: seq<seq<Break>>, quantize: (real, real) -> QKey)
  {
    && |perLine| == |lines|
    && forall i {:trigger EndpointsAt(lines[i], nodes, perLine[i], quantize)} :: 0 <= i < |lines| ==>
         EndpointsAt(lines[i], nodes, perLine[i], quantize)
  }

  lemma EndpointsGrow(line: Line, nodes: seq<Point>, nodes': seq<Point>, b: seq<Break>, quantize: (real, real) -> QKey)
    requires EndpointsAt(line, nodes, b, quantize) && nodes <= nodes'
    ensures EndpointsAt(line, nodes', b, quantize)
  {
    assert nodes'[b[0].node] == nodes[b[0].node] && nodes'[b[1].node] == nodes[b[1].node];
  }

  /** The endpoints in the order the endpoint loop registers them: start, then end, line by line. */
  function EndPoints(lines: seq<Line>): seq<Point>
  {
    if |lines| == 0 then []
    else
      var l := lines[|lines| - 1];
      EndPoints(lines[..|lines| - 1]) + [Point(l.x1, l.y1), Point(l.x2, l.y2)]
  }

  /** EndPoints holds exactly the start and end points of the lines, two per line. */
  lemma {:induction false} EndPointsSpec(lines: seq<Line>)
    ensures |EndPoints(lines)| == 2 * |lines|
    ensures forall i :: 0 <= i < |lines| ==>
              EndPoints(lines)[2 * i] == Point(lines[i].x1, lines[i].y1) && EndPoints(lines)[2 * i + 1] == Point(lines[i].x2, lines[i].y2)
  {
    if |lines| > 0 {
      var m := |lines| - 1;
      EndPointsSpec(lines[..m]);
      assert forall i :: 0 <= i < m ==> lines[..m][i] == lines[i];
    }
  }

  /** The endpoint points are exactly the start and end points of the lines. */
  lemma EndPointsIn(lines: seq<Line>, p: Point)
    ensures p in EndPoints(lines) <==>
              exists i :: 0 <= i < |lines| && (p == Point(lines[i].x1, lines[i].y1) || p == Point(lines[i].x2, lines[i].y2))
  {
    EndPointsSpec(lines);
    var e := EndPoints(lines);
    if p in e {
      var k :| 0 <= k < |e| && e[k] == p;
      var i := k / 2;
      assert k == 2 * i || k == 2 * i + 1;
      assert e[2 * i] == Point(lines[i].x1, lines[i].y1) && e[2 * i + 1] == Point(lines[i].x2, lines[i].y2);
    }
    if exists i :: 0 <= i < |lines| && (p == Point(lines[i].x1, lines[i].y1) || p == Point(lines[i].x2, lines[i].y2)) {
      var i :| 0 <= i < |lines| && (p == Point(lines[i].x1, lines[i].y1) || p == Point(lines[i].x2, lines[i].y2));
      assert e[2 * i] == Point(lines[i].x1, lines[i].y1) && e[2 * i + 1] == Point(lines[i].x2, lines[i].y2);
    }
  }

  /** One more line registers its start, then its end. */
  lemma EndpointsNext(lines: seq<Line>, idx: nat, quantize: (real, real) -> QKey)
    requires idx < |lines|
    ensures Registration([], EndPoints(lines[..idx + 1]), quantize)
         == Insert(Insert(Registration([], EndPoints(lines[..idx]), quantize), Point(lines[idx].x1, lines[idx].y1), quantize),
                   Point(lines[idx].x2, lines[idx].y2), quantize)
  {
    var e := EndPoints(lines[..idx]);
    var p1, p2 := Point(lines[idx].x1, lines[idx].y1), Point(lines[idx].x2, lines[idx].y2);
    assert lines[..idx + 1][..idx] == lines[..idx];
    assert EndPoints(lines[..idx + 1]) == (e + [p1]) + [p2];
    RegistrationSnoc([], e + [p1], p2, quantize);
    RegistrationSnoc([], e, p1, quantize);
  }

  /** Registering one line's start and end. */
  method RegisterLine(reg: IntersectionRegistry, line: Line, nodes: seq<Point>, quantize: (real, real) -> QKey)
    returns (n0: nat, n1: nat, nodes': seq<Point>)
    requires Registered(reg.entries, nodes, quantize)
    modifies reg
    ensures Registered(reg.entries, nodes', quantize) && nodes <= nodes'
    ensures nodes' == Insert(Insert(nodes, Point(line.x1, line.y1), quantize), Point(line.x2, line.y2), quantize)
    ensures n0 < |nodes'| && quantize(nodes'[n0].x, nodes'[n0].y) == quantize(line.x1, line.y1)
    ensures n1 < |nodes'| && quantize(nodes'[n1].x, nodes'[n1].y) == quantize(line.x2, line.y2)
  {
    var mid;
    n0, mid := Register(reg, line.x1, line.y1, nodes, quantize);
    n1, nodes' := Register(reg, line.x2, line.y2, mid, quantize);
    assert mid[n0] == nodes'[n0];
  }

  /** The endpoint loop after idx lines: the lines below idx have their endpoint breaks, registered in order. */
  ghost predicate EndpointsSoFar(entries: seq<Entry>, lines: seq<Line>, nodes: seq<Point>, perLine: seq<seq<Break>>,
                                 idx: nat, quantize: (real, real) -> QKey)
    requires idx <= |lines|
  {
    && |perLine| == idx && Registered(entries, nodes, quantize)
    && nodes == Registration([], EndPoints(lines[..idx]), quantize)
    && forall i {:trigger EndpointsAt(lines[i], nodes, perLine[i], quantize)} :: 0 <= i < idx ==>
         EndpointsAt(lines[i], nodes, perLine[i], quantize)
  }

  /** One round of the endpoint loop: line idx gets its start and end nodes. */
  method EndpointsStep(reg: IntersectionRegistry, lines: seq<Line>, nodes0: seq<Point>, perLine0: seq<seq<Break>>,
                       idx: nat, quantize: (real, real) -> QKey)
    returns (nodes: seq<Point>, perLine: seq<seq<Break>>)
    requires idx < |lines| && EndpointsSoFar(reg.entries, lines, nodes0, perLine0, idx, quantize)
    modifies reg
    ensures EndpointsSoFar(reg.entries, lines, nodes, perLine, idx + 1, quantize)
  {
    var line := lines[idx];
    var n0, n1;
    n0, n1, nodes := RegisterLine(reg, line, nodes0, quantize);
    forall i | 0 <= i < idx ensures EndpointsAt(lines[i], nodes, perLine0[i], quantize) {
      EndpointsGrow(lines[i], nodes0, nodes, perLine0[i], quantize);
    }
    perLine := perLine0 + [[Break(0.0, n0), Break(1.0, n1)]];
    assert EndpointsAt(lines[idx], nodes, perLine[idx], quantize);
    EndpointsNext(lines, idx, quantize);
  }

  /** The endpoint loop: both ends of every line become nodes, at parameters 0 and 1, registered in order. */
  method Endpoints(reg: IntersectionRegistry, lines: seq<Line>, quantize: (real, real) -> QKey)
    returns (nodes: seq<Point>, perLine: seq<seq<Break>>)
    requires reg.entries == []
    modifies reg
    ensures Registered(reg.entries, nodes, quantize)
    ensures EndpointsOf(lines, nodes, perLine, quantize)
    ensures nodes == Registration([], EndPoints(lines), quantize)
  {
    nodes, perLine := [], [];
    var idx := 0;
    while idx < |lines|
      invariant idx <= |lines| && EndpointsSoFar(reg.entries, lines, nodes, perLine, idx, quantize)
    {
      nodes, perLine := EndpointsStep(reg, lines, nodes, perLine, idx, quantize);
      idx := idx + 1;
    }
    assert lines[..idx] == lines;
  }

  /** b extends b0 by interior breaks only (parameters strictly between 0 and 1). */
  predicate Grown(b0: seq<Break>, b: seq<Break>)
  {
    b0 <= b && forall m :: |b0| <= m < |b| ==> 0.0 < b[m].t < 1.0
  }

  lemma GrownTrans(b0: seq<Break>, b1: seq<Break>, b2: seq<Break>)
    requires Grown(b0, b1) && Grown(b1, b2)
    ensures Grown(b0, b2)
  {
    forall m | |b0| <= m < |b2| ensures 0.0 < b2[m].t < 1.0 {
      if m < |b1| {
        assert b2[m] == b1[m];
      }
    }
  }

  /** A break a line is due to get: its parameter on the line and the crossing it comes from. */
  datatype Hit = Hit(t: real, at: Crossing)

  /** The crossing of lines i and j, when cross finds one strictly inside both. */
  function Accepted(lines: seq<Line>, cross: (Line, Line) -> Option<Crossing>, i: nat, j: nat): Option<Crossing>
    requires i < |lines| && j < |lines|
  {
    match cross(lines[i], lines[j])
    case Some(c) => if 0.0 < c.t1 < 1.0 && 0.0 < c.t2 < 1.0 then Some(c) else None
    case None => None
  }

  /** What the pair (i, j) gives line k: a break at its parameter when k is one of the two. */
  function PairHits(lines: seq<Line>, cross: (Line, Line) -> Option<Crossing>, k: nat, i: nat, j: nat): seq<Hit>
    requires i < |lines| && j < |lines|
  {
    match Accepted(lines, cross, i, j)
    case Some(c) => if k == i then [Hit(c.t1, c)] else if k == j then [Hit(c.t2, c)] else []
    case None => []
  }

  /** What the pairs (i, i + 1) up to (i, j - 1) give line k, in that order. */
  function RowHits(lines: seq<Line>, cross: (Line, Line) -> Option<Crossing>, k: nat, i: nat, j: nat): seq<Hit>
    requires i < |lines| && j <= |lines|
  {
    if j <= i + 1 then [] else RowHits(lines, cross, k, i, j - 1) + PairHits(lines, cross, k, i, j - 1)
  }

  /** What the pairs whose first line is below i give line k, in the order the loops visit them. */
  function HitsBefore(lines: seq<Line>, cross: (Line, Line) -> Option<Crossing>, k: nat, i: nat): seq<Hit>
    requires i <= |lines|
  {
    if i == 0 then [] else HitsBefore(lines, cross, k, i - 1) + RowHits(lines, cross, k, i - 1, |lines|)
  }

  /** The breaks line k gets from its crossings with all the other lines. */
  function LineHits(lines: seq<Line>, cross: (Line, Line) -> Option<Crossing>, k: nat): seq<Hit>
  {
    HitsBefore(lines, cross, k, |lines|)
  }

  /** The point the pair (i, j) registers: the crossing cross accepts, if any. */
  function PairPoints(lines: seq<Line>, cross: (Line, Line) -> Option<Crossing>, i: nat, j: nat): seq<Point>
    requires i < |lines| && j < |lines|
  {
    match Accepted(lines, cross, i, j)
    case Some(c) => [Point(c.x, c.y)]
    case None => []
  }

  /** The points the pairs (i, i + 1) up to (i, j - 1) register, in that order. */
  function RowPoints(lines: seq<Line>, cross: (Line, Line) -> Option<Crossing>, i: nat, j: nat): seq<Point>
    requires i < |lines| && j <= |lines|
  {
    if j <= i + 1 then [] else RowPoints(lines, cross, i, j - 1) + PairPoints(lines, cross, i, j - 1)
  }

  /** The points the pairs whose first line is below i register, in the order the loops visit them. */
  function PointsBefore(lines: seq<Line>, cross: (Line, Line) -> Option<Crossing>, i: nat): seq<Point>
    requires i <= |lines|
  {
    if i == 0 then [] else PointsBefore(lines, cross, i - 1) + RowPoints(lines, cross, i - 1, |lines|)
  }

  /** The crossing points the crossing pass registers, in its order. */
  function CrossPoints(lines: seq<Line>, cross: (Line, Line) -> Option<Crossing>): seq<Point>
  {
    PointsBefore(lines, cross, |lines|)
  }

  /** Every point build_fill_graph registers, in its order: the endpoints line by line, then the crossings. */
  function RegisteredPoints(lines: seq<Line>, cross: (Line, Line) -> Option<Crossing>): seq<Point>
  {
    EndPoints(lines) + CrossPoints(lines, cross)
  }

  /** p is the point of a crossing of lines i < j strictly inside both. */
  predicate CrossAt(lines: seq<Line>, cross: (Line, Line) -> Option<Crossing>, i: nat, j: nat, p: Point)
  {
    i < j < |lines| && Accepted(lines, cross, i, j).Some?
    && p == Point(Accepted(lines, cross, i, j).value.x, Accepted(lines, cross, i, j).value.y)
  }

  lemma {:induction false} RowPointsSpec(lines: seq<Line>, cross: (Line, Line) -> Option<Crossing>, i: nat, j: nat, p: Point)
    requires i < |lines| && j <= |lines|
    ensures p in RowPoints(lines, cross, i, j) <==> exists j': nat :: j' < j && CrossAt(lines, cross, i, j', p)
  {
    if j > i + 1 {
      RowPointsSpec(lines, cross, i, j - 1, p);
      if CrossAt(lines, cross, i, j - 1, p) {
        assert p in PairPoints(lines, cross, i, j - 1);
      }
      if p in PairPoints(lines, cross, i, j - 1) {
        assert CrossAt(lines, cross, i, j - 1, p);
      }
    }
  }

  lemma {:induction false} PointsBeforeSpec(lines: seq<Line>, cross: (Line, Line) -> Option<Crossing>, i: nat, p: Point)
    requires i <= |lines|
    ensures p in PointsBefore(lines, cross, i) <==> exists i': nat, j': nat :: i' < i && CrossAt(lines, cross, i', j', p)
  {
    if i > 0 {
      var r := i - 1;
      PointsBeforeSpec(lines, cross, r, p);
      RowPointsSpec(lines, cross, r, |lines|, p);
      assert PointsBefore(lines, cross, i) == PointsBefore(lines, cross, r) + RowPoints(lines, cross, r, |lines|);
      if exists i': nat, j': nat :: i' < i && CrossAt(lines, cross, i', j', p) {
        var i': nat, j': nat :| i' < i && CrossAt(lines, cross, i', j', p);
        if i' == r {
          assert j' < |lines| && CrossAt(lines, cross, r, j', p);
        }
      }
    }
  }

  /** The crossing points registered are exactly the points of the accepted crossings of pairs i < j. */
  lemma CrossPointsSpec(lines: seq<Line>, cross: (Line, Line) -> Option<Crossing>, p: Point)
    ensures p in CrossPoints(lines, cross) <==> exists i: nat, j: nat :: CrossAt(lines, cross, i, j, p)
  {
    PointsBeforeSpec(lines, cross, |lines|, p);
  }

  /**
   * The points build_fill_graph registers are the start and end points of
   * the lines and the points of the crossings strictly inside two lines.
   */
  lemma RegisteredPointsIn(lines: seq<Line>, cross: (Line, Line) -> Option<Crossing>, p: Point)
    ensures p in RegisteredPoints(lines, cross) <==>
              || (exists i :: 0 <= i < |lines| && (p == Point(lines[i].x1, lines[i].y1) || p == Point(lines[i].x2, lines[i].y2)))
              || (exists i: nat, j: nat :: CrossAt(lines, cross, i, j, p))
  {
    EndPointsIn(lines, p);
    CrossPointsSpec(lines, cross, p);
  }

  /** b holds the due breaks e in order: the same parameters, at nodes with the crossing points' keys. */
  ghost predicate AtHits(b: seq<Break>, e: seq<Hit>, nodes: seq<Point>, quantize: (real, real) -> QKey)
  {
    |b| == |e| && forall m :: 0 <= m < |b| ==>
      && b[m].t == e[m].t && b[m].node < |nodes|
      && quantize(nodes[b[m].node].x, nodes[b[m].node].y) == quantize(e[m].at.x, e[m].at.y)
  }

  /** b extends b0 by exactly the due breaks e. */
  ghost predicate CrossedBy(b0: seq<Break>, b: seq<Break>, e: seq<Hit>, nodes: seq<Point>, quantize: (real, real) -> QKey)
  {
    b0 <= b && AtHits(b[|b0|..], e, nodes, quantize)
  }

  /** Appending breaks due next keeps the match, also over a grown node list. */
  lemma CrossedStep(b0: seq<Break>, b: seq<Break>, e: seq<Hit>, nodes: seq<Point>, nodes': seq<Point>,
                    extra: seq<Break>, e': seq<Hit>, quantize: (real, real) -> QKey)
    requires CrossedBy(b0, b, e, nodes, quantize) && nodes <= nodes' && AtHits(extra, e', nodes', quantize)
    ensures CrossedBy(b0, b + extra, e + e', nodes', quantize)
  {
    var tail := (b + extra)[|b0|..];
    assert tail == b[|b0|..] + extra;
    forall m | 0 <= m < |tail|
      ensures tail[m].t == (e + e')[m].t && tail[m].node < |nodes'|
      ensures quantize(nodes'[tail[m].node].x, nodes'[tail[m].node].y) == quantize((e + e')[m].at.x, (e + e')[m].at.y)
    {
      if m < |e| {
        assert tail[m] == b[|b0|..][m] && (e + e')[m] == e[m];
        assert nodes'[tail[m].node] == nodes[tail[m].node];
      } else {
        assert tail[m] == extra[m - |e|] && (e + e')[m] == e'[m - |e|];
      }
    }
  }

  /**
   * One crossing of lines i and j inside both: a node for the crossing
   * point, and a break at it on each of the two lines.
   */
  method AddCrossing(reg: IntersectionRegistry, nodes: seq<Point>, perLine: seq<seq<Break>>,
                     i: nat, j: nat, c: Crossing, quantize: (real, real) -> QKey)
    returns (nd: nat, nodes': seq<Point>, perLine': seq<seq<Break>>)
    requires Registered(reg.entries, nodes, quantize) && AllBreaksBelow(perLine, |nodes|)
    requires i < j < |perLine| && 0.0 < c.t1 < 1.0 && 0.0 < c.t2 < 1.0
    modifies reg
    ensures Registered(reg.entries, nodes', quantize) && nodes' == Insert(nodes, Point(c.x, c.y), quantize) && nodes <= nodes'
    ensures nd < |nodes'| && quantize(nodes'[nd].x, nodes'[nd].y) == quantize(c.x, c.y)
    ensures perLine' == perLine[i := perLine[i] + [Break(c.t1, nd)]][j := perLine[j] + [Break(c.t2, nd)]]
    ensures AllBreaksBelow(perLine', |nodes'|)
    ensures forall k {:trigger Grown(perLine[k], perLine'[k])} :: 0 <= k < |perLine| ==> Grown(perLine[k], perLine'[k])
  {
    nd, nodes' := Register(reg, c.x, c.y, nodes, quantize);
    perLine' := perLine[i := perLine[i] + [Break(c.t1, nd)]][j := perLine[j] + [Break(c.t2, nd)]];
    forall k | 0 <= k < |perLine'| ensures BreaksBelow(perLine'[k], |nodes'|) {
      assert BreaksBelow(perLine[k], |nodes|);
    }
  }

  /**
   * What the crossing pass keeps: the registry indexes the grown node list,
   * every break names a node, and each line's breaks extend its endpoint
   * breaks by interior breaks only.
   */
  ghost predicate PassState(entries: seq<Entry>, lines: seq<Line>, nodes0: seq<Point>, perLine0: seq<seq<Break>>,
                            nodes: seq<Point>, perLine: seq<seq<Break>>, quantize: (real, real) -> QKey)
  {
    && Registered(entries, nodes, quantize) && nodes0 <= nodes
    && |perLine0| == |lines| && |perLine| == |lines| && AllBreaksBelow(perLine, |nodes|)
    && forall k {:trigger Grown(perLine0[k], perLine[k])} :: 0 <= k < |lines| ==> Grown(perLine0[k], perLine[k])
  }

  /** Each line has received exactly the breaks due from the pairs before (i, j), in order. */
  ghost predicate DueSoFar(lines: seq<Line>, cross: (Line, Line) -> Option<Crossing>, perLine0: seq<seq<Break>>,
                           perLine: seq<seq<Break>>, nodes: seq<Point>, quantize: (real, real) -> QKey, i: nat, j: nat)
    requires i < |lines| && j <= |lines| && |perLine0| == |lines| && |perLine| == |lines|
  {
    forall k :: 0 <= k < |lines| ==> DueAt(lines, cross, perLine0[k], perLine[k], nodes, quantize, k, i, j)
  }

  /** Line k, whose breaks were b0 before the pass, has received the breaks due before pair (i, j). */
  ghost predicate DueAt(lines: seq<Line>, cross: (Line, Line) -> Option<Crossing>, b0: seq<Break>, b: seq<Break>,
                        nodes: seq<Point>, quantize: (real, real) -> QKey, k: nat, i: nat, j: nat)
    requires i < |lines| && j <= |lines|
  {
    CrossedBy(b0, b, HitsBefore(lines, cross, k, i) + RowHits(lines, cross, k, i, j), nodes, quantize)
  }

  /** An accepted crossing of lines i and j gives line k the break due to it from that pair. */
  lemma AcceptedLine(lines: seq<Line>, cross: (Line, Line) -> Option<Crossing>, b0: seq<Break>, before: seq<Break>,
                     nodesBefore: seq<Point>, after: seq<Break>, nodes: seq<Point>, quantize: (real, real) -> QKey,
                     k: nat, i: nat, j: nat, c: Crossing, nd: nat)
    requires i < j < |lines| && Accepted(lines, cross, i, j) == Some(c)
    requires CrossedBy(b0, before, HitsBefore(lines, cross, k, i) + RowHits(lines, cross, k, i, j), nodesBefore, quantize)
    requires nodesBefore <= nodes && nd < |nodes| && quantize(nodes[nd].x, nodes[nd].y) == quantize(c.x, c.y)
    requires after == before + (if k == i then [Break(c.t1, nd)] else if k == j then [Break(c.t2, nd)] else [])
    ensures CrossedBy(b0, after, HitsBefore(lines, cross, k, i) + RowHits(lines, cross, k, i, j + 1), nodes, quantize)
  {
    var e := HitsBefore(lines, cross, k, i) + RowHits(lines, cross, k, i, j);
    assert e + PairHits(lines, cross, k, i, j) == HitsBefore(lines, cross, k, i) + RowHits(lines, cross, k, i, j + 1);
    if k == i {
      CrossedStep(b0, before, e, nodesBefore, nodes, [Break(c.t1, nd)], [Hit(c.t1, c)], quantize);
    } else if k == j {
      CrossedStep(b0, before, e, nodesBefore, nodes, [Break(c.t2, nd)], [Hit(c.t2, c)], quantize);
    } else {
      CrossedStep(b0, before, e, nodesBefore, nodes, [], [], quantize);
    }
  }

  /** An accepted crossing of lines i and j gives each of them its break and no other line any. */
  lemma AcceptedDue(lines: seq<Line>, cross: (Line, Line) -> Option<Crossing>, perLine0: seq<seq<Break>>,
                    before: seq<seq<Break>>, nodesBefore: seq<Point>, perLine: seq<seq<Break>>, nodes: seq<Point>,
                    quantize: (real, real) -> QKey, i: nat, j: nat, c: Crossing, nd: nat)
    requires i < j < |lines| && |perLine0| == |lines| && |before| == |lines| && Accepted(lines, cross, i, j) == Some(c)
    requires DueSoFar(lines, cross, perLine0, before, nodesBefore, quantize, i, j) && nodesBefore <= nodes
    requires perLine == before[i := before[i] + [Break(c.t1, nd)]][j := before[j] + [Break(c.t2, nd)]]
    requires nd < |nodes| && quantize(nodes[nd].x, nodes[nd].y) == quantize(c.x, c.y)
    ensures DueSoFar(lines, cross, perLine0, perLine, nodes, quantize, i, j + 1)
  {
    forall k | 0 <= k < |lines|
      ensures CrossedBy(perLine0[k], perLine[k], HitsBefore(lines, cross, k, i) + RowHits(lines, cross, k, i, j + 1), nodes, quantize)
    {
      assert CrossedBy(perLine0[k], before[k], HitsBefore(lines, cross, k, i) + RowHits(lines, cross, k, i, j), nodesBefore, quantize);
      assert perLine[k] == before[k] + (if k == i then [Break(c.t1, nd)] else if k == j then [Break(c.t2, nd)] else []);
      AcceptedLine(lines, cross, perLine0[k], before[k], nodesBefore, perLine[k], nodes, quantize, k, i, j, c, nd);
    }
  }

  /** A pair without an accepted crossing gives no line a break. */
  lemma RejectedDue(lines: seq<Line>, cross: (Line, Line) -> Option<Crossing>, perLine0: seq<seq<Break>>,
                    perLine: seq<seq<Break>>, nodes: seq<Point>, quantize: (real, real) -> QKey, i: nat, j: nat)
    requires i < j < |lines| && |perLine0| == |lines| && |perLine| == |lines| && Accepted(lines, cross, i, j).None?
    requires DueSoFar(lines, cross, perLine0, perLine, nodes, quantize, i, j)
    ensures DueSoFar(lines, cross, perLine0, perLine, nodes, quantize, i, j + 1)
  {
    forall k | 0 <= k < |lines|
      ensures CrossedBy(perLine0[k], perLine[k], HitsBefore(lines, cross, k, i) + RowHits(lines, cross, k, i, j + 1), nodes, quantize)
    {
      assert PairHits(lines, cross, k, i, j) == [];
      assert HitsBefore(lines, cross, k, i) + RowHits(lines, cross, k, i, j) + []
          == HitsBefore(lines, cross, k, i) + RowHits(lines, cross, k, i, j + 1);
    }
  }

  /** The node list holds nodes0 and then the registration of the points of the pairs before (i, j). */
  ghost predicate NodesSoFar(lines: seq<Line>, cross: (Line, Line) -> Option<Crossing>, nodes0: seq<Point>,
                             nodes: seq<Point>, quantize: (real, real) -> QKey, i: nat, j: nat)
    requires i < |lines| && j <= |lines|
  {
    nodes == Registration(nodes0, PointsBefore(lines, cross, i) + RowPoints(lines, cross, i, j), quantize)
  }

  /** The node list holds nodes0 and then the registration of the points of the rows below i. */
  ghost predicate NodesBefore(lines: seq<Line>, cross: (Line, Line) -> Option<Crossing>, nodes0: seq<Point>,
                              nodes: seq<Point>, quantize: (real, real) -> QKey, i: nat)
    requires i <= |lines|
  {
    nodes == Registration(nodes0, PointsBefore(lines, cross, i), quantize)
  }

  /** An accepted crossing registers its point next. */
  lemma NodesAccepted(lines: seq<Line>, cross: (Line, Line) -> Option<Crossing>, nodes0: seq<Point>,
                      nodes1: seq<Point>, nodes: seq<Point>, quantize: (real, real) -> QKey, i: nat, j: nat, c: Crossing)
    requires i < j < |lines| && Accepted(lines, cross, i, j) == Some(c)
    requires NodesSoFar(lines, cross, nodes0, nodes1, quantize, i, j) && nodes == Insert(nodes1, Point(c.x, c.y), quantize)
    ensures NodesSoFar(lines, cross, nodes0, nodes, quantize, i, j + 1)
  {
    var ps := PointsBefore(lines, cross, i) + RowPoints(lines, cross, i, j);
    assert PointsBefore(lines, cross, i) + RowPoints(lines, cross, i, j + 1) == ps + [Point(c.x, c.y)];
    RegistrationSnoc(nodes0, ps, Point(c.x, c.y), quantize);
  }

  /** A pair without an accepted crossing registers nothing. */
  lemma NodesRejected(lines: seq<Line>, cross: (Line, Line) -> Option<Crossing>, nodes0: seq<Point>,
                      nodes: seq<Point>, quantize: (real, real) -> QKey, i: nat, j: nat)
    requires i < j < |lines| && Accepted(lines, cross, i, j).None?
    requires NodesSoFar(lines, cross, nodes0, nodes, quantize, i, j)
    ensures NodesSoFar(lines, cross, nodes0, nodes, quantize, i, j + 1)
  {
    assert PairPoints(lines, cross, i, j) == [];
    assert RowPoints(lines, cross, i, j + 1) == RowPoints(lines, cross, i, j) + [];
    assert PointsBefore(lines, cross, i) + RowPoints(lines, cross, i, j + 1)
        == PointsBefore(lines, cross, i) + RowPoints(lines, cross, i, j);
  }

  /** The crossing pass before pair (i, j): its state, the breaks due so far, the points registered so far. */
  ghost predicate PairState(entries: seq<Entry>, lines: seq<Line>, cross: (Line, Line) -> Option<Crossing>,
                            nodes0: seq<Point>, perLine0: seq<seq<Break>>, nodes: seq<Point>, perLine: seq<seq<Break>>,
                            quantize: (real, real) -> QKey, i: nat, j: nat)
    requires i < |lines| && j <= |lines|
  {
    && PassState(entries, lines, nodes0, perLine0, nodes, perLine, quantize)
    && DueSoFar(lines, cross, perLine0, perLine, nodes, quantize, i, j)
    && NodesSoFar(lines, cross, nodes0, nodes, quantize, i, j)
  }

  /** The crossing pass before row i: its state, the breaks due so far, the points registered so far. */
  ghost predicate RowState(entries: seq<Entry>, lines: seq<Line>, cross: (Line, Line) -> Option<Crossing>,
                           nodes0: seq<Point>, perLine0: seq<seq<Break>>, nodes: seq<Point>, perLine: seq<seq<Break>>,
                           quantize: (real, real) -> QKey, i: nat)
    requires i <= |lines|
  {
    && PassState(entries, lines, nodes0, perLine0, nodes, perLine, quantize)
    && DueBefore(lines, cross, perLine0, perLine, nodes, quantize, i)
    && NodesBefore(lines, cross, nodes0, nodes, quantize, i)
  }

  /** The facts after pair (i, j), gathered for the next pair. */
  lemma PairDone(entries: seq<Entry>, lines: seq<Line>, cross: (Line, Line) -> Option<Crossing>,
                 nodes0: seq<Point>, perLine0: seq<seq<Break>>, nodes: seq<Point>, perLine: seq<seq<Break>>,
                 quantize: (real, real) -> QKey, i: nat, j: nat, next: nat)
    requires i < j < |lines| && next == j + 1 && PassState(entries, lines, nodes0, perLine0, nodes, perLine, quantize)
    requires DueSoFar(lines, cross, perLine0, perLine, nodes, quantize, i, j + 1)
    requires NodesSoFar(lines, cross, nodes0, nodes, quantize, i, j + 1)
    ensures PairState(entries, lines, cross, nodes0, perLine0, nodes, perLine, quantize, i, next)
  {
    assert NodesSoFar(lines, cross, nodes0, nodes, quantize, i, next);
    assert DueSoFar(lines, cross, perLine0, perLine, nodes, quantize, i, next);
  }

  /** One pair of the crossing pass: a crossing strictly inside both lines adds a node and two breaks. */
  method CrossingPair(reg: IntersectionRegistry, lines: seq<Line>, nodes0: seq<Point>, perLine0: seq<seq<Break>>,
                      nodes1: seq<Point>, perLine1: seq<seq<Break>>, i: nat, j: nat,
                      quantize: (real, real) -> QKey, cross: (Line, Line) -> Option<Crossing>)
    returns (nodes: seq<Point>, perLine: seq<seq<Break>>, next: nat)
    requires i < j < |lines| && PairState(reg.entries, lines, cross, nodes0, perLine0, nodes1, perLine1, quantize, i, j)
    modifies reg
    ensures next == j + 1 && PairState(reg.entries, lines, cross, nodes0, perLine0, nodes, perLine, quantize, i, next)
  {
    nodes, perLine, next := nodes1, perLine1, j + 1;
    match cross(lines[i], lines[j]) {
      case Some(c) =>
        if 0.0 < c.t1 < 1.0 && 0.0 < c.t2 < 1.0 {
          var nd;
          nd, nodes, perLine := AddCrossing(reg, nodes1, perLine1, i, j, c, quantize);
          forall k | 0 <= k < |lines| ensures Grown(perLine0[k], perLine[k]) {
            GrownTrans(perLine0[k], perLine1[k], perLine[k]);
          }
          AcceptedDue(lines, cross, perLine0, perLine1, nodes1, perLine, nodes, quantize, i, j, c, nd);
          NodesAccepted(lines, cross, nodes0, nodes1, nodes, quantize, i, j, c);
        } else {
          RejectedDue(lines, cross, perLine0, perLine, nodes, quantize, i, j);
          NodesRejected(lines, cross, nodes0, nodes, quantize, i, j);
        }
      case None =>
        RejectedDue(lines, cross, perLine0, perLine, nodes, quantize, i, j);
        NodesRejected(lines, cross, nodes0, nodes, quantize, i, j);
    }
    PairDone(reg.entries, lines, cross, nodes0, perLine0, nodes, perLine, quantize, i, j, next);
  }

  /** Each line has received exactly the breaks due from the pairs whose first line is below i. */
  ghost predicate DueBefore(lines: seq<Line>, cross: (Line, Line) -> Option<Crossing>, perLine0: seq<seq<Break>>,
                            perLine: seq<seq<Break>>, nodes: seq<Point>, quantize: (real, real) -> QKey, i: nat)
    requires i <= |lines| && |perLine0| == |lines| && |perLine| == |lines|
  {
    forall k :: 0 <= k < |lines| ==> DueAtStart(lines, cross, perLine0[k], perLine[k], nodes, quantize, k, i)
  }

  /** Line k, whose breaks were b0 before the pass, has received the breaks due before row i. */
  ghost predicate DueAtStart(lines: seq<Line>, cross: (Line, Line) -> Option<Crossing>, b0: seq<Break>, b: seq<Break>,
                             nodes: seq<Point>, quantize: (real, real) -> QKey, k: nat, i: nat)
    requires i <= |lines|
  {
    CrossedBy(b0, b, HitsBefore(lines, cross, k, i), nodes, quantize)
  }

  /** Before any pair, no line is due a break. */
  lemma NoneDue(lines: seq<Line>, cross: (Line, Line) -> Option<Crossing>, perLine0: seq<seq<Break>>,
                nodes: seq<Point>, quantize: (real, real) -> QKey)
    requires |perLine0| == |lines|
    ensures DueBefore(lines, cross, perLine0, perLine0, nodes, quantize, 0)
  {
    forall k | 0 <= k < |lines| ensures CrossedBy(perLine0[k], perLine0[k], HitsBefore(lines, cross, k, 0), nodes, quantize) {
      assert perLine0[k][|perLine0[k]|..] == [];
    }
  }

  /** Row i starts with what the rows before it gave. */
  lemma RowStart(lines: seq<Line>, cross: (Line, Line) -> Option<Crossing>, perLine0: seq<seq<Break>>,
                 perLine: seq<seq<Break>>, nodes: seq<Point>, quantize: (real, real) -> QKey, i: nat)
    requires i < |lines| && |perLine0| == |lines| && |perLine| == |lines|
    requires DueBefore(lines, cross, perLine0, perLine, nodes, quantize, i)
    ensures DueSoFar(lines, cross, perLine0, perLine, nodes, quantize, i, i + 1)
  {
    forall k | 0 <= k < |lines|
      ensures CrossedBy(perLine0[k], perLine[k], HitsBefore(lines, cross, k, i) + RowHits(lines, cross, k, i, i + 1), nodes, quantize)
    {
      assert HitsBefore(lines, cross, k, i) + RowHits(lines, cross, k, i, i + 1) == HitsBefore(lines, cross, k, i);
    }
  }

  /** A finished row i leaves each line with what the rows up to i give. */
  lemma RowEnd(lines: seq<Line>, cross: (Line, Line) -> Option<Crossing>, perLine0: seq<seq<Break>>,
               perLine: seq<seq<Break>>, nodes: seq<Point>, quantize: (real, real) -> QKey, i: nat)
    requires i < |lines| && |perLine0| == |lines| && |perLine| == |lines|
    requires DueSoFar(lines, cross, perLine0, perLine, nodes, quantize, i, |lines|)
    ensures DueBefore(lines, cross, perLine0, perLine, nodes, quantize, i + 1)
  {
    forall k | 0 <= k < |lines| ensures CrossedBy(perLine0[k], perLine[k], HitsBefore(lines, cross, k, i + 1), nodes, quantize) {
      assert HitsBefore(lines, cross, k, i) + RowHits(lines, cross, k, i, |lines|) == HitsBefore(lines, cross, k, i + 1);
    }
  }

  /** Row i starts with the points of the rows before it. */
  lemma NodesRowStart(lines: seq<Line>, cross: (Line, Line) -> Option<Crossing>, nodes0: seq<Point>,
                      nodes: seq<Point>, quantize: (real, real) -> QKey, i: nat)
    requires i < |lines| && NodesBefore(lines, cross, nodes0, nodes, quantize, i)
    ensures NodesSoFar(lines, cross, nodes0, nodes, quantize, i, i + 1)
  {
    assert PointsBefore(lines, cross, i) + RowPoints(lines, cross, i, i + 1) == PointsBefore(lines, cross, i);
  }

  /** A finished row i has registered the points of the rows up to i. */
  lemma NodesRowEnd(lines: seq<Line>, cross: (Line, Line) -> Option<Crossing>, nodes0: seq<Point>,
                    nodes: seq<Point>, quantize: (real, real) -> QKey, i: nat)
    requires i < |lines| && NodesSoFar(lines, cross, nodes0, nodes, quantize, i, |lines|)
    ensures NodesBefore(lines, cross, nodes0, nodes, quantize, i + 1)
  {
  }

  /** The inner loop of the crossing pass: line i against every later line j. */
  method CrossingRow(reg: IntersectionRegistry, lines: seq<Line>, nodes0: seq<Point>, perLine0: seq<seq<Break>>,
                     nodes1: seq<Point>, perLine1: seq<seq<Break>>, i: nat,
                     quantize: (real, real) -> QKey, cross: (Line, Line) -> Option<Crossing>)
    returns (nodes: seq<Point>, perLine: seq<seq<Break>>)
    requires i < |lines| && RowState(reg.entries, lines, cross, nodes0, perLine0, nodes1, perLine1, quantize, i)
    modifies reg
    ensures RowState(reg.entries, lines, cross, nodes0, perLine0, nodes, perLine, quantize, i + 1)
  {
    nodes, perLine := nodes1, perLine1;
    RowStart(lines, cross, perLine0, perLine, nodes, quantize, i);
    NodesRowStart(lines, cross, nodes0, nodes, quantize, i);
    var j := i + 1;
    while j < |lines|
      invariant i < j <= |lines| && PairState(reg.entries, lines, cross, nodes0, perLine0, nodes, perLine, quantize, i, j)
    {
      nodes, perLine, j := CrossingPair(reg, lines, nodes0, perLine0, nodes, perLine, i, j, quantize, cross);
    }
    RowEnd(lines, cross, perLine0, perLine, nodes, quantize, i);
    NodesRowEnd(lines, cross, nodes0, nodes, quantize, i);
  }

  /**
   * The crossing loop over all pairs i < j of lines: a crossing strictly
   * inside both lines adds a shared node and a break on each line, so each
   * line ends up with exactly its due breaks, and the node list with the
   * crossing points registered, in the order the pairs are visited.
   */
  method Crossings(reg: IntersectionRegistry, lines: seq<Line>, nodes0: seq<Point>, perLine0: seq<seq<Break>>,
                   quantize: (real, real) -> QKey, cross: (Line, Line) -> Option<Crossing>)
    returns (nodes: seq<Point>, perLine: seq<seq<Break>>)
    requires Registered(reg.entries, nodes0, quantize)
    requires |perLine0| == |lines| && AllBreaksBelow(perLine0, |nodes0|)
    modifies reg
    ensures Registered(reg.entries, nodes, quantize) && nodes0 <= nodes
    ensures |perLine| == |lines| && AllBreaksBelow(perLine, |nodes|)
    ensures forall k {:trigger Grown(perLine0[k], perLine[k])} :: 0 <= k < |lines| ==> Grown(perLine0[k], perLine[k])
    ensures forall k {:trigger perLine[k]} :: 0 <= k < |lines| ==>
              CrossedBy(perLine0[k], perLine[k], LineHits(lines, cross, k), nodes, quantize)
    ensures nodes == Registration(nodes0, CrossPoints(lines, cross), quantize)
  {
    nodes, perLine := nodes0, perLine0;
    NoneDue(lines, cross, perLine0, nodes, quantize);
    var i := 0;
    while i < |lines|
      invariant i <= |lines| && RowState(reg.entries, lines, cross, nodes0, perLine0, nodes, perLine, quantize, i)
    {
      nodes, perLine := CrossingRow(reg, lines, nodes0, perLine0, nodes, perLine, i, quantize, cross);
      i := i + 1;
    }
  }

  // ---------------------------------------------------------------------
  // Segments

  /** The compaction loop: consecutive breaks with the same node are dropped. */
  method Compact(s: seq<Break>) returns (c: seq<Break>)
    ensures c == Dedup(s) && NoAdjacentDup(c)
  {
    c := [];
    var i := 0;
    while i < |s|
      invariant i <= |s| && c == Dedup(s[..i])
    {
      assert s[..i + 1][..i] == s[..i];
      if |c| == 0 || c[|c| - 1].node != s[i].node {
        c := c + [s[i]];
      }
      i := i + 1;
    }
    assert s[..i] == s;
    DedupSpec(s);
  }

  /** The emission loop: a segment for each pair of consecutive breaks with different nodes. */
  method Emit(c: seq<Break>) returns (segs: seq<Seg>)
    requires |c| >= 2
    ensures segs == Chain(c)
  {
    segs := [];
    var k := 0;
    while k < |c| - 1
      invariant k <= |c| - 1 && segs == Chain(c[..k + 1])
    {
      assert c[..k + 2][..k + 1] == c[..k + 1];
      var a, b := c[k].node, c[k + 1].node;
      if a != b {
        segs := segs + [Seg(a, b)];
      }
      k := k + 1;
    }
    assert c[..k + 1] == c;
  }

  /** The segments of one line: sort by parameter, compact, emit. */
  method LineSegments(breaks: seq<Break>) returns (segs: seq<Seg>)
    ensures segs == LineSegs(breaks)
  {
    if |breaks| < 2 {
      return [];
    }
    var sorted := SortByT(breaks);
    var compact := Compact(sorted);
    if |compact| < 2 {
      return [];
    }
    segs := Emit(compact);
  }

  /** Segments of all lines in line order; each joins two distinct existing nodes. */
  method BuildSegments(perLine: seq<seq<Break>>, n: nat) returns (segs: seq<Seg>)
    requires AllBreaksBelow(perLine, n)
    ensures segs == AllSegs(perLine) && SegsValid(segs, n)
  {
    segs := [];
    var i := 0;
    while i < |perLine|
      invariant i <= |perLine| && segs == AllSegs(perLine[..i]) && SegsValid(segs, n)
    {
      assert perLine[..i + 1][..i] == perLine[..i];
      assert BreaksBelow(perLine[i], n);
      var line := LineSegments(perLine[i]);
      LineSegsValid(perLine[i], n);
      segs := segs + line;
      i := i + 1;
    }
    assert perLine[..i] == perLine;
  }

  // ---------------------------------------------------------------------
  // Half-edges and adjacency

  /** Two half-edges per segment, a to b first. */
  method BuildHalfEdges(segs: seq<Seg>) returns (hes: seq<HalfEdge>)
    ensures HalfEdgesOf(segs, hes)
  {
    hes := [];
    var k := 0;
    while k < |segs|
      invariant k <= |segs| && HalfEdgesOf(segs[..k], hes)
    {
      var seg := segs[k];
      hes := hes + [HalfEdge(seg.a, seg.b, k), HalfEdge(seg.b, seg.a, k)];
      k := k + 1;
      assert forall m :: 0 <= m < k ==> segs[..k][m] == segs[m];
    }
    assert segs[..k] == segs;
  }

  /** Node v's incidence list is Incident(segs, v), for every node. */
  predicate SectorsOf(segs: seq<Seg>, n: nat, ns: seq<seq<nat>>)
  {
    |ns| == n && forall v :: 0 <= v < n ==> ns[v] == Incident(segs, v)
  }

  /** Listing segment i extends the incidence lists of the first i segments by i at each of its ends. */
  lemma IncidentNext(segs: seq<Seg>, i: nat, v: nat)
    requires i < |segs|
    ensures Incident(segs[..i + 1], v)
         == Incident(segs[..i], v) + (if segs[i].a == v then [i] else []) + (if segs[i].b == v then [i] else [])
  {
    assert segs[..i + 1][..i] == segs[..i];
  }

  /** The node_sectors loop: every segment is listed at each of its (in-range) ends. */
  method BuildNodeSectors(n: nat, segs: seq<Seg>) returns (ns: seq<seq<nat>>)
    ensures SectorsOf(segs, n, ns)
  {
    ns := seq(n, _ => []);
    var i := 0;
    while i < |segs|
      invariant i <= |segs| && SectorsOf(segs[..i], n, ns)
    {
      var seg := segs[i];
      ghost var before := ns;
      if seg.a < |ns| {
        ns := ns[seg.a := ns[seg.a] + [i]];
      }
      if seg.b < |ns| {
        ns := ns[seg.b := ns[seg.b] + [i]];
      }
      forall v | 0 <= v < n ensures ns[v] == Incident(segs[..i + 1], v) {
        IncidentNext(segs, i, v);
      }
      i := i + 1;
    }
    assert segs[..i] == segs;
  }

  /** Node v's outgoing list is OutOf(hes, v), for every node. */
  predicate OutgoingOf(hes: seq<HalfEdge>, n: nat, out: seq<seq<nat>>)
  {
    |out| == n && forall v :: 0 <= v < n ==> out[v] == OutOf(hes, v)
  }

  /** The outgoing loop: every half-edge is listed at the node it leaves. */
  method BuildOutgoing(n: nat, hes: seq<HalfEdge>) returns (out: seq<seq<nat>>)
    requires forall i :: 0 <= i < |hes| ==> hes[i].from < n
    ensures OutgoingOf(hes, n, out)
  {
    out := seq(n, _ => []);
    var i := 0;
    while i < |hes|
      invariant i <= |hes| && OutgoingOf(hes[..i], n, out)
    {
      assert hes[..i + 1][..i] == hes[..i];
      out := out[hes[i].from := out[hes[i].from] + [i]];
      i := i + 1;
    }
    assert hes[..i] == hes;
  }

  // ---------------------------------------------------------------------
  // Leaf stripping

  /**
   * What the leaf-stripping loop keeps: every queued node is a node with
   * effective degree at most one, every allowed node of effective degree at
   * most one is queued, a disallowed node has effective degree at most one,
   * and effective degrees never exceed the degrees.
   */
  ghost predicate StripInv(n: nat, degree: seq<nat>, eff: seq<nat>, allow: seq<bool>, queue: seq<nat>)
  {
    && |degree| == n && |eff| == n && |allow| == n
    && (forall q :: q in queue ==> q < n && eff[q] <= 1)
    && (forall v :: 0 <= v < n && allow[v] && eff[v] <= 1 ==> v in queue)
    && (forall v :: 0 <= v < n && !allow[v] ==> eff[v] <= 1)
    && (forall v :: 0 <= v < n ==> eff[v] <= degree[v])
  }

  /** The node list has n entries; every half-edge listed arrives at one of them. */
  predicate Adjacency(n: nat, out: seq<seq<nat>>, hes: seq<HalfEdge>)
  {
    && |out| == n
    && (forall v, k :: 0 <= v < n && 0 <= k < |out[v]| ==> out[v][k] < |hes|)
    && (forall i :: 0 <= i < |hes| ==> hes[i].to < n)
  }

  /** a - b, stopping at zero (the guarded decrement of the effective degree). */
  function Monus(a: nat, b: nat): nat
  {
    if a >= b then a - b else 0
  }

  /** How many of the listed half-edges arrive at v. */
  function Arrivals(outs: seq<nat>, hes: seq<HalfEdge>, v: nat): nat
  {
    if |outs| == 0 then 0
    else
      var h := outs[|outs| - 1];
      Arrivals(outs[..|outs| - 1], hes, v) + (if h < |hes| && hes[h].to == v then 1 else 0)
  }

  /** The half-edges arriving at v from the outgoing lists of the nodes below m that s leaves out. */
  function InflowBelow(out: seq<seq<nat>>, hes: seq<HalfEdge>, s: seq<bool>, v: nat, m: nat): nat
  {
    if m == 0 then 0
    else
      InflowBelow(out, hes, s, v, m - 1)
        + (if m - 1 < |out| && m - 1 < |s| && !s[m - 1] then Arrivals(out[m - 1], hes, v) else 0)
  }

  /** The half-edges arriving at v from the nodes outside s. */
  function Inflow(out: seq<seq<nat>>, hes: seq<HalfEdge>, s: seq<bool>, v: nat): nat
  {
    InflowBelow(out, hes, s, v, |out|)
  }

  /** Every node of s is a node of t. */
  predicate Within(s: seq<bool>, t: seq<bool>)
  {
    |s| == |t| && forall v :: 0 <= v < |s| && s[v] ==> t[v]
  }

  /**
   * A set of nodes that leaf stripping can never remove: each member keeps
   * an effective degree of at least two even after every half-edge from a
   * node outside the set has been taken off its degree.
   */
  predicate Sturdy(out: seq<seq<nat>>, hes: seq<HalfEdge>, degree: seq<nat>, s: seq<bool>)
  {
    |s| == |degree| && forall v :: 0 <= v < |s| && s[v] ==> degree[v] >= Inflow(out, hes, s, v) + 2
  }

  /**
   * The outcome of leaf stripping: each node's effective degree is its
   * degree less the half-edges arriving from disallowed nodes (never below
   * zero); a node is allowed exactly when its effective degree is at least
   * two; and every sturdy set of nodes stays allowed.  So the allowed nodes
   * are the largest sturdy set.
   */
  ghost predicate StripOutcome(out: seq<seq<nat>>, hes: seq<HalfEdge>, degree: seq<nat>, eff: seq<nat>, allow: seq<bool>)
  {
    && |eff| == |degree| && |allow| == |degree|
    && (forall v :: 0 <= v < |degree| ==> eff[v] == Monus(degree[v], Inflow(out, hes, allow, v)))
    && (forall v :: 0 <= v < |degree| ==> (allow[v] <==> eff[v] >= 2))
    && (forall s {:trigger Sturdy(out, hes, degree, s)} :: Sturdy(out, hes, degree, s) ==> Within(s, allow))
  }

  /** Leaving out fewer nodes never raises the inflow. */
  lemma {:induction false} InflowMono(out: seq<seq<nat>>, hes: seq<HalfEdge>, s: seq<bool>, t: seq<bool>, v: nat, m: nat)
    requires Within(s, t)
    ensures InflowBelow(out, hes, t, v, m) <= InflowBelow(out, hes, s, v, m)
  {
    if m > 0 {
      InflowMono(out, hes, s, t, v, m - 1);
    }
  }

  /** Leaving out one more node adds the half-edges its list sends to v. */
  lemma {:induction false} InflowClear(out: seq<seq<nat>>, hes: seq<HalfEdge>, s: seq<bool>, u: nat, v: nat, m: nat)
    requires u < |s| && u < |out| && s[u]
    ensures InflowBelow(out, hes, s[u := false], v, m)
         == InflowBelow(out, hes, s, v, m) + (if u < m then Arrivals(out[u], hes, v) else 0)
  {
    if m > 0 {
      InflowClear(out, hes, s, u, v, m - 1);
    }
  }

  /** With every node in s, nothing arrives from outside. */
  lemma {:induction false} InflowNone(out: seq<seq<nat>>, hes: seq<HalfEdge>, s: seq<bool>, v: nat, m: nat)
    requires forall u :: 0 <= u < |s| ==> s[u]
    ensures InflowBelow(out, hes, s, v, m) == 0
  {
    if m > 0 {
      InflowNone(out, hes, s, v, m - 1);
    }
  }

  /** The allowed nodes of a strip outcome form a sturdy set. */
  lemma StripSturdy(out: seq<seq<nat>>, hes: seq<HalfEdge>, degree: seq<nat>, eff: seq<nat>, allow: seq<bool>)
    requires StripOutcome(out, hes, degree, eff, allow)
    ensures Sturdy(out, hes, degree, allow)
  {
    forall v | 0 <= v < |allow| && allow[v] ensures degree[v] >= Inflow(out, hes, allow, v) + 2 {
      assert eff[v] >= 2;
    }
  }

  /** The strip outcome is unique: the flags and the effective degrees are determined by the graph. */
  lemma StripUnique(out: seq<seq<nat>>, hes: seq<HalfEdge>, degree: seq<nat>,
                    eff1: seq<nat>, allow1: seq<bool>, eff2: seq<nat>, allow2: seq<bool>)
    requires StripOutcome(out, hes, degree, eff1, allow1) && StripOutcome(out, hes, degree, eff2, allow2)
    ensures allow1 == allow2 && eff1 == eff2
  {
    StripSturdy(out, hes, degree, eff1, allow1);
    StripSturdy(out, hes, degree, eff2, allow2);
    assert Within(allow1, allow2) && Within(allow2, allow1);
    assert forall v :: 0 <= v < |allow1| ==> allow1[v] == allow2[v];
  }

  /** A queued node (effective degree at most one) belongs to no sturdy set within the allowed nodes. */
  lemma QueuedNotSturdy(out: seq<seq<nat>>, hes: seq<HalfEdge>, degree: seq<nat>, eff: seq<nat>, allow: seq<bool>,
                       s: seq<bool>, u: nat)
    requires |allow| == |degree| && |eff| == |degree| && u < |degree| && eff[u] <= 1
    requires eff[u] == Monus(degree[u], Inflow(out, hes, allow, u))
    requires Sturdy(out, hes, degree, s) && Within(s, allow)
    ensures !s[u]
  {
    InflowMono(out, hes, s, allow, u, |out|);
  }

  /** Degrees from the incidence lists, every node allowed, and the nodes of degree at most one queued. */
  method InitStrip(ns: seq<seq<nat>>) returns (degree: seq<nat>, eff: seq<nat>, allow: seq<bool>, queue: seq<nat>)
    ensures StripInv(|ns|, degree, eff, allow, queue)
    ensures forall v :: 0 <= v < |ns| ==> degree[v] == |ns[v]| && eff[v] == degree[v] && allow[v]
  {
    var n := |ns|;
    degree, eff, allow := seq(n, _ => 0), seq(n, _ => 0), seq(n, _ => true);
    var i := 0;
    while i < n
      invariant i <= n && |degree| == n && |eff| == n && allow == seq(n, _ => true)
      invariant forall v :: 0 <= v < i ==> degree[v] == |ns[v]| && eff[v] == degree[v]
    {
      degree, eff := degree[i := |ns[i]|], eff[i := |ns[i]|];
      i := i + 1;
    }
    queue := [];
    i := 0;
    while i < n
      invariant i <= n
      invariant forall q :: q in queue ==> q < i && eff[q] <= 1
      invariant forall v :: 0 <= v < i && eff[v] <= 1 ==> v in queue
    {
      if eff[i] <= 1 {
        queue := queue + [i];
      }
      i := i + 1;
    }
  }

  /**
   * The neighbour loop for a node just disallowed: every half-edge it lists
   * lowers the effective degree of the node it reaches (never below zero),
   * and a node that falls to one or less is queued.
   */
  method Relax(outs: seq<nat>, hes: seq<HalfEdge>, degree: seq<nat>, eff0: seq<nat>, allow: seq<bool>, queue0: seq<nat>)
    returns (eff: seq<nat>, queue: seq<nat>)
    requires StripInv(|eff0|, degree, eff0, allow, queue0)
    requires forall k :: 0 <= k < |outs| ==> outs[k] < |hes| && hes[outs[k]].to < |eff0|
    ensures StripInv(|eff0|, degree, eff, allow, queue)
    ensures |eff| == |eff0| && forall v :: 0 <= v < |eff| ==> eff[v] == Monus(eff0[v], Arrivals(outs, hes, v))
  {
    eff, queue := eff0, queue0;
    var k := 0;
    while k < |outs|
      invariant k <= |outs| && StripInv(|eff0|, degree, eff, allow, queue)
      invariant |eff| == |eff0| && forall v :: 0 <= v < |eff| ==> eff[v] == Monus(eff0[v], Arrivals(outs[..k], hes, v))
    {
      assert outs[..k + 1][..k] == outs[..k];
      var nb := hes[outs[k]].to;
      if eff[nb] > 0 {
        eff := eff[nb := eff[nb] - 1];
        if eff[nb] <= 1 {
          queue := queue + [nb];
        }
      }
      k := k + 1;
    }
    assert outs[..k] == outs;
  }

  /**
   * What the leaf-stripping loop keeps beyond StripInv: each effective
   * degree is the degree less the half-edges from disallowed nodes, and no
   * node of a sturdy set is disallowed.
   */
  ghost predicate StripSoFar(out: seq<seq<nat>>, hes: seq<HalfEdge>, degree: seq<nat>, eff: seq<nat>, allow: seq<bool>)
  {
    && |eff| == |degree| && |allow| == |degree|
    && (forall v :: 0 <= v < |degree| ==> eff[v] == Monus(degree[v], Inflow(out, hes, allow, v)))
    && (forall s {:trigger Sturdy(out, hes, degree, s)} :: Sturdy(out, hes, degree, s) ==> Within(s, allow))
  }

  /**
   * One popped node that is still allowed: it is disallowed and its
   * neighbours are relaxed.  Being queued, it has effective degree at most
   * one, so it lies in no sturdy set.
   */
  method Disallow(out: seq<seq<nat>>, hes: seq<HalfEdge>, degree: seq<nat>,
                  eff0: seq<nat>, allow0: seq<bool>, queue0: seq<nat>, nid: nat)
    returns (eff: seq<nat>, allow: seq<bool>, queue: seq<nat>)
    requires Adjacency(|out|, out, hes) && StripInv(|out|, degree, eff0, allow0, queue0 + [nid])
    requires StripSoFar(out, hes, degree, eff0, allow0)
    requires nid < |out| && allow0[nid]
    ensures StripInv(|out|, degree, eff, allow, queue) && StripSoFar(out, hes, degree, eff, allow)
    ensures CountTrue(allow) == CountTrue(allow0) - 1
  {
    var n := |out|;
    assert nid in queue0 + [nid];
    assert forall q :: q in queue0 ==> q in queue0 + [nid];
    forall s | Sturdy(out, hes, degree, s) ensures Within(s, allow0[nid := false]) {
      QueuedNotSturdy(out, hes, degree, eff0, allow0, s, nid);
    }
    forall v | 0 <= v < n
      ensures Inflow(out, hes, allow0[nid := false], v) == Inflow(out, hes, allow0, v) + Arrivals(out[nid], hes, v)
    {
      InflowClear(out, hes, allow0, nid, v, n);
    }
    CountTrueClear(allow0, nid);
    allow := allow0[nid := false];
    // The source guards this with idx < outgoing.len(), which nid < |out| makes always true.
    eff, queue := Relax(out[nid], hes, degree, eff0, allow, queue0);
  }

  /**
   * The leaf-stripping loop: pop a node, skip it if already disallowed,
   * otherwise disallow it and relax its neighbours.  It starts with every
   * node allowed at its full degree, and it ends because each round either
   * disallows a node or shortens the queue.
   */
  method StripLeaves(out: seq<seq<nat>>, hes: seq<HalfEdge>, degree: seq<nat>,
                     eff0: seq<nat>, allow0: seq<bool>, queue0: seq<nat>)
    returns (eff: seq<nat>, allow: seq<bool>)
    requires StripInv(|out|, degree, eff0, allow0, queue0) && Adjacency(|out|, out, hes)
    requires forall v :: 0 <= v < |out| ==> allow0[v] && eff0[v] == degree[v]
    ensures StripOutcome(out, hes, degree, eff, allow)
    ensures forall v :: 0 <= v < |out| ==> eff[v] <= degree[v]
  {
    var n := |out|;
    var queue;
    eff, allow, queue := eff0, allow0, queue0;
    forall v | 0 <= v < n ensures eff[v] == Monus(degree[v], Inflow(out, hes, allow, v)) {
      InflowNone(out, hes, allow, v, n);
    }
    while |queue| > 0
      invariant StripInv(n, degree, eff, allow, queue) && StripSoFar(out, hes, degree, eff, allow)
      decreases CountTrue(allow), |queue|
    {
      var nid := queue[|queue| - 1];
      ghost var q0 := queue;
      queue := queue[..|queue| - 1];
      assert q0 == queue + [nid];
      assert forall q :: q in queue ==> q in q0;
      if nid >= |allow| {
        assert forall q :: q in q0 ==> q in queue || q == nid;
        continue;
      }
      if !allow[nid] {
        assert forall q :: q in q0 ==> q in queue || q == nid;
        continue;
      }
      eff, allow, queue := Disallow(out, hes, degree, eff, allow, queue, nid);
    }
  }

  /**
   * Degrees and leaf stripping: the degrees are the incidence-list lengths,
   * and the flags and effective degrees are the strip outcome, so a node
   * keeps its fill flag exactly when it lies in the largest sturdy set.
   */
  method LeafStrip(ns: seq<seq<nat>>, out: seq<seq<nat>>, hes: seq<HalfEdge>)
    returns (degree: seq<nat>, eff: seq<nat>, allow: seq<bool>)
    requires Adjacency(|ns|, out, hes)
    ensures |degree| == |ns| && forall v :: 0 <= v < |ns| ==> degree[v] == |ns[v]|
    ensures StripOutcome(out, hes, degree, eff, allow)
    ensures forall v :: 0 <= v < |ns| && |ns[v]| <= 1 ==> !allow[v]
  {
    var eff0, allow0, queue;
    degree, eff0, allow0, queue := InitStrip(ns);
    eff, allow := StripLeaves(out, hes, degree, eff0, allow0, queue);
  }

  lemma EndpointsBelow(lines: seq<Line>, nodes: seq<Point>, perLine: seq<seq<Break>>, quantize: (real, real) -> QKey)
    requires EndpointsOf(lines, nodes, perLine, quantize)
    ensures AllBreaksBelow(perLine, |nodes|)
  {
    forall i | 0 <= i < |perLine| ensures BreaksBelow(perLine[i], |nodes|) {
      assert EndpointsAt(lines[i], nodes, perLine[i], quantize);
    }
  }

  /** Both half-edges of a valid segment run between nodes, along that segment. */
  lemma HalfEdgesBelow(n: nat, segs: seq<Seg>, hes: seq<HalfEdge>)
    requires SegsValid(segs, n) && HalfEdgesOf(segs, hes)
    ensures forall i :: 0 <= i < |hes| ==> hes[i].from < n && hes[i].to < n && hes[i].seg < |segs|
  {
    forall i | 0 <= i < |hes| ensures hes[i].from < n && hes[i].to < n && hes[i].seg < |segs| {
      HalfEdgePairs(segs, hes, i);
      assert hes[i].from in {segs[i / 2].a, segs[i / 2].b} && hes[i].to in {segs[i / 2].a, segs[i / 2].b};
    }
  }

  /** Outgoing lists built from half-edges between nodes hold half-edge indices only. */
  lemma OutgoingBelow(n: nat, hes: seq<HalfEdge>, out: seq<seq<nat>>)
    requires OutgoingOf(hes, n, out) && forall i :: 0 <= i < |hes| ==> hes[i].to < n
    ensures Adjacency(n, out, hes)
  {
    forall v, k | 0 <= v < n && 0 <= k < |out[v]| ensures out[v][k] < |hes| {
      OutOfSpec(hes, v);
    }
  }

  /**
   * The breaks of a line once all crossings are in: its start and end nodes
   * at parameters 0 and 1 first, then exactly its due crossing breaks, all
   * interior.
   */
  ghost predicate CutAt(line: Line, hits: seq<Hit>, nodes: seq<Point>, b: seq<Break>, quantize: (real, real) -> QKey)
  {
    && |b| >= 2 && EndpointsAt(line, nodes, b[..2], quantize)
    && AtHits(b[2..], hits, nodes, quantize)
    && forall m :: 2 <= m < |b| ==> 0.0 < b[m].t < 1.0
  }

  ghost predicate CutsOf(lines: seq<Line>, cross: (Line, Line) -> Option<Crossing>, nodes: seq<Point>,
                         perLine: seq<seq<Break>>, quantize: (real, real) -> QKey)
  {
    && |perLine| == |lines|
    && forall i {:trigger CutAt(lines[i], LineHits(lines, cross, i), nodes, perLine[i], quantize)} :: 0 <= i < |lines| ==>
         CutAt(lines[i], LineHits(lines, cross, i), nodes, perLine[i], quantize)
  }

  /** The segments of g are those of the lines cut at their endpoints and at the crossings cross accepts. */
  ghost predicate CutFromLines(lines: seq<Line>, cross: (Line, Line) -> Option<Crossing>, g: FillGraph,
                               quantize: (real, real) -> QKey)
  {
    exists perLine :: CutsOf(lines, cross, g.nodes, perLine, quantize) && g.segments == AllSegs(perLine)
  }

  /** The endpoint breaks, grown by interior breaks over a grown node list, are the cuts of the lines. */
  lemma GrownCuts(lines: seq<Line>, cross: (Line, Line) -> Option<Crossing>, nodes0: seq<Point>, perLine0: seq<seq<Break>>,
                  nodes: seq<Point>, perLine: seq<seq<Break>>, quantize: (real, real) -> QKey)
    requires EndpointsOf(lines, nodes0, perLine0, quantize) && nodes0 <= nodes && |perLine| == |lines|
    requires forall k {:trigger Grown(perLine0[k], perLine[k])} :: 0 <= k < |lines| ==> Grown(perLine0[k], perLine[k])
    requires forall k {:trigger perLine[k]} :: 0 <= k < |lines| ==>
               CrossedBy(perLine0[k], perLine[k], LineHits(lines, cross, k), nodes, quantize)
    ensures CutsOf(lines, cross, nodes, perLine, quantize)
  {
    forall i | 0 <= i < |lines| ensures CutAt(lines[i], LineHits(lines, cross, i), nodes, perLine[i], quantize) {
      assert EndpointsAt(lines[i], nodes0, perLine0[i], quantize);
      assert Grown(perLine0[i], perLine[i]);
      assert CrossedBy(perLine0[i], perLine[i], LineHits(lines, cross, i), nodes, quantize);
      assert perLine[i][..2] == perLine0[i];
      EndpointsGrow(lines[i], nodes0, nodes, perLine0[i], quantize);
    }
  }

  /**
   * What build_fill_graph makes of a list of lines: a graph that passes the
   * fill-graph integrity check, whose nodes have pairwise distinct quantized
   * keys, whose segments are those of the lines cut at their endpoints and
   * at the crossings cross finds strictly inside both lines, whose lists are
   * the half-edge pairs, incidence and outgoing lists of its segments, and
   * node degrees and fill flags that are the outcome of leaf stripping, and
   * whose node list is what registering the endpoints line by line and then
   * the crossings in loop order leaves.
   */
  ghost predicate GraphOf(lines: seq<Line>, quantize: (real, real) -> QKey, cross: (Line, Line) -> Option<Crossing>,
                          g: FillGraph, degree: seq<nat>, eff: seq<nat>, allow: seq<bool>)
  {
    && FillGraphIntegrity(g) && KeysDistinct(g.nodes, quantize)
    && CutFromLines(lines, cross, g, quantize)
    && HalfEdgesOf(g.segments, g.halfEdges)
    && SectorsOf(g.segments, |g.nodes|, g.nodeSectors) && OutgoingOf(g.halfEdges, |g.nodes|, g.outgoing)
    && |degree| == |g.nodes| && |eff| == |g.nodes| && |allow| == |g.nodes|
    && (forall v :: 0 <= v < |g.nodes| ==> degree[v] == |g.nodeSectors[v]|)
    && StripOutcome(g.outgoing, g.halfEdges, degree, eff, allow)
    && g.nodes == Registration([], RegisteredPoints(lines, cross), quantize)
  }

  /** The endpoint pass followed by the crossing pass registers RegisteredPoints. */
  lemma BuiltNodes(lines: seq<Line>, cross: (Line, Line) -> Option<Crossing>, nodes0: seq<Point>, nodes: seq<Point>,
                   quantize: (real, real) -> QKey)
    requires nodes0 == Registration([], EndPoints(lines), quantize)
    requires nodes == Registration(nodes0, CrossPoints(lines, cross), quantize)
    ensures nodes == Registration([], RegisteredPoints(lines, cross), quantize)
  {
    RegistrationAppend([], EndPoints(lines), CrossPoints(lines, cross), quantize);
  }

  /**
   * The nodes of the built graph: each is a registered point, the first
   * with its quantized key, and every registered point has a node with its
   * key.
   */
  lemma GraphNodes(lines: seq<Line>, quantize: (real, real) -> QKey, cross: (Line, Line) -> Option<Crossing>,
                   g: FillGraph, degree: seq<nat>, eff: seq<nat>, allow: seq<bool>)
    requires GraphOf(lines, quantize, cross, g, degree, eff, allow)
    ensures forall v :: 0 <= v < |g.nodes| ==> FirstPointOf([], RegisteredPoints(lines, cross), g.nodes[v], quantize)
    ensures forall p :: p in RegisteredPoints(lines, cross) ==> KeyFound(g.nodes, p, quantize)
  {
    var ps := RegisteredPoints(lines, cross);
    RegistrationGrows([], ps, quantize);
    RegistrationCovers([], ps, quantize);
    forall p | p in ps ensures KeyFound(g.nodes, p, quantize) {
      var k :| 0 <= k < |ps| && ps[k] == p;
    }
  }

  /**
   * build_fill_graph on a list of lines: the graph passes the fill-graph
   * integrity check, its nodes have pairwise distinct quantized keys, its
   * segments are those of the lines cut at their endpoints and at the
   * crossings cross finds strictly inside both lines, its lists are the
   * half-edge pairs, incidence and outgoing lists of its segments, the
   * fill flags are the outcome of leaf stripping, and each node is the
   * first registered point with its quantized key.
   */
  method BuildGraph(lines: seq<Line>, quantize: (real, real) -> QKey, cross: (Line, Line) -> Option<Crossing>)
    returns (g: FillGraph, degree: seq<nat>, eff: seq<nat>, allow: seq<bool>)
    ensures GraphOf(lines, quantize, cross, g, degree, eff, allow)
  {
    var reg := new IntersectionRegistry();
    var nodes0, perLine0 := Endpoints(reg, lines, quantize);
    EndpointsBelow(lines, nodes0, perLine0, quantize);
    var nodes, perLine := Crossings(reg, lines, nodes0, perLine0, quantize, cross);
    BuiltNodes(lines, cross, nodes0, nodes, quantize);
    RegisteredDistinct(reg.entries, nodes, quantize);
    GrownCuts(lines, cross, nodes0, perLine0, nodes, perLine, quantize);
    var n := |nodes|;
    var segs := BuildSegments(perLine, n);
    var hes := BuildHalfEdges(segs);
    var ns := BuildNodeSectors(n, segs);
    HalfEdgesBelow(n, segs, hes);
    var out := BuildOutgoing(n, hes);
    OutgoingBelow(n, hes, out);
    degree, eff, allow := LeafStrip(ns, out, hes);
    g := FillGraph(nodes, segs, hes, out, ns);
  }
}
