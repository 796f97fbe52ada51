// The geometric values of src/lib.rs: drawn lines, polygon fills, and the
// cut-segment graph (FillGraph) built from the lines.
//
// Coordinates are f32 in the source and exact reals here; they are carried
// and compared for equality but never computed with.  Node, segment and
// half-edge ids are u32 in the source and unbounded naturals here.

module Shapes {

  datatype Line = Line(x1: real, y1: real, x2: real, y2: real)

  datatype Point = Point(x: real, y: real)

  /** An undirected piece of a line between two graph nodes. */
  datatype Seg = Seg(a: nat, b: nat)

  /** One direction of a segment. */
  datatype HalfEdge = HalfEdge(from: nat, to: nat, seg: nat)

  /**
   * The cut-segment graph: nodes, segments, two half-edges per segment,
   * and per node the outgoing half-edges and the incident segments.
   */
  datatype FillGraph = FillGraph(
    nodes: seq<Point>,
    segments: seq<Seg>,
    halfEdges: seq<HalfEdge>,
    outgoing: seq<seq<nat>>,
    nodeSectors: seq<seq<nat>>)

  const EmptyGraph := FillGraph([], [], [], [], [])

  /** An unsigned 32-bit value (Rust's u32), such as an RGBA colour. */
  newtype u32 = x: int | 0 <= x < 0x1_0000_0000

  /** A fill: its outline and an RGBA colour. */
  datatype Polygon = Polygon(points: seq<(real, real)>, color: u32)

  /** Polygon::is_closed: more than two points. */
  predicate IsClosed(p: Polygon)
  {
    |p.points| > 2
  }
}
