// The integrity checks of src/debug_checks.rs as predicates.  The source
// runs them as debug assertions; here they are the properties the build and
// the store are proved to establish.  The finiteness checks on coordinates
// are not stated (coordinates are exact reals in this model).

module DebugChecks {
  import opened Shapes
  import opened GraphModel
  import opened Graph

  /** Every segment joins two distinct existing nodes. */
  predicate SegmentsValid(g: FillGraph)
  {
    forall i :: 0 <= i < |g.segments| ==>
      g.segments[i].a < |g.nodes| && g.segments[i].b < |g.nodes| && g.segments[i].a != g.segments[i].b
  }

  /** Every half-edge runs between existing nodes along an existing segment. */
  predicate HalfEdgesValid(g: FillGraph)
  {
    forall i :: 0 <= i < |g.halfEdges| ==>
      g.halfEdges[i].from < |g.nodes| && g.halfEdges[i].to < |g.nodes| && g.halfEdges[i].seg < |g.segments|
  }

  /** Every outgoing list holds half-edge indices only. */
  predicate OutgoingValid(g: FillGraph)
  {
    forall v, k :: 0 <= v < |g.outgoing| && 0 <= k < |g.outgoing[v]| ==> g.outgoing[v][k] < |g.halfEdges|
  }

  /** check_fill_graph_integrity, without the finiteness check. */
  predicate FillGraphIntegrity(g: FillGraph)
  {
    SegmentsValid(g) && HalfEdgesValid(g) && OutgoingValid(g)
  }

  /** The empty graph that an editor with no lines holds passes the check. */
  lemma EmptyGraphIntegrity()
    ensures FillGraphIntegrity(EmptyGraph)
  {
  }

  /**
   * check_graph_integrity, without the finiteness check: edge endpoints in
   * range, the union-find roots sound, and the odd counts exact.
   */
  ghost predicate GraphIntegrity(store: GraphStore)
    reads store, store.dsu
    requires store.dsu.Valid() && |store.nodes| == |store.dsu.parent|
  {
    && EdgesInRange(store.edges, |store.nodes|)
    && store.CheckDsuIntegrity()
    && store.CheckComponentParity()
  }

  /** A store that keeps its invariant passes check_graph_integrity. */
  lemma StoreIntegrity(store: GraphStore)
    requires store.Valid()
    ensures GraphIntegrity(store)
  {
    store.ValidPassesChecks();
  }
}
