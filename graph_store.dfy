// The incremental closed-component tracker of src/graph.rs (GraphStore).
//
// Endpoints are deduplicated through a map from snap keys to node ids, every
// segment raises the degree of its two endpoints and joins their components
// in the union-find, and the union-find keeps, at every representative, the
// number of odd-degree nodes of its component.  A component is closed when
// that number is zero.
//
// The snap key of a point (SnapKey::from_point, a float rounding) is computed
// by the caller and handed in; coordinates are carried as reals and never
// inspected.

module GraphModel {
  import opened UnionFind

  /** Snapped grid key of an endpoint. */
  datatype SnapKey = SnapKey(x: int, y: int)

  datatype Node = Node(key: SnapKey, x: real, y: real, degree: nat)

  datatype Edge = Edge(a: nat, b: nat, x1: real, y1: real, x2: real, y2: real, lineIdx: nat)

  /** Number of edge ends at node v; a self-loop counts twice. */
  function Incidence(edges: seq<Edge>, v: nat): nat
    decreases |edges|
  {
    if |edges| == 0 then 0
    else
      var e := edges[|edges| - 1];
      Incidence(edges[..|edges| - 1], v) + (if e.a == v then 1 else 0) + (if e.b == v then 1 else 0)
  }

  /** The parity of every node's degree, the weights whose class sums are odd counts. */
  function Parities(nodes: seq<Node>): (p: seq<nat>)
    ensures |p| == |nodes|
  {
    seq(|nodes|, i requires 0 <= i < |nodes| => nodes[i].degree % 2)
  }

  predicate EdgesInRange(edges: seq<Edge>, n: nat)
  {
    forall e :: 0 <= e < |edges| ==> edges[e].a < n && edges[e].b < n
  }

  /** Node i is found under its own key. */
  predicate KeyAt(nodes: seq<Node>, m: map<SnapKey, nat>, i: nat)
    requires i < |nodes|
  {
    nodes[i].key in m && m[nodes[i].key] == i
  }

  /** The node map and the node list describe each other: key k is node m[k]. */
  predicate KeysIndexed(nodes: seq<Node>, m: map<SnapKey, nat>)
  {
    && (forall k :: k in m ==> m[k] < |nodes| && nodes[m[k]].key == k)
    && (forall i {:trigger KeyAt(nodes, m, i)} :: 0 <= i < |nodes| ==> KeyAt(nodes, m, i))
  }

  lemma {:induction false} IncidenceAppend(edges: seq<Edge>, e: Edge, v: nat)
    ensures Incidence(edges + [e], v)
            == Incidence(edges, v) + (if e.a == v then 1 else 0) + (if e.b == v then 1 else 0)
  {
    assert (edges + [e])[..|edges|] == edges;
  }

  /** A node that no edge mentions has no incidences. */
  lemma {:induction false} IncidenceAbsent(edges: seq<Edge>, n: nat, v: nat)
    requires EdgesInRange(edges, n) && v >= n
    ensures Incidence(edges, v) == 0
    decreases |edges|
  {
    if |edges| > 0 {
      var init := edges[..|edges| - 1];
      assert EdgesInRange(init, n) by {
        forall e | 0 <= e < |init| ensures init[e].a < n && init[e].b < n {
          assert init[e] == edges[e];
        }
      }
      IncidenceAbsent(init, n, v);
    }
  }

  /** No node of v's component (under the representatives `rep`) has odd degree. */
  predicate ComponentEven(rep: seq<nat>, nodes: seq<Node>, v: nat)
  {
    && |rep| == |nodes| && v < |nodes|
    && forall u :: 0 <= u < |nodes| && rep[u] == rep[v] ==> nodes[u].degree % 2 == 0
  }

  /** The ids below n of the edges whose first endpoint's component is even, ascending. */
  ghost function ClosedIds(rep: seq<nat>, nodes: seq<Node>, edges: seq<Edge>, n: nat): seq<nat>
    requires n <= |edges|
  {
    if n == 0 then []
    else ClosedIds(rep, nodes, edges, n - 1) + (if ComponentEven(rep, nodes, edges[n - 1].a) then [n - 1] else [])
  }

  lemma {:induction false} ClosedIdsSpec(rep: seq<nat>, nodes: seq<Node>, edges: seq<Edge>, n: nat)
    requires n <= |edges|
    ensures forall i :: i in ClosedIds(rep, nodes, edges, n) <==> 0 <= i < n && ComponentEven(rep, nodes, edges[i].a)
    ensures forall j, k :: 0 <= j < k < |ClosedIds(rep, nodes, edges, n)| ==>
              ClosedIds(rep, nodes, edges, n)[j] < ClosedIds(rep, nodes, edges, n)[k]
    ensures forall j :: 0 <= j < |ClosedIds(rep, nodes, edges, n)| ==> ClosedIds(rep, nodes, edges, n)[j] < n
  {
    if n > 0 {
      ClosedIdsSpec(rep, nodes, edges, n - 1);
    }
  }

  /** Node v with one more degree. */
  function Bumped(nodes: seq<Node>, v: nat): (r: seq<Node>)
    requires v < |nodes|
    ensures |r| == |nodes|
    ensures forall u :: 0 <= u < |nodes| ==>
              r[u] == if u == v then nodes[v].(degree := nodes[v].degree + 1) else nodes[u]
  {
    nodes[v := nodes[v].(degree := nodes[v].degree + 1)]
  }

  /**
   * rep1 only merges classes of rep0: every node stays with the
   * representative of its old representative.  With rep0 closed this is the
   * same as "nodes that shared a class still do" (KeptTogether).
   */
  ghost predicate Coarser(rep0: seq<nat>, rep1: seq<nat>)
  {
    && |rep0| <= |rep1|
    && forall u {:trigger rep0[u]} :: 0 <= u < |rep0| ==> rep0[u] < |rep1| && rep1[u] == rep1[rep0[u]]
  }

  lemma KeptTogether(rep0: seq<nat>, rep1: seq<nat>, u: nat, w: nat)
    requires Coarser(rep0, rep1) && u < |rep0| && w < |rep0| && rep0[u] == rep0[w]
    ensures rep1[u] == rep1[w]
  {
  }

  /** Growing by new classes and then merging classes only merges the old classes. */
  lemma PrefixCoarser(rep0: seq<nat>, rep1: seq<nat>, rep2: seq<nat>)
    requires Closed(rep0) && rep0 <= rep1 && Coarser(rep1, rep2)
    ensures Coarser(rep0, rep2)
  {
    forall u | 0 <= u < |rep0| ensures rep0[u] < |rep2| && rep2[u] == rep2[rep0[u]] {
      assert rep1[u] == rep0[u] && rep1[rep0[u]] == rep0[rep0[u]];
    }
  }

  // ---------------------------------------------------------------------
  // Components of the edge list, and merging exactly two classes
  // ---------------------------------------------------------------------

  /**
   * u and w are connected by the edges.  Adding the edges one at a time to
   * an edgeless graph, the last edge joins everything connected to one of
   * its ends with everything connected to the other.
   */
  ghost predicate Connected(edges: seq<Edge>, u: nat, w: nat)
    decreases |edges|
  {
    if |edges| == 0 then u == w
    else
      var prev, e := edges[..|edges| - 1], edges[|edges| - 1];
      || Connected(prev, u, w)
      || ((Connected(prev, u, e.a) || Connected(prev, u, e.b)) && (Connected(prev, w, e.a) || Connected(prev, w, e.b)))
  }

  lemma {:induction false} ConnectedRefl(edges: seq<Edge>, u: nat)
    ensures Connected(edges, u, u)
    decreases |edges|
  {
    if |edges| > 0 {
      ConnectedRefl(edges[..|edges| - 1], u);
    }
  }

  /** The two ends of every edge are connected. */
  lemma {:induction false} ConnectedEdge(edges: seq<Edge>, i: nat)
    requires i < |edges|
    ensures Connected(edges, edges[i].a, edges[i].b)
    decreases |edges|
  {
    var prev := edges[..|edges| - 1];
    if i == |edges| - 1 {
      ConnectedRefl(prev, edges[i].a);
      ConnectedRefl(prev, edges[i].b);
    } else {
      assert prev[i] == edges[i];
      ConnectedEdge(prev, i);
    }
  }

  /**
   * Connected is the finest grouping that keeps every edge inside a group:
   * any labelling that gives both ends of every edge one label gives one
   * label to connected nodes.
   */
  lemma {:induction false} ConnectedLeast(edges: seq<Edge>, lab: seq<nat>, u: nat, w: nat)
    requires EdgesInRange(edges, |lab|) && u < |lab| && w < |lab|
    requires forall i :: 0 <= i < |edges| ==> lab[edges[i].a] == lab[edges[i].b]
    requires Connected(edges, u, w)
    ensures lab[u] == lab[w]
    decreases |edges|
  {
    if |edges| > 0 {
      var prev, e := edges[..|edges| - 1], edges[|edges| - 1];
      assert lab[e.a] == lab[e.b];
      assert forall i :: 0 <= i < |prev| ==> prev[i] == edges[i];
      if Connected(prev, u, w) {
        ConnectedLeast(prev, lab, u, w);
      } else {
        if Connected(prev, u, e.a) { ConnectedLeast(prev, lab, u, e.a); } else { ConnectedLeast(prev, lab, u, e.b); }
        if Connected(prev, w, e.a) { ConnectedLeast(prev, lab, w, e.a); } else { ConnectedLeast(prev, lab, w, e.b); }
      }
    }
  }

  /** A node that no edge touches is connected to itself only. */
  lemma {:induction false} ConnectedFresh(edges: seq<Edge>, n: nat, u: nat, w: nat)
    requires EdgesInRange(edges, n) && (u >= n || w >= n)
    ensures Connected(edges, u, w) <==> u == w
    decreases |edges|
  {
    if |edges| > 0 {
      var prev, e := edges[..|edges| - 1], edges[|edges| - 1];
      assert EdgesInRange(prev, n) by {
        assert forall i :: 0 <= i < |prev| ==> prev[i] == edges[i];
      }
      assert e == edges[|edges| - 1];
      ConnectedFresh(prev, n, u, w);
      if u >= n {
        ConnectedFresh(prev, n, u, e.a);
        ConnectedFresh(prev, n, u, e.b);
      } else {
        ConnectedFresh(prev, n, w, e.a);
        ConnectedFresh(prev, n, w, e.b);
      }
    }
  }

  /** The classes of rep are exactly the connected components of the edges. */
  ghost predicate ClassesExact(edges: seq<Edge>, rep: seq<nat>)
  {
    forall u: nat, w: nat {:trigger Connected(edges, u, w)} ::
      u < |rep| && w < |rep| ==> (rep[u] == rep[w] <==> Connected(edges, u, w))
  }

  /** The class of u under rep0; a node past the end of rep0 is a class of its own. */
  function ClassOf(rep0: seq<nat>, u: nat): nat
  {
    if u < |rep0| then rep0[u] else u
  }

  /** u and w share a class once the classes of a and b (under rep0) are merged. */
  predicate JoinedWith(rep0: seq<nat>, a: nat, b: nat, u: nat, w: nat)
  {
    var cu, cw, ca, cb := ClassOf(rep0, u), ClassOf(rep0, w), ClassOf(rep0, a), ClassOf(rep0, b);
    cu == cw || ((cu == ca || cu == cb) && (cw == ca || cw == cb))
  }

  /**
   * rep1 is rep0, grown by nodes of their own, with the classes of a and b
   * merged and nothing else changed: two nodes share a class of rep1
   * exactly when they shared one before or both were with a or with b.
   */
  ghost predicate MergedExactly(rep0: seq<nat>, rep1: seq<nat>, a: nat, b: nat)
  {
    forall u: nat, w: nat {:trigger JoinedWith(rep0, a, b, u, w)} ::
      u < |rep1| && w < |rep1| ==> (rep1[u] == rep1[w] <==> JoinedWith(rep0, a, b, u, w))
  }

  /** A union that finds a and b already together changes no class. */
  lemma UnchangedMerges(rep0: seq<nat>, a: nat, b: nat)
    requires a < |rep0| && b < |rep0| && rep0[a] == rep0[b]
    ensures MergedExactly(rep0, rep0, a, b)
  {
  }

  /** Relabelling one of the roots of a and b as the other merges exactly their classes. */
  lemma RelabelMerges(rep0: seq<nat>, a: nat, b: nat, small: nat, large: nat)
    requires a < |rep0| && b < |rep0| && small != large
    requires (small == rep0[a] && large == rep0[b]) || (small == rep0[b] && large == rep0[a])
    ensures MergedExactly(rep0, Relabel(rep0, small, large), a, b)
  {
    var rep1 := Relabel(rep0, small, large);
    forall u: nat, w: nat | u < |rep1| && w < |rep1|
      ensures rep1[u] == rep1[w] <==> JoinedWith(rep0, a, b, u, w)
    {
      assert rep1[u] == if rep0[u] == small then large else rep0[u];
      assert rep1[w] == if rep0[w] == small then large else rep0[w];
    }
  }

  /** Nodes added as classes of their own before a merge count as their own classes. */
  lemma GrownMerges(rep0: seq<nat>, rep1: seq<nat>, rep2: seq<nat>, a: nat, b: nat)
    requires rep0 <= rep1 && forall u :: |rep0| <= u < |rep1| ==> rep1[u] == u
    requires MergedExactly(rep1, rep2, a, b)
    ensures MergedExactly(rep0, rep2, a, b)
  {
    forall u: nat ensures ClassOf(rep1, u) == ClassOf(rep0, u) {
      if u < |rep0| {
        assert rep1[u] == rep0[u];
      }
    }
    forall u: nat, w: nat | u < |rep2| && w < |rep2|
      ensures rep2[u] == rep2[w] <==> JoinedWith(rep0, a, b, u, w)
    {
      assert JoinedWith(rep1, a, b, u, w) == JoinedWith(rep0, a, b, u, w);
    }
  }

  /** With exact classes, two class ids agree exactly for connected nodes, fresh nodes included. */
  lemma ClassOfExact(edges: seq<Edge>, rep: seq<nat>, u: nat, w: nat)
    requires ClassesExact(edges, rep) && Closed(rep) && EdgesInRange(edges, |rep|)
    ensures ClassOf(rep, u) == ClassOf(rep, w) <==> Connected(edges, u, w)
  {
    if u >= |rep| || w >= |rep| {
      ConnectedFresh(edges, |rep|, u, w);
    } else {
      assert rep[u] == rep[w] <==> Connected(edges, u, w);
    }
  }

  /** A new node of its own class keeps the classes exact. */
  lemma ExactGrow(edges: seq<Edge>, rep: seq<nat>)
    requires ClassesExact(edges, rep) && Closed(rep) && EdgesInRange(edges, |rep|)
    ensures ClassesExact(edges, rep + [|rep|])
  {
    var rep1 := rep + [|rep|];
    forall u: nat, w: nat | u < |rep1| && w < |rep1|
      ensures rep1[u] == rep1[w] <==> Connected(edges, u, w)
    {
      ClassOfExact(edges, rep, u, w);
      assert rep1[u] == ClassOf(rep, u) && rep1[w] == ClassOf(rep, w);
    }
  }

  /** Merging exactly the classes of e's ends keeps the classes exact once e is added. */
  lemma ExactStep(edges: seq<Edge>, e: Edge, rep0: seq<nat>, rep1: seq<nat>)
    requires ClassesExact(edges, rep0) && Closed(rep0) && EdgesInRange(edges, |rep0|)
    requires e.a < |rep1| && e.b < |rep1| && MergedExactly(rep0, rep1, e.a, e.b)
    ensures ClassesExact(edges + [e], rep1)
  {
    var edges' := edges + [e];
    assert edges'[..|edges|] == edges && edges'[|edges|] == e;
    forall u: nat, w: nat | u < |rep1| && w < |rep1|
      ensures rep1[u] == rep1[w] <==> Connected(edges', u, w)
    {
      ClassOfExact(edges, rep0, u, w);
      ClassOfExact(edges, rep0, u, e.a);
      ClassOfExact(edges, rep0, u, e.b);
      ClassOfExact(edges, rep0, w, e.a);
      ClassOfExact(edges, rep0, w, e.b);
      assert rep1[u] == rep1[w] <==> JoinedWith(rep0, e.a, e.b, u, w);
    }
  }

  /** With exact classes, an even component is one whose connected nodes all have even degree. */
  lemma EvenConnected(rep: seq<nat>, nodes: seq<Node>, edges: seq<Edge>, v: nat)
    requires ClassesExact(edges, rep) && |rep| == |nodes| && v < |nodes|
    ensures ComponentEven(rep, nodes, v) <==>
              forall u: nat :: u < |nodes| && Connected(edges, u, v) ==> nodes[u].degree % 2 == 0
  {
  }

  /** Nodes, keys and odd counts agree (what holds between the steps of a segment). */
  ghost predicate NodesInv(nodes: seq<Node>, m: map<SnapKey, nat>, rep: seq<nat>, odd: seq<nat>)
  {
    && |rep| == |nodes|
    && KeysIndexed(nodes, m)
    && Tracks(rep, Parities(nodes), odd)
  }

  /** The degree of node v counts the edge ends at v. */
  predicate DegreeOk(nodes: seq<Node>, edges: seq<Edge>, v: nat)
    requires v < |nodes|
  {
    nodes[v].degree == Incidence(edges, v)
  }

  /** Edge e lies inside one class. */
  predicate EdgeJoined(edges: seq<Edge>, rep: seq<nat>, e: nat)
    requires e < |edges| && edges[e].a < |rep| && edges[e].b < |rep|
  {
    rep[edges[e].a] == rep[edges[e].b]
  }

  /** Every degree counts the edge ends at its node; every edge lies inside one class. */
  ghost predicate EdgesInv(nodes: seq<Node>, edges: seq<Edge>, rep: seq<nat>)
  {
    && EdgesInRange(edges, |nodes|)
    && |rep| == |nodes|
    && (forall v {:trigger DegreeOk(nodes, edges, v)} :: 0 <= v < |nodes| ==> DegreeOk(nodes, edges, v))
    && (forall e {:trigger EdgeJoined(edges, rep, e)} :: 0 <= e < |edges| ==> EdgeJoined(edges, rep, e))
  }

  /**
   * The whole value-level invariant of the store: nodes, keys, odd counts
   * and degrees agree, and the classes are the components of the edges.
   */
  ghost predicate StoreInv(nodes: seq<Node>, m: map<SnapKey, nat>, edges: seq<Edge>, rep: seq<nat>, odd: seq<nat>)
  {
    NodesInv(nodes, m, rep, odd) && EdgesInv(nodes, edges, rep) && ClassesExact(edges, rep)
  }

  /** The node list after get_or_create_node of key at (x, y). */
  function WithNode(nodes: seq<Node>, m: map<SnapKey, nat>, key: SnapKey, x: real, y: real): seq<Node>
  {
    if key in m then nodes else nodes + [Node(key, x, y, 0)]
  }

  /** The node map after get_or_create_node of key: a new key names the next id. */
  function WithKey(nodes: seq<Node>, m: map<SnapKey, nat>, key: SnapKey): map<SnapKey, nat>
  {
    if key in m then m else m[key := |nodes|]
  }

  /** A new degree-0 node with its own class keeps both invariants. */
  lemma NewNodeInv(nodes: seq<Node>, m: map<SnapKey, nat>, edges: seq<Edge>, rep: seq<nat>, odd: seq<nat>,
                   key: SnapKey, x: real, y: real)
    requires NodesInv(nodes, m, rep, odd) && EdgesInv(nodes, edges, rep) && Closed(rep) && key !in m
    ensures NodesInv(nodes + [Node(key, x, y, 0)], m[key := |nodes|], rep + [|nodes|], odd + [0])
    ensures EdgesInv(nodes + [Node(key, x, y, 0)], edges, rep + [|nodes|])
    ensures Coarser(rep, rep + [|nodes|])
  {
    var n := |nodes|;
    var nodes', rep' := nodes + [Node(key, x, y, 0)], rep + [n];
    AppendTracks(rep, Parities(nodes), odd, 0);
    assert Parities(nodes') == Parities(nodes) + [0];
    IncidenceAbsent(edges, n, n);
    var m' := m[key := n];
    forall i | 0 <= i < n + 1 ensures KeyAt(nodes', m', i) {
      if i < n {
        assert nodes'[i] == nodes[i] && KeyAt(nodes, m, i);
      }
    }
    forall i | 0 <= i < n + 1 ensures DegreeOk(nodes', edges, i) {
      if i < n {
        assert nodes'[i] == nodes[i] && DegreeOk(nodes, edges, i);
      }
    }
    forall e | 0 <= e < |edges| ensures EdgeJoined(edges, rep', e) {
      assert EdgeJoined(edges, rep, e);
    }
    forall k | k in m' ensures m'[k] < n + 1 && nodes'[m'[k]].key == k {
      if k != key {
        assert nodes'[m[k]] == nodes[m[k]];
      }
    }
    assert KeysIndexed(nodes', m');
  }

  /**
   * One more degree at v moves the odd count of v's class by the parity
   * change; the count is positive when v's old degree was odd.
   */
  lemma BumpInv(nodes: seq<Node>, m: map<SnapKey, nat>, rep: seq<nat>, odd: seq<nat>, v: nat)
    requires NodesInv(nodes, m, rep, odd) && Closed(rep) && v < |nodes|
    ensures odd[rep[v]] >= nodes[v].degree % 2
    ensures NodesInv(Bumped(nodes, v), m, rep,
                     odd[rep[v] := odd[rep[v]] - nodes[v].degree % 2 + (nodes[v].degree + 1) % 2])
  {
    var w := Parities(nodes);
    UpdateTracks(rep, w, odd, v, (nodes[v].degree + 1) % 2);
    assert Parities(Bumped(nodes, v)) == w[v := (nodes[v].degree + 1) % 2];
    forall i | 0 <= i < |nodes| ensures KeyAt(Bumped(nodes, v), m, i) {
      assert KeyAt(nodes, m, i);
    }
  }

  /** Linking two classes, odd counts added, keeps the node invariant. */
  lemma LinkNodesInv(nodes: seq<Node>, m: map<SnapKey, nat>, rep: seq<nat>, odd: seq<nat>, small: nat, large: nat)
    requires NodesInv(nodes, m, rep, odd) && Closed(rep)
    requires small < |rep| && large < |rep| && small != large && rep[small] == small && rep[large] == large
    ensures NodesInv(nodes, m, Relabel(rep, small, large), odd[large := odd[large] + odd[small]])
    ensures Coarser(rep, Relabel(rep, small, large))
  {
    RelabelTracks(rep, Parities(nodes), odd, small, large);
  }

  /**
   * The segment step: after both endpoints gained a degree and their classes
   * were merged, appending the edge restores the edge invariant.
   */
  lemma AddEdgeInv(n1: seq<Node>, edges: seq<Edge>, rep1: seq<nat>, rep3: seq<nat>, e: Edge)
    requires EdgesInv(n1, edges, rep1) && Closed(rep1)
    requires e.a < |n1| && e.b < |n1| && |rep3| == |n1|
    requires Coarser(rep1, rep3) && rep3[e.a] == rep3[e.b]
    ensures EdgesInv(Bumped(Bumped(n1, e.a), e.b), edges + [e], rep3)
  {
    var n3 := Bumped(Bumped(n1, e.a), e.b);
    var edges' := edges + [e];
    forall v | 0 <= v < |n3| ensures DegreeOk(n3, edges', v) {
      IncidenceAppend(edges, e, v);
      assert DegreeOk(n1, edges, v);
    }
    forall i | 0 <= i < |edges'| ensures EdgeJoined(edges', rep3, i) {
      if i < |edges| {
        assert edges'[i] == edges[i];
        assert EdgeJoined(edges, rep1, i);
        KeptTogether(rep1, rep3, edges[i].a, edges[i].b);
      }
    }
  }

}

/** The store object of src/graph.rs over the values above. */
module Graph {
  import opened UnionFind
  import opened GraphModel

  class GraphStore {
    var nodes: seq<Node>
    var nodeMap: map<SnapKey, nat>
    var edges: seq<Edge>
    const dsu: Dsu

    /** What holds between the steps of a segment: nodes, keys and odd counts agree. */
    ghost predicate Core()
      reads this, dsu
    {
      && dsu.Valid()
      && |nodes| == |dsu.parent|
      && NodesInv(nodes, nodeMap, dsu.rep, dsu.oddCount)
    }

    /**
     * The store's invariant: on top of Core, every edge joins two nodes of
     * one component and every degree counts the edge ends at the node.
     */
    ghost predicate Valid()
      reads this, dsu
    {
      && dsu.Valid()
      && |nodes| == |dsu.parent|
      && StoreInv(nodes, nodeMap, edges, dsu.rep, dsu.oddCount)
    }

    constructor ()
      ensures Valid() && fresh(dsu)
      ensures nodes == [] && nodeMap == map[] && edges == []
    {
      nodes, nodeMap, edges := [], map[], [];
      dsu := new Dsu();
    }

    /** clear: no nodes, no edges, and a fresh union-find. */
    method Clear()
      modifies this, dsu
      ensures Valid()
      ensures nodes == [] && nodeMap == map[] && edges == []
      ensures dsu.parent == []
    {
      nodes, nodeMap, edges := [], map[], [];
      dsu.Reset();
    }

    /**
     * get_or_create_node: a known key yields its node and changes nothing;
     * a new key appends a degree-0 node and one union-find singleton.
     */
    method GetOrCreateNode(key: SnapKey, x: real, y: real) returns (id: nat)
      requires Valid()
      modifies this, dsu
      ensures Valid() && edges == old(edges)
      ensures id < |nodes| && nodes[id].key == key && nodeMap == old(nodeMap)[key := id]
      ensures nodes == WithNode(old(nodes), old(nodeMap), key, x, y) && nodeMap == WithKey(old(nodes), old(nodeMap), key)
      ensures old(dsu.rep) <= dsu.rep
      ensures key in old(nodeMap) ==>
                && id == old(nodeMap)[key]
                && nodes == old(nodes) && dsu.parent == old(dsu.parent)
                && dsu.rep == old(dsu.rep) && dsu.size == old(dsu.size) && dsu.oddCount == old(dsu.oddCount)
      ensures key !in old(nodeMap) ==>
                && id == old(|nodes|)
                && nodes == old(nodes) + [Node(key, x, y, 0)]
                && dsu.rep == old(dsu.rep) + [id]
                && dsu.size == old(dsu.size) + [1] && dsu.oddCount == old(dsu.oddCount) + [0]
    {
      ForestClosed(dsu.parent, dsu.rep, dsu.depth);
      if key in nodeMap {
        return nodeMap[key];
      }
      id := |nodes|;
      ExactGrow(edges, dsu.rep);
      NewNodeInv(nodes, nodeMap, edges, dsu.rep, dsu.oddCount, key, x, y);
      nodes := nodes + [Node(key, x, y, 0)];
      nodeMap := nodeMap[key := id];
      var s := dsu.MakeSet();
    }

    /**
     * One pass of the degree loop of add_segment: node v gains a degree and
     * its component's odd count follows the parity change.
     */
    method BumpDegree(v: nat)
      requires Core() && v < |nodes|
      modifies this, dsu
      ensures Core()
      ensures nodes == Bumped(old(nodes), v)
      ensures nodeMap == old(nodeMap) && edges == old(edges)
      ensures dsu.rep == old(dsu.rep) && dsu.size == old(dsu.size)
    {
      ForestClosed(dsu.parent, dsu.rep, dsu.depth);
      BumpInv(nodes, nodeMap, dsu.rep, dsu.oddCount, v);
      var oldDegree := nodes[v].degree;
      var oldParity := oldDegree % 2;
      nodes := nodes[v := nodes[v].(degree := oldDegree + 1)];
      var newParity := nodes[v].degree % 2;
      if oldParity == 0 && newParity == 1 {
        dsu.IncrementOddCount(v);
      } else if oldParity == 1 && newParity == 0 {
        dsu.DecrementOddCount(v);
      }
    }

    /**
     * The union step of add_segment: the components of a and b become one,
     * and the odd counts keep tracking the real number of odd-degree nodes.
     */
    method Join(a: nat, b: nat)
      requires Core() && a < |nodes| && b < |nodes|
      modifies dsu
      ensures Core()
      ensures dsu.rep[a] == dsu.rep[b]
      ensures Coarser(old(dsu.rep), dsu.rep)
      ensures MergedExactly(old(dsu.rep), dsu.rep, a, b)
    {
      ghost var rep0, size0, odd0 := dsu.rep, dsu.size, dsu.oddCount;
      ForestClosed(dsu.parent, dsu.rep, dsu.depth);
      dsu.Union(a, b);
      if rep0[a] != rep0[b] {
        if size0[rep0[a]] < size0[rep0[b]] {
          assert dsu.LinkedBelow(rep0, size0, odd0, rep0[a], rep0[b]);
          LinkNodesInv(nodes, nodeMap, rep0, odd0, rep0[a], rep0[b]);
          RelabelMerges(rep0, a, b, rep0[a], rep0[b]);
        } else {
          assert dsu.LinkedBelow(rep0, size0, odd0, rep0[b], rep0[a]);
          LinkNodesInv(nodes, nodeMap, rep0, odd0, rep0[b], rep0[a]);
          RelabelMerges(rep0, a, b, rep0[b], rep0[a]);
        }
      } else {
        UnchangedMerges(rep0, a, b);
      }
    }

    /**
     * add_segment: both endpoints are found or created, each gains one
     * degree (a segment whose ends snap together gives its node two), their
     * components are joined and the edge gets the next id.
     */
    method AddSegment(ka: SnapKey, x1: real, y1: real, kb: SnapKey, x2: real, y2: real, lineIdx: nat)
      returns (edgeId: nat)
      requires Valid()
      modifies this, dsu
      ensures Valid()
      ensures ka in nodeMap && kb in nodeMap
      ensures nodeMap == old(nodeMap)[ka := nodeMap[ka]][kb := nodeMap[kb]]
      ensures edgeId == old(|edges|)
      ensures edges == old(edges) + [Edge(nodeMap[ka], nodeMap[kb], x1, y1, x2, y2, lineIdx)]
      ensures var n2 := WithNode(WithNode(old(nodes), old(nodeMap), ka, x1, y1), WithKey(old(nodes), old(nodeMap), ka), kb, x2, y2);
              && |nodes| == |n2| && nodeMap[ka] < |n2| && nodeMap[kb] < |n2|
              && nodes == Bumped(Bumped(n2, nodeMap[ka]), nodeMap[kb])
      ensures nodeMap == WithKey(WithNode(old(nodes), old(nodeMap), ka, x1, y1), WithKey(old(nodes), old(nodeMap), ka), kb)
      ensures dsu.rep[nodeMap[ka]] == dsu.rep[nodeMap[kb]]
      ensures Coarser(old(dsu.rep), dsu.rep)
      ensures MergedExactly(old(dsu.rep), dsu.rep, nodeMap[ka], nodeMap[kb])
    {
      ghost var rep0 := dsu.rep;
      ForestClosed(dsu.parent, dsu.rep, dsu.depth);
      var a := GetOrCreateNode(ka, x1, y1);
      ghost var repA := dsu.rep;
      var b := GetOrCreateNode(kb, x2, y2);
      ghost var rep1 := dsu.rep;
      assert forall u :: |rep0| <= u < |repA| ==> repA[u] == u;
      assert forall u :: |rep0| <= u < |rep1| ==> rep1[u] == u;
      edgeId := Attach(a, b, x1, y1, x2, y2, lineIdx);
      PrefixCoarser(rep0, rep1, dsu.rep);
      GrownMerges(rep0, rep1, dsu.rep, a, b);
    }

    /**
     * The rest of add_segment once both endpoint ids are known: the degree
     * loop, the union of the two components and the push of the edge.
     */
    method Attach(a: nat, b: nat, x1: real, y1: real, x2: real, y2: real, lineIdx: nat) returns (edgeId: nat)
      requires Valid() && a < |nodes| && b < |nodes|
      modifies this, dsu
      ensures Valid() && nodeMap == old(nodeMap)
      ensures nodes == Bumped(Bumped(old(nodes), a), b)
      ensures edgeId == old(|edges|) && edges == old(edges) + [Edge(a, b, x1, y1, x2, y2, lineIdx)]
      ensures dsu.rep[a] == dsu.rep[b]
      ensures Coarser(old(dsu.rep), dsu.rep)
      ensures MergedExactly(old(dsu.rep), dsu.rep, a, b)
    {
      ghost var n1, rep1 := nodes, dsu.rep;
      ForestClosed(dsu.parent, dsu.rep, dsu.depth);
      BumpDegree(a);
      BumpDegree(b);
      if a != b {
        Join(a, b);
      } else {
        UnchangedMerges(rep1, a, b);
      }
      edgeId := |edges|;
      var e := Edge(a, b, x1, y1, x2, y2, lineIdx);
      AddEdgeInv(n1, edges, rep1, dsu.rep, e);
      ExactStep(edges, e, rep1, dsu.rep);
      edges := edges + [e];
    }

    /**
     * is_edge_closed: false for an unknown edge, otherwise whether the
     * component of its first endpoint has no odd-degree node.
     */
    method IsEdgeClosed(e: nat) returns (closed: bool)
      requires Valid()
      modifies dsu
      ensures Valid() && dsu.rep == old(dsu.rep) && dsu.oddCount == old(dsu.oddCount)
      ensures closed <==> e < |edges| && ComponentEven(dsu.rep, nodes, edges[e].a)
      ensures closed <==> e < |edges| && forall u: nat :: u < |nodes| && Connected(edges, u, edges[e].a) ==> nodes[u].degree % 2 == 0
    {
      if e >= |edges| {
        return false;
      }
      var a := edges[e].a;
      ForestClosed(dsu.parent, dsu.rep, dsu.depth);
      ClassSumZero(dsu.rep, Parities(nodes), dsu.rep[a]);
      EvenConnected(dsu.rep, nodes, edges, a);
      var oddCount := dsu.GetOddCount(a);
      closed := oddCount == 0;
    }

    /** closed_edges: the ids of all closed edges, in ascending order. */
    method ClosedEdges() returns (ids: seq<nat>)
      requires Valid()
      modifies dsu
      ensures Valid() && dsu.rep == old(dsu.rep) && dsu.oddCount == old(dsu.oddCount)
      ensures ids == ClosedIds(dsu.rep, nodes, edges, |edges|)
    {
      ghost var rep0, nodes0, edges0 := dsu.rep, nodes, edges;
      var acc: seq<int> := [];
      var i: nat := 0;
      while i < |edges|
        invariant Valid() && dsu.rep == rep0 && dsu.oddCount == old(dsu.oddCount)
        invariant nodes == nodes0 && edges == edges0
        invariant i <= |edges|
        invariant acc == ClosedIds(rep0, nodes0, edges0, i)
      {
        var closed := IsEdgeClosed(i);
        if closed {
          acc := acc + [i];
        }
        i := i + 1;
      }
      ids := acc;
    }

    /**
     * check_dsu_integrity: every node's representative is in range, is its
     * own parent and has a positive size.
     */
    ghost predicate CheckDsuIntegrity()
      reads this, dsu
      requires dsu.Valid() && |nodes| == |dsu.parent|
    {
      DsuIntegrity(dsu.parent, dsu.rep, dsu.size)
    }

    /**
     * check_component_parity: at every node that is its own parent, the
     * tracked odd count is the number of odd-degree nodes of its component.
     */
    ghost predicate CheckComponentParity()
      reads this, dsu
      requires dsu.Valid() && |nodes| == |dsu.parent|
    {
      forall r :: 0 <= r < |nodes| && dsu.parent[r] == r ==>
        dsu.oddCount[r] == |set u | 0 <= u < |nodes| && dsu.rep[u] == r && nodes[u].degree % 2 == 1|
    }

    /** The store invariant makes both debug checks pass. */
    lemma ValidPassesChecks()
      requires Valid()
      ensures CheckDsuIntegrity() && CheckComponentParity()
    {
      SizesGiveIntegrity(dsu.parent, dsu.rep, dsu.depth, dsu.size);
      var w := Parities(nodes);
      forall r | 0 <= r < |nodes| && dsu.parent[r] == r
        ensures dsu.oddCount[r] == |set u | 0 <= u < |nodes| && dsu.rep[u] == r && nodes[u].degree % 2 == 1|
      {
        assert WellLinked(dsu.parent, dsu.rep, dsu.depth, r);
        ClassSumCount(dsu.rep, w, r);
        assert (set u | 0 <= u < |nodes| && dsu.rep[u] == r && w[u] == 1)
            == (set u | 0 <= u < |nodes| && dsu.rep[u] == r && nodes[u].degree % 2 == 1);
      }
    }
  }
}
