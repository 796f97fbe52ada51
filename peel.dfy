// The overhang trimming of Editor::cleanup_overhangs (src/lib.rs): a 2-core
// peel of the cut-segment graph.  Degrees count segment ends per node, nodes
// of degree one are worked off a stack, each removing its single surviving
// segment, and the kept segments become the new line list.

module Peel {
  import opened Maybe
  import opened Shapes
  import opened FillSpec

  /** How many ends of segment s lie at v (two for a segment from v to itself). */
  function Ends(s: Seg, v: nat): nat
  {
    (if s.a == v then 1 else 0) + (if s.b == v then 1 else 0)
  }

  /** The number of ends at v of the segments not marked deleted. */
  function AliveDegree(segs: seq<Seg>, del: seq<bool>, v: nat): nat
    requires |del| == |segs|
  {
    if |segs| == 0 then 0
    else
      var m := |segs| - 1;
      AliveDegree(segs[..m], del[..m], v) + (if del[m] then 0 else Ends(segs[m], v))
  }

  /** Deleting a surviving segment removes exactly its ends from every node's degree. */
  lemma {:induction false} AliveDegreeDelete(segs: seq<Seg>, del: seq<bool>, k: nat, v: nat)
    requires |del| == |segs| && k < |segs| && !del[k]
    ensures AliveDegree(segs, del[k := true], v) + Ends(segs[k], v) == AliveDegree(segs, del, v)
  {
    var m := |segs| - 1;
    if k < m {
      assert del[k := true][..m] == del[..m][k := true];
      AliveDegreeDelete(segs[..m], del[..m], k, v);
    } else {
      assert del[k := true][..m] == del[..m];
    }
  }

  /** With no surviving segment touching v, v has degree zero. */
  lemma {:induction false} AliveDegreeNone(segs: seq<Seg>, del: seq<bool>, v: nat)
    requires |del| == |segs|
    requires forall k :: 0 <= k < |segs| && !del[k] ==> segs[k].a != v && segs[k].b != v
    ensures AliveDegree(segs, del, v) == 0
  {
    if |segs| > 0 {
      var m := |segs| - 1;
      assert forall k :: 0 <= k < m ==> segs[..m][k] == segs[k] && del[..m][k] == del[k];
      AliveDegreeNone(segs[..m], del[..m], v);
    }
  }

  /** A segment that survives under d has all its ends at v counted in v's degree. */
  lemma {:induction false} AliveDegreeAtLeast(segs: seq<Seg>, d: seq<bool>, k: nat, v: nat)
    requires |d| == |segs| && k < |segs|
    ensures !d[k] ==> AliveDegree(segs, d, v) >= Ends(segs[k], v)
  {
    var m := |segs| - 1;
    if k < m {
      assert segs[..m][k] == segs[k] && d[..m][k] == d[k];
      AliveDegreeAtLeast(segs[..m], d[..m], k, v);
    }
  }

  /** Every segment that d2 keeps, d keeps too. */
  predicate KeptWithin(d2: seq<bool>, d: seq<bool>)
  {
    |d2| == |d| && forall k :: 0 <= k < |d2| && !d2[k] ==> !d[k]
  }

  /** Keeping fewer segments never raises a degree. */
  lemma {:induction false} AliveDegreeMono(segs: seq<Seg>, d2: seq<bool>, d: seq<bool>, v: nat)
    requires |d| == |segs| && KeptWithin(d2, d)
    ensures AliveDegree(segs, d2, v) <= AliveDegree(segs, d, v)
  {
    if |segs| > 0 {
      var m := |segs| - 1;
      assert KeptWithin(d2[..m], d[..m]) by {
        assert forall k :: 0 <= k < m ==> d2[..m][k] == d2[k] && d[..m][k] == d[k];
      }
      AliveDegreeMono(segs[..m], d2[..m], d[..m], v);
    }
  }

  /** No node below n has exactly one segment surviving under d. */
  ghost predicate LeafFree(segs: seq<Seg>, d: seq<bool>, n: nat)
  {
    |d| == |segs| && forall v :: 0 <= v < n ==> AliveDegree(segs, d, v) != 1
  }

  /**
   * del is the outcome of the 2-core peel: it leaves no node with exactly
   * one surviving segment, and it keeps every segment of every other
   * deletion vector that leaves no such node.  So the surviving segments
   * are the largest leaf-free set of segments.
   */
  ghost predicate Peeled(segs: seq<Seg>, n: nat, del: seq<bool>)
  {
    LeafFree(segs, del, n) && forall d2 {:trigger LeafFree(segs, d2, n)} :: LeafFree(segs, d2, n) ==> KeptWithin(d2, del)
  }

  /** The peel outcome is unique. */
  lemma PeeledUnique(segs: seq<Seg>, n: nat, d1: seq<bool>, d2: seq<bool>)
    requires Peeled(segs, n, d1) && Peeled(segs, n, d2)
    ensures d1 == d2
  {
    assert KeptWithin(d1, d2) && KeptWithin(d2, d1);
    assert forall k :: 0 <= k < |d1| ==> d1[k] == d2[k];
  }

  /** The peel deletes nothing exactly when no node starts with exactly one segment. */
  lemma PeeledNothing(segs: seq<Seg>, n: nat, del: seq<bool>)
    requires Peeled(segs, n, del)
    ensures CountTrue(del) == 0 <==> LeafFree(segs, seq(|segs|, _ => false), n)
  {
    var none := seq(|segs|, _ => false);
    if CountTrue(del) == 0 {
      CountTrueZero(del);
    }
    if LeafFree(segs, none, n) {
      assert KeptWithin(none, del);
      assert del == none;
      CountTrueNone(|segs|);
    }
  }

  /**
   * A segment at a node whose surviving degree is one is in no leaf-free
   * set of segments within the survivors.
   */
  lemma LeafSegmentOut(segs: seq<Seg>, n: nat, del: seq<bool>, d2: seq<bool>, k: nat, v: nat)
    requires |del| == |segs| && LeafFree(segs, d2, n) && KeptWithin(d2, del)
    requires v < n && AliveDegree(segs, del, v) == 1
    requires k < |segs| && (segs[k].a == v || segs[k].b == v)
    ensures d2[k]
  {
    AliveDegreeMono(segs, d2, del, v);
    AliveDegreeAtLeast(segs, d2, k, v);
  }

  /**
   * A triangle on nodes 0, 1, 2 with a dangling segment from 2 to 3: the
   * peel deletes the dangling segment and keeps the triangle's three.
   */
  lemma TriangleWithTail()
    ensures Peeled([Seg(0, 1), Seg(1, 2), Seg(2, 0), Seg(2, 3)], 4, [false, false, false, true])
  {
    var segs := [Seg(0, 1), Seg(1, 2), Seg(2, 0), Seg(2, 3)];
    var del := [false, false, false, true];
    assert segs[..3] == [Seg(0, 1), Seg(1, 2), Seg(2, 0)];
    assert segs[..3][..2] == [Seg(0, 1), Seg(1, 2)];
    assert segs[..3][..2][..1] == [Seg(0, 1)];
    forall d2 | LeafFree(segs, d2, 4) ensures KeptWithin(d2, del) {
      var d := d2[..3];
      assert AliveDegree(segs[..3][..2][..1], d[..2][..1], 3) == 0;
      assert AliveDegree(segs[..3][..2], d[..2], 3) == 0;
      assert AliveDegree(segs[..3], d, 3) == 0;
      assert AliveDegree(segs, d2, 3) == (if d2[3] then 0 else 1);
    }
    var d := del[..3];
    assert d == [false, false, false] && d[..2] == [false, false] && d[..2][..1] == [false];
    forall v | 0 <= v < 4 ensures AliveDegree(segs, del, v) != 1 {
      assert AliveDegree(segs[..3][..2][..1], d[..2][..1], v) == Ends(Seg(0, 1), v);
      assert AliveDegree(segs[..3][..2], d[..2], v) == Ends(Seg(0, 1), v) + Ends(Seg(1, 2), v);
      assert AliveDegree(segs[..3], d, v) == Ends(Seg(0, 1), v) + Ends(Seg(1, 2), v) + Ends(Seg(2, 0), v);
    }
  }

  /** The degree loop: every in-range end of every segment counts once at its node. */
  method InitDegrees(segs: seq<Seg>, n: nat) returns (degree: seq<nat>)
    ensures |degree| == n
    ensures forall v :: 0 <= v < n ==> degree[v] == AliveDegree(segs, seq(|segs|, _ => false), v)
  {
    degree := seq(n, _ => 0);
    var i := 0;
    while i < |segs|
      invariant i <= |segs| && |degree| == n
      invariant forall v :: 0 <= v < n ==> degree[v] == AliveDegree(segs[..i], seq(i, _ => false), v)
    {
      var seg := segs[i];
      if seg.a < |degree| {
        degree := degree[seg.a := degree[seg.a] + 1];
      }
      if seg.b < |degree| {
        degree := degree[seg.b := degree[seg.b] + 1];
      }
      assert segs[..i + 1][..i] == segs[..i] && seq(i + 1, _ => false)[..i] == seq(i, _ => false);
      i := i + 1;
    }
    assert segs[..i] == segs;
  }

  /** The nodes of degree at most one, in ascending order. */
  method InitQueue(degree: seq<nat>) returns (queue: seq<nat>)
    ensures forall q :: q in queue ==> q < |degree| && degree[q] <= 1
    ensures forall v :: 0 <= v < |degree| && degree[v] <= 1 ==> v in queue
    ensures forall a, b :: 0 <= a < b < |queue| ==> queue[a] < queue[b]
  {
    queue := [];
    var i := 0;
    while i < |degree|
      invariant i <= |degree|
      invariant forall q :: q in queue ==> q < i && degree[q] <= 1
      invariant forall v :: 0 <= v < i && degree[v] <= 1 ==> v in queue
      invariant forall a, b :: 0 <= a < b < |queue| ==> queue[a] < queue[b]
    {
      if degree[i] <= 1 {
        assert forall a :: 0 <= a < |queue| ==> queue[a] in queue;
        queue := queue + [i];
      }
      i := i + 1;
    }
  }

  /**
   * The search for the single surviving segment at a leaf: the first
   * segment not deleted with an end at v, if any.
   */
  method FindAlive(segs: seq<Seg>, del: seq<bool>, v: nat) returns (r: Option<nat>)
    requires |del| == |segs|
    ensures r.Some? ==> r.value < |segs| && !del[r.value] && (segs[r.value].a == v || segs[r.value].b == v)
    ensures r.Some? ==> forall k :: 0 <= k < r.value && !del[k] ==> segs[k].a != v && segs[k].b != v
    ensures r.None? ==> forall k :: 0 <= k < |segs| && !del[k] ==> segs[k].a != v && segs[k].b != v
  {
    var k := 0;
    while k < |del|
      invariant k <= |del|
      invariant forall j :: 0 <= j < k && !del[j] ==> segs[j].a != v && segs[j].b != v
    {
      if !del[k] && (segs[k].a == v || segs[k].b == v) {
        return Some(k);
      }
      k := k + 1;
    }
    return None;
  }

  /**
   * What the peel loop keeps: the degrees are the surviving degrees, the
   * deletion count is the number of deleted segments, the stack holds
   * nodes only, every node of degree one is on the stack, and no segment of
   * a leaf-free set is deleted.
   */
  ghost predicate PeelInv(segs: seq<Seg>, n: nat, degree: seq<nat>, del: seq<bool>, deleted: nat, queue: seq<nat>)
  {
    && |del| == |segs| && |degree| == n && deleted == CountTrue(del)
    && (forall v :: 0 <= v < n ==> degree[v] == AliveDegree(segs, del, v))
    && (forall q :: q in queue ==> q < n)
    && (forall v :: 0 <= v < n && degree[v] == 1 ==> v in queue)
    && (forall d2 {:trigger LeafFree(segs, d2, n)} :: LeafFree(segs, d2, n) ==> KeptWithin(d2, del))
  }

  /**
   * One leaf removal: segment k is the only surviving segment at v; it is
   * deleted, v drops to degree zero and the other end loses one, being
   * stacked when it falls to one or less.
   */
  method RemoveLeaf(segs: seq<Seg>, n: nat, degree0: seq<nat>, del0: seq<bool>, deleted0: nat, queue0: seq<nat>,
                    v: nat, k: nat)
    returns (degree: seq<nat>, del: seq<bool>, deleted: nat, queue: seq<nat>)
    requires PeelInv(segs, n, degree0, del0, deleted0, queue0 + [v])
    requires v < n && degree0[v] == 1
    requires k < |segs| && !del0[k] && (segs[k].a == v || segs[k].b == v)
    ensures PeelInv(segs, n, degree, del, deleted, queue)
    ensures CountTrue(del) == CountTrue(del0) + 1
  {
    assert forall q :: q in queue0 ==> q in queue0 + [v];
    var seg := segs[k];
    var other := if seg.a == v then seg.b else seg.a;
    AliveDegreeDelete(segs, del0, k, v);
    assert Ends(seg, v) == 1 && other != v;
    forall u | 0 <= u < n ensures AliveDegree(segs, del0[k := true], u) + Ends(seg, u) == AliveDegree(segs, del0, u) {
      AliveDegreeDelete(segs, del0, k, u);
    }
    CountTrueSet(del0, k);
    forall d2 | LeafFree(segs, d2, n) ensures KeptWithin(d2, del0[k := true]) {
      LeafSegmentOut(segs, n, del0, d2, k, v);
    }
    del := del0[k := true];
    deleted := deleted0 + 1;
    degree := degree0[v := 0];
    queue := queue0;
    if other < |degree| && degree[other] > 0 {
      degree := degree[other := degree[other] - 1];
      if degree[other] <= 1 {
        queue := queue + [other];
      }
    }
    forall u | 0 <= u < n ensures degree[u] == AliveDegree(segs, del, u) {
      if u != v && u != other {
        assert Ends(seg, u) == 0;
      }
    }
  }

  /**
   * The peel loop.  It ends because every round either deletes a segment
   * or shortens the stack; afterwards no node has exactly one surviving
   * segment, no segment of a leaf-free set is deleted, and the count is the
   * number of segments deleted.
   */
  method PeelSegments(segs: seq<Seg>, n: nat) returns (del: seq<bool>, deleted: nat)
    ensures |del| == |segs| && deleted == CountTrue(del)
    ensures Peeled(segs, n, del)
  {
    var degree := InitDegrees(segs, n);
    var queue := InitQueue(degree);
    del := seq(|segs|, _ => false);
    deleted := 0;
    CountTrueNone(|segs|);
    while |queue| > 0
      invariant PeelInv(segs, n, degree, del, deleted, queue)
      decreases |segs| - CountTrue(del), |queue|
    {
      var v := queue[|queue| - 1];
      ghost var q0 := queue;
      queue := queue[..|queue| - 1];
      assert q0 == queue + [v] && v in q0;
      assert forall q :: q in queue ==> q in q0;
      if degree[v] > 1 {
        assert forall q :: q in q0 ==> q in queue || q == v;
        continue;
      }
      if degree[v] == 0 {
        assert forall q :: q in q0 ==> q in queue || q == v;
        continue;
      }
      var found := FindAlive(segs, del, v);
      match found {
        case None =>
          AliveDegreeNone(segs, del, v);
          assert false;
        case Some(k) =>
          degree, del, deleted, queue := RemoveLeaf(segs, n, degree, del, deleted, queue, v, k);
      }
    }
  }

  /** The line drawn along a segment between two nodes. */
  function SegLine(nodes: seq<Point>, s: Seg): Line
    requires s.a < |nodes| && s.b < |nodes|
  {
    Line(nodes[s.a].x, nodes[s.a].y, nodes[s.b].x, nodes[s.b].y)
  }

  /** The new line list: one line per surviving segment whose ends are nodes, in segment order. */
  function KeptLines(segs: seq<Seg>, del: seq<bool>, nodes: seq<Point>): seq<Line>
    requires |del| == |segs|
  {
    if |segs| == 0 then []
    else
      var m := |segs| - 1;
      var s := segs[m];
      KeptLines(segs[..m], del[..m], nodes)
        + (if !del[m] && s.a < |nodes| && s.b < |nodes| then [SegLine(nodes, s)] else [])
  }

  /**
   * When every segment joins two nodes, the kept lines are one per
   * surviving segment: the segment count less the deleted count.
   */
  lemma {:induction false} KeptCount(segs: seq<Seg>, del: seq<bool>, nodes: seq<Point>)
    requires |del| == |segs| && SegsValid(segs, |nodes|)
    ensures |KeptLines(segs, del, nodes)| == |segs| - CountTrue(del)
  {
    if |segs| > 0 {
      var m := |segs| - 1;
      assert forall k :: 0 <= k < m ==> segs[..m][k] == segs[k];
      KeptCount(segs[..m], del[..m], nodes);
    }
  }

  /** Every kept line is the line of a surviving segment, from node to node. */
  lemma {:induction false} KeptFromSegs(segs: seq<Seg>, del: seq<bool>, nodes: seq<Point>)
    requires |del| == |segs|
    ensures forall l :: l in KeptLines(segs, del, nodes) ==>
              exists k :: 0 <= k < |segs| && !del[k] && segs[k].a < |nodes| && segs[k].b < |nodes| && l == SegLine(nodes, segs[k])
  {
    if |segs| > 0 {
      var m := |segs| - 1;
      KeptFromSegs(segs[..m], del[..m], nodes);
      forall l | l in KeptLines(segs, del, nodes)
        ensures exists k :: 0 <= k < |segs| && !del[k] && segs[k].a < |nodes| && segs[k].b < |nodes| && l == SegLine(nodes, segs[k])
      {
        if l in KeptLines(segs[..m], del[..m], nodes) {
          var k :| 0 <= k < m && !del[..m][k] && segs[..m][k].a < |nodes| && segs[..m][k].b < |nodes| && l == SegLine(nodes, segs[..m][k]);
          assert segs[..m][k] == segs[k] && del[..m][k] == del[k];
        } else {
          assert l == SegLine(nodes, segs[m]);
        }
      }
    }
  }

  /** The collection loop over the surviving segments. */
  method CollectKept(segs: seq<Seg>, del: seq<bool>, nodes: seq<Point>) returns (lines: seq<Line>)
    requires |del| == |segs|
    ensures lines == KeptLines(segs, del, nodes)
  {
    lines := [];
    var k := 0;
    while k < |del|
      invariant k <= |del| && lines == KeptLines(segs[..k], del[..k], nodes)
    {
      assert segs[..k + 1][..k] == segs[..k] && del[..k + 1][..k] == del[..k];
      if !del[k] {
        var s := segs[k];
        if s.a < |nodes| && s.b < |nodes| {
          lines := lines + [SegLine(nodes, s)];
        }
      }
      k := k + 1;
    }
    assert segs[..k] == segs && del[..k] == del;
  }
}
