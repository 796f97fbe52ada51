// The value-level steps of build_fill_graph (src/lib.rs), as functions with
// their properties: the order of the break points along a line, the removal
// of consecutive duplicate nodes, the segments between consecutive nodes,
// the incidence lists of the nodes and the outgoing half-edge lists.
//
// A break-point parameter t is f32 in the source and a real here; only its
// order matters.

module FillSpec {
  import opened Shapes

  /** A node on a line at parameter t (0 and 1 are the endpoints). */
  datatype Break = Break(t: real, node: nat)

  // ---------------------------------------------------------------------
  // Sorting a line's breaks by parameter

  predicate SortedByT(s: seq<Break>)
  {
    forall i, j :: 0 <= i < j < |s| ==> s[i].t <= s[j].t
  }

  /** x placed after the last element whose parameter is at most its own. */
  function InsertByT(s: seq<Break>, x: Break): (r: seq<Break>)
    ensures |r| == |s| + 1 && multiset(r) == multiset(s) + multiset{x}
  {
    if |s| == 0 then [x]
    else if s[|s| - 1].t <= x.t then s + [x]
    else
      var init := s[..|s| - 1];
      assert s == init + [s[|s| - 1]];
      InsertByT(init, x) + [s[|s| - 1]]
  }

  /** Inserting into an ordered sequence keeps it ordered. */
  lemma {:induction false} InsertSorted(s: seq<Break>, x: Break)
    requires SortedByT(s)
    ensures SortedByT(InsertByT(s, x))
  {
    if |s| > 0 && s[|s| - 1].t > x.t {
      var init, last := s[..|s| - 1], s[|s| - 1];
      InsertSorted(init, x);
      var r0 := InsertByT(init, x);
      forall i | 0 <= i < |r0| ensures r0[i].t <= last.t {
        assert r0[i] in multiset(r0);
        if r0[i] != x {
          assert r0[i] in multiset(init);
          var j :| 0 <= j < |init| && init[j] == r0[i];
          assert init[j] == s[j];
        }
      }
      assert InsertByT(s, x) == r0 + [last];
    }
  }

  /**
   * The sort of a line's breaks by t: the result is ordered and holds the
   * same breaks.  It is stable, like the library sort of the source, by
   * construction (InsertByT places a break after the breaks of equal t
   * already placed); the contract does not state stability.
   */
  function SortByT(s: seq<Break>): (r: seq<Break>)
    ensures multiset(r) == multiset(s) && SortedByT(r)
  {
    if |s| == 0 then []
    else
      var init := s[..|s| - 1];
      assert s == init + [s[|s| - 1]];
      InsertSorted(SortByT(init), s[|s| - 1]);
      InsertByT(SortByT(init), s[|s| - 1])
  }

  // ---------------------------------------------------------------------
  // Dropping consecutive duplicate nodes

  predicate NoAdjacentDup(c: seq<Break>)
  {
    forall k :: 0 <= k < |c| - 1 ==> c[k].node != c[k + 1].node
  }

  /** The compaction loop: a break is kept unless the last kept one has the same node. */
  function Dedup(s: seq<Break>): (r: seq<Break>)
  {
    if |s| == 0 then []
    else
      var d := Dedup(s[..|s| - 1]);
      if |d| == 0 || d[|d| - 1].node != s[|s| - 1].node then d + [s[|s| - 1]] else d
  }

  /**
   * Compaction leaves no two consecutive equal nodes, keeps only breaks of
   * the input, loses no node of it, and keeps its first and last node.
   */
  lemma {:induction false} DedupSpec(s: seq<Break>)
    ensures NoAdjacentDup(Dedup(s))
    ensures forall y :: y in Dedup(s) ==> y in s
    ensures forall i :: 0 <= i < |s| ==> exists k :: 0 <= k < |Dedup(s)| && Dedup(s)[k].node == s[i].node
    ensures |Dedup(s)| <= |s| && (|s| > 0 ==> |Dedup(s)| > 0 && Dedup(s)[0] == s[0])
    ensures |s| > 0 ==> Dedup(s)[|Dedup(s)| - 1].node == s[|s| - 1].node
  {
    if |s| > 0 {
      var init := s[..|s| - 1];
      DedupSpec(init);
      var d := Dedup(init);
      var last := s[|s| - 1];
      var grows := |d| == 0 || d[|d| - 1].node != last.node;
      assert Dedup(s) == if grows then d + [last] else d;
      assert NoAdjacentDup(Dedup(s)) by {
        if grows {
          forall k | 0 <= k < |d| ensures (d + [last])[k] == d[k] { }
        }
      }
      forall i | 0 <= i < |s|
        ensures exists k :: 0 <= k < |Dedup(s)| && Dedup(s)[k].node == s[i].node
      {
        if i < |s| - 1 {
          assert s[i] == init[i];
          var k :| 0 <= k < |d| && d[k].node == init[i].node;
          assert Dedup(s)[k] == d[k];
        } else {
          assert Dedup(s)[|Dedup(s)| - 1].node == s[i].node;
        }
      }
      forall y | y in Dedup(s) ensures y in s {
        if y in d {
          assert y in init;
        }
      }
    }
  }

  // ---------------------------------------------------------------------
  // Segments between consecutive nodes

  predicate BreaksBelow(s: seq<Break>, n: nat)
  {
    forall i :: 0 <= i < |s| ==> s[i].node < n
  }

  predicate SegsValid(segs: seq<Seg>, n: nat)
  {
    forall i :: 0 <= i < |segs| ==> segs[i].a < n && segs[i].b < n && segs[i].a != segs[i].b
  }

  /** The emission loop: a segment for each consecutive pair of distinct nodes. */
  function Chain(c: seq<Break>): (r: seq<Seg>)
    ensures forall i :: 0 <= i < |r| ==> r[i].a != r[i].b
  {
    if |c| < 2 then []
    else
      var a, b := c[|c| - 2].node, c[|c| - 1].node;
      Chain(c[..|c| - 1]) + (if a != b then [Seg(a, b)] else [])
  }

  /** The segments join nodes of the chain. */
  lemma {:induction false} ChainBelow(c: seq<Break>, n: nat)
    requires BreaksBelow(c, n)
    ensures SegsValid(Chain(c), n)
  {
    if |c| >= 2 {
      var init := c[..|c| - 1];
      assert BreaksBelow(init, n) by {
        forall k | 0 <= k < |init| ensures init[k].node < n {
          assert init[k] == c[k];
        }
      }
      ChainBelow(init, n);
    }
  }

  /** Without adjacent duplicates no pair is skipped: the segments are exactly the consecutive pairs. */
  lemma {:induction false} ChainOfCompact(c: seq<Break>)
    requires NoAdjacentDup(c)
    ensures |Chain(c)| == if |c| < 2 then 0 else |c| - 1
    ensures forall k :: 0 <= k < |Chain(c)| ==> Chain(c)[k] == Seg(c[k].node, c[k + 1].node)
  {
    if |c| >= 2 {
      var init := c[..|c| - 1];
      assert NoAdjacentDup(init) by {
        forall k | 0 <= k < |init| - 1 ensures init[k].node != init[k + 1].node {
          assert init[k] == c[k] && init[k + 1] == c[k + 1];
        }
      }
      ChainOfCompact(init);
      var r0 := Chain(init);
      assert c[|c| - 2].node != c[|c| - 1].node;
      assert Chain(c) == r0 + [Seg(c[|c| - 2].node, c[|c| - 1].node)];
      forall k | 0 <= k < |Chain(c)| ensures Chain(c)[k] == Seg(c[k].node, c[k + 1].node) {
        if k < |r0| {
          assert Chain(c)[k] == r0[k] == Seg(init[k].node, init[k + 1].node);
        }
      }
    }
  }

  /** The segments of one line: sort, compact, then chain (nothing for fewer than two nodes). */
  function LineSegs(breaks: seq<Break>): seq<Seg>
  {
    if |breaks| < 2 then []
    else
      var c := Dedup(SortByT(breaks));
      if |c| < 2 then [] else Chain(c)
  }

  /** Every segment of a line is non-degenerate and joins nodes that lie on the line. */
  lemma LineSegsValid(breaks: seq<Break>, n: nat)
    requires BreaksBelow(breaks, n)
    ensures SegsValid(LineSegs(breaks), n)
  {
    if |breaks| >= 2 {
      var sorted := SortByT(breaks);
      var c := Dedup(sorted);
      DedupSpec(sorted);
      forall k | 0 <= k < |c| ensures c[k].node < n {
        assert c[k] in sorted;
        assert c[k] in multiset(breaks);
      }
      ChainBelow(c, n);
    }
  }

  /** The segments of all lines, line by line. */
  function AllSegs(perLine: seq<seq<Break>>): seq<Seg>
  {
    if |perLine| == 0 then [] else AllSegs(perLine[..|perLine| - 1]) + LineSegs(perLine[|perLine| - 1])
  }

  // ---------------------------------------------------------------------
  // Half-edges

  /** Half-edges 2k and 2k+1 are segment k in its two directions, both tagged k. */
  predicate HalfEdgesOf(segs: seq<Seg>, hes: seq<HalfEdge>)
  {
    && |hes| == 2 * |segs|
    && forall k :: 0 <= k < |segs| ==>
         hes[2 * k] == HalfEdge(segs[k].a, segs[k].b, k) && hes[2 * k + 1] == HalfEdge(segs[k].b, segs[k].a, k)
  }

  /**
   * Every half-edge lies on the segment it names, and the other half-edge
   * of its pair (index i with the last bit flipped) runs the other way.
   */
  lemma HalfEdgePairs(segs: seq<Seg>, hes: seq<HalfEdge>, i: nat)
    requires HalfEdgesOf(segs, hes) && i < |hes|
    ensures hes[i].seg == i / 2 && i / 2 < |segs|
    ensures {hes[i].from, hes[i].to} == {segs[i / 2].a, segs[i / 2].b}
    ensures var j := if i % 2 == 0 then i + 1 else i - 1;
            j < |hes| && hes[j].seg == hes[i].seg && hes[j].from == hes[i].to && hes[j].to == hes[i].from
  {
    var k := i / 2;
    var sk := segs[k];
    if i % 2 == 0 {
      assert i == 2 * k && hes[i] == HalfEdge(sk.a, sk.b, k) && hes[i + 1] == HalfEdge(sk.b, sk.a, k);
    } else {
      assert i == 2 * k + 1 && hes[i] == HalfEdge(sk.b, sk.a, k) && hes[i - 1] == HalfEdge(sk.a, sk.b, k);
    }
  }

  // ---------------------------------------------------------------------
  // Incidence and outgoing lists

  /** The indices of the segments with an end at v, ascending (a loop at v would appear twice). */
  function Incident(segs: seq<Seg>, v: nat): seq<nat>
  {
    if |segs| == 0 then []
    else
      var m := |segs| - 1;
      Incident(segs[..m], v) + (if segs[m].a == v then [m] else []) + (if segs[m].b == v then [m] else [])
  }

  /** The incidence list of v holds exactly the segments touching v, in ascending order. */
  lemma {:induction false} IncidentSpec(segs: seq<Seg>, v: nat)
    ensures forall s :: s in Incident(segs, v) <==> 0 <= s < |segs| && (segs[s].a == v || segs[s].b == v)
    ensures forall j, k :: 0 <= j < k < |Incident(segs, v)| ==> Incident(segs, v)[j] <= Incident(segs, v)[k]
    ensures forall k :: 0 <= k < |Incident(segs, v)| ==> Incident(segs, v)[k] < |segs|
  {
    if |segs| > 0 {
      var m := |segs| - 1;
      var p := Incident(segs[..m], v);
      var t := (if segs[m].a == v then [m] else []) + (if segs[m].b == v then [m] else []);
      assert Incident(segs, v) == p + t;
      IncidentSpec(segs[..m], v);
      assert forall s :: 0 <= s < m ==> segs[..m][s] == segs[s];
      assert forall k :: 0 <= k < |t| ==> t[k] == m;
      assert forall k :: 0 <= k < |p| ==> p[k] < m;
    }
  }

  /** The indices of the half-edges leaving v, ascending. */
  function OutOf(hes: seq<HalfEdge>, v: nat): seq<nat>
  {
    if |hes| == 0 then []
    else
      var m := |hes| - 1;
      OutOf(hes[..m], v) + (if hes[m].from == v then [m] else [])
  }

  /**
   * The outgoing list of v holds exactly the half-edges leaving v, each
   * once, in ascending order.
   */
  lemma {:induction false} OutOfSpec(hes: seq<HalfEdge>, v: nat)
    ensures forall i :: i in OutOf(hes, v) <==> 0 <= i < |hes| && hes[i].from == v
    ensures forall j, k :: 0 <= j < k < |OutOf(hes, v)| ==> OutOf(hes, v)[j] < OutOf(hes, v)[k]
    ensures forall k :: 0 <= k < |OutOf(hes, v)| ==> OutOf(hes, v)[k] < |hes|
  {
    if |hes| > 0 {
      var m := |hes| - 1;
      OutOfSpec(hes[..m], v);
      assert forall i :: 0 <= i < m ==> hes[..m][i] == hes[i];
    }
  }

  // ---------------------------------------------------------------------
  // Flag counting

  /** Number of set flags. */
  function CountTrue(s: seq<bool>): (r: nat)
    ensures r <= |s|
  {
    if |s| == 0 then 0 else CountTrue(s[..|s| - 1]) + (if s[|s| - 1] then 1 else 0)
  }

  /** Clearing a set flag lowers the count by one. */
  lemma {:induction false} CountTrueClear(s: seq<bool>, i: nat)
    requires i < |s| && s[i]
    ensures CountTrue(s[i := false]) == CountTrue(s) - 1
  {
    var m := |s| - 1;
    if i < m {
      assert s[i := false][..m] == s[..m][i := false];
      CountTrueClear(s[..m], i);
    } else {
      assert s[i := false][..m] == s[..m];
    }
  }

  /** Setting a clear flag raises the count by one. */
  lemma {:induction false} CountTrueSet(s: seq<bool>, i: nat)
    requires i < |s| && !s[i]
    ensures CountTrue(s[i := true]) == CountTrue(s) + 1
  {
    var m := |s| - 1;
    if i < m {
      assert s[i := true][..m] == s[..m][i := true];
      CountTrueSet(s[..m], i);
    } else {
      assert s[i := true][..m] == s[..m];
    }
  }

  /** A count of zero means no flag is set. */
  lemma {:induction false} CountTrueZero(s: seq<bool>)
    requires CountTrue(s) == 0
    ensures s == seq(|s|, _ => false)
  {
    if |s| > 0 {
      var m := |s| - 1;
      CountTrueZero(s[..m]);
      assert forall i :: 0 <= i < m ==> s[i] == s[..m][i];
    }
  }

  /** No flag set in a fresh flag list. */
  lemma {:induction false} CountTrueNone(k: nat)
    ensures CountTrue(seq(k, _ => false)) == 0
  {
    if k > 0 {
      assert seq(k, _ => false)[..k - 1] == seq(k - 1, _ => false);
      CountTrueNone(k - 1);
    }
  }
}
