// find_connected_lines of src/lib.rs: the lines reachable from a start line
// through lines that share an endpoint.  Whether two lines share an endpoint
// (a float distance test against a tolerance) is handed in as `connects`.

module Connect {
  import opened Shapes
  import opened FillSpec

  /** No index occurs twice. */
  predicate Distinct(s: seq<nat>)
  {
    forall i, j :: 0 <= i < j < |s| ==> s[i] != s[j]
  }

  /** Two index lists without repeats and with no index in common join into one without repeats. */
  lemma DistinctJoin(a: seq<nat>, b: seq<nat>)
    requires Distinct(a) && Distinct(b) && forall x :: x in a ==> x !in b
    ensures Distinct(a + b)
  {
    forall i, j | 0 <= i < j < |a + b| ensures (a + b)[i] != (a + b)[j] {
      if j < |a| {
      } else if i >= |a| {
        assert (a + b)[i] == b[i - |a|] && (a + b)[j] == b[j - |a|];
      } else {
        assert (a + b)[i] in a && (a + b)[j] == b[j - |a|];
      }
    }
  }

  /** Lines u and v exist and line u connects to line v. */
  predicate Conn(lines: seq<Line>, connects: (Line, Line) -> bool, u: nat, v: nat)
  {
    u < |lines| && v < |lines| && connects(lines[u], lines[v])
  }

  /** A chain of line indices, each line connecting to the next. */
  ghost predicate IsPath(lines: seq<Line>, connects: (Line, Line) -> bool, p: seq<nat>)
  {
    && |p| > 0
    && (forall k :: 0 <= k < |p| ==> p[k] < |lines|)
    && (forall k :: 0 <= k < |p| - 1 ==> Conn(lines, connects, p[k], p[k + 1]))
  }

  /** Line t can be reached from line s. */
  ghost predicate Reachable(lines: seq<Line>, connects: (Line, Line) -> bool, s: nat, t: nat)
  {
    exists p :: IsPath(lines, connects, p) && p[0] == s && p[|p| - 1] == t
  }

  /** The chain recorded for line v runs from the start line to v. */
  ghost predicate HasPath(lines: seq<Line>, connects: (Line, Line) -> bool, start: nat,
                          paths: map<nat, seq<nat>>, v: nat)
  {
    v in paths && IsPath(lines, connects, paths[v]) && paths[v][0] == start && paths[v][|paths[v]| - 1] == v
  }

  /** Every visited line has a recorded chain from the start line to it. */
  ghost predicate PathsOk(lines: seq<Line>, connects: (Line, Line) -> bool, start: nat,
                          visited: seq<bool>, paths: map<nat, seq<nat>>)
  {
    forall v {:trigger HasPath(lines, connects, start, paths, v)} :: 0 <= v < |visited| && visited[v] ==>
      HasPath(lines, connects, start, paths, v)
  }

  /** A line reached from a visited line gets that line's chain extended by one step. */
  lemma ExtendPaths(lines: seq<Line>, connects: (Line, Line) -> bool, start: nat,
                    visited: seq<bool>, paths: map<nat, seq<nat>>, u: nat, j: nat)
    requires PathsOk(lines, connects, start, visited, paths) && HasPath(lines, connects, start, paths, u)
    requires j < |visited| && j < |lines| && u < |lines| && Conn(lines, connects, u, j)
    ensures PathsOk(lines, connects, start, visited[j := true], paths[j := paths[u] + [j]])
  {
    var pu := paths[u];
    assert forall k :: 0 <= k < |pu| ==> (pu + [j])[k] == pu[k];
    assert IsPath(lines, connects, pu + [j]);
    var paths' := paths[j := pu + [j]];
    forall v | 0 <= v < |visited| && visited[j := true][v] ensures HasPath(lines, connects, start, paths', v) {
      if v != j {
        assert HasPath(lines, connects, start, paths, v);
      }
    }
  }

  /** The lines below j, in index order, that are not yet visited and connect to line u. */
  function Fresh(lines: seq<Line>, connects: (Line, Line) -> bool, u: nat, visited: seq<bool>, j: nat): seq<nat>
    requires u < |lines| && j <= |visited| == |lines|
  {
    if j == 0 then []
    else
      Fresh(lines, connects, u, visited, j - 1)
        + (if !visited[j - 1] && Conn(lines, connects, u, j - 1) then [j - 1] else [])
  }

  /** Fresh lists each unvisited line below j that connects to u, exactly once. */
  lemma {:induction false} FreshSpec(lines: seq<Line>, connects: (Line, Line) -> bool, u: nat, visited: seq<bool>, j: nat)
    requires u < |lines| && j <= |visited| == |lines|
    ensures forall v :: v in Fresh(lines, connects, u, visited, j) <==>
              0 <= v < j && !visited[v] && Conn(lines, connects, u, v)
    ensures Distinct(Fresh(lines, connects, u, visited, j))
  {
    if j > 0 {
      FreshSpec(lines, connects, u, visited, j - 1);
    }
  }

  /**
   * The neighbour scan from line u: every line not yet visited that
   * connects to u is marked visited and pushed, in index order, each with
   * its chain extended by one step from u's.
   */
  method Expand(lines: seq<Line>, connects: (Line, Line) -> bool, start: nat, u: nat,
                visited0: seq<bool>, stack0: seq<nat>, ghost paths0: map<nat, seq<nat>>)
    returns (visited: seq<bool>, stack: seq<nat>, ghost paths: map<nat, seq<nat>>)
    requires |visited0| == |lines| && u < |lines| && visited0[u]
    requires PathsOk(lines, connects, start, visited0, paths0)
    ensures |visited| == |lines|
    ensures forall v :: 0 <= v < |lines| ==> visited[v] == (visited0[v] || Conn(lines, connects, u, v))
    ensures stack == stack0 + Fresh(lines, connects, u, visited0, |lines|)
    ensures CountTrue(visited) == CountTrue(visited0) + |stack| - |stack0|
    ensures PathsOk(lines, connects, start, visited, paths)
  {
    visited, stack, paths := visited0, stack0, paths0;
    var j := 0;
    while j < |lines|
      invariant j <= |lines| && |visited| == |lines| && stack == stack0 + Fresh(lines, connects, u, visited0, j)
      invariant forall v :: 0 <= v < |lines| ==>
                  visited[v] == (visited0[v] || (v < j && Conn(lines, connects, u, v)))
      invariant CountTrue(visited) == CountTrue(visited0) + |stack| - |stack0|
      invariant PathsOk(lines, connects, start, visited, paths)
    {
      if !visited[j] && Conn(lines, connects, u, j) {
        assert HasPath(lines, connects, start, paths, u);
        ExtendPaths(lines, connects, start, visited, paths, u, j);
        CountTrueSet(visited, j);
        paths := paths[j := paths[u] + [j]];
        visited := visited[j := true];
        stack := stack + [j];
      }
      j := j + 1;
    }
  }

  /**
   * What the search keeps: the visited flags are the lines listed or
   * stacked, no line is listed or stacked twice, every line connecting to a
   * listed line is visited, every visited line has a chain from the start,
   * and the start line comes first.
   */
  ghost predicate SearchInv(lines: seq<Line>, connects: (Line, Line) -> bool, start: nat,
                            visited: seq<bool>, r: seq<nat>, stack: seq<nat>, paths: map<nat, seq<nat>>)
  {
    var n := |lines|;
    && |visited| == n
    && (forall v :: v in r ==> v < n)
    && (forall v :: v in stack ==> v < n)
    && (forall v :: 0 <= v < n ==> (visited[v] <==> v in r || v in stack))
    && Distinct(r) && Distinct(stack) && (forall v :: v in r ==> v !in stack)
    && CountTrue(visited) == |r| + |stack|
    && (forall i, j :: i in r && 0 <= j < n && Conn(lines, connects, i, j) ==> visited[j])
    && PathsOk(lines, connects, start, visited, paths)
    && (if |r| == 0 then stack == [start] else r[0] == start)
  }

  /** After a round, the visited lines are still exactly the listed and the stacked ones. */
  lemma VisitMembers(n: nat, visited0: seq<bool>, visited: seq<bool>, r0: seq<nat>, stack0: seq<nat>,
                     u: nat, popped: seq<nat>, reached: seq<nat>)
    requires |visited0| == n && |visited| == n
    requires forall v :: 0 <= v < n ==> (visited0[v] <==> v in r0 || v in stack0)
    requires stack0 == popped + [u]
    requires forall v :: 0 <= v < n ==> (visited[v] <==> visited0[v] || v in reached)
    ensures forall v :: 0 <= v < n ==> (visited[v] <==> v in r0 + [u] || v in popped + reached)
  {
    forall v | 0 <= v < n ensures visited[v] <==> v in r0 + [u] || v in popped + reached {
      assert v in stack0 <==> v in popped || v == u;
    }
  }

  /** After a round, no line is listed or stacked twice. */
  lemma VisitDistinct(r0: seq<nat>, stack0: seq<nat>, u: nat, popped: seq<nat>, reached: seq<nat>)
    requires Distinct(r0) && Distinct(stack0) && (forall v :: v in r0 ==> v !in stack0)
    requires stack0 == popped + [u] && Distinct(reached)
    requires forall v :: v in reached ==> v !in r0 && v !in stack0
    ensures Distinct(r0 + [u]) && Distinct(popped + reached)
    ensures forall v :: v in r0 + [u] ==> v !in popped + reached
  {
    assert u in stack0 && u !in r0;
    forall v | v in popped ensures v in stack0 && v != u {
      var k :| 0 <= k < |popped| && popped[k] == v;
      assert stack0[k] == v && stack0[|stack0| - 1] == u;
    }
    assert Distinct(popped) by {
      assert forall k :: 0 <= k < |popped| ==> popped[k] == stack0[k];
    }
    DistinctJoin(r0, [u]);
    DistinctJoin(popped, reached);
  }

  /** After a round, every line connecting to a listed line, the new one included, is visited. */
  lemma VisitClosed(lines: seq<Line>, connects: (Line, Line) -> bool, visited0: seq<bool>, visited: seq<bool>,
                    r0: seq<nat>, u: nat)
    requires |visited0| == |lines| && |visited| == |lines|
    requires forall i, j :: i in r0 && 0 <= j < |lines| && Conn(lines, connects, i, j) ==> visited0[j]
    requires forall v :: 0 <= v < |lines| ==> visited[v] == (visited0[v] || Conn(lines, connects, u, v))
    ensures forall i, j :: i in r0 + [u] && 0 <= j < |lines| && Conn(lines, connects, i, j) ==> visited[j]
  {
    forall i, j | i in r0 + [u] && 0 <= j < |lines| && Conn(lines, connects, i, j) ensures visited[j] {
      if i != u {
        assert i in r0;
      }
    }
  }

  /** A round keeps the search invariant: the facts of the neighbour scan after popping u. */
  lemma VisitInv(lines: seq<Line>, connects: (Line, Line) -> bool, start: nat,
                 visited0: seq<bool>, r0: seq<nat>, stack0: seq<nat>, paths0: map<nat, seq<nat>>,
                 u: nat, popped: seq<nat>, visited: seq<bool>, stack: seq<nat>, paths: map<nat, seq<nat>>)
    requires SearchInv(lines, connects, start, visited0, r0, stack0, paths0)
    requires stack0 == popped + [u] && u < |lines|
    requires |visited| == |lines|
    requires forall v :: 0 <= v < |lines| ==> visited[v] == (visited0[v] || Conn(lines, connects, u, v))
    requires stack == popped + Fresh(lines, connects, u, visited0, |lines|)
    requires CountTrue(visited) == CountTrue(visited0) + |stack| - |popped|
    requires PathsOk(lines, connects, start, visited, paths)
    ensures SearchInv(lines, connects, start, visited, r0 + [u], stack, paths)
  {
    var n := |lines|;
    var reached := Fresh(lines, connects, u, visited0, n);
    FreshSpec(lines, connects, u, visited0, n);
    VisitMembers(n, visited0, visited, r0, stack0, u, popped, reached);
    VisitDistinct(r0, stack0, u, popped, reached);
    VisitClosed(lines, connects, visited0, visited, r0, u);
    assert u in stack0;
    assert forall v :: v in r0 + [u] ==> v < n by {
      forall v | v in r0 + [u] ensures v < n {
        if v != u { assert v in r0; }
      }
    }
    assert forall v :: v in stack ==> v < n by {
      forall v | v in stack ensures v < n {
        if v !in reached { assert v in popped && v in stack0; }
      }
    }
    if |r0| == 0 {
      assert stack0 == [start] && u == start;
    }
    assert (r0 + [u])[0] == if |r0| == 0 then u else r0[0];
  }

  /** One round of the search: pop a line, list it, and scan its neighbours. */
  method Visit(lines: seq<Line>, connects: (Line, Line) -> bool, start: nat,
               visited0: seq<bool>, r0: seq<nat>, stack0: seq<nat>, ghost paths0: map<nat, seq<nat>>)
    returns (visited: seq<bool>, r: seq<nat>, stack: seq<nat>, ghost paths: map<nat, seq<nat>>)
    requires SearchInv(lines, connects, start, visited0, r0, stack0, paths0) && |stack0| > 0
    ensures SearchInv(lines, connects, start, visited, r, stack, paths) && |r| == |r0| + 1
  {
    var u: nat := stack0[|stack0| - 1];
    var popped := stack0[..|stack0| - 1];
    assert stack0 == popped + [u];
    assert u in stack0;
    r := r0 + [u];
    visited, stack, paths := Expand(lines, connects, start, u, visited0, popped, paths0);
    VisitInv(lines, connects, start, visited0, r0, stack0, paths0, u, popped, visited, stack, paths);
  }

  /**
   * find_connected_lines: empty for an empty line list or an out-of-range
   * start.  Otherwise it lists the start line first, each line at most once,
   * only lines reachable from the start, and every line that connects to a
   * listed line, so it is exactly the start line's connected component.
   */
  method FindConnected(lines: seq<Line>, start: nat, connects: (Line, Line) -> bool) returns (r: seq<nat>)
    ensures start >= |lines| ==> r == []
    ensures start < |lines| ==> |r| > 0 && r[0] == start
    ensures forall i :: i in r ==> i < |lines| && Reachable(lines, connects, start, i)
    ensures Distinct(r)
    ensures forall i, j :: i in r && 0 <= j < |lines| && Conn(lines, connects, i, j) ==> j in r
  {
    if |lines| == 0 || start >= |lines| {
      return [];
    }
    var n := |lines|;
    var visited := seq(n, _ => false);
    CountTrueNone(n);
    CountTrueSet(visited, start);
    visited := visited[start := true];
    var stack: seq<nat> := [start];
    ghost var paths: map<nat, seq<nat>> := map[start := [start]];
    r := [];
    assert HasPath(lines, connects, start, paths, start);
    while |stack| > 0
      invariant SearchInv(lines, connects, start, visited, r, stack, paths)
      decreases n - |r|
    {
      visited, r, stack, paths := Visit(lines, connects, start, visited, r, stack, paths);
    }
    forall i | i in r ensures Reachable(lines, connects, start, i) {
      assert HasPath(lines, connects, start, paths, i);
      assert IsPath(lines, connects, paths[i]);
    }
  }
}
