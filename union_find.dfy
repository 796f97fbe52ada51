// Union-find over node ids (src/graph.rs, struct DSU): parent, size and
// odd-degree-count vectors, union by size, path compression in find.
//
// Besides the three vectors of the source the model keeps two ghost
// sequences: `rep`, the representative of every node, and `depth`, a
// measure that strictly decreases along every parent pointer and from every
// node to its representative (the source has neither; they are proof-only).
// The invariant Forest below pins `rep` down completely: a node's
// representative is a self-parented node and is shared with its parent, so
// it is the root at the end of the node's parent chain.

module UnionFind {

  ghost function ClassSum(roots: seq<nat>, w: seq<nat>, c: nat): nat
    requires |w| == |roots|
    decreases |roots|
  {
    if |roots| == 0 then 0
    else ClassSum(roots[..|roots| - 1], w[..|w| - 1], c)
         + (if roots[|roots| - 1] == c then w[|w| - 1] else 0)
  }

  /** All-ones weights: ClassSum with these counts the members of a class. */
  ghost function Ones(n: nat): (w: seq<nat>)
    ensures |w| == n && forall i :: 0 <= i < n ==> w[i] == 1
  {
    seq(n, _ => 1)
  }

  /** The representatives after the class of `from` is merged into `to`. */
  ghost function Relabel(roots: seq<nat>, from: nat, to: nat): (r: seq<nat>)
    ensures |r| == |roots|
    ensures forall i :: 0 <= i < |roots| ==> r[i] == if roots[i] == from then to else roots[i]
  {
    seq(|roots|, i requires 0 <= i < |roots| => if roots[i] == from then to else roots[i])
  }

  // ---------------------------------------------------------------------
  // Lemmas about ClassSum

  lemma ClassSumAppend(roots: seq<nat>, w: seq<nat>, x: nat, v: nat, c: nat)
    requires |w| == |roots|
    ensures ClassSum(roots + [x], w + [v], c) == ClassSum(roots, w, c) + (if x == c then v else 0)
  {
    assert (roots + [x])[..|roots|] == roots;
    assert (w + [v])[..|w|] == w;
  }

  /** A class that no node belongs to sums to zero. */
  lemma {:induction false} ClassSumAbsent(roots: seq<nat>, w: seq<nat>, c: nat)
    requires |w| == |roots|
    requires forall i :: 0 <= i < |roots| ==> roots[i] != c
    ensures ClassSum(roots, w, c) == 0
    decreases |roots|
  {
    if |roots| > 0 {
      ClassSumAbsent(roots[..|roots| - 1], w[..|w| - 1], c);
    }
  }

  /** A class sums to zero exactly when every member has weight zero. */
  lemma {:induction false} ClassSumZero(roots: seq<nat>, w: seq<nat>, c: nat)
    requires |w| == |roots|
    ensures ClassSum(roots, w, c) == 0 <==> forall i :: 0 <= i < |roots| && roots[i] == c ==> w[i] == 0
    decreases |roots|
  {
    var n := |roots|;
    if n > 0 {
      ClassSumZero(roots[..n - 1], w[..n - 1], c);
      assert forall i :: 0 <= i < n - 1 ==> roots[..n - 1][i] == roots[i] && w[..n - 1][i] == w[i];
    }
  }

  /** A member of class c contributes its whole weight to the class sum. */
  lemma {:induction false} ClassSumAtLeast(roots: seq<nat>, w: seq<nat>, i: nat)
    requires |w| == |roots| && i < |roots|
    ensures ClassSum(roots, w, roots[i]) >= w[i]
    decreases |roots|
  {
    if i < |roots| - 1 {
      ClassSumAtLeast(roots[..|roots| - 1], w[..|w| - 1], i);
    }
  }

  /** Changing one weight changes only the sum of that node's class, by the difference. */
  lemma {:induction false} ClassSumUpdate(roots: seq<nat>, w: seq<nat>, i: nat, v: nat, c: nat)
    requires |w| == |roots| && i < |roots|
    ensures ClassSum(roots, w[i := v], c) as int
            == ClassSum(roots, w, c) as int + (if roots[i] == c then v as int - w[i] as int else 0)
    decreases |roots|
  {
    var n := |roots|;
    if i < n - 1 {
      assert w[i := v][..n - 1] == w[..n - 1][i := v];
      ClassSumUpdate(roots[..n - 1], w[..n - 1], i, v, c);
    } else {
      assert w[i := v][..n - 1] == w[..n - 1];
    }
  }

  /** Merging class a into class b adds a's sum to b's, empties a, and leaves the others. */
  lemma {:induction false} ClassSumRelabel(roots: seq<nat>, w: seq<nat>, a: nat, b: nat, c: nat)
    requires |w| == |roots| && a != b
    ensures ClassSum(Relabel(roots, a, b), w, c)
            == if c == b then ClassSum(roots, w, a) + ClassSum(roots, w, b)
               else if c == a then 0
               else ClassSum(roots, w, c)
    decreases |roots|
  {
    var n := |roots|;
    if n > 0 {
      assert Relabel(roots, a, b)[..n - 1] == Relabel(roots[..n - 1], a, b);
      ClassSumRelabel(roots[..n - 1], w[..n - 1], a, b, c);
    }
  }

  /** With weights 0 and 1 a class sum counts the class members of weight 1. */
  lemma {:induction false} ClassSumCount(roots: seq<nat>, w: seq<nat>, c: nat)
    requires |w| == |roots| && forall i :: 0 <= i < |w| ==> w[i] <= 1
    ensures ClassSum(roots, w, c) == |set u | 0 <= u < |roots| && roots[u] == c && w[u] == 1|
    decreases |roots|
  {
    var n := |roots|;
    if n > 0 {
      var roots', w' := roots[..n - 1], w[..n - 1];
      ClassSumCount(roots', w', c);
      var s' := set u | 0 <= u < n - 1 && roots'[u] == c && w'[u] == 1;
      var s := set u | 0 <= u < n && roots[u] == c && w[u] == 1;
      if roots[n - 1] == c && w[n - 1] == 1 {
        assert s == s' + {n - 1};
      } else {
        assert s == s';
      }
    }
  }


  // ---------------------------------------------------------------------
  // The forest

  /**
   * The links at node x are sound: its parent and its representative are in
   * range, the representative is a root, a root represents itself, the
   * parent has the same representative, and depth strictly falls along the
   * parent link and toward the representative.
   */
  ghost predicate WellLinked(parent: seq<nat>, rep: seq<nat>, depth: seq<nat>, x: nat)
    requires x < |parent| && |rep| == |parent| && |depth| == |parent|
  {
    && parent[x] < |parent| && rep[x] < |parent|
    && parent[rep[x]] == rep[x]
    && (parent[x] == x ==> rep[x] == x)
    && rep[parent[x]] == rep[x]
    && (parent[x] != x ==> depth[parent[x]] < depth[x])
    && (rep[x] != x ==> depth[rep[x]] < depth[x])
  }

  /**
   * The shape invariant of the parent vector together with the ghost
   * representatives and depths: every node is well linked.  Since depths
   * fall along parent links, following them from x ends at a root, and that
   * root is rep[x].
   */
  ghost predicate Forest(parent: seq<nat>, rep: seq<nat>, depth: seq<nat>)
  {
    && |rep| == |parent| && |depth| == |parent|
    && forall x {:trigger WellLinked(parent, rep, depth, x)} :: 0 <= x < |parent| ==> WellLinked(parent, rep, depth, x)
  }

  /** Every representative is in range and represents itself. */
  ghost predicate Closed(roots: seq<nat>)
  {
    forall x :: 0 <= x < |roots| ==> roots[x] < |roots| && roots[roots[x]] == roots[x]
  }

  lemma ForestClosed(parent: seq<nat>, rep: seq<nat>, depth: seq<nat>)
    requires Forest(parent, rep, depth)
    ensures Closed(rep)
  {
    forall x | 0 <= x < |rep| ensures rep[x] < |rep| && rep[rep[x]] == rep[x] {
      assert WellLinked(parent, rep, depth, x);
      assert WellLinked(parent, rep, depth, rep[x]);
    }
  }

  /** Repointing a node straight at its representative keeps the forest. */
  lemma CompressForest(parent: seq<nat>, rep: seq<nat>, depth: seq<nat>, x: nat)
    requires Forest(parent, rep, depth) && x < |parent|
    ensures Forest(parent[x := rep[x]], rep, depth)
  {
    var parent' := parent[x := rep[x]];
    assert WellLinked(parent, rep, depth, x);
    assert WellLinked(parent, rep, depth, rep[x]);
    forall y | 0 <= y < |parent| ensures WellLinked(parent', rep, depth, y) {
      assert WellLinked(parent, rep, depth, y);
    }
  }

  /** A fresh singleton appended as its own root. */
  lemma AppendForest(parent: seq<nat>, rep: seq<nat>, depth: seq<nat>)
    requires Forest(parent, rep, depth)
    ensures Forest(parent + [|parent|], rep + [|parent|], depth + [0])
  {
    var n := |parent|;
    forall y | 0 <= y < n + 1 ensures WellLinked(parent + [n], rep + [n], depth + [0], y) {
      if y < n {
        assert WellLinked(parent, rep, depth, y);
      }
    }
  }

  /** Depths after the class of `small` is hung below root `large`. */
  ghost function LinkDepth(rep: seq<nat>, depth: seq<nat>, small: nat, large: nat): (d: seq<nat>)
    requires |depth| == |rep| && large < |depth|
    ensures |d| == |depth|
  {
    seq(|depth|, x requires 0 <= x < |depth| => if rep[x] == small then depth[x] + depth[large] + 1 else depth[x])
  }

  /** Hanging root `small` below root `large` merges exactly those two classes. */
  lemma LinkForest(parent: seq<nat>, rep: seq<nat>, depth: seq<nat>, small: nat, large: nat)
    requires Forest(parent, rep, depth)
    requires small < |parent| && large < |parent| && small != large
    requires parent[small] == small && parent[large] == large
    ensures Forest(parent[small := large], Relabel(rep, small, large), LinkDepth(rep, depth, small, large))
  {
    var parent', rep', depth' := parent[small := large], Relabel(rep, small, large), LinkDepth(rep, depth, small, large);
    assert WellLinked(parent, rep, depth, small);
    assert WellLinked(parent, rep, depth, large);
    forall y | 0 <= y < |parent| ensures WellLinked(parent', rep', depth', y) {
      assert WellLinked(parent, rep, depth, y);
      assert WellLinked(parent, rep, depth, parent[y]);
      assert WellLinked(parent, rep, depth, rep[y]);
    }
  }

  /**
   * `tot` holds, at every representative, the total weight of its class.
   * With all-ones weights this is the size vector of the DSU; with the
   * degree parities of the graph store it is the odd-degree count.
   */
  ghost predicate Tracks(roots: seq<nat>, w: seq<nat>, tot: seq<nat>)
  {
    |tot| == |roots| && |w| == |roots| &&
    forall r {:trigger ClassSum(roots, w, r)} :: 0 <= r < |roots| && roots[r] == r ==>
      tot[r] == ClassSum(roots, w, r)
  }

  /** The size invariant: a root's size is the number of its members. */
  ghost predicate SizesTracked(roots: seq<nat>, size: seq<nat>)
  {
    Tracks(roots, Ones(|roots|), size)
  }

  /**
   * Changing the weight of node i moves the total of its class by the
   * difference; the total never goes negative because it includes w[i].
   */
  lemma UpdateTracks(roots: seq<nat>, w: seq<nat>, tot: seq<nat>, i: nat, v: nat)
    requires Tracks(roots, w, tot) && Closed(roots) && i < |roots|
    ensures tot[roots[i]] >= w[i]
    ensures Tracks(roots, w[i := v], tot[roots[i] := tot[roots[i]] - w[i] + v])
  {
    var c := roots[i];
    ClassSumAtLeast(roots, w, i);
    var tot' := tot[c := tot[c] - w[i] + v];
    forall r | 0 <= r < |roots| && roots[r] == r
      ensures tot'[r] == ClassSum(roots, w[i := v], r)
    {
      ClassSumUpdate(roots, w, i, v, r);
    }
  }

  /** Merging class `small` into class `large` keeps totals when they are added up. */
  lemma RelabelTracks(roots: seq<nat>, w: seq<nat>, tot: seq<nat>, small: nat, large: nat)
    requires Tracks(roots, w, tot)
    requires small < |roots| && large < |roots| && small != large
    requires roots[small] == small && roots[large] == large
    ensures Tracks(Relabel(roots, small, large), w, tot[large := tot[large] + tot[small]])
  {
    var roots', tot' := Relabel(roots, small, large), tot[large := tot[large] + tot[small]];
    forall r | 0 <= r < |roots'| && roots'[r] == r
      ensures tot'[r] == ClassSum(roots', w, r)
    {
      ClassSumRelabel(roots, w, small, large, r);
    }
  }

  /** A fresh singleton class keeps the totals when its own weight is its total. */
  lemma AppendTracks(roots: seq<nat>, w: seq<nat>, tot: seq<nat>, v: nat)
    requires Tracks(roots, w, tot) && Closed(roots)
    ensures Tracks(roots + [|roots|], w + [v], tot + [v])
  {
    var n := |roots|;
    forall r | 0 <= r < n + 1 && (roots + [n])[r] == r
      ensures (tot + [v])[r] == ClassSum(roots + [n], w + [v], r)
    {
      ClassSumAppend(roots, w, n, v, r);
      if r == n {
        ClassSumAbsent(roots, w, n);
      }
    }
  }


  /**
   * The DSU integrity check of src/graph.rs (check_dsu_integrity): every
   * node's representative is in range, is its own parent and has a positive
   * size.
   */
  ghost predicate DsuIntegrity(parent: seq<nat>, rep: seq<nat>, size: seq<nat>)
    requires |rep| == |parent| && |size| == |parent|
  {
    forall x :: 0 <= x < |parent| ==>
      var r := rep[x];
      r < |parent| && parent[r] == r && size[r] > 0
  }

  /** The size invariant implies the integrity check. */
  lemma {:induction false} SizesGiveIntegrity(parent: seq<nat>, rep: seq<nat>, depth: seq<nat>, size: seq<nat>)
    requires Forest(parent, rep, depth) && SizesTracked(rep, size)
    ensures DsuIntegrity(parent, rep, size)
  {
    ForestClosed(parent, rep, depth);
    forall x | 0 <= x < |parent|
      ensures rep[x] < |parent| && parent[rep[x]] == rep[x] && size[rep[x]] > 0
    {
      assert WellLinked(parent, rep, depth, x);
      ClassSumAtLeast(rep, Ones(|parent|), x);
    }
  }

  /** The invariant of the union-find, over its vectors and the ghost ones. */
  ghost predicate DsuInv(parent: seq<nat>, rep: seq<nat>, depth: seq<nat>, size: seq<nat>, odd: seq<nat>)
  {
    && Forest(parent, rep, depth)
    && |odd| == |parent|
    && SizesTracked(rep, size)
  }

  /** Linking two distinct roots, with sizes and odd counts added, keeps the invariant. */
  lemma LinkInv(parent: seq<nat>, rep: seq<nat>, depth: seq<nat>, size: seq<nat>, odd: seq<nat>,
                small: nat, large: nat)
    requires DsuInv(parent, rep, depth, size, odd)
    requires small < |parent| && large < |parent| && small != large
    requires parent[small] == small && parent[large] == large
    ensures DsuInv(parent[small := large], Relabel(rep, small, large), LinkDepth(rep, depth, small, large),
                   size[large := size[large] + size[small]], odd[large := odd[large] + odd[small]])
  {
    LinkForest(parent, rep, depth, small, large);
    ForestClosed(parent, rep, depth);
    assert WellLinked(parent, rep, depth, small) && WellLinked(parent, rep, depth, large);
    RelabelTracks(rep, Ones(|parent|), size, small, large);
  }

  // ---------------------------------------------------------------------

  /** The union-find structure of src/graph.rs. */
  class Dsu {
    var parent: seq<nat>
    var size: seq<nat>
    var oddCount: seq<nat>
    /** The representative of every node. */
    ghost var rep: seq<nat>
    ghost var depth: seq<nat>

    ghost predicate Valid()
      reads this
    {
      DsuInv(parent, rep, depth, size, oddCount)
    }

    constructor ()
      ensures Valid()
      ensures parent == [] && size == [] && oddCount == [] && rep == []
    {
      parent, size, oddCount, rep, depth := [], [], [], [], [];
    }

    /** Back to the empty structure (what replacing it by a new one amounts to). */
    method Reset()
      modifies this
      ensures Valid()
      ensures parent == [] && size == [] && oddCount == [] && rep == []
    {
      parent, size, oddCount, rep, depth := [], [], [], [], [];
    }

    /** make_set: a new singleton whose id is the old length. */
    method MakeSet() returns (id: nat)
      requires Valid()
      modifies this
      ensures Valid()
      ensures id == old(|parent|)
      ensures parent == old(parent) + [id]
      ensures size == old(size) + [1]
      ensures oddCount == old(oddCount) + [0]
      ensures rep == old(rep) + [id]
    {
      id := |parent|;
      AppendForest(parent, rep, depth);
      ForestClosed(parent, rep, depth);
      assert Ones(id + 1) == Ones(id) + [1];
      AppendTracks(rep, Ones(id), size, 1);
      parent, rep, depth := parent + [id], rep + [id], depth + [0];
      size := size + [1];
      oddCount := oddCount + [0];
    }

    /**
     * find: an in-range x yields its representative and the nodes on the way
     * are repointed at it; an out-of-range x is returned as it is.
     */
    method Find(x: nat) returns (r: nat)
      requires Valid()
      modifies this
      ensures Valid()
      ensures x >= old(|parent|) ==> r == x && parent == old(parent)
      ensures x < old(|parent|) ==> r == old(rep)[x] && r < |parent| && parent[r] == r
      ensures |parent| == old(|parent|) && rep == old(rep)
      ensures forall y :: 0 <= y < |parent| ==> parent[y] == old(parent[y]) || parent[y] == r
      ensures size == old(size) && oddCount == old(oddCount)
    {
      if x >= |parent| {
        return x;
      }
      r := x;
      while parent[r] != r
        invariant r < |parent| && rep[r] == rep[x]
        decreases depth[r]
      {
        assert WellLinked(parent, rep, depth, r);
        r := parent[r];
      }
      assert WellLinked(parent, rep, depth, r);
      var cur: nat := x;
      while cur != r
        invariant Valid() && |parent| == old(|parent|)
        invariant rep == old(rep) && depth == old(depth) && size == old(size) && oddCount == old(oddCount)
        invariant r < |parent| && parent[r] == r && rep[r] == r
        invariant cur < |parent| && rep[cur] == r
        invariant forall y :: 0 <= y < |parent| ==> parent[y] == old(parent[y]) || parent[y] == r
        decreases depth[cur]
      {
        var next := parent[cur];
        assert WellLinked(parent, rep, depth, cur);
        CompressForest(parent, rep, depth, cur);
        parent := parent[cur := r];
        cur := next;
      }
    }

    /** get_odd_count: the odd-degree count stored at x's representative. */
    method GetOddCount(x: nat) returns (c: nat)
      requires Valid() && x < |parent|
      modifies this
      ensures Valid() && rep == old(rep) && |parent| == old(|parent|)
      ensures size == old(size) && oddCount == old(oddCount)
      ensures rep[x] < |parent| && c == oddCount[rep[x]]
    {
      var root := Find(x);
      c := oddCount[root];
    }

    /** increment_odd_count: exactly one more at x's representative. */
    method IncrementOddCount(x: nat)
      requires Valid() && x < |parent|
      modifies this
      ensures Valid() && rep == old(rep) && |parent| == old(|parent|)
      ensures size == old(size) && old(rep)[x] < |parent|
      ensures oddCount == old(oddCount)[old(rep)[x] := old(oddCount)[old(rep)[x]] + 1]
    {
      var root := Find(x);
      oddCount := oddCount[root := oddCount[root] + 1];
    }

    /** decrement_odd_count: one less at x's representative, never below zero. */
    method DecrementOddCount(x: nat)
      requires Valid() && x < |parent|
      modifies this
      ensures Valid() && rep == old(rep) && |parent| == old(|parent|)
      ensures size == old(size) && old(rep)[x] < |parent|
      ensures var r := old(rep)[x];
              oddCount == old(oddCount)[r := if old(oddCount)[r] > 0 then old(oddCount)[r] - 1 else 0]
    {
      var root := Find(x);
      if oddCount[root] > 0 {
        oddCount := oddCount[root := oddCount[root] - 1];
      }
    }

    /**
     * The state after root `small` is linked below root `large`, given the
     * representatives, sizes and odd counts before: the class of `small`
     * joins that of `large`, whose size and odd count absorb those of `small`.
     */
    ghost predicate LinkedBelow(rep0: seq<nat>, size0: seq<nat>, odd0: seq<nat>, small: nat, large: nat)
      reads this
      requires small < |size0| && large < |size0| && small < |odd0| && large < |odd0|
    {
      && small < |parent| && parent[small] == large
      && rep == Relabel(rep0, small, large)
      && size == size0[large := size0[large] + size0[small]]
      && oddCount == odd0[large := odd0[large] + odd0[small]]
    }

    /**
     * union: afterwards x and y share a representative.  Of two distinct
     * representatives the one with the smaller size (y's on a tie) is hung
     * below the other, which takes the sum of both sizes and odd counts.
     * Out-of-range ids are only accepted when x == y (the source indexes the
     * size vector with them otherwise).
     */
    method Union(x: nat, y: nat)
      requires Valid()
      requires x == y || (x < |parent| && y < |parent|)
      modifies this
      ensures Valid() && |parent| == old(|parent|)
      ensures x < |parent| ==> rep[x] == rep[y] && old(rep)[x] < |parent| && old(rep)[y] < |parent|
      ensures x < |parent| && old(rep)[x] == old(rep)[y] ==>
                rep == old(rep) && size == old(size) && oddCount == old(oddCount)
      ensures x < |parent| && old(rep)[x] != old(rep)[y] ==>
                var rx, ry := old(rep)[x], old(rep)[y];
                old(size)[rx] < old(size)[ry] ==> LinkedBelow(old(rep), old(size), old(oddCount), rx, ry)
      ensures x < |parent| && old(rep)[x] != old(rep)[y] ==>
                var rx, ry := old(rep)[x], old(rep)[y];
                old(size)[rx] >= old(size)[ry] ==> LinkedBelow(old(rep), old(size), old(oddCount), ry, rx)
      ensures x >= old(|parent|) ==> parent == old(parent) && size == old(size) && oddCount == old(oddCount)
    {
      var rx := Find(x);
      var ry := Find(y);
      if rx == ry {
        return;
      }
      assert rx == old(rep)[x] && ry == old(rep)[y];
      assert WellLinked(parent, rep, depth, x) && WellLinked(parent, rep, depth, y);
      assert size == old(size) && oddCount == old(oddCount) && rep == old(rep);
      var small, large := rx, ry;
      if size[rx] >= size[ry] {
        small, large := ry, rx;
      }
      Link(small, large);
    }

    /** Hang root `small` below root `large`, which takes both sizes and odd counts. */
    method Link(small: nat, large: nat)
      requires Valid()
      requires small < |parent| && large < |parent| && small != large
      requires parent[small] == small && parent[large] == large
      modifies this
      ensures Valid() && |parent| == old(|parent|)
      ensures parent == old(parent)[small := large]
      ensures LinkedBelow(old(rep), old(size), old(oddCount), small, large)
    {
      LinkInv(parent, rep, depth, size, oddCount, small, large);
      parent, rep, depth := parent[small := large], Relabel(rep, small, large), LinkDepth(rep, depth, small, large);
      size := size[large := size[large] + size[small]];
      oddCount := oddCount[large := oddCount[large] + oddCount[small]];
    }
  }
}
