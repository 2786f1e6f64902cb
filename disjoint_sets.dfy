/** The parent-pointer forest behind both union-find structures
    (struct DSU in tsp.cpp, the global parent/rankSet vectors in
    TSP_Approximatif.cpp), as pure definitions over the two vectors:
    what a root is, why path compression and union by rank keep every
    root, and how the forest tracks the components of the accepted edges. */
module ParentForest {
  import opened MetricGraph
  import opened SpanningForest

  /** The largest rank (0 for no ranks). */
  function Ceiling(r: seq<nat>): (c: nat)
    ensures forall i :: 0 <= i < |r| ==> r[i] <= c
    decreases |r|
  {
    if r == [] then 0
    else
      var c := Ceiling(r[..|r| - 1]);
      if r[|r| - 1] > c then r[|r| - 1] else c
  }

  /** Every parent is an index, and a non-root has a strictly smaller rank
      than its parent: following parents always ends at a root. */
  ghost predicate IsForest(p: seq<int>, r: seq<nat>)
  {
    && |p| == |r|
    && forall x :: 0 <= x < |p| ==> 0 <= p[x] < |p| && (p[x] != x ==> r[x] < r[p[x]])
  }

  /** The root reached from x by following parents. */
  ghost function Root(p: seq<int>, r: seq<nat>, x: int): (root: int)
    requires IsForest(p, r) && 0 <= x < |p|
    ensures 0 <= root < |p| && p[root] == root
    ensures root != x ==> r[x] < r[root]
    decreases Ceiling(r) - r[x]
  {
    if p[x] == x then x else Root(p, r, p[x])
  }

  /** Pointing x straight at its root keeps a forest and changes no root. */
  lemma {:induction false} Compress(p: seq<int>, r: seq<nat>, x: int, y: int)
    requires IsForest(p, r) && 0 <= x < |p| && 0 <= y < |p|
    ensures IsForest(p[x := Root(p, r, x)], r)
    ensures Root(p[x := Root(p, r, x)], r, y) == Root(p, r, y)
    decreases Ceiling(r) - r[y]
  {
    var q := p[x := Root(p, r, x)];
    assert IsForest(q, r);
    if y == x {
      if Root(p, r, x) != x {
        assert q[Root(p, r, x)] == Root(p, r, x);
      }
    } else if p[y] != y {
      Compress(p, r, x, p[y]);
    }
  }

  /** Hanging root b under root a, whose rank is not smaller, and raising
      a's rank on a tie keeps a forest; every element whose root was b now
      has root a, and every other root stays. */
  lemma {:induction false} Link(p: seq<int>, r: seq<nat>, a: int, b: int, y: int)
    requires IsForest(p, r) && 0 <= a < |p| && 0 <= b < |p| && 0 <= y < |p|
    requires p[a] == a && p[b] == b && a != b && r[b] <= r[a]
    ensures var r' := if r[a] == r[b] then r[a := r[a] + 1] else r;
      && IsForest(p[b := a], r')
      && Root(p[b := a], r', y) == if Root(p, r, y) == b then a else Root(p, r, y)
    decreases Ceiling(r) - r[y]
  {
    var q, r' := p[b := a], if r[a] == r[b] then r[a := r[a] + 1] else r;
    forall x | 0 <= x < |q| ensures 0 <= q[x] < |q| && (q[x] != x ==> r'[x] < r'[q[x]]) {
      if x != b && x != a && p[x] != x {
        assert r'[x] == r[x] < r[p[x]] <= r'[p[x]];
      }
    }
    assert IsForest(q, r');
    if y != b && p[y] != y {
      Link(p, r, a, b, p[y]);
    }
  }

  /** (p, r) and (p0, r0) are forests over the same elements with the same
      root for every element. */
  ghost predicate SameRoots(p0: seq<int>, r0: seq<nat>, p: seq<int>, r: seq<nat>)
  {
    && IsForest(p0, r0) && IsForest(p, r) && |p| == |p0|
    && forall y :: 0 <= y < |p| ==> Root(p, r, y) == Root(p0, r0, y)
  }

  lemma SameRootsTrans(p0: seq<int>, r0: seq<nat>, p1: seq<int>, r1: seq<nat>, p: seq<int>, r: seq<nat>)
    requires SameRoots(p0, r0, p1, r1) && SameRoots(p1, r1, p, r)
    ensures SameRoots(p0, r0, p, r)
  {
  }

  /** The forest groups 0 .. n-1 exactly as the components of F do. */
  ghost predicate Tracks(p: seq<int>, r: seq<nat>, F: seq<Edge>, n: nat)
  {
    && IsForest(p, r) && |p| == n
    && forall x, y :: 0 <= x < n && 0 <= y < n ==>
         (Root(p, r, x) == Root(p, r, y) <==> Label(F, x) == Label(F, y))
  }

  /** n singletons track the edgeless graph. */
  lemma Singletons(r: seq<nat>, n: nat)
    requires |r| == n
    ensures Tracks(seq(n, i => i), r, [], n)
  {
    var p := seq(n, i => i);
    forall x | 0 <= x < n ensures Root(p, r, x) == x { }
  }

  /** When the forest tracks F and a union merges the roots of e's endpoints
      (one of them becomes the root of the other's elements), the new forest
      tracks F + [e]. */
  lemma TracksMerge(p: seq<int>, r: seq<nat>, p': seq<int>, r': seq<nat>, F: seq<Edge>, e: Edge, n: nat,
                    a: int, b: int)
    requires Tracks(p, r, F, n) && IsForest(p', r') && |p'| == n
    requires 0 <= e.u < n && 0 <= e.v < n
    requires (a == Root(p, r, e.u) && b == Root(p, r, e.v)) || (a == Root(p, r, e.v) && b == Root(p, r, e.u))
    requires forall y :: 0 <= y < n ==> Root(p', r', y) == if Root(p, r, y) == b then a else Root(p, r, y)
    ensures Tracks(p', r', F + [e], n)
  {
    forall x, y | 0 <= x < n && 0 <= y < n
      ensures Root(p', r', x) == Root(p', r', y) <==> Label(F + [e], x) == Label(F + [e], y)
    {
      LabelStep(F, e, x);
      LabelStep(F, e, y);
      var mx := Root(p, r, x) == a || Root(p, r, x) == b;
      var my := Root(p, r, y) == a || Root(p, r, y) == b;
      assert mx <==> Label(F, x) == Label(F, e.u) || Label(F, x) == Label(F, e.v);
      assert my <==> Label(F, y) == Label(F, e.u) || Label(F, y) == Label(F, e.v);
    }
  }

  /** What a successful union by rank did to the forest (p, r), whose roots
      of the two sides were ra != rb: the root of lower rank (rb on a tie)
      now points at the other, whose rank grew by one on a tie, and the
      elements of the lower root's tree now have the other root. */
  ghost predicate UnitedByRank(p: seq<int>, r: seq<nat>, p': seq<int>, r': seq<nat>, ra: int, rb: int)
    requires IsForest(p, r) && IsForest(p', r') && |p'| == |p| && 0 <= ra < |p| && 0 <= rb < |p|
  {
    var (lo, hi) := if r[ra] < r[rb] then (ra, rb) else (rb, ra);
    && p'[lo] == hi
    && r' == (if r[ra] == r[rb] then r[hi := r[hi] + 1] else r)
    && forall y :: 0 <= y < |p| ==> Root(p', r', y) == if Root(p, r, y) == lo then hi else Root(p, r, y)
  }

  /** Union by rank on a forest p whose roots are those of p0 (p is p0 after
      path compression): ra != rb are the roots of the two sides, and lo,
      hi are the same two roots with lo of lower rank (rb on a tie).
      Hanging lo under hi, with hi's rank raised on a tie, is a successful
      union as seen from p0. */
  lemma LinkByRank(p0: seq<int>, r: seq<nat>, p: seq<int>, ra: int, rb: int, lo: int, hi: int)
    requires SameRoots(p0, r, p, r)
    requires 0 <= ra < |p| && 0 <= rb < |p| && ra != rb && p[ra] == ra && p[rb] == rb
    requires (lo, hi) == if r[ra] < r[rb] then (ra, rb) else (rb, ra)
    ensures var r' := if r[hi] == r[lo] then r[hi := r[hi] + 1] else r;
      && IsForest(p[lo := hi], r')
      && UnitedByRank(p0, r, p[lo := hi], r', ra, rb)
  {
    var r' := if r[hi] == r[lo] then r[hi := r[hi] + 1] else r;
    forall y | 0 <= y < |p|
      ensures IsForest(p[lo := hi], r')
      ensures Root(p[lo := hi], r', y) == if Root(p, r, y) == lo then hi else Root(p, r, y)
    {
      Link(p, r, hi, lo, y);
    }
  }

  /** A union judged on a compressed forest p counts the same on any forest
      p0 with the same roots. */
  lemma UnitedTransfer(p0: seq<int>, p: seq<int>, r: seq<nat>, p': seq<int>, r': seq<nat>, ra: int, rb: int)
    requires SameRoots(p0, r, p, r) && IsForest(p', r') && |p'| == |p| && 0 <= ra < |p| && 0 <= rb < |p|
    requires UnitedByRank(p, r, p', r', ra, rb)
    ensures UnitedByRank(p0, r, p', r', ra, rb)
  {
  }

  /** One call of unite on edge e keeps the forest tracking the accepted
      edges: it merges exactly when e joins two components, and then the
      forest tracks F + [e]. */
  lemma UniteTracks(p0: seq<int>, r0: seq<nat>, p: seq<int>, r: seq<nat>, F: seq<Edge>, e: Edge, n: nat,
                    merged: bool)
    requires Tracks(p0, r0, F, n) && IsForest(p, r) && |p| == n
    requires 0 <= e.u < n && 0 <= e.v < n
    requires merged <==> Root(p0, r0, e.u) != Root(p0, r0, e.v)
    requires !merged ==> SameRoots(p0, r0, p, r)
    requires merged ==> UnitedByRank(p0, r0, p, r, Root(p0, r0, e.u), Root(p0, r0, e.v))
    ensures merged <==> Label(F, e.u) != Label(F, e.v)
    ensures Tracks(p, r, if merged then F + [e] else F, n)
  {
    if merged {
      var ra, rb := Root(p0, r0, e.u), Root(p0, r0, e.v);
      var (lo, hi) := if r0[ra] < r0[rb] then (ra, rb) else (rb, ra);
      TracksMerge(p0, r0, p, r, F, e, n, hi, lo);
    }
  }
}
