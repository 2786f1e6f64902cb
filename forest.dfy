/** Edge sets over vertex indices: components, forests, spanning trees and
    Kruskal's greedy selection, as pure definitions shared by both
    implementations (tsp.cpp and TSP_Approximatif.cpp). */
module SpanningForest {
  import opened MetricGraph
  import opened EdgeSort

  /** The name of x's component in the graph whose edges are F: adding an
      edge (u, v) renames every vertex of v's component to u's name. */
  function Label(F: seq<Edge>, x: int): int
    decreases |F|
  {
    if F == [] then x
    else
      var G, e := F[..|F| - 1], F[|F| - 1];
      if Label(G, x) == Label(G, e.v) then Label(G, e.u) else Label(G, x)
  }

  /** Every edge joins two different components of the edges before it:
      the edge set has no cycle. */
  ghost predicate Acyclic(F: seq<Edge>)
  {
    forall k {:trigger Label(F[..k], F[k].u)} :: 0 <= k < |F| ==> Label(F[..k], F[k].u) != Label(F[..k], F[k].v)
  }

  /** Vertices 0 .. n-1 all lie in one component. */
  ghost predicate Spans(F: seq<Edge>, n: nat)
  {
    forall x :: 0 <= x < n ==> Label(F, x) == Label(F, 0)
  }

  /** Both endpoints of every edge are vertices 0 .. n-1. */
  ghost predicate EdgesWithin(F: seq<Edge>, n: nat)
  {
    forall e :: e in F ==> 0 <= e.u < n && 0 <= e.v < n
  }

  /** Some edge of es has u == i and v == j. */
  ghost predicate HasPair(es: seq<Edge>, i: int, j: int)
  {
    exists e :: e in es && e.u == i && e.v == j
  }

  /** Every pair i < j < n is the (u, v) of some edge of es. */
  ghost predicate CoversPairs(es: seq<Edge>, n: nat)
  {
    forall i, j :: 0 <= i < j < n ==> HasPair(es, i, j)
  }

  /** x and y are the two endpoints of some edge of F. */
  ghost predicate Adjacent(F: seq<Edge>, x: int, y: int)
  {
    exists k :: 0 <= k < |F| && ((F[k].u == x && F[k].v == y) || (F[k].u == y && F[k].v == x))
  }

  /** The component names of vertices 0 .. n-1. */
  ghost function Classes(F: seq<Edge>, n: nat): set<int>
  {
    set x | 0 <= x < n :: Label(F, x)
  }

  /** The sum of the weights of F. */
  function TotalWeight(F: seq<Edge>): real
  {
    if F == [] then 0.0 else TotalWeight(F[..|F| - 1]) + F[|F| - 1].w
  }

  /** Accepting one more edge adds its weight to the total. */
  lemma WeightPush(F: seq<Edge>, e: Edge)
    ensures TotalWeight(F + [e]) == TotalWeight(F) + e.w
  {
    assert (F + [e])[..|F|] == F;
  }

  /** Kruskal's loop may stop as soon as it has accepted a given number of
      edges (tsp.cpp) or run through every edge (TSP_Approximatif.cpp). */
  datatype EarlyStop = NoStop | StopAt(size: nat)

  /** Kruskal's greedy pass over es, starting from the accepted edges F:
      an edge is accepted exactly when its endpoints are in different
      components of the edges accepted so far; after an acceptance that
      reaches the stop size, the pass ends. */
  function Greedy(es: seq<Edge>, F: seq<Edge>, stop: EarlyStop): seq<Edge>
    decreases |es|
  {
    if es == [] then F
    else if Label(F, es[0].u) != Label(F, es[0].v) then
      if stop == StopAt(|F| + 1) then F + [es[0]] else Greedy(es[1..], F + [es[0]], stop)
    else Greedy(es[1..], F, stop)
  }

  /** Kruskal's pass from edge es[k] on: es[k] is accepted exactly when it
      joins two components of F, and the pass ends there when that
      acceptance reaches the stop size. */
  lemma GreedyNext(es: seq<Edge>, k: nat, F: seq<Edge>, stop: EarlyStop)
    requires k < |es|
    ensures var e := es[k];
      Greedy(es[k..], F, stop) ==
        if Label(F, e.u) == Label(F, e.v) then Greedy(es[k + 1..], F, stop)
        else if stop == StopAt(|F| + 1) then F + [e]
        else Greedy(es[k + 1..], F + [e], stop)
  {
    assert es[k..][0] == es[k] && es[k..][1..] == es[k + 1..];
  }

  lemma LabelStep(F: seq<Edge>, e: Edge, x: int)
    ensures Label(F + [e], x) == if Label(F, x) == Label(F, e.v) then Label(F, e.u) else Label(F, x)
  {
    assert (F + [e])[..|F|] == F;
  }

  /** Component names are vertex names. */
  lemma {:induction false} LabelRange(F: seq<Edge>, n: nat, x: int)
    requires EdgesWithin(F, n) && 0 <= x < n
    ensures 0 <= Label(F, x) < n
  {
    if F != [] {
      var G, e := F[..|F| - 1], F[|F| - 1];
      assert e in F;
      assert EdgesWithin(G, n) by {
        forall f | f in G ensures f in F { }
      }
      LabelRange(G, n, x);
      LabelRange(G, n, e.u);
    }
  }

  /** Adding edges never separates two vertices of one component. */
  lemma {:induction false} LabelsMerge(F: seq<Edge>, H: seq<Edge>, x: int, y: int)
    requires Label(F, x) == Label(F, y)
    ensures Label(F + H, x) == Label(F + H, y)
    decreases |H|
  {
    if H != [] {
      var H', e := H[..|H| - 1], H[|H| - 1];
      assert H == H' + [e];
      assert F + H == (F + H') + [e];
      LabelsMerge(F, H', x, y);
      LabelStep(F + H', e, x);
      LabelStep(F + H', e, y);
      assert Label(F + H, x) == Label((F + H') + [e], x);
      assert Label(F + H, y) == Label((F + H') + [e], y);
    } else {
      assert F + H == F;
    }
  }

  /** Adding an edge between two components joins them. */
  lemma JoinedByEdge(F: seq<Edge>, e: Edge)
    ensures Label(F + [e], e.u) == Label(F + [e], e.v)
  {
    LabelStep(F, e, e.u);
    LabelStep(F, e, e.v);
  }

  lemma AcyclicAppend(F: seq<Edge>, e: Edge)
    requires Acyclic(F) && Label(F, e.u) != Label(F, e.v)
    ensures Acyclic(F + [e])
  {
    var F' := F + [e];
    forall k | 0 <= k < |F'|
      ensures Label(F'[..k], F'[k].u) != Label(F'[..k], F'[k].v)
    {
      if k < |F| {
        assert F'[..k] == F[..k];
      } else {
        assert F'[..k] == F;
      }
    }
  }

  /** A set of vertices that no edge of F leaves contains either both or
      neither of any two vertices of one component. */
  lemma {:induction false} SameLabelSameSide(F: seq<Edge>, S: set<int>, x: int, y: int)
    requires forall k :: 0 <= k < |F| ==> (F[k].u in S <==> F[k].v in S)
    requires Label(F, x) == Label(F, y)
    ensures x in S <==> y in S
    decreases |F|
  {
    if F != [] {
      var G, e := F[..|F| - 1], F[|F| - 1];
      assert forall k :: 0 <= k < |G| ==> G[k] == F[k];
      assert e.u in S <==> e.v in S by { assert e == F[|F| - 1]; }
      var lx, ly, lv := Label(G, x), Label(G, y), Label(G, e.v);
      if lx == lv && ly == lv {
        SameLabelSameSide(G, S, x, y);
      } else if lx == lv {
        SameLabelSameSide(G, S, x, e.v);
        SameLabelSameSide(G, S, y, e.u);
      } else if ly == lv {
        SameLabelSameSide(G, S, y, e.v);
        SameLabelSameSide(G, S, x, e.u);
      } else {
        SameLabelSameSide(G, S, x, y);
      }
    }
  }

  /** In a spanning edge set, a vertex set that contains 0 and that no edge
      leaves contains every vertex. */
  lemma ClosedSetIsEverything(F: seq<Edge>, n: nat, S: set<int>)
    requires Spans(F, n) && 0 in S
    requires forall k :: 0 <= k < |F| ==> (F[k].u in S <==> F[k].v in S)
    ensures forall x :: 0 <= x < n ==> x in S
  {
    forall x | 0 <= x < n ensures x in S {
      SameLabelSameSide(F, S, x, 0);
    }
  }

  /** The vertex set 0 .. n-1. */
  function Vertices(n: nat): (vs: set<int>)
    ensures forall x :: x in vs <==> 0 <= x < n
    ensures |vs| == n
  {
    if n == 0 then {} else Vertices(n - 1) + {n - 1}
  }

  /** Accepting an edge between two components removes one component name. */
  lemma ClassesStep(F: seq<Edge>, e: Edge, n: nat)
    requires 0 <= e.u < n && 0 <= e.v < n && Label(F, e.u) != Label(F, e.v)
    ensures Classes(F + [e], n) == Classes(F, n) - {Label(F, e.v)}
    ensures Label(F, e.v) in Classes(F, n)
  {
    var lu, lv := Label(F, e.u), Label(F, e.v);
    forall c | c in Classes(F + [e], n)
      ensures c in Classes(F, n) - {lv}
    {
      var x :| 0 <= x < n && Label(F + [e], x) == c;
      LabelStep(F, e, x);
    }
    forall c | c in Classes(F, n) - {lv}
      ensures c in Classes(F + [e], n)
    {
      var x :| 0 <= x < n && Label(F, x) == c;
      LabelStep(F, e, x);
    }
  }

  /** A forest on n vertices has n - |F| components. */
  lemma {:induction false} ForestComponents(F: seq<Edge>, n: nat)
    requires Acyclic(F) && EdgesWithin(F, n)
    ensures |Classes(F, n)| == n - |F|
    decreases |F|
  {
    if F == [] {
      assert Classes(F, n) == Vertices(n) by {
        forall x | x in Vertices(n) ensures x in Classes(F, n) {
          assert Label(F, x) == x;
        }
      }
    } else {
      var G, e := F[..|F| - 1], F[|F| - 1];
      assert F == G + [e];
      assert e in F;
      assert Acyclic(G) by {
        forall k | 0 <= k < |G| ensures Label(G[..k], G[k].u) != Label(G[..k], G[k].v) {
          assert G[..k] == F[..k] && G[k] == F[k];
        }
      }
      assert EdgesWithin(G, n) by {
        forall f | f in G ensures f in F { }
      }
      assert Label(G, e.u) != Label(G, e.v) by { assert F[..|F| - 1] == G; }
      ForestComponents(G, n);
      ClassesStep(G, e, n);
    }
  }

  /** On at least one vertex, an edge set spans exactly when it has one
      component name. */
  lemma SpansOneClass(F: seq<Edge>, n: nat)
    requires n >= 1
    ensures Spans(F, n) <==> Classes(F, n) == {Label(F, 0)}
  {
    if Classes(F, n) == {Label(F, 0)} {
      forall x | 0 <= x < n ensures Label(F, x) == Label(F, 0) {
        assert Label(F, x) in Classes(F, n);
      }
    }
  }

  /** A forest on n >= 1 vertices spans them exactly when it has n - 1 edges. */
  lemma TreeSize(F: seq<Edge>, n: nat)
    requires n >= 1 && Acyclic(F) && EdgesWithin(F, n)
    ensures Spans(F, n) <==> |F| == n - 1
    ensures |F| <= n - 1
  {
    ForestComponents(F, n);
    SpansOneClass(F, n);
    assert Label(F, 0) in Classes(F, n);
    if |Classes(F, n)| == 1 {
      var c :| c in Classes(F, n);
      assert |Classes(F, n) - {c}| == 0;
      assert Classes(F, n) - {c} == {};
      assert Classes(F, n) == {c};
    }
  }

  /** What one greedy pass guarantees: R extends F, adds only edges of es,
      is acyclic, and either reached the stop size or left every edge of es
      inside one component. */
  ghost predicate GreedyOutcome(es: seq<Edge>, F: seq<Edge>, stop: EarlyStop, R: seq<Edge>)
  {
    && Acyclic(R) && |F| <= |R| && R[..|F|] == F
    && (forall k :: |F| <= k < |R| ==> R[k] in es)
    && ((stop.StopAt? && |R| == stop.size) || forall e :: e in es ==> Label(R, e.u) == Label(R, e.v))
  }

  /** The step of GreedyForest where the first edge is accepted and the pass goes on. */
  lemma AcceptStep(es: seq<Edge>, F: seq<Edge>, stop: EarlyStop, R: seq<Edge>)
    requires es != [] && Label(F, es[0].u) != Label(F, es[0].v)
    requires GreedyOutcome(es[1..], F + [es[0]], stop, R)
    ensures GreedyOutcome(es, F, stop, R)
  {
    AcceptPrefix(es, F, R);
    if !(stop.StopAt? && |R| == stop.size) {
      AcceptJoins(es, F, R);
    }
  }

  /** A result that extends F + [es[0]] with edges of es[1..] extends F
      with edges of es. */
  lemma AcceptPrefix(es: seq<Edge>, F: seq<Edge>, R: seq<Edge>)
    requires es != [] && |F| + 1 <= |R| && R[..|F| + 1] == F + [es[0]]
    requires forall k :: |F| + 1 <= k < |R| ==> R[k] in es[1..]
    ensures |F| <= |R| && R[..|F|] == F
    ensures forall k :: |F| <= k < |R| ==> R[k] in es
  {
    assert R[..|F|] == (R[..|F| + 1])[..|F|];
    forall k | |F| <= k < |R| ensures R[k] in es {
      if k == |F| {
        assert R[k] == (R[..|F| + 1])[|F|];
      } else {
        assert R[k] in es[1..];
      }
    }
  }

  /** When every edge of es[1..] lies inside one component of R, and R
      extends F + [es[0]], so does every edge of es. */
  lemma AcceptJoins(es: seq<Edge>, F: seq<Edge>, R: seq<Edge>)
    requires es != [] && |F| + 1 <= |R| && R[..|F| + 1] == F + [es[0]]
    requires forall e :: e in es[1..] ==> Label(R, e.u) == Label(R, e.v)
    ensures forall e :: e in es ==> Label(R, e.u) == Label(R, e.v)
  {
    var e := es[0];
    JoinedByEdge(F, e);
    assert R == (F + [e]) + R[|F| + 1..];
    LabelsMerge(F + [e], R[|F| + 1..], e.u, e.v);
    forall f | f in es ensures Label(R, f.u) == Label(R, f.v) {
      if f != e {
        assert f in es[1..];
      }
    }
  }

  /** The step of GreedyForest where the first edge is rejected. */
  lemma RejectStep(es: seq<Edge>, F: seq<Edge>, stop: EarlyStop, R: seq<Edge>)
    requires es != [] && Label(F, es[0].u) == Label(F, es[0].v)
    requires GreedyOutcome(es[1..], F, stop, R)
    ensures GreedyOutcome(es, F, stop, R)
  {
    var e := es[0];
    if !(stop.StopAt? && |R| == stop.size) {
      forall f | f in es ensures Label(R, f.u) == Label(R, f.v) {
        if f != e {
          assert f in es[1..];
        } else {
          assert R == F + R[|F|..];
          LabelsMerge(F, R[|F|..], e.u, e.v);
        }
      }
    }
  }

  /** The greedy pass from an acyclic F has the outcome GreedyOutcome describes. */
  lemma {:induction false} GreedyForest(es: seq<Edge>, F: seq<Edge>, stop: EarlyStop)
    requires Acyclic(F)
    ensures GreedyOutcome(es, F, stop, Greedy(es, F, stop))
    decreases |es|
  {
    if es != [] {
      var e := es[0];
      if Label(F, e.u) != Label(F, e.v) {
        AcyclicAppend(F, e);
        if stop == StopAt(|F| + 1) {
          assert (F + [e])[..|F|] == F;
        } else {
          GreedyForest(es[1..], F + [e], stop);
          AcceptStep(es, F, stop, Greedy(es, F, stop));
        }
      } else {
        GreedyForest(es[1..], F, stop);
        RejectStep(es, F, stop, Greedy(es, F, stop));
      }
    }
  }

  /** Kruskal over a list that has an edge for every pair of the n >= 1
      vertices, with no early stop or with the stop at n - 1, accepts a
      spanning tree: acyclic, n - 1 edges, one component. */
  lemma KruskalSpanningTree(es: seq<Edge>, n: nat, stop: EarlyStop)
    requires n >= 1 && EdgesWithin(es, n) && CoversPairs(es, n)
    requires stop == NoStop || stop == StopAt(n - 1)
    ensures var R := Greedy(es, [], stop);
      Acyclic(R) && EdgesWithin(R, n) && |R| == n - 1 && Spans(R, n)
  {
    var R := Greedy(es, [], stop);
    GreedyForest(es, [], stop);
    assert EdgesWithin(R, n) by {
      forall f | f in R ensures 0 <= f.u < n && 0 <= f.v < n {
        var k :| 0 <= k < |R| && R[k] == f;
        assert R[k] in es;
      }
    }
    TreeSize(R, n);
    if !(stop.StopAt? && |R| == stop.size) {
      forall x | 0 <= x < n ensures Label(R, x) == Label(R, 0) {
        if x > 0 {
          assert HasPair(es, 0, x);
          var e :| e in es && e.u == 0 && e.v == x;
        }
      }
    }
  }

  /** A list with an edge for every pair i < j < n still has one after sorting. */
  lemma SortedListCovers(es: seq<Edge>, n: nat)
    requires Ends(es) == AllPairs(n)
    ensures CoversPairs(SortByWeight(es), n)
  {
    AllPairsShape(n);
    SortKeepsEdges(es);
    forall i, j | 0 <= i < j < n ensures HasPair(SortByWeight(es), i, j) {
      assert (i, j) in Ends(es);
      var k :| 0 <= k < |es| && Ends(es)[k] == (i, j);
      assert es[k] in SortByWeight(es);
    }
  }

  /** What either kruskal accepts from an edge list over 0 .. n-1, sorted
      by weight, with no early stop or the stop at n - 1: a forest of the
      list's edges, and a spanning tree of n - 1 edges when the list holds
      one edge for every pair. */
  lemma KruskalResult(es: seq<Edge>, n: nat, stop: EarlyStop)
    requires forall e :: e in es ==> 0 <= e.u < e.v < n
    requires stop == NoStop || (n >= 1 && stop == StopAt(n - 1))
    ensures var F := Greedy(SortByWeight(es), [], stop);
      && Acyclic(F) && EdgesWithin(F, n)
      && (forall e :: e in F ==> e in es)
      && (Ends(es) == AllPairs(n) && n >= 1 ==> |F| == n - 1 && Spans(F, n))
  {
    var edges := SortByWeight(es);
    var F := Greedy(edges, [], stop);
    SortKeepsEdges(es);
    GreedyForest(edges, [], stop);
    forall e | e in F ensures e in es {
      var i :| 0 <= i < |F| && F[i] == e;
      assert F[i] in edges;
    }
    if Ends(es) == AllPairs(n) && n >= 1 {
      SortedListCovers(es, n);
      KruskalSpanningTree(edges, n, stop);
    }
  }

  /** A vertex that is no endpoint of F is a component of its own: no other
      vertex carries its name. */
  lemma {:induction false} LoneVertex(F: seq<Edge>, x: int, y: int)
    requires forall k :: 0 <= k < |F| ==> F[k].u != x && F[k].v != x
    ensures Label(F, y) == x <==> y == x
    decreases |F|
  {
    if F != [] {
      var G, e := F[..|F| - 1], F[|F| - 1];
      LoneVertex(G, x, y);
      LoneVertex(G, x, e.u);
      LoneVertex(G, x, e.v);
    }
  }

  /** When F spans n vertices, every vertex but 0 is an endpoint of an edge. */
  lemma SpanningTouches(F: seq<Edge>, n: nat, x: int)
    requires Spans(F, n) && 0 < x < n
    ensures exists k :: 0 <= k < |F| && (F[k].u == x || F[k].v == x)
  {
    if forall k :: 0 <= k < |F| ==> F[k].u != x && F[k].v != x {
      LoneVertex(F, x, x);
      LoneVertex(F, x, 0);
      assert false;
    }
  }
}
