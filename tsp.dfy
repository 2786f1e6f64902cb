/** The TSP class of tsp.cpp: Kruskal's minimum spanning tree, the tree
    doubled into a multigraph, an Euler tour of it found with an explicit
    stack, and the shortcut of that tour into a Hamiltonian cycle. */
module Tsp {
  import opened MetricGraph
  import opened SpanningForest
  import opened EdgeSort
  import opened ParentForest
  import opened Walks
  import opened DoubledTree

  /** struct DSU: a parent vector and a rank vector. */
  class DSU {
    var p: seq<int>
    var r: seq<nat>

    ghost predicate Valid()
      reads this
    {
      IsForest(p, r)
    }

    /** DSU(n): every element its own root, every rank 0. */
    constructor (n: nat)
      ensures Valid() && p == seq(n, i => i) && r == seq(n, _ => 0)
      ensures forall x :: 0 <= x < n ==> Root(p, r, x) == x
    {
      p := seq(n, i => i);
      r := seq(n, _ => 0);
    }

    /** find with path compression: the root of x, and x (and every element
        on its path) then points straight at its root. No root changes. */
    method Find(x: int) returns (root: int)
      requires Valid() && 0 <= x < |p|
      modifies this
      ensures SameRoots(old(p), old(r), p, r) && r == old(r)
      ensures root == old(Root(p, r, x)) && p[root] == root && p[x] == root
      ensures forall y :: 0 <= y < |p| ==> p[y] == old(p[y]) || p[y] == old(Root(p, r, y))
      decreases Ceiling(r) - r[x]
    {
      if p[x] == x {
        root := x;
      } else {
        root := Find(p[x]);
        forall y | 0 <= y < |p|
          ensures IsForest(p[x := root], r) && Root(p[x := root], r, y) == Root(p, r, y)
        {
          Compress(p, r, x, y);
        }
        p := p[x := root];
      }
    }

    /** unite: false, with no root changed, when a and b already share a
        root; otherwise the two trees are joined by rank and the result is true. */
    method Unite(a: int, b: int) returns (merged: bool)
      requires Valid() && 0 <= a < |p| && 0 <= b < |p|
      modifies this
      ensures Valid() && |p| == old(|p|)
      ensures merged <==> old(Root(p, r, a)) != old(Root(p, r, b))
      ensures !merged ==> r == old(r) && SameRoots(old(p), old(r), p, r)
      ensures merged ==> UnitedByRank(old(p), old(r), p, r, old(Root(p, r, a)), old(Root(p, r, b)))
    {
      ghost var p0, r0 := p, r;
      var ra := Find(a);
      ghost var p1 := p;
      var rb := Find(b);
      SameRootsTrans(p0, r0, p1, r0, p, r0);
      if ra == rb {
        return false;
      }
      ghost var p2 := p;
      LinkRoots(ra, rb);
      UnitedTransfer(p0, p2, r0, p, r, ra, rb);
      merged := true;
    }

    /** unite's linking (lines 14-16) of two distinct roots a and b: the
        root of lower rank (b on a tie) is hung under the other, whose rank
        grows by one on a tie. */
    method LinkRoots(a: int, b: int)
      requires Valid() && 0 <= a < |p| && 0 <= b < |p| && a != b && p[a] == a && p[b] == b
      modifies this
      ensures Valid() && |p| == old(|p|)
      ensures UnitedByRank(old(p), old(r), p, r, a, b)
    {
      var hi, lo := a, b;
      if r[hi] < r[lo] {
        hi, lo := lo, hi;
      }
      LinkByRank(p, r, p, a, b, lo, hi);
      p := p[lo := hi];
      if r[hi] == r[lo] {
        r := r[hi := r[hi] + 1];
      }
    }
  }

  /** tsp.cpp's Kruskal loop stops once it holds G.size() - 1 edges, which
      never happens for an empty graph. */
  function KruskalStop(n: nat): EarlyStop
  {
    if n >= 1 then StopAt(n - 1) else NoStop
  }

  /** kruskal's loop over the sorted edges (tsp.cpp:27-34): a fresh DSU
      over n elements, an edge accepted when unite merges its endpoints'
      sets, and the loop left once n - 1 edges are accepted. F is Kruskal's
      greedy selection from edges and w its total weight. */
  method ScanEdges(edges: seq<Edge>, n: nat) returns (F: seq<Edge>, w: real)
    requires EdgesWithin(edges, n)
    ensures F == Greedy(edges, [], KruskalStop(n))
    ensures w == TotalWeight(F)
  {
    var dsu := new DSU(n);
    Singletons(dsu.r, n);
    F, w := ScanFrom(dsu, edges, n);
  }

  /** ScanEdges' loop on a DSU that tracks the edgeless graph. */
  method ScanFrom(dsu: DSU, edges: seq<Edge>, n: nat) returns (F: seq<Edge>, w: real)
    requires EdgesWithin(edges, n) && dsu.Valid() && Tracks(dsu.p, dsu.r, [], n)
    modifies dsu
    ensures F == Greedy(edges, [], KruskalStop(n))
    ensures w == TotalWeight(F)
  {
    ghost var target := Greedy(edges, [], KruskalStop(n));
    F, w := [], 0.0;
    var k := 0;
    assert edges[0..] == edges;
    while k < |edges|
      invariant 0 <= k <= |edges|
      invariant dsu.Valid() && Tracks(dsu.p, dsu.r, F, n)
      invariant Greedy(edges[k..], F, KruskalStop(n)) == target
      invariant w == TotalWeight(F)
      modifies dsu
    {
      var done;
      F, w, done := ScanStep(dsu, edges, k, F, w, n);
      if done {
        return;
      }
      k := k + 1;
    }
  }

  /** One round of kruskal's loop on edges[k]: unite its endpoints, accept
      it when they were in different sets, and report whether the tree is
      then complete. The rest of the greedy pass is unchanged by the round. */
  method ScanStep(dsu: DSU, edges: seq<Edge>, k: nat, F: seq<Edge>, w: real, n: nat)
      returns (F': seq<Edge>, w': real, done: bool)
    requires EdgesWithin(edges, n) && k < |edges|
    requires dsu.Valid() && Tracks(dsu.p, dsu.r, F, n) && w == TotalWeight(F)
    modifies dsu
    ensures dsu.Valid() && Tracks(dsu.p, dsu.r, F', n) && w' == TotalWeight(F')
    ensures done ==> F' == Greedy(edges[k..], F, KruskalStop(n))
    ensures !done ==> Greedy(edges[k + 1..], F', KruskalStop(n)) == Greedy(edges[k..], F, KruskalStop(n))
  {
    var e := edges[k];
    assert e in edges;
    GreedyNext(edges, k, F, KruskalStop(n));
    var merged := UniteEdge(dsu, F, e, n);
    F', w', done := F, w, false;
    if merged {
      WeightPush(F, e);
      F' := F + [e];
      w' := w + e.w;
      done := |F'| == n - 1;
    }
  }

  /** unite on the endpoints of e, seen through the components of the
      accepted edges F: it merges exactly when e joins two components, and
      the DSU then tracks F + [e]. */
  method UniteEdge(dsu: DSU, ghost F: seq<Edge>, e: Edge, ghost n: nat) returns (merged: bool)
    requires dsu.Valid() && Tracks(dsu.p, dsu.r, F, n) && 0 <= e.u < n && 0 <= e.v < n
    modifies dsu
    ensures merged <==> Label(F, e.u) != Label(F, e.v)
    ensures dsu.Valid() && Tracks(dsu.p, dsu.r, if merged then F + [e] else F, n)
  {
    ghost var p0, r0 := dsu.p, dsu.r;
    merged := dsu.Unite(e.u, e.v);
    UniteTracks(p0, r0, dsu.p, dsu.r, F, e, n, merged);
  }

  /** The sum d[path[i-1]][path[i]] over i = 1 .. |path|-1, added to start:
      the accumulation loops of findEulerTour (euler_len) and run (L). */
  method WalkSum(d: seq<seq<real>>, ghost n: nat, path: seq<int>, start: real) returns (len: real)
    requires IsSquare(d, n) && InRange(path, n)
    ensures len == start + WalkLength(d, path)
  {
    len := start;
    if path == [] {
      return;
    }
    var i := 1;
    while i < |path|
      invariant 1 <= i <= |path|
      invariant len == start + WalkLength(d, path[..i])
    {
      assert path[..i + 1] == path[..i] + [path[i]];
      WalkLengthSnoc(d, path[..i], path[i]);
      len := len + d[path[i - 1]][path[i]];
      i := i + 1;
    }
    assert path[..i] == path;
  }

  /** findEulerTour's inner loop (tsp.cpp:57-58): entries whose id is
      already used are popped off the back of w's list until the list is
      empty or ends with an unused id. Only used entries leave. */
  method SkipUsed(ghost F: seq<Edge>, adj: seq<seq<(int, int)>>, used: seq<bool>, w: int)
    returns (adj': seq<seq<(int, int)>>)
    requires Lazy(F, adj, used) && 0 <= w < |adj|
    ensures Lazy(F, adj', used) && |adj'| == |adj| && Total(adj') <= Total(adj)
    ensures forall x :: 0 <= x < |adj| && x != w ==> adj'[x] == adj[x]
    ensures |adj'[w]| <= |adj[w]| && adj'[w] == adj[w][..|adj'[w]|]
    ensures forall i :: |adj'[w]| <= i < |adj[w]| ==> used[adj[w][i].1]
    ensures adj'[w] == [] || !used[adj'[w][|adj'[w]| - 1].1]
  {
    adj' := adj;
    assert adj[w][..|adj[w]|] == adj[w];
    while adj'[w] != [] && used[adj'[w][|adj'[w]| - 1].1]
      invariant Skipped(F, adj, adj', used, w)
      decreases |adj'[w]|
    {
      SkipMore(F, adj, adj', used, w);
      adj' := adj'[w := adj'[w][..|adj'[w]| - 1]];
    }
  }

  /** The top u has no open entry left (tsp.cpp:60-62): it moves from the
      stack to the tour. */
  method Finish(ghost F: seq<Edge>, n: nat, adj: seq<seq<(int, int)>>, used: seq<bool>,
                st: seq<int>, tour: seq<int>, ghost j: int, ghost S: set<int>, ghost order: seq<int>)
    returns (st': seq<int>, tour': seq<int>, ghost j': int)
    requires Walking(F, n, adj, used, st, tour, j, S, order) && st != [] && adj[st[|st| - 1]] == []
    ensures Walking(F, n, adj, used, st', tour', j', S, order)
    ensures |st'| < |st|
  {
    st', tour', j' := st[..|st| - 1], tour + [st[|st| - 1]], |st| - 2;
    PopStep(F, n, adj, used, st, tour, j, S, order, st', tour', j');
  }

  /** The top u leaves along the unused id at the back of its list
      (tsp.cpp:63-70): the entry is popped, the id marked used and the
      other end pushed. */
  method Advance(ghost F: seq<Edge>, n: nat, adj: seq<seq<(int, int)>>, used: seq<bool>,
                 st: seq<int>, tour: seq<int>, ghost j: int, ghost S: set<int>, ghost order: seq<int>)
    returns (adj': seq<seq<(int, int)>>, used': seq<bool>, st': seq<int>,
             ghost S': set<int>, ghost order': seq<int>)
    requires Walking(F, n, adj, used, st, tour, j, S, order) && st != []
    requires adj[st[|st| - 1]] != [] && !used[adj[st[|st| - 1]][|adj[st[|st| - 1]]| - 1].1]
    ensures Walking(F, n, adj', used', st', tour, j, S', order')
    ensures 2 * Total(adj') + |st'| < 2 * Total(adj) + |st|
  {
    var u := st[|st| - 1];
    var t := adj[u][|adj[u]| - 1];
    TotalUpdate(adj, u, adj[u][..|adj[u]| - 1]);
    adj', used', st' := adj[u := adj[u][..|adj[u]| - 1]], used[t.1 := true], st + [t.0];
    S', order' := S + {t.0}, order + [t.1];
    PickStep(F, n, adj, used, st, tour, j, S, order, adj', used', st', S', order');
  }

  /** One turn of findEulerTour's loop (tsp.cpp:55-71): after the used
      entries are skipped, the top u is either finished (moved to the tour)
      or leaves along the unused id at the back of its list. */
  method EulerStep(ghost F: seq<Edge>, n: nat, adj: seq<seq<(int, int)>>, used: seq<bool>,
                   st: seq<int>, tour: seq<int>, ghost j: int, ghost S: set<int>, ghost order: seq<int>)
    returns (adj': seq<seq<(int, int)>>, used': seq<bool>, st': seq<int>, tour': seq<int>,
             ghost j': int, ghost S': set<int>, ghost order': seq<int>)
    requires Walking(F, n, adj, used, st, tour, j, S, order) && st != []
    ensures Walking(F, n, adj', used', st', tour', j', S', order')
    ensures 2 * Total(adj') + |st'| < 2 * Total(adj) + |st|
  {
    var u := st[|st| - 1];
    adj' := SkipUsed(F, adj, used, u);
    Relist(F, n, adj, adj', used, st, tour, j, S, order);
    if adj'[u] == [] {
      st', tour', j' := Finish(F, n, adj', used, st, tour, j, S, order);
      used', S', order' := used, S, order;
    } else {
      tour', j' := tour, j;
      adj', used', st', S', order' := Advance(F, n, adj', used, st, tour, j, S, order);
    }
  }

  /** findEulerTour's stack walk (tsp.cpp:52-72) on the lists of
      buildMultigraph with no id used: the tour is a closed walk from 0
      along MST edges with one step per used id, order lists the used ids
      once each, and on a spanning tree every id is used and every vertex
      is on the tour. */
  method EulerWalk(F: seq<Edge>, n: nat, adj0: seq<seq<(int, int)>>, used0: seq<bool>)
    returns (adj: seq<seq<(int, int)>>, used: seq<bool>, tour: seq<int>, ghost order: seq<int>)
    requires n >= 1 && EdgesWithin(F, n)
    requires |adj0| == n && forall w :: 0 <= w < n ==> adj0[w] == Slots(F, w)
    requires used0 == seq(2 * |F|, _ => false)
    ensures tour != [] && tour[|tour| - 1] == 0 && TourWalk(F, n, tour)
    ensures |used| == 2 * |F| && Distinct(order) && |tour| == |order| + 1
    ensures forall k :: 0 <= k < 2 * |F| ==> (used[k] <==> k in order)
    ensures Spans(F, n) ==>
            && |tour| == 2 * |F| + 1
            && (forall k :: 0 <= k < 2 * |F| ==> used[k])
            && Visits(tour, n)
  {
    adj, used, tour := adj0, used0, [];
    var st := [0];
    ghost var j, S := 0, {0};
    order := [];
    EulerStart(F, n, used);
    assert adj == seq(n, w => Slots(F, w));
    while st != []
      invariant Walking(F, n, adj, used, st, tour, j, S, order)
      decreases 2 * Total(adj) + |st|
    {
      adj, used, st, tour, j, S, order := EulerStep(F, n, adj, used, st, tour, j, S, order);
    }
    EulerFinish(F, n, adj, used, tour, j, S, order);
  }

  class TSP {
    const G: Graph
    var mst_w: real
    var euler_len: real
    var mst_edges: seq<Edge>
    var multAdj: seq<seq<(int, int)>>
    var usedEdge: seq<bool>
    var eulerTour: seq<int>
    var cycle: seq<int>
    /** The edge ids in the order findEulerTour used them. */
    ghost var marked: seq<int>

    /** Every field as the constructor leaves it. */
    ghost predicate Fresh()
      reads this
    {
      && mst_w == 0.0 && euler_len == 0.0 && mst_edges == [] && multAdj == []
      && usedEdge == [] && eulerTour == [] && cycle == []
    }

    /** TSP(G): the graph, and all results empty or zero. */
    constructor (G: Graph)
      ensures this.G == G && Fresh()
    {
      this.G := G;
      mst_w, euler_len := 0.0, 0.0;
      mst_edges, multAdj, usedEdge := [], [], [];
      eulerTour, cycle := [], [];
      marked := [];
    }

    /** kruskal: the greedy pass over G's edges in weight order, joining
        components with a DSU and stopping at G.size() - 1 edges. The result
        is a forest of G's edges, and a spanning tree when G holds every pair. */
    method Kruskal()
      requires G.Valid() && mst_edges == [] && mst_w == 0.0
      modifies this`mst_edges, this`mst_w
      ensures mst_edges == Greedy(SortByWeight(G.edgeList), [], KruskalStop(G.n))
      ensures mst_w == TotalWeight(mst_edges)
      ensures Acyclic(mst_edges) && EdgesWithin(mst_edges, G.n)
      ensures forall e :: e in mst_edges ==> e in G.edgeList
      ensures G.Generated() && G.n >= 1 ==> |mst_edges| == G.n - 1 && Spans(mst_edges, G.n)
    {
      var n := G.n;
      var edges := SortByWeight(G.edgeList);
      SortKeepsEdges(G.edgeList);
      var F, w := ScanEdges(edges, n);
      KruskalResult(G.edgeList, n, KruskalStop(n));
      mst_edges, mst_w := F, w;
    }

    /** buildMultigraph: every MST edge i stored twice, as ids 2i and 2i+1,
        in both endpoints' lists; no id used yet. */
    method BuildMultigraph()
      requires EdgesWithin(mst_edges, G.n)
      modifies this`multAdj, this`usedEdge
      ensures |multAdj| == G.n && forall w :: 0 <= w < G.n ==> multAdj[w] == Slots(mst_edges, w)
      ensures usedEdge == seq(2 * |mst_edges|, _ => false)
    {
      var F := mst_edges;
      var m := |F|;
      var adj: seq<seq<(int, int)>> := seq(G.n, _ => []);
      var i := 0;
      while i < m
        invariant 0 <= i <= m && |adj| == G.n
        modifies {}
        invariant forall w :: 0 <= w < G.n ==> adj[w] == Slots(F[..i], w)
      {
        var e := F[i];
        assert e in F;
        SlotsPush(F, i, adj);
        adj := adj[e.u := adj[e.u] + [(e.v, 2 * i)]];
        adj := adj[e.v := adj[e.v] + [(e.u, 2 * i)]];
        adj := adj[e.u := adj[e.u] + [(e.v, 2 * i + 1)]];
        adj := adj[e.v := adj[e.v] + [(e.u, 2 * i + 1)]];
        i := i + 1;
      }
      assert F[..m] == F;
      multAdj := adj;
      usedEdge := seq(2 * m, _ => false);
    }

    /** findEulerTour: the stack walk from vertex 0. The tour is a closed
        walk from 0 along MST edges that uses each id once (marked lists
        the used ids); on a spanning tree it uses every id, visits every
        vertex and has 2m + 1 entries. euler_len grows by the walk's length. */
    method FindEulerTour()
      requires IsSquare(G.dist, G.n) && G.n >= 1 && EdgesWithin(mst_edges, G.n)
      requires |multAdj| == G.n && forall w :: 0 <= w < G.n ==> multAdj[w] == Slots(mst_edges, w)
      requires usedEdge == seq(2 * |mst_edges|, _ => false)
      requires eulerTour == []
      modifies this`multAdj, this`usedEdge, this`eulerTour, this`marked, this`euler_len
      ensures eulerTour != [] && eulerTour[|eulerTour| - 1] == 0
      ensures TourWalk(mst_edges, G.n, eulerTour)
      ensures |usedEdge| == 2 * |mst_edges| && Distinct(marked) && |eulerTour| == |marked| + 1
      ensures forall k :: 0 <= k < 2 * |mst_edges| ==> (usedEdge[k] <==> k in marked)
      ensures Spans(mst_edges, G.n) ==>
                && |eulerTour| == 2 * |mst_edges| + 1
                && (forall k :: 0 <= k < 2 * |mst_edges| ==> usedEdge[k])
                && Visits(eulerTour, G.n)
      ensures euler_len == old(euler_len) + WalkLength(G.dist, eulerTour)
    {
      var adj, used, tour;
      ghost var order;
      adj, used, tour, order := EulerWalk(mst_edges, G.n, multAdj, usedEdge);
      multAdj, usedEdge, eulerTour, marked := adj, used, tour, order;
      euler_len := WalkSum(G.dist, G.n, tour, euler_len);
    }

    /** buildHamiltonianCycle: the tour's vertices at their first
        occurrences, closed by repeating the first one; a Hamiltonian cycle
        when the tour reaches every vertex. */
    method BuildHamiltonianCycle()
      requires eulerTour != [] && InRange(eulerTour, G.n) && cycle == []
      modifies this`cycle
      ensures cycle == FirstOccurrences(eulerTour) + [eulerTour[0]] && InRange(cycle, G.n)
      ensures Visits(eulerTour, G.n) ==> HamiltonianCycle(cycle, G.n)
    {
      var tour := eulerTour;
      var vis := seq(G.n, _ => false);
      var c := [];
      var i := 0;
      while i < |tour|
        invariant 0 <= i <= |tour| && |vis| == G.n
        invariant c == FirstOccurrences(tour[..i])
        invariant forall v :: 0 <= v < G.n ==> (vis[v] <==> v in c)
        invariant i > 0 ==> c != [] && c[0] == tour[0]
        modifies {}
      {
        var u := tour[i];
        assert tour[..i + 1][..i] == tour[..i] && tour[..i + 1][i] == u;
        if !vis[u] {
          c := c + [u];
          vis := vis[u := true];
        }
        i := i + 1;
      }
      assert tour[..i] == tour;
      cycle := c + [c[0]];
      ShortcutCycle(tour, G.n);
    }

    /** The middle two steps of run: the doubled adjacency of the tree and
        the Euler tour of it, with what they guarantee together. */
    method BuildTour()
      requires IsSquare(G.dist, G.n) && G.n >= 1 && EdgesWithin(mst_edges, G.n)
      requires multAdj == [] && usedEdge == [] && eulerTour == [] && euler_len == 0.0
      modifies this`multAdj, this`usedEdge, this`eulerTour, this`marked, this`euler_len
      ensures eulerTour != [] && eulerTour[0] == 0 && eulerTour[|eulerTour| - 1] == 0
      ensures InRange(eulerTour, G.n) && euler_len == WalkLength(G.dist, eulerTour)
      ensures TourWalk(mst_edges, G.n, eulerTour)
      ensures Spans(mst_edges, G.n) ==>
                && |eulerTour| == 2 * |mst_edges| + 1 && Visits(eulerTour, G.n)
    {
      BuildMultigraph();
      assert eulerTour == [] && euler_len == 0.0;
      FindEulerTour();
    }

    /** What run does once the tree is built: the tour, the cycle, and the
        cycle's length. */
    method TourAndCycle() returns (L: real)
      requires IsSquare(G.dist, G.n) && G.n >= 1 && EdgesWithin(mst_edges, G.n)
      requires multAdj == [] && usedEdge == [] && eulerTour == [] && euler_len == 0.0 && cycle == []
      modifies this`multAdj, this`usedEdge, this`eulerTour, this`marked, this`euler_len, this`cycle
      ensures eulerTour != [] && eulerTour[0] == 0 && eulerTour[|eulerTour| - 1] == 0
      ensures euler_len == WalkLength(G.dist, eulerTour) && TourWalk(mst_edges, G.n, eulerTour)
      ensures cycle == FirstOccurrences(eulerTour) + [0] && L == WalkLength(G.dist, cycle)
      ensures Spans(mst_edges, G.n) ==>
                |eulerTour| == 2 * |mst_edges| + 1 && HamiltonianCycle(cycle, G.n)
    {
      BuildTour();
      BuildHamiltonianCycle();
      L := WalkSum(G.dist, G.n, cycle, 0.0);
    }

    /** run: the four steps on a fresh object, then the length of the cycle.
        On a complete metric graph the cycle visits every vertex once. */
    method Run() returns (L: real)
      requires G.Valid() && G.n >= 1 && Fresh()
      modifies this`mst_edges, this`mst_w, this`multAdj, this`usedEdge, this`eulerTour, this`marked
      modifies this`euler_len, this`cycle
      ensures mst_edges == Greedy(SortByWeight(G.edgeList), [], KruskalStop(G.n))
      ensures mst_w == TotalWeight(mst_edges)
      ensures eulerTour != [] && eulerTour[0] == 0 && eulerTour[|eulerTour| - 1] == 0
      ensures euler_len == WalkLength(G.dist, eulerTour) && TourWalk(mst_edges, G.n, eulerTour)
      ensures cycle == FirstOccurrences(eulerTour) + [0] && L == WalkLength(G.dist, cycle)
      ensures G.Generated() ==>
                && |mst_edges| == G.n - 1 && Spans(mst_edges, G.n)
                && |eulerTour| == 2 * G.n - 1 && HamiltonianCycle(cycle, G.n)
    {
      Kruskal();
      ghost var tree := mst_edges;
      ghost var generated := G.Generated();
      L := TourAndCycle();
      assert mst_edges == tree;
      if generated {
        assert |mst_edges| == G.n - 1 && Spans(mst_edges, G.n);
      }
    }
  }
}
