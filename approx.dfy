/** TSP_Approximatif.cpp: the same double-tree approximation written as
    free functions over a global union-find, a distance matrix, adjacency
    vectors of neighbour indices and a recursive Euler walk. Vectors the
    C++ passes by reference are passed in and returned here. */
module Approx {
  import opened MetricGraph
  import opened SpanningForest
  import opened EdgeSort
  import opened ParentForest
  import opened Walks
  import opened NeighbourLists

  /** s resized to n by std::vector::resize: cut to its first n entries,
      or padded with fill. */
  function Resized<T>(s: seq<T>, n: nat, fill: T): (r: seq<T>)
    ensures |r| == n && forall i :: 0 <= i < n ==> r[i] == if i < |s| then s[i] else fill
  {
    if n <= |s| then s[..n] else s + seq(n - |s|, _ => fill)
  }

  /** The global vectors parent and rankSet that find and unite work on. */
  class UnionFind {
    var parent: seq<int>
    var rankSet: seq<nat>

    ghost predicate Valid()
      reads this
    {
      IsForest(parent, rankSet)
    }

    /** Both vectors start empty. */
    constructor ()
      ensures Valid() && parent == [] && rankSet == []
    {
      parent, rankSet := [], [];
    }

    /** kruskal's set-up (lines 78-80): both vectors resized to n, ranks
        kept where they exist and 0 elsewhere, and every element made its
        own root. */
    method Reset(n: nat)
      modifies this
      ensures parent == seq(n, i => i) && rankSet == Resized(old(rankSet), n, 0)
      ensures Valid() && forall x :: 0 <= x < n ==> Root(parent, rankSet, x) == x
    {
      parent := Resized(parent, n, 0);
      rankSet := Resized(rankSet, n, 0);
      var i := 0;
      while i < n
        invariant 0 <= i <= n && |parent| == n
        invariant forall k :: 0 <= k < i ==> parent[k] == k
        modifies this`parent
      {
        parent := parent[i := i];
        i := i + 1;
      }
      assert parent == seq(n, i => i);
    }

    /** find: the root of u, with u (and every element on its path) then
        pointing straight at its root. No root changes. */
    method Find(u: int) returns (root: int)
      requires Valid() && 0 <= u < |parent|
      modifies this
      ensures SameRoots(old(parent), old(rankSet), parent, rankSet) && rankSet == old(rankSet)
      ensures root == old(Root(parent, rankSet, u)) && parent[root] == root && parent[u] == root
      ensures forall y :: 0 <= y < |parent| ==> parent[y] == old(parent[y]) || parent[y] == old(Root(parent, rankSet, y))
      decreases Ceiling(rankSet) - rankSet[u]
    {
      if u != parent[u] {
        var top := Find(parent[u]);
        forall y | 0 <= y < |parent|
          ensures IsForest(parent[u := top], rankSet) && Root(parent[u := top], rankSet, y) == Root(parent, rankSet, y)
        {
          Compress(parent, rankSet, u, y);
        }
        parent := parent[u := top];
      }
      root := parent[u];
    }

    /** unite: false, with no root changed, when u and v already share a
        root; otherwise the two trees are joined by rank and the result is true. */
    method Unite(u: int, v: int) returns (merged: bool)
      requires Valid() && 0 <= u < |parent| && 0 <= v < |parent|
      modifies this
      ensures Valid() && |parent| == old(|parent|)
      ensures merged <==> old(Root(parent, rankSet, u)) != old(Root(parent, rankSet, v))
      ensures !merged ==> rankSet == old(rankSet) && SameRoots(old(parent), old(rankSet), parent, rankSet)
      ensures merged ==> UnitedByRank(old(parent), old(rankSet), parent, rankSet,
                                      old(Root(parent, rankSet, u)), old(Root(parent, rankSet, v)))
    {
      ghost var p0, r0 := parent, rankSet;
      var a := Find(u);
      ghost var p1 := parent;
      var b := Find(v);
      SameRootsTrans(p0, r0, p1, r0, parent, r0);
      if a == b {
        return false;
      }
      ghost var p2 := parent;
      LinkRoots(a, b);
      UnitedTransfer(p0, p2, r0, parent, rankSet, a, b);
      merged := true;
    }

    /** unite's linking (lines 64-66) of two distinct roots u and v: the
        root of lower rank (v on a tie) is hung under the other, whose rank
        grows by one on a tie. */
    method LinkRoots(u: int, v: int)
      requires Valid() && 0 <= u < |parent| && 0 <= v < |parent| && u != v && parent[u] == u && parent[v] == v
      modifies this
      ensures Valid() && |parent| == old(|parent|)
      ensures UnitedByRank(old(parent), old(rankSet), parent, rankSet, u, v)
    {
      var hi, lo := u, v;
      if rankSet[hi] < rankSet[lo] {
        hi, lo := lo, hi;
      }
      LinkByRank(parent, rankSet, parent, u, v, lo, hi);
      parent := parent[lo := hi];
      if rankSet[hi] == rankSet[lo] {
        rankSet := rankSet[hi := rankSet[hi] + 1];
      }
    }
  }

  /** The edges (i, j, d[i][j]) for the pairs ps of vertices of d. */
  ghost function Weighted(ps: seq<(int, int)>, d: seq<seq<real>>): (es: seq<Edge>)
    requires IsSquare(d, |d|) && forall k :: 0 <= k < |ps| ==> 0 <= ps[k].0 < |d| && 0 <= ps[k].1 < |d|
    ensures |es| == |ps| && forall k :: 0 <= k < |ps| ==> es[k] == Edge(ps[k].0, ps[k].1, d[ps[k].0][ps[k].1])
  {
    seq(|ps|, k requires 0 <= k < |ps| => Edge(ps[k].0, ps[k].1, d[ps[k].0][ps[k].1]))
  }

  /** kruskal's candidate list for the matrix d: an edge (i, j, d[i][j])
      for every pair i < j, row by row, n (n - 1) / 2 of them. */
  ghost function MatrixEdges(d: seq<seq<real>>): (es: seq<Edge>)
    requires IsSquare(d, |d|)
    ensures Ends(es) == AllPairs(|d|)
    ensures forall e :: e in es ==> 0 <= e.u < e.v < |d| && e.w == d[e.u][e.v]
    ensures 2 * |es| == |d| * (|d| - 1)
  {
    AllPairsShape(|d|);
    var es := Weighted(AllPairs(|d|), d);
    assert Ends(es) == AllPairs(|d|);
    es
  }

  /** The inner loop of kruskal's listing (line 74) for row i. */
  method ListRow(graph: seq<seq<real>>, i: nat, es: seq<Edge>) returns (es': seq<Edge>)
    requires IsSquare(graph, |graph|) && i < |graph|
    requires es == Weighted(ListedPairs(|graph|, i, i + 1), graph)
    ensures es' == Weighted(ListedPairs(|graph|, i, |graph|), graph)
  {
    var n := |graph|;
    es' := es;
    var j := i + 1;
    while j < n
      invariant i + 1 <= j <= n
      invariant es' == Weighted(ListedPairs(n, i, j), graph)
    {
      NextPair(n, i, j);
      es' := es' + [Edge(i, j, graph[i][j])];
      j := j + 1;
    }
  }

  /** kruskal's two listing loops (lines 73-75): every pair i < j, row by row. */
  method ListEdges(graph: seq<seq<real>>) returns (edges: seq<Edge>)
    requires IsSquare(graph, |graph|)
    ensures edges == MatrixEdges(graph)
  {
    var n := |graph|;
    edges := [];
    var i := 0;
    while i < n
      invariant 0 <= i <= n
      invariant edges == Weighted(ListedPairs(n, i, i + 1), graph)
    {
      edges := ListRow(graph, i, edges);
      ListNextRow(n, i);
      i := i + 1;
    }
    assert Row(n, n + 1) == [];
    assert ListedPairs(n, n, n + 1) == AllPairs(n);
  }

  /** kruskal: the pairs listed, sorted by weight, the union-find reset
      to singletons, and every edge whose endpoints unite merges kept.
      The result is Kruskal's greedy selection from the sorted list; on a
      non-empty matrix, a spanning tree of it, whose components the
      union-find still tracks. */
  method Kruskal(uf: UnionFind, graph: seq<seq<real>>) returns (mst: seq<Edge>)
    requires IsSquare(graph, |graph|)
    modifies uf
    ensures mst == Greedy(SortByWeight(MatrixEdges(graph)), [], NoStop)
    ensures Acyclic(mst) && EdgesWithin(mst, |graph|) && forall e :: e in mst ==> e in MatrixEdges(graph)
    ensures |graph| >= 1 ==> |mst| == |graph| - 1 && Spans(mst, |graph|)
    ensures uf.Valid() && Tracks(uf.parent, uf.rankSet, mst, |graph|)
  {
    var n := |graph|;
    var edges := ListEdges(graph);
    edges := SortByWeight(edges);
    SortKeepsEdges(MatrixEdges(graph));
    uf.Reset(n);
    Singletons(uf.rankSet, n);
    mst := UniteAll(uf, edges, n);
    KruskalResult(MatrixEdges(graph), n, NoStop);
  }

  /** kruskal's last loop (lines 83-84) on a union-find that tracks the
      edgeless graph: an edge is kept exactly when unite merges its
      endpoints' sets. The kept edges are Kruskal's greedy selection, and
      the union-find tracks their components. */
  method UniteAll(uf: UnionFind, edges: seq<Edge>, n: nat) returns (mst: seq<Edge>)
    requires EdgesWithin(edges, n) && uf.Valid() && Tracks(uf.parent, uf.rankSet, [], n)
    modifies uf
    ensures mst == Greedy(edges, [], NoStop)
    ensures uf.Valid() && Tracks(uf.parent, uf.rankSet, mst, n)
  {
    ghost var target := Greedy(edges, [], NoStop);
    mst := [];
    var k := 0;
    assert edges[0..] == edges;
    while k < |edges|
      invariant 0 <= k <= |edges|
      invariant uf.Valid() && Tracks(uf.parent, uf.rankSet, mst, n)
      invariant Greedy(edges[k..], mst, NoStop) == target
      modifies uf
    {
      var e := edges[k];
      assert e in edges;
      GreedyNext(edges, k, mst, NoStop);
      ghost var p0, r0 := uf.parent, uf.rankSet;
      var merged := uf.Unite(e.u, e.v);
      UniteTracks(p0, r0, uf.parent, uf.rankSet, mst, e, n, merged);
      if merged {
        mst := mst + [e];
      }
      k := k + 1;
    }
  }

  /** buildEulerianGraph's first loop (line 92): the largest endpoint of
      the tree's edges, 0 when there is none. */
  method LargestEndpoint(mst: seq<Edge>) returns (n: int)
    ensures n == MaxEnd(mst)
  {
    n := 0;
    var i := 0;
    while i < |mst|
      invariant 0 <= i <= |mst| && n == MaxEnd(mst[..i])
    {
      var e := mst[i];
      assert mst[..i + 1][..i] == mst[..i] && mst[..i + 1][i] == e;
      var big := if e.u < e.v then e.v else e.u;
      n := if n < big then big else n;
      i := i + 1;
    }
    assert mst[..i] == mst;
  }

  /** buildEulerianGraph's second loop (lines 94-99) on n + 1 empty lists:
      for every edge (u, v), v pushed onto u's list and u onto v's, twice. */
  method PushEdges(mst: seq<Edge>, n: int) returns (adj: seq<seq<int>>)
    requires n == MaxEnd(mst) && forall k :: 0 <= k < |mst| ==> 0 <= mst[k].u && 0 <= mst[k].v
    ensures DoubledOf(mst, adj) && Entries(adj) == 4 * |mst|
  {
    adj := seq(n + 1, _ => []);
    NoEntries(adj);
    var i := 0;
    while i < |mst|
      invariant 0 <= i <= |mst| && |adj| == n + 1
      invariant forall x :: 0 <= x <= n ==> adj[x] == Neighbours(mst[..i], x)
      invariant Entries(adj) == 4 * i
    {
      var e := mst[i];
      assert mst[..i + 1][..i] == mst[..i] && mst[..i + 1][i] == e;
      ghost var a0 := adj;
      adj := adj[e.u := adj[e.u] + [e.v]];
      adj := adj[e.v := adj[e.v] + [e.u]];
      adj := adj[e.u := adj[e.u] + [e.v]];
      adj := adj[e.v := adj[e.v] + [e.u]];
      PushFour(a0, e, adj);
      i := i + 1;
    }
    assert mst[..i] == mst;
  }

  /** buildEulerianGraph: one list per vertex up to the largest endpoint,
      and for every tree edge (u, v) the neighbour pushed twice onto each
      side: the lists of the doubled tree, four entries per edge, mirrored
      and all of even length. */
  method BuildEulerianGraph(mst: seq<Edge>) returns (adj: seq<seq<int>>)
    requires forall e :: e in mst ==> 0 <= e.u && 0 <= e.v
    ensures DoubledOf(mst, adj) && Entries(adj) == 4 * |mst|
    ensures Mirrored(mst, adj) && OddAt(adj, 0, 0)
  {
    var n := LargestEndpoint(mst);
    adj := PushEdges(mst, n);
    DoubledMirrored(mst, adj);
  }

  /** std::find: the index of the first x in s, or |s| when there is none. */
  method FindFirst(s: seq<int>, x: int) returns (i: nat)
    ensures i <= |s| && x !in s[..i]
    ensures i < |s| <==> x in s
    ensures i < |s| ==> s[i] == x
  {
    i := 0;
    while i < |s| && s[i] != x
      invariant i <= |s| && x !in s[..i]
    {
      assert s[..i + 1] == s[..i] + [s[i]];
      i := i + 1;
    }
    assert s[..|s|] == s;
  }

  /** One round of dfs's loop before the call (lines 106-109): w is popped
      off the back of u's list and the first u is erased from w's list.
      In mirrored lists that u is always there: the two entries of one
      traversal of the edge are taken together, the lists stay mirrored,
      and the odd lists move from (t, u) to (t, w). */
  method TakeEdge(ghost F: seq<Edge>, ghost t: int, u: int, adj: seq<seq<int>>) returns (w: int, adj': seq<seq<int>>)
    requires Mirrored(F, adj) && 0 <= u < |adj| && adj[u] != []
    ensures w == adj[u][|adj[u]| - 1] && 0 <= w < |adj| && Adjacent(F, u, w)
    ensures Took(adj, adj', u, w)
    ensures Mirrored(F, adj') && Touches(adj, adj', u, w) && Entries(adj') + 2 == Entries(adj)
    ensures OddAt(adj, t, u) ==> OddAt(adj', t, w)
  {
    w := adj[u][|adj[u]| - 1];
    adj' := adj[u := adj[u][..|adj[u]| - 1]];
    ReverseEntry(F, adj, u);
    ghost var a1 := adj';
    var i := FindFirst(adj'[w], u);
    if i < |adj'[w]| {
      adj' := adj'[w := adj'[w][..i] + adj'[w][i + 1..]];
      TakeShape(adj, u, w, a1, i, adj');
      TookMirrored(F, adj, adj', u, w);
      if OddAt(adj, t, u) {
        TookParity(adj, adj', u, w, t);
      }
    }
  }

  /** dfs(u): while u's list is non-empty, take the pair (u, w) and recurse
      on w; then push u. On mirrored lists whose odd lists are those of the
      anchor s and of u, it empties u's list and every list it takes from,
      and appends a walk of the tree from s to u, one vertex more than half
      the entries it took. */
  method Dfs(ghost F: seq<Edge>, ghost s: int, u: int, adj: seq<seq<int>>, euler: seq<int>)
    returns (adj': seq<seq<int>>, euler': seq<int>)
    requires Mirrored(F, adj) && 0 <= u < |adj| && 0 <= s < |adj| && OddAt(adj, s, u)
    ensures |euler'| > |euler| && euler'[..|euler|] == euler
    ensures Explored(F, adj, s, u, adj', euler'[|euler|..])
    decreases Entries(adj), 1
  {
    adj', euler' := adj, euler;
    ghost var a := s;
    ExploreStart(F, adj, s, u);
    while adj'[u] != []
      invariant |euler'| >= |euler| && euler'[..|euler|] == euler
      invariant Exploring(F, adj, s, u, a, adj', euler'[|euler|..])
      decreases Entries(adj')
    {
      ghost var e0 := euler';
      adj', euler' := DfsRound(F, adj, s, a, u, adj', |euler|, euler');
      assert euler'[..|euler|] == euler'[..|e0|][..|euler|];
      a := u;
    }
    ExploreEnd(F, adj, s, u, a, adj', euler'[|euler|..]);
    assert (euler' + [u])[|euler|..] == euler'[|euler|..] + [u];
    euler' := euler' + [u];
  }

  /** One round of dfs(u)'s loop (lines 106-110) on the lists cur, when
      dfs(u) started on adj0 with anchor s and has pushed euler[base..]:
      the pair (u, w) taken and dfs(w) run with anchor a. */
  method DfsRound(ghost F: seq<Edge>, ghost adj0: seq<seq<int>>, ghost s: int, ghost a: int, u: int,
                  cur: seq<seq<int>>, ghost base: nat, euler: seq<int>)
    returns (adj': seq<seq<int>>, euler': seq<int>)
    requires base <= |euler| && Exploring(F, adj0, s, u, a, cur, euler[base..]) && cur[u] != []
    ensures |euler'| >= |euler| && euler'[..|euler|] == euler
    ensures Exploring(F, adj0, s, u, u, adj', euler'[base..]) && Entries(adj') < Entries(cur)
    decreases Entries(cur), 0
  {
    var w, adj2 := TakeEdge(F, a, u, cur);
    var adj3, euler3 := Dfs(F, a, w, adj2, euler);
    RoundDone(F, adj0, s, a, u, cur, base, euler, w, adj2, adj3, euler3);
    adj', euler' := adj3, euler3;
  }

  /** A round of dfs(u)'s loop, in terms of the pushed vertices: euler[base..]
      is what dfs(u) had pushed before the round, and dfs(w) extended euler
      to euler3. After the round, dfs(u) has pushed euler3[base..]. */
  lemma RoundDone(F: seq<Edge>, adj0: seq<seq<int>>, s: int, a: int, u: int, cur: seq<seq<int>>,
                  base: nat, euler: seq<int>, w: int, adj2: seq<seq<int>>, adj3: seq<seq<int>>, euler3: seq<int>)
    requires base <= |euler| && Exploring(F, adj0, s, u, a, cur, euler[base..])
    requires 0 <= w < |cur| && Adjacent(F, u, w)
    requires Touches(cur, adj2, u, w) && Entries(adj2) + 2 == Entries(cur)
    requires |euler3| > |euler| && euler3[..|euler|] == euler
    requires Explored(F, adj2, a, w, adj3, euler3[|euler|..])
    ensures Exploring(F, adj0, s, u, u, adj3, euler3[base..]) && Entries(adj3) < Entries(cur)
  {
    SliceJoin(euler, euler3, base);
    ExploreStep(F, adj0, s, u, a, cur, euler[base..], w, adj2, adj3, euler3[|euler|..], euler3[base..]);
  }

  /** What was pushed after base, once euler is extended to euler3. */
  lemma SliceJoin(euler: seq<int>, euler3: seq<int>, base: nat)
    requires base <= |euler| <= |euler3| && euler3[..|euler|] == euler
    ensures euler3[base..] == euler[base..] + euler3[|euler|..]
  {
    assert euler3 == euler + euler3[|euler|..];
  }

  /** Lines 152-154 of main: dfs(0) from an empty tour, then
      std::reverse. On mirrored lists of even lengths, a closed walk of
      the tree from 0, one vertex more than half the entries taken. */
  method EulerTour(ghost F: seq<Edge>, adj: seq<seq<int>>) returns (euler: seq<int>, adj': seq<seq<int>>)
    requires Mirrored(F, adj) && |adj| >= 1 && OddAt(adj, 0, 0)
    ensures WalkBetween(F, euler, |adj|, 0, 0)
    ensures Mirrored(F, adj') && Shrinks(adj, adj', 0) && adj'[0] == [] && Seen(adj, adj', euler)
    ensures 2 * (|euler| - 1) + Entries(adj') == Entries(adj)
  {
    euler := [];
    var walk;
    adj', walk := Dfs(F, 0, 0, adj, euler);
    assert walk[|euler|..] == walk;
    euler := Reversed(walk);
    WalkReversed(F, walk, |adj|, 0, 0);
  }

  /** eulerToHamilton: the vertices of the tour at their first
      occurrences, each once, starting where the tour starts. */
  method EulerToHamilton(euler: seq<int>) returns (hamilton: seq<int>)
    requires InRange(euler, |euler|)
    ensures hamilton == FirstOccurrences(euler)
    ensures Distinct(hamilton) && (forall v :: v in hamilton <==> v in euler)
    ensures euler != [] ==> hamilton[0] == euler[0]
  {
    var visited := seq(|euler|, _ => false);
    hamilton := [];
    var i := 0;
    while i < |euler|
      invariant 0 <= i <= |euler| && |visited| == |euler|
      invariant hamilton == FirstOccurrences(euler[..i])
      invariant forall v :: 0 <= v < |euler| ==> (visited[v] <==> v in hamilton)
    {
      var v := euler[i];
      assert euler[..i + 1][..i] == euler[..i] && euler[..i + 1][i] == v;
      if !visited[v] {
        visited := visited[v := true];
        hamilton := hamilton + [v];
      }
      i := i + 1;
    }
    assert euler[..i] == euler;
    FirstOccurrencesShape(euler);
  }

  /** calculateLength: the consecutive distances along path and the one
      back to its start, the length of the closed walk. */
  method CalculateLength(path: seq<int>, graph: seq<seq<real>>) returns (len: real)
    requires path != [] && IsSquare(graph, |graph|) && InRange(path, |graph|)
    ensures len == WalkLength(graph, path + [path[0]])
    ensures len == WalkLength(graph, path) + graph[path[|path| - 1]][path[0]]
  {
    len := 0.0;
    var i := 0;
    while i < |path| - 1
      invariant 0 <= i <= |path| - 1
      invariant len == WalkLength(graph, path[..i + 1])
    {
      assert path[..i + 2] == path[..i + 1] + [path[i + 1]];
      WalkLengthSnoc(graph, path[..i + 1], path[i + 1]);
      len := len + graph[path[i]][path[i + 1]];
      i := i + 1;
    }
    assert path[..i + 1] == path;
    len := len + graph[path[|path| - 1]][path[0]];
    ClosedWalkLength(graph, path);
  }

  /** main's sum of the tree's weights (line 159). */
  method TreeLength(mst: seq<Edge>) returns (len: real)
    ensures len == TotalWeight(mst)
  {
    len := 0.0;
    var i := 0;
    while i < |mst|
      invariant 0 <= i <= |mst| && len == TotalWeight(mst[..i])
    {
      assert mst[..i + 1][..i] == mst[..i];
      len := len + mst[i].w;
      i := i + 1;
    }
    assert mst[..i] == mst;
  }

  /** The computation of main (lines 149-161) on a non-empty distance
      matrix: the spanning tree, a closed walk of the doubled tree from 0
      through every vertex with 2n - 1 entries, its shortcut, a permutation
      of the n vertices starting at 0, and the three lengths. */
  method Approximate(uf: UnionFind, graph: seq<seq<real>>)
    returns (mst: seq<Edge>, euler: seq<int>, hamilton: seq<int>, mstLen: real, eulerLen: real, hamiltonLen: real)
    requires |graph| >= 1 && IsSquare(graph, |graph|)
    modifies uf
    ensures mst == Greedy(SortByWeight(MatrixEdges(graph)), [], NoStop)
    ensures |mst| == |graph| - 1 && Acyclic(mst) && Spans(mst, |graph|)
    ensures |euler| == 2 * |graph| - 1 && WalkBetween(mst, euler, |graph|, 0, 0) && Visits(euler, |graph|)
    ensures hamilton == FirstOccurrences(euler) && hamilton[0] == 0
    ensures HamiltonianCycle(hamilton + [hamilton[0]], |graph|)
    ensures mstLen == TotalWeight(mst)
    ensures eulerLen == WalkLength(graph, euler + [euler[0]])
    ensures hamiltonLen == WalkLength(graph, hamilton + [hamilton[0]])
  {
    var n := |graph|;
    mst := Kruskal(uf, graph);
    var adj := BuildEulerianGraph(mst);
    DoubledSize(mst, n, adj);
    var rest;
    euler, rest := EulerTour(mst, adj);
    TourCovers(mst, n, adj, rest, euler);
    hamilton := EulerToHamilton(euler);
    ShortcutCycle(euler, n);
    mstLen := TreeLength(mst);
    eulerLen := CalculateLength(euler, graph);
    hamiltonLen := CalculateLength(hamilton, graph);
  }
}
