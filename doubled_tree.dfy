/** The multigraph of tsp.cpp: MST edge i is doubled into the edge ids 2i
    and 2i+1, each stored in both endpoints' lists as (neighbour, id). This
    module defines those lists and the state that TSP::findEulerTour's stack
    walk keeps, with one lemma per kind of loop step. */
module DoubledTree {
  import opened MetricGraph
  import opened SpanningForest
  import opened Walks

  /** Edge id k is a copy of MST edge k / 2 and joins w to x. */
  ghost predicate Joins(F: seq<Edge>, k: int, w: int, x: int)
  {
    0 <= k < 2 * |F| && ((F[k / 2].u == w && F[k / 2].v == x) || (F[k / 2].v == w && F[k / 2].u == x))
  }

  /** How many endpoints of e are w (2 for a loop at w). */
  function Incidence(e: Edge, w: int): nat
  {
    (if e.u == w then 1 else 0) + (if e.v == w then 1 else 0)
  }

  /** The number of edge endpoints of F at w. */
  function Degree(F: seq<Edge>, w: int): nat
    decreases |F|
  {
    if F == [] then 0 else Degree(F[..|F| - 1], w) + Incidence(F[|F| - 1], w)
  }

  /** The list multAdj[w] once buildMultigraph has gone through F:
      for edge i = (u, v), (v, 2i) goes to u's list, (u, 2i) to v's,
      then (v, 2i+1) to u's and (u, 2i+1) to v's. */
  function Slots(F: seq<Edge>, w: int): seq<(int, int)>
    decreases |F|
  {
    if F == [] then []
    else
      var i := |F| - 1;
      var e := F[i];
      Slots(F[..i], w)
        + (if e.u == w then [(e.v, 2 * i)] else [])
        + (if e.v == w then [(e.u, 2 * i)] else [])
        + (if e.u == w then [(e.v, 2 * i + 1)] else [])
        + (if e.v == w then [(e.u, 2 * i + 1)] else [])
  }

  /** The four pushes of buildMultigraph for edge e = F[i] extend each list
      to what Slots gives for F[..i+1]. */
  lemma SlotsPush(F: seq<Edge>, i: nat, adj: seq<seq<(int, int)>>)
    requires i < |F| && 0 <= F[i].u < |adj| && 0 <= F[i].v < |adj|
    requires forall w :: 0 <= w < |adj| ==> adj[w] == Slots(F[..i], w)
    ensures var e := F[i];
      var a1 := adj[e.u := adj[e.u] + [(e.v, 2 * i)]];
      var a2 := a1[e.v := a1[e.v] + [(e.u, 2 * i)]];
      var a3 := a2[e.u := a2[e.u] + [(e.v, 2 * i + 1)]];
      var a4 := a3[e.v := a3[e.v] + [(e.u, 2 * i + 1)]];
      |a4| == |adj| && forall w :: 0 <= w < |adj| ==> a4[w] == Slots(F[..i + 1], w)
  {
    var e := F[i];
    var a1 := adj[e.u := adj[e.u] + [(e.v, 2 * i)]];
    var a2 := a1[e.v := a1[e.v] + [(e.u, 2 * i)]];
    var a3 := a2[e.u := a2[e.u] + [(e.v, 2 * i + 1)]];
    var a4 := a3[e.v := a3[e.v] + [(e.u, 2 * i + 1)]];
    assert F[..i + 1][..i] == F[..i] && F[..i + 1][i] == e;
    forall w | 0 <= w < |adj| ensures a4[w] == Slots(F[..i + 1], w) {
      if w == e.u && w == e.v {
        assert a4[w] == adj[w] + [(e.v, 2 * i), (e.u, 2 * i), (e.v, 2 * i + 1), (e.u, 2 * i + 1)];
      } else if w == e.u {
        assert a4[w] == adj[w] + [(e.v, 2 * i), (e.v, 2 * i + 1)];
      } else if w == e.v {
        assert a4[w] == adj[w] + [(e.u, 2 * i), (e.u, 2 * i + 1)];
      }
    }
  }

  /** The sum of the lengths of the lists. */
  function Total<T>(a: seq<seq<T>>): nat
    decreases |a|
  {
    if a == [] then 0 else Total(a[..|a| - 1]) + |a[|a| - 1]|
  }

  lemma {:induction false} TotalUpdate<T>(a: seq<seq<T>>, i: int, s: seq<T>)
    requires 0 <= i < |a|
    ensures Total(a[i := s]) + |a[i]| == Total(a) + |s|
    decreases |a|
  {
    var b := a[i := s];
    if i < |a| - 1 {
      assert b[..|b| - 1] == a[..|a| - 1][i := s];
      TotalUpdate(a[..|a| - 1], i, s);
    } else {
      assert b[..|b| - 1] == a[..|a| - 1];
    }
  }

  /** Every list has even length, twice the vertex's degree, and every entry
      (x, k) of w's list is an id k joining w to x. */
  lemma {:induction false} SlotsShape(F: seq<Edge>, w: int)
    ensures |Slots(F, w)| == 2 * Degree(F, w)
    ensures forall t :: t in Slots(F, w) ==> Joins(F, t.1, w, t.0)
    decreases |F|
  {
    if F != [] {
      var i := |F| - 1;
      var G, e := F[..i], F[i];
      SlotsShape(G, w);
      forall t | t in Slots(F, w) ensures Joins(F, t.1, w, t.0) {
        if t in Slots(G, w) {
          assert Joins(G, t.1, w, t.0);
          assert G[t.1 / 2] == F[t.1 / 2];
        } else {
          assert t.1 / 2 == i;
        }
      }
    }
  }

  /** Both copies of every MST edge sit in both endpoints' lists. */
  lemma {:induction false} SlotsComplete(F: seq<Edge>, k: int)
    requires 0 <= k < 2 * |F|
    ensures (F[k / 2].v, k) in Slots(F, F[k / 2].u)
    ensures (F[k / 2].u, k) in Slots(F, F[k / 2].v)
    decreases |F|
  {
    var i := |F| - 1;
    var G := F[..i];
    if k / 2 < i {
      SlotsComplete(G, k);
      assert G[k / 2] == F[k / 2];
    }
  }

  /** The number of endpoints at w of the ids below K that are not used yet. */
  ghost function Open(F: seq<Edge>, used: seq<bool>, w: int, K: nat): nat
    requires K <= |used| && K <= 2 * |F|
  {
    if K == 0 then 0
    else Open(F, used, w, K - 1) + (if used[K - 1] then 0 else Incidence(F[(K - 1) / 2], w))
  }

  /** Before any id is used, every vertex has an even number of open endpoints. */
  lemma {:induction false} OpenInitial(F: seq<Edge>, used: seq<bool>, w: int, i: nat)
    requires 2 * i <= |used| && i <= |F|
    requires forall k :: 0 <= k < 2 * i ==> !used[k]
    ensures Open(F, used, w, 2 * i) == 2 * Degree(F[..i], w)
  {
    if i > 0 {
      OpenInitial(F, used, w, i - 1);
      assert F[..i][..i - 1] == F[..i - 1];
      assert (2 * i - 1) / 2 == i - 1 && (2 * i - 2) / 2 == i - 1;
    }
  }

  lemma {:induction false} OpenAgree(F: seq<Edge>, a: seq<bool>, b: seq<bool>, w: int, K: nat)
    requires K <= |a| && K <= |b| && K <= 2 * |F|
    requires forall k :: 0 <= k < K ==> a[k] == b[k]
    ensures Open(F, a, w, K) == Open(F, b, w, K)
  {
    if K > 0 {
      OpenAgree(F, a, b, w, K - 1);
    }
  }

  /** Using id k closes its endpoints at w. */
  lemma {:induction false} OpenFlip(F: seq<Edge>, used: seq<bool>, w: int, K: nat, k: int)
    requires K <= |used| && K <= 2 * |F| && 0 <= k < K && !used[k]
    ensures Open(F, used[k := true], w, K) + Incidence(F[k / 2], w) == Open(F, used, w, K)
  {
    if k < K - 1 {
      OpenFlip(F, used, w, K - 1, k);
    } else {
      OpenAgree(F, used[k := true], used, w, K - 1);
    }
  }

  /** A vertex no open id touches has no open endpoints. */
  lemma {:induction false} OpenZero(F: seq<Edge>, used: seq<bool>, w: int, K: nat)
    requires K <= |used| && K <= 2 * |F|
    requires forall k :: 0 <= k < K && !used[k] ==> Incidence(F[k / 2], w) == 0
    ensures Open(F, used, w, K) == 0
  {
    if K > 0 {
      OpenZero(F, used, w, K - 1);
    }
  }

  /** Every unused id leaves no endpoint at w. */
  ghost predicate Finished(F: seq<Edge>, used: seq<bool>, w: int)
    requires |used| == 2 * |F|
  {
    forall k :: 0 <= k < 2 * |F| && !used[k] ==> Incidence(F[k / 2], w) == 0
  }

  /** The lazy-deletion invariant: every entry (x, k) of w's list is an id k
      joining w to x, and every id not used yet still sits in both of its
      endpoints' lists (entries of used ids may linger). */
  ghost predicate Lazy(F: seq<Edge>, adj: seq<seq<(int, int)>>, used: seq<bool>)
  {
    && |used| == 2 * |F|
    && EdgesWithin(F, |adj|)
    && (forall w, t :: 0 <= w < |adj| && t in adj[w] ==> Joins(F, t.1, w, t.0))
    && (forall k :: 0 <= k < 2 * |F| && !used[k] ==>
          (F[k / 2].v, k) in adj[F[k / 2].u] && (F[k / 2].u, k) in adj[F[k / 2].v])
  }

  /** The stack is a walk from vertex 0 along MST edges. */
  ghost predicate StackWalk(F: seq<Edge>, n: nat, st: seq<int>)
  {
    && InRange(st, n)
    && (st != [] ==> st[0] == 0)
    && (forall i :: 1 <= i < |st| ==> Adjacent(F, st[i - 1], st[i]))
  }

  /** The tour is a walk along MST edges that starts at vertex 0. */
  ghost predicate TourWalk(F: seq<Edge>, n: nat, tour: seq<int>)
  {
    && InRange(tour, n)
    && (tour != [] ==> tour[0] == 0)
    && (forall i :: 1 <= i < |tour| ==> Adjacent(F, tour[i - 1], tour[i]))
  }

  /** Hierholzer's parity invariant: the ids used since the stack was last
      popped to position j form a trail from st[j] to the top, so exactly
      those two vertices (none, if they coincide) have an odd number of open
      endpoints. */
  ghost predicate Parity(F: seq<Edge>, used: seq<bool>, st: seq<int>, j: int)
  {
    && |used| == 2 * |F|
    && (st != [] ==> 0 <= j < |st|)
    && (st != [] ==> forall w :: Open(F, used, w, 2 * |F|) % 2 == 1 <==> ((w == st[j]) != (w == st[|st| - 1])))
  }

  /** How the tour continues into the stack: before the first pop the
      anchor is the bottom of the stack; afterwards the tour's last vertex is
      adjacent to the anchor; once the stack is empty the tour ends at 0. */
  ghost predicate Junction(F: seq<Edge>, st: seq<int>, tour: seq<int>, j: int)
  {
    && (tour == [] ==> st != [] && j == 0)
    && (tour != [] && st != [] ==> 0 <= j < |st| && Adjacent(F, tour[|tour| - 1], st[j]))
    && (st == [] ==> tour != [] && tour[|tour| - 1] == 0)
  }

  /** order lists the used ids, each once; every pick pushed one vertex and
      every pop moved one vertex to the tour. */
  ghost predicate Marks(F: seq<Edge>, used: seq<bool>, order: seq<int>, st: seq<int>, tour: seq<int>)
  {
    && |used| == 2 * |F|
    && Distinct(order)
    && (forall i :: 0 <= i < |order| ==> 0 <= order[i] < 2 * |F|)
    && (forall k :: 0 <= k < 2 * |F| ==> (used[k] <==> k in order))
    && |tour| + |st| == 1 + |order|
  }

  /** S holds 0, the stack and both ends of every used id, and a vertex of S
      that has left the stack has no open endpoint. */
  ghost predicate Visited(F: seq<Edge>, used: seq<bool>, st: seq<int>, S: set<int>)
  {
    && |used| == 2 * |F|
    && 0 in S
    && (forall i :: 0 <= i < |st| ==> st[i] in S)
    && (forall k :: 0 <= k < 2 * |F| && used[k] ==> F[k / 2].u in S && F[k / 2].v in S)
    && (forall w :: w in S && w !in st ==> Finished(F, used, w))
  }

  /** Every vertex of S is on the stack or already in the tour. */
  ghost predicate Popped(S: set<int>, st: seq<int>, tour: seq<int>)
  {
    forall w :: w in S ==> w in st || w in tour
  }

  /** Everything findEulerTour's loop keeps. */
  ghost predicate EulerState(F: seq<Edge>, n: nat, adj: seq<seq<(int, int)>>, used: seq<bool>,
                             st: seq<int>, tour: seq<int>, j: int, S: set<int>, order: seq<int>)
  {
    && n >= 1 && |adj| == n
    && Lazy(F, adj, used)
    && StackWalk(F, n, st)
    && TourWalk(F, n, tour)
    && Parity(F, used, st, j)
    && Junction(F, st, tour, j)
    && Marks(F, used, order, st, tour)
    && Visited(F, used, st, S)
    && Popped(S, st, tour)
  }

  /** EulerState as one fact: a postcondition that names EulerState is
      split into its nine conjuncts, one proof obligation each; one that
      names Walking stays a single obligation, which keeps the step
      lemmas and the loop small for the verifier. */
  ghost predicate Walking(F: seq<Edge>, n: nat, adj: seq<seq<(int, int)>>, used: seq<bool>,
                          st: seq<int>, tour: seq<int>, j: int, S: set<int>, order: seq<int>)
  {
    EulerState(F, n, adj, used, st, tour, j, S, order)
  }

  /** The loop's state on entry: the lists buildMultigraph made, no id used,
      only vertex 0 on the stack and an empty tour. */
  lemma EulerStart(F: seq<Edge>, n: nat, used: seq<bool>)
    requires n >= 1 && EdgesWithin(F, n)
    requires |used| == 2 * |F| && forall k :: 0 <= k < |used| ==> !used[k]
    ensures Walking(F, n, seq(n, w => Slots(F, w)), used, [0], [], 0, {0}, [])
  {
    var adj := seq(n, w => Slots(F, w));
    StartLazy(F, n, used);
    StartParity(F, used);
    assert StackWalk(F, n, [0]) && TourWalk(F, n, []) && Junction(F, [0], [], 0);
    assert Marks(F, used, [], [0], []);
    assert Visited(F, used, [0], {0});
    assert Popped({0}, [0], []);
  }

  lemma StartParity(F: seq<Edge>, used: seq<bool>)
    requires |used| == 2 * |F| && forall k :: 0 <= k < |used| ==> !used[k]
    ensures Parity(F, used, [0], 0)
  {
    forall w ensures Open(F, used, w, 2 * |F|) % 2 == 0 {
      OpenInitial(F, used, w, |F|);
      var dg := Degree(F[..|F|], w);
      assert (2 * dg) % 2 == 0;
    }
  }

  lemma StartLazy(F: seq<Edge>, n: nat, used: seq<bool>)
    requires EdgesWithin(F, n)
    requires |used| == 2 * |F|
    ensures Lazy(F, seq(n, w => Slots(F, w)), used)
  {
    var adj := seq(n, w => Slots(F, w));
    forall w, t: (int, int) | 0 <= w < n && t in adj[w] ensures Joins(F, t.1, w, t.0) {
      SlotsShape(F, w);
    }
    forall k | 0 <= k < 2 * |F|
      ensures (F[k / 2].v, k) in adj[F[k / 2].u] && (F[k / 2].u, k) in adj[F[k / 2].v]
    {
      assert F[k / 2] in F;
      SlotsComplete(F, k);
    }
  }

  /** Dropping a used entry from the back of w's list keeps the invariant. */
  lemma SkipStep(F: seq<Edge>, adj: seq<seq<(int, int)>>, used: seq<bool>, w: int)
    requires Lazy(F, adj, used) && 0 <= w < |adj| && adj[w] != []
    requires used[adj[w][|adj[w]| - 1].1]
    ensures Lazy(F, adj[w := adj[w][..|adj[w]| - 1]], used)
  {
    var a := adj[w];
    var adj' := adj[w := a[..|a| - 1]];
    assert a == a[..|a| - 1] + [a[|a| - 1]];
    forall x, t: (int, int) | 0 <= x < |adj'| && t in adj'[x] ensures Joins(F, t.1, x, t.0) {
      assert t in adj[x];
    }
    forall k | 0 <= k < 2 * |F| && !used[k]
      ensures (F[k / 2].v, k) in adj'[F[k / 2].u] && (F[k / 2].u, k) in adj'[F[k / 2].v]
    {
      assert (F[k / 2].v, k) != a[|a| - 1] && (F[k / 2].u, k) != a[|a| - 1];
    }
  }

  /** cur is adj with used entries popped off the back of w's list and
      every other list untouched; the lazy-deletion invariant holds for
      both. */
  ghost predicate Skipped(F: seq<Edge>, adj: seq<seq<(int, int)>>, cur: seq<seq<(int, int)>>,
                          used: seq<bool>, w: int)
  {
    && Lazy(F, adj, used) && Lazy(F, cur, used) && |cur| == |adj| && 0 <= w < |adj|
    && Total(cur) <= Total(adj)
    && (forall x :: 0 <= x < |adj| && x != w ==> cur[x] == adj[x])
    && |cur[w]| <= |adj[w]| && cur[w] == adj[w][..|cur[w]|]
    && (forall i :: |cur[w]| <= i < |adj[w]| ==> used[adj[w][i].1])
  }

  /** Popping one more used entry off the back of w's list keeps Skipped. */
  lemma SkipMore(F: seq<Edge>, adj: seq<seq<(int, int)>>, cur: seq<seq<(int, int)>>,
                 used: seq<bool>, w: int)
    requires Skipped(F, adj, cur, used, w) && cur[w] != [] && used[cur[w][|cur[w]| - 1].1]
    ensures Skipped(F, adj, cur[w := cur[w][..|cur[w]| - 1]], used, w)
  {
    SkipStep(F, cur, used, w);
    TotalUpdate(cur, w, cur[w][..|cur[w]| - 1]);
  }

  /** Picking the unused entry (v, id) at the back of the top's list: the
      entry leaves the list, id becomes used, v is pushed. */
  lemma PickStep(F: seq<Edge>, n: nat, adj: seq<seq<(int, int)>>, used: seq<bool>,
                 st: seq<int>, tour: seq<int>, j: int, S: set<int>, order: seq<int>,
                 adj': seq<seq<(int, int)>>, used': seq<bool>, st': seq<int>, S': set<int>, order': seq<int>)
    requires Walking(F, n, adj, used, st, tour, j, S, order) && st != []
    requires adj[st[|st| - 1]] != [] && !used[adj[st[|st| - 1]][|adj[st[|st| - 1]]| - 1].1]
    requires var u := st[|st| - 1];
      var t := adj[u][|adj[u]| - 1];
      && adj' == adj[u := adj[u][..|adj[u]| - 1]] && used' == used[t.1 := true] && st' == st + [t.0]
      && S' == S + {t.0} && order' == order + [t.1]
    ensures var u := st[|st| - 1];
      var t := adj[u][|adj[u]| - 1];
      Joins(F, t.1, u, t.0) && Walking(F, n, adj', used', st', tour, j, S', order')
  {
    var u := st[|st| - 1];
    var t := adj[u][|adj[u]| - 1];
    assert t in adj[u];
    PickLazy(F, adj, used, u);
    PickWalk(F, n, st, t.1, t.0);
    PickParity(F, used, st, j, t.1, t.0);
    PickMarks(F, used, order, st, tour, t.1, t.0);
    PickVisited(F, used, st, S, t.1, t.0);
    assert Popped(S + {t.0}, st + [t.0], tour) by {
      forall w | w in S + {t.0} ensures w in st + [t.0] || w in tour {
        if w in st { assert w in st + [t.0]; }
      }
    }
  }

  lemma PickLazy(F: seq<Edge>, adj: seq<seq<(int, int)>>, used: seq<bool>, u: int)
    requires Lazy(F, adj, used) && 0 <= u < |adj| && adj[u] != []
    requires !used[adj[u][|adj[u]| - 1].1]
    ensures Lazy(F, adj[u := adj[u][..|adj[u]| - 1]], used[adj[u][|adj[u]| - 1].1 := true])
  {
    var a := adj[u];
    var id := a[|a| - 1].1;
    var adj', used' := adj[u := a[..|a| - 1]], used[id := true];
    assert a == a[..|a| - 1] + [a[|a| - 1]];
    forall x, t: (int, int) | 0 <= x < |adj'| && t in adj'[x] ensures Joins(F, t.1, x, t.0) {
      assert t in adj[x];
    }
    forall k | 0 <= k < 2 * |F| && !used'[k]
      ensures (F[k / 2].v, k) in adj'[F[k / 2].u] && (F[k / 2].u, k) in adj'[F[k / 2].v]
    {
      assert k != id;
      assert (F[k / 2].v, k) != a[|a| - 1] && (F[k / 2].u, k) != a[|a| - 1];
    }
  }

  lemma PickWalk(F: seq<Edge>, n: nat, st: seq<int>, id: int, v: int)
    requires StackWalk(F, n, st) && st != [] && EdgesWithin(F, n)
    requires Joins(F, id, st[|st| - 1], v)
    ensures StackWalk(F, n, st + [v])
  {
    assert F[id / 2] in F;
    assert Adjacent(F, st[|st| - 1], v) by {
      assert 0 <= id / 2 < |F|;
    }
  }

  lemma PickParity(F: seq<Edge>, used: seq<bool>, st: seq<int>, j: int, id: int, v: int)
    requires Parity(F, used, st, j) && st != []
    requires Joins(F, id, st[|st| - 1], v) && !used[id]
    ensures Parity(F, used[id := true], st + [v], j)
  {
    var st', used' := st + [v], used[id := true];
    forall w ensures Open(F, used', w, 2 * |F|) % 2 == 1 <==> ((w == st'[j]) != (w == st'[|st'| - 1])) {
      OpenFlip(F, used, w, 2 * |F|, id);
    }
  }

  /** A pick that uses id and pushes v records id once. */
  lemma PickMarks(F: seq<Edge>, used: seq<bool>, order: seq<int>, st: seq<int>, tour: seq<int>, id: int, v: int)
    requires Marks(F, used, order, st, tour) && 0 <= id < |used| && !used[id]
    ensures Marks(F, used[id := true], order + [id], st + [v], tour)
  {
    assert id !in order;
    forall k | 0 <= k < 2 * |F| ensures used[id := true][k] <==> k in order + [id] { }
  }

  lemma PickVisited(F: seq<Edge>, used: seq<bool>, st: seq<int>, S: set<int>, id: int, v: int)
    requires Visited(F, used, st, S) && st != []
    requires Joins(F, id, st[|st| - 1], v) && !used[id]
    ensures Visited(F, used[id := true], st + [v], S + {v})
  {
    var used', st' := used[id := true], st + [v];
    forall k | 0 <= k < 2 * |F| && used'[k] ensures F[k / 2].u in S + {v} && F[k / 2].v in S + {v} {
      if k == id {
        assert st[|st| - 1] in S;
      }
    }
    forall w | w in S + {v} && w !in st' ensures Finished(F, used', w) {
      assert w in S && w !in st;
    }
  }

  /** The top u's list holds no unused id: u is the anchor, so popping it to
      the tour keeps the walk connected and leaves every degree even. */
  lemma PopStep(F: seq<Edge>, n: nat, adj: seq<seq<(int, int)>>, used: seq<bool>,
                st: seq<int>, tour: seq<int>, j: int, S: set<int>, order: seq<int>,
                st': seq<int>, tour': seq<int>, j': int)
    requires Walking(F, n, adj, used, st, tour, j, S, order) && st != []
    requires adj[st[|st| - 1]] == []
    requires st' == st[..|st| - 1] && tour' == tour + [st[|st| - 1]] && j' == |st| - 2
    ensures Walking(F, n, adj, used, st', tour', j', S, order)
  {
    PopAnchor(F, adj, used, st, j);
    PopParity(F, used, st, j);
    PopTour(F, n, st, tour, j);
    PopVisited(F, used, st, S);
    var u, st' := st[|st| - 1], st[..|st| - 1];
    assert Popped(S, st', tour + [u]) by {
      forall w | w in S ensures w in st' || w in tour + [u] {
        if w in st && w != u {
          var i :| 0 <= i < |st| && st[i] == w;
          assert st'[i] == w;
        }
      }
    }
  }

  /** A vertex whose list is empty has no open endpoint, so it is the anchor. */
  lemma PopAnchor(F: seq<Edge>, adj: seq<seq<(int, int)>>, used: seq<bool>, st: seq<int>, j: int)
    requires Lazy(F, adj, used) && Parity(F, used, st, j) && st != []
    requires 0 <= st[|st| - 1] < |adj| && adj[st[|st| - 1]] == []
    ensures Finished(F, used, st[|st| - 1]) && st[j] == st[|st| - 1]
  {
    var u := st[|st| - 1];
    forall k | 0 <= k < 2 * |F| && !used[k] ensures Incidence(F[k / 2], u) == 0 {
      assert (F[k / 2].v, k) in adj[F[k / 2].u] && (F[k / 2].u, k) in adj[F[k / 2].v];
    }
    OpenZero(F, used, u, 2 * |F|);
  }

  lemma PopParity(F: seq<Edge>, used: seq<bool>, st: seq<int>, j: int)
    requires Parity(F, used, st, j) && st != [] && st[j] == st[|st| - 1]
    ensures Parity(F, used, st[..|st| - 1], |st| - 2)
  {
    if |st| > 1 {
      forall w ensures Open(F, used, w, 2 * |F|) % 2 == 0 { }
    }
  }

  lemma PopTour(F: seq<Edge>, n: nat, st: seq<int>, tour: seq<int>, j: int)
    requires StackWalk(F, n, st) && TourWalk(F, n, tour) && Junction(F, st, tour, j)
    requires st != [] && st[j] == st[|st| - 1]
    ensures StackWalk(F, n, st[..|st| - 1])
    ensures TourWalk(F, n, tour + [st[|st| - 1]])
    ensures Junction(F, st[..|st| - 1], tour + [st[|st| - 1]], |st| - 2)
  {
    var u, st', tour' := st[|st| - 1], st[..|st| - 1], tour + [st[|st| - 1]];
    if st' != [] {
      assert Adjacent(F, st[|st| - 2], u);
      assert Adjacent(F, u, st'[|st'| - 1]);
    }
  }

  lemma PopVisited(F: seq<Edge>, used: seq<bool>, st: seq<int>, S: set<int>)
    requires Visited(F, used, st, S) && st != [] && Finished(F, used, st[|st| - 1])
    ensures Visited(F, used, st[..|st| - 1], S)
  {
    var st' := st[..|st| - 1];
    forall w | w in S && w !in st' ensures Finished(F, used, w) {
      if w != st[|st| - 1] {
        assert w !in st;
      }
    }
  }

  /** Once the stack is empty and the MST spans 0 .. n-1, every id has been
      used, each exactly once. */
  lemma AllUsed(F: seq<Edge>, n: nat, used: seq<bool>, tour: seq<int>, S: set<int>, order: seq<int>)
    requires n >= 1 && EdgesWithin(F, n) && Spans(F, n)
    requires Marks(F, used, order, [], tour) && Visited(F, used, [], S) && Popped(S, [], tour)
    ensures forall k :: 0 <= k < 2 * |F| ==> used[k]
    ensures |order| == 2 * |F| && |tour| == 2 * |F| + 1
    ensures Visits(tour, n)
  {
    forall i | 0 <= i < |F| ensures F[i].u in S <==> F[i].v in S {
      assert (2 * i) / 2 == i;
      if F[i].u in S || F[i].v in S {
        assert used[2 * i];
      }
    }
    ClosedSetIsEverything(F, n, S);
    forall k | 0 <= k < 2 * |F| ensures used[k] {
      assert F[k / 2] in F;
      assert F[k / 2].u in S;
    }
    var ids := set x | x in order;
    assert ids == Vertices(2 * |F|);
    DistinctCard(order);
  }

  /** Replacing the lists by others that keep the lazy-deletion invariant
      keeps the whole loop state. */
  lemma Relist(F: seq<Edge>, n: nat, adj: seq<seq<(int, int)>>, adj': seq<seq<(int, int)>>, used: seq<bool>,
               st: seq<int>, tour: seq<int>, j: int, S: set<int>, order: seq<int>)
    requires Walking(F, n, adj, used, st, tour, j, S, order)
    requires Lazy(F, adj', used) && |adj'| == |adj|
    ensures Walking(F, n, adj', used, st, tour, j, S, order)
  {
  }

  /** When the stack is empty the tour is a closed walk from 0 along MST
      edges with one step per used id; on a spanning tree every id is used
      and every vertex is on the tour. */
  lemma EulerFinish(F: seq<Edge>, n: nat, adj: seq<seq<(int, int)>>, used: seq<bool>,
                    tour: seq<int>, j: int, S: set<int>, order: seq<int>)
    requires Walking(F, n, adj, used, [], tour, j, S, order)
    ensures tour != [] && tour[|tour| - 1] == 0 && TourWalk(F, n, tour)
    ensures |used| == 2 * |F| && Distinct(order) && |tour| == |order| + 1
    ensures forall k :: 0 <= k < 2 * |F| ==> (used[k] <==> k in order)
    ensures Spans(F, n) ==>
              && |tour| == 2 * |F| + 1
              && (forall k :: 0 <= k < 2 * |F| ==> used[k])
              && Visits(tour, n)
  {
    if Spans(F, n) {
      AllUsed(F, n, used, tour, S, order);
    }
  }
}
