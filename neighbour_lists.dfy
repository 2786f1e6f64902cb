/** The doubled adjacency lists of TSP_Approximatif.cpp (one vector of
    neighbour indices per vertex, each tree edge listed twice in both
    directions) and what the recursive Euler walk over them keeps: every
    entry mirrored by a reverse entry, the parity of the list lengths, and
    which lists it has emptied. */
module NeighbourLists {
  import opened MetricGraph
  import opened SpanningForest
  import opened Walks
  import DoubledTree

  /** The number of entries over all lists: DoubledTree.Total at the list
      type of buildEulerianGraph, named for the decreasing measure of dfs
      so that lemmas here need not mention the generic function. */
  function Entries(a: seq<seq<int>>): nat
  {
    DoubledTree.Total(a)
  }

  /** What buildEulerianGraph appends to x's list for edge e in one round:
      v when x is u, then u when x is v. */
  function Once(e: Edge, x: int): seq<int>
  {
    (if e.u == x then [e.v] else []) + (if e.v == x then [e.u] else [])
  }

  /** What buildEulerianGraph appends to x's list for edge e: v to u's list,
      u to v's list, and both once more. */
  function Pushed(e: Edge, x: int): seq<int>
  {
    Once(e, x) + Once(e, x)
  }

  /** x's list after buildEulerianGraph has gone through the edges F. */
  function Neighbours(F: seq<Edge>, x: int): seq<int>
    decreases |F|
  {
    if F == [] then [] else Neighbours(F[..|F| - 1], x) + Pushed(F[|F| - 1], x)
  }

  /** The largest endpoint of F, and 0 when F is empty or has no larger one. */
  function MaxEnd(F: seq<Edge>): (m: int)
    ensures m >= 0 && forall k :: 0 <= k < |F| ==> F[k].u <= m && F[k].v <= m
    ensures m == 0 || exists k :: 0 <= k < |F| && (F[k].u == m || F[k].v == m)
    decreases |F|
  {
    if F == [] then 0
    else
      var e, m := F[|F| - 1], MaxEnd(F[..|F| - 1]);
      var big := if e.u < e.v then e.v else e.u;
      if m < big then big else m
  }

  /** adj is what buildEulerianGraph returns for F: one list per vertex up
      to the largest endpoint, each built from the edges in order. */
  ghost predicate DoubledOf(F: seq<Edge>, adj: seq<seq<int>>)
  {
    |adj| == MaxEnd(F) + 1 && forall x :: 0 <= x < |adj| ==> adj[x] == Neighbours(F, x)
  }

  predicate Even(k: int)
  {
    k % 2 == 0
  }

  /** Every entry y of x's list is a vertex adjacent to x in F, and the
      entries come in reverse pairs: y occurs in x's list as often as x in
      y's, and x occurs in its own list an even number of times. */
  ghost predicate Mirrored(F: seq<Edge>, a: seq<seq<int>>)
  {
    && (forall x, y :: 0 <= x < |a| && y in a[x] ==> 0 <= y < |a| && Adjacent(F, x, y))
    && (forall x, y :: 0 <= x < |a| && 0 <= y < |a| ==> multiset(a[x])[y] == multiset(a[y])[x])
    && (forall x :: 0 <= x < |a| ==> Even(multiset(a[x])[x]))
  }

  /** The lists of odd length are exactly those of s and v when s != v;
      when s == v every list has even length. */
  ghost predicate OddAt(a: seq<seq<int>>, s: int, v: int)
  {
    forall x :: 0 <= x < |a| ==> (!Even(|a[x]|) <==> s != v && (x == s || x == v))
  }

  /** Every list of a is a sub-multiset of the same list of a0. */
  ghost predicate Within(a0: seq<seq<int>>, a: seq<seq<int>>)
  {
    |a| == |a0| && forall x :: 0 <= x < |a| ==> multiset(a[x]) <= multiset(a0[x])
  }

  /** a has only lost entries since a0, and every list but v's that lost
      one is empty. */
  ghost predicate Shrinks(a0: seq<seq<int>>, a: seq<seq<int>>, v: int)
  {
    Within(a0, a) && forall x :: 0 <= x < |a| && x != v && |a[x]| < |a0[x]| ==> a[x] == []
  }

  /** a has only lost entries since a0, and only in the lists of u and w. */
  ghost predicate Touches(a0: seq<seq<int>>, a: seq<seq<int>>, u: int, w: int)
  {
    Within(a0, a) && forall x :: 0 <= x < |a| && x != u && x != w ==> a[x] == a0[x]
  }

  /** Every vertex whose list has lost an entry since a0 occurs in t. */
  ghost predicate Seen(a0: seq<seq<int>>, a: seq<seq<int>>, t: seq<int>)
  {
    |a| == |a0| && forall x :: 0 <= x < |a| && |a[x]| < |a0[x]| ==> x in t
  }

  /** Consecutive entries of t are adjacent in F. */
  ghost predicate Trail(F: seq<Edge>, t: seq<int>)
  {
    forall i :: 0 <= i < |t| - 1 ==> Adjacent(F, t[i], t[i + 1])
  }

  /** t is a walk in F over vertices 0 .. n-1 from s to v. */
  ghost predicate WalkBetween(F: seq<Edge>, t: seq<int>, n: nat, s: int, v: int)
  {
    t != [] && t[0] == s && t[|t| - 1] == v && Trail(F, t) && InRange(t, n)
  }

  lemma AdjacentSymmetric(F: seq<Edge>, x: int, y: int)
    ensures Adjacent(F, x, y) <==> Adjacent(F, y, x)
  {
    if Adjacent(F, x, y) {
      var k :| 0 <= k < |F| && ((F[k].u == x && F[k].v == y) || (F[k].u == y && F[k].v == x));
      assert Adjacent(F, y, x);
    }
    if Adjacent(F, y, x) {
      var k :| 0 <= k < |F| && ((F[k].u == y && F[k].v == x) || (F[k].u == x && F[k].v == y));
      assert Adjacent(F, x, y);
    }
  }

  /** Joining two walks where the first ends next to where the second starts. */
  lemma TrailConcat(F: seq<Edge>, p: seq<int>, q: seq<int>)
    requires p != [] && q != [] && Trail(F, p) && Trail(F, q) && Adjacent(F, p[|p| - 1], q[0])
    ensures Trail(F, p + q)
  {
    forall i | 0 <= i < |p + q| - 1 ensures Adjacent(F, (p + q)[i], (p + q)[i + 1]) {
      if i >= |p| {
        assert (p + q)[i] == q[i - |p|] && (p + q)[i + 1] == q[i - |p| + 1];
      }
    }
  }

  /** A walk read backwards is a walk. */
  lemma TrailReversed(F: seq<Edge>, t: seq<int>)
    requires Trail(F, t)
    ensures Trail(F, Reversed(t))
  {
    var r := Reversed(t);
    forall i | 0 <= i < |r| - 1 ensures Adjacent(F, r[i], r[i + 1]) {
      var j := |t| - 2 - i;
      assert Adjacent(F, t[j], t[j + 1]);
      AdjacentSymmetric(F, t[j], t[j + 1]);
    }
  }

  /** An edge of F adjacent in F to each of its endpoints' lists. */
  lemma AdjacentGrows(F: seq<Edge>, e: Edge, x: int, y: int)
    requires Adjacent(F, x, y)
    ensures Adjacent(F + [e], x, y)
  {
    var k :| 0 <= k < |F| && ((F[k].u == x && F[k].v == y) || (F[k].u == y && F[k].v == x));
    assert (F + [e])[k] == F[k];
  }

  /** One edge adds y to x's list as often as x to y's. */
  lemma PushedMirror(e: Edge, x: int, y: int)
    ensures multiset(Pushed(e, x))[y] == multiset(Pushed(e, y))[x]
  {
    assert multiset(Pushed(e, x)) == multiset(Once(e, x)) + multiset(Once(e, x));
    assert multiset(Pushed(e, y)) == multiset(Once(e, y)) + multiset(Once(e, y));
    OnceCount(e, x, y);
    OnceCount(e, y, x);
  }

  /** One edge adds an even number of entries to x's list, and x itself an
      even number of times. */
  lemma PushedEven(e: Edge, x: int)
    ensures Even(|Pushed(e, x)|) && Even(multiset(Pushed(e, x))[x])
  {
    Twice(Once(e, x), x);
  }

  /** Any list written twice has even length and holds x an even number of times. */
  lemma Twice(o: seq<int>, x: int)
    ensures Even(|o + o|) && Even(multiset(o + o)[x])
  {
    assert multiset(o + o) == multiset(o) + multiset(o);
    EvenDouble(|o|);
    EvenDouble(multiset(o)[x]);
  }

  /** One edge adds to x's list only an endpoint joined to x by it. */
  lemma PushedJoins(e: Edge, x: int, y: int)
    ensures y in Pushed(e, x) ==> (e.u == x && e.v == y) || (e.u == y && e.v == x)
  {
    assert y in Pushed(e, x) <==> y in Once(e, x);
  }

  lemma EvenDouble(k: int)
    ensures Even(k + k)
  {
  }

  /** How often one round for e puts y in x's list. */
  lemma OnceCount(e: Edge, x: int, y: int)
    ensures multiset(Once(e, x))[y] == (if e.u == x && e.v == y then 1 else 0) + (if e.v == x && e.u == y then 1 else 0)
  {
    var a: seq<int> := if e.u == x then [e.v] else [];
    var b: seq<int> := if e.v == x then [e.u] else [];
    assert multiset(Once(e, x)) == multiset(a) + multiset(b);
  }

  /** In the lists built from F, y occurs in x's list as often as x in y's. */
  lemma {:induction false} NeighboursMirror(F: seq<Edge>, x: int, y: int)
    ensures multiset(Neighbours(F, x))[y] == multiset(Neighbours(F, y))[x]
    decreases |F|
  {
    if F != [] {
      var G, e := F[..|F| - 1], F[|F| - 1];
      NeighboursMirror(G, x, y);
      PushedMirror(e, x, y);
      var nx, ny, px, py := Neighbours(G, x), Neighbours(G, y), Pushed(e, x), Pushed(e, y);
      assert Neighbours(F, x) == nx + px && Neighbours(F, y) == ny + py;
      assert multiset(nx + px) == multiset(nx) + multiset(px);
      assert multiset(ny + py) == multiset(ny) + multiset(py);
    }
  }

  /** Every list built from F has even length. */
  lemma {:induction false} NeighboursEven(F: seq<Edge>, x: int)
    ensures Even(|Neighbours(F, x)|)
    decreases |F|
  {
    if F != [] {
      var G, e := F[..|F| - 1], F[|F| - 1];
      NeighboursEven(G, x);
      PushedEven(e, x);
      var nx, px := Neighbours(G, x), Pushed(e, x);
      assert Neighbours(F, x) == nx + px;
      EvenSum(|nx|, |px|);
    }
  }

  /** Every list built from F holds its own vertex an even number of times. */
  lemma {:induction false} NeighboursSelfEven(F: seq<Edge>, x: int)
    ensures Even(multiset(Neighbours(F, x))[x])
    decreases |F|
  {
    if F != [] {
      var G, e := F[..|F| - 1], F[|F| - 1];
      NeighboursSelfEven(G, x);
      PushedEven(e, x);
      var nx, px := Neighbours(G, x), Pushed(e, x);
      var a, b := multiset(nx)[x], multiset(px)[x];
      assert multiset(Neighbours(F, x))[x] == a + b by {
        assert Neighbours(F, x) == nx + px;
        assert multiset(nx + px) == multiset(nx) + multiset(px);
      }
      EvenSum(a, b);
    }
  }

  lemma EvenSum(a: int, b: int)
    requires Even(a) && Even(b)
    ensures Even(a + b)
  {
    assert a == 2 * (a / 2) && b == 2 * (b / 2);
    assert a + b == 2 * (a / 2 + b / 2);
  }

  /** Every entry of x's list built from F is adjacent to x in F. */
  lemma {:induction false} NeighboursAdjacent(F: seq<Edge>, x: int, y: int)
    requires y in Neighbours(F, x)
    ensures Adjacent(F, x, y)
    decreases |F|
  {
    var G, e := F[..|F| - 1], F[|F| - 1];
    assert F == G + [e];
    if y in Neighbours(G, x) {
      NeighboursAdjacent(G, x, y);
      AdjacentGrows(G, e, x, y);
    } else {
      PushedJoins(e, x, y);
      assert F[|F| - 1] == e;
    }
  }

  /** Each edge of F puts each endpoint in the other's list. */
  lemma {:induction false} NeighboursHold(F: seq<Edge>, k: int)
    requires 0 <= k < |F|
    ensures F[k].v in Neighbours(F, F[k].u) && F[k].u in Neighbours(F, F[k].v)
    decreases |F|
  {
    var G, e := F[..|F| - 1], F[|F| - 1];
    if k < |F| - 1 {
      NeighboursHold(G, k);
      assert G[k] == F[k];
    } else {
      assert F[k].v in Pushed(e, e.u) && F[k].u in Pushed(e, e.v);
    }
  }

  /** The lists buildEulerianGraph returns are mirrored and all of even length. */
  lemma DoubledMirrored(F: seq<Edge>, adj: seq<seq<int>>)
    requires DoubledOf(F, adj) && forall e :: e in F ==> 0 <= e.u && 0 <= e.v
    ensures Mirrored(F, adj) && OddAt(adj, 0, 0)
  {
    forall x, y | 0 <= x < |adj| && 0 <= y < |adj|
      ensures multiset(adj[x])[y] == multiset(adj[y])[x]
    {
      NeighboursMirror(F, x, y);
    }
    forall x, y | 0 <= x < |adj| && y in adj[x]
      ensures 0 <= y < |adj| && Adjacent(F, x, y)
    {
      NeighboursAdjacent(F, x, y);
      var k :| 0 <= k < |F| && ((F[k].u == x && F[k].v == y) || (F[k].u == y && F[k].v == x));
      assert F[k] in F;
    }
    forall x | 0 <= x < |adj| ensures Even(|adj[x]|) && Even(multiset(adj[x])[x]) {
      NeighboursEven(F, x);
      NeighboursSelfEven(F, x);
    }
  }

  lemma EvenShift(k: int)
    ensures Even(k) <==> !Even(k + 1)
    ensures Even(k) <==> Even(k + 2)
  {
  }

  /** In mirrored lists, the last entry w of u's list is a vertex adjacent
      to u, and once it is popped, w's list (u's own when w == u) still
      holds the reverse entry u. */
  lemma ReverseEntry(F: seq<Edge>, a: seq<seq<int>>, u: int)
    requires Mirrored(F, a) && 0 <= u < |a| && a[u] != []
    ensures var w := a[u][|a[u]| - 1];
      0 <= w < |a| && Adjacent(F, u, w) && u in a[u := a[u][..|a[u]| - 1]][w]
  {
    var w, p := a[u][|a[u]| - 1], a[u][..|a[u]| - 1];
    assert a[u] == p + [w];
    assert w in a[u];
    assert multiset(a[u])[w] >= 1;
    assert multiset(a[w])[u] >= 1;
    if w == u {
      assert multiset(a[u]) == multiset(p) + multiset{w};
      assert multiset(p)[u] >= 1;
    } else {
      assert u in multiset(a[w]);
    }
  }

  /** a2 is a with one entry w taken from u's list and one entry u from
      w's list (two entries u from u's list when w == u). */
  ghost predicate Took(a: seq<seq<int>>, a2: seq<seq<int>>, u: int, w: int)
  {
    && |a2| == |a|
    && (forall x :: 0 <= x < |a| ==> |a2[x]| + (if x == u then 1 else 0) + (if x == w then 1 else 0) == |a[x]|)
    && (forall x, y :: 0 <= x < |a| && 0 <= y < |a| ==>
          multiset(a2[x])[y] + (if x == u && y == w then 1 else 0) + (if x == w && y == u then 1 else 0)
            == multiset(a[x])[y])
  }

  /** Popping w off the end of u's list and erasing the reverse entry u at
      index i of w's list takes exactly those two entries. */
  lemma TakeShape(a: seq<seq<int>>, u: int, w: int, a1: seq<seq<int>>, i: int, a2: seq<seq<int>>)
    requires 0 <= u < |a| && a[u] != [] && w == a[u][|a[u]| - 1]
    requires a1 == a[u := a[u][..|a[u]| - 1]]
    requires 0 <= w < |a| && 0 <= i < |a1[w]| && a1[w][i] == u
    requires a2 == a1[w := a1[w][..i] + a1[w][i + 1..]]
    ensures Took(a, a2, u, w) && Touches(a, a2, u, w) && Entries(a2) + 2 == Entries(a)
  {
    forall x | 0 <= x < |a|
      ensures |a2[x]| + (if x == u then 1 else 0) + (if x == w then 1 else 0) == |a[x]|
      ensures multiset(a2[x]) <= multiset(a[x])
      ensures forall y :: multiset(a2[x])[y] + (if x == u && y == w then 1 else 0) + (if x == w && y == u then 1 else 0)
                == multiset(a[x])[y]
    {
      TakeAt(a, u, w, a1, i, a2, x);
    }
    DoubledTree.TotalUpdate(a, u, a1[u]);
    DoubledTree.TotalUpdate(a1, w, a2[w]);
  }

  /** TakeShape for one list x: what x's list lost, as a multiset. */
  lemma TakeAt(a: seq<seq<int>>, u: int, w: int, a1: seq<seq<int>>, i: int, a2: seq<seq<int>>, x: int)
    requires 0 <= u < |a| && a[u] != [] && w == a[u][|a[u]| - 1]
    requires a1 == a[u := a[u][..|a[u]| - 1]]
    requires 0 <= w < |a| && 0 <= i < |a1[w]| && a1[w][i] == u
    requires a2 == a1[w := a1[w][..i] + a1[w][i + 1..]]
    requires 0 <= x < |a|
    ensures multiset(a2[x]) + (if x == u then multiset{w} else multiset{}) + (if x == w then multiset{u} else multiset{})
              == multiset(a[x])
  {
    var p, q := a[u][..|a[u]| - 1], a1[w][..i] + a1[w][i + 1..];
    EraseAt(a[u], |a[u]| - 1);
    assert a[u][..|a[u]| - 1] + a[u][|a[u]|..] == p;
    EraseAt(a1[w], i);
    if x == u && x == w {
      assert a2[x] == q && a1[w] == p;
    } else if x == u {
      assert a2[x] == p;
    } else if x == w {
      assert a2[x] == q && a1[w] == a[w];
    }
  }

  /** Erasing index i of s takes the entry s[i] out of its multiset. */
  lemma EraseAt(s: seq<int>, i: int)
    requires 0 <= i < |s|
    ensures multiset(s) == multiset(s[..i] + s[i + 1..]) + multiset{s[i]}
  {
    assert s == s[..i] + [s[i]] + s[i + 1..];
  }

  /** Taking a reverse pair of entries keeps the lists mirrored. */
  lemma TookMirrored(F: seq<Edge>, a: seq<seq<int>>, a2: seq<seq<int>>, u: int, w: int)
    requires Mirrored(F, a) && Took(a, a2, u, w) && Within(a, a2)
    ensures Mirrored(F, a2)
  {
    forall x | 0 <= x < |a2| ensures Even(multiset(a2[x])[x]) {
      EvenShift(multiset(a2[x])[x]);
    }
    forall x, y | 0 <= x < |a2| && y in a2[x] ensures 0 <= y < |a2| && Adjacent(F, x, y) {
      assert y in multiset(a2[x]);
      assert y in multiset(a[x]);
      assert y in a[x];
    }
  }

  /** Taking the pair (u, w) moves the odd lists from t and u to t and w. */
  lemma TookParity(a: seq<seq<int>>, a2: seq<seq<int>>, u: int, w: int, t: int)
    requires Took(a, a2, u, w) && OddAt(a, t, u)
    ensures OddAt(a2, t, w)
  {
    forall x | 0 <= x < |a2| ensures !Even(|a2[x]|) <==> t != w && (x == t || x == w) {
      EvenShift(|a2[x]|);
      EvenShift(|a2[x]| + 1);
    }
  }

  /** dfs(u), started on the lists adj0 with anchor s, between two rounds of
      its loop: cur are the lists now, out what the calls it made have
      pushed, and a the anchor of its next call. Before the first call the
      odd lists are those of s and u; after it they are all even, out is a
      walk from s to a vertex adjacent to u, and the next call's anchor is u. */
  ghost predicate Exploring(F: seq<Edge>, adj0: seq<seq<int>>, s: int, u: int, a: int,
                            cur: seq<seq<int>>, out: seq<int>)
  {
    && 0 <= u < |adj0| && 0 <= s < |adj0|
    && Mirrored(F, cur) && Shrinks(adj0, cur, u) && Seen(adj0, cur, out + [u])
    && OddAt(cur, a, u)
    && 2 * |out| + Entries(cur) == Entries(adj0)
    && (out == [] ==> a == s)
    && (out != [] ==> a == u && out[0] == s && Adjacent(F, out[|out| - 1], u) && Trail(F, out) && InRange(out, |adj0|))
  }

  /** What dfs(u), started on the lists adj0 with anchor s, leaves: u's list
      empty, every other list it took from empty too, all lists even, the
      pushed vertices out a walk in F from s to u covering every list it
      took from, one pushed vertex more than half the entries taken. */
  ghost predicate Explored(F: seq<Edge>, adj0: seq<seq<int>>, s: int, u: int, adj: seq<seq<int>>, out: seq<int>)
  {
    && 0 <= u < |adj0|
    && Mirrored(F, adj) && Shrinks(adj0, adj, u) && adj[u] == [] && Seen(adj0, adj, out)
    && OddAt(adj, s, s)
    && 2 * (|out| - 1) + Entries(adj) == Entries(adj0)
    && WalkBetween(F, out, |adj0|, s, u)
  }

  lemma ExploreStart(F: seq<Edge>, adj0: seq<seq<int>>, s: int, u: int)
    requires Mirrored(F, adj0) && 0 <= u < |adj0| && 0 <= s < |adj0| && OddAt(adj0, s, u)
    ensures Exploring(F, adj0, s, u, s, adj0, [])
  {
  }

  /** Lists that only lost entries keep doing so; a list other than u's
      that lost one since adj0 is empty after the round, because it was
      empty before, or is w's, or the call dfs(w) emptied it. */
  lemma ShrinksChain(adj0: seq<seq<int>>, cur: seq<seq<int>>, a2: seq<seq<int>>, a3: seq<seq<int>>, u: int, w: int)
    requires Shrinks(adj0, cur, u) && Touches(cur, a2, u, w) && Shrinks(a2, a3, w) && 0 <= w < |a3| && a3[w] == []
    ensures Shrinks(adj0, a3, u)
  {
    forall x | 0 <= x < |a3| && x != u && |a3[x]| < |adj0[x]| ensures a3[x] == [] {
      if x != w && |a3[x]| >= |a2[x]| {
        assert a2[x] == cur[x] == [];
        assert multiset(a3[x]) <= multiset(a2[x]) == multiset{};
        assert |multiset(a3[x])| == 0;
      }
    }
    forall x | 0 <= x < |a3| ensures multiset(a3[x]) <= multiset(adj0[x]) {
      assert multiset(a3[x]) <= multiset(a2[x]) <= multiset(cur[x]);
    }
  }

  /** Every list taken from in a round belongs to a vertex pushed by then. */
  lemma SeenChain(adj0: seq<seq<int>>, cur: seq<seq<int>>, a2: seq<seq<int>>, a3: seq<seq<int>>,
                  out: seq<int>, outw: seq<int>, u: int, w: int)
    requires Seen(adj0, cur, out + [u]) && Touches(cur, a2, u, w) && Within(a2, a3) && Seen(a2, a3, outw)
    requires w in outw
    ensures Seen(adj0, a3, out + outw + [u])
  {
    forall x | 0 <= x < |a3| && |a3[x]| < |adj0[x]| ensures x in out + outw + [u] {
      if |cur[x]| < |adj0[x]| {
        assert x in out + [u];
      } else if x != u && x != w {
        assert x in outw;
      }
    }
  }

  /** "All lists even" does not depend on the anchor. */
  lemma AllEven(a: seq<seq<int>>, s: int, t: int)
    requires OddAt(a, s, s)
    ensures OddAt(a, t, t)
  {
  }

  /** One round of dfs(u): taking the pair (u, w) from cur gives a2, and the
      call dfs(w) with anchor a turns a2 into a3 and pushes outw, so that
      dfs(u) has pushed out' = out + outw. */
  lemma ExploreStep(F: seq<Edge>, adj0: seq<seq<int>>, s: int, u: int, a: int, cur: seq<seq<int>>,
                    out: seq<int>, w: int, a2: seq<seq<int>>, a3: seq<seq<int>>, outw: seq<int>, out': seq<int>)
    requires Exploring(F, adj0, s, u, a, cur, out)
    requires 0 <= w < |cur| && Adjacent(F, u, w) && Touches(cur, a2, u, w) && Entries(a2) + 2 == Entries(cur)
    requires Explored(F, a2, a, w, a3, outw)
    requires out' == out + outw
    ensures Exploring(F, adj0, s, u, u, a3, out') && Entries(a3) < Entries(cur)
  {
    ShrinksChain(adj0, cur, a2, a3, u, w);
    assert outw[|outw| - 1] == w;
    SeenChain(adj0, cur, a2, a3, out, outw, u, w);
    AllEven(a3, a, u);
    AdjacentSymmetric(F, u, w);
    if out != [] {
      TrailConcat(F, out, outw);
    } else {
      assert out' == outw;
    }
    forall i | 0 <= i < |out'| ensures 0 <= out'[i] < |adj0| {
      if i >= |out| {
        assert out'[i] == outw[i - |out|];
      }
    }
    assert out'[0] == s && out'[|out'| - 1] == w;
  }

  /** dfs(u) leaves its loop with u's list empty and pushes u. */
  lemma ExploreEnd(F: seq<Edge>, adj0: seq<seq<int>>, s: int, u: int, a: int, cur: seq<seq<int>>, out: seq<int>)
    requires Exploring(F, adj0, s, u, a, cur, out) && cur[u] == []
    ensures Explored(F, adj0, s, u, cur, out + [u])
  {
    assert !Even(|cur[u]|) <==> a != u && (u == a || u == u);
    if out != [] {
      TrailConcat(F, out, [u]);
    }
  }

  /** A sub-multiset at least as large is the whole multiset. */
  lemma SubEqual(A: multiset<int>, B: multiset<int>)
    requires A <= B && |A| >= |B|
    ensures A == B
  {
    var D := B - A;
    assert B == A + D;
    assert |D| == 0;
  }

  lemma {:induction false} NoEntries(a: seq<seq<int>>)
    requires forall x :: 0 <= x < |a| ==> a[x] == []
    ensures Entries(a) == 0
    decreases |a|
  {
    if a != [] {
      NoEntries(a[..|a| - 1]);
    }
  }

  /** A list the walk never took from still has all its entries, so the
      reverse entry of each keeps its neighbour's list non-empty. */
  lemma Untaken(F: seq<Edge>, adj: seq<seq<int>>, adj': seq<seq<int>>, x: int, y: int)
    requires 0 <= x < |adj| && 0 <= y < |adj| && Shrinks(adj, adj', 0)
    requires Mirrored(F, adj') && adj'[0] == [] && adj'[x] != [] && y in adj[x]
    ensures adj'[y] != []
  {
    assert |multiset(adj'[x])| >= |multiset(adj[x])|;
    SubEqual(multiset(adj'[x]), multiset(adj[x]));
    assert y in multiset(adj'[x]);
    assert multiset(adj'[y])[x] >= 1;
  }

  /** buildEulerianGraph returns at most n lists for edges over 0 .. n-1. */
  lemma DoubledSize(F: seq<Edge>, n: nat, adj: seq<seq<int>>)
    requires n >= 1 && EdgesWithin(F, n) && DoubledOf(F, adj)
    ensures |adj| <= n
  {
    var m := MaxEnd(F);
    if m != 0 {
      var k :| 0 <= k < |F| && (F[k].u == m || F[k].v == m);
      assert F[k] in F;
    }
  }

  /** When F spans 0 .. n-1 and the walk has emptied the list of 0 (taking
      from the others only by emptying them), it has emptied every list. */
  lemma AllTaken(F: seq<Edge>, n: nat, adj: seq<seq<int>>, adj': seq<seq<int>>)
    requires n >= 1 && EdgesWithin(F, n) && Spans(F, n) && DoubledOf(F, adj)
    requires Mirrored(F, adj') && Shrinks(adj, adj', 0) && adj'[0] == []
    ensures forall x :: 0 <= x < |adj'| ==> adj'[x] == []
  {
    DoubledSize(F, n, adj);
    var S := set x | 0 <= x < n && (x >= |adj'| || adj'[x] == []);
    forall k | 0 <= k < |F| ensures F[k].u in S <==> F[k].v in S {
      var e := F[k];
      assert e in F;
      NeighboursHold(F, k);
      if e.u !in S {
        Untaken(F, adj, adj', e.u, e.v);
      }
      if e.v !in S {
        Untaken(F, adj, adj', e.v, e.u);
      }
    }
    ClosedSetIsEverything(F, n, S);
    forall x | 0 <= x < |adj'| ensures adj'[x] == [] {
      assert x in S;
    }
  }

  /** When F spans 0 .. n-1 and dfs(0) has emptied the list of 0, it has
      emptied every list, and the vertices it pushed include them all. */
  lemma TourCovers(F: seq<Edge>, n: nat, adj: seq<seq<int>>, adj': seq<seq<int>>, tour: seq<int>)
    requires n >= 1 && EdgesWithin(F, n) && Spans(F, n) && DoubledOf(F, adj)
    requires Mirrored(F, adj') && Shrinks(adj, adj', 0) && adj'[0] == [] && Seen(adj, adj', tour) && 0 in tour
    ensures Entries(adj') == 0 && Visits(tour, n)
  {
    AllTaken(F, n, adj, adj');
    NoEntries(adj');
    forall x | 0 <= x < n ensures x in tour {
      TourReaches(F, n, adj, adj', tour, x);
    }
  }

  /** Every vertex but 0 has a non-empty list in the lists of a spanning
      tree, so a walk that emptied them all pushed it. */
  lemma TourReaches(F: seq<Edge>, n: nat, adj: seq<seq<int>>, adj': seq<seq<int>>, tour: seq<int>, x: int)
    requires n >= 1 && Spans(F, n) && DoubledOf(F, adj) && Seen(adj, adj', tour) && 0 in tour
    requires (forall y :: 0 <= y < |adj'| ==> adj'[y] == []) && 0 <= x < n
    ensures x in tour
  {
    if x > 0 {
      SpanningTouches(F, n, x);
      var k :| 0 <= k < |F| && (F[k].u == x || F[k].v == x);
      NeighboursHold(F, k);
      assert adj[x] != [];
    }
  }

  /** A walk from s to v read backwards is a walk from v to s. */
  lemma WalkReversed(F: seq<Edge>, t: seq<int>, n: nat, s: int, v: int)
    requires WalkBetween(F, t, n, s, v)
    ensures WalkBetween(F, Reversed(t), n, v, s)
    ensures forall x :: x in Reversed(t) <==> x in t
  {
    TrailReversed(F, t);
    var r := Reversed(t);
    forall x ensures x in r <==> x in t {
      if x in t {
        var i :| 0 <= i < |t| && t[i] == x;
        assert r[|t| - 1 - i] == x;
      }
    }
  }

  /** The four push_backs buildEulerianGraph does for edge e append
      Pushed(e, x) to every list x and add four entries. */
  lemma PushFour(a: seq<seq<int>>, e: Edge, a4: seq<seq<int>>)
    requires 0 <= e.u < |a| && 0 <= e.v < |a|
    requires var a1 := a[e.u := a[e.u] + [e.v]];
             var a2 := a1[e.v := a1[e.v] + [e.u]];
             var a3 := a2[e.u := a2[e.u] + [e.v]];
             a4 == a3[e.v := a3[e.v] + [e.u]]
    ensures |a4| == |a| && forall x :: 0 <= x < |a| ==> a4[x] == a[x] + Pushed(e, x)
    ensures Entries(a4) == Entries(a) + 4
  {
    var a1 := a[e.u := a[e.u] + [e.v]];
    var a2 := a1[e.v := a1[e.v] + [e.u]];
    var a3 := a2[e.u := a2[e.u] + [e.v]];
    forall x | 0 <= x < |a| ensures a4[x] == a[x] + Pushed(e, x) {
      if x == e.u && x == e.v {
        assert a4[x] == a[x] + [x, x, x, x];
      } else if x == e.u {
        assert a4[x] == a[x] + [e.v, e.v];
      } else if x == e.v {
        assert a4[x] == a[x] + [e.u, e.u];
      }
    }
    DoubledTree.TotalUpdate(a, e.u, a[e.u] + [e.v]);
    DoubledTree.TotalUpdate(a1, e.v, a1[e.v] + [e.u]);
    DoubledTree.TotalUpdate(a2, e.u, a2[e.u] + [e.v]);
    DoubledTree.TotalUpdate(a3, e.v, a3[e.v] + [e.u]);
  }
}
