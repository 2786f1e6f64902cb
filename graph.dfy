/** The complete metric graph of graph.h / graph.cpp: an n-by-n distance
    matrix and the list of the n(n-1)/2 edges (u, v, w) with u < v. */
module MetricGraph {

  /** A weighted undirected edge between vertex indices u and v. */
  datatype Edge = Edge(u: int, v: int, w: real)

  /** A point of the plane; the coordinates are whatever the caller supplies. */
  datatype Point = Point(x: real, y: real)

  /** d is an n-by-n matrix. */
  ghost predicate IsSquare(d: seq<seq<real>>, n: nat)
  {
    |d| == n && forall i :: 0 <= i < n ==> |d[i]| == n
  }

  /** The pairs (i, k) with i < k < j, in increasing k. */
  function Row(i: nat, j: nat): (row: seq<(int, int)>)
    ensures |row| == if i < j then j - i - 1 else 0
  {
    seq(if i < j then j - i - 1 else 0, k => (i, i + 1 + k))
  }

  /** The upper-triangle pairs of rows 0 .. i-1 of an n-vertex graph, row by row. */
  function PairsBefore(i: nat, n: nat): seq<(int, int)>
  {
    if i == 0 then [] else PairsBefore(i - 1, n) + Row(i - 1, n)
  }

  /** Every pair i < j < n, in row-major order. */
  function AllPairs(n: nat): seq<(int, int)>
  {
    PairsBefore(n, n)
  }

  /** The endpoint pairs of an edge list. */
  function Ends(es: seq<Edge>): (ps: seq<(int, int)>)
    ensures |ps| == |es|
    ensures forall k :: 0 <= k < |es| ==> ps[k] == (es[k].u, es[k].v)
  {
    seq(|es|, k requires 0 <= k < |es| => (es[k].u, es[k].v))
  }

  /** Row-major (lexicographic) order on pairs. */
  predicate PairBefore(p: (int, int), q: (int, int))
  {
    p.0 < q.0 || (p.0 == q.0 && p.1 < q.1)
  }

  lemma {:induction false} PairsBeforeShape(i: nat, n: nat)
    requires i <= n
    ensures 2 * |PairsBefore(i, n)| == i * (2 * n - i - 1)
    ensures forall k :: 0 <= k < |PairsBefore(i, n)| ==>
              0 <= PairsBefore(i, n)[k].0 < i && PairsBefore(i, n)[k].0 < PairsBefore(i, n)[k].1 < n
    ensures forall k1, k2 :: 0 <= k1 < k2 < |PairsBefore(i, n)| ==>
              PairBefore(PairsBefore(i, n)[k1], PairsBefore(i, n)[k2])
    ensures forall a, b :: 0 <= a < i && a < b < n ==> (a, b) in PairsBefore(i, n)
  {
    if i > 0 {
      PairsBeforeShape(i - 1, n);
      var prev, row := PairsBefore(i - 1, n), Row(i - 1, n);
      assert PairsBefore(i, n) == prev + row;
      assert 2 * |prev| == (i - 1) * (2 * n - i);
      assert |row| == n - i;
      assert (i - 1) * (2 * n - i) + 2 * (n - i) == i * (2 * n - i - 1);
      forall a, b | 0 <= a < i && a < b < n
        ensures (a, b) in PairsBefore(i, n)
      {
        if a < i - 1 {
          assert (a, b) in prev;
        } else {
          assert row[b - i] == (a, b);
        }
      }
    }
  }

  /** The full pair list has n(n-1)/2 entries, lists exactly the pairs
      0 <= a < b < n, and lists them in strictly increasing row-major order
      (so each pair once). */
  lemma AllPairsShape(n: nat)
    ensures 2 * |AllPairs(n)| == n * (n - 1)
    ensures forall k :: 0 <= k < |AllPairs(n)| ==> 0 <= AllPairs(n)[k].0 < AllPairs(n)[k].1 < n
    ensures forall a, b :: 0 <= a < b < n <==> (a, b) in AllPairs(n)
    ensures forall k1, k2 :: 0 <= k1 < k2 < |AllPairs(n)| ==> PairBefore(AllPairs(n)[k1], AllPairs(n)[k2])
  {
    PairsBeforeShape(n, n);
  }

  /** The upper-triangle cells already written after row i up to column j. */
  predicate Written(i: int, j: int, a: int, b: int)
  {
    a < b && (a < i || (a == i && b < j))
  }

  /** The matrix generateRandomMetric's loops have made of d0 when they are
      at row i, column j: each written pair a < b holds the metric of its
      points on both sides of the diagonal, every other cell its old value. */
  ghost function Filled(d0: seq<seq<real>>, pts: seq<Point>, metric: (Point, Point) -> real,
                        n: nat, i: int, j: int): (d: seq<seq<real>>)
    requires IsSquare(d0, n) && |pts| == n
    ensures IsSquare(d, n)
  {
    seq(n, a requires 0 <= a < n =>
      seq(n, b requires 0 <= b < n =>
        if Written(i, j, a, b) then metric(pts[a], pts[b])
        else if Written(i, j, b, a) then metric(pts[b], pts[a])
        else d0[a][b]))
  }

  /** The edges for the pairs ps, weighted by the metric of their points. */
  ghost function Weigh(ps: seq<(int, int)>, pts: seq<Point>, metric: (Point, Point) -> real): (es: seq<Edge>)
    requires forall k :: 0 <= k < |ps| ==> 0 <= ps[k].0 < |pts| && 0 <= ps[k].1 < |pts|
    ensures |es| == |ps|
    ensures forall k :: 0 <= k < |ps| ==> es[k] == Edge(ps[k].0, ps[k].1, metric(pts[ps[k].0], pts[ps[k].1]))
  {
    seq(|ps|, k requires 0 <= k < |ps| => Edge(ps[k].0, ps[k].1, metric(pts[ps[k].0], pts[ps[k].1])))
  }

  /** The pairs listed once the loops are at row i, column j. */
  ghost function ListedPairs(n: nat, i: nat, j: nat): (ps: seq<(int, int)>)
    requires i <= n && i < j && (j <= n || j == i + 1)
    ensures forall k :: 0 <= k < |ps| ==> 0 <= ps[k].0 < ps[k].1 < n
  {
    PairsBeforeShape(i, n);
    PairsBefore(i, n) + Row(i, j)
  }

  /** Before the loops, no cell has been written. */
  lemma FillStart(d0: seq<seq<real>>, pts: seq<Point>, metric: (Point, Point) -> real, n: nat)
    requires IsSquare(d0, n) && |pts| == n
    ensures Filled(d0, pts, metric, n, 0, 1) == d0
  {
    var d := Filled(d0, pts, metric, n, 0, 1);
    forall a | 0 <= a < n ensures d[a] == d0[a] {
      forall b | 0 <= b < n ensures d[a][b] == d0[a][b] {
        assert !Written(0, 1, a, b) && !Written(0, 1, b, a);
      }
    }
  }

  /** Writing pair (i, j) on both sides of the diagonal moves the matrix one column on. */
  lemma FillCell(d0: seq<seq<real>>, pts: seq<Point>, metric: (Point, Point) -> real, n: nat, i: nat, j: nat)
    requires i < j < n && IsSquare(d0, n) && |pts| == n
    ensures var d, w := Filled(d0, pts, metric, n, i, j), metric(pts[i], pts[j]);
            var d1 := d[i := d[i][j := w]];
            d1[j := d1[j][i := w]] == Filled(d0, pts, metric, n, i, j + 1)
  {
    var d, w := Filled(d0, pts, metric, n, i, j), metric(pts[i], pts[j]);
    var d1 := d[i := d[i][j := w]];
    var d2 := d1[j := d1[j][i := w]];
    var e := Filled(d0, pts, metric, n, i, j + 1);
    forall a | 0 <= a < n ensures d2[a] == e[a] {
      assert |d2[a]| == |e[a]| == n;
      forall b | 0 <= b < n ensures d2[a][b] == e[a][b] {
        if a == i && b == j {
          assert Written(i, j + 1, a, b);
        } else if a == j && b == i {
          assert Written(i, j + 1, b, a) && !Written(i, j + 1, a, b);
        } else {
          assert d2[a][b] == d[a][b];
          assert Written(i, j + 1, a, b) == Written(i, j, a, b);
          assert Written(i, j + 1, b, a) == Written(i, j, b, a);
        }
      }
    }
  }

  /** The matrix after the last column of row i is the matrix before row i + 1. */
  lemma FillNextRow(d0: seq<seq<real>>, pts: seq<Point>, metric: (Point, Point) -> real, n: nat, i: nat)
    requires i < n && IsSquare(d0, n) && |pts| == n
    ensures Filled(d0, pts, metric, n, i, n) == Filled(d0, pts, metric, n, i + 1, i + 2)
  {
    var d, e := Filled(d0, pts, metric, n, i, n), Filled(d0, pts, metric, n, i + 1, i + 2);
    forall a | 0 <= a < n ensures d[a] == e[a] {
      forall b | 0 <= b < n ensures d[a][b] == e[a][b] {
        assert Written(i, n, a, b) == Written(i + 1, i + 2, a, b);
        assert Written(i, n, b, a) == Written(i + 1, i + 2, b, a);
      }
    }
  }

  /** Appending edge (i, j) moves the edge list one column on. */
  lemma ListCell(pts: seq<Point>, metric: (Point, Point) -> real, n: nat, i: nat, j: nat)
    requires i < j < n && |pts| == n
    ensures Weigh(ListedPairs(n, i, j + 1), pts, metric)
            == Weigh(ListedPairs(n, i, j), pts, metric) + [Edge(i, j, metric(pts[i], pts[j]))]
  {
    NextPair(n, i, j);
  }

  /** Column j of row i is the next pair listed. */
  lemma NextPair(n: nat, i: nat, j: nat)
    requires i < j < n
    ensures ListedPairs(n, i, j + 1) == ListedPairs(n, i, j) + [(i, j)]
  {
    assert Row(i, j + 1) == Row(i, j) + [(i, j)];
  }

  /** The list after the last column of row i is the list before row i + 1. */
  lemma ListNextRow(n: nat, i: nat)
    requires i < n
    ensures ListedPairs(n, i, n) == ListedPairs(n, i + 1, i + 2)
  {
    assert Row(i + 1, i + 2) == [];
  }

  /** After the last row, the matrix is symmetric, holds the metric on both
      sides of the diagonal and its old diagonal, and the list is the full
      row-major pair list weighted by that matrix. */
  lemma AllFilled(d0: seq<seq<real>>, pts: seq<Point>, metric: (Point, Point) -> real, n: nat)
    requires IsSquare(d0, n) && |pts| == n
    ensures var d, es := Filled(d0, pts, metric, n, n, n + 1), Weigh(ListedPairs(n, n, n + 1), pts, metric);
      && (forall a, b :: 0 <= a < b < n ==>
            d[a][b] == metric(pts[a], pts[b]) && d[b][a] == metric(pts[a], pts[b]))
      && (forall a :: 0 <= a < n ==> d[a][a] == d0[a][a])
      && (forall a, b :: 0 <= a < n && 0 <= b < n ==> d[a][b] == d[b][a])
      && Ends(es) == AllPairs(n)
      && (forall e :: e in es ==> 0 <= e.u < e.v < n && e.w == d[e.u][e.v])
  {
    var d, es := Filled(d0, pts, metric, n, n, n + 1), Weigh(ListedPairs(n, n, n + 1), pts, metric);
    assert Row(n, n + 1) == [];
    assert ListedPairs(n, n, n + 1) == AllPairs(n);
    forall a | 0 <= a < n ensures d[a][a] == d0[a][a] {
      assert !Written(n, n + 1, a, a);
    }
    forall a, b | 0 <= a < n && 0 <= b < n ensures d[a][b] == d[b][a] {
      if a < b {
        assert Written(n, n + 1, a, b) && !Written(n, n + 1, b, a);
        assert d[a][b] == metric(pts[a], pts[b]) == d[b][a];
      } else if b < a {
        assert Written(n, n + 1, b, a) && !Written(n, n + 1, a, b);
        assert d[a][b] == metric(pts[b], pts[a]) == d[b][a];
      }
    }
    forall e | e in es ensures 0 <= e.u < e.v < n && e.w == d[e.u][e.v] {
      var k :| 0 <= k < |es| && es[k] == e;
      assert Written(n, n + 1, e.u, e.v);
    }
  }

  /** The inner loop of generateRandomMetric for row i: columns i+1 .. n-1. */
  method FillRow(d0: seq<seq<real>>, pts: seq<Point>, metric: (Point, Point) -> real, n: nat, i: nat,
                 d: seq<seq<real>>, es: seq<Edge>)
    returns (d': seq<seq<real>>, es': seq<Edge>)
    requires i < n && IsSquare(d0, n) && |pts| == n
    requires d == Filled(d0, pts, metric, n, i, i + 1)
    requires es == Weigh(ListedPairs(n, i, i + 1), pts, metric)
    ensures d' == Filled(d0, pts, metric, n, i, n)
    ensures es' == Weigh(ListedPairs(n, i, n), pts, metric)
  {
    d', es' := d, es;
    var j := i + 1;
    while j < n
      invariant i + 1 <= j <= n
      invariant d' == Filled(d0, pts, metric, n, i, j)
      invariant es' == Weigh(ListedPairs(n, i, j), pts, metric)
    {
      var w := metric(pts[i], pts[j]);
      FillCell(d0, pts, metric, n, i, j);
      ListCell(pts, metric, n, i, j);
      d' := d'[i := d'[i][j := w]];
      d' := d'[j := d'[j][i := w]];
      es' := es' + [Edge(i, j, w)];
      j := j + 1;
    }
  }

  /** The two nested loops of generateRandomMetric, on a copy of the matrix
      and a fresh list: row by row, each pair i < j is written on both sides
      of the diagonal and appended as an edge. */
  method FillLoops(d0: seq<seq<real>>, pts: seq<Point>, metric: (Point, Point) -> real, n: nat)
    returns (d: seq<seq<real>>, es: seq<Edge>)
    requires IsSquare(d0, n) && |pts| == n
    ensures d == Filled(d0, pts, metric, n, n, n + 1)
    ensures es == Weigh(ListedPairs(n, n, n + 1), pts, metric)
  {
    d, es := d0, [];
    var i := 0;
    FillStart(d0, pts, metric, n);
    while i < n
      invariant 0 <= i <= n
      invariant d == Filled(d0, pts, metric, n, i, i + 1)
      invariant es == Weigh(ListedPairs(n, i, i + 1), pts, metric)
    {
      d, es := FillRow(d0, pts, metric, n, i, d, es);
      FillNextRow(d0, pts, metric, n, i);
      ListNextRow(n, i);
      i := i + 1;
    }
  }

  class Graph {
    const n: nat
    var dist: seq<seq<real>>
    var edgeList: seq<Edge>

    /** The matrix is n-by-n, symmetric with a zero diagonal, and every edge
        has 0 <= u < v < n and the weight the matrix gives. */
    ghost predicate Valid()
      reads this
    {
      && IsSquare(dist, n)
      && (forall i, j :: 0 <= i < n && 0 <= j < n ==> dist[i][j] == dist[j][i])
      && (forall i :: 0 <= i < n ==> dist[i][i] == 0.0)
      && (forall e :: e in edgeList ==> 0 <= e.u < e.v < n && e.w == dist[e.u][e.v])
    }

    /** The edge list holds one edge per pair u < v, in row-major order. */
    ghost predicate Generated()
      reads this
    {
      Ends(edgeList) == AllPairs(n)
    }

    /** Graph(n): an n-by-n matrix of zeros and no edges yet. */
    constructor (n: nat)
      ensures Valid() && this.n == n && edgeList == []
      ensures forall i, j :: 0 <= i < n && 0 <= j < n ==> dist[i][j] == 0.0
    {
      this.n := n;
      dist := seq(n, _ => seq(n, _ => 0.0));
      edgeList := [];
    }

    /** generateRandomMetric with the random points supplied by the caller
        and the Euclidean distance abstracted as `metric`. The edge list is
        cleared first, then each pair i < j gets d = metric(pts[i], pts[j])
        written on both sides of the diagonal and appended as an edge. */
    method GenerateMetric(pts: seq<Point>, metric: (Point, Point) -> real)
      requires Valid() && |pts| == n
      modifies this
      ensures Valid() && Generated()
      ensures forall i, j :: 0 <= i < j < n ==>
                dist[i][j] == metric(pts[i], pts[j]) && dist[j][i] == metric(pts[i], pts[j])
      ensures forall i :: 0 <= i < n ==> dist[i][i] == old(dist[i][i])
    {
      ghost var d0 := dist;
      var d, es := FillLoops(dist, pts, metric, n);
      AllFilled(d0, pts, metric, n);
      dist, edgeList := d, es;
    }
  }
}
