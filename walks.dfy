/** Walks over vertex indices, shared by both implementations: the length
    of a walk in a distance matrix, the shortcut that keeps each vertex's
    first occurrence, and reversal. */
module Walks {
  import opened MetricGraph
  import opened SpanningForest

  /** Every entry of s is a vertex 0 .. n-1. */
  predicate InRange(s: seq<int>, n: nat)
  {
    forall i :: 0 <= i < |s| ==> 0 <= s[i] < n
  }

  /** s visits every vertex 0 .. n-1. */
  predicate Visits(s: seq<int>, n: nat)
  {
    forall v :: 0 <= v < n ==> v in s
  }

  /** No vertex occurs twice in s. */
  predicate Distinct(s: seq<int>)
  {
    forall i, j :: 0 <= i < j < |s| ==> s[i] != s[j]
  }

  /** d[a][b]; every walk below is measured only on vertices of the matrix,
      where this is the matrix entry. */
  function Dist(d: seq<seq<real>>, a: int, b: int): real
  {
    if 0 <= a < |d| && 0 <= b < |d[a]| then d[a][b] else 0.0
  }

  /** The sum of d[path[i]][path[i + 1]] over the consecutive pairs of path. */
  function WalkLength(d: seq<seq<real>>, path: seq<int>): real
    decreases |path|
  {
    if |path| <= 1 then 0.0
    else Dist(d, path[0], path[1]) + WalkLength(d, path[1..])
  }

  /** Walking p and then q costs the two walks plus the step between them. */
  lemma {:induction false} WalkLengthConcat(d: seq<seq<real>>, p: seq<int>, q: seq<int>)
    requires p != [] && q != []
    ensures WalkLength(d, p + q) == WalkLength(d, p) + Dist(d, p[|p| - 1], q[0]) + WalkLength(d, q)
    decreases |p|
  {
    if |p| == 1 {
      assert (p + q)[1..] == q;
    } else {
      WalkLengthConcat(d, p[1..], q);
      assert (p + q)[1..] == p[1..] + q;
    }
  }

  /** One more step to x adds the distance from the walk's last vertex to x. */
  lemma WalkLengthSnoc(d: seq<seq<real>>, p: seq<int>, x: int)
    requires p != []
    ensures WalkLength(d, p + [x]) == WalkLength(d, p) + Dist(d, p[|p| - 1], x)
  {
    WalkLengthConcat(d, p, [x]);
  }

  /** Closing a walk by returning to its first vertex adds exactly the wrap
      edge: the cycle length of tsp.cpp (cycle ends with its front) and of
      calculateLength in TSP_Approximatif.cpp (explicit wrap edge) agree. */
  lemma ClosedWalkLength(d: seq<seq<real>>, p: seq<int>)
    requires p != []
    ensures WalkLength(d, p + [p[0]]) == WalkLength(d, p) + Dist(d, p[|p| - 1], p[0])
  {
    WalkLengthSnoc(d, p, p[0]);
  }

  /** s read back to front. */
  function Reversed(s: seq<int>): (r: seq<int>)
    ensures |r| == |s|
    ensures forall i :: 0 <= i < |s| ==> r[i] == s[|s| - 1 - i]
  {
    seq(|s|, i requires 0 <= i < |s| => s[|s| - 1 - i])
  }

  /** In a symmetric matrix a walk and its reversal have the same length. */
  lemma {:induction false} ReversedWalkLength(d: seq<seq<real>>, p: seq<int>)
    requires IsSquare(d, |d|)
    requires forall i, j :: 0 <= i < |d| && 0 <= j < |d| ==> d[i][j] == d[j][i]
    ensures WalkLength(d, Reversed(p)) == WalkLength(d, p)
    decreases |p|
  {
    if |p| > 1 {
      var x, p' := p[0], p[1..];
      ReversedWalkLength(d, p');
      assert Reversed(p) == Reversed(p') + [x];
      WalkLengthSnoc(d, Reversed(p'), x);
      assert Reversed(p')[|p'| - 1] == p'[0];
      assert Dist(d, p'[0], x) == Dist(d, x, p'[0]);
    }
  }

  /** Each vertex of s at its first occurrence, in order of first occurrence. */
  function FirstOccurrences(s: seq<int>): seq<int>
    decreases |s|
  {
    if s == [] then []
    else
      var r := FirstOccurrences(s[..|s| - 1]);
      if s[|s| - 1] in r then r else r + [s[|s| - 1]]
  }

  /** The shortcut keeps every vertex of s exactly once (no duplicates, same
      vertices) and starts where s starts. */
  lemma {:induction false} FirstOccurrencesShape(s: seq<int>)
    ensures Distinct(FirstOccurrences(s))
    ensures forall x :: x in FirstOccurrences(s) <==> x in s
    ensures s != [] ==> FirstOccurrences(s)[0] == s[0]
    ensures |FirstOccurrences(s)| <= |s|
    decreases |s|
  {
    if s != [] {
      var s' := s[..|s| - 1];
      FirstOccurrencesShape(s');
      assert s == s' + [s[|s| - 1]];
      if s' == [] {
        assert FirstOccurrences(s) == [s[0]];
      }
    }
  }

  /** The index of the first occurrence of x in s. */
  function FirstIndex(s: seq<int>, x: int): (k: nat)
    requires x in s
    ensures k < |s| && s[k] == x && x !in s[..k]
    decreases |s|
  {
    if s[0] == x then 0
    else
      assert x in s[1..];
      var k := FirstIndex(s[1..], x);
      assert s[..k + 1] == [s[0]] + s[1..][..k];
      k + 1
  }

  /** The shortcut lists vertices in the order of their first occurrences in s. */
  lemma {:induction false} FirstOccurrencesOrder(s: seq<int>, i: nat, j: nat)
    requires i < j < |FirstOccurrences(s)|
    ensures FirstOccurrences(s)[i] in s && FirstOccurrences(s)[j] in s
    ensures FirstIndex(s, FirstOccurrences(s)[i]) < FirstIndex(s, FirstOccurrences(s)[j])
    decreases |s|
  {
    var s', x := s[..|s| - 1], s[|s| - 1];
    var r, r' := FirstOccurrences(s), FirstOccurrences(s');
    FirstOccurrencesShape(s);
    FirstOccurrencesShape(s');
    assert s == s' + [x];
    forall y | y in s' ensures FirstIndex(s, y) == FirstIndex(s', y) {
      FirstIndexPrefix(s', [x], y);
    }
    if j < |r'| {
      assert r[i] == r'[i] && r[j] == r'[j];
      FirstOccurrencesOrder(s', i, j);
    } else {
      assert x !in s' && r[j] == x;
      assert r[i] in s';
    }
  }

  /** Appending to s does not move the first occurrence of a vertex of s. */
  lemma {:induction false} FirstIndexPrefix(s: seq<int>, t: seq<int>, y: int)
    requires y in s
    ensures y in s + t && FirstIndex(s + t, y) == FirstIndex(s, y)
    decreases |s|
  {
    if s[0] != y {
      assert (s + t)[1..] == s[1..] + t;
      FirstIndexPrefix(s[1..], t, y);
    }
  }

  /** A duplicate-free sequence has as many distinct vertices as entries. */
  lemma {:induction false} DistinctCard(s: seq<int>)
    requires Distinct(s)
    ensures |set x | x in s| == |s|
    decreases |s|
  {
    if s != [] {
      var s' := s[..|s| - 1];
      DistinctCard(s');
      assert s == s' + [s[|s| - 1]];
      assert (set x | x in s) == (set x | x in s') + {s[|s| - 1]};
    }
  }

  /** A walk over 0 .. n-1 that visits every one of them shortcuts to a
      permutation of 0 .. n-1. */
  lemma FirstOccurrencesPermutation(s: seq<int>, n: nat)
    requires InRange(s, n) && Visits(s, n)
    ensures |FirstOccurrences(s)| == n && Distinct(FirstOccurrences(s))
    ensures forall v :: v in FirstOccurrences(s) <==> 0 <= v < n
  {
    var r := FirstOccurrences(s);
    FirstOccurrencesShape(s);
    DistinctCard(r);
    assert (set x | x in r) == Vertices(n);
  }

  /** c closes a tour through every vertex 0 .. n-1 exactly once: its first n
      entries are a permutation of them, and it ends where it began. */
  ghost predicate HamiltonianCycle(c: seq<int>, n: nat)
  {
    && |c| == n + 1 && n >= 1
    && Distinct(c[..n]) && (forall v :: v in c[..n] <==> 0 <= v < n)
    && c[n] == c[0]
  }

  /** Shortcutting a walk over 0 .. n-1 and closing it gives a walk over
      0 .. n-1 that starts and ends at the walk's start; when the walk visits
      every vertex, a Hamiltonian cycle. */
  lemma ShortcutCycle(tour: seq<int>, n: nat)
    requires tour != [] && InRange(tour, n)
    ensures var c := FirstOccurrences(tour) + [tour[0]];
      && InRange(c, n) && c[0] == tour[0]
      && (Visits(tour, n) ==> HamiltonianCycle(c, n))
  {
    var c := FirstOccurrences(tour) + [tour[0]];
    FirstOccurrencesShape(tour);
    forall i | 0 <= i < |c| ensures 0 <= c[i] < n {
      if i < |c| - 1 {
        assert c[i] in FirstOccurrences(tour);
      }
      var k :| 0 <= k < |tour| && tour[k] == c[i];
    }
    if Visits(tour, n) {
      FirstOccurrencesPermutation(tour, n);
      assert c[..n] == FirstOccurrences(tour);
    }
  }
}
