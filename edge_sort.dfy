/** Sorting an edge list by weight, the step both Kruskal implementations
    delegate to std::sort. std::sort is not stable, so nothing proved about
    Kruskal below depends on how edges of equal weight are ordered; this
    model fixes one order: the sort below is stable, so edges of equal
    weight keep their input order. */
module EdgeSort {
  import opened MetricGraph

  /** The weights never decrease along s. */
  predicate SortedByWeight(s: seq<Edge>)
  {
    forall i, j :: 0 <= i < j < |s| ==> s[i].w <= s[j].w
  }

  /** Inserts e into the sorted list s before the first heavier edge,
      after every edge of the same weight. */
  function InsertByWeight(s: seq<Edge>, e: Edge): (r: seq<Edge>)
    requires SortedByWeight(s)
    ensures SortedByWeight(r)
    ensures multiset(r) == multiset(s) + multiset{e}
    decreases |s|
  {
    if s == [] then [e]
    else if e.w < s[0].w then [e] + s
    else
      var rest := InsertByWeight(s[1..], e);
      assert s == [s[0]] + s[1..];
      HeadIsLightest(s, e, rest);
      [s[0]] + rest
  }

  /** The head of a sorted list weighs no more than any edge of the rest of
      the list with an edge at least as heavy inserted. */
  lemma HeadIsLightest(s: seq<Edge>, e: Edge, rest: seq<Edge>)
    requires SortedByWeight(s) && s != [] && s[0].w <= e.w
    requires multiset(rest) == multiset(s[1..]) + multiset{e}
    ensures forall k :: 0 <= k < |rest| ==> s[0].w <= rest[k].w
  {
    forall k | 0 <= k < |rest| ensures s[0].w <= rest[k].w {
      assert rest[k] in multiset(rest);
      if rest[k] != e {
        assert rest[k] in multiset(s[1..]);
      }
    }
  }

  /** es ordered by non-decreasing weight: a sorted permutation of es. */
  function SortByWeight(es: seq<Edge>): (s: seq<Edge>)
    ensures SortedByWeight(s)
    ensures multiset(s) == multiset(es)
    decreases |es|
  {
    if es == [] then []
    else
      assert es == es[..|es| - 1] + [es[|es| - 1]];
      InsertByWeight(SortByWeight(es[..|es| - 1]), es[|es| - 1])
  }

  /** The edges of s that weigh w, in their order in s. */
  function OfWeight(s: seq<Edge>, w: real): (r: seq<Edge>)
    ensures forall k :: 0 <= k < |r| ==> r[k].w == w && r[k] in s
    decreases |s|
  {
    if s == [] then []
    else (if s[0].w == w then [s[0]] else []) + OfWeight(s[1..], w)
  }

  lemma {:induction false} OfWeightConcat(a: seq<Edge>, b: seq<Edge>, w: real)
    ensures OfWeight(a + b, w) == OfWeight(a, w) + OfWeight(b, w)
    decreases |a|
  {
    if a == [] {
      assert a + b == b;
    } else {
      assert (a + b)[0] == a[0] && (a + b)[1..] == a[1..] + b;
      OfWeightConcat(a[1..], b, w);
    }
  }

  /** A list whose edges all weigh more than w has none of weight w. */
  lemma {:induction false} OfWeightNone(s: seq<Edge>, w: real)
    requires forall k :: 0 <= k < |s| ==> w < s[k].w
    ensures OfWeight(s, w) == []
    decreases |s|
  {
    if s != [] {
      OfWeightNone(s[1..], w);
    }
  }

  lemma OfWeightSingle(e: Edge, w: real)
    ensures OfWeight([e], w) == if e.w == w then [e] else []
  {
    assert [e][1..] == [];
  }

  /** An edge lighter than the whole sorted list goes in front, and no
      edge of its weight is in the list. */
  lemma InsertLighterKeepsOrder(s: seq<Edge>, e: Edge, w: real)
    requires SortedByWeight(s) && s != [] && e.w < s[0].w
    ensures OfWeight(InsertByWeight(s, e), w) == OfWeight(s, w) + OfWeight([e], w)
  {
    OfWeightSingle(e, w);
    assert InsertByWeight(s, e) == [e] + s;
    OfWeightConcat([e], s, w);
    if e.w == w {
      assert forall k :: 0 <= k < |s| ==> s[0].w <= s[k].w;
      OfWeightNone(s, w);
    }
  }

  /** Putting the same edge in front of both sides keeps the split of the
      edges of weight w. */
  lemma PrependKeepsOrder(h: Edge, tail: seq<Edge>, rest: seq<Edge>, e: Edge, w: real)
    requires OfWeight(rest, w) == OfWeight(tail, w) + OfWeight([e], w)
    ensures OfWeight([h] + rest, w) == OfWeight([h] + tail, w) + OfWeight([e], w)
  {
    OfWeightConcat([h], rest, w);
    OfWeightConcat([h], tail, w);
  }

  /** Inserting e puts it after every edge of its weight already in s. */
  lemma {:induction false} InsertKeepsOrder(s: seq<Edge>, e: Edge, w: real)
    requires SortedByWeight(s)
    ensures OfWeight(InsertByWeight(s, e), w) == OfWeight(s, w) + OfWeight([e], w)
    decreases |s|
  {
    if s == [] {
      OfWeightSingle(e, w);
    } else if e.w < s[0].w {
      InsertLighterKeepsOrder(s, e, w);
    } else {
      var rest := InsertByWeight(s[1..], e);
      InsertKeepsOrder(s[1..], e, w);
      PrependKeepsOrder(s[0], s[1..], rest, e, w);
      assert s == [s[0]] + s[1..];
      assert InsertByWeight(s, e) == [s[0]] + rest;
    }
  }

  /** The sort is stable: for every weight, the edges of that weight come
      out in the order they went in. */
  lemma {:induction false} SortIsStable(es: seq<Edge>, w: real)
    ensures OfWeight(SortByWeight(es), w) == OfWeight(es, w)
    decreases |es|
  {
    if es != [] {
      var init, last := es[..|es| - 1], es[|es| - 1];
      SortIsStable(init, w);
      InsertKeepsOrder(SortByWeight(init), last, w);
      assert es == init + [last];
      OfWeightConcat(init, [last], w);
    }
  }

  /** Sorting keeps exactly the edges of the list: an edge is in the sorted
      list iff it is in the original. */
  lemma SortKeepsEdges(es: seq<Edge>)
    ensures |SortByWeight(es)| == |es|
    ensures forall e :: e in SortByWeight(es) <==> e in es
  {
    var s := SortByWeight(es);
    assert |multiset(s)| == |multiset(es)|;
    forall e ensures e in s <==> e in es {
      assert e in s <==> e in multiset(s);
      assert e in es <==> e in multiset(es);
    }
  }
}
