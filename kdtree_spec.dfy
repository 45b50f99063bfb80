/**
 * The nearest-neighbour search as a function of the node array, and what is
 * proved about it.
 */
module KdTreeSpec {
  import opened Wrappers
  import opened Points
  import opened KdTreeShape

  /** The search state the source keeps in `mBestNode`, `mBestDist` and `mVisited`. */
  datatype SearchState = SearchState(best: Option<nat>, bestDist: int, visited: nat)

  /** The recorded best node, if any, is a stored node and the best distance is its distance. */
  predicate Consistent(s: seq<Node>, q: Point, st: SearchState) {
    st.best.Some? ==> st.best.value < |s| && st.bestDist == s[st.best.value].Distance(q)
  }

  /**
   * Visiting node n: the visit is counted, and n becomes the best node when
   * there is none yet or it is strictly closer than the best one.
   */
  function Visit(s: seq<Node>, n: nat, q: Point, st: SearchState): (st1: SearchState)
    requires n < |s|
    ensures st1.visited == st.visited + 1 && st1.best.Some?
    ensures st1.bestDist <= s[n].Distance(q)
    ensures st.best.Some? ==> st1.bestDist <= st.bestDist
    ensures st1.bestDist < s[n].Distance(q) ==> st1.best == st.best && st1.bestDist == st.bestDist
    ensures (st.best.Some? ==> st.bestDist >= 0) ==> st1.bestDist >= 0
    ensures Consistent(s, q, st) ==> Consistent(s, q, st1)
  {
    var distance := s[n].Distance(q);
    if st.best.None? || distance < st.bestDist then SearchState(Some(n), distance, st.visited + 1)
    else st.(visited := st.visited + 1)
  }

  /**
   * The recursive nearest-neighbour search from `r`, the root of the tree built
   * over [lo, hi) on `axis`. Once the best squared distance is 0 (an exact
   * match) the search returns, and the caller's pruning test then stops the
   * rest of the search. The best distance only decreases, a recorded best node
   * is a stored node at its true distance, and between one and hi - lo nodes
   * of a non-empty range are visited.
   */
  function Search(s: seq<Node>, lo: int, hi: int, axis: nat, r: Option<nat>, q: Point, st: SearchState): (out: SearchState)
    requires 0 <= lo && hi <= |s| && axis < D
    requires Built(s, lo, hi, axis, r)
    requires st.best.Some? ==> st.bestDist >= 0
    ensures st.best.Some? ==> out.best.Some? && out.bestDist <= st.bestDist
    ensures lo < hi ==> out.best.Some?
    ensures Consistent(s, q, st) ==> Consistent(s, q, out)
    ensures lo < hi ==> st.visited + 1 <= out.visited <= st.visited + (hi - lo)
    ensures hi <= lo ==> out == st
    decreases hi - lo, 2
  {
    match r
    case None => st
    case Some(n) =>
      var st1 := Visit(s, n, q, st);
      if st1.bestDist == 0 then st1
      else SearchChildren(s, lo, hi, axis, q, st1)
  }

  /**
   * After visiting the middle node of [lo, hi): search the half on the query's
   * side first (the left half when the node lies above the query on `axis`),
   * then the other half only when dx * dx is below the best squared distance.
   */
  function SearchChildren(s: seq<Node>, lo: int, hi: int, axis: nat, q: Point, st1: SearchState): (out: SearchState)
    requires 0 <= lo < hi <= |s| && axis < D
    requires Built(s, lo, hi, axis, Some(Mid(lo, hi)))
    requires st1.best.Some? && st1.bestDist > 0
    ensures out.best.Some? && out.bestDist <= st1.bestDist
    ensures Consistent(s, q, st1) ==> Consistent(s, q, out)
    ensures st1.visited <= out.visited <= st1.visited + (hi - lo - 1)
    decreases hi - lo, 1
  {
    var dx := s[Mid(lo, hi)].Get(axis) - q.Get(axis);
    var st2 := SearchHalf(s, lo, hi, axis, q, st1, dx > 0);
    if Sq(dx) >= st2.bestDist then st2
    else SearchHalf(s, lo, hi, axis, q, st2, dx <= 0)
  }

  /** The bounds of the left half [lo, Mid) or the right half [Mid + 1, hi) of [lo, hi). */
  function HalfLo(lo: int, hi: int, left: bool): int {
    if left then lo else Mid(lo, hi) + 1
  }

  function HalfHi(lo: int, hi: int, left: bool): int {
    if left then Mid(lo, hi) else hi
  }

  /** The link from the middle node of [lo, hi) to the root of one half. */
  function HalfRoot(s: seq<Node>, lo: int, hi: int, left: bool): Option<nat>
    requires 0 <= lo < hi <= |s|
  {
    if left then s[Mid(lo, hi)].left else s[Mid(lo, hi)].right
  }

  /** Each half of a built range is a smaller built range on the next axis. */
  lemma HalfBuilt(s: seq<Node>, lo: int, hi: int, axis: nat, left: bool)
    requires 0 <= lo < hi <= |s| && axis < D
    requires Built(s, lo, hi, axis, Some(Mid(lo, hi)))
    ensures 0 <= HalfLo(lo, hi, left) && HalfHi(lo, hi, left) <= |s|
    ensures HalfHi(lo, hi, left) - HalfLo(lo, hi, left) < hi - lo
    ensures Built(s, HalfLo(lo, hi, left), HalfHi(lo, hi, left), NextAxis(axis), HalfRoot(s, lo, hi, left))
  {
  }

  /** The search may start from st at r, the root of the tree built over [lo, hi) on `axis`. */
  ghost predicate Searchable(s: seq<Node>, lo: int, hi: int, axis: nat, r: Option<nat>, st: SearchState) {
    && 0 <= lo && hi <= |s| && axis < D
    && Built(s, lo, hi, axis, r)
    && (st.best.Some? ==> st.bestDist >= 0)
  }

  /** The search may continue from st into either half of a built range. */
  lemma HalfSearchable(s: seq<Node>, lo: int, hi: int, axis: nat, st: SearchState, left: bool)
    requires 0 <= lo < hi <= |s| && axis < D
    requires Built(s, lo, hi, axis, Some(Mid(lo, hi)))
    requires st.best.Some? ==> st.bestDist >= 0
    ensures HalfHi(lo, hi, left) - HalfLo(lo, hi, left) < hi - lo
    ensures Searchable(s, HalfLo(lo, hi, left), HalfHi(lo, hi, left), NextAxis(axis), HalfRoot(s, lo, hi, left), st)
  {
    HalfBuilt(s, lo, hi, axis, left);
  }

  /** Searching the left half [lo, Mid) or the right half [Mid + 1, hi) of a built range. */
  function SearchHalf(s: seq<Node>, lo: int, hi: int, axis: nat, q: Point, st: SearchState, left: bool): (out: SearchState)
    requires 0 <= lo < hi <= |s| && axis < D
    requires Built(s, lo, hi, axis, Some(Mid(lo, hi)))
    requires st.best.Some? && st.bestDist > 0
    ensures out.best.Some? && out.bestDist <= st.bestDist
    ensures Consistent(s, q, st) ==> Consistent(s, q, out)
    ensures st.visited <= out.visited <= st.visited + (HalfHi(lo, hi, left) - HalfLo(lo, hi, left))
    decreases hi - lo, 0
  {
    HalfBuilt(s, lo, hi, axis, left);
    Search(s, HalfLo(lo, hi, left), HalfHi(lo, hi, left), NextAxis(axis), HalfRoot(s, lo, hi, left), q, st)
  }

  /** A search that meets an exact match at the root of its range ends after that visit. */
  lemma SearchStopsAtMatch(s: seq<Node>, lo: int, hi: int, axis: nat, q: Point, st: SearchState)
    requires 0 <= lo < hi && Searchable(s, lo, hi, axis, Some(Mid(lo, hi)), st)
    requires Visit(s, Mid(lo, hi), q, st).bestDist == 0
    ensures Search(s, lo, hi, axis, Some(Mid(lo, hi)), q, st) == Visit(s, Mid(lo, hi), q, st)
  {
  }

  /** A search whose far half is pruned ends with the outcome of the near half. */
  lemma SearchPruned(s: seq<Node>, lo: int, hi: int, axis: nat, q: Point, st: SearchState, st2: SearchState)
    requires 0 <= lo < hi && Searchable(s, lo, hi, axis, Some(Mid(lo, hi)), st)
    requires Visit(s, Mid(lo, hi), q, st).bestDist != 0
    requires st2 == SearchHalf(s, lo, hi, axis, q, Visit(s, Mid(lo, hi), q, st), s[Mid(lo, hi)].Get(axis) - q.Get(axis) > 0)
    requires Sq(s[Mid(lo, hi)].Get(axis) - q.Get(axis)) >= st2.bestDist
    ensures Search(s, lo, hi, axis, Some(Mid(lo, hi)), q, st) == st2
  {
  }

  /** A search that is not pruned ends with the outcome of the far half, searched after the near one. */
  lemma SearchBothHalves(s: seq<Node>, lo: int, hi: int, axis: nat, q: Point, st: SearchState, st2: SearchState, st3: SearchState)
    requires 0 <= lo < hi && Searchable(s, lo, hi, axis, Some(Mid(lo, hi)), st)
    requires Visit(s, Mid(lo, hi), q, st).bestDist != 0
    requires st2 == SearchHalf(s, lo, hi, axis, q, Visit(s, Mid(lo, hi), q, st), s[Mid(lo, hi)].Get(axis) - q.Get(axis) > 0)
    requires Sq(s[Mid(lo, hi)].Get(axis) - q.Get(axis)) < st2.bestDist
    requires st3 == SearchHalf(s, lo, hi, axis, q, st2, s[Mid(lo, hi)].Get(axis) - q.Get(axis) <= 0)
    ensures Search(s, lo, hi, axis, Some(Mid(lo, hi)), q, st) == st3
  {
  }

  /**
   * Pruning is sound: a point on the far side of the splitting node (no smaller
   * on `axis` when the node lies above the query, no greater otherwise) is at
   * squared distance at least dx * dx from the query.
   */
  lemma PruneSound(p: Point, pivot: Point, q: Point, axis: nat)
    requires axis < D
    requires pivot.Get(axis) - q.Get(axis) > 0 ==> pivot.Get(axis) <= p.Get(axis)
    requires pivot.Get(axis) - q.Get(axis) <= 0 ==> p.Get(axis) <= pivot.Get(axis)
    ensures Sq(pivot.Get(axis) - q.Get(axis)) <= DistanceSquared(p, q)
  {
    var dx := pivot.Get(axis) - q.Get(axis);
    var a := p.Get(axis) - q.Get(axis);
    if dx > 0 {
      SquareMonotone(dx, a);
    } else {
      SquareMonotone(-dx, -a);
      assert (-dx) * (-dx) == dx * dx && (-a) * (-a) == a * a;
    }
    DistanceBoundsAxis(p, q, axis);
  }

  /**
   * The far side of a split: when the squared offset dx * dx of the splitting
   * node from the query on its axis is at least b, every node on the other side
   * of the splitting plane from the query is at squared distance at least b.
   */
  lemma FarSideBound(s: seq<Node>, lo: int, hi: int, axis: nat, q: Point, b: int)
    requires 0 <= lo < hi <= |s| && axis < D
    requires SplitAt(s, lo, hi, axis)
    requires Sq(s[Mid(lo, hi)].Get(axis) - q.Get(axis)) >= b
    ensures s[Mid(lo, hi)].Get(axis) - q.Get(axis) > 0 ==> forall j :: Mid(lo, hi) < j < hi ==> b <= s[j].Distance(q)
    ensures s[Mid(lo, hi)].Get(axis) - q.Get(axis) <= 0 ==> forall i :: lo <= i < Mid(lo, hi) ==> b <= s[i].Distance(q)
  {
    var n := Mid(lo, hi);
    forall j | lo <= j < hi && j != n && (j < n <==> s[n].Get(axis) - q.Get(axis) <= 0)
      ensures b <= s[j].Distance(q)
    {
      PruneSound(s[j].pt, s[n].pt, q, axis);
    }
  }

  /**
   * The search leaves a best squared distance no greater than that of any node
   * of the range it searched.
   */
  lemma {:induction false} SearchFindsNearest(s: seq<Node>, lo: int, hi: int, axis: nat, r: Option<nat>, q: Point, st: SearchState)
    requires 0 <= lo && hi <= |s| && axis < D
    requires Built(s, lo, hi, axis, r)
    requires st.best.Some? ==> st.bestDist >= 0
    ensures forall i :: lo <= i < hi ==> Search(s, lo, hi, axis, r, q, st).bestDist <= s[i].Distance(q)
    decreases hi - lo, 2
  {
    if lo < hi {
      var n := Mid(lo, hi);
      var st1 := Visit(s, n, q, st);
      if st1.bestDist == 0 {
        assert Search(s, lo, hi, axis, r, q, st) == st1;
      } else {
        assert Search(s, lo, hi, axis, r, q, st) == SearchChildren(s, lo, hi, axis, q, st1);
        ChildrenFindNearest(s, lo, hi, axis, q, st1);
      }
    }
  }

  /** The same for the children step: no node of [lo, hi) other than the middle one beats its result. */
  lemma {:induction false} ChildrenFindNearest(s: seq<Node>, lo: int, hi: int, axis: nat, q: Point, st1: SearchState)
    requires 0 <= lo < hi <= |s| && axis < D
    requires Built(s, lo, hi, axis, Some(Mid(lo, hi)))
    requires st1.best.Some? && st1.bestDist > 0
    ensures forall i :: lo <= i < hi && i != Mid(lo, hi) ==> SearchChildren(s, lo, hi, axis, q, st1).bestDist <= s[i].Distance(q)
    decreases hi - lo, 1
  {
    var n := Mid(lo, hi);
    var dx := s[n].Get(axis) - q.Get(axis);
    var st2 := SearchHalf(s, lo, hi, axis, q, st1, dx > 0);
    var out := SearchChildren(s, lo, hi, axis, q, st1);
    HalfFindsNearest(s, lo, hi, axis, q, st1, dx > 0);
    if Sq(dx) >= st2.bestDist {
      assert out == st2;
      FarSideBound(s, lo, hi, axis, q, st2.bestDist);
    } else {
      assert out == SearchHalf(s, lo, hi, axis, q, st2, dx <= 0);
      HalfFindsNearest(s, lo, hi, axis, q, st2, dx <= 0);
    }
    assert out.bestDist <= st2.bestDist;
    forall i | lo <= i < hi && i != n
      ensures out.bestDist <= s[i].Distance(q)
    {
    }
  }

  /** And for one half: no node of the half searched beats the result. */
  lemma {:induction false} HalfFindsNearest(s: seq<Node>, lo: int, hi: int, axis: nat, q: Point, st: SearchState, left: bool)
    requires 0 <= lo < hi <= |s| && axis < D
    requires Built(s, lo, hi, axis, Some(Mid(lo, hi)))
    requires st.best.Some? && st.bestDist > 0
    ensures forall i :: HalfLo(lo, hi, left) <= i < HalfHi(lo, hi, left) ==> SearchHalf(s, lo, hi, axis, q, st, left).bestDist <= s[i].Distance(q)
    decreases hi - lo, 0
  {
    HalfBuilt(s, lo, hi, axis, left);
    SearchFindsNearest(s, HalfLo(lo, hi, left), HalfHi(lo, hi, left), NextAxis(axis), HalfRoot(s, lo, hi, left), q, st);
  }

  /**
   * The query the tree answers: a search from the root on axis 0 from a reset
   * state. An empty tree leaves the state reset; otherwise a stored node is
   * recorded at its true distance after visiting between one node and all.
   */
  function Query(s: seq<Node>, root: Option<nat>, q: Point): (out: SearchState)
    requires Built(s, 0, |s|, 0, root)
    ensures |s| == 0 ==> out == SearchState(None, 0, 0)
    ensures |s| > 0 ==> out.best.Some? && 1 <= out.visited <= |s|
    ensures Consistent(s, q, out)
  {
    Search(s, 0, |s|, 0, root, q, SearchState(None, 0, 0))
  }

  /** The brute-force reference: the least squared distance from q to any of ps. */
  function MinDistSq(ps: seq<Point>, q: Point): (m: int)
    requires |ps| > 0
    ensures exists i :: 0 <= i < |ps| && m == DistanceSquared(ps[i], q)
    ensures forall i :: 0 <= i < |ps| ==> m <= DistanceSquared(ps[i], q)
  {
    if |ps| == 1 then DistanceSquared(ps[0], q)
    else
      var rest := MinDistSq(ps[1..], q);
      if DistanceSquared(ps[0], q) < rest then DistanceSquared(ps[0], q) else rest
  }

  /** The brute-force minimum depends only on which points there are, not their order. */
  lemma MinDistSqPermutation(a: seq<Point>, b: seq<Point>, q: Point)
    requires |a| > 0 && multiset(a) == multiset(b)
    ensures |b| > 0 && MinDistSq(a, q) == MinDistSq(b, q)
  {
    assert a[0] in multiset(b);
    var i :| 0 <= i < |a| && MinDistSq(a, q) == DistanceSquared(a[i], q);
    assert a[i] in multiset(b);
    var j :| 0 <= j < |b| && MinDistSq(b, q) == DistanceSquared(b[j], q);
    assert b[j] in multiset(a);
  }

  /**
   * On a non-empty tree the query finds a stored node whose squared distance to
   * q is the brute-force minimum over all stored points, having visited between
   * one node and all of them.
   */
  lemma QueryIsNearest(s: seq<Node>, root: Option<nat>, q: Point)
    requires Built(s, 0, |s|, 0, root)
    requires |s| > 0
    ensures var out := Query(s, root, q);
      && out.best.Some? && out.best.value < |s|
      && out.bestDist == s[out.best.value].Distance(q)
      && (forall i :: 0 <= i < |s| ==> out.bestDist <= s[i].Distance(q))
      && out.bestDist == MinDistSq(Pts(s), q)
      && 1 <= out.visited <= |s|
  {
    var out := Query(s, root, q);
    SearchFindsNearest(s, 0, |s|, 0, root, q, SearchState(None, 0, 0));
    var ps := Pts(s);
    var k :| 0 <= k < |ps| && MinDistSq(ps, q) == DistanceSquared(ps[k], q);
    assert out.bestDist <= s[k].Distance(q);
    assert MinDistSq(ps, q) <= DistanceSquared(ps[out.best.value], q);
  }

  /** An empty node array has no root, so there is nothing to search. */
  lemma EmptyHasNoRoot(s: seq<Node>, root: Option<nat>)
    requires Built(s, 0, |s|, 0, root)
    ensures root == None <==> |s| == 0
  {
  }

  /** A query equal to a stored point finds that point at squared distance 0. */
  lemma ExactMatchFound(s: seq<Node>, root: Option<nat>, q: Point, k: nat)
    requires Built(s, 0, |s|, 0, root)
    requires k < |s| && s[k].pt == q
    ensures var out := Query(s, root, q);
      out.best.Some? && out.best.value < |s| && out.bestDist == 0 && s[out.best.value].pt == q
  {
    QueryIsNearest(s, root, q);
    var out := Query(s, root, q);
    DistanceZeroIff(q, q);
    assert out.bestDist <= 0;
    DistanceZeroIff(s[out.best.value].pt, q);
  }

  /** The demo data: (10,2) is the point nearest to (9,4), at squared distance 5. */
  function DemoPoints(): seq<Point> {
    [Point([3, 1]), Point([13, 3]), Point([2, 6]), Point([10, 2]), Point([8, 7])]
  }

  /** The query point of the demo. */
  function DemoQuery(): Point {
    Point([9, 4])
  }

  /** The squared distances from the demo points, in order, to the demo query. */
  lemma DemoDistances()
    ensures DistanceSquared(DemoPoints()[0], DemoQuery()) == 45
    ensures DistanceSquared(DemoPoints()[1], DemoQuery()) == 17
    ensures DistanceSquared(DemoPoints()[2], DemoQuery()) == 53
    ensures DistanceSquared(DemoPoints()[3], DemoQuery()) == 5
    ensures DistanceSquared(DemoPoints()[4], DemoQuery()) == 10
  {
    var ps := DemoPoints();
    var q := DemoQuery();
    assert DistanceSquared(ps[0], q) == Sq(3 - 9) + Sq(1 - 4);
    assert DistanceSquared(ps[1], q) == Sq(13 - 9) + Sq(3 - 4);
    assert DistanceSquared(ps[2], q) == Sq(2 - 9) + Sq(6 - 4);
    assert DistanceSquared(ps[3], q) == Sq(10 - 9) + Sq(2 - 4);
    assert DistanceSquared(ps[4], q) == Sq(8 - 9) + Sq(7 - 4);
  }

  /** The brute-force minimum over the demo data is 5. */
  lemma DemoMinimum()
    ensures MinDistSq(DemoPoints(), DemoQuery()) == 5
  {
    var ps := DemoPoints();
    var q := DemoQuery();
    DemoDistances();
    var m := MinDistSq(ps, q);
    var k :| 0 <= k < 5 && m == DistanceSquared(ps[k], q);
    assert m <= DistanceSquared(ps[3], q);
    assert k == 0 || k == 1 || k == 2 || k == 3 || k == 4;
  }

  /** The only demo point at the least squared distance from the demo query is (10,2). */
  lemma DemoNearest(p: Point)
    requires p in DemoPoints()
    requires DistanceSquared(p, DemoQuery()) == MinDistSq(DemoPoints(), DemoQuery())
    ensures p == Point([10, 2]) && MinDistSq(DemoPoints(), DemoQuery()) == 5
  {
    var ps := DemoPoints();
    DemoDistances();
    DemoMinimum();
    var j :| 0 <= j < 5 && ps[j] == p;
    assert j == 0 || j == 1 || j == 2 || j == 3 || j == 4;
  }

}
