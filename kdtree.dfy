/**
 * The k-d tree object: a node array that construction rearranges in place and
 * links into a tree, and a nearest-neighbour query that records its best node,
 * best squared distance and visit count in the object.
 */
module KdTrees {
  import opened Wrappers
  import opened Points
  import opened KdTreeShape
  import opened KdTreeBuild
  import opened KdTreeSpec

  /** The `std::logic_error` the query throws. */
  datatype Error = LogicError(message: string)

  datatype Result<T> = Ok(value: T) | Err(error: Error)

  class KDTree {
    /** `mNodes`: the stored nodes; child links are indices into this array. */
    var nodes: array<Node>
    /** `mRootNode` */
    var root: Option<nat>
    /** `mBestNode`, `mBestDist` and `mVisited`: the outcome of the last query. */
    var bestNode: Option<nat>
    var bestDist: int
    var visited: nat

    /**
     * The node array is a tree built over all of it with `root` at the top, and
     * the recorded query outcome refers to a stored node.
     */
    ghost predicate Valid()
      reads this, nodes
    {
      && Built(nodes[..], 0, nodes.Length, 0, root)
      && (bestNode.Some? ==> bestNode.value < nodes.Length && bestDist >= 0)
      && visited <= nodes.Length
    }

    /** The query outcome as a search state. */
    function State(): SearchState
      reads this
    {
      SearchState(bestNode, bestDist, visited)
    }

    /** Construction from a range of points: the nodes hold the points, then the tree is built. */
    constructor (points: seq<Point>)
      ensures Valid() && fresh(nodes)
      ensures nodes.Length == |points| && multiset(Pts(nodes[..])) == multiset(points)
      ensures bestNode == None && bestDist == 0 && visited == 0
    {
      nodes := new Node[|points|](i requires 0 <= i < |points| => Node(points[i], None, None));
      root := None;
      bestNode := None;
      bestDist := 0;
      visited := 0;
      new;
      ghost var s0 := nodes[..];
      assert Pts(s0) == points;
      root := MakeTree(0, nodes.Length, 0);
      assert s0[0..|s0|] == s0 && nodes[..][0..nodes.Length] == nodes[..];
    }

    /**
     * Construction from a point generator called n times; the i-th call
     * (counting from 0) returns f(i).
     */
    constructor FromGenerator(f: nat -> Point, n: nat)
      ensures Valid() && fresh(nodes)
      ensures nodes.Length == n && multiset(Pts(nodes[..])) == multiset(seq(n, i requires 0 <= i < n => f(i)))
      ensures bestNode == None && bestDist == 0 && visited == 0
    {
      var a := new Node[n](_ => Node(Point([0, 0]), None, None));
      var i := 0;
      while i < n
        invariant 0 <= i <= n
        invariant forall k :: 0 <= k < i ==> a[k] == Node(f(k), None, None)
      {
        a[i] := Node(f(i), None, None);
        i := i + 1;
      }
      nodes := a;
      root := None;
      bestNode := None;
      bestDist := 0;
      visited := 0;
      new;
      ghost var s0 := nodes[..];
      assert Pts(s0) == seq(n, i requires 0 <= i < n => f(i));
      root := MakeTree(0, nodes.Length, 0);
      assert s0[0..|s0|] == s0 && nodes[..][0..nodes.Length] == nodes[..];
    }

    /** Whether the tree holds no point, which is exactly when it has no root. */
    function Empty(): (e: bool)
      reads this, nodes
      requires Valid()
      ensures e <==> root.None?
    {
      EmptyHasNoRoot(nodes[..], root);
      nodes.Length == 0
    }

    /** The number of nodes the last query visited; never more than the tree holds. */
    function Visited(): (v: nat)
      reads this, nodes
      requires Valid()
      ensures v <= nodes.Length
    {
      visited
    }

    /**
     * Builds the tree over nodes[lo..hi) on `axis`: the middle node is selected
     * on `axis`, the halves are built on the next axis and linked to it. The
     * range keeps its points and nothing outside it changes.
     */
    method MakeTree(lo: nat, hi: nat, axis: nat) returns (r: Option<nat>)
      requires lo <= hi <= nodes.Length && axis < D
      modifies nodes
      ensures BuiltFrom(old(nodes[..]), nodes[..], lo, hi, axis, r)
      decreases hi - lo
    {
      if hi <= lo {
        return None;
      }
      ghost var s0 := nodes[..];
      var n := lo + (hi - lo) / 2;
      NthElement(lo, n, hi, axis);
      ghost var s1 := nodes[..];
      assert SplitAt(s1, lo, hi, axis);
      var next := (axis + 1) % D;
      var left := MakeTree(lo, n, next);
      ghost var s2 := nodes[..];
      nodes[n] := nodes[n].(left := left);
      ghost var s3 := nodes[..];
      var right := MakeTree(n + 1, hi, next);
      ghost var s4 := nodes[..];
      nodes[n] := nodes[n].(right := right);
      ghost var s5 := nodes[..];
      LevelBuilt(s0, s1, s2, s3, s4, s5, lo, hi, axis, left, right);
      r := Some(n);
    }

    /**
     * `std::nth_element` with `node_cmp(axis)` on nodes[lo..hi): the range is
     * permuted so that no node before position n is greater than the node at n
     * and no node after it is smaller. Whole nodes move, links included, and
     * nothing outside the range changes.
     */
    method NthElement(lo: nat, n: nat, hi: nat, axis: nat)
      requires lo <= n < hi <= nodes.Length && axis < D
      modifies nodes
      ensures forall i :: lo <= i < n ==> !NodeLess(axis, nodes[n], nodes[i])
      ensures forall j :: n < j < hi ==> !NodeLess(axis, nodes[j], nodes[n])
      ensures Permuted(old(nodes[..]), nodes[..], lo, hi)
      ensures multiset(nodes[lo..hi]) == multiset(old(nodes[lo..hi]))
    {
      var k := lo;
      while k <= n
        invariant lo <= k <= n + 1
        invariant SelectedBelow(nodes[..], lo, k, hi, axis)
        invariant Permuted(old(nodes[..]), nodes[..], lo, hi)
        invariant multiset(nodes[lo..hi]) == multiset(old(nodes[lo..hi]))
      {
        var m := MinIndex(k, hi, axis);
        ghost var before := nodes[..];
        Swap(k, m);
        SelectStep(before, lo, k, m, hi, axis);
        SwapPermutes(before, lo, hi, k, m);
        SwapKeepsNodes(before, lo, hi, k, m);
        PermutedTrans(old(nodes[..]), before, nodes[..], lo, hi);
        k := k + 1;
      }
      SelectedSplits(nodes[..], lo, n, hi, axis);
    }

    /** The first index in [k, hi) of a node least on `axis`. */
    method MinIndex(k: nat, hi: nat, axis: nat) returns (m: nat)
      requires k < hi <= nodes.Length && axis < D
      ensures k <= m < hi
      ensures forall j :: k <= j < hi ==> nodes[m].Get(axis) <= nodes[j].Get(axis)
      ensures forall j :: k <= j < m ==> NodeLess(axis, nodes[m], nodes[j])
    {
      m := k;
      var j := k + 1;
      while j < hi
        invariant k <= m < j <= hi
        invariant forall i :: k <= i < j ==> nodes[m].Get(axis) <= nodes[i].Get(axis)
        invariant forall i :: k <= i < m ==> NodeLess(axis, nodes[m], nodes[i])
      {
        if NodeLess(axis, nodes[j], nodes[m]) {
          m := j;
        }
        j := j + 1;
      }
    }

    /** Exchanges two stored nodes. */
    method Swap(i: nat, j: nat)
      requires i < nodes.Length && j < nodes.Length
      modifies nodes
      ensures nodes[..] == old(nodes[..])[i := old(nodes[j])][j := old(nodes[i])]
    {
      nodes[i], nodes[j] := nodes[j], nodes[i];
    }

    /**
     * The recursive search from `r`, the root of the tree built over [lo, hi)
     * on `index`: the query outcome becomes the one the search specification
     * gives for the outcome before the call.
     */
    method NearestRecursive(r: Option<nat>, point: Point, index: nat, ghost s: seq<Node>, ghost lo: int, ghost hi: int)
      requires s == nodes[..]
      requires Searchable(s, lo, hi, index, r, State())
      modifies this`bestNode, this`bestDist, this`visited
      ensures State() == Search(s, lo, hi, index, r, point, old(State()))
      decreases hi - lo
    {
      if r.None? {
        return;
      }
      ghost var st := State();
      var n := r.value;
      var node := nodes[n];
      assert node == s[n] && lo < hi && n == Mid(lo, hi);
      assert 0 <= lo < hi && Searchable(s, lo, hi, index, Some(Mid(lo, hi)), st);
      visited := visited + 1;
      var distance := GetDistanceSquared(node.pt, point);
      if bestNode.None? || distance < bestDist {
        bestDist := distance;
        bestNode := Some(n);
      }
      ghost var st1 := State();
      assert st1 == Visit(s, n, point, st);
      if bestDist == 0 {
        SearchStopsAtMatch(s, lo, hi, index, point, st);
        return;
      }
      var dx := node.Get(index) - point.Get(index);
      var next := (index + 1) % D;
      assert HalfRoot(s, lo, hi, dx > 0) == if dx > 0 then node.left else node.right;
      assert HalfRoot(s, lo, hi, dx <= 0) == if dx > 0 then node.right else node.left;
      HalfSearchable(s, lo, hi, index, State(), dx > 0);
      NearestRecursive(if dx > 0 then node.left else node.right, point, next,
                       s, HalfLo(lo, hi, dx > 0), HalfHi(lo, hi, dx > 0));
      ghost var st2 := State();
      if dx * dx >= bestDist {
        SearchPruned(s, lo, hi, index, point, st, st2);
        return;
      }
      assert bestDist > Sq(dx) >= 0;
      HalfSearchable(s, lo, hi, index, State(), dx <= 0);
      NearestRecursive(if dx > 0 then node.right else node.left, point, next,
                       s, HalfLo(lo, hi, dx <= 0), HalfHi(lo, hi, dx <= 0));
      SearchBothHalves(s, lo, hi, index, point, st, st2, State());
    }

    /**
     * The nearest stored point to `point`. On an empty tree the query fails
     * with a logic error and changes nothing. Otherwise the outcome is the
     * search from the root on axis 0 from a reset state: a stored point at the
     * least squared distance to `point` over all stored points, found after
     * visiting between one node and all of them.
     */
    method Nearest(point: Point) returns (result: Result<Point>)
      requires Valid()
      modifies this`bestNode, this`bestDist, this`visited
      ensures Valid()
      ensures result.Err? <==> nodes.Length == 0
      ensures result.Err? ==> result.error == LogicError("tree is Empty") && State() == old(State())
      ensures result.Ok? ==>
        && State() == Query(nodes[..], root, point)
        && bestNode.Some? && result.value == nodes[bestNode.value].pt
        && result.value in Pts(nodes[..])
        && bestDist == DistanceSquared(result.value, point)
        && (forall i :: 0 <= i < nodes.Length ==> bestDist <= nodes[i].Distance(point))
        && bestDist == MinDistSq(Pts(nodes[..]), point)
        && 1 <= visited <= nodes.Length
    {
      EmptyHasNoRoot(nodes[..], root);
      if root.None? {
        return Err(LogicError("tree is Empty"));
      }
      bestNode := None;
      visited := 0;
      bestDist := 0;
      assert Searchable(nodes[..], 0, nodes.Length, 0, root, State());
      NearestRecursive(root, point, 0, nodes[..], 0, nodes.Length);
      QueryIsNearest(nodes[..], root, point);
      assert Pts(nodes[..])[bestNode.value] == nodes[bestNode.value].pt;
      result := Ok(nodes[bestNode.value].pt);
    }
  }

  /**
   * The demo of the program: a tree over (3,1), (13,3), (2,6), (10,2) and
   * (8,7) queried with (9,4) answers (10,2) at squared distance 5.
   */
  method WikipediaExample() returns (nearest: Point, distance: int, visited: nat)
    ensures nearest == Point([10, 2]) && distance == 5
    ensures 1 <= visited <= 5
  {
    var tree := new KDTree(DemoPoints());
    var result := tree.Nearest(DemoQuery());
    nearest := result.value;
    distance := tree.bestDist;
    visited := tree.Visited();
    MinDistSqPermutation(Pts(tree.nodes[..]), DemoPoints(), DemoQuery());
    assert nearest in multiset(Pts(tree.nodes[..]));
    DemoNearest(nearest);
  }
}
