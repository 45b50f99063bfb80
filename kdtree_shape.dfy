/**
 * The k-d tree's node records and the shape that construction gives the node
 * array.
 *
 * A tree is stored in one node array. The subtree built over the index range
 * [lo, hi) has its root at the middle index Mid(lo, hi); its left subtree is
 * built over [lo, Mid) and its right subtree over [Mid + 1, hi), both split on
 * the next axis. Child links are optional indices into the array.
 */
module KdTreeShape {
  import opened Wrappers
  import opened Points

  /** A stored point with its two child links. */
  datatype Node = Node(pt: Point, left: Option<nat>, right: Option<nat>) {
    function Get(index: nat): int
      requires index < D
    {
      pt.Get(index)
    }

    /** The squared distance from the stored point to q: never negative, and 0 only at q itself. */
    function Distance(q: Point): (d: int)
      ensures d >= 0
      ensures d == 0 <==> pt == q
    {
      DistanceZeroIff(pt, q);
      DistanceSquared(pt, q)
    }
  }

  /** `node_cmp`: the strict order of two nodes by their coordinate on one axis. */
  predicate NodeLess(axis: nat, a: Node, b: Node)
    requires axis < D
  {
    a.Get(axis) < b.Get(axis)
  }

  /**
   * `node_cmp` is a strict weak ordering, as `std::nth_element` demands of its
   * comparator: irreflexive, transitive, and with incomparability transitive.
   */
  lemma NodeLessIsStrictWeakOrder(axis: nat, a: Node, b: Node, c: Node)
    requires axis < D
    ensures !NodeLess(axis, a, a)
    ensures NodeLess(axis, a, b) && NodeLess(axis, b, c) ==> NodeLess(axis, a, c)
    ensures !NodeLess(axis, a, b) && !NodeLess(axis, b, a) && !NodeLess(axis, b, c) && !NodeLess(axis, c, b)
            ==> !NodeLess(axis, a, c) && !NodeLess(axis, c, a)
  {
  }

  /** The middle index of [lo, hi), rounding down; it lies inside every non-empty range. */
  function Mid(lo: int, hi: int): int {
    lo + (hi - lo) / 2
  }

  /** The axis of the next tree level. */
  function NextAxis(axis: nat): (next: nat)
    ensures next < D
  {
    (axis + 1) % D
  }

  /** The points of a node sequence, in order. */
  function Pts(s: seq<Node>): seq<Point> {
    seq(|s|, i requires 0 <= i < |s| => s[i].pt)
  }

  /** Every node of s[lo..hi) is at most v on `axis`. */
  ghost predicate AllAtMost(s: seq<Node>, lo: int, hi: int, axis: nat, v: int)
    requires 0 <= lo <= hi <= |s| && axis < D
  {
    forall i :: lo <= i < hi ==> s[i].Get(axis) <= v
  }

  /** Every node of s[lo..hi) is at least v on `axis`. */
  ghost predicate AllAtLeast(s: seq<Node>, lo: int, hi: int, axis: nat, v: int)
    requires 0 <= lo <= hi <= |s| && axis < D
  {
    forall i :: lo <= i < hi ==> v <= s[i].Get(axis)
  }

  /**
   * The selection property on axis `axis` at the middle of [lo, hi): every node
   * before the middle one is no greater and every node after it no smaller.
   */
  ghost predicate SplitAt(s: seq<Node>, lo: int, hi: int, axis: nat)
    requires 0 <= lo < hi <= |s| && axis < D
  {
    var n := Mid(lo, hi);
    AllAtMost(s, lo, n, axis, s[n].Get(axis)) && AllAtLeast(s, n + 1, hi, axis, s[n].Get(axis))
  }

  /**
   * `r` is the root of a k-d tree built over s[lo..hi) splitting on `axis`:
   * no root for an empty range; otherwise the middle node, split on `axis`, with
   * links to the roots of the trees built over the two halves on the next axis.
   */
  ghost predicate Built(s: seq<Node>, lo: int, hi: int, axis: nat, r: Option<nat>)
    requires 0 <= lo && hi <= |s| && axis < D
    decreases hi - lo
  {
    if hi <= lo then r == None
    else
      var n := Mid(lo, hi);
      && r == Some(n)
      && SplitAt(s, lo, hi, axis)
      && Built(s, lo, n, NextAxis(axis), s[n].left)
      && Built(s, n + 1, hi, NextAxis(axis), s[n].right)
  }

  /** The ranges [lo, hi) of s and t hold the same points, counted with multiplicity. */
  ghost predicate SamePoints(s: seq<Node>, t: seq<Node>, lo: int, hi: int)
    requires 0 <= lo <= hi <= |s| && hi <= |t|
  {
    multiset(Pts(t[lo..hi])) == multiset(Pts(s[lo..hi]))
  }

  /** s and t hold the same nodes at every index of [lo, hi). */
  ghost predicate SameNodes(s: seq<Node>, t: seq<Node>, lo: int, hi: int)
    requires 0 <= lo <= hi <= |s| && hi <= |t|
  {
    forall i :: lo <= i < hi ==> t[i] == s[i]
  }

  /**
   * t is s with the nodes of [lo, hi) rearranged (and their links possibly
   * changed): the same points in the range, and nothing outside it changed.
   */
  ghost predicate Permuted(s: seq<Node>, t: seq<Node>, lo: int, hi: int)
    requires 0 <= lo <= hi <= |s|
  {
    && |t| == |s|
    && SameNodes(s, t, 0, lo) && SameNodes(s, t, hi, |s|)
    && SamePoints(s, t, lo, hi)
  }

  /** t is s with [lo, hi) rearranged into a tree built on `axis` with root r. */
  ghost predicate BuiltFrom(s: seq<Node>, t: seq<Node>, lo: int, hi: int, axis: nat, r: Option<nat>)
    requires 0 <= lo <= hi <= |s| && axis < D
  {
    Permuted(s, t, lo, hi) && Built(t, lo, hi, axis, r)
  }

  /** Rearranging a range twice is rearranging it once. */
  lemma PermutedTrans(s: seq<Node>, t: seq<Node>, u: seq<Node>, lo: int, hi: int)
    requires 0 <= lo <= hi <= |s|
    requires Permuted(s, t, lo, hi) && Permuted(t, u, lo, hi)
    ensures Permuted(s, u, lo, hi)
  {
  }

  /**
   * What the steps of one construction level leave in place around the middle
   * node n: the built right half holds the points the selection left there, the
   * middle node keeps its point and gets both links, the built halves are
   * copied unchanged into the last snapshot, and nothing outside [lo, hi) moved.
   */
  ghost predicate LevelLinked(s1: seq<Node>, s2: seq<Node>, s4: seq<Node>, s5: seq<Node>,
                              lo: int, n: int, hi: int, left: Option<nat>, right: Option<nat>)
  {
    && 0 <= lo <= n < hi <= |s1|
    && |s2| == |s1| && |s4| == |s1| && |s5| == |s1|
    && SamePoints(s1, s4, n + 1, hi)
    && s5[n] == Node(s1[n].pt, left, right)
    && SameNodes(s2, s5, lo, n) && SameNodes(s4, s5, n + 1, hi)
    && SameNodes(s1, s5, 0, lo) && SameNodes(s1, s5, hi, |s1|)
  }
}
